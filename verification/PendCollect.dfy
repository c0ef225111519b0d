/** What a multi-pend takes: exactly what it reports, oldest first, from the events that have something to give. */
module PendCollect {
  import opened KernelSpec
  import opened KernelRuns

  /** The messages reported for event `e`, in order. */
  function MessagesFor(events: seq<nat>, msgs: seq<Ptr>, e: nat): seq<Ptr>
    requires |events| == |msgs|
  {
    if events == [] then []
    else
      var n := |events| - 1;
      MessagesFor(events[..n], msgs[..n], e) + if events[n] == e then [msgs[n]] else []
  }

  function Occurrences(list: seq<nat>, e: nat): nat {
    if list == [] then 0 else Occurrences(list[..|list| - 1], e) + if list[|list| - 1] == e then 1 else 0
  }

  function Lesser(a: nat, b: nat): nat { if a < b then a else b }

  /** Taking one message removes exactly the first token. */
  lemma ConsumeFirstToken(b: Body)
    ensures Available(b) <==> Tokens(b) != []
    ensures Available(b) ==> Tokens(b) == [MessageOf(b)] + Tokens(Consumed(b))
  {
  }

  /** Conservation: for every event, what was reported followed by what is left is what was there. */
  lemma {:induction false} NothingLostNothingInvented(bodies: seq<Body>, list: seq<nat>, e: nat)
    requires AllPendable(bodies, list) && e < |bodies|
    ensures var h := Collect(bodies, list);
            MessagesFor(h.events, h.msgs, e) + Tokens(h.bodies[e]) == Tokens(bodies[e])
  {
    if list != [] {
      var prefix, f := list[..|list| - 1], list[|list| - 1];
      NothingLostNothingInvented(bodies, prefix, e);
      var h := Collect(bodies, prefix);
      assert h.bodies[f].SameKind(bodies[f]);
      VisitConserves(h, f, e);
    }
  }

  lemma VisitConserves(h: Haul, f: nat, e: nat)
    requires f < |h.bodies| && e < |h.bodies| && h.bodies[f].Pendable() && |h.events| == |h.msgs|
    ensures var h' := Visit(h, f);
            && |h'.events| == |h'.msgs|
            && MessagesFor(h'.events, h'.msgs, e) + Tokens(h'.bodies[e]) == MessagesFor(h.events, h.msgs, e) + Tokens(h.bodies[e])
            && |MessagesFor(h'.events, h'.msgs, e)| ==
               |MessagesFor(h.events, h.msgs, e)| + if f == e && Tokens(h.bodies[e]) != [] then 1 else 0
  {
    ConsumeFirstToken(h.bodies[f]);
    if Available(h.bodies[f]) {
      var m := MessageOf(h.bodies[f]);
      OneMoreMessage(h.events, h.msgs, f, m, e);
      hide Tokens, MessageOf, Consumed, MessagesFor;
      var before := MessagesFor(h.events, h.msgs, e);
      if f == e {
        assert before + ([m] + Tokens(Consumed(h.bodies[f]))) == before + [m] + Tokens(Consumed(h.bodies[f]));
      }
    }
  }

  lemma OneMoreMessage(events: seq<nat>, msgs: seq<Ptr>, f: nat, m: Ptr, e: nat)
    requires |events| == |msgs|
    ensures MessagesFor(events + [f], msgs + [m], e) == MessagesFor(events, msgs, e) + if f == e then [m] else []
  {
    assert (events + [f])[..|events|] == events && (msgs + [m])[..|msgs|] == msgs;
  }

  /** Each time an event is listed it gives one message, until it has none. */
  lemma {:induction false} OneMessagePerListing(bodies: seq<Body>, list: seq<nat>, e: nat)
    requires AllPendable(bodies, list) && e < |bodies|
    ensures var h := Collect(bodies, list);
            |MessagesFor(h.events, h.msgs, e)| == Lesser(Occurrences(list, e), |Tokens(bodies[e])|)
  {
    if list != [] {
      var prefix, f := list[..|list| - 1], list[|list| - 1];
      OneMessagePerListing(bodies, prefix, e);
      NothingLostNothingInvented(bodies, prefix, e);
      var h := Collect(bodies, prefix);
      assert h.bodies[f].SameKind(bodies[f]);
      VisitConserves(h, f, e);
      var taken := MessagesFor(h.events, h.msgs, e);
      assert |taken| + |Tokens(h.bodies[e])| == |taken + Tokens(h.bodies[e])| == |Tokens(bodies[e])|;
    }
  }

  /** At its k-th listing an event gives its k-th message, if it has that many. */
  predicate Gives(bodies: seq<Body>, list: seq<nat>, n: nat)
    requires n < |list| && list[n] < |bodies|
  {
    Occurrences(list[..n], list[n]) < |Tokens(bodies[list[n]])|
  }

  /** What a pass reports, read off the list and the events as they were: events and messages in list order. */
  function Reported(bodies: seq<Body>, list: seq<nat>): (r: (seq<nat>, seq<Ptr>))
    requires InRange(list, |bodies|)
    ensures |r.0| == |r.1|
  {
    if list == [] then ([], [])
    else
      var n := |list| - 1;
      var (events, msgs) := Reported(bodies, list[..n]);
      if Gives(bodies, list, n)
      then (events + [list[n]], msgs + [Tokens(bodies[list[n]])[Occurrences(list[..n], list[n])]])
      else (events, msgs)
  }

  lemma NextToken(bodies: seq<Body>, list: seq<nat>, f: nat)
    requires AllPendable(bodies, list) && f < |bodies|
    ensures var h := Collect(bodies, list);
            && (Available(h.bodies[f]) <==> Occurrences(list, f) < |Tokens(bodies[f])|)
            && (Available(h.bodies[f]) ==> MessageOf(h.bodies[f]) == Tokens(bodies[f])[Occurrences(list, f)])
  {
    var h := Collect(bodies, list);
    var taken, left := MessagesFor(h.events, h.msgs, f), Tokens(h.bodies[f]);
    NothingLostNothingInvented(bodies, list, f);
    OneMessagePerListing(bodies, list, f);
    ConsumeFirstToken(h.bodies[f]);
    assert taken + left == Tokens(bodies[f]);
    assert |taken| + |left| == |Tokens(bodies[f])|;
    hide Collect, Tokens, MessagesFor, Occurrences;
    if left != [] {
      assert (taken + left)[|taken|] == left[0];
    }
  }

  /** For every list, repeats included: which events are reported, in what order, and with which messages. */
  lemma {:induction false} ReportedInOrder(bodies: seq<Body>, list: seq<nat>)
    requires AllPendable(bodies, list)
    ensures (Collect(bodies, list).events, Collect(bodies, list).msgs) == Reported(bodies, list)
  {
    if list != [] {
      var n := |list| - 1;
      ReportedInOrder(bodies, list[..n]);
      NextToken(bodies, list[..n], list[n]);
    }
  }

  /** The listed events that have something to give, in list order. */
  function AvailableOf(bodies: seq<Body>, list: seq<nat>): seq<nat>
    requires InRange(list, |bodies|)
  {
    if list == [] then []
    else
      var n := |list| - 1;
      AvailableOf(bodies, list[..n]) + if Available(bodies[list[n]]) then [list[n]] else []
  }

  lemma {:induction false} NotListed(list: seq<nat>, e: nat)
    requires e !in list
    ensures Occurrences(list, e) == 0
  {
    if list != [] {
      NotListed(list[..|list| - 1], e);
      assert list[|list| - 1] in list;
    }
  }

  /** An event not listed before still has what it had. */
  lemma FirstListing(bodies: seq<Body>, list: seq<nat>, f: nat)
    requires AllPendable(bodies, list) && f < |bodies| && f !in list
    ensures var h := Collect(bodies, list);
            && (Available(h.bodies[f]) <==> Available(bodies[f]))
            && (Available(bodies[f]) ==> MessageOf(h.bodies[f]) == MessageOf(bodies[f]))
  {
    NotListed(list, f);
    NextToken(bodies, list, f);
    ConsumeFirstToken(bodies[f]);
    hide Collect;
  }

  /** With no event listed twice, those are the available ones, each with its own oldest message. */
  lemma {:induction false} ReportsAvailable(bodies: seq<Body>, list: seq<nat>)
    requires AllPendable(bodies, list)
    requires forall j, k :: 0 <= j < k < |list| ==> list[j] != list[k]
    ensures Collect(bodies, list).events == AvailableOf(bodies, list)
    ensures var h := Collect(bodies, list);
            forall k :: 0 <= k < |h.events| ==>
              h.events[k] < |bodies| && Available(bodies[h.events[k]]) && h.msgs[k] == MessageOf(bodies[h.events[k]])
  {
    if list != [] {
      var n := |list| - 1;
      ReportsAvailable(bodies, list[..n]);
      assert list[n] !in list[..n];
      FirstListing(bodies, list[..n], list[n]);
      hide Available, MessageOf, Consumed, Tokens, Occurrences;
    }
  }

  /** Nothing is reported exactly when no listed event has anything, and then nothing is consumed. */
  lemma {:induction false} BlocksOnlyWhenAllEmpty(bodies: seq<Body>, list: seq<nat>)
    requires AllPendable(bodies, list)
    ensures var h := Collect(bodies, list);
            && (h.events == [] <==> forall k :: 0 <= k < |list| ==> !Available(bodies[list[k]]))
            && (h.events == [] ==> h.bodies == bodies)
  {
    if list != [] {
      var n := |list| - 1;
      var prefix := list[..n];
      BlocksOnlyWhenAllEmpty(bodies, prefix);
      if Collect(bodies, list).events == [] {
        forall k | 0 <= k < |list| ensures !Available(bodies[list[k]]) {
          assert k < n ==> prefix[k] == list[k];
        }
      } else if Collect(bodies, prefix).events != [] {
        var k :| 0 <= k < |prefix| && Available(bodies[prefix[k]]);
        assert list[k] == prefix[k];
      }
    }
  }

  /**
   When a pend on several events is refused, with which code, when it takes
   what is there, and when it blocks; a refusal changes nothing.
   */
  lemma MultiPendOutcome(s: Sys, list: seq<nat>, timeout: nat)
    requires s.cur in s.tasks && InRange(list, |s.bodies|)
    ensures var (s', outcome) := PendMultiStart(s, list, timeout);
            var wrong := exists k :: 0 <= k < |list| && s.bodies[list[k]].Other?;
            var something := exists k :: 0 <= k < |list| && Available(s.bodies[list[k]]);
            && (outcome == Refused(ErrEventType) <==> wrong)
            && (outcome == Refused(ErrPendIsr) <==> !wrong && s.intNesting > 0)
            && (outcome == Refused(ErrPendLocked) <==> !wrong && s.intNesting == 0 && s.lockNesting > 0)
            && (outcome.Taken? <==> !wrong && s.intNesting == 0 == s.lockNesting && something)
            && (outcome.Blocked? <==> !wrong && s.intNesting == 0 == s.lockNesting && !something)
            && (outcome.Refused? ==> s' == s)
            && (outcome.Taken? ==>
                  && (outcome.events, outcome.msgs) == Reported(s.bodies, list)
                  && s' == s.(bodies := Collect(s.bodies, list).bodies))
  {
    if AllPendable(s.bodies, list) {
      BlocksOnlyWhenAllEmpty(s.bodies, list);
      ReportedInOrder(s.bodies, list);
    } else {
      var k :| 0 <= k < |list| && !s.bodies[list[k]].Pendable();
    }
    hide Collect, EventTaskWaitMulti, Reported;
  }

  /** The status bit of a task that waits for such an event. */
  predicate WaitsWith(b: Body, bit: bv8) {
    match b
    case Sem(_) => bit == 0x01
    case Mbox(_) => bit == 0x02
    case Queue(_) => bit == 0x04
    case Other => false
  }

  /** When nothing is available, the status bits collected are those of the kinds of event listed, and no others. */
  lemma {:induction false} WaitBitsAreTheKinds(bodies: seq<Body>, list: seq<nat>, bit: bv8)
    requires AllPendable(bodies, list) && Collect(bodies, list).events == []
    ensures Collect(bodies, list).bits & 0xf8 == 0
    ensures bit in {0x01, 0x02, 0x04} ==>
              (Collect(bodies, list).bits & bit != 0 <==> exists k :: 0 <= k < |list| && WaitsWith(bodies[list[k]], bit))
  {
    if list != [] {
      var n := |list| - 1;
      var prefix := list[..n];
      EmptyHaulBits(bodies, prefix);
      WaitBitsAreTheKinds(bodies, prefix, bit);
      assert forall k :: 0 <= k < n ==> prefix[k] == list[k];
      var bits, more := Collect(bodies, prefix).bits, WaitBit(bodies[list[n]]);
      assert Collect(bodies, list).bits == bits | more;
      OrOfBits(bits, more, bit);
    }
  }

  lemma OrOfBits(a: bv8, b: bv8, bit: bv8)
    ensures a & 0xf8 == 0 && b & 0xf8 == 0 ==> (a | b) & 0xf8 == 0
    ensures (a | b) & bit != 0 <==> a & bit != 0 || b & bit != 0
  {
  }
}
