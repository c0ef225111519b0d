/**
 The doubly linked ring behind the alarm list.  A node is an index; node 0 is
 the head of the list.
 */
module AlarmLinks {
  import opened Lists

  datatype Links = Links(next: seq<nat>, prev: seq<nat>)

  predicate WellFormed(l: Links) {
    && 0 < |l.next| == |l.prev|
    && forall i :: 0 <= i < |l.next| ==> l.next[i] < |l.next| && l.prev[i] < |l.next|
  }

  /** The k-th node of a walk that starts and ends at the head. */
  function At(xs: seq<nat>, k: nat): nat {
    if 0 < k <= |xs| then xs[k - 1] else 0
  }

  ghost predicate LinkedAt(l: Links, xs: seq<nat>, k: nat)
    requires WellFormed(l)
  {
    At(xs, k) < |l.next| && At(xs, k + 1) < |l.next| && l.next[At(xs, k)] == At(xs, k + 1) && l.prev[At(xs, k + 1)] == At(xs, k)
  }

  /** From the head, forwards and backwards, the ring goes through `xs` and nothing else. */
  ghost predicate Ring(l: Links, xs: seq<nat>) {
    && WellFormed(l) && NoRepeats(xs) && 0 !in xs
    && forall k: nat :: k <= |xs| ==> LinkedAt(l, xs, k)
  }

  /** A node on no list points at itself. */
  predicate Alone(l: Links, e: nat) {
    e < |l.next| && e < |l.prev| && l.next[e] == e && l.prev[e] == e
  }

  /** The four assignments that put `e` behind the head. */
  function Inserted(l: Links, e: nat): Links
    requires WellFormed(l) && e < |l.next|
  {
    var prev1 := l.prev[e := 0];
    var next1 := l.next[e := l.next[0]];
    var prev2 := prev1[next1[0] := e];
    Links(next1[0 := e], prev2)
  }

  /** The four assignments that take `e` off the list it is on. */
  function Removed(l: Links, e: nat): Links
    requires WellFormed(l) && e < |l.next|
  {
    var prev1 := l.prev[l.next[e] := l.prev[e]];
    var next1 := l.next[prev1[e] := l.next[e]];
    Links(next1[e := e], prev1[e := e])
  }

  lemma InRing(l: Links, xs: seq<nat>, k: nat)
    requires Ring(l, xs) && k < |xs|
    ensures xs[k] < |l.next| && xs[k] != 0
  {
    assert LinkedAt(l, xs, k);
    assert xs[k] in xs;
  }

  /** Inserting a node that is not on the list puts it first. */
  lemma InsertPrepends(l: Links, xs: seq<nat>, e: nat)
    requires Ring(l, xs) && e < |l.next| && e != 0 && e !in xs
    ensures Ring(Inserted(l, e), [e] + xs)
  {
    var l', ys := Inserted(l, e), [e] + xs;
    assert LinkedAt(l, xs, 0);
    forall k: nat | k <= |ys| ensures LinkedAt(l', ys, k) {
      if k > 0 {
        assert At(ys, k + 1) == At(xs, k);
        assert k > 1 ==> At(ys, k) == At(xs, k - 1);
        assert LinkedAt(l, xs, k - 1);
        OnlyTheHeadIsFirst(xs, k);
      }
    }
  }

  lemma OnlyTheHeadIsFirst(xs: seq<nat>, k: nat)
    requires NoRepeats(xs) && 0 !in xs && k <= |xs| + 1
    ensures 1 < k <= |xs| + 1 ==> At(xs, k - 1) != 0 && At(xs, k) != At(xs, 1)
  {
    if 1 < k <= |xs| + 1 {
      assert xs[k - 2] in xs && xs[0] in xs;
      assert k <= |xs| ==> xs[0] != xs[k - 1];
    }
  }

  lemma Apart(xs: seq<nat>, j: nat, k: nat)
    requires NoRepeats(xs) && 0 !in xs && j <= |xs| && k <= |xs| && j != k
    ensures At(xs, j) != At(xs, k)
  {
    if j == 0 {
      assert xs[k - 1] in xs;
    } else if k == 0 {
      assert xs[j - 1] in xs;
    }
  }

  /** Removing the node at position `i` closes the ring over it and leaves the node alone. */
  lemma RemoveDrops(l: Links, xs: seq<nat>, i: nat)
    requires Ring(l, xs) && i < |xs|
    ensures xs[i] < |l.next| && Ring(Removed(l, xs[i]), xs[..i] + xs[i + 1..]) && Alone(Removed(l, xs[i]), xs[i])
  {
    InRing(l, xs, i);
    var e, ys := xs[i], xs[..i] + xs[i + 1..];
    var l' := Removed(l, e);
    assert LinkedAt(l, xs, i) && LinkedAt(l, xs, i + 1);
    forall k: nat | k <= |ys| ensures LinkedAt(l', ys, k) {
      RemoveLink(l, xs, i, k);
    }
    forall a, b | 0 <= a < b < |ys| ensures ys[a] != ys[b] {
      assert ys[a] == xs[if a < i then a else a + 1] && ys[b] == xs[if b < i then b else b + 1];
    }
  }

  lemma RemoveLink(l: Links, xs: seq<nat>, i: nat, k: nat)
    requires Ring(l, xs) && i < |xs| && k < |xs| && xs[i] < |l.next|
    ensures WellFormed(Removed(l, xs[i])) && LinkedAt(Removed(l, xs[i]), xs[..i] + xs[i + 1..], k)
  {
    var ys := xs[..i] + xs[i + 1..];
    var a, b := if k <= i then k else k + 1, if k < i then k + 1 else k + 2;
    assert At(ys, k) == At(xs, a) && At(ys, k + 1) == At(xs, b);
    assert LinkedAt(l, xs, i) && LinkedAt(l, xs, i + 1);
    var b' := if b == |xs| + 1 then 0 else b;
    assert At(xs, b) == At(xs, b');
    Apart(xs, a, i + 1);
    Apart(xs, b', i + 1);
    if k != i {
      assert LinkedAt(l, xs, a);
      Apart(xs, a, i);
      var after := if i + 2 == |xs| + 1 then 0 else i + 2;
      assert At(xs, i + 2) == At(xs, after);
      Apart(xs, b', after);
    }
  }

  /** So removing it again does nothing. */
  lemma RemoveAgain(l: Links, e: nat)
    requires WellFormed(l) && Alone(l, e)
    ensures Removed(l, e) == l
  {
    assert l.next[e := l.next[e]] == l.next && l.prev[e := l.prev[e]] == l.prev;
  }

  function Walk(l: Links, from: nat, steps: nat): nat
    requires WellFormed(l) && from < |l.next|
    ensures Walk(l, from, steps) < |l.next|
  {
    if steps == 0 then from else l.next[Walk(l, from, steps - 1)]
  }

  /**
   Inserting a node that is on the list already breaks it: a walk from the
   first node never comes back to the head.
   */
  lemma ReinsertNeverEnds(l: Links, xs: seq<nat>, i: nat, steps: nat)
    requires Ring(l, xs) && i < |xs|
    ensures xs[i] < |l.next| && WellFormed(Inserted(l, xs[i]))
    ensures Walk(Inserted(l, xs[i]), Inserted(l, xs[i]).next[0], steps) != 0
  {
    InRing(l, xs, i);
    StuckInLoop(l, xs, i, steps);
  }

  lemma {:induction false} StuckInLoop(l: Links, xs: seq<nat>, i: nat, steps: nat)
    requires Ring(l, xs) && i < |xs| && xs[i] < |l.next|
    ensures WellFormed(Inserted(l, xs[i]))
    ensures exists k :: 0 <= k <= i && Walk(Inserted(l, xs[i]), Inserted(l, xs[i]).next[0], steps) == xs[k]
  {
    var e := xs[i];
    var l' := Inserted(l, e);
    InRing(l, xs, i);
    assert LinkedAt(l, xs, 0);
    if steps == 0 {
      assert l'.next[0] == e;
    } else {
      StuckInLoop(l, xs, i, steps - 1);
      var k :| 0 <= k <= i && Walk(l', l'.next[0], steps - 1) == xs[k];
      InRing(l, xs, k);
      assert LinkedAt(l, xs, k + 1);
      if k == i {
        assert l'.next[e] == xs[0];
      } else {
        assert l'.next[xs[k]] == xs[k + 1];
      }
    }
  }

  class LinkTable {
    var next: seq<nat>
    var prev: seq<nat>

    function Value(): Links
      reads this
    {
      Links(next, prev)
    }

    method Insert(e: nat)
      requires WellFormed(Value()) && e < |next|
      modifies this
      ensures Value() == Inserted(old(Value()), e)
    {
      prev := prev[e := 0];
      next := next[e := next[0]];
      prev := prev[next[0] := e];
      next := next[0 := e];
    }

    method Remove(e: nat)
      requires WellFormed(Value()) && e < |next|
      modifies this
      ensures Value() == Removed(old(Value()), e)
    {
      prev := prev[next[e] := prev[e]];
      next := next[prev[e] := next[e]];
      prev := prev[e := e];
      next := next[e := e];
    }
  }
}
