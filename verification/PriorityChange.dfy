/**
 Changing a task's priority moves its bits in the ready table and in wait
 lists.  Neither `OSTaskChangePrio` nor the promotion of a mutex's owner looks
 for the lists the task is on: both go by pointers in its control block, which
 may name events it no longer waits for, or not name those it does.
 */
module PriorityChange {
  import opened KernelSpec
  import opened KernelRuns

  /** Task `p` can be given priority `q`. */
  ghost predicate Movable(s: Sys, p: nat, q: nat) {
    p in s.tasks && p != s.idle && q !in s.tasks && q < s.idle
  }

  ghost function MoveBits(waits: seq<set<nat>>, p: nat, q: nat, lists: set<nat>): (moved: seq<set<nat>>)
    ensures |moved| == |waits|
  {
    seq(|waits|, e requires 0 <= e < |waits| => if e in lists then waits[e] - {p} + {q} else waits[e])
  }

  /** The task keeps its record and its readiness; its bit is moved in the wait lists of `lists` and in no other. */
  ghost function Move(s: Sys, p: nat, q: nat, lists: set<nat>): Sys
    requires Movable(s, p, q)
  {
    s.(tasks := (s.tasks - {p})[q := s.tasks[p]],
       calls := if p in s.calls then (s.calls - {p})[q := s.calls[p]] else s.calls,
       ready := if p in s.ready then s.ready - {p} + {q} else s.ready,
       waits := MoveBits(s.waits, p, q, lists),
       cur := if s.cur == p then q else s.cur)
  }

  /** The events a control block points to. */
  ghost function Named(t: Task): set<nat> {
    (if t.eventPtr.Some? then {t.eventPtr.value} else {}) + (if t.multi.Some? then Elements(t.multi.value) else {})
  }

  /** `OSTaskChangePrio` moves the bit in every wait list the control block names, whether it is set there or not. */
  ghost function ChangePrio(s: Sys, p: nat, q: nat): Sys
    requires Movable(s, p, q)
  {
    Move(s, p, q, Named(s.tasks[p]))
  }

  /** A mutex promotes its owner: a ready owner's wait lists are left alone, otherwise only the single event's list is. */
  ghost function Promote(s: Sys, p: nat, q: nat): Sys
    requires Movable(s, p, q)
  {
    var t := s.tasks[p];
    Move(s, p, q, if p in s.ready || t.eventPtr.None? then {} else {t.eventPtr.value})
  }

  // ---- when a move keeps the invariant ----

  lemma MovedFrame(s: Sys, p: nat, q: nat, lists: set<nat>)
    requires Inv(s) && Movable(s, p, q)
    ensures Frame(Move(s, p, q, lists)) <==> forall e :: 0 <= e < |s.waits| && p in s.waits[e] ==> e in lists
  {
    var s' := Move(s, p, q, lists);
    if e :| 0 <= e < |s.waits| && p in s.waits[e] && e !in lists {
      assert p in s'.waits[e] && p !in s'.tasks.Keys;
    }
    hide TaskInv;
  }

  lemma MovedTask(s: Sys, p: nat, q: nat, lists: set<nat>)
    requires Inv(s) && Movable(s, p, q)
    ensures var s' := Move(s, p, q, lists);
            q in s'.tasks && (TaskInv(s', q) <==> forall e :: 0 <= e < |s.waits| && e in lists ==> OnList(s, p, e))
  {
    var s' := Move(s, p, q, lists);
    assert TaskInv(s, p);
    forall e | 0 <= e < |s.waits| ensures q in s'.waits[e] <==> e in lists {
      assert s.waits[e] <= s.tasks.Keys;
    }
    hide Inv, Sound, Move, MoveBits;
  }

  lemma OtherTask(s: Sys, p: nat, q: nat, lists: set<nat>, r: nat)
    requires Inv(s) && Movable(s, p, q) && r in s.tasks && r != p
    ensures var s' := Move(s, p, q, lists); r in s'.tasks && TaskInv(s', r)
  {
    var s' := Move(s, p, q, lists);
    assert TaskInv(s, r);
    forall e | 0 <= e < |s'.waits| && r in s'.waits[e] ensures OnList(s', r, e) {
      assert OnList(s, r, e);
    }
  }

  /**
   A move keeps the invariant exactly if it takes the task's bit along wherever
   it is set, and sets none where the task is not waiting.
   */
  lemma MoveKeepsInv(s: Sys, p: nat, q: nat, lists: set<nat>)
    requires Inv(s) && Movable(s, p, q)
    ensures Inv(Move(s, p, q, lists)) <==>
            && (forall e :: 0 <= e < |s.waits| && p in s.waits[e] ==> e in lists)
            && (forall e :: 0 <= e < |s.waits| && e in lists ==> OnList(s, p, e))
  {
    var s' := Move(s, p, q, lists);
    MovedFrame(s, p, q, lists);
    MovedTask(s, p, q, lists);
    forall r | r in s'.tasks && r != q ensures TaskInv(s', r) {
      OtherTask(s, p, q, lists, r);
    }
    hide TaskInv, Frame, OnList;
  }

  // ---- changing a priority ----

  lemma ListsAreNamed(s: Sys, p: nat, e: nat)
    requires Inv(s) && p in s.tasks && e < |s.waits| && p in s.waits[e]
    ensures e in Named(s.tasks[p])
  {
    assert TaskInv(s, p) && OnList(s, p, e);
  }

  /** Changing a priority keeps the invariant exactly if the task waits, or has timed out waiting, for every event its record names. */
  lemma ChangeKeepsInv(s: Sys, p: nat, q: nat)
    requires Inv(s) && Movable(s, p, q)
    ensures Inv(ChangePrio(s, p, q)) <==> forall e :: e in Named(s.tasks[p]) ==> OnList(s, p, e)
  {
    var named := Named(s.tasks[p]);
    MoveKeepsInv(s, p, q, named);
    forall e | 0 <= e < |s.waits| && p in s.waits[e] ensures e in named {
      ListsAreNamed(s, p, e);
    }
    assert TaskInv(s, p) && Frame(s);
    forall e | e in named ensures e < |s.waits| {
    }
    hide Inv, Sound, TaskInv, Frame, Move, OnList;
  }

  /**
   The failing input: a task whose event has been posted or whose wait has been
   aborted, and which has not run since, is put back on the event's wait list;
   the next post goes to a task that does not wait for it.
   */
  lemma ChangeRelistsPosted(s: Sys, p: nat, q: nat, e: nat)
    requires Inv(s) && Movable(s, p, q) && p in s.ready
    requires s.tasks[p].eventPtr == Some(e) && s.tasks[p].statPend != PendTimeout
    ensures var s' := ChangePrio(s, p, q);
            e < |s'.waits| && q in s'.waits[e] && q in s'.ready && !Inv(s')
  {
    ChangeKeepsInv(s, p, q);
    assert !OnList(s, p, e);
    assert e in Named(s.tasks[p]);
    assert TaskInv(s, p) && Frame(s);
    hide Inv, Sound;
  }

  // ---- promoting the owner of a mutex ----

  /**
   Promotion keeps the invariant exactly if the owner is on no wait list, or is
   not ready and on that of the event its record names and on no other.
   */
  lemma PromotionKeepsInv(s: Sys, p: nat, q: nat)
    requires Inv(s) && Movable(s, p, q)
    ensures Inv(Promote(s, p, q)) <==>
            if p in s.ready || s.tasks[p].eventPtr.None?
            then forall e :: 0 <= e < |s.waits| ==> p !in s.waits[e]
            else OnList(s, p, s.tasks[p].eventPtr.value)
                 && forall e :: 0 <= e < |s.waits| && p in s.waits[e] ==> e == s.tasks[p].eventPtr.value
  {
    var t := s.tasks[p];
    assert TaskInv(s, p) && Frame(s);
    MoveKeepsInv(s, p, q, if p in s.ready || t.eventPtr.None? then {} else {t.eventPtr.value});
    hide Inv, Sound, TaskInv, Frame, Move, OnList;
  }

  /** An owner waiting for several events stays on their lists under the priority it no longer has. */
  lemma PromotionStrandsMulti(s: Sys, p: nat, q: nat, e: nat)
    requires Inv(s) && Movable(s, p, q) && p !in s.ready && e < |s.waits| && p in s.waits[e]
    requires p in s.calls && s.calls[p] == InMulti
    ensures var s' := Promote(s, p, q);
            e < |s'.waits| && p in s'.waits[e] && p !in s'.tasks && !Inv(s')
  {
    assert TaskInv(s, p) && OnList(s, p, e);
    PromotionKeepsInv(s, p, q);
    hide Inv, Sound, TaskInv;
  }
}
