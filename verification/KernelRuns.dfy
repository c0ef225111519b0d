/**
 Runs of the kernel: every interleaving of task-level calls, interrupts, ticks
 and the calls of other kernel services, priority changes excepted, and what
 holds in every state of every run.
 */
module KernelRuns {
  import opened PrioritySets
  import opened KernelSpec

  // ---- operations ----

  datatype Op =
    | OpCreate(prio: nat)
    | OpPendMulti(list: seq<nat>, timeout: nat)
    | OpFinishMulti
    | OpPendOne(e: nat, bit: bv8, timeout: nat)
    | OpFinishOne(e: nat, bit: bv8)
    | OpDelay(ticks: nat)
    | OpReady(e: nat, msg: Ptr, msk: bv8, pendStat: PendStat)  // a post or an abort that finds a waiter
    | OpSetBody(e: nat, body: Body)                            // a post, accept, set or flush that finds none
    | OpDelete(e: nat)                                         // an event with no waiters becomes an unused block
    | OpCreateEvent(e: nat, body: Body)                        // and an unused block an event
    | OpTick
    | OpSuspend(prio: nat)
    | OpResume(prio: nat)
    | OpIntEnter
    | OpIntExit
    | OpLock
    | OpUnlock
    | OpSched

  /** The status bits of single pends; for a mutex, of a pend whose owner needs no promotion. */
  predicate PendBit(bit: bv8) {
    bit == STAT_SEM || bit == STAT_MBOX || bit == STAT_Q || bit == STAT_MUTEX
  }

  predicate NotPending(t: Task) {
    t.multi.None? && t.eventPtr.None?
  }

  /** The current task is executing its own code. */
  predicate TaskLevel(s: Sys) {
    s.running && s.intNesting == 0 && s.cur in s.ready && s.cur in s.tasks && s.cur != s.idle
  }

  ghost predicate Enabled(s: Sys, op: Op) {
    match op
    case OpCreate(p) => s.intNesting == 0 && p < s.idle && p !in s.tasks
    case OpPendMulti(list, timeout) =>
      TaskLevel(s) && s.cur !in s.calls && InRange(list, |s.bodies|) && timeout < 0x1_0000
    case OpFinishMulti =>
      TaskLevel(s) && s.cur in s.calls && s.calls[s.cur].InMulti? && InMultiPend(s)
    case OpPendOne(e, bit, timeout) =>
      TaskLevel(s) && s.lockNesting == 0 && s.cur !in s.calls && e < |s.waits| && PendBit(bit) && timeout < 0x1_0000
    case OpFinishOne(e, bit) =>
      TaskLevel(s) && InSinglePend(s) && s.calls[s.cur] == InSingle(e, bit)
    case OpDelay(ticks) =>
      s.running && s.intNesting == 0 && s.cur in s.tasks && s.cur != s.idle && s.cur !in s.calls && ticks < 0x1_0000
    case OpReady(e, msg, msk, pendStat) => HasWaiter(s, e) && PendBit(msk) && pendStat != PendTimeout
    case OpSetBody(e, body) => e < |s.bodies| && body.SameKind(s.bodies[e])
    case OpDelete(e) => s.intNesting == 0 && e < |s.bodies| && e < |s.waits| && s.waits[e] == {}
    case OpCreateEvent(e, body) => s.intNesting == 0 && e < |s.bodies| && e < |s.waits| && s.waits[e] == {} && s.bodies[e].Other?
    case OpTick => true
    case OpSuspend(p) => p in s.tasks && p != s.idle
    case OpResume(p) => p in s.tasks && p != s.idle
    case OpIntEnter => true
    case OpIntExit => s.ready != {}
    case OpLock => true
    case OpUnlock => s.ready != {}
    case OpSched => s.ready != {}
  }

  ghost function Apply(s: Sys, op: Op): Sys
    requires Enabled(s, op)
  {
    match op
    case OpCreate(p) => TcbInit(s, p)
    case OpPendMulti(list, timeout) => PendMultiStart(s, list, timeout).0
    case OpFinishMulti => PendMultiFinish(s).0
    case OpPendOne(e, bit, timeout) => BlockOne(s, e, bit, timeout)
    case OpFinishOne(_, _) => FinishOne(s)
    case OpDelay(ticks) => Delay(s, ticks)
    case OpReady(e, msg, msk, pendStat) => EventTaskRdy(s, e, msg, msk, pendStat)
    case OpSetBody(e, body) => s.(bodies := s.bodies[e := body])
    case OpDelete(e) => s.(bodies := s.bodies[e := Other])
    case OpCreateEvent(e, body) => s.(bodies := s.bodies[e := body])
    case OpTick => TimeTick(s)
    case OpSuspend(p) => Suspend(s, p)
    case OpResume(p) => Resume(s, p)
    case OpIntEnter => IntEnter(s)
    case OpIntExit => IntExit(s)
    case OpLock => SchedLock(s)
    case OpUnlock => SchedUnlock(s)
    case OpSched => Sched(s)
  }

  // ---- operations that leave the scheduler's variables alone ----

  predicate Scheduling(op: Op) {
    op.OpIntEnter? || op.OpIntExit? || op.OpLock? || op.OpUnlock? || op.OpSched?
  }

  ghost predicate SameScheduler(s: Sys, s': Sys) {
    && s'.idle == s.idle && s'.cur == s.cur && s'.running == s.running
    && s'.intNesting == s.intNesting && s'.lockNesting == s.lockNesting
    && s'.switches == s.switches && s'.highRdy == s.highRdy
  }

  lemma TaskCallKeepsScheduler(s: Sys, op: Op)
    requires Enabled(s, op) && (op.OpPendMulti? || op.OpFinishMulti? || op.OpPendOne? || op.OpFinishOne? || op.OpDelay?)
    ensures SameScheduler(s, Apply(s, op))
  {
    hide Drop, Join, Collect;
  }

  lemma SchedulerUntouched(s: Sys, op: Op)
    requires Enabled(s, op) && !Scheduling(op)
    ensures SameScheduler(s, Apply(s, op))
  {
    hide Drop, Join, Collect;
    if op.OpPendMulti? || op.OpFinishMulti? || op.OpPendOne? || op.OpFinishOne? || op.OpDelay? {
      TaskCallKeepsScheduler(s, op);
      hide Apply;
    } else {
      hide PendMultiStart, PendMultiFinish, BlockOne, FinishOne;
    }
  }

  // ---- the invariant ----

  /** The wait lists a task inside a pend call can be on. */
  ghost predicate Listed(c: Call, t: Task, e: nat) {
    match c
    case InMulti => t.multi.Some? && e in t.multi.value && t.eventPtr.None?
    case InSingle(f, _) => e == f
  }

  /**
   A task on a wait list is inside a pend call, and either still waiting or
   timed out and not yet run; the wait list is one of those it is waiting on.
   */
  ghost predicate OnList(s: Sys, p: nat, e: nat)
    requires p in s.tasks
  {
    var t := s.tasks[p];
    && p != s.idle && p in s.calls && Listed(s.calls[p], t, e)
    && (if t.stat & STAT_PEND_ANY != 0
        then t.statPend == PendOk && p !in s.ready
        else t.statPend == PendTimeout && t.dly == 0)
  }

  /** What a task's record says of the call it is in. */
  ghost predicate CallInv(c: Call, t: Task) {
    match c
    case InMulti => t.multi.Some? && (t.eventPtr.Some? ==> t.eventPtr.value in t.multi.value)
    case InSingle(e, bit) => t.eventPtr == Some(e) && PendBit(bit)
  }

  ghost predicate TaskInv(s: Sys, p: nat)
    requires p in s.tasks
  {
    var t := s.tasks[p];
    && (forall e :: 0 <= e < |s.waits| && p in s.waits[e] ==> OnList(s, p, e))
    && (p in s.ready ==> t.stat & STAT_SUSPEND == 0)
    && (t.multi.Some? ==> InRange(t.multi.value, |s.bodies|))
    && (t.eventPtr.Some? ==> t.eventPtr.value < |s.bodies|)
    && (p in s.calls ==> CallInv(s.calls[p], t))
  }

  ghost predicate Frame(s: Sys) {
    && s.running && s.cur in s.tasks
    && s.idle in s.tasks && s.idle in s.ready
    && s.ready <= s.tasks.Keys && (forall p :: p in s.tasks ==> p <= s.idle)
    && |s.waits| == |s.bodies| && (forall e :: 0 <= e < |s.waits| ==> s.waits[e] <= s.tasks.Keys)
    && s.intNesting <= 255 && s.lockNesting <= 255
    && s.calls.Keys <= s.tasks.Keys
  }

  ghost predicate Sound(s: Sys) {
    Frame(s) && forall p :: p in s.tasks ==> TaskInv(s, p)
  }

  /** `Sound`, as an equation so that proofs about runs carry it around as a single fact. */
  ghost predicate Inv(s: Sys) {
    true == Sound(s)
  }

  lemma CreateKeepsInv(s: Sys, p: nat)
    requires Inv(s) && Enabled(s, OpCreate(p))
    ensures Inv(TcbInit(s, p))
  {
    var s' := TcbInit(s, p);
    forall q | q in s'.tasks ensures TaskInv(s', q) {
      if q in s.tasks {
        assert TaskInv(s, q);
      }
    }
  }

  /** A readied task has left every wait list, not just the one that was posted to. */
  lemma ReadyLeavesLists(s: Sys, e: nat, msg: Ptr, msk: bv8, pendStat: PendStat)
    requires Inv(s) && Enabled(s, OpReady(e, msg, msk, pendStat))
    ensures Min(s.waits[e]) in s.tasks && OnList(s, Min(s.waits[e]), e)
    ensures forall f :: 0 <= f < |s.waits| ==>
              EventTaskRdy(s, e, msg, msk, pendStat).waits[f] == s.waits[f] - {Min(s.waits[e])}
  {
    var s' := EventTaskRdy(s, e, msg, msk, pendStat);
    var p := Min(s.waits[e]);
    assert TaskInv(s, p) && OnList(s, p, e);
    forall f | 0 <= f < |s.waits| ensures s'.waits[f] == s.waits[f] - {p} {
      if p in s.waits[f] {
        assert OnList(s, p, f);
      }
    }
  }

  /** A task whose own record, readiness and places on wait lists did not change keeps its invariant. */
  lemma BystanderInv(s: Sys, s': Sys, p: nat, q: nat)
    requires q in s.tasks && q in s'.tasks && q != p && TaskInv(s, q)
    requires s'.tasks[q] == s.tasks[q] && (q in s'.ready <==> q in s.ready) && s'.idle == s.idle
    requires s'.bodies == s.bodies && |s'.waits| == |s.waits|
    requires q in s'.calls <==> q in s.calls
    requires q in s.calls ==> s'.calls[q] == s.calls[q]
    requires forall e :: 0 <= e < |s.waits| ==> s'.waits[e] - {p} == s.waits[e] - {p}
    ensures TaskInv(s', q)
  {
    forall e | 0 <= e < |s'.waits| && q in s'.waits[e] ensures OnList(s', q, e) {
      assert q in s'.waits[e] - {p};
      assert q in s.waits[e];
    }
  }

  lemma ReadiedTaskInv(s: Sys, e: nat, msg: Ptr, msk: bv8, pendStat: PendStat)
    requires Inv(s) && Enabled(s, OpReady(e, msg, msk, pendStat))
    ensures var p := Min(s.waits[e]);
            var s' := EventTaskRdy(s, e, msg, msk, pendStat);
            p in s'.tasks && TaskInv(s', p)
  {
    var p := Min(s.waits[e]);
    ReadyLeavesLists(s, e, msg, msk, pendStat);
    assert TaskInv(s, p) && OnList(s, p, e);
    hide Drop, Inv, Sound;
  }

  /** Nothing but the readied task and its places on the wait lists changes. */
  lemma ReadyPlaces(s: Sys, e: nat, msg: Ptr, msk: bv8, pendStat: PendStat)
    requires Inv(s) && Enabled(s, OpReady(e, msg, msk, pendStat))
    ensures var p := Min(s.waits[e]);
            var s' := EventTaskRdy(s, e, msg, msk, pendStat);
            && p in s.tasks && Frame(s') && s'.tasks.Keys == s.tasks.Keys && s'.bodies == s.bodies && s'.calls == s.calls
            && s'.idle == s.idle && |s'.waits| == |s.waits| && s'.ready - {p} == s.ready - {p}
            && (forall q :: q in s.tasks && q != p ==> s'.tasks[q] == s.tasks[q])
            && forall f :: 0 <= f < |s.waits| ==> s'.waits[f] == s.waits[f] - {p}
  {
    ReadyLeavesLists(s, e, msg, msk, pendStat);
    hide Drop, TaskInv, OnList;
  }

  lemma ReadyKeepsInv(s: Sys, e: nat, msg: Ptr, msk: bv8, pendStat: PendStat)
    requires Inv(s) && Enabled(s, OpReady(e, msg, msk, pendStat))
    ensures Inv(EventTaskRdy(s, e, msg, msk, pendStat))
  {
    var p := Min(s.waits[e]);
    var s' := EventTaskRdy(s, e, msg, msk, pendStat);
    ReadyPlaces(s, e, msg, msk, pendStat);
    ReadiedTaskInv(s, e, msg, msk, pendStat);
    hide Drop, TaskInv, OnList, EventTaskRdy, Frame;
    forall q | q in s'.tasks && q != p ensures TaskInv(s', q) {
      assert q in s'.ready <==> q in s'.ready - {p};
      assert q in s.ready <==> q in s.ready - {p};
      BystanderInv(s, s', p, q);
    }
  }

  /** When nothing is available, each listed event contributes its bit to the task's status. */
  lemma {:induction false} EmptyHaulBits(bodies: seq<Body>, list: seq<nat>)
    requires AllPendable(bodies, list) && Collect(bodies, list).events == []
    ensures Collect(bodies, list).bodies == bodies
    ensures list != [] ==> Collect(bodies, list).bits & STAT_PEND_ANY != 0
    ensures Collect(bodies, list).bits & STAT_SUSPEND == 0
    ensures forall k :: 0 <= k < |list| ==> !Available(bodies[list[k]])
  {
    if list != [] {
      EmptyHaulBits(bodies, list[..|list| - 1]);
    }
  }

  lemma BlockKeepsInv(s: Sys, list: seq<nat>, bits: bv8, timeout: nat)
    requires Inv(s) && TaskLevel(s) && s.cur !in s.calls && AllPendable(s.bodies, list)
    requires list != [] ==> bits & STAT_PEND_ANY != 0
    ensures var t := s.tasks[s.cur];
            var t' := t.(stat := t.stat | bits | STAT_MULTI, statPend := PendOk, dly := timeout);
            Inv(EventTaskWaitMulti(s.(tasks := s.tasks[s.cur := t'], calls := s.calls[s.cur := InMulti]), list))
  {
    var p := s.cur;
    var t := s.tasks[p];
    var t' := t.(stat := t.stat | bits | STAT_MULTI, statPend := PendOk, dly := timeout);
    var s' := EventTaskWaitMulti(s.(tasks := s.tasks[p := t'], calls := s.calls[p := InMulti]), list);
    PendBitsStay(t.stat, bits);
    JoinOthers(s.waits, p, Elements(list));
    BlockerInv(s, s', p, list);
    hide Join;
    assert Frame(s');
    forall q | q in s'.tasks && q != p ensures TaskInv(s', q) {
      assert TaskInv(s, q);
      hide TaskInv, Frame;
      BystanderInv(s, s', p, q);
    }
    hide TaskInv, OnList, Frame;
  }

  lemma JoinOthers(waits: seq<set<nat>>, p: nat, es: set<nat>)
    ensures |Join(waits, p, es)| == |waits|
    ensures forall e :: 0 <= e < |waits| ==> Join(waits, p, es)[e] - {p} == waits[e] - {p}
    ensures forall e :: 0 <= e < |waits| ==> Join(waits, p, es)[e] <= waits[e] + {p}
    ensures forall e :: 0 <= e < |waits| && e !in es ==> Join(waits, p, es)[e] == waits[e]
  {
  }

  lemma PendBitsStay(stat: bv8, bits: bv8)
    ensures bits & STAT_PEND_ANY != 0 ==> (stat | bits | STAT_MULTI) & STAT_PEND_ANY != 0
  {
  }

  lemma BlockerInv(s: Sys, s': Sys, p: nat, list: seq<nat>)
    requires Frame(s) && p in s.tasks && TaskInv(s, p) && p !in s.calls && p in s'.calls && s'.calls[p] == InMulti
    requires p in s'.tasks && s'.tasks[p].multi == Some(list) && s'.tasks[p].eventPtr.None? && s'.tasks[p].statPend == PendOk
    requires list != [] ==> s'.tasks[p].stat & STAT_PEND_ANY != 0
    requires p !in s'.ready && p != s'.idle && s'.bodies == s.bodies && AllPendable(s.bodies, list)
    requires s'.waits == Join(s.waits, p, Elements(list))
    ensures TaskInv(s', p)
  {
    forall e | 0 <= e < |s'.waits| && p in s'.waits[e] ensures OnList(s', p, e) {
      assert p in s.waits[e] ==> OnList(s, p, e);
    }
  }

  lemma PendMultiKeepsInv(s: Sys, list: seq<nat>, timeout: nat)
    requires Inv(s) && Enabled(s, OpPendMulti(list, timeout))
    ensures Inv(PendMultiStart(s, list, timeout).0)
  {
    if AllPendable(s.bodies, list) && s.intNesting == 0 && s.lockNesting == 0 {
      var h := Collect(s.bodies, list);
      if h.events != [] {
        forall q | q in s.tasks ensures TaskInv(s.(bodies := h.bodies), q) {
          assert TaskInv(s, q);
        }
      } else {
        EmptyHaulBits(s.bodies, list);
        BlockKeepsInv(s, list, h.bits, timeout);
      }
    }
  }

  lemma EndWaitKeepsInv(s: Sys, p: nat, t': Task, waits': seq<set<nat>>)
    requires Inv(s) && p in s.tasks
    requires t' == s.tasks[p] || (NotPending(t') && t'.stat == STAT_RDY)
    requires |waits'| == |s.waits| && forall e :: 0 <= e < |s.waits| ==> waits'[e] == s.waits[e] - {p}
    ensures Inv(s.(tasks := s.tasks[p := t'], waits := waits', calls := s.calls - {p}))
  {
    var s' := s.(tasks := s.tasks[p := t'], waits := waits', calls := s.calls - {p});
    forall q | q in s'.tasks ensures TaskInv(s', q) {
      assert TaskInv(s, q);
    }
  }

  /** The running task, being ready, is on no wait list unless it has timed out. */
  lemma RunningOffLists(s: Sys, e: nat)
    requires Inv(s) && s.cur in s.ready && e < |s.waits| && s.cur in s.waits[e]
    ensures s.cur in s.calls && s.tasks[s.cur].statPend == PendTimeout && Listed(s.calls[s.cur], s.tasks[s.cur], e)
  {
    assert TaskInv(s, s.cur) && OnList(s, s.cur, e);
  }

  /** The event that ended a multi-pend is no longer one that can be waited for. */
  ghost predicate EventGone(s: Sys)
    requires InMultiPend(s)
  {
    var t := s.tasks[s.cur];
    t.statPend == PendOk && t.eventPtr.Some? && !s.bodies[t.eventPtr.value].Pendable()
  }

  /**
   At its end a multi-pend leaves the task on no wait list.  It clears the
   task's record unless it reports a type error, which it does exactly if the
   event that was posted to it has been deleted since.
   */
  lemma FinishMultiKeepsInv(s: Sys)
    requires Inv(s) && Enabled(s, OpFinishMulti)
    ensures var (s', report) := PendMultiFinish(s);
            && Inv(s') && s.cur !in s'.calls
            && (report.err == ErrEventType <==> EventGone(s))
            && (if EventGone(s) then s'.tasks == s.tasks else NotPending(s'.tasks[s.cur]) && s'.tasks[s.cur].stat == STAT_RDY)
            && forall e :: 0 <= e < |s'.waits| ==> s.cur !in s'.waits[e]
  {
    var (s', report) := PendMultiFinish(s);
    FinishMultiLeaves(s);
    FinishMultiRecord(s);
    EndWaitKeepsInv(s, s.cur, s'.tasks[s.cur], s'.waits);
    hide Inv, Sound, TaskInv, Frame;
  }

  lemma FinishMultiLeaves(s: Sys)
    requires Inv(s) && Enabled(s, OpFinishMulti)
    ensures var s' := PendMultiFinish(s).0;
            |s'.waits| == |s.waits| && forall e :: 0 <= e < |s.waits| ==> s'.waits[e] == s.waits[e] - {s.cur}
  {
    var s' := PendMultiFinish(s).0;
    forall e | 0 <= e < |s.waits| ensures s'.waits[e] == s.waits[e] - {s.cur} {
      if s.cur in s.waits[e] {
        RunningOffLists(s, e);
      }
    }
  }

  lemma FinishMultiRecord(s: Sys)
    requires Enabled(s, OpFinishMulti)
    ensures var (s', report) := PendMultiFinish(s);
            && s.cur in s'.tasks
            && s' == s.(tasks := s.tasks[s.cur := s'.tasks[s.cur]], waits := s'.waits, calls := s.calls - {s.cur})
            && (report.err == ErrEventType <==> EventGone(s))
            && (if EventGone(s) then s'.tasks == s.tasks else NotPending(s'.tasks[s.cur]) && s'.tasks[s.cur].stat == STAT_RDY)
  {
    hide Drop;
    assert s.tasks[s.cur := s.tasks[s.cur]] == s.tasks;
  }

  lemma FinishOneKeepsInv(s: Sys, e: nat, bit: bv8)
    requires Inv(s) && Enabled(s, OpFinishOne(e, bit))
    ensures Inv(FinishOne(s))
    ensures forall f :: 0 <= f < |s.waits| ==> s.cur !in FinishOne(s).waits[f]
  {
    var s' := FinishOne(s);
    forall f | 0 <= f < |s.waits| ensures s'.waits[f] == s.waits[f] - {s.cur} {
      if s.cur in s.waits[f] {
        RunningOffLists(s, f);
      }
    }
    EndWaitKeepsInv(s, s.cur, s'.tasks[s.cur], s'.waits);
  }

  lemma PendBitWaits(stat: bv8, bit: bv8)
    requires PendBit(bit)
    ensures (stat | bit) & STAT_PEND_ANY != 0
  {
  }

  lemma PendOneOwnTask(s: Sys, e: nat, bit: bv8, timeout: nat)
    requires Inv(s) && Enabled(s, OpPendOne(e, bit, timeout))
    ensures TaskInv(BlockOne(s, e, bit, timeout), s.cur)
  {
    var s' := BlockOne(s, e, bit, timeout);
    PendBitWaits(s.tasks[s.cur].stat, bit);
    JoinOthers(s.waits, s.cur, {e});
    assert TaskInv(s, s.cur);
    assert forall f :: 0 <= f < |s.waits| ==> s.cur !in s.waits[f];
    hide Inv, Sound, Join, PendBit;
    assert forall f :: 0 <= f < |s'.waits| && s.cur in s'.waits[f] ==> f == e;
  }

  lemma PendOneKeepsInv(s: Sys, e: nat, bit: bv8, timeout: nat)
    requires Inv(s) && Enabled(s, OpPendOne(e, bit, timeout))
    ensures Inv(BlockOne(s, e, bit, timeout))
  {
    var s' := BlockOne(s, e, bit, timeout);
    PendOneOwnTask(s, e, bit, timeout);
    JoinOthers(s.waits, s.cur, {e});
    hide Join, TaskInv, OnList;
    forall q | q in s'.tasks && q != s.cur ensures TaskInv(s', q) {
      BystanderInv(s, s', s.cur, q);
    }
  }

  lemma DelayKeepsInv(s: Sys, ticks: nat)
    requires Inv(s) && Enabled(s, OpDelay(ticks))
    ensures Inv(Delay(s, ticks))
  {
    var s' := Delay(s, ticks);
    assert TaskInv(s, s.cur);
    forall q | q in s'.tasks ensures TaskInv(s', q) {
      assert TaskInv(s, q);
    }
  }

  lemma TickKeepsInv(s: Sys)
    requires Inv(s)
    ensures Inv(TimeTick(s))
  {
    var s' := TimeTick(s);
    forall q | q in s'.tasks ensures TaskInv(s', q) {
      TickedTask(s, q);
    }
    hide TaskInv, TickTask;
  }

  /** What a tick does to one task's record. */
  lemma TickedRecord(t: Task)
    ensures var t' := TickTask(t);
            && t'.multi == t.multi && t'.eventPtr == t.eventPtr && t'.stat & STAT_SUSPEND == t.stat & STAT_SUSPEND
            && (t.dly == 0 ==> t' == t)
            && (t.dly != 1 ==> t'.stat == t.stat && t'.statPend == t.statPend)
            && (t.dly == 1 ==> t'.dly == 0 && t'.stat & STAT_PEND_ANY == 0)
            && (t.dly == 1 && t.stat & STAT_PEND_ANY != 0 ==> t'.statPend == PendTimeout)
  {
    assert (t.stat & !STAT_PEND_ANY) & STAT_PEND_ANY == 0;
    assert (t.stat & !STAT_PEND_ANY) & STAT_SUSPEND == t.stat & STAT_SUSPEND;
  }

  /** A processed tick readies a task only if its delay ran out and it is not suspended. */
  lemma TickedPlaces(s: Sys, q: nat)
    requires q in s.tasks
    ensures var s' := TimeTick(s);
            && q in s'.tasks && s'.waits == s.waits && s'.calls == s.calls && s'.bodies == s.bodies && s'.idle == s.idle
            && (s'.tasks[q] == s.tasks[q] || s'.tasks[q] == TickTask(s.tasks[q]))
            && (q in s'.ready && q !in s.ready ==>
                  s'.tasks[q] == TickTask(s.tasks[q]) && s.tasks[q].dly == 1 && s.tasks[q].stat & STAT_SUSPEND == 0)
  {
    hide TickTask;
  }

  lemma TickedTask(s: Sys, q: nat)
    requires Inv(s) && q in s.tasks
    ensures q in TimeTick(s).tasks && TaskInv(TimeTick(s), q)
  {
    var s' := TimeTick(s);
    assert TaskInv(s, q);
    hide Inv, Sound;
    TickedRecord(s.tasks[q]);
    TickedPlaces(s, q);
    hide TimeTick, TickTask, Listed;
    forall e | 0 <= e < |s'.waits| && q in s'.waits[e] ensures OnList(s', q, e) {
      assert OnList(s, q, e);
      assert Listed(s'.calls[q], s'.tasks[q], e) by {
        SameListed(s.calls[q], s.tasks[q], s'.tasks[q], e);
      }
    }
  }

  lemma SameListed(c: Call, t: Task, t': Task, e: nat)
    requires Listed(c, t, e) && t'.multi == t.multi && t'.eventPtr == t.eventPtr
    ensures Listed(c, t', e)
  {
  }

  lemma SuspendKeepsInv(s: Sys, p: nat)
    requires Inv(s) && Enabled(s, OpSuspend(p))
    ensures Inv(Suspend(s, p))
  {
    var s' := Suspend(s, p);
    var stat := s.tasks[p].stat;
    assert (stat | STAT_SUSPEND) & STAT_PEND_ANY == stat & STAT_PEND_ANY;
    forall q | q in s'.tasks ensures TaskInv(s', q) {
      assert TaskInv(s, q);
    }
  }

  lemma ResumeKeepsInv(s: Sys, p: nat)
    requires Inv(s) && Enabled(s, OpResume(p))
    ensures Inv(Resume(s, p))
  {
    var s' := Resume(s, p);
    var stat := s.tasks[p].stat;
    assert (stat & !STAT_SUSPEND) & STAT_PEND_ANY == stat & STAT_PEND_ANY;
    forall q | q in s'.tasks ensures TaskInv(s', q) {
      assert TaskInv(s, q);
    }
  }

  /**
   For a task that is not suspended, resuming undoes a suspension exactly if it
   was ready just when its status word was clear and no delay was running.
   */
  lemma ResumeUndoesSuspend(s: Sys, p: nat)
    requires p in s.tasks && s.tasks[p].stat & STAT_SUSPEND == 0
    ensures Resume(Suspend(s, p), p) == s <==> (p in s.ready <==> s.tasks[p].stat == STAT_RDY && s.tasks[p].dly == 0)
  {
    SuspensionBit(s.tasks[p].stat);
    SuspendedThenResumed(s, p);
    hide Suspend, Resume;
  }

  lemma SuspensionBit(stat: bv8)
    requires stat & STAT_SUSPEND == 0
    ensures (stat | STAT_SUSPEND) & STAT_SUSPEND != 0 && (stat | STAT_SUSPEND) & !STAT_SUSPEND == stat
  {
  }

  lemma SuspendedThenResumed(s: Sys, p: nat)
    requires p in s.tasks && (s.tasks[p].stat | STAT_SUSPEND) & STAT_SUSPEND != 0
    requires (s.tasks[p].stat | STAT_SUSPEND) & !STAT_SUSPEND == s.tasks[p].stat
    ensures var t := s.tasks[p];
            Resume(Suspend(s, p), p) == s.(ready := if t.stat == STAT_RDY && t.dly == 0 then s.ready + {p} else s.ready - {p})
  {
    assert Resume(Suspend(s, p), p).tasks == s.tasks;
    assert s.ready - {p} + {p} == s.ready + {p};
  }

  /** Counters, the current task and the event bodies play no part in `TaskInv`. */
  lemma CountersKeepInv(s: Sys, s': Sys)
    requires Inv(s) && Frame(s')
    requires s'.idle == s.idle && s'.tasks == s.tasks && s'.ready == s.ready && s'.waits == s.waits && s'.calls == s.calls
    requires |s'.bodies| == |s.bodies|
    ensures Inv(s')
  {
    forall q | q in s'.tasks ensures TaskInv(s', q) {
      assert TaskInv(s, q);
    }
  }

  /** Every operation keeps the invariant. */
  lemma StepKeepsInv(s: Sys, op: Op)
    requires Inv(s) && Enabled(s, op)
    ensures Inv(Apply(s, op))
  {
    hide Drop, Join, TaskInv;
    match op
    case OpCreate(p) => CreateKeepsInv(s, p);
    case OpPendMulti(list, timeout) => PendMultiKeepsInv(s, list, timeout);
    case OpFinishMulti => FinishMultiKeepsInv(s);
    case OpPendOne(e, bit, timeout) => PendOneKeepsInv(s, e, bit, timeout);
    case OpFinishOne(e, bit) => FinishOneKeepsInv(s, e, bit);
    case OpDelay(ticks) => DelayKeepsInv(s, ticks);
    case OpReady(e, msg, msk, pendStat) => ReadyKeepsInv(s, e, msg, msk, pendStat);
    case OpTick => TickKeepsInv(s);
    case OpSuspend(p) => SuspendKeepsInv(s, p);
    case OpResume(p) => ResumeKeepsInv(s, p);
    case _ => QuietKeepsInv(s, op);
  }

  /** Operations that touch no task, no list and not the ready set. */
  predicate Quiet(op: Op) {
    op.OpSetBody? || op.OpDelete? || op.OpCreateEvent? || op.OpIntEnter? || op.OpIntExit? || op.OpLock? || op.OpUnlock? || op.OpSched?
  }

  lemma QuietKeepsInv(s: Sys, op: Op)
    requires Inv(s) && Enabled(s, op)
    requires Quiet(op)
    ensures Inv(Apply(s, op))
  {
    QuietSame(s, op);
    CountersKeepInv(s, Apply(s, op));
    hide TaskInv, Frame, Inv, Sound, Apply, Enabled;
  }

  lemma QuietSame(s: Sys, op: Op)
    requires Inv(s) && Enabled(s, op) && Quiet(op)
    ensures var s' := Apply(s, op);
            && Frame(s') && s'.idle == s.idle && s'.tasks == s.tasks && s'.ready == s.ready && s'.waits == s.waits
            && s'.calls == s.calls && |s'.bodies| == |s.bodies|
  {
    hide TaskInv, Drop, Join, Collect;
  }

  // ---- runs ----

  ghost predicate Legal(s: Sys, ops: seq<Op>)
    decreases |ops|, 0
  {
    ops == [] || (Legal(s, ops[..|ops| - 1]) && Enabled(Exec(s, ops[..|ops| - 1]), ops[|ops| - 1]))
  }

  ghost function Exec(s: Sys, ops: seq<Op>): Sys
    requires Legal(s, ops)
    decreases |ops|, 1
  {
    if ops == [] then s else Apply(Exec(s, ops[..|ops| - 1]), ops[|ops| - 1])
  }

  /** The invariant holds in every state of every run; in particular the ready list is never empty. */
  lemma {:induction false} RunKeepsInv(s: Sys, ops: seq<Op>)
    requires Inv(s) && Legal(s, ops)
    ensures Inv(Exec(s, ops))
    ensures s.idle in Exec(s, ops).ready
  {
    if ops != [] {
      var prefix := ops[..|ops| - 1];
      RunKeepsInv(s, prefix);
      StepKeepsInv(Exec(s, prefix), ops[|ops| - 1]);
      IdleIsFixed(Exec(s, prefix), ops[|ops| - 1]);
    }
    hide Inv, Sound;
    IdleThroughRun(s, ops);
  }

  lemma IdleIsFixed(s: Sys, op: Op)
    requires Enabled(s, op)
    ensures Apply(s, op).idle == s.idle
  {
    if Scheduling(op) {
      hide Drop, Join, Collect, EventTaskRdy, PendMultiStart, PendMultiFinish, BlockOne, FinishOne, TimeTick;
    } else {
      SchedulerUntouched(s, op);
      hide Apply;
    }
  }

  lemma {:induction false} IdleThroughRun(s: Sys, ops: seq<Op>)
    requires Legal(s, ops)
    ensures Exec(s, ops).idle == s.idle
  {
    if ops != [] {
      IdleThroughRun(s, ops[..|ops| - 1]);
      IdleIsFixed(Exec(s, ops[..|ops| - 1]), ops[|ops| - 1]);
    }
  }

  /** Counting in 32 bits is counting, reduced. */
  lemma OneMore32(n: nat)
    ensures (n % 0x1_0000_0000 + 1) % 0x1_0000_0000 == (n + 1) % 0x1_0000_0000
  {
  }

  // ---- where runs start ----

  /** Before multitasking starts: tasks have been created, nothing has happened to them. */
  ghost predicate Booting(s: Sys) {
    && !s.running && s.intNesting == 0 && s.lockNesting == 0
    && s.idle in s.tasks && s.ready == s.tasks.Keys && s.calls == map[]
    && (forall p :: p in s.tasks ==> p <= s.idle && s.tasks[p] == FRESH_TASK)
    && |s.waits| == |s.bodies| && (forall e :: 0 <= e < |s.waits| ==> s.waits[e] == {})
  }

  /**
   Idle is created first, then any other tasks, then multitasking starts: the
   most urgent of them runs, and the invariant holds from there on.
   */
  lemma BootReachesInv(s: Sys)
    requires Booting(s)
    ensures forall p: nat :: p < s.idle && p !in s.tasks ==> Booting(TcbInit(s, p))
    ensures Inv(Start(s)) && Start(s).running && Start(s).tasks == s.tasks
    ensures Start(s).cur in s.tasks && Start(s).highRdy == Start(s).cur
    ensures forall p :: p in s.tasks ==> Start(s).cur <= p
  {
  }

  /** A created task is ready, unless no block was left, and neither delayed, suspended nor waiting. */
  lemma CreatedTask(s: Sys, p: nat)
    requires p !in s.tasks
    ensures var s' := TcbInit(s, p);
            && (p in s'.tasks <==> |s.tasks| < s.capacity)
            && (p in s'.tasks ==> p in s'.ready && s'.tasks[p] == Task(STAT_RDY, PendOk, 0, None, None, NULL))
            && (forall q :: q in s.tasks ==> q in s'.tasks && s'.tasks[q] == s.tasks[q] && (q in s'.ready <==> q in s.ready))
  {
  }

  lemma IdleFirst(s: Sys)
    requires !s.running && s.intNesting == 0 && s.lockNesting == 0 && s.tasks == map[] && s.ready == {} && s.calls == map[] && s.capacity > 0
    requires |s.waits| == |s.bodies| && (forall e :: 0 <= e < |s.waits| ==> s.waits[e] == {})
    ensures Booting(TcbInit(s, s.idle))
  {
  }
}
