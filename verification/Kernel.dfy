/**
 The kernel core.  Every method is the corresponding routine with interrupts
 disabled; its postcondition equates the new abstract state with a function of
 the old one.  `abs` is tied to the bitmaps, tables and lists by `Valid`.
 */
module KernelCore {
  import opened PrioritySets
  import opened ResolutionTable
  import opened KernelSpec
  import opened KernelTables
  import Bitmaps = ByteBitmaps

  class Kernel {
    const lowestPrio: nat

    var rdyGrp: bv8
    var rdyTbl: seq<bv8>
    var prioTbl: seq<PrioEntry>
    var tcbs: seq<Tcb>
    var tcbList: Option<nat>
    var tcbFreeList: Option<nat>
    var taskCtr: nat
    var events: seq<Ecb>
    var tcbCur: Option<nat>
    var prioCur: nat
    var prioHighRdy: nat
    var intNesting: nat
    var lockNesting: nat
    var running: bool
    var ctxSwCtr: nat
    var time: nat
    var tickStep: TickStep

    ghost var abs: Sys
    ghost var active: seq<nat>
    ghost var free: seq<nat>

    ghost function Variables(): Image
      reads this
    {
      Image(lowestPrio, rdyGrp, rdyTbl, prioTbl, tcbs, tcbList, tcbFreeList, taskCtr, events,
            tcbCur, prioCur, prioHighRdy, intNesting, lockNesting, running, ctxSwCtr, time, tickStep)
    }

    ghost predicate Valid()
      reads this
    {
      Agrees(Variables(), abs, active, free)
    }

    // ---- task control blocks ----

    /** All task control blocks are chained on the free list; no task exists. */
    constructor (lowest: nat, maxTasks: nat, blocks: seq<Ecb>)
      requires lowest <= 63 && 0 < maxTasks <= lowest + 1
      requires forall e :: 0 <= e < |blocks| ==>
                 && blocks[e].grp == 0 && |blocks[e].tbl| == lowest / 8 + 1
                 && (forall y :: 0 <= y < |blocks[e].tbl| ==> blocks[e].tbl[y] == 0)
                 && BodyOfRequires(blocks[e])
      ensures Valid() && lowestPrio == lowest
      ensures abs.tasks == map[] && abs.ready == {} && abs.calls == map[] && abs.capacity == maxTasks && abs.idle == lowest && !abs.running
      ensures |abs.waits| == |abs.bodies| == |blocks| && forall e :: 0 <= e < |blocks| ==> abs.waits[e] == {}
    {
      lowestPrio := lowest;
      rdyGrp, rdyTbl := 0, seq(lowest / 8 + 1, _ => 0);
      prioTbl := seq(lowest + 1, _ => NoTcb);
      taskCtr, events := 0, blocks;
      tcbCur, prioCur, prioHighRdy := None, 0, 0;
      intNesting, lockNesting, running, ctxSwCtr, time, tickStep := 0, 0, false, 0, 0, StepDisabled;
      tcbList, tcbFreeList := None, Some(0);
      var table := seq(maxTasks, _ => BLANK_TCB);
      var i := 0;
      while i < maxTasks - 1
        invariant i <= maxTasks - 1 && |table| == maxTasks
        invariant forall k :: 0 <= k < i ==> table[k].next == Some(k + 1)
        invariant table[maxTasks - 1].next == None
      {
        table := table[i := table[i].(next := Some(i + 1))];
        i := i + 1;
      }
      tcbs := table;
      active, free := [], seq(maxTasks, k => k);
      abs := Sys(lowest, maxTasks, map[], {}, seq(|blocks|, _ => {}),
                 seq(|blocks|, e requires 0 <= e < |blocks| && BodyOfRequires(blocks[e]) => BodyOf(blocks[e])),
                 0, 0, 0, 0, false, 0, 0, StepDisabled, map[]);
      new;
      InitialAgrees(Variables(), abs, active, free);
    }

    /** Take a block from the free list, fill it in, put it on the active list and make the task ready. */
    method TcbInit(prio: nat) returns (ok: bool)
      requires Valid() && prio <= lowestPrio && prio !in abs.tasks
      requires abs.tasks == map[] ==> prio == lowestPrio
      modifies this
      ensures Valid() && abs == KernelSpec.TcbInit(old(abs), prio)
      ensures ok <==> old(free) != []
      ensures ok ==> active == [old(free)[0]] + old(active) && free == old(free)[1..]
      ensures !ok ==> unchanged(this)
    {
      hide Agrees, Structure, Mask;
      FreeListFacts(Variables(), abs, active, free);
      var ptcb := tcbFreeList;
      if ptcb == None {
        return false;
      }
      LinkNewTask(prio);
      TaskTcb(Variables(), abs, active, free, prio);
      var c := tcbs[prioTbl[prio].tcb];
      MakeReady(c.y, c.bitX, c.bitY, prio);
      ok := true;
    }

    method LinkNewTask(prio: nat)
      requires Valid() && prio <= lowestPrio && prio !in abs.tasks && tcbFreeList.Some?
      requires abs.tasks == map[] ==> prio == lowestPrio
      modifies this
      ensures Valid() && abs == old(abs).(tasks := old(abs.tasks)[prio := FRESH_TASK])
      ensures old(free) != [] && active == [old(free)[0]] + old(active) && free == old(free)[1..]
    {
      hide Agrees, Structure, Mask, LinkFirst, NewTcb;
      FreeListFacts(Variables(), abs, active, free);
      CreateAgrees(Variables(), abs, active, free, prio);
      var ptcb := tcbFreeList.value;
      var table := FillAndLink(tcbs, tcbList, ptcb, prio);
      active, free := [ptcb] + active, free[1..];
      InstallTask(ptcb, table, prio, abs.(tasks := abs.tasks[prio := FRESH_TASK]));
    }

    method InstallTask(ptcb: nat, table: seq<Tcb>, prio: nat, ghost abs': Sys)
      requires ptcb < |tcbs| && prio < |prioTbl|
      requires Agrees(Variables().(tcbFreeList := tcbs[ptcb].next, tcbs := table, prioTbl := prioTbl[prio := TcbAt(ptcb)],
                                   tcbList := Some(ptcb), taskCtr := taskCtr + 1), abs', active, free)
      modifies this
      ensures Valid() && abs == abs' && active == old(active) && free == old(free)
    {
      hide Agrees, Structure, Mask;
      ghost var next := Variables().(tcbFreeList := tcbs[ptcb].next, tcbs := table, prioTbl := prioTbl[prio := TcbAt(ptcb)],
                                     tcbList := Some(ptcb), taskCtr := taskCtr + 1);
      StoreLists(tcbs[ptcb].next, table, Some(ptcb));
      prioTbl := prioTbl[prio := TcbAt(ptcb)];
      taskCtr := taskCtr + 1;
      abs := abs';
      assert Variables() == next;
    }

    method StoreLists(freeHead: Option<nat>, table: seq<Tcb>, activeHead: Option<nat>)
      modifies `tcbFreeList, `tcbs, `tcbList
      ensures Variables() == old(Variables()).(tcbFreeList := freeHead, tcbs := table, tcbList := activeHead)
    {
      tcbFreeList := freeHead;
      tcbs := table;
      tcbList := activeHead;
    }

    // ---- wait lists ----

    /** Take a task off one event's wait list. */
    method EventTaskRemove(ptcb: nat, e: nat)
      requires Valid() && ptcb in active && e < |events|
      modifies `events, `abs
      ensures Valid() && |events| == old(|events|)
      ensures abs == old(abs).(waits := Drop(old(abs.waits), PrioOf(tcbs, ptcb), {e}))
    {
      hide Agrees, Structure, Mask, Bitmaps.Represents;
      ghost var p := PrioOf(tcbs, ptcb);
      ActiveTcb(Variables(), abs, active, free, ptcb);
      BitmapFacts(Variables(), abs, active, free);
      var grp, tbl := Bitmaps.ClearMember(events[e].grp, events[e].tbl, tcbs[ptcb].y, tcbs[ptcb].bitX, tcbs[ptcb].bitY,
                                          abs.waits[e], p);
      SetWaiters(Variables(), abs, active, free, e, grp, tbl, abs.waits[e] - {p});
      DropIsUpdate(abs.waits, p, e);
      ghost var next := Variables().(events := events[e := events[e].(grp := grp, tbl := tbl)]);
      events := events[e := events[e].(grp := grp, tbl := tbl)];
      abs := abs.(waits := Drop(abs.waits, p, {e}));
      assert Variables() == next;
    }

    /** Take a task off the wait lists of several events. */
    method EventTaskRemoveMulti(ptcb: nat, pevents: seq<nat>)
      requires Valid() && ptcb in active && InRange(pevents, |events|)
      modifies `events, `abs
      ensures Valid() && |events| == old(|events|)
      ensures abs == old(abs).(waits := Drop(old(abs.waits), PrioOf(tcbs, ptcb), Elements(pevents)))
    {
      hide Agrees, Structure, Mask, Bitmaps.Represents;
      DropNothing(abs.waits, PrioOf(tcbs, ptcb), pevents);
      var k := 0;
      while k < |pevents|
        invariant k <= |pevents| && Valid() && |events| == old(|events|)
        invariant abs == old(abs).(waits := Drop(old(abs.waits), PrioOf(tcbs, ptcb), Elements(pevents[..k])))
      {
        EventTaskRemove(ptcb, pevents[k]);
        DropOneMore(old(abs.waits), PrioOf(tcbs, ptcb), pevents, k);
        k := k + 1;
      }
      assert pevents[..k] == pevents;
    }

    /** The highest-priority task on an event's wait list, with its row. */
    method HighestWaiterOf(pevent: nat) returns (y: nat, prio: nat)
      requires Valid() && pevent < |events| && HasWaiter(abs, pevent)
      ensures prio == Min(abs.waits[pevent]) && y == prio / 8
    {
      hide Agrees, Structure, Mask, Bitmaps.Represents;
      HighestWaiter(Variables(), abs, active, free, pevent);
      y := UnMap(events[pevent].grp);
      var x := UnMap(events[pevent].tbl[y]);
      prio := 8 * y + x;
    }

    /** Make the highest-priority waiter of `pevent` ready because of a post or an abort. */
    method EventTaskRdy(pevent: nat, pmsg: Ptr, msk: bv8, pendStat: PendStat) returns (prio: nat)
      requires Valid() && pevent < |events| && HasWaiter(abs, pevent)
      modifies `rdyGrp, `rdyTbl, `tcbs, `events, `abs
      ensures Valid() && |events| == old(|events|)
      ensures prio == Min(old(abs.waits)[pevent])
      ensures abs == KernelSpec.EventTaskRdy(old(abs), pevent, pmsg, msk, pendStat)
    {
      hide Agrees, Structure, Mask, TcbOk, Drop, KernelSpec.EventTaskRdy;
      var y;
      y, prio := HighestWaiterOf(pevent);
      TaskTcb(Variables(), abs, active, free, prio);
      var ptcb := prioTbl[prio].tcb;
      Deliver(ptcb, y, pmsg, msk, pendStat);
      LeaveWaitLists(ptcb, pevent);
      DeliverThenLeave(old(abs), pevent, pmsg, msk, pendStat);
    }

    /** The message and status part of readying a task. */
    method Deliver(ptcb: nat, y: nat, pmsg: Ptr, msk: bv8, pendStat: PendStat)
      requires Valid() && ptcb in active && y == PrioOf(tcbs, ptcb) / 8
      modifies `rdyGrp, `rdyTbl, `tcbs, `abs
      ensures Valid() && PrioOf(tcbs, ptcb) == PrioOf(old(tcbs), ptcb)
      ensures var p := PrioOf(old(tcbs), ptcb);
              p in old(abs.tasks) && abs == Delivered(old(abs), p, pmsg, msk, pendStat)
    {
      hide Agrees, Structure, Mask;
      var c := StoreDelivery(ptcb, pmsg, msk, pendStat);
      if c.stat & STAT_SUSPEND == STAT_RDY {
        MakeReady(y, c.bitX, c.bitY, PrioOf(tcbs, ptcb));
      }
    }

    method StoreDelivery(ptcb: nat, pmsg: Ptr, msk: bv8, pendStat: PendStat) returns (c: Tcb)
      requires Valid() && ptcb in active
      modifies `tcbs, `abs
      ensures Valid() && PrioOf(tcbs, ptcb) == PrioOf(old(tcbs), ptcb)
      ensures var p := PrioOf(old(tcbs), ptcb);
              && p in old(abs.tasks) && p < 64
              && TaskOf(c) == old(abs.tasks)[p].(dly := 0, msg := pmsg, stat := old(abs.tasks)[p].stat & !msk, statPend := pendStat)
              && c.bitX == Mask(p % 8) && c.bitY == Mask(p / 8)
              && abs == old(abs).(tasks := old(abs.tasks)[p := TaskOf(c)])
    {
      hide Agrees, Structure, Mask;
      ActiveTcb(Variables(), abs, active, free, ptcb);
      PendPointers(Variables(), abs, active, free, ptcb);
      c := tcbs[ptcb];
      c := c.(dly := 0);
      c := c.(msg := pmsg);
      c := c.(stat := c.stat & !msk);
      c := c.(statPend := pendStat);
      StoreTcb(ptcb, c);
    }

    /** The readied task leaves the event's wait list and, after a multi-pend, every other list it had joined. */
    method LeaveWaitLists(ptcb: nat, pevent: nat)
      requires Valid() && ptcb in active && pevent < |events|
      modifies `tcbs, `events, `abs
      ensures Valid() && |events| == old(|events|)
      ensures var p := PrioOf(old(tcbs), ptcb);
              p in old(abs.tasks) && abs == Departed(old(abs), p, pevent)
    {
      hide Agrees, Structure, Mask, Drop;
      ghost var p := PrioOf(tcbs, ptcb);
      ActiveTcb(Variables(), abs, active, free, ptcb);
      PendPointers(Variables(), abs, active, free, ptcb);
      var c := tcbs[ptcb];
      EventTaskRemove(ptcb, pevent);
      if c.multi.Some? {
        EventTaskRemoveMulti(ptcb, c.multi.value);
        DropTwice(old(abs.waits), p, {pevent}, Elements(c.multi.value));
        StoreTcb(ptcb, c.(eventPtr := Some(pevent)));
      } else {
        assert {pevent} + {} == {pevent};
        assert abs.tasks[p := abs.tasks[p]] == abs.tasks;
      }
    }

    /** Write back a task control block whose links and cached masks are unchanged. */
    method StoreTcb(i: nat, c: Tcb)
      requires Valid() && i in active && i < |tcbs| && SameIdentity(c, tcbs[i])
      requires c.multi.Some? ==> InRange(c.multi.value, |events|)
      requires c.eventPtr.Some? ==> c.eventPtr.value < |events|
      modifies `tcbs, `abs
      ensures Valid() && tcbs == old(tcbs)[i := c]
      ensures abs == old(abs).(tasks := old(abs.tasks)[PrioOf(old(tcbs), i) := TaskOf(c)])
    {
      hide Agrees, Structure, Mask;
      UpdateTcb(Variables(), abs, active, free, i, c);
      ghost var next := Variables().(tcbs := tcbs[i := c]);
      abs := abs.(tasks := abs.tasks[PrioOf(tcbs, i) := TaskOf(c)]);
      tcbs := tcbs[i := c];
      assert Variables() == next;
    }

    method MakeReady(y: nat, bitX: bv8, bitY: bv8, ghost p: nat)
      requires Valid() && p in abs.tasks && p < 64
      requires y == p / 8 && bitX == Mask(p % 8) && bitY == Mask(p / 8)
      modifies `rdyGrp, `rdyTbl, `abs
      ensures Valid() && abs == old(abs).(ready := old(abs.ready) + {p})
    {
      hide Agrees, Structure, Mask, Bitmaps.Represents;
      BitmapFacts(Variables(), abs, active, free);
      TaskTcb(Variables(), abs, active, free, p);
      var grp, tbl := Bitmaps.SetMember(rdyGrp, rdyTbl, y, bitX, bitY, abs.ready, p);
      SetReady(Variables(), abs, active, free, grp, tbl, abs.ready + {p});
      ghost var next := Variables().(rdyGrp := grp, rdyTbl := tbl);
      rdyGrp, rdyTbl := grp, tbl;
      abs := abs.(ready := abs.ready + {p});
      assert Variables() == next;
    }

    method MakeNotReady(y: nat, bitX: bv8, bitY: bv8, ghost p: nat)
      requires Valid() && p in abs.tasks && p < 64
      requires y == p / 8 && bitX == Mask(p % 8) && bitY == Mask(p / 8)
      modifies `rdyGrp, `rdyTbl, `abs
      ensures Valid() && abs == old(abs).(ready := old(abs.ready) - {p})
    {
      hide Agrees, Structure, Mask, Bitmaps.Represents;
      BitmapFacts(Variables(), abs, active, free);
      TaskTcb(Variables(), abs, active, free, p);
      var grp, tbl := Bitmaps.ClearMember(rdyGrp, rdyTbl, y, bitX, bitY, abs.ready, p);
      SetReady(Variables(), abs, active, free, grp, tbl, abs.ready - {p});
      ghost var next := Variables().(rdyGrp := grp, rdyTbl := tbl);
      rdyGrp, rdyTbl := grp, tbl;
      abs := abs.(ready := abs.ready - {p});
      assert Variables() == next;
    }

    /** Put a task on one event's wait list. */
    method JoinWaiters(ptcb: nat, e: nat)
      requires Valid() && ptcb in active && e < |events|
      modifies `events, `abs
      ensures Valid() && |events| == old(|events|)
      ensures abs == old(abs).(waits := Join(old(abs.waits), PrioOf(tcbs, ptcb), {e}))
    {
      hide Agrees, Structure, Mask, Bitmaps.Represents;
      ghost var p := PrioOf(tcbs, ptcb);
      ActiveTcb(Variables(), abs, active, free, ptcb);
      BitmapFacts(Variables(), abs, active, free);
      var grp, tbl := Bitmaps.SetMember(events[e].grp, events[e].tbl, tcbs[ptcb].y, tcbs[ptcb].bitX, tcbs[ptcb].bitY,
                                        abs.waits[e], p);
      SetWaiters(Variables(), abs, active, free, e, grp, tbl, abs.waits[e] + {p});
      JoinIsUpdate(abs.waits, p, e);
      ghost var next := Variables().(events := events[e := events[e].(grp := grp, tbl := tbl)]);
      events := events[e := events[e].(grp := grp, tbl := tbl)];
      abs := abs.(waits := Join(abs.waits, p, {e}));
      assert Variables() == next;
    }

    /** The running task waits for one event. */
    method EventTaskWait(pevent: nat)
      requires Valid() && running && pevent < |events|
      modifies `rdyGrp, `rdyTbl, `tcbs, `events, `abs
      ensures Valid() && |events| == old(|events|)
      ensures old(abs.cur) in old(abs.tasks) && abs == KernelSpec.EventTaskWait(old(abs), pevent)
    {
      hide Agrees, Structure, Mask, Bitmaps.Represents;
      CounterFacts(Variables(), abs, active, free);
      var cur := tcbCur.value;
      PendPointers(Variables(), abs, active, free, cur);
      var c := tcbs[cur].(eventPtr := Some(pevent));
      StoreTcb(cur, c);
      JoinWaiters(cur, pevent);
      MakeNotReady(c.y, c.bitX, c.bitY, abs.cur);
    }

    /** The running task waits for any of several events. */
    method EventTaskWaitMulti(pevents: seq<nat>)
      requires Valid() && running && InRange(pevents, |events|)
      modifies `rdyGrp, `rdyTbl, `tcbs, `events, `abs
      ensures Valid() && |events| == old(|events|)
      ensures old(abs.cur) in old(abs.tasks) && abs == KernelSpec.EventTaskWaitMulti(old(abs), pevents)
    {
      hide Agrees, Structure, Mask, Bitmaps.Represents;
      CounterFacts(Variables(), abs, active, free);
      var cur := tcbCur.value;
      var c := tcbs[cur].(eventPtr := None, multi := Some(pevents));
      StoreTcb(cur, c);
      JoinAllWaiters(cur, pevents);
      MakeNotReady(c.y, c.bitX, c.bitY, abs.cur);
    }

    /** Put a task on the wait lists of several events. */
    method JoinAllWaiters(ptcb: nat, pevents: seq<nat>)
      requires Valid() && ptcb in active && InRange(pevents, |events|)
      modifies `events, `abs
      ensures Valid() && |events| == old(|events|)
      ensures abs == old(abs).(waits := Join(old(abs.waits), PrioOf(tcbs, ptcb), Elements(pevents)))
    {
      hide Agrees, Structure, Mask, Bitmaps.Represents;
      JoinNothing(abs.waits, PrioOf(tcbs, ptcb), pevents);
      var k := 0;
      while k < |pevents|
        invariant k <= |pevents| && Valid() && |events| == old(|events|)
        invariant abs == old(abs).(waits := Join(old(abs.waits), PrioOf(tcbs, ptcb), Elements(pevents[..k])))
      {
        JoinWaiters(ptcb, pevents[k]);
        JoinOneMore(old(abs.waits), PrioOf(tcbs, ptcb), pevents, k);
        k := k + 1;
      }
      assert pevents[..k] == pevents;
    }

    // ---- pending on several events ----

    /** Record that the running task has entered or left a pend call. */
    ghost method NoteCalls(calls: map<nat, Call>)
      requires Valid()
      modifies `abs
      ensures Valid() && abs == old(abs).(calls := calls)
    {
      hide Agrees, Structure, Mask;
      CallsAreHistory(Variables(), abs, active, free, calls);
      abs := abs.(calls := calls);
    }

    /** The first half of a multi-pend: take whatever is available, or block. */
    method EventPendMultiStart(pevents: seq<nat>, pEventsRdy: array<Option<nat>>, pMsgsRdy: array<Ptr>, timeout: nat)
      returns (nbr: nat, err: Err, blocked: bool)
      requires Valid() && running && InRange(pevents, |events|)
      requires |pevents| < pEventsRdy.Length && |pevents| <= pMsgsRdy.Length
      modifies `rdyGrp, `rdyTbl, `tcbs, `events, `abs, pEventsRdy, pMsgsRdy
      ensures Valid() && old(abs.cur) in old(abs.tasks) && old(|abs.bodies|) == old(|events|)
      ensures var (abs', outcome) := PendMultiStart(old(abs), pevents, timeout);
              && abs == abs'
              && StartReported(outcome, nbr, err, blocked, pEventsRdy[..], pMsgsRdy[..], old(pMsgsRdy[..]))
    {
      hide Agrees, Structure, Mask, Bitmaps.Represents, Collect;
      BitmapFacts(Variables(), abs, active, free);
      CounterFacts(Variables(), abs, active, free);
      pEventsRdy[0] := None;
      nbr, err, blocked := 0, ErrNone, false;
      var ok := ValidateTypes(pevents);
      if !ok {
        return 0, ErrEventType, false;
      }
      if intNesting > 0 {
        return 0, ErrPendIsr, false;
      }
      if lockNesting > 0 {
        return 0, ErrPendLocked, false;
      }
      var eventsStat;
      nbr, eventsStat := CollectAvailable(pevents, pEventsRdy, pMsgsRdy);
      if nbr > 0 {
        pEventsRdy[nbr] := None;
        return nbr, ErrNone, false;
      }
      Block(pevents, eventsStat, timeout);
      blocked := true;
    }

    /** The running task records what it waits for and leaves the ready list. */
    method Block(pevents: seq<nat>, eventsStat: bv8, timeout: nat)
      requires Valid() && running && InRange(pevents, |events|)
      modifies `rdyGrp, `rdyTbl, `tcbs, `events, `abs
      ensures Valid() && |events| == old(|events|) && old(abs.cur) in old(abs.tasks)
      ensures var t := old(abs.tasks)[old(abs.cur)];
              abs == KernelSpec.EventTaskWaitMulti(
                       old(abs).(tasks := old(abs.tasks)[old(abs.cur) :=
                                   t.(stat := t.stat | eventsStat | STAT_MULTI, statPend := PendOk, dly := timeout)],
                                 calls := old(abs.calls)[old(abs.cur) := InMulti]), pevents)
    {
      hide Agrees, Structure, Mask;
      CounterFacts(Variables(), abs, active, free);
      var cur := tcbCur.value;
      PendPointers(Variables(), abs, active, free, cur);
      var c := tcbs[cur];
      c := c.(stat := c.stat | eventsStat | STAT_MULTI);
      c := c.(statPend := PendOk);
      c := c.(dly := timeout);
      StoreTcb(cur, c);
      NoteCalls(abs.calls[abs.cur := InMulti]);
      EventTaskWaitMulti(pevents);
    }

    /** The second half, once the task runs again: report the event that was posted or aborted, or a timeout. */
    method EventPendMultiFinish(pevents: seq<nat>, pEventsRdy: array<Option<nat>>, pMsgsRdy: array<Ptr>)
      returns (nbr: nat, err: Err)
      requires Valid() && running && abs.cur in abs.tasks && abs.tasks[abs.cur].multi == Some(pevents)
      requires abs.tasks[abs.cur].eventPtr.Some? ==> abs.tasks[abs.cur].eventPtr.value in pevents
      requires |pevents| < pEventsRdy.Length && 1 <= pMsgsRdy.Length && pEventsRdy[0] == None
      modifies `tcbs, `events, `abs, pEventsRdy, pMsgsRdy
      ensures Valid() && InMultiPend(old(abs))
      ensures var (abs', report) := PendMultiFinish(old(abs));
              && abs == abs' && err == report.err
              && nbr == |report.events| <= 1 && |report.msgs| <= 1
              && (nbr == 1 ==> pEventsRdy[0] == Some(report.events[0])) && pEventsRdy[nbr] == None
              && pMsgsRdy[..|report.msgs|] == report.msgs && pMsgsRdy[|report.msgs|..] == old(pMsgsRdy[|report.msgs|..])
    {
      hide Agrees, Structure, Mask, Drop;
      var pevent, statPend := ResolveWait(pevents);
      nbr := 0;
      if pevent.Some? {
        pEventsRdy[0] := pevent;
        pEventsRdy[1] := None;
        nbr := 1;
      }
      var msg;
      err, msg := MessageFor(pevent, statPend);
      FinishFromFindings(old(abs), pevent, err, msg);
      hide PendMultiFinish;
      NoteCalls(abs.calls - {abs.cur});
      if err == ErrEventType {
        return;
      }
      pMsgsRdy[0] := msg;
      EndWait();
    }

    /** Which event ended the running task's wait; on a timeout, the task leaves the wait lists it is still on. */
    method ResolveWait(pevents: seq<nat>) returns (pevent: Option<nat>, statPend: PendStat)
      requires Valid() && running && abs.cur in abs.tasks && abs.tasks[abs.cur].multi == Some(pevents)
      modifies `events, `abs
      ensures Valid() && InMultiPend(old(abs))
      ensures var t := old(abs.tasks)[old(abs.cur)];
              if t.statPend != PendTimeout && t.eventPtr.Some?
              then abs == old(abs) && pevent == t.eventPtr && statPend == t.statPend
              else abs == old(abs).(waits := Drop(old(abs.waits), old(abs.cur), Elements(pevents)))
                   && pevent == None && statPend == PendTimeout
    {
      hide Agrees, Structure, Mask, Bitmaps.Represents;
      CounterFacts(Variables(), abs, active, free);
      BitmapFacts(Variables(), abs, active, free);
      var cur := tcbCur.value;
      PendPointers(Variables(), abs, active, free, cur);
      pevent, statPend := None, tcbs[cur].statPend;
      match statPend {
        case PendOk | PendAbort =>
          pevent := tcbs[cur].eventPtr;
          if pevent == None {
            statPend := PendTimeout;
            EventTaskRemoveMulti(cur, pevents);
          }
        case PendTimeout =>
          EventTaskRemoveMulti(cur, pevents);
      }
    }

    /** The message and error code a finished wait reports. */
    method MessageFor(pevent: Option<nat>, statPend: PendStat) returns (err: Err, msg: Ptr)
      requires Valid() && running && abs.cur in abs.tasks
      requires statPend != PendTimeout ==> pevent.Some? && pevent.value < |abs.bodies|
      ensures match statPend
              case PendOk =>
                var b := abs.bodies[pevent.value];
                if b.Sem? then err == ErrNone && msg == NULL
                else if b.Pendable() then err == ErrNone && msg == abs.tasks[abs.cur].msg
                else err == ErrEventType
              case PendAbort => err == ErrPendAbort && msg == NULL
              case PendTimeout => err == ErrTimeout && msg == NULL
    {
      hide Agrees, Structure, Mask, Bitmaps.Represents;
      BitmapFacts(Variables(), abs, active, free);
      CounterFacts(Variables(), abs, active, free);
      msg := NULL;
      match statPend {
        case PendOk =>
          err := ErrNone;
          match events[pevent.value].typ {
            case TypeSem =>
            case TypeMbox => msg := tcbs[tcbCur.value].msg;
            case TypeQ => msg := tcbs[tcbCur.value].msg;
            case _ => err := ErrEventType;
          }
        case PendAbort =>
          err := ErrPendAbort;
        case PendTimeout =>
          err := ErrTimeout;
      }
    }

    /** The running task is ready again and no longer pending on anything. */
    method EndWait()
      requires Valid() && running
      modifies `tcbs, `abs
      ensures Valid() && old(abs.cur) in old(abs.tasks)
      ensures var t := old(abs.tasks)[old(abs.cur)];
              abs == old(abs).(tasks := old(abs.tasks)[old(abs.cur) :=
                t.(stat := STAT_RDY, statPend := PendOk, eventPtr := None, multi := None, msg := NULL)])
    {
      hide Agrees, Structure, Mask;
      CounterFacts(Variables(), abs, active, free);
      var cur := tcbCur.value;
      StoreTcb(cur, tcbs[cur].(stat := STAT_RDY, statPend := PendOk, eventPtr := None, multi := None, msg := NULL));
    }

    /** Whether every listed block is a semaphore, a mailbox or a queue. */
    method ValidateTypes(pevents: seq<nat>) returns (ok: bool)
      requires Valid() && InRange(pevents, |events|)
      ensures |abs.bodies| == |events| && (ok <==> AllPendable(abs.bodies, pevents))
    {
      hide Agrees, Structure, Mask, Bitmaps.Represents;
      BitmapFacts(Variables(), abs, active, free);
      ok := true;
      var k := 0;
      while k < |pevents|
        invariant k <= |pevents| && ok && AllPendable(abs.bodies, pevents[..k])
      {
        var typ := events[pevents[k]].typ;
        if !typ.TypeSem? && !typ.TypeMbox? && !typ.TypeQ? {
          assert !abs.bodies[pevents[k]].Pendable();
          return false;
        }
        k := k + 1;
      }
    }

    /**
     Take one message from every listed event that has one, into the caller's
     arrays; otherwise note which kinds of event must be waited for.
     */
    method CollectAvailable(pevents: seq<nat>, pEventsRdy: array<Option<nat>>, pMsgsRdy: array<Ptr>)
      returns (nbr: nat, eventsStat: bv8)
      requires Valid() && InRange(pevents, |events|) && |abs.bodies| == |events| && AllPendable(abs.bodies, pevents)
      requires |pevents| < pEventsRdy.Length && |pevents| <= pMsgsRdy.Length
      modifies `events, `abs, pEventsRdy, pMsgsRdy
      ensures Valid() && |events| == old(|events|)
      ensures var h := Collect(old(abs.bodies), pevents);
              && abs == old(abs).(bodies := h.bodies)
              && eventsStat == h.bits
              && Filled(pEventsRdy[..], pMsgsRdy[..], old(pEventsRdy[..]), old(pMsgsRdy[..]), h, nbr)
    {
      hide Agrees, Structure, Mask, Collect, Filled, Available, MessageOf, Consumed, WaitBit;
      nbr, eventsStat := 0, STAT_RDY;
      var k := 0;
      CollectNone(abs.bodies, pevents);
      FilledNone(pEventsRdy[..], pMsgsRdy[..], abs.bodies);
      while k < |pevents|
        invariant k <= |pevents| && Valid() && |events| == old(|events|)
        invariant AllPendable(old(abs.bodies), pevents[..k])
        invariant var h := Collect(old(abs.bodies), pevents[..k]);
                  && abs == old(abs).(bodies := h.bodies)
                  && eventsStat == h.bits && nbr == |h.events|
                  && Filled(pEventsRdy[..], pMsgsRdy[..], old(pEventsRdy[..]), old(pMsgsRdy[..]), h, nbr)
      {
        CollectOneMore(old(abs.bodies), pevents, k);
        ghost var h := Collect(old(abs.bodies), pevents[..k]);
        var available, msg, waitBit := TakeEvent(pevents[k]);
        if available {
          FilledOneMore(pEventsRdy[..], pMsgsRdy[..], old(pEventsRdy[..]), old(pMsgsRdy[..]), h, pevents[k]);
          pMsgsRdy[nbr] := msg;
          pEventsRdy[nbr] := Some(pevents[k]);
          nbr := nbr + 1;
        } else {
          FilledSame(pEventsRdy[..], pMsgsRdy[..], old(pEventsRdy[..]), old(pMsgsRdy[..]), h, pevents[k]);
          eventsStat := eventsStat | waitBit;
        }
        k := k + 1;
      }
      assert pevents[..k] == pevents;
    }

    /** One step of the availability scan. */
    method TakeEvent(e: nat) returns (available: bool, msg: Ptr, waitBit: bv8)
      requires Valid() && e < |events| == |abs.bodies| && abs.bodies[e].Pendable()
      modifies `events, `abs
      ensures Valid() && |events| == old(|events|)
      ensures var b := old(abs.bodies)[e];
              && available == Available(b) && waitBit == WaitBit(b)
              && (available ==> msg == MessageOf(b) && abs == old(abs).(bodies := old(abs.bodies)[e := Consumed(b)]))
              && (!available ==> abs == old(abs))
    {
      hide Agrees, Structure, Mask, Bitmaps.Represents;
      BitmapFacts(Variables(), abs, active, free);
      waitBit := match events[e].typ case TypeSem => STAT_SEM case TypeMbox => STAT_MBOX case TypeQ => STAT_Q case _ => STAT_RDY;
      var b;
      available, b, msg := TakeFrom(events[e]);
      if available {
        StoreEvent(e, b);
      }
    }

    // ---- the delay call and the semaphore pend, up to and after the context switch ----

    /** Nothing from an interrupt; otherwise the running task leaves the ready list for `ticks` ticks. */
    method TimeDly(ticks: nat)
      requires Valid() && running
      modifies `rdyGrp, `rdyTbl, `tcbs, `abs
      ensures Valid() && old(abs.cur) in old(abs.tasks)
      ensures abs == if old(abs.intNesting) > 0 then old(abs) else KernelSpec.Delay(old(abs), ticks)
    {
      hide Agrees, Structure, Mask;
      CounterFacts(Variables(), abs, active, free);
      if intNesting > 0 {
        return;
      }
      if ticks > 0 {
        var cur := tcbCur.value;
        PendPointers(Variables(), abs, active, free, cur);
        var c := tcbs[cur];
        MakeNotReady(c.y, c.bitX, c.bitY, abs.cur);
        StoreTcb(cur, c.(dly := ticks));
      }
    }

    /** The first half of a semaphore pend: take the semaphore or block. */
    method SemPendStart(pevent: nat, timeout: nat) returns (err: Err, blocked: bool)
      requires Valid() && running && pevent < |events|
      modifies `rdyGrp, `rdyTbl, `tcbs, `events, `abs
      ensures Valid() && old(abs.cur) in old(abs.tasks) && old(|abs.bodies|) == old(|events|)
      ensures var (abs', outcome) := KernelSpec.SemPendStart(old(abs), pevent, timeout);
              && abs == abs' && (blocked <==> outcome.SemBlocked?)
              && err == (if outcome.SemRefused? then outcome.err else ErrNone)
    {
      hide Agrees, Structure, Mask, Bitmaps.Represents;
      BitmapFacts(Variables(), abs, active, free);
      CounterFacts(Variables(), abs, active, free);
      if !events[pevent].typ.TypeSem? {
        return ErrEventType, false;
      }
      if intNesting > 0 {
        return ErrPendIsr, false;
      }
      if lockNesting > 0 {
        return ErrPendLocked, false;
      }
      var available, _, waitBit := TakeEvent(pevent);
      if available {
        return ErrNone, false;
      }
      BlockOn(pevent, waitBit, timeout);
      return ErrNone, true;
    }

    /** The running task records what it waits for, joins the wait list and leaves the ready list. */
    method BlockOn(pevent: nat, bit: bv8, timeout: nat)
      requires Valid() && running && pevent < |events|
      modifies `rdyGrp, `rdyTbl, `tcbs, `events, `abs
      ensures Valid() && |events| == old(|events|) && old(abs.cur) in old(abs.tasks)
      ensures abs == KernelSpec.BlockOne(old(abs), pevent, bit, timeout)
    {
      hide Agrees, Structure, Mask;
      CounterFacts(Variables(), abs, active, free);
      var cur := tcbCur.value;
      PendPointers(Variables(), abs, active, free, cur);
      var c := tcbs[cur];
      c := c.(stat := c.stat | bit);
      c := c.(statPend := PendOk);
      c := c.(dly := timeout);
      StoreTcb(cur, c);
      NoteCalls(abs.calls[abs.cur := InSingle(pevent, bit)]);
      EventTaskWait(pevent);
    }

    /**
     The second half, once the task runs again: on a timeout it leaves the wait
     list it is still on.  A mutex pend ends in the same way.
     */
    method SemPendFinish(pevent: nat) returns (err: Err)
      requires Valid() && running && InSinglePend(abs) && pevent < |events|
      requires abs.calls[abs.cur] == InSingle(pevent, STAT_SEM) || abs.calls[abs.cur] == InSingle(pevent, STAT_MUTEX)
      modifies `tcbs, `events, `abs
      ensures Valid() && abs == KernelSpec.FinishOne(old(abs))
      ensures err == OneReport(old(abs.tasks)[old(abs.cur)], STAT_SEM).0
    {
      hide Agrees, Structure, Mask, Drop;
      err := LeaveTimedOut(pevent);
      EndSinglePend(false);
    }

    /** The same for a mailbox or a queue, which hand over the message and clear it. */
    method MsgPendFinish(pevent: nat) returns (err: Err, msg: Ptr)
      requires Valid() && running && InSinglePend(abs) && pevent < |events|
      requires abs.calls[abs.cur] == InSingle(pevent, STAT_MBOX) || abs.calls[abs.cur] == InSingle(pevent, STAT_Q)
      modifies `tcbs, `events, `abs
      ensures Valid() && abs == KernelSpec.FinishOne(old(abs))
      ensures (err, msg) == OneReport(old(abs.tasks)[old(abs.cur)], old(abs.calls)[old(abs.cur)].bit)
    {
      hide Agrees, Structure, Mask, Drop;
      CounterFacts(Variables(), abs, active, free);
      msg := NULL;
      if tcbs[tcbCur.value].statPend == PendOk {
        msg := tcbs[tcbCur.value].msg;
      }
      err := LeaveTimedOut(pevent);
      EndSinglePend(true);
    }

    /** What ended the wait; a task that timed out leaves the wait list. */
    method LeaveTimedOut(pevent: nat) returns (err: Err)
      requires Valid() && running && abs.cur in abs.tasks && pevent < |events|
      modifies `events, `abs
      ensures Valid() && |events| == old(|events|)
      ensures var statPend := old(abs.tasks)[old(abs.cur)].statPend;
              && err == (match statPend case PendOk => ErrNone case PendAbort => ErrPendAbort case PendTimeout => ErrTimeout)
              && abs == old(abs).(waits := if statPend == PendTimeout then Drop(old(abs.waits), old(abs.cur), {pevent})
                                           else old(abs.waits))
    {
      hide Agrees, Structure, Mask, Drop;
      CounterFacts(Variables(), abs, active, free);
      var cur := tcbCur.value;
      match tcbs[cur].statPend {
        case PendOk =>
          err := ErrNone;
        case PendAbort =>
          err := ErrPendAbort;
        case PendTimeout =>
          EventTaskRemove(cur, pevent);
          err := ErrTimeout;
      }
    }

    method EndSinglePend(clear: bool)
      requires Valid() && running
      modifies `tcbs, `abs
      ensures Valid() && old(abs.cur) in old(abs.tasks)
      ensures var t := old(abs.tasks)[old(abs.cur)];
              abs == old(abs).(tasks := old(abs.tasks)[old(abs.cur) :=
                                 t.(stat := STAT_RDY, statPend := PendOk, eventPtr := None, multi := None,
                                    msg := if clear then NULL else t.msg)],
                               calls := old(abs.calls) - {old(abs.cur)})
    {
      hide Agrees, Structure, Mask;
      CounterFacts(Variables(), abs, active, free);
      var cur := tcbCur.value;
      var c := tcbs[cur].(stat := STAT_RDY, statPend := PendOk, eventPtr := None, multi := None);
      if clear {
        c := c.(msg := NULL);
      }
      StoreTcb(cur, c);
      NoteCalls(abs.calls - {abs.cur});
    }

    /** Any service that changes what an event holds, or what it is, but not who waits for it. */
    method StoreEvent(pevent: nat, b: Ecb)
      requires Valid() && pevent < |events| && BodyOfRequires(b)
      requires b.grp == events[pevent].grp && b.tbl == events[pevent].tbl
      modifies `events, `abs
      ensures Valid() && |events| == old(|events|) && pevent < |old(abs.bodies)|
      ensures abs == old(abs).(bodies := old(abs.bodies)[pevent := BodyOf(b)])
    {
      hide Agrees, Structure, Mask, Bitmaps.Represents;
      BitmapFacts(Variables(), abs, active, free);
      UpdateBody(Variables(), abs, active, free, pevent, b);
      ghost var next := Variables().(events := events[pevent := b]);
      events := events[pevent := b];
      abs := abs.(bodies := abs.bodies[pevent := BodyOf(b)]);
      assert Variables() == next;
    }

    // ---- scheduling ----

    /** Find the highest-priority ready task. */
    method SchedNew()
      requires Valid() && abs.ready != {}
      modifies `prioHighRdy, `abs
      ensures Valid() && abs == old(abs).(highRdy := Min(old(abs.ready)))
      ensures prioHighRdy == Min(old(abs.ready)) && prioHighRdy in abs.tasks
    {
      hide Agrees, Structure, Mask;
      HighestReady(Variables(), abs, active, free);
      SetHighRdy(Variables(), abs, active, free, Min(abs.ready));
      var y := UnMap(rdyGrp);
      ghost var next := Variables().(prioHighRdy := 8 * y + UnMap(rdyTbl[y]));
      prioHighRdy := 8 * y + UnMap(rdyTbl[y]);
      abs := abs.(highRdy := Min(abs.ready));
      assert Variables() == next;
    }

    method SetCurrentTask(p: nat, ptcb: nat, switches: nat, run: bool)
      requires Valid() && p in abs.tasks && (run ==> lowestPrio in abs.tasks)
      requires p < |prioTbl| && prioTbl[p] == TcbAt(ptcb)
      modifies `prioCur, `tcbCur, `ctxSwCtr, `running, `abs
      ensures Valid() && tcbCur == Some(ptcb) && abs == old(abs).(cur := p, switches := switches, running := run)
    {
      hide Agrees, Structure, Mask;
      SetCurrent(Variables(), abs, active, free, p, switches, run);
      ghost var next := Variables().(prioCur := p, tcbCur := Some(ptcb), ctxSwCtr := switches, running := run);
      ghost var abs' := abs.(cur := p, switches := switches, running := run);
      assert Agrees(next, abs', active, free);
      prioCur := p;
      tcbCur := Some(ptcb);
      ctxSwCtr := switches;
      running := run;
      abs := abs';
      assert Variables() == next;
    }

    /** The context switch: the task found by the scheduler becomes the current one. */
    method SwitchContext()
      requires Valid() && prioHighRdy in abs.tasks
      modifies `prioCur, `tcbCur, `ctxSwCtr, `running, `tcbs, `abs
      ensures Valid()
      ensures abs == old(abs).(cur := prioHighRdy, switches := (old(abs.switches) + 1) % 0x1_0000_0000)
      ensures tcbCur.Some? && tcbCur.value < |old(tcbs)|
      ensures var c := old(tcbs)[tcbCur.value];
              tcbs == old(tcbs)[tcbCur.value := c.(ctxSwCtr := (c.ctxSwCtr + 1) % 0x1_0000_0000)]
    {
      hide Agrees, Structure, Mask;
      TaskTcb(Variables(), abs, active, free, prioHighRdy);
      CounterFacts(Variables(), abs, active, free);
      var tcbHighRdy := prioTbl[prioHighRdy].tcb;
      PendPointers(Variables(), abs, active, free, tcbHighRdy);
      ghost var tasks := abs.tasks;
      StoreTcb(tcbHighRdy, tcbs[tcbHighRdy].(ctxSwCtr := (tcbs[tcbHighRdy].ctxSwCtr + 1) % 0x1_0000_0000));
      assert abs.tasks == tasks;
      SetCurrentTask(prioHighRdy, tcbHighRdy, (ctxSwCtr + 1) % 0x1_0000_0000, running);
    }

    /** Run the highest-priority ready task, if that is a change. */
    method Dispatch()
      requires Valid() && abs.ready != {}
      modifies `prioHighRdy, `prioCur, `tcbCur, `ctxSwCtr, `running, `tcbs, `abs
      ensures Valid() && abs == KernelSpec.Reschedule(old(abs))
    {
      hide Agrees, Structure, Mask;
      SchedNew();
      CounterFacts(Variables(), abs, active, free);
      if prioHighRdy != prioCur {
        SwitchContext();
      }
    }

    method Sched()
      requires Valid() && abs.ready != {}
      modifies `prioHighRdy, `prioCur, `tcbCur, `ctxSwCtr, `running, `tcbs, `abs
      ensures Valid() && abs == KernelSpec.Sched(old(abs))
    {
      hide Agrees, Structure, Mask;
      CounterFacts(Variables(), abs, active, free);
      if intNesting == 0 {
        if lockNesting == 0 {
          Dispatch();
        }
      }
    }

    /** Change the nesting counters. */
    method SetNesting(int': nat, lock': nat)
      requires Valid() && int' <= 255 && lock' <= 255
      modifies `intNesting, `lockNesting, `abs
      ensures Valid() && intNesting == int' && lockNesting == lock'
      ensures abs == old(abs).(intNesting := int', lockNesting := lock')
    {
      hide Agrees, Structure, Mask;
      CounterFacts(Variables(), abs, active, free);
      UpdateCounters(Variables(), abs, active, free, int', lock', time, tickStep);
      ghost var next := Variables().(intNesting := int', lockNesting := lock');
      intNesting, lockNesting := int', lock';
      abs := abs.(intNesting := int', lockNesting := lock');
      assert Variables() == next;
    }

    method IntEnter()
      requires Valid()
      modifies `intNesting, `lockNesting, `abs
      ensures Valid() && abs == KernelSpec.IntEnter(old(abs))
    {
      hide Agrees, Structure, Mask;
      CounterFacts(Variables(), abs, active, free);
      if running {
        if intNesting < 255 {
          SetNesting(intNesting + 1, lockNesting);
        }
      }
    }

    method IntExit()
      requires Valid() && abs.ready != {}
      modifies `intNesting, `lockNesting, `prioHighRdy, `prioCur, `tcbCur, `ctxSwCtr, `running, `tcbs, `abs
      ensures Valid() && abs == KernelSpec.IntExit(old(abs))
    {
      hide Agrees, Structure, Mask;
      CounterFacts(Variables(), abs, active, free);
      if running {
        if intNesting > 0 {
          SetNesting(intNesting - 1, lockNesting);
        }
        if intNesting == 0 {
          if lockNesting == 0 {
            Dispatch();
          }
        }
      }
    }

    method SchedLock()
      requires Valid()
      modifies `intNesting, `lockNesting, `abs
      ensures Valid() && abs == KernelSpec.SchedLock(old(abs))
    {
      hide Agrees, Structure, Mask;
      CounterFacts(Variables(), abs, active, free);
      if running {
        if intNesting == 0 {
          if lockNesting < 255 {
            SetNesting(intNesting, lockNesting + 1);
          }
        }
      }
    }

    method SchedUnlock()
      requires Valid() && abs.ready != {}
      modifies `intNesting, `lockNesting, `prioHighRdy, `prioCur, `tcbCur, `ctxSwCtr, `running, `tcbs, `abs
      ensures Valid() && abs == KernelSpec.SchedUnlock(old(abs))
    {
      hide Agrees, Structure, Mask;
      CounterFacts(Variables(), abs, active, free);
      if running {
        if lockNesting > 0 {
          SetNesting(intNesting, lockNesting - 1);
          if lockNesting == 0 {
            if intNesting == 0 {
              Sched();
            }
          }
        }
      }
    }

    /** Start multitasking with the highest-priority task. */
    method Start()
      requires Valid() && abs.ready != {} && lowestPrio in abs.tasks
      modifies `running, `prioHighRdy, `prioCur, `tcbCur, `ctxSwCtr, `abs
      ensures Valid() && abs == KernelSpec.Start(old(abs))
    {
      hide Agrees, Structure, Mask;
      CounterFacts(Variables(), abs, active, free);
      if !running {
        SchedNew();
        TaskTcb(Variables(), abs, active, free, prioHighRdy);
        CounterFacts(Variables(), abs, active, free);
        var tcbHighRdy := prioTbl[prioHighRdy].tcb;
        SetCurrentTask(prioHighRdy, tcbHighRdy, ctxSwCtr, true);
      }
    }

    // ---- the clock tick ----

    /** One visit of the tick routine: count down the task's delay and, when it runs out, end the wait. */
    method AgeTask(ptcb: nat)
      requires Valid() && ptcb in active
      modifies `rdyGrp, `rdyTbl, `tcbs, `abs
      ensures Valid() && abs == AgedBy(old(abs), {PrioOf(old(tcbs), ptcb)})
      ensures forall i :: PrioOf(tcbs, i) == PrioOf(old(tcbs), i)
    {
      hide Agrees, Structure, Mask;
      ActiveTcb(Variables(), abs, active, free, ptcb);
      PendPointers(Variables(), abs, active, free, ptcb);
      ghost var p := PrioOf(tcbs, ptcb);
      AgedByOne(abs, p);
      var c := tcbs[ptcb];
      if c.dly != 0 {
        c := c.(dly := c.dly - 1);
        if c.dly == 0 {
          if c.stat & STAT_PEND_ANY != STAT_RDY {
            c := c.(stat := c.stat & !STAT_PEND_ANY);
            c := c.(statPend := PendTimeout);
          } else {
            c := c.(statPend := PendOk);
          }
          assert c.stat & STAT_SUSPEND == tcbs[ptcb].stat & STAT_SUSPEND;
        }
        var wake := c.dly == 0 && c.stat & STAT_SUSPEND == STAT_RDY;
        StoreTcb(ptcb, c);
        if wake {
          MakeReady(c.y, c.bitX, c.bitY, p);
        }
      }
    }

    /** Visit every task on the active list up to the idle task. */
    method AgeTasks()
      requires Valid() && lowestPrio in abs.tasks
      modifies `rdyGrp, `rdyTbl, `tcbs, `abs
      ensures Valid() && abs == AgeAll(old(abs))
    {
      hide Agrees, Structure, Mask, AgedBy, AgeAll;
      WalkStart(Variables(), abs, active, free);
      CounterFacts(Variables(), abs, active, free);
      var ptcb := tcbList.value;
      ghost var k := 0;
      AgedByNone(abs);
      assert PriosOf(tcbs, active, 0) == {};
      IdlePosition(Variables(), abs, active, free, 0);
      while tcbs[ptcb].prio != lowestPrio
        invariant k < |active| && ptcb == active[k] && ptcb < |tcbs|
        invariant PrioOf(tcbs, ptcb) == lowestPrio <==> k == |active| - 1
        invariant Valid() && abs == AgedBy(old(abs), PriosOf(tcbs, active, k))
        decreases |active| - k
      {
        ptcb := AgeTaskAndAdvance(ptcb, k, old(abs));
        k := k + 1;
      }
      AllVisited(Variables(), abs, active, free);
      AgedByKeys(old(abs), PriosOf(tcbs, active, k));
      AgedByAll(old(abs));
    }

    /** The loop body of the tick routine. */
    method AgeTaskAndAdvance(ptcb: nat, ghost k: nat, ghost atTick: Sys) returns (next: nat)
      requires Valid() && k + 1 < |active| && ptcb == active[k]
      requires abs == AgedBy(atTick, PriosOf(tcbs, active, k))
      modifies `rdyGrp, `rdyTbl, `tcbs, `abs
      ensures Valid() && next == active[k + 1] && next < |tcbs|
      ensures PrioOf(tcbs, next) == lowestPrio <==> k + 1 == |active| - 1
      ensures abs == AgedBy(atTick, PriosOf(tcbs, active, k + 1))
    {
      hide Agrees, Structure, Mask, AgedBy;
      NotYetVisited(Variables(), abs, active, free, k);
      PriosOfNext(tcbs, active, k);
      IdlePosition(Variables(), abs, active, free, k);
      ghost var before := tcbs;
      AgedByOneMore(atTick, PriosOf(tcbs, active, k), PrioOf(tcbs, ptcb));
      AgeTask(ptcb);
      SamePrios(before, tcbs, active, k + 1);
      WalkNext(Variables(), abs, active, free, k);
      next := tcbs[ptcb].next.value;
      IdlePosition(Variables(), abs, active, free, k + 1);
    }

    method TimeTick()
      requires Valid()
      modifies `time, `tickStep, `rdyGrp, `rdyTbl, `tcbs, `abs
      ensures Valid() && abs == KernelSpec.TimeTick(old(abs))
    {
      hide Agrees, Structure, Mask, AgeAll;
      CounterFacts(Variables(), abs, active, free);
      SetClock((time + 1) % 0x1_0000_0000, tickStep);
      if running {
        var step;
        match tickStep {
          case StepDisabled =>
            step := true;
          case StepWait =>
            step := false;
          case StepOnce =>
            step := true;
            SetClock(time, StepWait);
          case StepInvalid =>
            step := true;
            SetClock(time, StepDisabled);
        }
        if step {
          AgeTasks();
        }
      }
    }

    method SetClock(time': nat, step': TickStep)
      requires Valid()
      modifies `time, `tickStep, `abs
      ensures Valid() && time == time' && tickStep == step'
      ensures abs == old(abs).(time := time', tickStep := step')
    {
      hide Agrees, Structure, Mask;
      CounterFacts(Variables(), abs, active, free);
      UpdateCounters(Variables(), abs, active, free, intNesting, lockNesting, time', step');
      ghost var next := Variables().(time := time', tickStep := step');
      time, tickStep := time', step';
      abs := abs.(time := time', tickStep := step');
      assert Variables() == next;
    }

    // ---- suspension ----

    method TaskSuspend(prio: nat)
      requires Valid() && prio in abs.tasks
      modifies `rdyGrp, `rdyTbl, `tcbs, `abs
      ensures Valid() && abs == KernelSpec.Suspend(old(abs), prio)
    {
      hide Agrees, Structure, Mask;
      TaskTcb(Variables(), abs, active, free, prio);
      var ptcb := prioTbl[prio].tcb;
      PendPointers(Variables(), abs, active, free, ptcb);
      var c := tcbs[ptcb];
      MakeNotReady(c.y, c.bitX, c.bitY, prio);
      StoreTcb(ptcb, c.(stat := c.stat | STAT_SUSPEND));
    }

    method TaskResume(prio: nat)
      requires Valid() && prio in abs.tasks
      modifies `rdyGrp, `rdyTbl, `tcbs, `abs
      ensures Valid() && abs == KernelSpec.Resume(old(abs), prio)
    {
      hide Agrees, Structure, Mask;
      TaskTcb(Variables(), abs, active, free, prio);
      var ptcb := prioTbl[prio].tcb;
      PendPointers(Variables(), abs, active, free, ptcb);
      var c := tcbs[ptcb];
      if c.stat & STAT_SUSPEND != STAT_RDY {
        c := c.(stat := c.stat & !STAT_SUSPEND);
        StoreTcb(ptcb, c);
        if c.stat == STAT_RDY {
          if c.dly == 0 {
            MakeReady(c.y, c.bitX, c.bitY, prio);
          }
        }
      }
    }
  }

  /** The abstract state after the message and status part of readying task `p`. */
  ghost function Delivered(a: Sys, p: nat, pmsg: Ptr, msk: bv8, pendStat: PendStat): Sys
    requires p in a.tasks
  {
    var t := a.tasks[p].(dly := 0, msg := pmsg, stat := a.tasks[p].stat & !msk, statPend := pendStat);
    a.(tasks := a.tasks[p := t], ready := if t.stat & STAT_SUSPEND == 0 then a.ready + {p} else a.ready)
  }

  /** The abstract state after task `p` has left its wait lists. */
  ghost function Departed(a: Sys, p: nat, pevent: nat): Sys
    requires p in a.tasks
  {
    var t := a.tasks[p];
    a.(tasks := a.tasks[p := if t.multi.Some? then t.(eventPtr := Some(pevent)) else t],
       waits := Drop(a.waits, p, {pevent} + if t.multi.Some? then Elements(t.multi.value) else {}))
  }

  lemma DeliverThenLeave(a: Sys, pevent: nat, pmsg: Ptr, msk: bv8, pendStat: PendStat)
    requires HasWaiter(a, pevent)
    ensures var p := Min(a.waits[pevent]);
            p in a.tasks && p in Delivered(a, p, pmsg, msk, pendStat).tasks &&
            Departed(Delivered(a, p, pmsg, msk, pendStat), p, pevent) == EventTaskRdy(a, pevent, pmsg, msk, pendStat)
  {
    var p := Min(a.waits[pevent]);
    var d := Delivered(a, p, pmsg, msk, pendStat);
    var t := d.tasks[p];
    hide Drop;
    if t.multi.Some? {
      UpdateTwice(a.tasks, p, t, t.(eventPtr := Some(pevent)));
    } else {
      UpdateTwice(a.tasks, p, t, t);
    }
  }

  lemma UpdateTwice<V>(m: map<nat, V>, p: nat, v: V, w: V)
    ensures m[p := v][p := w] == m[p := w]
  {
  }

  /** The abstract state once the tasks in `done` have been visited by the tick routine. */
  ghost function AgedBy(a: Sys, done: set<nat>): Sys {
    a.(tasks := map p | p in a.tasks :: if p in done then TickTask(a.tasks[p]) else a.tasks[p],
       ready := a.ready + set p | p in done && p in a.tasks && Expires(a.tasks[p]))
  }

  lemma AgedByOne(a: Sys, p: nat)
    requires p in a.tasks
    ensures AgedBy(a, {p}) == a.(tasks := a.tasks[p := TickTask(a.tasks[p])],
                                 ready := if Expires(a.tasks[p]) then a.ready + {p} else a.ready)
    ensures a.tasks[p := a.tasks[p]] == a.tasks
  {
  }

  lemma SamePrios(tcbs: seq<Tcb>, tcbs': seq<Tcb>, active: seq<nat>, k: nat)
    requires k <= |active| && forall i :: PrioOf(tcbs, i) == PrioOf(tcbs', i)
    ensures PriosOf(tcbs, active, k) == PriosOf(tcbs', active, k)
  {
  }

  lemma AgedByKeys(a: Sys, done: set<nat>)
    ensures AgedBy(a, done).tasks.Keys == a.tasks.Keys
  {
  }

  lemma AgedByNone(a: Sys)
    ensures AgedBy(a, {}) == a
  {
  }

  lemma AgedByOneMore(a: Sys, done: set<nat>, p: nat)
    requires p !in done && p in AgedBy(a, done).tasks
    ensures AgedBy(AgedBy(a, done), {p}) == AgedBy(a, done + {p})
  {
  }

  lemma AgedByAll(a: Sys)
    ensures AgedBy(a, a.tasks.Keys - {a.idle}) == AgeAll(a)
  {
  }

  /** The caller's arrays after a scan has picked up `h`: the reports in order, everything beyond them untouched. */
  ghost predicate Filled(evs: seq<Option<nat>>, msgs: seq<Ptr>, evs0: seq<Option<nat>>, msgs0: seq<Ptr>, h: Haul, nbr: nat) {
    && nbr == |h.events| == |h.msgs| && |evs| == |evs0| && |msgs| == |msgs0| && nbr <= |evs| && nbr <= |msgs|
    && (forall k :: 0 <= k < nbr ==> evs[k] == Some(h.events[k]))
    && msgs[..nbr] == h.msgs
    && evs[nbr..] == evs0[nbr..] && msgs[nbr..] == msgs0[nbr..]
  }

  /** What a caller sees of the first half of a multi-pend. */
  ghost predicate StartReported(outcome: PendOutcome, nbr: nat, err: Err, blocked: bool,
                                evs: seq<Option<nat>>, msgs: seq<Ptr>, msgs0: seq<Ptr>)
  {
    && nbr < |evs| && nbr <= |msgs| == |msgs0| && evs[nbr] == None
    && match outcome
       case Refused(e) => !blocked && nbr == 0 && err == e && msgs == msgs0
       case Taken(taken, ms) =>
         && !blocked && nbr == |taken| > 0 && err == ErrNone
         && (forall k :: 0 <= k < nbr ==> evs[k] == Some(taken[k]))
         && msgs[..nbr] == ms && msgs[nbr..] == msgs0[nbr..]
       case Blocked => blocked && nbr == 0 && msgs == msgs0
  }

  lemma FilledNone(evs: seq<Option<nat>>, msgs: seq<Ptr>, bodies: seq<Body>)
    ensures Filled(evs, msgs, evs, msgs, Haul(bodies, [], [], STAT_RDY), 0)
  {
  }

  lemma FilledOneMore(evs: seq<Option<nat>>, msgs: seq<Ptr>, evs0: seq<Option<nat>>, msgs0: seq<Ptr>, h: Haul, e: nat)
    requires Filled(evs, msgs, evs0, msgs0, h, |h.events|) && |h.events| < |evs| && |h.events| < |msgs|
    requires e < |h.bodies| && Available(h.bodies[e])
    ensures var n := |h.events|;
            Filled(evs[n := Some(e)], msgs[n := MessageOf(h.bodies[e])], evs0, msgs0, Visit(h, e), n + 1)
  {
  }

  lemma FilledSame(evs: seq<Option<nat>>, msgs: seq<Ptr>, evs0: seq<Option<nat>>, msgs0: seq<Ptr>, h: Haul, e: nat)
    requires Filled(evs, msgs, evs0, msgs0, h, |h.events|)
    requires e < |h.bodies| && h.bodies[e].Pendable() && !Available(h.bodies[e])
    ensures Filled(evs, msgs, evs0, msgs0, Visit(h, e), |h.events|)
  {
  }

  lemma CollectNone(bodies: seq<Body>, list: seq<nat>)
    ensures AllPendable(bodies, list[..0]) && Collect(bodies, list[..0]) == Haul(bodies, [], [], STAT_RDY)
  {
  }

  lemma CollectOneMore(bodies: seq<Body>, list: seq<nat>, k: nat)
    requires AllPendable(bodies, list) && k < |list|
    ensures AllPendable(bodies, list[..k]) && AllPendable(bodies, list[..k + 1])
    ensures var h := Collect(bodies, list[..k]);
            && |h.events| <= k && list[k] < |h.bodies| == |bodies| && h.bodies[list[k]].Pendable()
            && Collect(bodies, list[..k + 1]) == Visit(h, list[k])
  {
    assert list[..k + 1][..k] == list[..k];
    var h := Collect(bodies, list[..k]);
    assert h.bodies[list[k]].SameKind(bodies[list[k]]);
  }

  lemma DropIsUpdate(waits: seq<set<nat>>, p: nat, e: nat)
    requires e < |waits|
    ensures Drop(waits, p, {e}) == waits[e := waits[e] - {p}]
  {
  }

  lemma JoinIsUpdate(waits: seq<set<nat>>, p: nat, e: nat)
    requires e < |waits|
    ensures Join(waits, p, {e}) == waits[e := waits[e] + {p}]
  {
  }

  lemma DropNothing(waits: seq<set<nat>>, p: nat, list: seq<nat>)
    ensures Drop(waits, p, Elements(list[..0])) == waits
  {
  }

  lemma DropOneMore(waits: seq<set<nat>>, p: nat, list: seq<nat>, k: nat)
    requires k < |list|
    ensures Drop(Drop(waits, p, Elements(list[..k])), p, {list[k]}) == Drop(waits, p, Elements(list[..k + 1]))
  {
    var a, b := Drop(Drop(waits, p, Elements(list[..k])), p, {list[k]}), Drop(waits, p, Elements(list[..k + 1]));
    assert list[..k + 1] == list[..k] + [list[k]];
    assert Elements(list[..k + 1]) == Elements(list[..k]) + {list[k]};
    forall e | 0 <= e < |waits| ensures a[e] == b[e] {
    }
  }

  lemma JoinNothing(waits: seq<set<nat>>, p: nat, list: seq<nat>)
    ensures Join(waits, p, Elements(list[..0])) == waits
  {
  }

  lemma JoinOneMore(waits: seq<set<nat>>, p: nat, list: seq<nat>, k: nat)
    requires k < |list|
    ensures Join(Join(waits, p, Elements(list[..k])), p, {list[k]}) == Join(waits, p, Elements(list[..k + 1]))
  {
    var a, b := Join(Join(waits, p, Elements(list[..k])), p, {list[k]}), Join(waits, p, Elements(list[..k + 1]));
    assert list[..k + 1] == list[..k] + [list[k]];
    assert Elements(list[..k + 1]) == Elements(list[..k]) + {list[k]};
    forall e | 0 <= e < |waits| ensures a[e] == b[e] {
    }
  }

  lemma DropTwice(waits: seq<set<nat>>, p: nat, es: set<nat>, fs: set<nat>)
    ensures Drop(Drop(waits, p, es), p, fs) == Drop(waits, p, es + fs)
  {
    var a, b := Drop(Drop(waits, p, es), p, fs), Drop(waits, p, es + fs);
    forall e | 0 <= e < |waits| ensures a[e] == b[e] {
    }
  }

  lemma PendPointers(m: Image, a: Sys, active: seq<nat>, free: seq<nat>, i: nat)
    requires Agrees(m, a, active, free) && i in active
    ensures i < |m.tcbs|
    ensures m.tcbs[i].multi.Some? ==> InRange(m.tcbs[i].multi.value, |m.events|)
    ensures m.tcbs[i].eventPtr.Some? ==> m.tcbs[i].eventPtr.value < |m.events|
  {
  }
}
