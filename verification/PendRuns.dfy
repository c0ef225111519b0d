/**
 Multi-event pends over whole runs: who wins when a post, an abort and a
 timeout race for the same waiting task, and what the task is told.
 */
module PendRuns {
  import opened PrioritySets
  import opened KernelSpec
  import opened KernelRuns

  /** What has happened to a blocked task, read off the run alone. */
  datatype Verdict = Waiting(ticks: nat) | Delivered(e: nat, msg: Ptr) | Aborted(e: nat) | TimedOut

  /** The first post or abort that picks the task wins, even after its timeout; otherwise the `timeout`-th processed tick ends the wait. */
  ghost function Judge(v: Verdict, s: Sys, op: Op, p: nat, timeout: nat): Verdict
    requires Enabled(s, op)
  {
    match op
    case OpReady(e, msg, _, pendStat) =>
      if Min(s.waits[e]) == p && (v.Waiting? || v.TimedOut?)
      then if pendStat == PendAbort then Aborted(e) else Delivered(e, msg)
      else v
    case OpTick =>
      if v.Waiting? && StepAllows(s)
      then if v.ticks + 1 == timeout then TimedOut else Waiting(v.ticks + 1)
      else v
    case _ => v
  }

  ghost function VerdictOf(s: Sys, ops: seq<Op>, p: nat, timeout: nat): Verdict
    requires Legal(s, ops)
  {
    if ops == [] then Waiting(0)
    else
      var prefix := ops[..|ops| - 1];
      Judge(VerdictOf(s, prefix, p, timeout), Exec(s, prefix), ops[|ops| - 1], p, timeout)
  }

  /** Task `p` does not run the second half of its pend during the run. */
  ghost predicate StaysBlocked(s: Sys, ops: seq<Op>, p: nat)
    requires Legal(s, ops)
  {
    ops == [] || (
      && StaysBlocked(s, ops[..|ops| - 1], p)
      && !(ops[|ops| - 1].OpFinishMulti? && Exec(s, ops[..|ops| - 1]).cur == p))
  }

  ghost predicate OnEveryList(s: Sys, p: nat, list: seq<nat>) {
    InRange(list, |s.waits|) && forall k :: 0 <= k < |list| ==> p in s.waits[list[k]]
  }

  ghost predicate OnNoList(s: Sys, p: nat) {
    forall e :: 0 <= e < |s.waits| ==> p !in s.waits[e]
  }

  /** How each verdict shows in the task's control block and on the wait lists. */
  ghost predicate Shows(s: Sys, p: nat, list: seq<nat>, timeout: nat, v: Verdict) {
    && p in s.tasks && p != s.idle && p in s.calls && s.calls[p] == InMulti
    && var t := s.tasks[p];
       && t.multi == Some(list) && t.stat & STAT_MULTI != 0
       && match v
          case Waiting(n) =>
            && p !in s.ready && OnEveryList(s, p, list)
            && t.eventPtr.None? && t.statPend == PendOk
            && (if timeout == 0 then t.dly == 0 else n < timeout && t.dly == timeout - n)
          case TimedOut =>
            && OnEveryList(s, p, list)
            && t.eventPtr.None? && t.statPend != PendAbort && t.dly == 0 && timeout > 0
          case Delivered(e, msg) =>
            && OnNoList(s, p) && e in list
            && t.eventPtr == Some(e) && t.msg == msg && t.statPend == PendOk && t.dly == 0
          case Aborted(e) =>
            && OnNoList(s, p) && e in list
            && t.eventPtr == Some(e) && t.statPend == PendAbort && t.dly == 0
  }

  lemma BlockedShowsWaiting(s: Sys, list: seq<nat>, timeout: nat)
    requires Inv(s) && Enabled(s, OpPendMulti(list, timeout)) && PendMultiStart(s, list, timeout).1.Blocked?
    ensures Shows(PendMultiStart(s, list, timeout).0, s.cur, list, timeout, Waiting(0))
  {
    var h := Collect(s.bodies, list);
    var stat := s.tasks[s.cur].stat;
    assert (stat | h.bits | STAT_MULTI) & STAT_MULTI != 0;
    forall k | 0 <= k < |list| ensures list[k] in Elements(list) {
    }
    hide Collect;
  }

  lemma ReadyShows(s: Sys, e: nat, msg: Ptr, msk: bv8, pendStat: PendStat, p: nat, list: seq<nat>, timeout: nat, v: Verdict)
    requires Inv(s) && Enabled(s, OpReady(e, msg, msk, pendStat)) && Shows(s, p, list, timeout, v)
    ensures Shows(EventTaskRdy(s, e, msg, msk, pendStat), p, list, timeout,
                  Judge(v, s, OpReady(e, msg, msk, pendStat), p, timeout))
  {
    var q := Min(s.waits[e]);
    assert TaskInv(s, q) && OnList(s, q, e);
    ReadyLeavesLists(s, e, msg, msk, pendStat);
    var stat := s.tasks[q].stat;
    assert (stat & !msk) & STAT_MULTI == stat & STAT_MULTI;
    hide Inv, Sound, TaskInv, Frame;
  }

  lemma TickShows(s: Sys, p: nat, list: seq<nat>, timeout: nat, v: Verdict)
    requires Inv(s) && Shows(s, p, list, timeout, v)
    ensures Shows(TimeTick(s), p, list, timeout, Judge(v, s, OpTick, p, timeout))
  {
    assert TaskInv(s, p);
    var stat := s.tasks[p].stat;
    assert (stat & !STAT_PEND_ANY) & STAT_MULTI == stat & STAT_MULTI;
  }

  lemma SuspendShows(s: Sys, q: nat, p: nat, list: seq<nat>, timeout: nat, v: Verdict)
    requires Inv(s) && Enabled(s, OpSuspend(q)) && Shows(s, p, list, timeout, v)
    ensures Shows(Suspend(s, q), p, list, timeout, v)
  {
    var stat := s.tasks[q].stat;
    assert (stat | STAT_SUSPEND) & STAT_MULTI == stat & STAT_MULTI;
  }

  lemma ResumeShows(s: Sys, q: nat, p: nat, list: seq<nat>, timeout: nat, v: Verdict)
    requires Inv(s) && Enabled(s, OpResume(q)) && Shows(s, p, list, timeout, v)
    ensures Shows(Resume(s, q), p, list, timeout, v)
  {
    var stat := s.tasks[q].stat;
    assert (stat & !STAT_SUSPEND) & STAT_MULTI == stat & STAT_MULTI;
    assert stat & STAT_MULTI != 0 ==> stat & !STAT_SUSPEND != STAT_RDY;
  }

  /** Nothing that concerns task `p` differs between the two states. */
  ghost predicate SameFor(s: Sys, s': Sys, p: nat) {
    && s'.idle == s.idle && |s'.waits| == |s.waits|
    && p in s.tasks && p in s'.tasks && s'.tasks[p] == s.tasks[p]
    && (p in s'.calls <==> p in s.calls) && (p in s.calls ==> s'.calls[p] == s.calls[p])
    && (p in s'.ready <==> p in s.ready)
    && forall e :: 0 <= e < |s.waits| ==> (p in s'.waits[e] <==> p in s.waits[e])
  }

  lemma ShowsFrame(s: Sys, s': Sys, p: nat, list: seq<nat>, timeout: nat, v: Verdict)
    requires Shows(s, p, list, timeout, v) && SameFor(s, s', p)
    ensures Shows(s', p, list, timeout, v)
  {
  }

  lemma FinishOneSame(s: Sys, e: nat, bit: bv8, p: nat)
    requires Enabled(s, OpFinishOne(e, bit)) && p in s.tasks && s.cur != p
    ensures SameFor(s, FinishOne(s), p)
  {
  }

  lemma FinishMultiSame(s: Sys, p: nat)
    requires Enabled(s, OpFinishMulti) && p in s.tasks && s.cur != p
    ensures SameFor(s, PendMultiFinish(s).0, p)
  {
  }

  /** The calls of other tasks leave the blocked task's record alone. */
  lemma TaskCallShows(s: Sys, op: Op, p: nat, list: seq<nat>, timeout: nat, v: Verdict)
    requires Inv(s) && Enabled(s, op) && Shows(s, p, list, timeout, v)
    requires op.OpPendMulti? || op.OpPendOne? || op.OpDelay? || op.OpFinishOne? || (op.OpFinishMulti? && s.cur != p)
    ensures Shows(Apply(s, op), p, list, timeout, v)
  {
    assert s.cur != p;
    TaskCallSame(s, op, p);
    ShowsFrame(s, Apply(s, op), p, list, timeout, v);
    hide Shows, SameFor, Inv, Sound, Apply, Enabled;
  }

  lemma QuietShows(s: Sys, op: Op, p: nat, list: seq<nat>, timeout: nat, v: Verdict)
    requires Inv(s) && Enabled(s, op) && Shows(s, p, list, timeout, v)
    requires Quiet(op)
    ensures Shows(Apply(s, op), p, list, timeout, v)
  {
    QuietFrame(s, op);
    hide Apply, Enabled;
  }

  lemma QuietFrame(s: Sys, op: Op)
    requires Enabled(s, op)
    requires Quiet(op)
    ensures var s' := Apply(s, op);
            s'.tasks == s.tasks && s'.ready == s.ready && s'.waits == s.waits && s'.idle == s.idle && s'.calls == s.calls
  {
    hide EventTaskRdy, PendMultiStart, PendMultiFinish, BlockOne, FinishOne, TimeTick, Suspend, Resume, Delay, TcbInit;
  }

  lemma CreateShows(s: Sys, q: nat, p: nat, list: seq<nat>, timeout: nat, v: Verdict)
    requires Inv(s) && Enabled(s, OpCreate(q)) && Shows(s, p, list, timeout, v)
    ensures Shows(TcbInit(s, q), p, list, timeout, v)
  {
  }

  lemma StepShows(s: Sys, op: Op, p: nat, list: seq<nat>, timeout: nat, v: Verdict)
    requires Inv(s) && Enabled(s, op) && Shows(s, p, list, timeout, v)
    requires op.OpFinishMulti? ==> s.cur != p
    ensures Shows(Apply(s, op), p, list, timeout, Judge(v, s, op, p, timeout))
  {
    hide Shows, Inv, Sound;
    match op
    case OpReady(e, msg, msk, pendStat) => ReadyShows(s, e, msg, msk, pendStat, p, list, timeout, v);
    case OpTick => TickShows(s, p, list, timeout, v);
    case OpSuspend(q) => SuspendShows(s, q, p, list, timeout, v);
    case OpResume(q) => ResumeShows(s, q, p, list, timeout, v);
    case OpCreate(q) => CreateShows(s, q, p, list, timeout, v);
    case _ =>
      if Quiet(op) {
        QuietShows(s, op, p, list, timeout, v);
      } else {
        TaskCallShows(s, op, p, list, timeout, v);
      }
  }

  /** Over any run that follows the block, the task's record shows the verdict of that run. */
  lemma {:induction false} RunShows(s: Sys, list: seq<nat>, timeout: nat, ops: seq<Op>)
    requires Inv(s) && Enabled(s, OpPendMulti(list, timeout)) && PendMultiStart(s, list, timeout).1.Blocked?
    requires var s1 := PendMultiStart(s, list, timeout).0;
             Legal(s1, ops) && StaysBlocked(s1, ops, s.cur)
    ensures var s1 := PendMultiStart(s, list, timeout).0;
            Inv(Exec(s1, ops)) && Shows(Exec(s1, ops), s.cur, list, timeout, VerdictOf(s1, ops, s.cur, timeout))
  {
    var s1 := PendMultiStart(s, list, timeout).0;
    if ops == [] {
      BlockedShowsWaiting(s, list, timeout);
      PendMultiKeepsInv(s, list, timeout);
    } else {
      var prefix, op := ops[..|ops| - 1], ops[|ops| - 1];
      RunShows(s, list, timeout, prefix);
      StepShows(Exec(s1, prefix), op, s.cur, list, timeout, VerdictOf(s1, prefix, s.cur, timeout));
      StepKeepsInv(Exec(s1, prefix), op);
      hide Shows, Inv, Sound, Apply, Enabled, PendMultiStart;
    }
  }

  /** The event that reached the task can no longer be waited for: it was deleted before the task ran. */
  predicate Gone(v: Verdict, bodies: seq<Body>) {
    v.Delivered? && v.e < |bodies| && !bodies[v.e].Pendable()
  }

  /** The report that belongs to a verdict. */
  ghost predicate ReportsVerdict(report: PendReport, v: Verdict, bodies: seq<Body>) {
    match v
    case Waiting(_) => false
    case TimedOut => report == PendReport([], [NULL], ErrTimeout)
    case Delivered(e, msg) =>
      && e < |bodies|
      && report == if bodies[e].Pendable() then PendReport([e], [if bodies[e].Sem? then NULL else msg], ErrNone)
                   else PendReport([e], [], ErrEventType)
    case Aborted(e) => report == PendReport([e], [NULL], ErrPendAbort)
  }

  /**
   The race, decided: whatever happens between blocking and running again, the
   task is told of the first post or abort that reached it, even one that came
   after its timeout but before it ran, and of a timeout if there was none.  It
   leaves on no wait list.  Its event pointers and message are cleared unless
   the event that reached it has been deleted meanwhile; then it is told of a
   type error, its message is lost, and its record stays as it was.
   */
  lemma PendTellsTheVerdict(s: Sys, list: seq<nat>, timeout: nat, ops: seq<Op>)
    requires Inv(s) && Enabled(s, OpPendMulti(list, timeout)) && PendMultiStart(s, list, timeout).1.Blocked?
    requires var s1 := PendMultiStart(s, list, timeout).0;
             && Legal(s1, ops) && StaysBlocked(s1, ops, s.cur)
             && Exec(s1, ops).cur == s.cur && Enabled(Exec(s1, ops), OpFinishMulti)
    ensures var s1 := PendMultiStart(s, list, timeout).0;
            var v := VerdictOf(s1, ops, s.cur, timeout);
            var before := Exec(s1, ops);
            var (after, report) := PendMultiFinish(before);
            && ReportsVerdict(report, v, before.bodies)
            && (report.events == [] <==> report.err == ErrTimeout)
            && (report.err == ErrEventType <==> Gone(v, before.bodies))
            && OnNoList(after, s.cur) && s.cur !in after.calls
            && (NotPending(after.tasks[s.cur]) <==> !Gone(v, before.bodies))
            && if Gone(v, before.bodies) then after.tasks == before.tasks
               else after.tasks[s.cur] == Task(STAT_RDY, PendOk, 0, None, None, NULL)
  {
    var s1 := PendMultiStart(s, list, timeout).0;
    RunShows(s, list, timeout, ops);
    var s2 := Exec(s1, ops);
    FinishMultiKeepsInv(s2);
    assert TaskInv(s2, s.cur);
    hide PendMultiStart, Exec, Legal, Inv, Sound, VerdictOf;
    VerdictReported(s2, list, timeout, VerdictOf(s1, ops, s.cur, timeout));
  }

  lemma VerdictReported(s: Sys, list: seq<nat>, timeout: nat, v: Verdict)
    requires Inv(s) && Enabled(s, OpFinishMulti) && Shows(s, s.cur, list, timeout, v)
    ensures var (after, report) := PendMultiFinish(s);
            && ReportsVerdict(report, v, s.bodies)
            && (EventGone(s) <==> Gone(v, s.bodies))
            && (report.events == [] <==> report.err == ErrTimeout)
            && (!EventGone(s) ==> after.tasks[s.cur] == Task(STAT_RDY, PendOk, 0, None, None, NULL))
            && (EventGone(s) ==> after.tasks[s.cur].eventPtr.Some?)
  {
    assert TaskInv(s, s.cur);
    hide Inv, Sound, TaskInv, Drop, Frame;
  }

  /**
   The failing input: a multi-pend is posted to, and the event, nobody else
   waiting for it, is deleted before the task runs.
   */
  lemma DeletedAfterPost(s: Sys, e: nat, msg: Ptr, msk: bv8)
    requires Inv(s) && HasWaiter(s, e) && PendBit(msk) && s.intNesting == 0 && e < |s.bodies|
    requires var p := Min(s.waits[e]); s.waits[e] == {p} && p in s.calls && s.calls[p] == InMulti
    ensures var p := Min(s.waits[e]);
            && Enabled(s, OpReady(e, msg, msk, PendOk))
            && var s1 := Apply(s, OpReady(e, msg, msk, PendOk));
            && Enabled(s1, OpDelete(e))
            && var s2 := Apply(s1, OpDelete(e)).(cur := p);
            && InMultiPend(s2)
            && PendMultiFinish(s2) == (s2.(calls := s2.calls - {p}), PendReport([e], [], ErrEventType))
            && s2.tasks[p].eventPtr == Some(e) && s2.tasks[p].multi.Some? && s2.tasks[p].msg == msg
  {
    var p := Min(s.waits[e]);
    assert TaskInv(s, p) && OnList(s, p, e);
    ReadyLeavesLists(s, e, msg, msk, PendOk);
    hide Inv, Sound, Drop, Frame;
  }

  /** The record such a task is left with keeps a later suspension from ever being undone, though it waits for nothing. */
  lemma StaleRecordNeverResumes(s: Sys, p: nat)
    requires Inv(s) && p in s.tasks && p !in s.calls && s.tasks[p].stat & STAT_MULTI != 0
    ensures p in Suspend(s, p).tasks && p !in Resume(Suspend(s, p), p).ready
  {
    var stat := s.tasks[p].stat;
    assert (stat | STAT_SUSPEND) & STAT_SUSPEND != 0;
    assert stat & STAT_MULTI != 0 ==> (stat | STAT_SUSPEND) & !STAT_SUSPEND != STAT_RDY;
  }

  // ---- when the task becomes ready ----

  /** What a run says of a blocked task: its verdict, whether it is suspended, and whether it has been woken. */
  datatype Fate = Fate(verdict: Verdict, suspended: bool, woken: bool)

  /**
   The event that decides the wait, or decides it anew after a timeout, wakes
   the task unless it finds it suspended.  A suspension undoes the waking, and
   a resumption does not bring it back.
   */
  ghost function Befall(f: Fate, s: Sys, op: Op, p: nat, timeout: nat): Fate
    requires Enabled(s, op)
  {
    var v := Judge(f.verdict, s, op, p, timeout);
    match op
    case OpReady(e, _, _, _) =>
      Fate(v, f.suspended, f.woken || (Min(s.waits[e]) == p && !f.suspended && (f.verdict.Waiting? || f.verdict.TimedOut?)))
    case OpTick => Fate(v, f.suspended, f.woken || (f.verdict.Waiting? && v.TimedOut? && !f.suspended))
    case OpSuspend(q) => if q == p then Fate(v, true, false) else Fate(v, f.suspended, f.woken)
    case OpResume(q) => Fate(v, f.suspended && q != p, f.woken)
    case _ => Fate(v, f.suspended, f.woken)
  }

  ghost function FateOf(s: Sys, ops: seq<Op>, p: nat, timeout: nat): Fate
    requires Legal(s, ops)
  {
    if ops == [] then Fate(Waiting(0), false, false)
    else
      var prefix := ops[..|ops| - 1];
      Befall(FateOf(s, prefix, p, timeout), Exec(s, prefix), ops[|ops| - 1], p, timeout)
  }

  ghost predicate Meets(s: Sys, p: nat, f: Fate) {
    && p in s.tasks && (s.tasks[p].stat & STAT_SUSPEND != 0 <==> f.suspended)
    && (p in s.ready <==> f.woken)
    && (f.woken ==> !f.suspended && !f.verdict.Waiting?)
  }

  lemma ReadyMeets(s: Sys, e: nat, msg: Ptr, msk: bv8, pendStat: PendStat, p: nat, list: seq<nat>, timeout: nat, f: Fate)
    requires Inv(s) && Enabled(s, OpReady(e, msg, msk, pendStat)) && Shows(s, p, list, timeout, f.verdict) && Meets(s, p, f)
    ensures Meets(EventTaskRdy(s, e, msg, msk, pendStat), p, Befall(f, s, OpReady(e, msg, msk, pendStat), p, timeout))
  {
    var q := Min(s.waits[e]);
    var stat := s.tasks[q].stat;
    assert (stat & !msk) & STAT_SUSPEND == stat & STAT_SUSPEND;
    ReadyLeavesLists(s, e, msg, msk, pendStat);
    hide Inv, Sound, Drop;
  }

  lemma TickMeets(s: Sys, p: nat, list: seq<nat>, timeout: nat, f: Fate)
    requires Inv(s) && Shows(s, p, list, timeout, f.verdict) && Meets(s, p, f)
    ensures Meets(TimeTick(s), p, Befall(f, s, OpTick, p, timeout))
  {
    var stat := s.tasks[p].stat;
    assert (stat & !STAT_PEND_ANY) & STAT_SUSPEND == stat & STAT_SUSPEND;
  }

  lemma SuspendResumeMeets(s: Sys, op: Op, p: nat, list: seq<nat>, timeout: nat, f: Fate)
    requires Inv(s) && Enabled(s, op) && Shows(s, p, list, timeout, f.verdict) && Meets(s, p, f)
    requires op.OpSuspend? || op.OpResume?
    ensures Meets(Apply(s, op), p, Befall(f, s, op, p, timeout))
  {
    var stat := s.tasks[p].stat;
    assert (stat | STAT_SUSPEND) & STAT_SUSPEND != 0 && (stat & !STAT_SUSPEND) & STAT_SUSPEND == 0;
    assert stat & STAT_MULTI != 0 ==> stat & !STAT_SUSPEND != STAT_RDY;
    hide Inv, Sound;
  }

  lemma OtherMeets(s: Sys, op: Op, p: nat, list: seq<nat>, timeout: nat, f: Fate)
    requires Inv(s) && Enabled(s, op) && Shows(s, p, list, timeout, f.verdict) && Meets(s, p, f)
    requires op.OpPendMulti? || op.OpPendOne? || op.OpDelay? || op.OpFinishOne? || op.OpCreate?
             || (op.OpFinishMulti? && s.cur != p)
    ensures Meets(Apply(s, op), p, f)
  {
    if !op.OpCreate? {
      assert s.cur != p;
      TaskCallSame(s, op, p);
      hide Apply, Enabled;
    }
    hide PendMultiStart, PendMultiFinish, BlockOne, FinishOne, EventTaskRdy, Inv, Sound;
  }

  lemma StepMeets(s: Sys, op: Op, p: nat, list: seq<nat>, timeout: nat, f: Fate)
    requires Inv(s) && Enabled(s, op) && Shows(s, p, list, timeout, f.verdict) && Meets(s, p, f)
    requires op.OpFinishMulti? ==> s.cur != p
    ensures Meets(Apply(s, op), p, Befall(f, s, op, p, timeout))
  {
    hide Shows, Inv, Sound;
    match op
    case OpReady(e, msg, msk, pendStat) => ReadyMeets(s, e, msg, msk, pendStat, p, list, timeout, f);
    case OpTick => TickMeets(s, p, list, timeout, f);
    case OpSuspend(_) => SuspendResumeMeets(s, op, p, list, timeout, f);
    case OpResume(_) => SuspendResumeMeets(s, op, p, list, timeout, f);
    case _ =>
      if Quiet(op) {
        QuietFrame(s, op);
      } else {
        OtherMeets(s, op, p, list, timeout, f);
      }
      hide Apply;
  }

  lemma {:induction false} FateHasVerdict(s: Sys, ops: seq<Op>, p: nat, timeout: nat)
    requires Legal(s, ops)
    ensures FateOf(s, ops, p, timeout).verdict == VerdictOf(s, ops, p, timeout)
  {
    if ops != [] {
      FateHasVerdict(s, ops[..|ops| - 1], p, timeout);
    }
  }

  lemma BlockedMeets(s: Sys, list: seq<nat>, timeout: nat)
    requires Inv(s) && Enabled(s, OpPendMulti(list, timeout)) && PendMultiStart(s, list, timeout).1.Blocked?
    ensures Meets(PendMultiStart(s, list, timeout).0, s.cur, Fate(Waiting(0), false, false))
  {
    EmptyHaulBits(s.bodies, list);
    assert TaskInv(s, s.cur);
    var stat, bits := s.tasks[s.cur].stat, Collect(s.bodies, list).bits;
    assert stat & STAT_SUSPEND == 0 && bits & STAT_SUSPEND == 0 ==> (stat | bits | STAT_MULTI) & STAT_SUSPEND == 0;
  }

  /**
   Over every run: the task is ready exactly if the event that decided its wait
   found it unsuspended and nobody has suspended it since.
   */
  lemma {:induction false} ReadyExactlyWhenWoken(s: Sys, list: seq<nat>, timeout: nat, ops: seq<Op>)
    requires Inv(s) && Enabled(s, OpPendMulti(list, timeout)) && PendMultiStart(s, list, timeout).1.Blocked?
    requires var s1 := PendMultiStart(s, list, timeout).0;
             Legal(s1, ops) && StaysBlocked(s1, ops, s.cur)
    ensures var s1 := PendMultiStart(s, list, timeout).0;
            && Meets(Exec(s1, ops), s.cur, FateOf(s1, ops, s.cur, timeout))
            && (s.cur in Exec(s1, ops).ready <==> FateOf(s1, ops, s.cur, timeout).woken)
  {
    var s1 := PendMultiStart(s, list, timeout).0;
    if ops == [] {
      BlockedMeets(s, list, timeout);
    } else {
      var prefix, op := ops[..|ops| - 1], ops[|ops| - 1];
      ReadyExactlyWhenWoken(s, list, timeout, prefix);
      RunShows(s, list, timeout, prefix);
      FateHasVerdict(s1, prefix, s.cur, timeout);
      StepMeets(Exec(s1, prefix), op, s.cur, list, timeout, FateOf(s1, prefix, s.cur, timeout));
      hide Shows, Inv, Sound, Apply, Enabled, PendMultiStart, Befall;
    }
  }

  /** No call suspends task `p` during the run. */
  predicate NeverSuspended(ops: seq<Op>, p: nat) {
    forall k :: 0 <= k < |ops| ==> ops[k] != OpSuspend(p)
  }

  lemma {:induction false} UnsuspendedFate(s: Sys, ops: seq<Op>, p: nat, timeout: nat)
    requires Legal(s, ops) && NeverSuspended(ops, p)
    ensures var f := FateOf(s, ops, p, timeout); !f.suspended && (f.woken <==> !f.verdict.Waiting?)
  {
    if ops != [] {
      UnsuspendedFate(s, ops[..|ops| - 1], p, timeout);
    }
  }

  /** A task that nobody suspends is ready exactly when its wait has been decided. */
  lemma ReadyOnceDecided(s: Sys, list: seq<nat>, timeout: nat, ops: seq<Op>)
    requires Inv(s) && Enabled(s, OpPendMulti(list, timeout)) && PendMultiStart(s, list, timeout).1.Blocked?
    requires var s1 := PendMultiStart(s, list, timeout).0;
             Legal(s1, ops) && StaysBlocked(s1, ops, s.cur) && NeverSuspended(ops, s.cur)
    ensures var s1 := PendMultiStart(s, list, timeout).0;
            && s.cur in Exec(s1, ops).tasks && Exec(s1, ops).tasks[s.cur].stat & STAT_SUSPEND == 0
            && (s.cur in Exec(s1, ops).ready <==> !VerdictOf(s1, ops, s.cur, timeout).Waiting?)
  {
    var s1 := PendMultiStart(s, list, timeout).0;
    ReadyExactlyWhenWoken(s, list, timeout, ops);
    UnsuspendedFate(s1, ops, s.cur, timeout);
    FateHasVerdict(s1, ops, s.cur, timeout);
    hide Inv, Sound, PendMultiStart, Exec, Legal;
  }

  // ---- suspension during a multi-pend ----

  /** The waiting task is suspended, then its event is posted, then it is resumed. */
  ghost function AfterSuspendPostResume(s: Sys, e: nat, msg: Ptr, msk: bv8): Sys
    requires Inv(s) && HasWaiter(s, e)
  {
    var p := Min(s.waits[e]);
    var s1 := Suspend(s, p);
    var s2 := EventTaskRdy(s1, e, msg, msk, PendOk);
    Resume(s2, p)
  }

  /** No call can make the task ready again. */
  ghost predicate Stuck(s: Sys, p: nat) {
    && p in s.tasks && p != s.idle && p in s.calls && p !in s.ready && OnNoList(s, p)
    && var t := s.tasks[p];
       t.multi.Some? && t.dly == 0 && t.stat & STAT_MULTI != 0
  }

  /**
   Resuming a task whose event was posted while it was suspended makes it ready
   exactly when no status bit but the posted event's was set, whether it was
   still waiting or had timed out.  A multi-pend always leaves such a bit, so
   its wake-up is lost.
   */
  lemma ResumeAfterPost(s: Sys, e: nat, msg: Ptr, msk: bv8)
    requires Inv(s) && HasWaiter(s, e) && PendBit(msk)
    ensures var p := Min(s.waits[e]);
            var s' := AfterSuspendPostResume(s, e, msg, msk);
            && p in s.tasks
            && (p in s'.ready <==> s.tasks[p].stat & !msk & !STAT_SUSPEND == STAT_RDY)
            && (s.tasks[p].multi.Some? && s.tasks[p].stat & STAT_MULTI != 0 ==> Stuck(s', p))
  {
    hide Inv, Sound, Drop, EventTaskRdy, Suspend, TaskInv, OnList, Frame, PendBit;
    WaiterIsTask(s, e);
    SuspendedPost(s, e, msg, msk);
    PostedOffLists(s, e, msg, msk);
    SuspendBits(s.tasks[Min(s.waits[e])].stat, msk);
  }

  lemma WaiterIsTask(s: Sys, e: nat)
    requires Inv(s) && HasWaiter(s, e)
    ensures var p := Min(s.waits[e]); p in s.tasks && p != s.idle && p in s.calls
  {
    var p := Min(s.waits[e]);
    assert TaskInv(s, p) && OnList(s, p, e);
  }

  lemma PostedOffLists(s: Sys, e: nat, msg: Ptr, msk: bv8)
    requires Inv(s) && HasWaiter(s, e) && PendBit(msk)
    ensures var p := Min(s.waits[e]);
            && p in s.tasks && HasWaiter(Suspend(s, p), e)
            && OnNoList(EventTaskRdy(Suspend(s, p), e, msg, msk, PendOk), p)
  {
    var p := Min(s.waits[e]);
    WaiterIsTask(s, e);
    SuspendKeepsInv(s, p);
    ReadyLeavesLists(Suspend(s, p), e, msg, msk, PendOk);
    hide Inv, Sound, Drop;
  }

  lemma SuspendBits(stat: bv8, msk: bv8)
    requires PendBit(msk)
    ensures ((stat | STAT_SUSPEND) & !msk) & STAT_SUSPEND != 0
    ensures ((stat | STAT_SUSPEND) & !msk) & !STAT_SUSPEND == stat & !msk & !STAT_SUSPEND
    ensures stat & STAT_MULTI != 0 ==> (stat & !msk & !STAT_SUSPEND) & STAT_MULTI != 0
  {
  }

  /** A post to a suspended waiter delivers the message but does not make the task ready. */
  lemma SuspendedPost(s: Sys, e: nat, msg: Ptr, msk: bv8)
    requires Inv(s) && HasWaiter(s, e) && PendBit(msk)
    ensures var p := Min(s.waits[e]);
            && p in s.tasks && HasWaiter(Suspend(s, p), e)
            && var s2 := EventTaskRdy(Suspend(s, p), e, msg, msk, PendOk);
            && s2.ready == s.ready - {p} && p in s2.tasks && s2.idle == s.idle && s2.calls == s.calls
            && var t := s2.tasks[p];
            && t.stat == (s.tasks[p].stat | STAT_SUSPEND) & !msk && t.dly == 0 && t.multi == s.tasks[p].multi
  {
    SuspendBits(s.tasks[Min(s.waits[e])].stat, msk);
    hide Inv, Sound;
  }

  /**
   The other order loses the wake-up too: once its wait has been decided, a
   task that is suspended and resumed before it runs is not ready, and after a
   post or an abort nothing makes it ready again.
   */
  lemma SuspendAfterDecision(s: Sys, p: nat, list: seq<nat>, timeout: nat, v: Verdict)
    requires Inv(s) && Shows(s, p, list, timeout, v) && !v.Waiting?
    ensures p in Suspend(s, p).tasks
    ensures p !in Resume(Suspend(s, p), p).ready
    ensures v.Delivered? || v.Aborted? ==> Stuck(Resume(Suspend(s, p), p), p)
  {
    var stat := s.tasks[p].stat;
    assert (stat | STAT_SUSPEND) & STAT_SUSPEND != 0;
    assert ((stat | STAT_SUSPEND) & !STAT_SUSPEND) & STAT_MULTI == stat & STAT_MULTI;
    assert stat & STAT_MULTI != 0 ==> (stat | STAT_SUSPEND) & !STAT_SUSPEND != STAT_RDY;
    hide Inv, Sound;
  }

  lemma TaskCallKeepsStuck(s: Sys, op: Op, p: nat)
    requires Inv(s) && Enabled(s, op) && Stuck(s, p)
    requires op.OpPendMulti? || op.OpPendOne? || op.OpDelay? || op.OpFinishOne? || op.OpFinishMulti?
    ensures Stuck(Apply(s, op), p)
  {
    assert s.cur != p;
    TaskCallSame(s, op, p);
    hide Inv, Sound, Apply, Enabled;
  }

  /** The calls of one task leave every other task as it is. */
  lemma TaskCallSame(s: Sys, op: Op, p: nat)
    requires Enabled(s, op) && p in s.tasks && s.cur != p
    requires op.OpPendMulti? || op.OpPendOne? || op.OpDelay? || op.OpFinishOne? || op.OpFinishMulti?
    ensures SameFor(s, Apply(s, op), p)
  {
    match op
    case OpPendMulti(list, timeout) => PendMultiSame(s, list, timeout, p);
    case OpFinishMulti => FinishMultiSame(s, p);
    case OpFinishOne(e, bit) => FinishOneSame(s, e, bit, p);
    case _ =>
      hide PendMultiStart, PendMultiFinish, FinishOne, EventTaskRdy, TimeTick;
  }

  lemma PendMultiSame(s: Sys, list: seq<nat>, timeout: nat, p: nat)
    requires Enabled(s, OpPendMulti(list, timeout)) && p in s.tasks && s.cur != p
    ensures SameFor(s, PendMultiStart(s, list, timeout).0, p)
  {
    hide Collect;
  }

  lemma ReadyKeepsStuck(s: Sys, e: nat, msg: Ptr, msk: bv8, pendStat: PendStat, p: nat)
    requires Inv(s) && Enabled(s, OpReady(e, msg, msk, pendStat)) && Stuck(s, p)
    ensures Stuck(EventTaskRdy(s, e, msg, msk, pendStat), p)
  {
    assert Min(s.waits[e]) != p;
    hide Inv, Sound;
  }

  lemma TickKeepsStuck(s: Sys, p: nat)
    requires Stuck(s, p)
    ensures Stuck(TimeTick(s), p)
  {
  }

  lemma SuspensionKeepsStuck(s: Sys, op: Op, p: nat)
    requires Enabled(s, op) && Stuck(s, p) && (op.OpSuspend? || op.OpResume?)
    ensures Stuck(Apply(s, op), p)
  {
    var stat := s.tasks[p].stat;
    assert (stat | STAT_SUSPEND) & STAT_MULTI == stat & STAT_MULTI;
    assert (stat & !STAT_SUSPEND) & STAT_MULTI == stat & STAT_MULTI;
  }

  lemma CreateKeepsStuck(s: Sys, q: nat, p: nat)
    requires Enabled(s, OpCreate(q)) && Stuck(s, p)
    ensures Stuck(TcbInit(s, q), p)
  {
  }

  lemma KernelCallKeepsStuck(s: Sys, op: Op, p: nat)
    requires Inv(s) && Enabled(s, op) && Stuck(s, p)
    requires op.OpCreate? || op.OpReady? || op.OpTick? || op.OpSuspend? || op.OpResume?
    ensures Stuck(Apply(s, op), p)
  {
    hide Inv, Sound, Stuck;
    match op
    case OpReady(e, msg, msk, pendStat) => ReadyKeepsStuck(s, e, msg, msk, pendStat, p);
    case OpTick => TickKeepsStuck(s, p);
    case OpCreate(q) => CreateKeepsStuck(s, q, p);
    case _ => SuspensionKeepsStuck(s, op, p);
  }

  lemma StepKeepsStuck(s: Sys, op: Op, p: nat)
    requires Inv(s) && Enabled(s, op) && Stuck(s, p)
    ensures Stuck(Apply(s, op), p)
  {
    if Quiet(op) {
      QuietFrame(s, op);
    } else if op.OpCreate? || op.OpReady? || op.OpTick? || op.OpSuspend? || op.OpResume? {
      KernelCallKeepsStuck(s, op, p);
    } else {
      TaskCallKeepsStuck(s, op, p);
    }
    hide Apply, Enabled, Inv, Sound;
  }

  lemma {:induction false} StuckForever(s: Sys, ops: seq<Op>, p: nat)
    requires Inv(s) && Legal(s, ops) && Stuck(s, p)
    ensures Stuck(Exec(s, ops), p)
  {
    if ops != [] {
      var prefix := ops[..|ops| - 1];
      StuckForever(s, prefix, p);
      RunKeepsInv(s, prefix);
      StepKeepsStuck(Exec(s, prefix), ops[|ops| - 1], p);
    }
  }
}
