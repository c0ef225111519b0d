/**
 Pends on a single event over whole runs: how long the wait lasts, who ends it,
 what the task is told, and when it runs again.
 */
module SinglePendRuns {
  import opened PrioritySets
  import opened KernelSpec
  import opened KernelRuns
  import opened PendRuns
  import opened TickRuns

  /** Task `p` does not run the second half of its pend during the run. */
  ghost predicate StaysInCall(s: Sys, ops: seq<Op>, p: nat)
    requires Legal(s, ops)
  {
    ops == [] || (
      && StaysInCall(s, ops[..|ops| - 1], p)
      && !(ops[|ops| - 1].OpFinishOne? && Exec(s, ops[..|ops| - 1]).cur == p))
  }

  /** How each verdict shows in the task's control block and on the wait lists. */
  ghost predicate ShowsOne(s: Sys, p: nat, e: nat, bit: bv8, timeout: nat, v: Verdict) {
    && p in s.tasks && p != s.idle && p in s.calls && s.calls[p] == InSingle(e, bit) && e < |s.waits|
    && var t := s.tasks[p];
       && t.eventPtr == Some(e)
       && match v
          case Waiting(n) =>
            && p !in s.ready && p in s.waits[e]
            && t.stat & STAT_PEND_ANY != 0 && t.statPend == PendOk
            && (if timeout == 0 then t.dly == 0 else n < timeout && t.dly == timeout - n)
          case TimedOut =>
            && p in s.waits[e]
            && t.statPend == PendTimeout && t.dly == 0 && timeout > 0
          case Delivered(f, msg) =>
            && OnNoList(s, p) && f == e
            && t.msg == msg && t.statPend == PendOk && t.dly == 0
          case Aborted(f) =>
            && OnNoList(s, p) && f == e
            && t.statPend == PendAbort && t.dly == 0
  }

  lemma OneBlocked(s: Sys, e: nat, bit: bv8, timeout: nat)
    requires Inv(s) && Enabled(s, OpPendOne(e, bit, timeout))
    ensures ShowsOne(BlockOne(s, e, bit, timeout), s.cur, e, bit, timeout, Waiting(0))
  {
    PendBitWaits(s.tasks[s.cur].stat, bit);
    hide Inv, Sound;
  }

  lemma OneReady(s: Sys, e: nat, msg: Ptr, msk: bv8, pendStat: PendStat, p: nat, f: nat, bit: bv8, timeout: nat, v: Verdict)
    requires Inv(s) && Enabled(s, OpReady(e, msg, msk, pendStat)) && ShowsOne(s, p, f, bit, timeout, v)
    ensures ShowsOne(EventTaskRdy(s, e, msg, msk, pendStat), p, f, bit, timeout,
                     Judge(v, s, OpReady(e, msg, msk, pendStat), p, timeout))
  {
    ReadyLeavesLists(s, e, msg, msk, pendStat);
    hide Inv, Sound, TaskInv, Frame, Drop;
  }

  lemma OneTick(s: Sys, p: nat, e: nat, bit: bv8, timeout: nat, v: Verdict)
    requires Inv(s) && ShowsOne(s, p, e, bit, timeout, v)
    ensures ShowsOne(TimeTick(s), p, e, bit, timeout, Judge(v, s, OpTick, p, timeout))
  {
    TickedRecord(s.tasks[p]);
    hide Inv, Sound;
  }

  lemma OneSuspend(s: Sys, q: nat, p: nat, e: nat, bit: bv8, timeout: nat, v: Verdict)
    requires Enabled(s, OpSuspend(q)) && ShowsOne(s, p, e, bit, timeout, v)
    ensures ShowsOne(Suspend(s, q), p, e, bit, timeout, v)
  {
    var stat := s.tasks[q].stat;
    assert (stat | STAT_SUSPEND) & STAT_PEND_ANY == stat & STAT_PEND_ANY;
  }

  lemma OneResume(s: Sys, q: nat, p: nat, e: nat, bit: bv8, timeout: nat, v: Verdict)
    requires Enabled(s, OpResume(q)) && ShowsOne(s, p, e, bit, timeout, v)
    ensures ShowsOne(Resume(s, q), p, e, bit, timeout, v)
  {
    var stat := s.tasks[q].stat;
    assert (stat & !STAT_SUSPEND) & STAT_PEND_ANY == stat & STAT_PEND_ANY;
  }

  lemma OneFrame(s: Sys, s': Sys, p: nat, e: nat, bit: bv8, timeout: nat, v: Verdict)
    requires ShowsOne(s, p, e, bit, timeout, v) && SameFor(s, s', p)
    ensures ShowsOne(s', p, e, bit, timeout, v)
  {
  }

  lemma OneOther(s: Sys, op: Op, p: nat, e: nat, bit: bv8, timeout: nat, v: Verdict)
    requires Enabled(s, op) && ShowsOne(s, p, e, bit, timeout, v)
    requires op.OpPendMulti? || op.OpFinishMulti? || op.OpPendOne? || op.OpDelay? || (op.OpFinishOne? && s.cur != p)
    ensures ShowsOne(Apply(s, op), p, e, bit, timeout, v)
  {
    assert s.cur != p;
    TaskCallSame(s, op, p);
    OneFrame(s, Apply(s, op), p, e, bit, timeout, v);
    hide ShowsOne, SameFor, Apply, Enabled;
  }

  lemma OneQuiet(s: Sys, op: Op, p: nat, e: nat, bit: bv8, timeout: nat, v: Verdict)
    requires Enabled(s, op) && Quiet(op) && ShowsOne(s, p, e, bit, timeout, v)
    ensures ShowsOne(Apply(s, op), p, e, bit, timeout, v)
  {
    QuietFrame(s, op);
    hide Apply, Enabled;
  }

  lemma OneCreate(s: Sys, q: nat, p: nat, e: nat, bit: bv8, timeout: nat, v: Verdict)
    requires Enabled(s, OpCreate(q)) && ShowsOne(s, p, e, bit, timeout, v)
    ensures ShowsOne(TcbInit(s, q), p, e, bit, timeout, v)
  {
  }

  lemma OneStep(s: Sys, op: Op, p: nat, e: nat, bit: bv8, timeout: nat, v: Verdict)
    requires Inv(s) && Enabled(s, op) && ShowsOne(s, p, e, bit, timeout, v)
    requires op.OpFinishOne? ==> s.cur != p
    ensures ShowsOne(Apply(s, op), p, e, bit, timeout, Judge(v, s, op, p, timeout))
  {
    hide ShowsOne, Inv, Sound;
    match op
    case OpReady(f, msg, msk, pendStat) => OneReady(s, f, msg, msk, pendStat, p, e, bit, timeout, v);
    case OpTick => OneTick(s, p, e, bit, timeout, v);
    case OpSuspend(q) => OneSuspend(s, q, p, e, bit, timeout, v);
    case OpResume(q) => OneResume(s, q, p, e, bit, timeout, v);
    case OpCreate(q) => OneCreate(s, q, p, e, bit, timeout, v);
    case _ =>
      if Quiet(op) {
        OneQuiet(s, op, p, e, bit, timeout, v);
      } else {
        OneOther(s, op, p, e, bit, timeout, v);
      }
  }

  /** Over any run that follows the block, the task's record shows the verdict of that run. */
  lemma {:induction false} OneRunShows(s: Sys, e: nat, bit: bv8, timeout: nat, ops: seq<Op>)
    requires Inv(s) && Enabled(s, OpPendOne(e, bit, timeout))
    requires var s1 := BlockOne(s, e, bit, timeout); Legal(s1, ops) && StaysInCall(s1, ops, s.cur)
    ensures var s1 := BlockOne(s, e, bit, timeout);
            Inv(Exec(s1, ops)) && ShowsOne(Exec(s1, ops), s.cur, e, bit, timeout, VerdictOf(s1, ops, s.cur, timeout))
  {
    hide ShowsOne, Inv, Sound, Apply, BlockOne, Judge;
    var s1 := BlockOne(s, e, bit, timeout);
    if ops == [] {
      OneBlocked(s, e, bit, timeout);
      PendOneKeepsInv(s, e, bit, timeout);
    } else {
      var prefix, op := ops[..|ops| - 1], ops[|ops| - 1];
      OneRunShows(s, e, bit, timeout, prefix);
      OneStep(Exec(s1, prefix), op, s.cur, e, bit, timeout, VerdictOf(s1, prefix, s.cur, timeout));
      StepKeepsInv(Exec(s1, prefix), op);
    }
  }
  /** What the caller is told for each verdict: a message only from a mailbox or a queue. */
  predicate Told(err: Err, msg: Ptr, v: Verdict, bit: bv8) {
    match v
    case Waiting(_) => false
    case Delivered(_, m) => err == ErrNone && msg == if bit in {STAT_MBOX, STAT_Q} then m else NULL
    case Aborted(_) => err == ErrPendAbort && msg == NULL
    case TimedOut => err == ErrTimeout && msg == NULL
  }

  /**
   Whatever happens between blocking and running again, the caller is told of
   the first post or abort that reached the task, even one that came after its
   timeout but before it ran, and of a timeout if there was none.
   */
  lemma SinglePendTellsTheVerdict(s: Sys, e: nat, bit: bv8, timeout: nat, ops: seq<Op>)
    requires Inv(s) && Enabled(s, OpPendOne(e, bit, timeout))
    requires var s1 := BlockOne(s, e, bit, timeout);
             && Legal(s1, ops) && StaysInCall(s1, ops, s.cur)
             && Exec(s1, ops).cur == s.cur && Enabled(Exec(s1, ops), OpFinishOne(e, bit))
    ensures var s1 := BlockOne(s, e, bit, timeout);
            var before := Exec(s1, ops);
            var after := FinishOne(before);
            && Told(OneReport(before.tasks[s.cur], bit).0, OneReport(before.tasks[s.cur], bit).1,
                    VerdictOf(s1, ops, s.cur, timeout), bit)
            && OnNoList(after, s.cur) && s.cur !in after.calls
            && after.tasks[s.cur] == Task(STAT_RDY, PendOk, 0, None, None,
                                          if bit in {STAT_MBOX, STAT_Q} then NULL else before.tasks[s.cur].msg)
  {
    var s1 := BlockOne(s, e, bit, timeout);
    OneRunShows(s, e, bit, timeout, ops);
    hide BlockOne, Exec, Legal, Inv, Sound, VerdictOf;
    FinishOneKeepsInv(Exec(s1, ops), e, bit);
    OneVerdictReported(Exec(s1, ops), e, bit, timeout, VerdictOf(s1, ops, s.cur, timeout));
  }

  lemma OneVerdictReported(s: Sys, e: nat, bit: bv8, timeout: nat, v: Verdict)
    requires Enabled(s, OpFinishOne(e, bit)) && ShowsOne(s, s.cur, e, bit, timeout, v)
    ensures var after := FinishOne(s);
            && Told(OneReport(s.tasks[s.cur], bit).0, OneReport(s.tasks[s.cur], bit).1, v, bit) && s.cur !in after.calls
            && after.tasks[s.cur] == Task(STAT_RDY, PendOk, 0, None, None,
                                          if bit in {STAT_MBOX, STAT_Q} then NULL else s.tasks[s.cur].msg)
  {
    hide Drop;
  }

  /**
   The first half of a semaphore pend: when it is refused, with which code, when
   it takes and when it blocks; a refusal changes nothing.
   */
  lemma SemPendOutcome(s: Sys, e: nat, timeout: nat)
    requires s.cur in s.tasks && e < |s.bodies|
    ensures var (s', outcome) := SemPendStart(s, e, timeout);
            var sem := s.bodies[e].Sem?;
            && (outcome == SemRefused(ErrEventType) <==> !sem)
            && (outcome == SemRefused(ErrPendIsr) <==> sem && s.intNesting > 0)
            && (outcome == SemRefused(ErrPendLocked) <==> sem && s.intNesting == 0 && s.lockNesting > 0)
            && (outcome.SemTaken? <==> sem && s.intNesting == 0 == s.lockNesting && s.bodies[e].cnt > 0)
            && (outcome.SemBlocked? <==> sem && s.intNesting == 0 == s.lockNesting && s.bodies[e].cnt == 0)
            && (outcome.SemRefused? ==> s' == s)
            && (outcome.SemTaken? ==> s' == s.(bodies := s.bodies[e := Sem(s.bodies[e].cnt - 1)]))
            && (outcome.SemBlocked? && TaskLevel(s) && s.cur !in s.calls && e < |s.waits| && timeout < 0x1_0000 ==>
                  Enabled(s, OpPendOne(e, 0x01, timeout)) && s' == Apply(s, OpPendOne(e, 0x01, timeout)))
  {
    hide BlockOne;
  }

  // ---- how long the wait lasts ----

  /** No post and no abort picks task `p` during the run. */
  ghost predicate NeverPicked(s: Sys, ops: seq<Op>, p: nat)
    requires Legal(s, ops)
  {
    ops == [] || (
      && NeverPicked(s, ops[..|ops| - 1], p)
      && var before, op := Exec(s, ops[..|ops| - 1]), ops[|ops| - 1];
         op.OpReady? ==> Min(before.waits[op.e]) != p)
  }

  /** Then the wait, for one event or for several, ends at exactly the `timeout`-th processed tick; with a timeout of 0, never. */
  lemma {:induction false} UndecidedVerdict(s: Sys, ops: seq<Op>, p: nat, timeout: nat)
    requires Legal(s, ops) && NeverPicked(s, ops, p)
    ensures var n := ProcessedTicks(s, ops);
            VerdictOf(s, ops, p, timeout) == if timeout == 0 || n < timeout then Waiting(n) else TimedOut
  {
    if ops != [] {
      UndecidedVerdict(s, ops[..|ops| - 1], p, timeout);
      hide Enabled, Apply;
    }
  }

  /** The record of a task that no post and no abort has picked, at every point of the wait. */
  lemma WaitLastsExactly(s: Sys, e: nat, bit: bv8, timeout: nat, ops: seq<Op>)
    requires Inv(s) && Enabled(s, OpPendOne(e, bit, timeout))
    requires var s1 := BlockOne(s, e, bit, timeout);
             Legal(s1, ops) && StaysInCall(s1, ops, s.cur) && NeverPicked(s1, ops, s.cur)
    ensures var s1 := BlockOne(s, e, bit, timeout);
            var now, n := Exec(s1, ops), ProcessedTicks(s1, ops);
            && s.cur in now.tasks && e < |now.waits| && s.cur in now.waits[e]
            && var t := now.tasks[s.cur];
            && t.dly == (if n < timeout then timeout - n else 0)
            && (t.statPend == PendTimeout <==> 0 < timeout <= n)
            && (timeout == 0 || n < timeout ==> s.cur !in now.ready)
  {
    var s1 := BlockOne(s, e, bit, timeout);
    OneRunShows(s, e, bit, timeout, ops);
    UndecidedVerdict(s1, ops, s.cur, timeout);
    hide BlockOne, Exec, Legal, Inv, Sound, VerdictOf, ProcessedTicks, OnNoList;
  }

  // ---- when the task becomes ready ----

  /** Every post or abort that picks task `p` clears the status bit it waits with. */
  ghost predicate WellMasked(s: Sys, ops: seq<Op>, p: nat, bit: bv8)
    requires Legal(s, ops)
  {
    ops == [] || (
      && WellMasked(s, ops[..|ops| - 1], p, bit)
      && var before, op := Exec(s, ops[..|ops| - 1]), ops[|ops| - 1];
         op.OpReady? && Min(before.waits[op.e]) == p ==> op.msk == bit)
  }

  /** Task `p` has been suspended and not resumed since. */
  predicate Suspended(ops: seq<Op>, p: nat) {
    ops != [] && match ops[|ops| - 1]
                 case OpSuspend(q) => q == p || Suspended(ops[..|ops| - 1], p)
                 case OpResume(q) => q != p && Suspended(ops[..|ops| - 1], p)
                 case _ => Suspended(ops[..|ops| - 1], p)
  }

  /** The status word holds the bit of the event while the task waits, and the suspension, and nothing else. */
  ghost predicate Status(s: Sys, p: nat, bit: bv8, v: Verdict, suspended: bool) {
    && p in s.tasks
    && s.tasks[p].stat == (if v.Waiting? then bit else STAT_RDY) | (if suspended then STAT_SUSPEND else STAT_RDY)
    && (p in s.ready <==> !v.Waiting? && !suspended)
  }

  lemma StatusBits(bit: bv8)
    requires PendBit(bit)
    ensures bit & STAT_SUSPEND == 0 && bit & STAT_PEND_ANY == bit && bit != STAT_RDY
    ensures bit & !STAT_SUSPEND == bit && (bit | STAT_SUSPEND) & !STAT_SUSPEND == bit
    ensures bit & !bit == STAT_RDY && (bit | STAT_SUSPEND) & !bit == STAT_SUSPEND && STAT_SUSPEND & !bit == STAT_SUSPEND
    ensures bit & !STAT_PEND_ANY == STAT_RDY && (bit | STAT_SUSPEND) & !STAT_PEND_ANY == STAT_SUSPEND
    ensures (bit | STAT_SUSPEND) & STAT_SUSPEND == STAT_SUSPEND && (bit | STAT_SUSPEND) & STAT_PEND_ANY == bit
  {
  }

  lemma StatusStep(s: Sys, op: Op, p: nat, e: nat, bit: bv8, timeout: nat, v: Verdict, suspended: bool)
    requires Inv(s) && Enabled(s, op) && PendBit(bit) && ShowsOne(s, p, e, bit, timeout, v) && Status(s, p, bit, v, suspended)
    requires op.OpFinishOne? ==> s.cur != p
    requires op.OpReady? && Min(s.waits[op.e]) == p ==> op.msk == bit
    ensures Status(Apply(s, op), p, bit, Judge(v, s, op, p, timeout),
                   if op == OpSuspend(p) then true else if op == OpResume(p) then false else suspended)
  {
    hide Status, ShowsOne, Inv, Sound, PendBit;
    match op
    case OpReady(f, msg, msk, pendStat) => StatusReady(s, f, msg, msk, pendStat, p, e, bit, timeout, v, suspended);
    case OpTick => StatusTick(s, p, e, bit, timeout, v, suspended);
    case OpSuspend(q) => StatusSuspend(s, q, p, bit, v, suspended);
    case OpResume(q) => StatusResume(s, q, p, e, bit, timeout, v, suspended);
    case _ => StatusOther(s, op, p, e, bit, timeout, v, suspended);
  }

  lemma StatusSuspend(s: Sys, q: nat, p: nat, bit: bv8, v: Verdict, suspended: bool)
    requires Enabled(s, OpSuspend(q)) && PendBit(bit) && Status(s, p, bit, v, suspended)
    ensures Status(Suspend(s, q), p, bit, v, q == p || suspended)
  {
    StatusBits(bit);
    hide PendBit;
  }

  lemma StatusResume(s: Sys, q: nat, p: nat, e: nat, bit: bv8, timeout: nat, v: Verdict, suspended: bool)
    requires Enabled(s, OpResume(q)) && PendBit(bit)
    requires ShowsOne(s, p, e, bit, timeout, v) && Status(s, p, bit, v, suspended)
    ensures Status(Resume(s, q), p, bit, v, q != p && suspended)
  {
    StatusBits(bit);
    hide PendBit;
  }

  lemma StatusFrame(s: Sys, s': Sys, p: nat, bit: bv8, v: Verdict, suspended: bool)
    requires Status(s, p, bit, v, suspended)
    requires p in s.tasks && p in s'.tasks && s'.tasks[p] == s.tasks[p] && (p in s'.ready <==> p in s.ready)
    ensures Status(s', p, bit, v, suspended)
  {
  }

  /** The running task, if it makes a call or finishes another, is not the one that is waiting. */
  lemma NotTheCaller(s: Sys, op: Op, p: nat, e: nat, bit: bv8, timeout: nat, v: Verdict)
    requires Enabled(s, op) && ShowsOne(s, p, e, bit, timeout, v)
    requires op.OpPendMulti? || op.OpFinishMulti? || op.OpPendOne? || op.OpDelay? || (op.OpFinishOne? && s.cur != p)
    ensures p in s.tasks && s.cur != p
  {
  }

  lemma StatusOther(s: Sys, op: Op, p: nat, e: nat, bit: bv8, timeout: nat, v: Verdict, suspended: bool)
    requires Enabled(s, op) && ShowsOne(s, p, e, bit, timeout, v) && Status(s, p, bit, v, suspended)
    requires !op.OpReady? && !op.OpTick? && !op.OpSuspend? && !op.OpResume? && (op.OpFinishOne? ==> s.cur != p)
    ensures Status(Apply(s, op), p, bit, v, suspended)
  {
    hide Status, ShowsOne, Enabled, Apply;
    if op.OpCreate? {
      StatusCreate(s, op.prio, p, bit, v, suspended);
    } else if Quiet(op) {
      QuietFrame(s, op);
      StatusTask(s, p, bit, v, suspended);
      StatusFrame(s, Apply(s, op), p, bit, v, suspended);
    } else {
      NotTheCaller(s, op, p, e, bit, timeout, v);
      TaskCallSame(s, op, p);
      StatusFrame(s, Apply(s, op), p, bit, v, suspended);
    }
  }

  lemma StatusTask(s: Sys, p: nat, bit: bv8, v: Verdict, suspended: bool)
    requires Status(s, p, bit, v, suspended)
    ensures p in s.tasks
  {
  }

  lemma StatusCreate(s: Sys, q: nat, p: nat, bit: bv8, v: Verdict, suspended: bool)
    requires Enabled(s, OpCreate(q)) && Status(s, p, bit, v, suspended)
    ensures Status(Apply(s, OpCreate(q)), p, bit, v, suspended)
  {
  }

  lemma StatusReady(s: Sys, e: nat, msg: Ptr, msk: bv8, pendStat: PendStat,
                    p: nat, f: nat, bit: bv8, timeout: nat, v: Verdict, suspended: bool)
    requires Inv(s) && Enabled(s, OpReady(e, msg, msk, pendStat)) && PendBit(bit)
    requires ShowsOne(s, p, f, bit, timeout, v) && Status(s, p, bit, v, suspended)
    requires Min(s.waits[e]) == p ==> msk == bit
    ensures Status(EventTaskRdy(s, e, msg, msk, pendStat), p, bit,
                   Judge(v, s, OpReady(e, msg, msk, pendStat), p, timeout), suspended)
  {
    StatusBits(bit);
    ReadyLeavesLists(s, e, msg, msk, pendStat);
    hide Inv, Sound, Drop, PendBit;
  }

  lemma StatusTick(s: Sys, p: nat, e: nat, bit: bv8, timeout: nat, v: Verdict, suspended: bool)
    requires PendBit(bit) && ShowsOne(s, p, e, bit, timeout, v) && Status(s, p, bit, v, suspended)
    ensures Status(TimeTick(s), p, bit, Judge(v, s, OpTick, p, timeout), suspended)
  {
    StatusBits(bit);
    hide PendBit;
  }

  lemma StatusRunStep(s: Sys, ops: seq<Op>, p: nat, e: nat, bit: bv8, timeout: nat)
    requires ops != [] && Legal(s, ops) && StaysInCall(s, ops, p) && WellMasked(s, ops, p, bit) && PendBit(bit)
    requires var prefix := ops[..|ops| - 1];
             var v := VerdictOf(s, prefix, p, timeout);
             && Inv(Exec(s, prefix)) && ShowsOne(Exec(s, prefix), p, e, bit, timeout, v)
             && Status(Exec(s, prefix), p, bit, v, Suspended(prefix, p))
    ensures Status(Exec(s, ops), p, bit, VerdictOf(s, ops, p, timeout), Suspended(ops, p))
  {
    hide ShowsOne, Status, Inv, Sound, Apply, Enabled, Judge, PendBit;
    var prefix, op := ops[..|ops| - 1], ops[|ops| - 1];
    StatusStep(Exec(s, prefix), op, p, e, bit, timeout, VerdictOf(s, prefix, p, timeout), Suspended(prefix, p));
  }

  lemma StatusStarts(s: Sys, e: nat, bit: bv8, timeout: nat)
    requires Enabled(s, OpPendOne(e, bit, timeout)) && s.tasks[s.cur].stat == STAT_RDY
    ensures Status(BlockOne(s, e, bit, timeout), s.cur, bit, Waiting(0), false) && PendBit(bit)
  {
    hide Join;
  }

  lemma NothingYet(s: Sys, p: nat, timeout: nat)
    ensures Legal(s, []) && Exec(s, []) == s && VerdictOf(s, [], p, timeout) == Waiting(0) && !Suspended([], p)
  {
  }

  lemma StatusReadiness(s: Sys, p: nat, bit: bv8, v: Verdict, suspended: bool)
    requires Status(s, p, bit, v, suspended)
    ensures p in s.ready <==> !v.Waiting? && !suspended
  {
  }

  /**
   A task that was in no other state when it pended on one event is ready
   exactly when its wait has been decided and it is not suspended: unlike a
   multi-pend, a suspension costs it nothing but time.
   */
  lemma {:induction false} SingleReadyWhenDecided(s: Sys, e: nat, bit: bv8, timeout: nat, ops: seq<Op>)
    requires Inv(s) && Enabled(s, OpPendOne(e, bit, timeout)) && s.tasks[s.cur].stat == STAT_RDY
    requires var s1 := BlockOne(s, e, bit, timeout);
             Legal(s1, ops) && StaysInCall(s1, ops, s.cur) && WellMasked(s1, ops, s.cur, bit)
    ensures var s1 := BlockOne(s, e, bit, timeout);
            var v := VerdictOf(s1, ops, s.cur, timeout);
            && Status(Exec(s1, ops), s.cur, bit, v, Suspended(ops, s.cur))
            && (s.cur in Exec(s1, ops).ready <==> !v.Waiting? && !Suspended(ops, s.cur))
  {
    var s1 := BlockOne(s, e, bit, timeout);
    hide ShowsOne, Status, Inv, Sound, Enabled, BlockOne, PendBit, Exec, Suspended;
    StatusStarts(s, e, bit, timeout);
    if ops == [] {
      NothingYet(s1, s.cur, timeout);
    } else {
      var prefix := ops[..|ops| - 1];
      SingleReadyWhenDecided(s, e, bit, timeout, prefix);
      OneRunShows(s, e, bit, timeout, prefix);
      StatusRunStep(s1, ops, s.cur, e, bit, timeout);
    }
    StatusReadiness(Exec(s1, ops), s.cur, bit, VerdictOf(s1, ops, s.cur, timeout), Suspended(ops, s.cur));
  }
}
