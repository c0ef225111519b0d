/** When the processor changes hands, over every run. */
module SchedulerRuns {
  import opened PrioritySets
  import opened KernelSpec
  import opened KernelRuns

  /** Only a reschedule point changes the current task, with both counters at zero, and to the most urgent ready task. */
  lemma SwitchOnlyUnnested(s: Sys, op: Op)
    requires Inv(s) && Enabled(s, op) && Apply(s, op).cur != s.cur
    ensures op.OpSched? || op.OpIntExit? || op.OpUnlock?
    ensures Apply(s, op).intNesting == 0 && Apply(s, op).lockNesting == 0
    ensures Apply(s, op).ready == s.ready && Apply(s, op).cur == Min(s.ready)
  {
    if Scheduling(op) {
      SchedulingSwitch(s, op);
    } else {
      SchedulerUntouched(s, op);
    }
    hide Apply, Enabled, Inv, Sound;
  }

  lemma SchedulingSwitch(s: Sys, op: Op)
    requires Enabled(s, op) && Scheduling(op)
    ensures var s' := Apply(s, op);
            && s'.ready == s.ready
            && (s'.cur != s.cur ==>
                  && (op.OpSched? || op.OpIntExit? || op.OpUnlock?) && s.ready != {}
                  && s'.intNesting == 0 && s'.lockNesting == 0 && s'.cur == Min(s.ready))
  {
    hide EventTaskRdy, PendMultiStart, PendMultiFinish, BlockOne, FinishOne, TimeTick, Suspend, Resume, Delay;
  }

  /** A reschedule point: the scheduler call, the end of an interrupt, or the unlock that releases the scheduler. */
  predicate ReschedulePoint(s: Sys, op: Op) {
    op.OpSched? || op.OpIntExit? || (op.OpUnlock? && s.lockNesting > 0)
  }

  /** After a reschedule point that is reached with both counters at zero, the most urgent ready task runs. */
  lemma RescheduleRunsHighest(s: Sys, op: Op)
    requires Inv(s) && Enabled(s, op) && ReschedulePoint(s, op)
    requires Apply(s, op).intNesting == 0 && Apply(s, op).lockNesting == 0
    ensures Apply(s, op).cur == Min(Apply(s, op).ready) == Apply(s, op).highRdy
    ensures forall p :: p in Apply(s, op).ready ==> Apply(s, op).cur <= p
  {
  }

  /** Before multitasking starts nothing nests and nothing is scheduled; starting twice is starting once. */
  lemma NothingBeforeStart(s: Sys)
    requires s.ready != {}
    ensures !s.running ==> IntEnter(s) == s && IntExit(s) == s && SchedLock(s) == s && SchedUnlock(s) == s
    ensures s.running ==> Start(s) == s
    ensures Start(Start(s)) == Start(s)
  {
  }

  /** How often the current task changed. */
  ghost function Changes(s: Sys, ops: seq<Op>): nat
    requires Legal(s, ops)
  {
    if ops == [] then 0
    else
      var prefix := ops[..|ops| - 1];
      Changes(s, prefix) + if Exec(s, ops).cur != Exec(s, prefix).cur then 1 else 0
  }

  lemma SwitchCounted(s: Sys, op: Op)
    requires Inv(s) && Enabled(s, op)
    ensures var s' := Apply(s, op);
            s'.switches == if s'.cur != s.cur then (s.switches + 1) % 0x1_0000_0000 else s.switches
  {
    if Scheduling(op) {
      SchedulingCounts(s, op);
    } else {
      SchedulerUntouched(s, op);
    }
    hide Apply, Enabled, Inv, Sound;
  }

  lemma SchedulingCounts(s: Sys, op: Op)
    requires Enabled(s, op) && Scheduling(op)
    ensures var s' := Apply(s, op);
            s'.switches == if s'.cur != s.cur then (s.switches + 1) % 0x1_0000_0000 else s.switches
  {
    hide EventTaskRdy, PendMultiStart, PendMultiFinish, BlockOne, FinishOne, TimeTick, Suspend, Resume, Delay;
  }

  /** The context switch counter counts, in 32 bits, the changes of the current task and nothing else. */
  lemma {:induction false} SwitchesAreCounted(s: Sys, ops: seq<Op>)
    requires Inv(s) && Legal(s, ops) && s.switches < 0x1_0000_0000
    ensures Exec(s, ops).switches == (s.switches + Changes(s, ops)) % 0x1_0000_0000
  {
    hide Inv, Sound, Apply, Enabled;
    if ops != [] {
      var prefix := ops[..|ops| - 1];
      SwitchesAreCounted(s, prefix);
      RunKeepsInv(s, prefix);
      SwitchCounted(Exec(s, prefix), ops[|ops| - 1]);
      OneMore32(s.switches + Changes(s, prefix));
    }
  }

  // ---- nesting depths, counted on the run itself ----

  function IntDepth(ops: seq<Op>): int {
    if ops == [] then 0
    else IntDepth(ops[..|ops| - 1]) +
         match ops[|ops| - 1] case OpIntEnter => 1 case OpIntExit => -1 case _ => 0
  }

  function LockDepth(ops: seq<Op>): int {
    if ops == [] then 0
    else LockDepth(ops[..|ops| - 1]) +
         match ops[|ops| - 1] case OpLock => 1 case OpUnlock => -1 case _ => 0
  }

  /** Calls come in pairs, and the scheduler is locked and unlocked at task level only. */
  predicate Bracketed(ops: seq<Op>) {
    ops == [] || (
      && Bracketed(ops[..|ops| - 1])
      && IntDepth(ops) >= 0 && LockDepth(ops) >= 0
      && (ops[|ops| - 1].OpLock? || ops[|ops| - 1].OpUnlock? ==> IntDepth(ops) == 0))
  }

  predicate Shallow(ops: seq<Op>) {
    ops == [] || (Shallow(ops[..|ops| - 1]) && IntDepth(ops) <= 255 && LockDepth(ops) <= 255)
  }

  /** The two counters equal the real depths in every state of the run. */
  ghost predicate Tracks(s: Sys, ops: seq<Op>)
    requires Legal(s, ops)
  {
    && (ops == [] || Tracks(s, ops[..|ops| - 1]))
    && Exec(s, ops).intNesting == IntDepth(ops) && Exec(s, ops).lockNesting == LockDepth(ops)
  }

  /** What each operation does to the counters. */
  lemma CounterStep(s: Sys, op: Op)
    requires Inv(s) && Enabled(s, op)
    ensures Apply(s, op).intNesting ==
            match op
            case OpIntEnter => if s.intNesting < 255 then s.intNesting + 1 else 255
            case OpIntExit => if s.intNesting > 0 then s.intNesting - 1 else 0
            case _ => s.intNesting
    ensures Apply(s, op).lockNesting ==
            match op
            case OpLock => if s.intNesting == 0 && s.lockNesting < 255 then s.lockNesting + 1 else s.lockNesting
            case OpUnlock => if s.lockNesting > 0 then s.lockNesting - 1 else 0
            case _ => s.lockNesting
  {
    CountersBounded(s);
    if Scheduling(op) {
      SchedulingCounters(s, op);
    } else {
      SchedulerUntouched(s, op);
    }
    hide Apply, Enabled, Inv, Sound;
  }

  lemma SchedulingCounters(s: Sys, op: Op)
    requires Enabled(s, op) && Scheduling(op) && s.running && s.intNesting <= 255 && s.lockNesting <= 255
    ensures Apply(s, op).intNesting ==
            match op
            case OpIntEnter => if s.intNesting < 255 then s.intNesting + 1 else 255
            case OpIntExit => if s.intNesting > 0 then s.intNesting - 1 else 0
            case _ => s.intNesting
    ensures Apply(s, op).lockNesting ==
            match op
            case OpLock => if s.intNesting == 0 && s.lockNesting < 255 then s.lockNesting + 1 else s.lockNesting
            case OpUnlock => if s.lockNesting > 0 then s.lockNesting - 1 else 0
            case _ => s.lockNesting
  {
    hide EventTaskRdy, PendMultiStart, PendMultiFinish, BlockOne, FinishOne, TimeTick, Suspend, Resume, Delay;
  }

  /** The saturating counters are exact over a bracketed run if and only if the nesting never exceeds 255. */
  lemma {:induction false} NestingIsExact(s: Sys, ops: seq<Op>)
    requires Inv(s) && Legal(s, ops) && Bracketed(ops) && s.intNesting == 0 && s.lockNesting == 0
    ensures Tracks(s, ops) <==> Shallow(ops)
  {
    if ops != [] {
      var prefix, op := ops[..|ops| - 1], ops[|ops| - 1];
      NestingIsExact(s, prefix);
      RunKeepsInv(s, prefix);
      RunKeepsInv(s, ops);
      CounterStep(Exec(s, prefix), op);
      hide Apply, Enabled, Inv, Sound;
      assert Inv(Exec(s, ops)) ==> Exec(s, ops) == Apply(Exec(s, prefix), op);
      CountersBounded(Exec(s, ops));
    }
  }

  lemma CountersBounded(s: Sys)
    requires Inv(s)
    ensures s.running && s.intNesting <= 255 && s.lockNesting <= 255
  {
  }

  /** In a bracketed run of depth at most 255, the processor changes hands only outside every interrupt and every lock. */
  lemma SwitchesOutsideNesting(s: Sys, ops: seq<Op>, op: Op)
    requires Inv(s) && s.intNesting == 0 && s.lockNesting == 0
    requires Legal(s, ops + [op]) && Bracketed(ops + [op]) && Shallow(ops + [op])
    requires Legal(s, ops) && Exec(s, ops + [op]).cur != Exec(s, ops).cur
    ensures IntDepth(ops + [op]) == 0 && LockDepth(ops + [op]) == 0
    ensures var after := Exec(s, ops + [op]);
            after.ready != {} && after.cur == Min(after.ready)
  {
    var run := ops + [op];
    assert run[..|run| - 1] == ops;
    NestingIsExact(s, run);
    RunKeepsInv(s, ops);
    SwitchOnlyUnnested(Exec(s, ops), op);
  }

  /** In such a run, after every reschedule point outside all interrupts and locks the most urgent ready task runs. */
  lemma HighestRunsOutsideNesting(s: Sys, ops: seq<Op>, op: Op)
    requires Inv(s) && s.intNesting == 0 && s.lockNesting == 0
    requires Legal(s, ops + [op]) && Bracketed(ops + [op]) && Shallow(ops + [op])
    requires op.OpSched? || op.OpIntExit? || op.OpUnlock?
    requires IntDepth(ops + [op]) == 0 && LockDepth(ops + [op]) == 0
    ensures var after := Exec(s, ops + [op]);
            && after.ready != {} && after.cur == Min(after.ready)
            && forall p :: p in after.ready ==> after.cur <= p
  {
    var run := ops + [op];
    assert run[..|run| - 1] == ops;
    NestingIsExact(s, run);
    RunKeepsInv(s, ops);
    RunKeepsInv(s, run);
    assert Tracks(s, ops);
    hide Apply, Enabled, Inv, Sound;
    RescheduleRunsHighest(Exec(s, ops), op);
  }
}
