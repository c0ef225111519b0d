/** How long a delay lasts, counted in processed ticks, whatever else happens meanwhile. */
module TickRuns {
  import opened PrioritySets
  import opened KernelSpec
  import opened KernelRuns

  ghost function ProcessedTicks(s: Sys, ops: seq<Op>): nat
    requires Legal(s, ops)
  {
    if ops == [] then 0
    else
      var prefix := ops[..|ops| - 1];
      ProcessedTicks(s, prefix) + if ops[|ops| - 1].OpTick? && StepAllows(Exec(s, prefix)) then 1 else 0
  }

  function TicksIn(ops: seq<Op>): nat {
    if ops == [] then 0 else TicksIn(ops[..|ops| - 1]) + if ops[|ops| - 1].OpTick? then 1 else 0
  }

  lemma ClockStep(s: Sys, op: Op)
    requires Inv(s) && Enabled(s, op)
    ensures var s' := Apply(s, op);
            && s'.time == (if op.OpTick? then (s.time + 1) % 0x1_0000_0000 else s.time)
            && s'.tickStep == (if !op.OpTick? then s.tickStep
                               else if s.tickStep == StepOnce then StepWait
                               else if s.tickStep == StepInvalid then StepDisabled else s.tickStep)
  {
    assert Frame(s);
    hide Inv, Sound, Frame, Drop, Join, Collect, AgeAll;
  }

  /** The clock counts every tick, in 32 bits, whether the tick ages the tasks or not. */
  lemma {:induction false} ClockCountsTicks(s: Sys, ops: seq<Op>)
    requires Inv(s) && Legal(s, ops) && s.time < 0x1_0000_0000
    ensures Exec(s, ops).time == (s.time + TicksIn(ops)) % 0x1_0000_0000
  {
    hide Inv, Sound, Apply, Enabled;
    if ops != [] {
      var prefix := ops[..|ops| - 1];
      ClockCountsTicks(s, prefix);
      RunKeepsInv(s, prefix);
      ClockStep(Exec(s, prefix), ops[|ops| - 1]);
      OneMore32(s.time + TicksIn(prefix));
    }
  }

  /**
   Tick stepping: with stepping off every tick ages the tasks; while waiting for
   a step none does; a single step lets exactly the next one through.
   */
  lemma {:induction false} SteppingAges(s: Sys, ops: seq<Op>)
    requires Inv(s) && Legal(s, ops)
    ensures ProcessedTicks(s, ops) == match s.tickStep
                                      case StepDisabled => TicksIn(ops)
                                      case StepInvalid => TicksIn(ops)
                                      case StepWait => 0
                                      case StepOnce => if TicksIn(ops) == 0 then 0 else 1
    ensures var step := Exec(s, ops).tickStep;
            match s.tickStep
            case StepDisabled => step == StepDisabled
            case StepInvalid => step == if TicksIn(ops) == 0 then StepInvalid else StepDisabled
            case StepWait => step == StepWait
            case StepOnce => step == if TicksIn(ops) == 0 then StepOnce else StepWait
  {
    if ops != [] {
      var prefix := ops[..|ops| - 1];
      SteppingAges(s, prefix);
      RunKeepsInv(s, prefix);
      assert Frame(Exec(s, prefix));
      ClockStep(Exec(s, prefix), ops[|ops| - 1]);
      hide Inv, Sound, Frame, Apply, Enabled;
    }
  }

  /** A tick that is not processed changes nothing but the clock; one that is ages every task but idle once. */
  lemma UnprocessedTick(s: Sys)
    requires !StepAllows(s)
    ensures TimeTick(s) == s.(time := (s.time + 1) % 0x1_0000_0000)
  {
  }

  /** Nobody suspends task `p`, and it does not delay itself again. */
  ghost predicate Undisturbed(s: Sys, ops: seq<Op>, p: nat)
    requires Legal(s, ops)
  {
    ops == [] || (
      && Undisturbed(s, ops[..|ops| - 1], p)
      && ops[|ops| - 1] != OpSuspend(p)
      && !(ops[|ops| - 1].OpDelay? && Exec(s, ops[..|ops| - 1]).cur == p))
  }

  /** `left` more ticks to go. */
  ghost predicate Delayed(s: Sys, p: nat, left: nat) {
    && p in s.tasks && p != s.idle && p !in s.calls
    && s.tasks[p].dly == left && s.tasks[p].stat & STAT_SUSPEND == 0
    && (left > 0 <==> p !in s.ready)
  }

  lemma TickAges(s: Sys, p: nat, left: nat)
    requires Inv(s) && Delayed(s, p, left) && left > 0
    ensures Delayed(TimeTick(s), p, if StepAllows(s) then left - 1 else left)
  {
    var stat := s.tasks[p].stat;
    assert stat & STAT_SUSPEND == 0 ==> (stat & !STAT_PEND_ANY) & STAT_SUSPEND == 0;
  }

  lemma ReadyKeepsDelay(s: Sys, e: nat, msg: Ptr, msk: bv8, pendStat: PendStat, p: nat, left: nat)
    requires Inv(s) && Enabled(s, OpReady(e, msg, msk, pendStat)) && Delayed(s, p, left)
    ensures Delayed(EventTaskRdy(s, e, msg, msk, pendStat), p, left)
  {
    ReadyLeavesLists(s, e, msg, msk, pendStat);
    hide Inv, Sound, Drop;
  }

  /** A task that is not running cannot be the one that pends, finishes or delays itself. */
  lemma TaskCallKeepsDelay(s: Sys, op: Op, p: nat, left: nat)
    requires Enabled(s, op) && Delayed(s, p, left)
    requires op.OpPendMulti? || op.OpFinishMulti? || op.OpPendOne? || op.OpFinishOne? || op.OpDelay?
    requires s.cur != p
    ensures Delayed(Apply(s, op), p, left)
  {
    hide Drop, Join, Collect;
  }

  lemma OthersKeepDelay(s: Sys, op: Op, p: nat, left: nat)
    requires Inv(s) && Enabled(s, op) && Delayed(s, p, left) && left > 0
    requires !op.OpTick? && op != OpSuspend(p) && !(op.OpDelay? && s.cur == p)
    ensures Delayed(Apply(s, op), p, left)
  {
    if op.OpReady? {
      ReadyKeepsDelay(s, op.e, op.msg, op.msk, op.pendStat, p, left);
    } else if op.OpPendMulti? || op.OpFinishMulti? || op.OpPendOne? || op.OpFinishOne? || op.OpDelay? {
      TaskCallKeepsDelay(s, op, p, left);
      hide Delayed;
    } else {
      hide Drop, Join, Collect;
    }
    hide Inv, Sound, EventTaskRdy, PendMultiStart, PendMultiFinish, BlockOne, FinishOne, Delay;
  }

  /** Fewer than `ticks` ticks have been processed before the last operation of the run. */
  ghost predicate NotExpiredBefore(s: Sys, ops: seq<Op>, ticks: nat)
    requires Legal(s, ops)
  {
    ops == [] || (NotExpiredBefore(s, ops[..|ops| - 1], ticks) && ProcessedTicks(s, ops[..|ops| - 1]) < ticks)
  }

  /** A delay of no ticks is none. */
  lemma NoTicksNoDelay(s: Sys)
    requires s.cur in s.tasks
    ensures Delay(s, 0) == s
  {
  }

  /** A task that delays itself for `ticks` ticks becomes ready at exactly the `ticks`-th processed tick. */
  lemma {:induction false} DelayLastsExactly(s: Sys, ticks: nat, ops: seq<Op>)
    requires Inv(s) && TaskLevel(s) && Enabled(s, OpDelay(ticks)) && ticks > 0
    requires var s1 := Delay(s, ticks);
             Legal(s1, ops) && Undisturbed(s1, ops, s.cur) && NotExpiredBefore(s1, ops, ticks)
    ensures var s1 := Delay(s, ticks);
            && ProcessedTicks(s1, ops) <= ticks
            && Delayed(Exec(s1, ops), s.cur, ticks - ProcessedTicks(s1, ops))
            && (s.cur in Exec(s1, ops).ready <==> ProcessedTicks(s1, ops) == ticks)
  {
    hide Inv, Sound, Apply, Enabled, Delay, Delayed;
    var s1 := Delay(s, ticks);
    DelayStarts(s, ticks);
    if ops != [] {
      var prefix, op := ops[..|ops| - 1], ops[|ops| - 1];
      DelayLastsExactly(s, ticks, prefix);
      DelayKeepsInv(s, ticks);
      RunKeepsInv(s1, prefix);
      DelayStep(Exec(s1, prefix), op, s.cur, ticks - ProcessedTicks(s1, prefix));
    }
    ReadyWhenExpired(Exec(s1, ops), s.cur, ticks - ProcessedTicks(s1, ops));
  }

  lemma ReadyWhenExpired(s: Sys, p: nat, left: nat)
    requires Delayed(s, p, left)
    ensures p in s.ready <==> left == 0
  {
  }

  lemma DelayStarts(s: Sys, ticks: nat)
    requires Inv(s) && TaskLevel(s) && Enabled(s, OpDelay(ticks)) && ticks > 0
    ensures Delayed(Delay(s, ticks), s.cur, ticks)
  {
    assert TaskInv(s, s.cur);
  }

  lemma DelayStep(s: Sys, op: Op, p: nat, left: nat)
    requires Inv(s) && Enabled(s, op) && Delayed(s, p, left) && left > 0
    requires op != OpSuspend(p) && !(op.OpDelay? && s.cur == p)
    ensures Delayed(Apply(s, op), p, if op.OpTick? && StepAllows(s) then left - 1 else left)
  {
    if op.OpTick? {
      TickAges(s, p, left);
    } else {
      OthersKeepDelay(s, op, p, left);
    }
    hide Inv, Sound, Delayed;
  }
}
