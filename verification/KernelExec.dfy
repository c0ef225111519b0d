/**
 The class `Kernel` carries out every step of every run: whatever the state
 machine of `KernelRuns` can do, the bitmaps, tables and lists can follow, and
 they stay in agreement with it.
 */
module KernelExec {
  import opened KernelSpec
  import opened KernelRuns
  import opened KernelTables
  import opened KernelCore

  /** The facts about a kernel in agreement with a state of a run that the calls below rest on. */
  lemma AtStep(k: Kernel)
    requires k.Valid() && Inv(k.abs)
    ensures k.running && |k.events| == |k.abs.bodies| == |k.abs.waits|
    ensures k.abs.idle == k.lowestPrio && k.lowestPrio in k.abs.tasks && k.abs.ready != {} && k.abs.cur in k.abs.tasks
    ensures forall p :: p in k.abs.tasks ==> p <= k.lowestPrio
  {
    CounterFacts(k.Variables(), k.abs, k.active, k.free);
    BitmapFacts(k.Variables(), k.abs, k.active, k.free);
    hide Agrees, Structure;
    assert Frame(k.abs);
    assert k.abs.idle in k.abs.ready;
  }

  /** A block that holds `body`, for the services whose own storing is not modelled. */
  function BlockWith(b: Ecb, body: Body): (b': Ecb)
    ensures b'.grp == b.grp && b'.tbl == b.tbl && BodyOfRequires(b') && BodyOf(b') == body
  {
    match body
    case Sem(cnt) => b.(typ := TypeSem, cnt := cnt)
    case Mbox(msg) => b.(typ := TypeMbox, ptr := msg)
    case Queue(entries) =>
      var q := QueueCb(entries + [NULL], 0, |entries|);
      assert QueueContents(q) == entries;
      b.(typ := TypeQ, q := q)
    case Other => b.(typ := TypeUnused)
  }

  // ---- one step ----

  method PendOnSeveral(k: Kernel, list: seq<nat>, timeout: nat)
    requires k.Valid() && Inv(k.abs) && Enabled(k.abs, OpPendMulti(list, timeout))
    modifies k
    ensures k.Valid() && k.abs == Apply(old(k.abs), OpPendMulti(list, timeout))
  {
    hide Inv, Sound, Agrees, Structure, PendMultiStart, StartReported;
    AtStep(k);
    var pEventsRdy := new Option<nat>[|list| + 1](_ => None);
    var pMsgsRdy := new Ptr[|list|](_ => NULL);
    var _, _, _ := k.EventPendMultiStart(list, pEventsRdy, pMsgsRdy, timeout);
  }
  lemma InsideMulti(s: Sys)
    requires Inv(s) && Enabled(s, OpFinishMulti)
    ensures InMultiPend(s)
    ensures var t := s.tasks[s.cur]; t.eventPtr.Some? ==> t.eventPtr.value in t.multi.value
  {
    assert TaskInv(s, s.cur);
  }

  /** The list a running multi-pend was called with, as its task's control block has it. */
  lemma ListOfCurrent(k: Kernel)
    requires k.Valid() && k.running
    ensures k.tcbCur.Some? && k.tcbCur.value < |k.tcbs| && k.abs.cur in k.abs.tasks
    ensures k.tcbs[k.tcbCur.value].multi == k.abs.tasks[k.abs.cur].multi
  {
    CounterFacts(k.Variables(), k.abs, k.active, k.free);
    hide Agrees, Structure;
  }

  method FinishPendOnSeveral(k: Kernel)
    requires k.Valid() && Inv(k.abs) && Enabled(k.abs, OpFinishMulti)
    modifies k
    ensures k.Valid() && k.abs == Apply(old(k.abs), OpFinishMulti)
  {
    hide Inv, Sound, Agrees, Structure, Enabled, PendMultiFinish, InMultiPend;
    AtStep(k);
    InsideMulti(k.abs);
    ListOfCurrent(k);
    var list := k.tcbs[k.tcbCur.value].multi.value;
    var pEventsRdy := new Option<nat>[|list| + 1](_ => None);
    var pMsgsRdy := new Ptr[|list| + 1](_ => NULL);
    var _, _ := k.EventPendMultiFinish(list, pEventsRdy, pMsgsRdy);
  }

  method PendOnOne(k: Kernel, e: nat, bit: bv8, timeout: nat)
    requires k.Valid() && Inv(k.abs) && Enabled(k.abs, OpPendOne(e, bit, timeout))
    modifies k
    ensures k.Valid() && k.abs == Apply(old(k.abs), OpPendOne(e, bit, timeout))
  {
    hide Inv, Sound, Agrees, Structure, BlockOne;
    AtStep(k);
    k.BlockOn(e, bit, timeout);
  }

  lemma InsideSingle(s: Sys, e: nat, bit: bv8)
    requires Inv(s) && Enabled(s, OpFinishOne(e, bit))
    ensures e < |s.bodies| && PendBit(bit)
  {
    assert TaskInv(s, s.cur);
  }

  method FinishPendOnOne(k: Kernel, e: nat, bit: bv8)
    requires k.Valid() && Inv(k.abs) && Enabled(k.abs, OpFinishOne(e, bit))
    modifies k
    ensures k.Valid() && k.abs == Apply(old(k.abs), OpFinishOne(e, bit))
  {
    AtStep(k);
    InsideSingle(k.abs, e, bit);
    hide Inv, Sound, Agrees, Structure, FinishOne;
    if bit == STAT_MBOX || bit == STAT_Q {
      var _, _ := k.MsgPendFinish(e);
    } else {
      var _ := k.SemPendFinish(e);
    }
  }

  method SetBody(k: Kernel, op: Op)
    requires k.Valid() && Inv(k.abs) && Enabled(k.abs, op)
    requires op.OpSetBody? || op.OpDelete? || op.OpCreateEvent?
    modifies k
    ensures k.Valid() && k.abs == Apply(old(k.abs), op)
  {
    hide Inv, Sound, Agrees, Structure;
    AtStep(k);
    var b := k.events[op.e];
    b := BlockWith(b, if op.OpDelete? then Other else op.body);
    k.StoreEvent(op.e, b);
  }

  method PerformService(k: Kernel, op: Op)
    requires k.Valid() && Inv(k.abs) && Enabled(k.abs, op)
    requires op.OpCreate? || op.OpDelay? || op.OpSuspend? || op.OpResume? || op.OpReady?
    modifies k
    ensures k.Valid() && k.abs == Apply(old(k.abs), op)
  {
    hide Inv, Sound, Agrees, Structure, TcbInit, Delay, Suspend, Resume, EventTaskRdy;
    AtStep(k);
    match op {
      case OpCreate(p) => var _ := k.TcbInit(p);
      case OpDelay(ticks) => k.TimeDly(ticks);
      case OpSuspend(p) => k.TaskSuspend(p);
      case OpResume(p) => k.TaskResume(p);
      case OpReady(e, msg, msk, pendStat) => var _ := k.EventTaskRdy(e, msg, msk, pendStat);
    }
  }

  method PerformInterrupt(k: Kernel, op: Op)
    requires k.Valid() && Inv(k.abs) && Enabled(k.abs, op)
    requires op.OpTick? || op.OpIntEnter? || op.OpIntExit?
    modifies k
    ensures k.Valid() && k.abs == Apply(old(k.abs), op)
  {
    hide Inv, Sound, Agrees, Structure, TimeTick, IntEnter, IntExit;
    AtStep(k);
    match op {
      case OpTick => k.TimeTick();
      case OpIntEnter => k.IntEnter();
      case OpIntExit => k.IntExit();
    }
  }

  method PerformScheduling(k: Kernel, op: Op)
    requires k.Valid() && Inv(k.abs) && Enabled(k.abs, op)
    requires op.OpLock? || op.OpUnlock? || op.OpSched?
    modifies k
    ensures k.Valid() && k.abs == Apply(old(k.abs), op)
  {
    hide Inv, Sound, Agrees, Structure, SchedLock, SchedUnlock, Sched;
    AtStep(k);
    match op {
      case OpLock => k.SchedLock();
      case OpUnlock => k.SchedUnlock();
      case OpSched => k.Sched();
    }
  }

  /** Any enabled operation, carried out on the kernel's variables. */
  method Perform(k: Kernel, op: Op)
    requires k.Valid() && Inv(k.abs) && Enabled(k.abs, op)
    modifies k
    ensures k.Valid() && k.abs == Apply(old(k.abs), op)
  {
    hide Inv, Sound, Agrees, Structure, Enabled, Apply;
    match op {
      case OpPendMulti(list, timeout) => PendOnSeveral(k, list, timeout);
      case OpFinishMulti => FinishPendOnSeveral(k);
      case OpPendOne(e, bit, timeout) => PendOnOne(k, e, bit, timeout);
      case OpFinishOne(e, bit) => FinishPendOnOne(k, e, bit);
      case OpCreate(_) | OpDelay(_) | OpSuspend(_) | OpResume(_) | OpReady(_, _, _, _) => PerformService(k, op);
      case OpSetBody(_, _) | OpDelete(_) | OpCreateEvent(_, _) => SetBody(k, op);
      case OpTick | OpIntEnter | OpIntExit => PerformInterrupt(k, op);
      case OpLock | OpUnlock | OpSched => PerformScheduling(k, op);
    }
  }

  // ---- runs ----

  lemma {:induction false} LegalPrefix(s: Sys, ops: seq<Op>, n: nat)
    requires Legal(s, ops) && n <= |ops|
    ensures Legal(s, ops[..n])
  {
    if n < |ops| {
      LegalPrefix(s, ops[..|ops| - 1], n);
      assert ops[..|ops| - 1][..n] == ops[..n];
    } else {
      assert ops[..n] == ops;
    }
  }

  /** Any legal run of the state machine, carried out on the kernel's variables, ends in the state the machine ends in. */
  method Run(k: Kernel, ops: seq<Op>)
    requires k.Valid() && Inv(k.abs) && Legal(k.abs, ops)
    modifies k
    ensures k.Valid() && k.abs == Exec(old(k.abs), ops) && Inv(k.abs)
  {
    hide Inv, Sound, Agrees, Structure, Enabled, Apply;
    ghost var s := k.abs;
    var n := 0;
    while n < |ops|
      invariant n <= |ops| && k.Valid() && Inv(k.abs)
      invariant Legal(s, ops[..n]) && k.abs == Exec(s, ops[..n])
    {
      LegalPrefix(s, ops, n + 1);
      assert ops[..n + 1][..n] == ops[..n];
      StepKeepsInv(k.abs, ops[n]);
      Perform(k, ops[n]);
      n := n + 1;
    }
    assert ops[..n] == ops;
  }
}
