/**
 The kernel as a state machine over sets of priorities.  Bitmaps, cached masks
 and linked lists are gone: a task is named by its priority, the ready list is
 a set, and each event carries the set of tasks waiting on it.
 */
module KernelSpec {
  import opened PrioritySets

  datatype Option<+T> = None | Some(value: T)

  /** A message pointer; 0 is NULL. */
  type Ptr = nat
  const NULL: Ptr := 0

  const STAT_RDY: bv8 := 0x00
  const STAT_SEM: bv8 := 0x01
  const STAT_MBOX: bv8 := 0x02
  const STAT_Q: bv8 := 0x04
  const STAT_SUSPEND: bv8 := 0x08
  const STAT_MUTEX: bv8 := 0x10
  const STAT_MULTI: bv8 := 0x80
  const STAT_PEND_ANY: bv8 := 0x37

  datatype PendStat = PendOk | PendTimeout | PendAbort

  datatype Err = ErrNone | ErrEventType | ErrPendIsr | ErrPendLocked | ErrTimeout | ErrPendAbort

  /** What the kernel remembers of one task. */
  datatype Task = Task(stat: bv8, statPend: PendStat, dly: nat,
                       eventPtr: Option<nat>, multi: Option<seq<nat>>, msg: Ptr)

  const FRESH_TASK := Task(STAT_RDY, PendOk, 0, None, None, NULL)

  /** The resource an event control block guards. */
  datatype Body =
    | Sem(cnt: nat)
    | Mbox(msg: Ptr)
    | Queue(entries: seq<Ptr>)
    | Other  // mutexes, event flag groups and unused blocks
  {
    predicate Pendable() { !Other? }

    predicate SameKind(b: Body) {
      (Sem? <==> b.Sem?) && (Mbox? <==> b.Mbox?) && (Queue? <==> b.Queue?)
    }
  }

  /** Where a task is between the two halves of a pend call. */
  datatype Call = InMulti | InSingle(e: nat, bit: bv8)

  datatype TickStep = StepDisabled | StepWait | StepOnce | StepInvalid

  datatype Sys = Sys(
    idle: nat,               // the lowest priority, owned by the idle task
    capacity: nat,           // number of task control blocks
    tasks: map<nat, Task>,   // by priority
    ready: set<nat>,
    waits: seq<set<nat>>,    // by event
    bodies: seq<Body>,       // by event
    cur: nat,                // the running task
    highRdy: nat,
    intNesting: nat,
    lockNesting: nat,
    running: bool,
    switches: nat,
    time: nat,
    tickStep: TickStep,
    calls: map<nat, Call>)   // history: the tasks that are inside a pend call

  ghost function Drop(waits: seq<set<nat>>, p: nat, events: set<nat>): seq<set<nat>> {
    seq(|waits|, e requires 0 <= e < |waits| => if e in events then waits[e] - {p} else waits[e])
  }

  ghost function Join(waits: seq<set<nat>>, p: nat, events: set<nat>): seq<set<nat>> {
    seq(|waits|, e requires 0 <= e < |waits| => if e in events then waits[e] + {p} else waits[e])
  }

  ghost function Elements(list: seq<nat>): set<nat> {
    set e | e in list
  }

  // ---- making a task ready, and making it wait ----

  ghost predicate HasWaiter(s: Sys, e: nat) {
    e < |s.waits| && s.waits[e] != {} && s.waits[e] <= s.tasks.Keys
  }

  /** The highest-priority waiter of `e` gets the message, leaves every wait list it is on, and runs unless suspended. */
  ghost function EventTaskRdy(s: Sys, e: nat, msg: Ptr, msk: bv8, pendStat: PendStat): Sys
    requires HasWaiter(s, e)
  {
    var p := Min(s.waits[e]);
    var t := s.tasks[p].(dly := 0, msg := msg, stat := s.tasks[p].stat & !msk, statPend := pendStat);
    var t' := if t.multi.Some? then t.(eventPtr := Some(e)) else t;
    s.(tasks := s.tasks[p := t'],
       ready := if t.stat & STAT_SUSPEND == 0 then s.ready + {p} else s.ready,
       waits := Drop(s.waits, p, {e} + if t.multi.Some? then Elements(t.multi.value) else {}))
  }

  ghost function EventTaskWait(s: Sys, e: nat): Sys
    requires s.cur in s.tasks
  {
    s.(tasks := s.tasks[s.cur := s.tasks[s.cur].(eventPtr := Some(e))],
       waits := Join(s.waits, s.cur, {e}),
       ready := s.ready - {s.cur})
  }

  ghost function EventTaskWaitMulti(s: Sys, list: seq<nat>): Sys
    requires s.cur in s.tasks
  {
    s.(tasks := s.tasks[s.cur := s.tasks[s.cur].(eventPtr := None, multi := Some(list))],
       waits := Join(s.waits, s.cur, Elements(list)),
       ready := s.ready - {s.cur})
  }

  // ---- pending on several events ----

  ghost predicate InRange(list: seq<nat>, n: nat) {
    forall k :: 0 <= k < |list| ==> list[k] < n
  }

  /** The messages an event can hand out now, oldest first; a semaphore hands out NULLs. */
  function Tokens(b: Body): seq<Ptr> {
    match b
    case Sem(cnt) => seq(cnt, _ => NULL)
    case Mbox(msg) => if msg == NULL then [] else [msg]
    case Queue(entries) => entries
    case Other => []
  }

  predicate Available(b: Body) {
    match b
    case Sem(cnt) => cnt > 0
    case Mbox(msg) => msg != NULL
    case Queue(entries) => entries != []
    case Other => false
  }

  function MessageOf(b: Body): Ptr
    requires Available(b)
  {
    match b
    case Sem(_) => NULL
    case Mbox(msg) => msg
    case Queue(entries) => entries[0]
  }

  function Consumed(b: Body): Body
    requires Available(b)
  {
    match b
    case Sem(cnt) => Sem(cnt - 1)
    case Mbox(_) => Mbox(NULL)
    case Queue(entries) => Queue(entries[1..])
  }

  function WaitBit(b: Body): bv8 {
    match b
    case Sem(_) => STAT_SEM
    case Mbox(_) => STAT_MBOX
    case Queue(_) => STAT_Q
    case Other => STAT_RDY
  }

  ghost predicate AllPendable(bodies: seq<Body>, list: seq<nat>) {
    forall k :: 0 <= k < |list| ==> list[k] < |bodies| && bodies[list[k]].Pendable()
  }

  /** What one pass over the listed events picks up. */
  datatype Haul = Haul(bodies: seq<Body>, events: seq<nat>, msgs: seq<Ptr>, bits: bv8)

  ghost function Collect(bodies: seq<Body>, list: seq<nat>): (h: Haul)
    requires AllPendable(bodies, list)
    ensures |h.bodies| == |bodies| && |h.msgs| == |h.events| <= |list|
    ensures forall e :: 0 <= e < |bodies| ==> h.bodies[e].SameKind(bodies[e])
  {
    if list == [] then Haul(bodies, [], [], STAT_RDY)
    else
      var h := Collect(bodies, list[..|list| - 1]);
      Visit(h, list[|list| - 1])
  }

  function Visit(h: Haul, e: nat): Haul
    requires e < |h.bodies| && h.bodies[e].Pendable()
  {
    var b := h.bodies[e];
    if Available(b) then
      Haul(h.bodies[e := Consumed(b)], h.events + [e], h.msgs + [MessageOf(b)], h.bits)
    else
      h.(bits := h.bits | WaitBit(b))
  }

  datatype PendOutcome = Refused(err: Err) | Taken(events: seq<nat>, msgs: seq<Ptr>) | Blocked

  /** Everything up to the context switch. */
  ghost function PendMultiStart(s: Sys, list: seq<nat>, timeout: nat): (Sys, PendOutcome)
    requires s.cur in s.tasks && InRange(list, |s.bodies|)
  {
    if !AllPendable(s.bodies, list) then (s, Refused(ErrEventType))
    else if s.intNesting > 0 then (s, Refused(ErrPendIsr))
    else if s.lockNesting > 0 then (s, Refused(ErrPendLocked))
    else
      var h := Collect(s.bodies, list);
      if h.events != [] then (s.(bodies := h.bodies), Taken(h.events, h.msgs))
      else
        var t := s.tasks[s.cur];
        var t' := t.(stat := t.stat | h.bits | STAT_MULTI, statPend := PendOk, dly := timeout);
        (EventTaskWaitMulti(s.(tasks := s.tasks[s.cur := t'], bodies := h.bodies, calls := s.calls[s.cur := InMulti]), list),
         Blocked)
  }

  datatype PendReport = PendReport(events: seq<nat>, msgs: seq<Ptr>, err: Err)

  ghost predicate InMultiPend(s: Sys) {
    && s.cur in s.tasks
    && s.tasks[s.cur].multi.Some?
    && (s.tasks[s.cur].eventPtr.Some? ==> s.tasks[s.cur].eventPtr.value < |s.bodies|)
  }

  /** Everything after the task has been switched back in. */
  ghost function PendMultiFinish(s: Sys): (Sys, PendReport)
    requires InMultiPend(s)
  {
    var t := s.tasks[s.cur];
    var cleared := t.(stat := STAT_RDY, statPend := PendOk, eventPtr := None, multi := None, msg := NULL);
    var s' := s.(calls := s.calls - {s.cur});
    if t.statPend != PendTimeout && t.eventPtr.Some? then
      var e := t.eventPtr.value;
      if t.statPend == PendAbort then
        (s'.(tasks := s.tasks[s.cur := cleared]), PendReport([e], [NULL], ErrPendAbort))
      else if s.bodies[e].Sem? then
        (s'.(tasks := s.tasks[s.cur := cleared]), PendReport([e], [NULL], ErrNone))
      else if s.bodies[e].Pendable() then
        (s'.(tasks := s.tasks[s.cur := cleared]), PendReport([e], [t.msg], ErrNone))
      else
        (s', PendReport([e], [], ErrEventType))
    else
      (s'.(tasks := s.tasks[s.cur := cleared], waits := Drop(s.waits, s.cur, Elements(t.multi.value))),
       PendReport([], [NULL], ErrTimeout))
  }

  // ---- the services of other files, as far as they touch the state ----

  /** A semaphore, mailbox, queue or mutex pend that has to wait. */
  ghost function BlockOne(s: Sys, e: nat, bit: bv8, timeout: nat): Sys
    requires s.cur in s.tasks
  {
    var t := s.tasks[s.cur];
    EventTaskWait(s.(tasks := s.tasks[s.cur := t.(stat := t.stat | bit, statPend := PendOk, dly := timeout)],
                     calls := s.calls[s.cur := InSingle(e, bit)]), e)
  }

  ghost predicate InSinglePend(s: Sys) {
    s.cur in s.tasks && s.cur in s.calls && s.calls[s.cur].InSingle?
  }

  /**
   Its second half: after a timeout the task is still on the wait list and
   leaves it.  Only the calls for mailboxes and queues clear the message.
   */
  ghost function FinishOne(s: Sys): Sys
    requires InSinglePend(s)
  {
    var t := s.tasks[s.cur];
    var call := s.calls[s.cur];
    var t' := t.(stat := STAT_RDY, statPend := PendOk, eventPtr := None, multi := None,
                 msg := if call.bit == STAT_MBOX || call.bit == STAT_Q then NULL else t.msg);
    s.(tasks := s.tasks[s.cur := t'], calls := s.calls - {s.cur},
       waits := if t.statPend == PendTimeout then Drop(s.waits, s.cur, {call.e}) else s.waits)
  }

  datatype SemOutcome = SemRefused(err: Err) | SemTaken | SemBlocked

  /** A semaphore pend up to the context switch. */
  ghost function SemPendStart(s: Sys, e: nat, timeout: nat): (Sys, SemOutcome)
    requires s.cur in s.tasks && e < |s.bodies|
  {
    if !s.bodies[e].Sem? then (s, SemRefused(ErrEventType))
    else if s.intNesting > 0 then (s, SemRefused(ErrPendIsr))
    else if s.lockNesting > 0 then (s, SemRefused(ErrPendLocked))
    else if s.bodies[e].cnt > 0 then (s.(bodies := s.bodies[e := Consumed(s.bodies[e])]), SemTaken)
    else (BlockOne(s, e, STAT_SEM, timeout), SemBlocked)
  }

  /** The error code and the message of a single pend's second half. */
  function OneReport(t: Task, bit: bv8): (Err, Ptr) {
    match t.statPend
    case PendOk => (ErrNone, if bit == STAT_MBOX || bit == STAT_Q then t.msg else NULL)
    case PendAbort => (ErrPendAbort, NULL)
    case PendTimeout => (ErrTimeout, NULL)
  }

  ghost function Delay(s: Sys, ticks: nat): Sys
    requires s.cur in s.tasks
  {
    if ticks == 0 then s
    else s.(tasks := s.tasks[s.cur := s.tasks[s.cur].(dly := ticks)], ready := s.ready - {s.cur})
  }

  // ---- the clock tick ----

  function TickTask(t: Task): Task {
    if t.dly == 0 then t
    else if t.dly > 1 then t.(dly := t.dly - 1)
    else if t.stat & STAT_PEND_ANY != STAT_RDY then
      t.(dly := 0, stat := t.stat & !STAT_PEND_ANY, statPend := PendTimeout)
    else
      t.(dly := 0, statPend := PendOk)
  }

  predicate Expires(t: Task) {
    t.dly == 1 && t.stat & STAT_SUSPEND == STAT_RDY
  }

  predicate StepAllows(s: Sys) {
    s.running && s.tickStep != StepWait
  }

  /** A processed tick: every task but idle is aged, and the unsuspended ones whose delay was 1 become ready. */
  ghost function AgeAll(s: Sys): Sys {
    s.(tasks := map p | p in s.tasks :: if p == s.idle then s.tasks[p] else TickTask(s.tasks[p]),
       ready := s.ready + set p | p in s.tasks && p != s.idle && Expires(s.tasks[p]))
  }

  ghost function TimeTick(s: Sys): Sys {
    var s1 := s.(time := (s.time + 1) % 0x1_0000_0000);
    if !s.running then s1
    else
      var s2 := s1.(tickStep := match s.tickStep
                                case StepOnce => StepWait
                                case StepInvalid => StepDisabled
                                case other => other);
      if s.tickStep == StepWait then s2 else AgeAll(s2)
  }

  // ---- scheduling ----

  ghost function Reschedule(s: Sys): Sys
    requires s.ready != {}
  {
    var high := Min(s.ready);
    if high != s.cur
    then s.(highRdy := high, cur := high, switches := (s.switches + 1) % 0x1_0000_0000)
    else s.(highRdy := high)
  }

  ghost function Sched(s: Sys): Sys
    requires s.ready != {}
  {
    if s.intNesting == 0 && s.lockNesting == 0 then Reschedule(s) else s
  }

  function IntEnter(s: Sys): Sys {
    if s.running && s.intNesting < 255 then s.(intNesting := s.intNesting + 1) else s
  }

  ghost function IntExit(s: Sys): Sys
    requires s.ready != {}
  {
    if !s.running then s
    else Sched(if s.intNesting > 0 then s.(intNesting := s.intNesting - 1) else s)
  }

  function SchedLock(s: Sys): Sys {
    if s.running && s.intNesting == 0 && s.lockNesting < 255 then s.(lockNesting := s.lockNesting + 1) else s
  }

  ghost function SchedUnlock(s: Sys): Sys
    requires s.ready != {}
  {
    if s.running && s.lockNesting > 0 then Sched(s.(lockNesting := s.lockNesting - 1)) else s
  }

  ghost function Start(s: Sys): Sys
    requires s.ready != {}
  {
    if s.running then s
    else s.(highRdy := Min(s.ready), cur := Min(s.ready), running := true)
  }

  // ---- tasks ----

  /** Fails, changing nothing, exactly when every task control block is in use. */
  ghost function TcbInit(s: Sys, p: nat): Sys {
    if |s.tasks| >= s.capacity then s
    else s.(tasks := s.tasks[p := FRESH_TASK], ready := s.ready + {p})
  }

  ghost function Suspend(s: Sys, p: nat): Sys
    requires p in s.tasks
  {
    s.(tasks := s.tasks[p := s.tasks[p].(stat := s.tasks[p].stat | STAT_SUSPEND)], ready := s.ready - {p})
  }

  ghost function Resume(s: Sys, p: nat): Sys
    requires p in s.tasks
  {
    var t := s.tasks[p];
    if t.stat & STAT_SUSPEND == 0 then s
    else
      var t' := t.(stat := t.stat & !STAT_SUSPEND);
      s.(tasks := s.tasks[p := t'],
         ready := if t'.stat == STAT_RDY && t'.dly == 0 then s.ready + {p} else s.ready)
  }
}
