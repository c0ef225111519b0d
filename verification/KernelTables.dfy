/**
 The kernel's data structures as they are laid out in memory: tables of task
 and event control blocks, with pointers into a table represented by indices,
 and what it means for them to agree with the abstract state.
 */
module KernelTables {
  import opened PrioritySets
  import opened ResolutionTable
  import opened KernelSpec
  import opened Lists
  import Bitmaps = ByteBitmaps
  import Ring = CircularBuffer

  datatype Tcb = Tcb(
    next: Option<nat>, prev: Option<nat>,
    eventPtr: Option<nat>, multi: Option<seq<nat>>, msg: Ptr,
    dly: nat, stat: bv8, statPend: PendStat, prio: nat,
    x: nat, y: nat, bitX: bv8, bitY: bv8,
    ctxSwCtr: nat)

  datatype PrioEntry = NoTcb | Reserved | TcbAt(tcb: nat)

  /** A message queue control block: a ring of `|ring|` slots. */
  datatype QueueCb = QueueCb(ring: seq<Ptr>, out: nat, entries: nat)

  datatype EventType = TypeUnused | TypeMbox | TypeQ | TypeSem | TypeMutex | TypeFlag

  datatype Ecb = Ecb(typ: EventType, ptr: Ptr, q: QueueCb, cnt: nat, grp: bv8, tbl: seq<bv8>)

  // ---- event control blocks ----

  predicate QueueOk(q: QueueCb) {
    q.out < |q.ring| && q.entries <= |q.ring|
  }

  /** The queued messages, oldest first. */
  function QueueContents(q: QueueCb): seq<Ptr>
    requires QueueOk(q)
  {
    seq(q.entries, i requires 0 <= i < q.entries => q.ring[Ring.Slot(|q.ring|, q.out, i)])
  }

  function BodyOf(b: Ecb): Body
    requires BodyOfRequires(b)
  {
    match b.typ
    case TypeSem => Sem(b.cnt)
    case TypeMbox => Mbox(b.ptr)
    case TypeQ => Queue(QueueContents(b.q))
    case _ => Other
  }

  function PopQueue(q: QueueCb): QueueCb
    requires q.entries > 0
  {
    q.(out := if q.out + 1 == |q.ring| then 0 else q.out + 1, entries := q.entries - 1)
  }

  /** Advancing OUT with wrap-around drops exactly the oldest message. */
  lemma PopDropsOldest(q: QueueCb)
    requires QueueOk(q) && q.entries > 0
    ensures QueueOk(PopQueue(q))
    ensures QueueContents(q)[0] == q.ring[q.out]
    ensures QueueContents(PopQueue(q)) == QueueContents(q)[1..]
  {
    var r := PopQueue(q);
    forall i | 0 <= i < r.entries
      ensures QueueContents(r)[i] == QueueContents(q)[1..][i]
    {
      assert Ring.Slot(|q.ring|, r.out, i) == Ring.Slot(|q.ring|, q.out, i + 1);
    }
  }

  ghost predicate EcbOk(b: Ecb, rows: nat, waiters: set<nat>, body: Body) {
    && |b.tbl| == rows
    && Bitmaps.Represents(b.grp, b.tbl, waiters)
    && (b.typ.TypeQ? ==> QueueOk(b.q))
    && BodyOf(b) == body
  }

  ghost predicate EventsOk(events: seq<Ecb>, rows: nat, waits: seq<set<nat>>, bodies: seq<Body>) {
    && |events| == |waits| == |bodies|
    && forall e :: 0 <= e < |events| ==> EcbOk(events[e], rows, waits[e], bodies[e])
  }

  // ---- task control blocks ----

  ghost predicate TcbOk(c: Tcb, p: nat, t: Task)
    requires p < 64
  {
    && c.prio == p && c.y == p / 8 && c.x == p % 8 && c.bitY == Mask(p / 8) && c.bitX == Mask(p % 8)
    && t == Task(c.stat, c.statPend, c.dly, c.eventPtr, c.multi, c.msg)
  }

  ghost predicate TasksOk(tcbs: seq<Tcb>, prioTbl: seq<PrioEntry>, active: seq<nat>, tasks: map<nat, Task>) {
    && |prioTbl| <= 64
    && (forall p :: p in tasks ==> HasTcb(tcbs, prioTbl, active, tasks, p))
    && (forall i :: i in active ==> HasTask(tcbs, prioTbl, tasks, i))
    && (forall p :: 0 <= p < |prioTbl| && prioTbl[p].TcbAt? ==> p in tasks)
  }

  /** Block `i` belongs to the task whose table entry leads back to it. */
  ghost predicate HasTask(tcbs: seq<Tcb>, prioTbl: seq<PrioEntry>, tasks: map<nat, Task>, i: nat) {
    && i < |tcbs| && tcbs[i].prio in tasks
    && tcbs[i].prio < |prioTbl| && prioTbl[tcbs[i].prio] == TcbAt(i)
  }

  /** The table entry of task `p` leads to an active block that holds its record. */
  ghost predicate HasTcb(tcbs: seq<Tcb>, prioTbl: seq<PrioEntry>, active: seq<nat>, tasks: map<nat, Task>, p: nat)
    requires |prioTbl| <= 64 && p in tasks
  {
    && p < |prioTbl| && prioTbl[p].TcbAt? && prioTbl[p].tcb < |tcbs|
    && prioTbl[p].tcb in active && TcbOk(tcbs[prioTbl[p].tcb], p, tasks[p])
  }

  /** What follows, and what precedes, position `k` of a NULL-terminated list. */
  function NextIn(list: seq<nat>, k: nat): Option<nat> {
    if k + 1 < |list| then Some(list[k + 1]) else None
  }

  function PrevIn(list: seq<nat>, k: nat): Option<nat>
    requires k < |list|
  {
    if k == 0 then None else Some(list[k - 1])
  }

  /** `list` is the NULL-terminated chain starting at `head`. */
  ghost predicate Chain(tcbs: seq<Tcb>, head: Option<nat>, list: seq<nat>) {
    && head == (if list == [] then None else Some(list[0]))
    && (forall k :: 0 <= k < |list| ==>
          && list[k] < |tcbs|
          && tcbs[list[k]].next == NextIn(list, k))
  }

  /** Backward links mirror forward links. */
  ghost predicate BackLinks(tcbs: seq<Tcb>, list: seq<nat>) {
    forall k :: 0 <= k < |list| ==>
      && list[k] < |tcbs|
      && tcbs[list[k]].prev == PrevIn(list, k)
  }

  /** The two chains share out the whole table, each block on exactly one of them, exactly once. */
  ghost predicate ListsOk(tcbs: seq<Tcb>, tcbList: Option<nat>, tcbFreeList: Option<nat>, active: seq<nat>, free: seq<nat>) {
    && Chain(tcbs, tcbList, active) && BackLinks(tcbs, active) && NoRepeats(active)
    && Chain(tcbs, tcbFreeList, free) && NoRepeats(free)
    && (forall i :: 0 <= i < |tcbs| ==> (i in active <==> i !in free))
    && |active| + |free| == |tcbs|
  }

  /** The idle task, created first, stays at the end of the active list. */
  ghost predicate IdleLast(tcbs: seq<Tcb>, active: seq<nat>, idle: nat) {
    active != [] ==> active[|active| - 1] < |tcbs| && tcbs[active[|active| - 1]].prio == idle
  }

  /** All of the kernel's variables. */
  datatype Image = Image(
    lowestPrio: nat,
    rdyGrp: bv8, rdyTbl: seq<bv8>,
    prioTbl: seq<PrioEntry>, tcbs: seq<Tcb>, tcbList: Option<nat>, tcbFreeList: Option<nat>, taskCtr: nat,
    events: seq<Ecb>,
    tcbCur: Option<nat>, prioCur: nat, prioHighRdy: nat,
    intNesting: nat, lockNesting: nat, running: bool, ctxSwCtr: nat,
    time: nat, tickStep: TickStep)

  ghost predicate CountersOk(m: Image, a: Sys) {
    && a.cur == m.prioCur && a.highRdy == m.prioHighRdy
    && a.intNesting == m.intNesting <= 255 && a.lockNesting == m.lockNesting <= 255
    && a.running == m.running && a.switches == m.ctxSwCtr
    && a.time == m.time && a.tickStep == m.tickStep
  }

  /** While multitasking, idle exists and the current-task pointer and priority name the same task. */
  ghost predicate CurrentOk(m: Image, a: Sys) {
    m.running ==>
      && m.lowestPrio in a.tasks && a.cur in a.tasks && a.cur < |m.prioTbl|
      && m.tcbCur.Some? && m.prioTbl[a.cur] == TcbAt(m.tcbCur.value)
  }

  ghost predicate PointersOk(tasks: map<nat, Task>, n: nat) {
    forall p :: p in tasks ==>
      && (tasks[p].multi.Some? ==> InRange(tasks[p].multi.value, n))
      && (tasks[p].eventPtr.Some? ==> tasks[p].eventPtr.value < n)
  }

  /** The variables represent abstract state `a`, with `active` and `free` the contents of the two TCB lists. */
  ghost predicate Structure(m: Image, a: Sys, active: seq<nat>, free: seq<nat>) {
    && m.lowestPrio <= 63 && a.idle == m.lowestPrio
    && |m.prioTbl| == m.lowestPrio + 1 && |m.rdyTbl| == m.lowestPrio / 8 + 1
    && Bitmaps.Represents(m.rdyGrp, m.rdyTbl, a.ready)
    && EventsOk(m.events, |m.rdyTbl|, a.waits, a.bodies)
    && TasksOk(m.tcbs, m.prioTbl, active, a.tasks)
    && ListsOk(m.tcbs, m.tcbList, m.tcbFreeList, active, free)
    && IdleLast(m.tcbs, active, m.lowestPrio)
    && a.capacity == |m.tcbs| && |a.tasks| == |active| == m.taskCtr
    && a.ready <= a.tasks.Keys
    && (forall e :: 0 <= e < |a.waits| ==> a.waits[e] <= a.tasks.Keys)
    && PointersOk(a.tasks, |m.events|)
    && CountersOk(m, a) && CurrentOk(m, a)
  }

  /** `Structure`, stated as an equation so that proofs about one update carry it around as a single fact. */
  ghost predicate Agrees(m: Image, a: Sys, active: seq<nat>, free: seq<nat>) {
    true == Structure(m, a, active, free)
  }

  // ---- what agreement says about one task, one event, and the ready list ----

  ghost function PrioOf(tcbs: seq<Tcb>, i: nat): nat {
    if i < |tcbs| then tcbs[i].prio else 0
  }

  ghost predicate TcbFacts(m: Image, a: Sys, active: seq<nat>, i: nat, p: nat) {
    && i in active && i < |m.tcbs| && p < |m.prioTbl| <= 64 && m.prioTbl[p] == TcbAt(i)
    && p in a.tasks && p / 8 < |m.rdyTbl| <= 8
    && TcbOk(m.tcbs[i], p, a.tasks[p])
  }

  lemma ActiveTcb(m: Image, a: Sys, active: seq<nat>, free: seq<nat>, i: nat)
    requires Agrees(m, a, active, free) && i in active
    ensures TcbFacts(m, a, active, i, PrioOf(m.tcbs, i))
  {
  }

  lemma TaskTcb(m: Image, a: Sys, active: seq<nat>, free: seq<nat>, p: nat)
    requires Agrees(m, a, active, free) && p in a.tasks
    ensures p < |m.prioTbl| && m.prioTbl[p].TcbAt?
    ensures TcbFacts(m, a, active, m.prioTbl[p].tcb, p) && PrioOf(m.tcbs, m.prioTbl[p].tcb) == p
  {
  }

  /** The most urgent waiter of an event, by two table lookups. */
  lemma HighestWaiter(m: Image, a: Sys, active: seq<nat>, free: seq<nat>, e: nat)
    requires Agrees(m, a, active, free) && e < |m.events|
    ensures |m.events| == |a.waits| == |a.bodies|
    ensures m.events[e].grp != 0 <==> a.waits[e] != {}
    ensures a.waits[e] != {} ==>
      var y := UnMap(m.events[e].grp);
      && y < |m.events[e].tbl| == |m.rdyTbl|
      && 8 * y + UnMap(m.events[e].tbl[y]) == Min(a.waits[e])
      && y == Min(a.waits[e]) / 8
      && HasWaiter(a, e) && Min(a.waits[e]) in a.tasks
  {
    hide TasksOk, ListsOk, IdleLast, Bitmaps.Represents;
    var b := m.events[e];
    assert EcbOk(b, |m.rdyTbl|, a.waits[e], a.bodies[e]);
    Bitmaps.GroupDecidesEmptiness(b.grp, b.tbl, a.waits[e]);
    if a.waits[e] != {} {
      Bitmaps.Lookup(b.grp, b.tbl, a.waits[e]);
    }
  }

  /** The most urgent ready task, by two table lookups. */
  lemma HighestReady(m: Image, a: Sys, active: seq<nat>, free: seq<nat>)
    requires Agrees(m, a, active, free) && a.ready != {}
    ensures UnMap(m.rdyGrp) < |m.rdyTbl|
    ensures 8 * UnMap(m.rdyGrp) + UnMap(m.rdyTbl[UnMap(m.rdyGrp)]) == Min(a.ready)
    ensures Min(a.ready) in a.tasks
  {
    Bitmaps.Lookup(m.rdyGrp, m.rdyTbl, a.ready);
  }

  // ---- updates that keep agreement ----

  /** Replacing the bitmap of one wait list. */
  lemma SetWaiters(m: Image, a: Sys, active: seq<nat>, free: seq<nat>, e: nat, grp: bv8, tbl: seq<bv8>, waiters: set<nat>)
    requires Agrees(m, a, active, free) && e < |m.events|
    requires Bitmaps.Represents(grp, tbl, waiters) && |tbl| == |m.rdyTbl| && waiters <= a.tasks.Keys
    ensures |a.waits| == |m.events|
    ensures Agrees(m.(events := m.events[e := m.events[e].(grp := grp, tbl := tbl)]),
                   a.(waits := a.waits[e := waiters]), active, free)
  {
    hide TasksOk, ListsOk, IdleLast, Bitmaps.Represents;
    assert EventsOk(m.events[e := m.events[e].(grp := grp, tbl := tbl)], |m.rdyTbl|, a.waits[e := waiters], a.bodies);
    hide EventsOk;
  }

  /** Replacing the ready list's bitmap. */
  lemma SetReady(m: Image, a: Sys, active: seq<nat>, free: seq<nat>, grp: bv8, tbl: seq<bv8>, ready: set<nat>)
    requires Agrees(m, a, active, free)
    requires Bitmaps.Represents(grp, tbl, ready) && |tbl| == |m.rdyTbl| && ready <= a.tasks.Keys
    ensures Agrees(m.(rdyGrp := grp, rdyTbl := tbl), a.(ready := ready), active, free)
  {
    hide EventsOk, TasksOk, ListsOk, IdleLast, Bitmaps.Represents;
  }

  lemma BitmapFacts(m: Image, a: Sys, active: seq<nat>, free: seq<nat>)
    requires Agrees(m, a, active, free)
    ensures Bitmaps.Represents(m.rdyGrp, m.rdyTbl, a.ready) && a.ready <= a.tasks.Keys
    ensures |m.events| == |a.waits| == |a.bodies|
    ensures forall e :: 0 <= e < |m.events| ==>
      && Bitmaps.Represents(m.events[e].grp, m.events[e].tbl, a.waits[e])
      && |m.events[e].tbl| == |m.rdyTbl| && a.waits[e] <= a.tasks.Keys
      && (m.events[e].typ.TypeQ? ==> QueueOk(m.events[e].q))
      && BodyOf(m.events[e]) == a.bodies[e]
  {
    hide Bitmaps.Represents;
  }

  ghost predicate SameIdentity(c: Tcb, c': Tcb) {
    && c.next == c'.next && c.prev == c'.prev && c.prio == c'.prio
    && c.x == c'.x && c.y == c'.y && c.bitX == c'.bitX && c.bitY == c'.bitY
  }

  function TaskOf(c: Tcb): Task {
    Task(c.stat, c.statPend, c.dly, c.eventPtr, c.multi, c.msg)
  }

  lemma UpdateTcb(m: Image, a: Sys, active: seq<nat>, free: seq<nat>, i: nat, c: Tcb)
    requires Agrees(m, a, active, free) && i in active
    requires i < |m.tcbs| && SameIdentity(c, m.tcbs[i])
    requires c.multi.Some? ==> InRange(c.multi.value, |m.events|)
    requires c.eventPtr.Some? ==> c.eventPtr.value < |m.events|
    ensures Agrees(m.(tcbs := m.tcbs[i := c]), a.(tasks := a.tasks[PrioOf(m.tcbs, i) := TaskOf(c)]), active, free)
  {
    hide TasksOk, ListsOk, IdleLast, EventsOk, Bitmaps.Represents;
    var p := m.tcbs[i].prio;
    UpdateTasks(m.tcbs, m.prioTbl, active, a.tasks, i, c);
    UpdateLists(m.tcbs, m.tcbList, m.tcbFreeList, active, free, m.lowestPrio, i, c);
    assert a.tasks[p := TaskOf(c)].Keys == a.tasks.Keys;
  }

  lemma UpdateTasks(tcbs: seq<Tcb>, prioTbl: seq<PrioEntry>, active: seq<nat>, tasks: map<nat, Task>, i: nat, c: Tcb)
    requires TasksOk(tcbs, prioTbl, active, tasks) && i in active
    requires i < |tcbs| && SameIdentity(c, tcbs[i])
    ensures tcbs[i].prio in tasks
    ensures TasksOk(tcbs[i := c], prioTbl, active, tasks[tcbs[i].prio := TaskOf(c)])
  {
  }

  lemma UpdateChain(tcbs: seq<Tcb>, head: Option<nat>, list: seq<nat>, i: nat, c: Tcb)
    requires Chain(tcbs, head, list) && i < |tcbs| && SameIdentity(c, tcbs[i])
    ensures Chain(tcbs[i := c], head, list)
    ensures BackLinks(tcbs, list) ==> BackLinks(tcbs[i := c], list)
  {
  }

  lemma UpdateLists(tcbs: seq<Tcb>, tcbList: Option<nat>, tcbFreeList: Option<nat>, active: seq<nat>, free: seq<nat>,
                    idle: nat, i: nat, c: Tcb)
    requires ListsOk(tcbs, tcbList, tcbFreeList, active, free) && IdleLast(tcbs, active, idle)
    requires i < |tcbs| && SameIdentity(c, tcbs[i])
    ensures ListsOk(tcbs[i := c], tcbList, tcbFreeList, active, free) && IdleLast(tcbs[i := c], active, idle)
  {
    UpdateChain(tcbs, tcbList, active, i, c);
    UpdateChain(tcbs, tcbFreeList, free, i, c);
    hide Chain, BackLinks, NoRepeats;
  }

  lemma UpdateBody(m: Image, a: Sys, active: seq<nat>, free: seq<nat>, e: nat, b: Ecb)
    requires Agrees(m, a, active, free) && e < |m.events|
    requires b.grp == m.events[e].grp && b.tbl == m.events[e].tbl && (b.typ.TypeQ? ==> QueueOk(b.q))
    ensures Agrees(m.(events := m.events[e := b]), a.(bodies := a.bodies[e := BodyOf(b)]), active, free)
  {
  }

  /** Nothing in memory records which tasks are inside a pend call. */
  lemma CallsAreHistory(m: Image, a: Sys, active: seq<nat>, free: seq<nat>, calls: map<nat, Call>)
    requires Agrees(m, a, active, free)
    ensures Agrees(m, a.(calls := calls), active, free)
  {
    hide EventsOk, TasksOk, ListsOk, IdleLast, Bitmaps.Represents;
  }

  /** What the second half of a multi-pend does, from the event, message and error code it has found. */
  lemma FinishFromFindings(a: Sys, pevent: Option<nat>, err: Err, msg: Ptr)
    requires InMultiPend(a)
    requires var t := a.tasks[a.cur];
             if t.statPend != PendTimeout && t.eventPtr.Some? then
               && pevent == t.eventPtr
               && var b := a.bodies[pevent.value];
                  if t.statPend == PendAbort then err == ErrPendAbort && msg == NULL
                  else if b.Pendable() then err == ErrNone && msg == if b.Sem? then NULL else t.msg
                  else err == ErrEventType
             else pevent == None && err == ErrTimeout && msg == NULL
    ensures var t := a.tasks[a.cur];
            var a' := a.(waits := if pevent.None? then Drop(a.waits, a.cur, Elements(t.multi.value)) else a.waits,
                         calls := a.calls - {a.cur});
            && PendMultiFinish(a).0 ==
                 (if err == ErrEventType then a'
                  else a'.(tasks := a.tasks[a.cur :=
                             t.(stat := STAT_RDY, statPend := PendOk, eventPtr := None, multi := None, msg := NULL)]))
            && PendMultiFinish(a).1 ==
                 PendReport(if pevent.Some? then [pevent.value] else [], if err == ErrEventType then [] else [msg], err)
  {
    hide Drop;
  }

  // ---- taking what an event has to offer ----

  /** One step of the availability scan: the event's count, mailbox or queue gives up one message if it has any. */
  method TakeFrom(b: Ecb) returns (available: bool, b': Ecb, msg: Ptr)
    requires BodyOfRequires(b) && BodyOf(b).Pendable()
    ensures available == Available(BodyOf(b))
    ensures b'.grp == b.grp && b'.tbl == b.tbl && BodyOfRequires(b')
    ensures if available then BodyOf(b') == Consumed(BodyOf(b)) && msg == MessageOf(BodyOf(b)) else b' == b
  {
    available, b', msg := false, b, NULL;
    match b.typ {
      case TypeSem =>
        if b.cnt > 0 {
          available, b' := true, b.(cnt := b.cnt - 1);
        }
      case TypeMbox =>
        if b.ptr != NULL {
          available, msg, b' := true, b.ptr, b.(ptr := NULL);
        }
      case TypeQ =>
        if b.q.entries > 0 {
          PopDropsOldest(b.q);
          available, msg := true, b.q.ring[b.q.out];
          b' := b.(q := b.q.(out := b.q.out + 1));
          if b'.q.out == |b'.q.ring| {
            b' := b'.(q := b'.q.(out := 0));
          }
          b' := b'.(q := b'.q.(entries := b'.q.entries - 1));
          assert b'.q == PopQueue(b.q);
        }
      case _ =>
    }
  }

  predicate BodyOfRequires(b: Ecb) {
    b.typ.TypeQ? ==> QueueOk(b.q)
  }

  lemma UpdateCounters(m: Image, a: Sys, active: seq<nat>, free: seq<nat>, int': nat, lock': nat, time': nat, step': TickStep)
    requires Agrees(m, a, active, free) && int' <= 255 && lock' <= 255
    ensures m.intNesting == a.intNesting <= 255 && m.lockNesting == a.lockNesting <= 255
    ensures Agrees(m.(intNesting := int', lockNesting := lock', time := time', tickStep := step'),
                   a.(intNesting := int', lockNesting := lock', time := time', tickStep := step'), active, free)
  {
    hide EventsOk, TasksOk, ListsOk, IdleLast, Bitmaps.Represents;
  }

  /** The context switch: the current task becomes the task of priority `p`. */
  lemma SetCurrent(m: Image, a: Sys, active: seq<nat>, free: seq<nat>, p: nat, switches': nat, running': bool)
    requires Agrees(m, a, active, free) && p in a.tasks && (running' ==> m.lowestPrio in a.tasks)
    ensures p < |m.prioTbl| && m.prioTbl[p].TcbAt?
    ensures Agrees(m.(prioCur := p, tcbCur := Some(m.prioTbl[p].tcb), ctxSwCtr := switches', running := running'),
                   a.(cur := p, switches := switches', running := running'), active, free)
  {
    hide EventsOk, ListsOk, IdleLast, Bitmaps.Represents;
  }

  lemma SetHighRdy(m: Image, a: Sys, active: seq<nat>, free: seq<nat>, p: nat)
    requires Agrees(m, a, active, free)
    ensures Agrees(m.(prioHighRdy := p), a.(highRdy := p), active, free)
  {
    hide EventsOk, TasksOk, ListsOk, IdleLast, Bitmaps.Represents;
  }

  lemma CounterFacts(m: Image, a: Sys, active: seq<nat>, free: seq<nat>)
    requires Agrees(m, a, active, free)
    ensures CountersOk(m, a) && a.idle == m.lowestPrio
    ensures m.running ==>
      && m.tcbCur.Some? && m.lowestPrio in a.tasks
      && TcbFacts(m, a, active, m.tcbCur.value, a.cur) && PrioOf(m.tcbs, m.tcbCur.value) == a.cur
  {
    hide EventsOk, ListsOk, IdleLast, Bitmaps.Represents;
  }

  // ---- walking the active list ----

  /** The priorities of the first `k` blocks of the active list. */
  ghost function PriosOf(tcbs: seq<Tcb>, active: seq<nat>, k: nat): set<nat>
    requires k <= |active|
  {
    set j | 0 <= j < k :: PrioOf(tcbs, active[j])
  }

  lemma PriosDiffer(tcbs: seq<Tcb>, prioTbl: seq<PrioEntry>, active: seq<nat>, tasks: map<nat, Task>, j: nat, k: nat)
    requires TasksOk(tcbs, prioTbl, active, tasks) && NoRepeats(active) && j < k < |active|
    ensures PrioOf(tcbs, active[j]) != PrioOf(tcbs, active[k])
  {
    assert active[j] in active && active[k] in active;
  }

  lemma IdleIsLast(tcbs: seq<Tcb>, prioTbl: seq<PrioEntry>, active: seq<nat>, tasks: map<nat, Task>, idle: nat, k: nat)
    requires TasksOk(tcbs, prioTbl, active, tasks) && NoRepeats(active) && IdleLast(tcbs, active, idle) && k < |active|
    ensures active[k] < |tcbs| && PrioOf(tcbs, active[k]) in tasks
    ensures PrioOf(tcbs, active[k]) == idle <==> k == |active| - 1
  {
    assert active[k] in active;
    if k < |active| - 1 {
      PriosDiffer(tcbs, prioTbl, active, tasks, k, |active| - 1);
    }
  }

  /** Idle is at the end of the active list. */
  lemma IdlePosition(m: Image, a: Sys, active: seq<nat>, free: seq<nat>, k: nat)
    requires Agrees(m, a, active, free) && k < |active|
    ensures active[k] < |m.tcbs| && PrioOf(m.tcbs, active[k]) in a.tasks
    ensures PrioOf(m.tcbs, active[k]) == m.lowestPrio <==> k == |active| - 1
  {
    hide EventsOk, Bitmaps.Represents, TasksOk, IdleLast, NoRepeats;
    IdleIsLast(m.tcbs, m.prioTbl, active, a.tasks, m.lowestPrio, k);
  }

  lemma WalkStart(m: Image, a: Sys, active: seq<nat>, free: seq<nat>)
    requires Agrees(m, a, active, free) && m.lowestPrio in a.tasks
    ensures active != [] && m.tcbList == Some(active[0])
  {
    hide EventsOk, Bitmaps.Represents;
    assert m.prioTbl[m.lowestPrio].tcb in active;
  }

  lemma WalkNext(m: Image, a: Sys, active: seq<nat>, free: seq<nat>, k: nat)
    requires Agrees(m, a, active, free) && k + 1 < |active|
    ensures active[k] < |m.tcbs| && m.tcbs[active[k]].next == Some(active[k + 1])
  {
    hide EventsOk, TasksOk, Bitmaps.Represents;
  }

  lemma PriosOfNext(tcbs: seq<Tcb>, active: seq<nat>, k: nat)
    requires k < |active|
    ensures PriosOf(tcbs, active, k + 1) == PriosOf(tcbs, active, k) + {PrioOf(tcbs, active[k])}
  {
  }

  /** No task is visited twice. */
  lemma NotYetVisited(m: Image, a: Sys, active: seq<nat>, free: seq<nat>, k: nat)
    requires Agrees(m, a, active, free) && k < |active|
    ensures PrioOf(m.tcbs, active[k]) !in PriosOf(m.tcbs, active, k)
  {
    hide EventsOk, Bitmaps.Represents, IdleLast;
    forall j | 0 <= j < k ensures PrioOf(m.tcbs, active[j]) != PrioOf(m.tcbs, active[k]) {
      PriosDiffer(m.tcbs, m.prioTbl, active, a.tasks, j, k);
    }
    hide Agrees, Structure;
  }

  lemma VisitedIfTask(m: Image, a: Sys, active: seq<nat>, free: seq<nat>, p: nat)
    requires Agrees(m, a, active, free) && active != [] && p in a.tasks && p != m.lowestPrio
    ensures p in PriosOf(m.tcbs, active, |active| - 1)
  {
    hide Structure;
    TaskTcb(m, a, active, free, p);
    var j :| 0 <= j < |active| && active[j] == m.prioTbl[p].tcb;
    IdlePosition(m, a, active, free, j);
    assert PrioOf(m.tcbs, active[j]) == p;
  }

  /** No task but idle is missed by a walk that stops at idle. */
  lemma AllVisited(m: Image, a: Sys, active: seq<nat>, free: seq<nat>)
    requires Agrees(m, a, active, free) && active != []
    ensures PriosOf(m.tcbs, active, |active| - 1) == a.tasks.Keys - {m.lowestPrio}
  {
    hide Structure, Agrees;
    forall p | p in a.tasks && p != m.lowestPrio ensures p in PriosOf(m.tcbs, active, |active| - 1) {
      VisitedIfTask(m, a, active, free, p);
    }
    forall k | 0 <= k < |active| - 1
      ensures PrioOf(m.tcbs, active[k]) in a.tasks.Keys - {m.lowestPrio}
    {
      IdlePosition(m, a, active, free, k);
    }
  }

  // ---- creating a task ----

  /** The fields a new task control block starts with; its masks are computed once from the priority. */
  function NewTcb(c: Tcb, p: nat): Tcb
    requires p < 64
  {
    Tcb(c.next, c.prev, None, None, NULL, 0, STAT_RDY, PendOk, p, p % 8, p / 8, Mask(p % 8), Mask(p / 8), 0)
  }

  /** The table after block `i` has been put in front of the active list. */
  function LinkFirst(tcbs: seq<Tcb>, tcbList: Option<nat>, i: nat, c: Tcb): seq<Tcb>
    requires i < |tcbs| && (tcbList.Some? ==> tcbList.value < |tcbs|)
  {
    var t := tcbs[i := c.(next := tcbList, prev := None)];
    if tcbList.Some? then t[tcbList.value := t[tcbList.value].(prev := Some(i))] else t
  }

  /** Fill in block `i` for a task of priority `p` and put it in front of the active list. */
  method FillAndLink(tcbs: seq<Tcb>, tcbList: Option<nat>, i: nat, p: nat) returns (table: seq<Tcb>)
    requires i < |tcbs| && p < 64 && (tcbList.Some? ==> tcbList.value < |tcbs|)
    ensures table == LinkFirst(tcbs, tcbList, i, NewTcb(tcbs[i], p))
  {
    var c := NewTcb(tcbs[i], p);
    c := c.(next := tcbList);
    c := c.(prev := None);
    table := tcbs[i := c];
    if tcbList.Some? {
      table := table[tcbList.value := table[tcbList.value].(prev := Some(i))];
    }
  }

  lemma LinkKeepsActive(tcbs: seq<Tcb>, tcbList: Option<nat>, active: seq<nat>, i: nat, c: Tcb)
    requires Chain(tcbs, tcbList, active) && BackLinks(tcbs, active) && NoRepeats(active) && i < |tcbs| && i !in active
    ensures tcbList.Some? ==> tcbList.value < |tcbs|
    ensures var t := LinkFirst(tcbs, tcbList, i, c);
            Chain(t, Some(i), [i] + active) && BackLinks(t, [i] + active) && NoRepeats([i] + active)
  {
    var t := LinkFirst(tcbs, tcbList, i, c);
    var active' := [i] + active;
    forall k | 0 <= k < |active'|
      ensures active'[k] < |t| && t[active'[k]].next == NextIn(active', k) && t[active'[k]].prev == PrevIn(active', k)
    {
      if k > 0 {
        LinkedBlock(tcbs, tcbList, active, i, c, k - 1);
      }
    }
    hide LinkFirst;
  }

  /** A block already on the active list keeps its successor; the old head gets a predecessor. */
  lemma LinkedBlock(tcbs: seq<Tcb>, tcbList: Option<nat>, active: seq<nat>, i: nat, c: Tcb, k: nat)
    requires Chain(tcbs, tcbList, active) && BackLinks(tcbs, active) && NoRepeats(active) && i < |tcbs| && i !in active
    requires k < |active|
    ensures tcbList.Some? ==> tcbList.value < |tcbs|
    ensures var t := LinkFirst(tcbs, tcbList, i, c);
            && active[k] < |t|
            && t[active[k]].next == NextIn([i] + active, k + 1) && t[active[k]].prev == PrevIn([i] + active, k + 1)
  {
    assert active[k] in active;
    assert active[0] < |tcbs|;
    ShiftedLinks(active, i, k);
    assert tcbs[active[k]].next == NextIn(active, k) && tcbs[active[k]].prev == PrevIn(active, k);
    assert k > 0 ==> active[0] != active[k];
    hide Chain, BackLinks, NoRepeats, NextIn, PrevIn;
  }

  lemma ShiftedLinks(active: seq<nat>, i: nat, k: nat)
    requires k < |active|
    ensures NextIn([i] + active, k + 1) == NextIn(active, k)
    ensures PrevIn([i] + active, k + 1) == if k == 0 then Some(i) else PrevIn(active, k)
  {
  }

  lemma UnlinkKeepsFree(tcbs: seq<Tcb>, tcbList: Option<nat>, tcbFreeList: Option<nat>, free: seq<nat>, c: Tcb)
    requires Chain(tcbs, tcbFreeList, free) && NoRepeats(free) && free != []
    requires tcbList.Some? ==> tcbList.value < |tcbs| && tcbList.value !in free
    ensures tcbFreeList == Some(free[0]) && free[0] < |tcbs|
    ensures Chain(LinkFirst(tcbs, tcbList, free[0], c), tcbs[free[0]].next, free[1..]) && NoRepeats(free[1..])
  {
    var t := LinkFirst(tcbs, tcbList, free[0], c);
    var free' := free[1..];
    assert tcbs[free[0]].next == NextIn(free, 0);
    forall k | 0 <= k < |free'|
      ensures free'[k] < |t| && t[free'[k]].next == NextIn(free', k)
    {
      assert free'[k] == free[k + 1] && free[k + 1] in free;
      assert t[free'[k]].next == tcbs[free[k + 1]].next == NextIn(free, k + 1);
    }
  }

  lemma PartitionShifts(n: nat, active: seq<nat>, free: seq<nat>, j: nat)
    requires NoRepeats(free) && free != [] && (j in active <==> j !in free)
    ensures j in [free[0]] + active <==> j !in free[1..]
  {
    if j in free {
      var k :| 0 <= k < |free| && free[k] == j;
      if k > 0 {
        assert free[1..][k - 1] == j;
      }
    }
  }

  lemma LinkKeepsLists(tcbs: seq<Tcb>, tcbList: Option<nat>, tcbFreeList: Option<nat>, active: seq<nat>, free: seq<nat>, c: Tcb)
    requires ListsOk(tcbs, tcbList, tcbFreeList, active, free) && free != []
    ensures tcbFreeList == Some(free[0]) && free[0] < |tcbs| && (tcbList.Some? ==> tcbList.value < |tcbs|)
    ensures ListsOk(LinkFirst(tcbs, tcbList, free[0], c), Some(free[0]), tcbs[free[0]].next, [free[0]] + active, free[1..])
    ensures |LinkFirst(tcbs, tcbList, free[0], c)| == |tcbs|
  {
    assert free[0] in free;
    assert tcbList.Some? ==> active[0] in active;
    UnlinkKeepsFree(tcbs, tcbList, tcbFreeList, free, c);
    LinkKeepsActive(tcbs, tcbList, active, free[0], c);
    forall j | 0 <= j < |tcbs| ensures j in [free[0]] + active <==> j !in free[1..] {
      PartitionShifts(|tcbs|, active, free, j);
    }
    hide Chain, BackLinks, NoRepeats;
  }

  lemma LinkKeepsTasks(tcbs: seq<Tcb>, tcbList: Option<nat>, prioTbl: seq<PrioEntry>, active: seq<nat>,
                       tasks: map<nat, Task>, i: nat, p: nat)
    requires TasksOk(tcbs, prioTbl, active, tasks) && i < |tcbs| && i !in active && p < |prioTbl| <= 64
    requires !prioTbl[p].TcbAt? && (tcbList.Some? ==> tcbList.value in active)
    ensures tcbList.Some? ==> tcbList.value < |tcbs|
    ensures TasksOk(LinkFirst(tcbs, tcbList, i, NewTcb(tcbs[i], p)), prioTbl[p := TcbAt(i)], [i] + active,
                    tasks[p := FRESH_TASK])
  {
    hide LinkFirst, NewTcb, TcbOk;
    assert tcbList.Some? ==> HasTask(tcbs, prioTbl, tasks, tcbList.value);
    var t := LinkFirst(tcbs, tcbList, i, NewTcb(tcbs[i], p));
    var prioTbl', active', tasks' := prioTbl[p := TcbAt(i)], [i] + active, tasks[p := FRESH_TASK];
    LinkedFields(tcbs, tcbList, i, p);
    forall q | q in tasks' ensures HasTcb(t, prioTbl', active', tasks', q) {
      if q != p {
        OldTaskKeepsTcb(tcbs, t, prioTbl, active, tasks, i, p, q);
      }
    }
    forall j | j in active' ensures HasTask(t, prioTbl', tasks', j) {
      if j != i {
        OldTcbKeepsTask(tcbs, t, prioTbl, tasks, i, p, j);
      }
    }
    hide HasTcb, HasTask;
  }

  lemma OldTcbKeepsTask(tcbs: seq<Tcb>, t: seq<Tcb>, prioTbl: seq<PrioEntry>, tasks: map<nat, Task>, i: nat, p: nat, j: nat)
    requires j != i && HasTask(tcbs, prioTbl, tasks, j) && p < |prioTbl| && !prioTbl[p].TcbAt? && |t| == |tcbs|
    requires t[j] == tcbs[j].(prev := t[j].prev)
    ensures HasTask(t, prioTbl[p := TcbAt(i)], tasks[p := FRESH_TASK], j)
  {
  }

  /** Putting a block in front changes the others in their links only, and gives the new one its fields. */
  lemma LinkedFields(tcbs: seq<Tcb>, tcbList: Option<nat>, i: nat, p: nat)
    requires i < |tcbs| && p < 64 && (tcbList.Some? ==> tcbList.value < |tcbs| && tcbList.value != i)
    ensures var t := LinkFirst(tcbs, tcbList, i, NewTcb(tcbs[i], p));
            && |t| == |tcbs| && t[i].prio == p && TcbOk(t[i], p, FRESH_TASK)
            && forall j :: 0 <= j < |tcbs| && j != i ==> t[j] == tcbs[j].(prev := t[j].prev)
  {
  }

  lemma OldTaskKeepsTcb(tcbs: seq<Tcb>, t: seq<Tcb>, prioTbl: seq<PrioEntry>, active: seq<nat>, tasks: map<nat, Task>,
                        i: nat, p: nat, q: nat)
    requires q in tasks && q != p && |prioTbl| <= 64 && HasTcb(tcbs, prioTbl, active, tasks, q)
    requires i !in active && p < |prioTbl| && |t| == |tcbs|
    requires forall j :: 0 <= j < |tcbs| && j != i ==> t[j] == tcbs[j].(prev := t[j].prev)
    ensures HasTcb(t, prioTbl[p := TcbAt(i)], [i] + active, tasks[p := FRESH_TASK], q)
  {
    hide Mask;
    assert prioTbl[q].tcb != i;
  }

  lemma LinkKeepsIdleLast(tcbs: seq<Tcb>, tcbList: Option<nat>, active: seq<nat>, idle: nat, i: nat, p: nat)
    requires IdleLast(tcbs, active, idle) && i < |tcbs| && i !in active && p < 64
    requires (active == [] ==> p == idle) && (tcbList.Some? ==> tcbList.value < |tcbs|)
    ensures IdleLast(LinkFirst(tcbs, tcbList, i, NewTcb(tcbs[i], p)), [i] + active, idle)
  {
    if active != [] {
      assert active[|active| - 1] in active;
    }
  }

  /** All the variables after a task of priority `p` has been created, apart from the ready list. */
  function CreatedImage(m: Image, p: nat): Image
    requires p < |m.prioTbl| <= 64 && m.tcbFreeList.Some? && m.tcbFreeList.value < |m.tcbs|
    requires m.tcbList.Some? ==> m.tcbList.value < |m.tcbs|
  {
    var i := m.tcbFreeList.value;
    m.(tcbFreeList := m.tcbs[i].next,
       tcbs := LinkFirst(m.tcbs, m.tcbList, i, NewTcb(m.tcbs[i], p)),
       prioTbl := m.prioTbl[p := TcbAt(i)], tcbList := Some(i), taskCtr := m.taskCtr + 1)
  }

  lemma FreeListFacts(m: Image, a: Sys, active: seq<nat>, free: seq<nat>)
    requires Agrees(m, a, active, free)
    ensures |m.prioTbl| == m.lowestPrio + 1 <= 64
    ensures active == [] <==> a.tasks == map[]
    ensures m.tcbFreeList.Some? <==> free != []
    ensures m.tcbList.Some? <==> active != []
    ensures m.tcbFreeList.Some? <==> |a.tasks| < a.capacity
    ensures m.tcbFreeList.Some? ==> free != [] && m.tcbFreeList.value == free[0] && free[0] < |m.tcbs| && free[0] !in active
    ensures m.tcbList.Some? ==> m.tcbList.value in active && m.tcbList.value < |m.tcbs|
  {
    hide EventsOk, IdleLast, Bitmaps.Represents, TcbOk;
    if free != [] {
      assert free[0] in free;
    }
  }

  lemma NoTcbThere(m: Image, a: Sys, active: seq<nat>, free: seq<nat>, p: nat)
    requires Agrees(m, a, active, free) && p !in a.tasks && p < |m.prioTbl|
    ensures !m.prioTbl[p].TcbAt?
  {
    hide EventsOk, ListsOk, IdleLast, Bitmaps.Represents;
  }

  lemma CreateAgrees(m: Image, a: Sys, active: seq<nat>, free: seq<nat>, p: nat)
    requires Agrees(m, a, active, free) && p <= m.lowestPrio && p !in a.tasks && |a.tasks| < a.capacity
    requires active == [] ==> p == m.lowestPrio
    requires free != [] && p < |m.prioTbl| <= 64 && m.tcbFreeList == Some(free[0]) && free[0] < |m.tcbs|
    requires m.tcbList.Some? ==> m.tcbList.value < |m.tcbs|
    ensures Agrees(CreatedImage(m, p), a.(tasks := a.tasks[p := FRESH_TASK]), [free[0]] + active, free[1..])
  {
    hide EventsOk, Bitmaps.Represents, TcbOk, TasksOk, ListsOk, IdleLast, NewTcb, LinkFirst;
    FreeListFacts(m, a, active, free);
    NoTcbThere(m, a, active, free, p);
    var i := free[0];
    LinkKeepsLists(m.tcbs, m.tcbList, m.tcbFreeList, active, free, NewTcb(m.tcbs[i], p));
    LinkKeepsTasks(m.tcbs, m.tcbList, m.prioTbl, active, a.tasks, i, p);
    LinkKeepsIdleLast(m.tcbs, m.tcbList, active, m.lowestPrio, i, p);
    CreateKeepsRest(m, a, active, free, p);
    hide PointersOk, CountersOk, CurrentOk;
  }

  lemma CreateKeepsRest(m: Image, a: Sys, active: seq<nat>, free: seq<nat>, p: nat)
    requires Agrees(m, a, active, free) && p <= m.lowestPrio && p !in a.tasks && |a.tasks| < a.capacity
    requires m.tcbFreeList.Some? && m.tcbFreeList.value < |m.tcbs| && p < |m.prioTbl| <= 64
    requires m.tcbList.Some? ==> m.tcbList.value < |m.tcbs|
    ensures var m', tasks' := CreatedImage(m, p), a.tasks[p := FRESH_TASK];
            && a.tasks.Keys <= tasks'.Keys && |tasks'| == |a.tasks| + 1
            && PointersOk(tasks', |m'.events|)
            && CountersOk(m', a.(tasks := tasks')) && CurrentOk(m', a.(tasks := tasks'))
  {
    hide EventsOk, Bitmaps.Represents, TcbOk, TasksOk, ListsOk, IdleLast, LinkFirst, NewTcb;
  }

  // ---- the state after initialisation ----

  const BLANK_TCB := Tcb(None, None, None, None, NULL, 0, STAT_RDY, PendOk, 0, 0, 0, 0, 0, 0)

  lemma InitialAgrees(m: Image, a: Sys, active: seq<nat>, free: seq<nat>)
    requires m.lowestPrio <= 63 && a.idle == m.lowestPrio && |m.prioTbl| == m.lowestPrio + 1
    requires forall p :: 0 <= p < |m.prioTbl| ==> m.prioTbl[p] == NoTcb
    requires |m.rdyTbl| == m.lowestPrio / 8 + 1 && m.rdyGrp == 0
    requires forall y :: 0 <= y < |m.rdyTbl| ==> m.rdyTbl[y] == 0
    requires |m.events| == |a.waits| == |a.bodies|
    requires forall e :: 0 <= e < |m.events| ==>
               && m.events[e].grp == 0 && |m.events[e].tbl| == |m.rdyTbl|
               && (forall y :: 0 <= y < |m.events[e].tbl| ==> m.events[e].tbl[y] == 0)
               && BodyOfRequires(m.events[e]) && BodyOf(m.events[e]) == a.bodies[e] && a.waits[e] == {}
    requires a.tasks == map[] && a.ready == {} && active == [] && m.tcbList == None && m.taskCtr == 0
    requires a.capacity == |m.tcbs| == |free| > 0 && m.tcbFreeList == Some(0)
    requires forall k :: 0 <= k < |free| ==> free[k] == k
    requires forall k :: 0 <= k < |free| ==> m.tcbs[k].next == NextIn(free, k)
    requires CountersOk(m, a) && !m.running
    ensures Agrees(m, a, active, free)
  {
    forall i | 0 <= i < |m.tcbs| ensures i in free {
      assert free[i] == i;
    }
    Bitmaps.ZeroRepresentsEmpty(m.rdyTbl);
    forall e | 0 <= e < |m.events| ensures EcbOk(m.events[e], |m.rdyTbl|, a.waits[e], a.bodies[e]) {
      Bitmaps.ZeroRepresentsEmpty(m.events[e].tbl);
    }
    hide Bitmaps.Represents, EcbOk;
  }
}
