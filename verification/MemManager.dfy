/** The books of the allocation accountant: what is outstanding under which id, as a value. */
module AllocationBooks {
  import opened Words

  const SLOTS := 32
  /** A slot of the accountant: empty, or holding a block, named by a serial number, under the slot's id. */
  datatype Slot = Empty | Holds(serial: nat, size: Word)

  datatype Books = Books(
    slots: seq<Slot>,         // by id, the first id being one
    idsLeft: nat,             // ids not yet handed out
    permits: int,             // of the lock semaphore
    granted: set<nat>,        // every block malloc ever returned
    freed: set<nat>)          // every block given back

  function Opening(): Books {
    Books(seq(SLOTS, _ => Empty), SLOTS, 1, {}, {})
  }

  const NO_ID: Word := 0xFFFF_FFFF

  datatype Call =
    | NewId
    | Request(id: int, size: Word, serial: nat, given: bool)   // `given`: malloc returned a block
    | Free(id: int)

  /** The id a call for a new one returns. */
  function IssuedId(b: Books): Word
    requires b.idsLeft <= SLOTS
  {
    if b.idsLeft == 0 then NO_ID else b.idsLeft
  }

  /** The id names a slot that holds a block. */
  predicate InUse(b: Books, id: int) {
    1 <= id <= |b.slots| && b.slots[id - 1].Holds?
  }

  /** A request is refused if there is no memory or its slot is taken. */
  predicate Granted(b: Books, c: Call)
    requires c.Request?
  {
    c.given && !InUse(b, c.id)
  }

  /**
   Task-level calls, made with the scheduler unlocked, that the source can
   complete: it waits for the lock without limit, and indexes by the id it is given.
   */
  predicate Possible(b: Books, c: Call) {
    match c
    case NewId => true
    case Request(id, _, serial, given) => b.permits > 0 && (given ==> 1 <= id <= |b.slots| && serial !in b.granted)
    case Free(_) => b.permits > 0
  }

  function Apply(b: Books, c: Call): Books
    requires Possible(b, c)
  {
    match c
    case NewId => if b.idsLeft == 0 then b else b.(idsLeft := b.idsLeft - 1)
    case Request(id, size, serial, given) =>
      var b' := if given then b.(granted := b.granted + {serial}) else b;
      if Granted(b, c) then b'.(slots := b.slots[id - 1 := Holds(serial, size)])
      else b'.(permits := b.permits - 1)
    case Free(id) =>
      if InUse(b, id) then b.(slots := b.slots[id - 1 := Empty], freed := b.freed + {b.slots[id - 1].serial})
      else b.(permits := b.permits - 1)
  }

  /** How many slots hold a block. */
  function Count(slots: seq<Slot>): nat {
    if slots == [] then 0
    else Count(slots[..|slots| - 1]) + if slots[|slots| - 1].Holds? then 1 else 0
  }

  /** The sizes of the blocks held. */
  function Outstanding(slots: seq<Slot>): nat {
    if slots == [] then 0
    else Outstanding(slots[..|slots| - 1]) + SizeOf(slots[|slots| - 1])
  }

  function SizeOf(s: Slot): nat {
    match s
    case Empty => 0
    case Holds(_, size) => size
  }

  function Held(slots: seq<Slot>): set<nat> {
    set i | 0 <= i < |slots| && slots[i].Holds? :: slots[i].serial
  }

  lemma {:induction false} Totals(slots: seq<Slot>, i: nat, s: Slot)
    requires i < |slots|
    ensures Outstanding(slots[i := s]) == Outstanding(slots) - SizeOf(slots[i]) + SizeOf(s)
    ensures Count(slots[i := s]) == Count(slots) - (if slots[i].Holds? then 1 else 0) + if s.Holds? then 1 else 0
    ensures Count(slots) <= |slots|
  {
    var n := |slots| - 1;
    if i < n {
      Totals(slots[..n], i, s);
      assert slots[i := s][..n] == slots[..n][i := s];
    } else {
      assert slots[i := s][..n] == slots[..n];
      if n > 0 {
        Totals(slots[..n], 0, s);
      }
    }
  }

  /** The blocks that are in no slot and were not freed. */
  function Lost(b: Books): set<nat> {
    b.granted - b.freed - Held(b.slots)
  }

  /** Every block ever granted is in exactly one slot, or was freed, or was lost by a call that kept the lock. */
  predicate Sound(b: Books) {
    && |b.slots| == SLOTS && b.idsLeft <= SLOTS && 0 <= b.permits <= 1
    && Held(b.slots) <= b.granted && b.freed <= b.granted && Held(b.slots) !! b.freed
    && Distinct(b.slots)
    && (b.permits > 0 ==> Lost(b) == {})
  }

  predicate Distinct(slots: seq<Slot>) {
    forall i, j :: 0 <= i < j < |slots| && slots[i].Holds? && slots[j].Holds? ==> slots[i].serial != slots[j].serial
  }

  lemma Put(slots: seq<Slot>, i: nat, s: Slot)
    requires i < |slots| && slots[i].Empty? && s.Holds? && s.serial !in Held(slots) && Distinct(slots)
    ensures Held(slots[i := s]) == Held(slots) + {s.serial} && Distinct(slots[i := s])
  {
    var slots' := slots[i := s];
    assert slots'[i] == s;
    forall x | x in Held(slots) ensures x in Held(slots') {
      var j :| 0 <= j < |slots| && slots[j].Holds? && slots[j].serial == x;
      assert slots'[j] == slots[j];
    }
    forall j | 0 <= j < |slots| && slots[j].Holds? ensures slots[j].serial in Held(slots) {
    }
  }

  lemma Drop(slots: seq<Slot>, i: nat)
    requires i < |slots| && slots[i].Holds? && Distinct(slots)
    ensures Held(slots[i := Empty]) == Held(slots) - {slots[i].serial} && Distinct(slots[i := Empty])
    ensures slots[i].serial in Held(slots)
  {
    var slots' := slots[i := Empty];
    forall x | x in Held(slots) - {slots[i].serial} ensures x in Held(slots') {
      var j :| 0 <= j < |slots| && slots[j].Holds? && slots[j].serial == x;
      assert slots'[j] == slots[j];
    }
    forall x | x in Held(slots') ensures x in Held(slots) && x != slots[i].serial {
      var j :| 0 <= j < |slots| && slots'[j].Holds? && slots'[j].serial == x;
      assert slots'[j] == slots[j];
    }
  }

  lemma StepKeepsSound(b: Books, c: Call)
    requires Sound(b) && Possible(b, c)
    ensures Sound(Apply(b, c))
  {
    match c
    case NewId =>
    case Request(id, size, serial, given) =>
      if Granted(b, c) {
        Put(b.slots, id - 1, Holds(serial, size));
      }
    case Free(id) =>
      if InUse(b, id) {
        Drop(b.slots, id - 1);
      }
  }

  predicate Legal(b: Books, calls: seq<Call>)
    decreases |calls|
  {
    calls == [] || (Possible(b, calls[0]) && Legal(Apply(b, calls[0]), calls[1..]))
  }

  function Exec(b: Books, calls: seq<Call>): Books
    requires Legal(b, calls)
    decreases |calls|
  {
    if calls == [] then b else Exec(Apply(b, calls[0]), calls[1..])
  }

  /** Over every run: a block obtained is in exactly one slot, or was freed once, or is lost; none is while the lock is free. */
  lemma {:induction false} BlocksAreAccountedFor(b: Books, calls: seq<Call>)
    requires Sound(b) && Legal(b, calls)
    ensures Sound(Exec(b, calls))
    decreases |calls|
  {
    if calls != [] {
      StepKeepsSound(b, calls[0]);
      BlocksAreAccountedFor(Apply(b, calls[0]), calls[1..]);
    }
  }

  /** Every request was granted and every free found a block. */
  predicate AllSucceed(b: Books, calls: seq<Call>)
    requires Legal(b, calls)
    decreases |calls|
  {
    calls == [] || (Succeeds(b, calls[0]) && AllSucceed(Apply(b, calls[0]), calls[1..]))
  }

  predicate Succeeds(b: Books, c: Call) {
    match c
    case NewId => true
    case Request(_, _, _, _) => Granted(b, c)
    case Free(id) => InUse(b, id)
  }

  /** The lock is back after a run if and only if every call of it succeeded. */
  lemma {:induction false} LockBackIffAllSucceed(b: Books, calls: seq<Call>)
    requires Sound(b) && Legal(b, calls)
    ensures Exec(b, calls).permits == b.permits <==> AllSucceed(b, calls)
    decreases |calls|
  {
    if calls != [] {
      StepKeepsSound(b, calls[0]);
      LockBackIffAllSucceed(Apply(b, calls[0]), calls[1..]);
      PermitsFall(Apply(b, calls[0]), calls[1..]);
      assert Apply(b, calls[0]).permits == b.permits <==> Succeeds(b, calls[0]);
    }
  }

  /** The blocks obtained by requests that then found their slot in use. */
  function LostBy(b: Books, calls: seq<Call>): set<nat>
    requires Legal(b, calls)
    decreases |calls|
  {
    if calls == [] then {}
    else
      (if LosesBlock(b, calls[0]) then {calls[0].serial} else {}) + LostBy(Apply(b, calls[0]), calls[1..])
  }

  predicate LosesBlock(b: Books, c: Call) {
    c.Request? && c.given && InUse(b, c.id)
  }

  /** What one call adds to the blocks in no slot and not freed. */
  lemma StepLoses(b: Books, c: Call)
    requires Sound(b) && Possible(b, c)
    ensures Lost(Apply(b, c)) == Lost(b) + if LosesBlock(b, c) then {c.serial} else {}
  {
    match c
    case NewId =>
    case Request(id, size, serial, given) =>
      if Granted(b, c) {
        Put(b.slots, id - 1, Holds(serial, size));
      }
    case Free(id) =>
      if InUse(b, id) {
        Drop(b.slots, id - 1);
      }
  }

  /** Over every run, the blocks lost are exactly those. */
  lemma {:induction false} LossesAreRefusals(b: Books, calls: seq<Call>)
    requires Sound(b) && Legal(b, calls)
    ensures Lost(Exec(b, calls)) == Lost(b) + LostBy(b, calls)
    decreases |calls|
  {
    if calls != [] {
      hide Lost, LosesBlock;
      StepKeepsSound(b, calls[0]);
      StepLoses(b, calls[0]);
      LossesAreRefusals(Apply(b, calls[0]), calls[1..]);
    }
  }

  /** While the lock is free nothing has been lost; at most one block ever is, by the last request of the run. */
  lemma {:induction false} AtMostOneLost(b: Books, calls: seq<Call>)
    requires Sound(b) && Legal(b, calls) && b.permits == 1
    ensures var lost := Lost(Exec(b, calls));
            lost == {} || exists k :: 0 <= k < |calls| && LostAt(b, calls, k, lost)
    decreases |calls|
  {
    if calls != [] {
      var c, b' := calls[0], Apply(b, calls[0]);
      StepKeepsSound(b, c);
      if b'.permits == 1 {
        AtMostOneLost(b', calls[1..]);
        if Lost(Exec(b, calls)) != {} {
          var k :| 0 <= k < |calls[1..]| && LostAt(b', calls[1..], k, Lost(Exec(b, calls)));
          assert calls[..k + 1][0] == c && calls[..k + 1][1..] == calls[1..][..k];
          assert forall j :: k + 1 < j < |calls| ==> calls[j] == calls[1..][j - 1];
          assert LostAt(b, calls, k + 1, Lost(Exec(b, calls)));
        }
      } else {
        PermitsFall(b', calls[1..]);
        NewIdsLoseNothing(b', calls[1..]);
        StepLoses(b, c);
        if Lost(Exec(b, calls)) != {} {
          assert calls[..0] == [];
          assert forall j :: 0 < j < |calls| ==> calls[j] == calls[1..][j - 1];
          assert LostAt(b, calls, 0, Lost(Exec(b, calls)));
        }
      }
    }
  }

  /** `lost` is the block of the k-th call, a request that found its slot in use and the last call but for new ids. */
  predicate LostAt(b: Books, calls: seq<Call>, k: nat, lost: set<nat>)
    requires k < |calls|
  {
    && Legal(b, calls[..k]) && LosesBlock(Exec(b, calls[..k]), calls[k]) && lost == {calls[k].serial}
    && forall j :: k < j < |calls| ==> calls[j].NewId?
  }

  lemma {:induction false} NewIdsLoseNothing(b: Books, calls: seq<Call>)
    requires Legal(b, calls) && forall i :: 0 <= i < |calls| ==> calls[i].NewId?
    ensures Lost(Exec(b, calls)) == Lost(b)
    decreases |calls|
  {
    if calls != [] {
      NewIdsLoseNothing(Apply(b, calls[0]), calls[1..]);
    }
  }

  /** Once a call has returned early, with the lock held, no request and no free ever returns again. */
  lemma {:induction false} EarlyReturnIsTheLast(b: Books, calls: seq<Call>, k: nat)
    requires Sound(b) && Legal(b, calls) && k < |calls|
    requires Exec(b, calls).permits == b.permits && !calls[k].NewId?
    ensures b.permits == 1
    ensures match calls[k]
            case Request(_, _, _, _) => LegalPrefix(b, calls, k) && Granted(Exec(b, calls[..k]), calls[k])
            case Free(id) => LegalPrefix(b, calls, k) && InUse(Exec(b, calls[..k]), id)
            case NewId => false
    decreases |calls|
  {
    StepKeepsSound(b, calls[0]);
    PermitsFall(Apply(b, calls[0]), calls[1..]);
    if k > 0 {
      EarlyReturnIsTheLast(Apply(b, calls[0]), calls[1..], k - 1);
      assert calls[..k][0] == calls[0] && calls[..k][1..] == calls[1..][..k - 1];
    }
  }

  predicate LegalPrefix(b: Books, calls: seq<Call>, k: nat)
    requires k <= |calls|
  {
    Legal(b, calls[..k])
  }

  lemma {:induction false} PermitsFall(b: Books, calls: seq<Call>)
    requires Sound(b) && Legal(b, calls)
    ensures 0 <= Exec(b, calls).permits <= b.permits
    ensures b.permits == 0 ==> forall i :: 0 <= i < |calls| ==> calls[i].NewId?
    decreases |calls|
  {
    if calls != [] {
      StepKeepsSound(b, calls[0]);
      PermitsFall(Apply(b, calls[0]), calls[1..]);
    }
  }

  // ---- sizes ----

  /** What one call does to the total size of the blocks held. */
  lemma StepMovesSize(b: Books, c: Call)
    requires Possible(b, c)
    ensures Outstanding(Apply(b, c).slots) ==
            if c.Request? && Granted(b, c) then Outstanding(b.slots) + c.size
            else if c.Free? && InUse(b, c.id) then Outstanding(b.slots) - b.slots[c.id - 1].size
            else Outstanding(b.slots)
  {
    match c
    case NewId =>
    case Request(id, size, serial, _) =>
      if Granted(b, c) {
        Totals(b.slots, id - 1, Holds(serial, size));
      }
    case Free(id) =>
      if InUse(b, id) {
        Totals(b.slots, id - 1, Empty);
      }
  }

  /** The ids a run frees. */
  function FreedIds(calls: seq<Call>): set<int> {
    if calls == [] then {} else (if calls[0].Free? then {calls[0].id} else {}) + FreedIds(calls[1..])
  }

  /** The sizes asked for by the requests of a run that were granted and whose id is not freed in the rest of the run. */
  function Requested(b: Books, calls: seq<Call>): nat
    requires Legal(b, calls)
    decreases |calls|
  {
    if calls == [] then 0
    else
      (if calls[0].Request? && Granted(b, calls[0]) && calls[0].id !in FreedIds(calls[1..]) then calls[0].size else 0)
      + Requested(Apply(b, calls[0]), calls[1..])
  }

  /** The sizes of the blocks held under other ids. */
  function HeldExcept(slots: seq<Slot>, ids: set<int>): nat {
    if slots == [] then 0
    else HeldExcept(slots[..|slots| - 1], ids) + if |slots| in ids then 0 else SizeOf(slots[|slots| - 1])
  }

  lemma {:induction false} HeldUpdate(slots: seq<Slot>, i: nat, s: Slot, ids: set<int>)
    requires i < |slots|
    ensures HeldExcept(slots[i := s], ids) ==
            HeldExcept(slots, ids) + if i + 1 in ids then 0 else SizeOf(s) - SizeOf(slots[i])
  {
    var n := |slots| - 1;
    if i < n {
      HeldUpdate(slots[..n], i, s, ids);
      assert slots[i := s][..n] == slots[..n][i := s];
    } else {
      assert slots[i := s][..n] == slots[..n];
    }
  }

  lemma {:induction false} HeldMore(slots: seq<Slot>, id: int, ids: set<int>)
    ensures HeldExcept(slots, {id} + ids) ==
            HeldExcept(slots, ids) - if 1 <= id <= |slots| && id !in ids then SizeOf(slots[id - 1]) else 0
  {
    if slots != [] {
      HeldMore(slots[..|slots| - 1], id, ids);
    }
  }

  lemma {:induction false} HeldAll(slots: seq<Slot>)
    ensures HeldExcept(slots, {}) == Outstanding(slots)
  {
    if slots != [] {
      HeldAll(slots[..|slots| - 1]);
    }
  }

  lemma {:induction false} NoneHeld(n: nat, ids: set<int>)
    ensures HeldExcept(seq(n, _ => Empty), ids) == 0
  {
    if n > 0 {
      NoneHeld(n - 1, ids);
      assert seq(n, _ => Empty)[..n - 1] == seq(n - 1, _ => Empty);
    }
  }

  lemma SizeStep(b: Books, c: Call, rest: set<int>)
    requires Possible(b, c)
    ensures HeldExcept(Apply(b, c).slots, rest) ==
            HeldExcept(b.slots, (if c.Free? then {c.id} else {}) + rest)
            + if c.Request? && Granted(b, c) && c.id !in rest then c.size else 0
  {
    hide HeldExcept;
    match c
    case NewId =>
      assert {} + rest == rest;
    case Request(id, size, serial, _) =>
      assert {} + rest == rest;
      if Granted(b, c) {
        HeldUpdate(b.slots, id - 1, Holds(serial, size), rest);
      }
    case Free(id) =>
      HeldMore(b.slots, id, rest);
      if InUse(b, id) {
        HeldUpdate(b.slots, id - 1, Empty, rest);
      }
  }

  /** Over every run: the total is the size of what was held before and not freed, and of what was granted and not freed since. */
  lemma {:induction false} SizesAreRequested(b: Books, calls: seq<Call>)
    requires Legal(b, calls)
    ensures Outstanding(Exec(b, calls).slots) == HeldExcept(b.slots, FreedIds(calls)) + Requested(b, calls)
    decreases |calls|
  {
    hide HeldExcept, Outstanding, Apply, Granted;
    if calls == [] {
      HeldAll(b.slots);
    } else {
      SizesAreRequested(Apply(b, calls[0]), calls[1..]);
      SizeStep(b, calls[0], FreedIds(calls[1..]));
    }
  }

  /** From the start: the total is that of the sizes requested under ids not freed since. */
  lemma TotalIsRequested(calls: seq<Call>)
    requires Legal(Opening(), calls)
    ensures Outstanding(Exec(Opening(), calls).slots) == Requested(Opening(), calls)
  {
    SizesAreRequested(Opening(), calls);
    NoneHeld(SLOTS, FreedIds(calls));
    assert Opening().slots == seq(SLOTS, _ => Empty);
  }

  /** The ids returned by a run. */
  function Issued(b: Books, calls: seq<Call>): seq<Word>
    requires Legal(b, calls) && b.idsLeft <= SLOTS
    decreases |calls|
  {
    if calls == [] then []
    else (if calls[0].NewId? then [IssuedId(b)] else []) + Issued(Apply(b, calls[0]), calls[1..])
  }

  /** Ids come in descending order, each once, whatever is called in between; then the error value. */
  lemma {:induction false} IdsAreDistinct(b: Books, calls: seq<Call>)
    requires Legal(b, calls) && b.idsLeft <= SLOTS
    ensures forall i :: 0 <= i < |Issued(b, calls)| ==>
              Issued(b, calls)[i] == if i < b.idsLeft then b.idsLeft - i else NO_ID
    decreases |calls|
  {
    if calls != [] {
      var b' := Apply(b, calls[0]);
      IdsAreDistinct(b', calls[1..]);
      assert calls[0].NewId? ==> forall i :: 0 < i < |Issued(b, calls)| ==>
          Issued(b, calls)[i] == Issued(b', calls[1..])[i - 1];
    }
  }
}

/** The accountant itself: arrays by slot, a stack of ids, and two running totals. */
module MemManager {
  import opened Words
  import opened AllocationBooks

  datatype Pointer = Null | At(serial: nat)

  class Manager {
    const addr: array<Pointer>
    const size: array<Word>
    const idStack: array<Word>
    var stackTop: Word
    var active: Word
    var total: Word
    var permits: int

    ghost var books: Books

    /** The arrays hold, slot by slot, what the books say. */
    ghost predicate Agrees(slots: seq<Slot>)
      reads addr, size
    {
      && |slots| == addr.Length == size.Length == SLOTS
      && forall i :: 0 <= i < SLOTS ==>
           match slots[i]
           case Empty => addr[i] == Null && size[i] == 0
           case Holds(serial, bytes) => addr[i] == At(serial) && size[i] == bytes
    }

    ghost predicate Valid()
      reads this, addr, size, idStack
    {
      && Sound(books) && Agrees(books.slots)
      && idStack.Length == SLOTS + 1 && idStack != size && (forall i :: 1 <= i <= SLOTS ==> idStack[i] == i)
      && stackTop == books.idsLeft && permits == books.permits
      && active == Count(books.slots) && total == Wrap(Outstanding(books.slots))
    }

    constructor ()
      ensures Valid() && fresh(addr) && fresh(size) && fresh(idStack) && books == Opening()
    {
      addr := new Pointer[SLOTS](_ => Null);
      size := new Word[SLOTS](_ => 0);
      idStack := new Word[SLOTS + 1](_ => 0);
      stackTop, active, total, permits := SLOTS, 0, 0, 1;
      books := Opening();
      new;
      OpeningIsSound();
      hide Opening, Sound, Count, Outstanding;
      Init();
    }

    /** Clear every slot and stack up the ids. */
    method Init()
      requires addr.Length == size.Length == SLOTS && idStack.Length == SLOTS + 1 && idStack != size
      modifies addr, idStack
      ensures forall i :: 0 <= i < SLOTS ==> addr[i] == Null
      ensures forall i :: 1 <= i <= SLOTS ==> idStack[i] == i
    {
      var i := 0;
      while i < SLOTS
        invariant 0 <= i <= SLOTS && forall j :: 0 <= j < i ==> addr[j] == Null
      {
        addr[i] := Null;
        i := i + 1;
      }
      i := 1;
      while i < SLOTS + 1
        invariant 1 <= i <= SLOTS + 1 && forall j :: 1 <= j < i ==> idStack[j] == j
        invariant forall j :: 0 <= j < SLOTS ==> addr[j] == Null
      {
        idStack[i] := i;
        i := i + 1;
      }
    }

    method GetNewAllocationId() returns (id: Word)
      requires Valid()
      modifies `stackTop, `books
      ensures Valid() && books == Apply(old(books), NewId) && id == IssuedId(old(books))
    {
      books := Apply(books, NewId);
      if stackTop == 0 {
        return NO_ID;
      }
      id := idStack[stackTop];
      stackTop := stackTop - 1;
    }

    /** `granted` is what the library's allocator returned. */
    method RequestMalloc(id: Word, bytes: Word, granted: Pointer) returns (ptr: Pointer)
      requires Valid() && Possible(books, RequestOf(id, bytes, granted))
      modifies this, addr, size
      ensures Valid() && books == Apply(old(books), RequestOf(id, bytes, granted))
      ensures ptr == if Granted(old(books), RequestOf(id, bytes, granted)) then granted else Null
    {
      ghost var before := books.slots;
      ghost var call := RequestOf(id, bytes, granted);
      StepKeepsSound(books, call);
      permits := permits - 1;
      books := Apply(books, call);
      if granted == Null {
        return Null;
      }
      var i := id - 1;
      if addr[i] != Null {
        return Null;
      }
      NewEntry(before, i, Holds(granted.serial, bytes));
      active := Wrap(active + 1);
      addr[i] := granted;
      size[i] := bytes;
      total := Wrap(total + bytes);
      permits := permits + 1;
      return granted;
    }

    method FreeExistingMalloc(id: Word)
      requires Valid() && Possible(books, Free(id))
      modifies this, addr, size
      ensures Valid() && books == Apply(old(books), Free(id))
    {
      ghost var before := books.slots;
      StepKeepsSound(books, Free(id));
      permits := permits - 1;
      books := Apply(books, Free(id));
      if id == 0 || id > SLOTS {
        return;
      }
      var i := id - 1;
      if addr[i] == Null {
        return;
      }
      OldEntry(before, i);
      active := Wrap(active - 1);
      total := Wrap(total - size[i]);
      size[i] := 0;
      addr[i] := Null;
      permits := permits + 1;
    }
  }

  function RequestOf(id: Word, bytes: Word, granted: Pointer): Call {
    match granted
    case Null => Request(id, bytes, 0, false)
    case At(serial) => Request(id, bytes, serial, true)
  }

  lemma {:induction false} NothingOutstanding(n: nat)
    ensures var none := seq(n, _ => Empty); Outstanding(none) == 0 && Count(none) == 0
  {
    if n > 0 {
      NothingOutstanding(n - 1);
      var none := seq(n, _ => Empty);
      assert none[..n - 1] == seq(n - 1, _ => Empty);
    }
  }

  lemma OpeningIsSound()
    ensures var b := Opening();
            && Sound(b) && b.idsLeft == SLOTS && b.permits == 1
            && Count(b.slots) == 0 && Outstanding(b.slots) == 0
            && |b.slots| == SLOTS && forall i :: 0 <= i < SLOTS ==> b.slots[i] == Empty
  {
    NothingOutstanding(SLOTS);
    assert Opening().slots == seq(SLOTS, _ => Empty);
  }

  lemma NewEntry(slots: seq<Slot>, i: nat, s: Slot)
    requires i < |slots| == SLOTS && slots[i].Empty? && s.Holds?
    ensures var slots' := slots[i := s];
            && Wrap(Count(slots) + 1) == Count(slots')
            && Wrap(Wrap(Outstanding(slots)) + s.size) == Wrap(Outstanding(slots'))
  {
    Totals(slots, i, s);
    Totals(slots[i := s], i, s);
  }

  lemma OldEntry(slots: seq<Slot>, i: nat)
    requires i < |slots| == SLOTS && slots[i].Holds?
    ensures var slots' := slots[i := Empty];
            && Wrap(Count(slots) - 1) == Count(slots')
            && Wrap(Wrap(Outstanding(slots)) - slots[i].size) == Wrap(Outstanding(slots'))
  {
    Totals(slots, i, Empty);
  }
}
