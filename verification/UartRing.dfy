/** Geometry of a circular buffer of `n` slots in which one slot always stays free. */
module CircularBuffer {

  type Byte = b: int | 0 <= b < 256

  function Occupied(n: nat, out: nat, inn: nat): nat
    requires out < n && inn < n
  {
    if inn >= out then inn - out else n - out + inn
  }

  /** The slot `i` places after `out`. */
  function Slot(n: nat, out: nat, i: nat): nat
    requires out < n && i < n
  {
    if out + i < n then out + i else out + i - n
  }

  /** The stored bytes, oldest first. */
  function Contents(buf: seq<Byte>, out: nat, inn: nat): (s: seq<Byte>)
    requires out < |buf| && inn < |buf|
    ensures |s| == Occupied(|buf|, out, inn)
  {
    seq(Occupied(|buf|, out, inn), i requires 0 <= i < Occupied(|buf|, out, inn) => buf[Slot(|buf|, out, i)])
  }

  function Next(n: nat, i: nat): nat
    requires i < n
  {
    (i + 1) % n
  }

  /** The run a reader may copy in one go: to the producer's index or to the end of the buffer. */
  function ReadRun(n: nat, inn: nat, out: nat): nat
    requires out < n && inn < n
  {
    if inn >= out then inn - out else n - out
  }

  /** The run a writer may fill in one go, by the three-way formula. */
  function WriteRun(n: nat, inn: nat, out: nat): nat
    requires out < n && inn < n
  {
    if inn < out then out - 1 - inn
    else if out > 0 then n - inn
    else n - 1 - inn
  }

  /** The reader's run is the lesser of what is stored and what is contiguous. */
  lemma ReadRunIsContiguous(n: nat, inn: nat, out: nat)
    requires out < n && inn < n
    ensures ReadRun(n, inn, out) == if Occupied(n, out, inn) < n - out then Occupied(n, out, inn) else n - out
    ensures ReadRun(n, inn, out) == 0 <==> inn == out
  {
  }

  /** The writer's run is the lesser of the free space, less the slot that stays free, and what is contiguous. */
  lemma WriteRunIsFree(n: nat, inn: nat, out: nat)
    requires out < n && inn < n
    ensures var freeSlots := n - 1 - Occupied(n, out, inn);
            WriteRun(n, inn, out) == if freeSlots < n - inn then freeSlots else n - inn
    ensures WriteRun(n, inn, out) == 0 <==> Next(n, inn) == out
  {
    if inn + 1 < n {
      assert (inn + 1) % n == inn + 1;
    } else {
      assert (inn + 1) % n == 0;
    }
  }

  /** Consuming a byte never shrinks the run a writer may fill. */
  lemma WriteRunGrows(n: nat, inn: nat, out: nat)
    requires out < n && inn < n && out != inn
    ensures Next(n, out) < n && WriteRun(n, inn, Next(n, out)) >= WriteRun(n, inn, out)
  {
    NextSlot(n, out);
  }

  lemma NextSlot(n: nat, i: nat)
    requires i < n
    ensures Next(n, i) == if i + 1 == n then 0 else i + 1
  {
    if i + 1 == n {
      assert (i + 1) % n == 0;
    }
  }

  lemma Advance(n: nat, i: nat, k: nat)
    requires i < n && i + k <= n
    ensures (i + k) % n == if i + k == n then 0 else i + k
  {
  }

  /** Storing at the producer's index of a buffer that is not full appends one byte. */
  lemma Push(buf: seq<Byte>, out: nat, inn: nat, b: Byte)
    requires out < |buf| && inn < |buf| && Next(|buf|, inn) != out
    ensures Next(|buf|, inn) < |buf|
    ensures Contents(buf[inn := b], out, Next(|buf|, inn)) == Contents(buf, out, inn) + [b]
    ensures Occupied(|buf|, out, inn) < |buf| - 1
  {
    NextSlot(|buf|, inn);
  }

  /** Dropping `k` bytes of a contiguous run. */
  lemma Pop(buf: seq<Byte>, out: nat, inn: nat, k: nat)
    requires out < |buf| && inn < |buf| && k <= ReadRun(|buf|, inn, out)
    ensures (out + k) % |buf| < |buf|
    ensures Contents(buf, out, inn)[..k] == buf[out..out + k]
    ensures Contents(buf, (out + k) % |buf|, inn) == Contents(buf, out, inn)[k..]
  {
    Advance(|buf|, out, k);
    var n := |buf|;
    var c, c' := Contents(buf, out, inn), Contents(buf, (out + k) % n, inn);
    assert |c'| == |c| - k;
    forall i | 0 <= i < |c'| ensures c'[i] == c[k..][i] {
      assert Slot(n, (out + k) % n, i) == Slot(n, out, k + i);
    }
  }

  /** Moving a contiguous run from the front of the ring to the end of what has been consumed. */
  lemma Consume(done: seq<Byte>, buf: seq<Byte>, out: nat, inn: nat, k: nat)
    requires out < |buf| && inn < |buf| && k <= ReadRun(|buf|, inn, out)
    ensures (out + k) % |buf| < |buf| && out + k <= |buf|
    ensures done + buf[out..out + k] + Contents(buf, (out + k) % |buf|, inn) == done + Contents(buf, out, inn)
  {
    Pop(buf, out, inn, k);
    hide Contents;
    var c := Contents(buf, out, inn);
    assert c[..k] + c[k..] == c;
    assert done + c[..k] + c[k..] == done + (c[..k] + c[k..]);
  }

  lemma ConsumeOne(done: seq<Byte>, buf: seq<Byte>, out: nat, inn: nat)
    requires out < |buf| && inn < |buf| && out != inn
    ensures Next(|buf|, out) < |buf|
    ensures done + [buf[out]] + Contents(buf, Next(|buf|, out), inn) == done + Contents(buf, out, inn)
  {
    OneByte(buf, out);
    Consume(done, buf, out, inn, 1);
    hide Contents;
  }

  lemma OneByte(buf: seq<Byte>, i: nat)
    requires i < |buf|
    ensures buf[i..i + 1] == [buf[i]]
  {
  }

  /** Filling `k` free contiguous slots and advancing the producer's index appends them. */
  lemma Append(buf: seq<Byte>, buf': seq<Byte>, out: nat, inn: nat, bytes: seq<Byte>)
    requires out < |buf| == |buf'| && inn < |buf| && |bytes| <= WriteRun(|buf|, inn, out)
    requires inn + |bytes| <= |buf| && buf'[inn..inn + |bytes|] == bytes
    requires forall i :: 0 <= i < |buf| && !(inn <= i < inn + |bytes|) ==> buf'[i] == buf[i]
    ensures (inn + |bytes|) % |buf| < |buf|
    ensures Contents(buf', out, (inn + |bytes|) % |buf|) == Contents(buf, out, inn) + bytes
  {
    var n, k := |buf|, |bytes|;
    Advance(n, inn, k);
    var c, c' := Contents(buf, out, inn), Contents(buf', out, (inn + k) % n);
    assert |c'| == |c| + k;
    forall i | 0 <= i < |c'| ensures c'[i] == (c + bytes)[i] {
      if i < |c| {
        assert !(inn <= Slot(n, out, i) < inn + k);
      } else {
        assert Slot(n, out, i) == inn + (i - |c|);
        assert buf'[inn..inn + k][i - |c|] == bytes[i - |c|];
      }
    }
  }
}

/** The receive ring under every interleaving of the interrupt routine and any number of readers. */
module ReceiveRing {
  import opened CircularBuffer

  /** Where the reader that holds the read lock is, with its local variables. */
  datatype Reader =
    | NoReader
    | LoopTop
    | HasIn(inn: nat)                                // has read the producer's index
    | Copying(inn: nat, out: nat, n: nat, got: seq<Byte>)

  datatype Rx = Rx(
    buf: seq<Byte>, inn: nat, out: nat,
    re: bool,               // receive interrupt enabled
    accepted: seq<Byte>,    // every byte the interrupt routine has taken from the device
    delivered: seq<Byte>,   // every byte handed to a reader
    reader: Reader,
    taken: bool,            // the lock holder has committed some data
    owed: nat)              // readers that took data, released the lock and have not yet re-enabled the interrupt

  datatype RxStep =
    | Store(b: Byte)        // interrupt: a valid byte, with room for it
    | Mask                  // interrupt: no room left, turn the interrupt off
    | Acquire
    | ReadIn
    | ReadOut(space: nat)
    | CopyByte
    | Commit
    | Release
    | Reenable

  predicate Full(s: Rx)
    requires s.inn < |s.buf|
  {
    Next(|s.buf|, s.inn) == s.out
  }

  predicate Bounded(s: Rx) {
    1 < |s.buf| && s.inn < |s.buf| && s.out < |s.buf|
  }

  predicate Enabled(s: Rx, step: RxStep) {
    && Bounded(s)
    && match step
       case Store(_) => !Full(s)
       case Mask => Full(s)
       case Acquire => s.reader.NoReader?
       case ReadIn => s.reader.LoopTop?
       case ReadOut(space) => s.reader.HasIn? && s.reader.inn < |s.buf| && space > 0
       case CopyByte => s.reader.Copying? && |s.reader.got| < s.reader.n && s.reader.out + |s.reader.got| < |s.buf|
       case Commit => s.reader.Copying? && |s.reader.got| == s.reader.n
       case Release => s.reader.LoopTop?
       case Reenable => s.owed > 0
  }

  function Apply(s: Rx, step: RxStep): Rx
    requires Enabled(s, step)
  {
    match step
    case Store(b) => s.(buf := s.buf[s.inn := b], inn := Next(|s.buf|, s.inn), accepted := s.accepted + [b])
    case Mask => s.(re := false)
    case Acquire => s.(reader := LoopTop, taken := false)
    case ReadIn => s.(reader := HasIn(s.inn))
    case ReadOut(space) =>
      var n := ReadRun(|s.buf|, s.reader.inn, s.out);
      if n == 0 then s.(reader := LoopTop)
      else s.(reader := Copying(s.reader.inn, s.out, if n > space then space else n, []))
    case CopyByte => s.(reader := s.reader.(got := s.reader.got + [s.buf[s.reader.out + |s.reader.got|]]))
    case Commit =>
      s.(out := (s.reader.out + s.reader.n) % |s.buf|, delivered := s.delivered + s.reader.got,
         taken := true, reader := LoopTop)
    case Release => s.(reader := NoReader, taken := false, owed := if s.taken then s.owed + 1 else s.owed)
    case Reenable => s.(re := true, owed := s.owed - 1)
  }

  function Initial(n: nat): Rx
    requires n > 1
  {
    Rx(seq(n, _ => 0), 0, 0, true, [], [], NoReader, false, 0)
  }

  /** A reader's snapshot may be stale, but only in the direction of seeing less than there is. */
  predicate ReaderOk(s: Rx)
    requires Bounded(s)
  {
    match s.reader
    case NoReader => !s.taken
    case LoopTop => true
    case HasIn(i) => i < |s.buf| && Occupied(|s.buf|, s.out, i) <= Occupied(|s.buf|, s.out, s.inn)
    case Copying(i, o, n, got) =>
      && o == s.out && 0 < n <= ReadRun(|s.buf|, s.inn, s.out)
      && |got| <= n && got == s.buf[o..o + |got|]
  }

  predicate Inv(s: Rx) {
    && Bounded(s)
    && s.delivered + Contents(s.buf, s.out, s.inn) == s.accepted
    && ReaderOk(s)
    && (!s.re ==> Full(s) || s.taken || s.owed > 0)
  }

  /** The slot about to be stored into is never one the reader is copying. */
  lemma StoreMissesReader(s: Rx)
    requires Inv(s) && !Full(s) && s.reader.Copying?
    ensures !(s.reader.out <= s.inn < s.reader.out + s.reader.n)
  {
  }

  lemma StoreKeepsInv(s: Rx, b: Byte)
    requires Inv(s) && Enabled(s, Store(b))
    ensures Inv(Apply(s, Store(b)))
  {
    Push(s.buf, s.out, s.inn, b);
    NextSlot(|s.buf|, s.inn);
    if s.reader.Copying? {
      StoreMissesReader(s);
    }
    assert s.delivered + (Contents(s.buf, s.out, s.inn) + [b]) == s.accepted + [b];
  }

  lemma ReadOutKeepsInv(s: Rx, space: nat)
    requires Inv(s) && Enabled(s, ReadOut(space))
    ensures Inv(Apply(s, ReadOut(space)))
  {
    ReadRunIsContiguous(|s.buf|, s.inn, s.out);
    ReadRunIsContiguous(|s.buf|, s.reader.inn, s.out);
  }

  lemma CommitKeepsInv(s: Rx)
    requires Inv(s) && Enabled(s, Commit)
    ensures Inv(Apply(s, Commit))
  {
    Consume(s.delivered, s.buf, s.out, s.inn, s.reader.n);
    hide Contents, Occupied, ReadRun;
  }

  lemma CopyByteKeepsInv(s: Rx)
    requires Inv(s) && Enabled(s, CopyByte)
    ensures Inv(Apply(s, CopyByte))
  {
    hide Contents, Occupied, ReadRun;
    var o, k := s.reader.out, |s.reader.got|;
    assert s.buf[o..o + k] + [s.buf[o + k]] == s.buf[o..o + k + 1];
  }

  lemma StepKeepsInv(s: Rx, step: RxStep)
    requires Inv(s) && Enabled(s, step)
    ensures Inv(Apply(s, step))
  {
    match step
    case Store(b) => StoreKeepsInv(s, b);
    case ReadOut(space) => ReadOutKeepsInv(s, space);
    case Commit => CommitKeepsInv(s);
    case CopyByte => CopyByteKeepsInv(s);
    case _ =>
  }

  predicate Legal(s: Rx, steps: seq<RxStep>)
    decreases |steps|, 0
  {
    steps == [] || (Legal(s, steps[..|steps| - 1]) && Enabled(Exec(s, steps[..|steps| - 1]), steps[|steps| - 1]))
  }

  function Exec(s: Rx, steps: seq<RxStep>): Rx
    requires Legal(s, steps)
    decreases |steps|, 1
  {
    if steps == [] then s else Apply(Exec(s, steps[..|steps| - 1]), steps[|steps| - 1])
  }

  lemma {:induction false} RunKeepsInv(s: Rx, steps: seq<RxStep>)
    requires Inv(s) && Legal(s, steps)
    ensures Inv(Exec(s, steps))
  {
    if steps != [] {
      RunKeepsInv(s, steps[..|steps| - 1]);
      StepKeepsInv(Exec(s, steps[..|steps| - 1]), steps[|steps| - 1]);
    }
  }

  /**
   In every state of every run: no byte is lost, duplicated or reordered; at
   least one slot is free; and a masked interrupt means a full ring or a reader
   that still owes the re-enable.
   */
  lemma LosslessFifo(n: nat, steps: seq<RxStep>)
    requires n > 1 && Legal(Initial(n), steps)
    ensures var s := Exec(Initial(n), steps);
            && Bounded(s)
            && s.delivered + Contents(s.buf, s.out, s.inn) == s.accepted
            && |Contents(s.buf, s.out, s.inn)| <= |s.buf| - 1
            && (!s.re ==> Full(s) || s.taken || s.owed > 0)
  {
    RunKeepsInv(Initial(n), steps);
  }

  /** Once no reader is between taking data and re-enabling, a masked interrupt means the ring is full. */
  lemma MaskedMeansFull(n: nat, steps: seq<RxStep>)
    requires n > 1 && Legal(Initial(n), steps)
    requires var s := Exec(Initial(n), steps); s.reader.NoReader? && s.owed == 0
    ensures var s := Exec(Initial(n), steps);
            Bounded(s) && (!s.re ==> Occupied(|s.buf|, s.out, s.inn) == |s.buf| - 1)
  {
    RunKeepsInv(Initial(n), steps);
    var s := Exec(Initial(n), steps);
    NextSlot(|s.buf|, s.inn);
  }
}

/** The transmit ring under every interleaving of the interrupt routine and any number of writers. */
module TransmitRing {
  import opened CircularBuffer

  datatype Writer =
    | NoWriter
    | LoopTop
    | HasIn(inn: nat)
    | Copying(inn: nat, out: nat, bytes: seq<Byte>, done: nat)  // `out` is the consumer's index as it was read

  datatype Tx = Tx(
    buf: seq<Byte>, inn: nat, out: nat,
    we: bool,              // transmit interrupt enabled
    accepted: seq<Byte>,   // every byte a writer has published
    sent: seq<Byte>,       // every byte given to the device
    writer: Writer,
    published: bool)       // the lock holder has published data and not yet re-enabled the interrupt

  datatype TxStep =
    | Send                 // interrupt: one byte to the device
    | Mask                 // interrupt: nothing left to send
    | Acquire
    | ReadIn
    | ReadOut(bytes: seq<Byte>)
    | CopyByte
    | Commit
    | Reenable
    | Release

  predicate Bounded(s: Tx) {
    1 < |s.buf| && s.inn < |s.buf| && s.out < |s.buf|
  }

  predicate Enabled(s: Tx, step: TxStep) {
    && Bounded(s)
    && match step
       case Send => s.out != s.inn
       case Mask => s.out == s.inn
       case Acquire => s.writer.NoWriter?
       case ReadIn => s.writer.LoopTop?
       case ReadOut(bytes) => s.writer.HasIn? && s.writer.inn < |s.buf| && bytes != []
       case CopyByte => s.writer.Copying? && s.writer.done < |s.writer.bytes| && s.writer.inn + s.writer.done < |s.buf|
       case Commit => s.writer.Copying? && s.writer.done == |s.writer.bytes|
       case Reenable => s.writer.LoopTop?
       case Release => s.writer.LoopTop? && !s.published
  }

  function Apply(s: Tx, step: TxStep): Tx
    requires Enabled(s, step)
  {
    match step
    case Send => s.(sent := s.sent + [s.buf[s.out]], out := Next(|s.buf|, s.out))
    case Mask => s.(we := false)
    case Acquire => s.(writer := LoopTop)
    case ReadIn => s.(writer := HasIn(s.inn))
    case ReadOut(bytes) =>
      var n := WriteRun(|s.buf|, s.writer.inn, s.out);
      if n == 0 then s.(writer := LoopTop)
      else s.(writer := Copying(s.writer.inn, s.out, if n > |bytes| then bytes else bytes[..n], 0))
    case CopyByte =>
      s.(buf := s.buf[s.writer.inn + s.writer.done := s.writer.bytes[s.writer.done]],
         writer := s.writer.(done := s.writer.done + 1))
    case Commit =>
      s.(inn := (s.writer.inn + |s.writer.bytes|) % |s.buf|, accepted := s.accepted + s.writer.bytes,
         published := true, writer := LoopTop)
    case Reenable => s.(we := true, published := false)
    case Release => s.(writer := NoWriter)
  }

  function Initial(n: nat): Tx
    requires n > 1
  {
    Tx(seq(n, _ => 0), 0, 0, false, [], [], NoWriter, false)
  }

  /** The consumer's index may have moved on since it was read, which only frees more slots. */
  predicate WriterOk(s: Tx)
    requires Bounded(s)
  {
    match s.writer
    case NoWriter => !s.published
    case LoopTop => true
    case HasIn(i) => i == s.inn
    case Copying(i, _, bytes, done) =>
      && i == s.inn && 0 < |bytes| <= WriteRun(|s.buf|, s.inn, s.out)
      && done <= |bytes| && s.buf[i..i + done] == bytes[..done]
  }

  predicate Inv(s: Tx) {
    && Bounded(s)
    && WriterOk(s)
    && s.sent + Contents(s.buf, s.out, s.inn) == s.accepted
    && (!s.we ==> s.out == s.inn || s.published)
  }

  lemma SendKeepsInv(s: Tx)
    requires Inv(s) && Enabled(s, Send)
    ensures Inv(Apply(s, Send))
  {
    WriteRunGrows(|s.buf|, s.inn, s.out);
    ConsumeOne(s.sent, s.buf, s.out, s.inn);
    hide WriteRun, Occupied, Contents, ReadRun, Next;
  }

  lemma CopyByteKeepsInv(s: Tx)
    requires Inv(s) && Enabled(s, CopyByte)
    ensures Inv(Apply(s, CopyByte))
  {
    var i, k := s.writer.inn, s.writer.done;
    FreeSlotsDoNotCount(s.buf, s.out, s.inn, i + k, s.writer.bytes[k]);
    PrefixGrows(s.buf, i, s.writer.bytes, k);
    hide WriteRun, Contents, Occupied;
  }

  lemma PrefixGrows(buf: seq<Byte>, i: nat, bytes: seq<Byte>, k: nat)
    requires i + k < |buf| && k < |bytes| && buf[i..i + k] == bytes[..k]
    ensures buf[i + k := bytes[k]][i..i + k + 1] == bytes[..k + 1]
  {
    var buf' := buf[i + k := bytes[k]];
    assert buf'[i..i + k + 1] == buf[i..i + k] + [bytes[k]];
    assert bytes[..k + 1] == bytes[..k] + [bytes[k]];
  }

  /** A free slot is not part of the contents. */
  lemma FreeSlotsDoNotCount(buf: seq<Byte>, out: nat, inn: nat, j: nat, b: Byte)
    requires out < |buf| && inn < |buf| && inn <= j < inn + WriteRun(|buf|, inn, out) && j < |buf|
    ensures Contents(buf[j := b], out, inn) == Contents(buf, out, inn)
  {
    WriteRunIsFree(|buf|, inn, out);
  }

  /** Publishing never lets the producer's index catch up with the consumer's. */
  lemma CommitKeepsInv(s: Tx)
    requires Inv(s) && Enabled(s, Commit)
    ensures Inv(Apply(s, Commit))
    ensures Apply(s, Commit).inn != s.out
  {
    Publish(s.sent, s.buf, s.out, s.inn, s.writer.bytes);
    hide Contents, Occupied, WriteRun;
  }

  lemma Publish(sent: seq<Byte>, buf: seq<Byte>, out: nat, inn: nat, bytes: seq<Byte>)
    requires out < |buf| && inn < |buf| && 0 < |bytes| <= WriteRun(|buf|, inn, out)
    requires inn + |bytes| <= |buf| ==> buf[inn..inn + |bytes|] == bytes[..|bytes|]
    ensures var inn' := (inn + |bytes|) % |buf|;
            && inn' < |buf| && inn' != out
            && sent + Contents(buf, out, inn') == sent + Contents(buf, out, inn) + bytes
  {
    WriteRunIsFree(|buf|, inn, out);
    Advance(|buf|, inn, |bytes|);
    assert bytes[..|bytes|] == bytes;
    Append(buf, buf, out, inn, bytes);
    hide Contents, Occupied;
    assert sent + (Contents(buf, out, inn) + bytes) == sent + Contents(buf, out, inn) + bytes;
  }

  lemma StepKeepsInv(s: Tx, step: TxStep)
    requires Inv(s) && Enabled(s, step)
    ensures Inv(Apply(s, step))
  {
    match step
    case Send => SendKeepsInv(s);
    case CopyByte => CopyByteKeepsInv(s);
    case Commit => CommitKeepsInv(s);
    case _ =>
  }

  predicate Legal(s: Tx, steps: seq<TxStep>)
    decreases |steps|, 0
  {
    steps == [] || (Legal(s, steps[..|steps| - 1]) && Enabled(Exec(s, steps[..|steps| - 1]), steps[|steps| - 1]))
  }

  function Exec(s: Tx, steps: seq<TxStep>): Tx
    requires Legal(s, steps)
    decreases |steps|, 1
  {
    if steps == [] then s else Apply(Exec(s, steps[..|steps| - 1]), steps[|steps| - 1])
  }

  lemma {:induction false} RunKeepsInv(s: Tx, steps: seq<TxStep>)
    requires Inv(s) && Legal(s, steps)
    ensures Inv(Exec(s, steps))
  {
    if steps != [] {
      RunKeepsInv(s, steps[..|steps| - 1]);
      StepKeepsInv(Exec(s, steps[..|steps| - 1]), steps[|steps| - 1]);
    }
  }

  /**
   In every state of every run: what was sent, followed by the ring, is what
   writers published; and a masked interrupt means an empty ring or a writer
   between publishing and re-enabling.
   */
  lemma LosslessFifo(n: nat, steps: seq<TxStep>)
    requires n > 1 && Legal(Initial(n), steps)
    ensures var s := Exec(Initial(n), steps);
            && Bounded(s)
            && s.sent + Contents(s.buf, s.out, s.inn) == s.accepted
            && |Contents(s.buf, s.out, s.inn)| <= |s.buf| - 1
            && (!s.we ==> s.out == s.inn || s.published)
            && (s.writer.NoWriter? && !s.we ==> s.sent == s.accepted)
  {
    RunKeepsInv(Initial(n), steps);
    var s := Exec(Initial(n), steps);
    if s.writer.NoWriter? && !s.we {
      assert Contents(s.buf, s.out, s.inn) == [];
    }
  }
}
