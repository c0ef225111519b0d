/**
 The transmit half of the JTAG UART driver: the ring that `Write` fills and the
 interrupt routine empties into the device.
 */
module JtagUartTransmit {
  import opened CircularBuffer
  import T = TransmitRing

  datatype Outcome = Bytes(n: nat) | WouldBlock | IoError

  /** The effect of interrupts between two steps of a writer. */
  ghost predicate Interrupted(s: T.Tx, s': T.Tx) {
    && s'.inn == s.inn && s'.buf == s.buf && s'.accepted == s.accepted
    && s'.writer == s.writer && s'.published == s.published && s.sent <= s'.sent
  }

  lemma Extend(s0: T.Tx, steps: seq<T.TxStep>, step: T.TxStep)
    requires T.Legal(s0, steps) && T.Enabled(T.Exec(s0, steps), step)
    ensures T.Legal(s0, steps + [step]) && T.Exec(s0, steps + [step]) == T.Apply(T.Exec(s0, steps), step)
  {
    assert (steps + [step])[..|steps + [step]| - 1] == steps;
  }

  class TransmitHalf {
    const buf: array<Byte>
    var txIn: nat
    var txOut: nat
    var we: bool    // the transmit bit of the interrupt enable word

    ghost var st: T.Tx
    ghost var steps: seq<T.TxStep>

    ghost predicate Matches()
      reads this, buf
    {
      && 1 < buf.Length && txIn < buf.Length && txOut < buf.Length
      && st.buf == buf[..] && st.inn == txIn && st.out == txOut && st.we == we
    }

    /** The variables are those of a state reached by a run of the ring's state machine. */
    ghost predicate Valid()
      reads this, buf
    {
      && Matches()
      && T.Legal(T.Initial(buf.Length), steps) && st == T.Exec(T.Initial(buf.Length), steps)
      && T.Inv(st)
    }

    constructor (n: nat)
      requires n > 1
      ensures Valid() && fresh(buf) && buf.Length == n && steps == [] && st == T.Initial(n)
    {
      buf := new Byte[n](_ => 0);
      txIn, txOut, we := 0, 0, false;
      st, steps := T.Initial(n), [];
      new;
      assert buf[..] == T.Initial(n).buf;
    }

    /**
     The consumer's index was read as `out`, which left no free slot: everything
     published fills the ring even counting from `sentBefore` bytes sent.
     */
    ghost predicate FoundFull(out: nat, sentBefore: nat)
      reads this, buf
    {
      && txIn < buf.Length && Next(buf.Length, txIn) == out
      && sentBefore + buf.Length - 1 <= |st.accepted|
    }

    /** Record that the state machine has taken a step. */
    ghost method Take(step: T.TxStep)
      requires 1 < buf.Length && T.Legal(T.Initial(buf.Length), steps) && st == T.Exec(T.Initial(buf.Length), steps)
      requires T.Inv(st) && T.Enabled(st, step)
      modifies `st, `steps
      ensures st == T.Apply(old(st), step) && steps == old(steps) + [step]
      ensures T.Legal(T.Initial(buf.Length), steps) && st == T.Exec(T.Initial(buf.Length), steps)
      ensures T.Inv(st)
    {
      hide T.Inv, T.Legal, T.Exec;
      Extend(T.Initial(buf.Length), steps, step);
      T.StepKeepsInv(st, step);
      st, steps := T.Apply(st, step), steps + [step];
    }

    /** The transmit part of the interrupt routine, with room for `room` characters in the device. */
    method ServiceTransmit(room: nat) returns (out: seq<Byte>)
      requires Valid()
      modifies `txOut, `we, `st, `steps
      ensures Valid() && Interrupted(old(st), st) && st.sent == old(st.sent) + out
      ensures |out| == if room < |old(Contents(buf[..], txOut, txIn))| then room else |old(Contents(buf[..], txOut, txIn))|
      ensures we == (old(we) && room <= |old(Contents(buf[..], txOut, txIn))|)
    {
      hide T.Inv, T.Legal, T.Exec, Contents;
      out := [];
      var space := room;
      while space > 0 && txOut != txIn
        invariant Valid() && Interrupted(old(st), st) && st.sent == old(st.sent) + out
        invariant |out| + space == room && we == old(we)
        invariant |out| + Occupied(buf.Length, txOut, txIn) == old(Occupied(buf.Length, txOut, txIn))
        decreases space
      {
        NextSlot(buf.Length, txOut);
        Take(T.Send);
        out := out + [buf[txOut]];
        txOut := (txOut + 1) % buf.Length;
        space := space - 1;
      }
      if space > 0 {
        Take(T.Mask);
        we := false;
      }
    }

    /** Anything that may happen while the writer is between two accesses to the shared state. */
    method Others()
      requires Valid()
      modifies `txOut, `we, `st, `steps
      ensures Valid() && Interrupted(old(st), st)
    {
      hide T.Inv, T.Legal, T.Exec;
      var times :| 0 <= times;
      for i := 0 to times
        invariant Valid() && Interrupted(old(st), st)
      {
        var room :| 0 <= room;
        var out := ServiceTransmit(room);
      }
    }

    /** Waiting, on the event flags or by spinning. */
    method Wait() returns (ghost waited: bool)
      requires Valid()
      modifies `txOut, `we, `st, `steps
      ensures Valid() && Interrupted(old(st), st) && waited
    {
      Others();
      waited := true;
    }

    /** Any number of other writers may run complete calls while this one does not hold the lock. */
    method OtherWriters()
      requires Valid() && st.writer.NoWriter?
      modifies this, buf
      ensures Valid() && st.writer.NoWriter? && old(st.sent) <= st.sent && old(st.accepted) <= st.accepted
    {
      hide T.Inv, T.Legal, T.Exec;
      var times :| 0 <= times;
      for i := 0 to times
        invariant Valid() && st.writer.NoWriter? && old(st.sent) <= st.sent && old(st.accepted) <= st.accepted
      {
        var bytes: seq<Byte>, nonblock := *, *;
        Others();
        NothingPublished(st);
        Take(T.Acquire);
        var ptr, _ := WriteLocked(bytes, nonblock);
        Take(T.Release);
      }
      Others();
    }

    /**
     Write `bytes`.  `start` is what had been accepted when the call obtained
     the lock, the calls of other writers up to then included.  Returns how many
     bytes were accepted: a prefix, which is appended to the byte stream the
     interrupt routine sends.  A call that may block returns short only after a
     wait that left the ring full.
     */
    method Write(bytes: seq<Byte>, nonblock: bool)
      returns (r: Outcome, ghost start: seq<Byte>, ghost waited: bool)
      requires Valid() && st.writer.NoWriter?
      modifies this, buf
      ensures Valid() && st.writer.NoWriter? && old(st.sent) <= st.sent && old(st.accepted) <= start
      ensures r.Bytes? ==> 0 < r.n <= |bytes| && st.accepted == start + bytes[..r.n]
      ensures !r.Bytes? ==> st.accepted == start && (r.WouldBlock? <==> nonblock)
      ensures |bytes| <= Taken(r) || |old(st.sent)| + buf.Length - 1 <= |st.accepted|
      ensures we || st.sent == st.accepted
      ensures nonblock ==> !waited
      ensures !nonblock && Taken(r) < |bytes| ==> waited && IsFull(st)
    {
      hide T.Inv, T.Legal, T.Exec;
      OtherWriters();
      NothingPublished(st);
      Take(T.Acquire);
      start := st.accepted;
      var ptr;
      ptr, waited := WriteLocked(bytes, nonblock);
      Take(T.Release);
      NothingPublished(st);
      if ptr > 0 {
        return Bytes(ptr), start, waited;
      }
      if nonblock {
        return WouldBlock, start, waited;
      }
      return IoError, start, waited;
    }

    /** The part of the call that runs under the write lock. */
    method WriteLocked(bytes: seq<Byte>, nonblock: bool) returns (ptr: nat, ghost waited: bool)
      requires Valid() && st.writer.LoopTop? && !st.published
      modifies this, buf
      ensures Valid() && st.writer.LoopTop? && !st.published && old(st.sent) <= st.sent
      ensures ptr <= |bytes| && st.accepted == old(st.accepted) + bytes[..ptr]
      ensures ptr == |bytes| || |old(st.sent)| + buf.Length - 1 <= |st.accepted|
      ensures nonblock ==> !waited
      ensures !nonblock && ptr < |bytes| ==> waited && IsFull(st)
    {
      hide T.Inv, T.Legal, T.Exec;
      ptr, waited := 0, false;
      assert bytes[..0] == [];
      var first := true;
      while first || ptr < |bytes|
        invariant Valid() && st.writer.LoopTop? && !st.published && old(st.sent) <= st.sent
        invariant ptr <= |bytes| && st.accepted == old(st.accepted) + bytes[..ptr]
        invariant nonblock ==> !waited
        invariant !first ==> ptr < |bytes| ==> |old(st.sent)| + buf.Length - 1 <= |st.accepted|
        decreases |bytes| - ptr, if IsFull(st) then 1 else 0, if first then 1 else 0
      {
        var out;
        ptr, out := FillAndKick(bytes, ptr);
        first := false;
        if ptr < |bytes| {
          if nonblock {
            break;
          }
          waited := Wait();
          FullByIndices(st);
          if out == txOut {
            break;
          }
        }
      }
    }

    /** Copy what fits, then set the transmit interrupt bit so that it is sent. */
    method FillAndKick(bytes: seq<Byte>, start: nat) returns (ptr: nat, out: nat)
      requires Valid() && st.writer.LoopTop? && start <= |bytes|
      modifies this, buf
      ensures Valid() && st.writer.LoopTop? && !st.published && old(st.sent) <= st.sent
      ensures start <= ptr <= |bytes| && st.accepted == old(st.accepted) + bytes[start..ptr]
      ensures ptr < |bytes| ==> FoundFull(out, |old(st.sent)|)
      ensures start < |bytes| && !IsFull(old(st)) ==> start < ptr
    {
      hide T.Inv, T.Legal, T.Exec, IsFull;
      ptr, out := Fill(bytes, start);
      Others();
      Take(T.Reenable);
      we := true;
    }

    /** Copy as much as fits without waiting; `out` is the consumer's index as last read. */
    method Fill(bytes: seq<Byte>, start: nat) returns (ptr: nat, out: nat)
      requires Valid() && st.writer.LoopTop? && start <= |bytes|
      modifies this, buf
      ensures Valid() && st.writer.LoopTop? && old(st.sent) <= st.sent
      ensures start <= ptr <= |bytes| && st.accepted == old(st.accepted) + bytes[start..ptr]
      ensures ptr < |bytes| ==> FoundFull(out, |old(st.sent)|)
      ensures start < |bytes| && !IsFull(old(st)) ==> start < ptr
    {
      hide T.Inv, T.Legal, T.Exec;
      ptr, out := start, 0;
      assert bytes[start..start] == [];
      var n := 1;
      while n > 0 && ptr < |bytes|
        invariant Valid() && st.writer.LoopTop? && old(st.sent) <= st.sent
        invariant start <= ptr <= |bytes| && st.accepted == old(st.accepted) + bytes[start..ptr]
        invariant n == 0 ==> FoundFull(out, |old(st.sent)|)
        invariant ptr == start && !IsFull(old(st)) ==> n > 0 && !IsFull(st)
        decreases |bytes| - ptr, n
      {
        n, out := PushRun(bytes[ptr..]);
        assert bytes[start..ptr] + bytes[ptr..][..n] == bytes[start..ptr + n];
        ptr := ptr + n;
      }
    }

    /** One pass of the copy loop: read both indices, copy what fits in one run, publish the producer's index. */
    method PushRun(rest: seq<Byte>) returns (n: nat, out: nat)
      requires Valid() && st.writer.LoopTop? && rest != []
      modifies this, buf
      ensures Valid() && st.writer.LoopTop? && old(st.sent) <= st.sent && n <= |rest|
      ensures st.accepted == old(st.accepted) + rest[..n]
      ensures n == 0 ==> FoundFull(out, |old(st.sent)|)
      ensures !IsFull(old(st)) ==> n > 0
    {
      hide T.Inv, T.Legal, T.Exec;
      var inn;
      n, inn, out := Snapshot(rest);
      if n > 0 {
        CopyBytes(rest, n, inn);
        assert rest[..n][..n] == rest[..n];
        Take(T.Commit);
        txIn := (inn + n) % buf.Length;
      } else {
        assert rest[..0] == [];
      }
    }

    /** Read the producer's index, then the consumer's, and apply the three-way formula. */
    method Snapshot(rest: seq<Byte>) returns (n: nat, inn: nat, out: nat)
      requires Valid() && st.writer.LoopTop? && rest != []
      modifies this, buf
      ensures Valid() && Moved(old(st), st) && n <= |rest| && inn == txIn == old(txIn)
      ensures if n == 0 then st.writer.LoopTop? && FoundFull(out, |old(st.sent)|)
              else st.writer == T.Copying(inn, out, rest[..n], 0)
      ensures !IsFull(old(st)) ==> n > 0
    {
      hide T.Inv, T.Legal, T.Exec, WriteRun, Moved, IsFull;
      inn, out := ReadIndices(rest);
      n := SpaceFor(inn, out);
      if n > |rest| {
        n := |rest|;
        assert rest[..n] == rest;
      }
    }

    /** The two index reads, with interrupts before each of them. */
    method ReadIndices(rest: seq<Byte>) returns (inn: nat, out: nat)
      requires Valid() && st.writer.LoopTop? && rest != []
      modifies this, buf
      ensures Valid() && Moved(old(st), st) && inn == txIn == old(txIn) && inn < buf.Length && out < buf.Length
      ensures var space := WriteRun(buf.Length, inn, out);
              && (!IsFull(old(st)) ==> space > 0)
              && if space == 0 then st.writer.LoopTop? && FoundFull(out, |old(st.sent)|)
                 else st.writer == T.Copying(inn, out, if space > |rest| then rest else rest[..space], 0)
    {
      hide T.Inv, T.Legal, T.Exec;
      Others();
      inn := txIn;
      Take(T.ReadIn);
      Others();
      out := txOut;
      Take(T.ReadOut(rest));
      WriteRunIsFree(buf.Length, inn, out);
      SpaceOnlyGrows(old(st), st);
      hide IsFull, WriteRun;
    }

    /** The three-way formula. */
    method SpaceFor(inn: nat, out: nat) returns (n: nat)
      requires inn < buf.Length && out < buf.Length
      ensures n == WriteRun(buf.Length, inn, out)
    {
      if inn < out {
        n := out - 1 - inn;
      } else if out > 0 {
        n := buf.Length - inn;
      } else {
        n := buf.Length - 1 - inn;
      }
    }

    /** The copy itself; the interrupt routine may run before every byte. */
    method CopyBytes(rest: seq<Byte>, n: nat, inn: nat)
      requires Valid() && 0 < n <= |rest| && st.writer.Copying? && st.writer.inn == inn
      requires st.writer.bytes == rest[..n] && st.writer.done == 0
      modifies this, buf
      ensures Valid() && Moved(old(st), st) && txIn == old(txIn)
      ensures st.writer == old(st.writer).(done := n)
    {
      hide T.Inv, T.Legal, T.Exec;
      var k := 0;
      while k < n
        invariant k <= n && Valid() && Moved(old(st), st) && txIn == old(txIn)
        invariant st.writer == old(st.writer).(done := k)
      {
        Others();
        CopyingInBounds(st);
        Take(T.CopyByte);
        buf[inn + k] := rest[k];
        k := k + 1;
      }
    }
  }

  lemma NothingPublished(s: T.Tx)
    requires T.Inv(s) && s.writer.NoWriter?
    ensures !s.published && (s.we || s.sent == s.accepted)
  {
    if !s.we {
      assert Contents(s.buf, s.out, s.inn) == [];
    }
  }

  lemma ContentsLeft(s: T.Tx)
    requires T.Inv(s)
    ensures |Contents(s.buf, s.out, s.inn)| == Occupied(|s.buf|, s.out, s.inn)
  {
  }

  function Taken(r: Outcome): nat {
    match r
    case Bytes(n) => n
    case _ => 0
  }

  ghost predicate IsFull(s: T.Tx) {
    Pending(s) >= |s.buf| - 1
  }

  ghost function Pending(s: T.Tx): int {
    |s.accepted| - |s.sent|
  }

  /** Only the interrupt routine and the writer's private progress have changed the state. */
  ghost predicate Moved(s: T.Tx, s': T.Tx) {
    && s'.inn == s.inn && |s'.buf| == |s.buf| && s'.accepted == s.accepted
    && s'.published == s.published && s.sent <= s'.sent
  }

  lemma CopyingInBounds(s: T.Tx)
    requires T.Inv(s) && s.writer.Copying? && s.writer.done < |s.writer.bytes|
    ensures T.Enabled(s, T.CopyByte)
  {
    WriteRunIsFree(|s.buf|, s.inn, s.out);
  }

  /** What the indices say about fullness is what the byte streams say. */
  lemma FullByIndices(s: T.Tx)
    requires T.Inv(s)
    ensures Pending(s) == Occupied(|s.buf|, s.out, s.inn)
    ensures IsFull(s) <==> Next(|s.buf|, s.inn) == s.out
  {
    WriteRunIsFree(|s.buf|, s.inn, s.out);
  }

  lemma SpaceOnlyGrows(s: T.Tx, s': T.Tx)
    requires T.Inv(s) && T.Inv(s') && Moved(s, s')
    ensures !IsFull(s) ==> Next(|s'.buf|, s'.inn) != s'.out
    ensures Next(|s'.buf|, s'.inn) == s'.out ==> |s.sent| + |s.buf| - 1 <= |s'.accepted|
  {
    FullByIndices(s);
    FullByIndices(s');
  }
}
