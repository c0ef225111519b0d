/**
 The receive half of the JTAG UART driver: the ring that the interrupt routine
 fills and `Read` empties.  Between any two accesses of a reader to the shared
 state the interrupt routine may run, any number of times.
 */
module JtagUartReceive {
  import opened CircularBuffer
  import R = ReceiveRing

  /** What a call returns: a byte count, or one of two negative error codes. */
  datatype Outcome = Bytes(n: nat) | WouldBlock | IoError

  /** The effect of interrupts, and of other readers re-enabling the interrupt, between two steps of a reader. */
  ghost predicate Interrupted(s: R.Rx, s': R.Rx) {
    && s'.out == s.out && s'.delivered == s.delivered && s'.reader == s.reader && s'.taken == s.taken
    && |s'.buf| == |s.buf| && s.accepted <= s'.accepted
  }

  lemma Extend(s0: R.Rx, steps: seq<R.RxStep>, step: R.RxStep)
    requires R.Legal(s0, steps) && R.Enabled(R.Exec(s0, steps), step)
    ensures R.Legal(s0, steps + [step]) && R.Exec(s0, steps + [step]) == R.Apply(R.Exec(s0, steps), step)
  {
    assert (steps + [step])[..|steps + [step]| - 1] == steps;
  }

  /** The device's data register, and a record of what it has given so far. */
  class DataRegister {
    ghost var given: seq<Byte>   // every valid character, in order
    ghost var polls: nat         // how often it was read
    ghost var valid: bool        // whether the last read gave a character
    ghost var left: nat          // how many the last read said are left behind it

    constructor ()
      ensures given == [] && polls == 0
    {
      given, polls, valid, left := [], 0, false, 0;
    }

    /** A character or none, and how many are left; nothing is left behind an invalid one. */
    method Read() returns (v: bool, b: Byte, available: nat)
      modifies this
      ensures given == (if v then old(given) + [b] else old(given)) && polls == old(polls) + 1
      ensures valid == v && left == available && (!v ==> available == 0)
    {
      v, b, available := *, *, *;
      if !v {
        available := 0;
      }
      given := if v then given + [b] else given;
      polls, valid, left := polls + 1, v, available;
    }
  }

  class ReceiveHalf {
    const buf: array<Byte>
    const register: DataRegister
    var rxIn: nat
    var rxOut: nat
    var re: bool     // the receive bit of the interrupt enable word
    var owed: nat    // readers that have released the lock and not yet set that bit again

    ghost var st: R.Rx
    ghost var steps: seq<R.RxStep>

    /** The variables are those of the ring's state, and what it has accepted is what the device gave. */
    ghost predicate Matches()
      reads this, buf, register
    {
      && 1 < buf.Length && rxIn < buf.Length && rxOut < buf.Length
      && st.buf == buf[..] && st.inn == rxIn && st.out == rxOut && st.re == re && st.owed == owed
      && st.accepted == register.given
    }

    /** That state is one reached by a run of the ring's state machine. */
    ghost predicate Valid()
      reads this, buf, register
    {
      && Matches()
      && R.Legal(R.Initial(buf.Length), steps) && st == R.Exec(R.Initial(buf.Length), steps)
      && R.Inv(st)
    }

    constructor (n: nat, device: DataRegister)
      requires n > 1 && device.given == []
      ensures Valid() && fresh(buf) && register == device && buf.Length == n && steps == [] && st == R.Initial(n)
    {
      buf := new Byte[n](_ => 0);
      register := device;
      rxIn, rxOut, re, owed := 0, 0, true, 0;
      st, steps := R.Initial(n), [];
      new;
      assert buf[..] == R.Initial(n).buf;
    }

    /** Record that the state machine has taken a step. */
    ghost method Take(step: R.RxStep)
      requires 1 < buf.Length && R.Legal(R.Initial(buf.Length), steps) && st == R.Exec(R.Initial(buf.Length), steps)
      requires R.Inv(st) && R.Enabled(st, step)
      modifies `st, `steps
      ensures st == R.Apply(old(st), step) && steps == old(steps) + [step]
      ensures R.Legal(R.Initial(buf.Length), steps) && st == R.Exec(R.Initial(buf.Length), steps)
      ensures R.Inv(st)
    {
      hide R.Inv, R.Legal, R.Exec;
      Extend(R.Initial(buf.Length), steps, step);
      R.StepKeepsInv(st, step);
      st, steps := R.Apply(st, step), steps + [step];
    }

    ghost predicate RingFull()
      reads this
    {
      rxIn < buf.Length && Next(buf.Length, rxIn) == rxOut
    }

    /**
     The receive part of the interrupt routine: every character the device gives
     is stored, until it gives none or the ring is full; in a full ring with more
     to come the interrupt is masked.
     */
    method ServiceReceive()
      requires Valid()
      modifies this, buf, register
      ensures Valid() && Interrupted(old(st), st) && owed == old(owed)
      ensures old(register.given) <= register.given
      ensures st.accepted == old(st.accepted) + register.given[|old(register.given)|..]
      ensures RingFull() || !register.valid
      ensures register.polls - old(register.polls) == |register.given| - |old(register.given)| + if RingFull() then 0 else 1
      ensures re == (old(re) && !(RingFull() && (register.polls == old(register.polls) || register.left > 0)))
    {
      hide R.Inv, R.Legal, R.Exec;
      var available: nat := 1;
      while true
        invariant Valid() && Interrupted(old(st), st) && owed == old(owed) && re == old(re)
        invariant old(register.given) <= register.given
        invariant register.polls - old(register.polls) == |register.given| - |old(register.given)|
        invariant available == if register.polls == old(register.polls) then 1 else register.left
        decreases buf.Length - Occupied(buf.Length, rxOut, rxIn)
      {
        var next := (rxIn + 1) % buf.Length;
        if next == rxOut {
          break;
        }
        var valid, b;
        valid, b, available := register.Read();
        if !valid {
          break;
        }
        NextSlot(buf.Length, rxIn);
        Take(R.Store(b));
        buf[rxIn] := b;
        rxIn := (rxIn + 1) % buf.Length;
      }
      if available > 0 {
        Take(R.Mask);
        re := false;
      }
    }

    /** Anything that may happen while a reader is between two accesses to the shared state. */
    method Others(mine: nat)
      requires Valid() && mine <= owed
      modifies this, buf, register
      ensures Valid() && Interrupted(old(st), st) && mine <= owed
    {
      hide R.Inv, R.Legal, R.Exec;
      var times :| 0 <= times;
      for i := 0 to times
        invariant Valid() && Interrupted(old(st), st) && mine <= owed
      {
        if * {
          ServiceReceive();
        } else if owed > mine {
          Take(R.Reenable);
          re := true;
          owed := owed - 1;
        }
      }
    }

    /** Waiting, on the event flags or by spinning. */
    method Wait(mine: nat) returns (ghost waited: bool)
      requires Valid() && mine <= owed
      modifies this, buf, register
      ensures Valid() && Interrupted(old(st), st) && mine <= owed && waited
    {
      Others(mine);
      waited := true;
    }

    /** Any number of other readers may run complete calls while this one does not hold the lock. */
    method OtherReaders(mine: nat)
      requires Valid() && st.reader.NoReader? && mine <= owed
      modifies this, buf, register
      ensures Valid() && st.reader.NoReader? && mine <= owed
      ensures old(st.delivered) <= st.delivered && old(st.accepted) <= st.accepted
    {
      hide R.Inv, R.Legal, R.Exec;
      var times :| 0 <= times;
      for i := 0 to times
        invariant Valid() && st.reader.NoReader? && mine <= owed
        invariant old(st.delivered) <= st.delivered && old(st.accepted) <= st.accepted
      {
        OtherReader(mine);
      }
      Others(mine);
    }

    /** One other call, with a buffer, a size and flags of its own. */
    method OtherReader(mine: nat)
      requires Valid() && st.reader.NoReader? && mine <= owed
      modifies this, buf, register
      ensures Valid() && st.reader.NoReader? && mine <= owed
      ensures old(st.delivered) <= st.delivered && old(st.accepted) <= st.accepted
    {
      hide R.Inv, R.Legal, R.Exec;
      var size: nat, nonblock := *, *;
      var buffer := new Byte[size];
      Others(mine);
      Take(R.Acquire);
      var ptr, _ := ReadLocked(buffer, size, nonblock, mine);
      Take(R.Release);
      if ptr > 0 {
        owed := owed + 1;
      }
    }

    /**
     Read up to `space` bytes.  `start` is what had been delivered when the call
     obtained the lock, the calls of other readers up to then included.  What is
     returned follows it in the byte stream the interrupt routine accepted; a call
     that takes data sets the receive interrupt bit again after giving up the lock.
     A call that may block gives up only after a wait that left the ring empty.
     */
    method Read(buffer: array<Byte>, space: int, nonblock: bool)
      returns (r: Outcome, ghost start: seq<Byte>, ghost waited: bool)
      requires Valid() && st.reader.NoReader? && space <= buffer.Length && buffer != buf
      modifies this, buf, register, buffer
      ensures Valid() && st.reader.NoReader? && old(st.accepted) <= st.accepted && old(st.delivered) <= start
      ensures r.Bytes? ==>
        && 0 < r.n <= space && start + buffer[..r.n] <= st.delivered
        && OnlyChanged(old(buffer[..]), buffer[..], 0, r.n)
        && (r.n == space || |old(st.accepted)| <= |start| + r.n)
        && re
      ensures !r.Bytes? ==>
        && start <= st.delivered && buffer[..] == old(buffer[..])
        && (r.WouldBlock? <==> nonblock)
        && (space > 0 ==> |old(st.accepted)| <= |start|)
        && (space > 0 && !nonblock ==> waited && st.delivered == st.accepted)
      ensures nonblock ==> !waited
    {
      hide R.Inv, R.Legal, R.Exec;
      OtherReaders(0);
      Take(R.Acquire);
      start := st.delivered;
      var ptr;
      ptr, waited := ReadLocked(buffer, space, nonblock, 0);
      Take(R.Release);
      if ptr > 0 {
        owed := owed + 1;
        ReenableReceive();
        return Bytes(ptr), start, waited;
      }
      if nonblock {
        return WouldBlock, start, waited;
      }
      return IoError, start, waited;
    }

    /** With interrupts off for the two statements, set the receive bit and write the enable word. */
    method ReenableReceive()
      requires Valid() && st.reader.NoReader? && owed > 0
      modifies this, buf, register
      ensures Valid() && st.reader.NoReader? && re
      ensures old(st.delivered) <= st.delivered && old(st.accepted) <= st.accepted
    {
      hide R.Inv, R.Legal, R.Exec;
      OtherReaders(1);
      Take(R.Reenable);
      owed := owed - 1;
      re := true;
    }

    /** The part of the call that runs under the read lock. */
    method ReadLocked(buffer: array<Byte>, space: int, nonblock: bool, mine: nat) returns (ptr: nat, ghost waited: bool)
      requires Valid() && st.reader.LoopTop? && !st.taken && space <= buffer.Length && buffer != buf && mine <= owed
      modifies this, buf, register, buffer
      ensures Valid() && st.reader.LoopTop? && (st.taken <==> ptr > 0) && mine <= owed
      ensures old(st.accepted) <= st.accepted
      ensures ptr > 0 ==> ptr <= space
      ensures ptr <= buffer.Length && st.delivered == old(st.delivered) + buffer[..ptr]
      ensures OnlyChanged(old(buffer[..]), buffer[..], 0, ptr)
      ensures ptr == space || space <= 0 || |old(st.accepted)| <= |st.delivered|
      ensures nonblock ==> !waited
      ensures !nonblock && space > 0 && ptr == 0 ==> waited && st.delivered == st.accepted
    {
      hide R.Inv, R.Legal, R.Exec;
      ptr, waited := 0, false;
      assert buffer[..0] == [];
      while space > 0
        invariant Valid() && st.reader.LoopTop? && !st.taken && ptr == 0 && mine <= owed
        invariant old(st.accepted) <= st.accepted && st.delivered == old(st.delivered)
        invariant buffer[..] == old(buffer[..]) && (nonblock ==> !waited)
        decreases if |st.delivered| < |st.accepted| then 0 else 1
      {
        var inn;
        ptr, inn := Drain(buffer, space, mine);
        if ptr != 0 {
          break;
        }
        if nonblock {
          break;
        }
        waited := Wait(mine);
        NonEmpty(st);
        SnapshotEmpty(st);
        if inn == rxIn {
          break;
        }
      }
    }

    /** Read as much as possible without waiting. */
    method Drain(buffer: array<Byte>, space: nat, mine: nat) returns (ptr: nat, inn: nat)
      requires Valid() && st.reader.LoopTop? && !st.taken && 0 < space <= buffer.Length && buffer != buf && mine <= owed
      modifies this, buf, register, buffer
      ensures Valid() && st.reader.LoopTop? && (st.taken <==> ptr > 0) && mine <= owed
      ensures old(st.accepted) <= st.accepted && ptr <= space
      ensures st.delivered == old(st.delivered) + buffer[..ptr]
      ensures OnlyChanged(old(buffer[..]), buffer[..], 0, ptr)
      ensures ptr == space || (inn == rxOut && |old(st.accepted)| <= |st.delivered|)
    {
      hide R.Inv, R.Legal, R.Exec;
      ptr, inn := 0, 0;
      assert buffer[..0] == [];
      var left := space;
      var n := 1;
      while n > 0 && left > 0
        invariant Valid() && st.reader.LoopTop? && (st.taken <==> ptr > 0) && mine <= owed
        invariant old(st.accepted) <= st.accepted && ptr + left == space
        invariant st.delivered == old(st.delivered) + buffer[..ptr]
        invariant OnlyChanged(old(buffer[..]), buffer[..], 0, ptr)
        invariant n == 0 ==> inn == rxOut && |old(st.accepted)| <= |st.delivered|
        decreases left, n
      {
        ghost var before := buffer[..];
        n, inn := CopyRun(buffer, ptr, left, mine);
        assert buffer[..ptr] == before[..ptr];
        assert buffer[..ptr + n] == buffer[..ptr] + buffer[ptr..ptr + n];
        ptr := ptr + n;
        left := left - n;
      }
    }

    /**
     One pass of the copy loop: read both indices, copy the contiguous run
     byte by byte, publish the new consumer's index.
     */
    method CopyRun(buffer: array<Byte>, at: nat, space: nat, mine: nat) returns (n: nat, inn: nat)
      requires Valid() && st.reader.LoopTop? && space > 0 && at + space <= buffer.Length && buffer != buf && mine <= owed
      modifies this, buf, register, buffer
      ensures Valid() && st.reader.LoopTop? && old(st.accepted) <= st.accepted && mine <= owed
      ensures n <= space && st.delivered == old(st.delivered) + buffer[at..at + n]
      ensures OnlyChanged(old(buffer[..]), buffer[..], at, at + n)
      ensures if n > 0 then st.taken else st.taken == old(st.taken) && inn == rxOut && |old(st.accepted)| <= |st.delivered|
    {
      hide R.Inv, R.Legal, R.Exec;
      var out;
      n, inn, out := Snapshot(space, mine);
      if n > 0 {
        CopyBytes(buffer, at, n, out, mine);
        Take(R.Commit);
        rxOut := (out + n) % buf.Length;
      } else {
        assert buffer[at..at] == [];
      }
    }

    /** Read the producer's index, then the consumer's, and work out how much can be copied in one go. */
    method Snapshot(space: nat, mine: nat) returns (n: nat, inn: nat, out: nat)
      requires Valid() && st.reader.LoopTop? && space > 0 && mine <= owed
      modifies this, buf, register
      ensures Valid() && Moved(old(st), st) && out == rxOut == old(rxOut) && n <= space && mine <= owed
      ensures if n == 0 then st.reader.LoopTop? && inn == out && |old(st.accepted)| <= |st.delivered|
              else st.reader == R.Copying(inn, out, n, [])
    {
      hide R.Inv, R.Legal, R.Exec;
      Others(mine);
      inn := rxIn;
      Take(R.ReadIn);
      ghost var seen := st;
      Others(mine);
      SnapshotIsStale(seen, st);
      out := rxOut;
      Take(R.ReadOut(space));
      n := if inn >= out then inn - out else buf.Length - out;
      if n > space {
        n := space;
      }
      SnapshotEmpty(seen);
    }

    /** The copy itself; the interrupt routine may run before every byte. */
    method CopyBytes(buffer: array<Byte>, at: nat, n: nat, out: nat, mine: nat)
      requires Valid() && at + n <= buffer.Length && buffer != buf && mine <= owed
      requires st.reader.Copying? && st.reader.out == out && st.reader.n == n && st.reader.got == []
      modifies this, buf, register, buffer
      ensures Valid() && Moved(old(st), st) && rxOut == old(rxOut) && mine <= owed
      ensures st.reader == old(st.reader).(got := buffer[at..at + n])
      ensures OnlyChanged(old(buffer[..]), buffer[..], at, at + n)
    {
      hide R.Inv, R.Legal, R.Exec;
      var k := 0;
      while k < n
        invariant k <= n && Valid() && Moved(old(st), st) && rxOut == old(rxOut) && mine <= owed
        invariant st.reader == old(st.reader).(got := buffer[at..at + k])
        invariant OnlyChanged(old(buffer[..]), buffer[..], at, at + k)
      {
        ghost var before := buffer[..];
        CopyByte(buffer, at + k, k, out, mine);
        OneMore(old(buffer[..]), before, buffer[..], at, k);
        k := k + 1;
      }
    }

    method CopyByte(buffer: array<Byte>, to: nat, k: nat, out: nat, mine: nat)
      requires Valid() && to < buffer.Length && buffer != buf && mine <= owed
      requires st.reader.Copying? && st.reader.out == out && |st.reader.got| == k < st.reader.n
      modifies this, buf, register, buffer
      ensures Valid() && Moved(old(st), st) && rxOut == old(rxOut) && mine <= owed
      ensures buffer[..] == old(buffer[..])[to := buffer[to]]
      ensures st.reader == old(st.reader).(got := old(st.reader.got) + [buffer[to]])
    {
      hide R.Inv, R.Legal, R.Exec;
      Others(mine);
      CopyingInBounds(st);
      Take(R.CopyByte);
      buffer[to] := buf[out + k];
    }
  }

  /** One more byte of the run has been copied into place. */
  lemma OneMore(first: seq<Byte>, before: seq<Byte>, after: seq<Byte>, at: nat, k: nat)
    requires at + k < |before| && |first| == |before| && OnlyChanged(first, before, at, at + k)
    requires |after| == |before| && after == before[at + k := after[at + k]]
    ensures after[at..at + k + 1] == before[at..at + k] + [after[at + k]]
    ensures OnlyChanged(first, after, at, at + k + 1)
  {
  }

  ghost predicate OnlyChanged(a: seq<Byte>, a': seq<Byte>, lo: nat, hi: nat) {
    |a'| == |a| && forall i :: 0 <= i < |a| && !(lo <= i < hi) ==> a'[i] == a[i]
  }

  /** Only the interrupt routine and the reader's private progress have changed the state. */
  ghost predicate Moved(s: R.Rx, s': R.Rx) {
    && s'.out == s.out && s'.delivered == s.delivered && s'.taken == s.taken
    && |s'.buf| == |s.buf| && s.accepted <= s'.accepted
  }

  lemma NonEmpty(s: R.Rx)
    requires R.Inv(s)
    ensures s.inn < |s.buf| && s.out < |s.buf|
    ensures s.inn != s.out <==> |s.delivered| < |s.accepted|
  {
  }

  lemma CopyingInBounds(s: R.Rx)
    requires R.Inv(s) && s.reader.Copying? && |s.reader.got| < s.reader.n
    ensures R.Enabled(s, R.CopyByte)
  {
  }

  lemma SnapshotIsStale(s: R.Rx, s': R.Rx)
    requires R.Inv(s) && R.Inv(s') && Interrupted(s, s') && s.reader.HasIn?
    ensures s'.reader.inn < |s'.buf|
  {
  }

  /** An empty snapshot means everything accepted by then has been delivered. */
  lemma SnapshotEmpty(s: R.Rx)
    requires R.Inv(s)
    ensures s.inn == s.out ==> s.delivered == s.accepted
  {
  }
}
