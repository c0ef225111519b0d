/** The interrupt routine as a whole: it serves both halves for as long as the device asks. */
module JtagUartInterrupt {
  import opened CircularBuffer
  import R = ReceiveRing
  import T = TransmitRing
  import opened JtagUartReceive
  import JtagUartTransmit

  /** One value of the control register: the two interrupt requests, and the room in the device. */
  datatype Control = Control(receive: bool, transmit: bool, room: nat)

  predicate Asks(c: Control) {
    c.receive || c.transmit
  }

  /** How often the routine goes round: up to the first value that asks for nothing. */
  function Rounds(controls: seq<Control>): nat {
    if controls == [] || !Asks(controls[0]) then 0 else 1 + Rounds(controls[1..])
  }

  lemma {:induction false} RoundsEnd(controls: seq<Control>, k: nat)
    requires k <= |controls| && forall j :: 0 <= j < k ==> Asks(controls[j])
    requires k == |controls| || !Asks(controls[k])
    ensures Rounds(controls) == k
    decreases k
  {
    if k > 0 {
      RoundsEnd(controls[1..], k - 1);
    }
  }

  /** The most the device could take in all rounds. */
  function Room(controls: seq<Control>, k: nat): nat
    requires k <= |controls|
  {
    if k == 0 then 0 else Room(controls, k - 1) + if controls[k - 1].transmit then controls[k - 1].room else 0
  }

  /** How many of `stored` characters have been sent after `k` rounds, and whether the transmit interrupt is still enabled. */
  predicate Served(controls: seq<Control>, k: nat, stored: int, sent: nat, enabled: bool, enabled': bool)
    requires k <= |controls|
  {
    && sent == (if Room(controls, k) < stored then Room(controls, k) else stored)
    && enabled' == (enabled && Room(controls, k) <= stored)
  }

  /** One of the first `k` rounds was asked to receive. */
  predicate Received(controls: seq<Control>, k: nat)
    requires k <= |controls|
  {
    exists j :: 0 <= j < k && controls[j].receive
  }

  lemma NoneServed(controls: seq<Control>, stored: int, enabled: bool)
    requires stored >= 0
    ensures Served(controls, 0, stored, 0, enabled, enabled)
  {
  }

  /** What one more round sends, and whether it masks. */
  lemma OneMoreServed(controls: seq<Control>, k: nat, stored: int, sent: nat, enabled: bool, enabled': bool)
    requires k < |controls| && Served(controls, k, stored, sent, enabled, enabled')
    ensures var room := if controls[k].transmit then controls[k].room else 0;
            var more := if room < stored - sent then room else stored - sent;
            more >= 0 && Served(controls, k + 1, stored, sent + more, enabled, enabled' && room <= stored - sent)
  {
  }

  lemma AllServed(controls: seq<Control>, k: nat, stored: int, sent: nat, enabled: bool, enabled': bool)
    requires k <= |controls| && Served(controls, k, stored, sent, enabled, enabled')
    ensures sent == if Room(controls, k) < stored then Room(controls, k) else stored
    ensures enabled' == (enabled && Room(controls, k) <= stored)
  {
  }

  /** One time round. */
  method Round(rx: ReceiveHalf, tx: JtagUartTransmit.TransmitHalf, control: Control) returns (out: seq<Byte>)
    requires rx.Valid() && tx.Valid() && rx.buf != tx.buf
    modifies rx, rx.buf, rx.register, tx
    ensures rx.Valid() && tx.Valid() && tx.buf[..] == old(tx.buf[..])
    ensures Interrupted(old(rx.st), rx.st) && JtagUartTransmit.Interrupted(old(tx.st), tx.st)
    ensures if control.receive then rx.RingFull() || !rx.register.valid
            else rx.st == old(rx.st) && rx.RingFull() == old(rx.RingFull()) && rx.register.valid == old(rx.register.valid)
    ensures tx.st.sent == old(tx.st.sent) + out
    ensures var room := if control.transmit then control.room else 0;
            var stored := JtagUartTransmit.Pending(old(tx.st));
            |out| == (if room < stored then room else stored) && tx.we == (old(tx.we) && room <= stored)
  {
    hide R.Inv, R.Legal, R.Exec, T.Inv, T.Legal, T.Exec;
    out := [];
    JtagUartTransmit.ContentsLeft(tx.st);
    JtagUartTransmit.FullByIndices(tx.st);
    if control.receive {
      rx.ServiceReceive();
    }
    if control.transmit {
      out := tx.ServiceTransmit(control.room);
    }
  }

  /**
   `controls` are the values the control register will show.  Both rings stay
   in states of their runs.  If asked to receive, the routine stores every
   character the device gives until it gives none or the ring is full.  It
   sends the oldest of what was stored, as much as the device had room for in
   all rounds, and masks the transmit interrupt if there was room left over.
   */
  method Interrupt(rx: ReceiveHalf, tx: JtagUartTransmit.TransmitHalf, controls: seq<Control>)
    returns (rounds: nat, out: seq<Byte>)
    requires rx.Valid() && tx.Valid() && rx.buf != tx.buf
    modifies rx, rx.buf, rx.register, tx
    ensures rx.Valid() && tx.Valid() && rounds == Rounds(controls) <= |controls|
    ensures Interrupted(old(rx.st), rx.st) && JtagUartTransmit.Interrupted(old(tx.st), tx.st)
    ensures old(rx.register.given) <= rx.register.given
    ensures rx.st.accepted == old(rx.st.accepted) + rx.register.given[|old(rx.register.given)|..]
    ensures if Received(controls, rounds) then rx.RingFull() || !rx.register.valid else rx.st == old(rx.st)
    ensures tx.st.sent == old(tx.st.sent) + out
    ensures var stored := JtagUartTransmit.Pending(old(tx.st));
            && |out| == (if Room(controls, rounds) < stored then Room(controls, rounds) else stored)
            && tx.we == (old(tx.we) && Room(controls, rounds) <= stored)
  {
    hide R.Inv, R.Legal, R.Exec, T.Inv, T.Legal, T.Exec, Served;
    rounds, out := 0, [];
    JtagUartTransmit.FullByIndices(tx.st);
    NoneServed(controls, JtagUartTransmit.Pending(tx.st), tx.we);
    while rounds < |controls| && Asks(controls[rounds])
      invariant rounds <= |controls| && forall j :: 0 <= j < rounds ==> Asks(controls[j])
      invariant rx.Valid() && tx.Valid() && tx.buf[..] == old(tx.buf[..])
      invariant Interrupted(old(rx.st), rx.st) && JtagUartTransmit.Interrupted(old(tx.st), tx.st)
      invariant if Received(controls, rounds) then rx.RingFull() || !rx.register.valid else rx.st == old(rx.st)
      invariant tx.st.sent == old(tx.st.sent) + out
      invariant Served(controls, rounds, JtagUartTransmit.Pending(old(tx.st)), |out|, old(tx.we), tx.we)
    {
      OneMoreServed(controls, rounds, JtagUartTransmit.Pending(old(tx.st)), |out|, old(tx.we), tx.we);
      var sent := Round(rx, tx, controls[rounds]);
      out := out + sent;
      rounds := rounds + 1;
    }
    RoundsEnd(controls, rounds);
    AllServed(controls, rounds, JtagUartTransmit.Pending(old(tx.st)), |out|, old(tx.we), tx.we);
  }
}
