/** Sleeping for a number of microseconds: whole ticks through the kernel, the rest in a busy loop. */
module Sleep {
  import opened Words

  const MAX_DELAY := 0xffff

  /** The tick count as computed, in 32-bit arithmetic. */
  function Ticks(us: Word, rate: Word): Word {
    Wrap(Wrap(us / US * rate) + Wrap(us % US * rate) / US)
  }

  function Sum(delays: seq<nat>): nat {
    if delays == [] then 0 else Sum(delays[..|delays| - 1]) + delays[|delays| - 1]
  }

  /**
   `delays` are the calls of the kernel's tick delay, in order, and `busy` the
   length of the busy wait after them.  A tick rate above a million, or none
   at all, makes the source divide by zero once the kernel runs.
   */
  method USleep(us: Word, running: bool, rate: Word) returns (delays: seq<nat>, busy: nat)
    requires running ==> 0 < rate <= US
    ensures !running ==> delays == [] && busy == us
    ensures running ==>
      && Sum(delays) == Ticks(us, rate)
      && (forall i :: 0 <= i < |delays| ==> delays[i] <= MAX_DELAY)
      && (forall i :: 0 <= i < |delays| - 1 ==> delays[i] == MAX_DELAY)
      && busy == us % (US / rate)
  {
    hide Ticks, Sum;
    SumNone();
    delays := [];
    if !running {
      return delays, us;
    }
    TickLength(rate);
    var ticks: nat := Ticks(us, rate);
    while ticks > MAX_DELAY
      invariant Sum(delays) + ticks == Ticks(us, rate)
      invariant forall i :: 0 <= i < |delays| ==> delays[i] == MAX_DELAY
    {
      SumAppend(delays, MAX_DELAY);
      delays := delays + [MAX_DELAY];
      ticks := ticks - MAX_DELAY;
    }
    Truncate(ticks);
    SumAppend(delays, ticks);
    delays := delays + [ticks % 0x1_0000];
    busy := us % (US / rate);
  }

  lemma SumNone()
    ensures Sum([]) == 0
  {
  }

  lemma TickLength(rate: Word)
    requires 0 < rate <= US
    ensures US / rate > 0
  {
    assert US == rate * (US / rate) + US % rate;
  }

  /** The cast to sixteen bits changes nothing any more. */
  lemma Truncate(ticks: nat)
    requires ticks <= MAX_DELAY
    ensures ticks % 0x1_0000 == ticks
  {
  }

  lemma SumAppend(delays: seq<nat>, d: nat)
    ensures Sum(delays + [d]) == Sum(delays) + d
  {
    assert (delays + [d])[..|delays|] == delays;
  }

  /** With `l` microseconds to the tick, the tick count in unbounded arithmetic is the quotient by `l`. */
  lemma WholeTicks(us: Word, rate: Word, l: nat)
    requires rate * l == US
    ensures l > 0 && us / l == us / US * rate + us % US * rate / US
    ensures 0 <= us / US * rate <= us / l && 0 <= us % US * rate
  {
    var a, b := us / US, us % US;
    NonNegative(a, rate);
    NonNegative(b, rate);
    Scale(b, rate, l);
    var q, r := b / l, b % l;
    assert us == (a * rate + q) * l + r by {
      assert us == a * (rate * l) + b;
      assert a * (rate * l) == a * rate * l;
      assert (a * rate + q) * l == a * rate * l + q * l;
    }
    DivideBy(us, a * rate + q, r, l);
  }

  /** Dividing by `l` is multiplying by `rate` and dividing by a million. */
  lemma Scale(b: nat, rate: nat, l: nat)
    requires rate * l == US
    ensures l > 0 && b * rate / US == b / l
  {
    var q, r := b / l, b % l;
    assert b == q * l + r;
    Distribute(q, l, r, rate);
    Below(r, l, rate);
    Quotient(b * rate, q, r * rate);
  }

  /**
   The time slept, in whole ticks and busy waiting, is the time asked for
   exactly when the product of the fraction of a second and the rate fits 32
   bits; otherwise it is too short.
   */
  lemma SleepsExactly(us: Word, rate: Word, l: nat)
    requires rate * l == US
    ensures l > 0 && (Ticks(us, rate) * l + us % l == us <==> us % US * rate < M)
    ensures Ticks(us, rate) * l + us % l <= us
  {
    WholeTicks(us, rate, l);
    var t := us / l;
    assert us == t * l + us % l;
    QuotientAtMost(us, l);
    WrappedSum(us / US * rate, us % US * rate);
    Longer(Ticks(us, rate), t, l);
  }

  lemma Longer(a: nat, b: nat, l: nat)
    requires a <= b && l > 0
    ensures a * l <= b * l && (a * l == b * l <==> a == b)
  {
    assert b * l == (b - a) * l + a * l;
    if a < b {
      AtLeast(b - a, l);
    }
  }

  lemma QuotientAtMost(n: nat, l: nat)
    requires l > 0
    ensures n / l <= n
  {
    NonNegative(n / l, l - 1);
    assert n / l * l == n / l * (l - 1) + n / l;
  }

  lemma WrappedSum(whole: nat, x: nat)
    requires whole + x / US < M
    ensures var wrapped := Wrap(Wrap(whole) + Wrap(x) / US);
            wrapped <= whole + x / US && (wrapped == whole + x / US <==> x < M)
  {
    if x >= M {
      assert Wrap(x) <= x - M;
    }
  }

  /** Up to 4294 ticks a second, the board's thousand among them, every sleep is exact. */
  lemma SlowClocksSleepExactly(us: Word, rate: Word, l: nat)
    requires rate * l == US && rate <= 4294
    ensures l > 0 && Ticks(us, rate) * l + us % l == us
  {
    NonNegative(us % US, 4294 - rate);
    assert us % US * 4294 == us % US * rate + us % US * (4294 - rate);
    SleepsExactly(us, rate, l);
  }
}
