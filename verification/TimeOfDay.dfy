/** Setting and reading the time of day from the tick counter. */
module TimeOfDay {

  import opened Words

  type Long = x: int | -0x8000_0000 <= x < 0x8000_0000

  datatype Timeval = Timeval(sec: Long, usec: Long)
  datatype Timezone = Timezone(minutesWest: int, dstTime: int)
  datatype Reading = Reading(time: Timeval, zone: Timezone) | NotSupported

  /** Conversion to a signed 32-bit integer. */
  function S32(x: int): Long {
    (x + 0x8000_0000) % M - 0x8000_0000
  }

  /** The length of `nticks` ticks in microseconds. */
  function TickMicros(nticks: Word, rate: Word): int
    requires rate > 0
  {
    nticks * (US / rate)
  }

  function Micros(t: Timeval): int {
    t.sec * US + t.usec
  }

  predicate Normalised(t: Timeval) {
    0 <= t.sec && 0 <= t.usec < US
  }

  /** The timeval for `total` microseconds. */
  function FromMicros(total: int): Timeval {
    Timeval(S32(total / US), total % US)
  }

  /** The calibration offset stored when the time is set to `t`; the tick product is a 32-bit one. */
  function Calibrated(t: Timeval, nticks: Word, rate: Word): Timeval
    requires rate > 0
  {
    Timeval(S32(t.sec - nticks / rate), S32(t.usec - Wrap(TickMicros(nticks, rate)) % US))
  }

  /** The raw sum a read starts from; here the product is a 64-bit one. */
  function Raw(reset: Timeval, nticks: Word, rate: Word): Timeval
    requires rate > 0
  {
    Timeval(S32(reset.sec + nticks / rate), S32(reset.usec + TickMicros(nticks, rate) % US))
  }

  /** What the two normalising loops compute. */
  function Settled(raw: Timeval): Timeval {
    if raw.usec < 0 && Micros(raw) < 0 then Timeval(0, 0) else FromMicros(Micros(raw))
  }

  class SystemClock {
    var nticks: Word
    var tickRate: Word
    var resettime: Timeval
    var timezone: Timezone

    method SetTimeOfDay(t: Timeval, tz: Timezone) returns (ok: bool)
      modifies `resettime, `timezone
      ensures ok <==> tickRate > 0
      ensures ok ==> resettime == Calibrated(t, nticks, tickRate) && timezone == tz
      ensures !ok ==> resettime == old(resettime) && timezone == old(timezone)
    {
      hide TickMicros, S32;
      if tickRate > 0 {
        resettime := Timeval(S32(t.sec - nticks / tickRate), S32(t.usec - Wrap(TickMicros(nticks, tickRate)) % US));
        timezone := tz;
        return true;
      }
      return false;
    }

    method GetTimeOfDay() returns (r: Reading)
      ensures r == if tickRate == 0 then NotSupported
                   else Reading(Settled(Raw(resettime, nticks, tickRate)), timezone)
    {
      hide FromMicros, Settled, TickMicros, S32;
      if tickRate > 0 {
        var sec: Long := S32(resettime.sec + nticks / tickRate);
        var usec: Long := S32(resettime.usec + TickMicros(nticks, tickRate) % US);
        ghost var raw := Timeval(sec, usec);
        while usec < 0
          invariant Micros(Timeval(sec, usec)) == Micros(raw)
          invariant if raw.usec >= 0 then usec == raw.usec else usec < US
          invariant usec != raw.usec ==> sec >= 0
          decreases US - usec
        {
          if sec <= 0 {
            sec, usec := 0, 0;
            break;
          } else {
            sec := sec - 1;
            usec := usec + US;
          }
        }
        SettleForwards(raw, sec, usec);
        ghost var settled := Settled(raw);
        while usec >= US
          invariant usec >= 0 && FromMicros(sec * US + usec) == settled
          decreases usec
        {
          CarryOne(sec, usec);
          sec := S32(sec + 1);
          usec := usec - US;
        }
        WholeSecond(sec, usec);
        return Reading(Timeval(sec, usec), timezone);
      }
      return NotSupported;
    }
  }

  lemma SettleForwards(raw: Timeval, sec: Long, usec: Long)
    requires usec >= 0
    requires Micros(Timeval(sec, usec)) == Micros(raw) || (raw.usec < 0 && Micros(raw) < 0 && sec == usec == 0)
    requires raw.usec < 0 ==> usec < US
    requires raw.usec < 0 && Micros(raw) < 0 ==> sec == usec == 0
    ensures FromMicros(sec * US + usec) == Settled(raw)
  {
  }

  lemma S32Shift(x: int, q: int)
    ensures S32(x + q * M) == S32(x)
  {
  }

  lemma CarryOne(sec: Long, usec: Long)
    requires usec >= US
    ensures FromMicros(S32(sec + 1) * US + (usec - US)) == FromMicros(sec * US + usec)
  {
    var s' := S32(sec + 1);
    var u := usec - US;
    assert (s' * US + u) / US == s' + u / US;
    assert (sec * US + usec) / US == sec + 1 + u / US;
  }

  lemma WholeSecond(sec: Long, usec: Long)
    requires 0 <= usec < US
    ensures FromMicros(sec * US + usec) == Timeval(sec, usec)
  {
  }

  /** With whole microseconds to the tick, seconds and the rest of the tick count add up to its length. */
  lemma TickSplit(nticks: Word, rate: Word)
    requires rate > 0 && rate * (US / rate) == US
    ensures nticks / rate * US + TickMicros(nticks, rate) % US == TickMicros(nticks, rate)
    ensures 0 <= TickMicros(nticks, rate) && nticks / rate * US <= TickMicros(nticks, rate)
  {
    var k, q, r := US / rate, nticks / rate, nticks % rate;
    Distribute(q, rate, r, k);
    Below(r, rate, k);
    assert q * rate + r == nticks;
    Quotient(TickMicros(nticks, rate), q, r * k);
  }

  /** What the 32-bit product loses, modulo a second. */
  function Loss(nticks: Word, rate: Word): int
    requires rate > 0
  {
    TickMicros(nticks, rate) % US - Wrap(TickMicros(nticks, rate)) % US
  }

  /** How often the 32-bit product wraps round. */
  function Wraps(nticks: Word, rate: Word): int
    requires rate > 0
  {
    TickMicros(nticks, rate) / M
  }

  /** The loss vanishes exactly when the number of wraps is a multiple of five to the sixth. */
  lemma LossVanishes(nticks: Word, rate: Word)
    requires rate > 0
    ensures Loss(nticks, rate) == 0 <==> Wraps(nticks, rate) % 15625 == 0
    ensures -US < Loss(nticks, rate) < US
  {
    var n := TickMicros(nticks, rate);
    SameRemainder(n, n % M, n / M);
  }

  lemma SameRemainder(n: int, w: int, q: int)
    requires n == q * M + w
    ensures n % US == w % US <==> q % 15625 == 0
  {
    if n % US == w % US {
      FifthPower(q, n / US - w / US);
    }
  }

  /** A million and two to the thirty-second share only the factor 64; what is left of each is coprime. */
  lemma FifthPower(q: int, d: int)
    requires q * 67108864 == d * 15625
    ensures q % 15625 == 0
  {
    assert 67108864 * 12659 == 1 + 15625 * 54369991;
    assert q == 15625 * (d * 12659 - q * 54369991);
  }

  lemma S32Small(x: int)
    requires -0x8000_0000 <= x < 0x8000_0000
    ensures S32(x) == x
  {
  }

  /** Conversion of a sum may be put off to the end. */
  lemma S32Sum(x: int, y: int)
    ensures S32(S32(x) + y) == S32(x + y)
  {
    var q := (x + 0x8000_0000) / M;
    assert S32(x) == x - q * M;
    S32Shift(S32(x) + y, q);
  }

  /** Total microseconds a read at `later` should show after the time was set to `t` at `nticks`. */
  function Expected(t: Timeval, nticks: Word, later: Word, rate: Word): int
    requires rate > 0
  {
    Micros(t) + TickMicros(later, rate) - TickMicros(nticks, rate)
  }

  lemma TicksGrow(a: Word, b: Word, rate: Word)
    requires rate > 0 && a <= b
    ensures TickMicros(a, rate) <= TickMicros(b, rate) && a / rate <= b / rate
  {
    NonNegative(b - a, US / rate);
    assert TickMicros(b, rate) - TickMicros(a, rate) == (b - a) * (US / rate);
    Quotients(a, b, rate);
  }

  /** The raw sum of a read is the expected total, less what the set call lost. */
  lemma RawTotal(t: Timeval, nticks: Word, later: Word, rate: Word)
    requires Normalised(t) && rate > 0 && rate * (US / rate) == US && nticks <= later
    requires Expected(t, nticks, later, rate) / US < 0x7fff_ffff
    ensures var raw := Raw(Calibrated(t, nticks, rate), later, rate);
            && Micros(raw) == Expected(t, nticks, later, rate) + Loss(nticks, rate)
            && 0 <= Expected(t, nticks, later, rate) && raw.sec >= 0
  {
    TickSplit(nticks, rate);
    TickSplit(later, rate);
    TicksGrow(nticks, later, rate);
    hide TickMicros, S32;
    var s := t.sec - nticks / rate + later / rate;
    S32Sum(t.sec - nticks / rate, later / rate);
    S32Small(s);
    S32Small(t.usec - Wrap(TickMicros(nticks, rate)) % US);
    S32Small(t.usec - Wrap(TickMicros(nticks, rate)) % US + TickMicros(later, rate) % US);
  }

  /**
   After the time is set, every later read is the time set plus the length of
   the ticks in between, normalised, if and only if the 32-bit product of the
   set call lost nothing; a read of time zero, which the clamp can save, if and
   only if the product did not lose a positive amount.
   */
  lemma ReadIsExact(t: Timeval, nticks: Word, later: Word, rate: Word)
    requires Normalised(t) && rate > 0 && rate * (US / rate) == US && nticks <= later
    requires Expected(t, nticks, later, rate) / US < 0x7fff_ffff
    ensures var total := Expected(t, nticks, later, rate);
            var read := Settled(Raw(Calibrated(t, nticks, rate), later, rate));
            && 0 <= total && (Wraps(nticks, rate) % 15625 == 0 ==> Normalised(read) && Micros(read) == total)
            && (total > 0 ==> (Micros(read) == total <==> Wraps(nticks, rate) % 15625 == 0))
            && (total == 0 ==> (Micros(read) == 0 <==> Loss(nticks, rate) <= 0))
  {
    RawTotal(t, nticks, later, rate);
    LossVanishes(nticks, rate);
    hide Raw, Calibrated, Wraps, Loss;
    var total := Expected(t, nticks, later, rate);
    var raw := Raw(Calibrated(t, nticks, rate), later, rate);
    FromMicrosExact(Micros(raw));
  }

  lemma FromMicrosExact(total: int)
    requires -US < total < 0x8000_0000 * US
    ensures Micros(FromMicros(total)) == total
    ensures total >= 0 ==> Normalised(FromMicros(total))
  {
    S32Small(total / US);
  }

  /** Before the tick count has run for 2^32 microseconds the product does not wrap. */
  lemma EarlyEnough(nticks: Word, rate: Word)
    requires rate > 0 && TickMicros(nticks, rate) < M
    ensures Wraps(nticks, rate) % 15625 == 0
  {
    NonNegative(nticks, US / rate);
  }

  /** At the board's thousand ticks a second, a clock set after five thousand seconds does not read what it was set to. */
  lemma LateSetIsWrong()
    ensures var t := Timeval(1000, 0);
            Micros(Settled(Raw(Calibrated(t, 5_000_000, 1000), 5_000_000, 1000))) != Micros(t)
  {
    assert TickMicros(5_000_000, 1000) == 5_000_000_000;
    assert Wraps(5_000_000, 1000) == 1;
    ReadIsExact(Timeval(1000, 0), 5_000_000, 5_000_000, 1000);
  }

  /** A clock set to zero can read almost a second when read at once. */
  lemma LateZeroIsWrong()
    ensures Micros(Settled(Raw(Calibrated(Timeval(0, 0), 5_000_990, 1000), 5_000_990, 1000))) == 967_296
  {
    assert TickMicros(5_000_990, 1000) == 5_000_990_000;
    assert Loss(5_000_990, 1000) == 967_296;
    RawTotal(Timeval(0, 0), 5_000_990, 5_000_990, 1000);
    FromMicrosExact(967_296);
  }

  /** Reads never go backwards while they are exact. */
  lemma ReadsAreMonotone(t: Timeval, nticks: Word, a: Word, b: Word, rate: Word)
    requires Normalised(t) && rate > 0 && rate * (US / rate) == US && nticks <= a <= b
    requires Expected(t, nticks, b, rate) / US < 0x7fff_ffff && Wraps(nticks, rate) % 15625 == 0
    ensures var reset := Calibrated(t, nticks, rate);
            Micros(Settled(Raw(reset, a, rate))) <= Micros(Settled(Raw(reset, b, rate)))
  {
    TicksGrow(a, b, rate);
    ReadIsExact(t, nticks, a, rate);
    ReadIsExact(t, nticks, b, rate);
  }
}
