/** Positional notation, and reading it back. */
module Numerals {
  import opened Words

  type Base = b: int | b == 8 || b == 10 || b == 16 witness 8

  function Pow(base: Base, k: nat): nat {
    if k == 0 then 1 else base * Pow(base, k - 1)
  }

  function DigitChar(d: nat, upper: bool): char
    requires d < 16
  {
    if d < 10 then '0' + d as char
    else if upper then 'A' + (d - 10) as char
    else 'a' + (d - 10) as char
  }

  lemma DigitReadsBack(d: nat, upper: bool)
    requires d < 16
    ensures DigitValue(DigitChar(d, upper)) == d && DigitChar(d, upper) !in " -" && (DigitChar(d, upper) == '0' <==> d == 0)
  {
  }

  /** The numeral of `v`, without leading zeros. */
  function Digits(v: nat, base: Base, upper: bool): string {
    if v < base then [DigitChar(v, upper)]
    else
      DivMod(v, base);
      Digits(v / base, base, upper) + [DigitChar(v % base, upper)]
  }

  /** The numeral of `v` in exactly `k` places, most significant first. */
  function Places(v: nat, base: Base, k: nat, upper: bool): string
    requires v < Pow(base, k)
  {
    if k == 0 then []
    else
      var p := Pow(base, k - 1);
      PowPositive(base, k - 1);
      LeadingDigit(v, base, p);
      [DigitChar(Quot(v, p), upper)] + Places(Rem(v, p), base, k - 1, upper)
  }

  lemma {:induction false} PowPositive(base: Base, k: nat)
    ensures Pow(base, k) > 0
  {
    if k > 0 {
      PowPositive(base, k - 1);
    }
  }

  lemma PowStep(base: Base, k: nat)
    requires k > 0
    ensures Pow(base, k) == base * Pow(base, k - 1)
  {
  }

  lemma PowZero(base: Base)
    ensures Pow(base, 0) == 1
  {
  }

  lemma LeadingDigit(v: nat, base: nat, p: nat)
    requires p > 0 && v < base * p
    ensures v / p < base && v % p < p
  {
    DivMod(v, p);
    if v / p >= base {
      Monotone(base, v / p, p);
    }
  }

  lemma PlacesUnfold(v: nat, base: Base, k: nat, upper: bool)
    requires k > 0 && v < Pow(base, k)
    ensures var p := Pow(base, k - 1);
            p > 0 && Quot(v, p) < base && Rem(v, p) < p
            && Places(v, base, k, upper) == [DigitChar(Quot(v, p), upper)] + Places(Rem(v, p), base, k - 1, upper)
  {
    PowPositive(base, k - 1);
    LeadingDigit(v, base, Pow(base, k - 1));
  }

  lemma SplitPlaces(v: nat, base: nat, p: nat)
    requires base > 0 && p > 0 && v < base * (base * p)
    ensures base * p > 0 && Quot(v, base) < base * p && Rem(v, base * p) < base * p
    ensures Quot(Quot(v, base), p) == Quot(v, base * p) && Rem(v, base) < base
    ensures Quot(Rem(v, base * p), base) == Rem(Quot(v, base), p) && Rem(Rem(v, base * p), base) == Rem(v, base)
  {
    SplitTwice(v, base, p);
    LeadingDigit(v, base * p, base);
  }

  /** The last place holds the remainder by the base. */
  lemma {:induction false} LastPlace(v: nat, base: Base, k: nat, upper: bool)
    requires k > 0 && v < Pow(base, k)
    ensures Quot(v, base) < Pow(base, k - 1) && Rem(v, base) < base
    ensures Places(v, base, k, upper) == Places(Quot(v, base), base, k - 1, upper) + [DigitChar(Rem(v, base), upper)]
    decreases k
  {
    hide DigitChar, Places, Quot, Rem, Pow;
    PlacesUnfold(v, base, k, upper);
    if k == 1 {
      FirstPlaces(v, base, upper);
    } else {
      PowStep(base, k);
      PowStep(base, k - 1);
      var p', p := Pow(base, k - 2), Pow(base, k - 1);
      PowPositive(base, k - 2);
      SplitPlaces(v, base, p');
      PlacesUnfold(Quot(v, base), base, k - 1, upper);
      LastPlace(Rem(v, p), base, k - 1, upper);
    }
  }

  lemma FirstPlaces(v: nat, base: Base, upper: bool)
    requires v < Pow(base, 1)
    ensures Quot(v, base) == 0 && Rem(v, base) == v < base && Pow(base, 0) == 1
    ensures Places(Quot(v, base), base, 0, upper) == [] && Places(v, base, 1, upper) == [DigitChar(v, upper)]
  {
    hide DigitChar;
    assert Pow(base, 1) == base * Pow(base, 0);
    DivideBy(v, 0, v, base);
    assert v / 1 == v && v % 1 == 0;
  }

  /** The numeral is the placed one with as many places as it has digits. */
  lemma {:induction false} DigitsArePlaces(v: nat, base: Base, upper: bool)
    ensures var k := |Digits(v, base, upper)|;
            k > 0 && v < Pow(base, k) && Digits(v, base, upper) == Places(v, base, k, upper)
  {
    hide DigitChar;
    if v >= base {
      DivMod(v, base);
      DigitsArePlaces(v / base, base, upper);
      var k := |Digits(v / base, base, upper)|;
      Room(v, base, Pow(base, k));
      LastPlace(v, base, k + 1, upper);
    } else {
      assert Pow(base, 1) == base * Pow(base, 0);
      FirstPlaces(v, base, upper);
    }
  }

  lemma Room(v: nat, base: nat, p: nat)
    requires base > 0 && v / base < p
    ensures v < base * p
  {
    DivMod(v, base);
    Monotone(v / base + 1, p, base);
  }

  /** Only zero has a numeral that starts with a zero: no leading zero is superfluous. */
  lemma {:induction false} NoSuperfluousZeros(v: nat, base: Base, upper: bool)
    ensures var s := Digits(v, base, upper);
            && |s| > 0 && (v > 0 ==> Pow(base, |s| - 1) <= v < Pow(base, |s|) && s[0] != '0')
            && (v == 0 ==> s == "0")
  {
    hide DigitChar, Pow, Places;
    DigitsArePlaces(v, base, upper);
    if v >= base {
      var k := |Digits(v / base, base, upper)|;
      DivMod(v, base);
      NoSuperfluousZeros(v / base, base, upper);
      LowerBound(v, base, Pow(base, k - 1));
      PowStep(base, k);
    } else {
      DigitReadsBack(v, upper);
      PowZero(base);
    }
  }

  lemma LowerBound(v: nat, base: nat, p: nat)
    requires base > 0 && p <= v / base
    ensures v / base > 0 <==> v >= base
    ensures base * p <= v
  {
    DivMod(v, base);
    Monotone(p, v / base, base);
    if v / base > 0 {
      Monotone(1, v / base, base);
    }
  }

  function DigitValue(c: char): (d: int) {
    if '0' <= c <= '9' then c as int - '0' as int
    else if 'a' <= c <= 'f' then c as int - 'a' as int + 10
    else if 'A' <= c <= 'F' then c as int - 'A' as int + 10
    else 0
  }

  function ParseDigits(s: string, base: Base): int {
    if s == "" then 0 else ParseDigits(s[..|s| - 1], base) * base + DigitValue(s[|s| - 1])
  }

  /** Leading spaces, an optional sign, digits. */
  function Parse(s: string, base: Base): int {
    if s == "" then 0
    else if s[0] == ' ' then Parse(s[1..], base)
    else if s[0] == '-' then -ParseDigits(s[1..], base)
    else ParseDigits(s, base)
  }

  lemma ParseAppend(s: string, c: char, base: Base)
    ensures ParseDigits(s + [c], base) == ParseDigits(s, base) * base + DigitValue(c)
  {
    assert (s + [c])[..|s|] == s;
  }

  lemma {:induction false} ParseInvertsDigits(v: nat, base: Base, upper: bool)
    ensures ParseDigits(Digits(v, base, upper), base) == v
  {
    hide DigitChar, ParseDigits;
    DivMod(v, base);
    if v >= base {
      ParseInvertsDigits(v / base, base, upper);
      DigitReadsBack(v % base, upper);
      ParseAppend(Digits(v / base, base, upper), DigitChar(v % base, upper), base);
    } else {
      DigitReadsBack(v, upper);
      ParseOne(DigitChar(v, upper), base);
    }
  }

  lemma ParseOne(c: char, base: Base)
    ensures ParseDigits([c], base) == DigitValue(c)
  {
    ParseAppend("", c, base);
    assert "" + [c] == [c];
  }

  function Repeat(c: char, n: int): string {
    if n <= 0 then "" else Repeat(c, n - 1) + [c]
  }

  lemma {:induction false} RepeatLength(c: char, n: int)
    ensures |Repeat(c, n)| == (if n <= 0 then 0 else n) && forall i :: 0 <= i < |Repeat(c, n)| ==> Repeat(c, n)[i] == c
  {
    if n > 0 {
      RepeatLength(c, n - 1);
    }
  }

  lemma {:induction false} ZerosAreZero(n: int, base: Base)
    ensures ParseDigits(Repeat('0', n), base) == 0
  {
    if n > 0 {
      ZerosAreZero(n - 1, base);
      ParseAppend(Repeat('0', n - 1), '0', base);
    }
  }

  lemma {:induction false} ZerosDoNotCount(n: int, s: string, base: Base)
    ensures ParseDigits(Repeat('0', n) + s, base) == ParseDigits(s, base)
  {
    hide Repeat;
    var zeros := Repeat('0', n);
    if s == "" {
      ZerosAreZero(n, base);
      assert zeros + s == zeros;
    } else {
      var body, last := s[..|s| - 1], s[|s| - 1];
      ZerosDoNotCount(n, body, base);
      ParseAppend(zeros + body, last, base);
      ParseAppend(body, last, base);
      assert zeros + s == zeros + body + [last] && s == body + [last];
      hide ParseDigits;
    }
  }

  lemma {:induction false} SpacesDoNotCount(n: int, s: string, base: Base)
    ensures Parse(Repeat(' ', n) + s, base) == Parse(s, base)
  {
    if n <= 0 {
      assert "" + s == s;
    } else {
      SpacesInFront(n);
      SpacesDoNotCount(n - 1, s, base);
      assert (Repeat(' ', n) + s)[1..] == Repeat(' ', n - 1) + s;
    }
  }

  lemma {:induction false} SpacesInFront(n: int)
    requires n > 0
    ensures Repeat(' ', n) == [' '] + Repeat(' ', n - 1)
  {
    if n > 1 {
      SpacesInFront(n - 1);
    }
  }
}

/** The two integer printers of the firmware. */
module Printing {
  import opened Words
  import opened Numerals

  /** A numeral padded to `width` with zeros after the sign or spaces before it. */
  function Render(width: int, zeros: bool, negative: bool, digits: string): string {
    Lead(width - |digits|, zeros, negative) + digits
  }

  /** The sign and the padding; `room` is the width less the digits. */
  function Lead(room: int, zeros: bool, negative: bool): string {
    var sign := if negative then "-" else "";
    if zeros then sign + Repeat('0', room - |sign|) else Repeat(' ', room - |sign|) + sign
  }

  /** The value of a 32-bit pattern. */
  function Value(pattern: Word, signed: bool): int {
    if signed && pattern >= 0x8000_0000 then pattern - M else pattern
  }

  function Magnitude(x: int): nat {
    if x < 0 then -x else x
  }

  /** What the conversion of a value prints. */
  function Printed(x: int, base: Base, upper: bool, width: int, zeros: bool): string {
    Render(width, zeros, x < 0, Digits(Magnitude(x), base, upper))
  }

  /** The signed reading of a pattern is the one number that a signed 32-bit word can hold and that the pattern is congruent to. */
  lemma ValueIsTwosComplement(pattern: Word)
    ensures -0x8000_0000 <= Value(pattern, true) < 0x8000_0000
    ensures Value(pattern, true) % 0x1_0000_0000 == pattern && Value(pattern, false) == pattern
  {
  }

  /** With the zero flag zeros follow the sign, without it spaces precede it: as many as the width leaves room for. */
  lemma PaddingIs(x: int, base: Base, upper: bool, width: int, zeros: bool)
    ensures var digits := Digits(Magnitude(x), base, upper);
            var sign := if x < 0 then "-" else "";
            var room := width - |sign| - |digits|;
            var pad := if room > 0 then room else 0;
            var out := Printed(x, base, upper, width, zeros);
            && |out| == |sign| + pad + |digits|
            && (zeros ==> out[..|sign|] == sign && forall i :: |sign| <= i < |sign| + pad ==> out[i] == '0')
            && (!zeros ==> out[pad..pad + |sign|] == sign && forall i :: 0 <= i < pad ==> out[i] == ' ')
            && out[|sign| + pad..] == digits
  {
    hide Digits, Repeat;
    var digits := Digits(Magnitude(x), base, upper);
    var sign := if x < 0 then "-" else "";
    RepeatLength('0', width - |sign| - |digits|);
    RepeatLength(' ', width - |sign| - |digits|);
  }

  /** The characters a numeral may be made of. */
  function Alphabet(base: Base, upper: bool): string {
    (if upper then "0123456789ABCDEF" else "0123456789abcdef")[..base]
  }

  /** Digits beyond nine are letters of the case asked for. */
  lemma {:induction false} DigitsAreOfCase(v: nat, base: Base, upper: bool)
    ensures forall c :: c in Digits(v, base, upper) ==> c in Alphabet(base, upper)
  {
    hide Alphabet, DigitChar;
    DivMod(v, base);
    if v >= base {
      DigitsAreOfCase(v / base, base, upper);
      DigitOfCase(v % base, base, upper);
    } else {
      DigitOfCase(v, base, upper);
    }
  }

  lemma DigitOfCase(d: nat, base: Base, upper: bool)
    requires d < base
    ensures DigitChar(d, upper) in Alphabet(base, upper)
  {
    assert DigitChar(d, upper) == Alphabet(base, upper)[d];
  }

  /** Reading back what was printed gives the value, whatever the base, the padding and the case. */
  lemma ParseInvertsPrinted(x: int, base: Base, upper: bool, width: int, zeros: bool)
    ensures Parse(Printed(x, base, upper, width, zeros), base) == x
  {
    hide Digits, ParseDigits;
    var digits := Digits(Magnitude(x), base, upper);
    ParseInvertsDigits(Magnitude(x), base, upper);
    StartsWithDigit(Magnitude(x), base, upper);
    if zeros {
      ParseZeroPadded(x < 0, width, digits, base);
    } else {
      ParseSpacePadded(x < 0, width, digits, base);
    }
  }

  lemma {:induction false} StartsWithDigit(v: nat, base: Base, upper: bool)
    ensures var s := Digits(v, base, upper); |s| > 0 && s[0] !in " -"
  {
    hide DigitChar;
    if v < base {
      DigitReadsBack(v, upper);
    } else {
      DivMod(v, base);
      StartsWithDigit(v / base, base, upper);
    }
  }

  lemma ParsePlain(s: string, base: Base)
    requires |s| > 0 && s[0] !in " -"
    ensures Parse(s, base) == ParseDigits(s, base) && Parse("-" + s, base) == -ParseDigits(s, base)
  {
    hide ParseDigits;
    assert ("-" + s)[1..] == s;
  }

  lemma ParseZeroPadded(negative: bool, width: int, digits: string, base: Base)
    requires |digits| > 0 && digits[0] !in " -"
    ensures Parse(Render(width, true, negative, digits), base)
         == if negative then -ParseDigits(digits, base) else ParseDigits(digits, base)
  {
    hide ParseDigits, Repeat, Parse;
    var pad := width - |digits| - if negative then 1 else 0;
    var body := Repeat('0', pad) + digits;
    ZerosDoNotCount(pad, digits, base);
    ZerosInFront(pad, digits);
    ParsePlain(body, base);
    assert Render(width, true, negative, digits) == if negative then "-" + body else body by {
      assert "-" + Repeat('0', pad) + digits == "-" + body;
      assert "" + Repeat('0', pad) + digits == body;
    }
  }

  lemma {:induction false} ZerosInFront(n: int, digits: string)
    requires |digits| > 0 && digits[0] !in " -"
    ensures var s := Repeat('0', n) + digits; s[0] !in " -"
  {
    if n > 0 {
      ZerosInFront(n - 1, digits);
    }
  }

  lemma ParseSpacePadded(negative: bool, width: int, digits: string, base: Base)
    requires |digits| > 0 && digits[0] !in " -"
    ensures Parse(Render(width, false, negative, digits), base)
         == if negative then -ParseDigits(digits, base) else ParseDigits(digits, base)
  {
    hide ParseDigits, Repeat, Parse;
    var sign := if negative then "-" else "";
    var pad := width - |digits| - |sign|;
    SpacesDoNotCount(pad, sign + digits, base);
    ParsePlain(digits, base);
    assert Repeat(' ', pad) + sign + digits == Repeat(' ', pad) + (sign + digits);
    assert "" + digits == digits;
  }

  /** Different values print differently. */
  lemma PrintedIsInjective(x: int, y: int, base: Base, upper: bool, width: int, zeros: bool)
    requires Printed(x, base, upper, width, zeros) == Printed(y, base, upper, width, zeros)
    ensures x == y
  {
    hide Printed, Parse;
    ParseInvertsPrinted(x, base, upper, width, zeros);
    ParseInvertsPrinted(y, base, upper, width, zeros);
  }

  /** The output is as long as the numeral with its sign, or as the width, whichever is longer. */
  lemma PrintedLength(x: int, base: Base, upper: bool, width: int, zeros: bool)
    ensures var natural := |Digits(Magnitude(x), base, upper)| + (if x < 0 then 1 else 0);
            |Printed(x, base, upper, width, zeros)| == if width > natural then width else natural
  {
    var natural := |Digits(Magnitude(x), base, upper)| + (if x < 0 then 1 else 0);
    RepeatLength('0', width - natural);
    RepeatLength(' ', width - natural);
  }

  class Console {
    var sent: string

    method TxChar(c: char)
      modifies this
      ensures sent == old(sent) + [c]
    {
      sent := sent + [c];
    }

    method RepChar(c: char, r: int)
      modifies this
      ensures sent == old(sent) + Repeat(c, r)
    {
      var left := r;
      var done := 0;
      while left > 0
        invariant if r > 0 then 0 <= done && 0 <= left && done + left == r else done == 0 && left == r
        invariant sent == old(sent) + Repeat(c, done)
      {
        TxChar(c);
        left, done := left - 1, done + 1;
      }
    }

    /** The integer conversion of the logging printf; `width` is negative if none was given. */
    method LogInteger(pattern: Word, signed: bool, base: Base, upper: bool, width: int, zeros: bool)
      modifies this
      ensures sent == old(sent) + Printed(Value(pattern, signed), base, upper, width, zeros)
    {
      hide *;
      StripSign(pattern, signed);
      var v: Word, sign := pattern, false;
      if signed && v >= 0x8000_0000 {
        v := Wrap(M - v);
        sign := true;
      }
      var p, digitCount := CountDigits(v, base, upper);
      PrintedInParts(Value(pattern, signed), v, sign, base, upper, width, zeros);
      ghost var before := sent;
      EmitLead(width - digitCount, zeros, sign);
      EmitDigits(v, p, base, upper, digitCount);
      Associate(before, Lead(width - digitCount, zeros, sign), Digits(v, base, upper));
    }

    method EmitLead(room: int, zeros: bool, sign: bool)
      modifies this
      ensures sent == old(sent) + Lead(room, zeros, sign)
    {
      hide Repeat;
      var pad := room;
      if zeros {
        if sign {
          TxChar('-');
          pad := pad - 1;
        }
        RepChar('0', pad);
      } else {
        if sign {
          pad := pad - 1;
        }
        RepChar(' ', pad);
        if sign {
          TxChar('-');
        }
      }
    }

    /** Count the digits of `v` and find the place value of the first. */
    method CountDigits(v: Word, base: Base, upper: bool) returns (p: Word, digitCount: nat)
      ensures digitCount == |Digits(v, base, upper)| > 0 && p == Pow(base, digitCount - 1)
    {
      hide Digits, Pow, Quot;
      PowZero(base);
      ByOne(v);
      var vShrink: nat;
      vShrink, p, digitCount := v, 1, 1;
      while vShrink / base > 0
        invariant 0 < digitCount && p == Pow(base, digitCount - 1) && p > 0 && vShrink == Quot(v, p)
        invariant |Digits(v, base, upper)| == |Digits(vShrink, base, upper)| + digitCount - 1
      {
        NextPlace(v, p, base, upper);
        PowStep(base, digitCount);
        vShrink := vShrink / base;
        digitCount := digitCount + 1;
        p := Wrap(p * base);
      }
      OneDigit(vShrink, base, upper);
    }

    method EmitDigits(v0: Word, p0: Word, base: Base, upper: bool, ghost k0: nat)
      requires k0 > 0 && p0 == Pow(base, k0 - 1) && v0 < Pow(base, k0)
      modifies this
      ensures sent == old(sent) + Places(v0, base, k0, upper)
    {
      hide Places, Pow, DigitChar, Digits;
      var v: nat, p: nat := v0, p0;
      ghost var k := k0;
      PowPositive(base, k - 1);
      while p > 0
        invariant v < Pow(base, k) && p == (if k == 0 then 0 else Pow(base, k - 1)) && (k > 0 ==> p > 0)
        invariant sent + Places(v, base, k, upper) == old(sent) + Places(v0, base, k0, upper)
        decreases k
      {
        PlacesUnfold(v, base, k, upper);
        PlaceDown(base, k);
        EmitDigit(v / p, upper);
        v := v % p;
        p := p / base;
        k := k - 1;
      }
      NoPlaces(v, base, upper);
    }

    /** The hexadecimal conversion of the small printf, which masks and shifts one nibble at a time. */
    method SmallHex(v: Word)
      modifies this
      ensures sent == old(sent) + Digits(v, 16, false)
    {
      hide *;
      if v == 0 {
        ZeroDigit();
        TxChar('0');
        return;
      }
      var place := 7;
      EightNibbles(v);
      while Nibble(v, place) == 0
        invariant 0 <= place <= 7 && v < Pow(16, place + 1) && sent == old(sent)
        decreases place
      {
        NoSuchNibble(v, place);
        place := place - 1;
      }
      FirstNibble(v, place);
      ghost var k := place + 1;
      DigitsArePlaces(v, 16, false);
      NibblesLeft(v, k);
      while place >= 0
        invariant -1 <= place <= 7 && k == place + 1 && LowPart(v, k) < Pow(16, k)
        invariant sent + Places(LowPart(v, k), 16, k, false) == old(sent) + Digits(v, 16, false)
        decreases place
      {
        NibbleAtTheFront(v, k);
        EmitDigit(Nibble(v, place), false);
        place := place - 1;
        k := k - 1;
      }
      NoPlaces(LowPart(v, 0), 16, false);
    }

    /** One digit, by arithmetic on character codes. */
    method EmitDigit(digit: nat, upper: bool)
      requires digit < 16
      modifies this
      ensures sent == old(sent) + [DigitChar(digit, upper)]
    {
      var d := digit + '0' as int;
      if d > '9' as int {
        d := d + (if upper then 'A' else 'a') as int - '0' as int - 10;
      }
      TxChar(d as char);
    }
  }

  lemma Associate(a: string, b: string, c: string)
    ensures a + b + c == a + (b + c)
  {
  }

  /** Negating modulo 2^32 gives the magnitude, for the most negative value too. */
  lemma StripSign(pattern: Word, signed: bool)
    ensures Value(pattern, signed) < 0 <==> signed && pattern >= 0x8000_0000
    ensures Magnitude(Value(pattern, signed)) == if signed && pattern >= 0x8000_0000 then Wrap(M - pattern) else pattern
  {
  }

  lemma PrintedInParts(x: int, v: nat, sign: bool, base: Base, upper: bool, width: int, zeros: bool)
    requires v == Magnitude(x) && (sign <==> x < 0)
    ensures var digits := Digits(v, base, upper);
            && Printed(x, base, upper, width, zeros) == Lead(width - |digits|, zeros, sign) + digits
            && v < Pow(base, |digits|) && Places(v, base, |digits|, upper) == digits
  {
    DigitsArePlaces(v, base, upper);
  }

  /** Dividing the place value by the base gives the next one, and zero after the last. */
  lemma PlaceDown(base: Base, k: nat)
    requires k > 0
    ensures Pow(base, k - 1) / base == if k == 1 then 0 else Pow(base, k - 2)
    ensures k > 1 ==> Pow(base, k - 2) > 0
  {
    if k > 1 {
      PowPositive(base, k - 2);
      PowStep(base, k - 1);
      Commute(base, Pow(base, k - 2));
      DivideBy(Pow(base, k - 1), Pow(base, k - 2), 0, base);
    }
  }

  lemma Commute(a: nat, b: nat)
    ensures a * b == b * a
  {
  }

  lemma ByOne(v: nat)
    ensures Quot(v, 1) == v
  {
  }

  lemma OneDigit(v: nat, base: Base, upper: bool)
    requires v / base == 0
    ensures |Digits(v, base, upper)| == 1
  {
    LowerBound(v, base, 0);
  }

  lemma NoPlaces(v: nat, base: Base, upper: bool)
    requires v < Pow(base, 0)
    ensures Places(v, base, 0, upper) == []
  {
  }

  lemma NextPlace(v: Word, p: nat, base: Base, upper: bool)
    requires p > 0 && Quot(v, p) / base > 0
    ensures 0 < p * base < M && Wrap(p * base) == p * base == base * p
    ensures Quot(v, p * base) == Quot(v, p) / base
    ensures |Digits(Quot(v, p), base, upper)| == |Digits(Quot(v, p) / base, base, upper)| + 1
  {
    NextQuotient(v, p, base);
    LowerBound(Quot(v, p), base, 1);
  }

  lemma NextQuotient(v: Word, p: nat, base: nat)
    requires p > 0 && base > 0 && Quot(v, p) / base > 0
    ensures 0 < p * base <= v && p * base == base * p && Quot(v, p * base) == Quot(v, p) / base
  {
    SplitTwice(v, p, base);
    Commute(p, base);
    LowerBound(v / p, base, 1);
    LowerBound(v, p, base);
  }

  /** The `k`-th group of four bits, counted from the least significant. */
  function Nibble(v: Word, k: nat): (d: nat)
    ensures d < 16
  {
    PowPositive(16, k);
    Quot(v, Pow(16, k)) % 16
  }

  function LowPart(v: Word, k: nat): nat {
    PowPositive(16, k);
    Rem(v, Pow(16, k))
  }

  lemma ZeroDigit()
    ensures Digits(0, 16, false) == "0"
  {
  }

  lemma EightNibbles(v: Word)
    ensures v < Pow(16, 8)
  {
    PowStep(16, 8);
    PowStep(16, 7);
    PowStep(16, 6);
    PowStep(16, 5);
    assert Pow(16, 4) == 65536;
  }

  lemma NoSuchNibble(v: Word, k: nat)
    requires v > 0 && v < Pow(16, k + 1) && Nibble(v, k) == 0
    ensures k > 0 && v < Pow(16, k)
  {
    PowPositive(16, k);
    LeadingDigit(v, 16, Pow(16, k));
    DivMod(v, Pow(16, k));
    assert Quot(v, Pow(16, k)) == 0;
  }

  /** The first nibble that is not zero is the first digit. */
  lemma FirstNibble(v: Word, k: nat)
    requires v < Pow(16, k + 1) && Nibble(v, k) != 0
    ensures |Digits(v, 16, false)| == k + 1
  {
    PowPositive(16, k);
    LeadingDigit(v, 16, Pow(16, k));
    LowerBound(v, Pow(16, k), 1);
    NoSuperfluousZeros(v, 16, false);
    var n := |Digits(v, 16, false)|;
    if n > k + 1 {
      PowGrows(k + 1, n - 1);
    } else if n < k + 1 {
      PowGrows(n, k);
    }
  }

  lemma {:induction false} PowGrows(j: nat, k: nat)
    requires j <= k
    ensures Pow(16, j) <= Pow(16, k)
  {
    if j < k {
      PowGrows(j, k - 1);
    }
  }

  lemma NibblesLeft(v: Word, k: nat)
    requires v < Pow(16, k)
    ensures LowPart(v, k) == v
  {
    PowPositive(16, k);
    DivideBy(v, 0, v, Pow(16, k));
  }

  /** The next nibble is the leading digit of what is left to print. */
  lemma NibbleAtTheFront(v: Word, k: nat)
    requires k > 0
    ensures LowPart(v, k) < Pow(16, k) && LowPart(v, k - 1) < Pow(16, k - 1)
    ensures Places(LowPart(v, k), 16, k, false) ==
              [DigitChar(Nibble(v, k - 1), false)] + Places(LowPart(v, k - 1), 16, k - 1, false)
  {
    var p := Pow(16, k - 1);
    PowPositive(16, k - 1);
    PowStep(16, k);
    SplitTwice(v, p, 16);
    Commute(p, 16);
    DivMod(v, 16 * p);
    DivMod(v, p);
    PlacesUnfold(LowPart(v, k), 16, k, false);
  }

  /** The two printers agree on every value printed in plain lower-case hexadecimal. */
  lemma HexPrintersAgree(v: Word)
    ensures Printed(Value(v, false), 16, false, -1, false) == Digits(v, 16, false)
  {
    NoSuperfluousZeros(v, 16, false);
    hide Digits;
    assert "" + Digits(v, 16, false) == Digits(v, 16, false);
  }
}
