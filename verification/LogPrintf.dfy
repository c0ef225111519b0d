/** The scanner of format strings, as a machine that takes one character at a time. */
module FormatScanner {
  import opened Words
  import opened Numerals
  import opened Printing

  datatype Arg = Number(w: Word) | Letter(c: char) | Text(s: string)

  datatype Mode = Chars | FirstChar | OtherChar

  /** Where the scanner is and what it has read of a directive; negative means no digits so far. */
  datatype Scan = Scan(mode: Mode, zeros: bool, width: int, fraction: int)

  const OUTSIDE := Scan(Chars, false, -1, -1)
  const OPENED := Scan(FirstChar, false, -1, -1)

  predicate IsDigit(c: char) {
    '0' <= c <= '9'
  }

  /** Characters that are part of a directive but do not end it. */
  predicate Inner(c: char) {
    c == '.' || c == 'l' || IsDigit(c)
  }

  function Shift(n: int, c: char): int {
    if n < 0 then DigitValue(c) else n * 10 + DigitValue(c)
  }

  function InnerStep(s: Scan, c: char): Scan {
    var s := s.(mode := OtherChar);
    if c == '.' then s.(fraction := 0)
    else if !IsDigit(c) then s
    else if s.fraction < 0 then s.(width := Shift(s.width, c))
    else s.(fraction := s.fraction * 10 + DigitValue(c))
  }

  function Next(s: Scan, c: char): Scan {
    match s.mode
    case Chars => if c == '%' then OPENED else s
    case FirstChar =>
      if c == '0' then s.(mode := OtherChar, zeros := true)
      else if c == '%' || !Inner(c) then OUTSIDE
      else InnerStep(s, c)
    case OtherChar => if Inner(c) then InnerStep(s, c) else OUTSIDE
  }

  /** The character ends a directive, in which it is the conversion letter. */
  predicate Ends(s: Scan, c: char) {
    match s.mode
    case Chars => false
    case FirstChar => c != '%' && !Inner(c)
    case OtherChar => !Inner(c)
  }

  predicate IntegerLetter(c: char) {
    c in "diuoxX"
  }

  function BaseOf(c: char): Base {
    if c == 'o' then 8 else if c == 'x' || c == 'X' then 16 else 10
  }

  predicate SignedLetter(c: char) {
    c == 'd' || c == 'i'
  }

  /** How many arguments the character takes. */
  function Consumed(s: Scan, c: char): nat {
    if Ends(s, c) && (IntegerLetter(c) || c == 'c' || c == 's') then 1 else 0
  }

  /** The argument a conversion takes is there and of its kind. */
  predicate Supplied(s: Scan, c: char, args: seq<Arg>) {
    Consumed(s, c) == 1 ==>
      args != [] && if c == 'c' then args[0].Letter? else if c == 's' then args[0].Text? else args[0].Number?
  }

  function Emitted(s: Scan, c: char, args: seq<Arg>): string
    requires Supplied(s, c, args)
  {
    if s.mode.Chars? then if c == '%' then "" else [c]
    else if !Ends(s, c) then if s.mode.FirstChar? && c == '%' then "%" else ""
    else if IntegerLetter(c) then
      Printed(Value(args[0].w, SignedLetter(c)), BaseOf(c), c == 'X', s.width, s.zeros)
    else if c == 'c' then Repeat(' ', s.width - 1) + [args[0].c]
    else if c == 's' then Repeat(' ', s.width - |args[0].s|) + args[0].s
    else ""
  }

  predicate Served(s: Scan, fmt: string, args: seq<Arg>)
    decreases |fmt|
  {
    fmt == "" || (Supplied(s, fmt[0], args) && Served(Next(s, fmt[0]), fmt[1..], args[Consumed(s, fmt[0])..]))
  }

  function Output(s: Scan, fmt: string, args: seq<Arg>): string
    requires Served(s, fmt, args)
    decreases |fmt|
  {
    if fmt == "" then ""
    else Emitted(s, fmt[0], args) + Output(Next(s, fmt[0]), fmt[1..], args[Consumed(s, fmt[0])..])
  }

  // ---- what a format means ----

  /** One element of a format: the structure a caller has in mind. */
  datatype Item =
    | Plain(c: char)
    | Percent
    | Integer(zeros: bool, width: int, long: bool, letter: char, value: Word)
    | Character(width: int, c: char)
    | Str(width: int, s: string)

  /** A width is absent or written in decimal; one without the zero flag does not start with a zero. */
  predicate WellFormed(i: Item) {
    match i
    case Plain(c) => c != '%'
    case Percent => true
    case Integer(zeros, width, _, letter, _) => width >= -1 && (width == 0 ==> zeros) && IntegerLetter(letter)
    case Character(width, _) => width == -1 || width > 0
    case Str(width, _) => width == -1 || width > 0
  }

  function Width(width: int): string {
    if width < 0 then "" else Digits(width, 10, false)
  }

  function Spelling(i: Item): string {
    match i
    case Plain(c) => [c]
    case Percent => "%%"
    case Integer(zeros, width, long, letter, _) =>
      "%" + (if zeros then "0" else "") + Width(width) + (if long then "l" else "") + [letter]
    case Character(width, _) => "%" + Width(width) + "c"
    case Str(width, _) => "%" + Width(width) + "s"
  }

  /** A number as its letter says: signed or unsigned decimal, octal, or hexadecimal in lower or upper case. */
  function NumberMeaning(zeros: bool, width: int, letter: char, value: Word): string {
    match letter
    case 'd' | 'i' => Printed(if value < 0x8000_0000 then value else value - 0x1_0000_0000, 10, false, width, zeros)
    case 'u' => Printed(value, 10, false, width, zeros)
    case 'o' => Printed(value, 8, false, width, zeros)
    case 'x' => Printed(value, 16, false, width, zeros)
    case 'X' => Printed(value, 16, true, width, zeros)
    case _ => ""
  }

  function Meaning(i: Item): string
    requires WellFormed(i)
  {
    match i
    case Plain(c) => [c]
    case Percent => "%"
    case Integer(zeros, width, _, letter, value) => NumberMeaning(zeros, width, letter, value)
    case Character(width, c) => Repeat(' ', width - 1) + [c]
    case Str(width, s) => Repeat(' ', width - |s|) + s
  }

  function ArgOf(i: Item): seq<Arg> {
    match i
    case Integer(_, _, _, _, value) => [Number(value)]
    case Character(_, c) => [Letter(c)]
    case Str(_, s) => [Text(s)]
    case _ => []
  }

  function Format(items: seq<Item>): string {
    if items == [] then "" else Spelling(items[0]) + Format(items[1..])
  }

  function ArgsOf(items: seq<Item>): seq<Arg> {
    if items == [] then [] else ArgOf(items[0]) + ArgsOf(items[1..])
  }

  function Meanings(items: seq<Item>): string
    requires forall i :: i in items ==> WellFormed(i)
  {
    if items == [] then "" else Meaning(items[0]) + Meanings(items[1..])
  }

  // ---- the scanner reads what a caller spells ----

  /** One character, then the rest. */
  lemma OneStep(s: Scan, c: char, rest: string, args: seq<Arg>)
    requires Supplied(s, c, args) && Consumed(s, c) <= |args|
    requires Served(Next(s, c), rest, args[Consumed(s, c)..])
    ensures Served(s, [c] + rest, args)
    ensures Output(s, [c] + rest, args) == Emitted(s, c, args) + Output(Next(s, c), rest, args[Consumed(s, c)..])
  {
    hide Emitted, Next, Supplied, Consumed;
    assert ([c] + rest)[0] == c && ([c] + rest)[1..] == rest;
  }

  /** A character that prints nothing and takes nothing. */
  predicate Silent(s: Scan, c: char) {
    !s.mode.Chars? && !Ends(s, c) && !(s.mode.FirstChar? && c == '%')
  }

  lemma SilentStep(s: Scan, c: char, rest: string, args: seq<Arg>)
    requires Silent(s, c) && Served(Next(s, c), rest, args)
    ensures Served(s, [c] + rest, args) && Output(s, [c] + rest, args) == Output(Next(s, c), rest, args)
  {
    hide Output, Served, Next, Printed;
    assert args[0..] == args;
    OneStep(s, c, rest, args);
  }

  /** From `s`, reading `text` produces no output, takes no argument and leaves the scanner at `t`. */
  predicate Quiet(s: Scan, text: string, t: Scan)
    decreases |text|
  {
    if text == "" then s == t
    else Silent(s, text[0]) && Quiet(Next(s, text[0]), text[1..], t)
  }

  lemma {:induction false} QuietPrefix(s: Scan, text: string, t: Scan, rest: string, args: seq<Arg>)
    requires Quiet(s, text, t) && Served(t, rest, args)
    ensures Served(s, text + rest, args) && Output(s, text + rest, args) == Output(t, rest, args)
    decreases |text|
  {
    hide Output, Served, Next, Silent;
    if text == "" {
      assert text + rest == rest;
    } else {
      QuietPrefix(Next(s, text[0]), text[1..], t, rest, args);
      SilentStep(s, text[0], text[1..] + rest, args);
      assert text + rest == [text[0]] + (text[1..] + rest);
    }
  }

  lemma {:induction false} QuietTwice(s: Scan, a: string, t: Scan, b: string, u: Scan)
    requires Quiet(s, a, t) && Quiet(t, b, u)
    ensures Quiet(s, a + b, u)
    decreases |a|
  {
    if a == "" {
      assert a + b == b;
    } else {
      QuietTwice(Next(s, a[0]), a[1..], t, b, u);
      assert (a + b)[1..] == a[1..] + b;
    }
  }

  predicate AllDigits(text: string) {
    forall k :: 0 <= k < |text| ==> IsDigit(text[k])
  }

  /** The decimal digits of a width accumulate to the width. */
  lemma {:induction false} WidthIsRead(s: Scan, digits: string)
    requires |digits| > 0 && AllDigits(digits) && s.width < 0 && s.fraction < 0
    requires s.mode.OtherChar? || (s.mode.FirstChar? && digits[0] != '0')
    ensures Quiet(s, digits, s.(mode := OtherChar, width := ParseDigits(digits, 10))) && ParseDigits(digits, 10) >= 0
    decreases |digits|
  {
    var n := |digits| - 1;
    var last := digits[n];
    assert digits == digits[..n] + [last];
    ParseAppend(digits[..n], last, 10);
    if n == 0 {
      assert digits[..n] == "" && digits[1..] == "";
      assert ParseDigits("", 10) == 0;
    } else {
      WidthIsRead(s, digits[..n]);
      var t := s.(mode := OtherChar, width := ParseDigits(digits[..n], 10));
      OneDigit(t, last);
      QuietTwice(s, digits[..n], t, [last], Next(t, last));
    }
  }

  lemma OneDigit(t: Scan, c: char)
    requires t.mode.OtherChar? && IsDigit(c) && t.fraction < 0 && t.width >= 0
    ensures Quiet(t, [c], Next(t, c)) && Next(t, c) == t.(width := t.width * 10 + DigitValue(c))
  {
    assert [c][1..] == "";
  }

  lemma {:induction false} DigitsAreDigits(v: nat)
    ensures AllDigits(Digits(v, 10, false))
  {
    if v >= 10 {
      DivMod(v, 10);
      DigitsAreDigits(v / 10);
    }
  }

  /** The zero flag, the width and the size letter of a directive. */
  function Flags(zeros: bool, width: int, long: bool): string {
    (if zeros then "0" else "") + Width(width) + (if long then "l" else "")
  }

  function Read(zeros: bool, width: int, long: bool): Scan {
    Scan(if !zeros && width < 0 && !long then FirstChar else OtherChar, zeros, width, -1)
  }

  lemma FlagsAreRead(zeros: bool, width: int, long: bool)
    requires width >= -1 && (width == 0 ==> zeros)
    ensures Quiet(OPENED, Flags(zeros, width, long), Read(zeros, width, long))
  {
    var z, w, l := if zeros then "0" else "", Width(width), if long then "l" else "";
    var t1 := Read(zeros, -1, false);
    var t2 := Read(zeros, width, false);
    assert Quiet(OPENED, z, t1) by {
      assert "0"[1..] == "";
    }
    assert Quiet(t1, w, t2) by {
      if width >= 0 {
        WidthDigits(width);
        WidthIsRead(t1, w);
      }
    }
    assert Quiet(t2, l, Read(zeros, width, long)) by {
      assert "l"[1..] == "";
    }
    QuietTwice(OPENED, z, t1, w, t2);
    QuietTwice(OPENED, z + w, t2, l, Read(zeros, width, long));
  }

  lemma WidthDigits(width: nat)
    ensures var w := Digits(width, 10, false);
            |w| > 0 && AllDigits(w) && ParseDigits(w, 10) == width && (width > 0 ==> w[0] != '0')
  {
    DigitsAreDigits(width);
    ParseInvertsDigits(width, 10, false);
    NoSuperfluousZeros(width, 10, false);
  }

  /** A directive made of a percent sign, quiet flags and a conversion letter. */
  lemma DirectiveOutput(flags: string, t: Scan, letter: char, rest: string, arg: Arg, args: seq<Arg>)
    requires Quiet(OPENED, flags, t) && !t.mode.Chars? && Ends(t, letter) && Consumed(t, letter) == 1
    requires Supplied(t, letter, [arg]) && Served(OUTSIDE, rest, args)
    ensures var fmt := "%" + flags + [letter] + rest;
            && Served(OUTSIDE, fmt, [arg] + args)
            && Output(OUTSIDE, fmt, [arg] + args) == Emitted(t, letter, [arg]) + Output(OUTSIDE, rest, args)
  {
    hide Output, Served, Emitted, Quiet, Supplied;
    var all := [arg] + args;
    var tail := [letter] + rest;
    assert all[1..] == args;
    assert Next(t, letter) == OUTSIDE;
    SameArgument(t, letter, arg, args);
    OneStep(t, letter, rest, all);
    QuietPrefix(OPENED, flags, t, tail, all);
    PercentOpens(flags + tail, all);
    assert "%" + flags + [letter] + rest == "%" + (flags + tail);
  }

  lemma SameArgument(t: Scan, letter: char, arg: Arg, args: seq<Arg>)
    requires Supplied(t, letter, [arg])
    ensures Supplied(t, letter, [arg] + args) && Emitted(t, letter, [arg] + args) == Emitted(t, letter, [arg])
  {
    hide Printed;
    assert ([arg] + args)[0] == arg;
  }

  lemma PercentOpens(rest: string, args: seq<Arg>)
    requires Served(OPENED, rest, args)
    ensures Served(OUTSIDE, "%" + rest, args) && Output(OUTSIDE, "%" + rest, args) == Output(OPENED, rest, args)
  {
    hide Output, Served;
    assert args[0..] == args;
    OneStep(OUTSIDE, '%', rest, args);
  }

  lemma PlainOutput(c: char, rest: string, args: seq<Arg>)
    requires Served(OUTSIDE, rest, args)
    ensures var text := if c == '%' then "%%" else [c];
            && Served(OUTSIDE, text + rest, args)
            && Output(OUTSIDE, text + rest, args) == [c] + Output(OUTSIDE, rest, args)
  {
    hide Output, Served;
    assert args[0..] == args;
    if c == '%' {
      OneStep(OPENED, '%', rest, args);
      PercentOpens("%" + rest, args);
      assert "%%" + rest == "%" + ("%" + rest);
    } else {
      OneStep(OUTSIDE, c, rest, args);
    }
  }

  lemma NumberEmitted(t: Scan, letter: char, value: Word)
    requires !t.mode.Chars? && Ends(t, letter) && IntegerLetter(letter)
    ensures Emitted(t, letter, [Number(value)]) == NumberMeaning(t.zeros, t.width, letter, value)
  {
    hide Printed;
  }

  lemma IntegerOutput(zeros: bool, width: int, long: bool, letter: char, value: Word, rest: string, args: seq<Arg>)
    requires width >= -1 && (width == 0 ==> zeros) && IntegerLetter(letter) && Served(OUTSIDE, rest, args)
    ensures var text := "%" + (if zeros then "0" else "") + Width(width) + (if long then "l" else "") + [letter] + rest;
            && Served(OUTSIDE, text, [Number(value)] + args)
            && Output(OUTSIDE, text, [Number(value)] + args)
            == NumberMeaning(zeros, width, letter, value) + Output(OUTSIDE, rest, args)
  {
    hide Output, Served, Quiet, Emitted, NumberMeaning, Width;
    FlagsAreRead(zeros, width, long);
    NumberEmitted(Read(zeros, width, long), letter, value);
    DirectiveOutput(Flags(zeros, width, long), Read(zeros, width, long), letter, rest, Number(value), args);
    Regroup("%", if zeros then "0" else "", Width(width), if long then "l" else "", [letter]);
  }

  lemma ItemOutput(i: Item, rest: string, args: seq<Arg>)
    requires WellFormed(i) && Served(OUTSIDE, rest, args)
    ensures Served(OUTSIDE, Spelling(i) + rest, ArgOf(i) + args)
    ensures Output(OUTSIDE, Spelling(i) + rest, ArgOf(i) + args) == Meaning(i) + Output(OUTSIDE, rest, args)
  {
    hide Output, Served, Quiet, NumberMeaning, Repeat, Width;
    assert [] + args == args;
    match i
    case Plain(c) => PlainOutput(c, rest, args);
    case Percent => PlainOutput('%', rest, args);
    case Integer(zeros, width, long, letter, value) =>
      IntegerOutput(zeros, width, long, letter, value, rest, args);
    case Character(width, c) =>
      FlagsAreRead(false, width, false);
      DirectiveOutput(Flags(false, width, false), Read(false, width, false), 'c', rest, Letter(c), args);
      Regroup("%", "", Width(width), "", "c");
    case Str(width, s) =>
      FlagsAreRead(false, width, false);
      DirectiveOutput(Flags(false, width, false), Read(false, width, false), 's', rest, Text(s), args);
      Regroup("%", "", Width(width), "", "s");
  }

  lemma Regroup(a: string, b: string, c: string, d: string, e: string)
    ensures a + (b + c + d) + e == a + b + c + d + e
    ensures b == "" && d == "" ==> a + (b + c + d) + e == a + c + e
  {
  }

  /**
   A format spelled from any list of items, given the items' values as
   arguments, prints the meaning of each item in order.
   */
  lemma {:induction false} FormatPrintsItems(items: seq<Item>)
    requires forall i :: i in items ==> WellFormed(i)
    ensures Served(OUTSIDE, Format(items), ArgsOf(items))
    ensures Output(OUTSIDE, Format(items), ArgsOf(items)) == Meanings(items)
  {
    if items != [] {
      FormatPrintsItems(items[1..]);
      ItemOutput(items[0], Format(items[1..]), ArgsOf(items[1..]));
    }
  }
}

/** The logging printf: the scanner with its local variables, driving the console. */
module LogPrintf {
  import opened Words
  import opened Numerals
  import opened Printing
  import opened FormatScanner

  /** The scanner's state in terms of the local variables, which mean nothing outside a directive. */
  function At(mode: Mode, zeros: bool, width: int, fraction: int): Scan {
    if mode.Chars? then OUTSIDE else Scan(mode, zeros, width, fraction)
  }

  method Print(console: Console, fmt: string, args: seq<Arg>)
    requires Served(OUTSIDE, fmt, args)
    modifies console
    ensures console.sent == old(console.sent) + Output(OUTSIDE, fmt, args)
  {
    hide Printed, Repeat, Emitted, Served, Output, Supplied;
    var mode, zeros, width, fraction := Chars, false, -1, -1;
    var left := args;
    var i := 0;
    assert fmt[0..] == fmt;
    while i < |fmt|
      invariant 0 <= i <= |fmt| && Served(At(mode, zeros, width, fraction), fmt[i..], left)
      invariant console.sent + Output(At(mode, zeros, width, fraction), fmt[i..], left)
             == old(console.sent) + Output(OUTSIDE, fmt, args)
    {
      OneCharacter(console.sent, At(mode, zeros, width, fraction), fmt, i, left);
      mode, zeros, width, fraction, left := TakeChar(console, fmt[i], mode, zeros, width, fraction, left);
      i := i + 1;
    }
    Finished(At(mode, zeros, width, fraction), fmt[i..], left);
  }

  lemma OneCharacter(sent: string, s: Scan, fmt: string, i: nat, args: seq<Arg>)
    requires i < |fmt| && Served(s, fmt[i..], args)
    ensures var c := fmt[i];
            && Supplied(s, c, args) && Consumed(s, c) <= |args|
            && Served(Next(s, c), fmt[i + 1..], args[Consumed(s, c)..])
            && sent + Output(s, fmt[i..], args)
            == sent + Emitted(s, c, args) + Output(Next(s, c), fmt[i + 1..], args[Consumed(s, c)..])
  {
    assert fmt[i..][1..] == fmt[i + 1..];
    hide Emitted;
  }

  lemma Finished(s: Scan, fmt: string, args: seq<Arg>)
    requires fmt == "" && Served(s, fmt, args)
    ensures Output(s, fmt, args) == ""
  {
  }

  /** The switch on the scanner's state. */
  method TakeChar(console: Console, c: char, mode: Mode, zeros: bool, width: int, fraction: int, args: seq<Arg>)
    returns (mode': Mode, zeros': bool, width': int, fraction': int, args': seq<Arg>)
    requires Supplied(At(mode, zeros, width, fraction), c, args)
    modifies console
    ensures console.sent == old(console.sent) + Emitted(At(mode, zeros, width, fraction), c, args)
    ensures At(mode', zeros', width', fraction') == Next(At(mode, zeros, width, fraction), c)
    ensures Consumed(At(mode, zeros, width, fraction), c) <= |args|
    ensures args' == args[Consumed(At(mode, zeros, width, fraction), c)..]
  {
    hide Printed, Repeat;
    mode', zeros', width', fraction', args' := mode, zeros, width, fraction, args;
    match mode {
      case Chars =>
        if c == '%' {
          zeros', width', fraction' := false, -1, -1;
          mode' := FirstChar;
        } else {
          console.TxChar(c);
        }
      case FirstChar =>
        if c == '0' {
          zeros' := true;
          mode' := OtherChar;
        } else if c == '%' {
          console.TxChar(c);
          mode' := Chars;
        } else {
          mode', width', fraction', args' := TakeOther(console, c, zeros, width, fraction, args);
        }
      case OtherChar =>
        mode', width', fraction', args' := TakeOther(console, c, zeros, width, fraction, args);
    }
  }

  /** A character after the first of a directive, or a first one that is neither a zero nor a percent sign. */
  method TakeOther(console: Console, c: char, zeros: bool, width: int, fraction: int, args: seq<Arg>)
    returns (mode': Mode, width': int, fraction': int, args': seq<Arg>)
    requires Supplied(Scan(OtherChar, zeros, width, fraction), c, args)
    modifies console
    ensures console.sent == old(console.sent) + Emitted(Scan(OtherChar, zeros, width, fraction), c, args)
    ensures At(mode', zeros, width', fraction') == Next(Scan(OtherChar, zeros, width, fraction), c)
    ensures Consumed(Scan(OtherChar, zeros, width, fraction), c) <= |args|
    ensures args' == args[Consumed(Scan(OtherChar, zeros, width, fraction), c)..]
  {
    hide Printed, Repeat;
    mode', width', fraction', args' := OtherChar, width, fraction, args;
    if c == '.' {
      fraction' := 0;
    } else if '0' <= c <= '9' {
      var d := c as int - '0' as int;
      if fraction < 0 {
        if width < 0 {
          width' := 0;
        } else {
          width' := width * 10;
        }
        width' := width' + d;
      } else {
        fraction' := fraction * 10 + d;
      }
    } else if c == 'l' {
    } else {
      args' := Convert(console, c, zeros, width, fraction, args);
      mode' := Chars;
    }
  }

  /** The switch on the conversion letter. */
  method Convert(console: Console, c: char, zeros: bool, width: int, ghost fraction: int, args: seq<Arg>)
    returns (args': seq<Arg>)
    requires !Inner(c) && Supplied(Scan(OtherChar, zeros, width, fraction), c, args)
    modifies console
    ensures console.sent == old(console.sent) + Emitted(Scan(OtherChar, zeros, width, fraction), c, args)
    ensures Consumed(Scan(OtherChar, zeros, width, fraction), c) <= |args|
    ensures args' == args[Consumed(Scan(OtherChar, zeros, width, fraction), c)..]
  {
    hide Printed, Repeat;
    args' := args;
    match c {
      case 'd' | 'i' =>
        console.LogInteger(args[0].w, true, 10, false, width, zeros);
        args' := args[1..];
      case 'u' =>
        console.LogInteger(args[0].w, false, 10, false, width, zeros);
        args' := args[1..];
      case 'o' =>
        console.LogInteger(args[0].w, false, 8, false, width, zeros);
        args' := args[1..];
      case 'x' =>
        console.LogInteger(args[0].w, false, 16, false, width, zeros);
        args' := args[1..];
      case 'X' =>
        console.LogInteger(args[0].w, false, 16, true, width, zeros);
        args' := args[1..];
      case 'c' =>
        console.RepChar(' ', width - 1);
        console.TxChar(args[0].c);
        Associate(old(console.sent), Repeat(' ', width - 1), [args[0].c]);
        args' := args[1..];
      case 's' =>
        console.RepChar(' ', width - |args[0].s|);
        TxString(console, args[0].s);
        Associate(old(console.sent), Repeat(' ', width - |args[0].s|), args[0].s);
        args' := args[1..];
      case _ =>
        assert args[0..] == args;
    }
  }

  method TxString(console: Console, s: string)
    modifies console
    ensures console.sent == old(console.sent) + s
  {
    var k := 0;
    while k < |s|
      invariant 0 <= k <= |s| && console.sent == old(console.sent) + s[..k]
    {
      console.TxChar(s[k]);
      k := k + 1;
    }
    assert s[..k] == s;
  }
}
