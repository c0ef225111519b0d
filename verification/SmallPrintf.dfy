/** The small printf of the hardware abstraction layer, and its agreement with the logging one. */
module SmallPrintf {
  import opened Words
  import opened Numerals
  import opened Printing
  import opened FormatScanner

  predicate Takes(c: char) {
    c == 'c' || c == 'x' || c == 's'
  }

  function TakenBy(c: char): nat {
    if Takes(c) then 1 else 0
  }

  predicate Fits(c: char, args: seq<Arg>) {
    Takes(c) ==>
      args != [] && if c == 'c' then args[0].Letter? else if c == 'x' then args[0].Number? else args[0].Text?
  }

  function Converted(c: char, args: seq<Arg>): string
    requires Fits(c, args)
  {
    match c
    case '%' => "%"
    case 'c' => [args[0].c]
    case 'x' => Digits(args[0].w, 16, false)
    case 's' => args[0].s
    case _ => ""
  }

  predicate SmallServed(fmt: string, args: seq<Arg>)
    decreases |fmt|
  {
    if fmt == "" then true
    else if fmt[0] != '%' then SmallServed(fmt[1..], args)
    else |fmt| == 1 || (Fits(fmt[1], args) && SmallServed(fmt[2..], args[TakenBy(fmt[1])..]))
  }

  /** A percent sign and the character after it are one directive; a percent sign at the end prints nothing. */
  function SmallOutput(fmt: string, args: seq<Arg>): string
    requires SmallServed(fmt, args)
    decreases |fmt|
  {
    if fmt == "" then ""
    else if fmt[0] != '%' then [fmt[0]] + SmallOutput(fmt[1..], args)
    else if |fmt| == 1 then ""
    else Converted(fmt[1], args) + SmallOutput(fmt[2..], args[TakenBy(fmt[1])..])
  }

  method Print(console: Console, fmt: string, args: seq<Arg>)
    requires SmallServed(fmt, args)
    modifies console
    ensures console.sent == old(console.sent) + SmallOutput(fmt, args)
  {
    hide Digits;
    var left := args;
    var i := 0;
    assert fmt[0..] == fmt;
    while i < |fmt|
      invariant 0 <= i <= |fmt| && SmallServed(fmt[i..], left)
      invariant console.sent + SmallOutput(fmt[i..], left) == old(console.sent) + SmallOutput(fmt, args)
    {
      OneStep(console.sent, fmt, i, left);
      var c := fmt[i];
      i := i + 1;
      if c != '%' {
        console.TxChar(c);
      } else if i < |fmt| {
        c := fmt[i];
        i := i + 1;
        left := Convert(console, c, left);
      } else {
        break;
      }
    }
  }

  lemma OneStep(sent: string, fmt: string, i: nat, args: seq<Arg>)
    requires i < |fmt| && SmallServed(fmt[i..], args)
    ensures if fmt[i] != '%'
            then SmallServed(fmt[i + 1..], args)
                 && sent + SmallOutput(fmt[i..], args) == sent + [fmt[i]] + SmallOutput(fmt[i + 1..], args)
            else if i + 1 == |fmt| then SmallOutput(fmt[i..], args) == ""
            else
              var c := fmt[i + 1];
              && Fits(c, args) && TakenBy(c) <= |args| && SmallServed(fmt[i + 2..], args[TakenBy(c)..])
              && sent + SmallOutput(fmt[i..], args) == sent + Converted(c, args) + SmallOutput(fmt[i + 2..], args[TakenBy(c)..])
  {
    hide *;
    var tail := fmt[i..];
    Unfold(tail, args);
    assert tail[0] == fmt[i] && tail[1..] == fmt[i + 1..];
    if fmt[i] != '%' {
      Associate(sent, [fmt[i]], SmallOutput(tail[1..], args));
    } else if i + 1 < |fmt| {
      var c := fmt[i + 1];
      assert tail[1] == c && tail[2..] == fmt[i + 2..];
      Associate(sent, Converted(c, args), SmallOutput(tail[2..], args[TakenBy(c)..]));
    }
  }

  lemma Unfold(t: string, args: seq<Arg>)
    requires t != "" && SmallServed(t, args)
    ensures t[0] != '%' ==>
      SmallServed(t[1..], args) && SmallOutput(t, args) == [t[0]] + SmallOutput(t[1..], args)
    ensures t[0] == '%' && |t| == 1 ==> SmallOutput(t, args) == ""
    ensures t[0] == '%' && |t| > 1 ==>
      && Fits(t[1], args) && TakenBy(t[1]) <= |args| && SmallServed(t[2..], args[TakenBy(t[1])..])
      && SmallOutput(t, args) == Converted(t[1], args) + SmallOutput(t[2..], args[TakenBy(t[1])..])
  {
    hide Converted;
  }

  method Convert(console: Console, c: char, args: seq<Arg>) returns (args': seq<Arg>)
    requires Fits(c, args)
    modifies console
    ensures console.sent == old(console.sent) + Converted(c, args)
    ensures TakenBy(c) <= |args| && args' == args[TakenBy(c)..]
  {
    hide Digits;
    args' := args;
    match c {
      case '%' =>
        console.TxChar(c);
      case 'c' =>
        console.TxChar(args[0].c);
        args' := args[1..];
      case 'x' =>
        console.SmallHex(args[0].w);
        args' := args[1..];
      case 's' =>
        var k := 0;
        while k < |args[0].s|
          invariant 0 <= k <= |args[0].s| && console.sent == old(console.sent) + args[0].s[..k]
        {
          console.TxChar(args[0].s[k]);
          k := k + 1;
        }
        assert args[0].s[..k] == args[0].s;
        args' := args[1..];
      case _ =>
    }
    assert args[0..] == args;
  }

  // ---- the two printers agree ----

  /** The items both printers know: no flags, no width, and hexadecimal as the only number. */
  predicate Common(i: Item) {
    match i
    case Plain(c) => c != '%'
    case Percent => true
    case Integer(zeros, width, long, letter, _) => !zeros && width == -1 && !long && letter == 'x'
    case Character(width, _) => width == -1
    case Str(width, _) => width == -1
  }

  lemma SmallItem(i: Item, rest: string, args: seq<Arg>)
    requires Common(i) && SmallServed(rest, args)
    ensures WellFormed(i) && SmallServed(Spelling(i) + rest, ArgOf(i) + args)
    ensures SmallOutput(Spelling(i) + rest, ArgOf(i) + args) == Meaning(i) + SmallOutput(rest, args)
  {
    hide Printed, Digits;
    assert args[0..] == args && [] + args == args;
    match i
    case Plain(c) =>
      assert ([c] + rest)[1..] == rest;
    case Percent =>
      SmallDirective('%', rest, [], args);
    case Integer(_, _, _, _, value) =>
      HexPrintersAgree(value);
      assert "%" + "" + "" + "" + "x" == "%x";
      SmallDirective('x', rest, [Number(value)], args);
    case Character(_, c) =>
      assert "%" + "" + "c" == "%c" && Repeat(' ', -2) == "" && "" + [c] == [c];
      SmallDirective('c', rest, [Letter(c)], args);
    case Str(_, s) =>
      assert "%" + "" + "s" == "%s" && Repeat(' ', -1 - |s|) == "" && "" + s == s;
      SmallDirective('s', rest, [Text(s)], args);
  }

  lemma SmallDirective(c: char, rest: string, arg: seq<Arg>, args: seq<Arg>)
    requires |arg| == TakenBy(c) && Fits(c, arg) && SmallServed(rest, args)
    ensures SmallServed(['%', c] + rest, arg + args)
    ensures SmallOutput(['%', c] + rest, arg + args) == Converted(c, arg) + SmallOutput(rest, args)
  {
    hide Digits;
    assert (['%', c] + rest)[2..] == rest && (arg + args)[|arg|..] == args;
    assert Converted(c, arg + args) == Converted(c, arg);
  }

  /** On formats made of the common items, the two printers print the same. */
  lemma {:induction false} PrintersAgree(items: seq<Item>)
    requires forall i :: i in items ==> Common(i)
    ensures SmallServed(Format(items), ArgsOf(items)) && Served(OUTSIDE, Format(items), ArgsOf(items))
    ensures SmallOutput(Format(items), ArgsOf(items)) == Output(OUTSIDE, Format(items), ArgsOf(items))
  {
    SmallPrintsItems(items);
    FormatPrintsItems(items);
  }

  lemma {:induction false} SmallPrintsItems(items: seq<Item>)
    requires forall i :: i in items ==> Common(i)
    ensures forall i :: i in items ==> WellFormed(i)
    ensures SmallServed(Format(items), ArgsOf(items))
    ensures SmallOutput(Format(items), ArgsOf(items)) == Meanings(items)
  {
    if items != [] {
      SmallPrintsItems(items[1..]);
      SmallItem(items[0], Format(items[1..]), ArgsOf(items[1..]));
    }
  }
}
