/** The bounded print of the BIOS: what a format means, what the loop writes into its buffer,
    and when that stays inside. */
module Vsnprintf {
  import opened CStrings
  import opened FormatDigits
  import opened Memory

  type Word = x: int | -0x8000_0000 <= x < 0x8000_0000

  /** What a variable argument is when read as a word and when read as a text. */
  datatype Arg = Arg(word: Word, text: CString)

  // ---------------------------------------------------------------- reading the format

  predicate IsDigit(c: char) {
    '0' <= c <= '9'
  }

  function DigitValue(c: char): nat
    requires IsDigit(c)
  {
    (c - '0') as nat
  }

  function LiteralEnd(fmt: CString, pos: nat): (e: nat)
    requires pos <= |fmt|
    ensures pos <= e <= |fmt| && (e < |fmt| ==> fmt[e] == '%')
    ensures forall j :: pos <= j < e ==> fmt[j] != '%'
    decreases |fmt| - pos
  {
    if pos == |fmt| || fmt[pos] == '%' then pos else LiteralEnd(fmt, pos + 1)
  }

  function DigitsEnd(fmt: CString, pos: nat): (e: nat)
    requires pos <= |fmt|
    ensures pos <= e <= |fmt| && !IsDigit(At(fmt, e))
    ensures forall j :: pos <= j < e ==> IsDigit(fmt[j])
    decreases |fmt| - pos
  {
    if IsDigit(At(fmt, pos)) then DigitsEnd(fmt, pos + 1) else pos
  }

  function Decimal(fmt: CString, pos: nat, end: nat): nat
    requires pos <= end <= |fmt| && forall j :: pos <= j < end ==> IsDigit(fmt[j])
    decreases end
  {
    if pos == end then 0 else Decimal(fmt, pos, end - 1) * 10 + DigitValue(fmt[end - 1])
  }

  datatype Amount = Amount(value: int, pos: nat, arg: nat)

  /** A star, or the digits there are. */
  function ReadAmount(fmt: CString, args: nat -> Arg, pos: nat, arg: nat): (a: Amount)
    requires pos <= |fmt|
    ensures pos <= a.pos <= |fmt|
  {
    if At(fmt, pos) == '*' then Amount(args(arg).word, pos + 1, arg + 1)
    else
      var end := DigitsEnd(fmt, pos);
      Amount(Decimal(fmt, pos, end), end, arg)
  }

  /** What stands between a percent sign and its conversion, and where the conversion is. */
  datatype Directive = Directive(fill: char, width: int, prec: int, conv: char, pos: nat, arg: nat)

  function ReadDirective(fmt: CString, args: nat -> Arg, pos: nat, arg: nat): (d: Directive)
    requires pos <= |fmt|
    ensures pos <= d.pos <= |fmt| && d.conv == At(fmt, d.pos)
  {
    var zero := At(fmt, pos) == '0';
    var width := ReadAmount(fmt, args, if zero then pos + 1 else pos, arg);
    var prec := if At(fmt, width.pos) == '.' then ReadAmount(fmt, args, width.pos + 1, width.arg)
                else Amount(0, width.pos, width.arg);
    var end := if At(fmt, prec.pos) == 'l' then prec.pos + 1 else prec.pos;
    Directive(if zero then '0' else ' ', width.value, prec.value, At(fmt, end), end, prec.arg)
  }

  // ---------------------------------------------------------------- what a format means

  datatype Output = Percent | Field(text: string, width: int, fill: char)

  /** A run of plain text and the directive after it, if there is one. */
  datatype Item = Tail(literal: string) | Item(literal: string, output: Output)

  function Unsigned(w: Word): nat {
    if w < 0 then w + 0x1_0000_0000 else w
  }

  function Magnitude(w: Word): nat {
    if w < 0 then -(w as int) else w
  }

  function SignOf(w: Word): Sign {
    if w < 0 then Minus else Plain
  }

  function Cut(s: string, n: int): (r: string)
    ensures |r| == if 0 <= n < |s| then n else |s|
    ensures |r| == |s| ==> r == s
  {
    if 0 <= n < |s| then s[..n] else s
  }

  function Character(w: Word): string {
    var c := Unsigned(w) % 256;
    if c == 0 then [] else [c as char]
  }

  predicate TakesArgument(conv: char) {
    conv in "doxXpsc"
  }

  function Text(conv: char, prec: int, a: Arg): string
    requires TakesArgument(conv)
  {
    if conv == 'd' then Number(Magnitude(a.word), 10, prec, SignOf(a.word))
    else if conv == 'o' then Number(Unsigned(a.word), 8, prec, Plain)
    else if conv == 'x' || conv == 'X' then Number(Unsigned(a.word), 16, prec, Plain)
    else if conv == 'p' then Number(Unsigned(a.word), 16, prec, Pointer)
    else Cut(if conv == 's' then a.text else Character(a.word), if prec > 0 then prec else -1)
  }

  function Meaning(d: Directive, args: nat -> Arg): Output {
    if TakesArgument(d.conv) then Field(Text(d.conv, d.prec, args(d.arg)), d.width, d.fill) else Percent
  }

  /** Where the format goes on: an unrecognised conversion is left to be copied as text. */
  function NextPos(d: Directive): (p: nat)
    ensures d.pos <= p <= d.pos + 1
    ensures p > d.pos ==> d.conv != '\0'
  {
    if TakesArgument(d.conv) || d.conv == '%' then d.pos + 1 else d.pos
  }

  function NextArg(d: Directive): nat {
    if TakesArgument(d.conv) then d.arg + 1 else d.arg
  }

  function Items(fmt: CString, args: nat -> Arg, pos: nat, arg: nat): seq<Item>
    requires pos <= |fmt|
    decreases |fmt| - pos
  {
    if pos == |fmt| then []
    else
      var e := LiteralEnd(fmt, pos);
      if e == |fmt| then [Tail(fmt[pos..e])]
      else
        var d := ReadDirective(fmt, args, e + 1, arg);
        [Item(fmt[pos..e], Meaning(d, args))] + Items(fmt, args, NextPos(d), NextArg(d))
  }

  function Padding(fill: char, n: int): (r: string)
    ensures |r| == Max(n, 0)
  {
    seq(Max(n, 0), _ => fill)
  }

  /** What an output is when there is room for it. */
  function Whole(o: Output): (r: string)
    ensures o == Percent ==> r == "%"
  {
    match o
    case Percent => "%"
    case Field(text, width, fill) => Padding(fill, width - |text|) + text
  }

  /** What the format means, without a bound. */
  function Full(items: seq<Item>): string {
    if items == [] then []
    else
      match items[0]
      case Tail(literal) => literal
      case Item(literal, o) => literal + (Whole(o) + Full(items[1..]))
  }

  // ---------------------------------------------------------------- what the loop writes

  /** A field in the room that is left. */
  function Fitted(text: string, width: int, fill: char, room: nat): (r: string)
    ensures |r| == Min(room, Max(width, |text|))
  {
    var pad := Padding(fill, Min(width, room) - |text|);
    pad + Cut(text, room - |pad|)
  }

  /** An output in the room that is left; a percent sign is written even in no room. */
  function Bounded(o: Output, room: nat): (r: string)
    ensures o.Percent? ==> r == "%"
    ensures |r| <= room || (o.Percent? && |r| == 1)
  {
    match o
    case Percent => "%"
    case Field(text, width, fill) => Fitted(text, width, fill, room)
  }

  /** What the loop writes for the items left with this room left, before the final NUL. */
  function Render(items: seq<Item>, room: int): string {
    if room <= 0 || items == [] then []
    else
      var literal := Cut(items[0].literal, room);
      var left := room - |literal|;
      match items[0]
      case Tail(_) => literal
      case Item(_, o) =>
        var run := Bounded(o, left);
        literal + (run + Render(items[1..], left - |run|))
  }

  /** The case in which the loop writes past its room: a text that is not empty takes up all of
      it, and then an unrecognised directive follows. */
  predicate Overflows(items: seq<Item>, room: int) {
    && items != [] && room > 0
    && (|| IsOverrun(items[0], room)
        || (items[0].Item? && Overflows(items[1..], room - |items[0].literal| - |Whole(items[0].output)|)))
  }

  predicate IsOverrun(i: Item, room: int) {
    i.Item? && i.output == Percent && i.literal != [] && |i.literal| >= room
  }

  // ---------------------------------------------------------------- what the bound keeps

  lemma FittedIsWhole(text: string, width: int, fill: char, room: nat)
    ensures |Whole(Field(text, width, fill))| == Max(width, |text|)
    ensures Max(width, |text|) <= room ==> Fitted(text, width, fill, room) == Whole(Field(text, width, fill))
  {
  }

  lemma OneItem(items: seq<Item>, room: nat)
    requires items != [] && items[0].Item? && room > 0
    ensures var rest, o := items[1..], items[0].output;
      var literal, whole := |items[0].literal|, |Whole(o)|;
      var left := room - Min(literal, room);
      var written := if o.Percent? then 1 else Min(left, whole);
      && whole >= 0 && |Full(items)| == literal + whole + |Full(rest)|
      && |Render(items, room)| == room - left + written + |Render(rest, left - written)|
  {
    hide Fitted, Whole, Cut;
    if items[0].output.Field? {
      var o := items[0].output;
      FittedIsWhole(o.text, o.width, o.fill, room);
    }
  }

  lemma NoMoreItems(items: seq<Item>, room: nat)
    requires room == 0 || items == [] || items[0].Tail?
    ensures !Overflows(items, room) && |Render(items, room)| == Min(room, |Full(items)|)
  {
  }

  lemma OverflowsIs(items: seq<Item>, room: nat)
    requires items != [] && items[0].Item? && room > 0
    ensures var left := room - |items[0].literal| - |Whole(items[0].output)|;
      && Overflows(items, room) == (IsOverrun(items[0], room) || (left > 0 && Overflows(items[1..], left)))
    ensures items[0].output.Percent? ==> |Whole(items[0].output)| == 1
    ensures Render(items[1..], -1) == []
    ensures IsOverrun(items[0], room) <==>
      items[0].output.Percent? && |items[0].literal| > 0 && |items[0].literal| >= room
  {
  }

  /** The count returned is the length of what the format means, cut to the room there is;
      only in the overflowing case is it one more than the room. */
  lemma {:induction false} RenderLength(items: seq<Item>, room: nat)
    ensures |Render(items, room)| == if Overflows(items, room) then room + 1 else Min(room, |Full(items)|)
    decreases items
  {
    hide Full, Render, Overflows, Whole, IsOverrun;
    if room == 0 || items == [] || items[0].Tail? {
      NoMoreItems(items, room);
    } else {
      OneItem(items, room);
      OverflowsIs(items, room);
      var left := room - |items[0].literal| - |Whole(items[0].output)|;
      if left > 0 {
        RenderLength(items[1..], left);
      } else {
        NoMoreItems(items[1..], 0);
      }
    }
  }

  /** What fits is written whole. */
  lemma {:induction false} WhatFitsIsWhole(items: seq<Item>, room: nat)
    requires |Full(items)| <= room
    ensures Render(items, room) == Full(items) && !Overflows(items, room)
    decreases items
  {
    hide *;
    RenderLength(items, room);
    if room > 0 && items != [] && items[0].Item? {
      RoomForItem(items, room);
      WhatFitsIsWhole(items[1..], room - |items[0].literal| - |Whole(items[0].output)|);
      FullIs(items);
    } else {
      NothingCut(items, room);
    }
  }

  lemma NothingCut(items: seq<Item>, room: nat)
    requires |Full(items)| <= room && (room == 0 || items == [] || items[0].Tail?)
    ensures Render(items, room) == Full(items) && !Overflows(items, room)
  {
    hide Whole;
  }

  lemma RoomForItem(items: seq<Item>, room: nat)
    requires |Full(items)| <= room && room > 0 && items != [] && items[0].Item?
    ensures var literal, o := items[0].literal, items[0].output;
      var left := room - |literal| - |Whole(o)|;
      && left >= 0 && |Full(items[1..])| <= left
      && Render(items, room) == literal + (Whole(o) + Render(items[1..], left))
      && (Overflows(items, room) ==> Overflows(items[1..], left))
  {
    hide Fitted, Whole, Cut, Full, Overflows;
    FullIs(items);
    OverflowsIs(items, room);
    var o := items[0].output;
    if o.Field? {
      FittedIsWhole(o.text, o.width, o.fill, room - |items[0].literal|);
    }
  }

  lemma FullIs(items: seq<Item>)
    requires items != [] && items[0].Item?
    ensures Full(items) == items[0].literal + (Whole(items[0].output) + Full(items[1..]))
  {
  }

  // ---------------------------------------------------------------- what does not fit

  /** A field that does not fit loses padding first: the text stands at the end of the room, and
      only where the text alone does not fit is it cut. */
  lemma TightFieldKeepsText(text: string, width: int, fill: char, room: nat)
    requires room < Max(width, |text|)
    ensures Bounded(Field(text, width, fill), room)
         == if |text| <= room then seq(room - |text|, _ => fill) + text else text[..room]
  {
    assert |text| > room ==> Padding(fill, Min(width, room) - |text|) == [];
  }

  /** The item at which the room ends: its plain text, cut to the room, then what the room has of
      its directive, and nothing of the items behind it. */
  lemma TightItem(literal: string, o: Output, rest: seq<Item>, room: nat)
    requires room > 0 && |literal| + |Whole(o)| >= room
    ensures var left := room - |literal|;
      Render([Item(literal, o)] + rest, room)
        == if left <= 0 then literal[..room] + (if o.Percent? then "%" else "")
           else literal + (if o.Percent? then "%" else if |Whole(o)| == left then Whole(o)
                           else Bounded(o, left))
  {
    hide Whole, Fitted;
    var items := [Item(literal, o)] + rest;
    assert items[1..] == rest;
    var left := room - |Cut(literal, room)|;
    if o.Field? {
      FittedIsWhole(o.text, o.width, o.fill, left);
      assert |Bounded(o, left)| == left;
    }
    assert Render(rest, left - |Bounded(o, left)|) == [];
    assert |literal| >= room ==> literal[..room] == Cut(literal, room);
  }

  /** Everything before that item is written whole. */
  lemma {:induction false} WholeUpTo(items: seq<Item>, k: nat, room: nat)
    requires k < |items| && |Full(items[..k])| < room && forall j :: 0 <= j < k ==> items[j].Item?
    ensures Render(items, room) == Full(items[..k]) + Render(items[k..], room - |Full(items[..k])|)
    decreases k
  {
    hide Render, Whole, Full, Bounded;
    if k == 0 {
      NothingBefore(items);
    } else {
      var literal, o := items[0].literal, items[0].output;
      assert items[..k][1..] == items[1..][..k - 1] && items[1..][k - 1..] == items[k..];
      FullIs(items[..k]);
      var left := room - |literal| - |Whole(o)|;
      WholeItem(items, room);
      WholeUpTo(items[1..], k - 1, left);
    }
  }

  lemma NothingBefore(items: seq<Item>)
    ensures Full(items[..0]) == [] && items[0..] == items
  {
  }

  lemma WholeItem(items: seq<Item>, room: nat)
    requires items != [] && items[0].Item? && room > |items[0].literal| + |Whole(items[0].output)|
    ensures Render(items, room) == items[0].literal + (Whole(items[0].output)
              + Render(items[1..], room - |items[0].literal| - |Whole(items[0].output)|))
  {
    hide Whole, Fitted;
    var o := items[0].output;
    if o.Field? {
      FittedIsWhole(o.text, o.width, o.fill, room - |items[0].literal|);
    }
  }

  // ---------------------------------------------------------------- when the bound is kept

  /** Only the last item can be without a directive. */
  predicate TailIsLast(items: seq<Item>) {
    forall j :: 0 <= j < |items| - 1 ==> items[j].Item?
  }

  function Formatted(fmt: CString, args: nat -> Arg): (items: seq<Item>)
    ensures TailIsLast(items)
  {
    ItemsTail(fmt, args, 0, 0);
    Items(fmt, args, 0, 0)
  }

  lemma {:induction false} ItemsTail(fmt: CString, args: nat -> Arg, pos: nat, arg: nat)
    requires pos <= |fmt|
    ensures TailIsLast(Items(fmt, args, pos, arg))
    decreases |fmt| - pos
  {
    hide ReadDirective, Meaning, LiteralEnd, NextArg, Items;
    if pos == |fmt| {
      ItemsEnd(fmt, args, arg);
    } else if LiteralEnd(fmt, pos) == |fmt| {
      ItemsTailIs(fmt, args, pos, arg);
    } else {
      ItemsIs(fmt, args, pos, arg);
      var d := ReadDirective(fmt, args, LiteralEnd(fmt, pos) + 1, arg);
      ItemsTail(fmt, args, NextPos(d), NextArg(d));
    }
  }

  lemma ItemsEnd(fmt: CString, args: nat -> Arg, arg: nat)
    ensures Items(fmt, args, |fmt|, arg) == []
  {
  }

  lemma ItemsTailIs(fmt: CString, args: nat -> Arg, pos: nat, arg: nat)
    requires pos < |fmt| && LiteralEnd(fmt, pos) == |fmt|
    ensures Items(fmt, args, pos, arg) == [Tail(fmt[pos..])]
  {
    assert fmt[pos..|fmt|] == fmt[pos..];
  }

  /** Item `i` is an unrecognised directive after a text that begins inside the room and takes
      up the rest of it, counting positions in what the format means without a bound. */
  predicate OverrunAt(items: seq<Item>, room: nat, i: nat) {
    && i < |items| && items[i] == Item(items[i].literal, Percent) && items[i].literal != []
    && |Full(items[..i])| < room <= |Full(items[..i])| + |items[i].literal|
  }

  ghost predicate Overruns(items: seq<Item>, room: nat) {
    exists i: nat :: OverrunAt(items, room, i)
  }

  lemma OverrunMoves(items: seq<Item>, room: nat, left: nat, i: nat)
    requires items != [] && items[0].Item? && left == room - |items[0].literal| - |Whole(items[0].output)|
    ensures OverrunAt(items, room, i + 1) <==> OverrunAt(items[1..], left, i)
  {
    if i + 1 < |items| {
      assert items[..i + 1][1..] == items[1..][..i];
      FullIs(items[..i + 1]);
    }
    hide Full, Whole;
  }

  lemma NoOverrunBehind(items: seq<Item>, room: nat, i: nat)
    requires items != [] && items[0].Item? && room <= |items[0].literal| + |Whole(items[0].output)|
    ensures !OverrunAt(items, room, i + 1)
  {
    if i + 1 < |items| {
      FullIs(items[..i + 1]);
    }
  }

  lemma {:induction false} OverflowsWhere(items: seq<Item>, room: nat)
    requires TailIsLast(items)
    ensures Overflows(items, room) <==> Overruns(items, room)
    decreases items
  {
    hide Whole, Full;
    if items == [] || room == 0 {
    } else if items[0].Tail? {
      assert |items| == 1;
    } else {
      var left := room - |items[0].literal| - |Whole(items[0].output)|;
      OverflowsIs(items, room);
      assert OverrunAt(items, room, 0) == IsOverrun(items[0], room) by {
        FirstOverrun(items, room);
      }
      if left > 0 {
        OverflowsWhere(items[1..], left);
      }
      hide OverrunAt, Overflows, IsOverrun;
      if left > 0 && exists i: nat :: OverrunAt(items[1..], left, i) {
        var i: nat :| OverrunAt(items[1..], left, i);
        OverrunMoves(items, room, left, i);
        assert OverrunAt(items, room, i + 1);
      }
      if i: nat :| OverrunAt(items, room, i) && i > 0 {
        if left > 0 {
          OverrunMoves(items, room, left, i - 1);
        } else {
          NoOverrunBehind(items, room, i - 1);
        }
      }
    }
  }

  lemma FirstOverrun(items: seq<Item>, room: nat)
    requires items != [] && room > 0
    ensures OverrunAt(items, room, 0) == IsOverrun(items[0], room)
  {
    assert Full(items[..0]) == [];
  }

  /** With a buffer of at least one byte: what is written, with the NUL, stays inside exactly
      when no unrecognised directive follows a text that fills the buffer up; otherwise it is
      one byte too long. What fits is written whole, and otherwise, without an overflow, all
      of the buffer is used. */
  lemma StaysInBuffer(fmt: CString, args: nat -> Arg, buflen: nat)
    requires buflen >= 1
    ensures var items := Formatted(fmt, args);
      var n := |Render(items, buflen - 1)|;
      && (n + 1 <= buflen <==> !Overruns(items, buflen - 1))
      && (n + 1 > buflen ==> n + 1 == buflen + 1)
      && (n + 1 <= buflen ==> n == Min(buflen - 1, |Full(items)|))
      && (|Full(items)| < buflen ==> Render(items, buflen - 1) == Full(items))
  {
    hide Render, Full, Overruns, Overflows, Formatted;
    var items := Formatted(fmt, args);
    RenderLength(items, buflen - 1);
    OverflowsWhere(items, buflen - 1);
    if |Full(items)| < buflen {
      WhatFitsIsWhole(items, buflen - 1);
    }
  }

  /** A two-byte buffer does not hold what is written for this format: the percent sign and
      the NUL come to stand behind the letter that filled it. */
  lemma BoundIsBroken(args: nat -> Arg)
    ensures Render(Formatted("a%%", args), 2 - 1) == "a%"
  {
    var fmt: CString := "a%%";
    assert LiteralEnd(fmt, 1) == 1 && LiteralEnd(fmt, 0) == 1;
    var d := ReadDirective(fmt, args, 2, 0);
    assert d.conv == '%' && d.pos == 2;
    assert fmt[0..1] == "a";
    assert Meaning(d, args) == Percent && NextPos(d) == 3 && NextArg(d) == d.arg == 0;
    assert Items(fmt, args, 3, 0) == [];
    assert Items(fmt, args, 0, 0) == [Item("a", Percent)] + Items(fmt, args, 3, 0);
  }

  /** The text of a numeric conversion is a minus sign or the mark of a pointer, and then digits
      of its base that read back to the argument, or to its magnitude behind the minus sign: as
      many as the precision asks for and fit, and otherwise no more than the number needs. */
  lemma NumberTextReadsBack(conv: char, prec: int, a: Arg)
    requires conv in "doxXp"
    ensures var base := if conv == 'd' then 10 else if conv == 'o' then 8 else 16;
      var sign := if conv == 'd' && a.word < 0 then "-" else if conv == 'p' then "0x" else "";
      var t := Text(conv, prec, a);
      && sign <= t
      && var d := t[|sign|..];
      && |d| >= 1 && |d| >= Min(prec, 31 - |sign|) && AreDigits(d, base)
      && (|d| > 1 && |d| > prec ==> d[0] != '0')
      && ReadBack(d, base)
           == if conv == 'd' && a.word < 0 then -(a.word as int) else if a.word < 0 then a.word + 0x1_0000_0000 else a.word
  {
    hide ReadBack, Number, AreDigits, Width;
    if conv == 'd' {
      NumberReadsBack(Magnitude(a.word), 10, prec, SignOf(a.word));
    } else if conv == 'o' {
      NumberReadsBack(Unsigned(a.word), 8, prec, Plain);
    } else if conv == 'p' {
      NumberReadsBack(Unsigned(a.word), 16, prec, Pointer);
    } else {
      NumberReadsBack(Unsigned(a.word), 16, prec, Plain);
    }
  }

  /** A text conversion gives the text, cut to a precision that is not zero; a character
      conversion gives the low byte, or nothing if that is zero. */
  lemma OtherTextIs(prec: int, a: Arg)
    ensures Text('s', prec, a) == if 0 < prec < |a.text| then a.text[..prec] else a.text
    ensures Text('c', prec, a) == if a.word % 256 == 0 then "" else [(a.word % 256) as char]
  {
    assert Unsigned(a.word) % 256 == a.word % 256;
    hide Unsigned;
  }

  // ---------------------------------------------------------------- the loops

  method ScanLiteral(fmt: CString, pos: nat) returns (f: nat)
    requires pos <= |fmt|
    ensures f == LiteralEnd(fmt, pos)
  {
    f := pos;
    while At(fmt, f) != '%' && At(fmt, f) != '\0'
      invariant pos <= f <= |fmt| && LiteralEnd(fmt, f) == LiteralEnd(fmt, pos)
      decreases |fmt| - f
    {
      f := f + 1;
    }
  }

  method ScanAmount(fmt: CString, args: nat -> Arg, pos: nat, arg: nat) returns (a: Amount)
    requires pos <= |fmt|
    ensures a == ReadAmount(fmt, args, pos, arg)
  {
    if At(fmt, pos) == '*' {
      return Amount(args(arg).word, pos + 1, arg + 1);
    }
    var value, f := 0, pos;
    while IsDigit(At(fmt, f))
      invariant pos <= f <= DigitsEnd(fmt, pos) == DigitsEnd(fmt, f)
      invariant value == Decimal(fmt, pos, f)
      decreases |fmt| - f
    {
      value := value * 10 + DigitValue(At(fmt, f));
      f := f + 1;
    }
    a := Amount(value, f, arg);
  }

  method ScanDirective(fmt: CString, args: nat -> Arg, pos: nat, arg: nat) returns (d: Directive)
    requires pos <= |fmt|
    ensures d == ReadDirective(fmt, args, pos, arg)
  {
    hide ReadAmount;
    var fill, f := ' ', pos;
    if At(fmt, f) == '0' {
      fill := '0';
      f := f + 1;
    }
    var width := ScanAmount(fmt, args, f, arg);
    var prec := Amount(0, width.pos, width.arg);
    if At(fmt, width.pos) == '.' {
      prec := ScanAmount(fmt, args, width.pos + 1, width.arg);
    }
    f := prec.pos;
    if At(fmt, f) == 'l' {
      f := f + 1;
    }
    d := Directive(fill, width.value, prec.value, At(fmt, f), f, prec.arg);
  }

  method Convert(conv: char, prec: int, a: Arg) returns (text: string)
    requires TakesArgument(conv)
    ensures text == Text(conv, prec, a)
  {
    hide Number;
    if conv == 's' || conv == 'c' {
      text := if conv == 's' then a.text else Character(a.word);
      if prec > 0 && |text| > prec {
        text := text[..prec];
      }
      return;
    }
    var num := new char[NUM_SIZE];
    var str;
    if conv == 'd' {
      str := PutNumber(num, Magnitude(a.word), 10, prec, SignOf(a.word));
    } else if conv == 'o' {
      str := PutNumber(num, Unsigned(a.word), 8, prec, Plain);
    } else if conv == 'p' {
      str := PutNumber(num, Unsigned(a.word), 16, prec, Pointer);
    } else {
      str := PutNumber(num, Unsigned(a.word), 16, prec, Plain);
    }
    text := num[str..NUM_SIZE - 1];
  }

  method PutPadding(buf: array<char>, at: nat, fill: char, n: int)
    requires at + Max(n, 0) <= buf.Length
    modifies buf
    ensures buf[..] == Stored(old(buf[..]), at, Padding(fill, n))
  {
    ghost var was := buf[..];
    ghost var run := Padding(fill, n);
    StoreNothing(was, at);
    var k := 0;
    while k < n
      invariant 0 <= k <= |run| && buf[..] == Stored(was, at, run[..k])
    {
      StoreOne(was, at, run, k);
      hide Stored;
      ghost var before := buf[..];
      buf[at + k] := fill;
      assert buf[..] == before[at + k := run[k]];
      k := k + 1;
    }
    assert run[..k] == run;
  }

  lemma FittedIs(text: string, width: int, fill: char, room: nat)
    ensures var pad := if width > 0 then Max(Min(width, room) - |text|, 0) else 0;
      var run := if |text| > room - pad then text[..room - pad] else text;
      && 0 <= pad == Max(pad, 0) && pad + |run| <= room
      && Fitted(text, width, fill, room) == Padding(fill, pad) + run
  {
    var pad := if width > 0 then Max(Min(width, room) - |text|, 0) else 0;
    assert Padding(fill, Min(width, room) - |text|) == Padding(fill, pad);
    hide Padding;
  }

  method PutField(buf: array<char>, at: nat, text: string, width: int, fill: char, room: nat) returns (n: nat)
    requires at + room <= buf.Length
    modifies buf
    ensures n == |Fitted(text, width, fill, room)|
    ensures buf[..] == Stored(old(buf[..]), at, Fitted(text, width, fill, room))
  {
    hide *;
    FittedIs(text, width, fill, room);
    var pad := 0;
    if width > 0 {
      pad := Max(Min(width, room) - |text|, 0);
    }
    var run := if |text| > room - pad then text[..room - pad] else text;
    StoreOnward(buf[..], at, Padding(fill, pad), run);
    PutPadding(buf, at, fill, pad);
    Store(buf, at + pad, run);
    n := pad + |run|;
  }

  lemma LastRound(fmt: CString, args: nat -> Arg, pos: nat, arg: nat, room: nat)
    requires pos < |fmt| && room > 0 && LiteralEnd(fmt, pos) == |fmt|
    ensures Render(Items(fmt, args, pos, arg), room) == Cut(fmt[pos..], room)
  {
    hide Cut, Items;
    ItemsTailIs(fmt, args, pos, arg);
  }

  lemma ItemsIs(fmt: CString, args: nat -> Arg, pos: nat, arg: nat)
    requires pos < |fmt| && LiteralEnd(fmt, pos) < |fmt|
    ensures var e := LiteralEnd(fmt, pos);
      var d := ReadDirective(fmt, args, e + 1, arg);
      Items(fmt, args, pos, arg)
        == [Item(fmt[pos..e], Meaning(d, args))] + Items(fmt, args, NextPos(d), NextArg(d))
  {
    hide ReadDirective, Meaning, LiteralEnd, NextArg;
  }

  lemma RenderIs(literal: string, o: Output, rest: seq<Item>, room: nat)
    requires room > 0
    ensures var text := Cut(literal, room);
      var run := Bounded(o, room - |text|);
      Render([Item(literal, o)] + rest, room) == text + (run + Render(rest, room - |text| - |run|))
  {
    hide Cut, Bounded;
    assert ([Item(literal, o)] + rest)[1..] == rest;
  }

  /** Puts a directive into what room is left; this is where one byte too many can be written. */
  method PutDirective(buf: array<char>, at: nat, d: Directive, args: nat -> Arg, room: nat) returns (n: nat)
    requires at + room < buf.Length
    modifies buf
    ensures n == |Bounded(Meaning(d, args), room)|
    ensures buf[..] == Stored(old(buf[..]), at, Bounded(Meaning(d, args), room))
  {
    hide Stored, Fitted, Text;
    if TakesArgument(d.conv) {
      var text := Convert(d.conv, d.prec, args(d.arg));
      n := PutField(buf, at, text, d.width, d.fill, room);
    } else {
      Store(buf, at, "%");
      n := 1;
    }
  }

  lemma NothingLeft(fmt: CString, args: nat -> Arg, pos: nat, arg: nat, room: int)
    requires pos <= |fmt| && (pos == |fmt| || room <= 0)
    ensures Render(Items(fmt, args, pos, arg), room) == []
  {
  }

  /** One round of the loop: a run of text, and a directive if one follows it. */
  method PutRound(buf: array<char>, at: nat, room: nat, format: CString, args: nat -> Arg, fmt: nat, arg: nat)
    returns (n: nat, nextFmt: nat, nextArg: nat, ghost run: string)
    requires fmt < |format| && room > 0 && at + room < buf.Length
    modifies buf
    ensures fmt < nextFmt <= |format| && n == |run| <= room + 1
    ensures buf[..] == Stored(old(buf[..]), at, run)
    ensures Render(Items(format, args, fmt, arg), room) == run + Render(Items(format, args, nextFmt, nextArg), room - n)
  {
    hide *;
    ghost var was := buf[..];
    var f := ScanLiteral(format, fmt);
    var literal := Cut(format[fmt..f], room);
    Store(buf, at, literal);
    n := |literal|;
    if f == |format| {
      LastRound(format, args, fmt, arg, room);
      NothingLeft(format, args, f, arg, room - n);
      nextFmt, nextArg, run := f, arg, literal;
      assert literal + [] == literal && format[fmt..f] == format[fmt..];
    } else {
      var d := ScanDirective(format, args, f + 1, arg);
      nextFmt, nextArg := NextPos(d), NextArg(d);
      NextIsInside(format, d);
      ghost var rest := Items(format, args, nextFmt, nextArg);
      ghost var output := Bounded(Meaning(d, args), room - n);
      ItemsIs(format, args, fmt, arg);
      RenderIs(format[fmt..f], Meaning(d, args), rest, room);
      StoreOnward(was, at, literal, output);
      var k := PutDirective(buf, at + n, d, args, room - n);
      assert literal + (output + Render(rest, room - n - k)) == literal + output + Render(rest, room - n - k);
      run, n := literal + output, n + k;
    }
  }

  lemma NextIsInside(fmt: CString, d: Directive)
    requires d.pos <= |fmt| && d.conv == At(fmt, d.pos)
    ensures NextPos(d) <= |fmt|
  {
  }

  /** How far the loop has come: `done` is written, and with what the rest of the format gives in
      the room left it is all of the output. */
  ghost predicate Progress(mem: string, was: string, out: string, done: string,
                           format: CString, args: nat -> Arg, fmt: nat, arg: nat, room: int)
  {
    && fmt <= |format| && |done| + room < |was| && |done| < |was|
    && mem == Stored(was, 0, done) && out == done + Render(Items(format, args, fmt, arg), room)
  }

  lemma Starts(was: string, format: CString, args: nat -> Arg, limit: int)
    requires 0 < |was| && limit + 1 < |was|
    ensures Progress(was, was, Render(Formatted(format, args), limit), [], format, args, 0, 0, limit)
  {
    StoreNothing(was, 0);
  }

  lemma Advances(mem: string, was: string, out: string, done: string, run: string, format: CString,
                 args: nat -> Arg, fmt: nat, arg: nat, room: nat, nextFmt: nat, nextArg: nat)
    requires Progress(mem, was, out, done, format, args, fmt, arg, room) && nextFmt <= |format|
    requires |run| <= room + 1 && |done| + room + 1 < |was|
    requires Render(Items(format, args, fmt, arg), room)
          == run + Render(Items(format, args, nextFmt, nextArg), room - |run|)
    ensures Progress(Stored(mem, |done|, run), was, out, done + run, format, args, nextFmt, nextArg, room - |run|)
  {
    hide Stored, Render, Items;
    Onward(was, done, run, Render(Items(format, args, nextFmt, nextArg), room - |run|));
  }

  lemma Onward(was: string, done: string, run: string, rest: string)
    requires |done| + |run| <= |was|
    ensures Stored(Stored(was, 0, done), |done|, run) == Stored(was, 0, done + run)
    ensures done + (run + rest) == done + run + rest
  {
    StoreOnward(was, 0, done, run);
  }

  lemma Ends(mem: string, was: string, out: string, done: string,
             format: CString, args: nat -> Arg, fmt: nat, arg: nat, room: int)
    requires Progress(mem, was, out, done, format, args, fmt, arg, room) && (room <= 0 || fmt == |format|)
    ensures out == done && mem == Stored(was, 0, done)
  {
    NothingLeft(format, args, fmt, arg, room);
  }

  method PutRounds(buf: array<char>, limit: int, format: CString, args: nat -> Arg)
    returns (at: nat, ghost done: string)
    requires 0 < buf.Length && limit + 1 < buf.Length
    modifies buf
    ensures done == Render(Formatted(format, args), limit)
    ensures at == |done| < buf.Length && buf[..] == Stored(old(buf[..]), 0, done)
  {
    hide *;
    ghost var was := buf[..];
    ghost var out := Render(Formatted(format, args), limit);
    Starts(was, format, args, limit);
    done := [];
    at := 0;
    var room, fmt, arg := limit, 0, 0;
    while room > 0 && fmt < |format|
      invariant fmt <= |format| && at + room == limit && at == |done| < buf.Length
      invariant Progress(buf[..], was, out, done, format, args, fmt, arg, room)
      decreases |format| - fmt
    {
      ghost var mem := buf[..];
      var n, nextFmt, nextArg;
      ghost var run;
      n, nextFmt, nextArg, run := PutRound(buf, at, room, format, args, fmt, arg);
      Advances(mem, was, out, done, run, format, args, fmt, arg, room, nextFmt, nextArg);
      done := done + run;
      at, room, fmt, arg := at + n, room - n, nextFmt, nextArg;
    }
    Ends(buf[..], was, out, done, format, args, fmt, arg, room);
  }

  /** The loop, on memory that starts at the buffer and has at least one byte behind its
      `size` bytes: what it writes, with the NUL, and what it leaves alone. */
  method Vsnprintf(buf: array<char>, size: int, format: CString, args: nat -> Arg) returns (count: nat)
    requires 0 < buf.Length && size < buf.Length
    modifies buf
    ensures var out := Render(Formatted(format, args), size - 1);
      count == |out| < buf.Length && buf[..] == Stored(old(buf[..]), 0, out + ['\0'])
  {
    hide *;
    ghost var was := buf[..];
    ghost var out;
    count, out := PutRounds(buf, size - 1, format, args);
    StoreOnward(was, 0, out, ['\0']);
    Store(buf, count, ['\0']);
  }
}
