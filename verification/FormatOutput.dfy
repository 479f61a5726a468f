/** From the text of a format to what it prints: formats written down piece by piece, and the
    output that the pieces ask for. */
module FormatOutput {
  import opened CStrings
  import opened FormatDigits
  import opened Vsnprintf

  /** A width or a precision: none, digits in the format, or a star. */
  datatype Quantity = Omitted | Written(digits: string) | Star

  /** The precision, where there is a dot. */
  datatype Dotted = NoDot | Dot(quantity: Quantity)

  /** How a directive ends: with a conversion, with a second percent sign, or with a character
      that is no conversion and is not part of it. */
  datatype Ending = Conversion(conv: char) | PercentSign | Stray

  datatype Piece = Piece(zero: bool, width: Quantity, prec: Dotted, long: bool, ending: Ending)

  /** Plain text, and a directive and what follows it where there is one. */
  datatype Format = End(text: string) | Segment(text: string, piece: Piece, rest: Format)

  // ---------------------------------------------------------------- the text of a format

  function QuantityText(q: Quantity): string {
    match q
    case Omitted => ""
    case Written(digits) => digits
    case Star => "*"
  }

  function DottedText(d: Dotted): string {
    match d
    case NoDot => ""
    case Dot(q) => "." + QuantityText(q)
  }

  function EndingText(e: Ending): string {
    match e
    case Conversion(c) => [c]
    case PercentSign => "%"
    case Stray => ""
  }

  function ZeroText(zero: bool): string {
    if zero then "0" else ""
  }

  function LongText(long: bool): string {
    if long then "l" else ""
  }

  function PieceText(p: Piece): string {
    ZeroText(p.zero) + (QuantityText(p.width) + (DottedText(p.prec) + (LongText(p.long) + EndingText(p.ending))))
  }

  function FormatText(f: Format): string {
    match f
    case End(text) => text
    case Segment(text, piece, rest) => text + ("%" + (PieceText(piece) + FormatText(rest)))
  }

  predicate IsQuantity(q: Quantity) {
    q.Written? ==> q.digits != [] && forall k :: 0 <= k < |q.digits| ==> '0' <= q.digits[k] <= '9'
  }

  /** Reading the quantity stops at this character. */
  predicate Stops(q: Quantity, c: char) {
    match q
    case Omitted => !('0' <= c <= '9') && c != '*'
    case Written(_) => !('0' <= c <= '9')
    case Star => true
  }

  /** The character is no conversion and does not go on with the directive. */
  predicate IsStray(p: Piece, c: char) {
    && c !in "doxXpsc%"
    && (p.long || (c != 'l' && if p.prec.Dot? then Stops(p.prec.quantity, c) else c != '.' && Stops(p.width, c)))
  }

  /** The text can be read in one way only: a width does not begin with a zero unless the flag is
      there, and what is behind a stray directive is not part of it. */
  predicate IsPiece(p: Piece, behind: char) {
    && IsQuantity(p.width) && (p.prec.Dot? ==> IsQuantity(p.prec.quantity))
    && (p.width.Written? && !p.zero ==> p.width.digits[0] != '0')
    && (p.ending.Conversion? ==> p.ending.conv in "doxXpsc")
    && (p.ending.Stray? ==> IsStray(p, behind))
  }

  predicate IsFormat(f: Format)
    decreases f
  {
    '%' !in f.text && (f.Segment? ==> IsPiece(f.piece, At0(FormatText(f.rest))) && IsFormat(f.rest))
  }

  function At0(s: string): char {
    if s == [] then '\0' else s[0]
  }

  // ---------------------------------------------------------------- the output it asks for

  function QuantityValue(q: Quantity, args: nat -> Arg, arg: nat): int {
    match q
    case Omitted => 0
    case Written(digits) => ReadBack(digits, 10)
    case Star => args(arg).word
  }

  function QuantityArgs(q: Quantity): nat {
    if q.Star? then 1 else 0
  }

  function DottedValue(d: Dotted, args: nat -> Arg, arg: nat): int {
    if d.Dot? then QuantityValue(d.quantity, args, arg) else 0
  }

  function DottedArgs(d: Dotted): nat {
    if d.Dot? then QuantityArgs(d.quantity) else 0
  }

  /** The padding on the left up to the width, of zeros with the flag and of blanks without it,
      and the text. */
  function Justified(text: string, width: int, zero: bool): string {
    seq(Max(width - |text|, 0), _ => if zero then '0' else ' ') + text
  }

  /** The width, then the precision, then the conversion take their arguments in order; what is
      no conversion prints a percent sign. */
  function Printed(f: Format, args: nat -> Arg, arg: nat): string
    requires IsFormat(f)
    decreases f
  {
    match f
    case End(text) => text
    case Segment(text, p, rest) =>
      var arg1 := arg + QuantityArgs(p.width);
      var arg2 := arg1 + DottedArgs(p.prec);
      if p.ending.Conversion? then
        text + (Justified(Text(p.ending.conv, DottedValue(p.prec, args, arg1), args(arg2)),
                          QuantityValue(p.width, args, arg), p.zero)
                + Printed(rest, args, arg2 + 1))
      else text + ("%" + Printed(rest, args, arg2))
  }

  // ---------------------------------------------------------------- reading the text

  /** `text` is what is left of the format at `pos`. */
  predicate Left(fmt: string, pos: nat, text: string) {
    pos <= |fmt| && fmt[pos..] == text
  }

  lemma Onward(fmt: CString, pos: nat, a: string, b: string)
    requires Left(fmt, pos, a + b)
    ensures Left(fmt, pos + |a|, b) && fmt[pos..pos + |a|] == a
    ensures a != [] ==> At(fmt, pos) == a[0]
    ensures At(fmt, pos + |a|) == At0(b)
  {
    assert (a + b)[..|a|] == a && (a + b)[|a|..] == b;
    assert fmt[pos..][..|a|] == fmt[pos..pos + |a|];
    assert fmt[pos..][|a|..] == fmt[pos + |a|..];
    if a != [] {
      assert fmt[pos..][0] == fmt[pos];
    }
    if b != [] {
      assert fmt[pos + |a|..][0] == fmt[pos + |a|];
    }
  }

  lemma {:induction false} DecimalIs(fmt: CString, pos: nat, end: nat)
    requires pos <= end <= |fmt| && forall j :: pos <= j < end ==> IsDigit(fmt[j])
    ensures Decimal(fmt, pos, end) == ReadBack(fmt[pos..end], 10)
    decreases end
  {
    if pos < end {
      DecimalIs(fmt, pos, end - 1);
      assert fmt[pos..end] == fmt[pos..end - 1] + [fmt[end - 1]];
      ReadBackMore(fmt[pos..end - 1], fmt[end - 1], 10);
    }
  }

  /** A quantity is read to its end when no digit follows its digits, and no star stands where
      it is left out. */
  lemma ReadsQuantity(fmt: CString, args: nat -> Arg, pos: nat, arg: nat, q: Quantity, rest: string)
    requires IsQuantity(q) && Left(fmt, pos, QuantityText(q) + rest)
    requires Stops(q, At0(rest))
    ensures ReadAmount(fmt, args, pos, arg)
         == Amount(QuantityValue(q, args, arg), pos + |QuantityText(q)|, arg + QuantityArgs(q))
  {
    hide Decimal, ReadBack, Left;
    Onward(fmt, pos, QuantityText(q), rest);
    assert Left(fmt, pos, QuantityText(q) + rest) ==> pos <= |fmt| && pos + |QuantityText(q)| <= |fmt| by {
      LeftIs(fmt, pos, QuantityText(q) + rest);
    }
    match q
    case Omitted =>
      assert DigitsEnd(fmt, pos) == pos;
      DecimalIs(fmt, pos, pos);
      ReadBackMore([], '0', 10);
      assert fmt[pos..pos] == [];
    case Star =>
    case Written(digits) =>
      var end := pos + |digits|;
      forall j | pos <= j < end ensures IsDigit(fmt[j]) {
        assert fmt[pos..end][j - pos] == fmt[j];
      }
      assert DigitsEnd(fmt, pos) == end;
      DecimalIs(fmt, pos, end);
  }

  lemma LeftIs(fmt: CString, pos: nat, text: string)
    requires Left(fmt, pos, text)
    ensures pos <= |fmt| && pos + |text| == |fmt|
  {
  }

  /** A dot and the precision, or neither. */
  lemma ReadsDotted(fmt: CString, args: nat -> Arg, pos: nat, arg: nat, d: Dotted, rest: string)
    requires (d.Dot? ==> IsQuantity(d.quantity)) && Left(fmt, pos, DottedText(d) + rest)
    requires if d.Dot? then Stops(d.quantity, At0(rest)) else At0(rest) != '.'
    ensures (At(fmt, pos) == '.') == d.Dot?
    ensures d.Dot? ==> pos < |fmt|
    ensures d.Dot? ==>
      ReadAmount(fmt, args, pos + 1, arg) == Amount(DottedValue(d, args, arg), pos + |DottedText(d)|, arg + DottedArgs(d))
  {
    hide ReadAmount, Left, IsQuantity, QuantityValue;
    match d
    case NoDot =>
      Onward(fmt, pos, "", rest);
      assert DottedText(d) + rest == "" + rest;
    case Dot(q) =>
      assert DottedText(d) + rest == "." + (QuantityText(q) + rest);
      Onward(fmt, pos, ".", QuantityText(q) + rest);
      LeftIs(fmt, pos, "." + (QuantityText(q) + rest));
      ReadsQuantity(fmt, args, pos + 1, arg, q, rest);
  }

  function EndingChar(e: Ending, rest: string): char {
    match e
    case Conversion(c) => c
    case PercentSign => '%'
    case Stray => At0(rest)
  }

  lemma FirstOfEnding(p: Piece, rest: string)
    requires IsPiece(p, At0(rest))
    ensures At0(EndingText(p.ending) + rest) == EndingChar(p.ending, rest)
    ensures var c := At0(LongText(p.long) + (EndingText(p.ending) + rest));
      && (c == 'l') == p.long
      && if p.prec.Dot? then Stops(p.prec.quantity, c) else c != '.' && Stops(p.width, c)
  {
    hide IsQuantity;
    assert p.ending.Conversion? ==> !('0' <= p.ending.conv <= '9') && p.ending.conv !in "*.l";
    var e := EndingText(p.ending) + rest;
    assert p.ending.Stray? ==> e == rest;
    assert !p.long ==> LongText(p.long) + e == e;
  }

  lemma FirstOfWidth(p: Piece, rest: string, tail: string)
    requires IsPiece(p, At0(rest)) && tail == LongText(p.long) + (EndingText(p.ending) + rest)
    ensures Stops(p.width, At0(DottedText(p.prec) + tail))
    ensures !p.zero ==> At0(QuantityText(p.width) + (DottedText(p.prec) + tail)) != '0'
  {
    FirstOfEnding(p, rest);
    hide EndingText, LongText;
    var s := DottedText(p.prec) + tail;
    assert p.prec.NoDot? ==> s == tail;
    assert p.width.Omitted? ==> QuantityText(p.width) + s == s;
  }

  lemma ReadDirectiveIs(fmt: CString, args: nat -> Arg, pos: nat, arg: nat, zero: bool, width: Amount, dot: bool, prec: Amount,
                        long: bool)
    requires pos <= |fmt| && zero == (At(fmt, pos) == '0')
    requires width == ReadAmount(fmt, args, pos + (if zero then 1 else 0), arg)
    requires dot == (At(fmt, width.pos) == '.')
    requires prec == if dot then ReadAmount(fmt, args, width.pos + 1, width.arg) else Amount(0, width.pos, width.arg)
    requires long == (At(fmt, prec.pos) == 'l')
    ensures var end := prec.pos + (if long then 1 else 0);
      ReadDirective(fmt, args, pos, arg)
        == Directive(if zero then '0' else ' ', width.value, prec.value, At(fmt, end), end, prec.arg)
  {
    hide ReadAmount;
  }

  lemma Nested(p: Piece, rest: string)
    ensures PieceText(p) + rest
         == ZeroText(p.zero) + (QuantityText(p.width) + (DottedText(p.prec) + (LongText(p.long) + (EndingText(p.ending) + rest))))
  {
    hide ZeroText, QuantityText, DottedText, LongText, EndingText;
  }

  /** What is left at the long sign, at the dot and at the width of a directive. */
  function LongLeft(p: Piece, rest: string): string {
    LongText(p.long) + (EndingText(p.ending) + rest)
  }

  function DottedLeft(p: Piece, rest: string): string {
    DottedText(p.prec) + LongLeft(p, rest)
  }

  function WidthLeft(p: Piece, rest: string): string {
    QuantityText(p.width) + DottedLeft(p, rest)
  }

  function WidthPos(p: Piece, pos: nat): nat {
    pos + |ZeroText(p.zero)|
  }

  function DottedPos(p: Piece, pos: nat): nat {
    WidthPos(p, pos) + |QuantityText(p.width)|
  }

  function LongPos(p: Piece, pos: nat): nat {
    DottedPos(p, pos) + |DottedText(p.prec)|
  }

  function EndingPos(p: Piece, pos: nat): nat {
    LongPos(p, pos) + |LongText(p.long)|
  }

  lemma ReachesDot(fmt: CString, pos: nat, p: Piece, rest: string)
    requires Left(fmt, pos, PieceText(p) + rest)
    ensures Left(fmt, WidthPos(p, pos), WidthLeft(p, rest)) && Left(fmt, DottedPos(p, pos), DottedLeft(p, rest))
    ensures At(fmt, pos) == if p.zero then '0' else At0(WidthLeft(p, rest))
    ensures At(fmt, DottedPos(p, pos)) == At0(DottedLeft(p, rest))
    ensures pos <= |fmt|
  {
    hide Left, PieceText, LongLeft, QuantityText, DottedText;
    Nested(p, rest);
    assert ZeroText(p.zero) + WidthLeft(p, rest) == PieceText(p) + rest by {
      NestedIs(p, rest);
    }
    LeftIs(fmt, pos, PieceText(p) + rest);
    Onward(fmt, pos, ZeroText(p.zero), WidthLeft(p, rest));
    Onward(fmt, WidthPos(p, pos), QuantityText(p.width), DottedLeft(p, rest));
  }

  lemma NestedIs(p: Piece, rest: string)
    ensures ZeroText(p.zero) + WidthLeft(p, rest)
         == ZeroText(p.zero) + (QuantityText(p.width) + (DottedText(p.prec) + (LongText(p.long) + (EndingText(p.ending) + rest))))
  {
    hide ZeroText, QuantityText, DottedText, LongText, EndingText;
  }

  lemma PartsAre(p: Piece, pos: nat, rest: string)
    ensures DottedLeft(p, rest) == DottedText(p.prec) + LongLeft(p, rest)
    ensures LongLeft(p, rest) == LongText(p.long) + (EndingText(p.ending) + rest)
    ensures LongPos(p, pos) == DottedPos(p, pos) + |DottedText(p.prec)|
    ensures EndingPos(p, pos) == LongPos(p, pos) + |LongText(p.long)|
  {
    hide DottedText, LongText, EndingText;
  }

  lemma ReachesEnd(fmt: CString, pos: nat, p: Piece, rest: string)
    requires Left(fmt, DottedPos(p, pos), DottedLeft(p, rest))
    ensures Left(fmt, LongPos(p, pos), LongLeft(p, rest)) && Left(fmt, EndingPos(p, pos), EndingText(p.ending) + rest)
    ensures Left(fmt, EndingPos(p, pos) + |EndingText(p.ending)|, rest)
    ensures At(fmt, LongPos(p, pos)) == At0(LongLeft(p, rest))
    ensures At(fmt, EndingPos(p, pos)) == At0(EndingText(p.ending) + rest)
  {
    hide *;
    PartsAre(p, pos, rest);
    Onward(fmt, DottedPos(p, pos), DottedText(p.prec), LongLeft(p, rest));
    Onward(fmt, LongPos(p, pos), LongText(p.long), EndingText(p.ending) + rest);
    Onward(fmt, EndingPos(p, pos), EndingText(p.ending), rest);
  }

  /** A directive is read to its end, and what it says is what it means. */
  lemma ReadsPiece(fmt: CString, args: nat -> Arg, pos: nat, arg: nat, p: Piece, rest: string)
    requires Left(fmt, pos, PieceText(p) + rest) && IsPiece(p, At0(rest))
    ensures var arg1 := arg + QuantityArgs(p.width);
      && pos <= |fmt| && Left(fmt, EndingPos(p, pos) + |EndingText(p.ending)|, rest)
      && ReadDirective(fmt, args, pos, arg)
         == Directive(if p.zero then '0' else ' ', QuantityValue(p.width, args, arg), DottedValue(p.prec, args, arg1),
                      EndingChar(p.ending, rest), EndingPos(p, pos), arg1 + DottedArgs(p.prec))
  {
    hide *;
    ReachesDot(fmt, pos, p, rest);
    ReachesEnd(fmt, pos, p, rest);
    FirstChars(p, rest);
    PositionsAre(p, pos);
    ReadsQuantity(fmt, args, WidthPos(p, pos), arg, p.width, DottedLeft(p, rest));
    var width := Amount(QuantityValue(p.width, args, arg), DottedPos(p, pos), arg + QuantityArgs(p.width));
    ReadsDotted(fmt, args, DottedPos(p, pos), width.arg, p.prec, LongLeft(p, rest));
    var prec := Amount(DottedValue(p.prec, args, width.arg), LongPos(p, pos), width.arg + DottedArgs(p.prec));
    NoDotIs(p.prec, args, width.arg);
    ReadDirectiveIs(fmt, args, pos, arg, p.zero, width, p.prec.Dot?, prec, p.long);
  }

  lemma FirstChars(p: Piece, rest: string)
    requires IsPiece(p, At0(rest))
    ensures IsQuantity(p.width) && (p.prec.Dot? ==> IsQuantity(p.prec.quantity))
    ensures At0(EndingText(p.ending) + rest) == EndingChar(p.ending, rest)
    ensures var c := At0(LongLeft(p, rest));
      (c == 'l') == p.long && if p.prec.Dot? then Stops(p.prec.quantity, c) else c != '.'
    ensures Stops(p.width, At0(DottedLeft(p, rest)))
    ensures !p.zero ==> At0(WidthLeft(p, rest)) != '0'
    ensures WidthLeft(p, rest) == QuantityText(p.width) + DottedLeft(p, rest)
    ensures DottedLeft(p, rest) == DottedText(p.prec) + LongLeft(p, rest)
  {
    FirstOfEnding(p, rest);
    FirstOfWidth(p, rest, LongLeft(p, rest));
    hide IsQuantity, Stops, DottedText, LongText, EndingText;
  }

  lemma PositionsAre(p: Piece, pos: nat)
    ensures WidthPos(p, pos) == pos + if p.zero then 1 else 0
    ensures DottedPos(p, pos) == WidthPos(p, pos) + |QuantityText(p.width)|
    ensures LongPos(p, pos) == DottedPos(p, pos) + |DottedText(p.prec)|
    ensures EndingPos(p, pos) == LongPos(p, pos) + if p.long then 1 else 0
  {
  }

  lemma NoDotIs(d: Dotted, args: nat -> Arg, arg: nat)
    ensures d.NoDot? ==> DottedText(d) == [] && DottedArgs(d) == 0 && DottedValue(d, args, arg) == 0
  {
  }

  // ---------------------------------------------------------------- what is printed

  lemma LiteralEndIs(fmt: CString, pos: nat, text: string, rest: string)
    requires Left(fmt, pos, text + rest) && '%' !in text && (rest == [] || rest[0] == '%')
    ensures pos <= |fmt| && pos + |text| <= |fmt|
    ensures LiteralEnd(fmt, pos) == pos + |text| && fmt[pos..pos + |text|] == text
  {
    Onward(fmt, pos, text, rest);
    LeftIs(fmt, pos, text + rest);
    forall j | pos <= j < pos + |text| ensures fmt[j] != '%' {
      assert fmt[j] == text[j - pos];
    }
    if rest != [] {
      assert fmt[pos + |text|] == rest[0];
    }
  }

  lemma OutputIs(p: Piece, d: Directive, args: nat -> Arg, rest: string)
    requires IsPiece(p, At0(rest)) && d.conv == EndingChar(p.ending, rest)
    ensures p.ending.Conversion? ==> TakesArgument(p.ending.conv)
    ensures NextPos(d) == d.pos + |EndingText(p.ending)|
    ensures NextArg(d) == d.arg + if p.ending.Conversion? then 1 else 0
    ensures Meaning(d, args)
         == if p.ending.Conversion? then Field(Text(p.ending.conv, d.prec, args(d.arg)), d.width, d.fill) else Percent
  {
    hide IsQuantity, Text;
  }

  lemma FieldIsJustified(text: string, width: int, zero: bool)
    ensures Whole(Field(text, width, if zero then '0' else ' ')) == Justified(text, width, zero)
  {
  }

  lemma FullOfItem(literal: string, o: Output, rest: seq<Item>)
    ensures Full([Item(literal, o)] + rest) == literal + (Whole(o) + Full(rest))
    ensures Full([Vsnprintf.Tail(literal)]) == literal && Full([]) == []
    ensures Whole(Percent) == "%"
  {
    hide Whole;
    FullIs([Item(literal, o)] + rest);
    assert ([Item(literal, o)] + rest)[1..] == rest;
  }

  lemma PrintsEnd(fmt: CString, args: nat -> Arg, pos: nat, arg: nat, text: string)
    requires Left(fmt, pos, text) && '%' !in text
    ensures pos <= |fmt| && Full(Items(fmt, args, pos, arg)) == text
  {
    assert text + [] == text;
    LiteralEndIs(fmt, pos, text, []);
    LeftIs(fmt, pos, text);
    FullOfItem(text, Percent, []);
    if pos < |fmt| {
      ItemsTailIs(fmt, args, pos, arg);
    }
  }

  /** The text and the directive at `pos` print as they should, and the format goes on behind. */
  lemma PrintsPiece(fmt: CString, args: nat -> Arg, pos: nat, arg: nat, text: string, p: Piece, rest: string)
    requires Left(fmt, pos, text + ("%" + (PieceText(p) + rest))) && '%' !in text && IsPiece(p, At0(rest))
    ensures var arg1 := arg + QuantityArgs(p.width);
      var arg2 := arg1 + DottedArgs(p.prec);
      var next := pos + |text| + 1;
      && pos <= |fmt| && next <= |fmt| && EndingPos(p, next) + |EndingText(p.ending)| <= |fmt|
      && Left(fmt, EndingPos(p, next) + |EndingText(p.ending)|, rest)
      && Full(Items(fmt, args, pos, arg))
         == text + ((if p.ending.Conversion? then
                      Justified(Text(p.ending.conv, DottedValue(p.prec, args, arg1), args(arg2)),
                                QuantityValue(p.width, args, arg), p.zero)
                    else "%")
                   + Full(Items(fmt, args, EndingPos(p, next) + |EndingText(p.ending)|,
                                arg2 + if p.ending.Conversion? then 1 else 0)))
  {
    hide *;
    var behind := "%" + (PieceText(p) + rest);
    assert behind[0] == '%';
    LiteralEndIs(fmt, pos, text, behind);
    var e := pos + |text|;
    Onward(fmt, pos, text, behind);
    Onward(fmt, e, "%", PieceText(p) + rest);
    LeftIs(fmt, e, behind);
    LeftIs(fmt, e + 1, PieceText(p) + rest);
    ReadsPiece(fmt, args, e + 1, arg, p, rest);
    LeftIs(fmt, EndingPos(p, e + 1) + |EndingText(p.ending)|, rest);
    var d := ReadDirective(fmt, args, e + 1, arg);
    OutputIs(p, d, args, rest);
    ItemsIs(fmt, args, pos, arg);
    FullOfItem(text, Meaning(d, args), Items(fmt, args, NextPos(d), NextArg(d)));
    if p.ending.Conversion? {
      FieldIsJustified(Text(p.ending.conv, d.prec, args(d.arg)), d.width, p.zero);
    }
  }

  lemma {:induction false} PrintsFormat(fmt: CString, args: nat -> Arg, pos: nat, arg: nat, f: Format)
    requires Left(fmt, pos, FormatText(f)) && IsFormat(f)
    ensures pos <= |fmt| && Full(Items(fmt, args, pos, arg)) == Printed(f, args, arg)
    decreases f
  {
    hide Left, Items, Full, IsPiece, PieceText, Text, EndingPos, EndingText, Justified, QuantityValue, DottedValue, QuantityArgs, DottedArgs;
    match f
    case End(text) => PrintsEnd(fmt, args, pos, arg, text);
    case Segment(text, p, rest) =>
      PrintsPiece(fmt, args, pos, arg, text, p, FormatText(rest));
      var arg2 := arg + QuantityArgs(p.width) + DottedArgs(p.prec);
      PrintsFormat(fmt, args, EndingPos(p, pos + |text| + 1) + |EndingText(p.ending)|,
                   arg2 + if p.ending.Conversion? then 1 else 0, rest);
  }

  /** Every format prints its plain text and, for each directive, what its flag, width, precision
      and conversion ask for of the arguments in their order. */
  lemma FormatPrints(f: Format, args: nat -> Arg)
    requires IsFormat(f) && NoNul(FormatText(f))
    ensures Full(Formatted(FormatText(f), args)) == Printed(f, args, 0)
  {
    hide *;
    StartsLeft(FormatText(f), args);
    PrintsFormat(FormatText(f), args, 0, 0, f);
  }

  lemma StartsLeft(fmt: CString, args: nat -> Arg)
    ensures Left(fmt, 0, fmt) && Formatted(fmt, args) == Items(fmt, args, 0, 0)
  {
  }

  // ---------------------------------------------------------------- every format is of this form

  lemma TakeDigits(s: string) returns (digits: string, rest: string)
    ensures digits + rest == s && !('0' <= At0(rest) <= '9')
    ensures forall k :: 0 <= k < |digits| ==> '0' <= digits[k] <= '9'
  {
    if s != [] && '0' <= s[0] <= '9' {
      digits, rest := TakeDigits(s[1..]);
      assert ([s[0]] + digits) + rest == [s[0]] + (digits + rest) == s;
      digits := [s[0]] + digits;
    } else {
      digits, rest := [], s;
    }
  }

  lemma TakeQuantity(s: string) returns (q: Quantity, rest: string)
    ensures QuantityText(q) + rest == s && IsQuantity(q) && Stops(q, At0(rest))
    ensures q.Written? ==> s != [] && q.digits[0] == s[0]
  {
    if At0(s) == '*' {
      q, rest := Star, s[1..];
    } else {
      var digits;
      digits, rest := TakeDigits(s);
      q := if digits == [] then Omitted else Written(digits);
    }
  }

  lemma TakeDotted(s: string) returns (d: Dotted, rest: string)
    ensures DottedText(d) + rest == s && (d.Dot? ==> IsQuantity(d.quantity))
    ensures if d.Dot? then Stops(d.quantity, At0(rest)) else rest == s && At0(rest) != '.'
  {
    if At0(s) == '.' {
      var q;
      q, rest := TakeQuantity(s[1..]);
      d := Dot(q);
      assert "." + QuantityText(q) + rest == "." + (QuantityText(q) + rest) == s;
    } else {
      d, rest := NoDot, s;
    }
  }

  lemma TakeEnding(s: string) returns (e: Ending, rest: string)
    ensures EndingText(e) + rest == s && (e.Conversion? ==> e.conv in "doxXpsc")
    ensures e.Stray? ==> rest == s && At0(s) !in "doxXpsc%"
  {
    if s != [] && s[0] in "doxXpsc" {
      e, rest := Conversion(s[0]), s[1..];
    } else if At0(s) == '%' {
      e, rest := PercentSign, s[1..];
    } else {
      e, rest := Stray, s;
    }
  }

  lemma JoinsPiece(p: Piece, s4: string, s3: string, s2: string, s1: string, s: string, rest: string)
    requires EndingText(p.ending) + rest == s4 && LongText(p.long) + s4 == s3
    requires DottedText(p.prec) + s3 == s2 && QuantityText(p.width) + s2 == s1 && ZeroText(p.zero) + s1 == s
    ensures PieceText(p) + rest == s
  {
    Nested(p, rest);
    hide *;
  }

  lemma TakeFlags(s: string)
    ensures At0(s) == '0' ==> s != [] && ZeroText(true) + s[1..] == s
    ensures At0(s) == 'l' ==> s != [] && LongText(true) + s[1..] == s
    ensures ZeroText(false) + s == s && LongText(false) + s == s
  {
  }

  lemma PieceIs(p: Piece, rest: string, s1: string, s3: string, s4: string)
    requires IsQuantity(p.width) && Stops(p.width, At0(DottedText(p.prec) + s3))
    requires p.width.Written? ==> s1 != [] && p.width.digits[0] == s1[0]
    requires p.zero || At0(s1) != '0'
    requires if p.prec.Dot? then IsQuantity(p.prec.quantity) && Stops(p.prec.quantity, At0(s3)) else At0(s3) != '.'
    requires p.long || (s4 == s3 && At0(s3) != 'l')
    requires (p.ending.Conversion? ==> p.ending.conv in "doxXpsc")
    requires p.ending.Stray? ==> rest == s4 && At0(s4) !in "doxXpsc%"
    ensures IsPiece(p, At0(rest))
  {
    assert p.prec.NoDot? ==> DottedText(p.prec) + s3 == s3;
    hide Stops;
  }

  lemma TakePiece(s: string) returns (p: Piece, rest: string)
    ensures PieceText(p) + rest == s && IsPiece(p, At0(rest))
  {
    hide *;
    var zero := At0(s) == '0';
    TakeFlags(s);
    var s1 := if zero then s[1..] else s;
    var width, s2 := TakeQuantity(s1);
    var prec, s3 := TakeDotted(s2);
    var long := At0(s3) == 'l';
    TakeFlags(s3);
    var s4 := if long then s3[1..] else s3;
    var ending;
    ending, rest := TakeEnding(s4);
    p := Piece(zero, width, prec, long, ending);
    PieceIs(p, rest, s1, s3, s4);
    JoinsPiece(p, s4, s3, s2, s1, s, rest);
  }

  lemma TakeText(s: string) returns (text: string, rest: string)
    ensures text + rest == s && '%' !in text && (rest == [] || rest[0] == '%')
  {
    if s != [] && s[0] != '%' {
      text, rest := TakeText(s[1..]);
      assert ([s[0]] + text) + rest == [s[0]] + (text + rest) == s;
      text := [s[0]] + text;
    } else {
      text, rest := [], s;
    }
  }

  lemma {:induction false} TakeFormat(s: string) returns (f: Format)
    ensures IsFormat(f) && FormatText(f) == s
    decreases |s|
  {
    hide PieceText, IsPiece;
    var text, behind := TakeText(s);
    if behind == [] {
      f := End(text);
    } else {
      var p, rest := TakePiece(behind[1..]);
      assert |rest| < |s|;
      var f' := TakeFormat(rest);
      f := Segment(text, p, f');
      assert "%" + behind[1..] == behind;
    }
  }

  /** Every format is plain text and directives, read in this way, and prints what they ask for. */
  lemma EveryFormatPrints(fmt: CString, args: nat -> Arg)
    ensures exists f :: FormatText(f) == fmt && IsFormat(f) && Full(Formatted(fmt, args)) == Printed(f, args, 0)
  {
    hide *;
    var f := TakeFormat(fmt);
    FormatPrints(f, args);
  }

  // ---------------------------------------------------------------- one directive

  function NumberPiece(zero: bool, digits: string, conv: char): Piece {
    Piece(zero, if digits == "" then Omitted else Written(digits), NoDot, false, Conversion(conv))
  }

  lemma NumberFormatText(text: string, zero: bool, digits: string, conv: char)
    ensures FormatText(Segment(text, NumberPiece(zero, digits, conv), End("")))
         == text + "%" + (if zero then "0" else "") + digits + [conv]
  {
    var p := NumberPiece(zero, digits, conv);
    var flag := if zero then "0" else "";
    assert PieceText(p) == flag + (digits + ("" + ("" + [conv])));
    assert FormatText(End("")) == "";
    hide PieceText;
    assert "" + ("" + [conv]) == [conv];
    assert text + ("%" + ((flag + (digits + [conv])) + "")) == text + "%" + flag + digits + [conv];
  }

  lemma NumberFormatIsFormat(text: string, zero: bool, digits: string, conv: char)
    requires NoNul(text) && '%' !in text && conv in "doxXp"
    requires forall k :: 0 <= k < |digits| ==> '0' <= digits[k] <= '9'
    requires !zero && digits != "" ==> digits[0] != '0'
    ensures IsFormat(Segment(text, NumberPiece(zero, digits, conv), End("")))
  {
    assert IsFormat(End(""));
    hide FormatText;
  }

  lemma NumberTextHasNoNul(text: string, flag: string, digits: string, conv: char)
    requires NoNul(text) && NoNul(flag) && NoNul(digits) && conv != '\0'
    ensures NoNul(text + "%" + flag + digits + [conv])
  {
  }

  lemma NumberFormatPrints(text: string, zero: bool, digits: string, conv: char, args: nat -> Arg)
    requires TakesArgument(conv) && IsFormat(Segment(text, NumberPiece(zero, digits, conv), End("")))
    ensures Printed(Segment(text, NumberPiece(zero, digits, conv), End("")), args, 0)
         == text + Justified(Text(conv, 0, args(0)), ReadBack(digits, 10), zero)
  {
    hide Text, Justified, IsPiece, ReadBack;
    ReadBackMore("", '0', 10);
    var body := Justified(Text(conv, 0, args(0)), ReadBack(digits, 10), zero);
    assert Printed(End(""), args, 1) == "" && body + "" == body;
  }

  /** Plain text, a percent sign, a zero or not, a width, and d, o, x, X or p: the text, then the
      zeros or blanks that are missing to the width, then a sign where there is one and digits
      that read back to the argument without spare zeros. */
  lemma NumberIsPrinted(text: string, zero: bool, digits: string, conv: char, args: nat -> Arg)
    requires NoNul(text) && '%' !in text && conv in "doxXp"
    requires forall k :: 0 <= k < |digits| ==> '0' <= digits[k] <= '9'
    requires !zero && digits != "" ==> digits[0] != '0'
    ensures NoNul(text + "%" + (if zero then "0" else "") + digits + [conv])
    ensures var out := Full(Formatted(text + "%" + (if zero then "0" else "") + digits + [conv], args));
      var word := args(0).word;
      var body := Text(conv, 0, args(0));
      var sign := if conv == 'd' && word < 0 then "-" else if conv == 'p' then "0x" else "";
      var base := if conv == 'd' then 10 else if conv == 'o' then 8 else 16;
      && out == text + (seq(Max(ReadBack(digits, 10) - |body|, 0), _ => if zero then '0' else ' ') + body)
      && sign <= body && |body| > |sign|
      && AreDigits(body[|sign|..], base) && (|body| > |sign| + 1 ==> body[|sign|] != '0')
      && ReadBack(body[|sign|..], base)
         == if conv == 'd' && word < 0 then -(word as int) else if word < 0 then word + 0x1_0000_0000 else word
  {
    hide ReadBack, AreDigits, Text, Full, Formatted, IsFormat, FormatText, Printed;
    NumberTextReadsBack(conv, 0, args(0));
    NumberFormatText(text, zero, digits, conv);
    NumberTextHasNoNul(text, if zero then "0" else "", digits, conv);
    NumberFormatIsFormat(text, zero, digits, conv);
    NumberFormatPrints(text, zero, digits, conv, args);
    FormatPrints(Segment(text, NumberPiece(zero, digits, conv), End("")), args);
  }
}
