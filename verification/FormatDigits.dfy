/** The digit strings that the formatted print of the BIOS builds from the right end of a small
    buffer. */
module FormatDigits {

  const NUM_SIZE: nat := 32

  datatype Sign = Plain | Minus | Pointer

  function Prefix(sign: Sign): (r: string)
    ensures |r| <= 2
  {
    match sign
    case Plain => ""
    case Minus => "-"
    case Pointer => "0x"
  }

  predicate IsBase(base: nat) {
    base == 8 || base == 10 || base == 16
  }

  function HexChar(d: nat): (c: char)
    requires d < 16
    ensures HexValue(c) == d && c == "0123456789abcdef"[d]
    ensures c == '0' <==> d == 0
  {
    if d < 10 then '0' + d as char else 'a' + (d - 10) as char
  }

  function HexValue(c: char): nat {
    if '0' <= c <= '9' then (c - '0') as nat
    else if 'a' <= c <= 'f' then (c - 'a') as nat + 10
    else 0
  }

  /** What a reader makes of a digit string, most significant digit first. */
  function ReadBack(s: string, base: nat): nat {
    if s == [] then 0 else ReadBack(s[..|s| - 1], base) * base + HexValue(s[|s| - 1])
  }

  function Last(val: nat, base: nat): (d: nat)
    requires IsBase(base)
    ensures d < base && (val < base ==> d == val)
  {
    val % base
  }

  function Rest(val: nat, base: nat): (r: nat)
    requires IsBase(base)
    ensures r == 0 <==> val < base
    ensures r <= val && (val > 0 ==> r < val)
  {
    val / base
  }

  lemma RestAndLast(val: nat, base: nat)
    requires IsBase(base)
    ensures Rest(val, base) * base + Last(val, base) == val
  {
  }

  /** The digits left to write of `val`, with `room` bytes left. */
  function Digits(val: nat, base: nat, prec: int, room: nat): (r: string)
    requires IsBase(base) && room > 0
    ensures 0 < |r| <= room
    decreases room
  {
    var d := [HexChar(Last(val, base))];
    if (prec - 1 <= 0 && Rest(val, base) == 0) || room == 1 then d
    else Digits(Rest(val, base), base, prec - 1, room - 1) + d
  }

  /** How many digits a number has. */
  function Width(val: nat, base: nat): (n: nat)
    requires IsBase(base)
    ensures n > 0
  {
    if val < base then 1 else Width(Rest(val, base), base) + 1
  }

  /** The text of a number, as the conversions d, o, x and p give it. */
  function Number(val: nat, base: nat, prec: int, sign: Sign): (r: string)
    requires IsBase(base)
    ensures |Prefix(sign)| < |r| < NUM_SIZE && Prefix(sign) <= r
  {
    Prefix(sign) + Digits(val, base, prec, NUM_SIZE - 1 - |Prefix(sign)|)
  }

  function Max(x: int, y: int): int {
    if x < y then y else x
  }

  function Min(x: int, y: int): int {
    if x < y then x else y
  }

  // ---------------------------------------------------------------- what the digits mean

  /** There are as many digits as the number has, or as the precision asks if that is more, or
      as fit. */
  lemma {:induction false} DigitCount(val: nat, base: nat, prec: int, room: nat)
    requires IsBase(base) && room > 0
    ensures |Digits(val, base, prec, room)| == Min(room, Max(prec, Width(val, base)))
    decreases room
  {
    hide Rest, Last, HexChar;
    if !((prec - 1 <= 0 && Rest(val, base) == 0) || room == 1) {
      DigitCount(Rest(val, base), base, prec - 1, room - 1);
    }
  }

  /** The digits read back to the number when it fits. */
  lemma {:induction false} DigitsReadBack(val: nat, base: nat, prec: int, room: nat)
    requires IsBase(base) && 0 < Width(val, base) <= room
    ensures ReadBack(Digits(val, base, prec, room), base) == val
    decreases room
  {
    hide Rest, Last, HexChar, HexValue, ReadBack;
    RestAndLast(val, base);
    var last := HexChar(Last(val, base));
    if (prec - 1 <= 0 && Rest(val, base) == 0) || room == 1 {
      ReadBackMore([], last, base);
      assert [] + [last] == [last];
    } else {
      DigitsReadBack(Rest(val, base), base, prec - 1, room - 1);
      ReadBackMore(Digits(Rest(val, base), base, prec - 1, room - 1), last, base);
    }
  }

  lemma ReadBackMore(s: string, c: char, base: nat)
    ensures ReadBack(s + [c], base) == ReadBack(s, base) * base + HexValue(c)
    ensures ReadBack([], base) == 0
  {
    assert (s + [c])[..|s|] == s;
  }

  /** A string longer than the precision asks, and than one digit, has no leading zero. */
  lemma {:induction false} NoSpareZeros(val: nat, base: nat, prec: int, room: nat)
    requires IsBase(base) && 0 < Width(val, base) <= room
    ensures var r := Digits(val, base, prec, room);
      |r| > 1 && |r| > prec ==> r[0] != '0'
    decreases room
  {
    hide Rest, Last, HexChar;
    var v := Rest(val, base);
    if !((prec - 1 <= 0 && v == 0) || room == 1) {
      var r := Digits(val, base, prec, room);
      var s := Digits(v, base, prec - 1, room - 1);
      assert r == s + [HexChar(Last(val, base))];
      DigitCount(v, base, prec - 1, room - 1);
      NoSpareZeros(v, base, prec - 1, room - 1);
      if |r| > prec && |s| == 1 {
        OneDigit(v, base, prec - 1, room - 1);
      }
    }
  }

  lemma OneDigit(v: nat, base: nat, prec: int, room: nat)
    requires IsBase(base) && room > 0 && 0 < v < base && prec <= 0
    ensures Digits(v, base, prec, room)[0] != '0'
  {
    hide Rest, Last, HexChar;
  }

  /** Every character is a digit of the base. */
  predicate AreDigits(s: string, base: nat) {
    forall k :: 0 <= k < |s| ==> s[k] in "0123456789abcdef" && HexValue(s[k]) < base
  }

  lemma MoreDigits(s: string, d: nat, base: nat)
    requires IsBase(base) && AreDigits(s, base) && d < base
    ensures AreDigits(s + [HexChar(d)], base)
  {
    assert HexChar(d) in "0123456789abcdef";
    hide HexChar, HexValue;
  }

  lemma {:induction false} DigitsAreDigits(val: nat, base: nat, prec: int, room: nat)
    requires IsBase(base) && room > 0
    ensures AreDigits(Digits(val, base, prec, room), base)
    decreases room
  {
    hide Rest, Last, HexChar, AreDigits;
    NoDigits(base);
    var last := Last(val, base);
    if (prec - 1 <= 0 && Rest(val, base) == 0) || room == 1 {
      MoreDigits([], last, base);
      assert [] + [HexChar(last)] == [HexChar(last)];
    } else {
      DigitsAreDigits(Rest(val, base), base, prec - 1, room - 1);
      MoreDigits(Digits(Rest(val, base), base, prec - 1, room - 1), last, base);
    }
  }

  lemma NoDigits(base: nat)
    ensures AreDigits([], base)
  {
  }

  lemma {:induction false} WordWidth(val: nat, base: nat, k: nat)
    requires IsBase(base) && val < EightTo(k) && k > 0
    ensures Width(val, base) <= k
  {
    if val >= base {
      assert k > 1;
      assert Rest(val, base) <= val / 8 < EightTo(k - 1);
      WordWidth(Rest(val, base), base, k - 1);
    }
  }

  function EightTo(k: nat): nat {
    if k == 0 then 1 else 8 * EightTo(k - 1)
  }

  lemma WordFits()
    ensures 0x1_0000_0000 <= EightTo(11)
  {
    assert EightTo(3) == 512;
    assert EightTo(6) == 512 * 512;
    assert EightTo(9) == 512 * 512 * 512;
  }

  /** The text of a 32-bit number: its sign, then digits that read back to the number, as many
      as it has or as the precision asks, with no other leading zeros. */
  lemma NumberReadsBack(val: nat, base: nat, prec: int, sign: Sign)
    requires IsBase(base) && val < 0x1_0000_0000
    ensures var r := Number(val, base, prec, sign);
      var d := r[|Prefix(sign)|..];
      && r[..|Prefix(sign)|] == Prefix(sign)
      && ReadBack(d, base) == val && AreDigits(d, base)
      && |d| == Min(NUM_SIZE - 1 - |Prefix(sign)|, Max(prec, Width(val, base)))
      && (|d| > 1 && |d| > prec ==> d[0] != '0')
  {
    hide *;
    var room := NUM_SIZE - 1 - |Prefix(sign)|;
    NumberIs(val, base, prec, sign);
    WidthOfWord(val, base);
    DigitsAreDigits(val, base, prec, room);
    DigitCount(val, base, prec, room);
    DigitsReadBack(val, base, prec, room);
    NoSpareZeros(val, base, prec, room);
  }

  lemma WidthOfWord(val: nat, base: nat)
    requires IsBase(base) && val < 0x1_0000_0000
    ensures 0 < Width(val, base) <= 11
  {
    WordFits();
    WordWidth(val, base, 11);
    hide Width;
  }

  lemma NumberIs(val: nat, base: nat, prec: int, sign: Sign)
    requires IsBase(base)
    ensures var r := Number(val, base, prec, sign);
      && 11 < NUM_SIZE - 1 - |Prefix(sign)| && r[..|Prefix(sign)|] == Prefix(sign)
      && r[|Prefix(sign)|..] == Digits(val, base, prec, NUM_SIZE - 1 - |Prefix(sign)|)
  {
    hide Digits;
  }

  // ---------------------------------------------------------------- the loop

  lemma OneStep(val: nat, base: nat, prec: int, room: nat, done: string)
    requires IsBase(base) && room > 0
    ensures var rest := Rest(val, base);
      var left := if (prec - 1 <= 0 && rest == 0) || room == 1 then [] else Digits(rest, base, prec - 1, room - 1);
      Digits(val, base, prec, room) + done == left + ([HexChar(Last(val, base))] + done)
  {
    hide Rest, Last, HexChar;
  }

  method Prepend(num: array<char>, str: nat, c: char) returns (at: nat)
    requires num.Length == NUM_SIZE && 0 < str <= NUM_SIZE - 1
    modifies num
    ensures at == str - 1 && num[at..NUM_SIZE - 1] == [c] + old(num[str..NUM_SIZE - 1])
  {
    at := str - 1;
    num[at] := c;
  }

  /** Writes the digits down from the end of `num`; `str` is where they start. */
  method PutDigits(num: array<char>, value: nat, base: nat, precision: int, neg: nat) returns (str: nat)
    requires num.Length == NUM_SIZE && IsBase(base) && neg <= 2
    modifies num
    ensures neg <= str <= NUM_SIZE - 1
    ensures num[str..NUM_SIZE - 1] == Digits(value, base, precision, NUM_SIZE - 1 - neg)
  {
    hide HexChar, Last, Rest, Digits;
    var val, prec := value, precision;
    str := NUM_SIZE - 1;
    num[str] := '\0';
    ghost var all := Digits(value, base, precision, NUM_SIZE - 1 - neg);
    while str > neg
      invariant neg <= str <= NUM_SIZE - 1
      invariant all == (if str > neg then Digits(val, base, prec, str - neg) else []) + num[str..NUM_SIZE - 1]
    {
      OneStep(val, base, prec, str - neg, num[str..NUM_SIZE - 1]);
      var last := HexChar(Last(val, base));
      val := Rest(val, base);
      prec := prec - 1;
      str := Prepend(num, str, last);
      if prec <= 0 && val == 0 {
        break;
      }
    }
  }

  method PutNumber(num: array<char>, val: nat, base: nat, prec: int, sign: Sign) returns (str: nat)
    requires num.Length == NUM_SIZE && IsBase(base)
    modifies num
    ensures str <= NUM_SIZE - 1 && num[str..NUM_SIZE - 1] == Number(val, base, prec, sign)
  {
    hide Digits;
    str := PutDigits(num, val, base, prec, match sign case Plain => 0 case Minus => 1 case Pointer => 2);
    ghost var digits := num[str..NUM_SIZE - 1];
    match sign {
      case Plain =>
      case Minus =>
        str := Prepend(num, str, '-');
        assert num[str..NUM_SIZE - 1] == ['-'] + digits;
      case Pointer =>
        str := Prepend(num, str, 'x');
        str := Prepend(num, str, '0');
        assert num[str..NUM_SIZE - 1] == ['0', 'x'] + digits;
    }
  }
}
