/** What the CRC promises about messages: the fixed residue, and that no error confined to
    four consecutive bytes goes unnoticed. */
module Crc32Detection {
  import opened Crc32

  /** n bytes of zeros clocked in. */
  function ShiftBytes(c: Word, n: nat): Word
    decreases n
  {
    if n == 0 then c else ShiftBytes(Shift8(c), n - 1)
  }

  /** Up to four bytes as a word, most significant first, from the top. */
  function Pack(m: seq<Byte>): Word
    decreases |m|
  {
    if m == [] then 0 else Xor(Top(m[0]), Down8(Pack(m[1..])))
  }

  function Down8(c: Word): Word {
    c >> 8
  }

  lemma EmptyBelowOne(b: Byte)
    ensures (Top(b) ^ Down8(0)) & 0x00ff_ffff == 0
  {
  }

  lemma EmptyBelowTwo(b: Byte, rest: Word)
    requires rest & 0x00ff_ffff == 0
    ensures (Top(b) ^ Down8(rest)) & 0x0000_ffff == 0
  {
  }

  lemma EmptyBelowThree(b: Byte, rest: Word)
    requires rest & 0x0000_ffff == 0
    ensures (Top(b) ^ Down8(rest)) & 0x0000_00ff == 0
  {
  }

  lemma PackLeavesRoom(m: seq<Byte>)
    requires |m| <= 3
    ensures Pack(m) & 0x0000_00ff == 0
    ensures |m| <= 2 ==> Pack(m) & 0x0000_ffff == 0
    ensures |m| <= 1 ==> Pack(m) & 0x00ff_ffff == 0
    decreases |m|
  {
    if m != [] {
      PackLeavesRoom(m[1..]);
      EmptyBelowThree(m[0], Pack(m[1..]));
      if |m| <= 2 { EmptyBelowTwo(m[0], Pack(m[1..])); }
      if |m| <= 1 { EmptyBelowOne(m[0]); }
    }
  }

  // ---------------------------------------------------------------- words at a time

  lemma PackStep(m: seq<Byte>)
    requires m != []
    ensures Pack(m) == Xor(Top(m[0]), Down8(Pack(m[1..])))
  {
  }

  lemma DownAndUp(y: Word)
    requires y & 0x0000_00ff == 0
    ensures Down8(y) & 0xff00_0000 == 0 && Down8(y) << 8 == y
  {
  }

  lemma Shift8OfDown(y: Word)
    requires y & 0x0000_00ff == 0
    ensures Shift8(Down8(y)) == y
  {
    DownAndUp(y);
    Shift8OfLow(Down8(y));
  }

  /** Adding later bytes after a step is adding them, one byte lower, before it. */
  lemma FeedsAhead(c: Word, m: seq<Byte>)
    requires 0 < |m| <= 4
    ensures Xor(ByteStep(c, m[0]), Pack(m[1..])) == Shift8(Xor(c, Pack(m)))
  {
    PackLeavesRoom(m[1..]);
    hide *;
    var y := Pack(m[1..]);
    Shift8OfDown(y);
    ByteStepIs(c, m[0]);
    Shift8OfXor(Xor(c, Top(m[0])), Down8(y));
    XorAssociates(c, Top(m[0]), Down8(y));
    PackStep(m);
  }

  /** Feeding up to four bytes is adding them all to the register at once and shifting. */
  lemma {:induction false} FeedsWord(c: Word, m: seq<Byte>)
    requires |m| <= 4
    ensures ByteSerial(c, m) == ShiftBytes(Xor(c, Pack(m)), |m|)
    decreases |m|
  {
    hide Xor, ByteStep, Shift8;
    if m == [] {
      XorZero(c);
    } else {
      FeedsAhead(c, m);
      FeedsWord(ByteStep(c, m[0]), m[1..]);
    }
  }

  // ---------------------------------------------------------------- the residue

  /** A word as the four bytes it is sent as. */
  function Sent(w: Word): (r: seq<Byte>)
    ensures |r| == 4
  {
    [(w >> 24) as Byte, ((w >> 16) & 0xff) as Byte, ((w >> 8) & 0xff) as Byte, (w & 0xff) as Byte]
  }

  const RESIDUE: Word := 0xc704_dd7b

  lemma BytesJoin(w: Word)
    ensures var s := Sent(w);
      Xor(Top(s[0]), Down8(Xor(Top(s[1]), Down8(Xor(Top(s[2]), Down8(Xor(Top(s[3]), Down8(0)))))))) == w
  {
  }

  lemma PackFour(s: seq<Byte>)
    requires |s| == 4
    ensures Pack(s) == Xor(Top(s[0]), Down8(Xor(Top(s[1]), Down8(Xor(Top(s[2]), Down8(Xor(Top(s[3]), Down8(0))))))))
  {
    PackStep(s);
    PackStep(s[1..]);
    PackStep(s[2..]);
    PackStep(s[3..]);
    assert s[1..][1..] == s[2..] && s[2..][1..] == s[3..] && s[3..][1..] == [];
    assert Pack([]) == 0;
    hide *;
  }

  lemma PackSent(w: Word)
    ensures Pack(Sent(w)) == w
  {
    hide *;
    PackFour(Sent(w));
    BytesJoin(w);
  }

  lemma XorComplement(c: Word)
    ensures Xor(c, !c) == 0xffff_ffff
  {
  }

  lemma OnesShiftedToResidue()
    ensures ShiftBytes(0xffff_ffff, 4) == RESIDUE
  {
    assert Shift8(0xffff_ffff) == 0x4e08_bfb4;
    assert Shift8(0x4e08_bfb4) == 0x00b7_647d;
    assert Shift8(0x00b7_647d) == 0xb764_7d00;
    assert Shift8(0xb764_7d00) == 0xc704_dd7b;
  }

  lemma {:induction false} BitSerialAppends(c: Word, m: seq<Byte>, m': seq<Byte>)
    ensures BitSerial(c, m + m') == BitSerial(BitSerial(c, m), m')
    decreases |m|
  {
    hide ClockBits;
    if m == [] {
      assert m + m' == m';
    } else {
      assert (m + m')[0] == m[0] && (m + m')[1..] == m[1..] + m';
      BitSerialAppends(ClockBits(c, m[0], 8), m[1..], m');
    }
  }

  /** Whatever the message, a receiver that clocks in the message and its CRC ends with the
      same register. */
  lemma ResidueIsFixed(message: seq<Byte>)
    ensures BitSerial(0xffff_ffff, message + Sent(Crc(message))) == 0xc704_dd7b
  {
    var c := BitSerial(PRELOAD, message);
    var sent := Sent(Crc(message));
    assert Crc(message) == !c;
    hide *;
    BitSerialAppends(PRELOAD, message, sent);
    ByteSerialIsBitSerial(c, sent);
    FeedsWord(c, sent);
    PackSent(Crc(message));
    XorComplement(c);
    OnesShiftedToResidue();
  }

  // ---------------------------------------------------------------- detection

  lemma ShiftKernel(c: Word)
    requires Shift(c) == 0
    ensures c == 0
  {
  }

  lemma XorIsZero(a: Word, b: Word)
    ensures Xor(a, b) == 0 <==> a == b
  {
    XorWithSelf(b);
    hide *;
    XorTwice(a, b);
    XorCommutes(0, b);
    XorZero(b);
  }

  lemma XorWithSelf(a: Word)
    ensures Xor(a, a) == 0
  {
  }

  /** The feedback polynomial ends in a one, so the register never forgets. */
  lemma ShiftInjective(a: Word, b: Word)
    requires Shift(a) == Shift(b)
    ensures a == b
  {
    hide *;
    ShiftOfXor(a, b);
    XorIsZero(Shift(a), Shift(b));
    ShiftKernel(Xor(a, b));
    XorIsZero(a, b);
  }

  lemma Shift8Injective(a: Word, b: Word)
    requires Shift8(a) == Shift8(b)
    ensures a == b
  {
    hide Shift;
    ShiftInjective(Shift(Shift2(Shift4(a))), Shift(Shift2(Shift4(b))));
    ShiftInjective(Shift2(Shift4(a)), Shift2(Shift4(b)));
    ShiftInjective(Shift(Shift4(a)), Shift(Shift4(b)));
    ShiftInjective(Shift4(a), Shift4(b));
    ShiftInjective(Shift(Shift2(a)), Shift(Shift2(b)));
    ShiftInjective(Shift2(a), Shift2(b));
    ShiftInjective(Shift(a), Shift(b));
    ShiftInjective(a, b);
  }

  lemma {:induction false} ShiftBytesInjective(a: Word, b: Word, n: nat)
    requires ShiftBytes(a, n) == ShiftBytes(b, n)
    ensures a == b
    decreases n
  {
    hide Shift8;
    if n > 0 {
      ShiftBytesInjective(Shift8(a), Shift8(b), n - 1);
      Shift8Injective(a, b);
    }
  }

  lemma XorInjective(a: Word, b: Word, c: Word)
    requires Xor(a, c) == Xor(b, c)
    ensures a == b
  {
    XorTwice(a, c);
    XorTwice(b, c);
    hide *;
  }

  lemma {:induction false} SameTailSameRegister(a: Word, b: Word, tail: seq<Byte>)
    requires ByteSerial(a, tail) == ByteSerial(b, tail)
    ensures a == b
    decreases |tail|
  {
    hide ByteStep, Shift8, Xor, Top;
    if tail != [] {
      SameTailSameRegister(ByteStep(a, tail[0]), ByteStep(b, tail[0]), tail[1..]);
      ByteStepIs(a, tail[0]);
      ByteStepIs(b, tail[0]);
      Shift8Injective(Xor(a, Top(tail[0])), Xor(b, Top(tail[0])));
      XorInjective(a, b, Top(tail[0]));
    }
  }

  lemma Unpack(b: Byte, rest: Word)
    requires rest & 0x0000_00ff == 0
    ensures High(Xor(Top(b), Down8(rest))) == b
    ensures Up8(Xor(Top(b), Down8(rest))) == rest
  {
  }

  lemma {:induction false} PackInjective(m: seq<Byte>, m': seq<Byte>)
    requires |m| == |m'| <= 4 && Pack(m) == Pack(m')
    ensures m == m'
    decreases |m|
  {
    if m != [] {
      PackLeavesRoom(m[1..]);
      PackLeavesRoom(m'[1..]);
      hide *;
      Unpack(m[0], Pack(m[1..]));
      Unpack(m'[0], Pack(m'[1..]));
      PackStep(m);
      PackStep(m');
      PackInjective(m[1..], m'[1..]);
      assert m == [m[0]] + m[1..] && m' == [m'[0]] + m'[1..];
    }
  }

  /** Different words of up to four bytes leave different registers. */
  lemma WordsAreTold(c: Word, e: seq<Byte>, e': seq<Byte>)
    requires |e| == |e'| <= 4 && ByteSerial(c, e) == ByteSerial(c, e')
    ensures e == e'
  {
    hide *;
    FeedsWord(c, e);
    FeedsWord(c, e');
    ShiftBytesInjective(Xor(c, Pack(e)), Xor(c, Pack(e')), |e|);
    XorCommutes(c, Pack(e));
    XorCommutes(c, Pack(e'));
    XorInjective(Pack(e), Pack(e'), c);
    PackInjective(e, e');
  }

  lemma RegistersDiffer(c: Word, e: seq<Byte>, e': seq<Byte>, after: seq<Byte>)
    requires |e| == |e'| <= 4 && e != e'
    ensures BitSerial(c, e + after) != BitSerial(c, e' + after)
  {
    hide *;
    BitSerialAppends(c, e, after);
    BitSerialAppends(c, e', after);
    var r, r' := BitSerial(c, e), BitSerial(c, e');
    ByteSerialIsBitSerial(r, after);
    ByteSerialIsBitSerial(r', after);
    ByteSerialIsBitSerial(c, e);
    ByteSerialIsBitSerial(c, e');
    if ByteSerial(r, after) == ByteSerial(r', after) {
      SameTailSameRegister(r, r', after);
      WordsAreTold(c, e, e');
    }
  }

  lemma ComplementInjective(a: Word, b: Word)
    ensures a != b ==> !a != !b
  {
  }

  /** An error confined to at most four consecutive bytes always changes the CRC. */
  lemma BurstsAreDetected(before: seq<Byte>, e: seq<Byte>, e': seq<Byte>, after: seq<Byte>)
    requires |e| == |e'| <= 4 && e != e'
    ensures Crc(before + (e + after)) != Crc(before + (e' + after))
  {
    hide BitSerial;
    BitSerialAppends(PRELOAD, before, e + after);
    BitSerialAppends(PRELOAD, before, e' + after);
    var c := BitSerial(PRELOAD, before);
    RegistersDiffer(c, e, e', after);
    ComplementInjective(BitSerial(c, e + after), BitSerial(c, e' + after));
  }

  /** Messages of equal length that differ in exactly one byte never have the same CRC. */
  lemma OneByteIsDetected(m: seq<Byte>, m': seq<Byte>, i: nat)
    requires |m| == |m'| && i < |m| && m[i] != m'[i]
    requires forall j :: 0 <= j < |m| && j != i ==> m[j] == m'[j]
    ensures Crc(m) != Crc(m')
  {
    hide Crc;
    BurstsAreDetected(m[..i], [m[i]], [m'[i]], m[i + 1..]);
    assert m == m[..i] + ([m[i]] + m[i + 1..]);
    assert m' == m[..i] + ([m'[i]] + m[i + 1..]);
  }
}
