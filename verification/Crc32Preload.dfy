/** What the preloaded and complemented register means for messages: the first four bytes are
    complemented, zeros in front count, and the published check value comes out. */
module Crc32Preload {
  import opened Crc32
  import opened Crc32Detection

  function Not(b: Byte): Byte {
    !b
  }

  lemma ComplementOfFour(a: Byte, b: Byte, c: Byte, d: Byte)
    ensures Xor(0xffff_ffff, Xor(Top(a), Down8(Xor(Top(b), Down8(Xor(Top(c), Down8(Xor(Top(d), Down8(0)))))))))
         == Xor(0, Xor(Top(Not(a)), Down8(Xor(Top(Not(b)), Down8(Xor(Top(Not(c)), Down8(Xor(Top(Not(d)), Down8(0)))))))))
  {
  }

  /** Clocking four bytes into ones is clocking their complements into zeros. */
  lemma OnesAreComplements(s: seq<Byte>)
    requires |s| == 4
    ensures BitSerial(0xffff_ffff, s) == BitSerial(0, [Not(s[0]), Not(s[1]), Not(s[2]), Not(s[3])])
  {
    hide *;
    var t := [Not(s[0]), Not(s[1]), Not(s[2]), Not(s[3])];
    ByteSerialIsBitSerial(0xffff_ffff, s);
    ByteSerialIsBitSerial(0, t);
    FeedsWord(0xffff_ffff, s);
    FeedsWord(0, t);
    PackFour(s);
    PackFour(t);
    ComplementOfFour(s[0], s[1], s[2], s[3]);
  }

  lemma CrcIs(m: seq<Byte>)
    ensures Crc(m) == !BitSerial(0xffff_ffff, m)
  {
    hide BitSerial;
  }

  lemma FirstFour(m: seq<Byte>)
    requires |m| >= 4
    ensures [m[0], m[1], m[2], m[3]] + m[4..] == m
  {
  }

  lemma SameRegisterOnward(s: seq<Byte>, t: seq<Byte>, rest: seq<Byte>, m: seq<Byte>)
    requires BitSerial(0xffff_ffff, s) == BitSerial(0, t) && s + rest == m
    ensures Crc(m) == !BitSerial(0, t + rest)
  {
    hide *;
    CrcIs(m);
    BitSerialAppends(0xffff_ffff, s, rest);
    BitSerialAppends(0, t, rest);
  }

  /** The CRC of a message of at least four bytes is the complement of what is left of its
      polynomial, the first 32 bits complemented, after division: section 3.2.9 of IEEE 802.3. */
  lemma PreloadComplementsFirstBytes(m: seq<Byte>)
    requires |m| >= 4
    ensures Crc(m) == !BitSerial(0, [Not(m[0]), Not(m[1]), Not(m[2]), Not(m[3])] + m[4..])
  {
    hide *;
    var s := [m[0], m[1], m[2], m[3]];
    FirstFour(m);
    OnesAreComplements(s);
    SameRegisterOnward(s, [Not(s[0]), Not(s[1]), Not(s[2]), Not(s[3])], m[4..], m);
  }

  lemma OnesMove()
    ensures Shift8(Xor(0xffff_ffff, Top(0))) != 0xffff_ffff
  {
    assert Xor(0xffff_ffff, Top(0)) == 0xffff_ffff;
    assert Shift8(0xffff_ffff) == 0x4e08_bfb4;
  }

  lemma OneByteClocked(c: Word, b: Byte)
    ensures BitSerial(c, [b]) == Shift8(Xor(c, Top(b)))
  {
    ByteSerialIsBitSerial(c, [b]);
    ByteStepIs(c, b);
    assert ByteSerial(ByteStep(c, b), []) == ByteStep(c, b);
    assert [b][1..] == [];
    hide *;
  }

  /** A zero byte in front of a message always changes its CRC. */
  lemma ZeroInFrontIsDetected(m: seq<Byte>)
    ensures Crc([0] + m) != Crc(m)
  {
    hide *;
    CrcIs(m);
    CrcIs([0] + m);
    BitSerialAppends(0xffff_ffff, [0], m);
    var r := BitSerial(0xffff_ffff, [0]);
    OneByteClocked(0xffff_ffff, 0);
    OnesMove();
    ByteSerialIsBitSerial(r, m);
    ByteSerialIsBitSerial(0xffff_ffff, m);
    if ByteSerial(r, m) == ByteSerial(0xffff_ffff, m) {
      SameTailSameRegister(r, 0xffff_ffff, m);
    }
    ComplementInjective(BitSerial(r, m), BitSerial(0xffff_ffff, m));
  }

  lemma Clocks123()
    ensures Shift8(0xceff_ffff) == 0x9efb_cf93
    ensures Shift8(0xacfb_cf93) == 0x3fec_5e6a
    ensures Shift8(0x0cec_5e6a) == 0xd952_f164
  {
  }

  lemma Clocks456()
    ensures Shift8(0xed52_f164) == 0xa695_c4aa
    ensures Shift8(0x9395_c4aa) == 0xbd9a_b747
    ensures Shift8(0x8b9a_b747) == 0xd8f0_6c8f
  {
  }

  lemma Clocks789()
    ensures Shift8(0xeff0_6c8f) == 0x0d8a_14c4
    ensures Shift8(0x358a_14c4) == 0x49e3_c2fb
    ensures Shift8(0x70e3_c2fb) == 0x0376_e6e7
  {
  }

  lemma Adds123()
    ensures Xor(0xffff_ffff, Top(0x31)) == 0xceff_ffff
    ensures Xor(0x9efb_cf93, Top(0x32)) == 0xacfb_cf93
    ensures Xor(0x3fec_5e6a, Top(0x33)) == 0x0cec_5e6a
  {
  }

  lemma Adds456()
    ensures Xor(0xd952_f164, Top(0x34)) == 0xed52_f164
    ensures Xor(0xa695_c4aa, Top(0x35)) == 0x9395_c4aa
    ensures Xor(0xbd9a_b747, Top(0x36)) == 0x8b9a_b747
  {
  }

  lemma Adds789()
    ensures Xor(0xd8f0_6c8f, Top(0x37)) == 0xeff0_6c8f
    ensures Xor(0x0d8a_14c4, Top(0x38)) == 0x358a_14c4
    ensures Xor(0x49e3_c2fb, Top(0x39)) == 0x70e3_c2fb
  {
  }

  lemma ThreeBytesClocked(c: Word, x: Byte, y: Byte, z: Byte)
    ensures BitSerial(c, [x, y, z]) == Shift8(Xor(Shift8(Xor(Shift8(Xor(c, Top(x))), Top(y))), Top(z)))
  {
    hide *;
    OneByteClocked(c, x);
    var c1 := Shift8(Xor(c, Top(x)));
    OneByteClocked(c1, y);
    var c2 := Shift8(Xor(c1, Top(y)));
    OneByteClocked(c2, z);
    BitSerialAppends(c, [x], [y]);
    BitSerialAppends(c, [x] + [y], [z]);
    assert [x] + [y] + [z] == [x, y, z];
  }

  lemma FinalComplement()
    ensures !(0x0376_e6e7 as Word) == 0xfc89_1918
  {
  }

  /** The check value of this CRC, that of the digits 1 to 9 in ASCII; and the CRC of nothing. */
  lemma CheckValue()
    ensures Crc([0x31, 0x32, 0x33, 0x34, 0x35, 0x36, 0x37, 0x38, 0x39]) == 0xfc89_1918
    ensures Crc([]) == 0
  {
    hide *;
    ThreeBytesClocked(0xffff_ffff, 0x31, 0x32, 0x33);
    ThreeBytesClocked(0xd952_f164, 0x34, 0x35, 0x36);
    ThreeBytesClocked(0xd8f0_6c8f, 0x37, 0x38, 0x39);
    Clocks123();
    Clocks456();
    Clocks789();
    Adds123();
    Adds456();
    Adds789();
    FinalComplement();
    var a: seq<Byte>, b: seq<Byte>, c: seq<Byte> := [0x31, 0x32, 0x33], [0x34, 0x35, 0x36], [0x37, 0x38, 0x39];
    BitSerialAppends(0xffff_ffff, a, b);
    BitSerialAppends(0xffff_ffff, a + b, c);
    assert a + b + c == [0x31, 0x32, 0x33, 0x34, 0x35, 0x36, 0x37, 0x38, 0x39];
    CrcIs(a + b + c);
    EmptyCrc();
  }

  lemma EmptyCrc()
    ensures Crc([]) == 0
  {
    assert BitSerial(PRELOAD, []) == PRELOAD;
  }
}
