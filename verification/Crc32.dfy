/** The byte-at-a-time CRC-32 against the bit-serial shift register it stands for. */
module Crc32 {

  type Byte = bv8
  type Word = bv32

  const POLY: Word := 0x04c11db7
  const PRELOAD: Word := 0xffff_ffff

  function Xor(a: Word, b: Word): Word {
    a ^ b
  }

  function Left(c: Word): Word {
    c << 1
  }

  predicate TopBit(c: Word) {
    c & 0x8000_0000 != 0
  }

  /** One clock of the register with a zero on the input. */
  function Shift(c: Word): Word {
    if TopBit(c) then Xor(Left(c), POLY) else Left(c)
  }

  function Shift2(c: Word): Word {
    Shift(Shift(c))
  }

  function Shift4(c: Word): Word {
    Shift2(Shift2(c))
  }

  function Shift8(c: Word): Word {
    Shift4(Shift4(c))
  }

  // ---------------------------------------------------------------- the register, bit by bit

  /** One clock of the register: the input bit is added to the bit that leaves. */
  function ClockBit(c: Word, bit: bool): Word {
    if TopBit(c) != bit then Xor(Left(c), POLY) else Left(c)
  }

  predicate FirstBit(b: Byte) {
    b & 0x80 != 0
  }

  /** The register after the first n bits of `b`, most significant first. */
  function ClockBits(c: Word, b: Byte, n: nat): Word
    decreases n
  {
    if n == 0 then c else ClockBits(ClockBit(c, FirstBit(b)), b << 1, n - 1)
  }

  /** The register after a message has been clocked in, one bit at a time. */
  function BitSerial(c: Word, message: seq<Byte>): Word
    decreases |message|
  {
    if message == [] then c else BitSerial(ClockBits(c, message[0], 8), message[1..])
  }

  /** The CRC of a message: preload with ones, transmit the complement. */
  function Crc(message: seq<Byte>): Word {
    !BitSerial(PRELOAD, message)
  }

  // ---------------------------------------------------------------- the register, byte by byte

  function Top(b: Byte): Word {
    (b as Word) << 24
  }

  function TableEntry(i: Byte): Word {
    Shift8(Top(i))
  }

  function Up8(c: Word): Word {
    c << 8
  }

  function High(c: Word): Byte {
    (c >> 24) as Byte
  }

  /** One step of the byte-at-a-time form. */
  function ByteStep(c: Word, b: Byte): Word {
    Xor(Up8(c), TableEntry(High(c) ^ b))
  }

  function ByteSerial(c: Word, message: seq<Byte>): Word
    decreases |message|
  {
    if message == [] then c else ByteSerial(ByteStep(c, message[0]), message[1..])
  }

  // ---------------------------------------------------------------- linearity

  lemma XorCommutes(a: Word, b: Word)
    ensures Xor(a, b) == Xor(b, a)
  {
  }

  lemma XorTwice(a: Word, b: Word)
    ensures Xor(Xor(a, b), b) == a
  {
  }

  lemma XorAssociates(a: Word, b: Word, c: Word)
    ensures Xor(Xor(a, b), c) == Xor(a, Xor(b, c))
  {
  }

  lemma XorZero(c: Word)
    ensures Xor(c, 0) == c
  {
  }

  lemma XorCancels(a: Word, b: Word, c: Word)
    ensures Xor(Xor(a, c), Xor(b, c)) == Xor(a, b)
  {
    hide *;
    XorAssociates(Xor(a, c), b, c);
    XorAssociates(a, c, b);
    XorCommutes(c, b);
    XorAssociates(a, b, c);
    XorTwice(Xor(a, b), c);
  }

  lemma LeftOfXor(a: Word, b: Word)
    ensures Left(Xor(a, b)) == Xor(Left(a), Left(b))
  {
  }

  lemma TopBitOfXor(a: Word, b: Word)
    ensures TopBit(Xor(a, b)) == (TopBit(a) != TopBit(b))
  {
  }

  /** The register is linear: shifting a sum shifts the summands. */
  lemma ShiftOfXor(a: Word, b: Word)
    ensures Shift(Xor(a, b)) == Xor(Shift(a), Shift(b))
  {
    hide Xor, Left, TopBit;
    LeftOfXor(a, b);
    TopBitOfXor(a, b);
    XorCancels(Left(a), Left(b), POLY);
    XorAssociates(Left(a), Left(b), POLY);
    XorAssociates(Left(a), POLY, Left(b));
    XorCommutes(Left(b), POLY);
  }

  lemma Shift4OfXor(a: Word, b: Word)
    ensures Shift4(Xor(a, b)) == Xor(Shift4(a), Shift4(b))
  {
    hide Xor, Shift;
    ShiftOfXor(a, b);
    ShiftOfXor(Shift(a), Shift(b));
    ShiftOfXor(Shift2(a), Shift2(b));
    ShiftOfXor(Shift(Shift2(a)), Shift(Shift2(b)));
  }

  lemma Shift8OfXor(a: Word, b: Word)
    ensures Shift8(Xor(a, b)) == Xor(Shift8(a), Shift8(b))
  {
    hide Xor, Shift, Shift4;
    Shift4OfXor(a, b);
    Shift4OfXor(Shift4(a), Shift4(b));
  }

  // ---------------------------------------------------------------- a byte at a time

  function Feedback(bit: bool): Word {
    if bit then POLY else 0
  }

  lemma ClockBitAdds(c: Word, bit: bool)
    ensures ClockBit(c, bit) == Xor(Shift(c), Feedback(bit))
  {
    hide Xor, TopBit, Left;
    XorTwice(Left(c), POLY);
    XorZero(Shift(c));
  }

  lemma ShiftOfTop(b: Byte)
    ensures Shift(Top(b)) == Xor(Feedback(FirstBit(b)), Top(b << 1))
  {
  }

  /** Adding a byte to the top of the register and shifting clocks in its first bit and
      leaves the others waiting at the top. */
  lemma ClocksOneBit(c: Word, b: Byte)
    ensures Shift(Xor(c, Top(b))) == Xor(ClockBit(c, FirstBit(b)), Top(b << 1))
  {
    hide *;
    ShiftOfXor(c, Top(b));
    ShiftOfTop(b);
    ClockBitAdds(c, FirstBit(b));
    XorAssociates(Shift(c), Feedback(FirstBit(b)), Top(b << 1));
  }

  function ShiftTimes(c: Word, n: nat): Word
    decreases n
  {
    if n == 0 then c else ShiftTimes(Shift(c), n - 1)
  }

  /** What is left of a byte after its first n bits. */
  function BitsLeft(b: Byte, n: nat): Byte
    decreases n
  {
    if n == 0 then b else BitsLeft(b << 1, n - 1)
  }

  lemma {:induction false} ClocksBits(c: Word, b: Byte, n: nat)
    ensures ShiftTimes(Xor(c, Top(b)), n) == Xor(ClockBits(c, b, n), Top(BitsLeft(b, n)))
    decreases n
  {
    hide Xor, Top, Shift, ClockBit, FirstBit;
    if n > 0 {
      ClocksOneBit(c, b);
      ClocksBits(ClockBit(c, FirstBit(b)), b << 1, n - 1);
    }
  }

  lemma Shift8Is(c: Word)
    ensures Shift8(c) == ShiftTimes(c, 8)
  {
    hide Shift;
    var c4 := Shift4(c);
    assert ShiftTimes(c4, 2) == Shift2(c4) && ShiftTimes(c, 2) == Shift2(c);
    assert ShiftTimes(c4, 4) == Shift4(c4);
    assert ShiftTimes(c, 6) == ShiftTimes(Shift2(c), 4);
    assert ShiftTimes(c, 8) == ShiftTimes(c4, 4);
  }

  lemma NothingLeft(b: Byte)
    ensures Top(BitsLeft(b, 8)) == 0
  {
  }

  /** Clocking in a byte is adding it to the top of the register and shifting eight times. */
  lemma ClocksByte(c: Word, b: Byte)
    ensures ClockBits(c, b, 8) == Shift8(Xor(c, Top(b)))
  {
    hide *;
    ClocksBits(c, b, 8);
    NothingLeft(b);
    XorZero(ClockBits(c, b, 8));
    Shift8Is(Xor(c, Top(b)));
  }

  lemma Shift2OfLow(c: Word)
    requires c & 0xc000_0000 == 0
    ensures Shift2(c) == c << 2
  {
  }

  lemma Shift4OfLow(c: Word)
    requires c & 0xf000_0000 == 0
    ensures Shift4(c) == c << 4
  {
    Shift2OfLow(c);
    Shift2OfLow(c << 2);
  }

  lemma Shift8OfLow(c: Word)
    requires c & 0xff00_0000 == 0
    ensures Shift8(c) == c << 8
  {
    Shift4OfLow(c);
    Shift4OfLow(c << 4);
  }

  function Low(c: Word): Word {
    c & 0x00ff_ffff
  }

  lemma LowShifted(c: Word)
    ensures Low(c) & 0xff00_0000 == 0 && Low(c) << 8 == Up8(c)
  {
  }

  lemma Shift8OfLowPart(c: Word)
    ensures Shift8(Low(c)) == Up8(c)
  {
    LowShifted(c);
    Shift8OfLow(Low(c));
  }

  lemma SplitsTop(c: Word, b: Byte)
    ensures Xor(c, Top(b)) == Xor(Low(c), Top(High(c) ^ b))
  {
  }

  lemma ByteStepAdds(c: Word, b: Byte)
    ensures ByteStep(c, b) == Xor(Up8(c), Shift8(Top(High(c) ^ b)))
  {
    hide Xor, Up8, Shift8, Top;
  }

  /** The table step is the same: by linearity the low bits only move, and the table holds
      what the top byte feeds back. */
  lemma ByteStepIs(c: Word, b: Byte)
    ensures ByteStep(c, b) == Shift8(Xor(c, Top(b)))
  {
    hide *;
    SplitsTop(c, b);
    Shift8OfXor(Low(c), Top(High(c) ^ b));
    Shift8OfLowPart(c);
    ByteStepAdds(c, b);
  }

  /** For every message, the table form leaves in the register what the bit-serial shift
      register leaves. */
  lemma {:induction false} ByteSerialIsBitSerial(c: Word, message: seq<Byte>)
    ensures ByteSerial(c, message) == BitSerial(c, message)
    decreases |message|
  {
    hide ByteStep, ClockBits, Xor, Top, Shift8;
    if message != [] {
      ByteStepIs(c, message[0]);
      ClocksByte(c, message[0]);
      ByteSerialIsBitSerial(ByteStep(c, message[0]), message[1..]);
    }
  }
}
