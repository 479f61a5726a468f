/** The CRC routine with its table, filled on first use. */
module Crc32Table {
  import opened Crc32
  import opened Crc32Detection

  class CrcUnit {
    const table: array<Word>

    ghost predicate Blank()
      reads table
    {
      table.Length == 256 && forall k :: 0 <= k < 256 ==> table[k] == 0
    }

    ghost predicate Filled()
      reads table
    {
      table.Length == 256 && forall k :: 0 <= k < 256 ==> table[k] == TableEntry(k as Byte)
    }

    constructor ()
      ensures fresh(table) && Blank()
    {
      table := new Word[256](_ => 0);
    }

    method InitCrc32()
      requires table.Length == 256
      modifies table
      ensures Filled()
    {
      var i := 0;
      while i < 256
        invariant 0 <= i <= 256
        invariant forall k :: 0 <= k < i ==> table[k] == TableEntry(k as Byte)
      {
        table[i] := FillEntry(i);
        i := i + 1;
      }
    }

    static method FillEntry(i: int) returns (c: Word)
      requires 0 <= i < 256
      ensures c == TableEntry(i as Byte)
    {
      c := Top(i as Byte);
      ghost var start := c;
      Shift8Is(start);
      hide *;
      var j := 8;
      while j > 0
        invariant 0 <= j
        invariant ShiftTimes(c, j) == ShiftTimes(start, 8)
      {
        ShiftTimesStep(c, j);
        c := if TopBit(c) then Xor(Left(c), POLY) else Left(c);
        j := j - 1;
      }
      ShiftTimesZero(c);
      TableEntryIs(i as Byte);
    }

    method Lookup(i: Byte) returns (entry: Word)
      requires Filled()
      ensures entry == TableEntry(i)
    {
      var k := i as int;
      assert k as Byte == i;
      entry := table[k];
    }

    method StepByte(crc: Word, b: Byte) returns (next: Word)
      requires Filled()
      ensures next == ByteStep(crc, b)
    {
      hide Xor, Up8, High, TableEntry;
      var entry := Lookup(High(crc) ^ b);
      next := Xor(Up8(crc), entry);
    }

    /** The loop of the routine, from a preloaded register. */
    method Fold(start: Word, buf: array<Byte>, len: int) returns (crc: Word)
      requires Filled() && len <= buf.Length
      ensures crc == ByteSerial(start, buf[..if len < 0 then 0 else len])
    {
      hide *;
      ghost var message := buf[..if len < 0 then 0 else len];
      crc := start;
      var p, left := 0, len;
      while left > 0
        invariant 0 <= p <= |message| && (left > 0 ==> left == |message| - p) && (left <= 0 ==> p == |message|)
        invariant Filled()
        invariant ByteSerial(crc, message[p..]) == ByteSerial(start, message)
      {
        ByteSerialStep(crc, message[p..]);
        assert message[p..][1..] == message[p + 1..] && message[p..][0] == buf[p];
        crc := StepByte(crc, buf[p]);
        p, left := p + 1, left - 1;
      }
      ByteSerialNothing(crc);
    }

    /** Fills the table if its second entry says that it has not been filled yet. */
    method Prepare()
      requires Blank() || Filled()
      modifies table
      ensures Filled()
    {
      EntryOne();
      if table[1] == 0 {
        InitCrc32();
      }
    }

    /** The CRC of the first `len` bytes of the buffer. */
    method Compute(buf: array<Byte>, len: int) returns (crc: Word)
      requires Blank() || Filled()
      requires len <= buf.Length
      modifies table
      ensures Filled()
      ensures crc == Crc(buf[..if len < 0 then 0 else len])
    {
      Prepare();
      crc := Fold(PRELOAD, buf, len);
      ByteSerialIsBitSerial(PRELOAD, buf[..if len < 0 then 0 else len]);
      hide BitSerial, ByteSerial, Filled;
      crc := !crc;
    }
  }

  lemma ByteSerialNothing(c: Word)
    ensures ByteSerial(c, []) == c
  {
  }

  lemma ShiftTimesStep(c: Word, j: nat)
    requires j > 0
    ensures ShiftTimes(c, j) == ShiftTimes(if TopBit(c) then Xor(Left(c), POLY) else Left(c), j - 1)
  {
    hide Xor, TopBit, Left;
  }

  lemma ShiftTimesZero(c: Word)
    ensures ShiftTimes(c, 0) == c
  {
  }

  lemma TableEntryIs(i: Byte)
    ensures TableEntry(i) == Shift8(Top(i))
  {
    hide Shift8, Top;
  }

  lemma EntryOne()
    ensures TableEntry(1) == POLY
  {
  }

  lemma ByteSerialStep(c: Word, message: seq<Byte>)
    requires message != []
    ensures ByteSerial(c, message) == ByteSerial(ByteStep(c, message[0]), message[1..])
  {
    hide ByteStep;
  }
}
