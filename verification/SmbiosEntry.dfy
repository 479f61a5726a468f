/** The entry point of the SMBIOS tables, with a checksum over its first half and one over its
    second. */
module SmbiosEntry {
  import opened Memory
  import opened TableBytes

  const ENTRY_SIZE: nat := 0x1f

  function FirstHalf(maxSize: int, checksum: Byte): (r: seq<Byte>)
    ensures |r| == 16 && r[4] == checksum
  {
    Text("_SM_") + [checksum, 0x1f, 2, 4] + Le16(maxSize) + [0, 0, 0, 0, 0, 0]
  }

  function SecondHalf(length: int, address: int, count: int, checksum: Byte): (r: seq<Byte>)
    ensures |r| == 15 && r[5] == checksum
  {
    Text("_DMI_") + [checksum] + Le16(length) + Le32(address) + Le16(count) + [0x24]
  }

  function EntryPoint(maxSize: int, length: int, address: int, count: int): seq<Byte> {
    FirstHalf(maxSize, Negated(Sum(FirstHalf(maxSize, 0))))
    + SecondHalf(length, address, count, Negated(Sum(SecondHalf(length, address, count, 0))))
  }

  lemma {:induction false} SumOfBoth(s: seq<Byte>, t: seq<Byte>)
    ensures Sum(s + t) == Sum(s) + Sum(t)
  {
    if t == [] {
      assert s + t == s;
    } else {
      assert (s + t)[..|s + t| - 1] == s + t[..|t| - 1];
      SumOfBoth(s, t[..|t| - 1]);
    }
  }

  lemma HalvesFilled(maxSize: int, length: int, address: int, count: int, a: Byte, b: Byte)
    ensures FirstHalf(maxSize, a) == FirstHalf(maxSize, 0)[4 := a]
    ensures SecondHalf(length, address, count, b) == SecondHalf(length, address, count, 0)[5 := b]
  {
  }

  /** Each half sums to zero, and so does the entry point, which is as long as its length byte
      says. */
  lemma EntryPointIsConsistent(maxSize: int, length: int, address: int, count: int)
    ensures var e := EntryPoint(maxSize, length, address, count);
      && |e| == ENTRY_SIZE == e[5]
      && Sum(e[..16]) % 256 == 0 && Sum(e[16..]) % 256 == 0 && Sum(e) % 256 == 0
  {
    hide *;
    var f, s := FirstHalf(maxSize, 0), SecondHalf(length, address, count, 0);
    var first, second := f[4 := Negated(Sum(f))], s[5 := Negated(Sum(s))];
    EntryPointIs(maxSize, length, address, count);
    ChecksumZeroes(f, 4);
    ChecksumZeroes(s, 5);
    SumOfBoth(first, second);
    assert (first + second)[..16] == first && (first + second)[16..] == second;
    assert (first + second)[5] == f[5];
  }

  lemma EntryPointIs(maxSize: int, length: int, address: int, count: int)
    ensures var f, s := FirstHalf(maxSize, 0), SecondHalf(length, address, count, 0);
      && EntryPoint(maxSize, length, address, count) == f[4 := Negated(Sum(f))] + s[5 := Negated(Sum(s))]
      && f[5] == 0x1f == ENTRY_SIZE && |f| == 16 && |s| == 15
  {
    var f, s := FirstHalf(maxSize, 0), SecondHalf(length, address, count, 0);
    HalvesFilled(maxSize, length, address, count, Negated(Sum(f)), Negated(Sum(s)));
  }

  lemma FirstHalfReads(maxSize: int, checksum: Byte)
    ensures var f := FirstHalf(maxSize, checksum);
      && f[..4] == [0x5f, 0x53, 0x4d, 0x5f] && f[5..8] == [0x1f, 2, 4] && f[8..10] == Le16(maxSize)
      && f[10..16] == [0, 0, 0, 0, 0, 0]
  {
    hide Le16;
    assert Text("_SM_") == [0x5f, 0x53, 0x4d, 0x5f];
  }

  lemma SecondHalfReads(length: int, address: int, count: int, checksum: Byte)
    ensures var s := SecondHalf(length, address, count, checksum);
      && s[..5] == [0x5f, 0x44, 0x4d, 0x49, 0x5f] && s[6..8] == Le16(length) && s[8..12] == Le32(address)
      && s[12..14] == Le16(count) && s[14] == 0x24
  {
    AnchorText();
    hide Low, Text;
  }

  lemma AnchorText()
    ensures Text("_DMI_") == [0x5f, 0x44, 0x4d, 0x49, 0x5f]
  {
  }

  lemma Word16Of(s: seq<Byte>, i: nat, v: int)
    requires i + 2 <= |s| && s[i..i + 2] == Le16(v)
    ensures Word16At(s, i) == v % 0x1_0000
  {
    Le16Is(v);
    assert s[i] == s[i..i + 2][0] && s[i + 1] == s[i..i + 2][1];
  }

  lemma Word32Of(s: seq<Byte>, i: nat, v: int)
    requires i + 4 <= |s| && s[i..i + 4] == Le32(v)
    ensures Word32At(s, i) == v % 0x1_0000_0000
  {
    Le32Is(v);
    hide Le32;
    var w := s[i..i + 4];
    assert s[i] == w[0] && s[i + 1] == w[1] && s[i + 2] == w[2] && s[i + 3] == w[3];
  }

  /** The fields of the entry point of SMBIOS 2.4, each in its place: the largest structure; the
      length and the address of the structures and how many there are. */
  lemma EntryPointReads(maxSize: int, length: int, address: int, count: int)
    ensures var e := EntryPoint(maxSize, length, address, count);
      && |e| == 31 && e[..4] == [0x5f, 0x53, 0x4d, 0x5f] && e[5..8] == [0x1f, 2, 4]
      && Word16At(e, 8) == maxSize % 0x1_0000 && e[10..16] == [0, 0, 0, 0, 0, 0]
      && e[16..21] == [0x5f, 0x44, 0x4d, 0x49, 0x5f]
      && Word16At(e, 22) == length % 0x1_0000 && Word32At(e, 24) == address % 0x1_0000_0000
      && Word16At(e, 28) == count % 0x1_0000 && e[30] == 0x24
  {
    var a := Negated(Sum(FirstHalf(maxSize, 0)));
    var b := Negated(Sum(SecondHalf(length, address, count, 0)));
    var f, s := FirstHalf(maxSize, a), SecondHalf(length, address, count, b);
    assert EntryPoint(maxSize, length, address, count) == f + s;
    hide *;
    FirstHalfReads(maxSize, a);
    SecondHalfReads(length, address, count, b);
    var e := f + s;
    BothHalves(f, s);
    Word16Of(e, 8, maxSize);
    Word16Of(e, 22, length);
    Word32Of(e, 24, address);
    Word16Of(e, 28, count);
  }

  lemma BothHalves(f: seq<Byte>, s: seq<Byte>)
    requires |f| == 16 && |s| == 15
    ensures var e := f + s;
      && e[..4] == f[..4] && e[5..8] == f[5..8] && e[8..10] == f[8..10] && e[10..16] == f[10..16]
      && e[16..21] == s[..5] && e[22..24] == s[6..8] && e[24..28] == s[8..12] && e[28..30] == s[12..14]
      && e[30] == s[14]
  {
  }

  /** Fills in the entry point at the start of `start`; both checksum bytes are zero while they
      are summed. */
  method SmbiosEntryPointInit(start: array<Byte>, maxSize: int, length: int, address: int, count: int)
    requires start.Length >= ENTRY_SIZE
    modifies start
    ensures start[..ENTRY_SIZE] == EntryPoint(maxSize, length, address, count)
    ensures start[ENTRY_SIZE..] == old(start[ENTRY_SIZE..])
  {
    ghost var was := start[..];
    var first, second := FirstHalf(maxSize, 0), SecondHalf(length, address, count, 0);
    HalvesFilled(maxSize, length, address, count, Negated(Sum(first)), Negated(Sum(second)));
    ghost var all := EntryPoint(maxSize, length, address, count);
    assert all == first[4 := Negated(Sum(first))] + second[5 := Negated(Sum(second))];
    assert ENTRY_SIZE == 31;
    StoredInFront(was, first, second);
    hide *;
    Store(start, 0, first + second);
    StoreSum(start, 0, 0x10, 4, [], first, second + was[31..]);
    ghost var a := first[4 := Negated(Sum(first))];
    assert start[..] == a + second + was[31..];
    StoreSum(start, 0x10, 31, 0x15, a, second, was[31..]);
  }

  lemma StoredInFront(was: seq<Byte>, first: seq<Byte>, second: seq<Byte>)
    requires |first| == 16 && |second| == 15 && |was| >= 31
    ensures Stored(was, 0, first + second) == [] + first + (second + was[31..])
  {
  }
}
