/** The secondary ACPI table that declares the processors: its scope length as section
    20.2.4 of the ACPI Specification encodes it, its processor objects and its checksum. */
module AcpiSsdt {
  import opened Memory
  import opened TableBytes

  const HEADER_SIZE: nat := 36

  // ---------------------------------------------------------------- the table

  function HeaderFront(sig: seq<Byte>, len: int, rev: Byte): seq<Byte> {
    sig + Le32(len) + [rev]
  }

  function HeaderBack(sig: seq<Byte>): seq<Byte> {
    Text("BOCHS ") + Text("BXPC") + sig + Le32(1) + Text("BXPC") + Le32(1)
  }

  function Header(sig: seq<Byte>, len: int, rev: Byte, checksum: Byte): (r: seq<Byte>)
    requires |sig| == 4
    ensures |r| == HEADER_SIZE && r[9] == checksum
  {
    HeaderFront(sig, len, rev) + [checksum] + HeaderBack(sig)
  }

  /** A table with the header built over its first bytes and the checksum filled in. */
  function WithHeader(sig: seq<Byte>, rev: Byte, checksum: Byte, body: seq<Byte>): seq<Byte>
    requires |sig| == 4
  {
    var t := Header(sig, HEADER_SIZE + |body|, rev, checksum) + body;
    t[9 := Negated(Sum(t))]
  }

  /** The length field of a scope whose content has the given length. */
  function PkgLength(length: nat): (r: seq<Byte>)
    ensures 1 <= |r| <= 2
  {
    if length <= 0x3e then [Low(length + 1)]
    else [0x40 + (length + 2) % 16, Low((length + 2) / 16)]
  }

  function HexDigit(d: nat): Byte
    requires d < 16
  {
    if d < 10 then '0' as int + d else 'A' as int + d - 10
  }

  function Name(i: nat): (r: seq<Byte>)
    requires i < 256
    ensures |r| == 4
  {
    ['C' as int, 'P' as int, if i / 16 != 0 then HexDigit(i / 16) else 'U' as int, HexDigit(i % 16)]
  }

  function Processor(i: nat): (r: seq<Byte>)
    requires i < 256
    ensures |r| == 13
  {
    [0x5b, 0x83, 0x0b] + Name(i) + [i, 0x10, 0xb0, 0, 0, 6]
  }

  function Processors(n: nat): (r: seq<Byte>)
    requires n <= 255
    ensures |r| == 13 * n
  {
    if n == 0 then [] else Processors(n - 1) + Processor(n - 1)
  }

  function ScopeLength(n: nat): (r: nat)
    ensures r == 13 * n + 4
  {
    13 * n + 4
  }

  function Scope(n: nat): seq<Byte>
    requires n <= 255
  {
    [0x10] + PkgLength(ScopeLength(n)) + Text("_PR_") + Processors(n)
  }

  /** The number of processors the table can declare. */
  function Declared(cpus: nat): (r: nat)
    ensures r == cpus || r == 0xff <= cpus
    ensures r <= 0xff
  {
    if cpus > 0xff then 0xff else cpus
  }

  function Ssdt(cpus: nat): seq<Byte> {
    WithHeader(Text("SSDT"), 1, 0, Scope(Declared(cpus)))
  }

  // ---------------------------------------------------------------- reading the table

  /** The value of a length field and the bytes it takes: the top two bits of the lead byte
      count the bytes that follow; alone, its low six bits are the value, otherwise its low
      four bits are the lowest and the other bytes follow in order. */
  function DecodePkgLength(s: seq<Byte>): (nat, nat) {
    if s == [] then (0, 0)
    else
      var following := s[0] / 64;
      if following == 0 then (s[0] % 64, 1)
      else if |s| < following + 1 then (0, 0)
      else (s[0] % 16 + 16 * LittleEndian(s[1..following + 1]), following + 1)
  }

  function LittleEndian(s: seq<Byte>): nat {
    if s == [] then 0 else (s[0] as int) + 256 * LittleEndian(s[1..])
  }

  datatype Names = Malformed | Names(names: seq<seq<Byte>>)

  /** The names of the processor objects `s` consists of. */
  function ReadProcessors(s: seq<Byte>): Names
    decreases |s|
  {
    if s == [] then Names([])
    else if |s| < 3 || s[0] != 0x5b || s[1] != 0x83 then Malformed
    else
      var (len, width) := DecodePkgLength(s[2..]);
      if len < width + 4 || 2 + len > |s| then Malformed
      else
        match ReadProcessors(s[2 + len..])
        case Malformed => Malformed
        case Names(rest) => Names([s[2 + width..2 + width + 4]] + rest)
  }

  /** Decoding the length field of a content of any length the table can have gives the bytes
      from the field itself to the end of the content. */
  lemma PkgLengthDecodes(length: nat, after: seq<Byte>)
    requires length + 2 < 0x1000
    ensures var p := PkgLength(length);
      DecodePkgLength(p + after) == (|p| + length, |p|)
  {
    if length <= 0x3e {
      DecodeOneByte(length + 1, after);
    } else {
      DecodeTwoBytes(length + 2, after);
    }
  }

  lemma DecodeOneByte(v: nat, after: seq<Byte>)
    requires v < 0x40
    ensures DecodePkgLength([v] + after) == (v, 1)
  {
  }

  lemma DecodeTwoBytes(v: nat, after: seq<Byte>)
    requires v < 0x1000
    ensures DecodePkgLength([0x40 + v % 16, Low(v / 16)] + after) == (v, 2)
  {
    var s := [0x40 + v % 16, Low(v / 16)] + after;
    assert s[1..2] == [s[1]];
    assert LittleEndian([s[1]]) == s[1] + 256 * LittleEndian([s[1]][1..]);
    assert v / 16 < 256;
    TopBits(v % 16);
  }

  lemma TopBits(d: nat)
    requires d < 16
    ensures (0x40 + d) / 64 == 1 && (0x40 + d) % 16 == d
  {
  }

  lemma ReadOne(i: nat, rest: seq<Byte>)
    requires i < 256
    ensures var s := Processor(i) + rest;
      ReadProcessors(s) == match ReadProcessors(rest) case Malformed => Malformed case Names(r) => Names([Name(i)] + r)
  {
    var s := Processor(i) + rest;
    assert DecodePkgLength(s[2..]) == (11, 1);
    assert s[13..] == rest;
    assert s[3..7] == Name(i);
  }

  function NamesUpTo(n: nat): (r: seq<seq<Byte>>)
    requires n <= 255
    ensures |r| == n && forall i :: 0 <= i < n ==> r[i] == Name(i)
  {
    seq(n, i requires 0 <= i < n => Name(i))
  }

  lemma {:induction false} ReadUpTo(n: nat, rest: seq<Byte>)
    requires n <= 255 && ReadProcessors(rest).Names?
    ensures ReadProcessors(Processors(n) + rest) == Names(NamesUpTo(n) + ReadProcessors(rest).names)
  {
    hide Processor, ReadProcessors, Name;
    if n == 0 {
      assert Processors(n) + rest == rest;
      assert NamesUpTo(0) + ReadProcessors(rest).names == ReadProcessors(rest).names;
    } else {
      ReadOne(n - 1, rest);
      ReadUpTo(n - 1, Processor(n - 1) + rest);
      assert Processors(n) + rest == Processors(n - 1) + (Processor(n - 1) + rest);
      assert NamesUpTo(n - 1) + ([Name(n - 1)] + ReadProcessors(rest).names)
          == NamesUpTo(n) + ReadProcessors(rest).names;
    }
  }

  lemma HexDigitsDiffer(d: nat, e: nat)
    requires d < 16 && e < 16
    ensures HexDigit(d) == HexDigit(e) ==> d == e
    ensures HexDigit(d) != 'U' as int
  {
  }

  lemma NamesDiffer(i: nat, j: nat)
    requires i < 256 && j < 256 && i != j
    ensures Name(i) != Name(j)
  {
    HexDigitsDiffer(i / 16, j / 16);
    HexDigitsDiffer(j / 16, i / 16);
    HexDigitsDiffer(i % 16, j % 16);
    assert i == 16 * (i / 16) + i % 16 && j == 16 * (j / 16) + j % 16;
    assert Name(i)[2] == Name(j)[2] && Name(i)[3] == Name(j)[3] ==> i == j;
  }

  lemma Slices(t: seq<Byte>, p: seq<Byte>, name: seq<Byte>, rest: seq<Byte>)
    requires |t| >= 36 && t[36..] == [0x10] + p + name + rest && |name| == 4
    ensures |t| == 41 + |p| + |rest| && t[36] == 0x10
    ensures t[37..] == p + (name + rest)
    ensures t[37 + |p|..41 + |p|] == name && t[41 + |p|..] == rest
  {
    var s := t[36..];
    assert t[37..] == s[1..];
    assert t[37 + |p|..41 + |p|] == s[1 + |p|..5 + |p|];
    assert t[41 + |p|..] == s[5 + |p|..];
  }

  lemma LengthField(sig: seq<Byte>, len: int, rev: Byte, checksum: Byte)
    requires |sig| == 4
    ensures Header(sig, len, rev, checksum)[4..8] == Le32(len)
  {
    hide HeaderBack, Low;
  }

  lemma BodyIsKept(sig: seq<Byte>, rev: Byte, checksum: Byte, body: seq<Byte>)
    requires |sig| == 4
    ensures var t := WithHeader(sig, rev, checksum, body);
      && |t| == HEADER_SIZE + |body| && t[HEADER_SIZE..] == body && t[4..8] == Le32(|t|)
      && (Sum(t) % 256 == 0 <==> checksum == 0)
  {
    var len := HEADER_SIZE + |body|;
    var h := Header(sig, len, rev, checksum);
    LengthField(sig, len, rev, checksum);
    ChecksumZeroes(h + body, 9);
    hide Header, Sum, Negated, Le32;
    var t := (h + body)[9 := Negated(Sum(h + body))];
    assert t == WithHeader(sig, rev, checksum, body);
    assert t[4..8] == h[4..8];
  }

  lemma WordReadsBack(t: seq<Byte>, v: nat)
    requires |t| >= 8 && t[4..8] == Le32(v) && v < 0x1_0000_0000
    ensures Word32At(t, 4) == v
  {
    Le32ReadsBack(v);
    hide Low;
    assert t[4] == t[4..8][0] && t[5] == t[4..8][1] && t[6] == t[4..8][2] && t[7] == t[4..8][3];
  }

  lemma SsdtParts(n: nat)
    requires n <= 255
    ensures var t := WithHeader(Text("SSDT"), 1, 0, Scope(n));
      var p := PkgLength(ScopeLength(n));
      && |t| == 41 + |p| + 13 * n && Word32At(t, 4) == |t| && Sum(t) % 256 == 0
      && t[36] == 0x10 && t[37..] == p + (Text("_PR_") + Processors(n))
      && t[41 + |p|..] == Processors(n)
      && t[37 + |p|..41 + |p|] == Text("_PR_")
  {
    assert HEADER_SIZE == 36;
    var p := PkgLength(ScopeLength(n));
    assert Scope(n) == [0x10] + p + Text("_PR_") + Processors(n);
    hide *;
    var t := WithHeader(Text("SSDT"), 1, 0, Scope(n));
    BodyIsKept(Text("SSDT"), 1, 0, Scope(n));
    Slices(t, p, Text("_PR_"), Processors(n));
    WordReadsBack(t, |t|);
  }

  lemma NamesAreDistinct(n: nat)
    requires n <= 255
    ensures forall i, j :: 0 <= i < j < n ==> NamesUpTo(n)[i] != NamesUpTo(n)[j]
  {
    forall i, j | 0 <= i < j < n ensures NamesUpTo(n)[i] != NamesUpTo(n)[j] {
      NamesDiffer(i, j);
    }
  }

  /** The objects read back to exactly the names written. */
  lemma ReadAll(n: nat)
    requires n <= 255
    ensures ReadProcessors(Processors(n)) == Names(NamesUpTo(n))
  {
    assert ReadProcessors([]) == Names([]);
    hide *;
    ReadUpTo(n, []);
    assert Processors(n) + [] == Processors(n);
    assert NamesUpTo(n) + [] == NamesUpTo(n);
  }

  lemma SsdtReads(n: nat)
    requires n <= 255
    ensures var t := WithHeader(Text("SSDT"), 1, 0, Scope(n));
      var width := |PkgLength(ScopeLength(n))|;
      && |t| == 41 + width + 13 * n
      && DecodePkgLength(t[37..]) == (|t| - 37, width)
      && ReadProcessors(t[41 + width..]) == Names(NamesUpTo(n))
  {
    hide *;
    SsdtParts(n);
    PkgLengthDecodes(ScopeLength(n), Text("_PR_") + Processors(n));
    ReadAll(n);
  }

  /** For every processor count: the header's length is the table's; the scope's length field
      decodes to the bytes from itself to the end of the table; what follows the scope's name
      is exactly one object for each declared processor, with pairwise distinct names; and the
      table sums to zero. */
  lemma SsdtIsConsistent(cpus: nat)
    ensures var t := Ssdt(cpus);
      && |t| >= 42 && Word32At(t, 4) == |t| && Sum(t) % 256 == 0
      && t[36] == 0x10
      && DecodePkgLength(t[37..]).0 == |t| - 37
      && var width := DecodePkgLength(t[37..]).1;
      && 41 + width <= |t|
      && t[37 + width..41 + width] == Text("_PR_")
      && ReadProcessors(t[41 + width..]) == Names(NamesUpTo(Declared(cpus)))
    ensures forall i, j :: 0 <= i < j < Declared(cpus) ==>
      NamesUpTo(Declared(cpus))[i] != NamesUpTo(Declared(cpus))[j]
  {
    var n := Declared(cpus);
    assert Ssdt(cpus) == WithHeader(Text("SSDT"), 1, 0, Scope(n));
    hide *;
    SsdtParts(n);
    SsdtReads(n);
    NamesAreDistinct(n);
  }

  // ---------------------------------------------------------------- the builder

  /** Builds the header over the first bytes of a table of length `len`; the checksum byte takes
      part in the sum with the value it had. */
  method AcpiBuildTableHeader(h: array<Byte>, sig: seq<Byte>, len: nat, rev: Byte)
    requires |sig| == 4 && HEADER_SIZE <= len <= h.Length
    modifies h
    ensures h[..] == WithHeader(sig, rev, old(h[9]), old(h[HEADER_SIZE..len])) + old(h[len..])
  {
    ghost var was := h[..];
    ghost var t := Header(sig, len, rev, h[9]) + h[HEADER_SIZE..len];
    HeaderSizes(sig, len, rev);
    HeaderStored(was, HeaderFront(sig, len, rev), HeaderBack(sig), len);
    assert t[9 := Negated(Sum(t))] == WithHeader(sig, rev, h[9], h[HEADER_SIZE..len]);
    assert HEADER_SIZE == 36;
    assert t == HeaderFront(sig, len, rev) + [was[9]] + HeaderBack(sig) + was[36..len];
    hide *;
    Store(h, 0, HeaderFront(sig, len, rev));
    Store(h, 10, HeaderBack(sig));
    Alone(t, was[len..]);
    StoreSum(h, 0, len, 9, [], t, was[len..]);
    Alone(t[9 := Negated(Sum(t))], was[len..]);
  }

  lemma Alone(t: seq<Byte>, rest: seq<Byte>)
    ensures [] + t + rest == t + rest
  {
  }

  lemma HeaderStored(was: seq<Byte>, front: seq<Byte>, back: seq<Byte>, len: nat)
    requires |front| == 9 && |back| == 26 && 36 <= len <= |was|
    ensures Stored(Stored(was, 0, front), 10, back) == front + [was[9]] + back + was[36..len] + was[len..]
  {
  }

  lemma HeaderSizes(sig: seq<Byte>, len: int, rev: Byte)
    requires |sig| == 4
    ensures |HeaderFront(sig, len, rev)| == 9 && |HeaderBack(sig)| == 26
  {
  }

  method PutProcessor(w: Writer, i: nat)
    requires i < 256 && w.Valid() && w.q + 13 <= w.mem.Length
    modifies w, w.mem
    ensures w.Valid() && w.q == old(w.q) + 13 && w.out == old(w.out) + Processor(i)
  {
    var third := if i / 16 != 0 then HexDigit(i / 16) else 'U' as int;
    var bytes := [0x5b, 0x83, 0x0b, 'C' as int, 'P' as int, third, HexDigit(i % 16), i, 0x10, 0xb0, 0, 0, 6];
    assert bytes == Processor(i);
    hide *;
    w.Puts(bytes);
  }

  method PutProcessors(w: Writer, n: nat)
    requires n <= 255 && w.Valid() && w.q + 13 * n <= w.mem.Length
    modifies w, w.mem
    ensures w.Valid() && w.q == old(w.q) + 13 * n && w.out == old(w.out) + Processors(n)
  {
    hide Processor;
    ghost var out := w.out;
    var i := 0;
    while i < n
      invariant i <= n && w.Valid() && w.q == old(w.q) + 13 * i
      invariant w.out == out + Processors(i)
    {
      PutProcessor(w, i);
      assert out + Processors(i) + Processor(i) == out + Processors(i + 1);
      i := i + 1;
    }
  }

  method PutLength(w: Writer, length: nat)
    requires w.Valid() && w.q + 2 <= w.mem.Length
    modifies w, w.mem
    ensures w.Valid() && w.q <= old(w.q) + 2 && w.out == old(w.out) + PkgLength(length)
  {
    if length <= 0x3e {
      w.Putb(length + 1);
    } else {
      w.Putb(0x40 + (length + 2) % 16);
      w.Putb((length + 2) / 16);
    }
  }

  method PutScope(w: Writer, n: nat)
    requires n <= 255 && w.Valid() && w.q == w.base && w.q + 7 + 13 * n <= w.mem.Length
    modifies w, w.mem
    ensures w.Valid() && w.out == Scope(n)
  {
    var length := 0x0d * n + 4;
    assert length == ScopeLength(n);
    assert Low(0x10) == 0x10;
    ghost var parts := [0x10] + PkgLength(length) + Text("_PR_") + Processors(n);
    assert parts == Scope(n);
    hide *;
    w.Putb(0x10);
    assert w.out == [0x10];
    PutLength(w, length);
    w.Puts(Text("_PR_"));
    PutProcessors(w, n);
  }

  lemma SsdtIs(cpus: nat)
    ensures Ssdt(cpus) == WithHeader(Text("SSDT"), 1, 0, Scope(Declared(cpus)))
    ensures HEADER_SIZE == 36
  {
  }

  lemma BodyIsThere(was: seq<Byte>, now: seq<Byte>, body: seq<Byte>)
    requires 36 + |body| <= |was| && was[9] == 0 && now == Stored(was, 36, body)
    ensures now[9] == 0 && now[36..36 + |body|] == body && now[36 + |body|..] == was[36 + |body|..]
  {
  }

  /** Fills in the table from the start of `ssdt`; what is behind it is untouched. */
  method AcpiBuildProcessorSsdt(ssdt: array<Byte>, smpCpus: nat) returns (len: nat)
    requires 43 + 13 * Declared(smpCpus) <= ssdt.Length
    modifies ssdt
    ensures len <= ssdt.Length && ssdt[..] == Ssdt(smpCpus) + old(ssdt[len..]) && |Ssdt(smpCpus)| == len
  {
    var acpiCpus := if smpCpus > 0xff then 0xff else smpCpus;
    hide *;
    SsdtIs(smpCpus);
    ssdt[9] := 0;
    ghost var was := ssdt[..];
    var w := new Writer(ssdt, HEADER_SIZE);
    PutScope(w, acpiCpus);
    WrittenIs(w);
    len := w.q;
    BodyIsThere(was, ssdt[..], Scope(acpiCpus));
    BodyIsKept(Text("SSDT"), 1, 0, Scope(acpiCpus));
    assert ssdt[HEADER_SIZE..len] == ssdt[..][HEADER_SIZE..len];
    assert ssdt[len..] == ssdt[..][len..] == was[len..];
    AcpiBuildTableHeader(ssdt, Text("SSDT"), len, 1);
  }
}
