/** The multiprocessor configuration table and its floating pointer, sections 4.1 to 4.3 of
    MultiProcessor Specification 1.4. */
module MpTable {
  import opened Memory
  import opened Paragraphs
  import opened TableBytes

  const HEADER_SIZE: nat := 44
  const OTHER_ENTRIES: nat := 17

  // ---------------------------------------------------------------- the table

  /** The header with the given length and checksum. */
  function Header(len: int, checksum: Byte, entries: int): (r: seq<Byte>)
    ensures |r| == HEADER_SIZE
  {
    Text("PCMP") + Le16(len) + [4, checksum] + Text("BOCHSCPU") + Text("0.1         ")
    + Le32(0) + Le16(0) + Le16(entries) + Le32(0xfee0_0000) + Le16(0) + [0, 0]
  }

  /** What the processor reports of itself; a zero signature stands for a processor that
      cannot tell. */
  datatype Cpuid = Cpuid(signature: int, features: int)

  function CpuEntry(i: int, id: Cpuid): (r: seq<Byte>)
    ensures |r| == 20 && r[0] == 0
  {
    [0, Low(i), 0x11, if i == 0 then 3 else 1]
    + (if id.signature != 0 then Le32(id.signature) + Le32(id.features)
       else [0, 6, 0, 0] + Le16(0x201) + Le16(0))
    + Le16(0) + Le16(0) + Le16(0) + Le16(0)
  }

  function CpuEntries(n: nat, id: Cpuid): (r: seq<Byte>)
    ensures |r| == 20 * n
  {
    if n == 0 then [] else CpuEntries(n - 1, id) + CpuEntry(n - 1, id)
  }

  function BusEntry(): (r: seq<Byte>)
    ensures |r| == 8 && r[0] == 1
  {
    [1, 0] + Text("ISA   ")
  }

  function IoApicEntry(id: int): (r: seq<Byte>)
    ensures |r| == 8 && r[0] == 2
  {
    [2, Low(id), 0x11, 1] + Le32(0xfec0_0000)
  }

  /** The interrupt of an input; input 2 is fed by interrupt 0. */
  function IrqEntry(i: int, ioApic: int): (r: seq<Byte>)
    ensures |r| == 8 && r[0] == 3
  {
    [3, 0, 0, 0, 0, Low(i), Low(ioApic), Low(if i == 0 then 2 else i)]
  }

  /** The entries of inputs below n; interrupt 2 has none. */
  function IrqEntries(n: nat, ioApic: int): (r: seq<Byte>)
    ensures |r| == 8 * (if n > 2 then n - 1 else n)
  {
    if n == 0 then []
    else IrqEntries(n - 1, ioApic) + (if n - 1 == 2 then [] else IrqEntry(n - 1, ioApic))
  }

  function Entries(cpus: nat, id: Cpuid): seq<Byte> {
    CpuEntries(cpus, id) + BusEntry() + IoApicEntry(cpus) + IrqEntries(16, cpus)
  }

  function Unsummed(cpus: nat, id: Cpuid): seq<Byte> {
    Header(HEADER_SIZE + |Entries(cpus, id)|, 0, cpus + OTHER_ENTRIES) + Entries(cpus, id)
  }

  function Table(cpus: nat, id: Cpuid): seq<Byte> {
    Summed(Unsummed(cpus, id))
  }

  function Summed(t: seq<Byte>): seq<Byte> {
    if |t| > 7 then t[7 := Negated(Sum(t))] else t
  }

  // ---------------------------------------------------------------- walking the table

  function EntrySize(kind: Byte): nat {
    if kind == 0 then 20 else 8
  }

  /** The number of entries a reader meets that steps over `s` by entry size, or -1 when the
      last entry does not end where the table ends. */
  function Walk(s: seq<Byte>): (n: int)
    ensures n >= -1
    decreases |s|
  {
    if s == [] then 0
    else if |s| < EntrySize(s[0]) then -1
    else
      var rest := Walk(s[EntrySize(s[0])..]);
      if rest < 0 then -1 else rest + 1
  }

  lemma WalkNothing()
    ensures Walk([]) == 0
  {
  }

  lemma WalkOne(e: seq<Byte>)
    requires e != [] && |e| == EntrySize(e[0])
    ensures Walk(e) == 1
  {
    assert e[EntrySize(e[0])..] == [];
  }

  lemma {:induction false} WalkAppends(a: seq<Byte>, b: seq<Byte>)
    requires Walk(a) >= 0 && Walk(b) >= 0
    ensures Walk(a + b) == Walk(a) + Walk(b)
    decreases |a|
  {
    if a == [] {
      assert a + b == b;
    } else {
      var k := EntrySize(a[0]);
      assert (a + b)[k..] == a[k..] + b;
      WalkAppends(a[k..], b);
    }
  }

  lemma {:induction false} WalkCpus(n: nat, id: Cpuid)
    ensures Walk(CpuEntries(n, id)) == n
  {
    hide CpuEntry, Walk;
    WalkNothing();
    if n > 0 {
      WalkCpus(n - 1, id);
      WalkOne(CpuEntry(n - 1, id));
      WalkAppends(CpuEntries(n - 1, id), CpuEntry(n - 1, id));
    }
  }

  lemma {:induction false} WalkIrqs(n: nat, ioApic: int)
    ensures var k := if n > 2 then n - 1 else n;
      Walk(IrqEntries(n, ioApic)) == k && |IrqEntries(n, ioApic)| == 8 * k
  {
    hide IrqEntry, Walk;
    WalkNothing();
    if n > 0 {
      WalkIrqs(n - 1, ioApic);
      if n - 1 == 2 {
        assert IrqEntries(n, ioApic) == IrqEntries(n - 1, ioApic);
      } else {
        WalkOne(IrqEntry(n - 1, ioApic));
        WalkAppends(IrqEntries(n - 1, ioApic), IrqEntry(n - 1, ioApic));
      }
    }
  }

  lemma WalkEntries(cpus: nat, id: Cpuid)
    ensures Walk(Entries(cpus, id)) == cpus + OTHER_ENTRIES
    ensures |Entries(cpus, id)| == 20 * cpus + 8 * OTHER_ENTRIES
  {
    WalkCpus(cpus, id);
    WalkIrqs(16, cpus);
    WalkOne(BusEntry());
    WalkOne(IoApicEntry(cpus));
    var c, b, a, q := CpuEntries(cpus, id), BusEntry(), IoApicEntry(cpus), IrqEntries(16, cpus);
    hide *;
    WalkAppends(c, b);
    WalkAppends(c + b, a);
    WalkAppends(c + b + a, q);
  }

  lemma HeaderIs(len: nat, checksum: Byte, entries: nat)
    requires len < 0x1_0000 && entries < 0x1_0000
    ensures var h := Header(len, checksum, entries);
      && |h| == HEADER_SIZE && h[7] == checksum && Word16At(h, 4) == len && Word16At(h, 34) == entries
      && h[..4] == Text("PCMP")
  {
    var h := Header(len, checksum, entries);
    assert h[4] == Low(len) && h[5] == Low(len / 256);
    assert h[34] == Low(entries) && h[35] == Low(entries / 256);
  }

  lemma SummedKeeps(h: seq<Byte>, e: seq<Byte>)
    requires |h| == HEADER_SIZE && h[7] == 0
    ensures var t := Summed(h + e);
      && |t| == HEADER_SIZE + |e| && t[HEADER_SIZE..] == e && t[..4] == h[..4]
      && Word16At(t, 4) == Word16At(h, 4) && Word16At(t, 34) == Word16At(h, 34)
      && Sum(t) % 256 == 0
  {
    ChecksumZeroes(h + e, 7);
    hide Sum, Negated;
  }

  function TableSize(cpus: nat): nat {
    HEADER_SIZE + 20 * cpus + 8 * OTHER_ENTRIES
  }

  lemma TableIs(cpus: nat, id: Cpuid)
    ensures TableSize(cpus) == HEADER_SIZE + 20 * cpus + 8 * OTHER_ENTRIES
    ensures OTHER_ENTRIES == 17 && HEADER_SIZE == 44
    ensures Table(cpus, id) == Summed(Header(HEADER_SIZE + |Entries(cpus, id)|, 0, cpus + OTHER_ENTRIES) + Entries(cpus, id))
  {
  }

  /** For every number of processors whose table fits its length field: the length and the
      entry count in the header are those of the table, a reader that steps over the entries
      by size meets exactly that many and ends exactly at the end, and the bytes sum to zero. */
  lemma TableIsConsistent(cpus: nat, id: Cpuid)
    requires HEADER_SIZE + 20 * cpus + 8 * OTHER_ENTRIES < 0x1_0000
    ensures var t := Table(cpus, id);
      && |t| == HEADER_SIZE + 20 * cpus + 8 * OTHER_ENTRIES
      && Word16At(t, 4) == |t| && Word16At(t, 34) == cpus + OTHER_ENTRIES
      && Walk(t[HEADER_SIZE..]) == Word16At(t, 34)
      && Sum(t) % 256 == 0
  {
    hide *;
    var e := Entries(cpus, id);
    var len := HEADER_SIZE + 20 * cpus + 8 * OTHER_ENTRIES;
    WalkEntries(cpus, id);
    TableIs(cpus, id);
    HeaderIs(len, 0, cpus + OTHER_ENTRIES);
    SummedKeeps(Header(len, 0, cpus + OTHER_ENTRIES), e);
  }

  lemma CpuEntryIs(i: nat, id: Cpuid)
    ensures var e := CpuEntry(i, id);
      e[1] == i % 256 && e[3] == if i == 0 then 3 else 1
  {
  }

  /** Exactly the first processor is marked as the one that boots, and every processor as
      enabled, with its number as the identity of its interrupt controller. */
  lemma {:induction false} CpuEntryAt(n: nat, id: Cpuid, i: nat)
    requires i < n
    ensures 20 * i + 20 <= |CpuEntries(n, id)|
    ensures var s := CpuEntries(n, id);
      s[20 * i] == 0 && s[20 * i + 1] == i % 256 && s[20 * i + 3] == if i == 0 then 3 else 1
  {
    CpuEntryIs(n - 1, id);
    hide CpuEntry;
    if i < n - 1 {
      CpuEntryAt(n - 1, id, i);
    }
  }

  // ---------------------------------------------------------------- the floating pointer

  function Floating(tableAddr: int, checksum: Byte): seq<Byte> {
    Text("_MP_") + Le32(tableAddr) + [1, 4, checksum, 0, 0, 0, 0, 0]
  }

  function FloatingPointer(tableAddr: int): seq<Byte> {
    Floating(tableAddr, Negated(Sum(Floating(tableAddr, 0))))
  }

  /** The floating pointer is as long as it says, in units of sixteen bytes, leads to the
      table and sums to zero. */
  lemma FloatingIsConsistent(tableAddr: nat)
    requires tableAddr < 0x1_0000_0000
    ensures var f := FloatingPointer(tableAddr);
      && |f| == 16 && |f| == 16 * (f[8] as int)
      && Word32At(f, 4) == tableAddr
      && Sum(f) % 256 == 0
  {
    var blank := Floating(tableAddr, 0);
    var sum := Sum(blank);
    FloatingParts(tableAddr, 0);
    FloatingParts(tableAddr, Negated(sum));
    Le32ReadsBack(tableAddr);
    ChecksumZeroes(blank, 10);
    hide Floating, Sum, Negated, Low;
    assert FloatingPointer(tableAddr) == blank[10 := Negated(sum)];
  }

  lemma FloatingParts(tableAddr: int, checksum: Byte)
    ensures var f := Floating(tableAddr, checksum);
      && |f| == 16 && f[4..8] == Le32(tableAddr) && f[8] == 1 && f[10] == checksum
      && f[..10] == Floating(tableAddr, 0)[..10] && f[11..] == Floating(tableAddr, 0)[11..]
      && f[4] == Low(tableAddr) && f[5] == Low(tableAddr / 256)
      && f[6] == Low(tableAddr / 0x1_0000) && f[7] == Low(tableAddr / 0x100_0000)
  {
  }

  lemma FloatingPatched(tableAddr: int, checksum: Byte)
    ensures |Floating(tableAddr, 0)| == 16
    ensures Floating(tableAddr, checksum) == Floating(tableAddr, 0)[10 := checksum]
  {
  }

  lemma FloatingIs(tableAddr: int)
    ensures var blank := Floating(tableAddr, 0);
      |blank| == 16 && FloatingPointer(tableAddr) == blank[10 := Negated(Sum(blank))]
  {
    FloatingPatched(tableAddr, Negated(Sum(Floating(tableAddr, 0))));
  }

  // ---------------------------------------------------------------- the builder

  method PutHeader(w: Writer, entries: int)
    requires w.Valid() && w.q == w.base && w.q + HEADER_SIZE <= w.mem.Length
    modifies w, w.mem
    ensures w.Valid() && w.out == Header(0, 0, entries) && w.q == w.base + HEADER_SIZE
  {
    HeaderParts(0, 0, entries);
    w.Puts(Text("PCMP") + Le16(0) + [4, 0] + Text("BOCHSCPU"));
    w.Puts(Text("0.1         "));
    w.Puts(Le32(0) + Le16(0) + Le16(entries) + Le32(0xfee0_0000) + Le16(0) + [0, 0]);
  }

  lemma HeaderParts(len: int, checksum: Byte, entries: int)
    ensures var a := Text("PCMP") + Le16(len) + [4, checksum] + Text("BOCHSCPU");
      var b := Le32(0) + Le16(0) + Le16(entries) + Le32(0xfee0_0000) + Le16(0) + [0, 0];
      && |a| == 16 && |b| == 16
      && Header(len, checksum, entries) == a + Text("0.1         ") + b
  {
  }

  method PutCpu(w: Writer, i: int, id: Cpuid)
    requires w.Valid() && w.q + 20 <= w.mem.Length
    modifies w, w.mem
    ensures w.Valid() && w.out == old(w.out) + CpuEntry(i, id) && w.q == old(w.q) + 20
  {
    var flags := if i == 0 then 3 else 1;
    if id.signature != 0 {
      w.Puts([0, Low(i), 0x11, flags] + (Le32(id.signature) + Le32(id.features))
             + Le16(0) + Le16(0) + Le16(0) + Le16(0));
    } else {
      w.Puts([0, Low(i), 0x11, flags] + ([0, 6, 0, 0] + Le16(0x201) + Le16(0))
             + Le16(0) + Le16(0) + Le16(0) + Le16(0));
    }
  }

  method PutCpus(w: Writer, cpus: nat, id: Cpuid)
    requires w.Valid() && w.q + 20 * cpus <= w.mem.Length
    modifies w, w.mem
    ensures w.Valid() && w.out == old(w.out) + CpuEntries(cpus, id) && w.q == old(w.q) + 20 * cpus
  {
    hide CpuEntry;
    ghost var out := w.out;
    var i := 0;
    while i < cpus
      invariant i <= cpus && w.Valid() && w.q == old(w.q) + 20 * i
      invariant w.out == out + CpuEntries(i, id)
    {
      PutCpu(w, i, id);
      assert out + CpuEntries(i, id) + CpuEntry(i, id) == out + CpuEntries(i + 1, id);
      i := i + 1;
    }
  }

  method PutIrqs(w: Writer, ioApic: int)
    requires w.Valid() && w.q + 120 <= w.mem.Length
    modifies w, w.mem
    ensures w.Valid() && w.out == old(w.out) + IrqEntries(16, ioApic) && w.q == old(w.q) + 120
  {
    hide IrqEntry;
    ghost var out := w.out;
    var i := 0;
    while i < 16
      invariant i <= 16 && w.Valid() && w.q == old(w.q) + 8 * (if i > 2 then i - 1 else i)
      invariant w.out == out + IrqEntries(i, ioApic)
    {
      if i != 2 {
        w.Puts(IrqEntry(i, ioApic));
        assert out + IrqEntries(i, ioApic) + IrqEntry(i, ioApic) == out + IrqEntries(i + 1, ioApic);
      } else {
        assert IrqEntries(i + 1, ioApic) == IrqEntries(i, ioApic);
      }
      i := i + 1;
    }
  }

  /** Everything but the patched fields. */
  method PutTable(w: Writer, cpus: nat, id: Cpuid)
    requires w.Valid() && w.q == w.base && w.q + HEADER_SIZE + 20 * cpus + 8 * OTHER_ENTRIES <= w.mem.Length
    modifies w, w.mem
    ensures w.Valid() && w.out == Header(0, 0, cpus + OTHER_ENTRIES) + Entries(cpus, id)
  {
    hide Header, CpuEntries, IrqEntries, BusEntry, IoApicEntry;
    PutHeader(w, cpus + OTHER_ENTRIES);
    ghost var h := w.out;
    PutCpus(w, cpus, id);
    w.Puts(BusEntry());
    w.Puts(IoApicEntry(cpus));
    PutIrqs(w, cpus);
    assert h + CpuEntries(cpus, id) + BusEntry() + IoApicEntry(cpus) + IrqEntries(16, cpus)
        == h + Entries(cpus, id);
  }

  /** Filling in the length, then the checksum of the whole, makes the table. */
  lemma PatchesMakeTable(len: nat, entries: int, e: seq<Byte>)
    requires len == HEADER_SIZE + |e|
    ensures (Header(0, 0, entries) + e)[4 := Low(len)][5 := Low(len / 256)] == Header(len, 0, entries) + e
  {
  }

  method PatchTable(w: Writer, ghost entries: int, ghost e: seq<Byte>)
    requires w.Valid() && w.out == Header(0, 0, entries) + e
    modifies w`out, w.mem
    ensures w.Valid() && w.out == Summed(Header(HEADER_SIZE + |e|, 0, entries) + e)
  {
    hide Header, Low, Negated, Sum, Stored;
    var len := w.q - w.base;
    PatchesMakeTable(len, entries, e);
    w.Patch(4, len);
    w.Patch(5, len / 256);
    w.PatchSum(7);
  }

  /** The table, built at `base`. */
  method BuildTable(mem: array<Byte>, base: nat, cpus: nat, id: Cpuid) returns (end: nat)
    requires base + TableSize(cpus) <= mem.Length
    modifies mem
    ensures end == base + |Table(cpus, id)| <= mem.Length
    ensures mem[..] == Stored(old(mem[..]), base, Table(cpus, id))
  {
    TableIs(cpus, id);
    hide *;
    var w := new Writer(mem, base);
    PutTable(w, cpus, id);
    PatchTable(w, cpus + OTHER_ENTRIES, Entries(cpus, id));
    WrittenIs(w);
    end := w.q;
  }

  /** The floating structure for a table at `tableAddr`, built at `base`. */
  method BuildFloating(mem: array<Byte>, base: nat, tableAddr: int) returns (end: nat)
    requires base + 16 <= mem.Length
    modifies mem
    ensures |FloatingPointer(tableAddr)| == 16 && end == base + 16
    ensures mem[..] == Stored(old(mem[..]), base, FloatingPointer(tableAddr))
  {
    hide *;
    var blank := Floating(tableAddr, 0);
    FloatingIs(tableAddr);
    var w := new Writer(mem, base);
    w.Puts(blank);
    assert w.out == blank;
    WrittenIs(w);
    w.PatchSum(10);
    WrittenIs(w);
    end := w.q;
  }

  /** `mptable_init` on memory from address zero: the table comes at the next paragraph, the
      floating structure with its address at the next paragraph behind it, and no other byte
      changes. The result is the address behind both. */
  method MptableInit(mem: array<Byte>, biosTableCurAddr: nat, cpus: nat, id: Cpuid) returns (curAddr: nat)
    requires RoundUp(biosTableCurAddr) + TableSize(cpus) + 31 <= mem.Length
    modifies mem
    ensures var base := RoundUp(biosTableCurAddr);
      var float := RoundUp(base + |Table(cpus, id)|);
      && base % 16 == 0 && float % 16 == 0 && base + |Table(cpus, id)| <= float && float + 16 == curAddr <= mem.Length
      && mem[base..base + |Table(cpus, id)|] == Table(cpus, id)
      && mem[float..curAddr] == FloatingPointer(base)
      && forall a :: 0 <= a < mem.Length && !(base <= a < base + |Table(cpus, id)|) && !(float <= a < curAddr) ==>
           mem[a] == old(mem[a])
  {
    hide Table, FloatingPointer, RoundUp, OnParagraph;
    TableLength(cpus, id);
    var base := RoundUp(biosTableCurAddr);
    var end := BuildTable(mem, base, cpus, id);
    ghost var mid := mem[..];
    var float := RoundUp(end);
    curAddr := BuildFloating(mem, float, base);
    BothAreThere(old(mem[..]), mid, mem[..], base, Table(cpus, id), float, FloatingPointer(base));
  }

  lemma TableLength(cpus: nat, id: Cpuid)
    ensures |Table(cpus, id)| == TableSize(cpus)
  {
    TableIs(cpus, id);
    hide Header, CpuEntries, IrqEntries, BusEntry, IoApicEntry, Negated, Sum;
  }

  lemma BothAreThere(was: seq<Byte>, mid: seq<Byte>, now: seq<Byte>, a: nat, s: seq<Byte>, b: nat, t: seq<Byte>)
    requires a + |s| <= b && b + |t| <= |was|
    requires mid == Stored(was, a, s) && now == Stored(mid, b, t)
    ensures now[a..a + |s|] == s && now[b..b + |t|] == t
    ensures forall i :: 0 <= i < |was| && !(a <= i < a + |s|) && !(b <= i < b + |t|) ==> now[i] == was[i]
  {
    StoredThere(was, a, s);
    StoredThere(mid, b, t);
    forall i | 0 <= i < |was| && !(b <= i < b + |t|) ensures now[i] == mid[i] {
      Unstored(mid, b, t, i);
    }
    forall i | 0 <= i < |was| && !(a <= i < a + |s|) ensures mid[i] == was[i] {
      Unstored(was, a, s, i);
    }
    hide Stored;
    assert now[a..a + |s|] == mid[a..a + |s|];
  }
}
