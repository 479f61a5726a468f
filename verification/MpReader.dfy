/** What a reader finds in the multiprocessor configuration table, byte by byte: sections 4.1 to
    4.3 of MultiProcessor Specification 1.4. */
module MpReader {
  import opened Memory
  import opened TableBytes
  import opened MpTable

  // ---------------------------------------------------------------- the header

  lemma HeaderReads(len: int, entries: int)
    ensures var h := Header(len, 0, entries);
      && |h| == 44 && h[..4] == [0x50, 0x43, 0x4d, 0x50] && h[6..8] == [4, 0]
      && h[8..16] == [0x42, 0x4f, 0x43, 0x48, 0x53, 0x43, 0x50, 0x55]
      && h[16..28] == [0x30, 0x2e, 0x31, 0x20, 0x20, 0x20, 0x20, 0x20, 0x20, 0x20, 0x20, 0x20]
      && h[28..34] == [0, 0, 0, 0, 0, 0] && h[36..44] == [0, 0, 0xe0, 0xfe, 0, 0, 0, 0]
  {
    HeaderParts(len, 0, entries);
    var a := Text("PCMP") + Le16(len) + [4, 0] + Text("BOCHSCPU");
    var b := Le32(0) + Le16(0) + Le16(entries) + Le32(0xfee0_0000) + Le16(0) + [0, 0];
    FirstPart(len);
    LastPart(entries);
    VersionText();
    hide *;
    ThreeParts(a, Text("0.1         "), b);
  }

  lemma ThreeParts(a: seq<Byte>, v: seq<Byte>, b: seq<Byte>)
    requires |a| == 16 && |v| == 12 && |b| == 16
    ensures var h := a + v + b;
      && h[..4] == a[..4] && h[6..8] == a[6..8] && h[8..16] == a[8..16] && h[16..28] == v
      && h[28..34] == b[..6] && h[36..44] == b[8..] && |h| == 44
  {
  }

  lemma FirstPart(len: int)
    ensures var a := Text("PCMP") + Le16(len) + [4, 0] + Text("BOCHSCPU");
      && |a| == 16 && a[..4] == [0x50, 0x43, 0x4d, 0x50] && a[6..8] == [4, 0]
      && a[8..16] == [0x42, 0x4f, 0x43, 0x48, 0x53, 0x43, 0x50, 0x55]
  {
    OemText();
    hide Text;
    assert (Text("PCMP") + Le16(len) + [4, 0] + Text("BOCHSCPU"))[8..16] == Text("BOCHSCPU");
  }

  lemma OemText()
    ensures Text("PCMP") == [0x50, 0x43, 0x4d, 0x50]
    ensures Text("BOCHSCPU") == [0x42, 0x4f, 0x43, 0x48, 0x53, 0x43, 0x50, 0x55]
  {
  }

  lemma LastPart(entries: int)
    ensures var b := Le32(0) + Le16(0) + Le16(entries) + Le32(0xfee0_0000) + Le16(0) + [0, 0];
      |b| == 16 && b[..6] == [0, 0, 0, 0, 0, 0] && b[8..] == [0, 0, 0xe0, 0xfe, 0, 0, 0, 0]
  {
  }

  lemma VersionText()
    ensures Text("0.1         ") == [0x30, 0x2e, 0x31, 0x20, 0x20, 0x20, 0x20, 0x20, 0x20, 0x20, 0x20, 0x20]
  {
  }

  // ---------------------------------------------------------------- the entries

  /** The entry of processor i: its identity, version 0x11, enabled, the first one to boot, and
      what it reports of itself or, without a signature, family 6 with two features. */
  predicate IsCpuEntry(e: seq<Byte>, i: nat, id: Cpuid) {
    && |e| == 20 && e[..4] == [0, i % 256, 0x11, if i == 0 then 3 else 1]
    && (id.signature != 0 ==>
         Word32At(e, 4) == id.signature % 0x1_0000_0000 && Word32At(e, 8) == id.features % 0x1_0000_0000)
    && (id.signature == 0 ==> e[4..12] == [0, 6, 0, 0, 1, 2, 0, 0])
    && e[12..] == [0, 0, 0, 0, 0, 0, 0, 0]
  }

  lemma SignatureReads(signature: int, features: int)
    ensures var m := Le32(signature) + Le32(features);
      |m| == 8 && Word32At(m, 0) == signature % 0x1_0000_0000 && Word32At(m, 4) == features % 0x1_0000_0000
  {
    Le32Is(signature);
    Le32Is(features);
    var m := Le32(signature) + Le32(features);
    assert Word32At(m, 0) == Word32At(Le32(signature), 0);
    assert Word32At(m, 4) == Word32At(Le32(features), 0);
    hide *;
  }

  lemma EntryParts(head: seq<Byte>, m: seq<Byte>, tail: seq<Byte>)
    requires |head| == 4 && |m| == 8 && |tail| == 8
    ensures var e := head + m + tail;
      && |e| == 20 && e[..4] == head && e[4..12] == m && e[12..] == tail
      && Word32At(e, 4) == Word32At(m, 0) && Word32At(e, 8) == Word32At(m, 4)
  {
  }

  lemma CpuEntryIsParts(i: nat, id: Cpuid)
    ensures var m := if id.signature != 0 then Le32(id.signature) + Le32(id.features) else [0, 6, 0, 0, 1, 2, 0, 0];
      CpuEntry(i, id) == [0, i % 256, 0x11, if i == 0 then 3 else 1] + m + [0, 0, 0, 0, 0, 0, 0, 0]
  {
    hide Le32;
    assert [0, 6, 0, 0] + Le16(0x201) + Le16(0) == [0, 6, 0, 0, 1, 2, 0, 0];
    assert Le16(0) == [0, 0];
  }

  lemma CpuEntryReads(i: nat, id: Cpuid)
    ensures IsCpuEntry(CpuEntry(i, id), i, id)
  {
    hide CpuEntry, Le32, Word32At;
    CpuEntryIsParts(i, id);
    SignatureReads(id.signature, id.features);
    var m := if id.signature != 0 then Le32(id.signature) + Le32(id.features) else [0, 6, 0, 0, 1, 2, 0, 0];
    EntryParts([0, i % 256, 0x11, if i == 0 then 3 else 1], m, [0, 0, 0, 0, 0, 0, 0, 0]);
  }

  lemma {:induction false} CpuEntriesRead(n: nat, id: Cpuid, i: nat)
    requires i < n
    ensures 20 * i + 20 <= |CpuEntries(n, id)| && IsCpuEntry(CpuEntries(n, id)[20 * i..20 * i + 20], i, id)
  {
    hide CpuEntry, IsCpuEntry;
    if i == n - 1 {
      CpuEntryReads(i, id);
      assert CpuEntries(n, id)[20 * i..20 * i + 20] == CpuEntry(i, id);
    } else {
      CpuEntriesRead(n - 1, id, i);
      assert CpuEntries(n, id)[20 * i..20 * i + 20] == CpuEntries(n - 1, id)[20 * i..20 * i + 20];
    }
  }

  /** The place of an interrupt's entry: there is none for interrupt 2. */
  function Place(irq: nat): nat {
    if irq < 2 then irq else if irq == 2 then 0 else irq - 1
  }

  lemma IrqEntryReads(irq: nat, ioApic: nat)
    requires irq < 16
    ensures IrqEntry(irq, ioApic) == [3, 0, 0, 0, 0, irq, ioApic % 256, if irq == 0 then 2 else irq]
  {
  }

  lemma EndsWith<T>(a: seq<T>, b: seq<T>)
    ensures (a + b)[|a|..|a| + |b|] == b
  {
  }

  lemma StartsWith<T>(a: seq<T>, b: seq<T>, i: nat, j: nat)
    requires i <= j <= |a|
    ensures (a + b)[i..j] == a[i..j]
  {
  }

  lemma {:induction false} IrqEntriesRead(n: nat, ioApic: nat, irq: nat)
    requires irq < n <= 16 && irq != 2
    ensures 8 * Place(irq) + 8 <= |IrqEntries(n, ioApic)|
    ensures IrqEntries(n, ioApic)[8 * Place(irq)..8 * Place(irq) + 8]
         == [3, 0, 0, 0, 0, irq, ioApic % 256, if irq == 0 then 2 else irq]
  {
    hide IrqEntry;
    IrqEntryReads(irq, ioApic);
    var before := IrqEntries(n - 1, ioApic);
    if irq == n - 1 {
      EndsWith(before, IrqEntry(irq, ioApic));
    } else {
      IrqEntriesRead(n - 1, ioApic, irq);
      StartsWith(before, if n - 1 == 2 then [] else IrqEntry(n - 1, ioApic), 8 * Place(irq), 8 * Place(irq) + 8);
    }
  }

  lemma BusAndIoApicRead(ioApic: nat)
    ensures BusEntry() == [1, 0, 0x49, 0x53, 0x41, 0x20, 0x20, 0x20]
    ensures IoApicEntry(ioApic) == [2, ioApic % 256, 0x11, 1, 0, 0, 0xc0, 0xfe]
  {
  }

  lemma FourParts(c: seq<Byte>, b: seq<Byte>, a: seq<Byte>, q: seq<Byte>)
    requires |b| == |a| == 8
    ensures var e := c + b + a + q;
      && e[..|c|] == c && e[|c|..|c| + 8] == b && e[|c| + 8..|c| + 16] == a && e[|c| + 16..] == q
  {
  }

  lemma EntriesAre(cpus: nat, id: Cpuid)
    ensures Entries(cpus, id) == CpuEntries(cpus, id) + BusEntry() + IoApicEntry(cpus) + IrqEntries(16, cpus)
    ensures |CpuEntries(cpus, id)| == 20 * cpus && |IrqEntries(16, cpus)| == 120
  {
  }

  /** The entries, for any number of processors: one for each processor i, the ISA bus, the I/O
      APIC behind the last processor, and for each interrupt but 2 the input it goes to: itself,
      but input 2 for interrupt 0. */
  lemma EntriesRead(cpus: nat, id: Cpuid, i: nat, irq: nat)
    requires irq < 16 && irq != 2
    ensures var e := Entries(cpus, id);
      var bus, at := 20 * cpus, 20 * cpus + 16 + 8 * Place(irq);
      && |e| == 20 * cpus + 136 && 8 * Place(irq) + 8 <= 120
      && (i < cpus ==> 20 * i + 20 <= bus && IsCpuEntry(e[20 * i..20 * i + 20], i, id))
      && e[bus..bus + 8] == [1, 0, 0x49, 0x53, 0x41, 0x20, 0x20, 0x20]
      && e[bus + 8..bus + 16] == [2, cpus % 256, 0x11, 1, 0, 0, 0xc0, 0xfe]
      && e[at..at + 8] == [3, 0, 0, 0, 0, irq, cpus % 256, if irq == 0 then 2 else irq]
  {
    hide *;
    EntriesAre(cpus, id);
    BusAndIoApicRead(cpus);
    var c, q := CpuEntries(cpus, id), IrqEntries(16, cpus);
    FourParts(c, BusEntry(), IoApicEntry(cpus), q);
    var e := Entries(cpus, id);
    IrqEntriesRead(16, cpus, irq);
    SubSlice(e, 20 * cpus + 16, |e|, 8 * Place(irq), 8 * Place(irq) + 8);
    assert e[20 * cpus + 16..|e|] == q;
    if i < cpus {
      CpuEntriesRead(cpus, id, i);
      SubSlice(e, 0, 20 * cpus, 20 * i, 20 * i + 20);
      assert e[0..20 * cpus] == c;
    }
  }

  lemma TableParts(h: seq<Byte>, e: seq<Byte>)
    requires |h| == 44
    ensures var t := Summed(h + e);
      && |t| == 44 + |e| && t[..7] == h[..7] && t[8..44] == h[8..] && t[44..] == e
  {
    hide Sum, Negated;
  }

  /** The table is the header, whose fields are those of version 1.4 with the local APICs at
      0xfee00000, and then those entries; only the checksum is calculated. */
  lemma TableReads(cpus: nat, id: Cpuid)
    ensures var t := Table(cpus, id);
      && |t| == 20 * cpus + 180 && t[44..] == Entries(cpus, id)
      && t[..4] == [0x50, 0x43, 0x4d, 0x50] && t[6] == 4
      && t[8..16] == [0x42, 0x4f, 0x43, 0x48, 0x53, 0x43, 0x50, 0x55]
      && t[16..28] == [0x30, 0x2e, 0x31, 0x20, 0x20, 0x20, 0x20, 0x20, 0x20, 0x20, 0x20, 0x20]
      && t[28..34] == [0, 0, 0, 0, 0, 0] && t[36..44] == [0, 0, 0xe0, 0xfe, 0, 0, 0, 0]
  {
    hide *;
    var e := Entries(cpus, id);
    TableIs(cpus, id);
    WalkEntries(cpus, id);
    var h := Header(HEADER_SIZE + |e|, 0, cpus + OTHER_ENTRIES);
    HeaderReads(HEADER_SIZE + |e|, cpus + OTHER_ENTRIES);
    TableParts(h, e);
    var t := Table(cpus, id);
    HeaderSlices(t, h);
  }

  lemma HeaderSlices(t: seq<Byte>, h: seq<Byte>)
    requires |h| == 44 <= |t| && t[..7] == h[..7] && t[8..44] == h[8..]
    ensures t[..4] == h[..4] && t[6] == h[6] && t[8..16] == h[8..16] && t[16..28] == h[16..28]
    ensures t[28..34] == h[28..34] && t[36..44] == h[36..44] && h[6..8][0] == h[6]
  {
    SubSlice(t, 0, 7, 0, 4);
    SubSlice(h, 0, 7, 0, 4);
    SubSlice(t, 8, 44, 0, 8);
    SubSlice(h, 8, 44, 0, 8);
    SubSlice(t, 8, 44, 8, 20);
    SubSlice(h, 8, 44, 8, 20);
    SubSlice(t, 8, 44, 20, 26);
    SubSlice(h, 8, 44, 20, 26);
    SubSlice(t, 8, 44, 28, 36);
    SubSlice(h, 8, 44, 28, 36);
    assert t[..7][6] == h[..7][6];
    assert t[0..7] == t[..7] && h[0..7] == h[..7] && h[8..44] == h[8..];
  }

  /** The floating structure: its signature, version 1.4, and no feature bytes. */
  lemma FloatingReads(tableAddr: int)
    ensures var f := FloatingPointer(tableAddr);
      && |f| == 16 && f[..4] == [0x5f, 0x4d, 0x50, 0x5f] && f[8..10] == [1, 4] && f[11..] == [0, 0, 0, 0, 0]
  {
    hide Sum, Negated, Low;
    UnderscoreText();
  }

  lemma UnderscoreText()
    ensures Text("_MP_") == [0x5f, 0x4d, 0x50, 0x5f]
  {
  }
}
