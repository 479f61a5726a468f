/** Where each register of an enumeration comes to lie: packed upwards from the fixed start of its
    address space, in the order of the registers. */
module PciLayout {
  import opened Bits
  import opened PciPools

  /** Bit 0 of a register tells I/O from memory. */
  lemma LowBitIsParity(val: nat)
    ensures And(val, 1) == val % 2
  {
    if val != 0 {
      assert And(val / 2, 0) == 0;
    }
  }

  lemma ClassIs(p: Probe)
    ensures PoolOf(p) == if p.val % 2 == 1 then (if p.bus == 1 then AgpIo else Io) else if p.bus == 1 then AgpMem else Mem
    ensures Granule(p.val) == if p.val % 2 == 1 then 16 else 65536
  {
    LowBitIsParity(p.val);
    hide And;
  }

  /** The registers that are there, in order. */
  function Answering(probes: seq<Probe>): seq<Probe>
    decreases |probes|
  {
    if probes == [] then []
    else (if probes[0].val != 0 then [probes[0]] else []) + Answering(probes[1..])
  }

  /** The same kind of address space, on the same side of the bridge. */
  predicate Alike(a: Probe, b: Probe) {
    a.val % 2 == b.val % 2 && ((a.bus == 1) == (b.bus == 1))
  }

  function Base(p: Probe): nat {
    if p.val % 2 == 1 then (if p.bus == 1 then 0xe000 else 0xc000)
    else if p.bus == 1 then 0xd000_0000 else 0xc000_0000
  }

  /** Where the space of `p` goes on after the first `k` registers: behind the last of them that
      is alike, which takes at least 16 bytes of I/O or 64K of memory. */
  function Behind(q: seq<Probe>, regions: seq<Region>, k: nat, p: Probe): int
    requires k <= |q| == |regions|
  {
    if k == 0 then Base(p)
    else if Alike(q[k - 1], p) then
      var least := if p.val % 2 == 1 then 16 else 65536;
      regions[k - 1].addr + (if regions[k - 1].size < least then least else regions[k - 1].size)
    else Behind(q, regions, k - 1, p)
  }

  lemma {:induction false} BehindMore(q: seq<Probe>, regions: seq<Region>, k: nat, p: Probe, q': Probe, r: Region)
    requires k <= |q| == |regions|
    ensures Behind(q + [q'], regions + [r], k, p) == Behind(q, regions, k, p)
  {
    if k > 0 {
      BehindMore(q, regions, k - 1, p, q', r);
    }
  }

  /** The least multiple of the size at or behind that place, and of the right pool. */
  ghost predicate Packed(q: seq<Probe>, regions: seq<Region>, k: nat)
    requires k < |q| == |regions|
  {
    var r := regions[k];
    && r.size == SizeOf(q[k].val) && AlignedTo(r.addr, r.size)
    && Behind(q, regions, k, q[k]) <= r.addr < Behind(q, regions, k, q[k]) + r.size
    && r.pool == PoolOf(q[k])
  }

  ghost predicate AllPacked(q: seq<Probe>, regions: seq<Region>) {
    |q| == |regions| && forall k :: 0 <= k < |q| ==> Packed(q, regions, k)
  }

  /** Each pool's pointer is where its space goes on. */
  ghost predicate Pointed(q: seq<Probe>, m: Map)
    requires |q| == |m.regions|
  {
    forall p :: m.pools.Next(PoolOf(p)) == Behind(q, m.regions, |q|, p)
  }

  lemma {:induction false} PackedMore(q: seq<Probe>, regions: seq<Region>, p: Probe, r: Region)
    requires AllPacked(q, regions)
    requires r.size == SizeOf(p.val) && AlignedTo(r.addr, r.size) && r.pool == PoolOf(p)
    requires Behind(q, regions, |q|, p) <= r.addr < Behind(q, regions, |q|, p) + r.size
    ensures AllPacked(q + [p], regions + [r])
  {
    hide SizeOf, PoolOf, AlignedTo;
    var q', regions' := q + [p], regions + [r];
    forall k | 0 <= k < |q'| ensures Packed(q', regions', k) {
      BehindMore(q, regions, k, q'[k], p, r);
      assert k < |q| ==> Packed(q, regions, k) && q'[k] == q[k] && regions'[k] == regions[k];
    }
  }

  lemma AlikeIsSamePool(a: Probe, b: Probe)
    ensures Alike(a, b) <==> PoolOf(a) == PoolOf(b)
    ensures Alike(a, b) ==> Granule(a.val) == if b.val % 2 == 1 then 16 else 65536
  {
    ClassIs(a);
    ClassIs(b);
    hide PoolOf, Granule;
  }

  lemma PlaceIs(m: Map, p: Probe)
    requires p.val != 0 && PlacedWell(m.pools, p)
    ensures var r := Place(m, p).regions;
      |r| == |m.regions| + 1 && r[..|m.regions|] == m.regions
      && var last := r[|m.regions|];
      && last.size == SizeOf(p.val) && AlignedTo(last.addr, last.size) && last.pool == PoolOf(p)
      && m.pools.Next(PoolOf(p)) <= last.addr < m.pools.Next(PoolOf(p)) + last.size
      && Place(m, p).pools == m.pools.With(PoolOf(p), last.addr + Taken(p))
  {
    var next, size := m.pools.Next(PoolOf(p)), SizeOf(p.val);
    AlignUpIsLeastMultiple(next, size);
    AddFits(AlignUp(next, size), Taken(p));
    hide AlignUp, SizeOf, PoolOf, PowerOfTwo, AlignedTo, Add;
  }

  lemma PointedMore(q: seq<Probe>, m: Map, p: Probe, m': Map, r: Region)
    requires |q| == |m.regions| && Pointed(q, m) && r.size == SizeOf(p.val)
    requires m'.regions == m.regions + [r] && r.addr + Taken(p) < TWO_TO_THE_32
    requires m'.pools == m.pools.With(PoolOf(p), r.addr + Taken(p))
    ensures Pointed(q + [p], m')
  {
    hide SizeOf, PoolOf, Granule;
    forall x ensures m'.pools.Next(PoolOf(x)) == Behind(q + [p], m'.regions, |q| + 1, x) {
      AlikeIsSamePool(p, x);
      BehindMore(q, m.regions, |q|, x, p, r);
      assert m'.pools.Next(PoolOf(x)) == if PoolOf(x) == PoolOf(p) then r.addr + Taken(p) else m.pools.Next(PoolOf(x));
    }
  }

  lemma PlacesNext(q: seq<Probe>, m: Map, p: Probe)
    requires AllPacked(q, m.regions) && Pointed(q, m) && p.val != 0 && PlacedWell(m.pools, p)
    ensures AllPacked(q + [p], Place(m, p).regions) && Pointed(q + [p], Place(m, p))
  {
    hide Place, AllPacked, Pointed, SizeOf, PoolOf, AlignedTo, Behind;
    PackedLength(q, m.regions);
    PlaceIs(m, p);
    PointedIs(q, m, p);
    var m' := Place(m, p);
    var r := m'.regions[|m.regions|];
    assert m'.regions == m.regions + [r];
    PackedMore(q, m.regions, p, r);
    PointedMore(q, m, p, m', r);
  }

  lemma PackedLength(q: seq<Probe>, regions: seq<Region>)
    requires AllPacked(q, regions)
    ensures |q| == |regions|
  {
  }

  lemma PointedIs(q: seq<Probe>, m: Map, p: Probe)
    requires |q| == |m.regions| && Pointed(q, m)
    ensures m.pools.Next(PoolOf(p)) == Behind(q, m.regions, |q|, p)
  {
  }

  lemma {:induction false} PlacesAll(q: seq<Probe>, m: Map, probes: seq<Probe>)
    requires AllPacked(q, m.regions) && Pointed(q, m) && AllPlacedWell(m, probes)
    ensures AllPacked(q + Answering(probes), PlaceAll(m, probes).regions)
    ensures Pointed(q + Answering(probes), PlaceAll(m, probes))
    decreases |probes|
  {
    hide AllPacked, Pointed, PlacedWell;
    PackedLength(q, m.regions);
    if probes == [] {
      assert q + [] == q;
    } else if probes[0].val == 0 {
      PlacesAll(q, m, probes[1..]);
      assert [] + Answering(probes[1..]) == Answering(probes[1..]);
    } else {
      PlacesNext(q, m, probes[0]);
      PlacesAll(q + [probes[0]], Place(m, probes[0]), probes[1..]);
      assert q + [probes[0]] + Answering(probes[1..]) == q + ([probes[0]] + Answering(probes[1..]));
    }
  }

  lemma NothingPacked()
    ensures AllPacked([], Map(START, []).regions) && Pointed([], Map(START, []))
  {
    forall p ensures START.Next(PoolOf(p)) == Base(p) {
      ClassIs(p);
    }
  }

  /** Over every enumeration whose sizes are powers of two and whose pools have room: the k-th
      region belongs to the k-th register that does not read zero. It is the least multiple of
      its size at or behind the last region before it that is alike, or the fixed start of its
      space, and its pool is that of its space and side of the bridge. */
  lemma EnumerationIsPacked(probes: seq<Probe>, k: nat)
    requires AllPlacedWell(Map(START, []), probes) && k < |Answering(probes)|
    ensures var q := Answering(probes);
      var regions := PlaceAll(Map(START, []), probes).regions;
      && |regions| == |q|
      && var p, r := q[k], regions[k];
      && r.size == SizeOf(p.val) && AlignedTo(r.addr, r.size)
      && Behind(q, regions, k, p) <= r.addr < Behind(q, regions, k, p) + r.size
      && r.pool == if p.val % 2 == 1 then (if p.bus == 1 then AgpIo else Io) else if p.bus == 1 then AgpMem else Mem
  {
    hide PlaceAll, AllPlacedWell, SizeOf, PoolOf, Answering, Behind, Pointed;
    NothingPacked();
    PlacesAll([], Map(START, []), probes);
    assert [] + Answering(probes) == Answering(probes);
    assert Packed(Answering(probes), PlaceAll(Map(START, []), probes).regions, k);
    ClassIs(Answering(probes)[k]);
  }

  lemma {:induction false} BehindIsAbove(q: seq<Probe>, regions: seq<Region>, k: nat, p: Probe)
    requires AllPacked(q, regions) && k <= |q|
    ensures Behind(q, regions, k, p) >= Base(p)
    decreases k
  {
    hide SizeOf, PoolOf, AlignedTo;
    if k > 0 {
      assert Packed(q, regions, k - 1);
      BehindIsAbove(q, regions, k - 1, p);
      BehindIsAbove(q, regions, k - 1, q[k - 1]);
    }
  }

  /** No region lies below the start of its space. If the pools have not grown past the next
      start, I/O regions end below memory regions and the two sides of the bridge are apart, so
      that all regions of the machine are disjoint, of whatever pools. */
  lemma SpacesAreApart(probes: seq<Probe>, j: nat, k: nat)
    requires AllPlacedWell(Map(START, []), probes) && j < k < |Answering(probes)|
    requires var ends := PlaceAll(Map(START, []), probes).pools;
      ends.io <= 0xe000 && ends.agpIo <= 0xc000_0000 && ends.mem <= 0xd000_0000
    ensures var q := Answering(probes);
      var regions := PlaceAll(Map(START, []), probes).regions;
      && |regions| == |q| && Disjoint(regions[j], regions[k])
      && forall i :: i in [j, k] ==>
           var p, r := q[i], regions[i];
           if p.val % 2 == 1 then (if p.bus == 1 then 0xe000 else 0xc000) <= r.addr && r.addr + r.size <= 0xc000_0000
           else (if p.bus == 1 then 0xd000_0000 else 0xc000_0000) <= r.addr
  {
    hide PlaceAll, AllPlacedWell, SizeOf, PoolOf, Answering, Behind, AlignedTo, Pointed, Base;
    NothingPacked();
    PlacesAll([], Map(START, []), probes);
    var q := Answering(probes);
    assert [] + q == q;
    var m := PlaceAll(Map(START, []), probes);
    NothingIsSound();
    DefaultMapIsSound(Map(START, []), probes);
    RegionIsInSpace(q, m, j);
    RegionIsInSpace(q, m, k);
    assert m.regions[j].pool == m.regions[k].pool ==> Disjoint(m.regions[j], m.regions[k]);
  }

  lemma NothingIsSound()
    ensures SoundMap(Map(START, []))
  {
  }

  lemma RegionIsInSpace(q: seq<Probe>, m: Map, i: nat)
    requires AllPacked(q, m.regions) && SoundMap(m) && i < |q| == |m.regions|
    ensures var r := m.regions[i];
      var start := match r.pool case Io => 0xc000 case AgpIo => 0xe000 case Mem => 0xc000_0000 case AgpMem => 0xd000_0000;
      && start <= r.addr && r.addr + r.size <= m.pools.Next(r.pool)
      && r.pool == if q[i].val % 2 == 1 then (if q[i].bus == 1 then AgpIo else Io) else if q[i].bus == 1 then AgpMem else Mem
  {
    hide SizeOf, PoolOf, AlignedTo, Behind;
    assert Packed(q, m.regions, i) && m.regions[i] in m.regions;
    BehindIsAbove(q, m.regions, i, q[i]);
    ClassIs(q[i]);
  }

  // ---------------------------------------------------------------- which registers are probed

  lemma LowTwoBits(x: nat)
    ensures And(x, 0x03) == x % 4
  {
    LowBitIsParity(x / 2);
    assert x != 0 ==> And(x, 3) == 2 * And(x / 2, 1) + x % 2;
  }

  lemma {:induction false} ProbesFromIs(d: Device, i: nat)
    requires i <= |d.bars|
    ensures ProbesFrom(d, i) == seq(|d.bars| - i, j requires 0 <= j < |d.bars| - i => Probe(d.bus, d.bars[i + j]))
    decreases |d.bars| - i
  {
    if i < |d.bars| {
      ProbesFromIs(d, i + 1);
    }
  }

  /** A device gives all its registers, in order, if its class takes the default map and the low
      two bits of its header type are zero; devices follow each other in order. */
  lemma ProbesAre(before: seq<Device>, d: Device)
    ensures Probes(before + [d]) == Probes(before)
      + if d.defaultMap && d.headerType % 4 == 0
        then seq(|d.bars|, i requires 0 <= i < |d.bars| => Probe(d.bus, d.bars[i])) else []
  {
    hide And, ProbesFrom;
    if before == [] {
      LowTwoBits(d.headerType);
      ProbesFromIs(d, 0);
      assert [d][1..] == [] && before + [d] == [d];
    } else {
      ProbesAre(before[1..], d);
      assert (before + [d])[1..] == before[1..] + [d];
    }
  }

  lemma SizeOfIs(val: Word, m: Word)
    requires And(val, Not(0xf)) == m
    ensures SizeOf(val) == (TWO_TO_THE_32 - m) % TWO_TO_THE_32
  {
    hide And;
  }

  lemma SixteenIs()
    ensures Pow2(4) == 16
  {
  }

  /** A register that decodes fewer than 16 bytes is taken to decode 16: its low four bits are
      not looked at. */
  lemma SmallSizeIsSixteen(val: Word)
    requires val >= 0x1_0000_0000 - 16
    ensures SizeOf(val) == 16
  {
    hide And, Not, Pow2, RoundDown, SizeOf;
    SixteenIs();
    SixteenDivides(16, 1, val - (TWO_TO_THE_32 - 16));
    MaskRoundsDown(val, 4);
    SizeOfIs(val, TWO_TO_THE_32 - 16);
  }
}
