/** The default map of PCI base address registers: four pools of address space, each handed
    out upwards with every region aligned to its size. */
module PciPools {
  import opened Bits

  datatype Pool = Io | AgpIo | Mem | AgpMem

  datatype Pools = Pools(io: Word, agpIo: Word, mem: Word, agpMem: Word) {
    function Next(p: Pool): Word {
      match p
      case Io => io
      case AgpIo => agpIo
      case Mem => mem
      case AgpMem => agpMem
    }

    function With(p: Pool, next: Word): Pools {
      match p
      case Io => this.(io := next)
      case AgpIo => this.(agpIo := next)
      case Mem => this.(mem := next)
      case AgpMem => this.(agpMem := next)
    }
  }

  const START: Pools := Pools(0xc000, 0xe000, 0xc000_0000, 0xd000_0000)

  datatype Region = Region(pool: Pool, addr: Word, size: Word)

  /** A base address register of a device on a bus, and what it reads back after ones were
      written to it. */
  datatype Probe = Probe(bus: nat, val: Word)

  predicate IsIo(val: Word) {
    And(val, 1) != 0
  }

  /** The size a register decodes: the complement of its address bits, plus one. */
  function SizeOf(val: Word): Word {
    Add(Not(And(val, Not(0xf))), 1)
  }

  function PoolOf(p: Probe): Pool {
    if IsIo(p.val) then (if p.bus == 1 then AgpIo else Io)
    else if p.bus == 1 then AgpMem else Mem
  }

  /** The least a region takes out of its pool. */
  function Granule(val: Word): Word {
    if IsIo(val) then 0x10 else 0x1_0000
  }

  function AlignUp(p: Word, size: Word): Word {
    And(Add(p, size - 1), Not(Add(size, -1)))
  }

  function Taken(p: Probe): Word {
    if SizeOf(p.val) < Granule(p.val) then Granule(p.val) else SizeOf(p.val)
  }

  /** The pool pointers and the regions handed out so far. */
  datatype Map = Map(pools: Pools, regions: seq<Region>)

  /** A register is given the next aligned addresses of its pool; one that reads back zero
      is not there. */
  function Place(m: Map, p: Probe): Map {
    if p.val == 0 then m
    else
      var pool, size := PoolOf(p), SizeOf(p.val);
      var addr := AlignUp(m.pools.Next(pool), size);
      Map(m.pools.With(pool, Add(addr, Taken(p))), m.regions + [Region(pool, addr, size)])
  }

  function PlaceAll(m: Map, probes: seq<Probe>): Map
    decreases |probes|
  {
    if probes == [] then m else PlaceAll(Place(m, probes[0]), probes[1..])
  }

  // ---------------------------------------------------------------- alignment and disjointness

  ghost predicate PowerOfTwo(size: Word) {
    exists k: nat :: k < 32 && size == Pow2(k)
  }

  /** The pool has room: neither rounding its pointer up nor moving it past the region goes
      beyond 32 bits. */
  predicate Fits(next: Word, size: Word, taken: Word) {
    next + (size - 1) < TWO_TO_THE_32 && AlignUp(next, size) + taken < TWO_TO_THE_32
  }

  ghost predicate PlacedWell(pools: Pools, p: Probe) {
    p.val != 0 ==>
      PowerOfTwo(SizeOf(p.val)) && Fits(pools.Next(PoolOf(p)), SizeOf(p.val), Taken(p))
  }

  /** Every decoded size is a power of two and no pool overflows in the enumeration. */
  ghost predicate AllPlacedWell(m: Map, probes: seq<Probe>)
    decreases |probes|
  {
    probes == [] || (PlacedWell(m.pools, probes[0]) && AllPlacedWell(Place(m, probes[0]), probes[1..]))
  }

  predicate AlignedTo(addr: int, size: int) {
    size > 0 && addr % size == 0
  }

  lemma AddFits(x: int, y: int)
    requires 0 <= x + y < TWO_TO_THE_32
    ensures Add(x, y) == x + y
  {
  }

  lemma AlignUpRounds(p: Word, size: Word, k: nat)
    requires k < 32 && size == Pow2(k) && p + (size - 1) < TWO_TO_THE_32
    ensures AlignUp(p, size) == RoundDown(p + (size - 1), k)
  {
    AddFits(p, size - 1);
    AddFits(size, -1);
    MaskRoundsDown(p + (size - 1), k);
    hide Add, And, Not, RoundDown, Pow2;
  }

  /** Rounding up by masking gives the least multiple of the size that is not below. */
  lemma AlignUpIsLeastMultiple(p: Word, size: Word)
    requires PowerOfTwo(size) && p + (size - 1) < TWO_TO_THE_32
    ensures AlignedTo(AlignUp(p, size), size)
    ensures p <= AlignUp(p, size) < p + size
  {
    var k: nat :| k < 32 && size == Pow2(k);
    AlignUpRounds(p, size, k);
    RoundsDown(p + (size - 1), k);
    hide AlignUp, RoundDown, AlignedTo;
  }

  lemma RoundsDown(x: nat, k: nat)
    ensures AlignedTo(RoundDown(x, k), Pow2(k)) && RoundDown(x, k) <= x < RoundDown(x, k) + Pow2(k)
  {
    var d := Pow2(k);
    RemainderIs(x - x % d, d, x / d, 0);
  }

  /** One region ends before the other begins. */
  predicate Disjoint(a: Region, b: Region) {
    a.addr + a.size <= b.addr || b.addr + b.size <= a.addr
  }

  ghost predicate Sound(regions: seq<Region>) {
    && (forall r :: r in regions ==> AlignedTo(r.addr, r.size) && r.addr + r.size <= TWO_TO_THE_32)
    && (forall i, j :: 0 <= i < j < |regions| && regions[i].pool == regions[j].pool ==>
          Disjoint(regions[i], regions[j]))
  }

  /** Besides, every region lies below its pool's pointer. */
  ghost predicate SoundMap(m: Map) {
    Sound(m.regions) && forall r :: r in m.regions ==> r.addr + r.size <= m.pools.Next(r.pool)
  }

  lemma PlaceIsSound(m: Map, p: Probe)
    requires SoundMap(m) && PlacedWell(m.pools, p)
    ensures SoundMap(Place(m, p))
  {
    if p.val != 0 {
      var next, size := m.pools.Next(PoolOf(p)), SizeOf(p.val);
      AlignUpIsLeastMultiple(next, size);
      AddFits(AlignUp(next, size), Taken(p));
      hide AlignUp, SizeOf, IsIo, Pow2, AlignedTo, Add;
      var m' := Place(m, p);
      var r := m'.regions[|m.regions|];
      assert m'.pools.Next(r.pool) == r.addr + Taken(p) && next <= r.addr;
      assert forall q :: q != r.pool ==> m'.pools.Next(q) == m.pools.Next(q);
      assert forall i :: 0 <= i < |m.regions| ==> m'.regions[i] == m.regions[i] && m.regions[i] in m.regions;
    }
  }

  /** Over any enumeration of registers whose sizes are powers of two and whose pools have
      room, every region handed out is aligned to its size and disjoint from every other
      region of its pool. */
  lemma {:induction false} DefaultMapIsSound(m: Map, probes: seq<Probe>)
    requires SoundMap(m) && AllPlacedWell(m, probes)
    ensures SoundMap(PlaceAll(m, probes))
    decreases |probes|
  {
    hide Place, PlacedWell, SoundMap;
    if probes != [] {
      PlaceIsSound(m, probes[0]);
      DefaultMapIsSound(Place(m, probes[0]), probes[1..]);
    }
  }

  /** A register that decodes 2^k bytes keeps its low k bits zero but for up to four flag
      bits, and the size read off it is 2^k. */
  lemma SizeIsDecoded(k: nat, flags: nat, val: Word)
    requires 4 <= k < 32 && flags < 16 && val == TWO_TO_THE_32 - Pow2(k) + flags
    ensures SizeOf(val) == Pow2(k)
  {
    Pow2Bound(k);
    Pow2Sum(4, k - 4);
    assert Pow2(4) == 16;
    SixteenDivides(Pow2(k), Pow2(k - 4), flags);
    MaskRoundsDown(val, 4);
    hide Pow2, And, RoundDown;
  }

  lemma SixteenDivides(size: nat, q: nat, flags: nat)
    requires size == 16 * q && 0 < size < TWO_TO_THE_32 && flags < 16
    ensures RoundDown(TWO_TO_THE_32 - size + flags, 4) == TWO_TO_THE_32 - size
  {
    assert Pow2(4) == 16;
    hide Pow2;
  }

  // ---------------------------------------------------------------- the allocator

  /** A device on a bus: its header type, whether its class takes the default map, and what
      its registers read back. */
  datatype Device = Device(bus: nat, headerType: nat, defaultMap: bool, bars: seq<Word>)

  predicate Mapped(d: Device) {
    d.defaultMap && And(d.headerType, 0x03) == 0
  }

  function ProbesFrom(d: Device, i: nat): seq<Probe>
    requires i <= |d.bars|
    decreases |d.bars| - i
  {
    if i == |d.bars| then [] else [Probe(d.bus, d.bars[i])] + ProbesFrom(d, i + 1)
  }

  function Probes(devices: seq<Device>): seq<Probe>
    decreases |devices|
  {
    if devices == [] then []
    else (if Mapped(devices[0]) then ProbesFrom(devices[0], 0) else []) + Probes(devices[1..])
  }

  lemma {:induction false} PlaceAllAppends(m: Map, a: seq<Probe>, b: seq<Probe>)
    ensures PlaceAll(m, a + b) == PlaceAll(PlaceAll(m, a), b)
    decreases |a|
  {
    hide Place;
    if a == [] {
      assert a + b == b;
    } else {
      assert (a + b)[0] == a[0] && (a + b)[1..] == a[1..] + b;
      PlaceAllAppends(Place(m, a[0]), a[1..], b);
    }
  }

  class PciBios {
    var pciBiosIoAddr: Word
    var pciBiosAgpIoAddr: Word
    var pciBiosMemAddr: Word
    var pciBiosAgpMemAddr: Word
    var regions: seq<Region>

    ghost function View(): Map
      reads this
    {
      Map(Pools(pciBiosIoAddr, pciBiosAgpIoAddr, pciBiosMemAddr, pciBiosAgpMemAddr), regions)
    }

    constructor ()
      ensures View() == Map(START, [])
    {
      pciBiosIoAddr := 0xc000;
      pciBiosAgpIoAddr := 0xe000;
      pciBiosMemAddr := 0xc000_0000;
      pciBiosAgpMemAddr := 0xd000_0000;
      regions := [];
    }

    /** One register of the default map. */
    method MapRegister(bus: nat, val: Word)
      modifies this
      ensures View() == Place(old(View()), Probe(bus, val))
    {
      if val == 0 {
        return;
      }
      var size := SizeOf(val);
      var align := if IsIo(val) then 0x10 else 0x1_0000;
      var taken := if size < align then align else size;
      var addr: Word;
      hide SizeOf, AlignUp, IsIo, Add;
      if IsIo(val) {
        if bus == 1 {
          addr := AlignUp(pciBiosAgpIoAddr, size);
          pciBiosAgpIoAddr := Add(addr, taken);
          regions := regions + [Region(AgpIo, addr, size)];
        } else {
          addr := AlignUp(pciBiosIoAddr, size);
          pciBiosIoAddr := Add(addr, taken);
          regions := regions + [Region(Io, addr, size)];
        }
      } else {
        if bus == 1 {
          addr := AlignUp(pciBiosAgpMemAddr, size);
          pciBiosAgpMemAddr := Add(addr, taken);
          regions := regions + [Region(AgpMem, addr, size)];
        } else {
          addr := AlignUp(pciBiosMemAddr, size);
          pciBiosMemAddr := Add(addr, taken);
          regions := regions + [Region(Mem, addr, size)];
        }
      }
    }

    method InitDevice(d: Device)
      modifies this
      ensures View() == PlaceAll(old(View()), if Mapped(d) then ProbesFrom(d, 0) else [])
    {
      if !d.defaultMap || And(d.headerType, 0x03) != 0 {
        return;
      }
      hide Place;
      var i := 0;
      while i < |d.bars|
        invariant 0 <= i <= |d.bars|
        invariant PlaceAll(View(), ProbesFrom(d, i)) == PlaceAll(old(View()), ProbesFrom(d, 0))
      {
        MapRegister(d.bus, d.bars[i]);
        i := i + 1;
      }
    }

    /** Maps the devices of an enumeration in order. */
    method InitDevices(devices: seq<Device>)
      modifies this
      ensures View() == PlaceAll(old(View()), Probes(devices))
    {
      hide Place, Mapped;
      var i := 0;
      while i < |devices|
        invariant 0 <= i <= |devices|
        invariant PlaceAll(View(), Probes(devices[i..])) == PlaceAll(old(View()), Probes(devices))
      {
        assert devices[i..][0] == devices[i] && devices[i..][1..] == devices[i + 1..];
        PlaceAllAppends(View(), if Mapped(devices[i]) then ProbesFrom(devices[i], 0) else [], Probes(devices[i + 1..]));
        InitDevice(devices[i]);
        i := i + 1;
      }
    }
  }
}
