/** Copying option ROMs into shadow memory, 16K block by 16K block, under the host bridge's
    access fields. */
module PciRom {

  type Byte = bv8

  const ROM_AREA: nat := 0xc_0000
  const ROM_LIMIT: nat := 0xe_0000
  const BLOCK: nat := 0x4000
  const FIRST_FIELD: nat := 0x5a

  const WRITE_ONLY: Byte := 2
  const READ_ONLY: Byte := 1

  // ---------------------------------------------------------------- the access fields

  /** The number of the 16K block an address lies in, counted from the start of the area. */
  function BlockOf(addr: nat): nat
    requires addr >= ROM_AREA
  {
    (addr - ROM_AREA) / BLOCK
  }

  predicate AtBoundary(addr: nat) {
    addr % BLOCK == 0
  }

  /** The register holding the field of an address, and whether it is the upper half. */
  function RegisterOf(addr: nat): nat {
    FIRST_FIELD + (addr / 0x8000) % 8
  }

  predicate Upper(addr: nat) {
    (addr / BLOCK) % 2 == 1
  }

  function PutLower(v: Byte, bits: Byte): Byte {
    (v & 0xfc) | bits
  }

  function PutUpper(v: Byte, bits: Byte): Byte {
    (v & 0xcf) | (bits << 4)
  }

  type Config = c: seq<Byte> | |c| == 256 witness seq(256, _ => 0)

  function Field(c: Config, k: nat): Byte
    requires k <= 8
  {
    if k % 2 == 0 then c[FIRST_FIELD + k / 2] & 3 else (c[FIRST_FIELD + k / 2] >> 4) & 3
  }

  /** The fields are two bits wide and stand in the low and the high half of the bytes from 0x5a
      on. */
  lemma FieldIs(c: Config, k: nat)
    requires k <= 8
    ensures Field(c, k) as int == (if k % 2 == 0 then c[0x5a + k / 2] as int else (c[0x5a + k / 2] as int) / 16) % 4
  {
    LowBits(c[0x5a + k / 2]);
    HighBits(c[0x5a + k / 2]);
  }

  lemma LowBits(v: Byte)
    ensures (v & 3) as int == (v as int) % 4
  {
  }

  lemma UpperHalf(v: Byte)
    ensures (v >> 4) as int == (v as int) / 16
  {
  }

  lemma HighBits(v: Byte)
    ensures ((v >> 4) & 3) as int == (v as int) / 16 % 4
  {
    UpperHalf(v);
    LowBits(v >> 4);
  }

  function Put(v: Byte, k: nat, bits: Byte): Byte {
    if k % 2 == 0 then PutLower(v, bits) else PutUpper(v, bits)
  }

  function SetField(c: Config, k: nat, bits: Byte): Config
    requires k <= 8
  {
    c[FIRST_FIELD + k / 2 := Put(c[FIRST_FIELD + k / 2], k, bits)]
  }

  /** The fields of the blocks from lo up to but excluding hi set to read-only. */
  function Locked(c: Config, lo: nat, hi: nat): Config
    requires hi <= 9
    decreases hi
  {
    if lo >= hi then c else SetField(Locked(c, lo, hi - 1), hi - 1, READ_ONLY)
  }

  lemma PutSets(v: Byte, bits: Byte)
    requires bits <= 3
    ensures PutLower(v, bits) & 3 == bits && (PutUpper(v, bits) >> 4) & 3 == bits
    ensures (PutLower(v, bits) >> 4) & 3 == (v >> 4) & 3 && PutUpper(v, bits) & 3 == v & 3
    ensures PutLower(v, bits) & 0xcc == v & 0xcc && PutUpper(v, bits) & 0xcc == v & 0xcc
  {
  }

  lemma PutTwice(v: Byte, k: nat, a: Byte, b: Byte)
    requires a <= 3 && b <= 3
    ensures Put(Put(v, k, a), k, b) == Put(v, k, b)
  {
  }

  lemma SetFieldAt(c: Config, k: nat, bits: Byte, j: nat)
    requires k <= 8 && j <= 8 && bits <= 3
    ensures Field(SetField(c, k, bits), j) == if j == k then bits else Field(c, j)
  {
    PutSets(c[FIRST_FIELD + k / 2], bits);
    hide PutLower, PutUpper;
    assert j / 2 == k / 2 && j % 2 == k % 2 ==> j == k;
  }

  lemma {:induction false} LockedField(c: Config, lo: nat, hi: nat, j: nat)
    requires hi <= 9 && j <= 8
    ensures Field(Locked(c, lo, hi), j) == if lo <= j < hi then READ_ONLY else Field(c, j)
    decreases hi
  {
    hide Field, SetField;
    if lo < hi {
      LockedField(c, lo, hi - 1, j);
      SetFieldAt(Locked(c, lo, hi - 1), hi - 1, READ_ONLY, j);
    }
  }

  lemma SetFieldBits(c: Config, k: nat, bits: Byte, r: nat)
    requires k <= 8 && bits <= 3 && r < 256
    ensures SetField(c, k, bits)[r] & 0xcc == c[r] & 0xcc
    ensures !(FIRST_FIELD <= r <= FIRST_FIELD + 4) ==> SetField(c, k, bits)[r] == c[r]
  {
    PutSets(c[FIRST_FIELD + k / 2], bits);
    hide PutLower, PutUpper;
  }

  lemma {:induction false} LockedBits(c: Config, lo: nat, hi: nat, r: nat)
    requires hi <= 9 && r < 256
    ensures Locked(c, lo, hi)[r] & 0xcc == c[r] & 0xcc
    ensures !(FIRST_FIELD <= r <= FIRST_FIELD + 4) ==> Locked(c, lo, hi)[r] == c[r]
    decreases hi
  {
    hide SetField;
    if lo < hi {
      LockedBits(c, lo, hi - 1, r);
      SetFieldBits(Locked(c, lo, hi - 1), hi - 1, READ_ONLY, r);
    }
  }

  /** Locking touches exactly the fields of its blocks: every other field, and every other
      bit of the configuration space, stays. */
  lemma LockedAt(c: Config, lo: nat, hi: nat, j: nat, r: nat)
    requires hi <= 9 && j <= 8 && r < 256
    ensures Field(Locked(c, lo, hi), j) == if lo <= j < hi then READ_ONLY else Field(c, j)
    ensures Locked(c, lo, hi)[r] & 0xcc == c[r] & 0xcc
    ensures !(FIRST_FIELD <= r <= FIRST_FIELD + 4) ==> Locked(c, lo, hi)[r] == c[r]
  {
    hide Field, Locked;
    LockedField(c, lo, hi, j);
    LockedBits(c, lo, hi, r);
  }

  lemma RegisterIsField(addr: nat)
    requires ROM_AREA <= addr <= ROM_LIMIT
    ensures BlockOf(addr) <= 8
    ensures RegisterOf(addr) == FIRST_FIELD + BlockOf(addr) / 2
    ensures Upper(addr) == (BlockOf(addr) % 2 == 1)
  {
    var k := BlockOf(addr);
    assert addr / BLOCK == 0x30 + k;
    assert addr / 0x8000 == (addr / BLOCK) / 2;
  }

  // ---------------------------------------------------------------- the copier

  /** The size a ROM declares in units of 512 bytes, rounded up to 2K. */
  function RomSize(units: nat): nat {
    (if units % 4 != 0 then units - units % 4 + 4 else units) * 512
  }

  /** That is the least multiple of 2K that holds all the bytes declared. */
  lemma RomSizeIs(units: nat)
    ensures RomSize(units) % 2048 == 0 && 512 * units <= RomSize(units) < 512 * units + 2048
  {
  }

  /** The shadow area with the first n bytes of a ROM copied to `start`. */
  ghost predicate CopiedTo(was: seq<Byte>, now: seq<Byte>, source: nat -> Byte, start: nat, n: nat) {
    && |now| == |was|
    && forall a :: 0 <= a < |was| ==>
         now[a] == if start <= ROM_AREA + a < start + n then source(ROM_AREA + a - start) else was[a]
  }

  /** The n bytes at `addr` are those of the ROM from `from` on. */
  ghost predicate ChunkCopied(was: seq<Byte>, now: seq<Byte>, source: nat -> Byte, addr: nat, from: nat, n: nat) {
    && |now| == |was|
    && forall a :: 0 <= a < |was| ==>
         now[a] == if addr <= ROM_AREA + a < addr + n then source(from + ROM_AREA + a - addr) else was[a]
  }

  lemma ChunkExtends(was: seq<Byte>, mid: seq<Byte>, now: seq<Byte>, source: nat -> Byte, start: nat, copied: nat, n: nat)
    requires CopiedTo(was, mid, source, start, copied)
    requires ChunkCopied(mid, now, source, start + copied, copied, n)
    ensures CopiedTo(was, now, source, start, copied + n)
  {
  }

  lemma NothingCopied(was: seq<Byte>, source: nat -> Byte, start: nat)
    ensures CopiedTo(was, was, source, start, 0)
  {
  }

  /** One past the last block a copy touches; even an empty copy touches one. */
  function BlocksEnd(start: nat, n: nat): nat
    requires start >= ROM_AREA
  {
    if n == 0 then BlockOf(start) + 1 else BlockOf(start + n - 1) + 1
  }

  class ShadowMemory {
    const shadow: array<Byte>  // the bytes from ROM_AREA up to ROM_LIMIT
    const config: array<Byte>  // the host bridge's configuration space
    var romStart: nat

    ghost predicate Valid()
      reads this
    {
      && shadow.Length == ROM_LIMIT - ROM_AREA && config.Length == 256 && shadow != config
      && ROM_AREA <= romStart <= ROM_LIMIT
    }

    constructor ()
      ensures Valid() && fresh(shadow) && fresh(config) && romStart == 0xc_0000
    {
      shadow := new Byte[ROM_LIMIT - ROM_AREA](_ => 0);
      config := new Byte[256](_ => 0);
      romStart := ROM_AREA;
    }

    method SetAccess(addr: nat, bits: Byte)
      requires Valid() && ROM_AREA <= addr <= ROM_LIMIT
      modifies config
      ensures config[..] == SetField(old(config[..]), BlockOf(addr), bits)
    {
      RegisterIsField(addr);
      var reg := RegisterOf(addr);
      hide PutLower, PutUpper;
      config[reg] := if Upper(addr) then PutUpper(config[reg], bits) else PutLower(config[reg], bits);
    }

    /** `memcpy` into an area that is open for writing. */
    method CopyBytes(addr: nat, source: nat -> Byte, from: nat, n: nat)
      requires Valid() && ROM_AREA <= addr && addr + n <= ROM_LIMIT
      requires n > 0 ==> BlockOf(addr) == BlockOf(addr + n - 1) && Field(config[..], BlockOf(addr)) == 2
      modifies shadow
      ensures ChunkCopied(old(shadow[..]), shadow[..], source, addr, from, n)
    {
      var k := 0;
      while k < n
        invariant k <= n
        invariant forall a :: 0 <= a < shadow.Length ==>
          shadow[a] == if addr <= ROM_AREA + a < addr + k then source(from + ROM_AREA + a - addr) else old(shadow[a])
      {
        shadow[addr - ROM_AREA + k] := source(from + k);
        k := k + 1;
      }
    }

    /** One turn of the loop: the rest of the block, or of the ROM, is copied while the block
        is open for writing, and then the block is locked. */
    method CopyChunk(tmpaddr: nat, source: nat -> Byte, copied: nat, size: nat) returns (tmpsize: nat)
      requires Valid() && ROM_AREA <= tmpaddr && copied <= size && tmpaddr + (size - copied) <= ROM_LIMIT
      modifies shadow, config
      ensures tmpsize <= size - copied && (copied < size ==> tmpsize > 0)
      ensures tmpsize > 0 ==> BlockOf(tmpaddr + tmpsize - 1) == BlockOf(tmpaddr)
      ensures tmpsize < size - copied ==> AtBoundary(tmpaddr + tmpsize)
      ensures ChunkCopied(old(shadow[..]), shadow[..], source, tmpaddr, copied, tmpsize)
      ensures config[..] == SetField(old(config[..]), BlockOf(tmpaddr), READ_ONLY)
    {
      tmpsize := BLOCK - tmpaddr % BLOCK;
      if size - copied < tmpsize {
        tmpsize := size - copied;
      }
      ghost var was := config[..];
      ghost var k := BlockOf(tmpaddr);
      RegisterIsField(tmpaddr);
      SetAccess(tmpaddr, WRITE_ONLY);
      SetFieldAt(was, k, WRITE_ONLY, k);
      ChunkInBlock(tmpaddr, tmpsize);
      CopyBytes(tmpaddr, source, copied, tmpsize);
      SetAccess(tmpaddr, READ_ONLY);
      PutTwice(was[FIRST_FIELD + k / 2], k, WRITE_ONLY, READ_ONLY);
      assert config[..] == SetField(was, k, READ_ONLY);
    }

    /** What holds of the memory and the fields after `copied` bytes of a ROM. */
    ghost predicate Progress(was: seq<Byte>, fields: Config, source: nat -> Byte, start: nat, copied: nat)
      requires Valid() && ROM_AREA <= start && start + copied <= ROM_LIMIT
      reads this, shadow, config
    {
      BlocksEndBound(start, copied);
      && CopiedTo(was, shadow[..], source, start, copied)
      && config[..] == Locked(fields, BlockOf(start), BlocksEnd(start, copied))
    }

    method FirstChunk(start: nat, source: nat -> Byte, size: nat) returns (copied: nat)
      requires Valid() && ROM_AREA <= start && start + size <= ROM_LIMIT
      modifies shadow, config
      ensures Valid() && copied <= size && (copied == 0 ==> size == 0)
      ensures copied < size ==> AtBoundary(start + copied)
      ensures Progress(old(shadow[..]), old(config[..]), source, start, copied)
    {
      ghost var was, fields := shadow[..], config[..];
      NothingCopied(was, source, start);
      copied := CopyChunk(start, source, 0, size);
      ChunkExtends(was, was, shadow[..], source, start, 0, copied);
      LockedOne(fields, BlockOf(start));
      FirstBlocks(start, copied);
      hide CopiedTo, ChunkCopied, Locked, SetField, BlockOf, BlocksEnd, AtBoundary;
    }

    method NextChunk(start: nat, tmpaddr: nat, source: nat -> Byte, copied: nat, size: nat,
                     ghost was: seq<Byte>, ghost fields: Config)
      returns (tmpsize: nat)
      requires Valid() && ROM_AREA <= start && start + size <= ROM_LIMIT
      requires 0 < copied < size && tmpaddr == start + copied && AtBoundary(tmpaddr)
      requires Progress(was, fields, source, start, copied)
      modifies shadow, config
      ensures Valid() && 0 < tmpsize <= size - copied
      ensures copied + tmpsize < size ==> AtBoundary(tmpaddr + tmpsize)
      ensures Progress(was, fields, source, start, copied + tmpsize)
    {
      hide CopiedTo, ChunkCopied, Locked, SetField, BlockOf, BlocksEnd, AtBoundary;
      ghost var mid, k := shadow[..], BlocksEnd(start, copied);
      BlocksEndBound(start, copied);
      tmpsize := CopyChunk(tmpaddr, source, copied, size);
      ChunkExtends(was, mid, shadow[..], source, start, copied, tmpsize);
      NextBlock(start, copied, tmpsize);
      RegisterIsField(tmpaddr);
      LockedMore(fields, BlockOf(start), k);
    }

    /** The copy loop, which runs at least once. */
    method CopyRom(start: nat, source: nat -> Byte, size: nat)
      requires Valid() && ROM_AREA <= start && start + size <= ROM_LIMIT
      modifies shadow, config
      ensures Valid() && Progress(old(shadow[..]), old(config[..]), source, start, size)
    {
      ghost var was, fields := shadow[..], config[..];
      hide *;
      var copied := FirstChunk(start, source, size);
      var tmpaddr := start + copied;
      while copied < size
        invariant Valid() && copied <= size && tmpaddr == start + copied && (copied == 0 ==> size == 0)
        invariant copied < size ==> AtBoundary(tmpaddr)
        invariant Progress(was, fields, source, start, copied)
      {
        var tmpsize := NextChunk(start, tmpaddr, source, copied, size, was, fields);
        copied := copied + tmpsize;
        tmpaddr := tmpaddr + tmpsize;
      }
    }

    /** Copies a ROM that is there and still fits; `source` is memory as seen from its address. */
    method InitPcirom(present: bool, source: nat -> Byte) returns (copiedRom: bool)
      requires Valid()
      modifies this`romStart, shadow, config
      ensures Valid()
      ensures copiedRom <==> present && old(romStart) + RomSize(source(2) as int) <= ROM_LIMIT
      ensures !copiedRom ==> romStart == old(romStart) && shadow[..] == old(shadow[..]) && config[..] == old(config[..])
      ensures copiedRom ==> var start, size := old(romStart), RomSize(source(2) as int);
        && romStart == start + size && BlocksEnd(start, size) <= 9
        && CopiedTo(old(shadow[..]), shadow[..], source, start, size)
        && config[..] == Locked(old(config[..]), BlockOf(start), BlocksEnd(start, size))
    {
      if !present {
        return false;
      }
      var size := RomSize(source(2) as int);
      if romStart + size > ROM_LIMIT {
        return false;
      }
      CopyRom(romStart, source, size);
      romStart := romStart + size;
      copiedRom := true;
    }

    /** What holds after the ROMs of some of the devices have been copied. */
    ghost predicate Copied(was: seq<Byte>, fields: Config, placed: seq<Placement>)
      requires Valid()
      reads this, shadow, config
    {
      BelowLimits(placed);
      && AllBelow(placed, romStart) && Laid(was, shadow[..], placed)
      && config[..] == LockedAll(fields, placed)
    }

    /** One device of the enumeration. */
    method PlaceRom(present: bool, source: nat -> Byte, ghost was: seq<Byte>, ghost fields: Config,
                    placed: seq<Placement>)
      returns (now: seq<Placement>)
      requires Valid() && Copied(was, fields, placed)
      modifies this`romStart, shadow, config
      ensures Valid() && Copied(was, fields, now) && now == placed + Placed(present, source, old(romStart))
      ensures romStart == StartAfter(present, source, old(romStart))
    {
      hide *;
      ghost var mid, c := shadow[..], config[..];
      var start := romStart;
      PlacedIs(present, source, start);
      CopiedIs(was, fields, placed);
      StartInside();
      var copiedRom := InitPcirom(present, source);
      StartInside();
      now := placed;
      if copiedRom {
        var p := Placement(start, romStart - start, source);
        now := placed + [p];
        PlaceMore(was, mid, shadow[..], fields, c, config[..], placed, p);
      } else {
        assert placed + [] == placed;
      }
      FromParts(was, fields, now);
    }

    lemma StartInside()
      requires Valid()
      ensures ROM_AREA <= romStart <= ROM_LIMIT
    {
    }

    lemma FromParts(was: seq<Byte>, fields: Config, placed: seq<Placement>)
      requires Valid() && AllBelow(placed, romStart) && Laid(was, shadow[..], placed)
      requires AllBelow(placed, ROM_LIMIT) && config[..] == LockedAll(fields, placed)
      ensures Copied(was, fields, placed)
    {
    }

    /** Copies the ROMs of an enumeration one after the other: exactly those that are there and
        still fit, in order. At the end each of them is whole, no other byte of the area has
        changed, and the access fields are those of `LockedAll`. */
    method InitRoms(roms: seq<(bool, nat -> Byte)>) returns (placed: seq<Placement>)
      requires Valid()
      modifies this`romStart, shadow, config
      ensures Valid()
      ensures placed == Placements(roms, 0, old(romStart))
      ensures AllBelow(placed, ROM_LIMIT) && Laid(old(shadow[..]), shadow[..], placed)
      ensures config[..] == LockedAll(old(config[..]), placed)
      ensures romStart == RomStart(roms, |roms|, old(romStart))
      ensures EveryRomIsWhole(roms, old(romStart), shadow[..])
      ensures NothingElseChanged(roms, old(romStart), old(shadow[..]), shadow[..])
    {
      hide *;
      StartsCopied(roms);
      ghost var was, fields, first := shadow[..], config[..], romStart;
      placed := [];
      var k := 0;
      while k < |roms|
        invariant k <= |roms| && Valid() && Copied(was, fields, placed)
        invariant placed + Placements(roms, k, romStart) == Placements(roms, 0, first)
        invariant romStart == RomStart(roms, k, first)
      {
        RomStartMore(roms, k, first);
        PlacementsMore(roms, k, romStart, placed);
        placed := PlaceRom(roms[k].0, roms[k].1, was, fields, placed);
        k := k + 1;
      }
      NoMorePlacements(roms, romStart, placed);
      CopiedIs(was, fields, placed);
      LaidIsWhole(roms, first, was, shadow[..]);
    }

    lemma StartsCopied(roms: seq<(bool, nat -> Byte)>)
      requires Valid()
      ensures config.Length == 256 && Copied(shadow[..], config[..], [])
      ensures RomStart(roms, 0, romStart) == romStart && [] + Placements(roms, 0, romStart) == Placements(roms, 0, romStart)
    {
      NothingLaid(shadow[..]);
    }

    lemma CopiedIs(was: seq<Byte>, fields: Config, placed: seq<Placement>)
      requires Valid() && Copied(was, fields, placed)
      ensures AllBelow(placed, ROM_LIMIT) && AllBelow(placed, romStart)
      ensures Laid(was, shadow[..], placed) && config[..] == LockedAll(fields, placed)
    {
      BelowLimits(placed);
    }
  }

  lemma NoMorePlacements(roms: seq<(bool, nat -> Byte)>, start: nat, placed: seq<Placement>)
    ensures placed + Placements(roms, |roms|, start) == placed
  {
  }

  lemma BelowLimits(placed: seq<Placement>)
    ensures forall limit: nat :: limit <= ROM_LIMIT && AllBelow(placed, limit) ==> AllBelow(placed, ROM_LIMIT)
  {
  }

  datatype Placement = Placement(start: nat, size: nat, source: nat -> Byte)

  predicate RomFits(present: bool, source: nat -> Byte, start: nat) {
    present && start + RomSize(source(2) as int) <= ROM_LIMIT
  }

  function Placed(present: bool, source: nat -> Byte, start: nat): seq<Placement> {
    if RomFits(present, source, start) then [Placement(start, RomSize(source(2) as int), source)] else []
  }

  function StartAfter(present: bool, source: nat -> Byte, start: nat): nat {
    if RomFits(present, source, start) then start + RomSize(source(2) as int) else start
  }

  /** Where the ROMs from the k-th on go: each that is there and still fits comes right behind
      the one before. */
  function Placements(roms: seq<(bool, nat -> Byte)>, k: nat, start: nat): seq<Placement>
    requires k <= |roms|
    decreases |roms| - k
  {
    if k == |roms| then []
    else
      var (present, source) := roms[k];
      Placed(present, source, start) + Placements(roms, k + 1, StartAfter(present, source, start))
  }

  /** The bytes a ROM declares, rounded up to 2K. */
  function RomBytes(rom: (bool, nat -> Byte)): nat {
    (512 * (rom.1(2) as int) + 2047) / 2048 * 2048
  }

  /** Where the k-th ROM goes if it is there and fits: right behind those before it that were. */
  function RomStart(roms: seq<(bool, nat -> Byte)>, k: nat, start: nat): nat
    requires k <= |roms|
  {
    if k == 0 then start
    else
      var s := RomStart(roms, k - 1, start);
      if roms[k - 1].0 && s + RomBytes(roms[k - 1]) <= 0xe_0000 then s + RomBytes(roms[k - 1]) else s
  }

  predicate IsTaken(roms: seq<(bool, nat -> Byte)>, k: nat, start: nat)
    requires k < |roms|
  {
    roms[k].0 && RomStart(roms, k, start) + RomBytes(roms[k]) <= 0xe_0000
  }

  /** Every byte that a ROM declares is in its place, for all ROMs that are there and fit. */
  ghost predicate EveryRomIsWhole(roms: seq<(bool, nat -> Byte)>, start: nat, now: seq<Byte>) {
    forall k, a :: 0 <= k < |roms| && 0 <= a < |now| && IsDeclared(roms, k, start, 0xc_0000 + a) ==>
      now[a] == roms[k].1(0xc_0000 + a - RomStart(roms, k, start))
  }

  predicate IsDeclared(roms: seq<(bool, nat -> Byte)>, k: nat, start: nat, addr: nat)
    requires k < |roms|
  {
    IsTaken(roms, k, start) && RomStart(roms, k, start) <= addr < RomStart(roms, k, start) + 512 * (roms[k].1(2) as int)
  }

  predicate IsCovered(roms: seq<(bool, nat -> Byte)>, k: nat, start: nat, addr: nat)
    requires k < |roms|
  {
    IsTaken(roms, k, start) && RomStart(roms, k, start) <= addr < RomStart(roms, k, start) + RomBytes(roms[k])
  }

  ghost predicate NothingElseChanged(roms: seq<(bool, nat -> Byte)>, start: nat, was: seq<Byte>, now: seq<Byte>) {
    && |now| == |was|
    && forall a :: 0 <= a < |now| && IsFree(roms, start, 0xc_0000 + a) ==> now[a] == was[a]
  }

  ghost predicate IsFree(roms: seq<(bool, nat -> Byte)>, start: nat, addr: nat) {
    forall k :: 0 <= k < |roms| ==> !IsCovered(roms, k, start, addr)
  }

  lemma RoundedIs(units: nat)
    ensures RomSize(units) == (512 * units + 2047) / 2048 * 2048 >= 512 * units
  {
    RomSizeIs(units);
    hide RomSize;
  }

  lemma RomBytesIs(rom: (bool, nat -> Byte), s: nat)
    ensures RomSize(rom.1(2) as int) == RomBytes(rom) >= 512 * (rom.1(2) as int)
    ensures RomFits(rom.0, rom.1, s) <==> rom.0 && s + RomBytes(rom) <= 0xe_0000
  {
    RoundedIs(rom.1(2) as int);
    hide RomSize;
  }

  lemma RomStartMore(roms: seq<(bool, nat -> Byte)>, k: nat, start: nat)
    requires k < |roms|
    ensures RomStart(roms, k + 1, start) == StartAfter(roms[k].0, roms[k].1, RomStart(roms, k, start))
    ensures IsTaken(roms, k, start) <==> RomFits(roms[k].0, roms[k].1, RomStart(roms, k, start))
  {
    RomBytesIs(roms[k], RomStart(roms, k, start));
    hide RomSize, RomFits, RomBytes;
  }

  function PlacementOf(roms: seq<(bool, nat -> Byte)>, k: nat, start: nat): Placement
    requires k < |roms|
  {
    Placement(RomStart(roms, k, start), RomBytes(roms[k]), roms[k].1)
  }

  /** The placements from the j-th ROM on are those of the ROMs taken. */
  lemma {:induction false} PlacementsAre(roms: seq<(bool, nat -> Byte)>, j: nat, start: nat, p: Placement)
    requires j <= |roms|
    ensures p in Placements(roms, j, RomStart(roms, j, start))
       <==> exists k :: j <= k < |roms| && IsTaken(roms, k, start) && p == PlacementOf(roms, k, start)
    decreases |roms| - j
  {
    hide IsTaken, RomStart, StartAfter, RomFits, RomBytes, RomSize;
    if j < |roms| {
      RomStartMore(roms, j, start);
      RomBytesIs(roms[j], RomStart(roms, j, start));
      PlacementsAre(roms, j + 1, start, p);
    }
  }

  lemma LaidIsWhole(roms: seq<(bool, nat -> Byte)>, start: nat, was: seq<Byte>, now: seq<Byte>)
    requires Laid(was, now, Placements(roms, 0, start))
    ensures EveryRomIsWhole(roms, start, now) && NothingElseChanged(roms, start, was, now)
  {
    hide IsTaken, RomBytes, RomSize, Placements;
    var placed := Placements(roms, 0, start);
    assert RomStart(roms, 0, start) == start;
    forall k, a | 0 <= k < |roms| && 0 <= a < |now| && IsDeclared(roms, k, start, 0xc_0000 + a)
      ensures now[a] == roms[k].1(0xc_0000 + a - RomStart(roms, k, start))
    {
      var p := PlacementOf(roms, k, start);
      PlacementsAre(roms, 0, start, p);
      RomBytesIs(roms[k], start);
      var i :| 0 <= i < |placed| && placed[i] == p;
      assert Holds(placed[i], ROM_AREA + a);
    }
    forall a | 0 <= a < |now| && IsFree(roms, start, 0xc_0000 + a)
      ensures now[a] == was[a]
    {
      forall i | 0 <= i < |placed| ensures !Holds(placed[i], ROM_AREA + a) {
        PlacementsAre(roms, 0, start, placed[i]);
        var k :| 0 <= k < |roms| && IsTaken(roms, k, start) && placed[i] == PlacementOf(roms, k, start);
        assert !IsCovered(roms, k, start, 0xc_0000 + a);
      }
    }
  }

  predicate Holds(p: Placement, addr: nat) {
    p.start <= addr < p.start + p.size
  }

  ghost predicate InPlacement(placed: seq<Placement>, addr: nat) {
    exists i :: 0 <= i < |placed| && Holds(placed[i], addr)
  }

  /** Every placed ROM is whole, and no other byte has changed. */
  ghost predicate Laid(was: seq<Byte>, now: seq<Byte>, placed: seq<Placement>) {
    && |now| == |was|
    && (forall i, a :: 0 <= i < |placed| && 0 <= a < |now| && Holds(placed[i], ROM_AREA + a) ==>
         now[a] == placed[i].source(ROM_AREA + a - placed[i].start))
    && (forall a :: 0 <= a < |now| && !InPlacement(placed, ROM_AREA + a) ==> now[a] == was[a])
  }

  /** The ROMs lie in the area, in order, each ending before the next begins. */
  ghost predicate AllBelow(placed: seq<Placement>, limit: nat) {
    && limit <= ROM_LIMIT
    && (forall i :: 0 <= i < |placed| ==> ROM_AREA <= placed[i].start && placed[i].start + placed[i].size <= limit)
    && (forall i, j :: 0 <= i < j < |placed| ==> placed[i].start + placed[i].size <= placed[j].start)
  }

  /** The fields after the blocks of each ROM, in order, have been locked. */
  ghost function LockedAll(c: Config, placed: seq<Placement>): Config
    requires AllBelow(placed, ROM_LIMIT)
    decreases |placed|
  {
    if placed == [] then c
    else
      var p := placed[|placed| - 1];
      BlocksEndBound(p.start, p.size);
      Locked(LockedAll(c, placed[..|placed| - 1]), BlockOf(p.start), BlocksEnd(p.start, p.size))
  }

  /** The blocks a ROM touches; an empty one touches the block it would begin in. */
  predicate TouchesBlock(p: Placement, k: nat)
    requires p.start >= ROM_AREA
  {
    BlockOf(p.start) <= k < BlocksEnd(p.start, p.size)
  }

  /** The 16K from the k-th multiple on have a byte in common with the ROM, an empty one counting
      as one byte. */
  lemma TouchesBlockMeans(p: Placement, k: nat)
    requires p.start >= 0xc_0000
    ensures TouchesBlock(p, k) <==>
      p.start < 0xc_0000 + 0x4000 * (k + 1) && 0xc_0000 + 0x4000 * k < p.start + (if p.size == 0 then 1 else p.size)
  {
  }

  ghost predicate Touched(placed: seq<Placement>, k: nat)
    requires AllBelow(placed, ROM_LIMIT)
  {
    exists i :: 0 <= i < |placed| && TouchesBlock(placed[i], k)
  }

  /** After an enumeration exactly the blocks that a ROM touches are read-only; every other
      field, and every other bit of the configuration space, is as it was. */
  lemma {:induction false} LockedAllAt(c: Config, placed: seq<Placement>, k: nat, r: nat)
    requires AllBelow(placed, ROM_LIMIT) && k <= 8 && r < 256
    ensures Field(LockedAll(c, placed), k) == if Touched(placed, k) then 1 else Field(c, k)
    ensures LockedAll(c, placed)[r] & 0xcc == c[r] & 0xcc
    ensures !(0x5a <= r <= 0x5e) ==> LockedAll(c, placed)[r] == c[r]
    decreases |placed|
  {
    hide Field, Locked, BlockOf, BlocksEnd;
    if placed != [] {
      var before, p := placed[..|placed| - 1], placed[|placed| - 1];
      LockedAllAt(c, before, k, r);
      BlocksEndBound(p.start, p.size);
      LockedAt(LockedAll(c, before), BlockOf(p.start), BlocksEnd(p.start, p.size), k, r);
      TouchedMore(before, p, k);
      assert placed == before + [p];
    }
  }

  lemma TouchedMore(placed: seq<Placement>, p: Placement, k: nat)
    requires AllBelow(placed, ROM_LIMIT) && AllBelow(placed + [p], ROM_LIMIT) && p.start >= ROM_AREA
    ensures Touched(placed + [p], k) <==> Touched(placed, k) || TouchesBlock(p, k)
  {
    var all := placed + [p];
    hide TouchesBlock;
    assert all[|placed|] == p;
    if i :| 0 <= i < |placed| && TouchesBlock(placed[i], k) {
      assert all[i] == placed[i];
    }
  }

  lemma NothingLaid(was: seq<Byte>)
    ensures Laid(was, was, [])
  {
  }

  lemma LaidMore(was: seq<Byte>, mid: seq<Byte>, now: seq<Byte>, placed: seq<Placement>, p: Placement)
    requires Laid(was, mid, placed) && AllBelow(placed, p.start) && CopiedTo(mid, now, p.source, p.start, p.size)
    ensures Laid(was, now, placed + [p])
  {
    var all := placed + [p];
    assert all[|placed|] == p;
    forall i, a | 0 <= i < |all| && 0 <= a < |now| && Holds(all[i], ROM_AREA + a)
      ensures now[a] == all[i].source(ROM_AREA + a - all[i].start)
    {
      assert i < |placed| ==> all[i] == placed[i];
    }
    forall a | 0 <= a < |now| && !InPlacement(all, ROM_AREA + a) ensures now[a] == was[a] {
      assert !Holds(all[|placed|], ROM_AREA + a);
      forall i | 0 <= i < |placed| ensures !Holds(placed[i], ROM_AREA + a) {
        assert all[i] == placed[i];
      }
    }
  }

  lemma LockedAllMore(c: Config, placed: seq<Placement>, p: Placement)
    requires AllBelow(placed, ROM_LIMIT) && AllBelow(placed + [p], ROM_LIMIT)
    requires ROM_AREA <= p.start && p.start + p.size <= ROM_LIMIT
    ensures BlocksEnd(p.start, p.size) <= 9
    ensures LockedAll(c, placed + [p]) == Locked(LockedAll(c, placed), BlockOf(p.start), BlocksEnd(p.start, p.size))
  {
    BlocksEndBound(p.start, p.size);
    assert (placed + [p])[..|placed|] == placed;
  }

  lemma BelowMore(placed: seq<Placement>, p: Placement)
    requires AllBelow(placed, p.start) && ROM_AREA <= p.start && p.start + p.size <= ROM_LIMIT
    ensures AllBelow(placed + [p], p.start + p.size) && AllBelow(placed + [p], ROM_LIMIT) && AllBelow(placed, ROM_LIMIT)
  {
  }

  lemma PlacedIs(present: bool, source: nat -> Byte, start: nat)
    ensures var size := RomSize(source(2) as int);
      var fits := present && start + size <= ROM_LIMIT;
      && Placed(present, source, start) == (if fits then [Placement(start, size, source)] else [])
      && StartAfter(present, source, start) == (if fits then start + size else start)
  {
  }

  /** What one more ROM changes. */
  lemma PlaceMore(was: seq<Byte>, mid: seq<Byte>, now: seq<Byte>, fields: Config, c: Config, c': Config,
                  placed: seq<Placement>, p: Placement)
    requires AllBelow(placed, p.start) && AllBelow(placed, ROM_LIMIT)
    requires ROM_AREA <= p.start && p.start + p.size <= ROM_LIMIT
    requires Laid(was, mid, placed) && CopiedTo(mid, now, p.source, p.start, p.size)
    requires c == LockedAll(fields, placed) && BlocksEnd(p.start, p.size) <= 9
    requires c' == Locked(c, BlockOf(p.start), BlocksEnd(p.start, p.size))
    ensures AllBelow(placed + [p], p.start + p.size) && AllBelow(placed + [p], ROM_LIMIT)
    ensures Laid(was, now, placed + [p]) && c' == LockedAll(fields, placed + [p])
  {
    hide Laid, CopiedTo, LockedAll, Locked, AllBelow, BlockOf, BlocksEnd;
    BelowMore(placed, p);
    LaidMore(was, mid, now, placed, p);
    LockedAllMore(fields, placed, p);
  }

  lemma PlacementsMore(roms: seq<(bool, nat -> Byte)>, k: nat, start: nat, placed: seq<Placement>)
    requires k < |roms|
    ensures placed + Placements(roms, k, start)
      == (placed + Placed(roms[k].0, roms[k].1, start))
         + Placements(roms, k + 1, StartAfter(roms[k].0, roms[k].1, start))
  {
    hide Placed, StartAfter;
  }

  /** A ROM whose size byte is zero is copied, in no bytes, and its block is locked. */
  lemma EmptyRomLocksBlock(c: Config, start: nat)
    requires ROM_AREA <= start < ROM_LIMIT && Field(c, BlockOf(start)) != READ_ONLY
    ensures RomSize(0) == 0 && BlocksEnd(start, 0) == BlockOf(start) + 1 <= 9
    ensures Field(Locked(c, BlockOf(start), BlocksEnd(start, 0)), BlockOf(start)) == READ_ONLY
  {
    LockedAt(c, BlockOf(start), BlockOf(start) + 1, BlockOf(start), 0);
  }

  lemma FirstBlocks(start: nat, n: nat)
    requires ROM_AREA <= start && (n > 0 ==> BlockOf(start + n - 1) == BlockOf(start))
    ensures BlocksEnd(start, n) == BlockOf(start) + 1
  {
  }

  lemma NextBlock(start: nat, copied: nat, n: nat)
    requires ROM_AREA <= start && copied > 0 && n > 0
    requires AtBoundary(start + copied) && BlockOf(start + copied + n - 1) == BlockOf(start + copied)
    ensures BlockOf(start + copied) == BlocksEnd(start, copied)
    ensures BlocksEnd(start, copied + n) == BlocksEnd(start, copied) + 1
  {
    BlockStarts(start + copied);
  }

  lemma BlocksEndBound(start: nat, n: nat)
    requires ROM_AREA <= start && start + n <= ROM_LIMIT
    ensures BlockOf(start) < BlocksEnd(start, n) <= 9
  {
  }

  lemma LockedOne(c: Config, k: nat)
    requires k <= 8
    ensures Locked(c, k, k + 1) == SetField(c, k, READ_ONLY)
  {
    assert Locked(c, k, k) == c;
  }

  lemma LockedMore(c: Config, lo: nat, k: nat)
    requires lo <= k <= 8
    ensures Locked(c, lo, k + 1) == SetField(Locked(c, lo, k), k, READ_ONLY)
  {
  }

  lemma BlockStarts(addr: nat)
    requires addr > ROM_AREA && AtBoundary(addr)
    ensures BlockOf(addr) == BlockOf(addr - 1) + 1
  {
  }

  lemma ChunkInBlock(addr: nat, n: nat)
    requires addr >= ROM_AREA && n <= BLOCK - addr % BLOCK
    ensures n > 0 ==> BlockOf(addr + n - 1) == BlockOf(addr)
    ensures n == BLOCK - addr % BLOCK ==> AtBoundary(addr + n)
  {
  }
}
