/** Segment protection checks: what the 32-bit limit arithmetic accepts, and why the cached
    permission flags may stand in for it. */
module Segments {
  import Bits

  const TWO_TO_THE_32: int := 0x1_0000_0000
  type Bit32u = x: int | 0 <= x < TWO_TO_THE_32
  type SegmentType = x: int | 0 <= x < 16

  /** Unsigned subtraction, which wraps. */
  function Sub32(a: Bit32u, b: Bit32u): Bit32u {
    if a >= b then a - b else a - b + TWO_TO_THE_32
  }

  /** A cached code or data segment descriptor. */
  datatype Segment = Segment(base: Bit32u, limit: Bit32u, big: bool, present: bool, kind: SegmentType) {

    predicate ExpandsDown() { 4 <= kind <= 7 }

    predicate ExecuteOnly() { kind == 8 || kind == 9 || kind == 12 || kind == 13 }

    predicate Readable() { !ExecuteOnly() }

    predicate Writable() { kind == 2 || kind == 3 || kind == 6 || kind == 7 }

    /** The segments whose limit the checks do not look at. */
    predicate Flat() { limit == 0xffff_ffff && base == 0 && !ExpandsDown() && !ExecuteOnly() }

    function UpperLimit(): Bit32u { if big then 0xffff_ffff else 0x0000_ffff }

    /** The byte at this offset belongs to the segment. */
    predicate Contains(offset: int) {
      if ExpandsDown() then limit < offset <= UpperLimit() else 0 <= offset <= limit
    }
  }

  /** The number of bytes an access of the given length touches; length zero counts as the
      whole address space, as the decrement of an unsigned zero makes it. */
  function Bytes(length: Bit32u): int {
    Sub32(length, 1) + 1
  }

  /** Every byte of the access lies in the segment, and none beyond the 32-bit offsets. */
  ghost predicate Inside(seg: Segment, offset: Bit32u, length: Bit32u) {
    forall a :: offset <= a < offset + Bytes(length) ==> a < TWO_TO_THE_32 && seg.Contains(a)
  }

  lemma InsideByEnds(seg: Segment, offset: Bit32u, length: Bit32u)
    ensures Inside(seg, offset, length) <==>
      var last := offset + Sub32(length, 1);
      if seg.ExpandsDown() then seg.limit < offset && last <= seg.UpperLimit() else last <= seg.limit
  {
    var last := offset + Sub32(length, 1);
    assert Bytes(length) == Sub32(length, 1) + 1;
    if Inside(seg, offset, length) {
      assert seg.Contains(offset);
      assert seg.Contains(last);
    } else {
      var a :| offset <= a < offset + Bytes(length) && !(a < TWO_TO_THE_32 && seg.Contains(a));
      assert a <= last;
    }
  }

  // ---------------------------------------------------------------- the checks

  datatype Flags = Flags(validCache: bool, rok: bool, wok: bool, rok4g: bool, wok4g: bool) {
    predicate Zero() { !validCache && !rok && !wok && !rok4g && !wok4g }
  }

  /** A segment register just loaded with a valid descriptor. */
  const LOADED: Flags := Flags(true, false, false, false, false)

  datatype Outcome = Accepted | Refused | GeneralProtection

  datatype Kind = Read | Write | Execute

  predicate Misaligned(seg: Segment, offset: Bit32u, length: Bit32u) {
    Bits.And((seg.base + offset) % TWO_TO_THE_32, Sub32(length, 1)) != 0
  }

  predicate Permits(seg: Segment, kind: Kind) {
    match kind
    case Read => seg.Readable()
    case Write => seg.Writable()
    case Execute => true
  }

  /** What the full check must decide, said without its arithmetic. */
  ghost predicate Allowed(seg: Segment, kind: Kind, offset: Bit32u, length: Bit32u) {
    seg.present && Permits(seg, kind) && (seg.Flat() || Inside(seg, offset, length))
  }

  /** The flags an accepted access adds. */
  function Granted(seg: Segment, f: Flags, kind: Kind, maxAccess: Bit32u): Flags {
    if seg.ExpandsDown() || seg.ExecuteOnly() then f
    else if seg.Flat() then
      if kind.Write? then f.(rok := true, wok := true, rok4g := true, wok4g := true)
      else f.(rok := true, rok4g := true)
    else if seg.limit >= Sub32(maxAccess, 1) then
      if kind.Write? then f.(rok := true, wok := true) else f.(rok := true)
    else f
  }

  class SegmentRegister {
    const seg: Segment
    /** The longest memory access of the build: 16, 32 or 64 bytes. */
    const maxAccess: Bit32u
    var valid: Flags

    constructor (seg: Segment, maxAccess: Bit32u)
      ensures this.seg == seg && this.maxAccess == maxAccess && valid == LOADED
    {
      this.seg, this.maxAccess, valid := seg, maxAccess, LOADED;
    }

    method WriteVirtualChecks(offset: Bit32u, length: Bit32u, align: bool) returns (r: Outcome)
      modifies this
      ensures r == GeneralProtection <==> align && Misaligned(seg, offset, length)
      ensures r == Accepted <==> !(align && Misaligned(seg, offset, length))
                                 && !old(valid).Zero() && Allowed(seg, Write, offset, length)
      ensures valid == if r == Accepted then Granted(seg, old(valid), Write, maxAccess) else old(valid)
    {
      InsideByEnds(seg, offset, length);
      hide Inside, Misaligned;
      var last := Sub32(length, 1);
      if align && Misaligned(seg, offset, length) {
        return GeneralProtection;
      }
      if valid.Zero() || !seg.present {
        return Refused;
      }
      match seg.kind {
      case 2 | 3 =>
        if seg.limit == 0xffff_ffff && seg.base == 0 {
          valid := valid.(rok := true, wok := true, rok4g := true, wok4g := true);
        } else {
          if offset > Sub32(seg.limit, last) || last > seg.limit {
            return Refused;
          }
          if seg.limit >= Sub32(maxAccess, 1) {
            valid := valid.(rok := true, wok := true);
          }
        }
      case 6 | 7 =>
        var upper: Bit32u := if seg.big then 0xffff_ffff else 0x0000_ffff;
        if offset <= seg.limit || offset > upper || Sub32(upper, offset) < last {
          return Refused;
        }
      case _ =>
        return Refused;
      }
      return Accepted;
    }

    method ReadVirtualChecks(offset: Bit32u, length: Bit32u, align: bool) returns (r: Outcome)
      modifies this
      ensures r == GeneralProtection <==> align && Misaligned(seg, offset, length)
      ensures r == Accepted <==> !(align && Misaligned(seg, offset, length))
                                 && !old(valid).Zero() && Allowed(seg, Read, offset, length)
      ensures valid == if r == Accepted then Granted(seg, old(valid), Read, maxAccess) else old(valid)
    {
      InsideByEnds(seg, offset, length);
      hide Inside, Misaligned;
      var last := Sub32(length, 1);
      if align && Misaligned(seg, offset, length) {
        return GeneralProtection;
      }
      if valid.Zero() || !seg.present {
        return Refused;
      }
      match seg.kind {
      case 0 | 1 | 2 | 3 | 10 | 11 | 14 | 15 =>
        if seg.limit == 0xffff_ffff && seg.base == 0 {
          valid := valid.(rok := true, rok4g := true);
        } else {
          if offset > Sub32(seg.limit, last) || last > seg.limit {
            return Refused;
          }
          if seg.limit >= Sub32(maxAccess, 1) {
            valid := valid.(rok := true);
          }
        }
      case 4 | 5 | 6 | 7 =>
        var upper: Bit32u := if seg.big then 0xffff_ffff else 0x0000_ffff;
        if offset <= seg.limit || offset > upper || Sub32(upper, offset) < last {
          return Refused;
        }
      case _ =>
        return Refused;
      }
      return Accepted;
    }

    method ExecuteVirtualChecks(offset: Bit32u, length: Bit32u) returns (r: Outcome)
      modifies this
      ensures r != GeneralProtection
      ensures r == Accepted <==> !old(valid).Zero() && Allowed(seg, Execute, offset, length)
      ensures valid == if r == Accepted then Granted(seg, old(valid), Execute, maxAccess) else old(valid)
    {
      InsideByEnds(seg, offset, length);
      hide Inside, Misaligned;
      if valid.Zero() || !seg.present {
        return Refused;
      }
      var last := Sub32(length, 1);
      match seg.kind {
      case 0 | 1 | 2 | 3 | 10 | 11 | 14 | 15 =>
        if seg.limit == 0xffff_ffff && seg.base == 0 {
          valid := valid.(rok := true, rok4g := true);
        } else {
          if offset > Sub32(seg.limit, last) || last > seg.limit {
            return Refused;
          }
          if seg.limit >= Sub32(maxAccess, 1) {
            valid := valid.(rok := true);
          }
        }
      case 8 | 9 | 12 | 13 =>
        if offset > Sub32(seg.limit, last) || last > seg.limit {
          return Refused;
        }
      case _ =>
        var upper: Bit32u := if seg.big then 0xffff_ffff else 0x0000_ffff;
        if offset <= seg.limit || offset > upper || Sub32(upper, offset) < last {
          return Refused;
        }
      }
      return Accepted;
    }
  }

  // ---------------------------------------------------------------- the one-comparison tests

  /** What the address generation tests instead of calling the check when a flag is set. */
  predicate FastTest(seg: Segment, offset: Bit32u, length: Bit32u) {
    offset <= (Sub32(seg.limit, length) + 1) % TWO_TO_THE_32
  }

  datatype Check = Check(kind: Kind, offset: Bit32u, length: Bit32u)

  /** The flags after any series of full checks on a freshly loaded register. */
  ghost function FlagsAfter(seg: Segment, checks: seq<Check>, maxAccess: Bit32u): Flags
    decreases |checks|
  {
    if checks == [] then LOADED
    else
      var f := FlagsAfter(seg, checks[..|checks| - 1], maxAccess);
      var c := checks[|checks| - 1];
      if Allowed(seg, c.kind, c.offset, c.length) then Granted(seg, f, c.kind, maxAccess) else f
  }

  /** What the read flags must stand for. */
  predicate ReadFits(seg: Segment, f: Flags, maxAccess: Bit32u) {
    && (f.rok ==> seg.present && !seg.ExpandsDown() && !seg.ExecuteOnly() && seg.limit >= Sub32(maxAccess, 1))
    && (f.rok4g ==> seg.present && seg.Flat())
  }

  /** What the write flags must stand for. */
  predicate WriteFits(seg: Segment, f: Flags, maxAccess: Bit32u) {
    && (f.wok ==> seg.present && seg.Writable() && !seg.ExpandsDown() && seg.limit >= Sub32(maxAccess, 1))
    && (f.wok4g ==> seg.present && seg.Writable() && seg.Flat())
  }

  predicate FlagsFit(seg: Segment, f: Flags, maxAccess: Bit32u) {
    f.validCache && ReadFits(seg, f, maxAccess) && WriteFits(seg, f, maxAccess)
  }

  lemma GrantedFits(seg: Segment, f: Flags, kind: Kind, maxAccess: Bit32u)
    requires seg.present && Permits(seg, kind)
    ensures ReadFits(seg, f, maxAccess) ==> ReadFits(seg, Granted(seg, f, kind, maxAccess), maxAccess)
    ensures WriteFits(seg, f, maxAccess) ==> WriteFits(seg, Granted(seg, f, kind, maxAccess), maxAccess)
  {
  }

  lemma {:induction false} FlagsStayFit(seg: Segment, checks: seq<Check>, maxAccess: Bit32u)
    ensures FlagsFit(seg, FlagsAfter(seg, checks, maxAccess), maxAccess)
    decreases |checks|
  {
    if checks != [] {
      var c := checks[|checks| - 1];
      FlagsStayFit(seg, checks[..|checks| - 1], maxAccess);
      if Allowed(seg, c.kind, c.offset, c.length) {
        GrantedFits(seg, FlagsAfter(seg, checks[..|checks| - 1], maxAccess), c.kind, maxAccess);
      }
    }
  }

  /** With a flag set, the one comparison decides what the full check would, except on the
      flat segment: there it refuses exactly the accesses that wrap past the last address,
      which the full check lets through. */
  lemma FastTestAgrees(seg: Segment, checks: seq<Check>, maxAccess: Bit32u, kind: Kind, offset: Bit32u, length: Bit32u)
    requires 1 <= length <= maxAccess
    requires var f := FlagsAfter(seg, checks, maxAccess); if kind.Write? then f.wok else f.rok
    ensures (FastTest(seg, offset, length) <==> Allowed(seg, kind, offset, length))
       <==> !(seg.Flat() && offset + length > TWO_TO_THE_32)
  {
    FlagsStayFit(seg, checks, maxAccess);
    InsideByEnds(seg, offset, length);
  }

  /** The access with which they differ: two bytes at the last address of a flat segment. */
  lemma FlatWrapIsTold()
    ensures var seg := Segment(0, 0xffff_ffff, true, true, 3);
      && FlagsAfter(seg, [Check(Write, 0, 1)], 64).wok
      && Allowed(seg, Write, 0xffff_ffff, 2) && !FastTest(seg, 0xffff_ffff, 2)
  {
    var seg := Segment(0, 0xffff_ffff, true, true, 3);
    var checks := [Check(Write, 0, 1)];
    assert checks[..0] == [];
    assert FlagsAfter(seg, [], 64) == LOADED;
  }

  // ---------------------------------------------------------------- address generation

  /** The linear address, or none where the access raises an exception. */
  datatype Address = Linear(laddr: Bit32u) | Fault

  function Laddr(seg: Segment, offset: Bit32u): Bit32u {
    (seg.base + offset) % TWO_TO_THE_32
  }

  /** Address generation on a register with flags f: flat segments need no test, a flag and
      one comparison replace the check, and only otherwise is the check called. */
  ghost function Generate(seg: Segment, f: Flags, c: Check, maxAccess: Bit32u): (Address, Flags) {
    if if c.kind.Write? then f.wok4g else f.rok4g then (Linear(c.offset), f)
    else if (if c.kind.Write? then f.wok else f.rok) && FastTest(seg, c.offset, c.length) then
      (Linear(Laddr(seg, c.offset)), f)
    else if !f.Zero() && Allowed(seg, c.kind, c.offset, c.length) then
      (Linear(Laddr(seg, c.offset)), Granted(seg, f, c.kind, maxAccess))
    else (Fault, f)
  }

  ghost function GenerateAll(seg: Segment, f: Flags, accesses: seq<Check>, maxAccess: Bit32u): seq<Address>
    decreases |accesses|
  {
    if accesses == [] then []
    else
      var (a, f') := Generate(seg, f, accesses[0], maxAccess);
      [a] + GenerateAll(seg, f', accesses[1..], maxAccess)
  }

  /** A processor without cached flags: every access is checked in full. */
  ghost function CheckAll(seg: Segment, accesses: seq<Check>): seq<Address>
    decreases |accesses|
  {
    if accesses == [] then []
    else
      var c := accesses[0];
      [if Allowed(seg, c.kind, c.offset, c.length) then Linear(Laddr(seg, c.offset)) else Fault]
      + CheckAll(seg, accesses[1..])
  }

  function Full(seg: Segment, allowed: bool, offset: Bit32u): Address {
    if allowed then Linear(Laddr(seg, offset)) else Fault
  }

  lemma GenerateIsCheck(seg: Segment, f: Flags, c: Check, maxAccess: Bit32u)
    requires f.validCache && ReadFits(seg, f, maxAccess) && (c.kind.Write? ==> WriteFits(seg, f, maxAccess))
    requires 1 <= c.length <= maxAccess
    ensures var (a, f') := Generate(seg, f, c, maxAccess);
      && a == Full(seg, Allowed(seg, c.kind, c.offset, c.length), c.offset)
      && f'.validCache && ReadFits(seg, f', maxAccess)
      && (WriteFits(seg, f, maxAccess) ==> WriteFits(seg, f', maxAccess))
  {
    InsideByEnds(seg, c.offset, c.length);
  }

  predicate Legal(accesses: seq<Check>, maxAccess: Bit32u) {
    forall c :: c in accesses ==> 1 <= c.length <= maxAccess
  }

  predicate Writes(accesses: seq<Check>) {
    exists c :: c in accesses && c.kind.Write?
  }

  /** Over every run of reads, writes and execute-reads of legal lengths, the cached flags
      never show: each access gets the address, or the exception, that a full check of that
      access alone would give it. The write flags matter only if there are writes. */
  lemma {:induction false} CachedFlagsNeverShow(seg: Segment, f: Flags, accesses: seq<Check>, maxAccess: Bit32u)
    requires f.validCache && ReadFits(seg, f, maxAccess) && (Writes(accesses) ==> WriteFits(seg, f, maxAccess))
    requires Legal(accesses, maxAccess)
    ensures GenerateAll(seg, f, accesses, maxAccess) == CheckAll(seg, accesses)
    decreases |accesses|
  {
    if accesses != [] {
      GenerateIsCheck(seg, f, accesses[0], maxAccess);
      hide ReadFits, WriteFits, Generate, Allowed;
      CachedFlagsNeverShow(seg, Generate(seg, f, accesses[0], maxAccess).1, accesses[1..], maxAccess);
    }
  }

  /** An access that shows the flags where they do not fit. */
  lemma MisfitShows(seg: Segment, f: Flags, maxAccess: Bit32u, writes: bool) returns (c: Check)
    requires maxAccess >= 1 && f.validCache
    requires if writes then !WriteFits(seg, f, maxAccess) else !ReadFits(seg, f, maxAccess)
    ensures 1 <= c.length <= maxAccess && c.kind == if writes then Write else Read
    ensures Generate(seg, f, c, maxAccess).0 != Full(seg, Allowed(seg, c.kind, c.offset, c.length), c.offset)
  {
    var kind := if writes then Write else Read;
    var length := if seg.limit < Sub32(maxAccess, 1) && !(if writes then f.wok4g else f.rok4g) then maxAccess else 1;
    var offset := if (if writes then f.wok4g else f.rok4g) && seg.base == 0 && seg.limit < 0xffff_ffff
                     && !seg.ExpandsDown() then 0xffff_ffff else 0;
    c := Check(kind, offset, length);
    InsideByEnds(seg, offset, length);
  }

  lemma OneAccess(seg: Segment, f: Flags, c: Check, maxAccess: Bit32u)
    ensures GenerateAll(seg, f, [c], maxAccess) == [Generate(seg, f, c, maxAccess).0]
    ensures CheckAll(seg, [c]) == [Full(seg, Allowed(seg, c.kind, c.offset, c.length), c.offset)]
  {
    hide Generate, Allowed, Laddr;
    assert [c][1..] == [];
  }

  /** The condition is exact: a register loaded with flags that do not fit has an access on
      which they show. */
  lemma FlagsNeverShowIff(seg: Segment, f: Flags, maxAccess: Bit32u)
    requires maxAccess >= 1 && f.validCache
    ensures FlagsFit(seg, f, maxAccess) <==>
      forall accesses :: Legal(accesses, maxAccess) ==> GenerateAll(seg, f, accesses, maxAccess) == CheckAll(seg, accesses)
  {
    hide ReadFits, WriteFits, Generate, Allowed, Laddr;
    if FlagsFit(seg, f, maxAccess) {
      forall accesses | Legal(accesses, maxAccess)
        ensures GenerateAll(seg, f, accesses, maxAccess) == CheckAll(seg, accesses)
      {
        CachedFlagsNeverShow(seg, f, accesses, maxAccess);
      }
    } else {
      var c := MisfitShows(seg, f, maxAccess, ReadFits(seg, f, maxAccess));
      OneAccess(seg, f, c, maxAccess);
      assert Legal([c], maxAccess);
    }
  }

  // ---------------------------------------------------------------- how registers are loaded

  const ALL_SET: Flags := Flags(true, true, true, true, true)
  const NOT_4G: Flags := Flags(true, true, true, false, false)

  /** Loading a descriptor sets no access flag; processor reset, virtual-8086 mode and the flat
      data segments set up without a descriptor set flags that fit. */
  lemma LoadsFit(seg: Segment, base: Bit32u, maxAccess: Bit32u)
    requires 1 <= maxAccess <= 64
    ensures FlagsFit(seg, LOADED, maxAccess)
    ensures FlagsFit(Segment(base, 0xffff, false, true, 3), NOT_4G, maxAccess)
    ensures FlagsFit(Segment(0, 0xffff_ffff, true, true, 3), ALL_SET, maxAccess)
  {
  }

  /** The flat code segments set up without a descriptor: the flags never show on reads, but a
      write gets an address where the full check raises an exception. */
  lemma FlatCodeShowsOnWrites(maxAccess: Bit32u, fetches: seq<Check>, offset: Bit32u)
    requires 1 <= maxAccess <= 64 && Legal(fetches, maxAccess) && !Writes(fetches)
    ensures var seg := Segment(0, 0xffff_ffff, true, true, 11);
      && GenerateAll(seg, ALL_SET, fetches, maxAccess) == CheckAll(seg, fetches)
      && GenerateAll(seg, ALL_SET, [Check(Write, offset, 1)], maxAccess) == [Linear(offset)]
      && CheckAll(seg, [Check(Write, offset, 1)]) == [Fault]
  {
    var seg := Segment(0, 0xffff_ffff, true, true, 11);
    CachedFlagsNeverShow(seg, ALL_SET, fetches, maxAccess);
    OneAccess(seg, ALL_SET, Check(Write, offset, 1), maxAccess);
  }

  /** The code segment set up on entering system-management mode: data accesses through it get
      an address without its base. */
  lemma SmmCodeLosesBase(smbase: Bit32u, maxAccess: Bit32u, offset: Bit32u)
    requires smbase != 0 && 1 <= maxAccess <= 64
    ensures var seg := Segment(smbase, 0xffff_ffff, false, true, 3);
      && GenerateAll(seg, ALL_SET, [Check(Read, offset, 1)], maxAccess) == [Linear(offset)]
      && CheckAll(seg, [Check(Read, offset, 1)]) == [Linear((smbase + offset) % TWO_TO_THE_32)]
      && (smbase + offset) % TWO_TO_THE_32 != offset
  {
    var seg := Segment(smbase, 0xffff_ffff, false, true, 3);
    OneAccess(seg, ALL_SET, Check(Read, offset, 1), maxAccess);
    InsideByEnds(seg, offset, 1);
  }
}
