/** The segment checks told by the bits of the descriptor type, sections 3.4.5.1 and 5.3 to 5.5 of
    the Intel 64 and IA-32 Architectures Software Developer's Manual, Volume 3, and what series
    of checks sets which flag. */
module SegmentRules {
  import Bits
  import opened Segments

  /** Bit 3 of a type tells code from data; bit 2 makes data expand down; bit 1 makes data
      writable and code readable. */
  predicate IsCode(kind: SegmentType) { kind >= 8 }

  predicate IsDown(kind: SegmentType) { !IsCode(kind) && kind % 8 >= 4 }

  predicate MayWrite(kind: SegmentType) { !IsCode(kind) && kind % 4 >= 2 }

  predicate MayRead(kind: SegmentType) { IsCode(kind) ==> kind % 4 >= 2 }

  /** The whole address space from zero on, of a type that can be read. */
  predicate IsWhole(seg: Segment) {
    seg.base == 0 && seg.limit == 0xffff_ffff && !IsDown(seg.kind) && MayRead(seg.kind)
  }

  /** An access is allowed exactly if the segment is present, its type permits the access, and
      every byte is at or below the limit, or, in data that expands down, above the limit and at or
      below the top of 16 or 32 bits. Only on the segment that is the whole address space is the
      limit not looked at. */
  lemma AllowedIs(seg: Segment, kind: Kind, offset: Bit32u, length: Bit32u)
    requires 1 <= length
    ensures Allowed(seg, kind, offset, length) <==>
      && seg.present && (kind.Write? ==> MayWrite(seg.kind)) && (kind.Read? ==> MayRead(seg.kind))
      && (|| IsWhole(seg)
          || (if IsDown(seg.kind)
              then seg.limit < offset && offset + length - 1 <= (if seg.big then 0xffff_ffff else 0xffff)
              else offset + length - 1 <= seg.limit))
  {
    InsideByEnds(seg, offset, length);
    hide Inside;
  }

  /** The check for alignment looks at the linear address: with a length that is a power of two, it
      raises the exception exactly if the address is not a multiple of it. */
  lemma MisalignedIs(seg: Segment, offset: Bit32u, k: nat)
    requires k < 32
    ensures Bits.Pow2(k) < 0x1_0000_0000
    ensures Misaligned(seg, offset, Bits.Pow2(k)) <==> (seg.base + offset) % 0x1_0000_0000 % Bits.Pow2(k) != 0
  {
    Bits.Pow2Bound(k);
    Bits.AndLowOnes((seg.base + offset) % TWO_TO_THE_32, k);
    hide Bits.And, Bits.Pow2;
  }

  /** A check of the series was passed, of a write if only writes are asked for. */
  ghost predicate Passed(seg: Segment, checks: seq<Check>, writes: bool) {
    exists i :: 0 <= i < |checks| && PassedAt(seg, checks[i], writes)
  }

  ghost predicate PassedAt(seg: Segment, c: Check, writes: bool) {
    Allowed(seg, c.kind, c.offset, c.length) && (writes ==> c.kind.Write?)
  }

  lemma PassedMore(seg: Segment, checks: seq<Check>, c: Check, writes: bool)
    ensures Passed(seg, checks + [c], writes) <==> Passed(seg, checks, writes) || PassedAt(seg, c, writes)
  {
    hide PassedAt;
    var all := checks + [c];
    assert all[|checks|] == c;
    if i :| 0 <= i < |checks| && PassedAt(seg, checks[i], writes) {
      assert all[i] == checks[i];
    }
  }

  /** The segments on which a passed check sets flags: any that can be read and do not expand
      down, if they are the whole address space or hold the longest access. */
  predicate IsCached(seg: Segment, maxAccess: Bit32u) {
    !IsDown(seg.kind) && MayRead(seg.kind) && (IsWhole(seg) || seg.limit + 1 >= maxAccess)
  }

  predicate AreGranted(f: Flags, seg: Segment, maxAccess: Bit32u, passed: bool, written: bool) {
    && f.validCache
    && (f.rok <==> passed && IsCached(seg, maxAccess)) && (f.wok <==> written && IsCached(seg, maxAccess))
    && (f.rok4g <==> passed && IsWhole(seg)) && (f.wok4g <==> written && IsWhole(seg))
  }

  lemma GrantedMore(f: Flags, seg: Segment, maxAccess: Bit32u, kind: Kind, passed: bool, written: bool)
    requires 1 <= maxAccess && AreGranted(f, seg, maxAccess, passed, written)
    ensures AreGranted(Granted(seg, f, kind, maxAccess), seg, maxAccess, true, written || kind.Write?)
  {
  }

  /** After any series of checks the flags are exactly these: the read flags if a check was passed
      and the write flags if a write was, the first two on segments that hold the longest access and
      the other two on the whole address space. */
  lemma {:induction false} FlagsAfterAre(seg: Segment, checks: seq<Check>, maxAccess: Bit32u)
    requires 1 <= maxAccess
    ensures AreGranted(FlagsAfter(seg, checks, maxAccess), seg, maxAccess,
                       Passed(seg, checks, false), Passed(seg, checks, true))
    decreases |checks|
  {
    hide AreGranted, Allowed, Granted, Passed;
    if checks == [] {
      NoneGranted(seg, maxAccess);
    } else {
      var before, c := checks[..|checks| - 1], checks[|checks| - 1];
      assert checks == before + [c];
      FlagsAfterAre(seg, before, maxAccess);
      PassedMore(seg, before, c, false);
      PassedMore(seg, before, c, true);
      GrantedMore(FlagsAfter(seg, before, maxAccess), seg, maxAccess, c.kind,
                  Passed(seg, before, false), Passed(seg, before, true));
    }
  }

  lemma NoneGranted(seg: Segment, maxAccess: Bit32u)
    ensures AreGranted(LOADED, seg, maxAccess, Passed(seg, [], false), Passed(seg, [], true))
  {
  }
}
