/** The tool that fills in the checksums of a BIOS image: five kinds of header are looked for at
    paragraph boundaries, and the last byte makes the whole image sum to zero. */
module Biossums {
  import opened Paragraphs
  import opened TableBytes

  const IMAGE_SIZE: nat := 0x1_0000

  type Image = s: seq<Byte> | |s| == 0x1_0000 witness seq(0x1_0000, _ => 0)

  datatype Kind = Pci32 | Mp | Pcmp | Pir | Pnp

  datatype Outcome = GivenUp | Done(image: Image)

  // ---------------------------------------------------------------- the headers

  function Signature(k: Kind): (r: seq<Byte>)
    ensures |r| == 4
  {
    match k
    case Pci32 => Text("_32_")
    case Mp => Text("_MP_")
    case Pcmp => Text("PCMP")
    case Pir => Text("$PIR")
    case Pnp => Text("$PnP")
  }

  function ChecksumAt(k: Kind): (r: nat)
    ensures r < 32
  {
    match k
    case Pci32 => 10
    case Mp => 10
    case Pcmp => 7
    case Pir => 31
    case Pnp => 8
  }

  /** How many bytes behind the start of a header must be below the last byte of the image. */
  function MinHeader(k: Kind): (r: nat)
    ensures ChecksumAt(k) < r && r >= 16
  {
    match k
    case Pci32 => 16
    case Mp => 16
    case Pcmp => 42
    case Pir => 32
    case Pnp => 32
  }

  predicate SignatureAt(k: Kind, d: seq<Byte>, p: nat) {
    p + 4 <= |d| && d[p..p + 4] == Signature(k)
  }

  function Length(k: Kind, d: seq<Byte>, p: nat): nat
    requires p + 16 <= |d|
  {
    match k
    case Pci32 => 16 * d[p + 9]
    case Mp => 16 * d[p + 8]
    case Pcmp => Word16At(d, p + 4)
    case Pir => Word16At(d, p + 6)
    case Pnp => d[p + 5]
  }

  /** The checks that must hold at a header, or else the tool gives up. */
  predicate Checked(k: Kind, d: seq<Byte>, p: nat)
    requires p + 16 <= |d|
  {
    && p + MinHeader(k) <= |d| - 1
    && p + Length(k, d, p) <= |d| - 1
    && (k == Pcmp ==> d[p + 40] == 0 && d[p + 41] == 0 && d[p + 42] == 0)
  }

  /** The sum of a header without its checksum byte. */
  function SumWithout(s: seq<Byte>, c: nat): int {
    Sum(s) - if c < |s| then s[c] else 0
  }

  function NewValue(k: Kind, d: seq<Byte>, p: nat): Byte
    requires p + 16 <= |d| && p + Length(k, d, p) <= |d|
  {
    Negated(SumWithout(d[p..p + Length(k, d, p)], ChecksumAt(k)))
  }

  // ---------------------------------------------------------------- where headers are

  /** The headers of a kind in paragraphs 1 to `n`. */
  function HitsUpTo(k: Kind, d: seq<Byte>, n: nat): seq<nat> {
    if n == 0 then []
    else HitsUpTo(k, d, n - 1) + if SignatureAt(k, d, 16 * n) then [16 * n] else []
  }

  /** The last paragraph, whose number is not written as a literal so that no proof counts
      down from it. */
  function Hits(k: Kind, d: seq<Byte>): seq<nat>
    requires |d| >= 16
  {
    HitsUpTo(k, d, |d| / 16 - 1)
  }

  predicate Increasing(h: seq<nat>) {
    forall i, j :: 0 <= i < j < |h| ==> h[i] < h[j]
  }

  lemma {:induction false} HitsAreInside(k: Kind, d: seq<Byte>, n: nat)
    ensures forall p :: p in HitsUpTo(k, d, n) ==> 16 <= p <= 16 * n && p % 16 == 0 && SignatureAt(k, d, p)
  {
    hide SignatureAt;
    if n > 0 {
      HitsAreInside(k, d, n - 1);
      assert 16 * n % 16 == 0;
    }
  }

  lemma {:induction false} HitsAreComplete(k: Kind, d: seq<Byte>, n: nat, j: nat)
    requires 1 <= j <= n && SignatureAt(k, d, 16 * j)
    ensures 16 * j in HitsUpTo(k, d, n)
  {
    hide SignatureAt;
    if j < n {
      HitsAreComplete(k, d, n - 1, j);
    } else {
      assert HitsUpTo(k, d, n)[|HitsUpTo(k, d, n - 1)|] == 16 * n;
    }
  }

  lemma {:induction false} HitsIncrease(k: Kind, d: seq<Byte>, n: nat)
    ensures Increasing(HitsUpTo(k, d, n))
  {
    hide SignatureAt;
    if n > 0 {
      HitsIncrease(k, d, n - 1);
      HitsAreInside(k, d, n - 1);
      var g, h := HitsUpTo(k, d, n - 1), HitsUpTo(k, d, n);
      forall i, j | 0 <= i < j < |h| ensures h[i] < h[j] {
        assert h[i] == g[i] && g[i] in g;
        assert h[j] == if j < |g| then g[j] else 16 * n;
      }
    }
  }

  /** Every paragraph with the signature, except the first, is found once, in increasing order. */
  lemma HitsAreAll(k: Kind, d: seq<Byte>)
    requires |d| >= 16
    ensures Increasing(Hits(k, d))
    ensures forall p :: p in Hits(k, d) ==> 16 <= p <= |d| - 16 && p % 16 == 0 && SignatureAt(k, d, p)
    ensures forall p :: 16 <= p <= |d| - 16 && p % 16 == 0 && SignatureAt(k, d, p) ==> p in Hits(k, d)
  {
    var n := |d| / 16 - 1;
    HitsIncrease(k, d, n);
    HitsAreInside(k, d, n);
    hide SignatureAt, HitsUpTo;
    forall p: nat | 16 <= p <= |d| - 16 && p % 16 == 0 && SignatureAt(k, d, p) ensures p in HitsUpTo(k, d, n) {
      assert p == 16 * (p / 16) && p / 16 <= n;
      HitsAreComplete(k, d, n, p / 16);
    }
  }

  // ---------------------------------------------------------------- what the tool does

  /** One kind: a checksum is set if the header occurs once. */
  function FixKind(k: Kind, d: Image): (r: Outcome) {
    var hits := Hits(k, d);
    HitsInside(k, d);
    if exists p :: p in hits && !Checked(k, d, p) then GivenUp
    else if |hits| == 1 then
      assert hits[0] in hits;
      Done(d[hits[0] + ChecksumAt(k) := NewValue(k, d, hits[0])])
    else Done(d)
  }

  lemma HitsInside(k: Kind, d: Image)
    ensures forall p :: p in Hits(k, d) ==> p + 16 <= |d|
  {
    HitsAreAll(k, d);
  }

  function KindAt(i: nat): Kind
    requires i < 5
  {
    if i == 0 then Pci32 else if i == 1 then Mp else if i == 2 then Pcmp else if i == 3 then Pir else Pnp
  }

  function Order(k: Kind): (i: nat)
    ensures i < 5 && KindAt(i) == k
  {
    match k
    case Pci32 => 0
    case Mp => 1
    case Pcmp => 2
    case Pir => 3
    case Pnp => 4
  }

  function FixKinds(d: Image, n: nat): Outcome
    requires n <= 5
  {
    if n == 0 then Done(d)
    else
      match FixKinds(d, n - 1)
      case GivenUp => GivenUp
      case Done(e) => FixKind(KindAt(n - 1), e)
  }

  function FixImage(d: Image): Image {
    d[|d| - 1 := Negated(Sum(d[..|d| - 1]))]
  }

  function Fix(d: Image): Outcome {
    match FixKinds(d, 5)
    case GivenUp => GivenUp
    case Done(e) => Done(FixImage(e))
  }

  // ---------------------------------------------------------------- the image it is meant for

  predicate Present(k: Kind, d: Image) {
    Hits(k, d) != []
  }

  function At(k: Kind, d: Image): (p: nat)
    requires Present(k, d)
    ensures p in Hits(k, d) && 16 <= p <= |d| - 16 && p % 16 == 0
  {
    HitsAreAll(k, d);
    Hits(k, d)[0]
  }

  /** Where a header ends. */
  function End(k: Kind, d: Image): nat
    requires Present(k, d)
  {
    At(k, d) + Length(k, d, At(k, d))
  }

  /** The length covers the checksum byte. */
  predicate Covered(k: Kind, d: Image)
    requires Present(k, d)
  {
    ChecksumAt(k) < Length(k, d, At(k, d))
  }

  predicate Apart(j: Kind, k: Kind, d: Image)
    requires Present(j, d) && Present(k, d)
  {
    End(j, d) <= At(k, d) || End(k, d) <= At(j, d)
  }

  /** Each kind of header occurs at most once, covers its checksum and is apart from the others.
      Nothing is said about the tool's own checks. */
  ghost predicate WellFormed(d: Image) {
    && (forall k :: |Hits(k, d)| <= 1)
    && (forall k :: Present(k, d) ==> Covered(k, d))
    && (forall j, k :: j != k && Present(j, d) && Present(k, d) ==> Apart(j, k, d))
  }

  /** A byte that is the checksum of a header of one of the first `n` kinds. */
  ghost predicate IsChecksum(d: Image, n: nat, p: nat) {
    exists k :: Order(k) < n && Present(k, d) && p == At(k, d) + ChecksumAt(k)
  }

  /** An image made from this one by changing checksums of the first `n` kinds only. */
  ghost predicate Agrees(d: Image, e: Image, n: nat) {
    forall p :: 0 <= p < |d| && !IsChecksum(d, n, p) ==> e[p] == d[p]
  }

  predicate SumsToZero(k: Kind, d: Image, e: Image)
    requires Present(k, d)
  {
    var p, q := At(k, d), At(k, d) + Length(k, d, At(k, d));
    q <= |e| && Sum(e[p..q]) % 256 == 0
  }

  ghost predicate Settled(d: Image, e: Image, n: nat) {
    forall k :: Order(k) < n && Present(k, d) ==> SumsToZero(k, d, e)
  }

  // ---------------------------------------------------------------- what the pass keeps

  predicate SameStarts(d: Image, e: Image) {
    forall p :: 0 <= p < |d| && p % 16 < 4 ==> e[p] == d[p]
  }

  lemma SameStart(d: Image, e: Image, p: nat)
    requires SameStarts(d, e) && p % 16 == 0 && p + 4 <= |d|
    ensures e[p..p + 4] == d[p..p + 4]
  {
    assert (p + 1) % 16 == 1 && (p + 2) % 16 == 2 && (p + 3) % 16 == 3;
  }

  lemma SameSignature(k: Kind, d: Image, e: Image, n: nat)
    requires SameStarts(d, e)
    ensures SignatureAt(k, e, 16 * n) == SignatureAt(k, d, 16 * n)
  {
    hide SameStarts, Signature;
    if 16 * n + 4 <= |d| {
      SameStart(d, e, 16 * n);
    }
  }

  lemma {:induction false} SameHitsUpTo(k: Kind, d: Image, e: Image, n: nat)
    requires SameStarts(d, e)
    ensures HitsUpTo(k, e, n) == HitsUpTo(k, d, n)
  {
    hide SameStarts, SignatureAt;
    if n > 0 {
      SameHitsUpTo(k, d, e, n - 1);
      SameSignature(k, d, e, n);
    }
  }

  lemma SameHits(k: Kind, d: Image, e: Image)
    requires SameStarts(d, e)
    ensures Hits(k, e) == Hits(k, d)
  {
    SameHitsUpTo(k, d, e, |d| / 16 - 1);
  }

  lemma ChecksumIsNoStart(k: Kind, p: nat)
    requires p % 16 == 0
    ensures (p + ChecksumAt(k)) % 16 >= 4
  {
  }

  /** Setting a checksum neither makes nor breaks a signature of any kind, on any image. */
  lemma FixKeepsHits(k: Kind, d: Image, j: Kind)
    requires FixKind(k, d).Done?
    ensures Hits(j, FixKind(k, d).image) == Hits(j, d)
  {
    var e := FixKind(k, d).image;
    if |Hits(k, d)| == 1 {
      HitsAreAll(k, d);
      assert Hits(k, d)[0] in Hits(k, d);
      ChecksumIsNoStart(k, Hits(k, d)[0]);
    }
    assert SameStarts(d, e);
    SameHits(j, d, e);
  }

  lemma AgreeingStarts(d: Image, e: Image, n: nat)
    requires Agrees(d, e, n)
    ensures SameStarts(d, e)
  {
    forall p | 0 <= p < |d| && p % 16 < 4 ensures e[p] == d[p] {
      forall k | Present(k, d) ensures p != At(k, d) + ChecksumAt(k) {
        ChecksumIsNoStart(k, At(k, d));
      }
    }
  }

  /** In a well-formed image, no checksum byte is part of another header. */
  lemma ChecksumsAreApart(d: Image, n: nat, k: Kind, p: nat)
    requires WellFormed(d) && Present(k, d) && At(k, d) <= p < End(k, d) && p != At(k, d) + ChecksumAt(k)
    ensures !IsChecksum(d, n, p)
  {
    forall j | Present(j, d) ensures p != At(j, d) + ChecksumAt(j) {
      if j != k {
        assert Apart(j, k, d) && Covered(j, d);
      }
    }
  }

  lemma RestIsSame(d: Image, e: Image, n: nat, k: Kind)
    requires WellFormed(d) && Agrees(d, e, n) && Present(k, d)
    ensures forall q :: At(k, d) <= q < End(k, d) && q != At(k, d) + ChecksumAt(k) && q < |d| ==> d[q] == e[q]
  {
    hide WellFormed, At, Present, Length, ChecksumAt, IsChecksum;
    forall q | At(k, d) <= q < End(k, d) && q != At(k, d) + ChecksumAt(k) && q < |d| ensures d[q] == e[q] {
      ChecksumsAreApart(d, n, k, q);
    }
  }

  /** A byte behind a PCMP header that the tool wants to be zero. */
  predicate InTail(p: nat, q: nat) {
    p + 40 <= q <= p + 42
  }

  predicate ZeroTail(d: seq<Byte>, p: nat) {
    p + 42 < |d| && d[p + 40] == 0 && d[p + 41] == 0 && d[p + 42] == 0
  }

  /** Where the checksum of a kind handled earlier stands among those bytes, the length of its
      header does too. */
  lemma LengthInTail(d: Image, k: Kind) returns (q: nat)
    requires WellFormed(d) && Present(k, d) && Present(Pcmp, d) && Order(k) < Order(Pcmp)
    requires InTail(At(Pcmp, d), At(k, d) + ChecksumAt(k))
    ensures InTail(At(Pcmp, d), q) && q < |d| && d[q] != 0
    ensures At(k, d) <= q < End(k, d) && q != At(k, d) + ChecksumAt(k)
  {
    assert Covered(k, d);
    var p, r := At(Pcmp, d), At(k, d);
    assert r == p + 32 by {
      assert r % 16 == 0 && p % 16 == 0;
    }
    q := if k == Pci32 then r + 9 else r + 8;
  }

  lemma IsCovered(d: Image, k: Kind)
    requires WellFormed(d) && Present(k, d)
    ensures Covered(k, d)
  {
  }

  lemma TailIsMarked(d: Image, e: Image, n: nat, k: Kind)
    requires WellFormed(d) && Present(k, d) && Present(Pcmp, d) && Order(k) < Order(Pcmp) && Agrees(d, e, n)
    requires InTail(At(Pcmp, d), At(k, d) + ChecksumAt(k))
    ensures !ZeroTail(e, At(Pcmp, d)) && !ZeroTail(d, At(Pcmp, d))
  {
    hide WellFormed, Present, At, Length, ChecksumAt, Agrees;
    var q := LengthInTail(d, k);
    RestIsSame(d, e, n, k);
  }

  lemma TailIsUntouched(d: Image, e: Image, n: nat, p: nat)
    requires Agrees(d, e, n) && forall q :: InTail(p, q) ==> !IsChecksum(d, n, q)
    ensures ZeroTail(e, p) <==> ZeroTail(d, p)
  {
    hide IsChecksum;
    assert InTail(p, p + 40) && InTail(p, p + 41) && InTail(p, p + 42);
  }

  /** No checksum set earlier changes whether those bytes are zero: where one stands among
      them, a length that is not zero stands there too. */
  lemma SameTail(d: Image, e: Image, n: nat)
    requires WellFormed(d) && Present(Pcmp, d) && n <= Order(Pcmp) && Agrees(d, e, n)
    ensures ZeroTail(e, At(Pcmp, d)) <==> ZeroTail(d, At(Pcmp, d))
  {
    hide WellFormed, Present, At, ChecksumAt, Agrees, InTail, ZeroTail;
    var p := At(Pcmp, d);
    if k :| Order(k) < n && Present(k, d) && InTail(p, At(k, d) + ChecksumAt(k)) {
      TailIsMarked(d, e, n, k);
    } else {
      TailIsUntouched(d, e, n, p);
    }
  }

  /** A header passes the checks when its turn comes exactly if it passes them in the image
      given. */
  lemma SameHeader(d: Image, e: Image, n: nat, k: Kind)
    requires WellFormed(d) && Present(k, d) && n <= Order(k) && Agrees(d, e, n)
    ensures var p := At(k, d);
      Length(k, e, p) == Length(k, d, p) && (Checked(k, e, p) <==> Checked(k, d, p))
  {
    var p := At(k, d);
    assert Covered(k, d);
    RestIsSame(d, e, n, k);
    if k == Pcmp {
      SameTail(d, e, n);
    }
  }

  lemma HeaderSums(e: seq<Byte>, p: nat, len: nat, c: nat)
    requires p + len <= |e| && c < len
    ensures Sum(e[p + c := Negated(SumWithout(e[p..p + len], c))][p..p + len]) % 256 == 0
  {
    var s := e[p..p + len];
    var v := Negated(SumWithout(s, c));
    assert e[p + c := v][p..p + len] == s[c := v];
    SumUpdate(s, c, v);
    NegationCancels(Sum(s) - s[c], 0);
  }

  lemma FixKindIs(d: Image, e: Image, n: nat, k: Kind)
    requires WellFormed(d) && Agrees(d, e, n)
    ensures !Present(k, d) ==> FixKind(k, e) == Done(e)
    ensures Present(k, d) && !Checked(k, e, At(k, d)) ==> FixKind(k, e) == GivenUp
    ensures Present(k, d) && Checked(k, e, At(k, d)) ==>
      var p := At(k, d);
      && p + Length(k, e, p) <= |e| && p + ChecksumAt(k) < |e|
      && FixKind(k, e) == Done(e[p + ChecksumAt(k) := NewValue(k, e, p)])
  {
    hide FixKind, Checked, Length, NewValue, Agrees, ChecksumAt, Covered;
    AgreeingStarts(d, e, n);
    SameHits(k, d, e);
    OneHitAtMost(k, d);
    if !Present(k, d) {
      FixNever(k, e);
    } else if Checked(k, e, At(k, d)) {
      FixOnce(k, e, At(k, d));
    } else {
      FixGivesUp(k, e, At(k, d));
    }
  }

  lemma FixGivesUp(k: Kind, d: Image, p: nat)
    requires Hits(k, d) == [p] && p + 16 <= |d| && !Checked(k, d, p)
    ensures FixKind(k, d) == GivenUp
  {
    hide Hits, Checked, Length, NewValue, ChecksumAt;
    assert p in Hits(k, d);
  }

  lemma OneHitAtMost(k: Kind, d: Image)
    requires WellFormed(d)
    ensures Hits(k, d) == if Present(k, d) then [At(k, d)] else []
  {
    hide Hits;
    assert |Hits(k, d)| <= 1;
  }

  lemma FixOnce(k: Kind, d: Image, p: nat)
    requires Hits(k, d) == [p] && p + 16 <= |d| && Checked(k, d, p)
    ensures p + Length(k, d, p) <= |d| && p + ChecksumAt(k) < |d|
    ensures FixKind(k, d) == Done(d[p + ChecksumAt(k) := NewValue(k, d, p)])
  {
    CheckedIsInside(k, d, p);
    hide Hits, Checked, Length, NewValue, ChecksumAt;
  }

  lemma FixNever(k: Kind, d: Image)
    requires Hits(k, d) == []
    ensures FixKind(k, d) == Done(d)
  {
    hide Hits, Checked, Length, NewValue, ChecksumAt;
  }

  lemma CheckedIsInside(k: Kind, d: seq<Byte>, p: nat)
    requires p + 16 <= |d| && Checked(k, d, p)
    ensures p + Length(k, d, p) < |d| && p + ChecksumAt(k) < |d|
  {
  }

  lemma SetChecksumAgrees(d: Image, e: Image, k: Kind, v: Byte)
    requires Agrees(d, e, Order(k)) && Present(k, d) && At(k, d) + ChecksumAt(k) < |d|
    ensures Agrees(d, e[At(k, d) + ChecksumAt(k) := v], Order(k) + 1)
  {
    assert IsChecksum(d, Order(k) + 1, At(k, d) + ChecksumAt(k));
    assert forall p :: IsChecksum(d, Order(k), p) ==> IsChecksum(d, Order(k) + 1, p);
  }

  lemma AgreesMore(d: Image, e: Image, n: nat)
    requires Agrees(d, e, n)
    ensures Agrees(d, e, n + 1)
  {
    assert forall p :: IsChecksum(d, n, p) ==> IsChecksum(d, n + 1, p);
  }

  lemma OthersStaySettled(d: Image, e: Image, k: Kind, v: Byte, j: Kind)
    requires WellFormed(d) && Present(k, d) && Present(j, d) && j != k && SumsToZero(j, d, e)
    requires At(k, d) + ChecksumAt(k) < |d|
    ensures SumsToZero(j, d, e[At(k, d) + ChecksumAt(k) := v])
  {
    var q := At(k, d) + ChecksumAt(k);
    assert Apart(j, k, d) && Covered(k, d);
    var a, b := At(j, d), At(j, d) + Length(j, d, At(j, d));
    assert e[q := v][a..b] == e[a..b];
  }

  lemma OwnIsSettled(d: Image, e: Image, n: nat, k: Kind)
    requires WellFormed(d) && n <= Order(k) && Agrees(d, e, n) && Present(k, d) && Checked(k, e, At(k, d))
    ensures var p := At(k, d);
      && p + Length(k, e, p) <= |e| && p + ChecksumAt(k) < |e|
      && SumsToZero(k, d, e[p + ChecksumAt(k) := NewValue(k, e, p)])
  {
    hide Agrees, Checked, Length, NewValue, ChecksumAt, At, Present, Sum;
    var p := At(k, d);
    SameHeader(d, e, n, k);
    assert Covered(k, d);
    CheckedIsInside(k, e, p);
    NewValueSums(k, e, p);
  }

  lemma NewValueSums(k: Kind, e: seq<Byte>, p: nat)
    requires p + 16 <= |e| && p + Length(k, e, p) <= |e| && ChecksumAt(k) < Length(k, e, p)
    ensures Sum(e[p + ChecksumAt(k) := NewValue(k, e, p)][p..p + Length(k, e, p)]) % 256 == 0
  {
    hide Length, ChecksumAt, Sum, Negated, SumWithout;
    HeaderSums(e, p, Length(k, e, p), ChecksumAt(k));
  }

  lemma StepSettles(d: Image, e: Image, n: nat)
    requires WellFormed(d) && n < 5 && Agrees(d, e, n) && Settled(d, e, n) && FixKind(KindAt(n), e).Done?
    ensures var f := FixKind(KindAt(n), e).image;
      Agrees(d, f, n + 1) && Settled(d, f, n + 1)
  {
    hide FixKind, Agrees, Checked, Length, NewValue, ChecksumAt, SumsToZero, WellFormed, Present, At;
    var k := KindAt(n);
    FixKindIs(d, e, n, k);
    var f := FixKind(k, e).image;
    if Present(k, d) {
      OwnIsSettled(d, e, n, k);
      SetChecksumAgrees(d, e, k, NewValue(k, e, At(k, d)));
    } else {
      AgreesMore(d, e, n);
    }
    forall j | Order(j) < n + 1 && Present(j, d) ensures SumsToZero(j, d, f) {
      if j != k && Present(k, d) {
        OthersStaySettled(d, e, k, NewValue(k, e, At(k, d)), j);
      }
    }
  }

  /** As long as the tool has not given up, the headers done so far sum to zero, and only their
      checksums have changed. */
  lemma {:induction false} KindsSettle(d: Image, n: nat)
    requires WellFormed(d) && n <= 5 && FixKinds(d, n).Done?
    ensures Agrees(d, FixKinds(d, n).image, n) && Settled(d, FixKinds(d, n).image, n)
  {
    hide WellFormed, Agrees, FixKind;
    if n == 0 {
      AgreesItself(d);
    } else {
      KindsSettle(d, n - 1);
      hide Settled;
      StepSettles(d, FixKinds(d, n - 1).image, n - 1);
    }
  }

  lemma AgreesItself(d: Image)
    ensures Agrees(d, d, 0) && Settled(d, d, 0)
  {
  }

  // ---------------------------------------------------------------- when the tool finishes

  /** The checksum a header gets. */
  function Fresh(k: Kind, d: Image): Byte
    requires Present(k, d) && Checked(k, d, At(k, d))
  {
    NewValue(k, d, At(k, d))
  }

  lemma OnlyByteLeft(s: seq<Byte>, t: seq<Byte>, c: nat)
    requires |s| == |t| && c < |s| && (forall i :: 0 <= i < |s| && i != c ==> s[i] == t[i]) && Sum(t) % 256 == 0
    ensures t[c] == Negated(SumWithout(s, c))
  {
    assert t == s[c := t[c]];
    SumUpdate(s, c, t[c]);
    NegatedIs(SumWithout(s, c), t[c]);
  }

  lemma NegatedIs(sum: int, b: Byte)
    requires (sum + b) % 256 == 0
    ensures b == Negated(sum)
  {
  }

  /** A header that sums to zero has the checksum that the tool would calculate on the image it
      was given. */
  lemma SettledIsFresh(d: Image, e: Image, n: nat, k: Kind)
    requires WellFormed(d) && Agrees(d, e, n) && Present(k, d) && Checked(k, d, At(k, d)) && SumsToZero(k, d, e)
    ensures At(k, d) + ChecksumAt(k) < |d| && e[At(k, d) + ChecksumAt(k)] == Fresh(k, d)
  {
    hide WellFormed, Agrees, At, Present, Length, ChecksumAt, Checked, Sum, SumWithout, Negated;
    var p, c := At(k, d), ChecksumAt(k);
    var len := Length(k, d, p);
    CheckedIsInside(k, d, p);
    IsCovered(d, k);
    RestIsSame(d, e, n, k);
    OnlyByteLeft(d[p..p + len], e[p..p + len], c);
  }

  /** Every header of the first `n` kinds passes the tool's checks. */
  ghost predicate AllPass(d: Image, n: nat) {
    forall k :: Order(k) < n && Present(k, d) ==> Checked(k, d, At(k, d))
  }

  lemma StepFinishes(d: Image, e: Image, n: nat)
    requires WellFormed(d) && n < 5 && Agrees(d, e, n)
    ensures FixKind(KindAt(n), e).Done? <==> (Present(KindAt(n), d) ==> Checked(KindAt(n), d, At(KindAt(n), d)))
  {
    var k := KindAt(n);
    FixKindIs(d, e, n, k);
    if Present(k, d) {
      SameHeader(d, e, n, k);
    }
  }

  /** After any number of kinds the tool has given up exactly if a header of those kinds fails
      the checks in the image given. */
  lemma {:induction false} KindsFinish(d: Image, n: nat)
    requires WellFormed(d) && n <= 5
    ensures FixKinds(d, n).Done? <==> AllPass(d, n)
  {
    hide WellFormed, FixKind, Agrees, Settled, Checked, Present, At;
    if n > 0 {
      KindsFinish(d, n - 1);
      if FixKinds(d, n - 1).Done? {
        KindsSettle(d, n - 1);
        StepFinishes(d, FixKinds(d, n - 1).image, n - 1);
        assert Order(KindAt(n - 1)) == n - 1;
      }
    }
  }

  lemma ImageSums(e: Image)
    ensures Sum(FixImage(e)) % 256 == 0
  {
    var f := FixImage(e);
    assert f[..|f| - 1] == e[..|e| - 1];
    NegationCancels(Sum(e[..|e| - 1]), 0);
  }

  /** The tool finishes on a well-formed image exactly when every header passes its checks. All
      headers and the image itself then sum to zero together, every header has the checksum
      calculated on the image given, whatever the order of the kinds, and nothing but checksum
      bytes has changed. */
  lemma AllChecksumsHold(d: Image)
    requires WellFormed(d)
    ensures Fix(d).Done? <==> forall k :: Present(k, d) ==> Checked(k, d, At(k, d))
    ensures Fix(d).Done? ==>
      var f := Fix(d).image;
      && Sum(f) % 256 == 0
      && (forall k :: Present(k, d) ==> SumsToZero(k, d, f))
      && (forall k :: Present(k, d) ==> f[At(k, d) + ChecksumAt(k)] == Fresh(k, d))
      && (forall p :: 0 <= p < |d| - 1 && !IsChecksum(d, 5, p) ==> f[p] == d[p])
  {
    KindsFinish(d, 5);
    assert AllPass(d, 5) <==> forall k :: Present(k, d) ==> Checked(k, d, At(k, d));
    if Fix(d).Done? {
      KindsSettle(d, 5);
      var e := FixKinds(d, 5).image;
      var f := FixImage(e);
      assert Fix(d) == Done(f);
      ImageSums(e);
      forall k | Present(k, d)
        ensures SumsToZero(k, d, f) && f[At(k, d) + ChecksumAt(k)] == Fresh(k, d)
      {
        assert Order(k) < 5 && Covered(k, d);
        SettledIsFresh(d, e, 5, k);
        assert f[At(k, d)..End(k, d)] == e[At(k, d)..End(k, d)];
      }
    }
  }

  // ---------------------------------------------------------------- an image it gives up on

  /** A PCMP header of 32 bytes and, right behind it, an _MP_ header of 16. */
  function ShortTableByte(i: nat): Byte {
    if 16 <= i < 20 then Signature(Pcmp)[i - 16]
    else if i == 20 then 32
    else if 48 <= i < 52 then Signature(Mp)[i - 48]
    else if i == 56 then 1
    else 0
  }

  function ShortTable(): Image {
    seq(0x1_0000, i requires 0 <= i < 0x1_0000 => ShortTableByte(i))
  }

  lemma FirstLetters(k: Kind)
    ensures Signature(k)[0] != 0
    ensures Signature(k) == Signature(Pcmp) ==> k == Pcmp
    ensures Signature(k) == Signature(Mp) ==> k == Mp
  {
    assert Signature(k)[1] == Signature(Mp)[1] && Signature(k)[2] == Signature(Mp)[2] ==> k == Mp;
    assert Signature(k)[0] == Signature(Pcmp)[0] ==> k == Pcmp;
  }

  lemma ShortTableSignatures()
    ensures SignatureAt(Pcmp, ShortTable(), 16) && SignatureAt(Mp, ShortTable(), 48)
  {
    var d := ShortTable();
    hide Signature;
    assert forall i :: 0 <= i < 4 ==> d[16..20][i] == ShortTableByte(16 + i);
    assert forall i :: 0 <= i < 4 ==> d[48..52][i] == ShortTableByte(48 + i);
  }

  lemma ShortTableParagraph(p: nat)
    requires p < 0x1_0000 && p % 16 == 0 && ShortTable()[p] != 0
    ensures p == 16 || p == 48
  {
    hide Signature;
    assert ShortTable()[p] == ShortTableByte(p);
  }

  lemma SignatureStarts(k: Kind, d: Image, p: nat)
    requires SignatureAt(k, d, p)
    ensures d[p] != 0
  {
    FirstLetters(k);
    hide Signature;
    assert d[p] == d[p..p + 4][0];
  }

  lemma SameKind(k: Kind, d: Image, p: nat)
    requires SignatureAt(k, d, p)
    ensures SignatureAt(Pcmp, d, p) ==> k == Pcmp
    ensures SignatureAt(Mp, d, p) ==> k == Mp
  {
    FirstLetters(k);
    hide Signature;
  }

  lemma ShortTableHit(k: Kind, p: nat)
    requires p in Hits(k, ShortTable())
    ensures (k == Pcmp && p == 16) || (k == Mp && p == 48)
  {
    hide *;
    var d := ShortTable();
    HitsAreAll(k, d);
    SignatureStarts(k, d, p);
    ShortTableParagraph(p);
    ShortTableSignatures();
    SameKind(k, d, p);
  }

  lemma TwoDiffer(h: seq<nat>)
    requires Increasing(h)
    ensures |h| <= 1 || h[0] != h[1]
  {
  }

  lemma OneAtMost(h: seq<nat>, p: nat)
    requires Increasing(h) && forall q :: q in h ==> q == p
    ensures |h| <= 1
  {
    hide Increasing;
    TwoDiffer(h);
    forall i | 0 <= i < |h| ensures h[i] == p {
      assert h[i] in h;
    }
  }

  lemma ShortTableHits(k: Kind)
    ensures Present(k, ShortTable()) <==> (k == Pcmp || k == Mp)
    ensures Present(k, ShortTable()) ==> At(k, ShortTable()) == if k == Pcmp then 16 else 48
    ensures |Hits(k, ShortTable())| <= 1
  {
    var d := ShortTable();
    hide Hits, Signature, ShortTable, SignatureAt;
    HitsAreAll(k, d);
    ShortTableSignatures();
    var q := if k == Pcmp then 16 else 48;
    forall p | p in Hits(k, d) ensures (k == Pcmp || k == Mp) && p == q {
      ShortTableHit(k, p);
    }
    OneAtMost(Hits(k, d), q);
    if Hits(k, d) != [] {
      assert Hits(k, d)[0] in Hits(k, d);
    }
    assert k == Pcmp || k == Mp ==> q in Hits(k, d);
  }

  /** Neither header overlaps the other and both cover their checksums, but the length of the
      second stands among the bytes wanted zero behind the first, and the tool gives up. */
  lemma ShortTableGivesUp()
    ensures var d := ShortTable();
      && WellFormed(d) && Present(Pcmp, d) && Present(Mp, d) && Checked(Mp, d, At(Mp, d))
      && End(Pcmp, d) == At(Mp, d) && Fix(d) == GivenUp
  {
    var d := ShortTable();
    forall k ensures |Hits(k, d)| <= 1 && (Present(k, d) ==> Covered(k, d)) {
      ShortTableHits(k);
    }
    ShortTableHits(Pcmp);
    ShortTableHits(Mp);
    forall j, k | j != k && Present(j, d) && Present(k, d) ensures Apart(j, k, d) {
      ShortTableHits(j);
      ShortTableHits(k);
    }
    assert !Checked(Pcmp, d, 16);
    hide Hits, Length, Signature, ShortTable, Fix, Present, At;
    AllChecksumsHold(d);
  }

  // ---------------------------------------------------------------- the tool

  /** The headers of a kind up to the paragraph at `p`. */
  function HitsTo(k: Kind, d: seq<Byte>, p: nat): seq<nat> {
    HitsUpTo(k, d, p / 16)
  }

  lemma OneMore(k: Kind, d: Image, p: nat)
    requires OnParagraph(p)
    ensures OnParagraph(p + 16)
    ensures SignatureAt(k, d, p + 16) ==> HitsTo(k, d, p + 16) == HitsTo(k, d, p) + [p + 16]
    ensures !SignatureAt(k, d, p + 16) ==> HitsTo(k, d, p + 16) == HitsTo(k, d, p)
    ensures p + 16 < IMAGE_SIZE - 1 ==> p + 16 <= IMAGE_SIZE - 16
  {
    hide SignatureAt;
    var n := p / 16;
    assert (p + 16) / 16 == n + 1 && p + 16 == 16 * (n + 1);
  }

  lemma AllOfThem(k: Kind, d: Image, p: nat)
    requires OnParagraph(p) && IMAGE_SIZE - 17 <= p <= IMAGE_SIZE - 16
    ensures HitsTo(k, d, p) == Hits(k, d)
  {
    assert p / 16 == |d| / 16 - 1;
  }

  /** The next header of a kind behind `start` rounded up to a paragraph, or -1. */
  method GetOffset(k: Kind, data: array<Byte>, start: nat) returns (result: int)
    requires data.Length == IMAGE_SIZE
    ensures result == -1 && RoundUp(start) <= IMAGE_SIZE - 16 ==>
      HitsTo(k, data[..], RoundUp(start)) == Hits(k, data[..])
    ensures result != -1 ==>
      && RoundUp(start) < result <= IMAGE_SIZE - 16 && OnParagraph(result)
      && HitsTo(k, data[..], result) == HitsTo(k, data[..], RoundUp(start)) + [result]
  {
    ghost var d := data[..];
    ghost var first := RoundUp(start);
    var offset := RoundUp(start);
    hide *;
    while offset + 16 < IMAGE_SIZE - 1
      invariant first <= offset && OnParagraph(offset)
      invariant offset <= IMAGE_SIZE - 16 || offset == first
      invariant HitsTo(k, d, offset) == HitsTo(k, d, first)
      decreases IMAGE_SIZE - offset
    {
      OneMore(k, d, offset);
      offset := offset + 16;
      var found := MatchSignature(k, data, offset);
      if found {
        return offset;
      }
    }
    if offset <= IMAGE_SIZE - 16 {
      AllOfThem(k, d, offset);
    }
    result := -1;
  }

  method MatchSignature(k: Kind, data: array<Byte>, p: nat) returns (found: bool)
    requires p + 4 <= data.Length
    ensures found == SignatureAt(k, data[..], p)
  {
    var s := Signature(k);
    found := data[p] == s[0] && data[p + 1] == s[1] && data[p + 2] == s[2] && data[p + 3] == s[3];
    assert data[..][p..p + 4] == [data[p], data[p + 1], data[p + 2], data[p + 3]];
    assert s == [s[0], s[1], s[2], s[3]];
  }

  method GetLength(k: Kind, data: array<Byte>, p: nat) returns (len: nat)
    requires p + 16 <= data.Length
    ensures len == Length(k, data[..], p)
  {
    match k
    case Pci32 => len := 16 * (data[p + 9] as int);
    case Mp => len := 16 * (data[p + 8] as int);
    case Pcmp => len := (data[p + 4] as int) + 256 * (data[p + 5] as int);
    case Pir => len := (data[p + 6] as int) + 256 * (data[p + 7] as int);
    case Pnp => len := data[p + 5];
  }

  /** The byte that is the negated sum of a header without its checksum, in byte arithmetic. */
  method SumHeader(data: array<Byte>, p: nat, len: nat, c: nat) returns (value: Byte)
    requires p + len <= data.Length
    ensures value == Negated(SumWithout(data[..][p..p + len], c))
  {
    ghost var s := data[..][p..p + len];
    assert SumWithout(s[..0], c) == 0;
    hide SumWithout;
    var sum: Byte := 0;
    var i := 0;
    while i < len
      invariant 0 <= i <= len && sum == SumWithout(s[..i], c) % 256
    {
      OneByte(s, i, c);
      if i != c {
        AddByte(SumWithout(s[..i], c), s[i]);
        sum := (sum + data[p + i]) % 256;
      }
      i := i + 1;
    }
    assert s[..len] == s;
    value := Negated(sum);
  }

  lemma OneByte(s: seq<Byte>, i: nat, c: nat)
    requires i < |s|
    ensures SumWithout(s[..i + 1], c) == SumWithout(s[..i], c) + if i == c then 0 else s[i]
  {
    assert s[..i + 1][..i] == s[..i];
  }

  lemma AddByte(x: int, b: Byte)
    ensures (x % 256 + b) % 256 == (x + b) % 256
  {
  }

  method CalcValue(k: Kind, data: array<Byte>, p: nat) returns (ok: bool, value: Byte)
    requires data.Length == IMAGE_SIZE && p <= IMAGE_SIZE - 16
    ensures ok == Checked(k, data[..], p)
    ensures ok ==> p + Length(k, data[..], p) <= data.Length && value == NewValue(k, data[..], p)
  {
    hide Length, Negated, SumWithout, ChecksumAt;
    value := 0;
    if p + MinHeader(k) > IMAGE_SIZE - 1 {
      return false, value;
    }
    var len := GetLength(k, data, p);
    if p + len > IMAGE_SIZE - 1 {
      return false, value;
    }
    if k == Pcmp && (data[p + 40] != 0 || data[p + 41] != 0 || data[p + 42] != 0) {
      return false, value;
    }
    value := SumHeader(data, p, len, ChecksumAt(k));
    ok := true;
  }

  /** What the tool has read at a header that passed the checks. */
  predicate ReadAt(k: Kind, d: seq<Byte>, p: nat, cur: Byte, value: Byte) {
    && p + 16 <= |d| && Checked(k, d, p) && p + Length(k, d, p) <= |d| && p + ChecksumAt(k) < |d|
    && cur == d[p + ChecksumAt(k)] && value == NewValue(k, d, p)
  }

  predicate AllChecked(k: Kind, d: seq<Byte>, found: seq<nat>) {
    forall p :: p in found ==> p + 16 <= |d| && Checked(k, d, p)
  }

  method ReadHeader(k: Kind, data: array<Byte>, p: nat) returns (ok: bool, cur: Byte, value: Byte)
    requires data.Length == IMAGE_SIZE && p <= IMAGE_SIZE - 16
    ensures ok == Checked(k, data[..], p)
    ensures ok ==> ReadAt(k, data[..], p, cur, value)
  {
    cur, value := 0, 0;
    if p + ChecksumAt(k) > IMAGE_SIZE - 1 {
      return false, cur, value;
    }
    cur := data[p + ChecksumAt(k)];
    hide Checked, Length, NewValue, ChecksumAt;
    ok, value := CalcValue(k, data, p);
  }

  /** What has been read when the scan is at `offset`: the headers found so far, all of which
      passed, and the values read at the last. */
  ghost predicate Scanned(k: Kind, d: Image, found: seq<nat>, offset: nat, cur: Byte, calculated: Byte) {
    && found == HitsTo(k, d, offset) && AllChecked(k, d, found)
    && (found != [] ==> found[|found| - 1] == offset && ReadAt(k, d, offset, cur, calculated))
  }

  /** What the search for the next header has told. */
  ghost predicate NextIs(k: Kind, d: Image, found: seq<nat>, next: int) {
    && (next == -1 ==> found == Hits(k, d))
    && (next != -1 ==> next >= 0 && HitsTo(k, d, next) == found + [next])
  }

  lemma ScannedMore(k: Kind, d: Image, found: seq<nat>, offset: nat, cur: Byte, calculated: Byte)
    requires AllChecked(k, d, found) && NextIs(k, d, found, offset) && offset + 16 <= |d| && Checked(k, d, offset)
    requires ReadAt(k, d, offset, cur, calculated)
    ensures Scanned(k, d, found + [offset], offset, cur, calculated) && found + [offset] == HitsTo(k, d, offset)
  {
    OneMoreChecked(k, d, found, offset);
    hide Checked, ReadAt, HitsTo, AllChecked;
  }

  /** The search behind `offset`, which is a header or the start. */
  method FindNext(k: Kind, data: array<Byte>, offset: nat, ghost found: seq<nat>) returns (next: int)
    requires data.Length == IMAGE_SIZE && offset <= IMAGE_SIZE - 16 && OnParagraph(offset)
    requires found == HitsTo(k, data[..], offset)
    ensures NextIs(k, data[..], found, next)
    ensures next != -1 ==> offset < next <= IMAGE_SIZE - 16 && OnParagraph(next)
  {
    hide HitsTo, Hits, OnParagraph, RoundUp;
    RoundedUp(offset);
    next := GetOffset(k, data, offset);
  }

  /** The part of the pass about one kind of header; `ok` is false if the tool gives up. */
  method FixHeaders(k: Kind, data: array<Byte>) returns (ok: bool)
    requires data.Length == IMAGE_SIZE
    modifies data
    ensures ok == FixKind(k, old(data[..])).Done?
    ensures ok ==> data[..] == FixKind(k, old(data[..])).image
  {
    ghost var d: Image := data[..];
    var hits, offset := 0, 0;
    var cur, calculated: Byte := 0, 0;
    ghost var found: seq<nat> := [];
    NoHits(k, d, cur, calculated);
    hide *;
    var next := FindNext(k, data, offset, found);
    while next != -1
      invariant data[..] == d && |found| == hits && 0 <= offset <= |d| - 16
      invariant Scanned(k, d, found, offset, cur, calculated) && NextIs(k, d, found, next)
      invariant next != -1 ==> offset < next <= |d| - 16 && OnParagraph(next)
      decreases |d| - offset
    {
      ScannedAll(k, d, found, offset, cur, calculated);
      offset := next;
      var passed;
      NextIsHit(k, d, found, offset);
      passed, cur, calculated := ReadHeader(k, data, offset);
      if !passed {
        GivesUp(k, d, offset);
        return false;
      }
      ScannedMore(k, d, found, offset, cur, calculated);
      found := found + [offset];
      hits := hits + 1;
      next := FindNext(k, data, offset, found);
    }
    FixIs(k, d, found, offset, cur, calculated);
    if hits == 1 && cur != calculated {
      SetValue(k, data, offset, calculated);
    }
    ok := true;
  }

  method SetValue(k: Kind, data: array<Byte>, p: nat, value: Byte)
    requires p + ChecksumAt(k) < data.Length
    modifies data
    ensures data[..] == old(data[..])[p + ChecksumAt(k) := value]
  {
    data[p + ChecksumAt(k)] := value;
  }

  lemma NoHits(k: Kind, d: Image, cur: Byte, calculated: Byte)
    ensures HitsTo(k, d, 0) == [] && Scanned(k, d, [], 0, cur, calculated)
    ensures OnParagraph(0) && IMAGE_SIZE == |d|
  {
  }

  lemma OneMoreChecked(k: Kind, d: Image, found: seq<nat>, p: nat)
    requires AllChecked(k, d, found) && p + 16 <= |d| && Checked(k, d, p)
    ensures AllChecked(k, d, found + [p])
  {
    hide Checked;
  }

  lemma GivesUp(k: Kind, d: Image, p: nat)
    requires p in HitsTo(k, d, p) && OnParagraph(p) && p + 16 <= |d| && !Checked(k, d, p)
    ensures FixKind(k, d) == GivenUp
  {
    HitsAreInside(k, d, p / 16);
    HitsAreAll(k, d);
  }

  lemma ScannedAll(k: Kind, d: Image, found: seq<nat>, offset: nat, cur: Byte, calculated: Byte)
    requires Scanned(k, d, found, offset, cur, calculated)
    ensures AllChecked(k, d, found)
  {
  }

  lemma NextIsHit(k: Kind, d: Image, found: seq<nat>, next: nat)
    requires NextIs(k, d, found, next)
    ensures next in HitsTo(k, d, next)
  {
    hide HitsTo;
    assert (found + [next])[|found|] == next;
  }

  lemma FixIs(k: Kind, d: Image, found: seq<nat>, offset: nat, cur: Byte, calculated: Byte)
    requires NextIs(k, d, found, -1) && Scanned(k, d, found, offset, cur, calculated)
    ensures |found| != 1 ==> FixKind(k, d) == Done(d)
    ensures |found| == 1 ==>
      var p := offset + ChecksumAt(k);
      && p < |d| && FixKind(k, d) == Done(d[p := calculated]) && (cur == calculated ==> FixKind(k, d) == Done(d))
  {
    hide Checked, Length, NewValue, Hits, HitsTo, ChecksumAt;
    assert |found| == 1 ==> found == [offset];
  }

  method FixLastByte(data: array<Byte>)
    requires data.Length == IMAGE_SIZE
    modifies data
    ensures data[..] == FixImage(old(data[..]))
  {
    ghost var d: Image := data[..];
    var last := IMAGE_SIZE - 1;
    var value := SumHeader(data, 0, last, last);
    assert data[..][0..0 + last] == d[..last];
    assert FixImage(d) == d[last := value];
    hide *;
    if data[last] != value {
      data[last] := value;
    }
    assert data[..] == d[last := value];
  }

  /** The whole pass: the image that is written back, or nothing if the tool gives up. */
  method Pass(data: array<Byte>) returns (ok: bool)
    requires data.Length == IMAGE_SIZE
    modifies data
    ensures ok == Fix(old(data[..])).Done?
    ensures ok ==> data[..] == Fix(old(data[..])).image
  {
    ghost var d: Image := data[..];
    var i := 0;
    hide FixKind, FixImage;
    while i < 5
      invariant 0 <= i <= 5
      invariant FixKinds(d, i) == Done(data[..])
    {
      ghost var e: Image := data[..];
      GivesUpForGood(d, i + 1);
      ok := FixHeaders(KindAt(i), data);
      if !ok {
        return;
      }
      i := i + 1;
    }
    FixLastByte(data);
    ok := true;
  }

  lemma {:induction false} GivesUpForGood(d: Image, n: nat)
    requires n <= 5
    ensures FixKinds(d, n) == GivenUp ==> Fix(d) == GivenUp
    decreases 5 - n
  {
    hide FixKind;
    if n < 5 {
      GivesUpForGood(d, n + 1);
    }
  }
}
