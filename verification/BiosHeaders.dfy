/** The checksum pass told by the bytes of an image: what each kind of header looks like and what
    has become of it. */
module BiosHeaders {
  import opened TableBytes
  import opened Biossums

  predicate IsParagraph(p: nat) {
    16 <= p <= 0xfff0 && p % 16 == 0
  }

  lemma OnlyHit(h: seq<nat>, p: nat)
    requires p in h && |h| <= 1
    ensures h == [p]
  {
  }

  /** In a well-formed image a signature at a paragraph is the one header of its kind. */
  lemma IsTheHeader(k: Kind, d: Image, p: nat)
    requires WellFormed(d) && IsParagraph(p) && SignatureAt(k, d, p)
    ensures Present(k, d) && At(k, d) == p
  {
    HitsAreAll(k, d);
    OnlyHit(Hits(k, d), p);
  }

  lemma IsAtParagraph(k: Kind, d: Image)
    requires Present(k, d)
    ensures IsParagraph(At(k, d)) && SignatureAt(k, d, At(k, d))
  {
    HitsAreAll(k, d);
  }

  lemma KindsAreApart(d: Image, k: Kind, n: nat, p: nat)
    requires WellFormed(d) && Present(k, d) && At(k, d) <= p < End(k, d) && p != At(k, d) + ChecksumAt(k)
    ensures !IsChecksum(d, n, p)
  {
    ChecksumsAreApart(d, n, k, p);
  }

  /** The bytes from `p` on sum to zero after the pass, and of them only the one at `c` may have
      changed. */
  predicate IsSettled(d: Image, f: Image, p: nat, len: nat, c: nat) {
    && p + len <= 0xffff && c < len
    && Sum(f[p..p + len]) % 256 == 0
    && forall q :: p <= q < p + len && q != p + c ==> f[q] == d[q]
  }

  lemma OneHeaderHolds(k: Kind, d: Image)
    requires WellFormed(d) && Fix(d).Done? && Present(k, d)
    ensures Checked(k, d, At(k, d)) && SumsToZero(k, d, Fix(d).image)
    ensures forall q :: 0 <= q < 0xffff && !IsChecksum(d, 5, q) ==> Fix(d).image[q] == d[q]
  {
    hide WellFormed, Fix, Checked, SumsToZero, IsChecksum, At, Present;
    AllChecksumsHold(d);
  }

  lemma SettledIs(k: Kind, d: Image, f: Image)
    requires Present(k, d) && SumsToZero(k, d, f) && Covered(k, d) && Checked(k, d, At(k, d))
    requires forall q :: At(k, d) <= q < End(k, d) && q != At(k, d) + ChecksumAt(k) ==> f[q] == d[q]
    ensures IsSettled(d, f, At(k, d), Length(k, d, At(k, d)), ChecksumAt(k))
  {
    hide Present, At, Length, ChecksumAt, Sum;
  }

  lemma HeaderIsSettled(k: Kind, d: Image, p: nat)
    requires WellFormed(d) && Fix(d).Done? && IsParagraph(p) && SignatureAt(k, d, p)
    ensures p + 16 <= |d| && IsSettled(d, Fix(d).image, p, Length(k, d, p), ChecksumAt(k))
  {
    hide *;
    IsTheHeader(k, d, p);
    IsCovered(d, k);
    OneHeaderHolds(k, d);
    EndIsInside(k, d);
    var f := Fix(d).image;
    forall q | At(k, d) <= q < End(k, d) && q != At(k, d) + ChecksumAt(k) ensures f[q] == d[q] {
      KindsAreApart(d, k, 5, q);
    }
    SettledIs(k, d, f);
  }

  lemma EndIsInside(k: Kind, d: Image)
    requires Present(k, d) && Checked(k, d, At(k, d))
    ensures End(k, d) <= 0xffff
  {
    hide At, Length, Present;
  }

  lemma SignaturesAre(d: Image, p: nat)
    requires IsParagraph(p)
    ensures SignatureAt(Pci32, d, p) <==> d[p..p + 4] == [0x5f, 0x33, 0x32, 0x5f]
    ensures SignatureAt(Mp, d, p) <==> d[p..p + 4] == [0x5f, 0x4d, 0x50, 0x5f]
    ensures SignatureAt(Pcmp, d, p) <==> d[p..p + 4] == [0x50, 0x43, 0x4d, 0x50]
    ensures SignatureAt(Pir, d, p) <==> d[p..p + 4] == [0x24, 0x50, 0x49, 0x52]
    ensures SignatureAt(Pnp, d, p) <==> d[p..p + 4] == [0x24, 0x50, 0x6e, 0x50]
  {
    SignatureTexts();
    hide Text;
  }

  lemma SignatureTexts()
    ensures Text("_32_") == [0x5f, 0x33, 0x32, 0x5f] && Text("_MP_") == [0x5f, 0x4d, 0x50, 0x5f]
    ensures Text("PCMP") == [0x50, 0x43, 0x4d, 0x50] && Text("$PIR") == [0x24, 0x50, 0x49, 0x52]
    ensures Text("$PnP") == [0x24, 0x50, 0x6e, 0x50]
  {
  }

  /** What the pass leaves at a paragraph of a well-formed image, by the four letters there: a PCI
      entry whose byte 9 and an MP pointer whose byte 8 count paragraphs, with the checksum in byte
      10; an MP table and an interrupt routing table with a two-byte length, and the checksum in
      byte 7 and in byte 31; and a plug-and-play header with its length in byte 5 and the checksum
      in byte 8. */
  lemma HeadersAreSettled(d: Image, p: nat)
    requires WellFormed(d) && Fix(d).Done? && IsParagraph(p)
    ensures var f := Fix(d).image;
      && (d[p..p + 4] == [0x5f, 0x33, 0x32, 0x5f] ==> IsSettled(d, f, p, 16 * (d[p + 9] as int), 10))
      && (d[p..p + 4] == [0x5f, 0x4d, 0x50, 0x5f] ==> IsSettled(d, f, p, 16 * (d[p + 8] as int), 10))
      && (d[p..p + 4] == [0x50, 0x43, 0x4d, 0x50] ==> IsSettled(d, f, p, Word16At(d, p + 4), 7))
      && (d[p..p + 4] == [0x24, 0x50, 0x49, 0x52] ==> IsSettled(d, f, p, Word16At(d, p + 6), 31))
      && (d[p..p + 4] == [0x24, 0x50, 0x6e, 0x50] ==> IsSettled(d, f, p, d[p + 5], 8))
  {
    hide WellFormed, Fix, IsSettled, SignatureAt;
    SignaturesAre(d, p);
    if SignatureAt(Pci32, d, p) { HeaderIsSettled(Pci32, d, p); }
    if SignatureAt(Mp, d, p) { HeaderIsSettled(Mp, d, p); }
    if SignatureAt(Pcmp, d, p) { HeaderIsSettled(Pcmp, d, p); }
    if SignatureAt(Pir, d, p) { HeaderIsSettled(Pir, d, p); }
    if SignatureAt(Pnp, d, p) { HeaderIsSettled(Pnp, d, p); }
  }

  /** What the tool wants of the bytes at a paragraph: as much room as a header of that kind has at
      least, and room for the length it gives; and of an MP table that it is not extended. */
  predicate IsAcceptable(d: Image, p: nat)
    requires IsParagraph(p)
  {
    && (d[p..p + 4] == [0x5f, 0x33, 0x32, 0x5f] ==> p + 16 <= 0xffff && p + 16 * (d[p + 9] as int) <= 0xffff)
    && (d[p..p + 4] == [0x5f, 0x4d, 0x50, 0x5f] ==> p + 16 <= 0xffff && p + 16 * (d[p + 8] as int) <= 0xffff)
    && (d[p..p + 4] == [0x50, 0x43, 0x4d, 0x50] ==>
         p + 42 <= 0xffff && p + Word16At(d, p + 4) <= 0xffff && d[p + 40] == d[p + 41] == d[p + 42] == 0)
    && (d[p..p + 4] == [0x24, 0x50, 0x49, 0x52] ==> p + 32 <= 0xffff && p + Word16At(d, p + 6) <= 0xffff)
    && (d[p..p + 4] == [0x24, 0x50, 0x6e, 0x50] ==> p + 32 <= 0xffff && p + d[p + 5] <= 0xffff)
  }

  lemma ChecksAre(d: Image, p: nat)
    requires IsParagraph(p)
    ensures IsAcceptable(d, p) <==> forall k :: SignatureAt(k, d, p) ==> Checked(k, d, p)
  {
    hide SignatureAt;
    SignaturesAre(d, p);
    if IsAcceptable(d, p) {
      forall k | SignatureAt(k, d, p) ensures Checked(k, d, p) {
        match k case Pci32 => case Mp => case Pcmp => case Pir => case Pnp =>
      }
    }
  }

  /** The tool finishes on a well-formed image exactly if every paragraph is acceptable. */
  lemma FinishesWhenAcceptable(d: Image)
    requires WellFormed(d)
    ensures Fix(d).Done? <==> forall p :: IsParagraph(p) ==> IsAcceptable(d, p)
  {
    hide WellFormed, Fix, Checked, SignatureAt, IsAcceptable, Present, At;
    AllChecksumsHold(d);
    if Fix(d).Done? {
      forall p | IsParagraph(p) ensures IsAcceptable(d, p) {
        ChecksAre(d, p);
        forall k | SignatureAt(k, d, p) ensures Checked(k, d, p) {
          IsTheHeader(k, d, p);
        }
      }
    } else {
      var k :| Present(k, d) && !Checked(k, d, At(k, d));
      IsAtParagraph(k, d);
      ChecksAre(d, At(k, d));
    }
  }

  // ---------------------------------------------------------------- images of any form

  /** The checksum byte of a kind that occurs once. */
  predicate IsOnlyChecksum(k: Kind, d: Image, q: nat) {
    |Hits(k, d)| == 1 && q == Hits(k, d)[0] + ChecksumAt(k)
  }

  lemma KindTouches(k: Kind, d: Image, q: nat)
    requires FixKind(k, d).Done? && q < |d| && !IsOnlyChecksum(k, d, q)
    ensures FixKind(k, d).image[q] == d[q]
  {
    hide Hits, Checked, NewValue, ChecksumAt;
  }

  lemma {:induction false} KindsTouch(d: Image, n: nat, q: nat)
    requires n <= 5 && FixKinds(d, n).Done? && q < |d| && forall k :: !IsOnlyChecksum(k, d, q)
    ensures FixKinds(d, n).image[q] == d[q]
    ensures forall k :: Hits(k, FixKinds(d, n).image) == Hits(k, d)
  {
    hide Hits, FixKind, KindAt;
    if n > 0 {
      KindsTouch(d, n - 1, q);
      var e, k := FixKinds(d, n - 1).image, KindAt(n - 1);
      SameOnlyChecksum(k, d, e, q);
      KindTouches(k, e, q);
      forall j ensures Hits(j, FixKind(k, e).image) == Hits(j, d) {
        FixKeepsHits(k, e, j);
      }
    }
  }

  lemma SameOnlyChecksum(k: Kind, d: Image, e: Image, q: nat)
    requires Hits(k, e) == Hits(k, d)
    ensures IsOnlyChecksum(k, e, q) == IsOnlyChecksum(k, d, q)
  {
    hide Hits;
  }

  /** On every image on which it finishes, the tool makes the whole image sum to zero, and every
      other byte it changes is the checksum of a kind that occurs exactly once: a kind that occurs
      twice is left alone. */
  lemma OnlySingleHeadersChange(d: Image, q: nat)
    requires Fix(d).Done?
    ensures Sum(Fix(d).image) % 256 == 0
    ensures q < 0xffff && Fix(d).image[q] != d[q] ==> exists k :: IsOnlyChecksum(k, d, q)
  {
    hide FixKinds, IsOnlyChecksum, Sum, Negated;
    ImageSums(FixKinds(d, 5).image);
    if q < 0xffff && forall k :: !IsOnlyChecksum(k, d, q) {
      KindsTouch(d, 5, q);
    }
  }
}
