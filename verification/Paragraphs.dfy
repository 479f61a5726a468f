/** Addresses rounded to paragraphs of sixteen bytes. */
module Paragraphs {

  predicate OnParagraph(p: int) {
    p % 16 == 0
  }

  /** The next paragraph boundary: the low four bits are cleared after adding 15. */
  function RoundUp(p: nat): (r: nat)
    ensures OnParagraph(r) && r % 16 == 0 && p <= r < p + 16
  {
    (p + 0x0F) / 16 * 16
  }

  lemma RoundedUp(p: nat)
    requires OnParagraph(p)
    ensures RoundUp(p) == p
  {
  }
}
