/** Bytes of firmware tables: sums, checksums, little-endian fields, and the writer that
    advances through memory. */
module TableBytes {
  import opened Memory

  type Byte = x: int | 0 <= x < 256

  function Sum(s: seq<Byte>): nat {
    if s == [] then 0 else Sum(s[..|s| - 1]) + s[|s| - 1]
  }

  /** Two's complement negation, cut to a byte. */
  function Negated(x: int): Byte {
    if x % 256 == 0 then 0 else 256 - x % 256
  }

  function Low(val: int): Byte {
    val % 256
  }

  function Le16(val: int): seq<Byte> {
    [Low(val), Low(val / 256)]
  }

  function Le32(val: int): seq<Byte> {
    [Low(val), Low(val / 256), Low(val / 0x1_0000), Low(val / 0x100_0000)]
  }

  /** A text of characters that fit a byte. */
  function Text(s: string): (r: seq<Byte>)
    ensures |r| == |s|
  {
    seq(|s|, i requires 0 <= i < |s| => Low(s[i] as int))
  }

  function Word16At(s: seq<Byte>, i: nat): nat
    requires i + 2 <= |s|
  {
    (s[i] as int) + 256 * (s[i + 1] as int)
  }

  function Word32At(s: seq<Byte>, i: nat): nat
    requires i + 4 <= |s|
  {
    Word16At(s, i) + 0x1_0000 * Word16At(s, i + 2)
  }

  lemma Le32ReadsBack(v: nat)
    requires v < 0x1_0000_0000
    ensures v == Low(v) + 256 * Low(v / 256) + 0x1_0000 * (Low(v / 0x1_0000) + 256 * Low(v / 0x100_0000))
  {
  }

  lemma SubSlice<T>(s: seq<T>, from: nat, to: nat, i: nat, j: nat)
    requires from <= to <= |s| && i <= j <= to - from
    ensures s[from..to][i..j] == s[from + i..from + j]
  {
    var a := s[from..to];
    forall k | 0 <= k < j - i ensures a[i..j][k] == s[from + i..from + j][k] {
      assert a[i..j][k] == a[i + k] == s[from + (i + k)];
    }
  }

  /** The fields read back to the low bits of the value. */
  lemma Le32Is(v: int)
    ensures Word32At(Le32(v), 0) == v % 0x1_0000_0000
  {
    var a := v / 256;
    var b := a / 256;
    assert v / 0x1_0000 == b && v / 0x100_0000 == b / 256;
  }

  lemma Le16Is(v: int)
    ensures Word16At(Le16(v), 0) == v % 0x1_0000
  {
  }

  lemma {:induction false} SumUpdate(s: seq<Byte>, i: nat, v: Byte)
    requires i < |s|
    ensures Sum(s[i := v]) == Sum(s) - s[i] + v
    decreases |s|
  {
    var n := |s| - 1;
    if i == n {
      assert s[i := v][..n] == s[..n];
    } else {
      assert s[i := v][..n] == s[..n][i := v];
      SumUpdate(s[..n], i, v);
    }
  }

  /** Storing the negated sum makes a table sum to zero exactly when its checksum byte was zero
      while it was summed. */
  lemma ChecksumZeroes(s: seq<Byte>, i: nat)
    requires i < |s|
    ensures Sum(s[i := Negated(Sum(s))]) % 256 == 0 <==> s[i] == 0
  {
    SumUpdate(s, i, Negated(Sum(s)));
    NegationCancels(Sum(s), s[i]);
  }

  lemma NegationCancels(sum: int, was: Byte)
    ensures (sum - was + Negated(sum)) % 256 == 0 <==> was == 0
  {
    var q := sum / 256;
    assert sum == 256 * q + sum % 256;
    if sum % 256 == 0 {
      assert sum - was + Negated(sum) == 256 * q - was;
    } else {
      assert sum - was + Negated(sum) == 256 * (q + 1) - was;
    }
  }

  /** The cut negation of a cut sum is the checksum. */
  lemma LowOfNegative(sum: int)
    ensures Low(-(sum % 256)) == Negated(sum)
  {
  }

  method SumRange(mem: array<Byte>, from: nat, to: nat) returns (sum: int)
    requires from <= to <= mem.Length
    ensures sum == Sum(mem[from..to])
  {
    sum := 0;
    var i := from;
    while i < to
      invariant from <= i <= to && sum == Sum(mem[from..i])
    {
      assert mem[from..i + 1][..i - from] == mem[from..i];
      sum := sum + mem[i];
      i := i + 1;
    }
  }

  /** Stores the negated sum of a table that stands between other bytes in its byte `at`. */
  method StoreSum(mem: array<Byte>, from: nat, to: nat, at: nat,
                  ghost before: seq<Byte>, ghost table: seq<Byte>, ghost after: seq<Byte>)
    requires mem[..] == before + table + after && |before| == from <= at < to == from + |table|
    modifies mem
    ensures mem[..] == before + table[at - from := Negated(Sum(table))] + after
  {
    assert mem[from..to] == table;
    var sum := SumRange(mem, from, to);
    mem[at] := Negated(sum);
  }

  /** A pointer advancing through memory. What has been written from `base` on is the output,
      and the rest of the memory is as it was. */
  class Writer {
    const mem: array<Byte>
    const base: nat
    var q: nat
    ghost const was: seq<Byte>
    ghost var out: seq<Byte>

    ghost predicate Valid()
      reads this, mem
    {
      && |was| == mem.Length && q == base + |out| <= mem.Length
      && mem[..] == Stored(was, base, out)
    }

    constructor (mem: array<Byte>, base: nat)
      requires base <= mem.Length
      ensures Valid() && this.mem == mem && this.base == base && q == base && out == [] && was == mem[..]
    {
      this.mem, this.base, q := mem, base, base;
      was, out := mem[..], [];
      new;
      StoreNothing(was, base);
    }

    method Putb(val: int)
      requires Valid() && q < mem.Length
      modifies this, mem
      ensures Valid() && out == old(out) + [Low(val)]
    {
      hide Stored, Low;
      StoreSnoc(was, base, out, Low(val));
      ghost var before := mem[..];
      mem[q] := Low(val);
      assert mem[..] == before[q := Low(val)];
      q := q + 1;
      out := out + [Low(val)];
    }

    /** A run of `putb`, `putle16`, `putle32` and `putstr` calls. */
    method Puts(bytes: seq<Byte>)
      requires Valid() && q + |bytes| <= mem.Length
      modifies this, mem
      ensures Valid() && out == old(out) + bytes
    {
      hide Stored;
      var k := 0;
      while k < |bytes|
        invariant k <= |bytes| && Valid() && out == old(out) + bytes[..k]
      {
        Putb(bytes[k]);
        k := k + 1;
      }
    }

    /** Overwrites a byte already written. */
    method Patch(i: nat, val: int)
      requires Valid() && base + i < q
      modifies this`out, mem
      ensures Valid() && out == old(out)[i := Low(val)]
    {
      hide Stored, Low;
      StoreAgain(was, base, out, i, Low(val));
      ghost var before := mem[..];
      mem[base + i] := Low(val);
      assert mem[..] == before[base + i := Low(val)];
      out := out[i := Low(val)];
    }

    method Checksum() returns (sum: int)
      requires Valid()
      ensures sum == Sum(out)
    {
      StoredThere(was, base, out);
      sum := SumRange(mem, base, q);
      assert mem[base..q] == mem[..][base..q];
    }

    /** Patches a byte with the negated sum of the whole output. */
    method PatchSum(i: nat)
      requires Valid() && base + i < q
      modifies this`out, mem
      ensures Valid() && out == old(out)[i := Negated(Sum(old(out)))]
    {
      hide Stored, Low, Negated, Sum;
      var sum := Checksum();
      LowOfNegative(sum);
      Patch(i, -(sum % 256));
    }
  }

  lemma WrittenIs(w: Writer)
    requires w.Valid()
    ensures w.base + |w.out| == w.q <= w.mem.Length == |w.was| && w.mem[..] == Stored(w.was, w.base, w.out)
  {
  }
}
