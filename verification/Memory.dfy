/** Copying runs of elements into memory. */
module Memory {

  function Stored<T>(s: seq<T>, at: nat, run: seq<T>): (r: seq<T>)
    requires at + |run| <= |s|
    ensures |r| == |s|
  {
    s[..at] + run + s[at + |run|..]
  }

  lemma StoreOne<T>(s: seq<T>, at: nat, run: seq<T>, k: nat)
    requires at + |run| <= |s| && k < |run|
    ensures Stored(s, at, run[..k])[at + k := run[k]] == Stored(s, at, run[..k + 1])
  {
  }

  lemma StoreNothing<T>(s: seq<T>, at: nat)
    requires at <= |s|
    ensures Stored(s, at, []) == s
  {
  }

  /** Two runs stored one behind the other are one run. */
  lemma StoreOnward<T>(s: seq<T>, at: nat, a: seq<T>, b: seq<T>)
    requires at + |a| + |b| <= |s|
    ensures Stored(Stored(s, at, a), at + |a|, b) == Stored(s, at, a + b)
  {
  }

  lemma StoreSnoc<T>(s: seq<T>, at: nat, run: seq<T>, x: T)
    requires at + |run| < |s|
    ensures Stored(s, at, run)[at + |run| := x] == Stored(s, at, run + [x])
  {
  }

  lemma StoreAgain<T>(s: seq<T>, at: nat, run: seq<T>, i: nat, x: T)
    requires at + |run| <= |s| && i < |run|
    ensures Stored(s, at, run)[at + i := x] == Stored(s, at, run[i := x])
  {
  }

  lemma StoredThere<T>(s: seq<T>, at: nat, run: seq<T>)
    requires at + |run| <= |s|
    ensures Stored(s, at, run)[at..at + |run|] == run
  {
  }

  /** `memcpy` of a run to `at`. */
  method Store<T>(mem: array<T>, at: nat, run: seq<T>)
    requires at + |run| <= mem.Length
    modifies mem
    ensures mem[..] == Stored(old(mem[..]), at, run)
  {
    ghost var was := mem[..];
    StoreNothing(was, at);
    hide Stored;
    var k := 0;
    while k < |run|
      invariant k <= |run| && mem[..] == Stored(was, at, run[..k])
    {
      StoreOne(was, at, run, k);
      ghost var before := mem[..];
      mem[at + k] := run[k];
      assert mem[..] == before[at + k := run[k]];
      k := k + 1;
    }
    assert run[..k] == run;
  }

  lemma StoreBefore<T>(s: seq<T>, at: nat, run: seq<T>, k: nat)
    requires at + |run| <= |s| && k < |run|
    ensures Stored(s, at + k + 1, run[k + 1..])[at + k := run[k]] == Stored(s, at + k, run[k..])
  {
  }

  lemma Unstored<T>(s: seq<T>, at: nat, run: seq<T>, i: nat)
    requires at + |run| <= |s| && i < |s| && (i < at || at + |run| <= i)
    ensures Stored(s, at, run)[i] == s[i]
  {
  }

  method CopyOne<T>(mem: array<T>, to: nat, from: nat)
    requires to < mem.Length && from < mem.Length
    modifies mem
    ensures mem[..] == old(mem[..])[to := old(mem[..])[from]]
  {
    mem[to] := mem[from];
  }

  method MoveUp<T>(mem: array<T>, d: nat, s: nat, len: nat)
    requires d <= s && s + len <= mem.Length
    modifies mem
    ensures mem[..] == Stored(old(mem[..]), d, old(mem[..])[s..s + len])
  {
    ghost var was := mem[..];
    ghost var run := was[s..s + len];
    StoreNothing(was, d);
    hide Stored;
    var k := 0;
    while k < len
      invariant 0 <= k <= len && mem[..] == Stored(was, d, run[..k])
    {
      Unstored(was, d, run[..k], s + k);
      StoreOne(was, d, run, k);
      CopyOne(mem, d + k, s + k);
      k := k + 1;
    }
    assert run[..k] == run;
  }

  /** The memory when all but the first `k` elements of the run have been moved up. */
  ghost function MovedDownTo<T>(was: seq<T>, d: nat, s: nat, len: nat, k: nat): (r: seq<T>)
    requires s <= d && d + len <= |was| && k <= len
    ensures |r| == |was|
  {
    Stored(was, d + k, was[s..s + len][k..])
  }

  lemma MoveOne<T>(was: seq<T>, d: nat, s: nat, len: nat, k: nat)
    requires s <= d && d + len <= |was| && k < len
    ensures var now := MovedDownTo(was, d, s, len, k + 1);
      now[d + k := now[s + k]] == MovedDownTo(was, d, s, len, k)
  {
    var run := was[s..s + len];
    Unstored(was, d + k + 1, run[k + 1..], s + k);
    StoreBefore(was, d, run, k);
    hide Stored;
  }

  lemma MoveEnds<T>(was: seq<T>, d: nat, s: nat, len: nat)
    requires s <= d && d + len <= |was|
    ensures MovedDownTo(was, d, s, len, len) == was
    ensures MovedDownTo(was, d, s, len, 0) == Stored(was, d, was[s..s + len])
  {
  }

  method MoveDown<T>(mem: array<T>, d: nat, s: nat, len: nat)
    requires s <= d && d + len <= mem.Length
    modifies mem
    ensures mem[..] == Stored(old(mem[..]), d, old(mem[..])[s..s + len])
  {
    hide *;
    ghost var was := mem[..];
    MoveEnds(was, d, s, len);
    var k := len;
    while k > 0
      invariant 0 <= k <= len && mem[..] == MovedDownTo(was, d, s, len, k)
    {
      k := k - 1;
      MoveOne(was, d, s, len, k);
      CopyOne(mem, d + k, s + k);
    }
  }

  /** `memmove` inside one memory: the run arrives whole even where source and destination
      overlap. */
  method Memmove<T>(mem: array<T>, d: nat, s: nat, len: nat)
    requires d + len <= mem.Length && s + len <= mem.Length
    modifies mem
    ensures mem[..] == Stored(old(mem[..]), d, old(mem[..])[s..s + len])
  {
    if d <= s {
      MoveUp(mem, d, s, len);
    } else {
      MoveDown(mem, d, s, len);
    }
  }
}
