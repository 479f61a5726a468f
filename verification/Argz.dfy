/** Vectors of strings that follow each other, each ended by a NUL: splitting a string into one,
    walking it, and joining it again. */
module Argz {
  import opened CStrings

  // ---------------------------------------------------------------- elements of a string

  /** The elements between the delimiters; there is always at least one. */
  function Split(s: string, d: char): (r: seq<string>)
    ensures |r| > 0
  {
    if s == [] then [[]]
    else
      var r := Split(s[..|s| - 1], d);
      var c := s[|s| - 1];
      if c == d then r + [[]] else r[..|r| - 1] + [r[|r| - 1] + [c]]
  }

  /** All elements but the last. */
  function Init(r: seq<string>): seq<string>
    requires |r| > 0
  {
    r[..|r| - 1]
  }

  function Final(r: seq<string>): string
    requires |r| > 0
  {
    r[|r| - 1]
  }

  function NonEmpty(r: seq<string>): (n: seq<string>)
    ensures [] !in n
  {
    if r == [] then []
    else NonEmpty(Init(r)) + if Final(r) == [] then [] else [Final(r)]
  }

  /** A delimiter at the start or two together: an element other than the last is empty. */
  predicate Folds(s: string, d: char) {
    (s != [] && s[0] == d) || exists i :: 0 < i < |s| && s[i] == d && s[i - 1] == d
  }

  // ---------------------------------------------------------------- the vector

  /** What is written for a string, before the final NUL: a delimiter becomes a NUL unless it is
      the first byte or follows another NUL. */
  function Folded(s: string, d: char): (r: string)
    ensures |r| <= |s|
  {
    if s == [] then []
    else
      var r := Folded(s[..|s| - 1], d);
      var c := s[|s| - 1];
      if c != d then r + [c]
      else if r != [] && r[|r| - 1] != '\0' then r + ['\0']
      else r
  }

  function Vector(s: string, d: char): string {
    Folded(s, d) + ['\0']
  }

  /** The NUL that ends the entry at `i`. */
  function EntryEnd(a: string, i: nat): (e: nat)
    requires i < |a| && a[|a| - 1] == '\0'
    ensures i <= e < |a| && a[e] == '\0' && '\0' !in a[i..e]
    decreases |a| - i
  {
    if a[i] == '\0' then i else EntryEnd(a, i + 1)
  }

  /** The entry behind the one at `entry`, or -1; the first entry if `entry` is -1. The empty
      vector has none. */
  function Next(a: string, entry: int): (n: int)
    requires a == [] || (-1 <= entry < |a| && a[|a| - 1] == '\0')
    ensures n == -1 || entry < n < |a|
  {
    if a == [] then -1
    else if entry == -1 then 0
    else
      var e := EntryEnd(a, entry);
      if e + 1 >= |a| then -1 else e + 1
  }

  /** The strings met by walking a vector from an entry on. */
  function Walk(a: string, entry: nat): seq<string>
    requires entry < |a| && a[|a| - 1] == '\0'
    decreases |a| - entry
  {
    var n := Next(a, entry);
    [a[entry..EntryEnd(a, entry)]] + if n == -1 then [] else Walk(a, n)
  }

  /** The vector with the NULs between its first byte and its last replaced. */
  function Stringified(a: string, sep: char): string {
    seq(|a|, i requires 0 <= i < |a| => if 0 < i < |a| - 1 && a[i] == '\0' then sep else a[i])
  }

  // ---------------------------------------------------------------- splitting

  /** The elements without the empty ones, except that the last stays. */
  function Kept(r: seq<string>): (k: seq<string>)
    requires |r| > 0
    ensures |k| > 0 && Final(k) == Final(r)
  {
    NonEmpty(Init(r)) + [Final(r)]
  }

  lemma KeptMore(r: seq<string>, c: char)
    requires |r| > 0
    ensures Kept(r + [[]]) == if Final(r) == [] then Kept(r) else Kept(r) + [[]]
    ensures Kept(Init(r) + [Final(r) + [c]]) == Init(Kept(r)) + [Final(r) + [c]]
  {
    assert Init(r + [[]]) == r;
    assert Init(Init(r) + [Final(r) + [c]]) == Init(r);
    assert Init(Kept(r)) == NonEmpty(Init(r));
  }

  /** The vector splits at its NULs into the elements of the string, except that empty elements
      other than the last are left out. */
  lemma {:induction false} FoldedSplits(s: CString, d: char)
    requires d != '\0'
    ensures Split(Folded(s, d), '\0') == Kept(Split(s, d))
  {
    hide Split, Kept, Init, Final;
    if s == [] {
      SplitNothing(d);
      SplitNothing('\0');
      KeptNothing();
    } else {
      var t, c := s[..|s| - 1], s[|s| - 1];
      assert s == t + [c];
      FoldedSplits(t, d);
      AppendSplits(t, c, d);
      FinalIsEmpty(Folded(t, d), '\0');
      AppendSplits(Folded(t, d), c, '\0');
      AppendSplits(Folded(t, d), '\0', '\0');
      KeptMore(Split(t, d), c);
    }
  }

  lemma KeptNothing()
    ensures Kept([[]]) == [[]]
  {
  }

  lemma AppendSplits(s: string, c: char, d: char)
    ensures var r := Split(s, d);
      Split(s + [c], d) == if c == d then r + [[]] else Init(r) + [Final(r) + [c]]
  {
    assert (s + [c])[..|s|] == s;
  }

  lemma FinalIsEmpty(s: string, d: char)
    ensures Final(Split(s, d)) == [] <==> s == [] || s[|s| - 1] == d
  {
  }

  lemma SplitNothing(d: char)
    ensures Split([], d) == [[]]
  {
  }

  lemma {:induction false} SplitAtDelimiter(x: string, y: string, d: char)
    ensures Split(x + [d] + y, d) == Split(x, d) + Split(y, d)
  {
    hide Split;
    if y == [] {
      assert x + [d] + y == x + [d];
      AppendSplits(x, d, d);
      SplitNothing(d);
    } else {
      var z, c := y[..|y| - 1], y[|y| - 1];
      SplitAtDelimiter(x, z, d);
      assert x + [d] + y == x + [d] + z + [c] && z + [c] == y;
      AppendSplits(x + [d] + z, c, d);
      AppendSplits(z, c, d);
    }
  }

  lemma {:induction false} NoDelimiter(x: string, d: char)
    requires d !in x
    ensures Split(x, d) == [x]
  {
    if x != [] {
      var t, c := x[..|x| - 1], x[|x| - 1];
      assert c in x && t + [c] == x;
      NoDelimiter(t, d);
    }
  }

  lemma {:induction false} WalkSplits(a: string, entry: nat)
    requires entry < |a| && a[|a| - 1] == '\0'
    ensures Walk(a, entry) == Split(a[entry..|a| - 1], '\0')
    decreases |a| - entry
  {
    hide Split, Walk, EntryEnd;
    var e := EntryEnd(a, entry);
    WalkIs(a, entry);
    NoDelimiter(a[entry..e], '\0');
    if e + 1 < |a| {
      WalkSplits(a, e + 1);
      assert a[entry..|a| - 1] == a[entry..e] + ['\0'] + a[e + 1..|a| - 1];
      SplitAtDelimiter(a[entry..e], a[e + 1..|a| - 1], '\0');
    }
  }

  lemma WalkIs(a: string, entry: nat)
    requires entry < |a| && a[|a| - 1] == '\0'
    ensures var e := EntryEnd(a, entry);
      Walk(a, entry) == if e + 1 < |a| then [a[entry..e]] + Walk(a, e + 1) else [a[entry..e]]
  {
    hide EntryEnd;
  }

  lemma FoldsMore(t: string, c: char, d: char)
    ensures Folds(t + [c], d) <==> Folds(t, d) || (c == d && (t == [] || t[|t| - 1] == d))
  {
    var s := t + [c];
    if Folds(t, d) && s[0] != d {
      var i :| 0 < i < |t| && t[i] == d && t[i - 1] == d;
      assert s[i] == d && s[i - 1] == d;
    }
    if c == d && t != [] && t[|t| - 1] == d {
      assert s[|t|] == d && s[|t| - 1] == d;
    }
    if Folds(s, d) && s[0] != d {
      var i :| 0 < i < |s| && s[i] == d && s[i - 1] == d;
      if i < |t| {
        assert t[i] == d && t[i - 1] == d;
      }
    }
  }

  lemma NothingFolds(d: char)
    ensures !Folds([], d)
  {
  }

  lemma {:induction false} EmptyElements(s: string, d: char)
    ensures [] in Init(Split(s, d)) <==> Folds(s, d)
  {
    hide Split, Folds;
    if s == [] {
      SplitNothing(d);
      NothingFolds(d);
    } else {
      var t, c := s[..|s| - 1], s[|s| - 1];
      EmptyElements(t, d);
      FoldsMore(t, c, d);
      assert s == t + [c];
      FinalIsEmpty(t, d);
      var r := Split(t, d);
      AppendSplits(t, c, d);
      assert Init(Split(s, d)) == if c == d then r else Init(r);
      assert r == Init(r) + [Final(r)];
    }
  }

  lemma {:induction false} NothingLeftOut(r: seq<string>)
    requires [] !in r
    ensures NonEmpty(r) == r
  {
    if r != [] {
      var before, last := Init(r), Final(r);
      assert r == before + [last] && last in r;
      assert forall s :: s in before ==> s in r;
      NothingLeftOut(before);
    }
  }

  /** Walking the vector made from a string meets its elements in order, except that empty ones
      other than the last are left out; so it meets exactly the elements of the string when
      and only when no delimiter comes first or follows another. */
  lemma WalkMeetsElements(s: CString, d: char)
    requires d != '\0'
    ensures var r := Split(s, d);
      && Walk(Vector(s, d), 0) == Kept(r)
      && (Walk(Vector(s, d), 0) == r <==> !Folds(s, d))
  {
    var r := Split(s, d);
    var a := Vector(s, d);
    WalkSplits(a, 0);
    assert a[0..|a| - 1] == Folded(s, d);
    FoldedSplits(s, d);
    EmptyElements(s, d);
    if !Folds(s, d) {
      NothingLeftOut(Init(r));
    }
    assert r == Init(r) + [Final(r)];
    if NonEmpty(Init(r)) + [Final(r)] == r {
      assert NonEmpty(Init(r)) == (NonEmpty(Init(r)) + [Final(r)])[..|r| - 1] == Init(r);
    }
  }

  // ---------------------------------------------------------------- joining again

  function Swapped(c: char, d: char): char {
    if c == d then '\0' else c
  }

  lemma {:induction false} FoldedIsSwapped(s: CString, d: char)
    ensures !Folds(s, d) ==> |Folded(s, d)| == |s| && forall i :: 0 <= i < |s| ==> Folded(s, d)[i] == Swapped(s[i], d)
    ensures Folds(s, d) ==> |Folded(s, d)| < |s|
  {
    if s != [] {
      var t, c := s[..|s| - 1], s[|s| - 1];
      FoldedIsSwapped(t, d);
      FoldsMore(t, c, d);
      assert s == t + [c];
      hide Folds;
    }
  }

  /** Joining the vector with the delimiter restores a string exactly when no delimiter of it
      comes first or follows another. */
  lemma JoinRestores(s: CString, d: char)
    requires d != '\0'
    ensures Stringified(Vector(s, d), d) == s + ['\0'] <==> !Folds(s, d)
  {
    FoldedIsSwapped(s, d);
    var a := Vector(s, d);
    var t := Stringified(a, d);
    if !Folds(s, d) {
      forall i | 0 <= i < |s| ensures t[i] == s[i] {
        assert a[i] == Swapped(s[i], d);
      }
    }
  }

  // ---------------------------------------------------------------- the functions

  method ArgzCreateSep(str: CString, delim: char) returns (argz: array<char>, len: nat)
    requires delim != '\0'
    ensures fresh(argz) && len <= argz.Length && argz[..len] == Vector(str, delim)
  {
    hide Folded;
    FoldedNothing(delim);
    len := 1 + |str|;
    argz := new char[len];
    var p, q := 0, 0;
    while At(str, p) != '\0'
      invariant p <= |str| && q <= p && len == 1 + |str| - p + q
      invariant argz[..q] == Folded(str[..p], delim)
      decreases |str| - p
    {
      FoldedMore(str, p, delim);
      if str[p] == delim {
        if q > 0 && argz[q - 1] != '\0' {
          PutChar(argz, q, '\0');
          q := q + 1;
        } else {
          len := len - 1;
        }
      } else {
        PutChar(argz, q, str[p]);
        q := q + 1;
      }
      p := p + 1;
    }
    assert str[..p] == str;
    PutChar(argz, q, '\0');
    assert Vector(str, delim) == Folded(str, delim) + ['\0'];
  }

  lemma FoldedNothing(d: char)
    ensures Folded([], d) == []
  {
  }

  lemma FoldedMore(s: string, p: nat, d: char)
    requires p < |s|
    ensures var r := Folded(s[..p], d);
      Folded(s[..p + 1], d) ==
        if s[p] != d then r + [s[p]] else if r != [] && r[|r| - 1] != '\0' then r + ['\0'] else r
  {
    assert s[..p + 1][..p] == s[..p];
  }

  /** Without memory there is no entry, whatever `entry` is. */
  method ArgzNext(argz: array?<char>, len: nat, entry: int) returns (next: int)
    requires if argz == null then len == 0
             else 0 < len <= argz.Length && argz[len - 1] == '\0' && -1 <= entry < len
    ensures next == Next(if argz == null then [] else argz[..len], entry)
  {
    if argz == null {
      return -1;
    }
    if entry == -1 {
      return 0;
    }
    var e := entry;
    ghost var a := argz[..len];
    while argz[e] != '\0'
      invariant entry <= e < len && EntryEnd(a, e) == EntryEnd(a, entry)
      decreases len - e
    {
      e := e + 1;
    }
    e := e + 1;
    next := if e >= len then -1 else e;
  }

  /** The usual walk: every entry from the first on. */
  method Collect(argz: array<char>, len: nat) returns (entries: seq<string>)
    requires 0 < len <= argz.Length && argz[len - 1] == '\0'
    ensures entries == Walk(argz[..len], 0)
  {
    ghost var a := argz[..len];
    hide Next, EntryEnd;
    entries := [];
    var entry := ArgzNext(argz, len, -1);
    FirstIs(a);
    while entry != -1
      invariant -1 <= entry < len
      invariant entry == -1 ==> Walk(a, 0) == entries
      invariant entry != -1 ==> Walk(a, 0) == entries + Walk(a, entry)
      decreases if entry == -1 then 0 else len - entry
    {
      var next := ArgzNext(argz, len, entry);
      var text := argz[..len][entry..EntryEnd(argz[..len], entry)];
      WalkOn(a, entry, entries);
      entries := entries + [text];
      entry := next;
    }
  }

  lemma FirstIs(a: string)
    requires a != [] && a[|a| - 1] == '\0'
    ensures Next(a, -1) == 0 && Walk(a, 0) == [] + Walk(a, 0)
  {
  }

  lemma WalkOn(a: string, entry: nat, before: seq<string>)
    requires entry < |a| && a[|a| - 1] == '\0'
    ensures before + Walk(a, entry)
      == (before + [a[entry..EntryEnd(a, entry)]]) + if Next(a, entry) == -1 then [] else Walk(a, Next(a, entry))
  {
    hide Next, EntryEnd;
  }

  /** The numbers of the counter that holds a length. */
  const SIZES: nat := 0x1_0000_0000_0000_0000

  /** Joins a vector in place. The counter is unsigned, so a vector of fewer than two bytes makes
      it wrap, and then the first access is outside: `inside` says whether that happens. */
  method ArgzStringify(argz: array<char>, len: nat, sep: char) returns (inside: bool)
    requires len <= argz.Length < SIZES / 2
    modifies argz
    ensures inside <==> sep == '\0' || len >= 2
    ensures argz[..len] == if inside && sep != '\0' then Stringified(old(argz[..len]), sep) else old(argz[..len])
    ensures argz[len..] == old(argz[len..])
  {
    if sep == '\0' {
      return true;
    }
    var n := if len == 0 then SIZES - 1 else len - 1;
    n := if n == 0 then SIZES - 1 else n - 1;
    if n >= argz.Length {
      return false;
    }
    while n > 0
      invariant 0 <= n <= len - 2
      invariant forall i :: 0 <= i <= n || len - 1 <= i < argz.Length ==> argz[i] == old(argz[i])
      invariant forall i :: n < i < len - 1 ==> argz[i] == if old(argz[i]) == '\0' then sep else old(argz[i])
    {
      if argz[n] == '\0' {
        argz[n] := sep;
      }
      n := n - 1;
    }
    assert argz[..len] == Stringified(old(argz[..len]), sep);
    inside := true;
  }
}
