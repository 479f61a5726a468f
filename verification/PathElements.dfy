/** Which directories a canonical path names: those of the path it was made from, in order, each
    with its components. */
module PathElements {
  import opened CStrings
  import opened Argz
  import opened CanonicalPath

  /** An element with each run of slashes cut to one, and with none at its end unless an ordinary
      character is next. */
  function Squeezed(e: string, next: char): string {
    if e == [] then []
    else
      var c := e[|e| - 1];
      Squeezed(e[..|e| - 1], c) + if c != '/' then [c] else if Ordinary(next) then "/" else ""
  }

  /** The elements so squeezed, those without ordinary characters left out. */
  function Directories(r: seq<string>): seq<string> {
    if r == [] then []
    else
      var e := Squeezed(Final(r), '\0');
      Directories(Init(r)) + if e == [] then [] else [e]
  }

  lemma SqueezedMore(e: string, c: char, next: char)
    ensures Squeezed(e + [c], next) == Squeezed(e, c) + if c != '/' then [c] else if Ordinary(next) then "/" else ""
    ensures Squeezed([], next) == []
  {
    assert (e + [c])[..|e|] == e;
  }

  lemma NextDecides(e: string, a: char, b: char)
    requires Ordinary(a) == Ordinary(b)
    ensures Squeezed(e, a) == Squeezed(e, b)
  {
  }

  lemma DirectoriesMore(r: seq<string>, e: string)
    ensures Directories(r + [e]) == Directories(r) + if Squeezed(e, '\0') == [] then [] else [Squeezed(e, '\0')]
  {
    assert Init(r + [e]) == r;
  }

  lemma NonEmptyMore(r: seq<string>, e: string)
    ensures NonEmpty(r + [e]) == NonEmpty(r) + if e == [] then [] else [e]
  {
    assert Init(r + [e]) == r;
  }

  lemma NonEmptyIs(r: seq<string>)
    requires |r| > 0
    ensures NonEmpty(r) == NonEmpty(Init(r)) + if Final(r) == [] then [] else [Final(r)]
  {
  }

  lemma SqueezedAtEnd(c: char)
    ensures !Ordinary(':') && !Ordinary('\0') && !Ordinary('/')
    ensures c != ':' && c != '/' && c != '\0' ==> Ordinary(c)
  {
  }

  // ---------------------------------------------------------------- the elements of the canonical path

  /** What has been copied for the first n characters names the directories of the elements
      completed and what the last one has so far. */
  ghost predicate NamesSoFar(path: CString, n: nat)
    requires n <= |path|
  {
    var r, last := Split(path[..n], ':'), Squeezed(Final(Split(path[..n], ':')), At(path, n));
    && NonEmpty(Split(Canon(path, n), ':')) == Directories(Init(r)) + (if last == [] then [] else [last])
    && (At(path, n) != ':' && At(path, n) != '\0' ==> Final(Split(Canon(path, n), ':')) == last)
    && (Canon(path, n) == [] ==> last == [])
  }

  lemma NoneSoFar(path: CString)
    ensures NamesSoFar(path, 0)
  {
    SplitNothing(':');
    assert path[..0] == [];
    assert Init([[]]) == [] && Squeezed([], At(path, 0)) == [];
    assert NonEmpty([[]]) == [];
  }

  /** A separator ends an element, whether it is copied or not. */
  lemma SeparatorNames(p: string, r: string, next: char, copied: bool)
    requires var e := Squeezed(Final(Split(p, ':')), ':');
      NonEmpty(Split(r, ':')) == Directories(Init(Split(p, ':'))) + (if e == [] then [] else [e])
    ensures var q := Split(p + [':'], ':');
      && Final(q) == [] && Squeezed(Final(q), next) == []
      && NonEmpty(Split(if copied then r + [':'] else r, ':')) == Directories(Init(q)) + []
    ensures copied ==> Final(Split(r + [':'], ':')) == []
    ensures r == [] ==> Final(Split(r, ':')) == []
  {
    hide Split, NonEmpty, Directories, Squeezed, Ordinary;
    AppendSplits(p, ':', ':');
    AppendSplits(r, ':', ':');
    SplitNothing(':');
    SqueezedAtEnd(':');
    SqueezedMore([], ':', next);
    NextDecides(Final(Split(p, ':')), ':', '\0');
    var t := Split(p, ':');
    assert Init(t + [[]]) == t && t == Init(t) + [Final(t)];
    DirectoriesMore(Init(t), Final(t));
    NonEmptyMore(Split(r, ':'), []);
  }

  lemma SameBefore<T>(a: seq<T>, b: seq<T>, x: seq<T>)
    requires a + x == b + x
    ensures a == b
  {
    assert |a + x| == |b + x|;
    assert a == (a + x)[..|a|] && b == (b + x)[..|b|];
  }

  /** Any other character goes on with the last element. */
  lemma CharacterNames(p: string, r: string, c: char, piece: string, next: char)
    requires c != ':' && piece == if c != '/' then [c] else if Ordinary(next) then "/" else ""
    requires var e := Squeezed(Final(Split(p, ':')), c);
      && NonEmpty(Split(r, ':')) == Directories(Init(Split(p, ':'))) + (if e == [] then [] else [e])
      && Final(Split(r, ':')) == e
    ensures var q := Split(p + [c], ':');
      var e := Squeezed(Final(q), next);
      && NonEmpty(Split(r + piece, ':')) == Directories(Init(q)) + (if e == [] then [] else [e])
      && Final(Split(r + piece, ':')) == e
  {
    hide Split, NonEmpty, Directories, Squeezed, Ordinary;
    AppendSplits(p, c, ':');
    var t, s := Split(p, ':'), Split(r, ':');
    SqueezedMore(Final(t), c, next);
    assert Init(Init(t) + [Final(t) + [c]]) == Init(t);
    NonEmptyIs(s);
    SameBefore(NonEmpty(Init(s)), Directories(Init(t)), if Final(s) == [] then [] else [Final(s)]);
    if piece != [] {
      AppendSplits(r, piece[0], ':');
      assert piece == [piece[0]];
      assert Init(Init(s) + [Final(s) + piece]) == Init(s);
      NonEmptyIs(Split(r + piece, ':'));
    } else {
      assert r + piece == r && Squeezed(Final(t), c) + [] == Squeezed(Final(t), c);
    }
  }

  lemma CopiedIs(path: CString, i: nat, empty: bool)
    requires i < |path|
    ensures path[i] == ':' ==> (Copied(path, i, empty) == [] || (Copied(path, i, empty) == [':'] && !empty))
    ensures path[i] == ':' && !empty && At(path, i + 1) != ':' && At(path, i + 1) != '\0' ==> Copied(path, i, empty) == [':']
    ensures path[i] != ':' ==> Copied(path, i, empty) == if path[i] != '/' then [path[i]] else if Ordinary(At(path, i + 1)) then "/" else ""
  {
  }

  lemma NamesMore(path: CString, n: nat)
    requires n < |path| && NamesSoFar(path, n)
    ensures NamesSoFar(path, n + 1)
  {
    hide Split, NonEmpty, Directories, Squeezed, Ordinary, Canon, Copied;
    CopyOne(path, n + 1);
    var p, r, c, next := path[..n], Canon(path, n), path[n], At(path, n + 1);
    var piece := Copied(path, n, r == []);
    assert path[..n + 1] == p + [c];
    CopiedIs(path, n, r == []);
    if c == ':' {
      SeparatorNames(p, r, next, piece != []);
      assert r + [] == r;
    } else {
      assert c != '\0';
      CharacterNames(p, r, c, piece, next);
      SplitNothing(':');
    }
  }

  lemma {:induction false} NamesUpTo(path: CString, n: nat)
    requires n <= |path|
    ensures NamesSoFar(path, n)
  {
    hide NamesSoFar;
    if n == 0 {
      NoneSoFar(path);
    } else {
      NamesUpTo(path, n - 1);
      NamesMore(path, n - 1);
    }
  }

  /** The elements of the canonical path that are not empty are those of the path that have
      ordinary characters, in order, each squeezed. */
  lemma CanonicalNamesDirectories(path: CString)
    ensures NonEmpty(Split(Canonical(path), ':')) == Directories(Split(path, ':'))
  {
    hide Split, NonEmpty, Squeezed, Canon;
    NamesUpTo(path, |path|);
    assert path[..|path|] == path;
    var r := Split(path, ':');
    assert r == Init(r) + [Final(r)];
    DirectoriesMore(Init(r), Final(r));
  }

  // ---------------------------------------------------------------- the components of an element

  predicate IsElement(e: string) {
    ':' !in e && '\0' !in e
  }

  /** The components between slashes, and whether a slash comes first, are kept. */
  ghost predicate SameComponents(e: string, r: string, goesOn: bool) {
    && NonEmpty(Split(r, '/')) == NonEmpty(Split(e, '/'))
    && (goesOn ==> Final(Split(r, '/')) == Final(Split(e, '/')) && (e != [] ==> r != []))
    && (r != [] ==> e != [] && (r[0] == '/' <==> e[0] == '/'))
    && (r == [] && e != [] ==> e[0] == '/')
  }

  lemma SlashKeepsComponents(e: string, r: string, goesOn: bool)
    requires SameComponents(e, r, false)
    ensures SameComponents(e + ['/'], r + if goesOn then "/" else "", goesOn)
  {
    hide Split, NonEmpty;
    AppendSplits(e, '/', '/');
    AppendSplits(r, '/', '/');
    NonEmptyMore(Split(e, '/'), []);
    NonEmptyMore(Split(r, '/'), []);
    assert r + [] == r;
  }

  lemma CharacterKeepsComponents(e: string, r: string, c: char, goesOn: bool)
    requires c != '/' && SameComponents(e, r, true)
    ensures SameComponents(e + [c], r + [c], goesOn)
  {
    hide Split, NonEmpty;
    AppendSplits(e, c, '/');
    AppendSplits(r, c, '/');
    var s, t := Split(e, '/'), Split(r, '/');
    NonEmptyIs(s);
    NonEmptyIs(t);
    SameBefore(NonEmpty(Init(s)), NonEmpty(Init(t)), if Final(s) == [] then [] else [Final(s)]);
    NonEmptyMore(Init(s), Final(s) + [c]);
    NonEmptyMore(Init(t), Final(t) + [c]);
  }

  /** A squeezed element has the components of the element, and is absolute if it is. */
  lemma {:induction false} SqueezedKeepsComponents(e: string, next: char)
    requires IsElement(e)
    ensures SameComponents(e, Squeezed(e, next), Ordinary(next))
  {
    hide Split, NonEmpty, Squeezed, SameComponents, Ordinary;
    if e == [] {
      SqueezedMore([], '/', next);
      NothingIsSame(Ordinary(next));
    } else {
      var f, c := e[..|e| - 1], e[|e| - 1];
      assert e == f + [c] && c in e;
      SqueezedKeepsComponents(f, c);
      SqueezedMore(f, c, next);
      SqueezedAtEnd(c);
      if c == '/' {
        SlashKeepsComponents(f, Squeezed(f, '/'), Ordinary(next));
      } else {
        CharacterKeepsComponents(f, Squeezed(f, c), c, Ordinary(next));
      }
    }
  }

  lemma NothingIsSame(goesOn: bool)
    ensures SameComponents([], [], goesOn)
  {
  }

  lemma {:induction false} ElementsAreElements(path: CString)
    ensures forall e :: e in Split(path, ':') ==> IsElement(e)
  {
    hide Split;
    if path == [] {
      SplitNothing(':');
    } else {
      var p, c := path[..|path| - 1], path[|path| - 1];
      assert path == p + [c] && c != '\0';
      ElementsAreElements(p);
      AppendSplits(p, c, ':');
      var r := Split(p, ':');
      assert Final(r) in r;
    }
  }

  lemma DirectoriesAre(r: seq<string>)
    requires forall e :: e in r ==> IsElement(e)
    ensures forall d :: d in Directories(r) ==> d != [] && exists e :: e in r && SameComponents(e, d, false)
  {
    if r != [] {
      DirectoriesAre(Init(r));
      SqueezedKeepsComponents(Final(r), '\0');
      hide SameComponents, Squeezed;
      assert Final(r) in r;
    }
  }
}
