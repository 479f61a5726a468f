/** Search paths: the canonical form, when it has empty elements, and the directories that are
    visited for it. */
module CanonicalPath {
  import opened CStrings
  import opened Argz

  predicate Ordinary(c: char) {
    c != '/' && c != ':' && c != '\0'
  }

  /** What is copied for the character at `i`; `empty` says that nothing was copied before. */
  function Copied(path: CString, i: nat, empty: bool): (r: string)
    requires i < |path|
    ensures |r| <= 1 && (r != [] ==> r == [path[i]])
    ensures Ordinary(path[i]) ==> r != []
    ensures path[i] == '/' && r != [] ==> Ordinary(At(path, i + 1))
  {
    var next := At(path, i + 1);
    if path[i] == ':' && (empty || next == ':' || next == '\0') then []
    else if path[i] != '/' then [path[i]]
    else if next != ':' && next != '\0' && next != '/' then ['/']
    else []
  }

  /** What is copied for the first `n` characters. */
  function Canon(path: CString, n: nat): (r: string)
    requires n <= |path|
    ensures |r| <= n
  {
    if n == 0 then []
    else
      var r := Canon(path, n - 1);
      r + Copied(path, n - 1, r == [])
  }

  lemma CopyOne(path: CString, n: nat)
    requires n <= |path|
    ensures n == 0 ==> Canon(path, n) == []
    ensures n > 0 ==>
      var r := Canon(path, n - 1);
      Canon(path, n) == r + Copied(path, n - 1, r == [])
  {
  }

  function Canonical(path: CString): (r: CString)
    ensures |r| <= |path|
  {
    CanonHasNoNul(path, |path|);
    Canon(path, |path|)
  }

  lemma {:induction false} CanonHasNoNul(path: CString, n: nat)
    requires n <= |path|
    ensures NoNul(Canon(path, n))
  {
    if n > 0 {
      CanonHasNoNul(path, n - 1);
      assert path[n - 1] != '\0';
    }
  }

  // ---------------------------------------------------------------- slashes

  /** Every slash of the canonical form is followed by an ordinary character. */
  predicate SlashesLead(s: string) {
    forall i :: 0 <= i < |s| && s[i] == '/' ==> i + 1 < |s| && Ordinary(s[i + 1])
  }

  predicate LeadSoFar(s: string, next: char) {
    && (forall i :: 0 <= i < |s| - 1 && s[i] == '/' ==> Ordinary(s[i + 1]))
    && (s != [] && s[|s| - 1] == '/' ==> Ordinary(next))
  }

  lemma LeadMore(s: string, piece: string, c: char, next: char)
    requires LeadSoFar(s, c) && (piece == [] || piece == [c])
    requires Ordinary(c) ==> piece != []
    requires c == '/' && piece != [] ==> Ordinary(next)
    ensures LeadSoFar(s + piece, next)
  {
    if piece == [] {
      assert s + piece == s;
    }
  }

  lemma {:induction false} SlashesLeadSoFar(path: CString, n: nat)
    requires n <= |path|
    ensures LeadSoFar(Canon(path, n), At(path, n))
  {
    hide Canon, Copied;
    CopyOne(path, n);
    if n > 0 {
      SlashesLeadSoFar(path, n - 1);
      var r := Canon(path, n - 1);
      LeadMore(r, Copied(path, n - 1, r == []), path[n - 1], At(path, n));
    }
  }

  lemma CanonicalSlashesLead(path: CString)
    ensures SlashesLead(Canonical(path))
  {
    SlashesLeadSoFar(path, |path|);
  }

  // ---------------------------------------------------------------- prefixes

  lemma {:induction false} CanonGrows(path: CString, m: nat, n: nat)
    requires m <= n <= |path|
    ensures Canon(path, m) <= Canon(path, n)
    decreases n - m
  {
    if m < n {
      CanonGrows(path, m, n - 1);
    }
  }

  predicate StartedBy(path: CString, n: nat)
    requires n <= |path|
  {
    exists i :: 0 <= i < n && Ordinary(path[i])
  }

  lemma {:induction false} StartedIs(path: CString, n: nat)
    requires n <= |path|
    ensures Canon(path, n) != [] <==>
      StartedBy(path, n) || (0 < n < |path| && path[n - 1] == '/' && Ordinary(path[n]))
  {
    hide Canon;
    CopyOne(path, n);
    if n > 0 {
      StartedIs(path, n - 1);
      assert StartedBy(path, n) <==> StartedBy(path, n - 1) || Ordinary(path[n - 1]);
    }
  }

  lemma {:induction false} FirstIsNoColon(path: CString, n: nat)
    requires n <= |path|
    ensures Canon(path, n) != [] ==> Canon(path, n)[0] != ':'
  {
    hide Canon;
    CopyOne(path, n);
    if n > 0 {
      FirstIsNoColon(path, n - 1);
    }
  }

  /** Where the canonical form's character at `k` was copied from. */
  lemma {:induction false} CopiedFrom(path: CString, n: nat, k: nat) returns (m: nat)
    requires n <= |path| && k < |Canon(path, n)|
    ensures m < n && Canon(path, m) == Canon(path, n)[..k] && Canon(path, m + 1) == Canon(path, n)[..k + 1]
    ensures path[m] == Canon(path, n)[k]
  {
    CopyOne(path, n);
    hide Canon, Copied;
    var r := Canon(path, n - 1);
    if k < |r| {
      m := CopiedFrom(path, n - 1, k);
      StartOf(r, Copied(path, n - 1, r == []), k);
    } else {
      m := n - 1;
      assert Canon(path, n)[..k] == r && Canon(path, n)[..k + 1] == Canon(path, n);
    }
  }

  lemma StartOf(r: string, piece: string, k: nat)
    requires k < |r|
    ensures (r + piece)[..k] == r[..k] && (r + piece)[..k + 1] == r[..k + 1] && (r + piece)[k] == r[k]
  {
  }

  // ---------------------------------------------------------------- empty elements

  predicate EndsWithColon(s: string) {
    s != [] && s[|s| - 1] == ':'
  }

  predicate HasEmptyElement(s: string) {
    [] in Split(s, ':')
  }

  lemma EmptyElementIs(s: string)
    requires s != []
    ensures HasEmptyElement(s) <==> Folds(s, ':') || EndsWithColon(s)
  {
    EmptyElements(s, ':');
    FinalIsEmpty(s, ':');
    var r := Split(s, ':');
    assert r == Init(r) + [Final(r)];
  }

  /** An element of the path that consists of slashes only, behind an ordinary character. */
  predicate SlashElement(path: CString, a: nat, b: nat) {
    && 0 < a < b <= |path| && path[a - 1] == ':' && (b == |path| || path[b] == ':')
    && (forall i :: a <= i < b ==> path[i] == '/')
    && StartedBy(path, a - 1)
  }

  ghost predicate HasSlashElement(path: CString) {
    exists a, b :: SlashElement(path, a, b)
  }

  lemma {:induction false} SlashesAreSkipped(path: CString, a: nat, m: nat, b: nat)
    requires SlashElement(path, a, b) && a <= m <= b
    ensures Canon(path, m) == Canon(path, a)
    decreases m
  {
    if m > a {
      CopyOne(path, m);
      hide Canon;
      SlashesAreSkipped(path, a, m - 1, b);
      assert path[m - 1] == '/';
    }
  }

  lemma ColonIsCopied(path: CString, a: nat)
    requires 0 < a < |path| && path[a - 1] == ':' && path[a] == '/' && StartedBy(path, a - 1)
    ensures EndsWithColon(Canon(path, a))
  {
    CopyOne(path, a);
    hide Canon;
    StartedIs(path, a - 1);
  }

  lemma FoldsOnward(s: string, t: string)
    requires s <= t && Folds(s, ':')
    ensures Folds(t, ':')
  {
    if s[0] != ':' {
      var i :| 0 < i < |s| && s[i] == ':' && s[i - 1] == ':';
      assert t[i] == ':' && t[i - 1] == ':';
    }
  }

  lemma ColonAt(path: CString, b: nat)
    requires b < |path| && path[b] == ':' && Canon(path, b) != []
    ensures Canon(path, b + 1) == Canon(path, b)
         + if At(path, b + 1) == ':' || At(path, b + 1) == '\0' then [] else [':']
  {
    CopyOne(path, b + 1);
    hide Canon;
  }

  /** Behind a copied colon, the end of the path or another colon leaves an empty element. */
  lemma {:induction false} ColonsLeaveEmpty(path: CString, b: nat)
    requires b <= |path| && EndsWithColon(Canon(path, b)) && (b == |path| || path[b] == ':')
    ensures Folds(Canon(path, |path|), ':') || EndsWithColon(Canon(path, |path|))
    decreases |path| - b
  {
    hide Canon, Folds;
    if b < |path| {
      ColonAt(path, b);
      var c := Canon(path, b);
      if At(path, b + 1) == ':' || At(path, b + 1) == '\0' {
        assert c + [] == c;
        ColonsLeaveEmpty(path, b + 1);
      } else {
        FoldsMore(c, ':', ':');
        CanonGrows(path, b + 1, |path|);
        FoldsOnward(c + [':'], Canon(path, |path|));
      }
    }
  }

  lemma SlashElementLeavesEmpty(path: CString, a: nat, b: nat)
    requires SlashElement(path, a, b)
    ensures Canonical(path) != [] && HasEmptyElement(Canonical(path))
  {
    ColonIsCopied(path, a);
    SlashesAreSkipped(path, a, b, b);
    ColonsLeaveEmpty(path, b);
    CanonGrows(path, a, |path|);
    EmptyElementIs(Canonical(path));
  }

  /** Where the colon at the end of what was copied so far came from. */
  lemma {:induction false} LastColon(path: CString, n: nat) returns (s: nat)
    requires n <= |path| && EndsWithColon(Canon(path, n))
    ensures s < n && path[s] == ':' && Canon(path, s) != [] && Canon(path, s + 1) == Canon(path, n)
    ensures s + 1 < |path| && path[s + 1] != ':'
  {
    hide Canon, Copied;
    CopyOne(path, n);
    var before := Canon(path, n - 1);
    if Copied(path, n - 1, before == []) == [] {
      assert before + [] == before;
      s := LastColon(path, n - 1);
    } else {
      assert before + [path[n - 1]] == Canon(path, n);
      ColonCopied(path, n - 1, before == []);
      s := n - 1;
    }
  }

  lemma ColonCopied(path: CString, i: nat, empty: bool)
    requires i < |path| && path[i] == ':' && Copied(path, i, empty) != []
    ensures !empty && i + 1 < |path| && path[i + 1] != ':'
  {
  }

  function SlashesEnd(path: CString, i: nat): (b: nat)
    requires i <= |path|
    ensures i <= b <= |path| && (b < |path| ==> path[b] != '/')
    ensures forall j :: i <= j < b ==> path[j] == '/'
    decreases |path| - i
  {
    if i < |path| && path[i] == '/' then SlashesEnd(path, i + 1) else i
  }

  lemma OrdinaryIsCopied(path: CString, s: nat, m: nat, i: nat)
    requires s <= i < m <= |path| && Canon(path, s) == Canon(path, m)
    ensures !Ordinary(path[i])
  {
    CanonGrows(path, s, i);
    CanonGrows(path, i + 1, m);
  }

  /** If nothing is copied between a colon and the end or the next copied colon, an all-slash
      element stands there. */
  lemma NothingCopiedIsSlashes(path: CString, s: nat, m: nat)
    requires s < m <= |path| && path[s] == ':' && Canon(path, s) != [] && Canon(path, s + 1) == Canon(path, m)
    requires s + 1 < |path| && path[s + 1] != ':' && (m == |path| || path[m] == ':')
    ensures HasSlashElement(path)
  {
    StartedIs(path, s);
    var b := SlashesEnd(path, s + 1);
    assert path[s + 1] != '\0';
    if m == |path| || b < m {
      if b < m {
        OrdinaryIsCopied(path, s + 1, m, b);
      }
    } else {
      assert b == m;
    }
    assert SlashElement(path, s + 1, b);
  }

  lemma EmptyNeedsSlashElement(path: CString)
    requires Canonical(path) != [] && HasEmptyElement(Canonical(path))
    ensures HasSlashElement(path)
  {
    var r := Canonical(path);
    EmptyElementIs(r);
    FirstIsNoColon(path, |path|);
    if EndsWithColon(r) {
      var s := LastColon(path, |path|);
      NothingCopiedIsSlashes(path, s, |path|);
    } else {
      var i :| 0 < i < |r| && r[i] == ':' && r[i - 1] == ':';
      var m := CopiedFrom(path, |path|, i);
      assert EndsWithColon(Canon(path, m));
      var s := LastColon(path, m);
      NothingCopiedIsSlashes(path, s, m);
    }
  }

  /** The canonical form of a path has an empty element exactly when the path has an all-slash
      element behind an ordinary character; it is empty exactly when the path has no ordinary
      character. */
  lemma EmptyElementsOfCanonical(path: CString)
    ensures Canonical(path) == [] <==> !StartedBy(path, |path|)
    ensures Canonical(path) != [] ==> (HasEmptyElement(Canonical(path)) <==> HasSlashElement(path))
  {
    StartedIs(path, |path|);
    if Canonical(path) != [] {
      if HasEmptyElement(Canonical(path)) {
        EmptyNeedsSlashElement(path);
      }
      if HasSlashElement(path) {
        var a, b :| SlashElement(path, a, b);
        SlashElementLeavesEmpty(path, a, b);
      }
    }
  }

  // ---------------------------------------------------------------- fixed points

  /** The character at `j` is copied if all before it were. */
  predicate IsCopied(path: CString, j: nat)
    requires j < |path|
  {
    Copied(path, j, j == 0) != []
  }

  lemma {:induction false} NothingSkipped(path: CString, n: nat, j: nat)
    requires j < n <= |path| && |Canon(path, n)| == n
    ensures Canon(path, j) == path[..j] && IsCopied(path, j)
    decreases n - j
  {
    CopyOne(path, n);
    if j + 1 < n {
      NothingSkipped(path, n - 1, j);
    } else {
      WholePrefix(path, j);
    }
  }

  lemma {:induction false} WholePrefix(path: CString, n: nat)
    requires n <= |path| && |Canon(path, n)| == n
    ensures Canon(path, n) == path[..n]
  {
    hide Canon, Copied;
    CopyOne(path, n);
    if n > 0 {
      WholePrefix(path, n - 1);
      assert path[..n] == path[..n - 1] + [path[n - 1]];
    }
  }

  lemma {:induction false} AllCopied(path: CString, n: nat)
    requires n <= |path| && forall j :: 0 <= j < |path| ==> IsCopied(path, j)
    ensures Canon(path, n) == path[..n]
  {
    hide Canon, Copied;
    CopyOne(path, n);
    if n > 0 {
      AllCopied(path, n - 1);
      assert IsCopied(path, n - 1);
      assert path[..n] == path[..n - 1] + [path[n - 1]];
    }
  }

  lemma CopiedWhen(path: CString, j: nat)
    requires j < |path|
    ensures IsCopied(path, j) <==>
      if path[j] == ':' then j > 0 && j + 1 < |path| && path[j + 1] != ':'
      else path[j] == '/' ==> j + 1 < |path| && Ordinary(path[j + 1])
  {
  }

  /** The strings that are their own canonical form. */
  lemma FixedPoints(s: CString)
    requires s != []
    ensures Canonical(s) == s <==> SlashesLead(s) && !HasEmptyElement(s)
  {
    EmptyElementIs(s);
    assert s[..|s|] == s;
    if Canonical(s) == s {
      CanonicalSlashesLead(s);
      CopiedHasNoEmpty(s);
    }
    if SlashesLead(s) && !HasEmptyElement(s) {
      NoEmptyIsCopied(s);
      AllCopied(s, |s|);
    }
  }

  lemma CopiedHasNoEmpty(s: CString)
    requires s != [] && Canon(s, |s|) == s
    ensures !Folds(s, ':') && !EndsWithColon(s)
  {
    hide Canon;
    FirstIsNoColon(s, |s|);
    if i :| 0 < i < |s| && s[i] == ':' && s[i - 1] == ':' {
      NothingSkipped(s, |s|, i - 1);
      CopiedWhen(s, i - 1);
    }
    NothingSkipped(s, |s|, |s| - 1);
    CopiedWhen(s, |s| - 1);
  }

  lemma NoEmptyIsCopied(s: CString)
    requires s != [] && SlashesLead(s) && !Folds(s, ':') && !EndsWithColon(s)
    ensures forall j :: 0 <= j < |s| ==> IsCopied(s, j)
  {
    forall j | 0 <= j < |s| ensures IsCopied(s, j) {
      CopiedWhen(s, j);
      if s[j] == ':' && j + 1 < |s| && s[j + 1] == ':' {
        assert s[j + 1 - 1] == ':';
      }
    }
  }

  /** Canonicalising twice changes nothing more exactly when the path has no all-slash element
      behind an ordinary character. */
  lemma CanonicalTwice(path: CString)
    ensures Canonical(Canonical(path)) == Canonical(path) <==> !HasSlashElement(path)
  {
    EmptyElementsOfCanonical(path);
    CanonicalSlashesLead(path);
    if Canonical(path) == [] {
      NotStartedHasNone(path);
    } else {
      FixedPoints(Canonical(path));
    }
  }

  lemma NotStartedHasNone(path: CString)
    requires !StartedBy(path, |path|)
    ensures !HasSlashElement(path)
  {
    forall a, b ensures !SlashElement(path, a, b) {
    }
  }

  // ---------------------------------------------------------------- directories of a path

  /** The directories met for a path: its canonical form is split and the vector is walked. */
  function Directories(path: CString): seq<string> {
    Walk(Vector(Canonical(path), ':'), 0)
  }

  /** Behind the last ordinary character a colon stands before a slash. */
  predicate TrailingSlashElement(path: CString) {
    exists a :: 0 < a < |path| && ColonBeforeSlash(path, a)
  }

  predicate ColonBeforeSlash(path: CString, a: nat)
    requires 0 < a < |path|
  {
    path[a - 1] == ':' && path[a] == '/' && StartedBy(path, a - 1) && forall i :: a <= i < |path| ==> !Ordinary(path[i])
  }

  lemma {:induction false} OnlyColonsBehind(path: CString, a: nat, n: nat)
    requires a <= n <= |path| && EndsWithColon(Canon(path, a)) && forall i :: a <= i < |path| ==> !Ordinary(path[i])
    ensures EndsWithColon(Canon(path, n))
    decreases n
  {
    hide Canon, Copied;
    if a < n {
      OnlyColonsBehind(path, a, n - 1);
      CopyOne(path, n);
      assert path[n - 1] == '/' || path[n - 1] == ':' by { assert path[n - 1] != '\0'; }
      assert n < |path| ==> !Ordinary(At(path, n));
    }
  }

  lemma EndsWithColonWhen(path: CString)
    ensures EndsWithColon(Canonical(path)) <==> TrailingSlashElement(path)
  {
    if EndsWithColon(Canonical(path)) {
      var s := LastColon(path, |path|);
      StartedIs(path, s);
      forall i | s + 1 <= i < |path| ensures !Ordinary(path[i]) {
        OrdinaryIsCopied(path, s + 1, |path|, i);
      }
      assert path[s + 1] != '\0';
      assert ColonBeforeSlash(path, s + 1);
    }
    if TrailingSlashElement(path) {
      var a :| 0 < a < |path| && ColonBeforeSlash(path, a);
      ColonIsCopied(path, a);
      OnlyColonsBehind(path, a, |path|);
    }
  }

  /** The directories met are the elements of the canonical form, except that empty ones before
      the last are passed over. An empty directory name is met exactly when the path has no
      ordinary character, or a colon before a slash behind its last ordinary character. */
  lemma DirectoriesOfPath(path: CString)
    ensures Directories(path) == Kept(Split(Canonical(path), ':'))
    ensures [] in Directories(path) <==> !StartedBy(path, |path|) || TrailingSlashElement(path)
    ensures !HasSlashElement(path) && StartedBy(path, |path|) ==>
      && Directories(path) == Split(Canonical(path), ':')
      && Stringified(Vector(Canonical(path), ':'), ':') == Canonical(path) + ['\0']
  {
    var c := Canonical(path);
    WalkMeetsElements(c, ':');
    JoinRestores(c, ':');
    FinalIsEmpty(c, ':');
    EndsWithColonWhen(path);
    EmptyElementsOfCanonical(path);
    var r := Split(c, ':');
    assert Kept(r) == NonEmpty(Init(r)) + [Final(r)];
    if c != [] {
      EmptyElementIs(c);
    }
    hide Split, NonEmpty, Folds, Stringified, Vector, Walk;
  }

  lemma CanonOfExample(path: CString, once: CString)
    requires path == "a:/" && once == "a:"
    ensures Canonical(path) == once && Canonical(once) == "a"
  {
    hide Canon;
    CopyOne(path, 0);
    CopyOne(path, 1);
    CopyOne(path, 2);
    CopyOne(path, 3);
    CopyOne(once, 0);
    CopyOne(once, 1);
    CopyOne(once, 2);
  }

  lemma SplitOfExample(once: CString)
    requires once == "a:"
    ensures Split(once, ':') == ["a", ""] && Kept(["a", ""]) == ["a", ""]
  {
    hide Split;
    SplitNothing(':');
    AppendSplits([], 'a', ':');
    assert [] + ['a'] == "a";
    AppendSplits("a", ':', ':');
    assert "a" + [':'] == once;
    assert Init(["a", ""]) == ["a"] && Init(["a"]) == [];
  }

  /** The shortest path that shows it: canonicalising it twice gives something else than once,
      and an empty directory name is visited. */
  lemma SlashElementShows(path: CString, once: CString)
    requires path == "a:/" && once == "a:"
    ensures HasSlashElement(path) && Canonical(path) == once && Canonical(once) == "a"
    ensures Directories(path) == ["a", ""]
  {
    hide Canonical, Directories, Split, Kept;
    CanonOfExample(path, once);
    SplitOfExample(once);
    DirectoriesOfPath(path);
    assert Ordinary(path[0]) && SlashElement(path, 2, 3);
  }

  // ---------------------------------------------------------------- the functions

  method CanonicalizePath(path: CString) returns (canonical: array<char>, dest: nat)
    requires path != []
    ensures fresh(canonical) && dest < canonical.Length
    ensures canonical[..dest] == Canonical(path) && canonical[dest] == '\0'
  {
    hide Canon;
    canonical := new char[1 + |path|];
    dest := 0;
    var src := 0;
    CopyOne(path, 0);
    while At(path, src) != '\0'
      invariant src <= |path| && dest <= src && canonical[..dest] == Canon(path, src)
      decreases |path| - src
    {
      CopyOne(path, src + 1);
      var next := At(path, src + 1);
      if path[src] == ':' && (dest == 0 || next == ':' || next == '\0') {
        src := src + 1;
        continue;
      }
      if path[src] != '/' {
        PutChar(canonical, dest, path[src]);
        dest := dest + 1;
      } else if next != ':' && next != '\0' && next != '/' {
        PutChar(canonical, dest, '/');
        dest := dest + 1;
      }
      src := src + 1;
    }
    canonical[dest] := '\0';
  }

  /** The names a search visits, in order. */
  method ForeachDirInPath(searchPath: CString) returns (names: seq<string>)
    requires searchPath != []
    ensures names == Directories(searchPath)
  {
    var canonical, n := CanonicalizePath(searchPath);
    var text: CString := canonical[..n];
    var argz, len := ArgzCreateSep(text, ':');
    names := Collect(argz, len);
  }
}
