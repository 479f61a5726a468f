/** A compiler of stencils into opcode lists, and what the lists compute: a stencil combines cells
    about each cell by sums, differences and products. */
module BlurStencils {
  import opened BlurProgram
  import opened BlurFilter

  datatype Action = Plus | Minus | Times

  /** Combines the cell at an offset with what has been computed so far. */
  datatype Term = Term(dx: int, dy: int, action: Action)

  // ---------------------------------------------------------------- what a stencil means

  /** The value at (x, y) after the first k terms. */
  function Value(start: int, terms: seq<Term>, k: nat, image: Grid, x: int, y: int): int
    requires k <= |terms|
    requires forall t :: t in terms ==> 0 <= x + t.dx < |image| && 0 <= y + t.dy < |image[x + t.dx]|
  {
    if k == 0 then start
    else
      var v, t := Value(start, terms, k - 1, image, x, y), terms[k - 1];
      var cell := image[x + t.dx][y + t.dy];
      match t.action
      case Plus => v + cell
      case Minus => v - cell
      case Times => v * cell
  }

  // ---------------------------------------------------------------- its opcodes

  function Opcode(a: Action): int {
    match a
    case Plus => 2
    case Minus => 3
    case Times => 4
  }

  /** The terms from the k-th on, from offset (dx, dy): move there and combine; at the end store
      first and then go back. */
  function CodeFrom(terms: seq<Term>, k: nat, dx: int, dy: int): seq<int>
    requires k <= |terms|
    decreases |terms| - k
  {
    if k == |terms| then [5, 0, -dx, -dy, 6]
    else
      var t := terms[k];
      [0, t.dx - dx, t.dy - dy, Opcode(t.action)] + CodeFrom(terms, k + 1, t.dx, t.dy)
  }

  function Code(start: int, terms: seq<Term>): seq<int> {
    [1, start] + CodeFrom(terms, 0, 0, 0)
  }

  function Operation(a: Action): Instr {
    match a
    case Plus => AddData
    case Minus => SubtractData
    case Times => MultiplyData
  }

  function ProgFrom(terms: seq<Term>, k: nat, dx: int, dy: int): (r: seq<Instr>)
    requires k <= |terms|
    ensures |r| == 2 * (|terms| - k) + 2
    decreases |terms| - k
  {
    if k == |terms| then [StoreData, MoveRel(-dx, -dy)]
    else
      var t := terms[k];
      [MoveRel(t.dx - dx, t.dy - dy), Operation(t.action)] + ProgFrom(terms, k + 1, t.dx, t.dy)
  }

  function Prog(start: int, terms: seq<Term>): seq<Instr> {
    [SetAccum(start)] + ProgFrom(terms, 0, 0, 0)
  }

  lemma DecodesEnd(dx: int, dy: int)
    ensures Decode([5, 0, dx, dy, 6], 0) == Some([StoreData, MoveRel(dx, dy)])
  {
    var code := [5, 0, dx, dy, 6];
    assert Decode(code, 4) == Some([]);
    assert [MoveRel(dx, dy)] + [] == [MoveRel(dx, dy)];
    assert Decode(code, 1) == Some([MoveRel(dx, dy)]);
    assert [StoreData] + [MoveRel(dx, dy)] == [StoreData, MoveRel(dx, dy)];
  }

  lemma DecodesTerm(dx: int, dy: int, a: Action, code: seq<int>, rest: seq<Instr>)
    requires Decode(code, 0) == Some(rest)
    ensures Decode([0, dx, dy, Opcode(a)] + code, 0) == Some([MoveRel(dx, dy), Operation(a)] + rest)
  {
    var all := [0, dx, dy, Opcode(a)] + code;
    DecodeSuffix([0, dx, dy, Opcode(a)], code, 0);
    assert Decode(all, 4) == Some(rest);
    assert Decode(all, 3) == Some([Operation(a)] + rest);
    assert [MoveRel(dx, dy)] + ([Operation(a)] + rest) == [MoveRel(dx, dy), Operation(a)] + rest;
  }

  lemma {:induction false} DecodesTerms(terms: seq<Term>, k: nat, dx: int, dy: int)
    requires k <= |terms|
    ensures Decode(CodeFrom(terms, k, dx, dy), 0) == Some(ProgFrom(terms, k, dx, dy))
    decreases |terms| - k
  {
    hide Decode, Opcode, Operation;
    if k == |terms| {
      DecodesEnd(-dx, -dy);
    } else {
      var t := terms[k];
      DecodesTerms(terms, k + 1, t.dx, t.dy);
      DecodesTerm(t.dx - dx, t.dy - dy, t.action, CodeFrom(terms, k + 1, t.dx, t.dy), ProgFrom(terms, k + 1, t.dx, t.dy));
    }
  }

  lemma CodeDecodes(start: int, terms: seq<Term>)
    ensures Decode(Code(start, terms), 0) == Some(Prog(start, terms))
  {
    DecodesTerms(terms, 0, 0, 0);
    var code := CodeFrom(terms, 0, 0, 0);
    DecodeSuffix([1, start], code, 0);
    hide CodeFrom, ProgFrom;
    assert Decode([1, start] + code, 2) == Some(ProgFrom(terms, 0, 0, 0));
  }

  // ---------------------------------------------------------------- running it on one cell

  function OffX(terms: seq<Term>, k: nat): int
    requires k <= |terms|
  {
    if k == 0 then 0 else terms[k - 1].dx
  }

  function OffY(terms: seq<Term>, k: nat): int
    requires k <= |terms|
  {
    if k == 0 then 0 else terms[k - 1].dy
  }

  /** Where the operations of the k-th term stand in the block. */
  predicate IsBlock(prog: seq<Instr>, start: int, terms: seq<Term>) {
    && |prog| == 2 * |terms| + 3 && prog[0] == SetAccum(start)
    && (forall k :: 0 <= k < |terms| ==> TermAt(prog, terms, k))
    && prog[2 * |terms| + 1] == StoreData
    && prog[2 * |terms| + 2] == MoveRel(-OffX(terms, |terms|), -OffY(terms, |terms|))
  }

  predicate TermAt(prog: seq<Instr>, terms: seq<Term>, k: nat)
    requires k < |terms| && |prog| == 2 * |terms| + 3
  {
    && prog[2 * k + 1] == MoveRel(terms[k].dx - OffX(terms, k), terms[k].dy - OffY(terms, k))
    && prog[2 * k + 2] == Operation(terms[k].action)
  }

  lemma {:induction false} ProgFromIs(terms: seq<Term>, k: nat, j: nat)
    requires k <= j <= |terms|
    ensures var p := ProgFrom(terms, k, OffX(terms, k), OffY(terms, k));
      if j < |terms| then
        && p[2 * (j - k)] == MoveRel(terms[j].dx - OffX(terms, j), terms[j].dy - OffY(terms, j))
        && p[2 * (j - k) + 1] == Operation(terms[j].action)
      else
        p[2 * (j - k)] == StoreData && p[2 * (j - k) + 1] == MoveRel(-OffX(terms, j), -OffY(terms, j))
    decreases |terms| - k
  {
    if k < j {
      ProgFromIs(terms, k + 1, j);
    }
  }

  lemma ProgIsBlock(start: int, terms: seq<Term>)
    ensures IsBlock(Prog(start, terms), start, terms)
  {
    hide ProgFrom, Operation;
    forall k | 0 <= k < |terms| ensures TermAt(Prog(start, terms), terms, k) {
      ProgFromIs(terms, 0, k);
    }
    ProgFromIs(terms, 0, |terms|);
  }

  predicate IsNear(terms: seq<Term>) {
    forall t :: t in terms ==> -1 <= t.dx <= 1 && -1 <= t.dy <= 1
  }

  /** Storing at the cell from somewhere else, and going back. */
  lemma StoresAndGoesBack(prog: seq<Instr>, k: nat, dx: int, dy: int, x: nat, y: nat, v: int,
                          image: Grid, out: Grid, n: nat)
    requires Square(image, n) && Square(out, n) && InGrid(x, y, n) && InGrid(x + dx, y + dy, n)
    requires |prog| == k + 2 && prog[k] == StoreData && prog[k + 1] == MoveRel(-dx, -dy)
    ensures var st := AtWindow(x + dx, y + dy, v, x, y);
      && Ready(prog, k, st, n)
      && Exec(prog, k, st, image, out, n) == (AtCell(x, y, v), Put(out, x, y, v))
  {
    var st := AtWindow(x + dx, y + dy, v, x, y);
    assert StaysInside(prog, k + 2, x, y, n) && StaysInside(prog, k + 1, st.x, st.y, n);
    assert Exec(prog, k + 2, AtCell(x, y, v), image, Put(out, x, y, v), n) == (AtCell(x, y, v), Put(out, x, y, v));
    assert Exec(prog, k + 1, st, image, Put(out, x, y, v), n) == (AtCell(x, y, v), Put(out, x, y, v));
  }

  lemma LastOffsetIsNear(terms: seq<Term>, k: nat)
    requires IsNear(terms) && k <= |terms|
    ensures -1 <= OffX(terms, k) <= 1 && -1 <= OffY(terms, k) <= 1
  {
    assert k > 0 ==> terms[k - 1] in terms;
  }

  lemma RunsEnd(prog: seq<Instr>, start: int, terms: seq<Term>, x: nat, y: nat, v: int, image: Grid, out: Grid, n: nat)
    requires IsBlock(prog, start, terms) && IsNear(terms)
    requires Square(image, n) && Square(out, n) && 1 <= x < n - 1 && 1 <= y < n - 1
    ensures var m := |terms|;
      var st := AtWindow(x + OffX(terms, m), y + OffY(terms, m), v, x, y);
      && Ready(prog, 2 * m + 1, st, n)
      && Exec(prog, 2 * m + 1, st, image, out, n) == (AtCell(x, y, v), Put(out, x, y, v))
  {
    hide IsNear, Ready, Exec, OffX, OffY, TermAt;
    LastOffsetIsNear(terms, |terms|);
    StoresAndGoesBack(prog, 2 * |terms| + 1, OffX(terms, |terms|), OffY(terms, |terms|), x, y, v, image, out, n);
  }

  lemma Combines(prog: seq<Instr>, k: nat, dx: int, dy: int, a: Action, st: State, v: int, image: Grid, out: Grid, n: nat)
    requires Square(image, n) && Square(out, n) && Pointing(st, n) && InGrid(st.x + dx, st.y + dy, n)
    requires st.loadX == st.x && st.loadY == st.y && k + 2 <= |prog|
    requires prog[k] == MoveRel(dx, dy) && prog[k + 1] == Operation(a)
    requires v == match a case Plus => st.accum + image[st.x + dx][st.y + dy]
                          case Minus => st.accum - image[st.x + dx][st.y + dy]
                          case Times => st.accum * image[st.x + dx][st.y + dy]
    requires Ready(prog, k + 2, AtWindow(st.x + dx, st.y + dy, v, st.storeX, st.storeY), n)
    ensures Ready(prog, k, st, n)
    ensures Exec(prog, k, st, image, out, n)
         == Exec(prog, k + 2, AtWindow(st.x + dx, st.y + dy, v, st.storeX, st.storeY), image, out, n)
  {
    var moved := AtWindow(st.x + dx, st.y + dy, st.accum, st.storeX, st.storeY);
    OneStep(prog, k + 1, moved, AtWindow(st.x + dx, st.y + dy, v, st.storeX, st.storeY), image, out, n);
    OneStep(prog, k, st, moved, image, out, n);
  }

  lemma NextTerm(prog: seq<Instr>, start: int, terms: seq<Term>, k: nat, x: nat, y: nat, image: Grid, n: nat)
    requires IsBlock(prog, start, terms) && IsNear(terms) && k < |terms|
    requires Square(image, n) && 1 <= x < n - 1 && 1 <= y < n - 1
    ensures var t := terms[k];
      && -1 <= t.dx <= 1 && -1 <= t.dy <= 1 && OffX(terms, k + 1) == t.dx && OffY(terms, k + 1) == t.dy
      && prog[2 * k + 1] == MoveRel(t.dx - OffX(terms, k), t.dy - OffY(terms, k))
      && prog[2 * k + 2] == Operation(t.action)
      && var v := Value(start, terms, k, image, x, y);
      Value(start, terms, k + 1, image, x, y)
        == match t.action case Plus => v + image[x + t.dx][y + t.dy]
                          case Minus => v - image[x + t.dx][y + t.dy]
                          case Times => v * image[x + t.dx][y + t.dy]
  {
    assert TermAt(prog, terms, k) && terms[k] in terms;
    hide Operation;
  }

  lemma FirstValue(start: int, terms: seq<Term>, x: nat, y: nat, image: Grid, n: nat)
    requires IsNear(terms) && Square(image, n) && 1 <= x < n - 1 && 1 <= y < n - 1
    ensures Value(start, terms, 0, image, x, y) == start && OffX(terms, 0) == OffY(terms, 0) == 0
  {
  }

  lemma {:induction false} RunsFrom(prog: seq<Instr>, start: int, terms: seq<Term>, k: nat, x: nat, y: nat,
                                    image: Grid, out: Grid, n: nat)
    requires IsBlock(prog, start, terms) && IsNear(terms) && k <= |terms|
    requires Square(image, n) && Square(out, n) && 1 <= x < n - 1 && 1 <= y < n - 1
    ensures var v := Value(start, terms, |terms|, image, x, y);
      var st := AtWindow(x + OffX(terms, k), y + OffY(terms, k), Value(start, terms, k, image, x, y), x, y);
      && Ready(prog, 2 * k + 1, st, n)
      && Exec(prog, 2 * k + 1, st, image, out, n) == (AtCell(x, y, v), Put(out, x, y, v))
    decreases |terms| - k
  {
    hide StaysInside, Exec, Ready, Operation, Value, TermAt, OffX, OffY;
    var v := Value(start, terms, k, image, x, y);
    if k == |terms| {
      RunsEnd(prog, start, terms, x, y, v, image, out, n);
    } else {
      RunsFrom(prog, start, terms, k + 1, x, y, image, out, n);
      var t := terms[k];
      LastOffsetIsNear(terms, k);
      NextTerm(prog, start, terms, k, x, y, image, n);
      Combines(prog, 2 * k + 1, t.dx - OffX(terms, k), t.dy - OffY(terms, k), t.action,
               AtWindow(x + OffX(terms, k), y + OffY(terms, k), v, x, y),
               Value(start, terms, k + 1, image, x, y), image, out, n);
    }
  }

  /** On every interior cell the block ends where it began and stores the value of the stencil
      there, whatever the accumulator held. */
  lemma BlockRuns(prog: seq<Instr>, start: int, terms: seq<Term>, x: nat, y: nat, accum: int, image: Grid, out: Grid, n: nat)
    requires IsBlock(prog, start, terms) && IsNear(terms)
    requires Square(image, n) && Square(out, n) && 1 <= x < n - 1 && 1 <= y < n - 1
    ensures Ready(prog, 0, AtCell(x, y, accum), n)
    ensures var v := Value(start, terms, |terms|, image, x, y);
      Exec(prog, 0, AtCell(x, y, accum), image, out, n) == (AtCell(x, y, v), Put(out, x, y, v))
  {
    hide StaysInside, Exec, Operation, Value, OffX, OffY;
    FirstValue(start, terms, x, y, image, n);
    RunsFrom(prog, start, terms, 0, x, y, image, out, n);
    OneStep(prog, 0, AtCell(x, y, accum), AtCell(x, y, start), image, out, n);
  }

  // ---------------------------------------------------------------- running it on all cells

  lemma BlockIsSafe(prog: seq<Instr>, start: int, terms: seq<Term>, n: nat)
    requires IsBlock(prog, start, terms) && IsNear(terms)
    ensures Safe(prog, n) && (n >= 3 ==> Returns(prog))
  {
    hide IsBlock, IsNear, Exec, StaysInside;
    var g: Grid := seq(n, _ => seq(n, _ => 0));
    forall x, y | 1 <= x < n - 1 && 1 <= y < n - 1 ensures StaysInside(prog, 0, x, y, n) {
      BlockRuns(prog, start, terms, x, y, 0, g, g, n);
    }
    if n >= 3 {
      BlockRuns(prog, start, terms, 1, 1, 0, g, g, n);
    }
  }

  lemma {:induction false} NestedRuns(prog: seq<Instr>, start: int, terms: seq<Term>, x: nat, y: nat, accum: int,
                                      image: Grid, out: Grid, n: nat, i: nat, j: nat)
    requires IsBlock(prog, start, terms) && IsNear(terms) && Safe(prog, n)
    requires Square(image, n) && Square(out, n) && 1 <= x && 1 <= y && i < n && j < n
    ensures Nested(prog, x, y, accum, image, out, n).1[i][j]
         == if i < n - 1 && 1 <= j < n - 1 && (i > x || (i == x && j >= y))
            then Value(start, terms, |terms|, image, i, j) else out[i][j]
    decreases n - x, n - y
  {
    hide IsBlock, Exec, Value, Safe;
    if x < n - 1 {
      if y >= n - 1 {
        NestedRuns(prog, start, terms, x + 1, 1, accum, image, out, n, i, j);
      } else {
        var v := Value(start, terms, |terms|, image, x, y);
        BlockRuns(prog, start, terms, x, y, accum, image, out, n);
        NestedRuns(prog, start, terms, x, y + 1, v, image, Put(out, x, y, v), n, i, j);
      }
    }
  }

  /** Every stencil of neighbouring cells, compiled to opcodes and interpreted or translated,
      leaves its value at every interior cell of the output and no other cell changed, for every
      input array. */
  lemma StencilRuns(start: int, terms: seq<Term>, accum: int, image: Grid, out: Grid, n: nat, i: nat, j: nat)
    requires IsNear(terms) && Square(image, n) && Square(out, n) && n >= 3 && i < n && j < n
    ensures Decode(Code(start, terms), 0).Some?
    ensures var prog := Decode(Code(start, terms), 0).value;
      && Safe(prog, n) && Returns(prog)
      && Flat(prog, 1, 1, accum, image, out, n) == Nested(prog, 1, 1, accum, image, out, n)
      && Nested(prog, 1, 1, accum, image, out, n).1[i][j]
         == if 1 <= i < n - 1 && 1 <= j < n - 1 then Value(start, terms, |terms|, image, i, j) else out[i][j]
  {
    hide IsBlock, Nested, Flat, Value, Decode, Code, Prog, Returns;
    CodeDecodes(start, terms);
    ProgIsBlock(start, terms);
    var prog := Prog(start, terms);
    BlockIsSafe(prog, start, terms, n);
    FlatIsNested(prog, 1, 1, accum, image, out, n);
    NestedRuns(prog, start, terms, 1, 1, accum, image, out, n, i, j);
  }

  /** A list with an opcode above 6, or none at its end, decodes to nothing. */
  lemma UnknownOpcodeStops(code: seq<int>, pc: nat)
    requires pc < |code| ==> code[pc] < 0 || code[pc] > 6
    ensures Decode(code, pc) == None
  {
  }
}
