/** The blur filter as a program of opcodes, against the filter it stands for. */
module BlurFilter {
  import opened BlurProgram
  import opened BlurTranslate

  const SUM_ROW: seq<int> := [OP_MOVE_REL, 0, 1, OP_ADD_DATA, OP_MOVE_REL, 0, 1, OP_ADD_DATA]
  const TO_FIRST_ROW: seq<int> := [OP_MOVE_REL, -1, -1, OP_SET_ACCUM, 0, OP_ADD_DATA]
  const TO_NEXT_ROW: seq<int> := [OP_MOVE_REL, 1, -2, OP_ADD_DATA]
  const BACK_AND_STORE: seq<int> := [OP_MOVE_REL, -1, -1, OP_STORE_DATA, OP_END]

  /** The opcode list of the blur block, row of the window by row. */
  const BLUR_INSTRUCTIONS: seq<int> :=
    TO_FIRST_ROW + (SUM_ROW + (TO_NEXT_ROW + (SUM_ROW + (TO_NEXT_ROW + (SUM_ROW + BACK_AND_STORE)))))

  /** The operations the list encodes. */
  function BlurBlock(): seq<Instr> {
    FirstRow(NextRow(NextRow([MoveRel(-1, -1), StoreData])))
  }

  function FirstRow(rest: seq<Instr>): seq<Instr> {
    [MoveRel(-1, -1)] + ([SetAccum(0)] + ([AddData] + (SumRow() + rest)))
  }

  function NextRow(rest: seq<Instr>): seq<Instr> {
    [MoveRel(1, -2), AddData] + (SumRow() + rest)
  }

  function SumRow(): seq<Instr> {
    [MoveRel(0, 1), AddData, MoveRel(0, 1), AddData]
  }

  /** The block, operation by operation. */
  predicate IsBlurBlock(prog: seq<Instr>) {
    && |prog| == 21
    && prog[0] == MoveRel(-1, -1) && prog[1] == SetAccum(0) && prog[2] == AddData
    && RowAt(prog, 3)
    && prog[7] == MoveRel(1, -2) && prog[8] == AddData && RowAt(prog, 9)
    && prog[13] == MoveRel(1, -2) && prog[14] == AddData && RowAt(prog, 15)
    && prog[19] == MoveRel(-1, -1) && prog[20] == StoreData
  }

  predicate RowAt(prog: seq<Instr>, k: nat)
    requires k + 4 <= |prog|
  {
    prog[k] == MoveRel(0, 1) && prog[k + 1] == AddData && prog[k + 2] == MoveRel(0, 1) && prog[k + 3] == AddData
  }

  lemma BlurBlockIs()
    ensures IsBlurBlock(BlurBlock())
  {
    var stop := [MoveRel(-1, -1), StoreData];
    NextRowIs(stop);
    NextRowIs(NextRow(stop));
    FirstRowIs(NextRow(NextRow(stop)));
  }

  lemma NextRowIs(rest: seq<Instr>)
    ensures var r := NextRow(rest);
      && |r| == |rest| + 6 && r[0] == MoveRel(1, -2) && r[1] == AddData && RowAt(r, 2)
      && forall k :: 6 <= k < |r| ==> r[k] == rest[k - 6]
  {
  }

  lemma FirstRowIs(rest: seq<Instr>)
    ensures var r := FirstRow(rest);
      && |r| == |rest| + 7 && r[0] == MoveRel(-1, -1) && r[1] == SetAccum(0) && r[2] == AddData && RowAt(r, 3)
      && forall k :: 7 <= k < |r| ==> r[k] == rest[k - 7]
  {
  }

  /** Decoding only looks ahead. */
  lemma {:induction false} DecodeSuffix(before: seq<int>, code: seq<int>, pc: nat)
    ensures Decode(before + code, |before| + pc) == Decode(code, pc)
    decreases |code| - pc
  {
    var all, at := before + code, |before| + pc;
    if pc < |code| {
      assert forall k :: 0 <= k < |code| ==> all[|before| + k] == code[k];
      assert all[at] == code[pc];
      DecodeSuffix(before, code, pc + 1);
      if pc + 1 < |code| {
        DecodeSuffix(before, code, pc + 2);
        if pc + 2 < |code| {
          DecodeSuffix(before, code, pc + 3);
        }
      }
    }
  }

  lemma DecodesRow(code: seq<int>, rest: seq<Instr>)
    requires Decode(code, 0) == Some(rest)
    ensures Decode(SUM_ROW + code, 0) == Some(SumRow() + rest)
  {
    var all := SUM_ROW + code;
    DecodeSuffix(SUM_ROW, code, 0);
    assert Decode(all, 8) == Some(rest);
    assert Decode(all, 7) == Some([AddData] + rest);
    assert Decode(all, 4) == Some([MoveRel(0, 1)] + ([AddData] + rest));
    assert Decode(all, 3) == Some([AddData] + ([MoveRel(0, 1)] + ([AddData] + rest)));
    assert SumRow() + rest == [MoveRel(0, 1)] + ([AddData] + ([MoveRel(0, 1)] + ([AddData] + rest)));
  }

  lemma DecodesNextRow(code: seq<int>, rest: seq<Instr>)
    requires Decode(code, 0) == Some(rest)
    ensures Decode(TO_NEXT_ROW + (SUM_ROW + code), 0) == Some(NextRow(rest))
  {
    DecodesRow(code, rest);
    var all := TO_NEXT_ROW + (SUM_ROW + code);
    DecodeSuffix(TO_NEXT_ROW, SUM_ROW + code, 0);
    assert Decode(all, 4) == Some(SumRow() + rest);
    assert Decode(all, 3) == Some([AddData] + (SumRow() + rest));
    assert [MoveRel(1, -2)] + ([AddData] + (SumRow() + rest)) == NextRow(rest);
  }

  lemma BlurDecodes()
    ensures Decode(BLUR_INSTRUCTIONS, 0) == Some(BlurBlock())
  {
    var stop := [MoveRel(-1, -1), StoreData];
    assert Decode(BACK_AND_STORE, 4) == Some([]);
    assert [StoreData] + [] == [StoreData];
    assert Decode(BACK_AND_STORE, 3) == Some([StoreData]);
    assert [MoveRel(-1, -1)] + [StoreData] == stop;
    assert Decode(BACK_AND_STORE, 0) == Some(stop);
    var third := NextRow(stop);
    DecodesNextRow(BACK_AND_STORE, stop);
    var code := TO_NEXT_ROW + (SUM_ROW + BACK_AND_STORE);
    var second := NextRow(third);
    DecodesNextRow(code, third);
    code := TO_NEXT_ROW + (SUM_ROW + code);
    DecodesRow(code, second);
    var all := TO_FIRST_ROW + (SUM_ROW + code);
    assert all == BLUR_INSTRUCTIONS;
    DecodeSuffix(TO_FIRST_ROW, SUM_ROW + code, 0);
    assert Decode(all, 6) == Some(SumRow() + second);
    assert Decode(all, 5) == Some([AddData] + (SumRow() + second));
    assert Decode(all, 3) == Some([SetAccum(0)] + ([AddData] + (SumRow() + second)));
    assert BlurBlock() == [MoveRel(-1, -1)] + ([SetAccum(0)] + ([AddData] + (SumRow() + second)));
  }

  const BLUR_WINDOW_HALF := 1

  /** The sum of image[x][y2] for lo <= y2 < hi. */
  function RowSum(image: Grid, x: int, lo: int, hi: int): int
    requires lo <= hi ==> 0 <= x < |image| && 0 <= lo && hi <= |image[x]|
    decreases hi - lo
  {
    if lo >= hi then 0 else RowSum(image, x, lo, hi - 1) + image[x][hi - 1]
  }

  /** The sum of the rows lo <= x2 < hi of the window about column y. */
  function WindowSum(image: Grid, lo: int, hi: int, y: int, n: nat): int
    requires Square(image, n) && 0 <= lo && hi <= n && 1 <= y < n - 1
    decreases hi - lo
  {
    if lo >= hi then 0
    else WindowSum(image, lo, hi - 1, y, n)
         + RowSum(image, hi - 1, y - BLUR_WINDOW_HALF, y + BLUR_WINDOW_HALF + 1)
  }

  function Blur(image: Grid, x: nat, y: nat, n: nat): int
    requires Square(image, n) && 1 <= x < n - 1 && 1 <= y < n - 1
  {
    WindowSum(image, x - BLUR_WINDOW_HALF, x + BLUR_WINDOW_HALF + 1, y, n)
  }

  // ---------------------------------------------------------------- running the block

  /** Registers at (x, y) of the block running on cell (cx, cy). */
  function AtWindow(x: int, y: int, accum: int, cx: int, cy: int): State {
    State(x, y, accum, x, y, cx, cy)
  }

  lemma OneStep(prog: seq<Instr>, k: nat, st: State, st': State, image: Grid, out: Grid, n: nat)
    requires Square(image, n) && Square(out, n) && Pointing(st, n) && k < |prog| && !prog[k].StoreData?
    requires st.loadX == st.x && st.loadY == st.y
    requires st' == Step(prog[k], st, image, out, n).0 && Ready(prog, k + 1, st', n)
    ensures Ready(prog, k, st, n)
    ensures Exec(prog, k, st, image, out, n) == Exec(prog, k + 1, st', image, out, n)
  {
  }

  /** A move from (x, y) to (x', y') and an addition: operations k and k + 1. */
  lemma MovesAndAdds(prog: seq<Instr>, k: nat, x: int, y: int, x': int, y': int, accum: int, sum: int,
                     cx: int, cy: int, image: Grid, out: Grid, n: nat)
    requires Square(image, n) && Square(out, n) && InGrid(cx, cy, n) && InGrid(x, y, n) && InGrid(x', y', n)
    requires k + 2 <= |prog| && prog[k] == MoveRel(x' - x, y' - y) && prog[k + 1] == AddData
    requires sum == accum + image[x'][y'] && Ready(prog, k + 2, AtWindow(x', y', sum, cx, cy), n)
    ensures Ready(prog, k, AtWindow(x, y, accum, cx, cy), n)
    ensures Exec(prog, k, AtWindow(x, y, accum, cx, cy), image, out, n)
         == Exec(prog, k + 2, AtWindow(x', y', sum, cx, cy), image, out, n)
  {
    var moved := AtWindow(x', y', accum, cx, cy);
    OneStep(prog, k + 1, moved, AtWindow(x', y', sum, cx, cy), image, out, n);
    OneStep(prog, k, AtWindow(x, y, accum, cx, cy), moved, image, out, n);
  }

  /** The three cells of a row about column y. */
  function Row3(image: Grid, x: int, y: int): int
    requires 0 <= x < |image| && 1 <= y < |image[x]| - 1
  {
    image[x][y - 1] + image[x][y] + image[x][y + 1]
  }

  lemma SumsRow(prog: seq<Instr>, k: nat, x: int, y: int, accum: int, sum: int, cx: int, cy: int,
                image: Grid, out: Grid, n: nat)
    requires Square(image, n) && Square(out, n) && InGrid(cx, cy, n) && 0 <= x < n && 1 <= y < n - 1
    requires k + 4 <= |prog| && RowAt(prog, k)
    requires sum == accum + image[x][y] + image[x][y + 1] && Ready(prog, k + 4, AtWindow(x, y + 1, sum, cx, cy), n)
    ensures Ready(prog, k, AtWindow(x, y - 1, accum, cx, cy), n)
    ensures Exec(prog, k, AtWindow(x, y - 1, accum, cx, cy), image, out, n)
         == Exec(prog, k + 4, AtWindow(x, y + 1, sum, cx, cy), image, out, n)
  {
    var part := accum + image[x][y];
    MovesAndAdds(prog, k + 2, x, y, x, y + 1, part, sum, cx, cy, image, out, n);
    MovesAndAdds(prog, k, x, y - 1, x, y, accum, part, cx, cy, image, out, n);
  }

  /** From the right end of row x of the window to the right end of the next. */
  lemma SumsNextRow(prog: seq<Instr>, k: nat, x: int, y: int, accum: int, sum: int, cx: int, cy: int,
                    image: Grid, out: Grid, n: nat)
    requires Square(image, n) && Square(out, n) && InGrid(cx, cy, n) && 0 <= x < n - 1 && 1 <= y < n - 1
    requires k + 6 <= |prog| && prog[k] == MoveRel(1, -2) && prog[k + 1] == AddData && RowAt(prog, k + 2)
    requires sum == accum + Row3(image, x + 1, y) && Ready(prog, k + 6, AtWindow(x + 1, y + 1, sum, cx, cy), n)
    ensures Ready(prog, k, AtWindow(x, y + 1, accum, cx, cy), n)
    ensures Exec(prog, k, AtWindow(x, y + 1, accum, cx, cy), image, out, n)
         == Exec(prog, k + 6, AtWindow(x + 1, y + 1, sum, cx, cy), image, out, n)
  {
    var part := accum + image[x + 1][y - 1];
    SumsRow(prog, k + 2, x + 1, y, part, sum, cx, cy, image, out, n);
    MovesAndAdds(prog, k, x, y + 1, x + 1, y - 1, accum, part, cx, cy, image, out, n);
  }

  lemma StartsWindow(prog: seq<Instr>, x: int, y: int, accum: int, image: Grid, out: Grid, n: nat)
    requires Square(image, n) && Square(out, n) && 1 <= x < n && 1 <= y < n
    requires 3 <= |prog| && prog[0] == MoveRel(-1, -1) && prog[1] == SetAccum(0) && prog[2] == AddData
    requires Ready(prog, 3, AtWindow(x - 1, y - 1, image[x - 1][y - 1], x, y), n)
    ensures Ready(prog, 0, AtCell(x, y, accum), n)
    ensures Exec(prog, 0, AtCell(x, y, accum), image, out, n)
         == Exec(prog, 3, AtWindow(x - 1, y - 1, image[x - 1][y - 1], x, y), image, out, n)
  {
    var moved := AtWindow(x - 1, y - 1, accum, x, y);
    var cleared := AtWindow(x - 1, y - 1, 0, x, y);
    OneStep(prog, 2, cleared, AtWindow(x - 1, y - 1, image[x - 1][y - 1], x, y), image, out, n);
    OneStep(prog, 1, moved, cleared, image, out, n);
    OneStep(prog, 0, AtCell(x, y, accum), moved, image, out, n);
  }

  lemma GoesBackAndStores(prog: seq<Instr>, x: nat, y: nat, accum: int, image: Grid, out: Grid, n: nat)
    requires Square(image, n) && Square(out, n) && 1 <= x < n - 1 && 1 <= y < n - 1
    requires |prog| == 21 && prog[19] == MoveRel(-1, -1) && prog[20] == StoreData
    ensures Ready(prog, 19, AtWindow(x + 1, y + 1, accum, x, y), n)
    ensures Exec(prog, 19, AtWindow(x + 1, y + 1, accum, x, y), image, out, n)
         == (AtCell(x, y, accum), Put(out, x, y, accum))
  {
    assert StaysInside(prog, 21, x, y, n) && StaysInside(prog, 20, x, y, n);
    assert Exec(prog, 20, AtCell(x, y, accum), image, out, n) == (AtCell(x, y, accum), Put(out, x, y, accum));
  }

  lemma WindowIsRows(image: Grid, x: nat, y: nat, n: nat)
    requires Square(image, n) && 1 <= x < n - 1 && 1 <= y < n - 1
    ensures Blur(image, x, y, n) == Row3(image, x - 1, y) + Row3(image, x, y) + Row3(image, x + 1, y)
  {
    forall r | 0 <= r < n
      ensures RowSum(image, r, y - 1, y + 2) == Row3(image, r, y)
    {
      assert RowSum(image, r, y - 1, y - 1) == 0;
      assert RowSum(image, r, y - 1, y) == image[r][y - 1];
      assert RowSum(image, r, y - 1, y + 1) == image[r][y - 1] + image[r][y];
    }
    assert WindowSum(image, x - 1, x - 1, y, n) == 0;
    assert WindowSum(image, x - 1, x, y, n) == RowSum(image, x - 1, y - 1, y + 2);
    assert WindowSum(image, x - 1, x + 1, y, n)
        == RowSum(image, x - 1, y - 1, y + 2) + RowSum(image, x, y - 1, y + 2);
  }

  /** On every interior cell the block stays in the array, ends where it began and stores the
      sum of the window, whatever the accumulator held. */
  lemma BlurBlockBlurs(prog: seq<Instr>, x: nat, y: nat, accum: int, image: Grid, out: Grid, n: nat)
    requires IsBlurBlock(prog)
    requires Square(image, n) && Square(out, n) && 1 <= x < n - 1 && 1 <= y < n - 1
    ensures Ready(prog, 0, AtCell(x, y, accum), n)
    ensures var b := Blur(image, x, y, n);
      Exec(prog, 0, AtCell(x, y, accum), image, out, n) == (AtCell(x, y, b), Put(out, x, y, b))
  {
    WindowIsRows(image, x, y, n);
    var top, middle := Row3(image, x - 1, y), Row3(image, x, y);
    var sum := Blur(image, x, y, n);
    GoesBackAndStores(prog, x, y, sum, image, out, n);
    SumsNextRow(prog, 13, x, y, top + middle, sum, x, y, image, out, n);
    SumsNextRow(prog, 7, x - 1, y, top, top + middle, x, y, image, out, n);
    SumsRow(prog, 3, x - 1, y, image[x - 1][y - 1], top, x, y, image, out, n);
    StartsWindow(prog, x, y, accum, image, out, n);
  }

  // ---------------------------------------------------------------- the reference filter

  /** The filter from cell (x, y) on: interior cells become the sum of their window. */
  function Filtered(x: nat, y: nat, image: Grid, out: Grid, n: nat): (r: Grid)
    requires Square(image, n) && Square(out, n) && 1 <= x && 1 <= y
    ensures Square(r, n)
    decreases n - x, n - y
  {
    if x >= n - 1 then out
    else if y >= n - 1 then Filtered(x + 1, 1, image, out, n)
    else Filtered(x, y + 1, image, Put(out, x, y, Blur(image, x, y, n)), n)
  }

  /** Every interior cell ends as the sum of its window in the input, and no other cell
      changes: the order of the cells does not show. */
  lemma {:induction false} FilteredAt(x: nat, y: nat, image: Grid, out: Grid, n: nat, i: nat, j: nat)
    requires Square(image, n) && Square(out, n) && 1 <= x && 1 <= y && i < n && j < n
    ensures Filtered(x, y, image, out, n)[i][j]
         == if i < n - 1 && 1 <= j < n - 1 && (i > x || (i == x && j >= y))
            then Blur(image, i, j, n) else out[i][j]
    decreases n - x, n - y
  {
    if x < n - 1 {
      if y >= n - 1 {
        FilteredAt(x + 1, 1, image, out, n, i, j);
      } else {
        FilteredAt(x, y + 1, image, Put(out, x, y, Blur(image, x, y, n)), n, i, j);
      }
    }
  }

  /** From every interior cell, `prog` stays in the array, returns to the cell and stores
      the sum of the cell's window there. */
  ghost predicate Blurs(prog: seq<Instr>, n: nat) {
    && Safe(prog, n)
    && forall x: nat, y: nat, accum: int, image: Grid, out: Grid ::
         Square(image, n) && Square(out, n) && 1 <= x < n - 1 && 1 <= y < n - 1 ==>
         var b := Blur(image, x, y, n);
         Exec(prog, 0, AtCell(x, y, accum), image, out, n) == (AtCell(x, y, b), Put(out, x, y, b))
  }

  lemma BlurBlockBlursAnywhere(prog: seq<Instr>, n: nat)
    requires IsBlurBlock(prog)
    ensures Blurs(prog, n)
  {
    forall x, y | 1 <= x < n - 1 && 1 <= y < n - 1
      ensures StaysInside(prog, 0, x, y, n)
    {
      var g: Grid := seq(n, _ => seq(n, _ => 0));
      BlurBlockBlurs(prog, x, y, 0, g, g, n);
    }
    forall x: nat, y: nat, accum: int, image: Grid, out: Grid
      | Square(image, n) && Square(out, n) && 1 <= x < n - 1 && 1 <= y < n - 1
      ensures var b := Blur(image, x, y, n);
        Exec(prog, 0, AtCell(x, y, accum), image, out, n) == (AtCell(x, y, b), Put(out, x, y, b))
    {
      BlurBlockBlurs(prog, x, y, accum, image, out, n);
    }
  }

  /** Interpreting such a block is the filter, for every input and whatever the accumulator
      holds at first. */
  lemma {:induction false} InterpretedBlurIsFilter(prog: seq<Instr>, x: nat, y: nat, accum: int,
                                                   image: Grid, out: Grid, n: nat)
    requires Square(image, n) && Square(out, n) && 1 <= x && 1 <= y && Blurs(prog, n)
    ensures Nested(prog, x, y, accum, image, out, n).1 == Filtered(x, y, image, out, n)
    decreases n - x, n - y
  {
    if x < n - 1 {
      if y >= n - 1 {
        InterpretedBlurIsFilter(prog, x + 1, 1, accum, image, out, n);
      } else {
        var b := Blur(image, x, y, n);
        assert Exec(prog, 0, AtCell(x, y, accum), image, out, n) == (AtCell(x, y, b), Put(out, x, y, b));
        InterpretedBlurIsFilter(prog, x, y + 1, b, image, Put(out, x, y, b), n);
      }
    }
  }

  /** The opcode list of the benchmark, interpreted or translated, leaves exactly what the
      reference filter leaves, for every input array. */
  lemma BlurInstructionsAreFilter(prog: seq<Instr>, accum: int, image: Grid, out: Grid, n: nat)
    requires Square(image, n) && Square(out, n) && n >= 3
    requires Decode(BLUR_INSTRUCTIONS, 0) == Some(prog)
    ensures Safe(prog, n) && Returns(prog)
    ensures Nested(prog, 1, 1, accum, image, out, n).1 == Filtered(1, 1, image, out, n)
    ensures Flat(prog, 1, 1, accum, image, out, n).1 == Filtered(1, 1, image, out, n)
  {
    BlurDecodes();
    BlurBlockIs();
    BlurBlockBlursAnywhere(prog, n);
    assert Exec(prog, 0, AtCell(1, 1, accum), image, out, n).0 == AtCell(1, 1, Blur(image, 1, 1, n));
    InterpretedBlurIsFilter(prog, 1, 1, accum, image, out, n);
    FlatIsNested(prog, 1, 1, accum, image, out, n);
  }

  /** The reference filter, as the benchmark has it. */
  method BlurReference(image: array2<int>, out: array2<int>)
    requires IsSquare(image) && IsSquare(out) && image != out && image.Length0 == out.Length0 >= 2
    modifies out
    ensures Contents(out) == Filtered(1, 1, Contents(image), old(Contents(out)), image.Length0)
  {
    ghost var img := Contents(image);
    var n := image.Length0;
    ghost var goal := Filtered(1, 1, img, Contents(out), n);
    var x := 1;
    while x < n - 1
      invariant 1 <= x && Contents(image) == img
      invariant Filtered(x, 1, img, Contents(out), n) == goal
    {
      var y := 1;
      while y < n - 1
        invariant 1 <= y && Contents(image) == img
        invariant Filtered(x, y, img, Contents(out), n) == goal
      {
        var sum := SumWindow(x, y, image);
        StoreCell(out, x, y, sum);
        y := y + 1;
      }
      x := x + 1;
    }
  }

  method SumWindow(x: nat, y: nat, image: array2<int>) returns (sum: int)
    requires IsSquare(image) && 1 <= x < image.Length0 - 1 && 1 <= y < image.Length0 - 1
    ensures sum == Blur(Contents(image), x, y, image.Length0)
  {
    ghost var img, n := Contents(image), image.Length0;
    sum := 0;
    var x2 := x - BLUR_WINDOW_HALF;
    while x2 <= x + BLUR_WINDOW_HALF
      invariant x - BLUR_WINDOW_HALF <= x2 <= x + BLUR_WINDOW_HALF + 1
      invariant sum == WindowSum(img, x - BLUR_WINDOW_HALF, x2, y, n)
    {
      ghost var before := sum;
      var y2 := y - BLUR_WINDOW_HALF;
      while y2 <= y + BLUR_WINDOW_HALF
        invariant y - BLUR_WINDOW_HALF <= y2 <= y + BLUR_WINDOW_HALF + 1
        invariant sum == before + RowSum(img, x2, y - BLUR_WINDOW_HALF, y2)
      {
        sum := sum + image[x2, y2];
        y2 := y2 + 1;
      }
      x2 := x2 + 1;
    }
  }
}
