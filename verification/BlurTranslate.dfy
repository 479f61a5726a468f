/** The blur benchmark's interpreter, its code generator, the function the generator emits,
    and the reference filter, over arrays that are updated in place. */
module BlurTranslate {
  import opened BlurProgram

  ghost predicate IsSquare(a: array2<int>) {
    a.Length0 == a.Length1
  }

  ghost function Contents(a: array2<int>): (g: Grid)
    requires IsSquare(a)
    reads a
    ensures Square(g, a.Length0)
    ensures forall x, y :: 0 <= x < a.Length0 && 0 <= y < a.Length1 ==> g[x][y] == a[x, y]
  {
    seq(a.Length0, x requires 0 <= x < a.Length0 reads a =>
      seq(a.Length1, y requires 0 <= y < a.Length1 reads a => a[x, y]))
  }

  method StoreCell(a: array2<int>, x: nat, y: nat, v: int)
    requires IsSquare(a) && x < a.Length0 && y < a.Length1
    modifies a
    ensures Contents(a) == Put(old(Contents(a)), x, y, v)
  {
    ghost var was := Contents(a);
    a[x, y] := v;
    forall i | 0 <= i < a.Length0 ensures Contents(a)[i] == Put(was, x, y, v)[i] {
    }
  }

  /** One DO_ macro. */
  method Do(i: Instr, st: State, image: array2<int>, out: array2<int>) returns (r: State)
    requires IsSquare(image) && IsSquare(out) && image != out && image.Length0 == out.Length0
    requires Pointing(st, image.Length0)
    modifies out
    ensures (r, Contents(out)) == Step(i, st, Contents(image), old(Contents(out)), image.Length0)
  {
    r := st;
    match i
    case MoveRel(dx, dy) =>
      r := r.(x := r.x + dx);
      r := r.(y := r.y + dy);
      r := r.(loadX := r.x, loadY := r.y);
    case SetAccum(v) => r := r.(accum := v);
    case AddData => r := r.(accum := r.accum + image[r.loadX, r.loadY]);
    case SubtractData => r := r.(accum := r.accum - image[r.loadX, r.loadY]);
    case MultiplyData => r := r.(accum := r.accum * image[r.loadX, r.loadY]);
    case StoreData => StoreCell(out, r.storeX, r.storeY, r.accum);
  }

  /** Reads the operation at `pc`, operands included. */
  method Fetch(code: seq<int>, pc: nat) returns (i: Instr, next: nat)
    requires Decode(code, pc).Some? && code[pc] != OP_END
    ensures next <= |code| && pc < next && Decode(code, next).Some?
    ensures Decode(code, pc).value == [i] + Decode(code, next).value
  {
    next := pc + 1;
    match code[pc]
    case 0 => i := MoveRel(code[next], code[next + 1]); next := next + 2;
    case 1 => i := SetAccum(code[next]); next := next + 1;
    case 2 => i := AddData;
    case 3 => i := SubtractData;
    case 4 => i := MultiplyData;
    case _ => i := StoreData;
  }

  /** One pass of the interpreter's opcode loop, on one cell. */
  method EmulateCell(code: seq<int>, start: State, image: array2<int>, out: array2<int>) returns (st: State)
    requires IsSquare(image) && IsSquare(out) && image != out && image.Length0 == out.Length0
    requires Decode(code, 0).Some? && Ready(Decode(code, 0).value, 0, start, image.Length0)
    modifies out
    ensures (st, Contents(out))
         == Exec(Decode(code, 0).value, 0, start, Contents(image), old(Contents(out)), image.Length0)
  {
    ghost var n, img := image.Length0, Contents(image);
    ghost var prog, k := Decode(code, 0).value, 0;
    ghost var goal := Exec(prog, 0, start, img, Contents(out), n);
    st := start;
    var pc, done := 0, false;
    while !done
      invariant pc <= |code| && Contents(image) == img && k <= |prog|
      invariant !done ==> Decode(code, pc) == Some(prog[k..]) && Ready(prog, k, st, n)
      invariant !done ==> Exec(prog, k, st, img, Contents(out), n) == goal
      invariant done ==> (st, Contents(out)) == goal
      decreases !done, |code| - pc
    {
      if code[pc] == OP_END {
        done := true;
      } else {
        var i;
        i, pc := Fetch(code, pc);
        assert i == prog[k..][0] && Decode(code, pc).value == prog[k..][1..];
        st := Do(i, st, image, out);
        assert StaysInside(prog, k + 1, st.x, st.y, n);
        k := k + 1;
      }
    }
  }

  /** The opcode emulator: one pass of the block per interior cell, in row order, the
      accumulator carried over from cell to cell. */
  method EmulateOpcodes(code: seq<int>, accum0: int, image: array2<int>, out: array2<int>) returns (accum: int)
    requires IsSquare(image) && IsSquare(out) && image != out && image.Length0 == out.Length0 >= 2
    requires Decode(code, 0).Some? && Safe(Decode(code, 0).value, image.Length0)
    modifies out
    ensures (accum, Contents(out))
         == Nested(Decode(code, 0).value, 1, 1, accum0, Contents(image), old(Contents(out)), image.Length0)
  {
    ghost var prog, img := Decode(code, 0).value, Contents(image);
    var n := image.Length0;
    ghost var goal := Nested(prog, 1, 1, accum0, img, Contents(out), n);
    accum := accum0;
    var x := 1;
    while x < n - 1
      invariant 1 <= x && Contents(image) == img
      invariant Nested(prog, x, 1, accum, img, Contents(out), n) == goal
    {
      var y := 1;
      while y < n - 1
        invariant 1 <= y && Contents(image) == img
        invariant Nested(prog, x, y, accum, img, Contents(out), n) == goal
      {
        var st := EmulateCell(code, AtCell(x, y, accum), image, out);
        accum := st.accum;
        y := y + 1;
      }
      x := x + 1;
    }
  }

  /** The generator: one macro call per operation, in order. */
  method GenFunction(code: seq<int>) returns (body: seq<Instr>)
    requires Decode(code, 0).Some?
    ensures body == Decode(code, 0).value
  {
    body := [];
    var pc, done := 0, false;
    while !done
      invariant pc <= |code|
      invariant !done ==> Decode(code, pc).Some? && body + Decode(code, pc).value == Decode(code, 0).value
      invariant done ==> body == Decode(code, 0).value
      decreases !done, |code| - pc
    {
      if code[pc] == OP_END {
        done := true;
      } else {
        ghost var rest := Decode(code, pc).value;
        var i;
        i, pc := Fetch(code, pc);
        assert body + rest == (body + [i]) + Decode(code, pc).value;
        body := body + [i];
      }
    }
  }

  method RunBody(body: seq<Instr>, start: State, image: array2<int>, out: array2<int>) returns (st: State)
    requires IsSquare(image) && IsSquare(out) && image != out && image.Length0 == out.Length0
    requires Ready(body, 0, start, image.Length0)
    modifies out
    ensures (st, Contents(out)) == Exec(body, 0, start, Contents(image), old(Contents(out)), image.Length0)
  {
    ghost var n, img := image.Length0, Contents(image);
    ghost var goal := Exec(body, 0, start, img, Contents(out), n);
    st := start;
    var k := 0;
    while k < |body|
      invariant k <= |body| && Contents(image) == img
      invariant Ready(body, k, st, n)
      invariant Exec(body, k, st, img, Contents(out), n) == goal
    {
      st := Do(body[k], st, image, out);
      assert StaysInside(body, k + 1, st.x, st.y, n);
      k := k + 1;
    }
  }

  /** The emitted function, run from cell (1, 1): one loop, whose counters are the very
      registers the block moves. */
  method RunTranslated(body: seq<Instr>, accum0: int, image: array2<int>, out: array2<int>) returns (accum: int)
    requires IsSquare(image) && IsSquare(out) && image != out && image.Length0 == out.Length0 >= 3
    requires Safe(body, image.Length0) && Returns(body)
    modifies out
    ensures (accum, Contents(out))
         == Flat(body, 1, 1, accum0, Contents(image), old(Contents(out)), image.Length0)
  {
    ghost var img := Contents(image);
    var n := image.Length0;
    ghost var goal := Flat(body, 1, 1, accum0, img, Contents(out), n);
    var st := AtCell(1, 1, accum0);
    var done := false;
    while !done
      invariant Contents(image) == img
      invariant !done ==> 1 <= st.x < n - 1 && 1 <= st.y < n - 1
      invariant !done ==> Flat(body, st.x, st.y, st.accum, img, Contents(out), n) == goal
      invariant done ==> (st.accum, Contents(out)) == goal
      decreases !done, n - st.x, n - st.y
    {
      st := st.(loadX := st.x, loadY := st.y);
      st := st.(storeX := st.x, storeY := st.y);
      assert st == AtCell(st.x, st.y, st.accum);
      st := RunBody(body, st, image, out);
      st := st.(y := st.y + 1);
      if !(st.y < n - 1) {
        st := st.(y := 1);
        st := st.(x := st.x + 1);
        if !(st.x < n - 1) {
          done := true;
        }
      }
    }
    accum := st.accum;
  }

  /** Translating a block and running the result leaves the output array and the accumulator
      that interpreting the block leaves, for every block whose moves cancel out. */
  method ExecuteCodeBlock(code: seq<int>, accum0: int, image: array2<int>, out: array2<int>) returns (accum: int)
    requires IsSquare(image) && IsSquare(out) && image != out && image.Length0 == out.Length0 >= 3
    requires Decode(code, 0).Some? && Safe(Decode(code, 0).value, image.Length0)
    requires Returns(Decode(code, 0).value)
    modifies out
    ensures (accum, Contents(out))
         == Nested(Decode(code, 0).value, 1, 1, accum0, Contents(image), old(Contents(out)), image.Length0)
  {
    FlatIsNested(Decode(code, 0).value, 1, 1, accum0, Contents(image), Contents(out), image.Length0);
    var body := GenFunction(code);
    accum := RunTranslated(body, accum0, image, out);
  }
}
