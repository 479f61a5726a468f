/** The opcode language of the blur benchmark: its encoding, the meaning of its operations,
    and the two loop nests that run a block of opcodes over an array. */
module BlurProgram {

  // ---------------------------------------------------------------- encoding

  const OP_MOVE_REL := 0
  const OP_SET_ACCUM := 1
  const OP_ADD_DATA := 2
  const OP_SUBTRACT_DATA := 3
  const OP_MULTIPLY_DATA := 4
  const OP_STORE_DATA := 5
  const OP_END := 6

  datatype Instr =
    | MoveRel(dx: int, dy: int)
    | SetAccum(value: int)
    | AddData
    | SubtractData
    | MultiplyData
    | StoreData

  datatype Option<T> = None | Some(value: T)

  /** The operations encoded from `pc` up to the first OP_END; none when an unknown opcode
      or the end of the list comes first. The operands of a move are read left to right. */
  function Decode(code: seq<int>, pc: nat): Option<seq<Instr>>
    decreases |code| - pc
  {
    if pc >= |code| then None
    else if code[pc] == OP_END then Some([])
    else if code[pc] == OP_MOVE_REL then
      if pc + 2 < |code| then Cons(MoveRel(code[pc + 1], code[pc + 2]), Decode(code, pc + 3)) else None
    else if code[pc] == OP_SET_ACCUM then
      if pc + 1 < |code| then Cons(SetAccum(code[pc + 1]), Decode(code, pc + 2)) else None
    else if code[pc] == OP_ADD_DATA then Cons(AddData, Decode(code, pc + 1))
    else if code[pc] == OP_SUBTRACT_DATA then Cons(SubtractData, Decode(code, pc + 1))
    else if code[pc] == OP_MULTIPLY_DATA then Cons(MultiplyData, Decode(code, pc + 1))
    else if code[pc] == OP_STORE_DATA then Cons(StoreData, Decode(code, pc + 1))
    else None
  }

  function Cons(i: Instr, rest: Option<seq<Instr>>): Option<seq<Instr>> {
    if rest.None? then None else Some([i] + rest.value)
  }

  // ---------------------------------------------------------------- meaning

  type Grid = seq<seq<int>>

  ghost predicate Square(g: Grid, n: nat) {
    |g| == n && forall x :: 0 <= x < n ==> |g[x]| == n
  }

  /** The interpreter's registers; the two pointers are coordinates in the input and in the
      output array. */
  datatype State = State(x: int, y: int, accum: int, loadX: int, loadY: int, storeX: int, storeY: int)

  predicate InGrid(x: int, y: int, n: nat) {
    0 <= x < n && 0 <= y < n
  }

  /** Every cell the moves of `prog` pass over, from operation k at (x, y) on, lies in the array. */
  predicate StaysInside(prog: seq<Instr>, k: nat, x: int, y: int, n: nat)
    requires k <= |prog|
    decreases |prog| - k
  {
    InGrid(x, y, n) &&
    (k < |prog| ==> StaysInside(prog, k + 1, x + StepX(prog[k]), y + StepY(prog[k]), n))
  }

  function StepX(i: Instr): int {
    if i.MoveRel? then i.dx else 0
  }

  function StepY(i: Instr): int {
    if i.MoveRel? then i.dy else 0
  }

  /** `prog` can be run from every interior cell. */
  ghost predicate Safe(prog: seq<Instr>, n: nat) {
    forall x, y :: 1 <= x < n - 1 && 1 <= y < n - 1 ==> StaysInside(prog, 0, x, y, n)
  }

  /** How far the operations from k on move. */
  function NetX(prog: seq<Instr>, k: nat): int
    requires k <= |prog|
    decreases |prog| - k
  {
    if k == |prog| then 0 else StepX(prog[k]) + NetX(prog, k + 1)
  }

  function NetY(prog: seq<Instr>, k: nat): int
    requires k <= |prog|
    decreases |prog| - k
  {
    if k == |prog| then 0 else StepY(prog[k]) + NetY(prog, k + 1)
  }

  /** The moves of the block cancel out. */
  predicate Returns(prog: seq<Instr>) {
    NetX(prog, 0) == 0 && NetY(prog, 0) == 0
  }

  function Put(g: Grid, x: nat, y: nat, v: int): (r: Grid)
    requires x < |g| && y < |g[x]|
    ensures |r| == |g| && forall i :: 0 <= i < |g| ==> |r[i]| == |g[i]|
  {
    g[x := g[x][y := v]]
  }

  ghost predicate Pointing(st: State, n: nat) {
    InGrid(st.loadX, st.loadY, n) && InGrid(st.storeX, st.storeY, n)
  }

  function Step(i: Instr, st: State, image: Grid, out: Grid, n: nat): (r: (State, Grid))
    requires Square(image, n) && Square(out, n) && Pointing(st, n)
    ensures Square(r.1, n)
  {
    match i
    case MoveRel(dx, dy) =>
      (st.(x := st.x + dx, y := st.y + dy, loadX := st.x + dx, loadY := st.y + dy), out)
    case SetAccum(v) => (st.(accum := v), out)
    case AddData => (st.(accum := st.accum + image[st.loadX][st.loadY]), out)
    case SubtractData => (st.(accum := st.accum - image[st.loadX][st.loadY]), out)
    case MultiplyData => (st.(accum := st.accum * image[st.loadX][st.loadY]), out)
    case StoreData => (st, Put(out, st.storeX, st.storeY, st.accum))
  }

  ghost predicate Ready(prog: seq<Instr>, k: nat, st: State, n: nat)
    requires k <= |prog|
  {
    && st.loadX == st.x && st.loadY == st.y && Pointing(st, n)
    && StaysInside(prog, k, st.x, st.y, n)
  }

  /** Runs the operations from k on. */
  function Exec(prog: seq<Instr>, k: nat, st: State, image: Grid, out: Grid, n: nat): (r: (State, Grid))
    requires k <= |prog| && Square(image, n) && Square(out, n) && Ready(prog, k, st, n)
    ensures Square(r.1, n)
    ensures r.0.x == st.x + NetX(prog, k) && r.0.y == st.y + NetY(prog, k)
    decreases |prog| - k
  {
    if k == |prog| then (st, out)
    else
      var (st', out') := Step(prog[k], st, image, out, n);
      assert StaysInside(prog, k + 1, st'.x, st'.y, n);
      Exec(prog, k + 1, st', image, out', n)
  }

  /** The registers at the start of a block on cell (x, y). */
  function AtCell(x: int, y: int, accum: int): State {
    State(x, y, accum, x, y, x, y)
  }

  // ---------------------------------------------------------------- the two loop nests

  /** The interpreter's nested loops from cell (x, y) on: each cell starts from its own
      coordinates, the accumulator is carried over. */
  function Nested(prog: seq<Instr>, x: nat, y: nat, accum: int, image: Grid, out: Grid, n: nat): (r: (int, Grid))
    requires Square(image, n) && Square(out, n) && Safe(prog, n) && 1 <= x && 1 <= y
    ensures Square(r.1, n)
    decreases n - x, n - y
  {
    if x >= n - 1 then (accum, out)
    else if y >= n - 1 then Nested(prog, x + 1, 1, accum, image, out, n)
    else
      var (st, out') := Exec(prog, 0, AtCell(x, y, accum), image, out, n);
      Nested(prog, x, y + 1, st.accum, image, out', n)
  }

  /** The generated function's single loop: the block moves x and y, and the loop count
      updates go on from wherever the block left them. */
  function Flat(prog: seq<Instr>, x: nat, y: nat, accum: int, image: Grid, out: Grid, n: nat): (r: (int, Grid))
    requires Square(image, n) && Square(out, n) && Safe(prog, n)
    requires 1 <= x < n - 1 && 1 <= y < n - 1
    requires Returns(prog)
    ensures Square(r.1, n)
    decreases n - x, n - y
  {
    var (st, out') := Exec(prog, 0, AtCell(x, y, accum), image, out, n);
    var y' := st.y + 1;
    if y' < n - 1 then Flat(prog, st.x, y', st.accum, image, out', n)
    else if st.x + 1 < n - 1 then Flat(prog, st.x + 1, 1, st.accum, image, out', n)
    else (st.accum, out')
  }

  /** The translated block computes what the interpreted block computes. */
  lemma {:induction false} FlatIsNested(prog: seq<Instr>, x: nat, y: nat, accum: int, image: Grid, out: Grid, n: nat)
    requires Square(image, n) && Square(out, n) && Safe(prog, n)
    requires 1 <= x < n - 1 && 1 <= y < n - 1
    requires Returns(prog)
    ensures Flat(prog, x, y, accum, image, out, n) == Nested(prog, x, y, accum, image, out, n)
    decreases n - x, n - y
  {
    var (st, out') := Exec(prog, 0, AtCell(x, y, accum), image, out, n);
    assert Nested(prog, x, y, accum, image, out, n) == Nested(prog, x, y + 1, st.accum, image, out', n);
    if y + 1 < n - 1 {
      FlatIsNested(prog, x, y + 1, st.accum, image, out', n);
    } else if x + 1 < n - 1 {
      FlatIsNested(prog, x + 1, 1, st.accum, image, out', n);
    } else {
      assert Nested(prog, x + 1, 1, st.accum, image, out', n) == (st.accum, out');
    }
  }
}
