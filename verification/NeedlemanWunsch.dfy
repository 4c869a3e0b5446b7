/**
 * The blocked wavefront of src/NW/main.c. A matrix of R x R sub-blocks of B x B
 * cells, with a border row and column and one spare column, is filled diagonal by
 * diagonal. All sub-blocks of a diagonal run concurrently, one row transfer a step.
 */
module NeedlemanWunsch {
  import opened Words
  import Shares
  import Slices

  /** Sub-block side B (BL_IN), sub-blocks a side R (REP), the score matrix and the starting matrix. */
  datatype Setup = Setup(b: nat, reps: nat, scores: seq<seq<int>>, penalty: nat, start: seq<seq<int>>)

  type Matrix = seq<seq<int>>

  function Side(p: Setup): nat { p.reps * p.b }

  predicate MatrixSized(p: Setup, mem: Matrix)
  {
    |mem| == Side(p) + 1 && forall r :: 0 <= r < |mem| ==> |mem[r]| == Side(p) + 2
  }

  predicate Good(p: Setup)
  {
    && p.b > 0 && p.reps > 0
    && |p.scores| == Side(p) && (forall r :: 0 <= r < |p.scores| ==> |p.scores[r]| == Side(p))
    && MatrixSized(p, p.start)
  }

  // ----- the recurrence -----

  /** Conversion to int32_t. */
  function ToInt32(x: int): int
  {
    var w := x % 0x1_0000_0000;
    if w < 0x8000_0000 then w else w - 0x1_0000_0000
  }

  function Maximum(a: int, b: int, c: int): (k: int)
    ensures k >= a && k >= b && k >= c && (k == a || k == b || k == c)
  {
    var k := if a <= b then b else a;
    if k <= c then c else k
  }

  function Score(diag: int, left: int, up: int, score: int, penalty: nat): int
  {
    Maximum(ToInt32(diag + score), ToInt32(left - penalty), ToInt32(up - penalty))
  }

  /** The row-major recurrence over the whole matrix, the border taken from the starting matrix. */
  function Cell(p: Setup, r: nat, c: nat): int
    requires Good(p) && r <= Side(p) && c <= Side(p)
    decreases r, c
  {
    if r == 0 || c == 0 then p.start[r][c]
    else Score(Cell(p, r - 1, c - 1), Cell(p, r, c - 1), Cell(p, r - 1, c), p.scores[r - 1][c - 1], p.penalty)
  }

  /** The same recurrence inside one cached sub-block. */
  function BlockCell(cache: Matrix, scores: Matrix, penalty: nat, i: nat, j: nat): int
    requires i < |cache| && (forall x :: 0 <= x <= i ==> j < |cache[x]|)
    requires i <= |scores| && (forall x :: 0 <= x < i ==> j <= |scores[x]|)
    decreases i, j
  {
    if i == 0 || j == 0 then cache[i][j]
    else Score(BlockCell(cache, scores, penalty, i - 1, j - 1), BlockCell(cache, scores, penalty, i, j - 1),
               BlockCell(cache, scores, penalty, i - 1, j), scores[i - 1][j - 1], penalty)
  }

  lemma BlockBorder(cache: Matrix, scores: Matrix, penalty: nat, i: nat, j: nat)
    requires i < |cache| && (forall x :: 0 <= x <= i ==> j < |cache[x]|) && (i == 0 || j == 0)
    requires i <= |scores| && (forall x :: 0 <= x < i ==> j <= |scores[x]|)
    ensures BlockCell(cache, scores, penalty, i, j) == cache[i][j]
  {
  }

  lemma BlockStep(cache: Matrix, scores: Matrix, penalty: nat, i: nat, j: nat)
    requires 0 < i < |cache| && 0 < j && (forall x :: 0 <= x <= i ==> j < |cache[x]|)
    requires i <= |scores| && (forall x :: 0 <= x < i ==> j <= |scores[x]|)
    ensures BlockCell(cache, scores, penalty, i, j)
         == Score(BlockCell(cache, scores, penalty, i - 1, j - 1), BlockCell(cache, scores, penalty, i, j - 1),
                  BlockCell(cache, scores, penalty, i - 1, j), scores[i - 1][j - 1], penalty)
  {
  }

  /** The doubly nested loop over one cached sub-block, in place. */
  method ComputeBlock(cache: array2<int>, scores: array2<int>, penalty: nat, b: nat, ghost c0: Matrix, ghost s0: Matrix)
    requires cache.Length0 == b + 1 && cache.Length1 == b + 2
    requires scores.Length0 == b && scores.Length1 == b && scores != cache
    requires |c0| == b + 1 && forall i :: 0 <= i <= b ==> |c0[i]| == b + 2
    requires |s0| == b && forall i :: 0 <= i < b ==> |s0[i]| == b
    requires forall i, j :: 0 <= i <= b && 0 <= j < b + 2 ==> cache[i, j] == c0[i][j]
    requires forall i, j :: 0 <= i < b && 0 <= j < b ==> scores[i, j] == s0[i][j]
    modifies cache
    ensures forall i: nat, j: nat :: i <= b && j <= b ==> cache[i, j] == BlockCell(c0, s0, penalty, i, j)
    ensures forall i: nat :: i <= b ==> cache[i, b + 1] == c0[i][b + 1]
  {
    hide Score, BlockCell;
    forall x: nat, y: nat | x <= b && y <= b && (x == 0 || y == 0)
      ensures BlockCell(c0, s0, penalty, x, y) == c0[x][y]
    {
      BlockBorder(c0, s0, penalty, x, y);
    }
    for i := 1 to b + 1
      invariant forall x: nat, y: nat :: x < i && y <= b ==> cache[x, y] == BlockCell(c0, s0, penalty, x, y)
      invariant forall x: nat, y: nat :: i <= x <= b && y <= b ==> cache[x, y] == c0[x][y]
      invariant forall x: nat :: x <= b ==> cache[x, b + 1] == c0[x][b + 1]
    {
      for j := 1 to b + 1
        invariant forall x: nat, y: nat :: x < i && y <= b ==> cache[x, y] == BlockCell(c0, s0, penalty, x, y)
        invariant forall y: nat :: y < j ==> cache[i, y] == BlockCell(c0, s0, penalty, i, y)
        invariant forall y: nat :: j <= y <= b ==> cache[i, y] == c0[i][y]
        invariant forall x: nat, y: nat :: i < x <= b && y <= b ==> cache[x, y] == c0[x][y]
        invariant forall x: nat :: x <= b ==> cache[x, b + 1] == c0[x][b + 1]
      {
        BlockStep(c0, s0, penalty, i, j);
        cache[i, j] := Score(cache[i - 1, j - 1], cache[i, j - 1], cache[i - 1, j], scores[i - 1, j - 1], penalty);
      }
    }
  }

  // ----- one diagonal as a step system -----

  /** A sub-block: rows of the cache loaded so far, or the computed cache and rows 1..k stored. */
  datatype Pc =
    | Load(cache: Matrix)
    | Store(cache: Matrix, k: nat)

  /** blocks[x] is the state of the sub-block in row x of the diagonal. */
  datatype State = State(mem: Matrix, blocks: map<nat, Pc>)

  /** Is there a sub-block in row x on diagonal d? */
  predicate OnDiagonal(p: Setup, x: nat, d: nat)
  {
    x <= d && x < p.reps && d - x < p.reps
  }

  /** Row or column x * b + i of the matrix, for sub-block row or column x and i <= b. */
  function At(p: Setup, x: nat, i: nat): nat
  {
    x * p.b + i
  }

  lemma InSide(p: Setup, x: nat, i: nat)
    requires x < p.reps && i <= p.b
    ensures At(p, x, i) <= Side(p) && At(p, x, i) == At(p, x, 0) + i
    ensures At(p, x, p.b) == At(p, x + 1, 0)
  {
    Shares.ProductStep(x, p.reps, p.b);
    assert (x + 1) * p.b == x * p.b + p.b;
  }

  /** The piece of row r of a matrix from column c on, n cells. */
  function RowPiece(row: seq<int>, c: nat, n: nat): (s: seq<int>)
    requires c + n <= |row|
    ensures |s| == n && forall j :: 0 <= j < n ==> s[j] == row[c + j]
  {
    row[c..c + n]
  }

  /** The scores cached for sub-block (x, y). */
  function Scores(p: Setup, x: nat, y: nat): (s: Matrix)
    requires Good(p) && x < p.reps && y < p.reps
    ensures |s| == p.b && forall i :: 0 <= i < p.b ==> |s[i]| == p.b
    ensures forall i, j :: 0 <= i < p.b && 0 <= j < p.b ==>
              At(p, x, 0) + i < Side(p) && At(p, y, 0) + j < Side(p)
              && s[i][j] == p.scores[At(p, x, 0) + i][At(p, y, 0) + j]
  {
    InSide(p, x, p.b);
    InSide(p, y, p.b);
    var s := seq(p.b, i requires 0 <= i < p.b => RowPiece(p.scores[At(p, x, 0) + i], At(p, y, 0), p.b));
    assert forall i :: 0 <= i < p.b ==> s[i] == RowPiece(p.scores[At(p, x, 0) + i], At(p, y, 0), p.b);
    s
  }

  /** What one row transfer brings into the cache: the whole of row 0, two cells of a later row over stale ones. */
  function LoadedRow(p: Setup, mem: Matrix, x: nat, y: nat, i: nat, stale: seq<int>): (row: seq<int>)
    requires Good(p) && MatrixSized(p, mem) && x < p.reps && y < p.reps && i <= p.b && |stale| == p.b + 2
    ensures |row| == p.b + 2
  {
    InSide(p, x, i);
    InSide(p, y, p.b);
    var line := mem[At(p, x, i)];
    if i == 0 then RowPiece(line, At(p, y, 0), p.b + 2)
    else RowPiece(line, At(p, y, 0), 2) + stale[2..]
  }

  /** The cache after the nested loop. */
  function Computed(p: Setup, cache: Matrix, x: nat, y: nat): (c: Matrix)
    requires Good(p) && x < p.reps && y < p.reps
    requires |cache| == p.b + 1 && forall i :: 0 <= i <= p.b ==> |cache[i]| == p.b + 2
    ensures |c| == p.b + 1 && forall i :: 0 <= i <= p.b ==> |c[i]| == p.b + 2
    ensures forall i: nat, j: nat :: i <= p.b && j <= p.b ==>
              c[i][j] == BlockCell(cache, Scores(p, x, y), p.penalty, i, j)
  {
    seq(p.b + 1, i requires 0 <= i <= p.b =>
      seq(p.b + 2, j requires 0 <= j < p.b + 2 =>
        if j <= p.b then BlockCell(cache, Scores(p, x, y), p.penalty, i, j) else cache[i][j]))
  }

  predicate PcSized(p: Setup, pc: Pc)
  {
    (forall i :: 0 <= i < |pc.cache| ==> |pc.cache[i]| == p.b + 2)
    && (if pc.Load? then |pc.cache| <= p.b + 1 else |pc.cache| == p.b + 1 && pc.k <= p.b)
  }

  ghost predicate Sized(p: Setup, s: State, d: nat)
  {
    && MatrixSized(p, s.mem)
    && (forall x :: x in s.blocks <==> OnDiagonal(p, x, d))
    && (forall x :: x in s.blocks ==> PcSized(p, s.blocks[x]))
  }

  /** All rows loaded and stored again. */
  predicate Finished(p: Setup, pc: Pc)
  {
    pc.Store? && pc.k == p.b
  }

  /** The next row transfer of sub-block (x, y) in state pc; computing happens between load and store. */
  function Transfer(p: Setup, mem: Matrix, pc: Pc, x: nat, y: nat, stale: seq<int>): (next: (Matrix, Pc))
    requires Good(p) && MatrixSized(p, mem) && PcSized(p, pc) && x < p.reps && y < p.reps && |stale| == p.b + 2
    ensures MatrixSized(p, next.0) && PcSized(p, next.1)
  {
    match pc
    case Load(cache) =>
      if |cache| <= p.b then (mem, Load(cache + [LoadedRow(p, mem, x, y, |cache|, stale)]))
      else (mem, Store(Computed(p, cache, x, y), 0))
    case Store(cache, k) =>
      if k == p.b then (mem, pc)
      else
        InSide(p, x, k + 1);
        InSide(p, y, p.b);
        var r := At(p, x, k + 1);
        (mem[r := Slices.Overwrite(mem[r], At(p, y, 0), cache[k + 1])], Store(cache, k + 1))
  }

  /** The next row transfer of the sub-block in row x of the diagonal. */
  function Step(p: Setup, s: State, d: nat, x: nat, stale: seq<int>): (s': State)
    requires Good(p) && Sized(p, s, d) && OnDiagonal(p, x, d) && |stale| == p.b + 2
    ensures Sized(p, s', d)
  {
    var (mem, pc) := Transfer(p, s.mem, s.blocks[x], x, d - x, stale);
    State(mem, s.blocks[x := pc])
  }

  // ----- the invariant -----

  /** The sub-block row or column of a cell inside the border. */
  function BlockOf(p: Setup, r: nat): nat
    requires r > 0 && p.b > 0
  {
    (r - 1) / p.b
  }

  lemma BlockOfAt(p: Setup, x: nat, i: nat)
    requires 0 < i <= p.b
    ensures BlockOf(p, At(p, x, i)) == x
  {
    ModUnique(At(p, x, i) - 1, p.b, x, i - 1);
  }

  lemma AtBlockOf(p: Setup, r: nat)
    requires p.b > 0 && 0 < r <= Side(p)
    ensures BlockOf(p, r) < p.reps
    ensures var i := r - At(p, BlockOf(p, r), 0); 0 < i <= p.b && r == At(p, BlockOf(p, r), i)
  {
    var x := BlockOf(p, r);
    MulAtLeast(p.b, x - p.reps);
    assert (x - p.reps) * p.b == x * p.b - p.reps * p.b;
  }

  /** Has the sub-block on diagonal d that owns row r stored that row? */
  predicate RowStored(p: Setup, s: State, d: nat, r: nat)
    requires p.b > 0 && r > 0
  {
    var x := BlockOf(p, r);
    x in s.blocks && s.blocks[x].Store? && r <= At(p, x, s.blocks[x].k)
  }

  /** Must cell (r, c) hold its final value while diagonal d is worked on? */
  predicate Settled(p: Setup, s: State, d: nat, r: nat, c: nat)
    requires p.b > 0
  {
    r == 0 || c == 0 || BlockOf(p, r) + BlockOf(p, c) < d
    || (BlockOf(p, r) + BlockOf(p, c) == d && RowStored(p, s, d, r))
  }

  ghost predicate CellInv(p: Setup, s: State, d: nat, r: nat, c: nat)
    requires Good(p) && MatrixSized(p, s.mem) && r <= Side(p) && c <= Side(p)
  {
    Settled(p, s, d, r, c) ==> s.mem[r][c] == Cell(p, r, c)
  }

  /** What the cache of the sub-block in row x holds where it matters. */
  ghost predicate BlockInv(p: Setup, pc: Pc, x: nat, y: nat)
    requires Good(p) && x < p.reps && y < p.reps && PcSized(p, pc)
  {
    InSide(p, x, p.b);
    InSide(p, y, p.b);
    if pc.Load? then
      && (|pc.cache| > 0 ==> forall j :: 0 <= j <= p.b ==> pc.cache[0][j] == Cell(p, At(p, x, 0), At(p, y, 0) + j))
      && (forall i :: 0 <= i < |pc.cache| ==> pc.cache[i][0] == Cell(p, At(p, x, 0) + i, At(p, y, 0)))
    else
      forall i, j :: 0 < i <= p.b && 0 <= j <= p.b ==> pc.cache[i][j] == Cell(p, At(p, x, 0) + i, At(p, y, 0) + j)
  }

  ghost predicate Inv(p: Setup, s: State, d: nat)
  {
    && Good(p) && Sized(p, s, d)
    && (forall r: nat, c: nat :: r <= Side(p) && c <= Side(p) ==> CellInv(p, s, d, r, c))
    && (forall x :: x in s.blocks ==> BlockInv(p, s.blocks[x], x, d - x))
  }

  /** A cached sub-block whose top row and left column are final computes the recurrence. */
  lemma {:induction false} BlockIsRecurrence(p: Setup, cache: Matrix, x: nat, y: nat, i: nat, j: nat)
    requires Good(p) && x < p.reps && y < p.reps && i <= p.b && j <= p.b
    requires |cache| == p.b + 1 && PcSized(p, Load(cache)) && BlockInv(p, Load(cache), x, y)
    ensures At(p, x, 0) + i <= Side(p) && At(p, y, 0) + j <= Side(p)
    ensures BlockCell(cache, Scores(p, x, y), p.penalty, i, j) == Cell(p, At(p, x, 0) + i, At(p, y, 0) + j)
    decreases i, j
  {
    hide Score;
    InSide(p, x, p.b);
    InSide(p, y, p.b);
    if i > 0 && j > 0 {
      BlockIsRecurrence(p, cache, x, y, i - 1, j - 1);
      BlockIsRecurrence(p, cache, x, y, i, j - 1);
      BlockIsRecurrence(p, cache, x, y, i - 1, j);
    }
  }

  /** The cells a load reads and uses belong to earlier diagonals or to the border. */
  lemma LoadIsFinal(p: Setup, s: State, d: nat, x: nat, i: nat, j: nat)
    requires Inv(p, s, d) && OnDiagonal(p, x, d) && i <= p.b && j <= p.b && (i == 0 || j == 0)
    ensures At(p, x, i) <= Side(p) && At(p, d - x, j) <= Side(p)
    ensures s.mem[At(p, x, i)][At(p, d - x, j)] == Cell(p, At(p, x, i), At(p, d - x, j))
  {
    var y := d - x;
    InSide(p, x, i);
    InSide(p, y, j);
    var r, c := At(p, x, i), At(p, y, j);
    if r > 0 && c > 0 {
      CellBlock(p, x, i, r);
      CellBlock(p, y, j, c);
    }
    assert CellInv(p, s, d, r, c);
  }

  /** Row x*b + i lies in sub-block x, or in the one before if i is 0. */
  lemma CellBlock(p: Setup, x: nat, i: nat, r: nat)
    requires p.b > 0 && i <= p.b && r == At(p, x, i) && r > 0
    ensures if i > 0 then BlockOf(p, r) == x else x > 0 && BlockOf(p, r) == x - 1
  {
    if i > 0 {
      BlockOfAt(p, x, i);
    } else {
      if x > 0 {
        assert At(p, x, 0) == At(p, x - 1, p.b) by {
          assert (x - 1) * p.b == x * p.b - p.b;
        }
        BlockOfAt(p, x - 1, p.b);
      }
    }
  }

  lemma LoadKeepsBlock(p: Setup, s: State, d: nat, x: nat, stale: seq<int>)
    requires Inv(p, s, d) && OnDiagonal(p, x, d) && |stale| == p.b + 2
    requires s.blocks[x].Load? && |s.blocks[x].cache| <= p.b
    ensures BlockInv(p, Step(p, s, d, x, stale).blocks[x], x, d - x)
  {
    hide Cell, BlockCell;
    var y := d - x;
    var cache := s.blocks[x].cache;
    var i := |cache|;
    var row := LoadedRow(p, s.mem, x, y, i, stale);
    assert PcSized(p, s.blocks[x]) && BlockInv(p, s.blocks[x], x, y);
    InSide(p, x, i);
    InSide(p, y, p.b);
    LoadIsFinal(p, s, d, x, i, 0);
    assert row[0] == s.mem[At(p, x, i)][At(p, y, 0)];
    if i == 0 {
      forall j | 0 <= j <= p.b ensures row[j] == Cell(p, At(p, x, 0), At(p, y, 0) + j) {
        InSide(p, y, j);
        LoadIsFinal(p, s, d, x, 0, j);
      }
    }
  }

  lemma ComputeKeepsBlock(p: Setup, s: State, d: nat, x: nat, stale: seq<int>)
    requires Inv(p, s, d) && OnDiagonal(p, x, d) && |stale| == p.b + 2
    requires s.blocks[x].Load? && |s.blocks[x].cache| == p.b + 1
    ensures BlockInv(p, Step(p, s, d, x, stale).blocks[x], x, d - x)
  {
    hide Cell, BlockCell;
    var y := d - x;
    InSide(p, x, p.b);
    InSide(p, y, p.b);
    assert PcSized(p, s.blocks[x]) && BlockInv(p, s.blocks[x], x, y);
    var c := Computed(p, s.blocks[x].cache, x, y);
    forall i, j | 0 < i <= p.b && 0 <= j <= p.b ensures c[i][j] == Cell(p, At(p, x, 0) + i, At(p, y, 0) + j) {
      BlockIsRecurrence(p, s.blocks[x].cache, x, y, i, j);
    }
  }

  /** Which diagonal a stored cell is on: the last one stored belongs to the right neighbour. */
  lemma StoredCell(p: Setup, x: nat, y: nat, i: nat, j: nat, c: nat)
    requires p.b > 0 && 0 < i <= p.b && j <= p.b + 1 && c == At(p, y, 0) + j && c > 0
    ensures BlockOf(p, At(p, x, i)) == x
    ensures 0 < j <= p.b ==> BlockOf(p, c) == y
    ensures j == p.b + 1 ==> BlockOf(p, c) == y + 1
  {
    BlockOfAt(p, x, i);
    if 0 < j <= p.b {
      BlockOfAt(p, y, j);
    } else if j == p.b + 1 {
      assert (y + 1) * p.b == y * p.b + p.b;
      BlockOfAt(p, y + 1, 1);
    }
  }

  /** Storing a row settles its own cells and spoils only cells of a later diagonal or the spare column. */
  lemma StoreKeepsCell(p: Setup, s: State, d: nat, x: nat, stale: seq<int>, r: nat, c: nat)
    requires Inv(p, s, d) && OnDiagonal(p, x, d) && |stale| == p.b + 2
    requires s.blocks[x].Store? && s.blocks[x].k < p.b && r <= Side(p) && c <= Side(p)
    ensures CellInv(p, Step(p, s, d, x, stale), d, r, c)
  {
    hide Cell, BlockCell;
    var y, i := d - x, s.blocks[x].k + 1;
    var cache := s.blocks[x].cache;
    var s' := Step(p, s, d, x, stale);
    assert PcSized(p, s.blocks[x]) && BlockInv(p, s.blocks[x], x, y) && CellInv(p, s, d, r, c);
    InSide(p, x, i);
    InSide(p, y, p.b);
    if r == At(p, x, i) {
      if At(p, y, 0) <= c <= At(p, y, 0) + p.b + 1 {
        var j := c - At(p, y, 0);
        assert s'.mem[r][c] == cache[i][j];
        if c > 0 {
          StoredCell(p, x, y, i, j, c);
        }
      } else if c > 0 {
        BlockOfAt(p, x, i);
        AtBlockOf(p, c);
      }
    } else if r > 0 {
      AtBlockOf(p, r);
      RowStoredElsewhere(p, s, d, x, stale, r);
    }
  }

  /** No other row becomes stored. */
  lemma RowStoredElsewhere(p: Setup, s: State, d: nat, x: nat, stale: seq<int>, r: nat)
    requires Good(p) && Sized(p, s, d) && OnDiagonal(p, x, d) && |stale| == p.b + 2
    requires s.blocks[x].Store? && s.blocks[x].k < p.b
    requires 0 < r <= Side(p) && r != At(p, x, s.blocks[x].k + 1)
    ensures RowStored(p, Step(p, s, d, x, stale), d, r) ==> RowStored(p, s, d, r)
  {
  }

  lemma StepKeepsCell(p: Setup, s: State, d: nat, x: nat, stale: seq<int>, r: nat, c: nat)
    requires Inv(p, s, d) && OnDiagonal(p, x, d) && |stale| == p.b + 2 && r <= Side(p) && c <= Side(p)
    ensures CellInv(p, Step(p, s, d, x, stale), d, r, c)
  {
    hide BlockInv, Cell;
    assert CellInv(p, s, d, r, c);
    if s.blocks[x].Load? {
      LoadStoresNothing(p, s, d, x, stale, r);
    } else if s.blocks[x].k < p.b {
      StoreKeepsCell(p, s, d, x, stale, r, c);
    }
  }

  lemma StepKeepsBlock(p: Setup, s: State, d: nat, x: nat, stale: seq<int>)
    requires Inv(p, s, d) && OnDiagonal(p, x, d) && |stale| == p.b + 2
    ensures BlockInv(p, Step(p, s, d, x, stale).blocks[x], x, d - x)
  {
    hide BlockInv, CellInv, Cell;
    assert PcSized(p, s.blocks[x]) && BlockInv(p, s.blocks[x], x, d - x);
    if s.blocks[x].Store? {
      SameCache(p, s, d, x, stale);
    } else if |s.blocks[x].cache| <= p.b {
      LoadKeepsBlock(p, s, d, x, stale);
    } else {
      ComputeKeepsBlock(p, s, d, x, stale);
    }
  }

  /** What every row transfer keeps. */
  lemma StepKeepsInv(p: Setup, s: State, d: nat, x: nat, stale: seq<int>)
    requires Inv(p, s, d) && OnDiagonal(p, x, d) && |stale| == p.b + 2
    ensures Inv(p, Step(p, s, d, x, stale), d)
  {
    hide BlockInv, CellInv, Cell, Transfer;
    var s' := Step(p, s, d, x, stale);
    forall r: nat, c: nat | r <= Side(p) && c <= Side(p) ensures CellInv(p, s', d, r, c) {
      StepKeepsCell(p, s, d, x, stale, r, c);
    }
    StepKeepsBlock(p, s, d, x, stale);
    assert forall u :: u in s'.blocks && u != x ==> s'.blocks[u] == s.blocks[u];
  }

  lemma SameCache(p: Setup, s: State, d: nat, x: nat, stale: seq<int>)
    requires Good(p) && Sized(p, s, d) && OnDiagonal(p, x, d) && |stale| == p.b + 2 && s.blocks[x].Store?
    requires PcSized(p, s.blocks[x]) && BlockInv(p, s.blocks[x], x, d - x)
    ensures var pc := Step(p, s, d, x, stale).blocks[x]; PcSized(p, pc) && BlockInv(p, pc, x, d - x)
  {
    hide Cell;
  }

  lemma LoadStoresNothing(p: Setup, s: State, d: nat, x: nat, stale: seq<int>, r: nat)
    requires Good(p) && Sized(p, s, d) && OnDiagonal(p, x, d) && |stale| == p.b + 2 && s.blocks[x].Load?
    ensures r > 0 && r <= Side(p) ==> RowStored(p, Step(p, s, d, x, stale), d, r) == RowStored(p, s, d, r)
  {
    if 0 < r <= Side(p) {
      AtBlockOf(p, r);
    }
  }

  // ----- from one diagonal to the next -----

  ghost predicate Start(p: Setup, s: State, d: nat, mem: Matrix)
  {
    s.mem == mem && (forall x :: x in s.blocks <==> OnDiagonal(p, x, d))
    && forall x :: x in s.blocks ==> s.blocks[x] == Load([])
  }

  /** All cells of diagonals below d, and the border, are final. */
  ghost predicate FinalBelow(p: Setup, mem: Matrix, d: nat)
  {
    Good(p) && MatrixSized(p, mem)
    && forall r: nat, c: nat ::
         r <= Side(p) && c <= Side(p) && (r == 0 || c == 0 || BlockOf(p, r) + BlockOf(p, c) < d) ==>
           mem[r][c] == Cell(p, r, c)
  }

  lemma StartInv(p: Setup, s: State, d: nat, mem: Matrix)
    requires FinalBelow(p, mem, d) && Start(p, s, d, mem)
    ensures Inv(p, s, d)
  {
    hide Cell;
  }

  /** With every sub-block of a diagonal stored, the diagonal is final. */
  lemma AllFinishedSettles(p: Setup, s: State, d: nat)
    requires Inv(p, s, d) && forall x :: OnDiagonal(p, x, d) ==> x in s.blocks && Finished(p, s.blocks[x])
    ensures FinalBelow(p, s.mem, d + 1)
  {
    hide Cell;
    forall r: nat, c: nat | r <= Side(p) && c <= Side(p)
      && (r == 0 || c == 0 || BlockOf(p, r) + BlockOf(p, c) < d + 1) ensures s.mem[r][c] == Cell(p, r, c)
    {
      assert CellInv(p, s, d, r, c);
      if r > 0 && c > 0 {
        AtBlockOf(p, r);
        AtBlockOf(p, c);
      }
    }
  }

  lemma BorderCell(p: Setup, r: nat, c: nat)
    requires Good(p) && r <= Side(p) && c <= Side(p)
    ensures r == 0 || c == 0 ==> Cell(p, r, c) == p.start[r][c]
  {
  }

  // ----- who works on what -----

  function Chunks(total: nat, tid: nat, tasklets: nat): nat
    requires tasklets > 0
  {
    total / tasklets + if tid < total % tasklets then 1 else 0
  }

  /** The start index as the kernel computes it, by cases on the remainder. */
  function ChunkStart(total: nat, tid: nat, tasklets: nat): nat
    requires tasklets > 0
  {
    var chunks, mod := Chunks(total, tid, tasklets), total % tasklets;
    if mod > 0 && tid >= mod then mod * (chunks + 1) + (tid - mod) * chunks else tid * chunks
  }

  lemma ChunksAdjacent(total: nat, tid: nat, tasklets: nat)
    requires tid < tasklets
    ensures ChunkStart(total, tid + 1, tasklets) == ChunkStart(total, tid, tasklets) + Chunks(total, tid, tasklets)
  {
    var q, mod := total / tasklets, total % tasklets;
    assert (tid + 1) * (q + 1) == tid * (q + 1) + (q + 1);
    assert (tid + 1) * q == tid * q + q;
    if tid >= mod {
      assert (tid + 1 - mod) * q == (tid - mod) * q + q;
    }
  }

  /** Every index of a diagonal belongs to the chunk of exactly one tasklet. */
  lemma {:induction false} ChunkOwner(total: nat, tasklets: nat, index: nat, t: nat) returns (tid: nat)
    requires t <= tasklets && tasklets > 0 && index < ChunkStart(total, t, tasklets)
    ensures tid < t
    ensures ChunkStart(total, tid, tasklets) <= index < ChunkStart(total, tid, tasklets) + Chunks(total, tid, tasklets)
    decreases t
  {
    hide ChunkStart, Chunks;
    NoChunks(total, tasklets);
    tid := 0;
    if t > 0 {
      ChunksAdjacent(total, t - 1, tasklets);
      if index >= ChunkStart(total, t - 1, tasklets) {
        tid := t - 1;
        return;
      }
      tid := ChunkOwner(total, tasklets, index, t - 1);
    }
  }

  lemma NoChunks(total: nat, tasklets: nat)
    requires tasklets > 0
    ensures ChunkStart(total, 0, tasklets) == 0
  {
  }

  lemma {:induction false} ChunksOrdered(total: nat, tasklets: nat, t: nat, u: nat)
    requires t < u <= tasklets
    ensures ChunkStart(total, t, tasklets) + Chunks(total, t, tasklets) <= ChunkStart(total, u, tasklets)
    decreases u
  {
    ChunksAdjacent(total, u - 1, tasklets);
    if t < u - 1 {
      ChunksOrdered(total, tasklets, t, u - 1);
    }
  }

  lemma ChunksCover(total: nat, tasklets: nat)
    requires tasklets > 0
    ensures ChunkStart(total, tasklets, tasklets) == total
  {
    var q, mod := total / tasklets, total % tasklets;
    assert total == q * tasklets + mod;
    if mod > 0 {
      assert mod * (q + 1) + (tasklets - mod) * q == tasklets * q + mod;
    }
  }

  predicate InChunk(total: nat, tid: nat, tasklets: nat, index: nat)
    requires tasklets > 0
  {
    ChunkStart(total, tid, tasklets) <= index < ChunkStart(total, tid, tasklets) + Chunks(total, tid, tasklets)
  }

  /** The chunks partition a round's sub-blocks: each index has exactly one tasklet, and no chunk runs over. */
  lemma ChunksPartition(total: nat, tasklets: nat, index: nat) returns (tid: nat)
    requires tasklets > 0 && index < total
    ensures tid < tasklets && InChunk(total, tid, tasklets, index)
    ensures forall u: nat :: u < tasklets && InChunk(total, u, tasklets, index) ==> u == tid
    ensures forall u: nat :: u < tasklets ==> ChunkStart(total, u, tasklets) + Chunks(total, u, tasklets) <= total
  {
    hide ChunkStart, Chunks;
    ChunksCover(total, tasklets);
    tid := ChunkOwner(total, tasklets, index, tasklets);
    forall u: nat | u < tasklets && InChunk(total, u, tasklets, index) ensures u == tid {
      if u < tid {
        ChunksOrdered(total, tasklets, u, tid);
      } else if tid < u {
        ChunksOrdered(total, tasklets, tid, u);
      }
    }
    forall u: nat | u < tasklets ensures ChunkStart(total, u, tasklets) + Chunks(total, u, tasklets) <= total {
      ChunksOrdered(total, tasklets, u, tasklets);
    }
  }

  /** Rounds of the two phases and the number of sub-blocks in each. */
  predicate IsRound(p: Setup, second: bool, blk: nat)
  {
    (if second then 2 else 1) <= blk <= p.reps
  }

  function RoundSize(p: Setup, second: bool, blk: nat): nat
    requires IsRound(p, second, blk)
  {
    if second then p.reps - blk + 1 else blk
  }

  /** t_index_x and t_index_y of the sub-block with the given index in a round. */
  function BlockAt(p: Setup, second: bool, blk: nat, index: nat): (int, int)
  {
    var x := if second then blk - 1 + index else index;
    (x, (if second then p.reps + blk - 2 else blk - 1) - x)
  }

  /** The number of barriers a round comes after: its diagonal. */
  function RoundNumber(p: Setup, second: bool, blk: nat): nat
    requires IsRound(p, second, blk)
  {
    if second then p.reps + blk - 2 else blk - 1
  }

  /** Every index of a round is a sub-block on that round's diagonal. */
  lemma RoundOnDiagonal(p: Setup, second: bool, blk: nat, index: nat)
    requires IsRound(p, second, blk) && index < RoundSize(p, second, blk)
    ensures var (x, y) := BlockAt(p, second, blk, index);
            x >= 0 && OnDiagonal(p, x, RoundNumber(p, second, blk)) && y == RoundNumber(p, second, blk) - x
  {
  }

  /** The two phases run every sub-block exactly once, in the round numbered by its diagonal. */
  lemma EachBlockOnce(p: Setup, x: nat, y: nat) returns (second: bool, blk: nat, index: nat)
    requires x < p.reps && y < p.reps
    ensures IsRound(p, second, blk) && index < RoundSize(p, second, blk)
    ensures BlockAt(p, second, blk, index) == (x, y) && RoundNumber(p, second, blk) == x + y
    ensures forall second', blk': nat, index': nat ::
              IsRound(p, second', blk') && index' < RoundSize(p, second', blk')
              && BlockAt(p, second', blk', index') == (x, y) ==>
                (second', blk', index') == (second, blk, index)
  {
    if x + y < p.reps {
      second, blk, index := false, x + y + 1, x;
    } else {
      second, blk := true, x + y + 2 - p.reps;
      index := x - (blk - 1);
    }
  }
}
