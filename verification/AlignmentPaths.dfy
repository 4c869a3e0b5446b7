/**
 * What the recurrence of src/NW computes: the value of the best alignment path. A path starts
 * on the border and goes right, down or along the diagonal through the inside of the matrix.
 */
module AlignmentPaths {
  import opened Words
  import NW = NeedlemanWunsch
  import WavefrontRun

  datatype Place = Place(row: nat, col: nat)

  predicate Inside(x: Place) { x.row > 0 && x.col > 0 }

  predicate InMatrix(p: NW.Setup, x: Place) { x.row <= NW.Side(p) && x.col <= NW.Side(p) }

  predicate IsDiagonal(x: Place, y: Place) { y.row == x.row + 1 && y.col == x.col + 1 }

  predicate IsStep(x: Place, y: Place)
  {
    IsDiagonal(x, y) || (y.row == x.row && y.col == x.col + 1) || (y.row == x.row + 1 && y.col == x.col)
  }

  /** What a step is worth: a score along the diagonal, the penalty for a step right or down. */
  function Gain(p: NW.Setup, x: Place, y: Place): int
    requires NW.Good(p) && IsStep(x, y) && InMatrix(p, y)
  {
    if IsDiagonal(x, y) then p.scores[x.row][x.col] else 0 - p.penalty
  }

  predicate IsPath(p: NW.Setup, path: seq<Place>)
  {
    var k := |path| - 1;
    if k <= 0 then k == 0 && !Inside(path[0]) && InMatrix(p, path[0])
    else Inside(path[k]) && InMatrix(p, path[k]) && IsStep(path[k - 1], path[k]) && IsPath(p, path[..k])
  }

  function Value(p: NW.Setup, path: seq<Place>): int
    requires NW.Good(p) && IsPath(p, path)
  {
    var k := |path| - 1;
    if k == 0 then p.start[path[0].row][path[0].col]
    else Value(p, path[..k]) + Gain(p, path[k - 1], path[k])
  }

  predicate Ends(path: seq<Place>, r: nat, c: nat)
  {
    |path| > 0 && path[|path| - 1] == Place(r, c)
  }

  predicate InInt32(x: int) { -0x8000_0000 <= x < 0x8000_0000 }

  /** No path has a value outside int32_t. */
  ghost predicate NoOverflow(p: NW.Setup)
    requires NW.Good(p)
  {
    forall path: seq<Place> :: IsPath(p, path) ==> InInt32(Value(p, path))
  }

  /** Conversion to int32_t keeps the number modulo 2^32 and gives the one in range. */
  lemma ToInt32Exact(x: int, y: int)
    ensures NW.ToInt32(x) == y <==> InInt32(y) && (x - y) % 0x1_0000_0000 == 0
  {
    var q := x / 0x1_0000_0000;
    assert x == 0x1_0000_0000 * q + x % 0x1_0000_0000;
    if InInt32(y) && (x - y) % 0x1_0000_0000 == 0 {
      var s := (x - y) / 0x1_0000_0000;
      assert x == 0x1_0000_0000 * s + y;
      if y >= 0 {
        ModUnique(x, 0x1_0000_0000, s, y);
      } else {
        ModUnique(x, 0x1_0000_0000, s - 1, y + 0x1_0000_0000);
      }
    } else if NW.ToInt32(x) == y {
      ModUnique(x - y, 0x1_0000_0000, if x % 0x1_0000_0000 < 0x8000_0000 then q else q + 1, 0);
    }
  }

  lemma PathExtends(p: NW.Setup, path: seq<Place>, y: Place)
    requires NW.Good(p) && IsPath(p, path) && Inside(y) && InMatrix(p, y) && IsStep(path[|path| - 1], y)
    ensures IsPath(p, path + [y]) && Value(p, path + [y]) == Value(p, path) + Gain(p, path[|path| - 1], y)
    ensures Ends(path + [y], y.row, y.col)
  {
    assert (path + [y])[..|path|] == path;
  }

  lemma PathShorter(p: NW.Setup, path: seq<Place>)
    requires NW.Good(p) && IsPath(p, path) && |path| > 1
    ensures var k := |path| - 1;
            && IsPath(p, path[..k]) && Inside(path[k]) && InMatrix(p, path[k]) && IsStep(path[k - 1], path[k])
            && Value(p, path) == Value(p, path[..k]) + Gain(p, path[k - 1], path[k])
  {
  }

  lemma {:induction false} PathInMatrix(p: NW.Setup, path: seq<Place>)
    requires IsPath(p, path)
    ensures InMatrix(p, path[|path| - 1])
  {
  }

  /** What y would get from x, nothing wrapped. */
  function Via(p: NW.Setup, x: Place, y: Place): int
    requires NW.Good(p) && InMatrix(p, x) && InMatrix(p, y) && IsStep(x, y)
  {
    NW.Cell(p, x.row, x.col) + Gain(p, x, y)
  }

  lemma Neighbours(p: NW.Setup, y: Place) returns (d: Place, l: Place, u: Place)
    requires NW.Good(p) && Inside(y) && InMatrix(p, y)
    ensures d == Place(y.row - 1, y.col - 1) && l == Place(y.row, y.col - 1) && u == Place(y.row - 1, y.col)
    ensures InMatrix(p, d) && InMatrix(p, l) && InMatrix(p, u) && IsStep(d, y) && IsStep(l, y) && IsStep(u, y)
    ensures forall x: Place :: IsStep(x, y) ==> x == d || x == l || x == u
  {
    d, l, u := Place(y.row - 1, y.col - 1), Place(y.row, y.col - 1), Place(y.row - 1, y.col);
    hide NW.Side, NW.Good;
  }

  lemma CellVia(p: NW.Setup, y: Place, d: Place, l: Place, u: Place)
    requires NW.Good(p) && Inside(y) && InMatrix(p, y) && InMatrix(p, d) && InMatrix(p, l) && InMatrix(p, u)
    requires d == Place(y.row - 1, y.col - 1) && l == Place(y.row, y.col - 1) && u == Place(y.row - 1, y.col)
    ensures NW.Cell(p, y.row, y.col)
         == NW.Maximum(NW.ToInt32(Via(p, d, y)), NW.ToInt32(Via(p, l, y)), NW.ToInt32(Via(p, u, y)))
  {
    hide Via, NW.ToInt32, NW.Maximum, NW.Cell, NW.Side;
    CellIs(p, y.row, y.col);
    ViaIs(p, d, y);
    ViaIs(p, l, y);
    ViaIs(p, u, y);
  }

  lemma ViaIs(p: NW.Setup, x: Place, y: Place)
    requires NW.Good(p) && InMatrix(p, x) && InMatrix(p, y) && IsStep(x, y)
    ensures IsDiagonal(x, y) ==> Via(p, x, y) == NW.Cell(p, x.row, x.col) + p.scores[x.row][x.col]
    ensures !IsDiagonal(x, y) ==> Via(p, x, y) == NW.Cell(p, x.row, x.col) - p.penalty
  {
    hide NW.Cell, NW.Side;
  }

  lemma CellIs(p: NW.Setup, r: nat, c: nat)
    requires NW.Good(p) && 0 < r <= NW.Side(p) && 0 < c <= NW.Side(p)
    ensures NW.Cell(p, r, c)
         == NW.Maximum(NW.ToInt32(NW.Cell(p, r - 1, c - 1) + p.scores[r - 1][c - 1]),
                       NW.ToInt32(NW.Cell(p, r, c - 1) - p.penalty), NW.ToInt32(NW.Cell(p, r - 1, c) - p.penalty))
  {
    hide NW.ToInt32, NW.Maximum;
  }

  /** An inner cell is the greatest of its three candidates, none of which leaves int32_t. */
  lemma Greatest(p: NW.Setup, y: Place) returns (best: Place)
    requires NW.Good(p) && Inside(y) && InMatrix(p, y) && NoOverflow(p)
    ensures InMatrix(p, best) && IsStep(best, y) && NW.Cell(p, y.row, y.col) == Via(p, best, y)
    ensures forall x: Place :: InMatrix(p, x) && IsStep(x, y) ==> Via(p, x, y) <= NW.Cell(p, y.row, y.col)
    decreases y.row, y.col, 1
  {
    var d, l, u := Neighbours(p, y);
    CellVia(p, y, d, l, u);
    hide Via, NW.ToInt32, NW.Cell, NoOverflow, NW.Good, InMatrix, IsStep;
    Candidate(p, d, y);
    Candidate(p, l, y);
    Candidate(p, u, y);
    var v := NW.Cell(p, y.row, y.col);
    best := if v == Via(p, d, y) then d else if v == Via(p, l, y) then l else u;
  }

  lemma Candidate(p: NW.Setup, x: Place, y: Place)
    requires NW.Good(p) && InMatrix(p, x) && Inside(y) && InMatrix(p, y) && IsStep(x, y) && NoOverflow(p)
    ensures NW.ToInt32(Via(p, x, y)) == Via(p, x, y)
    decreases x.row, x.col, 3
  {
    hide NW.Cell, Value, NW.ToInt32, NW.Good, Gain, IsStep, InMatrix, IsPath, NoOverflow;
    var path := BestPath(p, x);
    PathExtends(p, path, y);
    InRange(p, path + [y]);
    ToInt32Exact(Via(p, x, y), Via(p, x, y));
  }

  lemma InRange(p: NW.Setup, path: seq<Place>)
    requires NW.Good(p) && NoOverflow(p) && IsPath(p, path)
    ensures InInt32(Value(p, path))
  {
  }

  /** Some path to a cell has the value the recurrence gives it. */
  lemma BestPath(p: NW.Setup, y: Place) returns (path: seq<Place>)
    requires NW.Good(p) && InMatrix(p, y) && NoOverflow(p)
    ensures IsPath(p, path) && path[|path| - 1] == y && Value(p, path) == NW.Cell(p, y.row, y.col)
    decreases y.row, y.col, 2
  {
    if Inside(y) {
      var x := Greatest(p, y);
      hide NoOverflow, NW.Cell, NW.Good, IsPath, Value, Gain;
      path := BestPath(p, x);
      PathExtends(p, path, y);
      path := path + [y];
    } else {
      path := [y];
    }
  }

  /** And no path to it has a greater one. */
  lemma {:induction false} NoBetterPath(p: NW.Setup, path: seq<Place>)
    requires NW.Good(p) && IsPath(p, path) && NoOverflow(p)
    ensures var y := path[|path| - 1]; InMatrix(p, y) && Value(p, path) <= NW.Cell(p, y.row, y.col)
    decreases |path|
  {
    PathInMatrix(p, path);
    if |path| == 1 {
      BorderValue(p, path);
    } else {
      var k := |path| - 1;
      var x, y, before := path[k - 1], path[k], path[..k];
      PathShorter(p, path);
      hide NoOverflow, NW.Cell, Value, IsPath, Gain, IsStep, NW.Good, InMatrix;
      assert before[|before| - 1] == x;
      NoBetterPath(p, before);
      NoBetterStep(p, x, y);
    }
  }

  lemma NoBetterStep(p: NW.Setup, x: Place, y: Place)
    requires NW.Good(p) && InMatrix(p, x) && Inside(y) && InMatrix(p, y) && IsStep(x, y) && NoOverflow(p)
    ensures NW.Cell(p, x.row, x.col) + Gain(p, x, y) <= NW.Cell(p, y.row, y.col)
  {
    var best := Greatest(p, y);
    hide NoOverflow, NW.Cell, Gain, NW.Good, NW.Side;
    assert Via(p, x, y) <= NW.Cell(p, y.row, y.col);
  }

  lemma BorderValue(p: NW.Setup, path: seq<Place>)
    requires NW.Good(p) && IsPath(p, path) && |path| == 1
    ensures Value(p, path) == NW.Cell(p, path[0].row, path[0].col)
  {
  }

  /** Bounds a caller can check: with them nothing overflows. */
  predicate Moderate(p: NW.Setup, border: nat, change: nat)
    requires NW.Good(p)
  {
    && p.penalty <= change && border + 2 * NW.Side(p) * change < 0x8000_0000
    && (forall r, c :: 0 <= r < NW.Side(p) && 0 <= c < NW.Side(p) ==>
          0 - change <= p.scores[r][c] <= change)
    && (forall r, c :: 0 <= r <= NW.Side(p) && 0 <= c <= NW.Side(p) && (r == 0 || c == 0) ==>
          0 - border <= p.start[r][c] <= border)
  }

  lemma ModerateIsEnough(p: NW.Setup, border: nat, change: nat)
    requires NW.Good(p) && Moderate(p, border, change)
    ensures NoOverflow(p)
  {
    forall path: seq<Place> | IsPath(p, path) ensures InInt32(Value(p, path)) {
      ValueBound(p, path, border, change);
      PathInMatrix(p, path);
      var e := path[|path| - 1];
      Times(e.row + e.col, 2 * NW.Side(p), change);
    }
  }

  lemma {:induction false} ValueBound(p: NW.Setup, path: seq<Place>, border: nat, change: nat)
    requires NW.Good(p) && Moderate(p, border, change) && IsPath(p, path)
    ensures var e := path[|path| - 1];
            var n := border + (e.row + e.col) * change;
            0 - n <= Value(p, path) <= n
    decreases |path|
  {
    var k := |path| - 1;
    var y := path[k];
    PathInMatrix(p, path);
    if k > 0 {
      PathShorter(p, path);
      var x := path[k - 1];
      ValueBound(p, path[..k], border, change);
      assert 0 - change <= Gain(p, x, y) <= change;
      hide IsPath, Value, Gain, Moderate, NW.Good;
      Times(x.row + x.col + 1, y.row + y.col, change);
      assert (x.row + x.col + 1) * change == (x.row + x.col) * change + change;
    } else {
      Times(0, y.row + y.col, change);
    }
  }

  lemma Times(a: nat, b: nat, k: nat)
    requires a <= b
    ensures a * k <= b * k
  {
  }

  /**
   * Any run of any number of tasklets through both phases, while no path overflows: every cell
   * holds the greatest value of any path to it.
   */
  lemma KernelFindsBestPath(job: WavefrontRun.Job, states: seq<WavefrontRun.Kernel>,
                            acts: seq<WavefrontRun.Action>, n: nat, r: nat, c: nat) returns (best: seq<Place>)
    requires WavefrontRun.Run(job, states, acts) && n <= |acts| && r <= NW.Side(job.p) && c <= NW.Side(job.p)
    requires WavefrontRun.Sized(job, states[n]) && NoOverflow(job.p)
    requires states[n].round == 2 * job.p.reps
             || (states[n].round == 2 * job.p.reps - 1 && WavefrontRun.AllThrough(job, states[n]))
    ensures IsPath(job.p, best) && Ends(best, r, c) && Value(job.p, best) == states[n].mem[r][c]
    ensures forall path: seq<Place> :: IsPath(job.p, path) && Ends(path, r, c) ==>
              Value(job.p, path) <= states[n].mem[r][c]
  {
    WavefrontRun.KernelIsRecurrence(job, states, acts, n, r, c);
    best := BestPath(job.p, Place(r, c));
    forall path: seq<Place> | IsPath(job.p, path) && Ends(path, r, c)
      ensures Value(job.p, path) <= states[n].mem[r][c]
    {
      NoBetterPath(job.p, path);
    }
  }
}
