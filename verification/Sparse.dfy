/**
 * Sparse matrix times vector: the in-place counting sort coo2csr of
 * src/SpMV/support/matrix.h, the kernel of src/SpMV/main.c with its tile caches,
 * and the two together against the coordinate list they start from.
 */
module Sparse {
  import Shares
  import Slices

  datatype Nonzero<F> = Nonzero(col: nat, value: F)

  /** float addition and multiplication, left uninterpreted. */
  datatype Ops<!F> = Ops(zero: F, add: (F, F) -> F, mul: (F, F) -> F)

  // ----- the coordinate list -----

  /** How many entries have a row below r. */
  function CountBelow(rows: seq<nat>, r: nat): (c: nat)
    ensures c <= |rows|
  {
    if rows == [] then 0
    else CountBelow(rows[..|rows| - 1], r) + if rows[|rows| - 1] < r then 1 else 0
  }

  function CountRow(rows: seq<nat>, r: nat): (c: nat)
    ensures c <= |rows|
  {
    if rows == [] then 0
    else CountRow(rows[..|rows| - 1], r) + if rows[|rows| - 1] == r then 1 else 0
  }

  /** The entries of row r, in their order in the list. */
  function RowOf<F>(rows: seq<nat>, nz: seq<Nonzero<F>>, r: nat): (s: seq<Nonzero<F>>)
    requires |rows| == |nz|
    ensures |s| == CountRow(rows, r)
  {
    if rows == [] then []
    else
      var k := |rows| - 1;
      RowOf(rows[..k], nz[..k], r) + if rows[k] == r then [nz[k]] else []
  }

  lemma {:induction false} CountsAdd(rows: seq<nat>, r: nat)
    ensures CountBelow(rows, r) + CountRow(rows, r) == CountBelow(rows, r + 1)
  {
    if rows != [] {
      CountsAdd(rows[..|rows| - 1], r);
    }
  }

  lemma {:induction false} CountBelowEnds(rows: seq<nat>, n: nat)
    requires forall i :: 0 <= i < |rows| ==> rows[i] < n
    ensures CountBelow(rows, 0) == 0 && CountBelow(rows, n) == |rows|
  {
    if rows != [] {
      CountBelowEnds(rows[..|rows| - 1], n);
    }
  }

  lemma {:induction false} CountBelowMonotone(rows: seq<nat>, r: nat, q: nat)
    requires r <= q
    ensures CountBelow(rows, r) <= CountBelow(rows, q)
  {
    if rows != [] {
      CountBelowMonotone(rows[..|rows| - 1], r, q);
    }
  }

  /** Entries of row r before entry i, and those before i and i itself if it is in row r. */
  lemma CountRowStep(rows: seq<nat>, i: nat, r: nat)
    requires i < |rows|
    ensures CountRow(rows[..i + 1], r) == CountRow(rows[..i], r) + if rows[i] == r then 1 else 0
  {
    assert rows[..i + 1][..i] == rows[..i];
  }

  lemma RowOfStep<F>(rows: seq<nat>, nz: seq<Nonzero<F>>, i: nat, r: nat)
    requires |rows| == |nz| && i < |rows|
    ensures RowOf(rows[..i + 1], nz[..i + 1], r) == RowOf(rows[..i], nz[..i], r) + if rows[i] == r then [nz[i]] else []
  {
    assert rows[..i + 1][..i] == rows[..i] && nz[..i + 1][..i] == nz[..i];
  }

  lemma {:induction false} CountRowPrefix(rows: seq<nat>, i: nat, r: nat)
    requires i <= |rows|
    ensures CountRow(rows[..i], r) <= CountRow(rows, r)
    decreases |rows| - i
  {
    if i < |rows| {
      CountRowStep(rows, i, r);
      CountRowPrefix(rows, i + 1, r);
    } else {
      assert rows[..i] == rows;
    }
  }

  // ----- coo2csr -----

  /** Row r is nonzeros[rowPtrs[r]..rowPtrs[r + 1]], in list order. */
  ghost predicate IsCsrRow<F>(rows: seq<nat>, nz: seq<Nonzero<F>>, rowPtrs: seq<nat>, nonzeros: seq<Nonzero<F>>, r: nat)
    requires |rows| == |nz| && r + 1 < |rowPtrs|
  {
    rowPtrs[r] <= rowPtrs[r + 1] <= |nonzeros| && nonzeros[rowPtrs[r]..rowPtrs[r + 1]] == RowOf(rows, nz, r)
  }

  /** CSR form of a coordinate list: stable, nothing lost, row pointers restored. */
  ghost predicate IsCsr<F>(rows: seq<nat>, nz: seq<Nonzero<F>>, numRows: nat, rowPtrs: seq<nat>,
                           nonzeros: seq<Nonzero<F>>)
    requires |rows| == |nz|
  {
    && |rowPtrs| == numRows + 1 && |nonzeros| == |nz|
    && rowPtrs[0] == 0 && rowPtrs[numRows] == |nz|
    && forall r: nat :: r < numRows ==> IsCsrRow(rows, nz, rowPtrs, nonzeros, r)
  }

  method Coo2Csr<F(0)>(rows: seq<nat>, nz: seq<Nonzero<F>>, numRows: nat)
      returns (rowPtrs: array<nat>, nonzeros: array<Nonzero<F>>)
    requires |rows| == |nz| && numRows >= 1
    requires forall i :: 0 <= i < |rows| ==> rows[i] < numRows
    ensures fresh(rowPtrs) && fresh(nonzeros)
    ensures IsCsr(rows, nz, numRows, rowPtrs[..], nonzeros[..])
  {
    rowPtrs := new nat[numRows + 1] (_ => 0);
    nonzeros := new Nonzero<F>[|nz|];
    Histogram(rows, numRows, rowPtrs);
    PrefixSum(rows, numRows, rowPtrs);
    Bin(rows, nz, numRows, rowPtrs, nonzeros);
    Restore(rows, numRows, rowPtrs);
    FilledIsCsr(rows, nz, numRows, rowPtrs[..], nonzeros[..]);
  }

  method Histogram(rows: seq<nat>, numRows: nat, rowPtrs: array<nat>)
    requires rowPtrs.Length == numRows + 1 && forall i :: 0 <= i < |rows| ==> rows[i] < numRows
    requires forall r :: 0 <= r < rowPtrs.Length ==> rowPtrs[r] == 0
    modifies rowPtrs
    ensures forall r :: 0 <= r < numRows ==> rowPtrs[r] == CountRow(rows, r)
  {
    for i := 0 to |rows|
      invariant forall r :: 0 <= r < numRows ==> rowPtrs[r] == CountRow(rows[..i], r)
    {
      var rowIdx := rows[i];
      rowPtrs[rowIdx] := rowPtrs[rowIdx] + 1;
      forall r | 0 <= r < numRows ensures rowPtrs[r] == CountRow(rows[..i + 1], r) {
        CountRowStep(rows, i, r);
      }
    }
    assert rows[..|rows|] == rows;
  }

  method PrefixSum(rows: seq<nat>, numRows: nat, rowPtrs: array<nat>)
    requires rowPtrs.Length == numRows + 1 && forall i :: 0 <= i < |rows| ==> rows[i] < numRows
    requires forall r :: 0 <= r < numRows ==> rowPtrs[r] == CountRow(rows, r)
    modifies rowPtrs
    ensures forall r :: 0 <= r <= numRows ==> rowPtrs[r] == CountBelow(rows, r)
  {
    var sumBeforeNextRow: nat := 0;
    CountBelowEnds(rows, numRows);
    for rowIdx := 0 to numRows
      invariant sumBeforeNextRow == CountBelow(rows, rowIdx)
      invariant forall r :: 0 <= r < rowIdx ==> rowPtrs[r] == CountBelow(rows, r)
      invariant forall r :: rowIdx <= r < numRows ==> rowPtrs[r] == CountRow(rows, r)
    {
      var sumBeforeRow := sumBeforeNextRow;
      sumBeforeNextRow := sumBeforeNextRow + rowPtrs[rowIdx];
      rowPtrs[rowIdx] := sumBeforeRow;
      CountsAdd(rows, rowIdx);
    }
    rowPtrs[numRows] := sumBeforeNextRow;
  }

  /** The cursor of row r: where its next entry goes. */
  function Cursor(rows: seq<nat>, i: nat, r: nat): nat
    requires i <= |rows|
  {
    CountBelow(rows, r) + CountRow(rows[..i], r)
  }

  /** Cursors stay inside the room of their row, and inside it strictly while an entry is to come. */
  lemma CursorBound(rows: seq<nat>, i: nat, r: nat)
    requires i <= |rows|
    ensures CountBelow(rows, r) <= Cursor(rows, i, r) <= CountBelow(rows, r + 1) <= |rows|
    ensures i < |rows| && rows[i] == r ==> Cursor(rows, i, r) < CountBelow(rows, r + 1)
  {
    CountsAdd(rows, r);
    CountRowPrefix(rows, i, r);
    if i < |rows| {
      CountRowStep(rows, i, r);
      CountRowPrefix(rows, i + 1, r);
    }
  }

  /** After i entries the room of row r is filled up to its cursor, in list order. */
  ghost predicate RowFilled<F>(rows: seq<nat>, nz: seq<Nonzero<F>>, nonzeros: seq<Nonzero<F>>, i: nat, r: nat)
    requires |rows| == |nz| && i <= |rows|
  {
    && CountBelow(rows, r) <= Cursor(rows, i, r) <= |nonzeros|
    && nonzeros[CountBelow(rows, r)..Cursor(rows, i, r)] == RowOf(rows[..i], nz[..i], r)
  }

  /** The slot an entry of row q goes to lies outside the filled part of every row. */
  lemma RoomsApart(rows: seq<nat>, i: nat, r: nat, q: nat)
    requires i < |rows| && rows[i] == q
    ensures !(CountBelow(rows, r) <= Cursor(rows, i, q) < Cursor(rows, i, r))
  {
    CursorBound(rows, i, r);
    CursorBound(rows, i, q);
    if r < q {
      CountBelowMonotone(rows, r + 1, q);
    } else if q < r {
      CountBelowMonotone(rows, q + 1, r);
    }
  }

  /** A store at `slot` leaves [lo..hi) alone when outside it, and extends it when at hi. */
  lemma StoreBeside<T>(was: seq<T>, lo: nat, hi: nat, slot: nat, e: T)
    requires lo <= hi <= |was| && slot < |was| && !(lo <= slot < hi)
    ensures was[slot := e][lo..hi] == was[lo..hi]
    ensures slot == hi ==> was[slot := e][lo..hi + 1] == was[lo..hi] + [e]
  {
  }

  /** Storing entry i at its row's cursor extends that row and disturbs no other. */
  lemma BinStep<F>(rows: seq<nat>, nz: seq<Nonzero<F>>, was: seq<Nonzero<F>>, i: nat, r: nat)
    requires |rows| == |nz| == |was| && i < |rows| && RowFilled(rows, nz, was, i, r)
    ensures Cursor(rows, i, rows[i]) < |was|
    ensures RowFilled(rows, nz, was[Cursor(rows, i, rows[i]) := nz[i]], i + 1, r)
    ensures Cursor(rows, i + 1, r) == Cursor(rows, i, r) + if rows[i] == r then 1 else 0
  {
    CursorBound(rows, i, rows[i]);
    CursorStep(rows, i, r);
    RowOfStep(rows, nz, i, r);
    RoomsApart(rows, i, r, rows[i]);
    hide CountBelow, CountRow, RowOf, Cursor;
    StoreBeside(was, CountBelow(rows, r), Cursor(rows, i, r), Cursor(rows, i, rows[i]), nz[i]);
  }

  lemma CursorStep(rows: seq<nat>, i: nat, r: nat)
    requires i < |rows|
    ensures Cursor(rows, i + 1, r) == Cursor(rows, i, r) + if rows[i] == r then 1 else 0
  {
    CountRowStep(rows, i, r);
  }

  lemma NothingFilled<F>(rows: seq<nat>, nz: seq<Nonzero<F>>, nonzeros: seq<Nonzero<F>>, r: nat)
    requires |rows| == |nz| == |nonzeros|
    ensures RowFilled(rows, nz, nonzeros, 0, r) && Cursor(rows, 0, r) == CountBelow(rows, r)
  {
    assert rows[..0] == [];
    CursorBound(rows, 0, r);
  }

  lemma AllFilled<F>(rows: seq<nat>, nz: seq<Nonzero<F>>, r: nat)
    requires |rows| == |nz|
    ensures Cursor(rows, |rows|, r) == CountBelow(rows, r + 1)
    ensures rows[..|rows|] == rows && nz[..|rows|] == nz
  {
    assert rows[..|rows|] == rows;
    CountsAdd(rows, r);
  }

  method Bin<F>(rows: seq<nat>, nz: seq<Nonzero<F>>, numRows: nat, rowPtrs: array<nat>, nonzeros: array<Nonzero<F>>)
    requires |rows| == |nz| == nonzeros.Length && rowPtrs.Length == numRows + 1
    requires forall i :: 0 <= i < |rows| ==> rows[i] < numRows
    requires forall r :: 0 <= r <= numRows ==> rowPtrs[r] == CountBelow(rows, r)
    modifies rowPtrs, nonzeros
    ensures forall r :: 0 <= r < numRows ==> rowPtrs[r] == CountBelow(rows, r + 1)
    ensures rowPtrs[numRows] == CountBelow(rows, numRows)
    ensures forall r: nat :: r < numRows ==> RowFilled(rows, nz, nonzeros[..], |rows|, r)
  {
    hide RowFilled, Cursor, CountBelow;
    forall r: nat | r < numRows
      ensures RowFilled(rows, nz, nonzeros[..], 0, r) && rowPtrs[r] == Cursor(rows, 0, r)
    {
      NothingFilled(rows, nz, nonzeros[..], r);
    }
    for i := 0 to |rows|
      invariant forall r: nat :: r < numRows ==> rowPtrs[r] == Cursor(rows, i, r)
      invariant rowPtrs[numRows] == CountBelow(rows, numRows)
      invariant forall r: nat :: r < numRows ==> RowFilled(rows, nz, nonzeros[..], i, r)
    {
      var rowIdx := rows[i];
      var nnzIdx := rowPtrs[rowIdx];
      ghost var was := nonzeros[..];
      BinStep(rows, nz, was, i, rowIdx);
      rowPtrs[rowIdx] := nnzIdx + 1;
      nonzeros[nnzIdx] := nz[i];
      assert nonzeros[..] == was[nnzIdx := nz[i]];
      ghost var next := i + 1;
      forall r: nat | r < numRows
        ensures rowPtrs[r] == Cursor(rows, next, r) && RowFilled(rows, nz, nonzeros[..], next, r)
      {
        BinStep(rows, nz, was, i, r);
      }
    }
    forall r | 0 <= r < numRows ensures rowPtrs[r] == CountBelow(rows, r + 1) {
      AllFilled(rows, nz, r);
    }
  }

  /** The downward loop that shifts the used-up cursors back into row pointers. */
  method Restore(rows: seq<nat>, numRows: nat, rowPtrs: array<nat>)
    requires numRows >= 1 && rowPtrs.Length == numRows + 1
    requires forall i :: 0 <= i < |rows| ==> rows[i] < numRows
    requires forall r :: 0 <= r < numRows ==> rowPtrs[r] == CountBelow(rows, r + 1)
    requires rowPtrs[numRows] == CountBelow(rows, numRows)
    modifies rowPtrs
    ensures forall r :: 0 <= r <= numRows ==> rowPtrs[r] == CountBelow(rows, r)
  {
    var rowIdx := numRows - 1;
    while rowIdx > 0
      invariant 0 <= rowIdx < numRows
      invariant forall r :: 0 <= r <= rowIdx ==> rowPtrs[r] == CountBelow(rows, r + 1)
      invariant forall r :: rowIdx < r <= numRows ==> rowPtrs[r] == CountBelow(rows, r)
    {
      rowPtrs[rowIdx] := rowPtrs[rowIdx - 1];
      rowIdx := rowIdx - 1;
    }
    rowPtrs[0] := 0;
    CountBelowEnds(rows, numRows);
  }

  lemma FilledIsCsr<F>(rows: seq<nat>, nz: seq<Nonzero<F>>, numRows: nat, rowPtrs: seq<nat>, nonzeros: seq<Nonzero<F>>)
    requires |rows| == |nz| == |nonzeros| && |rowPtrs| == numRows + 1
    requires forall i :: 0 <= i < |rows| ==> rows[i] < numRows
    requires forall r :: 0 <= r <= numRows ==> rowPtrs[r] == CountBelow(rows, r)
    requires forall r: nat :: r < numRows ==> RowFilled(rows, nz, nonzeros, |rows|, r)
    ensures IsCsr(rows, nz, numRows, rowPtrs, nonzeros)
  {
    CountBelowEnds(rows, numRows);
    forall r: nat | r < numRows ensures IsCsrRow(rows, nz, rowPtrs, nonzeros, r) {
      AllFilled(rows, nz, r);
      assert RowFilled(rows, nz, nonzeros, |rows|, r);
    }
  }

  // ----- the kernel: tiles of 64 elements, the 256 bytes of its transfers -----

  /** The left fold of value * x[col], in order, from zero. */
  function Dot<F>(ops: Ops<F>, s: seq<Nonzero<F>>, x: nat -> F): F
  {
    if s == [] then ops.zero
    else
      var last := s[|s| - 1];
      ops.add(Dot(ops, s[..|s| - 1], x), ops.mul(last.value, x(last.col)))
  }

  /** What row r of a DPU's slice contributes; the row pointers are global, offset is the first of them. */
  function RowDot<F>(ops: Ops<F>, rowPtrs: seq<nat>, offset: nat, nonzeros: seq<Nonzero<F>>, x: nat -> F, r: nat): F
    requires r + 1 < |rowPtrs| && offset <= rowPtrs[r] <= rowPtrs[r + 1] <= offset + |nonzeros|
  {
    Dot(ops, nonzeros[rowPtrs[r] - offset..rowPtrs[r + 1] - offset], x)
  }

  predicate RowPtrsValid(rowPtrs: seq<nat>, offset: nat, count: nat)
  {
    && (forall r :: 0 <= r < |rowPtrs| ==> offset <= rowPtrs[r] <= offset + count)
    && (forall q, r :: 0 <= q < r < |rowPtrs| ==> rowPtrs[q] <= rowPtrs[r])
  }

  lemma DotStep<F>(ops: Ops<F>, s: seq<Nonzero<F>>, lo: nat, k: nat, x: nat -> F)
    requires lo + k < |s|
    ensures Dot(ops, s[lo..lo + k + 1], x)
              == ops.add(Dot(ops, s[lo..lo + k], x), ops.mul(s[lo + k].value, x(s[lo + k].col)))
  {
    assert s[lo..lo + k + 1][..k] == s[lo..lo + k];
  }

  /** The input vector in memory, read a tile at a time. */
  method ReadTile<F>(x: nat -> F, tileIdx: nat, tile: array<F>)
    requires tile.Length == 64
    modifies tile
    ensures forall j :: 0 <= j < 64 ==> tile[j] == x(64 * tileIdx + j)
  {
    for j := 0 to 64
      invariant forall i :: 0 <= i < j ==> tile[i] == x(64 * tileIdx + i)
    {
      tile[j] := x(64 * tileIdx + j);
    }
  }

  /** One row: the products folded in order, the input taken through the tile cache. */
  method MultiplyRow<F>(ops: Ops<F>, nonzeros: seq<Nonzero<F>>, lo: nat, count: nat, x: nat -> F,
                        tile: array<F>, curr: nat)
      returns (outValue: F, curr': nat)
    requires lo + count <= |nonzeros| && tile.Length == 64
    requires forall j :: 0 <= j < 64 ==> tile[j] == x(64 * curr + j)
    modifies tile
    ensures outValue == Dot(ops, nonzeros[lo..lo + count], x)
    ensures forall j :: 0 <= j < 64 ==> tile[j] == x(64 * curr' + j)
  {
    outValue, curr' := ops.zero, curr;
    for k := 0 to count
      invariant outValue == Dot(ops, nonzeros[lo..lo + k], x)
      invariant forall j :: 0 <= j < 64 ==> tile[j] == x(64 * curr' + j)
    {
      var col := nonzeros[lo + k].col;
      if col / 64 != curr' {
        ReadTile(x, col / 64, tile);
        curr' := col / 64;
      }
      DotStep(ops, nonzeros, lo, k, x);
      outValue := ops.add(outValue, ops.mul(nonzeros[lo + k].value, tile[col % 64]));
    }
  }

  /** Write n buffered values to out[base..base + n]. */
  method WriteTile<F>(out: array<F>, base: nat, tile: array<F>, n: nat)
    requires n <= tile.Length && base + n <= out.Length && tile != out
    modifies out
    ensures forall i :: base <= i < base + n ==> out[i] == tile[i - base]
    ensures forall i :: 0 <= i < out.Length && !(base <= i < base + n) ==> out[i] == old(out[i])
  {
    for k := 0 to n
      invariant forall i :: base <= i < base + k ==> out[i] == tile[i - base]
      invariant forall i :: 0 <= i < out.Length && !(base <= i < base + k) ==> out[i] == old(out[i])
    {
      out[base + k] := tile[k];
    }
  }

  /** Of `done` values, the whole tiles are out; at the end, everything is. */
  function Flushed(done: nat, count: nat): (n: nat)
    ensures done <= count ==> n <= count && done - n < 64
  {
    if done >= count then count else done - done % 64
  }

  /** Output buffering after `done` values: flushed ones in out, the rest in the tile. */
  ghost predicate Buffered<F>(want: seq<F>, out: seq<F>, tile: seq<F>, start: nat, done: nat)
    requires done <= |want| && start + |want| <= |out| && |tile| == 64
  {
    var flushed := Flushed(done, |want|);
    && (forall j :: 0 <= j < flushed ==> out[start + j] == want[j])
    && (forall j :: 0 <= j < done - flushed ==> tile[j] == want[flushed + j])
  }

  /** Put the next value into the output tile and write the tile back when it is full or the rows end. */
  method Emit<F>(ghost want: seq<F>, out: array<F>, tile: array<F>, start: nat, count: nat, row: nat, outValue: F)
    requires count == |want| && row < count && start + count <= out.Length && tile.Length == 64 && tile != out
    requires Buffered(want, out[..], tile[..], start, row) && outValue == want[row]
    modifies out, tile
    ensures Buffered(want, out[..], tile[..], start, row + 1)
    ensures forall i :: 0 <= i < out.Length && !(start <= i < start + count) ==> out[i] == old(out[i])
  {
    ghost var flushed, before := Flushed(row, count), out[..];
    var base := start + 64 * (row / 64);
    assert base == start + flushed && row - flushed == row % 64;
    tile[row % 64] := outValue;
    if row % 64 == 63 {
      WriteTile(out, base, tile, 64);
    } else if row == count - 1 {
      WriteTile(out, base, tile, count % 64);
    }
    EmitStep(want, before, old(tile[..]), out[..], tile[..], start, row);
  }

  /** What Emit does, on values. */
  lemma EmitStep<F>(want: seq<F>, out: seq<F>, tile: seq<F>, out': seq<F>, tile': seq<F>, start: nat, row: nat)
    requires row < |want| && start + |want| <= |out| == |out'| && |tile| == 64
    requires Buffered(want, out, tile, start, row)
    requires tile' == tile[row % 64 := want[row]]
    requires var flushed, done := Flushed(row, |want|), Flushed(row + 1, |want|);
             && flushed <= done
             && (forall i :: start + flushed <= i < start + done ==> out'[i] == tile'[i - start - flushed])
             && (forall i :: 0 <= i < |out| && !(start + flushed <= i < start + done) ==> out'[i] == out[i])
    ensures Buffered(want, out', tile', start, row + 1)
  {
    var flushed, done := Flushed(row, |want|), Flushed(row + 1, |want|);
    assert row - flushed == row % 64;
    assert forall j :: 0 <= j <= row - flushed ==> tile'[j] == want[flushed + j];
    assert done == flushed || done == row + 1;
    forall j | flushed <= j < done ensures out'[start + j] == want[j] {
      var i := j - flushed;
      assert tile'[i] == want[flushed + i];
    }
  }

  /** The rows one tasklet computes, each written once, through the output tile. */
  method SpmvRows<F(0)>(ops: Ops<F>, rowPtrs: seq<nat>, offset: nat, nonzeros: seq<Nonzero<F>>, x: nat -> F,
                        out: array<F>, start: nat, count: nat)
    requires RowPtrsValid(rowPtrs, offset, |nonzeros|)
    requires start + count < |rowPtrs| && start + count <= out.Length
    modifies out
    ensures forall r: nat :: start <= r < start + count ==> out[r] == RowDot(ops, rowPtrs, offset, nonzeros, x, r)
    ensures forall i: nat :: i < out.Length && !(start <= i < start + count) ==> out[i] == old(out[i])
  {
    hide Dot, Buffered;
    var inTile, outTile := new F[64], new F[64];
    ReadTile(x, 0, inTile);
    ghost var want := Wanted(ops, rowPtrs, offset, nonzeros, x, start, count);
    NothingBuffered(want, out[..], outTile[..], start);
    var curr: nat, nextRowPtr: nat := 0, rowPtrs[start];
    for row := 0 to count
      invariant nextRowPtr == rowPtrs[start + row]
      invariant forall j :: 0 <= j < 64 ==> inTile[j] == x(64 * curr + j)
      invariant Buffered(want, out[..], outTile[..], start, row)
      invariant forall i: nat :: i < out.Length && !(start <= i < start + count) ==> out[i] == old(out[i])
    {
      var rowPtr := nextRowPtr;
      nextRowPtr := rowPtrs[start + row + 1];
      var outValue;
      outValue, curr := MultiplyRow(ops, nonzeros, rowPtr - offset, nextRowPtr - rowPtr, x, inTile, curr);
      Emit(want, out, outTile, start, count, row, outValue);
    }
    AllBuffered(want, out[..], outTile[..], start);
    forall r: nat | start <= r < start + count ensures out[r] == RowDot(ops, rowPtrs, offset, nonzeros, x, r) {
      assert out[start + (r - start)] == want[r - start];
    }
  }

  ghost function Wanted<F>(ops: Ops<F>, rowPtrs: seq<nat>, offset: nat, nonzeros: seq<Nonzero<F>>, x: nat -> F,
                           start: nat, count: nat): (want: seq<F>)
    requires RowPtrsValid(rowPtrs, offset, |nonzeros|) && start + count < |rowPtrs|
    ensures |want| == count
    ensures forall j :: 0 <= j < count ==> want[j] == RowDot(ops, rowPtrs, offset, nonzeros, x, start + j)
  {
    seq(count, j requires 0 <= j < count => RowDot(ops, rowPtrs, offset, nonzeros, x, start + j))
  }

  lemma NothingBuffered<F>(want: seq<F>, out: seq<F>, tile: seq<F>, start: nat)
    requires start + |want| <= |out| && |tile| == 64
    ensures Buffered(want, out, tile, start, 0)
  {
  }

  lemma AllBuffered<F>(want: seq<F>, out: seq<F>, tile: seq<F>, start: nat)
    requires start + |want| <= |out| && |tile| == 64 && Buffered(want, out, tile, start, |want|)
    ensures forall j :: 0 <= j < |want| ==> out[start + j] == want[j]
  {
  }

  // ----- the tasklets' rows -----

  function RowsPerTasklet(numRows: nat, tasklets: nat): nat
    requires tasklets > 0
  {
    if numRows > 0 then ((numRows - 1) / tasklets + 1 + 1) / 2 * 2 else 0
  }

  function RowsStart(numRows: nat, tid: nat, tasklets: nat): nat
    requires tasklets > 0
  {
    tid * RowsPerTasklet(numRows, tasklets)
  }

  function RowsCount(numRows: nat, tid: nat, tasklets: nat): nat
    requires tasklets > 0
  {
    var start, per := RowsStart(numRows, tid, tasklets), RowsPerTasklet(numRows, tasklets);
    if start > numRows then 0 else if start + per > numRows then numRows - start else per
  }

  /** Row r is among those tasklet tid computes. */
  predicate Owns(numRows: nat, tasklets: nat, tid: nat, r: nat)
    requires tasklets > 0
  {
    RowsStart(numRows, tid, tasklets) <= r < RowsStart(numRows, tid, tasklets) + RowsCount(numRows, tid, tasklets)
  }

  /** tasklets shares cover every row. */
  lemma RowsCovered(numRows: nat, tasklets: nat)
    requires tasklets > 0 && numRows > 0
    ensures RowsPerTasklet(numRows, tasklets) > 0 && tasklets * RowsPerTasklet(numRows, tasklets) >= numRows
  {
    var q := Shares.QuotientBounds(numRows - 1, tasklets);
    Shares.ProductMonotone(q + 1, RowsPerTasklet(numRows, tasklets), tasklets);
    assert (q + 1) * tasklets == q * tasklets + tasklets;
  }

  /** Every row is computed by exactly one tasklet. */
  lemma RowOwned(numRows: nat, tasklets: nat, r: nat) returns (owner: nat)
    requires tasklets > 0 && r < numRows
    ensures owner < tasklets && Owns(numRows, tasklets, owner, r)
    ensures forall tid: nat :: tid < tasklets && Owns(numRows, tasklets, tid, r) ==> tid == owner
  {
    RowsCovered(numRows, tasklets);
    hide RowsPerTasklet, Owns, Shares.InShare;
    owner := Shares.Owner(numRows, RowsPerTasklet(numRows, tasklets), tasklets, r);
    OwnsIsShare(numRows, tasklets, owner, r);
    forall tid: nat | tid < tasklets && Owns(numRows, tasklets, tid, r) ensures tid == owner {
      OwnsIsShare(numRows, tasklets, tid, r);
    }
  }

  lemma OwnsIsShare(numRows: nat, tasklets: nat, tid: nat, r: nat)
    requires tasklets > 0 && r < numRows
    ensures Owns(numRows, tasklets, tid, r) <==> Shares.InShare(RowsPerTasklet(numRows, tasklets), tid, r)
  {
    hide RowsPerTasklet;
  }

  /** The kernel: the tasklets' rows, in any order of the tasklets, make up the whole product. */
  method Spmv<F(0)>(ops: Ops<F>, rowPtrs: seq<nat>, offset: nat, nonzeros: seq<Nonzero<F>>, x: nat -> F,
                    out: array<F>, tasklets: nat, order: seq<nat>)
    requires |rowPtrs| > 0 && RowPtrsValid(rowPtrs, offset, |nonzeros|)
    requires out.Length == |rowPtrs| - 1 && tasklets > 0
    requires (forall k :: 0 <= k < |order| ==> order[k] < tasklets)
    requires forall tid: nat :: tid < tasklets ==> tid in order
    modifies out
    ensures forall r: nat :: r < out.Length ==> out[r] == RowDot(ops, rowPtrs, offset, nonzeros, x, r)
  {
    hide RowDot, RowsStart, RowsCount;
    var numRows := out.Length;
    for k := 0 to |order|
      invariant forall r: nat, j :: r < numRows && 0 <= j < k && Owns(numRows, tasklets, order[j], r) ==>
                  out[r] == RowDot(ops, rowPtrs, offset, nonzeros, x, r)
    {
      var start, count := RowsStart(numRows, order[k], tasklets), RowsCount(numRows, order[k], tasklets);
      RowsInside(numRows, order[k], tasklets);
      if count > 0 {
        SpmvRows(ops, rowPtrs, offset, nonzeros, x, out, start, count);
      }
    }
    forall r: nat | r < numRows ensures out[r] == RowDot(ops, rowPtrs, offset, nonzeros, x, r) {
      var owner := RowOwned(numRows, tasklets, r);
      assert owner in order;
      var j :| 0 <= j < |order| && order[j] == owner;
    }
  }

  lemma RowsInside(numRows: nat, tid: nat, tasklets: nat)
    requires tasklets > 0
    ensures RowsCount(numRows, tid, tasklets) > 0 ==>
              RowsStart(numRows, tid, tasklets) + RowsCount(numRows, tid, tasklets) <= numRows
  {
  }

  // ----- both together -----

  lemma {:induction false} CsrSorted<F>(
      rows: seq<nat>, nz: seq<Nonzero<F>>, numRows: nat, rowPtrs: seq<nat>, nonzeros: seq<Nonzero<F>>, q: nat, r: nat)
    requires |rows| == |nz| && IsCsr(rows, nz, numRows, rowPtrs, nonzeros) && q <= r <= numRows
    ensures rowPtrs[q] <= rowPtrs[r] <= |nonzeros|
    decreases r - q
  {
    if q < r {
      assert IsCsrRow(rows, nz, rowPtrs, nonzeros, q);
      CsrSorted(rows, nz, numRows, rowPtrs, nonzeros, q + 1, r);
    } else if r < numRows {
      assert IsCsrRow(rows, nz, rowPtrs, nonzeros, r);
    }
  }

  /** A slice of the rows keeps what a row's product is, with the slice's first pointer as the offset. */
  lemma SliceRowDot<F>(
      ops: Ops<F>, rows: seq<nat>, nz: seq<Nonzero<F>>, numRows: nat, rowPtrs: seq<nat>, nonzeros: seq<Nonzero<F>>,
      x: nat -> F, first: nat, count: nat, r: nat)
    requires |rows| == |nz| && IsCsr(rows, nz, numRows, rowPtrs, nonzeros) && first + count <= numRows && r < count
    requires rowPtrs[first] <= rowPtrs[first + r] <= rowPtrs[first + r + 1] <= rowPtrs[first + count] <= |nonzeros|
    ensures RowDot(ops, rowPtrs[first..first + count + 1], rowPtrs[first],
                   nonzeros[rowPtrs[first]..rowPtrs[first + count]], x, r)
              == Dot(ops, RowOf(rows, nz, first + r), x)
  {
    assert IsCsrRow(rows, nz, rowPtrs, nonzeros, first + r);
    var ptrs, lo, hi := rowPtrs[first..first + count + 1], rowPtrs[first], rowPtrs[first + count];
    Slices.SliceOfSlice(nonzeros, lo, hi, ptrs[r] - lo, ptrs[r + 1] - lo);
  }

  /**
   * Conversion and kernel, on a DPU given `count` rows from `first` on: out[r] is the fold of
   * value * x[col] over the entries of row first + r in the order of the coordinate list.
   */
  method CooTimesVector<F(0)>(ops: Ops<F>, rows: seq<nat>, nz: seq<Nonzero<F>>, numRows: nat, x: nat -> F,
                              first: nat, count: nat, tasklets: nat, order: seq<nat>)
      returns (out: array<F>)
    requires |rows| == |nz| && numRows >= 1 && first + count <= numRows && tasklets > 0
    requires forall i :: 0 <= i < |rows| ==> rows[i] < numRows
    requires (forall k :: 0 <= k < |order| ==> order[k] < tasklets)
    requires forall tid: nat :: tid < tasklets ==> tid in order
    ensures out.Length == count
    ensures forall r: nat :: r < count ==> out[r] == Dot(ops, RowOf(rows, nz, first + r), x)
  {
    var rowPtrs, nonzeros := Coo2Csr(rows, nz, numRows);
    ghost var ptrs, sorted := rowPtrs[..], nonzeros[..];
    forall q, r | 0 <= q <= r < |ptrs| ensures ptrs[q] <= ptrs[r] <= |sorted| {
      CsrSorted(rows, nz, numRows, ptrs, sorted, q, r);
    }
    var offset, end := rowPtrs[first], rowPtrs[first + count];
    out := new F[count];
    Spmv(ops, rowPtrs[first..first + count + 1], offset, nonzeros[offset..end], x, out, tasklets, order);
    forall r: nat | r < count ensures out[r] == Dot(ops, RowOf(rows, nz, first + r), x) {
      SliceRowDot(ops, rows, nz, numRows, ptrs, sorted, x, first, count, r);
    }
  }
}
