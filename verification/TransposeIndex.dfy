/**
 * The index map of src/TRNS/main.c, evaluated in wrapping 32-bit arithmetic, the
 * loop of step 2, and the composition of the steps: step 2 inside the tiles and
 * then step 3 on whole tiles is the transpose of an (M*m) x n matrix.
 */
module TransposeIndex {
  import opened Words
  import Cycles = TransposeCycles
  import Slices

  function Wrap(x: int): nat
  {
    x % 0x1_0000_0000
  }

  /** i * r - (r * n - 1) * (i / n), every operation modulo 2^32: step 2 with r = m, step 3 with r = M. */
  function IndexMap(i: nat, r: nat, n: nat): nat
    requires n > 0
  {
    Wrap(Wrap(i * r) - Wrap(Wrap(Wrap(r * n) - 1) * (i / n)))
  }

  // ----- the map as arithmetic -----

  lemma WrapShift(x: int, k: int)
    ensures Wrap(x + 0x1_0000_0000 * k) == Wrap(x)
  {
  }

  lemma WrapMul(x: int, y: nat)
    ensures Wrap(Wrap(x) * y) == Wrap(x * y)
  {
    var q := x / 0x1_0000_0000;
    assert x * y == Wrap(x) * y + 0x1_0000_0000 * (q * y);
    WrapShift(Wrap(x) * y, q * y);
  }

  lemma WrapSub(x: int, y: int)
    ensures Wrap(Wrap(x) - y) == Wrap(x - y) && Wrap(x - Wrap(y)) == Wrap(x - y)
  {
  }

  /** The wrapping evaluation is the exact one modulo 2^32. */
  lemma WrappedMap(i: nat, r: nat, n: nat)
    requires n > 0
    ensures IndexMap(i, r, n) == Wrap(i * r - (r * n - 1) * (i / n))
  {
    hide Wrap;
    var q := i / n;
    WrapSub(r * n, 1);
    WrapMul(r * n - 1, q);
    WrapSub(i * r, Wrap((r * n - 1) * q));
    WrapSub(i * r, (r * n - 1) * q);
  }

  lemma LessProduct(x: nat, y: nat, xs: nat, ys: nat)
    requires x < xs && y < ys
    ensures x * ys + y < xs * ys
  {
    assert (xs - x - 1) * ys >= 0;
    assert (xs - x - 1) * ys == xs * ys - x * ys - ys;
  }

  lemma ExactMap(i: nat, a: nat, b: nat, r: nat, n: nat)
    requires i == a * n + b && a < r && b < n
    ensures i * r - (r * n - 1) * a == b * r + a
    ensures b * r + a < r * n
  {
    assert i * r == a * (r * n) + b * r by {
      assert (a * n + b) * r == (a * n) * r + b * r;
      assert (a * n) * r == a * (n * r);
    }
    assert (r * n - 1) * a == a * (r * n) - a;
    LessProduct(b, a, n, r);
  }

  /**
   * As long as the r x n elements number at most 2^32, the map sends row a, column b to
   * row b, column a.
   */
  lemma MapTransposes(i: nat, a: nat, b: nat, r: nat, n: nat)
    requires i == a * n + b && a < r && b < n && r * n <= TWO32
    ensures IndexMap(i, r, n) == b * r + a < r * n
  {
    hide IndexMap;
    WrappedMap(i, r, n);
    ModUnique(i, n, a, b);
    ExactMap(i, a, b, r, n);
    SmallWrap(i * r - (r * n - 1) * a);
  }

  lemma SmallWrap(x: int)
    requires 0 <= x < TWO32
    ensures Wrap(x) == x
  {
  }

  lemma Split(i: nat, r: nat, n: nat) returns (a: nat, b: nat)
    requires n > 0 && i < r * n
    ensures a == i / n && b == i % n && a < r && b < n && i == a * n + b
  {
    a, b := i / n, i % n;
    assert (a - r) * n == a * n - r * n;
    MulAtLeast(n, a - r);
  }

  /** The destinations of the mm * n tiles in step 3. */
  function Destinations(mm: nat, n: nat): (next: seq<nat>)
    requires n > 0
    ensures |next| == mm * n
    ensures forall i :: 0 <= i < |next| ==> next[i] == IndexMap(i, mm, n)
  {
    seq(mm * n, i requires i >= 0 => IndexMap(i, mm, n))
  }

  lemma MapInjective(i: nat, j: nat, r: nat, n: nat)
    requires n > 0 && i < r * n && j < r * n && r * n <= TWO32
    requires IndexMap(i, r, n) == IndexMap(j, r, n)
    ensures i == j
  {
    hide IndexMap;
    var a, b := Split(i, r, n);
    var c, d := Split(j, r, n);
    MapTransposes(i, a, b, r, n);
    MapTransposes(j, c, d, r, n);
    ModUnique(b * r + a, r, b, a);
    ModUnique(d * r + c, r, d, c);
  }

  lemma MapEnds(r: nat, n: nat)
    requires n > 0 && r > 0 && r * n <= TWO32
    ensures r * n >= 1
    ensures IndexMap(0, r, n) == 0 && IndexMap(r * n - 1, r, n) == r * n - 1
  {
    hide IndexMap;
    LessProduct(0, 0, r, n);
    assert (r - 1) * n + (n - 1) == r * n - 1 == (n - 1) * r + (r - 1);
    MapTransposes(0, 0, 0, r, n);
    MapTransposes(r * n - 1, r - 1, n - 1, r, n);
  }

  /** Step 3's map is a bijection of the tiles that fixes the first and tile_max: what the cycle walk needs. */
  lemma DestinationsArePermutation(mm: nat, n: nat)
    requires n > 0 && mm > 0 && mm * n <= TWO32
    ensures Cycles.Permutation(Destinations(mm, n)) && Destinations(mm, n)[0] == 0
  {
    hide IndexMap;
    var next := Destinations(mm, n);
    MapEnds(mm, n);
    forall i | 0 <= i < |next| ensures next[i] < |next| {
      var a, b := Split(i, mm, n);
      MapTransposes(i, a, b, mm, n);
    }
    forall i, j | 0 <= i < |next| && 0 <= j < |next| && next[i] == next[j] ensures i == j {
      MapInjective(i, j, mm, n);
    }
  }

  // ----- step 2 -----

  /** Consecutive piece t of the words, size words long. */
  function Slice<T>(words: seq<T>, t: nat, size: nat): (s: seq<T>)
    requires (t + 1) * size <= |words|
    ensures |s| == size && forall i :: 0 <= i < size ==> s[i] == words[t * size + i]
  {
    assert (t + 1) * size == t * size + size;
    words[t * size..t * size + size]
  }

  /** The index of (row, col) in a row-major matrix of the given width. */
  function Cell(row: nat, col: nat, width: nat): nat
  {
    row * width + col
  }

  /** result is the n x m transpose of the m x n tile. */
  ghost predicate IsTransposed<T>(tile: seq<T>, result: seq<T>, m: nat, n: nat)
  {
    && |tile| == |result| == m * n
    && (forall a: nat, b: nat :: a < m && b < n ==> Cell(a, b, n) < |tile| && Cell(b, a, m) < |result|)
    && (forall a: nat, b: nat :: a < m && b < n ==> result[Cell(b, a, m)] == tile[Cell(a, b, n)])
  }

  /** Each word of data lands where the index map says. */
  ghost predicate IsScattered<T>(data: seq<T>, result: seq<T>, m: nat, n: nat)
    requires n > 0
  {
    && |data| == |result| == m * n
    && (forall j: nat :: j < |data| ==> IndexMap(j, m, n) < |result|)
    && (forall j: nat :: j < |data| ==> result[IndexMap(j, m, n)] == data[j])
  }

  lemma ScatteredIsTransposed<T>(data: seq<T>, result: seq<T>, m: nat, n: nat)
    requires n > 0 && m * n <= TWO32 && IsScattered(data, result, m, n)
    ensures IsTransposed(data, result, m, n)
  {
    hide IndexMap;
    forall a: nat, b: nat | a < m && b < n
      ensures Cell(a, b, n) < |data| && Cell(b, a, m) < |result|
      ensures result[Cell(b, a, m)] == data[Cell(a, b, n)]
    {
      LessProduct(a, b, m, n);
      MapTransposes(Cell(a, b, n), a, b, m, n);
    }
  }

  /** The inner loop of main_kernel1 on one tile. */
  method TransposeTile<T(0)>(data: seq<T>, m: nat, n: nat) returns (result: seq<T>)
    requires n > 0 && |data| == m * n <= TWO32
    ensures IsTransposed(data, result, m, n)
  {
    hide IndexMap;
    var backup := new T[m * n];
    for i := 0 to |data|
      invariant forall j: nat :: j < i ==> IndexMap(j, m, n) < backup.Length
      invariant forall j: nat :: j < i ==> backup[IndexMap(j, m, n)] == data[j]
    {
      InRange(i, m, n);
      forall j: nat | j < i ensures IndexMap(j, m, n) != IndexMap(i, m, n) {
        Distinct(i, j, m, n);
      }
      backup[IndexMap(i, m, n)] := data[i];
    }
    result := backup[..];
    ScatteredIsTransposed(data, result, m, n);
  }

  lemma InRange(i: nat, r: nat, n: nat)
    requires n > 0 && i < r * n <= TWO32
    ensures IndexMap(i, r, n) < r * n
  {
    hide IndexMap;
    var a, b := Split(i, r, n);
    MapTransposes(i, a, b, r, n);
  }

  lemma Distinct(i: nat, j: nat, r: nat, n: nat)
    requires n > 0 && j < i < r * n <= TWO32
    ensures IndexMap(j, r, n) != IndexMap(i, r, n)
  {
    hide IndexMap;
    if IndexMap(j, r, n) == IndexMap(i, r, n) {
      MapInjective(i, j, r, n);
    }
  }

  lemma PieceFits(t: nat, count: nat, size: nat)
    requires t < count
    ensures 0 <= t * size && (t + 1) * size == t * size + size <= count * size
  {
    assert (count - t - 1) * size >= 0;
    assert (count - t - 1) * size == count * size - t * size - size;
  }

  /** Tile t of the one is tile t of the other transposed. */
  ghost predicate TileTransposed<T>(before: seq<T>, now: seq<T>, mm: nat, m: nat, n: nat, t: nat)
    requires t < mm && |before| == |now| == mm * (m * n)
  {
    PieceFits(t, mm, m * n);
    IsTransposed(Slice(before, t, m * n), Slice(now, t, m * n), m, n)
  }

  /** write_tile_step2: stores the piece and nothing else. */
  method StorePiece<T>(mem: array<T>, base: nat, piece: seq<T>)
    requires base + |piece| <= mem.Length
    modifies mem
    ensures mem[..] == old(mem[..base]) + piece + old(mem[base + |piece|..])
  {
    for i := 0 to |piece|
      invariant mem[..base] == old(mem[..base])
      invariant mem[base..base + i] == piece[..i]
      invariant mem[base + i..] == old(mem[base + i..])
    {
      mem[base + i] := piece[i];
      assert mem[base..base + i + 1] == mem[base..base + i] + [piece[i]];
    }
    assert mem[..] == mem[..base] + mem[base..base + |piece|] + mem[base + |piece|..];
  }

  /** Reads the tile at base, transposes it and writes it back, and touches nothing else. */
  method TransposeInPlace<T(0)>(mem: array<T>, base: nat, size: nat, m: nat, n: nat) returns (ghost piece: seq<T>)
    requires n > 0 && size == m * n <= TWO32 && base + size <= mem.Length
    modifies mem
    ensures |piece| == size && IsTransposed(old(mem[base..base + size]), piece, m, n)
    ensures mem[..] == Slices.Overwrite(old(mem[..]), base, piece)
  {
    hide IsTransposed;
    ghost var before := mem[..];
    var data := mem[base..base + size];
    var result := TransposeTile(data, m, n);
    TransposedSize(data, result, m, n);
    StorePiece(mem, base, result);
    piece := result;
  }

  lemma TransposedSize<T>(tile: seq<T>, result: seq<T>, m: nat, n: nat)
    requires IsTransposed(tile, result, m, n)
    ensures |result| == |tile|
  {
  }

  // ----- both steps -----

  /** Step 3 has moved the m-word tile p of before to its destination, for every p. */
  ghost predicate TilesMoved<T>(before: seq<T>, after: seq<T>, mm: nat, m: nat, n: nat)
    requires n > 0 && mm * n <= TWO32 && |before| == |after| == (mm * n) * m
  {
    forall p: nat :: p < mm * n ==>
      (InRange(p, mm, n); PieceFits(p, mm * n, m); PieceFits(IndexMap(p, mm, n), mm * n, m);
       Slice(after, IndexMap(p, mm, n), m) == Slice(before, p, m))
  }

  lemma CellInTile(t: nat, a: nat, col: nat, m: nat, n: nat)
    ensures Cell(t * m + a, col, n) == t * (m * n) + Cell(a, col, n)
    ensures t * (m * n) + Cell(col, a, m) == Cell(t, col, n) * m + a
  {
    assert (t * m + a) * n == (t * m) * n + a * n;
    assert (t * n + col) * m == (t * n) * m + col * m;
    assert (t * m) * n == t * (m * n) == (t * n) * m;
  }

  lemma CellOfTiles(col: nat, t: nat, a: nat, mm: nat, m: nat)
    ensures Cell(col, t, mm) * m + a == Cell(col, t * m + a, mm * m)
  {
    assert (col * mm + t) * m == (col * mm) * m + t * m;
    assert (col * mm) * m == col * (mm * m);
  }

  /** After step 2: entry (row, col) of the matrix, found in the m-word tiles step 3 moves. */
  lemma AfterStep2<T>(start: seq<T>, mid: seq<T>, mm: nat, m: nat, n: nat, t: nat, a: nat, col: nat)
    requires |start| == |mid| == mm * (m * n) && t < mm && a < m && col < n
    requires TileTransposed(start, mid, mm, m, n, t)
    ensures Cell(t * m + a, col, n) < |start| && 0 <= Cell(t, col, n) * m + a < |mid|
    ensures mid[Cell(t, col, n) * m + a] == start[Cell(t * m + a, col, n)]
  {
    hide Cell;
    var size := m * n;
    CellInTile(t, a, col, m, n);
    PieceFits(t, mm, size);
    assert Cell(a, col, n) < size && Cell(col, a, m) < size;
    assert Slice(start, t, size)[Cell(a, col, n)] == Slice(mid, t, size)[Cell(col, a, m)];
  }

  lemma AfterStep3<T>(mid: seq<T>, final: seq<T>, mm: nat, m: nat, n: nat, p: nat, a: nat)
    requires n > 0 && mm * n <= TWO32 && |mid| == |final| == (mm * n) * m
    requires TilesMoved(mid, final, mm, m, n) && p < mm * n && a < m
    ensures 0 <= p * m + a < |mid| && 0 <= IndexMap(p, mm, n) * m + a < |final|
    ensures final[IndexMap(p, mm, n) * m + a] == mid[p * m + a]
  {
    hide IndexMap;
    InRange(p, mm, n);
    PieceFits(p, mm * n, m);
    PieceFits(IndexMap(p, mm, n), mm * n, m);
    assert Slice(final, IndexMap(p, mm, n), m)[a] == Slice(mid, p, m)[a];
  }

  /**
   * Step 2 and then step 3 transpose: entry (row, col) of the (mm*m) x n matrix ends up as
   * entry (col, row) of the n x (mm*m) matrix.
   */
  lemma StepsTranspose<T>(start: seq<T>, mid: seq<T>, final: seq<T>, mm: nat, m: nat, n: nat, row: nat, col: nat)
    requires n > 0 && m * n <= TWO32 && mm * n <= TWO32
    requires |start| == |mid| == |final| == mm * (m * n) == (mm * n) * m
    requires forall t: nat :: t < mm ==> TileTransposed(start, mid, mm, m, n, t)
    requires TilesMoved(mid, final, mm, m, n)
    requires row < mm * m && col < n
    ensures Cell(row, col, n) < |start| && Cell(col, row, mm * m) < |final|
    ensures final[Cell(col, row, mm * m)] == start[Cell(row, col, n)]
  {
    hide IndexMap, TilesMoved, TileTransposed;
    RowInTile(row, mm, m);
    var t, a := row / m, row % m;
    var p := Cell(t, col, n);
    AfterStep2(start, mid, mm, m, n, t, a, col);
    LessProduct(t, col, mm, n);
    MapTransposes(p, t, col, mm, n);
    AfterStep3(mid, final, mm, m, n, p, a);
    CellOfTiles(col, t, a, mm, m);
  }

  lemma TimesZero(x: nat)
    ensures x * 0 == 0
  {
  }

  lemma RowInTile(row: nat, mm: nat, m: nat)
    requires row < mm * m
    ensures m > 0 && row / m < mm && row == (row / m) * m + row % m && row % m < m
  {
    if m == 0 {
      TimesZero(mm);
    }
    var t, a := Split(row, mm, m);
  }

  /** words is the concatenation of the m-word tiles. */
  ghost predicate Tiled<T>(words: seq<T>, tiles: seq<seq<T>>, m: nat)
  {
    |words| == |tiles| * m
    && forall q: nat :: q < |tiles| ==> (PieceFits(q, |tiles|, m); Slice(words, q, m) == tiles[q])
  }

  /**
   * main_kernel1 on every tile, then any finished run of main_kernel2 with any number of
   * tasklets: entry (row, col) has become entry (col, row).
   */
  lemma KernelsTranspose<T>(
      start: seq<T>, mid: seq<T>, states: seq<Cycles.State<T>>, who: seq<nat>, final: seq<T>,
      orig: seq<seq<T>>, mm: nat, m: nat, n: nat, row: nat, col: nat)
    requires n > 0 && m * n <= TWO32 && mm * n <= TWO32
    requires |start| == |mid| == mm * (m * n) == (mm * n) * m
    requires forall t: nat :: t < mm ==> TileTransposed(start, mid, mm, m, n, t)
    requires |orig| == mm * n && Tiled(mid, orig, m)
    requires Cycles.Run(states, who, Cycles.Job(Destinations(mm, n), m), orig)
    requires |states[|who|].pc| > 0 && forall t :: 0 <= t < |states[|who|].pc| ==> states[|who|].pc[t].Finished?
    requires |states[|who|].tiles| == mm * n && Tiled(final, states[|who|].tiles, m)
    requires row < mm * m && col < n
    ensures Cell(row, col, n) < |start| && Cell(col, row, mm * m) < |final|
    ensures final[Cell(col, row, mm * m)] == start[Cell(row, col, n)]
  {
    hide IndexMap, TileTransposed;
    var job := Cycles.Job(Destinations(mm, n), m);
    var last := states[|who|].tiles;
    forall p: nat | p < mm * n
      ensures IndexMap(p, mm, n) < mm * n && (p + 1) * m <= |mid| && (IndexMap(p, mm, n) + 1) * m <= |final|
      ensures Slice(final, IndexMap(p, mm, n), m) == Slice(mid, p, m)
    {
      InRange(p, mm, n);
      PieceFits(p, mm * n, m);
      PieceFits(IndexMap(p, mm, n), mm * n, m);
      Cycles.TilesPermuted(states, who, job, orig, |who|, p);
      assert last[IndexMap(p, mm, n)] == orig[p];
    }
    StepsTranspose(start, mid, final, mm, m, n, row, col);
  }
}
