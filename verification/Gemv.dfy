/**
 * Matrix times vector of src/gemv/main.c over 32-bit elements: the tasklets' row ranges,
 * and rows that start at addresses the DMA engine rounds down to a multiple of 8 bytes.
 * Addresses count elements, so a misaligned address is an odd one.
 */
module Gemv {
  import opened Words
  import Shares

  function Add32(x: word, y: word): word { (x + y) % 0x1_0000_0000 }

  function Mul32(x: word, y: word): word { (x as int * y as int) % 0x1_0000_0000 }

  /** The kernel's accumulation of n products, each operation modulo 2^32. */
  function Fold(m: seq<word>, a: nat, b: nat, n: nat): (c: word)
    requires a + n <= |m| && b + n <= |m|
  {
    if n == 0 then 0 else Add32(Fold(m, a, b, n - 1), Mul32(m[a + n - 1], m[b + n - 1]))
  }

  /** The inner product over the integers. */
  function Dot(x: seq<word>, y: seq<word>): nat
    requires |x| == |y|
  {
    if x == [] then 0 else Dot(x[..|x| - 1], y[..|y| - 1]) + x[|x| - 1] as nat * y[|y| - 1] as nat
  }

  lemma AddMod(c: word, s: nat, p: nat)
    requires c == s % 0x1_0000_0000
    ensures (c + p % 0x1_0000_0000) % 0x1_0000_0000 == (s + p) % 0x1_0000_0000
  {
  }

  lemma AddMul(c: word, s: nat, x: word, y: word)
    requires c == s % 0x1_0000_0000
    ensures Add32(c, Mul32(x, y)) == (s + x as nat * y as nat) % 0x1_0000_0000
  {
    var p: nat := x as nat * y as nat;
    AddMod(c, s, p);
  }

  /** Reducing at every step is reducing once. */
  lemma {:induction false} FoldIsDot(m: seq<word>, a: nat, b: nat, n: nat)
    requires a + n <= |m| && b + n <= |m|
    ensures Fold(m, a, b, n) == Dot(m[a..a + n], m[b..b + n]) % 0x1_0000_0000
  {
    if n > 0 {
      hide Add32, Mul32;
      FoldIsDot(m, a, b, n - 1);
      var x, y := m[a..a + n], m[b..b + n];
      assert x[..n - 1] == m[a..a + n - 1] && y[..n - 1] == m[b..b + n - 1];
      var s := Dot(x[..n - 1], y[..n - 1]);
      assert Dot(x, y) == s + x[n - 1] as nat * y[n - 1] as nat;
      hide Dot;
      AddMul(Fold(m, a, b, n - 1), s, x[n - 1], y[n - 1]);
    }
  }

  lemma {:induction false} FoldFrame(m: seq<word>, m': seq<word>, a: nat, b: nat, n: nat, end: nat)
    requires a + n <= end <= |m| && b + n <= end <= |m'| && m[..end] == m'[..end]
    ensures Fold(m, a, b, n) == Fold(m', a, b, n)
  {
    if n > 0 {
      FoldFrame(m, m', a, b, n - 1, end);
      assert m[..end][a + n - 1] == m'[..end][a + n - 1] && m[..end][b + n - 1] == m'[..end][b + n - 1];
    }
  }

  // ----- one row -----

  /** mram_read: the address is rounded down to a multiple of 8 bytes. */
  method Read(mram: array<word>, addr: nat, cache: array<word>, n: nat)
    requires mram != cache && n <= cache.Length && addr + n <= mram.Length
    modifies cache
    ensures forall k :: 0 <= k < n ==> cache[k] == mram[addr - addr % 2 + k]
    ensures forall k :: n <= k < cache.Length ==> cache[k] == old(cache[k])
  {
    var from := addr - addr % 2;
    for k := 0 to n
      invariant forall j :: 0 <= j < k ==> cache[j] == mram[from + j]
      invariant forall j :: n <= j < cache.Length ==> cache[j] == old(cache[j])
    {
      cache[k] := mram[from + k];
    }
  }

  /** A block from a, shifted down by one and completed with an auxiliary read when a is odd. */
  method LoadBlock(mram: array<word>, block: nat, a: nat, offset: bool, cache: array<word>, aux: array<word>)
    requires block > 0 && block % 2 == 0
    requires mram != cache && mram != aux && cache != aux && cache.Length >= block && aux.Length == 2
    requires a + block + 2 <= mram.Length && (offset <==> a % 2 == 1)
    modifies cache, aux
    ensures forall k :: 0 <= k < block ==> cache[k] == mram[a + k]
  {
    Read(mram, a, cache, block);
    if offset {
      for off := 0 to block - 1
        invariant forall k :: 0 <= k < off ==> cache[k] == mram[a + k]
        invariant forall k :: off <= k < block ==> cache[k] == mram[a - 1 + k]
      {
        cache[off] := cache[off + 1];
      }
      Read(mram, a + block, aux, 2);
      cache[block - 1] := aux[0];
    }
  }

  /** Both inner loops: n products added to the accumulator. */
  method Accumulate(cacheA: array<word>, cacheB: array<word>, n: nat, c: word, ghost m: seq<word>,
                    ghost a: nat, ghost b: nat,
                    ghost done: nat) returns (c': word)
    requires n <= cacheA.Length && n <= cacheB.Length && a + done + n <= |m| && b + done + n <= |m|
    requires forall k :: 0 <= k < n ==> cacheA[k] == m[a + done + k] && cacheB[k] == m[b + done + k]
    requires c == Fold(m, a, b, done)
    ensures c' == Fold(m, a, b, done + n)
  {
    hide Add32, Mul32;
    c' := c;
    for j := 0 to n
      invariant c' == Fold(m, a, b, done + j)
    {
      assert cacheA[j] == m[a + (done + j + 1) - 1] && cacheB[j] == m[b + (done + j + 1) - 1];
      c' := Add32(c', Mul32(cacheA[j], cacheB[j]));
    }
  }

  datatype Caches = Caches(a: array<word>, aux: array<word>, b: array<word>)
  {
    predicate Valid(mram: array<word>, block: nat)
    {
      && a != aux && a != b && aux != b && mram != a && mram != aux && mram != b
      && a.Length == block + 2 && aux.Length == 2 && b.Length == block
    }

    predicate Apart(c: array<word>, mram: array<word>)
    {
      c != mram && c != a && c != aux && c != b
    }
  }

  /** One element of the result, and the address of the next row. */
  method Row(mram: array<word>, block: nat, a: nat, b: nat, nSize: nat, offset: bool, cs: Caches, ghost end: nat)
      returns (c: word, next: nat)
    requires block > 0 && block % 2 == 0 && cs.Valid(mram, block)
    requires nSize >= 1 && b % 2 == 0 && (offset <==> a % 2 == 1)
    requires a + nSize <= end && b + nSize <= end && end + block + 2 <= mram.Length
    modifies cs.a, cs.aux, cs.b
    ensures c == Fold(mram[..end], a, b, nSize) && next == a + nSize
  {
    hide Fold;
    ghost var m := mram[..end];
    c := 0;
    FoldNothing(m, a, b);
    var n, tempA, tempB := 0, a, b;
    while n < nSize - block
      invariant n < nSize && tempA == a + n && tempB == b + n
      invariant tempB % 2 == 0 && (offset <==> tempA % 2 == 1)
      invariant c == Fold(m, a, b, n)
    {
      LoadBlock(mram, block, tempA, offset, cs.a, cs.aux);
      Read(mram, tempB, cs.b, block);
      c := Accumulate(cs.a, cs.b, block, c, m, a, b, n);
      n, tempA, tempB := n + block, tempA + block, tempB + block;
    }
    LoadBlock(mram, block, tempA, offset, cs.a, cs.aux);
    Read(mram, tempB, cs.b, block);
    c := Accumulate(cs.a, cs.b, nSize - n, c, m, a, b, n);
    next := tempA + (block - (block - (nSize - n)));
  }

  lemma FoldNothing(m: seq<word>, a: nat, b: nat)
    requires a <= |m| && b <= |m|
    ensures Fold(m, a, b, 0) == 0
  {
  }

  // ----- the rows of a tasklet -----

  function RoundUp(n: nat, m: nat): nat
    requires m > 0
  {
    n / m * m + m
  }

  /** chunks, dbl_chunks and rest_rows, for pairs of rows. */
  function Chunks(rows: nat, tasklets: nat): (q: nat)
    requires tasklets > 0
  {
    Quotient(rows, tasklets * 2)
  }

  function Quotient(n: nat, d: nat): nat
    requires d > 0
  {
    n / d
  }

  function Share(rows: nat, tasklets: nat): nat
    requires tasklets > 0
  {
    2 * Chunks(rows, tasklets)
  }

  function Rest(rows: nat, tasklets: nat): nat
    requires tasklets > 0
  {
    rows % (tasklets * 2)
  }

  function RowCount(share: nat, rest: nat, tid: nat): nat
  {
    share + if tid * 2 < rest then 2 else 0
  }

  function StartRow(share: nat, rest: nat, tid: nat): nat
  {
    if rest > 0 then
      if tid * 2 >= rest then
        if rest % 2 != 0 then RoundUp(rest, 2) + tid * share else rest + tid * share
      else tid * (share + 2)
    else tid * share
  }

  /** The ranges are even, start at row 0 and follow one another. */
  lemma RangesAdjacent(share: nat, rest: nat, tid: nat)
    requires share % 2 == 0
    ensures StartRow(share, rest, 0) == 0
    ensures StartRow(share, rest, tid) % 2 == 0 && RowCount(share, rest, tid) % 2 == 0
    ensures StartRow(share, rest, tid + 1) == StartRow(share, rest, tid) + RowCount(share, rest, tid)
  {
    var h := share / 2;
    assert share == 2 * h;
    Distribute(tid, share);
    Halves(tid, h);
    Halves(0, h);
  }

  lemma Distribute(tid: nat, share: nat)
    ensures (tid + 1) * share == tid * share + share && tid * (share + 2) == tid * share + 2 * tid
    ensures (tid + 1) * (share + 2) == tid * share + share + 2 * tid + 2
  {
  }

  lemma Halves(tid: nat, h: nat)
    ensures tid * (2 * h) % 2 == 0 && tid * (2 * h) == 2 * (tid * h)
  {
    assert tid * (2 * h) == 2 * (tid * h);
  }

  /** And they end at the number of rows, rounded up to a pair. */
  lemma RangesEnd(rows: nat, tasklets: nat)
    requires tasklets > 0
    ensures StartRow(Share(rows, tasklets), Rest(rows, tasklets), tasklets) == rows + rows % 2
  {
    var rest, q := Rest(rows, tasklets), Chunks(rows, tasklets);
    QuotientAndRest(rows, tasklets);
    Halves(tasklets, q);
    assert Share(rows, tasklets) == 2 * q;
    LastStart(2 * q, rest, tasklets);
    hide Chunks, Rest, StartRow, Share;
    EvenSum(0, tasklets * q);
    SameParity(rows, tasklets * q, rest);
  }

  lemma LastStart(share: nat, rest: nat, tid: nat)
    requires rest < 2 * tid
    ensures StartRow(share, rest, tid) == rest + rest % 2 + tid * share
  {
  }

  lemma SameParity(n: nat, k: nat, r: nat)
    requires n == 2 * k + r
    ensures n % 2 == r % 2
  {
  }

  lemma QuotientAndRest(rows: nat, tasklets: nat)
    requires tasklets > 0
    ensures rows == 2 * (tasklets * Chunks(rows, tasklets)) + Rest(rows, tasklets)
    ensures Rest(rows, tasklets) < 2 * tasklets
  {
    var size, q := tasklets * 2, Chunks(rows, tasklets);
    assert rows == q * size + rows % size;
    assert q * size == 2 * (tasklets * q);
  }

  lemma {:induction false} RangesOrdered(share: nat, rest: nat, t: nat, u: nat)
    requires share % 2 == 0 && t <= u
    ensures StartRow(share, rest, t) <= StartRow(share, rest, u)
    decreases u - t
  {
    if t < u {
      RangesAdjacent(share, rest, t);
      RangesOrdered(share, rest, t + 1, u);
    }
  }

  function First(rows: nat, tasklets: nat, tid: nat): nat
    requires tasklets > 0
  {
    StartRow(Share(rows, tasklets), Rest(rows, tasklets), tid)
  }

  function After(rows: nat, tasklets: nat, tid: nat): nat
    requires tasklets > 0
  {
    First(rows, tasklets, tid) + RowCount(Share(rows, tasklets), Rest(rows, tasklets), tid)
  }

  predicate Owns(rows: nat, tasklets: nat, tid: nat, r: nat)
    requires tasklets > 0
  {
    First(rows, tasklets, tid) <= r < After(rows, tasklets, tid)
  }

  lemma {:induction false} OwnerBelow(share: nat, rest: nat, tid: nat, r: nat) returns (owner: nat)
    requires share % 2 == 0 && r < StartRow(share, rest, tid)
    ensures owner < tid
    ensures StartRow(share, rest, owner) <= r < StartRow(share, rest, owner) + RowCount(share, rest, owner)
  {
    hide StartRow, RowCount;
    owner := 0;
    RangesAdjacent(share, rest, 0);
    if tid > 0 {
      RangesAdjacent(share, rest, tid - 1);
      if r < StartRow(share, rest, tid - 1) {
        owner := OwnerBelow(share, rest, tid - 1, r);
      } else {
        owner := tid - 1;
      }
    }
  }

  /** Every row is computed by exactly one tasklet. */
  lemma RowOwned(rows: nat, tasklets: nat, r: nat) returns (owner: nat)
    requires tasklets > 0 && r < rows
    ensures owner < tasklets && Owns(rows, tasklets, owner, r)
    ensures forall tid: nat :: tid < tasklets && Owns(rows, tasklets, tid, r) ==> tid == owner
  {
    var share, rest := Share(rows, tasklets), Rest(rows, tasklets);
    RangesEnd(rows, tasklets);
    ShareEven(rows, tasklets);
    hide StartRow, RowCount, Share, Rest;
    owner := OwnerBelow(share, rest, tasklets, r);
    forall tid: nat | tid < tasklets && Owns(rows, tasklets, tid, r) ensures tid == owner {
      RangesAdjacent(share, rest, tid);
      RangesAdjacent(share, rest, owner);
      if tid < owner {
        RangesOrdered(share, rest, tid + 1, owner);
      } else if owner < tid {
        RangesOrdered(share, rest, owner + 1, tid);
      }
    }
  }

  lemma ShareEven(rows: nat, tasklets: nat)
    requires tasklets > 0
    ensures Share(rows, tasklets) % 2 == 0
  {
  }

  // ----- the kernel -----

  /** The matrix at baseA with rows nSize apart, the vector at baseB, the result at baseC; block elements a transfer. */
  datatype Layout = Layout(baseA: nat, baseB: nat, baseC: nat, nSize: nat, pad: nat, rows: nat, maxRows: nat,
                           block: nat)
  {
    function SliceSize(): nat { maxRows * pad }

    predicate Valid()
    {
      && baseA % 2 == 0 && baseB % 2 == 0 && baseC % 2 == 0
      && 1 <= nSize <= pad && rows <= maxRows && block > 0 && block % 2 == 0
      && baseB == baseA + SliceSize() && baseC == baseB + pad
    }
  }

  /** Where row r starts. */
  function RowAddr(lay: Layout, r: nat): nat
  {
    lay.baseA + r * lay.nSize
  }

  lemma RowInside(lay: Layout, r: nat)
    requires lay.Valid() && r < lay.rows
    ensures RowAddr(lay, r) + lay.nSize <= lay.baseB
  {
    Shares.ProductStep(r, lay.maxRows, lay.nSize);
    Shares.ProductMonotone(lay.nSize, lay.pad, lay.maxRows);
  }

  lemma RowFollows(lay: Layout, r: nat)
    ensures RowAddr(lay, r + 1) == RowAddr(lay, r) + lay.nSize
  {
    assert (r + 1) * lay.nSize == r * lay.nSize + lay.nSize;
  }

  /** An even row starts at an aligned address. */
  lemma EvenRowAligned(lay: Layout, r: nat)
    requires lay.baseA % 2 == 0 && r % 2 == 0
    ensures RowAddr(lay, r) % 2 == 0
  {
    var h := r / 2;
    assert r * lay.nSize == 2 * (h * lay.nSize);
    EvenSum(lay.baseA, h * lay.nSize);
  }

  lemma EvenSum(a: nat, k: nat)
    requires a % 2 == 0
    ensures (a + 2 * k) % 2 == 0
  {
  }

  /** Element r of the product, from the memory below the result. */
  function Value(m: seq<word>, lay: Layout, r: nat): word
    requires lay.Valid() && |m| == lay.baseC && r < lay.rows
  {
    RowInside(lay, r);
    Fold(m, RowAddr(lay, r), lay.baseB, lay.nSize)
  }

  /** Rows i and i + 1, as far as they exist, into the two elements of cache_C. */
  method Pair(mram: array<word>, lay: Layout, i: nat, offset: bool, cs: Caches, cacheC: array<word>)
      returns (offset': bool)
    requires lay.Valid() && lay.baseC + lay.block + 2 <= mram.Length && i % 2 == 0 && (i < lay.rows ==> !offset)
    requires cs.Valid(mram, lay.block) && cs.Apart(cacheC, mram) && cacheC.Length == 2
    modifies cs.a, cs.aux, cs.b, cacheC
    ensures forall pos: nat :: pos < 2 && i + pos < lay.rows ==> cacheC[pos] == Value(mram[..lay.baseC], lay, i + pos)
    ensures i + 2 < lay.rows ==> !offset'
  {
    hide Fold, RowAddr, Layout.SliceSize;
    var tempA := lay.baseA + i * lay.nSize;
    assert tempA == RowAddr(lay, i) by { RowAddrIs(lay, i); }
    EvenRowAligned(lay, i);
    EvenRowAligned(lay, i + 2);
    cacheC[0], cacheC[1] := 0, 0;
    offset' := offset;
    for pos := 0 to 2
      invariant tempA == RowAddr(lay, i + pos)
      invariant i + pos < lay.rows ==> (offset' <==> tempA % 2 == 1)
      invariant forall p: nat :: p < pos ==> i + p < lay.rows && cacheC[p] == Value(mram[..lay.baseC], lay, i + p)
    {
      if i + pos >= lay.rows {
        break;
      }
      RowInside(lay, i + pos);
      RowFollows(lay, i + pos);
      var c;
      c, tempA := Row(mram, lay.block, tempA, lay.baseB, lay.nSize, offset', cs, lay.baseC);
      cacheC[pos] := c;
      offset' := tempA % 2 != 0;
    }
  }

  lemma RowAddrIs(lay: Layout, r: nat)
    ensures RowAddr(lay, r) == lay.baseA + r * lay.nSize
  {
  }

  /** The pair of rows at i, computed and written as eight bytes. */
  method WritePair(mram: array<word>, lay: Layout, i: nat, offset: bool, cs: Caches, cacheC: array<word>,
                   ghost was: seq<word>, ghost start: nat) returns (offset': bool)
    requires lay.Valid() && |was| == mram.Length && lay.baseC + lay.block + 2 <= |was|
    requires start <= i && lay.baseC + lay.rows <= |was| && lay.baseC + i + 2 <= |was|
    requires i % 2 == 0 && (i < lay.rows ==> !offset)
    requires cs.Valid(mram, lay.block) && cs.Apart(cacheC, mram) && cacheC.Length == 2
    requires Progress(mram[..], was, lay, start, i)
    modifies mram, cs.a, cs.aux, cs.b, cacheC
    ensures Progress(mram[..], was, lay, start, i + 2)
    ensures i + 2 < lay.rows ==> !offset'
  {
    hide Value, Progress, Layout.SliceSize;
    ghost var now := mram[..];
    Operands(now, was, lay, start, i);
    assert mram[..lay.baseC] == was[..lay.baseC];
    offset' := Pair(mram, lay, i, offset, cs, cacheC);
    assert i < lay.rows ==> cacheC[0] == Value(was[..lay.baseC], lay, i + 0);
    assert i + 1 < lay.rows ==> cacheC[1] == Value(was[..lay.baseC], lay, i + 1);
    var at := lay.baseC + i;
    mram[at], mram[at + 1] := cacheC[0], cacheC[1];
    ProgressStep(now, mram[..], was, lay, start, i, cacheC[0], cacheC[1]);
  }

  /** One tasklet: its rows, two at a time, each pair written as eight bytes. */
  method TaskletRows(mram: array<word>, lay: Layout, tasklets: nat, tid: nat)
    requires lay.Valid() && tid < tasklets && lay.baseC + lay.rows + 1 <= mram.Length
    requires lay.baseC + lay.block + 2 <= mram.Length
    modifies mram
    ensures Progress(mram[..], old(mram[..]), lay, First(lay.rows, tasklets, tid), After(lay.rows, tasklets, tid))
  {
    RangeInside(lay.rows, tasklets, tid);
    hide Value, First, After, Progress, Layout.Valid;
    var start, end := First(lay.rows, tasklets, tid), After(lay.rows, tasklets, tid);
    var cacheA, aux, cacheB, cacheC := new word[lay.block + 2], new word[2], new word[lay.block], new word[2];
    var cs := Caches(cacheA, aux, cacheB);
    var offset, i := false, start;
    ghost var was := mram[..];
    NoProgress(was, lay, start);
    while i < end
      invariant start <= i <= end && i % 2 == 0 && (i < lay.rows ==> !offset)
      invariant Progress(mram[..], was, lay, start, i)
    {
      NextEven(i, end);
      offset := WritePair(mram, lay, i, offset, cs, cacheC, was, start);
      i := i + 2;
    }
  }

  lemma NextEven(i: nat, end: nat)
    requires i < end && i % 2 == 0 && end % 2 == 0
    ensures i + 2 <= end && (i + 2) % 2 == 0
  {
  }

  /** Rows start..i are in place, and nothing else has changed. */
  ghost predicate Progress(now: seq<word>, was: seq<word>, lay: Layout, start: nat, i: nat)
    requires lay.Valid() && lay.baseC + lay.rows <= |was|
  {
    && |now| == |was|
    && (forall r: nat :: start <= r < i && r < lay.rows ==> now[lay.baseC + r] == Value(was[..lay.baseC], lay, r))
    && (forall k: nat :: k < |was| && !(lay.baseC + start <= k < lay.baseC + i) ==> now[k] == was[k])
  }

  lemma NoProgress(was: seq<word>, lay: Layout, start: nat)
    requires lay.Valid() && lay.baseC + lay.rows <= |was|
    ensures Progress(was, was, lay, start, start)
  {
  }

  lemma Operands(now: seq<word>, was: seq<word>, lay: Layout, start: nat, i: nat)
    requires lay.Valid() && lay.baseC + lay.rows <= |was| && Progress(now, was, lay, start, i)
    ensures |now| == |was| && now[..lay.baseC] == was[..lay.baseC]
  {
  }

  lemma ProgressStep(now: seq<word>, next: seq<word>, was: seq<word>, lay: Layout, start: nat, i: nat,
                     c0: word, c1: word)
    requires lay.Valid() && lay.baseC + lay.rows <= |was| == |now| == |next| && start <= i && lay.baseC + i + 2 <= |was|
    requires next[lay.baseC + i] == c0 && next[lay.baseC + i + 1] == c1
    requires forall k: nat :: k < |was| && k != lay.baseC + i && k != lay.baseC + i + 1 ==> next[k] == now[k]
    requires Progress(now, was, lay, start, i)
    requires i < lay.rows ==> c0 == Value(was[..lay.baseC], lay, i)
    requires i + 1 < lay.rows ==> c1 == Value(was[..lay.baseC], lay, i + 1)
    ensures Progress(next, was, lay, start, i + 2)
  {
    hide Value, Layout.SliceSize;
  }

  lemma RangeInside(rows: nat, tasklets: nat, tid: nat)
    requires tid < tasklets
    ensures First(rows, tasklets, tid) % 2 == 0 && After(rows, tasklets, tid) % 2 == 0
    ensures First(rows, tasklets, tid) <= After(rows, tasklets, tid) <= rows + 1
  {
    hide StartRow, RowCount, Share, Rest;
    ShareEven(rows, tasklets);
    var share, rest := Share(rows, tasklets), Rest(rows, tasklets);
    RangesEnd(rows, tasklets);
    RangesAdjacent(share, rest, tid);
    RangesOrdered(share, rest, tid + 1, tasklets);
  }

  /** Operands as before, and the rows of the first k tasklets of the order in place. */
  ghost predicate Computed(now: seq<word>, was: seq<word>, lay: Layout, tasklets: nat, order: seq<nat>, k: nat)
    requires lay.Valid() && lay.baseC + lay.rows <= |was| && tasklets > 0 && k <= |order|
  {
    && |now| == |was| && now[..lay.baseC] == was[..lay.baseC]
    && forall r: nat, j :: r < lay.rows && 0 <= j < k && Owns(lay.rows, tasklets, order[j], r) ==>
         now[lay.baseC + r] == Value(was[..lay.baseC], lay, r)
  }

  lemma NextComputed(next: seq<word>, now: seq<word>, was: seq<word>, lay: Layout, tasklets: nat,
                     order: seq<nat>, k: nat)
    requires lay.Valid() && lay.baseC + lay.rows <= |was| && tasklets > 0 && k < |order|
    requires Computed(now, was, lay, tasklets, order, k)
    requires Progress(next, now, lay, First(lay.rows, tasklets, order[k]), After(lay.rows, tasklets, order[k]))
    ensures Computed(next, was, lay, tasklets, order, k + 1)
  {
    hide Value, First, After, Layout.SliceSize;
    Operands(next, now, lay, First(lay.rows, tasklets, order[k]), After(lay.rows, tasklets, order[k]));
    forall r: nat, j | r < lay.rows && 0 <= j < k + 1 && Owns(lay.rows, tasklets, order[j], r)
      ensures next[lay.baseC + r] == Value(was[..lay.baseC], lay, r)
    {
      if j < k {
        assert now[lay.baseC + r] == Value(was[..lay.baseC], lay, r);
      }
    }
  }

  /** All tasklets, in any order: every row's inner product modulo 2^32, and the operands untouched. */
  method Kernel(mram: array<word>, lay: Layout, tasklets: nat, order: seq<nat>)
    requires lay.Valid() && tasklets > 0 && lay.baseC + lay.rows + 1 <= mram.Length
    requires lay.baseC + lay.block + 2 <= mram.Length
    requires (forall k :: 0 <= k < |order| ==> order[k] < tasklets)
    requires forall tid: nat :: tid < tasklets ==> tid in order
    modifies mram
    ensures mram[..lay.baseC] == old(mram[..lay.baseC])
    ensures forall r: nat :: r < lay.rows ==> mram[lay.baseC + r] == Value(old(mram[..lay.baseC]), lay, r)
  {
    hide Value, Owns, Progress, Computed, Layout.SliceSize;
    ghost var was := mram[..];
    assert Computed(was, was, lay, tasklets, order, 0) by { NothingComputed(was, lay, tasklets, order); }
    for k := 0 to |order|
      invariant Computed(mram[..], was, lay, tasklets, order, k)
    {
      ghost var now := mram[..];
      TaskletRows(mram, lay, tasklets, order[k]);
      NextComputed(mram[..], now, was, lay, tasklets, order, k);
    }
    AllComputed(mram[..], was, lay, tasklets, order);
    assert was[..lay.baseC] == old(mram[..lay.baseC]);
  }

  lemma NothingComputed(was: seq<word>, lay: Layout, tasklets: nat, order: seq<nat>)
    requires lay.Valid() && lay.baseC + lay.rows <= |was| && tasklets > 0
    ensures Computed(was, was, lay, tasklets, order, 0)
  {
  }

  lemma AllComputed(now: seq<word>, was: seq<word>, lay: Layout, tasklets: nat, order: seq<nat>)
    requires lay.Valid() && lay.baseC + lay.rows <= |was| && tasklets > 0
    requires forall tid: nat :: tid < tasklets ==> tid in order
    requires Computed(now, was, lay, tasklets, order, |order|)
    ensures |now| == |was| && now[..lay.baseC] == was[..lay.baseC]
    ensures forall r: nat :: r < lay.rows ==> now[lay.baseC + r] == Value(was[..lay.baseC], lay, r)
  {
    hide Value, Owns, Layout.SliceSize;
    forall r: nat | r < lay.rows ensures now[lay.baseC + r] == Value(was[..lay.baseC], lay, r) {
      var owner := RowOwned(lay.rows, tasklets, r);
      assert owner in order;
      var j :| 0 <= j < |order| && order[j] == owner;
    }
  }

  /** What each element is: the row times the vector over the integers, modulo 2^32. */
  lemma ValueIsDot(m: seq<word>, lay: Layout, r: nat)
    requires lay.Valid() && |m| == lay.baseC && r < lay.rows
    ensures RowAddr(lay, r) + lay.nSize <= lay.baseB
    ensures Value(m, lay, r)
              == Dot(m[RowAddr(lay, r)..RowAddr(lay, r) + lay.nSize], m[lay.baseB..lay.baseB + lay.nSize])
                 % 0x1_0000_0000
  {
    hide RowAddr, Fold, Dot;
    RowInside(lay, r);
    FoldIsDot(m, RowAddr(lay, r), lay.baseB, lay.nSize);
  }
}
