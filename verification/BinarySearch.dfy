/**
 * Block-wise binary search of src/BS/main.c on 64-bit signed elements. Addresses count
 * elements from the start of the array; a block is any number of elements (32 in the source).
 */
module BinarySearch {
  import opened Words

  predicate Sorted(a: seq<int>)
  {
    forall i, j :: 0 <= i <= j < |a| ==> a[i] <= a[j]
  }

  /** Some position in lo..hi holds the key. */
  ghost predicate Occurs(a: seq<int>, key: int, lo: nat, hi: nat)
    requires hi <= |a|
  {
    exists i :: lo <= i < hi && a[i] == key
  }

  /** The first index holding the key; -1 when there is none; -2 when the buffer starts above it. */
  method Search(buffer: seq<int>, key: int) returns (found: int)
    requires |buffer| > 0
    ensures -2 <= found < |buffer|
    ensures found == -2 <==> buffer[0] > key
    ensures found == -1 <==> buffer[0] <= key && key !in buffer
    ensures found >= 0 ==> buffer[found] == key && key !in buffer[..found]
  {
    found := -2;
    if buffer[0] <= key {
      found := -1;
      for i := 0 to |buffer|
        invariant found == -1 && key !in buffer[..i]
      {
        if buffer[i] == key {
          return i;
        }
      }
      assert buffer[..|buffer|] == buffer;
    }
  }

  /**
   * The byte address of the middle, with its low three bits masked off, is the element
   * address (l + r) / 2: L and R are 8 * l and 8 * r.
   */
  lemma MaskedMiddle(l: nat, r: nat)
    requires 8 * l + 8 * r < 0x1_0000_0000
    ensures BitAnd((8 * l + 8 * r) / 2, 0xffff_fff8) == 8 * ((l + r) / 2)
  {
    hide BitAnd, ShiftLeft, Pow2;
    var y, x := (l + r) / 2, 4 * ((l + r) % 2);
    EightIsShift(y);
    EightIsShift(0x1fff_ffff);
    EightIsShift(BitAnd(y, 0x1fff_ffff));
    assert (8 * l + 8 * r) / 2 == x + ShiftLeft(y, 3);
    AndConcat(x, 0, y, 0x1fff_ffff, 3);
    AndNone(x);
    AndAllOnes(y, 29);
  }

  lemma EightIsShift(x: nat)
    ensures ShiftLeft(x, 3) == 8 * x && Pow2(3) == 8 && Pow2(29) == 0x2000_0000
  {
    PowersOfTwo();
    Pow2Add(28, 1);
    ShiftLeftIsMul(x, 3);
  }

  /**
   * While the middle is a block or more above l, moving either bound to it keeps a whole
   * block between them and brings them closer, and the block at the middle is inside.
   * Otherwise what is left behind the block at l is smaller than a block.
   */
  lemma GapKept(l: nat, r: nat, block: nat)
    requires block > 0 && l + block <= r
    ensures var mid := (l + r) / 2;
            if mid < l + block then 0 <= r - (l + block) < block
            else l + block <= mid && mid + block <= r && mid - l < r - l && r - mid < r - l
  {
  }

  /** The end of a query: the block at l, then what is left of it, which fits in one block too. */
  method Remainder(a: seq<int>, block: nat, key: int, l: nat, r: nat, found: int) returns (found': int)
    requires block > 0 && l + block <= r < l + 2 * block && r <= |a|
    ensures found' == found || (0 <= found' < |a| && a[found'] == key)
    ensures Sorted(a) && Occurs(a, key, l, r) ==> 0 <= found' < |a| && a[found'] == key
    ensures key !in a ==> found' == found
  {
    found' := found;
    ghost var present := Sorted(a) && Occurs(a, key, l, r);
    var f := Search(a[l..l + block], key);
    if f > -1 {
      found' := f + l;
    } else {
      var start2 := l + block;
      var remain := r - start2;
      assert remain < block;
      if remain != 0 {
        f := Search(a[start2..start2 + remain], key);
        if f > -1 {
          found' := f + start2;
        }
        if present {
          LastBlocks(a, block, key, l, r);
        }
      } else if present {
        FirstBlock(a, block, key, l);
      }
    }
  }

  /** One query: a hit stores an index of the key, a miss leaves the result as it was. */
  method Query(a: seq<int>, block: nat, key: int, found: int) returns (found': int)
    requires |a| >= block > 0
    ensures found' == found || (0 <= found' < |a| && a[found'] == key)
    ensures Sorted(a) && key in a ==> 0 <= found' < |a| && a[found'] == key
    ensures key !in a ==> found' == found
  {
    found' := found;
    var l: nat, r: nat := 0, |a|;
    ghost var present := Sorted(a) && key in a;
    while true
      invariant l + block <= r <= |a|
      invariant present ==> Occurs(a, key, l, r)
      decreases r - l
    {
      var mid := (l + r) / 2;
      GapKept(l, r, block);
      if mid < l + block {
        found' := Remainder(a, block, key, l, r, found');
        break;
      }
      var f := Search(a[mid..mid + block], key);
      if f > -1 {
        found' := f + mid;
        break;
      }
      if present {
        Halved(a, block, key, l, mid, r);
      }
      if f == -2 {
        r := mid;
      } else {
        l := mid;
      }
    }
  }

  lemma Halved(a: seq<int>, block: nat, key: int, l: nat, mid: nat, r: nat)
    requires block > 0 && Sorted(a) && l <= mid && mid + block <= r <= |a| && Occurs(a, key, l, r)
    requires key !in a[mid..mid + block]
    ensures if a[mid] > key then Occurs(a, key, l, mid) else Occurs(a, key, mid, r)
  {
    assert a[mid..mid + block][0] == a[mid];
    var i :| l <= i < r && a[i] == key;
  }

  lemma FirstBlock(a: seq<int>, block: nat, key: int, l: nat)
    requires block > 0 && Sorted(a) && l + block <= |a| && Occurs(a, key, l, l + block)
    ensures a[l] <= key && key in a[l..l + block]
  {
    var i :| l <= i < l + block && a[i] == key;
    assert a[l..l + block][i - l] == key;
  }

  lemma LastBlocks(a: seq<int>, block: nat, key: int, l: nat, r: nat)
    requires block > 0 && Sorted(a) && l + block < r <= |a| && Occurs(a, key, l, r)
    ensures (a[l] <= key && key in a[l..l + block]) || (a[l + block] <= key && key in a[l + block..r])
  {
    var i :| l <= i < r && a[i] == key;
    if i < l + block {
      assert a[l..l + block][i - l] == key;
    } else {
      assert a[l + block..r][i - (l + block)] == key;
    }
  }

  /** The stored result after a list of queries: an index of the last of them that occurs. */
  ghost predicate Answers(a: seq<int>, queries: seq<int>, before: int, found: int)
  {
    if queries == [] then found == before
    else
      var last := queries[|queries| - 1];
      if last in a then 0 <= found < |a| && a[found] == last
      else Answers(a, queries[..|queries| - 1], before, found)
  }

  /** The queries of one tasklet; each hit overwrites the tasklet's result. */
  method Tasklet(a: seq<int>, block: nat, queries: seq<int>, before: int) returns (found: int)
    requires |a| >= block > 0 && Sorted(a)
    ensures Answers(a, queries, before, found)
  {
    found := before;
    for t := 0 to |queries|
      invariant Answers(a, queries[..t], before, found)
    {
      found := Query(a, block, queries[t], found);
      assert queries[..t + 1][..t] == queries[..t];
    }
    assert queries[..|queries|] == queries;
  }
}
