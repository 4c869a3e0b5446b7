/**
 * Removal of adjacent duplicates in src/UNI/main.c: blocks handled one tasklet after the
 * other, each told by its neighbour how much is already out and what came last.
 */
module Unique {
  import Shares

  /** What message_last_from_last starts as: 0xFFFFFFFF in a 64-bit signed element. */
  const SENTINEL: int := 0xFFFF_FFFF

  /** s without the elements equal to the one just before them. */
  function Dedup(s: seq<int>): (d: seq<int>)
    ensures |d| <= |s| && (|d| == 0 <==> |s| == 0)
  {
    if s == [] then []
    else
      var k := |s| - 1;
      Dedup(s[..k]) + if k > 0 && s[k] == s[k - 1] then [] else [s[k]]
  }

  lemma {:induction false} DedupEnds(s: seq<int>)
    requires s != []
    ensures Dedup(s)[0] == s[0] && Dedup(s)[|Dedup(s)| - 1] == s[|s| - 1]
  {
    if |s| > 1 {
      DedupEnds(s[..|s| - 1]);
    } else {
      assert s[..0] == [];
    }
  }

  /** Neighbours differ in the result: it is the deduplication of itself. */
  lemma {:induction false} DedupDistinct(s: seq<int>)
    ensures forall i, j :: 0 <= i < j < |Dedup(s)| && j == i + 1 ==> Dedup(s)[i] != Dedup(s)[j]
  {
    if |s| > 1 {
      DedupDistinct(s[..|s| - 1]);
      DedupEnds(s[..|s| - 1]);
    } else if |s| == 1 {
      assert s[..0] == [];
    }
  }

  /** What is new in d after an element prev. */
  function Fresh(prev: int, d: seq<int>): seq<int>
  {
    if d != [] && d[0] == prev then d[1..] else d
  }

  lemma FreshAppend(prev: int, d: seq<int>, e: seq<int>)
    requires d != []
    ensures Fresh(prev, d + e) == Fresh(prev, d) + e
  {
  }

  lemma DedupStep(s: seq<int>, x: int)
    ensures Dedup(s + [x]) == Dedup(s) + if s != [] && s[|s| - 1] == x then [] else [x]
  {
    assert (s + [x])[..|s|] == s;
  }

  /** Two inputs one after the other: the second loses its first element if it repeats the last of the first. */
  lemma {:induction false} DedupConcat(s: seq<int>, t: seq<int>)
    requires s != [] && t != []
    ensures Dedup(s + t) == Dedup(s) + Fresh(s[|s| - 1], Dedup(t))
    decreases |t|
  {
    hide Dedup, Fresh;
    var k := |t| - 1;
    var u, prev := t[..k], s[|s| - 1];
    assert u + [t[k]] == t && s + t == (s + u) + [t[k]];
    DedupStep(u, t[k]);
    DedupStep(s + u, t[k]);
    if k > 0 {
      DedupConcat(s, u);
      var e := if t[k] == t[k - 1] then [] else [t[k]];
      FreshAppend(prev, Dedup(u), e);
      assert Dedup(s) + Fresh(prev, Dedup(u)) + e == Dedup(s) + (Fresh(prev, Dedup(u)) + e);
    } else {
      assert u == [] && s + u == s;
      DedupOne(t);
      FreshOne(prev, t[0]);
    }
  }

  lemma DedupOne(t: seq<int>)
    requires |t| == 1
    ensures Dedup(t) == [t[0]]
  {
    DedupStep([], t[0]);
    DedupNone();
    hide Dedup;
    assert [] + [t[0]] == t;
  }

  lemma DedupNone()
    ensures Dedup([]) == []
  {
  }

  lemma FreshOne(prev: int, x: int)
    ensures Fresh(prev, [x]) == if x == prev then [] else [x]
  {
  }

  /** What a block adds to the output behind the sentinel. */
  lemma BlockAdds(seen: seq<int>, block: seq<int>)
    requires seen != [] && block != []
    ensures var z := if seen[|seen| - 1] == block[0] then 1 else 0;
            && Dedup(seen + block)[1..] == Dedup(seen)[1..] + Dedup(block)[z..]
            && |Dedup(seen + block)| == |Dedup(seen)| + |Dedup(block)| - z
  {
    DedupConcat(seen, block);
    DedupEnds(block);
    var z := if seen[|seen| - 1] == block[0] then 1 else 0;
    var added := Fresh(seen[|seen| - 1], Dedup(block));
    assert added == Dedup(block)[z..];
    hide Dedup, Fresh;
    assert (Dedup(seen) + added)[1..] == Dedup(seen)[1..] + added;
  }

  /** unique: the distinct neighbours of a block, moved to the front of the output. */
  method DedupBlock(output: array<int>, input: seq<int>) returns (pos: nat)
    requires 1 <= |input| <= output.Length
    modifies output
    ensures pos == |Dedup(input)| && output[..pos] == Dedup(input)
  {
    output[0] := input[0];
    pos := 1;
    assert input[..1] == [input[0]] && input[..1][..0] == [];
    for j := 1 to |input|
      invariant 1 <= pos <= j && output[..pos] == Dedup(input[..j])
    {
      assert input[..j + 1][..j] == input[..j];
      if input[j] != input[j - 1] {
        output[pos] := input[j];
        pos := pos + 1;
      }
    }
    assert input[..|input|] == input;
  }

  class Messages {
    const tasklets: nat
    var partialCount: nat
    var lastFromLast: int
    const count: array<nat>
    const last: array<int>
    const off: array<nat>
    var gEpoch: nat
    const epoch: array<nat>

    predicate Valid()
    {
      && tasklets > 0 && count.Length == last.Length == off.Length == epoch.Length == tasklets
      && count != off && count != epoch && off != epoch
    }

    constructor (tasklets: nat)
      requires tasklets > 0
      ensures Valid() && this.tasklets == tasklets && partialCount == 0 && lastFromLast == SENTINEL
      ensures fresh(count) && fresh(last) && fresh(off) && fresh(epoch)
    {
      this.tasklets := tasklets;
      count, last, off := new nat[tasklets], new int[tasklets], new nat[tasklets];
      epoch := new nat[tasklets](_ => 0);
      partialCount, lastFromLast, gEpoch := 0, SENTINEL, 1;
    }

    /**
     * Tasklet t is next, everything before its block being seen: it will find the last element
     * seen, counts that place it right behind the output so far, and this round's epoch.
     */
    ghost predicate Ready(t: nat, seen: seq<int>)
      reads this, count, last, off, epoch
      requires Valid() && t < tasklets
    {
      && seen != []
      && (if t == 0 then lastFromLast == seen[|seen| - 1] && partialCount == |Dedup(seen)| - 1
          else
            && last[t] == seen[|seen| - 1] && partialCount + count[t] - off[t] == |Dedup(seen)| - 1
            && epoch[t] == gEpoch)
    }

    /**
     * handshake_sync_uni from the end of its wait on: what the left neighbour left, and the message
     * to the right one, marked with the round's epoch.
     */
    method Handshake(out: array<int>, lCount: nat, t: nat) returns (x: nat, y: nat, z: nat)
      requires Valid() && t < tasklets && 1 <= lCount <= out.Length && out != last
      requires t != 0 ==> epoch[t] == gEpoch
      modifies count, last, off, epoch
      ensures x == (if t == 0 then 0 else old(count[t])) && y == (if t == 0 then 0 else old(off[t]))
      ensures z == if out[0] == (if t == 0 then lastFromLast else old(last[t])) then 1 else 0
      ensures t + 1 < tasklets ==> count[t + 1] == x + lCount && last[t + 1] == out[lCount - 1] && off[t + 1] == y + z
      ensures t + 1 < tasklets ==> epoch[t + 1] == gEpoch
      ensures forall i :: 0 <= i < tasklets && i != t + 1 ==>
                && count[i] == old(count[i]) && last[i] == old(last[i]) && off[i] == old(off[i])
                && epoch[i] == old(epoch[i])
    {
      if t != 0 {
        x := count[t];
        z := if last[t] == out[0] then 1 else 0;
        y := off[t];
      } else {
        x, z, y := 0, if lastFromLast == out[0] then 1 else 0, 0;
      }
      if t < tasklets - 1 {
        count[t + 1], last[t + 1], off[t + 1] := x + lCount, out[lCount - 1], y + z;
        epoch[t + 1] := gEpoch;
      }
    }

    /** One tasklet's part of a round: deduplicate the block, exchange messages, write what is new. */
    method Step(t: nat, block: seq<int>, cacheB: array<int>, b: array<int>, ghost seen: seq<int>)
      requires Valid() && t < tasklets && 1 <= |block| <= cacheB.Length && Ready(t, seen)
      requires cacheB != last && b != last && cacheB != b
      requires |Dedup(seen)| - 1 + |block| <= b.Length && b[..|Dedup(seen)| - 1] == Dedup(seen)[1..]
      modifies this`partialCount, this`lastFromLast, count, last, off, epoch, cacheB, b
      ensures |Dedup(seen + block)| - 1 <= b.Length
      ensures b[..|Dedup(seen + block)| - 1] == Dedup(seen + block)[1..]
      ensures Ready(if t + 1 < tasklets then t + 1 else 0, seen + block)
    {
      hide Dedup;
      ghost var before := Dedup(seen)[1..];
      assert |before| == |Dedup(seen)| - 1;
      var lCount := DedupBlock(cacheB, block);
      DedupEnds(block);
      BlockAdds(seen, block);
      assert cacheB[0] == cacheB[..lCount][0] && cacheB[lCount - 1] == cacheB[..lCount][lCount - 1];
      var x, y, z := Handshake(cacheB, lCount, t);
      var at := partialCount + x - y;
      assert at == |before| && b[..at] == before;
      if lCount > z {
        WriteBack(cacheB, z, lCount - z, b, at);
        assert cacheB[z..lCount] == cacheB[..lCount][z..];
      }
      assert (seen + block)[|seen + block| - 1] == block[|block| - 1];
      if t == tasklets - 1 {
        lastFromLast := cacheB[if lCount != 0 then lCount - 1 else 0];
        partialCount := partialCount + x + lCount - y - z;
      }
    }
  }

  method WriteBack(cache: array<int>, from: nat, n: nat, b: array<int>, at: nat)
    requires cache != b && from + n <= cache.Length && at + n <= b.Length
    modifies b
    ensures b[..at + n] == old(b[..at]) + cache[from..from + n]
  {
    for k := 0 to n
      invariant b[..at + k] == old(b[..at]) + cache[from..from + k]
    {
      b[at + k] := cache[from + k];
    }
  }

  // ----- the whole run -----

  /**
   * Every round, the tasklets in index order: the output is the input behind the sentinel,
   * deduplicated, and the count is its length.
   */
  method Kernel(a: seq<int>, regs: nat, tasklets: nat, rounds: nat, b: array<int>) returns (partialCount: nat)
    requires regs > 0 && tasklets > 0 && |a| == rounds * (tasklets * regs) && |a| <= b.Length
    modifies b
    ensures partialCount == |Dedup([SENTINEL] + a)| - 1 <= |a|
    ensures b[..partialCount] == Dedup([SENTINEL] + a)[1..]
  {
    hide Dedup;
    var full := tasklets * regs;
    var m := new Messages(tasklets);
    var cacheB := new int[regs];
    DedupOne([SENTINEL]);
    assert [SENTINEL] + a[..0] == [SENTINEL];
    var byteIndex := 0;
    for i := 0 to rounds
      invariant byteIndex == i * full && byteIndex <= |a|
      invariant m.Valid() && m.tasklets == tasklets && fresh(m) && fresh(m.count) && fresh(m.last) && fresh(m.off)
      invariant fresh(m.epoch)
      invariant m.Ready(0, [SENTINEL] + a[..byteIndex])
      invariant Output(b[..], [SENTINEL] + a[..byteIndex])
    {
      Shares.ProductStep(i, rounds, full);
      Round(m, a, regs, byteIndex, cacheB, b);
      assert i * full + full == (i + 1) * full;
      byteIndex := byteIndex + full;
    }
    assert a[..byteIndex] == a;
    partialCount := m.partialCount;
    DedupShort([SENTINEL] + a);
  }

  /** The first elements of b are what is new behind the sentinel. */
  predicate Output(b: seq<int>, seen: seq<int>)
  {
    Dedup(seen) != [] && |Dedup(seen)| - 1 <= |b| && b[..|Dedup(seen)| - 1] == Dedup(seen)[1..]
  }

  lemma DedupShort(s: seq<int>)
    ensures |Dedup(s)| <= |s|
  {
  }

  /** In n blocks. */
  function Elements(n: nat, regs: nat): nat
  {
    n * regs
  }

  lemma ElementsStep(t: nat, n: nat, regs: nat)
    requires t < n
    ensures Elements(t, regs) + regs == Elements(t + 1, regs) <= Elements(n, regs)
  {
    Shares.ProductStep(t, n, regs);
    assert (t + 1) * regs == t * regs + regs;
  }

  lemma NoElements(regs: nat)
    ensures Elements(0, regs) == 0
  {
  }

  method Round(m: Messages, a: seq<int>, regs: nat, from: nat, cacheB: array<int>, b: array<int>)
    requires m.Valid() && regs > 0 && cacheB.Length == regs && from + Elements(m.tasklets, regs) <= |a| <= b.Length
    requires cacheB != m.last && b != m.last && cacheB != b
    requires m.Ready(0, [SENTINEL] + a[..from]) && Output(b[..], [SENTINEL] + a[..from])
    modifies m, m.count, m.last, m.off, m.epoch, cacheB, b
    ensures m.Ready(0, [SENTINEL] + a[..from + Elements(m.tasklets, regs)]) && m.gEpoch == old(m.gEpoch) + 1
    ensures Output(b[..], [SENTINEL] + a[..from + Elements(m.tasklets, regs)])
  {
    hide Dedup, Elements;
    m.gEpoch := m.gEpoch + 1;
    var at := from;
    NoElements(regs);
    for t := 0 to m.tasklets
      invariant at == from + Elements(t, regs) && at <= |a| && m.gEpoch == old(m.gEpoch) + 1
      invariant m.Ready(if t < m.tasklets then t else 0, [SENTINEL] + a[..at])
      invariant Output(b[..], [SENTINEL] + a[..at])
    {
      ElementsStep(t, m.tasklets, regs);
      ghost var seen := [SENTINEL] + a[..at];
      var block := a[at..at + regs];
      DedupShort(seen);
      m.Step(t, block, cacheB, b, seen);
      assert seen + block == [SENTINEL] + a[..at + regs];
      at := at + regs;
    }
  }

  /** The output is the deduplicated input exactly when the input does not start with the sentinel. */
  lemma ExactIff(a: seq<int>)
    ensures Dedup([SENTINEL] + a)[1..] == Dedup(a) <==> a == [] || a[0] != 0xFFFF_FFFF
  {
    DedupOne([SENTINEL]);
    if a == [] {
      assert [SENTINEL] + a == [SENTINEL];
    } else {
      DedupEnds(a);
      BlockAdds([SENTINEL], a);
    }
  }
}
