/**
 * Both kernels of src/TRNS/main.c as their tasklets run them: step 2 in every interleaving
 * of single word transfers, then any run of step 3, together transposing the whole matrix.
 */
module TransposeRun {
  import Index = TransposeIndex
  import Cycles = TransposeCycles
  import Shares
  import Words
  import Ranks

  /** M_ tiles of m x n words, tasklet t taking tiles t, t + tasklets, t + 2 * tasklets, ... */
  datatype Job = Job(mm: nat, m: nat, n: nat, tasklets: nat)
  {
    function Size(): nat { m * n }
  }

  datatype Pc<T> =
    | Read(tile: nat, data: seq<T>)               // words of tile read so far
    | Write(tile: nat, backup: seq<T>, k: nat)    // backup[..k] written back
    | Through

  datatype State<T> = State(tiles: seq<seq<T>>, pc: seq<Pc<T>>)

  predicate PcSized<T>(job: Job, pc: Pc<T>)
  {
    match pc
    case Read(_, data) => |data| <= job.Size()
    case Write(tile, backup, k) => tile < job.mm && |backup| == job.Size() && k <= job.Size()
    case Through => true
  }

  ghost predicate Sized<T>(job: Job, s: State<T>)
  {
    && job.tasklets > 0 && |s.tiles| == job.mm && |s.pc| == job.tasklets
    && (forall q :: 0 <= q < |s.tiles| ==> |s.tiles[q]| == job.Size())
    && (forall t :: 0 <= t < |s.pc| ==> PcSized(job, s.pc[t]))
  }

  ghost predicate Init<T>(job: Job, s: State<T>, orig: seq<seq<T>>)
  {
    Sized(job, s) && s.tiles == orig && forall t :: 0 <= t < |s.pc| ==> s.pc[t] == Read(t, [])
  }

  /** The next word transfer of tasklet t, or its transposition in its own memory, which Transposed computes. */
  ghost function Step<T>(job: Job, s: State<T>, t: nat): (s': State<T>)
    requires Sized(job, s) && t < |s.pc|
    ensures Sized(job, s')
  {
    assert PcSized(job, s.pc[t]);
    match s.pc[t]
    case Read(tile, data) =>
      var pc :=
        if tile >= job.mm then Through
        else if |data| < job.Size() then Read(tile, data + [s.tiles[tile][|data|]])
        else Write(tile, Transposed(data, job.m, job.n), 0);
      State(s.tiles, s.pc[t := pc])
    case Write(tile, backup, k) =>
      if k < job.Size() then
        State(s.tiles[tile := s.tiles[tile][k := backup[k]]], s.pc[t := Write(tile, backup, k + 1)])
      else State(s.tiles, s.pc[t := Read(tile + job.tasklets, [])])
    case Through => s
  }

  /** The transpose of an m x n tile as a value; TransposeIndex.TransposeTile computes one. */
  ghost function Transposed<T>(data: seq<T>, m: nat, n: nat): (r: seq<T>)
    requires |data| == m * n
    ensures |r| == m * n
  {
    seq(m * n, i requires 0 <= i < m * n => (TransposedBounds(i, m, n); data[Index.Cell(i % m, i / m, n)]))
  }

  lemma TransposedBounds(i: nat, m: nat, n: nat)
    requires i < m * n
    ensures m > 0 && i / m < n && 0 <= i % m < m && Index.Cell(i % m, i / m, n) < m * n
  {
    Shares.Nonzero(m, n);
    Index.RowInTile(i, n, m);
    Index.LessProduct(i % m, i / m, m, n);
  }

  lemma TransposedIs<T>(data: seq<T>, m: nat, n: nat)
    requires |data| == m * n
    ensures Index.IsTransposed(data, Transposed(data, m, n), m, n)
  {
    forall a: nat, b: nat | a < m && b < n
      ensures Index.Cell(a, b, n) < |data| && Index.Cell(b, a, m) < |data|
      ensures Transposed(data, m, n)[Index.Cell(b, a, m)] == data[Index.Cell(a, b, n)]
    {
      Index.LessProduct(a, b, m, n);
      Index.LessProduct(b, a, n, m);
      Words.ModUnique(Index.Cell(b, a, m), m, b, a);
    }
  }

  // ----- the invariant of step 2 -----

  ghost predicate TaskletInv<T>(job: Job, s: State<T>, t: nat, orig: seq<seq<T>>)
    requires Sized(job, s) && |orig| == job.mm && t < |s.pc|
  {
    assert PcSized(job, s.pc[t]);
    match s.pc[t]
    case Read(tile, data) =>
      tile % job.tasklets == t && (tile < job.mm ==> data <= orig[tile]) && (tile >= job.mm ==> data == [])
    case Write(tile, backup, k) =>
      && tile % job.tasklets == t && Index.IsTransposed(orig[tile], backup, job.m, job.n)
      && s.tiles[tile][..k] == backup[..k]
    case Through => true
  }

  /** Tile q is as it was until its tasklet comes to write it, and transposed once that has gone on. */
  ghost predicate TileInv<T>(job: Job, s: State<T>, q: nat, orig: seq<seq<T>>)
    requires Sized(job, s) && |orig| == job.mm && q < job.mm
  {
    match s.pc[q % job.tasklets]
    case Read(tile, _) =>
      if q < tile then Index.IsTransposed(orig[q], s.tiles[q], job.m, job.n) else s.tiles[q] == orig[q]
    case Write(tile, _, _) =>
      if q < tile then Index.IsTransposed(orig[q], s.tiles[q], job.m, job.n) else q > tile ==> s.tiles[q] == orig[q]
    case Through => Index.IsTransposed(orig[q], s.tiles[q], job.m, job.n)
  }

  ghost predicate Inv<T>(job: Job, s: State<T>, orig: seq<seq<T>>)
  {
    && Sized(job, s) && |orig| == job.mm && (forall q :: 0 <= q < |orig| ==> |orig[q]| == job.Size())
    && (forall t: nat :: t < |s.pc| ==> TaskletInv(job, s, t, orig))
    && (forall q: nat :: q < job.mm ==> TileInv(job, s, q, orig))
  }

  lemma InitInv<T>(job: Job, s: State<T>, orig: seq<seq<T>>)
    requires Init(job, s, orig)
    ensures Inv(job, s, orig)
  {
    forall t: nat | t < |s.pc| ensures TaskletInv(job, s, t, orig) {
      Words.ModUnique(t, job.tasklets, 0, t);
    }
    forall q: nat | q < job.mm ensures TileInv(job, s, q, orig) {
      Shares.RemainderSmall(q, job.tasklets);
    }
  }

  lemma OwnStepKeepsTasklet<T>(job: Job, s: State<T>, t: nat, orig: seq<seq<T>>)
    requires Inv(job, s, orig) && t < |s.pc|
    ensures TaskletInv(job, Step(job, s, t), t, orig)
  {
    assert PcSized(job, s.pc[t]) && TaskletInv(job, s, t, orig);
    hide Index.IsTransposed, Transposed;
    match s.pc[t]
    case Read(tile, data) =>
      if tile < job.mm {
        assert TileInv(job, s, tile, orig);
        if |data| == job.Size() {
          assert data == orig[tile];
          TransposedIs(data, job.m, job.n);
        }
      }
    case Write(tile, backup, k) =>
      Shares.RemainderOfNext(tile, job.tasklets);
      if k < job.Size() {
        assert s.tiles[tile][k := backup[k]][..k + 1] == s.tiles[tile][..k] + [backup[k]];
      }
    case Through =>
  }

  lemma OtherStepKeepsTasklet<T>(job: Job, s: State<T>, a: nat, t: nat, orig: seq<seq<T>>)
    requires Inv(job, s, orig) && a < |s.pc| && t < |s.pc| && a != t
    ensures TaskletInv(job, Step(job, s, a), t, orig)
  {
    hide Index.IsTransposed, Transposed;
    assert PcSized(job, s.pc[t]) && TaskletInv(job, s, t, orig);
    assert PcSized(job, s.pc[a]) && TaskletInv(job, s, a, orig);
  }

  lemma StepKeepsTile<T>(job: Job, s: State<T>, a: nat, q: nat, orig: seq<seq<T>>)
    requires Inv(job, s, orig) && a < |s.pc| && q < job.mm
    ensures TileInv(job, Step(job, s, a), q, orig)
  {
    hide Index.IsTransposed, Transposed;
    assert PcSized(job, s.pc[a]) && TaskletInv(job, s, a, orig) && TileInv(job, s, q, orig);
    if q % job.tasklets == a && s.pc[a].Write? {
      Shares.NextOfTasklet(job.tasklets, q, s.pc[a].tile);
      if s.pc[a].k == job.Size() {
        assert s.tiles[s.pc[a].tile] == s.pc[a].backup;
      }
    }
  }

  /** What every word transfer of any tasklet keeps. */
  lemma StepKeepsInv<T>(job: Job, s: State<T>, a: nat, orig: seq<seq<T>>)
    requires Inv(job, s, orig) && a < |s.pc|
    ensures Inv(job, Step(job, s, a), orig)
  {
    forall t: nat | t < |s.pc| ensures TaskletInv(job, Step(job, s, a), t, orig) {
      if t == a {
        OwnStepKeepsTasklet(job, s, t, orig);
      } else {
        OtherStepKeepsTasklet(job, s, a, t, orig);
      }
    }
    forall q: nat | q < job.mm ensures TileInv(job, Step(job, s, a), q, orig) {
      StepKeepsTile(job, s, a, q, orig);
    }
  }

  ghost predicate Run<T>(job: Job, states: seq<State<T>>, who: seq<nat>, orig: seq<seq<T>>)
  {
    && |states| == |who| + 1 && Init(job, states[0], orig)
    && forall a :: 0 <= a < |who| ==>
         Sized(job, states[a]) && who[a] < |states[a].pc| && states[a + 1] == Step(job, states[a], who[a])
  }

  lemma {:induction false} RunKeepsInv<T>(job: Job, states: seq<State<T>>, who: seq<nat>, orig: seq<seq<T>>, a: nat)
    requires Run(job, states, who, orig) && a <= |who|
    ensures Inv(job, states[a], orig)
    decreases a
  {
    hide Inv, Step, Init;
    if a == 0 {
      InitInv(job, states[0], orig);
    } else {
      RunKeepsInv(job, states, who, orig, a - 1);
      StepKeepsInv(job, states[a - 1], who[a - 1], orig);
    }
  }

  /** In every interleaving, when all tasklets are through every tile is transposed in its place. */
  lemma TilesTransposed<T>(job: Job, states: seq<State<T>>, who: seq<nat>, orig: seq<seq<T>>, q: nat)
    requires Run(job, states, who, orig) && q < job.mm
    requires forall t :: 0 <= t < |states[|who|].pc| ==> states[|who|].pc[t].Through?
    ensures |states[|who|].tiles| == |orig| == job.mm
    ensures Index.IsTransposed(orig[q], states[|who|].tiles[q], job.m, job.n)
  {
    RunKeepsInv(job, states, who, orig, |who|);
    assert TileInv(job, states[|who|], q, orig);
  }

  // ----- termination -----

  /** The steps of the tiles after this one, taken one by one. */
  function TilesLeft(job: Job, tile: nat): nat
    requires tile < job.mm
  {
    (job.mm - 1 - tile) * (2 * job.Size() + 2)
  }

  /** At least the steps a tasklet has left: each word read and written, and two more a tile. */
  function StepsLeft<T>(job: Job, pc: Pc<T>): nat
  {
    match pc
    case Read(tile, data) =>
      if tile < job.mm && |data| <= job.Size() then 1 + TilesLeft(job, tile) + (2 * job.Size() + 2 - |data|) else 1
    case Write(tile, backup, k) =>
      if tile < job.mm && k <= job.Size() then TilesLeft(job, tile) + (job.Size() + 2 - k) else 0
    case Through => 0
  }

  function Left<T>(job: Job): Pc<T> -> nat
  {
    (pc: Pc<T>) => StepsLeft(job, pc)
  }

  function Rank<T>(job: Job, s: State<T>): nat
  {
    Ranks.Total(s.pc, Left(job))
  }

  lemma NextTile(job: Job, tile: nat, next: nat)
    requires tile < next < job.mm
    ensures TilesLeft(job, next) + 2 * job.Size() + 2 <= TilesLeft(job, tile)
  {
    Shares.ProductStep(job.mm - 1 - next, job.mm - 1 - tile, 2 * job.Size() + 2);
  }

  lemma PcCounts<T>(job: Job, s: State<T>, t: nat)
    requires Sized(job, s) && t < |s.pc| && !s.pc[t].Through?
    ensures StepsLeft(job, Step(job, s, t).pc[t]) < StepsLeft(job, s.pc[t])
  {
    assert PcSized(job, s.pc[t]);
    hide TilesLeft, Job.Size;
    var tile := s.pc[t].tile;
    if tile + job.tasklets < job.mm {
      NextTile(job, tile, tile + job.tasklets);
    }
  }

  /** Every step of a tasklet that is not through lowers the rank. */
  lemma EveryStepCounts<T>(job: Job, s: State<T>, t: nat)
    requires Sized(job, s) && t < |s.pc| && !s.pc[t].Through?
    ensures Rank(job, Step(job, s, t)) < Rank(job, s)
  {
    var s' := Step(job, s, t);
    PcCounts(job, s, t);
    Ranks.TotalUpdate(s.pc, Left(job), t, s'.pc[t]);
    hide StepsLeft;
    assert s'.pc == s.pc[t := s'.pc[t]];
  }

  /** So a run in which only tasklets that are not through step is no longer than the rank it starts from. */
  lemma {:induction false} RunsEnd<T>(job: Job, states: seq<State<T>>, who: seq<nat>, orig: seq<seq<T>>, a: nat)
    requires Run(job, states, who, orig) && a <= |who|
    requires forall b :: 0 <= b < |who| ==> !states[b].pc[who[b]].Through?
    ensures a + Rank(job, states[a]) <= Rank(job, states[0])
    decreases a
  {
    hide Step, Init, Rank;
    if a > 0 {
      RunsEnd(job, states, who, orig, a - 1);
      EveryStepCounts(job, states[a - 1], who[a - 1]);
    }
  }

  // ----- both kernels -----

  /** The same memory before and after step 2, as tiles of m x n words. */
  lemma Step2Done<T>(
      job: Job, start: seq<T>, mid: seq<T>, states: seq<State<T>>, who: seq<nat>, orig: seq<seq<T>>, t: nat)
    requires job.n > 0 && t < job.mm && Index.Tiled(start, orig, job.Size())
    requires Run(job, states, who, orig) && |orig| == job.mm && Index.Tiled(mid, states[|who|].tiles, job.Size())
    requires forall t :: 0 <= t < |states[|who|].pc| ==> states[|who|].pc[t].Through?
    ensures |start| == |mid| == job.mm * (job.m * job.n)
    ensures Index.TileTransposed(start, mid, job.mm, job.m, job.n, t)
  {
    hide Index.IsTransposed;
    TilesTransposed(job, states, who, orig, t);
  }

  /**
   * Any finished run of main_kernel1 and then any finished run of main_kernel2, each with any
   * number of tasklets: entry (row, col) of the matrix has become entry (col, row).
   */
  lemma RunsTranspose<T>(
      job: Job, start: seq<T>, mid: seq<T>, final: seq<T>,
      states: seq<State<T>>, who: seq<nat>, orig: seq<seq<T>>,
      states2: seq<Cycles.State<T>>, who2: seq<nat>, orig2: seq<seq<T>>, row: nat, col: nat)
    requires job.n > 0 && job.m * job.n <= Words.TWO32 && job.mm * job.n <= Words.TWO32
    requires |orig| == job.mm && Index.Tiled(start, orig, job.Size()) && Run(job, states, who, orig)
    requires forall t :: 0 <= t < |states[|who|].pc| ==> states[|who|].pc[t].Through?
    requires Index.Tiled(mid, states[|who|].tiles, job.Size())
    requires |orig2| == job.mm * job.n && Index.Tiled(mid, orig2, job.m)
    requires Cycles.Run(states2, who2, Cycles.Job(Index.Destinations(job.mm, job.n), job.m), orig2)
    requires |states2[|who2|].pc| > 0 && forall t :: 0 <= t < |states2[|who2|].pc| ==> states2[|who2|].pc[t].Finished?
    requires |states2[|who2|].tiles| == job.mm * job.n && Index.Tiled(final, states2[|who2|].tiles, job.m)
    requires row < job.mm * job.m && col < job.n
    ensures Index.Cell(row, col, job.n) < |start| && Index.Cell(col, row, job.mm * job.m) < |final|
    ensures final[Index.Cell(col, row, job.mm * job.m)] == start[Index.Cell(row, col, job.n)]
  {
    hide Index.TileTransposed, Index.Tiled, Run, Index.Cell, Cycles.Run, Index.Destinations, Index.IsTransposed, Sized;
    SomeTile(job, row);
    forall t: nat | t < job.mm
      ensures |start| == |mid| == job.mm * (job.m * job.n) && Index.TileTransposed(start, mid, job.mm, job.m, job.n, t)
    {
      Step2Done(job, start, mid, states, who, orig, t);
    }
    Step2Done(job, start, mid, states, who, orig, 0);
    Regroup(job.mm, job.m, job.n);
    Index.KernelsTranspose(start, mid, states2, who2, final, orig2, job.mm, job.m, job.n, row, col);
  }

  lemma Regroup(a: nat, b: nat, c: nat)
    ensures a * (b * c) == (a * c) * b
  {
    assert b * c == c * b;
  }

  lemma SomeTile(job: Job, row: nat)
    requires row < job.mm * job.m
    ensures job.mm > 0
  {
    Shares.Nonzero(job.mm, job.m);
  }
}
