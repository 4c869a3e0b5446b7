/**
 * The kernel loop of src/NW/main.c around the diagonals: the rounds of both phases, the
 * chunk each tasklet works through one sub-block after the other, and the barrier that ends
 * a round. Every interleaving of the tasklets' row transfers computes the recurrence.
 */
module WavefrontRun {
  import NW = NeedlemanWunsch
  import Ranks

  /** round counts barriers; tasklet t is at sub-block index[t] of its chunk, in state pc[t]. */
  datatype Kernel = Kernel(mem: NW.Matrix, round: nat, index: seq<nat>, pc: seq<NW.Pc>)

  datatype Job = Job(p: NW.Setup, tasklets: nat)
  {
    predicate Valid() { NW.Good(p) && tasklets > 0 }

    /** Phase 1 has rounds blk = 0, ..., REP, phase 2 has rounds blk = 2, ..., REP. */
    predicate Second(round: nat) { round > p.reps }

    function Blk(round: nat): nat { if Second(round) then round - p.reps + 1 else round }

    /** Sub-blocks of a round: none in the first one, and none after the last one. */
    function Total(round: nat): nat
    {
      if !Second(round) then Blk(round) else if Blk(round) <= p.reps then p.reps - Blk(round) + 1 else 0
    }

    function Chunk(round: nat, t: nat): nat
      requires tasklets > 0
    {
      NW.Chunks(Total(round), t, tasklets)
    }

    /** t_index_x and t_index_y of sub-block i of the chunk of tasklet t. */
    function Block(round: nat, t: nat, i: nat): (int, int)
      requires tasklets > 0
    {
      NW.BlockAt(p, Second(round), Blk(round), NW.ChunkStart(Total(round), t, tasklets) + i)
    }
  }

  ghost predicate Sized(job: Job, k: Kernel)
  {
    && job.Valid() && NW.MatrixSized(job.p, k.mem) && k.round <= 2 * job.p.reps
    && |k.index| == |k.pc| == job.tasklets
    && (forall t: nat :: t < job.tasklets ==> k.index[t] <= job.Chunk(k.round, t) && NW.PcSized(job.p, k.pc[t]))
  }

  ghost predicate Init(job: Job, k: Kernel)
  {
    && Sized(job, k) && k.mem == job.p.start && k.round == 0
    && forall t: nat :: t < job.tasklets ==> k.index[t] == 0 && k.pc[t] == NW.Load([])
  }

  /** A sub-block of a chunk is a sub-block of the matrix, on the diagonal the round number tells. */
  lemma BlockInMatrix(job: Job, round: nat, t: nat, i: nat)
    requires job.Valid() && t < job.tasklets && i < job.Chunk(round, t) && round <= 2 * job.p.reps
    ensures 1 <= round < 2 * job.p.reps
    ensures var (x, y) := job.Block(round, t, i);
            0 <= x < job.p.reps && 0 <= y < job.p.reps && x + y == round - 1 && NW.OnDiagonal(job.p, x, round - 1)
  {
    hide NW.Chunks, NW.ChunkStart;
    var total := job.Total(round);
    ChunkInside(total, t, i, job.tasklets);
    NW.RoundOnDiagonal(job.p, job.Second(round), job.Blk(round), NW.ChunkStart(total, t, job.tasklets) + i);
  }

  lemma ChunkInside(total: nat, t: nat, i: nat, tasklets: nat)
    requires t < tasklets && i < NW.Chunks(total, t, tasklets)
    ensures NW.ChunkStart(total, t, tasklets) + i < total
  {
    hide NW.Chunks, NW.ChunkStart;
    NW.ChunksOrdered(total, tasklets, t, tasklets);
    NW.ChunksCover(total, tasklets);
  }

  /** Different places in the chunks are different sub-blocks. */
  lemma BlocksDistinct(job: Job, round: nat, t: nat, i: nat, u: nat, j: nat)
    requires job.Valid() && t < job.tasklets && u < job.tasklets
    requires i < job.Chunk(round, t) && j < job.Chunk(round, u) && (t != u || i != j)
    ensures job.Block(round, t, i).0 != job.Block(round, u, j).0
  {
    hide NW.Chunks, NW.ChunkStart;
    var total := job.Total(round);
    if t < u {
      NW.ChunksOrdered(total, job.tasklets, t, u);
    } else if u < t {
      NW.ChunksOrdered(total, job.tasklets, u, t);
    }
  }

  /** Tasklet t transfers one row; a finished sub-block makes it go on to the next of its chunk. */
  ghost function Work(job: Job, k: Kernel, t: nat, stale: seq<int>): (k': Kernel)
    requires Sized(job, k) && t < job.tasklets && k.index[t] < job.Chunk(k.round, t) && |stale| == job.p.b + 2
    ensures Sized(job, k')
  {
    BlockInMatrix(job, k.round, t, k.index[t]);
    var (x, y) := job.Block(k.round, t, k.index[t]);
    var (mem, pc) := NW.Transfer(job.p, k.mem, k.pc[t], x, y, stale);
    if NW.Finished(job.p, pc) then
      Kernel(mem, k.round, k.index[t := k.index[t] + 1], k.pc[t := NW.Load([])])
    else
      Kernel(mem, k.round, k.index, k.pc[t := pc])
  }

  ghost predicate AllThrough(job: Job, k: Kernel)
    requires Sized(job, k)
  {
    forall t: nat :: t < job.tasklets ==> k.index[t] == job.Chunk(k.round, t)
  }

  /** The barrier opens. */
  ghost function NextRound(job: Job, k: Kernel): (k': Kernel)
    requires Sized(job, k) && k.round < 2 * job.p.reps
    ensures Sized(job, k')
  {
    Kernel(k.mem, k.round + 1, Zeros(job.tasklets), Fresh(job.tasklets))
  }

  function Zeros(n: nat): (z: seq<nat>)
    ensures |z| == n && forall t :: 0 <= t < n ==> z[t] == 0
  {
    seq(n, _ => 0)
  }

  function Fresh(n: nat): (z: seq<NW.Pc>)
    ensures |z| == n && forall t :: 0 <= t < n ==> z[t] == NW.Load([])
  {
    seq(n, _ => NW.Load([]))
  }

  // ----- the invariant -----

  /** What sub-block i of the chunk of t looks like to the diagonal's step system. */
  ghost predicate PlaceMatches(job: Job, k: Kernel, s: NW.State, t: nat, i: nat)
    requires Sized(job, k) && t < job.tasklets
  {
    var x := job.Block(k.round, t, i).0;
    && x >= 0 && x in s.blocks
    && (if i < k.index[t] then NW.Finished(job.p, s.blocks[x])
        else if i == k.index[t] then s.blocks[x] == k.pc[t]
        else s.blocks[x] == NW.Load([]))
  }

  /** The kernel is in state s of the diagonal it works on. */
  ghost predicate Simulates(job: Job, k: Kernel, s: NW.State)
    requires Sized(job, k)
  {
    && 1 <= k.round < 2 * job.p.reps && s.mem == k.mem && NW.Inv(job.p, s, k.round - 1)
    && forall t: nat, i: nat :: t < job.tasklets && i < job.Chunk(k.round, t) ==> PlaceMatches(job, k, s, t, i)
  }

  ghost predicate Inv(job: Job, k: Kernel)
  {
    && Sized(job, k)
    && if k.round == 0 then NW.FinalBelow(job.p, k.mem, 0)
       else if k.round == 2 * job.p.reps then NW.FinalBelow(job.p, k.mem, 2 * job.p.reps - 1)
       else exists s :: Simulates(job, k, s)
  }

  lemma InitInv(job: Job, k: Kernel)
    requires Init(job, k)
    ensures Inv(job, k)
  {
    hide NW.Cell;
    var p := job.p;
    forall r: nat, c: nat | r <= NW.Side(p) && c <= NW.Side(p)
      && (r == 0 || c == 0 || NW.BlockOf(p, r) + NW.BlockOf(p, c) < 0) ensures k.mem[r][c] == NW.Cell(p, r, c)
    {
      if r > 0 && c > 0 {
        NW.AtBlockOf(p, r);
        NW.AtBlockOf(p, c);
      }
      NW.BorderCell(p, r, c);
    }
  }

  /** A row transfer of t is a step of the sub-block it is at. */
  lemma WorkIsStep(job: Job, k: Kernel, t: nat, stale: seq<int>, s: NW.State)
    requires Sized(job, k) && t < job.tasklets && k.index[t] < job.Chunk(k.round, t) && |stale| == job.p.b + 2
    requires Simulates(job, k, s)
    ensures NW.Good(job.p) && NW.Sized(job.p, s, k.round - 1)
    ensures var x := job.Block(k.round, t, k.index[t]).0;
            && NW.OnDiagonal(job.p, x, k.round - 1)
            && var k', s' := Work(job, k, t, stale), NW.Step(job.p, s, k.round - 1, x, stale);
               && x in s'.blocks && s'.blocks == s.blocks[x := s'.blocks[x]]
               && k'.mem == s'.mem && k'.round == k.round
               && (if NW.Finished(job.p, s'.blocks[x]) then
                     k'.index == k.index[t := k.index[t] + 1] && k'.pc == k.pc[t := NW.Load([])]
                   else k'.index == k.index && k'.pc == k.pc[t := s'.blocks[x]])
  {
    assert NW.Good(job.p) && NW.Sized(job.p, s, k.round - 1);
    hide NW.Inv, NW.Transfer, NW.Chunks, NW.ChunkStart, NW.BlockAt, NW.MatrixSized;
    BlockInMatrix(job, k.round, t, k.index[t]);
    assert PlaceMatches(job, k, s, t, k.index[t]);
  }

  lemma WorkKeepsPlace(
      job: Job, k: Kernel, k': Kernel, t: nat, s: NW.State, s': NW.State, u: nat, i: nat)
    requires Sized(job, k) && Sized(job, k') && t < job.tasklets && u < job.tasklets
    requires k'.round == k.round && k.index[t] < job.Chunk(k.round, t) && i < job.Chunk(k.round, u)
    requires PlaceMatches(job, k, s, t, k.index[t]) && PlaceMatches(job, k, s, u, i)
    requires var x := job.Block(k.round, t, k.index[t]).0;
             && x >= 0 && x in s'.blocks && s'.blocks == s.blocks[x := s'.blocks[x]]
             && (if NW.Finished(job.p, s'.blocks[x]) then
                   k'.index == k.index[t := k.index[t] + 1] && k'.pc == k.pc[t := NW.Load([])]
                 else k'.index == k.index && k'.pc == k.pc[t := s'.blocks[x]])
    ensures PlaceMatches(job, k', s', u, i)
  {
    hide NW.Chunks, NW.ChunkStart, NW.BlockAt, NW.MatrixSized, NW.PcSized, NW.Finished, NW.Good;
    if u != t || i != k.index[t] {
      BlocksDistinct(job, k.round, t, k.index[t], u, i);
    }
  }

  lemma WorkKeepsPlaces(job: Job, k: Kernel, k': Kernel, t: nat, s: NW.State, s': NW.State)
    requires Sized(job, k) && Sized(job, k') && t < job.tasklets
    requires k'.round == k.round && k.index[t] < job.Chunk(k.round, t) && Simulates(job, k, s)
    requires var x := job.Block(k.round, t, k.index[t]).0;
             && x >= 0 && x in s'.blocks && s'.blocks == s.blocks[x := s'.blocks[x]]
             && (if NW.Finished(job.p, s'.blocks[x]) then
                   k'.index == k.index[t := k.index[t] + 1] && k'.pc == k.pc[t := NW.Load([])]
                 else k'.index == k.index && k'.pc == k.pc[t := s'.blocks[x]])
    ensures forall u: nat, i: nat :: u < job.tasklets && i < job.Chunk(k'.round, u) ==> PlaceMatches(job, k', s', u, i)
  {
    hide NW.Inv, NW.Chunks, NW.ChunkStart, NW.BlockAt, PlaceMatches, NW.Finished, NW.MatrixSized, NW.PcSized, NW.Good;
    assert PlaceMatches(job, k, s, t, k.index[t]);
    forall u: nat, i: nat | u < job.tasklets && i < job.Chunk(k'.round, u) ensures PlaceMatches(job, k', s', u, i) {
      assert PlaceMatches(job, k, s, u, i);
      WorkKeepsPlace(job, k, k', t, s, s', u, i);
    }
  }

  lemma WorkSimulated(job: Job, k: Kernel, t: nat, stale: seq<int>, s: NW.State) returns (s': NW.State)
    requires Sized(job, k) && t < job.tasklets && k.index[t] < job.Chunk(k.round, t) && |stale| == job.p.b + 2
    requires Simulates(job, k, s)
    ensures Simulates(job, Work(job, k, t, stale), s')
  {
    WorkIsStep(job, k, t, stale, s);
    var d, x := k.round - 1, job.Block(k.round, t, k.index[t]).0;
    NW.StepKeepsInv(job.p, s, d, x, stale);
    s' := NW.Step(job.p, s, d, x, stale);
    var k' := Work(job, k, t, stale);
    hide NW.Inv, NW.Step, NW.Chunks, NW.ChunkStart, NW.BlockAt, Work, Sized, PlaceMatches, NW.Finished;
    WorkKeepsPlaces(job, k, k', t, s, s');
  }

  /** What every row transfer of any tasklet keeps. */
  lemma WorkKeepsInv(job: Job, k: Kernel, t: nat, stale: seq<int>)
    requires Inv(job, k) && t < job.tasklets && k.index[t] < job.Chunk(k.round, t) && |stale| == job.p.b + 2
    ensures Inv(job, Work(job, k, t, stale))
  {
    hide Simulates;
    BlockInMatrix(job, k.round, t, k.index[t]);
    var s :| Simulates(job, k, s);
    var s' := WorkSimulated(job, k, t, stale, s);
  }

  /** At the barrier every sub-block of the diagonal is stored. */
  lemma ThroughSettles(job: Job, k: Kernel)
    requires Inv(job, k) && AllThrough(job, k) && k.round < 2 * job.p.reps
    ensures NW.FinalBelow(job.p, k.mem, k.round)
  {
    if k.round > 0 {
      hide NW.Inv, NW.Chunks, NW.ChunkStart, NW.Cell;
      var s :| Simulates(job, k, s);
      var d: nat := k.round - 1;
      forall x: nat | NW.OnDiagonal(job.p, x, d) ensures x in s.blocks && NW.Finished(job.p, s.blocks[x]) {
        var first := if job.Second(k.round) then job.Blk(k.round) - 1 else 0;
        var t := NW.ChunksPartition(job.Total(k.round), job.tasklets, x - first);
        assert PlaceMatches(job, k, s, t, x - first - NW.ChunkStart(job.Total(k.round), t, job.tasklets));
      }
      NW.AllFinishedSettles(job.p, s, d);
    }
  }

  lemma BarrierKeepsInv(job: Job, k: Kernel)
    requires Inv(job, k) && AllThrough(job, k) && k.round < 2 * job.p.reps
    ensures Inv(job, NextRound(job, k))
  {
    hide NW.Cell, NW.Chunks, NW.ChunkStart;
    ThroughSettles(job, k);
    var k', d := NextRound(job, k), k.round;
    if k'.round < 2 * job.p.reps {
      var blocks := map x: nat | x < job.p.reps && NW.OnDiagonal(job.p, x, d) :: NW.Load([]);
      var s := NW.State(k.mem, blocks);
      NW.StartInv(job.p, s, d, k.mem);
      forall t: nat, i: nat | t < job.tasklets && i < job.Chunk(k'.round, t) ensures PlaceMatches(job, k', s, t, i) {
        BlockInMatrix(job, k'.round, t, i);
      }
      hide NW.Inv;
      assert Simulates(job, k', s);
    }
  }

  // ----- runs -----

  datatype Action = Transfer(t: nat, stale: seq<int>) | Barrier

  ghost predicate Possible(job: Job, k: Kernel, a: Action)
    requires Sized(job, k)
  {
    match a
    case Transfer(t, stale) => t < job.tasklets && k.index[t] < job.Chunk(k.round, t) && |stale| == job.p.b + 2
    case Barrier => AllThrough(job, k) && k.round < 2 * job.p.reps
  }

  ghost function Act(job: Job, k: Kernel, a: Action): (k': Kernel)
    requires Sized(job, k) && Possible(job, k, a)
    ensures Sized(job, k')
  {
    match a
    case Transfer(t, stale) => Work(job, k, t, stale)
    case Barrier => NextRound(job, k)
  }

  ghost predicate Run(job: Job, states: seq<Kernel>, acts: seq<Action>)
  {
    && |states| == |acts| + 1 && Init(job, states[0])
    && forall n: nat :: n < |acts| ==>
         Sized(job, states[n]) && Possible(job, states[n], acts[n]) && states[n + 1] == Act(job, states[n], acts[n])
  }

  lemma {:induction false} RunKeepsInv(job: Job, states: seq<Kernel>, acts: seq<Action>, n: nat)
    requires Run(job, states, acts) && n <= |acts|
    ensures Inv(job, states[n])
    decreases n
  {
    hide Inv, Work, NextRound, Init;
    if n == 0 {
      InitInv(job, states[0]);
    } else {
      RunKeepsInv(job, states, acts, n - 1);
      var k := states[n - 1];
      match acts[n - 1]
      case Transfer(t, stale) => WorkKeepsInv(job, k, t, stale);
      case Barrier => BarrierKeepsInv(job, k);
    }
  }

  /**
   * Any run of any number of tasklets through both phases: when the last round is over every
   * cell holds the value of the row-major recurrence, and the border is as it was.
   */
  lemma KernelIsRecurrence(job: Job, states: seq<Kernel>, acts: seq<Action>, n: nat, r: nat, c: nat)
    requires Run(job, states, acts) && n <= |acts| && r <= NW.Side(job.p) && c <= NW.Side(job.p)
    requires Sized(job, states[n])
    requires states[n].round == 2 * job.p.reps || (states[n].round == 2 * job.p.reps - 1 && AllThrough(job, states[n]))
    ensures states[n].mem[r][c] == NW.Cell(job.p, r, c)
    ensures r == 0 || c == 0 ==> states[n].mem[r][c] == job.p.start[r][c]
  {
    hide NW.Cell;
    var p, k := job.p, states[n];
    RunKeepsInv(job, states, acts, n);
    if k.round < 2 * p.reps {
      ThroughSettles(job, k);
    }
    if r > 0 && c > 0 {
      NW.AtBlockOf(p, r);
      NW.AtBlockOf(p, c);
    }
    NW.BorderCell(p, r, c);
  }

  // ----- termination -----

  /** Row transfers a tasklet has left in its sub-block, the computation counted with them. */
  function RowsLeft(p: NW.Setup, pc: NW.Pc): nat
  {
    match pc
    case Load(cache) => if |cache| <= p.b + 1 then 2 * p.b + 3 - |cache| else 0
    case Store(_, k) => if k <= p.b then p.b + 1 - k else 0
  }

  function BlocksLeft(p: NW.Setup, blocks: nat): nat
  {
    blocks * (2 * p.b + 3)
  }

  lemma NextBlock(p: NW.Setup, blocks: nat)
    requires blocks > 0
    ensures BlocksLeft(p, blocks) == BlocksLeft(p, blocks - 1) + (2 * p.b + 3)
  {
    assert blocks * (2 * p.b + 3) == (blocks - 1) * (2 * p.b + 3) + (2 * p.b + 3);
  }

  lemma RowCounts(p: NW.Setup, mem: NW.Matrix, pc: NW.Pc, x: nat, y: nat, stale: seq<int>)
    requires NW.Good(p) && NW.MatrixSized(p, mem) && NW.PcSized(p, pc) && x < p.reps && y < p.reps
    requires |stale| == p.b + 2
    ensures RowsLeft(p, pc) > 0
    ensures var pc' := NW.Transfer(p, mem, pc, x, y, stale).1;
            NW.Finished(p, pc') || RowsLeft(p, pc') < RowsLeft(p, pc)
  {
    hide NW.Computed, NW.LoadedRow, NW.Good, NW.MatrixSized;
  }

  /** Of tasklet t: those of the sub-blocks of its chunk. */
  function StepsLeft(job: Job, k: Kernel, t: nat): nat
    requires job.tasklets > 0 && t < |k.index| && t < |k.pc|
  {
    var blocks: nat := if k.index[t] < job.Chunk(k.round, t) then job.Chunk(k.round, t) - k.index[t] else 0;
    BlocksLeft(job.p, blocks) + RowsLeft(job.p, k.pc[t])
  }

  function Counts(job: Job, k: Kernel): (c: seq<nat>)
    requires job.tasklets > 0 && |k.index| == |k.pc|
    ensures |c| == |k.index| && forall t :: 0 <= t < |c| ==> c[t] == StepsLeft(job, k, t)
  {
    seq(|k.index|, t requires 0 <= t < |k.index| => StepsLeft(job, k, t))
  }

  function Rank(job: Job, k: Kernel): nat
    requires job.tasklets > 0 && |k.index| == |k.pc|
  {
    Ranks.Total(Counts(job, k), Identity())
  }

  function Identity(): nat -> nat { (x: nat) => x }

  lemma WorkCounts(job: Job, k: Kernel, t: nat, stale: seq<int>)
    requires Sized(job, k) && t < job.tasklets && k.index[t] < job.Chunk(k.round, t) && |stale| == job.p.b + 2
    ensures var k' := Work(job, k, t, stale);
            && StepsLeft(job, k', t) < StepsLeft(job, k, t)
            && k'.round == k.round && forall u :: 0 <= u < job.tasklets && u != t ==>
                                        k'.index[u] == k.index[u] && k'.pc[u] == k.pc[u]
  {
    assert NW.PcSized(job.p, k.pc[t]);
    BlockInMatrix(job, k.round, t, k.index[t]);
    var (x, y) := job.Block(k.round, t, k.index[t]);
    RowCounts(job.p, k.mem, k.pc[t], x, y, stale);
    NextBlock(job.p, job.Chunk(k.round, t) - k.index[t]);
    hide NW.Chunks, NW.ChunkStart, NW.Transfer, BlocksLeft, NW.MatrixSized, NW.Good, NW.PcSized, NW.BlockAt;
    assert RowsLeft(job.p, NW.Load([])) == 2 * job.p.b + 3;
  }

  /** Every row transfer of a tasklet in a round brings its barrier closer. */
  lemma EveryStepCounts(job: Job, k: Kernel, t: nat, stale: seq<int>)
    requires Sized(job, k) && t < job.tasklets && k.index[t] < job.Chunk(k.round, t) && |stale| == job.p.b + 2
    ensures Rank(job, Work(job, k, t, stale)) < Rank(job, k)
  {
    var k' := Work(job, k, t, stale);
    WorkCounts(job, k, t, stale);
    hide Work;
    assert Counts(job, k') == Counts(job, k)[t := StepsLeft(job, k', t)];
    Ranks.TotalUpdate(Counts(job, k), Identity(), t, StepsLeft(job, k', t));
  }

  /** Between two barriers a run makes no more steps than the rank it starts from. */
  lemma {:induction false} RoundsEnd(job: Job, states: seq<Kernel>, acts: seq<Action>, a: nat, b: nat)
    requires Run(job, states, acts) && a <= b <= |acts| && Sized(job, states[a])
    requires forall n :: a <= n < b ==> acts[n].Transfer?
    ensures Sized(job, states[b]) && b - a + Rank(job, states[b]) <= Rank(job, states[a])
    decreases b - a
  {
    hide Work, Init, Rank, NW.MatrixSized, NW.PcSized;
    if a < b {
      RoundsEnd(job, states, acts, a, b - 1);
      EveryStepCounts(job, states[b - 1], acts[b - 1].t, acts[b - 1].stale);
    }
  }

  /** Short of the last barrier something can always be done. */
  lemma NoDeadlock(job: Job, k: Kernel) returns (a: Action)
    requires Sized(job, k) && k.round < 2 * job.p.reps
    ensures Possible(job, k, a)
  {
    if AllThrough(job, k) {
      a := Barrier;
    } else {
      var t: nat :| t < job.tasklets && k.index[t] != job.Chunk(k.round, t);
      a := Transfer(t, seq(job.p.b + 2, _ => 0));
    }
  }
}
