/**
 * The rounds of src/UNI/main.c with the tasklets interleaved: the epoch-marked messages from
 * neighbour to neighbour, the position each tasklet takes for its output, and the update of
 * the shared count by the last one, which nothing keeps apart from the others' reads of it.
 */
module UniqueRun {
  import U = Unique
  import Ranks
  import Slices
  
  /** blocks[r][t] is the block of tasklet t in round r. */
  datatype Job = Job(n: nat, blocks: seq<seq<seq<int>>>)
  {
    predicate Valid()
    {
      && n > 0 && (forall r :: 0 <= r < |blocks| ==> |blocks[r]| == n)
      && (forall r, t :: 0 <= r < |blocks| && 0 <= t < n ==> |blocks[r][t]| > 0)
    }

    /** The sentinel and all blocks before that of tasklet t in round r. */
    function Seen(r: nat, t: nat): (s: seq<int>)
      requires Valid() && r <= |blocks| && t <= n && (t > 0 ==> r < |blocks|)
      ensures s != []
      decreases r, t
    {
      if t > 0 then Seen(r, t - 1) + blocks[r][t - 1]
      else if r > 0 then Seen(r - 1, n)
      else [U.SENTINEL]
    }

    /** The input: all blocks before that of tasklet t in round r. */
    function Input(r: nat, t: nat): (s: seq<int>)
      requires Valid() && r <= |blocks| && t <= n && (t > 0 ==> r < |blocks|)
      decreases r, t
    {
      if t > 0 then Input(r, t - 1) + blocks[r][t - 1]
      else if r > 0 then Input(r - 1, n)
      else []
    }

    /** How much output there is by then: where that of tasklet t belongs. */
    function Pos(r: nat, t: nat): nat
      requires Valid() && r <= |blocks| && t <= n && (t > 0 ==> r < |blocks|)
    {
      |U.Dedup(Seen(r, t))| - 1
    }

    /** The output so far. */
    function Output(r: nat, t: nat): (o: seq<int>)
      requires Valid() && r <= |blocks| && t <= n && (t > 0 ==> r < |blocks|)
      ensures |o| == Pos(r, t)
    {
      U.Dedup(Seen(r, t))[1..]
    }

    function Last(r: nat, t: nat): int
      requires Valid() && r <= |blocks| && t <= n && (t > 0 ==> r < |blocks|)
    {
      Seen(r, t)[|Seen(r, t)| - 1]
    }

    /** What unique leaves of a block, and whether its first element repeats the one before it. */
    function Cache(r: nat, t: nat): (d: seq<int>)
      requires Valid() && r < |blocks| && t < n
      ensures d != []
    {
      U.Dedup(blocks[r][t])
    }

    function Repeat(r: nat, t: nat): nat
      requires Valid() && r < |blocks| && t < n
    {
      if Cache(r, t)[0] == Last(r, t) then 1 else 0
    }
  }

  datatype Pc =
    | Hear                                      // about to take the left neighbour's message
    | Send(x: int, y: int, z: nat)              // about to write the right neighbour's slots
    | Mark(x: int, y: int, z: nat)              // about to write its epoch
    | Take(x: int, y: int, z: nat)              // has something new: about to read message_partial_count
    | Put(x: int, y: int, z: nat, at: int)      // about to write its output at that position
    | Update(x: int, y: int, z: nat)            // last tasklet: about to update the shared count
    | Through                                   // at the barrier

  datatype State = State(partialCount: int, lastFromLast: int, count: seq<int>, last: seq<int>, off: seq<int>,
                         epoch: seq<nat>, gEpoch: nat, out: seq<int>, pc: seq<Pc>, round: nat)

  ghost predicate Sized(job: Job, s: State)
  {
    && job.Valid() && s.round < |job.blocks|
    && |s.pc| == |s.count| == |s.last| == |s.off| == |s.epoch| == job.n
    && forall t :: 0 <= t < |s.pc| ==> s.pc[t].Update? ==> t == job.n - 1
  }

  ghost predicate Init(job: Job, s: State)
  {
    && Sized(job, s) && s.round == 0 && s.partialCount == 0 && s.lastFromLast == U.SENTINEL
    && (forall t :: 0 <= t < job.n ==> s.pc[t] == Hear && s.epoch[t] < s.gEpoch)
  }

  /** piece written at `at`, as far as it lies in the modelled region. */
  function Place(out: seq<int>, at: int, piece: seq<int>): (r: seq<int>)
    ensures |r| == |out|
  {
    seq(|out|, i requires 0 <= i < |out| => if at <= i < at + |piece| then piece[i - at] else out[i])
  }

  /** What follows the messages of tasklet t: a tasklet with nothing new leaves the shared count alone. */
  function AfterMessages(n: nat, t: nat, size: nat, x: int, y: int, z: nat): (pc: Pc)
    requires t < n
    ensures pc.Update? ==> t == n - 1
  {
    if z < size then Take(x, y, z) else AfterWrite(n, t, x, y, z)
  }

  function AfterWrite(n: nat, t: nat, x: int, y: int, z: nat): (pc: Pc)
    requires t < n
    ensures pc.Update? ==> t == n - 1
  {
    if t + 1 == n then Update(x, y, z) else Through
  }

  /** The next access of tasklet t. Until its epoch is marked nobody reads a slot, so writing it is one step. */
  ghost function Step(job: Job, s: State, t: nat): (s': State)
    requires Sized(job, s) && t < job.n
    ensures Sized(job, s') && |s'.out| == |s.out|
  {
    var d := job.Cache(s.round, t);
    match s.pc[t]
    case Hear =>
      if t > 0 then
        if s.epoch[t] != s.gEpoch then s
        else s.(pc := s.pc[t := Send(s.count[t], s.off[t], if s.last[t] == d[0] then 1 else 0)])
      else s.(pc := s.pc[t := Send(0, 0, if s.lastFromLast == d[0] then 1 else 0)])
    case Send(x, y, z) =>
      if t + 1 < job.n then
        s.(count := s.count[t + 1 := x + |d|], last := s.last[t + 1 := d[|d| - 1]], off := s.off[t + 1 := y + z],
           pc := s.pc[t := Mark(x, y, z)])
      else s.(pc := s.pc[t := AfterMessages(job.n, t, |d|, x, y, z)])
    case Mark(x, y, z) =>
      if t + 1 < job.n then
        s.(epoch := s.epoch[t + 1 := s.gEpoch], pc := s.pc[t := AfterMessages(job.n, t, |d|, x, y, z)])
      else s
    case Take(x, y, z) => s.(pc := s.pc[t := Put(x, y, z, s.partialCount + x - y)])
    case Put(x, y, z, at) =>
      s.(out := if z <= |d| then Place(s.out, at, d[z..]) else s.out, pc := s.pc[t := AfterWrite(job.n, t, x, y, z)])
    case Update(x, y, z) =>
      s.(lastFromLast := d[|d| - 1], partialCount := s.partialCount + x + |d| - y - z, pc := s.pc[t := Through])
    case Through => s
  }

  ghost predicate AllThrough(s: State) { forall t :: 0 <= t < |s.pc| ==> s.pc[t].Through? }

  function Hears(n: nat): (pc: seq<Pc>)
    ensures |pc| == n && forall t :: 0 <= t < n ==> pc[t] == Hear
  {
    seq(n, _ => Hear)
  }

  /** The barriers between rounds, with tasklet 0's new epoch. */
  ghost function NextRound(job: Job, s: State): (s': State)
    requires Sized(job, s) && s.round + 1 < |job.blocks|
    ensures Sized(job, s') && |s'.out| == |s.out|
  {
    s.(round := s.round + 1, gEpoch := s.gEpoch + 1, pc := Hears(job.n))
  }

  // ----- positions -----

  lemma Grows(job: Job, r: nat, t: nat)
    requires job.Valid() && r < |job.blocks| && t < job.n
    ensures var d, z := job.Cache(r, t), job.Repeat(r, t);
            && z <= |d| && job.Output(r, t + 1) == job.Output(r, t) + d[z..]
            && job.Pos(r, t + 1) == job.Pos(r, t) + |d| - z && job.Last(r, t + 1) == d[|d| - 1]
  {
    var b, seen := job.blocks[r][t], job.Seen(r, t);
    U.BlockAdds(seen, b);
    U.DedupEnds(b);
    assert job.Seen(r, t + 1) == seen + b;
    assert (seen + b)[|seen + b| - 1] == b[|b| - 1];
    hide U.Dedup;
  }

  /** What is out at some time is how the output begins at any later time. */
  lemma {:induction false} OutputExtends(job: Job, r: nat, t: nat, q: nat, u: nat)
    requires job.Valid() && r <= q < |job.blocks| && t <= job.n && u <= job.n && (r < q || t <= u)
    ensures job.Pos(r, t) <= job.Pos(q, u) && job.Output(q, u)[..job.Pos(r, t)] == job.Output(r, t)
    decreases q, u
  {
    if r < q || t < u {
      if u > 0 {
        OutputExtends(job, r, t, q, u - 1);
        OutputGrows(job, q, u - 1, job.Output(r, t));
      } else {
        OutputExtends(job, r, t, q - 1, job.n);
        assert job.Seen(q, 0) == job.Seen(q - 1, job.n);
      }
    }
    hide U.Dedup, Job.Seen;
  }

  lemma OutputGrows(job: Job, q: nat, u: nat, o: seq<int>)
    requires job.Valid() && q < |job.blocks| && u < job.n
    requires |o| <= job.Pos(q, u) && job.Output(q, u)[..|o|] == o
    ensures |o| <= job.Pos(q, u + 1) && job.Output(q, u + 1)[..|o|] == o
  {
    Grows(job, q, u);
    hide U.Dedup, Job.Seen, Job.Cache, Job.Repeat, Job.Pos, Job.Output, Job.Last, Job.Valid;
    Slices.PrefixOfSum(job.Output(q, u), job.Cache(q, u)[job.Repeat(q, u)..], |o|);
  }

  lemma PosMonotone(job: Job, r: nat, t: nat, q: nat, u: nat)
    requires job.Valid() && r <= q < |job.blocks| && t <= job.n && u <= job.n && (r < q || t <= u)
    ensures job.Pos(r, t) <= job.Pos(q, u)
  {
    OutputExtends(job, r, t, q, u);
  }

  // ----- the counters, in every run -----

  predicate Marked(pc: Pc) { pc.Take? || pc.Put? || pc.Update? || pc.Through? }

  /** The message for tasklet t is in its slots. */
  ghost predicate SlotSet(job: Job, s: State, t: nat)
    requires Sized(job, s) && t < job.n
  {
    s.count[t] - s.off[t] == job.Pos(s.round, t) - job.Pos(s.round, 0) && s.last[t] == job.Last(s.round, t)
  }

  ghost predicate SlotInv(job: Job, s: State, t: nat)
    requires Sized(job, s) && 0 < t < job.n
  {
    && s.epoch[t] <= s.gEpoch && (s.epoch[t] == s.gEpoch <==> Marked(s.pc[t - 1]))
    && (Marked(s.pc[t - 1]) || s.pc[t - 1].Mark? ==> SlotSet(job, s, t))
  }

  /** What tasklet t has been told places its output. */
  ghost predicate TaskletInv(job: Job, s: State, t: nat)
    requires Sized(job, s) && t < job.n
  {
    && (!s.pc[t].Hear? && t > 0 ==> Marked(s.pc[t - 1]))
    && (!s.pc[t].Hear? && !s.pc[t].Through? ==>
          && s.pc[t].x - s.pc[t].y == job.Pos(s.round, t) - job.Pos(s.round, 0)
          && s.pc[t].z == job.Repeat(s.round, t))
    && (s.pc[t].Take? || s.pc[t].Put? ==> s.pc[t].z < |job.Cache(s.round, t)|)
    && (s.pc[t].Put? ==> PutInv(job, s, t)) && (s.pc[t].Mark? ==> t + 1 < job.n)
  }

  /** The output goes to its place, or as far behind it as the round's output is long. */
  ghost predicate PutInv(job: Job, s: State, t: nat)
    requires Sized(job, s) && t < job.n && s.pc[t].Put?
  {
    || s.pc[t].at == job.Pos(s.round, t)
    || s.pc[t].at == job.Pos(s.round, t) + job.Pos(s.round, job.n) - job.Pos(s.round, 0)
  }

  /** The shared count and last element move when the last tasklet is through. */
  ghost predicate CountInv(job: Job, s: State)
    requires Sized(job, s)
  {
    var t := if s.pc[job.n - 1].Through? then job.n else 0;
    s.partialCount == job.Pos(s.round, t) && s.lastFromLast == job.Last(s.round, t)
  }

  ghost predicate Inv(job: Job, s: State)
  {
    && Sized(job, s) && CountInv(job, s)
    && (forall t: nat :: t < job.n ==> TaskletInv(job, s, t))
    && (forall t: nat :: 0 < t < job.n ==> SlotInv(job, s, t))
    && s.epoch[0] <= s.gEpoch
  }

  lemma InitInv(job: Job, s: State)
    requires Init(job, s)
    ensures Inv(job, s)
  {
    assert job.Seen(0, 0) == [U.SENTINEL];
    U.DedupOne([U.SENTINEL]);
    assert job.Pos(0, 0) == 0 && job.Last(0, 0) == U.SENTINEL;
    hide U.Dedup, Job.Seen, Job.Pos, Job.Last;
  }

  lemma OwnStepKeepsTasklet(job: Job, s: State, t: nat)
    requires Inv(job, s) && t < job.n
    ensures TaskletInv(job, Step(job, s, t), t)
  {
    assert TaskletInv(job, s, t);
    if s.pc[t].Hear? {
      HearKeepsTasklet(job, s, t);
    } else if s.pc[t].Take? {
      TakeKeepsTasklet(job, s, t);
    } else {
      hide CountInv, U.Dedup, Job.Seen, Job.Pos, Job.Cache, Job.Repeat, Job.Last, Place, SlotInv, Job.Valid;
    }
  }

  lemma TakeKeepsTasklet(job: Job, s: State, t: nat)
    requires Inv(job, s) && t < job.n && s.pc[t].Take?
    ensures TaskletInv(job, Step(job, s, t), t)
  {
    assert TaskletInv(job, s, t);
    hide U.Dedup, Job.Seen, Job.Pos, Job.Cache, Job.Repeat, Job.Last, Place, SlotInv, Job.Valid;
  }

  lemma HearKeepsTasklet(job: Job, s: State, t: nat)
    requires Inv(job, s) && t < job.n && s.pc[t].Hear?
    ensures TaskletInv(job, Step(job, s, t), t)
  {
    assert TaskletInv(job, s, t);
    if t > 0 {
      assert SlotInv(job, s, t);
    } else {
      NobodyAhead(job, s, job.n - 1);
    }
    hide U.Dedup, Job.Seen, Job.Pos, Job.Last, Place;
  }

  /** Nobody is past hearing before tasklet 0 is. */
  lemma {:induction false} NobodyAhead(job: Job, s: State, t: nat)
    requires Inv(job, s) && t < job.n && s.pc[0].Hear?
    ensures s.pc[t].Hear?
  {
    if t > 0 {
      NobodyAhead(job, s, t - 1);
      assert TaskletInv(job, s, t);
    }
  }

  lemma OtherStepKeepsTasklet(job: Job, s: State, a: nat, t: nat)
    requires Inv(job, s) && a < job.n && t < job.n && a != t
    ensures TaskletInv(job, Step(job, s, a), t)
  {
    hide U.Dedup, Job.Seen, Job.Pos;
    assert TaskletInv(job, s, t);
  }

  lemma StepKeepsSlot(job: Job, s: State, a: nat, t: nat)
    requires Inv(job, s) && a < job.n && 0 < t < job.n
    ensures SlotInv(job, Step(job, s, a), t)
  {
    hide U.Dedup, Job.Seen, Job.Pos, Job.Last;
    assert SlotInv(job, s, t);
    if a + 1 == t {
      NeighbourKeepsSlot(job, s, a);
    } else {
      SlotStep(job, s, a, t);
      hide Step;
    }
  }

  /** Only the left neighbour writes a tasklet's slots. */
  lemma SlotStep(job: Job, s: State, a: nat, t: nat)
    requires Sized(job, s) && a < job.n && 0 < t < job.n
    ensures var s', d := Step(job, s, a), job.Cache(s.round, a);
            && Sized(job, s') && s'.round == s.round && s'.gEpoch == s.gEpoch
            && (a + 1 != t ==>
                  && s'.epoch[t] == s.epoch[t] && s'.pc[t - 1] == s.pc[t - 1]
                  && s'.count[t] == s.count[t] && s'.off[t] == s.off[t] && s'.last[t] == s.last[t])
            && (a + 1 == t && s.pc[a].Send? ==>
                  && s'.epoch[t] == s.epoch[t] && s'.pc[a].Mark?
                  && s'.count[t] == s.pc[a].x + |d| && s'.off[t] == s.pc[a].y + s.pc[a].z && s'.last[t] == d[|d| - 1])
            && (a + 1 == t && !s.pc[a].Send? ==>
                  && s'.count[t] == s.count[t] && s'.off[t] == s.off[t] && s'.last[t] == s.last[t]
                  && s'.epoch[t] == (if s.pc[a].Mark? then s.gEpoch else s.epoch[t])
                  && !s'.pc[a].Mark?
                  && Marked(s'.pc[a]) == (Marked(s.pc[a]) || s.pc[a].Mark?))
  {
    hide U.Dedup, Job.Seen;
  }

  lemma NeighbourKeepsSlot(job: Job, s: State, a: nat)
    requires Inv(job, s) && a + 1 < job.n
    ensures SlotInv(job, Step(job, s, a), a + 1)
  {
    assert SlotInv(job, s, a + 1) && TaskletInv(job, s, a);
    SlotStep(job, s, a, a + 1);
    Grows(job, s.round, a);
    hide U.Dedup, Job.Seen, Job.Pos, Job.Last, Job.Output, CountInv, Step;
  }

  lemma StepKeepsCount(job: Job, s: State, a: nat)
    requires Inv(job, s) && a < job.n
    ensures CountInv(job, Step(job, s, a))
  {
    if s.pc[a].Update? {
      UpdateMovesCount(job, s, a);
    } else {
      hide U.Dedup, Job.Seen, Job.Pos, Job.Last, TaskletInv, SlotInv;
    }
  }

  lemma UpdateMovesCount(job: Job, s: State, a: nat)
    requires Inv(job, s) && a < job.n && s.pc[a].Update?
    ensures CountInv(job, Step(job, s, a))
  {
    assert TaskletInv(job, s, a);
    Grows(job, s.round, a);
    hide U.Dedup, Job.Seen, Job.Pos, Job.Last, Job.Output, SlotInv;
  }

  /** What every access of any tasklet keeps, in whatever order. */
  lemma StepKeepsInv(job: Job, s: State, a: nat)
    requires Inv(job, s) && a < job.n
    ensures Inv(job, Step(job, s, a))
  {
    var s' := Step(job, s, a);
    StepKeepsCount(job, s, a);
    forall t: nat | t < job.n ensures TaskletInv(job, s', t) {
      if t == a {
        OwnStepKeepsTasklet(job, s, t);
      } else {
        OtherStepKeepsTasklet(job, s, a, t);
      }
    }
    forall t: nat | 0 < t < job.n ensures SlotInv(job, s', t) {
      StepKeepsSlot(job, s, a, t);
    }
    hide TaskletInv, SlotInv, CountInv;
  }

  lemma NextRoundKeepsInv(job: Job, s: State)
    requires Inv(job, s) && AllThrough(s) && s.round + 1 < |job.blocks|
    ensures Inv(job, NextRound(job, s))
  {
    assert job.Seen(s.round + 1, 0) == job.Seen(s.round, job.n);
    hide U.Dedup, Job.Seen;
    forall t: nat | 0 < t < job.n ensures SlotInv(job, NextRound(job, s), t) {
      assert SlotInv(job, s, t);
    }
  }

  // ----- where the output goes -----

  /** The shared count still counts the output of earlier rounds only. */
  ghost predicate Timely(job: Job, s: State)
    requires Sized(job, s)
  {
    !s.pc[job.n - 1].Through?
  }

  /**
   * The exact condition on one read: the position tasklet t takes is the right one if and only if
   * the last tasklet has not updated the count yet. A late one lies behind all output of the round.
   */
  lemma TakeExact(job: Job, s: State, t: nat)
    requires Inv(job, s) && t < job.n && s.pc[t].Take?
    ensures var s' := Step(job, s, t);
            && s'.pc[t].Put? && s'.out == s.out
            && (Timely(job, s) <==> s'.pc[t].at == job.Pos(s.round, t))
            && (!Timely(job, s) ==> s'.pc[t].at >= job.Pos(s.round, job.n))
  {
    assert TaskletInv(job, s, t);
    Grows(job, s.round, t);
    PosMonotone(job, s.round, 0, s.round, t);
    PosMonotone(job, s.round, t + 1, s.round, job.n);
    hide U.Dedup, Job.Seen, Job.Pos;
  }

  predicate Written(pc: Pc) { pc.Update? || pc.Through? }

  /** The output of tasklet t in round r is in its place. */
  ghost predicate Held(job: Job, out: seq<int>, r: nat, t: nat)
    requires job.Valid() && r < |job.blocks| && t < job.n
  {
    && job.Pos(r, t) <= job.Pos(r, t + 1) <= |out|
    && out[job.Pos(r, t)..job.Pos(r, t + 1)] == job.Output(r, t + 1)[job.Pos(r, t)..]
  }

  /** Room in the output region for every round. */
  ghost predicate Roomy(job: Job, out: seq<int>)
    requires job.Valid()
  {
    forall r: nat :: r < |job.blocks| ==> job.Pos(r, job.n) <= |out|
  }

  lemma Room(job: Job, out: seq<int>, r: nat, t: nat)
    requires job.Valid() && Roomy(job, out) && r < |job.blocks| && t < job.n
    ensures job.Pos(r, t) <= job.Pos(r, t + 1) <= |out|
  {
    PosMonotone(job, r, t, r, t + 1);
    PosMonotone(job, r, t + 1, r, job.n);
  }

  lemma Beside(out: seq<int>, at: int, piece: seq<int>, lo: nat, hi: nat)
    requires lo <= hi <= |out| && (hi <= at || at + |piece| <= lo)
    ensures Place(out, at, piece)[lo..hi] == out[lo..hi]
  {
  }

  lemma There(out: seq<int>, at: nat, piece: seq<int>)
    requires at + |piece| <= |out|
    ensures Place(out, at, piece)[at..at + |piece|] == piece
  {
  }

  /** Writing outside a place leaves it as it was. */
  lemma PlaceKept(job: Job, out: seq<int>, at: int, piece: seq<int>, r: nat, t: nat)
    requires job.Valid() && Roomy(job, out) && r < |job.blocks| && t < job.n
    requires job.Pos(r, t + 1) <= at || at + |piece| <= job.Pos(r, t)
    ensures Held(job, Place(out, at, piece), r, t) == Held(job, out, r, t)
  {
    Room(job, out, r, t);
    Beside(out, at, piece, job.Pos(r, t), job.Pos(r, t + 1));
    hide U.Dedup, Job.Seen, Job.Pos, Job.Output, Place;
  }

  lemma PutStep(job: Job, s: State, a: nat)
    requires Inv(job, s) && a < job.n && s.pc[a].Put?
    ensures var s', z := Step(job, s, a), job.Repeat(s.round, a);
            && s'.round == s.round && s'.pc == s.pc[a := s'.pc[a]] && Written(s'.pc[a])
            && z <= |job.Cache(s.round, a)| && s'.out == Place(s.out, s.pc[a].at, job.Cache(s.round, a)[z..])
    ensures s.pc[a].at == job.Pos(s.round, a) || s.pc[a].at >= job.Pos(s.round, job.n)
    ensures job.Pos(s.round, a + 1) == job.Pos(s.round, a) + |job.Cache(s.round, a)| - job.Repeat(s.round, a)
  {
    assert TaskletInv(job, s, a);
    Grows(job, s.round, a);
    PosMonotone(job, s.round, 0, s.round, a);
    hide U.Dedup, Job.Seen, Job.Pos, Job.Output, Place, SlotInv, CountInv;
  }

  lemma QuietStep(job: Job, s: State, a: nat)
    requires Inv(job, s) && a < job.n && !s.pc[a].Put?
    ensures var s' := Step(job, s, a);
            && s'.round == s.round && s'.pc == s.pc[a := s'.pc[a]] && s'.out == s.out
            && (s'.pc[a].Put? <==> s.pc[a].Take?)
            && (Written(s.pc[a]) ==> Written(s'.pc[a]))
            && (Written(s'.pc[a]) ==>
                  Written(s.pc[a]) || job.Pos(s.round, a + 1) == job.Pos(s.round, a))
  {
    assert TaskletInv(job, s, a);
    Grows(job, s.round, a);
    hide U.Dedup, Job.Seen, Job.Pos, Job.Output, Place, SlotInv, CountInv;
  }

  predicate InPlace(job: Job, s: State, t: nat)
    requires Sized(job, s) && t < job.n
  {
    s.pc[t].Put? && s.pc[t].at == job.Pos(s.round, t)
  }

  /** Of all places so far, an access can only change the one it belongs to, and then it fills it. */
  lemma StepPlaces(job: Job, s: State, a: nat, r: nat, t: nat)
    requires Inv(job, s) && Roomy(job, s.out) && a < job.n && r <= s.round && t < job.n
    ensures var out := Step(job, s, a).out;
            if r == s.round && t == a && InPlace(job, s, a) then Held(job, out, r, t)
            else Held(job, out, r, t) == Held(job, s.out, r, t)
  {
    assert Sized(job, s);
    hide Held, U.Dedup, Job.Seen, Job.Pos, Job.Output, Job.Cache, Job.Repeat, Place, Step, Inv, Roomy;
    if s.pc[a].Put? {
      PutStep(job, s, a);
      if r == s.round && t == a && InPlace(job, s, a) {
        Filled(job, s.out, r, t);
      } else {
        Apart(job, s.round, a, s.pc[a].at, r, t);
        PlaceKept(job, s.out, s.pc[a].at, job.Cache(s.round, a)[job.Repeat(s.round, a)..], r, t);
      }
    } else {
      QuietStep(job, s, a);
    }
  }

  /** Two places do not overlap, and what lies behind the round's output meets none. */
  lemma Apart(job: Job, q: nat, a: nat, at: int, r: nat, t: nat)
    requires job.Valid() && r <= q < |job.blocks| && a < job.n && t < job.n
    requires (at == job.Pos(q, a) && (r, t) != (q, a)) || at >= job.Pos(q, job.n)
    ensures job.Pos(r, t + 1) <= at || (at == job.Pos(q, a) && job.Pos(q, a + 1) <= job.Pos(r, t))
  {
    PosMonotone(job, r, t + 1, q, job.n);
    if r < q || t < a {
      PosMonotone(job, r, t + 1, q, a);
    } else if t > a {
      PosMonotone(job, r, a + 1, r, t);
    }
    hide Job.Pos, Job.Valid;
  }

  lemma Filled(job: Job, out: seq<int>, r: nat, t: nat)
    requires job.Valid() && Roomy(job, out) && r < |job.blocks| && t < job.n
    ensures job.Repeat(r, t) <= |job.Cache(r, t)|
    ensures Held(job, Place(out, job.Pos(r, t), job.Cache(r, t)[job.Repeat(r, t)..]), r, t)
  {
    Grows(job, r, t);
    Room(job, out, r, t);
    hide U.Dedup, Job.Seen, Job.Pos, Job.Output, Job.Cache, Job.Repeat, Place;
    var at, piece := job.Pos(r, t), job.Cache(r, t)[job.Repeat(r, t)..];
    There(out, at, piece);
    assert job.Output(r, t + 1)[at..] == piece;
  }

  // ----- reads that do no harm -----

  /** If t is about to read the shared count, it is in time, or memory happens to hold its output already. */
  ghost predicate Harmless(job: Job, s: State, t: nat)
    requires Sized(job, s) && t < job.n
  {
    s.pc[t].Take? ==> Timely(job, s) || Held(job, s.out, s.round, t)
  }

  /** Output that is out is in its place, and output about to be written is going there. */
  ghost predicate PlaceInv(job: Job, s: State, t: nat)
    requires Sized(job, s) && t < job.n
  {
    && (s.pc[t].Put? ==> InPlace(job, s, t) || Held(job, s.out, s.round, t))
    && (Written(s.pc[t]) ==> Held(job, s.out, s.round, t))
  }

  ghost predicate OutInv(job: Job, s: State)
    requires Sized(job, s)
  {
    && (forall r: nat, t: nat :: r < s.round && t < job.n ==> Held(job, s.out, r, t))
    && (forall t: nat :: t < job.n ==> PlaceInv(job, s, t))
  }

  lemma StepKeepsPlace(job: Job, s: State, a: nat, t: nat)
    requires Inv(job, s) && Roomy(job, s.out) && a < job.n && t < job.n && Harmless(job, s, a)
    requires PlaceInv(job, s, t)
    ensures PlaceInv(job, Step(job, s, a), t)
  {
    StepPlaces(job, s, a, s.round, t);
    if s.pc[a].Put? {
      PutStep(job, s, a);
    } else {
      QuietStep(job, s, a);
      if s.pc[a].Take? {
        TakeExact(job, s, a);
      }
      if job.Pos(s.round, a + 1) == job.Pos(s.round, a) {
        NothingNew(job, s.out, s.round, a);
      }
    }
    hide Held, U.Dedup, Job.Seen, Job.Pos, Job.Output, Job.Cache, Job.Repeat, Place, Step, Inv;
  }

  lemma NothingNew(job: Job, out: seq<int>, r: nat, t: nat)
    requires job.Valid() && Roomy(job, out) && r < |job.blocks| && t < job.n && job.Pos(r, t + 1) == job.Pos(r, t)
    ensures Held(job, out, r, t)
  {
    Room(job, out, r, t);
    hide U.Dedup, Job.Seen, Job.Pos;
  }

  lemma StepKeepsOut(job: Job, s: State, a: nat)
    requires Inv(job, s) && Roomy(job, s.out) && a < job.n && Harmless(job, s, a) && OutInv(job, s)
    ensures OutInv(job, Step(job, s, a))
  {
    var s' := Step(job, s, a);
    StepPlaces(job, s, a, s.round, a);
    forall t: nat | t < job.n ensures PlaceInv(job, s', t) {
      StepKeepsPlace(job, s, a, t);
    }
    forall r: nat, t: nat | r < s'.round && t < job.n ensures Held(job, s'.out, r, t) {
      StepPlaces(job, s, a, r, t);
    }
    hide PlaceInv, Held;
  }

  /** With every place filled up to tasklet t of round r, the output is the deduplication up to there. */
  lemma {:induction false} Assembled(job: Job, out: seq<int>, r: nat, t: nat)
    requires job.Valid() && r < |job.blocks| && t <= job.n
    requires forall q: nat, u: nat :: (q < r && u < job.n) || (q == r && u < t) ==> Held(job, out, q, u)
    ensures job.Pos(r, t) <= |out| && out[..job.Pos(r, t)] == job.Output(r, t)
    decreases r, t
  {
    if t > 0 {
      Assembled(job, out, r, t - 1);
      assert Held(job, out, r, t - 1);
      Grows(job, r, t - 1);
      var a, b := job.Pos(r, t - 1), job.Pos(r, t);
      assert out[..b] == out[..a] + out[a..b];
      assert job.Output(r, t) == job.Output(r, t)[..a] + job.Output(r, t)[a..];
    } else if r > 0 {
      Assembled(job, out, r - 1, job.n);
      assert job.Seen(r, 0) == job.Seen(r - 1, job.n);
    } else {
      StartPos(job);
    }
  }

  /** And the other way round. */
  lemma Disassembled(job: Job, out: seq<int>, r: nat, q: nat, u: nat)
    requires job.Valid() && q <= r < |job.blocks| && u < job.n
    requires job.Pos(r, job.n) <= |out| && out[..job.Pos(r, job.n)] == job.Output(r, job.n)
    ensures Held(job, out, q, u)
  {
    OutputExtends(job, q, u + 1, r, job.n);
    PosMonotone(job, q, u, q, u + 1);
    hide U.Dedup, Job.Seen, Job.Pos, Job.Output;
    var a, b := job.Pos(q, u), job.Pos(q, u + 1);
    assert out[..job.Pos(r, job.n)][..b] == out[..b];
    assert out[..b][a..] == out[a..b];
  }

  lemma StartPos(job: Job)
    requires job.Valid()
    ensures job.Pos(0, 0) == 0 && job.Output(0, 0) == []
  {
    assert job.Seen(0, 0) == [U.SENTINEL];
    U.DedupOne([U.SENTINEL]);
  }

  // ----- reads that do harm -----

  /** The output of tasklet t in round r is not in its place and will not get there. */
  ghost predicate Lost(job: Job, s: State, r: nat, t: nat)
    requires Sized(job, s)
  {
    && r <= s.round && t < job.n && !Held(job, s.out, r, t)
    && (r == s.round ==> Written(s.pc[t]) || (s.pc[t].Put? && !InPlace(job, s, t)))
  }

  lemma LateReadLoses(job: Job, s: State, t: nat)
    requires Inv(job, s) && t < job.n && !Harmless(job, s, t)
    ensures Lost(job, Step(job, s, t), s.round, t)
  {
    TakeExact(job, s, t);
    QuietStep(job, s, t);
    hide Held, U.Dedup, Job.Seen, Job.Pos, Step, Inv;
  }

  lemma StepKeepsLost(job: Job, s: State, a: nat, r: nat, t: nat)
    requires Inv(job, s) && Roomy(job, s.out) && a < job.n && Lost(job, s, r, t)
    ensures Lost(job, Step(job, s, a), r, t)
  {
    StepPlaces(job, s, a, r, t);
    if s.pc[a].Put? {
      PutStep(job, s, a);
    } else {
      QuietStep(job, s, a);
    }
    hide Held, U.Dedup, Job.Seen, Job.Pos, Step, Inv;
  }

  lemma BarrierKeepsLost(job: Job, s: State, r: nat, t: nat)
    requires Sized(job, s) && s.round + 1 < |job.blocks| && Lost(job, s, r, t)
    ensures Lost(job, NextRound(job, s), r, t)
  {
    hide Held;
  }

  // ----- runs -----

  datatype Action = Access(t: nat) | Barrier

  ghost predicate Possible(job: Job, s: State, a: Action)
    requires Sized(job, s)
  {
    match a
    case Access(t) => t < job.n
    case Barrier => AllThrough(s) && s.round + 1 < |job.blocks|
  }

  ghost function Act(job: Job, s: State, a: Action): (s': State)
    requires Sized(job, s) && Possible(job, s, a)
    ensures Sized(job, s') && |s'.out| == |s.out|
  {
    match a
    case Access(t) => Step(job, s, t)
    case Barrier => NextRound(job, s)
  }

  ghost predicate Run(job: Job, states: seq<State>, acts: seq<Action>)
  {
    && |states| == |acts| + 1 && Init(job, states[0])
    && forall k: nat :: k < |acts| ==>
         Sized(job, states[k]) && Possible(job, states[k], acts[k]) && states[k + 1] == Act(job, states[k], acts[k])
  }

  /** Every read of the shared count is in time. */
  ghost predicate TimelyRun(job: Job, states: seq<State>, acts: seq<Action>, k: nat)
    requires Run(job, states, acts) && k <= |acts|
  {
    forall j: nat :: j < k && acts[j].Access? && states[j].pc[acts[j].t].Take? ==> Timely(job, states[j])
  }

  ghost predicate HarmlessRun(job: Job, states: seq<State>, acts: seq<Action>, k: nat)
    requires Run(job, states, acts) && k <= |acts|
  {
    forall j: nat :: j < k && acts[j].Access? ==> Harmless(job, states[j], acts[j].t)
  }

  lemma {:induction false} RunKeepsInv(job: Job, states: seq<State>, acts: seq<Action>, k: nat)
    requires Run(job, states, acts) && k <= |acts|
    ensures Inv(job, states[k])
    decreases k
  {
    hide Inv, Step, Init;
    if k == 0 {
      InitInv(job, states[0]);
    } else {
      RunKeepsInv(job, states, acts, k - 1);
      match acts[k - 1]
      case Access(t) => StepKeepsInv(job, states[k - 1], t);
      case Barrier => NextRoundKeepsInv(job, states[k - 1]);
    }
  }

  /** In every run, timely or not, the count is that of the deduplication when the last tasklet is through. */
  lemma CountAlwaysRight(job: Job, states: seq<State>, acts: seq<Action>, k: nat)
    requires Run(job, states, acts) && k <= |acts| && Sized(job, states[k]) && states[k].pc[job.n - 1].Through?
    ensures states[k].partialCount == |U.Dedup(job.Seen(states[k].round, job.n))| - 1
  {
    RunKeepsInv(job, states, acts, k);
  }

  lemma {:induction false} RunKeepsRoom(job: Job, states: seq<State>, acts: seq<Action>, k: nat)
    requires Run(job, states, acts) && k <= |acts| && Sized(job, states[0]) && Roomy(job, states[0].out)
    ensures Sized(job, states[k]) && Roomy(job, states[k].out)
    decreases k
  {
    hide Step, NextRound, Init, U.Dedup, Job.Seen, Job.Pos;
    if k > 0 {
      RunKeepsRoom(job, states, acts, k - 1);
      RunKeepsInv(job, states, acts, k);
    }
  }

  lemma {:induction false} RunKeepsOut(job: Job, states: seq<State>, acts: seq<Action>, k: nat)
    requires Run(job, states, acts) && k <= |acts| && HarmlessRun(job, states, acts, k)
    requires Sized(job, states[0]) && Roomy(job, states[0].out)
    ensures Sized(job, states[k]) && OutInv(job, states[k])
    decreases k
  {
    RunKeepsInv(job, states, acts, k);
    if k > 0 {
      RunKeepsInv(job, states, acts, k - 1);
      RunKeepsRoom(job, states, acts, k - 1);
      RunKeepsOut(job, states, acts, k - 1);
      var s := states[k - 1];
      match acts[k - 1]
      case Access(t) =>
        assert Harmless(job, s, t);
        StepKeepsOut(job, s, t);
      case Barrier =>
        NextRoundKeepsOut(job, s);
    }
    hide Inv, Step, NextRound, Held, Harmless;
  }

  lemma NextRoundKeepsOut(job: Job, s: State)
    requires Sized(job, s) && OutInv(job, s) && AllThrough(s) && s.round + 1 < |job.blocks|
    ensures OutInv(job, NextRound(job, s))
  {
    hide Held;
    forall r: nat, t: nat | r <= s.round && t < job.n ensures Held(job, s.out, r, t) {
      assert r == s.round ==> PlaceInv(job, s, t);
    }
  }

  lemma {:induction false} RunKeepsLost(job: Job, states: seq<State>, acts: seq<Action>, j: nat, k: nat, r: nat, t: nat)
    requires Run(job, states, acts) && j <= k <= |acts| && Sized(job, states[0]) && Roomy(job, states[0].out)
    requires Sized(job, states[j]) && Lost(job, states[j], r, t)
    ensures Sized(job, states[k]) && Lost(job, states[k], r, t)
    decreases k - j
  {
    hide Inv, Step, NextRound, Lost, Roomy, Init;
    if j < k {
      RunKeepsLost(job, states, acts, j, k - 1, r, t);
      RunKeepsInv(job, states, acts, k - 1);
      RunKeepsRoom(job, states, acts, k - 1);
      match acts[k - 1]
      case Access(a) => StepKeepsLost(job, states[k - 1], a, r, t);
      case Barrier => BarrierKeepsLost(job, states[k - 1], r, t);
    }
  }

  // ----- rounds end -----

  function StepsLeft(pc: Pc): nat
  {
    match pc
    case Hear => 6
    case Send(_, _, _) => 5
    case Mark(_, _, _) => 4
    case Take(_, _, _) => 3
    case Put(_, _, _, _) => 2
    case Update(_, _, _) => 1
    case Through => 0
  }

  function Rank(s: State): nat
  {
    Ranks.Total(s.pc, StepsLeft)
  }

  /** Has nothing to wait for: every access but the poll for an epoch that is not there yet. */
  ghost predicate Ready(job: Job, s: State, t: nat)
    requires Sized(job, s) && t < job.n
  {
    !s.pc[t].Through? && (s.pc[t].Hear? && t > 0 ==> s.epoch[t] == s.gEpoch)
  }

  lemma PcCounts(job: Job, s: State, t: nat)
    requires Inv(job, s) && t < job.n
    ensures var s' := Step(job, s, t);
            && s'.pc == s.pc[t := s'.pc[t]]
            && if Ready(job, s, t) then StepsLeft(s'.pc[t]) < StepsLeft(s.pc[t]) else s' == s
  {
    assert TaskletInv(job, s, t);
    hide U.Dedup, Job.Seen, Job.Pos, Place, Job.Cache, Job.Repeat, SlotInv, CountInv;
  }

  /** Every access but that poll brings the barrier closer. */
  lemma EveryAccessCounts(job: Job, s: State, t: nat)
    requires Inv(job, s) && t < job.n
    ensures if Ready(job, s, t) then Rank(Step(job, s, t)) < Rank(s) else Step(job, s, t) == s
  {
    PcCounts(job, s, t);
    hide Step;
    Ranks.TotalUpdate(s.pc, StepsLeft, t, Step(job, s, t).pc[t]);
  }

  /** And until all are at the barrier, somebody is not polling in vain. */
  lemma {:induction false} NoDeadlock(job: Job, s: State, t: nat) returns (u: nat)
    requires Inv(job, s) && t < job.n && !s.pc[t].Through?
    ensures u < job.n && Ready(job, s, u)
    decreases t
  {
    u := t;
    if !Ready(job, s, t) {
      assert SlotInv(job, s, t);
      u := NoDeadlock(job, s, t - 1);
    }
  }

  lemma RunExtends(job: Job, states: seq<State>, acts: seq<Action>, a: Action)
    requires Run(job, states, acts) && Sized(job, states[|acts|]) && Possible(job, states[|acts|], a)
    ensures Run(job, states + [Act(job, states[|acts|], a)], acts + [a])
  {
    hide Init, Act, Possible, Sized;
  }

  /** So every run can be continued to the end of the last round. */
  lemma {:induction false} RunCanEnd(job: Job, states: seq<State>, acts: seq<Action>)
      returns (states': seq<State>, acts': seq<Action>)
    requires Run(job, states, acts)
    ensures Run(job, states', acts') && states <= states' && acts <= acts'
    ensures var s := states'[|acts'|]; Sized(job, s) && AllThrough(s) && s.round + 1 == |job.blocks|
    decreases |job.blocks| - states[|acts|].round, Rank(states[|acts|])
  {
    assert |states| == |acts| + 1;
    hide TaskletInv, SlotInv, CountInv, Step, Rank, Run;
    RunKeepsInv(job, states, acts, |acts|);
    var s := states[|acts|];
    states', acts' := states, acts;
    if t :| 0 <= t < job.n && !s.pc[t].Through? {
      var u := NoDeadlock(job, s, t);
      EveryAccessCounts(job, s, u);
      StepKeepsRound(job, s, u);
      RunExtends(job, states, acts, Access(u));
      states', acts' := RunCanEnd(job, states + [Step(job, s, u)], acts + [Access(u)]);
    } else if s.round + 1 < |job.blocks| {
      RunExtends(job, states, acts, Barrier);
      states', acts' := RunCanEnd(job, states + [NextRound(job, s)], acts + [Barrier]);
    }
  }

  lemma StepKeepsRound(job: Job, s: State, u: nat)
    requires Sized(job, s) && u < job.n
    ensures Step(job, s, u).round == s.round
  {
  }

  // ----- the main results -----

  /** The output and the count are the deduplication of all blocks so far. */
  ghost predicate Deduplicated(job: Job, s: State)
    requires Sized(job, s)
  {
    var d := U.Dedup(job.Seen(s.round, job.n));
    |d| > 0 && s.partialCount == |d| - 1 <= |s.out| && s.out[..s.partialCount] == d[1..]
  }

  /**
   * The exact condition on a run, for any number of tasklets and rounds and every interleaving: at
   * the end of a round the output is the deduplication of all blocks so far if and only if
   * everyone who had something new has read the shared count before the last tasklet updated it,
   * except where memory held the very elements already.
   */
  lemma RunExact(job: Job, states: seq<State>, acts: seq<Action>, k: nat)
    requires Run(job, states, acts) && k <= |acts|
    requires Sized(job, states[0]) && Roomy(job, states[0].out) && Sized(job, states[k]) && AllThrough(states[k])
    ensures Deduplicated(job, states[k]) <==> HarmlessRun(job, states, acts, k)
  {
    var s := states[k];
    RunKeepsInv(job, states, acts, k);
    RunKeepsRoom(job, states, acts, k);
    if HarmlessRun(job, states, acts, k) {
      RunKeepsOut(job, states, acts, k);
      forall q: nat, u: nat | q <= s.round && u < job.n ensures Held(job, s.out, q, u) {
        assert q == s.round ==> PlaceInv(job, s, u);
      }
      Assembled(job, s.out, s.round, job.n);
    } else {
      var j: nat :| j < k && acts[j].Access? && !Harmless(job, states[j], acts[j].t);
      var r, t := states[j].round, acts[j].t;
      RunKeepsInv(job, states, acts, j);
      LateReadLoses(job, states[j], t);
      RunKeepsLost(job, states, acts, j + 1, k, r, t);
      if Deduplicated(job, s) {
        Disassembled(job, s.out, s.round, r, t);
      }
    }
  }

  /** In particular, when every read is in time. */
  lemma RunDeduplicates(job: Job, states: seq<State>, acts: seq<Action>, k: nat)
    requires Run(job, states, acts) && k <= |acts| && TimelyRun(job, states, acts, k)
    requires Sized(job, states[0]) && Roomy(job, states[0].out) && Sized(job, states[k]) && AllThrough(states[k])
    ensures Deduplicated(job, states[k])
  {
    RunExact(job, states, acts, k);
  }

  lemma {:induction false} SeenIsInput(job: Job, r: nat, t: nat)
    requires job.Valid() && r <= |job.blocks| && t <= job.n && (t > 0 ==> r < |job.blocks|)
    ensures job.Seen(r, t) == [U.SENTINEL] + job.Input(r, t)
    decreases r, t
  {
    if t > 0 {
      SeenIsInput(job, r, t - 1);
    } else if r > 0 {
      SeenIsInput(job, r - 1, job.n);
    }
  }

  /** Then the output is the input without adjacent duplicates exactly when it does not start with the sentinel. */
  lemma RunRemovesDuplicates(job: Job, states: seq<State>, acts: seq<Action>, k: nat)
    requires Run(job, states, acts) && k <= |acts| && TimelyRun(job, states, acts, k)
    requires Sized(job, states[0]) && Roomy(job, states[0].out) && Sized(job, states[k]) && AllThrough(states[k])
    ensures var s, a := states[k], job.Input(states[k].round, job.n);
            && 0 <= s.partialCount <= |s.out|
            && (s.out[..s.partialCount] == U.Dedup(a) <==> a == [] || a[0] != 0xFFFF_FFFF)
  {
    RunDeduplicates(job, states, acts, k);
    SeenIsInput(job, states[k].round, job.n);
    U.ExactIff(job.Input(states[k].round, job.n));
    hide U.Dedup;
  }

  /** A read that is not in time: blocks [1] and [2], and the last tasklet updates the count first. */
  const LATE: Job := Job(2, [[[1], [2]]])

  lemma LateBlocks()
    ensures LATE.Valid() && LATE.Cache(0, 0) == [1] && LATE.Cache(0, 1) == [2]
  {
    U.DedupOne([1]);
    U.DedupOne([2]);
  }

  lemma LateStart()
    ensures LATE.Valid() && Init(LATE, LateState([1, 1], Hear, Hear, 0, U.SENTINEL, [0, 0], [0, 0, 0, 0]))
  {
    LateBlocks();
  }

  function LateState(epoch: seq<nat>, p: Pc, q: Pc, partialCount: int, lastFromLast: int, count: seq<int>,
                     out: seq<int>)
      : State
  {
    var last := if count == [0, 0] then [0, 0] else [0, 1];
    State(partialCount, lastFromLast, count, last, [0, 0], epoch, 2, out, [p, q], 0)
  }

  /** Tasklet 0 hears, sends and marks; then tasklet 1 runs to its end; then tasklet 0 reads the count and writes. */
  function Late(k: nat): State
  {
    if k == 0 then LateState([1, 1], Hear, Hear, 0, U.SENTINEL, [0, 0], [0, 0, 0, 0])
    else if k == 1 then LateState([1, 1], Send(0, 0, 0), Hear, 0, U.SENTINEL, [0, 0], [0, 0, 0, 0])
    else if k == 2 then LateState([1, 1], Mark(0, 0, 0), Hear, 0, U.SENTINEL, [0, 1], [0, 0, 0, 0])
    else if k == 3 then LateState([1, 2], Take(0, 0, 0), Hear, 0, U.SENTINEL, [0, 1], [0, 0, 0, 0])
    else if k == 4 then LateState([1, 2], Take(0, 0, 0), Send(1, 0, 0), 0, U.SENTINEL, [0, 1], [0, 0, 0, 0])
    else if k == 5 then LateState([1, 2], Take(0, 0, 0), Take(1, 0, 0), 0, U.SENTINEL, [0, 1], [0, 0, 0, 0])
    else if k == 6 then LateState([1, 2], Take(0, 0, 0), Put(1, 0, 0, 1), 0, U.SENTINEL, [0, 1], [0, 0, 0, 0])
    else if k == 7 then LateState([1, 2], Take(0, 0, 0), Update(1, 0, 0), 0, U.SENTINEL, [0, 1], [0, 2, 0, 0])
    else if k == 8 then LateState([1, 2], Take(0, 0, 0), Through, 2, 2, [0, 1], [0, 2, 0, 0])
    else if k == 9 then LateState([1, 2], Put(0, 0, 0, 2), Through, 2, 2, [0, 1], [0, 2, 0, 0])
    else LateState([1, 2], Through, Through, 2, 2, [0, 1], [0, 2, 1, 0])
  }

  function LateTasklet(k: nat): nat { if 3 <= k < 8 then 1 else 0 }

  lemma LateStep(k: nat)
    requires k < 10
    ensures Sized(LATE, Late(k)) && Step(LATE, Late(k), LateTasklet(k)) == Late(k + 1)
  {
    LateBlocks();
    hide U.Dedup, Job.Seen, Job.Cache;
    if k < 5 {
      assert Step(LATE, Late(k), LateTasklet(k)) == Late(k + 1);
    }
  }

  lemma LateReadMisplaces() returns (states: seq<State>, acts: seq<Action>)
    ensures Run(LATE, states, acts) && AllThrough(states[|acts|]) && states[0].out == [0, 0, 0, 0]
    ensures states[|acts|].partialCount == 2 && states[|acts|].out == [0, 2, 1, 0]
    ensures U.Dedup(LATE.Seen(0, 2)) == [U.SENTINEL, 1, 2]
  {
    LateStart();
    LateOutput();
    states := seq(11, k requires 0 <= k < 11 => Late(k));
    acts := seq(10, k requires 0 <= k < 10 => Access(LateTasklet(k)));
    assert AllThrough(Late(10)) && Init(LATE, Late(0));
    hide Step, Init, LateState, U.Dedup;
    forall k: nat | k < |acts|
      ensures Sized(LATE, states[k]) && Possible(LATE, states[k], acts[k])
      ensures states[k + 1] == Act(LATE, states[k], acts[k])
    {
      LateStep(k);
    }
  }

  lemma LateOutput()
    ensures LATE.Valid() && U.Dedup(LATE.Seen(0, 2)) == [U.SENTINEL, 1, 2]
  {
    LateBlocks();
    LateSeen();
    hide Job.Seen, U.Dedup;
    U.DedupOne([U.SENTINEL]);
    U.DedupStep([U.SENTINEL], 1);
    U.DedupStep([U.SENTINEL] + [1], 2);
  }

  lemma LateSeen()
    ensures LATE.Valid() && LATE.Seen(0, 2) == [U.SENTINEL] + [1] + [2]
  {
    LateBlocks();
    assert LATE.Seen(0, 0) == [U.SENTINEL];
    assert LATE.Seen(0, 1) == [U.SENTINEL] + [1];
  }
}
