/**
 * Step 3 of src/TRNS/main.c: tasklets follow the cycles of a permutation of tiles
 * in place, sharing one done bit per tile. Tiles move word by word, so a tile can
 * be read while another tasklet is overwriting it; get_tile, get_done and
 * get_and_set_done are one step each, being guarded by a mutex.
 */
module TransposeCycles {
  import Ranks

  /** A tile is m words. */
  type Tile<T> = seq<T>

  datatype Pc<T> =
    | Fetch                                                  // about to call get_tile
    | Load(tile: nat, data: Tile<T>)                         // words of tile read so far; all read: about to get_done
    | Follow(next: nat, data: Tile<T>, backup: Tile<T>)      // words of next read; all: about to get_and_set_done
    | Store(next: nat, data: Tile<T>, backup: Tile<T>, k: nat)  // has claimed next; data[..k] written to it
    | Finished

  datatype State<T> = State(curr: nat, tiles: seq<Tile<T>>, done: seq<bool>, pc: seq<Pc<T>>)

  /** next[i] is where tile i belongs; m words make a tile. */
  datatype Job = Job(next: seq<nat>, m: nat)

  ghost predicate Permutation(next: seq<nat>)
  {
    && |next| > 0 && next[|next| - 1] == |next| - 1
    && (forall i :: 0 <= i < |next| ==> next[i] < |next|)
    && (forall i, j :: 0 <= i < |next| && 0 <= j < |next| && next[i] == next[j] ==> i == j)
  }

  ghost predicate Good<T>(job: Job, orig: seq<Tile<T>>)
  {
    Permutation(job.next) && |orig| == |job.next| && forall i :: 0 <= i < |orig| ==> |orig[i]| == job.m
  }

  predicate PcSized<T>(pc: Pc<T>, job: Job)
  {
    match pc
    case Load(tile, data) => tile < |job.next| && |data| <= job.m
    case Follow(next, data, backup) => next < |job.next| && |data| == job.m && |backup| <= job.m
    case Store(next, data, backup, k) => next < |job.next| && |data| == job.m == |backup| && k <= job.m
    case _ => true
  }

  ghost predicate Sized<T>(s: State<T>, job: Job)
  {
    && |s.tiles| == |s.done| == |job.next| > 0
    && (forall i :: 0 <= i < |s.tiles| ==> |s.tiles[i]| == job.m)
    && (forall i :: 0 <= i < |s.tiles| ==> job.next[i] < |job.next|)
    && (forall t :: 0 <= t < |s.pc| ==> PcSized(s.pc[t], job))
  }

  ghost predicate Init<T>(s: State<T>, job: Job, orig: seq<Tile<T>>)
  {
    s.curr == 0 && s.tiles == orig && |s.done| == |orig|
    && (forall i :: 0 <= i < |s.done| ==> !s.done[i])
    && (forall t :: 0 <= t < |s.pc| ==> s.pc[t] == Fetch)
  }

  /** The next single access or critical section of tasklet t: the counter, the tiles, the bits, its own state. */
  ghost function Step<T>(s: State<T>, t: nat, job: Job): (s': State<T>)
    requires Sized(s, job) && t < |s.pc|
    ensures Sized(s', job) && |s'.pc| == |s.pc|
  {
    var s' := s.(pc := s.pc[t := NextPc(s, t, job)]);
    match s.pc[t]
    case Fetch => s'.(curr := s.curr + 1)
    case Follow(next, data, backup) =>
      if |backup| < job.m then s' else s'.(done := s.done[next := true])
    case Store(next, data, backup, k) =>
      if k < job.m then s'.(tiles := s.tiles[next := s.tiles[next][k := data[k]]]) else s'
    case _ => s'
  }

  ghost function NextPc<T>(s: State<T>, t: nat, job: Job): (pc: Pc<T>)
    requires Sized(s, job) && t < |s.pc|
    ensures PcSized(pc, job)
  {
    assert PcSized(s.pc[t], job);
    match s.pc[t]
    case Fetch =>
      if s.curr >= |job.next| - 1 then Finished
      else if job.next[s.curr] == s.curr then Fetch
      else Load(s.curr, [])
    case Load(tile, data) =>
      if |data| < job.m then Load(tile, data + [s.tiles[tile][|data|]])
      else if s.done[tile] then Fetch
      else Follow(job.next[tile], data, [])
    case Follow(next, data, backup) =>
      if |backup| < job.m then Follow(next, data, backup + [s.tiles[next][|backup|]])
      else if s.done[next] then Fetch
      else Store(next, data, backup, 0)
    case Store(next, data, backup, k) =>
      if k < job.m then Store(next, data, backup, k + 1) else Follow(job.next[next], backup, [])
    case Finished => Finished
  }

  // ----- the invariant -----

  /** data is the original content of the tile that belongs at position q. */
  ghost predicate BelongsAt<T>(job: Job, orig: seq<Tile<T>>, data: Tile<T>, q: nat)
    requires |orig| == |job.next|
  {
    exists p :: 0 <= p < |orig| && job.next[p] == q && data == orig[p]
  }

  predicate StoresTo<T>(pc: Pc<T>, q: nat) { pc.Store? && pc.next == q }

  /** What one tasklet carries is original content, as long as the tile it reads from is unclaimed. */
  ghost predicate TaskletInv<T>(s: State<T>, t: nat, job: Job, orig: seq<Tile<T>>)
    requires Sized(s, job) && |orig| == |job.next| && t < |s.pc|
  {
    assert PcSized(s.pc[t], job);
    match s.pc[t]
    case Load(tile, data) => !s.done[tile] ==> data <= orig[tile]
    case Follow(next, data, backup) =>
      BelongsAt(job, orig, data, next) && (!s.done[next] ==> backup <= orig[next])
    case Store(next, data, backup, k) =>
      s.done[next] && BelongsAt(job, orig, data, next) && backup == orig[next] && s.tiles[next][..k] == data[..k]
    case _ => true
  }

  /** Two tasklets never store to the same position. */
  predicate SoleWriter<T>(s: State<T>, t: nat, u: nat)
    requires t < |s.pc| && u < |s.pc|
  {
    t != u && s.pc[t].Store? ==> !StoresTo(s.pc[u], s.pc[t].next)
  }

  /** Position q is untouched, being stored to, or holds what belongs there. */
  ghost predicate PlaceInv<T>(s: State<T>, q: nat, job: Job, orig: seq<Tile<T>>)
    requires Sized(s, job) && |orig| == |job.next| && q < |orig|
  {
    if !s.done[q] then s.tiles[q] == orig[q]
    else BelongsAt(job, orig, s.tiles[q], q) || exists t :: 0 <= t < |s.pc| && StoresTo(s.pc[t], q)
  }

  /** The tasklet will still try to claim the position after q. */
  predicate Pursues<T>(pc: Pc<T>, q: nat, job: Job)
    requires q < |job.next|
  {
    match pc
    case Follow(next, _, _) => next == job.next[q]
    case Store(next, _, _, _) => next == q
    case _ => false
  }

  ghost predicate Pursued<T>(s: State<T>, q: nat, job: Job)
    requires q < |job.next|
  {
    exists t :: 0 <= t < |s.pc| && Pursues(s.pc[t], q, job)
  }

  predicate LoadsFrom<T>(pc: Pc<T>, q: nat) { pc.Load? && pc.tile == q }

  ghost predicate ChainInv<T>(s: State<T>, q: nat, job: Job)
    requires Sized(s, job) && q < |job.next|
  {
    && (s.done[q] ==> s.done[job.next[q]] || Pursued(s, q, job))
    && (q < s.curr && q < |job.next| - 1 && job.next[q] != q ==>
          s.done[q] || s.done[job.next[q]] || Pursued(s, q, job)
          || exists t :: 0 <= t < |s.pc| && LoadsFrom(s.pc[t], q))
  }

  ghost predicate Inv<T>(s: State<T>, job: Job, orig: seq<Tile<T>>)
  {
    && Good(job, orig) && Sized(s, job)
    && (forall t :: 0 <= t < |s.pc| ==> TaskletInv(s, t, job, orig))
    && (forall t, u :: 0 <= t < |s.pc| && 0 <= u < |s.pc| ==> SoleWriter(s, t, u))
    && (forall q :: 0 <= q < |orig| ==> PlaceInv(s, q, job, orig))
    && (forall q :: 0 <= q < |orig| ==> ChainInv(s, q, job))
    && ((exists t :: 0 <= t < |s.pc| && s.pc[t].Finished?) ==> s.curr >= |job.next|)
  }

  lemma InitInv<T>(s: State<T>, job: Job, orig: seq<Tile<T>>)
    requires Good(job, orig) && Init(s, job, orig)
    ensures Inv(s, job, orig)
  {
  }

  /** Claims and word stores are all a step changes in the shared tiles and bits. */
  lemma StepEffect<T>(s: State<T>, a: nat, q: nat, job: Job)
    requires Sized(s, job) && a < |s.pc| && q < |job.next|
    ensures var s' := Step(s, a, job);
            && s'.done[q] == (s.done[q] || (s.pc[a].Follow? && s.pc[a].next == q && |s.pc[a].backup| == job.m))
            && (!StoresTo(s.pc[a], q) ==> s'.tiles[q] == s.tiles[q])
  {
    assert PcSized(s.pc[a], job);
  }

  lemma OwnStepKeepsTasklet<T>(s: State<T>, t: nat, job: Job, orig: seq<Tile<T>>)
    requires Inv(s, job, orig) && t < |s.pc|
    ensures TaskletInv(Step(s, t, job), t, job, orig)
  {
    assert PcSized(s.pc[t], job) && TaskletInv(s, t, job, orig);
    match s.pc[t]
    case Load(tile, data) =>
      assert PlaceInv(s, tile, job, orig);
    case Follow(next, data, backup) =>
      assert PlaceInv(s, next, job, orig);
    case Store(next, data, backup, k) =>
      if k == job.m {
        assert BelongsAt(job, orig, backup, job.next[next]);
      } else {
        assert s.tiles[next][k := data[k]][..k + 1] == s.tiles[next][..k] + [data[k]];
      }
    case _ =>
  }

  lemma OtherStepKeepsTasklet<T>(s: State<T>, a: nat, t: nat, job: Job, orig: seq<Tile<T>>)
    requires Sized(s, job) && |orig| == |job.next| && a < |s.pc| && t < |s.pc| && a != t
    requires TaskletInv(s, t, job, orig) && SoleWriter(s, t, a)
    ensures TaskletInv(Step(s, a, job), t, job, orig)
  {
    assert PcSized(s.pc[t], job);
    assert Step(s, a, job).pc[t] == s.pc[t];
    match s.pc[t]
    case Load(tile, data) => StepEffect(s, a, tile, job);
    case Follow(next, data, backup) => StepEffect(s, a, next, job);
    case Store(next, data, backup, k) => StepEffect(s, a, next, job);
    case _ =>
  }

  lemma StepKeepsSoleWriter<T>(s: State<T>, a: nat, t: nat, u: nat, job: Job, orig: seq<Tile<T>>)
    requires Inv(s, job, orig) && a < |s.pc| && t < |s.pc| && u < |s.pc|
    ensures SoleWriter(Step(s, a, job), t, u)
  {
    assert PcSized(s.pc[a], job);
    assert SoleWriter(s, t, u) && TaskletInv(s, t, job, orig) && TaskletInv(s, u, job, orig);
  }

  lemma StepKeepsPlace<T>(s: State<T>, a: nat, q: nat, job: Job, orig: seq<Tile<T>>)
    requires Sized(s, job) && |orig| == |job.next| && a < |s.pc| && q < |orig|
    requires TaskletInv(s, a, job, orig) && PlaceInv(s, q, job, orig)
    ensures PlaceInv(Step(s, a, job), q, job, orig)
  {
    var s' := Step(s, a, job);
    assert PcSized(s.pc[a], job);
    StepEffect(s, a, q, job);
    if StoresTo(s.pc[a], q) {
      if s.pc[a].k == job.m {
        assert s.tiles[q][..job.m] == s.tiles[q] && s.pc[a].data[..job.m] == s.pc[a].data;
      } else {
        assert StoresTo(s'.pc[a], q);
      }
    } else if !s.done[q] && s'.done[q] {
      assert StoresTo(s'.pc[a], q);
    } else if t :| 0 <= t < |s.pc| && StoresTo(s.pc[t], q) {
      assert StoresTo(s'.pc[t], q);
    }
  }

  /** A pursuit of the position after q ends only when that position is claimed. */
  lemma PursuitGoesOn<T>(s: State<T>, a: nat, q: nat, job: Job)
    requires Sized(s, job) && a < |s.pc| && q < |job.next| && Pursued(s, q, job)
    ensures Pursued(Step(s, a, job), q, job) || Step(s, a, job).done[job.next[q]]
  {
    var t :| 0 <= t < |s.pc| && Pursues(s.pc[t], q, job);
    assert PcSized(s.pc[a], job);
    var s' := Step(s, a, job);
    if t != a {
      assert Pursues(s'.pc[t], q, job);
    } else {
      StepEffect(s, a, job.next[q], job);
      assert Pursues(s'.pc[a], q, job) || s'.done[job.next[q]];
    }
  }

  lemma StepKeepsChain<T>(s: State<T>, a: nat, q: nat, job: Job)
    requires Sized(s, job) && a < |s.pc| && q < |job.next| && ChainInv(s, q, job)
    ensures ChainInv(Step(s, a, job), q, job)
  {
    var s' := Step(s, a, job);
    assert PcSized(s.pc[a], job);
    StepEffect(s, a, q, job);
    StepEffect(s, a, job.next[q], job);
    if Pursued(s, q, job) {
      PursuitGoesOn(s, a, q, job);
    }
    if !s.done[q] && s'.done[q] {
      assert Pursues(s'.pc[a], q, job);
    }
    if s.pc[a] == Fetch && s.curr == q {
      assert q < |job.next| - 1 && job.next[q] != q ==> LoadsFrom(s'.pc[a], q);
    }
    if t :| 0 <= t < |s.pc| && LoadsFrom(s.pc[t], q) {
      assert LoadsFrom(s'.pc[t], q) || s.done[q] || Pursues(s'.pc[t], q, job);
    }
  }

  /** What every step keeps. */
  lemma StepKeepsInv<T>(s: State<T>, a: nat, job: Job, orig: seq<Tile<T>>)
    requires Inv(s, job, orig) && a < |s.pc|
    ensures Inv(Step(s, a, job), job, orig)
  {
    var s' := Step(s, a, job);
    assert TaskletInv(s, a, job, orig);
    forall t | 0 <= t < |s.pc| ensures TaskletInv(s', t, job, orig) {
      if t == a {
        OwnStepKeepsTasklet(s, a, job, orig);
      } else {
        OtherStepKeepsTasklet(s, a, t, job, orig);
      }
    }
    forall t, u | 0 <= t < |s.pc| && 0 <= u < |s.pc| ensures SoleWriter(s', t, u) {
      StepKeepsSoleWriter(s, a, t, u, job, orig);
    }
    forall q | 0 <= q < |orig| ensures PlaceInv(s', q, job, orig) && ChainInv(s', q, job) {
      StepKeepsPlace(s, a, q, job, orig);
      StepKeepsChain(s, a, q, job);
    }
    if t :| 0 <= t < |s'.pc| && s'.pc[t].Finished? {
      assert s.pc[t].Finished? || s.pc[a] == Fetch;
    }
  }

  ghost predicate Run<T>(states: seq<State<T>>, who: seq<nat>, job: Job, orig: seq<Tile<T>>)
  {
    |states| == |who| + 1 && Good(job, orig) && Init(states[0], job, orig)
    && forall a :: 0 <= a < |who| ==>
         Sized(states[a], job) && who[a] < |states[a].pc| && states[a + 1] == Step(states[a], who[a], job)
  }

  lemma {:induction false} RunKeepsInv<T>(states: seq<State<T>>, who: seq<nat>, job: Job, orig: seq<Tile<T>>, a: nat)
    requires Run(states, who, job, orig) && a <= |who|
    ensures Inv(states[a], job, orig)
    decreases a
  {
    if a == 0 {
      InitInv(states[0], job, orig);
    } else {
      RunKeepsInv(states, who, job, orig, a - 1);
      StepKeepsInv(states[a - 1], who[a - 1], job, orig);
    }
  }

  /** In every interleaving, when all tasklets have finished every tile is at its permuted place. */
  lemma TilesPermuted<T>(states: seq<State<T>>, who: seq<nat>, job: Job, orig: seq<Tile<T>>, a: nat, p: nat)
    requires Run(states, who, job, orig) && a <= |who| && p < |orig|
    requires |states[a].pc| > 0 && forall t :: 0 <= t < |states[a].pc| ==> states[a].pc[t].Finished?
    ensures |states[a].tiles| == |orig| && job.next[p] < |orig|
    ensures states[a].tiles[job.next[p]] == orig[p]
  {
    RunKeepsInv(states, who, job, orig, a);
    var s := states[a];
    var q := job.next[p];
    assert s.pc[0].Finished?;
    assert ChainInv(s, p, job) && PlaceInv(s, q, job, orig);
    assert s.done[q] || q == p;
    if s.done[q] {
      assert BelongsAt(job, orig, s.tiles[q], q);
    }
  }

  /**
   * At every step that stores to position q, and so at every step that changes its tile, the
   * position is claimed, what the tasklet carries is the original tile that belongs there, and
   * no other tasklet is storing to it.
   */
  lemma StoresAreOriginal<T>(states: seq<State<T>>, who: seq<nat>, job: Job, orig: seq<Tile<T>>, a: nat, q: nat)
    requires Run(states, who, job, orig) && a < |who| && q < |orig|
    requires |states[a].tiles| == |states[a + 1].tiles| == |orig| == |states[a].done| && who[a] < |states[a].pc|
    requires StoresTo(states[a].pc[who[a]], q) || states[a + 1].tiles[q] != states[a].tiles[q]
    ensures StoresTo(states[a].pc[who[a]], q) && states[a].done[q]
    ensures BelongsAt(job, orig, states[a].pc[who[a]].data, q)
    ensures forall t :: 0 <= t < |states[a].pc| && StoresTo(states[a].pc[t], q) ==> t == who[a]
  {
    RunKeepsInv(states, who, job, orig, a);
    StepEffect(states[a], who[a], q, job);
    assert TaskletInv(states[a], who[a], job, orig);
    forall t | 0 <= t < |states[a].pc| && StoresTo(states[a].pc[t], q) ensures t == who[a] {
      assert SoleWriter(states[a], who[a], t);
    }
  }

  // ----- once only -----

  /** The next step of tasklet t finds position q unclaimed and sets its done bit. */
  predicate Claims<T>(s: State<T>, t: nat, job: Job, q: nat)
    requires t < |s.pc| && q < |s.done|
  {
    s.pc[t].Follow? && s.pc[t].next == q && |s.pc[t].backup| == job.m && !s.done[q]
  }

  /** The next step of tasklet t writes word k of position q. */
  predicate Writes<T>(s: State<T>, t: nat, job: Job, q: nat, k: nat)
    requires t < |s.pc|
  {
    StoresTo(s.pc[t], q) && s.pc[t].k == k < job.m
  }

  /** A done bit once set stays set. */
  lemma {:induction false} DoneStays<T>(
      states: seq<State<T>>, who: seq<nat>, job: Job, orig: seq<Tile<T>>, a: nat, b: nat, q: nat)
    requires Run(states, who, job, orig) && a <= b <= |who| && q < |orig|
    ensures Sized(states[a], job) && Sized(states[b], job) && |job.next| == |orig|
    ensures states[a].done[q] ==> states[b].done[q]
    decreases b
  {
    RunKeepsInv(states, who, job, orig, a);
    RunKeepsInv(states, who, job, orig, b);
    if a < b {
      DoneStays(states, who, job, orig, a, b - 1, q);
      StepEffect(states[b - 1], who[b - 1], q, job);
    }
  }

  /** No position is claimed twice: two claiming steps of a run are the same step. */
  lemma ClaimedOnce<T>(states: seq<State<T>>, who: seq<nat>, job: Job, orig: seq<Tile<T>>, a: nat, b: nat, q: nat)
    requires Run(states, who, job, orig) && a <= b < |who| && q < |orig|
    requires q < |states[a].done| && q < |states[b].done| && who[a] < |states[a].pc| && who[b] < |states[b].pc|
    requires Claims(states[a], who[a], job, q) && Claims(states[b], who[b], job, q)
    ensures a == b
  {
    if a < b {
      StepEffect(states[a], who[a], q, job);
      DoneStays(states, who, job, orig, a + 1, b, q);
    }
  }

  /** Word k of position q has been written: whoever still writes there is further on. */
  ghost predicate WordDone<T>(s: State<T>, q: nat, k: nat)
  {
    q < |s.done| && s.done[q] && forall t :: 0 <= t < |s.pc| && StoresTo(s.pc[t], q) ==> s.pc[t].k > k
  }

  lemma StepKeepsWordDone<T>(s: State<T>, a: nat, job: Job, q: nat, k: nat)
    requires Sized(s, job) && a < |s.pc| && WordDone(s, q, k)
    ensures WordDone(Step(s, a, job), q, k)
  {
    assert PcSized(s.pc[a], job);
    StepEffect(s, a, q, job);
  }

  lemma WritingDoesWord<T>(s: State<T>, a: nat, job: Job, orig: seq<Tile<T>>, q: nat, k: nat)
    requires Inv(s, job, orig) && a < |s.pc| && q < |orig| && Writes(s, a, job, q, k)
    ensures WordDone(Step(s, a, job), q, k)
  {
    assert PcSized(s.pc[a], job) && TaskletInv(s, a, job, orig);
    StepEffect(s, a, q, job);
    var s' := Step(s, a, job);
    forall t | 0 <= t < |s'.pc| && StoresTo(s'.pc[t], q) ensures s'.pc[t].k > k {
      assert SoleWriter(s, a, t);
    }
  }

  lemma {:induction false} WordStaysDone<T>(
      states: seq<State<T>>, who: seq<nat>, job: Job, orig: seq<Tile<T>>, a: nat, b: nat, q: nat, k: nat)
    requires Run(states, who, job, orig) && a < b <= |who| && q < |orig|
    requires who[a] < |states[a].pc| && Writes(states[a], who[a], job, q, k)
    ensures WordDone(states[b], q, k)
    decreases b
  {
    hide WordDone;
    if b == a + 1 {
      RunKeepsInv(states, who, job, orig, a);
      WritingDoesWord(states[a], who[a], job, orig, q, k);
    } else {
      WordStaysDone(states, who, job, orig, a, b - 1, q, k);
      StepKeepsWordDone(states[b - 1], who[b - 1], job, q, k);
    }
  }

  /** No word is written twice: two steps of a run that write word k of position q are the same step. */
  lemma WrittenOnce<T>(
      states: seq<State<T>>, who: seq<nat>, job: Job, orig: seq<Tile<T>>, a: nat, b: nat, q: nat, k: nat)
    requires Run(states, who, job, orig) && a <= b < |who| && q < |orig|
    requires who[a] < |states[a].pc| && who[b] < |states[b].pc|
    requires Writes(states[a], who[a], job, q, k) && Writes(states[b], who[b], job, q, k)
    ensures a == b
  {
    if a < b {
      WordStaysDone(states, who, job, orig, a, b, q, k);
    }
  }

  // ----- termination -----

  function Unclaimed(done: seq<bool>): nat
  {
    if done == [] then 0 else (if done[0] then 0 else 1) + Unclaimed(done[1..])
  }

  /** Steps to the next claim or fetch. */
  function StepsLeft<T>(pc: Pc<T>, m: nat): nat
  {
    match pc
    case Fetch => 1
    case Load(tile, data) => if |data| <= m then 2 * m + 3 - |data| else 0
    case Follow(next, data, backup) => if |backup| <= m then m + 2 - |backup| else 0
    case Store(next, data, backup, k) => if k <= m then 2 * m + 3 - k else 0
    case Finished => 0
  }

  function Left<T>(m: nat): Pc<T> -> nat
  {
    (pc: Pc<T>) => StepsLeft(pc, m)
  }

  function AllStepsLeft<T>(pc: seq<Pc<T>>, m: nat): nat
  {
    Ranks.Total(pc, Left(m))
  }

  function Unfetched<T>(s: State<T>, job: Job): nat
  {
    if s.curr < |job.next| then |job.next| - s.curr else 0
  }

  function Rank<T>(s: State<T>, job: Job): nat
  {
    (2 * job.m + 3) * (Unclaimed(s.done) + Unfetched(s, job)) + AllStepsLeft(s.pc, job.m)
  }

  lemma {:induction false} ClaimCounts(done: seq<bool>, q: nat)
    requires q < |done|
    ensures Unclaimed(done[q := true]) == Unclaimed(done) - if done[q] then 0 else 1
  {
    if q == 0 {
      assert done[q := true][1..] == done[1..];
    } else {
      ClaimCounts(done[1..], q - 1);
      assert done[q := true][1..] == done[1..][q - 1 := true];
    }
  }

  /** Every step of an unfinished tasklet lowers the rank: each cycle walk, and so each run, comes to an end. */
  lemma EveryStepCounts<T>(s: State<T>, t: nat, job: Job)
    requires Sized(s, job) && t < |s.pc| && !s.pc[t].Finished?
    ensures Rank(Step(s, t, job), job) < Rank(s, job)
  {
    hide Rank;
    var s' := Step(s, t, job);
    assert PcSized(s.pc[t], job);
    Ranks.TotalUpdate(s.pc, Left(job.m), t, s'.pc[t]);
    assert s'.pc == s.pc[t := s'.pc[t]];
    if s.pc[t].Follow? {
      ClaimCounts(s.done, s.pc[t].next);
    }
    RankDrops(s, s', job);
  }

  lemma RankDrops<T>(s: State<T>, s': State<T>, job: Job)
    requires var before, after := Unclaimed(s.done) + Unfetched(s, job), Unclaimed(s'.done) + Unfetched(s', job);
             || (after == before && AllStepsLeft(s'.pc, job.m) < AllStepsLeft(s.pc, job.m))
             || (after == before - 1 && AllStepsLeft(s'.pc, job.m) < AllStepsLeft(s.pc, job.m) + 2 * job.m + 3)
    ensures Rank(s', job) < Rank(s, job)
  {
    hide Unclaimed, Unfetched, AllStepsLeft;
    Lexicographic(2 * job.m + 3, Unclaimed(s.done) + Unfetched(s, job), Unclaimed(s'.done) + Unfetched(s', job),
                  AllStepsLeft(s.pc, job.m), AllStepsLeft(s'.pc, job.m));
  }

  lemma Lexicographic(c: nat, before: nat, after: nat, steps: nat, steps': nat)
    requires (after == before && steps' < steps) || (after == before - 1 && steps' < steps + c)
    ensures c * after + steps' < c * before + steps
  {
    assert c * (after + 1) == c * after + c;
  }

  /** So a run in which only unfinished tasklets step is no longer than the rank of its first state. */
  lemma {:induction false} RunsEnd<T>(states: seq<State<T>>, who: seq<nat>, job: Job, orig: seq<Tile<T>>, a: nat)
    requires Run(states, who, job, orig) && a <= |who|
    requires forall b :: 0 <= b < |who| ==> !states[b].pc[who[b]].Finished?
    ensures a + Rank(states[a], job) <= Rank(states[0], job)
    decreases a
  {
    if a > 0 {
      RunsEnd(states, who, job, orig, a - 1);
      EveryStepCounts(states[a - 1], who[a - 1], job);
    }
  }
}
