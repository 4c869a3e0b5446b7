/**
 * Breadth-first search of src/BFS/main.c on one DPU that holds the whole graph: every
 * interleaving of the tasklets inside the two barrier-separated phases of a round, over
 * any number of rounds, against the distance from the sources. A bitmap word is loaded
 * and stored whole, so the read-modify-write of nextFrontier takes two steps.
 */
module Bfs {
  import Shares
  import Words
  import Ranks

  type Word64 = w: seq<bool> | |w| == 64 witness seq(64, _ => false)

  /** Node u's neighbours are neighborIdxs[Lo(u)..Hi(u)]. */
  datatype Graph = Graph(tiles: nat, nodePtrs: seq<nat>, offset: nat, neighborIdxs: seq<nat>)
  {
    ghost predicate Valid()
    {
      && |nodePtrs| == 64 * tiles + 1
      && (forall u :: 0 <= u < |nodePtrs| ==> offset <= nodePtrs[u] <= offset + |neighborIdxs|)
      && (forall i :: 0 <= i < |neighborIdxs| ==> neighborIdxs[i] < 64 * tiles)
    }

    ghost function Lo(u: nat): (i: nat)
      requires Valid() && u < 64 * tiles
      ensures i <= |neighborIdxs|
    {
      nodePtrs[u] - offset
    }

    ghost function Hi(u: nat): (i: nat)
      requires Valid() && u < 64 * tiles
      ensures i <= |neighborIdxs|
    {
      nodePtrs[u + 1] - offset
    }

    ghost function Target(i: nat): (v: nat)
      requires Valid() && i < |neighborIdxs|
      ensures v < 64 * tiles
    {
      neighborIdxs[i]
    }

    /** Entry i of neighborIdxs is an edge from u to v: nodePtrs, less the offset, has i in u's share. */
    ghost predicate EdgeAt(u: nat, i: nat, v: nat)
      requires Valid()
    {
      u < 64 * tiles && nodePtrs[u] <= offset + i < nodePtrs[u + 1] && neighborIdxs[i] == v
    }

    ghost predicate HasEdge(u: nat, v: nat)
      requires Valid()
    {
      exists i: nat :: EdgeAt(u, i, v)
    }
  }

  /** startLevel, oldLevels: the level of the first round and the levels before it. */
  datatype Job = Job(g: Graph, tasklets: nat, sources: set<nat>, startLevel: nat, oldLevels: seq<nat>)
  {
    ghost predicate Valid()
    {
      g.Valid() && tasklets > 0 && |oldLevels| == 64 * g.tiles
    }

    function Nodes(): nat { 64 * g.tiles }

    function Per(): nat
      requires tasklets > 0
    {
      (Nodes() + tasklets - 1) / tasklets
    }

    function First(t: nat): nat
      requires tasklets > 0
    {
      t * Per()
    }

    function Last(t: nat): (n: nat)
      requires tasklets > 0
    {
      First(t) +
      if First(t) >= Nodes() then 0
      else if First(t) + Per() > Nodes() then Nodes() - First(t)
      else Per()
    }
  }

  /** The loop over a node's entries meets exactly its edges. */
  lemma LoopMeetsEdges(g: Graph, u: nat, i: nat, v: nat)
    requires g.Valid() && u < 64 * g.tiles
    ensures g.EdgeAt(u, i, v) <==> g.Lo(u) <= i < g.Hi(u) && g.Target(i) == v
  {
  }

  // ----- distance -----

  ghost predicate Walk(job: Job, p: seq<nat>)
    requires job.Valid()
  {
    && |p| > 0 && p[0] in job.sources
    && forall i: nat, j: nat :: i < j < |p| && j == i + 1 ==> job.g.HasEdge(p[i], p[j])
  }

  ghost predicate WalkTo(job: Job, p: seq<nat>, v: nat)
    requires job.Valid()
  {
    Walk(job, p) && p[|p| - 1] == v
  }

  /** The distance from the sources to v is less than n: some walk of at most n nodes ends there. */
  ghost predicate Nearer(job: Job, v: nat, n: nat)
    requires job.Valid()
  {
    exists p: seq<nat> :: WalkTo(job, p, v) && |p| <= n
  }

  /** The distance from the sources to v is d. */
  ghost predicate Distance(job: Job, v: nat, d: nat)
    requires job.Valid()
  {
    Nearer(job, v, d + 1) && !Nearer(job, v, d)
  }

  lemma NearerMonotone(job: Job, v: nat, n: nat, m: nat)
    requires job.Valid() && n <= m && Nearer(job, v, n)
    ensures Nearer(job, v, m)
  {
  }

  lemma DistanceUnique(job: Job, v: nat, d: nat, e: nat)
    requires job.Valid() && Distance(job, v, d) && Distance(job, v, e)
    ensures d == e
  {
    NoSecondDistance(job, v, d, e);
    NoSecondDistance(job, v, e, d);
  }

  lemma NoSecondDistance(job: Job, v: nat, d: nat, e: nat)
    requires job.Valid()
    ensures d < e && Distance(job, v, d) ==> !Distance(job, v, e)
  {
    if d < e && Nearer(job, v, d + 1) {
      NearerMonotone(job, v, d + 1, e);
    }
  }

  lemma OnlySourcesAtZero(job: Job, v: nat)
    requires job.Valid()
    ensures !Nearer(job, v, 0)
    ensures Distance(job, v, 0) <==> v in job.sources
  {
    if v in job.sources {
      assert WalkTo(job, [v], v);
    }
  }

  lemma EdgeExtends(job: Job, u: nat, v: nat, n: nat)
    requires job.Valid() && Nearer(job, u, n) && job.g.HasEdge(u, v)
    ensures Nearer(job, v, n + 1)
  {
    var p :| WalkTo(job, p, u) && |p| <= n;
    assert WalkTo(job, p + [v], v);
  }

  /** A node at distance d + 1 has a predecessor at distance d. */
  lemma Predecessor(job: Job, v: nat, d: nat) returns (u: nat)
    requires job.Valid() && Distance(job, v, d + 1)
    ensures Distance(job, u, d) && job.g.HasEdge(u, v)
  {
    var p :| WalkTo(job, p, v) && |p| <= d + 2;
    assert |p| > d + 1;
    ghost var q := p[..|p| - 1];
    u := q[|q| - 1];
    assert job.g.HasEdge(p[|p| - 2], p[|p| - 1]);
    assert WalkTo(job, q, u);
    if Nearer(job, u, d) {
      EdgeExtends(job, u, v, d);
    }
  }

  lemma EdgeFromDistance(job: Job, u: nat, v: nat, d: nat)
    requires job.Valid() && Distance(job, u, d) && job.g.HasEdge(u, v)
    ensures Nearer(job, v, d + 1) || Distance(job, v, d + 1)
  {
    EdgeExtends(job, u, v, d + 1);
  }

  /** When no node is at distance n, none is at any greater distance. */
  lemma {:induction false} NoneBeyond(job: Job, v: nat, n: nat, m: nat)
    requires job.Valid() && n <= m && forall w: nat :: !Distance(job, w, n)
    ensures !Distance(job, v, m)
    decreases m
  {
    if n < m && Distance(job, v, m) {
      var u := Predecessor(job, v, m - 1);
      NoneBeyond(job, u, n, m - 1);
    }
  }

  lemma {:induction false} NothingFurther(job: Job, v: nat, n: nat, m: nat)
    requires job.Valid() && n <= m && Nearer(job, v, m)
    requires forall w: nat :: !Distance(job, w, n)
    ensures Nearer(job, v, n)
    decreases m
  {
    if n < m {
      NoneBeyond(job, v, n, m - 1);
      NothingFurther(job, v, n, m - 1);
    }
  }

  // ----- the state and its steps -----

  datatype Pc =
    | Merge(tile: nat)                            // first phase: about to merge this tile
    | Merged                                      // at the first barrier
    | Look(node: nat)                             // second phase: about to test this node's frontier bit
    | Edge(node: nat, i: nat)                     // about to test the neighbour in entry i
    | Want(node: nat, i: nat)                     // about to lock the mutex
    | Held(node: nat, i: nat, nft: Word64)        // has locked it and loaded the neighbour's word
    | Finished                                    // at the second barrier

  datatype Lock = Free | By(tasklet: nat)

  datatype State = State(pcs: seq<Pc>, lock: Lock, level: nat, visited: seq<Word64>, current: seq<Word64>,
                         next: seq<Word64>, levels: seq<nat>)

  predicate Bit(words: seq<Word64>, v: nat)
    requires v < 64 * |words|
  {
    words[v / 64][v % 64]
  }

  function Zero(): Word64 { seq(64, _ => false) }

  function Or(a: Word64, b: Word64): Word64 { seq(64, i requires 0 <= i < 64 => a[i] || b[i]) }

  ghost predicate PcSized(job: Job, t: nat, pc: Pc)
    requires job.Valid()
  {
    match pc
    case Look(node) => job.First(t) <= node
    case Edge(node, i) => job.First(t) <= node < job.Nodes() && job.g.Lo(node) <= i
    case Want(node, i) => job.First(t) <= node < job.Nodes() && job.g.Lo(node) <= i < job.g.Hi(node)
    case Held(node, i, _) => job.First(t) <= node < job.Nodes() && job.g.Lo(node) <= i < job.g.Hi(node)
    case _ => true
  }

  ghost predicate Sized(job: Job, s: State)
  {
    && job.Valid() && |s.pcs| == job.tasklets
    && |s.visited| == |s.current| == |s.next| == job.g.tiles && |s.levels| == job.Nodes()
    && forall t :: 0 <= t < |s.pcs| ==> PcSized(job, t, s.pcs[t])
  }

  ghost predicate Init(job: Job, s: State)
  {
    && Sized(job, s) && s.lock == Free && s.level == job.startLevel && s.levels == job.oldLevels
    && (forall t :: 0 <= t < |s.pcs| ==> s.pcs[t] == Merge(t))
    && (forall v: nat :: v < job.Nodes() ==> !Bit(s.visited, v))
    && (forall v: nat :: v < job.Nodes() ==> (Bit(s.next, v) <==> v in job.sources))
  }

  function SetLevels(levels: seq<nat>, tile: nat, nf: Word64, level: nat): (r: seq<nat>)
    ensures |r| == |levels|
  {
    seq(|levels|, v requires 0 <= v < |levels| => if v / 64 == tile && nf[v % 64] then level else levels[v])
  }

  ghost predicate Enabled(s: State, t: nat)
  {
    && t < |s.pcs| && !s.pcs[t].Merged? && !s.pcs[t].Finished?
    && (s.pcs[t].Want? ==> s.lock == Free)
  }

  ghost function NextPc(job: Job, s: State, t: nat): (pc: Pc)
    requires Sized(job, s) && Enabled(s, t)
    ensures PcSized(job, t, pc)
  {
    assert PcSized(job, t, s.pcs[t]);
    match s.pcs[t]
    case Merge(tile) => if tile < job.g.tiles then Merge(tile + job.tasklets) else Merged
    case Look(node) =>
      if node >= job.Last(t) then Finished
      else
        LastInside(job, t);
        if Bit(s.current, node) then Edge(node, job.g.Lo(node)) else Look(node + 1)
    case Edge(node, i) =>
      if i >= job.g.Hi(node) then Look(node + 1)
      else if Bit(s.visited, job.g.Target(i)) then Edge(node, i + 1)
      else Want(node, i)
    case Want(node, i) => Held(node, i, s.next[job.g.Target(i) / 64])
    case Held(node, i, nft) => Edge(node, i + 1)
    case _ => Finished
  }

  function Replaced(words: seq<Word64>, tile: nat, w: Word64): (r: seq<Word64>)
    requires tile < |words|
    ensures |r| == |words|
  {
    words[tile := w]
  }

  /** Move a nonzero frontier word into visited, and record it as current with its nodes' levels. */
  function MergeTile(s: State, tile: nat, nf: Word64): State
    requires tile < |s.visited| == |s.current| == |s.next|
  {
    State(s.pcs, s.lock, s.level,
          if nf == Zero() then s.visited else Replaced(s.visited, tile, Or(s.visited[tile], nf)),
          Replaced(s.current, tile, nf),
          if nf == Zero() then s.next else Replaced(s.next, tile, Zero()),
          SetLevels(s.levels, tile, nf, s.level))
  }

  /**
   * The next step of tasklet t. A tile of the first phase is touched by its own tasklet only,
   * so merging it is one step.
   */
  ghost function Step(job: Job, s: State, t: nat): (s': State)
    requires Sized(job, s) && Enabled(s, t)
    ensures Sized(job, s')
  {
    assert PcSized(job, t, s.pcs[t]);
    var s' := s.(pcs := s.pcs[t := NextPc(job, s, t)]);
    match s.pcs[t]
    case Merge(tile) =>
      if tile < job.g.tiles then MergeTile(s', tile, s.next[tile]) else s'
    case Want(_, _) => s'.(lock := By(t))
    case Held(_, i, nft) =>
      var nb := job.g.Target(i);
      s'.(lock := Free, next := Replaced(s.next, nb / 64, Or(nft, Single(nb % 64))))
    case _ => s'
  }

  /** The word with bit i alone. */
  function Single(i: nat): Word64 { seq(64, k requires 0 <= k < 64 => k == i) }

  predicate AllMerged(s: State) { forall t :: 0 <= t < |s.pcs| ==> s.pcs[t].Merged? }

  predicate AllFinished(s: State) { forall t :: 0 <= t < |s.pcs| ==> s.pcs[t].Finished? }

  function LookAll(job: Job): (pcs: seq<Pc>)
    requires job.tasklets > 0
  {
    seq(job.tasklets, t requires 0 <= t < job.tasklets => Look(job.First(t)))
  }

  function MergeAll(tasklets: nat): (pcs: seq<Pc>)
  {
    seq(tasklets, t requires 0 <= t < tasklets => Merge(t))
  }

  /** The first barrier opens. */
  ghost function Expand(job: Job, s: State): State
    requires Sized(job, s)
  {
    s.(pcs := LookAll(job))
  }

  /** The second barrier opens and the host starts the next round, one level up. */
  ghost function NextRound(job: Job, s: State): State
    requires Sized(job, s)
  {
    s.(pcs := MergeAll(job.tasklets), level := s.level + 1)
  }

  lemma LastInside(job: Job, t: nat)
    requires job.Valid()
    ensures job.First(t) <= job.Last(t) && (job.First(t) < job.Last(t) ==> job.Last(t) <= job.Nodes())
  {
    hide Job.Per;
  }

  lemma NodesShared(job: Job, u: nat) returns (t: nat)
    requires job.Valid() && u < job.Nodes()
    ensures t < job.tasklets && job.First(t) <= u < job.Last(t)
    ensures forall v: nat :: v < job.tasklets && job.First(v) <= u < job.Last(v) ==> v == t
  {
    var n := job.Nodes();
    var q := Shares.QuotientBounds(n + job.tasklets - 1, job.tasklets);
    assert job.Per() == q && q * job.tasklets > n - 1;
    Shares.Nonzero(q, job.tasklets);
    t := Shares.Owner(n, q, job.tasklets, u);
    assert job.First(t) == t * q;
    forall v: nat | v < job.tasklets && job.First(v) <= u < job.Last(v) ensures v == t {
      assert job.Last(v) <= job.First(v) + q;
      assert Shares.InShare(q, v, u);
    }
  }

  // ----- the invariant -----

  predicate InFirst(pc: Pc) { pc.Merge? || pc.Merged? }

  /** The frontier of this tile has been merged in the current round. */
  predicate TileMerged(pc: Pc, tile: nat) { pc.Merge? ==> tile < pc.tile }

  /** Edge i of node u has been followed. */
  predicate Passed(pc: Pc, u: nat, i: nat)
  {
    match pc
    case Look(node) => u < node
    case Edge(node, j) => u < node || (u == node && i < j)
    case Want(node, j) => u < node || (u == node && i < j)
    case Held(node, j, _) => u < node || (u == node && i < j)
    case Finished => true
    case _ => false
  }

  /** Node v is visited, with its distance in its level, if it is nearer than n, and untouched otherwise. */
  ghost predicate Settled(job: Job, s: State, v: nat, n: nat)
    requires Sized(job, s) && v < job.Nodes()
  {
    && (Bit(s.visited, v) <==> Nearer(job, v, n))
    && (if Nearer(job, v, n) then s.levels[v] >= job.startLevel && Distance(job, v, s.levels[v] - job.startLevel)
        else s.levels[v] == job.oldLevels[v])
  }

  ghost predicate NodeInv(job: Job, s: State, v: nat, k: nat)
    requires Sized(job, s) && v < job.Nodes()
  {
    if TileMerged(s.pcs[v / 64 % job.tasklets], v / 64) then
      && Settled(job, s, v, k + 1)
      && (Bit(s.current, v) <==> Distance(job, v, k))
      && (Bit(s.next, v) ==> Distance(job, v, k + 1))
    else
      Settled(job, s, v, k) && (Bit(s.next, v) <==> Distance(job, v, k))
  }

  ghost predicate TaskletInv(job: Job, s: State, t: nat, k: nat)
    requires Sized(job, s) && t < |s.pcs|
  {
    assert PcSized(job, t, s.pcs[t]);
    match s.pcs[t]
    case Merge(tile) => tile % job.tasklets == t
    case Edge(node, i) => Distance(job, node, k)
    case Want(node, i) => Distance(job, node, k) && !Nearer(job, job.g.Target(i), k + 1)
    case Held(node, i, nft) =>
      && Distance(job, node, k) && !Nearer(job, job.g.Target(i), k + 1)
      && s.lock == By(t) && nft == s.next[job.g.Target(i) / 64]
    case _ => true
  }

  /** A followed edge out of the current frontier has its end visited or in the next frontier. */
  ghost predicate EdgeInv(job: Job, s: State, t: nat, u: nat, i: nat, k: nat)
    requires Sized(job, s) && t < |s.pcs| && u < job.Nodes() && job.g.Lo(u) <= i < job.g.Hi(u)
  {
    job.First(t) <= u < job.Last(t) && Passed(s.pcs[t], u, i) && Distance(job, u, k) ==>
      Nearer(job, job.g.Target(i), k + 1) || Bit(s.next, job.g.Target(i))
  }

  ghost predicate NodesInv(job: Job, s: State, k: nat)
    requires Sized(job, s)
  {
    forall v: nat :: v < job.Nodes() ==> NodeInv(job, s, v, k)
  }

  ghost predicate TaskletsInv(job: Job, s: State, k: nat)
    requires Sized(job, s)
  {
    forall t: nat :: t < |s.pcs| ==> TaskletInv(job, s, t, k)
  }

  ghost predicate EdgesInv(job: Job, s: State, k: nat)
    requires Sized(job, s)
  {
    forall t: nat, u: nat, i: nat :: t < |s.pcs| && u < job.Nodes() && job.g.Lo(u) <= i < job.g.Hi(u) ==>
      EdgeInv(job, s, t, u, i, k)
  }

  predicate SamePhase(s: State)
  {
    forall t: nat, u: nat :: t < |s.pcs| && u < |s.pcs| ==> (InFirst(s.pcs[t]) <==> InFirst(s.pcs[u]))
  }

  predicate LockInv(s: State)
  {
    s.lock.By? ==> s.lock.tasklet < |s.pcs| && s.pcs[s.lock.tasklet].Held?
  }

  ghost predicate Inv(job: Job, s: State)
  {
    && Sized(job, s) && s.level >= job.startLevel && SamePhase(s) && LockInv(s)
    && NodesInv(job, s, s.level - job.startLevel)
    && TaskletsInv(job, s, s.level - job.startLevel)
    && EdgesInv(job, s, s.level - job.startLevel)
  }

  lemma TileStart(job: Job, v: nat)
    requires job.tasklets > 0
    ensures !TileMerged(Merge(v / 64 % job.tasklets), v / 64)
  {
    Shares.RemainderSmall(v / 64, job.tasklets);
  }

  lemma InitInv(job: Job, s: State)
    requires Init(job, s)
    ensures Inv(job, s)
  {
    forall v: nat | v < job.Nodes() ensures NodeInv(job, s, v, 0) {
      OnlySourcesAtZero(job, v);
      TileStart(job, v);
    }
    forall t: nat | t < |s.pcs| ensures TaskletInv(job, s, t, 0) {
    }
  }

  // ----- the first phase -----

  lemma MergeKeepsNode(job: Job, s: State, a: nat, v: nat, k: nat)
    requires Sized(job, s) && Enabled(s, a) && InFirst(s.pcs[a]) && TaskletInv(job, s, a, k)
    requires v < job.Nodes() && s.level == job.startLevel + k && NodeInv(job, s, v, k)
    ensures NodeInv(job, Step(job, s, a), v, k)
  {
    var s', x, y := Step(job, s, a), s.pcs[a].tile, v / 64;
    hide Nearer, Distance;
    if y % job.tasklets == a {
      Shares.NextOfTasklet(job.tasklets, y, x);
    }
    if y == x {
      DistanceMeans(job, v, k);
    }
  }

  lemma DistanceMeans(job: Job, v: nat, k: nat)
    requires job.Valid()
    ensures Nearer(job, v, k + 1) <==> Nearer(job, v, k) || Distance(job, v, k)
  {
    if Nearer(job, v, k) {
      NearerMonotone(job, v, k, k + 1);
    }
  }

  // ----- the second phase -----

  /** Between the barriers only nextFrontier changes, and it changes by single bits set. */
  lemma ExpandEffect(job: Job, s: State, a: nat, v: nat, k: nat)
    requires Sized(job, s) && Enabled(s, a) && !InFirst(s.pcs[a]) && TaskletInv(job, s, a, k) && v < job.Nodes()
    ensures var s' := Step(job, s, a);
            && s'.visited == s.visited && s'.current == s.current && s'.levels == s.levels && s'.level == s.level
            && (Bit(s'.next, v) <==> Bit(s.next, v) || (s.pcs[a].Held? && v == job.g.Target(s.pcs[a].i)))
            && !InFirst(s'.pcs[a])
  {
    hide Distance, Nearer;
    assert PcSized(job, a, s.pcs[a]);
    if s.pcs[a].Held? {
      SameBit(v, job.g.Target(s.pcs[a].i));
    }
  }

  lemma SameBit(v: nat, w: nat)
    ensures v / 64 == w / 64 && v % 64 == w % 64 <==> v == w
  {
  }

  lemma ExpandKeepsNode(job: Job, s: State, a: nat, v: nat, k: nat)
    requires Sized(job, s) && Enabled(s, a) && !InFirst(s.pcs[a]) && SamePhase(s) && TaskletInv(job, s, a, k)
    requires v < job.Nodes() && NodeInv(job, s, v, k)
    ensures NodeInv(job, Step(job, s, a), v, k)
  {
    var s' := Step(job, s, a);
    ExpandEffect(job, s, a, v, k);
    assert PcSized(job, a, s.pcs[a]);
    assert !InFirst(s.pcs[v / 64 % job.tasklets]);
    if s.pcs[a].Held? && v == job.g.Target(s.pcs[a].i) {
      assert job.g.EdgeAt(s.pcs[a].node, s.pcs[a].i, v);
      EdgeFromDistance(job, s.pcs[a].node, v, k);
    }
    hide Distance, Nearer, Step, NextPc;
    assert s'.pcs == s.pcs[a := s'.pcs[a]] by { StepPcs(job, s, a); }
  }

  lemma StepPcs(job: Job, s: State, a: nat)
    requires Sized(job, s) && Enabled(s, a)
    ensures Step(job, s, a).pcs == s.pcs[a := NextPc(job, s, a)] && Step(job, s, a).level == s.level
  {
  }

  lemma OwnStepKeepsTasklet(job: Job, s: State, t: nat, k: nat)
    requires Sized(job, s) && Enabled(s, t) && SamePhase(s) && NodesInv(job, s, k) && TaskletInv(job, s, t, k)
    ensures TaskletInv(job, Step(job, s, t), t, k)
  {
    hide Distance, Nearer;
    assert PcSized(job, t, s.pcs[t]);
    var s' := Step(job, s, t);
    match s.pcs[t]
    case Merge(tile) =>
      Shares.RemainderOfNext(tile, job.tasklets);
    case Look(node) =>
      LastInside(job, t);
      if node < job.Last(t) {
        assert NodeInv(job, s, node, k);
      }
    case Edge(node, i) =>
      if i < job.g.Hi(node) {
        assert NodeInv(job, s, job.g.Target(i), k);
      }
    case _ =>
  }

  lemma OtherStepKeepsTasklet(job: Job, s: State, a: nat, t: nat, k: nat)
    requires Sized(job, s) && Enabled(s, a) && SamePhase(s) && LockInv(s) && t < |s.pcs| && t != a
    requires TaskletInv(job, s, t, k) && TaskletInv(job, s, a, k)
    ensures TaskletInv(job, Step(job, s, a), t, k)
  {
    hide Distance, Nearer;
    assert PcSized(job, t, s.pcs[t]) && PcSized(job, a, s.pcs[a]);
    StepPcs(job, s, a);
  }

  lemma OwnStepKeepsEdge(job: Job, s: State, t: nat, u: nat, i: nat, k: nat)
    requires Sized(job, s) && Enabled(s, t) && SamePhase(s) && !InFirst(s.pcs[t]) && TaskletInv(job, s, t, k)
    requires NodesInv(job, s, k)
    requires u < job.Nodes() && job.g.Lo(u) <= i < job.g.Hi(u) && EdgeInv(job, s, t, u, i, k)
    ensures EdgeInv(job, Step(job, s, t), t, u, i, k)
  {
    hide Distance, Nearer;
    assert PcSized(job, t, s.pcs[t]);
    ExpandEffect(job, s, t, job.g.Target(i), k);
    StepPcs(job, s, t);
    assert NodeInv(job, s, u, k) && NodeInv(job, s, job.g.Target(i), k);
  }

  lemma OtherStepKeepsEdge(job: Job, s: State, a: nat, t: nat, u: nat, i: nat, k: nat)
    requires Sized(job, s) && Enabled(s, a) && !InFirst(s.pcs[a]) && TaskletInv(job, s, a, k) && t < |s.pcs| && t != a
    requires u < job.Nodes() && job.g.Lo(u) <= i < job.g.Hi(u) && EdgeInv(job, s, t, u, i, k)
    ensures EdgeInv(job, Step(job, s, a), t, u, i, k)
  {
    ExpandEffect(job, s, a, job.g.Target(i), k);
    StepPcs(job, s, a);
  }

  /** Before the first barrier no edge has been followed. */
  lemma FirstPhaseEdges(job: Job, s: State, k: nat)
    requires Sized(job, s) && forall t: nat :: t < |s.pcs| ==> InFirst(s.pcs[t])
    ensures EdgesInv(job, s, k)
  {
  }

  lemma StepKeepsPhaseAndLock(job: Job, s: State, a: nat, k: nat)
    requires Sized(job, s) && Enabled(s, a) && SamePhase(s) && LockInv(s) && TaskletInv(job, s, a, k)
    ensures SamePhase(Step(job, s, a)) && LockInv(Step(job, s, a))
    ensures InFirst(s.pcs[a]) <==> InFirst(Step(job, s, a).pcs[a])
  {
    StepPcs(job, s, a);
    assert InFirst(NextPc(job, s, a)) <==> InFirst(s.pcs[a]);
  }

  lemma StepKeepsEdges(job: Job, s: State, a: nat)
    requires Inv(job, s) && Enabled(s, a)
    ensures EdgesInv(job, Step(job, s, a), s.level - job.startLevel)
  {
    hide EdgeInv, NodeInv, TaskletInv, Distance, Nearer, Step, NextPc;
    var s', k := Step(job, s, a), s.level - job.startLevel;
    StepPcs(job, s, a);
    StepKeepsPhaseAndLock(job, s, a, k);
    if InFirst(s.pcs[a]) {
      assert InFirst(s'.pcs[a]);
      FirstPhaseEdges(job, s', k);
    } else {
      forall t: nat, u: nat, i: nat | t < |s.pcs| && u < job.Nodes() && job.g.Lo(u) <= i < job.g.Hi(u)
        ensures EdgeInv(job, s', t, u, i, k)
      {
        assert EdgeInv(job, s, t, u, i, k);
        if t == a {
          OwnStepKeepsEdge(job, s, t, u, i, k);
        } else {
          OtherStepKeepsEdge(job, s, a, t, u, i, k);
        }
      }
    }
  }

  lemma StepKeepsInv(job: Job, s: State, a: nat)
    requires Inv(job, s) && Enabled(s, a)
    ensures Inv(job, Step(job, s, a))
  {
    var s', k := Step(job, s, a), s.level - job.startLevel;
    StepKeepsEdges(job, s, a);
    hide EdgesInv, NodeInv, TaskletInv, Distance, Nearer, Step, NextPc;
    StepPcs(job, s, a);
    StepKeepsPhaseAndLock(job, s, a, k);
    forall v: nat | v < job.Nodes() ensures NodeInv(job, s', v, k) {
      if InFirst(s.pcs[a]) {
        MergeKeepsNode(job, s, a, v, k);
      } else {
        ExpandKeepsNode(job, s, a, v, k);
      }
    }
    forall t: nat | t < |s.pcs| ensures TaskletInv(job, s', t, k) {
      if t == a {
        OwnStepKeepsTasklet(job, s, t, k);
      } else {
        OtherStepKeepsTasklet(job, s, a, t, k);
      }
    }
  }

  // ----- the barriers -----

  lemma ExpandKeepsInv(job: Job, s: State)
    requires Inv(job, s) && AllMerged(s)
    ensures Inv(job, Expand(job, s))
  {
    hide Distance, Nearer;
    var s', k := Expand(job, s), s.level - job.startLevel;
    forall v: nat | v < job.Nodes() ensures NodeInv(job, s', v, k) {
      assert NodeInv(job, s, v, k);
    }
    forall t: nat, u: nat, i: nat | t < |s.pcs| && u < job.Nodes() && job.g.Lo(u) <= i < job.g.Hi(u)
      ensures EdgeInv(job, s', t, u, i, k)
    {
    }
  }

  /** Once every tasklet is done the next frontier is exactly the next distance. */
  lemma FrontierComplete(job: Job, s: State, v: nat)
    requires Inv(job, s) && AllFinished(s) && v < job.Nodes()
    ensures Bit(s.next, v) <==> Distance(job, v, s.level - job.startLevel + 1)
    ensures Settled(job, s, v, s.level - job.startLevel + 1)
  {
    var k := s.level - job.startLevel;
    assert NodeInv(job, s, v, k);
    if Distance(job, v, k + 1) {
      var u := Predecessor(job, v, k);
      var i: nat :| job.g.EdgeAt(u, i, v);
      var t := NodesShared(job, u);
      assert EdgeInv(job, s, t, u, i, k);
    }
  }

  lemma NextRoundKeepsInv(job: Job, s: State)
    requires Inv(job, s) && AllFinished(s)
    ensures Inv(job, NextRound(job, s))
  {
    hide Distance, Nearer;
    var s', k := NextRound(job, s), s.level - job.startLevel + 1;
    forall v: nat | v < job.Nodes() ensures NodeInv(job, s', v, k) {
      NextRoundKeepsNode(job, s, v);
    }
    FirstPhaseEdges(job, s', k);
    forall t: nat | t < |s'.pcs| ensures TaskletInv(job, s', t, k) {
      Words.ModUnique(t, job.tasklets, 0, t);
    }
    hide NodeInv, TaskletInv, EdgesInv;
  }

  lemma NextRoundKeepsNode(job: Job, s: State, v: nat)
    requires Inv(job, s) && AllFinished(s) && v < job.Nodes()
    ensures NodeInv(job, NextRound(job, s), v, s.level - job.startLevel + 1)
  {
    hide Distance, Nearer;
    FrontierComplete(job, s, v);
    TileStart(job, v);
    var t := v / 64 % job.tasklets;
    assert t < job.tasklets && MergeAll(job.tasklets)[t] == Merge(t);
    hide Inv, TileMerged, MergeAll;
  }

  // ----- runs -----

  datatype Action = Tasklet(t: nat) | FirstBarrier | SecondBarrier

  ghost predicate Possible(job: Job, s: State, a: Action)
  {
    match a
    case Tasklet(t) => Enabled(s, t)
    case FirstBarrier => AllMerged(s)
    case SecondBarrier => AllFinished(s)
  }

  ghost function Act(job: Job, s: State, a: Action): State
    requires Sized(job, s) && Possible(job, s, a)
  {
    match a
    case Tasklet(t) => Step(job, s, t)
    case FirstBarrier => Expand(job, s)
    case SecondBarrier => NextRound(job, s)
  }

  ghost predicate Run(job: Job, states: seq<State>, acts: seq<Action>)
  {
    && |states| == |acts| + 1 && Init(job, states[0])
    && forall n: nat :: n < |acts| ==>
         Sized(job, states[n]) && Possible(job, states[n], acts[n]) && states[n + 1] == Act(job, states[n], acts[n])
  }

  lemma {:induction false} RunKeepsInv(job: Job, states: seq<State>, acts: seq<Action>, n: nat)
    requires Run(job, states, acts) && n <= |acts|
    ensures Inv(job, states[n])
    decreases n
  {
    hide Inv, Step, Init;
    if n == 0 {
      InitInv(job, states[0]);
    } else {
      RunKeepsInv(job, states, acts, n - 1);
      var s := states[n - 1];
      match acts[n - 1]
      case Tasklet(t) => StepKeepsInv(job, s, t);
      case FirstBarrier => ExpandKeepsInv(job, s);
      case SecondBarrier => NextRoundKeepsInv(job, s);
    }
  }

  /**
   * At the end of round k (the level has risen k times) visited is the set of nodes at
   * distance at most k, nextFrontier is the set at distance k + 1, and the level of each
   * visited node is the start level plus its distance.
   */
  lemma RoundComputesDistances(job: Job, states: seq<State>, acts: seq<Action>, n: nat, v: nat)
    requires Run(job, states, acts) && n <= |acts| && AllFinished(states[n]) && v < job.Nodes()
    ensures var s, k := states[n], states[n].level - job.startLevel;
            && k >= 0 && Sized(job, s)
            && (Bit(s.visited, v) <==> Nearer(job, v, k + 1))
            && (Bit(s.next, v) <==> Distance(job, v, k + 1))
            && (forall d: nat :: d <= k && Distance(job, v, d) ==> s.levels[v] == job.startLevel + d)
            && (!Nearer(job, v, k + 1) ==> s.levels[v] == job.oldLevels[v])
  {
    var s, k := states[n], states[n].level - job.startLevel;
    RunKeepsInv(job, states, acts, n);
    FrontierComplete(job, s, v);
    forall d: nat | d <= k && Distance(job, v, d) ensures s.levels[v] == job.startLevel + d {
      NearerMonotone(job, v, d + 1, k + 1);
      DistanceUnique(job, v, d, s.levels[v] - job.startLevel);
    }
  }

  /** When the next frontier is empty the search is complete: every reachable node has its distance. */
  lemma EmptyFrontierEndsSearch(job: Job, states: seq<State>, acts: seq<Action>, n: nat, v: nat, d: nat)
    requires Run(job, states, acts) && n <= |acts| && AllFinished(states[n]) && v < job.Nodes()
    requires Sized(job, states[n]) && (forall w: nat :: w < job.Nodes() ==> !Bit(states[n].next, w))
    requires Distance(job, v, d) && forall w :: w in job.sources ==> w < job.Nodes()
    ensures Bit(states[n].visited, v) && states[n].levels[v] == job.startLevel + d
  {
    var s, k := states[n], states[n].level - job.startLevel;
    RunKeepsInv(job, states, acts, n);
    var beyond := k + 1;
    forall w: nat ensures !Distance(job, w, beyond) {
      if Distance(job, w, beyond) {
        var u := Predecessor(job, w, k);
        var i: nat :| job.g.EdgeAt(u, i, w);
        FrontierComplete(job, s, w);
      }
    }
    if d > k {
      NoneBeyond(job, v, beyond, d);
    } else {
      NearerMonotone(job, v, d + 1, k + 1);
      RoundComputesDistances(job, states, acts, n, v);
    }
  }

  /** Some action is always possible. */
  lemma NoDeadlock(job: Job, s: State) returns (a: Action)
    requires Inv(job, s)
    ensures Possible(job, s, a)
  {
    if AllMerged(s) {
      a := FirstBarrier;
    } else if AllFinished(s) {
      a := SecondBarrier;
    } else {
      var t: nat :| t < |s.pcs| && if InFirst(s.pcs[0]) then !s.pcs[t].Merged? else !s.pcs[t].Finished?;
      a := Tasklet(if s.pcs[t].Want? && s.lock.By? then s.lock.tasklet else t);
    }
  }

  // ----- termination -----

  /** Steps for the nodes after this one, each with at most all entries and three steps an entry. */
  function NodesLeft(job: Job, node: nat): nat
  {
    var after: nat, each: nat := if node < job.Nodes() then job.Nodes() - 1 - node else 0, 3 * |job.g.neighborIdxs| + 3;
    after * each
  }

  function EntriesLeft(job: Job, i: nat): nat
  {
    if i < |job.g.neighborIdxs| then 3 * (|job.g.neighborIdxs| - i) else 0
  }

  /** At least the steps a tasklet has left to the next barrier. */
  function StepsLeft(job: Job, pc: Pc): nat
  {
    match pc
    case Merge(tile) => 1 + if tile < job.g.tiles then job.g.tiles - tile else 0
    case Look(node) =>
      1 + if node < job.Nodes() then NodesLeft(job, node) + (3 * |job.g.neighborIdxs| + 3) else 0
    case Edge(node, i) => NodesLeft(job, node) + EntriesLeft(job, i) + 3
    case Want(node, i) => NodesLeft(job, node) + EntriesLeft(job, i) + 2
    case Held(node, i, _) => NodesLeft(job, node) + EntriesLeft(job, i) + 1
    case _ => 0
  }

  function Left(job: Job): Pc -> nat
  {
    pc => StepsLeft(job, pc)
  }

  function Rank(job: Job, s: State): nat
  {
    Ranks.Total(s.pcs, Left(job))
  }

  lemma NextNode(job: Job, node: nat)
    requires node + 1 < job.Nodes()
    ensures NodesLeft(job, node) == NodesLeft(job, node + 1) + (3 * |job.g.neighborIdxs| + 3)
  {
    var c := 3 * |job.g.neighborIdxs| + 3;
    var k := job.Nodes() - 1 - node;
    assert k * c == (k - 1) * c + c;
  }

  lemma PcCounts(job: Job, s: State, t: nat)
    requires Sized(job, s) && Enabled(s, t)
    ensures StepsLeft(job, NextPc(job, s, t)) < StepsLeft(job, s.pcs[t])
  {
    hide NodesLeft, Bit;
    assert PcSized(job, t, s.pcs[t]);
    match s.pcs[t]
    case Edge(node, i) =>
      if node + 1 < job.Nodes() {
        NextNode(job, node);
      }
    case Look(node) =>
      if node < job.Last(t) {
        LastInside(job, t);
      }
      if node + 1 < job.Nodes() {
        NextNode(job, node);
      }
    case _ =>
  }

  /** Every step of every tasklet brings the barrier closer, so both phases of every round end. */
  lemma EveryStepCounts(job: Job, s: State, t: nat)
    requires Sized(job, s) && Enabled(s, t)
    ensures Rank(job, Step(job, s, t)) < Rank(job, s)
  {
    PcCounts(job, s, t);
    Ranks.TotalUpdate(s.pcs, Left(job), t, NextPc(job, s, t));
    assert Step(job, s, t).pcs == s.pcs[t := NextPc(job, s, t)];
  }

  /** Between two barriers a run makes no more steps than the rank it starts from. */
  lemma {:induction false} PhasesEnd(job: Job, states: seq<State>, acts: seq<Action>, a: nat, b: nat)
    requires Run(job, states, acts) && a <= b <= |acts|
    requires forall n :: a <= n < b ==> acts[n].Tasklet?
    ensures b - a + Rank(job, states[b]) <= Rank(job, states[a])
    decreases b - a
  {
    hide Step, Init, Rank;
    if a < b {
      PhasesEnd(job, states, acts, a, b - 1);
      EveryStepCounts(job, states[b - 1], acts[b - 1].t);
    }
  }
}
