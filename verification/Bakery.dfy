/**
 * The bakery lock of src/HST-L/support/memclave_mutex.h as a step system: any
 * number of tasklets, every interleaving of single reads and writes of the
 * choosing and number words, including the non-atomic scan for the maximum.
 */
module Bakery {

  /** A ticket is a uint16_t. */
  const TICKETS: int := 0x1_0000

  /** Program counter and locals of one tasklet. */
  datatype Pc =
    | Idle                          // outside lock and unlock
    | Scan(t: nat, m: nat)          // choosing is set; number[0..t) read, their maximum is m
    | Numbered                      // number written, choosing not yet cleared
    | WaitChoosing(k: nat)          // about to read choosing[k]
    | WaitNumber(k: nat)            // choosing[k] was seen clear; about to read number[k]
    | Critical                      // between lock and unlock

  datatype State = State(choosing: seq<bool>, number: seq<nat>, my: seq<nat>, pc: seq<Pc>)

  predicate Sized(s: State, n: nat)
  {
    |s.choosing| == n && |s.number| == n && |s.my| == n && |s.pc| == n
  }

  ghost predicate Init(s: State, n: nat)
  {
    Sized(s, n) && forall i :: 0 <= i < n ==> !s.choosing[i] && s.number[i] == 0 && s.pc[i] == Idle
  }

  function Jump(s: State, i: nat, pc: Pc): State
    requires i < |s.pc|
  {
    s.(pc := s.pc[i := pc])
  }

  /** After index k of the waiting loop: the next one, or the critical section. */
  function NextIndex(k: nat, n: nat): Pc
  {
    if k + 1 < n then WaitChoosing(k + 1) else Critical
  }

  /** Must tasklet i, holding ticket my, wait for tasklet k showing ticket nk? */
  predicate MustWait(nk: nat, k: nat, my: nat, i: nat)
  {
    nk != 0 && (nk < my || (nk == my && k < i))
  }

  /** The next single read or write of tasklet i. */
  function Step(s: State, i: nat, n: nat): (s': State)
    requires Sized(s, n) && i < n
    ensures Sized(s', n)
  {
    match s.pc[i]
    case Idle => Jump(s, i, Scan(0, 0)).(choosing := s.choosing[i := true])
    case Scan(t, m) =>
      if t < n then
        Jump(s, i, Scan(t + 1, if s.number[t] > m then s.number[t] else m))
      else
        var my := (m + 1) % TICKETS;
        Jump(s, i, Numbered).(number := s.number[i := my], my := s.my[i := my])
    case Numbered => Jump(s, i, WaitChoosing(0)).(choosing := s.choosing[i := false])
    case WaitChoosing(k) =>
      if k >= n then Jump(s, i, Critical)
      else if k == i then Jump(s, i, NextIndex(k, n))
      else if s.choosing[k] then s
      else Jump(s, i, WaitNumber(k))
    case WaitNumber(k) =>
      if k < n && MustWait(s.number[k], k, s.my[i], i) then s else Jump(s, i, NextIndex(k, n))
    case Critical => Jump(s, i, Idle).(number := s.number[i := 0])
  }

  /** The step of tasklet i does not wrap a ticket round to zero. */
  predicate NoWrap(s: State, i: nat, n: nat)
    requires Sized(s, n) && i < n
  {
    s.pc[i].Scan? && s.pc[i].t >= n ==> s.pc[i].m + 1 < TICKETS
  }

  /** A run: a state before every step and one after the last, each step taken by some tasklet. */
  ghost predicate Run(states: seq<State>, who: seq<nat>, n: nat)
  {
    |states| == |who| + 1 && Init(states[0], n)
    && (forall a :: 0 <= a < |states| ==> Sized(states[a], n))
    && (forall a :: 0 <= a < |who| ==> who[a] < n && states[a + 1] == Step(states[a], who[a], n))
  }

  ghost predicate NeverWraps(states: seq<State>, who: seq<nat>, n: nat)
    requires Run(states, who, n)
  {
    forall a :: 0 <= a < |who| ==> NoWrap(states[a], who[a], n)
  }

  // ----- the invariant -----

  predicate InDoorway(pc: Pc) { pc.Scan? || pc.Numbered? }
  predicate Waiting(pc: Pc) { pc.WaitChoosing? || pc.WaitNumber? }
  predicate HasTicket(pc: Pc) { pc.Numbered? || Waiting(pc) || pc.Critical? }

  /** (my_i, i) is before (my_j, j). */
  predicate Before(s: State, i: nat, j: nat)
    requires i < |s.my| && j < |s.my|
  {
    s.my[i] < s.my[j] || (s.my[i] == s.my[j] && i < j)
  }

  /** A scanning tasklet j will take a ticket above that of i. */
  predicate ScanSees(s: State, i: nat, j: nat)
    requires i < |s.my| && j < |s.pc|
  {
    s.pc[j].Scan? ==> s.pc[j].t <= i || s.pc[j].m >= s.my[i]
  }

  /** Tasklet i has finished with tasklet j in its waiting loop. */
  predicate Passed(pc: Pc, j: nat)
  {
    pc.Critical? || (Waiting(pc) && j < pc.k)
  }

  ghost predicate TaskletInv(s: State, i: nat, n: nat)
    requires Sized(s, n) && i < n
  {
    && s.choosing[i] == InDoorway(s.pc[i])
    && (if HasTicket(s.pc[i]) then s.number[i] == s.my[i] > 0 else s.number[i] == 0)
    && (Waiting(s.pc[i]) ==> s.pc[i].k < n)
    && (s.pc[i].WaitNumber? ==> s.pc[i].k != i)
    && (s.pc[i].Scan? ==> s.pc[i].t <= n)
  }

  ghost predicate PairInv(s: State, i: nat, j: nat, n: nat)
    requires Sized(s, n) && i < n && j < n
  {
    && (Passed(s.pc[i], j) ==> ScanSees(s, i, j) && (HasTicket(s.pc[j]) ==> Before(s, i, j)))
    && (s.pc[i] == WaitNumber(j) ==> ScanSees(s, i, j) && (s.pc[j].Numbered? ==> Before(s, i, j)))
  }

  ghost predicate Inv(s: State, n: nat)
  {
    && Sized(s, n)
    && (forall i :: 0 <= i < n ==> TaskletInv(s, i, n))
    && (forall i, j :: 0 <= i < n && 0 <= j < n && i != j ==> PairInv(s, i, j, n))
  }

  lemma StepKeepsTasklet(s: State, a: nat, i: nat, n: nat)
    requires Sized(s, n) && a < n && i < n && NoWrap(s, a, n)
    requires TaskletInv(s, a, n) && TaskletInv(s, i, n)
    ensures TaskletInv(Step(s, a, n), i, n)
  {
  }

  lemma OwnStepKeepsPair(s: State, i: nat, j: nat, n: nat)
    requires Sized(s, n) && i < n && j < n && i != j
    requires TaskletInv(s, i, n) && TaskletInv(s, j, n) && PairInv(s, i, j, n)
    requires NoWrap(s, i, n)
    ensures PairInv(Step(s, i, n), i, j, n)
  {
  }

  lemma RivalStepKeepsPair(s: State, i: nat, j: nat, n: nat)
    requires Sized(s, n) && i < n && j < n && i != j
    requires TaskletInv(s, i, n) && TaskletInv(s, j, n) && PairInv(s, i, j, n)
    requires NoWrap(s, j, n)
    ensures PairInv(Step(s, j, n), i, j, n)
  {
  }

  lemma OtherStepKeepsPair(s: State, a: nat, i: nat, j: nat, n: nat)
    requires Sized(s, n) && i < n && j < n && i != j
    requires TaskletInv(s, i, n) && TaskletInv(s, j, n) && PairInv(s, i, j, n)
    requires a < n && a != i && a != j
    ensures PairInv(Step(s, a, n), i, j, n)
  {
    var s' := Step(s, a, n);
    assert s'.pc[i] == s.pc[i] && s'.pc[j] == s.pc[j] && s'.my[i] == s.my[i] && s'.my[j] == s.my[j];
  }

  /** What every single read or write keeps, as long as it does not wrap a ticket. */
  lemma StepKeepsInv(s: State, a: nat, n: nat)
    requires Inv(s, n) && a < n && NoWrap(s, a, n)
    ensures Inv(Step(s, a, n), n)
  {
    forall i | 0 <= i < n ensures TaskletInv(Step(s, a, n), i, n) {
      StepKeepsTasklet(s, a, i, n);
    }
    forall i, j | 0 <= i < n && 0 <= j < n && i != j ensures PairInv(Step(s, a, n), i, j, n) {
      if a == i {
        OwnStepKeepsPair(s, i, j, n);
      } else if a == j {
        RivalStepKeepsPair(s, i, j, n);
      } else {
        OtherStepKeepsPair(s, a, i, j, n);
      }
    }
  }

  lemma {:induction false} RunKeepsInv(states: seq<State>, who: seq<nat>, n: nat, a: nat)
    requires Run(states, who, n) && NeverWraps(states, who, n) && a <= |who|
    ensures Inv(states[a], n)
    decreases a
  {
    if a > 0 {
      RunKeepsInv(states, who, n, a - 1);
      assert NoWrap(states[a - 1], who[a - 1], n);
      StepKeepsInv(states[a - 1], who[a - 1], n);
    }
  }

  /** At most one tasklet is between lock and unlock, at every point of every run without ticket wrap. */
  lemma MutualExclusion(states: seq<State>, who: seq<nat>, n: nat, a: nat, i: nat, j: nat)
    requires Run(states, who, n) && NeverWraps(states, who, n)
    requires a < |states| && i < n && j < n
    requires states[a].pc[i].Critical? && states[a].pc[j].Critical?
    ensures i == j
  {
    RunKeepsInv(states, who, n, a);
    var s := states[a];
    if i != j {
      BothPairs(s, i, j, n);
    }
  }

  lemma BothPairs(s: State, i: nat, j: nat, n: nat)
    requires Inv(s, n) && i < n && j < n && i != j
    ensures PairInv(s, i, j, n) && PairInv(s, j, i, n)
  {
  }

  // ----- first come, first served -----

  /** Tasklet j, which came to the doorway after i had left it, has to stay behind i. */
  predicate Behind(s: State, i: nat, j: nat, n: nat)
    requires Sized(s, n) && i < n && j < n
  {
    ScanSees(s, i, j) && (HasTicket(s.pc[j]) ==> s.my[i] < s.my[j])
  }

  lemma StepKeepsBehind(s: State, a: nat, i: nat, j: nat, n: nat)
    requires Inv(s, n) && a < n && i < n && j < n && i != j && NoWrap(s, a, n)
    requires Waiting(s.pc[i]) && Waiting(Step(s, a, n).pc[i])
    requires Behind(s, i, j, n)
    ensures Behind(Step(s, a, n), i, j, n)
  {
    assert TaskletInv(s, i, n) && TaskletInv(s, j, n) && TaskletInv(s, a, n);
  }

  lemma {:induction false} RunKeepsBehind(states: seq<State>, who: seq<nat>, n: nat, i: nat, j: nat, b: nat, c: nat)
    requires Run(states, who, n) && NeverWraps(states, who, n)
    requires i < n && j < n && i != j && b < c < |states|
    requires who[b] == j && states[b].pc[j].Idle?
    requires forall x :: b <= x <= c ==> Waiting(states[x].pc[i])
    ensures Behind(states[c], i, j, n)
    decreases c
  {
    if c > b + 1 {
      RunKeepsBehind(states, who, n, i, j, b, c - 1);
      RunKeepsInv(states, who, n, c - 1);
      assert NoWrap(states[c - 1], who[c - 1], n);
      assert states[c] == Step(states[c - 1], who[c - 1], n);
      StepKeepsBehind(states[c - 1], who[c - 1], i, j, n);
    } else {
      assert states[b + 1] == Step(states[b], who[b], n);
    }
  }

  /**
   * If i has cleared its choosing flag before j sets its own (step b), then j is not in
   * the critical section as long as i is still waiting for it: i enters first.
   */
  lemma FirstComeFirstServed(states: seq<State>, who: seq<nat>, n: nat, i: nat, j: nat, b: nat, c: nat)
    requires Run(states, who, n) && NeverWraps(states, who, n)
    requires i < n && j < n && b < c < |states|
    requires who[b] == j && states[b].pc[j].Idle?
    requires forall x :: b <= x <= c ==> Waiting(states[x].pc[i])
    ensures !states[c].pc[j].Critical?
  {
    assert i != j;
    RunKeepsBehind(states, who, n, i, j, b, c);
    RunKeepsInv(states, who, n, c);
    assert PairInv(states[c], j, i, n);
  }

  // ----- no deadlock -----

  /** The least ticket among the waiting tasklets below index b, ties to the lower index. */
  lemma {:induction false} FirstWaiting(s: State, n: nat, b: nat, w: nat) returns (i: nat)
    requires Sized(s, n) && w < b <= n && Waiting(s.pc[w])
    ensures i < b && Waiting(s.pc[i])
    ensures forall j :: 0 <= j < b && Waiting(s.pc[j]) && j != i ==> Before(s, i, j)
    decreases b
  {
    if exists w' :: 0 <= w' < b - 1 && Waiting(s.pc[w']) {
      var w' :| 0 <= w' < b - 1 && Waiting(s.pc[w']);
      i := FirstWaiting(s, n, b - 1, w');
      if Waiting(s.pc[b - 1]) && Before(s, b - 1, i) {
        i := b - 1;
      }
    } else {
      i := w;
    }
  }

  /** Whenever some tasklet is trying to lock or holds the lock, some tasklet's next step is not a spin. */
  lemma NoDeadlock(s: State, n: nat, w: nat) returns (i: nat)
    requires Inv(s, n) && w < n && s.pc[w] != Idle
    ensures i < n && s.pc[i] != Idle && Step(s, i, n) != s
  {
    assert forall j :: 0 <= j < n ==> TaskletInv(s, j, n);
    if j :| 0 <= j < n && (InDoorway(s.pc[j]) || s.pc[j].Critical?) {
      i := j;
      assert Step(s, i, n).pc[i] != s.pc[i];
    } else {
      i := FirstWaiting(s, n, n, w);
      assert TaskletInv(s, i, n);
      var k := s.pc[i].k;
      assert TaskletInv(s, k, n);
      assert !s.choosing[k] && (k != i && s.number[k] != 0 ==> Before(s, i, k));
      assert Step(s, i, n).pc[i] != s.pc[i];
    }
  }

  // ----- what wrapping breaks -----

  predicate Tasklets(who: seq<nat>, n: nat)
  {
    forall a :: 0 <= a < |who| ==> who[a] < n
  }

  /** The state after the steps of who, from any state. */
  function Play(s: State, who: seq<nat>, n: nat): (s': State)
    requires Sized(s, n) && Tasklets(who, n)
    ensures Sized(s', n)
    decreases |who|
  {
    if who == [] then s else Play(Step(s, who[0], n), who[1..], n)
  }

  /** How many of the steps of who begin a call of mc_mutex_lock. */
  function Calls(s: State, who: seq<nat>, n: nat): (k: nat)
    requires Sized(s, n) && Tasklets(who, n)
    decreases |who|
  {
    if who == [] then 0
    else (if s.pc[who[0]].Idle? then 1 else 0) + Calls(Step(s, who[0], n), who[1..], n)
  }

  lemma PlayFirst(s: State, i: nat, who: seq<nat>, n: nat)
    requires Sized(s, n) && i < n && Tasklets(who, n)
    ensures Tasklets([i] + who, n)
    ensures Play(s, [i] + who, n) == Play(Step(s, i, n), who, n)
    ensures Calls(s, [i] + who, n) == (if s.pc[i].Idle? then 1 else 0) + Calls(Step(s, i, n), who, n)
  {
    assert ([i] + who)[1..] == who;
  }

  lemma {:induction false} PlayConcat(s: State, u: seq<nat>, w: seq<nat>, n: nat)
    requires Sized(s, n) && Tasklets(u, n) && Tasklets(w, n)
    ensures Tasklets(u + w, n) && Play(s, u + w, n) == Play(Play(s, u, n), w, n)
    ensures Calls(s, u + w, n) == Calls(s, u, n) + Calls(Play(s, u, n), w, n)
    decreases |u|
  {
    hide Step;
    if u == [] {
      assert u + w == w;
    } else {
      PlayConcat(Step(s, u[0], n), u[1..], w, n);
      assert (u + w)[1..] == u[1..] + w;
    }
  }

  /** What holds of every tasklet in every run, wrapped tickets or not. */
  ghost predicate WeakTasklet(s: State, i: nat, n: nat)
    requires Sized(s, n) && i < n
  {
    && s.choosing[i] == InDoorway(s.pc[i])
    && (if HasTicket(s.pc[i]) then s.number[i] == s.my[i] < TICKETS else s.number[i] == 0)
    && (Waiting(s.pc[i]) ==> s.pc[i].k < n)
    && (s.pc[i].WaitNumber? ==> s.pc[i].k != i)
    && (s.pc[i].Scan? ==> s.pc[i].t <= n && s.pc[i].m < TICKETS)
  }

  ghost predicate WeakInv(s: State, n: nat)
  {
    Sized(s, n) && forall i :: 0 <= i < n ==> WeakTasklet(s, i, n)
  }

  lemma StepKeepsWeakTasklet(s: State, a: nat, i: nat, n: nat)
    requires Sized(s, n) && a < n && i < n && WeakTasklet(s, a, n) && WeakTasklet(s, i, n)
    requires s.pc[a].Scan? && s.pc[a].t < n ==> s.number[s.pc[a].t] < TICKETS
    ensures WeakTasklet(Step(s, a, n), i, n)
  {
  }

  lemma StepKeepsWeakInv(s: State, a: nat, n: nat)
    requires WeakInv(s, n) && a < n
    ensures WeakInv(Step(s, a, n), n)
  {
    if s.pc[a].Scan? && s.pc[a].t < n {
      assert WeakTasklet(s, s.pc[a].t, n);
    }
    forall i | 0 <= i < n ensures WeakTasklet(Step(s, a, n), i, n) {
      assert WeakTasklet(s, a, n) && WeakTasklet(s, i, n);
      StepKeepsWeakTasklet(s, a, i, n);
    }
  }

  /** Every state of every run satisfies it. */
  lemma {:induction false} RunKeepsWeakInv(states: seq<State>, who: seq<nat>, n: nat, a: nat)
    requires Run(states, who, n) && a <= |who|
    ensures WeakInv(states[a], n)
    decreases a
  {
    if a > 0 {
      RunKeepsWeakInv(states, who, n, a - 1);
      StepKeepsWeakInv(states[a - 1], who[a - 1], n);
    }
  }

  lemma {:induction false} PlayKeepsWeakInv(s: State, who: seq<nat>, n: nat)
    requires WeakInv(s, n) && Tasklets(who, n)
    ensures WeakInv(Play(s, who, n), n)
    decreases |who|
  {
    if who != [] {
      StepKeepsWeakInv(s, who[0], n);
      PlayKeepsWeakInv(Step(s, who[0], n), who[1..], n);
    }
  }

  /** The maximum a scan ends with when it runs to its end undisturbed. */
  function ScanResult(number: seq<nat>, t: nat, m: nat): nat
    decreases |number| - t
  {
    if t >= |number| then m else ScanResult(number, t + 1, if number[t] > m then number[t] else m)
  }

  /** A tasklet in the doorway, left to itself, comes out of it with some ticket. */
  lemma {:induction false} LeaveDoorway(s: State, j: nat, n: nat) returns (who: seq<nat>, v: nat)
    requires WeakInv(s, n) && j < n && InDoorway(s.pc[j])
    ensures Tasklets(who, n) && Calls(s, who, n) == 0
    ensures Play(s, who, n)
              == State(s.choosing[j := false], s.number[j := v], s.my[j := v], s.pc[j := WaitChoosing(0)])
    ensures s.pc[j].Scan? ==> v == (ScanResult(s.number, s.pc[j].t, s.pc[j].m) + 1) % TICKETS
    ensures s.pc[j].Numbered? ==> v == s.my[j]
    decreases if s.pc[j].Scan? then n - s.pc[j].t + 1 else 0
  {
    assert WeakTasklet(s, j, n);
    var s1 := Step(s, j, n);
    if s.pc[j].Numbered? {
      who, v := [j], s.my[j];
      PlayFirst(s, j, [], n);
      assert [j] + [] == who;
      assert s.number[j := v] == s.number && s.my[j := v] == s.my;
    } else {
      StepKeepsWeakInv(s, j, n);
      var w;
      w, v := LeaveDoorway(s1, j, n);
      PlayFirst(s, j, w, n);
      who := [j] + w;
      var s2 := Play(s, who, n);
      assert s2.pc == s.pc[j := WaitChoosing(0)] && s2.number == s.number[j := v] && s2.my == s.my[j := v];
    }
  }

  lemma NobodyChoosing(s: State, n: nat)
    requires WeakInv(s, n) && forall q :: 0 <= q < n ==> !InDoorway(s.pc[q])
    ensures forall q :: 0 <= q < n ==> !s.choosing[q]
  {
    forall q | 0 <= q < n ensures !s.choosing[q] {
      assert WeakTasklet(s, q, n);
    }
  }

  /** Ticket 0 waits for nobody. */
  lemma ZeroGoesFirst(s: State, i: nat, n: nat)
    requires Sized(s, n) && i < n && s.my[i] == 0
    ensures forall q :: 0 <= q < n ==> !MustWait(s.number[q], q, s.my[i], i)
  {
  }

  /** Tasklet i is held up only by tickets that are out and come before its own. */
  lemma OnlyTicketsHoldUp(s: State, i: nat, n: nat)
    requires WeakInv(s, n) && i < n && HasTicket(s.pc[i])
    requires forall q :: 0 <= q < n && q != i && HasTicket(s.pc[q]) ==> s.my[q] == 0 || Before(s, i, q)
    ensures forall q :: 0 <= q < n && q != i ==> !MustWait(s.number[q], q, s.my[i], i)
  {
    forall q | 0 <= q < n && q != i ensures !MustWait(s.number[q], q, s.my[i], i) {
      assert WeakTasklet(s, q, n);
    }
  }

  /** A waiting tasklet that nobody holds up walks into the critical section. */
  lemma {:induction false} WalkIn(s: State, i: nat, n: nat) returns (who: seq<nat>)
    requires WeakInv(s, n) && i < n && Waiting(s.pc[i])
    requires forall q :: 0 <= q < n ==> !s.choosing[q]
    requires forall q :: 0 <= q < n && q != i ==> !MustWait(s.number[q], q, s.my[i], i)
    ensures Tasklets(who, n) && Calls(s, who, n) == 0
    ensures Play(s, who, n) == s.(pc := s.pc[i := Critical])
    decreases 2 * (n - s.pc[i].k) - if s.pc[i].WaitNumber? then 1 else 0
  {
    assert WeakTasklet(s, i, n);
    var s1 := Step(s, i, n);
    if s1.pc[i].Critical? {
      who := [i];
      PlayFirst(s, i, [], n);
      assert [i] + [] == who;
    } else {
      StepKeepsWeakInv(s, i, n);
      var w := WalkIn(s1, i, n);
      PlayFirst(s, i, w, n);
      who := [i] + w;
      assert s1.pc[i := Critical] == s.pc[i := Critical];
    }
  }

  /** Everybody in the doorway from index b on leaves it; the others keep where they are. */
  lemma {:induction false} ClearDoorway(s: State, a: nat, b: nat, n: nat) returns (who: seq<nat>)
    requires WeakInv(s, n) && a < n && b <= n && !InDoorway(s.pc[a])
    requires forall q :: 0 <= q < b ==> !InDoorway(s.pc[q])
    ensures Tasklets(who, n)
    ensures var s' := Play(s, who, n);
            && WeakInv(s', n) && (forall q :: 0 <= q < n ==> !InDoorway(s'.pc[q]))
            && s'.pc[a] == s.pc[a] && s'.my[a] == s.my[a]
    decreases n - b
  {
    who := [];
    if b < n {
      if InDoorway(s.pc[b]) {
        var u, v := LeaveDoorway(s, b, n);
        PlayKeepsWeakInv(s, u, n);
        var w := ClearDoorway(Play(s, u, n), a, b + 1, n);
        PlayConcat(s, u, w, n);
        who := u + w;
      } else {
        who := ClearDoorway(s, a, b + 1, n);
      }
    }
  }

  /** With a inside on ticket 0 and nobody in the doorway, someone else can always get inside too. */
  lemma AnotherEnters(s: State, a: nat, n: nat) returns (who: seq<nat>, j: nat)
    requires WeakInv(s, n) && n >= 2 && a < n && s.pc[a].Critical? && s.my[a] == 0
    requires forall q :: 0 <= q < n ==> !InDoorway(s.pc[q])
    ensures Tasklets(who, n) && j < n && j != a
    ensures Play(s, who, n).pc[a].Critical? && Play(s, who, n).pc[j].Critical?
  {
    NobodyChoosing(s, n);
    if c :| 0 <= c < n && c != a && s.pc[c].Critical? {
      who, j := [], c;
    } else if w :| 0 <= w < n && Waiting(s.pc[w]) {
      j := FirstWaiting(s, n, n, w);
      OnlyTicketsHoldUp(s, j, n);
      who := WalkIn(s, j, n);
    } else {
      j := if a == 0 then 1 else 0;
      var s1 := Step(s, j, n);
      StepKeepsWeakInv(s, j, n);
      var u, v := LeaveDoorway(s1, j, n);
      PlayKeepsWeakInv(s1, u, n);
      NobodyChoosing(Play(s1, u, n), n);
      OnlyTicketsHoldUp(Play(s1, u, n), j, n);
      var w := WalkIn(Play(s1, u, n), j, n);
      PlayConcat(s1, u, w, n);
      PlayFirst(s, j, u + w, n);
      who := [j] + (u + w);
    }
  }

  /**
   * A draw that wraps always breaks the lock: for any n >= 2, in any state a run can be in,
   * if the ticket of a wraps then there is a continuation, begun by that draw, after which a
   * and some other tasklet are both in the critical section.
   */
  lemma WrapIsFatal(s: State, a: nat, n: nat) returns (who: seq<nat>, j: nat)
    requires WeakInv(s, n) && n >= 2 && a < n && !NoWrap(s, a, n)
    ensures Tasklets(who, n) && who != [] && who[0] == a && j < n && j != a
    ensures Play(s, who, n).pc[a].Critical? && Play(s, who, n).pc[j].Critical?
  {
    assert WeakTasklet(s, a, n);
    assert (s.pc[a].m + 1) % TICKETS == 0;
    var s1 := Step(s, a, n);
    var s2 := Step(s1, a, n);
    StepKeepsWeakInv(s, a, n);
    StepKeepsWeakInv(s1, a, n);
    var u := ClearDoorway(s2, a, 0, n);
    var s3 := Play(s2, u, n);
    NobodyChoosing(s3, n);
    ZeroGoesFirst(s3, a, n);
    var v := WalkIn(s3, a, n);
    var s4 := Play(s3, v, n);
    PlayKeepsWeakInv(s3, v, n);
    var w;
    w, j := AnotherEnters(s4, a, n);
    PlayConcat(s3, v, w, n);
    PlayConcat(s2, u, v + w, n);
    PlayFirst(s1, a, u + (v + w), n);
    PlayFirst(s, a, [a] + (u + (v + w)), n);
    who := [a] + ([a] + (u + (v + w)));
  }

  /**
   * The exact condition on one draw, in a run that has not wrapped yet: with m + 1 < 65536 the
   * invariant that gives mutual exclusion goes on, with m + 1 == 65536 it can be broken.
   */
  lemma DrawExact(states: seq<State>, who: seq<nat>, n: nat, a: nat)
    requires Run(states, who, n) && NeverWraps(states, who, n) && n >= 2 && a < n
    requires states[|who|].pc[a].Scan? && states[|who|].pc[a].t >= n
    ensures var s := states[|who|];
            if s.pc[a].m + 1 < 65536 then Inv(Step(s, a, n), n)
            else s.pc[a].m + 1 == 65536 && exists w: seq<nat>, j: nat :: Breaks(s, w, a, j, n)
  {
    var s := states[|who|];
    RunKeepsInv(states, who, n, |who|);
    RunKeepsWeakInv(states, who, n, |who|);
    if s.pc[a].m + 1 < TICKETS {
      StepKeepsInv(s, a, n);
    } else {
      assert WeakTasklet(s, a, n);
      var w, j := WrapIsFatal(s, a, n);
      assert Breaks(s, w, a, j, n);
    }
  }

  /** The continuation w starts with a step of a and puts both a and j into the critical section. */
  ghost predicate Breaks(s: State, w: seq<nat>, a: nat, j: nat, n: nat)
    requires Sized(s, n)
  {
    && Tasklets(w, n) && w != [] && w[0] == a && j < n && j != a && a < n
    && Play(s, w, n).pc[a].Critical? && Play(s, w, n).pc[j].Critical?
  }

  // ----- how many calls are safe -----

  function Scanning(pc: seq<Pc>): nat
  {
    if pc == [] then 0 else (if pc[0].Scan? then 1 else 0) + Scanning(pc[1..])
  }

  lemma {:induction false} ScanningStep(pc: seq<Pc>, i: nat, p: Pc)
    requires i < |pc|
    ensures Scanning(pc[i := p]) == Scanning(pc) - (if pc[i].Scan? then 1 else 0) + (if p.Scan? then 1 else 0)
    ensures pc[i].Scan? ==> Scanning(pc) > 0
  {
    if i == 0 {
      assert pc[i := p][1..] == pc[1..];
    } else {
      ScanningStep(pc[1..], i - 1, p);
      assert pc[i := p][1..] == pc[1..][i - 1 := p];
    }
  }

  /** After k calls no ticket, and no maximum in a scan, exceeds the number of draws, k less those still scanning. */
  ghost predicate TicketsBelow(s: State, n: nat, k: nat)
  {
    && Sized(s, n) && Scanning(s.pc) <= k
    && (forall i :: 0 <= i < n ==> s.number[i] <= k - Scanning(s.pc))
    && (forall i :: 0 <= i < n && s.pc[i].Scan? ==> s.pc[i].m <= k - Scanning(s.pc))
  }

  lemma StepKeepsTicketsBelow(s: State, a: nat, n: nat, k: nat)
    requires TicketsBelow(s, n, k) && a < n && k < TICKETS
    ensures NoWrap(s, a, n)
    ensures TicketsBelow(Step(s, a, n), n, if s.pc[a].Idle? then k + 1 else k)
  {
    var s' := Step(s, a, n);
    ScanningStep(s.pc, a, s'.pc[a]);
    assert s'.pc == s.pc[a := s'.pc[a]];
  }

  /** The calls begun in the first b steps of a run. */
  function CallsOf(states: seq<State>, who: seq<nat>, n: nat, b: nat): nat
    requires Run(states, who, n) && b <= |who|
  {
    if b == 0 then 0
    else CallsOf(states, who, n, b - 1) + if states[b - 1].pc[who[b - 1]].Idle? then 1 else 0
  }

  lemma {:induction false} NoneScanning(pc: seq<Pc>)
    requires forall i :: 0 <= i < |pc| ==> pc[i] == Idle
    ensures Scanning(pc) == 0
  {
    if pc != [] {
      NoneScanning(pc[1..]);
    }
  }

  lemma {:induction false} CallsOfMonotone(states: seq<State>, who: seq<nat>, n: nat, b: nat, c: nat)
    requires Run(states, who, n) && b <= c <= |who|
    ensures CallsOf(states, who, n, b) <= CallsOf(states, who, n, c)
    decreases c
  {
    if b < c {
      CallsOfMonotone(states, who, n, b, c - 1);
    }
  }

  lemma InitTicketsBelow(s: State, n: nat)
    requires Init(s, n)
    ensures TicketsBelow(s, n, 0)
  {
    NoneScanning(s.pc);
  }

  lemma {:induction false} RunKeepsTicketsBelow(states: seq<State>, who: seq<nat>, n: nat, b: nat)
    requires Run(states, who, n) && b <= |who| && CallsOf(states, who, n, b) < 65536
    ensures TicketsBelow(states[b], n, CallsOf(states, who, n, b))
    decreases b
  {
    RunStart(states, who, n);
    hide Run, Step, TicketsBelow, CallsOf, Init;
    if b == 0 {
      InitTicketsBelow(states[0], n);
    } else {
      RunStep(states, who, n, b - 1);
      RunKeepsTicketsBelow(states, who, n, b - 1);
      StepKeepsTicketsBelow(states[b - 1], who[b - 1], n, CallsOf(states, who, n, b - 1));
    }
  }

  lemma RunStart(states: seq<State>, who: seq<nat>, n: nat)
    requires Run(states, who, n)
    ensures |states| == |who| + 1 && Init(states[0], n) && CallsOf(states, who, n, 0) == 0
  {
    hide Step;
  }

  lemma RunStep(states: seq<State>, who: seq<nat>, n: nat, b: nat)
    requires Run(states, who, n) && b < |who|
    ensures |states| == |who| + 1 && who[b] < n && Sized(states[b], n) && states[b + 1] == Step(states[b], who[b], n)
    ensures CallsOf(states, who, n, b + 1) == CallsOf(states, who, n, b) + if states[b].pc[who[b]].Idle? then 1 else 0
  {
    hide Step;
  }

  /** A run with fewer than 65536 calls never wraps a ticket. */
  lemma FewCallsNeverWrap(states: seq<State>, who: seq<nat>, n: nat)
    requires Run(states, who, n) && CallsOf(states, who, n, |who|) < 65536
    ensures NeverWraps(states, who, n)
  {
    forall b: nat | b < |who| ensures NoWrap(states[b], who[b], n) {
      CallsOfMonotone(states, who, n, b, |who|);
      RunKeepsTicketsBelow(states, who, n, b);
      StepKeepsTicketsBelow(states[b], who[b], n, CallsOf(states, who, n, b));
    }
  }

  /** Whenever nobody is at the lock a run may be taken to start there, so calls count from then on. */
  lemma QuietIsInit(s: State, n: nat)
    requires WeakInv(s, n) && forall i :: 0 <= i < n ==> s.pc[i] == Idle
    ensures Init(s, n)
  {
    forall i | 0 <= i < n ensures !s.choosing[i] && s.number[i] == 0 {
      assert WeakTasklet(s, i, n);
    }
  }

  // ----- and that one more is not -----

  function Trace(s: State, who: seq<nat>, n: nat): (states: seq<State>)
    requires Sized(s, n) && Tasklets(who, n)
    ensures |states| == |who| + 1 && states[0] == s && states[|who|] == Play(s, who, n)
    decreases |who|
  {
    if who == [] then [s] else [s] + Trace(Step(s, who[0], n), who[1..], n)
  }

  lemma {:induction false} TraceSteps(s: State, who: seq<nat>, n: nat, a: nat)
    requires Sized(s, n) && Tasklets(who, n) && a < |who|
    ensures Sized(Trace(s, who, n)[a], n) && Sized(Trace(s, who, n)[a + 1], n)
    ensures Trace(s, who, n)[a + 1] == Step(Trace(s, who, n)[a], who[a], n)
    decreases a
  {
    if a > 0 {
      TraceSteps(Step(s, who[0], n), who[1..], n, a - 1);
    }
  }

  lemma {:induction false} CallsOfFirst(s: State, who: seq<nat>, states: seq<State>, n: nat, b: nat)
    requires Run(states, who, n) && b <= |who| && Init(s, n) && states == Trace(s, who, n)
    ensures Tasklets(who[..b], n) && CallsOf(states, who, n, b) == Calls(s, who[..b], n)
    ensures states[b] == Play(s, who[..b], n)
    decreases b
  {
    if b > 0 {
      CallsOfFirst(s, who, states, n, b - 1);
      PlayConcat(s, who[..b - 1], [who[b - 1]], n);
      PlayFirst(states[b - 1], who[b - 1], [], n);
      assert who[..b] == who[..b - 1] + [who[b - 1]] && [who[b - 1]] + [] == [who[b - 1]];
    }
  }

  /** Steps played from an initial state are a run with as many calls. */
  lemma PlayIsRun(s: State, who: seq<nat>, n: nat) returns (states: seq<State>)
    requires Init(s, n) && Tasklets(who, n)
    ensures Run(states, who, n) && states[|who|] == Play(s, who, n)
    ensures CallsOf(states, who, n, |who|) == Calls(s, who, n)
  {
    states := Trace(s, who, n);
    forall a | 0 <= a < |states| ensures Sized(states[a], n) {
      if a < |who| {
        TraceSteps(s, who, n, a);
      }
    }
    forall a | 0 <= a < |who| ensures states[a + 1] == Step(states[a], who[a], n) {
      TraceSteps(s, who, n, a);
    }
    CallsOfFirst(s, who, states, n, |who|);
    assert who[..|who|] == who;
  }

  /** Tasklet p holds the lock with ticket v; all the others are outside. */
  ghost predicate Holds(s: State, p: nat, v: nat, n: nat)
  {
    && WeakInv(s, n) && p < n && s.pc[p] == Critical && s.number[p] == v > 0
    && forall q :: 0 <= q < n && q != p ==> s.pc[q] == Idle
  }

  lemma {:induction false} ScanOfOne(number: seq<nat>, p: nat, t: nat, m: nat)
    requires p < |number| && t <= |number| && forall q :: 0 <= q < |number| && q != p ==> number[q] == 0
    requires m == if p < t then number[p] else 0
    ensures ScanResult(number, t, m) == number[p]
    decreases |number| - t
  {
    if t < |number| {
      ScanOfOne(number, p, t + 1, if number[t] > m then number[t] else m);
    }
  }

  /** While p holds the lock, q calls lock and comes to the waiting loop. */
  lemma TakeTicket(s: State, p: nat, q: nat, v: nat, n: nat) returns (who: seq<nat>)
    requires Holds(s, p, v, n) && q < n && q != p
    ensures Tasklets(who, n) && Calls(s, who, n) == 1
    ensures var s' := Play(s, who, n);
            && WeakInv(s', n) && s'.pc == s.pc[q := WaitChoosing(0)]
            && s'.number == s.number[q := (v + 1) % TICKETS] && s'.my[q] == (v + 1) % TICKETS
            && forall r :: 0 <= r < n ==> !s'.choosing[r]
  {
    forall r | 0 <= r < n && r != p ensures s.number[r] == 0 {
      assert WeakTasklet(s, r, n);
    }
    var s1 := Step(s, q, n);
    StepKeepsWeakInv(s, q, n);
    var w, ticket := LeaveDoorway(s1, q, n);
    ScanOfOne(s.number, p, 0, 0);
    PlayKeepsWeakInv(s1, w, n);
    NobodyChoosing(Play(s1, w, n), n);
    PlayFirst(s, q, w, n);
    who := [q] + w;
    assert s1.pc[q := WaitChoosing(0)] == s.pc[q := WaitChoosing(0)];
  }

  lemma FirstTicket(s: State, n: nat) returns (who: seq<nat>)
    requires Init(s, n) && n >= 2
    ensures Tasklets(who, n) && Calls(s, who, n) == 1 && Holds(Play(s, who, n), 0, 1, n)
  {
    var s1 := Step(s, 0, n);
    StepKeepsWeakInv(s, 0, n);
    var u, v := LeaveDoorway(s1, 0, n);
    ScanOfOne(s.number, 0, 0, 0);
    var s2 := Play(s1, u, n);
    PlayKeepsWeakInv(s1, u, n);
    var w := WalkIn(s2, 0, n);
    PlayKeepsWeakInv(s2, w, n);
    PlayConcat(s1, u, w, n);
    PlayFirst(s, 0, u + w, n);
    who := [0] + (u + w);
  }

  /** q takes the next ticket, p leaves, q enters. */
  lemma Overtake(s: State, p: nat, q: nat, v: nat, n: nat) returns (who: seq<nat>)
    requires Holds(s, p, v, n) && q < n && q != p && v + 1 < TICKETS
    ensures Tasklets(who, n) && Calls(s, who, n) == 1 && Holds(Play(s, who, n), q, v + 1, n)
  {
    var u := TakeTicket(s, p, q, v, n);
    var s1 := Play(s, u, n);
    var s2 := Step(s1, p, n);
    StepKeepsWeakInv(s1, p, n);
    OnlyTicketsHoldUp(s2, q, n);
    var w := WalkIn(s2, q, n);
    PlayKeepsWeakInv(s2, w, n);
    PlayFirst(s1, p, w, n);
    PlayConcat(s, u, [p] + w, n);
    who := u + ([p] + w);
  }

  /** Two tasklets that keep overtaking each other reach every ticket, one call a ticket. */
  lemma {:induction false} ReachTicket(s: State, v: nat, n: nat) returns (who: seq<nat>, p: nat)
    requires Init(s, n) && n >= 2 && 1 <= v < TICKETS
    ensures p < 2 && Tasklets(who, n) && Calls(s, who, n) == v && Holds(Play(s, who, n), p, v, n)
    decreases v
  {
    if v == 1 {
      p := 0;
      who := FirstTicket(s, n);
    } else {
      var u, p' := ReachTicket(s, v - 1, n);
      p := 1 - p';
      var w := Overtake(Play(s, u, n), p', p, v - 1, n);
      PlayConcat(s, u, w, n);
      who := u + w;
    }
  }

  /** With any number of tasklets from two on, 65536 calls are enough to break mutual exclusion. */
  lemma WrapBreaksExclusion(s: State, n: nat) returns (who: seq<nat>)
    requires Init(s, n) && n >= 2
    ensures Tasklets(who, n) && Calls(s, who, n) == 65536
    ensures Play(s, who, n).pc[0].Critical? && Play(s, who, n).pc[1].Critical?
  {
    var u, p := ReachTicket(s, TICKETS - 1, n);
    var s1 := Play(s, u, n);
    var v := TakeTicket(s1, p, 1 - p, TICKETS - 1, n);
    var s2 := Play(s1, v, n);
    var w := WalkIn(s2, 1 - p, n);
    PlayConcat(s1, v, w, n);
    PlayConcat(s, u, v + w, n);
    who := u + (v + w);
  }

  /** No run with at most `calls` calls has two tasklets in the critical section. */
  ghost predicate SafeFor(n: nat, calls: nat)
  {
    forall states: seq<State>, who: seq<nat>, i: nat, j: nat ::
      && Run(states, who, n) && CallsOf(states, who, n, |who|) <= calls && i < n && j < n
      && states[|who|].pc[i].Critical? && states[|who|].pc[j].Critical?
      ==> i == j
  }

  /**
   * The exact bound a caller can check: counted from any moment when nobody is at the lock,
   * that many calls are safe if and only if they are fewer than 65536.
   */
  lemma SafeCallsExact(n: nat, calls: nat)
    requires n >= 2
    ensures SafeFor(n, calls) <==> calls < 65536
  {
    if calls < TICKETS {
      forall states: seq<State>, who: seq<nat>, i: nat, j: nat |
        && Run(states, who, n) && CallsOf(states, who, n, |who|) <= calls && i < n && j < n
        && states[|who|].pc[i].Critical? && states[|who|].pc[j].Critical?
        ensures i == j
      {
        FewCallsNeverWrap(states, who, n);
        MutualExclusion(states, who, n, |who|, i, j);
      }
    } else {
      var s := State(seq(n, _ => false), seq(n, _ => 0), seq(n, _ => 0), seq(n, _ => Idle));
      var who := WrapBreaksExclusion(s, n);
      var states := PlayIsRun(s, who, n);
      assert states[|who|].pc[0].Critical? && states[|who|].pc[1].Critical?;
    }
  }
}
