/**
 * The sense-reversing barrier and the epoch mailbox of src/MLP/support/mc_sync.h
 * as one step system: n tasklets repeat bump epoch, barrier, handshake, barrier,
 * in every interleaving of single shared reads and writes.
 */
module SenseBarrier {

  const WORDS: int := 0x1_0000_0000

  /** The l_count argument by round and tasklet; T is uint32_t. */
  type Input = (nat, nat) -> nat

  /** Which of the two barriers of a round. */
  datatype Pc =
    | Bump                              // tasklet 0 increments g_epoch
    | Read                              // mybarrier_wait: about to read sense
    | Arrive(next: bool)                // about to write arrive[tid]
    | Collect(next: bool, i: nat)       // tasklet 0: arrive[0..i) seen equal to next
    | Spin(next: bool)                  // others: waiting for sense to become next
    | ReadEpoch                         // handshake_sync: about to read g_epoch
    | Poll(epoch: nat)                  // waiting for the epoch of its own slot
    | ReadVal(epoch: nat)
    | Send(epoch: nat, p: nat)          // about to write the next slot's val, or to return if last
    | Mark(epoch: nat, p: nat)          // about to write the next slot's epoch

  datatype State = State(
    sense: bool, arrive: seq<bool>, gEpoch: nat, slotEpoch: seq<nat>, slotVal: seq<nat>, pc: seq<Pc>,
    // history: completed waits per tasklet, sense flips, p_count per tasklet and round, totals per round
    waits: seq<nat>, flips: nat, got: seq<seq<nat>>, totals: seq<nat>)

  predicate Sized(s: State, n: nat)
  {
    |s.arrive| == n && |s.slotEpoch| == n && |s.slotVal| == n && |s.pc| == n && |s.waits| == n && |s.got| == n
  }

  /** The state after mybarrier_init and handshake_init. */
  function Initial(n: nat): State
  {
    State(false, seq(n, _ => false), 1, seq(n, _ => 0), seq(n, _ => 0), seq(n, _ => Bump),
          seq(n, _ => 0), 0, seq(n, _ => []), [])
  }

  function Jump(s: State, t: nat, pc: Pc): State
    requires t < |s.pc|
  {
    s.(pc := s.pc[t := pc])
  }

  /** After the first barrier of a round comes the handshake, after the second the next round. */
  function AfterWait(waits: nat): Pc
  {
    if waits % 2 == 0 then ReadEpoch else Bump
  }

  function LeaveWait(s: State, t: nat): State
    requires t < |s.pc| && t < |s.waits|
  {
    Jump(s, t, AfterWait(s.waits[t])).(waits := s.waits[t := s.waits[t] + 1])
  }

  function Add(x: nat, y: nat): (r: nat)
  {
    (x + y) % WORDS
  }

  /** The next single shared access of tasklet t. */
  function Step(s: State, t: nat, n: nat, l: Input): State
    requires Sized(s, n) && t < n
  {
    match s.pc[t]
    case Bump => Jump(s, t, Read).(gEpoch := if t == 0 then Add(s.gEpoch, 1) else s.gEpoch)
    case Read => Jump(s, t, Arrive(!s.sense))
    case Arrive(next) =>
      Jump(s, t, if t == 0 then Collect(next, 0) else Spin(next)).(arrive := s.arrive[t := next])
    case Collect(next, i) =>
      if i < n then
        if s.arrive[i] == next then Jump(s, t, Collect(next, i + 1)) else s
      else LeaveWait(s, t).(sense := next, flips := s.flips + 1)
    case Spin(next) => if s.sense == next then LeaveWait(s, t) else s
    case ReadEpoch => Jump(s, t, if t != 0 then Poll(s.gEpoch) else Send(s.gEpoch, 0))
    case Poll(e) => if s.slotEpoch[t] == e then Jump(s, t, ReadVal(e)) else s
    case ReadVal(e) => Jump(s, t, Send(e, s.slotVal[t]))
    case Send(e, p) =>
      var sum := Add(p, l(s.waits[t] / 2, t));
      var s' := s.(got := s.got[t := s.got[t] + [p]]);
      if t + 1 < n then Jump(s', t, Mark(e, p)).(slotVal := s.slotVal[t + 1 := sum])
      else Jump(s', t, Read).(totals := s.totals + [sum])
    case Mark(e, p) =>
      if t + 1 < n then Jump(s, t, Read).(slotEpoch := s.slotEpoch[t + 1 := e]) else s
  }

  ghost predicate Run(states: seq<State>, who: seq<nat>, n: nat, l: Input)
  {
    |states| == |who| + 1 && states[0] == Initial(n)
    && (forall a :: 0 <= a < |states| ==> Sized(states[a], n))
    && (forall a :: 0 <= a < |who| ==> who[a] < n && states[a + 1] == Step(states[a], who[a], n, l))
  }

  // ----- the barrier -----

  predicate InHandshake(pc: Pc)
  {
    pc.ReadEpoch? || pc.Poll? || pc.ReadVal? || pc.Send? || pc.Mark?
  }

  predicate Arrived(pc: Pc) { pc.Collect? || pc.Spin? }

  /** How often tasklet t has written its arrive slot. */
  function Arrivals(s: State, t: nat): nat
    requires t < |s.pc| && t < |s.waits|
  {
    if Arrived(s.pc[t]) then s.waits[t] + 1 else s.waits[t]
  }

  predicate Odd(k: nat) { k % 2 == 1 }

  /** No flip is missed: a tasklet is one flip behind only while spinning on exactly that flip. */
  ghost predicate BarrierInv(s: State, t: nat, n: nat)
    requires Sized(s, n) && t < n
  {
    && s.arrive[t] == Odd(Arrivals(s, t))
    && (s.waits[t] == s.flips || (s.waits[t] + 1 == s.flips && s.pc[t].Spin?))
    && (s.pc[t].Arrive? || s.pc[t].Collect? || s.pc[t].Spin? ==> s.pc[t].next == Odd(s.waits[t] + 1))
    && (s.pc[t].Collect? ==> t == 0) && (s.pc[t].Spin? ==> t != 0)
    && (s.pc[t] == Bump ==> !Odd(s.waits[t])) && (InHandshake(s.pc[t]) ==> Odd(s.waits[t]))
  }

  ghost predicate CollectInv(s: State, n: nat)
    requires Sized(s, n) && n > 0
  {
    && s.sense == Odd(s.flips)
    && (s.pc[0].Collect? ==> s.pc[0].i <= n)
    && (s.pc[0].Collect? ==> forall j :: 0 <= j < s.pc[0].i ==> Arrivals(s, j) == s.flips + 1)
  }

  // ----- the mailbox -----

  function Prefix(l: Input, r: nat, t: nat): nat
  {
    if t == 0 then 0 else Add(Prefix(l, r, t - 1), l(r, t - 1))
  }

  /** The value of g_epoch in round r, and the initial value of the slots' epochs for none. */
  function EpochOf(r: nat): nat
  {
    (r + 2) % WORDS
  }

  function LastEpoch(marks: nat): nat
  {
    if marks == 0 then 0 else EpochOf(marks - 1)
  }

  /** Rounds in which tasklet t has bumped the epoch, sent a value, and marked it. */
  function Bumps(s: State, t: nat): nat
    requires t < |s.pc| && t < |s.waits|
  {
    (s.waits[t] + 1) / 2 + if !Odd(s.waits[t]) && s.pc[t] != Bump then 1 else 0
  }

  function Sends(s: State, t: nat): nat
    requires t < |s.pc| && t < |s.waits|
  {
    s.waits[t] / 2 + if Odd(s.waits[t]) && (!InHandshake(s.pc[t]) || s.pc[t].Mark?) then 1 else 0
  }

  function Marks(s: State, t: nat): nat
    requires t < |s.pc| && t < |s.waits|
  {
    s.waits[t] / 2 + if Odd(s.waits[t]) && !InHandshake(s.pc[t]) then 1 else 0
  }

  /** What tasklet t has read and received. */
  ghost predicate ReceiveInv(s: State, t: nat, n: nat, l: Input)
    requires Sized(s, n) && t < n
  {
    var r, pc := s.waits[t] / 2, s.pc[t];
    && (pc.Poll? || pc.ReadVal? || pc.Send? || pc.Mark? ==> pc.epoch == EpochOf(r))
    && (pc.Poll? || pc.ReadVal? ==> t > 0)
    && (pc.Mark? ==> t + 1 < n)
    && (pc.ReadVal? && t > 0 ==> Marks(s, t - 1) == r + 1)
    && (pc.Send? || pc.Mark? ==> pc.p == Prefix(l, r, t))
    && |s.got[t]| == Sends(s, t)
    && (forall q :: 0 <= q < |s.got[t]| ==> s.got[t][q] == Prefix(l, q, t))
  }

  /** The slot that tasklet t fills for tasklet t + 1. */
  ghost predicate SlotInv(s: State, t: nat, n: nat, l: Input)
    requires Sized(s, n) && t + 1 < n
  {
    && s.slotEpoch[t + 1] == LastEpoch(Marks(s, t))
    && (Sends(s, t) > 0 ==> s.slotVal[t + 1] == Prefix(l, Sends(s, t) - 1, t + 1))
  }

  ghost predicate EpochInv(s: State, n: nat)
    requires Sized(s, n) && n > 0
  {
    s.gEpoch == (Bumps(s, 0) + 1) % WORDS
  }

  ghost predicate TotalsInv(s: State, n: nat, l: Input)
    requires Sized(s, n) && n > 0
  {
    && |s.totals| == Sends(s, n - 1)
    && (forall q :: 0 <= q < |s.totals| ==> s.totals[q] == Prefix(l, q, n))
  }

  ghost predicate Inv(s: State, n: nat, l: Input)
  {
    && Sized(s, n) && n > 0
    && CollectInv(s, n)
    && (forall t :: 0 <= t < n ==> BarrierInv(s, t, n))
    && (forall t :: 0 <= t < n ==> ReceiveInv(s, t, n, l))
    && (forall t :: 0 <= t < n - 1 ==> SlotInv(s, t, n, l))
    && EpochInv(s, n) && TotalsInv(s, n, l)
  }

  lemma InitialInv(n: nat, l: Input)
    requires n > 0
    ensures Inv(Initial(n), n, l)
  {
  }

  ghost predicate BarrierInvs(s: State, n: nat)
  {
    Sized(s, n) && n > 0 && CollectInv(s, n) && forall t :: 0 <= t < n ==> BarrierInv(s, t, n)
  }

  /** A step of one tasklet leaves the others' own variables and slots alone. */
  lemma StepFrame(s: State, a: nat, t: nat, n: nat, l: Input)
    requires Sized(s, n) && a < n && t < n && a != t
    ensures var s' := Step(s, a, n, l);
            && Sized(s', n)
            && s'.pc[t] == s.pc[t] && s'.waits[t] == s.waits[t]
            && s'.arrive[t] == s.arrive[t] && s'.got[t] == s.got[t]
            && (t + 1 < n ==> s'.slotVal[t + 1] == s.slotVal[t + 1])
            && (t + 1 < n ==> s'.slotEpoch[t + 1] == s.slotEpoch[t + 1])
            && (t == 0 ==> s'.gEpoch == s.gEpoch)
            && (t == n - 1 ==> s'.totals == s.totals)
  {
    if InHandshake(s.pc[a]) {
      HandshakeFrame(s, a, t, n, l);
    } else {
      WaitFrame(s, a, t, n, l);
    }
    hide Step;
  }

  lemma WaitFrame(s: State, a: nat, t: nat, n: nat, l: Input)
    requires Sized(s, n) && a < n && t < n && a != t && !InHandshake(s.pc[a])
    ensures var s' := Step(s, a, n, l);
            && Sized(s', n)
            && s'.pc[t] == s.pc[t] && s'.waits[t] == s.waits[t] && s'.arrive[t] == s.arrive[t] && s'.got == s.got
            && s'.slotVal == s.slotVal && s'.slotEpoch == s.slotEpoch && s'.totals == s.totals
            && (t == 0 ==> s'.gEpoch == s.gEpoch)
  {
  }

  lemma HandshakeFrame(s: State, a: nat, t: nat, n: nat, l: Input)
    requires Sized(s, n) && a < n && t < n && a != t && InHandshake(s.pc[a])
    ensures var s' := Step(s, a, n, l);
            && Sized(s', n)
            && s'.pc[t] == s.pc[t] && s'.waits == s.waits && s'.arrive == s.arrive && s'.got[t] == s.got[t]
            && (t + 1 < n ==> s'.slotVal[t + 1] == s.slotVal[t + 1])
            && (t + 1 < n ==> s'.slotEpoch[t + 1] == s.slotEpoch[t + 1])
            && s'.gEpoch == s.gEpoch && (t == n - 1 ==> s'.totals == s.totals)
  {
  }

  lemma StepFlips(s: State, a: nat, n: nat, l: Input)
    requires Sized(s, n) && a < n
    ensures var s' := Step(s, a, n, l);
            if s.pc[a].Collect? && s.pc[a].i >= n then s'.flips == s.flips + 1 && s'.sense == s.pc[a].next
            else s'.flips == s.flips && s'.sense == s.sense
  {
  }

  /** When the collector is through, every tasklet has arrived and none is behind. */
  lemma AllArrived(s: State, t: nat, n: nat)
    requires BarrierInvs(s, n) && t < n && s.pc[0].Collect? && s.pc[0].i >= n
    ensures s.waits[t] == s.flips && Arrived(s.pc[t])
  {
    assert BarrierInv(s, t, n) && Arrivals(s, t) == s.flips + 1;
  }

  lemma OwnStepKeepsBarrier(s: State, t: nat, n: nat, l: Input)
    requires Sized(s, n) && t < n && CollectInv(s, n) && BarrierInv(s, t, n)
    ensures var s' := Step(s, t, n, l); Sized(s', n) && BarrierInv(s', t, n)
  {
    if InHandshake(s.pc[t]) {
      OwnStepKeepsBarrierHandshake(s, t, n, l);
    } else {
      OwnStepKeepsBarrierWait(s, t, n, l);
    }
    hide Step;
  }

  lemma OwnStepKeepsBarrierHandshake(s: State, t: nat, n: nat, l: Input)
    requires Sized(s, n) && t < n && CollectInv(s, n) && BarrierInv(s, t, n)
    requires InHandshake(s.pc[t])
    ensures var s' := Step(s, t, n, l); Sized(s', n) && BarrierInv(s', t, n)
  {
  }

  lemma OwnStepKeepsBarrierWait(s: State, t: nat, n: nat, l: Input)
    requires Sized(s, n) && t < n && CollectInv(s, n) && BarrierInv(s, t, n)
    requires !InHandshake(s.pc[t])
    ensures var s' := Step(s, t, n, l); Sized(s', n) && BarrierInv(s', t, n)
  {
  }

  lemma OtherStepKeepsBarrier(s: State, a: nat, t: nat, n: nat, l: Input)
    requires Sized(s, n) && a < n && t < n && a != t && BarrierInv(s, t, n)
    requires s.pc[a].Collect? && s.pc[a].i >= n ==> s.waits[t] == s.flips && Arrived(s.pc[t])
    requires s.pc[a].Collect? ==> a == 0
    ensures var s' := Step(s, a, n, l); Sized(s', n) && BarrierInv(s', t, n)
  {
    hide Step;
    StepFrame(s, a, t, n, l);
    StepFlips(s, a, n, l);
  }

  lemma StepKeepsBarrier(s: State, a: nat, t: nat, n: nat, l: Input)
    requires BarrierInvs(s, n) && a < n && t < n
    ensures var s' := Step(s, a, n, l); Sized(s', n) && BarrierInv(s', t, n)
  {
    assert BarrierInv(s, a, n) && BarrierInv(s, t, n);
    if a == t {
      OwnStepKeepsBarrier(s, t, n, l);
    } else {
      if s.pc[a].Collect? && s.pc[a].i >= n {
        AllArrived(s, t, n);
      }
      OtherStepKeepsBarrier(s, a, t, n, l);
    }
  }

  lemma StepKeepsCollect(s: State, a: nat, n: nat, l: Input)
    requires BarrierInvs(s, n) && a < n
    ensures var s' := Step(s, a, n, l); Sized(s', n) && CollectInv(s', n)
  {
    var s' := Step(s, a, n, l);
    assert BarrierInv(s, a, n) && BarrierInv(s, 0, n);
    StepFlips(s, a, n, l);
    if a != 0 {
      StepFrame(s, a, 0, n, l);
    } else {
      CollectorStep(s, n, l);
    }
    if s'.pc[0].Collect? {
      forall j | 0 <= j < s'.pc[0].i ensures j < n && Arrivals(s', j) == s'.flips + 1 {
        if j < n {
          assert BarrierInv(s, j, n);
          ArrivalsStay(s, a, j, n, l);
        }
      }
    }
    hide Step;
  }

  lemma CollectorStep(s: State, n: nat, l: Input)
    requires Sized(s, n) && n > 0 && BarrierInv(s, 0, n) && CollectInv(s, n)
    ensures var s' := Step(s, 0, n, l);
            && Sized(s', n)
            && (s'.pc[0].Collect? ==> s.pc[0].Arrive? || s.pc[0].Collect?)
            && (s'.pc[0].Collect? && s.pc[0].Arrive? ==> s'.pc[0].i == 0)
            && (s'.pc[0].Collect? && s.pc[0].Collect? && s'.pc[0] != s.pc[0] ==>
                  s.pc[0].i < n && s'.pc[0].i == s.pc[0].i + 1 && s.arrive[s.pc[0].i] == s.pc[0].next)
            && (s.pc[0].Collect? && s.pc[0].i >= n ==> !s'.pc[0].Collect?)
  {
  }

  /** A tasklet that has arrived stays so until the next flip. */
  lemma ArrivalsStay(s: State, a: nat, j: nat, n: nat, l: Input)
    requires Sized(s, n) && a < n && j < n && BarrierInv(s, j, n) && CollectInv(s, n)
    requires s.pc[a].Collect? ==> s.pc[a].i < n
    ensures var s' := Step(s, a, n, l);
            && Sized(s', n)
            && (Arrivals(s, j) == s.flips + 1 ==> Arrivals(s', j) == s.flips + 1)
  {
    if a != j {
      StepFrame(s, a, j, n, l);
    }
  }

  /** While a tasklet is between the two barriers of round r, so is the rest, or spinning at the first. */
  lemma SameRound(s: State, t: nat, u: nat, n: nat)
    requires BarrierInvs(s, n) && t < n && u < n && InHandshake(s.pc[t])
    ensures s.waits[t] == s.flips
    ensures s.waits[u] == s.flips || (s.waits[u] + 1 == s.flips && s.pc[u].Spin?)
    ensures s.waits[0] == s.flips
  {
    assert BarrierInv(s, t, n) && BarrierInv(s, u, n) && BarrierInv(s, 0, n);
  }

  lemma EpochsDiffer(r: nat)
    ensures LastEpoch(r) != EpochOf(r)
  {
  }

  /** A poll succeeds only on the mark of this round, never on a stale one. */
  lemma PollSeesThisRound(s: State, t: nat, n: nat, l: Input)
    requires Inv(s, n, l) && 0 < t < n && s.pc[t].Poll? && s.slotEpoch[t] == s.pc[t].epoch
    ensures Marks(s, t - 1) == s.waits[t] / 2 + 1
  {
    assert BarrierInv(s, t, n) && ReceiveInv(s, t, n, l) && BarrierInv(s, t - 1, n) && SlotInv(s, t - 1, n, l);
    SameRound(s, t, t - 1, n);
    EpochsDiffer(s.waits[t] / 2);
  }

  /** Which step counts as a bump, a send and a mark. */
  lemma OwnCounts(s: State, t: nat, n: nat, l: Input)
    requires Sized(s, n) && t < n && BarrierInv(s, t, n)
    ensures var s' := Step(s, t, n, l);
            && Sized(s', n)
            && Sends(s', t) == Sends(s, t) + (if s.pc[t].Send? then 1 else 0)
            && (!s.pc[t].Mark? && !s.pc[t].Send? ==> Marks(s', t) == Marks(s, t))
            && (s.pc[t].Mark? && t + 1 < n ==> Marks(s', t) == Marks(s, t) + 1)
            && (s.pc[t].Send? && t + 1 < n ==> Marks(s', t) == Marks(s, t))
            && Bumps(s', t) == Bumps(s, t) + (if s.pc[t] == Bump then 1 else 0)
            && (s.pc[t].Send? ==> Sends(s, t) == s.waits[t] / 2)
            && (s.pc[t].Mark? ==> Marks(s, t) == s.waits[t] / 2)
  {
    CountSends(s, t, n, l);
    CountMarks(s, t, n, l);
    CountBumps(s, t, n, l);
    hide *;
  }

  lemma CountSends(s: State, t: nat, n: nat, l: Input)
    requires Sized(s, n) && t < n && BarrierInv(s, t, n)
    ensures var s' := Step(s, t, n, l);
            && Sized(s', n)
            && Sends(s', t) == Sends(s, t) + (if s.pc[t].Send? then 1 else 0)
            && (s.pc[t].Send? ==> Sends(s, t) == s.waits[t] / 2)
  {
    if InHandshake(s.pc[t]) {
      CountSendsHandshake(s, t, n, l);
    } else {
      CountSendsWait(s, t, n, l);
    }
    hide Step;
  }

  lemma CountSendsHandshake(s: State, t: nat, n: nat, l: Input)
    requires Sized(s, n) && t < n && BarrierInv(s, t, n)
    requires InHandshake(s.pc[t])
    ensures var s' := Step(s, t, n, l);
            && Sized(s', n)
            && Sends(s', t) == Sends(s, t) + (if s.pc[t].Send? then 1 else 0)
            && (s.pc[t].Send? ==> Sends(s, t) == s.waits[t] / 2)
  {
  }

  lemma CountSendsWait(s: State, t: nat, n: nat, l: Input)
    requires Sized(s, n) && t < n && BarrierInv(s, t, n)
    requires !InHandshake(s.pc[t])
    ensures var s' := Step(s, t, n, l); Sized(s', n) && Sends(s', t) == Sends(s, t)
  {
  }

  lemma CountMarks(s: State, t: nat, n: nat, l: Input)
    requires Sized(s, n) && t < n && BarrierInv(s, t, n)
    ensures var s' := Step(s, t, n, l);
            && Sized(s', n)
            && (!s.pc[t].Mark? && !s.pc[t].Send? ==> Marks(s', t) == Marks(s, t))
            && (s.pc[t].Mark? && t + 1 < n ==> Marks(s', t) == Marks(s, t) + 1)
            && (s.pc[t].Send? && t + 1 < n ==> Marks(s', t) == Marks(s, t))
            && (s.pc[t].Mark? ==> Marks(s, t) == s.waits[t] / 2)
  {
    if InHandshake(s.pc[t]) {
      CountMarksHandshake(s, t, n, l);
    } else {
      CountMarksWait(s, t, n, l);
    }
    hide Step;
  }

  lemma CountMarksHandshake(s: State, t: nat, n: nat, l: Input)
    requires Sized(s, n) && t < n && BarrierInv(s, t, n)
    requires InHandshake(s.pc[t])
    ensures var s' := Step(s, t, n, l);
            && Sized(s', n)
            && (!s.pc[t].Mark? && !s.pc[t].Send? ==> Marks(s', t) == Marks(s, t))
            && (s.pc[t].Mark? && t + 1 < n ==> Marks(s', t) == Marks(s, t) + 1)
            && (s.pc[t].Send? && t + 1 < n ==> Marks(s', t) == Marks(s, t))
            && (s.pc[t].Mark? ==> Marks(s, t) == s.waits[t] / 2)
  {
  }

  lemma CountMarksWait(s: State, t: nat, n: nat, l: Input)
    requires Sized(s, n) && t < n && BarrierInv(s, t, n)
    requires !InHandshake(s.pc[t])
    ensures var s' := Step(s, t, n, l); Sized(s', n) && Marks(s', t) == Marks(s, t)
  {
  }

  lemma CountBumps(s: State, t: nat, n: nat, l: Input)
    requires Sized(s, n) && t < n && BarrierInv(s, t, n)
    ensures var s' := Step(s, t, n, l);
            && Sized(s', n)
            && Bumps(s', t) == Bumps(s, t) + (if s.pc[t] == Bump then 1 else 0)
  {
    if InHandshake(s.pc[t]) {
      CountBumpsHandshake(s, t, n, l);
    } else {
      CountBumpsWait(s, t, n, l);
    }
    hide Step;
  }

  lemma CountBumpsHandshake(s: State, t: nat, n: nat, l: Input)
    requires Sized(s, n) && t < n && BarrierInv(s, t, n)
    requires InHandshake(s.pc[t])
    ensures var s' := Step(s, t, n, l);
            && Sized(s', n)
            && Bumps(s', t) == Bumps(s, t) + (if s.pc[t] == Bump then 1 else 0)
  {
  }

  lemma CountBumpsWait(s: State, t: nat, n: nat, l: Input)
    requires Sized(s, n) && t < n && BarrierInv(s, t, n)
    requires !InHandshake(s.pc[t])
    ensures var s' := Step(s, t, n, l);
            && Sized(s', n)
            && Bumps(s', t) == Bumps(s, t) + (if s.pc[t] == Bump then 1 else 0)
  {
  }

  lemma OwnStepKeepsReceive(s: State, t: nat, n: nat, l: Input)
    requires Sized(s, n) && t < n && BarrierInv(s, t, n) && ReceiveInv(s, t, n, l)
    requires s.pc[t] == ReadEpoch ==> s.gEpoch == EpochOf(s.waits[t] / 2)
    requires s.pc[t].Poll? && s.slotEpoch[t] == s.pc[t].epoch ==> t > 0 && Marks(s, t - 1) == s.waits[t] / 2 + 1
    requires s.pc[t].ReadVal? ==> s.slotVal[t] == Prefix(l, s.waits[t] / 2, t)
    ensures var s' := Step(s, t, n, l); Sized(s', n) && ReceiveInv(s', t, n, l)
  {
    if InHandshake(s.pc[t]) {
      HandshakeKeepsReceive(s, t, n, l);
    } else {
      WaitKeepsReceive(s, t, n, l);
    }
    hide Step;
  }

  lemma WaitKeepsReceive(s: State, t: nat, n: nat, l: Input)
    requires Sized(s, n) && t < n && BarrierInv(s, t, n) && ReceiveInv(s, t, n, l) && !InHandshake(s.pc[t])
    ensures var s' := Step(s, t, n, l); Sized(s', n) && ReceiveInv(s', t, n, l)
  {
    hide Sends, Prefix, EpochOf;
    OwnCounts(s, t, n, l);
  }

  lemma HandshakeKeepsReceive(s: State, t: nat, n: nat, l: Input)
    requires Sized(s, n) && t < n && BarrierInv(s, t, n) && ReceiveInv(s, t, n, l)
    requires s.pc[t] == ReadEpoch ==> s.gEpoch == EpochOf(s.waits[t] / 2)
    requires s.pc[t].Poll? && s.slotEpoch[t] == s.pc[t].epoch ==> t > 0 && Marks(s, t - 1) == s.waits[t] / 2 + 1
    requires s.pc[t].ReadVal? ==> s.slotVal[t] == Prefix(l, s.waits[t] / 2, t)
    requires InHandshake(s.pc[t])
    ensures var s' := Step(s, t, n, l); Sized(s', n) && ReceiveInv(s', t, n, l)
  {
    hide Sends, Prefix, EpochOf;
    assert Prefix(l, s.waits[t] / 2, 0) == 0 by { PrefixOfNone(l, s.waits[t] / 2); }
    OwnCounts(s, t, n, l);
  }

  lemma PrefixOfNone(l: Input, r: nat)
    ensures Prefix(l, r, 0) == 0
  {
  }

  /** Tasklet u is in the second barrier of its round and cannot leave it yet. */
  predicate Stands(s: State, u: nat, n: nat)
    requires Sized(s, n) && u < n
  {
    Odd(s.waits[u]) && !InHandshake(s.pc[u]) && s.pc[u] != Bump
    && (s.pc[u].Spin? ==> s.sense != s.pc[u].next) && (s.pc[u].Collect? ==> s.pc[u].i < n)
  }

  lemma OtherStepKeepsReceive(s: State, a: nat, t: nat, n: nat, l: Input)
    requires Sized(s, n) && a < n && t < n && a != t && ReceiveInv(s, t, n, l)
    requires t > 0 && a == t - 1 && s.pc[t].ReadVal? ==> Stands(s, a, n) && s.waits[a] == s.waits[t]
    ensures var s' := Step(s, a, n, l); Sized(s', n) && ReceiveInv(s', t, n, l)
  {
    hide Step, Add, Prefix, EpochOf;
    StepFrame(s, a, t, n, l);
    if t > 0 && s.pc[t].ReadVal? && a == t - 1 {
      StandingStep(s, a, n, l);
    } else if t > 0 && s.pc[t].ReadVal? {
      StepFrame(s, a, t - 1, n, l);
    }
  }

  lemma StandingStep(s: State, a: nat, n: nat, l: Input)
    requires Sized(s, n) && a < n && Stands(s, a, n)
    ensures var s' := Step(s, a, n, l); Sized(s', n) && Marks(s', a) == Marks(s, a)
  {
  }

  /** While t is about to read its value, its left neighbour waits in the second barrier of the round. */
  lemma SenderStands(s: State, t: nat, n: nat, l: Input)
    requires Inv(s, n, l) && 0 < t < n && s.pc[t].ReadVal?
    ensures Stands(s, t - 1, n) && s.waits[t - 1] == s.waits[t]
    ensures s.slotVal[t] == Prefix(l, s.waits[t] / 2, t)
  {
    var u := t - 1;
    assert BarrierInv(s, t, n) && BarrierInv(s, u, n) && BarrierInv(s, 0, n);
    assert ReceiveInv(s, t, n, l) && SlotInv(s, u, n, l);
    SameRound(s, t, u, n);
    assert Marks(s, u) == s.waits[t] / 2 + 1;
    if s.pc[u].Collect? && s.pc[u].i >= n {
      AllArrived(s, t, n);
    }
  }

  lemma StepKeepsReceive(s: State, a: nat, t: nat, n: nat, l: Input)
    requires Inv(s, n, l) && a < n && t < n
    ensures var s' := Step(s, a, n, l); Sized(s', n) && ReceiveInv(s', t, n, l)
  {
    assert BarrierInv(s, t, n) && ReceiveInv(s, t, n, l);
    if t > 0 && s.pc[t].ReadVal? {
      SenderStands(s, t, n, l);
    }
    if a == t {
      if s.pc[t] == ReadEpoch {
        SameRound(s, t, 0, n);
        EpochInHandshake(s, n);
      }
      if s.pc[t].Poll? && s.slotEpoch[t] == s.pc[t].epoch {
        PollSeesThisRound(s, t, n, l);
      }
      OwnStepKeepsReceive(s, t, n, l);
    } else {
      OtherStepKeepsReceive(s, a, t, n, l);
    }
  }

  lemma EpochInHandshake(s: State, n: nat)
    requires Sized(s, n) && n > 0 && EpochInv(s, n) && Odd(s.waits[0])
    ensures s.gEpoch == EpochOf(s.waits[0] / 2)
  {
  }

  lemma OwnStepKeepsSlot(s: State, t: nat, n: nat, l: Input)
    requires Sized(s, n) && t + 1 < n && BarrierInv(s, t, n)
    requires ReceiveInv(s, t, n, l) && SlotInv(s, t, n, l)
    ensures var s' := Step(s, t, n, l); Sized(s', n) && SlotInv(s', t, n, l)
  {
    hide Sends, Marks, Odd, InHandshake, Arrived, Arrivals;
    OwnCounts(s, t, n, l);
  }

  lemma OtherStepKeepsSlot(s: State, a: nat, t: nat, n: nat, l: Input)
    requires Sized(s, n) && a < n && t + 1 < n && a != t && SlotInv(s, t, n, l)
    ensures var s' := Step(s, a, n, l); Sized(s', n) && SlotInv(s', t, n, l)
  {
    hide Step;
    StepFrame(s, a, t, n, l);
  }

  lemma StepKeepsSlot(s: State, a: nat, t: nat, n: nat, l: Input)
    requires Inv(s, n, l) && a < n && t + 1 < n
    ensures var s' := Step(s, a, n, l); Sized(s', n) && SlotInv(s', t, n, l)
  {
    assert BarrierInv(s, t, n) && ReceiveInv(s, t, n, l) && SlotInv(s, t, n, l);
    if a == t {
      OwnStepKeepsSlot(s, t, n, l);
    } else {
      OtherStepKeepsSlot(s, a, t, n, l);
    }
  }

  lemma StepKeepsEpoch(s: State, a: nat, n: nat, l: Input)
    requires Sized(s, n) && a < n && EpochInv(s, n) && BarrierInv(s, a, n)
    ensures var s' := Step(s, a, n, l); Sized(s', n) && EpochInv(s', n)
  {
    if a != 0 {
      StepFrame(s, a, 0, n, l);
      hide Step;
    } else {
      CollectorEpoch(s, n, l);
    }
  }

  lemma CollectorEpoch(s: State, n: nat, l: Input)
    requires Sized(s, n) && n > 0 && EpochInv(s, n) && BarrierInv(s, 0, n)
    ensures var s' := Step(s, 0, n, l); Sized(s', n) && EpochInv(s', n)
  {
    hide Bumps;
    OwnCounts(s, 0, n, l);
  }

  lemma StepKeepsTotals(s: State, a: nat, n: nat, l: Input)
    requires Sized(s, n) && a < n && TotalsInv(s, n, l) && BarrierInv(s, a, n) && ReceiveInv(s, a, n, l)
    ensures var s' := Step(s, a, n, l); Sized(s', n) && TotalsInv(s', n, l)
  {
    if a != n - 1 {
      StepFrame(s, a, n - 1, n, l);
      hide Step;
    } else {
      LastTotals(s, n, l);
    }
  }

  lemma LastTotals(s: State, n: nat, l: Input)
    requires Sized(s, n) && n > 0 && TotalsInv(s, n, l) && BarrierInv(s, n - 1, n) && ReceiveInv(s, n - 1, n, l)
    ensures var s' := Step(s, n - 1, n, l); Sized(s', n) && TotalsInv(s', n, l)
  {
    hide Sends;
    OwnCounts(s, n - 1, n, l);
    var a := n - 1;
    if s.pc[a].Send? {
      assert Prefix(l, s.waits[a] / 2, n) == Add(s.pc[a].p, l(s.waits[a] / 2, a));
    }
  }

  /** What every single shared access keeps. */
  lemma StepKeepsInv(s: State, a: nat, n: nat, l: Input)
    requires Inv(s, n, l) && a < n
    ensures Inv(Step(s, a, n, l), n, l)
  {
    StepKeepsCollect(s, a, n, l);
    assert BarrierInv(s, a, n) && ReceiveInv(s, a, n, l);
    StepKeepsEpoch(s, a, n, l);
    StepKeepsTotals(s, a, n, l);
    forall t | 0 <= t < n ensures BarrierInv(Step(s, a, n, l), t, n) {
      StepKeepsBarrier(s, a, t, n, l);
    }
    forall t | 0 <= t < n ensures ReceiveInv(Step(s, a, n, l), t, n, l) {
      StepKeepsReceive(s, a, t, n, l);
    }
    forall t | 0 <= t < n - 1 ensures SlotInv(Step(s, a, n, l), t, n, l) {
      StepKeepsSlot(s, a, t, n, l);
    }
  }

  lemma {:induction false} RunKeepsInv(states: seq<State>, who: seq<nat>, n: nat, l: Input, a: nat)
    requires Run(states, who, n, l) && n > 0 && a <= |who|
    ensures Inv(states[a], n, l)
    decreases a
  {
    if a == 0 {
      InitialInv(n, l);
    } else {
      RunKeepsInv(states, who, n, l, a - 1);
      StepKeepsInv(states[a - 1], who[a - 1], n, l);
    }
  }

  /** Nobody has left its k-th wait before every tasklet has entered it. */
  lemma BarrierSafe(states: seq<State>, who: seq<nat>, n: nat, l: Input, a: nat, t: nat, u: nat)
    requires Run(states, who, n, l) && a <= |who| && t < n && u < n
    ensures states[a].waits[t] <= Arrivals(states[a], u)
  {
    RunKeepsInv(states, who, n, l, a);
    assert BarrierInv(states[a], t, n) && BarrierInv(states[a], u, n);
  }

  // ----- sums -----

  function Sum(l: Input, r: nat, t: nat): nat
  {
    if t == 0 then 0 else Sum(l, r, t - 1) + l(r, t - 1)
  }

  lemma {:induction false} PrefixIsSum(l: Input, r: nat, t: nat)
    ensures Prefix(l, r, t) == Sum(l, r, t) % 0x1_0000_0000
  {
    if t != 0 {
      PrefixIsSum(l, r, t - 1);
    }
  }

  /**
   * In every run, what tasklet t has received in round r is the sum of l_count over the
   * lower tasklets, and the last tasklet's total is the sum over all, modulo 2^32.
   */
  lemma MailboxSums(states: seq<State>, who: seq<nat>, n: nat, l: Input, a: nat, t: nat, r: nat)
    requires Run(states, who, n, l) && a <= |who| && t < n
    ensures r < |states[a].got[t]| ==> states[a].got[t][r] == Sum(l, r, t) % 0x1_0000_0000
    ensures r < |states[a].totals| ==> states[a].totals[r] == Sum(l, r, n) % 0x1_0000_0000
    ensures |states[a].got[t]| >= states[a].waits[t] / 2
  {
    RunKeepsInv(states, who, n, l, a);
    assert ReceiveInv(states[a], t, n, l);
    PrefixIsSum(l, r, t);
    PrefixIsSum(l, r, n);
  }

  // ----- no deadlock -----

  /** Down from a polling tasklet there is one that can move: a poll is answered by the left neighbour. */
  lemma {:induction false} PollerOrLeftMoves(s: State, t: nat, n: nat, l: Input) returns (u: nat)
    requires Inv(s, n, l) && t < n && InHandshake(s.pc[t])
    ensures u < n && Step(s, u, n, l) != s
    decreases t
  {
    assert BarrierInv(s, t, n) && ReceiveInv(s, t, n, l);
    u := t;
    if s.pc[t].Poll? {
      assert BarrierInv(s, t - 1, n) && SlotInv(s, t - 1, n, l) && ReceiveInv(s, t - 1, n, l);
      SameRound(s, t, t - 1, n);
      if InHandshake(s.pc[t - 1]) {
        u := PollerOrLeftMoves(s, t - 1, n, l);
        return;
      }
      if s.pc[t - 1].Spin? && s.waits[t - 1] + 1 == s.flips {
        assert s.sense == s.pc[t - 1].next;
        u := t - 1;
      } else {
        assert Marks(s, t - 1) == s.waits[t] / 2 + 1;
      }
    }
    assert Step(s, u, n, l).pc[u] != s.pc[u];
  }

  /** In every reachable state some tasklet's next access is not a spin. */
  lemma NoDeadlock(states: seq<State>, who: seq<nat>, n: nat, l: Input, a: nat) returns (u: nat)
    requires Run(states, who, n, l) && n > 0 && a <= |who|
    ensures u < n && Step(states[a], u, n, l) != states[a]
  {
    RunKeepsInv(states, who, n, l, a);
    var s := states[a];
    assert BarrierInv(s, 0, n);
    u := 0;
    if s.pc[0].Collect? && s.pc[0].i < n {
      var i := s.pc[0].i;
      if s.arrive[i] != s.pc[0].next {
        assert BarrierInv(s, i, n);
        u := i;
      }
    }
    if InHandshake(s.pc[u]) {
      u := PollerOrLeftMoves(s, u, n, l);
    } else {
      assert Step(s, u, n, l).pc[u] != s.pc[u];
    }
  }
}
