/**
 * The barrier of src/ime-rt/barrier.c as a step system. Every section between
 * mutex_lock and mutex_unlock is one step; any number n of tasklets use a
 * barrier initialised for init of them, over and over, in every interleaving.
 */
module ImeBarrier {
  import Ranks

  /** The reset value of leader, which is no tasklet's id. */
  const NO_LEADER: nat := 0xFFFF

  datatype Pc =
    | Out           // not in a call, or about to make one
    | Enter         // in ime_enter_barrier
    | Wait          // in ime_wait_barrier, polling count
    | Done          // saw count == init, about to add one to done
    | Leave         // in ime_leave_barrier, about to compare leader with its id
    | LeadWait      // is the leader, polling done
    | LeadReset     // saw done == init, about to reset

  /** The shared fields, the tasklets, and a history of the episodes so far. */
  datatype State = State(
    count: nat, done: nat, leader: nat, pc: seq<Pc>,
    // history: the number of resets; per tasklet its episode; per episode who entered and what was returned
    episode: nat, mine: seq<nat>,
    entered: seq<set<nat>>, trues: seq<set<nat>>, falses: seq<set<nat>>)

  predicate Sized(s: State, n: nat)
  {
    |s.pc| == n && |s.mine| == n
    && |s.entered| == s.episode + 1 && |s.trues| == s.episode + 1 && |s.falses| == s.episode + 1
  }

  function Initial(n: nat): State
  {
    State(0, 0, NO_LEADER, seq(n, _ => Out), 0, seq(n, _ => 0), [{}], [{}], [{}])
  }

  function Jump(s: State, i: nat, pc: Pc): State
    requires i < |s.pc|
  {
    s.(pc := s.pc[i := pc])
  }

  /** One critical section (or call) of tasklet i. */
  function Step(s: State, i: nat, init: nat, n: nat): State
    requires Sized(s, n) && i < n
  {
    match s.pc[i]
    case Out => Jump(s, i, Enter)
    case Enter =>
      if s.count == init then s
      else
        Jump(s, i, Wait).(leader := if i < s.leader then i else s.leader, count := s.count + 1,
                          mine := s.mine[i := s.episode],
                          entered := s.entered[s.episode := s.entered[s.episode] + {i}])
    case Wait => if s.count == init then Jump(s, i, Done) else s
    case Done => Jump(s, i, Leave).(done := s.done + 1)
    case Leave =>
      if s.leader == i then Jump(s, i, LeadWait)
      else if s.mine[i] <= s.episode then
        Jump(s, i, Out).(falses := s.falses[s.mine[i] := s.falses[s.mine[i]] + {i}])
      else s
    case LeadWait => if s.done == init then Jump(s, i, LeadReset) else s
    case LeadReset =>
      if s.mine[i] <= s.episode then
        Jump(s, i, Out).(count := 0, done := 0, leader := NO_LEADER, episode := s.episode + 1,
                         trues := s.trues[s.mine[i] := s.trues[s.mine[i]] + {i}] + [{}],
                         falses := s.falses + [{}], entered := s.entered + [{}])
      else s
  }

  ghost predicate Run(states: seq<State>, who: seq<nat>, init: nat, n: nat)
  {
    |states| == |who| + 1 && states[0] == Initial(n)
    && (forall a :: 0 <= a < |states| ==> Sized(states[a], n))
    && (forall a :: 0 <= a < |who| ==> who[a] < n && states[a + 1] == Step(states[a], who[a], init, n))
  }

  // ----- the invariant -----

  predicate Inside(pc: Pc) { pc != Out && pc != Enter }
  predicate Leading(pc: Pc) { pc == LeadWait || pc == LeadReset }

  ghost function Current(s: State): set<nat>
    requires |s.entered| == s.episode + 1
  {
    s.entered[s.episode]
  }

  /** The entrants of the current episode that have not yet added to done. */
  ghost function Uncounted(s: State): set<nat>
    requires |s.entered| == s.episode + 1
  {
    set i | i in s.entered[s.episode] && i < |s.pc| && (s.pc[i] == Wait || s.pc[i] == Done)
  }

  ghost predicate TaskletInv(s: State, i: nat, init: nat, n: nat)
    requires Sized(s, n) && i < n
  {
    && s.mine[i] <= s.episode
    && (Inside(s.pc[i]) && s.pc[i] != Leave ==> s.mine[i] == s.episode)
    && (Leading(s.pc[i]) ==> s.leader == i)
    && (s.pc[i] == LeadReset ==> s.done == init)
    && (s.leader == i ==> Inside(s.pc[i]) && s.mine[i] == s.episode)
    && EntrantInv(s, i, init)
  }

  /** A tasklet inside is an entrant of its episode, which is full once the tasklet has seen it full. */
  ghost predicate EntrantInv(s: State, i: nat, init: nat)
    requires i < |s.pc| == |s.mine| && s.mine[i] < |s.entered|
  {
    Inside(s.pc[i]) ==> i in s.entered[s.mine[i]] && (s.pc[i] != Wait ==> |s.entered[s.mine[i]]| == init)
  }

  /** Episode e: who has returned, with what, and who is still inside. */
  ghost predicate EpisodeInv(s: State, e: nat, init: nat, n: nat)
    requires Sized(s, n) && e <= s.episode
  {
    && (forall i :: i in s.entered[e] ==> i < n)
    && (forall i :: i in s.trues[e] || i in s.falses[e] ==> i in s.entered[e])
    && s.trues[e] !! s.falses[e]
    && (forall i :: i in s.entered[e] ==>
          (i in s.trues[e] + s.falses[e] <==> !(Inside(s.pc[i]) && s.mine[i] == e)))
    && |s.entered[e]| <= init
    && (e < s.episode ==> |s.entered[e]| == init && |s.trues[e]| == 1)
    && (e == s.episode ==> s.trues[e] == {})
    && (s.trues[e] + s.falses[e] != {} ==> |s.entered[e]| == init)
  }

  /** The shared fields agree with the current episode; leader is its least entrant. */
  ghost predicate FieldsInv(s: State, init: nat, n: nat)
  {
    && Sized(s, n) && 1 <= init && n <= NO_LEADER
    && s.count == |Current(s)|
    && s.done + |Uncounted(s)| == s.count
    && (if Current(s) == {} then s.leader == NO_LEADER else s.leader in Current(s))
    && (forall i :: i in Current(s) ==> s.leader <= i)
  }

  ghost predicate Inv(s: State, init: nat, n: nat)
  {
    && FieldsInv(s, init, n)
    && (forall i :: 0 <= i < n ==> TaskletInv(s, i, init, n))
    && (forall e :: 0 <= e <= s.episode ==> EpisodeInv(s, e, init, n))
  }

  lemma InitialInv(init: nat, n: nat)
    requires 1 <= init && n <= NO_LEADER
    ensures Inv(Initial(n), init, n)
  {
    assert Uncounted(Initial(n)) == {};
  }

  /** Nobody is about to add to done once done is complete, and the reset finds nobody polling. */
  lemma AllCounted(s: State, init: nat, n: nat, i: nat)
    requires FieldsInv(s, init, n) && s.done == init && i < n
    requires TaskletInv(s, i, init, n) && EpisodeInv(s, s.episode, init, n)
    ensures s.pc[i] != Wait && s.pc[i] != Done
    ensures s.count == init
  {
    assert |Uncounted(s)| == 0;
    assert i !in Uncounted(s);
  }

  lemma OwnStepKeepsTasklet(s: State, a: nat, init: nat, n: nat)
    requires FieldsInv(s, init, n) && a < n
    requires TaskletInv(s, a, init, n) && EpisodeInv(s, s.episode, init, n)
    ensures Sized(Step(s, a, init, n), n) && TaskletInv(Step(s, a, init, n), a, init, n)
  {
    hide Uncounted;
    match s.pc[a]
    case Enter => OwnEnter(s, a, init, n);
    case Wait =>
    case Done =>
    case Leave =>
    case LeadWait =>
    case LeadReset =>
    case Out =>
  }

  lemma OwnEnter(s: State, a: nat, init: nat, n: nat)
    requires FieldsInv(s, init, n) && a < n
    requires TaskletInv(s, a, init, n) && EpisodeInv(s, s.episode, init, n)
    requires s.pc[a] == Enter
    ensures Sized(Step(s, a, init, n), n) && TaskletInv(Step(s, a, init, n), a, init, n)
  {
    hide Uncounted;
  }

  lemma OtherStepKeepsTasklet(s: State, a: nat, i: nat, init: nat, n: nat)
    requires FieldsInv(s, init, n) && a < n && i < n && i != a
    requires TaskletInv(s, a, init, n) && TaskletInv(s, i, init, n) && EpisodeInv(s, s.episode, init, n)
    ensures Sized(Step(s, a, init, n), n) && TaskletInv(Step(s, a, init, n), i, init, n)
  {
    var s' := Step(s, a, init, n);
    assert s'.pc[i] == s.pc[i] && s'.mine[i] == s.mine[i];
    EntrantsStay(s, a, i, init, n);
    if s.pc[a] == LeadReset {
      AllCounted(s, init, n, i);
    }
    hide EntrantInv, Uncounted, EpisodeInv;
  }

  lemma EntrantsStay(s: State, a: nat, i: nat, init: nat, n: nat)
    requires FieldsInv(s, init, n) && a < n && i < n && i != a
    requires TaskletInv(s, a, init, n) && TaskletInv(s, i, init, n)
    ensures var s' := Step(s, a, init, n); Sized(s', n) && s'.mine[i] == s.mine[i] && EntrantInv(s', i, init)
  {
    hide Uncounted, EpisodeInv;
    var s' := Step(s, a, init, n);
    if s.pc[a] == Enter && s.count != init && s.mine[i] == s.episode {
      assert s'.entered[s.mine[i]] == Current(s) + {a};
    } else {
      assert s'.entered[s.mine[i]] == s.entered[s.mine[i]];
    }
  }

  lemma StepKeepsTasklet(s: State, a: nat, i: nat, init: nat, n: nat)
    requires FieldsInv(s, init, n) && a < n && i < n
    requires TaskletInv(s, a, init, n) && TaskletInv(s, i, init, n) && EpisodeInv(s, s.episode, init, n)
    ensures Sized(Step(s, a, init, n), n) && TaskletInv(Step(s, a, init, n), i, init, n)
  {
    if i == a {
      OwnStepKeepsTasklet(s, a, init, n);
    } else {
      OtherStepKeepsTasklet(s, a, i, init, n);
    }
  }

  /** A step that enters nobody and lets nobody return. */
  predicate Quiet(s: State, a: nat, init: nat)
    requires a < |s.pc|
  {
    match s.pc[a]
    case Enter => s.count == init
    case Leave => s.leader == a
    case LeadReset => false
    case _ => true
  }

  lemma EnterKeepsEpisode(s: State, a: nat, e: nat, init: nat, n: nat)
    requires FieldsInv(s, init, n) && a < n && e <= s.episode
    requires TaskletInv(s, a, init, n) && EpisodeInv(s, e, init, n) && EpisodeInv(s, s.episode, init, n)
    requires s.pc[a] == Enter && s.count != init
    ensures Sized(Step(s, a, init, n), n) && EpisodeInv(Step(s, a, init, n), e, init, n)
  {
    var s' := Step(s, a, init, n);
    assert a !in Current(s);
    if e != s.episode {
      assert s'.entered[e] == s.entered[e];
    }
  }

  lemma LeaveKeepsEpisode(s: State, a: nat, e: nat, init: nat, n: nat)
    requires FieldsInv(s, init, n) && a < n && e <= s.episode
    requires TaskletInv(s, a, init, n) && EpisodeInv(s, e, init, n) && EpisodeInv(s, s.episode, init, n)
    requires s.pc[a] == Leave && s.leader != a
    ensures Sized(Step(s, a, init, n), n) && EpisodeInv(Step(s, a, init, n), e, init, n)
  {
    var m := s.mine[a];
    var s' := s.(pc := s.pc[a := Out], falses := s.falses[m := s.falses[m] + {a}]);
    assert s' == Step(s, a, init, n);
    hide Step, FieldsInv;
    if e == m {
      LeaveKeepsOwnEpisode(s, a, init, n, s');
    } else {
      LeaveKeepsOtherEpisode(s, a, e, init, n, s');
    }
  }

  lemma LeaveKeepsOwnEpisode(s: State, a: nat, init: nat, n: nat, s': State)
    requires Sized(s, n) && a < n && s.mine[a] <= s.episode
    requires TaskletInv(s, a, init, n) && EpisodeInv(s, s.mine[a], init, n) && s.pc[a] == Leave
    requires s' == s.(pc := s.pc[a := Out], falses := s.falses[s.mine[a] := s.falses[s.mine[a]] + {a}])
    ensures Sized(s', n) && EpisodeInv(s', s.mine[a], init, n)
  {
    assert s'.falses[s.mine[a]] == s.falses[s.mine[a]] + {a} && a !in s.trues[s.mine[a]];
  }

  lemma LeaveKeepsOtherEpisode(s: State, a: nat, e: nat, init: nat, n: nat, s': State)
    requires Sized(s, n) && a < n && s.mine[a] <= s.episode && e <= s.episode && e != s.mine[a]
    requires EpisodeInv(s, e, init, n)
    requires s' == s.(pc := s.pc[a := Out], falses := s.falses[s.mine[a] := s.falses[s.mine[a]] + {a}])
    ensures Sized(s', n) && EpisodeInv(s', e, init, n)
  {
    assert s'.falses[e] == s.falses[e];
  }

  lemma ResetKeepsEpisode(s: State, a: nat, e: nat, init: nat, n: nat)
    requires FieldsInv(s, init, n) && a < n && e <= s.episode
    requires TaskletInv(s, a, init, n) && EpisodeInv(s, e, init, n) && EpisodeInv(s, s.episode, init, n)
    requires s.pc[a] == LeadReset
    ensures Sized(Step(s, a, init, n), n) && EpisodeInv(Step(s, a, init, n), e, init, n)
  {
    var s' := Step(s, a, init, n);
    assert s'.entered[e] == s.entered[e] && s'.falses[e] == s.falses[e];
    assert forall i :: 0 <= i < n && i != a ==> s'.pc[i] == s.pc[i];
    if e == s.episode {
      assert s'.trues[e] == {a};
    } else {
      assert s'.trues[e] == s.trues[e];
    }
  }

  lemma QuietStep(s: State, a: nat, init: nat, n: nat)
    requires Sized(s, n) && a < n && TaskletInv(s, a, init, n) && Quiet(s, a, init)
    ensures var s' := Step(s, a, init, n);
            && Sized(s', n) && s'.episode == s.episode && s'.mine == s.mine
            && s'.entered == s.entered && s'.trues == s.trues && s'.falses == s.falses
            && forall i :: 0 <= i < n ==> Inside(s'.pc[i]) == Inside(s.pc[i])
  {
  }

  lemma QuietKeepsEpisode(s: State, a: nat, e: nat, init: nat, n: nat)
    requires FieldsInv(s, init, n) && a < n && e <= s.episode
    requires TaskletInv(s, a, init, n) && EpisodeInv(s, e, init, n) && EpisodeInv(s, s.episode, init, n)
    requires Quiet(s, a, init)
    ensures Sized(Step(s, a, init, n), n) && EpisodeInv(Step(s, a, init, n), e, init, n)
  {
    var s' := Step(s, a, init, n);
    QuietStep(s, a, init, n);
    hide Step, Quiet;
  }

  lemma StepKeepsEpisode(s: State, a: nat, e: nat, init: nat, n: nat)
    requires FieldsInv(s, init, n) && a < n && e <= s.episode
    requires TaskletInv(s, a, init, n) && EpisodeInv(s, e, init, n) && EpisodeInv(s, s.episode, init, n)
    ensures Sized(Step(s, a, init, n), n) && EpisodeInv(Step(s, a, init, n), e, init, n)
  {
    if Quiet(s, a, init) {
      QuietKeepsEpisode(s, a, e, init, n);
    } else if s.pc[a] == Enter {
      EnterKeepsEpisode(s, a, e, init, n);
    } else if s.pc[a] == Leave {
      LeaveKeepsEpisode(s, a, e, init, n);
    } else {
      ResetKeepsEpisode(s, a, e, init, n);
    }
  }

  lemma ResetOpensEpisode(s: State, a: nat, init: nat, n: nat)
    requires FieldsInv(s, init, n) && a < n && s.pc[a] == LeadReset && TaskletInv(s, a, init, n)
    ensures var s' := Step(s, a, init, n); Sized(s', n) && EpisodeInv(s', s.episode + 1, init, n)
  {
  }

  lemma EnterKeepsFields(s: State, a: nat, init: nat, n: nat)
    requires FieldsInv(s, init, n) && a < n
    requires TaskletInv(s, a, init, n) && EpisodeInv(s, s.episode, init, n)
    requires s.pc[a] == Enter && s.count != init
    ensures FieldsInv(Step(s, a, init, n), init, n)
  {
    var s' := Step(s, a, init, n);
    assert a !in Current(s) && a !in Uncounted(s);
    assert Current(s') == Current(s) + {a};
    assert Uncounted(s') == Uncounted(s) + {a};
  }

  lemma DoneKeepsFields(s: State, a: nat, init: nat, n: nat)
    requires FieldsInv(s, init, n) && a < n
    requires TaskletInv(s, a, init, n) && EpisodeInv(s, s.episode, init, n)
    requires s.pc[a] == Done
    ensures FieldsInv(Step(s, a, init, n), init, n)
  {
    assert a in Uncounted(s);
    assert Uncounted(Step(s, a, init, n)) == Uncounted(s) - {a};
  }

  lemma ResetKeepsFields(s: State, a: nat, init: nat, n: nat)
    requires FieldsInv(s, init, n) && a < n
    requires TaskletInv(s, a, init, n) && EpisodeInv(s, s.episode, init, n)
    requires s.pc[a] == LeadReset
    ensures FieldsInv(Step(s, a, init, n), init, n)
  {
    assert Uncounted(Step(s, a, init, n)) == {};
  }

  lemma OtherKeepsFields(s: State, a: nat, init: nat, n: nat)
    requires FieldsInv(s, init, n) && a < n
    requires TaskletInv(s, a, init, n) && EpisodeInv(s, s.episode, init, n)
    requires s.pc[a] != Done && s.pc[a] != LeadReset && (s.pc[a] == Enter ==> s.count == init)
    ensures FieldsInv(Step(s, a, init, n), init, n)
  {
    var s' := Step(s, a, init, n);
    assert Current(s') == Current(s);
    assert Uncounted(s') == Uncounted(s);
  }

  lemma StepKeepsFields(s: State, a: nat, init: nat, n: nat)
    requires FieldsInv(s, init, n) && a < n
    requires TaskletInv(s, a, init, n) && EpisodeInv(s, s.episode, init, n)
    ensures FieldsInv(Step(s, a, init, n), init, n)
  {
    if s.pc[a] == Enter && s.count != init {
      EnterKeepsFields(s, a, init, n);
    } else if s.pc[a] == Done {
      DoneKeepsFields(s, a, init, n);
    } else if s.pc[a] == LeadReset {
      ResetKeepsFields(s, a, init, n);
    } else {
      OtherKeepsFields(s, a, init, n);
    }
  }

  /** What every critical section keeps. */
  lemma StepKeepsInv(s: State, a: nat, init: nat, n: nat)
    requires Inv(s, init, n) && a < n
    ensures Inv(Step(s, a, init, n), init, n)
  {
    assert TaskletInv(s, a, init, n) && EpisodeInv(s, s.episode, init, n);
    StepKeepsFields(s, a, init, n);
    forall i | 0 <= i < n ensures TaskletInv(Step(s, a, init, n), i, init, n) {
      StepKeepsTasklet(s, a, i, init, n);
    }
    forall e | 0 <= e <= Step(s, a, init, n).episode ensures EpisodeInv(Step(s, a, init, n), e, init, n) {
      if e <= s.episode {
        StepKeepsEpisode(s, a, e, init, n);
      } else {
        ResetOpensEpisode(s, a, init, n);
      }
    }
  }

  lemma {:induction false} RunKeepsInv(states: seq<State>, who: seq<nat>, init: nat, n: nat, a: nat)
    requires Run(states, who, init, n) && 1 <= init && n <= 0xFFFF && a <= |who|
    ensures Inv(states[a], init, n)
    decreases a
  {
    if a == 0 {
      InitialInv(init, n);
    } else {
      RunKeepsInv(states, who, init, n, a - 1);
      StepKeepsInv(states[a - 1], who[a - 1], init, n);
    }
  }

  /**
   * Over any run and any number of reuses: a caller has returned from episode e only
   * if exactly init callers have entered it; a finished episode has exactly one caller
   * that returned true and the running one has none; and when nobody is left inside an
   * episode that anyone returned from, all its init entrants have returned.
   */
  lemma BarrierCorrect(states: seq<State>, who: seq<nat>, init: nat, n: nat, a: nat, e: nat)
    requires Run(states, who, init, n) && 1 <= init && n <= 0xFFFF
    requires a <= |who| && e <= states[a].episode
    ensures var s := states[a];
            && (s.trues[e] + s.falses[e] != {} ==> |s.entered[e]| == init)
            && s.trues[e] + s.falses[e] <= s.entered[e] && s.trues[e] !! s.falses[e]
            && |s.trues[e]| == (if e < s.episode then 1 else 0)
            && ((forall i :: 0 <= i < n ==> !(Inside(s.pc[i]) && s.mine[i] == e)) ==>
                  s.trues[e] + s.falses[e] == s.entered[e])
  {
    RunKeepsInv(states, who, init, n, a);
    assert EpisodeInv(states[a], e, init, n);
  }

  // ----- progress -----

  function StepsLeft(pc: Pc): nat
  {
    match pc
    case Wait => 5
    case Done => 4
    case Leave => 3
    case LeadWait => 2
    case LeadReset => 1
    case _ => 0
  }

  /** The critical sections all tasklets inside still have to run, spins not counted. */
  function Rank(pc: seq<Pc>): nat
  {
    Ranks.Total(pc, StepsLeft)
  }

  /** Once count has reached init, some tasklet inside has a step that lowers the rank. */
  lemma FullBarrierAdvances(s: State, init: nat, n: nat) returns (i: nat)
    requires Inv(s, init, n) && s.count == init
    ensures i < n && Inside(s.pc[i])
    ensures Rank(Step(s, i, init, n).pc) < Rank(s.pc)
  {
    assert EpisodeInv(s, s.episode, init, n);
    if u :| u in Uncounted(s) {
      i := u;
    } else {
      i := s.leader;
      assert TaskletInv(s, i, init, n);
    }
    Ranks.TotalUpdate(s.pc, StepsLeft, i, Step(s, i, init, n).pc[i]);
    assert Step(s, i, init, n).pc == s.pc[i := Step(s, i, init, n).pc[i]];
  }

  /** And no step raises it; until the reset count stays at init. */
  lemma FullBarrierNeverRetreats(s: State, i: nat, init: nat, n: nat)
    requires Inv(s, init, n) && s.count == init && i < n
    ensures var s' := Step(s, i, init, n);
            Rank(s'.pc) <= Rank(s.pc) && (s' == s || s.pc[i] == Out || Rank(s'.pc) < Rank(s.pc))
            && (if s'.episode == s.episode then s'.count == init
                else s'.episode == s.episode + 1 && s'.count == 0)
            && s'.pc == s.pc[i := s'.pc[i]]
  {
    var s' := Step(s, i, init, n);
    assert TaskletInv(s, i, init, n);
    Ranks.TotalUpdate(s.pc, StepsLeft, i, s'.pc[i]);
    assert s'.pc == s.pc[i := s'.pc[i]];
  }

  /** The state after the critical sections of the tasklets in who, in that order. */
  ghost function After(s: State, who: seq<nat>, init: nat, n: nat): State
    requires Sized(s, n) && forall k :: 0 <= k < |who| ==> who[k] < n
    decreases |who|
  {
    if who == [] then s else After(Step(s, who[0], init, n), who[1..], init, n)
  }

  lemma AfterNext(s: State, i: nat, rest: seq<nat>, init: nat, n: nat)
    requires Sized(s, n) && i < n && forall k :: 0 <= k < |rest| ==> rest[k] < n
    ensures Sized(Step(s, i, init, n), n) && forall k :: 0 <= k < |[i] + rest| ==> ([i] + rest)[k] < n
    ensures After(s, [i] + rest, init, n) == After(Step(s, i, init, n), rest, init, n)
  {
    assert Sized(Step(s, i, init, n), n);
    hide Step;
    assert ([i] + rest)[1..] == rest;
    assert forall k :: 0 <= k < |rest| ==> ([i] + rest)[k + 1] == rest[k];
  }

  lemma SameInside(pc: seq<Pc>, i: nat, p: Pc, rest: seq<nat>)
    requires i < |pc| && Inside(pc[i])
    requires forall k :: 0 <= k < |rest| ==> rest[k] < |pc| && Inside(pc[i := p][rest[k]])
    ensures forall k :: 0 <= k < |[i] + rest| ==> Inside(pc[([i] + rest)[k]])
  {
    forall k | 0 <= k < |rest| ensures Inside(pc[rest[k]]) {
      assert rest[k] != i ==> pc[i := p][rest[k]] == pc[rest[k]];
    }
  }

  /**
   * So from every full barrier, whatever the tasklets have done so far, at most Rank critical
   * sections lead through the reset to the next episode, which starts with nobody in it.
   */
  lemma {:induction false} FullBarrierResets(s: State, init: nat, n: nat) returns (who: seq<nat>)
    requires Inv(s, init, n) && s.count == init
    ensures 0 < |who| <= Rank(s.pc) && forall k :: 0 <= k < |who| ==> who[k] < n && Inside(s.pc[who[k]])
    ensures var s' := After(s, who, init, n);
            Inv(s', init, n) && s'.episode == s.episode + 1 && s'.count == 0 && |s'.trues[s.episode]| == 1
    decreases Rank(s.pc)
  {
    var i := FullBarrierAdvances(s, init, n);
    var s' := Step(s, i, init, n);
    StepKeepsInv(s, i, init, n);
    FullBarrierNeverRetreats(s, i, init, n);
    assert Sized(s, n) && Sized(s', n) && EpisodeInv(s', s.episode, init, n);
    assert s.episode < s'.episode ==> |s'.trues[s.episode]| == 1;
    hide Rank, Inv, Step, EpisodeInv, After, Inside;
    var rest: seq<nat> := [];
    if s'.episode == s.episode {
      rest := FullBarrierResets(s', init, n);
      SameInside(s.pc, i, s'.pc[i], rest);
    } else {
      NoneAfter(s', init, n);
    }
    AfterNext(s, i, rest, init, n);
    who := [i] + rest;
  }

  lemma NoneAfter(s: State, init: nat, n: nat)
    requires Sized(s, n)
    ensures After(s, [], init, n) == s
  {
  }

  // ----- filling the barrier -----

  /** A caller enters exactly when the barrier is not full; otherwise it spins. */
  lemma EntersUnlessFull(s: State, i: nat, init: nat, n: nat)
    requires Inv(s, init, n) && i < n && s.pc[i] == Enter
    ensures s.count <= init
    ensures var s' := Step(s, i, init, n);
            if s.count < init then
              s'.pc == s.pc[i := Wait] && s'.count == s.count + 1 && s'.episode == s.episode && i in Current(s')
            else s' == s
  {
    assert EpisodeInv(s, s.episode, init, n);
  }

  /** A tasklet that is not in the current episode can always go on towards entering it. */
  lemma Outsider(s: State, i: nat, init: nat, n: nat)
    requires Inv(s, init, n) && i < n && i !in Current(s) && s.pc[i] != Enter
    ensures s.pc[i] == Out || s.pc[i] == Leave
    ensures var s' := Step(s, i, init, n);
            && s'.pc == s.pc[i := if s.pc[i] == Out then Enter else Out]
            && s'.count == s.count && s'.episode == s.episode && s'.entered == s.entered
  {
    assert TaskletInv(s, i, init, n);
  }

  /** Its steps up to the one that enters. */
  function ToEnter(pc: Pc): nat { if pc == Enter then 1 else if pc == Out then 2 else 3 }

  lemma {:induction false} OutsiderEnters(s: State, i: nat, init: nat, n: nat) returns (who: seq<nat>)
    requires Inv(s, init, n) && i < n && i !in Current(s) && s.count < init
    ensures |who| <= ToEnter(s.pc[i]) && forall k :: 0 <= k < |who| ==> who[k] < n
    ensures var s' := After(s, who, init, n);
            Inv(s', init, n) && s'.count == s.count + 1 && s'.episode == s.episode
    decreases ToEnter(s.pc[i])
  {
    var s' := Step(s, i, init, n);
    StepKeepsInv(s, i, init, n);
    assert Sized(s, n) && Sized(s', n);
    var rest: seq<nat> := [];
    if s.pc[i] == Enter {
      EntersUnlessFull(s, i, init, n);
      NoneAfter(s', init, n);
    } else {
      Outsider(s, i, init, n);
      assert Current(s') == Current(s);
      hide Inv, Step, After;
      rest := OutsiderEnters(s', i, init, n);
    }
    hide Inv, Step, After;
    AfterNext(s, i, rest, init, n);
    who := [i] + rest;
  }

  lemma SomeoneOutside(inside: set<nat>, n: nat) returns (i: nat)
    requires |inside| < n
    ensures i < n && i !in inside
  {
    if forall i: nat :: i < n ==> i in inside {
      assert FirstNats(n) <= inside;
      Contained(FirstNats(n), inside);
      assert false;
    }
    i :| i < n && i !in inside;
  }

  function FirstNats(n: nat): (s: set<nat>)
    ensures |s| == n && forall i: nat :: i in s <==> i < n
  {
    if n == 0 then {} else FirstNats(n - 1) + {n - 1}
  }

  lemma Contained(a: set<nat>, b: set<nat>)
    requires a <= b
    ensures |a| <= |b|
  {
    if x :| x in a {
      Contained(a - {x}, b - {x});
    }
  }

  lemma {:induction false} AfterBoth(s: State, first: seq<nat>, second: seq<nat>, init: nat, n: nat)
    requires Sized(s, n) && (forall k :: 0 <= k < |first| ==> first[k] < n)
    requires Sized(After(s, first, init, n), n) && (forall k :: 0 <= k < |second| ==> second[k] < n)
    ensures forall k :: 0 <= k < |first + second| ==> (first + second)[k] < n
    ensures After(s, first + second, init, n) == After(After(s, first, init, n), second, init, n)
    decreases |first|
  {
    if first == [] {
      assert first + second == second;
    } else {
      assert first + second == [first[0]] + (first[1..] + second) && first == [first[0]] + first[1..];
      AfterNext(s, first[0], first[1..] + second, init, n);
      AfterBoth(Step(s, first[0], init, n), first[1..], second, init, n);
    }
  }

  /**
   * With at least init tasklets no episode is the last: from every state of every run there is a
   * continuation in which the barrier fills, somebody returns true and the next episode begins.
   */
  lemma {:induction false} EpisodesGoOn(s: State, init: nat, n: nat) returns (who: seq<nat>)
    requires Inv(s, init, n) && init <= n
    ensures forall k :: 0 <= k < |who| ==> who[k] < n
    ensures var s' := After(s, who, init, n);
            Inv(s', init, n) && s'.episode == s.episode + 1 && s'.count == 0 && |s'.trues[s.episode]| == 1
    decreases init - s.count
  {
    assert EpisodeInv(s, s.episode, init, n);
    if s.count == init {
      who := FullBarrierResets(s, init, n);
    } else {
      var i := SomeoneOutside(Current(s), n);
      who := OutsiderEnters(s, i, init, n);
      var s' := After(s, who, init, n);
      assert Sized(s, n) && Sized(s', n);
      hide Inv, Step, After, EpisodeInv;
      var rest := EpisodesGoOn(s', init, n);
      AfterBoth(s, who, rest, init, n);
      who := who + rest;
    }
  }
}
