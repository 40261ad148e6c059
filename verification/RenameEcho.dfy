/**
 The claim counter that is to keep a rename from being announced twice, shared by `/name` calls,
 other renames and the event pump.
 */
module RenameEcho {
  import opened Wrappers

  /** `n.checked_sub(1)`, kept when it fails. */
  function CountDown(n: nat): nat {
    if n == 0 then 0 else n - 1
  }

  class RenameEcho {
    var outstanding: nat

    constructor ()
      ensures outstanding == 0
    {
      outstanding := 0;
    }

    method Claim()
      modifies this
      ensures outstanding == old(outstanding) + 1
      ensures forall s: State | s.outstanding == old(outstanding) :: Step(s, Action.Claim).outstanding == outstanding
    {
      outstanding := outstanding + 1;
    }

    /** The pump's question; a yes consumes one claim. */
    method Take() returns (taken: bool)
      modifies this
      ensures taken <==> old(outstanding) > 0
      ensures outstanding == CountDown(old(outstanding))
      ensures forall s: State | s.outstanding == old(outstanding) && s.queue != [] ::
                && Step(s, Deliver).outstanding == outstanding
                && Step(s, Deliver).muted == s.muted + (if taken then [s.queue[0]] else [])
                && Step(s, Deliver).pumped == s.pumped + (if taken then [] else [s.queue[0]])
    {
      taken := outstanding > 0;
      if taken {
        outstanding := outstanding - 1;
      }
    }

    /** The claim's drop: released unless it was kept, and never below zero. */
    method DropClaim(kept: bool)
      modifies this
      ensures outstanding == if kept then old(outstanding) else CountDown(old(outstanding))
      ensures forall s: State, i: nat
                | s.outstanding == old(outstanding) && Enabled(s, if kept then Answer(i) else Fail(i)) ::
                Step(s, if kept then Answer(i) else Fail(i)).outstanding == outstanding
    {
      if !kept && outstanding > 0 {
        outstanding := outstanding - 1;
      }
    }
  }

  // ----------------------------------------------------------------------- interleavings

  /** How far one `/name` call has come. */
  datatype Phase = Claimed | Renamed | Answered | Failed

  /** What a rename event, or an update, is about: the rename of one `/name` call, or another one. */
  datatype Source = Own(call: nat) | Other(index: nat)

  /**
   One step of one task: a `/name` claims, then renames (which emits the event), then keeps its
   claim and sends its own update, or fails and drops its claim; something else renames; the pump
   takes the next event.
   */
  datatype Action =
    | Claim
    | Rename(call: nat)
    | Answer(call: nat)
    | Fail(call: nat)
    | RenameOutside
    | Deliver

  /**
   `queue` holds the events emitted and not yet delivered, in order. `echoed` and `pumped` are the
   updates sent by `/name` and by the pump, `muted` the events the pump took a claim for, and
   `missed` counts the failures that found no claim left to drop.
   */
  datatype State = State(
    outstanding: nat, calls: seq<Phase>, queue: seq<Source>, outside: nat,
    echoed: seq<Source>, pumped: seq<Source>, muted: seq<Source>, missed: nat)

  const START := State(0, [], [], 0, [], [], [], 0)

  predicate Enabled(s: State, a: Action) {
    match a
    case Claim => true
    case Rename(i) => i < |s.calls| && s.calls[i].Claimed?
    case Answer(i) => i < |s.calls| && s.calls[i].Renamed?
    case Fail(i) => i < |s.calls| && s.calls[i].Claimed?
    case RenameOutside => true
    case Deliver => s.queue != []
  }

  /** The claim is not keyed: the pump mutes whatever event comes while one stands. */
  function Step(s: State, a: Action): State
    requires Enabled(s, a)
  {
    match a
    case Claim => s.(outstanding := s.outstanding + 1, calls := s.calls + [Claimed])
    case Rename(i) => s.(calls := s.calls[i := Renamed], queue := s.queue + [Own(i)])
    case Answer(i) => s.(calls := s.calls[i := Answered], echoed := s.echoed + [Own(i)])
    case Fail(i) =>
      s.(calls := s.calls[i := Failed], outstanding := CountDown(s.outstanding),
         missed := if s.outstanding == 0 then s.missed + 1 else s.missed)
    case RenameOutside => s.(queue := s.queue + [Other(s.outside)], outside := s.outside + 1)
    case Deliver =>
      var event, rest := s.queue[0], s.queue[1..];
      if s.outstanding > 0
      then s.(queue := rest, outstanding := CountDown(s.outstanding), muted := s.muted + [event])
      else s.(queue := rest, pumped := s.pumped + [event])
  }

  /** The state after a run, or `None` when some action was not enabled. */
  function Run(actions: seq<Action>): Option<State> {
    if actions == [] then Some(START)
    else
      match Run(actions[..|actions| - 1])
      case None => None
      case Some(s) =>
        if Enabled(s, actions[|actions| - 1]) then Some(Step(s, actions[|actions| - 1])) else None
  }

  function Count(calls: seq<Phase>, phase: Phase): nat {
    multiset(calls)[phase]
  }

  function Times(log: seq<Source>, source: Source): nat {
    multiset(log)[source]
  }

  /** How many entries of a log are about renames that are not `/name`'s. */
  function Others(log: seq<Source>): nat {
    if log == [] then 0 else Others(log[..|log| - 1]) + if log[|log| - 1].Other? then 1 else 0
  }

  function Owns(log: seq<Source>): nat {
    if log == [] then 0 else Owns(log[..|log| - 1]) + if log[|log| - 1].Own? then 1 else 0
  }

  /** The rename happened. */
  predicate Happened(s: State, source: Source) {
    match source
    case Own(i) => i < |s.calls| && (s.calls[i].Renamed? || s.calls[i].Answered?)
    case Other(j) => j < s.outside
  }

  /** `/name` has sent its own update of the rename. */
  predicate Echoed(s: State, source: Source) {
    source.Own? && source.call < |s.calls| && s.calls[source.call].Answered?
  }

  /** How often the client was told of one rename. */
  function Told(s: State, source: Source): nat {
    Times(s.echoed, source) + Times(s.pumped, source)
  }

  /** The renames that happened: those of `/name` and the others. */
  function Renames(s: State): nat {
    Count(s.calls, Renamed) + Count(s.calls, Answered) + s.outside
  }

  function Updates(s: State): nat {
    |s.echoed| + |s.pumped|
  }

  /** Nothing is under way: every call has answered or failed and every event was delivered. */
  predicate Quiet(s: State) {
    s.queue == [] && Count(s.calls, Claimed) == 0 && Count(s.calls, Renamed) == 0
  }

  // ----------------------------------------------------------------------- what runs keep

  /** Each rename that happened has one event, which waits, was muted or was pumped. */
  predicate EventInv(s: State, source: Source) {
    Times(s.queue, source) + Times(s.muted, source) + Times(s.pumped, source)
    == if Happened(s, source) then 1 else 0
  }

  predicate EchoInv(s: State, source: Source) {
    Times(s.echoed, source) == if Echoed(s, source) then 1 else 0
  }

  ghost predicate LogInv(s: State) {
    forall source :: EventInv(s, source) && EchoInv(s, source)
  }

  /** The same in totals, and the balance of claims. */
  ghost predicate Inv(s: State) {
    && |s.echoed| == Count(s.calls, Answered)
    && Others(s.queue) + Others(s.muted) + Others(s.pumped) == s.outside
    && Owns(s.queue) + Owns(s.muted) + Owns(s.pumped) == Count(s.calls, Renamed) + Count(s.calls, Answered)
    && s.missed <= Count(s.calls, Failed)
    && s.outstanding + |s.muted| + Count(s.calls, Failed) == |s.calls| + s.missed
    && s.outstanding <= Count(s.calls, Claimed) + Owns(s.queue)
  }

  lemma {:induction false} CountsAddUp(calls: seq<Phase>)
    ensures Count(calls, Claimed) + Count(calls, Renamed) + Count(calls, Answered) + Count(calls, Failed) == |calls|
  {
    if calls == [] {
      assert multiset(calls) == multiset{};
    } else {
      CountsAddUp(calls[1..]);
      assert calls == [calls[0]] + calls[1..];
      var one := multiset{calls[0]};
      assert multiset(calls) == one + multiset(calls[1..]);
      match calls[0] {
        case Claimed =>
        case Renamed =>
        case Answered =>
        case Failed =>
      }
    }
  }

  lemma {:induction false} SourcesAddUp(log: seq<Source>)
    ensures Owns(log) + Others(log) == |log|
  {
    if log != [] {
      SourcesAddUp(log[..|log| - 1]);
    }
  }

  lemma LogGrows(log: seq<Source>, source: Source)
    ensures Others(log + [source]) == Others(log) + if source.Other? then 1 else 0
    ensures Owns(log + [source]) == Owns(log) + if source.Own? then 1 else 0
  {
    assert (log + [source])[..|log|] == log;
  }

  lemma {:induction false} HeadLeaves(log: seq<Source>)
    requires log != []
    ensures Others(log) == Others(log[1..]) + if log[0].Other? then 1 else 0
    ensures Owns(log) == Owns(log[1..]) + if log[0].Own? then 1 else 0
  {
    var n := |log| - 1;
    if n > 0 {
      HeadLeaves(log[..n]);
      assert log[..n][1..] == log[1..][..n - 1];
    }
  }

  lemma DeliverKeepsInv(s: State)
    requires Inv(s) && s.queue != []
    ensures Inv(Step(s, Deliver))
  {
    HeadLeaves(s.queue);
    if s.outstanding > 0 {
      LogGrows(s.muted, s.queue[0]);
    } else {
      LogGrows(s.pumped, s.queue[0]);
    }
  }

  /** Every step of every task keeps the balance. */
  lemma StepKeepsInv(s: State, a: Action)
    requires Inv(s) && Enabled(s, a)
    ensures Inv(Step(s, a))
  {
    match a
    case Claim => CountsGrow(s.calls, Claimed);
    case Rename(i) => RenameKeepsInv(s, i);
    case Answer(i) => AnswerKeepsInv(s, i);
    case Fail(i) => FailKeepsInv(s, i);
    case RenameOutside => LogGrows(s.queue, Other(s.outside));
    case Deliver => DeliverKeepsInv(s);
  }

  lemma RenameKeepsInv(s: State, i: nat)
    requires Inv(s) && i < |s.calls| && s.calls[i].Claimed?
    ensures Inv(Step(s, Action.Rename(i)))
  {
    CountsMove(s.calls, i, Claimed, Renamed);
    LogGrows(s.queue, Own(i));
  }

  lemma AnswerKeepsInv(s: State, i: nat)
    requires Inv(s) && i < |s.calls| && s.calls[i].Renamed?
    ensures Inv(Step(s, Action.Answer(i)))
  {
    CountsMove(s.calls, i, Renamed, Answered);
  }

  lemma FailKeepsInv(s: State, i: nat)
    requires Inv(s) && i < |s.calls| && s.calls[i].Claimed?
    ensures Inv(Step(s, Action.Fail(i)))
  {
    CountsMove(s.calls, i, Claimed, Failed);
  }

  lemma CountsGrow(calls: seq<Phase>, phase: Phase)
    ensures forall p :: Count(calls + [phase], p) == if p == phase then Count(calls, p) + 1 else Count(calls, p)
  {
  }

  lemma CountsMove(calls: seq<Phase>, i: nat, from: Phase, to: Phase)
    requires i < |calls| && calls[i] == from != to
    ensures Count(calls, from) > 0
    ensures forall p :: Count(calls[i := to], p)
                        == if p == to then Count(calls, p) + 1
                           else if p == from then Count(calls, p) - 1 else Count(calls, p)
  {
  }

  /** Every step of every task keeps one event for each rename, and one echo for each answer. */
  lemma StepKeepsLog(s: State, a: Action, source: Source)
    requires EventInv(s, source) && EchoInv(s, source) && Enabled(s, a)
    ensures EventInv(Step(s, a), source) && EchoInv(Step(s, a), source)
  {
    if a.Deliver? {
      assert s.queue == [s.queue[0]] + s.queue[1..];
      assert multiset(s.queue) == multiset{s.queue[0]} + multiset(s.queue[1..]);
    }
  }

  lemma FreshKeepsInv(s: State)
    requires s.calls == [] && s.outstanding == 0 && s.queue == [] && s.outside == 0
    requires s.echoed == [] && s.pumped == [] && s.muted == [] && s.missed == 0
    ensures Inv(s) && LogInv(s)
  {
  }

  lemma {:induction false} RunsKeepInv(actions: seq<Action>)
    requires Run(actions).Some?
    ensures Inv(Run(actions).value) && LogInv(Run(actions).value)
  {
    if actions == [] {
      FreshKeepsInv(Run(actions).value);
    } else {
      var before, last := Run(actions[..|actions| - 1]).value, actions[|actions| - 1];
      RunsKeepInv(actions[..|actions| - 1]);
      StepKeepsInv(before, last);
      forall source
        ensures EventInv(Step(before, last), source) && EchoInv(Step(before, last), source)
      {
        StepKeepsLog(before, last, source);
      }
    }
  }

  // ------------------------------------------------------------------------ rename by rename

  /** The client was told once of each rename. */
  ghost predicate ToldOnce(s: State) {
    forall source | Happened(s, source) :: Told(s, source) == 1
  }

  lemma {:induction false} NoneOfOthers(log: seq<Source>)
    ensures Others(log) == 0 <==> forall source: Source | source.Other? :: Times(log, source) == 0
  {
    if log != [] {
      var early, last := log[..|log| - 1], log[|log| - 1];
      NoneOfOthers(early);
      assert log == early + [last];
      assert Times(log, last) > 0;
      assert forall source :: source != last ==> Times(log, source) == Times(early, source);
    }
  }

  lemma {:induction false} NoneOfOwns(log: seq<Source>)
    ensures Owns(log) == 0 <==> forall source: Source | source.Own? :: Times(log, source) == 0
  {
    if log != [] {
      var early, last := log[..|log| - 1], log[|log| - 1];
      NoneOfOwns(early);
      assert log == early + [last];
      assert Times(log, last) > 0;
      assert forall source :: source != last ==> Times(log, source) == Times(early, source);
    }
  }

  /** A `/name` is told once by itself and again when pumped, another rename once unless muted. */
  predicate ToldAsRouted(s: State, source: Source) {
    Told(s, source)
    == if !Happened(s, source) then 0
       else if source.Own? then 1 + Times(s.pumped, source)
       else 1 - Times(s.muted, source)
  }

  lemma ToldOfOne(s: State, source: Source)
    requires EventInv(s, source) && EchoInv(s, source) && Quiet(s)
    ensures ToldAsRouted(s, source)
  {
    if Happened(s, source) && source.Own? {
      assert s.calls[source.call] in multiset(s.calls);
    }
  }

  /**
   Rename by rename, once nothing is under way: a `/name` is told twice exactly when its own event
   was pumped, another rename never exactly when its event was muted, and every one of them once
   exactly when no event of another rename was muted. The events that went the wrong way balance.
   */
  lemma ToldOnceIff(actions: seq<Action>)
    requires Run(actions).Some? && Quiet(Run(actions).value)
    ensures var s := Run(actions).value;
            && Owns(s.pumped) + s.missed == Others(s.muted)
            && (ToldOnce(s) <==> Others(s.muted) == 0)
            && (forall source :: ToldAsRouted(s, source))
  {
    var s := Run(actions).value;
    RunsKeepInv(actions);
    forall source
      ensures EventInv(s, source) && ToldAsRouted(s, source)
    {
      assert EventInv(s, source) && EchoInv(s, source);
      ToldOfOne(s, source);
    }
    QuietBalance(s);
    ToldOnceIffNoneMuted(s);
  }

  lemma QuietBalance(s: State)
    requires Inv(s) && Quiet(s)
    ensures s.outstanding == 0 && Owns(s.pumped) + s.missed == Others(s.muted)
  {
    CountsAddUp(s.calls);
    SourcesAddUp(s.muted);
  }

  lemma ToldOnceIffNoneMuted(s: State)
    requires Owns(s.pumped) <= Others(s.muted)
    requires forall source :: EventInv(s, source) && ToldAsRouted(s, source)
    ensures ToldOnce(s) <==> Others(s.muted) == 0
  {
    NoneOfOthers(s.muted);
    NoneOfOwns(s.pumped);
    if ToldOnce(s) {
      forall source: Source | source.Other?
        ensures Times(s.muted, source) == 0
      {
        assert EventInv(s, source) && ToldAsRouted(s, source);
      }
    } else if Others(s.muted) == 0 {
      forall source | Happened(s, source)
        ensures Told(s, source) == 1
      {
        assert ToldAsRouted(s, source);
      }
    }
  }

  /** No event of another rename is delivered while a claim stands. */
  predicate NeverTakesAnother(actions: seq<Action>) {
    actions != [] ==>
      var early, last := actions[..|actions| - 1], actions[|actions| - 1];
      && NeverTakesAnother(early)
      && (last.Deliver? && Run(early).Some? && Run(early).value.queue != [] && Run(early).value.queue[0].Other?
          ==> Run(early).value.outstanding == 0)
  }

  lemma {:induction false} NoneMutedIff(actions: seq<Action>)
    requires Run(actions).Some?
    ensures Others(Run(actions).value.muted) == 0 <==> NeverTakesAnother(actions)
  {
    if actions != [] {
      var early, last := actions[..|actions| - 1], actions[|actions| - 1];
      NoneMutedIff(early);
      var s := Run(early).value;
      if last.Deliver? {
        LogGrows(s.muted, s.queue[0]);
      }
    }
  }

  /**
   One update for each rename, exactly: over every interleaving, once nothing is under way, the
   client was told once of each rename exactly when no event of another rename was delivered while
   a claim stood.
   */
  lemma OneUpdateForEachIff(actions: seq<Action>)
    requires Run(actions).Some? && Quiet(Run(actions).value)
    ensures ToldOnce(Run(actions).value) <==> NeverTakesAnother(actions)
  {
    ToldOnceIff(actions);
    NoneMutedIff(actions);
  }

  /** At every moment of a run that keeps to it, no rename was told twice and no failure found its claim taken. */
  lemma NeverToldTwice(actions: seq<Action>)
    requires Run(actions).Some? && NeverTakesAnother(actions)
    ensures Run(actions).value.missed == 0
    ensures forall source :: Told(Run(actions).value, source) <= 1
  {
    RunsKeepInv(actions);
    NoneMutedIff(actions);
    ToldAtMostOnce(Run(actions).value);
  }

  lemma ToldAtMostOnce(s: State)
    requires Inv(s) && LogInv(s) && Others(s.muted) == 0
    ensures s.missed == 0
    ensures forall source :: Told(s, source) <= 1
  {
    NoneAstray(s);
    forall source
      ensures Told(s, source) <= 1
    {
      assert EventInv(s, source) && EchoInv(s, source);
      if source.Own? {
        NoneOfOwns(s.pumped);
      }
    }
  }

  /** Events of `/name` that are pumped, and failures that find no claim, come from events of others that are muted. */
  lemma NoneAstray(s: State)
    requires Inv(s) && Others(s.muted) == 0
    ensures s.missed == 0 && Owns(s.pumped) == 0
  {
    CountsAddUp(s.calls);
    SourcesAddUp(s.muted);
  }

  // ------------------------------------------------------------------------------ in totals

  /**
   At every moment of every interleaving no more updates were sent than renames happened, less the
   failures that found no claim.
   */
  lemma NoMoreUpdatesThanRenames(actions: seq<Action>)
    requires Run(actions).Some?
    ensures var s := Run(actions).value;
            |s.pumped| + s.missed <= s.outside && Updates(s) + s.missed <= Renames(s)
  {
    var s := Run(actions).value;
    RunsKeepInv(actions);
    CountsAddUp(s.calls);
    SourcesAddUp(s.queue);
    SourcesAddUp(s.muted);
    SourcesAddUp(s.pumped);
  }

  /**
   Once nothing is under way, no claim is left behind, and there are as many updates as renames
   less the failures that found their claim already taken.
   */
  lemma AsManyUpdatesAsRenames(actions: seq<Action>)
    requires Run(actions).Some? && Quiet(Run(actions).value)
    ensures var s := Run(actions).value;
            && s.outstanding == 0
            && Updates(s) + s.missed == Renames(s)
            && (Updates(s) == Renames(s) <==> s.missed == 0)
            && (Count(s.calls, Failed) == 0 ==> Updates(s) == Renames(s))
  {
    var s := Run(actions).value;
    RunsKeepInv(actions);
    CountsAddUp(s.calls);
    SourcesAddUp(s.muted);
    SourcesAddUp(s.pumped);
    QuietBalance(s);
  }

  // --------------------------------------------------------------------------- two failures

  /** A `/name` that fails after another rename was delivered. */
  function Failing(s: State): State {
    s.(calls := s.calls + [Failed], outside := s.outside + 1, muted := s.muted + [Other(s.outside)],
       missed := s.missed + 1)
  }

  /** A `/name` that renames after another rename was delivered. */
  function Overtaken(s: State): State {
    var own := Own(|s.calls|);
    s.(calls := s.calls + [Answered], outside := s.outside + 1, muted := s.muted + [Other(s.outside)],
       pumped := s.pumped + [own], echoed := s.echoed + [own])
  }

  /** A claim stands, and another rename was delivered. */
  function Robbed(s: State): State {
    s.(calls := s.calls + [Claimed], outside := s.outside + 1, muted := s.muted + [Other(s.outside)])
  }

  lemma RunsRobbed(actions: seq<Action>, s: State)
    requires Run(actions) == Some(s) && s.queue == [] && s.outstanding == 0
    ensures Run(actions + [Claim] + [RenameOutside] + [Deliver]) == Some(Robbed(s))
  {
    var s1 := Step(s, Claim);
    var s2 := Step(s1, RenameOutside);
    RunOneMore(actions, s, Claim);
    RunOneMore(actions + [Claim], s1, RenameOutside);
    RunOneMore(actions + [Claim] + [RenameOutside], s2, Deliver);
    assert ([] + [Other(s.outside)])[1..] == [];
  }

  lemma RunsFailing(actions: seq<Action>, s: State)
    requires Run(actions) == Some(s) && s.queue == [] && s.outstanding == 0
    ensures Run(actions + [Claim] + [RenameOutside] + [Deliver] + [Fail(|s.calls|)]) == Some(Failing(s))
  {
    RunsRobbed(actions, s);
    RunOneMore(actions + [Claim] + [RenameOutside] + [Deliver], Robbed(s), Fail(|s.calls|));
    assert (s.calls + [Claimed])[|s.calls| := Failed] == s.calls + [Failed];
  }

  lemma RunsOvertaken(actions: seq<Action>, s: State)
    requires Run(actions) == Some(s) && s.queue == [] && s.outstanding == 0
    ensures Run(actions + [Claim] + [RenameOutside] + [Deliver] + [Rename(|s.calls|)] + [Deliver] + [Answer(|s.calls|)])
            == Some(Overtaken(s))
  {
    var n := |s.calls|;
    var robbed := actions + [Claim] + [RenameOutside] + [Deliver];
    RunsRobbed(actions, s);
    var s1 := Step(Robbed(s), Rename(n));
    var s2 := Step(s1, Deliver);
    RunOneMore(robbed, Robbed(s), Rename(n));
    RunOneMore(robbed + [Rename(n)], s1, Deliver);
    RunOneMore(robbed + [Rename(n)] + [Deliver], s2, Answer(n));
    OvertakenSteps(s);
  }

  lemma OvertakenSteps(s: State)
    requires s.queue == [] && s.outstanding == 0
    ensures var n := |s.calls|;
            var s1 := Step(Robbed(s), Rename(n));
            && s1.queue != [] && Enabled(Step(s1, Deliver), Answer(n))
            && Step(Step(s1, Deliver), Answer(n)) == Overtaken(s)
  {
    var n := |s.calls|;
    assert ([] + [Own(n)])[1..] == [];
    assert (s.calls + [Claimed])[n := Renamed][n := Answered] == s.calls + [Answered];
  }

  /**
   A failing `/name` can cost an unrelated rename its update: the event is delivered between the
   claim and the failure, after any run at all that left nothing under way.
   */
  lemma FailureCanCostAnUpdate(actions: seq<Action>)
    requires Run(actions).Some? && Quiet(Run(actions).value)
    ensures var s := Run(actions).value;
            var longer := Run(actions + [Claim] + [RenameOutside] + [Deliver] + [Fail(|s.calls|)]);
            && longer.Some? && Quiet(longer.value)
            && Renames(longer.value) == Renames(s) + 1 && Updates(longer.value) == Updates(s)
            && Happened(longer.value, Other(s.outside)) && Told(longer.value, Other(s.outside)) == 0
  {
    var s := Run(actions).value;
    RunsKeepInv(actions);
    QuietBalance(s);
    RunsFailing(actions, s);
    assert EventInv(s, Other(s.outside)) && EchoInv(s, Other(s.outside));
    FailingCosts(s);
  }

  lemma FailingCosts(s: State)
    requires Quiet(s) && EventInv(s, Other(s.outside)) && EchoInv(s, Other(s.outside))
    ensures Quiet(Failing(s)) && Renames(Failing(s)) == Renames(s) + 1 && Updates(Failing(s)) == Updates(s)
    ensures Told(Failing(s), Other(s.outside)) == 0
  {
    CountsGrow(s.calls, Failed);
  }

  /**
   No failure is needed: after any run that left nothing under way, a `/name` that another rename
   overtakes is told twice and the other one never, and the totals do not show it.
   */
  lemma OvertakenNameIsToldTwice(actions: seq<Action>)
    requires Run(actions).Some? && Quiet(Run(actions).value)
    ensures var s := Run(actions).value;
            var n := |s.calls|;
            var longer := Run(actions + [Claim] + [RenameOutside] + [Deliver] + [Rename(n)] + [Deliver] + [Answer(n)]);
            && longer.Some? && Quiet(longer.value) && longer.value.missed == s.missed
            && Count(longer.value.calls, Failed) == Count(s.calls, Failed)
            && Happened(longer.value, Own(n)) && Told(longer.value, Own(n)) == 2
            && Happened(longer.value, Other(s.outside)) && Told(longer.value, Other(s.outside)) == 0
            && Updates(longer.value) - Updates(s) == Renames(longer.value) - Renames(s)
  {
    var s := Run(actions).value;
    RunsKeepInv(actions);
    QuietBalance(s);
    RunsOvertaken(actions, s);
    assert EventInv(s, Own(|s.calls|)) && EchoInv(s, Own(|s.calls|));
    assert EventInv(s, Other(s.outside)) && EchoInv(s, Other(s.outside));
    OvertakingCosts(s);
  }

  lemma OvertakingCosts(s: State)
    requires Quiet(s) && EventInv(s, Own(|s.calls|)) && EchoInv(s, Own(|s.calls|))
    requires EventInv(s, Other(s.outside)) && EchoInv(s, Other(s.outside))
    ensures Quiet(Overtaken(s)) && Count(Overtaken(s).calls, Failed) == Count(s.calls, Failed)
    ensures Told(Overtaken(s), Own(|s.calls|)) == 2 && Told(Overtaken(s), Other(s.outside)) == 0
    ensures Updates(Overtaken(s)) - Updates(s) == Renames(Overtaken(s)) - Renames(s) == 2
  {
    CountsGrow(s.calls, Answered);
  }

  lemma RunOneMore(actions: seq<Action>, s: State, a: Action)
    requires Run(actions) == Some(s) && Enabled(s, a)
    ensures Run(actions + [a]) == Some(Step(s, a))
  {
    assert (actions + [a])[..|actions|] == actions;
  }
}
