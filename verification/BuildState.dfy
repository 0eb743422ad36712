/** The build lifecycle. */
module BuildStates {
  import opened Prelude
  import opened PathMachine

  datatype BuildState =
    | Queued | Assigned | Preparing | Cloning | Installing | Prebuilding | Compiling | Signing | Uploading
    | Succeeded | Failed | Cancelled | TimedOut

  const BUILD_STATES: seq<BuildState> :=
    [Queued, Assigned, Preparing, Cloning, Installing, Prebuilding, Compiling, Signing, Uploading,
     Succeeded, Failed, Cancelled, TimedOut]

  const HAPPY_PATH: seq<BuildState> :=
    [Queued, Assigned, Preparing, Cloning, Installing, Prebuilding, Compiling, Signing, Uploading, Succeeded]

  const ABORT_STATES: seq<BuildState> := [Failed, Cancelled, TimedOut]

  const TERMINAL_BUILD_STATES: set<BuildState> := {Succeeded, Failed, Cancelled, TimedOut}

  datatype TransitionError = InvalidStateTransition(from: BuildState, to: BuildState)

  type Transitions = map<BuildState, set<BuildState>>

  ghost predicate BuiltFromPath(m: Transitions) {
    IsTransitionMap(m, BUILD_STATES, HAPPY_PATH, ABORT_STATES, TERMINAL_BUILD_STATES)
  }

  function AssertBuildTransition(m: Transitions, from: BuildState, to: BuildState)
    : Result<BuildState, TransitionError>
  {
    if !CanTransition(m, from, to) then Err(InvalidStateTransition(from, to)) else Ok(to)
  }

  /** Every transition of the run passes the assertion. */
  predicate Asserted(m: Transitions, run: seq<BuildState>) {
    forall i :: 0 <= i < |run| - 1 ==> AssertBuildTransition(m, run[i], run[i + 1]) == Ok(run[i + 1])
  }

  lemma BuildMachineIsGood()
    ensures GoodMachine(BUILD_STATES, HAPPY_PATH, ABORT_STATES, TERMINAL_BUILD_STATES)
  {
    forall i | 0 <= i < |HAPPY_PATH| ensures HAPPY_PATH[i] in BUILD_STATES {
      assert HAPPY_PATH[i] == BUILD_STATES[i];
    }
    forall i | 0 <= i < |ABORT_STATES| ensures ABORT_STATES[i] in BUILD_STATES {
      assert ABORT_STATES[i] == BUILD_STATES[10 + i];
    }
  }

  /**
   A sequence of states from Queued is accepted step by step exactly when, repeats aside, it follows
   the happy path, or leaves it before Succeeded by one abort and stays there.
   */
  lemma BuildLanguage(m: Transitions, run: seq<BuildState>)
    requires BuiltFromPath(m) && run != [] && run[0] == Queued
    ensures Asserted(m, run) <==> IsWord(HAPPY_PATH, ABORT_STATES, Changes(run))
    ensures Asserted(m, run) ==> |Changes(run)| - 1 <= 9
  {
    BuildMachineIsGood();
    assert HAPPY_PATH[0] == Queued;
    RunLanguage(m, BUILD_STATES, HAPPY_PATH, ABORT_STATES, TERMINAL_BUILD_STATES, run);
    AssertedIsAccepted(m, run);
  }

  /** The map that is built accepts exactly those sequences. */
  method BuildTransitions() returns (m: Transitions)
    ensures BuiltFromPath(m)
    ensures forall run :: run != [] && run[0] == Queued ==>
              (Asserted(m, run) <==> IsWord(HAPPY_PATH, ABORT_STATES, Changes(run)))
  {
    BuildMachineIsGood();
    m := BuildTransitionMap(BUILD_STATES, HAPPY_PATH, ABORT_STATES, TERMINAL_BUILD_STATES);
    forall run | run != [] && run[0] == Queued
      ensures Asserted(m, run) <==> IsWord(HAPPY_PATH, ABORT_STATES, Changes(run))
    {
      BuildLanguage(m, run);
    }
  }

  lemma AssertedIsAccepted(m: Transitions, run: seq<BuildState>)
    ensures Asserted(m, run) <==> Accepted(m, run)
  {
    if Asserted(m, run) {
      forall i | 0 <= i < |run| - 1 ensures CanTransition(m, run[i], run[i + 1]) {
        assert AssertBuildTransition(m, run[i], run[i + 1]) == Ok(run[i + 1]);
      }
    }
  }

  /** From a terminal state only the same state is accepted; from any other, something else is too. */
  lemma TerminalIff(m: Transitions, s: BuildState)
    requires BuiltFromPath(m)
    ensures s in TERMINAL_BUILD_STATES <==> forall t :: CanTransition(m, s, t) ==> t == s
    ensures s in TERMINAL_BUILD_STATES <==> s in {Succeeded, Failed, Cancelled, TimedOut}
  {
    BuildMachineIsGood();
    assert s in BUILD_STATES by { Listed(s); }
    if s in TERMINAL_BUILD_STATES {
      forall t | CanTransition(m, s, t) ensures t == s {
        if i :| 0 <= i < |HAPPY_PATH| - 1 && HAPPY_PATH[i] == s && HAPPY_PATH[i + 1] == t {
          assert HAPPY_PATH[i] !in ABORT_STATES;
        }
      }
    } else {
      assert Edge(HAPPY_PATH, ABORT_STATES, TERMINAL_BUILD_STATES, s, ABORT_STATES[0]);
      assert CanTransition(m, s, Failed);
    }
  }

  lemma Listed(s: BuildState)
    ensures s in BUILD_STATES
  {
    var i := match s
      case Queued => 0 case Assigned => 1 case Preparing => 2 case Cloning => 3 case Installing => 4
      case Prebuilding => 5 case Compiling => 6 case Signing => 7 case Uploading => 8
      case Succeeded => 9 case Failed => 10 case Cancelled => 11 case TimedOut => 12;
    assert BUILD_STATES[i] == s;
  }

  /** The stages of a build, one after the other. */
  predicate Follows(from: BuildState, to: BuildState) {
    match from
    case Queued => to == Assigned
    case Assigned => to == Preparing
    case Preparing => to == Cloning
    case Cloning => to == Installing
    case Installing => to == Prebuilding
    case Prebuilding => to == Compiling
    case Compiling => to == Signing
    case Signing => to == Uploading
    case Uploading => to == Succeeded
    case _ => false
  }

  lemma PathFollows(i: nat)
    requires i < |HAPPY_PATH| - 1
    ensures Follows(HAPPY_PATH[i], HAPPY_PATH[i + 1])
  {
  }

  lemma FollowsPath(from: BuildState, to: BuildState)
    requires Follows(from, to)
    ensures exists i :: 0 <= i < |HAPPY_PATH| - 1 && HAPPY_PATH[i] == from && HAPPY_PATH[i + 1] == to
  {
    var i := match from
      case Queued => 0 case Assigned => 1 case Preparing => 2 case Cloning => 3 case Installing => 4
      case Prebuilding => 5 case Compiling => 6 case Signing => 7 case _ => 8;
    assert HAPPY_PATH[i] == from && HAPPY_PATH[i + 1] == to;
  }

  lemma AbortsAre(to: BuildState)
    ensures to in ABORT_STATES <==> to == Failed || to == Cancelled || to == TimedOut
  {
    assert ABORT_STATES[0] == Failed && ABORT_STATES[1] == Cancelled && ABORT_STATES[2] == TimedOut;
  }

  predicate IsEnd(s: BuildState) {
    s == Succeeded || IsAbort(s)
  }

  predicate IsAbort(s: BuildState) {
    s == Failed || s == Cancelled || s == TimedOut
  }

  lemma PathEdges(path: seq<BuildState>, from: BuildState, to: BuildState)
    requires path == HAPPY_PATH
    ensures (exists i :: 0 <= i < |path| - 1 && path[i] == from && path[i + 1] == to) <==> Follows(from, to)
  {
    if Follows(from, to) {
      FollowsPath(from, to);
    } else if i :| 0 <= i < |path| - 1 && path[i] == from && path[i + 1] == to {
      PathFollows(i);
    }
  }

  lemma EndsAre(s: BuildState)
    ensures s in TERMINAL_BUILD_STATES <==> IsEnd(s)
  {
  }

  lemma EdgeSplits(
    path: seq<BuildState>, aborts: seq<BuildState>, ends: set<BuildState>, from: BuildState, to: BuildState)
    ensures Edge(path, aborts, ends, from, to) <==>
            (exists i :: 0 <= i < |path| - 1 && path[i] == from && path[i + 1] == to) || (from !in ends && to in aborts)
  {
  }

  lemma EdgeIs(
    path: seq<BuildState>, aborts: seq<BuildState>, ends: set<BuildState>, from: BuildState, to: BuildState)
    requires path == HAPPY_PATH && aborts == ABORT_STATES && ends == TERMINAL_BUILD_STATES
    ensures Edge(path, aborts, ends, from, to) <==> Follows(from, to) || (!IsEnd(from) && IsAbort(to))
  {
    AbortsAre(to);
    EndsAre(from);
    PathEdges(path, from, to);
    EdgeSplits(path, aborts, ends, from, to);
  }

  /** The table in full: which moves are allowed, and how the others are refused. */
  lemma BuildMoves(m: Transitions, from: BuildState, to: BuildState)
    requires BuiltFromPath(m)
    ensures AssertBuildTransition(m, from, to) ==
            if from == to || Follows(from, to) || (!IsEnd(from) && IsAbort(to))
            then Ok(to) else Err(InvalidStateTransition(from, to))
  {
    Listed(from);
    EdgeIs(HAPPY_PATH, ABORT_STATES, TERMINAL_BUILD_STATES, from, to);
    assert to in m[from] <==> Edge(HAPPY_PATH, ABORT_STATES, TERMINAL_BUILD_STATES, from, to);
  }

  const STAGES: seq<BuildState> :=
    [Queued, Assigned, Preparing, Cloning, Installing, Prebuilding, Compiling, Signing, Uploading]

  lemma StagesFirst(n: nat)
    requires n <= 9
    ensures |HAPPY_PATH| == 10 && HAPPY_PATH[..n] == STAGES[..n] && HAPPY_PATH == STAGES + [Succeeded]
  {
    assert HAPPY_PATH == STAGES + [Succeeded];
  }

  lemma StageIsNoEnd(i: nat)
    requires i < 9
    ensures !IsEnd(STAGES[i])
  {
  }

  lemma WordShape(d: seq<BuildState>)
    requires IsWord(HAPPY_PATH, ABORT_STATES, d)
    ensures d != []
    ensures d == STAGES + [Succeeded]
            || (exists n :: 1 <= n <= 9 && d == STAGES[..n] && !IsEnd(d[|d| - 1]))
            || (exists n :: 1 <= n <= 9 && d == STAGES[..n] + [d[|d| - 1]] && IsAbort(d[|d| - 1]))
  {
    var k := |d|;
    StagesFirst(if k <= 9 then k else 9);
    if d <= HAPPY_PATH {
      assert d == HAPPY_PATH[..k];
      if k <= 9 { StageIsNoEnd(k - 1); }
    } else {
      StagesFirst(k - 1);
      AbortsAre(d[k - 1]);
      assert d == d[..k - 1] + [d[k - 1]];
    }
  }

  /** A build that succeeded went through every stage in order; any other run stopped or aborted after some. */
  lemma BuildRuns(m: Transitions, run: seq<BuildState>)
    requires BuiltFromPath(m) && run != [] && run[0] == Queued && Asserted(m, run)
    ensures var stages :=
              [Queued, Assigned, Preparing, Cloning, Installing, Prebuilding, Compiling, Signing, Uploading];
            var d, last := Changes(run), run[|run| - 1];
            || d == stages + [Succeeded]
            || (exists n :: 1 <= n <= 9 && d == stages[..n] && !IsEnd(last))
            || (exists n :: 1 <= n <= 9 && d == stages[..n] + [last] && IsAbort(last))
  {
    BuildLanguage(m, run);
    WordShape(Changes(run));
  }
}
