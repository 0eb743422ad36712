/** The submission lifecycle. */
module SubmissionStates {
  import opened Prelude
  import opened PathMachine

  datatype SubmissionState =
    | Queued | Uploading | Processing | Ready | Submitting | Submitted | Approved | Rejected | Failed

  function Targets(s: SubmissionState): set<SubmissionState> {
    match s
    case Queued => {Uploading, Failed}
    case Uploading => {Processing, Failed}
    case Processing => {Ready, Failed}
    case Ready => {Submitting, Submitted, Failed}
    case Submitting => {Submitted, Failed}
    case Submitted => {Approved, Rejected, Failed}
    case Approved => {}
    case Rejected => {}
    case Failed => {}
  }

  predicate IsTerminal(s: SubmissionState) {
    s in {Approved, Rejected, Failed}
  }

  predicate CanTransitionSubmission(from: SubmissionState, to: SubmissionState) {
    from == to || to in Targets(from)
  }

  datatype TransitionError = InvalidStateTransition(from: SubmissionState, to: SubmissionState)

  function AssertSubmissionTransition(from: SubmissionState, to: SubmissionState)
    : Result<SubmissionState, TransitionError>
  {
    if !CanTransitionSubmission(from, to) then Err(InvalidStateTransition(from, to)) else Ok(to)
  }

  /** Every transition of the run passes the assertion. */
  predicate AcceptedSubmission(run: seq<SubmissionState>) {
    forall i :: 0 <= i < |run| - 1 ==> AssertSubmissionTransition(run[i], run[i + 1]) == Ok(run[i + 1])
  }

  /** The state before `s` on the way to it; `via`: Submitted comes after Submitting. */
  function Before(s: SubmissionState, via: bool): SubmissionState
    requires s != Queued && s != Failed
  {
    match s
    case Uploading => Queued
    case Processing => Uploading
    case Ready => Processing
    case Submitting => Ready
    case Submitted => if via then Submitting else Ready
    case Approved => Submitted
    case Rejected => Submitted
  }

  function Rank(s: SubmissionState): nat {
    match s
    case Queued => 0 case Uploading => 1 case Processing => 2 case Ready => 3 case Submitting => 4
    case Submitted => 5 case Approved => 6 case Rejected => 6 case Failed => 7
  }

  /** How a submission comes to a state other than Failed. */
  function PathTo(s: SubmissionState, via: bool): (d: seq<SubmissionState>)
    requires s != Failed
    ensures d != [] && d[|d| - 1] == s
    decreases Rank(s)
  {
    if s == Queued then [Queued] else PathTo(Before(s, via), via) + [s]
  }

  /** A way to a state other than Failed. */
  predicate IsWay(d: seq<SubmissionState>) {
    d != [] &&
    var last := d[|d| - 1];
    last != Failed && (d == PathTo(last, true) || d == PathTo(last, false))
  }

  /** A way, or a way to a state that is not terminal and then Failed. */
  predicate IsHistory(d: seq<SubmissionState>) {
    || IsWay(d)
    || (|d| >= 2 && d[|d| - 1] == Failed && IsWay(d[..|d| - 1]) && !IsTerminal(d[|d| - 2]))
  }

  lemma {:induction false} ViaLater(s: SubmissionState)
    requires Rank(s) <= 4
    ensures PathTo(s, true) == PathTo(s, false)
    decreases Rank(s)
  {
    if s != Queued { ViaLater(Before(s, true)); }
  }

  lemma SameEnd(d: seq<SubmissionState>, e: seq<SubmissionState>, t: SubmissionState)
    ensures d + [t] == e + [t] <==> d == e
  {
    assert (d + [t])[..|d|] == d && (e + [t])[..|e|] == e;
  }

  /** A way to `t` is a way to one of the states before it, and then `t`. */
  lemma WaySplits(d: seq<SubmissionState>, t: SubmissionState)
    requires d != [] && t != Failed && t != Queued
    ensures IsWay(d + [t]) <==> d == PathTo(Before(t, true), true) || d == PathTo(Before(t, false), false)
  {
    SameEnd(d, PathTo(Before(t, true), true), t);
    SameEnd(d, PathTo(Before(t, false), false), t);
    assert (d + [t])[|d|] == t;
  }

  lemma WayTo(d: seq<SubmissionState>, s: SubmissionState)
    requires d != [] && s != Failed
    ensures d == PathTo(s, true) || d == PathTo(s, false) <==> IsWay(d) && d[|d| - 1] == s
  {
  }

  lemma TargetsBefore(s: SubmissionState, t: SubmissionState)
    requires t != Queued && t != Failed
    ensures t in Targets(s) <==> s == Before(t, true) || s == Before(t, false)
  {
  }

  lemma BothWays(t: SubmissionState)
    requires t != Queued && t != Failed && t != Submitted
    ensures Before(t, true) == Before(t, false)
  {
  }

  lemma ReadyWays()
    ensures PathTo(Submitting, true) == PathTo(Submitting, false) && PathTo(Ready, true) == PathTo(Ready, false)
  {
    ViaLater(Submitting);
    ViaLater(Ready);
  }

  lemma WayExtends(d: seq<SubmissionState>, t: SubmissionState)
    requires d != [] && t != Failed && d[|d| - 1] != t
    ensures IsWay(d + [t]) <==> IsWay(d) && t in Targets(d[|d| - 1])
  {
    if t == Queued {
      assert |d + [t]| >= 2 && (d + [t])[|d|] == Queued;
    } else {
      WaySplits(d, t);
      TargetsBefore(d[|d| - 1], t);
      WayTo(d, Before(t, true));
      WayTo(d, Before(t, false));
      if t == Submitted { ReadyWays(); } else { BothWays(t); }
    }
  }

  lemma HistoryExtends(d: seq<SubmissionState>, t: SubmissionState)
    requires d != [] && d[|d| - 1] != t
    ensures IsHistory(d + [t]) <==> IsHistory(d) && CanTransitionSubmission(d[|d| - 1], t)
  {
    assert (d + [t])[..|d|] == d && (d + [t])[|d| - 1] == d[|d| - 1];
    if t != Failed { WayExtends(d, t); }
  }

  lemma StartOnly(run: seq<SubmissionState>)
    requires |run| == 1 && run[0] == Queued
    ensures IsHistory(Changes(run))
  {
    assert run == [Queued] && Changes(run[..0]) == [];
    assert Changes(run) == PathTo(Queued, false);
  }

  /** The accepted runs from Queued, exactly. */
  lemma {:induction false} SubmissionLanguage(run: seq<SubmissionState>)
    requires run != [] && run[0] == Queued
    ensures AcceptedSubmission(run) <==> IsHistory(Changes(run))
    decreases |run|
  {
    if |run| == 1 {
      StartOnly(run);
    } else {
      var before, t := run[..|run| - 1], run[|run| - 1];
      SubmissionLanguage(before);
      LanguageGrows(before, t);
      assert run == before + [t];
    }
  }

  lemma LanguageGrows(run: seq<SubmissionState>, t: SubmissionState)
    requires run != [] && (AcceptedSubmission(run) <==> IsHistory(Changes(run)))
    ensures AcceptedSubmission(run + [t]) <==> IsHistory(Changes(run + [t]))
  {
    AcceptedGrows(run, t);
    ChangesAppend(run, t);
    if run[|run| - 1] != t { HistoryExtends(Changes(run), t); }
  }

  lemma AcceptedGrows(run: seq<SubmissionState>, t: SubmissionState)
    requires run != []
    ensures AcceptedSubmission(run + [t])
            <==> AcceptedSubmission(run) && CanTransitionSubmission(run[|run| - 1], t)
  {
    var longer := run + [t];
    if AcceptedSubmission(longer) {
      forall i | 0 <= i < |run| - 1 ensures AssertSubmissionTransition(run[i], run[i + 1]) == Ok(run[i + 1]) {
        assert AssertSubmissionTransition(longer[i], longer[i + 1]) == Ok(longer[i + 1]);
      }
      assert AssertSubmissionTransition(longer[|run| - 1], longer[|run|]) == Ok(longer[|run|]);
    }
  }

  /**
   Every accepted run changes state at most six times, and one that ends in a review decision has
   gone through upload, processing, ready and submitted, in this order and with nothing else but an
   optional Submitting before Submitted.
   */
  lemma SubmissionRuns(run: seq<SubmissionState>)
    requires run != [] && run[0] == Queued && AcceptedSubmission(run)
    ensures |Changes(run)| - 1 <= 6
    ensures run[|run| - 1] in {Approved, Rejected} ==>
              || Changes(run) == [Queued, Uploading, Processing, Ready, Submitted, run[|run| - 1]]
              || Changes(run) == [Queued, Uploading, Processing, Ready, Submitting, Submitted, run[|run| - 1]]
  {
    SubmissionLanguage(run);
    HistoryShape(Changes(run));
  }

  lemma HistoryShape(d: seq<SubmissionState>)
    requires IsHistory(d)
    ensures |d| - 1 <= 6
    ensures d[|d| - 1] in {Approved, Rejected} ==>
              || d == [Queued, Uploading, Processing, Ready, Submitted, d[|d| - 1]]
              || d == [Queued, Uploading, Processing, Ready, Submitting, Submitted, d[|d| - 1]]
  {
    if d[|d| - 1] == Failed {
      WayShape(d[..|d| - 1]);
    } else {
      WayShape(d);
    }
  }

  lemma WayShape(d: seq<SubmissionState>)
    requires IsWay(d)
    ensures |d| - 1 <= Rank(d[|d| - 1])
    ensures d[|d| - 1] in {Approved, Rejected} ==>
              || d == [Queued, Uploading, Processing, Ready, Submitted, d[|d| - 1]]
              || d == [Queued, Uploading, Processing, Ready, Submitting, Submitted, d[|d| - 1]]
  {
    var s := d[|d| - 1];
    WayLength(s, true);
    WayLength(s, false);
    if s == Approved || s == Rejected { SubmittedWays(); }
  }

  lemma {:induction false} WayLength(s: SubmissionState, via: bool)
    requires s != Failed
    ensures |PathTo(s, via)| <= Rank(s) + 1
    decreases Rank(s)
  {
    if s != Queued { WayLength(Before(s, via), via); }
  }

  lemma SubmittedWays()
    ensures PathTo(Submitted, false) == [Queued, Uploading, Processing, Ready, Submitted]
    ensures PathTo(Submitted, true) == [Queued, Uploading, Processing, Ready, Submitting, Submitted]
  {
    forall via ensures PathTo(Ready, via) == [Queued, Uploading, Processing, Ready] {
      assert PathTo(Queued, via) == [Queued];
      assert PathTo(Uploading, via) == PathTo(Queued, via) + [Uploading];
      assert PathTo(Processing, via) == PathTo(Uploading, via) + [Processing];
    }
    assert PathTo(Submitting, true) == PathTo(Ready, true) + [Submitting];
  }

  /** The states listed as terminal are exactly those that nothing else can be reached from. */
  lemma TerminalIff(s: SubmissionState)
    ensures IsTerminal(s) <==> forall t :: CanTransitionSubmission(s, t) ==> t == s
    ensures IsTerminal(s) <==> s in {Approved, Rejected, Failed}
  {
    if !IsTerminal(s) { assert CanTransitionSubmission(s, Failed); }
  }

  /** The table in full: which moves are allowed, and how the others are refused. */
  lemma SubmissionMoves(from: SubmissionState, to: SubmissionState)
    ensures AssertSubmissionTransition(from, to) ==
            if || from == to
               || (from, to) in {
                    (Queued, Uploading), (Uploading, Processing), (Processing, Ready), (Ready, Submitting),
                    (Ready, Submitted), (Submitting, Submitted), (Submitted, Approved), (Submitted, Rejected)}
               || (from !in {Approved, Rejected, Failed} && to == Failed)
            then Ok(to) else Err(InvalidStateTransition(from, to))
  {
  }
}
