/**
 State machines that follow one path and may abort from any state before its end: how their
 transition map is built, and which runs that map accepts.
 */
module PathMachine {
  import opened Prelude

  /** One step along the path, or an abort from a state that is not terminal. */
  ghost predicate Edge<S>(path: seq<S>, aborts: seq<S>, terminal: set<S>, from: S, to: S) {
    || (exists i :: 0 <= i < |path| - 1 && path[i] == from && path[i + 1] == to)
    || (from !in terminal && to in aborts)
  }

  ghost predicate IsTransitionMap<S(!new)>(
    m: map<S, set<S>>, states: seq<S>, path: seq<S>, aborts: seq<S>, terminal: set<S>)
  {
    && (forall s :: s in m <==> s in states)
    && forall s, t :: s in m ==> (t in m[s] <==> Edge(path, aborts, terminal, s, t))
  }

  ghost predicate EdgeUpTo<S>(path: seq<S>, n: int, from: S, to: S) {
    exists i :: 0 <= i < n && i < |path| - 1 && path[i] == from && path[i + 1] == to
  }

  /** `buildTransitionMap`: empty sets, then the path's edges, then the aborts. */
  method BuildTransitionMap<S(==, !new)>(states: seq<S>, path: seq<S>, aborts: seq<S>, terminal: set<S>)
    returns (m: map<S, set<S>>)
    requires forall i :: 0 <= i < |path| ==> path[i] in states
    ensures IsTransitionMap(m, states, path, aborts, terminal)
  {
    m := map[];
    for i := 0 to |states|
      invariant forall s :: s in m <==> s in states[..i]
      invariant forall s :: s in m ==> m[s] == {}
    {
      m := m[states[i] := {}];
    }
    assert states[..|states|] == states;
    var i := 0;
    while i < |path| - 1
      invariant 0 <= i && (i < |path| || i == 0)
      invariant forall s :: s in m <==> s in states
      invariant forall s, t :: s in m ==> (t in m[s] <==> EdgeUpTo(path, i, s, t))
    {
      var from, to := path[i], path[i + 1];
      ghost var before := m;
      m := m[from := m[from] + {to}];
      forall s, t | s in m ensures t in m[s] <==> EdgeUpTo(path, i + 1, s, t) {
        assert EdgeUpTo(path, i + 1, s, t) <==> EdgeUpTo(path, i, s, t) || (s == from && t == to);
      }
      i := i + 1;
    }
    ghost var pathEdges := m;
    m := AddAborts(m, states, aborts, terminal);
    forall s, t | s in m ensures t in m[s] <==> Edge(path, aborts, terminal, s, t) {
      assert s in pathEdges && (t in pathEdges[s] <==> EdgeUpTo(path, i, s, t));
      AllEdges(path, i, s, t);
    }
  }

  lemma AllEdges<S>(path: seq<S>, n: int, s: S, t: S)
    requires n >= |path| - 1
    ensures EdgeUpTo(path, n, s, t) <==> exists j :: 0 <= j < |path| - 1 && path[j] == s && path[j + 1] == t
  {
  }

  function Elements<S(==)>(xs: seq<S>): set<S> {
    set x | x in xs
  }

  /** The last, nested loop: every abort is added to every state that is not terminal. */
  method AddAborts<S(==, !new)>(m0: map<S, set<S>>, states: seq<S>, aborts: seq<S>, terminal: set<S>)
    returns (m: map<S, set<S>>)
    requires forall s :: s in m0 <==> s in states
    ensures m.Keys == m0.Keys
    ensures forall s :: s in m ==> m[s] == if s in terminal then m0[s] else m0[s] + Elements(aborts)
  {
    m := m0;
    for i := 0 to |states|
      invariant m.Keys == m0.Keys
      invariant forall s :: s in m ==>
        m[s] == if s in states[..i] && s !in terminal then m0[s] + Elements(aborts) else m0[s]
    {
      var state := states[i];
      assert forall s :: s in states[..i + 1] <==> s in states[..i] || s == state;
      if state in terminal { continue; }
      var targets := m[state];
      for j := 0 to |aborts|
        invariant targets == m[state] + Elements(aborts[..j])
      {
        assert Elements(aborts[..j + 1]) == Elements(aborts[..j]) + {aborts[j]};
        targets := targets + {aborts[j]};
      }
      assert aborts[..|aborts|] == aborts;
      m := m[state := targets];
    }
    assert states[..|states|] == states;
  }

  // ----- runs

  predicate CanTransition<S(==)>(m: map<S, set<S>>, from: S, to: S) {
    from == to || (from in m && to in m[from])
  }

  /** Every step of the run is allowed; the first state is given. */
  predicate Accepted<S(==)>(m: map<S, set<S>>, run: seq<S>) {
    forall i :: 0 <= i < |run| - 1 ==> CanTransition(m, run[i], run[i + 1])
  }

  /** The run without immediate repetitions. */
  function Changes<S(==)>(run: seq<S>): (r: seq<S>)
    ensures run == [] <==> r == []
    ensures run != [] ==> r[|r| - 1] == run[|run| - 1]
  {
    if run == [] then []
    else
      var before, last := Changes(run[..|run| - 1]), run[|run| - 1];
      if before != [] && before[|before| - 1] == last then before else before + [last]
  }

  /** Every state of the run stands for one of the changes, in order and without leaving one out. */
  ghost predicate Stutters<S>(run: seq<S>, r: seq<S>, f: seq<nat>) {
    && |f| == |run| > 0 && f[0] == 0 && f[|run| - 1] == |r| - 1
    && (forall j :: 0 <= j < |run| ==> f[j] < |r| && run[j] == r[f[j]])
    && (forall j :: 0 < j < |run| ==> f[j] == f[j - 1] || f[j] == f[j - 1] + 1)
  }

  /** The changes have no repetitions, and the run is the changes with some of them repeated. */
  lemma {:induction false} ChangesMean<S>(run: seq<S>) returns (f: seq<nat>)
    requires run != []
    ensures forall i :: 0 < i < |Changes(run)| ==> Changes(run)[i - 1] != Changes(run)[i]
    ensures Stutters(run, Changes(run), f)
  {
    var n := |run| - 1;
    if n == 0 {
      f := [0];
      assert Changes(run[..0]) == [];
    } else {
      var before := ChangesMean(run[..n]);
      var r := Changes(run[..n]);
      f := before + [if run[n - 1] == run[n] then |r| - 1 else |r|];
      assert run[..n][n - 1] == run[n - 1];
      forall j | 0 <= j < n ensures run[j] == r[f[j]] { assert run[..n][j] == run[j]; }
    }
  }

  lemma ChangesAppend<S>(run: seq<S>, s: S)
    requires run != []
    ensures Changes(run + [s]) == if run[|run| - 1] == s then Changes(run) else Changes(run) + [s]
  {
    assert (run + [s])[..|run|] == run;
  }

  /** A non-empty prefix of the path, or one that stops short of the end followed by one abort. */
  ghost predicate IsWord<S>(path: seq<S>, aborts: seq<S>, d: seq<S>) {
    || ([] < d <= path)
    || (|d| >= 2 && |d| - 1 < |path| && d[..|d| - 1] <= path && d[|d| - 1] in aborts)
  }

  ghost predicate GoodMachine<S(!new)>(states: seq<S>, path: seq<S>, aborts: seq<S>, terminal: set<S>) {
    && path != [] && NoDuplicates(path)
    && (forall i :: 0 <= i < |path| ==> path[i] in states && path[i] !in aborts)
    && (forall i :: 0 <= i < |aborts| ==> aborts[i] in states)
    && forall s :: s in terminal <==> s == path[|path| - 1] || s in aborts
  }

  lemma WordExtends<S(!new)>(
    m: map<S, set<S>>, states: seq<S>, path: seq<S>, aborts: seq<S>, terminal: set<S>, d: seq<S>, s: S)
    requires GoodMachine(states, path, aborts, terminal)
    requires IsTransitionMap(m, states, path, aborts, terminal)
    requires d != [] && d[|d| - 1] != s && IsWord(path, aborts, d)
    ensures IsWord(path, aborts, d + [s]) <==> CanTransition(m, d[|d| - 1], s)
  {
    var k, last := |d|, d[|d| - 1];
    assert (d + [s])[..k] == d;
    if d <= path {
      assert last == path[k - 1] && last in m;
      assert last in terminal <==> k == |path|;
      if k < |path| { assert d + [s] <= path <==> s == path[k]; }
      if i :| 0 <= i < |path| - 1 && path[i] == last && path[i + 1] == s { assert i == k - 1; }
    } else {
      assert last in aborts && last in m && last in terminal;
      assert forall i :: 0 <= i < |path| ==> path[i] != last;
      if k <= |path| { assert d[k - 1] != path[k - 1]; }
    }
  }

  lemma WordPrefix<S>(path: seq<S>, aborts: seq<S>, d: seq<S>, s: S)
    requires d != [] && IsWord(path, aborts, d + [s])
    ensures IsWord(path, aborts, d)
  {
    assert (d + [s])[..|d|] == d;
  }

  lemma AcceptedAppend<S>(m: map<S, set<S>>, run: seq<S>, s: S)
    requires run != []
    ensures Accepted(m, run + [s]) <==> Accepted(m, run) && CanTransition(m, run[|run| - 1], s)
  {
    var longer := run + [s];
    if Accepted(m, longer) {
      forall i | 0 <= i < |run| - 1 ensures CanTransition(m, run[i], run[i + 1]) {
        assert CanTransition(m, longer[i], longer[i + 1]);
      }
      assert CanTransition(m, longer[|run| - 1], longer[|run|]);
    }
  }

  /** The runs from the path's first state that the built map accepts, exactly. */
  lemma {:induction false} RunLanguage<S(!new)>(
    m: map<S, set<S>>, states: seq<S>, path: seq<S>, aborts: seq<S>, terminal: set<S>, run: seq<S>)
    requires GoodMachine(states, path, aborts, terminal)
    requires IsTransitionMap(m, states, path, aborts, terminal)
    requires run != [] && run[0] == path[0]
    ensures Accepted(m, run) <==> IsWord(path, aborts, Changes(run))
    decreases |run|
  {
    if |run| == 1 {
      assert run == [path[0]] && Changes(run[..0]) == [];
    } else {
      var before, s := run[..|run| - 1], run[|run| - 1];
      RunLanguage(m, states, path, aborts, terminal, before);
      LanguageStep(m, states, path, aborts, terminal, before, s);
      assert run == before + [s];
    }
  }

  lemma LanguageStep<S(!new)>(
    m: map<S, set<S>>, states: seq<S>, path: seq<S>, aborts: seq<S>, terminal: set<S>, run: seq<S>, s: S)
    requires GoodMachine(states, path, aborts, terminal)
    requires IsTransitionMap(m, states, path, aborts, terminal)
    requires run != [] && (Accepted(m, run) <==> IsWord(path, aborts, Changes(run)))
    ensures Accepted(m, run + [s]) <==> IsWord(path, aborts, Changes(run + [s]))
  {
    AcceptedAppend(m, run, s);
    assert Changes(run + [s]) == if run[|run| - 1] == s then Changes(run) else Changes(run) + [s] by {
      ChangesAppend(run, s);
    }
    if run[|run| - 1] == s {
      assert CanTransition(m, run[|run| - 1], s);
    } else {
      WordStep(m, states, path, aborts, terminal, Changes(run), s);
    }
  }

  lemma WordStep<S(!new)>(
    m: map<S, set<S>>, states: seq<S>, path: seq<S>, aborts: seq<S>, terminal: set<S>, d: seq<S>, s: S)
    requires GoodMachine(states, path, aborts, terminal)
    requires IsTransitionMap(m, states, path, aborts, terminal)
    requires d != [] && d[|d| - 1] != s
    ensures IsWord(path, aborts, d + [s]) <==> IsWord(path, aborts, d) && CanTransition(m, d[|d| - 1], s)
  {
    if IsWord(path, aborts, d) {
      WordExtends(m, states, path, aborts, terminal, d, s);
    } else if IsWord(path, aborts, d + [s]) {
      WordPrefix(path, aborts, d, s);
    }
  }

  /** So a run changes state fewer times than the path has states. */
  lemma FewChanges<S(!new)>(
    m: map<S, set<S>>, states: seq<S>, path: seq<S>, aborts: seq<S>, terminal: set<S>, run: seq<S>)
    requires GoodMachine(states, path, aborts, terminal)
    requires IsTransitionMap(m, states, path, aborts, terminal)
    requires run != [] && run[0] == path[0] && Accepted(m, run)
    ensures |Changes(run)| <= |path|
  {
    RunLanguage(m, states, path, aborts, terminal, run);
  }
}
