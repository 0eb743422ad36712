/**
 What becomes of one value in a series of passes over text, without lifting the whole series to
 tokens: a value that cannot overlap the replacement stays away once it is gone, whatever the other
 values are, and only the values that occur matter.
 */
module Survival {
  import opened Scan
  import opened Tokens

  /** Every replacement made in a text without holes is the expansion of a hole. */
  lemma {:induction false} PassIsExpansion<T>(t: seq<T>, p: seq<T>, m: seq<T>)
    requires p != []
    ensures Expand(TokenPass(Lits(t), p), m) == Replace(t, p, m)
    decreases |t|
  {
    if t != [] {
      LitsOccur(p, t, 0);
      if OccursAt(p, t, 0) {
        assert Lits(t)[|p|..] == Lits(t[|p|..]);
        PassIsExpansion(t[|p|..], p, m);
        ExpandConcat([Hole(p)], TokenPass(Lits(t[|p|..]), p), m);
      } else {
        assert Lits(t)[1..] == Lits(t[1..]);
        PassIsExpansion(t[1..], p, m);
        ExpandConcat([Lit(t[0])], TokenPass(Lits(t[1..]), p), m);
      }
    }
  }

  lemma LitsContain<T>(t: seq<T>, u: seq<T>)
    requires Contains(Lits(t), Lits(u))
    ensures Contains(t, u)
  {
    var i :| OccursAt(Lits(u), Lits(t), i);
    LitsOccur(u, t, i);
  }

  /** No replacement puts together a value that cannot overlap it, whatever is replaced. */
  lemma PassKeepsAbsent<T>(t: seq<T>, p: seq<T>, m: seq<T>, u: seq<T>)
    requires p != [] && m != [] && u != [] && Apart(u, m)
    requires !Contains(t, u)
    ensures !Contains(Replace(t, p, m), u)
  {
    if Contains(Replace(t, p, m), u) {
      PassIsExpansion(t, p, m);
      ContainsLifts(u, TokenPass(Lits(t), p), m);
      ReflectContains(Lits(t), Lits(p), Hole(p), Lits(u));
      LitsContain(t, u);
    }
  }

  /** What occurs behind a text `a` once a pass has been made there occurred before, if it cannot overlap. */
  lemma BehindPass<T>(a: seq<T>, r: seq<T>, u: seq<T>, m: seq<T>, w: seq<T>)
    requires u != [] && m != [] && w != [] && Apart(w, m)
    requires Contains(a + Replace(r, u, m), w)
    ensures Contains(a + r, w)
  {
    var ts := Lits(a) + TokenPass(Lits(r), u);
    PassIsExpansion(r, u, m);
    LitsRead(a, m);
    LitsRead(r, m);
    ExpandConcat(Lits(a), TokenPass(Lits(r), u), m);
    FillConcat(Lits(a), TokenPass(Lits(r), u));
    PassKeepsFill(Lits(r), u);
    ContainsLifts(w, ts, m);
    var i :| OccursAt(Lits(w), ts, i);
    OccursInFill(w, ts, i);
  }

  lemma PassRemoves<T>(t: seq<T>, u: seq<T>, m: seq<T>)
    requires m != [] && u != [] && Apart(u, m)
    ensures !Contains(Replace(t, u, m), u)
  {
    NoneLeft(Lits(t), Lits(u), Hole(u));
    if Contains(Replace(t, u, m), u) {
      PassIsExpansion(t, u, m);
      ContainsLifts(u, TokenPass(Lits(t), u), m);
    }
  }

  lemma {:induction false} PassesKeepAbsent<T>(t: seq<T>, vs: seq<seq<T>>, m: seq<T>, u: seq<T>)
    requires NonEmpty(vs) && m != [] && u != [] && Apart(u, m)
    requires !Contains(t, u)
    ensures !Contains(Passes(t, vs, m), u)
    decreases |vs|
  {
    if vs != [] {
      PassKeepsAbsent(t, vs[0], m, u);
      PassesKeepAbsent(Replace(t, vs[0], m), vs[1..], m, u);
    }
  }

  /** A value that cannot overlap the replacement is gone for good, whatever the other values do. */
  lemma {:induction false} PassesRemove<T>(t: seq<T>, vs: seq<seq<T>>, m: seq<T>, k: nat)
    requires NonEmpty(vs) && m != [] && k < |vs| && Apart(vs[k], m)
    ensures !Contains(Passes(t, vs, m), vs[k])
    decreases |vs|
  {
    var once := Replace(t, vs[0], m);
    if k == 0 {
      PassRemoves(t, vs[0], m);
      PassesKeepAbsent(once, vs[1..], m, vs[0]);
    } else {
      PassesRemove(once, vs[1..], m, k - 1);
    }
  }

  // ----- only the values that occur matter

  lemma {:induction false} PassesIdentity<T>(t: seq<T>, vs: seq<seq<T>>, m: seq<T>)
    requires NonEmpty(vs) && forall i :: 0 <= i < |vs| ==> !Contains(t, vs[i])
    ensures Passes(t, vs, m) == t
    decreases |vs|
  {
    if vs != [] {
      ReplaceIdentity(t, vs[0], m);
      PassesIdentity(t, vs[1..], m);
    }
  }

  lemma {:induction false} OneMatters<T>(t: seq<T>, vs: seq<seq<T>>, m: seq<T>, k: nat)
    requires NonEmpty(vs) && k < |vs|
    requires forall i :: 0 <= i < k ==> !Contains(t, vs[i])
    requires forall i :: k < i < |vs| ==> !Contains(Replace(t, vs[k], m), vs[i])
    ensures Passes(t, vs, m) == Replace(t, vs[k], m)
    decreases |vs|
  {
    if k == 0 {
      PassesIdentity(Replace(t, vs[0], m), vs[1..], m);
    } else {
      ReplaceIdentity(t, vs[0], m);
      OneMatters(t, vs[1..], m, k - 1);
    }
  }

  lemma {:induction false} TwoMatter<T>(t: seq<T>, vs: seq<seq<T>>, m: seq<T>, i: nat, j: nat)
    requires NonEmpty(vs) && m != [] && AllApart(vs, m) && i < j < |vs|
    requires forall k :: 0 <= k < |vs| && k != i && k != j ==> !Contains(t, vs[k])
    ensures Passes(t, vs, m) == Replace(Replace(t, vs[i], m), vs[j], m)
    decreases |vs|
  {
    if i == 0 {
      var once := Replace(t, vs[0], m);
      forall k | 0 < k < |vs| && k != j ensures !Contains(once, vs[k]) && !Contains(Replace(once, vs[j], m), vs[k]) {
        PassKeepsAbsent(t, vs[0], m, vs[k]);
        PassKeepsAbsent(once, vs[j], m, vs[k]);
      }
      OneMatters(once, vs[1..], m, j - 1);
    } else {
      ReplaceIdentity(t, vs[0], m);
      TwoMatter(t, vs[1..], m, i - 1, j - 1);
    }
  }

  /** The last pass works on what the passes before it made of the text. */
  lemma {:induction false} LastPass<T>(t: seq<T>, vs: seq<seq<T>>, v: seq<T>, m: seq<T>)
    requires NonEmpty(vs) && v != []
    ensures NonEmpty(vs + [v]) && Passes(t, vs + [v], m) == Replace(Passes(t, vs, m), v, m)
    decreases |vs|
  {
    if vs == [] {
      assert vs + [v] == [v] && [v][1..] == [];
    } else {
      assert (vs + [v])[1..] == vs[1..] + [v];
      LastPass(Replace(t, vs[0], m), vs[1..], v, m);
    }
  }
}
