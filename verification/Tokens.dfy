/**
 The redactor's passes, lifted from text to tokens: a token is either one element that is still
 literal, or a hole that remembers what was cut out there. Two readings of a token sequence matter:
 `Fill` puts the cut-out pieces back, `Expand` writes the marker into every hole. As long as no value
 can overlap the marker, a pass over the expanded text does exactly what it does over the tokens
 (PassSimulates); and on tokens a hole is a barrier that no later match can cross.
 */
module Tokens {
  import opened ByLength
  import opened Scan
  import opened Prelude

  datatype Token<T> = Lit(c: T) | Hole(cut: seq<T>)

  function Lits<T>(t: seq<T>): (ts: seq<Token<T>>)
    ensures |ts| == |t| && forall i :: 0 <= i < |t| ==> ts[i] == Lit(t[i])
  {
    seq(|t|, i requires 0 <= i < |t| => Lit(t[i]))
  }

  /** The text that was there before anything was cut out. */
  function Fill<T>(ts: seq<Token<T>>): seq<T> {
    if ts == [] then []
    else (match ts[0] case Lit(c) => [c] case Hole(p) => p) + Fill(ts[1..])
  }

  /** The text with marker `m` in every hole. */
  function Expand<T>(ts: seq<Token<T>>, m: seq<T>): seq<T> {
    if ts == [] then []
    else (match ts[0] case Lit(c) => [c] case Hole(_) => m) + Expand(ts[1..], m)
  }

  ghost predicate HolesIn<T>(ts: seq<Token<T>>, vs: seq<seq<T>>) {
    forall k :: 0 <= k < |ts| && ts[k].Hole? ==> ts[k].cut in vs
  }

  ghost predicate NonEmpty<T>(vs: seq<seq<T>>) {
    forall i :: 0 <= i < |vs| ==> vs[i] != []
  }

  ghost predicate AllApart<T>(vs: seq<seq<T>>, m: seq<T>) {
    forall i :: 0 <= i < |vs| ==> Apart(vs[i], m)
  }

  /** One global replace per value, in order, each on the result of the one before. */
  ghost function Passes<T>(t: seq<T>, vs: seq<seq<T>>, m: seq<T>): seq<T>
    requires NonEmpty(vs)
    decreases |vs|
  {
    if vs == [] then t else Passes(Replace(t, vs[0], m), vs[1..], m)
  }

  ghost function TokenPass<T>(ts: seq<Token<T>>, v: seq<T>): seq<Token<T>>
    requires v != []
  {
    Replace(ts, Lits(v), [Hole(v)])
  }

  ghost function TokenPasses<T>(ts: seq<Token<T>>, vs: seq<seq<T>>): seq<Token<T>>
    requires NonEmpty(vs)
    decreases |vs|
  {
    if vs == [] then ts else TokenPasses(TokenPass(ts, vs[0]), vs[1..])
  }

  // ----- the readings

  lemma {:induction false} ExpandConcat<T>(a: seq<Token<T>>, b: seq<Token<T>>, m: seq<T>)
    ensures Expand(a + b, m) == Expand(a, m) + Expand(b, m)
  {
    if a == [] {
      assert a + b == b;
    } else {
      assert (a + b)[1..] == a[1..] + b;
      ExpandConcat(a[1..], b, m);
    }
  }

  lemma {:induction false} FillConcat<T>(a: seq<Token<T>>, b: seq<Token<T>>)
    ensures Fill(a + b) == Fill(a) + Fill(b)
  {
    if a == [] {
      assert a + b == b;
    } else {
      assert (a + b)[1..] == a[1..] + b;
      FillConcat(a[1..], b);
    }
  }

  lemma {:induction false} LitsRead<T>(t: seq<T>, m: seq<T>)
    ensures Fill(Lits(t)) == t && Expand(Lits(t), m) == t
  {
    if t != [] {
      LitsRead(t[1..], m);
      assert Lits(t)[1..] == Lits(t[1..]);
    }
  }

  lemma LitsOccur<T>(p: seq<T>, t: seq<T>, i: int)
    ensures OccursAt(Lits(p), Lits(t), i) <==> OccursAt(p, t, i)
  {
    OccursIn(p, t, i);
    OccursIn(Lits(p), Lits(t), i);
    if OccursAt(Lits(p), Lits(t), i) {
      forall k | 0 <= k < |p| ensures t[i + k] == p[k] {
        assert Lits(t)[i + k] == Lits(p)[k];
      }
    }
  }

  lemma LitsApart<T>(p: seq<T>, q: seq<T>)
    ensures Apart(Lits(p), Lits(q)) <==> Apart(p, q)
  {
    forall d: nat ensures Agree(Lits(p), Lits(q), d) <==> Agree(p, q, d) { LitsAgree(p, q, d); }
    forall d: nat ensures Agree(Lits(q), Lits(p), d) <==> Agree(q, p, d) { LitsAgree(q, p, d); }
  }

  lemma LitsAgree<T>(p: seq<T>, q: seq<T>, d: nat)
    ensures Agree(Lits(p), Lits(q), d) <==> Agree(p, q, d)
  {
    if Agree(p, q, d) {
      assert Agree(Lits(p), Lits(q), d);
    } else {
      var k :| d <= k < |p| && k - d < |q| && p[k] != q[k - d];
      assert Lits(p)[k] != Lits(q)[k - d];
    }
  }

  lemma {:induction false} AllLiterals<T>(ts: seq<Token<T>>)
    requires forall k :: 0 <= k < |ts| ==> ts[k].Lit?
    ensures ts == Lits(Fill(ts))
  {
    if ts != [] {
      AllLiterals(ts[1..]);
      assert ts == [ts[0]] + ts[1..];
    }
  }

  lemma {:induction false} FirstHole<T>(ts: seq<Token<T>>) returns (j: nat)
    requires exists k :: 0 <= k < |ts| && ts[k].Hole?
    ensures j < |ts| && ts[j].Hole? && forall k :: 0 <= k < j ==> ts[k].Lit?
  {
    if ts[0].Hole? {
      j := 0;
    } else {
      var k :| 0 <= k < |ts| && ts[k].Hole?;
      assert ts[1..][k - 1].Hole?;
      j := FirstHole(ts[1..]);
      j := j + 1;
    }
  }

  /** What the first hole reads as, one way and the other. */
  lemma HoleReads<T>(ts: seq<Token<T>>, j: nat, m: seq<T>)
    requires j < |ts| && ts[j].Hole? && forall k :: 0 <= k < j ==> ts[k].Lit?
    ensures OccursAt(m, Expand(ts, m), j) && OccursAt(ts[j].cut, Fill(ts), j)
  {
    assert ts == ts[..j] + ts[j..];
    AllLiterals(ts[..j]);
    ExpandConcat(ts[..j], ts[j..], m);
    FillConcat(ts[..j], ts[j..]);
    LitsRead(Fill(ts[..j]), m);
    assert Expand(ts[j..], m)[0..0 + |m|] == m;
    assert Fill(ts[j..])[0..0 + |ts[j].cut|] == ts[j].cut;
    OccursShift(m, Expand(ts[..j], m), Expand(ts[j..], m), 0);
    OccursShift(ts[j].cut, Fill(ts[..j]), Fill(ts[j..]), 0);
  }

  lemma OnlyLiterals<T>(v: seq<T>, ts: seq<Token<T>>, i: int, at: int)
    requires OccursAt(Lits(v), ts, i) && i <= at < i + |v|
    ensures ts[at].Lit?
  {
    OccursIn(Lits(v), ts, i);
    assert ts[i + (at - i)] == Lits(v)[at - i];
  }

  /** An occurrence among the tokens is an occurrence in the original text, at the matching place. */
  lemma OccursInFill<T>(r: seq<T>, ts: seq<Token<T>>, i: int)
    requires OccursAt(Lits(r), ts, i)
    ensures OccursAt(r, Fill(ts), |Fill(ts[..i])|)
  {
    var rest := ts[i + |r|..];
    assert ts == ts[..i] + (Lits(r) + rest);
    FillConcat(ts[..i], Lits(r) + rest);
    FillConcat(Lits(r), rest);
    LitsRead(r, []);
    OccursShift(r, Fill(ts[..i]), r + Fill(rest), 0);
    assert (r + Fill(rest))[0..0 + |r|] == r;
  }

  /** An occurrence in the expanded text that starts at a token boundary covers literals only. */
  lemma {:induction false} LiteralsUpTo<T>(p: seq<T>, ts: seq<Token<T>>, m: seq<T>, k: nat)
    requires m != [] && Apart(p, m) && k <= |p|
    requires OccursAt(p, Expand(ts, m), 0)
    ensures k <= |ts| && ts[..k] == Lits(p[..k])
  {
    if k > 0 {
      LiteralsUpTo(p, ts, m, k - 1);
      var done, rest := ts[..k - 1], ts[k - 1..];
      assert ts == done + rest;
      ExpandConcat(done, rest, m);
      LitsRead(p[..k - 1], m);
      var text := Expand(ts, m);
      assert text == p[..k - 1] + Expand(rest, m);
      if rest != [] && rest[0].Hole? {
        assert Expand(rest, m)[0..0 + |m|] == m;
        OccursShift(m, p[..k - 1], Expand(rest, m), 0);
        ApartOccurrences(p, m, text, 0, k - 1);
      } else {
        OccursIn(p, text, 0);
        assert text[0 + (k - 1)] == p[k - 1];
        assert p[..k] == p[..k - 1] + [p[k - 1]];
        assert ts[..k] == ts[..k - 1] + [ts[k - 1]];
      }
    }
  }

  lemma FrontLifts<T>(p: seq<T>, ts: seq<Token<T>>, m: seq<T>)
    requires m != [] && Apart(p, m)
    ensures OccursAt(p, Expand(ts, m), 0) <==> OccursAt(Lits(p), ts, 0)
  {
    if OccursAt(p, Expand(ts, m), 0) {
      LiteralsUpTo(p, ts, m, |p|);
      assert p[..|p|] == p;
    }
    if OccursAt(Lits(p), ts, 0) {
      assert ts == Lits(p) + ts[|p|..];
      ExpandConcat(Lits(p), ts[|p|..], m);
      LitsRead(p, m);
    }
  }

  /** A value found in the expanded text lies within one stretch of literals. */
  lemma {:induction false} ContainsLifts<T>(p: seq<T>, ts: seq<Token<T>>, m: seq<T>)
    requires p != [] && m != [] && Apart(p, m)
    requires Contains(Expand(ts, m), p)
    ensures Contains(ts, Lits(p))
    decreases |ts|
  {
    var text := Expand(ts, m);
    var i :| OccursAt(p, text, i);
    if i == 0 {
      FrontLifts(p, ts, m);
    } else {
      var front := match ts[0] case Lit(c) => [c] case Hole(_) => m;
      assert text == front + Expand(ts[1..], m);
      if i < |front| {
        assert OccursAt(m, text, 0);
        ApartOccurrences(p, m, text, i, 0);
      } else {
        OccursShift(p, front, Expand(ts[1..], m), i - |front|);
        ContainsLifts(p, ts[1..], m);
        ContainsTail(ts, 1, Lits(p));
      }
    }
  }

  // ----- passes on tokens and on text

  /** A pass over the expanded text is the expansion of the pass over the tokens. */
  lemma {:induction false} PassSimulates<T>(ts: seq<Token<T>>, v: seq<T>, m: seq<T>)
    requires v != [] && m != [] && Apart(v, m)
    ensures Expand(TokenPass(ts, v), m) == Replace(Expand(ts, m), v, m)
    decreases |ts|
  {
    if ts != [] {
      FrontLifts(v, ts, m);
      if OccursAt(Lits(v), ts, 0) {
        var rest := ts[|v|..];
        assert ts == Lits(v) + rest;
        ExpandConcat(Lits(v), rest, m);
        LitsRead(v, m);
        PassSimulates(rest, v, m);
        ReplaceFront(v, Expand(rest, m), m);
        ExpandConcat([Hole(v)], TokenPass(rest, v), m);
      } else {
        var front := match ts[0] case Lit(c) => [c] case Hole(_) => m;
        var text := Expand(ts, m);
        assert text == front + Expand(ts[1..], m);
        PassSimulates(ts[1..], v, m);
        ExpandConcat([ts[0]], TokenPass(ts[1..], v), m);
        forall i | 0 <= i < |front| ensures !OccursAt(v, text, i) {
          if i > 0 && OccursAt(v, text, i) {
            assert OccursAt(m, text, 0);
            ApartOccurrences(v, m, text, i, 0);
          }
        }
        SkipPrefix(front, Expand(ts[1..], m), v, m);
      }
    }
  }

  lemma {:induction false} PassesSimulate<T>(ts: seq<Token<T>>, vs: seq<seq<T>>, m: seq<T>)
    requires NonEmpty(vs) && m != [] && AllApart(vs, m)
    ensures Expand(TokenPasses(ts, vs), m) == Passes(Expand(ts, m), vs, m)
    decreases |vs|
  {
    if vs != [] {
      PassSimulates(ts, vs[0], m);
      PassesSimulate(TokenPass(ts, vs[0]), vs[1..], m);
    }
  }

  lemma {:induction false} PassKeepsFill<T>(ts: seq<Token<T>>, v: seq<T>)
    requires v != []
    ensures Fill(TokenPass(ts, v)) == Fill(ts)
    decreases |ts|
  {
    if ts != [] {
      var hit := OccursAt(Lits(v), ts, 0);
      var n := if hit then |v| else 1;
      var front := if hit then [Hole(v)] else [ts[0]];
      PassKeepsFill(ts[n..], v);
      FillConcat(front, TokenPass(ts[n..], v));
      assert ts == ts[..n] + ts[n..];
      FillConcat(ts[..n], ts[n..]);
      LitsRead(v, []);
    }
  }

  lemma {:induction false} PassHoles<T>(ts: seq<Token<T>>, v: seq<T>, vs: seq<seq<T>>)
    requires v != [] && v in vs && HolesIn(ts, vs)
    ensures HolesIn(TokenPass(ts, v), vs)
    decreases |ts|
  {
    if ts != [] {
      var n := if OccursAt(Lits(v), ts, 0) then |v| else 1;
      PassHoles(ts[n..], v, vs);
    }
  }

  /** Nothing but values of the list is cut out, and what is cut out can be put back. */
  lemma {:induction false} PassesConserve<T>(ts: seq<Token<T>>, vs: seq<seq<T>>, all: seq<seq<T>>)
    requires NonEmpty(vs) && HolesIn(ts, all) && forall v :: v in vs ==> v in all
    ensures Fill(TokenPasses(ts, vs)) == Fill(ts)
    ensures HolesIn(TokenPasses(ts, vs), all)
    decreases |vs|
  {
    if vs != [] {
      PassKeepsFill(ts, vs[0]);
      PassHoles(ts, vs[0], all);
      PassesConserve(TokenPass(ts, vs[0]), vs[1..], all);
    }
  }

  lemma {:induction false} StaysAbsent<T>(ts: seq<Token<T>>, vs: seq<seq<T>>, q: seq<T>)
    requires NonEmpty(vs) && q != [] && !Contains(ts, Lits(q))
    ensures !Contains(TokenPasses(ts, vs), Lits(q))
    decreases |vs|
  {
    if vs != [] {
      if Contains(TokenPass(ts, vs[0]), Lits(q)) { ReflectContains(ts, Lits(vs[0]), Hole(vs[0]), Lits(q)); }
      StaysAbsent(TokenPass(ts, vs[0]), vs[1..], q);
    }
  }

  /** After all passes no value is left among the literals. */
  lemma {:induction false} NoneSurvives<T>(ts: seq<Token<T>>, vs: seq<seq<T>>, q: seq<T>)
    requires NonEmpty(vs) && q in vs
    ensures !Contains(TokenPasses(ts, vs), Lits(q))
    decreases |vs|
  {
    if q == vs[0] {
      NoneLeft(ts, Lits(q), Hole(q));
      StaysAbsent(TokenPass(ts, q), vs[1..], q);
    } else {
      NoneSurvives(TokenPass(ts, vs[0]), vs[1..], q);
    }
  }

  // ----- order of the values

  /** Values that stand in opposite order in the two lists cannot overlap. */
  ghost predicate SwappedApart<T(!new)>(vs: seq<seq<T>>, ws: seq<seq<T>>) {
    forall p, q :: Before(vs, p, q) && Before(ws, q, p) ==> Apart(p, q)
  }

  ghost predicate EqualLengthsApart<T(!new)>(vs: seq<seq<T>>) {
    forall p, q :: Before(vs, p, q) && |p| == |q| ==> Apart(p, q)
  }

  /** In two longest-first lists only values of one length can change places. */
  lemma EqualLengthsSuffice<T(!new)>(vs: seq<seq<T>>, ws: seq<seq<T>>)
    requires LongestFirst(vs) && LongestFirst(ws) && EqualLengthsApart(vs)
    ensures SwappedApart(vs, ws)
  {
    forall p, q | Before(vs, p, q) && Before(ws, q, p) ensures Apart(p, q) {
      BeforeIff(vs, p, q);
      BeforeIff(ws, q, p);
    }
  }

  lemma {:induction false} BubbleToFront<T>(ts: seq<Token<T>>, vs: seq<seq<T>>, k: nat)
    requires NonEmpty(vs) && k < |vs|
    requires forall j :: 0 <= j < k ==> Apart(vs[j], vs[k])
    ensures NonEmpty(vs[..k] + vs[k + 1..])
    ensures TokenPasses(ts, vs) == TokenPasses(TokenPass(ts, vs[k]), vs[..k] + vs[k + 1..])
    decreases k
  {
    var others := vs[..k] + vs[k + 1..];
    if k == 0 {
      assert others == vs[1..];
    } else {
      var p, q := vs[0], vs[k];
      BubbleToFront(TokenPass(ts, p), vs[1..], k - 1);
      assert others[1..] == vs[1..][..k - 1] + vs[1..][k..];
      LitsApart(p, q);
      Commute(ts, Lits(p), Hole(p), Lits(q), Hole(q));
    }
  }

  /** Two lists of the same values do the same, if values that change places cannot overlap. */
  lemma {:induction false} OrderIrrelevant<T(!new)>(ts: seq<Token<T>>, vs: seq<seq<T>>, ws: seq<seq<T>>)
    requires NonEmpty(vs) && NonEmpty(ws) && NoDuplicates(vs) && NoDuplicates(ws)
    requires forall v :: v in vs <==> v in ws
    requires SwappedApart(vs, ws)
    ensures TokenPasses(ts, vs) == TokenPasses(ts, ws)
    decreases |vs|
  {
    assert ws != [] ==> ws[0] in ws;
    if vs != [] {
      var x := vs[0];
      assert x in ws;
      var k :| 0 <= k < |ws| && ws[k] == x;
      forall j | 0 <= j < k ensures Apart(ws[j], x) {
        BeforeIff(ws, ws[j], x);
        assert ws[j] in vs && vs == [x] + vs[1..];
        assert Before(vs, x, ws[j]);
        ApartSymmetric(x, ws[j]);
      }
      BubbleToFront(ts, ws, k);
      var others := ws[..k] + ws[k + 1..];
      forall v ensures v in vs[1..] <==> v in others {
        SameRest(vs, ws, k, v);
      }
      RestKeeps(vs, ws, k);
      OrderIrrelevant(TokenPass(ts, x), vs[1..], others);
    }
  }

  lemma RestKeeps<T(!new)>(vs: seq<seq<T>>, ws: seq<seq<T>>, k: nat)
    requires vs != [] && k < |ws| && NoDuplicates(vs) && NoDuplicates(ws) && SwappedApart(vs, ws)
    ensures NoDuplicates(vs[1..]) && NoDuplicates(ws[..k] + ws[k + 1..])
    ensures SwappedApart(vs[1..], ws[..k] + ws[k + 1..])
  {
    forall p, q | Before(vs[1..], p, q) && Before(ws[..k] + ws[k + 1..], q, p) ensures Apart(p, q) {
      BeforeWithout(ws, k, q, p);
    }
  }

  lemma BeforeWithout<T>(ws: seq<T>, k: nat, x: T, y: T)
    requires k < |ws| && Before(ws[..k] + ws[k + 1..], x, y)
    ensures Before(ws, x, y)
  {
    var others := ws[..k] + ws[k + 1..];
    BeforeIff(others, x, y);
    var i, j :| 0 <= i < j < |others| && others[i] == x && others[j] == y;
    BeforeIff(ws, x, y);
    assert ws[if i < k then i else i + 1] == x && ws[if j < k then j else j + 1] == y;
  }

  lemma SameRest<T>(vs: seq<seq<T>>, ws: seq<seq<T>>, k: nat, v: seq<T>)
    requires vs != [] && k < |ws| && ws[k] == vs[0]
    requires NoDuplicates(vs) && NoDuplicates(ws) && (v in vs <==> v in ws)
    ensures v in vs[1..] <==> v in ws[..k] + ws[k + 1..]
  {
    assert vs == [vs[0]] + vs[1..];
    assert ws == ws[..k] + [ws[k]] + ws[k + 1..];
  }

  // ----- the longest match

  /** A hole separates what is before it from what is after it. */
  lemma {:induction false} HoleSeparates<T>(a: seq<Token<T>>, cut: seq<T>, b: seq<Token<T>>, vs: seq<seq<T>>)
    requires NonEmpty(vs)
    ensures TokenPasses(a + [Hole(cut)] + b, vs) == TokenPasses(a, vs) + [Hole(cut)] + TokenPasses(b, vs)
    decreases |vs|
  {
    if vs != [] {
      var v := vs[0];
      var t := a + [Hole(cut)] + b;
      forall i ensures !Touches(Lits(v), t, i, |a|, 1) {
        if Touches(Lits(v), t, i, |a|, 1) { OnlyLiterals(v, t, i, |a|); }
      }
      SplitAround(a, [Hole(cut)], b, Lits(v), [Hole(v)]);
      HoleSeparates(TokenPass(a, v), cut, TokenPass(b, v), vs[1..]);
    }
  }

  /** Only `p` itself, of the values at least as long as `p`, occurs in a way that touches this `p`. */
  ghost predicate Unrivalled<T>(a: seq<T>, p: seq<T>, b: seq<T>, vs: seq<seq<T>>) {
    forall q, i :: q in vs && |q| >= |p| && Touches(q, a + p + b, i, |a|, |p|) ==> q == p && i == |a|
  }

  /** Touching is the same thing for the tokens and for the text that they fill to. */
  lemma TouchesInFill<T>(a: seq<Token<T>>, p: seq<T>, b: seq<Token<T>>, q: seq<T>, i: int)
    requires Touches(Lits(q), a + Lits(p) + b, i, |a|, |p|)
    ensures Touches(q, Fill(a) + p + Fill(b), |Fill(a)| + i - |a|, |Fill(a)|, |p|)
  {
    FillAround(a, p, b);
    OccursInFill(q, a + Lits(p) + b, i);
    TouchPosition(a, p, b, q, i);
  }

  lemma TouchPosition<T>(a: seq<Token<T>>, p: seq<T>, b: seq<Token<T>>, q: seq<T>, i: int)
    requires Touches(Lits(q), a + Lits(p) + b, i, |a|, |p|)
    ensures |Fill((a + Lits(p) + b)[..i])| == |Fill(a)| + i - |a|
  {
    var ts := a + Lits(p) + b;
    if i < |a| {
      forall k | i <= k < |a| ensures a[k].Lit? {
        OnlyLiterals(q, ts, i, k);
      }
      LiteralTail(a, i);
      assert ts[..i] == a[..i];
    } else {
      FillUpTo(a, p, b, i - |a|);
    }
  }

  lemma FillAround<T>(a: seq<Token<T>>, p: seq<T>, b: seq<Token<T>>)
    ensures Fill(a + Lits(p) + b) == Fill(a) + p + Fill(b)
  {
    FillConcat(a + Lits(p), b);
    FillConcat(a, Lits(p));
    LitsRead(p, []);
  }

  lemma FillUpTo<T>(a: seq<Token<T>>, p: seq<T>, b: seq<Token<T>>, k: nat)
    requires k <= |p|
    ensures |Fill((a + Lits(p) + b)[..|a| + k])| == |Fill(a)| + k
  {
    assert (a + Lits(p) + b)[..|a| + k] == a + Lits(p[..k]);
    FillConcat(a, Lits(p[..k]));
    LitsRead(p[..k], []);
  }

  lemma LiteralTail<T>(a: seq<Token<T>>, i: nat)
    requires i <= |a| && forall k :: i <= k < |a| ==> a[k].Lit?
    ensures |Fill(a)| == |Fill(a[..i])| + |a| - i
  {
    AllLiterals(a[i..]);
    assert a == a[..i] + a[i..];
    FillConcat(a[..i], a[i..]);
  }

  lemma {:induction false} LongestWins<T>(a: seq<Token<T>>, p: seq<T>, b: seq<Token<T>>, vs: seq<seq<T>>)
    requires NonEmpty(vs) && LongestFirst(vs) && p in vs
    requires Unrivalled(Fill(a), p, Fill(b), vs)
    ensures TokenPasses(a + Lits(p) + b, vs) == TokenPasses(a, vs) + [Hole(p)] + TokenPasses(b, vs)
    decreases |vs|
  {
    var q := vs[0];
    forall i | Touches(Lits(q), a + Lits(p) + b, i, |a|, |p|) ensures q == p && i == |a| {
      TouchesInFill(a, p, b, q, i);
    }
    if q == p {
      SplitAtMatch(a, b, Lits(p), [Hole(p)]);
      HoleSeparates(TokenPass(a, p), p, TokenPass(b, p), vs[1..]);
    } else {
      SplitAround(a, Lits(p), b, Lits(q), [Hole(q)]);
      PassKeepsFill(a, q);
      PassKeepsFill(b, q);
      LongestWins(TokenPass(a, q), p, TokenPass(b, q), vs[1..]);
    }
  }
}
