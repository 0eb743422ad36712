/**
 Substring occurrences, and the leftmost non-overlapping scan that a global `replace` performs
 (section 22.2.6.11 of ECMA-262). Everything here is generic in the element type, so that it can be
 used on text and on the tokens of module Tokens alike.
 */
module Scan {

  predicate OccursAt<T(==)>(p: seq<T>, t: seq<T>, i: int) {
    0 <= i && i + |p| <= |t| && t[i..i + |p|] == p
  }

  ghost predicate Contains<T>(t: seq<T>, p: seq<T>) {
    exists i :: OccursAt(p, t, i)
  }

  /** `t.replace(p, m)` with the global flag: each leftmost match is replaced, the scan resumes after it. */
  function Replace<T(==)>(t: seq<T>, p: seq<T>, m: seq<T>): seq<T>
    requires p != []
  {
    if t == [] then []
    else if OccursAt(p, t, 0) then m + Replace(t[|p|..], p, m)
    else [t[0]] + Replace(t[1..], p, m)
  }

  /** With `q` laid over `p`, `d` places to the right, the two agree wherever both have an element. */
  predicate Agree<T(==)>(p: seq<T>, q: seq<T>, d: nat) {
    forall k :: d <= k < |p| && k - d < |q| ==> p[k] == q[k - d]
  }

  /** No shift makes `p` and `q` agree on a common position. This is a finite check on the two strings. */
  predicate Apart<T(==)>(p: seq<T>, q: seq<T>) {
    && (forall d :: 0 <= d < |p| ==> !Agree(p, q, d))
    && (forall d :: 0 <= d < |q| ==> !Agree(q, p, d))
  }

  lemma Associative<T>(a: seq<T>, b: seq<T>, c: seq<T>)
    ensures a + b + c == a + (b + c)
  {
  }

  lemma Regroup<T>(a: seq<T>, b: seq<T>, c: seq<T>, d: seq<T>)
    ensures a + (b + c + d) == a + b + c + d
  {
  }

  // ----- occurrences

  lemma OccursShift<T>(p: seq<T>, a: seq<T>, t: seq<T>, i: int)
    ensures i >= 0 ==> (OccursAt(p, a + t, |a| + i) <==> OccursAt(p, t, i))
  {
    if i >= 0 && i + |p| <= |t| {
      assert (a + t)[|a| + i..|a| + i + |p|] == t[i..i + |p|];
    }
  }

  lemma OccursIn<T>(p: seq<T>, t: seq<T>, i: int)
    ensures OccursAt(p, t, i) <==> 0 <= i && i + |p| <= |t| && forall k :: 0 <= k < |p| ==> t[i + k] == p[k]
  {
    if 0 <= i && i + |p| <= |t| && forall k :: 0 <= k < |p| ==> t[i + k] == p[k] {
      assert t[i..i + |p|] == p;
    }
    if OccursAt(p, t, i) {
      forall k | 0 <= k < |p| ensures t[i + k] == p[k] {
        assert t[i..i + |p|][k] == t[i + k];
      }
    }
  }

  lemma OccursElement<T>(p: seq<T>, t: seq<T>, i: int, k: nat)
    requires OccursAt(p, t, i) && k < |p|
    ensures t[i + k] == p[k]
  {
    OccursIn(p, t, i);
  }

  lemma AgreeAtZero<T>(p: seq<T>, q: seq<T>)
    requires |p| == |q| && Agree(p, q, 0)
    ensures p == q
  {
    assert forall k :: 0 <= k < |p| ==> p[k] == q[k - 0];
  }

  lemma ContainsTail<T>(t: seq<T>, n: nat, p: seq<T>)
    requires n <= |t| && Contains(t[n..], p)
    ensures Contains(t, p)
  {
    var i :| OccursAt(p, t[n..], i);
    assert t[..n] + t[n..] == t;
    OccursShift(p, t[..n], t[n..], i);
    assert OccursAt(p, t, n + i);
  }

  /** Apart says that in no text do an occurrence of `p` and one of `q` share a position, and only that. */
  lemma ApartIff<T(!new)>(p: seq<T>, q: seq<T>)
    requires p != [] && q != []
    ensures Apart(p, q) <==>
            forall t: seq<T>, i, j :: OccursAt(p, t, i) && OccursAt(q, t, j) ==> i + |p| <= j || j + |q| <= i
  {
    if Apart(p, q) {
      forall t: seq<T>, i, j | OccursAt(p, t, i) && OccursAt(q, t, j)
        ensures i + |p| <= j || j + |q| <= i
      {
        ApartOccurrences(p, q, t, i, j);
      }
    } else if d :| 0 <= d < |p| && Agree(p, q, d) {
      OverlayOccurs(p, q, d);
    } else {
      var d :| 0 <= d < |q| && Agree(q, p, d);
      OverlayOccurs(q, p, d);
    }
  }

  lemma OccurrencesAgree<T>(p: seq<T>, q: seq<T>, t: seq<T>, i: int, j: int)
    requires OccursAt(p, t, i) && OccursAt(q, t, j) && i <= j
    ensures Agree(p, q, j - i)
  {
    OccursIn(p, t, i);
    OccursIn(q, t, j);
    forall k | j - i <= k < |p| && k - (j - i) < |q| ensures p[k] == q[k - (j - i)] {
      assert t[i + k] == p[k] && t[j + (k - (j - i))] == q[k - (j - i)];
    }
  }

  lemma ApartOccurrences<T>(p: seq<T>, q: seq<T>, t: seq<T>, i: int, j: int)
    requires Apart(p, q)
    requires OccursAt(p, t, i) && OccursAt(q, t, j)
    ensures i + |p| <= j || j + |q| <= i
  {
    if i <= j { OccurrencesAgree(p, q, t, i, j); }
    if j <= i { OccurrencesAgree(q, p, t, j, i); }
  }

  /** The text in which `q` starts `d` places into `p`. */
  function Overlay<T(==)>(p: seq<T>, q: seq<T>, d: nat): seq<T> {
    if d + |q| <= |p| || |p| < d then p else p + q[|p| - d..]
  }

  lemma OverlayOccurs<T>(p: seq<T>, q: seq<T>, d: nat)
    requires d < |p| && Agree(p, q, d)
    ensures OccursAt(p, Overlay(p, q, d), 0) && OccursAt(q, Overlay(p, q, d), d)
  {
    OccursIn(p, Overlay(p, q, d), 0);
    OccursIn(q, Overlay(p, q, d), d);
  }

  lemma ApartSymmetric<T>(p: seq<T>, q: seq<T>)
    ensures Apart(p, q) <==> Apart(q, p)
  {
  }

  // ----- one pass

  /** Text without an occurrence is returned unchanged; text with one gets the replacement put in. */
  lemma {:induction false} ReplaceIdentity<T>(t: seq<T>, p: seq<T>, m: seq<T>)
    requires p != [] && !Contains(t, p)
    ensures Replace(t, p, m) == t
  {
    if t != [] {
      assert !OccursAt(p, t, 0);
      if Contains(t[1..], p) { ContainsTail(t, 1, p); }
      ReplaceIdentity(t[1..], p, m);
    }
  }

  lemma {:induction false} ReplaceInserts<T>(t: seq<T>, p: seq<T>, m: seq<T>)
    requires p != [] && Contains(t, p)
    ensures Contains(Replace(t, p, m), m)
  {
    var i :| OccursAt(p, t, i);
    if OccursAt(p, t, 0) {
      assert OccursAt(m, Replace(t, p, m), 0);
    } else {
      OccursShift(p, [t[0]], t[1..], i - 1);
      assert [t[0]] + t[1..] == t;
      ReplaceInserts(t[1..], p, m);
      var j :| OccursAt(m, Replace(t[1..], p, m), j);
      OccursShift(m, [t[0]], Replace(t[1..], p, m), j);
      assert OccursAt(m, Replace(t, p, m), 1 + j);
    }
  }

  /** A stretch in which no occurrence starts is copied to the output. */
  lemma {:induction false} SkipPrefix<T>(a: seq<T>, t: seq<T>, p: seq<T>, m: seq<T>)
    requires p != []
    requires forall i :: 0 <= i < |a| ==> !OccursAt(p, a + t, i)
    ensures Replace(a + t, p, m) == a + Replace(t, p, m)
    decreases |a|
  {
    if a == [] {
      assert a + t == t;
    } else {
      assert (a + t)[1..] == a[1..] + t;
      forall i | 0 <= i < |a[1..]| ensures !OccursAt(p, a[1..] + t, i) {
        OccursShift(p, [a[0]], a[1..] + t, i);
        assert [a[0]] + (a[1..] + t) == a + t;
        assert !OccursAt(p, a + t, i + 1);
      }
      SkipPrefix(a[1..], t, p, m);
      assert !OccursAt(p, a + t, 0);
    }
  }

  /** An occurrence at the front is replaced, and the rest is scanned on its own. */
  lemma ReplaceFront<T>(p: seq<T>, t: seq<T>, m: seq<T>)
    requires p != []
    ensures Replace(p + t, p, m) == m + Replace(t, p, m)
  {
    assert (p + t)[0..0 + |p|] == p;
    assert (p + t)[|p|..] == t;
  }

  /** What a scan that has reached position `i` does next. */
  lemma ScanStep<T>(t: seq<T>, i: nat, p: seq<T>, m: seq<T>)
    requires i < |t| && p != []
    ensures if OccursAt(p, t, i)
            then Replace(t[i..], p, m) == m + Replace(t[i + |p|..], p, m)
            else Replace(t[i..], p, m) == [t[i]] + Replace(t[i + 1..], p, m)
  {
    var rest := t[i..];
    assert t[..i] + rest == t;
    OccursShift(p, t[..i], rest, 0);
    if OccursAt(p, t, i) {
      assert rest[|p|..] == t[i + |p|..];
    } else {
      assert rest[1..] == t[i + 1..];
    }
  }

  // ----- replacing by a mark `h` that the patterns do not use

  /** What can be read at the front of the output without meeting a mark was at the front of the input. */
  lemma {:induction false} ReflectFront<T>(t: seq<T>, p: seq<T>, h: T, q: seq<T>)
    requires p != [] && h !in q
    requires OccursAt(q, Replace(t, p, [h]), 0)
    ensures OccursAt(q, t, 0)
    ensures forall i :: 0 <= i < |q| ==> !OccursAt(p, t, i)
    decreases |q|
  {
    if q != [] {
      var out := Replace(t, p, [h]);
      OccursIn(q, out, 0);
      assert out[0] == q[0] && q[0] in q;
      assert !OccursAt(p, t, 0) && out == [t[0]] + Replace(t[1..], p, [h]);
      OccursIn(q[1..], Replace(t[1..], p, [h]), 0);
      forall k | 0 <= k < |q[1..]| ensures Replace(t[1..], p, [h])[0 + k] == q[1..][k] {
        assert out[0 + (k + 1)] == q[k + 1];
      }
      ReflectFront(t[1..], p, h, q[1..]);
      OccursIn(q[1..], t[1..], 0);
      OccursIn(q, t, 0);
      forall k | 0 <= k < |q| ensures t[0 + k] == q[k] {
        if k > 0 { assert t[1..][0 + (k - 1)] == q[1..][k - 1]; }
      }
      forall i | 0 <= i < |q| ensures !OccursAt(p, t, i) {
        if i > 0 {
          assert [t[0]] + t[1..] == t;
          OccursShift(p, [t[0]], t[1..], i - 1);
        }
      }
    }
  }

  /** A pass creates no new occurrence of anything that does not use the mark. */
  lemma {:induction false} ReflectContains<T>(t: seq<T>, p: seq<T>, h: T, q: seq<T>)
    requires p != [] && q != [] && h !in q
    requires Contains(Replace(t, p, [h]), q)
    ensures Contains(t, q)
    decreases |t|
  {
    var out := Replace(t, p, [h]);
    var i :| OccursAt(q, out, i);
    if i == 0 {
      ReflectFront(t, p, h, q);
    } else {
      var n := if OccursAt(p, t, 0) then |p| else 1;
      var front := if OccursAt(p, t, 0) then [h] else [t[0]];
      assert out == front + Replace(t[n..], p, [h]);
      OccursShift(q, front, Replace(t[n..], p, [h]), i - 1);
      ReflectContains(t[n..], p, h, q);
      ContainsTail(t, n, q);
    }
  }

  /** A pass leaves no occurrence of its own pattern. */
  lemma {:induction false} NoneLeft<T>(t: seq<T>, p: seq<T>, h: T)
    requires p != [] && h !in p
    ensures !Contains(Replace(t, p, [h]), p)
    decreases |t|
  {
    var out := Replace(t, p, [h]);
    forall i | OccursAt(p, out, i) ensures false {
      if i == 0 {
        ReflectFront(t, p, h, p);
      } else {
        var n := if OccursAt(p, t, 0) then |p| else 1;
        var front := if OccursAt(p, t, 0) then [h] else [t[0]];
        assert out == front + Replace(t[n..], p, [h]);
        OccursShift(p, front, Replace(t[n..], p, [h]), i - 1);
        NoneLeft(t[n..], p, h);
      }
    }
  }

  /** Two passes commute when their patterns cannot overlap. */
  lemma {:induction false} Commute<T>(t: seq<T>, p: seq<T>, g: T, q: seq<T>, h: T)
    requires p != [] && q != [] && Apart(p, q)
    requires g !in p && g !in q && h !in p && h !in q
    ensures Replace(Replace(t, p, [g]), q, [h]) == Replace(Replace(t, q, [h]), p, [g])
    decreases |t|
  {
    if t == [] {
    } else if OccursAt(p, t, 0) {
      CommuteAtMatch(t, p, g, q, h);
    } else if OccursAt(q, t, 0) {
      ApartSymmetric(p, q);
      CommuteAtMatch(t, q, h, p, g);
    } else {
      var t' := t[1..];
      Commute(t', p, g, q, h);
      CopyFront(t[0], Replace(t', p, [g]), q, [h], Replace(t, p, [g])) by {
        if OccursAt(q, Replace(t, p, [g]), 0) { ReflectFront(t, p, g, q); }
      }
      CopyFront(t[0], Replace(t', q, [h]), p, [g], Replace(t, q, [h])) by {
        if OccursAt(p, Replace(t, q, [h]), 0) { ReflectFront(t, q, h, p); }
      }
    }
  }

  lemma CopyFront<T>(c: T, t: seq<T>, p: seq<T>, m: seq<T>, ct: seq<T>)
    requires p != [] && ct == [c] + t && !OccursAt(p, ct, 0)
    ensures Replace(ct, p, m) == [c] + Replace(t, p, m)
  {
    assert ct[1..] == t;
  }

  lemma {:induction false} CommuteAtMatch<T>(t: seq<T>, p: seq<T>, g: T, q: seq<T>, h: T)
    requires p != [] && q != [] && Apart(p, q)
    requires g !in p && g !in q && h !in p && h !in q
    requires OccursAt(p, t, 0)
    ensures Replace(Replace(t, p, [g]), q, [h]) == Replace(Replace(t, q, [h]), p, [g])
    decreases |t|, 0
  {
    var rest := t[|p|..];
    assert t == p + rest;
    Commute(rest, p, g, q, h);
    var once := Replace(rest, p, [g]);
    assert Replace(t, p, [g]) == [g] + once;
    assert q[0] in q && ([g] + once)[0] == g;
    OccursIn(q, [g] + once, 0);
    CopyFront(g, once, q, [h], [g] + once);
    forall i | 0 <= i < |p| ensures !OccursAt(q, p + rest, i) {
      if OccursAt(q, p + rest, i) { ApartOccurrences(p, q, t, 0, i); }
    }
    SkipPrefix(p, rest, q, [h]);
    ReplaceFront(p, Replace(rest, q, [h]), [g]);
  }

  // ----- splitting a scan at a stretch that no match straddles

  /** The occurrence of `q` at `i` has a position in the stretch of length `n` that starts at `at`. */
  predicate Touches<T(==)>(q: seq<T>, t: seq<T>, i: int, at: int, n: int) {
    OccursAt(q, t, i) && i < at + n && at < i + |q|
  }

  /** Stepping over the front `n` elements of `a` shifts every occurrence that touches `x`. */
  lemma TouchesTail<T>(q: seq<T>, a: seq<T>, x: seq<T>, b: seq<T>, n: nat, i: int)
    requires n <= |a|
    requires Touches(q, a[n..] + x + b, i, |a[n..]|, |x|)
    ensures Touches(q, a + x + b, n + i, |a|, |x|)
  {
    assert a[..n] + (a[n..] + x + b) == a + x + b;
    OccursShift(q, a[..n], a[n..] + x + b, i);
  }

  lemma FrontOfSplit<T>(q: seq<T>, a: seq<T>, x: seq<T>, b: seq<T>)
    requires a != [] && x != [] && !Touches(q, a + x + b, 0, |a|, |x|)
    ensures OccursAt(q, a + x + b, 0) <==> OccursAt(q, a, 0)
  {
    var t := a + x + b;
    if |q| <= |a| { assert t[0..0 + |q|] == a[0..0 + |q|]; }
  }

  ghost predicate Untouched<T>(q: seq<T>, a: seq<T>, x: seq<T>, b: seq<T>) {
    forall i :: !Touches(q, a + x + b, i, |a|, |x|)
  }

  ghost predicate OnlyMatch<T>(q: seq<T>, a: seq<T>, b: seq<T>) {
    forall i :: Touches(q, a + q + b, i, |a|, |q|) ==> i == |a|
  }

  lemma UntouchedTail<T>(q: seq<T>, a: seq<T>, x: seq<T>, b: seq<T>, n: nat)
    requires n <= |a| && Untouched(q, a, x, b)
    ensures Untouched(q, a[n..], x, b)
  {
    forall i ensures !Touches(q, a[n..] + x + b, i, |a[n..]|, |x|) {
      if Touches(q, a[n..] + x + b, i, |a[n..]|, |x|) { TouchesTail(q, a, x, b, n, i); }
    }
  }

  lemma OnlyMatchTail<T>(q: seq<T>, a: seq<T>, b: seq<T>, n: nat)
    requires n <= |a| && OnlyMatch(q, a, b)
    ensures OnlyMatch(q, a[n..], b)
  {
    forall i | Touches(q, a[n..] + q + b, i, |a[n..]|, |q|) ensures i == |a[n..]| {
      TouchesTail(q, a, q, b, n, i);
    }
  }

  /** The first step of a scan over `a + rest` is that over `a`, when `a` is where it is decided. */
  lemma FirstStep<T>(a: seq<T>, rest: seq<T>, q: seq<T>, m: seq<T>, n: nat, made: seq<T>)
    requires q != [] && a != []
    requires OccursAt(q, a + rest, 0) <==> OccursAt(q, a, 0)
    requires n == if OccursAt(q, a, 0) then |q| else 1
    requires made == if OccursAt(q, a, 0) then m else [a[0]]
    ensures Replace(a, q, m) == made + Replace(a[n..], q, m)
    ensures Replace(a + rest, q, m) == made + Replace(a[n..] + rest, q, m)
  {
    assert (a + rest)[n..] == a[n..] + rest;
  }

  /** A scan splits around a stretch `x` that no match touches. */
  lemma {:induction false} SplitAround<T>(a: seq<T>, x: seq<T>, b: seq<T>, q: seq<T>, m: seq<T>)
    requires q != [] && x != [] && Untouched(q, a, x, b)
    ensures Replace(a + x + b, q, m) == Replace(a, q, m) + x + Replace(b, q, m)
    decreases |a|
  {
    Associative(a, x, b);
    if a == [] {
      assert a + (x + b) == x + b;
      forall i | 0 <= i < |x| ensures !OccursAt(q, x + b, i) {
        assert !Touches(q, a + x + b, i, |a|, |x|);
      }
      SkipPrefix(x, b, q, m);
    } else {
      assert !Touches(q, a + x + b, 0, |a|, |x|);
      FrontOfSplit(q, a, x, b);
      var n, made := if OccursAt(q, a, 0) then |q| else 1, if OccursAt(q, a, 0) then m else [a[0]];
      FirstStep(a, x + b, q, m, n, made);
      UntouchedTail(q, a, x, b, n);
      SplitAround(a[n..], x, b, q, m);
      Associative(a[n..], x, b);
      Regroup(made, Replace(a[n..], q, m), x, Replace(b, q, m));
    }
  }

  /** A scan splits at an occurrence of its pattern that no other occurrence touches. */
  lemma {:induction false} SplitAtMatch<T>(a: seq<T>, b: seq<T>, q: seq<T>, m: seq<T>)
    requires q != [] && OnlyMatch(q, a, b)
    ensures Replace(a + q + b, q, m) == Replace(a, q, m) + m + Replace(b, q, m)
    decreases |a|
  {
    Associative(a, q, b);
    if a == [] {
      assert a + (q + b) == q + b;
      ReplaceFront(q, b, m);
    } else {
      assert Touches(q, a + q + b, 0, |a|, |q|) ==> 0 == |a|;
      FrontOfSplit(q, a, q, b);
      var n, made := if OccursAt(q, a, 0) then |q| else 1, if OccursAt(q, a, 0) then m else [a[0]];
      FirstStep(a, q + b, q, m, n, made);
      OnlyMatchTail(q, a, b, n);
      SplitAtMatch(a[n..], b, q, m);
      Associative(a[n..], q, b);
      Regroup(made, Replace(a[n..], q, m), m, Replace(b, q, m));
    }
  }
}
