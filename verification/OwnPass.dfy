/**
 When a global replace can put together, or leave, an occurrence of a value. A value and a replacement
 that meet at an offset say which text would show it: the parts of the value on the two sides of the
 replacement, with what is to be replaced in between.
 */
module OwnPass {
  import opened Scan

  /**
   With `m` laid over `v`, starting `d` places after the start of `v` (before it, if `d` is negative),
   the two share a position and agree wherever they do.
   */
  predicate Meets<T(==)>(v: seq<T>, m: seq<T>, d: int) {
    -|m| < d < |v| && forall j :: 0 <= j < |v| && d <= j < d + |m| ==> v[j] == m[j - d]
  }

  /** The part of `v` before `m`. */
  function Left<T>(v: seq<T>, d: int): seq<T>
    requires d < |v|
  {
    if d > 0 then v[..d] else []
  }

  /** The part of `v` behind `m`. */
  function Right<T>(v: seq<T>, m: seq<T>, d: int): seq<T>
    requires -|m| < d
  {
    if d + |m| < |v| then v[d + |m|..] else []
  }

  /** Those two parts around some `u`. */
  function Around<T>(v: seq<T>, u: seq<T>, m: seq<T>, d: int): seq<T>
    requires -|m| < d < |v|
  {
    Left(v, d) + (u + Right(v, m, d))
  }

  /** With `a` in front of it, `u` is not found earlier than where it stands. */
  predicate NotEarlier<T(==)>(u: seq<T>, a: seq<T>) {
    forall j :: 0 <= j < |a| ==> !OccursAt(u, a + u, j)
  }

  /** Replacing `u` by `m` can put `v` together at this offset. */
  predicate CanPut<T(==)>(v: seq<T>, u: seq<T>, m: seq<T>, d: int) {
    Meets(v, m, d) && NotEarlier(u, Left(v, d))
  }

  /** A finite check: the offsets to be tried lie between minus the length of `m` and the length of `v`. */
  ghost predicate LeavesItself<T>(v: seq<T>, m: seq<T>) {
    exists d :: CanPut(v, v, m, d)
  }

  lemma MeetsAgree<T>(v: seq<T>, m: seq<T>, d: int)
    requires v != [] && m != []
    ensures d >= 0 ==> (Meets(v, m, d) <==> d < |v| && Agree(v, m, d))
    ensures d <= 0 ==> (Meets(v, m, d) <==> -d < |m| && Agree(m, v, -d))
  {
    if d <= 0 && -d < |m| && Agree(m, v, -d) {
      forall j | 0 <= j < |v| && d <= j < d + |m| ensures v[j] == m[j - d] {
        assert m[j - d] == v[j - d - -d];
      }
    }
    if d <= 0 && Meets(v, m, d) {
      forall k | -d <= k < |m| && k - -d < |v| ensures m[k] == v[k - -d] {
        assert v[k + d] == m[k + d - d];
      }
    }
  }

  /** Value and replacement are apart exactly when they meet at no offset. */
  lemma ApartIffNeverMeets<T>(v: seq<T>, m: seq<T>)
    requires v != [] && m != []
    ensures Apart(v, m) <==> forall d :: !Meets(v, m, d)
  {
    forall d ensures Meets(v, m, d) ==> !Apart(v, m) { MeetsAgree(v, m, d); }
    if d :| 0 <= d < |v| && Agree(v, m, d) {
      MeetsAgree(v, m, d);
    } else if d :| 0 <= d < |m| && Agree(m, v, d) {
      MeetsAgree(v, m, -d);
      assert Meets(v, m, -d);
    }
  }

  lemma ApartLeavesNot<T>(v: seq<T>, m: seq<T>)
    requires v != [] && m != [] && Apart(v, m)
    ensures !LeavesItself(v, m)
  {
    ApartIffNeverMeets(v, m);
  }

  // ----- only if

  lemma FirstMatch<T>(t: seq<T>, u: seq<T>) returns (k: nat)
    ensures k <= |t| && NoMatchBefore(u, t, k) && (k < |t| ==> OccursAt(u, t, k))
  {
    k := 0;
    while k < |t| && !OccursAt(u, t, k)
      invariant k <= |t| && NoMatchBefore(u, t, k)
    {
      k := k + 1;
    }
  }

  ghost predicate NoMatchBefore<T>(u: seq<T>, t: seq<T>, k: nat) {
    forall j :: 0 <= j < k ==> !OccursAt(u, t, j)
  }

  /** The scan copies what is before its first match. */
  lemma CopiesUpTo<T>(t: seq<T>, u: seq<T>, m: seq<T>, k: nat)
    requires u != [] && k <= |t| && NoMatchBefore(u, t, k)
    ensures Replace(t, u, m) == t[..k] + Replace(t[k..], u, m)
  {
    assert t == t[..k] + t[k..];
    forall i | 0 <= i < |t[..k]| ensures !OccursAt(u, t[..k] + t[k..], i) {
      assert !OccursAt(u, t, i);
    }
    SkipPrefix(t[..k], t[k..], u, m);
  }

  /** The value is found from a place inside the replacement on. */
  lemma FoundInside<T>(v: seq<T>, m: seq<T>, rest: seq<T>, i: int)
    requires v != [] && OccursAt(v, m + rest, i) && i < |m|
    ensures Meets(v, m, -i)
  {
    forall j | 0 <= j < |v| && -i <= j < -i + |m| ensures v[j] == m[j - -i] {
      OccursElement(v, m + rest, i, j);
    }
  }

  /** The value begins before the replacement and reaches it. */
  lemma CutIn<T>(v: seq<T>, m: seq<T>, a: seq<T>, rest: seq<T>)
    requires OccursAt(v, a + (m + rest), 0) && -|m| < |a| < |v|
    ensures v[..|a|] == a && Meets(v, m, |a|)
  {
    var t := a + (m + rest);
    assert v == t[..|v|];
    assert v[..|a|] == t[..|a|] == a;
    forall j | 0 <= j < |v| && |a| <= j < |a| + |m| ensures v[j] == m[j - |a|] {
      assert v[j] == t[j] == m[j - |a|];
    }
  }

  lemma StillNotEarlier<T>(t: seq<T>, u: seq<T>, k: nat)
    requires OccursAt(u, t, k) && NoMatchBefore(u, t, k)
    ensures NotEarlier(u, t[..k]) && OccursAt(t[..k] + u, t, 0)
  {
    assert t[..k] + u == t[..k + |u|];
    forall j | 0 <= j < k ensures !OccursAt(u, t[..k] + u, j) {
      if j + |u| <= k + |u| { assert (t[..k] + u)[j..j + |u|] == t[j..j + |u|]; }
      assert !OccursAt(u, t, j);
    }
  }

  /** What is left of the value behind the replacement is read off what follows it. */
  lemma RightRead<T>(v: seq<T>, m: seq<T>, a: seq<T>, rest: seq<T>, at: nat)
    requires OccursAt(v, a + (m + rest), at) && -|m| < |a| - at
    ensures Right(v, m, |a| - at) <= rest
  {
    var d, out := |a| - at, a + (m + rest);
    if d + |m| < |v| {
      forall j | d + |m| <= j < |v| ensures j - d - |m| < |rest| && v[j] == rest[j - d - |m|] {
        OccursElement(v, out, at, j);
      }
    }
  }

  /**
   The text `t` has what is left of `v` at this offset, then `u`, then some `r` from which the pass makes
   what is left of `v` behind it.
   */
  ghost predicate MadeFrom<T>(t: seq<T>, v: seq<T>, u: seq<T>, m: seq<T>, d: int, r: seq<T>)
    requires u != [] && -|m| < d < |v|
  {
    Contains(t, Left(v, d) + (u + r)) && Right(v, m, d) <= Replace(r, u, m)
  }

  lemma StartsBeforeMatch<T>(t: seq<T>, v: seq<T>, u: seq<T>, m: seq<T>) returns (d: int, r: seq<T>)
    requires u != [] && v != []
    requires OccursAt(v, Replace(t, u, m), 0) && !OccursAt(u, t, 0) && !OccursAt(v, t, 0)
    ensures CanPut(v, u, m, d) && MadeFrom(t, v, u, m, d, r)
  {
    var k := FirstMatch(t, u);
    CopiesUpTo(t, u, m, k);
    assert OccursAt(v, t[..k], 0) ==> OccursAt(v, t, 0);
    ScanStep(t, k, u, m);
    d, r := k, t[k + |u|..];
    CutIn(v, m, t[..k], Replace(r, u, m));
    StillNotEarlier(t, u, k);
    RightRead(v, m, t[..k], Replace(r, u, m), 0);
    SplitAt(t, u, k);
  }

  lemma SplitAt<T>(t: seq<T>, u: seq<T>, k: nat)
    requires OccursAt(u, t, k)
    ensures Contains(t, t[..k] + (u + t[k + |u|..]))
  {
    assert t == t[..k] + (u + t[k + |u|..]);
    assert OccursAt(t, t, 0);
  }

  lemma RightOfFront<T>(v: seq<T>, m: seq<T>, rest: seq<T>, i: nat)
    requires OccursAt(v, m + rest, i) && i < |m|
    ensures Right(v, m, 0 - i) <= rest
  {
    assert [] + (m + rest) == m + rest;
    RightRead(v, m, [], rest, i);
  }

  lemma SplitFront<T>(t: seq<T>, u: seq<T>)
    requires OccursAt(u, t, 0)
    ensures Contains(t, [] + (u + t[|u|..]))
  {
    SplitAt(t, u, 0);
    assert t[..0] == [];
  }

  lemma MatchAtFront<T>(t: seq<T>, v: seq<T>, u: seq<T>, m: seq<T>, i: nat) returns (d: int)
    requires u != [] && v != [] && OccursAt(u, t, 0) && i < |m|
    requires OccursAt(v, m + Replace(t[|u|..], u, m), i)
    ensures CanPut(v, u, m, d) && MadeFrom(t, v, u, m, d, t[|u|..])
  {
    d := 0 - i;
    FoundInside(v, m, Replace(t[|u|..], u, m), i);
    RightOfFront(v, m, Replace(t[|u|..], u, m), i);
    SplitFront(t, u);
    assert Left(v, d) == [];
  }

  /** A pass leaves an occurrence that was not there, or one of its own value, only as CanPut says. */
  lemma {:induction false} Made<T>(t: seq<T>, v: seq<T>, u: seq<T>, m: seq<T>) returns (d: int, r: seq<T>)
    requires u != [] && v != [] && Contains(Replace(t, u, m), v)
    requires u == v || !Contains(t, v)
    ensures CanPut(v, u, m, d) && MadeFrom(t, v, u, m, d, r)
    decreases |t|
  {
    var i :| OccursAt(v, Replace(t, u, m), i);
    var hit := OccursAt(u, t, 0);
    var front, n := if hit then m else [t[0]], if hit then |u| else 1;
    var rest := Replace(t[n..], u, m);
    assert Replace(t, u, m) == front + rest;
    if i >= |front| {
      OccursShift(v, front, rest, i - |front|);
      if Contains(t[n..], v) { ContainsTail(t, n, v); }
      d, r := Made(t[n..], v, u, m);
      ContainsTail(t, n, Left(v, d) + (u + r));
    } else if hit {
      d := MatchAtFront(t, v, u, m, i);
      r := t[|u|..];
    } else {
      d, r := StartsBeforeMatch(t, v, u, m);
    }
  }

  // ----- if

  lemma ReplaceShort<T>(t: seq<T>, v: seq<T>, m: seq<T>)
    requires v != [] && |t| < |v|
    ensures Replace(t, v, m) == t && !Contains(t, v)
  {
    ReplaceIdentity(t, v, m);
  }

  lemma ContainsFront<T>(t: seq<T>, n: nat, w: seq<T>)
    requires n <= |t| && Contains(t[..n], w)
    ensures Contains(t, w)
  {
    var i :| OccursAt(w, t[..n], i);
    assert t[..n][i..i + |w|] == t[i..i + |w|];
    assert OccursAt(w, t, i);
  }

  /** What cannot overlap `m` occurs around one only before or behind it. */
  lemma Beside<T>(a: seq<T>, m: seq<T>, r: seq<T>, w: seq<T>)
    requires m != [] && w != [] && Apart(w, m) && Contains(a + (m + r), w)
    ensures Contains(a, w) || Contains(r, w)
  {
    var t := a + (m + r);
    var i :| OccursAt(w, t, i);
    Associative(a, m, r);
    OccursShift(m, a, m + r, 0);
    assert (m + r)[0..0 + |m|] == m;
    ApartOccurrences(w, m, t, i, |a|);
    if i + |w| <= |a| {
      assert t[..|a|] == a;
      assert t[i..i + |w|] == a[i..i + |w|];
      assert OccursAt(w, a, i);
    } else {
      OccursShift(w, a + m, r, i - |a + m|);
    }
  }

  /** With the replacement in its place the value is complete. */
  lemma Completed<T>(v: seq<T>, m: seq<T>, d: int)
    requires Meets(v, m, d)
    ensures OccursAt(v, Around(v, m, m, d), if d < 0 then -d else 0)
  {
    var out, at := Around(v, m, m, d), if d < 0 then -d else 0;
    forall j | 0 <= j < |v| ensures out[at + j] == v[j] {
      if d <= j { assert out[at + j] == (m + Right(v, m, d))[j - d]; }
    }
    OccursIn(v, out, at);
  }

  lemma NoneInFront<T>(u: seq<T>, a: seq<T>, r: seq<T>)
    requires NotEarlier(u, a)
    ensures forall j :: 0 <= j < |a| ==> !OccursAt(u, a + (u + r), j)
  {
    forall j | 0 <= j < |a| ensures !OccursAt(u, a + (u + r), j) {
      assert !OccursAt(u, a + u, j);
      assert (a + (u + r))[j..j + |u|] == (a + u)[j..j + |u|];
    }
  }

  /** The text that shows it, when `u` is not behind it as well. */
  lemma Puts<T>(v: seq<T>, u: seq<T>, m: seq<T>, d: int)
    requires u != [] && CanPut(v, u, m, d) && !Contains(Right(v, m, d), u)
    ensures Replace(Around(v, u, m, d), u, m) == Around(v, m, m, d)
    ensures Contains(Around(v, m, m, d), v)
  {
    var a, r := Left(v, d), Right(v, m, d);
    NoneInFront(u, a, r);
    SkipPrefix(a, u + r, u, m);
    ReplaceFront(u, r, m);
    ReplaceIdentity(r, u, m);
    Completed(v, m, d);
  }

  /** Behind itself a value is never. */
  lemma PutsItself<T>(v: seq<T>, m: seq<T>, d: int)
    requires v != [] && CanPut(v, v, m, d)
    ensures !Contains(Right(v, m, d), v)
    ensures Contains(Replace(Around(v, v, m, d), v, m), v)
  {
    ReplaceShort(Right(v, m, d), v, m);
    Puts(v, v, m, d);
  }

  /** Whatever the text, a pass leaves no occurrence of its own value. */
  ghost predicate NeverLeft<T(!new)>(v: seq<T>, m: seq<T>)
    requires v != []
  {
    forall t :: !Contains(Replace(t, v, m), v)
  }

  /** Exactly when a global replace leaves no occurrence of its own value in any text. */
  lemma NeverLeftIff<T(!new)>(v: seq<T>, m: seq<T>)
    requires v != []
    ensures NeverLeft(v, m) <==> !LeavesItself(v, m)
  {
    if d :| CanPut(v, v, m, d) {
      PutsItself(v, m, d);
    } else {
      forall t: seq<T> ensures !Contains(Replace(t, v, m), v) {
        if Contains(Replace(t, v, m), v) { var d, r := Made(t, v, v, m); }
      }
    }
  }

  // ----- when a pass changes nothing

  lemma {:induction false} PassLength<T>(t: seq<T>, v: seq<T>, m: seq<T>)
    requires v != []
    ensures |m| >= |v| ==> |Replace(t, v, m)| >= |t|
    ensures |m| <= |v| ==> |Replace(t, v, m)| <= |t|
    ensures |m| != |v| && Contains(t, v) ==> |Replace(t, v, m)| != |t|
    decreases |t|
  {
    if t != [] {
      var n := if OccursAt(v, t, 0) then |v| else 1;
      PassLength(t[n..], v, m);
      if n == 1 && !OccursAt(v, t, 0) {
        if i :| OccursAt(v, t, i) {
          assert [t[0]] + t[1..] == t;
          OccursShift(v, [t[0]], t[1..], i - 1);
        }
      }
    }
  }

  /** A pass changes a text exactly when its value occurs there, unless it replaces the value by itself. */
  lemma PassFixedIff<T>(t: seq<T>, v: seq<T>, m: seq<T>)
    requires v != []
    ensures Replace(t, v, m) == t <==> v == m || !Contains(t, v)
  {
    if !Contains(t, v) {
      ReplaceIdentity(t, v, m);
    } else if |v| != |m| {
      PassLength(t, v, m);
    } else {
      var k := FirstMatch(t, v);
      var i :| OccursAt(v, t, i);
      CopiesUpTo(t, v, m, k);
      ScanStep(t, k, v, m);
      assert Replace(t, v, m)[k..k + |m|] == m;
      assert t[k..k + |v|] == v;
      if v == m { ReplaceBySame(t, v); }
    }
  }

  lemma {:induction false} ReplaceBySame<T>(t: seq<T>, v: seq<T>)
    requires v != []
    ensures Replace(t, v, v) == t
    decreases |t|
  {
    if t != [] {
      if OccursAt(v, t, 0) {
        ReplaceBySame(t[|v|..], v);
        assert t == v + t[|v|..];
      } else {
        ReplaceBySame(t[1..], v);
        assert t == [t[0]] + t[1..];
      }
    }
  }
}
