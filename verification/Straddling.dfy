/**
 Secrets with square brackets can overlap a marker's edge without being a piece of it. Whether such a
 value survives depends on the values that are looked for after it, itself included: it can survive
 only if the marker of one of them can put it together, and it does if a text that shows this is not
 spoilt by other values. When one value straddles, and no later value overlaps it, the two are the same.
 */
module Straddling {
  import opened Prelude
  import opened ByLength
  import opened Scan
  import opened OwnPass
  import opened Tokens
  import opened Survival
  import opened Redaction
  import opened RedactionTheorems
  import Utf8
  import Base64
  import Hex

  ghost predicate IsLast(v: Text, secrets: seq<Text>) {
    var vs := KeptValues(secrets);
    vs != [] && vs[|vs| - 1] == v
  }

  /** `u` is looked for after `v`, or is `v` itself. */
  ghost predicate NotBefore(u: Text, v: Text, secrets: seq<Text>) {
    var vs := KeptValues(secrets);
    v in vs && (u == v || Before(vs, v, u))
  }

  /** No value that is sure to be gone before the pass for `u` is needed in the text for that pass. */
  ghost predicate Unhidden(v: Text, u: Text, d: int, secrets: seq<Text>)
    requires -|MARKER| < d < |v|
  {
    forall w: Text :: Before(KeptValues(secrets), w, u) && Apart(w, MARKER) ==>
                        !Contains(Around(v, u, MARKER, d), w)
  }

  /** No value that is sure to be gone in the end lies inside `v`. */
  ghost predicate NoneInside(v: Text, secrets: seq<Text>) {
    forall w: Text :: w in KeptValues(secrets) && Apart(w, MARKER) ==> !Contains(v, w)
  }

  /** The marker of `v` itself, or of a value that is looked for later, can put `v` together. */
  ghost predicate CanSurvive(v: Text, secrets: seq<Text>) {
    && NoneInside(v, secrets)
    && exists u: Text, d :: NotBefore(u, v, secrets) && CanPut(v, u, MARKER, d) && Unhidden(v, u, d, secrets)
  }

  /**
   No other value spoils the text with `u` where the marker should be: none that is looked for earlier
   occurs in it, and none that is looked for later occurs once the marker is there.
   */
  ghost predicate Reveals(v: Text, u: Text, d: int, secrets: seq<Text>) {
    var vs := KeptValues(secrets);
    && NotBefore(u, v, secrets) && CanPut(v, u, MARKER, d) && !Contains(Right(v, MARKER, d), u)
    && (forall w: Text :: Before(vs, w, u) ==> !Contains(Around(v, u, MARKER, d), w))
    && (forall w: Text :: Before(vs, u, w) ==> !Contains(Around(v, MARKER, MARKER, d), w))
  }

  ghost predicate Visible(v: Text, secrets: seq<Text>) {
    exists u: Text, d :: Reveals(v, u, d, secrets)
  }

  // ----- only if, for all secrets

  /** The first `k` passes make a text from which the next one makes `v` at this offset. */
  ghost predicate Reached(t: Text, vs: seq<Text>, k: nat, v: Text, d: int, r: Text)
    requires NonEmpty(vs) && k < |vs|
  {
    CanPut(v, vs[k], MARKER, d) && NonEmpty(vs[..k]) && MadeFrom(Passes(t, vs[..k], MARKER), v, vs[k], MARKER, d, r)
  }

  lemma ReachedLater(t: Text, vs: seq<Text>, k: nat, v: Text, d: int, r: Text)
    requires NonEmpty(vs) && k + 1 < |vs| && Reached(Replace(t, vs[0], MARKER), vs[1..], k, v, d, r)
    ensures Reached(t, vs, k + 1, v, d, r)
  {
    assert vs[..k + 1][1..] == vs[1..][..k];
  }

  /** A series of passes leaves one of its values only if that pass or a later one puts it together. */
  lemma {:induction false} PassesLeave(t: Text, vs: seq<Text>, i: nat) returns (k: nat, d: int, r: Text)
    requires NonEmpty(vs) && i < |vs| && Contains(Passes(t, vs, MARKER), vs[i])
    ensures i <= k < |vs| && Reached(t, vs, k, vs[i], d, r)
    decreases |vs|
  {
    var once := Replace(t, vs[0], MARKER);
    if i > 0 {
      k, d, r := PassesLeave(once, vs[1..], i - 1);
      ReachedLater(t, vs, k, vs[i], d, r);
      k := k + 1;
    } else {
      k, d, r := PassesMake(t, vs, vs[0]);
    }
  }

  lemma {:induction false} PassesMake(t: Text, vs: seq<Text>, v: Text) returns (k: nat, d: int, r: Text)
    requires NonEmpty(vs) && v != [] && Contains(Passes(t, vs, MARKER), v)
    requires !Contains(t, v) || (vs != [] && vs[0] == v)
    ensures k < |vs| && Reached(t, vs, k, v, d, r)
    decreases |vs|
  {
    var once := Replace(t, vs[0], MARKER);
    if Contains(once, v) {
      d, r := Made(t, v, vs[0], MARKER);
      k := 0;
    } else {
      k, d, r := PassesMake(once, vs[1..], v);
      ReachedLater(t, vs, k, v, d, r);
      k := k + 1;
    }
  }

  /** What the pass makes behind the marker hides nothing that cannot overlap a marker. */
  lemma MadeContains(t: Text, v: Text, u: Text, d: int, r: Text, w: Text)
    requires u != [] && -|MARKER| < d < |v| && MadeFrom(t, v, u, MARKER, d, r)
    requires w != [] && Apart(w, MARKER) && Contains(Around(v, u, MARKER, d), w)
    ensures Contains(t, w)
  {
    var a, made := Left(v, d) + u, Replace(r, u, MARKER);
    var rest := made[|Right(v, MARKER, d)|..];
    assert made == Right(v, MARKER, d) + rest;
    Associative(Left(v, d), u, Right(v, MARKER, d));
    Associative(a, Right(v, MARKER, d), rest);
    FrontOccurs(Around(v, u, MARKER, d), rest);
    ContainsTransitive(a + made, Around(v, u, MARKER, d), w);
    BehindPass(a, r, u, MARKER, w);
    Associative(Left(v, d), u, r);
    ContainsTransitive(t, a + r, w);
  }

  lemma FrontOccurs(m: Text, rest: Text)
    ensures OccursAt(m, m + rest, 0)
  {
    assert (m + rest)[0..0 + |m|] == m;
  }

  lemma ReachedUnhidden(t: Text, secrets: seq<Text>, k: nat, v: Text, d: int, r: Text)
    requires NonEmpty(KeptValues(secrets)) && NoDuplicates(KeptValues(secrets)) && k < |KeptValues(secrets)|
    requires Reached(t, KeptValues(secrets), k, v, d, r)
    ensures Unhidden(v, KeptValues(secrets)[k], d, secrets)
  {
    var vs := KeptValues(secrets);
    forall w: Text | Before(vs, w, vs[k]) && Apart(w, MARKER) ensures !Contains(Around(v, vs[k], MARKER, d), w) {
      GoneByThen(t, vs, k, w);
      if Contains(Around(v, vs[k], MARKER, d), w) {
        MadeContains(Passes(t, vs[..k], MARKER), v, vs[k], d, r, w);
      }
    }
  }

  lemma SurvivesNoneInside(text: Text, secrets: seq<Text>, v: Text)
    requires Contains(Redacted(text, secrets), v)
    ensures NoneInside(v, secrets)
  {
    forall w: Text | w in KeptValues(secrets) && Apart(w, MARKER) ensures !Contains(v, w) {
      KeptValueGone(text, secrets, w);
      if Contains(v, w) { ContainsTransitive(Redacted(text, secrets), v, w); }
    }
  }

  /** For all secrets, on every text: what survives can survive. */
  lemma SurvivesOnlyIf(text: Text, secrets: seq<Text>, v: Text)
    requires v in KeptValues(secrets) && Contains(Redacted(text, secrets), v)
    ensures CanSurvive(v, secrets)
  {
    var vs := KeptValues(secrets);
    KeptValuesAre(secrets);
    SurvivesNoneInside(text, secrets, v);
    var i :| 0 <= i < |vs| && vs[i] == v;
    var k, d, r := PassesLeave(text, vs, i);
    ReachedUnhidden(text, secrets, k, v, d, r);
    NotBeforeAt(secrets, i, k);
  }

  lemma NotBeforeAt(secrets: seq<Text>, i: nat, k: nat)
    requires i <= k < |KeptValues(secrets)|
    ensures NotBefore(KeptValues(secrets)[k], KeptValues(secrets)[i], secrets)
  {
    var vs := KeptValues(secrets);
    BeforeIff(vs, vs[i], vs[k]);
  }

  lemma GoneByThen(t: Text, vs: seq<Text>, k: nat, w: Text)
    requires NonEmpty(vs) && NoDuplicates(vs) && k < |vs| && Before(vs, w, vs[k]) && Apart(w, MARKER)
    ensures w != [] && NonEmpty(vs[..k]) && !Contains(Passes(t, vs[..k], MARKER), w)
  {
    BeforeIff(vs, w, vs[k]);
    var i, j :| 0 <= i < j < |vs| && vs[i] == w && vs[j] == vs[k];
    assert vs[..k][i] == w;
    PassesRemove(t, vs[..k], MARKER, i);
  }

  // ----- if

  lemma BeforeAt(vs: seq<Text>, k: nat)
    requires NoDuplicates(vs) && k < |vs|
    ensures forall i :: 0 <= i < k ==> Before(vs, vs[i], vs[k])
    ensures forall i :: k < i < |vs| ==> Before(vs, vs[k], vs[i])
  {
    forall i | 0 <= i < k ensures Before(vs, vs[i], vs[k]) { BeforeIff(vs, vs[i], vs[k]); }
    forall i | k < i < |vs| ensures Before(vs, vs[k], vs[i]) { BeforeIff(vs, vs[k], vs[i]); }
  }

  lemma KeptPlace(u: Text, v: Text, secrets: seq<Text>) returns (k: nat)
    requires NotBefore(u, v, secrets)
    ensures k < |KeptValues(secrets)| && KeptValues(secrets)[k] == u
  {
    var vs := KeptValues(secrets);
    BeforeIff(vs, v, u);
    k :| 0 <= k < |vs| && vs[k] == u;
  }

  /** The text that shows a survivor. */
  lemma Revealed(v: Text, u: Text, d: int, secrets: seq<Text>)
    requires Reveals(v, u, d, secrets)
    ensures Contains(Redacted(Around(v, u, MARKER, d), secrets), v)
  {
    var vs, t := KeptValues(secrets), Around(v, u, MARKER, d);
    KeptValuesAre(secrets);
    var k := KeptPlace(u, v, secrets);
    BeforeAt(vs, k);
    Puts(v, u, MARKER, d);
    OneMatters(t, vs, MARKER, k);
  }

  lemma VisibleCan(v: Text, secrets: seq<Text>)
    requires Visible(v, secrets)
    ensures v in KeptValues(secrets) && CanSurvive(v, secrets)
  {
    var u: Text, d :| Reveals(v, u, d, secrets);
    Revealed(v, u, d, secrets);
    SurvivesOnlyIf(Around(v, u, MARKER, d), secrets, v);
  }

  /** Exactly when a value never survives: no text shows it, if it can survive only in texts that show it. */
  lemma ValueIff(v: Text, secrets: seq<Text>)
    requires v in KeptValues(secrets) && (CanSurvive(v, secrets) ==> Visible(v, secrets))
    ensures (forall text :: !Contains(Redacted(text, secrets), v)) <==> !Visible(v, secrets)
  {
    if u: Text, d :| Reveals(v, u, d, secrets) {
      Revealed(v, u, d, secrets);
    } else {
      forall text ensures !Contains(Redacted(text, secrets), v) {
        if Contains(Redacted(text, secrets), v) { SurvivesOnlyIf(text, secrets, v); }
      }
    }
  }

  ghost predicate NoneCanSurvive(secrets: seq<Text>) {
    forall v :: v in KeptValues(secrets) ==> !CanSurvive(v, secrets)
  }

  /** If some value can survive, some value can be seen to. */
  ghost predicate SurvivorVisible(secrets: seq<Text>) {
    NoneCanSurvive(secrets) || exists v: Text :: Visible(v, secrets)
  }

  /** Exactly when nothing survives on any text, for lists with any number of straddling values. */
  lemma ManyStraddlersIff(secrets: seq<Text>)
    requires SurvivorVisible(secrets)
    ensures (forall text :: Clean(Redacted(text, secrets), secrets)) <==> NoneCanSurvive(secrets)
  {
    if NoneCanSurvive(secrets) {
      forall text ensures Clean(Redacted(text, secrets), secrets) {
        forall v | v in KeptValues(secrets) ensures !Contains(Redacted(text, secrets), v) {
          if Contains(Redacted(text, secrets), v) { SurvivesOnlyIf(text, secrets, v); }
        }
      }
    } else {
      var v: Text :| Visible(v, secrets);
      var u: Text, d :| Reveals(v, u, d, secrets);
      Revealed(v, u, d, secrets);
      assert !Clean(Redacted(Around(v, u, MARKER, d), secrets), secrets);
    }
  }

  // ----- one straddling value

  /** All kept values but `v` cannot overlap a marker. */
  ghost predicate OthersApart(v: Text, secrets: seq<Text>) {
    v in KeptValues(secrets) && forall u :: u in KeptValues(secrets) && u != v ==> Apart(u, MARKER)
  }

  /** In no text that a later value would show it in does `v` occur already. */
  ghost predicate NotThere(v: Text, secrets: seq<Text>) {
    forall u: Text, d :: Before(KeptValues(secrets), v, u) && CanPut(v, u, MARKER, d) ==>
                           !Contains(Around(v, u, MARKER, d), v)
  }

  /** A value of which only pieces stand around one that it cannot overlap does not occur. */
  lemma PiecesAbsent(v: Text, u: Text, a: Text, r: Text)
    requires u != [] && Apart(u, v) && |a| < |v| && |r| < |v|
    ensures !Contains(a + (u + r), v)
  {
    var t := a + (u + r);
    OccursShift(u, a, u + r, 0);
    FrontOccurs(u, r);
    if i :| OccursAt(v, t, i) { ApartOccurrences(u, v, t, |a|, i); }
  }

  /** It is enough that the later values cannot overlap it. */
  lemma LaterApart(v: Text, secrets: seq<Text>)
    requires forall u: Text :: Before(KeptValues(secrets), v, u) ==> Apart(u, v)
    ensures NotThere(v, secrets)
  {
    KeptValuesAre(secrets);
    forall u: Text, d | Before(KeptValues(secrets), v, u) && CanPut(v, u, MARKER, d)
      ensures !Contains(Around(v, u, MARKER, d), v)
    {
      BeforeIff(KeptValues(secrets), v, u);
      PiecesAbsent(v, u, Left(v, d), Right(v, MARKER, d));
    }
  }

  /** What cannot overlap a marker occurs around one only inside one of the two pieces. */
  lemma BesideMarker(v: Text, d: int, w: Text)
    requires Meets(v, MARKER, d) && w != [] && Apart(w, MARKER) && Contains(Around(v, MARKER, MARKER, d), w)
    ensures Contains(v, w)
  {
    Beside(Left(v, d), MARKER, Right(v, MARKER, d), w);
    if Contains(Left(v, d), w) && d > 0 {
      ContainsFront(v, d, w);
    } else if d + |MARKER| < |v| {
      ContainsTail(v, d + |MARKER|, w);
    }
  }

  lemma OneOrder(u: Text, v: Text, vs: seq<Text>)
    requires NoDuplicates(vs) && Before(vs, u, v)
    ensures u in vs && v in vs && u != v && !Before(vs, v, u)
  {
    BeforeIff(vs, u, v);
    BeforeIff(vs, v, u);
  }

  lemma RightFree(v: Text, u: Text, d: int, secrets: seq<Text>)
    requires OthersApart(v, secrets) && NotBefore(u, v, secrets) && NoneInside(v, secrets) && CanPut(v, u, MARKER, d)
    ensures !Contains(Right(v, MARKER, d), u)
  {
    KeptValuesAre(secrets);
    if u == v {
      PutsItself(v, MARKER, d);
    } else {
      OneOrder(v, u, KeptValues(secrets));
      if Contains(Right(v, MARKER, d), u) {
        if d + |MARKER| < |v| { ContainsTail(v, d + |MARKER|, u); }
      }
    }
  }

  /** A single straddling value can survive only in texts that show it. */
  lemma OneStraddlerVisible(v: Text, secrets: seq<Text>)
    requires OthersApart(v, secrets) && NotThere(v, secrets) && CanSurvive(v, secrets)
    ensures Visible(v, secrets)
  {
    var vs := KeptValues(secrets);
    KeptValuesAre(secrets);
    var u: Text, d :| NotBefore(u, v, secrets) && CanPut(v, u, MARKER, d) && Unhidden(v, u, d, secrets);
    RightFree(v, u, d, secrets);
    forall w: Text | Before(vs, w, u) ensures !Contains(Around(v, u, MARKER, d), w) {
      OneOrder(w, u, vs);
    }
    forall w: Text | Before(vs, u, w) ensures !Contains(Around(v, MARKER, MARKER, d), w) {
      OneOrder(u, w, vs);
      assert w != v;
      if Contains(Around(v, MARKER, MARKER, d), w) { BesideMarker(v, d, w); }
    }
    assert Reveals(v, u, d, secrets);
  }

  lemma OneStraddlerDecided(v: Text, secrets: seq<Text>)
    requires OthersApart(v, secrets) && NotThere(v, secrets)
    ensures SurvivorVisible(secrets)
  {
    KeptValuesAre(secrets);
    if CanSurvive(v, secrets) {
      OneStraddlerVisible(v, secrets);
    } else {
      forall u | u in KeptValues(secrets) && u != v ensures !CanSurvive(u, secrets) { ApartCannotSurvive(u, secrets); }
    }
  }

  lemma OthersGone(text: Text, secrets: seq<Text>, v: Text)
    requires OthersApart(v, secrets)
    ensures forall u :: u in KeptValues(secrets) && u != v ==> !Contains(Redacted(text, secrets), u)
  {
    forall u | u in KeptValues(secrets) && u != v ensures !Contains(Redacted(text, secrets), u) {
      KeptValueGone(text, secrets, u);
    }
  }

  /** Exactly when nothing survives on any text, if one value can overlap a marker, wherever it stands. */
  lemma StraddlerIff(secrets: seq<Text>, v: Text)
    requires OthersApart(v, secrets) && NotThere(v, secrets)
    ensures (forall text :: Clean(Redacted(text, secrets), secrets)) <==> !Visible(v, secrets)
  {
    if CanSurvive(v, secrets) { OneStraddlerVisible(v, secrets); }
    ValueIff(v, secrets);
    if Visible(v, secrets) {
      var text :| Contains(Redacted(text, secrets), v);
      assert !Clean(Redacted(text, secrets), secrets);
    } else {
      forall text ensures Clean(Redacted(text, secrets), secrets) { OthersGone(text, secrets, v); }
    }
  }

  ghost predicate Idempotence(secrets: seq<Text>) {
    forall text :: Redacted(Redacted(text, secrets), secrets) == Redacted(text, secrets)
  }

  /** A second redaction is one more pass for that value. */
  lemma TwiceIsOnePass(text: Text, secrets: seq<Text>, v: Text)
    requires OthersApart(v, secrets)
    ensures v != []
    ensures Redacted(Redacted(text, secrets), secrets) == Redacted(text, secrets)
            <==> v == MARKER || !Contains(Redacted(text, secrets), v)
  {
    var vs, out := KeptValues(secrets), Redacted(text, secrets);
    KeptValuesAre(secrets);
    OthersGone(text, secrets, v);
    var k :| 0 <= k < |vs| && vs[k] == v;
    forall i | 0 <= i < |vs| && i != k ensures !Contains(out, vs[i]) && !Contains(Replace(out, v, MARKER), vs[i]) {
      assert vs[i] in vs && vs[i] != vs[k];
      PassKeepsAbsent(out, v, MARKER, vs[i]);
    }
    OneMatters(out, vs, MARKER, k);
    PassFixedIff(out, v, MARKER);
  }

  /** Exactly when redaction is idempotent, in the same case: the value is the marker itself, or it never survives. */
  lemma StraddlerIdempotentIff(secrets: seq<Text>, v: Text)
    requires OthersApart(v, secrets) && NotThere(v, secrets)
    ensures Idempotence(secrets) <==> v == MARKER || !Visible(v, secrets)
  {
    if CanSurvive(v, secrets) { OneStraddlerVisible(v, secrets); }
    ValueIff(v, secrets);
    if v != MARKER && Visible(v, secrets) {
      var text :| Contains(Redacted(text, secrets), v);
      TwiceIsOnePass(text, secrets, v);
    } else {
      forall text ensures Redacted(Redacted(text, secrets), secrets) == Redacted(text, secrets) {
        TwiceIsOnePass(text, secrets, v);
      }
    }
  }

  // ----- in last place

  lemma NothingBehind<T>(vs: seq<T>, u: T)
    requires NoDuplicates(vs) && vs != []
    ensures !Before(vs, vs[|vs| - 1], u)
  {
    BeforeIff(vs, vs[|vs| - 1], u);
  }

  lemma AllBefore<T>(vs: seq<T>, u: T)
    requires vs != [] && u in vs && u != vs[|vs| - 1]
    ensures Before(vs, u, vs[|vs| - 1])
  {
    var i :| 0 <= i < |vs| && vs[i] == u;
    BeforeIff(vs, u, vs[|vs| - 1]);
  }

  lemma NothingBehindLast(v: Text, secrets: seq<Text>, u: Text)
    requires IsLast(v, secrets)
    ensures v in KeptValues(secrets) && !Before(KeptValues(secrets), v, u)
    ensures u in KeptValues(secrets) && u != v ==> Before(KeptValues(secrets), u, v)
  {
    var vs := KeptValues(secrets);
    KeptValuesAre(secrets);
    NothingBehind(vs, u);
    if u in vs && u != v { AllBefore(vs, u); }
  }

  lemma LastNotThere(v: Text, secrets: seq<Text>)
    requires IsLast(v, secrets)
    ensures v in KeptValues(secrets) && NotThere(v, secrets)
  {
    NothingBehindLast(v, secrets, v);
    forall u: Text, d | Before(KeptValues(secrets), v, u) && CanPut(v, u, MARKER, d) ensures false {
      NothingBehindLast(v, secrets, u);
    }
  }

  /** Exactly when nothing survives, if only the last value can overlap a marker at all. */
  lemma OneStraddlerIff(secrets: seq<Text>, v: Text)
    requires IsLast(v, secrets)
    requires forall u :: u in KeptValues(secrets) && u != v ==> Apart(u, MARKER)
    ensures (forall text :: Clean(Redacted(text, secrets), secrets)) <==> !Visible(v, secrets)
  {
    LastNotThere(v, secrets);
    StraddlerIff(secrets, v);
  }

  /** Exactly when redaction is idempotent, if only the last value can overlap a marker at all. */
  lemma LastIdempotentIff(secrets: seq<Text>, v: Text)
    requires IsLast(v, secrets)
    requires forall u :: u in KeptValues(secrets) && u != v ==> Apart(u, MARKER)
    ensures Idempotence(secrets) <==> v == MARKER || !Visible(v, secrets)
  {
    LastNotThere(v, secrets);
    StraddlerIdempotentIff(secrets, v);
  }

  lemma LastCanSurvive(v: Text, secrets: seq<Text>)
    requires IsLast(v, secrets) && CanSurvive(v, secrets)
    ensures LeavesItself(v, MARKER)
  {
    var u: Text, d :| NotBefore(u, v, secrets) && CanPut(v, u, MARKER, d);
    NothingBehindLast(v, secrets, u);
  }

  /** The last value can be put together by its own pass only, whatever came before. */
  lemma LastVisible(v: Text, secrets: seq<Text>)
    requires IsLast(v, secrets) && Visible(v, secrets)
    ensures LeavesItself(v, MARKER)
  {
    VisibleCan(v, secrets);
    LastCanSurvive(v, secrets);
  }

  /** A value that cannot overlap a marker cannot survive, whatever follows it. */
  lemma ApartCannotSurvive(v: Text, secrets: seq<Text>)
    requires v != [] && Apart(v, MARKER)
    ensures !CanSurvive(v, secrets)
  {
    ApartIffNeverMeets(v, MARKER);
  }

  // ----- when it can be seen

  /** `w` cannot be spelt with the characters of `v`. */
  predicate Foreign(w: Text, v: Text) {
    exists i :: 0 <= i < |w| && w[i] !in v
  }

  lemma ForeignAbsent(w: Text, v: Text, t: Text)
    requires Foreign(w, v) && forall i :: 0 <= i < |t| ==> t[i] in v
    ensures !Contains(t, w)
  {
    var k :| 0 <= k < |w| && w[k] !in v;
    if i :| OccursAt(w, t, i) { OccursElement(w, t, i, k); }
  }

  lemma AroundSpelt(v: Text, u: Text, d: int)
    requires -|MARKER| < d < |v|
    ensures forall i :: 0 <= i < |Around(v, u, MARKER, d)| ==> Around(v, u, MARKER, d)[i] in v + u
  {
  }

  lemma AroundItselfSpelt(v: Text, d: int)
    requires -|MARKER| < d < |v|
    ensures forall i :: 0 <= i < |Around(v, v, MARKER, d)| ==> Around(v, v, MARKER, d)[i] in v
  {
    AroundSpelt(v, v, d);
  }

  /** The last value is shown by a text in which no other value occurs. */
  lemma LastReveals(v: Text, d: int, secrets: seq<Text>)
    requires IsLast(v, secrets) && CanPut(v, v, MARKER, d)
    requires forall w :: w in KeptValues(secrets) && w != v ==> !Contains(Around(v, v, MARKER, d), w)
    ensures Reveals(v, v, d, secrets)
  {
    var vs := KeptValues(secrets);
    KeptValuesAre(secrets);
    NothingBehindLast(v, secrets, v);
    PutsItself(v, MARKER, d);
    forall w: Text | Before(vs, w, v) ensures !Contains(Around(v, v, MARKER, d), w) { OneOrder(w, v, vs); }
    forall w: Text ensures !Before(vs, v, w) { NothingBehindLast(v, secrets, w); }
  }

  /** It is enough that every other value has a character which the last one lacks. */
  lemma LastForeign(v: Text, d: int, secrets: seq<Text>)
    requires IsLast(v, secrets) && CanPut(v, v, MARKER, d)
    requires forall w :: w in KeptValues(secrets) && w != v ==> Foreign(w, v)
    ensures Reveals(v, v, d, secrets)
  {
    AroundItselfSpelt(v, d);
    forall w | w in KeptValues(secrets) && w != v ensures !Contains(Around(v, v, MARKER, d), w) {
      ForeignAbsent(w, v, Around(v, v, MARKER, d));
    }
    LastReveals(v, d, secrets);
  }

  /** Then the last value survives exactly when it can be left by its own pass. */
  lemma LastForeignIff(v: Text, secrets: seq<Text>)
    requires IsLast(v, secrets)
    requires forall w :: w in KeptValues(secrets) && w != v ==> Foreign(w, v)
    ensures Visible(v, secrets) <==> LeavesItself(v, MARKER)
  {
    if d :| CanPut(v, v, MARKER, d) { LastForeign(v, d, secrets); }
    if Visible(v, secrets) { LastVisible(v, secrets); }
  }

  /** A first foreign character cannot be matched any earlier. */
  lemma ForeignNotEarlier(u: Text, v: Text, a: Text)
    requires Foreign(u, v) && forall i :: 0 <= i < |a| ==> a[i] in v
    ensures NotEarlier(u, a)
  {
    var c := FirstForeign(u, v);
    forall j | 0 <= j < |a| ensures !OccursAt(u, a + u, j) {
      if OccursAt(u, a + u, j) { OccursElement(u, a + u, j, c); }
    }
  }

  lemma FirstForeign(u: Text, v: Text) returns (c: nat)
    requires Foreign(u, v)
    ensures c < |u| && u[c] !in v && forall i :: 0 <= i < c ==> u[i] in v
  {
    c := 0;
    while u[c] in v
      invariant c < |u| && (forall i :: 0 <= i < c ==> u[i] in v)
      decreases |u| - c
    {
      var i :| 0 <= i < |u| && u[i] !in v;
      assert c < i;
      c := c + 1;
    }
  }

  /**
   For a value before the last one it is enough that the last one is foreign to it and cannot overlap it,
   and that every other value has a character which both lack.
   */
  lemma EarlierForeign(v: Text, u: Text, d: int, secrets: seq<Text>)
    requires v in KeptValues(secrets) && v != u && IsLast(u, secrets) && Meets(v, MARKER, d)
    requires Foreign(u, v) && Apart(u, v)
    requires forall w :: w in KeptValues(secrets) && w != v && w != u ==> Foreign(w, v + u)
    ensures Reveals(v, u, d, secrets)
  {
    var vs, t := KeptValues(secrets), Around(v, u, MARKER, d);
    KeptValuesAre(secrets);
    NothingBehindLast(u, secrets, v);
    ForeignNotEarlier(u, v, Left(v, d));
    ForeignAbsent(u, v, Right(v, MARKER, d));
    forall w | Before(vs, w, u) ensures !Contains(t, w) {
      BeforeIff(vs, w, u);
      AroundSpelt(v, u, d);
      if w == v {
        PiecesAbsent(v, u, Left(v, d), Right(v, MARKER, d));
      } else {
        ForeignAbsent(w, v + u, t);
      }
    }
    forall w | Before(vs, u, w) ensures false { NothingBehindLast(u, secrets, w); }
  }

  /** Then the earlier value survives exactly when it can overlap a marker. */
  lemma EarlierForeignIff(v: Text, u: Text, secrets: seq<Text>)
    requires v in KeptValues(secrets) && v != u && IsLast(u, secrets)
    requires Foreign(u, v) && Apart(u, v)
    requires forall w :: w in KeptValues(secrets) && w != v && w != u ==> Foreign(w, v + u)
    ensures Visible(v, secrets) <==> !Apart(v, MARKER)
  {
    KeptValuesAre(secrets);
    ApartIffNeverMeets(v, MARKER);
    if d :| Meets(v, MARKER, d) { EarlierForeign(v, u, d, secrets); }
    if Visible(v, secrets) {
      VisibleCan(v, secrets);
      if Apart(v, MARKER) { ApartCannotSurvive(v, secrets); }
    }
  }

  /** Of the last value and of every other one that overlaps a marker, all other values are foreign. */
  ghost predicate StraddlersForeign(u: Text, secrets: seq<Text>) {
    var vs := KeptValues(secrets);
    && (forall w :: w in vs && w != u ==> Foreign(w, u))
    && (forall v :: v in vs && v != u && !Apart(v, MARKER) ==>
          Foreign(u, v) && Apart(u, v) && forall w :: w in vs && w != v && w != u ==> Foreign(w, v + u))
  }

  /** Then nothing survives exactly when the last value does not leave itself and no other overlaps a marker. */
  lemma ForeignStraddlersIff(secrets: seq<Text>, u: Text)
    requires IsLast(u, secrets) && StraddlersForeign(u, secrets)
    ensures (forall text :: Clean(Redacted(text, secrets), secrets)) <==>
            !LeavesItself(u, MARKER) && forall v :: v in KeptValues(secrets) && v != u ==> Apart(v, MARKER)
  {
    var vs := KeptValues(secrets);
    KeptValuesAre(secrets);
    NothingBehindLast(u, secrets, u);
    if d :| CanPut(u, u, MARKER, d) {
      LastForeign(u, d, secrets);
      assert Visible(u, secrets);
      VisibleCan(u, secrets);
    } else if v :| v in vs && v != u && !Apart(v, MARKER) {
      ApartIffNeverMeets(v, MARKER);
      var d :| Meets(v, MARKER, d);
      EarlierForeign(v, u, d, secrets);
      assert Visible(v, secrets);
      VisibleCan(v, secrets);
    } else {
      forall v | v in vs ensures !CanSurvive(v, secrets) {
        if v != u {
          ApartCannotSurvive(v, secrets);
        } else if CanSurvive(v, secrets) {
          LastCanSurvive(v, secrets);
        }
      }
    }
    ManyStraddlersIff(secrets);
  }

  // ----- a single secret

  /** Every encoding that differs from its secret is longer. */
  lemma EncodingLonger(u: Text, secret: Text)
    requires IsVariant(u, secret) && u != secret && secret != []
    ensures |u| > |secret|
  {
    Utf8.BytesAtLeastUnits(secret);
    Base64.EncodeShape(Utf8.Encode(secret), false);
    if Hex.EncodeUriComponent(secret) == Some(u) { Hex.PercentGrows(secret); }
  }

  lemma ShortestIsLast(v: Text, secrets: seq<Text>)
    requires v in KeptValues(secrets)
    requires forall u :: u in KeptValues(secrets) && u != v ==> |u| > |v|
    ensures IsLast(v, secrets)
  {
    var vs := KeptValues(secrets);
    KeptValuesAre(secrets);
    var k :| 0 <= k < |vs| && vs[k] == v;
    assert vs[|vs| - 1] in vs;
  }

  lemma SecretIsLast(s: Text)
    requires |s| >= MIN_LENGTH
    ensures IsLast(s, [s])
    ensures forall u :: u in KeptValues([s]) ==> IsVariant(u, s)
  {
    KeptValuesAre([s]);
    assert IsVariant(s, s) && s in [s] && IsKept(s, [s]);
    forall u | u in KeptValues([s]) ensures IsVariant(u, s) && (u != s ==> |u| > |s|) {
      assert IsKept(u, [s]);
      if u != s { EncodingLonger(u, s); }
    }
    ShortestIsLast(s, [s]);
  }

  lemma ElementAbsent(u: Text, t: Text, k: nat)
    requires k < |u| && forall i :: 0 <= i < |t| ==> t[i] != u[k]
    ensures !Contains(t, u)
  {
    if i :| OccursAt(u, t, i) { OccursElement(u, t, i, k); }
  }

  lemma RedactedDecodes(t: Text)
    requires |t| >= 4 && t[0] == 0x52 && t[1] == 0x45 && t[2] == 0x44 && t[3] == 0x41
    ensures |Base64.Decode(t)| >= 3 && Base64.Decode(t)[2] == 0xC0
  {
    Base64.ThirdByte(t);
  }

  /** Base64 of UTF-8 cannot read REDA: that would stand for a byte C0. */
  lemma NotRedacted(t: Text, secret: Text, url: bool)
    requires |t| >= 4 && t[0] == 0x52 && t[1] == 0x45 && t[2] == 0x44 && t[3] == 0x41
    ensures t != Base64.Encode(Utf8.Encode(secret), url)
  {
    RedactedDecodes(t);
    Base64.RoundTrip(Utf8.Encode(secret), url);
    Utf8.NoOverlongLead(Utf8.ToScalars(secret));
  }

  /** A piece of the marker of eight characters or more, without the brackets, reads REDACTED. */
  lemma LongPiece(u: Text)
    requires BracketFree(u) && |u| >= 8 && Contains(MARKER, u)
    ensures u[0] == 0x52 && u[1] == 0x45 && u[2] == 0x44 && u[3] == 0x41
  {
    var i :| OccursAt(u, MARKER, i);
    OccursElement(u, MARKER, i, 0);
    OccursElement(u, MARKER, i, |u| - 1);
    OccursIn(u, MARKER, i);
    assert u[0] in u && u[|u| - 1] in u;
    assert i == 1;
    assert MARKER[i + 1] == u[1] && MARKER[i + 2] == u[2] && MARKER[i + 3] == u[3];
  }

  lemma PercentOutside(u: Text, secret: Text)
    requires Hex.EncodeUriComponent(secret) == Some(u) && u != secret
    ensures !Contains(MARKER, u)
  {
    Hex.PercentAppears(secret);
    var k :| 0 <= k < |u| && u[k] == Hex.PERCENT;
    ElementAbsent(u, MARKER, k);
  }

  lemma Base64Outside(u: Text, secret: Text, url: bool)
    requires u == Base64.Encode(Utf8.Encode(secret), url) && BracketFree(u) && |secret| >= MIN_LENGTH
    ensures !Contains(MARKER, u)
  {
    Utf8.BytesAtLeastUnits(secret);
    Base64.EncodeShape(Utf8.Encode(secret), url);
    if Contains(MARKER, u) {
      LongPiece(u);
      NotRedacted(u, secret, url);
    }
  }

  /** No encoding of a secret that is kept itself can overlap a marker. */
  lemma EncodingApart(u: Text, secret: Text)
    requires IsVariant(u, secret) && u != secret && |secret| >= MIN_LENGTH
    ensures Apart(u, MARKER)
  {
    EncodingBracketFree(u, secret);
    EncodingLonger(u, secret);
    ApartFromMarker(u);
    if Hex.EncodeUriComponent(secret) == Some(u) {
      PercentOutside(u, secret);
    } else {
      Base64Outside(u, secret, u == Base64.Encode(Utf8.Encode(secret), true));
    }
  }

  lemma SecretEncodings(s: Text)
    requires |s| >= MIN_LENGTH
    ensures IsLast(s, [s])
    ensures forall u :: u in KeptValues([s]) && u != s ==> Apart(u, MARKER)
  {
    SecretIsLast(s);
    forall u | u in KeptValues([s]) && u != s ensures Apart(u, MARKER) { EncodingApart(u, s); }
  }

  /** Exactly when nothing survives, for a single secret, and exactly when redaction is idempotent. */
  lemma OneSecretIff(s: Text)
    requires |s| >= MIN_LENGTH
    ensures (forall text :: Clean(Redacted(text, [s]), [s])) <==> !Visible(s, [s])
    ensures Visible(s, [s]) ==> LeavesItself(s, MARKER)
  {
    SecretEncodings(s);
    OneStraddlerIff([s], s);
    if Visible(s, [s]) { LastVisible(s, [s]); }
  }

  lemma OneSecretIdempotentIff(s: Text)
    requires |s| >= MIN_LENGTH
    ensures Idempotence([s]) <==> s == MARKER || !Visible(s, [s])
  {
    SecretEncodings(s);
    LastIdempotentIff([s], s);
  }

  /** Inside the replacement a value is put together by itself alone. */
  lemma PieceMeets(s: Text, i: int)
    requires s != [] && OccursAt(s, MARKER, i)
    ensures CanPut(s, s, MARKER, -i) && Around(s, s, MARKER, -i) == s
  {
    assert MARKER + [] == MARKER;
    FoundInside(s, MARKER, [], i);
  }

  /** A secret that is a piece of the marker can always be seen to survive. */
  lemma PieceVisible(s: Text)
    requires |s| >= MIN_LENGTH && Contains(MARKER, s)
    ensures Visible(s, [s])
  {
    var i :| OccursAt(s, MARKER, i);
    SecretIsLast(s);
    PieceMeets(s, i);
    forall w | w in KeptValues([s]) && w != s ensures !Contains(s, w) { EncodingLonger(w, s); }
    LastReveals(s, -i, [s]);
  }

  /** A secret without brackets survives only as a piece of the marker. */
  lemma BracketFreeVisible(s: Text)
    requires |s| >= MIN_LENGTH && BracketFree(s)
    ensures Visible(s, [s]) <==> LeavesItself(s, MARKER)
    ensures Visible(s, [s]) <==> Contains(MARKER, s)
  {
    SecretIsLast(s);
    ApartFromMarker(s);
    if Contains(MARKER, s) { PieceVisible(s); } else { ApartLeavesNot(s, MARKER); }
    if Visible(s, [s]) { LastVisible(s, [s]); }
  }
}
