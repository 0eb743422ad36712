/** When the order in which the secrets are given matters. */
module Ordering {
  import opened Prelude
  import opened ByLength
  import opened Scan
  import opened Tokens
  import opened Survival
  import opened Redaction
  import opened RedactionTheorems
  import opened Straddling
  import opened StraddlingInputs
  import Hex

  ghost predicate SameSecrets(a: seq<Text>, b: seq<Text>) {
    forall s :: s in a <==> s in b
  }

  lemma SameValues(a: seq<Text>, b: seq<Text>)
    requires SameSecrets(a, b)
    ensures forall v :: v in KeptValues(a) <==> v in KeptValues(b)
    ensures MarkerSafe(a) ==> MarkerSafe(b)
  {
    var vs, ws := KeptValues(a), KeptValues(b);
    KeptValuesAre(a);
    KeptValuesAre(b);
    forall v ensures v in vs <==> v in ws {
      assert IsKept(v, a) <==> IsKept(v, b);
    }
    if MarkerSafe(a) {
      forall i | 0 <= i < |ws| ensures Apart(ws[i], MARKER) {
        assert ws[i] in vs;
        var j :| 0 <= j < |vs| && vs[j] == ws[i];
      }
    }
  }

  /**
   The order and repetition of the secrets does not matter, if no two kept values can overlap that
   stand in opposite order in the two lists of kept values.
   */
  lemma OrderIndependent(text: Text, a: seq<Text>, b: seq<Text>)
    requires SameSecrets(a, b) && MarkerSafe(a) && SwappedApart(KeptValues(a), KeptValues(b))
    ensures Redacted(text, a) == Redacted(text, b)
  {
    var vs, ws := KeptValues(a), KeptValues(b);
    KeptValuesAre(a);
    KeptValuesAre(b);
    SameValues(a, b);
    LitsRead(text, MARKER);
    OrderIrrelevant(Lits(text), vs, ws);
    PassesSimulate(Lits(text), vs, MARKER);
    PassesSimulate(Lits(text), ws, MARKER);
  }

  /** The plain promise: no two values of one length overlap. */
  lemma OrderIndependentByLength(text: Text, a: seq<Text>, b: seq<Text>)
    requires SameSecrets(a, b) && MarkerSafe(a) && EqualLengthsApart(KeptValues(a))
    ensures Redacted(text, a) == Redacted(text, b)
  {
    KeptValuesAre(a);
    KeptValuesAre(b);
    EqualLengthsSuffice(KeptValues(a), KeptValues(b));
    OrderIndependent(text, a, b);
  }

  ghost function Both(t: Text, p: Text, q: Text): Text
    requires p != [] && q != []
  {
    Replace(Replace(t, p, MARKER), q, MARKER)
  }

  /** For two values of equal length that condition is exact: their passes commute iff they cannot overlap. */
  lemma PassesCommuteIff(p: Text, q: Text)
    requires p != q && |p| == |q| > 0
    requires Apart(p, MARKER) && Apart(q, MARKER)
    ensures (forall t :: Both(t, p, q) == Both(t, q, p)) <==> Apart(p, q)
  {
    if Apart(p, q) {
      forall t ensures Both(t, p, q) == Both(t, q, p) {
        LitsRead(t, MARKER);
        LitsApart(p, q);
        Commute(Lits(t), Lits(p), Hole(p), Lits(q), Hole(q));
        BothOnTokens(t, p, q);
        BothOnTokens(t, q, p);
      }
    } else if d :| 0 <= d < |p| && Agree(p, q, d) {
      OverlapShows(p, q, d);
    } else {
      var d :| 0 <= d < |q| && Agree(q, p, d);
      OverlapShows(q, p, d);
    }
  }

  lemma BothOnTokens(t: Text, p: Text, q: Text)
    requires p != [] && q != [] && Apart(p, MARKER) && Apart(q, MARKER)
    ensures Both(t, p, q) == Expand(TokenPass(TokenPass(Lits(t), p), q), MARKER)
  {
    LitsRead(t, MARKER);
    PassSimulates(Lits(t), p, MARKER);
    PassSimulates(TokenPass(Lits(t), p), q, MARKER);
  }

  /** The text in which `q` starts inside `p` tells the two orders apart. */
  lemma OverlapShows(p: Text, q: Text, d: nat)
    requires p != q && |p| == |q| && d < |p| && Agree(p, q, d)
    requires Apart(p, MARKER) && Apart(q, MARKER)
    ensures Both(Overlay(p, q, d), p, q) != Both(Overlay(p, q, d), q, p)
  {
    var t := Overlay(p, q, d);
    if d == 0 { AgreeAtZero(p, q); }
    OverlayOccurs(p, q, d);
    FirstOrderStartsWithMarker(p, q, t);
    SecondOrderDoesNot(p, q, d, t);
  }

  lemma FirstOrderStartsWithMarker(p: Text, q: Text, t: Text)
    requires p != [] && q != [] && Apart(p, MARKER) && Apart(q, MARKER)
    requires OccursAt(p, t, 0)
    ensures OccursAt(MARKER, Both(t, p, q), 0)
  {
    var once := Replace(t, p, MARKER);
    var rest := once[|MARKER|..];
    assert once == MARKER + rest;
    forall i | 0 <= i < |MARKER| ensures !OccursAt(q, MARKER + rest, i) {
      if OccursAt(q, once, i) {
        assert OccursAt(MARKER, once, 0);
        ApartOccurrences(q, MARKER, once, i, 0);
      }
    }
    SkipPrefix(MARKER, rest, q, MARKER);
  }

  lemma SecondOrderDoesNot(p: Text, q: Text, d: nat, t: Text)
    requires p != q && |p| == |q| && 0 < d < |p| && Apart(p, MARKER) && Apart(q, MARKER)
    requires OccursAt(p, t, 0) && OccursAt(q, t, d)
    ensures !OccursAt(MARKER, Both(t, q, p), 0)
  {
    var lits := Lits(t);
    var once := TokenPass(lits, q);
    var twice := TokenPass(once, p);
    BothOnTokens(t, q, p);
    LitsOccur(p, t, 0);
    LitsOccur(q, t, 0);
    LitsOccur(q, t, d);
    // The first token stays a literal: q is not at the front, and after its pass p is not either.
    if OccursAt(Lits(p), once, 0) { ReflectFront(lits, Lits(q), Hole(q), Lits(p)); }
    assert once[0] == lits[0] && twice[0] == lits[0] && lits[0] == Lit(t[0]);
    HoleFound(lits, q, d);
    HoleStays(once, p);
    var j := FirstHole(twice);
    if OccursAt(MARKER, Expand(twice, MARKER), 0) {
      if j < |MARKER| {
        MarkerOnce(Expand(twice, MARKER), j);
        HoleReads(twice, j, MARKER);
      } else {
        LiteralMarker(twice, j);
        ReflectFront(once, Lits(p), Hole(p), Lits(MARKER));
        ReflectFront(lits, Lits(q), Hole(q), Lits(MARKER));
        LitsOccur(MARKER, t, 0);
        ApartOccurrences(p, MARKER, t, 0, 0);
      }
    }
  }

  lemma {:induction false} HoleFound(ts: seq<Token<CodeUnit>>, q: Text, i: nat)
    requires q != [] && OccursAt(Lits(q), ts, i)
    ensures exists k :: 0 <= k < |TokenPass(ts, q)| && TokenPass(ts, q)[k].Hole?
  {
    if OccursAt(Lits(q), ts, 0) {
      assert TokenPass(ts, q)[0].Hole?;
    } else {
      assert [ts[0]] + ts[1..] == ts;
      OccursShift(Lits(q), [ts[0]], ts[1..], i - 1);
      HoleFound(ts[1..], q, i - 1);
      var k :| 0 <= k < |TokenPass(ts[1..], q)| && TokenPass(ts[1..], q)[k].Hole?;
      assert TokenPass(ts, q)[k + 1].Hole?;
    }
  }

  lemma {:induction false} HoleStays(ts: seq<Token<CodeUnit>>, p: Text)
    requires p != [] && exists k :: 0 <= k < |ts| && ts[k].Hole?
    ensures exists k :: 0 <= k < |TokenPass(ts, p)| && TokenPass(ts, p)[k].Hole?
    decreases |ts|
  {
    if OccursAt(Lits(p), ts, 0) {
      assert TokenPass(ts, p)[0].Hole?;
    } else if ts[0].Hole? {
      assert TokenPass(ts, p)[0].Hole?;
    } else {
      var k :| 0 <= k < |ts| && ts[k].Hole?;
      assert ts[1..][k - 1].Hole?;
      HoleStays(ts[1..], p);
      var n :| 0 <= n < |TokenPass(ts[1..], p)| && TokenPass(ts[1..], p)[n].Hole?;
      assert TokenPass(ts, p)[n + 1].Hole?;
    }
  }

  /** A marker does not overlap itself. */
  lemma MarkerOnce(t: Text, j: nat)
    requires OccursAt(MARKER, t, 0) && 0 < j < |MARKER|
    ensures !OccursAt(MARKER, t, j)
  {
    OccursElement(MARKER, t, 0, j);
    assert MARKER[j] != MARKER[0];
    OccursIn(MARKER, t, j);
  }

  lemma LiteralMarker(ts: seq<Token<CodeUnit>>, j: nat)
    requires |MARKER| <= j <= |ts| && forall k :: 0 <= k < j ==> ts[k].Lit?
    requires OccursAt(MARKER, Expand(ts, MARKER), 0)
    ensures OccursAt(Lits(MARKER), ts, 0)
  {
    assert ts == ts[..j] + ts[j..];
    ExpandConcat(ts[..j], ts[j..], MARKER);
    AllLiterals(ts[..j]);
    LitsRead(Fill(ts[..j]), MARKER);
    var text := Expand(ts[..j], MARKER);
    assert Expand(ts, MARKER)[0..0 + |MARKER|] == text[0..0 + |MARKER|];
    LitsOccur(MARKER, text, 0);
    assert ts[0..0 + |MARKER|] == ts[..j][0..0 + |MARKER|];
  }

  // ----- exactly when, for whole lists

  /** No value of the list but `p` and `q` occurs in the text. */
  ghost predicate OnlyThese(t: Text, p: Text, q: Text, vs: seq<Text>) {
    forall k :: 0 <= k < |vs| && vs[k] != p && vs[k] != q ==> !Contains(t, vs[k])
  }

  /** `q` can be laid over `p` at `d` so that no other value of the list occurs. */
  ghost predicate VisibleAt(p: Text, q: Text, d: nat, vs: seq<Text>) {
    d < |p| && Agree(p, q, d) && OnlyThese(Overlay(p, q, d), p, q, vs)
  }

  ghost predicate OverlapVisible(p: Text, q: Text, vs: seq<Text>) {
    exists d :: VisibleAt(p, q, d, vs) || VisibleAt(q, p, d, vs)
  }

  /** Values that change places and can overlap can do so visibly. */
  ghost predicate OverlapsVisible(vs: seq<Text>, ws: seq<Text>) {
    forall p: Text, q: Text :: Before(vs, p, q) && Before(ws, q, p) ==> Apart(p, q) || OverlapVisible(p, q, vs)
  }

  /** When only two values occur, redaction is their two passes. */
  lemma TwoPasses(t: Text, secrets: seq<Text>, p: Text, q: Text)
    requires MarkerSafe(secrets) && Before(KeptValues(secrets), p, q)
    requires OnlyThese(t, p, q, KeptValues(secrets))
    ensures p != [] && q != [] && p != q && |p| >= |q| && Apart(p, MARKER) && Apart(q, MARKER)
    ensures Redacted(t, secrets) == Both(t, p, q)
  {
    var vs := KeptValues(secrets);
    KeptValuesAre(secrets);
    BeforeIff(vs, p, q);
    var i, j :| 0 <= i < j < |vs| && vs[i] == p && vs[j] == q;
    forall k | 0 <= k < |vs| && k != i && k != j ensures !Contains(t, vs[k]) {
      assert vs[k] != vs[i] && vs[k] != vs[j];
    }
    TwoMatter(t, vs, MARKER, i, j);
  }

  lemma OnlyTheseInBoth(t: Text, p: Text, q: Text, a: seq<Text>, b: seq<Text>)
    requires SameSecrets(a, b) && OnlyThese(t, p, q, KeptValues(a))
    ensures OnlyThese(t, p, q, KeptValues(b)) && OnlyThese(t, q, p, KeptValues(b))
  {
    var vs, ws := KeptValues(a), KeptValues(b);
    SameValues(a, b);
    forall k | 0 <= k < |ws| && ws[k] != q && ws[k] != p ensures !Contains(t, ws[k]) {
      assert ws[k] in vs;
      var i :| 0 <= i < |vs| && vs[i] == ws[k];
    }
  }

  /** A text in which two values that change places overlap visibly is redacted differently. */
  lemma SwapShows(a: seq<Text>, b: seq<Text>, p: Text, q: Text, d: nat)
    requires SameSecrets(a, b) && MarkerSafe(a)
    requires Before(KeptValues(a), p, q) && Before(KeptValues(b), q, p) && VisibleAt(p, q, d, KeptValues(a))
    ensures Redacted(Overlay(p, q, d), a) != Redacted(Overlay(p, q, d), b)
  {
    var t := Overlay(p, q, d);
    SameValues(a, b);
    OnlyTheseInBoth(t, p, q, a, b);
    TwoPasses(t, a, p, q);
    TwoPasses(t, b, q, p);
    OverlapShows(p, q, d);
  }

  /**
   Exactly when two lists of the same secrets redact all texts alike: values that change places cannot
   overlap. That is, unless other values hide every text in which they do.
   */
  lemma OrderIndependentIff(a: seq<Text>, b: seq<Text>)
    requires SameSecrets(a, b) && MarkerSafe(a) && OverlapsVisible(KeptValues(a), KeptValues(b))
    ensures (forall text :: Redacted(text, a) == Redacted(text, b)) <==>
            SwappedApart(KeptValues(a), KeptValues(b))
  {
    var vs, ws := KeptValues(a), KeptValues(b);
    if SwappedApart(vs, ws) {
      forall text ensures Redacted(text, a) == Redacted(text, b) { OrderIndependent(text, a, b); }
    } else {
      var p: Text, q: Text :| Before(vs, p, q) && Before(ws, q, p) && !Apart(p, q);
      var d :| VisibleAt(p, q, d, vs) || VisibleAt(q, p, d, vs);
      if VisibleAt(p, q, d, vs) {
        SwapShows(a, b, p, q, d);
      } else {
        SameValues(a, b);
        OnlyTheseInBoth(Overlay(q, p, d), q, p, a, b);
        SwapShows(b, a, q, p, d);
      }
    }
  }

  // ----- two secrets

  /** Two overlapping secrets of one length are redacted differently when they are given the other way round. */
  lemma OrderShows(p: Text, q: Text, d: nat)
    requires |p| == |q| >= MIN_LENGTH && p != q && MarkerSafe([p, q])
    requires VisibleAt(p, q, d, KeptValues([p, q]))
    ensures Redacted(Overlay(p, q, d), [p, q]) != Redacted(Overlay(p, q, d), [q, p])
  {
    GivenFirst(p, q);
    GivenFirst(q, p);
    SwapShows([p, q], [q, p], p, q, d);
  }

  /** "abcdef" and "defghi", which overlap in "abcdefghi" */
  const ABCDEF: Text := [0x61, 0x62, 0x63, 0x64, 0x65, 0x66]
  const DEFGHI: Text := [0x64, 0x65, 0x66, 0x67, 0x68, 0x69]

  predicate IsLetters(s: Text) {
    |s| >= MIN_LENGTH && (s[0] == 0x61 || s[0] == 0x64) && forall i :: 0 <= i < |s| ==> 0x61 <= s[i] <= 0x69
  }

  /** The base64 of such a secret starts with Y or Z. */
  lemma LettersEncoded(u: Text, s: Text)
    requires IsLetters(s) && IsVariant(u, s) && u != s
    ensures u != [] && u[0] in {0x25, 0x59, 0x5A}
  {
    forall i | 0 <= i < |s| ensures Hex.IsUnreserved(s[i]) { }
    EncodingStarts(u, s);
  }

  lemma LetterPairEncoded(u: Text, p: Text, q: Text)
    requires IsLetters(p) && IsLetters(q) && u in KeptValues([p, q]) && u != p && u != q
    ensures u != [] && u[0] in {0x25, 0x59, 0x5A}
  {
    KeptOfTwo(u, p, q);
    if IsVariant(u, p) { LettersEncoded(u, p); } else { LettersEncoded(u, q); }
  }

  lemma PairSafe(p: Text, q: Text)
    requires IsLetters(p) && IsLetters(q)
    ensures MarkerSafe([p, q])
  {
    var secrets := [p, q];
    forall v | v in KeptValues(secrets) ensures !Contains(MARKER, v) {
      if v != p && v != q { LetterPairEncoded(v, p, q); }
      ElementAbsent(v, MARKER, 0);
    }
    BracketFreeStraddlesNot(secrets);
    MarkerSafeIff(secrets);
  }

  lemma PairVisible(p: Text, q: Text, d: nat)
    requires IsLetters(p) && IsLetters(q) && d < |p| && Agree(p, q, d)
    ensures VisibleAt(p, q, d, KeptValues([p, q]))
  {
    var vs, t := KeptValues([p, q]), Overlay(p, q, d);
    forall k | 0 <= k < |vs| && vs[k] != p && vs[k] != q ensures !Contains(t, vs[k]) {
      assert vs[k] in vs;
      LetterPairEncoded(vs[k], p, q);
      ElementAbsent(vs[k], t, 0);
    }
  }

  lemma LettersShow(p: Text, q: Text, d: nat)
    requires IsLetters(p) && IsLetters(q) && |p| == |q| && p != q && d < |p| && Agree(p, q, d)
    ensures Redacted(Overlay(p, q, d), [p, q]) != Redacted(Overlay(p, q, d), [q, p])
  {
    PairSafe(p, q);
    PairVisible(p, q, d);
    OrderShows(p, q, d);
  }

  /** So the order in which secrets are given does matter. */
  lemma OrderMatters()
    ensures var t := ABCDEF + DEFGHI[3..];
            Redacted(t, [ABCDEF, DEFGHI]) != Redacted(t, [DEFGHI, ABCDEF])
  {
    LettersShow(ABCDEF, DEFGHI, 3);
    assert Overlay(ABCDEF, DEFGHI, 3) == ABCDEF + DEFGHI[3..];
  }
}
