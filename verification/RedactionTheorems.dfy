/** What `redactSecrets` guarantees, for texts and lists of secrets of any length. */
module RedactionTheorems {
  import opened Prelude
  import opened ByLength
  import opened Scan
  import opened Tokens
  import opened Survival
  import opened Redaction
  import Utf8
  import Base64
  import Hex

  /** No kept value can overlap an inserted marker. A finite check on the values. */
  ghost predicate MarkerSafe(secrets: seq<Text>) {
    AllApart(KeptValues(secrets), MARKER)
  }

  /** The text with the matched values cut out, as tokens. */
  ghost function CutOut(text: Text, secrets: seq<Text>): seq<Token<CodeUnit>> {
    KeptValuesAre(secrets);
    TokenPasses(Lits(text), KeptValues(secrets))
  }

  ghost predicate Clean(t: Text, secrets: seq<Text>) {
    forall v :: v in KeptValues(secrets) ==> !Contains(t, v)
  }

  // ----- conservation and completeness

  /**
   The output is the input with some occurrences of kept values cut out and a marker put in each gap:
   filling the gaps again restores the input. What is left between the gaps holds no kept value.
   */
  lemma Conservation(text: Text, secrets: seq<Text>)
    ensures Fill(CutOut(text, secrets)) == text
    ensures HolesIn(CutOut(text, secrets), KeptValues(secrets))
    ensures forall v :: v in KeptValues(secrets) ==> !Contains(CutOut(text, secrets), Lits(v))
    ensures MarkerSafe(secrets) ==> Expand(CutOut(text, secrets), MARKER) == Redacted(text, secrets)
  {
    var vs := KeptValues(secrets);
    KeptValuesAre(secrets);
    LitsRead(text, MARKER);
    PassesConserve(Lits(text), vs, vs);
    forall v | v in vs ensures !Contains(CutOut(text, secrets), Lits(v)) {
      NoneSurvives(Lits(text), vs, v);
    }
    if MarkerSafe(secrets) { PassesSimulate(Lits(text), vs, MARKER); }
  }

  /** A kept value that cannot overlap a marker never survives, whatever the other secrets are. */
  lemma KeptValueGone(text: Text, secrets: seq<Text>, v: Text)
    requires v in KeptValues(secrets) && Apart(v, MARKER)
    ensures !Contains(Redacted(text, secrets), v)
  {
    var vs := KeptValues(secrets);
    KeptValuesAre(secrets);
    var k :| 0 <= k < |vs| && vs[k] == v;
    PassesRemove(text, vs, MARKER, k);
  }

  /** No kept value is left in the output, not even one that an inserted marker could complete. */
  lemma NothingSurvives(text: Text, secrets: seq<Text>)
    requires MarkerSafe(secrets)
    ensures Clean(Redacted(text, secrets), secrets)
  {
    var vs := KeptValues(secrets);
    forall v | v in vs ensures !Contains(Redacted(text, secrets), v) {
      var k :| 0 <= k < |vs| && vs[k] == v;
      KeptValueGone(text, secrets, v);
    }
  }

  /** In particular no secret survives, and none of its encodings, unless it is shorter than six. */
  lemma NoVariantSurvives(text: Text, secrets: seq<Text>, secret: Text, v: Text)
    requires secret in secrets && secret != [] && Apart(v, MARKER)
    requires IsVariant(v, secret) && |v| >= MIN_LENGTH
    ensures !Contains(Redacted(text, secrets), v)
  {
    KeptValuesAre(secrets);
    assert IsKept(v, secrets);
    KeptValueGone(text, secrets, v);
  }

  /** A text without kept values is returned unchanged, whatever the secrets are. */
  lemma CleanTextUnchanged(text: Text, secrets: seq<Text>)
    requires Clean(text, secrets)
    ensures Redacted(text, secrets) == text
  {
    var vs := KeptValues(secrets);
    KeptValuesAre(secrets);
    forall i | 0 <= i < |vs| ensures !Contains(text, vs[i]) {
      assert vs[i] in vs;
    }
    PassesIdentity(text, vs, MARKER);
  }

  lemma Idempotent(text: Text, secrets: seq<Text>)
    requires MarkerSafe(secrets)
    ensures Redacted(Redacted(text, secrets), secrets) == Redacted(text, secrets)
  {
    NothingSurvives(text, secrets);
    CleanTextUnchanged(Redacted(text, secrets), secrets);
  }

  // ----- exactly when

  predicate BracketFree(v: Text) {
    0x5B !in v && 0x5D !in v
  }

  /** No kept value is a piece of the word REDACTED. */
  ghost predicate OutsideMarker(secrets: seq<Text>) {
    forall v :: v in KeptValues(secrets) ==> !Contains(MARKER, v)
  }

  /** Whatever the secret, its encodings have no brackets. */
  lemma EncodingBracketFree(v: Text, secret: Text)
    requires IsVariant(v, secret) && v != secret
    ensures BracketFree(v)
  {
    if Hex.EncodeUriComponent(secret) == Some(v) {
      Hex.PercentShape(Utf8.ToScalars(secret));
    } else {
      Base64.EncodeShape(Utf8.Encode(secret), v == Base64.Encode(Utf8.Encode(secret), true));
      if v == Base64.Encode(Utf8.Encode(secret), false) {
        Base64.EncodeShape(Utf8.Encode(secret), false);
      }
    }
  }

  lemma KeptBracketFree(secrets: seq<Text>)
    requires forall s :: s in secrets ==> BracketFree(s)
    ensures forall v :: v in KeptValues(secrets) ==> BracketFree(v)
  {
    KeptValuesAre(secrets);
    forall v | v in KeptValues(secrets) ensures BracketFree(v) {
      assert IsKept(v, secrets);
      var s :| s in secrets && s != [] && IsVariant(v, s);
      if v != s { EncodingBracketFree(v, s); }
    }
  }

  lemma MarkerStartsOutside(v: Text, d: nat)
    requires BracketFree(v) && d < |v|
    ensures !Agree(v, MARKER, d)
  {
    assert v[d] in v && v[d] != MARKER[d - d];
  }

  lemma MarkerEndsOutside(v: Text, d: nat)
    requires BracketFree(v) && d < |MARKER| <= d + |v|
    ensures !Agree(MARKER, v, d)
  {
    if 9 - d < |v| { assert v[9 - d] in v && MARKER[9] != v[9 - d]; }
  }

  /** A value without brackets can meet a marker only by lying inside it. */
  lemma ApartFromMarker(v: Text)
    requires v != [] && BracketFree(v)
    ensures Apart(v, MARKER) <==> !Contains(MARKER, v)
  {
    forall d | 0 <= d < |v| ensures !Agree(v, MARKER, d) {
      MarkerStartsOutside(v, d);
    }
    forall d | 0 <= d < |MARKER| ensures Agree(MARKER, v, d) ==> OccursAt(v, MARKER, d) {
      if d + |v| >= |MARKER| { MarkerEndsOutside(v, d); } else { OccursIn(v, MARKER, d); }
    }
    if i :| OccursAt(v, MARKER, i) {
      assert OccursAt(MARKER, MARKER, 0);
      OccurrencesAgree(MARKER, v, MARKER, 0, i);
    }
  }

  /** A kept value meets a marker, if at all, by lying inside it. */
  ghost predicate NoneStraddles(secrets: seq<Text>) {
    forall v :: v in KeptValues(secrets) ==> Apart(v, MARKER) || Contains(MARKER, v)
  }

  lemma BracketFreeStraddlesNot(secrets: seq<Text>)
    requires forall s :: s in secrets ==> BracketFree(s)
    ensures NoneStraddles(secrets)
  {
    KeptValuesAre(secrets);
    KeptBracketFree(secrets);
    forall v | v in KeptValues(secrets) ensures Apart(v, MARKER) || Contains(MARKER, v) {
      ApartFromMarker(v);
    }
  }

  lemma NotBoth(v: Text)
    requires v != [] && Contains(MARKER, v)
    ensures !Apart(v, MARKER)
  {
    var i :| OccursAt(v, MARKER, i);
    assert OccursAt(MARKER, MARKER, 0);
    if Apart(v, MARKER) { ApartOccurrences(v, MARKER, MARKER, i, 0); }
  }

  /** For such secrets the no-overlap hypothesis says that no kept value is a piece of the marker. */
  lemma MarkerSafeIff(secrets: seq<Text>)
    requires NoneStraddles(secrets)
    ensures MarkerSafe(secrets) <==> OutsideMarker(secrets)
  {
    var vs := KeptValues(secrets);
    KeptValuesAre(secrets);
    forall i | 0 <= i < |vs| ensures Apart(vs[i], MARKER) <==> !Contains(MARKER, vs[i]) {
      assert vs[i] in vs;
      if Contains(MARKER, vs[i]) { NotBoth(vs[i]); }
    }
    if MarkerSafe(secrets) {
      forall v | v in vs ensures !Contains(MARKER, v) {
        var i :| 0 <= i < |vs| && vs[i] == v;
      }
    } else {
      var i :| 0 <= i < |vs| && !Apart(vs[i], MARKER);
      assert vs[i] in vs;
    }
  }

  lemma ContainsTransitive(t: Text, m: Text, v: Text)
    requires Contains(t, m) && Contains(m, v)
    ensures Contains(t, v)
  {
    var i :| OccursAt(m, t, i);
    var j :| OccursAt(v, m, j);
    assert t == t[..i] + (m + t[i + |m|..]);
    assert (m + t[i + |m|..])[j..j + |v|] == m[j..j + |v|];
    OccursShift(v, t[..i], m + t[i + |m|..], j);
    assert OccursAt(v, t, i + j);
  }

  /** Once there is something to redact, or a marker already, the output shows a whole marker. */
  lemma {:induction false} MarkerShows(text: Text, vs: seq<Text>)
    requires NonEmpty(vs)
    requires Contains(text, MARKER) || exists v :: v in vs && Contains(text, v)
    ensures Contains(Passes(text, vs, MARKER), MARKER)
    decreases |vs|
  {
    if vs != [] {
      if Contains(text, vs[0]) {
        ReplaceInserts(text, vs[0], MARKER);
      } else {
        ReplaceIdentity(text, vs[0], MARKER);
      }
      MarkerShows(Replace(text, vs[0], MARKER), vs[1..]);
    }
  }

  /** A kept value that is a piece of the marker survives its own redaction. */
  lemma PieceOfMarkerSurvives(secrets: seq<Text>, v: Text)
    requires v in KeptValues(secrets) && Contains(MARKER, v)
    ensures Contains(Redacted(v, secrets), v)
  {
    KeptValuesAre(secrets);
    assert OccursAt(v, v, 0);
    MarkerShows(v, KeptValues(secrets));
    ContainsTransitive(Redacted(v, secrets), MARKER, v);
  }

  /** Exactly when a value that does not straddle a marker never survives, whatever the other secrets are. */
  lemma NeverSurvivesIff(secrets: seq<Text>, v: Text)
    requires v in KeptValues(secrets) && (Apart(v, MARKER) || Contains(MARKER, v))
    ensures (forall text :: !Contains(Redacted(text, secrets), v)) <==> !Contains(MARKER, v)
  {
    if Contains(MARKER, v) {
      PieceOfMarkerSurvives(secrets, v);
    } else {
      forall text ensures !Contains(Redacted(text, secrets), v) { KeptValueGone(text, secrets, v); }
    }
  }

  /** One half needs no hypothesis: nothing survives only if no kept value is a piece of the marker. */
  lemma CleanOnlyIf(secrets: seq<Text>)
    requires forall text :: Clean(Redacted(text, secrets), secrets)
    ensures OutsideMarker(secrets)
  {
    forall v | v in KeptValues(secrets) ensures !Contains(MARKER, v) {
      assert Clean(Redacted(v, secrets), secrets);
      if Contains(MARKER, v) { PieceOfMarkerSurvives(secrets, v); }
    }
  }

  /** Exactly when nothing survives on any text: no kept value is a piece of the marker. */
  lemma NothingSurvivesIff(secrets: seq<Text>)
    requires NoneStraddles(secrets)
    ensures (forall text :: Clean(Redacted(text, secrets), secrets)) <==> OutsideMarker(secrets)
  {
    MarkerSafeIff(secrets);
    if OutsideMarker(secrets) {
      forall text ensures Clean(Redacted(text, secrets), secrets) { NothingSurvives(text, secrets); }
    } else if forall text :: Clean(Redacted(text, secrets), secrets) {
      CleanOnlyIf(secrets);
    }
  }

  /** How many opening brackets a text has. */
  function Opens(t: Text): nat {
    if t == [] then 0 else (if t[0] == 0x5B then 1 else 0) + Opens(t[1..])
  }

  lemma {:induction false} OpensConcat(a: Text, b: Text)
    ensures Opens(a + b) == Opens(a) + Opens(b)
  {
    if a == [] {
      assert a + b == b;
    } else {
      assert (a + b)[1..] == a[1..] + b;
      OpensConcat(a[1..], b);
    }
  }

  lemma {:induction false} NoOpens(v: Text)
    requires BracketFree(v)
    ensures Opens(v) == 0
  {
    if v != [] { NoOpens(v[1..]); }
  }

  /** A pass for a value without brackets removes no bracket, and every match adds one. */
  lemma {:induction false} PassOpens(t: Text, v: Text)
    requires v != [] && BracketFree(v)
    ensures Opens(Replace(t, v, MARKER)) >= Opens(t)
    ensures Contains(t, v) ==> Opens(Replace(t, v, MARKER)) > Opens(t)
    decreases |t|
  {
    if t != [] {
      if OccursAt(v, t, 0) {
        var rest := t[|v|..];
        assert t == v + rest;
        PassOpens(rest, v);
        OpensConcat(v, rest);
        NoOpens(v);
        OpensConcat(MARKER, Replace(rest, v, MARKER));
        assert Opens(MARKER) >= 1;
      } else {
        PassOpens(t[1..], v);
        assert Replace(t, v, MARKER)[1..] == Replace(t[1..], v, MARKER);
        if i :| OccursAt(v, t, i) {
          assert [t[0]] + t[1..] == t;
          OccursShift(v, [t[0]], t[1..], i - 1);
        }
      }
    }
  }

  lemma {:induction false} PassesOpen(t: Text, vs: seq<Text>)
    requires NonEmpty(vs) && forall v :: v in vs ==> BracketFree(v)
    ensures Opens(Passes(t, vs, MARKER)) >= Opens(t)
    ensures (exists v :: v in vs && Contains(t, v)) ==> Opens(Passes(t, vs, MARKER)) > Opens(t)
    decreases |vs|
  {
    if vs != [] {
      assert vs[0] in vs;
      PassOpens(t, vs[0]);
      PassesOpen(Replace(t, vs[0], MARKER), vs[1..]);
      if !Contains(t, vs[0]) { ReplaceIdentity(t, vs[0], MARKER); }
    }
  }

  /** A first cut would put a value and a marker at the same place of the same text. */
  lemma UnchangedUncut(text: Text, secrets: seq<Text>)
    requires MarkerSafe(secrets) && Redacted(text, secrets) == text
    ensures forall k :: 0 <= k < |CutOut(text, secrets)| ==> CutOut(text, secrets)[k].Lit?
  {
    var ts, vs := CutOut(text, secrets), KeptValues(secrets);
    KeptValuesAre(secrets);
    Conservation(text, secrets);
    if exists k :: 0 <= k < |ts| && ts[k].Hole? {
      var j := FirstHole(ts);
      HoleReads(ts, j, MARKER);
      var i :| 0 <= i < |vs| && vs[i] == ts[j].cut;
      ApartOccurrences(vs[i], MARKER, text, j, j);
    }
  }

  /** Redaction leaves a text alone exactly when there is nothing to redact in it. */
  lemma UnchangedIff(text: Text, secrets: seq<Text>)
    requires MarkerSafe(secrets) || forall s :: s in secrets ==> BracketFree(s)
    ensures Redacted(text, secrets) == text <==> Clean(text, secrets)
  {
    KeptValuesAre(secrets);
    if Clean(text, secrets) {
      CleanTextUnchanged(text, secrets);
    } else if !MarkerSafe(secrets) {
      KeptBracketFree(secrets);
      PassesOpen(text, KeptValues(secrets));
    } else if Redacted(text, secrets) == text {
      UnchangedUncut(text, secrets);
      Conservation(text, secrets);
      AllLiterals(CutOut(text, secrets));
      UncutClean(text, secrets);
    }
  }

  lemma UncutClean(text: Text, secrets: seq<Text>)
    requires CutOut(text, secrets) == Lits(text)
    ensures Clean(text, secrets)
  {
    Conservation(text, secrets);
    forall v | v in KeptValues(secrets) ensures !Contains(text, v) {
      if i :| OccursAt(v, text, i) {
        LitsOccur(v, text, i);
        assert Contains(CutOut(text, secrets), Lits(v));
      }
    }
  }

  /** Exactly when redacting twice is redacting once: again, no kept value is a piece of the marker. */
  lemma IdempotentIff(secrets: seq<Text>)
    requires forall s :: s in secrets ==> BracketFree(s)
    ensures (forall text :: Redacted(Redacted(text, secrets), secrets) == Redacted(text, secrets))
            <==> OutsideMarker(secrets)
  {
    BracketFreeStraddlesNot(secrets);
    MarkerSafeIff(secrets);
    if OutsideMarker(secrets) {
      forall text ensures Redacted(Redacted(text, secrets), secrets) == Redacted(text, secrets) {
        Idempotent(text, secrets);
      }
    } else {
      var v :| v in KeptValues(secrets) && Contains(MARKER, v);
      PieceOfMarkerSurvives(secrets, v);
      UnchangedIff(Redacted(v, secrets), secrets);
    }
  }

  // ----- the longest match

  /**
   An occurrence of a kept value is redacted whole, and the text on its two sides as if it stood alone,
   whatever shorter values overlap the occurrence: only values at least as long can be rivals.
   */
  lemma LongestMatchWins(a: Text, p: Text, b: Text, secrets: seq<Text>)
    requires MarkerSafe(secrets) && p in KeptValues(secrets)
    requires Unrivalled(a, p, b, KeptValues(secrets))
    ensures Redacted(a + p + b, secrets) == Redacted(a, secrets) + MARKER + Redacted(b, secrets)
  {
    var vs := KeptValues(secrets);
    KeptValuesAre(secrets);
    LongestWinsOnText(a, p, b, vs);
    ExpandAround(CutOut(a, secrets), p, CutOut(b, secrets));
    Conservation(a + p + b, secrets);
    Conservation(a, secrets);
    Conservation(b, secrets);
  }

  lemma LongestWinsOnText(a: Text, p: Text, b: Text, vs: seq<Text>)
    requires NonEmpty(vs) && LongestFirst(vs) && p in vs && Unrivalled(a, p, b, vs)
    ensures TokenPasses(Lits(a + p + b), vs)
            == TokenPasses(Lits(a), vs) + [Hole(p)] + TokenPasses(Lits(b), vs)
  {
    LitsRead(a, MARKER);
    LitsRead(b, MARKER);
    assert Lits(a + p + b) == Lits(a) + Lits(p) + Lits(b);
    LongestWins(Lits(a), p, Lits(b), vs);
  }

  lemma ExpandAround(a: seq<Token<CodeUnit>>, p: Text, b: seq<Token<CodeUnit>>)
    ensures Expand(a + [Hole(p)] + b, MARKER) == Expand(a, MARKER) + MARKER + Expand(b, MARKER)
  {
    ExpandConcat(a + [Hole(p)], b, MARKER);
    ExpandConcat(a, [Hole(p)], MARKER);
  }

  // ----- size

  lemma {:induction false} TokensSize(ts: seq<Token<CodeUnit>>)
    requires forall k :: 0 <= k < |ts| && ts[k].Hole? ==> |ts[k].cut| >= MIN_LENGTH
    ensures 3 * |Expand(ts, MARKER)| <= 5 * |Fill(ts)|
  {
    if ts != [] { TokensSize(ts[1..]); }
  }

  /** The output is at most five thirds of the input, however many secrets there are. */
  lemma SizeBound(text: Text, secrets: seq<Text>)
    requires MarkerSafe(secrets)
    ensures 3 * |Redacted(text, secrets)| <= 5 * |text|
  {
    var vs := KeptValues(secrets);
    KeptValuesAre(secrets);
    Conservation(text, secrets);
    var ts := CutOut(text, secrets);
    forall k | 0 <= k < |ts| && ts[k].Hole? ensures |ts[k].cut| >= MIN_LENGTH {
      assert ts[k].cut in vs;
    }
    TokensSize(ts);
  }

  function Power(base: nat, n: nat): nat {
    if n == 0 then 1 else base * Power(base, n - 1)
  }

  /** Without any hypothesis a marker may be redacted again, but only once per kept value. */
  lemma SizeBoundAlways(text: Text, secrets: seq<Text>)
    ensures var n := |KeptValues(secrets)|;
            Power(6, n) * |Redacted(text, secrets)| <= Power(10, n) * |text|
  {
    var vs := KeptValues(secrets);
    KeptValuesAre(secrets);
    forall i | 0 <= i < |vs| ensures |vs[i]| >= MIN_LENGTH {
      assert vs[i] in vs;
    }
    PassesSize(text, vs);
  }

  lemma {:induction false} PassSize(t: Text, v: Text)
    requires |v| >= MIN_LENGTH
    ensures 6 * |Replace(t, v, MARKER)| <= 10 * |t|
    decreases |t|
  {
    if t != [] { PassSize(t[if OccursAt(v, t, 0) then |v| else 1..], v); }
  }

  lemma {:induction false} PassesSize(text: Text, vs: seq<Text>)
    requires NonEmpty(vs) && forall i :: 0 <= i < |vs| ==> |vs[i]| >= MIN_LENGTH
    ensures Power(6, |vs|) * |Passes(text, vs, MARKER)| <= Power(10, |vs|) * |text|
    decreases |vs|
  {
    if vs != [] {
      var once := Replace(text, vs[0], MARKER);
      PassSize(text, vs[0]);
      PassesSize(once, vs[1..]);
      Chain(Power(6, |vs| - 1), |Passes(once, vs[1..], MARKER)|, Power(10, |vs| - 1), |once|, |text|);
    }
  }

  lemma Chain(x: nat, out: nat, y: nat, mid: nat, len: nat)
    requires x * out <= y * mid && 6 * mid <= 10 * len
    ensures (6 * x) * out <= (10 * y) * len
  {
    assert (6 * x) * out == 6 * (x * out);
    assert 6 * (y * mid) == y * (6 * mid);
    assert y * (6 * mid) <= y * (10 * len);
    assert y * (10 * len) == (10 * y) * len;
  }
}
