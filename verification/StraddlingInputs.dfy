/** What straddling values do at particular inputs: secrets that survive, that never do, and that depend on others. */
module StraddlingInputs {
  import opened Prelude
  import opened ByLength
  import opened Scan
  import opened OwnPass
  import opened Tokens
  import opened Redaction
  import opened RedactionTheorems
  import opened Straddling
  import Utf8
  import Base64
  import Hex

  // ----- what an encoding starts with

  /** The characters with which an encoding of a secret that starts with ASCII `c` can start. */
  predicate CanStart(u: CodeUnit, c: CodeUnit)
    requires c < 0x80
  {
    u == Hex.PERCENT || u == Base64.Char(c / 4, false) || u == Base64.Char(c / 4, true)
  }

  lemma EncodingStarts(u: Text, secret: Text)
    requires secret != [] && secret[0] < 0x80 && IsVariant(u, secret) && u != secret
    requires Hex.IsUnreserved(secret[0]) ==> forall i :: 0 <= i < |secret| ==> Hex.IsUnreserved(secret[i])
    ensures u != [] && CanStart(u[0], secret[0])
  {
    if Hex.IsUnreserved(secret[0]) { Hex.UnreservedKept(secret); } else { Hex.PercentStarts(secret); }
    assert Utf8.ToScalars(secret)[0] == secret[0];
    assert Utf8.Encode(secret)[0] == secret[0];
    Base64.EncodeStarts(Utf8.Encode(secret), false);
    Base64.EncodeStarts(Utf8.Encode(secret), true);
  }

  predicate StartsWithBracket(s: Text) {
    s != [] && (s[0] == 0x5B || s[0] == 0x5D)
  }

  /** A percent sign, or the W or X that the base64 of a bracket starts with. */
  lemma BracketEncoded(u: Text, s: Text)
    requires StartsWithBracket(s) && IsVariant(u, s) && u != s
    ensures u != [] && u[0] in {0x25, 0x57, 0x58} && |u| > |s|
  {
    EncodingStarts(u, s);
    EncodingLonger(u, s);
  }

  // ----- two secrets

  /** Two secrets give rise to nothing but their own variants. */
  lemma KeptOfTwo(u: Text, p: Text, q: Text)
    ensures u in KeptValues([p, q]) ==> IsVariant(u, p) || IsVariant(u, q)
    ensures |p| >= MIN_LENGTH ==> p in KeptValues([p, q])
    ensures |q| >= MIN_LENGTH ==> q in KeptValues([p, q])
  {
    KeptValuesAre([p, q]);
    assert p in [p, q] && q in [p, q] && IsVariant(p, p) && IsVariant(q, q);
    if u in KeptValues([p, q]) { assert IsKept(u, [p, q]); }
    if |p| >= MIN_LENGTH { assert IsKept(p, [p, q]); }
    if |q| >= MIN_LENGTH { assert IsKept(q, [p, q]); }
  }

  lemma ValuesOfTwo(p: Text, q: Text)
    requires p != [] && q != []
    ensures ValuesOf([p, q]) == InsertAll(InsertAll([], Variants(p)), Variants(q))
  {
    assert [p, q][..1] == [p] && [p][..0] == [];
    assert ValuesOf([p]) == InsertAll(ValuesOf([]), Variants(p));
  }

  lemma KnownFirst(p: Text, q: Text)
    requires |p| == |q| >= MIN_LENGTH && p != q
    ensures p in InsertAll([], Variants(p)) && q !in InsertAll([], Variants(p))
    ensures q in InsertAll(InsertAll([], Variants(p)), Variants(q))
  {
    VariantsAre(p);
    VariantsAre(q);
    InsertAllIs([], Variants(p));
    InsertAllIs(InsertAll([], Variants(p)), Variants(q));
    assert IsVariant(p, p) && IsVariant(q, q);
    if IsVariant(q, p) { EncodingLonger(q, p); }
  }

  /** Of two secrets of one length the one that is given first is looked for first. */
  lemma GivenFirst(p: Text, q: Text)
    requires |p| == |q| >= MIN_LENGTH && p != q
    ensures Before(KeptValues([p, q]), p, q)
  {
    ValuesOfTwo(p, q);
    KnownFirst(p, q);
    InsertAllExtends(InsertAll([], Variants(p)), Variants(q));
    AddedBehind(InsertAll([], Variants(p)), ValuesOf([p, q]), p, q);
    SortKeepsPlaces(ValuesOf([p, q]), p, q);
  }

  lemma AddedBehind(vs: seq<Text>, more: seq<Text>, p: Text, q: Text)
    requires vs <= more && p in vs && q in more && q !in vs
    ensures Before(more, p, q)
  {
    var rest := more[|vs|..];
    assert more == vs + rest;
    var i :| 0 <= i < |vs| && vs[i] == p;
    var j :| 0 <= j < |rest| && rest[j] == q;
    assert more[i] == p && more[|vs| + j] == q;
    BeforeIff(more, p, q);
  }

  // ----- a single secret

  /** "REDACT" */
  const REDACT: Text := [0x52, 0x45, 0x44, 0x41, 0x43, 0x54]

  /** A secret that is a piece of the marker shows in its own marker. */
  lemma RedactSurvives()
    ensures Contains(Redacted(REDACT, [REDACT]), REDACT)
  {
    assert OccursAt(REDACT, MARKER, 1) by { OccursIn(REDACT, MARKER, 1); }
    SecretIsLast(REDACT);
    PieceOfMarkerSurvives([REDACT], REDACT);
  }

  /** The encodings of a secret that has none of the characters that they can start with. */
  lemma BracketForeign(s: Text)
    requires StartsWithBracket(s) && |s| >= MIN_LENGTH
    requires forall i :: 0 <= i < |s| ==> s[i] !in {0x25, 0x57, 0x58}
    ensures forall u :: u in KeptValues([s]) && u != s ==> Foreign(u, s)
  {
    SecretIsLast(s);
    forall u | u in KeptValues([s]) && u != s ensures Foreign(u, s) {
      BracketEncoded(u, s);
      assert u[0] !in s;
    }
  }

  /** "]abcde" */
  const STRADDLER: Text := [0x5D, 0x61, 0x62, 0x63, 0x64, 0x65]

  /** It starts with a closing bracket and has no other, and no character with which its encodings can start. */
  predicate IsStraddler(s: Text) {
    |s| >= MIN_LENGTH && s[0] == 0x5D && forall i :: 1 <= i < |s| ==> 0x61 <= s[i] <= 0x7A
  }

  lemma StraddlerMeets(s: Text)
    requires IsStraddler(s)
    ensures CanPut(s, s, MARKER, -9) && Around(s, s, MARKER, -9) == s + s[1..]
    ensures !Contains(MARKER, s)
  {
    ElementAbsent(s, MARKER, 1);
  }

  lemma StraddlerSurvives(s: Text)
    requires IsStraddler(s)
    ensures Contains(Redacted(s + s[1..], [s]), s)
  {
    StraddlerMeets(s);
    SecretIsLast(s);
    BracketForeign(s);
    LastForeign(s, -9, [s]);
    Revealed(s, s, -9, [s]);
  }

  lemma SecretOutside(s: Text)
    requires |s| >= MIN_LENGTH && !Contains(MARKER, s)
    ensures OutsideMarker([s])
  {
    SecretEncodings(s);
    KeptValuesAre([s]);
    forall u | u in KeptValues([s]) ensures !Contains(MARKER, u) {
      if u != s && Contains(MARKER, u) { NotBoth(u); }
    }
  }

  /** A value with a bracket can be put together from a marker and what follows it. */
  lemma StraddlingSurvives()
    ensures OutsideMarker([STRADDLER])
    ensures Contains(Redacted(STRADDLER + STRADDLER[1..], [STRADDLER]), STRADDLER)
  {
    StraddlerMeets(STRADDLER);
    SecretOutside(STRADDLER);
    StraddlerSurvives(STRADDLER);
  }

  /** Seven opening brackets. */
  const BRACKETS: Text := [0x5B, 0x5B, 0x5B, 0x5B, 0x5B, 0x5B, 0x5B]

  predicate IsBrackets(s: Text) {
    |s| == 7 && forall i :: 0 <= i < |s| ==> s[i] == 0x5B
  }

  lemma MeetsAt(v: Text, m: Text, d: int, j: nat)
    requires Meets(v, m, d) && j < |v| && d <= j < d + |m|
    ensures v[j] == m[j - d]
  {
  }

  /** Only its last bracket can be the one of a marker. */
  lemma BracketsMeet(p: Text, d: int)
    requires IsBrackets(p)
    ensures Meets(p, MARKER, d) <==> d == 6
  {
    if Meets(p, MARKER, d) {
      if d < 0 {
        MeetsAt(p, MARKER, d, 0);
      } else if d < 6 {
        MeetsAt(p, MARKER, d, d + 1);
      }
    }
  }

  lemma BracketsStay(p: Text)
    requires IsBrackets(p)
    ensures !LeavesItself(p, MARKER) && !Apart(p, MARKER)
  {
    forall d ensures !CanPut(p, p, MARKER, d) {
      BracketsMeet(p, d);
      if d == 6 {
        assert OccursAt(p, p[..6] + p, 0);
        assert !NotEarlier(p, Left(p, d));
      }
    }
    BracketsMeet(p, 6);
    ApartIffNeverMeets(p, MARKER);
  }

  /** Yet overlapping a marker need not be harmful: opening brackets alone never survive. */
  lemma HarmlessOverlap(text: Text)
    ensures !Apart(BRACKETS, MARKER)
    ensures Clean(Redacted(text, [BRACKETS]), [BRACKETS])
  {
    BracketsStay(BRACKETS);
    OneSecretIff(BRACKETS);
  }

  // ----- a second secret

  /** "xxxxxx" */
  const CROSSES: Text := [0x78, 0x78, 0x78, 0x78, 0x78, 0x78]

  predicate IsCrosses(s: Text) {
    |s| == MIN_LENGTH && forall i :: 0 <= i < |s| ==> s[i] == 0x78
  }

  /** The base64 of such a secret starts with e. */
  lemma CrossesEncoded(u: Text, s: Text)
    requires IsCrosses(s) && IsVariant(u, s) && u != s
    ensures u != [] && u[0] in {0x25, 0x65} && |u| >= 8
  {
    EncodingStarts(u, s);
    Hex.UnreservedKept(s);
    Utf8.BytesAtLeastUnits(s);
    Base64.EncodeShape(Utf8.Encode(s), false);
  }

  lemma PairEncoded(u: Text, p: Text, q: Text)
    requires IsBrackets(p) && IsCrosses(q)
    requires u in KeptValues([p, q]) && u != p && u != q
    ensures u != [] && u[0] in {0x25, 0x57, 0x58, 0x65} && |u| > |q| && Apart(u, MARKER)
  {
    KeptOfTwo(u, p, q);
    if IsVariant(u, p) {
      BracketEncoded(u, p);
      EncodingApart(u, p);
    } else {
      CrossesEncoded(u, q);
      EncodingApart(u, q);
    }
  }

  lemma CrossesLast(p: Text, q: Text)
    requires IsBrackets(p) && IsCrosses(q)
    ensures IsLast(q, [p, q]) && p in KeptValues([p, q])
  {
    KeptOfTwo(q, p, q);
    forall u | u in KeptValues([p, q]) && u != q ensures |u| > |q| {
      if u != p { PairEncoded(u, p, q); }
    }
    ShortestIsLast(q, [p, q]);
  }

  lemma BracketsCrossesApart(p: Text, q: Text)
    requires IsBrackets(p) && IsCrosses(q)
    ensures Foreign(q, p) && Foreign(p, q) && Apart(q, p)
  {
    assert q[0] !in p && p[0] !in q;
    forall d | 0 <= d < |q| ensures !Agree(q, p, d) { assert q[d] != p[d - d]; }
    forall d | 0 <= d < |p| ensures !Agree(p, q, d) { assert p[d] != q[d - d]; }
  }

  /** The two secrets meet the easy condition, so that what survives is decided by overlap alone. */
  lemma PairForeign(p: Text, q: Text)
    requires IsBrackets(p) && IsCrosses(q)
    ensures StraddlersForeign(q, [p, q])
  {
    var vs := KeptValues([p, q]);
    BracketsCrossesApart(p, q);
    forall w | w in vs && w != p && w != q ensures Foreign(w, q) && Foreign(w, p + q) && Apart(w, MARKER) {
      PairEncoded(w, p, q);
      assert w[0] !in q && w[0] !in p + q;
    }
  }

  lemma PairHarms(p: Text, q: Text)
    requires IsBrackets(p) && IsCrosses(q)
    ensures Contains(Redacted(p[..6] + q, [p, q]), p)
  {
    CrossesLast(p, q);
    PairForeign(p, q);
    BracketsStay(p);
    BracketsMeet(p, 6);
    EarlierForeign(p, q, 6, [p, q]);
    Revealed(p, q, 6, [p, q]);
    assert Around(p, q, MARKER, 6) == p[..6] + q;
  }

  /** With a second secret the same value survives: the later pass puts a marker behind six brackets. */
  lemma SecondSecretHarms()
    ensures BRACKETS in KeptValues([BRACKETS, CROSSES])
    ensures Contains(Redacted(BRACKETS[..6] + CROSSES, [BRACKETS, CROSSES]), BRACKETS)
  {
    CrossesLast(BRACKETS, CROSSES);
    PairHarms(BRACKETS, CROSSES);
  }

  // ----- an earlier secret that hides the overlap

  /** "eabcde" */
  const BEFORE_STRADDLER: Text := [0x65, 0x61, 0x62, 0x63, 0x64, 0x65]

  predicate IsBeforeStraddler(p: Text, q: Text) {
    IsStraddler(q) && p == [q[|q| - 1]] + q[1..]
  }

  lemma StraddlerMeetsIff(s: Text, d: int)
    requires IsStraddler(s)
    ensures Meets(s, MARKER, d) ==> d == -9
  {
    if Meets(s, MARKER, d) { MeetsAt(s, MARKER, d, if d < 0 then 0 else d); }
  }

  lemma BeforeStraddlerApart(p: Text, q: Text)
    requires IsBeforeStraddler(p, q)
    ensures Apart(p, MARKER)
  {
    forall i | 0 <= i < |p| ensures p[i] >= 0x61 { assert p[i] == if i == 0 then q[|q| - 1] else q[i]; }
    ElementAbsent(p, MARKER, 0);
    ApartFromMarker(p);
  }

  lemma StraddlerKept(p: Text, q: Text)
    requires IsBeforeStraddler(p, q)
    ensures IsLast(q, [p, q]) && Before(KeptValues([p, q]), p, q)
    ensures forall u :: u in KeptValues([p, q]) && u != q ==> Apart(u, MARKER)
  {
    var vs := KeptValues([p, q]);
    KeptValuesAre([p, q]);
    GivenFirst(p, q);
    KeptOfTwo(q, p, q);
    forall u | u in vs && u != q ensures Apart(u, MARKER) && (u == p || |u| > |q|) {
      KeptOfTwo(u, p, q);
      if u == p {
        BeforeStraddlerApart(p, q);
      } else {
        EncodingApart(u, if IsVariant(u, p) then p else q);
        EncodingLonger(u, if IsVariant(u, p) then p else q);
      }
    }
    SecondIsLast(p, q, [p, q]);
  }

  lemma BeforeLonger(vs: seq<Text>, x: Text, y: Text)
    requires LongestFirst(vs) && Before(vs, x, y)
    ensures |x| >= |y|
  {
    BeforeIff(vs, x, y);
  }

  lemma BehindIsLast(q: Text, secrets: seq<Text>)
    requires q in KeptValues(secrets)
    requires forall u :: u in KeptValues(secrets) ==> !Before(KeptValues(secrets), q, u)
    ensures IsLast(q, secrets)
  {
    var vs := KeptValues(secrets);
    KeptValuesAre(secrets);
    var k :| 0 <= k < |vs| && vs[k] == q;
    BeforeAt(vs, k);
    assert vs[|vs| - 1] in vs;
  }

  lemma SecondIsLast(p: Text, q: Text, secrets: seq<Text>)
    requires q in KeptValues(secrets) && Before(KeptValues(secrets), p, q)
    requires forall u :: u in KeptValues(secrets) && u != q ==> u == p || |u| > |q|
    ensures IsLast(q, secrets)
  {
    var vs := KeptValues(secrets);
    KeptValuesAre(secrets);
    OneOrder(p, q, vs);
    forall u | u in vs ensures !Before(vs, q, u) {
      if Before(vs, q, u) {
        BeforeLonger(vs, q, u);
        OneOrder(q, u, vs);
      }
    }
    BehindIsLast(q, secrets);
  }

  lemma StraddlerHidden(p: Text, q: Text)
    requires IsBeforeStraddler(p, q)
    ensures !Visible(q, [p, q])
  {
    StraddlerKept(p, q);
    forall u: Text, d | NotBefore(u, q, [p, q]) && CanPut(q, u, MARKER, d)
      ensures Contains(Around(q, u, MARKER, d), p) && u == q
    {
      NothingBehindLast(q, [p, q], u);
      StraddlerMeetsIff(q, d);
      StraddlerMeets(q);
      BetweenTwo(p, q);
    }
  }

  lemma BetweenTwo(p: Text, q: Text)
    requires IsBeforeStraddler(p, q)
    ensures Contains(q + q[1..], p)
  {
    var t := q + q[1..];
    forall k | 0 <= k < |p| ensures t[|q| - 1 + k] == p[k] { }
    OccursIn(p, t, |q| - 1);
  }

  /** Though its own pass can leave the straddler, with an earlier secret beside it it never survives. */
  lemma FirstSecretHides(text: Text)
    ensures LeavesItself(STRADDLER, MARKER)
    ensures Clean(Redacted(text, [BEFORE_STRADDLER, STRADDLER]), [BEFORE_STRADDLER, STRADDLER])
  {
    StraddlerMeets(STRADDLER);
    StraddlerKept(BEFORE_STRADDLER, STRADDLER);
    StraddlerHidden(BEFORE_STRADDLER, STRADDLER);
    OneStraddlerIff([BEFORE_STRADDLER, STRADDLER], STRADDLER);
  }

  // ----- the marker itself

  /** The marker as a secret is a piece of the marker, yet redaction is idempotent. */
  lemma MarkerAsSecret(text: Text)
    ensures !OutsideMarker([MARKER])
    ensures Redacted(Redacted(text, [MARKER]), [MARKER]) == Redacted(text, [MARKER])
  {
    SecretIsLast(MARKER);
    assert OccursAt(MARKER, MARKER, 0) && MARKER in KeptValues([MARKER]);
    OneSecretIdempotentIff(MARKER);
    assert Idempotence([MARKER]);
  }

  // ----- a third secret that hides the overlap

  lemma HiderApart(w: Text, p: Text, q: Text)
    requires IsBrackets(p) && IsCrosses(q) && w == p[..6] + q
    ensures Apart(w, MARKER)
  {
    forall d ensures !Meets(w, MARKER, d) {
      if Meets(w, MARKER, d) { MeetsAt(w, MARKER, d, if d < 0 then 0 else if d < 6 then d + 1 else d); }
    }
    ApartIffNeverMeets(w, MARKER);
  }

  lemma KeptOfThree(u: Text, w: Text, p: Text, q: Text)
    requires u in KeptValues([w, p, q])
    ensures IsVariant(u, w) || IsVariant(u, p) || IsVariant(u, q)
  {
    KeptValuesAre([w, p, q]);
    assert IsKept(u, [w, p, q]);
  }

  /** What is looked for after the brackets is the crosses, and what hides the two is looked for before them. */
  lemma BehindBrackets(u: Text, w: Text, p: Text, q: Text)
    requires IsBrackets(p) && IsCrosses(q) && w == p[..6] + q && Before(KeptValues([w, p, q]), p, u)
    ensures u == q && Before(KeptValues([w, p, q]), w, q)
  {
    var vs := KeptValues([w, p, q]);
    KeptValuesAre([w, p, q]);
    BeforeIff(vs, p, u);
    KeptOfThree(u, w, p, q);
    if u != q {
      if IsVariant(u, w) { if u != w { EncodingLonger(u, w); } }
      else if IsVariant(u, p) { EncodingLonger(u, p); }
      else { CrossesEncoded(u, q); }
    }
    assert w in [w, p, q] && IsVariant(w, w) && IsKept(w, [w, p, q]);
    LongerBefore(vs, w, u);
  }

  lemma LongerBefore(vs: seq<Text>, x: Text, y: Text)
    requires LongestFirst(vs) && x in vs && y in vs && |x| > |y|
    ensures Before(vs, x, y)
  {
    var i :| 0 <= i < |vs| && vs[i] == x;
    var j :| 0 <= j < |vs| && vs[j] == y;
    BeforeIff(vs, x, y);
  }

  lemma HiddenCannotSurvive(w: Text, p: Text, q: Text)
    requires IsBrackets(p) && IsCrosses(q) && w == p[..6] + q
    ensures !CanSurvive(p, [w, p, q])
  {
    HiderApart(w, p, q);
    BracketsStay(p);
    forall u: Text, d | NotBefore(u, p, [w, p, q]) && CanPut(p, u, MARKER, d) ensures !Unhidden(p, u, d, [w, p, q]) {
      BracketsMeet(p, d);
      assert u != p;
      BehindBrackets(u, w, p, q);
      assert Around(p, u, MARKER, d) == w && OccursAt(w, w, 0);
    }
  }

  lemma CrossesApart(q: Text)
    requires IsCrosses(q)
    ensures Apart(q, MARKER)
  {
    ElementAbsent(q, MARKER, 0);
    ApartFromMarker(q);
  }

  lemma ThreeApart(u: Text, w: Text, p: Text, q: Text)
    requires IsBrackets(p) && IsCrosses(q) && w == p[..6] + q && u in KeptValues([w, p, q]) && u != p
    ensures Apart(u, MARKER)
  {
    KeptOfThree(u, w, p, q);
    HiderApart(w, p, q);
    CrossesApart(q);
    if u != w && u != q { EncodingApart(u, if IsVariant(u, w) then w else if IsVariant(u, p) then p else q); }
  }

  lemma HiddenClean(w: Text, p: Text, q: Text)
    requires IsBrackets(p) && IsCrosses(q) && w == p[..6] + q
    ensures NoneCanSurvive([w, p, q])
  {
    KeptValuesAre([w, p, q]);
    forall v | v in KeptValues([w, p, q]) ensures !CanSurvive(v, [w, p, q]) {
      if v == p {
        HiddenCannotSurvive(w, p, q);
      } else {
        ThreeApart(v, w, p, q);
        ApartCannotSurvive(v, [w, p, q]);
      }
    }
  }

  /** "[[[[[[xxxxxx" */
  const HIDER: Text := BRACKETS[..6] + CROSSES

  /** A third secret can undo the harm: it is always redacted before the crosses put a marker there. */
  lemma ThirdSecretHelps(text: Text)
    ensures Clean(Redacted(text, [HIDER, BRACKETS, CROSSES]), [HIDER, BRACKETS, CROSSES])
  {
    HiddenClean(HIDER, BRACKETS, CROSSES);
    ManyStraddlersIff([HIDER, BRACKETS, CROSSES]);
  }
}
