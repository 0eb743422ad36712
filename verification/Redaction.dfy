/** The secret redactor: which values it looks for, in which order, and what it does to a text. */
module Redaction {
  import opened Prelude
  import opened ByLength
  import opened Scan
  import opened Tokens
  import opened Pattern
  import Utf8
  import Base64
  import Hex

  /** "[REDACTED]" */
  const MARKER: Text := [0x5B, 0x52, 0x45, 0x44, 0x41, 0x43, 0x54, 0x45, 0x44, 0x5D]

  const MIN_LENGTH := 6

  // ----- the values that a list of secrets gives rise to

  function LongEnough(vs: seq<Text>): seq<Text> {
    if vs == [] then []
    else (if |vs[0]| >= MIN_LENGTH then [vs[0]] else []) + LongEnough(vs[1..])
  }

  /** The forms in which a secret may appear. */
  predicate IsVariant(v: Text, secret: Text) {
    || v == secret
    || v == Base64.Encode(Utf8.Encode(secret), false)
    || v == Base64.Encode(Utf8.Encode(secret), true)
    || Hex.EncodeUriComponent(secret) == Some(v)
  }

  /** The encodings of a secret, in the order in which they are added to the set. */
  function Encodings(secret: Text): seq<Text> {
    var bytes := Utf8.Encode(secret);
    [Base64.Encode(bytes, false), Base64.Encode(bytes, true)]
    + match Hex.EncodeUriComponent(secret) case None => [] case Some(v) => [v]
  }

  /** The secret and its encodings, as an insertion-ordered set, before the short ones are dropped. */
  function AllVariants(secret: Text): seq<Text> {
    InsertAll([secret], Encodings(secret))
  }

  /** `encodedVariants(secret)`. */
  function Variants(secret: Text): seq<Text> {
    LongEnough(AllVariants(secret))
  }

  /** Empty secrets are skipped. */
  function ValuesOf(secrets: seq<Text>): seq<Text> {
    if secrets == [] then []
    else
      var earlier, secret := ValuesOf(secrets[..|secrets| - 1]), secrets[|secrets| - 1];
      if secret == [] then earlier else InsertAll(earlier, Variants(secret))
  }

  function KeptValues(secrets: seq<Text>): seq<Text> {
    SortByLength(ValuesOf(secrets))
  }

  /** `redactSecrets(text, secrets)`: one pass per kept value, longest value first. */
  ghost function Redacted(text: Text, secrets: seq<Text>): Text {
    KeptValuesAre(secrets);
    Passes(text, KeptValues(secrets), MARKER)
  }

  // ----- what those values are

  ghost predicate IsKept(v: Text, secrets: seq<Text>) {
    |v| >= MIN_LENGTH && exists s :: s in secrets && s != [] && IsVariant(v, s)
  }

  lemma {:induction false} LongEnoughAre(vs: seq<Text>)
    ensures forall v :: v in LongEnough(vs) <==> v in vs && |v| >= MIN_LENGTH
    ensures NoDuplicates(vs) ==> NoDuplicates(LongEnough(vs))
  {
    if vs != [] { LongEnoughAre(vs[1..]); }
  }

  lemma VariantsAre(secret: Text)
    ensures forall v :: v in Variants(secret) <==> |v| >= MIN_LENGTH && IsVariant(v, secret)
    ensures NoDuplicates(Variants(secret))
  {
    var e := Encodings(secret);
    InsertAllIs([secret], e);
    LongEnoughAre(InsertAll([secret], e));
    forall v ensures v in InsertAll([secret], e) <==> IsVariant(v, secret) { EncodingsAre(secret, v); }
  }

  lemma EncodingsAre(secret: Text, v: Text)
    ensures v == secret || v in Encodings(secret) <==> IsVariant(v, secret)
  {
    var e := Encodings(secret);
    assert v in e <==> v == e[0] || v == e[1] || (|e| == 3 && v == e[2]);
  }

  lemma {:induction false} ValuesDiffer(secrets: seq<Text>)
    ensures NoDuplicates(ValuesOf(secrets))
  {
    if secrets != [] {
      var earlier := secrets[..|secrets| - 1];
      ValuesDiffer(earlier);
      InsertAllIs(ValuesOf(earlier), Variants(secrets[|secrets| - 1]));
    }
  }

  lemma {:induction false} ValuesAre(secrets: seq<Text>, v: Text)
    ensures v in ValuesOf(secrets) <==> IsKept(v, secrets)
  {
    if secrets != [] {
      var earlier, secret := secrets[..|secrets| - 1], secrets[|secrets| - 1];
      assert secrets == earlier + [secret];
      ValuesAre(earlier, v);
      VariantsAre(secret);
      InsertAllIs(ValuesOf(earlier), Variants(secret));
      KeptByLast(v, earlier, secret);
      assert v in ValuesOf(secrets) <==> v in ValuesOf(earlier) || (secret != [] && v in Variants(secret));
    }
  }

  lemma KeptByLast(v: Text, earlier: seq<Text>, secret: Text)
    ensures IsKept(v, earlier + [secret]) <==>
            IsKept(v, earlier) || (|v| >= MIN_LENGTH && secret != [] && IsVariant(v, secret))
  {
    assert secret in earlier + [secret];
    forall s | s in earlier ensures s in earlier + [secret] { }
  }

  /** The kept values: exactly the long enough variants of non-empty secrets, once each, longest first. */
  lemma KeptValuesAre(secrets: seq<Text>)
    ensures forall v :: v in KeptValues(secrets) <==> IsKept(v, secrets)
    ensures NoDuplicates(KeptValues(secrets)) && LongestFirst(KeptValues(secrets))
    ensures NonEmpty(KeptValues(secrets))
  {
    ValuesDiffer(secrets);
    SortKeepsAll(ValuesOf(secrets));
    SortOrders(ValuesOf(secrets));
    SameElements(ValuesOf(secrets), KeptValues(secrets));
    forall v ensures v in KeptValues(secrets) <==> IsKept(v, secrets) {
      ValuesAre(secrets, v);
    }
    var vs := KeptValues(secrets);
    forall i | 0 <= i < |vs| ensures vs[i] != [] {
      assert vs[i] in vs;
    }
  }

  /** The kept values in full: of six or more characters, a non-empty secret or one of its three encodings. */
  lemma KeptIff(v: Text, secrets: seq<Text>)
    ensures v in KeptValues(secrets) <==>
            && |v| >= 6
            && exists s :: s in secrets && s != []
                           && (|| v == s
                               || v == Base64.Encode(Utf8.Encode(s), false)
                               || v == Base64.Encode(Utf8.Encode(s), true)
                               || Hex.EncodeUriComponent(s) == Some(v))
  {
    KeptValuesAre(secrets);
    if v in KeptValues(secrets) {
      assert IsKept(v, secrets);
      var s :| s in secrets && s != [] && IsVariant(v, s);
    } else if s :| |v| >= 6 && s in secrets && s != [] && IsVariant(v, s) {
      assert IsKept(v, secrets);
    }
  }

  lemma MarkerIs()
    ensures MARKER == Ascii("[REDACTED]")
  {
  }

  // ----- the program

  lemma ThreeInserts(secret: Text)
    ensures var e := Encodings(secret); var two := Insert(Insert([secret], e[0]), e[1]);
            AllVariants(secret) == if |e| == 3 then Insert(two, e[2]) else two
  {
    var e := Encodings(secret);
    InsertAllCons([secret], e[0], e[1..]);
    InsertAllCons(Insert([secret], e[0]), e[1], e[2..]);
    if |e| == 3 { InsertAllCons(Insert(Insert([secret], e[0]), e[1]), e[2], []); }
    assert [e[0]] + e[1..] == e && [e[1]] + e[2..] == e[1..] && (|e| == 3 ==> [e[2]] + [] == e[2..]);
  }

  lemma InsertAllCons(s: seq<Text>, x: Text, xs: seq<Text>)
    ensures InsertAll(s, [x] + xs) == InsertAll(Insert(s, x), xs)
  {
    assert ([x] + xs)[1..] == xs;
  }

  /** `encodedVariants`: a set is filled, then filtered. */
  method EncodedVariants(secret: Text) returns (vs: seq<Text>)
    ensures vs == Variants(secret)
    ensures forall v :: v in vs <==> |v| >= MIN_LENGTH && IsVariant(v, secret)
    ensures NoDuplicates(vs)
  {
    var variants := [secret];
    var bytes := Utf8.Encode(secret);
    variants := Insert(variants, Base64.Encode(bytes, false));
    variants := Insert(variants, Base64.Encode(bytes, true));
    match Hex.EncodeUriComponent(secret) {
      case None =>
      case Some(v) => variants := Insert(variants, v);
    }
    assert variants == AllVariants(secret) by { ThreeInserts(secret); }
    VariantsAre(secret);
    vs := LongEnough(variants);
  }

  /** `text.replace(pattern, MARKER)`: match from `lastIndex`, copy, and resume after the match. */
  method GlobalReplace(text: Text, pattern: Text) returns (out: Text)
    requires Literals(pattern).Some? && Literals(pattern).value != []
    ensures out == Replace(text, Literals(pattern).value, MARKER)
  {
    var p := Literals(pattern).value;
    var lastIndex := 0;
    out := [];
    while lastIndex < |text|
      invariant lastIndex <= |text|
      invariant out + Replace(text[lastIndex..], p, MARKER) == Replace(text, p, MARKER)
    {
      ScanStep(text, lastIndex, p, MARKER);
      if OccursAt(p, text, lastIndex) {
        Associative(out, MARKER, Replace(text[lastIndex + |p|..], p, MARKER));
        out := out + MARKER;
        lastIndex := lastIndex + |p|;
      } else {
        Associative(out, [text[lastIndex]], Replace(text[lastIndex + 1..], p, MARKER));
        out := out + [text[lastIndex]];
        lastIndex := lastIndex + 1;
      }
    }
  }

  ghost predicate Sources(patterns: seq<Text>, vs: seq<Text>) {
    |patterns| == |vs| && forall i :: 0 <= i < |vs| ==> Literals(patterns[i]) == Some(vs[i])
  }

  /** The constructor's inner loop. */
  method AddVariants(values: seq<Text>, variants: seq<Text>) returns (r: seq<Text>)
    ensures r == InsertAll(values, variants)
  {
    r := values;
    for j := 0 to |variants|
      invariant InsertAll(r, variants[j..]) == InsertAll(values, variants)
    {
      assert variants[j..][1..] == variants[j + 1..];
      r := Insert(r, variants[j]);
    }
  }

  /** The constructor's outer loop: the values of all secrets, without duplicates. */
  method CollectValues(secrets: seq<Text>) returns (values: seq<Text>)
    ensures values == ValuesOf(secrets)
  {
    values := [];
    for i := 0 to |secrets|
      invariant values == ValuesOf(secrets[..i])
    {
      assert secrets[..i + 1][..i] == secrets[..i];
      if secrets[i] == [] { continue; }
      var variants := EncodedVariants(secrets[i]);
      values := AddVariants(values, variants);
    }
    assert secrets[..|secrets|] == secrets;
  }

  /** The constructor's final `map`: one escaped pattern per value. */
  method Compile(values: seq<Text>) returns (patterns: seq<Text>)
    ensures Sources(patterns, values)
  {
    patterns := [];
    for i := 0 to |values|
      invariant |patterns| == i
      invariant forall k :: 0 <= k < i ==> Literals(patterns[k]) == Some(values[k])
    {
      EscapingIsExact(values[i]);
      patterns := patterns + [EscapeRegExp(values[i])];
    }
  }

  class Redactor {
    /** The sources of the compiled patterns. */
    const patterns: seq<Text>

    /** The values that the patterns stand for. */
    ghost const values: seq<Text>

    ghost predicate Valid() {
      Sources(patterns, values) && NonEmpty(values)
    }

    constructor (secrets: seq<Text>)
      ensures Valid() && values == KeptValues(secrets)
    {
      var collected := CollectValues(secrets);
      var sources := Compile(SortByLength(collected));
      patterns := sources;
      values := KeptValues(secrets);
      new;
      KeptValuesAre(secrets);
    }

    method Redact(text: Text) returns (out: Text)
      requires Valid()
      ensures out == Passes(text, values, MARKER)
    {
      out := text;
      for i := 0 to |patterns|
        invariant Passes(out, values[i..], MARKER) == Passes(text, values, MARKER)
      {
        assert values[i..][1..] == values[i + 1..];
        out := GlobalReplace(out, patterns[i]);
      }
    }
  }

  method RedactSecrets(text: Text, secrets: seq<Text>) returns (out: Text)
    ensures out == Redacted(text, secrets)
  {
    var redactor := new Redactor(secrets);
    out := redactor.Redact(text);
  }
}
