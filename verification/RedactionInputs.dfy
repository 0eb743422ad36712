/** Redaction end to end, in literals: one secret, and the texts in which its encodings are looked for. */
module RedactionInputs {
  import opened Prelude
  import opened Scan
  import opened Tokens
  import opened Redaction
  import opened RedactionTheorems
  import opened Straddling
  import opened StraddlingInputs
  import Utf8
  import Base64
  import Hex

  // ----- a general form: what is redacted to a marker alone

  /** A kept value that is longer than all others becomes one marker, when it stands alone. */
  lemma LongestAlone(v: Text, secrets: seq<Text>)
    requires MarkerSafe(secrets) && v in KeptValues(secrets)
    requires forall u :: u in KeptValues(secrets) && u != v ==> |u| < |v|
    ensures Redacted(v, secrets) == MARKER
  {
    forall q, i | q in KeptValues(secrets) && |q| >= |v| && Touches(q, [] + v + [], i, 0, |v|)
      ensures q == v && i == 0
    {
    }
    assert [] + v + [] == v;
    LongestMatchWins([], v, [], secrets);
    CleanTextUnchanged([], secrets) by { EmptyClean(secrets); }
  }

  lemma EmptyClean(secrets: seq<Text>)
    ensures Clean([], secrets)
  {
    KeptValuesAre(secrets);
    forall v | v in KeptValues(secrets) ensures !Contains([], v) {
      assert v != [];
    }
  }

  // ----- "hunter2"

  lemma {:induction false} AsciiBytes(s: Text)
    requires forall i :: 0 <= i < |s| ==> s[i] < 0x80
    ensures |Utf8.Encode(s)| == |s| && forall i :: 0 <= i < |s| ==> Utf8.Encode(s)[i] == s[i]
  {
    if s != [] {
      AsciiBytes(s[1..]);
      Utf8.EncodeFront(s);
    }
  }

  lemma HunterBytes(b: Bytes, url: bool)
    requires b == [0x68, 0x75, 0x6E, 0x74, 0x65, 0x72, 0x32]
    ensures Base64.Encode(b, url) == if url then Ascii("aHVudGVyMg") else Ascii("aHVudGVyMg==")
  {
    var rest: Bytes := [0x74, 0x65, 0x72] + [0x32];
    assert b == [0x68, 0x75, 0x6E] + rest;
    Base64.EncodeThree(0x68, 0x75, 0x6E, rest, url);
    Base64.EncodeThree(0x74, 0x65, 0x72, [0x32], url);
    HunterFirst(url);
    HunterSecond(url);
    HunterLast(url);
    HunterText(url);
  }

  lemma HunterText(url: bool)
    ensures Ascii("aHVu") + (Ascii("dGVy") + if url then Ascii("Mg") else Ascii("Mg=="))
            == if url then Ascii("aHVudGVyMg") else Ascii("aHVudGVyMg==")
  {
  }

  lemma FourChars(g: seq<Base64.Sextet>, url: bool)
    requires |g| == 4
    ensures Base64.Chars(g, url)
            == [Base64.Char(g[0], url), Base64.Char(g[1], url), Base64.Char(g[2], url), Base64.Char(g[3], url)]
  {
    forall i | 0 <= i < 4 ensures |Base64.Chars(g, url)| == 4 && Base64.Chars(g, url)[i] == Base64.Char(g[i], url) {
      Base64.CharsAt(g, url, i);
    }
    assert |Base64.Chars(g, url)| == 4 by { Base64.CharsAt(g, url, 0); }
  }

  lemma HunterFirst(url: bool)
    ensures Base64.Chars(Base64.Group(0x68, 0x75, 0x6E), url) == Ascii("aHVu")
  {
    FourChars(Base64.Group(0x68, 0x75, 0x6E), url);
  }

  lemma HunterSecond(url: bool)
    ensures Base64.Chars(Base64.Group(0x74, 0x65, 0x72), url) == Ascii("dGVy")
  {
    FourChars(Base64.Group(0x74, 0x65, 0x72), url);
  }

  lemma HunterLast(url: bool)
    ensures Base64.Encode([0x32], url) == if url then Ascii("Mg") else Ascii("Mg==")
  {
    var g := Base64.Pack([0x32]);
    assert g == [12, 32];
    Base64.CharsAt(g, url, 0);
    Base64.CharsAt(g, url, 1);
  }

  lemma HunterVariants(s: Text, v: Text, w: Text, u: Text)
    requires s == Ascii("hunter2") && v == Ascii("aHVudGVyMg==") && w == Ascii("aHVudGVyMg")
    ensures IsVariant(u, s) <==> u == s || u == v || u == w
  {
    HunterIs(s);
    HunterBytes(Utf8.Encode(s), false);
    HunterBytes(Utf8.Encode(s), true);
    Hex.UnreservedKept(s);
  }

  lemma HunterIs(s: Text)
    requires s == Ascii("hunter2")
    ensures Utf8.Encode(s) == [0x68, 0x75, 0x6E, 0x74, 0x65, 0x72, 0x32]
  {
    AsciiBytes(s);
  }

  /** The padded base64 of the secret is redacted as a whole. */
  lemma HunterRedacted()
    ensures Redacted(Ascii("aHVudGVyMg=="), [Ascii("hunter2")]) == Ascii("[REDACTED]")
  {
    HunterAlone(Ascii("hunter2"), Ascii("aHVudGVyMg=="), Ascii("aHVudGVyMg"));
    MarkerIs();
  }

  lemma HunterKept(s: Text, v: Text, w: Text)
    requires s == Ascii("hunter2") && v == Ascii("aHVudGVyMg==") && w == Ascii("aHVudGVyMg")
    ensures v in KeptValues([s]) && forall u :: u in KeptValues([s]) && u != v ==> |u| < |v|
  {
    KeptValuesAre([s]);
    HunterVariants(s, v, w, v);
    assert s in [s] && IsKept(v, [s]);
    forall u | u in KeptValues([s]) && u != v ensures |u| < |v| {
      assert IsKept(u, [s]);
      HunterVariants(s, v, w, u);
    }
  }

  lemma HunterAlone(s: Text, v: Text, w: Text)
    requires s == Ascii("hunter2") && v == Ascii("aHVudGVyMg==") && w == Ascii("aHVudGVyMg")
    ensures Redacted(v, [s]) == MARKER
  {
    HunterKept(s, v, w);
    HunterLower(s);
    LowerSafe(s);
    LongestAlone(v, [s]);
  }

  lemma HunterLower(s: Text)
    requires s == Ascii("hunter2")
    ensures |s| >= MIN_LENGTH && forall i :: 0 <= i < |s| ==> 0x30 <= s[i] <= 0x39 || 0x61 <= s[i] <= 0x7A
  {
  }

  /** A long enough secret of small letters and digits is marker-safe, with all its encodings. */
  lemma LowerSafe(s: Text)
    requires |s| >= MIN_LENGTH
    requires forall i :: 0 <= i < |s| ==> 0x30 <= s[i] <= 0x39 || 0x61 <= s[i] <= 0x7A
    ensures MarkerSafe([s])
  {
    var vs := KeptValues([s]);
    SecretEncodings(s);
    ElementAbsent(s, MARKER, 0);
    ApartFromMarker(s);
    forall i | 0 <= i < |vs| ensures Apart(vs[i], MARKER) {
      assert vs[i] in vs;
    }
  }
}
