/** Hexadecimal text, and percent encoding as in section 19.2.6 of ECMA-262. */
module Hex {
  import opened Prelude
  import Scan
  import Utf8

  function Digit(c: CodeUnit): Option<int> {
    if 0x30 <= c <= 0x39 then Some(c - 0x30)
    else if 0x41 <= c <= 0x46 then Some(c - 0x41 + 10)
    else if 0x61 <= c <= 0x66 then Some(c - 0x61 + 10)
    else None
  }

  predicate AllDigits(t: Text) {
    forall i :: 0 <= i < |t| ==> Digit(t[i]).Some?
  }

  /** `Buffer.from(t, 'hex')`: decoding stops at the first pair that is not two digits. */
  function Decode(t: Text): Bytes {
    if |t| < 2 || Digit(t[0]).None? || Digit(t[1]).None? then []
    else [Digit(t[0]).value * 16 + Digit(t[1]).value] + Decode(t[2..])
  }

  function DigitChar(d: int, upper: bool): CodeUnit
    requires 0 <= d < 16
  {
    if d < 10 then 0x30 + d else (if upper then 0x41 else 0x61) + d - 10
  }

  /** `buffer.toString('hex')`, lower case. */
  function Encode(b: Bytes): Text {
    if b == [] then []
    else [DigitChar(b[0] / 16, false), DigitChar(b[0] % 16, false)] + Encode(b[1..])
  }

  lemma {:induction false} RoundTrip(b: Bytes)
    ensures Decode(Encode(b)) == b
    ensures |Encode(b)| == 2 * |b| && AllDigits(Encode(b))
  {
    if b != [] {
      RoundTrip(b[1..]);
      assert Encode(b)[2..] == Encode(b[1..]);
    }
  }

  lemma {:induction false} DecodeLength(t: Text)
    requires AllDigits(t)
    ensures |Decode(t)| == |t| / 2
  {
    if |t| >= 2 { DecodeLength(t[2..]); }
  }

  // ----- percent encoding

  const PERCENT: CodeUnit := 0x25

  /** Letters, digits and - _ . ! ~ * ' ( ) stand for themselves. */
  predicate IsUnreserved(c: int) {
    0x30 <= c <= 0x39 || 0x41 <= c <= 0x5A || 0x61 <= c <= 0x7A
    || c in {0x21, 0x27, 0x28, 0x29, 0x2A, 0x2D, 0x2E, 0x5F, 0x7E}
  }

  function Octet(x: Byte): Text {
    [PERCENT, DigitChar(x / 16, true), DigitChar(x % 16, true)]
  }

  function Octets(b: Bytes): Text {
    if b == [] then [] else Octet(b[0]) + Octets(b[1..])
  }

  function Percent(cs: seq<Utf8.Scalar>): Text {
    if cs == [] then []
    else (if IsUnreserved(cs[0]) then [cs[0]] else Octets(Utf8.EncodeScalar(cs[0]))) + Percent(cs[1..])
  }

  /** `encodeURIComponent(s)`; None stands for the URIError that a lone surrogate raises. */
  function EncodeUriComponent(s: Text): Option<Text> {
    if Utf8.WellFormed(s) then Some(Percent(Utf8.ToScalars(s))) else None
  }

  /** The octets that a percent-encoded text stands for. */
  function Unescape(t: Text): Bytes {
    if t == [] then []
    else if t[0] == PERCENT && |t| >= 3 && Digit(t[1]).Some? && Digit(t[2]).Some? then
      [Digit(t[1]).value * 16 + Digit(t[2]).value] + Unescape(t[3..])
    else [t[0] % 0x100] + Unescape(t[1..])
  }

  lemma DigitRoundTrip(d: int, upper: bool)
    requires 0 <= d < 16
    ensures Digit(DigitChar(d, upper)) == Some(d)
  {
  }

  lemma UnescapeOctet(x: Byte, rest: Text)
    ensures Unescape(Octet(x) + rest) == [x] + Unescape(rest)
  {
    DigitRoundTrip(x / 16, true);
    DigitRoundTrip(x % 16, true);
    assert (Octet(x) + rest)[3..] == rest;
  }

  lemma {:induction false} UnescapeOctets(b: Bytes, rest: Text)
    ensures Unescape(Octets(b) + rest) == b + Unescape(rest)
  {
    if b == [] {
      assert Octets(b) + rest == rest;
    } else {
      UnescapeOctets(b[1..], rest);
      UnescapeOctet(b[0], Octets(b[1..]) + rest);
      Scan.Associative(Octet(b[0]), Octets(b[1..]), rest);
      Scan.Associative([b[0]], b[1..], Unescape(rest));
      assert b == [b[0]] + b[1..];
    }
  }

  /** Percent encoding loses nothing: it stands for the UTF-8 octets of the string. */
  lemma {:induction false} PercentRoundTrip(cs: seq<Utf8.Scalar>)
    ensures Unescape(Percent(cs)) == Utf8.EncodeAll(cs)
  {
    if cs != [] {
      var rest := Percent(cs[1..]);
      PercentRoundTrip(cs[1..]);
      if IsUnreserved(cs[0]) {
        assert ([cs[0]] + rest)[1..] == rest;
      } else {
        UnescapeOctets(Utf8.EncodeScalar(cs[0]), rest);
      }
    }
  }

  lemma {:induction false} OctetsShape(b: Bytes)
    ensures |Octets(b)| == 3 * |b|
    ensures forall c :: c in Octets(b) ==> c == PERCENT || 0x30 <= c <= 0x39 || 0x41 <= c <= 0x46
  {
    if b != [] { OctetsShape(b[1..]); }
  }

  /** Exactly the texts of unreserved characters are left as they are. */
  lemma {:induction false} PercentKeepsIff(cs: seq<Utf8.Scalar>)
    ensures |Percent(cs)| >= |cs|
    ensures |Percent(cs)| == |cs| <==> forall i :: 0 <= i < |cs| ==> IsUnreserved(cs[i])
    ensures |Percent(cs)| == |cs| ==> forall i :: 0 <= i < |cs| ==> Percent(cs)[i] == cs[i]
  {
    if cs != [] {
      PercentKeepsIff(cs[1..]);
      OctetsShape(Utf8.EncodeScalar(cs[0]));
      assert cs == [cs[0]] + cs[1..];
    }
  }

  /** Whatever is not left as it is becomes longer. */
  lemma {:induction false} PercentGrows(s: Text)
    requires Utf8.WellFormed(s)
    ensures var p := Percent(Utf8.ToScalars(s)); p == s || |p| > |s|
  {
    if s != [] {
      var n := if Utf8.StartsWithPair(s) then 2 else 1;
      PercentGrows(s[n..]);
      OctetsShape(Utf8.EncodeScalar(Utf8.ToScalars(s)[0]));
      assert s == s[..n] + s[n..];
    }
  }

  /** Whatever is not left as it is shows a percent sign. */
  lemma {:induction false} PercentAppears(s: Text)
    requires Utf8.WellFormed(s)
    ensures var p := Percent(Utf8.ToScalars(s)); p == s || PERCENT in p
  {
    if s != [] {
      var n, c := if Utf8.StartsWithPair(s) then 2 else 1, Utf8.ToScalars(s)[0];
      PercentAppears(s[n..]);
      assert !IsUnreserved(c) ==> Octets(Utf8.EncodeScalar(c))[0] == PERCENT;
      assert s == s[..n] + s[n..];
    }
  }

  /** A text of unreserved characters is left as it is. */
  lemma {:induction false} UnreservedKept(s: Text)
    requires forall i :: 0 <= i < |s| ==> IsUnreserved(s[i])
    ensures EncodeUriComponent(s) == Some(s)
  {
    if s != [] {
      UnreservedKept(s[1..]);
      assert s == [s[0]] + s[1..];
    }
  }

  /** Any other ASCII character in front becomes a percent sign. */
  lemma PercentStarts(s: Text)
    requires s != [] && s[0] < 0x80 && !IsUnreserved(s[0])
    ensures EncodeUriComponent(s).Some? ==>
              EncodeUriComponent(s).value != [] && EncodeUriComponent(s).value[0] == PERCENT
  {
    assert Utf8.ToScalars(s)[0] == s[0];
  }

  lemma {:induction false} PercentShape(cs: seq<Utf8.Scalar>)
    ensures forall c :: c in Percent(cs) ==> c == PERCENT || IsUnreserved(c)
  {
    if cs != [] {
      OctetsShape(Utf8.EncodeScalar(cs[0]));
      PercentShape(cs[1..]);
    }
  }

  // ----- the two in literals

  /** Both cases of the digits are read, and nothing else. */
  lemma DigitIs(c: CodeUnit, d: int)
    requires 0 <= d < 16
    ensures Digit(c) == Some(d) <==> c == "0123456789abcdef"[d] as int || c == "0123456789ABCDEF"[d] as int
    ensures DigitChar(d, false) == "0123456789abcdef"[d] as int && DigitChar(d, true) == "0123456789ABCDEF"[d] as int
  {
  }

  /** Byte i is read off digits 2 * i and 2 * i + 1. */
  lemma {:induction false} DecodeAt(t: Text, i: nat)
    requires AllDigits(t) && i < |t| / 2
    ensures |Decode(t)| == |t| / 2
    ensures Decode(t)[i] == Digit(t[2 * i]).value * 16 + Digit(t[2 * i + 1]).value
  {
    DecodeLength(t);
    if i > 0 { DecodeAt(t[2..], i - 1); }
  }

  /** Letters, digits and the nine marks of section 19.2.6.5 of ECMA-262 stand for themselves. */
  lemma UnreservedIs(c: CodeUnit)
    ensures IsUnreserved(c) <==>
            || 'A' as int <= c <= 'Z' as int || 'a' as int <= c <= 'z' as int || '0' as int <= c <= '9' as int
            || exists i :: 0 <= i < |"-_.!~*'()"| && c == "-_.!~*'()"[i] as int
  {
    var marks := "-_.!~*'()";
    assert marks[0] == '-' && marks[1] == '_' && marks[2] == '.' && marks[3] == '!' && marks[4] == '~';
    assert marks[5] == '*' && marks[6] == '\'' && marks[7] == '(' && marks[8] == ')';
  }

  /** Every byte becomes a percent sign and two upper-case digits. */
  function PercentOctets(b: Bytes): Text {
    seq(3 * |b|, i requires 0 <= i < 3 * |b| =>
      if i % 3 == 0 then '%' as int
      else "0123456789ABCDEF"[if i % 3 == 1 then b[i / 3] / 16 else b[i / 3] % 16] as int)
  }

  lemma {:induction false} OctetsAt(b: Bytes, i: nat)
    requires i < |b|
    ensures |Octets(b)| == 3 * |b|
    ensures Octets(b)[3 * i] == '%' as int
    ensures Octets(b)[3 * i + 1] == DigitChar(b[i] / 16, true) && Octets(b)[3 * i + 2] == DigitChar(b[i] % 16, true)
  {
    OctetsShape(b);
    if i > 0 { OctetsAt(b[1..], i - 1); }
  }

  lemma PercentOctetAt(b: Bytes, i: nat)
    requires i < |b|
    ensures PercentOctets(b)[3 * i] == '%' as int
    ensures PercentOctets(b)[3 * i + 1] == "0123456789ABCDEF"[b[i] / 16] as int
    ensures PercentOctets(b)[3 * i + 2] == "0123456789ABCDEF"[b[i] % 16] as int
  {
    assert 3 * i % 3 == 0 && (3 * i + 1) / 3 == i && (3 * i + 1) % 3 == 1;
    assert (3 * i + 2) / 3 == i && (3 * i + 2) % 3 == 2;
  }

  lemma SameOctet(b: Bytes, i: nat, j: nat)
    requires i < |b| && 3 * i <= j < 3 * i + 3
    ensures |Octets(b)| == 3 * |b| && Octets(b)[j] == PercentOctets(b)[j]
  {
    OctetsAt(b, i);
    PercentOctetAt(b, i);
    if j == 3 * i + 1 { DigitIs(0, b[i] / 16); }
    if j == 3 * i + 2 { DigitIs(0, b[i] % 16); }
  }

  lemma OctetsAre(b: Bytes)
    ensures Octets(b) == PercentOctets(b)
  {
    OctetsShape(b);
    forall j | 0 <= j < 3 * |b| ensures Octets(b)[j] == PercentOctets(b)[j] {
      SameOctet(b, j / 3, j);
    }
  }

  /**
   How the front of a string is percent encoded: a lone surrogate is an error, unreserved characters
   stay, and of everything else each UTF-8 byte becomes a percent sign and two digits.
   */
  lemma EncodeUriFront(s: Text)
    requires s != []
    ensures var pair := |s| >= 2 && 0xD800 <= s[0] < 0xDC00 && 0xDC00 <= s[1] < 0xE000;
            var rest := EncodeUriComponent(s[if pair then 2 else 1..]);
            EncodeUriComponent(s) ==
              if (!pair && 0xD800 <= s[0] < 0xE000) || rest.None? then None
              else if !pair && IsUnreserved(s[0]) then Some([s[0]] + rest.value)
              else Some(PercentOctets(Utf8.EncodeScalar(if pair then Utf8.Pair(s[0], s[1]) else s[0])) + rest.value)
  {
    OctetsAre(Utf8.EncodeScalar(Utf8.ToScalars(s)[0]));
  }

  lemma EncodeUriEmpty()
    ensures EncodeUriComponent([]) == Some([])
  {
  }
}
