/** UTF-16 and UTF-8, as `Buffer.from(s, 'utf8')` and `toString('utf8')` use them (RFC 3629). */
module Utf8 {
  import opened Prelude

  /** A Unicode scalar value: a code point that is not a surrogate. */
  type Scalar = c: int | 0 <= c < 0xD800 || 0xE000 <= c < 0x11_0000

  const REPLACEMENT: Scalar := 0xFFFD

  predicate IsHigh(u: CodeUnit) { 0xD800 <= u < 0xDC00 }
  predicate IsLow(u: CodeUnit) { 0xDC00 <= u < 0xE000 }
  predicate StartsWithPair(s: Text) { |s| >= 2 && IsHigh(s[0]) && IsLow(s[1]) }

  /** The scalar values of a string; a lone surrogate reads as U+FFFD. */
  function ToScalars(s: Text): seq<Scalar> {
    if s == [] then []
    else if StartsWithPair(s) then
      [0x1_0000 + (s[0] - 0xD800) * 0x400 + (s[1] - 0xDC00)] + ToScalars(s[2..])
    else [if IsHigh(s[0]) || IsLow(s[0]) then REPLACEMENT else s[0]] + ToScalars(s[1..])
  }

  function Units(c: Scalar): Text {
    if c < 0x1_0000 then [c]
    else [0xD800 + (c - 0x1_0000) / 0x400, 0xDC00 + (c - 0x1_0000) % 0x400]
  }

  function FromScalars(cs: seq<Scalar>): Text {
    if cs == [] then [] else Units(cs[0]) + FromScalars(cs[1..])
  }

  /** No lone surrogate. */
  predicate WellFormed(s: Text) {
    s == [] ||
    if StartsWithPair(s) then WellFormed(s[2..])
    else !IsHigh(s[0]) && !IsLow(s[0]) && WellFormed(s[1..])
  }

  function EncodeScalar(c: Scalar): (b: Bytes)
    ensures 1 <= |b| <= 4
  {
    if c < 0x80 then [c]
    else if c < 0x800 then [0xC0 + c / 0x40, 0x80 + c % 0x40]
    else if c < 0x1_0000 then [0xE0 + c / 0x40 / 0x40, 0x80 + c / 0x40 % 0x40, 0x80 + c % 0x40]
    else
      [0xF0 + c / 0x40 / 0x40 / 0x40, 0x80 + c / 0x40 / 0x40 % 0x40, 0x80 + c / 0x40 % 0x40, 0x80 + c % 0x40]
  }

  function EncodeAll(cs: seq<Scalar>): Bytes {
    if cs == [] then [] else EncodeScalar(cs[0]) + EncodeAll(cs[1..])
  }

  /** `Buffer.from(s, 'utf8')`. */
  function Encode(s: Text): Bytes {
    EncodeAll(ToScalars(s))
  }

  datatype Decoded = Decoded(scalar: Scalar, used: nat)

  /** The payload of a lead byte or, with `mark` 0x80, of a continuation byte. */
  function Payload(b: Byte, mark: int): int {
    b - mark
  }

  predicate Follows(b: Bytes, i: nat, low: int, high: int) {
    i < |b| && low <= b[i] <= high
  }

  /** One scalar off the front; an ill-formed sequence gives U+FFFD for its maximal valid part. */
  function DecodeFront(b: Bytes): (d: Decoded)
    requires b != []
    ensures 1 <= d.used <= |b|
  {
    var lead := b[0];
    if lead < 0x80 then Decoded(lead, 1)
    else if 0xC2 <= lead <= 0xDF then
      if !Follows(b, 1, 0x80, 0xBF) then Decoded(REPLACEMENT, 1)
      else Decoded(Payload(lead, 0xC0) * 0x40 + Payload(b[1], 0x80), 2)
    else if 0xE0 <= lead <= 0xEF then
      if !Follows(b, 1, if lead == 0xE0 then 0xA0 else 0x80, if lead == 0xED then 0x9F else 0xBF)
      then Decoded(REPLACEMENT, 1)
      else if !Follows(b, 2, 0x80, 0xBF) then Decoded(REPLACEMENT, 2)
      else Decoded(Payload(lead, 0xE0) * 0x1000 + Payload(b[1], 0x80) * 0x40 + Payload(b[2], 0x80), 3)
    else if 0xF0 <= lead <= 0xF4 then
      if !Follows(b, 1, if lead == 0xF0 then 0x90 else 0x80, if lead == 0xF4 then 0x8F else 0xBF)
      then Decoded(REPLACEMENT, 1)
      else if !Follows(b, 2, 0x80, 0xBF) then Decoded(REPLACEMENT, 2)
      else if !Follows(b, 3, 0x80, 0xBF) then Decoded(REPLACEMENT, 3)
      else
        Decoded(Payload(lead, 0xF0) * 0x4_0000 + Payload(b[1], 0x80) * 0x1000
                + Payload(b[2], 0x80) * 0x40 + Payload(b[3], 0x80), 4)
    else Decoded(REPLACEMENT, 1)
  }

  function DecodeAll(b: Bytes): seq<Scalar> {
    if b == [] then []
    else var d := DecodeFront(b); [d.scalar] + DecodeAll(b[d.used..])
  }

  /** `buffer.toString('utf8')`. */
  function Decode(b: Bytes): Text {
    FromScalars(DecodeAll(b))
  }

  lemma DecodesTwo(c: Scalar, b: Bytes)
    requires 0x80 <= c < 0x800 && EncodeScalar(c) <= b
    ensures DecodeFront(b) == Decoded(c, 2)
  {
    var e := EncodeScalar(c);
    assert b[0] == e[0] && b[1] == e[1];
  }

  lemma DecodesThree(c: Scalar, b: Bytes)
    requires 0x800 <= c < 0x1_0000 && EncodeScalar(c) <= b
    ensures DecodeFront(b) == Decoded(c, 3)
  {
    var e := EncodeScalar(c);
    assert b[0] == e[0] && b[1] == e[1] && b[2] == e[2];
    SixBits(c);
  }

  lemma DecodesFour(c: Scalar, b: Bytes)
    requires 0x1_0000 <= c && EncodeScalar(c) <= b
    ensures DecodeFront(b) == Decoded(c, 4)
  {
    var e := EncodeScalar(c);
    assert b[0] == e[0] && b[1] == e[1] && b[2] == e[2] && b[3] == e[3];
    SixBits(c);
  }

  lemma SixBits(c: Scalar)
    ensures c == c / 0x40 * 0x40 + c % 0x40
    ensures c / 0x40 == c / 0x40 / 0x40 * 0x40 + c / 0x40 % 0x40
    ensures c / 0x40 / 0x40 == c / 0x40 / 0x40 / 0x40 * 0x40 + c / 0x40 / 0x40 % 0x40
  {
  }

  lemma DecodesFront(c: Scalar, rest: Bytes)
    ensures DecodeFront(EncodeScalar(c) + rest) == Decoded(c, |EncodeScalar(c)|)
  {
    var b := EncodeScalar(c) + rest;
    if 0x1_0000 <= c { DecodesFour(c, b); }
    else if 0x800 <= c { DecodesThree(c, b); }
    else if 0x80 <= c { DecodesTwo(c, b); }
    else { assert b[0] == c; }
  }

  lemma {:induction false} ScalarsRoundTrip(cs: seq<Scalar>)
    ensures DecodeAll(EncodeAll(cs)) == cs
  {
    if cs != [] {
      var rest := EncodeAll(cs[1..]);
      DecodesFront(cs[0], rest);
      assert (EncodeScalar(cs[0]) + rest)[|EncodeScalar(cs[0])|..] == rest;
      ScalarsRoundTrip(cs[1..]);
    }
  }

  lemma {:induction false} UnitsRoundTrip(cs: seq<Scalar>)
    ensures ToScalars(FromScalars(cs)) == cs
  {
    if cs != [] {
      var s := FromScalars(cs);
      UnitsRoundTrip(cs[1..]);
      assert s[|Units(cs[0])|..] == FromScalars(cs[1..]);
    }
  }

  /** A string is what its scalars spell exactly when it has no lone surrogate. */
  lemma {:induction false} WellFormedIff(s: Text)
    ensures WellFormed(s) <==> FromScalars(ToScalars(s)) == s
  {
    if s != [] {
      var n := if StartsWithPair(s) then 2 else 1;
      WellFormedIff(s[n..]);
      var spelt := FromScalars(ToScalars(s));
      var c := ToScalars(s)[0];
      assert spelt == Units(c) + FromScalars(ToScalars(s[n..]));
      assert s == s[..n] + s[n..];
      if FromScalars(ToScalars(s[n..])) == s[n..] {
      } else if |spelt| == |s| && |Units(c)| == n {
        assert spelt[n..] == FromScalars(ToScalars(s[n..]));
      }
    }
  }

  /** Two strings have the same UTF-8 bytes exactly when they have the same scalars. */
  lemma SameBytesIff(a: Text, b: Text)
    ensures Encode(a) == Encode(b) <==> ToScalars(a) == ToScalars(b)
  {
    ScalarsRoundTrip(ToScalars(a));
    ScalarsRoundTrip(ToScalars(b));
  }

  /** A string has at least as many bytes as code units. */
  lemma {:induction false} BytesAtLeastUnits(s: Text)
    ensures |Encode(s)| >= |s|
  {
    if s != [] {
      var n := if StartsWithPair(s) then 2 else 1;
      BytesAtLeastUnits(s[n..]);
      assert Encode(s) == EncodeScalar(ToScalars(s)[0]) + Encode(s[n..]);
    }
  }

  /** The byte C0 never occurs in UTF-8: it would lead an overlong sequence. */
  lemma {:induction false} NoOverlongLead(cs: seq<Scalar>)
    ensures forall i :: 0 <= i < |EncodeAll(cs)| ==> EncodeAll(cs)[i] != 0xC0
  {
    if cs != [] { NoOverlongLead(cs[1..]); }
  }

  /** Decoding gives the string back, exactly when it has no lone surrogate. */
  lemma RoundTripIff(s: Text)
    ensures Decode(Encode(s)) == s <==> WellFormed(s)
  {
    ScalarsRoundTrip(ToScalars(s));
    WellFormedIff(s);
  }

  // ----- the encoding in numbers

  /** The numbers that the payload bits of two, three or four bytes, or of a surrogate pair, spell. */
  function Two(x: int, y: int): int { (x - 0xC0) * 64 + (y - 0x80) }
  function Three(x: int, y: int, z: int): int { (x - 0xE0) * 64 * 64 + (y - 0x80) * 64 + (z - 0x80) }
  function Four(x: int, y: int, z: int, w: int): int {
    (x - 0xF0) * 64 * 64 * 64 + (y - 0x80) * 64 * 64 + (z - 0x80) * 64 + (w - 0x80)
  }
  function Pair(high: int, low: int): int { (high - 0xD800) * 0x400 + (low - 0xDC00) + 0x1_0000 }

  /** How the front of a string is encoded; a lone surrogate becomes the three bytes of U+FFFD. */
  lemma EncodeFront(s: Text)
    requires s != []
    ensures if |s| >= 2 && 0xD800 <= s[0] < 0xDC00 && 0xDC00 <= s[1] < 0xE000
            then Encode(s) == EncodeScalar(Pair(s[0], s[1])) + Encode(s[2..])
            else Encode(s) == (if 0xD800 <= s[0] < 0xE000 then [0xEF, 0xBF, 0xBD] else EncodeScalar(s[0]))
                              + Encode(s[1..])
  {
  }

  predicate IsTail(b: int) {
    0x80 <= b < 0xC0
  }

  /** The table of section 3 of RFC 3629: the number of bytes by range, and the payload bits in each of them. */
  lemma EncodeScalarIs(c: Scalar)
    ensures var b := EncodeScalar(c);
            && (c < 0x80 ==> b == [c])
            && (0x80 <= c < 0x800 ==> |b| == 2 && 0xC0 <= b[0] < 0xE0 && IsTail(b[1]) && c == Two(b[0], b[1]))
            && (0x800 <= c < 0x1_0000 ==>
                  |b| == 3 && 0xE0 <= b[0] < 0xF0 && IsTail(b[1]) && IsTail(b[2]) && c == Three(b[0], b[1], b[2]))
            && (0x1_0000 <= c ==>
                  |b| == 4 && 0xF0 <= b[0] < 0xF5 && IsTail(b[1]) && IsTail(b[2]) && IsTail(b[3])
                  && c == Four(b[0], b[1], b[2], b[3]))
  {
    SixBits(c);
  }

  /** Decoding spells a scalar with one code unit, or with a surrogate pair. */
  lemma UnitsAre(c: Scalar)
    ensures c < 0x1_0000 ==> Units(c) == [c]
    ensures c >= 0x1_0000 ==>
              var u := Units(c);
              |u| == 2 && 0xD800 <= u[0] < 0xDC00 && 0xDC00 <= u[1] < 0xE000 && c == Pair(u[0], u[1])
  {
  }

  // ----- what is ill-formed

  /** Which second bytes can follow which first ones: no overlong form, no surrogate, nothing above U+10FFFF. */
  lemma SecondByte(c: Scalar)
    ensures var b := EncodeScalar(c);
            && (|b| >= 2 ==> 0xC2 <= b[0] <= 0xF4 && IsTail(b[1]))
            && (|b| == 2 ==> b[0] <= 0xDF)
            && (|b| == 3 ==> 0xE0 <= b[0] <= 0xEF && IsTail(b[2])
                             && (b[0] == 0xE0 ==> b[1] >= 0xA0) && (b[0] == 0xED ==> b[1] <= 0x9F))
            && (|b| == 4 ==> 0xF0 <= b[0] && IsTail(b[2]) && IsTail(b[3])
                             && (b[0] == 0xF0 ==> b[1] >= 0x90) && (b[0] == 0xF4 ==> b[1] <= 0x8F))
  {
    EncodeScalarIs(c);
  }

  /** Some scalar's encoding begins with these bytes. */
  ghost predicate Begins(b: Bytes) {
    exists c: Scalar :: b <= EncodeScalar(c)
  }

  /** The bytes are the encoding of a scalar. */
  ghost predicate Encodes(b: Bytes) {
    exists c: Scalar :: b == EncodeScalar(c)
  }

  lemma OfTwo(x: Byte, y: Byte)
    requires 0xC2 <= x <= 0xDF && IsTail(y)
    ensures Encodes([x, y])
  {
    var c: Scalar := Two(x, y);
    assert EncodeScalar(c) == [x, y];
  }

  lemma OfThree(x: Byte, y: Byte, z: Byte)
    requires 0xE0 <= x <= 0xEF && IsTail(y) && IsTail(z)
    requires (x == 0xE0 ==> y >= 0xA0) && (x == 0xED ==> y <= 0x9F)
    ensures Encodes([x, y, z])
  {
    var c: Scalar := Three(x, y, z);
    var a: int, b: int, d: int := x, y, z;
    assert c / 0x40 == (a - 0xE0) * 0x40 + (b - 0x80) && c % 0x40 == d - 0x80;
    assert EncodeScalar(c) == [x, y, z];
  }

  lemma OfFour(x: Byte, y: Byte, z: Byte, w: Byte)
    requires 0xF0 <= x <= 0xF4 && IsTail(y) && IsTail(z) && IsTail(w)
    requires (x == 0xF0 ==> y >= 0x90) && (x == 0xF4 ==> y <= 0x8F)
    ensures Encodes([x, y, z, w])
  {
    var c: Scalar := Four(x, y, z, w);
    var a: int, b: int, d: int, e: int := x, y, z, w;
    assert c / 0x40 == (a - 0xF0) * 0x1000 + (b - 0x80) * 0x40 + (d - 0x80) && c % 0x40 == e - 0x80;
    assert c / 0x40 / 0x40 == (a - 0xF0) * 0x40 + (b - 0x80) && c / 0x40 % 0x40 == d - 0x80;
    assert EncodeScalar(c) == [x, y, z, w];
  }

  lemma FrontBegins(b: Bytes, whole: Bytes)
    requires b <= whole && Encodes(whole)
    ensures Begins(b)
  {
  }

  /** A front of more than one byte is that of some encoding, whether it decodes or not. */
  lemma SubpartBegins(b: Bytes)
    requires b != [] && DecodeFront(b).used > 1
    ensures Begins(b[..DecodeFront(b).used])
  {
    var n := DecodeFront(b).used;
    if b[0] <= 0xDF {
      OfTwo(b[0], b[1]);
      FrontBegins(b[..n], [b[0], b[1]]);
    } else if b[0] <= 0xEF {
      OfThree(b[0], b[1], if n == 2 then 0x80 else b[2]);
      FrontBegins(b[..n], [b[0], b[1], if n == 2 then 0x80 else b[2]]);
    } else {
      var z, w := if n == 2 then 0x80 else b[2], if n <= 3 then 0x80 else b[3];
      OfFour(b[0], b[1], z, w);
      FrontBegins(b[..n], [b[0], b[1], z, w]);
    }
  }

  lemma SuccessOne(b: Bytes)
    requires b != [] && b[0] < 0x80
    ensures exists c: Scalar :: EncodeScalar(c) <= b
  {
    assert EncodeScalar(b[0]) <= b;
  }

  lemma FrontEncodes(b: Bytes, front: Bytes)
    requires front <= b && Encodes(front)
    ensures exists c: Scalar :: EncodeScalar(c) <= b
  {
  }

  /** What does not read as U+FFFD begins with an encoding. */
  lemma SuccessEncodes(b: Bytes)
    requires b != []
    ensures DecodeFront(b).scalar != 0xFFFD ==> exists c: Scalar :: EncodeScalar(c) <= b
  {
    var n := DecodeFront(b).used;
    if b[0] < 0x80 {
      SuccessOne(b);
    } else if DecodeFront(b).scalar != 0xFFFD {
      if n == 2 {
        OfTwo(b[0], b[1]);
        FrontEncodes(b, [b[0], b[1]]);
      } else if n == 3 {
        OfThree(b[0], b[1], b[2]);
        FrontEncodes(b, [b[0], b[1], b[2]]);
      } else {
        OfFour(b[0], b[1], b[2], b[3]);
        FrontEncodes(b, [b[0], b[1], b[2], b[3]]);
      }
    }
  }

  lemma SubpartIsMaximal(b: Bytes)
    requires b != [] && (forall c: Scalar :: !(EncodeScalar(c) <= b)) && DecodeFront(b).used < |b|
    ensures !Begins(b[..DecodeFront(b).used + 1])
  {
    var more := b[..DecodeFront(b).used + 1];
    SuccessEncodes(b);
    forall c: Scalar ensures !(more <= EncodeScalar(c)) {
      SecondByte(c);
    }
  }

  /**
   Decoding takes a scalar's encoding off the front if there is one. Otherwise it reads U+FFFD for as
   many bytes as could still begin an encoding, and for at least one.
   */
  lemma DecodeFrontIs(b: Bytes)
    requires b != []
    ensures var d := DecodeFront(b);
            || (exists c: Scalar :: EncodeScalar(c) <= b && d == Decoded(c, |EncodeScalar(c)|))
            || (&& (forall c: Scalar :: !(EncodeScalar(c) <= b)) && d.scalar == 0xFFFD
                && (d.used == 1 || Begins(b[..d.used]))
                && (d.used == |b| || !Begins(b[..d.used + 1])))
  {
    if c: Scalar :| EncodeScalar(c) <= b {
      DecodesFront(c, b[|EncodeScalar(c)|..]);
      assert b == EncodeScalar(c) + b[|EncodeScalar(c)|..];
    } else {
      SuccessEncodes(b);
      if DecodeFront(b).used > 1 { SubpartBegins(b); }
      if DecodeFront(b).used < |b| { SubpartIsMaximal(b); }
    }
  }

  /** A byte string is read front by front; each scalar is spelt in code units. */
  lemma DecodeStep(b: Bytes)
    ensures Decode([]) == []
    ensures b != [] ==> var d := DecodeFront(b); Decode(b) == Units(d.scalar) + Decode(b[d.used..])
  {
    if b != [] {
      var d := DecodeFront(b);
      assert DecodeAll(b)[1..] == DecodeAll(b[d.used..]);
    }
  }
}
