/** Base64 and base64url (RFC 4648, sections 4 and 5), with the lenient decoder of `Buffer.from`. */
module Base64 {
  import opened Prelude

  type Sextet = s: int | 0 <= s < 64

  const PAD: CodeUnit := 0x3D

  function Char(s: Sextet, url: bool): CodeUnit {
    if s < 26 then 0x41 + s
    else if s < 52 then 0x61 + (s - 26)
    else if s < 62 then 0x30 + (s - 52)
    else if s == 62 then (if url then 0x2D else 0x2B)
    else if url then 0x5F else 0x2F
  }

  /** Either alphabet is read. */
  function Value(c: CodeUnit): Option<Sextet> {
    if 0x41 <= c <= 0x5A then Some(c - 0x41)
    else if 0x61 <= c <= 0x7A then Some(c - 0x61 + 26)
    else if 0x30 <= c <= 0x39 then Some(c - 0x30 + 52)
    else if c == 0x2B || c == 0x2D then Some(62)
    else if c == 0x2F || c == 0x5F then Some(63)
    else None
  }

  function Group(x: Byte, y: Byte, z: Byte): seq<Sextet> {
    [x / 4, x % 4 * 16 + y / 16, y % 16 * 4 + z / 64, z % 64]
  }

  function Pack(b: Bytes): seq<Sextet> {
    if |b| == 0 then []
    else if |b| == 1 then [b[0] / 4, b[0] % 4 * 16]
    else if |b| == 2 then [b[0] / 4, b[0] % 4 * 16 + b[1] / 16, b[1] % 16 * 4]
    else Group(b[0], b[1], b[2]) + Pack(b[3..])
  }

  function First(s: int, t: int): int { s * 4 + t / 16 }
  function Second(t: int, u: int): int { t % 16 * 16 + u / 4 }
  function Third(u: int, v: int): int { u % 4 * 64 + v }

  /** Left-over bits, and a single left-over sextet, are dropped. */
  function Unpack(s: seq<Sextet>): Bytes {
    if |s| < 2 then []
    else if |s| == 2 then [First(s[0], s[1])]
    else if |s| == 3 then [First(s[0], s[1]), Second(s[1], s[2])]
    else [First(s[0], s[1]), Second(s[1], s[2]), Third(s[2], s[3])] + Unpack(s[4..])
  }

  function Chars(s: seq<Sextet>, url: bool): Text {
    if s == [] then [] else [Char(s[0], url)] + Chars(s[1..], url)
  }

  function Padding(n: nat): Text {
    if n % 3 == 0 then [] else if n % 3 == 1 then [PAD, PAD] else [PAD]
  }

  /** `buffer.toString('base64')`, and with `url` `buffer.toString('base64url')`, which does not pad. */
  function Encode(b: Bytes, url: bool): Text {
    Chars(Pack(b), url) + if url then [] else Padding(|b|)
  }

  /** The sextets up to the first padding character; characters of neither alphabet are skipped. */
  function Sextets(t: Text): seq<Sextet> {
    if t == [] || t[0] == PAD then []
    else (match Value(t[0]) case Some(s) => [s] case None => []) + Sextets(t[1..])
  }

  /** `Buffer.from(t, 'base64')`. */
  function Decode(t: Text): Bytes {
    Unpack(Sextets(t))
  }

  lemma TripleRoundTrip(x: Byte, y: Byte, z: Byte)
    ensures First(x / 4, x % 4 * 16 + y / 16) == x
    ensures Second(x % 4 * 16 + y / 16, y % 16 * 4 + z / 64) == y
    ensures Third(y % 16 * 4 + z / 64, z % 64) == z
  {
  }

  lemma UnpackGroup(x: Byte, y: Byte, z: Byte, rest: seq<Sextet>)
    ensures Unpack(Group(x, y, z) + rest) == [x, y, z] + Unpack(rest)
  {
    TripleRoundTrip(x, y, z);
    UnpackFour(Group(x, y, z), rest);
  }

  lemma UnpackFour(g: seq<Sextet>, rest: seq<Sextet>)
    requires |g| == 4
    ensures Unpack(g + rest) == [First(g[0], g[1]), Second(g[1], g[2]), Third(g[2], g[3])] + Unpack(rest)
  {
    assert (g + rest)[4..] == rest;
  }

  lemma {:induction false} PackRoundTrip(b: Bytes)
    ensures Unpack(Pack(b)) == b
  {
    if |b| >= 3 {
      PackRoundTrip(b[3..]);
      UnpackGroup(b[0], b[1], b[2], Pack(b[3..]));
      assert b == [b[0], b[1], b[2]] + b[3..];
    } else if b != [] {
      TripleRoundTrip(b[0], if |b| > 1 then b[1] else 0, 0);
    }
  }

  lemma CharRoundTrip(s: Sextet, url: bool)
    ensures Value(Char(s, url)) == Some(s) && Char(s, url) != PAD
  {
  }

  lemma SextetsCons(c: CodeUnit, t: Text)
    requires c != PAD && Value(c).Some?
    ensures Sextets([c] + t) == [Value(c).value] + Sextets(t)
  {
    assert ([c] + t)[1..] == t;
  }

  lemma {:induction false} CharsRoundTrip(s: seq<Sextet>, url: bool, pad: Text)
    requires forall i :: 0 <= i < |pad| ==> pad[i] == PAD
    ensures Sextets(Chars(s, url) + pad) == s
  {
    if s != [] {
      CharRoundTrip(s[0], url);
      CharsRoundTrip(s[1..], url, pad);
      SextetsCons(Char(s[0], url), Chars(s[1..], url) + pad);
      assert Chars(s, url) + pad == [Char(s[0], url)] + (Chars(s[1..], url) + pad);
      assert s == [s[0]] + s[1..];
    }
  }

  lemma RoundTrip(b: Bytes, url: bool)
    ensures Decode(Encode(b, url)) == b
  {
    PackRoundTrip(b);
    CharsRoundTrip(Pack(b), url, if url then [] else Padding(|b|));
  }

  lemma {:induction false} CharsAre(s: seq<Sextet>, url: bool)
    ensures |Chars(s, url)| == |s|
    ensures forall c :: c in Chars(s, url) ==> InAlphabet(c, url)
  {
    if s != [] { CharsAre(s[1..], url); }
  }

  lemma {:induction false} PackLength(b: Bytes)
    ensures |Pack(b)| == |b| / 3 * 4 + (if |b| % 3 == 0 then 0 else |b| % 3 + 1)
  {
    if |b| >= 3 { PackLength(b[3..]); }
  }

  predicate InAlphabet(c: CodeUnit, url: bool) {
    || 0x41 <= c <= 0x5A || 0x61 <= c <= 0x7A || 0x30 <= c <= 0x39
    || c in (if url then {0x2D, 0x5F} else {0x2B, 0x2F})
  }

  /** Each encoding keeps to its own alphabet, and only the first one is padded, to a multiple of four. */
  lemma EncodeShape(b: Bytes, url: bool)
    ensures forall c :: c in Encode(b, url) ==> InAlphabet(c, url) || (!url && c == PAD)
    ensures |Encode(b, false)| == (|b| + 2) / 3 * 4
    ensures |Encode(b, true)| == (|b| * 4 + 2) / 3
  {
    CharsAre(Pack(b), url);
    CharsAre(Pack(b), true);
    CharsAre(Pack(b), false);
    PackLength(b);
  }

  /** The first character holds the upper six bits of the first byte. */
  lemma EncodeStarts(b: Bytes, url: bool)
    requires b != []
    ensures Encode(b, url) != [] && Encode(b, url)[0] == Char(b[0] / 4, url)
  {
  }

  /** The third byte is read off the third and fourth characters. */
  lemma ThirdByte(t: Text)
    requires |t| >= 4 && forall i :: 0 <= i < 4 ==> t[i] != PAD && Value(t[i]).Some?
    ensures |Decode(t)| >= 3 && Decode(t)[2] == Third(Value(t[2]).value, Value(t[3]).value)
  {
    var rest := Sextets(t[4..]);
    assert t[1..][1..] == t[2..] && t[2..][1..] == t[3..] && t[3..][1..] == t[4..];
    assert Sextets(t[3..]) == [Value(t[3]).value] + rest;
    assert Sextets(t[2..]) == [Value(t[2]).value] + Sextets(t[3..]);
    assert Sextets(t[1..]) == [Value(t[1]).value] + Sextets(t[2..]);
  }

  // ----- what the encodings are, character by character

  /** The alphabets of RFC 4648, tables 1 and 2, in rows of eight. */
  function Row(r: int, url: bool): (row: string)
    ensures |row| == 8
  {
    match r
    case 0 => "ABCDEFGH" case 1 => "IJKLMNOP" case 2 => "QRSTUVWX" case 3 => "YZabcdef"
    case 4 => "ghijklmn" case 5 => "opqrstuv" case 6 => "wxyz0123"
    case _ => if url then "456789-_" else "456789+/"
  }

  function ByteAt(b: Bytes, i: nat): Byte {
    if i < |b| then b[i] else 0
  }

  function Wide(x: int, y: int): int { x * 0x100 + y }

  /** The six bits from bit 6 * i on, with zeros after the last byte: cut out of two neighbouring bytes. */
  function BitsAt(b: Bytes, i: nat): int {
    var two := Wide(ByteAt(b, i / 4 * 3 + i % 4 * 6 / 8), ByteAt(b, i / 4 * 3 + i % 4 * 6 / 8 + 1));
    match i % 4
    case 0 => two / 1024 % 64
    case 1 => two / 16 % 64
    case 2 => two / 64 % 64
    case _ => two / 256 % 64
  }

  lemma AlphabetIs(v: Sextet, url: bool)
    ensures Char(v, url) == Row(v / 8, url)[v % 8] as int
  {
    match v / 8
    case 0 => assert Row(0, url) == "ABCDEFGH";
    case 1 => assert Row(1, url) == "IJKLMNOP";
    case 2 => assert Row(2, url) == "QRSTUVWX";
    case 3 => assert Row(3, url) == "YZabcdef";
    case 4 => assert Row(4, url) == "ghijklmn";
    case 5 => assert Row(5, url) == "opqrstuv";
    case 6 => assert Row(6, url) == "wxyz0123";
    case _ => assert Row(7, url) == if url then "456789-_" else "456789+/";
  }

  lemma BitsShift(b: Bytes, i: nat)
    requires |b| >= 3 && i >= 4
    ensures BitsAt(b, i) == BitsAt(b[3..], i - 4)
  {
    var j, j' := i / 4 * 3 + i % 4 * 6 / 8, (i - 4) / 4 * 3 + (i - 4) % 4 * 6 / 8;
    assert i % 4 == (i - 4) % 4 && j == j' + 3;
    assert ByteAt(b, j) == ByteAt(b[3..], j') && ByteAt(b, j + 1) == ByteAt(b[3..], j' + 1);
  }

  lemma Split(x: int, m: int, q: int, r: int)
    requires m in {16, 64, 256, 1024} && 0 <= r < m && x == q * m + r
    ensures x / m == q && x % m == r
  {
  }

  lemma FirstWindow(x: int, y: int)
    requires 0 <= x < 256 && 0 <= y < 256
    ensures (x * 0x100 + y) / 1024 % 64 == x / 4
  {
    Split(x * 0x100 + y, 1024, x / 4, x % 4 * 256 + y);
  }

  lemma SecondWindow(x: int, y: int)
    requires 0 <= x < 256 && 0 <= y < 256
    ensures (x * 0x100 + y) / 16 % 64 == x % 4 * 16 + y / 16
  {
    Split(x * 0x100 + y, 16, x * 16 + y / 16, y % 16);
    Split(x * 16 + y / 16, 64, x / 4, x % 4 * 16 + y / 16);
  }

  lemma ThirdWindow(y: int, z: int)
    requires 0 <= y < 256 && 0 <= z < 256
    ensures (y * 0x100 + z) / 64 % 64 == y % 16 * 4 + z / 64
  {
    Split(y * 0x100 + z, 64, y * 4 + z / 64, z % 64);
    Split(y * 4 + z / 64, 64, y / 16, y % 16 * 4 + z / 64);
  }

  lemma LastWindow(z: int, w: int)
    requires 0 <= z < 256 && 0 <= w < 256
    ensures (z * 0x100 + w) / 256 % 64 == z % 64
  {
    Split(z * 0x100 + w, 256, z, w);
  }

  lemma FrontBits(b: Bytes, i: nat)
    requires i < 4
    ensures BitsAt(b, i) == match i
      case 0 => Wide(ByteAt(b, 0), ByteAt(b, 1)) / 1024 % 64
      case 1 => Wide(ByteAt(b, 0), ByteAt(b, 1)) / 16 % 64
      case 2 => Wide(ByteAt(b, 1), ByteAt(b, 2)) / 64 % 64
      case _ => Wide(ByteAt(b, 2), ByteAt(b, 3)) / 256 % 64
  {
  }

  lemma PackFront(b: Bytes, i: nat)
    requires i < |Pack(b)| && i < 4
    ensures Pack(b)[i] == BitsAt(b, i)
  {
    FrontBits(b, i);
    PackFour(b, i);
    match i
    case 0 => FirstWindow(ByteAt(b, 0), ByteAt(b, 1));
    case 1 => SecondWindow(ByteAt(b, 0), ByteAt(b, 1));
    case 2 => ThirdWindow(ByteAt(b, 1), ByteAt(b, 2));
    case _ => LastWindow(ByteAt(b, 2), ByteAt(b, 3));
  }

  lemma PackFour(b: Bytes, i: nat)
    requires i < |Pack(b)| && i < 4
    ensures Pack(b)[i] == match i
      case 0 => ByteAt(b, 0) / 4
      case 1 => ByteAt(b, 0) % 4 * 16 + ByteAt(b, 1) / 16
      case 2 => ByteAt(b, 1) % 16 * 4 + ByteAt(b, 2) / 64
      case _ => ByteAt(b, 2) % 64
  {
  }

  lemma {:induction false} PackAt(b: Bytes, i: nat)
    requires i < |Pack(b)|
    ensures Pack(b)[i] == BitsAt(b, i)
  {
    if i >= 4 {
      PackAt(b[3..], i - 4);
      BitsShift(b, i);
    } else {
      PackFront(b, i);
    }
  }

  lemma {:induction false} CharsAt(s: seq<Sextet>, url: bool, i: nat)
    requires i < |s|
    ensures |Chars(s, url)| == |s| && Chars(s, url)[i] == Char(s[i], url)
  {
    CharsAre(s, url);
    if i > 0 { CharsAt(s[1..], url, i - 1); }
  }

  /**
   Character i stands for the six bits from bit 6 * i on, bits after the last byte being zero; behind
   the last character that holds a bit, and only there, the standard form is padded.
   */
  lemma EncodeAt(b: Bytes, url: bool, i: nat)
    requires i < |Encode(b, url)|
    ensures var v := BitsAt(b, i);
            && 0 <= v < 64
            && Encode(b, url)[i] == if i < (|b| * 4 + 2) / 3 then Row(v / 8, url)[v % 8] as int else '=' as int
  {
    PackLength(b);
    CharsAre(Pack(b), url);
    if i < |Pack(b)| {
      CharsAt(Pack(b), url, i);
      PackAt(b, i);
      AlphabetIs(Pack(b)[i], url);
    }
  }

  lemma BitsOfGroup(b: Bytes, q: nat)
    ensures BitsAt(b, 4 * q + 1) == Wide(ByteAt(b, 3 * q), ByteAt(b, 3 * q + 1)) / 16 % 64
    ensures BitsAt(b, 4 * q + 2) == Wide(ByteAt(b, 3 * q + 1), ByteAt(b, 3 * q + 2)) / 64 % 64
  {
    assert (4 * q + 1) / 4 == q && (4 * q + 1) % 4 == 1 && (4 * q + 2) / 4 == q && (4 * q + 2) % 4 == 2;
  }

  lemma {:induction false} CharsConcat(s: seq<Sextet>, t: seq<Sextet>, url: bool)
    ensures Chars(s + t, url) == Chars(s, url) + Chars(t, url)
  {
    if s == [] {
      assert s + t == t;
    } else {
      assert (s + t)[1..] == s[1..] + t;
      CharsConcat(s[1..], t, url);
    }
  }

  /** Three bytes become four characters on their own. */
  lemma EncodeThree(x: Byte, y: Byte, z: Byte, rest: Bytes, url: bool)
    ensures Encode([x, y, z] + rest, url) == Chars(Group(x, y, z), url) + Encode(rest, url)
  {
    PackGroup(x, y, z, rest);
    CharsConcat(Group(x, y, z), Pack(rest), url);
  }

  /** The bits of the last character that lie behind the last byte are zero. */
  lemma LeftOverIsZero(b: Bytes)
    requires |b| % 3 != 0
    ensures BitsAt(b, (|b| * 4 + 2) / 3 - 1) % (if |b| % 3 == 1 then 16 else 4) == 0
  {
    var q := |b| / 3;
    if |b| % 3 == 1 {
      LastOfOne(b, q);
    } else {
      LastOfTwo(b, q);
    }
  }

  lemma LastOfOne(b: Bytes, q: nat)
    requires |b| == 3 * q + 1
    ensures (|b| * 4 + 2) / 3 - 1 == 4 * q + 1 && BitsAt(b, 4 * q + 1) % 16 == 0
  {
    BitsOfGroup(b, q);
    SecondWindow(ByteAt(b, 3 * q), 0);
  }

  lemma LastOfTwo(b: Bytes, q: nat)
    requires |b| == 3 * q + 2
    ensures (|b| * 4 + 2) / 3 - 1 == 4 * q + 2 && BitsAt(b, 4 * q + 2) % 4 == 0
  {
    BitsOfGroup(b, q);
    ThirdWindow(ByteAt(b, 3 * q + 1), 0);
  }

  // ----- what decoding reads, and that no other canonical text stands for the same bytes

  /** Either alphabet is read. */
  lemma ValueIs(c: CodeUnit, v: Sextet)
    ensures Value(c) == Some(v) <==> c == Row(v / 8, false)[v % 8] as int || c == Row(v / 8, true)[v % 8] as int
  {
    AlphabetIs(v, false);
    AlphabetIs(v, true);
  }

  /** The padding character ends the text, and characters of neither alphabet are passed over. */
  lemma {:induction false} SextetsConcat(a: Text, b: Text)
    ensures Sextets(a + b) == if PAD in a then Sextets(a) else Sextets(a) + Sextets(b)
  {
    if a == [] {
      assert a + b == b;
    } else {
      assert (a + b)[1..] == a[1..] + b && a == [a[0]] + a[1..];
      SextetsConcat(a[1..], b);
    }
  }

  lemma DecodeSkips(a: Text, c: CodeUnit, b: Text)
    requires Value(c).None? && c != '=' as int
    ensures Decode(a + [c] + b) == Decode(a + b)
  {
    SextetsConcat(a + [c], b);
    SextetsConcat(a, [c]);
    SextetsConcat(a, b);
    assert [c][1..] == [] && Sextets([c]) == [];
    assert Sextets(a) + [] == Sextets(a);
    if PAD in a { assert PAD in a + [c]; }
  }

  lemma DecodeStops(a: Text, b: Text)
    ensures Decode(a + [PAD] + b) == Decode(a)
    ensures PAD == '=' as int
  {
    SextetsConcat(a + [PAD], b);
    SextetsConcat(a, [PAD]);
    assert (a + [PAD])[|a|] == PAD;
    assert Sextets([PAD]) == [] && Sextets(a) + [] == Sextets(a);
  }

  /** Byte j is cut out of two neighbouring sextets; what is left over is dropped. */
  function OctetAt(s: seq<Sextet>, j: nat): int
    requires j < |s| * 3 / 4
  {
    var high: int, low: int := s[j / 3 * 4 + j % 3], s[j / 3 * 4 + j % 3 + 1];
    (high * 0x40 + low) / (if j % 3 == 0 then 16 else if j % 3 == 1 then 4 else 1) % 0x100
  }

  lemma Remainder(q: int, r: int)
    requires 0 <= r < 0x100
    ensures (q * 0x100 + r) % 0x100 == r
  {
  }

  lemma OctetsOfTwo(s: int, t: int)
    requires 0 <= s < 64 && 0 <= t < 64
    ensures (s * 0x40 + t) / 16 % 0x100 == First(s, t)
    ensures (s * 0x40 + t) / 4 % 0x100 == Second(s, t)
    ensures (s * 0x40 + t) % 0x100 == Third(s, t)
  {
    var a, b, c := t / 16, t / 4, s / 4;
    assert (s * 0x40 + t) / 16 == s * 4 + a;
    Remainder(0, s * 4 + a);
    assert (s * 0x40 + t) / 4 == s / 16 * 0x100 + (s % 16 * 16 + b);
    Remainder(s / 16, s % 16 * 16 + b);
    assert s * 0x40 + t == c * 0x100 + (s % 4 * 64 + t);
    Remainder(c, s % 4 * 64 + t);
  }

  lemma OctetsShift(s: seq<Sextet>, j: nat)
    requires |s| >= 4 && 3 <= j < |s| * 3 / 4
    ensures OctetAt(s, j) == OctetAt(s[4..], j - 3)
  {
    assert j / 3 == (j - 3) / 3 + 1 && j % 3 == (j - 3) % 3;
  }

  lemma {:induction false} UnpackAt(s: seq<Sextet>, j: nat)
    ensures |Unpack(s)| == |s| * 3 / 4
    ensures j < |s| * 3 / 4 ==> Unpack(s)[j] == OctetAt(s, j)
  {
    if |s| >= 4 {
      if j >= 3 {
        UnpackAt(s[4..], j - 3);
        if j < |s| * 3 / 4 { OctetsShift(s, j); }
      } else {
        UnpackAt(s[4..], 0);
        OctetsOfTwo(s[j], s[j + 1]);
      }
    } else if j < |s| * 3 / 4 {
      OctetsOfTwo(s[j], s[j + 1]);
    }
  }

  /** Whole groups, or a rest whose left-over bits are zero. */
  predicate ZeroRest(s: seq<Sextet>) {
    && |s| % 4 != 1
    && (|s| % 4 == 2 ==> s[|s| - 1] % 16 == 0)
    && (|s| % 4 == 3 ==> s[|s| - 1] % 4 == 0)
  }

  lemma GroupBack(s: Sextet, t: Sextet, u: Sextet, v: Sextet)
    ensures 0 <= First(s, t) < 256 && 0 <= Second(t, u) < 256 && 0 <= Third(u, v) < 256
    ensures First(s, t) / 4 == s
    ensures First(s, t) % 4 * 16 + Second(t, u) / 16 == t
    ensures Second(t, u) % 16 * 4 + Third(u, v) / 64 == u
    ensures Third(u, v) % 64 == v
  {
    assert First(s, t) % 4 == t / 16 && Second(t, u) / 16 == t % 16;
    assert Second(t, u) % 16 == u / 4 && Third(u, v) / 64 == u % 4;
  }

  lemma ShortPackUnpack(s: seq<Sextet>)
    requires ZeroRest(s) && |s| < 4
    ensures Pack(Unpack(s)) == s
  {
    if |s| == 3 {
      GroupBack(s[0], s[1], s[2], 0);
    } else if |s| == 2 {
      GroupBack(s[0], s[1], 0, 0);
    }
  }

  lemma GroupIs(s: seq<Sextet>, x: Byte, y: Byte, z: Byte)
    requires |s| >= 4 && x == First(s[0], s[1]) && y == Second(s[1], s[2]) && z == Third(s[2], s[3])
    ensures Group(x, y, z) == s[..4]
  {
    GroupBack(s[0], s[1], s[2], s[3]);
    var g := Group(x, y, z);
    assert g[0] == s[0] && g[1] == s[1] && g[2] == s[2] && g[3] == s[3];
  }

  lemma UnpackGroupIs(s: seq<Sextet>)
    requires |s| >= 4
    ensures 0 <= First(s[0], s[1]) < 256 && 0 <= Second(s[1], s[2]) < 256 && 0 <= Third(s[2], s[3]) < 256
    ensures Unpack(s) == [First(s[0], s[1]), Second(s[1], s[2]), Third(s[2], s[3])] + Unpack(s[4..])
    ensures Group(First(s[0], s[1]), Second(s[1], s[2]), Third(s[2], s[3])) == s[..4]
  {
    GroupBack(s[0], s[1], s[2], s[3]);
    GroupIs(s, First(s[0], s[1]), Second(s[1], s[2]), Third(s[2], s[3]));
  }

  lemma {:induction false} PackUnpack(s: seq<Sextet>)
    requires ZeroRest(s)
    ensures Pack(Unpack(s)) == s
  {
    if |s| >= 4 {
      PackUnpack(s[4..]);
      UnpackGroupIs(s);
      PackGroup(First(s[0], s[1]), Second(s[1], s[2]), Third(s[2], s[3]), Unpack(s[4..]));
      assert s == s[..4] + s[4..];
    } else {
      ShortPackUnpack(s);
    }
  }

  lemma PackGroup(x: Byte, y: Byte, z: Byte, rest: Bytes)
    ensures Pack([x, y, z] + rest) == Group(x, y, z) + Pack(rest)
  {
    assert ([x, y, z] + rest)[3..] == rest;
  }

  function ValuesOf(t: Text): (s: seq<Sextet>)
    requires forall i :: 0 <= i < |t| ==> Value(t[i]).Some?
  {
    if t == [] then [] else [Value(t[0]).value] + ValuesOf(t[1..])
  }

  lemma {:induction false} CharsOfValues(t: Text, url: bool)
    requires forall i :: 0 <= i < |t| ==> InAlphabet(t[i], url) && Value(t[i]).Some?
    ensures |ValuesOf(t)| == |t| && Chars(ValuesOf(t), url) == t
    ensures t != [] ==> ValuesOf(t)[|t| - 1] == Value(t[|t| - 1]).value
  {
    if t != [] {
      CharsOfValues(t[1..], url);
      assert t == [t[0]] + t[1..];
    }
  }

  /** The only text of its alphabet, with zero left-over bits and the right padding, that decodes to `b`. */
  lemma EncodeIsOnly(t: Text, b: Bytes, url: bool)
    requires var n := (|b| * 4 + 2) / 3;
             && |t| == n + (if url then 0 else (3 - |b| % 3) % 3)
             && (forall i :: 0 <= i < n ==> InAlphabet(t[i], url))
             && (forall i :: n <= i < |t| ==> t[i] == '=' as int)
             && (|b| % 3 == 1 ==> Value(t[n - 1]).value % 16 == 0)
             && (|b| % 3 == 2 ==> Value(t[n - 1]).value % 4 == 0)
             && Decode(t) == b
    ensures t == Encode(b, url)
  {
    var n := (|b| * 4 + 2) / 3;
    var front, pad := t[..n], t[n..];
    assert t == front + pad;
    assert forall i :: 0 <= i < |front| ==> InAlphabet(front[i], url) && Value(front[i]).Some? by {
      forall i | 0 <= i < |front| ensures InAlphabet(front[i], url) && Value(front[i]).Some? { HasValue(t[i], url); }
    }
    assert ZeroRest(ValuesOf(front)) by {
      CharsOfValues(front, url);
      RestOf(ValuesOf(front), b);
    }
    CanonicalIs(front, pad, b, url);
  }

  lemma HasValue(c: CodeUnit, url: bool)
    requires InAlphabet(c, url)
    ensures Value(c).Some?
  {
  }

  lemma CanonicalIs(front: Text, pad: Text, b: Bytes, url: bool)
    requires forall i :: 0 <= i < |front| ==> InAlphabet(front[i], url) && Value(front[i]).Some?
    requires forall i :: 0 <= i < |pad| ==> pad[i] == PAD
    requires |pad| == if url then 0 else (3 - |b| % 3) % 3
    requires ZeroRest(ValuesOf(front)) && Decode(front + pad) == b
    ensures front + pad == Encode(b, url)
  {
    var s := ValuesOf(front);
    assert Chars(s, url) == front by { CharsOfValues(front, url); }
    assert Unpack(s) == b by { DecodesTo(s, front, pad, url); }
    assert pad == if url then [] else Padding(|b|) by { PaddingIs(pad, |b|, url); }
    Reencoded(s, front, pad, b, url);
  }

  lemma DecodesTo(s: seq<Sextet>, front: Text, pad: Text, url: bool)
    requires Chars(s, url) == front && forall i :: 0 <= i < |pad| ==> pad[i] == PAD
    ensures Decode(front + pad) == Unpack(s)
  {
    CharsRoundTrip(s, url, pad);
  }

  lemma Reencoded(s: seq<Sextet>, front: Text, pad: Text, b: Bytes, url: bool)
    requires ZeroRest(s) && Unpack(s) == b && Chars(s, url) == front
    requires pad == if url then [] else Padding(|b|)
    ensures front + pad == Encode(b, url)
  {
    PackUnpack(s);
    Spelt(b, url, front, pad);
  }

  lemma Spelt(b: Bytes, url: bool, front: Text, pad: Text)
    requires Chars(Pack(b), url) == front && pad == if url then [] else Padding(|b|)
    ensures Encode(b, url) == front + pad
  {
  }

  lemma PaddingIs(pad: Text, n: nat, url: bool)
    requires forall i :: 0 <= i < |pad| ==> pad[i] == PAD
    requires |pad| == if url then 0 else (3 - n % 3) % 3
    ensures pad == if url then [] else Padding(n)
  {
  }

  lemma RestOf(s: seq<Sextet>, b: Bytes)
    requires |s| == (|b| * 4 + 2) / 3
    requires |b| % 3 == 1 ==> s[|s| - 1] % 16 == 0
    requires |b| % 3 == 2 ==> s[|s| - 1] % 4 == 0
    ensures ZeroRest(s)
  {
    var q := |b| / 3;
    assert |b| == 3 * q + |b| % 3;
    assert |b| % 3 == 1 ==> |s| == 4 * q + 2;
    assert |b| % 3 == 2 ==> |s| == 4 * q + 3;
  }
}
