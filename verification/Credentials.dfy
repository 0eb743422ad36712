/**
 Encryption of stored credentials under versioned keys. The authenticated cipher itself stays
 abstract: all that is used of it is that opening undoes sealing (section 7 of NIST SP 800-38D).
 */
module Credentials {
  import opened Prelude
  import Utf8
  import Base64
  import Hex

  const TAG_BYTES := 16
  const KEY_BYTES := 32

  /** `Unauthentic` stands for what the cipher library throws when the tag does not verify. */
  datatype Error = Configuration | Validation | Unauthentic

  datatype Sealed = Sealed(ciphertext: Bytes, tag: Bytes)

  /** seal(key, nonce, plaintext) and open(key, nonce, ciphertext, tag). */
  datatype Aead = Aead(
    seal: (Bytes, Bytes, Bytes) -> Sealed,
    open: (Bytes, Bytes, Bytes, Bytes) -> Option<Bytes>)

  ghost predicate OpensAfterSeal(aead: Aead) {
    forall key: Bytes, nonce: Bytes, data: Bytes {:trigger aead.seal(key, nonce, data)} ::
      |key| == 32 && |nonce| == 12 ==>
        var s := aead.seal(key, nonce, data);
        |s.tag| == 16 && aead.open(key, nonce, s.ciphertext, s.tag) == Some(data)
  }

  datatype EncryptedValue = EncryptedValue(keyVersion: int, nonce: Text, ciphertext: Text, authTag: Text)

  /** `string | Buffer`. */
  datatype Plaintext = FromString(s: Text) | FromBuffer(b: Bytes)

  function BytesOf(p: Plaintext): Bytes {
    match p case FromString(s) => Utf8.Encode(s) case FromBuffer(b) => b
  }

  // ----- keys

  function ParseKey(hexKey: Text): Result<Bytes, Error> {
    if |hexKey| != 64 || !Hex.AllDigits(hexKey) then Err(Configuration)
    else
      var key := Hex.Decode(hexKey);
      if |key| != KEY_BYTES then Err(Configuration) else Ok(key)
  }

  /** The first check decides: 64 hexadecimal digits always give 32 bytes, read two digits at a time. */
  lemma ParseKeyIff(hexKey: Text)
    ensures ParseKey(hexKey) != Err(Configuration) <==> |hexKey| == 64 && Hex.AllDigits(hexKey)
    ensures var r := ParseKey(hexKey);
            r != Err(Configuration) ==>
              r.Ok? && |r.value| == 32 && forall i :: 0 <= i < 32 ==>
                r.value[i] == Hex.Digit(hexKey[2 * i]).value * 16 + Hex.Digit(hexKey[2 * i + 1]).value
  {
    if |hexKey| == 64 && Hex.AllDigits(hexKey) {
      Hex.DecodeLength(hexKey);
      forall i | 0 <= i < 32
        ensures Hex.Decode(hexKey)[i] == Hex.Digit(hexKey[2 * i]).value * 16 + Hex.Digit(hexKey[2 * i + 1]).value
      {
        Hex.DecodeAt(hexKey, i);
      }
    }
  }

  /** Every 32-byte key is read back from its hexadecimal form. */
  lemma ParseKeyReads(key: Bytes)
    requires |key| == 32
    ensures ParseKey(Hex.Encode(key)) == Ok(key)
  {
    Hex.RoundTrip(key);
  }

  // ----- the cipher: its fields never change once it is made

  datatype CredentialCipher = CredentialCipher(key: Bytes, keyVersion: int, previousKeys: map<int, Bytes>)

  /** The keys in `entries`, later entries last; None if one of them is malformed. */
  function KeyMap(entries: seq<(int, Text)>): Option<map<int, Bytes>> {
    if entries == [] then Some(map[])
    else
      var last := entries[|entries| - 1];
      match (KeyMap(entries[..|entries| - 1]), ParseKey(last.1))
      case (Some(m), Ok(key)) => Some(m[last.0 := key])
      case _ => None
  }

  function CipherOf(masterKeyHex: Text, keyVersion: int, entries: seq<(int, Text)>)
    : Result<CredentialCipher, Error>
  {
    match (ParseKey(masterKeyHex), KeyMap(entries))
    case (Ok(key), Some(m)) => Ok(CredentialCipher(key, keyVersion, m))
    case _ => Err(Configuration)
  }

  /** The constructor accepts previous keys exactly when all of them are well formed. */
  lemma {:induction false} KeyMapIff(entries: seq<(int, Text)>)
    ensures KeyMap(entries).Some? <==> forall i :: 0 <= i < |entries| ==> ParseKey(entries[i].1).Ok?
  {
    if entries != [] {
      var before := entries[..|entries| - 1];
      KeyMapIff(before);
      assert forall i :: 0 <= i < |before| ==> before[i] == entries[i];
    }
  }

  /** For a version that is given more than once, the last key counts. */
  lemma {:induction false} LastKeyCounts(entries: seq<(int, Text)>, i: nat)
    requires KeyMap(entries).Some? && i < |entries| && LastFor(entries, i)
    ensures entries[i].0 in KeyMap(entries).value
    ensures Ok(KeyMap(entries).value[entries[i].0]) == ParseKey(entries[i].1)
  {
    var k := |entries| - 1;
    if i < k {
      var before := entries[..k];
      assert before[i] == entries[i] && entries[k].0 != entries[i].0;
      LastKeyCounts(before, i);
    }
  }

  ghost predicate LastFor(entries: seq<(int, Text)>, i: int)
    requires 0 <= i < |entries|
  {
    forall j :: i < j < |entries| ==> entries[j].0 != entries[i].0
  }

  /** The versions that previous keys are given for. */
  lemma {:induction false} KeyMapVersions(entries: seq<(int, Text)>, version: int)
    requires KeyMap(entries).Some?
    ensures version in KeyMap(entries).value <==> exists i :: 0 <= i < |entries| && entries[i].0 == version
  {
    if entries != [] {
      var before := entries[..|entries| - 1];
      KeyMapVersions(before, version);
      if i :| 0 <= i < |before| && before[i].0 == version { assert entries[i].0 == version; }
      if i :| 0 <= i < |entries| && entries[i].0 == version { assert i < |before| ==> before[i].0 == version; }
    }
  }

  lemma {:induction false} BadPrefix(entries: seq<(int, Text)>, n: nat)
    requires n <= |entries| && KeyMap(entries[..n]) == None
    ensures KeyMap(entries) == None
    decreases |entries| - n
  {
    if n == |entries| {
      assert entries[..n] == entries;
    } else {
      assert entries[..n + 1][..n] == entries[..n];
      BadPrefix(entries, n + 1);
    }
  }

  /** The constructor; `entries` is what `Object.entries(previousKeys ?? {})` yields. */
  method NewCipher(masterKeyHex: Text, keyVersion: int, entries: seq<(int, Text)>)
    returns (r: Result<CredentialCipher, Error>)
    ensures r == CipherOf(masterKeyHex, keyVersion, entries)
    ensures r.Ok? <==>
              ParseKey(masterKeyHex).Ok? && forall i :: 0 <= i < |entries| ==> ParseKey(entries[i].1).Ok?
    ensures r.Err? ==> r == Err(Configuration)
    ensures r.Ok? ==> KeyForVersion(r.value, keyVersion) == ParseKey(masterKeyHex)
    ensures r.Ok? ==>
              forall v :: KeyForVersion(r.value, v) == Err(Configuration) <==>
                            v != keyVersion && forall i :: 0 <= i < |entries| ==> entries[i].0 != v
    ensures r.Ok? ==>
              forall i :: 0 <= i < |entries| && LastFor(entries, i) && entries[i].0 != keyVersion ==>
                KeyForVersion(r.value, entries[i].0) == ParseKey(entries[i].1)
  {
    KeyMapIff(entries);
    var key := ParseKey(masterKeyHex);
    if key.Err? { return Err(Configuration); }
    var previousKeys: map<int, Bytes> := map[];
    for i := 0 to |entries|
      invariant KeyMap(entries[..i]) == Some(previousKeys)
    {
      var previous := ParseKey(entries[i].1);
      assert entries[..i + 1][..i] == entries[..i];
      if previous.Err? {
        BadPrefix(entries, i + 1);
        return Err(Configuration);
      }
      previousKeys := previousKeys[entries[i].0 := previous.value];
    }
    assert entries[..|entries|] == entries;
    r := Ok(CredentialCipher(key.value, keyVersion, previousKeys));
    forall v ensures KeyForVersion(r.value, v) == Err(Configuration) <==>
                       v != keyVersion && forall i :: 0 <= i < |entries| ==> entries[i].0 != v
    {
      KeyMapVersions(entries, v);
    }
    forall i | 0 <= i < |entries| && LastFor(entries, i) && entries[i].0 != keyVersion
      ensures KeyForVersion(r.value, entries[i].0) == ParseKey(entries[i].1)
    {
      LastKeyCounts(entries, i);
    }
  }

  function KeyForVersion(cipher: CredentialCipher, version: int): Result<Bytes, Error> {
    if version == cipher.keyVersion then Ok(cipher.key)
    else if version in cipher.previousKeys then Ok(cipher.previousKeys[version])
    else Err(Configuration)
  }

  /** `encrypt`, with the random nonce as a parameter. */
  function Encrypt(aead: Aead, cipher: CredentialCipher, plaintext: Plaintext, nonce: Bytes): EncryptedValue {
    var s := aead.seal(cipher.key, nonce, BytesOf(plaintext));
    EncryptedValue(cipher.keyVersion, Base64.Encode(nonce, false),
                   Base64.Encode(s.ciphertext, false), Base64.Encode(s.tag, false))
  }

  function Decrypt(aead: Aead, cipher: CredentialCipher, value: EncryptedValue): Result<Bytes, Error> {
    match KeyForVersion(cipher, value.keyVersion)
    case Err(e) => Err(e)
    case Ok(key) =>
      var authTag := Base64.Decode(value.authTag);
      if |authTag| != TAG_BYTES then Err(Validation)
      else match aead.open(key, Base64.Decode(value.nonce), Base64.Decode(value.ciphertext), authTag)
        case None => Err(Unauthentic)
        case Some(data) => Ok(data)
  }

  function DecryptString(aead: Aead, cipher: CredentialCipher, value: EncryptedValue): Result<Text, Error> {
    match Decrypt(aead, cipher, value)
    case Err(e) => Err(e)
    case Ok(data) => Ok(Utf8.Decode(data))
  }

  /**
   What encryption stores: the version, and in standard base64 the nonce it was given and the two parts
   that the cipher makes of the bytes under the current key and that nonce.
   */
  lemma EncryptStores(aead: Aead, cipher: CredentialCipher, p: Plaintext, nonce: Bytes)
    ensures var v := Encrypt(aead, cipher, p, nonce);
            var s := aead.seal(cipher.key, nonce, match p case FromString(t) => Utf8.Encode(t) case FromBuffer(b) => b);
            && v.keyVersion == cipher.keyVersion
            && Base64.Decode(v.nonce) == nonce && v.nonce == Base64.Encode(nonce, false)
            && Base64.Decode(v.ciphertext) == s.ciphertext && v.ciphertext == Base64.Encode(s.ciphertext, false)
            && Base64.Decode(v.authTag) == s.tag && v.authTag == Base64.Encode(s.tag, false)
  {
    var s := aead.seal(cipher.key, nonce, BytesOf(p));
    Base64.RoundTrip(nonce, false);
    Base64.RoundTrip(s.ciphertext, false);
    Base64.RoundTrip(s.tag, false);
  }

  /** A value is read back by any cipher that has its key under its version. */
  lemma RoundTrip(aead: Aead, writer: CredentialCipher, reader: CredentialCipher, p: Plaintext, nonce: Bytes)
    requires OpensAfterSeal(aead) && |writer.key| == 32 && |nonce| == 12
    requires KeyForVersion(reader, writer.keyVersion) == Ok(writer.key)
    ensures Decrypt(aead, reader, Encrypt(aead, writer, p, nonce))
            == Ok(match p case FromString(t) => Utf8.Encode(t) case FromBuffer(b) => b)
  {
    EncryptStores(aead, writer, p, nonce);
  }

  /**
   What decryption makes of any stored value, whatever its parts decode to: a missing key is reported
   before a tag of the wrong length, that before the cipher is asked, and no failure is ever answered
   with a plaintext, as bytes or as a string.
   */
  lemma DecryptsStored(aead: Aead, cipher: CredentialCipher, value: EncryptedValue)
    ensures var key := KeyForVersion(cipher, value.keyVersion);
            var nonce, data := Base64.Decode(value.nonce), Base64.Decode(value.ciphertext);
            var tag := Base64.Decode(value.authTag);
            var r, s := Decrypt(aead, cipher, value), DecryptString(aead, cipher, value);
            if key.Err? then r == Err(Configuration) && s == Err(Configuration)
            else if |tag| != 16 then r == Err(Validation) && s == Err(Validation)
            else match aead.open(key.value, nonce, data, tag)
              case None => r == Err(Unauthentic) && s == Err(Unauthentic)
              case Some(plain) => r == Ok(plain) && s == Ok(Utf8.Decode(plain))
  {
  }

  // ----- a history of encryptions and rotations

  datatype Op = Store(plaintext: Plaintext, nonce: Bytes) | Rotate(hexKey: Text, version: int)

  datatype Record = Record(plaintext: Plaintext, value: EncryptedValue)

  /** What the operator has configured, and everything encrypted so far. */
  datatype World = World(hexKey: Text, version: int, earlier: seq<(int, Text)>, records: seq<Record>)

  ghost predicate VersionUsed(w: World, version: int) {
    version == w.version || exists i :: 0 <= i < |w.earlier| && w.earlier[i].0 == version
  }

  /** Nonces are twelve bytes; a rotation brings a well-formed key under a new version. */
  ghost predicate Enabled(w: World, op: Op) {
    match op
    case Store(_, nonce) => |nonce| == 12
    case Rotate(hexKey, version) => ParseKey(hexKey).Ok? && !VersionUsed(w, version)
  }

  ghost predicate Configured(w: World) {
    CipherOf(w.hexKey, w.version, w.earlier).Ok?
  }

  function Step(aead: Aead, w: World, op: Op): World
    requires CipherOf(w.hexKey, w.version, w.earlier).Ok?
  {
    match op
    case Store(p, nonce) =>
      var cipher := CipherOf(w.hexKey, w.version, w.earlier).value;
      w.(records := w.records + [Record(p, Encrypt(aead, cipher, p, nonce))])
    case Rotate(hexKey, version) =>
      Rotated(w, hexKey, version)
  }

  ghost predicate CanRun(aead: Aead, w: World, ops: seq<Op>)
    decreases |ops|
  {
    ops == [] || (Configured(w) && Enabled(w, ops[0]) && CanRun(aead, Step(aead, w, ops[0]), ops[1..]))
  }

  ghost function After(aead: Aead, w: World, ops: seq<Op>): World
    requires CanRun(aead, w, ops)
    decreases |ops|
  {
    if ops == [] then w else After(aead, Step(aead, w, ops[0]), ops[1..])
  }

  function Start(hexKey: Text, version: int): World {
    World(hexKey, version, [], [])
  }

  /** The key that the configured cipher finds for a version. */
  ghost function KeyNow(w: World, version: int): Result<Bytes, Error>
    requires Configured(w)
  {
    KeyForVersion(CipherOf(w.hexKey, w.version, w.earlier).value, version)
  }

  /** The record was sealed under the key that the current cipher finds for its version. */
  ghost predicate Readable(aead: Aead, w: World, r: Record)
    requires Configured(w)
  {
    exists key: Bytes, nonce ::
      && KeyNow(w, r.value.keyVersion) == Ok(key) && |key| == 32 && |nonce| == 12
      && r.value == Encrypt(aead, CredentialCipher(key, r.value.keyVersion, map[]), r.plaintext, nonce)
  }

  ghost predicate Inv(aead: Aead, w: World) {
    && Configured(w)
    && (forall i :: 0 <= i < |w.records| ==> Readable(aead, w, w.records[i]))
    && (forall v :: VersionUsed(w, v) <==> KeyNow(w, v).Ok?)
  }

  function Rotated(w: World, hexKey: Text, version: int): World {
    w.(hexKey := hexKey, version := version, earlier := w.earlier + [(w.version, w.hexKey)])
  }

  /**
   After a rotation every version but the new one has the key it had. The new one has the new key, even
   if it was in use before: a version that is used again loses its old key.
   */
  lemma RotationKeepsKeys(w: World, hexKey: Text, version: int, v: int)
    requires Configured(w) && ParseKey(hexKey).Ok?
    ensures Configured(Rotated(w, hexKey, version))
    ensures KeyNow(Rotated(w, hexKey, version), v) == if v == version then ParseKey(hexKey) else KeyNow(w, v)
  {
    var entries := Rotated(w, hexKey, version).earlier;
    assert entries[..|entries| - 1] == w.earlier;
    assert KeyMap(entries) == Some(KeyMap(w.earlier).value[w.version := ParseKey(w.hexKey).value]);
  }

  lemma UsedAfterRotation(w: World, w': World, v: int)
    requires w'.earlier == w.earlier + [(w.version, w.hexKey)]
    ensures VersionUsed(w', v) <==> v == w'.version || VersionUsed(w, v)
  {
    var n := |w.earlier|;
    assert w'.earlier[n].0 == w.version;
    if i :| 0 <= i < n && w.earlier[i].0 == v { assert w'.earlier[i].0 == v; }
    if i :| 0 <= i < |w'.earlier| && w'.earlier[i].0 == v { assert i < n ==> w.earlier[i].0 == v; }
  }

  lemma StepKeepsInv(aead: Aead, w: World, op: Op)
    requires Inv(aead, w) && Enabled(w, op)
    ensures Inv(aead, Step(aead, w, op))
  {
    var w' := Step(aead, w, op);
    var cipher := CipherOf(w.hexKey, w.version, w.earlier).value;
    match op {
      case Store(p, nonce) =>
        forall i | 0 <= i < |w'.records| ensures Readable(aead, w', w'.records[i]) {
          if i < |w.records| {
            assert Readable(aead, w, w.records[i]);
          } else {
            SealedAsCurrent(aead, cipher, p, nonce);
            assert KeyNow(w', cipher.keyVersion) == Ok(cipher.key);
          }
        }
        forall v ensures VersionUsed(w', v) <==> KeyNow(w', v).Ok? {
          assert VersionUsed(w', v) <==> VersionUsed(w, v);
        }
      case Rotate(hexKey, version) =>
        forall v ensures VersionUsed(w', v) <==> KeyNow(w', v).Ok? {
          RotationKeepsKeys(w, hexKey, version, v);
          UsedAfterRotation(w, w', v);
        }
        forall i | 0 <= i < |w'.records| ensures Readable(aead, w', w'.records[i]) {
          assert Readable(aead, w, w.records[i]);
          RotationKeepsKeys(w, hexKey, version, w.records[i].value.keyVersion);
          assert VersionUsed(w, w.records[i].value.keyVersion);
        }
    }
  }

  /** Encryption looks at the current key and version only. */
  lemma SealedAsCurrent(aead: Aead, cipher: CredentialCipher, p: Plaintext, nonce: Bytes)
    ensures Encrypt(aead, cipher, p, nonce)
            == Encrypt(aead, CredentialCipher(cipher.key, cipher.keyVersion, map[]), p, nonce)
    ensures KeyForVersion(cipher, cipher.keyVersion) == Ok(cipher.key)
  {
  }

  lemma {:induction false} RunKeepsInv(aead: Aead, w: World, ops: seq<Op>)
    requires CanRun(aead, w, ops) && Inv(aead, w)
    ensures Inv(aead, After(aead, w, ops))
    decreases |ops|
  {
    if ops != [] {
      StepKeepsInv(aead, w, ops[0]);
      RunKeepsInv(aead, Step(aead, w, ops[0]), ops[1..]);
    }
  }

  lemma StartInv(aead: Aead, hexKey: Text, version: int)
    requires ParseKey(hexKey).Ok?
    ensures Inv(aead, Start(hexKey, version))
  {
  }

  /**
   Over every history of encryptions and rotations, every record ever made is still decrypted by the
   current cipher, to the bytes that were encrypted; a string comes back as itself exactly when it
   has no lone surrogate.
   */
  lemma EverythingStillDecrypts(aead: Aead, hexKey: Text, version: int, ops: seq<Op>, i: nat)
    requires OpensAfterSeal(aead) && ParseKey(hexKey).Ok?
    requires CanRun(aead, Start(hexKey, version), ops)
    requires i < |After(aead, Start(hexKey, version), ops).records|
    ensures var w := After(aead, Start(hexKey, version), ops); var r := w.records[i];
            Configured(w) &&
            var cipher := CipherOf(w.hexKey, w.version, w.earlier).value;
            && Decrypt(aead, cipher, r.value)
               == Ok(match r.plaintext case FromString(t) => Utf8.Encode(t) case FromBuffer(b) => b)
            && (r.plaintext.FromString? ==>
                  (DecryptString(aead, cipher, r.value) == Ok(r.plaintext.s) <==> Utf8.WellFormed(r.plaintext.s)))
  {
    StartInv(aead, hexKey, version);
    RunKeepsInv(aead, Start(hexKey, version), ops);
    var w := After(aead, Start(hexKey, version), ops);
    var r := w.records[i];
    assert Readable(aead, w, r);
    var cipher := CipherOf(w.hexKey, w.version, w.earlier).value;
    var key: Bytes, nonce :|
      && KeyNow(w, r.value.keyVersion) == Ok(key) && |key| == 32 && |nonce| == 12
      && r.value == Encrypt(aead, CredentialCipher(key, r.value.keyVersion, map[]), r.plaintext, nonce);
    RoundTrip(aead, CredentialCipher(key, r.value.keyVersion, map[]), cipher, r.plaintext, nonce);
    if r.plaintext.FromString? { Utf8.RoundTripIff(r.plaintext.s); }
  }

  /** And a value under a version that was never used is refused, whatever else is in it. */
  lemma UnknownVersionRefused(aead: Aead, hexKey: Text, version: int, ops: seq<Op>, value: EncryptedValue)
    requires ParseKey(hexKey).Ok? && CanRun(aead, Start(hexKey, version), ops)
    ensures var w := After(aead, Start(hexKey, version), ops);
            Configured(w) &&
            var cipher := CipherOf(w.hexKey, w.version, w.earlier).value;
            && (Decrypt(aead, cipher, value) == Err(Configuration) <==> !VersionUsed(w, value.keyVersion))
            && (DecryptString(aead, cipher, value) == Err(Configuration) <==> !VersionUsed(w, value.keyVersion))
  {
    StartInv(aead, hexKey, version);
    RunKeepsInv(aead, Start(hexKey, version), ops);
  }

  // ----- nonces

  function StoresOf(ops: seq<Op>): seq<Op> {
    if ops == [] then [] else (if ops[0].Store? then [ops[0]] else []) + StoresOf(ops[1..])
  }

  /** The record keeps what was stored, and its nonce. */
  ghost predicate Keeps(r: Record, op: Op) {
    op.Store? && r.plaintext == op.plaintext && Base64.Decode(r.value.nonce) == op.nonce
  }

  ghost predicate KeepsAll(records: seq<Record>, before: seq<Record>, stores: seq<Op>) {
    && |records| == |before| + |stores| && records[..|before|] == before
    && forall i :: 0 <= i < |stores| ==> Keeps(records[|before| + i], stores[i])
  }

  /** Over every run: one record for each encryption, in order, with the nonce that was drawn for it. */
  lemma {:induction false} RecordsKeep(aead: Aead, w: World, ops: seq<Op>)
    requires CanRun(aead, w, ops)
    ensures KeepsAll(After(aead, w, ops).records, w.records, StoresOf(ops))
    decreases |ops|
  {
    if ops != [] {
      var w1, rest := Step(aead, w, ops[0]), StoresOf(ops[1..]);
      RecordsKeep(aead, w1, ops[1..]);
      if ops[0].Store? {
        EncryptStores(aead, CipherOf(w.hexKey, w.version, w.earlier).value, ops[0].plaintext, ops[0].nonce);
        FirstRecord(w.records, w1.records, After(aead, w1, ops[1..]).records, ops[0], rest);
      } else {
        assert StoresOf(ops) == rest;
      }
    } else {
      assert w.records[..|w.records|] == w.records;
    }
  }

  lemma FirstRecord(before: seq<Record>, one: seq<Record>, all: seq<Record>, op: Op, rest: seq<Op>)
    requires |one| == |before| + 1 && one[..|before|] == before && Keeps(one[|before|], op)
    requires KeepsAll(all, one, rest)
    ensures KeepsAll(all, before, [op] + rest)
  {
    assert all[..|one|][|before|] == all[|before|];
    assert all[..|before|] == all[..|one|][..|before|];
    forall i | 0 <= i < |rest| + 1 ensures Keeps(all[|before| + i], ([op] + rest)[i]) {
      if i > 0 { assert Keeps(all[|one| + (i - 1)], rest[i - 1]); }
    }
  }

  /** So nonces that are all different are stored as different texts. */
  lemma NoncesStayApart(aead: Aead, hexKey: Text, version: int, ops: seq<Op>, i: nat, j: nat)
    requires CanRun(aead, Start(hexKey, version), ops) && i < j < |StoresOf(ops)|
    requires StoresOf(ops)[i].Store? && StoresOf(ops)[j].Store? && StoresOf(ops)[i].nonce != StoresOf(ops)[j].nonce
    ensures var records := After(aead, Start(hexKey, version), ops).records;
            j < |records| && records[i].value.nonce != records[j].value.nonce
  {
    RecordsKeep(aead, Start(hexKey, version), ops);
    var records := After(aead, Start(hexKey, version), ops).records;
    KeptAt(records, StoresOf(ops), i);
    KeptAt(records, StoresOf(ops), j);
  }

  lemma KeptAt(records: seq<Record>, stores: seq<Op>, i: nat)
    requires KeepsAll(records, [], stores) && i < |stores|
    ensures |records| == |stores| && Keeps(records[i], stores[i])
  {
    assert Keeps(records[0 + i], stores[i]);
  }

  // ----- comparison of tokens

  function SafeEquals(a: Text, b: Text): bool {
    var bufA, bufB := Utf8.Encode(a), Utf8.Encode(b);
    if |bufA| != |bufB| then false else bufA == bufB
  }

  /** Equality of what the two strings spell, lone surrogates reading as U+FFFD. */
  lemma SafeEqualsIff(a: Text, b: Text)
    ensures SafeEquals(a, b) <==> Utf8.ToScalars(a) == Utf8.ToScalars(b)
    ensures Utf8.WellFormed(a) && Utf8.WellFormed(b) ==> (SafeEquals(a, b) <==> a == b)
  {
    Utf8.SameBytesIff(a, b);
    Utf8.WellFormedIff(a);
    Utf8.WellFormedIff(b);
  }

  lemma {:induction false} NoReplacement(s: Text)
    requires Utf8.REPLACEMENT !in Utf8.ToScalars(s)
    ensures Utf8.WellFormed(s)
  {
    if s != [] { NoReplacement(s[if Utf8.StartsWithPair(s) then 2 else 1..]); }
  }

  lemma {:induction false} NoReplacementUnit(s: Text)
    requires Utf8.WellFormed(s)
    ensures Utf8.REPLACEMENT in Utf8.ToScalars(s) <==> Utf8.REPLACEMENT in s
  {
    if s != [] {
      var n := if Utf8.StartsWithPair(s) then 2 else 1;
      NoReplacementUnit(s[n..]);
      assert s == s[..n] + s[n..];
    }
  }

  /** A lone high surrogate reads as U+FFFD. */
  lemma LoneFront(rest: Text)
    requires rest == [] || !Utf8.IsLow(rest[0])
    ensures Utf8.ToScalars([0xD800] + rest) == [Utf8.REPLACEMENT] + Utf8.ToScalars(rest)
  {
    assert ([0xD800] + rest)[1..] == rest;
  }

  /** The front scalar of a well-formed string does not depend on what follows it. */
  lemma KeepsFront(s: Text, n: nat, rest: Text)
    requires s != [] && Utf8.WellFormed(s) && n == if Utf8.StartsWithPair(s) then 2 else 1
    ensures Utf8.ToScalars(s[..n] + rest) == [Utf8.ToScalars(s)[0]] + Utf8.ToScalars(rest)
  {
    assert (s[..n] + rest)[n..] == rest;
  }

  /** Puts a lone surrogate in place of a U+FFFD: the bytes stay the same. */
  lemma {:induction false} DisguisedReplacement(s: Text) returns (t: Text)
    requires Utf8.WellFormed(s) && Utf8.REPLACEMENT in s
    ensures t != s && Utf8.ToScalars(t) == Utf8.ToScalars(s)
  {
    var n := if Utf8.StartsWithPair(s) then 2 else 1;
    assert s == s[..n] + s[n..];
    KeepsFront(s, n, s[n..]);
    if s[0] == Utf8.REPLACEMENT {
      t := [0xD800] + s[1..];
      LoneFront(s[1..]);
    } else {
      var rest := DisguisedReplacement(s[n..]);
      KeepsFront(s, n, rest);
      t := s[..n] + rest;
      assert t[n..] == rest;
    }
  }

  /**
   Exactly when comparing with `a` is string equality: `a` has no lone surrogate and no U+FFFD,
   which a lone surrogate in the other string would be taken for.
   */
  lemma SafeEqualsIsEqualityIff(a: Text)
    ensures (forall b :: SafeEquals(a, b) <==> a == b) <==> Utf8.WellFormed(a) && Utf8.REPLACEMENT !in a
  {
    if !Utf8.WellFormed(a) {
      var b := Utf8.FromScalars(Utf8.ToScalars(a));
      Utf8.WellFormedIff(a);
      Utf8.UnitsRoundTrip(Utf8.ToScalars(a));
      SafeEqualsIff(a, b);
    } else if Utf8.REPLACEMENT in a {
      var b := DisguisedReplacement(a);
      SafeEqualsIff(a, b);
    } else {
      NoReplacementUnit(a);
      forall b ensures SafeEquals(a, b) <==> a == b {
        SafeEqualsIff(a, b);
        if SafeEquals(a, b) { NoReplacement(b); }
      }
    }
  }
}
