/** Result types and the string model that the other modules share. */
module Prelude {

  datatype Option<+T> = None | Some(value: T)

  datatype Result<+T, +E> = Ok(value: T) | Err(error: E)

  /** JavaScript strings are sequences of 16-bit code units; lone surrogates are allowed. */
  type CodeUnit = c: int | 0 <= c < 0x1_0000
  type Text = seq<CodeUnit>

  type Byte = b: int | 0 <= b < 0x100
  type Bytes = seq<Byte>

  /** The text of an ASCII literal. */
  function Ascii(s: string): (t: Text)
    ensures |t| == |s| && forall i :: 0 <= i < |s| ==> t[i] == s[i] as int % 0x1_0000
  {
    seq(|s|, i requires 0 <= i < |s| => s[i] as int % 0x1_0000)
  }

  ghost predicate NoDuplicates<T>(s: seq<T>) {
    forall i, j :: 0 <= i < j < |s| ==> s[i] != s[j]
  }

  /** Adding to an insertion-ordered JavaScript `Set`. */
  function Insert<T(==)>(s: seq<T>, x: T): seq<T> {
    if x in s then s else s + [x]
  }

  /** Adding all of `xs`, one after the other. */
  function InsertAll<T(==)>(s: seq<T>, xs: seq<T>): seq<T>
    decreases |xs|
  {
    if xs == [] then s else InsertAll(Insert(s, xs[0]), xs[1..])
  }

  lemma {:induction false} InsertAllIs<T>(s: seq<T>, xs: seq<T>)
    ensures NoDuplicates(s) ==> NoDuplicates(InsertAll(s, xs))
    ensures forall y :: y in InsertAll(s, xs) <==> y in s || y in xs
    decreases |xs|
  {
    if xs != [] {
      InsertAllIs(Insert(s, xs[0]), xs[1..]);
      assert xs == [xs[0]] + xs[1..];
    }
  }

  /** What was in the set keeps its place. */
  lemma {:induction false} InsertAllExtends<T>(s: seq<T>, xs: seq<T>)
    ensures s <= InsertAll(s, xs)
    decreases |xs|
  {
    if xs != [] { InsertAllExtends(Insert(s, xs[0]), xs[1..]); }
  }
}
