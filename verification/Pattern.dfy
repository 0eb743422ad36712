/** Escaping a value so that, compiled as a regular expression, it stands for itself. */
module Pattern {
  import opened Prelude

  const BACKSLASH: CodeUnit := 0x5C

  /** The characters of the class in `escapeRegExp`, which are also the SyntaxCharacters of ECMA-262. */
  predicate IsSyntax(c: CodeUnit) {
    c in {0x24, 0x28, 0x29, 0x2A, 0x2B, 0x2E, 0x3F, 0x5B, 0x5C, 0x5D, 0x5E, 0x7B, 0x7C, 0x7D}
  }

  function EscapeRegExp(value: Text): Text {
    if value == [] then []
    else (if IsSyntax(value[0]) then [BACKSLASH, value[0]] else [value[0]]) + EscapeRegExp(value[1..])
  }

  /**
   Reads a pattern by the grammar of section 22.2.1 of ECMA-262, as far as it consists of literal
   characters and identity escapes of syntax characters. None when it uses anything else of the
   grammar: an unescaped syntax character, a class escape such as `\d`, a back reference, or a
   backslash at the end (which is no pattern at all).
   */
  function Literals(pattern: Text): Option<Text> {
    if pattern == [] then Some([])
    else if pattern[0] == BACKSLASH then
      if |pattern| >= 2 && IsSyntax(pattern[1]) then Cons(pattern[1], Literals(pattern[2..])) else None
    else if IsSyntax(pattern[0]) then None
    else Cons(pattern[0], Literals(pattern[1..]))
  }

  function Cons(c: CodeUnit, rest: Option<Text>): Option<Text> {
    match rest case None => None case Some(t) => Some([c] + t)
  }

  /** The compiled pattern matches the value's characters and nothing else. */
  lemma {:induction false} EscapingIsExact(value: Text)
    ensures Literals(EscapeRegExp(value)) == Some(value)
  {
    if value != [] {
      var rest := EscapeRegExp(value[1..]);
      EscapingIsExact(value[1..]);
      var escaped := EscapeRegExp(value);
      if IsSyntax(value[0]) {
        assert escaped[2..] == rest;
      } else {
        assert escaped[1..] == rest;
      }
      assert value == [value[0]] + value[1..];
    }
  }

  lemma EscapingIsInjective(a: Text, b: Text)
    requires EscapeRegExp(a) == EscapeRegExp(b)
    ensures a == b
  {
    EscapingIsExact(a);
    EscapingIsExact(b);
  }

  /** The character is one of the class in the source, spelt out. */
  predicate InClass(c: CodeUnit) {
    exists i :: 0 <= i < |".*+?^${}()|[]\\"| && c == ".*+?^${}()|[]\\"[i] as int
  }

  lemma ClassIs(c: CodeUnit)
    ensures InClass(c) <==> IsSyntax(c)
  {
    var cls := ".*+?^${}()|[]\\";
    assert cls[0] == '.' && cls[1] == '*' && cls[2] == '+' && cls[3] == '?' && cls[4] == '^';
    assert cls[5] == '$' && cls[6] == '{' && cls[7] == '}' && cls[8] == '(' && cls[9] == ')';
    assert cls[10] == '|' && cls[11] == '[' && cls[12] == ']' && cls[13] == '\\';
  }

  /** Characters of the class, and no others, get a backslash in front. */
  lemma EscapeFront(value: Text)
    ensures EscapeRegExp([]) == []
    ensures value != [] ==>
              EscapeRegExp(value) == (if InClass(value[0]) then ['\\' as int] else []) + [value[0]]
                                     + EscapeRegExp(value[1..])
  {
    if value != [] { ClassIs(value[0]); }
  }
}
