/** Byte strings as the source's `string` and `[]byte` hold them, and the few operations on
    them that several components share. */
module Bytes {
  type Byte = b: int | 0 <= b < 256
  type Bytes = seq<Byte>

  datatype Option<+T> = None | Some(value: T)

  const TAB: Byte := 0x09
  const NEWLINE: Byte := 0x0A
  const RETURN: Byte := 0x0D
  const SPACE: Byte := 0x20
  const QUOTE: Byte := 0x22
  const HASH: Byte := 0x23
  const DOLLAR: Byte := 0x24
  const PERCENT: Byte := 0x25
  const AMPERSAND: Byte := 0x26
  const PLUS: Byte := 0x2B
  const COMMA: Byte := 0x2C
  const MINUS: Byte := 0x2D
  const DOT: Byte := 0x2E
  const ZERO: Byte := 0x30
  const COLON: Byte := 0x3A
  const SEMICOLON: Byte := 0x3B
  const EQUALS: Byte := 0x3D
  const QUESTION: Byte := 0x3F
  const LEFT_BRACKET: Byte := 0x5B
  const BACKSLASH: Byte := 0x5C
  const RIGHT_BRACKET: Byte := 0x5D
  const UNDERSCORE: Byte := 0x5F
  const LEFT_BRACE: Byte := 0x7B
  const RIGHT_BRACE: Byte := 0x7D

  predicate IsDigit(b: Byte) { 0x30 <= b <= 0x39 }
  predicate IsHex(b: Byte) { IsDigit(b) || 0x41 <= b <= 0x46 || 0x61 <= b <= 0x66 }
  predicate IsUpper(b: Byte) { 0x41 <= b <= 0x5A }
  predicate IsLower(b: Byte) { 0x61 <= b <= 0x7A }

  /** An ASCII literal as bytes: the codes of its characters. */
  function Ascii(text: string): (r: Bytes)
    ensures |r| == |text|
    ensures forall i | 0 <= i < |text| && text[i] < 0x80 as char :: r[i] == text[i] as int
  {
    if text == [] then [] else [text[0] as int % 0x80] + Ascii(text[1..])
  }

  /** The position of the first `b` in `s`, or `|s|` when there is none. */
  function IndexOf(s: Bytes, b: Byte): (i: nat)
    ensures i <= |s|
    ensures b !in s[..i]
    ensures i < |s| ==> s[i] == b
    ensures i < |s| <==> b in s
  {
    if s == [] then 0
    else if s[0] == b then 0
    else
      var i := IndexOf(s[1..], b);
      assert s[..i + 1] == [s[0]] + s[1..][..i];
      i + 1
  }

  /** What precedes the first `sep`, and what follows it (empty when there is none). */
  function Before(s: Bytes, sep: Byte): (r: Bytes)
    ensures r <= s && sep !in r
  {
    s[..IndexOf(s, sep)]
  }

  function After(s: Bytes, sep: Byte): (r: Bytes)
    ensures sep in s ==> s == Before(s, sep) + [sep] + r
    ensures sep !in s ==> r == [] && Before(s, sep) == s
    ensures s != [] ==> |r| < |s|
  {
    var i := IndexOf(s, sep);
    if i < |s| then s[i + 1..] else []
  }

  /** There is only one way to split at the first separator. */
  lemma {:induction false} CutUnique(before: Bytes, sep: Byte, after: Bytes)
    requires sep !in before
    ensures Before(before + [sep] + after, sep) == before
    ensures After(before + [sep] + after, sep) == after
  {
    var s := before + [sep] + after;
    if before != [] {
      CutUnique(before[1..], sep, after);
      assert s[1..] == before[1..] + [sep] + after;
    }
    assert IndexOf(s, sep) == |before|;
  }

  lemma CutAbsent(s: Bytes, sep: Byte)
    requires sep !in s
    ensures Before(s, sep) == s && After(s, sep) == []
  {
  }

  lemma ConcatDropsFirst(u: Bytes, v: Bytes)
    requires u != []
    ensures u + v != [] && (u + v)[0] == u[0] && (u + v)[1..] == u[1..] + v
  {
  }

  lemma ConcatAssociates<T>(a: seq<T>, b: seq<T>, c: seq<T>)
    ensures a + b + c == a + (b + c)
  {
  }
}
