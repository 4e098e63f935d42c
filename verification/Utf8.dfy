/** Decoding of byte strings into runes the way the source's language does it: the sequences of
    sections 3 and 4 of RFC 3629 decode to their code point, and any other byte decodes, alone,
    to the replacement character. */
module Utf8 {
  import opened Bytes

  /** A decoded rune and the number of bytes it was decoded from. */
  datatype Rune = Rune(value: int, width: nat)

  const RUNE_ERROR := 0xFFFD
  const INVALID := Rune(RUNE_ERROR, 1)

  predicate IsContinuation(b: Byte) { 0x80 <= b <= 0xBF }

  predicate StartsWithTwo(s: Bytes) {
    |s| >= 2 && 0xC2 <= s[0] <= 0xDF && IsContinuation(s[1])
  }

  predicate StartsWithThree(s: Bytes) {
    |s| >= 3 && IsContinuation(s[1]) && IsContinuation(s[2]) &&
    ((s[0] == 0xE0 && 0xA0 <= s[1]) || 0xE1 <= s[0] <= 0xEC || (s[0] == 0xED && s[1] <= 0x9F) || 0xEE <= s[0] <= 0xEF)
  }

  predicate StartsWithFour(s: Bytes) {
    |s| >= 4 && IsContinuation(s[1]) && IsContinuation(s[2]) && IsContinuation(s[3]) &&
    ((s[0] == 0xF0 && 0x90 <= s[1]) || 0xF1 <= s[0] <= 0xF3 || (s[0] == 0xF4 && s[1] <= 0x8F))
  }

  /** The payload bits of a leading byte after `tag`, or of a continuation byte. */
  function Payload(b: Byte, tag: int): int { b as int - tag }

  function DecodeRune(s: Bytes): (r: Rune)
    requires s != []
    ensures 1 <= r.width <= 4 && r.width <= |s|
  {
    if s[0] < 0x80 then Rune(s[0], 1)
    else if StartsWithTwo(s) then Rune(Payload(s[0], 0xC0) * 64 + Payload(s[1], 0x80), 2)
    else if StartsWithThree(s) then
      Rune(Payload(s[0], 0xE0) * 4096 + Payload(s[1], 0x80) * 64 + Payload(s[2], 0x80), 3)
    else if StartsWithFour(s) then
      Rune(Payload(s[0], 0xF0) * 262144 + Payload(s[1], 0x80) * 4096 + Payload(s[2], 0x80) * 64 +
           Payload(s[3], 0x80), 4)
    else INVALID
  }

  /** Only the first byte of a rune can start one. */
  lemma ContinuationsFollow(s: Bytes)
    requires s != []
    ensures forall k | 1 <= k < DecodeRune(s).width :: IsContinuation(s[k])
    ensures DecodeRune(s) != INVALID ==> !IsContinuation(s[0])
  {
  }

  predicate IsScalar(v: int) { 0 <= v <= 0xD7FF || 0xE000 <= v <= 0x10FFFF }

  /** The encoding of a scalar value, section 3 of RFC 3629. */
  function EncodeRune(v: int): (r: Bytes)
    requires IsScalar(v)
    ensures 1 <= |r| <= 4
  {
    if v < 0x80 then [v]
    else if v < 0x800 then [0xC0 + v / 64, 0x80 + v % 64]
    else if v < 0x10000 then [0xE0 + v / 4096, 0x80 + v / 64 % 64, 0x80 + v % 64]
    else [0xF0 + v / 262144, 0x80 + v / 4096 % 64, 0x80 + v / 64 % 64, 0x80 + v % 64]
  }

  /** The code point whose six-bit groups are `a`, `b`, `c` and `d`. */
  function Join(a: int, b: int, c: int, d: int): int { a * 262144 + b * 4096 + c * 64 + d }

  lemma SixBits(v: int)
    requires 0 <= v
    ensures v == Join(v / 262144, v / 4096 % 64, v / 64 % 64, v % 64)
    ensures v / 4096 == v / 262144 * 64 + v / 4096 % 64 && v / 64 == v / 4096 * 64 + v / 64 % 64
  {
    assert v / 64 / 64 == v / 4096 && v / 4096 / 64 == v / 262144;
  }

  lemma SixBitsUnique(a: int, b: int, c: int, d: int)
    requires 0 <= a && 0 <= b < 64 && 0 <= c < 64 && 0 <= d < 64
    ensures var v := Join(a, b, c, d);
            v / 262144 == a && v / 4096 % 64 == b && v / 64 % 64 == c && v % 64 == d
  {
    var v := Join(a, b, c, d);
    assert v / 64 == a * 4096 + b * 64 + c;
    assert v / 4096 == a * 64 + b;
  }

  lemma DecodeThree(s: Bytes)
    requires StartsWithThree(s)
    ensures DecodeRune(s) == Rune(Join(0, Payload(s[0], 0xE0), Payload(s[1], 0x80), Payload(s[2], 0x80)), 3)
  {
  }

  lemma DecodeFour(s: Bytes)
    requires StartsWithFour(s)
    ensures DecodeRune(s) ==
            Rune(Join(Payload(s[0], 0xF0), Payload(s[1], 0x80), Payload(s[2], 0x80), Payload(s[3], 0x80)), 4)
  {
  }

  /** The decoder recognises every encoding, whatever follows it ... */
  lemma DecodeEncode(v: int, rest: Bytes)
    requires IsScalar(v)
    ensures DecodeRune(EncodeRune(v) + rest) == Rune(v, |EncodeRune(v)|)
  {
    var e := EncodeRune(v);
    var s := e + rest;
    SixBits(v);
    assert s[0] == e[0] && (|e| > 1 ==> s[1] == e[1]) && (|e| > 2 ==> s[2] == e[2]) && (|e| > 3 ==> s[3] == e[3]);
    if v >= 0x10000 {
      DecodeFour(s);
    } else if v >= 0x800 {
      DecodeThree(s);
    }
  }

  /** ... and nothing else: a rune that is not the one-byte replacement is an encoding. */
  lemma EncodeDecode(s: Bytes)
    requires s != [] && DecodeRune(s) != INVALID
    ensures IsScalar(DecodeRune(s).value) && s[..DecodeRune(s).width] == EncodeRune(DecodeRune(s).value)
  {
    if StartsWithTwo(s) {
      SixBitsUnique(0, 0, Payload(s[0], 0xC0), Payload(s[1], 0x80));
    } else if StartsWithThree(s) {
      EncodeThree(s);
    } else if StartsWithFour(s) {
      EncodeFour(s);
    }
  }

  lemma EncodeThree(s: Bytes)
    requires StartsWithThree(s)
    ensures IsScalar(DecodeRune(s).value) && s[..3] == EncodeRune(DecodeRune(s).value)
  {
    DecodeThree(s);
    SixBitsUnique(0, Payload(s[0], 0xE0), Payload(s[1], 0x80), Payload(s[2], 0x80));
  }

  lemma EncodeFour(s: Bytes)
    requires StartsWithFour(s)
    ensures IsScalar(DecodeRune(s).value) && s[..4] == EncodeRune(DecodeRune(s).value)
  {
    DecodeFour(s);
    EncodeJoin(Payload(s[0], 0xF0), Payload(s[1], 0x80), Payload(s[2], 0x80), Payload(s[3], 0x80));
    hide DecodeRune;
    assert s[..4] == [s[0], s[1], s[2], s[3]];
  }

  lemma EncodeJoin(a: int, b: int, c: int, d: int)
    requires 0 <= a <= 4 && 0 <= b < 64 && 0 <= c < 64 && 0 <= d < 64
    requires (a == 0 ==> 0x10 <= b) && (a == 4 ==> b < 0x10)
    ensures IsScalar(Join(a, b, c, d))
    ensures EncodeRune(Join(a, b, c, d)) == [0xF0 + a, 0x80 + b, 0x80 + c, 0x80 + d]
  {
    SixBitsUnique(a, b, c, d);
  }

  function Runes(s: Bytes): (rs: seq<Rune>)
    ensures |rs| <= |s|
    ensures s != [] ==> rs != []
  {
    if s == [] then []
    else
      var r := DecodeRune(s);
      [r] + Runes(s[r.width..])
  }

  predicate IsValid(s: Bytes) { INVALID !in Runes(s) }

  /** The byte offset at which the k-th rune of `s` starts. */
  function Offset(s: Bytes, k: nat): (o: nat)
    requires k <= |Runes(s)|
    ensures k <= o <= |s|
    ensures o == |s| <==> k == |Runes(s)|
  {
    if k == 0 then 0
    else
      var w := DecodeRune(s).width;
      w + Offset(s[w..], k - 1)
  }

  lemma {:induction false} OffsetStep(s: Bytes, k: nat)
    requires k < |Runes(s)|
    ensures Offset(s, k) < |s|
    ensures Offset(s, k + 1) == Offset(s, k) + DecodeRune(s[Offset(s, k)..]).width
    decreases k
  {
    hide DecodeRune;
    var w := DecodeRune(s).width;
    var tail := s[w..];
    if k == 0 {
      assert s[0..] == s;
      assert Offset(tail, 0) == 0;
    } else {
      var o := Offset(tail, k - 1);
      OffsetStep(tail, k - 1);
      OffsetCons(s, tail, k);
      OffsetCons(s, tail, k + 1);
      DropTwice(s, w, o);
    }
  }

  lemma OffsetCons(s: Bytes, tail: Bytes, k: nat)
    requires s != [] && tail == s[DecodeRune(s).width..] && 0 < k <= |Runes(tail)| + 1
    ensures Offset(s, k) == DecodeRune(s).width + Offset(tail, k - 1)
  {
  }

  lemma DropTwice(s: Bytes, m: nat, n: nat)
    requires m + n <= |s|
    ensures s[m..][n..] == s[m + n..]
  {
  }

  /** A rune is decoded the same way once the string is cut anywhere after it. */
  lemma DecodePrefix(p: Bytes, s: Bytes)
    requires p <= s && s != [] && |p| >= DecodeRune(s).width
    ensures DecodeRune(p) == DecodeRune(s)
  {
  }

  /** Cutting at a rune's start keeps exactly the runes before it. */
  lemma {:induction false} RunesOfCut(s: Bytes, k: nat)
    requires k <= |Runes(s)|
    ensures Runes(s[..Offset(s, k)]) == Runes(s)[..k]
    decreases k
  {
    hide DecodeRune;
    if k > 0 {
      var tail := s[DecodeRune(s).width..];
      RunesOfCut(tail, k - 1);
      CutAfterFirst(s, tail, Offset(tail, k - 1));
      TakeCons(DecodeRune(s), Runes(tail), k);
    }
  }

  lemma TakeCons(r: Rune, rest: seq<Rune>, k: nat)
    requires 0 < k <= |rest| + 1
    ensures ([r] + rest)[..k] == [r] + rest[..k - 1]
  {
  }

  lemma CutAfterFirst(s: Bytes, tail: Bytes, o: nat)
    requires s != [] && tail == s[DecodeRune(s).width..] && o <= |tail|
    ensures Runes(s[..DecodeRune(s).width + o]) == [DecodeRune(s)] + Runes(tail[..o])
  {
    var w := DecodeRune(s).width;
    var cut := s[..w + o];
    DecodePrefix(cut, s);
    assert cut[w..] == tail[..o];
  }

  function Width(rs: seq<Rune>): nat {
    if rs == [] then 0 else rs[0].width + Width(rs[1..])
  }

  lemma {:induction false} WidthOfRunes(s: Bytes)
    ensures Width(Runes(s)) == |s|
    decreases |s|
  {
    if s != [] {
      WidthOfRunes(s[DecodeRune(s).width..]);
    }
  }

  /** Two prefixes of one string with the same runes are the same prefix. */
  lemma PrefixFromRunes(p: Bytes, q: Bytes, s: Bytes)
    requires p <= s && q <= s && Runes(p) == Runes(q)
    ensures p == q
  {
    WidthOfRunes(p);
    WidthOfRunes(q);
  }

  /** Decoding resynchronises: a string splits into runes on either side of any byte that is not
      a continuation byte. */
  lemma {:induction false} RunesConcat(u: Bytes, v: Bytes)
    requires v != [] ==> !IsContinuation(v[0])
    ensures Runes(u + v) == Runes(u) + Runes(v)
    decreases |u|
  {
    hide DecodeRune;
    if v == [] {
      assert u + v == u;
    } else if u == [] {
      assert u + v == v;
    } else {
      var w := DecodeRune(u + v).width;
      ContinuationsFollow(u + v);
      assert (u + v)[|u|] == v[0];
      assert w <= |u|;
      DecodePrefix(u, u + v);
      assert (u + v)[w..] == u[w..] + v;
      RunesConcat(u[w..], v);
    }
  }

  // ---- Truncation ----

  /** What truncation to `limit` runes keeps: everything, unless the limit is positive. */
  function Truncated(s: Bytes, limit: int): (r: Bytes)
    ensures r <= s
  {
    if limit <= 0 || |Runes(s)| <= limit then s else s[..Offset(s, limit)]
  }

  /** Walks over the runes up to the first that no longer fits. */
  method TruncateRunes(s: Bytes, limit: int) returns (out: Bytes, truncated: bool)
    ensures out == Truncated(s, limit)
    ensures truncated <==> 0 < limit < |Runes(s)|
  {
    if limit <= 0 || |Runes(s)| <= limit {
      return s, false;
    }
    var seen, i := 0, 0;
    while i < |s|
      invariant 0 <= seen <= limit
      invariant i == Offset(s, seen)
    {
      if seen == limit {
        return s[..i], true;
      }
      OffsetStep(s, seen);
      i := i + DecodeRune(s[i..]).width;
      seen := seen + 1;
    }
    // The range always meets the limit first: the source's last return is unreachable.
    assert false;
  }

  /** Truncation keeps the first runes, as many as fit, and is the only prefix that does. */
  lemma TruncationExact(s: Bytes, limit: int)
    requires limit > 0
    ensures var n := |Runes(s)|;
            var kept := if n <= limit then n else limit;
            Runes(Truncated(s, limit)) == Runes(s)[..kept] &&
            (forall p: Bytes | p <= s && Runes(p) == Runes(s)[..kept] :: p == Truncated(s, limit))
  {
    var out := Truncated(s, limit);
    if |Runes(s)| > limit {
      RunesOfCut(s, limit);
    }
    forall p: Bytes | p <= s && Runes(p) == Runes(out) ensures p == out {
      PrefixFromRunes(p, out, s);
    }
  }

  /** Truncation preserves validity, reports itself exactly, and is settled after one cut. */
  lemma TruncationSettles(s: Bytes, limit: int)
    ensures IsValid(s) ==> IsValid(Truncated(s, limit))
    ensures limit > 0 ==> |Runes(Truncated(s, limit))| <= limit
    ensures Truncated(s, limit) != s <==> 0 < limit < |Runes(s)|
    ensures Truncated(Truncated(s, limit), limit) == Truncated(s, limit)
  {
    if limit > 0 {
      TruncationExact(s, limit);
    }
  }
}
