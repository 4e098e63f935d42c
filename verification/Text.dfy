/** Trimming of white space, and the trim-then-cut that every bounded column goes through. */
module Text {
  import opened Bytes
  import opened Utf8

  /** The code points with the Unicode White_Space property. */
  predicate IsSpace(r: int) {
    0x09 <= r <= 0x0D || r == 0x20 || r == 0x85 || r == 0xA0 || r == 0x1680 || 0x2000 <= r <= 0x200A ||
    r == 0x2028 || r == 0x2029 || r == 0x202F || r == 0x205F || r == 0x3000
  }

  /** The position of the nearest byte before `end`, at most `steps` back, that can start a rune; where
      the search gave up when there is none. */
  function BackToStart(s: Bytes, end: nat, steps: nat): (start: nat)
    requires end <= |s|
    ensures start <= end
    decreases steps
  {
    if end == 0 || steps == 0 then end
    else if !IsContinuation(s[end - 1]) then end - 1
    else BackToStart(s, end - 1, steps - 1)
  }

  /** The last rune: the one that starts at the nearest possible start, provided it reaches the
      end of the string. */
  function DecodeLastRune(s: Bytes): (r: Rune)
    requires s != []
    ensures 1 <= r.width <= |s|
    ensures r == INVALID || r == DecodeRune(s[|s| - r.width..])
  {
    var start := BackToStart(s, |s|, 4);
    if start < |s| && start + DecodeRune(s[start..]).width == |s| then DecodeRune(s[start..]) else INVALID
  }

  function TrimLeft(s: Bytes): (r: Bytes)
    ensures |r| <= |s|
  {
    if s != [] && IsSpace(DecodeRune(s).value) then TrimLeft(s[DecodeRune(s).width..]) else s
  }

  function TrimRight(s: Bytes): (r: Bytes)
    ensures |r| <= |s|
  {
    if s != [] && IsSpace(DecodeLastRune(s).value) then TrimRight(s[..|s| - DecodeLastRune(s).width]) else s
  }

  function TrimSpace(s: Bytes): (r: Bytes)
    ensures |r| <= |s|
  {
    TrimRight(TrimLeft(s))
  }

  predicate IsTrimmed(s: Bytes) {
    s != [] ==> !IsSpace(DecodeRune(s).value) && !IsSpace(DecodeLastRune(s).value)
  }

  /** A prefix of a string without leading space has no leading space either. */
  lemma PrefixKeepsStart(p: Bytes, s: Bytes)
    requires p != [] && p <= s && IsSpace(DecodeRune(p).value)
    ensures IsSpace(DecodeRune(s).value)
  {
    var r := DecodeRune(p);
    EncodeDecode(p);
    DecodeEncode(r.value, s[r.width..]);
    assert s == EncodeRune(r.value) + s[r.width..];
  }

  lemma {:induction false} TrimLeftTrims(s: Bytes)
    ensures TrimLeft(s) != [] ==> !IsSpace(DecodeRune(TrimLeft(s)).value)
    decreases |s|
  {
    if s != [] && IsSpace(DecodeRune(s).value) {
      TrimLeftTrims(s[DecodeRune(s).width..]);
    }
  }

  lemma {:induction false} TrimRightTrims(s: Bytes)
    ensures TrimRight(s) <= s
    ensures TrimRight(s) != [] ==> !IsSpace(DecodeLastRune(TrimRight(s)).value)
    decreases |s|
  {
    if s != [] && IsSpace(DecodeLastRune(s).value) {
      TrimRightTrims(s[..|s| - DecodeLastRune(s).width]);
    }
  }

  lemma TrimSpaceTrims(s: Bytes)
    ensures IsTrimmed(TrimSpace(s))
  {
    var l, t := TrimLeft(s), TrimSpace(s);
    TrimLeftTrims(s);
    TrimRightTrims(l);
    if t != [] && IsSpace(DecodeRune(t).value) {
      PrefixKeepsStart(t, l);
      assert false;
    }
  }

  lemma TrimmedIsFixed(s: Bytes)
    requires IsTrimmed(s)
    ensures TrimSpace(s) == s
  {
  }

  lemma RunesOfOne(s: Bytes)
    requires s != [] && DecodeRune(s).width == |s|
    ensures Runes(s) == [DecodeRune(s)]
  {
    assert s[|s|..] == [];
  }

  /** The last rune of a string, when it is not a stray byte, really is the last of its runes. */
  lemma {:induction false} LastRuneIsLast(s: Bytes)
    requires s != [] && DecodeLastRune(s) != INVALID
    ensures Runes(s) == Runes(s[..|s| - DecodeLastRune(s).width]) + [DecodeLastRune(s)]
  {
    var r := DecodeLastRune(s);
    var u, v := s[..|s| - r.width], s[|s| - r.width..];
    assert s == u + v;
    ContinuationsFollow(v);
    RunesConcat(u, v);
    RunesOfOne(v);
  }

  lemma {:induction false} RunesOfTrimRight(s: Bytes)
    ensures Runes(TrimRight(s)) <= Runes(s)
    decreases |s|
  {
    if s != [] && IsSpace(DecodeLastRune(s).value) {
      LastRuneIsLast(s);
      RunesOfTrimRight(s[..|s| - DecodeLastRune(s).width]);
    }
  }

  function LastOf(rs: seq<Rune>): Rune
    requires rs != []
  {
    rs[|rs| - 1]
  }

  /** Where the last rune starts. */
  lemma {:induction false} LastStart(s: Bytes) returns (o: nat)
    requires s != []
    ensures o < |s| && DecodeRune(s[o..]) == LastOf(Runes(s)) && DecodeRune(s[o..]).width == |s| - o
    decreases |s|
  {
    hide DecodeRune;
    var w := DecodeRune(s).width;
    if w == |s| {
      o := 0;
      assert s[0..] == s && s[w..] == [];
    } else {
      var o' := LastStart(s[w..]);
      o := w + o';
      DropTwice(s, w, o');
    }
  }

  lemma {:induction false} BackToIt(s: Bytes, start: nat, end: nat, steps: nat)
    requires start < end <= |s| && end - start <= steps && !IsContinuation(s[start])
    requires forall j | start < j < end :: IsContinuation(s[j])
    ensures BackToStart(s, end, steps) == start
    decreases end
  {
    if start < end - 1 {
      BackToIt(s, start, end - 1, steps - 1);
    }
  }

  /** Reading backwards finds a space exactly when the last rune is one. */
  lemma SpaceIsLast(s: Bytes)
    requires s != []
    ensures IsSpace(DecodeLastRune(s).value) <==> IsSpace(LastOf(Runes(s)).value)
  {
    if IsSpace(DecodeLastRune(s).value) {
      LastRuneIsLast(s);
    } else if IsSpace(LastOf(Runes(s)).value) {
      var o := LastStart(s);
      ContinuationsFollow(s[o..]);
      forall j | o < j < |s| ensures IsContinuation(s[j]) {
        assert s[j] == s[o..][j - o];
      }
      BackToIt(s, o, |s|, 4);
      assert false;
    }
  }

  // ---- Trimming takes space only, and all of it ----

  predicate AllSpace(s: Bytes) {
    forall i | 0 <= i < |Runes(s)| :: IsSpace(Runes(s)[i].value)
  }

  lemma AllSpaceCons(s: Bytes)
    requires s != []
    ensures AllSpace(s) <==> IsSpace(DecodeRune(s).value) && AllSpace(s[DecodeRune(s).width..])
  {
    hide DecodeRune, IsSpace;
    var r := DecodeRune(s);
    var rest := Runes(s[r.width..]);
    assert Runes(s) == [r] + rest;
    assert Runes(s)[0] == r;
    assert forall i | 0 <= i < |rest| :: Runes(s)[i + 1] == rest[i];
  }

  /** A space is recognised whatever follows it. */
  lemma SpaceDecodes(s: Bytes, rest: Bytes)
    requires s != [] && IsSpace(DecodeRune(s).value)
    ensures DecodeRune(s + rest) == DecodeRune(s) && DecodeRune(s) != INVALID
    ensures (s + rest)[DecodeRune(s).width..] == s[DecodeRune(s).width..] + rest
  {
    var r := DecodeRune(s);
    EncodeDecode(s);
    DecodeEncode(r.value, s[r.width..] + rest);
    assert s + rest == EncodeRune(r.value) + (s[r.width..] + rest);
  }

  lemma {:induction false} TrimLeftDrops(lead: Bytes, s: Bytes)
    requires AllSpace(lead)
    ensures TrimLeft(lead + s) == TrimLeft(s)
    decreases |lead|
  {
    if lead == [] {
      assert lead + s == s;
    } else {
      AllSpaceCons(lead);
      SpaceDecodes(lead, s);
      TrimLeftDrops(lead[DecodeRune(lead).width..], s);
    }
  }

  lemma {:induction false} TrimLeftSplits(s: Bytes) returns (lead: Bytes)
    ensures s == lead + TrimLeft(s) && AllSpace(lead)
    decreases |s|
  {
    if s != [] && IsSpace(DecodeRune(s).value) {
      var w := DecodeRune(s).width;
      var lead' := TrimLeftSplits(s[w..]);
      lead := s[..w] + lead';
      assert s == s[..w] + s[w..];
      DecodePrefix(lead, s);
      assert lead[w..] == lead';
      AllSpaceCons(lead);
    } else {
      lead := [];
    }
  }

  lemma SpaceStarts(s: Bytes)
    requires AllSpace(s) && s != []
    ensures !IsContinuation(s[0])
  {
    AllSpaceCons(s);
    ContinuationsFollow(s);
  }

  lemma AllSpaceConcat(u: Bytes, v: Bytes)
    requires v != [] ==> !IsContinuation(v[0])
    ensures AllSpace(u + v) <==> AllSpace(u) && AllSpace(v)
  {
    hide IsSpace;
    RunesConcat(u, v);
    var a, b := Runes(u), Runes(v);
    assert forall i | 0 <= i < |a| :: (a + b)[i] == a[i];
    assert forall i | 0 <= i < |b| :: (a + b)[|a| + i] == b[i];
  }

  /** The last rune of what ends in a rune is that rune. */
  lemma LastOfConcat(u: Bytes, v: Bytes)
    requires v != [] && !IsContinuation(v[0]) && DecodeRune(v).width == |v|
    ensures DecodeLastRune(u + v) == DecodeRune(v)
  {
    ContinuationsFollow(v);
    var s := u + v;
    assert s[|u|..] == v;
    forall j | |u| < j < |s| ensures IsContinuation(s[j]) {
      assert s[j] == v[j - |u|];
    }
    BackToIt(s, |u|, |s|, 4);
  }

  lemma SplitLast(s: Bytes) returns (u: Bytes, v: Bytes)
    requires AllSpace(s) && s != []
    ensures s == u + v && v != [] && !IsContinuation(v[0]) && DecodeRune(v).width == |v| && IsSpace(DecodeRune(v).value)
    ensures AllSpace(u)
  {
    var o := LastStart(s);
    u, v := s[..o], s[o..];
    assert s == u + v;
    ContinuationsFollow(v);
    assert IsSpace(LastOf(Runes(s)).value);
    AllSpaceConcat(u, v);
  }

  lemma {:induction false} TrimRightDrops(s: Bytes, trail: Bytes)
    requires AllSpace(trail)
    ensures TrimRight(s + trail) == TrimRight(s)
    decreases |trail|
  {
    if trail == [] {
      assert s + trail == s;
    } else {
      var u, v := SplitLast(trail);
      ConcatAssociates(s, u, v);
      LastOfConcat(s + u, v);
      assert (s + u + v)[..|s + u + v| - |v|] == s + u;
      TrimRightDrops(s, u);
    }
  }

  lemma {:induction false} TrimRightSplits(s: Bytes) returns (trail: Bytes)
    ensures s == TrimRight(s) + trail && AllSpace(trail)
    decreases |s|
  {
    if s != [] && IsSpace(DecodeLastRune(s).value) {
      var n := |s| - DecodeLastRune(s).width;
      var trail' := TrimRightSplits(s[..n]);
      trail := trail' + s[n..];
      LastIsSpace(s);
      AllSpaceConcat(trail', s[n..]);
      assert s == s[..n] + s[n..];
      ConcatAssociates(TrimRight(s), trail', s[n..]);
    } else {
      trail := [];
      assert s + [] == s;
    }
  }

  lemma LastIsSpace(s: Bytes)
    requires s != [] && IsSpace(DecodeLastRune(s).value)
    ensures var v := s[|s| - DecodeLastRune(s).width..]; v != [] && !IsContinuation(v[0]) && AllSpace(v)
  {
    var v := s[|s| - DecodeLastRune(s).width..];
    ContinuationsFollow(v);
    RunesOfOne(v);
  }

  /** The middle of a string between spaces, when no space is at either of its ends. */
  ghost predicate IsCore(s: Bytes, core: Bytes) {
    IsTrimmed(core) && exists lead: Bytes, trail: Bytes :: IsBetween(s, lead, core, trail)
  }

  predicate IsBetween(s: Bytes, lead: Bytes, core: Bytes, trail: Bytes) {
    s == lead + core + trail && AllSpace(lead) && AllSpace(trail)
  }

  /** Trimming removes only white space, and is the only result without white space at its ends that
      is obtained that way. */
  lemma TrimSpaceExactly(s: Bytes, core: Bytes)
    ensures IsCore(s, core) <==> core == TrimSpace(s)
  {
    TrimSpaceTrims(s);
    var lead := TrimLeftSplits(s);
    var trail := TrimRightSplits(TrimLeft(s));
    ConcatAssociates(lead, TrimSpace(s), trail);
    assert IsBetween(s, lead, TrimSpace(s), trail);
    if IsCore(s, core) {
      var lead', trail' :| IsBetween(s, lead', core, trail');
      CoreIsTrimmed(lead', core, trail');
    }
  }

  lemma CoreIsTrimmed(lead: Bytes, core: Bytes, trail: Bytes)
    requires IsTrimmed(core) && AllSpace(lead) && AllSpace(trail)
    ensures TrimSpace(lead + core + trail) == core
  {
    ConcatAssociates(lead, core, trail);
    TrimLeftDrops(lead, core + trail);
    if core == [] {
      assert core + trail == trail && trail + [] == trail;
      TrimLeftDrops(trail, []);
    } else {
      StartStays(core, trail);
      TrimRightDrops(core, trail);
    }
  }

  lemma StartStays(core: Bytes, trail: Bytes)
    requires core != [] && !IsSpace(DecodeRune(core).value) && AllSpace(trail)
    ensures TrimLeft(core + trail) == core + trail
  {
    if trail != [] {
      SpaceStarts(trail);
    }
    RunesConcat(core, trail);
    assert Runes(core + trail)[0] == Runes(core)[0];
  }

  // ---- Bounded columns ----

  /** What a bounded column stores for a raw value. */
  function BoundedText(raw: Bytes, limit: int): Bytes {
    Truncated(TrimSpace(raw), limit)
  }

  /** A bounded value is the only prefix of the trimmed input that holds as many of its runes as
      fit, and it starts with no space. It may still end in one, where the cut fell. */
  lemma BoundedIsExact(raw: Bytes, limit: int)
    requires limit > 0
    ensures var t, b := TrimSpace(raw), BoundedText(raw, limit);
            var kept := if |Runes(t)| <= limit then |Runes(t)| else limit;
            && b <= t && Runes(b) == Runes(t)[..kept] && |Runes(b)| <= limit
            && (b != [] ==> !IsSpace(DecodeRune(b).value))
  {
    var t, b := TrimSpace(raw), BoundedText(raw, limit);
    TruncationExact(t, limit);
    TrimSpaceTrims(raw);
    if b != [] && IsSpace(DecodeRune(b).value) {
      PrefixKeepsStart(b, t);
      assert false;
    }
  }

  lemma BoundedAgain(b: Bytes, limit: int)
    requires limit > 0 && |Runes(b)| <= limit
    requires b != [] ==> !IsSpace(DecodeRune(b).value)
    ensures BoundedText(b, limit) == TrimRight(b) && |Runes(TrimRight(b))| <= limit
    ensures TrimRight(b) == b <==> (b == [] || !IsSpace(DecodeLastRune(b).value))
  {
    assert TrimLeft(b) == b;
    RunesOfTrimRight(b);
  }

  /** From the second application on, bounding is settled: trimmed, within the limit, and fixed.
      The first application is already settled exactly when nothing was cut, or the last rune
      that fits is no space. */
  lemma BoundedStabilises(raw: Bytes, limit: int)
    requires limit > 0
    ensures var b1 := BoundedText(raw, limit);
            var b2 := BoundedText(b1, limit);
            && b2 == TrimRight(b1) && IsTrimmed(b2) && |Runes(b2)| <= limit
            && BoundedText(b2, limit) == b2
            && (b2 == b1 <==> (b1 == [] || !IsSpace(DecodeLastRune(b1).value)))
    ensures var rs := Runes(TrimSpace(raw));
            BoundedText(BoundedText(raw, limit), limit) == BoundedText(raw, limit) <==>
            |rs| <= limit || !IsSpace(rs[limit - 1].value)
  {
    var b1 := BoundedText(raw, limit);
    BoundedIsExact(raw, limit);
    BoundedAgain(b1, limit);
    TrimSpaceTrims(b1);
    BoundedAgain(TrimRight(b1), limit);
    BoundedEnds(raw, limit);
  }

  /** A bounded value ends in a space exactly when the cut fell after one. */
  lemma BoundedEnds(raw: Bytes, limit: int)
    requires limit > 0
    ensures var b, rs := BoundedText(raw, limit), Runes(TrimSpace(raw));
            b == [] || !IsSpace(DecodeLastRune(b).value) <==> |rs| <= limit || !IsSpace(rs[limit - 1].value)
  {
    var b := BoundedText(raw, limit);
    TruncationExact(TrimSpace(raw), limit);
    TrimSpaceTrims(raw);
    if b != [] {
      SpaceIsLast(b);
    }
  }

  lemma {:induction false} RunesOfAscii(s: Bytes)
    requires forall i | 0 <= i < |s| :: s[i] < 0x80
    ensures |Runes(s)| == |s|
    ensures forall k | 0 <= k <= |s| :: Offset(s, k) == k
  {
    if s != [] {
      RunesOfAscii(s[1..]);
      forall k | 0 < k <= |s| ensures Offset(s, k) == k {
        assert Offset(s[1..], k - 1) == k - 1;
      }
    }
  }

  lemma TruncatedAscii(s: Bytes, limit: nat)
    requires 0 < limit && forall i | 0 <= i < |s| :: s[i] < 0x80
    ensures Truncated(s, limit) == if limit < |s| then s[..limit] else s
  {
    RunesOfAscii(s);
  }

  lemma TrimSpaceAtEnd(b: Byte)
    requires b < 0x80 && !IsSpace(b)
    ensures TrimSpace([b, SPACE]) == [b]
  {
    var s: Bytes := [b, SPACE];
    assert s[..1] == [b];
    assert TrimLeft(s) == s;
    assert TrimRight(s) == TrimRight(s[..1]);
  }

  /** One application is not enough in general: the cut can fall just after a space. */
  lemma BoundedOnceIsNotFixed()
    ensures BoundedText([0x61, SPACE, 0x62], 2) == [0x61, SPACE]
    ensures BoundedText([0x61, SPACE], 2) == [0x61]
  {
    hide TrimSpace, Truncated;
    var s: Bytes := [0x61, SPACE, 0x62];
    TrimmedIsFixed(s);
    TruncatedAscii(s, 2);
    assert s[..2] == [0x61, SPACE];
    TrimSpaceAtEnd(0x61);
    TruncatedAscii([0x61], 2);
  }
}
