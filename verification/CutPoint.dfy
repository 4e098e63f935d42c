/** Which limits bring a denied parameter back: where exactly the cut has to fall. */
module CutPoint {
  import opened Bytes
  import opened Denylist
  import opened Query
  import opened Sanitize
  import opened CutSafety
  import opened Utf8

  /** The name of the segment is a denied one, whatever its value looks like. */
  predicate HasName(d: Denylist, seg: Bytes) {
    var name := Before(seg, EQUALS);
    SEMICOLON !in name && Unescape(name, true).Some? && d.Has(Unescape(name, true).value)
  }

  predicate IsReadable(value: Bytes) {
    SEMICOLON !in value && Unescape(value, true).Some?
  }

  /** How many bytes of its value remain when `at` bytes of a segment do. */
  function ValueKept(seg: Bytes, at: int): int {
    var kept := at - |Before(seg, EQUALS)| - 1;
    if kept <= |After(seg, EQUALS)| then kept else |After(seg, EQUALS)|
  }

  /** Some of the value remains, and what remains can be read. */
  predicate ReadsAt(d: Denylist, seg: Bytes, at: int) {
    var kept := ValueKept(seg, at);
    kept > 0 && HasName(d, seg) && IsReadable(After(seg, EQUALS)[..kept])
  }

  /** Where a segment starts in the query. */
  function Start(segs: seq<Bytes>, i: nat): nat
    requires i < |segs|
  {
    if i == 0 then 0 else |segs[0]| + 1 + Start(segs[1..], i - 1)
  }

  /** With `kept` bytes of the query left, the segment at `i` names a denied parameter: either the next
      segment has begun, and the whole of this one names it; or the cut leaves it a readable value. */
  predicate ReturnsAt(d: Denylist, segs: seq<Bytes>, i: nat, kept: int)
    requires i < |segs|
  {
    var at := kept - Start(segs, i);
    if i + 1 < |segs| && at > |segs[i]| + 1 then NamesDenied(d, segs[i]) else ReadsAt(d, segs[i], at)
  }

  ghost predicate AnyReturnsAt(d: Denylist, segs: seq<Bytes>, kept: int) {
    exists i: nat :: i < |segs| && ReturnsAt(d, segs, i, kept)
  }

  lemma LastReads(d: Denylist, seg: Bytes, at: nat)
    requires at <= |seg|
    ensures NamesDenied(d, seg[..at]) && ParseSegment(seg[..at]).value.value != [] <==> ReadsAt(d, seg, at)
  {
    hide Unescape;
    var cut := seg[..at];
    CutAtEquals(seg, at);
    if EQUALS in cut {
      SemicolonInCut(cut);
    } else {
      CutAbsent(cut, EQUALS);
    }
  }

  lemma CutAtEquals(seg: Bytes, at: nat)
    requires at <= |seg|
    ensures EQUALS in seg[..at] ==>
              && Before(seg[..at], EQUALS) == Before(seg, EQUALS) && 0 <= ValueKept(seg, at) <= |After(seg, EQUALS)|
              && After(seg[..at], EQUALS) == After(seg, EQUALS)[..ValueKept(seg, at)]
    ensures EQUALS !in seg[..at] ==> ValueKept(seg, at) <= 0
  {
    var cut := seg[..at];
    CutOfPrefix(cut, seg, EQUALS);
    if EQUALS in cut {
      assert cut == Before(seg, EQUALS) + [EQUALS] + After(cut, EQUALS);
    }
  }

  lemma SemicolonInCut(cut: Bytes)
    requires EQUALS in cut
    ensures SEMICOLON in cut <==> SEMICOLON in Before(cut, EQUALS) || SEMICOLON in After(cut, EQUALS)
  {
    assert cut == Before(cut, EQUALS) + [EQUALS] + After(cut, EQUALS);
  }

  lemma ReturnsInOne(d: Denylist, seg: Bytes)
    ensures ReturnsIn(d, [seg]) <==> NamesDenied(d, seg) && ParseSegment(seg).value.value != []
  {
    assert [seg][0] == seg;
  }

  lemma ReturnsInMore(d: Denylist, seg: Bytes, rest: seq<Bytes>)
    requires rest != []
    ensures ReturnsIn(d, [seg] + rest) <==> NamesDenied(d, seg) || ReturnsIn(d, rest)
  {
    hide ParseSegment;
    var segs := [seg] + rest;
    if NamesDenied(d, seg) {
      assert segs[0] == seg;
    }
    if ReturnsIn(d, rest) {
      var i :| 0 <= i < |rest| && NamesDenied(d, rest[i]) &&
               !(i == |rest| - 1 && ParseSegment(rest[i]).value.value == []);
      assert segs[i + 1] == rest[i];
    }
  }

  lemma ReturnsAtLater(d: Denylist, seg: Bytes, rest: seq<Bytes>, i: nat, kept: int)
    requires i < |rest|
    ensures ReturnsAt(d, [seg] + rest, i + 1, kept) <==> ReturnsAt(d, rest, i, kept - |seg| - 1)
  {
    var segs := [seg] + rest;
    assert segs[1..] == rest && segs[i + 1] == rest[i];
  }

  lemma AnyReturnsInMore(d: Denylist, seg: Bytes, rest: seq<Bytes>, kept: int)
    ensures AnyReturnsAt(d, [seg] + rest, kept) <==>
            ReturnsAt(d, [seg] + rest, 0, kept) || AnyReturnsAt(d, rest, kept - |seg| - 1)
  {
    var segs := [seg] + rest;
    if AnyReturnsAt(d, rest, kept - |seg| - 1) {
      var i: nat :| i < |rest| && ReturnsAt(d, rest, i, kept - |seg| - 1);
      ReturnsAtLater(d, seg, rest, i, kept);
    }
    if AnyReturnsAt(d, segs, kept) && !ReturnsAt(d, segs, 0, kept) {
      var i: nat :| i < |segs| && ReturnsAt(d, segs, i, kept);
      ReturnsAtLater(d, seg, rest, i - 1, kept);
    }
  }

  lemma {:induction false} NothingBeforeStart(d: Denylist, segs: seq<Bytes>, kept: int)
    requires kept <= 0
    ensures !AnyReturnsAt(d, segs, kept)
  {
  }

  /** The segments of a query cut to `kept` bytes. */
  lemma {:induction false} ReturnsInCut(d: Denylist, q: Bytes, kept: nat)
    requires kept <= |q|
    ensures ReturnsIn(d, Segments(q[..kept])) <==> AnyReturnsAt(d, Segments(q), kept)
    decreases |q|
  {
    if kept == 0 {
      NothingBeforeStart(d, Segments(q), kept);
    } else {
      var first, rest := Before(q, AMPERSAND), After(q, AMPERSAND);
      AnyReturnsInMore(d, first, Segments(rest), kept);
      if kept <= |first| + 1 {
        FirstIsLast(d, q, kept);
        NothingBeforeStart(d, Segments(rest), kept - |first| - 1);
      } else {
        ReturnsInCut(d, rest, kept - |first| - 1);
        CutLater(q, kept);
        ReturnsInMore(d, first, Segments(rest[..kept - |first| - 1]));
      }
    }
  }

  lemma CutLater(q: Bytes, kept: nat)
    requires |Before(q, AMPERSAND)| + 1 < kept <= |q|
    ensures var first, rest := Before(q, AMPERSAND), After(q, AMPERSAND);
            && |q| == |first| + 1 + |rest|
            && Segments(q[..kept]) == [first] + Segments(rest[..kept - |first| - 1])
            && Segments(rest[..kept - |first| - 1]) != []
            && Segments(q) == [first] + Segments(rest) && Segments(rest) != []
  {
    var first, rest := Before(q, AMPERSAND), After(q, AMPERSAND);
    var more := kept - |first| - 1;
    CutInConcat(first, rest, more);
    SegmentsOfMore(first, rest[..more]);
  }

  lemma CutInConcat(u: Bytes, v: Bytes, more: nat)
    requires more <= |v|
    ensures (u + [AMPERSAND] + v)[..|u| + 1 + more] == u + [AMPERSAND] + v[..more]
  {
  }

  lemma FirstIsLast(d: Denylist, q: Bytes, kept: nat)
    requires 0 < kept <= |q| && kept <= |Before(q, AMPERSAND)| + 1
    ensures ReturnsIn(d, Segments(q[..kept])) <==> ReturnsAt(d, Segments(q), 0, kept)
  {
    hide ReturnsIn, NamesDenied, ParseSegment, ReadsAt, ReturnsAt, Segments;
    var first := Before(q, AMPERSAND);
    FirstReads(d, q, kept);
    if kept <= |first| {
      CutInFirst(q, kept);
      ReturnsInOne(d, first[..kept]);
      LastReads(d, first, kept);
    } else {
      CutPastFirst(q);
      ReturnsInOne(d, first);
      assert first[..|first|] == first;
      LastReads(d, first, |first|);
    }
  }

  lemma FirstReads(d: Denylist, q: Bytes, kept: nat)
    requires q != [] && kept <= |Before(q, AMPERSAND)| + 1
    ensures Segments(q) != []
    ensures var first := Before(q, AMPERSAND);
            ReturnsAt(d, Segments(q), 0, kept) <==> ReadsAt(d, first, if kept <= |first| then kept else |first|)
  {
    hide HasName, IsReadable, NamesDenied;
    var first := Before(q, AMPERSAND);
    assert Segments(q)[0] == first;
    assert EQUALS in first ==> |first| == |Before(first, EQUALS)| + 1 + |After(first, EQUALS)|;
  }

  lemma CutInFirst(q: Bytes, kept: nat)
    requires 0 < kept <= |Before(q, AMPERSAND)|
    ensures kept <= |q| && Segments(q[..kept]) == [Before(q, AMPERSAND)[..kept]]
  {
    assert q[..kept] == Before(q, AMPERSAND)[..kept];
    SegmentsOfOne(q[..kept]);
  }

  lemma CutPastFirst(q: Bytes)
    requires |Before(q, AMPERSAND)| < |q|
    ensures Segments(q[..|Before(q, AMPERSAND)| + 1]) == [Before(q, AMPERSAND)]
  {
    var first := Before(q, AMPERSAND);
    assert AMPERSAND in q;
    assert q[..|first| + 1] == first + [AMPERSAND] + [];
    SegmentsOfMore(first, []);
  }

  // ---- Whole URLs ----

  /** How many bytes of its query a URL keeps when it keeps `n` bytes. */
  function QueryKept(url: Bytes, n: nat): (kept: nat)
    ensures kept <= |QueryOf(url)|
  {
    var kept := n - |HeadOf(url)|;
    if kept <= 0 then 0 else if kept <= |QueryOf(url)| then kept else |QueryOf(url)|
  }

  lemma QueryOfCutUrl(url: Bytes, n: nat)
    requires n <= |url|
    ensures QueryOf(url[..n]) == QueryOf(url)[..QueryKept(url, n)]
  {
    hide QueryOf, HeadOf;
    var q, head := QueryOf(url), HeadOf(url);
    QueryOfPrefix(url[..n], url);
    if q != [] {
      var tail := AroundQuery(url);
      PrefixOfThree(head, q, tail, n);
      if n <= |head| {
        QueryOfCut(url, []);
        assert head + [] == head;
        QueryOfPrefix(head[..n], head);
      } else if n <= |head| + |q| {
        QueryOfCut(url, q[..n - |head|]);
      } else {
        QueryOfCut(url, q);
        assert q[..|q|] == q;
        QueryOfPrefix(head + q, url[..n]);
      }
    }
  }

  lemma PrefixOfThree(u: Bytes, v: Bytes, w: Bytes, n: nat)
    requires n <= |u + v + w|
    ensures n <= |u| ==> (u + v + w)[..n] == u[..n]
    ensures |u| <= n <= |u| + |v| ==> (u + v + w)[..n] == u + v[..n - |u|]
    ensures |u| + |v| <= n ==> u + v <= (u + v + w)[..n]
  {
  }

  /** One limit: a cut URL has a denied parameter back exactly when the cut falls where it returns. */
  lemma ReturnsExactlyAt(d: Denylist, url: Bytes, limit: int)
    ensures Returns(d, Truncated(url, limit)) <==>
            AnyReturnsAt(d, Segments(QueryOf(url)), QueryKept(url, |Truncated(url, limit)|))
  {
    hide QueryOf, Truncated, QueryKept, AnyReturnsAt, ReturnsIn;
    var n := |Truncated(url, limit)|;
    assert Truncated(url, limit) == url[..n];
    QueryOfCutUrl(url, n);
    ReturnsInCut(d, QueryOf(url), QueryKept(url, n));
  }

  /** The same after stripping: never when the query is printed anew, and otherwise decided by the
      segments that came in and the number of bytes of them that the limit leaves. */
  lemma StrippedReturnsAt(d: Denylist, lib: UrlLibrary, raw: Bytes, limit: int)
    requires Reparses(lib)
    ensures var out := Stripped(d, lib, raw).out;
            Returns(d, Truncated(out, limit)) <==>
            !IsRebuilt(d, lib, raw) &&
            AnyReturnsAt(d, Segments(QueryOf(raw)), QueryKept(out, |Truncated(out, limit)|))
  {
    hide Stripped, IsRebuilt, Returns, Truncated, AnyReturnsAt, QueryKept, AnyExposes;
    var out := Stripped(d, lib, raw).out;
    ReturnsExactlyAt(d, out, limit);
    if IsRebuilt(d, lib, raw) {
      RebuiltIsSafe(d, lib, raw);
      CutIsSafe(d, out, Truncated(out, limit));
    } else {
      StripKeepsQuery(d, lib, raw);
    }
  }
}
