/** Cutting a sanitised URL to its limit can shorten its last parameter. When can that bring a
    denied parameter back? */
module CutSafety {
  import opened Bytes
  import opened Denylist
  import opened Query
  import opened Sanitize
  import opened Utf8
  import Ordering
  import Text

  /** A denied parameter is back in the query of `url`: it is not the last segment with an empty
      value, the harmless leftover of a name that was cut short. */
  ghost predicate Returns(d: Denylist, url: Bytes) {
    ReturnsIn(d, Segments(QueryOf(url)))
  }

  ghost predicate ReturnsIn(d: Denylist, segs: seq<Bytes>) {
    exists i :: 0 <= i < |segs| && NamesDenied(d, segs[i]) &&
                !(i == |segs| - 1 && ParseSegment(segs[i]).value.value == [])
  }

  predicate NamesDenied(d: Denylist, seg: Bytes) {
    var p := ParseSegment(seg);
    p.Some? && d.Has(p.value.name)
  }

  /** Whether the value's first byte or escape can be read, whatever comes after it. */
  predicate StartsWell(value: Bytes) {
    value != [] && value[0] != SEMICOLON && (value[0] == PERCENT ==> IsEscape(value))
  }

  /** A segment the parser skips, although its name is a denied one and its value starts well. */
  predicate Exposes(d: Denylist, seg: Bytes) {
    var name := Before(seg, EQUALS);
    && ParseSegment(seg).None?
    && SEMICOLON !in name && Unescape(name, true).Some? && d.Has(Unescape(name, true).value)
    && StartsWell(After(seg, EQUALS))
  }

  ghost predicate AnyExposes(d: Denylist, segs: seq<Bytes>) {
    exists i :: 0 <= i < |segs| && Exposes(d, segs[i])
  }

  ghost predicate AnyNamesDenied(d: Denylist, segs: seq<Bytes>) {
    exists i :: 0 <= i < |segs| && NamesDenied(d, segs[i])
  }

  // ---- Cutting keeps the segments before the cut ----

  lemma CutOfPrefix(p: Bytes, s: Bytes, sep: Byte)
    requires p <= s
    ensures Before(p, sep) <= Before(s, sep) && After(p, sep) <= After(s, sep)
    ensures sep in p ==> Before(p, sep) == Before(s, sep)
  {
    if sep in p {
      var b, a := Before(p, sep), After(p, sep);
      assert s == b + [sep] + (a + s[|p|..]);
      CutUnique(b, sep, a + s[|p|..]);
    } else {
      assert forall k | 0 <= k < |p| :: s[k] == p[k];
      assert IndexOf(s, sep) >= |p|;
    }
  }

  lemma QueryOfPrefix(p: Bytes, s: Bytes)
    requires p <= s
    ensures QueryOf(p) <= QueryOf(s)
  {
    CutOfPrefix(p, s, HASH);
    CutOfPrefix(Before(p, HASH), Before(s, HASH), QUESTION);
  }

  /** `a` is `b` cut short: the same segments, the last of them possibly shortened. */
  predicate IsCutOf(a: seq<Bytes>, b: seq<Bytes>) {
    |a| <= |b| && (forall i | 0 <= i < |a| - 1 :: a[i] == b[i]) && (a != [] ==> a[|a| - 1] <= b[|a| - 1])
  }

  lemma IsCutOfMore(x: Bytes, a: seq<Bytes>, y: Bytes, b: seq<Bytes>)
    requires x <= y && IsCutOf(a, b) && (a != [] ==> x == y)
    ensures IsCutOf([x] + a, [y] + b)
  {
    var a', b' := [x] + a, [y] + b;
    forall i | 0 <= i < |a'| - 1 ensures a'[i] == b'[i] {
      assert i > 0 ==> a'[i] == a[i - 1] && b'[i] == b[i - 1];
    }
  }

  lemma {:induction false} SegmentsOfPrefix(p: Bytes, q: Bytes)
    requires p <= q
    ensures IsCutOf(Segments(p), Segments(q))
    decreases |p|
  {
    if p != [] {
      CutOfPrefix(p, q, AMPERSAND);
      SegmentsOfPrefix(After(p, AMPERSAND), After(q, AMPERSAND));
      IsCutOfMore(Before(p, AMPERSAND), Segments(After(p, AMPERSAND)),
                  Before(q, AMPERSAND), Segments(After(q, AMPERSAND)));
    }
  }

  lemma ReadablePrefix(v: Bytes, value: Bytes)
    requires v <= value && v != [] && SEMICOLON !in v && Unescape(v, true).Some?
    ensures StartsWell(value)
  {
    assert v[0] == value[0];
  }

  /** A cut segment names a denied parameter with a value only if the whole segment does so or
      exposes it. */
  lemma CutSegment(d: Denylist, cut: Bytes, seg: Bytes)
    requires cut <= seg && NamesDenied(d, cut) && ParseSegment(cut).value.value != []
    ensures (NamesDenied(d, seg) && ParseSegment(seg).value.value != []) || Exposes(d, seg)
  {
    CutOfPrefix(cut, seg, EQUALS);
    NotIn(cut, EQUALS, SEMICOLON);
    ReadablePrefix(After(cut, EQUALS), After(seg, EQUALS));
  }

  lemma NotIn(s: Bytes, sep: Byte, b: Byte)
    requires b !in s
    ensures b !in Before(s, sep) && b !in After(s, sep)
  {
    if sep in s {
      assert s == Before(s, sep) + [sep] + After(s, sep);
    }
  }

  lemma {:induction false} ParsedNames(segs: seq<Bytes>, i: nat)
    requires i < |segs| && ParseSegment(segs[i]).Some?
    ensures ParseSegment(segs[i]).value in ParseSegments(segs)
  {
    if i > 0 {
      ParsedNames(segs[1..], i - 1);
    }
  }

  lemma UndeniedSegments(d: Denylist, q: Bytes)
    requires !AnyDenied(d, ParseQuery(q))
    ensures !AnyNamesDenied(d, Segments(q))
  {
    var segs := Segments(q);
    forall i | 0 <= i < |segs| ensures !NamesDenied(d, segs[i]) {
      if ParseSegment(segs[i]).Some? {
        ParsedNames(segs, i);
        assert ParseSegment(segs[i]).value.name in ParseQuery(q);
      }
    }
  }

  lemma {:induction false} FromSegment(segs: seq<Bytes>, p: Param) returns (i: nat)
    requires p in ParseSegments(segs)
    ensures i < |segs| && ParseSegment(segs[i]) == Some(p)
    decreases |segs|
  {
    if ParseSegment(segs[0]) == Some(p) {
      i := 0;
    } else {
      var i' := FromSegment(segs[1..], p);
      i := i' + 1;
    }
  }

  lemma DeniedSegment(d: Denylist, q: Bytes)
    requires AnyDenied(d, ParseQuery(q))
    ensures AnyNamesDenied(d, Segments(q))
  {
    var name :| name in ParseQuery(q) && d.Has(name);
    var p :| p in ParseParams(q) && p.name == name;
    var i := FromSegment(Segments(q), p);
    assert NamesDenied(d, Segments(q)[i]);
  }

  /** The harmless leftover: the last segment is a denied name with an empty value. */
  predicate EndsInName(d: Denylist, url: Bytes) {
    var segs := Segments(QueryOf(url));
    segs != [] && NamesDenied(d, segs[|segs| - 1]) && ParseSegment(segs[|segs| - 1]).value.value == []
  }

  /** A URL whose parsed query names a denied parameter either has it back or ends in its bare name. */
  lemma NamedIsReturnedOrBare(d: Denylist, url: Bytes)
    ensures IsStripped(d, url) <==> !Returns(d, url) && !EndsInName(d, url)
  {
    hide QueryOf, ParseSegments;
    if IsStripped(d, url) {
      UndeniedSegments(d, QueryOf(url));
    } else {
      DeniedSegment(d, QueryOf(url));
    }
  }

  lemma CutIsSafe(d: Denylist, url: Bytes, cut: Bytes)
    requires cut <= url
    requires !AnyExposes(d, Segments(QueryOf(url))) && !Returns(d, url)
    ensures !Returns(d, cut)
  {
    QueryOfPrefix(cut, url);
    SegmentsOfPrefix(QueryOf(cut), QueryOf(url));
    CutSegments(d, Segments(QueryOf(cut)), Segments(QueryOf(url)));
  }

  lemma CutSegments(d: Denylist, a: seq<Bytes>, b: seq<Bytes>)
    requires IsCutOf(a, b) && !AnyExposes(d, b) && !ReturnsIn(d, b)
    ensures !ReturnsIn(d, a)
  {
    hide Exposes, ParseSegment;
    if a != [] {
      var last := |a| - 1;
      if NamesDenied(d, a[last]) && ParseSegment(a[last]).value.value != [] {
        CutSegment(d, a[last], b[last]);
        assert false;
      }
    }
  }

  // ---- Where a cut does bring one back ----

  predicate IsLastSegment(q: Bytes, last: Bytes) {
    var segs := Segments(q);
    segs != [] && segs[|segs| - 1] == last
  }

  /** `q` is `pre`, the segment `seg` and `post`; cut after `part`, a start of `seg`, it has that
      start for its last segment. */
  predicate CanEndIn(q: Bytes, pre: Bytes, seg: Bytes, post: Bytes, part: Bytes) {
    && q == pre + seg + post && (post != [] ==> post[0] == AMPERSAND)
    && IsLastSegment(pre + part, part)
  }

  /** Every segment sits somewhere in the query, and every start of it can be made the last segment
      by a cut. */
  lemma {:induction false} CutInside(q: Bytes, seg: Bytes, part: Bytes) returns (pre: Bytes, post: Bytes)
    requires seg in Segments(q) && part != [] && part <= seg
    ensures CanEndIn(q, pre, seg, post, part)
    decreases |q|
  {
    if seg == Before(q, AMPERSAND) {
      pre, post := [], q[|seg|..];
      CutInsideFirst(q, part);
    } else {
      LaterSegment(q, seg);
      pre, post := CutInside(After(q, AMPERSAND), seg, part);
      CutAfterFirst(Before(q, AMPERSAND), After(q, AMPERSAND), pre, seg, post, part);
      pre := Before(q, AMPERSAND) + [AMPERSAND] + pre;
    }
  }

  lemma CutInsideFirst(q: Bytes, part: Bytes)
    requires part != [] && part <= Before(q, AMPERSAND)
    ensures var seg := Before(q, AMPERSAND); CanEndIn(q, [], seg, q[|seg|..], part)
  {
    var seg := Before(q, AMPERSAND);
    assert [] + part == part && [] + seg + q[|seg|..] == q;
    SegmentsOfOne(part);
    assert seg != q ==> AMPERSAND in q;
  }

  lemma CutAfterFirst(first: Bytes, rest: Bytes, pre: Bytes, seg: Bytes, post: Bytes, part: Bytes)
    requires AMPERSAND !in first && CanEndIn(rest, pre, seg, post, part)
    ensures CanEndIn(first + [AMPERSAND] + rest, first + [AMPERSAND] + pre, seg, post, part)
  {
    var u := first + [AMPERSAND];
    LastSegmentLater(first, pre + part, part);
    ConcatAssociates(u, pre, part);
    ConcatAssociates(u, pre, seg);
    ConcatAssociates(u, pre + seg, post);
  }

  lemma LastSegmentLater(first: Bytes, rest: Bytes, last: Bytes)
    requires AMPERSAND !in first && IsLastSegment(rest, last)
    ensures IsLastSegment(first + [AMPERSAND] + rest, last)
  {
    SegmentsOfMore(first, rest);
  }

  lemma LaterSegment(q: Bytes, seg: Bytes)
    requires seg in Segments(q) && seg != Before(q, AMPERSAND)
    ensures seg in Segments(After(q, AMPERSAND))
    ensures AMPERSAND in q
  {
    assert Segments(q) == [Before(q, AMPERSAND)] + Segments(After(q, AMPERSAND));
    assert After(q, AMPERSAND) != [];
  }

  /** Right after an ASCII byte, a rune starts. */
  lemma {:induction false} BoundaryAfterAscii(s: Bytes, at: nat) returns (k: nat)
    requires 0 < at <= |s| && s[at - 1] < 0x80
    ensures 0 < k <= |Runes(s)| && Offset(s, k) == at
    decreases at
  {
    var w := DecodeRune(s).width;
    assert w <= at;
    if at == w {
      k := 1;
      assert Offset(s[w..], 0) == 0;
    } else {
      var k' := BoundaryAfterAscii(s[w..], at - w);
      k := k' + 1;
    }
  }

  lemma LimitAt(s: Bytes, k: nat, end: nat)
    requires 0 < k <= |Runes(s)| && Offset(s, k) == end
    ensures Truncated(s, k) == s[..end]
  {
    if |Runes(s)| == k {
      assert s[..|s|] == s;
    }
  }

  /** How much of a value that starts well one has to keep to keep its first rune or escape. */
  function FirstUnit(value: Bytes): (n: nat)
    requires StartsWell(value)
    ensures 0 < n <= |value|
  {
    if value[0] == PERCENT then 3 else DecodeRune(value).width
  }

  lemma FirstUnitReads(value: Bytes)
    requires StartsWell(value)
    ensures SEMICOLON !in value[..FirstUnit(value)]
    ensures Unescape(value[..FirstUnit(value)], true).Some?
  {
    var v := value[..FirstUnit(value)];
    if value[0] == PERCENT {
      assert v[3..] == [];
    } else {
      UnescapeWithoutEscapes(v);
    }
  }

  lemma {:induction false} UnescapeWithoutEscapes(s: Bytes)
    requires PERCENT !in s
    ensures Unescape(s, true).Some?
  {
    if s != [] {
      UnescapeWithoutEscapes(s[1..]);
    }
  }

  /** Some limit cuts right after the first rune or escape of a value that follows an ASCII byte. */
  lemma LimitAfterUnit(u: Bytes, value: Bytes, rest: Bytes) returns (limit: nat)
    requires u != [] && u[|u| - 1] < 0x80 && StartsWell(value)
    requires rest != [] ==> rest[0] < 0x80
    ensures limit > 0 && Truncated(u + value + rest, limit) == u + value[..FirstUnit(value)]
  {
    var s, n := u + value + rest, FirstUnit(value);
    assert s[|u| - 1] == u[|u| - 1] && s[..|u| + n] == u + value[..n];
    if value[0] == PERCENT {
      assert s[|u| + 2] == value[2];
      limit := BoundaryAfterAscii(s, |u| + n);
    } else {
      SameFirstRune(u, value, rest);
      limit := BoundaryAfterRune(s, |u|);
    }
    LimitAt(s, limit, |u| + n);
  }

  lemma BoundaryAfterRune(s: Bytes, at: nat) returns (k: nat)
    requires 0 < at < |s| && s[at - 1] < 0x80
    ensures 0 < k <= |Runes(s)| && Offset(s, k) == at + DecodeRune(s[at..]).width
  {
    k := BoundaryAfterAscii(s, at);
    OffsetStep(s, k);
    k := k + 1;
  }

  lemma SameFirstRune(u: Bytes, value: Bytes, rest: Bytes)
    requires value != [] && (rest != [] ==> rest[0] < 0x80)
    ensures DecodeRune((u + value + rest)[|u|..]) == DecodeRune(value)
  {
    assert (u + value + rest)[|u|..] == value + rest;
    RunesConcat(value, rest);
    assert Runes(value + rest)[0] == Runes(value)[0];
  }

  /** An exposing segment is its name, an `=`, and a value that starts well. */
  function ExposingPart(seg: Bytes): Bytes
    requires StartsWell(After(seg, EQUALS))
  {
    Before(seg, EQUALS) + [EQUALS] + After(seg, EQUALS)[..FirstUnit(After(seg, EQUALS))]
  }

  lemma ExposingPartNames(d: Denylist, seg: Bytes)
    requires Exposes(d, seg)
    ensures var part := ExposingPart(seg);
            part <= seg && NamesDenied(d, part) && ParseSegment(part).value.value != []
  {
    var name, value := Before(seg, EQUALS), After(seg, EQUALS);
    var v := value[..FirstUnit(value)];
    assert seg == name + [EQUALS] + value;
    FirstUnitReads(value);
    CutUnique(name, EQUALS, v);
    assert SEMICOLON !in name + [EQUALS] + v;
  }

  /** The text of a URL before its query, up to the question mark. */
  function HeadOf(url: Bytes): Bytes {
    Before(Before(url, HASH), QUESTION) + [QUESTION]
  }

  lemma AroundQuery(url: Bytes) returns (tail: Bytes)
    requires QueryOf(url) != []
    ensures url == HeadOf(url) + QueryOf(url) + tail && (tail != [] ==> tail[0] == HASH)
  {
    var u := Before(url, HASH);
    tail := url[|u|..];
    assert url == u + tail;
  }

  lemma QueryOfCut(url: Bytes, q: Bytes)
    requires q <= QueryOf(url)
    ensures QueryOf(HeadOf(url) + q) == q
  {
    var u := Before(url, HASH);
    var head := Before(u, QUESTION);
    NotIn(u, QUESTION, HASH);
    assert HASH !in head + [QUESTION] + q;
    CutAbsent(head + [QUESTION] + q, HASH);
    CutUnique(head, QUESTION, q);
  }

  /** An exposing segment is brought back by the limit that cuts just inside its value. */
  lemma ExposedReturns(d: Denylist, url: Bytes, seg: Bytes) returns (limit: nat)
    requires seg in Segments(QueryOf(url)) && Exposes(d, seg)
    ensures limit > 0 && Returns(d, Truncated(url, limit))
  {
    ExposingPartNames(d, seg);
    var part, q := ExposingPart(seg), QueryOf(url);
    var tail := AroundQuery(url);
    var pre, post := CutInside(q, seg, part);
    limit := LimitInside(HeadOf(url), pre, seg, post, tail);
    PartIsPrefix(pre, seg, post, part);
    QueryOfCut(url, pre + part);
    LastReturns(d, HeadOf(url) + (pre + part), pre + part, part);
  }

  lemma PartIsPrefix(pre: Bytes, seg: Bytes, post: Bytes, part: Bytes)
    requires part <= seg
    ensures pre + part <= pre + seg + post
  {
  }

  lemma LastReturns(d: Denylist, url: Bytes, q: Bytes, last: Bytes)
    requires QueryOf(url) == q && IsLastSegment(q, last)
    requires NamesDenied(d, last) && ParseSegment(last).value.value != []
    ensures Returns(d, url)
  {
  }

  lemma LimitInside(head: Bytes, pre: Bytes, seg: Bytes, post: Bytes, tail: Bytes)
    returns (limit: nat)
    requires StartsWell(After(seg, EQUALS))
    requires post != [] ==> post[0] == AMPERSAND
    requires tail != [] ==> tail[0] == HASH
    ensures limit > 0
    ensures Truncated(head + (pre + seg + post) + tail, limit) == head + (pre + ExposingPart(seg))
  {
    var name, value := Before(seg, EQUALS), After(seg, EQUALS);
    var v := value[..FirstUnit(value)];
    var u := head + pre + name + [EQUALS];
    assert seg == name + [EQUALS] + value;
    limit := LimitAfterUnit(u, value, post + tail);
    Regroup(head, pre, name, value, post, tail);
    Regroup(head, pre, name, v, [], []);
    assert pre + (name + [EQUALS] + v) + [] == pre + (name + [EQUALS] + v);
  }

  lemma Regroup(head: Bytes, pre: Bytes, name: Bytes, v: Bytes, post: Bytes, tail: Bytes)
    ensures head + (pre + (name + [EQUALS] + v) + post) + tail == head + pre + name + [EQUALS] + v + (post + tail)
  {
  }

  /** Cutting alone: no limit leaves a URL with a denied parameter exactly when the URL has none
      itself and exposes none. */
  lemma CutsAreSafe(d: Denylist, url: Bytes)
    ensures (forall limit: int | limit > 0 :: !Returns(d, Truncated(url, limit))) <==>
            !Returns(d, url) && !AnyExposes(d, Segments(QueryOf(url)))
  {
    var segs := Segments(QueryOf(url));
    if AnyExposes(d, segs) {
      var i :| 0 <= i < |segs| && Exposes(d, segs[i]);
      var limit := ExposedReturns(d, url, segs[i]);
    } else if Returns(d, url) {
      assert Truncated(url, |Runes(url)| + 1) == url;
    } else {
      forall limit: int | limit > 0 ensures !Returns(d, Truncated(url, limit)) {
        CutIsSafe(d, url, Truncated(url, limit));
      }
    }
  }

  /** What decides whether a URL can be stripped and then cut at any limit without the parser
      finding a denied parameter in the result: its query is printed anew; or it neither has one nor
      exposes one. */
  ghost predicate IsCutSafe(d: Denylist, lib: UrlLibrary, raw: Bytes) {
    IsRebuilt(d, lib, raw) ||
    (!Returns(d, raw) && !AnyExposes(d, Segments(QueryOf(raw))))
  }

  /** For every URL, parsed or not: no limit leaves a denied parameter after stripping and cutting
      exactly when the URL that came in is safe in this sense. */
  lemma CutAfterStripIsSafe(d: Denylist, lib: UrlLibrary, raw: Bytes)
    requires Reparses(lib)
    ensures (forall limit: int | limit > 0 :: !Returns(d, Truncated(Stripped(d, lib, raw).out, limit))) <==>
            IsCutSafe(d, lib, raw)
  {
    var out := Stripped(d, lib, raw).out;
    CutsAreSafe(d, out);
    if IsRebuilt(d, lib, raw) {
      RebuiltIsSafe(d, lib, raw);
    } else {
      StripKeepsQuery(d, lib, raw);
    }
  }

  /** For a URL that parses, it is about its skipped segments alone while the library reads its
      parameters, and beyond that about all of them. */
  lemma ParsedIsCutSafe(d: Denylist, lib: UrlLibrary, raw: Bytes)
    requires ParseUrl(lib, raw).Some?
    ensures IsCutSafe(d, lib, raw) <==>
            if WithinMax(lib.maxParams, QueryOf(raw))
            then !IsStripped(d, raw) || !AnyExposes(d, Segments(QueryOf(raw)))
            else !Returns(d, raw) && !AnyExposes(d, Segments(QueryOf(raw)))
  {
    if IsStripped(d, raw) {
      UndeniedSegments(d, QueryOf(raw));
    }
  }

  /** In particular when every segment is well formed, so that the parser skips none: nothing
      returns, at any limit, unless it was there in more parameters than the library reads. And a
      URL from which a parameter was removed is always such. */
  lemma CutIsSafeWhenWellFormed(d: Denylist, lib: UrlLibrary, raw: Bytes, limit: int)
    requires Reparses(lib) && ParseUrl(lib, raw).Some? && limit > 0
    requires WithinMax(lib.maxParams, QueryOf(raw)) || !Returns(d, raw)
    requires var segs := Segments(QueryOf(raw));
             (forall i | 0 <= i < |segs| :: ParseSegment(segs[i]).Some?) || IsRebuilt(d, lib, raw)
    ensures !Returns(d, Truncated(Stripped(d, lib, raw).out, limit))
  {
    CutAfterStripIsSafe(d, lib, raw);
    ParsedIsCutSafe(d, lib, raw);
  }

  /** A query that is printed anew has no denied parameter and exposes none. */
  lemma RebuiltIsSafe(d: Denylist, lib: UrlLibrary, raw: Bytes)
    requires Reparses(lib) && IsRebuilt(d, lib, raw)
    ensures var out := Stripped(d, lib, raw).out;
            !Returns(d, out) && !AnyExposes(d, Segments(QueryOf(out)))
  {
    StrippedIffRead(d, lib, raw);
    RebuiltIsWellFormed(d, lib, raw);
    WellFormedIsSafe(d, Stripped(d, lib, raw).out);
  }

  lemma WellFormedIsSafe(d: Denylist, url: Bytes)
    requires IsStripped(d, url)
    requires forall i | 0 <= i < |Segments(QueryOf(url))| :: ParseSegment(Segments(QueryOf(url))[i]).Some?
    ensures !Returns(d, url) && !AnyExposes(d, Segments(QueryOf(url)))
  {
    hide ParseSegment, QueryOf;
    UndeniedSegments(d, QueryOf(url));
  }

  lemma {:induction false} PrintedSegments(ps: seq<Param>)
    ensures forall i | 0 <= i < |Segments(PrintParams(ps))| :: ParseSegment(Segments(PrintParams(ps))[i]).Some?
  {
    if ps != [] {
      var first := PrintParam(ps[0]);
      ParsePrinted(ps[0]);
      PrintedHasNo(ps[0], AMPERSAND);
      if |ps| == 1 {
        SegmentsOfOne(first);
      } else {
        PrintedSegments(ps[1..]);
        SegmentsOfMore(first, PrintParams(ps[1..]));
      }
    }
  }

  lemma RebuiltIsWellFormed(d: Denylist, lib: UrlLibrary, raw: Bytes)
    requires Reparses(lib) && IsRebuilt(d, lib, raw)
    ensures var segs := Segments(QueryOf(Stripped(d, lib, raw).out));
            forall i | 0 <= i < |segs| :: ParseSegment(segs[i]).Some?
  {
    RebuiltQuery(d, lib, raw);
    EncodedIsPrinted(KeptOf(d, lib, raw));
  }

  lemma EncodedIsPrinted(m: Values)
    ensures forall i | 0 <= i < |Segments(EncodeValues(m))| :: ParseSegment(Segments(EncodeValues(m))[i]).Some?
  {
    var names := Ordering.SortedElements(m.Keys);
    Ordering.ListingIsDistinct(names, m.Keys);
    PrintedSegments(ParamsInOrder(names, m));
  }

  /** The condition can fail, for every denied name: `/?name=ab;` is left verbatim, because the parser
      skips a segment with a semicolon; cut before the semicolon it names the parameter with a value. */
  lemma SemicolonReturns(d: Denylist, lib: UrlLibrary, name: Bytes) returns (limit: nat)
    requires Reparses(lib) && lib.prefix([0x2F]) == Some([0x2F]) && d.Has(name)
    ensures var url := PrintUrl([0x2F], false, Escape(name) + [EQUALS] + [0x61, 0x62, SEMICOLON]);
            Stripped(d, lib, url) == Strip(url, false) && limit > 0 && Returns(d, Truncated(url, limit))
  {
    NamedSegmentIsClean(name, [0x61, 0x62, SEMICOLON]);
    SemicolonExposes(d, name);
    limit := SkippedReturns(d, lib, Escape(name) + [EQUALS] + [0x61, 0x62, SEMICOLON]);
  }

  /** Likewise for every segment that exposes a denied name. */
  lemma SkippedReturns(d: Denylist, lib: UrlLibrary, seg: Bytes) returns (limit: nat)
    requires Reparses(lib) && lib.prefix([0x2F]) == Some([0x2F])
    requires seg != [] && AMPERSAND !in seg && HASH !in seg && !HasControl(seg) && Exposes(d, seg)
    ensures var url := PrintUrl([0x2F], false, seg);
            Stripped(d, lib, url) == Strip(url, false) && limit > 0 && Returns(d, Truncated(url, limit))
  {
    SkippedStaysVerbatim(d, lib, seg);
    limit := ExposedReturns(d, PrintUrl([0x2F], false, seg), seg);
  }

  lemma SkippedStaysVerbatim(d: Denylist, lib: UrlLibrary, seg: Bytes)
    requires Reparses(lib) && lib.prefix([0x2F]) == Some([0x2F])
    requires seg != [] && AMPERSAND !in seg && HASH !in seg && !HasControl(seg) && ParseSegment(seg).None?
    ensures var url := PrintUrl([0x2F], false, seg);
            && ParseUrl(lib, url).Some? && QueryOf(url) == seg && IsStripped(d, url)
            && Stripped(d, lib, url) == Strip(url, false) && Segments(QueryOf(url)) == [seg]
  {
    SkippedIsNoParameter(seg);
    ParsePrintedUrl(lib, [0x2F], false, seg);
  }

  lemma SemicolonExposes(d: Denylist, name: Bytes)
    requires d.Has(name)
    ensures var seg := Escape(name) + [EQUALS] + [0x61, 0x62, SEMICOLON];
            Exposes(d, seg) && ParseSegment(seg).None?
  {
    var seg := Escape(name) + [EQUALS] + [0x61, 0x62, SEMICOLON];
    EscapeHasNo(name, SEMICOLON);
    NamedSegmentIsClean(name, [0x61, 0x62, SEMICOLON]);
    assert seg[|seg| - 1] == SEMICOLON;
  }

  lemma SkippedAlone(seg: Bytes)
    requires ParseSegment(seg).None?
    ensures ParseSegments([seg]) == []
  {
    var segs := [seg];
    assert |segs[1..]| == 0;
  }

  lemma SkippedIsNoParameter(seg: Bytes)
    requires seg != [] && AMPERSAND !in seg && ParseSegment(seg).None?
    ensures Segments(seg) == [seg] && ParseQuery(seg) == map[]
  {
    SegmentsOfOne(seg);
    SkippedAlone(seg);
  }

  lemma NamedSegmentIsClean(name: Bytes, value: Bytes)
    requires AMPERSAND !in value && HASH !in value && !HasControl(value)
    ensures var seg := Escape(name) + [EQUALS] + value;
            && seg != [] && AMPERSAND !in seg && HASH !in seg && !HasControl(seg)
            && Before(seg, EQUALS) == Escape(name) && After(seg, EQUALS) == value
            && Unescape(Before(seg, EQUALS), true) == Some(name)
  {
    hide Escape, Unescape;
    EscapeHasNo(name, EQUALS);
    EscapeHasNo(name, AMPERSAND);
    EscapeHasNo(name, HASH);
    CutUnique(Escape(name), EQUALS, value);
    UnescapeEscape(name);
    forall b: Byte | IsControl(b) ensures b !in Escape(name) {
      EscapeHasNoControl(name, b);
    }
    ConcatHasNoControl(Escape(name), value);
  }

  lemma EscapeHasNoControl(name: Bytes, b: Byte)
    requires IsControl(b)
    ensures b !in Escape(name)
  {
    EscapeHasNo(name, b);
  }

  lemma ConcatHasNoControl(u: Bytes, v: Bytes)
    requires (forall b: Byte | IsControl(b) :: b !in u) && !HasControl(v)
    ensures !HasControl(u + [EQUALS] + v)
  {
    var s := u + [EQUALS] + v;
    forall i | 0 <= i < |s| ensures !IsControl(s[i]) {
      assert s[i] == if i < |u| then u[i] else if i == |u| then EQUALS else v[i - |u| - 1];
    }
  }

  /** The same for a value as it is stored, trimmed first and cut last. */
  lemma SanitizedIsSafe(d: Denylist, lib: UrlLibrary, raw: Bytes)
    requires Reparses(lib)
    ensures (forall limit: int | limit > 0 :: !Returns(d, SanitizedUrl(d, lib, raw, limit).out)) <==>
            IsCutSafe(d, lib, Text.TrimSpace(raw))
  {
    var t := Text.TrimSpace(raw);
    if t == [] {
      assert Segments(QueryOf([])) == [];
    } else {
      CutAfterStripIsSafe(d, lib, t);
      assert forall limit: int ::
          SanitizedUrl(d, lib, raw, limit).out == Truncated(Stripped(d, lib, t).out, limit);
    }
  }
}
