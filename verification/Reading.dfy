/** What is found in a stored URL by whoever reads its query as text, the segments that the source's
    own parser skips included. */
module Reading {
  import opened Bytes
  import opened Denylist
  import opened Query
  import opened Sanitize
  import opened CutSafety
  import opened Utf8
  import Text

  // ---- Any reading ----

  /** Whether one segment of a query is objectionable. */
  type Reading = Bytes -> bool

  predicate FindsNone(find: Reading, url: Bytes) {
    forall seg | seg in Segments(QueryOf(url)) :: !find(seg)
  }

  /** Where the parser reads a segment and finds no denied name, neither does this reading. */
  ghost predicate TrustsParser(d: Denylist, find: Reading) {
    forall seg: Bytes | ParseSegment(seg).Some? && !NamesDenied(d, seg) :: !find(seg)
  }

  /** A segment cut short holds no more than the segment. */
  ghost predicate GrowsOnly(find: Reading) {
    forall part: Bytes, seg: Bytes | part <= seg && find(part) :: find(seg)
  }

  /** All or nothing: whatever a reading finds in a URL is gone when the parser finds a denied
      parameter, since the query is then printed anew, and otherwise it is all still there. */
  lemma FoundUnlessRebuilt(d: Denylist, lib: UrlLibrary, raw: Bytes, find: Reading)
    requires Reparses(lib) && TrustsParser(d, find)
    ensures FindsNone(find, Stripped(d, lib, raw).out) <==> IsRebuilt(d, lib, raw) || FindsNone(find, raw)
  {
    if IsRebuilt(d, lib, raw) {
      RebuiltHasNone(d, lib, raw, find);
    } else {
      StripKeepsQuery(d, lib, raw);
    }
  }

  lemma RebuiltHasNone(d: Denylist, lib: UrlLibrary, raw: Bytes, find: Reading)
    requires Reparses(lib) && TrustsParser(d, find) && IsRebuilt(d, lib, raw)
    ensures FindsNone(find, Stripped(d, lib, raw).out)
  {
    StrippedIffRead(d, lib, raw);
    RebuiltIsWellFormed(d, lib, raw);
    WellFormedHasNone(d, Stripped(d, lib, raw).out, find);
  }

  lemma WellFormedHasNone(d: Denylist, url: Bytes, find: Reading)
    requires TrustsParser(d, find) && IsStripped(d, url)
    requires forall i | 0 <= i < |Segments(QueryOf(url))| :: ParseSegment(Segments(QueryOf(url))[i]).Some?
    ensures FindsNone(find, url)
  {
    hide ParseSegment, QueryOf;
    UndeniedSegments(d, QueryOf(url));
    var segs := Segments(QueryOf(url));
    forall seg | seg in segs ensures !find(seg) {
      var i :| 0 <= i < |segs| && segs[i] == seg;
      assert ParseSegment(segs[i]).Some?;
    }
  }

  /** Cutting brings nothing back for a reading of this kind, at any limit. */
  lemma FoundAfterCut(d: Denylist, lib: UrlLibrary, raw: Bytes, find: Reading)
    requires Reparses(lib) && TrustsParser(d, find) && GrowsOnly(find)
    ensures (forall limit: int | limit > 0 :: FindsNone(find, Truncated(Stripped(d, lib, raw).out, limit))) <==>
            IsRebuilt(d, lib, raw) || FindsNone(find, raw)
  {
    hide Stripped, IsRebuilt, FindsNone, Runes;
    var out := Stripped(d, lib, raw).out;
    FoundUnlessRebuilt(d, lib, raw, find);
    if FindsNone(find, out) {
      forall limit: int | limit > 0 ensures FindsNone(find, Truncated(out, limit)) {
        CutHasNone(find, Truncated(out, limit), out);
      }
    } else {
      assert Truncated(out, |Runes(out)| + 1) == out;
    }
  }

  lemma CutHasNone(find: Reading, cut: Bytes, url: Bytes)
    requires GrowsOnly(find) && cut <= url && FindsNone(find, url)
    ensures FindsNone(find, cut)
  {
    hide QueryOf;
    QueryOfPrefix(cut, url);
    SegmentsOfPrefix(QueryOf(cut), QueryOf(url));
    var a, b := Segments(QueryOf(cut)), Segments(QueryOf(url));
    forall seg | seg in a ensures !find(seg) {
      var i :| 0 <= i < |a| && a[i] == seg;
      assert a[i] <= b[i] && b[i] in b;
    }
  }

  // ---- Denied names in the text ----

  /** A segment, and what it falls apart into for a reader who separates at semicolons as well. */
  function Pieces(seg: Bytes): (r: seq<Bytes>)
    ensures seg in r
    decreases |seg|
  {
    [seg] + if SEMICOLON in seg then [Before(seg, SEMICOLON)] + Pieces(After(seg, SEMICOLON)) else []
  }

  predicate HasDeniedName(d: Denylist, piece: Bytes) {
    var name := Unescape(Before(piece, EQUALS), true);
    name.Some? && d.Has(name.value)
  }

  /** A denied name, whatever follows it ... */
  predicate Carries(d: Denylist, seg: Bytes) {
    exists piece | piece in Pieces(seg) :: HasDeniedName(d, piece)
  }

  /** ... and a denied name that a value follows, readable or not. */
  predicate Shows(d: Denylist, seg: Bytes) {
    exists piece | piece in Pieces(seg) :: HasDeniedName(d, piece) && After(piece, EQUALS) != []
  }

  function Carrying(d: Denylist): Reading {
    seg => Carries(d, seg)
  }

  function Showing(d: Denylist): Reading {
    seg => Shows(d, seg)
  }

  predicate CarriesNone(d: Denylist, url: Bytes) { FindsNone(Carrying(d), url) }

  predicate ShowsNone(d: Denylist, url: Bytes) { FindsNone(Showing(d), url) }

  lemma TextTrustsParser(d: Denylist)
    ensures TrustsParser(d, Carrying(d)) && TrustsParser(d, Showing(d))
  {
    forall seg: Bytes | ParseSegment(seg).Some? && !NamesDenied(d, seg)
      ensures !Carries(d, seg) && !Shows(d, seg)
    {
      assert Pieces(seg) == [seg];
    }
  }

  lemma {:induction false} ShowingPieceGrows(d: Denylist, cut: Bytes, seg: Bytes, piece: Bytes) returns (whole: Bytes)
    requires cut <= seg && piece in Pieces(cut) && HasDeniedName(d, piece) && After(piece, EQUALS) != []
    ensures whole in Pieces(seg) && HasDeniedName(d, whole) && After(whole, EQUALS) != []
    decreases |cut|
  {
    if piece == cut {
      CutOfPrefix(cut, seg, EQUALS);
      whole := seg;
    } else {
      CutOfPrefix(cut, seg, SEMICOLON);
      assert SEMICOLON in seg;
      if piece == Before(cut, SEMICOLON) {
        whole := piece;
      } else {
        whole := ShowingPieceGrows(d, After(cut, SEMICOLON), After(seg, SEMICOLON), piece);
      }
    }
  }

  lemma ShowingGrows(d: Denylist)
    ensures GrowsOnly(Showing(d))
  {
    forall cut: Bytes, seg: Bytes | cut <= seg && Shows(d, cut) ensures Shows(d, seg) {
      var piece :| piece in Pieces(cut) && HasDeniedName(d, piece) && After(piece, EQUALS) != [];
      var whole := ShowingPieceGrows(d, cut, seg, piece);
    }
  }

  /** No denied name is in the text of a stripped query exactly when the query was printed anew or
      there was none before. */
  lemma CarriedUnlessRebuilt(d: Denylist, lib: UrlLibrary, raw: Bytes)
    requires Reparses(lib)
    ensures CarriesNone(d, Stripped(d, lib, raw).out) <==> IsRebuilt(d, lib, raw) || CarriesNone(d, raw)
  {
    TextTrustsParser(d);
    FoundUnlessRebuilt(d, lib, raw, Carrying(d));
  }

  /** No value of a denied parameter is in what is stored, over all limits, exactly when the query
      was printed anew or none was in the trimmed input. */
  lemma ShownUnlessRebuilt(d: Denylist, lib: UrlLibrary, raw: Bytes)
    requires Reparses(lib)
    ensures var t := Text.TrimSpace(raw);
            (forall limit: int | limit > 0 :: ShowsNone(d, SanitizedUrl(d, lib, raw, limit).out)) <==>
            IsRebuilt(d, lib, t) || ShowsNone(d, t)
  {
    var t := Text.TrimSpace(raw);
    if t == [] {
      assert Segments(QueryOf([])) == [];
    } else {
      TextTrustsParser(d);
      ShowingGrows(d);
      FoundAfterCut(d, lib, t, Showing(d));
      assert forall limit: int ::
          SanitizedUrl(d, lib, raw, limit).out == Truncated(Stripped(d, lib, t).out, limit);
    }
  }

  /** One limit, whatever it is: a value that is shown afterwards was sent, in a query kept as it was. */
  lemma ShownWasSent(d: Denylist, lib: UrlLibrary, raw: Bytes, limit: int)
    requires Reparses(lib)
    ensures var t := Text.TrimSpace(raw);
            ShowsNone(d, SanitizedUrl(d, lib, raw, limit).out) || (!IsRebuilt(d, lib, t) && !ShowsNone(d, t))
  {
    hide Stripped, IsRebuilt, FindsNone;
    var t := Text.TrimSpace(raw);
    if t == [] {
      NothingInNothing(Showing(d));
    } else if IsRebuilt(d, lib, t) || ShowsNone(d, t) {
      TextTrustsParser(d);
      ShowingGrows(d);
      FoundUnlessRebuilt(d, lib, t, Showing(d));
      var out := Stripped(d, lib, t).out;
      CutHasNone(Showing(d), Truncated(out, limit), out);
    }
  }

  lemma NothingInNothing(find: Reading)
    ensures FindsNone(find, [])
  {
    assert Segments(QueryOf([])) == [];
  }

  /** The text holds whatever the parser finds, and whatever a cut could make it find. */
  lemma ParserFindsLess(d: Denylist, url: Bytes)
    ensures CarriesNone(d, url) ==> IsStripped(d, url)
    ensures ShowsNone(d, url) ==> !AnyExposes(d, Segments(QueryOf(url)))
  {
    hide QueryOf;
    var segs := Segments(QueryOf(url));
    if !IsStripped(d, url) {
      DeniedSegment(d, QueryOf(url));
      var i :| 0 <= i < |segs| && NamesDenied(d, segs[i]);
      assert segs[i] in Pieces(segs[i]) && HasDeniedName(d, segs[i]);
      assert Carrying(d)(segs[i]);
    }
    if AnyExposes(d, segs) {
      var i :| 0 <= i < |segs| && Exposes(d, segs[i]);
      assert segs[i] in Pieces(segs[i]) && HasDeniedName(d, segs[i]);
      assert Showing(d)(segs[i]);
    }
  }

  // ---- A skipped segment left whole ----

  /** A query of one segment that the parser skips comes out as it is, with all that it shows. */
  lemma SkippedIsKept(d: Denylist, lib: UrlLibrary, seg: Bytes)
    requires Reparses(lib) && lib.prefix([0x2F]) == Some([0x2F])
    requires seg != [] && AMPERSAND !in seg && HASH !in seg && !HasControl(seg)
    requires ParseSegment(seg).None? && Shows(d, seg)
    ensures var url := PrintUrl([0x2F], false, seg);
            && ParseUrl(lib, url).Some? && Stripped(d, lib, url) == Strip(url, false)
            && IsStripped(d, url) && (IsCutSafe(d, lib, url) <==> !Exposes(d, seg))
            && !CarriesNone(d, url) && !ShowsNone(d, url)
  {
    var url := PrintUrl([0x2F], false, seg);
    SkippedStaysVerbatim(d, lib, seg);
    assert Showing(d)(seg) && Carrying(d)(seg);
    assert seg in Segments(QueryOf(url));
    SkippedIsCutSafe(d, lib, url, seg);
  }

  lemma SkippedIsCutSafe(d: Denylist, lib: UrlLibrary, url: Bytes, seg: Bytes)
    requires ParseUrl(lib, url).Some? && IsStripped(d, url)
    requires Segments(QueryOf(url)) == [seg] && ParseSegment(seg).None?
    ensures IsCutSafe(d, lib, url) <==> !Exposes(d, seg)
  {
    hide ParseSegment, ParseUrl, QueryOf, Exposes;
    var segs := Segments(QueryOf(url));
    assert segs[0] == seg;
    NamedIsReturnedOrBare(d, url);
  }

  /** For every denied name, `/?name=;ab` is stored whole although the source's parser finds no value
      behind the name, at any limit. */
  lemma LeadingSemicolonIsKept(d: Denylist, lib: UrlLibrary, name: Bytes)
    requires Reparses(lib) && lib.prefix([0x2F]) == Some([0x2F]) && d.Has(name)
    ensures var url := PrintUrl([0x2F], false, Escape(name) + [EQUALS] + [SEMICOLON, 0x61, 0x62]);
            && Stripped(d, lib, url) == Strip(url, false) && IsCutSafe(d, lib, url)
            && !CarriesNone(d, url) && !ShowsNone(d, url)
  {
    var value: Bytes := [SEMICOLON, 0x61, 0x62];
    var seg := Escape(name) + [EQUALS] + value;
    NamedSegmentIsClean(name, value);
    assert seg[|Escape(name)| + 1] == SEMICOLON;
    assert seg in Pieces(seg);
    SkippedIsKept(d, lib, seg);
  }

  /** Likewise `/?name=ab%`, with a broken escape at the end of the value. */
  lemma BrokenValueIsKept(d: Denylist, lib: UrlLibrary, name: Bytes)
    requires Reparses(lib) && lib.prefix([0x2F]) == Some([0x2F]) && d.Has(name)
    ensures var url := PrintUrl([0x2F], false, Escape(name) + [EQUALS] + [0x61, 0x62, PERCENT]);
            && Stripped(d, lib, url) == Strip(url, false) && IsStripped(d, url)
            && !CarriesNone(d, url) && !ShowsNone(d, url)
  {
    var value: Bytes := [0x61, 0x62, PERCENT];
    var seg := Escape(name) + [EQUALS] + value;
    NamedSegmentIsClean(name, value);
    BrokenAtEnd();
    assert seg in Pieces(seg);
    SkippedIsKept(d, lib, seg);
  }

  lemma BrokenAtEnd()
    ensures Unescape([0x61, 0x62, PERCENT], true).None?
  {
    var value: Bytes := [0x61, 0x62, PERCENT];
    assert value[1..][1..] == [PERCENT];
    assert Unescape(value[1..], true).None?;
  }
}
