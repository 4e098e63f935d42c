/** Removing the fragment and the denied query parameters of a URL, then bounding what is left. */
module Sanitize {
  import opened Bytes
  import opened Denylist
  import opened Query
  import opened Text
  import opened Utf8

  // ---- URLs ----

  /** What the library makes of the part before the query (scheme, authority, path): nothing when
      it does not parse, otherwise how it prints once parsed. */
  type PrefixPrinter = Bytes -> Option<Bytes>

  /** The library besides that: `maxParams` bounds the parameters of a query, if anything does. */
  datatype UrlLibrary = UrlLibrary(prefix: PrefixPrinter, maxParams: Option<nat>)

  predicate IsControl(b: Byte) { b < 0x20 || b == 0x7F }

  predicate HasControl(s: Bytes) {
    exists i | 0 <= i < |s| :: IsControl(s[i])
  }

  predicate IsPlain(s: Bytes) { HASH !in s && QUESTION !in s && !HasControl(s) }

  /** The one thing assumed of that part: what is printed holds no delimiter of a query or
      fragment and no control character, and parses back to itself. */
  ghost predicate Reparses(lib: UrlLibrary) {
    forall p: Bytes | IsPlain(p) && lib.prefix(p).Some? ::
      IsPlain(lib.prefix(p).value) && lib.prefix(lib.prefix(p).value) == lib.prefix(p)
  }

  /** A parsed URL. `forceQuery` remembers a bare question mark. */
  datatype Url = Url(prefix: Bytes, forceQuery: bool, rawQuery: Bytes, fragment: Bytes)

  function ParseUrl(lib: UrlLibrary, raw: Bytes): Option<Url> {
    var u, fragment := Before(raw, HASH), Unescape(After(raw, HASH), false);
    var prefix := lib.prefix(Before(u, QUESTION));
    if HasControl(u) || prefix.None? || fragment.None? then None
    else Some(Url(prefix.value, QUESTION in u && QueryOf(raw) == [], QueryOf(raw), fragment.value))
  }

  /** The query part of a URL in text form. */
  function QueryOf(raw: Bytes): Bytes {
    After(Before(raw, HASH), QUESTION)
  }

  /** A URL without a fragment in text form. */
  function PrintUrl(prefix: Bytes, forceQuery: bool, rawQuery: Bytes): Bytes {
    prefix + (if forceQuery || rawQuery != [] then [QUESTION] + rawQuery else [])
  }

  // ---- Stripping ----

  ghost predicate AnyDenied(d: Denylist, m: Values) {
    exists name | name in m :: d.Has(name)
  }

  function RemoveDenied(d: Denylist, m: Values): Values {
    map name | name in m && !d.Has(name) :: m[name]
  }

  /** Deletes the denied names while ranging over the map, whose order is arbitrary. */
  method DeleteDenied(d: Denylist, m: Values) returns (kept: Values, removed: bool)
    ensures kept == RemoveDenied(d, m)
    ensures removed <==> AnyDenied(d, m)
  {
    kept, removed := m, false;
    var pending := m.Keys;
    while pending != {}
      invariant pending <= m.Keys
      invariant kept.Keys == set name | name in m && (name in pending || !d.Has(name))
      invariant forall name | name in kept :: kept[name] == m[name]
      invariant removed <==> exists name :: name in m && name !in pending && d.Has(name)
    {
      var name :| name in pending;
      pending := pending - {name};
      if d.Has(name) {
        kept := kept - {name};
        removed := true;
      }
    }
  }

  datatype Strip = Strip(out: Bytes, stripped: bool)

  ghost function Stripped(d: Denylist, lib: UrlLibrary, raw: Bytes): Strip {
    match ParseUrl(lib, raw)
    case None => Strip(Before(raw, HASH), HASH in raw)
    case Some(u) =>
      var m := ReadQuery(lib.maxParams, u.rawQuery);
      if AnyDenied(d, m) then Strip(PrintUrl(u.prefix, u.forceQuery, EncodeValues(RemoveDenied(d, m))), true)
      else if u.fragment != [] then Strip(PrintUrl(u.prefix, u.forceQuery, u.rawQuery), true)
      else Strip(raw, false)
  }

  method StripFrom(d: Denylist, lib: UrlLibrary, raw: Bytes) returns (out: Bytes, stripped: bool)
    ensures Strip(out, stripped) == Stripped(d, lib, raw)
  {
    var parsed := ParseUrl(lib, raw);
    if parsed.None? {
      if HASH in raw {
        return Before(raw, HASH), true;
      }
      return raw, false;
    }
    var u := parsed.value;
    var changed := u.fragment != [];
    u := u.(fragment := []);
    if u.rawQuery != [] {
      var query, removed := DeleteDenied(d, ReadQuery(lib.maxParams, u.rawQuery));
      if removed {
        var q := PrintValues(query);
        u := u.(rawQuery := q);
        changed := true;
      }
    }
    if !changed {
      return raw, false;
    }
    return PrintUrl(u.prefix, u.forceQuery, u.rawQuery), true;
  }

  // ---- What stripping means ----

  /** A printed URL parses back to its parts. */
  lemma ParsePrintedUrl(lib: UrlLibrary, prefix: Bytes, forceQuery: bool, rawQuery: Bytes)
    requires IsPlain(prefix) && lib.prefix(prefix) == Some(prefix)
    requires HASH !in rawQuery && !HasControl(rawQuery)
    requires forceQuery ==> rawQuery == []
    ensures ParseUrl(lib, PrintUrl(prefix, forceQuery, rawQuery)) ==
            Some(Url(prefix, forceQuery, rawQuery, []))
  {
    var out := PrintUrl(prefix, forceQuery, rawQuery);
    PrintedUrlParts(prefix, forceQuery, rawQuery);
    assert Before(out, HASH) == out && After(out, HASH) == [];
  }

  lemma PrintedUrlParts(prefix: Bytes, forceQuery: bool, rawQuery: Bytes)
    requires IsPlain(prefix) && HASH !in rawQuery && !HasControl(rawQuery)
    ensures var out := PrintUrl(prefix, forceQuery, rawQuery);
            && HASH !in out && !HasControl(out)
            && Before(out, QUESTION) == prefix && After(out, QUESTION) == rawQuery
            && (QUESTION in out <==> forceQuery || rawQuery != [])
  {
    var out := PrintUrl(prefix, forceQuery, rawQuery);
    if forceQuery || rawQuery != [] {
      assert out == prefix + [QUESTION] + rawQuery;
      CutUnique(prefix, QUESTION, rawQuery);
      forall i | 0 <= i < |out| ensures out[i] != HASH && !IsControl(out[i]) {
        assert out[i] == if i < |prefix| then prefix[i] else if i == |prefix| then QUESTION else rawQuery[i - |prefix| - 1];
      }
    } else {
      assert out == prefix;
      CutAbsent(out, QUESTION);
    }
  }

  lemma PrefixIsPlain(raw: Bytes)
    requires !HasControl(Before(raw, HASH))
    ensures IsPlain(Before(Before(raw, HASH), QUESTION))
    ensures HASH !in QueryOf(raw) && !HasControl(QueryOf(raw))
  {
    var u := Before(raw, HASH);
    var p, q := Before(u, QUESTION), QueryOf(raw);
    if QUESTION in u {
      assert u == p + [QUESTION] + q;
      assert forall i | 0 <= i < |q| :: q[i] == u[|p| + 1 + i];
    }
    assert forall i | 0 <= i < |p| :: p[i] == u[i];
  }

  lemma EncodedIsClean(m: Values)
    ensures HASH !in EncodeValues(m) && !HasControl(EncodeValues(m))
  {
    EncodedHasNo(m, HASH);
    forall b: Byte | IsControl(b) ensures b !in EncodeValues(m) {
      EncodedHasNo(m, b);
    }
  }

  lemma NothingDeniedLeft(d: Denylist, m: Values)
    ensures !AnyDenied(d, RemoveDenied(d, m))
    ensures !AnyDenied(d, m) ==> RemoveDenied(d, m) == m
  {
  }

  /** The parser finds a denied parameter, so that the query is printed anew. */
  ghost predicate IsRebuilt(d: Denylist, lib: UrlLibrary, raw: Bytes) {
    ParseUrl(lib, raw).Some? && AnyDenied(d, ReadQuery(lib.maxParams, QueryOf(raw)))
  }

  function KeptOf(d: Denylist, lib: UrlLibrary, raw: Bytes): Values {
    RemoveDenied(d, ReadQuery(lib.maxParams, QueryOf(raw)))
  }

  /** A query printed anew parses to exactly the parameters that are not denied, and to no more of
      them than the library reads. */
  lemma RebuiltQuery(d: Denylist, lib: UrlLibrary, raw: Bytes)
    requires Reparses(lib) && IsRebuilt(d, lib, raw)
    ensures var q, u := EncodeValues(KeptOf(d, lib, raw)), ParseUrl(lib, raw).value;
            && ParseUrl(lib, Stripped(d, lib, raw).out) == Some(Url(u.prefix, u.forceQuery, q, []))
            && QueryOf(Stripped(d, lib, raw).out) == q
            && WithinMax(lib.maxParams, q) && ParseQuery(q) == KeptOf(d, lib, raw)
  {
    var u, m := ParseUrl(lib, raw).value, KeptOf(d, lib, raw);
    PrefixIsPlain(raw);
    ParsedIsNonEmpty(u.rawQuery);
    ParseEncode(m);
    EncodedFits(u.rawQuery, m);
    EncodedIsClean(m);
    ParsePrintedUrl(lib, u.prefix, u.forceQuery, EncodeValues(m));
  }

  /** The query text survives when no parameter is removed. */
  lemma StripKeepsQuery(d: Denylist, lib: UrlLibrary, raw: Bytes)
    requires Reparses(lib) && !IsRebuilt(d, lib, raw)
    ensures QueryOf(Stripped(d, lib, raw).out) == QueryOf(raw)
    ensures ParseUrl(lib, raw).Some? ==>
              ParseUrl(lib, Stripped(d, lib, raw).out) == Some(ParseUrl(lib, raw).value.(fragment := []))
  {
    if ParseUrl(lib, raw).None? {
      CutAbsent(Before(raw, HASH), HASH);
    } else {
      var u := ParseUrl(lib, raw).value;
      PrefixIsPlain(raw);
      ParsePrintedUrl(lib, u.prefix, u.forceQuery, u.rawQuery);
    }
  }

  /** Stripping keeps the meaning of a URL that parses: what comes out parses to the same prefix,
      no fragment, and the original parameters - values in their order - without the denied. */
  lemma StripKeepsMeaning(d: Denylist, lib: UrlLibrary, raw: Bytes)
    requires Reparses(lib) && ParseUrl(lib, raw).Some?
    ensures var before, after := ParseUrl(lib, raw), ParseUrl(lib, Stripped(d, lib, raw).out);
            && after.Some? && after.value.prefix == before.value.prefix && after.value.fragment == []
            && ReadQuery(lib.maxParams, after.value.rawQuery) ==
               RemoveDenied(d, ReadQuery(lib.maxParams, before.value.rawQuery))
  {
    if IsRebuilt(d, lib, raw) {
      RebuiltQuery(d, lib, raw);
    } else {
      StripKeepsQuery(d, lib, raw);
      NothingDeniedLeft(d, ReadQuery(lib.maxParams, QueryOf(raw)));
    }
  }

  lemma StripDropsHash(d: Denylist, lib: UrlLibrary, raw: Bytes)
    requires Reparses(lib) && Stripped(d, lib, raw).stripped
    ensures HASH !in Stripped(d, lib, raw).out
  {
    if ParseUrl(lib, raw).Some? {
      var u := ParseUrl(lib, raw).value;
      var kept := KeptOf(d, lib, raw);
      PrefixIsPlain(raw);
      EncodedIsClean(kept);
      PrintedUrlParts(u.prefix, u.forceQuery, EncodeValues(kept));
      PrintedUrlParts(u.prefix, u.forceQuery, u.rawQuery);
    }
  }

  /** The flag is exact, in every branch: it says whether the output differs from the input. */
  lemma StrippedIsExact(d: Denylist, lib: UrlLibrary, raw: Bytes)
    requires Reparses(lib)
    ensures var s := Stripped(d, lib, raw); s.stripped <==> s.out != raw
  {
    var s := Stripped(d, lib, raw);
    if s.stripped {
      StripDropsHash(d, lib, raw);
      if ParseUrl(lib, raw).Some? {
        StripKeepsMeaning(d, lib, raw);
        NothingDeniedLeft(d, ReadQuery(lib.maxParams, QueryOf(raw)));
        if HASH !in raw {
          CutAbsent(raw, HASH);
        }
      }
    }
  }

  /** When a URL is stripped, and what comes out, read from the text alone: a URL that does not parse
      loses its `#` and what follows; one that parses and has neither a fragment nor a query to print
      anew comes out as it is; any other as its prefix as the library prints it, its question mark if
      it had a query or ends in one, and its query, printed anew or as it was. */
  lemma StrippedExactly(d: Denylist, lib: UrlLibrary, raw: Bytes)
    requires Reparses(lib)
    ensures var s, u := Stripped(d, lib, raw), Before(raw, HASH);
            var prefix := lib.prefix(Before(u, QUESTION));
            var parses := !HasControl(u) && prefix.Some? && Unescape(After(raw, HASH), false).Some?;
            var query := if IsRebuilt(d, lib, raw) then EncodeValues(KeptOf(d, lib, raw)) else QueryOf(raw);
            && (!parses ==> (s.stripped <==> HASH in raw) && s.out == u)
            && (parses ==> (s.stripped <==> After(raw, HASH) != [] || IsRebuilt(d, lib, raw)))
            && (!s.stripped ==> s.out == raw)
            && (parses && s.stripped ==>
                  s.out == prefix.value +
                           (if query != [] || (QUESTION in u && QueryOf(raw) == []) then [QUESTION] + query else []))
  {
    if HASH !in raw {
      CutAbsent(raw, HASH);
    }
  }

  /** No segment of the query that the parser accepts names a denied parameter. */
  ghost predicate IsStripped(d: Denylist, url: Bytes) {
    !AnyDenied(d, ParseQuery(QueryOf(url)))
  }

  /** Of what the parser accepts, stripping removes every denied parameter of a URL that parses and
      whose query is within the bound, and nothing of any other: such a URL is only cut at the `#`. */
  lemma StrippedIffRead(d: Denylist, lib: UrlLibrary, raw: Bytes)
    requires Reparses(lib)
    ensures IsStripped(d, Stripped(d, lib, raw).out) <==>
            (ParseUrl(lib, raw).Some? && WithinMax(lib.maxParams, QueryOf(raw))) || IsStripped(d, raw)
  {
    if IsRebuilt(d, lib, raw) {
      RebuiltQuery(d, lib, raw);
      NothingDeniedLeft(d, ReadQuery(lib.maxParams, QueryOf(raw)));
    } else {
      StripKeepsQuery(d, lib, raw);
    }
  }

  /** Among URLs that parse up to the `#`, a broken fragment makes the difference. */
  lemma StrippedUnlessFragmentBroken(d: Denylist, lib: UrlLibrary, raw: Bytes)
    requires Reparses(lib) && ParseUrl(lib, Before(raw, HASH)).Some?
    ensures IsStripped(d, Stripped(d, lib, raw).out) <==>
            (Unescape(After(raw, HASH), false).Some? && WithinMax(lib.maxParams, QueryOf(raw))) || IsStripped(d, raw)
  {
    StrippedIffRead(d, lib, raw);
    CutAbsent(Before(raw, HASH), HASH);
  }

  /** A second pass changes nothing and says so, unless the first one merely cut off a fragment
      that did not parse, and only the second can read the denied parameter before it. */
  lemma StripSettles(d: Denylist, lib: UrlLibrary, raw: Bytes)
    requires Reparses(lib)
    ensures var out := Stripped(d, lib, raw).out;
            Stripped(d, lib, out) == Strip(out, false) <==>
            ParseUrl(lib, raw).Some? || !IsRebuilt(d, lib, Before(raw, HASH))
  {
    if ParseUrl(lib, raw).Some? {
      StripKeepsMeaning(d, lib, raw);
      NothingDeniedLeft(d, ReadQuery(lib.maxParams, QueryOf(raw)));
    } else {
      CutAbsent(Before(raw, HASH), HASH);
    }
  }

  /** For every denied name there are URLs that keep it. With a broken escape in front of the query,
      `/%?name=value` comes out as it is. */
  lemma BrokenPrefixKeepsDenied(d: Denylist, lib: UrlLibrary, name: Bytes, value: Bytes)
    requires lib.prefix([0x2F, PERCENT]) == None && d.Has(name)
    ensures var url := PrintUrl([0x2F, PERCENT], false, PrintParams([Param(name, value)]));
            Stripped(d, lib, url) == Strip(url, false) && !IsStripped(d, url)
  {
    var p := Param(name, value);
    var url := PrintUrl([0x2F, PERCENT], false, PrintParams([p]));
    ParamIsClean(p);
    PrintedUrlParts([0x2F, PERCENT], false, PrintParams([p]));
    CutAbsent(url, HASH);
    NamedInQuery(p);
  }

  /** With a broken escape in the fragment, `/?name=value#%` keeps its parameter. */
  lemma BrokenFragmentKeepsDenied(d: Denylist, lib: UrlLibrary, name: Bytes, value: Bytes)
    requires Reparses(lib) && lib.prefix([0x2F]) == Some([0x2F]) && d.Has(name)
    ensures var url := PrintUrl([0x2F], false, PrintParams([Param(name, value)]));
            var raw := url + [HASH] + [PERCENT];
            Stripped(d, lib, raw) == Strip(url, true) && !IsStripped(d, url)
  {
    var ps := [Param(name, value)];
    var url := PrintUrl([0x2F], false, PrintParams(ps));
    ParamIsClean(ps[0]);
    ParsePrintedUrl(lib, [0x2F], false, PrintParams(ps));
    PrintedUrlParts([0x2F], false, PrintParams(ps));
    BrokenFragmentOnlyCuts(d, lib, url);
    NamedInQuery(ps[0]);
  }

  lemma BrokenFragmentOnlyCuts(d: Denylist, lib: UrlLibrary, url: Bytes)
    ensures HASH !in url ==> Stripped(d, lib, url + [HASH] + [PERCENT]) == Strip(url, true)
  {
    if HASH !in url {
      CutUnique(url, HASH, [PERCENT]);
    }
  }

  /** With more separators than the library reads, `/?&...&name=value` comes out as it is. */
  lemma CrowdedQueryKeepsDenied(d: Denylist, lib: UrlLibrary, name: Bytes, value: Bytes)
    requires Reparses(lib) && lib.prefix([0x2F]) == Some([0x2F]) && d.Has(name) && lib.maxParams.Some?
    ensures var q := Separators(lib.maxParams.value) + PrintParams([Param(name, value)]);
            var url := PrintUrl([0x2F], false, q);
            ParseUrl(lib, url).Some? && Stripped(d, lib, url) == Strip(url, false) && !IsStripped(d, url)
  {
    hide Count, ParseParams, PrintParams;
    var n, printed := lib.maxParams.value, PrintParams([Param(name, value)]);
    var q := Separators(n) + printed;
    ParamIsClean(Param(name, value));
    SeparatorsAreClean(n, printed);
    ParsePrintedUrl(lib, [0x2F], false, q);
    PrintedUrlParts([0x2F], false, q);
    SeparatorsAreSkipped(n, printed);
    NamedInQuery(Param(name, value));
  }

  lemma SeparatorsAreClean(n: nat, q: Bytes)
    requires HASH !in q && !HasControl(q)
    ensures HASH !in Separators(n) + q && !HasControl(Separators(n) + q)
  {
    var s := Separators(n);
    forall i | 0 <= i < |s + q| ensures (s + q)[i] != HASH && !IsControl((s + q)[i]) {
      assert (s + q)[i] == if i < |s| then s[i] else q[i - |s|];
    }
  }

  lemma NamedInQuery(p: Param)
    ensures p.name in ParseQuery(PrintParams([p]))
  {
    ParsePrintedParams([p]);
    assert p in [p];
  }

  lemma ParamIsClean(p: Param)
    ensures HASH !in PrintParams([p]) && !HasControl(PrintParams([p]))
  {
    ParamsHaveNo([p], HASH);
    forall b: Byte | IsControl(b) ensures b !in PrintParams([p]) {
      ParamsHaveNo([p], b);
    }
  }

  // ---- Sanitising ----

  datatype Sanitized = Sanitized(out: Bytes, stripped: bool, truncated: bool)

  ghost function SanitizedUrl(d: Denylist, lib: UrlLibrary, raw: Bytes, limit: int): Sanitized {
    var t := TrimSpace(raw);
    if t == [] then Sanitized([], false, false)
    else
      var s := Stripped(d, lib, t);
      Sanitized(Truncated(s.out, limit), s.stripped, Truncated(s.out, limit) != s.out)
  }

  method SanitizeUrl(d: Denylist, lib: UrlLibrary, raw: Bytes, limit: int)
    returns (out: Bytes, stripped: bool, truncated: bool)
    ensures Sanitized(out, stripped, truncated) == SanitizedUrl(d, lib, raw, limit)
  {
    var t := TrimSpace(raw);
    if t == [] {
      return [], false, false;
    }
    out, stripped := StripFrom(d, lib, t);
    TruncationSettles(out, limit);
    out, truncated := TruncateRunes(out, limit);
  }

  /** The value that is stored, and both flags: blank text gives nothing; any other is trimmed, then
      stripped, and of what that leaves as many runes are kept as fit. */
  lemma SanitizedExactly(d: Denylist, lib: UrlLibrary, raw: Bytes, limit: int)
    requires limit > 0
    ensures var t, s := TrimSpace(raw), SanitizedUrl(d, lib, raw, limit);
            if t == [] then s == Sanitized([], false, false)
            else
              var whole := Stripped(d, lib, t);
              var kept := if |Runes(whole.out)| <= limit then |Runes(whole.out)| else limit;
              && s.stripped == whole.stripped && (s.truncated <==> |Runes(whole.out)| > limit)
              && s.out <= whole.out && Runes(s.out) == Runes(whole.out)[..kept]
  {
    var whole := Stripped(d, lib, TrimSpace(raw)).out;
    TruncationExact(whole, limit);
    TruncationSettles(whole, limit);
  }

  predicate HashOnlyLast(s: Bytes) {
    forall i | 0 <= i < |s| - 1 :: s[i] != HASH
  }

  lemma EmptyFragmentIsLast(s: Bytes)
    requires After(s, HASH) == []
    ensures HashOnlyLast(s)
  {
    if HASH in s {
      assert s == Before(s, HASH) + [HASH] + [];
    }
  }

  /** Whatever happened to a URL - parsed, left verbatim, unparseable, cut - a `#` can only be its
      very last byte; and a URL that was stripped has none. */
  lemma NoFragmentIsLeft(d: Denylist, lib: UrlLibrary, raw: Bytes, limit: int)
    requires Reparses(lib)
    ensures var s := SanitizedUrl(d, lib, raw, limit);
            HashOnlyLast(s.out) && (s.stripped ==> HASH !in s.out)
  {
    var t := TrimSpace(raw);
    if t != [] {
      HashAfterStrip(d, lib, t);
      HashInPrefix(Truncated(Stripped(d, lib, t).out, limit), Stripped(d, lib, t).out);
    }
  }

  lemma HashAfterStrip(d: Denylist, lib: UrlLibrary, raw: Bytes)
    requires Reparses(lib)
    ensures var s := Stripped(d, lib, raw); HashOnlyLast(s.out) && (s.stripped ==> HASH !in s.out)
  {
    if Stripped(d, lib, raw).stripped {
      StripDropsHash(d, lib, raw);
    } else {
      EmptyFragmentIsLast(raw);
    }
  }

  lemma HashInPrefix(p: Bytes, s: Bytes)
    requires p <= s
    ensures HashOnlyLast(s) ==> HashOnlyLast(p)
    ensures HASH !in s ==> HASH !in p
  {
    assert forall i | 0 <= i < |p| :: p[i] == s[i];
  }
}
