/** Query strings as the URL library parses and prints them: percent-decoding per section 2.1 of
    RFC 3986 with `+` for a space, `&` between parameters, the first `=` between name and value. */
module Query {
  import opened Bytes
  import opened Ordering

  // ---- Escaping ----

  function FromHex(b: Byte): (v: int)
    requires IsHex(b)
    ensures 0 <= v < 16
  {
    if IsDigit(b) then b as int - 0x30 else if b >= 0x61 then b as int - 0x61 + 10 else b as int - 0x41 + 10
  }

  function ToHex(v: int): (b: Byte)
    requires 0 <= v < 16
    ensures IsHex(b) && FromHex(b) == v
  {
    if v < 10 then 0x30 + v else 0x41 + v - 10
  }

  /** Whether a percent sign at the start of `s` introduces an escape. */
  predicate IsEscape(s: Bytes) {
    |s| >= 3 && s[0] == PERCENT && IsHex(s[1]) && IsHex(s[2])
  }

  /** The bytes `s` stands for, or nothing when it holds a broken escape. In a query a plus sign
      stands for a space; in a fragment it stands for itself. */
  function Unescape(s: Bytes, plusIsSpace: bool): (r: Option<Bytes>)
    ensures r.Some? ==> (r.value == [] <==> s == [])
  {
    if s == [] then Some([])
    else if s[0] == PERCENT then
      if !IsEscape(s) then None
      else
        var rest := Unescape(s[3..], plusIsSpace);
        if rest.None? then None else Some([FromHex(s[1]) * 16 + FromHex(s[2])] + rest.value)
    else
      var rest := Unescape(s[1..], plusIsSpace);
      if rest.None? then None
      else Some([if s[0] == PLUS && plusIsSpace then SPACE else s[0]] + rest.value)
  }

  predicate IsUnreserved(b: Byte) {
    IsDigit(b) || IsUpper(b) || IsLower(b) || b == MINUS || b == UNDERSCORE || b == DOT || b == 0x7E
  }

  function EscapeByte(b: Byte): (r: Bytes)
    ensures r != []
  {
    if IsUnreserved(b) then [b]
    else if b == SPACE then [PLUS]
    else [PERCENT, ToHex(b / 16), ToHex(b % 16)]
  }

  function Escape(s: Bytes): Bytes {
    if s == [] then [] else EscapeByte(s[0]) + Escape(s[1..])
  }

  /** What a printed name or value may be made of. */
  predicate IsPrinted(b: Byte) { IsUnreserved(b) || b == PLUS || b == PERCENT }

  lemma {:induction false} EscapeHasNo(s: Bytes, b: Byte)
    requires !IsPrinted(b)
    ensures b !in Escape(s)
  {
    if s != [] {
      EscapeHasNo(s[1..], b);
    }
  }

  /** Every byte string survives being escaped and unescaped. */
  lemma {:induction false} UnescapeEscape(s: Bytes)
    ensures Unescape(Escape(s), true) == Some(s)
  {
    if s != [] {
      var e, rest := EscapeByte(s[0]), Escape(s[1..]);
      UnescapeEscape(s[1..]);
      assert (e + rest)[|e|..] == rest;
      assert forall k | 0 <= k < |e| :: (e + rest)[k] == e[k];
      assert s == [s[0]] + s[1..];
    }
  }

  // ---- What a text in a query stands for ----

  /** How one byte is written: as it is, as a plus sign, or as its two hexadecimal digits. */
  datatype Spelling = AsIs(b: Byte) | PlusSign | Digits(b: Byte, high: Byte, low: Byte) {
    predicate WellFormed(plusIsSpace: bool) {
      match this
      case AsIs(b) => b != PERCENT && !(plusIsSpace && b == PLUS)
      case PlusSign => plusIsSpace
      case Digits(b, high, low) => IsDigitFor(b / 16, high) && IsDigitFor(b % 16, low)
    }

    function Text(): Bytes {
      match this
      case AsIs(b) => [b]
      case PlusSign => [PLUS]
      case Digits(_, high, low) => [PERCENT, high, low]
    }

    function Meaning(): Byte {
      if PlusSign? then SPACE else b
    }
  }

  /** In either case. */
  predicate IsDigitFor(v: int, digit: Byte) {
    0 <= v < 16 && (digit == "0123456789abcdef"[v] as int || digit == "0123456789ABCDEF"[v] as int)
  }

  function SpelledText(spellings: seq<Spelling>): Bytes {
    if spellings == [] then [] else spellings[0].Text() + SpelledText(spellings[1..])
  }

  function Meanings(spellings: seq<Spelling>): Bytes {
    if spellings == [] then [] else [spellings[0].Meaning()] + Meanings(spellings[1..])
  }

  predicate AreWellFormed(spellings: seq<Spelling>, plusIsSpace: bool) {
    forall i | 0 <= i < |spellings| :: spellings[i].WellFormed(plusIsSpace)
  }

  lemma DigitsMean(v: int, digit: Byte)
    ensures IsDigitFor(v, digit) <==> IsHex(digit) && FromHex(digit) == v
  {
    if 0 <= v < 16 {
      DigitLiterals(v);
    }
  }

  lemma DigitLiterals(v: int)
    requires 0 <= v < 16
    ensures "0123456789abcdef"[v] as int == if v < 10 then 0x30 + v else 0x61 + v - 10
    ensures "0123456789ABCDEF"[v] as int == if v < 10 then 0x30 + v else 0x41 + v - 10
  {
  }

  /** A text that is not empty splits into the spelling of one byte and the rest, in one way. */
  lemma UnescapeFirst(spelling: Spelling, rest: Bytes, plusIsSpace: bool)
    requires spelling.WellFormed(plusIsSpace)
    ensures var r := Unescape(rest, plusIsSpace);
            Unescape(spelling.Text() + rest, plusIsSpace) ==
            if r.None? then None else Some([spelling.Meaning()] + r.value)
  {
    hide IsDigitFor, IsHex, FromHex;
    var t := spelling.Text() + rest;
    assert t[|spelling.Text()|..] == rest;
    if spelling.Digits? {
      DigitsMean(spelling.b / 16, spelling.high);
      DigitsMean(spelling.b % 16, spelling.low);
    }
  }

  lemma {:induction false} UnescapeSpelled(spellings: seq<Spelling>, plusIsSpace: bool)
    requires AreWellFormed(spellings, plusIsSpace)
    ensures Unescape(SpelledText(spellings), plusIsSpace) == Some(Meanings(spellings))
  {
    if spellings != [] {
      UnescapeSpelled(spellings[1..], plusIsSpace);
      UnescapeFirst(spellings[0], SpelledText(spellings[1..]), plusIsSpace);
    }
  }

  lemma FirstSpelling(t: Bytes, plusIsSpace: bool) returns (spelling: Spelling, rest: Bytes)
    requires t != [] && Unescape(t, plusIsSpace).Some?
    ensures spelling.WellFormed(plusIsSpace) && t == spelling.Text() + rest && |rest| < |t|
  {
    if t[0] == PERCENT {
      var v := FromHex(t[1]) * 16 + FromHex(t[2]);
      DigitsMean(v / 16, t[1]);
      DigitsMean(v % 16, t[2]);
      spelling, rest := Digits(v, t[1], t[2]), t[3..];
    } else {
      spelling, rest := if t[0] == PLUS && plusIsSpace then PlusSign else AsIs(t[0]), t[1..];
    }
  }

  lemma {:induction false} SpellingsOf(t: Bytes, plusIsSpace: bool) returns (spellings: seq<Spelling>)
    requires Unescape(t, plusIsSpace).Some?
    ensures AreWellFormed(spellings, plusIsSpace) && SpelledText(spellings) == t
    decreases |t|
  {
    if t == [] {
      spellings := [];
    } else {
      var first, rest := FirstSpelling(t, plusIsSpace);
      UnescapeFirst(first, rest, plusIsSpace);
      var more := SpellingsOf(rest, plusIsSpace);
      spellings := [first] + more;
      assert spellings[1..] == more;
    }
  }

  /** A text stands for a byte string exactly when it spells it byte by byte. */
  lemma UnescapeExactly(t: Bytes, plusIsSpace: bool, s: Bytes)
    ensures Unescape(t, plusIsSpace) == Some(s) <==>
            exists spellings :: AreWellFormed(spellings, plusIsSpace) && SpelledText(spellings) == t && Meanings(spellings) == s
  {
    if Unescape(t, plusIsSpace).Some? {
      var spellings := SpellingsOf(t, plusIsSpace);
      UnescapeSpelled(spellings, plusIsSpace);
    }
    if spellings :| AreWellFormed(spellings, plusIsSpace) && SpelledText(spellings) == t && Meanings(spellings) == s {
      UnescapeSpelled(spellings, plusIsSpace);
    }
  }

  /** What is printed spells every byte, and in this way: letters, digits and `-_.~` as they are, a space
      as a plus sign, any other byte with upper-case digits. */
  lemma {:induction false} EscapeSpells(s: Bytes) returns (spellings: seq<Spelling>)
    ensures AreWellFormed(spellings, true) && SpelledText(spellings) == Escape(s) && Meanings(spellings) == s
    ensures |spellings| == |s|
    ensures forall i | 0 <= i < |s| ::
              if IsUnreserved(s[i]) then spellings[i] == AsIs(s[i])
              else if s[i] == SPACE then spellings[i] == PlusSign
              else spellings[i].Digits? && !IsLower(spellings[i].high) && !IsLower(spellings[i].low)
  {
    if s == [] {
      spellings := [];
    } else {
      var b := s[0];
      var first :=
        if IsUnreserved(b) then AsIs(b) else if b == SPACE then PlusSign else Digits(b, ToHex(b / 16), ToHex(b % 16));
      if first.Digits? {
        DigitsMean(b / 16, first.high);
        DigitsMean(b % 16, first.low);
      }
      var more := EscapeSpells(s[1..]);
      spellings := [first] + more;
      assert spellings[1..] == more && s == [b] + s[1..];
    }
  }

  // ---- Parsing ----

  datatype Param = Param(name: Bytes, value: Bytes)

  /** The query split at every `&`. */
  function Segments(q: Bytes): (r: seq<Bytes>)
    ensures forall i | 0 <= i < |r| :: AMPERSAND !in r[i]
    ensures q != [] ==> r != []
    decreases |q|
  {
    if q == [] then [] else [Before(q, AMPERSAND)] + Segments(After(q, AMPERSAND))
  }

  /** The parameter a segment spells. A segment that is empty, holds a semicolon or holds a broken
      escape spells none: the parser skips it and goes on. */
  function ParseSegment(seg: Bytes): Option<Param> {
    if seg == [] || SEMICOLON in seg then None
    else
      var name, value := Unescape(Before(seg, EQUALS), true), Unescape(After(seg, EQUALS), true);
      if name.None? || value.None? then None else Some(Param(name.value, value.value))
  }

  /** A segment and the two texts that it is split into: at its first `=`, or none. */
  predicate IsSplit(seg: Bytes, name: Bytes, value: Bytes) {
    EQUALS !in name && (seg == name + [EQUALS] + value || (seg == name && value == []))
  }

  /** A segment spells a parameter exactly when it is not empty, holds no semicolon, and both of its texts
      stand for the name and the value. */
  lemma ParseSegmentExactly(seg: Bytes, p: Param)
    ensures ParseSegment(seg) == Some(p) <==>
            && seg != [] && SEMICOLON !in seg
            && exists name: Bytes, value: Bytes ::
                 IsSplit(seg, name, value) && Unescape(name, true) == Some(p.name) && Unescape(value, true) == Some(p.value)
  {
    hide Unescape;
    assert IsSplit(seg, Before(seg, EQUALS), After(seg, EQUALS));
    forall name: Bytes, value: Bytes | IsSplit(seg, name, value)
      ensures name == Before(seg, EQUALS) && value == After(seg, EQUALS)
    {
      if seg == name + [EQUALS] + value {
        CutUnique(name, EQUALS, value);
      } else {
        CutAbsent(seg, EQUALS);
      }
    }
  }

  function ParseSegments(segs: seq<Bytes>): seq<Param> {
    if segs == [] then []
    else
      var p := ParseSegment(segs[0]);
      (if p.Some? then [p.value] else []) + ParseSegments(segs[1..])
  }

  function ParseParams(q: Bytes): seq<Param> {
    ParseSegments(Segments(q))
  }

  type Values = map<Bytes, seq<Bytes>>

  function ValuesOf(ps: seq<Param>, name: Bytes): seq<Bytes> {
    if ps == [] then []
    else (if ps[0].name == name then [ps[0].value] else []) + ValuesOf(ps[1..], name)
  }

  function NamesOf(ps: seq<Param>): set<Bytes> {
    set p | p in ps :: p.name
  }

  /** The map a parsed query is handed over as: each name with its values in order. */
  function Collect(ps: seq<Param>): Values {
    map name | name in NamesOf(ps) :: ValuesOf(ps, name)
  }

  function ParseQuery(q: Bytes): Values {
    Collect(ParseParams(q))
  }

  function Count(s: Bytes, b: Byte): nat {
    if s == [] then 0 else (if s[0] == b then 1 else 0) + Count(s[1..], b)
  }

  /** The parser counts the separators first, where the library sets a bound on them. */
  predicate WithinMax(maxParams: Option<nat>, q: Bytes) {
    maxParams.None? || Count(q, AMPERSAND) + 1 <= maxParams.value
  }

  /** What the library hands over: of a query with more separators, nothing at all. */
  function ReadQuery(maxParams: Option<nat>, q: Bytes): Values {
    if WithinMax(maxParams, q) then ParseQuery(q) else map[]
  }

  // ---- Printing ----

  function PrintParam(p: Param): (r: Bytes)
    ensures r != []
  {
    Escape(p.name) + [EQUALS] + Escape(p.value)
  }

  function PrintParams(ps: seq<Param>): Bytes {
    if ps == [] then []
    else if |ps| == 1 then PrintParam(ps[0])
    else PrintParam(ps[0]) + [AMPERSAND] + PrintParams(ps[1..])
  }

  function ParamsOfName(name: Bytes, values: seq<Bytes>): (r: seq<Param>)
    ensures |r| == |values|
    ensures forall i | 0 <= i < |r| :: r[i] == Param(name, values[i])
  {
    seq(|values|, i requires 0 <= i < |values| => Param(name, values[i]))
  }

  function ParamsInOrder(names: seq<Bytes>, m: Values): seq<Param>
    requires forall i | 0 <= i < |names| :: names[i] in m
  {
    if names == [] then [] else ParamsOfName(names[0], m[names[0]]) + ParamsInOrder(names[1..], m)
  }

  /** The map printed with its names in increasing order. */
  ghost function EncodeValues(m: Values): Bytes {
    var names := SortedElements(m.Keys);
    assert forall i | 0 <= i < |names| :: names[i] in multiset(names);
    PrintParams(ParamsInOrder(names, m))
  }

  method PrintValues(m: Values) returns (q: Bytes)
    ensures q == EncodeValues(m)
  {
    var names := SortKeys(m.Keys);
    assert forall i | 0 <= i < |names| :: names[i] in multiset(names);
    q := PrintParams(ParamsInOrder(names, m));
  }

  // ---- Printing, then parsing ----

  lemma PrintedHasNo(p: Param, b: Byte)
    requires !IsPrinted(b) && b != EQUALS
    ensures b !in PrintParam(p)
  {
    EscapeHasNo(p.name, b);
    EscapeHasNo(p.value, b);
  }

  lemma {:induction false} ParamsHaveNo(ps: seq<Param>, b: Byte)
    requires !IsPrinted(b) && b != EQUALS && b != AMPERSAND
    ensures b !in PrintParams(ps)
  {
    if ps != [] {
      PrintedHasNo(ps[0], b);
      ParamsHaveNo(ps[1..], b);
    }
  }

  lemma ParsePrinted(p: Param)
    ensures ParseSegment(PrintParam(p)) == Some(p)
  {
    PrintedHasNo(p, SEMICOLON);
    EscapeHasNo(p.name, EQUALS);
    CutUnique(Escape(p.name), EQUALS, Escape(p.value));
    UnescapeEscape(p.name);
    UnescapeEscape(p.value);
  }

  lemma SegmentsOfOne(seg: Bytes)
    requires seg != [] && AMPERSAND !in seg
    ensures Segments(seg) == [seg]
  {
    CutAbsent(seg, AMPERSAND);
    assert Segments([]) == [];
  }

  lemma SegmentsOfMore(seg: Bytes, rest: Bytes)
    requires AMPERSAND !in seg
    ensures Segments(seg + [AMPERSAND] + rest) == [seg] + Segments(rest)
  {
    CutUnique(seg, AMPERSAND, rest);
  }

  lemma ParseMore(p: Param, segs: seq<Bytes>)
    ensures ParseSegments([PrintParam(p)] + segs) == [p] + ParseSegments(segs)
  {
    ParsePrinted(p);
    assert ([PrintParam(p)] + segs)[1..] == segs;
  }

  lemma ParseFirst(p: Param, rest: Bytes)
    ensures ParseParams(PrintParam(p)) == [p]
    ensures ParseParams(PrintParam(p) + [AMPERSAND] + rest) == [p] + ParseParams(rest)
  {
    hide PrintParam, ParseSegment, Segments;
    var first := PrintParam(p);
    PrintedHasNo(p, AMPERSAND);
    SegmentsOfOne(first);
    assert [first] == [first] + [];
    ParseMore(p, []);
    SegmentsOfMore(first, rest);
    ParseMore(p, Segments(rest));
  }

  lemma {:induction false} ParsePrintedParams(ps: seq<Param>)
    ensures ParseParams(PrintParams(ps)) == ps
  {
    if ps == [] {
      assert Segments([]) == [];
    } else {
      hide ParseParams, PrintParam;
      ParsePrintedParams(ps[1..]);
      ParseFirst(ps[0], PrintParams(ps[1..]));
    }
  }

  lemma {:induction false} ValuesOfConcat(a: seq<Param>, b: seq<Param>, name: Bytes)
    ensures ValuesOf(a + b, name) == ValuesOf(a, name) + ValuesOf(b, name)
  {
    if a == [] {
      assert a + b == b;
    } else {
      assert (a + b)[1..] == a[1..] + b;
      ValuesOfConcat(a[1..], b, name);
    }
  }

  lemma {:induction false} ValuesOfName(name: Bytes, values: seq<Bytes>, other: Bytes)
    ensures ValuesOf(ParamsOfName(name, values), other) == if other == name then values else []
  {
    if values != [] {
      assert ParamsOfName(name, values)[1..] == ParamsOfName(name, values[1..]);
      ValuesOfName(name, values[1..], other);
    }
  }

  lemma {:induction false} ValuesOfOrder(names: seq<Bytes>, m: Values, name: Bytes)
    requires forall i | 0 <= i < |names| :: names[i] in m
    requires Distinct(names)
    ensures ValuesOf(ParamsInOrder(names, m), name) == if name in names then m[name] else []
  {
    if names != [] {
      ValuesOfConcat(ParamsOfName(names[0], m[names[0]]), ParamsInOrder(names[1..], m), name);
      ValuesOfName(names[0], m[names[0]], name);
      ValuesOfOrder(names[1..], m, name);
      assert names == [names[0]] + names[1..];
    }
  }

  lemma {:induction false} ValuesOfIsNonEmpty(ps: seq<Param>, name: Bytes)
    ensures name in NamesOf(ps) <==> ValuesOf(ps, name) != []
  {
    if ps != [] {
      assert ps == [ps[0]] + ps[1..];
      assert NamesOf(ps) == {ps[0].name} + NamesOf(ps[1..]);
      ValuesOfIsNonEmpty(ps[1..], name);
    }
  }

  lemma CollectInOrder(names: seq<Bytes>, m: Values)
    requires Distinct(names) && (forall name :: name in names <==> name in m)
    requires forall name | name in m :: m[name] != []
    requires forall i | 0 <= i < |names| :: names[i] in m
    ensures Collect(ParamsInOrder(names, m)) == m
  {
    var ps := ParamsInOrder(names, m);
    forall name ensures name in Collect(ps) <==> name in m
      ensures name in m ==> ValuesOf(ps, name) == m[name]
    {
      ValuesOfOrder(names, m, name);
      ValuesOfIsNonEmpty(ps, name);
    }
  }

  /** Every map without empty value lists survives being printed and parsed. */
  lemma ParseEncode(m: Values)
    requires forall name | name in m :: m[name] != []
    ensures ParseQuery(EncodeValues(m)) == m
  {
    var names := SortedElements(m.Keys);
    ListingIsDistinct(names, m.Keys);
    CollectInOrder(names, m);
    ParsePrintedParams(ParamsInOrder(names, m));
  }

  predicate SortedByName(ps: seq<Param>) {
    forall i, j | 0 <= i < j < |ps| :: Leq(ps[i].name, ps[j].name)
  }

  /** The parameters of a printed map come grouped by name, the names in increasing order. */
  lemma EncodedIsSorted(m: Values)
    ensures SortedByName(ParseParams(EncodeValues(m)))
  {
    hide SortedByName, ParamsInOrder, ParseParams, PrintParams;
    var names := SortedElements(m.Keys);
    ListingIsDistinct(names, m.Keys);
    SortSorts(Listing(m.Keys));
    ParsePrintedParams(ParamsInOrder(names, m));
    OrderIsSorted(names, m);
  }

  lemma {:induction false} OrderIsSorted(names: seq<Bytes>, m: Values)
    requires Sorted(names) && forall i | 0 <= i < |names| :: names[i] in m
    ensures SortedByName(ParamsInOrder(names, m))
    ensures forall i | 0 <= i < |ParamsInOrder(names, m)| :: ParamsInOrder(names, m)[i].name in names
  {
    if names != [] {
      var first, rest := ParamsOfName(names[0], m[names[0]]), ParamsInOrder(names[1..], m);
      OrderIsSorted(names[1..], m);
      forall i | 0 <= i < |rest| ensures Leq(names[0], rest[i].name) {
        FirstIsLeast(names, rest[i].name);
      }
      SortedFirst(names[0], first, rest);
    }
  }

  lemma SortedFirst(name: Bytes, first: seq<Param>, rest: seq<Param>)
    requires forall i | 0 <= i < |first| :: first[i].name == name
    requires SortedByName(rest) && forall i | 0 <= i < |rest| :: Leq(name, rest[i].name)
    ensures SortedByName(first + rest)
  {
    LeqReflexive(name);
  }

  /** A printed query holds no byte outside the printed ones and its own separators. */
  lemma EncodedHasNo(m: Values, b: Byte)
    requires !IsPrinted(b) && b != EQUALS && b != AMPERSAND
    ensures b !in EncodeValues(m)
  {
    var names := SortedElements(m.Keys);
    ListingIsDistinct(names, m.Keys);
    ParamsHaveNo(ParamsInOrder(names, m), b);
  }

  /** A parsed map has no empty value list. */
  lemma ParsedIsNonEmpty(q: Bytes)
    ensures forall name | name in ParseQuery(q) :: ParseQuery(q)[name] != []
  {
    forall name | name in ParseQuery(q) ensures ParseQuery(q)[name] != [] {
      ValuesOfIsNonEmpty(ParseParams(q), name);
    }
  }

  // ---- Counting parameters ----

  lemma {:induction false} CountConcat(u: Bytes, v: Bytes, b: Byte)
    ensures Count(u + v, b) == Count(u, b) + Count(v, b)
  {
    if u == [] {
      assert u + v == v;
    } else {
      ConcatDropsFirst(u, v);
      CountConcat(u[1..], v, b);
    }
  }

  lemma {:induction false} CountNone(s: Bytes, b: Byte)
    requires b !in s
    ensures Count(s, b) == 0
  {
    if s != [] {
      CountNone(s[1..], b);
    }
  }

  lemma CountOne(b: Byte)
    ensures Count([b], b) == 1
  {
    assert [b][1..] == [];
  }

  lemma CountOfMore(u: Bytes, v: Bytes)
    requires AMPERSAND !in u
    ensures Count(u + [AMPERSAND] + v, AMPERSAND) == 1 + Count(v, AMPERSAND)
  {
    CountConcat(u + [AMPERSAND], v, AMPERSAND);
    CountConcat(u, [AMPERSAND], AMPERSAND);
    CountNone(u, AMPERSAND);
    CountOne(AMPERSAND);
  }

  lemma {:induction false} CountPrinted(ps: seq<Param>)
    ensures Count(PrintParams(ps), AMPERSAND) + 1 <= if ps == [] then 1 else |ps|
  {
    if ps != [] {
      PrintedHasNo(ps[0], AMPERSAND);
      CountNone(PrintParam(ps[0]), AMPERSAND);
      if |ps| > 1 {
        CountPrinted(ps[1..]);
        CountOfMore(PrintParam(ps[0]), PrintParams(ps[1..]));
      }
    }
  }

  lemma {:induction false} ParsedAtMost(segs: seq<Bytes>)
    ensures |ParseSegments(segs)| <= |segs|
  {
    if segs != [] {
      ParsedAtMost(segs[1..]);
    }
  }

  lemma {:induction false} CountSegments(q: Bytes)
    ensures |Segments(q)| <= Count(q, AMPERSAND) + 1
    decreases |q|
  {
    if q != [] {
      CountSegments(After(q, AMPERSAND));
      if AMPERSAND in q {
        CountOfMore(Before(q, AMPERSAND), After(q, AMPERSAND));
      }
    }
  }

  function Total(ps: seq<Param>, names: seq<Bytes>): nat {
    if names == [] then 0 else |ValuesOf(ps, names[0])| + Total(ps, names[1..])
  }

  lemma {:induction false} TotalStep(p: Param, ps: seq<Param>, names: seq<Bytes>)
    requires Distinct(names)
    ensures Total([p] + ps, names) == Total(ps, names) + if p.name in names then 1 else 0
  {
    if names != [] {
      assert ([p] + ps)[1..] == ps;
      TotalStep(p, ps, names[1..]);
      assert names == [names[0]] + names[1..];
    }
  }

  lemma {:induction false} TotalAtMost(ps: seq<Param>, names: seq<Bytes>)
    requires Distinct(names)
    ensures Total(ps, names) <= |ps|
  {
    if ps == [] {
      TotalOfNone(names);
    } else {
      TotalAtMost(ps[1..], names);
      TotalStep(ps[0], ps[1..], names);
      assert ps == [ps[0]] + ps[1..];
    }
  }

  lemma {:induction false} TotalOfNone(names: seq<Bytes>)
    ensures Total([], names) == 0
  {
    if names != [] {
      TotalOfNone(names[1..]);
    }
  }

  lemma {:induction false} ParamsInOrderTotal(names: seq<Bytes>, m: Values, ps: seq<Param>)
    requires forall i | 0 <= i < |names| :: names[i] in m && m[names[i]] == ValuesOf(ps, names[i])
    ensures |ParamsInOrder(names, m)| == Total(ps, names)
  {
    if names != [] {
      ParamsInOrderTotal(names[1..], m, ps);
    }
  }

  /** Printing some of the parameters of a query anew needs no more separators than it had. */
  lemma EncodedFits(q: Bytes, m: Values)
    requires forall name | name in m :: name in ParseQuery(q) && m[name] == ParseQuery(q)[name]
    ensures Count(EncodeValues(m), AMPERSAND) <= Count(q, AMPERSAND)
  {
    var names, ps := SortedElements(m.Keys), ParseParams(q);
    ListingIsDistinct(names, m.Keys);
    ParamsInOrderTotal(names, m, ps);
    TotalAtMost(ps, names);
    ParsedAtMost(Segments(q));
    CountSegments(q);
    CountPrinted(ParamsInOrder(names, m));
  }

  function Separators(n: nat): (r: Bytes)
    ensures forall i | 0 <= i < |r| :: r[i] == AMPERSAND
  {
    if n == 0 then [] else [AMPERSAND] + Separators(n - 1)
  }

  lemma EmptySegmentIsSkipped(q: Bytes)
    ensures ParseParams([AMPERSAND] + q) == ParseParams(q)
    ensures Count([AMPERSAND] + q, AMPERSAND) == 1 + Count(q, AMPERSAND)
  {
    assert [AMPERSAND] + q == [] + [AMPERSAND] + q;
    SegmentsOfMore([], q);
    CountOfMore([], q);
    assert ([[]] + Segments(q))[1..] == Segments(q);
  }

  /** Empty segments count, but spell no parameter. */
  lemma {:induction false} SeparatorsAreSkipped(n: nat, q: Bytes)
    ensures ParseParams(Separators(n) + q) == ParseParams(q)
    ensures Count(Separators(n) + q, AMPERSAND) >= n
  {
    hide Count, ParseParams;
    if n == 0 {
      assert Separators(n) + q == q;
    } else {
      SeparatorsAreSkipped(n - 1, q);
      EmptySegmentIsSkipped(Separators(n - 1) + q);
      ConcatAssociates([AMPERSAND], Separators(n - 1), q);
    }
  }
}
