/** Resolving the `${VAR}` and `${VAR:-fallback}` placeholders of a parsed configuration. */
module Expand {
  import opened Bytes
  import opened Ordering

  // ---- Placeholders ----

  predicate IsNameStart(b: Byte) { IsUpper(b) || IsLower(b) || b == UNDERSCORE }

  predicate IsNameByte(b: Byte) { IsNameStart(b) || IsDigit(b) }

  /** Letters, digits and underscores, and no digit first. */
  predicate IsName(s: Bytes) {
    && s != [] && !(0x30 <= s[0] <= 0x39)
    && forall i | 0 <= i < |s| ::
         0x41 <= s[i] <= 0x5A || 0x61 <= s[i] <= 0x7A || 0x30 <= s[i] <= 0x39 || s[i] == 0x5F
  }

  /** A placeholder by its parts: the language of the pattern
      `\$\{([A-Za-z_][A-Za-z0-9_]*)(?::-([^}]*))?\}`. */
  datatype Placeholder = Placeholder(name: Bytes, fallback: Option<Bytes>) {
    predicate WellFormed() {
      IsName(name) && (fallback.Some? ==> RIGHT_BRACE !in fallback.value)
    }

    function Text(): Bytes {
      [DOLLAR, LEFT_BRACE] + name + (if fallback.Some? then [COLON, MINUS] + fallback.value else []) + [RIGHT_BRACE]
    }
  }

  /** Where the run of name bytes that starts at `i` ends. */
  function NameEnd(s: Bytes, i: nat): (e: nat)
    requires i <= |s|
    ensures i <= e <= |s|
    decreases |s| - i
  {
    if i < |s| && IsNameByte(s[i]) then NameEnd(s, i + 1) else i
  }

  /** The placeholder that `s` starts with, if any. */
  function MatchAt(s: Bytes): Option<Placeholder> {
    if |s| < 3 || s[0] != DOLLAR || s[1] != LEFT_BRACE || !IsNameStart(s[2]) then None
    else
      var e := NameEnd(s, 3);
      if e < |s| && s[e] == RIGHT_BRACE then Some(Placeholder(s[2..e], None))
      else if e + 1 < |s| && s[e] == COLON && s[e + 1] == MINUS && RIGHT_BRACE in s[e + 2..] then
        Some(Placeholder(s[2..e], Some(Before(s[e + 2..], RIGHT_BRACE))))
      else None
  }

  lemma {:induction false} NameEndIsMaximal(s: Bytes, i: nat)
    requires i <= |s|
    ensures forall k | i <= k < NameEnd(s, i) :: IsNameByte(s[k])
    ensures NameEnd(s, i) < |s| ==> !IsNameByte(s[NameEnd(s, i)])
    decreases |s| - i
  {
    if i < |s| && IsNameByte(s[i]) {
      NameEndIsMaximal(s, i + 1);
    }
  }

  /** What the scanner finds is a placeholder, and `s` starts with it. */
  lemma MatchIsPlaceholder(s: Bytes)
    requires MatchAt(s).Some?
    ensures MatchAt(s).value.WellFormed() && MatchAt(s).value.Text() <= s
  {
    var e := NameEnd(s, 3);
    NameEndIsMaximal(s, 3);
    assert IsName(s[2..e]);
    if s[e] == RIGHT_BRACE {
      SpelledBare(s, e);
    } else {
      SpelledWithFallback(s, e, Before(s[e + 2..], RIGHT_BRACE));
    }
  }

  lemma SpelledBare(s: Bytes, e: nat)
    requires 2 <= e < |s| && s[0] == DOLLAR && s[1] == LEFT_BRACE && s[e] == RIGHT_BRACE
    ensures Placeholder(s[2..e], None).Text() <= s
  {
    assert s[..e + 1] == [DOLLAR, LEFT_BRACE] + s[2..e] + [] + [RIGHT_BRACE];
  }

  lemma SpelledWithFallback(s: Bytes, e: nat, f: Bytes)
    requires 2 <= e && e + 2 + |f| < |s| && s[0] == DOLLAR && s[1] == LEFT_BRACE
    requires s[e] == COLON && s[e + 1] == MINUS && f <= s[e + 2..] && s[e + 2 + |f|] == RIGHT_BRACE
    ensures Placeholder(s[2..e], Some(f)).Text() <= s
  {
    assert f == s[e + 2..e + 2 + |f|];
    assert s[..e + 2 + |f| + 1] == [DOLLAR, LEFT_BRACE] + s[2..e] + ([COLON, MINUS] + f) + [RIGHT_BRACE];
  }

  lemma {:induction false} NameEndAfter(s: Bytes, i: nat, e: nat)
    requires i <= e < |s| && (forall k | i <= k < e :: IsNameByte(s[k])) && !IsNameByte(s[e])
    ensures NameEnd(s, i) == e
    decreases e - i
  {
    if i < e {
      NameEndAfter(s, i + 1, e);
    }
  }

  /** Every placeholder that `s` starts with is the one the scanner finds; so there is at most one. */
  lemma PlaceholderIsMatch(p: Placeholder, rest: Bytes)
    requires p.WellFormed()
    ensures MatchAt(p.Text() + rest) == Some(p)
  {
    var s := p.Text() + rest;
    var e := 2 + |p.name|;
    assert s[2..e] == p.name;
    assert forall k | 2 <= k < e :: s[k] == p.name[k - 2];
    if p.fallback.None? {
      assert s[e] == RIGHT_BRACE;
      NameEndAfter(s, 3, e);
    } else {
      var f := p.fallback.value;
      assert s[e] == COLON && s[e + 1] == MINUS;
      NameEndAfter(s, 3, e);
      assert s[e + 2..] == f + [RIGHT_BRACE] + rest;
      CutUnique(f, RIGHT_BRACE, rest);
    }
  }

  /** `s` starts with a placeholder. */
  ghost predicate Starts(s: Bytes) {
    exists p: Placeholder :: p.WellFormed() && p.Text() <= s
  }

  lemma StartsIffMatch(s: Bytes)
    ensures Starts(s) <==> MatchAt(s).Some?
    ensures forall p: Placeholder | p.WellFormed() && p.Text() <= s :: MatchAt(s) == Some(p)
  {
    if MatchAt(s).Some? {
      MatchIsPlaceholder(s);
    }
    forall p: Placeholder | p.WellFormed() && p.Text() <= s ensures MatchAt(s) == Some(p) {
      var rest := s[|p.Text()|..];
      PlaceholderIsMatch(p, rest);
      assert s == p.Text() + rest;
    }
  }

  /** Whether `:-` occurs in `s`. */
  predicate HasMark(s: Bytes) {
    exists i | 0 <= i < |s| - 1 :: s[i] == COLON && s[i + 1] == MINUS
  }

  /** Looking for `:-` in the whole match tells whether a fallback was written. */
  lemma MarkMeansFallback(p: Placeholder)
    requires p.WellFormed()
    ensures HasMark(p.Text()) <==> p.fallback.Some?
  {
    var s, e := p.Text(), 2 + |p.name|;
    assert forall k | 2 <= k < e :: s[k] == p.name[k - 2];
    if p.fallback.Some? {
      assert s[e] == COLON && s[e + 1] == MINUS;
    } else {
      assert |s| == e + 1 && s[e] == RIGHT_BRACE;
    }
  }

  // ---- Decomposition ----

  datatype Piece = Literal(b: Byte) | Hole(p: Placeholder)

  /** Left to right: a placeholder wherever one starts, a literal byte elsewhere. */
  function Scan(s: Bytes): seq<Piece>
    decreases |s|
  {
    if s == [] then []
    else
      var m := MatchAt(s);
      if m.Some? then
        MatchIsPlaceholder(s);
        [Hole(m.value)] + Scan(s[|m.value.Text()|..])
      else [Literal(s[0])] + Scan(s[1..])
  }

  /** `pieces` put end to end spell `s`, and no literal byte stands where a placeholder starts. */
  ghost predicate Decomposes(s: Bytes, pieces: seq<Piece>)
    decreases |pieces|
  {
    if pieces == [] then s == []
    else
      match pieces[0]
      case Literal(b) => s != [] && s[0] == b && !Starts(s) && Decomposes(s[1..], pieces[1..])
      case Hole(p) => p.WellFormed() && p.Text() <= s && Decomposes(s[|p.Text()|..], pieces[1..])
  }

  lemma {:induction false} ScanDecomposes(s: Bytes)
    ensures Decomposes(s, Scan(s))
    decreases |s|
  {
    StartsIffMatch(s);
    if s != [] {
      var m := MatchAt(s);
      if m.Some? {
        MatchIsPlaceholder(s);
        ScanDecomposes(s[|m.value.Text()|..]);
      } else {
        ScanDecomposes(s[1..]);
      }
    }
  }

  lemma {:induction false} DecompositionIsScan(s: Bytes, pieces: seq<Piece>)
    requires Decomposes(s, pieces)
    ensures pieces == Scan(s)
    decreases |pieces|
  {
    if pieces != [] {
      var rest := pieces[1..];
      assert pieces == [pieces[0]] + rest;
      StartsIffMatch(s);
      if pieces[0].Literal? {
        DecompositionIsScan(s[1..], rest);
        ScanLiteral(s);
      } else {
        var p := pieces[0].p;
        DecompositionIsScan(s[|p.Text()|..], rest);
        ScanHole(s, p);
      }
    }
  }

  lemma ScanLiteral(s: Bytes)
    requires s != [] && MatchAt(s).None?
    ensures Scan(s) == [Literal(s[0])] + Scan(s[1..])
  {
  }

  lemma ScanHole(s: Bytes, p: Placeholder)
    requires MatchAt(s) == Some(p) && |p.Text()| <= |s|
    ensures Scan(s) == [Hole(p)] + Scan(s[|p.Text()|..])
  {
  }

  /** Every string decomposes into literals and leftmost placeholders in exactly one way. */
  lemma DecompositionIsUnique(s: Bytes, pieces: seq<Piece>)
    ensures Decomposes(s, pieces) <==> pieces == Scan(s)
  {
    ScanDecomposes(s);
    if Decomposes(s, pieces) {
      DecompositionIsScan(s, pieces);
    }
  }

  // ---- Expansion ----

  type Environment = map<Bytes, Bytes>

  /** What a placeholder stands for; nothing when its variable is unset and it has no fallback. */
  function Resolve(env: Environment, p: Placeholder): Option<Bytes> {
    if p.name in env then Some(env[p.name]) else p.fallback
  }

  function PieceValue(env: Environment, piece: Piece): Bytes {
    match piece
    case Literal(b) => [b]
    case Hole(p) => if Resolve(env, p).Some? then Resolve(env, p).value else []
  }

  function PieceMissing(env: Environment, piece: Piece): seq<Bytes> {
    if piece.Hole? && Resolve(env, piece.p).None? then [piece.p.name] else []
  }

  function Render(env: Environment, pieces: seq<Piece>): Bytes {
    if pieces == [] then [] else PieceValue(env, pieces[0]) + Render(env, pieces[1..])
  }

  /** The names that nothing resolves, in order. */
  function Unresolved(env: Environment, pieces: seq<Piece>): seq<Bytes> {
    if pieces == [] then [] else PieceMissing(env, pieces[0]) + Unresolved(env, pieces[1..])
  }

  lemma RenderStep(env: Environment, piece: Piece, rest: seq<Piece>)
    ensures Render(env, [piece] + rest) == PieceValue(env, piece) + Render(env, rest)
    ensures Unresolved(env, [piece] + rest) == PieceMissing(env, piece) + Unresolved(env, rest)
  {
    assert ([piece] + rest)[1..] == rest;
  }

  function Expanded(env: Environment, s: Bytes): Bytes {
    Render(env, Scan(s))
  }

  /** Text in which no placeholder starts is copied byte for byte. */
  lemma {:induction false} LiteralsAreCopied(env: Environment, text: Bytes, rest: Bytes)
    requires forall i | 0 <= i < |text| :: !Starts((text + rest)[i..])
    ensures Expanded(env, text + rest) == text + Expanded(env, rest)
    decreases |text|
  {
    var s := text + rest;
    if text == [] {
      assert s == rest;
    } else {
      LaterStarts(text, rest);
      LiteralsAreCopied(env, text[1..], rest);
      LiteralIsCopied(env, s);
      FirstAndRest(text, Expanded(env, rest));
    }
  }

  lemma FirstAndRest(s: Bytes, t: Bytes)
    requires s != []
    ensures [s[0]] + (s[1..] + t) == s + t && (s + t)[0] == s[0]
  {
  }

  lemma LiteralIsCopied(env: Environment, s: Bytes)
    requires s != [] && !Starts(s)
    ensures Expanded(env, s) == [s[0]] + Expanded(env, s[1..])
  {
    StartsIffMatch(s);
    ScanLiteral(s);
    RenderStep(env, Literal(s[0]), Scan(s[1..]));
  }

  lemma LaterStarts(text: Bytes, rest: Bytes)
    requires text != [] && forall i | 0 <= i < |text| :: !Starts((text + rest)[i..])
    ensures !Starts(text + rest) && (text + rest)[1..] == text[1..] + rest
    ensures forall i | 0 <= i < |text[1..]| :: !Starts((text[1..] + rest)[i..])
  {
    var s := text + rest;
    assert s[0..] == s;
    assert s[1..] == text[1..] + rest;
    forall i | 0 <= i < |text[1..]| ensures !Starts((text[1..] + rest)[i..]) {
      assert s[i + 1..] == (text[1..] + rest)[i..];
    }
  }

  /** ` (required by ` and `)` */
  const REQUIRED_BY: Bytes := [0x20, 0x28, 0x72, 0x65, 0x71, 0x75, 0x69, 0x72, 0x65, 0x64, 0x20, 0x62, 0x79, 0x20]
  const CLOSING: Bytes := [0x29]

  /** `name (required by key)` */
  function Entry(name: Bytes, key: Bytes): Bytes {
    name + REQUIRED_BY + key + CLOSING
  }

  lemma EntryText(name: Bytes, key: Bytes)
    ensures Entry(name, key) == name + Ascii(" (required by ") + key + Ascii(")")
  {
    hide Ascii;
    assert REQUIRED_BY == Ascii(" (required by ") && CLOSING == Ascii(")");
  }

  function Entries(names: seq<Bytes>, key: Bytes): seq<Bytes> {
    if names == [] then [] else [Entry(names[0], key)] + Entries(names[1..], key)
  }

  /** What is missing from one string. */
  function TextMissing(env: Environment, key: Bytes, s: Bytes): seq<Bytes> {
    Entries(Unresolved(env, Scan(s)), key)
  }

  /** What one match is replaced by, decided on the text of the match alone; and what it adds to the
      missing. */
  method ResolveMatch(env: Environment, key: Bytes, text: Bytes, ghost p: Placeholder)
    returns (value: Bytes, missing: seq<Bytes>)
    requires p.WellFormed() && text == p.Text()
    ensures p.name in env ==> value == env[p.name] && missing == []
    ensures p.name !in env && p.fallback.Some? ==> value == p.fallback.value && missing == []
    ensures p.name !in env && p.fallback.None? ==> value == [] && missing == [Entry(p.name, key)]
  {
    PlaceholderIsMatch(p, []);
    assert text + [] == text;
    MarkMeansFallback(p);
    var groups := MatchAt(text).value;
    if groups.name in env {
      return env[groups.name], [];
    }
    if HasMark(text) {
      return groups.fallback.value, [];
    }
    return [], [Entry(groups.name, key)];
  }

  lemma AfterLiteral(env: Environment, key: Bytes, s: Bytes)
    requires s != [] && MatchAt(s).None?
    ensures Expanded(env, s) == [s[0]] + Expanded(env, s[1..])
    ensures TextMissing(env, key, s) == TextMissing(env, key, s[1..])
  {
    ScanLiteral(s);
    RenderStep(env, Literal(s[0]), Scan(s[1..]));
    assert [] + Unresolved(env, Scan(s[1..])) == Unresolved(env, Scan(s[1..]));
  }

  lemma AfterHole(env: Environment, key: Bytes, s: Bytes, p: Placeholder, rest: Bytes)
    requires MatchAt(s) == Some(p) && |p.Text()| <= |s| && rest == s[|p.Text()|..]
    ensures Expanded(env, s) == (if Resolve(env, p).Some? then Resolve(env, p).value else []) + Expanded(env, rest)
    ensures TextMissing(env, key, s) ==
            (if Resolve(env, p).Some? then [] else [Entry(p.name, key)]) + TextMissing(env, key, rest)
  {
    ScanHole(s, p);
    RenderStep(env, Hole(p), Scan(rest));
    EntriesStep(PieceMissing(env, Hole(p)), Unresolved(env, Scan(rest)), key);
  }

  /** A placeholder stands for the value of its variable, whether or not it has a fallback; when the
      variable is unset, for the fallback that is written; and otherwise for nothing, and then it alone
      adds one entry with its name. Whatever that inserts is not scanned again, and does not join with
      what follows, which is expanded as if it stood alone. */
  lemma PlaceholderExpands(env: Environment, key: Bytes, p: Placeholder, rest: Bytes)
    requires p.WellFormed()
    ensures p.name in env ==> Expanded(env, p.Text() + rest) == env[p.name] + Expanded(env, rest)
    ensures p.name !in env && p.fallback.Some? ==>
              Expanded(env, p.Text() + rest) == p.fallback.value + Expanded(env, rest)
    ensures p.name !in env && p.fallback.None? ==>
              && Expanded(env, p.Text() + rest) == Expanded(env, rest)
              && TextMissing(env, key, p.Text() + rest) == [Entry(p.name, key)] + TextMissing(env, key, rest)
    ensures p.name in env || p.fallback.Some? ==>
              TextMissing(env, key, p.Text() + rest) == TextMissing(env, key, rest)
  {
    var s := p.Text() + rest;
    PlaceholderIsMatch(p, rest);
    assert s[|p.Text()|..] == rest;
    AfterHole(env, key, s, p, rest);
    assert [] + Expanded(env, rest) == Expanded(env, rest);
    assert [] + TextMissing(env, key, rest) == TextMissing(env, key, rest);
  }

  lemma EntriesStep(one: seq<Bytes>, rest: seq<Bytes>, key: Bytes)
    requires |one| <= 1
    ensures Entries(one + rest, key) == (if one == [] then [] else [Entry(one[0], key)]) + Entries(rest, key)
  {
    if one == [] {
      assert one + rest == rest;
    } else {
      assert (one + rest)[1..] == rest;
    }
  }

  lemma Advance<T>(done: seq<T>, step: seq<T>, next: seq<T>, rest: seq<T>, whole: seq<T>)
    requires done + rest == whole && rest == step + next
    ensures done + step + next == whole
  {
  }

  lemma AdvanceText(
      env: Environment, key: Bytes, s: Bytes, rest: Bytes, next: Bytes,
      out: Bytes, value: Bytes, missing: seq<Bytes>, names: seq<Bytes>)
    requires out + Expanded(env, rest) == Expanded(env, s)
    requires missing + TextMissing(env, key, rest) == TextMissing(env, key, s)
    requires Expanded(env, rest) == value + Expanded(env, next)
    requires TextMissing(env, key, rest) == names + TextMissing(env, key, next)
    ensures out + value + Expanded(env, next) == Expanded(env, s)
    ensures missing + names + TextMissing(env, key, next) == TextMissing(env, key, s)
  {
    Advance(out, value, Expanded(env, next), Expanded(env, rest), Expanded(env, s));
    Advance(missing, names, TextMissing(env, key, next), TextMissing(env, key, rest), TextMissing(env, key, s));
  }

  /** One step of the scan: a whole placeholder, or one literal byte. */
  method ExpandNext(env: Environment, key: Bytes, s: Bytes) returns (value: Bytes, names: seq<Bytes>, n: nat)
    requires s != []
    ensures 0 < n <= |s|
    ensures Expanded(env, s) == value + Expanded(env, s[n..])
    ensures TextMissing(env, key, s) == names + TextMissing(env, key, s[n..])
  {
    var m := MatchAt(s);
    if m.Some? {
      MatchIsPlaceholder(s);
      n := |m.value.Text()|;
      value, names := ResolveMatch(env, key, s[..n], m.value);
      AfterHole(env, key, s, m.value, s[n..]);
    } else {
      AfterLiteral(env, key, s);
      return [s[0]], [], 1;
    }
  }

  lemma NothingToExpand(env: Environment, key: Bytes)
    ensures Expanded(env, []) == [] && TextMissing(env, key, []) == []
  {
  }

  /** Replaces every placeholder of a string, left to right, collecting those nothing resolves. */
  method ExpandString(env: Environment, key: Bytes, s: Bytes) returns (out: Bytes, missing: seq<Bytes>)
    ensures out == Expanded(env, s)
    ensures missing == TextMissing(env, key, s)
  {
    hide Expanded, TextMissing;
    out, missing := [], [];
    var i := 0;
    assert s[0..] == s;
    while i < |s|
      invariant i <= |s|
      invariant out + Expanded(env, s[i..]) == Expanded(env, s)
      invariant missing + TextMissing(env, key, s[i..]) == TextMissing(env, key, s)
    {
      var rest := s[i..];
      var value, names, n := ExpandNext(env, key, rest);
      AdvanceText(env, key, s, rest, rest[n..], out, value, missing, names);
      assert rest[n..] == s[i + n..];
      out, missing, i := out + value, missing + names, i + n;
    }
    assert s[i..] == [];
    NothingToExpand(env, key);
  }

  // ---- The configuration ----

  /** One element of a list: a string, or anything else as it prints. */
  datatype Item = TextItem(text: Bytes) | OtherItem(printed: Bytes)

  datatype Value = TextValue(text: Bytes) | ListValue(items: seq<Item>) | StringsValue(strings: seq<Bytes>) | OtherValue

  type Settings = map<Bytes, Value>

  function ExpandedItem(env: Environment, item: Item): Bytes {
    match item
    case TextItem(text) => Expanded(env, text)
    case OtherItem(printed) => printed
  }

  function ExpandedItems(env: Environment, items: seq<Item>): seq<Bytes> {
    seq(|items|, i requires 0 <= i < |items| => ExpandedItem(env, items[i]))
  }

  function ExpandedValue(env: Environment, value: Value): Value {
    match value
    case TextValue(text) => TextValue(Expanded(env, text))
    case ListValue(items) => StringsValue(ExpandedItems(env, items))
    case _ => value
  }

  function ItemMissing(env: Environment, key: Bytes, item: Item): seq<Bytes> {
    if item.TextItem? then TextMissing(env, key, item.text) else []
  }

  function ItemsMissing(env: Environment, key: Bytes, items: seq<Item>): seq<Bytes> {
    if items == [] then [] else ItemsMissing(env, key, items[..|items| - 1]) + ItemMissing(env, key, items[|items| - 1])
  }

  lemma ItemsMissingLast(env: Environment, key: Bytes, front: seq<Item>, last: Item)
    ensures ItemsMissing(env, key, front + [last]) == ItemsMissing(env, key, front) + ItemMissing(env, key, last)
  {
    assert (front + [last])[..|front|] == front;
  }

  lemma ItemsMissingNext(env: Environment, key: Bytes, items: seq<Item>, i: nat)
    requires i < |items|
    ensures ItemsMissing(env, key, items[..i + 1]) == ItemsMissing(env, key, items[..i]) + ItemMissing(env, key, items[i])
  {
    ItemsMissingLast(env, key, items[..i], items[i]);
    assert items[..i + 1] == items[..i] + [items[i]];
  }

  function ValueMissing(env: Environment, key: Bytes, value: Value): seq<Bytes> {
    match value
    case TextValue(text) => TextMissing(env, key, text)
    case ListValue(items) => ItemsMissing(env, key, items)
    case _ => []
  }

  /** The unresolved placeholders of the given keys, in the order of the keys. */
  function KeysMissing(env: Environment, settings: Settings, keys: seq<Bytes>): seq<Bytes>
  {
    if keys == [] then []
    else KeysMissing(env, settings, keys[..|keys| - 1]) + KeyMissing(env, settings, keys[|keys| - 1])
  }

  function KeyMissing(env: Environment, settings: Settings, key: Bytes): seq<Bytes> {
    if key in settings then ValueMissing(env, key, settings[key]) else []
  }

  function ExpandedSettings(env: Environment, settings: Settings): Settings {
    map k | k in settings :: ExpandedValue(env, settings[k])
  }

  /** The configuration once the keys in `done` have been expanded. */
  function PartlyExpanded(env: Environment, settings: Settings, done: seq<Bytes>): Settings {
    map k | k in settings :: if k in done then ExpandedValue(env, settings[k]) else settings[k]
  }

  lemma OneMoreKey(env: Environment, settings: Settings, done: seq<Bytes>, key: Bytes)
    requires key in settings && key !in done
    ensures var before := PartlyExpanded(env, settings, done);
            && before[key] == settings[key] && KeyMissing(env, before, key) == KeyMissing(env, settings, key)
            && PartlyExpanded(env, settings, done + [key]) == before[key := ExpandedValue(env, settings[key])]
  {
  }

  lemma KeysDone(env: Environment, settings: Settings, keys: seq<Bytes>)
    ensures PartlyExpanded(env, settings, []) == settings
    ensures (forall k | k in settings :: k in keys) ==>
              PartlyExpanded(env, settings, keys) == ExpandedSettings(env, settings)
  {
  }

  class Config {
    var settings: Settings

    constructor (s: Settings)
      ensures settings == s
    {
      settings := s;
    }

    /** Fills a fresh list of strings, element by element. */
    static method ExpandItems(env: Environment, key: Bytes, items: seq<Item>)
      returns (expanded: array<Bytes>, missing: seq<Bytes>)
      ensures fresh(expanded) && expanded[..] == ExpandedItems(env, items)
      ensures missing == ItemsMissing(env, key, items)
    {
      hide ExpandedItem, ItemMissing;
      expanded := new Bytes[|items|];
      missing := [];
      ghost var all := ExpandedItems(env, items);
      for i := 0 to |items|
        invariant forall k | 0 <= k < i :: expanded[k] == all[k]
        invariant missing == ItemsMissing(env, key, items[..i])
      {
        var s, names := ExpandItem(env, key, items[i]);
        expanded[i] := s;
        missing := missing + names;
        ItemsMissingNext(env, key, items, i);
        assert s == all[i];
      }
      assert items[..|items|] == items;
    }

    static method ExpandItem(env: Environment, key: Bytes, item: Item) returns (s: Bytes, missing: seq<Bytes>)
      ensures s == ExpandedItem(env, item)
      ensures missing == ItemMissing(env, key, item)
    {
      if item.OtherItem? {
        return item.printed, [];
      }
      s, missing := ExpandString(env, key, item.text);
    }

    /** Expands the value of one key, if it is one that is expanded. */
    method ExpandKey(env: Environment, key: Bytes) returns (missing: seq<Bytes>)
      requires key in settings
      modifies this
      ensures settings == old(settings)[key := ExpandedValue(env, old(settings)[key])]
      ensures missing == KeyMissing(env, old(settings), key)
    {
      missing := [];
      ghost var value := settings[key];
      match settings[key] {
        case TextValue(text) =>
          if text != [] {
            var s;
            s, missing := ExpandString(env, key, text);
            settings := settings[key := TextValue(s)];
          }
        case ListValue(items) =>
          var expanded;
          expanded, missing := ExpandItems(env, key, items);
          settings := settings[key := StringsValue(expanded[..])];
        case StringsValue(_) =>
        case OtherValue =>
      }
    }

    /** Resolves every placeholder in place. `keys` are the keys of the configuration in whatever
        order they are handed out. The error names what is missing, sorted. */
    method ExpandEnvVars(env: Environment, keys: seq<Bytes>) returns (error: Option<seq<Bytes>>)
      requires multiset(keys) == multiset(settings.Keys)
      modifies this
      ensures settings == ExpandedSettings(env, old(settings))
      ensures var missing := KeysMissing(env, old(settings), keys);
              error == if missing == [] then None else Some(Sort(missing))
    {
      ListingIsDistinct(keys, settings.Keys);
      KeysDone(env, settings, keys);
      var missing := ExpandKeys(env, keys);
      if |missing| > 0 {
        return Some(Sort(missing));
      }
      return None;
    }

    /** The loop over the keys. */
    method ExpandKeys(env: Environment, keys: seq<Bytes>) returns (missing: seq<Bytes>)
      requires forall i | 0 <= i < |keys| :: keys[i] in settings
      requires Distinct(keys)
      modifies this
      ensures settings == PartlyExpanded(env, old(settings), keys)
      ensures missing == KeysMissing(env, old(settings), keys)
    {
      hide ExpandedValue, KeyMissing;
      missing := [];
      KeysDone(env, settings, []);
      for i := 0 to |keys|
        invariant settings == PartlyExpanded(env, old(settings), keys[..i])
        invariant missing == KeysMissing(env, old(settings), keys[..i])
      {
        ghost var done, key := keys[..i], keys[i];
        NotYetDone(keys, i);
        OneMoreKey(env, old(settings), done, key);
        MissingLast(env, old(settings), done, key);
        assert keys[..i + 1] == done + [key];
        var names := ExpandKey(env, keys[i]);
        missing := missing + names;
      }
      assert keys[..|keys|] == keys;
    }
  }

  lemma NotYetDone(keys: seq<Bytes>, i: nat)
    requires i < |keys| && (forall j, k | 0 <= j < k < |keys| :: keys[j] != keys[k])
    ensures keys[i] !in keys[..i]
  {
  }

  // ---- The order of the keys ----

  lemma {:induction false} MissingConcat(env: Environment, settings: Settings, a: seq<Bytes>, b: seq<Bytes>)
    ensures KeysMissing(env, settings, a + b) == KeysMissing(env, settings, a) + KeysMissing(env, settings, b)
    decreases |b|
  {
    if b == [] {
      assert a + b == a;
    } else {
      var front, last := b[..|b| - 1], b[|b| - 1];
      assert a + b == a + front + [last] && b == front + [last];
      MissingConcat(env, settings, a, front);
      MissingLast(env, settings, a + front, last);
      MissingLast(env, settings, front, last);
      ConcatAssociates(KeysMissing(env, settings, a), KeysMissing(env, settings, front), KeyMissing(env, settings, last));
    }
  }

  lemma MissingLast(env: Environment, settings: Settings, front: seq<Bytes>, last: Bytes)
    ensures KeysMissing(env, settings, front + [last]) ==
            KeysMissing(env, settings, front) + KeyMissing(env, settings, last)
  {
    assert (front + [last])[..|front|] == front;
  }

  lemma MissingMiddle(
      env: Environment, settings: Settings, a: seq<Bytes>, key: Bytes, b: seq<Bytes>)
    ensures multiset(KeysMissing(env, settings, a + [key] + b)) ==
            multiset(KeysMissing(env, settings, a + b)) + multiset(KeyMissing(env, settings, key))
  {
    MissingConcat(env, settings, a + [key], b);
    MissingConcat(env, settings, a, b);
    MissingLast(env, settings, a, key);
  }

  /** How often an entry is missing does not depend on the order of the keys. */
  lemma {:induction false} MissingForgetsOrder(env: Environment, settings: Settings, a: seq<Bytes>, b: seq<Bytes>)
    requires multiset(a) == multiset(b)
    ensures multiset(KeysMissing(env, settings, a)) == multiset(KeysMissing(env, settings, b))
    decreases |a|
  {
    if a == [] {
      assert |multiset(b)| == |b|;
    } else {
      var front, last := a[..|a| - 1], a[|a| - 1];
      assert a == front + [last] + [];
      var before, after := SplitAt(b, last, multiset(a));
      assert multiset(before + after) == multiset(b) - multiset{last};
      MissingForgetsOrder(env, settings, front, before + after);
      MissingMiddle(env, settings, front, last, []);
      MissingMiddle(env, settings, before, last, after);
      assert front + [] == front;
    }
  }

  lemma SplitAt(s: seq<Bytes>, x: Bytes, m: multiset<Bytes>)
    returns (before: seq<Bytes>, after: seq<Bytes>)
    requires multiset(s) == m && x in m
    ensures s == before + [x] + after
  {
    assert x in multiset(s);
    var i :| 0 <= i < |s| && s[i] == x;
    before, after := s[..i], s[i + 1..];
  }

  /** The outcome is the same for every order of the keys: the configuration is a function of the old
      one, and the sorted list of what is missing is one and the same. */
  lemma KeyOrderDoesNotMatter(env: Environment, settings: Settings, a: seq<Bytes>, b: seq<Bytes>)
    requires multiset(a) == multiset(b)
    ensures Sort(KeysMissing(env, settings, a)) == Sort(KeysMissing(env, settings, b))
  {
    MissingForgetsOrder(env, settings, a, b);
    SortForgetsOrder(KeysMissing(env, settings, a), KeysMissing(env, settings, b));
  }

  // ---- When expansion fails ----

  /** The strings of a value that are expanded. */
  predicate IsTextOf(value: Value, text: Bytes) {
    match value
    case TextValue(t) => t == text
    case ListValue(items) => TextItem(text) in items
    case _ => false
  }

  /** `text` holds a placeholder for `name` without fallback, and the variable is unset. */
  predicate LacksName(env: Environment, text: Bytes, name: Bytes) {
    Hole(Placeholder(name, None)) in Scan(text) && name !in env
  }

  ghost predicate Lacks(env: Environment, text: Bytes) {
    exists name :: LacksName(env, text, name)
  }

  lemma {:induction false} UnresolvedAre(env: Environment, pieces: seq<Piece>, name: Bytes)
    ensures name in Unresolved(env, pieces) <==> Hole(Placeholder(name, None)) in pieces && name !in env
  {
    if pieces != [] {
      UnresolvedAre(env, pieces[1..], name);
      assert pieces == [pieces[0]] + pieces[1..];
    }
  }

  lemma {:induction false} EntriesAre(names: seq<Bytes>, key: Bytes, entry: Bytes)
    ensures entry in Entries(names, key) <==> exists name | name in names :: entry == Entry(name, key)
  {
    if names != [] {
      EntriesAre(names[1..], key, entry);
      assert names == [names[0]] + names[1..];
    }
  }

  /** The entry that `text`, under `key`, makes for something it lacks. */
  ghost predicate IsEntryOf(env: Environment, key: Bytes, text: Bytes, entry: Bytes) {
    exists name :: LacksName(env, text, name) && entry == Entry(name, key)
  }

  lemma TextMissingAre(env: Environment, key: Bytes, text: Bytes, entry: Bytes)
    ensures entry in TextMissing(env, key, text) <==> IsEntryOf(env, key, text, entry)
  {
    var names := Unresolved(env, Scan(text));
    EntriesAre(names, key, entry);
    forall name ensures name in names <==> LacksName(env, text, name) {
      UnresolvedAre(env, Scan(text), name);
    }
  }

  lemma {:induction false} ItemsMissingAre(env: Environment, key: Bytes, items: seq<Item>, entry: Bytes)
    ensures entry in ItemsMissing(env, key, items) <==>
            exists item | item in items :: item.TextItem? && IsEntryOf(env, key, item.text, entry)
  {
    if items != [] {
      var n := |items| - 1;
      ItemsMissingAre(env, key, items[..n], entry);
      if items[n].TextItem? {
        TextMissingAre(env, key, items[n].text, entry);
      }
      assert items == items[..n] + [items[n]];
    }
  }

  lemma ValueMissingAre(env: Environment, key: Bytes, value: Value, entry: Bytes)
    ensures entry in ValueMissing(env, key, value) <==>
            exists text :: IsTextOf(value, text) && IsEntryOf(env, key, text, entry)
  {
    match value {
      case TextValue(t) =>
        TextMissingAre(env, key, t, entry);
        assert IsTextOf(value, t);
      case ListValue(items) =>
        ItemsMissingAre(env, key, items, entry);
        if item :| item in items && item.TextItem? && IsEntryOf(env, key, item.text, entry) {
          assert IsTextOf(value, item.text);
        }
      case _ =>
    }
  }

  /** The error lists exactly the placeholders without fallback whose variables are unset, each with its
      name and the key it stands under. */
  lemma {:induction false} MissingExactly(env: Environment, settings: Settings, keys: seq<Bytes>, entry: Bytes)
    ensures entry in KeysMissing(env, settings, keys) <==>
            exists k, text :: k in keys && k in settings && IsTextOf(settings[k], text) && IsEntryOf(env, k, text, entry)
    decreases |keys|
  {
    if keys != [] {
      var n := |keys| - 1;
      MissingExactly(env, settings, keys[..n], entry);
      if keys[n] in settings {
        ValueMissingAre(env, keys[n], settings[keys[n]], entry);
      }
      assert keys == keys[..n] + [keys[n]];
    }
  }

  /** Expansion fails exactly when some string of the configuration holds a placeholder that has no
      fallback and whose variable is unset. */
  lemma FailsIffLacking(env: Environment, settings: Settings, keys: seq<Bytes>)
    ensures KeysMissing(env, settings, keys) != [] <==>
            exists k, text :: k in keys && k in settings && IsTextOf(settings[k], text) && Lacks(env, text)
  {
    var missing := KeysMissing(env, settings, keys);
    if missing != [] {
      MissingExactly(env, settings, keys, missing[0]);
      var k, text :| k in keys && k in settings && IsTextOf(settings[k], text) && IsEntryOf(env, k, text, missing[0]);
      assert Lacks(env, text);
    }
    if k, text :| k in keys && k in settings && IsTextOf(settings[k], text) && Lacks(env, text) {
      var name :| LacksName(env, text, name);
      assert IsEntryOf(env, k, text, Entry(name, k));
      MissingExactly(env, settings, keys, Entry(name, k));
    }
  }

  /** What becomes of each value: strings are expanded, lists element by element in place, what is no
      string is printed, and nothing else changes. */
  lemma SettingsExpandInPlace(env: Environment, settings: Settings)
    ensures var after := ExpandedSettings(env, settings);
            && after.Keys == settings.Keys
            && forall k | k in settings ::
                 match settings[k]
                 case TextValue(text) => after[k] == TextValue(Expanded(env, text))
                 case ListValue(items) =>
                   && after[k].StringsValue? && |after[k].strings| == |items|
                   && forall i | 0 <= i < |items| ::
                        after[k].strings[i] ==
                        if items[i].OtherItem? then items[i].printed else Expanded(env, items[i].text)
                 case _ => after[k] == settings[k]
  {
  }
}
