/** Compaction of JSON text: a pushdown scanner that accepts one value of RFC 8259 and drops the
    white space between its tokens. */
module Json {
  import opened Bytes

  /** Where the scanner is inside an enclosing object or array. */
  datatype Place = ObjectKey | ObjectValue | ArrayValue

  /** What is left to read of `true`, `false` or `null`. */
  type Letters = s: Bytes | forall i | 0 <= i < |s| :: IsLower(s[i])

  datatype Mode =
    | BeginValueOrEmpty
    | BeginValue
    | BeginStringOrEmpty
    | BeginString
    | EndValue
    | EndTop
    | InString
    | InEscape
    | InUnicode(left: nat)
    | Negative
    | Zero
    | Digits
    | Point
    | Fraction
    | Exponent
    | ExponentSign
    | ExponentDigits
    | Word(rest: Letters)

  const MAX_DEPTH := 10000

  datatype Scan = Failed | Scan(mode: Mode, stack: seq<Place>)

  const START := Scan(BeginValue, [])

  predicate IsWhite(c: Byte) { c == SPACE || c == TAB || c == RETURN || c == NEWLINE }

  /** What may follow a backslash besides `u`. */
  predicate IsEscaped(c: Byte) {
    c == QUOTE || c == BACKSLASH || c == 0x2F || c == 0x62 || c == 0x66 || c == 0x6E || c == 0x72 || c == 0x74
  }

  function Top(stack: seq<Place>): Place
    requires stack != []
  {
    stack[|stack| - 1]
  }

  function SetTop(stack: seq<Place>, p: Place): seq<Place>
    requires stack != []
  {
    stack[..|stack| - 1] + [p]
  }

  function Push(stack: seq<Place>, p: Place, mode: Mode): Scan {
    if |stack| < MAX_DEPTH then Scan(mode, stack + [p]) else Failed
  }

  function Pop(stack: seq<Place>): Scan
    requires stack != []
  {
    var rest := stack[..|stack| - 1];
    Scan(if rest == [] then EndTop else EndValue, rest)
  }

  /** After a complete value. */
  function StepEndValue(stack: seq<Place>, c: Byte): Scan {
    if stack == [] then if IsWhite(c) then Scan(EndTop, []) else Failed
    else if IsWhite(c) then Scan(EndValue, stack)
    else
      match Top(stack)
      case ObjectKey =>
        if c == COLON then Scan(BeginValue, SetTop(stack, ObjectValue)) else Failed
      case ObjectValue =>
        if c == COMMA then Scan(BeginString, SetTop(stack, ObjectKey))
        else if c == RIGHT_BRACE then Pop(stack)
        else Failed
      case ArrayValue =>
        if c == COMMA then Scan(BeginValue, stack)
        else if c == RIGHT_BRACKET then Pop(stack)
        else Failed
  }

  function StepBeginValue(mode: Mode, stack: seq<Place>, c: Byte): Scan {
    if IsWhite(c) then Scan(mode, stack)
    else if c == LEFT_BRACE then Push(stack, ObjectKey, BeginStringOrEmpty)
    else if c == LEFT_BRACKET then Push(stack, ArrayValue, BeginValueOrEmpty)
    else if c == QUOTE then Scan(InString, stack)
    else if c == MINUS then Scan(Negative, stack)
    else if c == ZERO then Scan(Zero, stack)
    else if IsDigit(c) then Scan(Digits, stack)
    else if c == 0x74 then Scan(Word([0x72, 0x75, 0x65]), stack)
    else if c == 0x66 then Scan(Word([0x61, 0x6C, 0x73, 0x65]), stack)
    else if c == 0x6E then Scan(Word([0x75, 0x6C, 0x6C]), stack)
    else Failed
  }

  function StepBeginString(mode: Mode, stack: seq<Place>, c: Byte): Scan {
    if IsWhite(c) then Scan(mode, stack)
    else if c == QUOTE then Scan(InString, stack)
    else Failed
  }

  function StepNumber(mode: Mode, stack: seq<Place>, c: Byte): Scan {
    match mode
    case Negative =>
      if c == ZERO then Scan(Zero, stack) else if IsDigit(c) then Scan(Digits, stack) else Failed
    case Point => if IsDigit(c) then Scan(Fraction, stack) else Failed
    case Exponent =>
      if c == PLUS || c == MINUS then Scan(ExponentSign, stack)
      else if IsDigit(c) then Scan(ExponentDigits, stack)
      else Failed
    case ExponentSign => if IsDigit(c) then Scan(ExponentDigits, stack) else Failed
    case _ =>
      // the modes in which a number may be complete
      if IsDigit(c) && mode != Zero then Scan(mode, stack)
      else if c == DOT && (mode == Digits || mode == Zero) then Scan(Point, stack)
      else if (c == 0x65 || c == 0x45) && mode != ExponentDigits then Scan(Exponent, stack)
      else StepEndValue(stack, c)
  }

  function Step(q: Scan, c: Byte): Scan {
    if q.Failed? then Failed
    else
      match q.mode
      case BeginValueOrEmpty =>
        if c == RIGHT_BRACKET then StepEndValue(q.stack, c) else StepBeginValue(BeginValueOrEmpty, q.stack, c)
      case BeginValue => StepBeginValue(BeginValue, q.stack, c)
      case BeginStringOrEmpty =>
        if c == RIGHT_BRACE && q.stack != [] then StepEndValue(SetTop(q.stack, ObjectValue), c)
        else StepBeginString(BeginStringOrEmpty, q.stack, c)
      case BeginString => StepBeginString(BeginString, q.stack, c)
      case EndValue => StepEndValue(q.stack, c)
      case EndTop => if IsWhite(c) then q else Failed
      case InString =>
        if c == QUOTE then Scan(EndValue, q.stack)
        else if c == BACKSLASH then Scan(InEscape, q.stack)
        else if c < 0x20 then Failed
        else q
      case InEscape =>
        if IsEscaped(c) then Scan(InString, q.stack)
        else if c == 0x75 then Scan(InUnicode(3), q.stack)
        else Failed
      case InUnicode(left) =>
        if !IsHex(c) then Failed
        else if left == 0 then Scan(InString, q.stack)
        else Scan(InUnicode(left - 1), q.stack)
      case Word(rest) =>
        if rest == [] || c != rest[0] then Failed
        else if |rest| == 1 then Scan(EndValue, q.stack)
        else Scan(Word(rest[1..]), q.stack)
      case mode => StepNumber(mode, q.stack, c)
  }

  /** Whether the scanner is between the quotes of a string literal. */
  predicate Quoted(q: Scan) {
    q.Scan? && (q.mode == InString || q.mode == InEscape || q.mode.InUnicode?)
  }

  function Run(q: Scan, s: Bytes): Scan
    decreases |s|
  {
    if s == [] then q else Run(Step(q, s[0]), s[1..])
  }

  /** The bytes that are copied: all but the white space the scanner skips. */
  function Kept(q: Scan, s: Bytes): (r: Bytes)
    ensures |r| <= |s|
    decreases |s|
  {
    if s == [] then []
    else (if IsWhite(s[0]) && !Quoted(q) then [] else [s[0]]) + Kept(Step(q, s[0]), s[1..])
  }

  predicate IsNumberEnd(mode: Mode) {
    mode == Zero || mode == Digits || mode == Fraction || mode == ExponentDigits
  }

  /** Whether the text may end here: one complete value has been read. */
  predicate Accepts(q: Scan) {
    q.Scan? && (q.mode == EndTop || (q.stack == [] && (q.mode == EndValue || IsNumberEnd(q.mode))))
  }

  predicate IsValidJson(s: Bytes) { Accepts(Run(START, s)) }

  /** The text without its insignificant white space, if it is valid. */
  function Compact(s: Bytes): (r: Option<Bytes>)
    ensures r.Some? ==> |r.value| <= |s|
  {
    if IsValidJson(s) then Some(Kept(START, s)) else None
  }

  lemma {:induction false} FailedStays(s: Bytes)
    ensures Run(Failed, s) == Failed
    decreases |s|
  {
    if s != [] {
      FailedStays(s[1..]);
    }
  }

  lemma {:induction false} RunConcat(q: Scan, u: Bytes, v: Bytes)
    ensures Run(q, u + v) == Run(Run(q, u), v)
    ensures Kept(q, u + v) == Kept(q, u) + Kept(Run(q, u), v)
    decreases |u|
  {
    hide Step, Quoted, IsWhite;
    if u == [] {
      assert u + v == v;
    } else {
      ConcatDropsFirst(u, v);
      var q', first := Step(q, u[0]), if IsWhite(u[0]) && !Quoted(q) then [] else [u[0]];
      RunConcat(q', u[1..], v);
      ConcatAssociates(first, Kept(q', u[1..]), Kept(Run(q', u[1..]), v));
    }
  }

  // ---- What is kept ----

  /** Reading only the quotes and the backslashes. */
  datatype Lex = Outside | Inside | Escaped

  function LexStep(l: Lex, c: Byte): Lex {
    match l
    case Outside => if c == QUOTE then Inside else Outside
    case Inside => if c == QUOTE then Outside else if c == BACKSLASH then Escaped else Inside
    case Escaped => Inside
  }

  function LexRun(l: Lex, s: Bytes): Lex
    decreases |s|
  {
    if s == [] then l else LexRun(LexStep(l, s[0]), s[1..])
  }

  /** The text without the white space outside its string literals. */
  function WithoutWhite(l: Lex, s: Bytes): Bytes
    decreases |s|
  {
    if s == [] then []
    else (if IsWhite(s[0]) && l == Outside then [] else [s[0]]) + WithoutWhite(LexStep(l, s[0]), s[1..])
  }

  predicate Agree(q: Scan, l: Lex) {
    q.Failed? ||
    match l
    case Outside => !Quoted(q)
    case Inside => q.mode == InString || q.mode.InUnicode?
    case Escaped => q.mode == InEscape
  }

  lemma AgreeStep(q: Scan, l: Lex, c: Byte)
    requires Agree(q, l)
    ensures Agree(Step(q, c), LexStep(l, c))
  {
  }

  lemma {:induction false} AgreeRun(q: Scan, l: Lex, s: Bytes)
    requires Agree(q, l)
    ensures Agree(Run(q, s), LexRun(l, s))
    ensures Run(q, s).Scan? ==> Kept(q, s) == WithoutWhite(l, s)
    decreases |s|
  {
    if s != [] {
      AgreeStep(q, l, s[0]);
      AgreeRun(Step(q, s[0]), LexStep(l, s[0]), s[1..]);
      if q.Failed? {
        FailedStays(s[1..]);
      }
    }
  }

  /** What is stored of valid text is exactly the text without the white space outside its string
      literals: literals are kept byte for byte, and nothing else is dropped. */
  lemma CompactDropsOnlyWhite(s: Bytes)
    ensures Compact(s).Some? ==> Compact(s).value == WithoutWhite(Outside, s)
  {
    AgreeRun(START, Outside, s);
  }

  // ---- Compacting again ----

  /** `q'` is `q` before some white space that came after a complete value. */
  predicate Lags(q: Scan, q': Scan) {
    q == q' ||
    (&& q.Scan? && q'.Scan? && q.stack == q'.stack
     && (if q.stack == [] then q.mode == EndTop && (q'.mode == EndValue || IsNumberEnd(q'.mode))
         else q.mode == EndValue && IsNumberEnd(q'.mode)))
  }

  lemma LagsStep(q: Scan, q': Scan, c: Byte)
    requires Lags(q, q') && Step(q, c).Scan?
    ensures IsWhite(c) && !Quoted(q) ==> Lags(Step(q, c), q')
    ensures !(IsWhite(c) && !Quoted(q)) ==> Lags(Step(q, c), Step(q', c)) && !(IsWhite(c) && !Quoted(q'))
  {
  }

  lemma {:induction false} LagsRun(q: Scan, q': Scan, s: Bytes)
    requires Lags(q, q') && Run(q, s).Scan?
    ensures Lags(Run(q, s), Run(q', Kept(q, s)))
    ensures Kept(q', Kept(q, s)) == Kept(q, s)
    decreases |s|
  {
    if s != [] {
      var c, rest := s[0], s[1..];
      if Step(q, c).Failed? {
        FailedStays(rest);
        assert false;
      }
      LagsStep(q, q', c);
      if IsWhite(c) && !Quoted(q) {
        LagsRun(Step(q, c), q', rest);
        assert Kept(q, s) == Kept(Step(q, c), rest);
      } else {
        LagsRun(Step(q, c), Step(q', c), rest);
        assert Kept(q, s) == [c] + Kept(Step(q, c), rest);
      }
    }
  }

  /** Compaction is settled: what is stored is valid and compacts to itself. */
  lemma CompactSettles(s: Bytes)
    requires Compact(s).Some?
    ensures Compact(Compact(s).value) == Compact(s)
  {
    LagsRun(START, START, s);
  }

  lemma CompactKeepsFirst(s: Bytes)
    requires Compact(s).Some? && s != [] && !IsWhite(s[0])
    ensures Compact(s).value != [] && Compact(s).value[0] == s[0]
  {
  }

  /** Compact text ends in a printing ASCII character. */
  lemma CompactEnds(s: Bytes)
    requires Compact(s) == Some(s)
    ensures s != [] && 0x20 < s[|s| - 1] < 0x80
  {
    if s != [] {
      var front, c := s[..|s| - 1], s[|s| - 1];
      assert s == front + [c];
      RunConcat(START, front, [c]);
      RunOne(Run(START, front), c);
      LastIsKept(START, front, c);
      EndsPrinting(Run(START, front), c);
    }
  }

  lemma LastIsKept(q: Scan, front: Bytes, c: Byte)
    requires Kept(q, front + [c]) == front + [c]
    ensures !(IsWhite(c) && !Quoted(Run(q, front)))
  {
    RunConcat(q, front, [c]);
    assert |Kept(q, front)| + |Kept(Run(q, front), [c])| == |front| + 1;
    assert [c][1..] == [];
  }

  lemma EndsPrinting(q: Scan, c: Byte)
    requires Accepts(Step(q, c)) && !(IsWhite(c) && !Quoted(q))
    ensures 0x20 < c < 0x80
  {
  }

  // ---- Insignificant white space ----

  /** The six structural characters, and white space. */
  predicate IsSeparator(c: Byte) {
    c == LEFT_BRACE || c == RIGHT_BRACE || c == LEFT_BRACKET || c == RIGHT_BRACKET || c == COLON || c == COMMA ||
    IsWhite(c)
  }

  /** Between `u` and `v`, outside every string literal, at an end of the text or next to a
      separator: where section 2 of RFC 8259 allows white space without meaning. */
  predicate IsBetweenTokens(u: Bytes, v: Bytes) {
    LexRun(Outside, u) == Outside &&
    (u == [] || v == [] || IsSeparator(u[|u| - 1]) || IsSeparator(v[0]))
  }

  /** Where white space is simply skipped. */
  predicate SkipsWhite(q: Scan) {
    q.Failed? || q.mode == BeginValueOrEmpty || q.mode == BeginValue || q.mode == BeginStringOrEmpty ||
    q.mode == BeginString || q.mode == EndTop || (q.mode == EndValue && q.stack != [])
  }

  lemma SkipWhite(q: Scan, w: Byte)
    requires SkipsWhite(q) && IsWhite(w)
    ensures Step(q, w) == q
  {
  }

  lemma SeparatorThenSkips(q: Scan, c: Byte)
    requires IsSeparator(c) && !Quoted(q)
    ensures SkipsWhite(Step(q, c))
  {
    if !SkipsWhite(q) {
      if IsNumberEnd(q.mode) || q.mode == EndValue {
        SeparatorEndsNumber(q, c);
        EndValueThenSkips(q.stack, c);
      } else {
        SeparatorBreaksToken(q, c);
      }
    } else if q.Scan? && q.mode == EndValue {
      EndValueThenSkips(q.stack, c);
    }
  }

  lemma EndValueThenSkips(stack: seq<Place>, c: Byte)
    ensures SkipsWhite(StepEndValue(stack, c))
  {
  }

  lemma WhiteAfterSeparator(q: Scan, c: Byte, w: Byte)
    requires IsSeparator(c) && IsWhite(w) && !Quoted(q)
    ensures Step(Step(q, c), w) == Step(q, c)
  {
    SeparatorThenSkips(q, c);
    SkipWhite(Step(q, c), w);
  }

  lemma SeparatorEndsNumber(q: Scan, c: Byte)
    requires q.Scan? && IsSeparator(c) && (IsNumberEnd(q.mode) || q.mode == EndValue)
    ensures Step(q, c) == StepEndValue(q.stack, c)
  {
  }

  lemma SeparatorBreaksToken(q: Scan, c: Byte)
    requires IsSeparator(c) && !Quoted(q) && !SkipsWhite(q) && !IsNumberEnd(q.mode) && q.mode != EndValue
    ensures Step(q, c) == Failed
  {
  }

  lemma WhiteBeforeSeparator(q: Scan, w: Byte, c: Byte)
    requires IsSeparator(c) && IsWhite(w) && !Quoted(q)
    ensures Step(Step(q, w), c) == Step(q, c)
  {
    if SkipsWhite(q) {
      SkipWhite(q, w);
    } else if IsNumberEnd(q.mode) || q.mode == EndValue {
      SeparatorEndsNumber(q, w);
      SeparatorEndsNumber(q, c);
    } else {
      SeparatorBreaksToken(q, w);
      SeparatorBreaksToken(q, c);
    }
  }

  lemma WhiteAtEnd(q: Scan, w: Byte)
    requires IsWhite(w) && !Quoted(q)
    ensures Accepts(Step(q, w)) == Accepts(q)
  {
  }

  lemma {:induction false} LexConcat(l: Lex, u: Bytes, v: Bytes)
    ensures LexRun(l, u + v) == LexRun(LexRun(l, u), v)
    decreases |u|
  {
    if u == [] {
      assert u + v == v;
    } else {
      assert (u + v)[1..] == u[1..] + v;
      LexConcat(LexStep(l, u[0]), u[1..], v);
    }
  }

  /** The scanner cannot tell white space between tokens: it ends up the same, keeping the same. */
  lemma WhiteIsSkipped(u: Bytes, w: Byte, v: Bytes)
    requires IsWhite(w) && IsBetweenTokens(u, v)
    ensures var q := Run(START, u);
            && Accepts(Run(Step(q, w), v)) == Accepts(Run(q, v))
            && (Accepts(Run(q, v)) ==> Kept(Step(q, w), v) == Kept(q, v))
            && !Quoted(q)
  {
    var q := Run(START, u);
    AgreeRun(START, Outside, u);
    if u == [] {
    } else if IsSeparator(u[|u| - 1]) {
      WhiteAfterText(u, w);
    } else if v == [] {
      WhiteAtEnd(q, w);
    } else {
      WhiteBeforeSeparator(q, w, v[0]);
      assert !Quoted(Step(q, w));
    }
  }

  lemma TextAgrees(u: Bytes)
    ensures Agree(Run(START, u), LexRun(Outside, u))
  {
    AgreeRun(START, Outside, u);
  }

  lemma OutsideBefore(q: Scan, l: Lex, c: Byte)
    requires Agree(q, l) && IsSeparator(c) && LexStep(l, c) == Outside
    ensures !Quoted(q)
  {
  }

  lemma WhiteAfterText(u: Bytes, w: Byte)
    requires u != [] && IsSeparator(u[|u| - 1]) && IsWhite(w) && LexRun(Outside, u) == Outside
    ensures Step(Run(START, u), w) == Run(START, u)
  {
    hide Step, IsSeparator, LexStep, Agree, Quoted;
    var u', c := u[..|u| - 1], u[|u| - 1];
    assert u == u' + [c];
    RunConcat(START, u', [c]);
    RunOne(Run(START, u'), c);
    LexConcat(Outside, u', [c]);
    LexOne(LexRun(Outside, u'), c);
    TextAgrees(u');
    OutsideBefore(Run(START, u'), LexRun(Outside, u'), c);
    WhiteAfterSeparator(Run(START, u'), c, w);
  }

  lemma RunOne(q: Scan, c: Byte)
    ensures Run(q, [c]) == Step(q, c)
  {
    assert [c][1..] == [];
  }

  lemma LexOne(l: Lex, c: Byte)
    ensures LexRun(l, [c]) == LexStep(l, c)
  {
    assert [c][1..] == [];
  }

  /** A byte of white space put between tokens changes neither validity nor what is stored. */
  lemma InsignificantWhite(u: Bytes, w: Byte, v: Bytes)
    requires IsWhite(w) && IsBetweenTokens(u, v)
    ensures Compact(u + [w] + v) == Compact(u + v)
  {
    var q := Run(START, u);
    WhiteIsSkipped(u, w, v);
    RunConcat(START, u, v);
    RunConcat(START, u, [w] + v);
    assert u + [w] + v == u + ([w] + v);
    assert ([w] + v)[1..] == v;
    assert Run(q, [w] + v) == Run(Step(q, w), v);
    assert Kept(q, [w] + v) == Kept(Step(q, w), v);
  }

  /** `t` is `s` with one byte of white space put between two tokens. */
  ghost predicate IsSpacedOut(s: Bytes, t: Bytes) {
    exists u: Bytes, w: Byte, v: Bytes ::
      s == u + v && t == u + [w] + v && IsWhite(w) && IsBetweenTokens(u, v)
  }

  /** From each text to the next, one byte of white space between tokens is put in or taken out. */
  ghost predicate IsRespacing(texts: seq<Bytes>) {
    forall i | 0 < i < |texts| ::
      IsSpacedOut(texts[i - 1], texts[i]) || IsSpacedOut(texts[i], texts[i - 1])
  }

  /** Texts that differ by white space between tokens, however much and wherever, are both valid or
      both not, and store identical bytes. */
  lemma {:induction false} RespacingIsInvisible(texts: seq<Bytes>)
    requires texts != [] && IsRespacing(texts)
    ensures Compact(texts[|texts| - 1]) == Compact(texts[0])
  {
    hide Compact;
    var n := |texts| - 1;
    if n > 0 {
      RespacingIsInvisible(texts[..n]);
      if IsSpacedOut(texts[n - 1], texts[n]) {
        SpacedOutIsInvisible(texts[n - 1], texts[n]);
      } else {
        SpacedOutIsInvisible(texts[n], texts[n - 1]);
      }
    }
  }

  lemma SpacedOutIsInvisible(s: Bytes, t: Bytes)
    requires IsSpacedOut(s, t)
    ensures Compact(t) == Compact(s)
  {
    var u: Bytes, w: Byte, v: Bytes :| s == u + v && t == u + [w] + v && IsWhite(w) && IsBetweenTokens(u, v);
    InsignificantWhite(u, w, v);
  }

  /** Of valid texts, exactly those that agree up to white space outside their string literals store
      identical bytes. */
  lemma StoredAlike(s: Bytes, t: Bytes)
    requires IsValidJson(s) && IsValidJson(t)
    ensures Compact(s) == Compact(t) <==> WithoutWhite(Outside, s) == WithoutWhite(Outside, t)
  {
    CompactDropsOnlyWhite(s);
    CompactDropsOnlyWhite(t);
  }
}
