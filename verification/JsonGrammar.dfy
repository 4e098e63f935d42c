/** The texts that RFC 8259 calls JSON, described by their structure alone, and why the scanner accepts
    exactly those of them that nest no deeper than its limit. */
module JsonGrammar {
  import opened Bytes
  import opened Json

  // ---- The grammar ----

  predicate IsBlank(s: Bytes) {
    forall i | 0 <= i < |s| :: s[i] == 0x20 || s[i] == 0x09 || s[i] == 0x0A || s[i] == 0x0D
  }

  predicate IsNumeral(s: Bytes) {
    s != [] && forall i | 0 <= i < |s| :: IsDigit(s[i])
  }

  /** What follows the digits of the mantissa, section 6 of RFC 8259. */
  datatype Power = Power(letter: Byte, sign: Option<Byte>, digits: Bytes) {
    predicate WellFormed() {
      (letter == 0x65 || letter == 0x45) && (sign.Some? ==> sign.value == PLUS || sign.value == MINUS) && IsNumeral(digits)
    }

    function Text(): Bytes {
      [letter] + (if sign.Some? then [sign.value] else []) + digits
    }
  }

  datatype Number = Number(negative: bool, whole: Bytes, decimals: Option<Bytes>, power: Option<Power>) {
    predicate WellFormed() {
      && IsNumeral(whole) && (whole[0] == ZERO ==> |whole| == 1)
      && (decimals.Some? ==> IsNumeral(decimals.value)) && (power.Some? ==> power.value.WellFormed())
    }

    function Text(): Bytes {
      (if negative then [MINUS] else []) + whole + DecimalsText() + PowerText()
    }

    function DecimalsText(): Bytes { if decimals.Some? then [DOT] + decimals.value else [] }

    function PowerText(): Bytes { if power.Some? then power.value.Text() else [] }
  }

  /** One character of a string literal, section 7: as it is, or behind a backslash. */
  datatype Unit = Plain(b: Byte) | Short(b: Byte) | Long(digits: Bytes) {
    predicate WellFormed() {
      match this
      case Plain(b) => b >= 0x20 && b != QUOTE && b != BACKSLASH
      case Short(b) => b in [QUOTE, BACKSLASH, 0x2F, 0x62, 0x66, 0x6E, 0x72, 0x74]
      case Long(digits) => |digits| == 4 && forall i | 0 <= i < 4 :: IsHex(digits[i])
    }

    function Text(): Bytes {
      match this
      case Plain(b) => [b]
      case Short(b) => [BACKSLASH, b]
      case Long(digits) => [BACKSLASH] + [0x75] + digits
    }
  }

  predicate AreWellFormed(units: seq<Unit>) {
    forall i | 0 <= i < |units| :: units[i].WellFormed()
  }

  function UnitsText(units: seq<Unit>): Bytes {
    if units == [] then [] else units[0].Text() + UnitsText(units[1..])
  }

  function Quote(units: seq<Unit>): Bytes {
    [QUOTE] + UnitsText(units) + [QUOTE]
  }

  datatype Value =
    | Null
    | True
    | False
    | Numeric(number: Number)
    | Literal(units: seq<Unit>)
    | EmptyArray(blank: Bytes)
    | Array(elements: Elements)
    | EmptyObject(blank: Bytes)
    | Object(members: Members)

  /** A value with the white space around it. */
  datatype Element = Element(before: Bytes, value: Value, after: Bytes)

  datatype Elements = LastElement(last: Element) | MoreElements(first: Element, rest: Elements)

  datatype Member = Member(before: Bytes, key: seq<Unit>, after: Bytes, element: Element)

  datatype Members = LastMember(last: Member) | MoreMembers(first: Member, rest: Members)

  function ValueText(v: Value): Bytes {
    match v
    case Null => Ascii("null")
    case True => Ascii("true")
    case False => Ascii("false")
    case Numeric(number) => number.Text()
    case Literal(units) => Quote(units)
    case EmptyArray(blank) => [LEFT_BRACKET] + blank + [RIGHT_BRACKET]
    case Array(elements) => [LEFT_BRACKET] + ElementsText(elements) + [RIGHT_BRACKET]
    case EmptyObject(blank) => [LEFT_BRACE] + blank + [RIGHT_BRACE]
    case Object(members) => [LEFT_BRACE] + MembersText(members) + [RIGHT_BRACE]
  }

  function ElementText(e: Element): Bytes {
    e.before + ValueText(e.value) + e.after
  }

  function ElementsText(es: Elements): Bytes {
    match es
    case LastElement(last) => ElementText(last)
    case MoreElements(first, rest) => ElementText(first) + [COMMA] + ElementsText(rest)
  }

  function MemberText(m: Member): Bytes {
    m.before + Quote(m.key) + m.after + [COLON] + ElementText(m.element)
  }

  function MembersText(ms: Members): Bytes {
    match ms
    case LastMember(last) => MemberText(last)
    case MoreMembers(first, rest) => MemberText(first) + [COMMA] + MembersText(rest)
  }

  predicate ValueFits(v: Value, depth: int) {
    match v
    case Null => true
    case True => true
    case False => true
    case Numeric(number) => number.WellFormed()
    case Literal(units) => AreWellFormed(units)
    case EmptyArray(blank) => depth > 0 && IsBlank(blank)
    case Array(elements) => depth > 0 && ElementsFit(elements, depth - 1)
    case EmptyObject(blank) => depth > 0 && IsBlank(blank)
    case Object(members) => depth > 0 && MembersFit(members, depth - 1)
  }

  /** Well formed, and with at most `depth` arrays and objects around any of its parts. */
  predicate ElementFits(e: Element, depth: int) {
    IsBlank(e.before) && ValueFits(e.value, depth) && IsBlank(e.after)
  }

  predicate ElementsFit(es: Elements, depth: int) {
    match es
    case LastElement(last) => ElementFits(last, depth)
    case MoreElements(first, rest) => ElementFits(first, depth) && ElementsFit(rest, depth)
  }

  predicate MemberFits(m: Member, depth: int) {
    IsBlank(m.before) && AreWellFormed(m.key) && IsBlank(m.after) && ElementFits(m.element, depth)
  }

  predicate MembersFit(ms: Members, depth: int) {
    match ms
    case LastMember(last) => MemberFits(last, depth)
    case MoreMembers(first, rest) => MemberFits(first, depth) && MembersFit(rest, depth)
  }

  // ---- The same value without white space ----

  function BareValue(v: Value): Value {
    match v
    case EmptyArray(_) => EmptyArray([])
    case Array(elements) => Array(BareElements(elements))
    case EmptyObject(_) => EmptyObject([])
    case Object(members) => Object(BareMembers(members))
    case _ => v
  }

  function BareElement(e: Element): Element {
    Element([], BareValue(e.value), [])
  }

  function BareElements(es: Elements): Elements {
    match es
    case LastElement(last) => LastElement(BareElement(last))
    case MoreElements(first, rest) => MoreElements(BareElement(first), BareElements(rest))
  }

  function BareMember(m: Member): Member {
    Member([], m.key, [], BareElement(m.element))
  }

  function BareMembers(ms: Members): Members {
    match ms
    case LastMember(last) => LastMember(BareMember(last))
    case MoreMembers(first, rest) => MoreMembers(BareMember(first), BareMembers(rest))
  }

  // ---- Every such text is accepted ----

  /** The scanner is past a complete value. */
  predicate IsDone(q: Scan, stack: seq<Place>) {
    q.Scan? && q.stack == stack &&
    (q.mode == EndValue || IsNumberEnd(q.mode) || (q.mode == EndTop && stack == []))
  }

  predicate Begins(q: Scan) {
    q.Scan? && (q.mode == BeginValue || q.mode == BeginValueOrEmpty || q.mode == BeginString || q.mode == BeginStringOrEmpty)
  }

  /** Reading `s` takes the scanner from `q` to `q'` and keeps `kept`. */
  predicate Reads(q: Scan, s: Bytes, q': Scan, kept: Bytes) {
    Run(q, s) == q' && Kept(q, s) == kept
  }

  lemma ReadsConcat(q: Scan, u: Bytes, q': Scan, keptU: Bytes, v: Bytes, q'': Scan, keptV: Bytes)
    requires Reads(q, u, q', keptU) && Reads(q', v, q'', keptV)
    ensures Reads(q, u + v, q'', keptU + keptV)
  {
    RunConcat(q, u, v);
  }

  lemma ReadsOne(q: Scan, c: Byte)
    ensures Reads(q, [c], Step(q, c), if IsWhite(c) && !Quoted(q) then [] else [c])
  {
    assert [c][1..] == [];
  }

  lemma InkReads(q: Scan, c: Byte, q': Scan)
    requires Step(q, c) == q' && (IsWhite(c) ==> Quoted(q))
    ensures Reads(q, [c], q', [c])
  {
    ReadsOne(q, c);
  }

  lemma ReadsNothing(q: Scan)
    ensures Reads(q, [], q, [])
  {
  }

  lemma DoneStep(q: Scan, stack: seq<Place>, c: Byte)
    requires IsDone(q, stack) && IsSeparator(c)
    ensures Step(q, c) == StepEndValue(stack, c)
    ensures !Quoted(q)
  {
    if q.mode != EndTop {
      SeparatorEndsNumber(q, c);
    }
  }

  lemma {:induction false} BlankAfterValue(q: Scan, stack: seq<Place>, blank: Bytes) returns (q': Scan)
    requires IsDone(q, stack) && IsBlank(blank)
    ensures IsDone(q', stack) && Reads(q, blank, q', [])
    ensures q' == q || q'.mode == EndValue || q'.mode == EndTop
    decreases |blank|
  {
    if blank == [] {
      q' := q;
    } else {
      DoneStep(q, stack, blank[0]);
      q' := BlankAfterValue(Step(q, blank[0]), stack, blank[1..]);
    }
  }

  lemma {:induction false} BlankBeforeValue(q: Scan, blank: Bytes)
    requires Begins(q) && IsBlank(blank)
    ensures Reads(q, blank, q, [])
    decreases |blank|
  {
    if blank != [] {
      SkipWhite(q, blank[0]);
      BlankBeforeValue(q, blank[1..]);
    }
  }

  lemma {:induction false} KeepsInk(q: Scan, s: Bytes)
    requires forall i | 0 <= i < |s| :: !IsWhite(s[i])
    ensures Kept(q, s) == s
    decreases |s|
  {
    if s != [] {
      KeepsInk(Step(q, s[0]), s[1..]);
    }
  }

  // Literal names

  lemma {:induction false} WordReads(rest: Letters, stack: seq<Place>)
    requires rest != []
    ensures Reads(Scan(Word(rest), stack), rest, Scan(EndValue, stack), rest)
    decreases |rest|
  {
    if |rest| == 1 {
      assert rest[1..] == [];
    } else {
      WordReads(rest[1..], stack);
    }
  }

  lemma NameReads(c: Byte, rest: Letters, stack: seq<Place>)
    requires rest != [] && !IsWhite(c) && Step(Scan(BeginValue, stack), c) == Scan(Word(rest), stack)
    ensures Reads(Scan(BeginValue, stack), [c] + rest, Scan(EndValue, stack), [c] + rest)
  {
    var q := Scan(BeginValue, stack);
    InkReads(q, c, Scan(Word(rest), stack));
    WordReads(rest, stack);
    ReadsConcat(q, [c], Scan(Word(rest), stack), [c], rest, Scan(EndValue, stack), rest);
  }

  lemma LiteralNames()
    ensures Ascii("null") == [0x6E] + [0x75, 0x6C, 0x6C]
    ensures Ascii("true") == [0x74] + [0x72, 0x75, 0x65]
    ensures Ascii("false") == [0x66] + [0x61, 0x6C, 0x73, 0x65]
  {
    hide Ascii;
  }

  lemma LiteralNamesRead(stack: seq<Place>)
    ensures Reads(Scan(BeginValue, stack), Ascii("null"), Scan(EndValue, stack), Ascii("null"))
    ensures Reads(Scan(BeginValue, stack), Ascii("true"), Scan(EndValue, stack), Ascii("true"))
    ensures Reads(Scan(BeginValue, stack), Ascii("false"), Scan(EndValue, stack), Ascii("false"))
  {
    hide Ascii, Reads;
    LiteralNames();
    NameReads(0x6E, [0x75, 0x6C, 0x6C], stack);
    NameReads(0x74, [0x72, 0x75, 0x65], stack);
    NameReads(0x66, [0x61, 0x6C, 0x73, 0x65], stack);
  }

  // String literals

  lemma UnitReads(unit: Unit, stack: seq<Place>)
    requires unit.WellFormed()
    ensures Reads(Scan(InString, stack), unit.Text(), Scan(InString, stack), unit.Text())
  {
    var q := Scan(InString, stack);
    match unit
    case Plain(b) =>
      InkReads(q, b, q);
    case Short(b) =>
      ShortReads(b, stack);
    case Long(digits) =>
      LongReads(digits, stack);
  }

  lemma ShortReads(b: Byte, stack: seq<Place>)
    requires IsEscaped(b)
    ensures Reads(Scan(InString, stack), [BACKSLASH, b], Scan(InString, stack), [BACKSLASH, b])
  {
    var q, escape := Scan(InString, stack), Scan(InEscape, stack);
    InkReads(q, BACKSLASH, escape);
    InkReads(escape, b, q);
    hide Reads;
    ReadsConcat(q, [BACKSLASH], escape, [BACKSLASH], [b], q, [b]);
  }

  lemma LongReads(digits: Bytes, stack: seq<Place>)
    requires |digits| == 4 && forall i | 0 <= i < 4 :: IsHex(digits[i])
    ensures var text := [BACKSLASH] + [0x75] + digits; Reads(Scan(InString, stack), text, Scan(InString, stack), text)
  {
    var q, escape, long := Scan(InString, stack), Scan(InEscape, stack), Scan(InUnicode(3), stack);
    InkReads(q, BACKSLASH, escape);
    InkReads(escape, 0x75, long);
    HexReads(digits, stack);
    hide Reads;
    ReadsConcat(q, [BACKSLASH], escape, [BACKSLASH], [0x75], long, [0x75]);
    ReadsConcat(q, [BACKSLASH] + [0x75], long, [BACKSLASH] + [0x75], digits, q, digits);
  }

  lemma {:induction false} HexReads(digits: Bytes, stack: seq<Place>)
    requires digits != [] && forall i | 0 <= i < |digits| :: IsHex(digits[i])
    ensures Reads(Scan(InUnicode(|digits| - 1), stack), digits, Scan(InString, stack), digits)
    decreases |digits|
  {
    if |digits| == 1 {
      assert digits[1..] == [];
    } else {
      HexReads(digits[1..], stack);
    }
  }

  lemma {:induction false} UnitsRead(units: seq<Unit>, stack: seq<Place>)
    requires AreWellFormed(units)
    ensures Reads(Scan(InString, stack), UnitsText(units), Scan(InString, stack), UnitsText(units))
  {
    var q := Scan(InString, stack);
    if units != [] {
      UnitReads(units[0], stack);
      UnitsRead(units[1..], stack);
      ReadsConcat(q, units[0].Text(), q, units[0].Text(), UnitsText(units[1..]), q, UnitsText(units[1..]));
    }
  }

  lemma QuoteReads(q: Scan, units: seq<Unit>)
    requires Begins(q) && AreWellFormed(units)
    ensures Reads(q, Quote(units), Scan(EndValue, q.stack), Quote(units))
  {
    var inside := Scan(InString, q.stack);
    ReadsOne(q, QUOTE);
    UnitsRead(units, q.stack);
    ReadsOne(inside, QUOTE);
    ReadsConcat(q, [QUOTE], inside, [QUOTE], UnitsText(units), inside, UnitsText(units));
    ReadsConcat(q, [QUOTE] + UnitsText(units), inside, [QUOTE] + UnitsText(units), [QUOTE], Scan(EndValue, q.stack), [QUOTE]);
  }

  // Numbers

  lemma {:induction false} DigitsRead(mode: Mode, stack: seq<Place>, digits: Bytes)
    requires mode == Digits || mode == Fraction || mode == ExponentDigits
    requires forall i | 0 <= i < |digits| :: IsDigit(digits[i])
    ensures Reads(Scan(mode, stack), digits, Scan(mode, stack), digits)
    decreases |digits|
  {
    if digits != [] {
      DigitsRead(mode, stack, digits[1..]);
    }
  }

  /** A first digit, then more of them. */
  lemma NumeralReads(q: Scan, mode: Mode, stack: seq<Place>, digits: Bytes)
    requires IsNumeral(digits) && (mode == Digits || mode == Fraction || mode == ExponentDigits)
    requires Step(q, digits[0]) == Scan(mode, stack)
    ensures Reads(q, digits, Scan(mode, stack), digits)
  {
    var first, rest := digits[0], digits[1..];
    InkReads(q, first, Scan(mode, stack));
    DigitsRead(mode, stack, rest);
    hide Reads;
    ReadsConcat(q, [first], Scan(mode, stack), [first], rest, Scan(mode, stack), rest);
    assert [first] + rest == digits;
  }

  lemma WholeReads(q: Scan, stack: seq<Place>, whole: Bytes)
    requires q == Scan(BeginValue, stack) || q == Scan(Negative, stack)
    requires IsNumeral(whole) && (whole[0] == ZERO ==> |whole| == 1)
    ensures Reads(q, whole, Scan(if whole[0] == ZERO then Zero else Digits, stack), whole)
  {
    if whole[0] == ZERO {
      InkReads(q, ZERO, Scan(Zero, stack));
      assert whole == [ZERO];
    } else {
      NumeralReads(q, Digits, stack, whole);
    }
  }

  lemma DecimalsRead(mode: Mode, stack: seq<Place>, decimals: Bytes)
    requires mode == Zero || mode == Digits
    requires IsNumeral(decimals)
    ensures Reads(Scan(mode, stack), [DOT] + decimals, Scan(Fraction, stack), [DOT] + decimals)
  {
    InkReads(Scan(mode, stack), DOT, Scan(Point, stack));
    NumeralReads(Scan(Point, stack), Fraction, stack, decimals);
    ReadsConcat(Scan(mode, stack), [DOT], Scan(Point, stack), [DOT], decimals, Scan(Fraction, stack), decimals);
  }

  lemma PowerReads(mode: Mode, stack: seq<Place>, power: Power)
    requires mode == Zero || mode == Digits || mode == Fraction
    requires power.WellFormed()
    ensures Reads(Scan(mode, stack), power.Text(), Scan(ExponentDigits, stack), power.Text())
  {
    var q, e, end := Scan(mode, stack), Scan(Exponent, stack), Scan(ExponentDigits, stack);
    InkReads(q, power.letter, e);
    if power.sign.Some? {
      InkReads(e, power.sign.value, Scan(ExponentSign, stack));
      NumeralReads(Scan(ExponentSign, stack), ExponentDigits, stack, power.digits);
      hide Reads;
      ReadsConcat(q, [power.letter], e, [power.letter], [power.sign.value], Scan(ExponentSign, stack), [power.sign.value]);
      ReadsConcat(q, [power.letter] + [power.sign.value], Scan(ExponentSign, stack), [power.letter] + [power.sign.value],
                  power.digits, end, power.digits);
    } else {
      NumeralReads(e, ExponentDigits, stack, power.digits);
      hide Reads;
      ReadsConcat(q, [power.letter], e, [power.letter], power.digits, end, power.digits);
      assert [power.letter] + [] == [power.letter];
    }
  }

  lemma SignReads(stack: seq<Place>, negative: bool) returns (q: Scan)
    ensures q == Scan(BeginValue, stack) || q == Scan(Negative, stack)
    ensures var sign := if negative then [MINUS] else []; Reads(Scan(BeginValue, stack), sign, q, sign)
  {
    if negative {
      q := Scan(Negative, stack);
      InkReads(Scan(BeginValue, stack), MINUS, q);
    } else {
      q := Scan(BeginValue, stack);
    }
  }

  lemma DecimalsPartReads(mode: Mode, stack: seq<Place>, n: Number) returns (mode': Mode)
    requires n.WellFormed() && (mode == Zero || mode == Digits)
    ensures mode' == Zero || mode' == Digits || mode' == Fraction
    ensures Reads(Scan(mode, stack), n.DecimalsText(), Scan(mode', stack), n.DecimalsText())
  {
    if n.decimals.Some? {
      mode' := Fraction;
      DecimalsRead(mode, stack, n.decimals.value);
    } else {
      mode' := mode;
    }
  }

  lemma PowerPartReads(mode: Mode, stack: seq<Place>, n: Number) returns (mode': Mode)
    requires n.WellFormed() && (mode == Zero || mode == Digits || mode == Fraction)
    ensures IsNumberEnd(mode')
    ensures Reads(Scan(mode, stack), n.PowerText(), Scan(mode', stack), n.PowerText())
  {
    if n.power.Some? {
      mode' := ExponentDigits;
      PowerReads(mode, stack, n.power.value);
    } else {
      mode' := mode;
    }
  }

  lemma NumberReads(n: Number, stack: seq<Place>) returns (q: Scan)
    requires n.WellFormed()
    ensures IsDone(q, stack) && Reads(Scan(BeginValue, stack), n.Text(), q, n.Text())
  {
    hide Reads;
    var start, sign := Scan(BeginValue, stack), if n.negative then [MINUS] else [];
    var mode := if n.whole[0] == ZERO then Zero else Digits;
    var signed := SignReads(stack, n.negative);
    WholeReads(signed, stack, n.whole);
    var point := DecimalsPartReads(mode, stack, n);
    var end := PowerPartReads(point, stack, n);
    q := Scan(end, stack);
    ReadsConcat(start, sign, signed, sign, n.whole, Scan(mode, stack), n.whole);
    ReadsConcat(start, sign + n.whole, Scan(mode, stack), sign + n.whole,
                n.DecimalsText(), Scan(point, stack), n.DecimalsText());
    ReadsConcat(start, sign + n.whole + n.DecimalsText(), Scan(point, stack), sign + n.whole + n.DecimalsText(),
                n.PowerText(), q, n.PowerText());
  }

  // Values

  /** What a value starts with. */
  lemma ValueStarts(v: Value, depth: int)
    requires ValueFits(v, depth)
    ensures ValueText(v) != [] && !IsWhite(ValueText(v)[0]) && ValueText(v)[0] != RIGHT_BRACKET
  {
    match v
    case Numeric(n) =>
      NumberStarts(n);
    case Null =>
      LiteralNames();
    case True =>
      LiteralNames();
    case False =>
      LiteralNames();
    case _ =>
  }

  lemma NumberStarts(n: Number)
    requires n.WellFormed()
    ensures n.Text() != [] && (n.Text()[0] == MINUS || IsDigit(n.Text()[0]))
  {
    assert n.Text()[0] == if n.negative then MINUS else n.whole[0];
  }

  lemma BlankReads(q: Scan, blank: Bytes, s: Bytes, q': Scan, kept: Bytes)
    requires Begins(q) && IsBlank(blank) && Reads(q, s, q', kept)
    ensures Reads(q, blank + s, q', kept)
  {
    BlankBeforeValue(q, blank);
    ReadsConcat(q, blank, q, [], s, q', kept);
    assert [] + kept == kept;
  }

  lemma ReadsBlank(q: Scan, s: Bytes, q': Scan, kept: Bytes, stack: seq<Place>, blank: Bytes) returns (q'': Scan)
    requires IsDone(q', stack) && IsBlank(blank) && Reads(q, s, q', kept)
    ensures IsDone(q'', stack) && Reads(q, s + blank, q'', kept)
  {
    q'' := BlankAfterValue(q', stack, blank);
    ReadsConcat(q, s, q', kept, blank, q'', []);
    assert kept + [] == kept;
  }

  /** Where an array may end at once, an element starts as anywhere else. */
  lemma FirstElementReads(stack: seq<Place>, s: Bytes, q': Scan, kept: Bytes)
    requires Reads(Scan(BeginValue, stack), s, q', kept)
    requires s != [] && !IsWhite(s[0]) && s[0] != RIGHT_BRACKET
    ensures Reads(Scan(BeginValueOrEmpty, stack), s, q', kept)
  {
  }

  lemma TopOf(stack: seq<Place>, place: Place, other: Place)
    ensures Top(stack + [place]) == place && SetTop(stack + [place], other) == stack + [other]
    ensures (stack + [place])[..|stack + [place]| - 1] == stack
  {
  }

  lemma CloseArray(q: Scan, stack: seq<Place>)
    requires IsDone(q, stack + [ArrayValue])
    ensures Step(q, RIGHT_BRACKET) == Pop(stack + [ArrayValue]) && IsDone(Pop(stack + [ArrayValue]), stack)
    ensures Reads(q, [RIGHT_BRACKET], Pop(stack + [ArrayValue]), [RIGHT_BRACKET])
  {
    TopOf(stack, ArrayValue, ArrayValue);
    DoneStep(q, stack + [ArrayValue], RIGHT_BRACKET);
    InkReads(q, RIGHT_BRACKET, Pop(stack + [ArrayValue]));
  }

  lemma CloseObject(q: Scan, stack: seq<Place>)
    requires IsDone(q, stack + [ObjectValue])
    ensures Step(q, RIGHT_BRACE) == Pop(stack + [ObjectValue]) && IsDone(Pop(stack + [ObjectValue]), stack)
    ensures Reads(q, [RIGHT_BRACE], Pop(stack + [ObjectValue]), [RIGHT_BRACE])
  {
    TopOf(stack, ObjectValue, ObjectValue);
    DoneStep(q, stack + [ObjectValue], RIGHT_BRACE);
    InkReads(q, RIGHT_BRACE, Pop(stack + [ObjectValue]));
  }

  lemma OpenReads(stack: seq<Place>)
    requires |stack| < MAX_DEPTH
    ensures Reads(Scan(BeginValue, stack), [LEFT_BRACKET], Scan(BeginValueOrEmpty, stack + [ArrayValue]), [LEFT_BRACKET])
    ensures Reads(Scan(BeginValue, stack), [LEFT_BRACE], Scan(BeginStringOrEmpty, stack + [ObjectKey]), [LEFT_BRACE])
  {
    var q := Scan(BeginValue, stack);
    InkReads(q, LEFT_BRACKET, Scan(BeginValueOrEmpty, stack + [ArrayValue]));
    InkReads(q, LEFT_BRACE, Scan(BeginStringOrEmpty, stack + [ObjectKey]));
  }

  lemma ReadsThree(
      q: Scan, u: Bytes, q1: Scan, keptU: Bytes, v: Bytes, q2: Scan, keptV: Bytes, w: Bytes, q3: Scan, keptW: Bytes)
    requires Reads(q, u, q1, keptU) && Reads(q1, v, q2, keptV) && Reads(q2, w, q3, keptW)
    ensures Reads(q, u + v + w, q3, keptU + keptV + keptW)
  {
    hide Reads;
    ReadsConcat(q, u, q1, keptU, v, q2, keptV);
    ReadsConcat(q, u + v, q2, keptU + keptV, w, q3, keptW);
  }

  lemma EmptyArrayReads(stack: seq<Place>, blank: Bytes) returns (q: Scan)
    requires |stack| < MAX_DEPTH && IsBlank(blank)
    ensures IsDone(q, stack)
    ensures Reads(Scan(BeginValue, stack), [LEFT_BRACKET] + blank + [RIGHT_BRACKET], q, [LEFT_BRACKET] + [] + [RIGHT_BRACKET])
  {
    var open := Scan(BeginValueOrEmpty, stack + [ArrayValue]);
    q := Pop(stack + [ArrayValue]);
    OpenReads(stack);
    BlankBeforeValue(open, blank);
    TopOf(stack, ArrayValue, ArrayValue);
    InkReads(open, RIGHT_BRACKET, q);
    ReadsThree(Scan(BeginValue, stack), [LEFT_BRACKET], open, [LEFT_BRACKET], blank, open, [], [RIGHT_BRACKET], q, [RIGHT_BRACKET]);
  }

  lemma EmptyObjectReads(stack: seq<Place>, blank: Bytes) returns (q: Scan)
    requires |stack| < MAX_DEPTH && IsBlank(blank)
    ensures IsDone(q, stack)
    ensures Reads(Scan(BeginValue, stack), [LEFT_BRACE] + blank + [RIGHT_BRACE], q, [LEFT_BRACE] + [] + [RIGHT_BRACE])
  {
    var open := Scan(BeginStringOrEmpty, stack + [ObjectKey]);
    q := Pop(stack + [ObjectValue]);
    OpenReads(stack);
    BlankBeforeValue(open, blank);
    TopOf(stack, ObjectKey, ObjectValue);
    TopOf(stack, ObjectValue, ObjectValue);
    InkReads(open, RIGHT_BRACE, q);
    ReadsThree(Scan(BeginValue, stack), [LEFT_BRACE], open, [LEFT_BRACE], blank, open, [], [RIGHT_BRACE], q, [RIGHT_BRACE]);
  }

  lemma {:induction false} ValueReads(v: Value, stack: seq<Place>, depth: int) returns (q: Scan)
    requires ValueFits(v, depth) && |stack| + depth <= MAX_DEPTH
    ensures IsDone(q, stack)
    ensures Reads(Scan(BeginValue, stack), ValueText(v), q, ValueText(BareValue(v)))
    decreases v
  {
    hide Reads, Ascii;
    match v
    case Numeric(n) =>
      q := NumberReads(n, stack);
    case Literal(units) =>
      q := Scan(EndValue, stack);
      QuoteReads(Scan(BeginValue, stack), units);
    case EmptyArray(blank) =>
      q := EmptyArrayReads(stack, blank);
    case EmptyObject(blank) =>
      q := EmptyObjectReads(stack, blank);
    case Array(es) =>
      var open := Scan(BeginValueOrEmpty, stack + [ArrayValue]);
      OpenReads(stack);
      var end := ElementsRead(open, es, stack, depth - 1);
      q := Pop(stack + [ArrayValue]);
      CloseArray(end, stack);
      ReadsThree(Scan(BeginValue, stack), [LEFT_BRACKET], open, [LEFT_BRACKET], ElementsText(es), end,
                 ElementsText(BareElements(es)), [RIGHT_BRACKET], q, [RIGHT_BRACKET]);
    case Object(ms) =>
      var open := Scan(BeginStringOrEmpty, stack + [ObjectKey]);
      OpenReads(stack);
      var end := MembersRead(open, ms, stack, depth - 1);
      q := Pop(stack + [ObjectValue]);
      CloseObject(end, stack);
      ReadsThree(Scan(BeginValue, stack), [LEFT_BRACE], open, [LEFT_BRACE], MembersText(ms), end,
                 MembersText(BareMembers(ms)), [RIGHT_BRACE], q, [RIGHT_BRACE]);
    case _ =>
      q := Scan(EndValue, stack);
      LiteralNamesRead(stack);
  }

  lemma {:induction false} ElementReads(start: Scan, e: Element, stack: seq<Place>, depth: int) returns (q: Scan)
    requires ElementFits(e, depth) && |stack| + depth <= MAX_DEPTH
    requires start == Scan(BeginValue, stack) || start == Scan(BeginValueOrEmpty, stack)
    ensures IsDone(q, stack)
    ensures Reads(start, ElementText(e), q, ElementText(BareElement(e)))
    decreases e
  {
    hide Reads, ValueText;
    var text, kept := ValueText(e.value), ValueText(BareValue(e.value));
    var end := ValueReads(e.value, stack, depth);
    ValueStarts(e.value, depth);
    FirstElementReads(stack, text, end, kept);
    BlankReads(start, e.before, text, end, kept);
    q := ReadsBlank(start, e.before + text, end, kept, stack, e.after);
    assert [] + kept + [] == kept;
  }

  lemma {:induction false} ElementsRead(start: Scan, es: Elements, stack: seq<Place>, depth: int) returns (q: Scan)
    requires ElementsFit(es, depth) && |stack| + 1 + depth <= MAX_DEPTH
    requires start == Scan(BeginValue, stack + [ArrayValue]) || start == Scan(BeginValueOrEmpty, stack + [ArrayValue])
    ensures IsDone(q, stack + [ArrayValue])
    ensures Reads(start, ElementsText(es), q, ElementsText(BareElements(es)))
    decreases es
  {
    hide Reads, ElementText;
    match es
    case LastElement(last) =>
      q := ElementReads(start, last, stack + [ArrayValue], depth);
    case MoreElements(first, rest) =>
      var next := Scan(BeginValue, stack + [ArrayValue]);
      var end := ElementReads(start, first, stack + [ArrayValue], depth);
      CommaInArray(end, stack);
      q := ElementsRead(next, rest, stack, depth);
      ReadsThree(start, ElementText(first), end, ElementText(BareElement(first)), [COMMA], next, [COMMA],
                 ElementsText(rest), q, ElementsText(BareElements(rest)));
  }

  lemma CommaInArray(q: Scan, stack: seq<Place>)
    requires IsDone(q, stack + [ArrayValue])
    ensures Reads(q, [COMMA], Scan(BeginValue, stack + [ArrayValue]), [COMMA])
  {
    TopOf(stack, ArrayValue, ArrayValue);
    DoneStep(q, stack + [ArrayValue], COMMA);
    InkReads(q, COMMA, Scan(BeginValue, stack + [ArrayValue]));
  }

  lemma CommaInObject(q: Scan, stack: seq<Place>)
    requires IsDone(q, stack + [ObjectValue])
    ensures Reads(q, [COMMA], Scan(BeginString, stack + [ObjectKey]), [COMMA])
  {
    TopOf(stack, ObjectValue, ObjectKey);
    DoneStep(q, stack + [ObjectValue], COMMA);
    InkReads(q, COMMA, Scan(BeginString, stack + [ObjectKey]));
  }

  lemma ColonReads(q: Scan, stack: seq<Place>)
    requires IsDone(q, stack + [ObjectKey])
    ensures Reads(q, [COLON], Scan(BeginValue, stack + [ObjectValue]), [COLON])
  {
    TopOf(stack, ObjectKey, ObjectValue);
    DoneStep(q, stack + [ObjectKey], COLON);
    InkReads(q, COLON, Scan(BeginValue, stack + [ObjectValue]));
  }

  lemma KeyReads(start: Scan, stack: seq<Place>, before: Bytes, key: seq<Unit>, after: Bytes) returns (q: Scan)
    requires IsBlank(before) && AreWellFormed(key) && IsBlank(after)
    requires start == Scan(BeginString, stack) || start == Scan(BeginStringOrEmpty, stack)
    ensures IsDone(q, stack) && Reads(start, before + Quote(key) + after, q, [] + Quote(key) + [])
  {
    hide Reads;
    QuoteReads(start, key);
    BlankReads(start, before, Quote(key), Scan(EndValue, stack), Quote(key));
    q := ReadsBlank(start, before + Quote(key), Scan(EndValue, stack), Quote(key), stack, after);
    assert [] + Quote(key) + [] == Quote(key);
  }

  lemma {:induction false} MemberReads(start: Scan, m: Member, stack: seq<Place>, depth: int) returns (q: Scan)
    requires MemberFits(m, depth) && |stack| + 1 + depth <= MAX_DEPTH
    requires start == Scan(BeginString, stack + [ObjectKey]) || start == Scan(BeginStringOrEmpty, stack + [ObjectKey])
    ensures IsDone(q, stack + [ObjectValue])
    ensures Reads(start, MemberText(m), q, MemberText(BareMember(m)))
    decreases m
  {
    hide Reads, ElementText, Quote;
    var next := Scan(BeginValue, stack + [ObjectValue]);
    var key := KeyReads(start, stack + [ObjectKey], m.before, m.key, m.after);
    ColonReads(key, stack);
    q := ElementReads(next, m.element, stack + [ObjectValue], depth);
    ReadsThree(start, m.before + Quote(m.key) + m.after, key, [] + Quote(m.key) + [], [COLON], next, [COLON],
               ElementText(m.element), q, ElementText(BareElement(m.element)));
  }

  lemma {:induction false} MembersRead(start: Scan, ms: Members, stack: seq<Place>, depth: int) returns (q: Scan)
    requires MembersFit(ms, depth) && |stack| + 1 + depth <= MAX_DEPTH
    requires start == Scan(BeginString, stack + [ObjectKey]) || start == Scan(BeginStringOrEmpty, stack + [ObjectKey])
    ensures IsDone(q, stack + [ObjectValue])
    ensures Reads(start, MembersText(ms), q, MembersText(BareMembers(ms)))
    decreases ms
  {
    hide Reads, MemberText;
    match ms
    case LastMember(last) =>
      q := MemberReads(start, last, stack, depth);
    case MoreMembers(first, rest) =>
      var next := Scan(BeginString, stack + [ObjectKey]);
      var end := MemberReads(start, first, stack, depth);
      CommaInObject(end, stack);
      q := MembersRead(next, rest, stack, depth);
      ReadsThree(start, MemberText(first), end, MemberText(BareMember(first)), [COMMA], next, [COMMA],
                 MembersText(rest), q, MembersText(BareMembers(rest)));
  }

  /** Every text of the grammar that nests at most 10000 deep is valid, and is stored as the same value
      without its white space. */
  lemma GrammarIsAccepted(e: Element)
    requires ElementFits(e, 10000)
    ensures Compact(ElementText(e)) == Some(ElementText(BareElement(e)))
  {
    var q := ElementReads(START, e, [], 10000);
  }

  // ---- Nothing else is accepted ----

  /** `s` is `text` and `rest`, and reading `text` takes the scanner from `q` to `q'`. */
  predicate Splits(q: Scan, s: Bytes, text: Bytes, q': Scan, rest: Bytes) {
    s == text + rest && Run(q, text) == q'
  }

  lemma SplitNothing(q: Scan, s: Bytes)
    ensures Splits(q, s, [], q, s)
  {
    assert [] + s == s;
  }

  lemma SplitOne(q: Scan, s: Bytes)
    requires s != []
    ensures Splits(q, s, [s[0]], Step(q, s[0]), s[1..])
  {
    RunOne(q, s[0]);
  }

  lemma SplitConcat(q: Scan, s: Bytes, u: Bytes, q': Scan, rest: Bytes, v: Bytes, q'': Scan, rest': Bytes)
    requires Splits(q, s, u, q', rest) && Splits(q', rest, v, q'', rest')
    ensures Splits(q, s, u + v, q'', rest')
  {
    RunConcat(q, u, v);
    ConcatAssociates(u, v, rest');
  }

  lemma SplitAccepts(q: Scan, s: Bytes, text: Bytes, q': Scan, rest: Bytes)
    requires Splits(q, s, text, q', rest)
    ensures Run(q, s) == Run(q', rest) && |s| == |text| + |rest|
  {
    RunConcat(q, text, rest);
  }

  /** The scanner never leaves the failed state. */
  lemma NextIsScan(q: Scan, s: Bytes)
    requires s != [] && Accepts(Run(q, s))
    ensures Step(q, s[0]).Scan? && Accepts(Run(Step(q, s[0]), s[1..]))
  {
    if Step(q, s[0]).Failed? {
      FailedStays(s[1..]);
    }
  }

  lemma {:induction false} SplitBlank(s: Bytes) returns (blank: Bytes, rest: Bytes)
    ensures s == blank + rest && IsBlank(blank) && (rest != [] ==> !IsWhite(rest[0]))
  {
    if s == [] || !IsWhite(s[0]) {
      blank, rest := [], s;
    } else {
      blank, rest := SplitBlank(s[1..]);
      blank := [s[0]] + blank;
    }
  }

  /** Past a complete value, with nothing in `rest` that could still belong to it. */
  predicate Ends(q: Scan, stack: seq<Place>, rest: Bytes) {
    IsDone(q, stack) && (rest != [] ==> Step(q, rest[0]) == StepEndValue(stack, rest[0]))
  }

  // Literal names

  lemma {:induction false} ParseWord(word: Letters, stack: seq<Place>, s: Bytes) returns (rest: Bytes)
    requires word != [] && Accepts(Run(Scan(Word(word), stack), s))
    ensures Splits(Scan(Word(word), stack), s, word, Scan(EndValue, stack), rest)
    decreases |word|
  {
    var q := Scan(Word(word), stack);
    assert s != [];
    NextIsScan(q, s);
    SplitOne(q, s);
    if |word| == 1 {
      rest := s[1..];
      assert word == [s[0]];
    } else {
      rest := ParseWord(word[1..], stack, s[1..]);
      SplitConcat(q, s, [s[0]], Scan(Word(word[1..]), stack), s[1..], word[1..], Scan(EndValue, stack), rest);
      assert word == [s[0]] + word[1..];
    }
  }

  lemma ParseName(c: Byte, word: Letters, stack: seq<Place>, s: Bytes) returns (rest: Bytes)
    requires s != [] && s[0] == c && word != [] && Step(Scan(BeginValue, stack), c) == Scan(Word(word), stack)
    requires Accepts(Run(Scan(BeginValue, stack), s))
    ensures Splits(Scan(BeginValue, stack), s, [c] + word, Scan(EndValue, stack), rest)
  {
    var q := Scan(BeginValue, stack);
    NextIsScan(q, s);
    SplitOne(q, s);
    rest := ParseWord(word, stack, s[1..]);
    SplitConcat(q, s, [c], Scan(Word(word), stack), s[1..], word, Scan(EndValue, stack), rest);
  }

  // String literals

  lemma {:induction false} ParseHex(left: nat, stack: seq<Place>, s: Bytes) returns (digits: Bytes, rest: Bytes)
    requires Accepts(Run(Scan(InUnicode(left), stack), s))
    ensures |digits| == left + 1 && forall i | 0 <= i < |digits| :: IsHex(digits[i])
    ensures Splits(Scan(InUnicode(left), stack), s, digits, Scan(InString, stack), rest)
  {
    var q := Scan(InUnicode(left), stack);
    assert s != [];
    NextIsScan(q, s);
    SplitOne(q, s);
    if left == 0 {
      digits, rest := [s[0]], s[1..];
    } else {
      digits, rest := ParseHex(left - 1, stack, s[1..]);
      SplitConcat(q, s, [s[0]], Scan(InUnicode(left - 1), stack), s[1..], digits, Scan(InString, stack), rest);
      digits := [s[0]] + digits;
    }
  }

  lemma ParseUnit(stack: seq<Place>, s: Bytes) returns (unit: Unit, rest: Bytes)
    requires s != [] && s[0] != QUOTE && Accepts(Run(Scan(InString, stack), s))
    ensures unit.WellFormed() && unit.Text() != []
    ensures Splits(Scan(InString, stack), s, unit.Text(), Scan(InString, stack), rest)
  {
    var q := Scan(InString, stack);
    NextIsScan(q, s);
    SplitOne(q, s);
    if s[0] == BACKSLASH {
      unit, rest := ParseEscape(stack, s[1..]);
      var tail := unit.Text()[1..];
      SplitConcat(q, s, [s[0]], Scan(InEscape, stack), s[1..], tail, q, rest);
      assert unit.Text() == [BACKSLASH] + tail;
    } else {
      unit, rest := Plain(s[0]), s[1..];
    }
  }

  lemma ParseEscape(stack: seq<Place>, s: Bytes) returns (unit: Unit, rest: Bytes)
    requires Accepts(Run(Scan(InEscape, stack), s))
    ensures unit.WellFormed() && unit.Text() != [] && unit.Text()[0] == BACKSLASH
    ensures Splits(Scan(InEscape, stack), s, unit.Text()[1..], Scan(InString, stack), rest)
  {
    var q := Scan(InEscape, stack);
    assert s != [];
    NextIsScan(q, s);
    SplitOne(q, s);
    if s[0] == 0x75 {
      var digits;
      digits, rest := ParseHex(3, stack, s[1..]);
      unit := Long(digits);
      SplitConcat(q, s, [0x75], Scan(InUnicode(3), stack), s[1..], digits, Scan(InString, stack), rest);
      assert unit.Text() == [BACKSLASH] + ([0x75] + digits);
    } else {
      unit, rest := Short(s[0]), s[1..];
      assert unit.Text()[1..] == [s[0]];
    }
  }

  lemma {:induction false} ParseUnits(stack: seq<Place>, s: Bytes) returns (units: seq<Unit>, rest: Bytes)
    requires Accepts(Run(Scan(InString, stack), s))
    ensures AreWellFormed(units)
    ensures Splits(Scan(InString, stack), s, UnitsText(units) + [QUOTE], Scan(EndValue, stack), rest)
    decreases |s|
  {
    hide Splits;
    var q := Scan(InString, stack);
    assert s != [];
    if s[0] == QUOTE {
      SplitOne(q, s);
      units, rest := [], s[1..];
      assert [] + [QUOTE] == [QUOTE];
    } else {
      var unit, next := ParseUnit(stack, s);
      SplitAccepts(q, s, unit.Text(), q, next);
      var more;
      more, rest := ParseUnits(stack, next);
      SplitConcat(q, s, unit.Text(), q, next, UnitsText(more) + [QUOTE], Scan(EndValue, stack), rest);
      units := [unit] + more;
      UnitsCons(unit, more);
    }
  }

  lemma UnitsCons(unit: Unit, more: seq<Unit>)
    ensures UnitsText([unit] + more) + [QUOTE] == unit.Text() + (UnitsText(more) + [QUOTE])
    ensures unit.WellFormed() && AreWellFormed(more) ==> AreWellFormed([unit] + more)
  {
    assert ([unit] + more)[1..] == more;
  }

  lemma ParseQuote(q: Scan, s: Bytes) returns (units: seq<Unit>, rest: Bytes)
    requires Begins(q) && s != [] && s[0] == QUOTE && Accepts(Run(q, s))
    ensures AreWellFormed(units) && Splits(q, s, Quote(units), Scan(EndValue, q.stack), rest)
  {
    hide Splits;
    NextIsScan(q, s);
    SplitOne(q, s);
    units, rest := ParseUnits(q.stack, s[1..]);
    SplitConcat(q, s, [QUOTE], Scan(InString, q.stack), s[1..], UnitsText(units) + [QUOTE], Scan(EndValue, q.stack), rest);
    ConcatAssociates([QUOTE], UnitsText(units), [QUOTE]);
  }

  // Numbers

  lemma {:induction false} ParseDigits(mode: Mode, stack: seq<Place>, s: Bytes) returns (digits: Bytes, rest: Bytes)
    requires mode == Digits || mode == Fraction || mode == ExponentDigits
    ensures forall i | 0 <= i < |digits| :: IsDigit(digits[i])
    ensures Splits(Scan(mode, stack), s, digits, Scan(mode, stack), rest) && (rest != [] ==> !IsDigit(rest[0]))
    decreases |s|
  {
    var q := Scan(mode, stack);
    if s == [] || !IsDigit(s[0]) {
      digits, rest := [], s;
      SplitNothing(q, s);
    } else {
      SplitOne(q, s);
      digits, rest := ParseDigits(mode, stack, s[1..]);
      SplitConcat(q, s, [s[0]], q, s[1..], digits, q, rest);
      digits := [s[0]] + digits;
    }
  }

  lemma ParseNumeral(q: Scan, mode: Mode, stack: seq<Place>, s: Bytes) returns (digits: Bytes, rest: Bytes)
    requires mode == Digits || mode == Fraction || mode == ExponentDigits
    requires s != [] && IsDigit(s[0]) && Step(q, s[0]) == Scan(mode, stack)
    ensures IsNumeral(digits) && digits[0] == s[0]
    ensures Splits(q, s, digits, Scan(mode, stack), rest) && (rest != [] ==> !IsDigit(rest[0]))
  {
    SplitOne(q, s);
    digits, rest := ParseDigits(mode, stack, s[1..]);
    SplitConcat(q, s, [s[0]], Scan(mode, stack), s[1..], digits, Scan(mode, stack), rest);
    digits := [s[0]] + digits;
  }

  /** No digit and no point that would go on with a number read so far in `mode`. */
  predicate IsClear(mode: Mode, rest: Bytes) {
    rest != [] ==> (mode != Zero ==> !IsDigit(rest[0])) && (mode == Zero || mode == Digits ==> rest[0] != DOT)
  }

  lemma ParseWhole(q: Scan, stack: seq<Place>, s: Bytes) returns (whole: Bytes, mode: Mode, rest: Bytes)
    requires q == Scan(BeginValue, stack) || q == Scan(Negative, stack)
    requires s != [] && IsDigit(s[0])
    ensures IsNumeral(whole) && (whole[0] == ZERO ==> |whole| == 1) && (mode == Zero || mode == Digits)
    ensures Splits(q, s, whole, Scan(mode, stack), rest) && (mode == Digits && rest != [] ==> !IsDigit(rest[0]))
  {
    if s[0] == ZERO {
      SplitOne(q, s);
      whole, mode, rest := [ZERO], Zero, s[1..];
    } else {
      mode := Digits;
      whole, rest := ParseNumeral(q, mode, stack, s);
    }
  }

  lemma ParseDecimals(mode: Mode, stack: seq<Place>, s: Bytes)
    returns (decimals: Option<Bytes>, text: Bytes, mode': Mode, rest: Bytes)
    requires mode == Zero || mode == Digits
    requires Accepts(Run(Scan(mode, stack), s)) && (mode == Digits && s != [] ==> !IsDigit(s[0]))
    ensures decimals.Some? ==> IsNumeral(decimals.value)
    ensures text == if decimals.Some? then [DOT] + decimals.value else []
    ensures mode' == Zero || mode' == Digits || mode' == Fraction
    ensures Splits(Scan(mode, stack), s, text, Scan(mode', stack), rest) && IsClear(mode', rest)
  {
    var q, point := Scan(mode, stack), Scan(Point, stack);
    if s != [] && s[0] == DOT {
      NextIsScan(q, s);
      SplitOne(q, s);
      assert s[1..] != [];
      NextIsScan(point, s[1..]);
      var digits;
      digits, rest := ParseNumeral(point, Fraction, stack, s[1..]);
      SplitConcat(q, s, [DOT], point, s[1..], digits, Scan(Fraction, stack), rest);
      decimals, text, mode' := Some(digits), [DOT] + digits, Fraction;
    } else {
      SplitNothing(q, s);
      decimals, text, mode', rest := None, [], mode, s;
    }
  }

  lemma ParseSign(stack: seq<Place>, s: Bytes) returns (sign: Option<Byte>, text: Bytes, q: Scan, rest: Bytes)
    requires Accepts(Run(Scan(Exponent, stack), s))
    ensures sign.Some? ==> sign.value == PLUS || sign.value == MINUS
    ensures text == if sign.Some? then [sign.value] else []
    ensures Splits(Scan(Exponent, stack), s, text, q, rest)
    ensures rest != [] && IsDigit(rest[0]) && Step(q, rest[0]) == Scan(ExponentDigits, stack)
  {
    var e := Scan(Exponent, stack);
    assert s != [];
    NextIsScan(e, s);
    if s[0] == PLUS || s[0] == MINUS {
      SplitOne(e, s);
      sign, text, q, rest := Some(s[0]), [s[0]], Scan(ExponentSign, stack), s[1..];
      assert rest != [];
      NextIsScan(q, rest);
    } else {
      SplitNothing(e, s);
      sign, text, q, rest := None, [], e, s;
    }
  }

  lemma ParsePower(mode: Mode, stack: seq<Place>, s: Bytes)
    returns (power: Option<Power>, text: Bytes, q: Scan, rest: Bytes)
    requires mode == Zero || mode == Digits || mode == Fraction
    requires Accepts(Run(Scan(mode, stack), s)) && IsClear(mode, s)
    ensures power.Some? ==> power.value.WellFormed()
    ensures text == if power.Some? then power.value.Text() else []
    ensures Splits(Scan(mode, stack), s, text, q, rest) && Ends(q, stack, rest)
  {
    if s != [] && (s[0] == 0x65 || s[0] == 0x45) {
      var p;
      p, rest := ParseLetter(mode, stack, s);
      power, text, q := Some(p), p.Text(), Scan(ExponentDigits, stack);
    } else {
      SplitNothing(Scan(mode, stack), s);
      power, text, q, rest := None, [], Scan(mode, stack), s;
    }
  }

  lemma ParseLetter(mode: Mode, stack: seq<Place>, s: Bytes) returns (power: Power, rest: Bytes)
    requires mode == Zero || mode == Digits || mode == Fraction
    requires Accepts(Run(Scan(mode, stack), s)) && s != [] && (s[0] == 0x65 || s[0] == 0x45)
    ensures power.WellFormed() && Splits(Scan(mode, stack), s, power.Text(), Scan(ExponentDigits, stack), rest)
    ensures Ends(Scan(ExponentDigits, stack), stack, rest)
  {
    hide Splits;
    var start, e, end := Scan(mode, stack), Scan(Exponent, stack), Scan(ExponentDigits, stack);
    NextIsScan(start, s);
    SplitOne(start, s);
    var sign, signText, q, next := ParseSign(stack, s[1..]);
    var digits;
    digits, rest := ParseNumeral(q, ExponentDigits, stack, next);
    PowerSplits(start, s, e, signText, q, next, digits, end, rest);
    power := Power(s[0], sign, digits);
    DigitsEnd(stack, rest);
  }

  lemma DigitsEnd(stack: seq<Place>, rest: Bytes)
    requires rest != [] ==> !IsDigit(rest[0])
    ensures Ends(Scan(ExponentDigits, stack), stack, rest)
  {
  }

  lemma PowerSplits(
      q: Scan, s: Bytes, e: Scan, sign: Bytes, q': Scan, next: Bytes, digits: Bytes, end: Scan, rest: Bytes)
    requires s != [] && Splits(q, s, [s[0]], e, s[1..]) && Splits(e, s[1..], sign, q', next)
    requires Splits(q', next, digits, end, rest)
    ensures Splits(q, s, [s[0]] + sign + digits, end, rest)
  {
    hide Splits;
    SplitConcat(q, s, [s[0]], e, s[1..], sign, q', next);
    SplitConcat(q, s, [s[0]] + sign, q', next, digits, end, rest);
  }

  lemma ParseMinus(stack: seq<Place>, s: Bytes) returns (negative: bool, q: Scan, rest: Bytes)
    requires s != [] && (s[0] == MINUS || IsDigit(s[0])) && Accepts(Run(Scan(BeginValue, stack), s))
    ensures q == Scan(BeginValue, stack) || q == Scan(Negative, stack)
    ensures Splits(Scan(BeginValue, stack), s, if negative then [MINUS] else [], q, rest)
    ensures rest != [] && IsDigit(rest[0])
  {
    var start := Scan(BeginValue, stack);
    if s[0] == MINUS {
      NextIsScan(start, s);
      SplitOne(start, s);
      negative, q, rest := true, Scan(Negative, stack), s[1..];
      assert rest != [];
      NextIsScan(q, rest);
    } else {
      SplitNothing(start, s);
      negative, q, rest := false, start, s;
    }
  }

  lemma ParseNumber(stack: seq<Place>, s: Bytes) returns (n: Number, q: Scan, rest: Bytes)
    requires s != [] && (s[0] == MINUS || IsDigit(s[0])) && Accepts(Run(Scan(BeginValue, stack), s))
    ensures n.WellFormed() && Splits(Scan(BeginValue, stack), s, n.Text(), q, rest) && Ends(q, stack, rest)
  {
    hide Splits;
    var start := Scan(BeginValue, stack);
    var negative, q1, s1 := ParseMinus(stack, s);
    var sign := if negative then [MINUS] else [];
    var whole, mode, s2 := ParseWhole(q1, stack, s1);
    SplitConcat(start, s, sign, q1, s1, whole, Scan(mode, stack), s2);
    SplitAccepts(start, s, sign + whole, Scan(mode, stack), s2);
    var decimals, point, mode', s3 := ParseDecimals(mode, stack, s2);
    SplitConcat(start, s, sign + whole, Scan(mode, stack), s2, point, Scan(mode', stack), s3);
    SplitAccepts(start, s, sign + whole + point, Scan(mode', stack), s3);
    var power, powerText;
    power, powerText, q, rest := ParsePower(mode', stack, s3);
    SplitConcat(start, s, sign + whole + point, Scan(mode', stack), s3, powerText, q, rest);
    n := Number(negative, whole, decimals, power);
  }

  // Values

  lemma SplitBefore(q: Scan, blank: Bytes, s: Bytes, text: Bytes, q': Scan, rest: Bytes)
    requires Begins(q) && IsBlank(blank) && Splits(q, s, text, q', rest)
    ensures Splits(q, blank + s, blank + text, q', rest)
  {
    BlankBeforeValue(q, blank);
    RunConcat(q, blank, text);
    ConcatAssociates(blank, text, rest);
  }

  lemma BlankAccepts(q: Scan, blank: Bytes, s: Bytes)
    requires Begins(q) && IsBlank(blank)
    ensures Run(q, blank + s) == Run(q, s)
  {
    BlankBeforeValue(q, blank);
    RunConcat(q, blank, s);
  }

  /** Takes the white space after a value. */
  lemma SplitAfter(q: Scan, s: Bytes, text: Bytes, q': Scan, stack: seq<Place>, next: Bytes)
    returns (blank: Bytes, q'': Scan, rest: Bytes)
    requires Splits(q, s, text, q', next) && Ends(q', stack, next)
    ensures IsBlank(blank) && Splits(q, s, text + blank, q'', rest) && Ends(q'', stack, rest)
    ensures rest != [] ==> !IsWhite(rest[0])
  {
    blank, rest := SplitBlank(next);
    q'' := BlankAfterValue(q', stack, blank);
    assert Splits(q', next, blank, q'', rest);
    SplitConcat(q, s, text, q', next, blank, q'', rest);
    if blank == [] {
      assert rest == next && Run(q', []) == q';
    } else {
      AfterBlank(q', stack, blank, q'', rest);
    }
  }

  lemma {:induction false} AfterBlank(q: Scan, stack: seq<Place>, blank: Bytes, q': Scan, rest: Bytes)
    requires IsDone(q, stack) && blank != [] && IsBlank(blank) && q' == Run(q, blank)
    ensures Ends(q', stack, rest)
    decreases |blank|
  {
    DoneStep(q, stack, blank[0]);
    if |blank| > 1 {
      AfterBlank(Step(q, blank[0]), stack, blank[1..], q', rest);
    } else {
      assert blank[1..] == [];
    }
  }

  /** Where an array may end at once, an element starts as anywhere else. */
  lemma SameStart(start: Scan, stack: seq<Place>, s: Bytes)
    requires start == Scan(BeginValue, stack) || start == Scan(BeginValueOrEmpty, stack)
    requires s != [] && !IsWhite(s[0]) && (start.mode == BeginValueOrEmpty ==> s[0] != RIGHT_BRACKET)
    ensures Run(start, s) == Run(Scan(BeginValue, stack), s)
  {
  }

  lemma {:induction false} ParseElement(start: Scan, stack: seq<Place>, blank: Bytes, s: Bytes)
    returns (e: Element, q: Scan, rest: Bytes)
    requires start == Scan(BeginValue, stack) || start == Scan(BeginValueOrEmpty, stack)
    requires |stack| <= MAX_DEPTH && IsBlank(blank) && Accepts(Run(start, s))
    requires s != [] && !IsWhite(s[0]) && (start.mode == BeginValueOrEmpty ==> s[0] != RIGHT_BRACKET)
    ensures ElementFits(e, MAX_DEPTH - |stack|) && Splits(start, blank + s, ElementText(e), q, rest)
    ensures Ends(q, stack, rest) && (rest != [] ==> !IsWhite(rest[0])) && |rest| < |s|
    decreases |s|, 2
  {
    hide ValueText;
    SameStart(start, stack, s);
    var v, q', next := ParseValue(stack, s);
    ValueStarts(v, MAX_DEPTH - |stack|);
    SameStart(start, stack, ValueText(v));
    SplitBefore(start, blank, s, ValueText(v), q', next);
    var after;
    after, q, rest := SplitAfter(start, blank + s, blank + ValueText(v), q', stack, next);
    e := Element(blank, v, after);
    ElementShortens(blank, s, ValueText(v), after, rest);
  }

  lemma ElementShortens(blank: Bytes, s: Bytes, text: Bytes, after: Bytes, rest: Bytes)
    requires blank + s == blank + text + after + rest && text != []
    ensures |rest| < |s|
  {
    assert |blank + s| == |blank| + |text| + |after| + |rest|;
  }

  /** What may follow an element of an array. */
  lemma AfterElement(q: Scan, stack: seq<Place>, s: Bytes)
    requires Ends(q, stack + [ArrayValue], s) && (s != [] ==> !IsWhite(s[0])) && Accepts(Run(q, s))
    ensures s != [] && (s[0] == COMMA || s[0] == RIGHT_BRACKET)
    ensures Splits(q, s, [s[0]], Step(q, s[0]), s[1..]) && Accepts(Run(Step(q, s[0]), s[1..]))
    ensures Step(q, s[0]) ==
            if s[0] == COMMA then Scan(BeginValue, stack + [ArrayValue]) else Pop(stack + [ArrayValue])
  {
    TopOf(stack, ArrayValue, ArrayValue);
    assert s != [];
    NextIsScan(q, s);
    SplitOne(q, s);
  }

  lemma PopEnds(stack: seq<Place>, place: Place, rest: Bytes)
    ensures Ends(Pop(stack + [place]), stack, rest)
  {
    TopOf(stack, place, place);
  }

  lemma {:induction false} ParseElements(start: Scan, stack: seq<Place>, blank: Bytes, s: Bytes)
    returns (es: Elements, rest: Bytes)
    requires start == Scan(BeginValue, stack + [ArrayValue]) || start == Scan(BeginValueOrEmpty, stack + [ArrayValue])
    requires |stack| < MAX_DEPTH && IsBlank(blank) && Accepts(Run(start, s))
    requires s != [] && !IsWhite(s[0]) && (start.mode == BeginValueOrEmpty ==> s[0] != RIGHT_BRACKET)
    ensures ElementsFit(es, MAX_DEPTH - |stack| - 1)
    ensures Splits(start, blank + s, ElementsText(es) + [RIGHT_BRACKET], Pop(stack + [ArrayValue]), rest)
    decreases |s|, 3
  {
    hide Splits, ElementText;
    var inner, whole := stack + [ArrayValue], blank + s;
    var e, q, next := ParseElement(start, inner, blank, s);
    BlankAccepts(start, blank, s);
    SplitAccepts(start, whole, ElementText(e), q, next);
    AfterElement(q, stack, next);
    SplitConcat(start, whole, ElementText(e), q, next, [next[0]], Step(q, next[0]), next[1..]);
    if next[0] == RIGHT_BRACKET {
      es, rest := LastElement(e), next[1..];
    } else {
      var begin := Scan(BeginValue, inner);
      var blank', s' := SplitBlank(next[1..]);
      BlankAccepts(begin, blank', s');
      assert s' != [];
      var more;
      more, rest := ParseElements(begin, stack, blank', s');
      SplitConcat(start, whole, ElementText(e) + [COMMA], begin, next[1..],
                  ElementsText(more) + [RIGHT_BRACKET], Pop(inner), rest);
      es := MoreElements(e, more);
      ConcatAssociates(ElementText(e) + [COMMA], ElementsText(more), [RIGHT_BRACKET]);
    }
  }

  /** What may follow a key, and what a member of an object. */
  lemma AfterKey(q: Scan, stack: seq<Place>, s: Bytes)
    requires Ends(q, stack + [ObjectKey], s) && (s != [] ==> !IsWhite(s[0])) && Accepts(Run(q, s))
    ensures s != [] && s[0] == COLON && Step(q, s[0]) == Scan(BeginValue, stack + [ObjectValue])
    ensures Splits(q, s, [s[0]], Step(q, s[0]), s[1..]) && Accepts(Run(Step(q, s[0]), s[1..]))
  {
    TopOf(stack, ObjectKey, ObjectValue);
    assert s != [];
    NextIsScan(q, s);
    SplitOne(q, s);
  }

  lemma AfterMember(q: Scan, stack: seq<Place>, s: Bytes)
    requires Ends(q, stack + [ObjectValue], s) && (s != [] ==> !IsWhite(s[0])) && Accepts(Run(q, s))
    ensures s != [] && (s[0] == COMMA || s[0] == RIGHT_BRACE)
    ensures Splits(q, s, [s[0]], Step(q, s[0]), s[1..]) && Accepts(Run(Step(q, s[0]), s[1..]))
    ensures Step(q, s[0]) ==
            if s[0] == COMMA then Scan(BeginString, stack + [ObjectKey]) else Pop(stack + [ObjectValue])
  {
    TopOf(stack, ObjectValue, ObjectKey);
    assert s != [];
    NextIsScan(q, s);
    SplitOne(q, s);
  }

  /** A key, its colon and the white space around both. */
  lemma ParseKey(start: Scan, stack: seq<Place>, blank: Bytes, s: Bytes)
    returns (key: seq<Unit>, after: Bytes, blank': Bytes, rest: Bytes)
    requires start == Scan(BeginString, stack + [ObjectKey]) || start == Scan(BeginStringOrEmpty, stack + [ObjectKey])
    requires IsBlank(blank) && s != [] && s[0] == QUOTE && Accepts(Run(start, s))
    ensures AreWellFormed(key) && IsBlank(after) && IsBlank(blank')
    ensures Splits(start, blank + s, blank + Quote(key) + after + [COLON],
                   Scan(BeginValue, stack + [ObjectValue]), blank' + rest)
    ensures rest != [] && !IsWhite(rest[0]) && |rest| < |s| && Accepts(Run(Scan(BeginValue, stack + [ObjectValue]), rest))
  {
    hide Splits, Quote;
    var whole, value := blank + s, Scan(BeginValue, stack + [ObjectValue]);
    var next;
    key, next := ParseQuote(start, s);
    SplitAccepts(start, s, Quote(key), Scan(EndValue, start.stack), next);
    SplitBefore(start, blank, s, Quote(key), Scan(EndValue, start.stack), next);
    var q, next';
    after, q, next' := SplitAfter(start, whole, blank + Quote(key), Scan(EndValue, start.stack), start.stack, next);
    BlankAccepts(start, blank, s);
    SplitAccepts(start, whole, blank + Quote(key) + after, q, next');
    AfterKey(q, stack, next');
    SplitConcat(start, whole, blank + Quote(key) + after, q, next', [COLON], value, next'[1..]);
    blank', rest := SplitBlank(next'[1..]);
    BlankAccepts(value, blank', rest);
    assert rest != [];
  }

  lemma {:induction false} ParseMember(start: Scan, stack: seq<Place>, blank: Bytes, s: Bytes)
    returns (m: Member, q: Scan, rest: Bytes)
    requires start == Scan(BeginString, stack + [ObjectKey]) || start == Scan(BeginStringOrEmpty, stack + [ObjectKey])
    requires |stack| < MAX_DEPTH && IsBlank(blank) && s != [] && s[0] == QUOTE && Accepts(Run(start, s))
    ensures MemberFits(m, MAX_DEPTH - |stack| - 1) && Splits(start, blank + s, MemberText(m), q, rest)
    ensures Ends(q, stack + [ObjectValue], rest) && (rest != [] ==> !IsWhite(rest[0])) && |rest| < |s|
    decreases |s|, 3
  {
    hide Splits, Quote, ElementText;
    var key, after, blank', next := ParseKey(start, stack, blank, s);
    var value := Scan(BeginValue, stack + [ObjectValue]);
    var e;
    e, q, rest := ParseElement(value, stack + [ObjectValue], blank', next);
    SplitConcat(start, blank + s, blank + Quote(key) + after + [COLON], value, blank' + next, ElementText(e), q, rest);
    m := Member(blank, key, after, e);
  }

  lemma {:induction false} ParseMembers(start: Scan, stack: seq<Place>, blank: Bytes, s: Bytes)
    returns (ms: Members, rest: Bytes)
    requires start == Scan(BeginString, stack + [ObjectKey]) || start == Scan(BeginStringOrEmpty, stack + [ObjectKey])
    requires |stack| < MAX_DEPTH && IsBlank(blank) && s != [] && s[0] == QUOTE && Accepts(Run(start, s))
    ensures MembersFit(ms, MAX_DEPTH - |stack| - 1)
    ensures Splits(start, blank + s, MembersText(ms) + [RIGHT_BRACE], Pop(stack + [ObjectValue]), rest)
    decreases |s|, 4
  {
    hide Splits, MemberText;
    var whole := blank + s;
    var m, q, next := ParseMember(start, stack, blank, s);
    BlankAccepts(start, blank, s);
    SplitAccepts(start, whole, MemberText(m), q, next);
    AfterMember(q, stack, next);
    SplitConcat(start, whole, MemberText(m), q, next, [next[0]], Step(q, next[0]), next[1..]);
    if next[0] == RIGHT_BRACE {
      ms, rest := LastMember(m), next[1..];
    } else {
      var begin := Scan(BeginString, stack + [ObjectKey]);
      var blank', s' := SplitBlank(next[1..]);
      BlankAccepts(begin, blank', s');
      KeyFollows(begin, s');
      var more;
      more, rest := ParseMembers(begin, stack, blank', s');
      SplitConcat(start, whole, MemberText(m) + [COMMA], begin, next[1..],
                  MembersText(more) + [RIGHT_BRACE], Pop(stack + [ObjectValue]), rest);
      ms := MoreMembers(m, more);
      ConcatAssociates(MemberText(m) + [COMMA], MembersText(more), [RIGHT_BRACE]);
    }
  }

  lemma KeyFollows(q: Scan, s: Bytes)
    requires q.Scan? && (q.mode == BeginString || (q.mode == BeginStringOrEmpty && (s != [] ==> s[0] != RIGHT_BRACE)))
    requires Accepts(Run(q, s)) && (s != [] ==> !IsWhite(s[0]))
    ensures s != [] && s[0] == QUOTE
  {
    assert s != [];
    NextIsScan(q, s);
  }

  lemma EmptyArraySplits(stack: seq<Place>, blank: Bytes, s: Bytes)
    requires IsBlank(blank) && s != [] && s[0] == RIGHT_BRACKET
    ensures Splits(Scan(BeginValueOrEmpty, stack + [ArrayValue]), blank + s, blank + [RIGHT_BRACKET],
                   Pop(stack + [ArrayValue]), s[1..])
  {
    var open := Scan(BeginValueOrEmpty, stack + [ArrayValue]);
    TopOf(stack, ArrayValue, ArrayValue);
    SplitOne(open, s);
    SplitBefore(open, blank, s, [RIGHT_BRACKET], Pop(stack + [ArrayValue]), s[1..]);
  }

  lemma EmptyObjectSplits(stack: seq<Place>, blank: Bytes, s: Bytes)
    requires IsBlank(blank) && s != [] && s[0] == RIGHT_BRACE
    ensures Splits(Scan(BeginStringOrEmpty, stack + [ObjectKey]), blank + s, blank + [RIGHT_BRACE],
                   Pop(stack + [ObjectValue]), s[1..])
  {
    var open := Scan(BeginStringOrEmpty, stack + [ObjectKey]);
    TopOf(stack, ObjectKey, ObjectValue);
    TopOf(stack, ObjectValue, ObjectValue);
    SplitOne(open, s);
    SplitBefore(open, blank, s, [RIGHT_BRACE], Pop(stack + [ObjectValue]), s[1..]);
  }

  /** After an opening bracket or brace. */
  lemma Opened(stack: seq<Place>, s: Bytes)
    requires s != [] && (s[0] == LEFT_BRACKET || s[0] == LEFT_BRACE) && Accepts(Run(Scan(BeginValue, stack), s))
    ensures |stack| < MAX_DEPTH
    ensures var open := if s[0] == LEFT_BRACKET then Scan(BeginValueOrEmpty, stack + [ArrayValue])
                        else Scan(BeginStringOrEmpty, stack + [ObjectKey]);
            Splits(Scan(BeginValue, stack), s, [s[0]], open, s[1..]) && Accepts(Run(open, s[1..]))
  {
    NextIsScan(Scan(BeginValue, stack), s);
    SplitOne(Scan(BeginValue, stack), s);
  }

  lemma MoreFollows(q: Scan, s: Bytes)
    requires Begins(q) && Accepts(Run(q, s))
    ensures s != []
  {
  }

  lemma {:induction false} ParseArray(stack: seq<Place>, s: Bytes) returns (v: Value, q: Scan, rest: Bytes)
    requires |stack| <= MAX_DEPTH && s != [] && s[0] == LEFT_BRACKET && Accepts(Run(Scan(BeginValue, stack), s))
    ensures ValueFits(v, MAX_DEPTH - |stack|)
    ensures Splits(Scan(BeginValue, stack), s, ValueText(v), q, rest) && Ends(q, stack, rest)
    decreases |s|, 0
  {
    hide Splits, ElementsText, Step, Run, Accepts;
    var start, inner := Scan(BeginValue, stack), stack + [ArrayValue];
    var open := Scan(BeginValueOrEmpty, inner);
    q := Pop(inner);
    Opened(stack, s);
    var blank, next := SplitBlank(s[1..]);
    BlankAccepts(open, blank, next);
    MoreFollows(open, next);
    if next[0] == RIGHT_BRACKET {
      v, rest := EmptyArray(blank), next[1..];
      EmptyArraySplits(stack, blank, next);
      SplitConcat(start, s, [LEFT_BRACKET], open, s[1..], blank + [RIGHT_BRACKET], q, rest);
      ConcatAssociates([LEFT_BRACKET], blank, [RIGHT_BRACKET]);
    } else {
      var es;
      es, rest := ParseElements(open, stack, blank, next);
      v := Array(es);
      SplitConcat(start, s, [LEFT_BRACKET], open, s[1..], ElementsText(es) + [RIGHT_BRACKET], q, rest);
      ConcatAssociates([LEFT_BRACKET], ElementsText(es), [RIGHT_BRACKET]);
    }
    PopEnds(stack, ArrayValue, rest);
  }

  lemma {:induction false} ParseObject(stack: seq<Place>, s: Bytes) returns (v: Value, q: Scan, rest: Bytes)
    requires |stack| <= MAX_DEPTH && s != [] && s[0] == LEFT_BRACE && Accepts(Run(Scan(BeginValue, stack), s))
    ensures ValueFits(v, MAX_DEPTH - |stack|)
    ensures Splits(Scan(BeginValue, stack), s, ValueText(v), q, rest) && Ends(q, stack, rest)
    decreases |s|, 0
  {
    hide Splits, MembersText, Step, Run, Accepts;
    var start := Scan(BeginValue, stack);
    var open := Scan(BeginStringOrEmpty, stack + [ObjectKey]);
    q := Pop(stack + [ObjectValue]);
    Opened(stack, s);
    var blank, next := SplitBlank(s[1..]);
    BlankAccepts(open, blank, next);
    MoreFollows(open, next);
    if next[0] == RIGHT_BRACE {
      v, rest := EmptyObject(blank), next[1..];
      EmptyObjectSplits(stack, blank, next);
      SplitConcat(start, s, [LEFT_BRACE], open, s[1..], blank + [RIGHT_BRACE], q, rest);
      ConcatAssociates([LEFT_BRACE], blank, [RIGHT_BRACE]);
    } else {
      KeyFollows(open, next);
      var ms;
      ms, rest := ParseMembers(open, stack, blank, next);
      v := Object(ms);
      SplitConcat(start, s, [LEFT_BRACE], open, s[1..], MembersText(ms) + [RIGHT_BRACE], q, rest);
      ConcatAssociates([LEFT_BRACE], MembersText(ms), [RIGHT_BRACE]);
    }
    PopEnds(stack, ObjectValue, rest);
  }

  lemma ParseLiteralName(stack: seq<Place>, s: Bytes) returns (v: Value, rest: Bytes)
    requires s != [] && (s[0] == 0x6E || s[0] == 0x74 || s[0] == 0x66) && Accepts(Run(Scan(BeginValue, stack), s))
    ensures v == Null || v == True || v == False
    ensures Splits(Scan(BeginValue, stack), s, ValueText(v), Scan(EndValue, stack), rest)
  {
    hide Ascii, Splits;
    LiteralNames();
    if s[0] == 0x6E {
      v := Null;
      rest := ParseName(0x6E, [0x75, 0x6C, 0x6C], stack, s);
    } else if s[0] == 0x74 {
      v := True;
      rest := ParseName(0x74, [0x72, 0x75, 0x65], stack, s);
    } else {
      v := False;
      rest := ParseName(0x66, [0x61, 0x6C, 0x73, 0x65], stack, s);
    }
  }

  lemma {:induction false} ParseValue(stack: seq<Place>, s: Bytes) returns (v: Value, q: Scan, rest: Bytes)
    requires |stack| <= MAX_DEPTH && s != [] && !IsWhite(s[0]) && Accepts(Run(Scan(BeginValue, stack), s))
    ensures ValueFits(v, MAX_DEPTH - |stack|)
    ensures Splits(Scan(BeginValue, stack), s, ValueText(v), q, rest) && Ends(q, stack, rest)
    decreases |s|, 1
  {
    hide Splits;
    var start, c := Scan(BeginValue, stack), s[0];
    NextIsScan(start, s);
    if c == LEFT_BRACKET {
      v, q, rest := ParseArray(stack, s);
    } else if c == LEFT_BRACE {
      v, q, rest := ParseObject(stack, s);
    } else if c == QUOTE {
      var units;
      units, rest := ParseQuote(start, s);
      v, q := Literal(units), Scan(EndValue, stack);
    } else if c == MINUS || IsDigit(c) {
      var n;
      n, q, rest := ParseNumber(stack, s);
      v := Numeric(n);
    } else {
      v, rest := ParseLiteralName(stack, s);
      q := Scan(EndValue, stack);
    }
  }

  /** Every valid text is one of the grammar, and nests at most 10000 deep. */
  lemma AcceptedIsGrammar(s: Bytes) returns (e: Element)
    requires IsValidJson(s)
    ensures ElementFits(e, 10000) && s == ElementText(e)
  {
    var blank, next := SplitBlank(s);
    BlankAccepts(START, blank, next);
    assert next != [];
    var q, rest;
    e, q, rest := ParseElement(START, [], blank, next);
    SplitAccepts(START, s, ElementText(e), q, rest);
    if rest != [] {
      NextIsScan(q, rest);
      assert false;
    }
    assert ElementText(e) + [] == ElementText(e);
  }

  /** The texts that can be stored are exactly those of the grammar that nest at most 10000 deep, and
      each is stored as the same value without its white space. */
  lemma CompactExactly(s: Bytes, stored: Bytes)
    ensures Compact(s) == Some(stored) <==>
            exists e: Element :: ElementFits(e, 10000) && s == ElementText(e) && stored == ElementText(BareElement(e))
  {
    if IsValidJson(s) {
      var e := AcceptedIsGrammar(s);
      GrammarIsAccepted(e);
    }
    if e: Element :| ElementFits(e, 10000) && s == ElementText(e) && stored == ElementText(BareElement(e)) {
      GrammarIsAccepted(e);
    }
  }
}
