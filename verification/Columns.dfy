/** What becomes of one event, told from its fields and the row alone: why it is refused, what each column
    stores, and what is reported. */
module Columns {
  import opened Bytes
  import opened Model
  import opened Limits
  import opened Text
  import opened Sanitize
  import opened Rules
  import opened Pipeline
  import Decimal
  import Json
  import JsonGrammar

  // ---- Why an event is refused ----

  predicate HasName(ev: Event) { TrimSpace(ev.event) != [] }

  predicate NameIsFine(c: Settings, ev: Event) {
    var name := TrimSpace(ev.event);
    && 0 < |name| <= c.limits.maxEventNameLen
    && forall i | 0 <= i < |name| :: 0x61 <= name[i] <= 0x7A || 0x30 <= name[i] <= 0x39 || name[i] == 0x5F
  }

  predicate IdIsFine(c: Settings, tick: Tick, ev: Event) {
    if TrimSpace(ev.eventId) == [] then tick.newId.Some? else c.lib.parseUuid(TrimSpace(ev.eventId)).Some?
  }

  predicate TimeIsFine(c: Settings, ev: Event) {
    TrimSpace(ev.timestamp) == [] || c.lib.parseTime(TrimSpace(ev.timestamp)).Some?
  }

  predicate RevenueIsFine(c: Settings, ev: Event) {
    var revenue := TrimSpace(ev.revenue);
    revenue == [] || Decimal.FitsDecimal(revenue, c.limits.revenuePrecision, c.limits.revenueScale)
  }

  predicate HasNoProperties(ev: Event) {
    TrimSpace(ev.properties) == [] || TrimSpace(ev.properties) == [0x6E, 0x75, 0x6C, 0x6C]
  }

  predicate SizeIsFine(c: Settings, ev: Event) {
    HasNoProperties(ev) || |TrimSpace(ev.properties)| <= c.limits.maxPropertiesBytes
  }

  /** The text of an object, by the grammar, and what it is without white space. */
  predicate IsObjectText(e: JsonGrammar.Element, text: Bytes, stored: Bytes) {
    && JsonGrammar.ElementFits(e, 10000) && e.before == [] && (e.value.Object? || e.value.EmptyObject?)
    && text == JsonGrammar.ElementText(e) && stored == JsonGrammar.ElementText(JsonGrammar.BareElement(e))
  }

  ghost predicate ObjectIsFine(ev: Event) {
    HasNoProperties(ev) || exists e: JsonGrammar.Element, stored: Bytes :: IsObjectText(e, TrimSpace(ev.properties), stored)
  }

  lemma ObjectStarts(v: JsonGrammar.Value, depth: int)
    requires JsonGrammar.ValueFits(v, depth)
    ensures JsonGrammar.ValueText(v) != []
    ensures JsonGrammar.ValueText(v)[0] == LEFT_BRACE <==> v.Object? || v.EmptyObject?
  {
    match v
    case Numeric(n) =>
      JsonGrammar.NumberStarts(n);
    case Null =>
      JsonGrammar.LiteralNames();
    case True =>
      JsonGrammar.LiteralNames();
    case False =>
      JsonGrammar.LiteralNames();
    case _ =>
  }

  lemma ObjectIsStored(e: JsonGrammar.Element, text: Bytes, stored: Bytes)
    requires IsObjectText(e, text, stored)
    ensures text != [] && text[0] == LEFT_BRACE && Json.Compact(text) == Some(stored)
  {
    hide JsonGrammar.ElementText, Json.Compact;
    ElementStarts(e);
    JsonGrammar.GrammarIsAccepted(e);
  }

  lemma StoredIsObject(text: Bytes, stored: Bytes) returns (e: JsonGrammar.Element)
    requires text != [] && text[0] == LEFT_BRACE && Json.Compact(text) == Some(stored)
    ensures IsObjectText(e, text, stored)
  {
    hide JsonGrammar.ElementText;
    e := JsonGrammar.AcceptedIsGrammar(text);
    ElementStarts(e);
    JsonGrammar.GrammarIsAccepted(e);
  }

  lemma ElementStarts(e: JsonGrammar.Element)
    requires JsonGrammar.ElementFits(e, 10000)
    ensures JsonGrammar.ElementText(e) != []
    ensures JsonGrammar.ElementText(e)[0] == LEFT_BRACE <==> e.before == [] && (e.value.Object? || e.value.EmptyObject?)
  {
    ObjectStarts(e.value, 10000);
  }

  lemma PropertiesAreObject(ev: Event)
    ensures PropertiesColumn(ev.properties).Some? <==> ObjectIsFine(ev)
    ensures HasNoProperties(ev) ==> PropertiesColumn(ev.properties) == Some([LEFT_BRACE, RIGHT_BRACE])
    ensures !HasNoProperties(ev) && PropertiesColumn(ev.properties).Some? ==>
              exists e: JsonGrammar.Element ::
                IsObjectText(e, TrimSpace(ev.properties), PropertiesColumn(ev.properties).value)
  {
    hide JsonGrammar.ElementText, Json.Compact, TrimSpace;
    var t := TrimSpace(ev.properties);
    if !HasNoProperties(ev) {
      if PropertiesColumn(ev.properties).Some? {
        var e := StoredIsObject(t, PropertiesColumn(ev.properties).value);
      }
      if e: JsonGrammar.Element, stored: Bytes :| IsObjectText(e, t, stored) {
        ObjectIsStored(e, t, stored);
      }
    }
  }

  /** The reason of a refusal, from the fields of the event: that of the first check, in this order, that
      fails; and an event that fails none is accepted. */
  lemma ReasonExactly(c: Settings, tick: Tick, ev: Event, siteId: Bytes)
    ensures var reason := Checked(c, tick, ev, siteId).reason;
            var name, id := NameIsFine(c, ev), IdIsFine(c, tick, ev);
            var time, revenue := TimeIsFine(c, ev), RevenueIsFine(c, ev);
            reason == if !HasName(ev) then MissingEventName
                      else if !name then InvalidEventName
                      else if !id then InvalidEventId
                      else if !time then InvalidTimestamp
                      else if !revenue then InvalidRevenue
                      else if !SizeIsFine(c, ev) then PropertiesTooLarge
                      else if !ObjectIsFine(ev) then InvalidProperties
                      else NoReason
  {
    hide RunRules, TrimSpace, ObjectIsFine;
    var judge := Judging(c, tick, ev);
    forall r ensures judge(r).reason != NoReason ==> judge(r).repairs == [] {
      RefusalIsSilent(r, c, tick, ev);
    }
    RunStopsAtFirst(EVENT_RULES, judge, Applying(c, tick, ev), EmptyEvent(siteId));
    RefusingRules(c, tick, ev);
    FirstOfTen(judge);
  }

  lemma RefusingRules(c: Settings, tick: Tick, ev: Event)
    ensures Judge(EventNameRule, c, tick, ev).reason ==
            if !HasName(ev) then MissingEventName else if !NameIsFine(c, ev) then InvalidEventName else NoReason
    ensures Judge(EventIdRule, c, tick, ev).reason == if IdIsFine(c, tick, ev) then NoReason else InvalidEventId
    ensures Judge(TimestampRule, c, tick, ev).reason == if TimeIsFine(c, ev) then NoReason else InvalidTimestamp
    ensures Judge(CommerceRule, c, tick, ev).reason == if RevenueIsFine(c, ev) then NoReason else InvalidRevenue
    ensures Judge(PropertiesRule, c, tick, ev).reason ==
            if !SizeIsFine(c, ev) then PropertiesTooLarge
            else if !ObjectIsFine(ev) then InvalidProperties else NoReason
    ensures forall r | r == IdentityRule || r == PageRule || r == ReferrerRule || r == UtmRule || r == AudienceRule ::
              Judge(r, c, tick, ev).reason == NoReason
  {
    hide HasName, NameIsFine, IdIsFine, TimeIsFine, RevenueIsFine, SizeIsFine, ObjectIsFine, TrimSpace;
    hide JudgeEventName, JudgeEventId, JudgeTimestamp, JudgeCommerce, JudgeProperties;
    NameRefuses(c, ev);
    IdRefuses(c, tick, ev);
    TimeRefuses(c, tick, ev);
    RevenueRefuses(c, ev);
    PropertiesRefuse(c, ev);
  }

  lemma NameRefuses(c: Settings, ev: Event)
    ensures JudgeEventName(c, ev).reason ==
            if !HasName(ev) then MissingEventName else if !NameIsFine(c, ev) then InvalidEventName else NoReason
  {
    hide TrimSpace;
  }

  lemma IdRefuses(c: Settings, tick: Tick, ev: Event)
    ensures JudgeEventId(c, tick, ev).reason == if IdIsFine(c, tick, ev) then NoReason else InvalidEventId
  {
    hide TrimSpace;
  }

  lemma TimeRefuses(c: Settings, tick: Tick, ev: Event)
    ensures JudgeTimestamp(c, tick, ev).reason == if TimeIsFine(c, ev) then NoReason else InvalidTimestamp
  {
    hide TrimSpace;
  }

  lemma RevenueRefuses(c: Settings, ev: Event)
    ensures JudgeCommerce(c, ev).reason == if RevenueIsFine(c, ev) then NoReason else InvalidRevenue
  {
    hide TrimSpace;
  }

  lemma PropertiesRefuse(c: Settings, ev: Event)
    ensures JudgeProperties(c, ev).reason ==
            if !SizeIsFine(c, ev) then PropertiesTooLarge
            else if !ObjectIsFine(ev) then InvalidProperties else NoReason
  {
    hide ObjectIsFine, TrimSpace, PropertiesColumn;
    PropertiesAreObject(ev);
  }

  lemma FirstOfTen(judge: Judgement)
    requires forall r | r == IdentityRule || r == PageRule || r == ReferrerRule || r == UtmRule || r == AudienceRule ::
               judge(r).reason == NoReason
    ensures var k := FirstRefusal(EVENT_RULES, judge);
            (if k < |EVENT_RULES| then judge(EVENT_RULES[k]).reason else NoReason) ==
            if judge(EventNameRule).reason != NoReason then judge(EventNameRule).reason
            else if judge(EventIdRule).reason != NoReason then judge(EventIdRule).reason
            else if judge(TimestampRule).reason != NoReason then judge(TimestampRule).reason
            else if judge(CommerceRule).reason != NoReason then judge(CommerceRule).reason
            else judge(PropertiesRule).reason
  {
    hide FirstRefusal;
    assert EVENT_RULES[0] == EventNameRule && EVENT_RULES[1] == EventIdRule && EVENT_RULES[2] == TimestampRule;
    assert EVENT_RULES[8] == CommerceRule && EVENT_RULES[9] == PropertiesRule;
  }

  // ---- What is stored ----

  /** The columns that are computed from a field and the clock. */
  ghost predicate StoresComputed(c: Settings, tick: Tick, ev: Event, e: ValidatedEvent) {
    var time, id, lib := TrimSpace(ev.timestamp), TrimSpace(ev.eventId), c.lib;
    var country, currency := lib.toUpper(TrimSpace(ev.country)), lib.toUpper(TrimSpace(ev.currency));
    && e.eventName == TrimSpace(ev.event)
    && (id == [] ==> Some(e.eventId) == tick.newId) && (id != [] ==> Some(e.eventId) == lib.parseUuid(id))
    && (time == [] ==> e.eventTime == tick.now)
    && (time != [] ==>
          var parsed := lib.parseTime(time);
          parsed.Some? &&
          e.eventTime == if tick.now - c.limits.pastSkew <= parsed.value <= tick.now + c.limits.futureSkew
                         then parsed.value else tick.now)
    && (IsCode(country, 2) ==> e.country == country) && (!IsCode(country, 2) ==> e.country == [])
    && (IsCode(currency, 3) ==> e.currency == currency) && (!IsCode(currency, 3) ==> e.currency == Ascii("VND"))
    && e.revenue == TrimSpace(ev.revenue)
  }

  predicate IsCode(s: Bytes, n: nat) {
    |s| == n && forall i | 0 <= i < n :: 0x41 <= s[i] <= 0x5A
  }

  /** The columns that hold a field, trimmed and cut to their limit. */
  predicate StoresTexts(c: Settings, ev: Event, e: ValidatedEvent) {
    var l := c.limits;
    && e.userId == BoundedText(ev.userId, l.maxUserIdLen) && e.sessionId == BoundedText(ev.sessionId, l.maxSessionIdLen)
    && e.utmSource == BoundedText(ev.utm.source, l.maxLabelLen)
    && e.utmMedium == BoundedText(ev.utm.medium, l.maxLabelLen)
    && e.utmCampaign == BoundedText(ev.utm.campaign, l.maxLabelLen)
    && e.city == BoundedText(ev.city, l.maxCityLen)
    && e.os == BoundedText(ev.os, l.maxLabelLen) && e.browser == BoundedText(ev.browser, l.maxLabelLen)
  }

  /** The device is the one of that name, and unknown when there is none. */
  predicate StoresDevice(c: Settings, ev: Event, e: ValidatedEvent) {
    var device := c.lib.toLower(TrimSpace(ev.device));
    && (e.device == Desktop <==> device == Ascii("desktop")) && (e.device == Mobile <==> device == Ascii("mobile"))
    && (e.device == Tablet <==> device == Ascii("tablet")) && (e.device == Bot <==> device == Ascii("bot"))
    && e.device != Unset
  }

  ghost predicate StoresUrls(c: Settings, ev: Event, e: ValidatedEvent) {
    && e.page == SanitizedUrl(c.sensitive, c.lib.url, ev.page, c.limits.maxPageLen).out
    && e.referrer == SanitizedUrl(c.sensitive, c.lib.url, ev.referrer, c.limits.maxReferrerLen).out
  }

  /** The properties are the object that was sent, without its white space. */
  ghost predicate StoresProperties(ev: Event, e: ValidatedEvent) {
    if HasNoProperties(ev) then e.properties == [LEFT_BRACE, RIGHT_BRACE]
    else exists o: JsonGrammar.Element :: IsObjectText(o, TrimSpace(ev.properties), e.properties)
  }

  lemma DeviceNames()
    ensures DESKTOP == Ascii("desktop") && MOBILE == Ascii("mobile") && TABLET == Ascii("tablet")
    ensures BOT == Ascii("bot") && DEFAULT_CURRENCY == Ascii("VND")
  {
    hide Ascii;
  }

  /** Every column of an accepted event, from the field that it was sent in. */
  lemma StoresExactly(c: Settings, tick: Tick, ev: Event, siteId: Bytes)
    requires Checked(c, tick, ev, siteId).reason == NoReason
    ensures var e := Checked(c, tick, ev, siteId).out;
            && e.siteId == siteId && e.ingestedAt == ZERO_TIME
            && StoresComputed(c, tick, ev, e) && StoresTexts(c, ev, e) && StoresDevice(c, ev, e)
            && StoresUrls(c, ev, e) && StoresProperties(ev, e)
  {
    hide Apply, RunRules, StoresComputed, StoresTexts, StoresDevice, StoresUrls, StoresProperties;
    var judge, write := Judging(c, tick, ev), Applying(c, tick, ev);
    RulesAreIndependent(c, tick, ev);
    AcceptedIsSettled(judge, write, siteId);
    var e := Checked(c, tick, ev, siteId).out;
    assert forall r: Rule :: judge(r).reason == NoReason && write(r, e) == e;
    assert forall r: Rule :: Judge(r, c, tick, ev).reason == judge(r).reason && Apply(r, c, tick, ev, e) == write(r, e);
    SettledStores(c, tick, ev, e);
  }

  /** Every rule passes the event and would write its row again. */
  ghost predicate IsSettled(c: Settings, tick: Tick, ev: Event, e: ValidatedEvent) {
    forall r: Rule :: Judge(r, c, tick, ev).reason == NoReason && Apply(r, c, tick, ev, e) == e
  }

  lemma SettledStores(c: Settings, tick: Tick, ev: Event, e: ValidatedEvent)
    requires IsSettled(c, tick, ev, e)
    ensures StoresComputed(c, tick, ev, e) && StoresTexts(c, ev, e) && StoresDevice(c, ev, e)
    ensures StoresUrls(c, ev, e) && StoresProperties(ev, e)
  {
    SettledComputed(c, tick, ev, e);
    SettledTexts(c, tick, ev, e);
    SettledDevice(c, tick, ev, e);
    SettledUrls(c, tick, ev, e);
    SettledProperties(c, tick, ev, e);
  }

  lemma SettledComputed(c: Settings, tick: Tick, ev: Event, e: ValidatedEvent)
    requires IsSettled(c, tick, ev, e)
    ensures StoresComputed(c, tick, ev, e)
  {
    hide TrimSpace, Ascii;
    RefusingRules(c, tick, ev);
    DeviceNames();
    assert e.eventName == Apply(EventNameRule, c, tick, ev, e).eventName;
    assert e.eventId == Apply(EventIdRule, c, tick, ev, e).eventId;
    assert e.eventTime == Apply(TimestampRule, c, tick, ev, e).eventTime;
    assert e.country == Apply(AudienceRule, c, tick, ev, e).country;
    assert e.currency == Apply(CommerceRule, c, tick, ev, e).currency;
    assert e.revenue == Apply(CommerceRule, c, tick, ev, e).revenue;
  }

  lemma SettledTexts(c: Settings, tick: Tick, ev: Event, e: ValidatedEvent)
    requires IsSettled(c, tick, ev, e)
    ensures StoresTexts(c, ev, e)
  {
    hide BoundedText, Apply;
    assert Apply(IdentityRule, c, tick, ev, e) == e && Apply(UtmRule, c, tick, ev, e) == e &&
           Apply(AudienceRule, c, tick, ev, e) == e;
    IdentityTexts(c, tick, ev, e);
    UtmTexts(c, tick, ev, e);
    AudienceTexts(c, tick, ev, e);
  }

  lemma IdentityTexts(c: Settings, tick: Tick, ev: Event, e: ValidatedEvent)
    ensures var w := Apply(IdentityRule, c, tick, ev, e);
            && w.userId == BoundedText(ev.userId, c.limits.maxUserIdLen)
            && w.sessionId == BoundedText(ev.sessionId, c.limits.maxSessionIdLen)
  {
    hide BoundedText;
  }

  lemma UtmTexts(c: Settings, tick: Tick, ev: Event, e: ValidatedEvent)
    ensures var w := Apply(UtmRule, c, tick, ev, e);
            && w.utmSource == BoundedText(ev.utm.source, c.limits.maxLabelLen)
            && w.utmMedium == BoundedText(ev.utm.medium, c.limits.maxLabelLen)
            && w.utmCampaign == BoundedText(ev.utm.campaign, c.limits.maxLabelLen)
  {
    hide BoundedText;
  }

  lemma AudienceTexts(c: Settings, tick: Tick, ev: Event, e: ValidatedEvent)
    ensures var w := Apply(AudienceRule, c, tick, ev, e);
            && w.city == BoundedText(ev.city, c.limits.maxCityLen)
            && w.os == BoundedText(ev.os, c.limits.maxLabelLen)
            && w.browser == BoundedText(ev.browser, c.limits.maxLabelLen)
  {
    hide BoundedText;
  }

  lemma SettledDevice(c: Settings, tick: Tick, ev: Event, e: ValidatedEvent)
    requires IsSettled(c, tick, ev, e)
    ensures StoresDevice(c, ev, e)
  {
    hide TrimSpace, Ascii;
    DeviceNames();
    assert e.device == Apply(AudienceRule, c, tick, ev, e).device;
  }

  lemma SettledUrls(c: Settings, tick: Tick, ev: Event, e: ValidatedEvent)
    requires IsSettled(c, tick, ev, e)
    ensures StoresUrls(c, ev, e)
  {
    hide SanitizedUrl;
    assert e.page == Apply(PageRule, c, tick, ev, e).page && e.referrer == Apply(ReferrerRule, c, tick, ev, e).referrer;
  }

  lemma SettledProperties(c: Settings, tick: Tick, ev: Event, e: ValidatedEvent)
    requires IsSettled(c, tick, ev, e)
    ensures StoresProperties(ev, e)
  {
    hide IsObjectText, PropertiesColumn, HasNoProperties;
    assert Judge(PropertiesRule, c, tick, ev).reason == NoReason;
    PropertiesAreObject(ev);
    assert e.properties == Apply(PropertiesRule, c, tick, ev, e).properties;
  }

  // ---- What is reported ----

  function Note(happened: bool, o: Observation): seq<Observation> {
    if happened then [o] else []
  }

  function Cut(field: Field, sent: Bytes, stored: Bytes): seq<Observation> {
    Note(stored != TrimSpace(sent), FieldRepaired(field, WasTruncated))
  }

  function IdNotes(ev: Event): seq<Observation> {
    Note(TrimSpace(ev.eventId) == [], FieldRepaired(EventIdField, WasDefaulted))
  }

  function TimeNotes(c: Settings, tick: Tick, ev: Event): seq<Observation> {
    var time := TrimSpace(ev.timestamp);
    var parsed := c.lib.parseTime(time);
    Note(time == [], FieldRepaired(TimestampField, WasDefaulted)) +
    Note(time != [] && parsed.Some? && parsed.value > tick.now + c.limits.futureSkew, ClockSkewed(Future)) +
    Note(time != [] && parsed.Some? && parsed.value <= tick.now + c.limits.futureSkew &&
         parsed.value < tick.now - c.limits.pastSkew, ClockSkewed(Past))
  }

  /** The two reports of a URL: that stripping changed it, and that what stripping left was cut. */
  ghost function UrlNotes(c: Settings, field: Field, sent: Bytes, stored: Bytes): seq<Observation> {
    var t := TrimSpace(sent);
    var whole := Stripped(c.sensitive, c.lib.url, t).out;
    Note(t != [] && whole != t, FieldRepaired(field, WasStripped)) +
    Note(t != [] && stored != whole, FieldRepaired(field, WasTruncated))
  }

  function CountryNotes(c: Settings, ev: Event, e: ValidatedEvent): seq<Observation> {
    Note(e.country != c.lib.toUpper(TrimSpace(ev.country)), FieldRepaired(CountryField, WasStripped))
  }

  function DeviceNotes(c: Settings, ev: Event): seq<Observation> {
    var device := c.lib.toLower(TrimSpace(ev.device));
    Note(device != [] && device != Ascii("desktop") && device != Ascii("mobile") && device != Ascii("tablet") &&
         device != Ascii("bot") && device != Ascii("unknown"), FieldRepaired(DeviceField, WasNormalised))
  }

  function CurrencyNotes(c: Settings, ev: Event, e: ValidatedEvent): seq<Observation> {
    var currency := c.lib.toUpper(TrimSpace(ev.currency));
    Note(currency != [] && e.currency != currency, FieldRepaired(CurrencyField, WasNormalised))
  }

  function IdentityNotes(ev: Event, e: ValidatedEvent): seq<Observation> {
    Cut(UserIdField, ev.userId, e.userId) + Cut(SessionIdField, ev.sessionId, e.sessionId)
  }

  function UtmNotes(ev: Event, e: ValidatedEvent): seq<Observation> {
    Cut(UtmSourceField, ev.utm.source, e.utmSource) + Cut(UtmMediumField, ev.utm.medium, e.utmMedium) +
    Cut(UtmCampaignField, ev.utm.campaign, e.utmCampaign)
  }

  function AudienceNotes(c: Settings, ev: Event, e: ValidatedEvent): seq<Observation> {
    CountryNotes(c, ev, e) + Cut(CityField, ev.city, e.city) + DeviceNotes(c, ev) + Cut(OsField, ev.os, e.os) +
    Cut(BrowserField, ev.browser, e.browser)
  }

  /** What is reported of an accepted event: each repair exactly when the row differs from what was sent,
      in the order of the columns, and nothing else. */
  ghost function Notes(c: Settings, tick: Tick, ev: Event, e: ValidatedEvent): seq<Observation> {
    IdNotes(ev) + TimeNotes(c, tick, ev) + IdentityNotes(ev, e) + UrlNotes(c, PageField, ev.page, e.page) +
    UrlNotes(c, ReferrerField, ev.referrer, e.referrer) + UtmNotes(ev, e) + AudienceNotes(c, ev, e) +
    CurrencyNotes(c, ev, e)
  }

  lemma RepairsStep(rule: Rule, rest: seq<Rule>, judge: Judgement)
    ensures RepairsOf([rule] + rest, judge) == judge(rule).repairs + RepairsOf(rest, judge)
  {
    assert ([rule] + rest)[1..] == rest;
  }

  lemma RepairsOfTen(judge: Judgement)
    requires judge(EventNameRule).repairs == [] && judge(PropertiesRule).repairs == []
    ensures RepairsOf(EVENT_RULES, judge) ==
            judge(EventIdRule).repairs + judge(TimestampRule).repairs + judge(IdentityRule).repairs +
            judge(PageRule).repairs + judge(ReferrerRule).repairs + judge(UtmRule).repairs +
            judge(AudienceRule).repairs + judge(CommerceRule).repairs
  {
    hide RepairsOf;
    var last := [PropertiesRule];
    var commerce := [CommerceRule] + last;
    var audience := [AudienceRule] + commerce;
    var utm := [UtmRule] + audience;
    var referrer := [ReferrerRule] + utm;
    var page := [PageRule] + referrer;
    var identity := [IdentityRule] + page;
    var time := [TimestampRule] + identity;
    var id := [EventIdRule] + time;
    assert EVENT_RULES == [EventNameRule] + id && last == [PropertiesRule] + [];
    NoRules(judge);
    RepairsStep(PropertiesRule, [], judge);
    RepairsStep(CommerceRule, last, judge);
    RepairsStep(AudienceRule, commerce, judge);
    RepairsStep(UtmRule, audience, judge);
    RepairsStep(ReferrerRule, utm, judge);
    RepairsStep(PageRule, referrer, judge);
    RepairsStep(IdentityRule, page, judge);
    RepairsStep(TimestampRule, identity, judge);
    RepairsStep(EventIdRule, time, judge);
    RepairsStep(EventNameRule, id, judge);
  }

  lemma NoRules(judge: Judgement)
    ensures RepairsOf([], judge) == []
  {
  }

  lemma PassedRun(rules: seq<Rule>, judge: Judgement, write: Writing, row: ValidatedEvent)
    requires forall r | judge(r).reason != NoReason :: judge(r).repairs == []
    requires RunRules(rules, judge, write, row).reason == NoReason
    ensures RunRules(rules, judge, write, row).trace == RepairsOf(rules, judge)
    ensures forall r | r in rules :: judge(r).reason == NoReason
  {
    hide RunRules, RepairsOf;
    RunStopsAtFirst(rules, judge, write, row);
    var k := FirstRefusal(rules, judge);
    assert k == |rules|;
    assert rules[..|rules|] == rules;
  }

  /** The reports of an accepted event are exactly these. */
  lemma ReportsExactly(c: Settings, tick: Tick, ev: Event, siteId: Bytes)
    requires Reparses(c.lib.url)
    requires Checked(c, tick, ev, siteId).reason == NoReason
    ensures Checked(c, tick, ev, siteId).trace == Notes(c, tick, ev, Checked(c, tick, ev, siteId).out)
  {
    hide RunRules, StoresComputed, StoresTexts, StoresDevice, StoresUrls, StoresProperties, Judge, RepairsOf, Notes;
    var judge := Judging(c, tick, ev);
    forall r ensures judge(r).reason != NoReason ==> judge(r).repairs == [] {
      RefusalIsSilent(r, c, tick, ev);
    }
    PassedRun(EVENT_RULES, judge, Applying(c, tick, ev), EmptyEvent(siteId));
    EventRulesAreAll();
    StoresExactly(c, tick, ev, siteId);
    assert forall r :: Judge(r, c, tick, ev).reason == judge(r).reason;
    RulesReport(c, tick, ev, Checked(c, tick, ev, siteId).out);
  }

  lemma RulesReport(c: Settings, tick: Tick, ev: Event, e: ValidatedEvent)
    requires Reparses(c.lib.url)
    requires StoresComputed(c, tick, ev, e) && StoresTexts(c, ev, e) && StoresUrls(c, ev, e)
    requires forall r :: Judge(r, c, tick, ev).reason == NoReason
    ensures RepairsOf(EVENT_RULES, Judging(c, tick, ev)) == Notes(c, tick, ev, e)
  {
    hide RepairsOf, StoresComputed, StoresTexts, StoresUrls, IdNotes, TimeNotes, IdentityNotes, UrlNotes, UtmNotes;
    hide AudienceNotes, CurrencyNotes, UrlRepairs, IdentityRepairs, UtmRepairs, JudgeEventId, JudgeTimestamp;
    hide JudgeAudience, JudgeCommerce;
    var judge := Judging(c, tick, ev);
    SilentRules(c, tick, ev);
    RepairsOfTen(judge);
    IdReports(c, tick, ev);
    TimeReports(c, tick, ev);
    TextsReport(c, ev, e);
    UrlReports(c, ev, e);
    CommerceReports(c, tick, ev, e);
    AudienceReports(c, tick, ev, e);
  }

  lemma SilentRules(c: Settings, tick: Tick, ev: Event)
    ensures Judge(EventNameRule, c, tick, ev).repairs == [] && Judge(PropertiesRule, c, tick, ev).repairs == []
  {
    hide PropertiesColumn, TrimSpace;
  }

  lemma IdReports(c: Settings, tick: Tick, ev: Event)
    requires JudgeEventId(c, tick, ev).reason == NoReason
    ensures JudgeEventId(c, tick, ev).repairs == IdNotes(ev)
  {
    hide TrimSpace;
  }

  lemma TimeReports(c: Settings, tick: Tick, ev: Event)
    requires JudgeTimestamp(c, tick, ev).reason == NoReason
    ensures JudgeTimestamp(c, tick, ev).repairs == TimeNotes(c, tick, ev)
  {
    hide TrimSpace;
  }

  lemma TextsReport(c: Settings, ev: Event, e: ValidatedEvent)
    requires StoresTexts(c, ev, e)
    ensures IdentityRepairs(c, ev) == IdentityNotes(ev, e) && UtmRepairs(c, ev) == UtmNotes(ev, e)
  {
    hide BoundedText, TrimSpace;
  }

  lemma UrlReports(c: Settings, ev: Event, e: ValidatedEvent)
    requires Reparses(c.lib.url) && StoresUrls(c, ev, e)
    ensures UrlRepairs(c, ev.page, c.limits.maxPageLen, PageField) == UrlNotes(c, PageField, ev.page, e.page)
    ensures UrlRepairs(c, ev.referrer, c.limits.maxReferrerLen, ReferrerField) ==
            UrlNotes(c, ReferrerField, ev.referrer, e.referrer)
  {
    hide UrlRepairs, UrlNotes, SanitizedUrl;
    UrlReport(c, ev.page, c.limits.maxPageLen, PageField);
    UrlReport(c, ev.referrer, c.limits.maxReferrerLen, ReferrerField);
  }

  lemma UrlReport(c: Settings, sent: Bytes, limit: int, field: Field)
    requires Reparses(c.lib.url)
    ensures UrlRepairs(c, sent, limit, field) ==
            UrlNotes(c, field, sent, SanitizedUrl(c.sensitive, c.lib.url, sent, limit).out)
  {
    hide Stripped, TrimSpace;
    StrippedIsExact(c.sensitive, c.lib.url, TrimSpace(sent));
  }

  lemma CommerceReports(c: Settings, tick: Tick, ev: Event, e: ValidatedEvent)
    requires StoresComputed(c, tick, ev, e) && JudgeCommerce(c, ev).reason == NoReason
    ensures JudgeCommerce(c, ev).repairs == CurrencyNotes(c, ev, e)
  {
    hide TrimSpace, Ascii;
    DeviceNames();
    assert !IsCode([], 3);
  }

  lemma AudienceReports(c: Settings, tick: Tick, ev: Event, e: ValidatedEvent)
    requires StoresComputed(c, tick, ev, e) && StoresTexts(c, ev, e)
    ensures JudgeAudience(c, ev).repairs == AudienceNotes(c, ev, e)
  {
    hide BoundedText, TrimSpace, Ascii, DeviceRepairs, DeviceNotes, CountryRepairs, CountryNotes;
    DeviceReports(c, ev);
    CountryReports(c, tick, ev, e);
  }

  lemma DeviceReports(c: Settings, ev: Event)
    ensures DeviceRepairs(c, ev) == DeviceNotes(c, ev)
  {
    hide Ascii, TrimSpace;
    DeviceNames();
    assert UNKNOWN == Ascii("unknown");
  }

  lemma CountryReports(c: Settings, tick: Tick, ev: Event, e: ValidatedEvent)
    requires StoresComputed(c, tick, ev, e)
    ensures CountryRepairs(c, ev) == CountryNotes(c, ev, e)
  {
    hide Ascii, TrimSpace;
  }
}
