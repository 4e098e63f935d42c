/** Properties of whole runs of the rules: what an accepted row satisfies, why the order of the rules
    cannot be seen in it, and what exactly is reported on the way. */
module Pipeline {
  import opened Bytes
  import opened Model
  import opened Limits
  import opened Text
  import opened Sanitize
  import opened Rules
  import Decimal
  import Json
  import Utf8

  // ---- Running rules ----

  datatype Outcome = Outcome(reason: Reason, out: ValidatedEvent, trace: seq<Observation>)

  /** What each rule decides about one event, and what it makes of the row. */
  type Judgement = Rule -> Verdict
  type Writing = (Rule, ValidatedEvent) -> ValidatedEvent

  ghost function Judging(c: Settings, tick: Tick, ev: Event): Judgement {
    r => Judge(r, c, tick, ev)
  }

  ghost function Applying(c: Settings, tick: Tick, ev: Event): Writing {
    (r, out) => Apply(r, c, tick, ev, out)
  }

  /** Running rules one after the other up to the first that refuses. */
  function RunRules(rules: seq<Rule>, judge: Judgement, write: Writing, out: ValidatedEvent): Outcome {
    if rules == [] then Outcome(NoReason, out, [])
    else
      var v := judge(rules[0]);
      if v.reason != NoReason then Outcome(v.reason, EmptyEvent([]), v.repairs)
      else
        var rest := RunRules(rules[1..], judge, write, write(rules[0], out));
        rest.(trace := v.repairs + rest.trace)
  }

  /** The whole pipeline over one event. */
  ghost function Checked(c: Settings, tick: Tick, ev: Event, siteId: Bytes): Outcome {
    RunRules(EVENT_RULES, Judging(c, tick, ev), Applying(c, tick, ev), EmptyEvent(siteId))
  }

  // ---- Order ----

  /** `out` with the columns that `rule` owns taken from `row`. */
  function Own(rule: Rule, row: ValidatedEvent, out: ValidatedEvent): ValidatedEvent {
    match rule
    case EventNameRule => out.(eventName := row.eventName)
    case EventIdRule => out.(eventId := row.eventId)
    case TimestampRule => out.(eventTime := row.eventTime)
    case IdentityRule => out.(userId := row.userId, sessionId := row.sessionId)
    case PageRule => out.(page := row.page)
    case ReferrerRule => out.(referrer := row.referrer)
    case UtmRule =>
      out.(utmSource := row.utmSource, utmMedium := row.utmMedium, utmCampaign := row.utmCampaign)
    case AudienceRule =>
      out.(country := row.country, city := row.city, device := row.device, os := row.os, browser := row.browser)
    case CommerceRule => out.(revenue := row.revenue, currency := row.currency)
    case PropertiesRule => out.(properties := row.properties)
  }

  /** Each rule writes only the columns it owns, and what it writes does not depend on the row. */
  ghost predicate Independent(write: Writing) {
    forall r: Rule, base: ValidatedEvent, out: ValidatedEvent :: write(r, out) == Own(r, write(r, base), out)
  }

  lemma RulesAreIndependent(c: Settings, tick: Tick, ev: Event)
    ensures Independent(Applying(c, tick, ev))
  {
    forall r: Rule, base: ValidatedEvent, out: ValidatedEvent
      ensures Applying(c, tick, ev)(r, out) == Own(r, Applying(c, tick, ev)(r, base), out)
    {
      RuleIsIndependent(r, c, tick, ev, base, out);
    }
  }

  lemma RuleIsIndependent(
      r: Rule, c: Settings, tick: Tick, ev: Event, base: ValidatedEvent, out: ValidatedEvent)
    ensures Apply(r, c, tick, ev, out) == Own(r, Apply(r, c, tick, ev, base), out)
  {
  }

  /** The row a writing makes of any other: each column from the rule that owns it. */
  function Gather(write: Writing, base: ValidatedEvent): ValidatedEvent {
    var identity, utm, audience := write(IdentityRule, base), write(UtmRule, base), write(AudienceRule, base);
    var commerce := write(CommerceRule, base);
    ValidatedEvent(
      write(TimestampRule, base).eventTime, base.ingestedAt, base.siteId,
      write(EventIdRule, base).eventId, write(EventNameRule, base).eventName,
      identity.userId, identity.sessionId, write(PageRule, base).page, write(ReferrerRule, base).referrer,
      utm.utmSource, utm.utmMedium, utm.utmCampaign,
      audience.country, audience.city, audience.device, audience.os, audience.browser,
      commerce.revenue, commerce.currency, write(PropertiesRule, base).properties)
  }

  ghost predicate WritesFrom(write: Writing, row: ValidatedEvent) {
    forall r: Rule, out: ValidatedEvent :: write(r, out) == Own(r, row, out)
  }

  lemma IndependentWritesFromRow(write: Writing, base: ValidatedEvent)
    requires Independent(write)
    ensures WritesFrom(write, Gather(write, base))
  {
    forall r: Rule, out: ValidatedEvent ensures write(r, out) == Own(r, Gather(write, base), out) {
      assert write(r, out) == Own(r, write(r, base), out);
      OwnFromGathered(write, base, r, out);
    }
  }

  lemma OwnFromGathered(write: Writing, base: ValidatedEvent, r: Rule, out: ValidatedEvent)
    ensures Own(r, Gather(write, base), out) == Own(r, write(r, base), out)
  {
    var row := Gather(write, base);
    match r {
      case EventNameRule => assert row.eventName == write(r, base).eventName;
      case EventIdRule => assert row.eventId == write(r, base).eventId;
      case TimestampRule => assert row.eventTime == write(r, base).eventTime;
      case IdentityRule => assert row.userId == write(r, base).userId;
      case PageRule => assert row.page == write(r, base).page;
      case ReferrerRule => assert row.referrer == write(r, base).referrer;
      case UtmRule => assert row.utmSource == write(r, base).utmSource;
      case AudienceRule => assert row.country == write(r, base).country;
      case CommerceRule => assert row.revenue == write(r, base).revenue;
      case PropertiesRule => assert row.properties == write(r, base).properties;
    }
  }

  function Elements(rules: seq<Rule>): set<Rule> {
    set r | r in rules
  }

  /** `out` with the columns of every rule in `s` taken from `row`. */
  function Overlay(s: set<Rule>, row: ValidatedEvent, out: ValidatedEvent): ValidatedEvent {
    ValidatedEvent(
      if TimestampRule in s then row.eventTime else out.eventTime,
      out.ingestedAt, out.siteId,
      if EventIdRule in s then row.eventId else out.eventId,
      if EventNameRule in s then row.eventName else out.eventName,
      if IdentityRule in s then row.userId else out.userId,
      if IdentityRule in s then row.sessionId else out.sessionId,
      if PageRule in s then row.page else out.page,
      if ReferrerRule in s then row.referrer else out.referrer,
      if UtmRule in s then row.utmSource else out.utmSource,
      if UtmRule in s then row.utmMedium else out.utmMedium,
      if UtmRule in s then row.utmCampaign else out.utmCampaign,
      if AudienceRule in s then row.country else out.country,
      if AudienceRule in s then row.city else out.city,
      if AudienceRule in s then row.device else out.device,
      if AudienceRule in s then row.os else out.os,
      if AudienceRule in s then row.browser else out.browser,
      if CommerceRule in s then row.revenue else out.revenue,
      if CommerceRule in s then row.currency else out.currency,
      if PropertiesRule in s then row.properties else out.properties)
  }

  lemma OverlayStep(rule: Rule, s: set<Rule>, row: ValidatedEvent, out: ValidatedEvent)
    ensures Overlay(s, row, Own(rule, row, out)) == Overlay({rule} + s, row, out)
  {
  }

  lemma OverlaySettled(rule: Rule, s: set<Rule>, row: ValidatedEvent, out: ValidatedEvent)
    requires rule in s
    ensures Own(rule, row, Overlay(s, row, out)) == Overlay(s, row, out)
  {
  }

  /** A run accepts exactly when each of its rules does by itself, and then each column has been
      written by the rule that owns it. */
  lemma {:induction false} RunAccepts(
      rules: seq<Rule>, judge: Judgement, write: Writing, row: ValidatedEvent, out: ValidatedEvent)
    requires WritesFrom(write, row)
    ensures var o := RunRules(rules, judge, write, out);
            && (o.reason == NoReason <==> forall r | r in rules :: judge(r).reason == NoReason)
            && o.out == if o.reason == NoReason then Overlay(Elements(rules), row, out) else EmptyEvent([])
    decreases |rules|
  {
    if rules == [] {
      assert Overlay({}, row, out) == out;
    } else {
      var rule, rest := rules[0], rules[1..];
      assert rules == [rule] + rest;
      assert Elements(rules) == {rule} + Elements(rest);
      if judge(rule).reason == NoReason {
        OverlayStep(rule, Elements(rest), row, out);
        RunAccepts(rest, judge, write, row, write(rule, out));
      } else {
        assert rule in rules;
      }
    }
  }

  /** Any two arrangements of the same rules accept the same events and build the same row. */
  lemma OrderDoesNotMatter(
      a: seq<Rule>, b: seq<Rule>, judge: Judgement, write: Writing, out: ValidatedEvent)
    requires Independent(write)
    requires multiset(a) == multiset(b)
    ensures var x, y := RunRules(a, judge, write, out), RunRules(b, judge, write, out);
            (x.reason == NoReason <==> y.reason == NoReason) && x.out == y.out
  {
    IndependentWritesFromRow(write, out);
    RunAccepts(a, judge, write, Gather(write, out), out);
    RunAccepts(b, judge, write, Gather(write, out), out);
    forall r ensures r in a <==> r in b {
      assert r in a <==> r in multiset(a);
      assert r in b <==> r in multiset(b);
    }
    assert Elements(a) == Elements(b);
  }

  /** The rules of the pipeline are such: for a fixed clock and id, running them in any other order
      accepts the same events and stores the same row. */
  lemma RuleOrderDoesNotMatter(
      rules: seq<Rule>, c: Settings, tick: Tick, ev: Event, siteId: Bytes)
    requires multiset(rules) == multiset(EVENT_RULES)
    ensures var x, y := Checked(c, tick, ev, siteId),
                        RunRules(rules, Judging(c, tick, ev), Applying(c, tick, ev), EmptyEvent(siteId));
            (x.reason == NoReason <==> y.reason == NoReason) && x.out == y.out
  {
    RulesAreIndependent(c, tick, ev);
    OrderDoesNotMatter(EVENT_RULES, rules, Judging(c, tick, ev), Applying(c, tick, ev), EmptyEvent(siteId));
  }

  // ---- What is reported ----

  function RepairsOf(rules: seq<Rule>, judge: Judgement): seq<Observation> {
    if rules == [] then [] else judge(rules[0]).repairs + RepairsOf(rules[1..], judge)
  }

  /** The first rule that refuses; `|rules|` when none does. */
  function FirstRefusal(rules: seq<Rule>, judge: Judgement): (k: nat)
    ensures k <= |rules|
    ensures forall i | 0 <= i < k :: judge(rules[i]).reason == NoReason
    ensures k < |rules| ==> judge(rules[k]).reason != NoReason
  {
    if rules == [] || judge(rules[0]).reason != NoReason then 0
    else FirstRefusal(rules[1..], judge) + 1
  }

  /** A run reports the repairs of the rules before the first that refuses, in order, and nothing
      else; and it is refused for that rule's reason. */
  lemma {:induction false} RunStopsAtFirst(
      rules: seq<Rule>, judge: Judgement, write: Writing, out: ValidatedEvent)
    requires forall r | judge(r).reason != NoReason :: judge(r).repairs == []
    ensures var o, k := RunRules(rules, judge, write, out), FirstRefusal(rules, judge);
            && o.trace == RepairsOf(rules[..k], judge)
            && o.reason == if k < |rules| then judge(rules[k]).reason else NoReason
    decreases |rules|
  {
    if rules != [] {
      var rule, rest := rules[0], rules[1..];
      if judge(rule).reason == NoReason {
        var k := FirstRefusal(rest, judge);
        RunStopsAtFirst(rest, judge, write, write(rule, out));
        assert rules[..k + 1] == [rule] + rest[..k];
        assert ([rule] + rest[..k])[1..] == rest[..k];
      }
    }
  }

  // ---- What an accepted row satisfies ----

  predicate TextFits(s: Bytes, limit: int) { |Utf8.Runes(s)| <= limit }

  /** The revenue is absent, or is a decimal literal whose value the column holds exactly. */
  ghost predicate RevenueFits(revenue: Bytes, l: Limits) {
    revenue == [] ||
    (0 <= l.revenueScale <= l.revenuePrecision &&
     exists d: Decimal.Literal :: Decimal.Denotes(revenue, d) && |d.Fraction()| <= l.revenueScale &&
                                  d.Magnitude(l.revenueScale) < Decimal.Pow10(l.revenuePrecision))
  }

  /** The properties are one compact JSON object. */
  predicate PropertiesFit(properties: Bytes, limit: int) {
    && properties != [] && properties[0] == LEFT_BRACE
    && Json.Compact(properties) == Some(properties)
    && (|properties| <= limit || properties == EMPTY_PROPERTIES)
  }

  /** The columns that `rule` owns are within their bounds. */
  ghost predicate OwnedFit(rule: Rule, l: Limits, now: Instant, e: ValidatedEvent) {
    match rule
    case EventNameRule => InCharset(e.eventName) && |e.eventName| <= l.maxEventNameLen
    case EventIdRule => true
    case TimestampRule => InWindow(l, now, e.eventTime)
    case IdentityRule => TextFits(e.userId, l.maxUserIdLen) && TextFits(e.sessionId, l.maxSessionIdLen)
    case PageRule => TextFits(e.page, l.maxPageLen)
    case ReferrerRule => TextFits(e.referrer, l.maxReferrerLen)
    case UtmRule =>
      && TextFits(e.utmSource, l.maxLabelLen) && TextFits(e.utmMedium, l.maxLabelLen)
      && TextFits(e.utmCampaign, l.maxLabelLen)
    case AudienceRule =>
      && (e.country == [] || Decimal.UpperAlpha(e.country, 2)) && e.device != Unset
      && TextFits(e.city, l.maxCityLen) && TextFits(e.os, l.maxLabelLen) && TextFits(e.browser, l.maxLabelLen)
    case CommerceRule => RevenueFits(e.revenue, l) && Decimal.UpperAlpha(e.currency, 3)
    case PropertiesRule => PropertiesFit(e.properties, l.maxPropertiesBytes)
  }

  /** Every bound of every column of the events table. */
  ghost predicate MeetsColumns(l: Limits, now: Instant, siteId: Bytes, e: ValidatedEvent) {
    e.siteId == siteId && e.ingestedAt == ZERO_TIME && forall rule: Rule :: OwnedFit(rule, l, now, e)
  }

  lemma BoundedFits(raw: Bytes, limit: int)
    requires limit > 0
    ensures TextFits(BoundedText(raw, limit), limit)
  {
    Utf8.TruncationSettles(TrimSpace(raw), limit);
  }

  lemma UrlFits(c: Settings, raw: Bytes, limit: int)
    requires limit > 0
    ensures TextFits(UrlColumn(c, raw, limit), limit)
  {
    var t := TrimSpace(raw);
    if t != [] {
      Utf8.TruncationSettles(Stripped(c.sensitive, c.lib.url, t).out, limit);
    }
  }

  lemma FittingRevenue(revenue: Bytes, l: Limits)
    requires l.revenueScale > 0
    requires revenue == [] || Decimal.FitsDecimal(revenue, l.revenuePrecision, l.revenueScale)
    ensures RevenueFits(revenue, l)
  {
    if revenue != [] {
      if l.revenuePrecision < l.revenueScale {
        Decimal.NoRoomForScale(revenue, l.revenuePrecision, l.revenueScale);
      }
      Decimal.FitsDecimalExact(revenue, l.revenuePrecision, l.revenueScale);
    }
  }

  lemma EmptyObjectIsCompact()
    ensures Json.Compact(EMPTY_PROPERTIES) == Some(EMPTY_PROPERTIES)
  {
    var open, close := Json.Scan(Json.BeginStringOrEmpty, [Json.ObjectKey]), Json.Scan(Json.EndTop, []);
    assert Json.Step(Json.START, LEFT_BRACE) == open;
    EmptyObjectCloses();
    OneStep(open, close, RIGHT_BRACE, []);
    OneStep(Json.START, open, LEFT_BRACE, [RIGHT_BRACE]);
    assert EMPTY_PROPERTIES == [LEFT_BRACE] + [RIGHT_BRACE] && [RIGHT_BRACE] + [] == [RIGHT_BRACE];
  }

  lemma EmptyObjectCloses()
    ensures Json.Step(Json.Scan(Json.BeginStringOrEmpty, [Json.ObjectKey]), RIGHT_BRACE) == Json.Scan(Json.EndTop, [])
  {
    var inObject := [Json.ObjectValue];
    assert Json.SetTop([Json.ObjectKey], Json.ObjectValue) == inObject;
    PopLast(Json.ObjectValue);
    assert Json.StepEndValue(inObject, RIGHT_BRACE) == Json.Pop(inObject);
  }

  lemma PopLast(p: Json.Place)
    ensures Json.Pop([p]) == Json.Scan(Json.EndTop, [])
  {
    assert [p][..0] == [];
  }

  lemma OneStep(q: Json.Scan, next: Json.Scan, b: Byte, rest: Bytes)
    requires Json.Step(q, b) == next && !Json.IsWhite(b)
    ensures Json.Run(q, [b] + rest) == Json.Run(next, rest)
    ensures Json.Kept(q, [b] + rest) == [b] + Json.Kept(next, rest)
  {
    assert ([b] + rest)[1..] == rest;
  }

  lemma FittingProperties(c: Settings, ev: Event)
    requires JudgeProperties(c, ev).reason == NoReason
    ensures PropertiesColumn(ev.properties).Some?
    ensures PropertiesFit(PropertiesColumn(ev.properties).value, c.limits.maxPropertiesBytes)
  {
    var t := TrimSpace(ev.properties);
    if t == [] || t == NULL_PROPERTIES {
      EmptyObjectIsCompact();
    } else {
      Json.CompactSettles(t);
      assert Json.Kept(Json.START, t) == [t[0]] + Json.Kept(Json.Step(Json.START, t[0]), t[1..]);
    }
  }

  lemma EventRulesAreAll()
    ensures forall r: Rule :: r in EVENT_RULES
  {
    forall r: Rule ensures r in EVENT_RULES {
      match r {
        case EventNameRule => assert EVENT_RULES[0] == r;
        case EventIdRule => assert EVENT_RULES[1] == r;
        case TimestampRule => assert EVENT_RULES[2] == r;
        case IdentityRule => assert EVENT_RULES[3] == r;
        case PageRule => assert EVENT_RULES[4] == r;
        case ReferrerRule => assert EVENT_RULES[5] == r;
        case UtmRule => assert EVENT_RULES[6] == r;
        case AudienceRule => assert EVENT_RULES[7] == r;
        case CommerceRule => assert EVENT_RULES[8] == r;
        case PropertiesRule => assert EVENT_RULES[9] == r;
      }
    }
  }

  /** The row of an accepted event: every rule passed it, and would write the same again. */
  lemma AcceptedIsSettled(judge: Judgement, write: Writing, siteId: Bytes)
    requires Independent(write)
    requires RunRules(EVENT_RULES, judge, write, EmptyEvent(siteId)).reason == NoReason
    ensures var e := RunRules(EVENT_RULES, judge, write, EmptyEvent(siteId)).out;
            && e.siteId == siteId && e.ingestedAt == ZERO_TIME
            && forall r: Rule :: judge(r).reason == NoReason && write(r, e) == e
  {
    var base := EmptyEvent(siteId);
    var row := Gather(write, base);
    IndependentWritesFromRow(write, base);
    EventRulesAreAll();
    RunAccepts(EVENT_RULES, judge, write, row, base);
    forall r: Rule ensures judge(r).reason == NoReason && write(r, Overlay(Elements(EVENT_RULES), row, base)) == Overlay(Elements(EVENT_RULES), row, base) {
      assert r in EVENT_RULES;
      OverlaySettled(r, Elements(EVENT_RULES), row, base);
    }
  }

  lemma SettledFits(rule: Rule, c: Settings, tick: Tick, ev: Event, e: ValidatedEvent)
    requires c.limits.AllPositive()
    requires Judge(rule, c, tick, ev).reason == NoReason && Apply(rule, c, tick, ev, e) == e
    ensures OwnedFit(rule, c.limits, tick.now, e)
  {
    PositiveLimits(c.limits);
    match rule {
      case EventNameRule =>
      case EventIdRule =>
      case TimestampRule =>
      case IdentityRule => IdentityFits(c, ev, e);
      case PageRule => UrlFits(c, ev.page, c.limits.maxPageLen);
      case ReferrerRule => UrlFits(c, ev.referrer, c.limits.maxReferrerLen);
      case UtmRule => UtmFits(c, ev, e);
      case AudienceRule => AudienceFits(c, ev, e);
      case CommerceRule =>
        assert CurrencyColumn(c, ev.currency) == e.currency && TrimSpace(ev.revenue) == e.revenue;
        FittingRevenue(e.revenue, c.limits);
      case PropertiesRule => FittingProperties(c, ev);
    }
  }

  lemma IdentityFits(c: Settings, ev: Event, e: ValidatedEvent)
    requires c.limits.maxUserIdLen > 0 && c.limits.maxSessionIdLen > 0 && ApplyIdentity(c, ev, e) == e
    ensures TextFits(e.userId, c.limits.maxUserIdLen) && TextFits(e.sessionId, c.limits.maxSessionIdLen)
  {
    BoundedFits(ev.userId, c.limits.maxUserIdLen);
    BoundedFits(ev.sessionId, c.limits.maxSessionIdLen);
    assert ApplyIdentity(c, ev, e).userId == e.userId && ApplyIdentity(c, ev, e).sessionId == e.sessionId;
  }

  lemma UtmFits(c: Settings, ev: Event, e: ValidatedEvent)
    requires c.limits.maxLabelLen > 0 && ApplyUtm(c, ev, e) == e
    ensures TextFits(e.utmSource, c.limits.maxLabelLen) && TextFits(e.utmMedium, c.limits.maxLabelLen)
    ensures TextFits(e.utmCampaign, c.limits.maxLabelLen)
  {
    BoundedFits(ev.utm.source, c.limits.maxLabelLen);
    BoundedFits(ev.utm.medium, c.limits.maxLabelLen);
    BoundedFits(ev.utm.campaign, c.limits.maxLabelLen);
    assert ApplyUtm(c, ev, e).utmSource == e.utmSource && ApplyUtm(c, ev, e).utmMedium == e.utmMedium;
  }

  lemma AudienceFits(c: Settings, ev: Event, e: ValidatedEvent)
    requires c.limits.maxLabelLen > 0 && c.limits.maxCityLen > 0 && ApplyAudience(c, ev, e) == e
    ensures e.country == [] || Decimal.UpperAlpha(e.country, 2)
    ensures e.device != Unset
    ensures TextFits(e.city, c.limits.maxCityLen) && TextFits(e.os, c.limits.maxLabelLen)
    ensures TextFits(e.browser, c.limits.maxLabelLen)
  {
    AudienceColumns(c, ev, e);
    BoundedFits(ev.city, c.limits.maxCityLen);
    BoundedFits(ev.os, c.limits.maxLabelLen);
    BoundedFits(ev.browser, c.limits.maxLabelLen);
  }

  lemma AudienceColumns(c: Settings, ev: Event, e: ValidatedEvent)
    ensures ApplyAudience(c, ev, e) == e ==>
              && e.country == CountryColumn(c, ev.country) && e.device == DeviceColumn(c, ev.device)
              && e.city == BoundedText(ev.city, c.limits.maxCityLen)
              && e.os == BoundedText(ev.os, c.limits.maxLabelLen)
              && e.browser == BoundedText(ev.browser, c.limits.maxLabelLen)
  {
    var w := ApplyAudience(c, ev, e);
    assert w == e ==> w.country == e.country && w.device == e.device && w.city == e.city && w.os == e.os &&
                      w.browser == e.browser;
  }

  /** Every accepted event meets every column's bound, whatever limits were configured. */
  lemma AcceptedMeetsColumns(c: Settings, tick: Tick, ev: Event, siteId: Bytes)
    requires c.limits.AllPositive()
    requires Checked(c, tick, ev, siteId).reason == NoReason
    ensures MeetsColumns(c.limits, tick.now, siteId, Checked(c, tick, ev, siteId).out)
  {
    var judge, write := Judging(c, tick, ev), Applying(c, tick, ev);
    RulesAreIndependent(c, tick, ev);
    AcceptedIsSettled(judge, write, siteId);
    var e := Checked(c, tick, ev, siteId).out;
    forall rule: Rule ensures OwnedFit(rule, c.limits, tick.now, e) {
      assert judge(rule).reason == NoReason && write(rule, e) == e;
      SettledFits(rule, c, tick, ev, e);
    }
  }

  lemma PositiveLimits(l: Limits)
    requires l.AllPositive()
    ensures l.maxUserIdLen > 0 && l.maxSessionIdLen > 0 && l.maxPageLen > 0 && l.maxReferrerLen > 0
    ensures l.maxLabelLen > 0 && l.maxCityLen > 0 && l.maxPropertiesBytes > 0
    ensures l.revenuePrecision > 0 && l.revenueScale > 0 && l.futureSkew > 0 && l.pastSkew > 0
    ensures l.maxEventsPerRequest > 0
  {
    var b := l.Bounds();
    assert b[0] > 0 && b[2] > 0 && b[3] > 0 && b[4] > 0 && b[5] > 0 && b[6] > 0 && b[7] > 0 && b[8] > 0 && b[9] > 0
        && b[10] > 0 && b[11] > 0 && b[12] > 0;
  }

  /** The stored properties are within their limit exactly when the limit leaves room for the two
      bytes of an empty object: with a limit of one, every accepted event stores `{}` over it. */
  lemma PropertiesWithinLimit(c: Settings, tick: Tick, ev: Event, siteId: Bytes)
    requires c.limits.AllPositive()
    requires Checked(c, tick, ev, siteId).reason == NoReason
    ensures var e := Checked(c, tick, ev, siteId).out;
            |e.properties| <= c.limits.maxPropertiesBytes <==> c.limits.maxPropertiesBytes >= 2
  {
    AcceptedMeetsColumns(c, tick, ev, siteId);
    PositiveLimits(c.limits);
    var e := Checked(c, tick, ev, siteId).out;
    assert OwnedFit(PropertiesRule, c.limits, tick.now, e);
    ObjectWithinLimit(e.properties, c.limits.maxPropertiesBytes);
  }

  lemma ObjectWithinLimit(properties: Bytes, limit: int)
    requires PropertiesFit(properties, limit) && limit > 0
    ensures |properties| <= limit <==> limit >= 2
  {
    if |properties| == 1 {
      OneBraceIsNoObject(properties);
    }
  }

  lemma OneBraceIsNoObject(s: Bytes)
    requires |s| == 1 && s[0] == LEFT_BRACE
    ensures Json.Compact(s).None?
  {
    assert s[1..] == [];
    assert Json.Run(Json.START, s) == Json.Step(Json.START, LEFT_BRACE);
  }

  // ---- Spellings of one object ----

  /** More bytes than the limit, where the source measures them: trimmed, but not yet compacted. */
  predicate IsOversized(c: Settings, properties: Bytes) {
    var t := TrimSpace(properties);
    t != [] && t != NULL_PROPERTIES && |t| > c.limits.maxPropertiesBytes
  }

  /** Two spellings that would be stored alike can be judged differently, and are exactly when one
      of them alone is oversized. */
  lemma SpellingsDiffer(c: Settings, a: Event, b: Event)
    requires PropertiesColumn(a.properties).Some? && PropertiesColumn(a.properties) == PropertiesColumn(b.properties)
    ensures JudgeProperties(c, a) != JudgeProperties(c, b) <==>
            IsOversized(c, a.properties) != IsOversized(c, b.properties)
  {
  }

  /** An object can be sent in some accepted spelling exactly when its compact form fits, or is the
      empty object, which blank properties stand for. */
  lemma SomeSpellingIsAccepted(c: Settings, ev: Event, stored: Bytes)
    requires PropertiesColumn(ev.properties) == Some(stored)
    ensures (exists raw: Bytes ::
               PropertiesColumn(raw) == Some(stored) && JudgeProperties(c, ev.(properties := raw)) == PASS) <==>
            stored == EMPTY_PROPERTIES || |stored| <= c.limits.maxPropertiesBytes
  {
    if stored == EMPTY_PROPERTIES {
      assert TrimSpace([]) == [];
      assert PropertiesColumn([]) == Some(stored) && JudgeProperties(c, ev.(properties := [])) == PASS;
    } else if |stored| <= c.limits.maxPropertiesBytes {
      StoredIsItsColumn(ev.properties);
      assert JudgeProperties(c, ev.(properties := stored)) == PASS;
    }
  }

  /** What is stored of an object would be stored again as it is. */
  lemma StoredIsItsColumn(raw: Bytes)
    requires PropertiesColumn(raw).Some? && PropertiesColumn(raw) != Some(EMPTY_PROPERTIES)
    ensures var stored := PropertiesColumn(raw).value;
            TrimSpace(stored) == stored && PropertiesColumn(stored) == Some(stored)
  {
    var t := TrimSpace(raw);
    var stored := Json.Compact(t).value;
    Json.CompactSettles(t);
    Json.CompactKeepsFirst(t);
    Json.CompactEnds(stored);
    LastAscii(stored);
    TrimmedIsFixed(stored);
  }

  lemma LastAscii(s: Bytes)
    requires s != [] && s[|s| - 1] < 0x80
    ensures DecodeLastRune(s).value == s[|s| - 1]
  {
  }

  function Padded(n: nat, s: Bytes): (r: Bytes)
    ensures |r| == n + |s|
  {
    if n == 0 then s else [SPACE] + Padded(n - 1, s)
  }

  /** Every accepted object has a spelling that is stored alike and is refused: white space after
      the opening brace, more of it than the limit. */
  lemma PaddingIsRefused(c: Settings, ev: Event) returns (padded: Event)
    requires JudgeProperties(c, ev) == PASS
    requires TrimSpace(ev.properties) != [] && TrimSpace(ev.properties) != NULL_PROPERTIES
    ensures padded == ev.(properties := padded.properties)
    ensures PropertiesColumn(padded.properties) == PropertiesColumn(ev.properties)
    ensures JudgeProperties(c, padded) == Verdict(PropertiesTooLarge, [])
  {
    var t := TrimSpace(ev.properties);
    var n := if c.limits.maxPropertiesBytes < 0 then 4 else c.limits.maxPropertiesBytes + 4;
    var s := [LEFT_BRACE] + Padded(n, t[1..]);
    assert t == [LEFT_BRACE] + Padded(0, t[1..]);
    TrimSpaceTrims(ev.properties);
    PaddingIsTrimmed(n, t[1..]);
    PaddingIsInvisible(n, t[1..]);
    padded := ev.(properties := s);
    assert |s| > |NULL_PROPERTIES|;
  }

  lemma {:induction false} PaddingIsInvisible(n: nat, s: Bytes)
    ensures Json.Compact([LEFT_BRACE] + Padded(n, s)) == Json.Compact([LEFT_BRACE] + s)
  {
    if n > 0 {
      hide Json.Compact;
      var u, v := [LEFT_BRACE], Padded(n - 1, s);
      PaddingIsInvisible(n - 1, s);
      Json.LexOne(Json.Outside, LEFT_BRACE);
      Json.InsignificantWhite(u, SPACE, v);
      assert u + [SPACE] + v == u + Padded(n, s);
    }
  }

  /** Padding leaves both ends of an object alone. */
  lemma PaddingIsTrimmed(n: nat, s: Bytes)
    requires Json.Compact([LEFT_BRACE] + s).Some? && IsTrimmed([LEFT_BRACE] + s)
    ensures TrimSpace([LEFT_BRACE] + Padded(n, s)) == [LEFT_BRACE] + Padded(n, s)
  {
    var short, long := [LEFT_BRACE] + s, [LEFT_BRACE] + Padded(n, s);
    ObjectGoesOn(s);
    PaddingKeepsEnd(0, s);
    PaddingKeepsEnd(n, s);
    SpaceIsLast(short);
    SpaceIsLast(long);
    assert Utf8.DecodeRune(long).value == LEFT_BRACE;
    TrimmedIsFixed(long);
  }

  lemma PaddingKeepsEnd(n: nat, s: Bytes)
    requires s != [] && !Utf8.IsContinuation(s[0])
    ensures LastOf(Utf8.Runes([LEFT_BRACE] + Padded(n, s))) == LastOf(Utf8.Runes(s))
  {
    hide Utf8.Runes;
    var u := [LEFT_BRACE] + Padded(n, []);
    PaddedSplits(n, s);
    ConcatAssociates([LEFT_BRACE], Padded(n, []), s);
    Utf8.RunesConcat(u, s);
  }

  lemma {:induction false} PaddedSplits(n: nat, s: Bytes)
    ensures Padded(n, s) == Padded(n, []) + s
  {
    if n > 0 {
      PaddedSplits(n - 1, s);
    }
  }

  lemma ObjectGoesOn(s: Bytes)
    requires Json.Compact([LEFT_BRACE] + s).Some?
    ensures s != [] && !Utf8.IsContinuation(s[0])
  {
    if s == [] {
      OneBraceIsNoObject([LEFT_BRACE] + s);
    } else if Utf8.IsContinuation(s[0]) {
      Json.RunConcat(Json.START, [LEFT_BRACE], s);
      Json.RunOne(Json.START, LEFT_BRACE);
      Json.FailedStays(s[1..]);
      assert false;
    }
  }

  // ---- What a conforming event is stored as ----

  predicate IsClean(s: Bytes, limit: int) { TrimSpace(s) == s && TextFits(s, limit) }

  ghost predicate IsCleanUrl(c: Settings, s: Bytes, limit: int) {
    IsClean(s, limit) && (s != [] ==> Stripped(c.sensitive, c.lib.url, s) == Strip(s, false))
  }

  /** The fields that `rule` reads already have the shape of their columns. */
  ghost predicate Conforms(rule: Rule, c: Settings, tick: Tick, ev: Event) {
    var l, lib := c.limits, c.lib;
    match rule
    case EventNameRule => TrimSpace(ev.event) == ev.event && InCharset(ev.event) && |ev.event| <= l.maxEventNameLen
    case EventIdRule => TrimSpace(ev.eventId) == ev.eventId != [] && lib.parseUuid(ev.eventId).Some?
    case TimestampRule =>
      && TrimSpace(ev.timestamp) == ev.timestamp != [] && lib.parseTime(ev.timestamp).Some?
      && InWindow(l, tick.now, lib.parseTime(ev.timestamp).value)
    case IdentityRule => IsClean(ev.userId, l.maxUserIdLen) && IsClean(ev.sessionId, l.maxSessionIdLen)
    case PageRule => IsCleanUrl(c, ev.page, l.maxPageLen)
    case ReferrerRule => IsCleanUrl(c, ev.referrer, l.maxReferrerLen)
    case UtmRule =>
      && IsClean(ev.utm.source, l.maxLabelLen) && IsClean(ev.utm.medium, l.maxLabelLen)
      && IsClean(ev.utm.campaign, l.maxLabelLen)
    case AudienceRule =>
      && lib.toUpper(TrimSpace(ev.country)) == ev.country && (ev.country == [] || Decimal.UpperAlpha(ev.country, 2))
      && lib.toLower(TrimSpace(ev.device)) == ev.device && DeviceOf(ev.device).Some?
      && IsClean(ev.city, l.maxCityLen) && IsClean(ev.os, l.maxLabelLen) && IsClean(ev.browser, l.maxLabelLen)
    case CommerceRule =>
      && TrimSpace(ev.revenue) == ev.revenue
      && (ev.revenue == [] || Decimal.FitsDecimal(ev.revenue, l.revenuePrecision, l.revenueScale))
      && lib.toUpper(TrimSpace(ev.currency)) == ev.currency && Decimal.UpperAlpha(ev.currency, 3)
    case PropertiesRule =>
      TrimSpace(ev.properties) == ev.properties && PropertiesFit(ev.properties, l.maxPropertiesBytes) &&
      |ev.properties| <= l.maxPropertiesBytes
  }

  /** The columns that `rule` owns hold what the client sent. */
  predicate AsSent(rule: Rule, c: Settings, ev: Event, e: ValidatedEvent) {
    match rule
    case EventNameRule => e.eventName == ev.event
    case EventIdRule => Some(e.eventId) == c.lib.parseUuid(ev.eventId)
    case TimestampRule => Some(e.eventTime) == c.lib.parseTime(ev.timestamp)
    case IdentityRule => e.userId == ev.userId && e.sessionId == ev.sessionId
    case PageRule => e.page == ev.page
    case ReferrerRule => e.referrer == ev.referrer
    case UtmRule =>
      e.utmSource == ev.utm.source && e.utmMedium == ev.utm.medium && e.utmCampaign == ev.utm.campaign
    case AudienceRule =>
      && e.country == ev.country && e.city == ev.city && Some(e.device) == DeviceOf(ev.device)
      && e.os == ev.os && e.browser == ev.browser
    case CommerceRule => e.revenue == ev.revenue && e.currency == ev.currency
    case PropertiesRule => e.properties == ev.properties
  }

  lemma CleanIsKept(s: Bytes, limit: int, field: Field)
    requires IsClean(s, limit)
    ensures BoundedText(s, limit) == s && BoundedRepairs(s, limit, field) == []
  {
    Utf8.TruncationSettles(s, limit);
  }

  lemma CleanUrlIsKept(c: Settings, s: Bytes, limit: int, field: Field)
    requires IsCleanUrl(c, s, limit)
    ensures UrlColumn(c, s, limit) == s && UrlRepairs(c, s, limit, field) == []
  {
    Utf8.TruncationSettles(s, limit);
  }

  lemma ConformingAudience(c: Settings, tick: Tick, ev: Event)
    requires Conforms(AudienceRule, c, tick, ev)
    ensures CountryColumn(c, ev.country) == ev.country && DeviceOf(ev.device) == Some(DeviceColumn(c, ev.device))
    ensures CountryRepairs(c, ev) == [] && DeviceRepairs(c, ev) == []
  {
  }

  lemma ConformingPasses(rule: Rule, c: Settings, tick: Tick, ev: Event)
    requires Conforms(rule, c, tick, ev)
    ensures Judge(rule, c, tick, ev) == PASS
  {
    var l := c.limits;
    match rule {
      case EventNameRule =>
      case EventIdRule =>
      case TimestampRule =>
      case IdentityRule =>
        CleanIsKept(ev.userId, l.maxUserIdLen, UserIdField);
        CleanIsKept(ev.sessionId, l.maxSessionIdLen, SessionIdField);
      case PageRule => CleanUrlIsKept(c, ev.page, l.maxPageLen, PageField);
      case ReferrerRule => CleanUrlIsKept(c, ev.referrer, l.maxReferrerLen, ReferrerField);
      case UtmRule =>
        CleanIsKept(ev.utm.source, l.maxLabelLen, UtmSourceField);
        CleanIsKept(ev.utm.medium, l.maxLabelLen, UtmMediumField);
        CleanIsKept(ev.utm.campaign, l.maxLabelLen, UtmCampaignField);
      case AudienceRule =>
        ConformingAudience(c, tick, ev);
        CleanIsKept(ev.city, l.maxCityLen, CityField);
        CleanIsKept(ev.os, l.maxLabelLen, OsField);
        CleanIsKept(ev.browser, l.maxLabelLen, BrowserField);
      case CommerceRule =>
      case PropertiesRule =>
    }
  }

  lemma ConformingAsSent(rule: Rule, c: Settings, tick: Tick, ev: Event, e: ValidatedEvent)
    requires Conforms(rule, c, tick, ev) && Apply(rule, c, tick, ev, e) == e
    ensures AsSent(rule, c, ev, e)
  {
    var l := c.limits;
    match rule {
      case EventNameRule =>
      case EventIdRule => assert ApplyEventId(c, tick, ev, e).eventId == e.eventId;
      case TimestampRule => assert EventTimeColumn(c, tick.now, ev.timestamp) == e.eventTime;
      case IdentityRule =>
        CleanIsKept(ev.userId, l.maxUserIdLen, UserIdField);
        CleanIsKept(ev.sessionId, l.maxSessionIdLen, SessionIdField);
        assert ApplyIdentity(c, ev, e).userId == e.userId && ApplyIdentity(c, ev, e).sessionId == e.sessionId;
      case PageRule => CleanUrlIsKept(c, ev.page, l.maxPageLen, PageField);
      case ReferrerRule => CleanUrlIsKept(c, ev.referrer, l.maxReferrerLen, ReferrerField);
      case UtmRule =>
        CleanIsKept(ev.utm.source, l.maxLabelLen, UtmSourceField);
        CleanIsKept(ev.utm.medium, l.maxLabelLen, UtmMediumField);
        CleanIsKept(ev.utm.campaign, l.maxLabelLen, UtmCampaignField);
        assert ApplyUtm(c, ev, e).utmSource == e.utmSource && ApplyUtm(c, ev, e).utmMedium == e.utmMedium;
      case AudienceRule =>
        ConformingAudience(c, tick, ev);
        AudienceColumns(c, ev, e);
        CleanIsKept(ev.city, l.maxCityLen, CityField);
        CleanIsKept(ev.os, l.maxLabelLen, OsField);
        CleanIsKept(ev.browser, l.maxLabelLen, BrowserField);
      case CommerceRule => assert CurrencyColumn(c, ev.currency) == e.currency;
      case PropertiesRule => assert ApplyProperties(ev, e).properties == e.properties;
    }
  }

  lemma {:induction false} PassesInSilence(rules: seq<Rule>, judge: Judgement)
    requires forall r :: judge(r) == PASS
    ensures RepairsOf(rules, judge) == [] && FirstRefusal(rules, judge) == |rules|
  {
    if rules != [] {
      PassesInSilence(rules[1..], judge);
    }
  }

  /** An event whose every field already has the shape of its column is accepted, reports nothing, and
      is stored exactly as it was sent, each field in its own column. */
  lemma ConformingIsStoredAsSent(c: Settings, tick: Tick, ev: Event, siteId: Bytes)
    requires forall rule: Rule :: Conforms(rule, c, tick, ev)
    ensures var o := Checked(c, tick, ev, siteId);
            && o.reason == NoReason && o.trace == []
            && o.out.siteId == siteId && forall rule: Rule :: AsSent(rule, c, ev, o.out)
  {
    var judge, write := Judging(c, tick, ev), Applying(c, tick, ev);
    forall r: Rule ensures judge(r) == PASS {
      ConformingPasses(r, c, tick, ev);
    }
    RulesAreIndependent(c, tick, ev);
    RunPasses(judge, write, siteId);
    var e := Checked(c, tick, ev, siteId).out;
    forall rule: Rule ensures AsSent(rule, c, ev, e) {
      assert write(rule, e) == e;
      ConformingAsSent(rule, c, tick, ev, e);
    }
  }

  lemma RunPasses(judge: Judgement, write: Writing, siteId: Bytes)
    requires Independent(write) && forall r :: judge(r) == PASS
    ensures var o := RunRules(EVENT_RULES, judge, write, EmptyEvent(siteId));
            && o.reason == NoReason && o.trace == [] && o.out.siteId == siteId
            && forall r: Rule :: write(r, o.out) == o.out
  {
    RunIsSilent(EVENT_RULES, judge, write, EmptyEvent(siteId));
    AcceptedIsSettled(judge, write, siteId);
  }

  lemma RunIsSilent(rules: seq<Rule>, judge: Judgement, write: Writing, out: ValidatedEvent)
    requires forall r :: judge(r) == PASS
    ensures RunRules(rules, judge, write, out).reason == NoReason && RunRules(rules, judge, write, out).trace == []
  {
    PassesInSilence(rules, judge);
    RunStopsAtFirst(rules, judge, write, out);
    assert rules[..|rules|] == rules;
  }
}
