/** What each rule of the pipeline decides, reports and writes. */
module Rules {
  import opened Bytes
  import opened Model
  import opened Limits
  import opened Text
  import opened Denylist
  import opened Sanitize
  import Decimal
  import Json

  /** What a validator is built with. */
  datatype Settings = Settings(limits: Limits, sensitive: Denylist, lib: Library)

  datatype Rule =
    | EventNameRule | EventIdRule | TimestampRule | IdentityRule | PageRule | ReferrerRule | UtmRule
    | AudienceRule | CommerceRule | PropertiesRule

  /** The rules as they follow each other for every event. */
  const EVENT_RULES: seq<Rule> := [
    EventNameRule, EventIdRule, TimestampRule, IdentityRule, PageRule, ReferrerRule, UtmRule,
    AudienceRule, CommerceRule, PropertiesRule
  ]

  // ---- The columns ----

  predicate IsNameByte(b: Byte) { IsLower(b) || IsDigit(b) || b == UNDERSCORE }

  predicate InCharset(s: Bytes) {
    s != [] && forall i | 0 <= i < |s| :: IsNameByte(s[i])
  }

  /** Whether a client's instant lies in the closed window around the server's clock. */
  predicate InWindow(l: Limits, now: Instant, t: Instant) {
    now - l.pastSkew <= t <= now + l.futureSkew
  }

  // `desktop`, `mobile`, `tablet`, `bot` and `unknown`
  const DESKTOP: Bytes := [0x64, 0x65, 0x73, 0x6B, 0x74, 0x6F, 0x70]
  const MOBILE: Bytes := [0x6D, 0x6F, 0x62, 0x69, 0x6C, 0x65]
  const TABLET: Bytes := [0x74, 0x61, 0x62, 0x6C, 0x65, 0x74]
  const BOT: Bytes := [0x62, 0x6F, 0x74]
  const UNKNOWN: Bytes := [0x75, 0x6E, 0x6B, 0x6E, 0x6F, 0x77, 0x6E]

  function DeviceOf(s: Bytes): (r: Option<Device>)
    ensures r != Some(Unset)
  {
    if s == DESKTOP then Some(Desktop)
    else if s == MOBILE then Some(Mobile)
    else if s == TABLET then Some(Tablet)
    else if s == BOT then Some(Bot)
    else if s == UNKNOWN then Some(Unknown)
    else None
  }

  function EventTimeColumn(c: Settings, now: Instant, raw: Bytes): Instant {
    var parsed := c.lib.parseTime(TrimSpace(raw));
    if TrimSpace(raw) != [] && parsed.Some? && InWindow(c.limits, now, parsed.value) then parsed.value else now
  }

  function EventIdColumn(c: Settings, newId: Option<Uuid>, raw: Bytes): Option<Uuid> {
    if TrimSpace(raw) == [] then newId else c.lib.parseUuid(TrimSpace(raw))
  }

  function CountryColumn(c: Settings, raw: Bytes): (r: Bytes)
    ensures r == [] || Decimal.UpperAlpha(r, 2)
  {
    var country := c.lib.toUpper(TrimSpace(raw));
    if Decimal.UpperAlpha(country, 2) then country else []
  }

  function DeviceColumn(c: Settings, raw: Bytes): (r: Device)
    ensures r != Unset
  {
    var device := DeviceOf(c.lib.toLower(TrimSpace(raw)));
    if device.Some? then device.value else Unknown
  }

  function CurrencyColumn(c: Settings, raw: Bytes): (r: Bytes)
    ensures Decimal.UpperAlpha(r, 3)
  {
    var currency := c.lib.toUpper(TrimSpace(raw));
    if Decimal.UpperAlpha(currency, 3) then currency else DEFAULT_CURRENCY
  }

  /** What is stored for a properties object: nothing when the object is refused. */
  function PropertiesColumn(raw: Bytes): Option<Bytes> {
    var t := TrimSpace(raw);
    if t == [] || t == NULL_PROPERTIES then Some(EMPTY_PROPERTIES)
    else if t[0] != LEFT_BRACE then None
    else Json.Compact(t)
  }

  ghost function UrlColumn(c: Settings, raw: Bytes, limit: int): Bytes {
    SanitizedUrl(c.sensitive, c.lib.url, raw, limit).out
  }

  // ---- The writes ----

  function ApplyEventId(c: Settings, tick: Tick, ev: Event, out: ValidatedEvent): ValidatedEvent {
    var id := EventIdColumn(c, tick.newId, ev.eventId);
    out.(eventId := if id.Some? then id.value else ZERO_UUID)
  }

  function ApplyIdentity(c: Settings, ev: Event, out: ValidatedEvent): ValidatedEvent {
    out.(userId := BoundedText(ev.userId, c.limits.maxUserIdLen),
         sessionId := BoundedText(ev.sessionId, c.limits.maxSessionIdLen))
  }

  function ApplyUtm(c: Settings, ev: Event, out: ValidatedEvent): ValidatedEvent {
    out.(utmSource := BoundedText(ev.utm.source, c.limits.maxLabelLen),
         utmMedium := BoundedText(ev.utm.medium, c.limits.maxLabelLen),
         utmCampaign := BoundedText(ev.utm.campaign, c.limits.maxLabelLen))
  }

  function ApplyAudience(c: Settings, ev: Event, out: ValidatedEvent): ValidatedEvent {
    out.(country := CountryColumn(c, ev.country),
         city := BoundedText(ev.city, c.limits.maxCityLen),
         device := DeviceColumn(c, ev.device),
         os := BoundedText(ev.os, c.limits.maxLabelLen),
         browser := BoundedText(ev.browser, c.limits.maxLabelLen))
  }

  function ApplyProperties(ev: Event, out: ValidatedEvent): ValidatedEvent {
    var properties := PropertiesColumn(ev.properties);
    out.(properties := if properties.Some? then properties.value else [])
  }

  /** What a rule that does not refuse the event makes of the row. */
  ghost function Apply(rule: Rule, c: Settings, tick: Tick, ev: Event, out: ValidatedEvent): ValidatedEvent {
    match rule
    case EventNameRule => out.(eventName := TrimSpace(ev.event))
    case EventIdRule => ApplyEventId(c, tick, ev, out)
    case TimestampRule => out.(eventTime := EventTimeColumn(c, tick.now, ev.timestamp))
    case IdentityRule => ApplyIdentity(c, ev, out)
    case PageRule => out.(page := UrlColumn(c, ev.page, c.limits.maxPageLen))
    case ReferrerRule => out.(referrer := UrlColumn(c, ev.referrer, c.limits.maxReferrerLen))
    case UtmRule => ApplyUtm(c, ev, out)
    case AudienceRule => ApplyAudience(c, ev, out)
    case CommerceRule => out.(revenue := TrimSpace(ev.revenue), currency := CurrencyColumn(c, ev.currency))
    case PropertiesRule => ApplyProperties(ev, out)
  }

  // ---- The verdicts ----

  /** Why a rule refuses an event, and the repairs it reports when it does not. */
  datatype Verdict = Verdict(reason: Reason, repairs: seq<Observation>)

  const PASS := Verdict(NoReason, [])

  function Report(happened: bool, field: Field, repair: Repair): seq<Observation> {
    if happened then [FieldRepaired(field, repair)] else []
  }

  function BoundedRepairs(raw: Bytes, limit: int, field: Field): seq<Observation> {
    Report(BoundedText(raw, limit) != TrimSpace(raw), field, WasTruncated)
  }

  function SanitizedRepairs(s: Sanitized, field: Field): seq<Observation> {
    Report(s.stripped, field, WasStripped) + Report(s.truncated, field, WasTruncated)
  }

  ghost function UrlRepairs(c: Settings, raw: Bytes, limit: int, field: Field): seq<Observation> {
    SanitizedRepairs(SanitizedUrl(c.sensitive, c.lib.url, raw, limit), field)
  }

  function JudgeEventName(c: Settings, ev: Event): Verdict {
    var name := TrimSpace(ev.event);
    if name == [] then Verdict(MissingEventName, [])
    else if !InCharset(name) || |name| > c.limits.maxEventNameLen then Verdict(InvalidEventName, [])
    else PASS
  }

  function JudgeEventId(c: Settings, tick: Tick, ev: Event): Verdict {
    if EventIdColumn(c, tick.newId, ev.eventId).None? then Verdict(InvalidEventId, [])
    else Verdict(NoReason, Report(TrimSpace(ev.eventId) == [], EventIdField, WasDefaulted))
  }

  function JudgeTimestamp(c: Settings, tick: Tick, ev: Event): Verdict {
    var raw := TrimSpace(ev.timestamp);
    var parsed := c.lib.parseTime(raw);
    if raw == [] then Verdict(NoReason, [FieldRepaired(TimestampField, WasDefaulted)])
    else if parsed.None? then Verdict(InvalidTimestamp, [])
    else if parsed.value > tick.now + c.limits.futureSkew then Verdict(NoReason, [ClockSkewed(Future)])
    else if parsed.value < tick.now - c.limits.pastSkew then Verdict(NoReason, [ClockSkewed(Past)])
    else PASS
  }

  function IdentityRepairs(c: Settings, ev: Event): seq<Observation> {
    BoundedRepairs(ev.userId, c.limits.maxUserIdLen, UserIdField) +
    BoundedRepairs(ev.sessionId, c.limits.maxSessionIdLen, SessionIdField)
  }

  function UtmRepairs(c: Settings, ev: Event): seq<Observation> {
    BoundedRepairs(ev.utm.source, c.limits.maxLabelLen, UtmSourceField) +
    BoundedRepairs(ev.utm.medium, c.limits.maxLabelLen, UtmMediumField) +
    BoundedRepairs(ev.utm.campaign, c.limits.maxLabelLen, UtmCampaignField)
  }

  function CountryRepairs(c: Settings, ev: Event): seq<Observation> {
    var country := c.lib.toUpper(TrimSpace(ev.country));
    Report(country != [] && !Decimal.UpperAlpha(country, 2), CountryField, WasStripped)
  }

  function DeviceRepairs(c: Settings, ev: Event): seq<Observation> {
    var device := c.lib.toLower(TrimSpace(ev.device));
    Report(device != [] && DeviceOf(device).None?, DeviceField, WasNormalised)
  }

  function JudgeAudience(c: Settings, ev: Event): Verdict {
    Verdict(NoReason,
            CountryRepairs(c, ev) + BoundedRepairs(ev.city, c.limits.maxCityLen, CityField) +
            DeviceRepairs(c, ev) + BoundedRepairs(ev.os, c.limits.maxLabelLen, OsField) +
            BoundedRepairs(ev.browser, c.limits.maxLabelLen, BrowserField))
  }

  function JudgeCommerce(c: Settings, ev: Event): Verdict {
    var revenue, currency := TrimSpace(ev.revenue), c.lib.toUpper(TrimSpace(ev.currency));
    if revenue != [] && !Decimal.FitsDecimal(revenue, c.limits.revenuePrecision, c.limits.revenueScale)
    then Verdict(InvalidRevenue, [])
    else Verdict(NoReason,
                 Report(currency != [] && !Decimal.UpperAlpha(currency, 3), CurrencyField, WasNormalised))
  }

  function JudgeProperties(c: Settings, ev: Event): Verdict {
    var t := TrimSpace(ev.properties);
    if t != [] && t != NULL_PROPERTIES && |t| > c.limits.maxPropertiesBytes then Verdict(PropertiesTooLarge, [])
    else if PropertiesColumn(ev.properties).None? then Verdict(InvalidProperties, [])
    else PASS
  }

  ghost function Judge(rule: Rule, c: Settings, tick: Tick, ev: Event): Verdict {
    var l := c.limits;
    match rule
    case EventNameRule => JudgeEventName(c, ev)
    case EventIdRule => JudgeEventId(c, tick, ev)
    case TimestampRule => JudgeTimestamp(c, tick, ev)
    case IdentityRule => Verdict(NoReason, IdentityRepairs(c, ev))
    case PageRule => Verdict(NoReason, UrlRepairs(c, ev.page, l.maxPageLen, PageField))
    case ReferrerRule => Verdict(NoReason, UrlRepairs(c, ev.referrer, l.maxReferrerLen, ReferrerField))
    case UtmRule => Verdict(NoReason, UtmRepairs(c, ev))
    case AudienceRule => JudgeAudience(c, ev)
    case CommerceRule => JudgeCommerce(c, ev)
    case PropertiesRule => JudgeProperties(c, ev)
  }

  /** A rule that refuses reports no repair. */
  lemma RefusalIsSilent(rule: Rule, c: Settings, tick: Tick, ev: Event)
    ensures Judge(rule, c, tick, ev).reason != NoReason ==> Judge(rule, c, tick, ev).repairs == []
  {
  }
}
