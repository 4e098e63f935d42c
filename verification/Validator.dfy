/** The validator: rules that write a shared row in place and report to an observer, the loop that
    runs them over one event, and the loop over the events of a request. */
module Validator {
  import opened Bytes
  import opened Model
  import opened Limits
  import opened Text
  import opened Denylist
  import opened Sanitize
  import opened Rules
  import opened Pipeline
  import opened Batch
  import Decimal
  import Json
  import Utf8

  /** Receives what validation did, in order. */
  class Observer {
    var calls: seq<Observation>

    constructor ()
      ensures calls == []
    {
      calls := [];
    }

    method Record(o: Observation)
      modifies this
      ensures calls == old(calls) + [o]
    {
      calls := calls + [o];
    }
  }

  /** The row that the rules fill in, column by column. */
  class Draft {
    var eventTime: Instant
    var siteId: Bytes
    var eventId: Uuid
    var eventName: Bytes
    var userId: Bytes
    var sessionId: Bytes
    var page: Bytes
    var referrer: Bytes
    var utmSource: Bytes
    var utmMedium: Bytes
    var utmCampaign: Bytes
    var country: Bytes
    var city: Bytes
    var device: Device
    var os: Bytes
    var browser: Bytes
    var revenue: Bytes
    var currency: Bytes
    var properties: Bytes

    constructor (site: Bytes)
      ensures Row() == EmptyEvent(site)
    {
      eventTime, siteId, eventId := ZERO_TIME, site, ZERO_UUID;
      eventName, userId, sessionId, page, referrer := [], [], [], [], [];
      utmSource, utmMedium, utmCampaign, country, city := [], [], [], [], [];
      device, os, browser := Unset, [], [];
      revenue, currency, properties := [], [], [];
    }

    function Row(): ValidatedEvent
      reads this
    {
      ValidatedEvent(eventTime, ZERO_TIME, siteId, eventId, eventName, userId, sessionId, page, referrer,
                     utmSource, utmMedium, utmCampaign, country, city, device, os, browser, revenue, currency,
                     properties)
    }
  }

  class Validator {
    const settings: Settings
    const observer: Observer

    /** Every bound is positive once the defaults are in. */
    predicate Valid() { settings.limits.AllPositive() }

    /** Every bound that is not positive takes its default; the denylist always holds the floor. */
    constructor (limits: Limits, sensitiveParams: seq<Bytes>, lib: Library, o: Observer)
      ensures Valid() && observer == o && settings.lib == lib
      ensures settings.sensitive == Denylist(Floor() + Configured(StoredAs(lib.toLower), sensitiveParams), lib.toLower)
      ensures forall i | 0 <= i < 13 ::
                settings.limits.Bounds()[i] == if limits.Bounds()[i] > 0 then limits.Bounds()[i] else DEFAULT.Bounds()[i]
    {
      var l := WithDefaults(limits);
      var d := NewDenylist(lib.toLower, sensitiveParams);
      settings := Settings(l, d, lib);
      observer := o;
    }

    static lemma AssociateFive(
        calls: seq<Observation>, a: seq<Observation>, b: seq<Observation>, c: seq<Observation>,
        d: seq<Observation>, e: seq<Observation>)
      ensures calls + a + b + c + d + e == calls + (a + b + c + d + e)
    {
    }

    /** Reports a repair if it happened. */
    method Note(happened: bool, field: Field, repair: Repair)
      modifies observer
      ensures observer.calls == old(observer.calls) + Report(happened, field, repair)
    {
      if happened {
        observer.Record(FieldRepaired(field, repair));
      }
    }

    /** The value a bounded column stores, with a report when the cut lost something. */
    method Bounded(raw: Bytes, limit: int, field: Field) returns (out: Bytes)
      modifies observer
      ensures out == BoundedText(raw, limit)
      ensures observer.calls == old(observer.calls) + BoundedRepairs(raw, limit, field)
    {
      var t := TrimSpace(raw);
      var truncated;
      out, truncated := Utf8.TruncateRunes(t, limit);
      Utf8.TruncationSettles(t, limit);
      Note(truncated, field, WasTruncated);
    }

    method NoteUrl(s: Sanitized, field: Field)
      modifies observer
      ensures observer.calls == old(observer.calls) + SanitizedRepairs(s, field)
    {
      Note(s.stripped, field, WasStripped);
      Note(s.truncated, field, WasTruncated);
    }

    /** The URL a column stores, with a report for each of the two repairs it may have needed. */
    method CleanUrl(raw: Bytes, limit: int, field: Field) returns (out: Bytes)
      modifies observer
      ensures out == UrlColumn(settings, raw, limit)
      ensures observer.calls == old(observer.calls) + UrlRepairs(settings, raw, limit, field)
    {
      var stripped, truncated;
      out, stripped, truncated := SanitizeUrl(settings.sensitive, settings.lib.url, raw, limit);
      NoteUrl(Sanitized(out, stripped, truncated), field);
    }

    method CheckEventName(ev: Event, out: Draft) returns (reason: Reason)
      modifies out`eventName
      ensures reason == JudgeEventName(settings, ev).reason && JudgeEventName(settings, ev).repairs == []
      ensures out.Row() == if reason == NoReason then old(out.Row()).(eventName := TrimSpace(ev.event)) else old(out.Row())
    {
      var name := TrimSpace(ev.event);
      if name == [] {
        return MissingEventName;
      }
      if !InCharset(name) {
        return InvalidEventName;
      }
      if |name| > settings.limits.maxEventNameLen {
        return InvalidEventName;
      }
      out.eventName := name;
      return NoReason;
    }

    method CheckEventId(tick: Tick, ev: Event, out: Draft) returns (reason: Reason)
      modifies out`eventId, observer
      ensures reason == JudgeEventId(settings, tick, ev).reason
      ensures observer.calls == old(observer.calls) + JudgeEventId(settings, tick, ev).repairs
      ensures out.Row() == if reason == NoReason then ApplyEventId(settings, tick, ev, old(out.Row()))
                           else old(out.Row())
    {
      var raw := TrimSpace(ev.eventId);
      if raw == [] {
        if tick.newId.None? {
          return InvalidEventId;
        }
        out.eventId := tick.newId.value;
        observer.Record(FieldRepaired(EventIdField, WasDefaulted));
        return NoReason;
      }
      var id := settings.lib.parseUuid(raw);
      if id.None? {
        return InvalidEventId;
      }
      out.eventId := id.value;
      return NoReason;
    }

    method CheckTimestamp(tick: Tick, ev: Event, out: Draft) returns (reason: Reason)
      modifies out`eventTime, observer
      ensures reason == JudgeTimestamp(settings, tick, ev).reason
      ensures observer.calls == old(observer.calls) + JudgeTimestamp(settings, tick, ev).repairs
      ensures out.Row() == if reason == NoReason
                           then old(out.Row()).(eventTime := EventTimeColumn(settings, tick.now, ev.timestamp))
                           else old(out.Row())
    {
      hide TrimSpace;
      var now, raw := tick.now, TrimSpace(ev.timestamp);
      if raw == [] {
        out.eventTime := now;
        observer.Record(FieldRepaired(TimestampField, WasDefaulted));
        return NoReason;
      }
      var ts := settings.lib.parseTime(raw);
      if ts.None? {
        return InvalidTimestamp;
      }
      if ts.value > now + settings.limits.futureSkew {
        out.eventTime := now;
        observer.Record(ClockSkewed(Future));
      } else if ts.value < now - settings.limits.pastSkew {
        out.eventTime := now;
        observer.Record(ClockSkewed(Past));
      } else {
        out.eventTime := ts.value;
      }
      return NoReason;
    }

    method CheckIdentity(ev: Event, out: Draft)
      modifies out`userId, out`sessionId, observer
      ensures out.Row() == ApplyIdentity(settings, ev, old(out.Row()))
      ensures observer.calls == old(observer.calls) + IdentityRepairs(settings, ev)
    {
      ConcatAssociates(observer.calls, BoundedRepairs(ev.userId, settings.limits.maxUserIdLen, UserIdField),
                BoundedRepairs(ev.sessionId, settings.limits.maxSessionIdLen, SessionIdField));
      out.userId := Bounded(ev.userId, settings.limits.maxUserIdLen, UserIdField);
      out.sessionId := Bounded(ev.sessionId, settings.limits.maxSessionIdLen, SessionIdField);
    }

    method CheckUtm(ev: Event, out: Draft)
      modifies out`utmSource, out`utmMedium, out`utmCampaign, observer
      ensures out.Row() == ApplyUtm(settings, ev, old(out.Row()))
      ensures observer.calls == old(observer.calls) + UtmRepairs(settings, ev)
    {
      hide TrimSpace, BoundedText, BoundedRepairs;
      ghost var source := BoundedRepairs(ev.utm.source, settings.limits.maxLabelLen, UtmSourceField);
      ghost var medium := BoundedRepairs(ev.utm.medium, settings.limits.maxLabelLen, UtmMediumField);
      ConcatAssociates(observer.calls, source, medium);
      ConcatAssociates(observer.calls, source + medium,
                BoundedRepairs(ev.utm.campaign, settings.limits.maxLabelLen, UtmCampaignField));
      out.utmSource := Bounded(ev.utm.source, settings.limits.maxLabelLen, UtmSourceField);
      out.utmMedium := Bounded(ev.utm.medium, settings.limits.maxLabelLen, UtmMediumField);
      out.utmCampaign := Bounded(ev.utm.campaign, settings.limits.maxLabelLen, UtmCampaignField);
    }

    method CheckAudience(ev: Event, out: Draft)
      modifies out`country, out`city, out`device, out`os, out`browser, observer
      ensures out.country == CountryColumn(settings, ev.country)
      ensures out.city == BoundedText(ev.city, settings.limits.maxCityLen)
      ensures out.device == DeviceColumn(settings, ev.device)
      ensures out.os == BoundedText(ev.os, settings.limits.maxLabelLen)
      ensures out.browser == BoundedText(ev.browser, settings.limits.maxLabelLen)
      ensures observer.calls == old(observer.calls) + CountryRepairs(settings, ev) +
                BoundedRepairs(ev.city, settings.limits.maxCityLen, CityField) + DeviceRepairs(settings, ev) +
                BoundedRepairs(ev.os, settings.limits.maxLabelLen, OsField) +
                BoundedRepairs(ev.browser, settings.limits.maxLabelLen, BrowserField)
    {
      hide TrimSpace, BoundedText, BoundedRepairs, CountryRepairs, DeviceRepairs, CountryColumn, DeviceColumn;
      CheckCountry(ev, out);
      out.city := Bounded(ev.city, settings.limits.maxCityLen, CityField);
      CheckDevice(ev, out);
      out.os := Bounded(ev.os, settings.limits.maxLabelLen, OsField);
      out.browser := Bounded(ev.browser, settings.limits.maxLabelLen, BrowserField);
    }

    method CheckCountry(ev: Event, out: Draft)
      modifies out`country, observer
      ensures out.country == CountryColumn(settings, ev.country)
      ensures observer.calls == old(observer.calls) + CountryRepairs(settings, ev)
    {
      var country := settings.lib.toUpper(TrimSpace(ev.country));
      var known := Decimal.IsUpperAlpha(country, 2);
      if country != [] && !known {
        country := [];
        observer.Record(FieldRepaired(CountryField, WasStripped));
      }
      out.country := country;
    }

    method CheckDevice(ev: Event, out: Draft)
      modifies out`device, observer
      ensures out.device == DeviceColumn(settings, ev.device)
      ensures observer.calls == old(observer.calls) + DeviceRepairs(settings, ev)
    {
      var name := settings.lib.toLower(TrimSpace(ev.device));
      var device := DeviceOf(name);
      if name == [] {
        out.device := Unknown;
      } else if device.Some? {
        out.device := device.value;
      } else {
        out.device := Unknown;
        observer.Record(FieldRepaired(DeviceField, WasNormalised));
      }
    }

    method CheckCommerce(ev: Event, out: Draft) returns (reason: Reason)
      modifies out`revenue, out`currency, observer
      ensures reason == JudgeCommerce(settings, ev).reason
      ensures observer.calls == old(observer.calls) + JudgeCommerce(settings, ev).repairs
      ensures out.revenue == if reason == NoReason then TrimSpace(ev.revenue) else old(out.revenue)
      ensures out.currency == if reason == NoReason then CurrencyColumn(settings, ev.currency) else old(out.currency)
    {
      var revenue := TrimSpace(ev.revenue);
      if revenue == [] {
        out.revenue := [];
      } else {
        var fits := Decimal.CheckDecimal(revenue, settings.limits.revenuePrecision, settings.limits.revenueScale);
        if !fits {
          return InvalidRevenue;
        }
        out.revenue := revenue;
      }
      var currency := settings.lib.toUpper(TrimSpace(ev.currency));
      var known := Decimal.IsUpperAlpha(currency, 3);
      if currency == [] {
        out.currency := DEFAULT_CURRENCY;
      } else if known {
        out.currency := currency;
      } else {
        out.currency := DEFAULT_CURRENCY;
        observer.Record(FieldRepaired(CurrencyField, WasNormalised));
      }
      return NoReason;
    }

    method CheckProperties(ev: Event, out: Draft) returns (reason: Reason)
      modifies out`properties
      ensures reason == JudgeProperties(settings, ev).reason && JudgeProperties(settings, ev).repairs == []
      ensures out.Row() == if reason == NoReason then ApplyProperties(ev, old(out.Row())) else old(out.Row())
    {
      var raw := TrimSpace(ev.properties);
      if raw == [] || raw == NULL_PROPERTIES {
        out.properties := EMPTY_PROPERTIES;
        return NoReason;
      }
      if |raw| > settings.limits.maxPropertiesBytes {
        return PropertiesTooLarge;
      }
      if raw[0] != LEFT_BRACE {
        return InvalidProperties;
      }
      var compact := Json.Compact(raw);
      if compact.None? {
        return InvalidProperties;
      }
      out.properties := compact.value;
      return NoReason;
    }

    // The steps of the pipeline: each rule as its verdict, its repairs and what it makes of the row.

    method StepEventName(ev: Event, out: Draft) returns (reason: Reason)
      modifies out, observer
      ensures reason == JudgeEventName(settings, ev).reason
      ensures observer.calls == old(observer.calls) + JudgeEventName(settings, ev).repairs
      ensures out.Row() == if reason == NoReason then old(out.Row()).(eventName := TrimSpace(ev.event)) else old(out.Row())
    {
      reason := CheckEventName(ev, out);
    }

    method StepPage(ev: Event, out: Draft)
      modifies out, observer
      ensures observer.calls == old(observer.calls) + UrlRepairs(settings, ev.page, settings.limits.maxPageLen, PageField)
      ensures out.Row() == old(out.Row()).(page := UrlColumn(settings, ev.page, settings.limits.maxPageLen))
    {
      out.page := CleanUrl(ev.page, settings.limits.maxPageLen, PageField);
    }

    method StepReferrer(ev: Event, out: Draft)
      modifies out, observer
      ensures observer.calls ==
              old(observer.calls) + UrlRepairs(settings, ev.referrer, settings.limits.maxReferrerLen, ReferrerField)
      ensures out.Row() == old(out.Row()).(referrer := UrlColumn(settings, ev.referrer, settings.limits.maxReferrerLen))
    {
      out.referrer := CleanUrl(ev.referrer, settings.limits.maxReferrerLen, ReferrerField);
    }

    method StepAudience(ev: Event, out: Draft)
      modifies out, observer
      ensures observer.calls == old(observer.calls) + JudgeAudience(settings, ev).repairs
      ensures out.Row() == ApplyAudience(settings, ev, old(out.Row()))
    {
      hide TrimSpace, BoundedText, BoundedRepairs, CountryRepairs, DeviceRepairs;
      AssociateFive(observer.calls, CountryRepairs(settings, ev),
                    BoundedRepairs(ev.city, settings.limits.maxCityLen, CityField),
                    DeviceRepairs(settings, ev), BoundedRepairs(ev.os, settings.limits.maxLabelLen, OsField),
                    BoundedRepairs(ev.browser, settings.limits.maxLabelLen, BrowserField));
      CheckAudience(ev, out);
    }

    method StepCommerce(ev: Event, out: Draft) returns (reason: Reason)
      modifies out, observer
      ensures reason == JudgeCommerce(settings, ev).reason
      ensures observer.calls == old(observer.calls) + JudgeCommerce(settings, ev).repairs
      ensures out.Row() == if reason == NoReason
                           then old(out.Row()).(revenue := TrimSpace(ev.revenue),
                                                currency := CurrencyColumn(settings, ev.currency))
                           else old(out.Row())
    {
      reason := CheckCommerce(ev, out);
    }

    method StepProperties(ev: Event, out: Draft) returns (reason: Reason)
      modifies out, observer
      ensures reason == JudgeProperties(settings, ev).reason
      ensures observer.calls == old(observer.calls) + JudgeProperties(settings, ev).repairs
      ensures out.Row() == if reason == NoReason then ApplyProperties(ev, old(out.Row())) else old(out.Row())
    {
      reason := CheckProperties(ev, out);
    }

    method ApplyRule(rule: Rule, tick: Tick, ev: Event, out: Draft) returns (reason: Reason)
      modifies out, observer
      ensures reason == Judge(rule, settings, tick, ev).reason
      ensures observer.calls == old(observer.calls) + Judge(rule, settings, tick, ev).repairs
      ensures out.Row() == if reason == NoReason then Apply(rule, settings, tick, ev, old(out.Row())) else old(out.Row())
    {
      reason := NoReason;
      match rule {
        case EventNameRule => reason := StepEventName(ev, out);
        case EventIdRule => reason := CheckEventId(tick, ev, out);
        case TimestampRule => reason := CheckTimestamp(tick, ev, out);
        case IdentityRule => CheckIdentity(ev, out);
        case PageRule => StepPage(ev, out);
        case ReferrerRule => StepReferrer(ev, out);
        case UtmRule => CheckUtm(ev, out);
        case AudienceRule => StepAudience(ev, out);
        case CommerceRule => reason := StepCommerce(ev, out);
        case PropertiesRule => reason := StepProperties(ev, out);
      }
    }

    /** Runs rules over one decoded event, in the order given, up to the first that refuses. */
    method Run(rules: seq<Rule>, siteId: Bytes, tick: Tick, ev: Event) returns (row: ValidatedEvent, reason: Reason)
      modifies observer
      ensures var o := RunRules(rules, Judging(settings, tick, ev), Applying(settings, tick, ev), EmptyEvent(siteId));
              reason == o.reason && row == o.out && observer.calls == old(observer.calls) + o.trace
    {
      ghost var judge, write := Judging(settings, tick, ev), Applying(settings, tick, ev);
      ghost var whole := RunRules(rules, judge, write, EmptyEvent(siteId));
      var out := new Draft(siteId);
      for i := 0 to |rules|
        invariant fresh(out)
        invariant var rest := RunRules(rules[i..], judge, write, out.Row());
                  && whole.reason == rest.reason && whole.out == rest.out
                  && old(observer.calls) + whole.trace == observer.calls + rest.trace
      {
        ghost var before := observer.calls;
        RunStep(rules[i..], judge, write, out.Row());
        reason := ApplyRule(rules[i], tick, ev, out);
        if reason != NoReason {
          return EmptyEvent([]), reason;
        }
        assert rules[i..][1..] == rules[i + 1..];
        ConcatAssociates(before, judge(rules[i]).repairs, RunRules(rules[i + 1..], judge, write, out.Row()).trace);
      }
      return out.Row(), NoReason;
    }

    static lemma RunStep(rules: seq<Rule>, judge: Judgement, write: Writing, out: ValidatedEvent)
      requires rules != []
      ensures var o, v := RunRules(rules, judge, write, out), judge(rules[0]);
              if v.reason != NoReason then o == Outcome(v.reason, EmptyEvent([]), v.repairs)
              else
                var rest := RunRules(rules[1..], judge, write, write(rules[0], out));
                o == Outcome(rest.reason, rest.out, v.repairs + rest.trace)
    {
    }

    /** One event from its bytes to its row, or to the reason why there is none. */
    method ValidateOne(siteId: Bytes, raw: Bytes, tick: Tick) returns (row: ValidatedEvent, reason: Reason)
      modifies observer
      ensures var h := Handling(settings, siteId)(raw, tick);
              reason == h.reason && row == h.row && observer.calls == old(observer.calls) + h.trace
    {
      var ev := settings.lib.decodeEvent(raw);
      if ev.None? {
        return EmptyEvent([]), MalformedEvent;
      }
      row, reason := Run(EVENT_RULES, siteId, tick, ev.value);
    }

    /** Answers one request: refused as a whole, or split by what became of each event. */
    method Validate(siteId: Bytes, req: IngestRequest, ticks: nat -> Tick) returns (result: Result)
      requires Valid()
      modifies observer
      ensures result == Answer(Handling(settings, siteId), settings.limits.maxEventsPerRequest, siteId, req, ticks)
      ensures observer.calls == old(observer.calls) +
                AnswerTrace(Handling(settings, siteId), settings.limits.maxEventsPerRequest, siteId, req, ticks)
      ensures result == Refused(SiteIdMismatch) <==> siteId == [] || (req.siteId != [] && req.siteId != siteId)
      ensures result == Refused(EmptyBatch) <==>
                siteId != [] && (req.siteId == [] || req.siteId == siteId) && |req.events| == 0
      ensures result == Refused(BatchTooLarge) <==>
                siteId != [] && (req.siteId == [] || req.siteId == siteId) &&
                |req.events| > settings.limits.maxEventsPerRequest
      ensures result.Processed? <==>
                siteId != [] && (req.siteId == [] || req.siteId == siteId) &&
                0 < |req.events| <= settings.limits.maxEventsPerRequest
      ensures result.Processed? ==>
                forall k | 0 <= k < |result.accepted| ::
                  exists i: nat :: i < |req.events| &&
                                   MeetsColumns(settings.limits, ticks(i).now, siteId, result.accepted[k])
    {
      AnswerMeetsColumns(settings, siteId, req, ticks);
      PositiveLimits(settings.limits);
      if siteId == [] || (req.siteId != [] && req.siteId != siteId) {
        return Refused(SiteIdMismatch);
      }
      if |req.events| == 0 {
        return Refused(EmptyBatch);
      }
      if |req.events| > settings.limits.maxEventsPerRequest {
        return Refused(BatchTooLarge);
      }
      var accepted, rejected := Collect(siteId, req.events, ticks);
      return Processed(accepted, rejected);
    }

    /** The loop over the events of a request. */
    method Collect(siteId: Bytes, events: seq<Bytes>, ticks: nat -> Tick)
      returns (accepted: seq<ValidatedEvent>, rejected: seq<RejectedEvent>)
      modifies observer
      ensures var hs := HandleAll(Handling(settings, siteId), events, ticks);
              && accepted == AcceptedOf(hs) && rejected == RejectedOf(hs, 0)
              && observer.calls == old(observer.calls) + TraceOf(siteId, hs)
    {
      accepted, rejected := [], [];
      ghost var handle := Handling(settings, siteId);
      ghost var hs := HandleAll(handle, events, ticks);
      for i := 0 to |events|
        invariant accepted == AcceptedOf(hs[..i])
        invariant rejected == RejectedOf(hs[..i], 0)
        invariant observer.calls == old(observer.calls) + TraceOf(siteId, hs[..i])
      {
        AddOne(siteId, hs, i);
        ConcatAssociates(old(observer.calls), TraceOf(siteId, hs[..i]), EventTrace(siteId, hs[i]));
        ghost var before := observer.calls;
        var row, reason := ValidateOne(siteId, events[i], ticks(i));
        assert observer.calls == before + hs[i].trace;
        ConcatAssociates(before, hs[i].trace, if reason == NoReason then [] else [EventRejected(siteId, reason)]);
        if reason != NoReason {
          rejected := rejected + [RejectedEvent(i, reason)];
          observer.Record(EventRejected(siteId, reason));
        } else {
          accepted := accepted + [row];
        }
      }
      assert hs[..|events|] == hs;
    }
  }
}
