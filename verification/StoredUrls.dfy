/** What the URLs of accepted rows hold of the URLs that were sent. */
module StoredUrls {
  import opened Bytes
  import opened Model
  import opened Text
  import opened Sanitize
  import opened Rules
  import opened Pipeline
  import opened Batch
  import opened Reading

  /** No fragment is stored, and no value of a denied parameter that was not sent in a query kept as
      it was. */
  ghost predicate IsCleanOf(c: Settings, sent: Bytes, stored: Bytes) {
    var t := TrimSpace(sent);
    && HashOnlyLast(stored)
    && (ShowsNone(c.sensitive, stored) || (!IsRebuilt(c.sensitive, c.lib.url, t) && !ShowsNone(c.sensitive, t)))
  }

  lemma ColumnIsClean(c: Settings, raw: Bytes, limit: int)
    requires Reparses(c.lib.url)
    ensures IsCleanOf(c, raw, UrlColumn(c, raw, limit))
  {
    NoFragmentIsLeft(c.sensitive, c.lib.url, raw, limit);
    ShownWasSent(c.sensitive, c.lib.url, raw, limit);
  }

  lemma UrlsAreColumns(c: Settings, tick: Tick, ev: Event, e: ValidatedEvent)
    requires Apply(PageRule, c, tick, ev, e) == e && Apply(ReferrerRule, c, tick, ev, e) == e
    ensures e.page == UrlColumn(c, ev.page, c.limits.maxPageLen)
    ensures e.referrer == UrlColumn(c, ev.referrer, c.limits.maxReferrerLen)
  {
    hide UrlColumn;
    assert Apply(PageRule, c, tick, ev, e).page == UrlColumn(c, ev.page, c.limits.maxPageLen);
    assert Apply(ReferrerRule, c, tick, ev, e).referrer == UrlColumn(c, ev.referrer, c.limits.maxReferrerLen);
  }

  /** Both URLs of every accepted event. */
  lemma AcceptedUrlsAreClean(c: Settings, tick: Tick, ev: Event, siteId: Bytes)
    requires Reparses(c.lib.url)
    requires Checked(c, tick, ev, siteId).reason == NoReason
    ensures var e := Checked(c, tick, ev, siteId).out;
            IsCleanOf(c, ev.page, e.page) && IsCleanOf(c, ev.referrer, e.referrer)
  {
    hide IsCleanOf, Apply, Judge, RunRules;
    var judge, write := Judging(c, tick, ev), Applying(c, tick, ev);
    RulesAreIndependent(c, tick, ev);
    AcceptedIsSettled(judge, write, siteId);
    var e := Checked(c, tick, ev, siteId).out;
    assert write(PageRule, e) == e && write(ReferrerRule, e) == e;
    UrlsAreColumns(c, tick, ev, e);
    ColumnIsClean(c, ev.page, c.limits.maxPageLen);
    ColumnIsClean(c, ev.referrer, c.limits.maxReferrerLen);
  }

  /** A row whose URLs are clean of those in some event of the request. */
  ghost predicate IsCleanOfSome(c: Settings, events: seq<Bytes>, row: ValidatedEvent) {
    exists i: nat :: i < |events| && c.lib.decodeEvent(events[i]).Some? &&
                     IsCleanOf(c, c.lib.decodeEvent(events[i]).value.page, row.page) &&
                     IsCleanOf(c, c.lib.decodeEvent(events[i]).value.referrer, row.referrer)
  }

  /** Whatever the request: the URLs of every accepted row are clean of those of an event in it. */
  lemma AnswerUrlsAreClean(c: Settings, siteId: Bytes, req: IngestRequest, ticks: nat -> Tick)
    requires Reparses(c.lib.url)
    ensures var a := Answer(Handling(c, siteId), c.limits.maxEventsPerRequest, siteId, req, ticks);
            a.Processed? ==> forall k | 0 <= k < |a.accepted| :: IsCleanOfSome(c, req.events, a.accepted[k])
  {
    var handle := Handling(c, siteId);
    var hs := HandleAll(handle, req.events, ticks);
    forall k | 0 <= k < |AcceptedOf(hs)| ensures IsCleanOfSome(c, req.events, AcceptedOf(hs)[k]) {
      var i := AcceptedComesFrom(hs, k);
      assert hs[i] == handle(req.events[i], ticks(i));
      HandledIsClean(c, siteId, req.events, i, ticks(i));
    }
  }

  lemma HandledIsClean(c: Settings, siteId: Bytes, events: seq<Bytes>, i: nat, tick: Tick)
    requires Reparses(c.lib.url)
    requires i < |events| && Handle(c, siteId, events[i], tick).reason == NoReason
    ensures IsCleanOfSome(c, events, Handle(c, siteId, events[i], tick).row)
  {
    AcceptedUrlsAreClean(c, tick, c.lib.decodeEvent(events[i]).value, siteId);
  }
}
