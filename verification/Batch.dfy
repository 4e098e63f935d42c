/** What the events of one request turn into: some rows, some rejections by index, one trace. */
module Batch {
  import opened Bytes
  import opened Model
  import opened Rules
  import opened Pipeline

  /** What became of one event, and what was reported while it was checked. */
  datatype Handled = Handled(reason: Reason, row: ValidatedEvent, trace: seq<Observation>)

  ghost function Handle(c: Settings, siteId: Bytes, raw: Bytes, tick: Tick): Handled {
    var ev := c.lib.decodeEvent(raw);
    if ev.None? then Handled(MalformedEvent, EmptyEvent([]), [])
    else
      var o := Checked(c, tick, ev.value, siteId);
      Handled(o.reason, o.out, o.trace)
  }

  type Handler = (Bytes, Tick) -> Handled

  ghost function Handling(c: Settings, siteId: Bytes): Handler {
    (raw, tick) => Handle(c, siteId, raw, tick)
  }

  /** The events of a request one by one; `ticks` is what the clock and the id generator answer
      while the i-th of them is being checked. */
  function HandleAll(handle: Handler, events: seq<Bytes>, ticks: nat -> Tick): (r: seq<Handled>)
    ensures |r| == |events|
  {
    seq(|events|, i requires 0 <= i < |events| => handle(events[i], ticks(i)))
  }

  function AcceptedOf(hs: seq<Handled>): seq<ValidatedEvent> {
    if hs == [] then []
    else (if hs[0].reason == NoReason then [hs[0].row] else []) + AcceptedOf(hs[1..])
  }

  /** The rejections, where the first of `hs` has index `from`. */
  function RejectedOf(hs: seq<Handled>, from: nat): seq<RejectedEvent> {
    if hs == [] then []
    else (if hs[0].reason == NoReason then [] else [RejectedEvent(from, hs[0].reason)]) + RejectedOf(hs[1..], from + 1)
  }

  function EventTrace(siteId: Bytes, h: Handled): seq<Observation> {
    h.trace + if h.reason == NoReason then [] else [EventRejected(siteId, h.reason)]
  }

  function TraceOf(siteId: Bytes, hs: seq<Handled>): seq<Observation> {
    if hs == [] then [] else EventTrace(siteId, hs[0]) + TraceOf(siteId, hs[1..])
  }

  predicate Mismatch(siteId: Bytes, req: IngestRequest) {
    siteId == [] || (req.siteId != [] && req.siteId != siteId)
  }

  /** The answer to a whole request, and what is reported for it: nothing when it is refused. */
  function Answer(handle: Handler, limit: int, siteId: Bytes, req: IngestRequest, ticks: nat -> Tick): Result {
    if Mismatch(siteId, req) then Refused(SiteIdMismatch)
    else if req.events == [] then Refused(EmptyBatch)
    else if |req.events| > limit then Refused(BatchTooLarge)
    else
      var hs := HandleAll(handle, req.events, ticks);
      Processed(AcceptedOf(hs), RejectedOf(hs, 0))
  }

  function AnswerTrace(handle: Handler, limit: int, siteId: Bytes, req: IngestRequest, ticks: nat -> Tick)
    : seq<Observation>
  {
    if Answer(handle, limit, siteId, req, ticks).Refused? then []
    else TraceOf(siteId, HandleAll(handle, req.events, ticks))
  }

  /** When a request is processed, and why it is refused otherwise: the first of these to fail - the key
      has a site and the body names no other, there is an event, there are not too many. */
  lemma AnswerExactly(handle: Handler, limit: int, siteId: Bytes, req: IngestRequest, ticks: nat -> Tick)
    ensures var a := Answer(handle, limit, siteId, req, ticks);
            var ownSite := siteId != [] && (req.siteId == [] || req.siteId == siteId);
            && (a.Processed? <==> ownSite && 0 < |req.events| <= limit)
            && (a == Refused(SiteIdMismatch) <==> !ownSite)
            && (a == Refused(EmptyBatch) <==> ownSite && |req.events| == 0)
            && (a == Refused(BatchTooLarge) <==> ownSite && 0 < |req.events| && limit < |req.events|)
  {
  }

  // ---- Conservation ----

  /** Every event is accepted or rejected, once; the rejected indexes are in range and strictly
      increase; and they are exactly the indexes of the events that were refused. */
  lemma {:induction false} NothingIsLost(hs: seq<Handled>, from: nat)
    ensures var rejected := RejectedOf(hs, from);
            && |AcceptedOf(hs)| + |rejected| == |hs|
            && NamesRefused(hs, from, rejected) && Increasing(rejected)
    decreases |hs|
  {
    if hs != [] {
      NothingIsLost(hs[1..], from + 1);
      LaterRefused(hs, from, RejectedOf(hs[1..], from + 1));
      if hs[0].reason == NoReason {
        AcceptedStep(hs, from);
      } else {
        RejectedStep(hs, from);
        FirstRefused(hs, from, RejectedOf(hs[1..], from + 1));
      }
    }
  }

  /** The rejections name refused events of `hs`, whose first index is `from`. */
  predicate NamesRefused(hs: seq<Handled>, from: nat, rejected: seq<RejectedEvent>) {
    forall k | 0 <= k < |rejected| ::
      && from <= rejected[k].index < from + |hs|
      && rejected[k].reason == hs[rejected[k].index - from].reason != NoReason
  }

  predicate Increasing(rejected: seq<RejectedEvent>) {
    forall j, k | 0 <= j < k < |rejected| :: rejected[j].index < rejected[k].index
  }

  lemma LaterRefused(hs: seq<Handled>, from: nat, rejected: seq<RejectedEvent>)
    requires hs != [] && NamesRefused(hs[1..], from + 1, rejected)
    ensures NamesRefused(hs, from, rejected)
  {
  }

  lemma FirstRefused(hs: seq<Handled>, from: nat, rejected: seq<RejectedEvent>)
    requires hs != [] && NamesRefused(hs, from, rejected) && Increasing(rejected)
    requires hs[0].reason != NoReason && forall k | 0 <= k < |rejected| :: from < rejected[k].index
    ensures var all := [RejectedEvent(from, hs[0].reason)] + rejected; NamesRefused(hs, from, all) && Increasing(all)
  {
    var all := [RejectedEvent(from, hs[0].reason)] + rejected;
    assert forall k | 0 < k < |all| :: all[k] == rejected[k - 1];
  }

  datatype Verdict = Kept(row: ValidatedEvent) | Lost(reason: Reason)

  /** Puts the two lists of an answer back together, going by the rejected indexes alone. */
  function Interleave(n: nat, from: nat, accepted: seq<ValidatedEvent>, rejected: seq<RejectedEvent>): seq<Verdict>
    decreases n
  {
    if n == 0 then []
    else if rejected != [] && rejected[0].index == from then
      [Lost(rejected[0].reason)] + Interleave(n - 1, from + 1, accepted, rejected[1..])
    else if accepted != [] then
      [Kept(accepted[0])] + Interleave(n - 1, from + 1, accepted[1..], rejected)
    else []
  }

  function VerdictsOf(hs: seq<Handled>): seq<Verdict> {
    seq(|hs|, i requires 0 <= i < |hs| => if hs[i].reason == NoReason then Kept(hs[i].row) else Lost(hs[i].reason))
  }

  /** The answer determines what became of each event: the k-th accepted row is that of the k-th
      index that is not rejected. */
  lemma {:induction false} AnswerIsComplete(hs: seq<Handled>, from: nat)
    ensures Interleave(|hs|, from, AcceptedOf(hs), RejectedOf(hs, from)) == VerdictsOf(hs)
    decreases |hs|
  {
    if hs != [] {
      var rest := hs[1..];
      AnswerIsComplete(rest, from + 1);
      VerdictsStep(hs);
      var accepted, rejected := AcceptedOf(rest), RejectedOf(rest, from + 1);
      if hs[0].reason == NoReason {
        NothingIsLost(rest, from + 1);
        InterleaveAccepted(|rest|, from, hs[0].row, accepted, rejected);
        AcceptedStep(hs, from);
      } else {
        InterleaveRejected(|rest|, from, RejectedEvent(from, hs[0].reason), accepted, rejected);
        RejectedStep(hs, from);
      }
    }
  }

  lemma AcceptedStep(hs: seq<Handled>, from: nat)
    requires hs != [] && hs[0].reason == NoReason
    ensures AcceptedOf(hs) == [hs[0].row] + AcceptedOf(hs[1..])
    ensures RejectedOf(hs, from) == RejectedOf(hs[1..], from + 1)
  {
  }

  lemma RejectedStep(hs: seq<Handled>, from: nat)
    requires hs != [] && hs[0].reason != NoReason
    ensures AcceptedOf(hs) == AcceptedOf(hs[1..])
    ensures RejectedOf(hs, from) == [RejectedEvent(from, hs[0].reason)] + RejectedOf(hs[1..], from + 1)
  {
  }

  lemma InterleaveAccepted(
      n: nat, from: nat, row: ValidatedEvent, accepted: seq<ValidatedEvent>, rejected: seq<RejectedEvent>)
    requires rejected != [] ==> rejected[0].index != from
    ensures Interleave(n + 1, from, [row] + accepted, rejected) ==
            [Kept(row)] + Interleave(n, from + 1, accepted, rejected)
  {
    assert ([row] + accepted)[1..] == accepted;
  }

  lemma InterleaveRejected(
      n: nat, from: nat, r: RejectedEvent, accepted: seq<ValidatedEvent>, rejected: seq<RejectedEvent>)
    requires r.index == from
    ensures Interleave(n + 1, from, accepted, [r] + rejected) ==
            [Lost(r.reason)] + Interleave(n, from + 1, accepted, rejected)
  {
    assert ([r] + rejected)[1..] == rejected;
  }

  lemma VerdictsStep(hs: seq<Handled>)
    requires hs != []
    ensures VerdictsOf(hs) ==
            [if hs[0].reason == NoReason then Kept(hs[0].row) else Lost(hs[0].reason)] + VerdictsOf(hs[1..])
  {
  }

  // ---- Composition ----

  function Shift(rejected: seq<RejectedEvent>, offset: nat): seq<RejectedEvent> {
    seq(|rejected|, k requires 0 <= k < |rejected| => RejectedEvent(rejected[k].index + offset, rejected[k].reason))
  }

  lemma {:induction false} RejectedShift(hs: seq<Handled>, from: nat, offset: nat)
    ensures RejectedOf(hs, from + offset) == Shift(RejectedOf(hs, from), offset)
    decreases |hs|
  {
    if hs != [] {
      RejectedShift(hs[1..], from + 1, offset);
      if hs[0].reason == NoReason {
        AcceptedStep(hs, from);
        AcceptedStep(hs, from + offset);
      } else {
        RejectedStep(hs, from);
        RejectedStep(hs, from + offset);
      }
    }
  }

  lemma {:induction false} AcceptedConcat(a: seq<Handled>, b: seq<Handled>)
    ensures AcceptedOf(a + b) == AcceptedOf(a) + AcceptedOf(b)
    decreases |a|
  {
    if a == [] {
      assert a + b == b;
    } else {
      var x, rest := a + b, a[1..];
      assert x[1..] == rest + b;
      AcceptedConcat(rest, b);
      if a[0].reason == NoReason {
        AcceptedStep(a, 0);
        AcceptedStep(x, 0);
      } else {
        RejectedStep(a, 0);
        RejectedStep(x, 0);
      }
    }
  }

  lemma {:induction false} RejectedConcat(a: seq<Handled>, b: seq<Handled>, from: nat)
    ensures RejectedOf(a + b, from) == RejectedOf(a, from) + RejectedOf(b, from + |a|)
    decreases |a|
  {
    if a == [] {
      assert a + b == b;
    } else {
      var x, rest := a + b, a[1..];
      assert x[1..] == rest + b;
      RejectedConcat(rest, b, from + 1);
      if a[0].reason == NoReason {
        AcceptedStep(a, from);
        AcceptedStep(x, from);
      } else {
        RejectedStep(a, from);
        RejectedStep(x, from);
      }
    }
  }

  lemma {:induction false} TraceConcat(siteId: Bytes, a: seq<Handled>, b: seq<Handled>)
    ensures TraceOf(siteId, a + b) == TraceOf(siteId, a) + TraceOf(siteId, b)
    decreases |a|
  {
    if a == [] {
      assert a + b == b;
    } else {
      var x, rest := a + b, a[1..];
      assert x[1..] == rest + b;
      TraceConcat(siteId, rest, b);
      assert TraceOf(siteId, x) == EventTrace(siteId, a[0]) + TraceOf(siteId, rest + b);
    }
  }

  /** One more event is one more row or one more rejection, and its trace after the others. */
  lemma AddOne(siteId: Bytes, hs: seq<Handled>, i: nat)
    requires i < |hs|
    ensures AcceptedOf(hs[..i + 1]) == AcceptedOf(hs[..i]) + (if hs[i].reason == NoReason then [hs[i].row] else [])
    ensures RejectedOf(hs[..i + 1], 0) ==
            RejectedOf(hs[..i], 0) + (if hs[i].reason == NoReason then [] else [RejectedEvent(i, hs[i].reason)])
    ensures TraceOf(siteId, hs[..i + 1]) == TraceOf(siteId, hs[..i]) + EventTrace(siteId, hs[i])
  {
    var one := [hs[i]];
    assert hs[..i + 1] == hs[..i] + one;
    AcceptedConcat(hs[..i], one);
    RejectedConcat(hs[..i], one, 0);
    TraceConcat(siteId, hs[..i], one);
    assert one[1..] == [];
  }

  /** Validating two batches at once is validating each alone: the accepted lists follow each other,
      as do the rejected ones with the indexes of the second shifted, and the traces. So no event
      changes what becomes of another. */
  lemma BatchesCompose(
      handle: Handler, limit: int, siteId: Bytes, site: Bytes, xs: seq<Bytes>, ys: seq<Bytes>,
      ticks: nat -> Tick, later: nat -> Tick)
    requires !Mismatch(siteId, IngestRequest(site, xs)) && xs != [] && ys != []
    requires |xs| + |ys| <= limit
    requires forall i: nat :: later(i) == ticks(i + |xs|)
    ensures var x, y, both := IngestRequest(site, xs), IngestRequest(site, ys), IngestRequest(site, xs + ys);
            var a, b := Answer(handle, limit, siteId, x, ticks), Answer(handle, limit, siteId, y, later);
            && a.Processed? && b.Processed?
            && Answer(handle, limit, siteId, both, ticks) ==
               Processed(a.accepted + b.accepted, a.rejected + Shift(b.rejected, |xs|))
            && AnswerTrace(handle, limit, siteId, both, ticks) ==
               AnswerTrace(handle, limit, siteId, x, ticks) + AnswerTrace(handle, limit, siteId, y, later)
  {
    var hx, hy := HandleAll(handle, xs, ticks), HandleAll(handle, ys, later);
    HandleAllConcat(handle, xs, ys, ticks, later);
    AcceptedConcat(hx, hy);
    RejectedConcat(hx, hy, 0);
    TraceConcat(siteId, hx, hy);
    RejectedShift(hy, 0, |xs|);
  }

  lemma HandleAllConcat(
      handle: Handler, xs: seq<Bytes>, ys: seq<Bytes>, ticks: nat -> Tick, later: nat -> Tick)
    requires forall i: nat :: later(i) == ticks(i + |xs|)
    ensures HandleAll(handle, xs + ys, ticks) == HandleAll(handle, xs, ticks) + HandleAll(handle, ys, later)
  {
    var all := HandleAll(handle, xs + ys, ticks);
    var hx, hy := HandleAll(handle, xs, ticks), HandleAll(handle, ys, later);
    forall i | 0 <= i < |all| ensures all[i] == (hx + hy)[i] {
      if i >= |xs| {
        assert later(i - |xs|) == ticks(i);
      }
    }
  }

  // ---- What every answer guarantees ----

  /** What is reported for one event: the repairs of the rules before the first that refuses it, then
      the rejection with that rule's reason; a malformed event reports its rejection only. */
  lemma EventTraceIsExact(c: Settings, siteId: Bytes, raw: Bytes, tick: Tick)
    ensures var h, ev := Handle(c, siteId, raw, tick), c.lib.decodeEvent(raw);
            if ev.None? then EventTrace(siteId, h) == [EventRejected(siteId, MalformedEvent)]
            else
              var judge := Judging(c, tick, ev.value);
              var k := FirstRefusal(EVENT_RULES, judge);
              EventTrace(siteId, h) ==
                RepairsOf(EVENT_RULES[..k], judge) +
                (if k < |EVENT_RULES| then [EventRejected(siteId, judge(EVENT_RULES[k]).reason)] else [])
  {
    var ev := c.lib.decodeEvent(raw);
    if ev.Some? {
      var judge := Judging(c, tick, ev.value);
      forall r ensures judge(r).reason != NoReason ==> judge(r).repairs == [] {
        RefusalIsSilent(r, c, tick, ev.value);
      }
      RunStopsAtFirst(EVENT_RULES, judge, Applying(c, tick, ev.value), EmptyEvent(siteId));
    }
  }

  /** Every row of an answer meets every column's bound, for the clock its event was checked at. */
  lemma AcceptedRowFits(c: Settings, siteId: Bytes, raw: Bytes, tick: Tick)
    requires c.limits.AllPositive()
    requires Handle(c, siteId, raw, tick).reason == NoReason
    ensures MeetsColumns(c.limits, tick.now, siteId, Handle(c, siteId, raw, tick).row)
  {
    AcceptedMeetsColumns(c, tick, c.lib.decodeEvent(raw).value, siteId);
  }

  /** Each accepted row is the row of some event. */
  lemma {:induction false} AcceptedComesFrom(hs: seq<Handled>, k: nat) returns (i: nat)
    requires k < |AcceptedOf(hs)|
    ensures i < |hs| && hs[i].reason == NoReason && AcceptedOf(hs)[k] == hs[i].row
    decreases |hs|
  {
    if hs[0].reason != NoReason {
      RejectedStep(hs, 0);
      var j := AcceptedComesFrom(hs[1..], k);
      i := j + 1;
    } else {
      AcceptedStep(hs, 0);
      i := 0;
      if k > 0 {
        var j := AcceptedComesFrom(hs[1..], k - 1);
        i := j + 1;
      }
    }
  }

  /** Whatever the request: every row that is accepted belongs to the site of the API key and meets
      every column's bound for the clock at which its event was checked. */
  lemma AnswerMeetsColumns(c: Settings, siteId: Bytes, req: IngestRequest, ticks: nat -> Tick)
    requires c.limits.AllPositive()
    ensures var a := Answer(Handling(c, siteId), c.limits.maxEventsPerRequest, siteId, req, ticks);
            a.Processed? ==>
              forall k | 0 <= k < |a.accepted| ::
                exists i: nat :: i < |req.events| && MeetsColumns(c.limits, ticks(i).now, siteId, a.accepted[k])
  {
    var handle := Handling(c, siteId);
    var hs := HandleAll(handle, req.events, ticks);
    forall k | 0 <= k < |AcceptedOf(hs)|
      ensures exists i: nat :: i < |req.events| && MeetsColumns(c.limits, ticks(i).now, siteId, AcceptedOf(hs)[k])
    {
      var i := AcceptedComesFrom(hs, k);
      assert hs[i] == handle(req.events[i], ticks(i));
      AcceptedRowFits(c, siteId, req.events[i], ticks(i));
    }
  }

  // ---- What the answer says of one event ----

  /** How many of the rejections have an index below `i`. */
  function RejectedBefore(rejected: seq<RejectedEvent>, i: nat): nat {
    if rejected == [] then 0 else (if rejected[0].index < i then 1 else 0) + RejectedBefore(rejected[1..], i)
  }

  lemma {:induction false} NoneBefore(hs: seq<Handled>, from: nat, i: nat)
    requires i <= from
    ensures RejectedBefore(RejectedOf(hs, from), i) == 0
    decreases |hs|
  {
    if hs != [] {
      NoneBefore(hs[1..], from + 1, i);
      if hs[0].reason == NoReason {
        AcceptedStep(hs, from);
      } else {
        RejectedStep(hs, from);
      }
    }
  }

  /** The two lists say what became of `h`, the event at `i`, whose index is `index`. */
  predicate IsAnswered(h: Handled, i: nat, index: nat, accepted: seq<ValidatedEvent>, rejected: seq<RejectedEvent>) {
    var before := RejectedBefore(rejected, index);
    if h.reason == NoReason then 0 <= i - before < |accepted| && accepted[i - before] == h.row
    else RejectedEvent(index, h.reason) in rejected
  }

  lemma AnsweredLater(
      h: Handled, i: nat, index: nat, row: ValidatedEvent, r: RejectedEvent,
      accepted: seq<ValidatedEvent>, rejected: seq<RejectedEvent>)
    requires IsAnswered(h, i, index, accepted, rejected)
    ensures IsAnswered(h, i + 1, index, [row] + accepted, rejected)
    ensures r.index < index ==> IsAnswered(h, i + 1, index, accepted, [r] + rejected)
  {
    assert ([r] + rejected)[1..] == rejected;
  }

  lemma {:induction false} EachIsAnswered(hs: seq<Handled>, from: nat, i: nat)
    requires i < |hs|
    ensures IsAnswered(hs[i], i, from + i, AcceptedOf(hs), RejectedOf(hs, from))
    decreases |hs|
  {
    hide RejectedOf, AcceptedOf, IsAnswered;
    if hs[0].reason == NoReason {
      AcceptedStep(hs, from);
    } else {
      RejectedStep(hs, from);
    }
    if i == 0 {
      FirstIsAnswered(hs, from);
    } else {
      var accepted, rejected := AcceptedOf(hs[1..]), RejectedOf(hs[1..], from + 1);
      EachIsAnswered(hs[1..], from + 1, i - 1);
      AnsweredLater(hs[i], i - 1, from + i, hs[0].row, RejectedEvent(from, hs[0].reason), accepted, rejected);
    }
  }

  lemma FirstIsAnswered(hs: seq<Handled>, from: nat)
    requires hs != []
    ensures IsAnswered(hs[0], 0, from, AcceptedOf(hs), RejectedOf(hs, from))
  {
    NoneBefore(hs, from, from);
    if hs[0].reason == NoReason {
      AcceptedStep(hs, from);
    } else {
      RejectedStep(hs, from);
    }
  }

  /** Of a request that is processed, the event at `i` is checked with what the clock and the id generator
      answered for it; a refused one is listed with its index and reason, and an accepted one's row stands
      after those of the accepted ones before it. */
  lemma EventIsAnswered(c: Settings, siteId: Bytes, req: IngestRequest, ticks: nat -> Tick, i: nat)
    requires Answer(Handling(c, siteId), c.limits.maxEventsPerRequest, siteId, req, ticks).Processed?
    requires i < |req.events|
    ensures var a := Answer(Handling(c, siteId), c.limits.maxEventsPerRequest, siteId, req, ticks);
            var before := RejectedBefore(a.rejected, i);
            match c.lib.decodeEvent(req.events[i])
            case None => RejectedEvent(i, MalformedEvent) in a.rejected
            case Some(ev) =>
              var o := Checked(c, ticks(i), ev, siteId);
              if o.reason == NoReason
              then 0 <= i - before < |a.accepted| && a.accepted[i - before] == o.out
              else RejectedEvent(i, o.reason) in a.rejected
  {
    hide Checked;
    var hs := HandleAll(Handling(c, siteId), req.events, ticks);
    assert hs[i] == Handle(c, siteId, req.events[i], ticks(i));
    EachIsAnswered(hs, 0, i);
  }
}
