/** The thirteen numbers that a validator is configured with, and their defaults. */
module Limits {
  datatype Limits = Limits(
    maxEventsPerRequest: int, maxEventNameLen: int, maxUserIdLen: int, maxSessionIdLen: int,
    maxPageLen: int, maxReferrerLen: int, maxLabelLen: int, maxCityLen: int, maxPropertiesBytes: int,
    revenuePrecision: int, revenueScale: int, futureSkew: int, pastSkew: int)
  {
    /** The bounds one by one, in the order they are declared. */
    function Bounds(): (r: seq<int>)
      ensures |r| == 13
    {
      [maxEventsPerRequest, maxEventNameLen, maxUserIdLen, maxSessionIdLen, maxPageLen, maxReferrerLen,
       maxLabelLen, maxCityLen, maxPropertiesBytes, revenuePrecision, revenueScale, futureSkew, pastSkew]
    }

    predicate AllPositive() {
      forall i | 0 <= i < |Bounds()| :: Bounds()[i] > 0
    }
  }

  const HOUR := 3600 * 1000000000

  const DEFAULT := Limits(500, 64, 128, 128, 2048, 2048, 64, 128, 8192, 18, 4, 24 * HOUR, 30 * 24 * HOUR)

  function OrDefault(value: int, fallback: int): int {
    if value <= 0 then fallback else value
  }

  /** Goes through the fields one after the other and leaves none of them below one. */
  method WithDefaults(limits: Limits) returns (l: Limits)
    ensures l.AllPositive()
    ensures forall i | 0 <= i < 13 ::
              l.Bounds()[i] == if limits.Bounds()[i] > 0 then limits.Bounds()[i] else DEFAULT.Bounds()[i]
  {
    l := limits;
    l := l.(maxEventsPerRequest := OrDefault(l.maxEventsPerRequest, DEFAULT.maxEventsPerRequest));
    l := l.(maxEventNameLen := OrDefault(l.maxEventNameLen, DEFAULT.maxEventNameLen));
    l := l.(maxUserIdLen := OrDefault(l.maxUserIdLen, DEFAULT.maxUserIdLen));
    l := l.(maxSessionIdLen := OrDefault(l.maxSessionIdLen, DEFAULT.maxSessionIdLen));
    l := l.(maxPageLen := OrDefault(l.maxPageLen, DEFAULT.maxPageLen));
    l := l.(maxReferrerLen := OrDefault(l.maxReferrerLen, DEFAULT.maxReferrerLen));
    l := l.(maxLabelLen := OrDefault(l.maxLabelLen, DEFAULT.maxLabelLen));
    l := l.(maxCityLen := OrDefault(l.maxCityLen, DEFAULT.maxCityLen));
    l := l.(maxPropertiesBytes := OrDefault(l.maxPropertiesBytes, DEFAULT.maxPropertiesBytes));
    l := l.(revenuePrecision := OrDefault(l.revenuePrecision, DEFAULT.revenuePrecision));
    l := l.(revenueScale := OrDefault(l.revenueScale, DEFAULT.revenueScale));
    l := l.(futureSkew := OrDefault(l.futureSkew, DEFAULT.futureSkew));
    l := l.(pastSkew := OrDefault(l.pastSkew, DEFAULT.pastSkew));
  }

  /** The bounds by their names: what is left unset becomes the shipped contract. */
  lemma UnsetIsShipped(limits: Limits, l: Limits)
    requires forall i | 0 <= i < 13 ::
               l.Bounds()[i] == if limits.Bounds()[i] > 0 then limits.Bounds()[i] else DEFAULT.Bounds()[i]
    ensures limits.maxEventsPerRequest <= 0 ==> l.maxEventsPerRequest == 500
    ensures limits.maxEventNameLen <= 0 ==> l.maxEventNameLen == 64
    ensures limits.maxUserIdLen <= 0 ==> l.maxUserIdLen == 128
    ensures limits.maxSessionIdLen <= 0 ==> l.maxSessionIdLen == 128
    ensures limits.maxPageLen <= 0 ==> l.maxPageLen == 2048
    ensures limits.maxReferrerLen <= 0 ==> l.maxReferrerLen == 2048
    ensures limits.maxLabelLen <= 0 ==> l.maxLabelLen == 64
    ensures limits.maxCityLen <= 0 ==> l.maxCityLen == 128
    ensures limits.maxPropertiesBytes <= 0 ==> l.maxPropertiesBytes == 8192
    ensures limits.revenuePrecision <= 0 ==> l.revenuePrecision == 18
    ensures limits.revenueScale <= 0 ==> l.revenueScale == 4
    ensures limits.futureSkew <= 0 ==> l.futureSkew == 24 * HOUR
    ensures limits.pastSkew <= 0 ==> l.pastSkew == 30 * 24 * HOUR
  {
    var b := l.Bounds();
    assert b[0] == l.maxEventsPerRequest && b[1] == l.maxEventNameLen && b[2] == l.maxUserIdLen;
    assert b[3] == l.maxSessionIdLen && b[4] == l.maxPageLen && b[5] == l.maxReferrerLen && b[6] == l.maxLabelLen;
    assert b[7] == l.maxCityLen && b[8] == l.maxPropertiesBytes && b[9] == l.revenuePrecision;
    assert b[10] == l.revenueScale && b[11] == l.futureSkew && b[12] == l.pastSkew;
  }
}
