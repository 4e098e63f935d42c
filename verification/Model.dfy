/** The events as a client sends them and as they are stored, and what is reported in between. */
module Model {
  import opened Bytes
  import opened Sanitize

  /** A point in time, in nanoseconds. */
  type Instant = int

  datatype Uuid = Uuid(bytes: Bytes)

  datatype Device = Unset | Desktop | Mobile | Tablet | Bot | Unknown

  datatype Utm = Utm(source: Bytes, medium: Bytes, campaign: Bytes)

  /** One decoded event, exactly as the client sent it. */
  datatype Event = Event(
    eventId: Bytes, event: Bytes, userId: Bytes, sessionId: Bytes, timestamp: Bytes, page: Bytes,
    referrer: Bytes, utm: Utm, device: Bytes, os: Bytes, browser: Bytes, country: Bytes, city: Bytes,
    revenue: Bytes, currency: Bytes, screen: Bytes, properties: Bytes)

  /** One row of the events table. */
  datatype ValidatedEvent = ValidatedEvent(
    eventTime: Instant, ingestedAt: Instant, siteId: Bytes, eventId: Uuid, eventName: Bytes,
    userId: Bytes, sessionId: Bytes, page: Bytes, referrer: Bytes, utmSource: Bytes, utmMedium: Bytes,
    utmCampaign: Bytes, country: Bytes, city: Bytes, device: Device, os: Bytes, browser: Bytes,
    revenue: Bytes, currency: Bytes, properties: Bytes)

  const ZERO_TIME: Instant := 0
  const ZERO_UUID := Uuid([0, 0, 0, 0, 0, 0, 0, 0, 0, 0, 0, 0, 0, 0, 0, 0])

  /** The row before any rule has written to it. */
  function EmptyEvent(siteId: Bytes): ValidatedEvent {
    ValidatedEvent(ZERO_TIME, ZERO_TIME, siteId, ZERO_UUID, [], [], [], [], [], [], [], [], [], [], Unset,
                   [], [], [], [], [])
  }

  /** `{}` */
  const EMPTY_PROPERTIES: Bytes := [LEFT_BRACE, RIGHT_BRACE]

  /** `null` */
  const NULL_PROPERTIES: Bytes := [0x6E, 0x75, 0x6C, 0x6C]

  /** `VND` */
  const DEFAULT_CURRENCY: Bytes := [0x56, 0x4E, 0x44]

  datatype Reason =
    | NoReason
    | MalformedEvent
    | MissingEventName
    | InvalidEventName
    | InvalidEventId
    | InvalidTimestamp
    | InvalidProperties
    | PropertiesTooLarge
    | InvalidRevenue

  datatype Field =
    | EventIdField | TimestampField | UserIdField | SessionIdField | PageField | ReferrerField
    | UtmSourceField | UtmMediumField | UtmCampaignField | CountryField | CityField | DeviceField
    | OsField | BrowserField | CurrencyField

  datatype Repair = WasTruncated | WasStripped | WasDefaulted | WasNormalised

  datatype Skew = Future | Past

  /** What an observer is told. */
  datatype Observation =
    | EventRejected(siteId: Bytes, reason: Reason)
    | FieldRepaired(field: Field, repair: Repair)
    | ClockSkewed(direction: Skew)

  datatype RejectedEvent = RejectedEvent(index: nat, reason: Reason)

  datatype IngestRequest = IngestRequest(siteId: Bytes, events: seq<Bytes>)

  datatype RequestError = EmptyBatch | BatchTooLarge | SiteIdMismatch

  datatype Result =
    | Refused(error: RequestError)
    | Processed(accepted: seq<ValidatedEvent>, rejected: seq<RejectedEvent>)

  /** What the code relies on but does not define: case mappings, the UUID and RFC 3339 parsers,
      the decoding of one JSON event, and the URL library. */
  datatype Library = Library(
    toLower: Bytes -> Bytes, toUpper: Bytes -> Bytes, parseUuid: Bytes -> Option<Uuid>,
    parseTime: Bytes -> Option<Instant>, decodeEvent: Bytes -> Option<Event>,
    url: UrlLibrary)

  /** What the clock and the id generator answer while one event is being checked. */
  datatype Tick = Tick(now: Instant, newId: Option<Uuid>)
}
