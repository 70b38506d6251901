/**
 * The analytics event record (api/models/analytics.model.js): its enumerations,
 * its required fields and the defaults Mongoose fills in when a document is
 * created. Free-form `metadata` and the screen size are not modelled.
 */
module AnalyticsModel {
  import opened Wrappers
  import opened Text

  /** The `type` enumeration. */
  datatype EventType = PageView | PostView | UserAction | Search | Error

  /** The `device.type` enumeration. */
  datatype DeviceType = Desktop | Mobile | Tablet

  datatype Device = Device(kind: DeviceType, browser: Option<string>, os: Option<string>)

  datatype Location = Location(country: Option<string>, region: Option<string>,
                               city: Option<string>, timezone: Option<string>)

  /** A stored analytics document; `timestamp` is in milliseconds since the epoch. */
  datatype Event = Event(
    kind: EventType,
    userId: Option<string>,
    sessionId: string,
    postId: Option<string>,
    page: string,
    action: Option<string>,
    searchQuery: Option<string>,
    userAgent: string,
    ipAddress: string,
    referrer: Option<string>,
    device: Device,
    location: Option<Location>,
    duration: int,
    timestamp: int)

  /** The fields handed to `new Analytics(...)`, each possibly missing. */
  datatype EventFields = EventFields(
    kind: Option<string>,
    userId: Option<string>,
    sessionId: Option<string>,
    postId: Option<string>,
    page: Option<string>,
    action: Option<string>,
    searchQuery: Option<string>,
    userAgent: Option<string>,
    ipAddress: Option<string>,
    referrer: Option<string>,
    deviceType: Option<string>,
    browser: Option<string>,
    os: Option<string>,
    location: Option<Location>,
    duration: Option<int>,
    timestamp: Option<int>)

  datatype ValidationError =
    | InvalidType        // `type` missing or outside the enumeration
    | InvalidDeviceType  // `device.type` outside the enumeration
    | MissingRequired    // one of sessionId, page, userAgent, ipAddress missing or empty

  function EventTypeName(t: EventType): string {
    match t
    case PageView => "page_view"
    case PostView => "post_view"
    case UserAction => "user_action"
    case Search => "search"
    case Error => "error"
  }

  /** The enum validator of `type`. */
  function ParseEventType(s: string): (r: Option<EventType>)
    ensures r.Some? ==> EventTypeName(r.value) == s
  {
    if s == "page_view" then Some(PageView)
    else if s == "post_view" then Some(PostView)
    else if s == "user_action" then Some(UserAction)
    else if s == "search" then Some(Search)
    else if s == "error" then Some(Error)
    else None
  }

  /** The enumeration's names are exactly the accepted `type` strings. */
  lemma {:induction false} ParseEventTypeName(t: EventType)
    ensures ParseEventType(EventTypeName(t)) == Some(t)
  {
  }

  function DeviceTypeName(d: DeviceType): string {
    match d
    case Desktop => "desktop"
    case Mobile => "mobile"
    case Tablet => "tablet"
  }

  /** The enum validator of `device.type`. */
  function ParseDeviceType(s: string): (r: Option<DeviceType>)
    ensures r.Some? ==> DeviceTypeName(r.value) == s
    ensures forall d :: DeviceTypeName(d) == s ==> r == Some(d)
  {
    if s == "desktop" then Some(Desktop)
    else if s == "mobile" then Some(Mobile)
    else if s == "tablet" then Some(Tablet)
    else None
  }

  /**
   * Document creation and validation: the enumerations and required fields
   * are checked, and missing fields take their defaults (null, `desktop`,
   * a duration of 0, a timestamp of `now`).
   */
  function CreateEvent(f: EventFields, now: int): (r: Result<Event, ValidationError>)
    ensures r.Ok? <==> && f.kind.Some? && ParseEventType(f.kind.value).Some?
                       && (f.deviceType.Some? ==> ParseDeviceType(f.deviceType.value).Some?)
                       && Truthy(f.sessionId) && Truthy(f.page)
                       && Truthy(f.userAgent) && Truthy(f.ipAddress)
    ensures r.Ok? ==> var e := r.value;
              && EventTypeName(e.kind) == f.kind.value
              && e.sessionId != "" && e.page != "" && e.userAgent != "" && e.ipAddress != ""
              && e.sessionId == f.sessionId.value && e.page == f.page.value
              && e.userAgent == f.userAgent.value && e.ipAddress == f.ipAddress.value
              && e.userId == f.userId && e.postId == f.postId && e.action == f.action
              && e.searchQuery == f.searchQuery && e.referrer == f.referrer && e.location == f.location
              && e.device.browser == f.browser && e.device.os == f.os
              && (f.deviceType.Some? ==> DeviceTypeName(e.device.kind) == f.deviceType.value)
              && (f.deviceType.None? ==> e.device.kind == Desktop)
              && (f.duration.Some? ==> e.duration == f.duration.value)
              && (f.duration.None? ==> e.duration == 0)
              && (f.timestamp.Some? ==> e.timestamp == f.timestamp.value)
              && (f.timestamp.None? ==> e.timestamp == now)
  {
    if f.kind.None? || ParseEventType(f.kind.value).None? then Err(InvalidType)
    else if f.deviceType.Some? && ParseDeviceType(f.deviceType.value).None? then Err(InvalidDeviceType)
    else if !(Truthy(f.sessionId) && Truthy(f.page) && Truthy(f.userAgent) && Truthy(f.ipAddress)) then
      Err(MissingRequired)
    else
      var kind := if f.deviceType.Some? then ParseDeviceType(f.deviceType.value).value else Desktop;
      Ok(Event(
        ParseEventType(f.kind.value).value,
        f.userId, f.sessionId.value, f.postId, f.page.value, f.action, f.searchQuery,
        f.userAgent.value, f.ipAddress.value, f.referrer,
        Device(kind, f.browser, f.os),
        f.location,
        if f.duration.Some? then f.duration.value else 0,
        if f.timestamp.Some? then f.timestamp.value else now))
  }
}
