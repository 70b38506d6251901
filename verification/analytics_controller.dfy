/**
 * The analytics controller (api/controllers/analytics.controller.js):
 * recording an event from a request, with the user-agent classifiers and the
 * post view counter, and the two admin reports built from the stored events
 * by counting, grouping, sorting and limiting. The clock is the parameter
 * `now` (milliseconds since the epoch); the database is a `Store.Db`.
 */
module AnalyticsController {
  import opened Wrappers
  import opened Text
  import opened Sorting
  import opened Reports
  import opened AnalyticsModel
  import opened PostModel
  import opened Store

  // ---------------------------------------------------------------------------
  // User-agent classifiers

  /** `getDeviceType`: "mobile" wins over "tablet", anything else is a desktop. */
  function GetDeviceType(userAgent: string): (r: DeviceType)
    ensures r == Mobile <==> Contains(Lower(userAgent), "mobile")
    ensures r == Tablet <==> !Contains(Lower(userAgent), "mobile") && Contains(Lower(userAgent), "tablet")
  {
    var ua := Lower(userAgent);
    if Contains(ua, "mobile") then Mobile
    else if Contains(ua, "tablet") then Tablet
    else Desktop
  }

  /** `getBrowser`: the first of chrome, firefox, safari, edge, opera that occurs. */
  function GetBrowser(userAgent: string): (r: string)
    ensures r in ["Chrome", "Firefox", "Safari", "Edge", "Opera", "Unknown"]
    ensures var ua := Lower(userAgent);
            && (r == "Chrome" <==> Contains(ua, "chrome"))
            && (r == "Firefox" <==> !Contains(ua, "chrome") && Contains(ua, "firefox"))
            && (r == "Safari" <==> !Contains(ua, "chrome") && !Contains(ua, "firefox") && Contains(ua, "safari"))
            && (r == "Edge" <==> !Contains(ua, "chrome") && !Contains(ua, "firefox") && !Contains(ua, "safari")
                                 && Contains(ua, "edge"))
            && (r == "Opera" <==> !Contains(ua, "chrome") && !Contains(ua, "firefox") && !Contains(ua, "safari")
                                  && !Contains(ua, "edge") && Contains(ua, "opera"))
            && (r == "Unknown" <==> !Contains(ua, "chrome") && !Contains(ua, "firefox") && !Contains(ua, "safari")
                                    && !Contains(ua, "edge") && !Contains(ua, "opera"))
  {
    var ua := Lower(userAgent);
    if Contains(ua, "chrome") then "Chrome"
    else if Contains(ua, "firefox") then "Firefox"
    else if Contains(ua, "safari") then "Safari"
    else if Contains(ua, "edge") then "Edge"
    else if Contains(ua, "opera") then "Opera"
    else "Unknown"
  }

  /** `getOS`: the first of windows, mac, linux, android, ios that occurs. */
  function GetOS(userAgent: string): (r: string)
    ensures r in ["Windows", "macOS", "Linux", "Android", "iOS", "Unknown"]
    ensures var ua := Lower(userAgent);
            && (r == "Windows" <==> Contains(ua, "windows"))
            && (r == "macOS" <==> !Contains(ua, "windows") && Contains(ua, "mac"))
            && (r == "Linux" <==> !Contains(ua, "windows") && !Contains(ua, "mac") && Contains(ua, "linux"))
            && (r == "Android" <==> !Contains(ua, "windows") && !Contains(ua, "mac") && !Contains(ua, "linux")
                                    && Contains(ua, "android"))
            && (r == "iOS" <==> !Contains(ua, "windows") && !Contains(ua, "mac") && !Contains(ua, "linux")
                                && !Contains(ua, "android") && Contains(ua, "ios"))
            && (r == "Unknown" <==> !Contains(ua, "windows") && !Contains(ua, "mac") && !Contains(ua, "linux")
                                    && !Contains(ua, "android") && !Contains(ua, "ios"))
  {
    var ua := Lower(userAgent);
    if Contains(ua, "windows") then "Windows"
    else if Contains(ua, "mac") then "macOS"
    else if Contains(ua, "linux") then "Linux"
    else if Contains(ua, "android") then "Android"
    else if Contains(ua, "ios") then "iOS"
    else "Unknown"
  }

  /** The classifiers ignore letter case, and the device type is always one the schema accepts. */
  lemma {:induction false} ClassifiersIgnoreCase(userAgent: string)
    ensures GetDeviceType(Lower(userAgent)) == GetDeviceType(userAgent)
    ensures GetBrowser(Lower(userAgent)) == GetBrowser(userAgent)
    ensures GetOS(Lower(userAgent)) == GetOS(userAgent)
    ensures ParseDeviceType(DeviceTypeName(GetDeviceType(userAgent))) == Some(GetDeviceType(userAgent))
  {
    DeviceTypeIgnoresCase(userAgent);
    BrowserIgnoresCase(userAgent);
    OSIgnoresCase(userAgent);
  }

  lemma {:induction false} DeviceTypeIgnoresCase(userAgent: string)
    ensures GetDeviceType(Lower(userAgent)) == GetDeviceType(userAgent)
  {
    LowerTwice(userAgent);
  }

  lemma {:induction false} BrowserIgnoresCase(userAgent: string)
    ensures GetBrowser(Lower(userAgent)) == GetBrowser(userAgent)
  {
    LowerTwice(userAgent);
  }

  lemma {:induction false} OSIgnoresCase(userAgent: string)
    ensures GetOS(Lower(userAgent)) == GetOS(userAgent)
  {
    LowerTwice(userAgent);
  }

  /** `getLocationFromIP`: no lookup service is consulted, so there is never a location. */
  function GetLocationFromIP(ipAddress: string): (r: Option<Location>)
    ensures r.None?
  {
    None
  }

  // ---------------------------------------------------------------------------
  // Recording an event

  /** What `trackEvent` reads from the request; `user` is the signed-in user's id, if any. */
  datatype TrackRequest = TrackRequest(
    kind: Option<string>,
    postId: Option<string>,
    page: Option<string>,
    action: Option<string>,
    searchQuery: Option<string>,
    duration: Option<int>,
    sessionID: Option<string>,
    sessionHeader: Option<string>,
    userAgentHeader: Option<string>,
    ip: Option<string>,
    remoteAddress: Option<string>,
    forwardedFor: Option<string>,
    referer: Option<string>,
    user: Option<string>)

  /** JavaScript's `a || b` on an optional string. */
  function Or(a: Option<string>, b: string): (r: string)
    ensures Truthy(a) ==> r == a.value
    ensures !Truthy(a) ==> r == b
  {
    if Truthy(a) then a.value else b
  }

  function SessionOf(req: TrackRequest): string {
    Or(req.sessionID, Or(req.sessionHeader, "anonymous"))
  }

  function UserAgentOf(req: TrackRequest): string {
    Or(req.userAgentHeader, "unknown")
  }

  function IpOf(req: TrackRequest): string {
    Or(req.ip, Or(req.remoteAddress, Or(req.forwardedFor, "unknown")))
  }

  /** The object handed to `new Analytics(...)`. */
  function TrackFields(req: TrackRequest): (f: EventFields)
    ensures f.kind == req.kind && f.page == req.page && f.postId == req.postId
    ensures f.timestamp.None?
  {
    var ua := UserAgentOf(req);
    var ip := IpOf(req);
    EventFields(
      req.kind, req.user, Some(SessionOf(req)), req.postId, req.page, req.action, req.searchQuery,
      Some(ua), Some(ip), if Truthy(req.referer) then req.referer else None,
      Some(DeviceTypeName(GetDeviceType(ua))), Some(GetBrowser(ua)), Some(GetOS(ua)),
      GetLocationFromIP(ip), req.duration, None)
  }

  /**
   * Saving the tracked event fails only for a missing or unknown `type` or a
   * missing `page`: the session, user agent and address always fall back to a
   * non-empty default, and the classified device type is always valid. The
   * stored event is classified from the user agent, carries no location and
   * is stamped with the current time.
   */
  lemma {:induction false} TrackedEvent(req: TrackRequest, now: int)
    ensures var r := CreateEvent(TrackFields(req), now);
            && (r.Ok? <==> req.kind.Some? && ParseEventType(req.kind.value).Some? && Truthy(req.page))
            && (r.Err? ==> r.error != InvalidDeviceType)
            && (r.Ok? ==>
                  && EventTypeName(r.value.kind) == req.kind.value
                  && r.value.page == req.page.value && r.value.postId == req.postId
                  && r.value.action == req.action && r.value.searchQuery == req.searchQuery
                  && r.value.device.kind == GetDeviceType(UserAgentOf(req))
                  && r.value.device.browser == Some(GetBrowser(UserAgentOf(req)))
                  && r.value.device.os == Some(GetOS(UserAgentOf(req)))
                  && r.value.location.None?
                  && r.value.timestamp == now
                  && r.value.userId == req.user
                  && (req.duration.Some? ==> r.value.duration == req.duration.value)
                  && (req.duration.None? ==> r.value.duration == 0)
                  && r.value.sessionId == (if Truthy(req.sessionID) then req.sessionID.value
                                           else if Truthy(req.sessionHeader) then req.sessionHeader.value
                                           else "anonymous")
                  && r.value.userAgent == (if Truthy(req.userAgentHeader) then req.userAgentHeader.value else "unknown")
                  && r.value.ipAddress == (if Truthy(req.ip) then req.ip.value
                                           else if Truthy(req.remoteAddress) then req.remoteAddress.value
                                           else if Truthy(req.forwardedFor) then req.forwardedFor.value
                                           else "unknown")
                  && (Truthy(req.referer) ==> r.value.referrer == req.referer)
                  && (!Truthy(req.referer) ==> r.value.referrer.None?))
  {
    ClassifiersIgnoreCase(UserAgentOf(req));
  }

  /** `type === 'post_view' && postId`: the condition for counting a view on the post. */
  predicate CountsPostView(req: TrackRequest) {
    req.kind == Some("post_view") && Truthy(req.postId)
  }

  predicate HasPost(posts: seq<Post>, id: string) {
    exists i :: 0 <= i < |posts| && posts[i].id == id
  }

  /** `Post.findByIdAndUpdate(id, { $inc: { 'stats.views': 1 } })` on the posts table. */
  function IncrementViews(posts: seq<Post>, id: string): (r: seq<Post>)
    ensures |r| == |posts|
  {
    if posts == [] then []
    else if posts[0].id == id then
      [posts[0].(stats := posts[0].stats.(views := posts[0].stats.views + 1))] + posts[1..]
    else
      [posts[0]] + IncrementViews(posts[1..], id)
  }

  /** Only view counters change, and only those of posts with the id. */
  lemma {:induction false} IncrementViewsEffect(posts: seq<Post>, id: string)
    ensures var r := IncrementViews(posts, id);
            && (forall i :: 0 <= i < |posts| ==> r[i].(stats := posts[i].stats) == posts[i])
            && (forall i :: 0 <= i < |posts| ==> r[i].stats.(views := posts[i].stats.views) == posts[i].stats)
            && (forall i :: 0 <= i < |posts| && posts[i].id != id ==> r[i] == posts[i])
  {
    if posts != [] && posts[0].id != id {
      var r := IncrementViews(posts, id);
      var t := IncrementViews(posts[1..], id);
      IncrementViewsEffect(posts[1..], id);
      assert r == [posts[0]] + t;
      forall i | 1 <= i < |posts| ensures r[i] == t[i - 1] && posts[i] == posts[1..][i - 1] {
      }
    }
  }

  /** Nothing changes when no post has the id. */
  lemma {:induction false} IncrementViewsAbsent(posts: seq<Post>, id: string)
    requires !HasPost(posts, id)
    ensures IncrementViews(posts, id) == posts
  {
    if posts != [] {
      assert posts[0].id != id;
      assert !HasPost(posts[1..], id) by {
        forall i | 0 <= i < |posts[1..]| ensures posts[1..][i].id != id {
          assert posts[1..][i] == posts[i + 1];
        }
      }
      IncrementViewsAbsent(posts[1..], id);
    }
  }

  function TotalViews(posts: seq<Post>): nat {
    if posts == [] then 0 else posts[0].stats.views + TotalViews(posts[1..])
  }

  /** A tracked post view adds exactly one view when the post exists, and none otherwise. */
  lemma {:induction false} TotalViewsCons(p: Post, ps: seq<Post>)
    ensures TotalViews([p] + ps) == p.stats.views + TotalViews(ps)
  {
    assert ([p] + ps)[1..] == ps;
  }

  lemma {:induction false} IncrementViewsTotal(posts: seq<Post>, id: string)
    ensures TotalViews(IncrementViews(posts, id)) == TotalViews(posts) + (if HasPost(posts, id) then 1 else 0)
  {
    if posts != [] && posts[0].id == id {
      var p := posts[0].(stats := posts[0].stats.(views := posts[0].stats.views + 1));
      assert IncrementViews(posts, id) == [p] + posts[1..];
      TotalViewsCons(p, posts[1..]);
      assert posts == [posts[0]] + posts[1..];
      TotalViewsCons(posts[0], posts[1..]);
      assert posts[0].id == id;
    } else if posts != [] {
      IncrementViewsTotal(posts[1..], id);
      assert IncrementViews(posts, id) == [posts[0]] + IncrementViews(posts[1..], id);
      TotalViewsCons(posts[0], IncrementViews(posts[1..], id));
      assert posts == [posts[0]] + posts[1..];
      TotalViewsCons(posts[0], posts[1..]);
      assert HasPost(posts, id) <==> HasPost(posts[1..], id) by {
        if HasPost(posts, id) {
          var i :| 0 <= i < |posts| && posts[i].id == id;
          assert posts[1..][i - 1].id == id;
        }
        if HasPost(posts[1..], id) {
          var i :| 0 <= i < |posts[1..]| && posts[1..][i].id == id;
          assert posts[i + 1].id == id;
        }
      }
    }
  }

  /**
   * `trackEvent`: the event is validated and appended; when it is a post view
   * naming a post, that post's view counter is incremented. A failed save
   * changes nothing.
   */
  method TrackEvent(db: Db, req: TrackRequest, now: int) returns (r: Result<Event, ValidationError>)
    modifies db
    ensures r == CreateEvent(TrackFields(req), now)
    ensures r.Ok? ==> db.events == old(db.events) + [r.value]
    ensures r.Err? ==> db.events == old(db.events)
    ensures db.posts == if r.Ok? && CountsPostView(req) then IncrementViews(old(db.posts), req.postId.value)
                        else old(db.posts)
    ensures db.categories == old(db.categories)
  {
    r := CreateEvent(TrackFields(req), now);
    match r {
      case Err(_) =>
      case Ok(e) =>
        db.events := db.events + [e];
        if req.kind == Some("post_view") && Truthy(req.postId) {
          db.posts := IncrementViews(db.posts, req.postId.value);
        }
    }
  }

  // ---------------------------------------------------------------------------
  // Selecting events

  const MsPerDay: int := 24 * 60 * 60 * 1000

  /** The 403 status of a non-admin request. */
  const Forbidden: nat := 403

  /** `{ type: kind }` */
  function OfKind(events: seq<Event>, kind: EventType): (r: seq<Event>)
    ensures |r| <= |events|
    ensures forall e :: e in r <==> e in events && e.kind == kind
  {
    if events == [] then []
    else (if events[0].kind == kind then [events[0]] else []) + OfKind(events[1..], kind)
  }

  /** `{ timestamp: { $gte: since } }` */
  function Since(events: seq<Event>, since: int): (r: seq<Event>)
    ensures |r| <= |events|
    ensures forall e :: e in r <==> e in events && e.timestamp >= since
  {
    if events == [] then []
    else (if events[0].timestamp >= since then [events[0]] else []) + Since(events[1..], since)
  }

  /** `{ postId }` */
  function OfPost(events: seq<Event>, postId: string): (r: seq<Event>)
    ensures |r| <= |events|
    ensures forall e :: e in r <==> e in events && e.postId == Some(postId)
  {
    if events == [] then []
    else (if events[0].postId == Some(postId) then [events[0]] else []) + OfPost(events[1..], postId)
  }

  /** The selection keeps every event of that type as often as it occurs, and no other. */
  lemma {:induction false} OfKindCount(events: seq<Event>, kind: EventType)
    ensures forall e :: multiset(OfKind(events, kind))[e] == if e.kind == kind then multiset(events)[e] else 0
  {
    if events != [] {
      OfKindCount(events[1..], kind);
      assert events == [events[0]] + events[1..];
    }
  }

  /** The window keeps every event at or after `since` as often as it occurs, and no other. */
  lemma {:induction false} SinceCount(events: seq<Event>, since: int)
    ensures forall e :: multiset(Since(events, since))[e] == if e.timestamp >= since then multiset(events)[e] else 0
  {
    if events != [] {
      SinceCount(events[1..], since);
      assert events == [events[0]] + events[1..];
    }
  }

  /** The selection keeps every event of the post as often as it occurs, and no other. */
  lemma {:induction false} OfPostCount(events: seq<Event>, postId: string)
    ensures forall e :: multiset(OfPost(events, postId))[e] == if e.postId == Some(postId) then multiset(events)[e] else 0
  {
    if events != [] {
      OfPostCount(events[1..], postId);
      assert events == [events[0]] + events[1..];
    }
  }

  /** A later window holds no more events than an earlier one. */
  lemma {:induction false} SinceShrinks(events: seq<Event>, t1: int, t2: int)
    requires t1 <= t2
    ensures |Since(events, t2)| <= |Since(events, t1)|
  {
    if events != [] {
      SinceShrinks(events[1..], t1, t2);
    }
  }

  /** Events of different types are never counted twice. */
  lemma {:induction false} KindsPartition(events: seq<Event>)
    ensures |OfKind(events, PageView)| + |OfKind(events, PostView)| + |OfKind(events, UserAction)|
            + |OfKind(events, Search)| + |OfKind(events, Error)| == |events|
  {
    if events != [] {
      KindsPartition(events[1..]);
    }
  }

  /** Restricting to one post, then to a window, keeps no more than the window alone. */
  lemma {:induction false} OfPostSince(events: seq<Event>, postId: string, since: int)
    ensures |Since(OfPost(events, postId), since)| <= |Since(events, since)|
  {
    if events != [] {
      var rest := events[1..];
      OfPostSince(rest, postId, since);
      assert Since(events, since) == (if events[0].timestamp >= since then [events[0]] else []) + Since(rest, since);
      if events[0].postId == Some(postId) {
        var sel := OfPost(events, postId);
        assert sel == [events[0]] + OfPost(rest, postId);
        assert sel[0] == events[0] && sel[1..] == OfPost(rest, postId);
        assert Since(sel, since) == (if events[0].timestamp >= since then [events[0]] else []) + Since(OfPost(rest, postId), since);
      } else {
        assert OfPost(events, postId) == OfPost(rest, postId);
      }
    }
  }

  /** `$dateToString: { format: '%Y-%m-%d' }` as a day number: whole days since the epoch, in UTC. */
  function Day(timestamp: int): int {
    timestamp / MsPerDay
  }

  /** A day number is at least the day of any earlier instant. */
  lemma {:induction false} DayMonotone(t1: int, t2: int)
    requires t1 <= t2
    ensures Day(t1) <= Day(t2)
  {
  }

  function PostIds(es: seq<Event>): (r: seq<Option<string>>)
    ensures |r| == |es| && forall i :: 0 <= i < |es| ==> r[i] == es[i].postId
  {
    seq(|es|, i requires 0 <= i < |es| => es[i].postId)
  }

  function Pages(es: seq<Event>): (r: seq<string>)
    ensures |r| == |es| && forall i :: 0 <= i < |es| ==> r[i] == es[i].page
  {
    seq(|es|, i requires 0 <= i < |es| => es[i].page)
  }

  function DeviceTypes(es: seq<Event>): (r: seq<DeviceType>)
    ensures |r| == |es| && forall i :: 0 <= i < |es| ==> r[i] == es[i].device.kind
  {
    seq(|es|, i requires 0 <= i < |es| => es[i].device.kind)
  }

  function Days(es: seq<Event>): (r: seq<int>)
    ensures |r| == |es| && forall i :: 0 <= i < |es| ==> r[i] == Day(es[i].timestamp)
  {
    seq(|es|, i requires 0 <= i < |es| => Day(es[i].timestamp))
  }

  /** The number of events satisfying `p`. */
  function CountWhere(es: seq<Event>, p: Event -> bool): nat {
    if es == [] then 0 else (if p(es[0]) then 1 else 0) + CountWhere(es[1..], p)
  }

  predicate FromCountry(e: Event, c: string) {
    e.location.Some? && e.location.value.country == Some(c)
  }

  /**
   * `{ 'location.country': { $exists: true } }` grouped by `$location.country`:
   * each country occurs once per event located in it.
   */
  function Countries(es: seq<Event>): (r: seq<string>)
    ensures |r| <= |es|
    ensures forall c :: c in r <==> exists e :: e in es && FromCountry(e, c)
  {
    if es == [] then []
    else
      var rest := Countries(es[1..]);
      var h := if es[0].location.Some? && es[0].location.value.country.Some?
               then [es[0].location.value.country.value] else [];
      assert forall c :: c in h <==> FromCountry(es[0], c);
      assert forall e :: e in es <==> e == es[0] || e in es[1..];
      h + rest
  }

  /** `{ referrer: { $exists: true, $ne: null } }` grouped by `$referrer`: each referrer once per event it referred. */
  function Referrers(es: seq<Event>): (r: seq<string>)
    ensures |r| <= |es|
    ensures forall s :: s in r <==> exists e :: e in es && e.referrer == Some(s)
  {
    if es == [] then []
    else
      var r := (if es[0].referrer.Some? then [es[0].referrer.value] else []) + Referrers(es[1..]);
      assert forall e :: e in es <==> e == es[0] || e in es[1..];
      r
  }

  /** The actions counted as engagement. */
  predicate IsEngagement(action: string) {
    action == "like" || action == "comment" || action == "share"
  }

  /** `{ action: { $in: ['like', 'comment', 'share'] } }` grouped by `$action`: each engagement action once per event. */
  function EngagementActions(es: seq<Event>): (r: seq<string>)
    ensures |r| <= |es|
    ensures forall a :: a in r <==> IsEngagement(a) && exists e :: e in es && e.action == Some(a)
  {
    if es == [] then []
    else
      var r := (if es[0].action.Some? && IsEngagement(es[0].action.value) then [es[0].action.value] else [])
               + EngagementActions(es[1..]);
      assert forall e :: e in es <==> e == es[0] || e in es[1..];
      r
  }

  /** Each country occurs once per event located in it. */
  lemma {:induction false} CountriesCount(es: seq<Event>)
    ensures forall c :: multiset(Countries(es))[c] == CountWhere(es, (e: Event) => FromCountry(e, c))
  {
    if es != [] {
      CountriesCount(es[1..]);
    }
  }

  /** Each referrer occurs once per event it referred. */
  lemma {:induction false} ReferrersCount(es: seq<Event>)
    ensures forall s :: multiset(Referrers(es))[s] == CountWhere(es, (e: Event) => e.referrer == Some(s))
  {
    if es != [] {
      ReferrersCount(es[1..]);
    }
  }

  /** Each engagement action occurs once per event recording it; other actions not at all. */
  lemma {:induction false} EngagementCount(es: seq<Event>)
    ensures forall a :: multiset(EngagementActions(es))[a] ==
                        if IsEngagement(a) then CountWhere(es, (e: Event) => e.action == Some(a)) else 0
  {
    if es != [] {
      EngagementCount(es[1..]);
    }
  }

  // ---------------------------------------------------------------------------
  // The admin dashboard

  datatype Overview = Overview(
    totalViews: nat,
    viewsLast30Days: nat,
    viewsLast7Days: nat,
    viewsLast24Hours: nat,
    postViews: nat,
    postViewsLast30Days: nat,
    userActions: nat,
    searches: nat)

  datatype Dashboard = Dashboard(
    overview: Overview,
    topPosts: seq<Group<Option<string>>>,
    topPages: seq<Group<string>>,
    deviceStats: seq<Group<DeviceType>>,
    countryStats: seq<Group<string>>,
    dailyViews: seq<Group<int>>)

  /** `getDashboardStats` over the stored events at time `now`; a non-admin gets 403. */
  function DashboardStats(isAdmin: bool, events: seq<Event>, now: int): (r: Result<Dashboard, nat>)
    ensures r.Err? <==> !isAdmin
    ensures r.Err? ==> r.error == Forbidden
    ensures r.Ok? ==> var d := r.value; var o := d.overview;
              var pageViews := OfKind(events, PageView); var postViews := OfKind(events, PostView);
              && o.totalViews == |pageViews| && o.postViews == |postViews|
              && o.viewsLast30Days == |Since(pageViews, now - 30 * MsPerDay)|
              && o.viewsLast7Days == |Since(pageViews, now - 7 * MsPerDay)|
              && o.viewsLast24Hours == |Since(pageViews, now - MsPerDay)|
              && o.postViewsLast30Days == |Since(postViews, now - 30 * MsPerDay)|
              && o.userActions == |OfKind(events, UserAction)| && o.searches == |OfKind(events, Search)|
              && IsTop(d.topPosts, PostIds(postViews), 10)
              && IsTop(d.topPages, Pages(pageViews), 10)
              && IsComplete(d.deviceStats, DeviceTypes(pageViews)) && SortedBy(d.deviceStats, ByCountDesc)
              && IsTop(d.countryStats, Countries(pageViews), 10)
              && IsComplete(d.dailyViews, Days(Since(pageViews, now - 30 * MsPerDay)))
              && (forall i, j :: 0 <= i < j < |d.dailyViews| ==> d.dailyViews[i].key < d.dailyViews[j].key)
  {
    if !isAdmin then Err(Forbidden)
    else
      var pageViews := OfKind(events, PageView);
      var postViews := OfKind(events, PostView);
      var last30Days := now - 30 * MsPerDay;
      var last7Days := now - 7 * MsPerDay;
      var last24Hours := now - MsPerDay;
      var overview := Overview(
        |pageViews|,
        |Since(pageViews, last30Days)|,
        |Since(pageViews, last7Days)|,
        |Since(pageViews, last24Hours)|,
        |postViews|,
        |Since(postViews, last30Days)|,
        |OfKind(events, UserAction)|,
        |OfKind(events, Search)|);
      Ok(Dashboard(
        overview,
        TopCounts(PostIds(postViews), 10),
        TopCounts(Pages(pageViews), 10),
        RankedCounts(DeviceTypes(pageViews)),
        TopCounts(Countries(pageViews), 10),
        CountsByKey(Days(Since(pageViews, last30Days)))))
  }

  /**
   * The overview's counters are consistent: a narrower window never counts
   * more, and the four event types counted are disjoint parts of the collection.
   */
  lemma {:induction false} OverviewConsistent(events: seq<Event>, now: int)
    ensures var o := DashboardStats(true, events, now).value.overview;
            && o.viewsLast24Hours <= o.viewsLast7Days <= o.viewsLast30Days <= o.totalViews
            && o.postViewsLast30Days <= o.postViews
            && o.totalViews + o.postViews + o.userActions + o.searches <= |events|
  {
    var pageViews := OfKind(events, PageView);
    SinceShrinks(pageViews, now - 30 * MsPerDay, now - 7 * MsPerDay);
    SinceShrinks(pageViews, now - 7 * MsPerDay, now - MsPerDay);
    KindsPartition(events);
  }

  /**
   * The device breakdown and the daily views lose no page view: their counts
   * add up to the total views and to the views of the last 30 days, and every
   * day reported lies within the window.
   */
  lemma {:induction false} DashboardBreakdownsComplete(events: seq<Event>, now: int)
    ensures var d := DashboardStats(true, events, now).value;
            && Total(d.deviceStats) == d.overview.totalViews
            && Total(d.dailyViews) == d.overview.viewsLast30Days
            && forall g :: g in d.dailyViews ==> g.key >= Day(now - 30 * MsPerDay)
  {
    var pageViews := OfKind(events, PageView);
    var recent := Since(pageViews, now - 30 * MsPerDay);
    RankedCountsTotal(DeviceTypes(pageViews));
    CountsByKeyTotal(Days(recent));
    var d := DashboardStats(true, events, now).value;
    forall g | g in d.dailyViews ensures g.key >= Day(now - 30 * MsPerDay) {
      assert g.key in KeysOf(d.dailyViews);
      var i :| 0 <= i < |recent| && Days(recent)[i] == g.key;
      assert recent[i] in recent;
      DayMonotone(now - 30 * MsPerDay, recent[i].timestamp);
    }
  }

  lemma {:induction false} NoLocationNoCountries(es: seq<Event>)
    requires forall e :: e in es ==> e.location.None?
    ensures Countries(es) == []
  {
    if es != [] {
      assert es[0] in es;
      assert forall e :: e in es[1..] ==> e in es;
      NoLocationNoCountries(es[1..]);
    }
  }

  /**
   * Since no event is ever given a location, the country breakdown of such a
   * collection is always empty.
   */
  lemma {:induction false} CountryStatsEmpty(events: seq<Event>, now: int)
    requires forall e :: e in events ==> e.location.None?
    ensures DashboardStats(true, events, now).value.countryStats == []
  {
    var pageViews := OfKind(events, PageView);
    NoLocationNoCountries(pageViews);
    var cs := DashboardStats(true, events, now).value.countryStats;
    assert CountsIn(cs, []);
  }

  // ---------------------------------------------------------------------------
  // Per-post analytics

  datatype PostReport = PostReport(
    viewsOverTime: seq<Group<int>>,
    engagement: seq<Group<string>>,
    referrers: seq<Group<string>>)

  /** `getPostAnalytics` for `postId` at time `now`; a non-admin gets 403. */
  function PostAnalytics(isAdmin: bool, postId: string, events: seq<Event>, now: int): (r: Result<PostReport, nat>)
    ensures r.Err? <==> !isAdmin
    ensures r.Err? ==> r.error == Forbidden
    ensures r.Ok? ==> var p := r.value;
              var views := OfPost(OfKind(events, PostView), postId);
              && IsComplete(p.viewsOverTime, Days(Since(views, now - 30 * MsPerDay)))
              && (forall i, j :: 0 <= i < j < |p.viewsOverTime| ==> p.viewsOverTime[i].key < p.viewsOverTime[j].key)
              && IsComplete(p.engagement, EngagementActions(OfPost(OfKind(events, UserAction), postId)))
              && IsTop(p.referrers, Referrers(views), 10)
  {
    if !isAdmin then Err(Forbidden)
    else
      var views := OfPost(OfKind(events, PostView), postId);
      var actions := OfPost(OfKind(events, UserAction), postId);
      var groups := GroupCount(EngagementActions(actions));
      Ok(PostReport(
        CountsByKey(Days(Since(views, now - 30 * MsPerDay))),
        groups,
        TopCounts(Referrers(views), 10)))
  }

  /** No value occurs twice, so there are no more values than the set they come from. */
  lemma {:induction false} DistinctWithin<T>(s: seq<T>, values: set<T>)
    requires Distinct(s) && forall x :: x in s ==> x in values
    ensures |s| <= |values|
  {
    if s != [] {
      assert forall x :: x in s[1..] ==> x in values - {s[0]} by {
        forall x | x in s[1..] ensures x in values - {s[0]} {
          var j :| 1 <= j < |s| && s[j] == x;
        }
      }
      DistinctWithin(s[1..], values - {s[0]});
    }
  }

  /** Engagement counts at most the three engagement actions, each once, and only the post's own actions. */
  lemma {:induction false} EngagementBounds(postId: string, events: seq<Event>, now: int)
    ensures var p := PostAnalytics(true, postId, events, now).value;
            && |p.engagement| <= 3
            && (forall g :: g in p.engagement ==> IsEngagement(g.key))
            && Total(p.engagement) <= |OfPost(OfKind(events, UserAction), postId)|
  {
    var es := OfPost(OfKind(events, UserAction), postId);
    assert PostAnalytics(true, postId, events, now).value.engagement == GroupCount(EngagementActions(es));
    GroupedEngagement(es);
  }

  lemma {:induction false} GroupedEngagement(es: seq<Event>)
    ensures var gs := GroupCount(EngagementActions(es));
            && |gs| <= 3
            && (forall g :: g in gs ==> IsEngagement(g.key))
            && Total(gs) <= |es|
  {
    var actions := EngagementActions(es);
    var gs := GroupCount(actions);
    var keys := KeysOf(gs);
    forall x | x in keys ensures x in {"like", "comment", "share"} {
      assert x in actions;
    }
    DistinctWithin(keys, {"like", "comment", "share"});
    forall g | g in gs ensures IsEngagement(g.key) {
      assert g.key in keys;
    }
    TotalGroupCount(actions);
  }

  /**
   * A post's views over time never exceed the dashboard's post views in the
   * same window, and its referred views never exceed its views.
   */
  lemma {:induction false} PostViewsBounds(postId: string, events: seq<Event>, now: int)
    ensures var p := PostAnalytics(true, postId, events, now).value;
            && Total(p.viewsOverTime) <= DashboardStats(true, events, now).value.overview.postViewsLast30Days
            && Total(p.referrers) <= |OfPost(OfKind(events, PostView), postId)|
  {
    var views := OfPost(OfKind(events, PostView), postId);
    var p := PostAnalytics(true, postId, events, now).value;
    assert p.viewsOverTime == CountsByKey(Days(Since(views, now - 30 * MsPerDay)));
    assert p.referrers == Take(RankedCounts(Referrers(views)), 10);
    CountsByKeyTotal(Days(Since(views, now - 30 * MsPerDay)));
    OfPostSince(OfKind(events, PostView), postId, now - 30 * MsPerDay);
    RankedCountsTotal(Referrers(views));
    TakeTotal(RankedCounts(Referrers(views)), 10);
  }
}
