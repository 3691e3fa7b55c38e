/** The background worker: message dispatch, the per-domain analysis table and
    the badge, its own tracking-cookie test and the removals it issues, the
    install defaults, the export summary and the weekly cleanup. Browser calls
    are the effects these functions return; their failures are given flags or
    predicates; the clock is a parameter. */
module Background {
  import opened Wrappers
  import opened Strings
  import opened Cookies
  import PageAnalysis
  import Popup

  // ---------------------------------------------------------------------------
  // handleInstallation

  /** The settings written to sync storage on a first install. */
  datatype InstallDefaults = InstallDefaults(autoDeclineEnabled: bool, blockTrackingCookies: bool,
                                             showNotifications: bool, privacyLevel: string)

  /** What `handleInstallation` does: write the defaults and open the welcome page. */
  datatype InstallEffect = InstallEffect(defaults: Option<InstallDefaults>, opensWelcome: bool)

  /** The defaults of a first install: every switch on, privacy level "medium". */
  const Defaults := InstallDefaults(true, true, true, "medium")

  /** `handleInstallation(details)`: only the reason "install" writes the defaults
      and opens the welcome page; updates and other reasons do nothing. */
  function HandleInstallation(reason: string): (r: InstallEffect)
    ensures r.defaults.Some? <==> reason == "install"
    ensures r.opensWelcome <==> r.defaults.Some?
    ensures r.defaults.Some? ==> r.defaults.value.autoDeclineEnabled && r.defaults.value.blockTrackingCookies
                                 && r.defaults.value.showNotifications && r.defaults.value.privacyLevel == "medium"
  {
    if reason == "install" then InstallEffect(Some(Defaults), true) else InstallEffect(None, false)
  }

  // ---------------------------------------------------------------------------
  // handleMessage

  /** The handlers `handleMessage` dispatches to. */
  datatype Handler = ProcessPageAnalysisHandler | HandleTrackingCookieHandler | GetCookieAnalysisHandler
                   | UpdateSettingsHandler | ExportAllDataHandler | HandleSettingsUpdateHandler
  {
    /** The `action` string that selects the handler. */
    function Action(): string {
      match this
      case ProcessPageAnalysisHandler => "pageAnalyzed"
      case HandleTrackingCookieHandler => "trackingCookieDetected"
      case GetCookieAnalysisHandler => "getCookieAnalysis"
      case UpdateSettingsHandler => "updateSettings"
      case ExportAllDataHandler => "exportAllData"
      case HandleSettingsUpdateHandler => "settingsUpdated"
    }

    /** Whether the handler answers later, keeping the message channel open
        (`return true`), rather than with an immediate `{success: true}`. */
    predicate AnswersLater() {
      this == GetCookieAnalysisHandler || this == UpdateSettingsHandler || this == ExportAllDataHandler
    }
  }

  /** The reply of `handleMessage`: a handler ran (now or later), or the action is unknown. */
  datatype Reply = Dispatched(handler: Handler) | UnknownAction

  /** `handleMessage(request, ...)`: the `switch` on `request.action`. */
  function HandleMessage(action: string): (r: Reply)
    ensures r.Dispatched? ==> r.handler.Action() == action
    ensures r.Dispatched? ==> (r.handler.AnswersLater() <==> action in ["getCookieAnalysis", "updateSettings", "exportAllData"])
  {
    match action
    case "pageAnalyzed" => Dispatched(ProcessPageAnalysisHandler)
    case "trackingCookieDetected" => Dispatched(HandleTrackingCookieHandler)
    case "getCookieAnalysis" => Dispatched(GetCookieAnalysisHandler)
    case "updateSettings" => Dispatched(UpdateSettingsHandler)
    case "exportAllData" => Dispatched(ExportAllDataHandler)
    case "settingsUpdated" => Dispatched(HandleSettingsUpdateHandler)
    case _ => UnknownAction
  }

  /** Every handler is reachable by its own action, and only an action that names
      no handler gets the "Unknown action" error. */
  lemma DispatchRoundTrip(h: Handler, action: string)
    ensures HandleMessage(h.Action()) == Dispatched(h)
    ensures HandleMessage(action) == UnknownAction <==> forall g: Handler :: g.Action() != action
  {
    if HandleMessage(action) != UnknownAction {
      assert HandleMessage(action).handler.Action() == action;
    } else {
      forall g: Handler ensures g.Action() != action {
        assert HandleMessage(g.Action()) == Dispatched(g);
      }
    }
  }

  // ---------------------------------------------------------------------------
  // processPageAnalysis, getCookieAnalysis, the badge

  /** The fields of a page analysis the worker reads. */
  datatype PageReport = PageReport(domain: string, cookieCount: nat, trackingScripts: nat)

  /** A database record: the analysis with its tab and the time it was stored. */
  datatype StoredReport = StoredReport(report: PageReport, tabId: int, lastAnalyzed: int)

  /** The effects of `processPageAnalysis`. */
  datatype Processed = Processed(
    database: map<string, StoredReport>,  // cookieDatabase after the `set`
    badgeText: string,                    // setBadgeText
    badgeColor: string,                   // setBadgeBackgroundColor
    notification: Option<(string, nat)>   // showTrackingNotification(domain, count), if any
  )

  /** `cookieCount > 99 ? '99+' : cookieCount.toString()`. */
  function BadgeText(count: nat): (text: string)
    ensures text == "99+" <==> count > 99
    ensures count <= 99 ==> 1 <= |text| <= 2 && forall i :: 0 <= i < |text| ==> '0' <= text[i] <= '9'
    ensures count <= 99 ==> (text[0] == '0' ==> count == 0)
  {
    if count > 99 then "99+" else NatToString(count)
  }

  /** The badge shows the count itself up to 99: the text reads back as the count. */
  lemma BadgeTextReadsBack(count: nat)
    requires count <= 99
    ensures ParseDecimal(BadgeText(count)) == count
  {
    NatToStringRoundTrip(count);
  }

  const Green := "#48bb78"
  const Orange := "#ed8936"
  const Red := "#f56565"

  /** `getPrivacyScoreColor(analysis)`: the ratio of tracking scripts to
      `max(cookie count, 1)` against 0.2 and 0.5, as an exact rational. */
  function ScoreColor(trackingScripts: nat, cookieCount: nat): (color: string)
    ensures color == Green <==> 5 * trackingScripts < Popup.Divisor(cookieCount)
    ensures color == Red <==> 2 * trackingScripts >= Popup.Divisor(cookieCount)
    ensures color == Orange <==> 5 * trackingScripts >= Popup.Divisor(cookieCount) && 2 * trackingScripts < Popup.Divisor(cookieCount)
  {
    var d := Popup.Divisor(cookieCount);
    Popup.RatioBelow(trackingScripts, d, 5);
    Popup.RatioBelow(trackingScripts, d, 2);
    var ratio := trackingScripts as real / d as real;
    if ratio < 0.2 then Green else if ratio < 0.5 then Orange else Red
  }

  /** The badge colour of a score. */
  function ColorOf(s: Popup.Score): string {
    match s
    case Good => Green
    case Medium => Orange
    case Bad => Red
  }

  /** The badge colour uses the popup's thresholds: green, orange and red are the
      popup's good, medium and bad for the same two counts (the worker feeds it
      tracking scripts, the popup tracking cookies). */
  lemma ColorMatchesPopupScore(tracking: nat, count: nat)
    ensures ScoreColor(tracking, count) == ColorOf(Popup.CalculatePrivacyScore(tracking, count))
  {
  }

  /** `processPageAnalysis(analysis, tab)`: store the record under the domain, set
      the badge, and notify when notifications are on and scripts track. */
  function ProcessPageAnalysis(db: map<string, StoredReport>, report: PageReport, tabId: int, now: int,
                               showNotifications: bool): (r: Processed)
    ensures r.database.Keys == db.Keys + {report.domain}
    ensures r.database[report.domain] == StoredReport(report, tabId, now)
    ensures forall d :: d in db && d != report.domain ==> r.database[d] == db[d]
    ensures r.notification.Some? <==> showNotifications && report.trackingScripts > 0
    ensures r.notification.Some? ==> r.notification.value == (report.domain, report.trackingScripts)
    ensures r.badgeText == BadgeText(report.cookieCount)
    ensures r.badgeColor == ScoreColor(report.trackingScripts, report.cookieCount)
  {
    Processed(db[report.domain := StoredReport(report, tabId, now)],
              BadgeText(report.cookieCount),
              ScoreColor(report.trackingScripts, report.cookieCount),
              if showNotifications && report.trackingScripts > 0 then Some((report.domain, report.trackingScripts)) else None)
  }

  /** `getCookieAnalysis(domain)`: the stored record, or `null`. */
  function GetCookieAnalysis(db: map<string, StoredReport>, domain: string): (r: Option<StoredReport>)
    ensures r.Some? <==> domain in db
    ensures r.Some? ==> r.value == db[domain]
  {
    if domain in db then Some(db[domain]) else None
  }

  /** The last analysis stored for a domain is the one read back; other domains
      read as before. */
  lemma StoreThenGet(db: map<string, StoredReport>, report: PageReport, tabId: int, now: int,
                     show: bool, other: string)
    ensures GetCookieAnalysis(ProcessPageAnalysis(db, report, tabId, now, show).database, report.domain)
      == Some(StoredReport(report, tabId, now))
    ensures other != report.domain ==>
      GetCookieAnalysis(ProcessPageAnalysis(db, report, tabId, now, show).database, other) == GetCookieAnalysis(db, other)
  {
  }

  // ---------------------------------------------------------------------------
  // isTrackingCookie

  /** The worker's tracking patterns, as written in the source (each is lower-cased
      before the test). */
  const BackgroundTrackingPatterns: seq<string> := [
    "_ga", "_gid", "_gat", "_fbp", "_fbc", "__utm", "ads", "doubleclick",
    "_hjid", "_hjSession", "mp_", "_fs_uid"
  ]

  /** `isTrackingCookie(cookie)`: the lower-cased name contains some lower-cased pattern. */
  predicate BackgroundIsTracking(name: string) {
    exists i :: 0 <= i < |BackgroundTrackingPatterns| && Contains(Lower(name), Lower(BackgroundTrackingPatterns[i]))
  }

  /** Whatever two pattern lists, the test with the second catches every name the
      test with the first catches, when each pattern of the first is a lower-cased
      pattern of the second. */
  lemma PatternsCovered(name: string, ps: seq<string>, qs: seq<string>, i: nat, j: nat)
    requires i < |ps| && j < |qs| && Lower(qs[j]) == ps[i]
    requires Contains(Lower(name), ps[i])
    ensures exists k :: 0 <= k < |qs| && Contains(Lower(name), Lower(qs[k]))
  {
  }

  /** The worker's test catches every name the content script's test catches: each
      content pattern is one of the worker's. */
  lemma ContentTrackingIsBackgroundTracking(name: string)
    requires PageAnalysis.ContentIsTracking(name)
    ensures BackgroundIsTracking(name)
  {
    var cs := PageAnalysis.ContentTrackingPatterns;
    var bs := BackgroundTrackingPatterns;
    var i :| 0 <= i < |cs| && Contains(Lower(name), cs[i]);
    var j := if i == 0 then 0 else if i == 1 then 1 else i + 1;
    ContentPatternIsBackground(i, j);
    PatternsCovered(name, cs, bs, i, j);
  }

  /** Content pattern `i` is the lower case of background pattern `j`. */
  lemma ContentPatternIsBackground(i: nat, j: nat)
    requires i < |PageAnalysis.ContentTrackingPatterns|
    requires j == if i == 0 then 0 else if i == 1 then 1 else i + 1
    ensures j < |BackgroundTrackingPatterns| && Lower(BackgroundTrackingPatterns[j]) == PageAnalysis.ContentTrackingPatterns[i]
  {
    var p := BackgroundTrackingPatterns[j];
    assert p == PageAnalysis.ContentTrackingPatterns[i];
    LowerNoop(p);
  }

  /** The "_gat" pattern adds nothing: a name containing "_gat" contains "_ga". */
  lemma GatImpliesGa(name: string)
    requires Contains(name, "_gat")
    ensures Contains(name, "_ga")
  {
    assert "_gat"[..3] == "_ga";
    OccursContains("_gat", "_ga", 0);
    ContainsTransitive(name, "_gat", "_ga");
  }

  /** Example: the worker's test is wider; the Mixpanel name "mp_id" is tracking for
      the worker but not for the content script. */
  lemma MixpanelOnlyInBackground(name: string)
    requires name == "mp_id"
    ensures BackgroundIsTracking(name)
    ensures !PageAnalysis.ContentIsTracking(name)
  {
    LowerNoop(name);
    var p := BackgroundTrackingPatterns[10];
    LowerNoop(p);
    assert name[..3] == p;
    OccursContains(name, p, 0);
    MixpanelMissesContentPatterns(name);
  }

  /** Example: "mp_id" contains none of the content script's patterns. */
  lemma MixpanelMissesContentPatterns(name: string)
    requires name == "mp_id"
    ensures forall i :: 0 <= i < |PageAnalysis.ContentTrackingPatterns| ==> !Contains(Lower(name), PageAnalysis.ContentTrackingPatterns[i])
  {
    LowerNoop(name);
    MixpanelMissesFirst(name, PageAnalysis.ContentTrackingPatterns);
    MixpanelMissesLast(name, PageAnalysis.ContentTrackingPatterns);
  }

  /** Example: "mp_id" contains none of "_ga", "_gid", "_fbp", "_fbc". */
  lemma MixpanelMissesFirst(name: string, cs: seq<string>)
    requires name == "mp_id" && cs == PageAnalysis.ContentTrackingPatterns
    ensures forall i :: 0 <= i < 4 ==> !Contains(name, cs[i])
  {
    MissingCharExcludes(name, cs[0], 'g');
    MissingCharExcludes(name, cs[1], 'g');
    MissingCharExcludes(name, cs[2], 'f');
    MissingCharExcludes(name, cs[3], 'f');
  }

  /** Example: "mp_id" contains none of "__utm", "ads", "doubleclick". */
  lemma MixpanelMissesLast(name: string, cs: seq<string>)
    requires name == "mp_id" && cs == PageAnalysis.ContentTrackingPatterns
    ensures forall i :: 4 <= i < 7 ==> !Contains(name, cs[i])
  {
    MissingCharExcludes(name, cs[4], 'u');
    MissingCharExcludes(name, cs[5], 'a');
    MissingCharExcludes(name, cs[6], 'o');
  }

  // ---------------------------------------------------------------------------
  // Cookie removals: handleCookieChange, blockTrackingCookiesForDomain, handleTrackingCookie

  /** One `chrome.cookies.remove({url, name})` call. */
  datatype Removal = Removal(url: string, name: string)

  /** `http${cookie.secure ? 's' : ''}://${cookie.domain}${cookie.path}`. */
  function RemovalUrl(cookie: BrowserCookie): (url: string)
    ensures IsPrefix("https://", url) <==> cookie.secure
    ensures !cookie.secure ==> IsPrefix("http://", url)
    ensures |url| == (if cookie.secure then 8 else 7) + |cookie.domain| + |cookie.path|
    ensures url[|url| - |cookie.domain| - |cookie.path|..] == cookie.domain + cookie.path
  {
    var scheme := if cookie.secure then "https" else "http";
    var url := scheme + "://" + cookie.domain + cookie.path;
    assert url[4] == if cookie.secure then 's' else ':';
    url
  }

  /** The removal URL pins the cookie down: two cookies with the same URL agree on
      `secure` and on the domain followed by the path. */
  lemma RemovalUrlDetermines(a: BrowserCookie, b: BrowserCookie)
    requires RemovalUrl(a) == RemovalUrl(b)
    ensures a.secure == b.secure
    ensures a.domain + a.path == b.domain + b.path
  {
    var u := RemovalUrl(a);
    assert IsPrefix("https://", u) <==> a.secure;
    assert IsPrefix("https://", u) <==> b.secure;
    assert |u| - |a.domain| - |a.path| == |u| - |b.domain| - |b.path|;
  }

  /** `handleCookieChange(changeInfo)`: a tracking cookie set by an explicit write
      is removed when blocking is on; nothing else is touched. */
  function HandleCookieChange(cookie: BrowserCookie, cause: string, blockSetting: bool): (r: Option<Removal>)
    ensures r.Some? ==> BackgroundIsTracking(cookie.name) && blockSetting && cause == "explicit"
    ensures r.Some? ==> r.value.name == cookie.name && (IsPrefix("https://", r.value.url) <==> cookie.secure)
    ensures r.Some? ==> r.value == Removal(RemovalUrl(cookie), cookie.name)
    ensures BackgroundIsTracking(cookie.name) && blockSetting && cause == "explicit" ==> r.Some?
  {
    if BackgroundIsTracking(cookie.name) && blockSetting && cause == "explicit" then
      Some(Removal(RemovalUrl(cookie), cookie.name))
    else None
  }

  /** Reference: the removals for the tracking cookies of a list, in order. */
  function RemovalPlan(cookies: seq<BrowserCookie>): (plan: seq<Removal>)
    ensures |plan| <= |cookies|
    decreases |cookies|
  {
    if |cookies| == 0 then []
    else
      var c := cookies[0];
      (if BackgroundIsTracking(c.name) then [Removal(RemovalUrl(c), c.name)] else []) + RemovalPlan(cookies[1..])
  }

  /** `blockTrackingCookiesForDomain(domain)` over the domain's cookies: a removal for
      each tracking cookie in turn; `removeThrows` says which removals reject, and
      the first rejection ends the loop in the `catch`. Returns the removals issued. */
  function BlockTrackingCookiesForDomain(cookies: seq<BrowserCookie>, removeThrows: Removal -> bool): (issued: seq<Removal>)
    ensures IsPrefixSeq(issued, RemovalPlan(cookies))
    ensures forall k :: 0 <= k < |issued| - 1 ==> !removeThrows(issued[k])
    ensures |issued| < |RemovalPlan(cookies)| ==> |issued| > 0 && removeThrows(issued[|issued| - 1])
    decreases |cookies|
  {
    if |cookies| == 0 then []
    else
      var c := cookies[0];
      var rest := BlockTrackingCookiesForDomain(cookies[1..], removeThrows);
      var plan := RemovalPlan(cookies[1..]);
      if BackgroundIsTracking(c.name) then
        var r := Removal(RemovalUrl(c), c.name);
        assert RemovalPlan(cookies) == [r] + plan;
        if removeThrows(r) then [r]
        else
          assert ([r] + rest)[1..] == rest;
          assert ([r] + plan)[..|rest| + 1] == [r] + plan[..|rest|];
          [r] + rest
      else
        assert RemovalPlan(cookies) == plan;
        rest
  }

  /** `p` is a prefix of the sequence `s`. */
  predicate IsPrefixSeq(p: seq<Removal>, s: seq<Removal>) {
    |p| <= |s| && p == s[..|p|]
  }

  /** When no removal rejects, every tracking cookie of the domain is removed, and
      only those. */
  lemma BlockAllWhenNothingFails(cookies: seq<BrowserCookie>, removeThrows: Removal -> bool)
    requires forall r :: !removeThrows(r)
    ensures BlockTrackingCookiesForDomain(cookies, removeThrows) == RemovalPlan(cookies)
    ensures forall r :: r in BlockTrackingCookiesForDomain(cookies, removeThrows) ==>
      exists c :: c in cookies && BackgroundIsTracking(c.name) && r == Removal(RemovalUrl(c), c.name)
    ensures forall c :: c in cookies && BackgroundIsTracking(c.name) ==>
      Removal(RemovalUrl(c), c.name) in BlockTrackingCookiesForDomain(cookies, removeThrows)
  {
    PlanProvenance(cookies);
    PlanComplete(cookies);
  }

  /** Every tracking cookie of the list has its removal in the plan. */
  lemma {:induction false} PlanComplete(cookies: seq<BrowserCookie>)
    ensures forall c :: c in cookies && BackgroundIsTracking(c.name) ==> Removal(RemovalUrl(c), c.name) in RemovalPlan(cookies)
    decreases |cookies|
  {
    if |cookies| > 0 {
      PlanComplete(cookies[1..]);
      var head := if BackgroundIsTracking(cookies[0].name) then [Removal(RemovalUrl(cookies[0]), cookies[0].name)] else [];
      assert RemovalPlan(cookies) == head + RemovalPlan(cookies[1..]);
      forall c | c in cookies && BackgroundIsTracking(c.name)
        ensures Removal(RemovalUrl(c), c.name) in RemovalPlan(cookies)
      {
        if c != cookies[0] {
          assert c in cookies[1..];
        }
      }
    }
  }

  /** The two removal paths agree: the removal a single explicit write of a tracking
      cookie triggers is the one blocking the cookie's whole domain issues for it. */
  lemma ChangeRemovalInDomainPlan(cookie: BrowserCookie, cookies: seq<BrowserCookie>)
    requires cookie in cookies
    requires HandleCookieChange(cookie, "explicit", true).Some?
    ensures HandleCookieChange(cookie, "explicit", true).value in RemovalPlan(cookies)
  {
    PlanComplete(cookies);
  }

  /** Every planned removal is for a tracking cookie of the list. */
  lemma {:induction false} PlanProvenance(cookies: seq<BrowserCookie>)
    ensures forall r :: r in RemovalPlan(cookies) ==>
      exists c :: c in cookies && BackgroundIsTracking(c.name) && r == Removal(RemovalUrl(c), c.name)
    decreases |cookies|
  {
    if |cookies| > 0 {
      PlanProvenance(cookies[1..]);
      forall r | r in RemovalPlan(cookies)
        ensures exists c :: c in cookies && BackgroundIsTracking(c.name) && r == Removal(RemovalUrl(c), c.name)
      {
        if r in RemovalPlan(cookies[1..]) {
          var c :| c in cookies[1..] && BackgroundIsTracking(c.name) && r == Removal(RemovalUrl(c), c.name);
          assert c in cookies;
        } else {
          assert cookies[0] in cookies;
        }
      }
    }
  }

  /** `handleTrackingCookie(cookieString, domain)` with blocking on or off: the name
      is the text before the first '='; removal is tried over https first and over
      http only when the https removal rejects. Returns the removals issued. */
  function HandleTrackingCookie(cookieString: string, domain: string, blockSetting: bool, httpsThrows: bool): (issued: seq<Removal>)
    ensures !blockSetting <==> issued == []
    ensures |issued| <= 2
    ensures blockSetting && !httpsThrows ==> |issued| == 1
    ensures |issued| == 2 <==> blockSetting && httpsThrows
    ensures forall k :: 0 <= k < |issued| ==> issued[k].name == BeforeFirst(cookieString, '=') && '=' !in issued[k].name
    ensures |issued| >= 1 ==> issued[0].url == "https://" + domain
    ensures |issued| == 2 ==> issued[1].url == "http://" + domain
  {
    if !blockSetting then []
    else
      var name := BeforeFirst(cookieString, '=');
      var https := Removal("https://" + domain, name);
      if httpsThrows then [https, Removal("http://" + domain, name)] else [https]
  }

  /** End to end: the notice the content script sends for a cookie write it judged
      tracking makes the worker, with blocking on, remove that cookie under the same
      name over https for the page's domain; the worker's own test agrees the name
      is tracking. */
  lemma NoticeRemovesJudgedName(cookieString: string, domain: string, httpsThrows: bool)
    requires PageAnalysis.HandleCookieChange(cookieString, domain).Some?
    ensures var notice := PageAnalysis.HandleCookieChange(cookieString, domain).value;
      var issued := HandleTrackingCookie(notice.cookie, notice.domain, true, httpsThrows);
      && |issued| >= 1
      && issued[0] == Removal("https://" + domain, BeforeFirst(cookieString, '='))
      && PageAnalysis.ContentIsTracking(issued[0].name)
      && BackgroundIsTracking(issued[0].name)
  {
    ContentTrackingIsBackgroundTracking(BeforeFirst(cookieString, '='));
  }

  // ---------------------------------------------------------------------------
  // handleTabUpdate and handleSettingsUpdate

  /** The parts of `new URL(url)` the worker reads. */
  datatype Url = Url(protocol: string, hostname: string)

  /** What `handleTabUpdate` does: inject the content script, and block the
      domain's tracking cookies. */
  datatype TabEffect = TabEffect(injects: bool, blockDomain: Option<string>)

  /** `handleTabUpdate(tabId, changeInfo, tab)`: on a finished load of an http(s) page,
      inject the content script and, when the setting is on, block tracking cookies
      for its host. `parseUrl` is `new URL` (`None` where it throws); an injection
      that rejects skips the blocking. */
  function HandleTabUpdate(status: string, url: Option<string>, parseUrl: string -> Option<Url>,
                           blockSetting: bool, injectThrows: bool): (r: TabEffect)
    ensures r.injects <==> status == "complete" && url.Some? && parseUrl(url.value).Some?
                           && IsPrefix("http", parseUrl(url.value).value.protocol)
    ensures r.blockDomain.Some? <==> r.injects && !injectThrows && blockSetting
    ensures r.blockDomain.Some? ==> r.blockDomain.value == parseUrl(url.value).value.hostname
  {
    if status != "complete" || url.None? then TabEffect(false, None)
    else match parseUrl(url.value)
      case None => TabEffect(false, None)
      case Some(u) =>
        if !IsPrefix("http", u.protocol) then TabEffect(false, None)
        else if injectThrows || !blockSetting then TabEffect(true, None)
        else TabEffect(true, Some(u.hostname))
  }

  /** A tab as `chrome.tabs.query` reports it. */
  datatype Tab = Tab(id: int, url: Option<string>)

  /** `handleSettingsUpdate(settings)`: when auto-decline is on, inject the content
      script into every queried tab whose URL starts with "http"; a rejected
      injection is skipped and the loop goes on. Returns the ids of the tabs where injection is attempted. */
  function HandleSettingsUpdate(autoDeclineEnabled: bool, tabs: seq<Tab>): (ids: seq<int>)
    ensures !autoDeclineEnabled ==> ids == []
    ensures |ids| <= |tabs|
    ensures autoDeclineEnabled ==> forall t :: t in tabs && t.url.Some? && IsPrefix("http", t.url.value) ==> t.id in ids
    ensures forall id :: id in ids ==> exists t :: t in tabs && t.id == id && t.url.Some? && IsPrefix("http", t.url.value)
    decreases |tabs|
  {
    if !autoDeclineEnabled || |tabs| == 0 then []
    else
      var t := tabs[0];
      var rest := HandleSettingsUpdate(autoDeclineEnabled, tabs[1..]);
      assert forall x :: x in tabs[1..] ==> x in tabs;
      assert forall x :: x in tabs ==> x == t || x in tabs[1..];
      (if t.url.Some? && IsPrefix("http", t.url.value) then [t.id] else []) + rest
  }

  /** The settings loop is tab by tab, in query order: the first tab's injection,
      if any, comes before those of the tabs after it. */
  lemma SettingsUpdateCons(enabled: bool, t: Tab, ts: seq<Tab>)
    ensures HandleSettingsUpdate(enabled, [t] + ts) == HandleSettingsUpdate(enabled, [t]) + HandleSettingsUpdate(enabled, ts)
  {
    assert ([t] + ts)[1..] == ts;
    assert [t][1..] == [];
  }

  /** The two injection paths agree: a tab whose finished load injects the content
      script also gets an injection attempt when auto-decline is switched on, provided
      `new URL` reads the protocol off the front of the URL. */
  lemma TabUpdateAgreesWithSettingsUpdate(t: Tab, parseUrl: string -> Option<Url>, blockSetting: bool, injectThrows: bool)
    requires forall s :: parseUrl(s).Some? ==> IsPrefix(parseUrl(s).value.protocol, s)
    requires HandleTabUpdate("complete", t.url, parseUrl, blockSetting, injectThrows).injects
    ensures HandleSettingsUpdate(true, [t]) == [t.id]
  {
    var u := t.url.value;
    var proto := parseUrl(u).value.protocol;
    assert IsPrefix("http", proto) && IsPrefix(proto, u);
    assert IsPrefix("http", u);
    assert [t][1..] == [];
  }

  // ---------------------------------------------------------------------------
  // Local storage: exportAllData and cleanupOldData

  /** A local-storage record, reduced to what the worker reads: `lastUpdated` and
      `cookies.count`, each possibly absent. */
  datatype StoredEntry = StoredEntry(lastUpdated: Option<int>, cookieCount: Option<nat>)

  /** The summary of `exportAllData`. */
  datatype ExportSummary = ExportSummary(totalSitesAnalyzed: nat, totalCookiesFound: nat)

  /** The `reduce` of `exportAllData`: the sum of the cookie counts, 0 where absent. */
  function TotalCookies(entries: seq<(string, StoredEntry)>): nat
    decreases |entries|
  {
    if |entries| == 0 then 0 else entries[0].1.cookieCount.GetOr(0) + TotalCookies(entries[1..])
  }

  /** `exportAllData()`'s summary over the storage entries, in `Object` order. */
  function ExportAllData(entries: seq<(string, StoredEntry)>): (s: ExportSummary)
    ensures s.totalSitesAnalyzed == |entries|
    ensures s.totalCookiesFound == TotalCookies(entries)
  {
    ExportSummary(|entries|, TotalCookies(entries))
  }

  /** The cookie total adds up over any split of the storage. */
  lemma {:induction false} TotalCookiesAppend(xs: seq<(string, StoredEntry)>, ys: seq<(string, StoredEntry)>)
    ensures TotalCookies(xs + ys) == TotalCookies(xs) + TotalCookies(ys)
    decreases |xs|
  {
    if |xs| == 0 {
      assert xs + ys == ys;
    } else {
      assert (xs + ys)[0] == xs[0];
      assert (xs + ys)[1..] == xs[1..] + ys;
      TotalCookiesAppend(xs[1..], ys);
    }
  }

  /** The summary does not depend on the order in which storage lists its records:
      any rearrangement of the entries gives the same totals. */
  lemma {:induction false} ExportOrderFree(xs: seq<(string, StoredEntry)>, ys: seq<(string, StoredEntry)>)
    requires multiset(xs) == multiset(ys)
    ensures ExportAllData(xs) == ExportAllData(ys)
    decreases |xs|
  {
    assert |xs| == |multiset(xs)| == |multiset(ys)| == |ys|;
    if |xs| > 0 {
      var x := xs[0];
      assert x in multiset(ys);
      var j :| 0 <= j < |ys| && ys[j] == x;
      var rest := ys[..j] + ys[j + 1..];
      assert ys == ys[..j] + [x] + ys[j + 1..];
      assert xs == [x] + xs[1..];
      assert multiset(xs) == multiset([x]) + multiset(xs[1..]);
      assert multiset(ys) == multiset(ys[..j]) + multiset([x]) + multiset(ys[j + 1..]);
      assert multiset(rest) == multiset(ys[..j]) + multiset(ys[j + 1..]);
      assert multiset(xs[1..]) == multiset(xs) - multiset{x};
      assert multiset(rest) == multiset(ys) - multiset{x};
      ExportOrderFree(xs[1..], rest);
      TotalCookiesAppend(ys[..j] + [x], ys[j + 1..]);
      TotalCookiesAppend(ys[..j], [x]);
      TotalCookiesAppend(ys[..j], ys[j + 1..]);
      assert [x][1..] == [];
    }
  }

  /** One week in milliseconds: `7 * 24 * 60 * 60 * 1000`. */
  const WeekMs: int := 604800000

  /** `data.lastUpdated && data.lastUpdated < oneWeekAgo`: a record with a non-zero
      time stamp older than one week before `now`. */
  predicate Stale(e: StoredEntry, now: int) {
    e.lastUpdated.Some? && e.lastUpdated.value != 0 && e.lastUpdated.value < now - WeekMs
  }

  /** The keys of the stale records, in storage order. */
  function KeysToRemove(entries: seq<(string, StoredEntry)>, now: int): (keys: seq<string>)
    ensures |keys| <= |entries|
    ensures forall k :: k in keys ==> exists i :: 0 <= i < |entries| && entries[i].0 == k && Stale(entries[i].1, now)
    ensures forall i :: 0 <= i < |entries| && Stale(entries[i].1, now) ==> entries[i].0 in keys
    decreases |entries|
  {
    if |entries| == 0 then []
    else
      var rest := KeysToRemove(entries[1..], now);
      assert forall i :: 1 <= i < |entries| ==> entries[i] == entries[1..][i - 1];
      (if Stale(entries[0].1, now) then [entries[0].0] else []) + rest
  }

  /** `cleanupOldData()` at time `now`: the keys passed to `storage.local.remove`, or
      `None` when nothing is stale and no removal is made. */
  function CleanupOldData(entries: seq<(string, StoredEntry)>, now: int): (r: Option<seq<string>>)
    ensures r.None? <==> forall i :: 0 <= i < |entries| ==> !Stale(entries[i].1, now)
    ensures r.Some? ==> r.value != [] && r.value == KeysToRemove(entries, now)
  {
    var keys := KeysToRemove(entries, now);
    if |keys| > 0 then
      assert keys[0] in keys;
      Some(keys)
    else None
  }

  /** The storage after removing some keys. */
  function RemoveKeys(entries: seq<(string, StoredEntry)>, keys: seq<string>): (r: seq<(string, StoredEntry)>)
    ensures forall e :: e in r <==> e in entries && e.0 !in keys
    decreases |entries|
  {
    if |entries| == 0 then []
    else
      var rest := RemoveKeys(entries[1..], keys);
      assert forall e :: e in entries <==> e == entries[0] || e in entries[1..];
      (if entries[0].0 in keys then [] else [entries[0]]) + rest
  }

  /** Cleanup settles in one run: at the same time, a second run finds nothing to remove. */
  lemma CleanupIdempotent(entries: seq<(string, StoredEntry)>, now: int)
    ensures CleanupOldData(RemoveKeys(entries, KeysToRemove(entries, now)), now).None?
  {
    var keys := KeysToRemove(entries, now);
    var left := RemoveKeys(entries, keys);
    forall i | 0 <= i < |left| ensures !Stale(left[i].1, now) {
      assert left[i] in left;
      var j :| 0 <= j < |entries| && entries[j] == left[i];
    }
  }

  /** A record stored by the content script at time `t` (its `lastUpdated`) is
      removed at time `now` exactly when `t` is non-zero and over a week old. */
  lemma StoredAnalysisExpires(key: string, t: int, count: nat, now: int)
    ensures CleanupOldData([(key, StoredEntry(Some(t), Some(count)))], now).Some? <==> t != 0 && t < now - WeekMs
  {
    var entries := [(key, StoredEntry(Some(t), Some(count)))];
    assert entries[0].1 == StoredEntry(Some(t), Some(count));
  }
}
