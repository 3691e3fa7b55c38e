/** The popup's view of the current site: its own cookie classifier, the
    per-category counts, the privacy score and its label, and the blocked count
    of "block all tracking cookies". The cookies come from the browser's cookies
    API as given records. */
module Popup {
  import opened Wrappers
  import opened Strings
  import opened Cookies
  import PageAnalysis

  // ---------------------------------------------------------------------------
  // categorizeCookie

  /** `categorizeCookie(cookie)`: the first of essential (session, csrf, auth, login,
      security), analytics (ga, gtm, analytics, _utm in the name, or google-analytics
      in the domain), advertising (ads, doubleclick, facebook, twitter, pixel, track)
      whose test passes on the lower-cased name and domain, else functional. */
  function PopupCategory(cookie: BrowserCookie): Category {
    var name := Lower(cookie.name);
    var domain := Lower(cookie.domain);
    if Contains(name, "session") || Contains(name, "csrf") || Contains(name, "auth")
       || Contains(name, "login") || Contains(name, "security") then Essential
    else if Contains(name, "ga") || Contains(name, "gtm") || Contains(name, "analytics")
       || Contains(name, "_utm") || Contains(domain, "google-analytics") then Analytics
    else if Contains(name, "ads") || Contains(name, "doubleclick") || Contains(name, "facebook")
       || Contains(name, "twitter") || Contains(name, "pixel") || Contains(name, "track") then Advertising
    else Functional
  }

  /** The popup's essential terms include the content script's: a name the content
      script calls essential is essential here too. */
  lemma ContentEssentialIsPopupEssential(cookie: BrowserCookie)
    requires PageAnalysis.ContentCategory(cookie.name) == Essential
    ensures PopupCategory(cookie) == Essential
  {
  }

  /** A name the content script calls analytics is analytics here unless one of the
      popup's extra essential terms (login, security) claims it first. */
  lemma ContentAnalyticsIsPopupAnalytics(cookie: BrowserCookie)
    requires PageAnalysis.ContentCategory(cookie.name) == Analytics
    ensures PopupCategory(cookie) == Essential || PopupCategory(cookie) == Analytics
    ensures PopupCategory(cookie) == Essential <==> Contains(Lower(cookie.name), "login") || Contains(Lower(cookie.name), "security")
  {
  }

  /** The two classifiers disagree: "_fbp" is advertising for the content script
      (it contains "fb") but functional for the popup, whose advertising terms do
      not include "fb". */
  lemma FbpClassifiersDisagree(cookie: BrowserCookie)
    requires cookie.name == "_fbp"
    requires !Contains(Lower(cookie.domain), "google-analytics")
    ensures PageAnalysis.ContentCategory(cookie.name) == Advertising
    ensures PopupCategory(cookie) == Functional
  {
    PageAnalysis.FbpCategory(cookie.name);
    LowerNoop(cookie.name);
    FbpNotPopupEssential(cookie.name);
    FbpNotPopupAnalytics(cookie.name);
    FbpNotPopupAdvertising(cookie.name);
  }

  /** "_fbp" holds none of the popup's essential terms. */
  lemma FbpNotPopupEssential(name: string)
    requires name == "_fbp"
    ensures !Contains(name, "session") && !Contains(name, "csrf") && !Contains(name, "auth")
    ensures !Contains(name, "login") && !Contains(name, "security")
  {
    MissingCharExcludes(name, "session", 's');
    MissingCharExcludes(name, "csrf", 's');
    MissingCharExcludes(name, "auth", 'a');
    MissingCharExcludes(name, "login", 'l');
    MissingCharExcludes(name, "security", 's');
  }

  /** "_fbp" holds none of the popup's analytics name terms. */
  lemma FbpNotPopupAnalytics(name: string)
    requires name == "_fbp"
    ensures !Contains(name, "ga") && !Contains(name, "gtm") && !Contains(name, "analytics") && !Contains(name, "_utm")
  {
    MissingCharExcludes(name, "ga", 'g');
    MissingCharExcludes(name, "gtm", 'g');
    MissingCharExcludes(name, "analytics", 'a');
    MissingCharExcludes(name, "_utm", 'u');
  }

  /** "_fbp" holds none of the popup's advertising terms. */
  lemma FbpNotPopupAdvertising(name: string)
    requires name == "_fbp"
    ensures !Contains(name, "ads") && !Contains(name, "doubleclick") && !Contains(name, "facebook")
    ensures !Contains(name, "twitter") && !Contains(name, "pixel") && !Contains(name, "track")
  {
    MissingCharExcludes(name, "ads", 'a');
    MissingCharExcludes(name, "doubleclick", 'd');
    MissingCharExcludes(name, "facebook", 'a');
    MissingCharExcludes(name, "twitter", 't');
    MissingCharExcludes(name, "pixel", 'i');
    MissingCharExcludes(name, "track", 't');
  }

  // ---------------------------------------------------------------------------
  // calculatePrivacyScore and getScoreText

  /** The three privacy scores, from best to worst. */
  datatype Score = Good | Medium | Bad {
    /** Position from best (0) to worst (2). */
    function Rank(): nat {
      match this
      case Good => 0
      case Medium => 1
      case Bad => 2
    }

    /** The score's key, as stored in `privacyScore`. */
    function Key(): string {
      match this
      case Good => "good"
      case Medium => "medium"
      case Bad => "bad"
    }
  }

  /** `Math.max(total, 1)`: the divisor of the tracking ratio. */
  function Divisor(total: nat): (d: nat)
    ensures d >= 1 && d >= total
  {
    if total > 1 then total else 1
  }

  /** `calculatePrivacyScore`: the ratio `tracking / max(total, 1)` against 0.2 and
      0.5. The ratio is an exact rational here; the thresholds hold as integer
      cross-multiplications. */
  function CalculatePrivacyScore(tracking: nat, total: nat): (s: Score)
    ensures s == Good <==> 5 * tracking < Divisor(total)
    ensures s == Medium <==> 5 * tracking >= Divisor(total) && 2 * tracking < Divisor(total)
    ensures s == Bad <==> 2 * tracking >= Divisor(total)
  {
    var d := Divisor(total);
    RatioBelow(tracking, d, 5);
    RatioBelow(tracking, d, 2);
    var ratio := tracking as real / d as real;
    if ratio < 0.2 then Good else if ratio < 0.5 then Medium else Bad
  }

  /** `t / d < 1 / k` exactly when `k * t < d`, for positive `d` and `k`. */
  lemma RatioBelow(t: nat, d: nat, k: nat)
    requires d > 0 && k > 0
    ensures t as real / d as real < 1.0 / k as real <==> k * t < d
  {
    var r := t as real / d as real;
    assert r * d as real == t as real;
    var q := 1.0 / k as real;
    assert q * k as real == 1.0;
    if k * t < d {
      assert (k * t) as real < d as real;
      assert r * (k * d) as real == (k * t) as real;
      assert q * (k * d) as real == d as real;
    } else {
      assert (k * t) as real >= d as real;
      assert r * (k * d) as real == (k * t) as real;
      assert q * (k * d) as real == d as real;
    }
  }

  /** More tracking cookies never improve the score. */
  lemma ScoreMonotoneInTracking(t1: nat, t2: nat, total: nat)
    requires t1 <= t2
    ensures CalculatePrivacyScore(t1, total).Rank() <= CalculatePrivacyScore(t2, total).Rank()
  {
  }

  /** More cookies in all, for the same tracking count, never worsen the score. */
  lemma ScoreMonotoneInTotal(tracking: nat, n1: nat, n2: nat)
    requires n1 <= n2
    ensures CalculatePrivacyScore(tracking, n2).Rank() <= CalculatePrivacyScore(tracking, n1).Rank()
  {
  }

  /** No cookies at all counts as a total of one: no tracking is good, any tracking is bad. */
  lemma EmptyJarScore(tracking: nat)
    ensures CalculatePrivacyScore(tracking, 0) == if tracking == 0 then Good else Bad
  {
  }

  /** The worked examples: 0 of 10 is good, 2 of 10 is medium, 5 of 10 is bad. */
  lemma ScoreExamples()
    ensures CalculatePrivacyScore(0, 10) == Good
    ensures CalculatePrivacyScore(2, 10) == Medium
    ensures CalculatePrivacyScore(5, 10) == Bad
  {
  }

  /** `getScoreText(score)`: the label of a score key; "Unknown" for any other key. */
  function ScoreText(score: string): string {
    if score == "good" then "Good Privacy"
    else if score == "medium" then "Moderate Tracking"
    else if score == "bad" then "Heavy Tracking"
    else if score == "unknown" then "Analyzing..."
    else "Unknown"
  }

  /** The three scores get three different labels, none of them the fallback or
      the placeholder, so the label tells the score. */
  lemma ScoreTextDistinguishes(s1: Score, s2: Score)
    ensures ScoreText(s1.Key()) != "Unknown" && ScoreText(s1.Key()) != ScoreText("unknown")
    ensures ScoreText(s1.Key()) == ScoreText(s2.Key()) <==> s1 == s2
  {
  }

  // ---------------------------------------------------------------------------
  // analyzeCookies

  /** One entry of the popup's cookie list. */
  datatype CookieDetail = CookieDetail(name: string, domain: string, kind: Category,
                                       secure: bool, httpOnly: bool, sameSite: string)

  /** The list entry of one cookie. */
  function Detail(cookie: BrowserCookie): CookieDetail {
    CookieDetail(cookie.name, cookie.domain, PopupCategory(cookie), cookie.secure, cookie.httpOnly, cookie.sameSite)
  }

  /** The list entries of the cookies, in order. */
  function Details(cookies: seq<BrowserCookie>): (ds: seq<CookieDetail>)
    ensures |ds| == |cookies|
    ensures forall i :: 0 <= i < |cookies| ==> ds[i] == Detail(cookies[i])
  {
    seq(|cookies|, i requires 0 <= i < |cookies| => Detail(cookies[i]))
  }

  /** Reference: how many cookies the popup puts in category `c`. */
  function CountOf(cookies: seq<BrowserCookie>, c: Category): nat
    decreases |cookies|
  {
    if |cookies| == 0 then 0
    else CountOf(cookies[..|cookies| - 1], c) + (if PopupCategory(cookies[|cookies| - 1]) == c then 1 else 0)
  }

  /** Every cookie is counted in exactly one category. */
  lemma {:induction false} CountsPartition(cookies: seq<BrowserCookie>)
    ensures CountOf(cookies, Essential) + CountOf(cookies, Analytics) + CountOf(cookies, Advertising)
      + CountOf(cookies, Functional) == |cookies|
    decreases |cookies|
  {
    if |cookies| > 0 {
      CountsPartition(cookies[..|cookies| - 1]);
    }
  }

  /** The object `analyzeCookies` builds. */
  datatype PopupAnalysis = PopupAnalysis(
    total: nat,
    essential: nat,
    analytics: nat,
    advertising: nat,
    functional: nat,
    blocked: nat,
    tracking: nat,
    cookies: seq<CookieDetail>,
    privacyScore: Score
  )

  /** `analyzeCookies(cookies, analysisData)`: one pass over the cookies, counting
      each under its category and as tracking when analytics or advertising, and
      listing it. `storedBlocked` is the stored `blocked` count, if any. */
  method AnalyzeCookies(cookies: seq<BrowserCookie>, storedBlocked: Option<nat>) returns (a: PopupAnalysis)
    ensures a.total == |cookies|
    ensures a.essential == CountOf(cookies, Essential) && a.analytics == CountOf(cookies, Analytics)
    ensures a.advertising == CountOf(cookies, Advertising) && a.functional == CountOf(cookies, Functional)
    ensures a.essential + a.analytics + a.advertising + a.functional == a.total
    ensures a.tracking == a.analytics + a.advertising
    ensures a.cookies == Details(cookies)
    ensures a.blocked == storedBlocked.GetOr(0)
    ensures a.privacyScore == CalculatePrivacyScore(a.tracking, a.total)
  {
    var essential, analytics, advertising, functional, tracking := 0, 0, 0, 0, 0;
    var details: seq<CookieDetail> := [];
    var i := 0;
    while i < |cookies|
      invariant 0 <= i <= |cookies|
      invariant essential == CountOf(cookies[..i], Essential) && analytics == CountOf(cookies[..i], Analytics)
      invariant advertising == CountOf(cookies[..i], Advertising) && functional == CountOf(cookies[..i], Functional)
      invariant essential + analytics + advertising + functional == i
      invariant tracking == analytics + advertising
      invariant details == Details(cookies[..i])
    {
      var kind := PopupCategory(cookies[i]);
      assert cookies[..i + 1][..i] == cookies[..i];
      match kind {
        case Essential => essential := essential + 1;
        case Analytics => analytics := analytics + 1;
        case Advertising => advertising := advertising + 1;
        case Functional => functional := functional + 1;
      }
      if kind == Analytics || kind == Advertising {
        tracking := tracking + 1;
      }
      details := details + [Detail(cookies[i])];
      i := i + 1;
    }
    assert cookies[..i] == cookies;
    a := PopupAnalysis(|cookies|, essential, analytics, advertising, functional,
                       storedBlocked.GetOr(0), tracking, details,
                       CalculatePrivacyScore(tracking, |cookies|));
  }

  // ---------------------------------------------------------------------------
  // blockTrackingCookies

  /** The names of the listed cookies typed analytics or advertising, in order. */
  function TrackingNames(details: seq<CookieDetail>): (names: seq<string>)
    ensures |names| <= |details|
    decreases |details|
  {
    if |details| == 0 then []
    else (if IsTrackingCategory(details[0].kind) then [details[0].name] else []) + TrackingNames(details[1..])
  }

  /** The loop of `blockTrackingCookies`: one removal per tracking entry, counted;
      `removeThrows` says which removals reject. A rejection ends the loop in the
      `catch`, and nothing is stored (`None`); otherwise the count is stored. */
  function BlockTrackingCookies(details: seq<CookieDetail>, removeThrows: string -> bool): (r: Option<nat>)
    ensures r.Some? <==> forall k :: 0 <= k < |TrackingNames(details)| ==> !removeThrows(TrackingNames(details)[k])
    ensures r.Some? ==> r.value == |TrackingNames(details)|
    decreases |details|
  {
    if |details| == 0 then Some(0)
    else
      var d := details[0];
      var rest := BlockTrackingCookies(details[1..], removeThrows);
      var names := TrackingNames(details[1..]);
      assert TrackingNames(details) == (if IsTrackingCategory(d.kind) then [d.name] else []) + names;
      if IsTrackingCategory(d.kind) then
        assert forall j :: 0 <= j < |names| ==> TrackingNames(details)[j + 1] == names[j];
        if removeThrows(d.name) then
          assert TrackingNames(details)[0] == d.name;
          None
        else match rest
          case None => None
          case Some(n) => Some(n + 1)
      else
        assert TrackingNames(details) == names;
        rest
  }

  /** The tracking entries of a cookie list are as many as its analytics and
      advertising cookies. */
  lemma {:induction false} TrackingNamesCount(cookies: seq<BrowserCookie>)
    ensures |TrackingNames(Details(cookies))| == CountOf(cookies, Analytics) + CountOf(cookies, Advertising)
    decreases |cookies|
  {
    if |cookies| > 0 {
      var init := cookies[..|cookies| - 1];
      var last := cookies[|cookies| - 1];
      TrackingNamesCount(init);
      assert Details(cookies) == Details(init) + [Detail(last)];
      TrackingNamesAppend(Details(init), [Detail(last)]);
    }
  }

  /** `TrackingNames` distributes over concatenation. */
  lemma {:induction false} TrackingNamesAppend(xs: seq<CookieDetail>, ys: seq<CookieDetail>)
    ensures TrackingNames(xs + ys) == TrackingNames(xs) + TrackingNames(ys)
    decreases |xs|
  {
    if |xs| == 0 {
      assert xs + ys == ys;
    } else {
      var head := if IsTrackingCategory(xs[0].kind) then [xs[0].name] else [];
      assert (xs + ys)[0] == xs[0];
      assert (xs + ys)[1..] == xs[1..] + ys;
      assert TrackingNames(xs + ys) == head + TrackingNames(xs[1..] + ys);
      TrackingNamesAppend(xs[1..], ys);
      assert TrackingNames(xs) == head + TrackingNames(xs[1..]);
    }
  }

  /** When every removal succeeds, the stored blocked count is the number of
      tracking cookies the analysis counted. */
  lemma BlockedCountIsTracking(cookies: seq<BrowserCookie>, removeThrows: string -> bool)
    requires forall name :: !removeThrows(name)
    ensures BlockTrackingCookies(Details(cookies), removeThrows)
      == Some(CountOf(cookies, Analytics) + CountOf(cookies, Advertising))
  {
    TrackingNamesCount(cookies);
  }
}
