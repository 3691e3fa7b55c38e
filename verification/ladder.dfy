/** The decline ladder of the content script (`autoDeclineCookies`): a selector pass
    over the site-specific and generic selectors, then a text scan that clicks at most
    one element, then hiding of cookie containers, and the count of clicks.

    The page is a snapshot: clicks and hides made during the selector pass do not
    change what later queries of that pass return. The text scan and the hiding only
    run when the selector pass clicked nothing, that is, on an unchanged page. */
module Ladder {
  import opened Wrappers
  import opened Strings
  import opened Dom
  import opened Affordance
  import opened Banner

  /** Selectors tried first on BBC hosts. */
  const BbcSelectors: seq<string> := [
    "button[data-testid=\"banner-reject\"]",
    "button[data-testid=\"reject-all\"]",
    "button[class*=\"reject\"]",
    "button[id*=\"reject\"]",
    "[data-bbc-container=\"cookie\"] button:last-child",
    ".fc-cta-do-not-consent",
    ".fc-button-reject",
    "#fc-ccpa-link",
    ".cookie-banner button[data-testid]",
    ".gdpr-banner button:not([data-testid*=\"accept\"])"
  ]

  /** Selectors tried first on CNN hosts. */
  const CnnSelectors: seq<string> := [
    ".optanon-reject-all", "#onetrust-reject-all-handler", ".ot-pc-refuse-all", "#onetrust-pc-btn-handler"
  ]

  /** Selectors tried first on Guardian hosts. */
  const GuardianSelectors: seq<string> := [
    "[data-link-name=\"reject all\"]", "button[data-cy=\"reject-all\"]", ".dcr-1isob8f button:last-child"
  ]

  /** Selectors tried on every host, after the site-specific ones. */
  const GenericSelectors: seq<string> := [
    "button[data-testid*=\"reject\"]", "button[data-cy*=\"reject\"]", "button[data-qa*=\"reject\"]",
    "button[data-role*=\"reject\"]", "button[data-testid*=\"decline\"]", "button[data-cy*=\"decline\"]",
    "button[id*=\"reject\"]", "button[class*=\"reject\"]", "button[id*=\"decline\"]",
    "button[class*=\"decline\"]", "button[id*=\"refuse\"]", "button[class*=\"refuse\"]",
    "button[aria-label*=\"reject\"]", "button[aria-label*=\"decline\"]", "button[aria-label*=\"refuse\"]",
    ".optanon-alert-box-wrapper button:last-child", "#onetrust-banner-sdk button:last-child",
    ".cookie-consent button:last-child", ".gdpr-consent button:last-child",
    "[class*=\"cookie\"] button:last-child", "[id*=\"cookie\"] button:last-child",
    ".consent-banner button:last-child"
  ]

  /** The query of the text scan. */
  const ClickableQuery: string := "button, a, [role=\"button\"], [onclick]"

  /** The selectors of `hideCookieContainers`, in order. */
  const ContainerSelectors: seq<string> := [
    "[data-bbc-container=\"cookie\"]", ".fc-consent-root", ".fc-dialog-container",
    "#cookie-banner", "#cookie-notice", "#cookie-consent",
    ".cookie-banner", ".cookie-notice", ".cookie-consent",
    ".gdpr-banner", ".gdpr-consent", ".consent-banner",
    "#onetrust-banner-sdk", ".optanon-alert-box-wrapper",
    ".ot-sdk-container", ".ot-fade-in",
    "[class*=\"cookie\"]", "[id*=\"cookie\"]",
    "[class*=\"consent\"]", "[id*=\"consent\"]",
    "[class*=\"gdpr\"]", "[id*=\"gdpr\"]"
  ]

  // ---------------------------------------------------------------------------
  // Site detection

  /** The sites with their own selectors. */
  datatype Site = Bbc | Cnn | Guardian | OtherSite

  /** The hostname test of the ladder, in the order the source checks it. */
  function SiteOf(hostname: string): Site {
    var h := Lower(hostname);
    if Contains(h, "bbc.") then Bbc
    else if Contains(h, "cnn.") then Cnn
    else if Contains(h, "guardian") || Contains(h, "theguardian") then Guardian
    else OtherSite
  }

  /** The site-specific selectors of a site. */
  function SiteSelectors(site: Site): seq<string> {
    match site
    case Bbc => BbcSelectors
    case Cnn => CnnSelectors
    case Guardian => GuardianSelectors
    case OtherSite => []
  }

  /** `selectorsToTry`: one site's list, if any, prepended to the generic list. */
  function SelectorsToTry(hostname: string): (r: seq<string>)
    ensures |r| >= |GenericSelectors| && r[|r| - |GenericSelectors|..] == GenericSelectors
  {
    SiteSelectors(SiteOf(hostname)) + GenericSelectors
  }

  /** Site detection by priority: BBC before CNN before the Guardian. The second test
      for "theguardian" adds nothing, since any hostname containing it contains
      "guardian". */
  lemma SitePriority(hostname: string)
    ensures var h := Lower(hostname);
      && (SiteOf(hostname) == Bbc <==> Contains(h, "bbc."))
      && (SiteOf(hostname) == Cnn <==> !Contains(h, "bbc.") && Contains(h, "cnn."))
      && (SiteOf(hostname) == Guardian <==> !Contains(h, "bbc.") && !Contains(h, "cnn.") && Contains(h, "guardian"))
      && (SiteOf(hostname) == OtherSite <==> !Contains(h, "bbc.") && !Contains(h, "cnn.") && !Contains(h, "guardian"))
  {
    var h := Lower(hostname);
    if Contains(h, "theguardian") {
      GuardianInTheGuardian();
      ContainsTransitive(h, "theguardian", "guardian");
    }
  }

  lemma GuardianInTheGuardian()
    ensures Contains("theguardian", "guardian")
  {
    var t := "theguardian";
    assert t[3..] == "guardian";
    OccursContains(t, "guardian", 3);
  }

  /** Whatever the host, the selectors tried are one site's list (possibly none)
      followed by the generic list; the site lists go first. */
  lemma SelectorsOrder(hostname: string)
    ensures exists site :: SelectorsToTry(hostname) == SiteSelectors(site) + GenericSelectors
    ensures SiteOf(hostname) != OtherSite ==> |SelectorsToTry(hostname)| > |GenericSelectors|
  {
    var site := SiteOf(hostname);
    assert SelectorsToTry(hostname) == SiteSelectors(site) + GenericSelectors;
  }

  // ---------------------------------------------------------------------------
  // Selector pass

  /** What the ladder looks for: a laid-out element the strict classifier accepts. */
  predicate Qualifies(e: Element) {
    IsVisibleElement(e) && IsLikelyDeclineButton(e)
  }

  /** A qualifying element whose `click()` does not throw: a counted click. */
  predicate Clicks(e: Element) {
    Qualifies(e) && !e.clickThrows
  }

  /** One counted click of the selector pass: the element, the selector that found
      it, and the banner container hidden after it, if any. */
  datatype Click = Click(element: Element, selector: string, hiddenBanner: Option<Element>)

  /** The clicks made on one query's matches, in document order: each element
      `clicks` accepts, with the banner container hidden after it. */
  function ClicksIn(page: Page, clicks: Element -> bool, sel: string, es: seq<Element>): (r: seq<Click>)
    ensures |r| <= |es|
    ensures forall i :: 0 <= i < |r| ==> r[i].selector == sel && clicks(r[i].element) && r[i].element in es
    ensures forall i :: 0 <= i < |r| ==> r[i].hiddenBanner == FindCookieBannerParent(page, r[i].element)
    decreases |es|
  {
    if |es| == 0 then []
    else
      var here := if clicks(es[0]) then [Click(es[0], sel, FindCookieBannerParent(page, es[0]))] else [];
      here + ClicksIn(page, clicks, sel, es[1..])
  }

  /** The selector pass: every selector in turn, a query that throws skipped.
      The ladder runs it with `Clicks`. */
  function SelectorPass(page: Page, clicks: Element -> bool, sels: seq<string>): (r: seq<Click>)
    ensures forall i :: 0 <= i < |r| ==> clicks(r[i].element) && r[i].selector in sels
    ensures forall i :: 0 <= i < |r| ==> r[i].hiddenBanner == FindCookieBannerParent(page, r[i].element)
    decreases |sels|
  {
    if |sels| == 0 then []
    else
      var here := match page.select(Document, sels[0])
        case Invalid => []
        case Matches(es) => ClicksIn(page, clicks, sels[0], es);
      here + SelectorPass(page, clicks, sels[1..])
  }

  /** The elements clicked, in order. */
  function ClickedElements(clicks: seq<Click>): (r: seq<Element>)
    ensures |r| == |clicks|
    ensures forall i :: 0 <= i < |clicks| ==> r[i] == clicks[i].element
  {
    seq(|clicks|, i requires 0 <= i < |clicks| => clicks[i].element)
  }

  /** `e` is clicked by the selector pass in one query's matches exactly when it is
      among them, qualifies, and its click does not throw. */
  lemma {:induction false} ClicksInMembers(page: Page, clicks: Element -> bool, sel: string, es: seq<Element>, e: Element)
    ensures e in ClickedElements(ClicksIn(page, clicks, sel, es)) <==> e in es && clicks(e)
    decreases |es|
  {
    if |es| > 0 {
      ClicksInMembers(page, clicks, sel, es[1..], e);
      var here := if clicks(es[0]) then [Click(es[0], sel, FindCookieBannerParent(page, es[0]))] else [];
      var rest := ClicksIn(page, clicks, sel, es[1..]);
      assert ClicksIn(page, clicks, sel, es) == here + rest;
      ClickedAppend(here, rest);
      assert ClickedElements(here) == if clicks(es[0]) then [es[0]] else [];
      assert e in es <==> e == es[0] || e in es[1..];
    }
  }

  /** The clicked elements of two runs of clicks, one after the other. */
  lemma ClickedAppend(a: seq<Click>, b: seq<Click>)
    ensures ClickedElements(a + b) == ClickedElements(a) + ClickedElements(b)
  {
    var l, r := ClickedElements(a + b), ClickedElements(a) + ClickedElements(b);
    forall i | 0 <= i < |l| ensures l[i] == r[i] {
      if i >= |a| {
        assert (a + b)[i] == b[i - |a|];
      }
    }
  }

  /** `e` is clicked by the selector pass exactly when some selector's query succeeds
      and returns it, it qualifies, and its click does not throw. */
  lemma {:induction false} SelectorPassMembers(page: Page, clicks: Element -> bool, sels: seq<string>, e: Element)
    ensures e in ClickedElements(SelectorPass(page, clicks, sels)) <==>
              clicks(e) && exists j :: 0 <= j < |sels| && Returns(page, sels[j], e)
    decreases |sels|
  {
    if |sels| > 0 {
      var rest := sels[1..];
      SelectorPassMembers(page, clicks, rest, e);
      var here := match page.select(Document, sels[0])
        case Invalid => []
        case Matches(es) => ClicksIn(page, clicks, sels[0], es);
      assert SelectorPass(page, clicks, sels) == here + SelectorPass(page, clicks, rest);
      ClickedAppend(here, SelectorPass(page, clicks, rest));
      match page.select(Document, sels[0])
      case Invalid =>
      case Matches(es) => ClicksInMembers(page, clicks, sels[0], es, e);
      ReturnsSome(page, sels, e);
    }
  }

  /** One query's clicks over two runs of matches are the first run's clicks
      followed by the second's: nothing is dropped, repeated or reordered. */
  lemma {:induction false} ClicksInAppend(page: Page, clicks: Element -> bool, sel: string, es: seq<Element>, fs: seq<Element>)
    ensures ClicksIn(page, clicks, sel, es + fs) == ClicksIn(page, clicks, sel, es) + ClicksIn(page, clicks, sel, fs)
    decreases |es|
  {
    if |es| > 0 {
      assert (es + fs)[1..] == es[1..] + fs;
      ClicksInAppend(page, clicks, sel, es[1..], fs);
      var here := if clicks(es[0]) then [Click(es[0], sel, FindCookieBannerParent(page, es[0]))] else [];
      assert ClicksIn(page, clicks, sel, es + fs) == here + ClicksIn(page, clicks, sel, es[1..] + fs);
      assert ClicksIn(page, clicks, sel, es) == here + ClicksIn(page, clicks, sel, es[1..]);
    } else {
      assert es + fs == fs;
    }
  }

  /** One match gives one click, with its banner container, exactly when `clicks`
      accepts it, and no click otherwise. */
  lemma ClicksInOne(page: Page, clicks: Element -> bool, sel: string, e: Element)
    ensures ClicksIn(page, clicks, sel, [e]) == if clicks(e) then [Click(e, sel, FindCookieBannerParent(page, e))] else []
  {
  }

  /** The pass over two runs of selectors is the first run's pass followed by the
      second's: each selector contributes its own clicks, in selector order. */
  lemma {:induction false} SelectorPassAppend(page: Page, clicks: Element -> bool, s: seq<string>, t: seq<string>)
    ensures SelectorPass(page, clicks, s + t) == SelectorPass(page, clicks, s) + SelectorPass(page, clicks, t)
    decreases |s|
  {
    if |s| > 0 {
      assert (s + t)[1..] == s[1..] + t;
      assert (s + t)[0] == s[0];
      SelectorPassAppend(page, clicks, s[1..], t);
      var here := match page.select(Document, s[0])
        case Invalid => []
        case Matches(es) => ClicksIn(page, clicks, s[0], es);
      assert SelectorPass(page, clicks, s + t) == here + SelectorPass(page, clicks, s[1..] + t);
      assert SelectorPass(page, clicks, s) == here + SelectorPass(page, clicks, s[1..]);
    } else {
      assert s + t == t;
    }
  }

  /** A single selector contributes nothing when its query throws, and otherwise
      the clicks on its matches. */
  lemma SelectorPassOne(page: Page, clicks: Element -> bool, sel: string)
    ensures SelectorPass(page, clicks, [sel]) == match page.select(Document, sel)
      case Invalid => []
      case Matches(es) => ClicksIn(page, clicks, sel, es)
  {
  }

  /** Example: a button that two selectors both return alone is clicked, and
      counted, once under each. */
  lemma DoubleMatchCountedTwice(page: Page, clicks: Element -> bool, s1: string, s2: string, e: Element)
    requires page.select(Document, s1) == Matches([e]) && page.select(Document, s2) == Matches([e])
    requires clicks(e)
    ensures |SelectorPass(page, clicks, [s1, s2])| == 2
    ensures ClickedElements(SelectorPass(page, clicks, [s1, s2])) == [e, e]
  {
    SelectorPassAppend(page, clicks, [s1], [s2]);
    assert [s1] + [s2] == [s1, s2];
    SelectorPassOne(page, clicks, s1);
    SelectorPassOne(page, clicks, s2);
    ClicksInOne(page, clicks, s1, e);
    ClicksInOne(page, clicks, s2, e);
  }

  /** Some selector returns `e` exactly when the first does or one of the rest does. */
  lemma ReturnsSome(page: Page, sels: seq<string>, e: Element)
    requires |sels| > 0
    ensures (exists j :: 0 <= j < |sels| && Returns(page, sels[j], e))
        <==> Returns(page, sels[0], e) || exists j :: 0 <= j < |sels| - 1 && Returns(page, sels[1..][j], e)
  {
    var rest := sels[1..];
    if exists j :: 0 <= j < |sels| && Returns(page, sels[j], e) {
      var j :| 0 <= j < |sels| && Returns(page, sels[j], e);
      if j > 0 { assert rest[j - 1] == sels[j]; }
    }
    if exists j :: 0 <= j < |rest| && Returns(page, rest[j], e) {
      var j :| 0 <= j < |rest| && Returns(page, rest[j], e);
      assert sels[j + 1] == rest[j];
    }
  }

  /** The query for `sel` succeeds and returns `e`. */
  predicate Returns(page: Page, sel: string, e: Element) {
    page.select(Document, sel).Matches? && e in page.select(Document, sel).elements
  }

  // ---------------------------------------------------------------------------
  // Text scan

  /** The text scan over the clickable elements: the first that qualifies and whose
      click does not throw; a throwing click moves on to the next element, a
      successful one ends the scan. */
  function TextScan(es: seq<Element>, clicks: Element -> bool): (r: Option<Element>)
    ensures r.Some? ==> r.value in es && clicks(r.value)
    ensures r.None? <==> forall i :: 0 <= i < |es| ==> !clicks(es[i])
    ensures r.Some? ==> exists i :: 0 <= i < |es| && es[i] == r.value && forall j :: 0 <= j < i ==> !clicks(es[j])
  {
    var i := FirstIndex(es, clicks);
    if i < |es| then Some(es[i]) else None
  }

  // ---------------------------------------------------------------------------
  // Container hiding

  /** Hiding over one query's matches: each visible cookie banner not yet hidden is
      hidden; once hidden, an element is no longer visible to later matches. */
  function HideIn(es: seq<Element>, hidden: seq<Element>): (r: seq<Element>)
    ensures |r| >= |hidden| && r[..|hidden|] == hidden
    decreases |es|
  {
    if |es| == 0 then hidden
    else if IsVisibleCookieBanner(es[0]) && es[0].key !in Keys(hidden) then HideIn(es[1..], hidden + [es[0]])
    else HideIn(es[1..], hidden)
  }

  /** `hideCookieContainers` from the given selectors on: a query that throws is
      skipped. The result lists the elements hidden, in the order they were hidden. */
  function HideFrom(page: Page, sels: seq<string>, hidden: seq<Element>): (r: seq<Element>)
    ensures |r| >= |hidden| && r[..|hidden|] == hidden
    decreases |sels|
  {
    if |sels| == 0 then hidden
    else match page.select(Document, sels[0])
      case Invalid => HideFrom(page, sels[1..], hidden)
      case Matches(es) => HideFrom(page, sels[1..], HideIn(es, hidden))
  }

  /** `hideCookieContainers()`. */
  function HideCookieContainers(page: Page): seq<Element> {
    HideFrom(page, ContainerSelectors, [])
  }

  /** No key is hidden twice. */
  ghost predicate DistinctKeys(hs: seq<Element>) {
    forall i, j :: 0 <= i < j < |hs| ==> hs[i].key != hs[j].key
  }

  /** Everything hidden was a visible cookie banner when hidden. */
  ghost predicate AllBanners(hs: seq<Element>) {
    forall i :: 0 <= i < |hs| ==> IsVisibleCookieBanner(hs[i])
  }

  /** Hiding keeps the hidden list free of repeated keys and made of visible banners. */
  lemma {:induction false} HideInInvariant(es: seq<Element>, hidden: seq<Element>)
    requires DistinctKeys(hidden) && AllBanners(hidden)
    ensures DistinctKeys(HideIn(es, hidden)) && AllBanners(HideIn(es, hidden))
    decreases |es|
  {
    if |es| > 0 {
      var e := es[0];
      if IsVisibleCookieBanner(e) && e.key !in Keys(hidden) {
        var next := hidden + [e];
        forall i, j | 0 <= i < j < |next| ensures next[i].key != next[j].key {
          if j == |hidden| {
            assert next[i] == hidden[i];
          }
        }
        HideInInvariant(es[1..], next);
      } else {
        HideInInvariant(es[1..], hidden);
      }
    }
  }

  /** The keys hidden so far stay hidden. */
  lemma KeysKept(hidden: seq<Element>, r: seq<Element>)
    requires |r| >= |hidden| && r[..|hidden|] == hidden
    ensures Keys(hidden) <= Keys(r)
  {
    forall k | k in Keys(hidden) ensures k in Keys(r) {
      var i :| 0 <= i < |hidden| && hidden[i].key == k;
      assert r[..|hidden|][i] == hidden[i];
    }
  }

  /** After hiding over `es`, every visible cookie banner among them is hidden. */
  lemma {:induction false} HideInComplete(es: seq<Element>, hidden: seq<Element>)
    ensures forall i :: 0 <= i < |es| && IsVisibleCookieBanner(es[i]) ==> es[i].key in Keys(HideIn(es, hidden))
    decreases |es|
  {
    if |es| > 0 {
      var e := es[0];
      var next := if IsVisibleCookieBanner(e) && e.key !in Keys(hidden) then hidden + [e] else hidden;
      HideInComplete(es[1..], next);
      var r := HideIn(es, hidden);
      assert r == HideIn(es[1..], next);
      KeysKept(next, r);
      if IsVisibleCookieBanner(e) {
        assert e.key in Keys(next) by {
          if e.key !in Keys(hidden) { assert next[|hidden|] == e; }
        }
      }
      forall i | 1 <= i < |es| ensures es[i] == es[1..][i - 1] { }
    }
  }

  /** Hiding over `es` hides only keys hidden before or found among `es`. */
  lemma {:induction false} HideInProvenance(es: seq<Element>, hidden: seq<Element>)
    ensures forall k :: k in Keys(HideIn(es, hidden)) ==> k in Keys(hidden) || exists i :: 0 <= i < |es| && es[i].key == k
    decreases |es|
  {
    if |es| > 0 {
      var e := es[0];
      var next := if IsVisibleCookieBanner(e) && e.key !in Keys(hidden) then hidden + [e] else hidden;
      HideInProvenance(es[1..], next);
      assert HideIn(es, hidden) == HideIn(es[1..], next);
      forall k | k in Keys(next) ensures k in Keys(hidden) || k == e.key {
        var i :| 0 <= i < |next| && next[i].key == k;
        if i < |hidden| { assert next[i] == hidden[i]; }
      }
      forall k | k in Keys(HideIn(es, hidden)) && k !in Keys(next)
        ensures exists i :: 0 <= i < |es| && es[i].key == k
      {
        var i :| 0 <= i < |es[1..]| && es[1..][i].key == k;
        assert es[i + 1].key == k;
      }
    }
  }

  /** Over matches without a visible cookie banner nothing more is hidden. */
  lemma {:induction false} HideInNone(es: seq<Element>, hidden: seq<Element>)
    requires forall i :: 0 <= i < |es| ==> !IsVisibleCookieBanner(es[i])
    ensures HideIn(es, hidden) == hidden
    decreases |es|
  {
    if |es| > 0 {
      HideInNone(es[1..], hidden);
    }
  }

  /** Hiding from a list of selectors keeps the hidden list free of repeated keys and
      made of visible banners. */
  lemma {:induction false} HideFromInvariant(page: Page, sels: seq<string>, hidden: seq<Element>)
    requires DistinctKeys(hidden) && AllBanners(hidden)
    ensures DistinctKeys(HideFrom(page, sels, hidden)) && AllBanners(HideFrom(page, sels, hidden))
    decreases |sels|
  {
    if |sels| > 0 {
      match page.select(Document, sels[0])
      case Invalid => HideFromInvariant(page, sels[1..], hidden);
      case Matches(es) =>
        HideInInvariant(es, hidden);
        HideFromInvariant(page, sels[1..], HideIn(es, hidden));
    }
  }

  /** Every visible cookie banner that a query of `sels` returns ends up hidden. */
  lemma {:induction false} HideFromComplete(page: Page, sels: seq<string>, hidden: seq<Element>)
    ensures forall j, e :: 0 <= j < |sels| && Returns(page, sels[j], e) && IsVisibleCookieBanner(e) ==>
              e.key in Keys(HideFrom(page, sels, hidden))
    decreases |sels|
  {
    if |sels| > 0 {
      var r := HideFrom(page, sels, hidden);
      var next := match page.select(Document, sels[0])
        case Invalid => hidden
        case Matches(es) => HideIn(es, hidden);
      assert r == HideFrom(page, sels[1..], next);
      HideFromComplete(page, sels[1..], next);
      KeysKept(next, r);
      match page.select(Document, sels[0])
      case Invalid =>
      case Matches(es) =>
        HideInComplete(es, hidden);
        forall e | e in es && IsVisibleCookieBanner(e) ensures e.key in Keys(r) {
          var i :| 0 <= i < |es| && es[i] == e;
        }
      forall j, e | 1 <= j < |sels| && Returns(page, sels[j], e) && IsVisibleCookieBanner(e) ensures e.key in Keys(r) {
        assert sels[1..][j - 1] == sels[j];
      }
    }
  }

  /** On a page whose queries return no visible cookie banner, nothing is hidden. */
  lemma {:induction false} HideFromNone(page: Page, sels: seq<string>, hidden: seq<Element>)
    requires forall j, e :: 0 <= j < |sels| && Returns(page, sels[j], e) ==> !IsVisibleCookieBanner(e)
    ensures HideFrom(page, sels, hidden) == hidden
    decreases |sels|
  {
    if |sels| > 0 {
      forall j, e | 0 <= j < |sels| - 1 && Returns(page, sels[1..][j], e) ensures !IsVisibleCookieBanner(e) {
        assert sels[1..][j] == sels[j + 1];
      }
      match page.select(Document, sels[0])
      case Invalid => HideFromNone(page, sels[1..], hidden);
      case Matches(es) =>
        assert forall i :: 0 <= i < |es| ==> Returns(page, sels[0], es[i]);
        HideInNone(es, hidden);
        HideFromNone(page, sels[1..], hidden);
    }
  }

  /** `hideCookieContainers` hides each visible cookie banner its selectors reach
      exactly once, hides nothing else, and a second run on the resulting page hides
      nothing more. */
  lemma HideCookieContainersSpec(page: Page)
    ensures DistinctKeys(HideCookieContainers(page)) && AllBanners(HideCookieContainers(page))
    ensures forall j, e :: 0 <= j < |ContainerSelectors| && Returns(page, ContainerSelectors[j], e) && IsVisibleCookieBanner(e) ==>
              e.key in Keys(HideCookieContainers(page))
    ensures HideCookieContainers(WithHidden(page, Keys(HideCookieContainers(page)))) == []
  {
    var h := HideCookieContainers(page);
    HideFromInvariant(page, ContainerSelectors, []);
    HideFromComplete(page, ContainerSelectors, []);
    HiddenPageShowsNoBanner(page, ContainerSelectors, h);
    HideFromNone(WithHidden(page, Keys(h)), ContainerSelectors, []);
  }

  /** Once every visible cookie banner the selectors reach is hidden, they reach none. */
  lemma HiddenPageShowsNoBanner(page: Page, sels: seq<string>, h: seq<Element>)
    requires forall j, e :: 0 <= j < |sels| && Returns(page, sels[j], e) && IsVisibleCookieBanner(e) ==> e.key in Keys(h)
    ensures forall j, e :: 0 <= j < |sels| && Returns(WithHidden(page, Keys(h)), sels[j], e) ==> !IsVisibleCookieBanner(e)
  {
    var p := WithHidden(page, Keys(h));
    forall j, e | 0 <= j < |sels| && Returns(p, sels[j], e) ensures !IsVisibleCookieBanner(e) {
      var es := page.select(Document, sels[j]).elements;
      var hs := HideKeys(es, Keys(h));
      var i :| 0 <= i < |hs| && hs[i] == e;
      assert Returns(page, sels[j], es[i]);
    }
  }

  // ---------------------------------------------------------------------------
  // The ladder

  /** What one run of the ladder did: the selector pass's clicks, the text scan's
      click, the containers hidden, and the `declined` counter. */
  datatype DeclineRun = DeclineRun(clicks: seq<Click>, textClick: Option<Element>, hidden: seq<Element>, declined: nat)

  /** The object `autoDeclineCookies` resolves to. */
  datatype Report = Report(declined: nat, total: nat)

  /** `autoDeclineCookies()` on a snapshot page: the selector pass over the selectors
      for the host; only when it clicked nothing, the text scan; only when that
      clicked nothing too, container hiding. The text-scan query is not guarded, so
      a failure there aborts the run. */
  function AutoDeclineCookies(page: Page): (r: Attempt<DeclineRun>)
    ensures r.Ok? ==> r.value.declined == |r.value.clicks| + (if r.value.textClick.Some? then 1 else 0)
    ensures r.Ok? && r.value.textClick.Some? ==> r.value.clicks == []
    ensures r.Ok? && r.value.hidden != [] ==> r.value.declined == 0
    ensures r.Ok? && r.value.declined == 0 ==> r.value.hidden == HideCookieContainers(page)
    ensures r.Ok? ==> forall i :: 0 <= i < |r.value.clicks| ==> Clicks(r.value.clicks[i].element)
    ensures r.Ok? && r.value.textClick.Some? ==> Clicks(r.value.textClick.value)
    ensures r.SelectorError? ==> r.selector == ClickableQuery
    ensures r.SelectorError? <==> SelectorPass(page, Clicks, SelectorsToTry(page.hostname)) == []
                                  && page.select(Document, ClickableQuery).Invalid?
    ensures r.Ok? ==> r.value.clicks == SelectorPass(page, Clicks, SelectorsToTry(page.hostname))
    ensures r.Ok? && r.value.clicks == [] ==>
              page.select(Document, ClickableQuery).Matches?
              && r.value.textClick == TextScan(page.select(Document, ClickableQuery).elements, Clicks)
  {
    var clicks := SelectorPass(page, Clicks, SelectorsToTry(page.hostname));
    if |clicks| > 0 then Ok(DeclineRun(clicks, None, [], |clicks|))
    else match page.select(Document, ClickableQuery)
      case Invalid => SelectorError(ClickableQuery)
      case Matches(es) =>
        match TextScan(es, Clicks)
        case Some(e) => Ok(DeclineRun([], Some(e), [], 1))
        case None => Ok(DeclineRun([], None, HideCookieContainers(page), 0))
  }

  /** The result object: `{ declined, total: declined }`. */
  function ReportOf(run: DeclineRun): Report {
    Report(run.declined, run.declined)
  }

  /** `e` is a button the ladder can click: a match of one of the host's selectors
      or of the text scan's query, qualifying, with a click that does not throw. */
  predicate Clickable(page: Page, e: Element) {
    Clicks(e) && (Returns(page, ClickableQuery, e)
                  || exists j :: 0 <= j < |SelectorsToTry(page.hostname)| && Returns(page, SelectorsToTry(page.hostname)[j], e))
  }

  /** The ladder reports a decline exactly when the page holds a button it can click,
      and its result object counts the same number twice. */
  lemma DeclinedIffSomeButtonWorks(page: Page)
    ensures var r := AutoDeclineCookies(page);
      r.Ok? ==> ReportOf(r.value).total == ReportOf(r.value).declined
                && (ReportOf(r.value).declined > 0 <==> exists e :: Clickable(page, e))
  {
    var r := AutoDeclineCookies(page);
    var sels := SelectorsToTry(page.hostname);
    var clicks := SelectorPass(page, Clicks, sels);
    if r.Ok? {
      if ReportOf(r.value).declined > 0 {
        if |clicks| > 0 {
          var e := ClickedElements(clicks)[0];
          SelectorPassMembers(page, Clicks, sels, e);
          assert Clickable(page, e);
        } else {
          var e := r.value.textClick.value;
          assert Clickable(page, e);
        }
      }
      if e :| Clickable(page, e) {
        DeclinesWhenAButtonWorks(page, e);
      }
    }
  }

  /** A button the ladder can click is clicked: the run succeeds and declines. */
  lemma DeclinesWhenAButtonWorks(page: Page, e: Element)
    requires Clickable(page, e)
    ensures AutoDeclineCookies(page).Ok? && AutoDeclineCookies(page).value.declined >= 1
  {
    var sels := SelectorsToTry(page.hostname);
    var clicks := SelectorPass(page, Clicks, sels);
    if |clicks| == 0 {
      if exists j :: 0 <= j < |sels| && Returns(page, sels[j], e) {
        SelectorPassMembers(page, Clicks, sels, e);
        assert false;
      }
      var es := page.select(Document, ClickableQuery).elements;
      var i :| 0 <= i < |es| && es[i] == e;
      assert TextScan(es, Clicks).Some?;
    }
  }

  /** The ladder never clicks an element whose signal carries an accept term. */
  lemma NeverClicksAccept(page: Page)
    ensures var r := AutoDeclineCookies(page);
      r.Ok? ==>
        && (forall i :: 0 <= i < |r.value.clicks| ==> !MentionsAny(LikelySignal(r.value.clicks[i].element), LikelyAcceptTerms))
        && (r.value.textClick.Some? ==> !MentionsAny(LikelySignal(r.value.textClick.value), LikelyAcceptTerms))
  {
    var r := AutoDeclineCookies(page);
    if r.Ok? {
      forall i | 0 <= i < |r.value.clicks| ensures !MentionsAny(LikelySignal(r.value.clicks[i].element), LikelyAcceptTerms) {
        LikelyDeclineVeto(r.value.clicks[i].element);
      }
      if r.value.textClick.Some? {
        LikelyDeclineVeto(r.value.textClick.value);
      }
    }
  }

  /** The selector pass clicks exactly the elements that some selector for the host
      returns, that qualify, and whose click does not throw. */
  lemma SelectorPassClicksExactly(page: Page, e: Element)
    ensures e in ClickedElements(SelectorPass(page, Clicks, SelectorsToTry(page.hostname))) <==>
              Clicks(e) && exists j :: 0 <= j < |SelectorsToTry(page.hostname)| && Returns(page, SelectorsToTry(page.hostname)[j], e)
  {
    SelectorPassMembers(page, Clicks, SelectorsToTry(page.hostname), e);
  }

  /** A click that throws is not counted: when every qualifying element any query
      returns throws on click, nothing is declined and the containers are hidden. */
  lemma ThrowingClicksNotCounted(page: Page)
    requires forall s, e :: Returns(page, s, e) && Qualifies(e) ==> e.clickThrows
    ensures AutoDeclineCookies(page).Ok? ==> AutoDeclineCookies(page).value.declined == 0
  {
    var sels := SelectorsToTry(page.hostname);
    var clicks := SelectorPass(page, Clicks, sels);
    if |clicks| > 0 {
      var e := ClickedElements(clicks)[0];
      SelectorPassMembers(page, Clicks, sels, e);
    }
    match page.select(Document, ClickableQuery)
    case Invalid =>
    case Matches(es) =>
      assert forall i :: 0 <= i < |es| ==> Returns(page, ClickableQuery, es[i]);
  }
}
