/** Banner and decline-button search of the content script: ordered selector lists,
    each query's matches in document order, and the bounded walk up to a banner
    container. */
module Banner {
  import opened Wrappers
  import opened Strings
  import opened Dom
  import opened Affordance

  /** `cookieBannerSelectors`, in the order they are tried. */
  const BannerSelectors: seq<string> := [
    "[class*=\"cookie\"]", "[id*=\"cookie\"]", "[class*=\"consent\"]", "[id*=\"consent\"]",
    "[class*=\"gdpr\"]", "[id*=\"gdpr\"]", "[class*=\"privacy\"]", "[id*=\"privacy\"]",
    ".cookie-banner", ".cookie-notice", ".cookie-popup",
    "#cookie-banner", "#cookie-notice", "#cookie-popup",
    "[data-testid*=\"cookie\"]", "[data-cy*=\"cookie\"]"
  ]

  /** The selectors `findDeclineButton` tries inside a banner, in order. */
  const DeclineSelectors: seq<string> := [
    "button[data-testid*=\"decline\"]", "button[data-testid*=\"reject\"]",
    "button[id*=\"decline\"]", "button[id*=\"reject\"]",
    "button[class*=\"decline\"]", "button[class*=\"reject\"]",
    "a[data-testid*=\"decline\"]", "a[data-testid*=\"reject\"]",
    "a[id*=\"decline\"]", "a[id*=\"reject\"]",
    "a[class*=\"decline\"]", "a[class*=\"reject\"]",
    "[data-cy*=\"decline\"]", "[data-cy*=\"reject\"]",
    "[data-qa*=\"decline\"]", "[data-qa*=\"reject\"]",
    "[data-role*=\"decline\"]", "[data-role*=\"reject\"]",
    "button[aria-label*=\"decline\"]", "button[aria-label*=\"reject\"]", "button[aria-label*=\"refuse\"]",
    "button", "a", "[role=\"button\"]"
  ]

  // ---------------------------------------------------------------------------
  // First-match search

  /** The position of the first element satisfying `p`, or `|es|` when none does. */
  function FirstIndex(es: seq<Element>, p: Element -> bool): (i: nat)
    ensures i <= |es|
    ensures i < |es| ==> p(es[i])
    ensures forall j :: 0 <= j < i ==> !p(es[j])
    decreases |es|
  {
    if |es| == 0 then 0 else if p(es[0]) then 0 else 1 + FirstIndex(es[1..], p)
  }

  /** The query for `s` succeeds and none of its matches satisfies `p`. */
  predicate NoHit(page: Page, scope: Scope, s: string, p: Element -> bool) {
    match page.select(scope, s)
    case Invalid => false
    case Matches(es) => forall i :: 0 <= i < |es| ==> !p(es[i])
  }

  /** `e` is the first element of `es` satisfying `p`. */
  ghost predicate FirstHit(es: seq<Element>, p: Element -> bool, e: Element) {
    exists i :: 0 <= i < |es| && es[i] == e && p(e) && forall j :: 0 <= j < i ==> !p(es[j])
  }

  /** Selectors before `k` yield nothing and selector `k` yields `e` first. */
  ghost predicate HitAt(page: Page, scope: Scope, sels: seq<string>, p: Element -> bool, k: int, e: Element) {
    && 0 <= k < |sels|
    && (forall j :: 0 <= j < k ==> NoHit(page, scope, sels[j], p))
    && page.select(scope, sels[k]).Matches?
    && FirstHit(page.select(scope, sels[k]).elements, p, e)
  }

  /** Selectors before `k` yield nothing and selector `k` throws. */
  ghost predicate ThrowsAt(page: Page, scope: Scope, sels: seq<string>, p: Element -> bool, k: int) {
    && 0 <= k < |sels|
    && (forall j :: 0 <= j < k ==> NoHit(page, scope, sels[j], p))
    && page.select(scope, sels[k]).Invalid?
  }

  /** The nested loops `for (selector of sels) for (element of querySelectorAll(selector))
      if (p(element)) return element;` with an unguarded query: the first match in
      selector order, then document order; `None` when nothing matches; the failing
      selector when a query throws first. */
  function FirstMatch(page: Page, scope: Scope, sels: seq<string>, p: Element -> bool): Attempt<Option<Element>>
    decreases |sels|
  {
    if |sels| == 0 then Ok(None)
    else match page.select(scope, sels[0])
      case Invalid => SelectorError(sels[0])
      case Matches(es) =>
        var i := FirstIndex(es, p);
        if i < |es| then Ok(Some(es[i])) else FirstMatch(page, scope, sels[1..], p)
  }

  /** Some selector is the first with a hit, and `e` is its first hit. */
  ghost predicate Found(page: Page, scope: Scope, sels: seq<string>, p: Element -> bool, e: Element) {
    exists k :: HitAt(page, scope, sels, p, k, e)
  }

  /** Selector `s` throws before any selector has a hit. */
  ghost predicate Thrown(page: Page, scope: Scope, sels: seq<string>, p: Element -> bool, s: string) {
    exists k :: ThrowsAt(page, scope, sels, p, k) && sels[k] == s
  }

  /** `FirstMatch` against its specification: nothing found exactly when every query
      succeeds without a hit; `e` found exactly when some selector is the first with a
      hit and `e` is its first hit; an error exactly when some selector throws before
      any hit. */
  lemma {:induction false} FirstMatchSpec(page: Page, scope: Scope, sels: seq<string>, p: Element -> bool)
    ensures FirstMatch(page, scope, sels, p) == Ok(None) <==> forall j :: 0 <= j < |sels| ==> NoHit(page, scope, sels[j], p)
    ensures forall e :: FirstMatch(page, scope, sels, p) == Ok(Some(e)) <==> Found(page, scope, sels, p, e)
    ensures forall s :: FirstMatch(page, scope, sels, p) == SelectorError(s) <==> Thrown(page, scope, sels, p, s)
    decreases |sels|
  {
    if |sels| > 0 {
      var r := FirstMatch(page, scope, sels, p);
      var rest := sels[1..];
      FirstMatchSpec(page, scope, rest, p);
      match page.select(scope, sels[0])
      case Invalid =>
        assert !NoHit(page, scope, sels[0], p);
        assert ThrowsAt(page, scope, sels, p, 0);
        forall k, e ensures !HitAt(page, scope, sels, p, k, e) { }
        forall k ensures ThrowsAt(page, scope, sels, p, k) ==> k == 0 { }
      case Matches(es) =>
        var i := FirstIndex(es, p);
        if i < |es| {
          assert !NoHit(page, scope, sels[0], p);
          assert FirstHit(es, p, es[i]);
          assert HitAt(page, scope, sels, p, 0, es[i]);
          forall k, e ensures HitAt(page, scope, sels, p, k, e) ==> k == 0 && e == es[i] {
            if k == 0 && HitAt(page, scope, sels, p, k, e) {
              var i' :| 0 <= i' < |es| && es[i'] == e && p(e) && forall j :: 0 <= j < i' ==> !p(es[j]);
              assert i' == i;
            }
          }
          forall k ensures !ThrowsAt(page, scope, sels, p, k) { }
        } else {
          assert NoHit(page, scope, sels[0], p);
          assert r == FirstMatch(page, scope, rest, p);
          assert (forall j :: 0 <= j < |sels| ==> NoHit(page, scope, sels[j], p))
             <==> (forall j :: 0 <= j < |rest| ==> NoHit(page, scope, rest[j], p)) by {
            assert forall j :: 0 < j < |sels| ==> sels[j] == rest[j - 1];
          }
          forall e ensures Found(page, scope, sels, p, e) <==> Found(page, scope, rest, p, e) {
            HitShift(page, scope, sels, p, e);
          }
          forall s ensures Thrown(page, scope, sels, p, s) <==> Thrown(page, scope, rest, p, s) {
            ThrowShift(page, scope, sels, p, s);
          }
        }
    }
  }

  /** Past a first selector with no hit, a hit at `k + 1` is a hit at `k` of the rest. */
  lemma HitShift(page: Page, scope: Scope, sels: seq<string>, p: Element -> bool, e: Element)
    requires |sels| > 0 && NoHit(page, scope, sels[0], p)
    ensures Found(page, scope, sels, p, e) <==> Found(page, scope, sels[1..], p, e)
  {
    var rest := sels[1..];
    assert !FirstHit(page.select(scope, sels[0]).elements, p, e);
    forall k ensures HitAt(page, scope, sels, p, k, e) ==> HitAt(page, scope, rest, p, k - 1, e) {
      if 0 < k < |sels| {
        assert forall j :: 0 <= j < k - 1 ==> rest[j] == sels[j + 1];
      }
    }
    forall k ensures HitAt(page, scope, rest, p, k, e) ==> HitAt(page, scope, sels, p, k + 1, e) {
      if 0 <= k < |rest| {
        assert forall j :: 0 < j < k + 1 ==> sels[j] == rest[j - 1];
      }
    }
  }

  /** Past a first selector with no hit, a throw at `k + 1` is a throw at `k` of the rest. */
  lemma ThrowShift(page: Page, scope: Scope, sels: seq<string>, p: Element -> bool, s: string)
    requires |sels| > 0 && NoHit(page, scope, sels[0], p)
    ensures Thrown(page, scope, sels, p, s) <==> Thrown(page, scope, sels[1..], p, s)
  {
    var rest := sels[1..];
    forall k ensures ThrowsAt(page, scope, sels, p, k) ==> ThrowsAt(page, scope, rest, p, k - 1) && (sels[k] == s ==> rest[k - 1] == s) {
      if 0 < k < |sels| {
        assert forall j :: 0 <= j < k - 1 ==> rest[j] == sels[j + 1];
      }
    }
    forall k ensures ThrowsAt(page, scope, rest, p, k) ==> ThrowsAt(page, scope, sels, p, k + 1) && (rest[k] == s ==> sels[k + 1] == s) {
      if 0 <= k < |rest| {
        assert forall j :: 0 < j < k + 1 ==> sels[j] == rest[j - 1];
      }
    }
  }

  // ---------------------------------------------------------------------------
  // findDeclineButton

  /** `findDeclineButton(banner)`: the first element inside the banner, in selector
      order then document order, that `isDeclineButton` accepts. */
  function FindDeclineButton(page: Page, banner: Element): Attempt<Option<Element>> {
    FirstMatch(page, Within(banner.key), DeclineSelectors, IsDeclineButton)
  }

  /** A found element satisfies the test and is among the matches of one of the selectors. */
  lemma FirstMatchQualifies(page: Page, scope: Scope, sels: seq<string>, p: Element -> bool, b: Element)
    requires FirstMatch(page, scope, sels, p) == Ok(Some(b))
    ensures p(b)
    ensures exists k :: 0 <= k < |sels| && page.select(scope, sels[k]).Matches? && b in page.select(scope, sels[k]).elements
  {
    FirstMatchSpec(page, scope, sels, p);
    var k :| HitAt(page, scope, sels, p, k, b);
    var es := page.select(scope, sels[k]).elements;
    var i :| 0 <= i < |es| && es[i] == b && p(b) && forall j :: 0 <= j < i ==> !p(es[j]);
  }

  /** A button found is a decline button matched by one of the selectors inside the banner. */
  lemma FoundDeclineButtonQualifies(page: Page, banner: Element, b: Element)
    requires FindDeclineButton(page, banner) == Ok(Some(b))
    ensures IsDeclineButton(b)
    ensures exists k :: 0 <= k < |DeclineSelectors| && page.select(Within(banner.key), DeclineSelectors[k]).Matches?
                     && b in page.select(Within(banner.key), DeclineSelectors[k]).elements
  {
    FirstMatchQualifies(page, Within(banner.key), DeclineSelectors, IsDeclineButton, b);
  }

  /** When every query succeeds, a hit anywhere in the selector list means some
      element is found. */
  lemma FirstMatchFindsHit(page: Page, scope: Scope, sels: seq<string>, p: Element -> bool, k: nat, x: Element)
    requires forall j :: 0 <= j < |sels| ==> page.select(scope, sels[j]).Matches?
    requires k < |sels| && x in page.select(scope, sels[k]).elements && p(x)
    ensures FirstMatch(page, scope, sels, p).Ok? && FirstMatch(page, scope, sels, p).value.Some?
  {
    FirstMatchSpec(page, scope, sels, p);
    assert !NoHit(page, scope, sels[k], p);
    forall s ensures !Thrown(page, scope, sels, p, s) { }
  }

  /** The catch-all `button` selector makes the search complete for buttons: when every
      query inside the banner succeeds and some `button` in it is a decline button, a
      decline button is found. */
  lemma AnyDeclineButtonIsFound(page: Page, banner: Element, x: Element)
    requires forall k :: 0 <= k < |DeclineSelectors| ==> page.select(Within(banner.key), DeclineSelectors[k]).Matches?
    requires page.select(Within(banner.key), "button").Matches?
    requires x in page.select(Within(banner.key), "button").elements && IsDeclineButton(x)
    ensures FindDeclineButton(page, banner).Ok? && FindDeclineButton(page, banner).value.Some?
  {
    ButtonSelectorListed();
    FirstMatchFindsHit(page, Within(banner.key), DeclineSelectors, IsDeclineButton, 21, x);
  }

  /** The plain `button` selector is the twenty-second decline selector. */
  lemma ButtonSelectorListed()
    ensures |DeclineSelectors| == 24 && DeclineSelectors[21] == "button"
  {
  }

  // ---------------------------------------------------------------------------
  // findCookieBanners

  /** One entry of `findCookieBanners`' result. */
  datatype BannerCandidate = BannerCandidate(element: Element, selector: string, text: string, declineButton: Option<Element>)

  /** `textContent.substring(0, 100)`: the first hundred characters, or all of a shorter text. */
  function Excerpt(s: string): (r: string)
    ensures IsPrefix(r, s)
    ensures |r| <= 100
    ensures |r| < 100 ==> r == s
  {
    if |s| <= 100 then s else s[..100]
  }

  /** The candidates one query contributes: one per visible cookie banner among its
      matches, in document order, each with the outcome of the decline-button
      search `find` on it. */
  function BannersIn(find: Element -> Attempt<Option<Element>>, sel: string, es: seq<Element>): Attempt<seq<BannerCandidate>>
    decreases |es|
  {
    if |es| == 0 then Ok([])
    else if !IsVisibleCookieBanner(es[0]) then BannersIn(find, sel, es[1..])
    else match find(es[0])
      case SelectorError(s) => SelectorError(s)
      case Ok(b) =>
        match BannersIn(find, sel, es[1..])
        case SelectorError(s) => SelectorError(s)
        case Ok(rest) => Ok([BannerCandidate(es[0], sel, Excerpt(es[0].text), b)] + rest)
  }

  /** The loop over selectors of `findCookieBanners`, with unguarded queries; `find`
      is the decline-button search run on each banner. */
  function CollectBanners(page: Page, find: Element -> Attempt<Option<Element>>, sels: seq<string>): Attempt<seq<BannerCandidate>>
    decreases |sels|
  {
    if |sels| == 0 then Ok([])
    else match page.select(Document, sels[0])
      case Invalid => SelectorError(sels[0])
      case Matches(es) =>
        match BannersIn(find, sels[0], es)
        case SelectorError(s) => SelectorError(s)
        case Ok(bs) =>
          match CollectBanners(page, find, sels[1..])
          case SelectorError(s) => SelectorError(s)
          case Ok(rest) => Ok(bs + rest)
  }

  /** `findCookieBanners()`: the banner selectors, each banner searched with
      `findDeclineButton`. */
  function FindCookieBanners(page: Page): Attempt<seq<BannerCandidate>> {
    CollectBanners(page, b => FindDeclineButton(page, b), BannerSelectors)
  }

  /** Reference listing: every (selector, element) pair with the element a visible
      cookie banner among the selector's matches, selector by selector, with no
      deduplication. A query that throws contributes nothing here. */
  function VisiblePairs(page: Page, sels: seq<string>): seq<(string, Element)>
    decreases |sels|
  {
    if |sels| == 0 then []
    else
      var here := match page.select(Document, sels[0])
        case Invalid => []
        case Matches(es) => VisibleIn(sels[0], es);
      here + VisiblePairs(page, sels[1..])
  }

  /** The pairs one selector's matches contribute to `VisiblePairs`. */
  function VisibleIn(sel: string, es: seq<Element>): seq<(string, Element)>
    decreases |es|
  {
    if |es| == 0 then []
    else (if IsVisibleCookieBanner(es[0]) then [(sel, es[0])] else []) + VisibleIn(sel, es[1..])
  }

  /** `bs` lists the pairs of `pairs`, one entry each, with the excerpt of the
      element's text and the outcome of its decline-button search. */
  ghost predicate Describes(find: Element -> Attempt<Option<Element>>, bs: seq<BannerCandidate>, pairs: seq<(string, Element)>) {
    |bs| == |pairs| && forall i :: 0 <= i < |bs| ==> Entry(find, bs[i], pairs[i])
  }

  /** `b` is the entry for the pair (selector, element). */
  ghost predicate Entry(find: Element -> Attempt<Option<Element>>, b: BannerCandidate, pair: (string, Element)) {
    && b.selector == pair.0
    && b.element == pair.1
    && b.text == Excerpt(pair.1.text)
    && find(pair.1) == Ok(b.declineButton)
  }

  /** Every pair's decline-button search completes. */
  ghost predicate SearchesComplete(find: Element -> Attempt<Option<Element>>, pairs: seq<(string, Element)>) {
    forall i :: 0 <= i < |pairs| ==> find(pairs[i].1).Ok?
  }

  lemma DescribesAppend(find: Element -> Attempt<Option<Element>>, a: seq<BannerCandidate>, p: seq<(string, Element)>, b: seq<BannerCandidate>, q: seq<(string, Element)>)
    requires Describes(find, a, p) && Describes(find, b, q)
    ensures Describes(find, a + b, p + q)
  {
    forall i | 0 <= i < |a| + |b| ensures Entry(find, (a + b)[i], (p + q)[i]) {
      if i < |a| {
        assert (a + b)[i] == a[i] && (p + q)[i] == p[i];
      } else {
        assert (a + b)[i] == b[i - |a|] && (p + q)[i] == q[i - |a|];
      }
    }
  }

  lemma SearchesCompleteAppend(find: Element -> Attempt<Option<Element>>, p: seq<(string, Element)>, q: seq<(string, Element)>)
    ensures SearchesComplete(find, p + q) <==> SearchesComplete(find, p) && SearchesComplete(find, q)
  {
    assert forall i :: 0 <= i < |p| ==> (p + q)[i] == p[i];
    assert forall i :: 0 <= i < |q| ==> (p + q)[|p| + i] == q[i];
  }

  /** One query's candidates against the reference: the result is an error exactly
      when some visible banner's decline-button search fails, and otherwise lists
      the visible banners in order. */
  lemma {:induction false} BannersInSpec(find: Element -> Attempt<Option<Element>>, sel: string, es: seq<Element>)
    ensures BannersIn(find, sel, es).Ok? <==> SearchesComplete(find, VisibleIn(sel, es))
    ensures BannersIn(find, sel, es).Ok? ==> Describes(find, BannersIn(find, sel, es).value, VisibleIn(sel, es))
    decreases |es|
  {
    if |es| > 0 {
      BannersInSpec(find, sel, es[1..]);
      var here: seq<(string, Element)> := if IsVisibleCookieBanner(es[0]) then [(sel, es[0])] else [];
      SearchesCompleteAppend(find, here, VisibleIn(sel, es[1..]));
      if IsVisibleCookieBanner(es[0]) {
        match find(es[0])
        case SelectorError(_) =>
          assert !SearchesComplete(find, here);
        case Ok(b) =>
          if BannersIn(find, sel, es[1..]).Ok? {
            var c := [BannerCandidate(es[0], sel, Excerpt(es[0].text), b)];
            assert Describes(find, c, here);
            DescribesAppend(find, c, here, BannersIn(find, sel, es[1..]).value, VisibleIn(sel, es[1..]));
          }
      } else {
        assert here == [];
        assert VisibleIn(sel, es) == VisibleIn(sel, es[1..]);
      }
    }
  }

  /** `findCookieBanners` against the reference: it completes exactly when every
      selector parses and every visible banner's decline-button search completes,
      and then it holds one entry per (selector, visible match) pair, in order. */
  lemma {:induction false} CollectBannersSpec(page: Page, find: Element -> Attempt<Option<Element>>, sels: seq<string>)
    ensures CollectBanners(page, find, sels).Ok? <==>
              (forall j :: 0 <= j < |sels| ==> page.select(Document, sels[j]).Matches?)
              && SearchesComplete(find, VisiblePairs(page, sels))
    ensures CollectBanners(page, find, sels).Ok? ==> Describes(find, CollectBanners(page, find, sels).value, VisiblePairs(page, sels))
    decreases |sels|
  {
    if |sels| > 0 {
      var rest := sels[1..];
      CollectBannersSpec(page, find, rest);
      assert (forall j :: 0 <= j < |sels| ==> page.select(Document, sels[j]).Matches?)
         <==> page.select(Document, sels[0]).Matches? && (forall j :: 0 <= j < |rest| ==> page.select(Document, rest[j]).Matches?) by {
        assert forall j :: 0 < j < |sels| ==> sels[j] == rest[j - 1];
      }
      match page.select(Document, sels[0])
      case Invalid =>
      case Matches(es) =>
        BannersInSpec(find, sels[0], es);
        SearchesCompleteAppend(find, VisibleIn(sels[0], es), VisiblePairs(page, rest));
        if BannersIn(find, sels[0], es).Ok? && CollectBanners(page, find, rest).Ok? {
          DescribesAppend(find, BannersIn(find, sels[0], es).value, VisibleIn(sels[0], es),
                          CollectBanners(page, find, rest).value, VisiblePairs(page, rest));
        }
    }
  }

  /** Every pair of the reference listing names a visible cookie banner. */
  lemma {:induction false} VisiblePairsVisible(page: Page, sels: seq<string>)
    ensures forall i :: 0 <= i < |VisiblePairs(page, sels)| ==> IsVisibleCookieBanner(VisiblePairs(page, sels)[i].1)
    decreases |sels|
  {
    if |sels| > 0 {
      VisiblePairsVisible(page, sels[1..]);
      match page.select(Document, sels[0])
      case Invalid =>
      case Matches(es) =>
        VisibleInVisible(sels[0], es);
        var here := VisibleIn(sels[0], es);
        var rest := VisiblePairs(page, sels[1..]);
        assert forall i :: |here| <= i < |here| + |rest| ==> (here + rest)[i] == rest[i - |here|];
    }
  }

  lemma {:induction false} VisibleInVisible(sel: string, es: seq<Element>)
    ensures forall i :: 0 <= i < |VisibleIn(sel, es)| ==> IsVisibleCookieBanner(VisibleIn(sel, es)[i].1)
    decreases |es|
  {
    if |es| > 0 {
      VisibleInVisible(sel, es[1..]);
      var rest := VisibleIn(sel, es[1..]);
      assert forall i :: 0 <= i < |rest| ==> ([(sel, es[0])] + rest)[i + 1] == rest[i];
    }
  }

  /** Every banner `findCookieBanners` reports is a visible cookie banner whose text
      is the excerpt of the element's own text (its first hundred characters), and
      any decline button it carries is one `isDeclineButton` accepts. */
  lemma FindCookieBannersSound(page: Page)
    ensures FindCookieBanners(page).Ok? ==> forall i :: 0 <= i < |FindCookieBanners(page).value| ==>
      var b := FindCookieBanners(page).value[i];
      && IsVisibleCookieBanner(b.element)
      && |b.text| <= 100
      && b.text == Excerpt(b.element.text)
      && IsPrefix(b.text, b.element.text)
      && (b.declineButton.Some? ==> IsDeclineButton(b.declineButton.value))
  {
    var find := (b: Element) => FindDeclineButton(page, b);
    CollectBannersSpec(page, find, BannerSelectors);
    VisiblePairsVisible(page, BannerSelectors);
    if FindCookieBanners(page).Ok? {
      var bs := FindCookieBanners(page).value;
      var pairs := VisiblePairs(page, BannerSelectors);
      forall i | 0 <= i < |bs|
        ensures bs[i].text == Excerpt(bs[i].element.text)
        ensures bs[i].declineButton.Some? ==> IsDeclineButton(bs[i].declineButton.value)
      {
        assert Entry(find, bs[i], pairs[i]);
        if bs[i].declineButton.Some? {
          FoundDeclineButtonQualifies(page, bs[i].element, bs[i].declineButton.value);
        }
      }
    }
  }

  /** No deduplication: a visible banner matched by two selectors is listed twice. */
  lemma BannerListedPerSelector(page: Page, find: Element -> Attempt<Option<Element>>, s1: string, s2: string, e: Element)
    requires page.select(Document, s1) == Matches([e]) && page.select(Document, s2) == Matches([e])
    requires IsVisibleCookieBanner(e) && find(e).Ok?
    ensures CollectBanners(page, find, [s1, s2]).Ok?
    ensures |CollectBanners(page, find, [s1, s2]).value| == 2
    ensures CollectBanners(page, find, [s1, s2]).value[0].element == e && CollectBanners(page, find, [s1, s2]).value[1].element == e
  {
    var b := find(e).value;
    assert [e][1..] == [] && [e][0] == e;
    assert find(e) == Ok(b);
    assert BannersIn(find, s1, []) == Ok([]) && BannersIn(find, s2, []) == Ok([]);
    var c1, c2 := BannerCandidate(e, s1, Excerpt(e.text), b), BannerCandidate(e, s2, Excerpt(e.text), b);
    assert [c1] + [] == [c1] && [c2] + [] == [c2];
    assert BannersIn(find, s1, [e]) == Ok([BannerCandidate(e, s1, Excerpt(e.text), b)]);
    assert BannersIn(find, s2, [e]) == Ok([BannerCandidate(e, s2, Excerpt(e.text), b)]);
    assert [s2][1..] == [];
    assert CollectBanners(page, find, [s2]) == Ok([BannerCandidate(e, s2, Excerpt(e.text), b)]);
    assert [s1, s2][1..] == [s2];
  }

  // ---------------------------------------------------------------------------
  // findCookieBannerParent

  /** How many ancestors `findCookieBannerParent` inspects. */
  const MaxBannerDepth: nat := 10

  /** The test applied to each ancestor: its lower-cased text, class or id mentions
      "cookie" or "consent". */
  predicate MentionsCookie(e: Element) {
    || Contains(Lower(e.text), "cookie") || Contains(Lower(e.text), "consent")
    || Contains(Lower(e.cls), "cookie") || Contains(Lower(e.cls), "consent")
    || Contains(Lower(e.id), "cookie") || Contains(Lower(e.id), "consent")
  }

  /** The loop of `findCookieBannerParent` from `candidate` at `depth`, with the
      ancestor test `p`. */
  function BannerParentFrom(page: Page, p: Element -> bool, candidate: Option<Element>, depth: nat): Option<Element>
    decreases MaxBannerDepth - depth
  {
    if depth >= MaxBannerDepth then None
    else match candidate
      case None => None
      case Some(a) => if p(a) then Some(a) else BannerParentFrom(page, p, ParentOf(page, a), depth + 1)
  }

  /** `findCookieBannerParent(element)`. */
  function FindCookieBannerParent(page: Page, e: Element): Option<Element> {
    BannerParentFrom(page, MentionsCookie, ParentOf(page, e), 0)
  }

  /** The `k`-th ancestor exists and passes `p`. */
  predicate AncestorMentions(page: Page, p: Element -> bool, e: Element, k: nat) {
    Ancestor(page, e, k).Some? && p(Ancestor(page, e, k).value)
  }

  /** `a` is the `k`-th ancestor, within the depth bound, and the nearest one that
      mentions cookies or consent. */
  ghost predicate NearestBannerAncestor(page: Page, e: Element, k: int, a: Element) {
    && 1 <= k <= MaxBannerDepth
    && Ancestor(page, e, k) == Some(a)
    && MentionsCookie(a)
    && forall j :: 1 <= j < k ==> !AncestorMentions(page, MentionsCookie, e, j)
  }

  /** Once the parent chain ends it stays ended. */
  lemma {:induction false} AncestorGone(page: Page, e: Element, k: nat, m: nat)
    requires Ancestor(page, e, k).None? && k <= m
    ensures Ancestor(page, e, m).None?
    decreases m - k
  {
    if k < m {
      AncestorGone(page, e, k + 1, m);
    }
  }

  /** The loop from depth `d` inspects ancestors `d + 1` to `MaxBannerDepth`, and
      returns the first of them that passes `p`. */
  lemma {:induction false} BannerParentFromSpec(page: Page, p: Element -> bool, e: Element, d: nat)
    requires d <= MaxBannerDepth
    ensures var r := BannerParentFrom(page, p, Ancestor(page, e, d + 1), d);
      && (r.Some? ==> exists k :: d + 1 <= k && NearestFrom(page, p, e, d, k, r.value))
      && (r.None? ==> forall k :: d + 1 <= k <= MaxBannerDepth ==> !AncestorMentions(page, p, e, k))
    decreases MaxBannerDepth - d
  {
    var c := Ancestor(page, e, d + 1);
    if d < MaxBannerDepth {
      match c
      case None =>
        forall k | d + 1 <= k <= MaxBannerDepth ensures !AncestorMentions(page, p, e, k) {
          AncestorGone(page, e, d + 1, k);
        }
      case Some(a) =>
        if p(a) {
          assert NearestFrom(page, p, e, d, d + 1, a);
        } else {
          assert Ancestor(page, e, d + 2) == ParentOf(page, a);
          assert !AncestorMentions(page, p, e, d + 1);
          BannerParentFromSpec(page, p, e, d + 1);
          var r := BannerParentFrom(page, p, Ancestor(page, e, d + 2), d + 1);
          assert BannerParentFrom(page, p, c, d) == r;
          if r.Some? {
            var k :| d + 2 <= k && NearestFrom(page, p, e, d + 1, k, r.value);
            NearestFromExtend(page, p, e, d, k, r.value);
          }
        }
    }
  }

  /** A nearest hit from `d + 2` is the nearest from `d + 1` when ancestor `d + 1` fails `p`. */
  lemma NearestFromExtend(page: Page, p: Element -> bool, e: Element, d: nat, k: nat, a: Element)
    requires NearestFrom(page, p, e, d + 1, k, a) && !AncestorMentions(page, p, e, d + 1)
    ensures NearestFrom(page, p, e, d, k, a)
  {
  }

  /** `a` is ancestor `k`, in `d + 1 .. MaxBannerDepth`, passes `p`, and no ancestor
      from `d + 1` to `k - 1` does. */
  ghost predicate NearestFrom(page: Page, p: Element -> bool, e: Element, d: nat, k: nat, a: Element) {
    && k <= MaxBannerDepth
    && Ancestor(page, e, k) == Some(a)
    && p(a)
    && forall j :: d + 1 <= j < k ==> !AncestorMentions(page, p, e, j)
  }

  /** `findCookieBannerParent` against its specification: it returns `a` exactly when
      `a` is the nearest of the first ten proper ancestors mentioning cookies or
      consent, and nothing exactly when none of them does. */
  lemma FindCookieBannerParentSpec(page: Page, e: Element)
    ensures forall a :: FindCookieBannerParent(page, e) == Some(a) <==> exists k :: NearestBannerAncestor(page, e, k, a)
    ensures FindCookieBannerParent(page, e).None? <==> forall k :: 1 <= k <= MaxBannerDepth ==> !AncestorMentions(page, MentionsCookie, e, k)
  {
    var p := MentionsCookie;
    assert Ancestor(page, e, 1) == ParentOf(page, e);
    BannerParentFromSpec(page, p, e, 0);
    var r := FindCookieBannerParent(page, e);
    forall a, k | NearestBannerAncestor(page, e, k, a) ensures r == Some(a) {
      assert AncestorMentions(page, p, e, k);
      var k' :| 1 <= k' && NearestFrom(page, p, e, 0, k', r.value);
      assert AncestorMentions(page, p, e, k');
      assert !(k' < k) && !(k < k');
    }
    if r.Some? {
      var k :| 1 <= k && NearestFrom(page, p, e, 0, k, r.value);
      assert NearestBannerAncestor(page, e, k, r.value);
      assert AncestorMentions(page, p, e, k);
    }
  }
}
