/** The page as the content script sees it: element records, a snapshot of the
    page's nodes for parent lookups, and the selector engine as a given function.
    `querySelectorAll` either returns the matching elements in document order or
    throws on a selector it cannot parse. */
module Dom {
  import opened Wrappers
  import opened Strings

  /** One element, reduced to the signals the extension reads. Attributes that are
      absent read as "" (the source's `getAttribute(..) || ''`). */
  datatype Element = Element(
    key: nat,               // identity of the node; `nodes[key]` in the page snapshot
    text: string,           // textContent
    ariaLabel: string,      // aria-label attribute
    title: string,          // title attribute
    id: string,             // id attribute
    cls: string,            // class attribute (className)
    testId: string,         // data-testid attribute
    width: int,             // bounding-rectangle width; only its sign is read
    height: int,            // bounding-rectangle height; only its sign is read
    display: string,        // computed style `display`
    visibility: string,     // computed style `visibility`
    opacity: string,        // computed style `opacity`, as the string the style object holds
    hasOffsetParent: bool,  // offsetParent !== null
    parent: Option<nat>,    // parentElement, by key
    clickThrows: bool       // whether element.click() throws
  )

  /** Where a query runs: the whole document or the descendants of one element. */
  datatype Scope = Document | Within(root: nat)

  /** The outcome of `querySelectorAll`: the matches, or a thrown syntax error. */
  datatype QueryResult = Matches(elements: seq<Element>) | Invalid

  /** A computation that either finishes or is aborted by a selector the engine
      rejected (an exception nobody caught). */
  datatype Attempt<+T> = Ok(value: T) | SelectorError(selector: string)

  /** A snapshot of one page. */
  datatype Page = Page(
    hostname: string,                       // window.location.hostname
    nodes: seq<Element>,                    // every node, indexed by key
    select: (Scope, string) -> QueryResult  // querySelectorAll
  )

  /** `parentElement`: `null` when there is none or the key is not in the snapshot. */
  function ParentOf(page: Page, e: Element): (r: Option<Element>)
    ensures r.Some? ==> e.parent.Some? && e.parent.value < |page.nodes| && r.value == page.nodes[e.parent.value]
  {
    match e.parent
    case None => None
    case Some(k) => if k < |page.nodes| then Some(page.nodes[k]) else None
  }

  /** The `k`-th ancestor of `e` (`e` itself for `k == 0`), if the chain is that long:
      `parentElement` taken `k` times. */
  function Ancestor(page: Page, e: Element, k: nat): Option<Element>
    decreases k
  {
    if k == 0 then Some(e)
    else match Ancestor(page, e, k - 1)
      case None => None
      case Some(a) => ParentOf(page, a)
  }

  /** The style and geometry part of both visibility tests. */
  predicate IsRendered(e: Element) {
    && e.width > 0
    && e.height > 0
    && e.display != "none"
    && e.visibility != "hidden"
    && e.opacity != "0"
  }

  /** `isVisibleCookieBanner`: rendered, and its text mentions "cookie" in any case. */
  predicate IsVisibleCookieBanner(e: Element) {
    IsRendered(e) && Contains(Lower(e.text), "cookie")
  }

  /** `isVisibleElement`: rendered, and laid out (it has an offset parent). */
  predicate IsVisibleElement(e: Element) {
    IsRendered(e) && e.hasOffsetParent
  }

  /** The forced hiding of `hideCookieContainers`: display, visibility and opacity all off. */
  function Hide(e: Element): (h: Element)
    ensures !IsVisibleCookieBanner(h) && !IsVisibleElement(h)
    ensures h.key == e.key && h.text == e.text && h.parent == e.parent
  {
    e.(display := "none", visibility := "hidden", opacity := "0")
  }

  /** The elements of `es`, with those whose key is in `keys` hidden. */
  function HideKeys(es: seq<Element>, keys: set<nat>): (r: seq<Element>)
    ensures |r| == |es|
    ensures forall i :: 0 <= i < |es| ==> r[i] == (if es[i].key in keys then Hide(es[i]) else es[i])
  {
    if |es| == 0 then [] else [if es[0].key in keys then Hide(es[0]) else es[0]] + HideKeys(es[1..], keys)
  }

  /** The page after the elements with the given keys were force-hidden: every query
      returns the same elements, those hidden. */
  function WithHidden(page: Page, keys: set<nat>): (r: Page)
    ensures r.hostname == page.hostname
  {
    page.(select := (scope, s) =>
      match page.select(scope, s)
      case Invalid => Invalid
      case Matches(es) => Matches(HideKeys(es, keys)))
  }

  /** The keys of a sequence of elements. */
  function Keys(es: seq<Element>): (r: set<nat>)
    ensures forall i :: 0 <= i < |es| ==> es[i].key in r
  {
    set i | 0 <= i < |es| :: es[i].key
  }
}
