/** The page analysis of the content script: parsing `document.cookie`, the cookie
    buckets, the tracking-cookie test on cookie writes, tracking scripts, third-party
    hosts and privacy-policy links. Query results (`script[src]`, `iframe[src]`,
    privacy links) are given sequences; URL parsing is a given partial function. */
module PageAnalysis {
  import opened Wrappers
  import opened Strings
  import opened Cookies

  // ---------------------------------------------------------------------------
  // analyzeCookies: parsing document.cookie

  /** One parsed entry of `document.cookie`: the text before the first '=', the text
      between the first and the second '=' if there is a first, and the page's host. */
  datatype ParsedCookie = ParsedCookie(name: string, value: Option<string>, domain: string)

  /** `const [name, value] = t.split('=')` on an already trimmed entry `t`: the name
      is `t` up to its first '=' (all of it when there is none); the value, present
      exactly when there is a first '=', is the text after it up to the next '=' or
      the end. */
  function ParseTrimmed(t: string, domain: string): (c: ParsedCookie)
    ensures c.domain == domain
    ensures IsPrefix(c.name, t) && '=' !in c.name
    ensures c.value.None? <==> '=' !in t
    ensures c.value.None? ==> c.name == t
    ensures c.value.Some? ==> IsPrefix(c.name + ['='] + c.value.value, t) && '=' !in c.value.value
    ensures c.value.Some? && |c.name| + 1 + |c.value.value| < |t| ==> t[|c.name| + 1 + |c.value.value|] == '='
  {
    var parts := Split(t, '=');
    SplitHead(t, '=');
    if |parts| >= 2 then
      ParsedCookie(parts[0], Some(parts[1]), domain)
    else
      SplitFree(t, '=');
      ParsedCookie(parts[0], None, domain)
  }

  /** `const [name, value] = entry.trim().split('=')` with the page's host. */
  function ParseEntry(entry: string, domain: string): (c: ParsedCookie)
    ensures c.domain == domain
    ensures IsPrefix(c.name, Trim(entry)) && '=' !in c.name
    ensures c.value.None? <==> '=' !in Trim(entry)
    ensures c.value.None? ==> c.name == Trim(entry)
    ensures c.value.Some? ==> IsPrefix(c.name + ['='] + c.value.value, Trim(entry)) && '=' !in c.value.value
    ensures c.value.Some? && |c.name| + 1 + |c.value.value| < |Trim(entry)| ==> Trim(entry)[|c.name| + 1 + |c.value.value|] == '='
  {
    ParseTrimmed(Trim(entry), domain)
  }

  /** The `map` then `filter(cookie => cookie.name)` over the ';'-separated entries:
      entries whose name is empty are dropped. `ParseEntriesAppend` and
      `ParseSingleEntry` pin the result down entry by entry. */
  function ParseEntries(entries: seq<string>, domain: string): (r: seq<ParsedCookie>)
    ensures |r| <= |entries|
    ensures forall i :: 0 <= i < |r| ==> r[i].name != "" && r[i].domain == domain
  {
    KeepNamed(ParseAll(entries, domain))
  }

  /** The parsed cookie of every entry, in order. */
  function ParseAll(entries: seq<string>, domain: string): (r: seq<ParsedCookie>)
    ensures |r| == |entries|
    ensures forall i :: 0 <= i < |r| ==> r[i].domain == domain
    decreases |entries|
  {
    if |entries| == 0 then [] else [ParseEntry(entries[0], domain)] + ParseAll(entries[1..], domain)
  }

  /** The cookies whose name is non-empty, in their order. */
  function KeepNamed(cs: seq<ParsedCookie>): (r: seq<ParsedCookie>)
    ensures |r| <= |cs|
    ensures forall i :: 0 <= i < |r| ==> r[i].name != "" && r[i] in cs
  {
    if |cs| == 0 then []
    else (if cs[0].name != "" then [cs[0]] else []) + KeepNamed(cs[1..])
  }

  /** Parsing each entry distributes over appending entry lists. */
  lemma {:induction false} ParseAllAppend(xs: seq<string>, ys: seq<string>, domain: string)
    ensures ParseAll(xs + ys, domain) == ParseAll(xs, domain) + ParseAll(ys, domain)
    decreases |xs|
  {
    if |xs| == 0 {
      assert xs + ys == ys;
    } else {
      assert (xs + ys)[0] == xs[0];
      assert (xs + ys)[1..] == xs[1..] + ys;
      ParseAllAppend(xs[1..], ys, domain);
    }
  }

  /** Dropping the unnamed cookies distributes over appending cookie lists. */
  lemma {:induction false} KeepNamedAppend(xs: seq<ParsedCookie>, ys: seq<ParsedCookie>)
    ensures KeepNamed(xs + ys) == KeepNamed(xs) + KeepNamed(ys)
    decreases |xs|
  {
    if |xs| == 0 {
      assert xs + ys == ys;
    } else {
      assert (xs + ys)[0] == xs[0];
      assert (xs + ys)[1..] == xs[1..] + ys;
      KeepNamedAppend(xs[1..], ys);
    }
  }

  /** Parsing is entry by entry: the cookies of two runs of entries are the cookies
      of the first followed by those of the second. */
  lemma ParseEntriesAppend(xs: seq<string>, ys: seq<string>, domain: string)
    ensures ParseEntries(xs + ys, domain) == ParseEntries(xs, domain) + ParseEntries(ys, domain)
  {
    ParseAllAppend(xs, ys, domain);
    KeepNamedAppend(ParseAll(xs, domain), ParseAll(ys, domain));
  }

  /** One entry yields its parsed cookie when the name is non-empty, and nothing otherwise. */
  lemma ParseSingleEntry(x: string, domain: string)
    ensures ParseEntries([x], domain) == if ParseEntry(x, domain).name != "" then [ParseEntry(x, domain)] else []
  {
    assert [x][1..] == [];
    assert ParseAll([x], domain) == [ParseEntry(x, domain)];
    assert [ParseEntry(x, domain)][1..] == [];
  }

  /** The cookie list of `analyzeCookies`. */
  function ParseCookies(cookieString: string, domain: string): seq<ParsedCookie> {
    ParseEntries(Split(cookieString, ';'), domain)
  }

  /** A cookie name or value that survives the round trip: no separator and no space. */
  predicate Token(s: string) {
    forall i :: 0 <= i < |s| ==> s[i] != ';' && s[i] != '=' && !IsSpace(s[i])
  }

  /** Name-value pairs as a site would set them: non-empty names, tokens throughout. */
  predicate WellFormedPairs(cs: seq<(string, string)>) {
    forall i :: 0 <= i < |cs| ==> cs[i].0 != "" && Token(cs[i].0) && Token(cs[i].1)
  }

  /** The `document.cookie` string of a list of pairs: `n=v` entries joined by "; ". */
  function CookieHeader(cs: seq<(string, string)>): string {
    if |cs| == 0 then "" else Join([cs[0].0 + "=" + cs[0].1] + SpacedEntries(cs[1..]), ';')
  }

  /** The entries after the first, each with the space that follows a ';'. */
  function SpacedEntries(cs: seq<(string, string)>): (r: seq<string>)
    ensures |r| == |cs|
    ensures forall i :: 0 <= i < |cs| ==> r[i] == " " + cs[i].0 + "=" + cs[i].1
  {
    seq(|cs|, i requires 0 <= i < |cs| => " " + cs[i].0 + "=" + cs[i].1)
  }

  /** The cookies expected back from a header: each pair, with its value present. */
  function Expected(cs: seq<(string, string)>, domain: string): (r: seq<ParsedCookie>)
    ensures |r| == |cs|
    ensures forall i :: 0 <= i < |cs| ==> r[i] == ParsedCookie(cs[i].0, Some(cs[i].1), domain)
  {
    seq(|cs|, i requires 0 <= i < |cs| => ParsedCookie(cs[i].0, Some(cs[i].1), domain))
  }

  /** Parsing one entry `pad + n + "=" + v`, with `pad` made of spaces, gives the pair back. */
  lemma ParseOneEntry(pad: string, n: string, v: string, domain: string)
    requires forall k :: 0 <= k < |pad| ==> IsSpace(pad[k])
    requires n != "" && Token(n) && Token(v)
    ensures ParseEntry(pad + n + "=" + v, domain) == ParsedCookie(n, Some(v), domain)
  {
    TrimEntry(pad, n, v);
    SplitEntry(n, v);
  }

  /** Trimming an entry leaves `n=v`. */
  lemma TrimEntry(pad: string, n: string, v: string)
    requires forall k :: 0 <= k < |pad| ==> IsSpace(pad[k])
    requires n != "" && Token(n) && Token(v)
    ensures Trim(pad + n + "=" + v) == n + "=" + v
  {
    var m := n + "=" + v;
    assert m[0] == n[0];
    assert m[|m| - 1] == if |v| > 0 then v[|v| - 1] else '=';
    assert pad + n + "=" + v == pad + m;
    TrimLeading(pad, m);
  }

  /** `n=v` splits on '=' into `n` and `v`. */
  lemma SplitEntry(n: string, v: string)
    requires Token(n) && Token(v)
    ensures Split(n + "=" + v, '=') == [n, v]
  {
    assert '=' !in n && '=' !in v;
    SplitFree(v, '=');
    SplitFirst(n, v, '=');
  }

  /** Parsing the spaced entries gives the expected cookies. */
  lemma {:induction false} ParseSpacedEntries(cs: seq<(string, string)>, domain: string)
    requires WellFormedPairs(cs)
    ensures ParseEntries(SpacedEntries(cs), domain) == Expected(cs, domain)
    decreases |cs|
  {
    if |cs| > 0 {
      var x := " " + cs[0].0 + "=" + cs[0].1;
      ParseOneEntry(" ", cs[0].0, cs[0].1, domain);
      WellFormedTail(cs);
      ParseSpacedEntries(cs[1..], domain);
      SpacedEntriesCons(cs);
      ExpectedCons(cs, domain);
      ParseEntriesCons(x, SpacedEntries(cs[1..]), domain);
    }
  }

  /** A tail of well-formed pairs is well formed. */
  lemma WellFormedTail(cs: seq<(string, string)>)
    requires |cs| > 0 && WellFormedPairs(cs)
    ensures WellFormedPairs(cs[1..])
  {
    forall i | 0 <= i < |cs[1..]| ensures cs[1..][i] == cs[i + 1] { }
  }

  /** `SpacedEntries` of a non-empty list, first entry split off. */
  lemma SpacedEntriesCons(cs: seq<(string, string)>)
    requires |cs| > 0
    ensures SpacedEntries(cs) == [" " + cs[0].0 + "=" + cs[0].1] + SpacedEntries(cs[1..])
  {
    forall i | 1 <= i < |cs| ensures cs[1..][i - 1] == cs[i] { }
  }

  /** `Expected` of a non-empty list, first cookie split off. */
  lemma ExpectedCons(cs: seq<(string, string)>, domain: string)
    requires |cs| > 0
    ensures Expected(cs, domain) == [ParsedCookie(cs[0].0, Some(cs[0].1), domain)] + Expected(cs[1..], domain)
  {
    forall i | 1 <= i < |cs| ensures cs[1..][i - 1] == cs[i] { }
  }

  /** An entry with a name is kept at the front of the parsed list. */
  lemma ParseEntriesCons(x: string, xs: seq<string>, domain: string)
    requires ParseEntry(x, domain).name != ""
    ensures ParseEntries([x] + xs, domain) == [ParseEntry(x, domain)] + ParseEntries(xs, domain)
  {
    ParseEntriesAppend([x], xs, domain);
    ParseSingleEntry(x, domain);
  }

  /** The entries of a non-empty header carry no ';'. */
  lemma HeaderEntriesFree(cs: seq<(string, string)>)
    requires |cs| > 0 && WellFormedPairs(cs)
    ensures var entries := [cs[0].0 + "=" + cs[0].1] + SpacedEntries(cs[1..]);
      forall i :: 0 <= i < |entries| ==> ';' !in entries[i]
  {
    var entries := [cs[0].0 + "=" + cs[0].1] + SpacedEntries(cs[1..]);
    forall i | 0 <= i < |entries| ensures ';' !in entries[i] {
      if i > 0 {
        var c := cs[1..][i - 1];
        assert c == cs[i];
        assert entries[i] == " " + c.0 + "=" + c.1;
      }
    }
  }

  /** The empty header has no cookies. */
  lemma EmptyHeader(domain: string)
    ensures ParseCookies("", domain) == []
  {
    assert Split("", ';') == [""];
    assert Trim("") == "";
    assert ParseEntry("", domain).name == "";
    ParseSingleEntry("", domain);
  }

  /** Round trip: `analyzeCookies` reads back exactly the pairs a well-formed
      `document.cookie` string was made of, in order, each with its value. */
  lemma CookieHeaderRoundTrip(cs: seq<(string, string)>, domain: string)
    requires WellFormedPairs(cs)
    ensures ParseCookies(CookieHeader(cs), domain) == Expected(cs, domain)
  {
    if |cs| == 0 {
      EmptyHeader(domain);
    } else {
      var entries := HeaderEntries(cs);
      ParseHeaderEntries(cs, domain);
    }
  }

  /** A non-empty header splits on ';' into its first `n=v` entry and the spaced rest. */
  lemma HeaderEntries(cs: seq<(string, string)>) returns (entries: seq<string>)
    requires |cs| > 0 && WellFormedPairs(cs)
    ensures entries == [cs[0].0 + "=" + cs[0].1] + SpacedEntries(cs[1..])
    ensures Split(CookieHeader(cs), ';') == entries
  {
    entries := [cs[0].0 + "=" + cs[0].1] + SpacedEntries(cs[1..]);
    HeaderEntriesFree(cs);
    JoinSplit(entries, ';');
  }

  /** The entries of a non-empty header parse to the expected cookies. */
  lemma ParseHeaderEntries(cs: seq<(string, string)>, domain: string)
    requires |cs| > 0 && WellFormedPairs(cs)
    ensures ParseEntries([cs[0].0 + "=" + cs[0].1] + SpacedEntries(cs[1..]), domain) == Expected(cs, domain)
  {
    var x := cs[0].0 + "=" + cs[0].1;
    WellFormedTail(cs);
    ParseOneEntry("", cs[0].0, cs[0].1, domain);
    assert "" + cs[0].0 + "=" + cs[0].1 == x;
    ParseEntriesCons(x, SpacedEntries(cs[1..]), domain);
    ParseSpacedEntries(cs[1..], domain);
    ExpectedCons(cs, domain);
  }

  // ---------------------------------------------------------------------------
  // categorizeCookies

  /** The category `categorizeCookies` gives a name: the first of essential
      (session, csrf, auth), analytics (ga, gtm, _utm), advertising (ads, fb, track)
      whose terms occur in the lower-cased name, else functional. */
  function ContentCategory(name: string): Category {
    var n := Lower(name);
    if Contains(n, "session") || Contains(n, "csrf") || Contains(n, "auth") then Essential
    else if Contains(n, "ga") || Contains(n, "gtm") || Contains(n, "_utm") then Analytics
    else if Contains(n, "ads") || Contains(n, "fb") || Contains(n, "track") then Advertising
    else Functional
  }

  /** The four buckets of `categorizeCookies`. */
  datatype Buckets = Buckets(essential: seq<ParsedCookie>, analytics: seq<ParsedCookie>,
                             advertising: seq<ParsedCookie>, functional: seq<ParsedCookie>)
  {
    /** The bucket of one category. */
    function Get(c: Category): seq<ParsedCookie> {
      match c
      case Essential => essential
      case Analytics => analytics
      case Advertising => advertising
      case Functional => functional
    }

    /** The cookie pushed onto the bucket of category `c`. */
    function Push(c: Category, cookie: ParsedCookie): Buckets {
      match c
      case Essential => this.(essential := essential + [cookie])
      case Analytics => this.(analytics := analytics + [cookie])
      case Advertising => this.(advertising := advertising + [cookie])
      case Functional => this.(functional := functional + [cookie])
    }
  }

  /** Reference: the cookies that `kind` puts in category `c`, in input order. */
  function OfKind(cs: seq<ParsedCookie>, c: Category, kind: ParsedCookie -> Category): seq<ParsedCookie>
    decreases |cs|
  {
    if |cs| == 0 then [] else OfKind(cs[..|cs| - 1], c, kind) + (if kind(cs[|cs| - 1]) == c then [cs[|cs| - 1]] else [])
  }

  /** The category of a parsed cookie, from its name. */
  function CookieCategory(cookie: ParsedCookie): Category {
    ContentCategory(cookie.name)
  }

  /** `categorizeCookies`: the `forEach` pushing each cookie onto its category's bucket.
      Each bucket is the input filtered to its category, in input order. */
  function CategorizeCookies(cs: seq<ParsedCookie>): (b: Buckets)
    ensures forall c :: b.Get(c) == OfKind(cs, c, CookieCategory)
    decreases |cs|
  {
    if |cs| == 0 then Buckets([], [], [], [])
    else
      var last := cs[|cs| - 1];
      CategorizeCookies(cs[..|cs| - 1]).Push(CookieCategory(last), last)
  }

  /** How often `x` occurs in the filter to category `c`: as often as in the input
      when `kind` puts it in `c`, never otherwise. */
  lemma {:induction false} OfKindCount(cs: seq<ParsedCookie>, c: Category, kind: ParsedCookie -> Category, x: ParsedCookie)
    ensures multiset(OfKind(cs, c, kind))[x] == if kind(x) == c then multiset(cs)[x] else 0
    decreases |cs|
  {
    if |cs| > 0 {
      var init := cs[..|cs| - 1];
      var last := cs[|cs| - 1];
      OfKindCount(init, c, kind, x);
      assert cs == init + [last];
      assert multiset(cs)[x] == multiset(init)[x] + (if last == x then 1 else 0);
    }
  }

  /** Whatever the classifier, the four category filters together hold the input
      exactly (as a multiset). */
  lemma OfKindPartition(cs: seq<ParsedCookie>, kind: ParsedCookie -> Category)
    ensures multiset(OfKind(cs, Essential, kind)) + multiset(OfKind(cs, Analytics, kind))
      + multiset(OfKind(cs, Advertising, kind)) + multiset(OfKind(cs, Functional, kind)) == multiset(cs)
  {
    var m := multiset(OfKind(cs, Essential, kind)) + multiset(OfKind(cs, Analytics, kind))
      + multiset(OfKind(cs, Advertising, kind)) + multiset(OfKind(cs, Functional, kind));
    forall x ensures m[x] == multiset(cs)[x] {
      OfKindCount(cs, Essential, kind, x);
      OfKindCount(cs, Analytics, kind, x);
      OfKindCount(cs, Advertising, kind, x);
      OfKindCount(cs, Functional, kind, x);
    }
  }

  /** Every cookie lands in exactly one bucket: the buckets together hold the input
      exactly (as a multiset), so their sizes add up to the number of cookies. */
  lemma BucketsPartition(cs: seq<ParsedCookie>)
    ensures var b := CategorizeCookies(cs);
      && multiset(b.essential) + multiset(b.analytics) + multiset(b.advertising) + multiset(b.functional) == multiset(cs)
      && |b.essential| + |b.analytics| + |b.advertising| + |b.functional| == |cs|
  {
    var b := CategorizeCookies(cs);
    assert b.essential == b.Get(Essential) && b.analytics == b.Get(Analytics);
    assert b.advertising == b.Get(Advertising) && b.functional == b.Get(Functional);
    OfKindPartition(cs, CookieCategory);
    assert |multiset(cs)| == |cs|;
  }

  /** Essential terms win over analytics terms: "ga_session" is essential. */
  lemma SessionBeatsGa(name: string)
    requires name == "ga_session"
    ensures ContentCategory(name) == Essential
  {
    LowerNoop(name);
    assert name[3..] == "session";
    OccursContains(name, "session", 3);
  }

  /** "_ga" is analytics. */
  lemma GaCategory(name: string)
    requires name == "_ga"
    ensures ContentCategory(name) == Analytics
  {
    LowerNoop(name);
    MissingCharExcludes(name, "session", 's');
    MissingCharExcludes(name, "csrf", 's');
    MissingCharExcludes(name, "auth", 'u');
    assert name[1..] == "ga";
    OccursContains(name, "ga", 1);
  }

  /** "_fbp" is advertising. */
  lemma FbpCategory(name: string)
    requires name == "_fbp"
    ensures ContentCategory(name) == Advertising
  {
    LowerNoop(name);
    FbpNoEarlierTerm(name);
    MissingCharExcludes(name, "ads", 'a');
    assert name[1..3] == "fb";
    OccursContains(name, "fb", 1);
  }

  /** "_fbp" holds no essential and no analytics term. */
  lemma FbpNoEarlierTerm(name: string)
    requires name == "_fbp"
    ensures !Contains(name, "session") && !Contains(name, "csrf") && !Contains(name, "auth")
    ensures !Contains(name, "ga") && !Contains(name, "gtm") && !Contains(name, "_utm")
  {
    MissingCharExcludes(name, "session", 's');
    MissingCharExcludes(name, "csrf", 's');
    MissingCharExcludes(name, "auth", 'a');
    MissingCharExcludes(name, "ga", 'g');
    MissingCharExcludes(name, "gtm", 'g');
    MissingCharExcludes(name, "_utm", 'u');
  }

  /** "theme" matches no term and is functional. */
  lemma ThemeCategory(name: string)
    requires name == "theme"
    ensures ContentCategory(name) == Functional
  {
    LowerNoop(name);
    ThemeNotEssential(name);
    MissingCharExcludes(name, "ga", 'g');
    MissingCharExcludes(name, "gtm", 'g');
    MissingCharExcludes(name, "_utm", 'u');
    ThemeNotAdvertising(name);
  }

  /** "theme" holds no essential term. */
  lemma ThemeNotEssential(name: string)
    requires name == "theme"
    ensures !Contains(name, "session") && !Contains(name, "csrf") && !Contains(name, "auth")
  {
    MissingCharExcludes(name, "session", 's');
    MissingCharExcludes(name, "csrf", 's');
    MissingCharExcludes(name, "auth", 'a');
  }

  /** "theme" holds no advertising term. */
  lemma ThemeNotAdvertising(name: string)
    requires name == "theme"
    ensures !Contains(name, "ads") && !Contains(name, "fb") && !Contains(name, "track")
  {
    MissingCharExcludes(name, "ads", 'a');
    MissingCharExcludes(name, "fb", 'f');
    MissingCharExcludes(name, "track", 'r');
  }

  /** The result of `analyzeCookies`: the count, the cookies and their buckets. */
  datatype CookieAnalysis = CookieAnalysis(count: nat, cookies: seq<ParsedCookie>, types: Buckets)

  /** `analyzeCookies()` on the given `document.cookie` string and host. */
  function AnalyzeCookies(cookieString: string, domain: string): (r: CookieAnalysis)
    ensures r.cookies == ParseCookies(cookieString, domain)
    ensures r.count == |r.cookies|
    ensures r.types == CategorizeCookies(r.cookies)
    ensures forall i :: 0 <= i < |r.cookies| ==> r.cookies[i].name != "" && r.cookies[i].domain == domain
  {
    var cs := ParseCookies(cookieString, domain);
    CookieAnalysis(|cs|, cs, CategorizeCookies(cs))
  }

  // ---------------------------------------------------------------------------
  // isTrackingCookie and handleCookieChange

  /** The patterns of the content script's `isTrackingCookie`. */
  const ContentTrackingPatterns: seq<string> := ["_ga", "_gid", "_fbp", "_fbc", "__utm", "ads", "doubleclick"]

  /** `isTrackingCookie(name)`: the lower-cased name contains one of the patterns. */
  predicate ContentIsTracking(name: string) {
    exists i :: 0 <= i < |ContentTrackingPatterns| && Contains(Lower(name), ContentTrackingPatterns[i])
  }

  /** The message sent to the background worker about a tracking cookie write. */
  datatype TrackingNotice = TrackingNotice(cookie: string, domain: string)

  /** `handleCookieChange(cookieString)`: the name is the text before the first '=';
      a notice goes out exactly when that name is a tracking name. */
  function HandleCookieChange(cookieString: string, domain: string): (r: Option<TrackingNotice>)
    ensures r.Some? <==> ContentIsTracking(BeforeFirst(cookieString, '='))
    ensures r.Some? ==> r.value == TrackingNotice(cookieString, domain)
  {
    if ContentIsTracking(BeforeFirst(cookieString, '=')) then Some(TrackingNotice(cookieString, domain)) else None
  }

  /** A value cannot make a cookie look like tracking: only the name is inspected. */
  lemma CookieWriteJudgedByName(name: string, rest: string, domain: string)
    requires '=' !in name
    ensures HandleCookieChange(name + "=" + rest, domain).Some? <==> ContentIsTracking(name)
  {
    var s := name + "=" + rest;
    var b := BeforeFirst(s, '=');
    assert s[|name|] == '=';
    assert forall k :: 0 <= k < |name| ==> s[k] == name[k];
    assert |b| == |name|;
    assert b == name;
  }

  // ---------------------------------------------------------------------------
  // analyzeTrackingScripts

  /** The tracker domains, in the order they are tried. */
  const TrackerDomains: seq<string> := [
    "google-analytics.com", "googletagmanager.com", "facebook.net", "doubleclick.net",
    "googlesyndication.com", "amazon-adsystem.com", "adsystem.amazon.com",
    "twitter.com/i/adsct", "linkedin.com/li.lms-analytics", "hotjar.com",
    "fullstory.com", "mixpanel.com"
  ]

  /** A `script[src]` element: its absolute `src` and whether it has `data-blocked`. */
  datatype Script = Script(src: string, blocked: bool)

  /** One record of `analyzeTrackingScripts`. */
  datatype TrackingScript = TrackingScript(src: string, kind: string, blocked: bool)

  /** The first of `trackers` that occurs in `src`. */
  function FirstTracker(src: string, trackers: seq<string>): (r: Option<string>)
    ensures r.None? <==> forall k :: 0 <= k < |trackers| ==> !Contains(src, trackers[k])
    ensures r.Some? ==> exists k :: 0 <= k < |trackers| && trackers[k] == r.value && Contains(src, r.value)
                                    && forall j :: 0 <= j < k ==> !Contains(src, trackers[j])
    decreases |trackers|
  {
    if |trackers| == 0 then None
    else if Contains(src, trackers[0]) then Some(trackers[0])
    else
      var r := FirstTracker(src, trackers[1..]);
      assert forall k :: 1 <= k < |trackers| ==> trackers[k] == trackers[1..][k - 1];
      if r.Some? then
        assert exists k :: 1 <= k < |trackers| && trackers[k] == r.value && Contains(src, r.value)
                           && forall j :: 0 <= j < k ==> !Contains(src, trackers[j]) by {
          var k :| 0 <= k < |trackers[1..]| && trackers[1..][k] == r.value && Contains(src, r.value)
                   && forall j :: 0 <= j < k ==> !Contains(src, trackers[1..][j]);
          assert forall j :: 1 <= j < k + 1 ==> trackers[j] == trackers[1..][j - 1];
          assert trackers[k + 1] == r.value;
        }
        r
      else r
  }

  /** The loop of `analyzeTrackingScripts` over the page's scripts, in document
      order, with the tracker list `trackers`: at most one record per script, typed
      with the first tracker its `src` contains. */
  function ScanScripts(scripts: seq<Script>, trackers: seq<string>): (r: seq<TrackingScript>)
    ensures |r| <= |scripts|
    ensures forall i :: 0 <= i < |r| ==> r[i].kind in trackers && Contains(r[i].src, r[i].kind)
    decreases |scripts|
  {
    if |scripts| == 0 then []
    else
      var s := scripts[0];
      var here := match FirstTracker(s.src, trackers)
        case None => []
        case Some(t) => [TrackingScript(s.src, t, s.blocked)];
      here + ScanScripts(scripts[1..], trackers)
  }

  /** `analyzeTrackingScripts()`. */
  function AnalyzeTrackingScripts(scripts: seq<Script>): seq<TrackingScript> {
    ScanScripts(scripts, TrackerDomains)
  }

  /** The scripts whose `src` contains some tracker. */
  function TrackedScripts(scripts: seq<Script>, trackers: seq<string>): (r: seq<Script>)
    ensures forall i :: 0 <= i < |r| ==> FirstTracker(r[i].src, trackers).Some?
    decreases |scripts|
  {
    if |scripts| == 0 then []
    else (if FirstTracker(scripts[0].src, trackers).Some? then [scripts[0]] else []) + TrackedScripts(scripts[1..], trackers)
  }

  /** The records are exactly the tracked scripts, in order, each with its own `src`
      and `data-blocked` flag and the first tracker it contains. */
  lemma {:induction false} ScanScriptsSpec(scripts: seq<Script>, trackers: seq<string>)
    ensures var r := ScanScripts(scripts, trackers);
      var t := TrackedScripts(scripts, trackers);
      && |r| == |t|
      && forall i :: 0 <= i < |r| ==> r[i] == TrackingScript(t[i].src, FirstTracker(t[i].src, trackers).value, t[i].blocked)
    decreases |scripts|
  {
    if |scripts| > 0 {
      ScanScriptsSpec(scripts[1..], trackers);
    }
  }

  // ---------------------------------------------------------------------------
  // analyzeThirdPartyRequests

  /** `analyzeThirdPartyRequests()`: the hostnames, other than the page's own, of the
      script sources then the iframe sources, each once, in order of first
      appearance. `hostOf` is `new URL(src).hostname`, `None` where it throws. */
  method AnalyzeThirdPartyRequests(scriptSrcs: seq<string>, iframeSrcs: seq<string>, current: string,
                                   hostOf: string -> Option<string>) returns (hosts: seq<string>)
    ensures forall i, j :: 0 <= i < j < |hosts| ==> hosts[i] != hosts[j]
    ensures forall h :: h in hosts <==> h != current && exists s :: s in scriptSrcs + iframeSrcs && hostOf(s) == Some(h)
  {
    var srcs := scriptSrcs + iframeSrcs;
    hosts := [];
    var i := 0;
    while i < |srcs|
      invariant 0 <= i <= |srcs|
      invariant forall a, b :: 0 <= a < b < |hosts| ==> hosts[a] != hosts[b]
      invariant forall h :: h in hosts <==> h != current && exists s :: s in srcs[..i] && hostOf(s) == Some(h)
    {
      assert srcs[..i + 1] == srcs[..i] + [srcs[i]];
      match hostOf(srcs[i]) {
        case None =>
        case Some(h) =>
          if h != current && h !in hosts {
            hosts := hosts + [h];
          }
      }
      i := i + 1;
    }
    assert srcs[..i] == srcs;
  }

  // ---------------------------------------------------------------------------
  // findPrivacyPolicy

  /** A link matched by `a[href*="privacy"], a[href*="policy"]`. */
  datatype Link = Link(text: string, href: string)

  /** One record of `findPrivacyPolicy`. */
  datatype Policy = Policy(text: string, href: string)

  /** The link's text mentions "privacy" in any case. */
  predicate MentionsPrivacy(l: Link) {
    Contains(Lower(l.text), "privacy")
  }

  /** `findPrivacyPolicy()` over the matched links, in document order. */
  function FindPrivacyPolicy(links: seq<Link>): (r: seq<Policy>)
    ensures |r| <= |links|
    ensures forall p :: p in r ==> exists l :: l in links && MentionsPrivacy(l) && p == Policy(Trim(l.text), l.href)
    ensures forall l :: l in links && MentionsPrivacy(l) ==> Policy(Trim(l.text), l.href) in r
    decreases |links|
  {
    if |links| == 0 then []
    else
      var l := links[0];
      var rest := FindPrivacyPolicy(links[1..]);
      assert forall x :: x in links <==> x == l || x in links[1..];
      (if MentionsPrivacy(l) then [Policy(Trim(l.text), l.href)] else []) + rest
  }

  /** The records follow the links: those of two runs of links are the records of
      the first followed by those of the second. */
  lemma {:induction false} FindPrivacyPolicyAppend(xs: seq<Link>, ys: seq<Link>)
    ensures FindPrivacyPolicy(xs + ys) == FindPrivacyPolicy(xs) + FindPrivacyPolicy(ys)
    decreases |xs|
  {
    if |xs| == 0 {
      assert xs + ys == ys;
    } else {
      assert (xs + ys)[0] == xs[0];
      assert (xs + ys)[1..] == xs[1..] + ys;
      FindPrivacyPolicyAppend(xs[1..], ys);
    }
  }

  /** One link gives one record when its text mentions "privacy", and none otherwise. */
  lemma FindPrivacyPolicySingle(l: Link)
    ensures FindPrivacyPolicy([l]) == if MentionsPrivacy(l) then [Policy(Trim(l.text), l.href)] else []
  {
    assert [l][1..] == [];
  }
}
