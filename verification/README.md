# Cookie Policy Analyzer — a Dafny model of its cookie and consent logic

This project models the decision logic of the Cookie Policy Analyzer browser
extension. It covers four scripts:

- **The content script** (`src/content.js`). It has two decline-button classifiers
  (`isDeclineButton`, `isLikelyDeclineButton`). It searches for cookie banners and
  for the decline button inside a banner. It runs the three-stage decline ladder of
  `autoDeclineCookies`: a selector pass, then a text scan, then force-hiding of
  cookie containers. It also parses `document.cookie`, sorts cookies into four
  buckets, scans for tracking scripts and third-party hosts, finds privacy-policy
  links, and judges cookie writes.
- **The popup** (`src/popup.js`). It has its own cookie classifier, per-category
  counts, the privacy score with its label, and the blocked-count rule of
  "block tracking cookies".
- **The background worker** (`src/background.js`). It dispatches messages, keeps the
  per-domain analysis table, and computes the badge text and colour. It has its own
  tracking-cookie test, builds removal URLs, retries a removal over http after https
  fails, reacts to tab and settings updates, summarises the export, and drops
  week-old records.
- **The options page** (`src/options.js`). It holds the default settings and the
  whitelist insertion.

The browser is abstracted away:

- An element is a record with its text, attributes, geometry, computed style, parent
  key and whether its `click()` throws.
- A page is a snapshot: the element table plus the selector engine, given as a
  function. That function returns the matches in document order, or `Invalid` where
  `querySelectorAll` would throw.
- Cookies, storage entries, tabs and URLs are plain records.
- Every effect the source performs through the `chrome.*` APIs becomes a returned
  value. Examples are the removals issued, the keys passed to `storage.local.remove`,
  the tabs where injection is attempted, and the badge text and colour.
- The outcomes that steer the modelled control flow become parameters: whether a
  removal or an injection rejects, what `new URL` parses, the stored settings read,
  and the clock. Other rejections of storage and browser calls are not modelled; "Left out" lists, per operation, the calls whose rejection would change a modelled outcome.

Modules: `Wrappers` (Option), `Strings` (the JavaScript string operations used),
`Dom`, `Affordance`, `Banner`, `Ladder`, `Cookies`, `PageAnalysis`, `Popup`,
`Background`, `Options`.

The three cookie classifiers differ in the source and stay separate here:

- `categorizeCookies` in the content script uses `fb`.
- `categorizeCookie` in the popup uses `facebook`, `login`, `security`, `pixel` and
  the cookie's domain.
- The two `isTrackingCookie` functions use 7 and 12 patterns.

Lemmas relate these classifiers where they agree and exhibit inputs where they do not.

Notes on the code as written:

- **Duplicate banners.** `findCookieBanners` does not deduplicate. An element matched
  by two selectors is listed twice (`Banner.BannerListedPerSelector`).
- **Accept terms.** The detector's classifier `isDeclineButton` has no "continue"
  accept term, no `data-testid` field and no short-text guard. Only the ladder's
  classifier has them.
- **Aborted removals.** In `blockTrackingCookiesForDomain` the whole loop sits in one
  `try`. A removal that rejects therefore aborts the rest of the batch
  (`Background.BlockTrackingCookiesForDomain`). The batch does not go on.
- **Single loop.** The site-specific selectors are prepended to the generic ones and
  run in one loop. They are not a separate stage.

## Model

| member | source | states |
|---|---|---|
| Strings.Lower | src/content.js:309 | `toLowerCase` keeps the length and lower-cases each character in place |
| Strings.LowerIdempotent | src/content.js:309 | lower-casing twice is lower-casing once |
| Strings.Trim | src/content.js:309 | `trim()` leaves no whitespace at either end and never lengthens |
| Strings.TrimSpec | src/content.js:309 | what `trim()` removes is whitespace only: the result sits inside the input with nothing but whitespace before and after it |
| Strings.TrimNoop | src/content.js:309 | a string with non-space ends is its own trim |
| Strings.TrimEmpty | src/options.js:171-173 | only an all-whitespace string trims to "" |
| Strings.SplitJoin | src/content.js:168 | `split(sep)` loses nothing: joining the parts with the separator gives the input back |
| Strings.JoinSplit | src/content.js:168 | parts free of the separator, joined and split again, come back unchanged |
| Strings.BeforeFirst | src/content.js:810 | `split('=')[0]` is the prefix before the first '=' (all of the string when there is none) |
| Strings.NatToString | src/background.js:155 | `toString()` of a count gives decimal digits, one digit below 10 and at most two below 100 |
| Strings.NatToStringRoundTrip | src/background.js:155 | reading the decimal text back gives the count |
| Dom.ParentOf | src/content.js:620 | when `parentElement` is present, it is the node of the page that the element's parent key names |
| Dom.Hide | src/content.js:569-574 | a force-hidden element is neither a visible banner nor a visible element; its identity, text and parent are kept |
| Dom.IsVisibleCookieBanner | src/content.js:246-258 | rendered with a non-zero box and mentions "cookie"; `Dom.Hide` and `Banner.FindCookieBannersSound` state what relies on it |
| Dom.IsVisibleElement | src/content.js:499-511 | rendered with a non-zero box and laid out; `Dom.Hide` shows a hidden element fails it |
| Affordance.LikelyDeclineVeto | src/content.js:513-544 | a likely decline is not short and generic, carries some decline term, and carries none of the eight accept terms ("continue" included) |
| Affordance.DeclineVeto | src/content.js:308-331 | a detector decline carries some decline term and none of the seven accept terms |
| Affordance.IsDeclineButton | src/content.js:308-331 | the detector's classifier; `DeclineVeto`, `AcceptInTextVetoes` and `CookieMentionVetoes` state its verdicts |
| Affordance.IsLikelyDeclineButton | src/content.js:513-544 | the ladder's classifier; `LikelyDeclineVeto`, `ShortTextGuard` and `DeadTermsNeverDecline` state its verdicts |
| Affordance.ShortTextGuard | src/content.js:538-541 | trimmed text under ten characters, with neither data-testid nor class mentioning "reject", is never a likely decline whatever else it says |
| Affordance.VetoedBy | src/content.js:533-543 | a signal containing any string that contains an accept term is vetoed |
| Affordance.CookieMentionVetoes | src/content.js:513-544 | since "cookie" contains "ok", no element whose signal mentions "cookie" is a decline for either classifier |
| Affordance.DeadTermsNeverDecline | src/content.js:524-536 | "cookie settings" and the three "agree" decline terms are listed, yet a signal holding any of them is never a likely decline |
| Affordance.VerdictIgnoresCase | src/content.js:513-521 | both verdicts are unchanged when every field is lower-cased first |
| Affordance.AcceptInTextVetoes | src/content.js:308-331 | button text containing "accept" is vetoed by both classifiers |
| Affordance.RejectAllDeclines | src/content.js:513-544 | a bare "Reject All" button is a likely decline |
| Affordance.BareNoIsNotDecline | src/content.js:538-541 | a bare "No" button is caught by the short-text guard |
| Affordance.ManageAndAcceptIsNotDecline | src/content.js:513-544 | "Manage preferences and accept all" carries a decline term, yet both classifiers reject it |
| Banner.FirstIndex | src/content.js:298-302 | the index found satisfies the test and every earlier element fails it |
| Banner.FirstMatchSpec | src/content.js:296-305 | the nested selector/element search returns null exactly when every query succeeds without a hit, returns `e` exactly when some selector is the first with a hit and `e` is its first hit, and throws exactly when a query throws before any hit |
| Banner.FirstMatchQualifies | src/content.js:296-305 | a returned element passes the test and is among one selector's matches |
| Banner.FoundDeclineButtonQualifies | src/content.js:260-306 | the button `findDeclineButton` returns is a decline button matched inside the banner |
| Banner.FirstMatchFindsHit | src/content.js:296-305 | when every query succeeds, a hit anywhere means some element is returned |
| Banner.AnyDeclineButtonIsFound | src/content.js:291-305 | the catch-all `button` selector makes the search complete for decline buttons |
| Banner.FindDeclineButton | src/content.js:260-306 | the first decline button in selector then document order; `FoundDeclineButtonQualifies` and `AnyDeclineButtonIsFound` specify it |
| Banner.ButtonSelectorListed | src/content.js:262-294 | the decline selector list has 24 entries, with `button` the twenty-second |
| Banner.Excerpt | src/content.js:236 | `substring(0, 100)` is a prefix of at most 100 characters, all of a shorter text |
| Banner.BannersInSpec | src/content.js:230-240 | one query contributes exactly one entry per visible cookie banner among its matches, and fails exactly when a decline search inside one fails |
| Banner.CollectBannersSpec | src/content.js:226-244 | `findCookieBanners` lists one entry per (selector, visible banner) pair in order, with its excerpt and decline button; it fails exactly when a query or a decline search throws |
| Banner.FindCookieBannersSound | src/content.js:226-258 | every reported banner is a visible cookie banner; its text is the excerpt of the element's own text (a prefix of at most 100 characters); any decline button it carries passes `isDeclineButton` |
| Banner.BannerListedPerSelector | src/content.js:229-241 | a banner matched by two selectors is listed twice (no deduplication) |
| Banner.FindCookieBanners | src/content.js:226-244 | the banner search; `CollectBannersSpec` and `FindCookieBannersSound` specify it |
| Banner.BannerParentFromSpec | src/content.js:619-639 | the loop from depth `d` returns the nearest ancestor between `d + 1` and 10 that passes the test, or null when none does |
| Banner.FindCookieBannerParentSpec | src/content.js:619-639 | `findCookieBannerParent` returns `a` exactly when `a` is the nearest proper ancestor within 10 levels whose text, class or id mentions "cookie" or "consent"; null exactly when none does |
| Banner.FindCookieBannerParent | src/content.js:619-639 | the bounded walk up; `FindCookieBannerParentSpec` specifies it |
| Ladder.SelectorsToTry | src/content.js:408-421 | the generic selectors always end the list |
| Ladder.SitePriority | src/content.js:411-421 | a host is BBC exactly when its lower-cased name contains "bbc.", CNN exactly when it contains "cnn." but not "bbc.", the Guardian exactly when it contains "guardian" but neither of those, and generic otherwise |
| Ladder.GuardianInTheGuardian | src/content.js:418 | "theguardian" contains "guardian", so the second hostname test adds nothing |
| Ladder.SelectorsOrder | src/content.js:408-421 | the selectors tried are at most one site's list followed by the generic list |
| Ladder.ClicksIn | src/content.js:429-449 | every click recorded for one query is of a qualifying match of that selector, followed by hiding its banner parent; `ClicksInAppend` and `ClicksInOne` fix one click per accepted match, in document order |
| Ladder.ClicksInAppend | src/content.js:429-449 | the clicks on two runs of matches are the first run's clicks followed by the second's: none dropped, repeated or reordered |
| Ladder.ClicksInOne | src/content.js:430-445 | one match gives exactly one click, with its banner parent, when it qualifies and its click does not throw, and none otherwise |
| Ladder.SelectorPass | src/content.js:424-454 | every click of the pass qualifies and comes from a listed selector, and hides that element's banner parent; `SelectorPassAppend` and `SelectorPassOne` fix the clicks, and so the count `declined`, selector by selector |
| Ladder.SelectorPassAppend | src/content.js:424-454 | the pass over two runs of selectors is the first run's clicks followed by the second's |
| Ladder.SelectorPassOne | src/content.js:424-454 | one selector contributes nothing when its query throws, and otherwise the clicks on its matches |
| Ladder.DoubleMatchCountedTwice | src/content.js:424-449 | a clickable button that two selectors both return is clicked and counted twice, once per selector |
| Ladder.ClicksInMembers | src/content.js:429-449 | an element is clicked for one query exactly when it is a match, qualifies and its click does not throw |
| Ladder.SelectorPassMembers | src/content.js:424-454 | an element is clicked by the pass exactly when some selector's query succeeds and returns it, it qualifies, and its click does not throw |
| Ladder.TextScan | src/content.js:456-476 | the text scan clicks the first qualifying element whose click does not throw, or none exactly when no qualifying element has a click that does not throw |
| Ladder.HideIn | src/content.js:569-575 | hiding over one query only appends to the hidden list |
| Ladder.HideFrom | src/content.js:566-580 | hiding over the selector list only appends to the hidden list |
| Ladder.HideInInvariant | src/content.js:569-575 | hiding keeps the hidden list free of repeated keys and made of visible banners |
| Ladder.HideInComplete | src/content.js:569-575 | every visible banner among a query's matches ends up hidden |
| Ladder.HideInProvenance | src/content.js:569-575 | only banners already hidden or among the matches are hidden |
| Ladder.HideInNone | src/content.js:569-575 | matches without a visible banner hide nothing |
| Ladder.HideFromInvariant | src/content.js:566-580 | over all selectors, no key is hidden twice and only visible banners are hidden |
| Ladder.HideFromComplete | src/content.js:566-580 | every visible banner a successful query returns ends up hidden; a throwing query is skipped |
| Ladder.HideFromNone | src/content.js:566-580 | a page whose queries return no visible banner is left alone |
| Ladder.HideCookieContainersSpec | src/content.js:546-581 | `hideCookieContainers` hides each reachable visible banner once, and a second run on the resulting page hides nothing |
| Ladder.HiddenPageShowsNoBanner | src/content.js:569-574 | once the reachable banners are hidden, the queries show no visible banner |
| Ladder.HideCookieContainers | src/content.js:546-581 | container hiding; `HideCookieContainersSpec` specifies it |
| Ladder.AutoDeclineCookies | src/content.js:333-497 | the clicks are exactly the selector pass over the host's selectors; `declined` counts them plus at most one text-scan click; the text scan runs only when the pass clicked nothing, and is then the scan of the query's matches; hiding runs only when nothing was clicked and never counts; the run fails exactly when the pass clicked nothing and the text scan's query throws |
| Ladder.NeverClicksAccept | src/content.js:429-470 | the ladder never clicks an element whose signal carries an accept term |
| Ladder.SelectorPassClicksExactly | src/content.js:408-454 | the pass clicks exactly the non-throwing qualifying elements that some selector for the host returns |
| Ladder.ThrowingClicksNotCounted | src/content.js:434-448 | when every qualifying element's click throws, the ladder reports zero declines |
| Ladder.ReportOf | src/content.js:496 | the returned `{ declined, total: declined }`; `DeclinedIffSomeButtonWorks` states it |
| Ladder.DeclinedIffSomeButtonWorks | src/content.js:333-496 | a completed run reports total equal to declined, and at least one decline exactly when some qualifying match of the host's selectors or of the text scan's query has a click that does not throw |
| Ladder.DeclinesWhenAButtonWorks | src/content.js:408-476 | a button the ladder can click makes the run complete with at least one decline |
| PageAnalysis.ParseTrimmed | src/content.js:169-170 | on an already trimmed entry, the name is its prefix before the first '=' and all of it when there is none; the value is absent exactly when there is no '=', and otherwise is the text after the first '=' up to the next '=' or the end |
| PageAnalysis.ParseEntry | src/content.js:169-170 | the name is a prefix of the trimmed entry without '='; the value is absent exactly when the trimmed entry has no '=', and then the name is all of the trimmed entry; otherwise name, '=' and value form a prefix of it, and the value has no '=' and is followed by '=' or the end |
| PageAnalysis.ParseEntries | src/content.js:168-171 | the kept cookies all have a non-empty name and the page's host; `ParseEntriesAppend` and `ParseSingleEntry` pin down which ones, in order |
| PageAnalysis.ParseEntriesAppend | src/content.js:168-171 | the cookies of two runs of entries are those of the first followed by those of the second |
| PageAnalysis.ParseSingleEntry | src/content.js:168-171 | one entry yields its parsed cookie exactly when the name is non-empty, and nothing otherwise |
| PageAnalysis.ParseOneEntry | src/content.js:169 | a padded `name=value` entry parses to that name and value |
| PageAnalysis.ParseSpacedEntries | src/content.js:168-171 | the "; "-separated entries parse to the pairs they were built from |
| PageAnalysis.EmptyHeader | src/content.js:168-171 | an empty cookie string yields no cookies |
| PageAnalysis.CookieHeaderRoundTrip | src/content.js:167-177 | the cookie string of well-formed pairs parses back to exactly those pairs, in order |
| PageAnalysis.CategorizeCookies | src/content.js:180-203 | each bucket holds, in input order, exactly the cookies whose first matching rule names it |
| PageAnalysis.OfKindCount | src/content.js:188-200 | a cookie occurs in its category's bucket as often as in the input, and in no other bucket |
| PageAnalysis.OfKindPartition | src/content.js:188-200 | whatever the classifier, the four buckets together are a permutation of the input |
| PageAnalysis.BucketsPartition | src/content.js:180-203 | every cookie lands in exactly one bucket, and the bucket sizes sum to the input length |
| PageAnalysis.SessionBeatsGa | src/content.js:191-194 | "ga_session" is essential: essential terms win over analytics terms |
| PageAnalysis.GaCategory | src/content.js:193-194 | "_ga" is analytics |
| PageAnalysis.FbpCategory | src/content.js:195-196 | "_fbp" is advertising |
| PageAnalysis.ThemeCategory | src/content.js:197-199 | "theme" matches no term and is functional |
| PageAnalysis.ContentCategory | src/content.js:188-200 | the content script's rule order; `CategorizeCookies`, `SessionBeatsGa`, `GaCategory`, `FbpCategory` and `ThemeCategory` state its verdicts |
| PageAnalysis.AnalyzeCookies | src/content.js:167-178 | the cookies are the parse of the cookie string; `count` is their number, each has a name and the page's host, and `types` are their buckets |
| PageAnalysis.HandleCookieChange | src/content.js:808-820 | a notice is sent exactly when the text before the first '=' is a tracking name, carrying the written string and the host; `CookieWriteJudgedByName` and `Background.NoticeRemovesJudgedName` are its partners |
| PageAnalysis.CookieWriteJudgedByName | src/content.js:808-825 | the value of a cookie write never affects the verdict; only the name does |
| PageAnalysis.ContentIsTracking | src/content.js:822-825 | the content script's 7-pattern test; `Background.ContentTrackingIsBackgroundTracking` and `Background.MixpanelOnlyInBackground` relate it to the worker's |
| PageAnalysis.FirstTracker | src/content.js:211-219 | the tracker chosen is the first in list order that occurs in the src, or none when none occurs |
| PageAnalysis.ScanScripts | src/content.js:205-224 | at most one record per script, each typed with a listed tracker its src contains |
| PageAnalysis.ScanScriptsSpec | src/content.js:209-221 | the records are exactly the tracked scripts in order, each with its own src, its first tracker and its data-blocked flag |
| PageAnalysis.AnalyzeTrackingScripts | src/content.js:205-224 | the scan over the listed trackers; `ScanScriptsSpec` specifies it |
| PageAnalysis.AnalyzeThirdPartyRequests | src/content.js:726-757 | the result has no repeats and holds exactly the parsed hostnames, other than the page's, of the script and iframe sources; unparsable sources are skipped |
| PageAnalysis.FindPrivacyPolicy | src/content.js:710-724 | every record comes from a matched link whose text mentions "privacy", and every such link gives its record (trimmed text, href); `FindPrivacyPolicyAppend` and `FindPrivacyPolicySingle` fix count and order |
| PageAnalysis.FindPrivacyPolicyAppend | src/content.js:710-724 | the records of two runs of links are those of the first followed by those of the second |
| PageAnalysis.FindPrivacyPolicySingle | src/content.js:715-721 | one link gives its record exactly when its text mentions "privacy", and none otherwise |
| Popup.ContentEssentialIsPopupEssential | src/popup.js:101-105 | a name the content script calls essential is essential for the popup too |
| Popup.ContentAnalyticsIsPopupAnalytics | src/popup.js:101-111 | a name the content script calls analytics is analytics for the popup, unless "login" or "security" makes it essential |
| Popup.FbpClassifiersDisagree | src/popup.js:113-120 | "_fbp" is advertising for the content script but functional for the popup |
| Popup.PopupCategory | src/popup.js:97-121 | the popup's rule order; the three lemmas above relate it to the content script's |
| Popup.Divisor | src/popup.js:124 | `Math.max(total, 1)` is at least 1 and at least the total |
| Popup.CalculatePrivacyScore | src/popup.js:123-129 | good exactly when tracking / max(total, 1) < 0.2, medium exactly when that ratio lies in [0.2, 0.5), bad otherwise; stated as 5t < d and 2t < d |
| Popup.RatioBelow | src/popup.js:124-127 | t / d < 1 / k exactly when k·t < d, the link between the ratio test and integer arithmetic |
| Popup.ScoreMonotoneInTracking | src/popup.js:123-129 | more tracking cookies never improve the score |
| Popup.ScoreMonotoneInTotal | src/popup.js:123-129 | more cookies in all, with the same tracking count, never worsen the score |
| Popup.EmptyJarScore | src/popup.js:124 | with no cookies, no tracking is good and any tracking is bad |
| Popup.ScoreExamples | src/popup.js:123-129 | 0 of 10 is good, 2 of 10 medium, 5 of 10 bad |
| Popup.ScoreTextDistinguishes | src/popup.js:149-157 | the three scores get three different labels, none of them the fallback or the "unknown" label |
| Popup.ScoreText | src/popup.js:149-157 | the label table; `ScoreTextDistinguishes` states it |
| Popup.Details | src/popup.js:81-88 | one list entry per cookie, in order |
| Popup.CountsPartition | src/popup.js:73-79 | the four category counts add up to the number of cookies |
| Popup.AnalyzeCookies | src/popup.js:60-95 | total is the number of cookies; each count is its category's count; the counts sum to the total; tracking = analytics + advertising; one entry per cookie; blocked defaults to 0; the score is that of tracking against total |
| Popup.BlockTrackingCookies | src/popup.js:205-235 | the blocked count is stored exactly when no removal rejects, and it is the number of analytics and advertising entries |
| Popup.TrackingNamesCount | src/popup.js:210-217 | the entries removed are as many as the analytics plus advertising cookies |
| Popup.BlockedCountIsTracking | src/popup.js:205-224 | when every removal succeeds, the stored blocked count equals the tracking count `analyzeCookies` shows |
| Background.HandleInstallation | src/background.js:34-49 | only the reason "install" writes the defaults (every switch on, privacy level "medium") and opens the welcome page |
| Background.HandleMessage | src/background.js:51-83 | a dispatched message reaches the handler its action names, and the handler answers later (keeping the channel open) exactly for getCookieAnalysis, updateSettings and exportAllData |
| Background.DispatchRoundTrip | src/background.js:51-83 | every handler is reached by its own action, and an action is unknown exactly when no handler names it |
| Background.BadgeText | src/background.js:155 | the badge reads "99+" exactly when the count exceeds 99; otherwise one or two digits with no leading zero unless the count is 0 |
| Background.BadgeTextReadsBack | src/background.js:155 | up to 99 the badge text reads back as the count |
| Background.ScoreColor | src/background.js:176-182 | green exactly when scripts / max(count, 1) < 0.2, red exactly when the ratio is at least 0.5, orange exactly when it lies between |
| Background.ColorMatchesPopupScore | src/background.js:176-182 | the badge colour is the popup score's colour for the same numbers |
| Background.ProcessPageAnalysis | src/background.js:142-174 | the record is stored under its domain and other domains are untouched; the badge shows the count text and the score colour; a notification is shown exactly when enabled and tracking scripts were found |
| Background.GetCookieAnalysis | src/background.js:236-238 | the stored record, or null exactly when the domain has none; `StoreThenGet` relates it to what `processPageAnalysis` stores |
| Background.StoreThenGet | src/background.js:145-149 | after storing, the domain reads back the new record and other domains read back what they had |
| Background.ContentTrackingIsBackgroundTracking | src/background.js:203-217 | every name the content script's tracking test catches, the worker's test catches |
| Background.GatImpliesGa | src/background.js:205 | the "_gat" pattern adds nothing beyond "_ga" |
| Background.MixpanelOnlyInBackground | src/background.js:210 | "mp_id" is tracking for the worker but not for the content script |
| Background.BackgroundIsTracking | src/background.js:203-217 | the worker's 12-pattern test; `ContentTrackingIsBackgroundTracking`, `GatImpliesGa` and `MixpanelOnlyInBackground` state it |
| Background.RemovalUrl | src/background.js:194 | the URL starts with "https://" exactly when the cookie is secure and with "http://" otherwise, is 8 or 7 characters longer than domain and path, and ends with domain then path |
| Background.RemovalUrlDetermines | src/background.js:194 | two cookies with the same removal URL agree on `secure` and on domain followed by path |
| Background.HandleCookieChange | src/background.js:184-201 | a removal is issued exactly for a tracking cookie written explicitly while blocking is on, and it is the cookie's name at the cookie's removal URL |
| Background.ChangeRemovalInDomainPlan | src/background.js:184-229 | the removal an explicit write of a tracking cookie triggers is the one blocking the whole domain issues for that cookie |
| Background.RemovalPlan | src/background.js:223-229 | at most one removal per cookie; `PlanProvenance` and `PlanComplete` say which removals are in it |
| Background.BlockTrackingCookiesForDomain | src/background.js:219-234 | the removals issued are a prefix of the plan; all but the last succeeded; the batch stops early only at a rejected removal |
| Background.BlockAllWhenNothingFails | src/background.js:219-234 | when no removal rejects, the removals issued are the plan: one for every tracking cookie of the domain, at its own URL, and no other |
| Background.PlanProvenance | src/background.js:223-229 | every planned removal is for a tracking cookie of the list |
| Background.PlanComplete | src/background.js:223-229 | every tracking cookie of the list has its removal in the plan |
| Background.HandleTrackingCookie | src/background.js:320-346 | nothing is removed with blocking off; otherwise the name before the first '=' is removed at "https://" + domain, then at "http://" + domain exactly when the first attempt rejects; never more than two removals |
| Background.NoticeRemovesJudgedName | src/background.js:320-346 | for a notice the content script sends, the worker with blocking on first removes, over https at the page's domain, the very name the content script judged tracking, and its own test agrees |
| Background.HandleTabUpdate | src/background.js:111-140 | the content script is injected exactly for a completed load of a parsable http(s) URL; the host's tracking cookies are blocked exactly when, in addition, injection succeeded and the setting is on |
| Background.HandleSettingsUpdate | src/background.js:85-108 | with auto-decline on, injection is attempted in every queried tab whose URL starts with "http" and no other; with it off, none |
| Background.SettingsUpdateCons | src/background.js:90-102 | the loop goes tab by tab in query order: the first tab's injection comes before the rest |
| Background.TabUpdateAgreesWithSettingsUpdate | src/background.js:85-140 | a tab whose finished load injects the content script also gets an injection attempt when auto-decline is switched on, given `new URL` reads the protocol off the front of the URL |
| Background.ExportAllData | src/background.js:245-271 | sites analysed = number of stored keys; cookies found = the sum of the stored counts; `ExportOrderFree` shows the order of the records does not matter |
| Background.TotalCookiesAppend | src/background.js:260-262 | the cookie total adds up over any split of the storage, missing counts adding 0 |
| Background.ExportOrderFree | src/background.js:245-271 | any rearrangement of the storage records gives the same summary |
| Background.KeysToRemove | src/background.js:303-309 | exactly the keys whose `lastUpdated` is non-zero and older than a week are selected |
| Background.CleanupOldData | src/background.js:298-318 | nothing is removed exactly when no record is stale; otherwise the stale keys are removed |
| Background.RemoveKeys | src/background.js:312 | removal keeps exactly the entries whose key was not removed |
| Background.CleanupIdempotent | src/background.js:298-318 | at the same moment, a second cleanup finds nothing to remove |
| Background.StoredAnalysisExpires | src/background.js:305-309 | a record stored at time t is removed exactly when t is non-zero and more than a week old |
| Background.Stale | src/background.js:301-306 | the staleness test; `KeysToRemove` and `StoredAnalysisExpires` state it |
| Options.LoadSettings | src/options.js:21-29 | each of the five settings reads as stored when present and as its default when absent |
| Options.LoadRoundTrip | src/options.js:4-23 | empty storage loads as the defaults, and stored settings load back unchanged |
| Options.InstallDefaultsAgree | src/options.js:4-10 | the worker's install defaults agree with the options page's defaults |
| Options.Normalize | src/options.js:171-176 | the normalised domain is empty exactly when the input is all whitespace; it has no whitespace at either end and no upper-case letter; `NormalizeSpan` places it in the input |
| Options.NormalizeIdempotent | src/options.js:171 | normalising twice is normalising once |
| Options.NormalizeSpan | src/options.js:171 | the normalised domain is the lower case of a span of the input with only whitespace before and after it |
| Options.AddToWhitelist | src/options.js:169-199 | empty input and invalid domains are refused; a listed domain is refused; otherwise the normalised domain is appended |
| Options.AddKeepsNoDuplicates | src/options.js:186-194 | adding keeps the whitelist free of repeats, grows it by exactly one and keeps the earlier entries in place |
| Options.AddThenAlreadyListed | src/options.js:185-191 | a domain just added is refused the next time, however it is spelled, if it normalises the same |
| Options.AddedIsNormalized | src/options.js:171-194 | what is added is non-empty, valid and its own normalisation |

## Left out

- **Browser APIs.** Every `chrome.*` call is reduced to its inputs and outputs: storage, messaging, tabs, scripting, cookies, notifications, alarms and downloads. Promise timing, `sleep` and `setTimeout` are not modelled.
- **The page snapshot.** Clicks and hides made during the selector pass do not change what later queries in the same run return. In a browser, clicking a button hides its banner parent, and `isVisibleElement` is checked live (`src/content.js:442-445`, `src/content.js:499-511`). Every other button inside that hidden parent then fails the check, whether a later match of the same query or a later query finds it. The model still clicks and counts each of them. For example, two reject buttons inside one `.cookie-banner`: the source declines 1, the model 2. The same holds for one button matched again by a later selector (`Ladder.DoubleMatchCountedTwice`). The text scan and container hiding run only when nothing was clicked, so only the selector pass is affected.
- **Hidden descendants.** A descendant of a force-hidden container still counts as a visible cookie banner in this model. In a browser it would have no layout.
- **Content-script dispatch and observation.** The content script's message dispatch and `analyzePage` assembly are not modelled (`src/content.js:112-165`). Neither are the `MutationObserver` / `handleNewCookieBanner` re-entrancy (`src/content.js:672-708`), the injected `document.cookie` interceptor or the `postMessage` listener. Their point is event interleaving and the page context.
- **Indicators and rendering.** The indicators, toasts, popup rendering and options-page rendering are DOM output only.
- **`declineButtonSelectors`** (`src/content.js:24-46`) is never used by the code.
- **`storeAnalysis`** (`src/content.js:759-767`) is a storage write. Its `lastUpdated` stamp is what `Background.StoredAnalysisExpires` reads.
- **Popup messaging.** The popup's `exportReport`, `requestFreshAnalysis` and `autoDeclineCookies` only message other scripts.
- **`isValidDomain`** is a predicate parameter, because its body is not part of this model. Likewise, the rest of `src/options.js` past `addToWhitelist` (`removeFromWhitelist`, saving, import, reset) is not part of this model. `loadStatistics` and `toggleSetting` only render.
- **`src/background.js` does not parse as written.** There is a stray `}` at line 109 and the class-closing brace is missing. Its methods are modelled as the standalone functions they evidently are.
- **Unmodelled rejections.** These rejections are not parameters of the model:
  - In `processPageAnalysis` (`src/background.js:142-174`), a rejected `setBadgeText`, `setBadgeBackgroundColor` or `storage.sync.get` ends the `try`, so no notification is shown.
  - In `handleTabUpdate` (`src/background.js:111-140`), a rejected `storage.sync.get` skips both the injection and the blocking.
  - In `handleTrackingCookie` (`src/background.js:320-346`), a rejected `storage.sync.get` removes nothing.
  - In `handleSettingsUpdate` (`src/background.js:85-108`), a rejected `tabs.query` injects into no tab.
  - In `addToWhitelist` and `loadSettings` (`src/options.js`), storage rejections only notify the user.
  - In `handleCookieChange` (`src/background.js:188`), a rejected `storage.sync.get` removes nothing.
  - In `blockTrackingCookiesForDomain` (`src/background.js:221`), a rejected `cookies.getAll` removes nothing.
  - In `exportAllData` (`src/background.js:249-252`), a rejected `storage.local.get` or `storage.sync.get` gives no export.
  - In `cleanupOldData` (`src/background.js:300`, `src/background.js:312`), a rejected `storage.local.get` or `storage.local.remove` removes nothing.
  - In `handleInstallation` (`src/background.js:37`), a rejected `storage.sync.set` writes no defaults and opens no welcome page.
  - In the popup's `blockTrackingCookies` (`src/popup.js:221-224`), a rejected `storage.local.set` stores no count and shows no success notice, after the removals were made.
- **Packaging.** `build.js` and `scripts/` only package files.
- Strings.Lower: `toLowerCase` folds only the ASCII letters A–Z here. The full Unicode case mapping is not modelled.
- Banner.Excerpt: `substring(0, 100)` counts UTF-16 code units. The model counts characters, so texts outside the Basic Multilingual Plane are cut differently.
- Popup.CalculatePrivacyScore: the ratio is compared in exact real arithmetic, not in IEEE doubles.
- Background.ScoreColor: the ratio is compared in exact real arithmetic, not in IEEE doubles.
- Popup.BlockTrackingCookies: `new URL(this.currentTab.url)` is assumed to parse; its failure would also reach the `catch`. A rejected `storage.local.set` (`src/popup.js:221-224`) is not modelled either: the model returns `Some(count)` although the source stores nothing and ends in the `catch`.
- Affordance.IsLikelyDeclineButton: `text.length < 10` (`src/content.js:538`) counts UTF-16 code units, while the model counts characters. A text with characters outside the Basic Multilingual Plane can be under ten characters yet ten or more code units: "reject 👎👎" has 9 characters and 11 code units, so the model applies the short-text guard where the source does not.
- Affordance.ShortTextGuard: the length is counted in characters, not UTF-16 code units, for the same reason; the guard is stated for texts the model measures as under ten characters.
- Popup.ScoreTextDistinguishes: `texts[score]` also finds inherited object keys such as "constructor". Such keys are treated as unknown.
- Background.HandleTabUpdate: `new URL` is a parameter returning the protocol and hostname, or nothing where it throws. URL parsing itself is not modelled.
- PageAnalysis.AnalyzeThirdPartyRequests: the same holds for `new URL` here. The result is returned as a duplicate-free sequence in first-seen order, which is the order `Array.from(new Set(...))` gives.
- **Blocked-count overwrite.** The popup stores `{ blocked }` under the same `analysis_` key the content script writes. This overwrites the stored analysis, including its `lastUpdated`. The model states only the count.
