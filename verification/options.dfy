/** The options page: the default settings, loading settings over those defaults,
    and adding a domain to the whitelist. Domain validation (`isValidDomain`) is a
    given predicate. */
module Options {
  import opened Wrappers
  import opened Strings
  import Background

  /** The settings the options page edits. */
  datatype Settings = Settings(
    autoDeclineEnabled: bool,
    blockTrackingCookies: bool,
    showNotifications: bool,
    privacyLevel: string,
    whitelist: seq<string>
  )

  /** `defaultSettings`: every switch on, privacy level "medium", no whitelist. */
  const DefaultSettings := Settings(true, true, true, "medium", [])

  /** The settings as sync storage holds them: each key present or absent. */
  datatype StoredSettings = StoredSettings(
    autoDeclineEnabled: Option<bool>,
    blockTrackingCookies: Option<bool>,
    showNotifications: Option<bool>,
    privacyLevel: Option<string>,
    whitelist: Option<seq<string>>
  )

  /** `chrome.storage.sync.get(defaultSettings)`: every absent key reads as its default. */
  function LoadSettings(stored: StoredSettings): (s: Settings)
    ensures stored.autoDeclineEnabled.None? ==> s.autoDeclineEnabled == DefaultSettings.autoDeclineEnabled
    ensures stored.blockTrackingCookies.None? ==> s.blockTrackingCookies == DefaultSettings.blockTrackingCookies
    ensures stored.showNotifications.None? ==> s.showNotifications == DefaultSettings.showNotifications
    ensures stored.privacyLevel.None? ==> s.privacyLevel == DefaultSettings.privacyLevel
    ensures stored.whitelist.None? ==> s.whitelist == []
    ensures stored.autoDeclineEnabled.Some? ==> s.autoDeclineEnabled == stored.autoDeclineEnabled.value
    ensures stored.blockTrackingCookies.Some? ==> s.blockTrackingCookies == stored.blockTrackingCookies.value
    ensures stored.showNotifications.Some? ==> s.showNotifications == stored.showNotifications.value
    ensures stored.privacyLevel.Some? ==> s.privacyLevel == stored.privacyLevel.value
    ensures stored.whitelist.Some? ==> s.whitelist == stored.whitelist.value
  {
    Settings(stored.autoDeclineEnabled.GetOr(DefaultSettings.autoDeclineEnabled),
             stored.blockTrackingCookies.GetOr(DefaultSettings.blockTrackingCookies),
             stored.showNotifications.GetOr(DefaultSettings.showNotifications),
             stored.privacyLevel.GetOr(DefaultSettings.privacyLevel),
             stored.whitelist.GetOr(DefaultSettings.whitelist))
  }

  /** Settings written in full to storage. */
  function Store(s: Settings): StoredSettings {
    StoredSettings(Some(s.autoDeclineEnabled), Some(s.blockTrackingCookies), Some(s.showNotifications),
                   Some(s.privacyLevel), Some(s.whitelist))
  }

  /** Empty storage loads as the defaults, and stored settings load back unchanged. */
  lemma LoadRoundTrip(s: Settings)
    ensures LoadSettings(StoredSettings(None, None, None, None, None)) == DefaultSettings
    ensures LoadSettings(Store(s)) == s
  {
  }

  /** The install defaults the background worker writes agree with the options
      page's defaults on the four settings both name (the worker writes no whitelist). */
  lemma InstallDefaultsAgree()
    ensures var d := Background.HandleInstallation("install").defaults.value;
      && d.autoDeclineEnabled == DefaultSettings.autoDeclineEnabled
      && d.blockTrackingCookies == DefaultSettings.blockTrackingCookies
      && d.showNotifications == DefaultSettings.showNotifications
      && d.privacyLevel == DefaultSettings.privacyLevel
  {
  }

  // ---------------------------------------------------------------------------
  // addToWhitelist

  /** `input.value.trim().toLowerCase()`. `NormalizeSpan` says where in the input
      the result comes from. */
  function Normalize(input: string): (d: string)
    ensures |d| <= |input|
    ensures |d| > 0 ==> !IsSpace(d[0]) && !IsSpace(d[|d| - 1])
    ensures forall i :: 0 <= i < |d| ==> !('A' <= d[i] <= 'Z')
    ensures d == "" <==> forall i :: 0 <= i < |input| ==> IsSpace(input[i])
  {
    var t := Trim(input);
    TrimEmpty(input);
    if |t| > 0 then
      LowerKeepsSpaces(t[0]);
      LowerKeepsSpaces(t[|t| - 1]);
      Lower(t)
    else Lower(t)
  }

  /** `d` is the lower case of the span of `s` starting at `k`, with nothing but
      whitespace in `s` before and after that span. */
  ghost predicate LoweredSpan(s: string, d: string, k: int) {
    && 0 <= k <= |s| - |d|
    && (forall j :: 0 <= j < |d| ==> d[j] == LowerChar(s[k + j]))
    && (forall j :: 0 <= j < k ==> IsSpace(s[j]))
    && (forall j :: k + |d| <= j < |s| ==> IsSpace(s[j]))
  }

  /** The normalized domain is the typed text, lower-cased, with only surrounding
      whitespace dropped. */
  lemma NormalizeSpan(input: string)
    ensures exists k :: LoweredSpan(input, Normalize(input), k)
  {
    var t := Trim(input);
    TrimSpec(input);
    var k :| TrimmedAt(input, t, k);
    var d := Normalize(input);
    forall j | 0 <= j < |d| ensures d[j] == LowerChar(input[k + j]) {
      assert t[j] == input[k..k + |t|][j];
    }
    assert LoweredSpan(input, d, k);
  }

  /** Normalizing twice is normalizing once: a listed domain normalizes to itself. */
  lemma NormalizeIdempotent(input: string)
    ensures Normalize(Normalize(input)) == Normalize(input)
  {
    var d := Normalize(input);
    TrimNoop(d);
    LowerNoop(d);
  }

  /** The outcome of `addToWhitelist`: one of the three refusals (each with its
      notification), or the list written back to storage. */
  datatype WhitelistOutcome = EmptyDomain | InvalidDomain | AlreadyListed | Added(whitelist: seq<string>)

  /** `addToWhitelist()` for the typed `input`, the stored list (`None` when the key
      is absent) and the validity test `isValid`. */
  function AddToWhitelist(input: string, stored: Option<seq<string>>, isValid: string -> bool): (r: WhitelistOutcome)
    ensures r == EmptyDomain <==> Normalize(input) == ""
    ensures r == InvalidDomain <==> Normalize(input) != "" && !isValid(Normalize(input))
    ensures r == AlreadyListed <==> Normalize(input) != "" && isValid(Normalize(input)) && Normalize(input) in stored.GetOr([])
    ensures r.Added? ==> r.whitelist == stored.GetOr([]) + [Normalize(input)] && Normalize(input) !in stored.GetOr([])
  {
    var domain := Normalize(input);
    if domain == "" then EmptyDomain
    else if !isValid(domain) then InvalidDomain
    else
      var whitelist := stored.GetOr([]);
      if domain in whitelist then AlreadyListed else Added(whitelist + [domain])
  }

  /** The whitelist has no repeated domain. */
  predicate NoDuplicates(ws: seq<string>) {
    forall i, j :: 0 <= i < j < |ws| ==> ws[i] != ws[j]
  }

  /** Adding keeps the whitelist free of repeats, grows it by one, and keeps the
      earlier entries in place. */
  lemma AddKeepsNoDuplicates(input: string, stored: seq<string>, isValid: string -> bool)
    requires NoDuplicates(stored)
    ensures var r := AddToWhitelist(input, Some(stored), isValid);
      r.Added? ==> NoDuplicates(r.whitelist) && |r.whitelist| == |stored| + 1 && r.whitelist[..|stored|] == stored
  {
    var r := AddToWhitelist(input, Some(stored), isValid);
    if r.Added? {
      var ws := r.whitelist;
      assert ws[..|stored|] == stored;
      forall i, j | 0 <= i < j < |ws| ensures ws[i] != ws[j] {
        if j == |stored| {
          assert ws[i] == stored[i];
          assert stored[i] in stored;
        }
      }
    }
  }

  /** A domain just added is refused as already listed the next time, however it
      is spelled, as long as it normalizes the same. */
  lemma AddThenAlreadyListed(input: string, again: string, stored: Option<seq<string>>, isValid: string -> bool)
    requires AddToWhitelist(input, stored, isValid).Added?
    requires Normalize(again) == Normalize(input)
    ensures AddToWhitelist(again, Some(AddToWhitelist(input, stored, isValid).whitelist), isValid) == AlreadyListed
  {
    var ws := AddToWhitelist(input, stored, isValid).whitelist;
    assert ws[|ws| - 1] == Normalize(input);
  }

  /** What is added is the normalized input: trimmed, lower-case, never empty, and
      accepted by the validity test. */
  lemma AddedIsNormalized(input: string, stored: Option<seq<string>>, isValid: string -> bool)
    requires AddToWhitelist(input, stored, isValid).Added?
    ensures var ws := AddToWhitelist(input, stored, isValid).whitelist;
      var d := ws[|ws| - 1];
      && d != "" && isValid(d) && Normalize(d) == d
  {
    NormalizeIdempotent(input);
  }
}
