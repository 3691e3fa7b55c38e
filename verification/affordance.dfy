/** The two decline-affordance classifiers of the content script.
    `IsDeclineButton` serves the banner detector; `IsLikelyDeclineButton` serves the
    decline ladder and adds `data-testid`, more terms, "continue" as an accept term,
    and a guard against short generic buttons. Both veto any element whose signal
    contains an accept term. */
module Affordance {
  import opened Strings
  import opened Dom

  /** Decline terms of `isDeclineButton`. */
  const DeclineTerms: seq<string> := [
    "decline", "reject", "deny", "refuse", "no thanks", "no, thanks",
    "opt out", "disable", "turn off", "block", "dismiss",
    "only necessary", "essential only", "necessary only",
    "manage preferences", "cookie settings"
  ]

  /** Accept terms of `isDeclineButton`. */
  const AcceptTerms: seq<string> := ["accept", "allow", "agree", "consent", "ok", "yes", "enable"]

  /** Decline terms of `isLikelyDeclineButton`. */
  const LikelyDeclineTerms: seq<string> := [
    "reject", "decline", "refuse", "deny", "no thanks", "no, thanks",
    "opt out", "disable", "turn off", "block", "dismiss",
    "only necessary", "essential only", "necessary only",
    "manage preferences", "cookie settings", "customize",
    "no, i don't agree", "i do not agree", "disagree"
  ]

  /** Accept terms of `isLikelyDeclineButton`. */
  const LikelyAcceptTerms: seq<string> := ["accept", "allow", "agree", "consent", "ok", "yes", "enable", "continue"]

  /** `terms.some(t => s.includes(t))`. */
  predicate MentionsAny(s: string, terms: seq<string>) {
    exists i :: 0 <= i < |terms| && Contains(s, terms[i])
  }

  /** The trimmed, lower-cased text content both classifiers start from. */
  function ButtonText(e: Element): string {
    Trim(Lower(e.text))
  }

  /** The combined signal of `isDeclineButton`: text, aria-label, title, id, class. */
  function DeclineSignal(e: Element): string {
    SpaceJoin(DeclineFields(e))
  }

  /** The fields of `isDeclineButton`'s signal, in order. */
  function DeclineFields(e: Element): seq<string> {
    [ButtonText(e), Lower(e.ariaLabel), Lower(e.title), Lower(e.id), Lower(e.cls)]
  }

  /** The combined signal of `isLikelyDeclineButton`: text, aria-label, title, class, id, data-testid. */
  function LikelySignal(e: Element): string {
    SpaceJoin(LikelyFields(e))
  }

  /** The fields of `isLikelyDeclineButton`'s signal, in order. */
  function LikelyFields(e: Element): seq<string> {
    [ButtonText(e), Lower(e.ariaLabel), Lower(e.title), Lower(e.cls), Lower(e.id), Lower(e.testId)]
  }

  /** `isDeclineButton`: some decline term and no accept term in the signal. */
  predicate IsDeclineButton(e: Element) {
    MentionsAny(DeclineSignal(e), DeclineTerms) && !MentionsAny(DeclineSignal(e), AcceptTerms)
  }

  /** The short-text guard of `isLikelyDeclineButton`: fewer than ten characters of
      text, and neither data-testid nor class mentions "reject". */
  predicate ShortAndGeneric(e: Element) {
    |ButtonText(e)| < 10 && !Contains(Lower(e.testId), "reject") && !Contains(Lower(e.cls), "reject")
  }

  /** `isLikelyDeclineButton`. */
  predicate IsLikelyDeclineButton(e: Element) {
    if ShortAndGeneric(e) then false
    else MentionsAny(LikelySignal(e), LikelyDeclineTerms) && !MentionsAny(LikelySignal(e), LikelyAcceptTerms)
  }

  // ---------------------------------------------------------------------------
  // Properties

  /** The accept veto of the ladder's classifier: a likely decline carries a decline
      term, no accept term (including "continue"), and is not a short generic button. */
  lemma LikelyDeclineVeto(e: Element)
    requires IsLikelyDeclineButton(e)
    ensures !ShortAndGeneric(e)
    ensures exists i :: 0 <= i < |LikelyDeclineTerms| && Contains(LikelySignal(e), LikelyDeclineTerms[i])
    ensures forall i :: 0 <= i < |LikelyAcceptTerms| ==> !Contains(LikelySignal(e), LikelyAcceptTerms[i])
  {
  }

  /** The accept veto of the detector's classifier, which has no length guard. */
  lemma DeclineVeto(e: Element)
    requires IsDeclineButton(e)
    ensures exists i :: 0 <= i < |DeclineTerms| && Contains(DeclineSignal(e), DeclineTerms[i])
    ensures forall i :: 0 <= i < |AcceptTerms| ==> !Contains(DeclineSignal(e), AcceptTerms[i])
  {
  }

  /** The short-text guard: short generic buttons are never likely declines,
      whatever terms they carry. */
  lemma ShortTextGuard(e: Element)
    requires |ButtonText(e)| < 10
    requires !Contains(Lower(e.testId), "reject") && !Contains(Lower(e.cls), "reject")
    ensures !IsLikelyDeclineButton(e)
  {
  }

  /** A signal containing a substring of an accept term's container is vetoed:
      whatever contains `t`, where `t` contains the accept term at `a`, is no decline. */
  lemma VetoedBy(e: Element, t: string, a: nat)
    requires a < |LikelyAcceptTerms| && Contains(t, LikelyAcceptTerms[a])
    requires Contains(LikelySignal(e), t)
    ensures !IsLikelyDeclineButton(e)
  {
    ContainsTransitive(LikelySignal(e), t, LikelyAcceptTerms[a]);
  }

  /** "ok" is a substring of "cookie": an element whose signal mentions "cookie" is never
      a likely decline, and never a decline for the detector either. */
  lemma CookieMentionVetoes(e: Element)
    ensures Contains(LikelySignal(e), "cookie") ==> !IsLikelyDeclineButton(e)
    ensures Contains(DeclineSignal(e), "cookie") ==> !IsDeclineButton(e)
  {
    var cookie, ok := "cookie", "ok";
    OkInCookie(cookie, ok);
    assert LikelyAcceptTerms[4] == ok && AcceptTerms[4] == ok;
    if Contains(LikelySignal(e), cookie) {
      VetoedBy(e, cookie, 4);
    }
    if Contains(DeclineSignal(e), cookie) {
      ContainsTransitive(DeclineSignal(e), cookie, ok);
    }
  }

  /** "cookie" contains "ok". */
  lemma OkInCookie(cookie: string, ok: string)
    requires cookie == "cookie" && ok == "ok"
    ensures Contains(cookie, ok)
  {
    assert cookie[2..4] == ok;
    OccursContains(cookie, ok, 2);
  }

  /** The decline terms that can never fire because each contains an accept term:
      "cookie settings" contains "ok", the last three contain "agree". */
  const DeadLikelyDeclineTerms: seq<string> := ["cookie settings", "no, i don't agree", "i do not agree", "disagree"]

  /** Every dead term is a decline term of the ladder's classifier, and a signal that
      contains one is never a likely decline. */
  lemma DeadTermsNeverDecline(e: Element, d: nat)
    requires d < |DeadLikelyDeclineTerms|
    requires Contains(LikelySignal(e), DeadLikelyDeclineTerms[d])
    ensures DeadLikelyDeclineTerms[d] in LikelyDeclineTerms
    ensures !IsLikelyDeclineButton(e)
  {
    DeadTermHoldsAccept(d);
    var t := DeadLikelyDeclineTerms[d];
    var a :| 0 <= a < |LikelyAcceptTerms| && Contains(t, LikelyAcceptTerms[a]);
    VetoedBy(e, t, a);
  }

  /** Example over the literal term lists: each dead term is a decline term and
      contains an accept term. */
  lemma DeadTermHoldsAccept(d: nat)
    requires d < |DeadLikelyDeclineTerms|
    ensures DeadLikelyDeclineTerms[d] in LikelyDeclineTerms
    ensures exists a :: 0 <= a < |LikelyAcceptTerms| && Contains(DeadLikelyDeclineTerms[d], LikelyAcceptTerms[a])
  {
    OkInCookieSettings();
    AgreeInDontAgree();
    AgreeInDoNotAgree();
    AgreeInDisagree();
    assert LikelyAcceptTerms[2] == "agree" && LikelyAcceptTerms[4] == "ok";
    if d == 0 {
      assert DeadLikelyDeclineTerms[0] == LikelyDeclineTerms[15] == "cookie settings";
    } else if d == 1 {
      assert DeadLikelyDeclineTerms[1] == LikelyDeclineTerms[17] == "no, i don't agree";
    } else if d == 2 {
      assert DeadLikelyDeclineTerms[2] == LikelyDeclineTerms[18] == "i do not agree";
    } else {
      assert DeadLikelyDeclineTerms[3] == LikelyDeclineTerms[19] == "disagree";
    }
  }

  /** "cookie settings" contains "ok". */
  lemma OkInCookieSettings()
    ensures Contains("cookie settings", "ok")
  {
  }

  /** "no, i don't agree" contains "agree". */
  lemma AgreeInDontAgree()
    ensures Contains("no, i don't agree", "agree")
  {
    var t := "no, i don't agree";
    assert t[12] == 'a' && t[13] == 'g' && t[14] == 'r' && t[15] == 'e' && t[16] == 'e';
    assert t[12..17] == "agree";
    OccursContains(t, "agree", 12);
  }

  /** "i do not agree" contains "agree". */
  lemma AgreeInDoNotAgree()
    ensures Contains("i do not agree", "agree")
  {
    var t := "i do not agree";
    assert t[9] == 'a' && t[10] == 'g' && t[11] == 'r' && t[12] == 'e' && t[13] == 'e';
    assert t[9..14] == "agree";
    OccursContains(t, "agree", 9);
  }

  /** "disagree" contains "agree". */
  lemma AgreeInDisagree()
    ensures Contains("disagree", "agree")
  {
  }

  /** Both classifiers are case-insensitive: lower-casing every field first changes nothing. */
  lemma VerdictIgnoresCase(e: Element)
    ensures IsLikelyDeclineButton(LowerFields(e)) == IsLikelyDeclineButton(e)
    ensures IsDeclineButton(LowerFields(e)) == IsDeclineButton(e)
  {
    LowerIdempotent(e.text);
    LowerIdempotent(e.ariaLabel);
    LowerIdempotent(e.title);
    LowerIdempotent(e.id);
    LowerIdempotent(e.cls);
    LowerIdempotent(e.testId);
    assert LikelySignal(LowerFields(e)) == LikelySignal(e);
    assert DeclineSignal(LowerFields(e)) == DeclineSignal(e);
  }

  /** `e` with every field the classifiers read lower-cased. */
  function LowerFields(e: Element): Element {
    e.(text := Lower(e.text), ariaLabel := Lower(e.ariaLabel), title := Lower(e.title),
       id := Lower(e.id), cls := Lower(e.cls), testId := Lower(e.testId))
  }

  // ---------------------------------------------------------------------------
  // Worked examples

  /** A bare button with the given text and no attributes. */
  function PlainButton(text: string): Element {
    Element(0, text, "", "", "", "", "", 100, 30, "block", "visible", "1", true, Wrappers.None, false)
  }

  /** "Reject All" is a likely decline: ten characters pass the guard, "reject" is a
      decline term and no accept term occurs. */
  lemma RejectAllDeclines()
    ensures IsLikelyDeclineButton(PlainButton("Reject All"))
  {
    var e := PlainButton("Reject All");
    RejectAllText(e);
    assert LikelyFields(e) == ["reject all", "", "", "", "", ""];
    RejectAllSignal(LikelySignal(e));
    assert LikelyDeclineTerms[0] == "reject";
    NoLikelyAcceptTerm(LikelySignal(e));
  }

  /** The signal of a bare "Reject All" button holds "reject" and none of p, w, g, n, o, y. */
  lemma RejectAllSignal(s: string)
    requires s == SpaceJoin(["reject all", "", "", "", "", ""])
    ensures Contains(s, "reject")
    ensures forall c :: c in "pwgnoy" ==> c !in s
  {
    assert s == "reject all     ";
    assert s[..6] == "reject";
  }

  /** The trimmed lower-cased text of a "Reject All" button. */
  lemma RejectAllText(e: Element)
    requires e.text == "Reject All"
    ensures ButtonText(e) == "reject all"
  {
    var l := Lower(e.text);
    assert l[0] == 'r' && l[6] == ' ';
    assert l == "reject all";
    TextWithoutEdgeSpaces(e, "reject all");
  }

  /** When the lower-cased text has no spaces at either end, trimming keeps it whole. */
  lemma TextWithoutEdgeSpaces(e: Element, lowered: string)
    requires Lower(e.text) == lowered
    requires |lowered| > 0 ==> !IsSpace(lowered[0]) && !IsSpace(lowered[|lowered| - 1])
    ensures ButtonText(e) == lowered
  {
    TrimNoop(lowered);
  }

  /** Example over the literal accept list: a signal lacking each of the letters
      p, w, g, n, o and y holds no accept term. */
  lemma NoLikelyAcceptTerm(s: string)
    requires forall c :: c in "pwgnoy" ==> c !in s
    ensures !MentionsAny(s, LikelyAcceptTerms)
  {
    MissingCharExcludes(s, "accept", 'p');
    MissingCharExcludes(s, "allow", 'w');
    MissingCharExcludes(s, "agree", 'g');
    MissingCharExcludes(s, "consent", 'n');
    MissingCharExcludes(s, "ok", 'o');
    MissingCharExcludes(s, "yes", 'y');
    MissingCharExcludes(s, "enable", 'n');
    MissingCharExcludes(s, "continue", 'o');
  }

  /** "No" is caught by the short-text guard. */
  lemma BareNoIsNotDecline(text: string)
    requires text == "No"
    ensures !IsLikelyDeclineButton(PlainButton(text))
  {
    var e := PlainButton(text);
    assert |ButtonText(e)| <= |text|;
    MissingCharExcludes(Lower(""), "reject", 'r');
    ShortTextGuard(e);
  }

  /** A button reading "Manage preferences and accept all" (in any case) carries the
      decline term "manage preferences", but the accept veto wins in both classifiers. */
  lemma ManageAndAcceptIsNotDecline(e: Element, text: string)
    requires text == "manage preferences and accept all"
    requires Lower(e.text) == text
    ensures MentionsAny(LikelySignal(e), LikelyDeclineTerms)
    ensures !IsLikelyDeclineButton(e)
    ensures !IsDeclineButton(e)
  {
    assert text[0] == 'm' && text[|text| - 1] == 'l';
    TextWithoutEdgeSpaces(e, text);
    var manage, accept := "manage preferences", "accept";
    ManageAndAcceptTerms(text, manage, accept);
    assert LikelyDeclineTerms[14] == manage;
    ButtonTextMentions(e, LikelyDeclineTerms, 14);
    AcceptInTextVetoes(e, accept);
  }

  /** Text containing one of `terms` makes the ladder's signal mention that list. */
  lemma ButtonTextMentions(e: Element, terms: seq<string>, i: nat)
    requires i < |terms| && Contains(ButtonText(e), terms[i])
    ensures MentionsAny(LikelySignal(e), terms)
  {
    SpaceJoinContains(LikelyFields(e), 0, terms[i]);
  }

  /** Text containing "accept" is vetoed by both classifiers, whatever else it says. */
  lemma AcceptInTextVetoes(e: Element, t: string)
    requires t == "accept"
    requires Contains(ButtonText(e), t)
    ensures !IsLikelyDeclineButton(e)
    ensures !IsDeclineButton(e)
  {
    SpaceJoinContains(LikelyFields(e), 0, t);
    SpaceJoinContains(DeclineFields(e), 0, t);
    assert LikelyAcceptTerms[0] == t;
    assert AcceptTerms[0] == t;
  }

  /** Example: "manage preferences and accept all" holds both "manage preferences"
      and "accept". */
  lemma ManageAndAcceptTerms(text: string, manage: string, accept: string)
    requires text == "manage preferences and accept all"
    requires manage == "manage preferences" && accept == "accept"
    ensures Contains(text, manage)
    ensures Contains(text, accept)
  {
    assert text[..18] == manage;
    OccursContains(text, manage, 0);
    assert text[23] == 'a' && text[24] == 'c' && text[25] == 'c' && text[26] == 'e' && text[27] == 'p' && text[28] == 't';
    assert text[23..29] == accept;
    OccursContains(text, accept, 23);
  }
}
