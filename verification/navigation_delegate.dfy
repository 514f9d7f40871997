/** `WKNavigationDelegateImpl`: the policy decision for each navigation action
    and the relay of finished and failed navigations to the owner. Each
    handler is a function of the owner snapshot (`None` once the weak
    reference has expired) returning the effects it emits, in order. */
module NavigationDelegate {
  import opened Wrappers
  import opened WebView
  import opened Events

  /** WebKit's raw `WKNavigationType` values. */
  const RawLinkActivated := 0
  const RawFormSubmitted := 1
  const RawBackForward := 2
  const RawReload := 3
  const RawFormResubmitted := 4
  const RawOther := -1

  /** The `switch` over `navigationAction.navigationType`: five known signals
      get their own type and everything else, including values WebKit may add
      later, is `Other`. */
  function Classify(raw: int): (t: NavigationType)
    ensures t == Other <==>
              raw !in {RawLinkActivated, RawFormSubmitted, RawBackForward, RawReload, RawFormResubmitted}
  {
    if raw == RawLinkActivated then LinkClicked
    else if raw == RawFormSubmitted then FormSubmitted
    else if raw == RawBackForward then BackForward
    else if raw == RawReload then Reload
    else if raw == RawFormResubmitted then FormResubmitted
    else Other
  }

  /** The raw WebKit signal for each navigation type. */
  function RawOf(t: NavigationType): int {
    match t
    case LinkClicked => RawLinkActivated
    case FormSubmitted => RawFormSubmitted
    case BackForward => RawBackForward
    case Reload => RawReload
    case FormResubmitted => RawFormResubmitted
    case Other => RawOther
  }

  /** Classification recovers every type from its WebKit signal, so each of the
      six types is reachable and the five known signals map to distinct types. */
  lemma ClassifyRawOf(t: NavigationType)
    ensures Classify(RawOf(t)) == t
  {
  }

  /** A `WKNavigationAction`: the request (whose URL may be nil) and the raw
      navigation type. */
  datatype NavigationAction = NavigationAction(request: Request, navigationType: int)

  /** The override predicate cancels `url` only when it returns exactly `true`. */
  predicate OverrideCancels(owner: Owner, url: string) {
    owner.urlOverrideHandler.Some? && owner.urlOverrideHandler.value(url) == JsBool(true)
  }

  /** `webViewDecidePolicyForNavigationActionDecisionHandler`. */
  function DecidePolicy(owner: Option<Owner>, action: NavigationAction): (effects: seq<Effect>)
    // owner gone or no URL: no decision and no callback
    ensures owner.None? || action.request.url.None? ==> effects == []
    // otherwise exactly one decision, and it comes first
    ensures owner.Some? && action.request.url.Some? ==>
              Count(effects, DecisionKind) == 1 && effects[0].Decision?
    // Cancel exactly when the predicate returned `true`, and then nothing else
    ensures Decision(Cancel) in effects <==>
              owner.Some? && action.request.url.Some?
              && OverrideCancels(owner.value, action.request.url.value.absoluteString)
    ensures Decision(Cancel) in effects ==> effects == [Decision(Cancel)]
    // an allowed navigation is announced once, after the decision, with the
    // request URL and the name of the classified type
    ensures Count(effects, StartedKind) <= 1
    ensures Precedes(effects, DecisionKind, StartedKind)
    ensures Decision(Allow) in effects ==>
              LoadStarted(action.request.url.value.absoluteString, Classify(action.navigationType).Name()) in effects
    ensures Count(effects, FinishedKind) == 0
  {
    match owner
    case None => []
    case Some(o) =>
      match action.request.url
      case None => []
      case Some(u) =>
        if OverrideCancels(o, u.absoluteString) then [Decision(Cancel)]
        else [Decision(Allow), LoadStarted(u.absoluteString, Classify(action.navigationType).Name())]
  }

  /** A predicate result that is truthy but not the boolean `true` (say the
      string "true" or the number 1) does not cancel: the comparison is `===`. */
  lemma TruthyIsNotCancel(o: Owner, action: NavigationAction)
    requires action.request.url.Some?
    requires o.urlOverrideHandler.Some?
    requires o.urlOverrideHandler.value(action.request.url.value.absoluteString) != JsBool(true)
    ensures DecidePolicy(Some(o), action)
              == [Decision(Allow), LoadStarted(action.request.url.value.absoluteString, Classify(action.navigationType).Name())]
  {
  }

  /** With no override predicate every navigation with a URL is allowed. */
  lemma NoPredicateAllows(o: Owner, action: NavigationAction)
    requires action.request.url.Some?
    requires o.urlOverrideHandler.None?
    ensures Decision(Allow) in DecidePolicy(Some(o), action)
    ensures Count(DecidePolicy(Some(o), action), StartedKind) == 1
  {
  }

  /** The URL reported when a navigation ends: the web view's URL if it has
      one, else the owner's `src`. */
  function ReportedUrl(owner: Owner, webViewUrl: Option<Url>): string {
    match webViewUrl
    case Some(u) => u.absoluteString
    case None => owner.src
  }

  /** `webViewDidFinishNavigation`: one `onLoadFinished` without an error
      message while the owner is alive, nothing once it is gone. */
  function DidFinishNavigation(owner: Option<Owner>, webViewUrl: Option<Url>): (effects: seq<Effect>)
    ensures owner.None? <==> effects == []
    ensures owner.Some? ==> |effects| == 1 && effects[0].LoadFinished? && effects[0].error.None?
    ensures owner.Some? && webViewUrl.Some? ==> effects[0].url == webViewUrl.value.absoluteString
    ensures owner.Some? && webViewUrl.None? ==> effects[0].url == owner.value.src
  {
    match owner
    case None => []
    case Some(o) => [LoadFinished(ReportedUrl(o, webViewUrl), None)]
  }

  /** `webViewDidFailNavigationWithError`: as finishing, but carrying the
      error's `localizedDescription` verbatim. */
  function DidFailNavigation(owner: Option<Owner>, webViewUrl: Option<Url>, error: NSError): (effects: seq<Effect>)
    ensures owner.None? <==> effects == []
    ensures owner.Some? ==>
              |effects| == 1 && effects[0].LoadFinished? && effects[0].error == Some(error.localizedDescription)
    ensures owner.Some? && webViewUrl.Some? ==> effects[0].url == webViewUrl.value.absoluteString
    ensures owner.Some? && webViewUrl.None? ==> effects[0].url == owner.value.src
  {
    match owner
    case None => []
    case Some(o) => [LoadFinished(ReportedUrl(o, webViewUrl), Some(error.localizedDescription))]
  }

  /** Finish and fail report the same URL and differ only in the error
      message: the web view's URL wins over `src` whenever it is present. */
  lemma FinishAndFailAgree(o: Owner, webViewUrl: Option<Url>, error: NSError)
    ensures DidFinishNavigation(Some(o), webViewUrl)[0].url == DidFailNavigation(Some(o), webViewUrl, error)[0].url
    ensures webViewUrl.Some? ==> DidFinishNavigation(Some(o), webViewUrl)[0].url == webViewUrl.value.absoluteString
    ensures webViewUrl.None? ==> DidFinishNavigation(Some(o), webViewUrl)[0].url == o.src
    ensures DidFinishNavigation(Some(o), webViewUrl)[0].error.None?
    ensures DidFailNavigation(Some(o), webViewUrl, error)[0].error == Some(error.localizedDescription)
  {
  }

  /** How WebKit ends a navigation it was allowed to start. `ReportFinish`
      and `ReportFailure` reach `webViewDidFinishNavigation` and
      `webViewDidFailNavigationWithError`; `ReportUnhandled` stands for the
      endings the delegate has no handler for (a provisional failure, a
      subframe or same-document navigation), which call into nothing. */
  datatype EndReport = ReportFinish | ReportFailure(error: NSError) | ReportUnhandled

  /** One navigation attempt as WebKit drives the delegate: the policy
      decision, then, only if it was Allow, whatever ending WebKit reports.
      The owner is sampled anew at each callback, so it may be gone by the end. */
  function NavigationAttempt(
    atDecision: Option<Owner>, action: NavigationAction,
    atEnd: Option<Owner>, webViewUrl: Option<Url>, report: EndReport): seq<Effect>
  {
    var decided := DecidePolicy(atDecision, action);
    if Decision(Allow) !in decided then decided
    else decided + Ending(atEnd, webViewUrl, report)
  }

  /** The effects of the ending callback, if the delegate handles it. */
  function Ending(atEnd: Option<Owner>, webViewUrl: Option<Url>, report: EndReport): seq<Effect> {
    match report
    case ReportFinish => DidFinishNavigation(atEnd, webViewUrl)
    case ReportFailure(e) => DidFailNavigation(atEnd, webViewUrl, e)
    case ReportUnhandled => []
  }

  /** Over one attempt `onLoadStarted` fires at most once, `onLoadFinished`
      fires only after it and at most once, and a cancelled attempt reaches
      neither. When the owner outlives an allowed attempt that ends in a
      finish or a fail callback, each fires exactly once. */
  lemma AttemptOrdering(
    atDecision: Option<Owner>, action: NavigationAction,
    atEnd: Option<Owner>, webViewUrl: Option<Url>, report: EndReport)
    ensures var t := NavigationAttempt(atDecision, action, atEnd, webViewUrl, report);
      && Count(t, StartedKind) <= 1
      && Count(t, FinishedKind) <= Count(t, StartedKind)
      && Precedes(t, DecisionKind, StartedKind)
      && Precedes(t, StartedKind, FinishedKind)
      && (Decision(Cancel) in t ==> Count(t, StartedKind) == 0 && Count(t, FinishedKind) == 0)
      && (Decision(Allow) in t && atEnd.Some? && !report.ReportUnhandled? ==>
            Count(t, StartedKind) == 1 && Count(t, FinishedKind) == 1)
  {
    var decided := DecidePolicy(atDecision, action);
    var t := NavigationAttempt(atDecision, action, atEnd, webViewUrl, report);
    if Decision(Allow) in decided {
      var ended := Ending(atEnd, webViewUrl, report);
      assert t == decided + ended;
      CountConcat(decided, ended, StartedKind);
      CountConcat(decided, ended, FinishedKind);
      CountConcat(decided, ended, DecisionKind);
      PrecedesConcat(decided, ended, StartedKind, FinishedKind);
      assert Count(ended, DecisionKind) == 0;
      PrecedesConcat(decided, ended, DecisionKind, StartedKind);
    }
  }

  /** An allowed navigation that ends without a finish or fail callback
      leaves the owner with an `onLoadStarted` and no `onLoadFinished`,
      even though the owner is still alive. */
  lemma UnhandledEndingLeavesLoadOpen(o: Owner, action: NavigationAction, atEnd: Owner, webViewUrl: Option<Url>)
    requires action.request.url.Some?
    requires !OverrideCancels(o, action.request.url.value.absoluteString)
    ensures var t := NavigationAttempt(Some(o), action, Some(atEnd), webViewUrl, ReportUnhandled);
      Count(t, StartedKind) == 1 && Count(t, FinishedKind) == 0
  {
    var decided := DecidePolicy(Some(o), action);
    assert decided + [] == decided;
  }
}
