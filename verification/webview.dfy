/** The platform and owner objects the iOS web view's delegates see, reduced
    to the fields those delegates read. */
module WebView {
  import opened Wrappers

  /** An `NSURL`; only its `absoluteString` is ever read. */
  datatype Url = Url(absoluteString: string)

  /** An `NSURLRequest`, whose `URL` may be nil. */
  datatype Request = Request(url: Option<Url>)

  /** An `NSError`; only its `localizedDescription` is relayed. */
  datatype NSError = NSError(localizedDescription: string)

  /** The values an owner-supplied override predicate can return. Only the
      boolean `true` compares `===` to `true`; the others stand for `false`,
      `undefined`, `null` and truthy or falsy numbers and strings. */
  datatype JsValue = JsBool(b: bool) | JsUndefined | JsNull | JsNumber(n: int) | JsString(s: string)

  /** A snapshot of the `WebViewExt` that owns the delegates, taken when a
      delegate dereferences its weak reference: the page source `src`, the
      local-resource registry, and the optional `urlOverrideHandler`. */
  datatype Owner = Owner(
    src: string,
    resources: map<string, string>,
    urlOverrideHandler: Option<string -> JsValue>)

  /** The six navigation types the owner is told about. */
  datatype NavigationType = LinkClicked | FormSubmitted | BackForward | Reload | FormResubmitted | Other
  {
    /** The string passed to the owner's `_onLoadStarted` for this type. */
    function Name(): string {
      match this
      case LinkClicked => "linkClicked"
      case FormSubmitted => "formSubmitted"
      case BackForward => "backForward"
      case Reload => "reload"
      case FormResubmitted => "formResubmitted"
      case Other => "other"
    }
  }

  /** Distinct navigation types are passed to the owner as distinct strings. */
  lemma NamesDistinct(a: NavigationType, b: NavigationType)
    requires a != b
    ensures a.Name() != b.Name()
  {
  }
}
