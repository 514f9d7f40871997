# iOS web view: navigation interception and local resources

A Dafny model of the decision logic in the iOS side of `WebViewExt`
(`src/webview-ext.ios.ts`):

- **Local-resource resolution** (`TNSWKCustomUrlSchemeHandler.resolveFilePath`):
  an `x-local://` URL becomes a registry key by removing the first
  `x-local://` (JavaScript `String.replace` with a string pattern). The key
  is looked up in the owner's registry of local resources, and the path is
  returned only if that file exists.
- **Scheme-task guard** (`webViewStartURLSchemeTask`): a task with no request
  or no request URL is stopped instead of being forwarded to the native handler.
- **Navigation policy** (`webViewDecidePolicyForNavigationActionDecisionHandler`):
  the owner's optional `urlOverrideHandler` cancels a navigation when it
  returns exactly `true`. Otherwise the navigation is allowed and the owner
  hears `onLoadStarted(url, type)`. The type is the name of a total
  classification of WebKit's raw navigation-type signal. When the owner is
  gone or the request has no URL, the handler returns without calling
  `decisionHandler` at all, so WebKit receives no decision for that action.
- **Finish/fail relay** (`webViewDidFinishNavigation`,
  `webViewDidFailNavigationWithError`): the owner hears
  `onLoadFinished(url, error?)`. The URL is the web view's URL when it has
  one, else the owner's `src`.

Both delegates hold the owner only weakly. Every handler that reads the owner
(the resolver, the policy decision, finish and fail) therefore takes a
snapshot `Option<Owner>`, where `None` means the view is gone, and then does
nothing. The scheme-task guard never reads the owner and takes only the task.
Handlers are pure functions. The resolver returns a `Resolution`:
the exit it took plus the registry and file-system queries it made, in
order. The navigation handlers return the sequence of effects they emit (the
decision handed to WebKit, `onLoadStarted`, `onLoadFinished`).
`NavigationAttempt` composes one decision with the ending WebKit reports
after an Allow. It adds no state of its own. Only a finish or an ordinary
failure reaches a handler. A navigation that fails before it commits, and
subframe or same-document navigations, have no handler in this class. Such an
attempt leaves the owner with an `onLoadStarted` and no `onLoadFinished`.

Modules: `Wrappers` (Option), `Strings` (first-occurrence search and removal),
`WebView` (owner snapshot and platform records), `Events` (effect traces,
counting, ordering), `SchemeHandler`, `NavigationDelegate`.

Facts about the code that shape the model:

- Exceptions thrown by the override predicate are not caught.
- `resolveFilePath` returns `null` on all three failure paths. The model
  keeps the three exits apart only so that their order can be stated.
- `extToMimeType` is imported but unused, so no MIME type is computed.

## Model

| member | source | states |
|---|---|---|
| Strings.IndexOf | src/webview-ext.ios.ts:20 | the search `replace` performs: the result is present exactly when the pattern occurs, and it is the leftmost occurrence |
| Strings.RemoveFirst | src/webview-ext.ios.ts:20 | `replace(pat, '')` cuts out the leftmost occurrence only, keeping everything before and after it; with no occurrence the string is unchanged |
| Strings.RemoveFirstReinsert | src/webview-ext.ios.ts:20 | putting the pattern back at the first-occurrence index restores the original string, so no other character is lost |
| Strings.RemoveFirstKeepsLaterOccurrence | src/webview-ext.ios.ts:20 | `replace` with a string pattern removes only the first occurrence: any occurrence starting at or after its end is still present, shifted left by the pattern length |
| Strings.RemoveFirstOfPrefixed | src/webview-ext.ios.ts:20 | removing a pattern that prefixes the string yields exactly the remainder |
| SchemeHandler.KeyOfLocalUrl | src/webview-ext.ios.ts:20 | the registry key of `x-local://` + name is the name |
| SchemeHandler.KeyStripsOnlyFirstPrefix | src/webview-ext.ios.ts:20 | for every URL, each occurrence of `x-local://` after the first survives into the key, shifted left by the prefix length |
| SchemeHandler.KeyWithoutPrefix | src/webview-ext.ios.ts:20 | a URL without `x-local://` is looked up unchanged |
| SchemeHandler.ResolveFilePath | src/webview-ext.ios.ts:13-34 | a path is returned iff the owner is alive, the key maps to a non-empty path and that path exists; it is then the registered path. A missing owner means no query at all. The registry is always queried first. The unknown-path exit is taken exactly for a falsy lookup. A truthy lookup is always followed by one file-system query, on that path |
| SchemeHandler.ResolveRegistered | src/webview-ext.ios.ts:20-33 | a registered name whose file exists resolves to exactly its registered path |
| SchemeHandler.ResolveUnregistered | src/webview-ext.ios.ts:20-24 | an unregistered name takes the unknown-path exit after one registry query and no file-system query |
| SchemeHandler.ResolveEmptyPath | src/webview-ext.ios.ts:20-24 | a name registered with the empty (falsy) path is treated as unknown |
| SchemeHandler.ResolveDeleted | src/webview-ext.ios.ts:26-29 | a registered name whose file is missing takes the no-such-file exit |
| SchemeHandler.ResolveDependsOnlyOnEntry | src/webview-ext.ios.ts:20-33 | resolution depends only on the registry entry for the key and on whether its path exists; other entries and files do not matter |
| SchemeHandler.StartUrlSchemeTask | src/webview-ext.ios.ts:36-47 | a task is forwarded, with its URL, exactly when its request and the request's URL are both present; otherwise it is stopped |
| WebView.NamesDistinct | src/webview-ext.ios.ts:75-93 | the six navigation types are passed to `_onLoadStarted` as six distinct strings |
| NavigationDelegate.Classify | src/webview-ext.ios.ts:75-93 | classification is total, and a signal is `other` exactly when it is none of the five known WebKit signals |
| NavigationDelegate.ClassifyRawOf | src/webview-ext.ios.ts:77-93 | each navigation type is recovered from its WebKit signal, so the five known signals map to five distinct types |
| NavigationDelegate.DecidePolicy | src/webview-ext.ios.ts:66-101 | no effect when the owner is gone or the URL is absent. Otherwise there is exactly one decision, emitted first. It is Cancel exactly when the predicate returns `true`, and then nothing else follows. An Allow is followed by one `onLoadStarted` with the request URL and the name of the classified type. There is never an `onLoadFinished` |
| NavigationDelegate.TruthyIsNotCancel | src/webview-ext.ios.ts:69-72 | any predicate result other than the boolean `true`, truthy or not, allows the navigation and announces it |
| NavigationDelegate.NoPredicateAllows | src/webview-ext.ios.ts:69-99 | with no override predicate, a navigation with a URL is allowed and announced once |
| NavigationDelegate.DidFinishNavigation | src/webview-ext.ios.ts:109-124 | silent iff the owner is gone. Otherwise one `onLoadFinished` without error, reporting the web view's URL when it has one, else the owner's `src` |
| NavigationDelegate.DidFailNavigation | src/webview-ext.ios.ts:126-138 | silent iff the owner is gone. Otherwise one `onLoadFinished` carrying the error's localized description, reporting the web view's URL when it has one, else `src` |
| NavigationDelegate.FinishAndFailAgree | src/webview-ext.ios.ts:118-136 | finish and fail report the same URL (the web view's when present, else `src`) and differ only in the error message |
| NavigationDelegate.AttemptOrdering | src/webview-ext.ios.ts:66-138 | over one attempt: `onLoadStarted` at most once and after the decision; `onLoadFinished` at most once and only after `onLoadStarted`. A cancelled attempt gets neither callback. An allowed attempt whose owner survives and that ends in a finish or fail callback gets both exactly once |
| NavigationDelegate.UnhandledEndingLeavesLoadOpen | src/webview-ext.ios.ts:94-138 | an allowed attempt whose ending has no handler in the class leaves exactly one `onLoadStarted` and no `onLoadFinished`, even with the owner alive |

## Left out

- WKWebView construction, configuration, user-script injection and preferences (src/webview-ext.ios.ts:146-164): native platform setup with no decision logic.
- The `evaluateJavaScriptCompletionHandler` call in the finish handler: an asynchronous foreign call whose callback only logs.
- `console.log`, trace output and the `@profile` decorator: they have no effect on results.
- `fs.File.exists` and `fs.File.fromPath(...).path`: modelled as membership in a set of existing paths and as the identity.
- The native `CustomUrlSchemeHandler` that `super.webViewStartURLSchemeTask` reaches: not part of this model. Only the forward/stop choice is modelled.
- The local-resource registry's implementation (`getRegistretLocalResource`, registration and removal) lives in the common module, which is not part of this model. It is a `map<string, string>` snapshot, and a missing key stands for `undefined`.
- The owner's `src` is modelled as a string. The case where `src` is `undefined` is not represented.
- `webViewDidStartProvisionalNavigation` only writes a trace and emits nothing.
- NavigationDelegate.AttemptOrdering: its "both exactly once" clause covers only endings that reach the finish or fail handler. The class has no `webViewDidFailProvisionalNavigationWithError`, and WebKit reports subframe and same-document navigations without a finish. After such an allowed navigation the owner never hears `onLoadFinished`. `UnhandledEndingLeavesLoadOpen` states this gap.
- When the owner is gone or the request has no URL, `decisionHandler` is never called. WebKit expects one call per action. The model records this as an empty effect trace and does not model how WebKit reacts.
- Pass-through members (`goBack`, `goForward`, `reload`, `stopLoading`, `canGoBack`, `canGoForward`, `_loadUrl`, `_loadData`) and the `onLoaded`/`onUnloaded` delegate wiring: thin wrappers over WKWebView.
- An exception thrown by the override predicate propagates out of the handler in the code. Its effect depends on the bridge, so the model represents only predicates that return a value.
- WebKit's raw navigation-type values (0 to 4 for the five named kinds, -1 for other) come from the platform headers. The model relies only on their being distinct.
