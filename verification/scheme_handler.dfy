/** `TNSWKCustomUrlSchemeHandler`: serves `x-local://` requests from the
    owner's local-resource registry. The file system is a set of existing
    paths; `File.fromPath(p).path` is the identity. */
module SchemeHandler {
  import opened Wrappers
  import opened Strings
  import opened WebView

  /** The text removed from a request URL to obtain its registry key. */
  const LocalSchemePrefix := "x-local://"

  /** The registry key of `url`: the URL with its first `x-local://` cut out. */
  function ResourceKey(url: string): string {
    RemoveFirst(url, LocalSchemePrefix)
  }

  /** What the owner's registry yields for `key`; `None` is `undefined`. */
  function Lookup(registry: map<string, string>, key: string): Option<string> {
    if key in registry then Some(registry[key]) else None
  }

  /** A lookup result that passes the `if (!path)` test: present and non-empty. */
  predicate Truthy(path: Option<string>) {
    path.Some? && path.value != ""
  }

  /** A query the resolver makes of its collaborators, in the order made. */
  datatype Access = RegistryLookup(key: string) | FileExists(path: string)

  /** Which of the resolver's exits was taken; each `null` exit has its own log line. */
  datatype Outcome = NoOwner | UnknownPath | NoSuchFile | Resolved(path: string)

  datatype Resolution = Resolution(outcome: Outcome, accesses: seq<Access>) {
    /** The value `resolveFilePath` returns: the path, or `None` for `null`. */
    function FilePath(): Option<string> {
      if outcome.Resolved? then Some(outcome.path) else None
    }
  }

  /** `resolveFilePath(url)` against the owner snapshot `owner` (`None` once the
      weak reference has expired) and the set `existing` of paths on disk. */
  function ResolveFilePath(owner: Option<Owner>, existing: set<string>, url: string): (r: Resolution)
    // a path is returned exactly when the owner is alive, the key maps to a
    // non-empty path and that path exists; it is the registered path
    ensures r.FilePath().Some? <==>
              owner.Some? && Truthy(Lookup(owner.value.resources, ResourceKey(url)))
              && Lookup(owner.value.resources, ResourceKey(url)).value in existing
    ensures r.FilePath().Some? ==>
              r.FilePath().value in existing
              && Lookup(owner.value.resources, ResourceKey(url)) == r.FilePath()
    // the checks run in order: owner, registry, file system
    ensures owner.None? <==> r.outcome == NoOwner
    ensures owner.None? ==> r.accesses == []
    ensures owner.Some? ==> |r.accesses| >= 1 && r.accesses[0] == RegistryLookup(ResourceKey(url))
    ensures r.outcome == UnknownPath <==>
              owner.Some? && !Truthy(Lookup(owner.value.resources, ResourceKey(url)))
    ensures r.outcome == UnknownPath ==> |r.accesses| == 1
    ensures owner.Some? && Truthy(Lookup(owner.value.resources, ResourceKey(url))) ==> |r.accesses| == 2
    ensures |r.accesses| == 2 ==>
              Truthy(Lookup(owner.value.resources, ResourceKey(url)))
              && r.accesses[1] == FileExists(Lookup(owner.value.resources, ResourceKey(url)).value)
    ensures r.outcome == NoSuchFile || r.outcome.Resolved? ==> |r.accesses| == 2
  {
    match owner
    case None => Resolution(NoOwner, [])
    case Some(o) =>
      var key := ResourceKey(url);
      var path := Lookup(o.resources, key);
      if !Truthy(path) then Resolution(UnknownPath, [RegistryLookup(key)])
      else if path.value !in existing then
        Resolution(NoSuchFile, [RegistryLookup(key), FileExists(path.value)])
      else Resolution(Resolved(path.value), [RegistryLookup(key), FileExists(path.value)])
  }

  /** The registry key of `x-local://` followed by a name is that name. */
  lemma KeyOfLocalUrl(name: string)
    ensures ResourceKey(LocalSchemePrefix + name) == name
  {
    RemoveFirstOfPrefixed(LocalSchemePrefix, name);
  }

  /** Only the first `x-local://` is removed: every later occurrence, even
      one that begins right where the first ends, survives into the key,
      shifted left by the prefix's length. */
  lemma KeyStripsOnlyFirstPrefix(url: string, i: nat, j: nat)
    requires FirstOccurrence(url, LocalSchemePrefix, i)
    requires OccursAt(url, LocalSchemePrefix, j) && j >= i + |LocalSchemePrefix|
    ensures OccursAt(ResourceKey(url), LocalSchemePrefix, j - |LocalSchemePrefix|)
  {
    RemoveFirstKeepsLaterOccurrence(url, LocalSchemePrefix, i, j);
  }

  /** A URL that does not contain `x-local://` is its own key. */
  lemma KeyWithoutPrefix(url: string)
    requires Absent(url, LocalSchemePrefix)
    ensures ResourceKey(url) == url
  {
  }

  /** A registered name whose file exists resolves to exactly its path. */
  lemma ResolveRegistered(o: Owner, existing: set<string>, name: string)
    requires name in o.resources && o.resources[name] != ""
    requires o.resources[name] in existing
    ensures ResolveFilePath(Some(o), existing, LocalSchemePrefix + name).FilePath() == Some(o.resources[name])
  {
    KeyOfLocalUrl(name);
  }

  /** A name never registered resolves to `null` via the unknown-path exit,
      without touching the file system. */
  lemma ResolveUnregistered(o: Owner, existing: set<string>, name: string)
    requires name !in o.resources
    ensures ResolveFilePath(Some(o), existing, LocalSchemePrefix + name).outcome == UnknownPath
    ensures ResolveFilePath(Some(o), existing, LocalSchemePrefix + name).accesses == [RegistryLookup(name)]
  {
    KeyOfLocalUrl(name);
  }

  /** A name registered with the empty path is treated as unknown, even if
      the empty path were reported to exist. */
  lemma ResolveEmptyPath(o: Owner, existing: set<string>, name: string)
    requires name in o.resources && o.resources[name] == ""
    ensures ResolveFilePath(Some(o), existing, LocalSchemePrefix + name).outcome == UnknownPath
  {
    KeyOfLocalUrl(name);
  }

  /** A registered name whose file has been deleted resolves to `null` via the
      no-such-file exit. */
  lemma ResolveDeleted(o: Owner, existing: set<string>, name: string)
    requires name in o.resources && o.resources[name] != ""
    ensures ResolveFilePath(Some(o), existing - {o.resources[name]}, LocalSchemePrefix + name).outcome == NoSuchFile
  {
    KeyOfLocalUrl(name);
  }

  /** The result depends on the registry only through the entry for the
      URL's key, and on the file system only through that entry's path:
      whatever else is registered or on disk, two snapshots that agree there
      resolve alike. */
  lemma ResolveDependsOnlyOnEntry(o1: Owner, e1: set<string>, o2: Owner, e2: set<string>, url: string)
    requires Lookup(o1.resources, ResourceKey(url)) == Lookup(o2.resources, ResourceKey(url))
    requires Truthy(Lookup(o1.resources, ResourceKey(url))) ==>
               (Lookup(o1.resources, ResourceKey(url)).value in e1 <==>
                Lookup(o1.resources, ResourceKey(url)).value in e2)
    ensures ResolveFilePath(Some(o1), e1, url) == ResolveFilePath(Some(o2), e2, url)
  {
  }

  /** A `WKURLSchemeTask`, whose `request` may be missing. */
  datatype SchemeTask = SchemeTask(request: Option<Request>)

  /** What `webViewStartURLSchemeTask` does with a task: hand it, with its
      URL, to the native start handler, or stop it. */
  datatype TaskDisposition = Forwarded(url: Url) | Stopped

  /** `webViewStartURLSchemeTask`: a task reaches the native handler only when
      both its request and the request's URL are present. */
  function StartUrlSchemeTask(task: SchemeTask): (d: TaskDisposition)
    ensures d.Forwarded? <==> task.request.Some? && task.request.value.url.Some?
    ensures d.Forwarded? ==> task.request.value.url == Some(d.url)
  {
    match task.request
    case Some(Request(Some(u))) => Forwarded(u)
    case _ => Stopped
  }
}
