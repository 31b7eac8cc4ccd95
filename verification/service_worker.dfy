/** The offline service worker (`service-worker.js`): a cache storage (cache name to a cache from
    URL to response), the install and activate handlers, the fetch router with its cache-first
    static path and the API path with background sync, and the `sync-posts` replay.

    The network is a parameter `net` from request to response (`None` is a network error). The
    background-sync queue is a parameter too: `save` records a failed request and `pending` lists
    the recorded ones. Promises are taken to settle in program order. */
module ServiceWorker {
  import opened Wrappers
  import Text

  const CacheName: string := "moji-code-v1"

  /** The install manifest, in the order it is listed. */
  const Assets: seq<string> := [
    "/", "/index.html", "/manifest.json",
    "/client/css/effects.css", "/client/css/animations.css", "/client/css/editor.css",
    "/client/js/effects.js", "/client/js/ai.js", "/client/js/database.js",
    "/client/js/media-editor.js", "/client/js/post-creator.js", "/client/js/ui.js",
    "/client/js/session.js", "/client/js/media.js",
    "/assets/default-avatar.jpg", "/assets/icon-192.png", "/assets/icon-512.png",
    "https://cdnjs.cloudflare.com/ajax/libs/font-awesome/5.15.4/css/all.min.css"
  ]

  datatype ResponseType = Basic | Cors | Opaque | OpaqueRedirect | Default

  datatype Response = Response(status: int, kind: ResponseType, body: string)

  datatype Request = Request(url: string, verb: string)

  type Cache = map<string, Response>

  /** `caches`: cache names in creation order, each with its cache. */
  datatype Storage = Storage(names: seq<string>, caches: map<string, Cache>)

  predicate Distinct(s: seq<string>) {
    forall i, j | 0 <= i < j < |s| :: s[i] != s[j]
  }

  predicate Valid(st: Storage) {
    Distinct(st.names) && (forall n | n in st.names :: n in st.caches) && (forall n | n in st.caches :: n in st.names)
  }

  /** `caches.open(name)`: the named cache, created empty at the end of the order if missing. */
  function Open(st: Storage, name: string): (r: Storage)
    requires Valid(st)
    ensures Valid(r) && name in r.caches
    ensures name in st.caches ==> r == st
    ensures name !in st.caches ==> r.names == st.names + [name] && r.caches == st.caches[name := map[]]
  {
    if name in st.caches then st else Storage(st.names + [name], st.caches[name := map[]])
  }

  /** The names of `names` other than `keep`, in order. */
  function Without(names: seq<string>, keep: string): (r: seq<string>)
    ensures forall n :: n in r <==> n in names && n != keep
  {
    if |names| == 0 then []
    else if names[0] == keep then Without(names[1..], keep)
    else
      assert forall n | n in names[1..] :: n in names;
      [names[0]] + Without(names[1..], keep)
  }

  /** The occurrences of `keep` in `names`. */
  function OnlyIf(names: seq<string>, keep: string): (r: seq<string>)
    ensures forall n :: n in r <==> n in names && n == keep
  {
    if |names| == 0 then []
    else
      assert forall n | n in names[1..] :: n in names;
      (if names[0] == keep then [names[0]] else []) + OnlyIf(names[1..], keep)
  }

  lemma DistinctTail(names: seq<string>)
    requires Distinct(names) && |names| > 0
    ensures Distinct(names[1..]) && names[0] !in names[1..]
  {
    forall i, j | 0 <= i < j < |names| - 1 ensures names[1..][i] != names[1..][j] {
      assert names[1..][i] == names[i + 1] && names[1..][j] == names[j + 1];
    }
  }

  lemma {:induction false} WithoutDistinct(names: seq<string>, keep: string)
    requires Distinct(names)
    ensures Distinct(Without(names, keep))
  {
    if |names| > 0 {
      DistinctTail(names);
      WithoutDistinct(names[1..], keep);
    }
  }

  lemma {:induction false} OnlyIfDistinct(names: seq<string>, keep: string)
    requires Distinct(names)
    ensures Distinct(OnlyIf(names, keep))
  {
    if |names| > 0 {
      DistinctTail(names);
      OnlyIfDistinct(names[1..], keep);
    }
  }

  /** `caches.delete(name)`. */
  function DeleteCache(st: Storage, name: string): (r: Storage)
    requires Valid(st)
    ensures Valid(r)
    ensures r.caches == st.caches - {name}
  {
    WithoutDistinct(st.names, name);
    Storage(Without(st.names, name), st.caches - {name})
  }

  /** `caches.match(request)`: the response for the URL in the first cache, in creation order,
      that holds it. Only GET requests match. */
  function Match(st: Storage, req: Request): (r: Option<Response>)
    requires Valid(st)
    ensures r.Some? <==> req.verb == "GET" && exists n | n in st.caches :: req.url in st.caches[n]
    ensures r.Some? ==> exists n | n in st.caches :: req.url in st.caches[n] && st.caches[n][req.url] == r.value
  {
    if req.verb != "GET" then None else FirstHit(st.names, st.caches, req.url)
  }

  function FirstHit(names: seq<string>, caches: map<string, Cache>, url: string): (r: Option<Response>)
    requires forall n | n in names :: n in caches
    ensures r.Some? <==> exists i | 0 <= i < |names| :: url in caches[names[i]]
    ensures r.Some? ==> exists i | 0 <= i < |names| :: url in caches[names[i]] && caches[names[i]][url] == r.value
  {
    if |names| == 0 then None
    else if url in caches[names[0]] then Some(caches[names[0]][url])
    else
      var r := FirstHit(names[1..], caches, url);
      assert forall i | 1 <= i < |names| :: names[i] == names[1..][i - 1];
      assert forall i | 0 <= i < |names| - 1 :: names[1..][i] == names[i + 1];
      r
  }

  /** `cache.put(request, response)`: only GET requests are stored. */
  function Put(st: Storage, name: string, req: Request, resp: Response): (r: Storage)
    requires Valid(st)
    ensures Valid(r) && name in r.caches
    ensures req.verb == "GET" ==> r.caches[name] == Open(st, name).caches[name][req.url := resp]
    ensures req.verb != "GET" ==> r == Open(st, name)
    ensures forall n | n in st.caches && n != name :: n in r.caches && r.caches[n] == st.caches[n]
  {
    var withCache := Open(st, name);
    if req.verb != "GET" then withCache
    else Storage(withCache.names, withCache.caches[name := withCache.caches[name][req.url := resp]])
  }

  // ---------------------------------------------------------------------------------------
  // Install and activate

  /** Manifest entries are fetched relative to the worker's origin; absolute URLs as they are. */
  function Resolve(origin: string, path: string): string {
    if |path| > 0 && path[0] == '/' then origin + path else path
  }

  /** The status range `cache.addAll` accepts. */
  predicate AddAllAccepts(resp: Response) {
    200 <= resp.status < 300 && resp.status != 206
  }

  /** `cache.addAll(urls)`: all fetched, and all stored only if every response is accepted. */
  function AddAll(cache: Cache, urls: seq<string>, net: Request -> Option<Response>): (r: Option<Cache>)
    ensures r.Some? <==> forall i | 0 <= i < |urls| ::
                           net(Request(urls[i], "GET")).Some? && AddAllAccepts(net(Request(urls[i], "GET")).value)
    ensures r.Some? ==> r.value.Keys == cache.Keys + set u | u in urls
    decreases |urls|
  {
    if |urls| == 0 then Some(cache)
    else
      match net(Request(urls[0], "GET"))
      case None => None
      case Some(resp) =>
        if !AddAllAccepts(resp) then None
        else
          var rest := AddAll(cache[urls[0] := resp], urls[1..], net);
          assert forall i | 1 <= i < |urls| :: urls[i] == urls[1..][i - 1];
          rest
  }

  /** What a successful `addAll` stores: the last response for each URL, and the old entry for
      every URL it does not fetch. */
  lemma {:induction false} AddAllStores(cache: Cache, urls: seq<string>, net: Request -> Option<Response>)
    requires AddAll(cache, urls, net).Some?
    ensures forall u | u in cache && u !in urls :: AddAll(cache, urls, net).value[u] == cache[u]
    ensures forall i | 0 <= i < |urls| && urls[i] !in urls[i + 1..] ::
              AddAll(cache, urls, net).value[urls[i]] == net(Request(urls[i], "GET")).value
    decreases |urls|
  {
    if |urls| > 0 {
      var resp := net(Request(urls[0], "GET")).value;
      AddAllStores(cache[urls[0] := resp], urls[1..], net);
      forall i | 1 <= i < |urls| ensures urls[i] == urls[1..][i - 1] && urls[i + 1..] == urls[1..][i..] {
      }
    }
  }

  function Manifest(origin: string): (r: seq<string>)
    ensures |r| == |Assets|
  {
    seq(|Assets|, i requires 0 <= i < |Assets| => Resolve(origin, Assets[i]))
  }

  /** The `install` handler: open the cache and add the whole manifest. The cache is created even
      when `addAll` fails, in which case it keeps what it had. */
  function Install(st: Storage, origin: string, net: Request -> Option<Response>): (r: (Storage, bool))
    requires Valid(st)
    ensures Valid(r.0) && CacheName in r.0.caches
    ensures forall n | n in st.caches && n != CacheName :: n in r.0.caches && r.0.caches[n] == st.caches[n]
    ensures r.1 ==> forall u | u in Manifest(origin) :: u in r.0.caches[CacheName]
    ensures !r.1 ==> r.0 == Open(st, CacheName)
  {
    var withCache := Open(st, CacheName);
    match AddAll(withCache.caches[CacheName], Manifest(origin), net)
    case None => (withCache, false)
    case Some(c) => (Storage(withCache.names, withCache.caches[CacheName := c]), true)
  }

  /** The `activate` handler: delete every cache but the current one. */
  function Activate(st: Storage): (r: Storage)
    requires Valid(st)
    ensures Valid(r)
    ensures forall n | n in r.caches :: n == CacheName
    ensures CacheName in st.caches <==> CacheName in r.caches
    ensures CacheName in st.caches ==> r.caches[CacheName] == st.caches[CacheName]
  {
    OnlyIfDistinct(st.names, CacheName);
    Storage(OnlyIf(st.names, CacheName), map n | n in st.caches && n == CacheName :: st.caches[n])
  }

  /** After a successful install and an activation, the current cache is the only one and it
      holds every manifest entry. */
  lemma InstallThenActivate(st: Storage, origin: string, net: Request -> Option<Response>)
    requires Valid(st)
    requires Install(st, origin, net).1
    ensures var r := Activate(Install(st, origin, net).0);
            r.caches.Keys == {CacheName}
            && forall u | u in Manifest(origin) :: u in r.caches[CacheName]
  {
  }

  /** Activating twice is the same as activating once. */
  lemma ActivateIdempotent(st: Storage)
    requires Valid(st)
    ensures Activate(Activate(st)) == Activate(st)
  {
    var once := Activate(st);
    assert OnlyIf(once.names, CacheName) == once.names by {
      OnlyIfKeepsOnly(once.names, CacheName);
    }
  }

  lemma {:induction false} OnlyIfKeepsOnly(names: seq<string>, keep: string)
    requires forall n | n in names :: n == keep
    ensures OnlyIf(names, keep) == names
  {
    if |names| > 0 {
      assert forall n | n in names[1..] :: n in names;
      OnlyIfKeepsOnly(names[1..], keep);
      assert names[0] in names;
      assert [names[0]] + names[1..] == names;
    }
  }

  // ---------------------------------------------------------------------------------------
  // Fetch routing

  datatype Path = NotIntercepted | Api | Static

  /** The router as written: "same origin" is a string prefix test on the URL. */
  function RouteAsWritten(origin: string, url: string): (r: Path)
    ensures r == NotIntercepted <==> !Text.StartsWith(url, origin)
    ensures r == Api <==> Text.StartsWith(url, origin) && Text.Contains(url, "/api/")
  {
    if !Text.StartsWith(url, origin) then NotIntercepted
    else if Text.Contains(url, "/api/") then Api
    else Static
  }

  /** A URL on another host whose name merely begins with this origin's host passes the prefix
      test and is intercepted. */
  lemma PrefixTestAdmitsOtherHost()
    ensures RouteAsWritten("https://moji.example", "https://moji.example.evil.test/app.js") != NotIntercepted
  {
    var url := "https://moji.example.evil.test/app.js";
    assert url[..|"https://moji.example"|] == "https://moji.example";
  }

  /** The same-origin test the comment asks for: the URL is the origin itself or continues with
      a path, so the host (and port) end where the origin ends. */
  predicate SameOrigin(origin: string, url: string) {
    url == origin || Text.StartsWith(url, origin + "/")
  }

  function Route(origin: string, url: string): (r: Path)
    ensures r == NotIntercepted <==> !SameOrigin(origin, url)
    ensures r == Api <==> SameOrigin(origin, url) && Text.Contains(url, "/api/")
  {
    if !SameOrigin(origin, url) then NotIntercepted
    else if Text.Contains(url, "/api/") then Api
    else Static
  }

  /** The corrected test accepts exactly the origin followed by nothing or by a path: any other
      continuation (a longer host name, a port) is another origin. */
  lemma SameOriginMeansPathFollows(origin: string, rest: string)
    ensures SameOrigin(origin, origin + rest) <==> rest == [] || rest[0] == '/'
  {
    if rest != [] && rest[0] == '/' {
      assert (origin + rest)[..|origin| + 1] == origin + "/";
    }
    if SameOrigin(origin, origin + rest) && rest != [] {
      assert (origin + rest)[|origin|] == (origin + "/")[|origin|];
    }
  }

  /** Every URL the corrected test accepts is also accepted by the prefix test, and the two
      disagree on the other-host URL above. */
  lemma RouteNarrowsAsWritten(origin: string, url: string)
    ensures SameOrigin(origin, url) ==> Text.StartsWith(url, origin)
    ensures !SameOrigin("https://moji.example", "https://moji.example.evil.test/app.js")
  {
    if Text.StartsWith(url, origin + "/") {
      assert url[..|origin|] == (url[..|origin| + 1])[..|origin|];
    }
    var o := "https://moji.example";
    var u := "https://moji.example.evil.test/app.js";
    assert u[|o|] == '.';
    assert (o + "/")[|o|] == '/';
  }

  // ---------------------------------------------------------------------------------------
  // Responding to fetches

  /** What one fetch event does: the storage afterwards, the response given to the page (`None`
      is a network error, or no response when the event is not intercepted), and the requests
      sent to the network. */
  datatype Outcome = Outcome(storage: Storage, intercepted: bool, response: Option<Response>, sent: seq<Request>)

  /** The responses the static path stores: a 200 of type basic. */
  predicate WorthCaching(resp: Response) {
    resp.status == 200 && resp.kind == Basic
  }

  /** Static assets, cache first: a hit answers from the cache without the network; a miss goes
      to the network and stores a copy of a cacheable response. */
  function StaticFetch(st: Storage, req: Request, net: Request -> Option<Response>): (r: Outcome)
    requires Valid(st)
    ensures Valid(r.storage) && r.intercepted
    ensures Match(st, req).Some? ==> r == Outcome(st, true, Match(st, req), [])
    ensures Match(st, req).None? ==> r.sent == [req] && r.response == net(req)
    ensures Match(st, req).None? && net(req).Some? && WorthCaching(net(req).value) && req.verb == "GET" ==>
              CacheName in r.storage.caches && req.url in r.storage.caches[CacheName]
              && r.storage.caches[CacheName][req.url] == net(req).value
    ensures Match(st, req).None? && !(net(req).Some? && WorthCaching(net(req).value)) ==> r.storage == st
  {
    match Match(st, req)
    case Some(cached) => Outcome(st, true, Some(cached), [])
    case None =>
      match net(req)
      case None => Outcome(st, true, None, [req])
      case Some(resp) =>
        if !WorthCaching(resp) then Outcome(st, true, Some(resp), [req])
        else Outcome(Put(st, CacheName, req, resp), true, Some(resp), [req])
  }

  /** A GET that missed and was cached is answered from the cache the next time, with no
      request to the network. */
  lemma StaticMissThenHit(st: Storage, req: Request, net: Request -> Option<Response>)
    requires Valid(st) && req.verb == "GET"
    requires Match(st, req).None? && net(req).Some? && WorthCaching(net(req).value)
    ensures var again := StaticFetch(StaticFetch(st, req, net).storage, req, net);
            again.sent == [] && again.response == net(req)
  {
    assert StaticFetch(st, req, net).storage == Put(st, CacheName, req, net(req).value);
    MissThenPutHits(st, req, net(req).value);
  }

  /** A GET no cache could answer is answered, once stored, with exactly what was stored. */
  lemma MissThenPutHits(st: Storage, req: Request, resp: Response)
    requires Valid(st) && req.verb == "GET" && Match(st, req).None?
    ensures Match(Put(st, CacheName, req, resp), req) == Some(resp)
  {
    var st' := Put(st, CacheName, req, resp);
    assert req.url in st'.caches[CacheName];
    var n :| n in st'.caches && req.url in st'.caches[n] && st'.caches[n][req.url] == Match(st', req).value;
  }

  /** `handleApiRequest`: with Background Sync the request goes to the network; if that fails it
      is recorded for later and answered from the cache. Without Background Sync the event is
      left to the browser. */
  function ApiFetch<Q>(st: Storage, queue: Q, req: Request, syncSupported: bool,
                       net: Request -> Option<Response>, save: (Q, Request) -> Q): (r: (Outcome, Q))
    requires Valid(st)
    ensures r.0.storage == st
    ensures !syncSupported ==> !r.0.intercepted && r.0.sent == [] && r.1 == queue
    ensures syncSupported ==> r.0.intercepted && r.0.sent == [req]
    ensures syncSupported && net(req).Some? ==> r.0.response == net(req) && r.1 == queue
    ensures syncSupported && net(req).None? ==> r.0.response == Match(st, req) && r.1 == save(queue, req)
  {
    if !syncSupported then (Outcome(st, false, None, []), queue)
    else
      match net(req)
      case Some(resp) => (Outcome(st, true, Some(resp), [req]), queue)
      case None => (Outcome(st, true, Match(st, req), [req]), save(queue, req))
  }

  /** The `fetch` handler, routed by the corrected same-origin test. */
  function HandleFetch<Q>(st: Storage, queue: Q, origin: string, req: Request, syncSupported: bool,
                          net: Request -> Option<Response>, save: (Q, Request) -> Q): (r: (Outcome, Q))
    requires Valid(st)
    ensures Valid(r.0.storage)
    ensures !SameOrigin(origin, req.url) ==> r == (Outcome(st, false, None, []), queue)
    ensures Route(origin, req.url) == Api ==> r.0.storage == st
    ensures Route(origin, req.url) == Static ==> r.1 == queue && r.0.intercepted
  {
    match Route(origin, req.url)
    case NotIntercepted => (Outcome(st, false, None, []), queue)
    case Api => ApiFetch(st, queue, req, syncSupported, net, save)
    case Static => (StaticFetch(st, req, net), queue)
  }

  /** The `fetch` handler as written, routed by the prefix test of `RouteAsWritten`. */
  function HandleFetchAsWritten<Q>(st: Storage, queue: Q, origin: string, req: Request, syncSupported: bool,
                                   net: Request -> Option<Response>, save: (Q, Request) -> Q): (r: (Outcome, Q))
    requires Valid(st)
    ensures Valid(r.0.storage)
    ensures !Text.StartsWith(req.url, origin) ==> r == (Outcome(st, false, None, []), queue)
    ensures RouteAsWritten(origin, req.url) == Api ==>
              r.0.storage == st && (r.0.intercepted <==> syncSupported)
              && (syncSupported && net(req).None? ==> r.1 == save(queue, req))
    ensures RouteAsWritten(origin, req.url) == Static ==>
              r.1 == queue && r.0.intercepted && (Match(st, req).None? ==> r.0.sent == [req])
  {
    match RouteAsWritten(origin, req.url)
    case NotIntercepted => (Outcome(st, false, None, []), queue)
    case Api => ApiFetch(st, queue, req, syncSupported, net, save)
    case Static => (StaticFetch(st, req, net), queue)
  }

  /** The two handlers differ only on URLs the prefix test admits and the same-origin test does
      not: on every other URL they do the same. */
  lemma HandlersAgreeOffLookalikes<Q>(st: Storage, queue: Q, origin: string, req: Request, syncSupported: bool,
                                      net: Request -> Option<Response>, save: (Q, Request) -> Q)
    requires Valid(st)
    requires SameOrigin(origin, req.url) || !Text.StartsWith(req.url, origin)
    ensures HandleFetchAsWritten(st, queue, origin, req, syncSupported, net, save)
            == HandleFetch(st, queue, origin, req, syncSupported, net, save)
  {
    RouteNarrowsAsWritten(origin, req.url);
    assert Route(origin, req.url) == RouteAsWritten(origin, req.url);
  }

  /** The network answers with a response of type basic only for URLs of this origin: a response
      from another host is `cors` or `opaque`. */
  ghost predicate BasicOnlySameOrigin(origin: string, net: Request -> Option<Response>) {
    forall q :: net(q).Some? && net(q).value.kind == Basic ==> SameOrigin(origin, q.url)
  }

  /** As written, a request to a host whose name extends this origin's is intercepted: it goes
      through the worker to the network (unless cached), and a failed look-alike API request is
      queued for sync. Its response is never of type basic, so nothing is cached for it. The
      corrected handler leaves the request alone. */
  lemma AsWrittenInterceptsOtherHost<Q>(st: Storage, queue: Q, path: string, verb: string, syncSupported: bool,
                                        net: Request -> Option<Response>, save: (Q, Request) -> Q)
    requires Valid(st)
    ensures var origin := "https://moji.example";
            var req := Request(origin + ".evil.test" + path, verb);
            var r := HandleFetchAsWritten(st, queue, origin, req, syncSupported, net, save);
            && (r.0.intercepted <==> syncSupported || !Text.Contains(req.url, "/api/"))
            && (r.0.intercepted && !Text.Contains(req.url, "/api/") && Match(st, req).None? ==> r.0.sent == [req])
            && (syncSupported && Text.Contains(req.url, "/api/") && net(req).None? ==> r.1 == save(queue, req))
            && (BasicOnlySameOrigin(origin, net) ==> r.0.storage == st)
            && HandleFetch(st, queue, origin, req, syncSupported, net, save) == (Outcome(st, false, None, []), queue)
  {
    var origin := "https://moji.example";
    var url := origin + ".evil.test" + path;
    assert url[..|origin|] == origin;
    assert url[|origin|] == '.';
    assert (origin + "/")[|origin|] == '/';
  }

  /** The `sync` handler: `sync-posts` re-sends every pending request; other tags do nothing. */
  function Sync<Q>(queue: Q, tag: string, pending: Q -> seq<Request>): (sent: seq<Request>)
    ensures tag != "sync-posts" ==> sent == []
    ensures tag == "sync-posts" ==> multiset(sent) == multiset(pending(queue))
  {
    if tag == "sync-posts" then pending(queue) else []
  }
}
