/** The `send` command of `src/action/send.rs`: prepares the endpoint in use
    (default `user-agent`, `Cookie` header from the environment's jar and the
    `--cookie` arguments), then sends it, capturing `Set-Cookie` headers and
    following redirects until a response is final. */
module Send {
  import opened Wrappers
  import opened PairMaps
  import opened Endpoints
  import opened Environments

  // ---------------------------------------------------------------------
  // what the command reaches only through code outside this model

  /** The parts of a parsed URI the command reads. */
  datatype Uri = Uri(scheme: Option<string>, authority: Option<string>, host: Option<string>)

  /** A response: its status code and its headers, names in lower case and
      the first value of each name (what `HeaderMap::get` returns). */
  datatype Response = Response(status: int, headers: StrMap)

  datatype Cookie = Cookie(name: string, value: string)

  /** One `CookieJar::set` call: the host and the `Set-Cookie` value. */
  datatype SetCookie = SetCookie(host: string, header: string)

  /** The environment's cookie jar: the cookies it held when the command
      started and, in order, the `set` calls made since. */
  datatype CookieJar = CookieJar(cookies: seq<Cookie>, received: seq<SetCookie>)

  /** The request syntax checks, the network, `Endpoint::full_url`, the
      `path_and_query` check of `Uri::builder` and the part of the path it
      keeps, and the patch plus `apply_env` step, each a total function of
      what it is given. `KeepsPathAndQuery` states what the `http` crate
      keeps. */
  datatype World = World(
    syntax: HttpSyntax,
    server: Request -> Option<Response>,
    fullUrl: Endpoint -> Option<Uri>,
    validPathAndQuery: string -> bool,
    pathAndQuery: string -> string,
    prepare: (Endpoint, Env) -> Endpoint)

  /** Every way the command stops early, panics included. */
  datatype SendError =
    | NoSuchFile(path: string)
    | UnreadableJar(path: string)
    | MalformedRequest
    | InvalidEnvHeader
    | Transport
    | InvalidUrl
    | NoHost
    | NotVisibleAscii
    | NoOrigin
    | InvalidLocation

  // ---------------------------------------------------------------------
  // preparing the endpoint

  const UserAgentKey: string := "user-agent"
  const CookieKey: string := "Cookie"

  /** The default `user-agent` goes in only when the endpoint has none; no
      header the endpoint has is changed. */
  function WithUserAgent(headers: StrMap, userAgent: string): (r: StrMap)
    ensures r.Keys == headers.Keys + {UserAgentKey}
    ensures forall k :: k in headers ==> r[k] == headers[k]
    ensures UserAgentKey !in headers ==> r[UserAgentKey] == userAgent
  {
    if UserAgentKey in headers then headers else headers[UserAgentKey := userAgent]
  }

  /** `name=value`, as the cookie-string of section 5.4 of RFC 6265 lists a cookie. */
  function CookiePair(c: Cookie): (r: string)
    ensures '=' in r && |r| == |c.name| + 1 + |c.value|
    ensures r[..|c.name|] == c.name && r[|c.name|] == '=' && r[|c.name| + 1..] == c.value
  {
    c.name + "=" + c.value
  }

  function CookiePairs(cs: seq<Cookie>): (r: seq<string>)
    ensures |r| == |cs|
    ensures forall i :: 0 <= i < |cs| ==> r[i] == CookiePair(cs[i])
  {
    if cs == [] then [] else [CookiePair(cs[0])] + CookiePairs(cs[1..])
  }

  /** One `--cookie` argument: verbatim when it contains `=`, otherwise the
      pairs of the jar file it names; a missing file and a file that does
      not read as a jar both stop the command. `files` maps each existing
      path to its cookies, or to `None` when it cannot be read as a jar. */
  function Expand(arg: string, files: map<string, Option<seq<Cookie>>>): Result<seq<string>, SendError> {
    if '=' in arg then Ok([arg])
    else if arg !in files then Err(NoSuchFile(arg))
    else match files[arg]
      case None => Err(UnreadableJar(arg))
      case Some(cs) => Ok(CookiePairs(cs))
  }

  /** The extra cookies of all arguments, in argument order. */
  function Extras(args: seq<string>, files: map<string, Option<seq<Cookie>>>): Result<seq<string>, SendError>
    decreases |args|
  {
    if args == [] then Ok([])
    else match Expand(args[0], files)
      case Err(e) => Err(e)
      case Ok(xs) =>
        match Extras(args[1..], files)
        case Err(e) => Err(e)
        case Ok(ys) => Ok(xs + ys)
  }

  /** The extras fail exactly when some argument fails, and then with the
      error of the first argument that fails. */
  lemma {:induction false} ExtrasFailFirst(args: seq<string>, files: map<string, Option<seq<Cookie>>>)
    ensures Extras(args, files).Err? <==> exists i :: 0 <= i < |args| && Expand(args[i], files).Err?
    ensures Extras(args, files).Err? ==> exists i :: (0 <= i < |args| &&
      Expand(args[i], files) == Err(Extras(args, files).error) &&
      forall j :: 0 <= j < i ==> Expand(args[j], files).Ok?)
    decreases |args|
  {
    if args != [] {
      ExtrasFailFirst(args[1..], files);
      if Expand(args[0], files).Ok? && Extras(args[1..], files).Err? {
        var i :| 0 <= i < |args[1..]| && Expand(args[1..][i], files) == Err(Extras(args[1..], files).error) &&
          forall j :: 0 <= j < i ==> Expand(args[1..][j], files).Ok?;
        assert Expand(args[i + 1], files) == Err(Extras(args, files).error);
        forall j | 0 <= j < i + 1
          ensures Expand(args[j], files).Ok?
        {
          if j > 0 {
            assert args[j] == args[1..][j - 1];
          }
        }
      }
      if Expand(args[0], files).Ok? && Extras(args[1..], files).Ok? {
        forall i | 0 <= i < |args|
          ensures Expand(args[i], files).Ok?
        {
          if i > 0 {
            assert args[i] == args[1..][i - 1];
          }
        }
      }
    }
  }

  /** Arguments that all contain `=` are passed through unchanged. */
  lemma {:induction false} ExtrasLiteral(args: seq<string>, files: map<string, Option<seq<Cookie>>>)
    requires forall i :: 0 <= i < |args| ==> '=' in args[i]
    ensures Extras(args, files) == Ok(args)
    decreases |args|
  {
    if args != [] {
      ExtrasLiteral(args[1..], files);
      assert [args[0]] + args[1..] == args;
    }
  }

  /** Every extra cookie is a `name=value` pair. */
  lemma {:induction false} ExtrasArePairs(args: seq<string>, files: map<string, Option<seq<Cookie>>>)
    requires Extras(args, files).Ok?
    ensures forall x :: x in Extras(args, files).value ==> '=' in x
    decreases |args|
  {
    if args != [] {
      ExtrasArePairs(args[1..], files);
    }
  }

  /** `join("; ")`. */
  function JoinCookies(parts: seq<string>): string
    decreases |parts|
  {
    if parts == [] then ""
    else if |parts| == 1 then parts[0]
    else JoinCookies(parts[..|parts| - 1]) + "; " + parts[|parts| - 1]
  }

  /** Joining two non-empty lists puts one separator between their joins. */
  lemma {:induction false} JoinAppend(a: seq<string>, b: seq<string>)
    requires a != [] && b != []
    ensures JoinCookies(a + b) == JoinCookies(a) + "; " + JoinCookies(b)
    decreases |b|
  {
    var n := |b|;
    if n == 1 {
      assert (a + b)[..|a + b| - 1] == a;
    } else {
      assert (a + b)[..|a + b| - 1] == a + b[..n - 1];
      JoinAppend(a, b[..n - 1]);
    }
  }

  /** A join of non-empty parts is empty exactly when there are no parts. */
  lemma {:induction false} JoinEmptyIff(parts: seq<string>)
    requires forall i :: 0 <= i < |parts| ==> parts[i] != ""
    ensures JoinCookies(parts) == "" <==> parts == []
    decreases |parts|
  {
    if |parts| > 1 {
      var last := parts[|parts| - 1];
      assert |JoinCookies(parts)| >= |last| > 0;
    }
  }

  /** The `Cookie` value: jar cookies first, then the extras. */
  function CookieValue(jar: seq<Cookie>, extras: seq<string>): string {
    JoinCookies(CookiePairs(jar) + extras)
  }

  /** Jar cookies come before the extras, one separator between them. */
  lemma CookieValueOrder(jar: seq<Cookie>, extras: seq<string>)
    requires jar != [] && extras != []
    ensures CookieValue(jar, extras) == JoinCookies(CookiePairs(jar)) + "; " + JoinCookies(extras)
  {
    JoinAppend(CookiePairs(jar), extras);
  }

  /** The `Cookie` header is set exactly when there is a jar cookie or an extra. */
  lemma CookieHeaderSetIff(jar: seq<Cookie>, args: seq<string>, files: map<string, Option<seq<Cookie>>>)
    requires Extras(args, files).Ok?
    ensures CookieValue(jar, Extras(args, files).value) != "" <==> jar != [] || Extras(args, files).value != []
  {
    var xs := Extras(args, files).value;
    ExtrasArePairs(args, files);
    var parts := CookiePairs(jar) + xs;
    forall i | 0 <= i < |parts|
      ensures parts[i] != ""
    {
      if i >= |jar| {
        assert parts[i] in xs;
      }
    }
    JoinEmptyIff(parts);
  }

  /** The endpoint's headers before the patch and the environment apply:
      the default `user-agent`, then the `Cookie` header when its value is
      not empty. */
  function PreparedHeaders(headers: StrMap, userAgent: string, cookie: string): (r: StrMap)
    ensures UserAgentKey in r
    ensures cookie != "" ==> CookieKey in r && r[CookieKey] == cookie
    ensures cookie == "" ==> r == WithUserAgent(headers, userAgent)
    ensures forall k :: k in headers && k != CookieKey ==> k in r && r[k] == headers[k]
  {
    var h := WithUserAgent(headers, userAgent);
    if cookie == "" then h else h[CookieKey := cookie]
  }

  // ---------------------------------------------------------------------
  // one hop

  /** Environment headers whose names the request does not have. */
  function EnvOnly(headers: StrMap, envHeaders: StrMap): StrMap {
    map k | k in envHeaders && k !in headers :: envHeaders[k]
  }

  /** The request's headers with the environment's filled in: every
      request header is kept, every other environment header is added. */
  function WithEnvHeaders(headers: StrMap, envHeaders: StrMap): (r: StrMap)
    ensures r.Keys == headers.Keys + envHeaders.Keys
    ensures forall k :: k in headers ==> r[k] == headers[k]
    ensures forall k :: k in envHeaders && k !in headers ==> r[k] == envHeaders[k]
  {
    headers + EnvOnly(headers, envHeaders)
  }

  /** The request a hop sends: `into_request`, then the environment headers,
      of which only those added are validated. */
  function Outgoing(w: World, envHeaders: StrMap, e: Endpoint): Result<Request, SendError> {
    match RequestOf(w.syntax, e)
    case Err(_) => Err(MalformedRequest)
    case Ok(req) =>
      if AllHeadersValid(w.syntax, EnvOnly(req.headers, envHeaders))
      then Ok(req.(headers := WithEnvHeaders(req.headers, envHeaders)))
      else Err(InvalidEnvHeader)
  }

  /** The env-header fill-in loop: inserts each environment header the
      request lacks, validating its name and value. */
  method FillEnvHeaders(syntax: HttpSyntax, headers: StrMap, envHeaders: StrMap) returns (r: Result<StrMap, SendError>)
    ensures r.Ok? <==> AllHeadersValid(syntax, EnvOnly(headers, envHeaders))
    ensures r.Ok? ==> r.value == WithEnvHeaders(headers, envHeaders)
    ensures r.Err? ==> r.error == InvalidEnvHeader
  {
    var filled := headers;
    var todo := envHeaders.Keys;
    while todo != {}
      invariant todo <= envHeaders.Keys
      invariant forall k :: k in headers ==> k in filled && filled[k] == headers[k]
      invariant forall k :: k in filled ==> k in headers || (k in envHeaders && k !in todo)
      invariant forall k :: k in envHeaders && k !in todo && k !in headers ==>
        k in filled && filled[k] == envHeaders[k] && HeaderValid(syntax, k, envHeaders[k])
      decreases todo
    {
      var k :| k in todo;
      if k !in headers {
        if !HeaderValid(syntax, k, envHeaders[k]) {
          assert k in EnvOnly(headers, envHeaders);
          return Err(InvalidEnvHeader);
        }
        filled := filled[k := envHeaders[k]];
      }
      todo := todo - {k};
    }
    ghost var want := WithEnvHeaders(headers, envHeaders);
    assert filled.Keys == want.Keys;
    assert filled == want;
    r := Ok(filled);
  }

  /** What `HeaderValue::to_str` accepts: tab and printable ASCII. */
  predicate VisibleAscii(s: string) {
    forall i :: 0 <= i < |s| ==> s[i] == '\t' || (32 <= s[i] as int < 127)
  }

  /** `StatusCode::is_redirection`: 300 to 399. */
  predicate IsRedirection(status: int) {
    300 <= status < 400
  }

  /** The loop goes round again after this response. */
  predicate Follows(noFollow: bool, res: Response) {
    !noFollow && IsRedirection(res.status)
  }

  /** The `set` calls a response causes, given the endpoint it answered. */
  function CapturedAt(w: World, e: Endpoint, res: Response): seq<SetCookie> {
    if "set-cookie" !in res.headers then []
    else match w.fullUrl(e)
      case Some(Uri(_, _, Some(host))) => [SetCookie(host, res.headers["set-cookie"])]
      case _ => []
  }

  /** `Set-Cookie` capture: recorded under the host of the URL just
      requested; fails when that URL does not resolve, has no host, or the
      header is not visible ASCII. */
  function CaptureCookie(w: World, e: Endpoint, res: Response, jar: CookieJar): (r: Result<CookieJar, SendError>)
    ensures "set-cookie" !in res.headers ==> r == Ok(jar)
    ensures r.Ok? ==> r.value == jar.(received := jar.received + CapturedAt(w, e, res))
    ensures r.Ok? && "set-cookie" in res.headers ==> (|CapturedAt(w, e, res)| == 1 &&
      w.fullUrl(e).Some? && w.fullUrl(e).value.host == Some(CapturedAt(w, e, res)[0].host))
  {
    if "set-cookie" !in res.headers then Ok(jar)
    else match w.fullUrl(e)
      case None => Err(InvalidUrl)
      case Some(u) =>
        if u.host.None? then Err(NoHost)
        else if !VisibleAscii(res.headers["set-cookie"]) then Err(NotVisibleAscii)
        else Ok(jar.(received := jar.received + [SetCookie(u.host.value, res.headers["set-cookie"])]))
  }

  /** `scheme://authority`, the origin `Uri::builder` writes before the path. */
  function Origin(u: Uri): string
    requires u.scheme.Some? && u.authority.Some?
  {
    u.scheme.value + "://" + u.authority.value
  }

  /** The first `Location` header of a response. */
  function Location(res: Response): Option<string> {
    if "location" in res.headers then Some(res.headers["location"]) else None
  }

  predicate StartsWithSlash(s: string) {
    |s| > 0 && s[0] == '/'
  }

  /** What `PathAndQuery` keeps of a path: everything before the first
      `#`; the fragment is dropped when the URI is rebuilt. */
  function WithoutFragment(s: string): string {
    if s == [] || s[0] == '#' then []
    else [s[0]] + WithoutFragment(s[1..])
  }

  /** `WithoutFragment` is the longest prefix without `#`: the input itself
      when it has none, otherwise the part before the first `#`. */
  lemma {:induction false} WithoutFragmentPrefix(s: string)
    ensures var r := WithoutFragment(s);
      |r| <= |s| && r == s[..|r|] && '#' !in r &&
      ('#' in s ==> s[|r|] == '#') && ('#' !in s ==> r == s)
  {
    if s != [] && s[0] != '#' {
      WithoutFragmentPrefix(s[1..]);
      assert s == [s[0]] + s[1..];
    }
  }

  /** `PathAndQuery` keeps a path up to its first `#`. */
  ghost predicate KeepsPathAndQuery(w: World) {
    forall s :: w.pathAndQuery(s) == WithoutFragment(s)
  }

  /** A fragment after a path without `#` is cut off entirely. */
  lemma {:induction false} FragmentCut(p: string, f: string)
    requires '#' !in p
    ensures WithoutFragment(p + "#" + f) == p
  {
    if p != [] {
      FragmentCut(p[1..], f);
      assert (p + "#" + f)[1..] == p[1..] + "#" + f;
    }
  }

  /** The URL the next hop requests. A `Location` starting with `/` keeps
      the scheme and authority of the URL just requested, followed by what
      `PathAndQuery` keeps of it (no fragment); any other `Location` that
      parses replaces the URL; no `Location`, or one that does not parse,
      leaves the URL as it was. */
  function NextUrl(w: World, e: Endpoint, res: Response): (r: Result<string, SendError>)
    ensures Location(res).None? ==> r == Ok(e.url)
    ensures r.Err? ==> Location(res).Some?
    ensures r.Ok? && r.value != e.url ==> Location(res).Some? && VisibleAscii(Location(res).value)
    ensures r.Ok? && Location(res).Some? && StartsWithSlash(Location(res).value) ==>
      (var u := w.fullUrl(e);
       u.Some? && u.value.scheme.Some? && u.value.authority.Some? && r.value == Origin(u.value) + w.pathAndQuery(Location(res).value))
    ensures Location(res).Some? && VisibleAscii(Location(res).value) && !StartsWithSlash(Location(res).value) ==>
      r == Ok(if w.syntax.validUri(Location(res).value) then Location(res).value else e.url)
  {
    if "location" !in res.headers then Ok(e.url)
    else
      var loc := res.headers["location"];
      if !VisibleAscii(loc) then Err(NotVisibleAscii)
      else if StartsWithSlash(loc) then
        match w.fullUrl(e)
        case None => Err(InvalidUrl)
        case Some(u) =>
          if u.authority.None? || u.scheme.None? then Err(NoOrigin)
          else if !w.validPathAndQuery(loc) then Err(InvalidLocation)
          else Ok(Origin(u) + w.pathAndQuery(loc))
      else if w.syntax.validUri(loc) then Ok(loc)
      else Ok(e.url)
  }

  /** A `Location` that is a `/` path without a fragment keeps the origin
      of the URL just requested and takes that path. */
  lemma RelativeRedirectKeepsOrigin(w: World, e: Endpoint, res: Response, u: Uri, path: string)
    requires KeepsPathAndQuery(w)
    requires w.fullUrl(e) == Some(u) && u.scheme.Some? && u.authority.Some?
    requires StartsWithSlash(path) && '#' !in path
    requires VisibleAscii(path) && w.validPathAndQuery(path)
    requires Location(res) == Some(path)
    ensures NextUrl(w, e, res) == Ok(Origin(u) + path)
  {
    WithoutFragmentPrefix(path);
  }

  /** A 302 with `Location: /next` after `https://host/prev` goes to
      `https://host/next`. */
  lemma RelativeRedirectExample(w: World, e: Endpoint, res: Response)
    requires KeepsPathAndQuery(w)
    requires e.url == "https://host/prev"
    requires w.fullUrl(e) == Some(Uri(Some("https"), Some("host"), Some("host")))
    requires w.validPathAndQuery("/next")
    requires res == Response(302, map["location" := "/next"])
    ensures NextUrl(w, e, res) == Ok("https://host/next")
  {
    var u := Uri(Some("https"), Some("host"), Some("host"));
    var path := "/next";
    assert path[0] == '/' && path[1] == 'n' && path[2] == 'e' && path[3] == 'x' && path[4] == 't';
    assert Location(res) == Some(path);
    RelativeRedirectKeepsOrigin(w, e, res, u, path);
    assert Origin(u) + path == "https://host/next";
  }

  /** A `Location` made of a `/` path and a fragment leads to the previous
      origin followed by the path alone: the fragment is dropped. */
  lemma RelativeRedirectDropsFragment(w: World, e: Endpoint, res: Response, u: Uri, path: string, fragment: string)
    requires KeepsPathAndQuery(w)
    requires w.fullUrl(e) == Some(u) && u.scheme.Some? && u.authority.Some?
    requires StartsWithSlash(path) && '#' !in path
    requires VisibleAscii(path + "#" + fragment) && w.validPathAndQuery(path + "#" + fragment)
    requires Location(res) == Some(path + "#" + fragment)
    ensures NextUrl(w, e, res) == Ok(Origin(u) + path)
  {
    FragmentCut(path, fragment);
    assert (path + "#" + fragment)[0] == path[0];
  }

  // ---------------------------------------------------------------------
  // the redirect loop

  /** One request and the response it got. */
  datatype Hop = Hop(request: Request, response: Response)

  /** The loop's variables: the endpoint (whose URL a redirect rewrites), the
      cookie jar, and the hops made so far. */
  datatype Flight = Flight(endpoint: Endpoint, jar: CookieJar, hops: seq<Hop>)

  /** How the loop ends: with the response it stopped at, with an error,
      or, in this model only, with the hop budget spent. */
  datatype Outcome = Completed(response: Response) | Failed(error: SendError) | OutOfFuel

  datatype StepResult = Stop(outcome: Outcome, flight: Flight) | Again(flight: Flight)

  /** One turn of the loop body. */
  function Step(w: World, envHeaders: StrMap, noFollow: bool, f: Flight): StepResult {
    match Outgoing(w, envHeaders, f.endpoint)
    case Err(err) => Stop(Failed(err), f)
    case Ok(req) =>
      match w.server(req)
      case None => Stop(Failed(Transport), f)
      case Some(res) =>
        var sent := f.(hops := f.hops + [Hop(req, res)]);
        match CaptureCookie(w, f.endpoint, res, f.jar)
        case Err(err) => Stop(Failed(err), sent)
        case Ok(jar) =>
          if !Follows(noFollow, res) then Stop(Completed(res), sent.(jar := jar))
          else match NextUrl(w, f.endpoint, res)
            case Err(err) => Stop(Failed(err), sent.(jar := jar))
            case Ok(url) => Again(sent.(jar := jar, endpoint := f.endpoint.(url := url)))
  }

  /** The loop body as a function of the loop's variables. */
  function Turn(w: World, envHeaders: StrMap, noFollow: bool): Flight -> StepResult {
    f => Step(w, envHeaders, noFollow, f)
  }

  /** A loop run for at most `fuel` turns, `turn` making each one. */
  function Iterate(turn: Flight -> StepResult, f: Flight, fuel: nat): (Outcome, Flight)
    decreases fuel
  {
    if fuel == 0 then (OutOfFuel, f)
    else match turn(f)
      case Stop(o, f') => (o, f')
      case Again(f') => Iterate(turn, f', fuel - 1)
  }

  /** The loop of `send` run for at most `fuel` turns. */
  function Run(w: World, envHeaders: StrMap, noFollow: bool, f: Flight, fuel: nat): (Outcome, Flight) {
    Iterate(Turn(w, envHeaders, noFollow), f, fuel)
  }

  /** The loop of `send`: builds the request, fills in the environment
      headers, sends it, captures `Set-Cookie`, and stops unless the
      response is a redirection to follow, in which case the URL is
      rewritten and the loop goes round again. */
  method RedirectLoop(w: World, envHeaders: StrMap, noFollow: bool, start: Flight, fuel: nat)
    returns (outcome: Outcome, f: Flight)
    ensures (outcome, f) == Run(w, envHeaders, noFollow, start, fuel)
  {
    f := start;
    var left: nat := fuel;
    while left > 0
      invariant left <= fuel
      invariant Run(w, envHeaders, noFollow, f, left) == Run(w, envHeaders, noFollow, start, fuel)
      decreases left
    {
      var built := AsRequest(w.syntax, f.endpoint);
      if built.Err? {
        return Failed(MalformedRequest), f;
      }
      var req := built.value;
      var filled := FillEnvHeaders(w.syntax, req.headers, envHeaders);
      if filled.Err? {
        return Failed(filled.error), f;
      }
      req := req.(headers := filled.value);
      var answer := w.server(req);
      if answer.None? {
        return Failed(Transport), f;
      }
      var res := answer.value;
      var requested := f.endpoint;
      f := f.(hops := f.hops + [Hop(req, res)]);
      var captured := CaptureCookie(w, requested, res, f.jar);
      if captured.Err? {
        return Failed(captured.error), f;
      }
      f := f.(jar := captured.value);
      if !Follows(noFollow, res) {
        return Completed(res), f;
      }
      var next := NextUrl(w, requested, res);
      if next.Err? {
        return Failed(next.error), f;
      }
      f := f.(endpoint := requested.(url := next.value));
      left := left - 1;
    }
    outcome := OutOfFuel;
  }

  /** The `set` calls a sequence of hops causes, each under the endpoint
      with that hop's URL. */
  function Captured(w: World, e: Endpoint, hops: seq<Hop>): seq<SetCookie>
    decreases |hops|
  {
    if hops == [] then []
    else CapturedAt(w, e.(url := hops[0].request.uri), hops[0].response) + Captured(w, e, hops[1..])
  }

  /** Captures do not depend on the URL the endpoint had before the hops. */
  lemma {:induction false} CapturedIgnoresUrl(w: World, e: Endpoint, url: string, hops: seq<Hop>)
    ensures Captured(w, e.(url := url), hops) == Captured(w, e, hops)
    decreases |hops|
  {
    if hops != [] {
      CapturedIgnoresUrl(w, e, url, hops[1..]);
    }
  }

  /** What one turn does to the loop's variables: it appends at most one
      hop, which sends the endpoint's headers with the environment's filled
      in; it changes nothing of the endpoint but its URL and nothing of the
      jar's cookies. A turn that goes round again made a hop and followed
      its response; one that completes made a hop and did not; a turn never
      stops for want of budget. */
  predicate TurnShape(envHeaders: StrMap, noFollow: bool, f: Flight, s: StepResult) {
    var g := s.flight;
    && !(s.Stop? && s.outcome.OutOfFuel?)
    && g.endpoint == f.endpoint.(url := g.endpoint.url)
    && g.jar.cookies == f.jar.cookies
    && (g.hops == f.hops || (|g.hops| == |f.hops| + 1 && g.hops[..|f.hops|] == f.hops &&
        g.hops[|f.hops|].request.headers == WithEnvHeaders(f.endpoint.headers, envHeaders)))
    && (s.Again? ==> |g.hops| == |f.hops| + 1 && Follows(noFollow, g.hops[|f.hops|].response))
    && (s.Stop? && s.outcome.Completed? ==> (|g.hops| == |f.hops| + 1 &&
        g.hops[|f.hops|].response == s.outcome.response && !Follows(noFollow, s.outcome.response)))
  }

  /** What one turn that does not fail records in the jar: it made one hop,
      to the endpoint's URL, and the `set` calls of that hop's response. */
  predicate TurnCookies(w: World, f: Flight, s: StepResult) {
    !(s.Stop? && s.outcome.Failed?) ==> (|s.flight.hops| == |f.hops| + 1 &&
      s.flight.hops[..|f.hops|] == f.hops && s.flight.hops[|f.hops|].request.uri == f.endpoint.url &&
      s.flight.jar.received == f.jar.received + CapturedAt(w, f.endpoint, s.flight.hops[|f.hops|].response))
  }

  /** Every turn of the loop has the shape `TurnShape` describes. */
  lemma StepTrace(w: World, envHeaders: StrMap, noFollow: bool, f: Flight)
    ensures TurnShape(envHeaders, noFollow, f, Step(w, envHeaders, noFollow, f))
  {
    var s := Step(w, envHeaders, noFollow, f);
    if s.flight.hops != f.hops {
      assert (f.hops + [s.flight.hops[|f.hops|]])[..|f.hops|] == f.hops;
    }
  }

  /** Every turn of the loop records its `set` calls as `TurnCookies`
      describes. */
  lemma StepCookies(w: World, envHeaders: StrMap, noFollow: bool, f: Flight)
    ensures TurnCookies(w, f, Step(w, envHeaders, noFollow, f))
  {
    var s := Step(w, envHeaders, noFollow, f);
    if !(s.Stop? && s.outcome.Failed?) {
      assert (f.hops + [s.flight.hops[|f.hops|]])[..|f.hops|] == f.hops;
    }
  }

  lemma TurnsShaped(w: World, envHeaders: StrMap, noFollow: bool)
    ensures forall f :: TurnShape(envHeaders, noFollow, f, Turn(w, envHeaders, noFollow)(f))
    ensures forall f :: TurnCookies(w, f, Turn(w, envHeaders, noFollow)(f))
  {
    forall f
      ensures TurnShape(envHeaders, noFollow, f, Turn(w, envHeaders, noFollow)(f))
      ensures TurnCookies(w, f, Turn(w, envHeaders, noFollow)(f))
    {
      StepTrace(w, envHeaders, noFollow, f);
      StepCookies(w, envHeaders, noFollow, f);
    }
  }

  // The properties of a run hold for any loop whose turns have the shape
  // above; they are proved once for such a loop, then for `send`'s.

  lemma {:induction false} IterateExtends(turn: Flight -> StepResult, envHeaders: StrMap, noFollow: bool, f: Flight, fuel: nat)
    requires forall g :: TurnShape(envHeaders, noFollow, g, turn(g))
    ensures var g := Iterate(turn, f, fuel).1;
      |f.hops| <= |g.hops| <= |f.hops| + fuel && g.hops[..|f.hops|] == f.hops &&
      g.endpoint == f.endpoint.(url := g.endpoint.url) && g.jar.cookies == f.jar.cookies &&
      forall i :: |f.hops| <= i < |g.hops| ==> g.hops[i].request.headers == WithEnvHeaders(f.endpoint.headers, envHeaders)
    decreases fuel
  {
    assert TurnShape(envHeaders, noFollow, f, turn(f));
    if fuel > 0 && turn(f).Again? {
      var f' := turn(f).flight;
      IterateExtends(turn, envHeaders, noFollow, f', fuel - 1);
      var g := Iterate(turn, f', fuel - 1).1;
      assert g.hops[..|f.hops|] == g.hops[..|f'.hops|][..|f.hops|];
      assert g.hops[|f.hops|] == f'.hops[|f.hops|];
    }
  }

  lemma {:induction false} IterateFollowed(turn: Flight -> StepResult, envHeaders: StrMap, noFollow: bool, f: Flight, fuel: nat)
    requires forall g :: TurnShape(envHeaders, noFollow, g, turn(g))
    ensures var (o, g) := Iterate(turn, f, fuel);
      forall i :: |f.hops| <= i < |g.hops| - 1 ==> Follows(noFollow, g.hops[i].response)
    ensures var (o, g) := Iterate(turn, f, fuel);
      o.OutOfFuel? ==> (|g.hops| == |f.hops| + fuel &&
        forall i :: |f.hops| <= i < |g.hops| ==> Follows(noFollow, g.hops[i].response))
    decreases fuel
  {
    assert TurnShape(envHeaders, noFollow, f, turn(f));
    if fuel > 0 && turn(f).Again? {
      var f' := turn(f).flight;
      IterateFollowed(turn, envHeaders, noFollow, f', fuel - 1);
      IterateExtends(turn, envHeaders, noFollow, f', fuel - 1);
      var g := Iterate(turn, f', fuel - 1).1;
      assert g.hops[|f.hops|] == f'.hops[|f.hops|];
    }
  }

  /** A completed run stopped at its last hop's response, which it did not
      follow. */
  predicate EndsCompleted(noFollow: bool, f: Flight, r: (Outcome, Flight)) {
    r.0.Completed? ==> (|r.1.hops| > |f.hops| && r.1.hops[|r.1.hops| - 1].response == r.0.response &&
      !Follows(noFollow, r.0.response))
  }

  lemma {:induction false} IterateCompleted(turn: Flight -> StepResult, envHeaders: StrMap, noFollow: bool, f: Flight, fuel: nat)
    requires forall g :: TurnShape(envHeaders, noFollow, g, turn(g))
    ensures EndsCompleted(noFollow, f, Iterate(turn, f, fuel))
    decreases fuel
  {
    assert TurnShape(envHeaders, noFollow, f, turn(f));
    if fuel > 0 && turn(f).Again? {
      var f' := turn(f).flight;
      IterateCompleted(turn, envHeaders, noFollow, f', fuel - 1);
      IterateExtends(turn, envHeaders, noFollow, f', fuel - 1);
    }
  }

  lemma {:induction false} IterateCookies(w: World, turn: Flight -> StepResult, envHeaders: StrMap, noFollow: bool, f: Flight, fuel: nat)
    requires forall g :: TurnShape(envHeaders, noFollow, g, turn(g))
    requires forall g :: TurnCookies(w, g, turn(g))
    ensures var (o, g) := Iterate(turn, f, fuel);
      !o.Failed? ==> (|f.hops| <= |g.hops| &&
        g.jar.received == f.jar.received + Captured(w, f.endpoint, g.hops[|f.hops|..]))
    decreases fuel
  {
    var (o, g) := Iterate(turn, f, fuel);
    if fuel > 0 && !o.Failed? {
      var s := turn(f);
      assert TurnShape(envHeaders, noFollow, f, s) && TurnCookies(w, f, s);
      if s.Again? {
        IterateCookies(w, turn, envHeaders, noFollow, s.flight, fuel - 1);
        IterateExtends(turn, envHeaders, noFollow, s.flight, fuel - 1);
      }
      CookiesTurn(w, f, s, o, g);
    }
  }

  /** One turn of a run's `set` calls: the turn's own, then those of the
      rest of the run when it goes round again. */
  lemma CookiesTurn(w: World, f: Flight, s: StepResult, o: Outcome, g: Flight)
    requires !o.Failed?
    requires s.Stop? ==> o == s.outcome && g == s.flight
    requires TurnCookies(w, f, s)
    requires s.flight.endpoint == f.endpoint.(url := s.flight.endpoint.url)
    requires s.Again? ==> (|s.flight.hops| <= |g.hops| && g.hops[..|s.flight.hops|] == s.flight.hops &&
      g.jar.received == s.flight.jar.received + Captured(w, s.flight.endpoint, g.hops[|s.flight.hops|..]))
    ensures |f.hops| <= |g.hops|
    ensures g.jar.received == f.jar.received + Captured(w, f.endpoint, g.hops[|f.hops|..])
  {
    var n := |f.hops|;
    var h := s.flight.hops[n];
    if s.Stop? {
      assert g.hops[n..] == [h];
      assert f.endpoint.(url := h.request.uri) == f.endpoint;
      assert Captured(w, f.endpoint, [h]) == CapturedAt(w, f.endpoint, h.response) + Captured(w, f.endpoint, []);
    } else {
      CookiesCompose(w, f, h, s.flight, g);
    }
  }

  /** The `set` calls of one hop followed by those of the rest of a run. */
  lemma CookiesCompose(w: World, f: Flight, h: Hop, f': Flight, g: Flight)
    requires f'.hops == f.hops + [h] && h.request.uri == f.endpoint.url
    requires f'.jar.received == f.jar.received + CapturedAt(w, f.endpoint, h.response)
    requires f'.endpoint == f.endpoint.(url := f'.endpoint.url)
    requires |f'.hops| <= |g.hops| && g.hops[..|f'.hops|] == f'.hops
    requires g.jar.received == f'.jar.received + Captured(w, f'.endpoint, g.hops[|f'.hops|..])
    ensures |f.hops| <= |g.hops|
    ensures g.jar.received == f.jar.received + Captured(w, f.endpoint, g.hops[|f.hops|..])
  {
    var n := |f.hops|;
    var rest := g.hops[n + 1..];
    assert g.hops[n] == h;
    assert g.hops[n..] == [h] + rest;
    CapturedIgnoresUrl(w, f.endpoint, f'.endpoint.url, rest);
    assert f.endpoint.(url := h.request.uri) == f.endpoint;
  }

  /** A run only appends hops. */
  lemma RunPrefix(w: World, envHeaders: StrMap, noFollow: bool, f: Flight, fuel: nat)
    ensures var g := Run(w, envHeaders, noFollow, f, fuel).1;
      |f.hops| <= |g.hops| && g.hops[..|f.hops|] == f.hops
  {
    TurnsShaped(w, envHeaders, noFollow);
    IterateExtends(Turn(w, envHeaders, noFollow), envHeaders, noFollow, f, fuel);
  }

  /** A run only appends hops, at most one per turn; it changes nothing of
      the endpoint but its URL, so the `Cookie` header is not refreshed
      between hops; every hop sends the same headers. */
  lemma RunExtends(w: World, envHeaders: StrMap, noFollow: bool, f: Flight, fuel: nat)
    ensures var g := Run(w, envHeaders, noFollow, f, fuel).1;
      |f.hops| <= |g.hops| <= |f.hops| + fuel && g.hops[..|f.hops|] == f.hops &&
      g.endpoint == f.endpoint.(url := g.endpoint.url) && g.jar.cookies == f.jar.cookies &&
      forall i :: |f.hops| <= i < |g.hops| ==> g.hops[i].request.headers == WithEnvHeaders(f.endpoint.headers, envHeaders)
  {
    TurnsShaped(w, envHeaders, noFollow);
    IterateExtends(Turn(w, envHeaders, noFollow), envHeaders, noFollow, f, fuel);
  }

  /** Every hop of a run but the last followed a redirection; a run that
      spent its budget made one hop per turn and followed all of them. */
  lemma RunFollowed(w: World, envHeaders: StrMap, noFollow: bool, f: Flight, fuel: nat)
    ensures var (o, g) := Run(w, envHeaders, noFollow, f, fuel);
      forall i :: |f.hops| <= i < |g.hops| - 1 ==> Follows(noFollow, g.hops[i].response)
    ensures var (o, g) := Run(w, envHeaders, noFollow, f, fuel);
      o.OutOfFuel? ==> (|g.hops| == |f.hops| + fuel &&
        forall i :: |f.hops| <= i < |g.hops| ==> Follows(noFollow, g.hops[i].response))
  {
    TurnsShaped(w, envHeaders, noFollow);
    IterateFollowed(Turn(w, envHeaders, noFollow), envHeaders, noFollow, f, fuel);
  }

  /** A completed run stopped at its last hop's response, which is not
      followed: either `--no-follow` was given or it is not a redirection. */
  lemma RunCompleted(w: World, envHeaders: StrMap, noFollow: bool, f: Flight, fuel: nat)
    ensures EndsCompleted(noFollow, f, Run(w, envHeaders, noFollow, f, fuel))
  {
    TurnsShaped(w, envHeaders, noFollow);
    IterateCompleted(Turn(w, envHeaders, noFollow), envHeaders, noFollow, f, fuel);
  }

  /** A run that does not fail records, in hop order, one `set` call for
      each response carrying `Set-Cookie`, under the host of the URL that
      response answered. */
  lemma RunCookies(w: World, envHeaders: StrMap, noFollow: bool, f: Flight, fuel: nat)
    ensures var (o, g) := Run(w, envHeaders, noFollow, f, fuel);
      !o.Failed? ==> (|f.hops| <= |g.hops| &&
        g.jar.received == f.jar.received + Captured(w, f.endpoint, g.hops[|f.hops|..]))
  {
    TurnsShaped(w, envHeaders, noFollow);
    IterateCookies(w, Turn(w, envHeaders, noFollow), envHeaders, noFollow, f, fuel);
  }

  /** With `--no-follow` the loop sends one request and never runs out. */
  lemma NoFollowSingleRequest(w: World, envHeaders: StrMap, f: Flight, fuel: nat)
    requires fuel > 0
    ensures var (o, g) := Run(w, envHeaders, true, f, fuel);
      !o.OutOfFuel? && |g.hops| <= |f.hops| + 1
  {
  }

  /** A followed redirection whose next URL is the one just requested (no
      `Location`, or one that does not parse) makes the loop send the same
      request again and again: whatever the budget, it is spent and the
      command never completes. */
  lemma {:induction false} StuckRedirectNeverCompletes(w: World, envHeaders: StrMap, noFollow: bool, f: Flight,
      req: Request, res: Response, fuel: nat)
    requires Outgoing(w, envHeaders, f.endpoint) == Ok(req) && w.server(req) == Some(res)
    requires Follows(noFollow, res) && NextUrl(w, f.endpoint, res) == Ok(f.endpoint.url)
    requires CaptureCookie(w, f.endpoint, res, f.jar).Ok?
    ensures Run(w, envHeaders, noFollow, f, fuel).0 == OutOfFuel
    ensures Run(w, envHeaders, noFollow, f, fuel).1.hops == f.hops + seq(fuel, _ => Hop(req, res))
    decreases fuel
  {
    if fuel > 0 {
      var f' := Step(w, envHeaders, noFollow, f).flight;
      assert f'.endpoint == f.endpoint;
      StuckRedirectNeverCompletes(w, envHeaders, noFollow, f', req, res, fuel - 1);
      assert f.hops + seq(fuel, _ => Hop(req, res)) == f'.hops + seq(fuel - 1, _ => Hop(req, res));
    }
  }

  /** A redirection without `Location` is stuck. */
  lemma MissingLocationNeverCompletes(w: World, envHeaders: StrMap, f: Flight, req: Request, res: Response, fuel: nat)
    requires Outgoing(w, envHeaders, f.endpoint) == Ok(req) && w.server(req) == Some(res)
    requires IsRedirection(res.status) && "location" !in res.headers && "set-cookie" !in res.headers
    ensures Run(w, envHeaders, false, f, fuel).0 == OutOfFuel
  {
    StuckRedirectNeverCompletes(w, envHeaders, false, f, req, res, fuel);
  }

  // ---------------------------------------------------------------------
  // the command

  /** The arguments of `send`; each `--var` input arrives parsed. */
  datatype SendArgs = SendArgs(variables: seq<Pair>, noFollow: bool, cookies: seq<string>, cookieJar: Option<string>)

  /** The jar written when the loop ends: to the `--cookie-jar` path, or to
      the environment's own jar when none is given. */
  datatype JarWrite = JarWrite(path: Option<string>, jar: CookieJar)

  /** The endpoint the loop starts from, once the extras are known. */
  function StartEndpoint(w: World, userAgent: string, e: Endpoint, env: Env, jar: seq<Cookie>, extras: seq<string>): Endpoint {
    w.prepare(e.(headers := PreparedHeaders(e.headers, userAgent, CookieValue(jar, extras))), env)
  }

  /** `send`: sets the `--var` variables on the environment in use, prepares
      the endpoint, runs the loop, and writes the jar only when the loop
      has completed. */
  method Cmd(w: World, userAgent: string, e: Endpoint, env0: Env, jar0: seq<Cookie>, args: SendArgs,
      files: map<string, Option<seq<Cookie>>>, fuel: nat)
    returns (outcome: Outcome, f: Flight, written: Option<JarWrite>)
    ensures Extras(args.cookies, files).Err? ==> outcome == Failed(Extras(args.cookies, files).error)
    ensures Extras(args.cookies, files).Ok? ==>
      var env := env0.(variables := SetAll(env0.variables, args.variables));
      var start := StartEndpoint(w, userAgent, e, env, jar0, Extras(args.cookies, files).value);
      (outcome, f) == Run(w, env.headers, args.noFollow, Flight(start, CookieJar(jar0, []), []), fuel)
    ensures written.Some? <==> outcome.Completed?
    ensures written.Some? ==> written.value == JarWrite(args.cookieJar, f.jar)
  {
    var env := env0;
    var i := 0;
    while i < |args.variables|
      invariant i <= |args.variables|
      invariant env == env0.(variables := SetAll(env0.variables, args.variables[..i]))
    {
      assert args.variables[..i + 1][..i] == args.variables[..i];
      env := env.(variables := env.variables[args.variables[i].key := args.variables[i].value]);
      i := i + 1;
    }
    assert args.variables[..i] == args.variables;
    var headers := WithUserAgent(e.headers, userAgent);
    var jar := CookieJar(jar0, []);
    var extras := Extras(args.cookies, files);
    if extras.Err? {
      return Failed(extras.error), Flight(e, jar, []), None;
    }
    var cookie := CookieValue(jar0, extras.value);
    if cookie != "" {
      headers := headers[CookieKey := cookie];
    }
    var start := w.prepare(e.(headers := headers), env);
    outcome, f := RedirectLoop(w, env.headers, args.noFollow, Flight(start, jar, []), fuel);
    written := None;
    if outcome.Completed? {
      written := Some(JarWrite(args.cookieJar, f.jar));
    }
  }
}
