/** Endpoints: the stored request templates of `src/endpoint.rs`, their names,
    the directories they live in, and the request they are turned into. */
module Endpoints {
  import opened Wrappers
  import opened PairMaps

  /** A path as the list of its components (`.quartz/endpoints/x` is
      `[".quartz", "endpoints", "x"]`). */
  type Path = seq<string>

  /** The `Endpoint` record. `query` is the map `src/action/query.rs` edits;
      the body lives in a separate file and is not part of this model. */
  datatype Endpoint = Endpoint(
    name: string,
    url: string,
    httpMethod: string,
    headers: StrMap,
    query: StrMap)

  // ---------------------------------------------------------------------
  // trim_newline

  /** Rust's `char::is_whitespace`: the Unicode White_Space characters. */
  predicate IsWhitespace(c: char) {
    var n := c as int;
    (9 <= n <= 13) || n == 32 || n == 0x85 || n == 0xA0 || n == 0x1680
    || (0x2000 <= n <= 0x200A) || n == 0x2028 || n == 0x2029
    || n == 0x202F || n == 0x205F || n == 0x3000
  }

  predicate AllWhitespace(s: string) {
    forall i :: 0 <= i < |s| ==> IsWhitespace(s[i])
  }

  /** `str::trim_start` */
  function TrimStart(s: string): string {
    if |s| > 0 && IsWhitespace(s[0]) then TrimStart(s[1..]) else s
  }

  /** `str::trim_end` */
  function TrimEnd(s: string): string {
    if |s| > 0 && IsWhitespace(s[|s| - 1]) then TrimEnd(s[..|s| - 1]) else s
  }

  /** `str::trim`: whitespace removed at both ends. */
  function Trim(s: string): string {
    TrimEnd(TrimStart(s))
  }

  /** A string with no whitespace at either end. */
  predicate Trimmed(s: string) {
    s == [] || (!IsWhitespace(s[0]) && !IsWhitespace(s[|s| - 1]))
  }

  lemma {:induction false} TrimStartSkips(s: string, i: nat)
    requires i <= |s| && AllWhitespace(s[..i])
    ensures TrimStart(s) == TrimStart(s[i..])
  {
    if i > 0 {
      assert IsWhitespace(s[..i][0]);
      assert s[1..][..i - 1] == s[1..i];
      assert s[1..i] == s[..i][1..];
      TrimStartSkips(s[1..], i - 1);
      assert s[1..][i - 1..] == s[i..];
    }
  }

  lemma {:induction false} TrimEndSkips(s: string, j: nat)
    requires j <= |s| && AllWhitespace(s[j..])
    ensures TrimEnd(s) == TrimEnd(s[..j])
  {
    if j < |s| {
      assert IsWhitespace(s[j..][|s| - 1 - j]);
      assert IsWhitespace(s[|s| - 1]);
      var s' := s[..|s| - 1];
      assert TrimEnd(s) == TrimEnd(s');
      assert s'[j..] == s[j..][..|s| - 1 - j];
      TrimEndSkips(s', j);
      assert s'[..j] == s[..j];
    } else {
      assert s[..j] == s;
    }
  }

  lemma {:induction false} TrimStartAllWhitespace(s: string)
    requires AllWhitespace(s)
    ensures TrimStart(s) == []
  {
    if |s| > 0 {
      assert AllWhitespace(s[1..]) by {
        forall i | 0 <= i < |s| - 1 ensures IsWhitespace(s[1..][i]) { assert s[1..][i] == s[i + 1]; }
      }
      TrimStartAllWhitespace(s[1..]);
    }
  }

  /** `Trim(s)` is the unique middle slice `s[i..j]` left once the
      whitespace-only ends are cut off and whose own ends are not whitespace. */
  lemma TrimIsMiddleSlice(s: string, i: nat, j: nat)
    requires i <= j <= |s|
    requires AllWhitespace(s[..i]) && AllWhitespace(s[j..])
    requires Trimmed(s[i..j])
    ensures Trim(s) == s[i..j]
  {
    TrimStartSkips(s, i);
    if i == j {
      assert AllWhitespace(s[i..]) by {
        forall k | 0 <= k < |s| - i ensures IsWhitespace(s[i..][k]) { assert s[i..][k] == s[j..][k]; }
      }
      TrimStartAllWhitespace(s[i..]);
    } else {
      assert TrimStart(s[i..]) == s[i..];
      var t := s[i..];
      assert t[j - i..] == s[j..];
      TrimEndSkips(t, j - i);
      assert t[..j - i] == s[i..j];
    }
  }

  /** Every string has such a slice: what `trim` returns is a slice of its
      input with whitespace-only ends and no whitespace at its own ends. */
  lemma {:induction false} TrimShape(s: string) returns (i: nat, j: nat)
    ensures i <= j <= |s| && AllWhitespace(s[..i]) && AllWhitespace(s[j..])
    ensures Trimmed(s[i..j]) && Trim(s) == s[i..j]
  {
    i := 0;
    while i < |s| && IsWhitespace(s[i])
      invariant i <= |s| && AllWhitespace(s[..i])
    {
      i := i + 1;
    }
    j := |s|;
    while j > i && IsWhitespace(s[j - 1])
      invariant i <= j <= |s| && AllWhitespace(s[j..])
    {
      j := j - 1;
    }
    TrimIsMiddleSlice(s, i, j);
  }

  /** `trim` leaves no whitespace at either end. */
  lemma TrimIsTrimmed(s: string)
    ensures Trimmed(Trim(s))
  {
    var i, j := TrimShape(s);
  }

  /** `trim` only removes characters. */
  lemma TrimKeepsCharacters(s: string)
    ensures forall c :: c in Trim(s) ==> c in s
  {
    var i, j := TrimShape(s);
    forall c | c in Trim(s) ensures c in s {
      var k :| 0 <= k < j - i && s[i..j][k] == c;
      assert s[i + k] == c;
    }
  }

  /** `trim` is idempotent. */
  lemma TrimIdempotent(s: string)
    ensures Trim(Trim(s)) == Trim(s)
  {
    var i, j := TrimShape(s);
    var t := s[i..j];
    assert t[..0] == [] && t[|t|..] == [] && t[0..|t|] == t;
    TrimIsMiddleSlice(t, 0, |t|);
  }

  /** `trim_newline`: pops each trailing `\n` (and a `\r` just before it),
      then trims. The popping loop is subsumed by the trim, so the result is
      exactly `Trim` of the input. */
  method TrimNewline(s0: string) returns (r: string)
    ensures r == Trim(s0)
    ensures Trimmed(r)
  {
    var n: nat := |s0|;
    while n > 0 && s0[n - 1] == '\n'
      invariant n <= |s0|
      invariant forall k :: n <= k < |s0| ==> IsWhitespace(s0[k])
    {
      n := n - 1;
      if n > 0 && s0[n - 1] == '\r' {
        n := n - 1;
      }
    }
    var i := 0;
    while i < n && IsWhitespace(s0[i])
      invariant i <= n
      invariant forall k :: 0 <= k < i ==> IsWhitespace(s0[k])
    {
      i := i + 1;
    }
    var j := n;
    while j > i && IsWhitespace(s0[j - 1])
      invariant i <= j <= n
      invariant forall k :: j <= k < |s0| ==> IsWhitespace(s0[k])
    {
      j := j - 1;
    }
    r := s0[i..j];
    assert AllWhitespace(s0[..i]) by {
      forall k | 0 <= k < i ensures IsWhitespace(s0[..i][k]) {
        assert s0[..i][k] == s0[k];
      }
    }
    assert AllWhitespace(s0[j..]) by {
      forall k | 0 <= k < |s0| - j ensures IsWhitespace(s0[j..][k]) {
        assert s0[j..][k] == s0[j + k];
      }
    }
    TrimIsMiddleSlice(s0, i, j);
  }

  // ---------------------------------------------------------------------
  // name_to_dir

  predicate IsSeparator(c: char) {
    c == '/' || c == '\\'
  }

  /** `name.replace(&['/', '\\'], "-")`, scanning left to right. */
  function ReplaceSeparators(s: string): string {
    if s == [] then []
    else (if IsSeparator(s[0]) then "-" else [s[0]]) + ReplaceSeparators(s[1..])
  }

  /** Each separator becomes exactly one `-`; every other character stays in
      its place. */
  lemma {:induction false} ReplaceSeparatorsAt(s: string)
    ensures |ReplaceSeparators(s)| == |s|
    ensures forall i :: 0 <= i < |s| ==>
      ReplaceSeparators(s)[i] == (if IsSeparator(s[i]) then '-' else s[i])
  {
    if s != [] {
      ReplaceSeparatorsAt(s[1..]);
      var head := if IsSeparator(s[0]) then "-" else [s[0]];
      assert ReplaceSeparators(s) == head + ReplaceSeparators(s[1..]);
      forall i | 1 <= i < |s|
        ensures ReplaceSeparators(s)[i] == (if IsSeparator(s[i]) then '-' else s[i])
      {
        assert ReplaceSeparators(s)[i] == ReplaceSeparators(s[1..])[i - 1];
        assert s[1..][i - 1] == s[i];
      }
    }
  }

  /** `Endpoint::name_to_dir`: the handle flattened into one directory name. */
  function NameToDir(name: string): (r: string)
    ensures forall c :: c in r ==> !IsSeparator(c)
    ensures Trimmed(r)
  {
    ReplaceSeparatorsAt(name);
    TrimKeepsCharacters(ReplaceSeparators(name));
    TrimIsTrimmed(ReplaceSeparators(name));
    Trim(ReplaceSeparators(name))
  }

  /** Before trimming, `name_to_dir` is the pointwise replacement; the trim
      then only cuts whitespace from its ends. */
  lemma NameToDirIsTrimmedReplacement(name: string)
    ensures NameToDir(name) == Trim(ReplaceSeparators(name))
    ensures |ReplaceSeparators(name)| == |name|
    ensures forall i :: 0 <= i < |name| ==>
      ReplaceSeparators(name)[i] == (if IsSeparator(name[i]) then '-' else name[i])
  {
    ReplaceSeparatorsAt(name);
  }

  // ---------------------------------------------------------------------
  // dir and parent

  /** `Path::join` of one component without a separator (a flattened
      name): an empty component or `.` adds no component (it only adds a
      trailing separator, which `components()` ignores). */
  function Join(p: Path, c: string): (r: Path)
    requires forall ch :: ch in c ==> !IsSeparator(ch)
    ensures c != "" && c != "." ==> r == p + [c]
    ensures c == "" || c == "." ==> r == p
  {
    if c == "" || c == "." then p else p + [c]
  }

  /** `PathBuf::pop`: drops the last component; does nothing at the root. */
  function Pop(p: Path): (r: Path)
    ensures p != [] ==> r == p[..|p| - 1]
    ensures p == [] ==> r == []
  {
    if p == [] then [] else p[..|p| - 1]
  }

  /** `.quartz/endpoints` */
  function EndpointsRoot(): Path {
    [".quartz", "endpoints"]
  }

  /** The directory holding the endpoint that has this name. */
  function DirOf(name: string): Path {
    Join(EndpointsRoot(), NameToDir(name))
  }

  /** `Endpoint::dir` */
  function Dir(e: Endpoint): Path {
    DirOf(e.name)
  }

  /** The directory is `.quartz/endpoints/<name_to_dir(name)>`, a flat name
      with no separator in it (unless the flattened name is empty or `.`). */
  lemma DirShape(e: Endpoint)
    ensures NameToDir(e.name) != "" && NameToDir(e.name) != "." ==>
      Dir(e) == [".quartz", "endpoints", NameToDir(e.name)]
    ensures NameToDir(e.name) == "" || NameToDir(e.name) == "." ==> Dir(e) == [".quartz", "endpoints"]
    ensures forall c, ch :: c in Dir(e) && ch in c ==> !IsSeparator(ch)
  {
  }

  /** The directory `parent()` reads: `dir()` with two components popped. */
  function ParentDir(e: Endpoint): Path {
    Pop(Pop(Dir(e)))
  }

  /** `Endpoint::parent`: the endpoint stored two components above `dir()`,
      if one can be read there. */
  function Parent(saved: map<Path, Endpoint>, e: Endpoint): (r: Option<Endpoint>)
    ensures r.Some? <==> ParentDir(e) in saved
    ensures r.Some? ==> r.value == saved[ParentDir(e)]
  {
    if ParentDir(e) in saved then Some(saved[ParentDir(e)]) else None
  }

  /** Since `dir()` is flat, `parent()` looks at `.quartz` itself for every
      ordinary name, and at the working directory when the name flattens to
      nothing: it never reaches another endpoint's directory. */
  lemma ParentIsQuartzRoot(e: Endpoint)
    ensures NameToDir(e.name) != "" && NameToDir(e.name) != "." ==> ParentDir(e) == [".quartz"]
    ensures NameToDir(e.name) == "" || NameToDir(e.name) == "." ==> ParentDir(e) == []
  {
  }

  // ---------------------------------------------------------------------
  // new and Default

  /** `Default for Endpoint` */
  function Default(): (r: Endpoint)
    ensures r.httpMethod == "GET"
    ensures r.name == "" && r.url == "" && r.headers == map[] && r.query == map[]
  {
    Endpoint("", "", "GET", map[], map[])
  }

  /** `Endpoint::new`: the default endpoint under the trimmed name. */
  function New(name: string): (r: Endpoint)
    ensures r.httpMethod == "GET" && r.url == "" && r.headers == map[] && r.query == map[]
    ensures r.name == Trim(name) && Trimmed(r.name)
  {
    TrimIsTrimmed(name);
    Endpoint(Trim(name), "", "GET", map[], map[])
  }

  /** `new` is `Default` with only the name replaced, and creating an
      endpoint from an already normalised name keeps that name. */
  lemma NewIsDefaultWithName(name: string)
    ensures New(name) == Default().(name := Trim(name))
    ensures New(New(name).name) == New(name)
  {
    TrimIdempotent(name);
  }

  // ---------------------------------------------------------------------
  // children

  /** The endpoints `children()` collects from directory `d`: the entries,
      in listing order, that hold a readable endpoint. */
  function Readable(saved: map<Path, Endpoint>, d: Path, names: seq<string>): (r: seq<Endpoint>)
    ensures |r| <= |names|
  {
    if names == [] then []
    else
      var init := Readable(saved, d, names[..|names| - 1]);
      var p := d + [names[|names| - 1]];
      if p in saved then init + [saved[p]] else init
  }

  /** An endpoint is collected exactly when it is stored under a listed
      entry name. */
  lemma {:induction false} ReadableMembers(saved: map<Path, Endpoint>, d: Path, names: seq<string>, x: Endpoint)
    ensures x in Readable(saved, d, names) <==> exists n :: n in names && d + [n] in saved && saved[d + [n]] == x
  {
    if names != [] {
      var init := names[..|names| - 1];
      ReadableMembers(saved, d, init, x);
      if exists n :: n in names && d + [n] in saved && saved[d + [n]] == x {
        var n :| n in names && d + [n] in saved && saved[d + [n]] == x;
        if n != names[|names| - 1] {
          assert n in init;
        }
      }
      assert forall n :: n in init ==> n in names;
    }
  }

  /** `Endpoint::children`: reads `dir()/endpoints` and keeps each entry
      from which an endpoint can be read. `listing` gives each directory's
      entry names in `read_dir` order; a directory it lacks cannot be read. */
  method Children(saved: map<Path, Endpoint>, listing: map<Path, seq<string>>, e: Endpoint)
    returns (list: seq<Endpoint>)
    ensures Dir(e) + ["endpoints"] !in listing ==> list == []
    ensures Dir(e) + ["endpoints"] in listing ==>
      list == Readable(saved, Dir(e) + ["endpoints"], listing[Dir(e) + ["endpoints"]])
  {
    list := [];
    var d := Dir(e) + ["endpoints"];
    if d in listing {
      var names := listing[d];
      var i := 0;
      while i < |names|
        invariant i <= |names|
        invariant list == Readable(saved, d, names[..i])
      {
        assert names[..i + 1][..i] == names[..i];
        var path := d + [names[i]];
        if path in saved {
          list := list + [saved[path]];
        }
        i := i + 1;
      }
      assert names[..i] == names;
    }
  }

  // ---------------------------------------------------------------------
  // as_request

  /** Validity checks of the HTTP library whose code is not part of this
      model: `Uri` parsing, `HeaderName` and `HeaderValue`. */
  datatype HttpSyntax = HttpSyntax(
    validUri: string -> bool,
    validHeaderName: string -> bool,
    validHeaderValue: string -> bool)

  /** A `tchar` of section 5.6.2 of RFC 9110. */
  predicate IsTchar(c: char) {
    ('a' <= c <= 'z') || ('A' <= c <= 'Z') || ('0' <= c <= '9')
    || c in "!#$%&'*+-.^_`|~"
  }

  /** What `Method::from_bytes` accepts: a non-empty token. */
  predicate IsMethodToken(m: string) {
    |m| > 0 && forall i :: 0 <= i < |m| ==> IsTchar(m[i])
  }

  /** A built request, without its body. */
  datatype Request = Request(uri: string, httpMethod: string, headers: StrMap)

  datatype RequestError = InvalidUri | InvalidHeader

  predicate HeaderValid(syntax: HttpSyntax, k: string, v: string) {
    syntax.validHeaderName(k) && syntax.validHeaderValue(v)
  }

  predicate AllHeadersValid(syntax: HttpSyntax, headers: StrMap) {
    forall k :: k in headers ==> HeaderValid(syntax, k, headers[k])
  }

  /** The request `as_request` builds, as a value. */
  function RequestOf(syntax: HttpSyntax, e: Endpoint): Result<Request, RequestError> {
    if !syntax.validUri(e.url) then Err(InvalidUri)
    else if !AllHeadersValid(syntax, e.headers) then Err(InvalidHeader)
    else Ok(Request(e.url, if IsMethodToken(e.httpMethod) then e.httpMethod else "GET", e.headers))
  }

  /** `Endpoint::as_request`: sets the URI; sets the method only when it
      parses (otherwise the builder's `GET` stays); adds every header; fails
      when the URI or any header is invalid. */
  method AsRequest(syntax: HttpSyntax, e: Endpoint) returns (r: Result<Request, RequestError>)
    ensures r == RequestOf(syntax, e)
    ensures r.Ok? <==> syntax.validUri(e.url) && AllHeadersValid(syntax, e.headers)
    ensures !syntax.validUri(e.url) ==> r == Err(InvalidUri)
    ensures r.Ok? ==> r.value.uri == e.url && r.value.headers == e.headers
    ensures r.Ok? ==> r.value.httpMethod == (if IsMethodToken(e.httpMethod) then e.httpMethod else "GET")
  {
    var uriOk := syntax.validUri(e.url);
    var m := "GET";
    if IsMethodToken(e.httpMethod) {
      m := e.httpMethod;
    }
    var headersOk := true;
    var added: StrMap := map[];
    var todo := e.headers.Keys;
    while todo != {}
      invariant todo <= e.headers.Keys
      invariant added.Keys == e.headers.Keys - todo
      invariant forall k :: k in added ==> added[k] == e.headers[k]
      invariant headersOk <==> forall k :: k in added ==> HeaderValid(syntax, k, added[k])
      decreases todo
    {
      var k :| k in todo;
      if !HeaderValid(syntax, k, e.headers[k]) {
        headersOk := false;
      }
      added := added[k := e.headers[k]];
      todo := todo - {k};
    }
    assert added == e.headers;
    if !uriOk {
      r := Err(InvalidUri);
    } else if !headersOk {
      r := Err(InvalidHeader);
    } else {
      r := Ok(Request(e.url, m, added));
    }
  }

  // ---------------------------------------------------------------------
  // the stored endpoints and the one in use

  datatype StoreError = NoEndpointInUse | EndpointNotFound | AlreadyExists | NoParentDirectory

  /** The endpoint configurations on disk, keyed by directory, the
      directories that exist (with or without a configuration in them), and
      the state field naming the endpoint in use. `persisted` records every
      write of a configuration, in order. */
  class EndpointStore {
    var saved: map<Path, Endpoint>
    var dirs: set<Path>
    var current: Option<string>
    ghost var persisted: seq<Endpoint>

    constructor (saved: map<Path, Endpoint>, dirs: set<Path>, current: Option<string>)
      ensures this.saved == saved && this.dirs == dirs && this.current == current && persisted == []
    {
      this.saved := saved;
      this.dirs := dirs;
      this.current := current;
      persisted := [];
    }

    /** The endpoint in use (`require_endpoint`): fails when none is in use
        or when its directory holds no readable configuration. */
    function RequireEndpoint(): (r: Result<Endpoint, StoreError>)
      reads this
      ensures current.None? ==> r == Err(NoEndpointInUse)
      ensures current.Some? ==> (r.Ok? <==> DirOf(current.value) in saved)
      ensures r.Ok? ==> r.value == saved[DirOf(current.value)]
    {
      match current
      case None => Err(NoEndpointInUse)
      case Some(name) =>
        if DirOf(name) in saved then Ok(saved[DirOf(name)]) else Err(EndpointNotFound)
    }

    /** Persists `e` in its own directory, replacing what was there. */
    method Save(e: Endpoint)
      modifies this
      ensures saved == old(saved)[Dir(e) := e] && dirs == old(dirs) + {Dir(e)} && current == old(current)
      ensures persisted == old(persisted) + [e]
    {
      saved := saved[Dir(e) := e];
      dirs := dirs + {Dir(e)};
      persisted := persisted + [e];
    }

    /** `Endpoint::write`: `create_dir` fails when the directory already
        exists (even one left without a configuration, or the endpoints
        directory itself for a name that flattens to nothing) and when its
        parent is missing; otherwise the directory is created and the
        configuration written into it. */
    method Write(e: Endpoint) returns (r: Result<(), StoreError>)
      modifies this
      ensures r.Ok? <==> Dir(e) !in old(dirs) && Pop(Dir(e)) in old(dirs)
      ensures r.Ok? ==> saved == old(saved)[Dir(e) := e] && dirs == old(dirs) + {Dir(e)}
      ensures r.Ok? ==> persisted == old(persisted) + [e]
      ensures r.Err? ==> saved == old(saved) && dirs == old(dirs) && persisted == old(persisted)
      ensures current == old(current)
    {
      if Dir(e) in dirs {
        r := Err(AlreadyExists);
      } else if Pop(Dir(e)) !in dirs {
        r := Err(NoParentDirectory);
      } else {
        Save(e);
        r := Ok(());
      }
    }

    /** `Endpoint::update`: opening the configuration without `create`
        fails when there is none; otherwise it is overwritten. */
    method Update(e: Endpoint) returns (r: Result<(), StoreError>)
      modifies this
      ensures r.Ok? <==> Dir(e) in old(saved)
      ensures r.Ok? ==> saved == old(saved)[Dir(e) := e] && dirs == old(dirs) + {Dir(e)}
      ensures r.Ok? ==> persisted == old(persisted) + [e]
      ensures r.Err? ==> saved == old(saved) && dirs == old(dirs) && persisted == old(persisted)
      ensures current == old(current)
    {
      if Dir(e) !in saved {
        r := Err(EndpointNotFound);
      } else {
        Save(e);
        r := Ok(());
      }
    }
  }
}
