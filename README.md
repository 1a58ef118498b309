# quartz: endpoints, environments, send and history in Dafny

quartz is a command-line API client. It keeps reusable HTTP request definitions ("endpoints") under `.quartz/endpoints` and named environments (variables and headers) beside them. It sends the endpoint in use, following redirects and collecting cookies, and keeps a history of requests, one file per timestamp.

This project models the core of the program and proves properties of it:

- **Endpoints** (`src/endpoint.rs`):
  - the trimming of names (`trim_newline`);
  - the flattening of a name into a directory (`name_to_dir`, `dir`), and `parent`, `children`, `new` and `Default`;
  - `as_request`;
  - `write` and `update` on a store of configurations keyed by directory.
- **Send** (`src/action/send.rs`):
  - the default `user-agent`;
  - the `--cookie` arguments and the `Cookie` header built from the jar and those arguments;
  - the environment headers filled into each request;
  - the `Set-Cookie` capture;
  - the redirect loop with its `Location` rewrite;
  - the jar write at the end.
- **Environments** (`src/action/env.rs`): `create`, `cp`, `use`, `ls`, `rm`, and `header set`/`header rm`/`header get`, over a store of environments and the state field naming the one in use.
- **History** (`src/history.rs`):
  - the decimal file names of timestamps;
  - `RequestHistory::new`, which parses and sorts them, and `next`, which pops the most recent unvisited one;
  - the `RequestHistoryEntry` builder, `file_path`, `from_timestemp` and `write`.
- **Query and header commands** (`src/action/query.rs`, `src/action/header.rs`): `get`, `set` and `rm` on the endpoint in use, including the exit code of `query rm`.

### How the code is modelled

- **Imperative code stays imperative.** Stores and the history iterator are classes whose methods update their fields. Loops are `while` loops with invariants. The methods that compute a result (`as_request`, the `send` loop and its header fill-in, `trim_newline`, `children`, the history parse and sort) are proved equal to a specification function, and the properties are proved as lemmas about that function. The methods that change a store state the whole new store in their contracts.
- **Panics and `?` errors are results.** Each becomes an `Err` of a `Result`.
- **Code outside this model is passed in as a parameter.** This covers:
  - `Uri` parsing, `HeaderName`/`HeaderValue` validation and the network;
  - the check `Uri::builder` makes of a path, and the part of the path it keeps. `Send.KeepsPathAndQuery` states that it keeps everything before the first `#`, as the `http` crate does, and the redirect lemmas assume it;
  - `Endpoint::full_url`;
  - the patch plus `apply_env` step.

  Each is a total function given as a parameter. They are the `HttpSyntax` and `World` datatypes.
- **The environment cookie jar is a log.** The jar's own semantics are not shown in the source. The model records the jar's initial cookies and the `set` calls made on it.

### Where the model departs from the source

- **The redirect loop has no bound.** In the source, a redirection whose `Location` is missing or does not parse leaves the URL as it was, and the same request is sent again, without end. The model follows the code: `Send.StuckRedirectNeverCompletes` shows such a loop never completes, whatever budget it is given. The design description says instead that such a redirect ends the loop with the current response.
- **The files come from different revisions.** `src/action/query.rs` reads `endpoint.query`, which `src/endpoint.rs` does not declare, so the model's `Endpoint` carries a `query` map. In `src/endpoint.rs`, `write` refuses an existing directory, with or without a configuration in it, and a missing parent directory (`Endpoints.EndpointStore.Write`). The store therefore tracks which directories exist as well as which configurations are stored. The query and header commands nevertheless call `write()` on an existing endpoint and expect it to be saved. They are modelled with their own revision's meaning: an overwrite (`Endpoints.EndpointStore.Save`).
- **`parent()` never reaches another endpoint.** `dir()` is `.quartz/endpoints/<flat name>`, so the two pops in `parent()` always land on `.quartz`, or on the working directory when the name flattens to nothing or to `.` (`Endpoints.ParentIsQuartzRoot`).

## Model

| member | source | states |
|---|---|---|
| PairMaps.SetAllLastWins | src/action/query.rs:30-32 | after `set` on each input in order, a key some input names holds the value of the last such input; every other key keeps its entry or stays absent |
| PairMaps.SetAllKeys | src/action/header.rs:28-30 | the keys after the inputs are set are the old keys plus the input keys |
| Endpoints.TrimNewline | src/endpoint.rs:199-213 | `trim_newline` (the trailing-newline popping loop, then `trim`) equals `trim` of the input, with no whitespace at either end |
| Endpoints.TrimShape | src/endpoint.rs:212 | `trim` returns a slice of its input whose cut-off ends are all whitespace and whose own ends are not |
| Endpoints.TrimIsTrimmed | src/endpoint.rs:212 | the result of `trim` has no whitespace at either end |
| Endpoints.TrimKeepsCharacters | src/endpoint.rs:212 | `trim` only removes characters |
| Endpoints.TrimIdempotent | src/endpoint.rs:212 | `trim` applied twice equals `trim` applied once |
| Endpoints.ReplaceSeparatorsAt | src/endpoint.rs:59 | replacing `/` and `\` with `-` keeps the length, and each separator becomes `-` while every other character stays in place |
| Endpoints.NameToDir | src/endpoint.rs:58-60 | a flattened name contains no `/` or `\` and has no whitespace at either end |
| Endpoints.NameToDirIsTrimmedReplacement | src/endpoint.rs:58-60 | `name_to_dir` is the trim of the pointwise separator replacement |
| Endpoints.Join | src/endpoint.rs:86 | `Path::join` of a name without a separator (every flattened name) adds one component, except for an empty name or `.`, which add none |
| Endpoints.Pop | src/endpoint.rs:96-97 | `pop` drops the last component and leaves the root alone |
| Endpoints.DirShape | src/endpoint.rs:83-87 | `dir()` is `.quartz/endpoints/<name_to_dir(name)>` (only `.quartz/endpoints` when that name is empty or `.`), and no component holds a separator |
| Endpoints.Parent | src/endpoint.rs:93-104 | `parent()` yields the endpoint stored two components above `dir()` exactly when one is stored there |
| Endpoints.ParentIsQuartzRoot | src/endpoint.rs:93-97 | the directory `parent()` reads is `.quartz` for every name that flattens to something other than empty or `.`, and the working directory otherwise |
| Endpoints.Default | src/endpoint.rs:187-197 | the default endpoint has method `GET` and an empty name, URL, header map and query map |
| Endpoints.New | src/endpoint.rs:25-33 | `new` gives a `GET` endpoint with empty URL, headers and query, under the trimmed name, which has no whitespace at either end |
| Endpoints.NewIsDefaultWithName | src/endpoint.rs:25-33 | `new(name)` is `Default` with only the name replaced by its trim, and `new` of an already normalised name keeps it |
| Endpoints.ReadableMembers | src/endpoint.rs:106-120 | an endpoint is collected by `children()` exactly when it is stored under one of the listed entry names |
| Endpoints.Children | src/endpoint.rs:106-120 | `children()` gives, in listing order, the readable endpoints under `dir()/endpoints`, and nothing when that directory cannot be read |
| Endpoints.AsRequest | src/endpoint.rs:154-171 | the request builds exactly when the URI and every header are valid, and an invalid URI is reported as such; it carries the endpoint's URI and headers, and its method is the endpoint's when that is an HTTP token, `GET` otherwise |
| Endpoints.EndpointStore.RequireEndpoint | src/endpoint.rs:35-56 | the endpoint in use is found exactly when the state names one whose directory holds a configuration; with no name in the state it fails as "no endpoint in use" |
| Endpoints.EndpointStore.Save | src/action/query.rs:34 | saving stores the endpoint under its own directory, replacing what was there, and changes nothing else |
| Endpoints.EndpointStore.Write | src/endpoint.rs:123-136 | `write` succeeds exactly when the endpoint's directory does not exist yet and its parent does; it then creates the directory and stores the configuration. Otherwise nothing changes, so a name that flattens to nothing (whose directory is `.quartz/endpoints` itself) and a directory left without a configuration are both refused |
| Endpoints.EndpointStore.Update | src/endpoint.rs:140-151 | `update` succeeds exactly when a configuration already exists, and then overwrites it; otherwise nothing changes |
| Query.Get | src/action/query.rs:16-25 | gives the parameter's value exactly when the key is present; otherwise fails naming the key, or fails when no endpoint is in use |
| Query.Set | src/action/query.rs:27-35 | the query map becomes the inputs applied in order, and the endpoint is written once |
| Query.Rm | src/action/query.rs:37-53 | removes the listed keys and always writes the endpoint; the exit code is an error exactly when some key was missing at its turn |
| Query.RmCodeDistinct | src/action/query.rs:38-49 | with no key listed twice, `rm` exits with an error exactly when some listed key was not a parameter |
| Query.RmDuplicateReportsError | src/action/query.rs:41-49 | a present key listed twice is removed once, and the second turn makes `rm` exit with an error |
| Header.Get | src/action/header.rs:16-23 | gives the header's value exactly when present; otherwise fails naming the key |
| Header.Set | src/action/header.rs:25-33 | the header map becomes the inputs applied in order, and the endpoint is written once |
| Header.Rm | src/action/header.rs:35-43 | the listed headers are removed (missing ones ignored), and the endpoint is written once |
| Environments.EnvStore.CurrentName | src/action/env.rs:113-116 | the environment in use is the state field's value, or `default` when it is unset |
| Environments.EnvStore.RequireEnv | src/action/env.rs:150 | the environment in use is found exactly when it is stored |
| Environments.EnvStore.Create | src/action/env.rs:49-59 | creating fails exactly when the environment exists; otherwise it stores an empty environment |
| Environments.EnvStore.Cp | src/action/env.rs:61-78 | every source variable ends up in the destination with the source value; destination-only variables and the destination's headers are kept; a missing destination is created; a missing source fails and changes nothing |
| Environments.EnvStore.Switch | src/action/env.rs:80-105 | an existing environment, or a missing one the user confirms (it is then created and written once), becomes the one in use; declining leaves the state and sets the failure exit code; nothing else is written |
| Environments.EnvStore.Ls | src/action/env.rs:107-125 | one line per directory entry, in order, with the mark exactly on the environment in use; nothing when the directory cannot be read |
| Environments.EnvStore.Rm | src/action/env.rs:127-139 | removing fails exactly when the environment does not exist; otherwise it is removed |
| Environments.EnvStore.HeaderSet | src/action/env.rs:149-156 | the headers of the environment in use become the inputs applied in order, written once |
| Environments.EnvStore.HeaderRm | src/action/env.rs:162-169 | the listed headers are removed, with one write per key; it fails exactly when a key is given and the environment in use is missing; with no key nothing is read or written |
| Environments.EnvStore.HeaderGet | src/action/env.rs:170-178 | gives the header's value exactly when present in the environment in use |
| History.ToDecimal | src/history.rs:125 | `u64::to_string` is a non-empty string of digits without a leading zero |
| History.ParseDecimal | src/history.rs:124-126 | the name `file_path` gives a timestamp parses back to that timestamp |
| History.DecimalInjective | src/history.rs:124-126 | distinct timestamps have distinct file names |
| History.NonCanonicalNamesCollide | src/history.rs:34 | `01` and `+1` parse to the same timestamp as `1`; an empty name, `+` and `-1` do not parse |
| History.EntryPathKeying | src/history.rs:124-126 | each timestamp's file is `.quartz/user/history/<decimal>`, whose name parses back to it, and distinct timestamps have distinct files |
| History.FromTimestamp | src/history.rs:74-88 | an entry is read exactly when the timestamp's file holds one, and it is the stored record |
| History.WriteThenRead | src/history.rs:129-139 | reading the timestamp just written gives the written entry back, and every other timestamp reads as before |
| History.ReadTimestamps | src/history.rs:29-37 | reading fails when the directory cannot be read or some name is not a decimal `u64`; otherwise it gives each name's value, in listing order |
| History.InsertSorted | src/history.rs:39 | inserting into an ascending sequence keeps it ascending and adds exactly that element |
| History.SortAscendingCorrect | src/history.rs:39 | sorting gives an ascending permutation of its input |
| History.ReversedAscendingDescends | src/history.rs:48-53 | an ascending sequence read backwards descends, and strictly when its elements are distinct |
| History.RequestHistory.constructor | src/history.rs:39-45 | the timestamps are the sorted input, ascending and a permutation of it, and all are unvisited |
| History.RequestHistory.Next | src/history.rs:48-53 | `next` pops the largest unvisited timestamp and reads its entry, keeping the invariant; with none left it returns `None` and changes nothing |
| History.VisitOrder | src/history.rs:48-53 | what `next` has handed out descends (strictly when the timestamps are distinct), and together with what is left it is exactly the timestamps |
| History.CanonicalNamesDistinct | src/history.rs:29-37 | when the listed names are distinct and each is what `to_string` prints, the parsed timestamps are distinct and each one's entry file is the very name listed |
| History.DecimalOfDigits | src/history.rs:125 | printing the value of a digit string without a leading zero gives the string back |
| History.SortedDistinct | src/history.rs:39 | sorting timestamps without repeats gives ones without repeats, so `next` then hands them out in strictly descending order |
| History.NewHistory | src/history.rs:29-46 | `new` succeeds exactly when the directory is readable and every name is a decimal `u64`; the iterator then holds those timestamps sorted, none visited |
| History.RequestHistoryEntry.constructor | src/history.rs:61-72 | a new entry is the default one stamped with the clock in milliseconds, cut to 64 bits |
| History.RequestHistoryEntry.SetPath | src/history.rs:100-104 | sets the path and nothing else |
| History.RequestHistoryEntry.SetEndpoint | src/history.rs:106-110 | sets the endpoint and nothing else |
| History.RequestHistoryEntry.SetContext | src/history.rs:112-116 | sets the context and nothing else |
| History.RequestHistoryEntry.SetDuration | src/history.rs:118-122 | sets the duration and nothing else |
| History.RequestHistoryEntry.FilePath | src/history.rs:124-126 | the file path's last component parses back to the entry's time |
| History.RequestHistoryEntry.Write | src/history.rs:129-139 | the entry is stored at its file path, and reading its timestamp gives it back |
| Send.WithUserAgent | src/action/send.rs:46-50 | `user-agent` is inserted only when absent; no existing header is changed |
| Send.CookiePair | src/action/send.rs:73 | a cookie is written `name=value` |
| Send.CookiePairs | src/action/send.rs:67 | each jar cookie becomes its `name=value` pair, in order |
| Send.ExtrasFailFirst | src/action/send.rs:54-69 | the extra cookies fail exactly when some argument fails (a missing file or an unreadable jar), and with the error of the first such argument |
| Send.ExtrasLiteral | src/action/send.rs:55-57 | arguments that contain `=` are used verbatim |
| Send.ExtrasArePairs | src/action/send.rs:54-69 | every extra cookie contains `=` |
| Send.JoinAppend | src/action/send.rs:71-76 | joining two non-empty lists with `"; "` puts one separator between their joins |
| Send.JoinEmptyIff | src/action/send.rs:76-78 | a join of non-empty parts is empty exactly when there are no parts |
| Send.CookieValueOrder | src/action/send.rs:71-76 | the `Cookie` value lists the jar cookies first, then the extras |
| Send.CookieHeaderSetIff | src/action/send.rs:71-82 | the `Cookie` header is set exactly when there is a jar cookie or an extra cookie |
| Send.PreparedHeaders | src/action/send.rs:46-82 | before the patch, the headers have `user-agent`, and carry `Cookie` with the cookie value when that is non-empty; other headers are kept |
| Send.WithEnvHeaders | src/action/send.rs:102-107 | environment headers are added only for names the request lacks; request headers are never overridden |
| Send.FillEnvHeaders | src/action/send.rs:102-107 | the fill-in loop succeeds exactly when every added header is valid, and then gives the request headers plus the added environment headers |
| Send.CaptureCookie | src/action/send.rs:123-127 | a response without `Set-Cookie` leaves the jar alone; with one, a single `set` is recorded under the host of the URL just requested |
| Send.NextUrl | src/action/send.rs:133-148 | no `Location` keeps the URL; a `/` path keeps the previous scheme and authority, followed by what `PathAndQuery` keeps of the path; a parseable `Location` replaces the URL; an unparseable one keeps it |
| Send.WithoutFragmentPrefix | src/action/send.rs:142 | what `PathAndQuery` keeps is the longest prefix without `#`: the whole path when it has no `#` |
| Send.RelativeRedirectKeepsOrigin | src/action/send.rs:136-144 | a `/` path without `#` leads to the previous scheme and authority followed by that path |
| Send.RelativeRedirectDropsFragment | src/action/send.rs:136-144 | a `/` path followed by `#` and a fragment leads to the previous scheme and authority followed by the path alone |
| Send.RelativeRedirectExample | src/action/send.rs:136-144 | `Location: /next` after `https://host/prev` leads to `https://host/next` |
| Send.RedirectLoop | src/action/send.rs:96-149 | the loop ends exactly as `Run` describes: the same hops, outcome, jar and final URL |
| Send.StepTrace | src/action/send.rs:96-149 | one turn appends at most one hop, changes only the URL of the endpoint, goes round again only after a followed response, and never stops for want of budget |
| Send.StepCookies | src/action/send.rs:123-127 | a turn that does not fail made one hop, to the endpoint's URL, and records the `set` calls of that hop's response |
| Send.RunPrefix | src/action/send.rs:96-149 | a run only appends hops |
| Send.RunExtends | src/action/send.rs:96-149 | a run makes at most one hop per turn and changes nothing of the endpoint but its URL, so the `Cookie` header is not refreshed between hops; every hop sends the same headers |
| Send.RunFollowed | src/action/send.rs:129-131 | every hop but the last was a followed redirection; a run that spends its budget followed all of them |
| Send.RunCompleted | src/action/send.rs:129-131 | a completed run ends at its last hop's response, which is not followed: `--no-follow` or not a redirection |
| Send.RunCookies | src/action/send.rs:123-127 | a run that does not fail records, in hop order, one `set` per `Set-Cookie` response, under the host of the URL that response answered |
| Send.NoFollowSingleRequest | src/action/send.rs:129-131 | with `--no-follow` the loop sends at most one request and always stops |
| Send.StuckRedirectNeverCompletes | src/action/send.rs:133-148 | a followed redirection whose next URL is the same URL repeats the same request every turn and never completes |
| Send.MissingLocationNeverCompletes | src/action/send.rs:133-148 | a redirection without `Location` (and without `Set-Cookie`) never completes when redirects are followed |
| Send.Cmd | src/action/send.rs:39-154 | a failing `--cookie` argument stops the command; otherwise the prepared endpoint (variables set, default `user-agent`, `Cookie` header) runs through the loop; the jar is written, to `--cookie-jar` or the environment, exactly when the loop completes |

## Left out

- Network transport, TLS, draining the response body and writing it to standard output. The server is a function from the request sent to an optional response. `None` stands for a transport error.
- The request body (`body`, `body.json`), TOML serialisation, `config.toml` reads and writes, and `to_toml`. Stored endpoints, environments and history entries are maps keyed by path or name.
- `from_state`, `from_state_or_exit`, `from_dir` and `from_name`. They are reduced to the lookup `Endpoints.EndpointStore.RequireEndpoint`.
- `colored_method` and all coloured or printed output.
- `header ls`, `query ls`, `query print` and `env print` only print. `env print` prints the name `Environments.EnvStore.CurrentName` gives.
- `format_time` and the clocks. `RequestHistoryEntry::new` takes the wall clock in milliseconds as a parameter. The microsecond timestamp `send` stamps on its history entry is not modelled.
- The history entry that `send` builds and writes (`history::Entry`), including the request and response messages. That type is not part of this model.
- The `requests` field of `RequestHistory`. No shown code reads it.
- `PairMap::set` input parsing. Inputs arrive already split into key and value.
- `Env::new`, `Env::parse`, `exists`, `write` and `update`. Environments are a map by name.
- `Ctx`, `StateField` and the confirmation prompt. The user's answer is a parameter of `Switch`.
- `apply_env` and the `EndpointPatch` update. Both are inside the `World.prepare` function; no `{{VAR}}` substitution is modelled.
- The `CookieJar` file format, `CookieJar::read` and the jar's overwrite-by-domain-and-name rule. The jar is its starting cookies plus the log of `set` calls.
- `into_request` is not part of this model. It is taken to build the same request as `as_request`.
- Header names are kept as written. `HeaderName` lower-casing, and multi-valued headers from keys differing only in case, are not modelled. A response header is its first value under a lower-case name.
- Names that are not valid UTF-8 are not modelled, because names are strings. The source either panics on them or reads them as empty.
- Send.RedirectLoop: runs at most `fuel` turns, while the source loop has no bound. `OutOfFuel` stands for a loop that is still running.
- Send.Cmd: the resolution of the endpoint and environment in use is not modelled; they are its parameters.
- History.RequestHistoryEntry.Write: the stored entry is replaced by the new one. The source opens the file without truncating, so a shorter entry written over a longer file leaves the old tail behind.
- Endpoints.EndpointStore.Write: paths are compared component by component and are not resolved. A name that flattens to `..` gets the directory `.quartz/endpoints/..`, which on disk is `.quartz` itself; the model keys it separately.
- History.FromTimestamp: a history file that is not UTF-8 makes the source panic (`String::from_utf8(..).unwrap()`). The model reads a file as the stored record or as nothing, so this panic is not modelled.
- Endpoints.AsRequest: the body read from `body.json` and the `Request` builder's other checks are not modelled.
- Send.NextUrl: what `Uri::builder` keeps of a `/` path is the function `World.pathAndQuery`. That the cut is at the first `#` (`Send.KeepsPathAndQuery`) comes from the `http` crate, which is not part of this model; the lemmas about fragments assume it.
