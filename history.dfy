/** The request history of `src/history.rs`: entries stored one file per
    timestamp under `.quartz/user/history`, and the iterator that visits
    them most recent first. */
module History {
  import opened Wrappers
  import Endpoints

  type Path = seq<string>

  const U64Limit: nat := 0x1_0000_0000_0000_0000

  /** Rust's `u64`. */
  type U64 = n: nat | n < U64Limit

  /** The context snapshot an entry carries. The `Context` type is not part
      of this model; only its identity matters here. */
  type Context(==)

  /** The fields of a `RequestHistoryEntry`, as stored in its file. */
  datatype EntryRecord = EntryRecord(
    path: seq<string>,
    endpoint: Option<Endpoints.Endpoint>,
    context: Option<Context>,
    time: U64,
    duration: U64)

  /** `RequestHistory::dir` */
  function HistoryDir(): Path {
    [".quartz", "user", "history"]
  }

  // ---------------------------------------------------------------------
  // decimal text of timestamps: `u64::to_string` and `str::parse::<u64>`

  predicate IsDigit(c: char) {
    '0' <= c <= '9'
  }

  predicate AllDigits(s: string) {
    forall i :: 0 <= i < |s| ==> IsDigit(s[i])
  }

  function DigitChar(d: nat): char
    requires d < 10
  {
    ('0' as int + d) as char
  }

  /** The number a string of decimal digits denotes. */
  function DigitsValue(s: string): nat
    requires AllDigits(s)
  {
    if s == [] then 0
    else DigitsValue(s[..|s| - 1]) * 10 + (s[|s| - 1] as int - '0' as int)
  }

  /** `u64::to_string`: decimal, no sign, no leading zero. */
  function ToDecimal(n: nat): (r: string)
    ensures |r| > 0 && AllDigits(r)
    ensures r[0] == '0' ==> n == 0
  {
    if n < 10 then [DigitChar(n)] else ToDecimal(n / 10) + [DigitChar(n % 10)]
  }

  /** `str::parse::<u64>`: an optional `+`, then at least one decimal digit,
      with a value that fits in 64 bits. */
  function ParseU64(s: string): Option<U64> {
    var digits := if |s| > 0 && s[0] == '+' then s[1..] else s;
    if |digits| == 0 || !AllDigits(digits) then None
    else if DigitsValue(digits) < U64Limit then Some(DigitsValue(digits) as U64)
    else None
  }

  lemma {:induction false} DigitsOfDecimal(n: nat)
    ensures DigitsValue(ToDecimal(n)) == n
  {
    if n >= 10 {
      DigitsOfDecimal(n / 10);
      var s := ToDecimal(n);
      assert s[..|s| - 1] == ToDecimal(n / 10);
    }
  }

  /** The name `file_path` gives an entry parses back to its timestamp. */
  lemma ParseDecimal(n: U64)
    ensures ParseU64(ToDecimal(n)) == Some(n)
  {
    DigitsOfDecimal(n);
  }

  /** Distinct timestamps have distinct decimal names. */
  lemma DecimalInjective(a: U64, b: U64)
    requires ToDecimal(a) == ToDecimal(b)
    ensures a == b
  {
    ParseDecimal(a);
    ParseDecimal(b);
  }

  /** Names that are not what `to_string` prints can still parse: `01` and
      `+1` both name timestamp 1, which the entry file `1` also names. */
  lemma NonCanonicalNamesCollide()
    ensures ParseU64("01") == Some(1) && ParseU64("+1") == Some(1) && ParseU64("1") == Some(1)
    ensures ToDecimal(1) == "1"
    ensures ParseU64("") == None && ParseU64("+") == None && ParseU64("-1") == None
  {
    assert AllDigits("01") && AllDigits("1");
    assert "01"[..1] == "0";
    assert "+1"[1..] == "1";
    assert "1"[..0] == [];
    assert "0"[..0] == [];
  }

  // ---------------------------------------------------------------------
  // file_path, from_timestemp, write

  /** `RequestHistoryEntry::file_path` for an entry with timestamp `t`. */
  function EntryPath(t: U64): Path {
    HistoryDir() + [ToDecimal(t)]
  }

  /** Each timestamp has its own file, whose name parses back to it. */
  lemma EntryPathKeying(t: U64, u: U64)
    ensures |EntryPath(t)| == 4 && EntryPath(t)[..3] == HistoryDir()
    ensures ParseU64(EntryPath(t)[3]) == Some(t)
    ensures EntryPath(t) == EntryPath(u) ==> t == u
  {
    ParseDecimal(t);
    if EntryPath(t) == EntryPath(u) {
      assert EntryPath(t)[3] == EntryPath(u)[3];
      DecimalInjective(t, u);
    }
  }

  /** `RequestHistoryEntry::from_timestemp`: the record read from the file
      of `t`, exactly as stored there (its own `time` included), or `None`
      when that file cannot be read. */
  function FromTimestamp(files: map<Path, EntryRecord>, t: U64): (r: Option<EntryRecord>)
    ensures r.Some? <==> EntryPath(t) in files
    ensures r.Some? ==> r.value == files[EntryPath(t)]
  {
    if EntryPath(t) in files then Some(files[EntryPath(t)]) else None
  }

  /** `RequestHistoryEntry::write` as a change of the stored files. */
  function WriteEntry(files: map<Path, EntryRecord>, e: EntryRecord): map<Path, EntryRecord> {
    files[EntryPath(e.time) := e]
  }

  /** Reading the timestamp just written gives the written entry back, and
      every other timestamp reads as before. */
  lemma WriteThenRead(files: map<Path, EntryRecord>, e: EntryRecord, t: U64)
    ensures FromTimestamp(WriteEntry(files, e), e.time) == Some(e)
    ensures t != e.time ==> FromTimestamp(WriteEntry(files, e), t) == FromTimestamp(files, t)
  {
    EntryPathKeying(t, e.time);
  }

  // ---------------------------------------------------------------------
  // the timestamps `new` collects and sorts

  datatype HistoryError = CannotReadDir | NotATimestamp(name: string)

  /** The loop of `RequestHistory::new`: parses each entry name of the
      history directory; the first name that is not a decimal `u64` fails. */
  method ReadTimestamps(listing: Option<seq<string>>) returns (r: Result<seq<U64>, HistoryError>)
    ensures listing.None? ==> r == Err(CannotReadDir)
    ensures listing.Some? ==> (r.Ok? <==> forall i :: 0 <= i < |listing.value| ==> ParseU64(listing.value[i]).Some?)
    ensures r.Ok? ==> |r.value| == |listing.value|
    ensures r.Ok? ==> forall i :: 0 <= i < |r.value| ==> ParseU64(listing.value[i]) == Some(r.value[i])
  {
    if listing.None? {
      return Err(CannotReadDir);
    }
    var names := listing.value;
    var timestemps: seq<U64> := [];
    var i := 0;
    while i < |names|
      invariant i <= |names| && |timestemps| == i
      invariant forall j :: 0 <= j < i ==> ParseU64(names[j]) == Some(timestemps[j])
    {
      var parsed := ParseU64(names[i]);
      if parsed.None? {
        return Err(NotATimestamp(names[i]));
      }
      timestemps := timestemps + [parsed.value];
      i := i + 1;
    }
    r := Ok(timestemps);
  }

  predicate Ascending(s: seq<U64>) {
    forall i, j :: 0 <= i < j < |s| ==> s[i] <= s[j]
  }

  function Insert(x: U64, s: seq<U64>): seq<U64> {
    if s == [] || x <= s[0] then [x] + s else [s[0]] + Insert(x, s[1..])
  }

  /** `Vec::sort`, as insertion sort. */
  function SortAscending(s: seq<U64>): seq<U64> {
    if s == [] then [] else Insert(s[0], SortAscending(s[1..]))
  }

  lemma ConsAscending(a: U64, t: seq<U64>)
    requires Ascending(t) && forall k :: 0 <= k < |t| ==> a <= t[k]
    ensures Ascending([a] + t)
  {
    forall i, j | 0 <= i < j < |t| + 1 ensures ([a] + t)[i] <= ([a] + t)[j] {
      if i > 0 {
        assert ([a] + t)[i] == t[i - 1];
      }
      assert ([a] + t)[j] == t[j - 1];
    }
  }

  lemma {:induction false} InsertSorted(x: U64, s: seq<U64>)
    requires Ascending(s)
    ensures Ascending(Insert(x, s))
    ensures multiset(Insert(x, s)) == multiset(s) + multiset{x}
  {
    if s == [] || x <= s[0] {
      forall k | 0 <= k < |s| ensures x <= s[k] {
        assert s[0] <= s[k] || k == 0;
      }
      ConsAscending(x, s);
    } else {
      var tail := s[1..];
      assert s == [s[0]] + tail;
      assert Ascending(tail) by {
        forall i, j | 0 <= i < j < |tail| ensures tail[i] <= tail[j] {
          assert tail[i] == s[i + 1] && tail[j] == s[j + 1];
        }
      }
      InsertSorted(x, tail);
      var t := Insert(x, tail);
      forall k | 0 <= k < |t| ensures s[0] <= t[k] {
        assert t[k] in multiset(t);
        if t[k] != x {
          assert t[k] in multiset(tail);
          var m :| 0 <= m < |tail| && tail[m] == t[k];
          assert s[m + 1] == t[k];
        }
      }
      ConsAscending(s[0], t);
    }
  }

  /** Sorting gives an ascending permutation of its input. */
  lemma {:induction false} SortAscendingCorrect(s: seq<U64>)
    ensures Ascending(SortAscending(s))
    ensures multiset(SortAscending(s)) == multiset(s)
  {
    if s != [] {
      SortAscendingCorrect(s[1..]);
      InsertSorted(s[0], SortAscending(s[1..]));
      assert s == [s[0]] + s[1..];
    }
  }

  function Reversed(s: seq<U64>): (r: seq<U64>)
    ensures |r| == |s|
  {
    if s == [] then [] else Reversed(s[1..]) + [s[0]]
  }

  lemma {:induction false} ReversedAt(s: seq<U64>, k: nat)
    requires k < |s|
    ensures Reversed(s)[k] == s[|s| - 1 - k]
  {
    if k < |s| - 1 {
      ReversedAt(s[1..], k);
    }
  }

  /** Read backwards, an ascending sequence descends; it strictly descends
      when its elements are distinct. */
  lemma ReversedAscendingDescends(s: seq<U64>)
    requires Ascending(s)
    ensures forall i, j :: 0 <= i < j < |s| ==> Reversed(s)[i] >= Reversed(s)[j]
    ensures (forall i, j :: 0 <= i < j < |s| ==> s[i] != s[j]) ==>
      forall i, j :: 0 <= i < j < |s| ==> Reversed(s)[i] > Reversed(s)[j]
  {
    forall i, j | 0 <= i < j < |s| ensures Reversed(s)[i] == s[|s| - 1 - i] && Reversed(s)[j] == s[|s| - 1 - j] {
      ReversedAt(s, i);
      ReversedAt(s, j);
    }
  }

  lemma {:induction false} ReversedSnoc(s: seq<U64>, x: U64)
    ensures Reversed(s + [x]) == [x] + Reversed(s)
  {
    if s != [] {
      assert (s + [x])[1..] == s[1..] + [x];
      ReversedSnoc(s[1..], x);
    } else {
      assert s + [x] == [x];
    }
  }

  // ---------------------------------------------------------------------
  // RequestHistory

  /** `RequestHistory`: all timestamps, ascending, and the stack of those
      not yet visited. `visited` records what `next` has popped, in order. */
  class RequestHistory {
    var timestemps: seq<U64>
    var unvisited: seq<U64>
    ghost var visited: seq<U64>

    /** `unvisited` is what is left of the sorted `timestemps` once the
        visited ones have been popped off its end. */
    ghost predicate Valid()
      reads this
    {
      Ascending(timestemps) && timestemps == unvisited + Reversed(visited)
    }

    /** The constructor half of `RequestHistory::new`: sorts the parsed
        timestamps and copies them into `unvisited`. */
    constructor (parsed: seq<U64>)
      ensures Valid()
      ensures timestemps == SortAscending(parsed) && unvisited == timestemps && visited == []
      ensures Ascending(timestemps) && multiset(timestemps) == multiset(parsed)
    {
      SortAscendingCorrect(parsed);
      timestemps := SortAscending(parsed);
      unvisited := SortAscending(parsed);
      visited := [];
    }

    /** `RequestHistory::next`: pops the last unvisited timestamp, the
        largest remaining one, and reads its entry; with nothing left it
        returns `None` and changes nothing. `timestemps` never changes. */
    method Next(files: map<Path, EntryRecord>) returns (r: Option<EntryRecord>)
      requires Valid()
      modifies this
      ensures Valid()
      ensures timestemps == old(timestemps)
      ensures old(unvisited) == [] ==> r == None && unvisited == [] && visited == old(visited)
      ensures old(unvisited) != [] ==>
        var t := old(unvisited)[|old(unvisited)| - 1];
        && unvisited == old(unvisited)[..|old(unvisited)| - 1]
        && visited == old(visited) + [t]
        && r == FromTimestamp(files, t)
        && (forall u :: u in unvisited ==> u <= t)
    {
      if unvisited == [] {
        return None;
      }
      var t := unvisited[|unvisited| - 1];
      var rest := unvisited[..|unvisited| - 1];
      assert unvisited == rest + [t];
      ReversedSnoc(visited, t);
      assert timestemps == rest + Reversed(visited + [t]);
      assert forall u :: u in rest ==> u <= t by {
        forall u | u in rest ensures u <= t {
          var m :| 0 <= m < |rest| && rest[m] == u;
          assert timestemps[m] == u && timestemps[|rest|] == t;
        }
      }
      unvisited := rest;
      visited := visited + [t];
      r := FromTimestamp(files, t);
    }
  }

  /** What `next` has handed out, in order, descends, and strictly when the
      timestamps are distinct; together with what is left it is exactly the
      timestamps, so each is visited once and at most `|timestemps|` calls
      return entries. */
  lemma {:induction false} VisitOrder(timestemps: seq<U64>, unvisited: seq<U64>, visited: seq<U64>)
    requires Ascending(timestemps) && timestemps == unvisited + Reversed(visited)
    ensures |visited| <= |timestemps|
    ensures multiset(unvisited) + multiset(visited) == multiset(timestemps)
    ensures forall i, j :: 0 <= i < j < |visited| ==> visited[i] >= visited[j]
    ensures (forall i, j :: 0 <= i < j < |timestemps| ==> timestemps[i] != timestemps[j]) ==>
      forall i, j :: 0 <= i < j < |visited| ==> visited[i] > visited[j]
  {
    ReversedMultiset(visited);
    VisitedFromTop(timestemps, unvisited, visited);
    VisitedDescends(timestemps, visited);
  }

  /** Read from the top, an ascending sequence descends. */
  lemma {:induction false} VisitedDescends(timestemps: seq<U64>, visited: seq<U64>)
    requires Ascending(timestemps) && |visited| <= |timestemps|
    requires forall k :: 0 <= k < |visited| ==> visited[k] == timestemps[|timestemps| - 1 - k]
    ensures forall i, j :: 0 <= i < j < |visited| ==> visited[i] >= visited[j]
    ensures (forall i, j :: 0 <= i < j < |timestemps| ==> timestemps[i] != timestemps[j]) ==>
      forall i, j :: 0 <= i < j < |visited| ==> visited[i] > visited[j]
  {
    var n := |timestemps|;
    forall i, j | 0 <= i < j < |visited|
      ensures visited[i] >= visited[j]
    {
      assert timestemps[n - 1 - j] <= timestemps[n - 1 - i];
    }
    if forall i, j :: 0 <= i < j < n ==> timestemps[i] != timestemps[j] {
      forall i, j | 0 <= i < j < |visited|
        ensures visited[i] > visited[j]
      {
        assert timestemps[n - 1 - j] != timestemps[n - 1 - i];
      }
    }
  }

  /** The k-th timestamp handed out is the k-th from the top. */
  lemma {:induction false} VisitedFromTop(timestemps: seq<U64>, unvisited: seq<U64>, visited: seq<U64>)
    requires timestemps == unvisited + Reversed(visited)
    ensures forall k :: 0 <= k < |visited| ==> visited[k] == timestemps[|timestemps| - 1 - k]
  {
    forall k | 0 <= k < |visited|
      ensures visited[k] == timestemps[|timestemps| - 1 - k]
    {
      VisitedAt(unvisited, visited, k);
    }
  }

  lemma {:induction false} VisitedAt(unvisited: seq<U64>, visited: seq<U64>, k: nat)
    requires k < |visited|
    ensures visited[k] == (unvisited + Reversed(visited))[|unvisited| + |visited| - 1 - k]
  {
    var r := Reversed(visited);
    var m := |visited| - 1 - k;
    ReversedAt(visited, m);
    assert (unvisited + r)[|unvisited| + m] == r[m];
  }

  lemma {:induction false} ReversedMultiset(s: seq<U64>)
    ensures multiset(Reversed(s)) == multiset(s)
  {
    if s != [] {
      ReversedMultiset(s[1..]);
      assert s == [s[0]] + s[1..];
    }
  }

  /** A name `u64::to_string` could have printed: digits only, with no
      leading zero except in `0` itself. */
  predicate CanonicalDecimal(s: string) {
    |s| > 0 && AllDigits(s) && (s[0] == '0' ==> |s| == 1)
  }

  lemma {:induction false} LeadingDigitPositive(s: string)
    requires |s| > 0 && AllDigits(s) && s[0] != '0'
    ensures DigitsValue(s) > 0
  {
    if |s| > 1 {
      LeadingDigitPositive(s[..|s| - 1]);
    }
  }

  /** Printing the value of a canonical name gives the name back. */
  lemma {:induction false} DecimalOfDigits(s: string)
    requires CanonicalDecimal(s)
    ensures ToDecimal(DigitsValue(s)) == s
  {
    if |s| > 1 {
      var init := s[..|s| - 1];
      assert CanonicalDecimal(init);
      DecimalOfDigits(init);
      LeadingDigitPositive(init);
      var n := DigitsValue(s);
      assert n / 10 == DigitsValue(init) && n % 10 == s[|s| - 1] as int - '0' as int;
      assert ToDecimal(n) == ToDecimal(n / 10) + [DigitChar(n % 10)];
    }
  }

  /** Timestamps parsed (as `RequestHistory::new` does) from distinct names
      that are each what `to_string` prints are distinct, and each one's
      entry file is the very file that was listed. */
  lemma CanonicalNamesDistinct(names: seq<string>, ts: seq<U64>)
    requires |names| == |ts|
    requires forall i :: 0 <= i < |ts| ==> ParseU64(names[i]) == Some(ts[i])
    requires forall i :: 0 <= i < |names| ==> CanonicalDecimal(names[i])
    requires forall i, j :: 0 <= i < j < |names| ==> names[i] != names[j]
    ensures forall i :: 0 <= i < |ts| ==> ToDecimal(ts[i]) == names[i]
    ensures forall i, j :: 0 <= i < j < |ts| ==> ts[i] != ts[j]
  {
    forall i | 0 <= i < |ts|
      ensures ToDecimal(ts[i]) == names[i]
    {
      assert names[i][0] != '+';
      DecimalOfDigits(names[i]);
    }
  }

  /** A sequence without repeats holds each value at most once. */
  lemma {:induction false} DistinctCount(t: seq<U64>, x: U64)
    requires forall i, j :: 0 <= i < j < |t| ==> t[i] != t[j]
    ensures multiset(t)[x] <= 1
  {
    if t != [] {
      DistinctCount(t[1..], x);
      assert t == [t[0]] + t[1..];
      if x == t[0] {
        assert x !in t[1..];
      }
    }
  }

  /** Sorting a sequence without repeats gives a strictly ascending one, so
      `next` then hands the timestamps out in strictly descending order. */
  lemma SortedDistinct(parsed: seq<U64>, sorted: seq<U64>)
    requires forall i, j :: 0 <= i < j < |parsed| ==> parsed[i] != parsed[j]
    requires multiset(sorted) == multiset(parsed)
    ensures forall i, j :: 0 <= i < j < |sorted| ==> sorted[i] != sorted[j]
  {
    forall i, j | 0 <= i < j < |sorted|
      ensures sorted[i] != sorted[j]
    {
      DistinctCount(parsed, sorted[i]);
      RepeatCount(sorted, i, j);
    }
  }

  lemma RepeatCount(s: seq<U64>, i: nat, j: nat)
    requires i < j < |s|
    ensures s[i] == s[j] ==> multiset(s)[s[i]] >= 2
  {
    assert s == s[..i] + [s[i]] + s[i + 1..j] + [s[j]] + s[j + 1..];
  }

  /** `RequestHistory::new`: fails when a directory entry is not a decimal
      `u64`; otherwise holds the sorted timestamps, none visited yet. */
  method NewHistory(listing: Option<seq<string>>) returns (r: Result<RequestHistory, HistoryError>)
    ensures r.Ok? <==> listing.Some? && forall i :: 0 <= i < |listing.value| ==> ParseU64(listing.value[i]).Some?
    ensures r.Ok? ==> fresh(r.value) && r.value.Valid() && r.value.visited == []
    ensures r.Ok? ==> r.value.unvisited == r.value.timestemps && |r.value.timestemps| == |listing.value|
    ensures r.Ok? ==> multiset(r.value.timestemps) == multiset(seq(|listing.value|, i requires 0 <= i < |listing.value| => ParseU64(listing.value[i]).GetOr(0)))
  {
    var parsed := ReadTimestamps(listing);
    if parsed.Err? {
      return Err(parsed.error);
    }
    ghost var expected := seq(|listing.value|, i requires 0 <= i < |listing.value| => ParseU64(listing.value[i]).GetOr(0));
    assert parsed.value == expected;
    var history := new RequestHistory(parsed.value);
    assert |history.timestemps| == |multiset(history.timestemps)| == |multiset(parsed.value)| == |parsed.value|;
    r := Ok(history);
  }

  // ---------------------------------------------------------------------
  // RequestHistoryEntry and its builder

  /** `RequestHistoryEntry`, whose builder setters assign its fields. */
  class RequestHistoryEntry {
    var path: seq<string>
    var endpoint: Option<Endpoints.Endpoint>
    var context: Option<Context>
    var time: U64
    var duration: U64

    function Record(): EntryRecord
      reads this
    {
      EntryRecord(path, endpoint, context, time, duration)
    }

    /** `RequestHistoryEntry::new`: the default entry stamped with the wall
        clock in milliseconds, cut to 64 bits by `as u64`. */
    constructor (nowMillis: nat)
      ensures Record() == EntryRecord([], None, None, (nowMillis % U64Limit) as U64, 0)
    {
      path := [];
      endpoint := None;
      context := None;
      time := (nowMillis % U64Limit) as U64;
      duration := 0;
    }

    /** `path` */
    method SetPath(p: seq<string>)
      modifies this
      ensures Record() == old(Record()).(path := p)
    {
      path := p;
    }

    /** `endpoint` */
    method SetEndpoint(e: Endpoints.Endpoint)
      modifies this
      ensures Record() == old(Record()).(endpoint := Some(e))
    {
      endpoint := Some(e);
    }

    /** `context` */
    method SetContext(c: Context)
      modifies this
      ensures Record() == old(Record()).(context := Some(c))
    {
      context := Some(c);
    }

    /** `duration` */
    method SetDuration(d: U64)
      modifies this
      ensures Record() == old(Record()).(duration := d)
    {
      duration := d;
    }

    /** `file_path` */
    function FilePath(): (p: Path)
      reads this
      ensures |p| == 4 && ParseU64(p[3]) == Some(time)
    {
      ParseDecimal(time);
      EntryPath(time)
    }

    /** `write`: stores the entry at its file path. */
    method Write(files: map<Path, EntryRecord>) returns (files': map<Path, EntryRecord>)
      ensures files' == WriteEntry(files, Record())
      ensures FromTimestamp(files', time) == Some(Record())
    {
      WriteThenRead(files, Record(), time);
      files' := files[FilePath() := Record()];
    }
  }
}
