// The client on top of the limiter: what it validates, when it waits, and what it sends.
//
// The network is a source of arbitrary replies after arbitrary time. A ghost log records every
// wait that let the client go and every request that went out, in order.
module Client {
  import opened Strings
  import opened RateLimit
  import Url

  datatype Result<+T> = Ok(value: T) | Err(error: Error)

  datatype Error =
    | InvalidArgument
    | TimedOut
    | AuthError
    | NotFound
    | RateLimited
    | NetworkError
    | ApiError(status: int)
    | Malformed

  datatype Verb = Get | Post

  datatype Request = Request(verb: Verb, url: string, payload: string)

  // A reply as the caller needs it: the status, whether the body holds what its parser wants, and
  // the text wanted from it (an analysis status, an upload address, or the report as a whole).
  datatype Reply = Reply(status: int, wellFormed: bool, text: string)

  datatype Exchange = Exchange(request: Request, reply: Reply)

  datatype Event = Granted(grant: Grant) | Sent(exchange: Exchange)

  // The status decides the exception; a good status can still carry a body the parser rejects.
  function Outcome(reply: Reply): (r: Result<string>)
    ensures r.Err? ==> r.error != InvalidArgument && r.error != TimedOut
    ensures r == Err(NotFound) <==> reply.status == 404
  {
    if reply.status == 200 || reply.status == 201 || reply.status == 204 then
      if reply.wellFormed then Ok(reply.text) else Err(Malformed)
    else if reply.status == 403 then Err(AuthError)
    else if reply.status == 404 then Err(NotFound)
    else if reply.status == 429 then Err(RateLimited)
    else if reply.status == 0 then Err(NetworkError)
    else Err(ApiError(reply.status))
  }

  // ---------------------------------------------------------------- logs

  function Grants(log: seq<Event>): seq<Grant> {
    if log == [] then []
    else
      var last := log[|log| - 1];
      Grants(log[..|log| - 1]) + if last.Granted? then [last.grant] else []
  }

  function Exchanges(log: seq<Event>): seq<Exchange> {
    if log == [] then []
    else
      var last := log[|log| - 1];
      Exchanges(log[..|log| - 1]) + if last.Sent? then [last.exchange] else []
  }

  // Every request directly follows a grant of its own, and no grant is left over.
  ghost predicate Paced(log: seq<Event>) {
    && |log| % 2 == 0
    && forall k :: 0 <= k < |log| ==> (log[k].Granted? <==> k % 2 == 0)
  }

  // Requests whose stamp lies in the closed window. The stamp of a request is the grant directly
  // before it; a request without one counts in every window.
  function RequestsIn(log: seq<Event>, lo: real, hi: real): nat {
    if log == [] then 0
    else
      var init, last := log[..|log| - 1], log[|log| - 1];
      RequestsIn(init, lo, hi) +
      if last.Granted? then 0
      else if init != [] && init[|init| - 1].Granted? && !(lo <= init[|init| - 1].grant.at <= hi) then 0
      else 1
  }

  lemma LogNext(log: seq<Event>, e: Event)
    ensures Grants(log + [e]) == Grants(log) + if e.Granted? then [e.grant] else []
    ensures Exchanges(log + [e]) == Exchanges(log) + if e.Sent? then [e.exchange] else []
  {
    assert (log + [e])[..|log|] == log;
  }

  lemma PairNext(log: seq<Event>, g: Grant, x: Exchange)
    ensures Paced(log) ==> Paced(log + [Granted(g)] + [Sent(x)])
    ensures Grants(log + [Granted(g)] + [Sent(x)]) == Grants(log) + [g]
    ensures Exchanges(log + [Granted(g)] + [Sent(x)]) == Exchanges(log) + [x]
  {
    hide Grants, Exchanges;
    LogNext(log, Granted(g));
    LogNext(log + [Granted(g)], Sent(x));
  }

  lemma {:induction false} RequestsAreGrants(log: seq<Event>, lo: real, hi: real)
    requires Paced(log)
    ensures RequestsIn(log, lo, hi) == CountIn(Grants(log), lo, hi)
    ensures |Exchanges(log)| == |Grants(log)|
  {
    if log != [] {
      var n := |log|;
      var init := log[..n - 2];
      assert log[..n - 1][..n - 2] == init;
      assert log[n - 2].Granted? && log[n - 1].Sent?;
      RequestsAreGrants(init, lo, hi);
      var g := log[n - 2].grant;
      assert Grants(log) == Grants(log[..n - 1]) == Grants(init) + [g];
      assert (Grants(init) + [g])[..|Grants(init)|] == Grants(init);
    }
  }

  // The window bound of the limiter carries over to requests.
  lemma RequestWindowBound(log: seq<Event>, rate: real, lo: real, hi: real)
    requires rate > 0.0 && lo <= hi
    requires Paced(log) && OnSchedule(Grants(log), rate)
    ensures RequestsIn(log, lo, hi) <= Allowance(hi - lo, rate)
  {
    hide RequestsIn, Grants, CountIn, Allowance, OnSchedule, Paced;
    RequestsAreGrants(log, lo, hi);
    WindowBound(Grants(log), rate, lo, hi);
  }

  // ---------------------------------------------------------------- what each operation may send

  predicate IsUrl(url: string) {
    url != "" && Contains(url, "://")
  }

  function FileReportRequest(base: string, hash: string): Request {
    Request(Get, base + "/files/" + hash, "")
  }

  function RescanFileRequest(base: string, hash: string): Request {
    Request(Post, base + "/files/" + hash + "/analyse", "")
  }

  function ScanUrlRequest(base: string, url: string): Request {
    Request(Post, base + "/urls", url)
  }

  function UrlReportRequest(base: string, urlOrId: ByteString): Request {
    Request(Get, base + "/urls/" + Url.UrlId(urlOrId), "")
  }

  lemma UrlReportTarget(base: string, urlOrId: ByteString)
    ensures UrlReportRequest(base, urlOrId) ==
            Request(Get, base + "/urls/" + if Contains(urlOrId, "://") then Url.EncodeUrl(urlOrId) else urlOrId, "")
  {
  }

  function AnalysisRequest(base: string, id: string): Request {
    Request(Get, base + "/analyses/" + id, "")
  }

  // Reports and polls read, scans write. A rescan posts below the address of the report, a scan posts
  // the URL itself to the collection the URL reports are below of.
  lemma RequestShapes(base: string, id: string, url: ByteString)
    ensures FileReportRequest(base, id) == Request(Get, base + "/files/" + id, "")
    ensures RescanFileRequest(base, id) == Request(Post, FileReportRequest(base, id).url + "/analyse", "")
    ensures ScanUrlRequest(base, url) == Request(Post, base + "/urls", url)
    ensures UrlReportRequest(base, url) == Request(Get, ScanUrlRequest(base, url).url + "/" + Url.UrlId(url), "")
    ensures AnalysisRequest(base, id) == Request(Get, base + "/analyses/" + id, "")
  {
    assert base + "/urls/" == base + "/urls" + "/";
  }

  // Distinct ids go to distinct addresses, and no two kinds of address coincide.
  lemma RequestsApart(base: string, a: string, b: string, u: ByteString, v: ByteString)
    ensures FileReportRequest(base, a) == FileReportRequest(base, b) ==> a == b
    ensures RescanFileRequest(base, a) == RescanFileRequest(base, b) ==> a == b
    ensures AnalysisRequest(base, a) == AnalysisRequest(base, b) ==> a == b
    ensures ScanUrlRequest(base, u) == ScanUrlRequest(base, v) ==> u == v
    ensures UrlReportRequest(base, u) == UrlReportRequest(base, v) ==> Url.UrlId(u) == Url.UrlId(v)
    ensures FileReportRequest(base, a).url != AnalysisRequest(base, b).url
    ensures UrlReportRequest(base, u).url != FileReportRequest(base, a).url
    ensures UrlReportRequest(base, u).url != AnalysisRequest(base, b).url
  {
    hide Url.UrlId;
    SamePrefix(base + "/files/", a, b);
    SamePrefix(base + "/analyses/", a, b);
    SamePrefix(base + "/urls/", Url.UrlId(u), Url.UrlId(v));
    SameEnds(base + "/files/", a, b, "/analyse");
    assert FileReportRequest(base, a).url[|base| + 1] == 'f';
    assert AnalysisRequest(base, b).url[|base| + 1] == 'a';
    assert UrlReportRequest(base, u).url[|base| + 1] == 'u';
  }

  lemma SamePrefix(s: string, a: string, b: string)
    ensures s + a == s + b ==> a == b
  {
    assert (s + a)[|s|..] == a && (s + b)[|s|..] == b;
  }

  lemma SameEnds(s: string, a: string, b: string, t: string)
    ensures s + a + t == s + b + t ==> a == b
  {
    assert |s + a + t| == |s| + |a| + |t| && |s + b + t| == |s| + |b| + |t|;
    assert (s + a + t)[|s|..|s| + |a|] == a && (s + b + t)[|s|..|s| + |b|] == b;
  }

  // The requests in order, up to and including the first that fails.
  ghost predicate BatchTrace(requests: seq<Request>, trace: seq<Exchange>, result: Result<seq<string>>) {
    && |trace| <= |requests|
    && (forall k :: 0 <= k < |trace| ==> trace[k].request == requests[k])
    && match result
       case Ok(values) =>
         && |trace| == |requests| == |values|
         && forall k :: 0 <= k < |trace| ==> Outcome(trace[k].reply) == Ok(values[k])
       case Err(e) =>
         && trace != []
         && Outcome(trace[|trace| - 1].reply) == Err(e)
         && forall k :: 0 <= k < |trace| - 1 ==> Outcome(trace[k].reply).Ok?
  }

  // The part of a batch that has succeeded so far.
  ghost predicate BatchSoFar(requests: seq<Request>, trace: seq<Exchange>, values: seq<string>) {
    && |values| == |trace| <= |requests|
    && (forall k :: 0 <= k < |trace| ==> trace[k].request == requests[k])
    && (forall k :: 0 <= k < |trace| ==> Outcome(trace[k].reply) == Ok(values[k]))
  }

  lemma NothingBatched(requests: seq<Request>)
    ensures BatchSoFar(requests, [], [])
  {
  }

  lemma BatchNext(requests: seq<Request>, trace: seq<Exchange>, values: seq<string>, x: Exchange, r: Result<string>)
    requires BatchSoFar(requests, trace, values) && |trace| < |requests|
    requires x.request == requests[|trace|] && r == Outcome(x.reply)
    ensures match r
            case Ok(value) => BatchSoFar(requests, trace + [x], values + [value])
            case Err(error) => BatchTrace(requests, trace + [x], Err(error))
  {
    hide Outcome;
  }

  lemma BatchDone(requests: seq<Request>, trace: seq<Exchange>, values: seq<string>)
    requires BatchSoFar(requests, trace, values) && |trace| == |requests|
    ensures BatchTrace(requests, trace, Ok(values))
  {
    hide Outcome;
  }

  // GET, or GET, POST, GET cut short by an error.
  ghost predicate UrlReportTrace(
    base: string, urlOrId: ByteString, scanIfNoReport: bool, trace: seq<Exchange>, result: Result<string>)
  {
    var get, post := UrlReportRequest(base, urlOrId), ScanUrlRequest(base, urlOrId);
    && 1 <= |trace| <= 3
    && trace[0].request == get
    && (|trace| >= 2 ==> trace[1].request == post)
    && (|trace| == 3 ==> trace[2].request == get)
    && (|trace| >= 2 <==> trace[0].reply.status == 404 && scanIfNoReport && IsUrl(urlOrId))
    && (|trace| == 3 <==> |trace| >= 2 && Outcome(trace[1].reply).Ok?)
    && result ==
       if |trace| == 1 && trace[0].reply.status == 404 && scanIfNoReport then Err(InvalidArgument)
       else Outcome(trace[|trace| - 1].reply)
  }

  // The replies alone decide what a batch sends and returns; in particular it sends nothing after a
  // failure, and exactly k + 1 requests if the first failure is the reply to request k.
  lemma BatchDetermined(
    requests: seq<Request>, a: seq<Exchange>, r: Result<seq<string>>, b: seq<Exchange>, s: Result<seq<string>>)
    requires BatchTrace(requests, a, r) && BatchTrace(requests, b, s)
    requires forall k :: 0 <= k < |a| && k < |b| ==> a[k].reply == b[k].reply
    ensures a == b && r == s
    ensures forall k :: 0 <= k < |a| && Outcome(a[k].reply).Err? ==> |a| == k + 1 && r == Err(Outcome(a[k].reply).error)
  {
    hide Outcome;
    BatchNotShorter(requests, a, r, b, s);
    BatchNotShorter(requests, b, s, a, r);
    forall k | 0 <= k < |a| ensures a[k] == b[k] {
      assert a[k].request == b[k].request;
    }
    if r.Ok? && s.Ok? {
      forall k | 0 <= k < |a| ensures r.value[k] == s.value[k] {
        assert Ok(r.value[k]) == Outcome(a[k].reply) == Outcome(b[k].reply) == Ok(s.value[k]);
      }
      assert r.value == s.value;
    }
  }

  lemma BatchNotShorter(
    requests: seq<Request>, a: seq<Exchange>, r: Result<seq<string>>, b: seq<Exchange>, s: Result<seq<string>>)
    requires BatchTrace(requests, a, r) && BatchTrace(requests, b, s)
    requires forall k :: 0 <= k < |a| && k < |b| ==> a[k].reply == b[k].reply
    ensures |a| >= |b| && (|a| == |b| ==> r.Ok? == s.Ok?)
  {
    hide Outcome;
    if r.Err? && |b| >= |a| {
      assert Outcome(b[|a| - 1].reply) == Outcome(a[|a| - 1].reply);
    }
    if s.Err? && |b| == |a| {
      assert Outcome(b[|a| - 1].reply) == Outcome(a[|a| - 1].reply);
    }
  }

  // The replies alone decide what a URL report sends and returns. Its requests are a prefix of GET,
  // POST, GET; it posts exactly if the first reply was 404, the caller asked for a scan, and the argument
  // is a raw URL.
  lemma {:induction false} UrlReportDetermined(
    base: string, urlOrId: ByteString, scan: bool,
    a: seq<Exchange>, r: Result<string>, b: seq<Exchange>, s: Result<string>)
    requires UrlReportTrace(base, urlOrId, scan, a, r) && UrlReportTrace(base, urlOrId, scan, b, s)
    requires forall k :: 0 <= k < |a| && k < |b| ==> a[k].reply == b[k].reply
    ensures a == b && r == s
    ensures var get, post := UrlReportRequest(base, urlOrId), ScanUrlRequest(base, urlOrId);
            && |a| <= 3 && (forall k :: 0 <= k < |a| ==> a[k].request == if k == 1 then post else get)
            && (forall k :: 0 <= k < |a| && a[k].request.verb == Post ==>
                  a[0].reply.status == 404 && scan && IsUrl(urlOrId))
    ensures |a| >= 2 <==> a != [] && a[0].reply.status == 404 && scan && IsUrl(urlOrId)
    ensures r.Ok? ==> Outcome(a[|a| - 1].reply) == r && |a| != 2
  {
    hide Outcome, IsUrl, Url.UrlId;
    assert a[0].reply == b[0].reply;
    assert |a| == |b| by {
      if |a| >= 2 && |b| >= 2 {
        assert a[1].reply == b[1].reply;
      }
    }
    forall k | 0 <= k < |a| ensures a[k] == b[k] {
      assert a[k].request == b[k].request;
    }
  }

  // The upload address, taken as relative to the base URL unless it names a scheme.
  function UploadUrl(base: string, address: string): string {
    if Contains(address, "://") then address
    else if address == "" || address[0] != '/' then base + "/" + address
    else base + address
  }

  // An upload goes to an absolute URL if the base is one; an address that is absolute already is
  // kept, any other ends up whole below the base, and a leading slash makes no difference.
  lemma {:induction false} UploadUrlResolves(base: string, address: string)
    ensures Contains(base, "://") ==> Contains(UploadUrl(base, address), "://")
    ensures Contains(address, "://") ==> UploadUrl(base, address) == address
    ensures !Contains(address, "://") ==> base + "/" <= UploadUrl(base, address)
    ensures !Contains(address, "://") && (address == "" || address[0] != '/') ==>
      && UploadUrl(base, address)[|base| + 1..] == address
      && UploadUrl(base, "/" + address) == UploadUrl(base, address)
  {
    hide Contains;
    if !Contains(address, "://") && (address == "" || address[0] != '/') {
      assert UploadUrl(base, address) == base + "/" + address;
      assert |base + "/"| == |base| + 1;
    }
    if Contains(base, "://") {
      ContainsAppend(base, "/" + address, "://");
      ContainsAppend(base, address, "://");
      assert base + ("/" + address) == base + "/" + address;
    }
    if !Contains(address, "://") {
      SlashNamesNoScheme(address);
    }
    if address != "" && address[0] == '/' {
      assert base + address == base + "/" + address[1..];
    }
    assert base + ("/" + address) == base + "/" + address;
  }

  lemma ContainsAppend(s: string, t: string, pattern: string)
    requires Contains(s, pattern)
    ensures Contains(s + t, pattern)
  {
    var i :| 0 <= i <= |s| && pattern <= s[i..];
    assert (s + t)[i..] == s[i..] + t;
  }

  lemma SlashNamesNoScheme(address: string)
    requires !Contains(address, "://")
    ensures !Contains("/" + address, "://")
  {
    var s := "/" + address;
    forall i | 0 <= i <= |s| ensures !("://" <= s[i..]) {
      if i > 0 {
        assert s[i..] == address[i - 1..];
      } else {
        assert s[i..][0] == '/';
      }
    }
  }

  ghost predicate UploadTrace(base: string, filename: string, trace: seq<Exchange>, result: Result<string>) {
    && 1 <= |trace| <= 2
    && trace[0].request == Request(Get, base + "/files/upload_url", "")
    && (|trace| == 2 <==> Outcome(trace[0].reply).Ok?)
    && (|trace| == 2 ==> trace[1].request == Request(Post, UploadUrl(base, trace[0].reply.text), filename))
    && result == Outcome(trace[|trace| - 1].reply)
  }

  // Polls of one analysis that were answered but not completed.
  ghost predicate Unfinished(base: string, id: string, trace: seq<Exchange>) {
    forall k :: 0 <= k < |trace| ==>
      trace[k].request == AnalysisRequest(base, id) && IsUnfinished(trace[k].reply)
  }

  lemma NothingPolled(base: string, id: string)
    ensures Unfinished(base, id, [])
  {
  }

  lemma PollAnswered(base: string, id: string, trace: seq<Exchange>, reply: Reply)
    requires Unfinished(base, id, trace)
    ensures var trace', r := trace + [Exchange(AnalysisRequest(base, id), reply)], Outcome(reply);
            if IsUnfinished(reply) then Unfinished(base, id, trace') && PollTrace(base, id, trace', Err(TimedOut))
            else PollTrace(base, id, trace', r)
  {
    hide AnalysisRequest;
  }

  // Polls of one analysis: none but the last is completed, and each but the last got an answer.
  ghost predicate PollTrace(base: string, id: string, trace: seq<Exchange>, result: Result<string>) {
    && trace != []
    && (forall k :: 0 <= k < |trace| ==> trace[k].request == AnalysisRequest(base, id))
    && (forall k :: 0 <= k < |trace| - 1 ==> IsUnfinished(trace[k].reply))
    && var last := trace[|trace| - 1].reply;
       match result
       case Ok(status) => status == "completed" && Outcome(last) == Ok("completed")
       case Err(TimedOut) => IsUnfinished(last)
       case Err(e) => Outcome(last) == Err(e)
  }

  predicate IsUnfinished(reply: Reply) {
    Outcome(reply).Ok? && Outcome(reply).value != "completed"
  }

  // ---------------------------------------------------------------- polling arithmetic

  function Ceil(x: real): int { -((-x).Floor) }

  // The least time between two polls.
  function PollPeriod(interval: int, rate: real): real
    requires rate >= 0.0
  {
    if rate == 0.0 then interval as real else Max(interval as real, 1.0 / rate)
  }

  // At most this many polls fit before the time is up: ceil(limit / period) + 1.
  function PollBound(limit: int, interval: int, rate: real): int
    requires interval >= 2 && rate >= 0.0
  {
    PollPeriodAtLeast(interval, rate);
    Ceil(limit as real / PollPeriod(interval, rate)) + 1
  }

  lemma PollPeriodAtLeast(interval: int, rate: real)
    requires interval >= 2 && rate >= 0.0
    ensures PollPeriod(interval, rate) >= 2.0
  {
  }

  // From the given place on, each grant is at least a period after the one before.
  ghost predicate Spaced(grants: seq<Grant>, from: nat, period: real) {
    forall k :: from < k < |grants| ==> grants[k].at - grants[k - 1].at >= period
  }

  lemma NothingSpaced(grants: seq<Grant>, period: real)
    ensures Spaced(grants, |grants|, period)
  {
  }

  lemma SpacedNext(grants: seq<Grant>, from: nat, period: real, g: Grant)
    requires Spaced(grants, from, period)
    requires |grants| > from ==> g.at - grants[|grants| - 1].at >= period
    ensures Spaced(grants + [g], from, period)
  {
  }

  // The grants of n polls, the first of them after the start and the last `elapsed` after it.
  ghost predicate OnPace(n: nat, elapsed: real, period: real) {
    n > 0 ==> (n - 1) as real * period <= elapsed
  }

  lemma NoPolls(limit: int, interval: int, rate: real)
    requires interval >= 2 && rate >= 0.0 && limit >= 2
    ensures OnPace(0, 0.0, PollPeriod(interval, rate)) && PollBound(limit, interval, rate) >= 0
  {
    PollPeriodAtLeast(interval, rate);
  }

  lemma NextPoll(n: nat, start: real, last: real, at: real, interval: int, rate: real)
    requires rate >= 0.0 && OnPace(n, last - start, PollPeriod(interval, rate))
    requires n == 0 ==> at >= start
    requires n > 0 ==> at >= last + interval as real
    requires n > 0 && rate > 0.0 ==> (at - last) * rate >= 1.0
    ensures OnPace(n + 1, at - start, PollPeriod(interval, rate))
    ensures n > 0 ==> at - last >= PollPeriod(interval, rate)
  {
    var period := PollPeriod(interval, rate);
    if n > 0 {
      PollsApart(last, at, interval, rate);
      assert n as real * period == (n - 1) as real * period + period;
    }
  }

  lemma {:induction false} PollsApart(previous: real, at: real, interval: int, rate: real)
    requires rate >= 0.0 && at >= previous + interval as real
    requires rate > 0.0 ==> (at - previous) * rate >= 1.0
    ensures at - previous >= PollPeriod(interval, rate)
  {
    if rate > 0.0 {
      var gap := at - previous;
      Monotone(1.0, gap * rate, 1.0 / rate);
      assert gap * rate * (1.0 / rate) == gap;
    }
  }

  // One more poll after n of them is still within the bound while the time is not up.
  lemma {:induction false} PollCount(n: nat, elapsed: real, limit: int, interval: int, rate: real)
    requires interval >= 2 && rate >= 0.0 && limit >= 2
    requires OnPace(n, elapsed, PollPeriod(interval, rate)) && (n > 0 ==> elapsed < limit as real)
    ensures n + 1 <= PollBound(limit, interval, rate)
    ensures n < limit + 1
  {
    PollPeriodAtLeast(interval, rate);
    if n > 0 {
      PeriodsFit(n - 1, elapsed, PollPeriod(interval, rate), limit as real);
    }
  }

  lemma PeriodsFit(n: nat, elapsed: real, period: real, limit: real)
    requires period >= 2.0 && n as real * period <= elapsed < limit
    ensures n + 1 <= Ceil(limit / period)
    ensures n as real < limit
  {
    var q, k := limit / period, n as real;
    assert q * period == limit;
    if k >= q {
      Monotone(q, k, period);
    }
    Monotone(1.0, period, k + 1.0);
    assert k * period + period == period * (k + 1.0);
  }
}
