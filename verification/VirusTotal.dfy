// The client class: one caller at a time, every request behind the limiter.
module VirusTotal {
  import opened Strings
  import opened RateLimit
  import opened Client
  import Hashing
  import Url

  const LARGE_FILE_SIZE_LIMIT: nat := 650 * 1024 * 1024

  // Any of the modelled calls a program can make on the client.
  datatype Call =
    | GetFileReport(hash: string)
    | RescanFile(hash: string)
    | ScanUrl(url: ByteString)
    | GetAnalysis(id: string)
    | RescanFiles(hashes: seq<string>)
    | GetFileReports(hashes: seq<string>)
    | ScanUrls(urls: seq<ByteString>)
    | GetUrlReports(urls: seq<ByteString>)
    | GetUrlReport(urlOrId: ByteString, scanIfNoReport: bool)
    | ScanLargeFile(size: nat, filename: string)
    | AwaitAnalysis(id: string, timeout: int, interval: int)

  function Requests<T>(items: seq<T>, request: T -> Request): (r: seq<Request>)
    ensures |r| == |items| && forall k :: 0 <= k < |items| ==> r[k] == request(items[k])
  {
    seq(|items|, i requires 0 <= i < |items| => request(items[i]))
  }

  // What a call returns: one result, or those of a batch.
  datatype Answer = One(one: Result<string>) | Many(many: Result<seq<string>>)

  // Rejected without a request, or one request answered by the outcome of its reply.
  ghost predicate SingleTrace(valid: bool, request: Request, trace: seq<Exchange>, r: Result<string>) {
    if valid then |trace| == 1 && trace[0].request == request && r == Outcome(trace[0].reply)
    else trace == [] && r == Err(InvalidArgument)
  }

  // Rejected without a request, or the requests of the batch.
  ghost predicate ManyTrace(
    valid: bool, requests: seq<Request>, trace: seq<Exchange>, r: Result<seq<string>>)
  {
    if valid then BatchTrace(requests, trace, r) else trace == [] && r == Err(InvalidArgument)
  }

  // The exchanges and the answer that a call allows.
  ghost predicate CallTrace(base: string, call: Call, trace: seq<Exchange>, a: Answer) {
    match call
    case GetFileReport(hash) =>
      a.One? && SingleTrace(Hashing.IsHexHash(hash), FileReportRequest(base, hash), trace, a.one)
    case RescanFile(hash) =>
      a.One? && SingleTrace(Hashing.IsHexHash(hash), RescanFileRequest(base, hash), trace, a.one)
    case ScanUrl(url) => a.One? && SingleTrace(IsUrl(url), ScanUrlRequest(base, url), trace, a.one)
    case GetAnalysis(id) => a.One? && SingleTrace(id != "", AnalysisRequest(base, id), trace, a.one)
    case RescanFiles(hashes) =>
      a.Many? && ManyTrace(AllHashes(hashes), Requests(hashes, h => RescanFileRequest(base, h)), trace, a.many)
    case GetFileReports(hashes) =>
      a.Many? && ManyTrace(AllHashes(hashes), Requests(hashes, h => FileReportRequest(base, h)), trace, a.many)
    case ScanUrls(urls) =>
      a.Many? && ManyTrace(AllUrls(urls), Requests(urls, u => ScanUrlRequest(base, u)), trace, a.many)
    case GetUrlReports(urls) =>
      a.Many? && ManyTrace(AllUrls(urls), Requests(urls, u => UrlReportRequest(base, u)), trace, a.many)
    case GetUrlReport(urlOrId, scanIfNoReport) =>
      a.One? && UrlReportTrace(base, urlOrId, scanIfNoReport, trace, a.one)
    case ScanLargeFile(size, filename) =>
      && a.One?
      && if size <= LARGE_FILE_SIZE_LIMIT then UploadTrace(base, filename, trace, a.one)
         else trace == [] && a.one == Err(InvalidArgument)
    case AwaitAnalysis(id, _, _) =>
      a.One? && if id != "" then PollTrace(base, id, trace, a.one) else trace == [] && a.one == Err(InvalidArgument)
  }

  predicate AllHashes(hashes: seq<string>) {
    forall k :: 0 <= k < |hashes| ==> Hashing.IsHexHash(hashes[k])
  }

  predicate AllUrls(urls: seq<string>) {
    forall k :: 0 <= k < |urls| ==> IsUrl(urls[k])
  }

  function Concat(traces: seq<seq<Exchange>>): seq<Exchange> {
    if traces == [] then [] else Concat(traces[..|traces| - 1]) + traces[|traces| - 1]
  }

  // The exchanges and the answers that a list of calls allows.
  ghost predicate ProgramTrace(base: string, calls: seq<Call>, traces: seq<seq<Exchange>>, answers: seq<Answer>) {
    && |answers| == |traces| == |calls|
    && forall k :: 0 <= k < |calls| ==> CallTrace(base, calls[k], traces[k], answers[k])
  }

  lemma NothingCalled(base: string)
    ensures ProgramTrace(base, [], [], []) && Concat([]) == []
  {
  }

  lemma CallNext(
    base: string, calls: seq<Call>, i: nat, traces: seq<seq<Exchange>>, answers: seq<Answer>,
    trace: seq<Exchange>, answer: Answer)
    requires i < |calls| && ProgramTrace(base, calls[..i], traces, answers)
    requires CallTrace(base, calls[i], trace, answer)
    ensures ProgramTrace(base, calls[..i + 1], traces + [trace], answers + [answer])
    ensures Concat(traces + [trace]) == Concat(traces) + trace
  {
    hide CallTrace;
    assert (traces + [trace])[..|traces|] == traces;
  }

  // What a polling loop has found when it began: the log, the rate, the clock, the sleep so far, its
  // clamped arguments, and the time it measures from.
  datatype Watch = Watch(
    before: seq<Event>, rate: real, began: real, requested: real, own: real, pause: int, limit: int, start: real)

  function Paused(n: int, pause: int): real {
    (n * pause) as real
  }

  lemma OneMorePause(n: int, pause: int)
    ensures Paused(n + 1, pause) == Paused(n, pause) + pause as real && Paused(0, pause) == 0.0
  {
  }

  // A disabled limiter adds no sleep to the caller's own, an enabled one at most a period a grant.
  ghost predicate SleepWithin(slept: real, own: real, grants: nat, rate: real) {
    if rate == 0.0 then slept == own else rate > 0.0 && own <= slept <= own + grants as real / rate
  }

  class VirusTotal {
    const baseUrl: string
    const clock: Clock
    const limiter: RateLimiter
    ghost var log: seq<Event>

    // The log is paced, and its grants are those of the limiter.
    ghost predicate Valid()
      reads this, limiter, clock
    {
      && limiter.Valid(clock)
      && Paced(log)
      && (limiter.rate > 0.0 ==> Grants(log) == limiter.grants)
      && (Grants(log) != [] ==> Grants(log)[|Grants(log)| - 1].at <= clock.now)
    }

    // What every operation but polling does: the log stays paced and has grown by one grant and one
    // exchange after the other, and nobody has slept except for those grants.
    twostate predicate Performed(trace: seq<Exchange>)
      reads this, limiter, clock
    {
      GrownBy(old(log), old(limiter.rate), old(clock.now), trace) && OwnSleep() == old(OwnSleep())
    }

    // Told from the log, the rate and the time the operation has started with.
    ghost predicate GrownBy(before: seq<Event>, rate: real, start: real, trace: seq<Exchange>)
      reads this, limiter, clock
    {
      && Valid()
      && limiter.rate == rate
      && clock.now >= start
      && Exchanges(log) == Exchanges(before) + trace
      && Grants(before) <= Grants(log) && |Grants(log)| == |Grants(before)| + |trace|
      && before <= log
    }

    // The sleep asked for beyond what the schedule of the limiter asks for.
    ghost function OwnSleep(): real
      reads this, limiter, clock
    {
      clock.requested - Asked(Grants(log), limiter.rate)
    }

    // What an operation that rejects its argument does to the rest of the world.
    twostate predicate Untouched()
      reads this, limiter, clock
    {
      unchanged(this) && unchanged(limiter) && unchanged(clock)
    }

    // Time passing changes nothing else.
    twostate lemma TimePasses()
      requires old(Valid()) && unchanged(this) && unchanged(limiter) && clock.now >= old(clock.now)
      ensures Valid()
    {
    }

    // Performing more continues what has been performed.
    twostate lemma PerformsMore(
      new before: seq<Event>, new rate: real, new start: real, new trace: seq<Exchange>, new more: seq<Exchange>)
      requires old(GrownBy(before, rate, start, trace)) && Performed(more)
      ensures GrownBy(before, rate, start, trace + more)
    {
      hide Paced, Exchanges, Grants, RateLimiter.Valid, VirusTotal.Valid, VirusTotal.OwnSleep;
      assert Exchanges(before) + trace + more == Exchanges(before) + (trace + more);
    }

    twostate lemma PausesOnly(new before: seq<Event>, new rate: real, new start: real, new trace: seq<Exchange>)
      requires old(GrownBy(before, rate, start, trace))
      requires unchanged(this) && unchanged(limiter) && clock.now >= old(clock.now)
      ensures GrownBy(before, rate, start, trace)
      ensures OwnSleep() - old(OwnSleep()) == clock.requested - old(clock.requested)
    {
      hide Paced, Exchanges, Grants, Asked, RateLimiter.Valid, VirusTotal.Valid;
      TimePasses();
    }

    lemma NothingPerformed()
      requires Valid()
      ensures GrownBy(log, limiter.rate, clock.now, [])
    {
    }

    lemma SleepBounds(before: seq<Event>, rate: real, start: real, trace: seq<Exchange>)
      requires GrownBy(before, rate, start, trace)
      ensures SleepWithin(clock.requested, OwnSleep() + Asked(Grants(before), rate), |trace|, rate)
    {
      hide Paced, Exchanges, Grants;
      if rate > 0.0 {
        hide Asked;
        AskedBounds(Grants(log), |Grants(before)|, rate);
        assert Grants(log)[..|Grants(before)|] == Grants(before);
      }
    }

    lemma GrownIsValid(before: seq<Event>, rate: real, start: real, trace: seq<Exchange>)
      requires GrownBy(before, rate, start, trace)
      ensures Valid() && limiter.rate == rate && clock.now >= start
      ensures |Grants(log)| == |Grants(before)| + |trace|
    {
    }

    lemma RateIsNonNegative()
      requires Valid()
      ensures limiter.rate >= 0.0
    {
    }

    constructor (baseUrl: string, requestsPerMinute: real, clock: Clock)
      modifies clock
      ensures Valid() && log == [] && this.baseUrl == baseUrl && this.clock == clock
      ensures limiter.rate == if requestsPerMinute <= 0.0 then 0.0 else requestsPerMinute / 60.0
    {
      this.baseUrl := baseUrl;
      this.clock := clock;
      this.limiter := new RateLimiter(requestsPerMinute, clock);
      log := [];
    }

    // Waiting for the limiter records a grant: its own if it is enabled, the time it was passed at
    // if not.
    method WaitForGrant() returns (ghost g: Grant)
      requires Valid()
      modifies this`log, limiter, clock
      ensures limiter.Valid(clock) && limiter.rate == old(limiter.rate)
      ensures log == old(log) + [Granted(g)] && OwnSleep() == old(OwnSleep())
      ensures limiter.rate > 0.0 ==> limiter.grants == old(Grants(log)) + [g]
      ensures old(clock.now) <= g.at == clock.now
      ensures limiter.rate > 0.0 && old(Grants(log)) != [] ==>
        (g.at - old(Grants(log)[|Grants(log)| - 1].at)) * limiter.rate >= 1.0
    {
      hide Paced, OnSchedule, Settled, WaitEffect, Due, Asked, Grants;
      ghost var before := Grants(log);
      limiter.Wait(clock);
      if limiter.rate == 0.0 {
        g := Grant(clock.now, clock.now);
      } else {
        g := limiter.grants[|before|];
        assert limiter.grants == before + [g];
        if before != [] {
          LastFollows(limiter.View(), limiter.grants);
        }
      }
      LogNext(log, Granted(g));
      AskedNext(Grants(log), g, limiter.rate);
      log := log + [Granted(g)];
    }

    // The network: any reply, after any time.
    method Send(request: Request) returns (reply: Reply)
      modifies this`log, clock
      ensures log == old(log) + [Sent(Exchange(request, reply))]
      ensures clock.now >= old(clock.now) && clock.requested == old(clock.requested)
    {
      reply := *;
      log := log + [Sent(Exchange(request, reply))];
      var t := clock.Read();
    }

    // Wait, send, and dispatch on the status of the reply.
    method Perform(request: Request) returns (r: Result<string>, ghost reply: Reply, ghost g: Grant)
      requires Valid()
      modifies this, limiter, clock
      ensures Performed([Exchange(request, reply)]) && r == Outcome(reply)
      ensures var good := reply.status == 200 || reply.status == 201 || reply.status == 204;
              && (r.Ok? <==> good && reply.wellFormed)
              && (r.Ok? ==> r.value == reply.text)
              && (good && !reply.wellFormed ==> r == Err(Malformed))
              && (reply.status == 403 ==> r == Err(AuthError))
              && (reply.status == 404 ==> r == Err(NotFound))
              && (reply.status == 429 ==> r == Err(RateLimited))
              && (reply.status == 0 ==> r == Err(NetworkError))
              && (!good && reply.status !in [403, 404, 429, 0] ==> r == Err(ApiError(reply.status)))
      ensures Grants(log) == old(Grants(log)) + [g] && old(clock.now) <= g.at <= clock.now
      ensures limiter.rate > 0.0 && old(Grants(log)) != [] ==>
        (g.at - old(Grants(log)[|Grants(log)| - 1].at)) * limiter.rate >= 1.0
    {
      hide Paced, OnSchedule, Settled, Due, Asked;
      ghost var before := log;
      g := WaitForGrant();
      var answer := Send(request);
      reply := answer;
      PairNext(before, g, Exchange(request, answer));
      LogNext(before, Granted(g));
      r := Outcome(answer);
    }

    // ---------------------------------------------------------------- single requests

    method GetFileReport(hash: string) returns (r: Result<string>, ghost trace: seq<Exchange>)
      requires Valid()
      modifies this, limiter, clock
      ensures !Hashing.IsHexHash(hash) ==> r == Err(InvalidArgument) && trace == [] && Untouched()
      ensures Hashing.IsHexHash(hash) ==>
        Performed(trace) && |trace| == 1
        && trace[0].request == FileReportRequest(baseUrl, hash) && r == Outcome(trace[0].reply)
        && trace[0].request == Request(Get, baseUrl + "/files/" + hash, "")
    {
      trace := [];
      var ok := Hashing.CheckHexHash(hash);
      if !ok {
        return Err(InvalidArgument), [];
      }
      ghost var reply, g;
      r, reply, g := Perform(FileReportRequest(baseUrl, hash));
      trace := [Exchange(FileReportRequest(baseUrl, hash), reply)];
    }

    method RescanFile(hash: string) returns (r: Result<string>, ghost trace: seq<Exchange>)
      requires Valid()
      modifies this, limiter, clock
      ensures !Hashing.IsHexHash(hash) ==> r == Err(InvalidArgument) && trace == [] && Untouched()
      ensures Hashing.IsHexHash(hash) ==>
        Performed(trace) && |trace| == 1
        && trace[0].request == RescanFileRequest(baseUrl, hash) && r == Outcome(trace[0].reply)
        && trace[0].request == Request(Post, baseUrl + "/files/" + hash + "/analyse", "")
    {
      trace := [];
      var ok := Hashing.CheckHexHash(hash);
      if !ok {
        return Err(InvalidArgument), [];
      }
      ghost var reply, g;
      r, reply, g := Perform(RescanFileRequest(baseUrl, hash));
      trace := [Exchange(RescanFileRequest(baseUrl, hash), reply)];
    }

    method ScanUrl(url: ByteString) returns (r: Result<string>, ghost trace: seq<Exchange>)
      requires Valid()
      modifies this, limiter, clock
      ensures IsUrl(url) <==> Contains(url, "://")
      ensures !IsUrl(url) ==> r == Err(InvalidArgument) && trace == [] && Untouched()
      ensures IsUrl(url) ==>
        Performed(trace) && |trace| == 1
        && trace[0].request == ScanUrlRequest(baseUrl, url) && r == Outcome(trace[0].reply)
        && trace[0].request == Request(Post, baseUrl + "/urls", url)
    {
      trace := [];
      if url == "" || !Contains(url, "://") {
        return Err(InvalidArgument), [];
      }
      ghost var reply, g;
      r, reply, g := Perform(ScanUrlRequest(baseUrl, url));
      trace := [Exchange(ScanUrlRequest(baseUrl, url), reply)];
    }

    method GetAnalysis(id: string) returns (r: Result<string>, ghost reply: Reply, ghost g: Grant)
      requires Valid()
      modifies this, limiter, clock
      ensures AnalysisRequest(baseUrl, id) == Request(Get, baseUrl + "/analyses/" + id, "")
      ensures id == "" ==> r == Err(InvalidArgument) && Untouched()
      ensures id != "" ==>
        && Performed([Exchange(AnalysisRequest(baseUrl, id), reply)]) && r == Outcome(reply)
        && Grants(log) == old(Grants(log)) + [g] && old(clock.now) <= g.at <= clock.now
        && (limiter.rate > 0.0 && old(Grants(log)) != [] ==>
              (g.at - old(Grants(log)[|Grants(log)| - 1].at)) * limiter.rate >= 1.0)
    {
      hide Outcome, Paced, Exchanges, Grants, Asked, RateLimiter.Valid, VirusTotal.Valid, VirusTotal.OwnSleep;
      if id == "" {
        reply, g := Reply(0, false, ""), Grant(0.0, 0.0);
        return Err(InvalidArgument), reply, g;
      }
      r, reply, g := Perform(AnalysisRequest(baseUrl, id));
    }

    // ---------------------------------------------------------------- several requests

    method GetUrlReport(urlOrId: ByteString, scanIfNoReport: bool)
      returns (r: Result<string>, ghost trace: seq<Exchange>)
      requires Valid()
      modifies this, limiter, clock
      ensures Performed(trace) && UrlReportTrace(baseUrl, urlOrId, scanIfNoReport, trace, r)
      ensures forall k :: 0 <= k < |trace| ==>
        trace[k].request ==
        if k == 1 then Request(Post, baseUrl + "/urls", urlOrId)
        else Request(Get, baseUrl + "/urls/" + if Contains(urlOrId, "://") then Url.EncodeUrl(urlOrId) else urlOrId, "")
    {
      hide Outcome, Exchanges, Grants, Paced, Contains, OnSchedule, UrlReportRequest, ScanUrlRequest, Url.EncodeUrl;
      hide RateLimiter.Valid, VirusTotal.Valid, VirusTotal.OwnSleep;
      UrlReportTarget(baseUrl, urlOrId);
      var id := urlOrId;
      if Contains(urlOrId, "://") {
        id := Url.Base64UrlEncode(urlOrId);
      }
      var get := Request(Get, baseUrl + "/urls/" + id, "");
      ghost var reply, g;
      r, reply, g := Perform(get);
      trace := [Exchange(get, reply)];
      if r == Err(NotFound) {
        if scanIfNoReport {
          var scan;
          ghost var posted;
          scan, posted := ScanUrl(urlOrId);
          trace := trace + posted;
          if scan.Err? {
            return Err(scan.error), trace;
          }
          r, reply, g := Perform(get);
          trace := trace + [Exchange(get, reply)];
        }
      }
    }

    method ScanLargeFile(size: nat, filename: string) returns (r: Result<string>, ghost trace: seq<Exchange>)
      requires Valid()
      modifies this, limiter, clock
      ensures size > 650 * 1024 * 1024 ==> r == Err(InvalidArgument) && trace == [] && Untouched()
      ensures size <= 650 * 1024 * 1024 ==>
        && Performed(trace) && UploadTrace(baseUrl, filename, trace, r)
        && trace[0].request == Request(Get, baseUrl + "/files/upload_url", "")
        && (|trace| == 2 ==> trace[1].request.verb == Post && trace[1].request.payload == filename)
    {
      hide Outcome, Exchanges, Grants, Paced, Contains, OnSchedule, Asked;
      hide RateLimiter.Valid, VirusTotal.Valid, VirusTotal.OwnSleep;
      trace := [];
      if size > LARGE_FILE_SIZE_LIMIT {
        return Err(InvalidArgument), [];
      }
      ghost var reply, g;
      r, reply, g := Perform(Request(Get, baseUrl + "/files/upload_url", ""));
      trace := [Exchange(Request(Get, baseUrl + "/files/upload_url", ""), reply)];
      if r.Err? {
        return;
      }
      var uploadUrl := r.value;
      if !Contains(uploadUrl, "://") {
        uploadUrl := if uploadUrl == "" || uploadUrl[0] != '/' then baseUrl + "/" + uploadUrl else baseUrl + uploadUrl;
      }
      r, reply, g := Perform(Request(Post, uploadUrl, filename));
      trace := trace + [Exchange(Request(Post, uploadUrl, filename), reply)];
    }

    // ---------------------------------------------------------------- batches

    method RequireValidHashes(hashes: seq<string>) returns (ok: bool)
      ensures ok <==> forall k :: 0 <= k < |hashes| ==> Hashing.IsHexHash(hashes[k])
    {
      for i := 0 to |hashes|
        invariant forall k :: 0 <= k < i ==> Hashing.IsHexHash(hashes[k])
      {
        var valid := Hashing.CheckHexHash(hashes[i]);
        if !valid {
          return false;
        }
      }
      return true;
    }

    method RequireValidUrls(urls: seq<ByteString>) returns (ok: bool)
      ensures ok <==> forall k :: 0 <= k < |urls| ==> IsUrl(urls[k])
    {
      for i := 0 to |urls|
        invariant forall k :: 0 <= k < i ==> IsUrl(urls[k])
      {
        if urls[i] == "" || !Contains(urls[i], "://") {
          return false;
        }
      }
      return true;
    }

    method RescanFiles(hashes: seq<string>) returns (r: Result<seq<string>>, ghost trace: seq<Exchange>)
      requires Valid()
      modifies this, limiter, clock
      ensures (exists k :: 0 <= k < |hashes| && !Hashing.IsHexHash(hashes[k])) ==>
        r == Err(InvalidArgument) && trace == [] && Untouched()
      ensures (forall k :: 0 <= k < |hashes| ==> Hashing.IsHexHash(hashes[k])) ==>
        && Performed(trace)
        && BatchTrace(Requests(hashes, h => RescanFileRequest(baseUrl, h)), trace, r)
    {
      hide Outcome, BatchTrace, BatchSoFar, Exchanges, Grants, Paced, RescanFileRequest, Hashing.IsHexHash;
      hide RateLimiter.Valid, VirusTotal.Valid, VirusTotal.OwnSleep;
      trace := [];
      var ok := RequireValidHashes(hashes);
      if !ok {
        return Err(InvalidArgument), [];
      }
      ghost var requests := Requests(hashes, h => RescanFileRequest(baseUrl, h));
      NothingBatched(requests);
      var out := [];
      for i := 0 to |hashes|
        invariant Performed(trace)
        invariant |trace| == i && BatchSoFar(requests, trace, out)
      {
        var one;
        ghost var t;
        one, t := RescanFile(hashes[i]);
        BatchNext(requests, trace, out, t[0], one);
        assert t == [t[0]];
        trace := trace + t;
        if one.Err? {
          return Err(one.error), trace;
        }
        out := out + [one.value];
      }
      BatchDone(requests, trace, out);
      r := Ok(out);
    }

    method GetFileReports(hashes: seq<string>) returns (r: Result<seq<string>>, ghost trace: seq<Exchange>)
      requires Valid()
      modifies this, limiter, clock
      ensures (exists k :: 0 <= k < |hashes| && !Hashing.IsHexHash(hashes[k])) ==>
        r == Err(InvalidArgument) && trace == [] && Untouched()
      ensures (forall k :: 0 <= k < |hashes| ==> Hashing.IsHexHash(hashes[k])) ==>
        && Performed(trace)
        && BatchTrace(Requests(hashes, h => FileReportRequest(baseUrl, h)), trace, r)
    {
      hide Outcome, BatchTrace, BatchSoFar, Exchanges, Grants, Paced, FileReportRequest, Hashing.IsHexHash;
      hide RateLimiter.Valid, VirusTotal.Valid, VirusTotal.OwnSleep;
      trace := [];
      var ok := RequireValidHashes(hashes);
      if !ok {
        return Err(InvalidArgument), [];
      }
      ghost var requests := Requests(hashes, h => FileReportRequest(baseUrl, h));
      NothingBatched(requests);
      var out := [];
      for i := 0 to |hashes|
        invariant Performed(trace)
        invariant |trace| == i && BatchSoFar(requests, trace, out)
      {
        var one;
        ghost var t;
        one, t := GetFileReport(hashes[i]);
        BatchNext(requests, trace, out, t[0], one);
        assert t == [t[0]];
        trace := trace + t;
        if one.Err? {
          return Err(one.error), trace;
        }
        out := out + [one.value];
      }
      BatchDone(requests, trace, out);
      r := Ok(out);
    }

    method ScanUrls(urls: seq<ByteString>) returns (r: Result<seq<string>>, ghost trace: seq<Exchange>)
      requires Valid()
      modifies this, limiter, clock
      ensures (exists k :: 0 <= k < |urls| && !IsUrl(urls[k])) ==>
        r == Err(InvalidArgument) && trace == [] && Untouched()
      ensures (forall k :: 0 <= k < |urls| ==> IsUrl(urls[k])) ==>
        && Performed(trace)
        && BatchTrace(Requests(urls, u => ScanUrlRequest(baseUrl, u)), trace, r)
    {
      hide Outcome, BatchTrace, BatchSoFar, Exchanges, Grants, Paced, ScanUrlRequest, IsUrl;
      hide RateLimiter.Valid, VirusTotal.Valid, VirusTotal.OwnSleep;
      trace := [];
      var ok := RequireValidUrls(urls);
      if !ok {
        return Err(InvalidArgument), [];
      }
      ghost var requests := Requests(urls, u => ScanUrlRequest(baseUrl, u));
      NothingBatched(requests);
      var out := [];
      for i := 0 to |urls|
        invariant Performed(trace)
        invariant |trace| == i && BatchSoFar(requests, trace, out)
      {
        var one;
        ghost var t;
        one, t := ScanUrl(urls[i]);
        BatchNext(requests, trace, out, t[0], one);
        assert t == [t[0]];
        trace := trace + t;
        if one.Err? {
          return Err(one.error), trace;
        }
        out := out + [one.value];
      }
      BatchDone(requests, trace, out);
      r := Ok(out);
    }

    method GetUrlReports(urls: seq<ByteString>) returns (r: Result<seq<string>>, ghost trace: seq<Exchange>)
      requires Valid()
      modifies this, limiter, clock
      ensures (exists k :: 0 <= k < |urls| && !IsUrl(urls[k])) ==>
        r == Err(InvalidArgument) && trace == [] && Untouched()
      ensures (forall k :: 0 <= k < |urls| ==> IsUrl(urls[k])) ==>
        && Performed(trace)
        && BatchTrace(Requests(urls, u => UrlReportRequest(baseUrl, u)), trace, r)
    {
      hide Outcome, BatchTrace, BatchSoFar, Exchanges, Grants, Paced, UrlReportRequest, ScanUrlRequest, IsUrl;
      hide RateLimiter.Valid, VirusTotal.Valid, VirusTotal.OwnSleep;
      trace := [];
      var ok := RequireValidUrls(urls);
      if !ok {
        return Err(InvalidArgument), [];
      }
      ghost var requests := Requests(urls, u => UrlReportRequest(baseUrl, u));
      NothingBatched(requests);
      var out := [];
      for i := 0 to |urls|
        invariant Performed(trace)
        invariant |trace| == i && BatchSoFar(requests, trace, out)
      {
        var one;
        ghost var t;
        one, t := GetUrlReport(urls[i], false);
        BatchNext(requests, trace, out, t[0], one);
        assert t == [t[0]];
        trace := trace + t;
        if one.Err? {
          return Err(one.error), trace;
        }
        out := out + [one.value];
      }
      BatchDone(requests, trace, out);
      r := Ok(out);
    }

    // ---------------------------------------------------------------- polling

    // The polls of a watch so far: on pace, apart, within the bound, and paused for as often as said.
    ghost predicate Watching(w: Watch, last: real, pauses: int, trace: seq<Exchange>)
      reads this, limiter, clock
    {
      && 2 <= w.pause <= w.limit && w.rate >= 0.0 && w.start <= clock.now
      && w.own == w.requested - Asked(Grants(w.before), w.rate)
      && GrownBy(w.before, w.rate, w.began, trace)
      && OwnSleep() == w.own + Paused(pauses, w.pause)
      && Spaced(Grants(log), |Grants(w.before)|, PollPeriod(w.pause, w.rate))
      && OnPace(|trace|, last - w.start, PollPeriod(w.pause, w.rate))
      && |trace| <= PollBound(w.limit, w.pause, w.rate)
      && (trace != [] ==> Grants(log) != [] && Grants(log)[|Grants(log)| - 1].at == last <= clock.now)
    }

    // The next poll is due: it is the first, or the last one is a pause ago and was in time.
    ghost predicate PollDue(w: Watch, last: real, trace: seq<Exchange>)
      reads clock
    {
      trace != [] ==> clock.now >= last + w.pause as real && last - w.start < w.limit as real
    }

    twostate lemma WatchBegins(new w: Watch)
      requires old(Valid()) && unchanged(this) && unchanged(limiter)
      requires clock.now >= old(clock.now) && clock.requested == old(clock.requested)
      requires w ==
        Watch(log, limiter.rate, old(clock.now), clock.requested, old(OwnSleep()), w.pause, w.limit, clock.now)
      requires 2 <= w.pause <= w.limit
      ensures Watching(w, w.start, 0, []) && PollDue(w, w.start, [])
    {
      hide Paced, Exchanges, Grants, Asked, RateLimiter.Valid, VirusTotal.Valid, PollPeriod, PollBound, Paused;
      TimePasses();
      RateIsNonNegative();
      NoPolls(w.limit, w.pause, w.rate);
      NothingSpaced(Grants(log), PollPeriod(w.pause, w.rate));
      OneMorePause(0, w.pause);
    }

    lemma PollIsDue(w: Watch, last: real, trace: seq<Exchange>)
      requires Watching(w, last, |trace|, trace) && PollDue(w, last, trace)
      ensures Valid() && limiter.rate == w.rate
      ensures |trace| + 1 <= PollBound(w.limit, w.pause, w.rate) && |trace| < w.limit + 1
      ensures trace != [] <==> |Grants(log)| > |Grants(w.before)|
    {
      hide Grants, Asked, Paused, PollPeriod, PollBound, RateLimiter.Valid, VirusTotal.Valid, VirusTotal.GrownBy;
      GrownIsValid(w.before, w.rate, w.began, trace);
      PollCount(|trace|, last - w.start, w.limit, w.pause, w.rate);
    }

    twostate lemma PollPerformed(new w: Watch, new last: real, new trace: seq<Exchange>, new x: Exchange, new g: Grant)
      requires old(Watching(w, last, |trace|, trace)) && old(PollDue(w, last, trace))
      requires |trace| + 1 <= PollBound(w.limit, w.pause, w.rate) && old(limiter.rate) == w.rate
      requires trace != [] <==> old(|Grants(log)|) > |Grants(w.before)|
      requires Performed([x]) && Grants(log) == old(Grants(log)) + [g] && old(clock.now) <= g.at <= clock.now
      requires limiter.rate > 0.0 && old(Grants(log)) != [] ==>
        (g.at - old(Grants(log)[|Grants(log)| - 1].at)) * limiter.rate >= 1.0
      ensures Watching(w, g.at, |trace|, trace + [x])
    {
      hide Grants, Asked, Paused, PollPeriod, PollBound, Spaced, OnPace, Exchanges;
      hide RateLimiter.Valid, VirusTotal.Valid, VirusTotal.GrownBy, VirusTotal.OwnSleep;
      var period := PollPeriod(w.pause, w.rate);
      PerformsMore(w.before, w.rate, w.began, trace, [x]);
      GrownIsValid(w.before, w.rate, w.began, trace + [x]);
      NextPoll(|trace|, w.start, last, g.at, w.pause, w.rate);
      SpacedNext(old(Grants(log)), |Grants(w.before)|, period, g);
    }

    // Time passing keeps the watch, and a pause asked for counts as one.
    twostate lemma WatchGoesOn(new w: Watch, new last: real, new pauses: int, new trace: seq<Exchange>)
      requires old(Watching(w, last, pauses, trace))
      requires unchanged(this) && unchanged(limiter) && clock.now >= old(clock.now)
      ensures clock.requested == old(clock.requested) ==> Watching(w, last, pauses, trace)
      ensures clock.requested == old(clock.requested) + w.pause as real ==> Watching(w, last, pauses + 1, trace)
    {
      hide Grants, Asked, Paused, PollPeriod, PollBound, Spaced, OnPace, Exchanges;
      hide RateLimiter.Valid, VirusTotal.Valid, VirusTotal.GrownBy, VirusTotal.OwnSleep;
      PausesOnly(w.before, w.rate, w.began, trace);
      OneMorePause(pauses, w.pause);
    }

    lemma WatchEnds(w: Watch, last: real, trace: seq<Exchange>)
      requires Watching(w, last, |trace| - 1, trace)
      ensures Valid() && limiter.rate == w.rate >= 0.0 && GrownBy(w.before, w.rate, w.began, trace)
      ensures |trace| <= PollBound(w.limit, w.pause, w.rate)
      ensures Spaced(Grants(log), |Grants(w.before)|, PollPeriod(w.pause, w.rate))
      ensures var pauses := ((|trace| - 1) * w.pause) as real;
              OwnSleep() - w.own == pauses && SleepWithin(clock.requested - w.requested, pauses, |trace|, w.rate)
    {
      hide Grants, Asked, PollPeriod, PollBound, Spaced, OnPace, RateLimiter.Valid, VirusTotal.Valid;
      hide VirusTotal.GrownBy, VirusTotal.OwnSleep;
      GrownIsValid(w.before, w.rate, w.began, trace);
      SleepBounds(w.before, w.rate, w.began, trace);
    }

    // Polls at the interval, not below two seconds, until the analysis is completed, a poll fails or
    // the timeout, not below the interval, has passed. Between two polls it asks for one pause of the
    // interval, and for no other sleep than that and what the limiter asks for.
    method AwaitAnalysis(id: string, timeout: int, interval: int)
      returns (r: Result<string>, ghost trace: seq<Exchange>)
      requires Valid()
      modifies this, limiter, clock
      ensures id == "" ==> r == Err(InvalidArgument) && trace == [] && Untouched()
      ensures id != "" ==>
        GrownBy(old(log), old(limiter.rate), old(clock.now), trace) && PollTrace(baseUrl, id, trace, r)
      ensures r.Ok? ==> r.value == "completed"
      ensures id != "" ==>
        var pause := if interval < 2 then 2 else interval;
        var limit := if timeout < pause then pause else timeout;
        var pauses := ((|trace| - 1) * pause) as real;
        && limiter.rate >= 0.0 && |trace| <= PollBound(limit, pause, limiter.rate)
        && (r == Err(TimedOut) ==> clock.now - old(clock.now) >= limit as real)
        && Spaced(Grants(log), |old(Grants(log))|, PollPeriod(pause, limiter.rate))
        && OwnSleep() - old(OwnSleep()) == pauses
        && SleepWithin(clock.requested - old(clock.requested), pauses, |trace|, limiter.rate)
    {
      hide Outcome, Exchanges, Paced, AnalysisRequest, Grants, Asked, Settled, Unfinished, PollTrace, Spaced;
      hide PollPeriod, PollBound, OnPace, SleepWithin, RateLimiter.Valid, VirusTotal.Valid, VirusTotal.GrownBy;
      hide VirusTotal.OwnSleep, VirusTotal.Watching;
      trace := [];
      if id == "" {
        return Err(InvalidArgument), [];
      }
      var pause := if interval < 2 then 2 else interval;
      var limit := if timeout < pause then pause else timeout;
      ghost var requested, own := clock.requested, OwnSleep();
      var start := clock.Read();
      ghost var w := Watch(log, limiter.rate, old(clock.now), requested, own, pause, limit, start);
      WatchBegins(w);
      NothingPolled(baseUrl, id);
      ghost var last := start;
      while true
        invariant Watching(w, last, |trace|, trace) && PollDue(w, last, trace)
        invariant Unfinished(baseUrl, id, trace)
        decreases limit + 1 - |trace|
      {
        ghost var reply, g;
        PollIsDue(w, last, trace);
        label polling:
        r, reply, g := GetAnalysis(id);
        PollPerformed@polling(w, last, trace, Exchange(AnalysisRequest(baseUrl, id), reply), g);
        PollAnswered(baseUrl, id, trace, reply);
        last := g.at;
        trace := trace + [Exchange(AnalysisRequest(baseUrl, id), reply)];
        WatchEnds(w, last, trace);
        if r.Err? {
          return;
        }
        if r.value == "completed" {
          return;
        }
        label polled:
        var now := clock.Read();
        WatchGoesOn@polled(w, last, |trace| - 1, trace);
        if now - start >= limit as real {
          WatchEnds(w, last, trace);
          return Err(TimedOut), trace;
        }
        label pausing:
        clock.SleepFor(pause as real);
        WatchGoesOn@pausing(w, last, |trace| - 1, trace);
      }
    }

    // ---------------------------------------------------------------- whole programs

    method RunBatch(call: Call) returns (answer: Answer, ghost trace: seq<Exchange>)
      requires call.RescanFiles? || call.GetFileReports? || call.ScanUrls? || call.GetUrlReports?
      requires Valid()
      modifies this, limiter, clock
      ensures Valid() && limiter.rate == old(limiter.rate) && old(log) <= log
      ensures Exchanges(log) == old(Exchanges(log)) + trace && CallTrace(baseUrl, call, trace, answer)
    {
      hide RateLimiter.Valid, VirusTotal.Valid, BatchTrace, UrlReportTrace, UploadTrace, PollTrace;
      hide Exchanges, Grants, Asked, VirusTotal.OwnSleep, Hashing.IsHexHash, IsUrl, Outcome, Spaced;
      hide FileReportRequest, RescanFileRequest, ScanUrlRequest, UrlReportRequest, AnalysisRequest;
      var many;
      match call {
        case RescanFiles(hashes) =>
          many, trace := RescanFiles(hashes);
        case GetFileReports(hashes) =>
          many, trace := GetFileReports(hashes);
        case ScanUrls(urls) =>
          many, trace := ScanUrls(urls);
        case GetUrlReports(urls) =>
          many, trace := GetUrlReports(urls);
      }
      answer := Many(many);
    }

    method RunOne(call: Call) returns (answer: Answer, ghost trace: seq<Exchange>)
      requires !call.RescanFiles? && !call.GetFileReports? && !call.ScanUrls? && !call.GetUrlReports?
      requires Valid()
      modifies this, limiter, clock
      ensures Valid() && limiter.rate == old(limiter.rate) && old(log) <= log
      ensures Exchanges(log) == old(Exchanges(log)) + trace && CallTrace(baseUrl, call, trace, answer)
    {
      hide RateLimiter.Valid, VirusTotal.Valid, BatchTrace, UrlReportTrace, UploadTrace, PollTrace;
      hide Exchanges, Grants, Asked, VirusTotal.OwnSleep, Hashing.IsHexHash, IsUrl, Outcome, Spaced;
      hide FileReportRequest, RescanFileRequest, ScanUrlRequest, UrlReportRequest, AnalysisRequest;
      var one;
      match call {
        case GetFileReport(hash) =>
          one, trace := GetFileReport(hash);
        case RescanFile(hash) =>
          one, trace := RescanFile(hash);
        case ScanUrl(url) =>
          one, trace := ScanUrl(url);
        case GetAnalysis(id) =>
          ghost var reply, g;
          one, reply, g := GetAnalysis(id);
          trace := if id != "" then [Exchange(AnalysisRequest(baseUrl, id), reply)] else [];
        case GetUrlReport(urlOrId, scanIfNoReport) =>
          one, trace := GetUrlReport(urlOrId, scanIfNoReport);
        case ScanLargeFile(size, filename) =>
          one, trace := ScanLargeFile(size, filename);
        case AwaitAnalysis(id, timeout, interval) =>
          one, trace := AwaitAnalysis(id, timeout, interval);
      }
      answer := One(one);
    }

    method RunCall(call: Call) returns (answer: Answer, ghost trace: seq<Exchange>)
      requires Valid()
      modifies this, limiter, clock
      ensures Valid() && limiter.rate == old(limiter.rate) && old(log) <= log
      ensures Exchanges(log) == old(Exchanges(log)) + trace && CallTrace(baseUrl, call, trace, answer)
    {
      if call.RescanFiles? || call.GetFileReports? || call.ScanUrls? || call.GetUrlReports? {
        answer, trace := RunBatch(call);
      } else {
        answer, trace := RunOne(call);
      }
    }

    lemma RequestsKeepRate()
      requires Valid()
      ensures limiter.rate > 0.0 ==>
        forall lo, hi :: lo <= hi ==> RequestsIn(log, lo, hi) <= Allowance(hi - lo, limiter.rate)
    {
      hide RequestsIn, Allowance, OnSchedule, Paced;
      if limiter.rate > 0.0 {
        forall lo, hi | lo <= hi
          ensures RequestsIn(log, lo, hi) <= Allowance(hi - lo, limiter.rate)
        {
          RequestWindowBound(log, limiter.rate, lo, hi);
        }
      }
    }

    // Any sequence of calls a program makes, whatever the replies: what goes out is the exchanges of
    // the calls in order, and in every window the requests stamped at their grants keep to the rate.
    method RunProgram(calls: seq<Call>) returns (answers: seq<Answer>, ghost traces: seq<seq<Exchange>>)
      requires Valid()
      modifies this, limiter, clock
      ensures Valid() && limiter.rate == old(limiter.rate) && old(log) <= log
      ensures Exchanges(log) == old(Exchanges(log)) + Concat(traces)
      ensures ProgramTrace(baseUrl, calls, traces, answers)
      ensures limiter.rate > 0.0 ==>
        forall lo, hi :: lo <= hi ==> RequestsIn(log, lo, hi) <= Allowance(hi - lo, limiter.rate)
    {
      hide RateLimiter.Valid, VirusTotal.Valid, RequestsIn, Allowance, Exchanges, Concat, CallTrace, ProgramTrace;
      answers, traces := [], [];
      NothingCalled(baseUrl);
      for i := 0 to |calls|
        invariant Valid() && limiter.rate == old(limiter.rate) && old(log) <= log
        invariant Exchanges(log) == old(Exchanges(log)) + Concat(traces)
        invariant ProgramTrace(baseUrl, calls[..i], traces, answers)
      {
        var answer;
        ghost var trace;
        answer, trace := RunCall(calls[i]);
        CallNext(baseUrl, calls, i, traces, answers, trace, answer);
        assert old(Exchanges(log)) + Concat(traces) + trace == old(Exchanges(log)) + (Concat(traces) + trace);
        answers, traces := answers + [answer], traces + [trace];
      }
      assert calls[..|calls|] == calls;
      RequestsKeepRate();
    }
  }
}
