/** One feed's polling task, `PollXCore`: `getData` sends an authenticated
    GET and hands back the response stream or nothing, and `run` repeats
    fetch, write-if-data and sleep until an exception ends it. The network,
    the file system and the clock are inputs: every round of the loop is
    given what the server answers, whether copying the stream to the output
    file succeeds, and whether the sleep is interrupted. */
module PollXCore {
  import opened Wrappers
  import opened JavaInt
  import opened Utf8
  import Base64
  import OpenFeedProcessor

  type AuthInfo = OpenFeedProcessor.AuthInfo

  // ----- getData -----

  /** What `getData` configures on the connection. `readTimeoutMillis` is
      `None` because no read timeout is ever set, so reads may block forever. */
  datatype Request = Request(url: string, authorization: string, connectTimeoutMillis: int32, readTimeoutMillis: Option<int32>)

  /** What the connection does with a request. */
  datatype Response =
    | Opened(body: seq<uint8>)      // getInputStream returns the body stream
    | ConnectTimedOut               // SocketTimeoutException
    | IoFailure(status: Option<int>) // another IOException; the code getResponseCode reports, if any
    | OtherFailure                  // any other exception

  /** The value `getData` returns: the body stream, or `null`. */
  datatype Fetched = Stream(bytes: seq<uint8>) | Null

  /** The `Authorization` header value: the user name, a colon and the
      password, encoded as bytes by `String.getBytes()` and then in base64
      (section 2 of RFC 7617). */
  function BasicCredentials(username: string, password: string): string {
    "Basic " + Base64.Encode(Utf8.Encode(username + ":" + password))
  }

  /** The request `getData` sends for a feed. */
  function RequestFor(info: AuthInfo): (r: Request)
    ensures r.url == info.url
    ensures r.authorization == BasicCredentials(info.username, info.password)
    ensures r.connectTimeoutMillis == 30000 && r.readTimeoutMillis == None
  {
    Request(info.url, BasicCredentials(info.username, info.password), Mul32(OpenFeedProcessor.Timeout, 1000), None)
  }

  /** `getData`. `urlParses` says whether `new URL(info.url)` succeeds;
      `exchange` is what the connection does, the server's answer or a
      non-HTTP URL handler failing the `HttpURLConnection` cast. When the URL is malformed no
      request is sent, and the null dereference in the `IOException` handler
      is discarded by the `return` in `finally`: every failure yields `Null`. */
  function GetData(info: AuthInfo, urlParses: bool, exchange: Request -> Response): (r: Fetched)
    ensures r.Stream? <==> urlParses && exchange(RequestFor(info)).Opened?
    ensures r.Stream? ==> r.bytes == exchange(RequestFor(info)).body
  {
    if !urlParses then Null
    else
      match exchange(RequestFor(info))
      case Opened(body) => Stream(body)
      case ConnectTimedOut => Null
      case IoFailure(_) => Null
      case OtherFailure => Null
  }

  // ----- What a server reads from the header -----

  /** The user name and password before the first colon and after it, as a
      server following section 2 of RFC 7617 splits them. */
  function SplitAtFirstColon(s: string): Option<(string, string)> {
    if |s| == 0 then None
    else if s[0] == ':' then Some(("", s[1..]))
    else
      match SplitAtFirstColon(s[1..])
      case None => None
      case Some((user, pass)) => Some(([s[0]] + user, pass))
  }

  /** A server's reading of an `Authorization` header value. */
  function ParseBasic(h: string): Option<(string, string)> {
    if |h| < 6 || h[..6] != "Basic " then None
    else
      match Base64.Decode(h[6..])
      case None => None
      case Some(bytes) =>
        match Utf8.Decode(bytes)
        case None => None
        case Some(s) => SplitAtFirstColon(s)
  }

  lemma {:induction false} SplitAtColonAfter(user: string, password: string)
    requires ':' !in user
    ensures SplitAtFirstColon(user + ":" + password) == Some((user, password))
  {
    var s := user + ":" + password;
    if |user| == 0 {
      assert s[1..] == password;
    } else {
      assert s[0] == user[0];
      assert s[1..] == user[1..] + ":" + password;
      SplitAtColonAfter(user[1..], password);
      assert [user[0]] + user[1..] == user;
    }
  }

  /** The header carries exactly the configured credentials: a server
      decodes it back to the user name and password, provided the user name
      has no colon. */
  lemma BasicCredentialsDecode(username: string, password: string)
    requires ':' !in username
    ensures ParseBasic(BasicCredentials(username, password)) == Some((username, password))
  {
    var h := BasicCredentials(username, password);
    var bytes := Utf8.Encode(username + ":" + password);
    assert h[..6] == "Basic ";
    assert h[6..] == Base64.Encode(bytes);
    Base64.DecodeEncode(bytes);
    Utf8.DecodeEncode(username + ":" + password);
    SplitAtColonAfter(username, password);
  }

  /** Credentials whose user names have no colon give distinct headers. */
  lemma BasicCredentialsInjective(u1: string, p1: string, u2: string, p2: string)
    requires ':' !in u1 && ':' !in u2
    requires BasicCredentials(u1, p1) == BasicCredentials(u2, p2)
    ensures u1 == u2 && p1 == p2
  {
    BasicCredentialsDecode(u1, p1);
    BasicCredentialsDecode(u2, p2);
  }

  /** A colon in the user name is not rejected, and then two different
      credential pairs send the same header. */
  lemma ColonInUsernameAmbiguous()
    ensures BasicCredentials("a:b", "c") == BasicCredentials("a", "b:c")
    ensures ParseBasic(BasicCredentials("a:b", "c")) == Some(("a", "b:c"))
  {
    assert "a:b" + ":" + "c" == "a" + ":" + "b:c";
    BasicCredentialsDecode("a", "b:c");
  }

  // ----- run -----

  /** How copying the body stream to the output file ends: `Files.copy`
      throws an `IOException` when reading the stream or writing the file fails. */
  datatype CopyResult = Copied | CopyFailed

  /** How a `Thread.sleep` ends. */
  datatype WakeResult = Woke | InterruptedWhileAsleep

  /** The environment of one pass of the loop. */
  datatype Round = Round(exchange: Request -> Response, copy: CopyResult, wake: WakeResult)

  datatype Event =
    | Fetch(result: Fetched)                    // getData returned
    | Write(path: string, bytes: seq<uint8>)    // Files.copy to the output file was started
    | Sleep(millis: int32)                      // Thread.sleep with a valid argument

  /** Why the loop is no longer running. `Running`: it ran every given round
      and carries on. `NegativeSleep`: `Thread.sleep` was given a negative
      argument and threw `IllegalArgumentException`, which `run` does not
      catch, so `run` ends. */
  datatype Stop = Running | WriteFailed | Interrupted | NegativeSleep(millis: int32)

  /** The output file: whatever was there before, the bytes of a completed
      copy, or unknown contents after a copy that threw part-way (the copy
      is not atomic). */
  datatype FileState = Previous | Holds(bytes: seq<uint8>) | Indeterminate

  datatype Trace = Trace(events: seq<Event>, stop: Stop, file: FileState)

  /** The argument of `Thread.sleep`: the poll interval times 1000, in 32-bit
      `int` arithmetic. */
  function SleepMillis(pollInterval: int32): int32 {
    Mul32(pollInterval, 1000)
  }

  /** The sleep that closes a pass, after `events`. */
  function Pause(info: AuthInfo, events: seq<Event>, wake: WakeResult, file: FileState): Trace {
    var ms := SleepMillis(info.pollInterval);
    if ms < 0 then Trace(events, NegativeSleep(ms), file)
    else Trace(events + [Sleep(ms)], if wake == Woke then Running else Interrupted, file)
  }

  /** One pass of the `while (true)` body. */
  function Iteration(info: AuthInfo, urlParses: bool, round: Round, file: FileState): Trace {
    var fetched := GetData(info, urlParses, round.exchange);
    match fetched
    case Null => Pause(info, [Fetch(fetched)], round.wake, file)
    case Stream(bytes) =>
      var events := [Fetch(fetched), Write(info.outputFile, bytes)];
      if round.copy == CopyFailed then Trace(events, WriteFailed, Indeterminate)
      else Pause(info, events, round.wake, Holds(bytes))
  }

  /** `run` over the given rounds, from the output file's state `file`. */
  function Run(info: AuthInfo, urlParses: bool, rounds: seq<Round>, file: FileState): Trace
    decreases |rounds|
  {
    if |rounds| == 0 then Trace([], Running, file)
    else
      var t := Iteration(info, urlParses, rounds[0], file);
      if t.stop != Running then t
      else
        var rest := Run(info, urlParses, rounds[1..], t.file);
        Trace(t.events + rest.events, rest.stop, rest.file)
  }

  // ----- Properties of the loop -----

  /** Why a round ends the loop, stated from the round's inputs in the order
      the exceptions arise: an `IOException` from `Files.copy` of a fetched
      stream, then the `IllegalArgumentException` of a negative sleep
      argument, then an `InterruptedException` during the sleep; `Running`
      when none of them happens and `while (true)` goes round again. */
  function RoundStop(info: AuthInfo, urlParses: bool, round: Round): Stop {
    var ms := SleepMillis(info.pollInterval);
    if GetData(info, urlParses, round.exchange).Stream? && round.copy == CopyFailed then WriteFailed
    else if ms < 0 then NegativeSleep(ms)
    else if round.wake == InterruptedWhileAsleep then Interrupted
    else Running
  }

  /** A round after which the loop goes on. */
  predicate Clean(info: AuthInfo, urlParses: bool, round: Round) {
    RoundStop(info, urlParses, round) == Running
  }

  /** Every fetch that returned data is followed at once by a write of that
      data to the output file, and every write directly follows such a fetch. */
  predicate WritesMatchData(out: string, ev: seq<Event>) {
    && (forall i :: 0 <= i < |ev| && ev[i].Fetch? && ev[i].result.Stream? ==>
          i + 1 < |ev| && ev[i + 1] == Write(out, ev[i].result.bytes))
    && (forall i :: 0 <= i < |ev| && ev[i].Write? ==>
          0 < i && ev[i - 1] == Fetch(Stream(ev[i].bytes)) && ev[i].path == out)
  }

  /** Every fetch but the first comes right after a sleep of `ms`, and every
      sleep lasts `ms`. */
  predicate SleepsBetweenFetches(ms: int32, ev: seq<Event>) {
    && (forall i :: 0 < i < |ev| && ev[i].Fetch? ==> ev[i - 1] == Sleep(ms))
    && (forall i :: 0 <= i < |ev| && ev[i].Sleep? ==> ev[i].millis == ms)
  }

  function FetchCount(ev: seq<Event>): nat {
    if |ev| == 0 then 0 else (if ev[0].Fetch? then 1 else 0) + FetchCount(ev[1..])
  }

  function SleepCount(ev: seq<Event>): nat {
    if |ev| == 0 then 0 else (if ev[0].Sleep? then 1 else 0) + SleepCount(ev[1..])
  }

  /** The bytes of the last write in `ev`, if any. */
  function LastWritten(ev: seq<Event>): Option<seq<uint8>> {
    if |ev| == 0 then None
    else if ev[|ev| - 1].Write? then Some(ev[|ev| - 1].bytes)
    else LastWritten(ev[..|ev| - 1])
  }

  lemma {:induction false} CountsAppend(a: seq<Event>, b: seq<Event>)
    ensures FetchCount(a + b) == FetchCount(a) + FetchCount(b)
    ensures SleepCount(a + b) == SleepCount(a) + SleepCount(b)
  {
    if |a| > 0 {
      assert (a + b)[1..] == a[1..] + b;
      CountsAppend(a[1..], b);
    } else {
      assert a + b == b;
    }
  }

  lemma {:induction false} LastWrittenAppend(a: seq<Event>, b: seq<Event>)
    ensures LastWritten(a + b) == if LastWritten(b).Some? then LastWritten(b) else LastWritten(a)
    decreases |b|
  {
    if |b| == 0 {
      assert a + b == a;
    } else {
      var ab := a + b;
      assert ab[|ab| - 1] == b[|b| - 1];
      assert ab[..|ab| - 1] == a + b[..|b| - 1];
      LastWrittenAppend(a, b[..|b| - 1]);
    }
  }

  lemma WritesMatchDataAppend(out: string, a: seq<Event>, b: seq<Event>)
    requires WritesMatchData(out, a) && WritesMatchData(out, b)
    requires |a| > 0 ==> a[|a| - 1].Sleep?
    requires |b| > 0 ==> b[0].Fetch?
    ensures WritesMatchData(out, a + b)
  {
    var ev := a + b;
    forall i | 0 <= i < |ev| && ev[i].Fetch? && ev[i].result.Stream?
      ensures i + 1 < |ev| && ev[i + 1] == Write(out, ev[i].result.bytes)
    {
      if i < |a| {
        assert ev[i] == a[i];
      } else {
        assert ev[i] == b[i - |a|];
      }
    }
    forall i | 0 <= i < |ev| && ev[i].Write?
      ensures 0 < i && ev[i - 1] == Fetch(Stream(ev[i].bytes)) && ev[i].path == out
    {
      if i < |a| {
        assert ev[i] == a[i];
      } else {
        assert ev[i] == b[i - |a|];
      }
    }
  }

  lemma SleepsBetweenFetchesAppend(ms: int32, a: seq<Event>, b: seq<Event>)
    requires SleepsBetweenFetches(ms, a) && SleepsBetweenFetches(ms, b)
    requires |a| > 0 ==> a[|a| - 1] == Sleep(ms)
    ensures SleepsBetweenFetches(ms, a + b)
  {
    var ev := a + b;
    forall i | 0 < i < |ev| && ev[i].Fetch?
      ensures ev[i - 1] == Sleep(ms)
    {
      if i < |a| {
        assert ev[i] == a[i];
      } else if i > |a| {
        assert ev[i] == b[i - |a|];
      }
    }
    forall i | 0 <= i < |ev| && ev[i].Sleep?
      ensures ev[i].millis == ms
    {
      if i < |a| {
        assert ev[i] == a[i];
      } else {
        assert ev[i] == b[i - |a|];
      }
    }
  }

  /** The argument of `Thread.sleep` is the interval in milliseconds while
      that fits in an `int`: a negative interval from -2147483 to -1 seconds
      gives a negative argument. From 2147484 seconds (about 24.9 days) up to
      4294967 seconds the product wraps to a negative number; from -4294967 to
      -2147484 seconds it wraps to a positive one, so such an interval is
      slept (for up to about 24.9 days) and polling goes on. */
  lemma SleepMillisRange(pollInterval: int32)
    ensures -2147483 <= pollInterval <= 2147483 ==> SleepMillis(pollInterval) == pollInterval * 1000
    ensures -2147483 <= pollInterval < 0 ==> SleepMillis(pollInterval) < 0
    ensures 2147483 < pollInterval <= 4294967 ==>
      SleepMillis(pollInterval) == pollInterval * 1000 - 0x1_0000_0000 < 0
    ensures -4294967 <= pollInterval < -2147483 ==>
      SleepMillis(pollInterval) == pollInterval * 1000 + 0x1_0000_0000 > 0
  {
    var x := pollInterval * 1000;
    if 2147483 < pollInterval || pollInterval < -2147483 {
      var r := SleepMillis(pollInterval);
      assert x - r == 0x1_0000_0000 * ((x - r) / 0x1_0000_0000);
    }
  }

  /** Beyond those ranges the product wraps again: an interval just below
      -4294967 seconds gives a negative argument once more, and the most
      negative `int` gives no pause at all. */
  lemma SleepMillisFarOut()
    ensures SleepMillis(-4294968) == -704 < 0
    ensures SleepMillis(MinInt32) == 0
  {
    var r: int := SleepMillis(-4294968);
    assert -4294968000 - r == 0x1_0000_0000 * ((-4294968000 - r) / 0x1_0000_0000);
    var z: int := SleepMillis(MinInt32);
    assert MinInt32 * 1000 - z == 0x1_0000_0000 * ((MinInt32 * 1000 - z) / 0x1_0000_0000);
  }

  /** With the default interval the loop sleeps an hour. */
  lemma DefaultSleepIsAnHour()
    ensures SleepMillis(OpenFeedProcessor.DefaultPollInterval) == 3_600_000
  {
    SleepMillisRange(OpenFeedProcessor.DefaultPollInterval);
  }

  /** One pass starts with its fetch, writes exactly when that fetch returned
      data, fetches once and sleeps once if it completes or is interrupted
      while asleep and otherwise not at all; a completed pass ends with its
      sleep; the file then holds the data written, is unknown after a failed
      copy and is as before when nothing was written. */
  lemma IterationShape(info: AuthInfo, urlParses: bool, round: Round, file: FileState)
    ensures var t := Iteration(info, urlParses, round, file);
      var ms := SleepMillis(info.pollInterval);
      && |t.events| > 0 && t.events[0] == Fetch(GetData(info, urlParses, round.exchange))
      && WritesMatchData(info.outputFile, t.events)
      && SleepsBetweenFetches(ms, t.events)
      && (t.stop == Running ==> t.events[|t.events| - 1] == Sleep(ms))
      && FetchCount(t.events) == 1
      && SleepCount(t.events) == (if t.stop == Running || t.stop == Interrupted then 1 else 0)
      && (t.stop != WriteFailed ==> (ms < 0 <==> t.stop.NegativeSleep?))
      && (t.stop == WriteFailed <==> GetData(info, urlParses, round.exchange).Stream? && round.copy == CopyFailed)
      && (t.stop == Interrupted <==>
            && !(GetData(info, urlParses, round.exchange).Stream? && round.copy == CopyFailed)
            && ms >= 0 && round.wake == InterruptedWhileAsleep)
      && (t.stop == Running <==>
            && !(GetData(info, urlParses, round.exchange).Stream? && round.copy == CopyFailed)
            && ms >= 0 && round.wake == Woke)
      && t.file == (if t.stop == WriteFailed then Indeterminate
                    else if LastWritten(t.events).Some? then Holds(LastWritten(t.events).value)
                    else file)
  {
    var ms := SleepMillis(info.pollInterval);
    var fetched := GetData(info, urlParses, round.exchange);
    match fetched
    case Null =>
      ShortCounts([Fetch(fetched)], ms);
    case Stream(bytes) =>
      var events := [Fetch(fetched), Write(info.outputFile, bytes)];
      ShortCounts(events, ms);
  }

  /** A pass stops for exactly the reason `RoundStop` gives, whatever the
      file held before. */
  lemma IterationStop(info: AuthInfo, urlParses: bool, round: Round, file: FileState)
    ensures Iteration(info, urlParses, round, file).stop == RoundStop(info, urlParses, round)
  {
  }

  /** The counts and last write of a pass's events, with or without the
      closing sleep. */
  lemma ShortCounts(events: seq<Event>, ms: int32)
    requires 1 <= |events| <= 2 && events[0].Fetch? && (|events| == 2 ==> events[1].Write?)
    ensures FetchCount(events) == 1 && SleepCount(events) == 0
    ensures FetchCount(events + [Sleep(ms)]) == 1 && SleepCount(events + [Sleep(ms)]) == 1
    ensures LastWritten(events) == LastWritten(events + [Sleep(ms)])
    ensures LastWritten(events) == if |events| == 2 then Some(events[1].bytes) else None
  {
    CountsAppend(events, [Sleep(ms)]);
    LastWrittenAppend(events, [Sleep(ms)]);
    if |events| == 2 {
      assert events[1..][1..] == [];
      assert events[..1] == [events[0]];
      assert [events[0]][..0] == [];
    } else {
      assert events[..0] == [];
    }
  }

  /** The event order of `run`: every fetch that returned data is followed
      at once by the write of that data, every write directly follows such a
      fetch, and every fetch after the first comes right after a completed
      sleep of `pollInterval * 1000` ms (in `int` arithmetic) — fetches of
      one feed never overlap. */
  lemma {:induction false} RunEventOrder(info: AuthInfo, urlParses: bool, rounds: seq<Round>, file: FileState)
    ensures var t := Run(info, urlParses, rounds, file);
      && (|t.events| > 0 ==> t.events[0].Fetch?)
      && WritesMatchData(info.outputFile, t.events)
      && SleepsBetweenFetches(SleepMillis(info.pollInterval), t.events)
    decreases |rounds|
  {
    if |rounds| > 0 {
      IterationShape(info, urlParses, rounds[0], file);
      var it := Iteration(info, urlParses, rounds[0], file);
      if it.stop == Running {
        RunEventOrder(info, urlParses, rounds[1..], it.file);
        var rest := Run(info, urlParses, rounds[1..], it.file);
        WritesMatchDataAppend(info.outputFile, it.events, rest.events);
        SleepsBetweenFetchesAppend(SleepMillis(info.pollInterval), it.events, rest.events);
      }
    }
  }

  /** While the loop runs it fetches and sleeps exactly once per round; once
      it has stopped it has fetched at most once per round, and slept once
      per fetch except after the last fetch when a write failed or the sleep
      argument was negative. */
  lemma {:induction false} RunCounts(info: AuthInfo, urlParses: bool, rounds: seq<Round>, file: FileState)
    ensures var t := Run(info, urlParses, rounds, file);
      && (t.stop == Running ==> FetchCount(t.events) == |rounds| && SleepCount(t.events) == |rounds|)
      && (t.stop != Running ==>
            && 1 <= FetchCount(t.events) <= |rounds|
            && SleepCount(t.events) == FetchCount(t.events) - (if t.stop == Interrupted then 0 else 1))
    decreases |rounds|
  {
    if |rounds| > 0 {
      IterationShape(info, urlParses, rounds[0], file);
      var it := Iteration(info, urlParses, rounds[0], file);
      if it.stop == Running {
        RunCounts(info, urlParses, rounds[1..], it.file);
        var rest := Run(info, urlParses, rounds[1..], it.file);
        CountsAppend(it.events, rest.events);
      }
    }
  }

  /** The output file after `run`: unknown if the last copy threw, otherwise
      the data of the last write, and untouched when nothing was written. */
  lemma {:induction false} RunFile(info: AuthInfo, urlParses: bool, rounds: seq<Round>, file: FileState)
    ensures var t := Run(info, urlParses, rounds, file);
      t.file == (if t.stop == WriteFailed then Indeterminate
                 else if LastWritten(t.events).Some? then Holds(LastWritten(t.events).value)
                 else file)
    decreases |rounds|
  {
    if |rounds| > 0 {
      IterationShape(info, urlParses, rounds[0], file);
      var it := Iteration(info, urlParses, rounds[0], file);
      if it.stop == Running {
        RunFile(info, urlParses, rounds[1..], it.file);
        var rest := Run(info, urlParses, rounds[1..], it.file);
        LastWrittenAppend(it.events, rest.events);
      }
    }
  }

  /** Stopping is permanent: whatever later rounds would bring, nothing more
      happens after the loop has ended. */
  lemma {:induction false} RunStopIsFinal(info: AuthInfo, urlParses: bool, rounds: seq<Round>, more: seq<Round>, file: FileState)
    requires Run(info, urlParses, rounds, file).stop != Running
    ensures Run(info, urlParses, rounds + more, file) == Run(info, urlParses, rounds, file)
    decreases |rounds|
  {
    var all := rounds + more;
    assert all[0] == rounds[0];
    var it := Iteration(info, urlParses, rounds[0], file);
    if it.stop == Running {
      assert all[1..] == rounds[1..] + more;
      RunStopIsFinal(info, urlParses, rounds[1..], more, it.file);
    }
  }

  /** `while (true)` goes on exactly as long as the rounds are clean: the
      loop is still running after the given rounds if and only if none of
      them threw. */
  lemma {:induction false} RunRunning(info: AuthInfo, urlParses: bool, rounds: seq<Round>, file: FileState)
    ensures Run(info, urlParses, rounds, file).stop == Running <==>
      forall i :: 0 <= i < |rounds| ==> Clean(info, urlParses, rounds[i])
    decreases |rounds|
  {
    if |rounds| > 0 {
      var it := Iteration(info, urlParses, rounds[0], file);
      IterationStop(info, urlParses, rounds[0], file);
      if it.stop == Running {
        RunRunning(info, urlParses, rounds[1..], it.file);
        forall i | 0 < i < |rounds|
          ensures rounds[i] == rounds[1..][i - 1]
        {
        }
      }
    }
  }

  /** The first round that is not clean ends `run`, for the reason of that
      round: after `k` clean rounds, round `k`'s exception is the loop's
      stop, and the loop has fetched `k + 1` times. */
  lemma {:induction false} RunStopsAtFirstUnclean(info: AuthInfo, urlParses: bool, rounds: seq<Round>, file: FileState, k: nat)
    requires k < |rounds| && !Clean(info, urlParses, rounds[k])
    requires forall i :: 0 <= i < k ==> Clean(info, urlParses, rounds[i])
    ensures Run(info, urlParses, rounds, file).stop == RoundStop(info, urlParses, rounds[k])
    ensures FetchCount(Run(info, urlParses, rounds, file).events) == k + 1
    decreases k
  {
    var it := Iteration(info, urlParses, rounds[0], file);
    IterationStop(info, urlParses, rounds[0], file);
    IterationShape(info, urlParses, rounds[0], file);
    if k > 0 {
      assert Clean(info, urlParses, rounds[0]);
      var tail := rounds[1..];
      forall i | 0 <= i < k - 1
        ensures Clean(info, urlParses, tail[i])
      {
        assert tail[i] == rounds[i + 1];
      }
      assert tail[k - 1] == rounds[k];
      RunStopsAtFirstUnclean(info, urlParses, tail, it.file, k - 1);
      CountsAppend(it.events, Run(info, urlParses, tail, it.file).events);
    }
  }

  /** When the sleep argument is negative `run` ends in its first pass,
      after one fetch and no sleep, however many rounds follow. */
  lemma NegativeSleepEndsFirstPass(info: AuthInfo, urlParses: bool, rounds: seq<Round>, file: FileState)
    requires SleepMillis(info.pollInterval) < 0 && |rounds| > 0
    ensures var t := Run(info, urlParses, rounds, file);
      && t == Iteration(info, urlParses, rounds[0], file)
      && (t.stop == WriteFailed || t.stop == NegativeSleep(SleepMillis(info.pollInterval)))
      && FetchCount(t.events) == 1 && SleepCount(t.events) == 0
  {
    IterationShape(info, urlParses, rounds[0], file);
  }

  /** A poll interval between 2147484 and 4294967 seconds is admitted by the
      scan but makes the sleep argument negative, so such a feed is fetched
      once and never again. */
  lemma LongIntervalPollsOnce(info: AuthInfo, urlParses: bool, rounds: seq<Round>, file: FileState)
    requires 2147483 < info.pollInterval <= 4294967 && |rounds| > 0
    ensures var t := Run(info, urlParses, rounds, file);
      t.stop != Running && FetchCount(t.events) == 1 && SleepCount(t.events) == 0
  {
    SleepMillisRange(info.pollInterval);
    NegativeSleepEndsFirstPass(info, urlParses, rounds, file);
  }

  /** A fetch that finds nothing never touches the output file: if no round
      yields data, no write is attempted and the file is as before. */
  lemma {:induction false} NoDataNoWrite(info: AuthInfo, urlParses: bool, rounds: seq<Round>, file: FileState)
    requires forall i :: 0 <= i < |rounds| ==> GetData(info, urlParses, rounds[i].exchange) == Null
    ensures var t := Run(info, urlParses, rounds, file);
      && (forall i :: 0 <= i < |t.events| ==> !t.events[i].Write?)
      && t.file == file
    decreases |rounds|
  {
    if |rounds| > 0 {
      var it := Iteration(info, urlParses, rounds[0], file);
      if it.stop == Running {
        NoDataNoWrite(info, urlParses, rounds[1..], it.file);
        var rest := Run(info, urlParses, rounds[1..], it.file);
        var ev := it.events + rest.events;
        forall i | 0 <= i < |ev|
          ensures !ev[i].Write?
        {
          if i >= |it.events| {
            assert ev[i] == rest.events[i - |it.events|];
          }
        }
      }
    }
  }
}
