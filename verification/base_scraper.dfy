/** The site-independent half of the scraper: configuration with default
    headers, safe text extraction, and the fetch routine that retries a
    failing request with a random pre-attempt delay and exponential backoff.

    The network, the random generator and the clock are not modelled as
    effects. Successive `random.uniform` values and successive transport
    outcomes are read from an environment `Env`, a `Cursor` says how many
    of each have been consumed, and every sleep and request is recorded in
    a trace of `Event`s. */
module BaseScraper {
  import opened Types
  import opened Text

  // ---------------------------------------------------------------------
  // Configuration

  /** A scraper instance's configuration, fixed at construction. */
  datatype Scraper = Scraper(
    baseUrl: string,
    headers: map<string, string>,
    maxRetries: int,
    timeout: int,
    delayRange: (real, real))

  const DefaultUserAgent: string :=
    "Mozilla/5.0 (Windows NT 10.0; Win64; x64) AppleWebKit/537.36 (KHTML, like Gecko) Chrome/91.0.4472.124 Safari/537.36"

  const DefaultHeaders: map<string, string> :=
    map["User-Agent" := DefaultUserAgent, "Accept-Language" := "en-US,en;q=0.9"]

  const DefaultMaxRetries: int := 3
  const DefaultTimeout: int := 10
  const DefaultDelayRange: (real, real) := (1.0, 3.0)

  /** `headers or defaults`: a falsy header map (absent or empty) is replaced
      by the defaults; any non-empty map is kept as supplied. */
  function SelectHeaders(supplied: Option<map<string, string>>): (h: map<string, string>)
    ensures h == DefaultHeaders <==> supplied.None? || supplied.value == map[] || supplied.value == DefaultHeaders
    ensures supplied.Some? && supplied.value != map[] ==> h == supplied.value
    ensures h != map[]
  {
    assert "User-Agent" in DefaultHeaders;
    match supplied
    case Some(m) => if m == map[] then DefaultHeaders else m
    case None => DefaultHeaders
  }

  /** Choosing headers a second time changes nothing. */
  lemma SelectHeadersIdempotent(supplied: Option<map<string, string>>)
    ensures SelectHeaders(Some(SelectHeaders(supplied))) == SelectHeaders(supplied)
  {
  }

  /** The constructor: every argument is stored as given except the headers. */
  function NewScraper(
    baseUrl: string,
    headers: Option<map<string, string>>,
    maxRetries: int,
    timeout: int,
    delayRange: (real, real)): (s: Scraper)
    ensures s.baseUrl == baseUrl && s.maxRetries == maxRetries
    ensures s.timeout == timeout && s.delayRange == delayRange
    ensures s.headers == SelectHeaders(headers)
    ensures s.headers != map[]
  {
    Scraper(baseUrl, SelectHeaders(headers), maxRetries, timeout, delayRange)
  }

  // ---------------------------------------------------------------------
  // Safe text extraction

  /** What `extract_text` may be handed. A BeautifulSoup tag is always
      truthy, whatever it contains; `Node` lists its text strings in
      document order. */
  datatype Element =
      /** `None` or another falsy value. */
    | Absent
    | Node(strings: seq<string>)
      /** A truthy value whose `get_text` raises. */
    | Faulty

  function StripAll(ps: seq<string>): (qs: seq<string>)
    ensures |qs| == |ps|
    ensures forall i :: 0 <= i < |ps| ==> qs[i] == Strip(ps[i])
  {
    seq(|ps|, i requires 0 <= i < |ps| => Strip(ps[i]))
  }

  /** `element.get_text(strip=True) if element else default`, with any
      exception from `get_text` answered by `default`. `get_text(strip=True)`
      strips every text string and joins them with no separator. */
  function ExtractText(e: Element, default: string): (r: string)
    ensures !e.Node? ==> r == default
    ensures e.Node? ==> Trimmed(r)
    ensures e == Node([]) ==> r == ""
  {
    match e
    case Node(ps) =>
      var qs := StripAll(ps);
      ConcatTrimmed(qs);
      Concat(qs)
    case _ => default
  }

  /** An element holding one text string yields that string stripped. */
  lemma ExtractTextSingle(p: string, default: string)
    ensures ExtractText(Node([p]), default) == Strip(p)
  {
    var qs := StripAll([p]);
    assert qs == [Strip(p)];
    ConcatSingle(Strip(p));
  }

  /** Text extraction distributes over the element's strings: each string is
      stripped on its own and the results are joined with no separator, so
      `Node(["a ", " b"])` yields "ab". With `ExtractTextSingle` and the empty
      case this determines `ExtractText` on every element. */
  lemma ExtractTextAppend(a: seq<string>, b: seq<string>, default: string)
    ensures ExtractText(Node(a + b), default) == ExtractText(Node(a), default) + ExtractText(Node(b), default)
  {
    assert StripAll(a + b) == StripAll(a) + StripAll(b);
    ConcatAppend(StripAll(a), StripAll(b));
  }

  // ---------------------------------------------------------------------
  // The environment of a fetch

  /** The transport's answer to one `requests.get`: a response whose body
      parses to a document, or any `RequestException` (timeout, connection
      error, error status from `raise_for_status`). */
  datatype Outcome<T> = Delivered(doc: T) | Failed

  /** The outside world as the scraper sees it: `draw(j)` is the `j`-th value
      `random.uniform` returns, and `send(url, j)` is the outcome of the `j`-th
      request sent, which was for `url`. */
  datatype Env<T> = Env(draw: nat -> real, send: (string, nat) -> Outcome<T>)

  /** How many random draws and requests have been consumed so far. */
  datatype Cursor = Cursor(draws: nat, sends: nat)

  /** One observable step of the scraper. */
  datatype Event =
      /** `time.sleep` of a randomly drawn delay. */
    | Jitter(seconds: real)
      /** A request for `url`, on the 0-based attempt `attempt`. */
    | Get(url: string, attempt: nat)
      /** `time.sleep(2**attempt)` after a failed attempt. */
    | Backoff(pause: nat)

  /** The result of one `make_request` call: the answer (`Some(doc)`, `None`,
      or an escaping exception), the number of loop iterations entered, the
      trace of what it did, and where the environment was left. */
  datatype Fetch<T> = Fetch(answer: Result<Option<T>>, attempts: nat, trace: seq<Event>, next: Cursor)

  function Pow2(k: nat): (p: nat)
    ensures p >= 1
  {
    if k == 0 then 1 else 2 * Pow2(k - 1)
  }

  function Max0(n: int): (m: nat) {
    if n < 0 then 0 else n
  }

  /** Total time slept along a trace. */
  function TotalSleep(trace: seq<Event>): (seconds: real)
  {
    if trace == [] then 0.0
    else
      var last := trace[|trace| - 1];
      TotalSleep(trace[..|trace| - 1]) + match last
        case Jitter(d) => d
        case Backoff(k) => k as real
        case Get(_, _) => 0.0
  }

  /** Sum of the `n` random draws starting at index `from`. */
  function SumDraws(draw: nat -> real, from: nat, n: nat): (total: real)
  {
    if n == 0 then 0.0 else SumDraws(draw, from, n - 1) + draw(from + n - 1)
  }

  // ---------------------------------------------------------------------
  // make_request

  /** The retry loop from iteration `attempt` on. An iteration draws a delay
      and sleeps it (a negative delay makes `time.sleep` raise, which is not
      a `RequestException` and escapes), then sends the request. A delivered
      document is returned at once; a failure on the last iteration returns
      `None`; any other failure sleeps `2**attempt` and goes round again. */
  function Retry<T>(maxRetries: int, url: string, env: Env<T>, at: Cursor, attempt: nat): (f: Fetch<T>)
    ensures f.attempts > 0 <==> attempt < maxRetries
    ensures f.attempts <= Max0(maxRetries - attempt)
    ensures f.next.draws == at.draws + f.attempts && at.sends <= f.next.sends
    ensures f.answer.Ok? ==> f.next.sends == at.sends + f.attempts
    ensures f.answer.Raised? ==> f.answer.error == NegativeSleep
    ensures f.answer.Raised? ==> f.attempts >= 1 && f.next.sends == at.sends + f.attempts - 1
    ensures f.answer.Ok? && f.answer.value.None? ==> f.attempts == Max0(maxRetries - attempt)
    decreases maxRetries - attempt
  {
    if attempt >= maxRetries then
      Fetch(Ok(None), 0, [], at)
    else
      var d := env.draw(at.draws);
      if d < 0.0 then
        Fetch(Raised(NegativeSleep), 1, [], Cursor(at.draws + 1, at.sends))
      else
        var tried := [Jitter(d), Get(url, attempt)];
        var at' := Cursor(at.draws + 1, at.sends + 1);
        match env.send(url, at.sends)
        case Delivered(doc) =>
          Fetch(Ok(Some(doc)), 1, tried, at')
        case Failed =>
          if attempt == maxRetries - 1 then
            Fetch(Ok(None), 1, tried, at')
          else
            var rest := Retry(maxRetries, url, env, at', attempt + 1);
            Fetch(rest.answer, 1 + rest.attempts, tried + [Backoff(Pow2(attempt))] + rest.trace, rest.next)
  }

  /** `make_request(url)`: the retry loop over attempts `0 .. maxRetries-1`. */
  function MakeRequest<T>(s: Scraper, url: string, env: Env<T>, at: Cursor): (f: Fetch<T>)
    ensures s.maxRetries <= 0 ==> f.answer == Ok(None) && f.attempts == 0 && f.trace == [] && f.next == at
    ensures f.attempts <= Max0(s.maxRetries)
    ensures f.answer == Ok(None) ==> f.attempts == Max0(s.maxRetries)
    ensures f.answer.Raised? ==> f.answer.error == NegativeSleep
    ensures f.answer.Ok? ==> f.next == Cursor(at.draws + f.attempts, at.sends + f.attempts)
    ensures f.answer.Raised? ==> f.attempts >= 1 && f.next == Cursor(at.draws + f.attempts, at.sends + f.attempts - 1)
    ensures f.next.draws == at.draws + f.attempts && at.sends <= f.next.sends
  {
    Retry(s.maxRetries, url, env, at, 0)
  }

  /** When `make_request` does not raise, its trace is the reference
      `Schedule` of as many attempts as it made. */
  lemma MakeRequestFollowsSchedule<T>(s: Scraper, url: string, env: Env<T>, at: Cursor)
    ensures var f := MakeRequest(s, url, env, at);
            f.answer.Ok? ==> f.trace == Schedule(url, env.draw, at.draws, 0, f.attempts)
  {
    RetryFollowsSchedule(s.maxRetries, url, env, at, 0);
  }

  // ---------------------------------------------------------------------
  // The reference schedule

  /** What a run of `n` attempts starting at attempt number `a0` (with its
      delays drawn from index `d0`) looks like, built attempt by attempt
      from the front: each attempt is a random delay followed by the
      request, and consecutive attempts are separated by a backoff of
      `2**k` after attempt `k`. Nothing follows the last attempt. */
  function Schedule(url: string, draw: nat -> real, d0: nat, a0: nat, n: nat): (events: seq<Event>)
  {
    if n == 0 then []
    else
      Schedule(url, draw, d0, a0, n - 1)
      + (if n > 1 then [Backoff(Pow2(a0 + n - 2))] else [])
      + [Jitter(draw(d0 + n - 1)), Get(url, a0 + n - 1)]
  }

  /** The schedule seen from its first attempt. */
  lemma {:induction false} ScheduleFirst(url: string, draw: nat -> real, d0: nat, a0: nat, n: nat)
    requires n >= 1
    ensures Schedule(url, draw, d0, a0, n + 1)
         == [Jitter(draw(d0)), Get(url, a0), Backoff(Pow2(a0))] + Schedule(url, draw, d0 + 1, a0 + 1, n)
    decreases n
  {
    var head := [Jitter(draw(d0)), Get(url, a0), Backoff(Pow2(a0))];
    var last := [Jitter(draw(d0 + n)), Get(url, a0 + n)];
    var b := [Backoff(Pow2(a0 + n - 1))];
    assert Schedule(url, draw, d0, a0, n + 1) == Schedule(url, draw, d0, a0, n) + b + last;
    assert Schedule(url, draw, d0 + 1, a0 + 1, n)
        == Schedule(url, draw, d0 + 1, a0 + 1, n - 1) + (if n > 1 then b else []) + last;
    if n > 1 {
      ScheduleFirst(url, draw, d0, a0, n - 1);
      assert Schedule(url, draw, d0, a0, n) == head + Schedule(url, draw, d0 + 1, a0 + 1, n - 1);
    } else {
      assert Schedule(url, draw, d0, a0, 1) == [Jitter(draw(d0)), Get(url, a0)];
      assert Schedule(url, draw, d0 + 1, a0 + 1, 0) == [];
    }
  }

  /** One attempt that ends the loop: a delay and a request. */
  lemma RetryLastStep<T>(maxRetries: int, url: string, env: Env<T>, at: Cursor, attempt: nat)
    requires attempt < maxRetries && env.draw(at.draws) >= 0.0
    requires env.send(url, at.sends).Delivered? || attempt == maxRetries - 1
    ensures var f := Retry(maxRetries, url, env, at, attempt);
            f.attempts == 1 && f.trace == [Jitter(env.draw(at.draws)), Get(url, attempt)]
  {
  }

  /** A failed attempt that is not the last: a delay, a request and a
      backoff, followed by the remaining attempts. */
  lemma RetryFailStep<T>(maxRetries: int, url: string, env: Env<T>, at: Cursor, attempt: nat)
    requires attempt < maxRetries - 1 && env.draw(at.draws) >= 0.0
    requires env.send(url, at.sends).Failed?
    ensures var f := Retry(maxRetries, url, env, at, attempt);
            var rest := Retry(maxRetries, url, env, Cursor(at.draws + 1, at.sends + 1), attempt + 1);
            && f.answer == rest.answer && f.attempts == 1 + rest.attempts && f.next == rest.next
            && f.trace == [Jitter(env.draw(at.draws)), Get(url, attempt), Backoff(Pow2(attempt))] + rest.trace
  {
    var tried := [Jitter(env.draw(at.draws)), Get(url, attempt)];
    assert tried + [Backoff(Pow2(attempt))] == [Jitter(env.draw(at.draws)), Get(url, attempt), Backoff(Pow2(attempt))];
  }

  lemma {:induction false} RetryFollowsSchedule<T>(maxRetries: int, url: string, env: Env<T>, at: Cursor, attempt: nat)
    ensures var f := Retry(maxRetries, url, env, at, attempt);
            f.answer.Ok? ==> f.trace == Schedule(url, env.draw, at.draws, attempt, f.attempts)
    decreases maxRetries - attempt, 1
  {
    if attempt < maxRetries && env.draw(at.draws) >= 0.0 {
      if env.send(url, at.sends).Delivered? || attempt == maxRetries - 1 {
        RetryLastStep(maxRetries, url, env, at, attempt);
        assert Schedule(url, env.draw, at.draws, attempt, 0) == [];
      } else {
        FailedAttemptFollowsSchedule(maxRetries, url, env, at, attempt);
      }
    }
  }

  /** A first attempt followed by the schedule of the remaining attempts is
      the schedule of one attempt more. */
  lemma ScheduleCons(url: string, draw: nat -> real, d0: nat, a0: nat, trace: seq<Event>, n: nat, rest: seq<Event>, m: nat)
    requires n == m + 1 && m >= 1
    requires rest == Schedule(url, draw, d0 + 1, a0 + 1, m)
    requires trace == [Jitter(draw(d0)), Get(url, a0), Backoff(Pow2(a0))] + rest
    ensures trace == Schedule(url, draw, d0, a0, n)
  {
    ScheduleFirst(url, draw, d0, a0, m);
  }

  /** `RetryFollowsSchedule` for a failed attempt that is not the last. */
  lemma {:induction false} FailedAttemptFollowsSchedule<T>(maxRetries: int, url: string, env: Env<T>, at: Cursor, attempt: nat)
    requires attempt < maxRetries - 1 && env.draw(at.draws) >= 0.0
    requires env.send(url, at.sends).Failed?
    ensures var f := Retry(maxRetries, url, env, at, attempt);
            f.answer.Ok? ==> f.trace == Schedule(url, env.draw, at.draws, attempt, f.attempts)
    decreases maxRetries - attempt, 0
  {
    var f := Retry(maxRetries, url, env, at, attempt);
    var at' := Cursor(at.draws + 1, at.sends + 1);
    var rest := Retry(maxRetries, url, env, at', attempt + 1);
    RetryFailStep(maxRetries, url, env, at, attempt);
    if rest.answer.Ok? {
      RetryFollowsSchedule(maxRetries, url, env, at', attempt + 1);
      ScheduleCons(url, env.draw, at.draws, attempt, f.trace, f.attempts, rest.trace, rest.attempts);
    }
  }

  /** The schedule's shape: a delay right before every request, a backoff
      of `2**k` only between a failed attempt `k` and the next attempt's
      delay, and a request as the very last event. */
  lemma {:induction false} ScheduleShape(url: string, draw: nat -> real, d0: nat, a0: nat, n: nat)
    ensures var s := Schedule(url, draw, d0, a0, n);
            && |s| == (if n == 0 then 0 else 3 * n - 1)
            && (forall i :: 0 <= i < |s| && s[i].Get? ==> 0 < i && s[i - 1].Jitter? && s[i].url == url)
            && (forall i :: 0 <= i < |s| && s[i].Backoff? ==>
                  0 < i < |s| - 1 && s[i - 1].Get? && s[i].pause == Pow2(s[i - 1].attempt) && s[i + 1].Jitter?)
            && (n > 0 ==> s[0] == Jitter(draw(d0)) && s[|s| - 1] == Get(url, a0 + n - 1))
    decreases n
  {
    if n > 0 {
      ScheduleShape(url, draw, d0, a0, n - 1);
      var p := Schedule(url, draw, d0, a0, n - 1);
      var mid: seq<Event> := if n > 1 then [Backoff(Pow2(a0 + n - 2))] else [];
      var s := Schedule(url, draw, d0, a0, n);
      assert s == p + mid + [Jitter(draw(d0 + n - 1)), Get(url, a0 + n - 1)];
      forall i | 0 <= i < |s| && s[i].Get?
        ensures 0 < i && s[i - 1].Jitter? && s[i].url == url
      {
        if i < |p| {
          assert s[i] == p[i] && s[i - 1] == p[i - 1];
        }
      }
      forall i | 0 <= i < |s| && s[i].Backoff?
        ensures 0 < i < |s| - 1 && s[i - 1].Get? && s[i].pause == Pow2(s[i - 1].attempt) && s[i + 1].Jitter?
      {
        if i < |p| {
          assert s[i] == p[i] && s[i - 1] == p[i - 1] && s[i + 1] == p[i + 1];
        } else {
          assert i == |p| && n > 1;
          assert s[i - 1] == p[|p| - 1];
        }
      }
      if n > 1 {
        assert s[0] == p[0];
      }
    }
  }

  lemma {:induction false} TotalSleepAppend(a: seq<Event>, b: seq<Event>)
    ensures TotalSleep(a + b) == TotalSleep(a) + TotalSleep(b)
    decreases |b|
  {
    if b == [] {
      assert a + b == a;
    } else {
      var b' := b[..|b| - 1];
      assert (a + b)[..|a + b| - 1] == a + b';
      assert (a + b)[|a + b| - 1] == b[|b| - 1];
      TotalSleepAppend(a, b');
    }
  }

  /** Over `n >= 1` attempts from attempt 0 the time slept is the `n` random
      delays plus the backoffs `1 + 2 + ... + 2**(n-2) = 2**(n-1) - 1`. */
  lemma {:induction false} ScheduleSleep(url: string, draw: nat -> real, d0: nat, n: nat)
    requires n >= 1
    ensures TotalSleep(Schedule(url, draw, d0, 0, n)) == SumDraws(draw, d0, n) + (Pow2(n - 1) - 1) as real
    decreases n
  {
    var p := Schedule(url, draw, d0, 0, n - 1);
    var mid: seq<Event> := if n > 1 then [Backoff(Pow2(n - 2))] else [];
    var tail := [Jitter(draw(d0 + n - 1)), Get(url, n - 1)];
    TotalSleepAppend(p + mid, tail);
    TotalSleepAppend(p, mid);
    assert TotalSleep(tail) == draw(d0 + n - 1) by {
      assert tail[..1] == [Jitter(draw(d0 + n - 1))];
      assert tail[..1][..0] == [];
    }
    if n > 1 {
      ScheduleSleep(url, draw, d0, n - 1);
      assert mid[..0] == [];
      assert TotalSleep(mid) == Pow2(n - 2) as real;
    }
  }

  // ---------------------------------------------------------------------
  // Properties of make_request

  /** Every random draw in the window `[from, from + n)` is non-negative. */
  ghost predicate DrawsNonNegative(draw: nat -> real, from: nat, n: int) {
    forall j :: from <= j < from + n ==> draw(j) >= 0.0
  }

  /** Every request in the window `[from, from + n)` for `url` fails. */
  ghost predicate FailsFor<T>(url: string, send: (string, nat) -> Outcome<T>, from: nat, n: int) {
    forall j :: from <= j < from + n ==> send(url, j).Failed?
  }

  lemma {:induction false} RetryAllFail<T>(maxRetries: int, url: string, env: Env<T>, at: Cursor, attempt: nat)
    requires attempt < maxRetries
    requires DrawsNonNegative(env.draw, at.draws, maxRetries - attempt)
    requires FailsFor(url, env.send, at.sends, maxRetries - attempt)
    ensures Retry(maxRetries, url, env, at, attempt).answer == Ok(None)
    decreases maxRetries - attempt
  {
    if attempt != maxRetries - 1 {
      RetryAllFail(maxRetries, url, env, Cursor(at.draws + 1, at.sends + 1), attempt + 1);
    }
  }

  /** Against a transport that always fails, exactly `max_retries` attempts
      are made, the answer is `None`, and the time slept is the
      `max_retries` random delays plus `2**(max_retries-1) - 1`. */
  lemma AllAttemptsFail<T>(s: Scraper, url: string, env: Env<T>, at: Cursor)
    requires DrawsNonNegative(env.draw, at.draws, s.maxRetries)
    requires FailsFor(url, env.send, at.sends, s.maxRetries)
    ensures var f := MakeRequest(s, url, env, at);
            && f.answer == Ok(None)
            && f.attempts == Max0(s.maxRetries)
            && (s.maxRetries >= 1 ==>
                  TotalSleep(f.trace) == SumDraws(env.draw, at.draws, s.maxRetries) + (Pow2(s.maxRetries - 1) - 1) as real)
  {
    if s.maxRetries >= 1 {
      RetryAllFail(s.maxRetries, url, env, at, 0);
      MakeRequestFollowsSchedule(s, url, env, at);
      ScheduleSleep(url, env.draw, at.draws, s.maxRetries);
    }
  }

  lemma {:induction false} RetryFirstSuccess<T>(maxRetries: int, url: string, env: Env<T>, at: Cursor, attempt: nat, k: nat, doc: T)
    requires attempt + k < maxRetries
    requires DrawsNonNegative(env.draw, at.draws, k + 1)
    requires FailsFor(url, env.send, at.sends, k)
    requires env.send(url, at.sends + k) == Delivered(doc)
    ensures var f := Retry(maxRetries, url, env, at, attempt);
            f.answer == Ok(Some(doc)) && f.attempts == k + 1
    decreases k
  {
    if k > 0 {
      RetryFirstSuccess(maxRetries, url, env, Cursor(at.draws + 1, at.sends + 1), attempt + 1, k - 1, doc);
    }
  }

  /** When attempt `k < max_retries` is the first to succeed, its document is
      returned after exactly `k + 1` attempts and `k` backoffs, so the time
      slept is `k + 1` random delays plus `2**k - 1`. */
  lemma FirstSuccessAt<T>(s: Scraper, url: string, env: Env<T>, at: Cursor, k: nat, doc: T)
    requires k < s.maxRetries
    requires DrawsNonNegative(env.draw, at.draws, k + 1)
    requires FailsFor(url, env.send, at.sends, k)
    requires env.send(url, at.sends + k) == Delivered(doc)
    ensures var f := MakeRequest(s, url, env, at);
            && f.answer == Ok(Some(doc))
            && f.attempts == k + 1
            && TotalSleep(f.trace) == SumDraws(env.draw, at.draws, k + 1) + (Pow2(k) - 1) as real
  {
    RetryFirstSuccess(s.maxRetries, url, env, at, 0, k, doc);
    MakeRequestFollowsSchedule(s, url, env, at);
    ScheduleSleep(url, env.draw, at.draws, k + 1);
  }

  /** `make_request` looks at nothing beyond the draws and requests it
      consumed: any environment that agrees on those gives the same fetch.
      In particular no outcome after the first success is consulted. */
  lemma {:induction false} RetryLocal<T>(maxRetries: int, url: string, env: Env<T>, env': Env<T>, at: Cursor, attempt: nat)
    requires var f := Retry(maxRetries, url, env, at, attempt);
             && (forall j :: at.draws <= j < at.draws + f.attempts ==> env'.draw(j) == env.draw(j))
             && (forall j :: at.sends <= j < at.sends + f.attempts ==> env'.send(url, j) == env.send(url, j))
    ensures Retry(maxRetries, url, env', at, attempt) == Retry(maxRetries, url, env, at, attempt)
    decreases maxRetries - attempt
  {
    var f := Retry(maxRetries, url, env, at, attempt);
    if attempt < maxRetries {
      assert env'.draw(at.draws) == env.draw(at.draws);
      if env.draw(at.draws) >= 0.0 {
        assert env'.send(url, at.sends) == env.send(url, at.sends);
        if env.send(url, at.sends).Failed? && attempt != maxRetries - 1 {
          var at' := Cursor(at.draws + 1, at.sends + 1);
          RetryFailStep(maxRetries, url, env, at, attempt);
          RetryFailStep(maxRetries, url, env', at, attempt);
          var rest := Retry(maxRetries, url, env, at', attempt + 1);
          assert f.attempts == 1 + rest.attempts;
          RetryLocal(maxRetries, url, env, env', at', attempt + 1);
        }
      }
    }
  }

  /** `random.uniform(a, b)` returns a value between `a` and `b`, in
      whichever order they are given. */
  ghost predicate DrawsWithin(draw: nat -> real, from: nat, n: int, range: (real, real)) {
    forall j :: from <= j < from + n ==>
      (range.0 <= draw(j) <= range.1) || (range.1 <= draw(j) <= range.0)
  }

  lemma {:induction false} RetryDelaysWithin<T>(maxRetries: int, url: string, env: Env<T>, at: Cursor, attempt: nat, range: (real, real))
    requires DrawsWithin(env.draw, at.draws, maxRetries - attempt, range)
    ensures forall e :: e in Retry(maxRetries, url, env, at, attempt).trace && e.Jitter? ==>
              (range.0 <= e.seconds <= range.1) || (range.1 <= e.seconds <= range.0)
    decreases maxRetries - attempt
  {
    if attempt < maxRetries && env.draw(at.draws) >= 0.0 && env.send(url, at.sends).Failed? && attempt != maxRetries - 1 {
      RetryDelaysWithin(maxRetries, url, env, Cursor(at.draws + 1, at.sends + 1), attempt + 1, range);
    }
  }

  /** Every pre-attempt delay actually slept lies in `delay_range`, and with
      a non-negative range (such as the default `(1, 3)`) `make_request`
      never raises. */
  lemma DelaysWithinRange<T>(s: Scraper, url: string, env: Env<T>, at: Cursor)
    requires DrawsWithin(env.draw, at.draws, s.maxRetries, s.delayRange)
    ensures var f := MakeRequest(s, url, env, at);
            && (forall e :: e in f.trace && e.Jitter? ==>
                  (s.delayRange.0 <= e.seconds <= s.delayRange.1) || (s.delayRange.1 <= e.seconds <= s.delayRange.0))
            && (s.delayRange.0 >= 0.0 && s.delayRange.1 >= 0.0 ==> f.answer.Ok?)
  {
    RetryDelaysWithin(s.maxRetries, url, env, at, 0, s.delayRange);
    if s.delayRange.0 >= 0.0 && s.delayRange.1 >= 0.0 {
      RetryNeverRaises(s.maxRetries, url, env, at, 0);
    }
  }

  lemma {:induction false} RetryNeverRaises<T>(maxRetries: int, url: string, env: Env<T>, at: Cursor, attempt: nat)
    requires DrawsNonNegative(env.draw, at.draws, maxRetries - attempt)
    ensures Retry(maxRetries, url, env, at, attempt).answer.Ok?
    decreases maxRetries - attempt
  {
    if attempt < maxRetries && env.send(url, at.sends).Failed? && attempt != maxRetries - 1 {
      RetryNeverRaises(maxRetries, url, env, Cursor(at.draws + 1, at.sends + 1), attempt + 1);
    }
  }

  /** A negative draw before the first attempt raises before any request is
      sent. */
  lemma NegativeDelayRaises<T>(s: Scraper, url: string, env: Env<T>, at: Cursor)
    requires s.maxRetries >= 1 && env.draw(at.draws) < 0.0
    ensures var f := MakeRequest(s, url, env, at);
            f.answer == Raised(NegativeSleep) && f.trace == [] && f.next.sends == at.sends
  {
  }

  /** A negative draw before attempt `attempt + k`, after `k` failed
      attempts, raises from `time.sleep` before that attempt's request: the
      loop has made `k + 1` attempts, consumed `k + 1` draws and sent `k`
      requests. */
  lemma {:induction false} RetryNegativeAt<T>(maxRetries: int, url: string, env: Env<T>, at: Cursor, attempt: nat, k: nat)
    requires attempt + k < maxRetries
    requires DrawsNonNegative(env.draw, at.draws, k)
    requires FailsFor(url, env.send, at.sends, k)
    requires env.draw(at.draws + k) < 0.0
    ensures var f := Retry(maxRetries, url, env, at, attempt);
            && f.answer == Raised(NegativeSleep) && f.attempts == k + 1
            && f.next == Cursor(at.draws + k + 1, at.sends + k)
    decreases k
  {
    if k > 0 {
      RetryFailStep(maxRetries, url, env, at, attempt);
      RetryNegativeAt(maxRetries, url, env, Cursor(at.draws + 1, at.sends + 1), attempt + 1, k - 1);
    }
  }

  /** The trace of the same run: the schedule of the `k` failed attempts,
      then the backoff after the last of them, and no delay or request for
      the attempt cut short. */
  lemma {:induction false} RetryNegativeTrace<T>(maxRetries: int, url: string, env: Env<T>, at: Cursor, attempt: nat, k: nat)
    requires attempt + k < maxRetries
    requires DrawsNonNegative(env.draw, at.draws, k)
    requires FailsFor(url, env.send, at.sends, k)
    requires env.draw(at.draws + k) < 0.0
    ensures Retry(maxRetries, url, env, at, attempt).trace
         == Schedule(url, env.draw, at.draws, attempt, k) + (if k > 0 then [Backoff(Pow2(attempt + k - 1))] else [])
    decreases k
  {
    if k == 0 {
      assert Schedule(url, env.draw, at.draws, attempt, 0) == [];
    } else {
      var at' := Cursor(at.draws + 1, at.sends + 1);
      RetryFailStep(maxRetries, url, env, at, attempt);
      RetryNegativeTrace(maxRetries, url, env, at', attempt + 1, k - 1);
      ScheduleBackoffCons(url, env.draw, at.draws, attempt, k - 1,
        Retry(maxRetries, url, env, at', attempt + 1).trace, Retry(maxRetries, url, env, at, attempt).trace);
    }
  }

  /** A failed attempt followed by `m` failed attempts and the backoff after
      the last of them is the schedule of `m + 1` attempts and that backoff. */
  lemma ScheduleBackoffCons(url: string, draw: nat -> real, d0: nat, a0: nat, m: nat, rest: seq<Event>, trace: seq<Event>)
    requires rest == Schedule(url, draw, d0 + 1, a0 + 1, m) + (if m > 0 then [Backoff(Pow2(a0 + m))] else [])
    requires trace == [Jitter(draw(d0)), Get(url, a0), Backoff(Pow2(a0))] + rest
    ensures trace == Schedule(url, draw, d0, a0, m + 1) + [Backoff(Pow2(a0 + m))]
  {
    var head := [Jitter(draw(d0)), Get(url, a0), Backoff(Pow2(a0))];
    var later := Schedule(url, draw, d0 + 1, a0 + 1, m);
    if m == 0 {
      assert Schedule(url, draw, d0, a0, 1) == [Jitter(draw(d0)), Get(url, a0)];
      assert later == [];
    } else {
      ScheduleFirst(url, draw, d0, a0, m);
      var tail := [Backoff(Pow2(a0 + m))];
      assert head + (later + tail) == (head + later) + tail;
    }
  }

  /** `make_request` raises at the first negative delay, whichever attempt
      it comes before: after `k` failed attempts, `k + 1` attempts are made,
      `k` requests sent, and the trace is the `k` attempts' schedule and
      the backoff after the last of them. */
  lemma NegativeDelayAt<T>(s: Scraper, url: string, env: Env<T>, at: Cursor, k: nat)
    requires k < s.maxRetries
    requires DrawsNonNegative(env.draw, at.draws, k)
    requires FailsFor(url, env.send, at.sends, k)
    requires env.draw(at.draws + k) < 0.0
    ensures var f := MakeRequest(s, url, env, at);
            && f.answer == Raised(NegativeSleep) && f.attempts == k + 1
            && f.next == Cursor(at.draws + k + 1, at.sends + k)
            && f.trace == Schedule(url, env.draw, at.draws, 0, k) + (if k > 0 then [Backoff(Pow2(k - 1))] else [])
  {
    RetryNegativeAt(s.maxRetries, url, env, at, 0, k);
    RetryNegativeTrace(s.maxRetries, url, env, at, 0, k);
  }
}
