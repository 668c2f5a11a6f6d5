/**
 * `TweetExtractor.extract_tweet`: validation, the author handle, and up to three attempts with
 * exponential backoff between them.
 *
 * Each attempt starts a browser, visits the page and keeps the result if it passes the success
 * test; whatever happens, the browser of that attempt is quit before the next step.  What the
 * browser does in attempt `i` is the parameter `outcome(i)`; the clock reading is `now`; and
 * the side effects (browser starts and quits, backoff sleeps) are returned as a trace of events.
 * The 1 s pause after closing a login dialog, inside an attempt, is not part of the trace.
 */
module Extraction {
  import opened Text
  import opened Json
  import opened Page
  import opened TweetUrl
  import opened Extractors
  import opened Metrics
  import opened Images
  import opened TweetData

  const PAGE_LOAD_TIMEOUT := 20
  const ELEMENT_TIMEOUT := 10
  const MAX_RETRIES := 2
  const RETRY_DELAY := 1

  const INVALID_URL_MESSAGE := "Invalid tweet URL"
  const EXHAUSTED_MESSAGE := "Could not extract tweet information after multiple attempts"

  /** What happened to the browser in one attempt: `_setup_driver` raised, or it started and
      `driver.get(url)` left the given page load. */
  datatype AttemptOutcome = SetupFails | SetupOk(load: PageLoad)

  /** The observable steps of a run: an attempt begins, its `_cleanup` runs (`quit` when there
      was a driver to quit), or the loop sleeps its backoff before the next attempt. */
  datatype Event = Attempt(index: nat) | Cleanup(index: nat, quit: bool) | Sleep(seconds: nat)

  /** The returned dict and the events that led to it. */
  datatype Run = Run(record: Record, trace: seq<Event>)

  function Pow2(n: nat): (p: nat)
    ensures p >= 1
  {
    if n == 0 then 1 else 2 * Pow2(n - 1)
  }

  /** The delay before the attempt after `attempt`. */
  function Backoff(attempt: nat): nat {
    RETRY_DELAY * Pow2(attempt)
  }

  /** Whether attempt `o` produced data the loop accepts. */
  predicate AttemptSucceeds(o: AttemptOutcome) {
    o.SetupOk? && EssentialDataFound(o.load)
  }

  /** The dict before any attempt. */
  function InitialRecord(url: string, now: string): Record {
    map["url" := JStr(url), "status" := JStr("error"), "extracted_at" := JStr(now)]
  }

  /** The dict with the `author` handle taken from the URL, when the URL yields one. */
  function WithAuthor(url: string, now: string): Record {
    match AuthorHandle(url)
    case None => InitialRecord(url, now)
    case Some(handle) => InitialRecord(url, now)["author" := JStr("@" + handle)]
  }

  /** The keys `tweet_data.update(...)` writes. */
  const SUCCESS_KEYS := {"status", "author_name", "text", "likes", "retweets", "replies", "views", "images", "created_at"}

  /** The fields `tweet_data.update(...)` writes from a successful result. */
  function SuccessFields(result: Record): Record {
    map[
      "status" := JStr("success"),
      "author_name" := GetOr(result, "author_name", JStr("")),
      "text" := GetOr(result, "text", JStr("")),
      "likes" := GetOr(result, "likes", JStr("0")),
      "retweets" := GetOr(result, "retweets", JStr("0")),
      "replies" := GetOr(result, "replies", JStr("0")),
      "views" := GetOr(result, "views", JStr("0")),
      "images" := GetOr(result, "images", JArr([])),
      "created_at" := GetOr(result, "created_at", JStr(""))
    ]
  }

  /** Whether attempt `i` started a browser. */
  function Started(outcome: nat -> AttemptOutcome): nat -> bool {
    (i: nat) => outcome(i).SetupOk?
  }

  /** Whether attempt `i` passed the success test. */
  function Passed(outcome: nat -> AttemptOutcome): nat -> bool {
    (i: nat) => AttemptSucceeds(outcome(i))
  }

  /** The events of the attempts from `attempt` on, given which attempts start a browser and
      which pass. */
  function TraceFrom(started: nat -> bool, passed: nat -> bool, attempt: nat): seq<Event>
    requires attempt <= MAX_RETRIES + 1
    decreases MAX_RETRIES + 1 - attempt
  {
    if attempt == MAX_RETRIES + 1 then []
    else if passed(attempt) then [Attempt(attempt), Cleanup(attempt, true)]
    else AttemptSteps(started(attempt), attempt) + TraceFrom(started, passed, attempt + 1)
  }

  /** The events of the attempts from `attempt` on. */
  function AttemptsTrace(outcome: nat -> AttemptOutcome, attempt: nat): seq<Event>
    requires attempt <= MAX_RETRIES + 1
  {
    TraceFrom(Started(outcome), Passed(outcome), attempt)
  }

  /** The dict the attempts from `attempt` on return, starting from the dict `base`. */
  function AttemptsRecord(base: Record, outcome: nat -> AttemptOutcome, attempt: nat): Record
    requires attempt <= MAX_RETRIES + 1
    decreases MAX_RETRIES + 1 - attempt
  {
    if attempt == MAX_RETRIES + 1 then base["message" := JStr(EXHAUSTED_MESSAGE)]
    else if AttemptSucceeds(outcome(attempt)) then Sparse(base + SuccessFields(TweetDataOf(outcome(attempt).load)))
    else AttemptsRecord(base, outcome, attempt + 1)
  }

  /** What `extract_tweet(url)` returns, and what it does on the way. */
  function ExtractTweetSpec(url: string, now: string, outcome: nat -> AttemptOutcome): Run {
    if !IsValidTwitterUrl(url) then Run(InitialRecord(url, now)["message" := JStr(INVALID_URL_MESSAGE)], [])
    else Run(AttemptsRecord(WithAuthor(url, now), outcome, 0), AttemptsTrace(outcome, 0))
  }

  /** `extract_tweet` */
  method ExtractTweet(url: string, now: string, outcome: nat -> AttemptOutcome) returns (tweetData: Record, trace: seq<Event>)
    ensures Run(tweetData, trace) == ExtractTweetSpec(url, now, outcome)
  {
    tweetData := map["url" := JStr(url), "status" := JStr("error"), "extracted_at" := JStr(now)];
    trace := [];
    if !IsValidTwitterUrl(url) {
      tweetData := tweetData["message" := JStr(INVALID_URL_MESSAGE)];
      return;
    }
    var usernameMatch := AuthorHandle(url);
    if usernameMatch.Some? {
      tweetData := tweetData["author" := JStr("@" + usernameMatch.value)];
    }
    tweetData, trace := RetryLoop(tweetData, outcome);
  }

  /** The `for attempt in range(MAX_RETRIES + 1)` loop of `extract_tweet` and the message after it. */
  method RetryLoop(base: Record, outcome: nat -> AttemptOutcome) returns (tweetData: Record, trace: seq<Event>)
    ensures tweetData == AttemptsRecord(base, outcome, 0) && trace == AttemptsTrace(outcome, 0)
  {
    tweetData := base;
    trace := [];
    for attempt := 0 to MAX_RETRIES + 1
      invariant tweetData == base
      invariant trace + AttemptsTrace(outcome, attempt) == AttemptsTrace(outcome, 0)
      invariant AttemptsRecord(base, outcome, attempt) == AttemptsRecord(base, outcome, 0)
    {
      var success, updated, events := TryAttempt(tweetData, outcome(attempt), attempt);
      AttemptStep(base, outcome, attempt);
      if success {
        return updated, trace + events;
      }
      ghost var rest := AttemptsTrace(outcome, attempt + 1);
      assert (trace + events) + rest == trace + (events + rest);
      trace := trace + events;
    }
    tweetData := tweetData["message" := JStr(EXHAUSTED_MESSAGE)];
  }

  /** One attempt of the loop, as the specification functions see it. */
  lemma AttemptStep(base: Record, outcome: nat -> AttemptOutcome, attempt: nat)
    requires attempt <= MAX_RETRIES
    ensures AttemptSucceeds(outcome(attempt)) ==>
              AttemptsTrace(outcome, attempt) == [Attempt(attempt), Cleanup(attempt, true)]
              && AttemptsRecord(base, outcome, attempt) == Sparse(base + SuccessFields(TweetDataOf(outcome(attempt).load)))
    ensures !AttemptSucceeds(outcome(attempt)) ==>
              AttemptsTrace(outcome, attempt) == AttemptSteps(outcome(attempt).SetupOk?, attempt) + AttemptsTrace(outcome, attempt + 1)
              && AttemptsRecord(base, outcome, attempt) == AttemptsRecord(base, outcome, attempt + 1)
  {
    assert Passed(outcome)(attempt) == AttemptSucceeds(outcome(attempt));
    assert Started(outcome)(attempt) == outcome(attempt).SetupOk?;
  }

  /** One pass of the loop body: the `try` with its setup, visit and success test, the
      `finally` with its cleanup, and the backoff sleep when another attempt follows. */
  method TryAttempt(tweetData: Record, o: AttemptOutcome, attempt: nat) returns (success: bool, updated: Record, events: seq<Event>)
    ensures success == AttemptSucceeds(o)
    ensures success ==> updated == Sparse(tweetData + SuccessFields(TweetDataOf(o.load)))
                        && events == [Attempt(attempt), Cleanup(attempt, true)]
    ensures !success ==> updated == tweetData && events == AttemptSteps(o.SetupOk?, attempt)
  {
    var driver := false;
    events := [Attempt(attempt)];
    success, updated := false, tweetData;
    if o.SetupOk? {
      driver := true;
      var result := ExtractTweetData(o.load);
      SucceedsIffEssentialData(o.load);
      if Succeeded(result) {
        updated := Sparse(tweetData + SuccessFields(result));
        events := events + [Cleanup(attempt, driver)];
        return true, updated, events;
      }
    }
    events := events + [Cleanup(attempt, driver)];
    if attempt < MAX_RETRIES {
      events := events + [Sleep(RETRY_DELAY * Pow2(attempt))];
    }
  }

  /** The events of a failed attempt: its start, its cleanup and the pause after it, if any. */
  function AttemptSteps(started: bool, attempt: nat): seq<Event> {
    [Attempt(attempt), Cleanup(attempt, started)]
    + (if attempt < MAX_RETRIES then [Sleep(Backoff(attempt))] else [])
  }

  // ---------------------------------------------------------------------------
  // Properties of the retry loop

  /** The first attempt at or after `from` that passes; MAX_RETRIES + 1 when none does. */
  function FirstSuccess(passed: nat -> bool, from: nat): (f: nat)
    requires from <= MAX_RETRIES + 1
    ensures from <= f <= MAX_RETRIES + 1
    ensures forall i :: from <= i < f ==> !passed(i)
    ensures f <= MAX_RETRIES ==> passed(f)
    decreases MAX_RETRIES + 1 - from
  {
    if from == MAX_RETRIES + 1 || passed(from) then from
    else FirstSuccess(passed, from + 1)
  }

  /** The index one past the last attempt made, when the loop is entered at `from`. */
  function AttemptsEnd(passed: nat -> bool, from: nat): (n: nat)
    requires from <= MAX_RETRIES + 1
    ensures from <= n <= MAX_RETRIES + 1 && (from <= MAX_RETRIES ==> from < n)
  {
    var f := FirstSuccess(passed, from);
    if f <= MAX_RETRIES then f + 1 else MAX_RETRIES + 1
  }

  /** `[a, a + 1, ..., b - 1]` */
  function Range(a: nat, b: nat): (r: seq<nat>)
    ensures |r| == if a <= b then b - a else 0
    decreases b - a
  {
    if a >= b then [] else [a] + Range(a + 1, b)
  }

  /** The backoff delays after attempts `a` to `b - 1`. */
  function Backoffs(a: nat, b: nat): seq<nat>
    decreases b - a
  {
    if a >= b then [] else [Backoff(a)] + Backoffs(a + 1, b)
  }

  /** The attempt index an event contributes, if it is the start of an attempt. */
  function IndexOf(e: Event): seq<nat> {
    if e.Attempt? then [e.index] else []
  }

  /** The sleep an event contributes. */
  function SleepOf(e: Event): seq<nat> {
    if e.Sleep? then [e.seconds] else []
  }

  /** The indices of the attempts in a trace, in order. */
  function AttemptIndices(trace: seq<Event>): seq<nat> {
    if trace == [] then [] else IndexOf(trace[0]) + AttemptIndices(trace[1..])
  }

  /** The sleeps in a trace, in seconds, in order. */
  function Sleeps(trace: seq<Event>): seq<nat> {
    if trace == [] then [] else SleepOf(trace[0]) + Sleeps(trace[1..])
  }

  /** The cleanup an event is, if it is one: the attempt it ends and whether it quit a browser. */
  function CleanupOf(e: Event): seq<(nat, bool)> {
    if e.Cleanup? then [(e.index, e.quit)] else []
  }

  /** The cleanups in a trace, in order. */
  function Cleanups(trace: seq<Event>): seq<(nat, bool)> {
    if trace == [] then [] else CleanupOf(trace[0]) + Cleanups(trace[1..])
  }

  /** One cleanup for each of the attempts `a` to `b - 1`, in order, each quitting a browser
      exactly when `started` says one was started. */
  function CleanupRange(started: nat -> bool, a: nat, b: nat): (r: seq<(nat, bool)>)
    ensures |r| == if a <= b then b - a else 0
    ensures forall i :: 0 <= i < |r| ==> r[i] == (a + i, started(a + i))
    decreases b - a
  {
    if a >= b then [] else [(a, started(a))] + CleanupRange(started, a + 1, b)
  }

  lemma {:induction false} AttemptIndicesConcat(a: seq<Event>, b: seq<Event>)
    ensures AttemptIndices(a + b) == AttemptIndices(a) + AttemptIndices(b)
  {
    if a == [] {
      assert a + b == b;
    } else {
      assert (a + b)[1..] == a[1..] + b;
      AttemptIndicesConcat(a[1..], b);
    }
  }

  lemma {:induction false} SleepsConcat(a: seq<Event>, b: seq<Event>)
    ensures Sleeps(a + b) == Sleeps(a) + Sleeps(b)
  {
    if a == [] {
      assert a + b == b;
    } else {
      assert (a + b)[1..] == a[1..] + b;
      SleepsConcat(a[1..], b);
    }
  }

  lemma {:induction false} CleanupsConcat(a: seq<Event>, b: seq<Event>)
    ensures Cleanups(a + b) == Cleanups(a) + Cleanups(b)
  {
    if a == [] {
      assert a + b == b;
    } else {
      assert (a + b)[1..] == a[1..] + b;
      CleanupsConcat(a[1..], b);
    }
  }

  /** An attempt, failed or not, holds exactly one cleanup: its own. */
  lemma StepCleanups(attempt: nat, started: bool)
    ensures Cleanups([Attempt(attempt), Cleanup(attempt, started)]) == [(attempt, started)]
    ensures Cleanups(AttemptSteps(started, attempt)) == [(attempt, started)]
  {
    var a, c := [Attempt(attempt)], [Cleanup(attempt, started)];
    assert a[1..] == [] && c[1..] == [];
    CleanupsConcat(a, c);
    assert a + c == [Attempt(attempt), Cleanup(attempt, started)];
    var pause := if attempt < MAX_RETRIES then [Sleep(Backoff(attempt))] else [];
    CleanupsConcat(a + c, pause);
    if pause != [] {
      assert pause[1..] == [];
    }
  }

  /** An attempt and its cleanup: one attempt index, no sleep. */
  lemma AttemptAndCleanup(attempt: nat, started: bool)
    ensures AttemptIndices([Attempt(attempt), Cleanup(attempt, started)]) == [attempt]
    ensures Sleeps([Attempt(attempt), Cleanup(attempt, started)]) == []
  {
    var a, c := [Attempt(attempt)], [Cleanup(attempt, started)];
    assert a[1..] == [] && c[1..] == [];
    AttemptIndicesConcat(a, c);
    SleepsConcat(a, c);
    assert a + c == [Attempt(attempt), Cleanup(attempt, started)];
  }

  /** A failed attempt: its index, and the backoff after it unless it was the last. */
  lemma FailedAttemptSteps(attempt: nat, started: bool)
    ensures AttemptIndices(AttemptSteps(started, attempt)) == [attempt]
    ensures Sleeps(AttemptSteps(started, attempt)) == if attempt < MAX_RETRIES then [Backoff(attempt)] else []
  {
    var head := [Attempt(attempt), Cleanup(attempt, started)];
    var pause := if attempt < MAX_RETRIES then [Sleep(Backoff(attempt))] else [];
    AttemptAndCleanup(attempt, started);
    AttemptIndicesConcat(head, pause);
    SleepsConcat(head, pause);
    if pause != [] {
      assert pause[1..] == [];
    }
  }

  /** Attempts `from` to `n - 1` are made, in that order. */
  lemma {:induction false} AttemptsMadeInOrder(started: nat -> bool, passed: nat -> bool, from: nat)
    requires from <= MAX_RETRIES + 1
    ensures AttemptIndices(TraceFrom(started, passed, from)) == Range(from, AttemptsEnd(passed, from))
    decreases MAX_RETRIES + 1 - from
  {
    if from <= MAX_RETRIES {
      if passed(from) {
        AttemptAndCleanup(from, true);
        assert Range(from + 1, from + 1) == [];
      } else {
        AttemptsMadeInOrder(started, passed, from + 1);
        FailedAttemptSteps(from, started(from));
        AttemptIndicesConcat(AttemptSteps(started(from), from), TraceFrom(started, passed, from + 1));
        assert AttemptsEnd(passed, from) == AttemptsEnd(passed, from + 1);
      }
    }
  }

  /** Between attempts `from` to `n - 1` the loop sleeps the backoff delays, and not after the
      last attempt. */
  lemma {:induction false} BackoffBetweenAttempts(started: nat -> bool, passed: nat -> bool, from: nat)
    requires from <= MAX_RETRIES
    ensures Sleeps(TraceFrom(started, passed, from)) == Backoffs(from, AttemptsEnd(passed, from) - 1)
    decreases MAX_RETRIES + 1 - from
  {
    if passed(from) {
      AttemptAndCleanup(from, true);
      assert TraceFrom(started, passed, from) == [Attempt(from), Cleanup(from, true)];
      assert AttemptsEnd(passed, from) == from + 1;
      assert Backoffs(from, from) == [];
    } else {
      assert TraceFrom(started, passed, from) == AttemptSteps(started(from), from) + TraceFrom(started, passed, from + 1);
      FailedAttemptSteps(from, started(from));
      SleepsConcat(AttemptSteps(started(from), from), TraceFrom(started, passed, from + 1));
      var n := AttemptsEnd(passed, from);
      if from < MAX_RETRIES {
        BackoffBetweenAttempts(started, passed, from + 1);
        assert n == AttemptsEnd(passed, from + 1);
        assert Backoffs(from, n - 1) == [Backoff(from)] + Backoffs(from + 1, n - 1);
      } else {
        assert Backoffs(from, n - 1) == [];
      }
    }
  }

  /** Every attempt in `trace` is immediately followed by its cleanup, which quits a browser
      exactly when `started` says one was started. */
  predicate CleanedUp(trace: seq<Event>, started: nat -> bool) {
    forall p :: 0 <= p < |trace| && trace[p].Attempt? ==>
      p + 1 < |trace| && trace[p + 1] == Cleanup(trace[p].index, started(trace[p].index))
  }

  lemma CleanedUpConcat(a: seq<Event>, b: seq<Event>, started: nat -> bool)
    requires CleanedUp(a, started) && CleanedUp(b, started)
    ensures CleanedUp(a + b, started)
  {
    var t := a + b;
    forall p | 0 <= p < |t| && t[p].Attempt?
      ensures p + 1 < |t| && t[p + 1] == Cleanup(t[p].index, started(t[p].index))
    {
      if p < |a| {
        assert a[p] == t[p];
        assert t[p + 1] == a[p + 1];
      } else {
        assert b[p - |a|] == t[p];
        assert t[p + 1] == b[p + 1 - |a|];
      }
    }
  }

  lemma StepsCleanedUp(attempt: nat, started: nat -> bool)
    ensures CleanedUp(AttemptSteps(started(attempt), attempt), started)
    ensures CleanedUp([Attempt(attempt), Cleanup(attempt, started(attempt))], started)
  {
  }

  /** Every attempt is immediately followed by its cleanup, which quits a browser exactly when
      one was started. */
  lemma {:induction false} CleanupAfterEachAttempt(started: nat -> bool, passed: nat -> bool, from: nat)
    requires from <= MAX_RETRIES + 1
    requires forall i :: passed(i) ==> started(i)
    ensures CleanedUp(TraceFrom(started, passed, from), started)
    decreases MAX_RETRIES + 1 - from
  {
    if from <= MAX_RETRIES {
      StepsCleanedUp(from, started);
      if !passed(from) {
        CleanupAfterEachAttempt(started, passed, from + 1);
        CleanedUpConcat(AttemptSteps(started(from), from), TraceFrom(started, passed, from + 1), started);
      } else {
        assert started(from);
      }
    }
  }

  /** Attempts `from` to `n - 1` are cleaned up once each, in that order, and nothing else is. */
  lemma {:induction false} CleanupsInOrder(started: nat -> bool, passed: nat -> bool, from: nat)
    requires from <= MAX_RETRIES + 1
    requires forall i :: passed(i) ==> started(i)
    ensures Cleanups(TraceFrom(started, passed, from)) == CleanupRange(started, from, AttemptsEnd(passed, from))
    decreases MAX_RETRIES + 1 - from
  {
    if from <= MAX_RETRIES {
      if passed(from) {
        assert started(from);
        PassedAttempt(started, passed, from);
        StepCleanups(from, true);
        assert CleanupRange(started, from + 1, from + 1) == [];
      } else {
        FailedAttempt(started, passed, from);
        CleanupsInOrder(started, passed, from + 1);
        StepCleanups(from, started(from));
        CleanupsConcat(AttemptSteps(started(from), from), TraceFrom(started, passed, from + 1));
        assert AttemptsEnd(passed, from) == AttemptsEnd(passed, from + 1);
      }
    }
  }

  /** Every sleep stands between the cleanup of an attempt and the start of the next one, and
      lasts that attempt's backoff. */
  predicate SleepsBetweenAttempts(trace: seq<Event>) {
    forall p :: 0 <= p < |trace| && trace[p].Sleep? ==>
      0 < p < |trace| - 1 && trace[p - 1].Cleanup?
      && trace[p + 1] == Attempt(trace[p - 1].index + 1)
      && trace[p].seconds == RETRY_DELAY * Pow2(trace[p - 1].index)
  }

  /** The run from attempt `from` starts with that attempt, and its sleeps stand only between
      an attempt's cleanup and the next attempt. */
  lemma {:induction false} SleepsPlaced(started: nat -> bool, passed: nat -> bool, from: nat)
    requires from <= MAX_RETRIES + 1
    ensures var trace := TraceFrom(started, passed, from);
            SleepsBetweenAttempts(trace) && (from <= MAX_RETRIES ==> trace != [] && trace[0] == Attempt(from))
    decreases MAX_RETRIES + 1 - from
  {
    if from <= MAX_RETRIES {
      if passed(from) {
        PassedAttempt(started, passed, from);
      } else {
        FailedAttempt(started, passed, from);
        SleepsPlaced(started, passed, from + 1);
        StepsThenRest(started(from), from, TraceFrom(started, passed, from + 1));
      }
    }
  }

  /** One failed attempt's steps keep the sleeps in place when the next attempt follows them. */
  lemma StepsThenRest(started: bool, attempt: nat, rest: seq<Event>)
    requires attempt <= MAX_RETRIES && SleepsBetweenAttempts(rest)
    requires attempt < MAX_RETRIES ==> rest != [] && rest[0] == Attempt(attempt + 1)
    ensures SleepsBetweenAttempts(AttemptSteps(started, attempt) + rest)
  {
    var steps := AttemptSteps(started, attempt);
    var t := steps + rest;
    forall p | 0 <= p < |t| && t[p].Sleep?
      ensures 0 < p < |t| - 1 && t[p - 1].Cleanup?
              && t[p + 1] == Attempt(t[p - 1].index + 1)
              && t[p].seconds == RETRY_DELAY * Pow2(t[p - 1].index)
    {
      if p < |steps| {
        assert p == 2 && attempt < MAX_RETRIES;
        assert t[1] == Cleanup(attempt, started) && t[2] == Sleep(Backoff(attempt));
        assert t[p + 1] == rest[0];
      } else {
        var q := p - |steps|;
        assert t[p] == rest[q] && rest[q].Sleep?;
        assert t[p - 1] == rest[q - 1] && t[p + 1] == rest[q + 1];
      }
    }
  }

  /** The run ends with the cleanup of its last attempt. */
  lemma {:induction false} EndsWithCleanup(started: nat -> bool, passed: nat -> bool, from: nat)
    requires from <= MAX_RETRIES
    requires forall i :: passed(i) ==> started(i)
    ensures var trace := TraceFrom(started, passed, from);
            var last := AttemptsEnd(passed, from) - 1;
            trace != [] && trace[|trace| - 1] == Cleanup(last, started(last))
    decreases MAX_RETRIES + 1 - from
  {
    if passed(from) {
      assert started(from);
      PassedAttempt(started, passed, from);
    } else if from < MAX_RETRIES {
      EndsWithCleanup(started, passed, from + 1);
      FailedAttempt(started, passed, from);
      LastOfConcat(AttemptSteps(started(from), from), TraceFrom(started, passed, from + 1));
    } else {
      LastAttempt(started, passed, from);
    }
  }

  lemma PassedAttempt(started: nat -> bool, passed: nat -> bool, from: nat)
    requires from <= MAX_RETRIES && passed(from)
    ensures TraceFrom(started, passed, from) == [Attempt(from), Cleanup(from, true)]
    ensures AttemptsEnd(passed, from) == from + 1
  {
  }

  lemma FailedAttempt(started: nat -> bool, passed: nat -> bool, from: nat)
    requires from <= MAX_RETRIES && !passed(from)
    ensures TraceFrom(started, passed, from) == AttemptSteps(started(from), from) + TraceFrom(started, passed, from + 1)
    ensures from < MAX_RETRIES ==> AttemptsEnd(passed, from) == AttemptsEnd(passed, from + 1)
  {
  }

  lemma LastAttempt(started: nat -> bool, passed: nat -> bool, from: nat)
    requires from == MAX_RETRIES && !passed(from)
    ensures TraceFrom(started, passed, from) == [Attempt(from), Cleanup(from, started(from))]
    ensures AttemptsEnd(passed, from) == from + 1
  {
    assert TraceFrom(started, passed, from + 1) == [];
  }

  lemma LastOfConcat(a: seq<Event>, b: seq<Event>)
    requires b != []
    ensures a + b != [] && (a + b)[|a + b| - 1] == b[|b| - 1]
  {
  }

  /** The dict the loop returns: the successful attempt's data merged in and emptied values
      dropped, or the error dict with the exhaustion message. */
  lemma {:induction false} LoopRecord(base: Record, outcome: nat -> AttemptOutcome, from: nat)
    requires from <= MAX_RETRIES + 1
    ensures var record := AttemptsRecord(base, outcome, from);
            var f := FirstSuccess(Passed(outcome), from);
            (f <= MAX_RETRIES ==> record == Sparse(base + SuccessFields(TweetDataOf(outcome(f).load))))
            && (f > MAX_RETRIES ==> record == base["message" := JStr(EXHAUSTED_MESSAGE)])
    decreases MAX_RETRIES + 1 - from
  {
    if from <= MAX_RETRIES && !AttemptSucceeds(outcome(from)) {
      LoopRecord(base, outcome, from + 1);
    }
  }

  // ---------------------------------------------------------------------------
  // Properties of `extract_tweet`

  /** An invalid URL is answered at once, without starting a browser. */
  lemma InvalidUrlAnsweredAtOnce(url: string, now: string, outcome: nat -> AttemptOutcome)
    requires !IsValidTwitterUrl(url)
    ensures ExtractTweetSpec(url, now, outcome).trace == []
    ensures ExtractTweetSpec(url, now, outcome).record
            == map["url" := JStr(url), "status" := JStr("error"), "extracted_at" := JStr(now), "message" := JStr(INVALID_URL_MESSAGE)]
  {
  }

  /** A valid URL goes through the retry loop, starting from the dict with the author handle. */
  lemma ValidUrlRetries(url: string, now: string, outcome: nat -> AttemptOutcome)
    requires IsValidTwitterUrl(url)
    ensures ExtractTweetSpec(url, now, outcome) == Run(AttemptsRecord(WithAuthor(url, now), outcome, 0), AttemptsTrace(outcome, 0))
  {
  }

  /** The schedule of the retry loop: attempts 0 to n - 1 for some n between 1 and 3, sleeps of
      1 and then 2 seconds between them, each attempt followed at once by the cleanup of its
      browser, exactly one cleanup per attempt and no other, every sleep right after an
      attempt's cleanup and right before the next attempt, and the last attempt's cleanup at
      the end. */
  predicate Schedule(trace: seq<Event>, outcome: nat -> AttemptOutcome, n: nat) {
    1 <= n <= 3
    && AttemptIndices(trace) == Range(0, n)
    && Sleeps(trace) == [1, 2][..n - 1]
    && CleanedUp(trace, Started(outcome))
    && |Cleanups(trace)| == n
    && (forall i :: 0 <= i < n ==> Cleanups(trace)[i] == (i, outcome(i).SetupOk?))
    && SleepsBetweenAttempts(trace)
    && trace != [] && trace[|trace| - 1] == Cleanup(n - 1, outcome(n - 1).SetupOk?)
  }

  lemma LoopSchedule(outcome: nat -> AttemptOutcome)
    ensures Schedule(AttemptsTrace(outcome, 0), outcome, AttemptsEnd(Passed(outcome), 0))
  {
    var started, passed := Started(outcome), Passed(outcome);
    AttemptsMadeInOrder(started, passed, 0);
    BackoffBetweenAttempts(started, passed, 0);
    forall i: nat | passed(i)
      ensures started(i)
    {
      assert AttemptSucceeds(outcome(i));
    }
    CleanupAfterEachAttempt(started, passed, 0);
    CleanupsInOrder(started, passed, 0);
    SleepsPlaced(started, passed, 0);
    EndsWithCleanup(started, passed, 0);
    assert Backoff(0) == 1 && Backoff(1) == 2;
    assert Backoffs(2, 2) == [] && Backoffs(1, 1) == [] && Backoffs(0, 0) == [];
    assert [1, 2][..0] == [] && [1, 2][..1] == [1] && [1, 2][..2] == [1, 2];
  }

  /** For a valid URL, the run follows the retry schedule, with as many attempts as it took to
      reach the first success (three when none succeeds). */
  lemma AttemptSchedule(url: string, now: string, outcome: nat -> AttemptOutcome)
    requires IsValidTwitterUrl(url)
    ensures Schedule(ExtractTweetSpec(url, now, outcome).trace, outcome, AttemptsEnd(Passed(outcome), 0))
  {
    ValidUrlRetries(url, now, outcome);
    LoopSchedule(outcome);
  }

  /** The dict the retry loop starts from, for a valid URL: an error status, no message yet,
      the URL, the clock reading, and the handle from the URL as `author`. */
  lemma StartingRecord(url: string, now: string)
    requires IsValidTwitterUrl(url)
    ensures var d := WithAuthor(url, now);
            d.Keys == {"url", "status", "extracted_at", "author"} && "message" !in d
            && d["url"] == JStr(url) && d["status"] == JStr("error") && d["extracted_at"] == JStr(now)
            && d["author"] == JStr("@" + ParseStatusUrl(url).value.handle)
  {
    AuthorHandleOfValidUrl(url);
    var handle := ParseStatusUrl(url).value.handle;
    AuthorEntry(url, now, handle);
  }

  lemma AuthorEntry(url: string, now: string, handle: string)
    requires AuthorHandle(url) == Some(handle)
    ensures var d := WithAuthor(url, now);
            d.Keys == {"url", "status", "extracted_at", "author"} && "message" !in d
            && d["url"] == JStr(url) && d["status"] == JStr("error") && d["extracted_at"] == JStr(now)
            && d["author"] == JStr("@" + handle)
  {
  }

  /** When no attempt succeeds, the dict reports the error with the exhaustion message and
      keeps the author handle, after three attempts and sleeps of 1 and 2 seconds. */
  lemma ExhaustedAttempts(url: string, now: string, outcome: nat -> AttemptOutcome)
    requires IsValidTwitterUrl(url)
    requires forall i :: 0 <= i <= MAX_RETRIES ==> !AttemptSucceeds(outcome(i))
    ensures var run := ExtractTweetSpec(url, now, outcome);
            run.record == WithAuthor(url, now)["message" := JStr(EXHAUSTED_MESSAGE)]
            && AttemptIndices(run.trace) == [0, 1, 2]
            && Sleeps(run.trace) == [1, 2]
  {
    ValidUrlRetries(url, now, outcome);
    NoSuccessFound(outcome);
    LoopRecord(WithAuthor(url, now), outcome, 0);
    ExhaustedTrace(outcome);
  }

  lemma NoSuccessFound(outcome: nat -> AttemptOutcome)
    requires forall i :: 0 <= i <= MAX_RETRIES ==> !AttemptSucceeds(outcome(i))
    ensures FirstSuccess(Passed(outcome), 0) == MAX_RETRIES + 1
    ensures AttemptsEnd(Passed(outcome), 0) == MAX_RETRIES + 1
  {
    var passed := Passed(outcome);
    assert !passed(0) && !passed(1) && !passed(2);
  }

  /** Three attempts and two sleeps when none succeeds. */
  lemma ExhaustedTrace(outcome: nat -> AttemptOutcome)
    requires FirstSuccess(Passed(outcome), 0) == MAX_RETRIES + 1
    ensures AttemptIndices(AttemptsTrace(outcome, 0)) == [0, 1, 2]
    ensures Sleeps(AttemptsTrace(outcome, 0)) == [1, 2]
  {
    LoopSchedule(outcome);
    assert Range(0, 3) == [0, 1, 2] by {
      assert Range(3, 3) == [];
    }
  }

  /** The dict after `tweet_data.update(...)` with a success dict and the filter of empty values. */
  function Merged(base: Record, authorName: string, text: string, metrics: map<string, string>, images: seq<string>, createdAt: string): Record {
    Sparse(base + UpdateOf(authorName, text, metrics, images, createdAt))
  }

  /** The fields `tweet_data.update(...)` writes after a success that extracted these values. */
  function UpdateOf(authorName: string, text: string, metrics: map<string, string>, images: seq<string>, createdAt: string): (u: Record)
    ensures u.Keys == SUCCESS_KEYS
  {
    map[
      "status" := JStr("success"),
      "author_name" := JStr(authorName),
      "text" := JStr(text),
      "likes" := JStr(MetricOr(metrics, "likes")),
      "retweets" := JStr(MetricOr(metrics, "retweets")),
      "replies" := JStr(MetricOr(metrics, "replies")),
      "views" := JStr(MetricOr(metrics, "views")),
      "images" := StringArray(images),
      "created_at" := JStr(createdAt)
    ]
  }

  /** The value the update writes under each key. */
  lemma UpdateValues(authorName: string, text: string, metrics: map<string, string>, images: seq<string>, createdAt: string)
    ensures var u := UpdateOf(authorName, text, metrics, images, createdAt);
            u["status"] == JStr("success") && u["author_name"] == JStr(authorName) && u["text"] == JStr(text)
            && u["likes"] == JStr(MetricOr(metrics, "likes")) && u["retweets"] == JStr(MetricOr(metrics, "retweets"))
            && u["replies"] == JStr(MetricOr(metrics, "replies")) && u["views"] == JStr(MetricOr(metrics, "views"))
            && u["images"] == StringArray(images) && u["created_at"] == JStr(createdAt)
  {
  }

  /** The keys of the starting dict that the update leaves alone. */
  lemma UntouchedKeys()
    ensures "message" !in SUCCESS_KEYS && "url" !in SUCCESS_KEYS && "author" !in SUCCESS_KEYS
  {
  }

  /** After a success the status is "success", no message is added, every value left is
      non-empty, and the non-empty entries of the starting dict that the update does not
      overwrite are kept. */
  lemma MergedStatus(base: Record, authorName: string, text: string, metrics: map<string, string>, images: seq<string>, createdAt: string)
    requires "message" !in base
    ensures var record := Merged(base, authorName, text, metrics, images, createdAt);
            Get(record, "status") == JStr("success")
            && "message" !in record
            && (forall k :: k in record ==> !IsEmptyValue(record[k]))
            && (forall k :: k in base && !IsEmptyValue(base[k]) && k !in SUCCESS_KEYS ==> k in record && record[k] == base[k])
  {
    var fields := UpdateOf(authorName, text, metrics, images, createdAt);
    UpdateValues(authorName, text, metrics, images, createdAt);
    UntouchedKeys();
    SparseMergeAt(base, fields, "status");
    SparseMergeAt(base, fields, "message");
    forall k | k in base && !IsEmptyValue(base[k]) && k !in SUCCESS_KEYS
      ensures k in Merged(base, authorName, text, metrics, images, createdAt)
    {
      SparseMergeAt(base, fields, k);
    }
  }

  /** The author name, the text and the images are reported exactly when they are non-empty. */
  lemma MergedContent(base: Record, authorName: string, text: string, metrics: map<string, string>, images: seq<string>, createdAt: string)
    ensures var record := Merged(base, authorName, text, metrics, images, createdAt);
            ("author_name" in record <==> authorName != []) && ("author_name" in record ==> record["author_name"] == JStr(authorName))
            && ("text" in record <==> text != []) && ("text" in record ==> record["text"] == JStr(text))
            && ("images" in record <==> images != []) && ("images" in record ==> record["images"] == StringArray(images))
  {
    var fields := UpdateOf(authorName, text, metrics, images, createdAt);
    UpdateValues(authorName, text, metrics, images, createdAt);
    SparseMergeAt(base, fields, "author_name");
    SparseMergeAt(base, fields, "text");
    SparseMergeAt(base, fields, "images");
    assert StringArray(images) == JArr([]) <==> images == [];
  }

  /** A reported metric is the count the metrics dict holds for it. */
  lemma MergedMetrics(base: Record, authorName: string, text: string, metrics: map<string, string>, images: seq<string>, createdAt: string)
    ensures var record := Merged(base, authorName, text, metrics, images, createdAt);
            ("likes" in record ==> record["likes"] == JStr(MetricOr(metrics, "likes")))
            && ("retweets" in record ==> record["retweets"] == JStr(MetricOr(metrics, "retweets")))
            && ("replies" in record ==> record["replies"] == JStr(MetricOr(metrics, "replies")))
            && ("views" in record ==> record["views"] == JStr(MetricOr(metrics, "views")))
  {
    MetricReported(base, authorName, text, metrics, images, createdAt, "likes");
    MetricReported(base, authorName, text, metrics, images, createdAt, "retweets");
    MetricReported(base, authorName, text, metrics, images, createdAt, "replies");
    MetricReported(base, authorName, text, metrics, images, createdAt, "views");
  }

  /** A metric is reported exactly when its count is non-empty, so a count of "0" is kept;
      only an empty count is dropped. */
  lemma MetricReported(base: Record, authorName: string, text: string, metrics: map<string, string>, images: seq<string>,
                       createdAt: string, key: string)
    requires key == "likes" || key == "retweets" || key == "replies" || key == "views"
    ensures var record := Merged(base, authorName, text, metrics, images, createdAt);
            (key in record <==> MetricOr(metrics, key) != [])
            && (key in record ==> record[key] == JStr(MetricOr(metrics, key)))
  {
    var fields := UpdateOf(authorName, text, metrics, images, createdAt);
    UpdateValues(authorName, text, metrics, images, createdAt);
    assert key in fields;
    SparseMergeAt(base, fields, key);
  }

  /** The fields written from an assembled success dict: its `.get` defaults never apply. */
  lemma FieldsOfSuccess(authorName: string, text: string, metrics: map<string, string>, images: seq<string>, createdAt: string)
    ensures SuccessFields(SuccessRecord(authorName, text, metrics, images, createdAt))
            == UpdateOf(authorName, text, metrics, images, createdAt)
  {
    SuccessRecordFields(authorName, text, metrics, images, createdAt);
  }

  /** A URL the validator accepts is not empty. */
  lemma ValidUrlNotEmpty(url: string)
    requires IsValidTwitterUrl(url)
    ensures url != []
  {
    var p := ParseStatusUrl(url).value;
    assert |Render(p)| >= |Scheme(p.secure)| >= 7;
  }

  /** The attempt the loop stops at is the first one that passes. */
  lemma {:induction false} FirstSuccessIs(passed: nat -> bool, from: nat, f: nat)
    requires from <= f <= MAX_RETRIES && passed(f)
    requires forall i :: from <= i < f ==> !passed(i)
    ensures FirstSuccess(passed, from) == f
    decreases f - from
  {
    if from < f {
      FirstSuccessIs(passed, from + 1, f);
    }
  }

  /** The dict after a success that extracted these values, from a starting dict that holds
      a non-empty URL and an author handle. */
  lemma RecordOfSuccess(base: Record, url: string, author: string, record: Record,
                        authorName: string, text: string, metrics: map<string, string>, images: seq<string>, createdAt: string)
    requires Get(base, "url") == JStr(url) && url != [] && Get(base, "author") == JStr(author) && author != []
    requires "message" !in base
    requires record == Merged(base, authorName, text, metrics, images, createdAt)
    requires authorName != [] || text != []
    requires "likes" in metrics && "retweets" in metrics && "replies" in metrics && "views" in metrics
    ensures Get(record, "status") == JStr("success")
            && "message" !in record
            && (forall k :: k in record ==> !IsEmptyValue(record[k]))
            && Get(record, "url") == JStr(url)
            && Get(record, "author") == JStr(author)
            && ("author_name" in record || "text" in record)
            && ("author_name" in record ==> record["author_name"] == JStr(authorName))
            && ("text" in record ==> record["text"] == JStr(text))
            && ("images" in record <==> images != [])
            && ("images" in record ==> record["images"] == StringArray(images))
            && ("likes" in record ==> record["likes"] == JStr(metrics["likes"]))
            && ("retweets" in record ==> record["retweets"] == JStr(metrics["retweets"]))
            && ("replies" in record ==> record["replies"] == JStr(metrics["replies"]))
            && ("views" in record ==> record["views"] == JStr(metrics["views"]))
  {
    MergedStatus(base, authorName, text, metrics, images, createdAt);
    MergedContent(base, authorName, text, metrics, images, createdAt);
    MergedMetrics(base, authorName, text, metrics, images, createdAt);
    UrlAndAuthorKept(base, authorName, text, metrics, images, createdAt);
  }

  /** The update does not touch `url` and `author`. */
  lemma UrlAndAuthorKept(base: Record, authorName: string, text: string, metrics: map<string, string>, images: seq<string>, createdAt: string)
    ensures var record := Merged(base, authorName, text, metrics, images, createdAt);
            ("url" in base && !IsEmptyValue(base["url"]) ==> Get(record, "url") == base["url"])
            && ("author" in base && !IsEmptyValue(base["author"]) ==> Get(record, "author") == base["author"])
  {
    var fields := UpdateOf(authorName, text, metrics, images, createdAt);
    UpdateValues(authorName, text, metrics, images, createdAt);
    UntouchedKeys();
    SparseMergeAt(base, fields, "url");
    SparseMergeAt(base, fields, "author");
  }

  /** The loop's dict when attempt `f` is the first to pass, on `page`. */
  lemma SuccessAt(base: Record, outcome: nat -> AttemptOutcome, f: nat, page: Page)
    requires f <= MAX_RETRIES && FirstSuccess(Passed(outcome), 0) == f
    requires outcome(f) == SetupOk(Loaded(page)) && EssentialDataFound(Loaded(page))
    ensures AttemptsRecord(base, outcome, 0)
            == Merged(base, FirstMatchText(page, AUTHOR_SELECTORS), FirstMatchText(page, TEXT_SELECTORS),
                      MetricsOf(page), ImagesOf(page), page.createdAt)
  {
    LoopRecord(base, outcome, 0);
    SuccessIsAssembled(Loaded(page));
    FieldsOfSuccess(FirstMatchText(page, AUTHOR_SELECTORS), FirstMatchText(page, TEXT_SELECTORS),
                    MetricsOf(page), ImagesOf(page), page.createdAt);
  }

  /** When attempts before `f` fail and attempt `f` loads `page` and finds the essential data
      there, the returned dict reports success with what that page shows: no message, no
      empty value, the URL and the author handle kept, the author name or the text present,
      the author name, text, images and counts as extracted, and images exactly when there
      are some. */
  lemma SuccessfulRun(url: string, now: string, outcome: nat -> AttemptOutcome, f: nat, page: Page)
    requires IsValidTwitterUrl(url)
    requires f <= MAX_RETRIES && forall i :: 0 <= i < f ==> !AttemptSucceeds(outcome(i))
    requires outcome(f) == SetupOk(Loaded(page)) && EssentialDataFound(Loaded(page))
    ensures var record := ExtractTweetSpec(url, now, outcome).record;
            Get(record, "status") == JStr("success")
            && "message" !in record
            && (forall k :: k in record ==> !IsEmptyValue(record[k]))
            && Get(record, "url") == JStr(url)
            && Get(record, "author") == JStr("@" + ParseStatusUrl(url).value.handle)
            && ("author_name" in record || "text" in record)
            && ("author_name" in record ==> record["author_name"] == JStr(FirstMatchText(page, AUTHOR_SELECTORS)))
            && ("text" in record ==> record["text"] == JStr(FirstMatchText(page, TEXT_SELECTORS)))
            && ("images" in record <==> ImagesOf(page) != [])
            && ("images" in record ==> record["images"] == StringArray(ImagesOf(page)))
            && ("likes" in record ==> record["likes"] == JStr(MetricsOf(page)["likes"]))
            && ("retweets" in record ==> record["retweets"] == JStr(MetricsOf(page)["retweets"]))
            && ("replies" in record ==> record["replies"] == JStr(MetricsOf(page)["replies"]))
            && ("views" in record ==> record["views"] == JStr(MetricsOf(page)["views"]))
  {
    var passed := Passed(outcome);
    forall i | 0 <= i < f ensures !passed(i) {
      assert !AttemptSucceeds(outcome(i));
    }
    assert passed(f);
    FirstSuccessIs(passed, 0, f);
    ValidUrlRetries(url, now, outcome);
    SuccessAt(WithAuthor(url, now), outcome, f, page);
    MetricKeysKept(page);
    StartingRecord(url, now);
    ValidUrlNotEmpty(url);
    var author := "@" + ParseStatusUrl(url).value.handle;
    assert author != [];
    RecordOfSuccess(WithAuthor(url, now), url, author, ExtractTweetSpec(url, now, outcome).record,
                    FirstMatchText(page, AUTHOR_SELECTORS), FirstMatchText(page, TEXT_SELECTORS),
                    MetricsOf(page), ImagesOf(page), page.createdAt);
  }

  /** The dict reports anything but an error exactly when the URL is valid and one of the
      three attempts loads a page with the essential data. */
  lemma ReportsSuccessIff(url: string, now: string, outcome: nat -> AttemptOutcome)
    ensures NotError(ExtractTweetSpec(url, now, outcome).record)
            <==> IsValidTwitterUrl(url) && exists i :: 0 <= i <= MAX_RETRIES && AttemptSucceeds(outcome(i))
  {
    var valid := IsValidTwitterUrl(url);
    var anySuccess := exists i :: 0 <= i <= MAX_RETRIES && AttemptSucceeds(outcome(i));
    if !valid {
      InvalidUrlReportsError(url, now, outcome);
    } else if !anySuccess {
      ExhaustedReportsError(url, now, outcome);
    } else {
      SomeSuccessReportsSuccess(url, now, outcome);
    }
  }

  lemma InvalidUrlReportsError(url: string, now: string, outcome: nat -> AttemptOutcome)
    requires !IsValidTwitterUrl(url)
    ensures !NotError(ExtractTweetSpec(url, now, outcome).record)
  {
    InvalidUrlAnsweredAtOnce(url, now, outcome);
  }

  lemma ExhaustedReportsError(url: string, now: string, outcome: nat -> AttemptOutcome)
    requires IsValidTwitterUrl(url)
    requires !exists i :: 0 <= i <= MAX_RETRIES && AttemptSucceeds(outcome(i))
    ensures !NotError(ExtractTweetSpec(url, now, outcome).record)
  {
    ExhaustedAttempts(url, now, outcome);
    StartingRecord(url, now);
  }

  lemma SomeSuccessReportsSuccess(url: string, now: string, outcome: nat -> AttemptOutcome)
    requires IsValidTwitterUrl(url)
    requires exists i :: 0 <= i <= MAX_RETRIES && AttemptSucceeds(outcome(i))
    ensures NotError(ExtractTweetSpec(url, now, outcome).record)
  {
    var f := FirstPassingAttempt(outcome);
    SuccessReportsSuccess(url, now, outcome, f);
  }

  /** When some attempt passes, the first one that does. */
  lemma FirstPassingAttempt(outcome: nat -> AttemptOutcome) returns (f: nat)
    requires exists i :: 0 <= i <= MAX_RETRIES && AttemptSucceeds(outcome(i))
    ensures f <= MAX_RETRIES && AttemptSucceeds(outcome(f))
    ensures forall i :: 0 <= i < f ==> !AttemptSucceeds(outcome(i))
  {
    var passed := Passed(outcome);
    f := FirstSuccess(passed, 0);
    forall i | 0 <= i < f ensures !AttemptSucceeds(outcome(i)) {
      assert !passed(i);
    }
    assert f <= MAX_RETRIES by {
      var i :| 0 <= i <= MAX_RETRIES && AttemptSucceeds(outcome(i));
      assert passed(i);
    }
    assert passed(f);
  }

  lemma SuccessReportsSuccess(url: string, now: string, outcome: nat -> AttemptOutcome, f: nat)
    requires IsValidTwitterUrl(url)
    requires f <= MAX_RETRIES && forall i :: 0 <= i < f ==> !AttemptSucceeds(outcome(i))
    requires AttemptSucceeds(outcome(f))
    ensures NotError(ExtractTweetSpec(url, now, outcome).record)
  {
    SuccessfulRun(url, now, outcome, f, outcome(f).load.page);
  }
}
