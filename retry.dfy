/** The retry/backoff policy of `Downloader._download_with_retries`.

    The fallible `ydl.download(url)` call is a script `remote`: `remote(i)` is
    the outcome of the (i+1)-th call. `time.sleep` appends to a trace of
    sleeps. The random jitter is not a number here: a `Jittered(s)` sleep
    lasts `s + u` seconds for some `u` drawn from [0, 1], so `s` is the
    backoff term before jitter. */
module Retry {
  import opened Common

  /** Outcome of one download call: it returns, or raises with the text `str(e)`. */
  datatype Outcome = Ok | Err(text: string)

  /** One `time.sleep(wait)`. */
  datatype Sleep = Exact(seconds: int) | Jittered(seconds: int)

  /** How the executor ends: it returns normally, or re-raises an error unchanged. */
  datatype Result = Done | Raised(text: string)

  /** The result, the number of download calls made, and the sleeps between them. */
  datatype Run = Run(result: Result, calls: nat, sleeps: seq<Sleep>)

  const DefaultMaxAttempts := 6
  const DefaultBaseWait := 2
  const DefaultMaxWait := 300

  // ----- Classification of an error text -----

  /** An error counts as a rate limit iff its text contains "429", contains
      "Too Many Requests" (case-sensitive), or its lower-cased text contains
      "rate limit". */
  predicate IsRateLimit(txt: string) {
    Contains(txt, "429") || Contains(txt, "Too Many Requests") || Contains(LowerAscii(txt), "rate limit")
  }

  /** The phrase "rate limit" is recognised in any mix of letter case, wherever it occurs. */
  lemma RateLimitPhraseAnyCase(pre: string, phrase: string, post: string)
    requires LowerAscii(phrase) == "rate limit"
    ensures IsRateLimit(pre + phrase + post)
  {
    LowerAsciiConcat(pre + phrase, post);
    LowerAsciiConcat(pre, phrase);
    ContainsInside(LowerAscii(pre), "rate limit", LowerAscii(post));
  }

  /** A status code 429 or the phrase "Too Many Requests" anywhere marks a rate limit. */
  lemma RateLimitMarkers(pre: string, post: string)
    ensures IsRateLimit(pre + "429" + post)
    ensures IsRateLimit(pre + "Too Many Requests" + post)
  {
    ContainsInside(pre, "429", post);
    ContainsInside(pre, "Too Many Requests", post);
  }

  // ----- The `Retry-After:\s*(\d+)` search, case-insensitive, first occurrence -----

  const Directive := "retry-after:"

  /** The first index at or after `j` that is not white space. */
  function SkipSpaces(t: string, j: nat): (k: nat)
    requires j <= |t|
    ensures j <= k <= |t|
    decreases |t| - j
  {
    if j < |t| && IsSpace(t[j]) then SkipSpaces(t, j + 1) else j
  }

  /** The first index at or after `j` that is not an ASCII digit. */
  function SkipDigits(t: string, j: nat): (k: nat)
    requires j <= |t|
    ensures j <= k <= |t|
    decreases |t| - j
  {
    if j < |t| && IsDigit(t[j]) then SkipDigits(t, j + 1) else j
  }

  /** `SkipSpaces` and `SkipDigits` stop at the end of the run they skip. */
  lemma {:induction false} SkipsStopAtRunEnd(t: string, j: nat)
    requires j <= |t|
    ensures forall m :: j <= m < SkipSpaces(t, j) ==> IsSpace(t[m])
    ensures SkipSpaces(t, j) == |t| || !IsSpace(t[SkipSpaces(t, j)])
    ensures forall m :: j <= m < SkipDigits(t, j) ==> IsDigit(t[m])
    ensures SkipDigits(t, j) == |t| || !IsDigit(t[SkipDigits(t, j)])
    decreases |t| - j
  {
    if j < |t| {
      SkipsStopAtRunEnd(t, j + 1);
    }
  }

  function DigitValue(c: char): nat {
    if IsDigit(c) then c as int - '0' as int else 0
  }

  /** Python's `int(ds)` for a run of ASCII digits. */
  function DigitsValue(ds: string): nat
    decreases |ds|
  {
    if ds == [] then 0
    else DigitsValue(ds[..|ds| - 1]) * 10 + DigitValue(ds[|ds| - 1])
  }

  /** The decimal digits of `n`, most significant first, with no leading zero. */
  function Digits(n: nat): (ds: string)
    ensures |ds| > 0
    ensures forall m :: 0 <= m < |ds| ==> IsDigit(ds[m])
    decreases n
  {
    var d := ['0' + (n % 10) as char];
    if n < 10 then d else Digits(n / 10) + d
  }

  /** Printing a number and reading it back gives the number. */
  lemma {:induction false} DigitsRoundTrip(n: nat)
    ensures DigitsValue(Digits(n)) == n
    decreases n
  {
    var ds := Digits(n);
    if n >= 10 {
      assert ds[..|ds| - 1] == Digits(n / 10);
      DigitsRoundTrip(n / 10);
    }
  }

  /** The text at `i` equals `pat` once ASCII letters are lower-cased. */
  predicate FoldsToAt(t: string, i: nat, pat: string) {
    i + |pat| <= |t| && forall k :: 0 <= k < |pat| ==> LowerChar(t[i + k]) == pat[k]
  }

  /** `\s*(\d+)` at index `j`: the value of the digits after optional white space. */
  function CaptureAt(t: string, j: nat): Option<nat>
    requires j <= |t|
  {
    var d := SkipSpaces(t, j);
    var k := SkipDigits(t, d);
    if d < k then Some(DigitsValue(t[d..k])) else None
  }

  /** The value the pattern captures when it matches at position `i`. */
  function DirectiveAt(t: string, i: nat): Option<nat> {
    if FoldsToAt(t, i, Directive) then CaptureAt(t, i + |Directive|) else None
  }

  /** The least position in [i, n] that satisfies `p`, if any. */
  function FirstWhere(p: nat -> bool, i: nat, n: nat): (r: Option<nat>)
    ensures r.Some? ==> i <= r.value <= n
    decreases if i <= n then n - i + 1 else 0
  {
    if i > n then None
    else if p(i) then Some(i)
    else FirstWhere(p, i + 1, n)
  }

  /** `FirstWhere` finds a position when there is one, and no position before
      the one it finds satisfies `p`. */
  lemma {:induction false} FirstWhereIsFirst(p: nat -> bool, i: nat, n: nat)
    ensures var r := FirstWhere(p, i, n);
            (r.Some? ==> p(r.value))
            && (forall q :: i <= q <= n && (r.None? || q < r.value) ==> !p(q))
    decreases if i <= n then n - i + 1 else 0
  {
    if i <= n && !p(i) {
      FirstWhereIsFirst(p, i + 1, n);
    }
  }

  /** The positions of `txt` where the pattern matches, as a predicate. */
  function Matched(txt: string): nat -> bool {
    (q: nat) => DirectiveAt(txt, q).Some?
  }

  /** The case-insensitive search for `Retry-After:\s*(\d+)` in `txt`: the integer of
      the group at the first position where the pattern matches. */
  function RetryAfter(txt: string): Option<nat> {
    match FirstWhere(Matched(txt), 0, |txt|)
    case None => None
    case Some(p) => DirectiveAt(txt, p)
  }

  /** `RetryAfter` yields the value of the first match, and nothing only when
      the pattern matches nowhere. */
  lemma RetryAfterFirstMatch(txt: string)
    ensures RetryAfter(txt).None? ==> forall q :: 0 <= q <= |txt| ==> DirectiveAt(txt, q).None?
    ensures RetryAfter(txt).Some? ==>
              exists p :: 0 <= p <= |txt| && DirectiveAt(txt, p) == RetryAfter(txt)
                          && forall q :: 0 <= q < p ==> DirectiveAt(txt, q).None?
  {
    var r := FirstWhere(Matched(txt), 0, |txt|);
    FirstWhereIsFirst(Matched(txt), 0, |txt|);
    forall q | 0 <= q <= |txt| && (r.None? || q < r.value)
      ensures DirectiveAt(txt, q).None?
    {
      assert !Matched(txt)(q);
    }
    if r.Some? {
      var p := r.value;
      assert RetryAfter(txt) == DirectiveAt(txt, p);
    } else {
      assert RetryAfter(txt) == None;
    }
  }


  /** `Retry-After:` in this spelling folds to the pattern's literal. */
  lemma FoldsDirective(t: string, i: nat)
    requires i + 12 <= |t| && t[i..i + 12] == "Retry-After:"
    ensures FoldsToAt(t, i, Directive)
  {
    forall k | 0 <= k < |Directive| ensures LowerChar(t[i + k]) == Directive[k] {
      assert t[i + k] == t[i..i + 12][k];
    }
  }

  /** One space, then the digits of `n` not followed by another digit,
      capture `n`. */
  lemma CaptureDigits(t: string, j: nat, n: nat)
    requires j + 1 + |Digits(n)| <= |t|
    requires t[j] == ' ' && t[j + 1..j + 1 + |Digits(n)|] == Digits(n)
    requires j + 1 + |Digits(n)| == |t| || !IsDigit(t[j + 1 + |Digits(n)|])
    ensures CaptureAt(t, j) == Some(n)
  {
    var ds := Digits(n);
    var k := j + 1 + |ds|;
    assert t[j + 1] == ds[0];
    assert SkipSpaces(t, j) == j + 1 by {
      assert SkipSpaces(t, j + 1) == j + 1;
    }
    assert SkipDigits(t, j + 1) == k by {
      forall m | j + 1 <= m < k ensures IsDigit(t[m]) {
        assert t[m] == ds[m - (j + 1)];
      }
      SkipDigitsRun(t, j + 1, k);
    }
    DigitsRoundTrip(n);
  }

  /** `Retry-After: N` written at index `i` of `t`, and not followed by
      another digit, matches there, capturing N. */
  lemma DirectiveAtIndex(t: string, i: nat, n: nat)
    requires i + 13 + |Digits(n)| <= |t|
    requires t[i..i + 13] == "Retry-After: " && t[i + 13..i + 13 + |Digits(n)|] == Digits(n)
    requires i + 13 + |Digits(n)| == |t| || !IsDigit(t[i + 13 + |Digits(n)|])
    ensures DirectiveAt(t, i) == Some(n)
  {
    assert t[i..i + 12] == t[i..i + 13][..12];
    FoldsDirective(t, i);
    assert t[i + 12] == t[i..i + 13][12];
    CaptureDigits(t, i + 12, n);
  }

  /** `Retry-After: N` written at index `|pre|` matches there, capturing N. */
  lemma DirectiveAtOffset(pre: string, n: nat, post: string)
    requires post == [] || !IsDigit(post[0])
    ensures DirectiveAt(pre + "Retry-After: " + Digits(n) + post, |pre|) == Some(n)
  {
    var ds := Digits(n);
    var t := pre + "Retry-After: " + ds + post;
    assert t[|pre|..|pre| + 13] == "Retry-After: ";
    assert t[|pre| + 13..|pre| + 13 + |ds|] == ds;
    DirectiveAtIndex(t, |pre|, n);
  }

  /** A match at `i` with none before it is the one `RetryAfter` reports. */
  lemma RetryAfterAt(t: string, i: nat, n: nat)
    requires i <= |t| && DirectiveAt(t, i) == Some(n)
    requires forall q :: 0 <= q < i ==> DirectiveAt(t, q).None?
    ensures RetryAfter(t) == Some(n)
  {
    FirstWhereIsFirst(Matched(t), 0, |t|);
    assert Matched(t)(i);
    var r := FirstWhere(Matched(t), 0, |t|);
    assert r.Some? && r.value <= i;
    assert Matched(t)(r.value);
  }

  /** A `Retry-After: N` directive after text `pre` in which the pattern
      matches nowhere asks for exactly N seconds. */
  lemma RetryAfterDirective(pre: string, n: nat, post: string)
    requires post == [] || !IsDigit(post[0])
    requires forall q :: 0 <= q < |pre| ==> DirectiveAt(pre + "Retry-After: " + Digits(n) + post, q).None?
    ensures RetryAfter(pre + "Retry-After: " + Digits(n) + post) == Some(n)
  {
    DirectiveAtOffset(pre, n, post);
    RetryAfterAt(pre + "Retry-After: " + Digits(n) + post, |pre|, n);
  }

  /** A text that opens with `Retry-After: N` asks for exactly N seconds. */
  lemma RetryAfterLeading(n: nat, post: string)
    requires post == [] || !IsDigit(post[0])
    ensures RetryAfter("Retry-After: " + Digits(n) + post) == Some(n)
  {
    var ds := Digits(n);
    var t := "Retry-After: " + ds + post;
    assert t[..13] == "Retry-After: ";
    assert t[13..13 + |ds|] == ds;
    DirectiveAtIndex(t, 0, n);
    RetryAfterAt(t, 0, n);
  }

  lemma {:induction false} SkipDigitsRun(t: string, j: nat, k: nat)
    requires j <= k <= |t|
    requires forall m :: j <= m < k ==> IsDigit(t[m])
    requires k == |t| || !IsDigit(t[k])
    ensures SkipDigits(t, j) == k
    decreases k - j
  {
    if j < k {
      SkipDigitsRun(t, j + 1, k);
    }
  }

  // ----- The wait before the next attempt -----

  function Pow2(n: nat): (r: nat)
    ensures r >= 1
  {
    if n == 0 then 1 else 2 * Pow2(n - 1)
  }

  lemma {:induction false} Pow2Monotone(a: nat, b: nat)
    requires a <= b
    ensures Pow2(a) <= Pow2(b)
    decreases b
  {
    if a < b {
      Pow2Monotone(a, b - 1);
    }
  }

  /** The exponential backoff term: `base_wait` doubled once per earlier attempt, capped at `max_wait`. */
  function Backoff(attempt: nat, baseWait: int, maxWait: int): int
    requires attempt >= 1
  {
    var w := baseWait * Pow2(attempt - 1);
    if w <= maxWait then w else maxWait
  }

  /** The exponential term never exceeds the cap and, for a non-negative base,
      never shrinks from one attempt to a later one. */
  lemma BackoffBounds(a: nat, b: nat, baseWait: int, maxWait: int)
    requires 1 <= a <= b && baseWait >= 0
    ensures Backoff(a, baseWait, maxWait) <= maxWait
    ensures Backoff(a, baseWait, maxWait) <= Backoff(b, baseWait, maxWait)
  {
    Pow2Monotone(a - 1, b - 1);
    assert baseWait * Pow2(a - 1) <= baseWait * Pow2(b - 1) by {
      MulMonotone(baseWait, Pow2(a - 1), Pow2(b - 1));
    }
  }

  lemma MulMonotone(c: int, x: int, y: int)
    requires c >= 0 && x <= y
    ensures c * x <= c * y
  {
  }

  /** The sleep after a rate-limit error on attempt `attempt`: a Retry-After
      value exactly, otherwise the capped exponential term plus jitter. */
  function WaitFor(txt: string, attempt: nat, baseWait: int, maxWait: int): Sleep
    requires attempt >= 1
  {
    match RetryAfter(txt)
    case Some(n) => Exact(n)
    case None => Jittered(Backoff(attempt, baseWait, maxWait))
  }

  /** A `Retry-After: N` directive, the first place the pattern matches,
      overrides backoff and jitter: the wait is exactly N, whatever the
      attempt. */
  lemma WaitHonoursRetryAfter(pre: string, n: nat, post: string, attempt: nat, baseWait: int, maxWait: int)
    requires attempt >= 1
    requires post == [] || !IsDigit(post[0])
    requires forall q :: 0 <= q < |pre| ==> DirectiveAt(pre + "Retry-After: " + Digits(n) + post, q).None?
    ensures WaitFor(pre + "Retry-After: " + Digits(n) + post, attempt, baseWait, maxWait) == Exact(n)
  {
    RetryAfterDirective(pre, n, post);
  }

  // ----- The loop, as a function of its state -----

  /** How the executor goes on after `done` calls, for any classification
      `retryable` of error texts and any `wait` policy (`wait(t, d)` is the
      sleep after error `t` on call `d + 1`). */
  function RunFrom(remote: nat -> Outcome, maxAttempts: int, retryable: string -> bool,
                   wait: (string, nat) -> Sleep, done: nat): Run
    decreases if done < maxAttempts then maxAttempts - done else 0
  {
    if done >= maxAttempts then Run(Done, 0, [])
    else
      match remote(done)
      case Ok => Run(Done, 1, [])
      case Err(t) =>
        if !retryable(t) || done + 1 == maxAttempts then Run(Raised(t), 1, [])
        else
          var rest := RunFrom(remote, maxAttempts, retryable, wait, done + 1);
          Run(rest.result, rest.calls + 1, [wait(t, done)] + rest.sleeps)
  }

  /** The source's wait policy as a function value. */
  function Policy(baseWait: int, maxWait: int): (string, nat) -> Sleep {
    (t: string, d: nat) => WaitFor(t, d + 1, baseWait, maxWait)
  }

  /** The whole run of `_download_with_retries` with the given limits. */
  function Retry(remote: nat -> Outcome, maxAttempts: int, baseWait: int, maxWait: int): Run {
    RunFrom(remote, maxAttempts, IsRateLimit, Policy(baseWait, maxWait), 0)
  }

  /** `rest`, preceded by the calls and sleeps already made. */
  function Then(sleeps: seq<Sleep>, rest: Run): Run {
    Run(rest.result, |sleeps| + rest.calls, sleeps + rest.sleeps)
  }

  lemma ThenSnoc(sleeps: seq<Sleep>, w: Sleep, rest: Run)
    ensures Then(sleeps, Run(rest.result, rest.calls + 1, [w] + rest.sleeps)) == Then(sleeps + [w], rest)
  {
    assert sleeps + ([w] + rest.sleeps) == (sleeps + [w]) + rest.sleeps;
  }

  /** The executor as the source writes it: a `while` loop counting attempts. */
  method DownloadWithRetries(remote: nat -> Outcome, maxAttempts: int, baseWait: int, maxWait: int)
    returns (run: Run)
    ensures run == Retry(remote, maxAttempts, baseWait, maxWait)
  {
    var attempt: nat := 0;
    var sleeps: seq<Sleep> := [];
    ghost var total := Retry(remote, maxAttempts, baseWait, maxWait);
    ghost var policy := Policy(baseWait, maxWait);
    while attempt < maxAttempts
      invariant |sleeps| == attempt
      invariant maxAttempts > 0 ==> attempt < maxAttempts
      invariant total == Then(sleeps, RunFrom(remote, maxAttempts, IsRateLimit, policy, attempt))
      decreases maxAttempts - attempt
    {
      attempt := attempt + 1;
      var outcome := remote(attempt - 1);
      if outcome.Ok? {
        return Run(Done, attempt, sleeps);
      }
      var txt := outcome.text;
      var isRateLimit := IsRateLimit(txt);
      var retryAfter := RetryAfter(txt);
      if !isRateLimit || attempt == maxAttempts {
        return Run(Raised(txt), attempt, sleeps);
      }
      var wait;
      if retryAfter.Some? {
        wait := Exact(retryAfter.value);
      } else {
        wait := Jittered(Backoff(attempt, baseWait, maxWait));
      }
      assert wait == policy(txt, attempt - 1);
      ThenSnoc(sleeps, wait, RunFrom(remote, maxAttempts, IsRateLimit, policy, attempt));
      sleeps := sleeps + [wait];
    }
    return Run(Done, attempt, sleeps);
  }

  // ----- Properties -----

  /** A run from `done` calls on makes at least one and at most the
      remaining number of calls, with one sleep fewer than calls. */
  lemma {:induction false} RunFromCalls(remote: nat -> Outcome, maxAttempts: int, retryable: string -> bool,
                                        wait: (string, nat) -> Sleep, done: nat)
    ensures done >= maxAttempts ==> RunFrom(remote, maxAttempts, retryable, wait, done) == Run(Done, 0, [])
    ensures done < maxAttempts ==>
              var r := RunFrom(remote, maxAttempts, retryable, wait, done);
              1 <= r.calls <= maxAttempts - done && |r.sleeps| == r.calls - 1
    decreases if done < maxAttempts then maxAttempts - done else 0
  {
    if done < maxAttempts && remote(done).Err? && retryable(remote(done).text) && done + 1 != maxAttempts {
      RunFromCalls(remote, maxAttempts, retryable, wait, done + 1);
    }
  }

  /** Every call of a run but the last got a retryable error and was
      followed by the sleep the policy gives for it. */
  lemma {:induction false} RunFromRetried(remote: nat -> Outcome, maxAttempts: int, retryable: string -> bool,
                                          wait: (string, nat) -> Sleep, done: nat, j: nat)
    requires j + 1 < RunFrom(remote, maxAttempts, retryable, wait, done).calls
    ensures remote(done + j).Err? && retryable(remote(done + j).text)
    ensures |RunFrom(remote, maxAttempts, retryable, wait, done).sleeps| > j
    ensures RunFrom(remote, maxAttempts, retryable, wait, done).sleeps[j] == wait(remote(done + j).text, done + j)
    decreases j
  {
    RunFromCalls(remote, maxAttempts, retryable, wait, done);
    if j > 0 {
      RunFromRetried(remote, maxAttempts, retryable, wait, done + 1, j - 1);
      assert done + 1 + (j - 1) == done + j;
    }
  }

  /** The last call of a run decides its result: the run returns normally iff
      that call succeeded, and otherwise re-raises that call's error text,
      which is not retryable or came on the last permitted attempt. */
  lemma {:induction false} RunFromLast(remote: nat -> Outcome, maxAttempts: int, retryable: string -> bool,
                                       wait: (string, nat) -> Sleep, done: nat)
    requires done < maxAttempts
    ensures var r := RunFrom(remote, maxAttempts, retryable, wait, done);
            1 <= r.calls
            && (r.result.Done? <==> remote(done + r.calls - 1).Ok?)
            && (r.result.Raised? ==>
                  remote(done + r.calls - 1) == Err(r.result.text)
                  && (!retryable(r.result.text) || done + r.calls == maxAttempts))
    decreases maxAttempts - done
  {
    if remote(done).Err? && retryable(remote(done).text) && done + 1 != maxAttempts {
      RunFromLast(remote, maxAttempts, retryable, wait, done + 1);
      var rest := RunFrom(remote, maxAttempts, retryable, wait, done + 1);
      assert done + 1 + rest.calls - 1 == done + (rest.calls + 1) - 1;
    }
  }

  /** Bounds: never more than `max_attempts` calls, one sleep fewer than
      calls, and nothing at all when `max_attempts <= 0`. */
  lemma RetryBounds(remote: nat -> Outcome, maxAttempts: int, baseWait: int, maxWait: int)
    ensures var r := Retry(remote, maxAttempts, baseWait, maxWait);
      && (maxAttempts <= 0 ==> r == Run(Done, 0, []))
      && (maxAttempts > 0 ==> 1 <= r.calls <= maxAttempts && |r.sleeps| == r.calls - 1)
  {
    RunFromCalls(remote, maxAttempts, IsRateLimit, Policy(baseWait, maxWait), 0);
  }

  /** Only rate-limit errors are retried: every call but the last got one,
      and was followed by the sleep `WaitFor` computes for its attempt number. */
  lemma RetryRetriesOnlyRateLimits(remote: nat -> Outcome, maxAttempts: int, baseWait: int, maxWait: int, j: nat)
    requires j + 1 < Retry(remote, maxAttempts, baseWait, maxWait).calls
    ensures remote(j).Err? && IsRateLimit(remote(j).text)
    ensures |Retry(remote, maxAttempts, baseWait, maxWait).sleeps| > j
    ensures Retry(remote, maxAttempts, baseWait, maxWait).sleeps[j] == WaitFor(remote(j).text, j + 1, baseWait, maxWait)
  {
    RunFromRetried(remote, maxAttempts, IsRateLimit, Policy(baseWait, maxWait), 0, j);
  }

  /** The executor returns normally iff the last call succeeded; otherwise it
      re-raises that call's error text unchanged, and that error either is not
      a rate limit or came on the last permitted attempt. */
  lemma RetryFinalOutcome(remote: nat -> Outcome, maxAttempts: int, baseWait: int, maxWait: int)
    requires maxAttempts > 0
    ensures var r := Retry(remote, maxAttempts, baseWait, maxWait);
            (r.result.Done? <==> remote(r.calls - 1).Ok?)
            && (r.result.Raised? ==>
                  remote(r.calls - 1) == Err(r.result.text)
                  && (!IsRateLimit(r.result.text) || r.calls == maxAttempts))
  {
    RunFromLast(remote, maxAttempts, IsRateLimit, Policy(baseWait, maxWait), 0);
  }

  /** Success on call k after k-1 rate-limit errors: the executor returns
      normally after exactly k calls and k-1 sleeps. */
  lemma RetrySucceedsOnCall(remote: nat -> Outcome, maxAttempts: int, baseWait: int, maxWait: int, k: nat)
    requires 1 <= k <= maxAttempts
    requires forall j :: 0 <= j < k - 1 ==> remote(j).Err? && IsRateLimit(remote(j).text)
    requires remote(k - 1).Ok?
    ensures var r := Retry(remote, maxAttempts, baseWait, maxWait);
      r.result == Done && r.calls == k && |r.sleeps| == k - 1
  {
    var r := Retry(remote, maxAttempts, baseWait, maxWait);
    RetryBounds(remote, maxAttempts, baseWait, maxWait);
    RetryFinalOutcome(remote, maxAttempts, baseWait, maxWait);
    if r.calls > k {
      RetryRetriesOnlyRateLimits(remote, maxAttempts, baseWait, maxWait, k - 1);
    }
  }

  /** An error that is not a rate limit is re-raised on the first call, with no sleep. */
  lemma RetryFailsFast(remote: nat -> Outcome, maxAttempts: int, baseWait: int, maxWait: int)
    requires maxAttempts >= 1
    requires remote(0).Err? && !IsRateLimit(remote(0).text)
    ensures Retry(remote, maxAttempts, baseWait, maxWait) == Run(Raised(remote(0).text), 1, [])
  {
  }

  /** After `max_attempts` rate-limit errors in a row the last one is
      re-raised unchanged; it is not swallowed and no sleep follows it. */
  lemma RetryExhausted(remote: nat -> Outcome, maxAttempts: int, baseWait: int, maxWait: int)
    requires maxAttempts >= 1
    requires forall j :: 0 <= j < maxAttempts ==> remote(j).Err? && IsRateLimit(remote(j).text)
    ensures var r := Retry(remote, maxAttempts, baseWait, maxWait);
      r.result == Raised(remote(maxAttempts - 1).text) && r.calls == maxAttempts && |r.sleeps| == maxAttempts - 1
  {
    var r := Retry(remote, maxAttempts, baseWait, maxWait);
    RetryBounds(remote, maxAttempts, baseWait, maxWait);
    RetryFinalOutcome(remote, maxAttempts, baseWait, maxWait);
    assert remote(r.calls - 1).Err?;
  }

  /** The backoff terms of the sleeps of one run, before jitter is added,
      are at most `max_wait` and never decrease (for a non-negative
      `base_wait`). */
  lemma RetryBackoffNonDecreasing(remote: nat -> Outcome, maxAttempts: int, baseWait: int, maxWait: int, i: nat, j: nat)
    requires baseWait >= 0
    requires var r := Retry(remote, maxAttempts, baseWait, maxWait);
      i < j < |r.sleeps| && r.sleeps[i].Jittered? && r.sleeps[j].Jittered?
    ensures var r := Retry(remote, maxAttempts, baseWait, maxWait);
      r.sleeps[i].seconds <= r.sleeps[j].seconds <= maxWait
  {
    RetryBounds(remote, maxAttempts, baseWait, maxWait);
    RetryRetriesOnlyRateLimits(remote, maxAttempts, baseWait, maxWait, i);
    RetryRetriesOnlyRateLimits(remote, maxAttempts, baseWait, maxWait, j);
    BackoffBounds(i + 1, j + 1, baseWait, maxWait);
    BackoffBounds(j + 1, j + 1, baseWait, maxWait);
  }
}
