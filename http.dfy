/**
 * The retry policy of `http_get` (app.py): up to five GET attempts, an
 * exponential back-off capped at eight seconds after each transient failure,
 * and an empty result on any terminal failure.
 *
 * Requests are not performed: the network is a sequence of outcomes, one per
 * attempt the function may make. `time.sleep` becomes a recorded delay and
 * `st.error` a flag saying that an error message was shown.
 */
module Http {
  import opened Wrappers

  /** Total number of attempts (`for i in range(5)`). */
  const MaxAttempts: nat := 5
  /** Ceiling of the back-off delay, in seconds. */
  const MaxDelay: nat := 8

  /**
   * What one attempt of `requests.get` gives: a response with a status code
   * and a body that `r.json()` either decodes (`Some`) or fails on (`None`),
   * or an exception raised by the request itself (timeout, connection error).
   */
  datatype Attempt<B> = Reply(status: int, body: Option<B>) | Raised

  /** What one call of `http_get` produced: the decoded body (`None` stands for
   *  the `{}` it returns on failure), the delays it slept, in order, how many
   *  requests it made, and whether it showed an error message. */
  datatype Fetch<B> = Fetch(body: Option<B>, delays: seq<nat>, attempts: nat, reported: bool)

  /** Status codes that are retried: rate limiting and transient server errors. */
  predicate Retryable(status: int) {
    status in {429, 500, 502, 503, 504}
  }

  function Pow2(n: nat): (r: nat)
    ensures r >= 1
  {
    if n == 0 then 1 else 2 * Pow2(n - 1)
  }

  /** `min(2 ** i, 8)`: the delay slept after a transient failure of attempt `i`. */
  function Backoff(i: nat): (d: nat)
    ensures 1 <= d <= MaxDelay
    ensures d <= Pow2(i) && (d == Pow2(i) || d == MaxDelay)
  {
    if Pow2(i) < MaxDelay then Pow2(i) else MaxDelay
  }

  /** The delays slept after attempts 0 .. n-1 when each of them failed transiently. */
  function Backoffs(n: nat): (ds: seq<nat>)
    ensures |ds| == n
    ensures forall j :: 0 <= j < n ==> ds[j] == Backoff(j)
  {
    if n == 0 then [] else Backoffs(n - 1) + [Backoff(n - 1)]
  }

  /** Prefix one more attempt, that failed and was followed by a sleep of `d`. */
  function After<B>(d: nat, f: Fetch<B>): Fetch<B> {
    Fetch(f.body, [d] + f.delays, 1 + f.attempts, f.reported)
  }

  /** Prefix several failed attempts, each followed by the sleep recorded in `ds`. */
  function Shift<B>(ds: seq<nat>, f: Fetch<B>): Fetch<B> {
    Fetch(f.body, ds + f.delays, |ds| + f.attempts, f.reported)
  }

  /**
   * The behaviour of the loop from attempt `i` on. A 200 whose body does not
   * decode raises inside the `try` and is handled like a network exception:
   * on the last attempt it ends the call with an error message, on the others
   * it sleeps and retries.
   */
  function RetryFrom<B>(outcomes: seq<Attempt<B>>, i: nat): Fetch<B>
    requires i <= MaxAttempts <= |outcomes|
    decreases MaxAttempts - i
  {
    if i == MaxAttempts then Fetch(None, [], 0, false)
    else
      var failed := outcomes[i].Raised? || (outcomes[i].status == 200 && outcomes[i].body.None?);
      if failed then
        if i == MaxAttempts - 1 then Fetch(None, [], 1, true)
        else After(Backoff(i), RetryFrom(outcomes, i + 1))
      else if outcomes[i].status == 200 then Fetch(outcomes[i].body, [], 1, false)
      else if Retryable(outcomes[i].status) then After(Backoff(i), RetryFrom(outcomes, i + 1))
      else Fetch(None, [], 1, true)
  }

  /** Sleeping `d` after one more failed attempt, seen from the caller's side. */
  lemma ShiftAfter<B>(ds: seq<nat>, d: nat, f: Fetch<B>)
    ensures Shift(ds, After(d, f)) == Shift(ds + [d], f)
  {
    assert ds + ([d] + f.delays) == (ds + [d]) + f.delays;
  }

  /** The behaviour of a whole call of `http_get`. */
  function Retry<B>(outcomes: seq<Attempt<B>>): (f: Fetch<B>)
    requires MaxAttempts <= |outcomes|
    ensures 1 <= f.attempts <= MaxAttempts
    ensures f.body.Some? ==> !f.reported
  {
    RetryFromCounts(outcomes, 0);
    RetryFrom(outcomes, 0)
  }

  /** Attempt `j` failed in a way that leads to a sleep and another attempt. */
  predicate Transient<B>(o: Attempt<B>, j: nat) {
    (o.Reply? && Retryable(o.status))
    || (j < MaxAttempts - 1 && (o.Raised? || (o.status == 200 && o.body.None?)))
  }

  /** Every attempt before `k` failed transiently. */
  predicate TransientPrefix<B>(outcomes: seq<Attempt<B>>, k: nat) {
    k <= |outcomes| && forall j :: 0 <= j < k ==> Transient(outcomes[j], j)
  }

  /**
   * `http_get`: the counted loop with its early returns. The result is
   * exactly the one `Retry` describes.
   */
  method HttpGet<B>(outcomes: seq<Attempt<B>>)
    returns (body: Option<B>, delays: seq<nat>, attempts: nat, reported: bool)
    requires MaxAttempts <= |outcomes|
    ensures Fetch(body, delays, attempts, reported) == Retry(outcomes)
  {
    delays := [];
    for i := 0 to MaxAttempts
      invariant |delays| == i
      invariant Retry(outcomes) == Shift(delays, RetryFrom(outcomes, i))
    {
      var o := outcomes[i];
      if o.Reply? && o.status == 200 && o.body.Some? {
        body, attempts, reported := o.body, i + 1, false;
        return;
      }
      if o.Reply? && o.status != 200 {
        if Retryable(o.status) {
          assert RetryFrom(outcomes, i) == After(Backoff(i), RetryFrom(outcomes, i + 1));
          ShiftAfter(delays, Backoff(i), RetryFrom(outcomes, i + 1));
          delays := delays + [Backoff(i)];
          continue;
        }
        body, attempts, reported := None, i + 1, true;
        return;
      }
      // the request raised, or the body of a 200 did not decode
      if i == MaxAttempts - 1 {
        body, attempts, reported := None, i + 1, true;
        return;
      }
      assert RetryFrom(outcomes, i) == After(Backoff(i), RetryFrom(outcomes, i + 1));
      ShiftAfter(delays, Backoff(i), RetryFrom(outcomes, i + 1));
      delays := delays + [Backoff(i)];
    }
    body, attempts, reported := None, MaxAttempts, false;
  }

  /** After `k` transient failures the call goes on as from attempt `k`, having
   *  slept `Backoffs(k)`. */
  lemma {:induction false} TransientPrefixShifts<B>(outcomes: seq<Attempt<B>>, k: nat)
    requires k <= MaxAttempts <= |outcomes|
    requires TransientPrefix(outcomes, k)
    ensures Retry(outcomes) == Shift(Backoffs(k), RetryFrom(outcomes, k))
  {
    if k > 0 {
      TransientPrefixShifts(outcomes, k - 1);
      assert Transient(outcomes[k - 1], k - 1);
      assert RetryFrom(outcomes, k - 1) == After(Backoff(k - 1), RetryFrom(outcomes, k));
      ShiftAfter(Backoffs(k - 1), Backoff(k - 1), RetryFrom(outcomes, k));
    }
  }

  /** The number of requests and sleeps from attempt `i` on. */
  lemma {:induction false} RetryFromCounts<B>(outcomes: seq<Attempt<B>>, i: nat)
    requires i <= MaxAttempts <= |outcomes|
    ensures var f := RetryFrom(outcomes, i);
      f.attempts <= MaxAttempts - i
      && (i < MaxAttempts ==> 1 <= f.attempts)
      && (|f.delays| == f.attempts || |f.delays| + 1 == f.attempts)
    decreases MaxAttempts - i
  {
    if i < MaxAttempts {
      RetryFromCounts(outcomes, i + 1);
    }
  }

  /** The sleeps from attempt `i` on are the back-offs of attempts `i`, `i + 1`, ... */
  lemma {:induction false} RetryFromDelays<B>(outcomes: seq<Attempt<B>>, i: nat)
    requires i <= MaxAttempts <= |outcomes|
    ensures var ds := RetryFrom(outcomes, i).delays;
      forall j :: 0 <= j < |ds| ==> ds[j] == Backoff(i + j)
    decreases MaxAttempts - i
  {
    if i < MaxAttempts {
      RetryFromDelays(outcomes, i + 1);
    }
  }

  /** Bounds of every call: one to five requests, and either one sleep per
   *  request or one fewer, each of `min(2 ** j, 8)` seconds after attempt `j`. */
  lemma RetryBounds<B>(outcomes: seq<Attempt<B>>)
    requires MaxAttempts <= |outcomes|
    ensures var f := Retry(outcomes);
      1 <= f.attempts <= MaxAttempts
      && (|f.delays| == f.attempts || |f.delays| + 1 == f.attempts)
      && f.delays == Backoffs(|f.delays|)
      && forall j :: 0 <= j < |f.delays| ==> 1 <= f.delays[j] <= MaxDelay
  {
    RetryFromCounts(outcomes, 0);
    RetryFromDelays(outcomes, 0);
  }

  /** The first decoded 200 after transient failures is returned as is. */
  lemma ReturnsFirstSuccess<B>(outcomes: seq<Attempt<B>>, k: nat, b: B)
    requires k < MaxAttempts <= |outcomes|
    requires TransientPrefix(outcomes, k) && outcomes[k] == Reply(200, Some(b))
    ensures Retry(outcomes) == Fetch(Some(b), Backoffs(k), k + 1, false)
  {
    TransientPrefixShifts(outcomes, k);
  }

  /** A status that is neither 200 nor retryable ends the call at once with `{}`
   *  and an error message. */
  lemma StopsOnTerminalStatus<B>(outcomes: seq<Attempt<B>>, k: nat)
    requires k < MaxAttempts <= |outcomes|
    requires TransientPrefix(outcomes, k)
    requires outcomes[k].Reply? && outcomes[k].status != 200 && !Retryable(outcomes[k].status)
    ensures Retry(outcomes) == Fetch(None, Backoffs(k), k + 1, true)
  {
    TransientPrefixShifts(outcomes, k);
  }

  /** An exception on the fifth attempt ends the call without a fifth sleep. */
  lemma ExceptionOnLastAttempt<B>(outcomes: seq<Attempt<B>>)
    requires MaxAttempts <= |outcomes|
    requires TransientPrefix(outcomes, MaxAttempts - 1)
    requires outcomes[MaxAttempts - 1].Raised?
    ensures Retry(outcomes) == Fetch(None, Backoffs(MaxAttempts - 1), MaxAttempts, true)
  {
    TransientPrefixShifts(outcomes, MaxAttempts - 1);
  }

  /** Five retryable statuses: five sleeps (1, 2, 4, 8 and 8 seconds), then `{}`
   *  with no error message. */
  lemma ExhaustedRetries<B>(outcomes: seq<Attempt<B>>)
    requires MaxAttempts <= |outcomes|
    requires forall j :: 0 <= j < MaxAttempts ==> outcomes[j].Reply? && Retryable(outcomes[j].status)
    ensures Retry(outcomes) == Fetch(None, [1, 2, 4, 8, 8], MaxAttempts, false)
  {
    assert TransientPrefix(outcomes, MaxAttempts);
    TransientPrefixShifts(outcomes, MaxAttempts);
    assert Backoffs(MaxAttempts) == [1, 2, 4, 8, 8];
  }

  lemma {:induction false} RetryFromTransient<B>(outcomes: seq<Attempt<B>>, i: nat)
    requires i <= MaxAttempts <= |outcomes|
    ensures var f := RetryFrom(outcomes, i);
      i + f.attempts <= MaxAttempts
      && forall j :: i <= j < i + f.attempts - 1 ==> Transient(outcomes[j], j)
    decreases MaxAttempts - i
  {
    if i < MaxAttempts {
      RetryFromTransient(outcomes, i + 1);
    }
  }

  lemma {:induction false} RetryFromBody<B>(outcomes: seq<Attempt<B>>, i: nat)
    requires i <= MaxAttempts <= |outcomes|
    ensures var f := RetryFrom(outcomes, i);
      i + f.attempts <= MaxAttempts
      && (f.body.Some? ==> f.attempts >= 1 && outcomes[i + f.attempts - 1] == Reply(200, f.body))
    decreases MaxAttempts - i
  {
    if i < MaxAttempts {
      RetryFromBody(outcomes, i + 1);
    }
  }

  /** The converse direction: whatever the call returns, every attempt before
   *  the last one it made failed transiently, and a body only ever comes from
   *  a 200 whose body decoded. */
  lemma BodyOnlyFromFirstSuccess<B>(outcomes: seq<Attempt<B>>, b: B)
    requires MaxAttempts <= |outcomes|
    requires Retry(outcomes).body == Some(b)
    ensures var k := Retry(outcomes).attempts - 1;
      0 <= k < MaxAttempts && TransientPrefix(outcomes, k) && outcomes[k] == Reply(200, Some(b))
  {
    RetryFromTransient(outcomes, 0);
    RetryFromBody(outcomes, 0);
  }

  /** Responses 500, 500, 200: the 200 body, after sleeps of one and two seconds. */
  lemma TwoServerErrorsThenSuccess<B>(b: B, rest: seq<Attempt<B>>)
    requires |rest| == 2
    ensures Retry([Reply(500, None), Reply(500, None), Reply(200, Some(b))] + rest)
            == Fetch(Some(b), [1, 2], 3, false)
  {
    var outcomes := [Reply(500, None), Reply(500, None), Reply(200, Some(b))] + rest;
    assert TransientPrefix(outcomes, 2);
    ReturnsFirstSuccess(outcomes, 2, b);
    assert Backoffs(2) == [1, 2];
  }
}
