/**
 * The retrying HTTP GET of `fetch_text` (gutenberg/crawl.py).  The network is an
 * oracle: `net(url, k)` is what the k-th attempt on `url` observes.
 */
module Transport {
  import opened Wrappers

  newtype Byte = b: int | 0 <= b < 256

  /** A 200 body: either it decoded as text, or only its raw bytes are available. */
  datatype Payload = Text(text: string) | Undecodable(raw: seq<Byte>)

  /** What one attempt observes: a response with its status, a timeout, or any other exception. */
  datatype Outcome = Response(status: int, payload: Payload) | Timeout | Error

  type Network = (string, nat) -> Outcome

  const Retries: nat := 3
  const StatusOk := 200

  /** ISO-8859-1 decoding: byte `b` becomes the character with code point `b`. */
  function Latin1(raw: seq<Byte>): (s: string)
    ensures |s| == |raw|
    ensures forall i :: 0 <= i < |raw| ==> s[i] as int == raw[i] as int
  {
    seq(|raw|, i requires 0 <= i < |raw| => raw[i] as int as char)
  }

  lemma Latin1Injective(a: seq<Byte>, b: seq<Byte>)
    requires Latin1(a) == Latin1(b)
    ensures a == b
  {
    assert |a| == |b|;
    forall i | 0 <= i < |a| ensures a[i] == b[i] {
      assert Latin1(a)[i] == Latin1(b)[i];
    }
  }

  /** The text returned for a 200 response, with the Latin-1 fallback. */
  function Body(p: Payload): string {
    match p
    case Text(t) => t
    case Undecodable(raw) => Latin1(raw)
  }

  predicate Succeeded(o: Outcome) {
    o.Response? && o.status == StatusOk
  }

  /** Timeouts and exceptions are followed by a backoff; a bad status is not. */
  predicate BacksOff(o: Outcome) {
    o.Timeout? || o.Error?
  }

  /** Python's truthiness of an `Optional[str]`: present and non-empty. */
  predicate HasText(t: Option<string>) {
    t.Some? && t.value != ""
  }

  function Pow2(n: nat): (r: nat)
    ensures r >= 1
  {
    if n == 0 then 1 else 2 * Pow2(n - 1)
  }

  /** The result of a fetch, the sleeps it took (in order) and how many attempts it made. */
  datatype Fetch = Fetch(text: Option<string>, sleeps: seq<nat>, attempts: nat)

  /** The attempts from `attempt` on. */
  function FetchFrom(net: Network, url: string, attempt: nat): Fetch
    decreases Retries - attempt
  {
    if attempt >= Retries then Fetch(None, [], 0)
    else
      var o := net(url, attempt);
      if Succeeded(o) then Fetch(Some(Body(o.payload)), [], 1)
      else
        var rest := FetchFrom(net, url, attempt + 1);
        var pause := if BacksOff(o) && attempt < Retries - 1 then [Pow2(attempt)] else [];
        Fetch(rest.text, pause + rest.sleeps, rest.attempts + 1)
  }

  /** What `fetch_text(session, url)` returns. */
  function Fetched(net: Network, url: string): Option<string> {
    FetchFrom(net, url, 0).text
  }

  /** Reference definition of the sleeps: `2^j` after each of the first `n` attempts that timed out or raised, except the last allowed one. */
  function Backoffs(net: Network, url: string, n: nat): seq<nat> {
    if n == 0 then []
    else Backoffs(net, url, n - 1) +
         (if n - 1 < Retries - 1 && BacksOff(net(url, n - 1)) then [Pow2(n - 1)] else [])
  }

  lemma {:induction false} BackoffsAppend(net: Network, url: string, k: nat, rest: Fetch)
    requires k < Retries
    requires !Succeeded(net(url, k))
    requires Backoffs(net, url, k + 1) + rest.sleeps == Backoffs(net, url, k + 1 + rest.attempts)
    ensures Backoffs(net, url, k) +
            (if BacksOff(net(url, k)) && k < Retries - 1 then [Pow2(k)] else []) + rest.sleeps
            == Backoffs(net, url, k + 1 + rest.attempts)
  {
  }

  /** The attempts counted from attempt `k`: none beyond the third, and all of them when nothing succeeds. */
  lemma {:induction false} FetchFromAttempts(net: Network, url: string, k: nat)
    requires k <= Retries
    ensures var f := FetchFrom(net, url, k);
      && k + f.attempts <= Retries
      && (f.text.Some? ==> f.attempts >= 1)
      && (f.text.None? ==> k + f.attempts == Retries)
    decreases Retries - k
  {
    if k < Retries && !Succeeded(net(url, k)) {
      FetchFromAttempts(net, url, k + 1);
    }
  }

  /** From attempt `k` on, the text is the body of the first success, and there is one iff some attempt succeeds. */
  lemma {:induction false} FetchFromText(net: Network, url: string, k: nat)
    requires k <= Retries
    ensures var f := FetchFrom(net, url, k);
      && (f.text.Some? <==> exists j :: k <= j < Retries && Succeeded(net(url, j)))
      && (f.text.Some? ==>
            && Succeeded(net(url, k + f.attempts - 1))
            && f.text.value == Body(net(url, k + f.attempts - 1).payload)
            && forall j :: k <= j < k + f.attempts - 1 ==> !Succeeded(net(url, j)))
    decreases Retries - k
  {
    if k < Retries && !Succeeded(net(url, k)) {
      FetchFromText(net, url, k + 1);
      var rest := FetchFrom(net, url, k + 1);
      assert FetchFrom(net, url, k).text == rest.text;
      assert FetchFrom(net, url, k).attempts == rest.attempts + 1;
      assert forall j :: k <= j < Retries && Succeeded(net(url, j)) ==> k + 1 <= j;
    }
  }

  /** The sleeps from attempt `k` on are the reference backoffs of the attempts made. */
  lemma {:induction false} FetchFromSleeps(net: Network, url: string, k: nat)
    requires k <= Retries
    ensures var f := FetchFrom(net, url, k);
      Backoffs(net, url, k) + f.sleeps == Backoffs(net, url, k + f.attempts)
    decreases Retries - k
  {
    if k < Retries && !Succeeded(net(url, k)) {
      FetchFromSleeps(net, url, k + 1);
      var rest := FetchFrom(net, url, k + 1);
      var pause := if BacksOff(net(url, k)) && k < Retries - 1 then [Pow2(k)] else [];
      assert FetchFrom(net, url, k) == Fetch(rest.text, pause + rest.sleeps, rest.attempts + 1);
      BackoffsAppend(net, url, k, rest);
      assert Backoffs(net, url, k) + (pause + rest.sleeps) == Backoffs(net, url, k) + pause + rest.sleeps;
    }
  }

  lemma FetchFromSpec(net: Network, url: string, k: nat)
    requires k <= Retries
    ensures var f := FetchFrom(net, url, k);
      && k + f.attempts <= Retries
      && (f.text.Some? <==> exists j :: k <= j < Retries && Succeeded(net(url, j)))
      && (f.text.Some? ==>
            && f.attempts >= 1
            && Succeeded(net(url, k + f.attempts - 1))
            && f.text.value == Body(net(url, k + f.attempts - 1).payload)
            && forall j :: k <= j < k + f.attempts - 1 ==> !Succeeded(net(url, j)))
      && (f.text.None? ==> k + f.attempts == Retries)
      && Backoffs(net, url, k) + f.sleeps == Backoffs(net, url, k + f.attempts)
  {
    FetchFromAttempts(net, url, k);
    FetchFromText(net, url, k);
    FetchFromSleeps(net, url, k);
  }

  /**
   * At most three attempts; the result is the body of the first 200 response, and there is
   * none only when all three attempts failed; the sleeps are exactly `Backoffs`.
   */
  lemma FetchSpec(net: Network, url: string)
    ensures var f := FetchFrom(net, url, 0);
      && 1 <= f.attempts <= Retries
      && (f.text.Some? <==> exists j :: 0 <= j < Retries && Succeeded(net(url, j)))
      && (f.text.Some? ==>
            && Succeeded(net(url, f.attempts - 1))
            && f.text.value == Body(net(url, f.attempts - 1).payload)
            && forall j :: 0 <= j < f.attempts - 1 ==> !Succeeded(net(url, j)))
      && (f.text.None? ==> f.attempts == Retries)
      && f.sleeps == Backoffs(net, url, f.attempts)
  {
    FetchFromSpec(net, url, 0);
  }

  /** Only two backoffs can happen, of 1 and then 2 seconds; there is never a sleep after the third attempt. */
  lemma SleepSchedule(net: Network, url: string)
    ensures FetchFrom(net, url, 0).sleeps in {[], [1], [2], [1, 2]}
  {
    FetchSpec(net, url);
    var b1 := if BacksOff(net(url, 0)) then [1] else [];
    var b2 := if BacksOff(net(url, 1)) then [2] else [];
    assert Backoffs(net, url, 1) == b1;
    assert Backoffs(net, url, 2) == b1 + b2;
    assert Backoffs(net, url, 3) == b1 + b2;
    assert b1 in {[], [1]} && b2 in {[], [2]};
    if b1 == [] { assert b1 + b2 == b2; } else if b2 == [] { assert b1 + b2 == [1]; } else { assert b1 + b2 == [1, 2]; }
  }

  /** Bad statuses alone never sleep: `continue` skips the backoff. */
  lemma BadStatusesNeverSleep(net: Network, url: string)
    requires forall j :: 0 <= j < Retries ==> net(url, j).Response? && net(url, j).status != StatusOk
    ensures FetchFrom(net, url, 0) == Fetch(None, [], Retries)
  {
    FetchSpec(net, url);
    assert !BacksOff(net(url, 0)) && !BacksOff(net(url, 1));
  }

  /** Three timeouts in a row: two sleeps of 1 and 2, then no text. */
  lemma ThreeTimeouts(net: Network, url: string)
    requires forall j :: 0 <= j < Retries ==> net(url, j).Timeout?
    ensures FetchFrom(net, url, 0) == Fetch(None, [1, 2], Retries)
  {
    FetchSpec(net, url);
    assert BacksOff(net(url, 0)) && BacksOff(net(url, 1));
  }

  /** Having slept `sleeps` in the attempts before `attempt`, the rest of the fetch completes `FetchFrom(net, url, 0)`. */
  ghost predicate Resumes(net: Network, url: string, attempt: nat, sleeps: seq<nat>) {
    var rest := FetchFrom(net, url, attempt);
    FetchFrom(net, url, 0) == Fetch(rest.text, sleeps + rest.sleeps, attempt + rest.attempts)
  }

  lemma ResumeAfter(net: Network, url: string, attempt: nat, sleeps: seq<nat>)
    requires attempt < Retries && !Succeeded(net(url, attempt))
    requires Resumes(net, url, attempt, sleeps)
    ensures Resumes(net, url, attempt + 1,
                    sleeps + if BacksOff(net(url, attempt)) && attempt < Retries - 1 then [Pow2(attempt)] else [])
  {
    var rest := FetchFrom(net, url, attempt + 1);
    var pause := if BacksOff(net(url, attempt)) && attempt < Retries - 1 then [Pow2(attempt)] else [];
    assert sleeps + (pause + rest.sleeps) == (sleeps + pause) + rest.sleeps;
  }

  /** The attempt loop of `fetch_text`, with its early return and the `continue` past the backoff. */
  method FetchText(net: Network, url: string) returns (text: Option<string>, sleeps: seq<nat>, attempts: nat)
    ensures Fetch(text, sleeps, attempts) == FetchFrom(net, url, 0)
  {
    sleeps, attempts := [], 0;
    for attempt := 0 to Retries
      invariant attempts == attempt
      invariant Resumes(net, url, attempt, sleeps)
    {
      attempts := attempts + 1;
      var outcome := net(url, attempt);
      match outcome {
        case Response(status, payload) =>
          if status == StatusOk {
            return Some(Body(payload)), sleeps, attempts;
          }
          ResumeAfter(net, url, attempt, sleeps);
          continue;
        case Timeout =>
        case Error =>
      }
      ResumeAfter(net, url, attempt, sleeps);
      if attempt < Retries - 1 {
        sleeps := sleeps + [Pow2(attempt)];
      }
    }
    text := None;
  }
}
