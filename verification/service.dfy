/** Talking to the matching service: the retry loop of `post`, the
    empty-text guard of `query` and `get_candidates`, `get_distinct_mentions`,
    and the legacy client's `_sanitize`. The network is an oracle `send`:
    `send(request, n)` is the outcome of the `n`-th attempt of a request. */
module Service {
  import opened Wrappers
  import opened Text
  import opened Candidates
  import opened ResultFilter

  /** The outcome of one HTTP attempt: a parsed JSON body, a failure
      `post` retries (an error status or a body that is not JSON), or an
      exception `requests.post` raises before there is a response to check
      (a lost connection, a timeout), which `post` does not catch. */
  datatype Attempt<+T> = Ok(body: T) | Failed | Lost

  /** A POST request: the URL and the `text` form field. */
  datatype Request = Request(url: String, text: String)

  datatype PostError =
    | InvalidRetries(retries: int)
    | InvalidWait(wait: int)
    | HttpFailure(attempts: nat)
    | ConnectionLost

  datatype QueryError = EmptyText | PostFailed(cause: PostError) | MalformedReply

  /** The `j`-th attempt is the first of `tries` that is not a retried
      failure. */
  ghost predicate FirstUnfailed<T>(send: (Request, nat) -> Attempt<T>, req: Request, tries: nat, j: nat) {
    j < tries && !send(req, j).Failed? && forall k :: 0 <= k < j ==> send(req, k).Failed?
  }

  /** Within `tries` attempts a body arrives before anything is raised. */
  ghost predicate Answered<T>(send: (Request, nat) -> Attempt<T>, req: Request, tries: nat) {
    exists j :: FirstUnfailed(send, req, tries, j) && send(req, j).Ok?
  }

  /** Within `tries` attempts the request raises before any body arrives. */
  ghost predicate Broken<T>(send: (Request, nat) -> Attempt<T>, req: Request, tries: nat) {
    exists j :: FirstUnfailed(send, req, tries, j) && send(req, j).Lost?
  }

  /** Two first unfailed attempts are the same attempt. */
  lemma FirstUnfailedUnique<T>(send: (Request, nat) -> Attempt<T>, req: Request, tries: nat, i: nat, j: nat)
    requires FirstUnfailed(send, req, tries, i) && FirstUnfailed(send, req, tries, j)
    ensures i == j
  {
  }

  /** `post`: reject a negative retry count, then a negative wait; then
      attempt up to `retries + 1` times, returning the first body that
      arrives and sleeping `wait` seconds after each failure that leaves an
      attempt. An exception of the request itself ends `post` at once.
      `attempts` counts the requests sent and `waited` the seconds slept. */
  method Post<T>(req: Request, retries: int, wait: int, send: (Request, nat) -> Attempt<T>)
    returns (result: Result<T, PostError>, attempts: nat, waited: int)
    ensures retries < 0 ==> result == Failure(InvalidRetries(retries)) && attempts == 0
    ensures retries >= 0 && wait < 0 ==> result == Failure(InvalidWait(wait)) && attempts == 0
    ensures retries >= 0 && wait >= 0 ==> 1 <= attempts <= retries + 1
    ensures retries >= 0 && wait >= 0 ==> forall j :: 0 <= j < attempts - 1 ==> send(req, j).Failed?
    ensures retries >= 0 && wait >= 0 ==> waited == wait * (attempts - 1)
    ensures result.Success? <==> retries >= 0 && wait >= 0 && Answered(send, req, retries + 1)
    ensures result.Success? ==> send(req, attempts - 1) == Ok(result.value)
    ensures result == Failure(ConnectionLost) <==> retries >= 0 && wait >= 0 && Broken(send, req, retries + 1)
    ensures result == Failure(ConnectionLost) ==> send(req, attempts - 1).Lost?
    ensures retries >= 0 && wait >= 0 && result.Failure? && result != Failure(ConnectionLost) ==>
              result == Failure(HttpFailure(retries + 1)) && attempts == retries + 1
  {
    if retries < 0 {
      return Failure(InvalidRetries(retries)), 0, 0;
    }
    if wait < 0 {
      return Failure(InvalidWait(wait)), 0, 0;
    }
    var tries: nat := retries + 1;
    attempts, waited := 0, 0;
    while tries > 0
      invariant attempts + tries == retries + 1
      invariant forall j :: 0 <= j < attempts ==> send(req, j).Failed?
      invariant tries > 0 ==> waited == wait * attempts
      invariant tries == 0 ==> attempts >= 1 && waited == wait * (attempts - 1)
      decreases tries
    {
      var outcome := send(req, attempts);
      attempts := attempts + 1;
      match outcome
      case Ok(body) =>
        assert FirstUnfailed(send, req, retries + 1, attempts - 1);
        EndsAnswered(send, req, retries + 1, attempts - 1);
        return Success(body), attempts, waited;
      case Lost =>
        assert FirstUnfailed(send, req, retries + 1, attempts - 1);
        EndsAnswered(send, req, retries + 1, attempts - 1);
        return Failure(ConnectionLost), attempts, waited;
      case Failed =>
        tries := tries - 1;
        if tries > 0 {
          waited := waited + wait;
        }
    }
    NeverUnfailed(send, req, retries + 1);
    result := Failure(HttpFailure(attempts));
  }

  /** Once the first unfailed attempt is known, it alone decides between a
      body and a raised request. */
  lemma EndsAnswered<T>(send: (Request, nat) -> Attempt<T>, req: Request, tries: nat, j: nat)
    requires FirstUnfailed(send, req, tries, j)
    ensures Answered(send, req, tries) <==> send(req, j).Ok?
    ensures Broken(send, req, tries) <==> send(req, j).Lost?
  {
    forall i | FirstUnfailed(send, req, tries, i) ensures i == j {
      FirstUnfailedUnique(send, req, tries, i, j);
    }
  }

  /** When every attempt is a retried failure, nothing arrives and nothing
      is raised. */
  lemma NeverUnfailed<T>(send: (Request, nat) -> Attempt<T>, req: Request, tries: nat)
    requires forall j :: 0 <= j < tries ==> send(req, j).Failed?
    ensures !Answered(send, req, tries) && !Broken(send, req, tries)
  {
  }

  /** The URL `query` posts to: the service URL, with `?cgen` appended in
      candidate mode. */
  function RequestUrl(url: String, candidates: bool): (u: String)
    ensures url <= u
    ensures candidates <==> |u| > |url|
  {
    url + (if candidates then "?cgen" else "")
  }

  /** The filtered `results` of a reply (empty when absent), or
      `MalformedReply` when a result lacks a property the filter reads. */
  function FilterReply(cfg: FilterConfig, body: Option<seq<Candidate>>): (r: Result<seq<Candidate>, QueryError>)
    ensures r.Success? <==> WellFormed(cfg, body.GetOr([]))
    ensures r.Failure? ==> r.error == MalformedReply
    ensures r.Success? ==> r.value == FilterMatches(cfg, body.GetOr([]))
  {
    if WellFormed(cfg, body.GetOr([])) then Success(FilterMatches(cfg, body.GetOr([]))) else Failure(MalformedReply)
  }

  /** `Arpa.query(text)`: the body's `results` (empty when absent) filtered
      with the client's configuration. Empty text is refused before any
      request is sent; a reply whose results lack a property the filter
      reads fails the filter (`MalformedReply`, a `KeyError` in Python). */
  method Query(client: Client, text: String, send: (Request, nat) -> Attempt<Option<seq<Candidate>>>)
    returns (result: Result<seq<Candidate>, QueryError>, attempts: nat)
    ensures |text| == 0 <==> result == Failure(EmptyText)
    ensures |text| == 0 ==> attempts == 0
    ensures (result.Success? || result == Failure(MalformedReply)) <==>
              |text| > 0 && Answered(send, Request(client.url, text), client.retries + 1)
    ensures result.Success? || result == Failure(MalformedReply) ==>
              attempts >= 1 && send(Request(client.url, text), attempts - 1).Ok?
    ensures result.Success? || result == Failure(MalformedReply) ==>
              result == FilterReply(client.filter, send(Request(client.url, text), attempts - 1).body)
    ensures result == Failure(PostFailed(ConnectionLost)) <==>
              |text| > 0 && Broken(send, Request(client.url, text), client.retries + 1)
    ensures result.Failure? && |text| > 0 && result != Failure(MalformedReply) && result != Failure(PostFailed(ConnectionLost)) ==>
              result == Failure(PostFailed(HttpFailure(client.retries + 1)))
  {
    if |text| == 0 {
      return Failure(EmptyText), 0;
    }
    var req := Request(RequestUrl(client.url, false), text);
    assert req == Request(client.url, text);
    var posted, waited;
    posted, attempts, waited := Post(req, client.retries, client.wait, send);
    match posted
    case Success(body) =>
      result := FilterReply(client.filter, body);
    case Failure(e) =>
      result := Failure(PostFailed(e));
  }

  /** `get_candidates(text)`: the candidate strings the service would look
      up, from the `?cgen` endpoint, filtered in candidate mode. */
  method GetCandidates(client: Client, text: String, send: (Request, nat) -> Attempt<Option<seq<String>>>)
    returns (result: Result<seq<String>, QueryError>, attempts: nat)
    ensures |text| == 0 <==> result == Failure(EmptyText)
    ensures |text| == 0 ==> attempts == 0
    ensures result.Success? <==>
              |text| > 0 && Answered(send, Request(client.url + "?cgen", text), client.retries + 1)
    ensures result.Success? ==> attempts >= 1 && send(Request(client.url + "?cgen", text), attempts - 1).Ok?
    ensures result.Success? ==>
              result.value == FilterCandidates(client.filter, send(Request(client.url + "?cgen", text), attempts - 1).body.GetOr([]))
    ensures result == Failure(PostFailed(ConnectionLost)) <==>
              |text| > 0 && Broken(send, Request(client.url + "?cgen", text), client.retries + 1)
    ensures result.Failure? && |text| > 0 && result != Failure(PostFailed(ConnectionLost)) ==>
              result == Failure(PostFailed(HttpFailure(client.retries + 1)))
  {
    if |text| == 0 {
      return Failure(EmptyText), 0;
    }
    var req := Request(RequestUrl(client.url, true), text);
    var posted, waited;
    posted, attempts, waited := Post(req, client.retries, client.wait, send);
    match posted
    case Success(body) =>
      result := Success(FilterCandidates(client.filter, body.GetOr([])));
    case Failure(e) =>
      result := Failure(PostFailed(e));
  }

  /** `get_distinct_mentions`: every mention string that yielded one of the
      results. */
  function DistinctMentions(results: seq<Candidate>): (ms: set<String>)
    ensures forall m :: m in ms <==> exists i :: 0 <= i < |results| && m in results[i].matches
    decreases |results|
  {
    if |results| == 0 then {}
    else
      var rest := DistinctMentions(results[1..]);
      assert forall i :: 1 <= i < |results| ==> results[i] == results[1..][i - 1];
      (set m | m in results[0].matches) + rest
  }

  /** Mentions of a concatenation are the union of the parts' mentions. */
  lemma DistinctMentionsAppend(a: seq<Candidate>, b: seq<Candidate>)
    ensures DistinctMentions(a + b) == DistinctMentions(a) + DistinctMentions(b)
  {
    var ab := a + b;
    forall m ensures m in DistinctMentions(ab) <==> m in DistinctMentions(a) + DistinctMentions(b) {
      if m in DistinctMentions(ab) {
        var i :| 0 <= i < |ab| && m in ab[i].matches;
        if i >= |a| {
          assert ab[i] == b[i - |a|];
        }
      }
      if m in DistinctMentions(a) {
        var i :| 0 <= i < |a| && m in a[i].matches;
        assert ab[i] == a[i];
      }
      if m in DistinctMentions(b) {
        var i :| 0 <= i < |b| && m in b[i].matches;
        assert ab[|a| + i] == b[i];
      }
    }
  }

  /** Dropping results can only lose mentions. */
  lemma {:induction false} DistinctMentionsSubsequence(a: seq<Candidate>, b: seq<Candidate>)
    requires IsSubsequence(a, b)
    ensures DistinctMentions(a) <= DistinctMentions(b)
  {
    SubsequenceMembers(a, b);
    forall m | m in DistinctMentions(a) ensures m in DistinctMentions(b) {
      var i :| 0 <= i < |a| && m in a[i].matches;
      assert a[i] in b;
      var k :| 0 <= k < |b| && b[k] == a[i];
    }
  }

  /** The characters the legacy client strips before querying. */
  const Unsafe: set<char> := {'"', '(', ')'}

  /** The legacy `_sanitize`: remove double quotes, then opening brackets,
      then closing brackets. */
  function Sanitize(text: String): (r: String)
    ensures forall i :: 0 <= i < |r| ==> r[i] !in Unsafe
    ensures r == KeepOthers(text, Unsafe)
  {
    var r := RemoveAll(RemoveAll(RemoveAll(text, {'"'}), {'('}), {')'});
    RemoveAllCompose(text, {'"'}, {'('});
    RemoveAllCompose(text, {'"'} + {'('}, {')'});
    assert {'"'} + {'('} + {')'} == Unsafe;
    RemoveAllIsKeepOthers(text, Unsafe);
    r
  }

  /** Sanitizing twice is sanitizing once. */
  lemma SanitizeIdempotent(text: String)
    ensures Sanitize(Sanitize(text)) == Sanitize(text)
  {
    var once := Sanitize(text);
    RemoveAllIsKeepOthers(text, Unsafe);
    RemoveAllIsKeepOthers(once, Unsafe);
    RemoveAllNoop(once, Unsafe);
  }
}
