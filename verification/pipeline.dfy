/** The linking drivers: `get_uri_matches`, which turns query results into
    URIs and mention sets around an optional validator, and `arpafy`, which
    runs a lookup for every (subject, text) pair of a graph, adds one triple
    per result, counts, records the failures it catches, and stops at the
    first one it does not. The graph is the sequence of pairs; the lookup of
    a pair is an oracle. */
module Pipeline {
  import opened Wrappers
  import opened Text
  import opened Candidates
  import opened Service

  /** An exception a lookup raises. `caught` tells whether it is of one of
      the two classes `arpafy` catches, `HTTPError` and `ValueError`; any
      other (a `KeyError` from a malformed reply, a connection error) ends
      the whole run. */
  datatype Exception<+E> = Exception(error: E, caught: bool)

  /** What one lookup gives `arpafy`: the exception it raised, or the
      result dictionary. A lookup that reports no mention sets (candidate
      mode, the legacy client) gives empty ones, which count the same. */
  datatype Outcome<+E> =
    | Raised(exception: Exception<E>)
    | Found(results: seq<String>, mentions: set<String>, preMentions: set<String>)

  /** An outcome that ends the run. */
  predicate Fatal<E>(o: Outcome<E>) {
    o.Raised? && !o.exception.caught
  }

  /** How `arpafy` treats the failures of `Service.Query`: an empty text
      or a rejected setting (`ValueError`) and a post out of retries
      (`HTTPError`) are caught; a reply the filter cannot read (`KeyError`)
      and a request that raised before any response (a `requests`
      connection error or timeout) are not. */
  function QueryException(e: QueryError): (x: Exception<QueryError>)
    ensures x.error == e
    ensures !x.caught <==> e == MalformedReply || e == PostFailed(ConnectionLost)
  {
    Exception(e, e != MalformedReply && e != PostFailed(ConnectionLost))
  }

  /** The index of the first outcome that ends the run. */
  function FirstFatal<E>(outs: seq<Outcome<E>>): (r: Option<nat>)
    ensures r.Some? ==> r.value < |outs| && Fatal(outs[r.value])
    ensures r.Some? ==> forall j :: 0 <= j < r.value ==> !Fatal(outs[j])
    ensures r.None? ==> forall j :: 0 <= j < |outs| ==> !Fatal(outs[j])
    decreases |outs|
  {
    if |outs| == 0 then None
    else if Fatal(outs[0]) then Some(0)
    else
      match FirstFatal(outs[1..])
      case None => None
      case Some(k) => Some(k + 1)
  }

  /** `get_uri_matches` on the results of a successful query. The
      validator, when there is one, only runs on non-empty results. */
  function UriMatches<E>(results: seq<Candidate>, validator: Option<seq<Candidate> -> seq<Candidate>>): (r: Outcome<E>)
    ensures r.Found?
    ensures validator.None? || |results| == 0 ==>
              r.preMentions == {} && r.mentions == DistinctMentions(results) && r.results == Ids(results)
    ensures validator.Some? && |results| > 0 ==>
              var kept := validator.value(results);
              r.preMentions == DistinctMentions(results) && r.mentions == DistinctMentions(kept) && r.results == Ids(kept)
  {
    var validating := validator.Some? && |results| > 0;
    var pre := if validating then DistinctMentions(results) else {};
    var kept := if validating then validator.value(results) else results;
    var post := if |kept| > 0 then DistinctMentions(kept) else {};
    Found(Ids(kept), post, pre)
  }

  /** A validator that only drops results can only lose mentions, and gives
      one URI per kept result. */
  lemma ValidationLosesMentions(results: seq<Candidate>, validate: seq<Candidate> -> seq<Candidate>)
    requires |results| > 0
    requires IsSubsequence(validate(results), results)
    ensures UriMatches<()>(results, Some(validate)).mentions <= UriMatches<()>(results, Some(validate)).preMentions
    ensures |UriMatches<()>(results, Some(validate)).results| <= |results|
  {
    DistinctMentionsSubsequence(validate(results), results);
    SubsequenceMembers(validate(results), results);
    SubsequenceLength(validate(results), results);
  }

  // ---------------------------------------------------------------------
  // arpafy
  // ---------------------------------------------------------------------

  /** A (subject, source value) pair of the graph. */
  datatype Pair = Pair(subject: String, text: String)

  datatype Triple = Triple(subject: String, prop: String, value: String)

  /** The dictionary `arpafy` returns, with the triples it added. */
  datatype Report<+E> = Report(processed: nat, matches: nat, subjectsMatched: nat,
                               preMentions: nat, postMentions: nat,
                               errors: seq<E>, added: seq<Triple>)

  /** The outcome of every pair, after the preprocessor, which sees the
      value and its subject. */
  function Outcomes<E>(pairs: seq<Pair>, prep: (String, String) -> String,
                       lookup: (String, String) -> Outcome<E>): (outs: seq<Outcome<E>>)
    ensures |outs| == |pairs|
    ensures forall i :: 0 <= i < |pairs| ==> outs[i] == lookup(pairs[i].subject, prep(pairs[i].text, pairs[i].subject))
  {
    seq(|pairs|, i requires 0 <= i < |pairs| => lookup(pairs[i].subject, prep(pairs[i].text, pairs[i].subject)))
  }

  /** Reference totals over outcomes, each read off the outcomes alone. */
  function TotalResults<E>(outs: seq<Outcome<E>>): nat {
    if |outs| == 0 then 0
    else TotalResults(outs[..|outs| - 1]) + (if outs[|outs| - 1].Found? then |outs[|outs| - 1].results| else 0)
  }

  function SubjectsMatched<E>(outs: seq<Outcome<E>>): nat {
    if |outs| == 0 then 0
    else SubjectsMatched(outs[..|outs| - 1]) + (if outs[|outs| - 1].Found? && |outs[|outs| - 1].results| > 0 then 1 else 0)
  }

  function FoundCount<E>(outs: seq<Outcome<E>>): nat {
    if |outs| == 0 then 0
    else FoundCount(outs[..|outs| - 1]) + (if outs[|outs| - 1].Found? then 1 else 0)
  }

  /** Mentions before validation count for every answered pair. */
  function PreMentionTotal<E>(outs: seq<Outcome<E>>): nat {
    if |outs| == 0 then 0
    else PreMentionTotal(outs[..|outs| - 1]) + (if outs[|outs| - 1].Found? then |outs[|outs| - 1].preMentions| else 0)
  }

  /** Mentions after validation count only for pairs that kept a result. */
  function PostMentionTotal<E>(outs: seq<Outcome<E>>): nat {
    if |outs| == 0 then 0
    else PostMentionTotal(outs[..|outs| - 1])
         + (if outs[|outs| - 1].Found? && |outs[|outs| - 1].results| > 0 then |outs[|outs| - 1].mentions| else 0)
  }

  function ErrorsOf<E>(outs: seq<Outcome<E>>): seq<E> {
    if |outs| == 0 then []
    else ErrorsOf(outs[..|outs| - 1]) + (if outs[|outs| - 1].Raised? then [outs[|outs| - 1].exception.error] else [])
  }

  /** One `add` call per result of every answered pair, in order. The
      graph itself is a set: it keeps each distinct triple once. */
  function TriplesOf<E>(pairs: seq<Pair>, outs: seq<Outcome<E>>, target: String): seq<Triple>
    requires |pairs| == |outs|
  {
    if |outs| == 0 then []
    else
      var n := |outs| - 1;
      TriplesOf(pairs[..n], outs[..n], target)
      + (if outs[n].Found? then LinkAll(pairs[n].subject, target, outs[n].results) else [])
  }

  function LinkAll(subject: String, target: String, objects: seq<String>): (ts: seq<Triple>)
    ensures |ts| == |objects|
    ensures forall i :: 0 <= i < |objects| ==> ts[i] == Triple(subject, target, objects[i])
  {
    seq(|objects|, i requires 0 <= i < |objects| => Triple(subject, target, objects[i]))
  }

  /** `arpafy`: the pairs are looked up in order. A caught exception is
      recorded and the loop goes on; the results of an answered pair become
      one `add` call each on its subject; the first exception not caught
      ends the run with no report. */
  method Arpafy<E>(pairs: seq<Pair>, target: String, prep: (String, String) -> String,
                   lookup: (String, String) -> Outcome<E>)
    returns (result: Result<Report<E>, E>)
    ensures var outs := Outcomes(pairs, prep, lookup);
            FirstFatal(outs).Some? ==> result == Failure(outs[FirstFatal(outs).value].exception.error)
    ensures var outs := Outcomes(pairs, prep, lookup);
            FirstFatal(outs).None? ==>
              && result.Success?
              && result.value.processed == |pairs|
              && result.value.matches == TotalResults(outs)
              && result.value.subjectsMatched == SubjectsMatched(outs)
              && result.value.preMentions == PreMentionTotal(outs)
              && result.value.postMentions == PostMentionTotal(outs)
              && result.value.errors == ErrorsOf(outs)
              && result.value.added == TriplesOf(pairs, outs, target)
    ensures result.Success? ==> |result.value.added| == result.value.matches
    ensures result.Success? ==> |result.value.errors| + FoundCount(Outcomes(pairs, prep, lookup)) == |pairs|
    ensures result.Success? ==> result.value.subjectsMatched <= |pairs| - |result.value.errors|
  {
    var outs := Outcomes(pairs, prep, lookup);
    var matches, subjects, pre, post := 0, 0, 0, 0;
    var errors: seq<E> := [];
    var added: seq<Triple> := [];
    var i := 0;
    while i < |pairs|
      invariant 0 <= i <= |pairs|
      invariant forall j :: 0 <= j < i ==> !Fatal(outs[j])
      invariant matches == TotalResults(outs[..i])
      invariant subjects == SubjectsMatched(outs[..i])
      invariant pre == PreMentionTotal(outs[..i])
      invariant post == PostMentionTotal(outs[..i])
      invariant errors == ErrorsOf(outs[..i])
      invariant added == TriplesOf(pairs[..i], outs[..i], target)
    {
      var p := pairs[i];
      var outcome := lookup(p.subject, prep(p.text, p.subject));
      assert outs[..i + 1][..i] == outs[..i];
      assert pairs[..i + 1][..i] == pairs[..i];
      if outcome.Raised? {
        if !outcome.exception.caught {
          assert FirstFatal(outs) == Some(i);
          return Failure(outcome.exception.error);
        }
        errors := errors + [outcome.exception.error];
      } else {
        var results := outcome.results;
        matches := matches + |results|;
        pre := pre + |outcome.preMentions|;
        if |results| > 0 {
          subjects := subjects + 1;
          post := post + |outcome.mentions|;
        }
        added := added + LinkAll(p.subject, target, results);
      }
      i := i + 1;
    }
    assert outs[..i] == outs;
    assert pairs[..i] == pairs;
    result := Success(Report(|pairs|, matches, subjects, pre, post, errors, added));
    TriplesCount(pairs, outs, target);
    ErrorsAndAnswers(outs);
  }

  lemma {:induction false} TriplesCount<E>(pairs: seq<Pair>, outs: seq<Outcome<E>>, target: String)
    requires |pairs| == |outs|
    ensures |TriplesOf(pairs, outs, target)| == TotalResults(outs)
    decreases |outs|
  {
    if |outs| > 0 {
      TriplesCount(pairs[..|outs| - 1], outs[..|outs| - 1], target);
    }
  }

  /** Every pair either raised or was answered, and only answered pairs
      match a subject. */
  lemma {:induction false} ErrorsAndAnswers<E>(outs: seq<Outcome<E>>)
    ensures |ErrorsOf(outs)| + FoundCount(outs) == |outs|
    ensures SubjectsMatched(outs) <= FoundCount(outs)
    decreases |outs|
  {
    if |outs| > 0 {
      ErrorsAndAnswers(outs[..|outs| - 1]);
    }
  }

  /** Every added triple links the subject of an answered pair to one of
      that pair's results through the target property. */
  lemma {:induction false} TriplesSound<E>(pairs: seq<Pair>, outs: seq<Outcome<E>>, target: String, t: Triple)
    requires |pairs| == |outs|
    requires t in TriplesOf(pairs, outs, target)
    ensures t.prop == target
    ensures exists i :: 0 <= i < |outs| && outs[i].Found? && t.subject == pairs[i].subject && t.value in outs[i].results
    decreases |outs|
  {
    var n := |outs| - 1;
    var front := TriplesOf(pairs[..n], outs[..n], target);
    if t in front {
      TriplesSound(pairs[..n], outs[..n], target, t);
      var i :| 0 <= i < n && outs[..n][i].Found? && t.subject == pairs[..n][i].subject && t.value in outs[..n][i].results;
      assert outs[i] == outs[..n][i] && pairs[i] == pairs[..n][i];
    } else {
      var k :| 0 <= k < |outs[n].results| && t == LinkAll(pairs[n].subject, target, outs[n].results)[k];
      assert t.value == outs[n].results[k];
    }
  }

  /** A service reply the filter cannot read ends the run at that pair or
      earlier, with no report. */
  lemma MalformedReplyEndsRun(outs: seq<Outcome<QueryError>>, k: nat)
    requires k < |outs| && outs[k] == Raised(QueryException(MalformedReply))
    ensures FirstFatal(outs).Some? && FirstFatal(outs).value <= k
  {
  }

  /** The triples the graph holds after the `add` calls are the distinct
      ones among them, so the graph grows by at most `matches`. */
  lemma {:induction false} GraphAtMostCalls(added: seq<Triple>)
    ensures forall t :: t in (set t | t in added) <==> t in added
    ensures |set t | t in added| <= |added|
    decreases |added|
  {
    if |added| > 0 {
      var init, last := added[..|added| - 1], added[|added| - 1];
      GraphAtMostCalls(init);
      assert forall t :: t in added <==> t in init || t == last;
      assert (set t | t in added) == (set t | t in init) + {last};
    }
  }

  /** Linking a graph in two parts reports the sums of the parts. */
  lemma {:induction false} TotalsAppend<E>(a: seq<Outcome<E>>, b: seq<Outcome<E>>)
    ensures TotalResults(a + b) == TotalResults(a) + TotalResults(b)
    ensures SubjectsMatched(a + b) == SubjectsMatched(a) + SubjectsMatched(b)
    ensures ErrorsOf(a + b) == ErrorsOf(a) + ErrorsOf(b)
    decreases |b|
  {
    if |b| == 0 {
      assert a + b == a;
    } else {
      var n := |b| - 1;
      assert (a + b)[..|a + b| - 1] == a + b[..n];
      TotalsAppend(a, b[..n]);
    }
  }

  /** The legacy `arpafy`: the same loop, reporting only the pair count,
      the URI count and the errors. */
  datatype LegacyReport<+E> = LegacyReport(processed: nat, matches: nat, errors: seq<E>, added: seq<Triple>)

  /** The legacy lookup raises or returns the list of URIs. */
  function AsOutcome<E>(r: Result<seq<String>, Exception<E>>): (o: Outcome<E>)
    ensures o.Raised? <==> r.Failure?
    ensures r.Failure? ==> o.exception == r.error
    ensures r.Success? ==> o.results == r.value && o.mentions == {} && o.preMentions == {}
  {
    match r
    case Success(uris) => Found(uris, {}, {})
    case Failure(e) => Raised(e)
  }

  method LegacyArpafy<E>(pairs: seq<Pair>, target: String, prep: String -> String,
                         lookup: (String, String) -> Result<seq<String>, Exception<E>>)
    returns (result: Result<LegacyReport<E>, E>)
    ensures var outs := Outcomes(pairs, (text, subject) => prep(text), (s, text) => AsOutcome(lookup(s, text)));
            FirstFatal(outs).Some? ==> result == Failure(outs[FirstFatal(outs).value].exception.error)
    ensures var outs := Outcomes(pairs, (text, subject) => prep(text), (s, text) => AsOutcome(lookup(s, text)));
            FirstFatal(outs).None? ==>
              && result.Success?
              && result.value.processed == |pairs|
              && result.value.matches == TotalResults(outs)
              && result.value.errors == ErrorsOf(outs)
              && result.value.added == TriplesOf(pairs, outs, target)
    ensures result.Success? ==> |result.value.added| == result.value.matches
    ensures result.Success? ==> |result.value.errors| <= |pairs|
  {
    var full := Arpafy(pairs, target, (text, subject) => prep(text), (s, text) => AsOutcome(lookup(s, text)));
    match full
    case Success(report) =>
      result := Success(LegacyReport(report.processed, report.matches, report.errors, report.added));
    case Failure(e) =>
      result := Failure(e);
  }
}
