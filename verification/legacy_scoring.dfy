/** The scoring of the earlier person validator: a date term with a
    smaller penalty, the same fixed person, and a plain threshold with no
    choice among persons sharing a mention. Its rank and name terms are
    parameters. */
module LegacyScoring {
  import opened Wrappers
  import opened Text
  import opened Dates
  import opened Candidates
  import opened MentionContext
  import opened Scoring

  const LegacyDeathPenalty: int := 20

  /** `get_date_score`: a penalty of 20 for a person who died more than 30
      days before the event. */
  function LegacyDateScore(c: Candidate, eventDate: Option<Day>): (r: int)
    requires DeathDateReadable(c)
    ensures r == -LegacyDeathPenalty <==> DiedLongBefore(c, eventDate)
    ensures r == 0 <==> !DiedLongBefore(c, eventDate)
  {
    match (eventDate, DeathDate(c))
    case (Some(e), Some(d)) => if e - d > 30 then -LegacyDeathPenalty else 0
    case _ => 0
  }

  /** Both validators penalise the same persons; only the size differs. */
  lemma DateScoresAgree(c: Candidate, eventDate: Option<Day>)
    requires DeathDateReadable(c)
    ensures LegacyDateScore(c, eventDate) < 0 <==> DateScore(c, eventDate) < 0
    ensures 3 * LegacyDateScore(c, eventDate) == 2 * DateScore(c, eventDate)
  {
  }

  /** The rank and name terms, left abstract. */
  datatype LegacyTerms = LegacyTerms(rank: Candidate -> int, name: Candidate -> int)

  /** The overlap term of `get_score` as written: the table it is given is
      the one `get_ranked_matches` builds, keyed by mention, so looking the
      person's id up finds nothing and adds 0; when the id happens to be a
      mention, it finds an entry that cannot be added to a number, and the
      scoring fails (`None`). */
  function AsWrittenMatchTerm(results: seq<Candidate>, id: String): (r: Option<int>)
    ensures r.None? <==> id in Mentions(RankedMatches(results))
    ensures r.Some? ==> r.value == 0
  {
    if id in Mentions(RankedMatches(results)) then None else Some(0)
  }

  /** `get_score` as written. */
  function AsWrittenScore(c: Candidate, results: seq<Candidate>, eventDate: Option<Day>, terms: LegacyTerms): (r: Option<int>)
    requires c.id != Mannerheim ==> DeathDateReadable(c)
    ensures c.id == Mannerheim ==> r == Some(MannerheimScore)
    ensures c.id != Mannerheim ==> (r.None? <==> c.id in Mentions(RankedMatches(results)))
    ensures c.id != Mannerheim && r.Some? ==>
      r.value == LegacyScore(c, results, eventDate, terms) - MatchTerm(results, c.id)
  {
    if c.id == Mannerheim then Some(MannerheimScore)
    else
      var rms :- AsWrittenMatchTerm(results, c.id);
      Some(rms + LegacyDateScore(c, eventDate) + terms.rank(c) + terms.name(c))
  }

  /** `get_score` with the overlap term its documentation computes: the
      score `get_match_scores` gives the person. */
  function LegacyScore(c: Candidate, results: seq<Candidate>, eventDate: Option<Day>, terms: LegacyTerms): (r: int)
    requires c.id != Mannerheim ==> DeathDateReadable(c)
    ensures c.id == Mannerheim ==> r == MannerheimScore
    ensures c.id != Mannerheim ==>
      r == MatchTerm(results, c.id) + LegacyDateScore(c, eventDate) + terms.rank(c) + terms.name(c)
    ensures c.id != Mannerheim ==> r <= LegacyDateScore(c, eventDate) + terms.rank(c) + terms.name(c)
    ensures c.id != Mannerheim && MatchTerm(results, c.id) == 0 ==>
      r == LegacyDateScore(c, eventDate) + terms.rank(c) + terms.name(c)
  {
    if c.id == Mannerheim then MannerheimScore
    else MatchTerm(results, c.id) + LegacyDateScore(c, eventDate) + terms.rank(c) + terms.name(c)
  }

  /** The other results change a person's corrected score only through the
      overlap term. */
  lemma LegacyOthersOnlyThroughOverlap(c: Candidate, results: seq<Candidate>, eventDate: Option<Day>, terms: LegacyTerms)
    requires c.id != Mannerheim && DeathDateReadable(c)
    ensures LegacyScore(c, results, eventDate, terms) == LegacyScore(c, [], eventDate, terms) + MatchTerm(results, c.id)
  {
    assert LastScore(RankedMatches([]), c.id).None?;
    MatchTermIsLastScore([], c.id);
  }

  /** Where the code as written gives a score, the corrected score is never
      higher, and the two agree for a person whose overlap term is 0: the
      last ranked entry naming it lies in no longer mention, or none names
      it. */
  lemma CorrectionOnlyLowers(c: Candidate, results: seq<Candidate>, eventDate: Option<Day>, terms: LegacyTerms)
    requires c.id != Mannerheim ==> DeathDateReadable(c)
    requires AsWrittenScore(c, results, eventDate, terms).Some?
    ensures LegacyScore(c, results, eventDate, terms) <= AsWrittenScore(c, results, eventDate, terms).value
    ensures MatchTerm(results, c.id) == 0 ==>
      LegacyScore(c, results, eventDate, terms) == AsWrittenScore(c, results, eventDate, terms).value
  {
  }

  /** A person named only by a mention that another person's longer mention
      contains should lose 20 points; the code as written gives it none. */
  lemma AsWrittenMissesOverlap(lieutenant: String, general: String, short: String, long: String)
    requires lieutenant != general && Contains(short)(long) && |short| < |long|
    requires lieutenant != short && lieutenant != long
    ensures AsWrittenMatchTerm(TwoPersons(lieutenant, general, short, long), lieutenant) == Some(0)
    ensures MatchTerm(TwoPersons(lieutenant, general, short, long), lieutenant) == -20
  {
    ContainedMentionExample(lieutenant, general, short, long);
    NotAMention(TwoPersons(lieutenant, general, short, long), lieutenant, short, long);
  }

  lemma NotAMention(results: seq<Candidate>, id: String, short: String, long: String)
    requires Mentions(RankedMatches(results)) == [short, long]
    requires id != short && id != long
    ensures id !in Mentions(RankedMatches(results))
  {
  }

  /** The documented case: the lieutenant "A. Snellman" beside the general
      "Kenraalimajuri A. Snellman". */
  lemma SnellmanAsWritten()
    ensures var results := TwoPersons("lieutenant", "general", "A. Snellman", "Kenraalimajuri A. Snellman");
            && AsWrittenMatchTerm(results, "lieutenant") == Some(0)
            && MatchTerm(results, "lieutenant") == -20
  {
    var short, long := "A. Snellman", "Kenraalimajuri A. Snellman";
    assert long == "Kenraalimajuri " + short;
    assert long[15..15 + |short|] == short;
    IsSubstringAt(short, long, 15);
    assert "lieutenant"[0] != short[0] && "lieutenant"[0] != long[0];
    AsWrittenMissesOverlap("lieutenant", "general", short, long);
  }

  /** The threshold test of `validate`. */
  function LegacyPasses(results: seq<Candidate>, eventDate: Option<Day>, terms: LegacyTerms): Candidate -> bool {
    (c: Candidate) => (c.id == Mannerheim || DeathDateReadable(c)) && LegacyScore(c, results, eventDate, terms) > 0
  }

  /** `validate`: the persons scoring above zero, in their order. */
  function LegacyValidate(results: seq<Candidate>, eventDate: Option<Day>, terms: LegacyTerms): (r: seq<Candidate>)
    requires forall c :: c in results && c.id != Mannerheim ==> DeathDateReadable(c)
    ensures IsSubsequence(r, results)
    ensures forall c :: c in r <==> c in results && LegacyScore(c, results, eventDate, terms) > 0
    ensures forall c :: c in results && c.id == Mannerheim ==> c in r
  {
    Filter(results, LegacyPasses(results, eventDate, terms))
  }

  /** Scoring a person as written fails when its id is a mention. */
  predicate ScoringFails(results: seq<Candidate>) {
    exists c :: c in results && c.id != Mannerheim && c.id in Mentions(RankedMatches(results))
  }

  /** The threshold test of `validate` as written. */
  function AsWrittenPasses(results: seq<Candidate>, eventDate: Option<Day>, terms: LegacyTerms): Candidate -> bool {
    (c: Candidate) =>
      (c.id == Mannerheim || DeathDateReadable(c)) && AsWrittenScore(c, results, eventDate, terms).Some?
      && AsWrittenScore(c, results, eventDate, terms).value > 0
  }

  /** `validate` as written (persons.py:847-850): the persons whose
      as-written score is above zero, in their order, or `None` when the
      scoring of some person fails with a `TypeError`. */
  function AsWrittenValidate(results: seq<Candidate>, eventDate: Option<Day>, terms: LegacyTerms): (r: Option<seq<Candidate>>)
    requires forall c :: c in results && c.id != Mannerheim ==> DeathDateReadable(c)
    ensures r.None? <==> ScoringFails(results)
    ensures r.Some? ==> IsSubsequence(r.value, results)
    ensures r.Some? ==> forall c :: c in r.value <==>
              c in results && AsWrittenScore(c, results, eventDate, terms).Some?
              && AsWrittenScore(c, results, eventDate, terms).value > 0
  {
    if ScoringFails(results) then None else Some(Filter(results, AsWrittenPasses(results, eventDate, terms)))
  }

  /** The corrected validator keeps only persons the code as written keeps,
      and the two agree on every person whose overlap term is 0. */
  lemma CorrectionKeepsFewer(results: seq<Candidate>, eventDate: Option<Day>, terms: LegacyTerms)
    requires forall c :: c in results && c.id != Mannerheim ==> DeathDateReadable(c)
    requires !ScoringFails(results)
    ensures var written := AsWrittenValidate(results, eventDate, terms).value;
            forall c :: c in LegacyValidate(results, eventDate, terms) ==> c in written
    ensures var written := AsWrittenValidate(results, eventDate, terms).value;
            forall c :: c in results && MatchTerm(results, c.id) == 0 ==>
              (c in LegacyValidate(results, eventDate, terms) <==> c in written)
  {
    forall c | c in results
      ensures AsWrittenScore(c, results, eventDate, terms).Some?
      ensures LegacyScore(c, results, eventDate, terms) <= AsWrittenScore(c, results, eventDate, terms).value
      ensures MatchTerm(results, c.id) == 0 ==>
                LegacyScore(c, results, eventDate, terms) == AsWrittenScore(c, results, eventDate, terms).value
    {
      CorrectionOnlyLowers(c, results, eventDate, terms);
    }
  }

  /** A person whose mention lies inside another person's longer mention
      (an overlap term of -20) and whose other terms sum to 1..20 passes
      `validate` as written and fails the corrected one: the two validators
      differ on exactly such persons. */
  lemma OverlapKeptOnlyAsWritten(results: seq<Candidate>, c: Candidate, eventDate: Option<Day>, terms: LegacyTerms)
    requires forall x :: x in results && x.id != Mannerheim ==> DeathDateReadable(x)
    requires !ScoringFails(results)
    requires c in results && c.id != Mannerheim
    requires MatchTerm(results, c.id) == -20
    requires 0 < LegacyDateScore(c, eventDate) + terms.rank(c) + terms.name(c) <= 20
    ensures AsWrittenValidate(results, eventDate, terms).Some?
    ensures c in AsWrittenValidate(results, eventDate, terms).value
    ensures c !in LegacyValidate(results, eventDate, terms)
  {
    assert AsWrittenScore(c, results, eventDate, terms).Some?;
  }
}
