/** The scoring of person candidates (the current validator): a handful of
    independent integer terms, their sum, the acceptance threshold, and the
    choice of the best persons per mention. The regular-expression tests the
    rank term relies on are parameters. */
module Scoring {
  import opened Wrappers
  import opened Text
  import opened Dates
  import opened Candidates
  import opened MentionContext
  import opened Promotions

  /** The one person always scored highly. */
  const Mannerheim: String := "http://ldf.fi/warsa/actors/person_1"
  const MannerheimScore: int := 50

  /** The knights of the Mannerheim cross. */
  const KnightSource: String := "<http://ldf.fi/warsa/sources/source5>"

  /** The weight of each source. */
  const Sources: map<String, int> := map[
    "<http://ldf.fi/warsa/sources/source1>" := 0,
    "<http://ldf.fi/warsa/sources/source10>" := 1,
    "<http://ldf.fi/warsa/sources/source11>" := 0,
    "<http://ldf.fi/warsa/sources/source12>" := 0,
    "<http://ldf.fi/warsa/sources/source13>" := 0,
    "<http://ldf.fi/warsa/sources/source2>" := 0,
    "<http://ldf.fi/warsa/sources/source3>" := 0,
    "<http://ldf.fi/warsa/sources/source4>" := 0,
    KnightSource := 1,
    "<http://ldf.fi/warsa/sources/source6>" := 0,
    "<http://ldf.fi/warsa/sources/source7>" := 0,
    "<http://ldf.fi/warsa/sources/source8>" := 0,
    "<http://ldf.fi/warsa/sources/source9>" := 0]

  /** The weight of each rank class. */
  const RankClassScores: map<String, int> := map[
    "Kenraalikunta" := 1,
    "Esiupseeri" := 1,
    "Komppaniaupseeri" := 0,
    "Upseeri" := 0,
    "kirkollinen henkilöstö" := 1,
    "Aliupseeri" := -7,
    "Miehistö" := -7,
    "lottahenkilöstö" := 0,
    "virkahenkilöstö" := 0,
    "Jääkäriarvo" := 0,
    "Muu arvo" := 0,
    "Päällystö" := 0,
    "Saksalaisarvo" := 0,
    "eläinlääkintähenkilöstö" := 0,
    "lääkintähenkilöstö" := 0,
    "musiikkihenkilöstö" := 0,
    "tekninen henkilöstö" := 0,
    "NA" := 0]

  const DeathPenalty: int := 30
  const KnightBonus: int := 20
  const UnitBonus: int := 15
  const CurrentRankBonus: int := 8
  const OtherRankBonus: int := 7
  const WrongRankPenalty: int := 15
  const InconsistentContext: int := -10

  /** The weight `table` gives `key`, or 0 when it has none. */
  function Weight(table: map<String, int>, key: String): int {
    if key in table then table[key] else 0
  }

  /** The largest weight of the keys. */
  function MaxWeight(keys: seq<String>, table: map<String, int>): (w: int)
    requires |keys| > 0
    ensures exists i :: 0 <= i < |keys| && w == Weight(table, keys[i])
    ensures forall i :: 0 <= i < |keys| ==> Weight(table, keys[i]) <= w
    decreases |keys|
  {
    if |keys| == 1 then Weight(table, keys[0])
    else
      var rest := MaxWeight(keys[1..], table);
      assert forall i :: 1 <= i < |keys| ==> keys[i] == keys[1..][i - 1];
      if Weight(table, keys[0]) >= rest then Weight(table, keys[0]) else rest
  }

  // ---------------------------------------------------------------------
  // The date term.
  // ---------------------------------------------------------------------

  /** `person['properties']['death_date'][0]` raises only when the list is
      empty: a missing list is caught. */
  predicate DeathDateReadable(c: Candidate) {
    "death_date" in c.properties ==> |c.properties["death_date"]| > 0
  }

  /** `get_death_date`: the first death date, `None` when the property is
      missing or the value does not parse. */
  function DeathDate(c: Candidate): Option<Day>
    requires DeathDateReadable(c)
  {
    if "death_date" in c.properties then ParseDate(c.properties["death_date"][0]) else None
  }

  /** The event falls more than 30 days after the death. */
  predicate DiedLongBefore(c: Candidate, eventDate: Option<Day>)
    requires DeathDateReadable(c)
  {
    eventDate.Some? && DeathDate(c).Some? && eventDate.value - DeathDate(c).value > 30
  }

  /** `get_date_score`: a penalty of 30 for a person who died more than 30
      days before the event; no adjustment otherwise or when either date is
      unknown. */
  function DateScore(c: Candidate, eventDate: Option<Day>): (r: int)
    requires DeathDateReadable(c)
    ensures r == -DeathPenalty <==> DiedLongBefore(c, eventDate)
    ensures r == 0 <==> !DiedLongBefore(c, eventDate)
  {
    match (eventDate, DeathDate(c))
    case (Some(e), Some(d)) => if e - d > 30 then -DeathPenalty else 0
    case _ => 0
  }

  /** With the death date written as a typed ISO literal, the penalty
      applies exactly from the 31st day after the death, and stays from
      then on. */
  lemma DateScoreOfLiteral(c: Candidate, y: int, m: int, d: int, dt: String, event: Day)
    requires ValidDate(y, m, d) && '"' !in dt
    requires "death_date" in c.properties && |c.properties["death_date"]| > 0
    requires c.properties["death_date"][0] == "\"" + IsoFormat(y, m, d) + "\"^^" + dt
    ensures DateScore(c, Some(event)) == -DeathPenalty <==> event > Ordinal(y, m, d) + 30
    ensures DateScore(c, Some(event)) == -DeathPenalty ==> forall later :: later >= event ==> DateScore(c, Some(later)) == -DeathPenalty
    ensures DateScore(c, None) == 0
  {
    ParseTypedLiteral(y, m, d, dt);
  }

  // ---------------------------------------------------------------------
  // The source, knight and unit terms.
  // ---------------------------------------------------------------------

  /** The distinct sources with their quotes removed. */
  function SourceSet(c: Candidate): set<String> {
    set r | r in Prop(c, "source") :: Unquote(r)
  }

  function MultiSourceBonus(c: Candidate): int {
    if |SourceSet(c)| > 1 then 1 else 0
  }

  /** `get_source_score`: nothing without sources; otherwise the largest
      weight of the distinct sources, plus one when there are several. */
  function SourceScore(c: Candidate): (r: int)
    ensures SourceSet(c) == {} ==> r == 0
    ensures SourceSet(c) != {} ==> exists s :: s in SourceSet(c) && r == Weight(Sources, s) + MultiSourceBonus(c)
    ensures forall s :: s in SourceSet(c) ==> Weight(Sources, s) + MultiSourceBonus(c) <= r
  {
    var raw := Prop(c, "source");
    if |raw| == 0 then 0
    else
      var keys := Unquoted(raw);
      assert forall s :: s in SourceSet(c) <==> s in keys by {
        forall s | s in SourceSet(c) ensures s in keys {
          var x :| x in raw && s == Unquote(x);
          var i :| 0 <= i < |raw| && raw[i] == x;
          assert keys[i] == s;
        }
        forall s | s in keys ensures s in SourceSet(c) {
          var i :| 0 <= i < |keys| && keys[i] == s;
          assert raw[i] in raw;
        }
      }
      assert keys[0] in keys;
      MaxWeight(keys, Sources) + MultiSourceBonus(c)
  }

  /** Every source weighs 0 or 1. */
  lemma SourceWeights(s: String)
    ensures 0 <= Weight(Sources, s) <= 1
  {
  }

  /** The source term is between 0 and 2, and is 2 only for a person with
      several sources, one of them a weighted one. */
  lemma SourceScoreRange(c: Candidate)
    ensures 0 <= SourceScore(c) <= 2
    ensures SourceScore(c) == 2 ==> |SourceSet(c)| > 1 && exists s :: s in SourceSet(c) && Weight(Sources, s) == 1
  {
    if SourceSet(c) != {} {
      var s :| s in SourceSet(c) && SourceScore(c) == Weight(Sources, s) + MultiSourceBonus(c);
      SourceWeights(s);
    }
  }

  /** `is_knight`: the raw source values include the knight source. */
  predicate IsKnight(c: Candidate) {
    KnightSource in Prop(c, "source")
  }

  /** `knight_re.search(text)`: `ritari` or `ritare`, in any letter case. */
  predicate MentionsKnight(text: String) {
    IsSubstring("ritari", LowerStr(text)) || IsSubstring("ritare", LowerStr(text))
  }

  /** `result_dict[uri].is_knight()`: the last result with the id. */
  predicate KnightId(results: seq<Candidate>, id: String) {
    match LastOf(results, id)
    case None => false
    case Some(i) => IsKnight(results[i])
  }

  /** Some entry naming `id` also names a knight. */
  ghost predicate SharesWithKnight(rd: seq<Ranked>, results: seq<Candidate>, id: String) {
    exists i :: 0 <= i < |rd| && id in rd[i].uris && exists u :: u in rd[i].uris && KnightId(results, u)
  }

  /** The search loop of `get_knight_score`, returning at the first entry
      that names both the person and a knight. */
  function KnightSearch(rd: seq<Ranked>, results: seq<Candidate>, id: String): (found: bool)
    ensures found <==> SharesWithKnight(rd, results, id)
    decreases |rd|
  {
    if |rd| == 0 then false
    else if id in rd[0].uris && exists u :: u in rd[0].uris && KnightId(results, u) then true
    else
      var rest := KnightSearch(rd[1..], results, id);
      assert forall i :: 1 <= i < |rd| ==> rd[i] == rd[1..][i - 1];
      assert SharesWithKnight(rd[1..], results, id) ==> SharesWithKnight(rd, results, id) by {
        if SharesWithKnight(rd[1..], results, id) {
          var i :| 0 <= i < |rd[1..]| && id in rd[1..][i].uris && exists u :: u in rd[1..][i].uris && KnightId(results, u);
          assert rd[i + 1] == rd[1..][i];
        }
      }
      rest
  }

  /** `get_knight_score`: only when the text speaks of knights; 20 for a
      knight, -20 for a person who shares a mention's URIs with a knight,
      nothing otherwise. */
  function KnightScore(c: Candidate, text: String, results: seq<Candidate>): (r: int)
    ensures !MentionsKnight(text) ==> r == 0
    ensures MentionsKnight(text) && IsKnight(c) ==> r == KnightBonus
    ensures MentionsKnight(text) && !IsKnight(c) ==>
      (r == -KnightBonus <==> SharesWithKnight(RankedMatches(results), results, c.id))
    ensures r == 0 || r == KnightBonus || r == -KnightBonus
  {
    if !MentionsKnight(text) then 0
    else if IsKnight(c) then KnightBonus
    else if KnightSearch(RankedMatches(results), results, c.id) then -KnightBonus
    else 0
  }

  /** `get_unit_score`: 15 when the person and the record share a unit. */
  function UnitScore(c: Candidate, units: set<String>): (r: int)
    ensures r == UnitBonus <==> exists u :: u in units && u in Prop(c, "unit")
    ensures r == 0 || r == UnitBonus
  {
    if exists u :: u in units && u in Prop(c, "unit") then UnitBonus else 0
  }

  // ---------------------------------------------------------------------
  // The rank term.
  // ---------------------------------------------------------------------

  /** The regular-expression tests of rank scoring, left abstract:
      whether the context is consistent with the person's ranks
      (`has_consistent_rank`), whether that check finds a rank word in front
      of a mention while no mention names a rank itself (the case in which it
      reads the person's `rank` and `hierarchy` lists), whether a lower-cased
      mention names a rank or a rank class, whether a mention starts with a
      given rank at a word boundary, and the ranks
      `filter_promotions_outside_wars` returns. */
  datatype RankTests = RankTests(
    consistent: Candidate -> bool,
    readsRanks: Candidate -> bool,
    namesRank: String -> bool,
    namesRankClass: String -> bool,
    startsWithRank: (String, String) -> bool,
    warRanks: (Candidate, String) -> set<String>)

  /** The person's ranks, quote-stripped and lower-cased. */
  function RankSet(c: Candidate): set<String> {
    set r | r in Prop(c, "rank") :: LowerStr(Unquote(r))
  }

  /** The person's only rank is `NA`. */
  predicate RankUnknown(c: Candidate) {
    RankSet(c) == {"na"}
  }

  /** `_check_rank`: some mention starts with one of the ranks. */
  predicate CheckRank(ranks: set<String>, matches: seq<String>, tests: RankTests) {
    ranks != {} && exists m, r :: m in matches && r in ranks && tests.startsWithRank(m, r)
  }

  /** Which property list the mentions point at. */
  function RankTypeOf(c: Candidate, tests: RankTests): Option<String> {
    if exists m :: m in c.matches && tests.namesRank(LowerStr(m)) then Some("rank")
    else if exists m :: m in c.matches && tests.namesRankClass(LowerStr(m)) then Some("hierarchy")
    else None
  }

  /** The largest weight of the person's rank classes. */
  function ClassScore(c: Candidate): int
    requires "hierarchy" in c.properties && |c.properties["hierarchy"]| > 0
  {
    MaxWeight(Unquoted(c.properties["hierarchy"]), RankClassScores)
  }

  lemma ClassWeights(s: String)
    ensures -7 <= Weight(RankClassScores, s) <= 1
  {
  }

  lemma ClassScoreRange(c: Candidate)
    requires "hierarchy" in c.properties && |c.properties["hierarchy"]| > 0
    ensures -7 <= ClassScore(c) <= 1
  {
    var keys := Unquoted(c.properties["hierarchy"]);
    var i :| 0 <= i < |keys| && ClassScore(c) == Weight(RankClassScores, keys[i]);
    ClassWeights(keys[i]);
  }

  function FuzzyRanksAt(c: Candidate, t: String, event: Day): set<String>
    requires t in c.properties
  {
    FuzzyCurrentRanks(c.properties, t, event, DefaultRange)
  }

  predicate UnknownDateReady(props: Props, t: String) {
    t in props && (|props[t]| == 0 || ("promotion_date" in props && |props["promotion_date"]| >= |props[t]|))
  }

  function UnknownRanksSet(c: Candidate, t: String): set<String>
    requires UnknownDateReady(c.properties, t)
  {
    set r | r in UnknownDateRanks(c.properties, t)
  }

  /** The lookups `get_rank_score` makes without a guard succeed on the path
      the person takes: the context check finds the `rank` and `hierarchy`
      lists when it reads them; the rank classes exist and are not empty
      (their maximum is taken); the chosen rank list exists; without an
      event date the `rank` list exists (the war-time filter enumerates it
      through `get_lowest_rank_level`); and when the event is dated and no
      fuzzy current rank is mentioned, every rank has a promotion date. */
  predicate RankScoreDefined(c: Candidate, eventDate: Option<Day>, tests: RankTests) {
    var props := c.properties;
    (!RankUnknown(c) && tests.readsRanks(c) ==> "rank" in props && "hierarchy" in props)
    && ((!RankUnknown(c) && !tests.consistent(c))
        || ("hierarchy" in props && |props["hierarchy"]| > 0
            && match RankTypeOf(c, tests)
               case None => true
               case Some(t) =>
                 t in props
                 && (eventDate.None? ==> "rank" in props)
                 && (eventDate.Some? && !CheckRank(FuzzyRanksAt(c, t, eventDate.value), c.matches, tests)
                     ==> UnknownDateReady(props, t))))
  }

  /** `get_rank_score`. */
  function RankScore(c: Candidate, eventDate: Option<Day>, tests: RankTests): (r: int)
    requires RankScoreDefined(c, eventDate, tests)
    ensures r == InconsistentContext <==> !RankUnknown(c) && !tests.consistent(c)
    ensures -22 <= r <= 9
  {
    if !RankUnknown(c) && !tests.consistent(c) then InconsistentContext
    else
      ClassScoreRange(c);
      var base := ClassScore(c);
      match RankTypeOf(c, tests)
      case None => base
      case Some(t) =>
        if eventDate.Some? then
          if CheckRank(FuzzyRanksAt(c, t, eventDate.value), c.matches, tests) then base + CurrentRankBonus
          else if CheckRank(UnknownRanksSet(c, t), c.matches, tests) then base + OtherRankBonus
          else base - WrongRankPenalty
        else
          var found := tests.warRanks(c, t);
          if CheckRank(if found == {} then {"NA"} else found, c.matches, tests) then base + OtherRankBonus
          else base - WrongRankPenalty
  }

  /** A dated event whose mention starts with a rank the person held within
      30 days of it earns the current-rank bonus. */
  lemma RankBonusForHeldRank(c: Candidate, event: Day, tests: RankTests, m: String, i: nat)
    requires RankScoreDefined(c, Some(event), tests)
    requires RankUnknown(c) || tests.consistent(c)
    requires RankTypeOf(c, tests) == Some("rank")
    requires "rank" in c.properties && i < |c.properties["rank"]|
    requires InWindow(History(c.properties, "rank")[i], event, DefaultRange)
    requires m in c.matches && tests.startsWithRank(m, History(c.properties, "rank")[i].rank)
    ensures RankScore(c, Some(event), tests) == ClassScore(c) + CurrentRankBonus
  {
    FuzzyKeepsWindow(c.properties, "rank", event, DefaultRange, i);
  }

  // ---------------------------------------------------------------------
  // The total.
  // ---------------------------------------------------------------------

  /** What the validation context holds about the record being linked: its
      date, its units, and its original text. */
  datatype Event = Event(date: Option<Day>, units: set<String>, text: String)

  predicate Scorable(c: Candidate, ev: Event, tests: RankTests) {
    DeathDateReadable(c) && RankScoreDefined(c, ev.date, tests)
  }

  /** `get_score`: 50 for the fixed person; otherwise the sum of the
      match, date, rank, name, source, knight and unit terms (see
      `ScoreIsSum`). The name term is a parameter. */
  function Score(c: Candidate, results: seq<Candidate>, ev: Event, tests: RankTests, names: Candidate -> int): (r: int)
    requires c.id != Mannerheim ==> Scorable(c, ev, tests)
    ensures c.id == Mannerheim ==> r == MannerheimScore
    ensures c.id != Mannerheim ==> r - names(c) - RankScore(c, ev.date, tests) <= 2 + KnightBonus + UnitBonus
    ensures c.id != Mannerheim && !MentionsKnight(ev.text) && MatchTerm(results, c.id) == 0 ==>
      r == DateScore(c, ev.date) + RankScore(c, ev.date, tests) + names(c) + SourceScore(c) + UnitScore(c, ev.units)
  {
    SourceScoreRange(c);
    if c.id == Mannerheim then MannerheimScore
    else
      MatchTerm(results, c.id) + DateScore(c, ev.date) + RankScore(c, ev.date, tests)
      + names(c) + SourceScore(c) + KnightScore(c, ev.text, results) + UnitScore(c, ev.units)
  }

  /** Any person but the fixed one scores the sum of the seven terms, each
      of which has its own contract above. */
  lemma ScoreIsSum(c: Candidate, results: seq<Candidate>, ev: Event, tests: RankTests, names: Candidate -> int)
    requires c.id != Mannerheim && Scorable(c, ev, tests)
    ensures Score(c, results, ev, tests, names)
            == MatchTerm(results, c.id) + DateScore(c, ev.date) + RankScore(c, ev.date, tests) + names(c)
               + SourceScore(c) + KnightScore(c, ev.text, results) + UnitScore(c, ev.units)
  {
  }

  /** Unless the text speaks of knights, the other results change a
      person's score only through the overlap term: the score among
      `results` is the score alone plus the match term. */
  lemma OthersOnlyThroughOverlap(c: Candidate, results: seq<Candidate>, ev: Event, tests: RankTests, names: Candidate -> int)
    requires c.id != Mannerheim && Scorable(c, ev, tests)
    requires !MentionsKnight(ev.text)
    ensures Score(c, results, ev, tests, names) == Score(c, [], ev, tests, names) + MatchTerm(results, c.id)
  {
    assert LastScore(RankedMatches([]), c.id).None?;
    MatchTermIsLastScore([], c.id);
  }

  /** Without a name bonus, a person outside every overlapping mention,
      dead long before the event and without any bonus cannot pass. */
  lemma ScoreBounds(c: Candidate, results: seq<Candidate>, ev: Event, tests: RankTests, names: Candidate -> int)
    requires c.id != Mannerheim && Scorable(c, ev, tests)
    ensures Score(c, results, ev, tests, names) <= names(c) + 46
    ensures DiedLongBefore(c, ev.date) && !MentionsKnight(ev.text) && UnitScore(c, ev.units) == 0 ==>
      Score(c, results, ev, tests, names) <= names(c) - 19
  {
    SourceScoreRange(c);
  }

  // ---------------------------------------------------------------------
  // choose_best
  // ---------------------------------------------------------------------

  /** A person with the score `validate` attached. */
  datatype Scored = Scored(person: Candidate, score: int)

  function ScoredIds(ps: seq<Scored>): (ids: seq<String>)
    ensures |ids| == |ps| && forall i :: 0 <= i < |ps| ==> ids[i] == ps[i].person.id
  {
    seq(|ps|, i requires 0 <= i < |ps| => ps[i].person.id)
  }

  /** `q` scores at least as well as every person sharing one of its
      mentions. */
  ghost predicate Best(ps: seq<Scored>, q: Scored) {
    exists m :: m in q.person.matches
      && forall j :: 0 <= j < |ps| && m in ps[j].person.matches ==> ps[j].score <= q.score
  }

  /** Kept by `choose_best`: any person of a list of at most one, otherwise
      a best one. */
  ghost predicate Chosen(ps: seq<Scored>, q: Scored) {
    |ps| <= 1 || Best(ps, q)
  }

  /** An entry of `match_dict`: a mention, its best score, and the persons
      with that score. */
  datatype Slot = Slot(mention: String, score: int, persons: seq<Scored>)

  ghost function SlotMentions(t: seq<Slot>): set<String> {
    set k | 0 <= k < |t| :: t[k].mention
  }

  function FindSlot(t: seq<Slot>, m: String): (r: Option<nat>)
    ensures r.Some? ==> r.value < |t| && t[r.value].mention == m
    ensures r.None? <==> m !in SlotMentions(t)
  {
    if |t| == 0 then None
    else if t[|t| - 1].mention == m then Some(|t| - 1)
    else
      var r := FindSlot(t[..|t| - 1], m);
      assert forall k :: 0 <= k < |t| - 1 ==> t[..|t| - 1][k] == t[k];
      assert m in SlotMentions(t) ==> m in SlotMentions(t[..|t| - 1]) by {
        if m in SlotMentions(t) {
          var k :| 0 <= k < |t| && t[k].mention == m;
          assert t[..|t| - 1][k].mention == m;
        }
      }
      r
  }

  lemma SlotMentionsAppend(t: seq<Slot>, s: Slot)
    ensures SlotMentions(t + [s]) == SlotMentions(t) + {s.mention}
  {
    var t' := t + [s];
    forall x | x in SlotMentions(t') ensures x in SlotMentions(t) + {s.mention} {
      var k :| 0 <= k < |t'| && t'[k].mention == x;
      if k < |t| {
        assert t[k].mention == x;
      }
    }
    forall x | x in SlotMentions(t) ensures x in SlotMentions(t') {
      var k :| 0 <= k < |t| && t[k].mention == x;
      assert t'[k].mention == x;
    }
    assert t'[|t|].mention == s.mention;
  }

  lemma SlotMentionsUpdate(t: seq<Slot>, k: nat, s: Slot)
    requires k < |t| && s.mention == t[k].mention
    ensures SlotMentions(t[k := s]) == SlotMentions(t)
  {
    var t' := t[k := s];
    forall x | x in SlotMentions(t') ensures x in SlotMentions(t) {
      var j :| 0 <= j < |t'| && t'[j].mention == x;
      assert t[j].mention == x;
    }
    forall x | x in SlotMentions(t) ensures x in SlotMentions(t') {
      var j :| 0 <= j < |t| && t[j].mention == x;
      assert t'[j].mention == x;
    }
  }

  /** One step of the inner loop: person `p` with one of its mentions. */
  function Place(t: seq<Slot>, m: String, p: Scored): seq<Slot> {
    match FindSlot(t, m)
    case None => t + [Slot(m, p.score, [p])]
    case Some(k) =>
      if p.score > t[k].score then t[k := Slot(m, p.score, [p])]
      else if p.score == t[k].score then t[k := t[k].(persons := t[k].persons + [p])]
      else t
  }

  /** The persons paired with each of their distinct mentions, in loop
      order. */
  function Pairs(ps: seq<Scored>): (pairs: seq<(Scored, String)>)
    ensures forall q, m :: (q, m) in pairs <==> q in ps && m in q.person.matches
    decreases |ps|
  {
    if |ps| == 0 then []
    else
      var init, p := ps[..|ps| - 1], ps[|ps| - 1];
      var ms := Distinct(p.person.matches);
      var step := seq(|ms|, i requires 0 <= i < |ms| => (p, ms[i]));
      assert forall q, m :: (q, m) in step <==> q == p && m in ms by {
        forall q, m | q == p && m in ms ensures (q, m) in step {
          var i :| 0 <= i < |ms| && ms[i] == m;
          assert step[i] == (q, m);
        }
      }
      assert forall q :: q in ps <==> q in init || q == p by {
        assert ps == init + [p];
      }
      Pairs(init) + step
  }

  function PlaceAll(pairs: seq<(Scored, String)>): seq<Slot>
    decreases |pairs|
  {
    if |pairs| == 0 then []
    else
      var last := pairs[|pairs| - 1];
      Place(PlaceAll(pairs[..|pairs| - 1]), last.1, last.0)
  }

  // What `match_dict` holds after the pairs `pr`, in five parts.

  /** Each mention has one slot. */
  ghost predicate UniqueSlots(t: seq<Slot>) {
    forall k1, k2 :: 0 <= k1 < k2 < |t| ==> t[k1].mention != t[k2].mention
  }

  /** Every mention seen has a slot. */
  ghost predicate Covers(pr: seq<(Scored, String)>, t: seq<Slot>) {
    forall q, m :: (q, m) in pr ==> m in SlotMentions(t)
  }

  /** A slot's score is at least that of every pair with its mention. */
  ghost predicate SlotDominates(pr: seq<(Scored, String)>, s: Slot) {
    forall q :: (q, s.mention) in pr ==> q.score <= s.score
  }

  /** A slot holds exactly the persons paired with its mention at its
      score, and at least one. */
  ghost predicate SlotHolds(pr: seq<(Scored, String)>, s: Slot) {
    |s.persons| > 0 && forall q :: q in s.persons <==> (q, s.mention) in pr && q.score == s.score
  }

  ghost predicate TableInv(pr: seq<(Scored, String)>, t: seq<Slot>) {
    UniqueSlots(t) && Covers(pr, t)
    && forall k :: 0 <= k < |t| ==> SlotDominates(pr, t[k]) && SlotHolds(pr, t[k])
  }

  /** A pair with another mention leaves a slot as it was. */
  lemma SlotUnaffected(pr: seq<(Scored, String)>, s: Slot, p: Scored, m: String)
    requires SlotDominates(pr, s) && SlotHolds(pr, s) && s.mention != m
    ensures SlotDominates(pr + [(p, m)], s) && SlotHolds(pr + [(p, m)], s)
  {
  }

  /** Replacing slot `k` by a slot for the same mention that is right for
      the extended pairs keeps the table right. */
  lemma UpdateSlot(pr: seq<(Scored, String)>, t: seq<Slot>, p: Scored, m: String, k: nat, s: Slot)
    requires TableInv(pr, t) && k < |t| && t[k].mention == m && s.mention == m
    requires SlotDominates(pr + [(p, m)], s) && SlotHolds(pr + [(p, m)], s)
    ensures TableInv(pr + [(p, m)], t[k := s])
  {
    var t' := t[k := s];
    SlotMentionsUpdate(t, k, s);
    forall kk | 0 <= kk < |t'| ensures SlotDominates(pr + [(p, m)], t'[kk]) && SlotHolds(pr + [(p, m)], t'[kk]) {
      if kk != k {
        SlotUnaffected(pr, t[kk], p, m);
      }
    }
  }

  lemma PlaceNew(pr: seq<(Scored, String)>, t: seq<Slot>, p: Scored, m: String)
    requires TableInv(pr, t) && FindSlot(t, m).None?
    ensures TableInv(pr + [(p, m)], Place(t, m, p))
  {
    var s := Slot(m, p.score, [p]);
    var t' := t + [s];
    assert Place(t, m, p) == t';
    SlotMentionsAppend(t, s);
    forall k | 0 <= k < |t| ensures t[k].mention != m {
      assert t[k].mention in SlotMentions(t);
    }
    forall k | 0 <= k < |t'| ensures SlotDominates(pr + [(p, m)], t'[k]) && SlotHolds(pr + [(p, m)], t'[k]) {
      if k < |t| {
        SlotUnaffected(pr, t[k], p, m);
      } else {
        assert forall q :: (q, m) !in pr;
      }
    }
  }

  lemma PlaceHigher(pr: seq<(Scored, String)>, t: seq<Slot>, p: Scored, m: String, k: nat)
    requires TableInv(pr, t) && FindSlot(t, m) == Some(k) && p.score > t[k].score
    ensures TableInv(pr + [(p, m)], Place(t, m, p))
  {
    var s := Slot(m, p.score, [p]);
    assert Place(t, m, p) == t[k := s];
    assert SlotDominates(pr, t[k]);
    UpdateSlot(pr, t, p, m, k, s);
  }

  lemma PlaceEqual(pr: seq<(Scored, String)>, t: seq<Slot>, p: Scored, m: String, k: nat)
    requires TableInv(pr, t) && FindSlot(t, m) == Some(k) && p.score == t[k].score
    ensures TableInv(pr + [(p, m)], Place(t, m, p))
  {
    var s := t[k].(persons := t[k].persons + [p]);
    assert Place(t, m, p) == t[k := s];
    assert SlotDominates(pr, t[k]) && SlotHolds(pr, t[k]);
    UpdateSlot(pr, t, p, m, k, s);
  }

  lemma PlaceLower(pr: seq<(Scored, String)>, t: seq<Slot>, p: Scored, m: String, k: nat)
    requires TableInv(pr, t) && FindSlot(t, m) == Some(k) && p.score < t[k].score
    ensures TableInv(pr + [(p, m)], Place(t, m, p))
  {
    assert Place(t, m, p) == t;
    assert SlotDominates(pr, t[k]) && SlotHolds(pr, t[k]);
    assert t[k := t[k]] == t;
    UpdateSlot(pr, t, p, m, k, t[k]);
  }

  lemma {:induction false} PlaceAllSpec(pairs: seq<(Scored, String)>)
    ensures TableInv(pairs, PlaceAll(pairs))
    decreases |pairs|
  {
    if |pairs| > 0 {
      var init, last := pairs[..|pairs| - 1], pairs[|pairs| - 1];
      PlaceAllSpec(init);
      var t := PlaceAll(init);
      assert pairs == init + [(last.0, last.1)];
      match FindSlot(t, last.1)
      case None => PlaceNew(init, t, last.0, last.1);
      case Some(k) =>
        if last.0.score > t[k].score {
          PlaceHigher(init, t, last.0, last.1, k);
        } else if last.0.score == t[k].score {
          PlaceEqual(init, t, last.0, last.1, k);
        } else {
          PlaceLower(init, t, last.0, last.1, k);
        }
    }
  }

  ghost predicate DistinctIds(ps: seq<Scored>) {
    forall i, j :: 0 <= i < j < |ps| ==> ps[i].person.id != ps[j].person.id
  }

  lemma IdsOf(ps: seq<Scored>, q: Scored)
    requires q in ps
    ensures q.person.id in ScoredIds(ps)
  {
    var i :| 0 <= i < |ps| && ps[i] == q;
    assert ScoredIds(ps)[i] == q.person.id;
  }

  /** The second loop: append each person whose id is not taken yet. */
  function AddUnseen(acc: seq<Scored>, ps: seq<Scored>): (r: seq<Scored>)
    ensures forall q :: q in r ==> q in acc || q in ps
    ensures forall q :: q in acc || q in ps ==> q.person.id in ScoredIds(r)
    ensures DistinctIds(acc) ==> DistinctIds(r)
    decreases |ps|
  {
    if |ps| == 0 then
      assert forall q :: q in acc ==> q.person.id in ScoredIds(acc) by {
        forall q | q in acc ensures q.person.id in ScoredIds(acc) {
          IdsOf(acc, q);
        }
      }
      acc
    else
      var p := ps[0];
      var next := if p.person.id in ScoredIds(acc) then acc else acc + [p];
      assert p in next ==> p.person.id in ScoredIds(next) by {
        if p in next {
          IdsOf(next, p);
        }
      }
      assert p.person.id in ScoredIds(next) || p.person.id in ScoredIds(acc);
      assert forall q :: q in ps <==> q == p || q in ps[1..] by {
        assert ps == [p] + ps[1..];
      }
      assert DistinctIds(acc) ==> DistinctIds(next) by {
        if DistinctIds(acc) && p.person.id !in ScoredIds(acc) {
          assert forall i :: 0 <= i < |acc| ==> acc[i].person.id == ScoredIds(acc)[i];
        }
      }
      var r := AddUnseen(next, ps[1..]);
      assert forall q :: q in acc ==> q.person.id in ScoredIds(r) by {
        forall q | q in acc ensures q.person.id in ScoredIds(r) {
          assert q in next;
        }
      }
      assert p.person.id in ScoredIds(r) by {
        if p.person.id in ScoredIds(acc) {
          var i :| 0 <= i < |acc| && ScoredIds(acc)[i] == p.person.id;
          assert acc[i] in acc;
        } else {
          assert p in next;
        }
      }
      r
  }

  function Collect(t: seq<Slot>): (r: seq<Scored>)
    ensures DistinctIds(r)
    ensures forall q :: q in r ==> exists k :: 0 <= k < |t| && q in t[k].persons
    ensures forall k, q :: 0 <= k < |t| && q in t[k].persons ==> q.person.id in ScoredIds(r)
    decreases |t|
  {
    if |t| == 0 then []
    else
      var init, last := t[..|t| - 1], t[|t| - 1];
      var prev := Collect(init);
      var r := AddUnseen(prev, last.persons);
      assert forall k :: 0 <= k < |init| ==> t[k] == init[k];
      assert forall q :: q in r ==> exists k :: 0 <= k < |t| && q in t[k].persons by {
        forall q | q in r ensures exists k :: 0 <= k < |t| && q in t[k].persons {
          if q in prev {
            var k :| 0 <= k < |init| && q in init[k].persons;
            assert q in t[k].persons;
          } else {
            assert q in t[|t| - 1].persons;
          }
        }
      }
      assert forall k, q :: 0 <= k < |t| && q in t[k].persons ==> q.person.id in ScoredIds(r) by {
        forall k, q | 0 <= k < |t| && q in t[k].persons ensures q.person.id in ScoredIds(r) {
          if k < |init| {
            assert q in init[k].persons;
            assert q.person.id in ScoredIds(prev);
            var i :| 0 <= i < |prev| && ScoredIds(prev)[i] == q.person.id;
            assert prev[i] in prev;
          }
        }
      }
      r
  }

  predicate AllPositive(ps: seq<Scored>) {
    forall i :: 0 <= i < |ps| ==> ps[i].score > 0
  }

  /** `choose_best`: with more than one person, those that score at least
      as well as every person sharing one of their mentions, once per id;
      ties are all kept. Fewer persons are returned as they are. Every
      score is positive, as `validate` ensures; a zero score would fail
      the lookup of its mention. */
  function ChooseBest(ps: seq<Scored>): (r: seq<Scored>)
    requires AllPositive(ps)
    ensures |ps| <= 1 ==> r == ps
    ensures DistinctIds(r)
    ensures forall q :: q in r ==> q in ps && Chosen(ps, q)
    ensures forall q :: q in ps && Chosen(ps, q) ==> q.person.id in ScoredIds(r)
  {
    if |ps| <= 1 then
      assert forall q :: q in ps ==> q.person.id in ScoredIds(ps) by {
        forall q | q in ps ensures q.person.id in ScoredIds(ps) {
          IdsOf(ps, q);
        }
      }
      ps
    else
      var pairs := Pairs(ps);
      var t := PlaceAll(pairs);
      PlaceAllSpec(pairs);
      ChosenAreBest(ps, pairs, t);
      BestAreChosen(ps, pairs, t);
      Collect(t)
  }

  lemma ChosenAreBest(ps: seq<Scored>, pairs: seq<(Scored, String)>, t: seq<Slot>)
    requires pairs == Pairs(ps) && TableInv(pairs, t)
    ensures forall q :: q in Collect(t) ==> q in ps && Best(ps, q)
  {
    forall q | q in Collect(t) ensures q in ps && Best(ps, q) {
      var k :| 0 <= k < |t| && q in t[k].persons;
      var m := t[k].mention;
      assert (q, m) in pairs;
      forall j | 0 <= j < |ps| && m in ps[j].person.matches ensures ps[j].score <= q.score {
        assert (ps[j], m) in pairs;
      }
    }
  }

  lemma BestAreChosen(ps: seq<Scored>, pairs: seq<(Scored, String)>, t: seq<Slot>)
    requires pairs == Pairs(ps) && TableInv(pairs, t)
    ensures forall q :: q in ps && Best(ps, q) ==> q.person.id in ScoredIds(Collect(t))
  {
    forall q | q in ps && Best(ps, q) ensures q.person.id in ScoredIds(Collect(t)) {
      var m :| m in q.person.matches
        && forall j :: 0 <= j < |ps| && m in ps[j].person.matches ==> ps[j].score <= q.score;
      assert (q, m) in pairs;
      var k :| 0 <= k < |t| && t[k].mention == m;
      assert q.score <= t[k].score;
      var top := t[k].persons[0];
      assert top in t[k].persons;
      assert (top, m) in pairs;
      var i :| 0 <= i < |ps| && ps[i] == top;
      assert top.score <= q.score;
      assert q in t[k].persons;
    }
  }

  // ---------------------------------------------------------------------
  // validate
  // ---------------------------------------------------------------------

  function ScoreAll(results: seq<Candidate>, ev: Event, tests: RankTests, names: Candidate -> int): (ps: seq<Scored>)
    requires forall i :: 0 <= i < |results| && results[i].id != Mannerheim ==> Scorable(results[i], ev, tests)
    ensures |ps| == |results|
    ensures forall i :: 0 <= i < |results| ==> ps[i] == Scored(results[i], Score(results[i], results, ev, tests, names))
  {
    seq(|results|, i requires 0 <= i < |results| => Scored(results[i], Score(results[i], results, ev, tests, names)))
  }

  function Passes(): Scored -> bool {
    (q: Scored) => q.score > 0
  }

  /** `validate`: an empty input is returned as it is; otherwise every
      person is scored against all the results, those scoring above zero
      pass with their score, and `ChooseBest` picks among them. */
  function Validate(results: seq<Candidate>, ev: Event, tests: RankTests, names: Candidate -> int): (r: seq<Scored>)
    requires forall i :: 0 <= i < |results| && results[i].id != Mannerheim ==> Scorable(results[i], ev, tests)
    ensures |results| == 0 ==> r == []
    ensures DistinctIds(r)
    ensures forall q :: q in r ==>
      (q.person in results && q.score > 0 && q.score == Score(q.person, results, ev, tests, names)
       && Chosen(Filter(ScoreAll(results, ev, tests, names), Passes()), q))
    ensures forall i :: 0 <= i < |results| ==>
      (Score(results[i], results, ev, tests, names) > 0
       && Chosen(Filter(ScoreAll(results, ev, tests, names), Passes()), Scored(results[i], Score(results[i], results, ev, tests, names)))
       ==> results[i].id in ScoredIds(r))
  {
    if |results| == 0 then []
    else
      PassedFacts(results, ev, tests, names);
      ChooseBest(Filter(ScoreAll(results, ev, tests, names), Passes()))
  }

  /** The persons passing the threshold are results with their own
      positive score, and every result scoring above zero is among them. */
  lemma PassedFacts(results: seq<Candidate>, ev: Event, tests: RankTests, names: Candidate -> int)
    requires forall i :: 0 <= i < |results| && results[i].id != Mannerheim ==> Scorable(results[i], ev, tests)
    ensures var passed := Filter(ScoreAll(results, ev, tests, names), Passes());
            && AllPositive(passed)
            && (forall q :: q in passed ==> q.person in results && q.score == Score(q.person, results, ev, tests, names))
            && (forall i :: 0 <= i < |results| && Score(results[i], results, ev, tests, names) > 0 ==>
                  Scored(results[i], Score(results[i], results, ev, tests, names)) in passed)
  {
    var scored := ScoreAll(results, ev, tests, names);
    var passed := Filter(scored, Passes());
    forall i | 0 <= i < |passed| ensures passed[i].score > 0 {
      assert passed[i] in passed;
    }
    forall q | q in scored ensures q.person in results && q.score == Score(q.person, results, ev, tests, names) {
      var i :| 0 <= i < |scored| && scored[i] == q;
    }
    forall i | 0 <= i < |results| && Score(results[i], results, ev, tests, names) > 0
      ensures Scored(results[i], Score(results[i], results, ev, tests, names)) in passed {
      assert scored[i] in scored;
    }
  }

  /** The fixed person always passes the threshold. */
  lemma MannerheimPasses(results: seq<Candidate>, ev: Event, tests: RankTests, names: Candidate -> int, i: nat)
    requires i < |results| && results[i].id == Mannerheim
    requires forall i :: 0 <= i < |results| && results[i].id != Mannerheim ==> Scorable(results[i], ev, tests)
    ensures Scored(results[i], MannerheimScore) in Filter(ScoreAll(results, ev, tests, names), Passes())
  {
    var scored := ScoreAll(results, ev, tests, names);
    assert scored[i] in scored;
  }
}
