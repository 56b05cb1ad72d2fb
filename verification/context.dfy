/** The overlapping-mention table of the person validators
    (`get_ranked_matches` and `get_match_scores`, written alike in both
    versions of the validator). A mention that is part of a longer mention
    loses 20 points per longer mention, and gives up the persons the last
    longer mention also names. */
module MentionContext {
  import opened Wrappers
  import opened Text
  import opened Candidates

  /** An entry of the id table: a person id and the mentions of the last
      result with that id (`{x['id']: set(x['matches']) for x in results}`). */
  datatype IdEntry = IdEntry(id: String, matches: seq<String>)

  /** An entry of the mention table: a mention and the ids naming it. */
  datatype MentionEntry = MentionEntry(mention: String, ids: set<String>)

  /** An entry of the ranked table: `{'score': ..., 'uris': ...}`. */
  datatype Ranked = Ranked(mention: String, score: int, uris: set<String>)

  // ---------------------------------------------------------------------
  // The id table. A later result with a known id replaces its mentions in
  // place, as a dictionary assignment does.
  // ---------------------------------------------------------------------

  function FindId(d: seq<IdEntry>, id: String): (r: Option<nat>)
    ensures r.Some? ==> r.value < |d| && d[r.value].id == id
    ensures r.None? ==> forall j :: 0 <= j < |d| ==> d[j].id != id
  {
    if |d| == 0 then None
    else if d[|d| - 1].id == id then Some(|d| - 1)
    else FindId(d[..|d| - 1], id)
  }

  function IdTable(results: seq<Candidate>): seq<IdEntry> {
    if |results| == 0 then []
    else
      var d := IdTable(results[..|results| - 1]);
      var x := results[|results| - 1];
      match FindId(d, x.id)
      case None => d + [IdEntry(x.id, x.matches)]
      case Some(i) => d[i := IdEntry(x.id, x.matches)]
  }

  function IdKeys(d: seq<IdEntry>): (ks: seq<String>)
    ensures |ks| == |d| && forall i :: 0 <= i < |d| ==> ks[i] == d[i].id
  {
    seq(|d|, i requires 0 <= i < |d| => d[i].id)
  }

  /** The index of the last result with the given id. */
  function LastOf(results: seq<Candidate>, id: String): (r: Option<nat>)
    ensures r.Some? ==> r.value < |results| && results[r.value].id == id
    ensures r.Some? ==> forall j :: r.value < j < |results| ==> results[j].id != id
    ensures r.None? ==> forall j :: 0 <= j < |results| ==> results[j].id != id
  {
    if |results| == 0 then None
    else if results[|results| - 1].id == id then Some(|results| - 1)
    else LastOf(results[..|results| - 1], id)
  }

  lemma FindIdKeys(d: seq<IdEntry>, k: String)
    ensures FindId(d, k).Some? <==> k in IdKeys(d)
  {
    if k in IdKeys(d) {
      var i :| 0 <= i < |d| && IdKeys(d)[i] == k;
      assert d[i].id == k;
    }
  }

  /** The id table holds each id once, in order of first appearance. */
  lemma {:induction false} IdTableKeys(results: seq<Candidate>)
    ensures IdKeys(IdTable(results)) == Distinct(Ids(results))
    decreases |results|
  {
    if |results| > 0 {
      var n := |results| - 1;
      var init, x := results[..n], results[n];
      IdTableKeys(init);
      var d := IdTable(init);
      var ids := Ids(results);
      assert ids[..n] == Ids(init);
      FindIdKeys(d, x.id);
      match FindId(d, x.id)
      case None =>
        assert IdKeys(IdTable(results)) == IdKeys(d) + [x.id];
      case Some(i) =>
        assert IdKeys(IdTable(results)) == IdKeys(d);
    }
  }

  /** The id table has an entry for exactly the ids of the results. */
  lemma {:induction false} IdTableFind(results: seq<Candidate>)
    ensures forall k :: LastOf(results, k).Some? <==> FindId(IdTable(results), k).Some?
    decreases |results|
  {
    if |results| > 0 {
      var n := |results| - 1;
      var init, x := results[..n], results[n];
      IdTableFind(init);
      assert results == init + [x];
      forall k ensures LastOf(results, k).Some? <==> FindId(IdTable(results), k).Some? {
        IdTableFindStep(init, x, k);
      }
    }
  }

  /** One more result keeps an id in the table exactly when it was there or
      is the result's own. */
  lemma IdTableFindStep(init: seq<Candidate>, x: Candidate, k: String)
    requires LastOf(init, k).Some? <==> FindId(IdTable(init), k).Some?
    ensures LastOf(init + [x], k).Some? <==> FindId(IdTable(init + [x]), k).Some?
  {
    var rs := init + [x];
    assert rs[..|init|] == init;
    LastOfSnoc(init, x, k);
    var d, d' := IdTable(init), IdTable(rs);
    FindIdKeys(d, k);
    FindIdKeys(d', k);
    FindIdKeys(d, x.id);
    match FindId(d, x.id)
    case None =>
      assert IdKeys(d') == IdKeys(d) + [x.id];
    case Some(i) =>
      assert IdKeys(d') == IdKeys(d);
  }

  lemma LastOfSnoc(init: seq<Candidate>, x: Candidate, id: String)
    ensures LastOf(init + [x], id) == if id == x.id then Some(|init|) else LastOf(init, id)
  {
    assert (init + [x])[..|init|] == init;
  }

  /** Each entry of the table holds the mentions of the last result with
      its id. */
  ghost predicate HoldsLast(results: seq<Candidate>, d: seq<IdEntry>) {
    forall i :: 0 <= i < |d| ==>
      LastOf(results, d[i].id).Some? && d[i].matches == results[LastOf(results, d[i].id).value].matches
  }

  lemma {:induction false} IdTableMatches(results: seq<Candidate>)
    ensures HoldsLast(results, IdTable(results))
    decreases |results|
  {
    if |results| > 0 {
      var n := |results| - 1;
      var init, x := results[..n], results[n];
      assert results == init + [x];
      IdTableMatches(init);
      IdTableKeys(init);
      HoldsLastStep(init, x);
    }
  }

  /** One more result keeps every entry holding the mentions of the last
      result with its id. */
  lemma HoldsLastStep(init: seq<Candidate>, x: Candidate)
    requires HoldsLast(init, IdTable(init))
    requires IdKeys(IdTable(init)) == Distinct(Ids(init))
    ensures HoldsLast(init + [x], IdTable(init + [x]))
  {
    var results, d, d' := init + [x], IdTable(init), IdTable(init + [x]);
    assert forall i, j :: 0 <= i < j < |d| ==> d[i].id != d[j].id by {
      assert forall i :: 0 <= i < |d| ==> d[i].id == IdKeys(d)[i];
    }
    forall i | 0 <= i < |d'|
      ensures LastOf(results, d'[i].id).Some? && d'[i].matches == results[LastOf(results, d'[i].id).value].matches
    {
      HoldsLastEntry(init, x, i);
    }
  }

  lemma HoldsLastEntry(init: seq<Candidate>, x: Candidate, i: nat)
    requires HoldsLast(init, IdTable(init))
    requires forall a, b :: 0 <= a < b < |IdTable(init)| ==> IdTable(init)[a].id != IdTable(init)[b].id
    requires i < |IdTable(init + [x])|
    ensures var results, e := init + [x], IdTable(init + [x])[i];
            LastOf(results, e.id).Some? && e.matches == results[LastOf(results, e.id).value].matches
  {
    var results := init + [x];
    assert results[..|init|] == init;
    var d, d' := IdTable(init), IdTable(results);
    var e := d'[i];
    LastOfSnoc(init, x, e.id);
    match FindId(d, x.id)
    case None =>
      assert d' == d + [IdEntry(x.id, x.matches)];
      if i < |d| {
        assert e == d[i];
      }
    case Some(k) =>
      assert d' == d[k := IdEntry(x.id, x.matches)];
      if i != k {
        assert e == d[i];
      }
  }

  lemma IdTableSpec(results: seq<Candidate>)
    ensures forall i, j :: 0 <= i < j < |IdTable(results)| ==> IdTable(results)[i].id != IdTable(results)[j].id
    ensures forall i :: 0 <= i < |IdTable(results)| ==>
              LastOf(results, IdTable(results)[i].id).Some?
              && IdTable(results)[i].matches == results[LastOf(results, IdTable(results)[i].id).value].matches
    ensures forall k :: LastOf(results, k).Some? <==> FindId(IdTable(results), k).Some?
  {
    IdTableKeys(results);
    IdTableMatches(results);
    IdTableFind(results);
    assert HoldsLast(results, IdTable(results));
    var d := IdTable(results);
    forall i, j | 0 <= i < j < |d| ensures d[i].id != d[j].id {
      assert IdKeys(d)[i] != IdKeys(d)[j];
    }
  }

  // ---------------------------------------------------------------------
  // The mention table (`dd`): for every mention, the ids naming it.
  // ---------------------------------------------------------------------

  function FindMention(dd: seq<MentionEntry>, m: String): (r: Option<nat>)
    ensures r.Some? ==> r.value < |dd| && dd[r.value].mention == m
    ensures r.None? ==> forall j :: 0 <= j < |dd| ==> dd[j].mention != m
  {
    if |dd| == 0 then None
    else if dd[|dd| - 1].mention == m then Some(|dd| - 1)
    else FindMention(dd[..|dd| - 1], m)
  }

  /** The owners recorded for mention `m`: empty for an unknown mention,
      as with a default dictionary. */
  function OwnersOf(dd: seq<MentionEntry>, m: String): set<String> {
    match FindMention(dd, m)
    case None => {}
    case Some(i) => dd[i].ids
  }

  function MentionKeys(dd: seq<MentionEntry>): (ks: seq<String>)
    ensures |ks| == |dd| && forall i :: 0 <= i < |dd| ==> ks[i] == dd[i].mention
  {
    seq(|dd|, i requires 0 <= i < |dd| => dd[i].mention)
  }

  /** Record `id` as an owner of mention `m`. */
  function AddOwner(dd: seq<MentionEntry>, m: String, id: String): seq<MentionEntry> {
    match FindMention(dd, m)
    case None => dd + [MentionEntry(m, {id})]
    case Some(i) => dd[i := MentionEntry(m, dd[i].ids + {id})]
  }

  function AddOwners(dd: seq<MentionEntry>, ms: seq<String>, id: String): seq<MentionEntry> {
    if |ms| == 0 then dd
    else AddOwner(AddOwners(dd, ms[..|ms| - 1], id), ms[|ms| - 1], id)
  }

  function OwnerTable(d: seq<IdEntry>): seq<MentionEntry> {
    if |d| == 0 then []
    else AddOwners(OwnerTable(d[..|d| - 1]), d[|d| - 1].matches, d[|d| - 1].id)
  }

  /** Every mention once, and every mention named by some id. */
  ghost predicate WellKept(dd: seq<MentionEntry>) {
    (forall i, j :: 0 <= i < j < |dd| ==> dd[i].mention != dd[j].mention)
    && (forall i :: 0 <= i < |dd| ==> dd[i].ids != {})
  }

  /** The ids of the table entries whose mentions include `m`. */
  ghost function OwnerSet(d: seq<IdEntry>, m: String): set<String> {
    set j | 0 <= j < |d| && m in d[j].matches :: d[j].id
  }

  lemma FindMentionUnique(dd: seq<MentionEntry>, i: nat)
    requires WellKept(dd) && i < |dd|
    ensures FindMention(dd, dd[i].mention) == Some(i)
    ensures OwnersOf(dd, dd[i].mention) == dd[i].ids
  {
  }

  lemma AddOwnerKept(dd: seq<MentionEntry>, m: String, id: String)
    requires WellKept(dd)
    ensures WellKept(AddOwner(dd, m, id))
  {
  }

  lemma AddOwnerAt(dd: seq<MentionEntry>, m: String, id: String, k: String)
    requires WellKept(dd)
    ensures OwnersOf(AddOwner(dd, m, id), k) == OwnersOf(dd, k) + (if k == m then {id} else {})
  {
    var dd' := AddOwner(dd, m, id);
    AddOwnerKept(dd, m, id);
    match FindMention(dd, k)
    case None =>
      if k == m {
        assert dd' == dd + [MentionEntry(m, {id})];
        FindMentionUnique(dd', |dd|);
      } else {
        assert FindMention(dd', k).None?;
      }
    case Some(i) =>
      FindMentionUnique(dd, i);
      FindMentionUnique(dd', i);
  }

  lemma AddOwnerSpec(dd: seq<MentionEntry>, m: String, id: String)
    requires WellKept(dd)
    ensures WellKept(AddOwner(dd, m, id))
    ensures forall k :: OwnersOf(AddOwner(dd, m, id), k) == OwnersOf(dd, k) + (if k == m then {id} else {})
  {
    AddOwnerKept(dd, m, id);
    forall k ensures OwnersOf(AddOwner(dd, m, id), k) == OwnersOf(dd, k) + (if k == m then {id} else {}) {
      AddOwnerAt(dd, m, id, k);
    }
  }

  lemma {:induction false} AddOwnersSpec(dd: seq<MentionEntry>, ms: seq<String>, id: String)
    requires WellKept(dd)
    ensures WellKept(AddOwners(dd, ms, id))
    ensures forall k :: OwnersOf(AddOwners(dd, ms, id), k) == OwnersOf(dd, k) + (if k in ms then {id} else {})
    decreases |ms|
  {
    if |ms| > 0 {
      var init := ms[..|ms| - 1];
      AddOwnersSpec(dd, init, id);
      AddOwnerSpec(AddOwners(dd, init, id), ms[|ms| - 1], id);
      assert forall k :: k in ms <==> k in init || k == ms[|ms| - 1] by {
        assert ms == init + [ms[|ms| - 1]];
      }
    }
  }

  /** The mention table names, for every mention, exactly the ids whose
      entries include it. */
  lemma {:induction false} OwnerTableSpec(d: seq<IdEntry>)
    ensures WellKept(OwnerTable(d))
    ensures forall m :: OwnersOf(OwnerTable(d), m) == OwnerSet(d, m)
    decreases |d|
  {
    if |d| > 0 {
      var n := |d| - 1;
      OwnerTableSpec(d[..n]);
      AddOwnersSpec(OwnerTable(d[..n]), d[n].matches, d[n].id);
      forall m ensures OwnerSet(d, m) == OwnerSet(d[..n], m) + (if m in d[n].matches then {d[n].id} else {}) {
        assert forall j :: 0 <= j < n ==> d[..n][j] == d[j];
      }
    }
  }

  /** The ids naming `m`, read off the results: those whose last result
      includes `m` among its mentions. */
  ghost function LastOwners(results: seq<Candidate>, m: String): set<String> {
    set j | 0 <= j < |results| && LastOf(results, results[j].id) == Some(j) && m in results[j].matches :: results[j].id
  }

  lemma OwnersFromResults(results: seq<Candidate>, m: String)
    ensures OwnerSet(IdTable(results), m) == LastOwners(results, m)
  {
    var d := IdTable(results);
    IdTableSpec(results);
    forall k | k in LastOwners(results, m) ensures k in OwnerSet(d, m) {
      var j :| 0 <= j < |results| && LastOf(results, results[j].id) == Some(j) && m in results[j].matches && results[j].id == k;
      var i := FindId(d, k).value;
      assert d[i].id == k;
    }
    forall k | k in OwnerSet(d, m) ensures k in LastOwners(results, m) {
      var i :| 0 <= i < |d| && m in d[i].matches && d[i].id == k;
      var j := LastOf(results, k).value;
      assert results[j].id == k;
    }
  }

  // ---------------------------------------------------------------------
  // The ranked table.
  // ---------------------------------------------------------------------

  /** `k in s and k != s`: `s` is a longer mention containing `k`. */
  function Contains(k: String): String -> bool {
    (s: String) => IsSubstring(k, s) && k != s
  }

  function RankEntry(dd: seq<MentionEntry>, i: nat): Ranked
    requires i < |dd|
  {
    var m := dd[i].mention;
    var containing := Filter(MentionKeys(dd), Contains(m));
    Ranked(m, -20 * |containing|,
           if |containing| == 0 then dd[i].ids else dd[i].ids - OwnersOf(dd, containing[|containing| - 1]))
  }

  function RankTable(results: seq<Candidate>): seq<Ranked> {
    var dd := OwnerTable(IdTable(results));
    seq(|dd|, i requires 0 <= i < |dd| => RankEntry(dd, i))
  }

  function Mentions(r: seq<Ranked>): (ms: seq<String>)
    ensures |ms| == |r| && forall i :: 0 <= i < |r| ==> ms[i] == r[i].mention
  {
    seq(|r|, i requires 0 <= i < |r| => r[i].mention)
  }

  /** `get_ranked_matches`. Every mention of a result appears once; its
      score is -20 for every other mention containing it; its URIs are the
      ids naming it, less those naming the last mention (in table order)
      that contains it. */
  function RankedMatches(results: seq<Candidate>): (r: seq<Ranked>)
    ensures forall i, j :: 0 <= i < j < |r| ==> r[i].mention != r[j].mention
    ensures forall m :: m in Mentions(r) <==> LastOwners(results, m) != {}
    ensures forall i :: 0 <= i < |r| ==>
              r[i].score == -20 * |set s | s in Mentions(r) && Contains(r[i].mention)(s)|
    ensures forall i :: 0 <= i < |r| && LastWhere(Mentions(r), Contains(r[i].mention)).None? ==>
              r[i].uris == LastOwners(results, r[i].mention)
    ensures forall i :: 0 <= i < |r| && LastWhere(Mentions(r), Contains(r[i].mention)).Some? ==>
              r[i].uris == LastOwners(results, r[i].mention)
                           - LastOwners(results, r[LastWhere(Mentions(r), Contains(r[i].mention)).value].mention)
  {
    RankTableSpec(results);
    RankTable(results)
  }

  /** The mention table's owners are the owners read off the results. */
  lemma TableOwners(results: seq<Candidate>)
    ensures WellKept(OwnerTable(IdTable(results)))
    ensures forall m :: OwnersOf(OwnerTable(IdTable(results)), m) == LastOwners(results, m)
  {
    OwnerTableSpec(IdTable(results));
    forall m ensures OwnersOf(OwnerTable(IdTable(results)), m) == LastOwners(results, m) {
      OwnersFromResults(results, m);
    }
  }

  lemma RankTableMentions(results: seq<Candidate>)
    ensures var r := RankTable(results);
            && (forall i, j :: 0 <= i < j < |r| ==> r[i].mention != r[j].mention)
            && (forall m :: m in Mentions(r) <==> LastOwners(results, m) != {})
  {
    var dd := OwnerTable(IdTable(results));
    var r := RankTable(results);
    TableOwners(results);
    forall m ensures m in Mentions(r) <==> LastOwners(results, m) != {} {
      if m in Mentions(r) {
        var i :| 0 <= i < |dd| && Mentions(r)[i] == m;
        FindMentionUnique(dd, i);
      }
      if LastOwners(results, m) != {} {
        var i := FindMention(dd, m).value;
        assert Mentions(r)[i] == m;
      }
    }
  }

  lemma RankEntryScore(dd: seq<MentionEntry>, i: nat)
    requires WellKept(dd) && i < |dd|
    ensures RankEntry(dd, i).score == -20 * |set s | s in MentionKeys(dd) && Contains(dd[i].mention)(s)|
  {
    var ks := MentionKeys(dd);
    var m := dd[i].mention;
    assert forall a, b :: 0 <= a < b < |ks| ==> ks[a] != ks[b];
    FilterCardinality(ks, Contains(m));
    assert RankEntry(dd, i).score == -20 * |Filter(ks, Contains(m))|;
    assert (set s | s in MentionKeys(dd) && Contains(dd[i].mention)(s)) == Passing(ks, Contains(m));
  }

  lemma RankEntryUris(dd: seq<MentionEntry>, i: nat)
    requires WellKept(dd) && i < |dd|
    ensures var last := LastWhere(MentionKeys(dd), Contains(dd[i].mention));
            && (last.None? ==> RankEntry(dd, i).uris == OwnersOf(dd, dd[i].mention))
            && (last.Some? ==> RankEntry(dd, i).uris == OwnersOf(dd, dd[i].mention) - OwnersOf(dd, dd[last.value].mention))
  {
    FindMentionUnique(dd, i);
    FilterLastElement(MentionKeys(dd), Contains(dd[i].mention));
  }

  lemma RankTableEntry(results: seq<Candidate>, i: nat)
    requires i < |RankTable(results)|
    ensures var r := RankTable(results);
            && r[i].score == -20 * |set s | s in Mentions(r) && Contains(r[i].mention)(s)|
            && (LastWhere(Mentions(r), Contains(r[i].mention)).None? ==> r[i].uris == LastOwners(results, r[i].mention))
            && (LastWhere(Mentions(r), Contains(r[i].mention)).Some? ==>
                  r[i].uris == LastOwners(results, r[i].mention)
                               - LastOwners(results, r[LastWhere(Mentions(r), Contains(r[i].mention)).value].mention))
  {
    var dd := OwnerTable(IdTable(results));
    var r := RankTable(results);
    TableOwners(results);
    assert Mentions(r) == MentionKeys(dd);
    assert r[i] == RankEntry(dd, i);
    RankEntryScore(dd, i);
    RankEntryUris(dd, i);
  }

  lemma RankTableSpec(results: seq<Candidate>)
    ensures var r := RankTable(results);
            && (forall i, j :: 0 <= i < j < |r| ==> r[i].mention != r[j].mention)
            && (forall m :: m in Mentions(r) <==> LastOwners(results, m) != {})
            && (forall i :: 0 <= i < |r| ==>
                  r[i].score == -20 * |set s | s in Mentions(r) && Contains(r[i].mention)(s)|)
            && (forall i :: 0 <= i < |r| && LastWhere(Mentions(r), Contains(r[i].mention)).None? ==>
                  r[i].uris == LastOwners(results, r[i].mention))
            && (forall i :: 0 <= i < |r| && LastWhere(Mentions(r), Contains(r[i].mention)).Some? ==>
                  r[i].uris == LastOwners(results, r[i].mention)
                               - LastOwners(results, r[LastWhere(Mentions(r), Contains(r[i].mention)).value].mention))
  {
    RankTableMentions(results);
    forall i | 0 <= i < |RankTable(results)| {
      RankTableEntry(results, i);
    }
  }

  // ---------------------------------------------------------------------
  // Match scores.
  // ---------------------------------------------------------------------

  function NamesId(id: String): Ranked -> bool {
    (r: Ranked) => id in r.uris
  }

  /** The score of the last table entry whose URIs include `id`. */
  function LastScore(rd: seq<Ranked>, id: String): (s: Option<int>)
    ensures s.Some? <==> exists i :: 0 <= i < |rd| && id in rd[i].uris
  {
    match LastWhere(rd, NamesId(id))
    case None => None
    case Some(j) => Some(rd[j].score)
  }

  /** `get_match_scores`: every id of an entry's URIs takes that entry's
      score, later entries overwriting earlier ones. */
  function MatchScores(rd: seq<Ranked>): (scores: map<String, int>)
    ensures forall id :: id in scores <==> LastScore(rd, id).Some?
    ensures forall id :: id in scores ==> scores[id] == LastScore(rd, id).value
  {
    if |rd| == 0 then map[]
    else
      var init, last := rd[..|rd| - 1], rd[|rd| - 1];
      assert forall id :: LastScore(rd, id) == if id in last.uris then Some(last.score) else LastScore(init, id) by {
        forall id ensures LastScore(rd, id) == if id in last.uris then Some(last.score) else LastScore(init, id) {
          LastScoreSnoc(rd, id);
        }
      }
      MatchScores(init) + map u | u in last.uris :: last.score
  }

  /** The last entry naming `id` is the final entry when it names `id`, and
      otherwise the last one before it. */
  lemma LastScoreSnoc(rd: seq<Ranked>, id: String)
    requires |rd| > 0
    ensures LastScore(rd, id) == if id in rd[|rd| - 1].uris then Some(rd[|rd| - 1].score) else LastScore(rd[..|rd| - 1], id)
  {
  }

  /** The overlap term of a person: the score of the last ranked entry
      naming it, or 0 when no entry does. */
  function MatchTerm(results: seq<Candidate>, id: String): (s: int)
    ensures s <= 0
  {
    var scores := MatchScores(RankedMatches(results));
    if id in scores then scores[id] else 0
  }

  /** A person named by some ranked entry takes the score of the last such
      entry; a person no entry names takes 0. */
  lemma MatchTermIsLastScore(results: seq<Candidate>, id: String)
    ensures LastScore(RankedMatches(results), id).Some? ==>
              MatchTerm(results, id) == LastScore(RankedMatches(results), id).value
    ensures LastScore(RankedMatches(results), id).None? ==> MatchTerm(results, id) == 0
  {
    var scores := MatchScores(RankedMatches(results));
    assert id in scores <==> LastScore(RankedMatches(results), id).Some?;
  }

  // ---------------------------------------------------------------------
  // Worked examples.
  // ---------------------------------------------------------------------

  /** A lieutenant matched by a short mention and a general matched by it
      and by a longer mention containing it. */
  function TwoPersons(lieutenant: String, general: String, short: String, long: String): seq<Candidate> {
    [Candidate(lieutenant, "", [short], map[]),
     Candidate(general, "", [short, long], map[])]
  }

  lemma TwoPersonsIds(lieutenant: String, general: String, short: String, long: String)
    requires lieutenant != general
    ensures IdTable(TwoPersons(lieutenant, general, short, long))
         == [IdEntry(lieutenant, [short]), IdEntry(general, [short, long])]
  {
    var results := TwoPersons(lieutenant, general, short, long);
    var first := [results[0]];
    assert results[..1] == first;
    var d1 := [IdEntry(lieutenant, [short])];
    assert IdTable(first) == d1 by {
      assert first[..0] == [];
      assert IdTable(first[..0]) == [];
    }
    assert FindId(d1, general) == None;
    assert IdTable(results) == d1 + [IdEntry(general, [short, long])];
  }

  lemma TwoPersonsOwners(d: seq<IdEntry>, lieutenant: String, general: String, short: String, long: String)
    requires short != long
    requires d == [IdEntry(lieutenant, [short]), IdEntry(general, [short, long])]
    ensures OwnerTable(d) == [MentionEntry(short, {lieutenant, general}), MentionEntry(long, {general})]
  {
    assert d[..1] == [d[0]];
    assert [d[0]][..0] == [];
    var dd1 := [MentionEntry(short, {lieutenant})];
    assert OwnerTable(d[..1]) == dd1 by {
      assert [short][..0] == [];
      assert AddOwners([], [short], lieutenant) == AddOwner([], short, lieutenant);
    }
    var dd2 := [MentionEntry(short, {lieutenant, general})];
    assert AddOwners(dd1, [short], general) == dd2 by {
      assert FindMention(dd1, short) == Some(0);
      assert dd1[0].ids + {general} == {lieutenant, general};
      assert AddOwners(dd1, [short][..0], general) == dd1;
    }
    assert AddOwners(dd1, [short, long], general) == AddOwner(dd2, long, general) by {
      assert [short, long][..1] == [short];
    }
    assert FindMention(dd2, long) == None;
  }

  lemma TwoPersonsTable(lieutenant: String, general: String, short: String, long: String)
    requires lieutenant != general && short != long
    ensures OwnerTable(IdTable(TwoPersons(lieutenant, general, short, long)))
         == [MentionEntry(short, {lieutenant, general}), MentionEntry(long, {general})]
  {
    TwoPersonsIds(lieutenant, general, short, long);
    TwoPersonsOwners(IdTable(TwoPersons(lieutenant, general, short, long)), lieutenant, general, short, long);
  }

  lemma TwoPersonsRanked(lieutenant: String, general: String, short: String, long: String)
    requires lieutenant != general && Contains(short)(long) && |short| < |long|
    ensures RankTable(TwoPersons(lieutenant, general, short, long))
         == [Ranked(short, -20, {lieutenant}), Ranked(long, 0, {general})]
  {
    TwoPersonsTable(lieutenant, general, short, long);
    var dd := OwnerTable(IdTable(TwoPersons(lieutenant, general, short, long)));
    NoLongerSubstring(long, short);
    var keys := MentionKeys(dd);
    assert keys == [short, long];
    assert keys[1..] == [long] && keys[1..][1..] == [];
    assert Filter(keys, Contains(short)) == [long];
    assert Filter(keys, Contains(long)) == [];
    assert FindMention(dd, long) == Some(1);
    assert {lieutenant, general} - {general} == {lieutenant};
    assert RankEntry(dd, 0) == Ranked(short, -20, {lieutenant});
    assert RankEntry(dd, 1) == Ranked(long, 0, {general});
  }

  /** The lieutenant, named only by the contained mention, takes its -20;
      the general, named last by the longer mention, takes 0. */
  lemma ContainedMentionExample(lieutenant: String, general: String, short: String, long: String)
    requires lieutenant != general && Contains(short)(long) && |short| < |long|
    ensures RankedMatches(TwoPersons(lieutenant, general, short, long))
         == [Ranked(short, -20, {lieutenant}), Ranked(long, 0, {general})]
    ensures MatchTerm(TwoPersons(lieutenant, general, short, long), lieutenant) == -20
    ensures MatchTerm(TwoPersons(lieutenant, general, short, long), general) == 0
    ensures Mentions(RankedMatches(TwoPersons(lieutenant, general, short, long))) == [short, long]
  {
    ContainedMentionRanked(lieutenant, general, short, long);
    ContainedMentionScores(TwoPersons(lieutenant, general, short, long), lieutenant, general, short, long);
  }

  lemma ContainedMentionRanked(lieutenant: String, general: String, short: String, long: String)
    requires lieutenant != general && Contains(short)(long) && |short| < |long|
    ensures RankedMatches(TwoPersons(lieutenant, general, short, long))
         == [Ranked(short, -20, {lieutenant}), Ranked(long, 0, {general})]
    ensures Mentions(RankedMatches(TwoPersons(lieutenant, general, short, long))) == [short, long]
  {
    TwoPersonsRanked(lieutenant, general, short, long);
    MentionsOfPair(RankTable(TwoPersons(lieutenant, general, short, long)), short, long, {lieutenant}, {general});
  }

  lemma MentionsOfPair(r: seq<Ranked>, short: String, long: String, first: set<String>, second: set<String>)
    requires r == [Ranked(short, -20, first), Ranked(long, 0, second)]
    ensures Mentions(r) == [short, long]
  {
    assert Mentions(r)[0] == short && Mentions(r)[1] == long;
  }

  lemma ContainedMentionScores(results: seq<Candidate>, lieutenant: String, general: String, short: String, long: String)
    requires lieutenant != general
    requires RankedMatches(results) == [Ranked(short, -20, {lieutenant}), Ranked(long, 0, {general})]
    ensures MatchTerm(results, lieutenant) == -20
    ensures MatchTerm(results, general) == 0
  {
    var scores := map[lieutenant := -20, general := 0];
    TwoEntryScores(RankedMatches(results), lieutenant, general, short, long);
    MatchTermOfScores(results, lieutenant, scores);
    MatchTermOfScores(results, general, scores);
  }

  lemma MatchTermOfScores(results: seq<Candidate>, id: String, scores: map<String, int>)
    requires MatchScores(RankedMatches(results)) == scores
    ensures MatchTerm(results, id) == if id in scores then scores[id] else 0
  {
  }

  lemma TwoEntryScores(r: seq<Ranked>, lieutenant: String, general: String, short: String, long: String)
    requires lieutenant != general
    requires r == [Ranked(short, -20, {lieutenant}), Ranked(long, 0, {general})]
    ensures MatchScores(r) == map[lieutenant := -20, general := 0]
  {
    assert r[..1] == [r[0]];
    OneEntryScores(r[..1], lieutenant, short);
  }

  lemma OneEntryScores(r: seq<Ranked>, lieutenant: String, short: String)
    requires r == [Ranked(short, -20, {lieutenant})]
    ensures MatchScores(r) == map[lieutenant := -20]
  {
    assert r[..0] == [];
  }

  /** The documented case: "A. Snellman" the lieutenant and "Kenraalimajuri
      A. Snellman" the general. */
  lemma SnellmanExample()
    ensures var results := TwoPersons("lieutenant", "general", "A. Snellman", "Kenraalimajuri A. Snellman");
            && MatchTerm(results, "lieutenant") == -20
            && MatchTerm(results, "general") == 0
  {
    var short, long := "A. Snellman", "Kenraalimajuri A. Snellman";
    assert long == "Kenraalimajuri " + short;
    assert long[15..15 + |short|] == short;
    IsSubstringAt(short, long, 15);
    ContainedMentionExample("lieutenant", "general", short, long);
  }
}
