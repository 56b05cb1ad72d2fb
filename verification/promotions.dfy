/** Promotion histories of a person candidate and the ranks they make
    current at an event's date. The candidate's `rank` (or `hierarchy`)
    property is a list parallel to its `promotion_date` and
    `latest_promotion_date` properties. Dates are day numbers. */
module Promotions {
  import opened Wrappers
  import opened Text
  import opened Dates
  import opened Candidates

  type Props = map<String, seq<String>>

  /** Not an actual rank; the fuzzy rank searches skip it. */
  const GeneralStaffOfficer: String := "Yleisesikuntaupseeri"

  /** The default half-width, in days, of the fuzzy search window. */
  const DefaultRange: nat := 30

  /** 1946-01-01, the first day after the wars. */
  const AfterWars: Day := Ordinal(1946, 1, 1)

  /** One entry of a promotion history: the rank with its double quotes
      removed, and the two dates, `None` where the date is missing or does
      not parse. */
  datatype Promotion = Promotion(rank: String, date: Option<Day>, latest: Option<Day>)

  /** `s` with every double quote removed. */
  function Unquote(s: String): String {
    RemoveAll(s, {'"'})
  }

  /** `parse_date(props.get(key)[i])` inside the callers' catch-all `try`: a
      missing list and a short list give an unknown date, like a bad one. */
  function DateAt(props: Props, key: String, i: nat): Option<Day> {
    if key in props && i < |props[key]| then ParseDate(props[key][i]) else None
  }

  /** The entries of a candidate's history, one per value of `rankType`. */
  function History(props: Props, rankType: String): (ps: seq<Promotion>)
    requires rankType in props
    ensures |ps| == |props[rankType]|
    ensures forall i :: 0 <= i < |ps| ==>
      ps[i] == Promotion(Unquote(props[rankType][i]), DateAt(props, "promotion_date", i), DateAt(props, "latest_promotion_date", i))
  {
    seq(|props[rankType]|, i requires 0 <= i < |props[rankType]| =>
      Promotion(Unquote(props[rankType][i]), DateAt(props, "promotion_date", i), DateAt(props, "latest_promotion_date", i)))
  }

  /** The ranks of the entries passing `keep`. */
  ghost function RanksWhere(ps: seq<Promotion>, keep: Promotion -> bool): set<String> {
    set i | 0 <= i < |ps| && keep(ps[i]) :: ps[i].rank
  }

  lemma RanksWhereSnoc(ps: seq<Promotion>, p: Promotion, keep: Promotion -> bool)
    ensures RanksWhere(ps + [p], keep) == RanksWhere(ps, keep) + (if keep(p) then {p.rank} else {})
  {
    var qs := ps + [p];
    forall x | x in RanksWhere(qs, keep)
      ensures x in RanksWhere(ps, keep) + (if keep(p) then {p.rank} else {})
    {
      var i :| 0 <= i < |qs| && keep(qs[i]) && qs[i].rank == x;
      if i < |ps| {
        assert qs[i] == ps[i];
      }
    }
    forall x | x in RanksWhere(ps, keep) ensures x in RanksWhere(qs, keep) {
      var i :| 0 <= i < |ps| && keep(ps[i]) && ps[i].rank == x;
      assert qs[i] == ps[i];
    }
    if keep(p) {
      assert qs[|ps|] == p;
    }
  }

  // ---------------------------------------------------------------------
  // get_current_rank
  // ---------------------------------------------------------------------

  /** The promotion took effect on or before the event. */
  predicate Attained(p: Promotion, event: Day) {
    p.date.Some? && p.date.value <= event
  }

  /** Entry `k` is the latest promotion attained by the event, and no later
      entry was attained on the same day. */
  ghost predicate IsCurrent(ps: seq<Promotion>, event: Day, k: int) {
    0 <= k < |ps| && Attained(ps[k], event)
    && (forall j :: 0 <= j < |ps| && Attained(ps[j], event) ==> ps[j].date.value <= ps[k].date.value)
    && (forall j :: k < j < |ps| && Attained(ps[j], event) ==> ps[j].date.value < ps[k].date.value)
  }

  lemma CurrentUnique(ps: seq<Promotion>, event: Day, k1: int, k2: int)
    requires IsCurrent(ps, event, k1) && IsCurrent(ps, event, k2)
    ensures k1 == k2
  {
  }

  /** The loop state of `get_current_rank`: `res` and `latest_date`. */
  datatype Current = Current(rank: Option<String>, latest: Option<Day>)

  function CurrentStep(st: Current, p: Promotion, event: Day): Current {
    match p.date
    case None => st
    case Some(d) =>
      if d > event || (st.latest.Some? && d < st.latest.value) then st
      else Current(Some(p.rank), Some(d))
  }

  function CurrentFold(ps: seq<Promotion>, event: Day): Current
    decreases |ps|
  {
    if |ps| == 0 then Current(None, None)
    else CurrentStep(CurrentFold(ps[..|ps| - 1], event), ps[|ps| - 1], event)
  }

  /** What the loop state holds after the entries `ps`: the latest attained
      date seen so far and the rank of the last entry promoted on it. */
  ghost predicate CurrentInv(ps: seq<Promotion>, event: Day, st: Current) {
    (st.rank.None? <==> st.latest.None?)
    && (st.latest.None? <==> forall i :: 0 <= i < |ps| ==> !Attained(ps[i], event))
    && (st.latest.Some? ==>
          exists k :: IsCurrent(ps, event, k) && st.latest == ps[k].date && st.rank == Some(ps[k].rank))
  }

  /** An entry that does not beat the current one leaves it current. */
  lemma CurrentStays(init: seq<Promotion>, p: Promotion, event: Day, k: int)
    requires IsCurrent(init, event, k)
    requires !(Attained(p, event) && p.date.value >= init[k].date.value)
    ensures IsCurrent(init + [p], event, k)
  {
    var ps := init + [p];
    assert forall i :: 0 <= i < |init| ==> ps[i] == init[i];
  }

  /** An attained entry at least as late as every earlier one becomes
      current. */
  lemma CurrentTakesOver(init: seq<Promotion>, p: Promotion, event: Day)
    requires Attained(p, event)
    requires forall i :: 0 <= i < |init| && Attained(init[i], event) ==> init[i].date.value <= p.date.value
    ensures IsCurrent(init + [p], event, |init|)
  {
    var ps := init + [p];
    assert forall i :: 0 <= i < |init| ==> ps[i] == init[i];
  }

  lemma CurrentStepKeeps(init: seq<Promotion>, p: Promotion, event: Day, st: Current)
    requires CurrentInv(init, event, st)
    ensures CurrentInv(init + [p], event, CurrentStep(st, p, event))
  {
    var ps := init + [p];
    assert forall i :: 0 <= i < |init| ==> ps[i] == init[i];
    assert ps[|init|] == p;
    if st.latest.Some? {
      var k :| IsCurrent(init, event, k) && st.latest == init[k].date && st.rank == Some(init[k].rank);
      if Attained(p, event) && p.date.value >= st.latest.value {
        CurrentTakesOver(init, p, event);
      } else {
        CurrentStays(init, p, event, k);
        assert ps[k] == init[k];
      }
    } else if Attained(p, event) {
      CurrentTakesOver(init, p, event);
    }
  }

  lemma {:induction false} CurrentFoldSpec(ps: seq<Promotion>, event: Day)
    ensures CurrentInv(ps, event, CurrentFold(ps, event))
    decreases |ps|
  {
    if |ps| > 0 {
      var init, p := ps[..|ps| - 1], ps[|ps| - 1];
      CurrentFoldSpec(init, event);
      CurrentStepKeeps(init, p, event, CurrentFold(init, event));
      assert ps == init + [p];
    }
  }

  lemma CurrentFoldExact(ps: seq<Promotion>, event: Day)
    ensures CurrentFold(ps, event).rank.None? <==> forall i :: 0 <= i < |ps| ==> !Attained(ps[i], event)
    ensures forall k :: IsCurrent(ps, event, k) ==> CurrentFold(ps, event).rank == Some(ps[k].rank)
    ensures CurrentFold(ps, event).rank.Some? ==> exists k :: IsCurrent(ps, event, k)
  {
    CurrentFoldSpec(ps, event);
    forall k | IsCurrent(ps, event, k) ensures CurrentFold(ps, event).rank == Some(ps[k].rank) {
      var k' :| IsCurrent(ps, event, k') && CurrentFold(ps, event).rank == Some(ps[k'].rank);
      CurrentUnique(ps, event, k, k');
    }
  }

  /** `get_current_rank`: the rank of the latest promotion on or before the
      event, a later entry winning a tie; `None` when no promotion with a
      known date precedes the event. The `rank` list must exist. */
  function CurrentRank(props: Props, event: Day): (r: Option<String>)
    requires "rank" in props
    ensures r.None? <==> forall i :: 0 <= i < |props["rank"]| ==> !Attained(History(props, "rank")[i], event)
    ensures forall k :: IsCurrent(History(props, "rank"), event, k) ==> r == Some(History(props, "rank")[k].rank)
    ensures r.Some? ==> exists k :: IsCurrent(History(props, "rank"), event, k)
  {
    var ps := History(props, "rank");
    CurrentFoldExact(ps, event);
    CurrentFold(ps, event).rank
  }

  lemma CurrentFoldSnoc(ps: seq<Promotion>, p: Promotion, event: Day)
    ensures CurrentFold(ps + [p], event) == CurrentStep(CurrentFold(ps, event), p, event)
  {
    assert (ps + [p])[..|ps|] == ps;
  }

  /** The shape of the `get_current_rank` doctests: three promotions on
      increasing days; an event between the second and the third gives the
      second rank, one on or after the third gives the third, one before the
      first gives none. */
  lemma CurrentRankExample(r1: String, r2: String, r3: String, d1: Day, d2: Day, d3: Day, event: Day)
    requires d1 < d2 < d3
    ensures d2 <= event < d3 ==> CurrentFold([Promotion(r1, Some(d1), None), Promotion(r2, Some(d2), None),
      Promotion(r3, Some(d3), None)], event).rank == Some(r2)
    ensures d3 <= event ==> CurrentFold([Promotion(r1, Some(d1), None), Promotion(r2, Some(d2), None),
      Promotion(r3, Some(d3), None)], event).rank == Some(r3)
    ensures event < d1 ==> CurrentFold([Promotion(r1, Some(d1), None), Promotion(r2, Some(d2), None),
      Promotion(r3, Some(d3), None)], event).rank == None
  {
    var p1, p2, p3 := Promotion(r1, Some(d1), None), Promotion(r2, Some(d2), None), Promotion(r3, Some(d3), None);
    CurrentFoldSnoc([], p1, event);
    CurrentFoldSnoc([p1], p2, event);
    CurrentFoldSnoc([p1, p2], p3, event);
    assert [] + [p1] == [p1] && [p1] + [p2] == [p1, p2] && [p1, p2] + [p3] == [p1, p2, p3];
  }

  // ---------------------------------------------------------------------
  // get_fuzzy_current_ranks
  // ---------------------------------------------------------------------

  /** Not skipped by the loop: an actual rank, both dates known, promoted no
      later than `range` days after the event. */
  predicate Usable(p: Promotion, event: Day, range: nat) {
    p.rank != GeneralStaffOfficer && p.date.Some? && p.latest.Some? && p.date.value <= event + range
  }

  /** Still held within `range` days before the event. */
  predicate InWindow(p: Promotion, event: Day, range: nat) {
    Usable(p, event, range) && p.latest.value > event - range
  }

  /** Superseded, by its latest promotion date, before the window opens. */
  predicate Earlier(p: Promotion, event: Day, range: nat) {
    Usable(p, event, range) && p.latest.value <= event - range
  }

  function WindowTest(event: Day, range: nat): Promotion -> bool {
    (p: Promotion) => InWindow(p, event, range)
  }

  /** Entry `i` is a fuzzy current rank: held inside the window, or an
      earlier rank whose latest promotion date is no earlier than the
      promotion date of any earlier rank. */
  ghost predicate Kept(ps: seq<Promotion>, event: Day, range: nat, i: int) {
    0 <= i < |ps| &&
    (InWindow(ps[i], event, range) ||
     (Earlier(ps[i], event, range) &&
      forall j :: 0 <= j < |ps| && Earlier(ps[j], event, range) ==> ps[j].date.value <= ps[i].latest.value))
  }

  ghost function FuzzyReference(ps: seq<Promotion>, event: Day, range: nat): set<String> {
    set i | 0 <= i < |ps| && Kept(ps, event, range, i) :: ps[i].rank
  }

  /** The loop state: `res`, `latest_date` and `potential_lowest_ranks`. */
  datatype Fuzzy = Fuzzy(res: set<String>, latest: Option<Day>, potential: set<(String, Day)>)

  /** The candidate ranks whose latest promotion date is not before `m`. */
  function AtLeast(s: set<(String, Day)>, m: Day): set<(String, Day)> {
    set x | x in s && x.1 >= m
  }

  function FuzzyStep(st: Fuzzy, p: Promotion, event: Day, range: nat): Fuzzy {
    if p.rank == GeneralStaffOfficer || p.date.None? || p.latest.None? then st
    else
      var pd, lpd := p.date.value, p.latest.value;
      if pd > event + range then st
      else if lpd > event - range then st.(res := st.res + {p.rank})
      else if st.latest.None? || pd > st.latest.value then
        st.(latest := Some(pd), potential := AtLeast(st.potential + {(p.rank, lpd)}, pd))
      else if lpd >= st.latest.value then st.(potential := st.potential + {(p.rank, lpd)})
      else st
  }

  function FuzzyFold(ps: seq<Promotion>, event: Day, range: nat): Fuzzy
    decreases |ps|
  {
    if |ps| == 0 then Fuzzy({}, None, {})
    else FuzzyStep(FuzzyFold(ps[..|ps| - 1], event, range), ps[|ps| - 1], event, range)
  }

  /** The rank and latest promotion date of the earlier entries whose latest
      promotion date is at least `m`. */
  ghost function EarlierAbove(ps: seq<Promotion>, event: Day, range: nat, m: Day): set<(String, Day)> {
    set i | 0 <= i < |ps| && Earlier(ps[i], event, range) && ps[i].latest.value >= m
      :: (ps[i].rank, ps[i].latest.value)
  }

  /** `m` is the latest promotion date among the earlier entries. */
  ghost predicate LatestEarlier(ps: seq<Promotion>, event: Day, range: nat, m: Day) {
    (exists i :: 0 <= i < |ps| && Earlier(ps[i], event, range) && ps[i].date.value == m)
    && (forall i :: 0 <= i < |ps| && Earlier(ps[i], event, range) ==> ps[i].date.value <= m)
  }

  lemma EarlierAboveSnoc(ps: seq<Promotion>, p: Promotion, event: Day, range: nat, m: Day)
    ensures EarlierAbove(ps + [p], event, range, m) == EarlierAbove(ps, event, range, m) +
      (if Earlier(p, event, range) && p.latest.value >= m then {(p.rank, p.latest.value)} else {})
  {
    var qs := ps + [p];
    forall x | x in EarlierAbove(qs, event, range, m)
      ensures x in EarlierAbove(ps, event, range, m) +
        (if Earlier(p, event, range) && p.latest.value >= m then {(p.rank, p.latest.value)} else {})
    {
      var i :| 0 <= i < |qs| && Earlier(qs[i], event, range) && qs[i].latest.value >= m
        && x == (qs[i].rank, qs[i].latest.value);
      if i < |ps| {
        assert qs[i] == ps[i];
      }
    }
    forall x | x in EarlierAbove(ps, event, range, m) ensures x in EarlierAbove(qs, event, range, m) {
      var i :| 0 <= i < |ps| && Earlier(ps[i], event, range) && ps[i].latest.value >= m
        && x == (ps[i].rank, ps[i].latest.value);
      assert qs[i] == ps[i];
    }
    if Earlier(p, event, range) && p.latest.value >= m {
      assert qs[|ps|] == p;
    }
  }

  lemma EarlierAboveRaise(ps: seq<Promotion>, event: Day, range: nat, m0: Day, m1: Day)
    requires m0 <= m1
    ensures AtLeast(EarlierAbove(ps, event, range, m0), m1) == EarlierAbove(ps, event, range, m1)
  {
  }

  lemma EarlierAboveEmpty(ps: seq<Promotion>, event: Day, range: nat, m: Day)
    requires forall i :: 0 <= i < |ps| ==> !Earlier(ps[i], event, range)
    ensures EarlierAbove(ps, event, range, m) == {}
  {
  }

  /** What the loop state holds after the entries `ps`: the window ranks,
      the latest promotion date of the earlier ranks, and those earlier ranks
      whose latest promotion date reaches it. */
  ghost predicate FuzzyInv(ps: seq<Promotion>, event: Day, range: nat, st: Fuzzy) {
    st.res == RanksWhere(ps, WindowTest(event, range))
    && (st.latest.None? <==> forall i :: 0 <= i < |ps| ==> !Earlier(ps[i], event, range))
    && (st.latest.None? ==> st.potential == {})
    && (st.latest.Some? ==> LatestEarlier(ps, event, range, st.latest.value))
    && (st.latest.Some? ==> st.potential == EarlierAbove(ps, event, range, st.latest.value))
  }

  /** An earlier entry promoted later than every earlier one so far. */
  lemma FuzzyRaises(init: seq<Promotion>, p: Promotion, event: Day, range: nat, st: Fuzzy)
    requires FuzzyInv(init, event, range, st)
    requires Earlier(p, event, range)
    requires st.latest.None? || p.date.value > st.latest.value
    ensures FuzzyInv(init + [p], event, range, FuzzyStep(st, p, event, range))
  {
    var ps := init + [p];
    var pd, lpd := p.date.value, p.latest.value;
    assert forall i :: 0 <= i < |init| ==> ps[i] == init[i];
    assert ps[|init|] == p;
    RanksWhereSnoc(init, p, WindowTest(event, range));
    EarlierAboveSnoc(init, p, event, range, pd);
    if st.latest.None? {
      EarlierAboveEmpty(init, event, range, pd);
    } else {
      EarlierAboveRaise(init, event, range, st.latest.value, pd);
    }
    assert AtLeast(st.potential + {(p.rank, lpd)}, pd)
        == AtLeast(st.potential, pd) + (if lpd >= pd then {(p.rank, lpd)} else {});
    assert LatestEarlier(ps, event, range, pd);
  }

  /** Any other entry leaves the latest earlier promotion date alone. */
  lemma FuzzyKeepsLatest(init: seq<Promotion>, p: Promotion, event: Day, range: nat, st: Fuzzy)
    requires FuzzyInv(init, event, range, st)
    requires !(Earlier(p, event, range) && (st.latest.None? || p.date.value > st.latest.value))
    ensures FuzzyInv(init + [p], event, range, FuzzyStep(st, p, event, range))
  {
    var ps := init + [p];
    assert forall i :: 0 <= i < |init| ==> ps[i] == init[i];
    assert ps[|init|] == p;
    RanksWhereSnoc(init, p, WindowTest(event, range));
    if st.latest.Some? {
      var m := st.latest.value;
      EarlierAboveSnoc(init, p, event, range, m);
      var i0 :| 0 <= i0 < |init| && Earlier(init[i0], event, range) && init[i0].date.value == m;
      assert ps[i0] == init[i0];
      assert LatestEarlier(ps, event, range, m);
    }
  }

  lemma {:induction false} FuzzyFoldSpec(ps: seq<Promotion>, event: Day, range: nat)
    ensures FuzzyInv(ps, event, range, FuzzyFold(ps, event, range))
    decreases |ps|
  {
    if |ps| > 0 {
      var init, p := ps[..|ps| - 1], ps[|ps| - 1];
      assert ps == init + [p];
      FuzzyFoldSpec(init, event, range);
      var st := FuzzyFold(init, event, range);
      if Earlier(p, event, range) && (st.latest.None? || p.date.value > st.latest.value) {
        FuzzyRaises(init, p, event, range, st);
      } else {
        FuzzyKeepsLatest(init, p, event, range, st);
      }
    }
  }

  /** `res` joined with the ranks of `potential_lowest_ranks`. */
  function FuzzyResult(st: Fuzzy): set<String> {
    st.res + set x | x in st.potential :: x.0
  }

  lemma FuzzyClosedForm(ps: seq<Promotion>, event: Day, range: nat)
    ensures FuzzyResult(FuzzyFold(ps, event, range)) == FuzzyReference(ps, event, range)
  {
    FuzzyFoldSpec(ps, event, range);
    var st := FuzzyFold(ps, event, range);
    var reference := FuzzyReference(ps, event, range);
    forall x | x in FuzzyResult(st) ensures x in reference {
      if x in st.res {
        var i :| 0 <= i < |ps| && WindowTest(event, range)(ps[i]) && ps[i].rank == x;
        assert Kept(ps, event, range, i);
      } else {
        var y :| y in st.potential && y.0 == x;
        var m := st.latest.value;
        var i :| 0 <= i < |ps| && Earlier(ps[i], event, range) && ps[i].latest.value >= m
          && y == (ps[i].rank, ps[i].latest.value);
        assert Kept(ps, event, range, i);
      }
    }
    forall x | x in reference ensures x in FuzzyResult(st) {
      var i :| 0 <= i < |ps| && Kept(ps, event, range, i) && ps[i].rank == x;
      if InWindow(ps[i], event, range) {
        assert WindowTest(event, range)(ps[i]);
      } else {
        var m := st.latest.value;
        var i0 :| 0 <= i0 < |ps| && Earlier(ps[i0], event, range) && ps[i0].date.value == m;
        assert m <= ps[i].latest.value;
        assert (ps[i].rank, ps[i].latest.value) in st.potential;
      }
    }
  }

  /** `get_fuzzy_current_ranks` (the current variant): the ranks held inside
      `range` days of the event, plus the earlier ranks whose latest
      promotion date is no earlier than any earlier rank's promotion date.
      The `rankType` list must exist. */
  function FuzzyCurrentRanks(props: Props, rankType: String, event: Day, range: nat): (r: set<String>)
    requires rankType in props
    ensures r == FuzzyReference(History(props, rankType), event, range)
  {
    var ps := History(props, rankType);
    FuzzyClosedForm(ps, event, range);
    FuzzyResult(FuzzyFold(ps, event, range))
  }

  /** No returned rank comes only from entries promoted later than `range`
      days after the event, with an unknown date, or that are not actual
      ranks. */
  lemma FuzzyOnlyUsable(props: Props, rankType: String, event: Day, range: nat, x: String)
    requires rankType in props
    requires x in FuzzyCurrentRanks(props, rankType, event, range)
    ensures x != GeneralStaffOfficer
    ensures exists i :: (0 <= i < |props[rankType]| && Usable(History(props, rankType)[i], event, range)
      && History(props, rankType)[i].rank == x)
  {
    var ps := History(props, rankType);
    var i :| 0 <= i < |ps| && Kept(ps, event, range, i) && ps[i].rank == x;
    assert Usable(ps[i], event, range);
  }

  /** Every rank still held within the window is returned. */
  lemma FuzzyKeepsWindow(props: Props, rankType: String, event: Day, range: nat, i: nat)
    requires rankType in props && i < |props[rankType]|
    requires InWindow(History(props, rankType)[i], event, range)
    ensures History(props, rankType)[i].rank in FuzzyCurrentRanks(props, rankType, event, range)
  {
    assert Kept(History(props, rankType), event, range, i);
  }

  // ---------------------------------------------------------------------
  // Legacy get_fuzzy_current_ranks
  // ---------------------------------------------------------------------

  /** The legacy search reads only the promotion date. */
  predicate LegacyUsable(p: Promotion, event: Day, range: nat) {
    p.rank != GeneralStaffOfficer && p.date.Some? && p.date.value <= event + range
  }

  predicate LegacyInWindow(p: Promotion, event: Day, range: nat) {
    LegacyUsable(p, event, range) && p.date.value > event - range
  }

  predicate LegacyEarlier(p: Promotion, event: Day, range: nat) {
    LegacyUsable(p, event, range) && p.date.value <= event - range
  }

  function LegacyWindowTest(event: Day, range: nat): Promotion -> bool {
    (p: Promotion) => LegacyInWindow(p, event, range)
  }

  /** Entry `k` is the latest promotion before the window, and no earlier
      entry was promoted on the same day. */
  ghost predicate IsLowest(ps: seq<Promotion>, event: Day, range: nat, k: int) {
    0 <= k < |ps| && LegacyEarlier(ps[k], event, range)
    && (forall j :: 0 <= j < |ps| && LegacyEarlier(ps[j], event, range) ==> ps[j].date.value <= ps[k].date.value)
    && (forall j :: 0 <= j < k && LegacyEarlier(ps[j], event, range) ==> ps[j].date.value < ps[k].date.value)
  }

  lemma LowestUnique(ps: seq<Promotion>, event: Day, range: nat, k1: int, k2: int)
    requires IsLowest(ps, event, range, k1) && IsLowest(ps, event, range, k2)
    ensures k1 == k2
  {
  }

  /** The loop state: `res`, `latest_date` and `lowest_rank`. */
  datatype Lowest = Lowest(res: set<String>, latest: Option<Day>, lowest: Option<String>)

  function LegacyStep(st: Lowest, p: Promotion, event: Day, range: nat): Lowest {
    if p.rank == GeneralStaffOfficer || p.date.None? then st
    else
      var pd := p.date.value;
      if pd > event + range then st
      else if pd > event - range then st.(res := st.res + {p.rank})
      else if st.latest.None? || st.latest.value < pd then st.(latest := Some(pd), lowest := Some(p.rank))
      else st
  }

  function LegacyFold(ps: seq<Promotion>, event: Day, range: nat): Lowest
    decreases |ps|
  {
    if |ps| == 0 then Lowest({}, None, None)
    else LegacyStep(LegacyFold(ps[..|ps| - 1], event, range), ps[|ps| - 1], event, range)
  }

  lemma {:induction false} LegacyFoldSpec(ps: seq<Promotion>, event: Day, range: nat)
    ensures LegacyFold(ps, event, range).res == RanksWhere(ps, LegacyWindowTest(event, range))
    ensures LegacyFold(ps, event, range).lowest.None? <==> LegacyFold(ps, event, range).latest.None?
    ensures LegacyFold(ps, event, range).latest.None? <==>
      forall i :: 0 <= i < |ps| ==> !LegacyEarlier(ps[i], event, range)
    ensures LegacyFold(ps, event, range).latest.Some? ==>
      exists k :: (IsLowest(ps, event, range, k) && LegacyFold(ps, event, range).latest == ps[k].date
        && LegacyFold(ps, event, range).lowest == Some(ps[k].rank))
    decreases |ps|
  {
    if |ps| > 0 {
      var init, p := ps[..|ps| - 1], ps[|ps| - 1];
      assert ps == init + [p];
      LegacyFoldSpec(init, event, range);
      var st := LegacyFold(init, event, range);
      RanksWhereSnoc(init, p, LegacyWindowTest(event, range));
      assert forall i :: 0 <= i < |init| ==> init[i] == ps[i];
      if st.latest.Some? {
        var k :| IsLowest(init, event, range, k) && st.latest == init[k].date && st.lowest == Some(init[k].rank);
        if LegacyEarlier(p, event, range) && p.date.value > st.latest.value {
          assert IsLowest(ps, event, range, |ps| - 1);
        } else {
          assert IsLowest(ps, event, range, k);
        }
      } else if LegacyEarlier(p, event, range) {
        assert IsLowest(ps, event, range, |ps| - 1);
      }
    }
  }

  /** Entry `i` is a legacy fuzzy current rank: promoted inside the window,
      or the non-empty rank of the latest promotion before it. */
  ghost predicate LegacyKept(ps: seq<Promotion>, event: Day, range: nat, i: int) {
    0 <= i < |ps| &&
    (LegacyInWindow(ps[i], event, range) || (IsLowest(ps, event, range, i) && ps[i].rank != ""))
  }

  ghost function LegacyReference(ps: seq<Promotion>, event: Day, range: nat): set<String> {
    set i | 0 <= i < |ps| && LegacyKept(ps, event, range, i) :: ps[i].rank
  }

  /** `res`, plus `lowest_rank` when it is truthy. */
  function LegacyResult(st: Lowest): set<String> {
    if st.lowest.Some? && st.lowest.value != "" then st.res + {st.lowest.value} else st.res
  }

  lemma LegacyClosedForm(ps: seq<Promotion>, event: Day, range: nat)
    ensures LegacyResult(LegacyFold(ps, event, range)) == LegacyReference(ps, event, range)
  {
    LegacyFoldSpec(ps, event, range);
    var st := LegacyFold(ps, event, range);
    var reference := LegacyReference(ps, event, range);
    forall x | x in LegacyResult(st) ensures x in reference {
      if x in st.res {
        var i :| 0 <= i < |ps| && LegacyWindowTest(event, range)(ps[i]) && ps[i].rank == x;
        assert LegacyKept(ps, event, range, i);
      } else {
        var k :| IsLowest(ps, event, range, k) && st.lowest == Some(ps[k].rank);
        assert LegacyKept(ps, event, range, k);
      }
    }
    forall x | x in reference ensures x in LegacyResult(st) {
      var i :| 0 <= i < |ps| && LegacyKept(ps, event, range, i) && ps[i].rank == x;
      if LegacyInWindow(ps[i], event, range) {
        assert LegacyWindowTest(event, range)(ps[i]);
      } else {
        var k :| IsLowest(ps, event, range, k) && st.lowest == Some(ps[k].rank);
        LowestUnique(ps, event, range, i, k);
      }
    }
  }

  /** `get_fuzzy_current_ranks` (the legacy variant): the ranks promoted
      within `range` days either side of the event (after the lower bound,
      up to and including the upper one), plus the rank of the latest
      promotion on or before the lower bound, the first entry winning a
      tie. */
  function LegacyFuzzyCurrentRanks(props: Props, rankType: String, event: Day, range: nat): (r: set<String>)
    requires rankType in props
    ensures r == LegacyReference(History(props, rankType), event, range)
  {
    var ps := History(props, rankType);
    LegacyClosedForm(ps, event, range);
    LegacyResult(LegacyFold(ps, event, range))
  }

  /** `Yleisesikuntaupseeri` is never a current rank. */
  lemma LegacyFuzzyExcludes(props: Props, rankType: String, event: Day, range: nat)
    requires rankType in props
    ensures GeneralStaffOfficer !in LegacyFuzzyCurrentRanks(props, rankType, event, range)
  {
    var ps := History(props, rankType);
    forall i | 0 <= i < |ps| && LegacyKept(ps, event, range, i) ensures ps[i].rank != GeneralStaffOfficer {
      assert LegacyUsable(ps[i], event, range);
    }
  }

  /** The first legacy doctest: with one promotion before the window, one
      inside it and one after it, the result is the first two ranks. */
  lemma LegacyFuzzyExample(r1: String, r2: String, r3: String, d1: Day, d2: Day, d3: Day, event: Day)
    requires r1 != "" && r1 != GeneralStaffOfficer && r2 != GeneralStaffOfficer
    requires d1 <= event - DefaultRange < d2 <= event + DefaultRange < d3
    ensures LegacyResult(LegacyFold([Promotion(r1, Some(d1), None), Promotion(r2, Some(d2), None),
      Promotion(r3, Some(d3), None)], event, DefaultRange)) == {r1, r2}
  {
    var ps := [Promotion(r1, Some(d1), None), Promotion(r2, Some(d2), None), Promotion(r3, Some(d3), None)];
    assert ps[..1] == [ps[0]] && ps[..1][..0] == [];
    assert ps[..2][..1] == ps[..1];
    assert LegacyFold(ps[..1], event, DefaultRange) == Lowest({}, Some(d1), Some(r1));
    assert LegacyFold(ps[..2], event, DefaultRange) == Lowest({r2}, Some(d1), Some(r1));
    assert LegacyFold(ps, event, DefaultRange) == Lowest({r2}, Some(d1), Some(r1));
  }

  // ---------------------------------------------------------------------
  // filter_promotions_after_wars and get_ranks_with_unknown_date
  // ---------------------------------------------------------------------

  /** The promotion date is unknown, or falls before 1946. */
  predicate BeforeWarsEnded(p: Promotion) {
    p.date.None? || p.date.value < AfterWars
  }

  function PreWarTest(): Promotion -> bool {
    (p: Promotion) => BeforeWarsEnded(p)
  }

  function AfterWarsFold(ps: seq<Promotion>): (r: set<String>)
    ensures r == RanksWhere(ps, PreWarTest())
    decreases |ps|
  {
    if |ps| == 0 then {}
    else
      var init, p := ps[..|ps| - 1], ps[|ps| - 1];
      assert ps == init + [p];
      RanksWhereSnoc(init, p, PreWarTest());
      var rest := AfterWarsFold(init);
      if BeforeWarsEnded(p) then rest + {p.rank} else rest
  }

  /** Legacy `filter_promotions_after_wars`: the quote-stripped ranks whose
      promotion date is unknown or earlier than 1946-01-01. */
  function PromotionsBeforeWarsEnded(props: Props, rankType: String): (r: set<String>)
    requires rankType in props
    ensures forall x :: x in r <==> exists i :: (0 <= i < |props[rankType]|
      && BeforeWarsEnded(History(props, rankType)[i]) && Unquote(props[rankType][i]) == x)
  {
    var ps := History(props, rankType);
    var r := AfterWarsFold(ps);
    assert forall i :: 0 <= i < |ps| ==> ps[i].rank == Unquote(props[rankType][i]);
    r
  }

  /** The promotion date is the `NA` placeholder. */
  predicate NotAvailable(raw: String) {
    Unquote(raw) == "NA"
  }

  /** The ranks from position `i` on whose promotion date is `NA`. */
  function UnknownFrom(ranks: seq<String>, dates: seq<String>, i: nat): (r: seq<String>)
    requires i <= |ranks| <= |dates|
    ensures forall x :: x in r <==> exists j :: i <= j < |ranks| && NotAvailable(dates[j]) && Unquote(ranks[j]) == x
    ensures IsSubsequence(r, Unquoted(ranks)[i..])
    decreases |ranks| - i
  {
    if i == |ranks| then []
    else
      var rest := UnknownFrom(ranks, dates, i + 1);
      var all := Unquoted(ranks);
      assert all[i..] == [all[i]] + all[i + 1..];
      SubsequenceCons(all[i], rest, all[i + 1..]);
      if NotAvailable(dates[i]) then [Unquote(ranks[i])] + rest else rest
  }

  function Unquoted(ranks: seq<String>): (r: seq<String>)
    ensures |r| == |ranks| && forall i :: 0 <= i < |ranks| ==> r[i] == Unquote(ranks[i])
  {
    seq(|ranks|, i requires 0 <= i < |ranks| => Unquote(ranks[i]))
  }

  /** `get_ranks_with_unknown_date`: the quote-stripped ranks whose promotion
      date is `NA`, in order. Indexing `promotion_date` is not guarded, so a
      non-empty rank list needs a promotion date for every rank. */
  function UnknownDateRanks(props: Props, rankType: String): (r: seq<String>)
    requires rankType in props
    requires |props[rankType]| == 0 || ("promotion_date" in props && |props["promotion_date"]| >= |props[rankType]|)
    ensures forall x :: x in r <==> exists i :: (0 <= i < |props[rankType]|
      && NotAvailable(props["promotion_date"][i]) && Unquote(props[rankType][i]) == x)
    ensures IsSubsequence(r, Unquoted(props[rankType]))
  {
    if |props[rankType]| == 0 then
      assert Unquoted(props[rankType])[0..] == Unquoted(props[rankType]);
      SubsequenceRefl<String>([]);
      []
    else
      var ranks := props[rankType];
      assert Unquoted(ranks)[0..] == Unquoted(ranks);
      UnknownFrom(ranks, props["promotion_date"], 0)
  }

  /** A rank with an `NA` promotion date has an unknown date in the history,
      so it is never current by that entry. */
  lemma UnknownDateNeverAttained(props: Props, rankType: String, i: nat)
    requires rankType in props && i < |props[rankType]|
    requires "promotion_date" in props && i < |props["promotion_date"]|
    requires NotAvailable(props["promotion_date"][i])
    ensures History(props, rankType)[i].date.None?
    ensures forall event :: !Attained(History(props, rankType)[i], event)
  {
    NotAvailableIsUnknown(props["promotion_date"][i]);
  }
}
