/** Duplicate removal over matching-service results
    (`Arpa._remove_duplicates`, identical in the current and the legacy
    client). Two entries are duplicates when their labels agree: exactly in
    the arbitrary mode, after lower-casing in the prioritised mode. */
module Dedup {
  import opened Wrappers
  import opened Text
  import opened Candidates

  /** The property holding an entry's classes. */
  const TypeProp: String := "type"

  /** How `_remove_duplicates` treats duplicates: not at all, keep the first
      per label, or prefer the classes of a priority list (already wrapped
      in angle brackets). */
  datatype DuplicatePolicy = Disabled | Arbitrary | Prioritised(prio: seq<String>)

  /** An entry is kept by the first-wins mode only at the first position its
      exact label occurs. */
  ghost predicate FirstOfName(xs: seq<Candidate>, k: int)
    requires 0 <= k < |xs|
  {
    forall j :: 0 <= j < k ==> xs[j].name != xs[k].name
  }

  /** `c` occurs in `xs` at the first position of its exact label. */
  ghost predicate AtFirstOfName(xs: seq<Candidate>, c: Candidate) {
    exists k :: 0 <= k < |xs| && xs[k] == c && FirstOfName(xs, k)
  }

  // ---------------------------------------------------------------------
  // Arbitrary mode: the list comprehension that adds each label to a set
  // as it goes.
  // ---------------------------------------------------------------------

  /** Keep each entry whose exact label is neither in `seen` nor carried by
      an earlier entry. */
  function KeepFirstFrom(xs: seq<Candidate>, seen: set<String>): (r: seq<Candidate>)
    ensures forall i :: 0 <= i < |r| ==> r[i].name !in seen
    ensures forall i, j :: 0 <= i < j < |r| ==> r[i].name != r[j].name
    decreases |xs|
  {
    if |xs| == 0 then []
    else if xs[0].name in seen then KeepFirstFrom(xs[1..], seen)
    else [xs[0]] + KeepFirstFrom(xs[1..], seen + {xs[0].name})
  }

  lemma {:induction false} KeepFirstFromSubsequence(xs: seq<Candidate>, seen: set<String>)
    ensures IsSubsequence(KeepFirstFrom(xs, seen), xs)
    decreases |xs|
  {
    if |xs| > 0 {
      var seen' := if xs[0].name in seen then seen else seen + {xs[0].name};
      KeepFirstFromSubsequence(xs[1..], seen');
      SubsequenceCons(xs[0], KeepFirstFrom(xs[1..], seen'), xs[1..]);
      assert xs == [xs[0]] + xs[1..];
    }
  }

  /** No label is lost: each input label is kept or was already seen. */
  lemma {:induction false} KeepFirstFromLabels(xs: seq<Candidate>, seen: set<String>)
    ensures Labels(KeepFirstFrom(xs, seen)) + seen == Labels(xs) + seen
    decreases |xs|
  {
    if |xs| > 0 {
      var x := xs[0];
      var seen' := if x.name in seen then seen else seen + {x.name};
      var rest := KeepFirstFrom(xs[1..], seen');
      KeepFirstFromLabels(xs[1..], seen');
      assert Labels(xs) == {x.name} + Labels(xs[1..]) by {
        assert forall y :: y in xs <==> y == x || y in xs[1..];
      }
      if x.name !in seen {
        assert Labels([x] + rest) == {x.name} + Labels(rest) by {
          assert forall y :: y in [x] + rest <==> y == x || y in rest;
        }
      }
    }
  }

  /** Each kept entry sits at the first position its label occurs. */
  lemma {:induction false} KeepFirstFromFirsts(xs: seq<Candidate>, seen: set<String>)
    ensures forall i :: 0 <= i < |KeepFirstFrom(xs, seen)| ==>
              AtFirstOfName(xs, KeepFirstFrom(xs, seen)[i])
    decreases |xs|
  {
    if |xs| > 0 {
      var x := xs[0];
      var seen' := if x.name in seen then seen else seen + {x.name};
      var rest := KeepFirstFrom(xs[1..], seen');
      var r := KeepFirstFrom(xs, seen);
      KeepFirstFromFirsts(xs[1..], seen');
      forall i | 0 <= i < |r|
        ensures AtFirstOfName(xs, r[i])
      {
        if x.name !in seen && i == 0 {
          assert xs[0] == r[i] && FirstOfName(xs, 0);
        } else {
          assert AtFirstOfName(xs[1..], rest[if x.name in seen then i else i - 1]);
          var i' := if x.name in seen then i else i - 1;
          assert r[i] == rest[i'];
          var k' :| 0 <= k' < |xs[1..]| && xs[1..][k'] == rest[i'] && FirstOfName(xs[1..], k');
          assert xs[k' + 1] == r[i];
          assert FirstOfName(xs, k' + 1) by {
            forall j | 0 <= j < k' + 1 ensures xs[j].name != xs[k' + 1].name {
              if j > 0 {
                assert xs[j] == xs[1..][j - 1];
              }
            }
          }
        }
      }
    } else {
      assert KeepFirstFrom(xs, seen) == [];
    }
  }

  /** `_remove_duplicates` with `remove_duplicates=True`. */
  function RemoveArbitrary(xs: seq<Candidate>): (r: seq<Candidate>)
    ensures IsSubsequence(r, xs)
    ensures forall i, j :: 0 <= i < j < |r| ==> r[i].name != r[j].name
    ensures Labels(r) == Labels(xs)
    ensures forall i :: 0 <= i < |r| ==>
              AtFirstOfName(xs, r[i])
  {
    KeepFirstFromSubsequence(xs, {});
    KeepFirstFromLabels(xs, {});
    KeepFirstFromFirsts(xs, {});
    KeepFirstFrom(xs, {})
  }

  /** Reference definition of first-wins: read the input back to front, and
      keep the last entry exactly when no earlier entry has its label. */
  ghost function KeepFirsts(xs: seq<Candidate>): seq<Candidate> {
    if |xs| == 0 then []
    else
      var init := xs[..|xs| - 1];
      KeepFirsts(init) + (if xs[|xs| - 1].name in Labels(init) then [] else [xs[|xs| - 1]])
  }

  lemma {:induction false} KeepFirstFromSnoc(a: seq<Candidate>, x: Candidate, seen: set<String>)
    ensures KeepFirstFrom(a + [x], seen)
            == KeepFirstFrom(a, seen) + (if x.name in seen + Labels(a) then [] else [x])
    decreases |a|
  {
    if |a| == 0 {
      assert a + [x] == [x];
      assert [x][1..] == [];
    } else {
      var y := a[0];
      var seen' := if y.name in seen then seen else seen + {y.name};
      assert (a + [x])[0] == y;
      assert (a + [x])[1..] == a[1..] + [x];
      KeepFirstFromSnoc(a[1..], x, seen');
      assert Labels(a) == {y.name} + Labels(a[1..]) by {
        assert forall z :: z in a <==> z == y || z in a[1..];
      }
      assert seen' + Labels(a[1..]) == seen + Labels(a);
    }
  }

  /** The seen-set comprehension agrees with the reference on every input. */
  lemma {:induction false} RemoveArbitraryIsKeepFirsts(xs: seq<Candidate>)
    ensures RemoveArbitrary(xs) == KeepFirsts(xs)
    decreases |xs|
  {
    if |xs| > 0 {
      var init := xs[..|xs| - 1];
      RemoveArbitraryIsKeepFirsts(init);
      assert xs == init + [xs[|xs| - 1]];
      KeepFirstFromSnoc(init, xs[|xs| - 1], {});
    }
  }

  // ---------------------------------------------------------------------
  // Prioritised mode.
  // ---------------------------------------------------------------------

  function Types(c: Candidate): seq<String> {
    Prop(c, TypeProp)
  }

  function BestIndexFrom(types: seq<String>, prio: seq<String>, k: nat): (r: Option<nat>)
    requires k <= |prio|
    ensures r.Some? ==> k <= r.value < |prio| && prio[r.value] in types
    ensures r.Some? ==> forall j :: k <= j < r.value ==> prio[j] !in types
    ensures r.None? ==> forall j :: k <= j < |prio| ==> prio[j] !in types
    decreases |prio| - k
  {
    if k == |prio| then None
    else if prio[k] in types then Some(k)
    else BestIndexFrom(types, prio, k + 1)
  }

  /** The least position in `prio` of a class in `types`, `None` standing
      for the infinite index of an entry with no preferred class. The least
      position of an element of the intersection is the minimum, over the
      intersection, of the position `index` finds. */
  function BestIndex(types: seq<String>, prio: seq<String>): (r: Option<nat>)
    ensures r.Some? ==> r.value < |prio| && prio[r.value] in types
                        && forall j :: 0 <= j < r.value ==> prio[j] !in types
    ensures r.None? ==> forall j :: 0 <= j < |prio| ==> prio[j] !in types
  {
    BestIndexFrom(types, prio, 0)
  }

  function Rank(c: Candidate, prio: seq<String>): Option<nat> {
    BestIndex(Types(c), prio)
  }

  /** `idx < prev_idx` where `None` is infinity. */
  predicate Before(a: Option<nat>, b: Option<nat>) {
    a.Some? && (b.None? || a.value < b.value)
  }

  /** One iteration of the loop over entries: the retained entry for the
      lower-cased label is replaced when it has no classes, or when the new
      entry's best index is strictly lower. */
  function Retain(items: map<String, Candidate>, x: Candidate, prio: seq<String>): map<String, Candidate> {
    var key := LabelKey(x);
    var prevTypes := if key in items then Types(items[key]) else [];
    if |prevTypes| == 0 || Before(Rank(x, prio), BestIndex(prevTypes, prio)) then items[key := x]
    else items
  }

  /** The `items` dictionary after the loop has seen all of `xs`. */
  function Retained(xs: seq<Candidate>, prio: seq<String>): map<String, Candidate> {
    if |xs| == 0 then map[]
    else Retain(Retained(xs[..|xs| - 1], prio), xs[|xs| - 1], prio)
  }

  /** The entries of `xs` whose lower-cased label is `key`, in order. */
  function Group(xs: seq<Candidate>, key: String): (g: seq<Candidate>)
    ensures forall y :: y in g <==> y in xs && LabelKey(y) == key
  {
    if |xs| == 0 then []
    else
      var init := xs[..|xs| - 1];
      assert forall y :: y in xs <==> y in init || y == xs[|xs| - 1];
      Group(init, key) + (if LabelKey(xs[|xs| - 1]) == key then [xs[|xs| - 1]] else [])
  }

  /** Closed form of the entry kept for one label group `g`, at position
      `w`: nothing in the group has a strictly better index; among entries
      with a preferred class the first of the best index wins; among
      entries with classes but none preferred the first wins; and an entry
      with no classes wins only as the last entry of a group where no entry
      has classes. */
  ghost predicate IsGroupWinner(g: seq<Candidate>, w: int, prio: seq<String>)
    requires 0 <= w < |g|
  {
    var best := Rank(g[w], prio);
    (forall p :: 0 <= p < |g| ==> !Before(Rank(g[p], prio), best))
    && (best.Some? ==> forall p :: 0 <= p < w ==> Rank(g[p], prio) != best)
    && (best.None? && |Types(g[w])| > 0 ==> forall p :: 0 <= p < w ==> |Types(g[p])| == 0)
    && (|Types(g[w])| == 0 ==> w == |g| - 1 && forall p :: 0 <= p < |g| ==> |Types(g[p])| == 0)
  }

  ghost predicate IsWinnerOf(g: seq<Candidate>, c: Candidate, prio: seq<String>) {
    exists w :: 0 <= w < |g| && g[w] == c && IsGroupWinner(g, w, prio)
  }

  /** The closed form names one position of the group. */
  lemma WinnerUnique(g: seq<Candidate>, w1: int, w2: int, prio: seq<String>)
    requires 0 <= w1 < |g| && 0 <= w2 < |g|
    requires IsGroupWinner(g, w1, prio) && IsGroupWinner(g, w2, prio)
    ensures w1 == w2
  {
    assert Rank(g[w1], prio) == Rank(g[w2], prio);
  }

  lemma WinnerSingle(x: Candidate, prio: seq<String>)
    ensures IsGroupWinner([x], 0, prio)
  {
  }

  /** Appending an entry to a group moves the winner exactly as one loop
      iteration moves the retained entry. */
  lemma WinnerStep(g: seq<Candidate>, w: int, x: Candidate, prio: seq<String>)
    requires 0 <= w < |g| && IsGroupWinner(g, w, prio)
    ensures |Types(g[w])| == 0 || Before(Rank(x, prio), Rank(g[w], prio)) ==>
              IsGroupWinner(g + [x], |g|, prio)
    ensures !(|Types(g[w])| == 0 || Before(Rank(x, prio), Rank(g[w], prio))) ==>
              IsGroupWinner(g + [x], w, prio)
  {
    var g' := g + [x];
    var c := g[w];
    assert forall p :: 0 <= p < |g| ==> g'[p] == g[p];
    if |Types(c)| == 0 {
      assert forall p :: 0 <= p < |g| ==> Rank(g[p], prio).None?;
    } else if Before(Rank(x, prio), Rank(c, prio)) {
      forall p | 0 <= p < |g'| ensures !Before(Rank(g'[p], prio), Rank(x, prio)) {
        if p < |g| {
          assert !Before(Rank(g[p], prio), Rank(c, prio));
        }
      }
      forall p | 0 <= p < |g| ensures Rank(g'[p], prio) != Rank(x, prio) {
        assert !Before(Rank(g[p], prio), Rank(c, prio));
      }
    }
  }

  /** What the loop leaves in `items`: one entry per lower-cased label of
      the input, filed under its own label, and that entry is the group's
      winner in the closed form. */
  lemma {:induction false} RetainedSpec(xs: seq<Candidate>, prio: seq<String>)
    ensures forall key :: key in Retained(xs, prio) <==> |Group(xs, key)| > 0
    ensures forall key :: key in Retained(xs, prio) ==>
              LabelKey(Retained(xs, prio)[key]) == key
              && IsWinnerOf(Group(xs, key), Retained(xs, prio)[key], prio)
    decreases |xs|
  {
    if |xs| > 0 {
      var init, x := xs[..|xs| - 1], xs[|xs| - 1];
      RetainedSpec(init, prio);
      var items := Retained(init, prio);
      var items' := Retained(xs, prio);
      assert items' == Retain(items, x, prio);
      forall key
        ensures key in items' <==> |Group(xs, key)| > 0
        ensures key in items' ==> LabelKey(items'[key]) == key && IsWinnerOf(Group(xs, key), items'[key], prio)
      {
        var g := Group(init, key);
        if key != LabelKey(x) {
          assert Group(xs, key) == g;
        } else {
          assert Group(xs, key) == g + [x];
          if key in items {
            var w :| 0 <= w < |g| && g[w] == items[key] && IsGroupWinner(g, w, prio);
            WinnerStep(g, w, x, prio);
            assert (g + [x])[|g|] == x;
            assert (g + [x])[w] == g[w];
          } else {
            assert g == [];
            WinnerSingle(x, prio);
            assert g + [x] == [x];
          }
        }
      }
    }
  }

  /** Every retained entry is filed under its own lower-cased label and
      wins its group. */
  lemma RetainedValues(xs: seq<Candidate>, prio: seq<String>)
    ensures forall y :: y in Retained(xs, prio).Values ==>
              LabelKey(y) in Retained(xs, prio) && y == Retained(xs, prio)[LabelKey(y)]
              && IsWinnerOf(Group(xs, LabelKey(y)), y, prio)
  {
    var items := Retained(xs, prio);
    RetainedSpec(xs, prio);
    forall y | y in items.Values
      ensures LabelKey(y) in items && y == items[LabelKey(y)] && IsWinnerOf(Group(xs, LabelKey(y)), y, prio)
    {
      var key :| key in items && items[key] == y;
    }
  }

  /** An input entry is retained exactly when it is its group's winner. */
  lemma RetainedIffWinner(xs: seq<Candidate>, prio: seq<String>, x: Candidate)
    requires x in xs
    ensures x in Retained(xs, prio).Values <==> IsWinnerOf(Group(xs, LabelKey(x)), x, prio)
  {
    var items := Retained(xs, prio);
    var key := LabelKey(x);
    var g := Group(xs, key);
    RetainedSpec(xs, prio);
    RetainedValues(xs, prio);
    assert x in g;
    if IsWinnerOf(g, x, prio) {
      var w1 :| 0 <= w1 < |g| && g[w1] == x && IsGroupWinner(g, w1, prio);
      var w2 :| 0 <= w2 < |g| && g[w2] == items[key] && IsGroupWinner(g, w2, prio);
      WinnerUnique(g, w1, w2, prio);
    }
  }

  /** Every lower-cased label of the input keeps an input entry. */
  lemma RetainedCovers(xs: seq<Candidate>, prio: seq<String>, x: Candidate)
    requires x in xs
    ensures LabelKey(x) in Retained(xs, prio)
    ensures Retained(xs, prio)[LabelKey(x)] in xs
    ensures LabelKey(Retained(xs, prio)[LabelKey(x)]) == LabelKey(x)
  {
    var key := LabelKey(x);
    RetainedSpec(xs, prio);
    assert x in Group(xs, key);
    var g := Group(xs, key);
    var w :| 0 <= w < |g| && g[w] == Retained(xs, prio)[key] && IsGroupWinner(g, w, prio);
    assert g[w] in g;
  }

  /** `_remove_duplicates` with a priority list: the entries equal to some
      retained entry, in input order. Every entry must carry the class
      property; the loop indexes it directly. */
  function RemovePrioritised(xs: seq<Candidate>, prio: seq<String>): (r: seq<Candidate>)
    requires forall i :: 0 <= i < |xs| ==> TypeProp in xs[i].properties
    ensures IsSubsequence(r, xs)
    ensures forall x :: x in r <==> x in xs && IsWinnerOf(Group(xs, LabelKey(x)), x, prio)
    ensures forall i, j :: 0 <= i < |r| && 0 <= j < |r| && LabelKey(r[i]) == LabelKey(r[j]) ==> r[i] == r[j]
    ensures forall x :: x in xs ==> exists y :: y in r && LabelKey(y) == LabelKey(x)
  {
    var items := Retained(xs, prio);
    var r := Filter(xs, (x: Candidate) => x in items.Values);
    RetainedValues(xs, prio);
    forall x | x in xs
      ensures x in items.Values <==> IsWinnerOf(Group(xs, LabelKey(x)), x, prio)
    {
      RetainedIffWinner(xs, prio, x);
    }
    forall x | x in xs ensures exists y :: y in r && LabelKey(y) == LabelKey(x) {
      RetainedCovers(xs, prio, x);
      var y := items[LabelKey(x)];
      assert y in r;
    }
    r
  }

  /** `_remove_duplicates` under a policy. */
  function RemoveDuplicates(policy: DuplicatePolicy, xs: seq<Candidate>): (r: seq<Candidate>)
    requires policy.Prioritised? ==> forall i :: 0 <= i < |xs| ==> TypeProp in xs[i].properties
    ensures IsSubsequence(r, xs)
    ensures policy.Disabled? ==> r == xs
    ensures policy.Arbitrary? ==> r == KeepFirsts(xs)
    ensures policy.Prioritised? ==> r == RemovePrioritised(xs, policy.prio)
  {
    match policy
    case Disabled =>
      SubsequenceRefl(xs);
      xs
    case Arbitrary =>
      RemoveArbitraryIsKeepFirsts(xs);
      RemoveArbitrary(xs)
    case Prioritised(prio) => RemovePrioritised(xs, prio)
  }
}
