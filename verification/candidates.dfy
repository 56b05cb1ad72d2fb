/** The candidate record the matching service returns for one query
    (`id`, `label`, `matches`, `properties`), and sequence helpers shared by
    the filters and validators. */
module Candidates {
  import opened Wrappers
  import opened Text

  /** One matching-service hit. `name` is the service's `label` field;
      `matches` are the mention strings of the query that resolved to it; `properties` maps a property name to its
      values, parallel arrays for multi-valued properties. */
  datatype Candidate = Candidate(
    id: String,
    name: String,
    matches: seq<String>,
    properties: map<String, seq<String>>)

  /** The values of property `key`, or none when it is absent. */
  function Prop(c: Candidate, key: String): seq<String> {
    if key in c.properties then c.properties[key] else []
  }

  /** `a` is an order-preserving subsequence of `b`. */
  ghost predicate IsSubsequence<T>(a: seq<T>, b: seq<T>)
    decreases |b|
  {
    |a| == 0 || (|b| > 0 && (if a[0] == b[0] then IsSubsequence(a[1..], b[1..]) else IsSubsequence(a, b[1..])))
  }

  lemma {:induction false} SubsequenceLength<T>(a: seq<T>, b: seq<T>)
    requires IsSubsequence(a, b)
    ensures |a| <= |b|
    decreases |b|
  {
    if |a| > 0 {
      if a[0] == b[0] {
        SubsequenceLength(a[1..], b[1..]);
      } else {
        SubsequenceLength(a, b[1..]);
      }
    }
  }

  lemma {:induction false} SubsequenceMembers<T>(a: seq<T>, b: seq<T>)
    requires IsSubsequence(a, b)
    ensures forall x :: x in a ==> x in b
    decreases |b|
  {
    if |a| > 0 {
      if a[0] == b[0] {
        SubsequenceMembers(a[1..], b[1..]);
        assert forall x :: x in a ==> x == a[0] || x in a[1..];
      } else {
        SubsequenceMembers(a, b[1..]);
      }
    }
  }

  lemma {:induction false} SubsequenceCons<T>(x: T, a: seq<T>, b: seq<T>)
    requires IsSubsequence(a, b)
    ensures IsSubsequence([x] + a, [x] + b)
    ensures IsSubsequence(a, [x] + b)
  {
    assert ([x] + a)[1..] == a;
    assert ([x] + b)[1..] == b;
    if |a| > 0 && a[0] == x {
      SubsequenceWeaken(a, b);
    }
  }

  /** Dropping the head of `a` keeps it a subsequence of `b`. */
  lemma {:induction false} SubsequenceWeaken<T>(a: seq<T>, b: seq<T>)
    requires |a| > 0 && IsSubsequence(a, b)
    ensures IsSubsequence(a[1..], b)
    decreases |b|, 1
  {
    if a[0] == b[0] {
      SubsequenceTail(a[1..], b);
    } else {
      SubsequenceWeaken(a, b[1..]);
      SubsequenceTail(a[1..], b);
    }
  }

  /** A subsequence of the tail is a subsequence of the whole. */
  lemma {:induction false} SubsequenceTail<T>(a: seq<T>, b: seq<T>)
    requires |b| > 0 && IsSubsequence(a, b[1..])
    ensures IsSubsequence(a, b)
    decreases |b|, 0
  {
    if |a| > 0 && a[0] == b[0] {
      SubsequenceWeaken(a, b[1..]);
    }
  }

  lemma {:induction false} SubsequenceRefl<T>(a: seq<T>)
    ensures IsSubsequence(a, a)
    decreases |a|
  {
    if |a| > 0 {
      SubsequenceRefl(a[1..]);
    }
  }

  lemma {:induction false} SubsequenceTrans<T>(a: seq<T>, b: seq<T>, c: seq<T>)
    requires IsSubsequence(a, b) && IsSubsequence(b, c)
    ensures IsSubsequence(a, c)
    decreases |c|
  {
    if |a| > 0 {
      if b[0] == c[0] {
        if a[0] == b[0] {
          SubsequenceTrans(a[1..], b[1..], c[1..]);
        } else {
          SubsequenceTrans(a, b[1..], c[1..]);
          SubsequenceTail(a, c);
        }
      } else {
        SubsequenceTrans(a, b, c[1..]);
        SubsequenceTail(a, c);
      }
    }
  }

  /** The elements of `xs` that pass `keep`, in their order. */
  function Filter<T(!new)>(xs: seq<T>, keep: T -> bool): (r: seq<T>)
    ensures |r| <= |xs|
    ensures forall x :: x in r <==> x in xs && keep(x)
    ensures IsSubsequence(r, xs)
    decreases |xs|
  {
    if |xs| == 0 then []
    else
      var rest := Filter(xs[1..], keep);
      assert forall x :: x in xs <==> x == xs[0] || x in xs[1..];
      if keep(xs[0]) then
        SubsequenceCons(xs[0], rest, xs[1..]);
        assert xs == [xs[0]] + xs[1..];
        [xs[0]] + rest
      else
        SubsequenceCons(xs[0], rest, xs[1..]);
        assert xs == [xs[0]] + xs[1..];
        rest
  }

  lemma {:induction false} FilterAppend<T(!new)>(a: seq<T>, b: seq<T>, keep: T -> bool)
    ensures Filter(a + b, keep) == Filter(a, keep) + Filter(b, keep)
    decreases |a|
  {
    if |a| == 0 {
      assert a + b == b;
    } else {
      assert (a + b)[1..] == a[1..] + b;
      FilterAppend(a[1..], b, keep);
    }
  }

  lemma FilterLast<T(!new)>(xs: seq<T>, keep: T -> bool)
    requires |xs| > 0
    ensures Filter(xs, keep) == Filter(xs[..|xs| - 1], keep) + (if keep(xs[|xs| - 1]) then [xs[|xs| - 1]] else [])
  {
    var init, last := xs[..|xs| - 1], xs[|xs| - 1];
    assert xs == init + [last];
    FilterAppend(init, [last], keep);
    assert Filter([last], keep) == (if keep(last) then [last] else []) by {
      assert [last][1..] == [];
    }
  }

  /** Filtering keeps every copy of a kept value and no copy of another. */
  lemma {:induction false} FilterMultiset<T(!new)>(xs: seq<T>, keep: T -> bool)
    ensures forall x :: multiset(Filter(xs, keep))[x] == if keep(x) then multiset(xs)[x] else 0
    decreases |xs|
  {
    if |xs| > 0 {
      FilterMultiset(xs[1..], keep);
      assert xs == [xs[0]] + xs[1..];
    }
  }

  lemma {:induction false} FilterExt<T(!new)>(xs: seq<T>, f: T -> bool, g: T -> bool)
    requires forall x :: f(x) == g(x)
    ensures Filter(xs, f) == Filter(xs, g)
    decreases |xs|
  {
    if |xs| > 0 {
      FilterExt(xs[1..], f, g);
    }
  }

  /** Filtering twice keeps what passes both tests. */
  lemma {:induction false} FilterTwice<T(!new)>(xs: seq<T>, first: T -> bool, second: T -> bool, both: T -> bool)
    requires forall x :: both(x) == (first(x) && second(x))
    ensures Filter(Filter(xs, first), second) == Filter(xs, both)
    decreases |xs|
  {
    if |xs| > 0 {
      FilterTwice(xs[1..], first, second, both);
    }
  }

  /** Filtering with a test every element passes changes nothing. */
  lemma {:induction false} FilterAll<T(!new)>(xs: seq<T>, keep: T -> bool)
    requires forall x :: x in xs ==> keep(x)
    ensures Filter(xs, keep) == xs
    decreases |xs|
  {
    if |xs| > 0 {
      FilterAll(xs[1..], keep);
    }
  }

  /** The index of the last element passing `keep`, if any. */
  function LastWhere<T>(xs: seq<T>, keep: T -> bool): (r: Option<nat>)
    ensures r.Some? ==> r.value < |xs| && keep(xs[r.value])
    ensures r.Some? ==> forall j :: r.value < j < |xs| ==> !keep(xs[j])
    ensures r.None? ==> forall j :: 0 <= j < |xs| ==> !keep(xs[j])
  {
    if |xs| == 0 then None
    else if keep(xs[|xs| - 1]) then Some(|xs| - 1)
    else LastWhere(xs[..|xs| - 1], keep)
  }

  /** The last element a filter keeps is the last element passing the test. */
  lemma {:induction false} FilterLastElement<T(!new)>(xs: seq<T>, keep: T -> bool)
    ensures |Filter(xs, keep)| > 0 <==> LastWhere(xs, keep).Some?
    ensures |Filter(xs, keep)| > 0 ==> Filter(xs, keep)[|Filter(xs, keep)| - 1] == xs[LastWhere(xs, keep).value]
    decreases |xs|
  {
    if |xs| > 0 {
      FilterLast(xs, keep);
      FilterLastElement(xs[..|xs| - 1], keep);
    }
  }

  /** The distinct values of `xs` passing `keep`. */
  ghost function Passing<T(!new)>(xs: seq<T>, keep: T -> bool): set<T> {
    set x | x in xs && keep(x)
  }

  lemma PassingSnoc<T(!new)>(init: seq<T>, last: T, keep: T -> bool)
    ensures Passing(init + [last], keep) == Passing(init, keep) + (if keep(last) then {last} else {})
  {
    assert forall x :: x in init + [last] <==> x in init || x == last;
  }

  /** Filtering a sequence without repetitions keeps as many elements as
      there are distinct values passing the test. */
  lemma {:induction false} FilterCardinality<T(!new)>(xs: seq<T>, keep: T -> bool)
    requires forall i, j :: 0 <= i < j < |xs| ==> xs[i] != xs[j]
    ensures |Filter(xs, keep)| == |Passing(xs, keep)|
    decreases |xs|
  {
    if |xs| > 0 {
      var init, last := xs[..|xs| - 1], xs[|xs| - 1];
      FilterLast(xs, keep);
      FilterCardinality(init, keep);
      assert xs == init + [last];
      PassingSnoc(init, last, keep);
      if keep(last) {
        assert last !in Passing(init, keep) by {
          forall i | 0 <= i < |init| ensures init[i] != last {
            assert init[i] == xs[i];
          }
        }
      }
    }
  }

  /** The elements of `xs` with duplicates removed, in order of first
      appearance. */
  function Distinct<T(==,!new)>(xs: seq<T>): (r: seq<T>)
    ensures forall x :: x in r <==> x in xs
    ensures forall i, j :: 0 <= i < j < |r| ==> r[i] != r[j]
    decreases |xs|
  {
    if |xs| == 0 then []
    else
      var init := Distinct(xs[..|xs| - 1]);
      assert forall x :: x in xs <==> x in xs[..|xs| - 1] || x == xs[|xs| - 1];
      if xs[|xs| - 1] in init then init else init + [xs[|xs| - 1]]
  }

  /** The ids of the results, in order (`extract_uris`). */
  function Ids(results: seq<Candidate>): (ids: seq<String>)
    ensures |ids| == |results| && forall i :: 0 <= i < |results| ==> ids[i] == results[i].id
  {
    seq(|results|, i requires 0 <= i < |results| => results[i].id)
  }

  function Labels(xs: seq<Candidate>): set<String> {
    set x | x in xs :: x.name
  }

  /** The grouping key of prioritised duplicate removal. */
  function LabelKey(c: Candidate): String {
    LowerStr(c.name)
  }
}
