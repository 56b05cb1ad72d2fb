/** `combine_values`: several candidate strings are packed into one query
    text, each wrapped in double quotes with its own double quotes escaped
    by a backslash, separated by single spaces. The decoder here reads the
    packed text back, which shows that packing loses nothing. */
module Combine {
  import opened Wrappers
  import opened Text

  /** What separates two packed values: closing quote, space, opening quote. */
  const Separator: String := "\" \""

  /** `v` with a backslash put before every double quote. */
  function Escape(v: String): (e: String)
    ensures QuotesEscaped(e)
    decreases |v|
  {
    if |v| == 0 then []
    else
      var head := if v[0] == '"' then "\\\"" else [v[0]];
      var rest := Escape(v[1..]);
      var e := head + rest;
      assert forall i :: |head| <= i < |e| ==> e[i] == rest[i - |head|];
      e
  }

  /** Every double quote is directly preceded by a backslash. */
  ghost predicate QuotesEscaped(e: String) {
    forall i :: 0 <= i < |e| && e[i] == '"' ==> i > 0 && e[i - 1] == '\\'
  }

  /** Turn each backslash-quote pair back into a quote, left to right. */
  function Unescape(s: String): String
    decreases |s|
  {
    if |s| == 0 then []
    else if |s| >= 2 && s[0] == '\\' && s[1] == '"' then "\"" + Unescape(s[2..])
    else [s[0]] + Unescape(s[1..])
  }

  lemma {:induction false} UnescapeEscape(v: String)
    ensures Unescape(Escape(v)) == v
    decreases |v|
  {
    if |v| > 0 {
      var rest := Escape(v[1..]);
      UnescapeEscape(v[1..]);
      if v[0] == '"' {
        assert ("\\\"" + rest)[2..] == rest;
      } else {
        assert ([v[0]] + rest)[1..] == rest;
        if v[0] == '\\' && |rest| > 0 {
          assert rest[0] != '"';
        }
      }
      assert v == [v[0]] + v[1..];
    }
  }

  function EscapeAll(values: seq<String>): (es: seq<String>)
    ensures |es| == |values|
    ensures forall i :: 0 <= i < |values| ==> es[i] == Escape(values[i])
  {
    seq(|values|, i requires 0 <= i < |values| => Escape(values[i]))
  }

  /** `combine_values`. */
  function CombineValues(values: seq<String>): (r: String)
    ensures |r| >= 2 && r[0] == '"' && r[|r| - 1] == '"'
  {
    "\"" + Join(EscapeAll(values), Separator) + "\""
  }

  // ---------------------------------------------------------------------
  // Reading a packed text back.
  // ---------------------------------------------------------------------

  predicate SeparatorAt(s: String, i: int) {
    0 <= i && i + 3 <= |s| && s[i..i + 3] == Separator
  }

  /** The last separator starting before position `k`. */
  function LastSeparatorBelow(s: String, k: nat): (r: Option<nat>)
    requires k <= |s|
    ensures r.Some? ==> r.value < k && SeparatorAt(s, r.value)
    ensures r.Some? ==> forall j :: r.value < j < k ==> !SeparatorAt(s, j)
    ensures r.None? ==> forall j :: 0 <= j < k ==> !SeparatorAt(s, j)
    decreases k
  {
    if k == 0 then None
    else if SeparatorAt(s, k - 1) then Some(k - 1)
    else LastSeparatorBelow(s, k - 1)
  }

  /** Split a packed body at its separators, reading from the right. */
  function SplitFromRight(s: String): seq<String>
    decreases |s|
  {
    match LastSeparatorBelow(s, |s|)
    case None => [s]
    case Some(p) => SplitFromRight(s[..p]) + [s[p + 3..]]
  }

  /** Read a packed text back into its values. */
  function DecodeCombined(s: String): (values: seq<String>)
    requires |s| >= 2
  {
    var parts := SplitFromRight(s[1..|s| - 1]);
    seq(|parts|, i requires 0 <= i < |parts| => Unescape(parts[i]))
  }

  /** An escaped value contains no separator, and none starts between a
      separator and the escaped value after it. */
  lemma NoSeparatorAfter(j: String, e: String)
    requires QuotesEscaped(e)
    ensures SeparatorAt(j + Separator + e, |j|)
    ensures forall k :: |j| < k < |j + Separator + e| ==> !SeparatorAt(j + Separator + e, k)
  {
    var s := j + Separator + e;
    assert s[|j|..|j| + 3] == Separator;
    forall k | |j| < k < |s| ensures !SeparatorAt(s, k) {
      if k + 3 <= |s| {
        assert s[k..k + 3][0] == s[k] && s[k..k + 3][1] == s[k + 1] && s[k..k + 3][2] == s[k + 2];
        if k == |j| + 1 {
          assert s[k] == ' ';
        } else {
          var m := k - |j| - 1;
          assert s[k + 2] == e[m] && s[k + 1] == e[m - 1];
          assert e[m] == '"' ==> e[m - 1] == '\\';
        }
      }
    }
  }

  lemma NoSeparatorIn(e: String)
    requires QuotesEscaped(e)
    ensures forall k :: 0 <= k < |e| ==> !SeparatorAt(e, k)
  {
    forall k | 0 <= k < |e| ensures !SeparatorAt(e, k) {
      if k + 3 <= |e| {
        assert e[k..k + 3][1] == e[k + 1] && e[k..k + 3][2] == e[k + 2];
        assert e[k + 2] == '"' ==> e[k + 1] == '\\';
      }
    }
  }

  lemma {:induction false} JoinSnoc(parts: seq<String>, last: String, sep: String)
    requires |parts| >= 1
    ensures Join(parts + [last], sep) == Join(parts, sep) + sep + last
    decreases |parts|
  {
    if |parts| == 1 {
      assert (parts + [last])[1..] == [last];
    } else {
      assert (parts + [last])[1..] == parts[1..] + [last];
      JoinSnoc(parts[1..], last, sep);
    }
  }

  /** Splitting a join of escaped values at its separators gives them back. */
  lemma {:induction false} SplitFromRightJoin(es: seq<String>)
    requires |es| >= 1
    requires forall i :: 0 <= i < |es| ==> QuotesEscaped(es[i])
    ensures SplitFromRight(Join(es, Separator)) == es
    decreases |es|
  {
    var n := |es|;
    if n == 1 {
      NoSeparatorIn(es[0]);
    } else {
      var init, last := es[..n - 1], es[n - 1];
      assert es == init + [last];
      JoinSnoc(init, last, Separator);
      var j := Join(init, Separator);
      var s := j + Separator + last;
      NoSeparatorAfter(j, last);
      assert LastSeparatorBelow(s, |s|) == Some(|j|);
      assert s[..|j|] == j;
      assert s[|j| + 3..] == last;
      SplitFromRightJoin(init);
    }
  }

  /** Packing a non-empty list of values and reading it back is the
      identity. */
  lemma CombineRoundTrip(values: seq<String>)
    requires |values| >= 1
    ensures DecodeCombined(CombineValues(values)) == values
  {
    var es := EscapeAll(values);
    var packed := CombineValues(values);
    assert packed[1..|packed| - 1] == Join(es, Separator);
    SplitFromRightJoin(es);
    forall i | 0 <= i < |values| ensures Unescape(es[i]) == values[i] {
      UnescapeEscape(values[i]);
    }
  }

  /** The empty list and the list holding one empty string pack alike, so
      the round trip needs at least one value. */
  lemma CombineEmptyAmbiguous()
    ensures CombineValues([]) == CombineValues([""]) == "\"\""
  {
  }
}
