/** Three small dataset-specific linkers: the filter that drops persons who
    died before a picture was taken, and the text preprocessors of the rank
    and place linkers. */
module Linkers {
  import opened Wrappers
  import opened Text
  import opened Dates
  import opened Candidates

  // ---------------------------------------------------------------------
  // The death-before-picture filter.
  // ---------------------------------------------------------------------

  /** An RDF literal is true when its text is not empty. */
  predicate Present(created: Option<String>) {
    created.Some? && |created.value| > 0
  }

  /** `strptime(s, '"%Y-%m-%d"')`: a date between double quotes. */
  function QuotedYmd(s: String): Option<Day> {
    if |s| >= 2 && s[0] == '"' && s[|s| - 1] == '"' then StrptimeYmd(s[1..|s| - 1]) else None
  }

  /** A missing `kuolinaika` is caught; an empty one or one that does not
      parse is not. */
  predicate DeathReadable(c: Candidate) {
    "kuolinaika" in c.properties ==>
      |c.properties["kuolinaika"]| > 0 && QuotedYmd(Split(c.properties["kuolinaika"][0], '^')[0]).Some?
  }

  /** The death date: the first `kuolinaika` value, cut at its first `^`. */
  function RecordDeath(c: Candidate): Option<Day>
    requires DeathReadable(c)
  {
    if "kuolinaika" in c.properties then QuotedYmd(Split(c.properties["kuolinaika"][0], '^')[0]) else None
  }

  /** The person died before the picture's day. */
  predicate DiedBefore(picture: Day, c: Candidate)
    requires DeathReadable(c)
  {
    RecordDeath(c).Some? && picture > RecordDeath(c).value
  }

  function Alive(picture: Day): Candidate -> bool {
    (c: Candidate) => !(DeathReadable(c) && DiedBefore(picture, c))
  }

  /** What `validate` needs of its input: when there are results and a
      picture date, the date parses, and so does every death date given. */
  predicate DeathFilterReady(results: seq<Candidate>, created: Option<String>) {
    |results| > 0 && Present(created) ==>
      StrptimeYmd(created.value).Some? && forall i :: 0 <= i < |results| ==> DeathReadable(results[i])
  }

  /** `validate` of the death-before-picture filter: without results or a
      picture date, the results as they are; otherwise those not known to
      have died before the picture's day, in order. */
  function DropDead(results: seq<Candidate>, created: Option<String>): (r: seq<Candidate>)
    requires DeathFilterReady(results, created)
    ensures !Present(created) || |results| == 0 ==> r == results
    ensures IsSubsequence(r, results)
    ensures Present(created) && |results| > 0 ==>
      forall c :: c in r <==> c in results && !DiedBefore(StrptimeYmd(created.value).value, c)
    ensures forall c :: c in results && "kuolinaika" !in c.properties ==> c in r
  {
    if |results| == 0 || !Present(created) then
      SubsequenceRefl(results);
      results
    else
      var picture := StrptimeYmd(created.value).value;
      assert forall c :: c in results ==> DeathReadable(c);
      Filter(results, Alive(picture))
  }

  /** A picture taken on the day of the death, or before it, keeps the
      person; one taken the next day drops them. */
  lemma DeathDayBoundary(c: Candidate, y: int, m: int, d: int)
    requires ValidDate(y, m, d)
    requires "kuolinaika" in c.properties && |c.properties["kuolinaika"]| > 0
    requires Split(c.properties["kuolinaika"][0], '^')[0] == "\"" + IsoFormat(y, m, d) + "\""
    ensures DeathReadable(c)
    ensures forall picture :: DiedBefore(picture, c) <==> picture > Ordinal(y, m, d)
  {
    var s := "\"" + IsoFormat(y, m, d) + "\"";
    assert s[1..|s| - 1] == IsoFormat(y, m, d);
    StrptimeIsoFormat(y, m, d);
  }

  // ---------------------------------------------------------------------
  // The rank preprocessor.
  // ---------------------------------------------------------------------

  /** The text the loop appends for the parts, taken last first. */
  function Appended(parts: seq<String>): String
    decreases |parts|
  {
    if |parts| == 0 then []
    else " # " + parts[|parts| - 1] + Appended(parts[..|parts| - 1])
  }

  lemma {:induction false} AppendedCons(x: String, parts: seq<String>)
    ensures Appended([x] + parts) == Appended(parts) + " # " + x
    decreases |parts|
  {
    if |parts| == 0 {
      assert ([x] + parts)[..0] == [];
    } else {
      var init := parts[..|parts| - 1];
      AppendedCons(x, init);
      assert ([x] + parts)[..|parts|] == [x] + init;
    }
  }

  /** The concatenation of the strings. */
  function Concat(ss: seq<String>): String
    decreases |ss|
  {
    if |ss| == 0 then [] else ss[0] + Concat(ss[1..])
  }

  /** `" # " + part` for every part, last part first. */
  function MarkedReversed(parts: seq<String>): (ms: seq<String>)
    ensures |ms| == |parts|
    ensures forall i :: 0 <= i < |parts| ==> ms[i] == " # " + parts[|parts| - 1 - i]
  {
    seq(|parts|, i requires 0 <= i < |parts| => " # " + parts[|parts| - 1 - i])
  }

  /** The appended text is one `" # " + part` segment per part, in reverse
      order. */
  lemma {:induction false} AppendedSegments(parts: seq<String>)
    ensures Appended(parts) == Concat(MarkedReversed(parts))
    decreases |parts|
  {
    if |parts| > 0 {
      var init := parts[..|parts| - 1];
      AppendedSegments(init);
      var ms, ms' := MarkedReversed(parts), MarkedReversed(init);
      assert ms[1..] == ms';
    }
  }

  /** `preprocessor` of the rank linker: a text with several `/`-separated
      parts gets every part appended after `" # "`, last part first. */
  method RankPreprocessor(text: String) returns (r: String)
    ensures '/' !in text ==> r == text
    ensures text <= r
    ensures Count(text, '/') > 0 ==> r == text + Concat(MarkedReversed(Split(text, '/')))
  {
    var parts := Split(text, '/');
    r := text;
    if |parts| > 1 {
      var i := |parts|;
      while i > 0
        invariant 0 <= i <= |parts|
        invariant r == text + Appended(parts[i..])
      {
        i := i - 1;
        AppendedCons(parts[i], parts[i + 1..]);
        assert parts[i..] == [parts[i]] + parts[i + 1..];
        r := r + " # " + parts[i];
      }
      assert parts[0..] == parts;
      AppendedSegments(parts);
    }
    CountZero(text, '/');
  }

  // ---------------------------------------------------------------------
  // The place preprocessor.
  // ---------------------------------------------------------------------

  function StripEach(parts: seq<String>): (r: seq<String>)
    ensures |r| == |parts| && forall i :: 0 <= i < |parts| ==> r[i] == Strip(parts[i])
  {
    seq(|parts|, i requires 0 <= i < |parts| => Strip(parts[i]))
  }

  /** A character in no part and not in the separator is not in the join. */
  lemma {:induction false} JoinAvoids(parts: seq<String>, sep: String, c: char)
    requires forall i :: 0 <= i < |parts| ==> c !in parts[i]
    requires c !in sep
    ensures c !in Join(parts, sep)
    decreases |parts|
  {
    if |parts| > 1 {
      JoinAvoids(parts[1..], sep, c);
    }
  }

  /** A substring has no character its string lacks. */
  lemma SliceAvoids(s: String, i: nat, j: nat, c: char)
    requires i <= j <= |s| && c !in s
    ensures c !in s[i..j]
  {
  }

  /** `preprocessor` of the place linker: the `-`-separated parts, each
      stripped of surrounding whitespace, joined with `", "`. */
  function PlacePreprocessor(text: String): (r: String)
    ensures '-' !in r
    ensures '-' !in text ==> r == Strip(text)
    ensures '-' in text ==> IsSubstring(", ", r)
  {
    var parts := Split(text, '-');
    var stripped := StripEach(parts);
    assert forall i :: 0 <= i < |parts| ==> '-' !in stripped[i] by {
      forall i | 0 <= i < |parts| ensures '-' !in stripped[i] {
        var a, b :| 0 <= a <= b <= |parts[i]| && stripped[i] == parts[i][a..b];
        SliceAvoids(parts[i], a, b, '-');
      }
    }
    JoinAvoids(stripped, ", ", '-');
    CountZero(text, '-');
    JoinSplit(text, '-');
    assert |stripped| > 1 ==> IsSubstring(", ", Join(stripped, ", ")) by {
      if |stripped| > 1 {
        var r := Join(stripped, ", ");
        assert r == stripped[0] + ", " + Join(stripped[1..], ", ");
        assert r[|stripped[0]|..|stripped[0]| + 2] == ", ";
        IsSubstringAt(", ", r, |stripped[0]|);
      }
    }
    Join(stripped, ", ")
  }
  /** The place text is read as its dash-free pieces: whenever the text is
      those pieces joined with `-`, the output is the same pieces, each
      stripped, joined with `", "` — one more piece than the text has
      dashes. */
  lemma PlacePieces(text: String, parts: seq<String>)
    requires |parts| >= 1 && forall k :: 0 <= k < |parts| ==> '-' !in parts[k]
    requires Join(parts, "-") == text
    ensures |parts| == Count(text, '-') + 1
    ensures PlacePreprocessor(text) == Join(StripEach(parts), ", ")
  {
    SplitJoin(parts, '-');
  }
}
