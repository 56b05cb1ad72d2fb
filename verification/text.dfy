/** String operations of Python's `str` that the linker relies on: `lower`,
    `replace` with an empty replacement, `in` (substring), `split(sep)`,
    `split()` (whitespace tokens), `strip()` and `join`. Strings are
    sequences of characters; only the characters listed in `IsSpace` and
    `Lower` are given their Python meaning. */
module Text {

  type String = seq<char>

  /** The characters Python's `str.split()` and `str.strip()` treat as
      whitespace, restricted to the ASCII range. */
  predicate IsSpace(c: char) {
    c == ' ' || c == '\t' || c == '\n' || c == '\r' || c == '\U{0B}' || c == '\U{0C}'
    || c == '\U{1C}' || c == '\U{1D}' || c == '\U{1E}' || c == '\U{1F}'
  }

  predicate AllSpace(s: String) {
    forall i :: 0 <= i < |s| ==> IsSpace(s[i])
  }

  /** Python's `str.lower` on the ASCII and Latin-1 capital letters
      (which covers the Finnish letters Å, Ä, Ö). */
  function Lower(c: char): char {
    if 'A' <= c <= 'Z' then (c as int + 32) as char
    else if 'À' <= c <= 'Þ' && c != '×' then (c as int + 32) as char
    else c
  }

  function LowerStr(s: String): (r: String)
    ensures |r| == |s|
    ensures forall i :: 0 <= i < |s| ==> r[i] == Lower(s[i])
  {
    seq(|s|, i requires 0 <= i < |s| => Lower(s[i]))
  }

  /** `s` with every character of `cs` deleted, the others kept in order. */
  function RemoveAll(s: String, cs: set<char>): (r: String)
    ensures |r| <= |s|
    ensures forall i :: 0 <= i < |r| ==> r[i] !in cs
  {
    if |s| == 0 then []
    else if s[0] in cs then RemoveAll(s[1..], cs)
    else [s[0]] + RemoveAll(s[1..], cs)
  }

  /** The characters of `s` that are not in `cs`, in order: the reference
      for `RemoveAll`, written as a right fold. */
  function KeepOthers(s: String, cs: set<char>): String {
    if |s| == 0 then []
    else KeepOthers(s[..|s| - 1], cs) + (if s[|s| - 1] in cs then [] else [s[|s| - 1]])
  }

  lemma {:induction false} RemoveAllAppend(a: String, b: String, cs: set<char>)
    ensures RemoveAll(a + b, cs) == RemoveAll(a, cs) + RemoveAll(b, cs)
    decreases |a|
  {
    if |a| == 0 {
      assert a + b == b;
    } else {
      assert (a + b)[1..] == a[1..] + b;
      RemoveAllAppend(a[1..], b, cs);
    }
  }

  /** Deleting characters front to back and back to front agree. */
  lemma {:induction false} RemoveAllIsKeepOthers(s: String, cs: set<char>)
    ensures RemoveAll(s, cs) == KeepOthers(s, cs)
    decreases |s|
  {
    if |s| > 0 {
      var init := s[..|s| - 1];
      RemoveAllIsKeepOthers(init, cs);
      assert s == init + [s[|s| - 1]];
      RemoveAllAppend(init, [s[|s| - 1]], cs);
      assert RemoveAll([s[|s| - 1]], cs) == (if s[|s| - 1] in cs then [] else [s[|s| - 1]]);
    }
  }

  /** Deleting the same characters twice changes nothing. */
  lemma {:induction false} RemoveAllIdempotent(s: String, cs: set<char>)
    ensures RemoveAll(RemoveAll(s, cs), cs) == RemoveAll(s, cs)
  {
    RemoveAllNoop(RemoveAll(s, cs), cs);
  }

  lemma {:induction false} RemoveAllNoop(s: String, cs: set<char>)
    requires forall i :: 0 <= i < |s| ==> s[i] !in cs
    ensures RemoveAll(s, cs) == s
    decreases |s|
  {
    if |s| > 0 {
      RemoveAllNoop(s[1..], cs);
    }
  }

  /** Deleting one set of characters and then another deletes their union. */
  lemma {:induction false} RemoveAllCompose(s: String, a: set<char>, b: set<char>)
    ensures RemoveAll(RemoveAll(s, a), b) == RemoveAll(s, a + b)
    decreases |s|
  {
    if |s| > 0 {
      RemoveAllCompose(s[1..], a, b);
      if s[0] !in a {
        assert ([s[0]] + RemoveAll(s[1..], a))[1..] == RemoveAll(s[1..], a);
      }
    }
  }

  /** Python's `needle in hay` for strings. */
  predicate IsSubstring(needle: String, hay: String)
    decreases |hay|
  {
    needle <= hay || (|hay| > 0 && IsSubstring(needle, hay[1..]))
  }

  lemma {:induction false} IsSubstringAt(needle: String, hay: String, i: nat)
    requires i + |needle| <= |hay|
    requires hay[i..i + |needle|] == needle
    ensures IsSubstring(needle, hay)
    decreases i
  {
    if i == 0 {
      assert needle <= hay;
    } else {
      assert hay[1..][i - 1..i - 1 + |needle|] == hay[i..i + |needle|];
      IsSubstringAt(needle, hay[1..], i - 1);
    }
  }

  lemma {:induction false} IsSubstringLength(needle: String, hay: String)
    requires IsSubstring(needle, hay)
    ensures |needle| <= |hay|
    decreases |hay|
  {
    if !(needle <= hay) {
      IsSubstringLength(needle, hay[1..]);
    }
  }

  lemma {:induction false} NoLongerSubstring(needle: String, hay: String)
    requires |needle| > |hay|
    ensures !IsSubstring(needle, hay)
    decreases |hay|
  {
    if |hay| > 0 {
      NoLongerSubstring(needle, hay[1..]);
    }
  }

  /** Number of occurrences of `c` in `s`. */
  function Count(s: String, c: char): nat {
    if |s| == 0 then 0 else (if s[0] == c then 1 else 0) + Count(s[1..], c)
  }

  lemma {:induction false} CountZero(s: String, c: char)
    ensures Count(s, c) == 0 <==> c !in s
    decreases |s|
  {
    if |s| > 0 {
      CountZero(s[1..], c);
      assert c in s <==> s[0] == c || c in s[1..];
    }
  }

  /** Python's `sep.join(parts)`. */
  function Join(parts: seq<String>, sep: String): String {
    if |parts| == 0 then []
    else if |parts| == 1 then parts[0]
    else parts[0] + sep + Join(parts[1..], sep)
  }

  /** Python's `s.split(c)` for a single-character separator. */
  function Split(s: String, c: char): (parts: seq<String>)
    ensures |parts| == Count(s, c) + 1
    ensures forall k :: 0 <= k < |parts| ==> c !in parts[k]
    decreases |s|
  {
    if |s| == 0 then [[]]
    else
      var rest := Split(s[1..], c);
      if s[0] == c then [[]] + rest
      else [[s[0]] + rest[0]] + rest[1..]
  }

  /** Joining the parts back with the separator restores the input. */
  lemma {:induction false} JoinSplit(s: String, c: char)
    ensures Join(Split(s, c), [c]) == s
    decreases |s|
  {
    if |s| > 0 {
      var rest := Split(s[1..], c);
      JoinSplit(s[1..], c);
      if s[0] == c {
        assert Split(s, c) == [[]] + rest;
        assert Join(Split(s, c), [c]) == [] + [c] + Join(rest, [c]);
        assert s == [c] + s[1..];
      } else {
        var parts := Split(s, c);
        assert parts == [[s[0]] + rest[0]] + rest[1..];
        if |rest| == 1 {
          assert Join(rest, [c]) == rest[0];
        } else {
          assert Join(rest, [c]) == rest[0] + [c] + Join(rest[1..], [c]);
          assert parts[1..] == rest[1..];
        }
        assert s == [s[0]] + s[1..];
      }
    }
  }

  /** Splitting a join of separator-free parts gives the parts back. */
  lemma {:induction false} SplitJoin(parts: seq<String>, c: char)
    requires |parts| >= 1
    requires forall k :: 0 <= k < |parts| ==> c !in parts[k]
    ensures Split(Join(parts, [c]), c) == parts
    decreases |parts|, |parts[0]|
  {
    var p := parts[0];
    if |p| == 0 {
      if |parts| == 1 {
      } else {
        var tail := Join(parts[1..], [c]);
        assert Join(parts, [c]) == [c] + tail;
        assert ([c] + tail)[1..] == tail;
        SplitJoin(parts[1..], c);
        assert parts == [[]] + parts[1..];
      }
    } else {
      var parts' := [p[1..]] + parts[1..];
      assert parts'[1..] == parts[1..];
      assert forall k :: 0 <= k < |parts'| ==> c !in parts'[k] by {
        forall k | 0 <= k < |parts'| ensures c !in parts'[k] {
          if k == 0 {
            assert forall x :: x in p[1..] ==> x in p;
          } else {
            assert parts'[k] == parts[k];
          }
        }
      }
      SplitJoin(parts', c);
      var j := Join(parts, [c]);
      if |parts| == 1 {
        assert j == p;
        assert Join(parts', [c]) == p[1..];
      } else {
        assert j == p + [c] + Join(parts[1..], [c]);
        assert Join(parts', [c]) == p[1..] + [c] + Join(parts[1..], [c]);
      }
      assert j == [p[0]] + Join(parts', [c]);
      assert j[0] == p[0] && j[1..] == Join(parts', [c]);
      assert p[0] != c by { assert p[0] in p; }
      assert p == [p[0]] + p[1..];
      assert parts == [[p[0]] + parts'[0]] + parts'[1..];
    }
  }

  /** Python's `str.lstrip()`: drop leading whitespace. */
  function LStrip(s: String): (r: String)
    ensures |r| <= |s| && r == s[|s| - |r|..]
    ensures AllSpace(s[..|s| - |r|])
    ensures |r| > 0 ==> !IsSpace(r[0])
    decreases |s|
  {
    if |s| > 0 && IsSpace(s[0]) then LStrip(s[1..]) else s
  }

  /** Python's `str.rstrip()`: drop trailing whitespace. */
  function RStrip(s: String): (r: String)
    ensures |r| <= |s| && r == s[..|r|]
    ensures AllSpace(s[|r|..])
    ensures |r| > 0 ==> !IsSpace(r[|r| - 1])
    decreases |s|
  {
    if |s| > 0 && IsSpace(s[|s| - 1]) then RStrip(s[..|s| - 1]) else s
  }

  /** Python's `str.strip()`: the part of `s` between its leading and
      trailing whitespace. */
  function Strip(s: String): (r: String)
    ensures exists i, j :: 0 <= i <= j <= |s| && r == s[i..j] && AllSpace(s[..i]) && AllSpace(s[j..])
    ensures |r| > 0 ==> !IsSpace(r[0]) && !IsSpace(r[|r| - 1])
  {
    var l := LStrip(s);
    var r := RStrip(l);
    var i := |s| - |l|;
    var j := i + |r|;
    assert r == s[i..j];
    assert s[j..] == l[|r|..];
    r
  }

  /** The maximal non-whitespace prefix of `s`. */
  function Token(s: String): (t: String)
    ensures t <= s
    ensures forall k :: 0 <= k < |t| ==> !IsSpace(t[k])
    ensures |t| < |s| ==> IsSpace(s[|t|])
    decreases |s|
  {
    if |s| == 0 || IsSpace(s[0]) then [] else [s[0]] + Token(s[1..])
  }

  /** Python's `s.split()`: the whitespace-separated tokens of `s`. */
  function Words(s: String): (ws: seq<String>)
    ensures forall k :: 0 <= k < |ws| ==> |ws[k]| > 0
    ensures forall k, m :: 0 <= k < |ws| && 0 <= m < |ws[k]| ==> !IsSpace(ws[k][m])
    decreases |s|
  {
    if |s| == 0 then []
    else if IsSpace(s[0]) then Words(s[1..])
    else
      var t := Token(s);
      [t] + Words(s[|t|..])
  }

  /** The number of whitespace-separated words in `s`. */
  function TokenCount(s: String): nat {
    |Words(s)|
  }

  /** A string has no tokens exactly when it is all whitespace. */
  lemma {:induction false} NoTokensIffBlank(s: String)
    ensures TokenCount(s) == 0 <==> AllSpace(s)
    decreases |s|
  {
    if |s| > 0 {
      if IsSpace(s[0]) {
        NoTokensIffBlank(s[1..]);
        assert AllSpace(s) <==> AllSpace(s[1..]) by {
          if AllSpace(s[1..]) {
            forall i | 0 <= i < |s| ensures IsSpace(s[i]) {
              if i > 0 { assert s[i] == s[1..][i - 1]; }
            }
          }
        }
      } else {
        assert !AllSpace(s);
      }
    }
  }
}
