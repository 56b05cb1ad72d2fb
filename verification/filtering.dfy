/** Client configuration and result filtering of the matching-service client
    (`Arpa.__init__`, `_filter_results`, `_filter`, and the legacy
    `Arpa._filter`). Results pass, in this order, the ignore list, the
    minimum n-gram length and duplicate removal. */
module ResultFilter {
  import opened Wrappers
  import opened Text
  import opened Candidates
  import opened Dedup

  /** The property whose first value is the n-gram a result matched. */
  const NgramProp: String := "ngram"

  /** The `remove_duplicates` constructor argument: a boolean, or a list of
      class names. */
  datatype DuplicateSetting = Flag(on: bool) | ClassList(classes: seq<String>)

  /** The filtering part of a client: lower-cased ignore list, minimum
      n-gram length, duplicate policy. */
  datatype FilterConfig = FilterConfig(ignore: seq<String>, minNgram: int, policy: DuplicatePolicy)

  /** A configured client. Retry count and wait are whole numbers here. */
  datatype Client = Client(url: String, filter: FilterConfig, retries: nat, wait: nat)

  datatype ConfigError = NegativeRetries(retries: int) | NegativeWait(wait: int)

  /** A boolean is kept as is; any other value becomes a tuple of bracketed
      class names, and an empty tuple is false. */
  function PolicyOf(setting: DuplicateSetting): (p: DuplicatePolicy)
    ensures setting == Flag(true) <==> p == Arbitrary
    ensures p.Prioritised? <==> setting.ClassList? && |setting.classes| > 0
    ensures p.Prioritised? ==> |p.prio| == |setting.classes|
    ensures p.Prioritised? ==> forall i :: 0 <= i < |p.prio| ==> p.prio[i] == "<" + setting.classes[i] + ">"
  {
    match setting
    case Flag(on) => if on then Arbitrary else Disabled
    case ClassList(cs) =>
      if |cs| == 0 then Disabled
      else Prioritised(seq(|cs|, i requires 0 <= i < |cs| => "<" + cs[i] + ">"))
  }

  function LowerAll(xs: seq<String>): (r: seq<String>)
    ensures |r| == |xs| && forall i :: 0 <= i < |xs| ==> r[i] == LowerStr(xs[i])
  {
    seq(|xs|, i requires 0 <= i < |xs| => LowerStr(xs[i]))
  }

  /** `Arpa.__init__`: a negative retry count, then a negative wait, is
      rejected; otherwise the ignore list is stored lower-cased. */
  function NewClient(url: String, setting: DuplicateSetting, minNgram: int, ignore: seq<String>,
                     retries: int, wait: int): (r: Result<Client, ConfigError>)
    ensures r.Success? <==> retries >= 0 && wait >= 0
    ensures retries < 0 ==> r == Failure(NegativeRetries(retries))
    ensures retries >= 0 && wait < 0 ==> r == Failure(NegativeWait(wait))
    ensures r.Success? ==> r.value.retries == retries && r.value.wait == wait
    ensures r.Success? ==> r.value.filter.minNgram == minNgram && r.value.filter.policy == PolicyOf(setting)
    ensures r.Success? ==> forall s :: s in r.value.filter.ignore <==> exists t :: t in ignore && LowerStr(t) == s
  {
    if retries < 0 then Failure(NegativeRetries(retries))
    else if wait < 0 then Failure(NegativeWait(wait))
    else
      var lowered := LowerAll(ignore);
      assert forall s :: s in lowered <==> exists t :: t in ignore && LowerStr(t) == s by {
        forall s | s in lowered ensures exists t :: t in ignore && LowerStr(t) == s {
          var i :| 0 <= i < |lowered| && lowered[i] == s;
          assert ignore[i] in ignore;
        }
        forall s | exists t :: t in ignore && LowerStr(t) == s ensures s in lowered {
          var t :| t in ignore && LowerStr(t) == s;
          var i :| 0 <= i < |ignore| && ignore[i] == t;
          assert lowered[i] == s;
        }
      }
      Success(Client(url, FilterConfig(lowered, minNgram, PolicyOf(setting)), retries, wait))
  }

  /** The legacy constructor: no retry settings and no validation. */
  function NewLegacyClient(setting: DuplicateSetting, minNgram: int, ignore: seq<String>): (c: FilterConfig)
    ensures c.minNgram == minNgram && c.policy == PolicyOf(setting)
    ensures forall s :: s in c.ignore <==> exists t :: t in ignore && LowerStr(t) == s
  {
    var r := NewClient([], setting, minNgram, ignore, 0, 0);
    r.value.filter
  }

  // ---------------------------------------------------------------------
  // The filter steps.
  // ---------------------------------------------------------------------

  predicate NotIgnored(cfg: FilterConfig, text: String) {
    LowerStr(text) !in cfg.ignore
  }

  /** The n-gram test passes trivially for a minimum of 1 or less; otherwise
      the first n-gram value must exist and have enough tokens. */
  predicate LongEnough(cfg: FilterConfig, x: Candidate) {
    cfg.minNgram <= 1 || (|Prop(x, NgramProp)| > 0 && TokenCount(Prop(x, NgramProp)[0]) >= cfg.minNgram)
  }

  /** An entry survives the first two steps. */
  predicate Survives(cfg: FilterConfig, x: Candidate) {
    NotIgnored(cfg, x.name) && LongEnough(cfg, x)
  }

  /** What the steps index directly: the first n-gram of every entry that
      reaches the length step, and the class property of every entry that
      reaches prioritised duplicate removal. */
  predicate WellFormed(cfg: FilterConfig, xs: seq<Candidate>) {
    (cfg.minNgram > 1 ==> forall i :: 0 <= i < |xs| && NotIgnored(cfg, xs[i].name) ==> |Prop(xs[i], NgramProp)| > 0)
    && (cfg.policy.Prioritised? ==> forall i :: 0 <= i < |xs| && Survives(cfg, xs[i]) ==> TypeProp in xs[i].properties)
  }

  function DropIgnored(cfg: FilterConfig, xs: seq<Candidate>): (r: seq<Candidate>)
    ensures forall x :: x in r <==> x in xs && NotIgnored(cfg, x.name)
    ensures IsSubsequence(r, xs)
  {
    if |cfg.ignore| > 0 then Filter(xs, (x: Candidate) => NotIgnored(cfg, x.name))
    else
      SubsequenceRefl(xs);
      xs
  }

  function DropShort(cfg: FilterConfig, xs: seq<Candidate>): (r: seq<Candidate>)
    requires cfg.minNgram > 1 ==> forall i :: 0 <= i < |xs| ==> |Prop(xs[i], NgramProp)| > 0
    ensures forall x :: x in r <==> x in xs && LongEnough(cfg, x)
    ensures IsSubsequence(r, xs)
    ensures cfg.minNgram <= 1 ==> r == xs
  {
    if cfg.minNgram > 1 then Filter(xs, (x: Candidate) => LongEnough(cfg, x))
    else
      SubsequenceRefl(xs);
      xs
  }

  /** The entries that pass both the ignore list and the length test, in
      their order. */
  function Survivors(cfg: FilterConfig, xs: seq<Candidate>): (r: seq<Candidate>)
    requires WellFormed(cfg, xs)
    ensures forall x :: x in r <==> x in xs && Survives(cfg, x)
    ensures cfg.policy.Prioritised? ==> forall i :: 0 <= i < |r| ==> TypeProp in r[i].properties
  {
    var r := Filter(xs, (x: Candidate) => Survives(cfg, x));
    forall i | 0 <= i < |r| && cfg.policy.Prioritised? ensures TypeProp in r[i].properties {
      assert r[i] in r;
      var j :| 0 <= j < |xs| && xs[j] == r[i];
    }
    r
  }

  /** The ignore step followed by the length step keeps exactly the
      survivors, whichever of the two steps are switched on. */
  lemma StepsKeepSurvivors(cfg: FilterConfig, xs: seq<Candidate>)
    requires WellFormed(cfg, xs)
    ensures var kept := DropIgnored(cfg, xs);
            (cfg.minNgram > 1 ==> forall i :: 0 <= i < |kept| ==> |Prop(kept[i], NgramProp)| > 0)
            && DropShort(cfg, kept) == Survivors(cfg, xs)
  {
    var kept := DropIgnored(cfg, xs);
    assert forall i :: 0 <= i < |kept| ==> kept[i] in xs && NotIgnored(cfg, kept[i].name);
    var survives := (x: Candidate) => Survives(cfg, x);
    var notIgnored := (x: Candidate) => NotIgnored(cfg, x.name);
    var longEnough := (x: Candidate) => LongEnough(cfg, x);
    if |cfg.ignore| > 0 {
      if cfg.minNgram > 1 {
        FilterTwice(xs, notIgnored, longEnough, survives);
      } else {
        FilterExt(xs, notIgnored, survives);
      }
    } else {
      assert cfg.ignore == [];
      if cfg.minNgram > 1 {
        FilterExt(xs, longEnough, survives);
      } else {
        FilterAll(xs, survives);
      }
    }
  }

  /** `_filter(results)`: ignore list, then n-gram length, then duplicate
      removal of what survives the first two. */
  function FilterMatches(cfg: FilterConfig, xs: seq<Candidate>): (r: seq<Candidate>)
    requires WellFormed(cfg, xs)
    ensures r == RemoveDuplicates(cfg.policy, Survivors(cfg, xs))
    ensures IsSubsequence(r, xs)
    ensures forall x :: x in r ==> x in xs && Survives(cfg, x)
    ensures cfg.policy.Disabled? ==> forall x :: x in r <==> x in xs && Survives(cfg, x)
  {
    StepsKeepSurvivors(cfg, xs);
    var kept := DropIgnored(cfg, xs);
    var long := DropShort(cfg, kept);
    var r := RemoveDuplicates(cfg.policy, long);
    SubsequenceMembers(r, long);
    SubsequenceTrans(r, long, kept);
    SubsequenceTrans(r, kept, xs);
    r
  }

  /** `_filter(results, candidates=True)`: the candidate strings themselves
      are the labels and the n-grams; duplicates are never removed. */
  function FilterCandidates(cfg: FilterConfig, xs: seq<String>): (r: seq<String>)
    ensures IsSubsequence(r, xs)
    ensures forall s :: s in r <==> s in xs && NotIgnored(cfg, s) && (cfg.minNgram <= 1 || TokenCount(s) >= cfg.minNgram)
    ensures forall s :: s in r ==> multiset(r)[s] == multiset(xs)[s]
  {
    var notIgnored := (s: String) => NotIgnored(cfg, s);
    var longEnough := (s: String) => TokenCount(s) >= cfg.minNgram;
    var kept :=
      if |cfg.ignore| > 0 then (FilterMultiset(xs, notIgnored); Filter(xs, notIgnored))
      else (SubsequenceRefl(xs); xs);
    var r :=
      if cfg.minNgram > 1 then (FilterMultiset(kept, longEnough); Filter(kept, longEnough))
      else (SubsequenceRefl(kept); kept);
    SubsequenceTrans(r, kept, xs);
    r
  }

  /** A parsed legacy service response: the locale and the results. */
  datatype Response = Response(locale: String, results: seq<Candidate>)

  /** The legacy `_filter`, which runs the same three steps on the
      `results` field of the whole response and leaves the rest alone. */
  function LegacyFilter(cfg: FilterConfig, response: Response): (r: Response)
    requires WellFormed(cfg, response.results)
    ensures r.locale == response.locale
    ensures r.results == RemoveDuplicates(cfg.policy, Survivors(cfg, response.results))
    ensures IsSubsequence(r.results, response.results)
    ensures forall x :: x in r.results ==> Survives(cfg, x)
    ensures cfg.policy.Disabled? ==> forall x :: x in r.results <==> x in response.results && Survives(cfg, x)
  {
    response.(results := FilterMatches(cfg, response.results))
  }

  /** A configuration that ignores nothing, accepts every length and keeps
      duplicates passes results through unchanged. */
  lemma FilterNoop(cfg: FilterConfig, xs: seq<Candidate>)
    requires |cfg.ignore| == 0 && cfg.minNgram <= 1 && cfg.policy.Disabled?
    ensures FilterMatches(cfg, xs) == xs
  {
  }

  /** The ignore list is case-insensitive: a result whose label equals an
      ignored phrase up to case never comes out. */
  lemma IgnoreIsCaseInsensitive(url: String, setting: DuplicateSetting, minNgram: int, ignore: seq<String>,
                                retries: nat, wait: nat, xs: seq<Candidate>, x: Candidate, t: String)
    requires t in ignore && LowerStr(x.name) == LowerStr(t)
    requires WellFormed(NewClient(url, setting, minNgram, ignore, retries, wait).value.filter, xs)
    ensures x !in FilterMatches(NewClient(url, setting, minNgram, ignore, retries, wait).value.filter, xs)
  {
    var cfg := NewClient(url, setting, minNgram, ignore, retries, wait).value.filter;
    assert LowerStr(x.name) in cfg.ignore;
  }
}
