# python-arpa-linker, modelled in Dafny

This project models the core of the ARPA linker. The linker sends the text of an RDF
resource to an ARPA matching service. It filters and de-duplicates the entities the
service returns, optionally lets a dataset-specific validator reject some of them, and
adds one triple per surviving entity to the graph. The model covers three groups.

- **The service client** (`arpa_linker/arpa.py` and the older `arpa.py`):
  - rendering SPARQL terms (`_get_value`);
  - folding SPARQL rows into candidate records (`map_results`);
  - the retry contract of `post`;
  - the constructor checks;
  - the ignore-list, n-gram and duplicate filters (`_filter_results`, `_filter`,
    `_remove_duplicates`);
  - the empty-text guard of `query` and `get_candidates`;
  - `get_distinct_mentions`, `get_uri_matches`, `combine_values`, `_sanitize`;
  - the counting loop of `arpafy`.
- **The person validators** (`warsa/persons.py` and the older `persons.py`):
  - the overlapping-mention tables (`get_ranked_matches`, `get_match_scores`);
  - promotion histories (`get_current_rank`, both `get_fuzzy_current_ranks`,
    `filter_promotions_after_wars`, `get_ranks_with_unknown_date`);
  - the integer sub-scores (date, rank, source, knight, unit);
  - their sum (`get_score`), with a fixed 50 for Mannerheim;
  - the `> 0` threshold;
  - `choose_best`, which keeps only the best-scoring persons per mention.
- **Small dataset linkers**:
  - the filter that drops persons who died before a picture was taken (`menehtyneet.py`);
  - the `/` preprocessor of the rank linker (`ranks.py`);
  - the `-` preprocessor of the place linker (`places.py`).

## Modelling choices

- **Candidates.** A candidate is an immutable record: id, label, the mentions it matched,
  and a map from property names to lists of strings.
- **Dates.** Dates are day numbers (`date.toordinal()`). `parse_date` and `strptime` return
  an `Option`.
- **Outside calls become parameters:**
  - HTTP attempts are a function from attempt number to outcome: a body, a retried
    failure, or an exception `requests.post` raises itself;
  - the lookups of `arpafy` are a function from (subject, text) to outcome;
  - the validator is a function on result lists;
  - the event date, the event's units and its text are record fields;
  - the regex tests of rank scoring are fields of `Scoring.RankTests`;
  - the name score and the legacy rank score are parameters.
- **Set iteration order.** Python iterates sets and dictionaries in an order the model
  cannot see. The model uses first appearance: mentions in the order a candidate lists
  them, table keys in the order they are first added.
- **Crashes become preconditions.** Where the source crashes with an uncaught
  `KeyError`, `IndexError` or parse error, the model states the demand as a `requires`.
  Examples: the `type` property that prioritised de-duplication indexes, and the
  `hierarchy` list whose maximum `get_rank_score` takes. The one exception is a service
  reply the filter cannot read: its data comes from the network rather than the caller, so
  `Service.Query` reports it as a `MalformedReply` error.

### Where the documented behaviour and the code differ (the model follows the code)

- **Rank score.** `warsa/persons.py:520-565` gives +8 for a current rank, +7 for a rank
  with an unknown date, -15 for a wrong rank and -10 for an inconsistent rank in context.
  `warsa/test_persons.py:291-365` expects larger values: 21 and -14 at lines 298-299, and 11
  at lines 317, 357 and 365.
- **Unit score.** It is 15 (`warsa/persons.py:675-676`); `warsa/test_persons.py:453` expects 10.
- **Overlapping-mention score.** A mention's score counts every other mention that
  contains it, not only mentions shared with the same id (`warsa/persons.py:304`).
- **Overlapping-mention URIs.** The loop at `warsa/persons.py:305-307` overwrites `uris`
  on each pass. A mention therefore keeps its ids minus the ids of the LAST mention that
  contains it, not minus those of all of them.
- **`choose_best` idempotence.** Idempotence holds for the set of chosen ids, not for the
  order of the returned list.

## Model

| member | source | states |
|---|---|---|
| SparqlMapping.GetValue | arpa_linker/arpa.py:109-119 | a URI is wrapped in angle brackets; a literal is quoted and followed by `^^` and its datatype when it has one; any other term is its bare value |
| SparqlMapping.DateLiteralParses | arpa_linker/arpa.py:109-119 | a date literal rendered by `_get_value`, typed or not, is read back by `parse_date` as the same day |
| SparqlMapping.MapResults | arpa_linker/arpa.py:122-163 | one record per distinct id, in order of first appearance; each record equals the reference record built from exactly the rows carrying that id |
| SparqlMapping.MapResultsIsRecords | arpa_linker/arpa.py:133-157 | the row-by-row fold produces exactly those reference records |
| SparqlMapping.RecordOfNewId | arpa_linker/arpa.py:137-146 | a row with an unseen id starts a record equal to that id's reference record |
| SparqlMapping.RecordOfKnownId | arpa_linker/arpa.py:147-157 | merging a row into a known id's record (new n-gram appended, each value appended) gives the reference record of the longer row list |
| SparqlMapping.RecordOfOtherId | arpa_linker/arpa.py:134-157 | a row leaves the rows, and so the records, of every other id unchanged |
| SparqlMapping.SingleRowProperties | arpa_linker/arpa.py:139-145 | the reference record of a lone row has that row's n-gram and one rendered value per bound key |
| SparqlMapping.RowsWithEmpty | arpa_linker/arpa.py:122-163 | an id has rows exactly when it is one of the rows' ids |
| Service.Post | arpa_linker/arpa.py:166-209 | a negative retry count, then a negative wait, is rejected before any attempt; otherwise there are 1 to retries+1 attempts, all failed but the last, with `wait` between them; success exactly when, among the allowed attempts, the first one that is not an error status brings a body, which is returned; a request that raises before any response (a lost connection or a timeout) ends `post` at once with that exception, not retried; when every attempt fails, the failure names retries+1 attempts |
| Service.RequestUrl | arpa_linker/arpa.py:385 | the request URL extends the service URL, and is longer exactly in candidate mode |
| Service.Query | arpa_linker/arpa.py:369-392 | empty text fails before any attempt; otherwise a reply arrives exactly when, within the retry budget, a body comes before any request raises, and then the result is that reply's `results` (empty when absent) after the filter, or a malformed-reply error when a result lacks a property the filter reads (a `KeyError`); a raised request is passed on as a lost connection, and any other failed post is reported with the retries + 1 attempts |
| Service.GetCandidates | arpa_linker/arpa.py:452-471 | empty text fails before any attempt; otherwise the candidate strings come from the `?cgen` URL, filtered in candidate mode; a raised request is passed on as a lost connection, and any other failed post reports the `retries + 1` attempts it made |
| Service.DistinctMentions | arpa_linker/arpa.py:402-408 | a string is a distinct mention exactly when some result lists it among its matches |
| Service.DistinctMentionsAppend | arpa_linker/arpa.py:402-408 | the mentions of concatenated results are the union of the parts' mentions |
| Service.DistinctMentionsSubsequence | arpa_linker/arpa.py:402-408 | dropping results never adds a mention |
| Service.Sanitize | arpa.py:194-196 | the result holds no double quote or bracket, and is the input with exactly those characters deleted, in order |
| Service.SanitizeIdempotent | arpa.py:194-196 | sanitizing twice equals sanitizing once |
| ResultFilter.PolicyOf | arpa_linker/arpa.py:256-259 | `True` means first-wins; a non-empty class list becomes a priority tuple of the same length, each class in angle brackets; `False` and an empty list disable de-duplication |
| ResultFilter.NewClient | arpa_linker/arpa.py:215-266 | construction succeeds exactly when retries and wait are non-negative, with retries checked first; the ignore list holds exactly the lower-cased given words; the other settings are kept |
| ResultFilter.NewLegacyClient | arpa.py:85-111 | the legacy client keeps the minimum and policy and lower-cases the ignore list, with no checks |
| ResultFilter.DropIgnored | arpa_linker/arpa.py:332-333 | an entry survives exactly when its lower-cased label is not ignored, in input order |
| ResultFilter.DropShort | arpa_linker/arpa.py:335-337 | an entry survives exactly when the minimum is 1 or less, or its first n-gram has at least the minimum number of tokens; a minimum of 1 or less changes nothing |
| ResultFilter.Survivors | arpa_linker/arpa.py:325-337 | the entries that pass the ignore list and the n-gram minimum, exactly; under prioritised de-duplication each carries the `type` property |
| ResultFilter.StepsKeepSurvivors | arpa_linker/arpa.py:325-341 | the ignore step and then the n-gram step, each skipped when its setting is off, keep exactly the survivors |
| ResultFilter.FilterMatches | arpa_linker/arpa.py:325-367 | the result is the configured duplicate removal applied to the survivors of the ignore list and the n-gram minimum, in that order; hence an order-preserving subsequence of passing entries, and every passing entry when de-duplication is disabled |
| ResultFilter.FilterCandidates | arpa_linker/arpa.py:343-367 | in candidate mode a string survives exactly when it passes the ignore list and the n-gram minimum; survivors keep all their occurrences, since nothing is de-duplicated |
| ResultFilter.LegacyFilter | arpa.py:168-192 | the locale is kept; the results are the configured duplicate removal applied to the results passing both filters, and every such result when de-duplication is off |
| ResultFilter.FilterNoop | arpa_linker/arpa.py:325-341 | no ignore list, no minimum and no de-duplication return the results unchanged |
| ResultFilter.IgnoreIsCaseInsensitive | arpa_linker/arpa.py:252 | a result whose label matches an ignored word up to case never survives |
| Dedup.RemoveArbitrary | arpa_linker/arpa.py:284-290 | first-wins de-duplication: an order-preserving subsequence with pairwise distinct exact labels and the same label set as the input, each kept entry at the first position of its label |
| Dedup.RemoveArbitraryIsKeepFirsts | arpa_linker/arpa.py:284-290 | the seen-set comprehension equals an independent back-to-front first-occurrence definition |
| Dedup.KeepFirstFromLabels | arpa.py:127-133 | no label is lost: every input label is kept or was already seen |
| Dedup.WinnerStep | arpa_linker/arpa.py:299-319 | one loop step replaces the retained entry exactly when that entry has no types or the new entry has a strictly lower priority index, and so moves the closed-form winner of the group |
| Dedup.WinnerUnique | arpa_linker/arpa.py:292-321 | the closed-form winner of a lower-cased label group is a single position |
| Dedup.RetainedSpec | arpa_linker/arpa.py:292-321 | after the loop there is one retained entry per lower-cased label present, and it is that group's winner |
| Dedup.RetainedIffWinner | arpa_linker/arpa.py:292-321 | an input entry is retained exactly when it is its group's winner |
| Dedup.RetainedCovers | arpa_linker/arpa.py:292-321 | every lower-cased label of the input retains an input entry with that label |
| Dedup.RemovePrioritised | arpa_linker/arpa.py:292-321 | priority de-duplication: an order-preserving subsequence holding exactly the group winners, one per lower-cased label, covering every label of the input |
| Dedup.RemoveDuplicates | arpa_linker/arpa.py:268-323 | disabled is the identity, first-wins is the reference first-occurrence list, and a priority list gives the group winners; the legacy `arpa.py:113-166` behaves the same |
| Combine.UnescapeEscape | arpa_linker/arpa.py:799-803 | escaping a value's double quotes can be undone |
| Combine.CombineValues | arpa_linker/arpa.py:799-803 | the packed text starts and ends with a double quote |
| Combine.CombineRoundTrip | arpa_linker/arpa.py:799-803 | a non-empty list of values can be read back from its packed text |
| Combine.CombineEmptyAmbiguous | arpa_linker/arpa.py:799-803 | the empty list and the list holding one empty string pack to the same text, so the round trip needs a non-empty list |
| Pipeline.UriMatches | arpa_linker/arpa.py:410-450 | the validator runs only on non-empty results; the pre-validation mentions are empty without it; the mentions and ids come from the results it keeps |
| Pipeline.ValidationLosesMentions | arpa_linker/arpa.py:432-442 | a validator that only drops results cannot add mentions or results |
| Pipeline.Arpafy | arpa_linker/arpa.py:568-656 | the pairs are looked up in order; the first exception that is not an `HTTPError` or `ValueError` ends the run with that exception and no report; otherwise `processed` is the pair count, the caught errors are collected in order, `matches` is the number of results and equals the number of `add` calls, errors plus answered pairs make up all pairs, and matched subjects never exceed the answered pairs |
| Pipeline.FirstFatal | arpa_linker/arpa.py:622-627 | the run ends at the first pair whose exception `arpafy` does not catch: that pair's exception is uncaught and every earlier one was caught or answered |
| Pipeline.QueryException | arpa_linker/arpa.py:358-392 | of the failures of `query`, the reply the filter cannot read (a `KeyError`) and a request that raised before any response (a `requests` connection error or timeout) escape `arpafy`'s handler; empty text and rejected settings (`ValueError`) and a post out of retries (`HTTPError`) are caught |
| Pipeline.MalformedReplyEndsRun | arpa_linker/arpa.py:622-627 | a malformed service reply for some pair ends the run at that pair or an earlier one |
| Pipeline.TriplesSound | arpa_linker/arpa.py:630-638 | every added triple links the subject of an answered pair to one of that pair's results through the target property |
| Pipeline.ErrorsAndAnswers | arpa_linker/arpa.py:622-635 | each pair is either an error or answered; matched subjects are answered pairs |
| Pipeline.TotalsAppend | arpa_linker/arpa.py:603-656 | linking a graph in two parts reports the sums of the parts and the concatenation of their errors |
| Pipeline.TriplesCount | arpa_linker/arpa.py:630-638 | the number of `add` calls is the total number of results |
| Pipeline.GraphAtMostCalls | arpa_linker/arpa.py:637-638 | the graph holds exactly the distinct triples of the `add` calls, so it gains at most `matches` triples |
| Pipeline.LegacyArpafy | arpa.py:260-319 | the legacy loop stops at the first exception that is not an `HTTPError` or `ValueError`; otherwise it counts all pairs, collects the caught errors, and makes one `add` call per returned URI |
| MentionContext.RankedMatches | warsa/persons.py:295-308 | every mention of a result appears once, exactly when some id's last result names it; its score is -20 times the number of other mentions containing it; its URIs are its ids, minus the ids of the last containing mention when there is one |
| MentionContext.IdTableSpec | warsa/persons.py:296 | the id table holds each id once, with the mentions of that id's last result |
| MentionContext.OwnerTableSpec | warsa/persons.py:297-300 | the mention table names, for every mention, exactly the ids whose entries list it, each mention once |
| MentionContext.OwnersFromResults | warsa/persons.py:296-300 | those owners are the ids whose last result lists the mention |
| MentionContext.RankTableSpec | warsa/persons.py:301-307 | the ranked table has one entry per mention-table key, scored and pruned as above |
| MentionContext.MatchScores | warsa/persons.py:310-317 | an id has a match score exactly when some entry's URIs hold it, and the score is that of the last such entry |
| MentionContext.MatchTerm | warsa/persons.py:689 | the match term is never positive |
| MentionContext.MatchTermIsLastScore | warsa/persons.py:310-317 | an id some entry's URIs hold takes the score of the last such entry, and any other id takes 0 |
| MentionContext.ContainedMentionExample | persons.py:224-261 | a person named only by a mention that the other person's longer mention contains gets -20 with URIs of only itself; the longer mention gets 0 |
| MentionContext.SnellmanExample | persons.py:238-246 | the documented "A. Snellman" table: -20 and {lieutenant} for the short mention, 0 and {general} for the long one |
| Promotions.History | warsa/persons.py:367-379 | one history entry per rank value, with quotes stripped and both dates parsed in the same position |
| Promotions.CurrentRank | warsa/persons.py:339-360 | no rank exactly when no promotion is dated on or before the event; otherwise the rank of the latest such promotion, a later entry winning ties; the legacy `persons.py:340-375` is the same loop |
| Promotions.CurrentFoldExact | persons.py:340-375 | the loop agrees with the closed form "latest attained promotion, later index on ties" |
| Promotions.CurrentUnique | persons.py:340-375 | the closed form picks a single entry |
| Promotions.CurrentRankExample | persons.py:343-356 | three dated promotions: before the first none, between the second and third the second, after the third the third |
| Promotions.FuzzyCurrentRanks | warsa/persons.py:362-412 | the returned set is exactly the closed form: usable entries still held inside the window, plus the entries superseded before the window with the latest such promotion date |
| Promotions.FuzzyClosedForm | warsa/persons.py:381-412 | the loop with its running latest date and pruned candidate set agrees with that closed form |
| Promotions.FuzzyOnlyUsable | warsa/persons.py:369-385 | a returned rank is never `Yleisesikuntaupseeri`, and comes from an entry with both dates known promoted no later than event + range |
| Promotions.FuzzyKeepsWindow | warsa/persons.py:383-390 | every rank promoted by event + range and still held after event - range is returned |
| Promotions.LegacyFuzzyCurrentRanks | persons.py:377-443 | exactly the ranks promoted in (event - range, event + range], plus the single latest rank promoted on or before event - range, the first such rank winning ties |
| Promotions.LegacyClosedForm | persons.py:405-443 | the legacy loop agrees with that closed form |
| Promotions.LowestUnique | persons.py:433-436 | the closed form names one lowest entry |
| Promotions.LegacyFuzzyExcludes | persons.py:411-414 | `Yleisesikuntaupseeri` is never returned |
| Promotions.LegacyFuzzyExample | persons.py:379-391 | the doctest's shape: one rank before the window, one inside it and one after it give the first two |
| Promotions.PromotionsBeforeWarsEnded | persons.py:445-458 | exactly the quote-stripped ranks whose promotion date is unknown or before 1946-01-01 |
| Promotions.UnknownDateRanks | warsa/persons.py:461-469 | exactly the quote-stripped ranks whose promotion date is `NA`, in order; the legacy `persons.py:460-484` is the same with the rank type fixed to the `rank` property |
| Promotions.UnknownDateNeverAttained | warsa/persons.py:346-351 | a rank with an `NA` date has no parsed date, so it is never current |
| Dates.ParseTypedLiteral | warsa/persons.py:251-253 | `parse_date` reads a typed literal `"YYYY-MM-DD"^^type` as that day |
| Dates.ParsePlainIso | warsa/persons.py:251-253 | a bare ISO date parses as that day |
| Dates.ParseQuotedIso | persons.py:193-195 | a quoted date without a datatype parses as that day |
| Dates.NotAvailableIsUnknown | persons.py:193-195 | the `NA` placeholder does not parse |
| Dates.StrptimeIsoFormat | menehtyneet.py:13 | `strptime` with `%Y-%m-%d` reads back what `isoformat` writes |
| Dates.OrdinalMonotonic | warsa/persons.py:571-576 | day numbers are ordered like the calendar dates they stand for |
| Scoring.DateScore | warsa/persons.py:567-588 | -30 exactly when the event is more than 30 days after the first death date, otherwise 0 |
| Scoring.DateScoreOfLiteral | warsa/persons.py:567-588 | for a typed death-date literal: the penalty applies exactly after 30 days, stays for every later event, and never applies to an undated event |
| Scoring.SourceScore | warsa/persons.py:621-629 | 0 without sources; otherwise the largest table weight among the distinct sources plus 1 when there are several |
| Scoring.SourceScoreRange | warsa/persons.py:15-29 | the source score lies in 0..2, and reaches 2 only with several sources including a weighted one |
| Scoring.KnightSearch | warsa/persons.py:653-666 | the loop finds a knight exactly when some ranked entry holding the person also holds a knight |
| Scoring.KnightScore | warsa/persons.py:637-666 | 0 when the text does not mention a knight; 20 for a knight; -20 exactly when the person shares a ranked entry with a knight; nothing else |
| Scoring.UnitScore | warsa/persons.py:668-677 | 15 exactly when the event shares a unit with the person, otherwise 0 |
| Scoring.ClassScoreRange | warsa/persons.py:31-50 | the rank-class base score lies in -7..1 |
| Scoring.RankScore | warsa/persons.py:516-565 | -10 exactly when a known rank is inconsistent with the context; otherwise a class score adjusted by +8, +7 or -15, so always in -22..9 |
| Scoring.RankBonusForHeldRank | warsa/persons.py:542-546 | for a dated event, a mention starting with a rank held inside the window earns the class score + 8 |
| Scoring.Score | warsa/persons.py:679-710 | 50 for Mannerheim; otherwise at most 37 above the name and rank terms, and, without a knight mention and with a match term of 0, the date, rank, name, source and unit terms alone |
| Scoring.ScoreIsSum | warsa/persons.py:679-710 | any person but Mannerheim scores the sum of the match, date, rank, name, source, knight and unit terms, each of which has its own contract |
| Scoring.OthersOnlyThroughOverlap | warsa/persons.py:679-710 | unless the text speaks of knights, the other results change a person's score only by the match term: the score among them is the score alone plus that term |
| Scoring.ScoreBounds | warsa/persons.py:679-710 | no score exceeds the name term + 46; a person dead long before the event, with no knight context and no shared unit, scores at most the name term - 19 |
| Scoring.FindSlot | warsa/persons.py:719-721 | a mention has a slot in `match_dict` exactly when it was seen |
| Scoring.PlaceAllSpec | warsa/persons.py:716-728 | after the loop, every seen mention has one slot holding its top score and exactly the (person, mention) pairs reaching it |
| Scoring.Collect | warsa/persons.py:729-739 | the collected list has distinct ids, takes only slot persons, and includes the id of every slot person |
| Scoring.ChooseBest | warsa/persons.py:712-740 | 0 or 1 persons are returned as they are; otherwise the result has distinct ids, holds only persons scoring at least as well as everyone sharing one of their mentions, and includes every such person's id |
| Scoring.ChosenAreBest | warsa/persons.py:712-740 | every collected person is best on one of its mentions |
| Scoring.BestAreChosen | warsa/persons.py:712-740 | every best person's id is collected |
| Scoring.ScoreAll | warsa/persons.py:748-749 | each person is paired with its own score |
| Scoring.PassedFacts | warsa/persons.py:748-762 | the persons passing the threshold are input persons carrying their own positive score, and every input person scoring above 0 passes |
| Scoring.Validate | warsa/persons.py:742-767 | an empty input gives nothing; every returned person is an input person scoring above 0 with its score attached and best among the passing persons; every passing best person's id is returned, once |
| Scoring.MannerheimPasses | warsa/persons.py:683-687 | Mannerheim always passes the threshold |
| LegacyScoring.LegacyDateScore | persons.py:635-676 | -20 exactly when the event is more than 30 days after the death date, otherwise 0 |
| LegacyScoring.DateScoresAgree | persons.py:635-676 | the two validators penalise the same persons, the legacy penalty being two thirds of the current one |
| LegacyScoring.AsWrittenMatchTerm | persons.py:831-841 | as written, the overlap lookup fails exactly when the person id is itself a mention, and otherwise adds 0 |
| LegacyScoring.AsWrittenScore | persons.py:831-841 | as written: 50 for Mannerheim; otherwise it fails exactly when the id is a mention, and else equals the corrected score without its overlap penalty |
| LegacyScoring.LegacyScore | persons.py:831-841 | corrected: 50 for Mannerheim; otherwise the match term plus the date, rank and name terms, so never above the latter three, and equal to them when the match term is 0 |
| LegacyScoring.LegacyOthersOnlyThroughOverlap | persons.py:831-841 | the other results change a person's corrected score only by the match term |
| LegacyScoring.CorrectionOnlyLowers | persons.py:831-841 | wherever the code as written gives a score, the corrected score is no higher, and the same when the person's match term is 0 |
| LegacyScoring.AsWrittenMissesOverlap | persons.py:847 | a person named only by a contained mention gets 0 as written but -20 when corrected |
| LegacyScoring.SnellmanAsWritten | persons.py:238-246 | the documented lieutenant "A. Snellman" gets 0 as written instead of the documented -20 |
| LegacyScoring.LegacyValidate | persons.py:843-867 | corrected: an order-preserving subsequence of exactly the persons whose corrected score is above 0, always including Mannerheim |
| LegacyScoring.AsWrittenValidate | persons.py:843-867 | as written: no result when scoring raises (a person other than Mannerheim named by an overlapping mention); otherwise an order-preserving subsequence of exactly the persons whose as-written score is above 0 |
| LegacyScoring.CorrectionKeepsFewer | persons.py:831-867 | every person the corrected validator keeps is kept as written; the two agree on every person whose match term is 0 |
| LegacyScoring.OverlapKeptOnlyAsWritten | persons.py:238-246 | a person inside another's longer mention, whose other terms sum to 1..20, is kept as written and dropped once corrected |
| Linkers.DropDead | menehtyneet.py:8-30 | unchanged without results or without a picture date; otherwise the persons in order, dropping exactly those whose death date is before the picture's day; a person without `kuolinaika` is always kept |
| Linkers.DeathDayBoundary | menehtyneet.py:17-28 | a picture taken on the day of death or before it keeps the person; one taken later drops them |
| Linkers.RankPreprocessor | ranks.py:4-10 | text without `/` is unchanged; the output always starts with the text; with k parts, the k segments `" # " + part` follow in reverse order |
| Linkers.AppendedSegments | ranks.py:7-8 | the appended text is the reversed parts, each after `" # "` |
| Linkers.PlacePreprocessor | places.py:4-5 | the output has no `-`; text without `-` is just stripped; text with `-` yields a join with `", "` |
| Linkers.PlacePieces | places.py:4-5 | for text read as its dash-free pieces, there is one piece per `-` plus one, and the output is the pieces, each stripped, joined with `", "` |

## Left out

- HTTP transport, JSON decoding, `time.sleep` and logging. An attempt's outcome is a
  parameter, and the total wait is reported as a number.
- rdflib graph plumbing: `_get_subgraph`, `prune_candidates`, `combine_candidates`,
  `get_s_start_date`, the graph reads of `ValidationContext.__init__`, and graph
  serialisation. The event date, units, original text and picture date are inputs, and
  `arpafy` works on a list of (subject, text) pairs.
- The CLI, argument parsing, `log_to_file`, progress bars, `process`, `process_graph`, the
  link helpers, `setup.py`, and the module-level `dataset` flag with `set_dataset`.
- Regex text normalisers and pruners (`preprocessor`, `add_titles`, `replace_*_list`,
  `normalize_ranks`, `handle_specific_people`, `pruner`, and the unit preprocessors). They
  depend on Python regex semantics and on data-specific rewrite tables.
- `has_consistent_rank`, `_check_rank`, the rank-token detection in `get_rank_score`,
  `filter_promotions_outside_wars` and `get_name_score`. Being regex or graph driven, they
  are the fields of `Scoring.RankTests` and the `names` parameter.
- `get_rank_level` and `get_lowest_rank_level`: no modelled member calls them.
- The legacy `get_rank_score`, `has_consistent_rank` and `get_name_score`. They are the
  fields of `LegacyScoring.LegacyTerms`.
- `extract_uris` wrapping ids as `URIRef` and `get_candidates` wrapping strings as
  `Literal`: plain strings stand for both.
- Date arithmetic overflow near year 9999 (`timedelta` additions raise `OverflowError`):
  day numbers are unbounded.
- Scoring.RankScore: the contract states the inconsistent-context case, the range and
  (through `Scoring.RankBonusForHeldRank`) the current-rank bonus. The +7 and -15 branches
  are not restated separately, because they depend only on the abstract regex tests.
- Scoring.RankScore: `requires Scoring.RankScoreDefined`, the path-wise condition under
  which the lookups `get_rank_score` and its helpers make on the person's properties
  succeed: `has_consistent_rank` reads `rank` and `hierarchy` once it finds a rank in the
  context; a missing or empty `hierarchy` fails `max()`; the chosen rank list is
  enumerated; without an event date `filter_promotions_outside_wars` enumerates `rank`
  through `get_lowest_rank_level`; and a missing promotion-date list raises. What the
  abstract fields of `Scoring.RankTests` compute is taken as given, so a crash inside a
  regex test itself is not modelled.
- Scoring.Score: the name term is an arbitrary parameter, so the bounds are stated
  relative to it.
- Scoring.ChooseBest: requires every score to be positive. `validate` only passes positive
  scores, and a zero score for an unseen mention would raise `KeyError` at
  `match_dict[match]`.
- Scoring.Validate and LegacyScoring.LegacyValidate: require every person's death date
  (and, for the current validator, rank data) to be readable. `get_death_date` catches a
  missing key and an unparseable date and returns `None`, which the model's `None` date
  mirrors; only an empty `death_date` list (an `IndexError`) escapes, and that is what the
  requires excludes.
- LegacyScoring.LegacyValidate: validates with the corrected score (see Findings), so it
  does not raise on an overlapping mention and may keep fewer persons than the code as
  written; `LegacyScoring.AsWrittenValidate` is the filter as written, and
  `LegacyScoring.CorrectionKeepsFewer` relates the two.
- Text.Lower and Text.IsSpace: Python's `str.lower`, `split()` and `strip()` act on all of
  Unicode; the model lowers only ASCII and the Latin-1 capitals `À`..`Þ` and treats only
  the ASCII whitespace and `\x1c`..`\x1f` as space. Outside that range the results of
  ResultFilter.NotIgnored and ResultFilter.DropIgnored (the ignore list), ResultFilter.LongEnough,
  ResultFilter.DropShort and ResultFilter.FilterCandidates (the n-gram count),
  Candidates.LabelKey (the prioritised grouping), Scoring.MentionsKnight, Scoring.RankSet,
  Scoring.RankTypeOf and Linkers.PlacePreprocessor (the stripped pieces) may differ from the
  source.
- Linkers.DropDead: requires the picture date and every `kuolinaika` value to parse when
  the filter runs. The source catches only the missing key: an empty list or a malformed
  date raises.
- Dedup.RemovePrioritised: requires every entry to carry a `type` property, which the
  source indexes without a default.
- SparqlMapping.MapResults: requires every row to bind `id`, which the source indexes
  without a default.
- Pipeline.Arpafy: the `processed` count is the pair count. The exceptions a lookup raises
  share one error type parameter, and a flag records whether an exception is of a class
  `arpafy` catches. A preprocessor (and, in the legacy loop, a validator factory) is a total
  function here. In the source, an exception from either is raised outside the `try` and
  ends the run, as an uncaught lookup exception does.
- Pipeline.Arpafy: `added` lists the `add` calls. rdflib's graph is a set: a triple that is
  repeated, or already in the output graph, adds nothing. `Pipeline.GraphAtMostCalls`
  states the first case. The output graph's earlier contents are not modelled.
- Python's set and dictionary iteration order is fixed to first appearance. Where the
  source's result depends on that order (the `uris` overwrite in `get_ranked_matches`,
  the order of `choose_best`'s output), the model states the first-appearance result.

## Findings

| source | as written | input that shows it | evidently intended | confidence | as-written member | corrected member |
|---|---|---|---|---|---|---|
| persons.py:847-850 | `validate` passes the mention-keyed table of `get_ranked_matches` to `get_score`, whose `ranked_matches.get(person_id, 0)` (persons.py:836) therefore always adds 0, or fails with a `TypeError` when an id equals a mention | the documented pair: lieutenant matched by "A. Snellman", general matched by it and "Kenraalimajuri A. Snellman"; the lieutenant's overlap term is 0 | the id-keyed scores of `get_match_scores`, as the doctest of `get_score` (persons.py:826-829) computes them: -20 for the lieutenant | not executed | LegacyScoring.AsWrittenMissesOverlap | LegacyScoring.LegacyScore |
