# LLM Council orchestration, modelled in Dafny

The council answers a user's question in stages. Every council member
answers (stage 1). Every member then ranks the anonymised answers, and
the rankings are parsed and aggregated (stage 2). Every member is shown
its peers' evaluations and asked to correct its own answer (stage 2.5).
Finally the chairman synthesises a final answer (stage 3). This project
models the deterministic core of `backend/council.py`:

- the ranking parser (`parse_ranking_from_text`): the `FINAL RANKING:`
  marker and the two patterns `\d+\.\s*Response [A-Z]` and
  `Response [A-Z]`, written out as scanners with `re.findall` semantics
  (module `RankingParser`, with the character classes and the string
  helpers `join`/`strip` in `Text`);
- the anonymiser, the `label_to_model` map of stage 2 (`Anonymizer`);
- the aggregator `calculate_aggregate_rankings`: the nested loops that
  fill the `defaultdict` of positions, the averages, and Python's stable
  sort (`Aggregator`, `RankSort`);
- the peer-critique formatter and the correction prompt (`Critiques`);
- the assembly of each stage's results, the driver `run_full_council`
  with its short circuit, and the clean-up of the conversation title
  (`Council`).

Every remote model call is replaced by its result, passed in as an input.
A failed call is `None`. A successful call is `Some(Reply(content))`, where
`content` is `None` when the reply has no `content` field. A
`query_models_parallel` result is a sequence of `Answer(model, reply)` in
the order of the dict it returns. The loops of the source are methods,
each proved equal to a specification function. The properties are proved
about those functions.

## Model

| member | source | states |
|---|---|---|
| `CouncilTypes.ContentOr` | backend/council.py:29 | `reply.get('content', default)`: the content when present, the default otherwise |
| `CouncilTypes.ModelsOf` | backend/council.py:53-56 | the models of the stage-1 entries, one per entry, in order |
| `Text.JoinEmpty` | backend/council.py:237 | `Text.Join` is `sep.join(parts)`; joining with a non-empty separator gives "" exactly when there are no parts or the only part is "" |
| `Text.JoinContainsParts` | backend/council.py:237 | for `Text.Join`, every part occurs whole inside the joined string |
| `Text.TrimStart` | backend/council.py:410-413 | the result is a suffix of the input; everything dropped is strippable; the result does not start with a strippable character |
| `Text.TrimEnd` | backend/council.py:410-413 | the result is a prefix of the input; everything dropped is strippable; the result does not end with a strippable character |
| `Text.StripKeepsCore` | backend/council.py:410-413 | `Text.Strip`, Python's `strip`, keeps one contiguous piece of the input, with only strippable characters around it and none at its ends |
| `Text.StripEnds` | backend/council.py:410-413 | what `strip` keeps neither starts nor ends with a strippable character |
| `Text.StripIdempotent` | backend/council.py:410-413 | stripping twice strips nothing more |
| `RankingParser.BareLabels` | backend/council.py:203-207 | every element of `re.findall(r'Response [A-Z]', s)` is a label; matches do not overlap, so there are at most `len(s) / 10` |
| `RankingParser.BareStarts` | backend/council.py:203-207 | soundness of the bare scan: each returned label stands at its start position in the text, and the positions increase without overlap |
| `RankingParser.BareStartsCover` | backend/council.py:203-207 | completeness of the bare scan: every `Response X` in the text lies inside one of the returned matches, so no occurrence is skipped and repeated labels are all returned |
| `RankingParser.BareLabelsScan` | backend/council.py:203-207 | the bare scan returns exactly `re.findall`'s leftmost non-overlapping matches: sound (`ReadAt`) and complete (every occurrence covered) |
| `RankingParser.BareLabelsEmpty` | backend/council.py:203-207 | the bare scan is empty exactly when no `Response X` occurs anywhere in the text |
| `RankingParser.DigitRunEnd` | backend/council.py:197 | the maximal run of `\d` starting at an index |
| `RankingParser.SpaceRunEnd` | backend/council.py:197 | the maximal run of `\s` starting at an index |
| `RankingParser.NumberedMatchAt` | backend/council.py:197 | a numbered match at index 0 starts with a digit and its last ten characters are a label |
| `RankingParser.NumberedMatchAtExact` | backend/council.py:197 | the scanner finds a match exactly when `\d+\.\s*Response [A-Z]` matches at index 0 (digits, '.', blanks, label), and it ends where that match ends |
| `RankingParser.NumberedLabels` | backend/council.py:197-200 | every element extracted from the numbered matches is a label |
| `RankingParser.NumberedLabelsHaveLabel` | backend/council.py:197-200 | a non-empty numbered scan implies a label occurs in the text |
| `RankingParser.NumberedLabelsRead` | backend/council.py:197-200 | the numbered scan's labels stand in the text at increasing label positions; each comes from a numbered match that ends with it; the matches do not overlap; every position where `\d+\.\s*Response [A-Z]` matches lies inside one of them, so no match is skipped and repeated labels are all returned |
| `RankingParser.FindMarker` | backend/council.py:190-194 | the first occurrence of `FINAL RANKING:` at or after a position, or none |
| `RankingParser.ParseSection` | backend/council.py:197-204 | the numbered labels when there are any, else the bare labels; all are labels |
| `RankingParser.ParseRanking` | backend/council.py:177-208 | every element returned is "Response " and one letter A-Z |
| `RankingParser.MarkerColonOnlyLast` | backend/council.py:190 | the marker's only ':' is its last character |
| `RankingParser.NoMarkerBefore` | backend/council.py:192-194 | no marker occurrence can straddle into text that starts with the marker |
| `RankingParser.NoColonNoMarker` | backend/council.py:190 | a text without ':' contains no marker |
| `RankingParser.SegmentRule` | backend/council.py:190-204 | `RankingParser.Section` is `split("FINAL RANKING:")[1]`: with the marker present, the result depends only on the text between the first marker and the next marker or the end |
| `RankingParser.MarkerFoundIffContains` | backend/council.py:190 | the marker is found exactly when `"FINAL RANKING:" in text` |
| `RankingParser.WithoutMarkerWholeText` | backend/council.py:206-208 | without the marker the whole text is scanned for bare labels |
| `RankingParser.SectionLabelInText` | backend/council.py:192-194 | a label in the section is a label of the whole text |
| `RankingParser.NonEmptyRankingHasLabel` | backend/council.py:177-208 | a non-empty result means some `Response X` occurs in the text |
| `RankingParser.SectionRead` | backend/council.py:192-194 | labels read from `RankingParser.Section` after a marker are read from the whole text, at positions shifted past the marker |
| `RankingParser.ParseRankingRead` | backend/council.py:177-208 | soundness: every returned label is read from the text, at increasing, non-overlapping positions, in the order returned |
| `RankingParser.ParseSectionFindsAll` | backend/council.py:197-207 | the labels taken from a section are all of `findall`'s matches: every numbered match when there is one, otherwise every bare `Response X`, each covered by a returned match |
| `RankingParser.ParseRankingFindsAll` | backend/council.py:177-208 | completeness: with the marker, every match of the section after it is returned; without it, every `Response X` of the whole text is returned |
| `RankingParser.NoLabelEmptyRanking` | backend/council.py:177-208 | a text with no `Response X` yields `[]` |
| `RankingParser.NumberedLine` | backend/council.py:197-200 | the numbered scan of "N. Response X" followed by more text |
| `RankingParser.TwoLineSection` | backend/council.py:197-200 | the numbered scan of "\n1. Response X\n2. Response Y" gives X, then Y |
| `RankingParser.TwoLineRanking` | backend/council.py:177-208 | "FINAL RANKING:\n1. Response X\n2. Response Y" parses to the two labels in order |
| `Anonymizer.LabelOf` | backend/council.py:50-54 | the i-th label is a parseable label whose letter is `chr(65 + i)` |
| `Anonymizer.LabelOfInjective` | backend/council.py:50-54 | different indices get different labels |
| `Anonymizer.LabelMap` | backend/council.py:50-56 | key `LabelOf(i)` maps to the model of stage-1 entry i; there are no other keys; every key is a label |
| `Anonymizer.LabelsUpToSize` | backend/council.py:50 | the first n labels are n different labels |
| `Anonymizer.LabelMapSize` | backend/council.py:50-56 | the keys are exactly the first n labels of the alphabet, and there are n of them |
| `Anonymizer.LabelMapInjective` | backend/council.py:50-56 | with distinct stage-1 models, two labels name the same model exactly when they are the same label |
| `Anonymizer.LabelMapLabelsParse` | backend/council.py:50-56 | every label of the map is one the parser can return |
| `Anonymizer.LabelAsWritten` | backend/council.py:50 | `"Response " + chr(65 + i)` with no bound on i |
| `Anonymizer.LabelMapAsWritten` | backend/council.py:50-56 | the map exactly as written, for any number of entries |
| `Anonymizer.AsWrittenAgreesUpToCapacity` | backend/council.py:50-56 | up to 26 entries the map as written is the modelled map |
| `Anonymizer.OverflowLabelNeverParsed` | backend/council.py:50-56 | from the 27th entry on, the label in the map as written is never returned by the parser |
| `RankSort.Insert` | backend/council.py:314 | inserting a row adds exactly that row (multiset) |
| `RankSort.SortByAverage` | backend/council.py:314 | the sort is a permutation of its input (multiset) |
| `RankSort.InsertSorted` | backend/council.py:314 | insertion keeps the rows ordered by average |
| `RankSort.SortSorted` | backend/council.py:314 | the sorted rows are in nondecreasing order of average |
| `RankSort.TiesCons` | backend/council.py:314 | a row put in front of rows keeps ties ordered when its key is below that of every row it ties with |
| `RankSort.InsertTies` | backend/council.py:314 | insertion after every earlier key keeps equal averages in key order |
| `RankSort.SortTies` | backend/council.py:314 | stability: rows of equal average keep their input order |
| `RankSort.InsertDistinct` | backend/council.py:314 | insertion of a new model keeps models distinct |
| `RankSort.SortDistinct` | backend/council.py:314 | sorting never gives a model a second row |
| `RankSort.SortedRowIn` | backend/council.py:314 | sorting only reorders: every sorted row is one of the input rows |
| `RankSort.SortKeepsRows` | backend/council.py:314 | the sorted rows name the same models as the input |
| `Aggregator.RankingVotes` | backend/council.py:297-300 | every recorded position is between 1 and the parsed list's length |
| `Aggregator.RankingVotesExact` | backend/council.py:297-300 | a model gets position p from a ranking exactly when the p-th label of the full parsed list (unresolvable labels counted) maps to it |
| `Aggregator.MaxParsedLength` | backend/council.py:291-297 | the length of the longest parsed ranking: a bound on every one, reached by one of them, and 0 when there are no rankers |
| `Aggregator.AllVotesResolve` | backend/council.py:291-300 | every position is recorded for a model of the label map and is at most the longest parsed ranking |
| `Aggregator.PositionsOf` | backend/council.py:300 | a model gets at most one position per vote (which positions: `PositionsOfExact`) |
| `Aggregator.FirstVote` | backend/council.py:289-300 | the index of the first vote for a model: no earlier vote is for it |
| `Aggregator.TallyOf` | backend/council.py:289-300 | every model in the insertion order is a key of the dict |
| `Aggregator.TallyKeys` | backend/council.py:289-300 | the dict's keys are its insertion order, without repetition |
| `Aggregator.PositionsFirstVote` | backend/council.py:300 | a model has positions exactly when it has a first vote |
| `Aggregator.TallyPositions` | backend/council.py:289-300 | the keys are exactly the models that got a vote, each holding its positions in the order cast |
| `Aggregator.TallyFirstSeen` | backend/council.py:289-304 | the dict's iteration order is the order of each model's first vote |
| `Aggregator.RowsForExact` | backend/council.py:303-311 | one row per key, in iteration order, with the count and the average of its positions |
| `Aggregator.CollectRanking` | backend/council.py:297-300 | the inner loop over one parsed ranking turns the dict and its insertion order into the tally of the earlier votes followed by this ranking's votes |
| `Aggregator.CollectPositions` | backend/council.py:289-300 | the nested loops fill the dict and its insertion order exactly as the specification tallies the votes |
| `Aggregator.CalculateAggregateRankings` | backend/council.py:272-316 | the method returns `Aggregator.AggregateRankings`, the specification whose properties the `Aggregate…` lemmas below prove |
| `Aggregator.PositionsOfExact` | backend/council.py:300 | p is a position of a model exactly when a vote for it at p was cast |
| `Aggregator.AllVotesExact` | backend/council.py:291-300 | `Aggregator.AllVotes`, the votes of the nested loops: a vote is cast exactly when some ranker's p-th parsed label maps to the model |
| `Aggregator.PositionsAreIndices` | backend/council.py:291-300 | a model's recorded positions are exactly the 1-based indices, in some ranker's full parsed list, of labels that map to it |
| `Aggregator.PositionsOfAppend` | backend/council.py:300 | positions of concatenated votes are concatenated positions |
| `Aggregator.RankingMentions` | backend/council.py:297-300 | one position per label of a ranking that maps to the model |
| `Aggregator.CountIsMentions` | backend/council.py:291-300 | a model's number of positions is the number of parsed labels, across all rankings, that map to it |
| `Aggregator.RowsOfTally` | backend/council.py:303-311 | the unsorted rows: one per model that got a vote, none for any other |
| `Aggregator.AggregateOfMembers` | backend/council.py:303-314 | no model has two rows; a model has a row exactly when it got a vote |
| `Aggregator.AggregateOfRows` | backend/council.py:303-311 | each row's count and average are those of its model's positions |
| `Aggregator.AggregateMembers` | backend/council.py:291-314 | every output model appears once; a model is present exactly when some parsed label maps to it |
| `Aggregator.AggregateRowsHold` | backend/council.py:291-311 | every output model is a value of the label map; its count is at least 1 and its average is the exact mean of its positions |
| `Aggregator.AggregateCounts` | backend/council.py:291-311 | `rankings_count` equals the number of parsed labels across all rankings that map to the model, and is at least 1 |
| `Aggregator.AggregateOfOrder` | backend/council.py:303-314 | sorted by average; ties in the order of each model's first vote |
| `Aggregator.AggregateOrder` | backend/council.py:291-314 | the output is nondecreasing by average; ties keep the order in which each model first received a position |
| `Aggregator.SumBounds` | backend/council.py:306 | bounds on the sum of bounded positions |
| `Aggregator.AverageBounds` | backend/council.py:306 | an average lies between the bounds of what is averaged |
| `Aggregator.AggregateBounds` | backend/council.py:291-311 | every average is at least 1 and at most the length of the longest parsed ranking |
| `Aggregator.ExampleRankingVotes` | backend/council.py:297-300 | the votes of a two-label ranking whose labels both resolve |
| `Aggregator.ExampleVotes` | backend/council.py:291-300 | the votes of rankers [B, A] and [A, B] under {A: m1, B: m2} |
| `Aggregator.ExampleTally` | backend/council.py:289-300 | the dict after those votes: m2 first, each with two positions |
| `Aggregator.ExampleRows` | backend/council.py:303-311 | both models average 1.5 over two rankings |
| `Aggregator.ExampleSort` | backend/council.py:314 | the stable sort leaves the tied rows in place |
| `Aggregator.TwoRankersTie` | backend/council.py:272-316 | rankers [B, A] and [A, B]: both models at 1.5 with two rankings, m2 (first seen) before m1 |
| `Critiques.FormatPeerCritiques` | backend/council.py:211-237 | the loop's text is `Critiques.PeerCritiques`, the join of the other entries' blocks |
| `Critiques.CritiqueBlocksExact` | backend/council.py:225-235 | self-exclusion: every block is the block of an entry of another model, and every such entry contributes its block |
| `Critiques.CritiqueBlocksAppend` | backend/council.py:227-235 | blocks keep the order of the entries |
| `Critiques.CritiqueBlocksCount` | backend/council.py:227-235 | one block per entry except the model's own |
| `Critiques.PeerCritiquesEmpty` | backend/council.py:225-237 | the critiques are "" exactly when every entry is the model's own (including no entries) |
| `Critiques.PeerCritiquesShowOthers` | backend/council.py:225-237 | every other model's evaluation appears, attributed, in the text |
| `Critiques.BuildCorrectionPrompt` | backend/council.py:240-269 | the prompt's length is the template's plus the inserted pieces'; it opens and closes with the fixed template text |
| `Critiques.CorrectionPromptCritiques` | backend/council.py:256-269 | the critiques are what lies between the feedback heading and the closing instructions |
| `Critiques.CorrectionPromptInjective` | backend/council.py:256-269 | for one question and answer, different critiques give different prompts |
| `Critiques.CorrectionPromptPieces` | backend/council.py:256-261 | the question and the original answer are inserted verbatim at their places |
| `Council.SucceededAt` | backend/council.py:25-26 | the indices of the successful calls, increasing, and all of them |
| `Council.Stage1CollectResponses` | backend/council.py:24-30 | the loop's result is `Council.StageOne(answers)`, characterised by `StageOneExact` |
| `Council.StageOneExact` | backend/council.py:24-30 | stage 1 keeps exactly the successful answers, in order, with content or "" |
| `Council.StageOneEmpty` | backend/council.py:24-30 | stage 1 is empty exactly when every call failed |
| `Council.Stage2CollectRankings` | backend/council.py:50-110 | the loop's result is `Council.StageTwo(answers)`, characterised by `StageTwoExact`, and the label map is the anonymiser's |
| `Council.StageTwoExact` | backend/council.py:101-110 | one entry per successful ranker, in order: its model, its full text (content or "") and the labels parsed from that text |
| `Council.BuildCorrectionTasks` | backend/council.py:341-358 | the first loop: one prompt per stage-1 entry, built from its answer and its peers' critiques, and those critiques kept per entry |
| `Council.AssembleCorrections` | backend/council.py:364-379 | the second loop: the assembled results are the specified stage-2.5 results for the calls' answers |
| `Council.Stage2_5CollectCorrections` | backend/council.py:337-381 | the prompts sent are `Council.CorrectionPrompts` and the results assembled are `Council.StageTwoFive`, characterised by `CorrectionPromptsShape` and `StageTwoFiveShape` |
| `Council.StageTwoFiveShape` | backend/council.py:364-379 | one entry per stage-1 entry in order, with the same model, the original answer and its peer critiques; the corrected answer is the content on success and the original answer otherwise |
| `Council.CorrectionPromptsShape` | backend/council.py:341-358 | one prompt per stage-1 entry, built from its answer and its peer critiques |
| `Council.ChairmanSeesAll` | backend/council.py:132-140 | in `Council.ChairmanContext`, the two sections of the chairman prompt, every corrected answer and every ranking appears, attributed, in the chairman's context |
| `Council.StageThree` | backend/council.py:164-174 | the result is attributed to the chairman; the fixed sentinel on failure, the content ("" if absent) otherwise |
| `Council.RunFullCouncil` | backend/council.py:422-464 | the driver's result is `Council.CouncilRun(inputs)`, characterised by `AllFailedShortCircuit`, `FullRunShape` and `ChairmanFailureLocal` |
| `Council.AllFailedShortCircuit` | backend/council.py:436-440 | when every member fails: three empty lists, the "error" result and empty metadata, whatever the later calls would answer |
| `Council.FullRunShape` | backend/council.py:443-464 | otherwise every stage runs: stage 2.5 matches stage 1, the label map has one label per entry, the aggregate is computed from stage 2 |
| `Council.ChairmanFailureLocal` | backend/council.py:164-169 | a chairman failure changes only the final result, to the sentinel |
| `Council.GenerateConversationTitle` | backend/council.py:406-419 | "New Conversation" on failure; otherwise the stripped, unquoted text, cut to 47 characters plus "..." when longer than 50; never longer than 50 |
| `Council.CleanTitleNoQuotes` | backend/council.py:410-413 | `Council.CleanTitle`, the cleaned title, neither starts nor ends with a quote, and is a contiguous piece of the whitespace-stripped answer with only quotes around it |
| `Council.MissingContentTitle` | backend/council.py:410-413 | a reply without content gives "New Conversation", which the clean-up leaves unchanged |

## Left out

- The remote calls (`query_models_parallel`, `query_model` in `backend/openrouter.py`, which is not part of this model): their results are inputs. HTTP, timeouts and retries are not modelled.
- The order of a `query_models_parallel` result: the answers are taken in the order the dict lists them; that order is decided in `backend/openrouter.py`.
- `asyncio.gather` and the concurrent fan-out: only the collected results are modelled, in order. `Council.Stage2_5CollectCorrections` requires one answer per stage-1 entry, which `gather` guarantees.
- `Aggregator.CalculateAggregateRankings`: the average is the exact rational mean, not `round(avg_rank, 2)` in floating point; rounding can create ties (and so change the order) that the model does not reproduce.
- The wording of the ranking, chairman and title prompts (and the anonymised answers text inside the ranking prompt): they are not built. For the chairman, only the two context sections are modelled (`Council.ChairmanContext`).
- The configuration `COUNCIL_MODELS` and `CHAIRMAN_MODEL`: the council is implicit in the answers, the chairman is an input. The title model name and its timeout are not modelled.
- `Council.Stage2CollectRankings` and `Council.RunFullCouncil`: require at most 26 stage-1 entries (see Findings); the source has no such check.
- `RankingParser.NumberedLabels`: `\d` is restricted to the ASCII digits; Python's `\d` also accepts other Unicode decimal digits.
- `frontend/src/components/Stage2_5.jsx`: user interface rendering, no logic to model.
- The messages lists (`[{"role": "user", ...}]`) wrapping each prompt.

## Findings

| source | as written | input that shows it | evidently intended | confidence | as-written member | corrected member |
|---|---|---|---|---|---|---|
| backend/council.py:50-56 | labels are `"Response " + chr(65 + i)` for every stage-1 entry, with no limit | 27 successful stage-1 answers: the 27th entry gets the label "Response [", which `Response [A-Z]` can never match, so no ranker can ever rank it and it never reaches the aggregate | at most 26 entries get labels, all of them parseable (proved in `Anonymizer.LabelMapLabelsParse`); more entries are an explicit failure | not executed | `Anonymizer.OverflowLabelNeverParsed` | `Anonymizer.LabelMap` |
