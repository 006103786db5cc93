# Bóng Đá AI Pro: a verified model of the odds merge and the pick store

This project models, in Dafny, the pure logic inside the football
prediction app "Bóng Đá AI Pro". It covers three parts.

- **Odds-extraction merge engine** (`services/geminiService.ts`). The
  extraction service returns one entry per screenshot. The engine:
  - maps each raw odds line to a `BettingOdds` record, filling defaults;
  - groups entries into one `Match` per direction-sensitive team key;
  - concatenates and de-duplicates the odds lists of a repeated key on the
    triple (raw text, type, handicap);
  - re-picks the main line shown for the match.

  It also includes the string helpers around it: the score normaliser, the
  markdown-fence stripping and the brace recovery of the reply text.
- **Saved-pick store** (`App.tsx`). The `prev => next` updaters given to
  `setSavedPicks` cover:
  - saving, once per match;
  - cycling a market outcome;
  - overriding the overall status;
  - applying a verification result;
  - deleting a pick.

  It also covers the match-selection toggle and the win-rate statistics.
  The invariant proved is that a pick's overall status equals its
  main-market outcome. Every update preserves it, and so does any sequence
  of updates (`Picks.RunKeepsConsistent`).
- **Odds display** (`components/AnalysisResult.tsx`). This covers the
  fallback list of lines, the reduce that groups them by type, and the
  first-half badge.

Modules:

| module | file | contents |
|---|---|---|
| `Wrappers` | wrappers.dfy | `Option` |
| `Seqs` | seqs.dfy | first-seen `Distinct`, `Filter` |
| `Text` | text.dfy | JavaScript string operations (`includes`, global literal `replace`, `trim`, `indexOf`, `lastIndexOf`, `substring`, `x \|\| d`) |
| `Types` | types.dfy | the records of `types.ts` that the core reads; `PredictionResult` keeps only `matchId` and `scorePrediction` |
| `Normalizer` | normalizer.dfy | `cleanTeamName` (abstract) and `cleanScore` |
| `ResponseText` | response.dfy | fence stripping and brace recovery |
| `Odds` | odds.dfy | raw line mapping, first-occurrence de-duplication, main-line choice |
| `Grouping` | grouping.dfy | the insertion-ordered map fold, for any entry and value type, shown equal to "group by key in first-seen order, then fold each group" |
| `Merge` | merge.dfy | `extractMatchInfoFromImages` after parsing |
| `Picks` | picks.dfy | the pick-store updaters and statistics |
| `Display` | display.dfy | the odds card |

Modelling choices:

- **Optional fields.** Optional TypeScript fields are `Option`s.
- **`x || d`.** This is `Text.OrElse`: an absent value or an empty string
  gives the default.
- **Template literals.** A template literal prints an absent field as
  "undefined".
- **The field `type`.** It is called `kind`, and `match` on a saved pick is
  called `matchInfo`, because both names are Dafny keywords.
- **Abstract team-name operations.** The noise removal of `cleanTeamName`
  and `toLowerCase` are function-valued fields of `Normalizer.TeamText`.
  They stay abstract; only the empty-name case is fixed.
- **Clock and random values.** `Date.now()` and `Math.random()` become
  parameters. These are the per-entry stamps of the merge, `Picks.Stamp`
  for saved picks, and `checkedAt` for verification.
- **Verification-service answers.** These are parameters, with `None` for
  a call that failed.
- **Win rate.** `Math.round(won / resolved * 100)` is computed in exact
  integer arithmetic, rounding halves up.
- **Main line.** The main line of a merged match is the first line whose
  type is "Kèo Chấp" and whose raw text does not contain "1H"
  (`Odds.HandicapType`, `Odds.IsMainLine`).

## Model

| member | source | states |
|---|---|---|
| Normalizer.CleanTeamName | services/geminiService.ts:25-26 | an absent or empty name becomes "Unknown Team"; any other name goes to the noise removal |
| Normalizer.CleanScore | services/geminiService.ts:15-22 | empty input gives "N/A"; with a match of digits, optional spaces, one of `-–:`, optional spaces, digits, the groups of the leftmost match are returned as "A - B"; without one, "N/A" when longer than 10 characters, else the input unchanged |
| Normalizer.LeftmostGroupsUnique | services/geminiService.ts:17 | the groups of the leftmost regular-expression match are determined by the string (greedy digit runs) |
| Normalizer.LeftmostGroupsAreDigits | services/geminiService.ts:17 | both captured groups are non-empty digit runs |
| Normalizer.CleanScoreOfGroups | services/geminiService.ts:17-19 | any string whose leftmost groups are A and B cleans to "A - B" |
| Normalizer.CleanScoreIdempotent | services/geminiService.ts:15-22 | cleaning a cleaned score changes nothing |
| Normalizer.CleanScoreSeparators | services/geminiService.ts:17-19 | "2-1" and "2:1" both give "2 - 1" |
| Normalizer.CleanScoreLongNoise | services/geminiService.ts:21 | a long text with no score gives "N/A" |
| ResponseText.NoFenceAfterRemoval | services/geminiService.ts:229 | after the global removal of "```" no "```" is left anywhere |
| ResponseText.StripFences | services/geminiService.ts:228-229 | the stripped reply (or "{}") contains no fence |
| ResponseText.FenceFreeEdges | services/geminiService.ts:230-231 | a fence-free text neither starts nor ends with a fence |
| ResponseText.CleanResponseText | services/geminiService.ts:228-231 | the two fence checks after the trim never fire: the result is the stripped text |
| ResponseText.RecoverBraces | services/geminiService.ts:238-244 | none exactly when `{` or `}` is missing; otherwise `substring(indexOf('{'), lastIndexOf('}') + 1)`: the text from the first `{` through the last `}`, with bounds swapped when `}` comes first |
| Text.Substring | services/geminiService.ts:241 | bounds in order give the slice between them; reversed bounds give the slice between them swapped; never longer than the string |
| Odds.ToOdds | services/geminiService.ts:257-266 | type defaults to "Kèo Chấp", handicap to "0", the four prices and lines to "N/A" (absent or empty); no European prices; raw text starts with scope-or-"FT", " \| HDP ", the un-defaulted handicap, " \| TX " |
| Odds.EntryOdds | services/geminiService.ts:256-265 | one record per raw line, in order, each the mapping of its line |
| Odds.AbsentHandicapIsNotZero | services/geminiService.ts:259-265 | an absent handicap and "0" give the same handicap field but different raw texts |
| Odds.FindIndex | services/geminiService.ts:275 | `findIndex` on the triple: -1 when no line shares it, else the first line sharing it |
| Odds.FindIndexOfDuplicate | services/geminiService.ts:275 | two lines sharing the triple have the same first index |
| Odds.FindIndexOfElement | services/geminiService.ts:275 | the first index of an element is at or before its own position |
| Odds.KeepFirstSpec | services/geminiService.ts:274-276 | the filter keeps exactly the first occurrence of each triple, in input order |
| Odds.Dedup | services/geminiService.ts:274-276 | no two kept lines share a triple, and it is no longer than its input |
| Odds.DedupSpec | services/geminiService.ts:274-276 | every kept line is the first occurrence of its triple, and kept lines keep their relative order |
| Odds.DedupRepresents | services/geminiService.ts:274-276 | every input line's triple is represented among the kept lines |
| Odds.DedupFromInput | services/geminiService.ts:274-276 | every kept line is an input line |
| Odds.DedupOfDistinctLines | services/geminiService.ts:274-276 | de-duplicating a list without repeated triples is the identity |
| Odds.KeepFirstGrows | services/geminiService.ts:274-276 | the kept lines of a prefix are a prefix of the kept lines |
| Odds.DedupAppend | services/geminiService.ts:271-276 | de-duplicating `existing ++ new` starts with the de-duplicated existing list |
| Odds.DedupRepresentsBoth | services/geminiService.ts:271-276 | every line of the existing and the new list is represented |
| Odds.DedupFromBoth | services/geminiService.ts:271-276 | every kept line comes from the existing or the new list |
| Odds.FindMain | services/geminiService.ts:281 | none iff no line is a "Kèo Chấp" line without "1H"; otherwise the first such line |
| Odds.PickMain | services/geminiService.ts:281 | absent iff the list is empty; the first full-time handicap line when there is one; else the first line |
| Merge.MergeKey | services/geminiService.ts:251-254 | the key reads the lowered cleaned home name, then "_vs_", then the lowered cleaned away name, and nothing else |
| Merge.MergeKeyDirectional | services/geminiService.ts:251-254 | swapping home and away changes the key whenever neither lowered name is a prefix of the other |
| Merge.NewMatch | services/geminiService.ts:283-295 | cleaned team names, league and time defaulted, date "Hôm nay", id from the names and the clock; all of the entry's lines verbatim (no de-duplication); the first line shown, or none for no lines |
| Merge.MergeInto | services/geminiService.ts:268-282 | only the two odds fields change; no two lines share a triple; the de-duplicated existing list is a prefix; the shown line is the main pick of the new list |
| Merge.MergeIntoRepresents | services/geminiService.ts:271-278 | every existing and every new line is represented after the merge |
| Merge.MergeIntoAddsNothing | services/geminiService.ts:271-278 | every line after the merge was an existing or a new line |
| Merge.MergeKeepsExisting | services/geminiService.ts:271-278 | a duplicate-free existing list survives whole, as a prefix |
| Merge.MergeGroup | services/geminiService.ts:268-296 | a merged group always has a list; after a merge it is duplicate-free and shows its main pick |
| Merge.Extract | services/geminiService.ts:247-308 | null iff there are no entries; one match per distinct key in first-seen order, each the merge of the entries with that key in input order; list iff more than one match; analysis text defaulted to "" |
| Merge.GroupKeepsFirstEntry | services/geminiService.ts:268-291 | id, team names, league, time and date of a merged match are those its first entry set |
| Merge.GroupCoversEveryLine | services/geminiService.ts:268-292 | every line of every entry of a group is represented in the merged match |
| Merge.GroupLinesComeFromEntries | services/geminiService.ts:268-292 | every line of a merged match is a mapped line of some entry of its group |
| Merge.ExtractIsDirectional | services/geminiService.ts:253-254 | A-vs-B and B-vs-A are extracted as two matches when neither lowered name is a prefix of the other |
| Merge.CornerAndHandicapLines | services/geminiService.ts:257-281 | a corner line and a full-time handicap line are distinct, and only the latter is a main line |
| Merge.MergeTwoLines | services/geminiService.ts:274-281 | merging a main line after a distinct non-main line keeps both and shows the main line |
| Merge.ExtractSameKey | services/geminiService.ts:268-304 | two entries with one key are one match, not a list: the second merged into the first |
| Merge.MergeHandicapIntoCorner | services/geminiService.ts:271-281 | a handicap line merged into a match holding a corner line: both kept in order, the handicap line shown |
| Merge.FeyenoordScenario | services/geminiService.ts:247-308 | two screenshots of one fixture (corner line, then handicap line) become one match with both lines, showing the handicap line |
| Grouping.Step | services/geminiService.ts:267-296 | a known key has its value merged in place and the list keeps its length; a new key is appended with a created value; slots of other keys are unchanged |
| Grouping.Collect | services/geminiService.ts:248-297 | at most one slot per entry and no key in two slots |
| Grouping.Positions | services/geminiService.ts:250-268 | the entries with a key, as ascending indices |
| Grouping.PositionsComplete | services/geminiService.ts:250-268 | every entry with the key is among them |
| Grouping.CollectIsGrouped | services/geminiService.ts:248-297 | the map after each entry holds one slot per distinct key in first-seen order, each the fold of the entries with that key |
| Grouping.GroupedValues | services/geminiService.ts:299 | `Array.from(map.values())` lists one value per distinct key, in first-insertion order |
| Picks.NextStatus | App.tsx:324-328 | pending becomes won, won becomes lost, and the next status always differs from the current one |
| Picks.NextStatusCycle | App.tsx:324-328 | three clicks return to the start, two never do |
| Picks.Save | App.tsx:278-296 | a no-op when the match is saved; otherwise exactly one pick, pending in every market, put in front of the unchanged list; afterwards the match is saved; consistency is kept |
| Picks.SaveIdempotent | App.tsx:280 | saving a match twice is saving it once |
| Picks.IsSavedSpec | App.tsx:280 | a match is saved iff some pick holds a match with its id |
| Picks.ResolveMatch | App.tsx:306 | the result is the scanned match or a match with the wanted id |
| Picks.ResolveMatchFirst | App.tsx:306 | the first match with the wanted id is chosen |
| Picks.ResolveMatchAbsent | App.tsx:306 | the scanned match is used only when none has the id |
| Picks.SaveAllAsWritten | App.tsx:301-315 | the loop as written: counts against the snapshot, never more than the number of results |
| Picks.SaveAll | App.tsx:301-315 | the corrected loop: the count equals the number of picks added |
| Picks.SaveAllKeepsEarlier | App.tsx:278-315 | the earlier picks stay at the end of the list, in order |
| Picks.SaveAllSaves | App.tsx:305-313 | every match a result resolves to is saved afterwards |
| Picks.SaveAllSameList | App.tsx:301-315 | the as-written and the corrected loops build the same list |
| Picks.SaveAllTwice | App.tsx:305-320 | a second pass adds nothing and both versions report 0 |
| Picks.SaveAllOvercounts | App.tsx:306-312 | the as-written count is 2 where one pick is added |
| Picks.SaveAllKeepsConsistent | App.tsx:287-293 | saving all keeps every pick consistent |
| Picks.CurrentOutcomes | App.tsx:334 | the stored outcomes when present; otherwise main from the status and the other three markets pending |
| Picks.ToggleOne | App.tsx:332-344 | only the clicked market advances, from `{main: status, others pending}` when outcomes are missing; the status follows the main market and is kept for the others; nothing else changes |
| Picks.ToggleOneConsistent | App.tsx:334-344 | on a consistent pick the status changes iff the main market is clicked, and consistency is kept |
| Picks.Toggle | App.tsx:330-346 | only picks with the id change, each as `ToggleOne`; consistency is kept |
| Picks.SetOverallOne | App.tsx:350-356 | status and main outcome both become the new value; score, corner and card keep their values (pending when missing); nothing else changes |
| Picks.SetOverall | App.tsx:348-358 | only picks with the id change; consistency is kept |
| Picks.ApplyOne | App.tsx:378-391 | status and outcomes from the result, verification filled in, note replaced unless empty, id, match, prediction and timestamp unchanged; the pick is consistent |
| Picks.ApplyVerification | App.tsx:374-394 | a failed call changes nothing; otherwise only picks with the id change; consistency is kept |
| Picks.PendingPicks | App.tsx:404 | exactly the picks whose status is pending |
| Picks.PendingPicksKeepOrder | App.tsx:404 | the pending picks of two joined lists are those of the first followed by those of the second |
| Picks.PendingPicksDistinct | App.tsx:404 | distinct ids stay distinct among the pending picks |
| Picks.VerifyEach | App.tsx:406-409 | ids are kept; each pick ends as the answers of the visits of its own id applied in visit order (`Visits`); a pick no visit is for is unchanged; consistency is kept |
| Picks.Visits | App.tsx:379-391 | the id of a pick is never changed by a visit |
| Picks.VisitsNone | App.tsx:406-409 | a pick no visit is for stays as it was |
| Picks.VisitedOnce | App.tsx:406-409 | a pick visited exactly once gets that visit's answer applied, or stays as it was when the call failed |
| Picks.VerifyAll | App.tsx:400-413 | only picks sharing an id with a pick that was pending at the start can change; with distinct ids, the k-th pending pick gets the k-th answer applied (unchanged when that call failed); consistency is kept |
| Picks.Remove | App.tsx:364 | exactly the picks whose id differs remain |
| Picks.RemoveKeepsOrder | App.tsx:364 | removal keeps the original order |
| Picks.RemoveAbsent | App.tsx:364 | removing an id no pick has changes nothing |
| Picks.ToggleSelection | App.tsx:113-115 | the id is selected afterwards iff it was not before; other ids keep their membership; an absent id is appended |
| Picks.ToggleSelectionTwice | App.tsx:113-115 | selecting and then unselecting a match restores the selection |
| Picks.OutcomeOf | App.tsx:418 | a pick without outcomes reads as pending in every market, whatever its status; otherwise the stored outcome |
| Picks.ResolvedPicks | App.tsx:416-431 | exactly the picks whose market outcome is won or lost, missing outcomes counting as pending |
| Picks.CountResolved | App.tsx:427-432 | exactly the number of indices whose market outcome is won or lost, at most the number of picks |
| Picks.CountWon | App.tsx:421 | exactly the number of indices whose market outcome is won, at most the resolved count |
| Picks.ResolvedAndPending | App.tsx:428-431 | resolved plus pending picks are all the picks |
| Picks.RoundedPercent | App.tsx:424 | the percentage lies in 0..100 and within one half of 100·won/resolved |
| Picks.WinRate | App.tsx:416-425 | 0 when nothing is resolved; otherwise the nearest integer to 100·won/resolved; always in 0..100 |
| Picks.WinRateExtremes | App.tsx:421-424 | all won gives 100, none won gives 0 |
| Picks.AllWonRounds | App.tsx:424 | a percentage of n out of n rounds to 100 |
| Picks.NoneWonRounds | App.tsx:424 | a percentage of 0 out of n rounds to 0 |
| Picks.RunKeepsConsistent | App.tsx:278-392 | from consistent picks, any sequence of saves, save-alls, toggles, overrides, verifications and removals keeps every status equal to its main outcome |
| Display.DisplayedOdds | components/AnalysisResult.tsx:21-22 | the merged list whenever present, even empty; otherwise the scanned line alone or nothing |
| Display.ExtractedMatchShowsEveryLine | components/AnalysisResult.tsx:22 | the card of an extracted match represents every line read for its key |
| Display.GroupKey | components/AnalysisResult.tsx:26 | never empty; the type itself when the type is non-empty |
| Display.GroupOdds | components/AnalysisResult.tsx:25-30 | at most one group per line and no type in two groups |
| Display.GroupOddsSpec | components/AnalysisResult.tsx:25-30 | one group per distinct key in first-seen order, each exactly the lines of that key in input order |
| Display.GroupOddsSize | components/AnalysisResult.tsx:25-30 | the groups together hold exactly as many lines as were given |
| Display.ScopeLabel | components/AnalysisResult.tsx:100 | "Hiệp 1" iff the raw text contains "1H", else "Cả trận" |
| Display.FirstHalfScopeLabel | components/AnalysisResult.tsx:100 | a line read with scope "1H" is labelled "Hiệp 1" |

## Left out

- The AI client, prompts, schemas and `JSON.parse` are left out. Parsed output enters as the typed `Merge.RawReply`.
- `analyzeMatchDetails`, `extractMatchInfoFromText` and `verifyMatchResult` are left out: they are calls into the AI service. Their answers are parameters.
- The noise patterns of `cleanTeamName` and Unicode `toLowerCase` are abstract (`Normalizer.TeamText`).
- Normalizer.CleanTeamName: states only the empty-name case and hands every other name to the abstract noise removal.
- A null handicap or over/under line would print "null" in the raw text. Only absent ("undefined") values are modelled.
- An absent `rawScore` (undefined) is not modelled: `Normalizer.CleanScore` takes a string.
- Odds.ToOdds: states the raw text up to " | TX ". The over/under part that follows is not stated in the contract.
- Strings are sequences of code points. UTF-16 lengths (the 10-character limit of `cleanScore`) agree only for text in the Basic Multilingual Plane.
- Display.GroupOdds: a type named like a member every plain object inherits ("constructor", "toString", "__proto__") makes `!acc[type]` false, and `acc[type].push` then throws during rendering. The model groups such lines like any other type.
- `Object.entries` lists array-index-like keys first. The grouping is modelled in insertion order only.
- localStorage loading and saving, image and clipboard handling, and all rendering (including `components/MatchList.tsx`) are left out.
- The `verifyingPickIds` and loading flags are left out. So are the async ordering of `handleVerifyResult` calls and the success messages. Each verification is modelled by its effect on the pick list, in the order the pending picks are visited.
- The confirm dialog in `removeSavedPick` is left out. The removal models a confirmed click.
- The win rate uses exact integer arithmetic, not floating point. `Math.round` on a float quotient may differ at exact halves only by rounding error.
- Picks.SaveAllAsWritten: states only that the count is at most the number of results. Its relation to the picks added is given by `Picks.SaveAllOvercounts` and `Picks.SaveAllSameList`.
- Picks.ResolveMatch: the function states only that it returns the scanned match or one with the id. The first-match choice is in `Picks.ResolveMatchFirst` and `Picks.ResolveMatchAbsent`.

## Findings

| source | as written | input that shows it | evidently intended | confidence | as-written member | corrected member |
|---|---|---|---|---|---|---|
| App.tsx:305-313 | the saved count is increased when a result's match is missing from `savedPicks`, the list as it was before the loop; the pick itself is added only if the match is missing from the list being built | no matches, a scanned match `m`, two prediction results that both fall back to `m`: the message reports 2 saved, one pick is added | the count equals the number of picks added | not executed; medium (needs two results resolving to one match) | Picks.SaveAllAsWritten, Picks.SaveAllOvercounts | Picks.SaveAll |
