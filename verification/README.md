# cofi: verified models of its matching, geometry, search and slot logic

cofi is a window switcher for X11. This project models the parts of it whose
correctness is not visible from one function: the two fuzzy matchers, the
rankings built on their score bounds, the visible-region geometry and ordering
behind workspace slots, the asynchronous file search with its reference-counted
contexts, and the registry of stable match ids with the harpoon slots bound to
it. Code that changes state or fills tables is a method or a class with loops,
proved against functions; what the code is for is proved about those functions.

| module | models |
|---|---|
| `Scores`, `CStrings`, `SeqFacts`, `Words` | scores with two absorbing ends, byte strings and embeddings, multisets, word runs |
| `Match`, `MatchAlignment`, `MatchBonuses`, `MatchPositions`, `PositionsOptimality` | `src/matching/match.c`: the two-table alignment, its meaning, what single bytes are worth, its backtrace, and the needles whose positions reach the score |
| `Fzf`, `FzfProperties`, `FzfBonuses`, `FzfPlacements`, `FzfOptimality` | `src/matching/fzf_algo.c` in 16-bit arithmetic, what its score means, the placement it is the score of, and the needles it is optimal for |
| `Apps`, `AppRows`, `AppFields` | `src/apps/apps.c`: launcher scores, the filtered list, and prefix against fuzzy matches field by field |
| `EmojiPairs`, `EmojiRank`, `EmojiTotals`, `EmojiScores`, `EmojiNames`, `EmojiTiers`, `EmojiQueries`, `EmojiLopsided`, `EmojiOrder`, `EmojiListing`, `EmojiWitness` | `src/emoji/emoji_provider.c`: acronym table, tiers, totals, the tokens and queries that tiers decide, promotion and sort |
| `Geometry`, `VisibleRegion`, `VisibleArea`, `VisibleContent` | `src/harpoon/workspace_slots.c`: rectangle subtraction, fragments, visible area, the pixels it counts, overlay centre |
| `SlotOrder`, `SlotRank` | the grouping, sorting and numbering of the same file, and which window a slot recalls |
| `PathReader`, `FilesFilter`, `FilesRows`, `FilesProtocol`, `FilesSearch`, `FilesStatus`, `FilesTimers` | `src/files/files_search.c`: the NUL splitter, the top-50 filter and its rows, the event protocol, the program over a counted heap, its status text, and its timers |
| `Wildcard`, `MatchRegistry`, `Normalising`, `Harpoon`, `HarpoonRuns`, `HarpoonShared`, `HarpoonRebinding` | `src/matching/window_matcher.c`, `match_entry.c`, `match_entry_config.c`, `src/harpoon/harpoon.c`, `key_handler_harpoon.c`, runs of shortcuts while windows come and go, what a slot recalls after a change, and when two slots recall one window |

How the numbers are read: a score is minus infinity, an integer, or plus
infinity (every finite score the program forms is a small integer, and adding
one to 1e308 or -1e308 changes neither). `int16_t` is a bounded type, so every
16-bit operation is proved in range; the generation number wraps at 2^32; other
integers are unbounded.

## Where code and documentation disagree

The code is modelled as it is; each entry names the lemma that settles it.

- `match.c:203` calls the highlighted positions optimal. They always spell the
  needle, but they reach the score on every haystack exactly for needles of one
  or two bytes, and of three that do not begin with a letter or digit
  (`PositionsReachEverywhereIff`).
- `has_match` does not fold the needle's case, the scorer does; they agree on
  every haystack exactly for needles without upper-case letters
  (`HasMatchAgreesIffNoUpper`).
- `fzf_algo.c:180` promises the optimal match. The score counts only the text up to
  the end of the leftmost embedding (`OnlyLeftmostCounts`), so it is optimal on
  every haystack exactly for one byte of white space or punctuation, and for needles
  too long to have two placements (`OptimalEverywhereIff`); it is optimal on a given
  one if the last needle byte does not come again after the leftmost embedding
  (`LastByteGuard`). It is always the score of a real placement (`ScoreIsRealised`).
- `fzf_has_match` compares an `int` with a signed `char`, so it agrees with the
  scorer exactly for ASCII needles (`AgreeIffAscii`).
- Overlapping monitors count a pixel twice: the summed area is the number of
  visible pixels exactly when none lies on two clips (`AreaCountsVisiblePixels`,
  `MirroredMonitorsCountTwice`).
- Criterion 11 of `src/apps/CONTEXT.md`, prefix matches above fuzzy ones of the same
  field, fails for queries of 127 to 254 bytes in the two names and of 127 to 510
  in the keywords, and holds for all others (`GenericAndKeywordsIff`,
  `NamePrefixOutranksIff`).
- Criterion 8 of `src/emoji/CONTEXT.md`, tiers decide the ranking: for each token
  exactly if it has at most 22 bytes (`TiersDecideTokenIff`, and
  `EqualTokensDecideIff` for repetitions). For several tokens of at most six bytes
  exactly if they are all equal, or there are two, the rarer beginning with the
  commoner, with slack between their counts (`SmallQueryTiersDecideIff`; "ab" three
  times and "a" four times, `LopsidedMayDecide`); up to 22 bytes the same, some close
  pairs aside (`QueryTiersDecideIff`).
- Criterion 9 there, recency never lifts junk above a structural match: it does
  exactly when a recent junk pick belongs behind a structural match and the best
  score is itself junk, or the two tie (`LiftsJunkIff`). For a query of one token
  some table and history show it exactly if the token has more than 24 bytes
  (`NeverLiftsIff`).
- Criterion 3 of `src/harpoon/CONTEXT.md`, one slot per window: two slots come to
  recall one window exactly when it is assigned while another slot recalls it under
  an old title, or when a list gives both the same window (`BecomeSharedIff`,
  `RetitledIsShared`).
- Criterion 5 of `src/harpoon/CONTEXT.md`, recall rebinds a stale slot: it does
  not. Over any run recall yields a listed window or none exactly when no bare
  refresh of the window list dropped the slot's window since the last rebinding
  (`RecallIsLiveUnlessLost`); two actions suffice to go wrong (`ShortestStaleRun`),
  one does not (`OneActionIsLive`).
- The normaliser for loaded entries keeps an id exactly if no entry before it was
  stored with it or handed it (`NormalisedKeepsIdIff`), so an entry without an id can
  take the one a later entry holds (`NormalisingMayStealAnId`); a stored next id
  above all stored ids prevents it (`HighNextIdProtects`).
- The timer of a search that has delivered still notes "fd timeout", exactly if
  nothing was refreshed since (`TimerNotesIff`). Cached paths hide the note, and only
  the clean-up on exit drops them (`TimeoutIsReadIff`, `DeliveredHidesTimeout`,
  `FinishedSearchReadsTimeout`).
- The warning at `match_entry.c:244` can never be logged (`CapturedMatchesSource`).
- The generation number decides nothing for reads and waits
  (`GenerationIsRedundant`). A context is freed only after its timer has fired
  (`Unref`), and `on_timeout` keeps the source's id, so `files_search_unref` removes no
  live timer but the one that is just firing (`TimerFreesIff`); it calls
  `g_source_remove` with a stale id exactly when a read or wait outlives the timer
  (`RemovesStaleIdIff`).

## Model

| member | source | states |
|---|---|---|
| CStrings.ScanIffEmbeddable | src/matching/match.c:19-29 | a left-to-right greedy scan succeeds exactly when the needle embeds at increasing positions |
| Match.HasMatch | src/matching/match.c:19-29 | accepts exactly when the needle embeds, each byte matching itself or its upper-case form |
| Match.SetUp | src/matching/match.c:45-70 | prepares the lowered strings and the position bonus of every haystack byte |
| Match.MatchRow | src/matching/match.c:72-103 | fills one row of D and M with the cells of the recurrence and leaves the other rows alone |
| Match.MatchRolling | src/matching/match.c:105-152 | with two swapped row buffers returns the same score as the full tables, with the three early exits |
| MatchAlignment.BestIsMaximum | src/matching/match.c:72-103 | the last cell of M is the greatest alignment score over all placements of the needle, or minus infinity if there is none |
| MatchAlignment.MatchIsOptimal | src/matching/match.c:105-152 | for 0 < n < m <= 1024 the result is that maximum over the lowered strings |
| MatchAlignment.FiniteIffEmbeddable | src/matching/match.c:105-152 | the score is above minus infinity exactly when the lowered needle embeds in the lowered haystack |
| MatchAlignment.HasMatchIsScored | src/matching/match.c:14-29 | every pair has_match accepts is scored, and accepted strings of equal length are equal up to case |
| MatchAlignment.HasMatchAgreesIffNoUpper | src/matching/match.c:14-29 | acceptance and scoring agree on all haystacks exactly for needles without upper-case letters |
| MatchAlignment.MatchRange | src/matching/match.c:105-152 | a finite score lies between -11 times the haystack and 16 times the needle length |
| MatchBonuses.SingleScore | src/matching/match.c:33-43 | a byte that occurs once scores its gaps and its bonus: 9, 8 or 6 for a letter or digit after a separator, 7 for a capital after a small letter, else 0 |
| MatchBonuses.PairScore | src/matching/match.c:72-103 | two bytes that occur once each: neighbours add at least 16, others pay 11 for every byte between them |
| MatchPositions.ScanLeft | src/matching/match.c:207-228 | the inner scan stops at the first usable cell of its row, or reports that the row has none |
| MatchPositions.Backtrace | src/matching/match.c:203-230 | records the walk of the recurrence for a finite score, and nothing otherwise |
| MatchPositions.FindPositions | src/matching/match.c:154-238 | same score as `match`; identity positions for equal lengths, the walk for finite scores, untouched otherwise |
| MatchPositions.AcceptedNeedleIsSpelled | src/matching/match.c:203-230 | whenever has_match accepts, the positions are increasing and spell the needle up to case |
| PositionsOptimality.PositionsReachEverywhereIff | src/matching/match.c:203-230 | a needle's positions reach the returned score on every longer haystack exactly if it has one or two bytes, or three with no letter or digit first |
| PositionsOptimality.DiagonalFallsShort | src/matching/match.c:207-228 | a diagonal that leads below its row and loses its reward there makes the positions fall short |
| Fzf.HasMatch | src/matching/fzf_algo.c:156-175 | accepts exactly when the needle embeds under the signed comparison of the code |
| Fzf.ScanSingle | src/matching/fzf_algo.c:227-273 | the one-byte search with its early stop |
| Fzf.Phase3 | src/matching/fzf_algo.c:281-370 | phase 3 returns the cell of the last needle byte at its leftmost occurrence |
| Fzf.FuzzyMatch | src/matching/fzf_algo.c:184-378 | the whole scorer equals its specification, early exits included |
| Fzf.CellAt | src/matching/fzf_algo.c:311-370 | row i stays within 0..36+26i and the run never exceeds row or column |
| FzfProperties.ScoredIffEmbedded | src/matching/fzf_algo.c:184-283 | a needle is scored exactly when it is a case-folded subsequence of at most 1024 bytes |
| FzfProperties.AgreeIffAscii | src/matching/fzf_algo.c:156-175 | quick check and scorer agree on all haystacks up to 1024 bytes exactly for ASCII needles |
| FzfProperties.ScoreRange | src/matching/fzf_algo.c:365-377 | a match of M bytes scores between 16 and 26M+10, inside 16 bits |
| FzfProperties.RunsAreRuns | src/matching/fzf_algo.c:339-358 | a cell's consecutive count is the length of a real run of needle bytes in the text |
| FzfBonuses.SingleScore | src/matching/fzf_algo.c:64-130 | a byte that occurs once scores 16 and twice its bonus, which follows from the kinds of it and of the byte before it |
| FzfBonuses.PairScore | src/matching/fzf_algo.c:302-370 | two bytes that occur once each: neighbours add at least 4, a gap costs three points and one for each further byte |
| FzfPlacements.CellIsRealised | src/matching/fzf_algo.c:311-370 | every cell holds the score and run of a placement walked under the gap, bonus and run rules |
| FzfPlacements.ScoreIsRealised | src/matching/fzf_algo.c:177-378 | every score is that of an embedding, which from two bytes on ends where the leftmost one does |
| FzfProperties.AppendingKeepsScore | src/matching/fzf_algo.c:227-283 | appended text never lowers a score and leaves needles of two bytes and more unchanged |
| FzfProperties.OnlyLeftmostCounts | src/matching/fzf_algo.c:236-243 | the score is that of the text up to the end of the leftmost embedding |
| FzfOptimality.OptimalEverywhereIff | src/matching/fzf_algo.c:177-283 | no later cell of the last row, and for one byte no occurrence, beats the score on any haystack exactly for one byte of white space or punctuation and from 1024 bytes on |
| FzfOptimality.LongerMisses | src/matching/fzf_algo.c:281-370 | every needle of 2 to 510 bytes has a haystack with a better last cell |
| FzfOptimality.WordEndMisses | src/matching/fzf_algo.c:281-370 | so has every needle of 3 to 1021 bytes that ends in a letter or digit, three bytes longer than itself |
| FzfOptimality.UnsteadyMisses | src/matching/fzf_algo.c:245-253 | every letter, digit and delimiter has a haystack where it scores 32 and a later occurrence more |
| FzfOptimality.LastByteGuard | src/matching/fzf_algo.c:281-370 | if the last needle byte does not come again after the leftmost embedding, the score is the best of the last row |
| Words.RunsAreMaximal | src/emoji/emoji_provider.c:258-276 | the listed runs are exactly the maximal stretches of word bytes |
| Words.FindWord | src/emoji/emoji_provider.c:238-276 | true exactly when some run equals the word |
| Words.FindWordPrefix | src/emoji/emoji_provider.c:284-297 | true exactly when the token occurs where some word starts |
| Apps.ScoreField | src/apps/apps.c:85-110 | the pointer loop computes the best token score of a field |
| Apps.FieldFromBounds | src/apps/apps.c:85-110 | no token of the field scores above the field |
| Apps.FieldFromAttained | src/apps/apps.c:85-110 | some token attains the field's score |
| Apps.ScoreApp | src/apps/apps.c:131-154 | the best of the three fields |
| Apps.TokenRange | src/apps/apps.c:61-83 | a token is scored exactly when it holds the query, within -5621..+8160 of its base |
| Apps.ScoreBand | src/apps/apps.c:112-154 | name, generic name and keyword matches score in disjoint bands |
| Apps.BetterFieldWins | src/apps/apps.c:131-154 | for every query, an app found in a better field scores strictly higher |
| AppFields.FieldPrefixOutranksIff | src/apps/apps.c:61-110 | in a field of at most `cap` bytes every prefix token outranks every fuzzy match exactly for queries up to 126 bytes, from `cap` bytes on, or with separators |
| AppFields.GenericAndKeywordsIff | src/apps/apps.c:131-154 | so with 255 bytes for the generic name and 511 for the keywords |
| AppFields.NamePrefixOutranksIff | src/apps/apps.c:112-129 | and with 255 bytes for the name, its whole-name score included |
| Apps.Collect | src/apps/apps.c:166-178 | collects the scored apps in order, up to 512 |
| Apps.ListRunsThroughFields | src/apps/apps.c:160-186 | any sorted outcome lists name, then generic-name, then keyword matches, scores never rising |
| Apps.ListedIffFound | src/apps/apps.c:160-186 | an app is listed exactly when some field holds the query |
| AppRows.EqualsByName | src/apps/apps.c:27-38 | of two equally scored apps the first one's name does not collate behind the other's |
| AppRows.ListIsCapped | src/apps/apps.c:160-186 | all matching apps are listed, or 512 of them |
| AppRows.SeparatorsEndWords | src/apps/apps.c:40-45 | which bytes end a word: two letters around any other byte are found in one word, around one of these they are not |
| AppRows.NamePrefixScore | src/apps/apps.c:61-129 | a longer one-word name that begins with the query scores 322000 |
| AppRows.OtherPrefixScores | src/apps/apps.c:61-154 | a one-word generic name 202000 and one keyword 102000, if no better field has the query |
| AppRows.TopScoreIffWholeName | src/apps/apps.c:112-129 | the score is infinite exactly for the whole name |
| EmojiPairs.WordStartPairs | src/emoji/emoji_provider.c:325-367 | the function, with both caps, equals the recurrence |
| EmojiPairs.PairScoreIsMaximum | src/emoji/emoji_provider.c:325-367 | the result is the greatest number of neighbouring pairs over all order-preserving placements, 0 if there is none |
| EmojiPairs.PairScoreBound | src/emoji/emoji_provider.c:325-367 | M filter bytes form at most M-1 pairs |
| EmojiRank.Classify | src/emoji/emoji_provider.c:459-493 | tier and total of a token, branch by branch |
| EmojiRank.RankEntry | src/emoji/emoji_provider.c:416-504 | the token loop: sum of the tokens' totals and highest tier, or no match if one token is missing |
| EmojiRank.ContributionRange | src/emoji/emoji_provider.c:438-457 | a contributing token of M bytes adds between 32 and 8(26M+10) |
| EmojiTotals.TotalByKind | src/emoji/emoji_provider.c:438-493 | what a token adds and which tier it gives, told from where it sits in the entry, over the best of 8, 7 and 2 times its scores |
| EmojiTotals.OneTokenRank | src/emoji/emoji_provider.c:416-504 | a query of one token is ranked by that, or not at all if no field has it |
| EmojiTotals.JoinedQueriesAdd | src/emoji/emoji_provider.c:495-504 | joining two queries adds the totals and takes the higher tier, if both match |
| EmojiTotals.OtherBytesSeparate | src/emoji/emoji_provider.c:424-436 | a query splits into tokens at every byte that is no small letter or digit |
| EmojiTotals.WholeIsToken | src/emoji/emoji_provider.c:424-436 | and nowhere else; a token is cut to 63 bytes |
| EmojiTotals.AcronymSeparators | src/emoji/emoji_provider.c:299-304 | which bytes start a word for acronyms |
| EmojiTotals.FirstWordsCount | src/emoji/emoji_provider.c:325-367 | an acronym counts within the first 128 words and not beyond |
| EmojiRank.ListedIff | src/emoji/emoji_provider.c:416-504 | an entry is listed exactly when the query has a token and each is found in some field |
| EmojiRank.TierBand | src/emoji/emoji_provider.c:459-493 | the band of totals each tier can reach |
| EmojiRank.TiersStayApart | src/emoji/emoji_provider.c:21-36 | tiers 2 to 6 never cross and tier 0 stays below them for every token; all seven are apart up to 22 bytes |
| EmojiTiers.TiersDecideTokenIff | src/emoji/emoji_provider.c:21-36 | for each token, a higher tier means a higher total for any two entries exactly if it has at most 22 bytes |
| EmojiTiers.AcronymTotal | src/emoji/emoji_provider.c:459-493 | every token has an acronym entry of tier 1 with total 5656 + 408 a byte |
| EmojiTiers.DeepTotal | src/emoji/emoji_provider.c:459-493 | and a word-prefix entry of tier 2 with total 15032, the least there is |
| EmojiQueries.EqualTokensDecideIff | src/emoji/emoji_provider.c:495-502 | equal tokens are decided by tiers exactly if they have at most 22 bytes |
| EmojiQueries.RareTokenCrosses | src/emoji/emoji_provider.c:495-502 | a token making up at most a third of the query lets two entries cross |
| EmojiQueries.CommonTokenCrosses | src/emoji/emoji_provider.c:495-502 | so do two tokens, unless the rarer begins with the commoner and makes up more than 7 for its 10 |
| EmojiScores.FrontScore | src/matching/fzf_algo.c:281-370 | an alphanumeric needle that starts the text, or follows its leading space, scores 26 a byte and 10, the most there is |
| EmojiScores.SplitScore | src/matching/fzf_algo.c:281-370 | split by a space behind its first byte it scores three points less |
| EmojiScores.SparseScore | src/matching/fzf_algo.c:281-370 | spread out between bytes of the same class, an alphanumeric needle and whatever begins it score 16, the least there is |
| EmojiNames.SpokenGrid | src/emoji/emoji_provider.c:325-334 | the pair table aligns a token with the first bytes of a name's words |
| EmojiNames.SpokenTier | src/emoji/emoji_provider.c:459-493 | a token that begins no word of a name is at best an acronym of it |
| EmojiLopsided.LopsidedDecides | src/emoji/emoji_provider.c:495-502 | two tokens, the rarer beginning with the commoner, are decided by tiers if there is slack between their counts as word prefixes and as acronyms |
| EmojiLopsided.LopsidedCrosses | src/emoji/emoji_provider.c:495-502 | without slack two entries cross: the commoner token as a name prefix against both as word prefixes |
| EmojiLopsided.AcronymsCross | src/emoji/emoji_provider.c:495-502 | long ones cross as well: both as acronyms of one name against the commoner as a word prefix |
| EmojiLopsided.QueryTiersDecideIff | src/emoji/emoji_provider.c:416-504 | for tokens of at most 22 bytes, close pairs apart, tiers decide exactly if all tokens are equal or there are two with slack between them |
| EmojiLopsided.SmallQueryTiersDecideIff | src/emoji/emoji_provider.c:416-504 | for every query of tokens of at most six bytes the same, with nothing set apart |
| EmojiLopsided.LopsidedMayDecide | src/emoji/emoji_provider.c:495-502 | tiers decide for "ab" three times and "a" four times, though the tokens differ |
| EmojiOrder.SortRows | src/emoji/emoji_provider.c:613-644 | the exchange sort leaves a permutation in display order |
| EmojiOrder.CollectRows | src/emoji/emoji_provider.c:577-593 | the matching rows in table order and the tier of the first best one |
| EmojiOrder.Promote | src/emoji/emoji_provider.c:603-606 | promotes exactly the recent rows of the top row's zone |
| EmojiOrder.OnQueryChanged | src/emoji/emoji_provider.c:561-648 | an empty query lists the table in order, any other the sorted, promoted matches |
| EmojiListing.ListedIffMatches | src/emoji/emoji_provider.c:577-593 | every entry with a positive total is listed once, and no other |
| EmojiListing.ListInOrder | src/emoji/emoji_provider.c:594-635 | entries picked before, of the best one's zone, come first, the last pick foremost; the others by total, then the later pick, then the table |
| EmojiListing.TopIsBest | src/emoji/emoji_provider.c:577-593 | the best entry is the first one with the highest total |
| EmojiOrder.LiftsJunkIff | src/emoji/emoji_provider.c:594-645 | past picks put a junk match above a structural one it stands behind without them exactly when a recent junk pick and such a match exist and the top match is junk, or the two tie |
| EmojiWitness.RecencyLiftsJunk | src/emoji/emoji_provider.c:561-645 | for every token of 25 bytes and more, every listing of a table of three entries puts a recent junk match above the acronym that outscores it |
| EmojiWitness.NeverLiftsIff | src/emoji/emoji_provider.c:561-645 | for a query of one token, no table and history let recency lift junk exactly if the token has at most 24 bytes |
| EmojiOrder.ShortQueriesKeepZones | src/emoji/emoji_provider.c:594-645 | for one token of at most 24 bytes every structural match stands above every junk match |
| Geometry.Intersect | src/harpoon/workspace_slots.c:57-68 | the result covers exactly the common pixels |
| Geometry.AreaCountsPixels | src/harpoon/workspace_slots.c:70-74 | the area is the number of pixels, inverted rectangles included |
| Geometry.SubtractIsExact | src/harpoon/workspace_slots.c:139-168 | the strips are disjoint and cover exactly the first rectangle outside the second |
| VisibleRegion.SubtractOccluder | src/harpoon/workspace_slots.c:248-266 | replaces the fragments by their differences, cut to the buffer |
| VisibleRegion.SubtractAll | src/harpoon/workspace_slots.c:242-269 | the loop over the occluders with its early exit |
| VisibleRegion.MeasureFragments | src/harpoon/workspace_slots.c:271-310 | area sum, first largest piece and its centre |
| VisibleRegion.VisibleFraction | src/harpoon/workspace_slots.c:174-313 | the whole computation: fraction and measures of the clipped pieces |
| VisibleRegion.FragmentsAreRegion | src/harpoon/workspace_slots.c:242-269 | fragments never overlap nor leave the uncovered region, and fill it while the buffer suffices |
| VisibleArea.FragmentsAreUnhidden | src/harpoon/workspace_slots.c:221-269 | with at most 32 occluders no fragment pixel is hidden; untruncated, every unhidden pixel is in a fragment |
| VisibleArea.AreaCountsVisiblePixels | src/harpoon/workspace_slots.c:271-312 | untruncated, the area equals the count of visible pixels exactly when none lies on two clips |
| VisibleContent.ContentPixelIff | src/harpoon/workspace_slots.c:187-207 | a pixel is content if it lies within the frame extents on all four sides; a window all of frame counts whole |
| VisibleContent.VisiblePixelIff | src/harpoon/workspace_slots.c:187-299 | it is visible if moreover no window later in the stack covers it and some monitor shows it |
| VisibleContent.AreaIsZeroIff | src/harpoon/workspace_slots.c:221-312 | the area is zero exactly if every content pixel on a monitor is covered |
| VisibleContent.FrameAloneIsNothing | src/harpoon/workspace_slots.c:182-187 | a window of which only the frame shows has area zero |
| VisibleContent.FractionIsShare | src/harpoon/workspace_slots.c:209-312 | the fraction is the number of visible pixels over that of content pixels |
| VisibleContent.LaterOccludersIgnored | src/harpoon/workspace_slots.c:221-240 | after 32 overlapping windows of the array the others change nothing |
| VisibleContent.OverlayInLargestPiece | src/harpoon/workspace_slots.c:290-310 | the overlay is centred on the first piece with the most pixels |
| VisibleArea.MirroredMonitorsCountTwice | src/harpoon/workspace_slots.c:290-299 | two equal clips report a visible window at 200 percent |
| VisibleArea.FractionInRange | src/harpoon/workspace_slots.c:188-312 | without double clipping the fraction is in [0,1], truncated or not |
| VisibleArea.AreaIgnoresOrder | src/harpoon/workspace_slots.c:221-312 | the order of the window array does not change the area |
| VisibleArea.CentreInsideIff | src/harpoon/workspace_slots.c:302-304 | the centre is inside its rectangle except for one-pixel sides at negative coordinates |
| VisibleArea.OverlayIsVisible | src/harpoon/workspace_slots.c:302-312 | a window passing the 8-pixel test gets its overlay on a visible pixel of its own |
| SlotOrder.AssignBandIndices | src/harpoon/workspace_slots.c:357-383 | the loop numbers the bands |
| SlotOrder.BandShape | src/harpoon/workspace_slots.c:354-383 | bands span at most 100 pixels from their first member, start more than 100 apart, and are numbered densely |
| SlotOrder.BandIsIntrinsic | src/harpoon/workspace_slots.c:371-383 | a window's band depends only on the set of coordinates |
| SlotOrder.OutcomeIsSorted | src/harpoon/workspace_slots.c:427-469 | any outcome of the two sorts is a permutation sorted by band, then across |
| SlotOrder.OrderIsDetermined | src/harpoon/workspace_slots.c:427-469 | neither input order nor an unstable sort changes the sequence of keys |
| SlotOrder.RowsReadAcross | src/harpoon/workspace_slots.c:385-447 | in row mode no window stands behind one more than 100 pixels below it, nor behind one further right in its own row |
| SlotOrder.ColumnsReadDown | src/harpoon/workspace_slots.c:409-469 | in column mode the same with x and y exchanged |
| SlotRank.PlaceIsRank | src/harpoon/workspace_slots.c:572-594 | after any outcome of the sorts a candidate in place i has at most i candidates before its key and more than i up to it, counted on the input |
| SlotRank.UntiedPlace | src/harpoon/workspace_slots.c:572-594 | a candidate that ties with no other has the same place after every outcome |
| SlotRank.SortedThenRecall | src/harpoon/workspace_slots.c:572-614 | sorting, assigning densely and recalling slot k gives the k-th window of the outcome for k up to nine, one of that rank, and no window beyond |
| PathReader.PathBuffer.ProcessBuffer | src/files/files_search.c:354-376 | the indexed pass with one removal at the end equals consuming one piece at a time |
| PathReader.SplitConcat | src/files/files_search.c:354-376 | splitting can stop anywhere and go on with the remainder |
| PathReader.ChunkExtends | src/files/files_search.c:398-403 | a reader that holds a stream's paths holds them after one more chunk |
| PathReader.EofCompletes | src/files/files_search.c:403-406 | at the end it holds the first 50000 kept pieces, an unterminated last one included |
| PathReader.CapIsFinal | src/files/files_search.c:347-350 | once the cap is hit no further byte would change the paths |
| PathReader.ChunkingIsIrrelevant | src/files/files_search.c:335-416 | the paths do not depend on how the stream was cut |
| PathReader.WrittenIsRead | src/files/files_search.c:335-376 | paths written with a NUL each are read back in order, up to 50000, empty and excluded ones dropped and no others |
| PathReader.UnendedIsRead | src/files/files_search.c:403-406 | a last path without its NUL is read as well |
| FilesFilter.FindWorst | src/files/files_search.c:251-258 | the index of a hit that beats no other |
| FilesFilter.CollectHits | src/files/files_search.c:234-267 | keeps the best hits of the whole list |
| FilesFilter.SortHits | src/files/files_search.c:269-287 | the exchange sort leaves a permutation by score, length, path |
| FilesFilter.Filter | src/files/files_search.c:225-293 | min(50, matches) distinct matches, none left out better than one shown, in display order |
| FilesRows.RowsInOrder | src/files/files_search.c:269-287 | of two rows the upper one scores no less, then has no longer a path, then is not greater at the first difference |
| FilesRows.NothingBetterLeftOut | src/files/files_search.c:251-267 | a match left out scores no more than any row, and with the same score is no shorter |
| FilesRows.RowsAreMatches | src/files/files_search.c:225-293 | the rows are different matches, fifty or as many as there are |
| FilesProtocol.StepInv | src/files/files_search.c:380-571 | every event finds its context alive and keeps the invariant |
| FilesProtocol.RunInv | src/files/files_search.c:380-571 | so does every run |
| FilesProtocol.RunsNeverDangle | src/files/files_search.c:380-473 | after any run no event that can happen meets a released context |
| FilesProtocol.CacheStep | src/files/files_search.c:295-333 | only the pending search delivers, once it has finished reading and waiting, and stops being pending |
| FilesProtocol.DeliversIff | src/files/files_search.c:325-446 | a step delivers exactly if it is the last thing the pending search waits for, the end of the pipe or of fd |
| FilesProtocol.CachedPathsAreTheStream | src/files/files_search.c:295-416 | after any run the cache is the first 50000 kept pieces of what was read, and the rows are its filter outcome |
| FilesProtocol.EndedStaysEnded | src/files/files_search.c:448-571 | a search that is no longer pending never delivers later |
| FilesProtocol.EndingKeepsPaths | src/files/files_search.c:448-571 | leave, refresh, timeout and cleanup end the search without delivering |
| FilesProtocol.GenerationIsRedundant | src/files/files_search.c:380-436 | for reads and waits being stale is being abandoned |
| FilesProtocol.LoadingStepIff | src/files/files_search.c:460-571 | an event breaks "loading exactly while pending" exactly if an old timer meets its wrapped generation |
| FilesProtocol.LoadingMeansPending | src/files/files_search.c:295-571 | below 2^32 refreshes "loading" holds exactly while a search is pending |
| FilesProtocol.WrapAroundBreaksLoading | src/files/files_search.c:460-473 | some run of 2^32 + 1 refreshes breaks it |
| FilesStatus.TimerNotesIff | src/files/files_search.c:460-473 | the timer of a search, delivered or not, notes a timeout exactly if nothing was refreshed since |
| FilesStatus.TimeoutIsReadIff | src/files/files_search.c:599-612 | below 2^32 refreshes the noted timeout is read exactly while no paths are cached |
| FilesStatus.DeliveredHidesTimeout | src/files/files_search.c:599-612 | once a search has delivered, no timer makes it read before the clean-up |
| FilesStatus.FinishedSearchReadsTimeout | src/files/files_search.c:460-486 | after the clean-up it is read though the only search finished in time |
| FilesStatus.RefreshTells | src/files/files_search.c:515-571 | what an empty list says after each outcome of a refresh |
| FilesStatus.DeliveryTells | src/files/files_search.c:295-333 | after a delivery it asks for a query or says that nothing matched |
| FilesTimers.TimerFreesIff | src/files/files_search.c:460-473 | a timer frees its context, its source still there, exactly when no read or wait is outstanding |
| FilesTimers.RemovesStaleIdIff | src/files/files_search.c:56-70 | a context is freed with the id of a removed source exactly when its last read or wait completes after its timer fired |
| FilesTimers.TimerHolds | src/files/files_search.c:56-70 | nothing else frees a context while its timer runs |
| FilesSearch.Searches.Unref | src/files/files_search.c:56-70 | a context is freed exactly with its last holder, and then its timer has fired |
| FilesSearch.Searches.AbandonSearch | src/files/files_search.c:448-458 | marks the context and drops it from the pending slot, once |
| FilesSearch.Searches.MaybeFinishSearch | src/files/files_search.c:325-333 | delivers exactly when both halves are done and the search is current |
| FilesSearch.Searches.StatusMessage | src/files/files_search.c:599-612 | the text shown for an empty list, case by case |
| FilesSearch.Searches.OnTimeoutFired | src/files/files_search.c:460-473 | refines the protocol step and leaves every count equal to its holders |
| FilesSearch.Searches.OnProcessWaited | src/files/files_search.c:430-446 | refines the protocol step and leaves every count equal to its holders |
| FilesSearch.Searches.OnStdoutChunk | src/files/files_search.c:380-428 | refines the protocol step for chunk, end, error and cap, counts kept equal to holders |
| FilesSearch.Searches.Leave | src/files/files_search.c:499-506 | refines the protocol step and leaves every count equal to its holders |
| FilesSearch.Searches.OnQueryChanged | src/files/files_search.c:508-513 | refines the protocol step and leaves every count equal to its holders |
| FilesSearch.Searches.CleanUpMode | src/files/files_search.c:475-486 | refines the protocol step and leaves every count equal to its holders |
| FilesSearch.Searches.StartRefresh | src/files/files_search.c:515-571 | refines the protocol step for every launch outcome, counts kept equal to holders |
| Wildcard.WildcardMatch | src/matching/window_matcher.c:57-95 | the recursive scan decides the glob relation |
| Wildcard.EscapedMatchesItself | src/matching/match_entry.c:8-22 | a captured title matches its own window |
| Wildcard.EscapedKeepsLength | src/matching/match_entry.c:8-22 | it matches exactly the equally long titles that agree outside stars and dots |
| Wildcard.StarSpansMiddle | src/matching/window_matcher.c:57-95 | a star between plain parts matches the titles that begin with the one and end with the other |
| MatchRegistry.CapturedMatchesSource | src/matching/match_entry.c:228-249 | a fresh entry matches the window it was captured from |
| MatchRegistry.CapturedMatchesIff | src/matching/match_entry.c:228-249 | it matches exactly the windows of the same class, instance and type whose title is as long and agrees outside stars and dots |
| MatchRegistry.PatternMatchesIff | src/matching/match_entry.c:251-265 | a typed pattern starts unbound and matches titles in windows of every class |
| MatchRegistry.RemoveAtIsExcept | src/matching/match_entry.c:170-200 | despite the index shift, deleting an entry removes exactly its id |
| MatchRegistry.NormalisedIsWellFormed | src/matching/match_entry_config.c:44-73 | any loaded file becomes positive, distinct ids below the next one |
| MatchRegistry.NormalisedIsIdentityIff | src/matching/match_entry_config.c:44-73 | normalising changes nothing exactly for registries that are already so |
| Normalising.NormalisedKeepsIdIff | src/matching/match_entry_config.c:44-73 | a stored id is kept exactly if positive, not stored by an entry before and not handed to one; every other entry is handed the next id |
| Normalising.NextIdIsBounded | src/matching/match_entry_config.c:61-65 | with stored ids below a bound the next id grows by at most one an entry, so nothing overflows up to INT_MAX - 256 |
| Normalising.NextIdIsAbove | src/matching/match_entry_config.c:61-65 | the next id ends above every stored one, so a stored INT_MAX always overflows |
| MatchRegistry.NormalisingMayStealAnId | src/matching/match_entry_config.c:51-62 | an entry without id can be given a later entry's id |
| MatchRegistry.HighNextIdProtects | src/matching/match_entry_config.c:51-62 | a next id above all stored ids protects every first occurrence |
| MatchRegistry.LoadKeepsFirst | src/matching/match_entry_config.c:119-174 | of any file the first 256 entries are loaded, in order and unbound, with nothing but their ids changed |
| MatchRegistry.SaveLoadRoundTrip | src/matching/match_entry_config.c:75-174 | saving and loading gives back every entry with its id, unbound |
| MatchRegistry.OnlyMembers | src/matching/match_entry.c:150-168 | garbage collection keeps exactly the referenced entries |
| MatchRegistry.ReboundIs | src/matching/match_entry.c:93-146 | an entry keeps a window that is still listed; else it gets the first it matches, or none |
| MatchRegistry.StepWellFormed | src/matching/match_entry.c:150-265 | every operation keeps ids positive, distinct and below a next id that never falls |
| MatchRegistry.IdsAreNeverReused | src/matching/match_entry.c:24-30 | over any run the issued ids strictly increase |
| MatchRegistry.MatchEntryManager.CreateEntry | src/matching/match_entry.c:228-249 | appends the captured entry, or refuses when full |
| MatchRegistry.MatchEntryManager.CreatePatternEntry | src/matching/match_entry.c:251-265 | appends an unbound pattern with the next id, or refuses when full or given nothing |
| MatchRegistry.MatchEntryManager.DeleteAt | src/matching/match_entry.c:170-190 | the shift loop removes one entry and clears the freed cell |
| MatchRegistry.MatchEntryManager.RebindEntry | src/matching/match_entry.c:93-146 | a live binding stays, a dead one moves to the first match |
| MatchRegistry.MatchEntryManager.Reassign | src/matching/match_entry.c:87-148 | rebinds every entry and reports a change exactly when some binding changed |
| MatchRegistry.MatchEntryManager.Gc | src/matching/match_entry.c:150-168 | the loop that stays on an index after a deletion keeps the referenced entries in order |
| MatchRegistry.MatchEntryManager.Normalise | src/matching/match_entry_config.c:44-73 | the loop over seen ids computes the normalised registry |
| Harpoon.ToggledInv | src/harpoon/key_handler_harpoon.c:49-93 | assigned slots keep distinct ids that all resolve, and the slot store mirrors them |
| Harpoon.AssignOutcome | src/harpoon/key_handler_harpoon.c:64-88 | an assignment binds the slot, leaves no other slot holding the window, and deletes exactly the displaced entries and the replaced one |
| Harpoon.NoRoomNoChange | src/harpoon/harpoon.c:46-62 | without room nothing changes |
| Harpoon.ToggleTwiceEmpties | src/harpoon/key_handler_harpoon.c:57-63 | repeating the shortcut empties the slot and deletes its entry |
| Harpoon.OwnershipKept | src/harpoon/key_handler_harpoon.c:49-93 | while harpoon owns every entry it keeps doing so and there is room |
| Harpoon.RebindingCuresStaleness | src/harpoon/harpoon.c:82-100 | after rebinding to the current window list no recall is stale |
| HarpoonRebinding.RecallAfterChange | src/matching/match_entry.c:87-148 | after any run and a change of the list, a slot recalls its window if that is listed, else the first it matches, or none |
| HarpoonRebinding.RecallIsKeptIff | src/harpoon/harpoon.c:82-100 | a listed window that a slot recalls stays its own exactly if the slot is bound to it or it is the first match |
| HarpoonRebinding.UnboundMoves | src/harpoon/harpoon.c:82-100 | a slot unbound by a change, and not recalled since, is not held to the window it would recall |
| HarpoonRuns.RunKeeps | src/harpoon/key_handler_harpoon.c:49-93 | over any run of shortcuts and list changes slots and entries stay in correspondence, and every binding is to a listed window or to one lost by a bare refresh |
| HarpoonRuns.RecallIsLiveUnlessLost | src/harpoon/harpoon.c:82-100 | after any run recall yields a listed window or none exactly if the slot's window was not lost by a bare refresh since the last rebinding |
| HarpoonRuns.RecallIsLiveWithoutRefresh | src/harpoon/harpoon.c:82-100 | without bare refreshes recall is always live |
| HarpoonRuns.ShortestStaleRun | src/projects/projects.c:259 | after one assignment and one bare refresh recall yields a window that is gone |
| HarpoonRuns.OneActionIsLive | src/harpoon/harpoon.c:82-100 | no single action suffices |
| HarpoonShared.RecalledAfter | src/harpoon/key_handler_harpoon.c:49-93 | what every slot recalls after an action, told from the world before it |
| HarpoonShared.BecomeSharedIff | src/harpoon/key_handler_harpoon.c:64-88 | two slots come to recall one window exactly when it is assigned while the other recalls it though its pattern no longer matches, or when a list gives both the same window |
| HarpoonShared.RetitledIsShared | src/harpoon/key_handler_harpoon.c:64-88 | assigning, retitling and assigning again makes two slots recall one window |
| Harpoon.HarpoonManager.GetSlotWindow | src/harpoon/harpoon.c:82-100 | the recalled window and the rebinding it may cause |
| Harpoon.HarpoonManager.Displace | src/harpoon/key_handler_harpoon.c:68-79 | the loop over the other slots clears those holding the window and deletes their entries |
| Harpoon.HarpoonManager.AssignOrToggle | src/harpoon/key_handler_harpoon.c:49-93 | the whole handler computes the toggled state, or refuses a slot out of range |

## Left out

- X11, GTK, GIO, JSON and process calls: window geometry, stacking order, stream bytes, saved records and launch outcomes are inputs; overlays, selection and redraw are not modelled.
- Integer width outside the 16-bit matcher and the 32-bit generation: areas and sort comparators are unbounded, so overflow of `int` is not modelled.
- Null pointers, and failure of memory allocation (the matcher's heap matrices included): callers always pass real objects.
- Truncation of titles and names to their fixed buffers when copied; the window fields and entry fields have the same sizes.
- The candidate loop of `assign_workspace_slots`: it overwrites positions at `workspace_slots.c:566-567` that later turns read as occluders, so visibility is stated for the array passed to one call.
- Removal of client-side decoration and collection of monitor clips: their results are parameters.
- `qsort`: any permutation that respects the comparator is an outcome (`SlotOrder.SortOutcome`, `Apps.IsFilterOutcome`); no particular sorting algorithm is modelled.
- `g_utf8_collate`, `g_utf8_normalize` and `g_pattern_match_simple`: parameters; character classes and case follow the C locale.
- The flattened H and C matrices are two-dimensional arrays, and phase 2 of the scorer is split into the one-byte and the general case.
- The slot store is a map for the "windows" tab; its file format and other tabs' payloads are not modelled.
- The emoji history list: a row's place in it is a parameter.
- FzfOptimality.OptimalEverywhereIff: needles of 511 to 1023 bytes that end in no letter or digit, and those of 1022 and 1023 bytes, are not covered; which of them have room for a better placement depends on how they repeat.
- PositionsOptimality.PositionsReachEverywhereIff: needles of more than 1016 bytes are not covered; the haystack built for the proof is eight bytes longer.
- EmojiLopsided.QueryTiersDecideIff: a query of two tokens, the rarer (more than 7 for 10) beginning with the commoner, is not covered if it has slack as word prefixes and its acronyms lie between `SmallAcronyms` and `LongAcronyms`; neither bound is exact when the tokens repeat themselves. This does not happen up to six bytes. Queries of different tokens with one above 22 bytes are not covered either.
- MatchRegistry.NormalisedIsWellFormed: ids are unbounded here; `NextIdIsBounded` and `NextIdIsAbove` say when the program's `int` suffices.
- Harpoon as one of several owners of entries: layouts may share a harpoon entry, so `RunKeeps` starts with harpoon as the only owner.
- Bluetooth operations, tiling, hotkeys, command parsing, the calculator, help text and tab providers: case tables and small list updates.
