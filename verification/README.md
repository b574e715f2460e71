# Crossword placement engine — a Dafny model

This project models the placement engine of a crossword-style puzzle
generator (`src/game/scenes/Game.js`), taken out of the game scene that hosts
it. Given a word list and a grid of `rows × cols` cells, the engine:

- orders the words: grouped by length, each group shuffled with Fisher–Yates,
  longest group first;
- lays the first word horizontally, centred;
- places every later word so that it crosses a placed letter carrying the
  same character, or defers the word when it has no legal position;
- validates every placement against the forbidden zone of the final board,
  and starts a new pass when any placement fails.

The forbidden zone comes from two rules:

- an end guard just before and just after every word;
- a crowding rule on the diagonal neighbours of cells that two words share.

Modules, leaf first:

| file | module | contents |
|---|---|---|
| `grid.dfy` | `Grid` | cells, directions, letter and word placements, the letter lookup |
| `word_order.dfy` | `WordOrder` | `shuffleByWordLength` |
| `forbidden.dfy` | `ForbiddenZone` | `calculateForbiddenPositions` and `getCommonLettersPositionsOnGrid` |
| `candidates.dfy` | `Candidates` | `calculatePossibleWordPositions` |
| `generator.dfy` | `Generator` | `placeFirstWord`, `selectRandomElement`, `checkIsValidPlacement`, `generatePuzzle` |
| `puzzle_invariants.dfy` | `PuzzleInvariants` | the properties every accepted puzzle has |

Modelling choices:

- **Coordinates and lookups.** Grid positions are a `Cell(x, y)` datatype, not
  `"x,y"` strings. Position sets are `set<Cell>`. The letter lookup is a
  `map<Cell, char>`, filled in placement order, so a later letter at a cell
  overwrites an earlier one, as the source's object assignment does.
- **Randomness.** Randomness is a stream `rng: nat -> nat` read from a
  cursor. `Math.floor(Math.random() * n)` becomes `rng(cursor) % n`, which
  ranges over exactly `0 .. n-1`.
- **Draw order.** The shuffle draws first, group by group in ascending length
  order; this is the order in which a JavaScript `for … in` visits integer
  keys. After that, each placed word takes one draw.
- **Explicit placements.** `getCommonLettersPositionsOnGrid` reads the
  scene's placed words, not the list handed to `calculateForbiddenPositions`.
  Every caller passes that same list, so the model takes the placements as an
  explicit parameter.
- **Candidates as a reference definition.** The candidate search is modelled
  step by step: anchor letters in placement order, word indices ascending,
  vertical before horizontal, and the per-letter loop that stops at the first
  failure. It is also characterised by a declarative predicate,
  `Candidates.LegalPlacement`. The model proves that the candidates are
  exactly the legal placements.

- **Passes as functions.** One pass of `generatePuzzle` is the pure function
  `Generator.Attempt`: shuffle, place, validate. `Generator.StartOf` gives the
  order and stream position each pass starts from, and `Generator.PassAt` the
  pass itself. The retry loop is stated against them. The placement loop is
  `Generator.Turn` applied to each later word in order.
- **Turn records.** The loop state also records, for each deferred word, how
  many words were placed when it was deferred. The source keeps no such
  record and no operation reads it. It lets the contracts name the exact
  placements each deferral was decided against.

Behaviour of `Game.js` the model keeps:

- A retry calls `generatePuzzle` again (lines 85-87). That call reshuffles
  `this.words`, which already holds the order the failed pass produced
  (line 60). The random stream carries on. Nothing restarts from the caller's
  original list.
- Deferred words are a list in deferral order, filled by
  `notPlacedWords.push` (line 76).
- `generatePuzzle` does not check its input. `placeFirstWord` reads
  `this.words[0]` (line 331) and fails on an empty list, so a non-empty list
  is a precondition. Words longer than the grid go through the same code as
  any other word.

## Model

| member | source | states |
|---|---|---|
| WordOrder.Swap | src/game/scenes/Game.js:378-379 | exchanging positions `i` and `j <= i` moves exactly those two words and keeps the multiset of words |
| WordOrder.FisherYates | src/game/scenes/Game.js:377-380 | the in-place shuffle of one group is a permutation of it and never touches positions above the starting index |
| WordOrder.Group | src/game/scenes/Game.js:367-372 | the group for a length holds every input word of that length as often as the input does, and no other word |
| WordOrder.Shuffled | src/game/scenes/Game.js:374-381 | a shuffled group is a permutation of its group |
| WordOrder.PrependLongerBlock | src/game/scenes/Game.js:384-388 | putting a block of length-`len` words in front of shorter, length-ordered words keeps lengths non-increasing |
| WordOrder.Arrange | src/game/scenes/Game.js:383-388 | concatenating the shuffled groups from length `len` down gives non-increasing lengths and, per word, its input multiplicity if its length is at most `len` |
| WordOrder.ShuffleByWordLength | src/game/scenes/Game.js:365-391 | the ordering is a permutation of the input with non-increasing word lengths |
| WordOrder.FirstIsLongest | src/game/scenes/Game.js:384-390 | the first word of the ordering is at least as long as every input word |
| Grid.LetterMap | src/game/scenes/Game.js:236-241 | the lookup's keys are exactly the occupied cells, and each cell maps to the letter of the last placement written there |
| Grid.LetterMapConsistent | src/game/scenes/Game.js:236-241 | when no cell holds two different letters, the lookup gives every placed letter's own character |
| Grid.AllLettersMembership | src/game/scenes/Game.js:156-160 | a letter is among all placed letters iff some placement contains it |
| ForbiddenZone.DedupFrom | src/game/scenes/Game.js:185-195 | the filtered list has no repeated cell and holds exactly the input cells not already seen |
| ForbiddenZone.Dedup | src/game/scenes/Game.js:185-195 | duplicate removal keeps exactly the input's cells, each once |
| ForbiddenZone.DedupKeepsDistinct | src/game/scenes/Game.js:185-195 | a list without repeats passes through duplicate removal unchanged, order included |
| ForbiddenZone.EndGuardsMembership | src/game/scenes/Game.js:130-151 | a cell is listed as an end guard iff it is the cell before the first or after the last letter of some placement, along its direction |
| ForbiddenZone.SameCell | src/game/scenes/Game.js:211-220 | the inner letter loop reports the letter's cell iff the other word has a letter on that cell |
| ForbiddenZone.PairCommon | src/game/scenes/Game.js:210-222 | the cells reported for two words are exactly the cells both occupy |
| ForbiddenZone.CommonWithLater | src/game/scenes/Game.js:207-223 | the cells reported for one word are exactly its cells that some later word also occupies |
| ForbiddenZone.CommonSplit | src/game/scenes/Game.js:204-208 | a cell is shared among the placements iff the first one shares it with a later one or two later ones share it |
| ForbiddenZone.CommonRawMembership | src/game/scenes/Game.js:204-224 | a cell is reported by the pair loops iff two different placements both occupy it |
| ForbiddenZone.CommonLetterCells | src/game/scenes/Game.js:201-227 | the shared cells are listed once each, and a cell is listed iff two different placements occupy it |
| ForbiddenZone.CrowdedAround | src/game/scenes/Game.js:163-182 | the cells added for one shared cell are exactly its diagonal neighbours with at least two occupied orthogonal neighbours |
| ForbiddenZone.CrowdedCells | src/game/scenes/Game.js:162-183 | the crowded cells are exactly the crowded diagonal neighbours of some shared cell |
| ForbiddenZone.ForbiddenPositions | src/game/scenes/Game.js:127-199 | the forbidden list has no repeated cell, and a cell is in it iff it is an end guard or a crowded diagonal neighbour of a shared cell |
| ForbiddenZone.ForbiddenSet | src/game/scenes/Game.js:232-233 | the forbidden set has the same members as the zone's definition |
| Candidates.LayoutIsContiguous | src/game/scenes/Game.js:258-261 | a trial puts `word[i]` `i - k` steps from the anchor, so the letters run contiguously from the first one and letter `k` sits on the anchor with its own character |
| Candidates.OverlapsZero | src/game/scenes/Game.js:268-275 | the overlap counter stays zero iff no trial letter lands on an occupied cell |
| Candidates.OverlapsAtMostOne | src/game/scenes/Game.js:268-280 | the overlap counter ends at most one iff no two trial letters land on occupied cells |
| Candidates.Scan | src/game/scenes/Game.js:258-278 | the letter loop completes iff every letter is on the grid along the axis, not forbidden, and not on a different letter; it then returns the overlap count |
| Candidates.TryPlace | src/game/scenes/Game.js:253-286 | a trial is kept iff every letter passes and at most one lands on an occupied cell, and it is then the laid-out word |
| Candidates.TrialsAt | src/game/scenes/Game.js:251-321 | the trials for one placed letter and one word index are exactly the passing layouts in either direction when the characters match, and none otherwise |
| Candidates.AnchorCandidates | src/game/scenes/Game.js:250-322 | the trials from one placed letter are exactly the passing layouts that put a word index carrying that letter's character on its cell, in either direction |
| Candidates.LetterCandidates | src/game/scenes/Game.js:244-325 | the trials over a list of placed letters are exactly the passing layouts anchored on one of them |
| Candidates.CandidateIsLegal | src/game/scenes/Game.js:243-325 | every emitted trial is a legal placement: contiguous, anchored on a matching placed letter, on the grid along its axis, clear of the forbidden zone, agreeing with occupied cells, at most one overlap |
| Candidates.FitsIsLegalTests | src/game/scenes/Game.js:263-280 | a trial that passes the board tests is on the grid along its axis, clear of the forbidden zone, agrees with every occupied cell it touches and overlaps at most once |
| Candidates.LayoutOfContiguous | src/game/scenes/Game.js:258-261 | a contiguous run of the word's letters is the layout anchored at any of its letters |
| Candidates.LegalFits | src/game/scenes/Game.js:263-280 | a legal placement passes every per-letter test and the overlap test against the board |
| Candidates.LegalIsCandidate | src/game/scenes/Game.js:243-325 | every legal placement is emitted by the trial anchored on its matching placed letter |
| Candidates.CalculatePossibleWordPositions | src/game/scenes/Game.js:229-328 | the candidates are exactly the legal placements of the word against the placed words |
| Generator.PlaceFirstWord | src/game/scenes/Game.js:330-356 | the first word lies horizontally and contiguously, centred: margins left and right differ by at most one, and so do the rows above and below; when it fits, every letter is on the grid |
| Generator.SelectRandomElement | src/game/scenes/Game.js:359-362 | the selection is an element of the candidate list |
| Generator.NoneForbidden | src/game/scenes/Game.js:99-106 | the letter walk succeeds iff no letter lies on a forbidden cell |
| Generator.CheckIsValidPlacement | src/game/scenes/Game.js:95-107 | a placement is valid iff none of its letters is in the forbidden zone of the given placements |
| Generator.InvalidPlacements | src/game/scenes/Game.js:83 | the filter keeps exactly the placements that fail validation |
| Generator.NoInvalidMeansAllValid | src/game/scenes/Game.js:83-84 | the filter is empty iff every placement validates |
| Generator.ChainedAppend | src/game/scenes/Game.js:69-73 | appending a legal placement to a chain gives a chain |
| Generator.PlacedStep | src/game/scenes/Game.js:67-73 | placing the current word keeps every word seen so far placed or deferred exactly once |
| Generator.DeferredStep | src/game/scenes/Game.js:67-77 | deferring the current word keeps every word seen so far placed or deferred exactly once |
| Generator.DeferredByAll | src/game/scenes/Game.js:67-78 | when every deferral came while at most `t` words were placed, all of them precede placement `t` |
| Generator.DeferredByAppend | src/game/scenes/Game.js:75-77 | a new deferral counts before placement `t` exactly when it came while at most `t` words were placed |
| Generator.Turn | src/game/scenes/Game.js:67-78 | a turn defers its word iff the word has no candidate against the current placements; a deferral records the current number of placements and draws nothing; otherwise the placements grow by exactly the candidate the next draw selects, and one draw is used |
| Generator.NoCandidateOnPrefix | src/game/scenes/Game.js:69-73 | adding a placement leaves unchanged the placements that were on the board at an earlier turn |
| Generator.DeferredAppendPlaced | src/game/scenes/Game.js:71-73 | after a placement, every deferral still had no candidate against exactly the placements made before its turn |
| Generator.DeferredAppendWord | src/game/scenes/Game.js:75-77 | a word without candidates against all current placements is recorded as deferred at the current number of placements, and earlier deferrals keep their records |
| Generator.OrderAppendPlaced | src/game/scenes/Game.js:67-73 | placing the word whose turn it is keeps the placements and deferrals interleaved in the order of the list |
| Generator.OrderAppendWord | src/game/scenes/Game.js:67-77 | deferring the word whose turn it is keeps the placements and deferrals interleaved in the order of the list |
| Generator.TurnPlaces | src/game/scenes/Game.js:69-73 | placing a candidate of the current word keeps the loop invariant: chain, first word, each word once, deferral records, turn order |
| Generator.TurnDefers | src/game/scenes/Game.js:69-77 | deferring a word without candidates keeps the loop invariant |
| Generator.TurnKeepsInvariant | src/game/scenes/Game.js:67-78 | every turn keeps the loop invariant, whichever branch it takes |
| Generator.IterateKeeps | src/game/scenes/Game.js:67 | turns that each keep an invariant keep it over the whole run of the loop |
| Generator.TurnsKeepInvariant | src/game/scenes/Game.js:67-79 | every turn of the placement loop of one list keeps its invariant |
| Generator.PlaceWords | src/game/scenes/Game.js:61-79 | after the loop, the placements form a chain from the first word and every word is placed or deferred exactly once. Each deferred word had no candidate against exactly the placements made before its turn. Placements and deferrals follow the list's order. One draw was used per placed later word |
| Generator.Attempt | src/game/scenes/Game.js:60-84 | one pass orders the words as a length-sorted permutation, and its placements carry every guarantee of the placement loop. It reports valid iff every placement passes validation against the final placements |
| Generator.StartOf | src/game/scenes/Game.js:60 | every pass starts from a permutation of the input words |
| Generator.PassAccepted | src/game/scenes/Game.js:54-93 | a pass that validates yields an accepted puzzle for the input words |
| Generator.GeneratePuzzle | src/game/scenes/Game.js:54-93 | generation succeeds iff one of the first `maxAttempts` passes validates; the puzzle is then the state of the first such pass, and it is accepted. The order stays a permutation of the input across retries |
| PuzzleInvariants.ContiguousDistinct | src/game/scenes/Game.js:258-277 | letters laid one step apart along an axis occupy distinct cells |
| PuzzleInvariants.ConsistentExtend | src/game/scenes/Game.js:268-271 | adding letters on distinct cells that agree with the lookup keeps every cell to one letter |
| PuzzleInvariants.LegalInGrid | src/game/scenes/Game.js:263-266 | checking only the moving coordinate suffices: a legal placement against in-grid letters is entirely in the grid |
| PuzzleInvariants.LegalKeepsConsistent | src/game/scenes/Game.js:268-272 | adding a legal placement keeps every cell to one letter |
| PuzzleInvariants.ChainedPrefix | src/game/scenes/Game.js:67-73 | dropping the last placement of a chain leaves a chain, against which the last one was legal |
| PuzzleInvariants.ChainInGridAndConsistent | src/game/scenes/Game.js:330-356 | in a chain whose first word fits, every letter is on the grid and no cell holds two different letters |
| PuzzleInvariants.CrossesOnce | src/game/scenes/Game.js:268-280 | every word after the first carries one letter that coincides, character and cell, with a placed letter, and no second letter on an occupied cell |
| PuzzleInvariants.ChainAnchored | src/game/scenes/Game.js:244-251 | every word after the first is anchored on an earlier placed letter |
| PuzzleInvariants.ValidatedClearOfZone | src/game/scenes/Game.js:83-88 | when every placement validates, no placed letter is in the final forbidden zone |
| PuzzleInvariants.FirstPlacedIsInput | src/game/scenes/Game.js:60-64 | the first placed word is one of the input words |
| PuzzleInvariants.UnsharedNotLegal | src/game/scenes/Game.js:250-251 | a word sharing no character with the placed letters has no legal placement |
| PuzzleInvariants.NoSharedLetterNoCandidate | src/game/scenes/Game.js:250-251 | a word sharing no character with the placed letters gets no candidate, so it is deferred |
| PuzzleInvariants.FirstWordExample | src/game/scenes/Game.js:336-348 | SEAT on an 8 by 8 grid runs from cell (2,4) to cell (5,4) |
| PuzzleInvariants.GeneratedPuzzleInvariants | src/game/scenes/Game.js:54-93 | when every word fits a row, an accepted puzzle satisfies four properties: its first word is centred; every letter is on the grid; no cell holds two letters; no letter is in the final forbidden zone. Also, every later word is anchored on an earlier one |

## Left out

- Rendering and scene lifecycle are not modelled, because they do not affect placement. This covers Phaser drawing, the grid rectangles, the refresh button, `displayPlacedWords` and the word group (`Game.js:1-52`, `55-59`, `109-124`).
- `console.log` output is not modelled, because it is output only.
- `Math.random()` is not modelled. A caller-supplied stream of naturals takes its place, reduced modulo the range. Only the index each call yields is modelled.
- Fisher–Yates and the selector are not proved uniform. Uniformity is a property of the random source, not of the index arithmetic.
- Reproducibility for equal seeds is not stated as a lemma. Every operation here is a function of its inputs and the stream, so equal inputs give equal results by construction.
- Generator.GeneratePuzzle: retries are bounded by a `maxAttempts` parameter, and the model returns `GenerationFailed` once the attempts run out. The source recurses without bound and may never return.
- Generator.GeneratePuzzle: an empty word list is a precondition. The source reads the first word of the ordered list and fails when the list is empty.
- ForbiddenZone.CommonLetterCells: the source also records the letter at each shared cell, and no caller reads it. The model keeps only the cells.
- ForbiddenZone.Guards: a placement without letters gets no end guards. The source would fail reading its first letter, and every placement it builds has at least one letter for a non-empty word.
- Candidates.Scan: the source tests `existingPositions[posKey]` for truthiness. The model tests whether the cell is a key. These agree because every stored letter is a one-character string.
- Words are sequences of Unicode characters. The source's `word.length` and `word.split('')` (`Game.js:231`, `332`, `369`) count UTF-16 code units. The two agree only for words whose characters all lie in the Basic Multilingual Plane.
- Coordinate strings such as `"x,y"` and JavaScript object and `Map` key semantics are replaced by cells, sets and maps.
- The scene field `this.words` is not modelled as mutable state. `Generator.GeneratePuzzle` returns the order it leaves behind instead.
