# Crossword layout and play, modelled in Dafny

This project models the core of the crossword activity in
`novo_projeto-13-imagem-assets/scripts.js`. The core has four stages:

- **Prepare the words.** Each answer is normalised to `A`-`Z`, `0`-`9` and `-`.
- **Lay the words out.** They are sorted longest first, then placed one by one
  on a sparse grid, with a legality check and a best-crossing search.
- **Draw and number.** The sparse grid becomes a dense matrix, each word's
  squares are back-filled, and start squares are numbered in reading order.
- **Play.** Letters are typed, checked, revealed and cleared. The module also
  covers the cursor, the clock and the result message.

All data is immutable. The operations are functions over datatypes. The
placement loop is a method (`Layout.PlaceAll`, `Pipeline.GenerateLayout`) that
threads an immutable layout state, with a ghost trace of the states it passes
through.
- The grid is a `map<Coord, Cell>`; each cell has one owner slot per
  orientation.
- `charMap` is the log of its writes.
- Each word's placement lives in `Engine.placed`, not in a mutated word object.
- Words are referred to by their position in the input list.

The files follow the program's structure:

| file | models |
|---|---|
| `wrappers.dfy` | `Option` and `Result` |
| `text.dfy` | `normalizeAnswer`, `normalizeChar`, and a Latin upper-case/decomposition table |
| `words.dfy` | `toIndex`, `createWord`, the word list of `prepareState`, the orientation order |
| `grid.dfy` | coordinates, cells, `charMap`, bounds |
| `legality.dfy` | `canPlaceWord` |
| `commit.dfy` | `placeWordOnGrid` and the invariant every placement keeps |
| `search.dfy` | `findBestPlacement` |
| `ordering.dfy` | the stable longest-first sort |
| `layout.dfy` | the placement loop of `generateLayout` |
| `matrix.dfy` | `buildMatrixFromGrid` |
| `numbering.dfy` | `assignNumbers` |
| `play.dfy` | `setCellValue`, `handleCheck`, `handleShowSolution`, `handleRetry` |
| `presentation.dfy` | cursor moves, the `mm:ss` clock, `formatResultMessage` |
| `pipeline.dfy` | `generateLayout` end to end, and the puzzle it prepares |

**Neighbour rule.** The comment at scripts.js:261 says the side checks keep
words from touching side by side. The comment at scripts.js:284 says the
squares before and after a new word must be empty. The side check itself
(scripts.js:262-280) is narrower:
- it rejects a present side neighbour that has no perpendicular owner, or whose
  perpendicular owner is the word itself;
- it accepts a side neighbour owned perpendicularly by a different word.

`Legality.NeighbourBlocks` states the code's rule. `Legality.AcrossRunCanBeExtended`
shows its effect: on every grid that meets its requires, a down word may start
in the square right after an across word.

## Model

| member | source | states |
|---|---|---|
| Text.NormalizeAnswer | novo_projeto-13-imagem-assets/scripts.js:170-178 | the result holds only `A`-`Z`, `0`-`9` and `-`; a missing or empty text gives "" |
| Text.NormalizeChar | novo_projeto-13-imagem-assets/scripts.js:180-183 | at most one character; a prefix of the normalised answer; empty exactly when the normalised answer is empty |
| Text.NormalFormIsFixed | novo_projeto-13-imagem-assets/scripts.js:170-178 | a text already over `[A-Z0-9-]` normalises to itself (for tables that leave those characters alone) |
| Text.NormalizeIdempotent | novo_projeto-13-imagem-assets/scripts.js:170-178 | normalising a normalised answer changes nothing |
| Text.NormalizeConcat | novo_projeto-13-imagem-assets/scripts.js:170-178 | normalisation works character by character: it distributes over concatenation |
| Text.AccentedCapitalFolds | novo_projeto-13-imagem-assets/scripts.js:173-176 | each accented Latin capital normalises to its unaccented base letter |
| Text.LowerCaseFolds | novo_projeto-13-imagem-assets/scripts.js:173-177 | a lower-case ASCII letter normalises to its capital |
| Text.KeyboardKeysAccepted | novo_projeto-13-imagem-assets/scripts.js:50-57 | every letter key of the on-screen keyboard types exactly one normalised character |
| Words.ToIndex | novo_projeto-13-imagem-assets/scripts.js:163-168 | absent or non-finite gives nothing; below 1 gives 0; otherwise the floor of `value - 1` |
| Words.ToIndexInverse | novo_projeto-13-imagem-assets/scripts.js:163-168 | the 1-based position `n + 1` maps back to index `n` |
| Words.ParsePreference | novo_projeto-13-imagem-assets/scripts.js:147 | "down" or "across" in any ASCII case is a preference for that orientation, and nothing else is |
| Words.OrientationOrder | novo_projeto-13-imagem-assets/scripts.js:355-360 | two different orientations, the preferred one first, across when there is no preference |
| Words.FixedOrientation | novo_projeto-13-imagem-assets/scripts.js:363-366 | a fixed word is tried in the first orientation of its orientation order |
| Words.CreateWord | novo_projeto-13-imagem-assets/scripts.js:135-161 | with any Unicode tables, fails naming the clue exactly when the answer normalises to ""; otherwise the word has the input index as id, the normalised answer as its non-empty `sanitized` text, and the clue, answer, orientation preference, fix flag and converted row and column of the entry |
| Words.CreateWordsFrom | novo_projeto-13-imagem-assets/scripts.js:128-129 | succeeds exactly when no entry from `from` on is invalid, and then word `i` is the word created from entry `from + i`; otherwise fails with the error of the first invalid entry |
| Words.CreateWords | novo_projeto-13-imagem-assets/scripts.js:128-129 | succeeds exactly when every entry is valid; then one word per entry, word `i` created from entry `i`, ids equal to positions, all non-empty |
| Grid.Grow | novo_projeto-13-imagem-assets/scripts.js:230-233 | the least box that covers the old bounds and the new coordinate |
| Grid.OccurrencesExact | novo_projeto-13-imagem-assets/scripts.js:235-238 | `charMap.get(x)` lists a coordinate exactly when letter `x` was written there |
| Commit.WriteCells | novo_projeto-13-imagem-assets/scripts.js:205-227 | every written letter sits on its path cell with the word in that orientation's slot; cells off the path and the perpendicular slots are untouched |
| Commit.LogPath | novo_projeto-13-imagem-assets/scripts.js:235-238 | `charMap` gains one entry per letter, in letter order, after the old entries |
| Commit.Place | novo_projeto-13-imagem-assets/scripts.js:200-240 | every letter is written and claimed on its path, cells off the path are unchanged, the log gains the path's marks in order, the bounds grow to cover the path, and the word is recorded at that placement |
| Commit.GrowPath | novo_projeto-13-imagem-assets/scripts.js:230-233 | the bounds become the least box that covers the old bounds and the whole path |
| Commit.EmptyEngineWellFormed | novo_projeto-13-imagem-assets/scripts.js:193-199 | the starting state satisfies the layout invariant |
| Commit.CommitPreservesWellFormed | novo_projeto-13-imagem-assets/scripts.js:200-240 | placing a legal (or entirely fresh) word keeps the invariant and adds exactly that word. The invariant: every placed word is spelled on its path, every owner slot points back to its word, the bounds are the least box, and `charMap` is exact |
| Commit.SharedCellsAgree | novo_projeto-13-imagem-assets/scripts.js:250-253 | two placed words that share a cell have the same letter there |
| Commit.SharedCellsCross | novo_projeto-13-imagem-assets/scripts.js:254-259 | two different placed words that share a cell cross it in different orientations |
| Legality.LettersFitFrom | novo_projeto-13-imagem-assets/scripts.js:243-282 | the letter loop accepts exactly when no later letter clashes, is taken by another word in this orientation, or touches a blocking neighbour |
| Legality.CanPlaceWord | novo_projeto-13-imagem-assets/scripts.js:242-306 | legal exactly when none of the four rejection rules fires (letter clash, taken slot, blocking side neighbour, blocked end) |
| Legality.EmptyGridAccepts | novo_projeto-13-imagem-assets/scripts.js:242-306 | every placement is legal on an empty grid |
| Legality.AcrossRunCanBeExtended | novo_projeto-13-imagem-assets/scripts.js:262-280 | on every grid meeting its requires, a down word is accepted in the square right after an across word |
| Search.CandidatesSound | novo_projeto-13-imagem-assets/scripts.js:313-318 | every candidate lines up a letter of the word with a logged cell that holds that letter |
| Search.CandidatesComplete | novo_projeto-13-imagem-assets/scripts.js:313-318 | every logged cell holding letter `i` is a candidate for letter `i` |
| Search.CandidatesOrder | novo_projeto-13-imagem-assets/scripts.js:313-318 | candidates come letter by letter in letter order, and the candidates of each letter are its `charMap` cells in write order, which is how ties are broken |
| Search.StartFor | novo_projeto-13-imagem-assets/scripts.js:322-325 | the proposed start puts the candidate's letter on the candidate's cell |
| Search.Proposals | novo_projeto-13-imagem-assets/scripts.js:320-328 | two proposals per candidate: all in the first orientation of the order, then all in the second; proposal `k` puts the letter of candidate `k` on its cell |
| Search.Crossings | novo_projeto-13-imagem-assets/scripts.js:335-342 | at most the word length, and zero exactly when no path cell is on the grid |
| Search.CrossingsCount | novo_projeto-13-imagem-assets/scripts.js:335-342 | `intersections` is exactly the number of path positions whose cell is already on the grid |
| Search.Step | novo_projeto-13-imagem-assets/scripts.js:329-348 | a proposal replaces the best exactly when it is legal and crosses strictly more; then the best becomes it with its crossings, otherwise nothing changes |
| Search.Scan | novo_projeto-13-imagem-assets/scripts.js:320-349 | nothing exactly when no proposal is legal; otherwise the first legal proposal with the most crossings |
| Search.FindBestPlacement | novo_projeto-13-imagem-assets/scripts.js:308-352 | none exactly when every proposal is illegal; otherwise the first best proposal |
| Search.DuplicatesAreHarmless | novo_projeto-13-imagem-assets/scripts.js:344-347 | repeated proposals (a cell logged twice) do not change the result |
| Search.SearchIsComplete | novo_projeto-13-imagem-assets/scripts.js:308-352 | the search fails exactly when no legal placement crosses the grid; a found placement is legal and crosses at least once |
| Ordering.Insert | novo_projeto-13-imagem-assets/scripts.js:192 | a permutation of the list plus the word, sorted when the list was sorted and the word comes earlier in the input |
| Ordering.SortByLength | novo_projeto-13-imagem-assets/scripts.js:192 | a permutation of the words; longer first, ties in input order |
| Ordering.SortedIsUnique | novo_projeto-13-imagem-assets/scripts.js:192 | only one permutation is sorted that way, so the stable sort's result is determined |
| Layout.Fallback | novo_projeto-13-imagem-assets/scripts.js:386-388 | the fallback start lies below the grid, at its left edge |
| Layout.FallbackIsFresh | novo_projeto-13-imagem-assets/scripts.js:386-388 | every cell of the fallback path is empty |
| Layout.ChoosePlacement | novo_projeto-13-imagem-assets/scripts.js:362-388 | a legal fixed position wins; then the origin of an empty grid; the chosen placement is legal or entirely fresh, and only an illegal choice is the fallback |
| Layout.ChoosePlacementPriority | novo_projeto-13-imagem-assets/scripts.js:373-388 | on a non-empty grid, the word goes to the first best crossing whenever some legal placement crosses, and to the fallback only when none does |
| Layout.StepPreservesWellFormed | novo_projeto-13-imagem-assets/scripts.js:354-389 | one loop iteration keeps the invariant and places exactly its word |
| Layout.Next | novo_projeto-13-imagem-assets/scripts.js:354-389 | the loop body records the word at the placement `ChoosePlacement` picks for it |
| Layout.PlaceAll | novo_projeto-13-imagem-assets/scripts.js:354-389 | the run is the trace that starts from the empty layout and applies the loop body to the words in list order, each on the state the earlier ones left; the end state is well formed and has exactly the listed words placed |
| Layout.TraceIsUnique | novo_projeto-13-imagem-assets/scripts.js:354-389 | the loop is deterministic: two runs over the same list pass through the same states |
| Layout.FirstWordPlacement | novo_projeto-13-imagem-assets/scripts.js:362-378 | the first word goes to its fixed position when it asks for one, otherwise to the origin in its first orientation, and it is then the only word placed |
| Matrix.SquareAt | novo_projeto-13-imagem-assets/scripts.js:404-457 | blank exactly where the grid has no cell; otherwise the cell's letter, its global and display coordinates, and the owners whose words exist |
| Matrix.BuildMatrix | novo_projeto-13-imagem-assets/scripts.js:396-462 | the matrix has `maxRow-minRow+1` rows of `maxCol-minCol+1` squares, each the square of its position |
| Matrix.EveryCellShown | novo_projeto-13-imagem-assets/scripts.js:402-457 | every grid cell inside the bounds appears, at its display position, with its letter and owners |
| Matrix.Positions | novo_projeto-13-imagem-assets/scripts.js:402-403 | the visiting order holds every position once, in reading order |
| Matrix.BackFill | novo_projeto-13-imagem-assets/scripts.js:429-455 | `word.cells[index]` is set exactly for the owners some visited square names, and always to a square naming it |
| Matrix.HomeIsFilled | novo_projeto-13-imagem-assets/scripts.js:413-455 | each letter of a placed word is shown at its home square, which names it and holds that letter |
| Matrix.OwnerSquareIsHome | novo_projeto-13-imagem-assets/scripts.js:429-455 | a square that names an owner is that owner's home square |
| Matrix.WellFormedIsProper | novo_projeto-13-imagem-assets/scripts.js:397-400 | the bounds of a layout hold the origin, so the matrix has at least one row and one column |
| Matrix.BackFillHasNoGaps | novo_projeto-13-imagem-assets/scripts.js:429-455 | every letter of every placed word is back-filled with its home square, which shows that letter |
| Matrix.BackFillComplete | novo_projeto-13-imagem-assets/scripts.js:429-455 | back-filling a layout's matrix fills every letter with its home and names only letters of placed words |
| Numbering.Count | novo_projeto-13-imagem-assets/scripts.js:474-500 | at most the number of squares visited |
| Numbering.CountIsStarts | novo_projeto-13-imagem-assets/scripts.js:474-500 | exactly the number of visited squares that take a number |
| Numbering.Visit | novo_projeto-13-imagem-assets/scripts.js:469-505 | a start square takes the current number and advances the counter; a word it starts that has no number gets that number, numbers already given stay, and no other square changes |
| Numbering.NumberAll | novo_projeto-13-imagem-assets/scripts.js:464-507 | the counter ends one past the number of start squares, and every number handed out is below it |
| Numbering.WordsNumbered | novo_projeto-13-imagem-assets/scripts.js:476-496 | a word gets a number exactly when some visited square starts it |
| Numbering.WordNumberSetOnce | novo_projeto-13-imagem-assets/scripts.js:481-483 | once a word has a number, later squares never change it |
| Numbering.WordNumberIsFirstStart | novo_projeto-13-imagem-assets/scripts.js:476-500 | a word's number is the number of the first square that starts it |
| Numbering.StartNumbers | novo_projeto-13-imagem-assets/scripts.js:498-500 | the `k`-th visited start square gets one more than the count of start squares before it |
| Numbering.NumbersIncrease | novo_projeto-13-imagem-assets/scripts.js:469-507 | of two start squares, the one visited first has the smaller number |
| Numbering.StartsNumberedInReadingOrder | novo_projeto-13-imagem-assets/scripts.js:464-507 | over the whole matrix, start squares are numbered from 1, increasing left to right and top to bottom, below the final counter |
| Play.Input | novo_projeto-13-imagem-assets/scripts.js:915 | with one-character entries, the input is no longer than the word's squares |
| Play.Tally | novo_projeto-13-imagem-assets/scripts.js:914-923 | at most the number of words; all correct exactly when it equals that number; zero exactly when none is correct |
| Play.TallyIsCorrectCount | novo_projeto-13-imagem-assets/scripts.js:914-923 | `correctCount` is exactly the number of words whose status is correct |
| Play.Check | novo_projeto-13-imagem-assets/scripts.js:912-930 | entries are kept and the state is checked; a word is correct exactly when its squares spell its answer, otherwise wrong; the score is the number correct |
| Play.SolvedLetterByLetter | novo_projeto-13-imagem-assets/scripts.js:915-916 | with one-character entries, a word is solved exactly when every square holds its letter |
| Play.WriteWord | novo_projeto-13-imagem-assets/scripts.js:951-955 | the squares written are the word's first `n` squares, each gets one letter (or "" when clearing), and other squares keep their entries |
| Play.WriteAll | novo_projeto-13-imagem-assets/scripts.js:951-955 | writing every word keeps every entry at most one character |
| Play.WriteAllKeys | novo_projeto-13-imagem-assets/scripts.js:951-955 | after writing the first `n` words, a square has an entry exactly when it had one before or one of those words occupies it |
| Play.WriteAllFrame | novo_projeto-13-imagem-assets/scripts.js:951-955 | a square no written word occupies keeps its entry |
| Play.WriteAllSquares | novo_projeto-13-imagem-assets/scripts.js:951-955 | after writing all words, every word's square holds that word's letter (or "" when clearing), given that shared squares agree |
| Play.ShowSolution | novo_projeto-13-imagem-assets/scripts.js:950-978 | every word correct, the score the number of words, the state checked, entries stay one character |
| Play.ShowSolutionThenCheck | novo_projeto-13-imagem-assets/scripts.js:950-978 | checking right after revealing finds every word correct, with the full score |
| Play.Retry | novo_projeto-13-imagem-assets/scripts.js:980-1004 | every word pending, score 0, not checked |
| Play.RetryThenCheck | novo_projeto-13-imagem-assets/scripts.js:980-1004 | after a retry every word's squares are empty, and checking then scores 0 |
| Play.SetCellValue | novo_projeto-13-imagem-assets/scripts.js:871-910 | the square holds the normalised character of the key; other squares keep their entries; words through the square become pending, others keep their status; not checked; score kept |
| Presentation.NextIndex | novo_projeto-13-imagem-assets/scripts.js:811 | the smaller of the last square and the square after the active one |
| Presentation.PreviousIndex | novo_projeto-13-imagem-assets/scripts.js:819 | the larger of the first square and the square before the active one |
| Presentation.CursorStaysInWord | novo_projeto-13-imagem-assets/scripts.js:808-822 | the cursor stays inside the word, moves one square at most, and stops at the ends |
| Presentation.CursorStepsUndo | novo_projeto-13-imagem-assets/scripts.js:808-822 | away from the ends, a step back undoes a step forward and the other way round |
| Presentation.Decimal | novo_projeto-13-imagem-assets/scripts.js:1045-1048 | decimal digits only, one digit exactly below 10, and a leading zero only for 0 |
| Presentation.DecimalRoundTrip | novo_projeto-13-imagem-assets/scripts.js:1045-1048 | reading back a number's decimal text gives the number |
| Presentation.Pad2 | novo_projeto-13-imagem-assets/scripts.js:1045-1048 | the decimal text with zeros added on the left up to width two: digits only, the decimal text at the end, zeros before it |
| Presentation.Pad2Value | novo_projeto-13-imagem-assets/scripts.js:1045-1048 | padding to two digits keeps the value |
| Presentation.Clock | novo_projeto-13-imagem-assets/scripts.js:1044-1050 | `mm:ss`, with the colon third from the end, five characters below 100 minutes |
| Presentation.ClockRoundTrip | novo_projeto-13-imagem-assets/scripts.js:1044-1050 | the clock text determines the elapsed seconds |
| Presentation.IndexFrom | novo_projeto-13-imagem-assets/scripts.js:1019-1021 | the first occurrence of the pattern at or after the start, and no earlier one |
| Presentation.ReplaceFirst | novo_projeto-13-imagem-assets/scripts.js:1018-1022 | a text without the pattern is unchanged; otherwise only the first occurrence is replaced and the rest is kept |
| Presentation.ReplaceAfterPlainText | novo_projeto-13-imagem-assets/scripts.js:1019-1021 | when no `@` comes before the placeholder, exactly that placeholder is replaced and everything else stays |
| Presentation.FormatFills | novo_projeto-13-imagem-assets/scripts.js:1018-1022 | a template with plain text around `@score` then `@total` gets the score and total, in decimal, in their places |
| Presentation.PlainTemplateUnchanged | novo_projeto-13-imagem-assets/scripts.js:1018-1022 | a template without placeholders comes back unchanged |
| Presentation.DefaultMessage | novo_projeto-13-imagem-assets/scripts.js:98-101 | the default template reads "Conseguiu <score> de <total> pontos." |
| Pipeline.SortedIsArrangement | novo_projeto-13-imagem-assets/scripts.js:192 | the sorted list holds every input word once, each under its own id |
| Pipeline.GenerateLayout | novo_projeto-13-imagem-assets/scripts.js:191-391 | the words are placed in longest-first stable order, each by the loop body on the layout the earlier words left; every word is placed, the layout invariant holds, and the bounds can be materialised |
| Pipeline.NoWordsOneBlank | novo_projeto-13-imagem-assets/scripts.js:193-199 | with no words the matrix is a single blank square |
| Pipeline.Slots | novo_projeto-13-imagem-assets/scripts.js:429-455 | each word's squares are its back-filled cells, as many as its letters |
| Pipeline.GeneratedSlotsAgree | novo_projeto-13-imagem-assets/scripts.js:429-455 | in a generated layout, two words that share a square need the same letter there |
| Pipeline.PreparedPuzzleIsSolvable | novo_projeto-13-imagem-assets/scripts.js:391-462 | the prepared puzzle back-fills every word; revealing and then checking scores every word |

## Left out

- Loading and start-up (`init`, `loadData`), the DOM, rendering, clue lists, focus, highlighting, keyboard events and resizing. These are I/O and presentation.
- The `setInterval` timer is left out. The clock is a function of the elapsed seconds, which is a parameter.
- The `getText` fallbacks and the localised strings are left out, apart from the default result template.
- Words.CreateWord: the word keeps the entry's clue; the `getText` placeholder "Palavra n" for a missing or blank clue is not modelled.
- `userChar` (the upper-cased display copy of a key) is left out. Checking uses only `normalizedChar`, which is modelled.
- Unicode upper-casing and NFD decomposition are not built in. They are a parameter (`Text.CharMaps`) of normalisation and of word creation. The normalisation properties hold for any table that leaves `[A-Z0-9-]` alone. A concrete Latin-1 table covers the letters of the on-screen keyboard.
- String word ids (`word-<index>`) are left out. A word is identified by its index, which is the same mapping one to one.
- Text.NormalizeAnswer: `text.toString()` of non-string values is not modelled; the answer is a string or absent.
- Words.ToIndex: `Number(value)` parsing is not modelled; the input is already absent, non-finite or a real number.
- The `Number.isFinite` test on proposed starts (scripts.js:327) is left out. Starts computed from integer cells are always finite.
- `state.wordsMap` lookups: the map always holds every id below the word count, so `Matrix.Known` keeps exactly those owners.
- `charMap` is modelled as the log of its writes. `charMap.get(x)` is the sub-list for letter `x` (`Grid.Occurrences`).
- Pipeline.GenerateLayout: the method returns the placement state. The matrix, the back-fill and the numbering are the functions `Matrix.MatrixOf`, `Matrix.BackFill` and `Numbering.NumberAll` applied to it, rather than being computed inside the method.
- `assignNumbers` writes numbers onto the word objects; the model keeps them in a map (`Numbers.words`). A word is offered the current number only while it has none (scripts.js:481-483). A square holding the first letter of a word, but taking no number of its own because a neighbour continues the word, copies that word's number (scripts.js:501-504). That number may still be unset; the model then leaves the square without a number (`CopyNumber`).
