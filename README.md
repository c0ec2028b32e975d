# 99multi drill core in Dafny

This project models the logic of `app.js`, a browser drill for the 81
single-digit multiplication facts 1×1 … 9×9. It covers:

- the difficulty heuristic: `difficultyScore` and the hand-picked `HARD_TOP` set;
- the deck builder `buildDeck81`: enumerate, sort hardest first, then a greedy
  pass that avoids putting a fact right after its mirror (`isSymmetric`), and
  failing that, right after a fact sharing a factor (`isSameFactor`);
- the question state machine over the module-level `deck`, `completed`,
  `progress`, `userInput` and `active`: `newQuestion`, `onKey`, `evaluate`,
  `setProgress`, the clear key and start-up.

Modules, one per concern:

- `Common` (common.dfy): `Option`, distinctness, and `RemoveAt` (what `splice(k, 1)` leaves).
- `Facts` (facts.dfy): operands 1..9, the `Fact` record, `HARD_TOP`, the score and `idxOf`.
  Scores are exact integers in tenths: ten times each bonus, plus `a*b` for the
  `a*b*0.10` term.
- `DeckBuilder` (deck.dfy):
  - the sort, as a stable insertion sort;
  - the greedy pass, as a specification function `Resequence`, with the
    source's loops as the methods `Scan`, `Enumerate`, `Resequenced` and
    `BuildDeck81`, each proved against those functions;
  - `IsSymmetric` and `IsSameFactor` (app.js:105-110) are the predicates the two
    scans test, through `Acceptable`.
- `Quiz` (session.dfy):
  - the keypad input, `parseInt`, the completion grid and the `Board` value
    (deck, grid, progress) with the session invariant;
  - `class Session`, whose methods change the five fields in place.

The session invariant:

- the deck holds, once each, exactly the facts whose grid cell is false;
- `progress` is the number of true cells;
- deck length plus progress is 81.

Start-up and the clear key establish it. `evaluate` keeps it whenever the
active question is the head of the deck (or the deck is empty). Nothing in the
code enforces that condition: the keypad lock only toggles a CSS class. Two
lemmas show what a correct answer does when the active question is not the head:

- `StaleCorrectBreaksInvariant`: the question was already retired (a keystroke
  during the 200 ms delay after a correct answer). The head fact leaves the deck
  without its grid cell being set.
- `RotatedCorrectBreaksInvariant`: the question was just rotated to the tail (a
  keystroke during the 1000 ms delay after a wrong answer). Its cell is set while
  it is still in the deck, and a different fact, the head, is removed.

## Model

| member | source | states |
|---|---|---|
| Facts.FactKey | app.js:83 | the key has three characters: the digit of a, 'x', the digit of b |
| Facts.HardTopMembership | app.js:44-57 | a key is in HARD_TOP exactly when (a, b) is one of the 19 listed hard pairs |
| Facts.HardTopSymmetric | app.js:44-57 | HARD_TOP contains the key of a×b exactly when it contains the key of b×a |
| Facts.ScoreTenths | app.js:59-86 | the score in tenths differs from a*b by a multiple of ten: every bonus is a whole number and the only fractional term is a*b/10 |
| Facts.ScoreSymmetric | app.js:59-86 | the score of a×b equals the score of b×a, for all operands |
| Facts.ScoreMaximum | app.js:59-86 | every score is at most 99.6, and reaches it exactly for 7×8 and 8×7 |
| Facts.MakeFact | app.js:92 | the record built for a×b has those operands and answer a*b |
| Facts.IdxOf | app.js:182 | idxOf(a, b) is below 81, with a-1 as remainder and b-1 as quotient by 9 |
| Facts.AllFacts | app.js:89-94 | the enumeration has 81 entries, entry i being the fact with a = i%9+1, b = i/9+1 |
| Facts.AllFactsAt | app.js:89-94 | the enumeration puts a×b at idxOf(a, b) and at no other index |
| Facts.AllFactsComplete | app.js:89-94 | the enumeration has no repeats and contains exactly the record built for each operand pair |
| Common.RemoveAt | app.js:136 | splice(k, 1) leaves one element fewer, the prefix before k unchanged, the rest shifted by one, and the multiset less exactly the removed element |
| DeckBuilder.Insert | app.js:96 | one insertion step of the sort adds one element; InsertPermutation, InsertSorted and InsertStable say which and where |
| DeckBuilder.InsertPermutation | app.js:96 | an insertion step adds exactly the one fact inserted |
| DeckBuilder.InsertSorted | app.js:96 | inserting into a hardest-first list keeps it hardest first |
| DeckBuilder.InsertStable | app.js:96 | the inserted fact goes in front of the facts of equal score already placed, which all come later in the enumeration |
| DeckBuilder.SortByScore | app.js:96 | `items.sort` keeps the length; that the result is hardest first, a permutation and stable is stated by SortSorted, SortPermutation and SortStable |
| DeckBuilder.SortSorted | app.js:96 | after the sort scores never increase along the list |
| DeckBuilder.SortPermutation | app.js:96 | the sort keeps every fact as often as it occurs and the length |
| DeckBuilder.SortStable | app.js:96 | for each score, the facts with that score appear in the same order as before the sort |
| DeckBuilder.MirrorIsMutual | app.js:105-107 | `isSymmetric` (IsSymmetric) is mutual, and a fact is its own mirror exactly when a = b |
| DeckBuilder.SameFactorIsMutual | app.js:108-110 | `isSameFactor` (IsSameFactor) is mutual and holds of a fact with itself; two facts both mirrors and sharing a factor are both on the diagonal |
| DeckBuilder.FirstAcceptable | app.js:115-130 | the index found is the first the scan accepts: everything before it is skipped, and None means every fact is skipped |
| DeckBuilder.Scan | app.js:113-131 | the for loop returns -1 exactly when every remaining fact is skipped, and otherwise the first accepted index |
| DeckBuilder.PickIndex | app.js:113-134 | one greedy step picks an index within remaining; which index is stated by PickIndexChoice |
| DeckBuilder.PickIndexChoice | app.js:113-134 | the pick is the first non-mirror of prev if one exists; else the first fact sharing no factor with prev if one exists; else the head |
| DeckBuilder.PickIndexAtMostOne | app.js:112-134 | with no two remaining facts on the same cell, the pick is index 0 or 1; with two or more facts left it is never the mirror of prev |
| DeckBuilder.ResequencePermutation | app.js:101-139 | the greedy pass places every fact of remaining exactly once |
| DeckBuilder.Resequence | app.js:112-139 | the greedy pass places as many facts as it is given; that it places each once, and its mirror adjacency, is stated by ResequencePermutation and ResequenceNoMirrorAdjacent |
| DeckBuilder.ResequenceHead | app.js:112-121 | with no previous pick, the greedy pass starts with the head of its input |
| DeckBuilder.ResequenceNoMirrorAdjacent | app.js:98-139 | in the greedy output a fact is followed by its mirror only at the last two positions |
| DeckBuilder.Enumerate | app.js:89-94 | the nested loops push exactly the 81 facts in b-outer, a-inner order |
| DeckBuilder.Resequenced | app.js:101-141 | the while loop with splice and push returns the greedy sequence of its input |
| DeckBuilder.BuildDeck81 | app.js:88-142 | buildDeck81 returns 81 facts: a permutation of the grid, no repeats, each with ans = a*b, no mirror adjacency before the last pair |
| DeckBuilder.FreshDeckFacts | app.js:88-142 | the deck a fresh start gets holds each of the 81 facts once, with mirrors adjacent only at the end |
| DeckBuilder.FreshDeck | app.js:88-142 | the deck buildDeck81 returns has 81 facts; its contents are stated by FreshDeckFacts and FreshDeckHead |
| DeckBuilder.SortedHead | app.js:96 | any hardest-first ordering of the 81 facts starts with 7×8 or 8×7 |
| DeckBuilder.FreshDeckHead | app.js:88-142 | the first fact of the fresh deck is a hardest one, 7×8 or 8×7 |
| Quiz.InputAfter | app.js:428-434 | backspace drops the last character and does nothing on empty input; a digit is appended only below two characters; the input stays within two digits |
| Quiz.BackspaceUndoesDigit | app.js:428-434 | typing a digit and then backspace gives back the input from before |
| Quiz.ParseInt | app.js:439-440 | parseInt is NaN exactly when the input does not start with a digit; on a string of digits it is their value |
| Quiz.ParseDecimal | app.js:439 | parseInt reads the decimal numeral of n back as n |
| Quiz.AnswerLength | app.js:462 | ansLen is the number of digits of the answer, for answers 1..99 |
| Quiz.Judge | app.js:439-463 | evaluate's decision: correct exactly when parseInt gives the answer; wrong only on a parsed value with at least ansLen characters; pending when parseInt is NaN |
| Quiz.JudgeDigits | app.js:439-463 | on digit input evaluate finds the answer correct exactly on the right value, and wrong exactly on a wrong value of at least ansLen characters |
| Quiz.TypingTheAnswer | app.js:433-463 | typing the answer's digits one by one fits in two characters, is pending on every proper prefix and correct at the end |
| Quiz.EmptyGrid | app.js:266 | the fresh grid is 10×10 and all false |
| Quiz.MarkDone | app.js:449 | `completed[b][a] = true` keeps the 10×10 shape, sets that cell and leaves every other cell as it was |
| Quiz.MarkDoneCount | app.js:449 | setting completed[b][a] raises the number of true cells by one if it was false, and changes nothing if it was true |
| Quiz.ClampProgress | app.js:285-286 | setProgress stores p clamped to 0..81: p itself inside the range, 0 below, 81 above |
| Quiz.Shift | app.js:452 | `deck.shift()` under its guard: an empty deck stays empty, otherwise the head is cut off the front |
| Quiz.RotateHead | app.js:474 | `deck.push(deck.shift())` under its guard keeps the same facts and the length, moving the head to the back |
| Quiz.ActiveFor | app.js:319 | `setActive(a, b)` makes the active question a×b with answer a*b and cell index idxOf(a, b), below 81 |
| Quiz.Resolve | app.js:442-476 | evaluate's board change: the grid keeps its shape and facts are only removed; pending changes nothing; wrong keeps grid, progress and the facts; correct sets the answered cell and clamps progress + 1 |
| Quiz.InvariantCompletion | app.js:395 | under the invariant, progress is in 0..81, and progress >= 81 holds exactly when the deck is empty, so newQuestion's two exit tests agree |
| Quiz.FullDeckInvariant | app.js:480-482 | a deck holding each of the 81 facts once, an all-false grid and progress 0 satisfy the invariant |
| Quiz.FreshBoardInvariant | app.js:480-482 | buildDeck81's deck, an all-false grid and progress 0 satisfy the invariant |
| Quiz.NewBoard | app.js:364-365 | the clear key's new deck and grid are buildDeck81's deck and an all-false grid, 81 facts long |
| Quiz.RetireKeepsInvariant | app.js:442-453 | a correct answer for the head sets its previously false cell, removes exactly the head, raises progress by one and keeps the invariant |
| Quiz.RotateKeepsInvariant | app.js:462-476 | a full-length wrong answer moves the head to the tail: same facts, same length, grid and progress unchanged, invariant kept |
| Quiz.FinishedIsStable | app.js:442-476 | with the deck empty, no outcome of evaluate changes deck, grid or progress |
| Quiz.StaleCorrectBreaksInvariant | app.js:442-453 | a correct answer to an already retired question, with facts left, breaks the invariant |
| Quiz.RotatedCorrectBreaksInvariant | app.js:442-453 | a correct answer to a question that is in the deck but not at its head breaks the invariant |
| Quiz.ResolveKeepsInvariant | app.js:438-477 | evaluate keeps the invariant while the active question is the head (or the deck is empty), never lowers progress and never adds facts |
| Quiz.Session.constructor | app.js:479-485 | start-up leaves buildDeck81's deck, an all-false grid, progress 0, empty input and the deck's head as active question, with the invariant established; that head is 7×8 or 8×7 |
| Quiz.Session.SetProgress | app.js:285-286 | progress becomes the clamp of p to 0..81; nothing else changes |
| Quiz.Session.NewQuestion | app.js:393-424 | when progress is at least 81 or the deck is empty, active and input stay as they were; otherwise the head becomes the active question and the input is cleared |
| Quiz.Session.ClearBoard | app.js:364-367 | deck, grid and progress become buildDeck81's deck, an all-false grid and 0 |
| Quiz.Session.Reset | app.js:363-368 | the clear key restores a fresh deck, an all-false grid and progress 0, then asks the head (7×8 or 8×7), with the invariant re-established |
| Quiz.Session.RetireHead | app.js:449-453 | evaluate's correct branch changes the board as Resolve does for a correct answer, keeping the invariant while the question is the head |
| Quiz.Session.RotateToTail | app.js:474 | evaluate's wrong branch changes the board as Resolve does for a wrong answer, keeping the invariant |
| Quiz.Session.Evaluate | app.js:438-477 | the outcome is the judgement of the input; deck, grid and progress change as that outcome says (retire, rotate or nothing); the invariant is kept while the active question is the head |
| Quiz.Session.OnKey | app.js:428-436 | the input changes as InputAfter says; only an appended digit triggers evaluate, whose outcome and board change follow |

## Left out

- Presentation: the DOM is not modelled. That covers the grid cells, headers, guides, flashes, `mark`, the keypad's CSS lock, the cell reset loop of the clear key (app.js:366) and `setHeaders` at start-up.
- Timing: not modelled. That covers `startTimer`/`stopTimer`, `requestAnimationFrame`, `qStart`, the countdown display, and the 200 ms and 1000 ms delays before `newQuestion`. Those delays are where a later keystroke can meet a retired question (`StaleCorrectBreaksInvariant`) or a question just rotated to the tail (`RotatedCorrectBreaksInvariant`).
- `onTimeout`: it is called by the timer but defined nowhere in the file, so there is no timeout transition to model.
- `randInt`: it is unused by the core.
- Quiz.Session.Evaluate: invariant preservation is stated only for a call while the active question is the head of the deck, or the deck is empty. The code has no guard for other calls; the lock is a CSS class only.
- Quiz.ParseInt: models decimal `parseInt` only on what the keypad can produce, a string of up to two digits. It takes the leading digit run, with no whitespace, sign or radix handling.
- Facts.ScoreTenths: uses exact tenths instead of floating point. `a*b*0.10` and the comparator `y.score - x.score` are floats in the source. Ties between exact scores could, in principle, compare differently after float rounding.
- DeckBuilder.SortSorted: `items.sort` is modelled as a stable insertion sort. That is the stable order ECMAScript has required of `Array.prototype.sort` since its 2019 edition; the engine's own sorting algorithm is not modelled.
- The 10×10 `completed` array is a sequence of sequences that is reassigned, not a mutable array updated in place; nothing else aliases it.
- Start-up builds the deck twice: at its declaration (app.js:265) and again in the init block (app.js:480). The constructor models one build, since both give the same deck.
- Quiz.Session.ClearBoard: calls `setProgress(0)` before the deck and grid are rebuilt, not after. Nothing reads them in between, so the state afterwards is the same.
