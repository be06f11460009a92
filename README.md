# Telugu Wordle game logic in Dafny

This project models the game logic of the `TeluguWordle` React component,
found in `src/TeluguWordle.tsx`. It is a Wordle for Telugu. A guess is a row
of graphemes: a vowel, a consonant, or a consonant joined with a vowel sign.
The player types graphemes into a board of six rows. A complete row whose
word is in the dictionary is scored against the target word, in two passes:

- an exact-match pass marks the cells that agree with the target `correct`;
- a partial-match pass marks each other cell `present` when an unmatched
  target position holds its grapheme, consuming the leftmost such position,
  and `absent` when none does.

The keyboard map `usedLetters` records the best state each grapheme has
received. The game is won when the row spells the target word. It is lost
when a wrong guess was on the last row. Otherwise play moves to the next row.

The model has three modules:

- `Evaluation` (`evaluation.dfy`) holds the cell states and the scoring.
  - `Consumed` is `matchedPositions` as the partial-match pass reaches a cell.
  - `Mark` is the state the two passes give one cell: correct on an exact
    match, otherwise present when the inner scan finds a free position, and
    absent when it finds none.
  - `Evaluate` gives the states of a whole row.
  - `CreditBound` is the duplicate-letter guarantee: no grapheme is credited
    more often than it occurs in the target.
- `Keyboard` (`keyboard.dfy`) holds the `usedLetters` merge.
  - `Merge` and `MergeRow` describe it without regard to order.
  - `ExactUsed` and `PartialUsed` are the same updates in the order the two
    loops make them.
  - Lemmas connect the two descriptions and prove the priority
    correct > present > absent.
- `Wordle` (`wordle.dfy`) holds the component state as the class `Game`.
  - `TeluguWords` is `teluguWordDictionary` (src/TeluguWordle.tsx:21-42):
    the twenty words, in the source's order.
  - `Concat` is the `.join('')` that turns a row of graphemes into a word
    (src/TeluguWordle.tsx:170).
  - `Outcome` is the choice at the end of `checkGuess`
    (src/TeluguWordle.tsx:229-239): won, lost on the last row, or the next
    row at position 0.
  - The board is an `array2<Cell>` of six rows, mutated in place as the
    source does.
  - The event handlers are methods, and the loops of `checkGuess` are
    methods with loop invariants.
  - `Valid()` is the game invariant. Every handler preserves it. Besides
    board consistency it says every `usedLetters` entry is a scored state.
  - `Consistent` states the invariant on values:
    - earlier rows were accepted and scored;
    - later rows are blank;
    - the current row is being typed, or it was accepted once the game is
      over.

Parameters stand in for what the component gets from outside:

- The target word is chosen by an index `choice` into the dictionary. The
  source calls `Math.random`.
- The segmentation of that word into graphemes is a parameter `graphemes`,
  required to concatenate back to the word. The source calls
  `Intl.Segmenter` through `splitToGraphemes`.

## Model

| member | source | states |
|---|---|---|
| `Evaluation.LeftmostFree` | src/TeluguWordle.tsx:204-215 | the inner scan finds a position that is unmatched and holds the grapheme, every earlier position is matched or holds another grapheme, and no position qualifies when it finds none |
| `Evaluation.Evaluate` | src/TeluguWordle.tsx:186-224 | every cell of a scored row is correct, present or absent, and a cell is correct exactly when its grapheme equals the target's at that position |
| `Evaluation.PartialMatchStep` | src/TeluguWordle.tsx:198-224 | a cell is absent only when no unmatched target position holds its grapheme; a present cell consumes the leftmost such position; a correct or absent cell consumes nothing |
| `Evaluation.ConsumedBounds` | src/TeluguWordle.tsx:184-211 | matchedPositions only holds target positions and keeps the exact matches throughout the second pass |
| `Evaluation.ConsumedCount` | src/TeluguWordle.tsx:184-211 | each target position enters matchedPositions once: its size is the number of exact matches plus the number of present cells so far |
| `Evaluation.CorrectCredit` | src/TeluguWordle.tsx:186-195 | the correct cells holding a grapheme account for exactly the copies of it that the exact-match pass consumes |
| `Evaluation.PresentCredit` | src/TeluguWordle.tsx:198-222 | each present cell holding a grapheme removes one unconsumed copy of it from the target |
| `Evaluation.CreditBound` | src/TeluguWordle.tsx:184-224 | for every grapheme, the correct cells plus the present cells holding it are at most its occurrences in the target |
| `Evaluation.EvaluateTarget` | src/TeluguWordle.tsx:186-195 | guessing the target's own graphemes marks every cell correct |
| `Evaluation.RepeatedGuessExample` | src/TeluguWordle.tsx:186-224 | a grapheme guessed three times that occurs once in the target is credited once, where it matches, and the other two cells are absent |
| `Evaluation.SwappedGuessExample` | src/TeluguWordle.tsx:198-224 | two target graphemes guessed in swapped positions are both present |
| `Keyboard.MergeStart` | src/TeluguWordle.tsx:181 | before either pass the map is the old usedLetters |
| `Keyboard.MergeExactStep` | src/TeluguWordle.tsx:190-193 | an exact match writes correct for its grapheme and any other cell leaves the map alone |
| `Keyboard.MergePartialOther` | src/TeluguWordle.tsx:198-222 | a step of the partial-match pass leaves the entries of other graphemes alone |
| `Keyboard.MergePartialStep` | src/TeluguWordle.tsx:199-222 | a present cell writes present unless its grapheme is correct, an absent cell writes absent only for a grapheme without an entry, and a correct cell is skipped |
| `Keyboard.ExactUsedMerge` | src/TeluguWordle.tsx:187-195 | the exact-match loop's updates give the order-free description of the map |
| `Keyboard.PartialUsedMerge` | src/TeluguWordle.tsx:198-224 | the partial-match loop's updates, after the exact pass, give the order-free description |
| `Keyboard.PassesMergeRow` | src/TeluguWordle.tsx:181-224 | both loops together produce MergeRow |
| `Keyboard.MergeRowFrame` | src/TeluguWordle.tsx:181-222 | the map keeps its graphemes and gains exactly the row's, and a grapheme the row does not hold keeps its entry |
| `Keyboard.MergeRowNeverDowngrades` | src/TeluguWordle.tsx:192-222 | no entry loses rank in correct > present > absent, and a correct entry stays correct |
| `Keyboard.MergeRowScored` | src/TeluguWordle.tsx:192-222 | merging a scored row into a map of scored states leaves only scored states, so the game invariant's clause on usedLetters is kept |
| `Keyboard.MergeRowPriority` | src/TeluguWordle.tsx:192-222 | a correct cell makes its grapheme correct; a present cell makes it present or correct; an entry is absent only if it was absent before, or if it is new and no cell holding it is correct or present |
| `Wordle.BlankGrid` | src/TeluguWordle.tsx:103-105 | the new board has six rows of the target's length, every cell empty |
| `Wordle.NewGameConsistent` | src/TeluguWordle.tsx:94-115 | a new game, on a blank board at attempt 0 and position 0, is consistent |
| `Wordle.TypeConsistent` | src/TeluguWordle.tsx:118-133 | filling the next cell of the current row keeps the game consistent |
| `Wordle.EraseConsistent` | src/TeluguWordle.tsx:150-161 | clearing the last typed cell keeps the game consistent |
| `Wordle.FullRowCorrect` | src/TeluguWordle.tsx:199 | in a consistent state with a full row, a cell is correct only where it agrees with the target, so the second pass's skip is sound |
| `Wordle.SubmitConsistent` | src/TeluguWordle.tsx:226-239 | scoring an accepted row and taking the outcome checkGuess chooses (won, lost, or next row at position 0) keeps the game consistent |
| `Wordle.SegmentationQuirk` | src/TeluguWordle.tsx:170-230 | in a game whose target is segmented అ + మ్మ, a full row holding అమ + ్మ spells the target word, so it passes the dictionary test and its outcome is won, while its first cell is scored absent |
| `Wordle.ExactPass` | src/TeluguWordle.tsx:186-195 | the first loop marks correct exactly the cells equal to the target, records exactly those positions, updates usedLetters as ExactUsed, and changes no other cell |
| `Wordle.ExactCell` | src/TeluguWordle.tsx:188-194 | one iteration of the first loop changes only cell i, and only on an exact match |
| `Wordle.FindFree` | src/TeluguWordle.tsx:205-215 | the inner loop with its break returns the leftmost unmatched position holding the grapheme |
| `Wordle.PartialPass` | src/TeluguWordle.tsx:197-224 | the second loop gives every cell of the row its Evaluate state, updates usedLetters as PartialUsed, and changes no other row |
| `Wordle.ScoreCell` | src/TeluguWordle.tsx:201-223 | one iteration for a cell that is not correct gives its Evaluate state and advances matchedPositions to Consumed |
| `Wordle.ScoreRow` | src/TeluguWordle.tsx:179-227 | the two loops turn the current row into the guess scored by Evaluate, leave the other rows, and merge the row into usedLetters as MergeRow |
| `Wordle.Game.constructor` | src/TeluguWordle.tsx:74-92 | the mounted component has a blank board for the chosen dictionary word, at attempt 0 and position 0, playing, with no message, an empty map and the selection closed |
| `Wordle.Game.NewGame` | src/TeluguWordle.tsx:94-115 | startNewGame sets the target, a blank board, attempt 0, position 0, playing, no message and an empty map, and leaves the consonant selection alone |
| `Wordle.Game.KeyInput` | src/TeluguWordle.tsx:118-133 | while playing with room in the row, only the cursor cell becomes the grapheme, filled, and the cursor moves on; otherwise nothing changes |
| `Wordle.Game.GraphemeSelect` | src/TeluguWordle.tsx:136-139 | choosing a consonant stores it and opens the vowel-sign choice |
| `Wordle.Game.VowelSignSelect` | src/TeluguWordle.tsx:142-147 | the consonant joined with the vowel sign is typed as one grapheme, and the choice closes even when the keystroke is ignored |
| `Wordle.Game.BareConsonantSelect` | src/TeluguWordle.tsx:303 | the bare consonant is typed and the choice stays open |
| `Wordle.Game.CancelSelection` | src/TeluguWordle.tsx:315 | the cancel button closes the choice and changes nothing else |
| `Wordle.Game.Backspace` | src/TeluguWordle.tsx:150-161 | while playing with a non-empty row, only the last typed cell is cleared and the cursor moves back; otherwise nothing changes |
| `Wordle.Game.CheckGuess` | src/TeluguWordle.tsx:164-240 | an incomplete row or a word not in the dictionary only sets the message; an accepted row is scored by Evaluate, merged into usedLetters, and leads to won, lost or the next row; guessing the target's graphemes wins |
| `Wordle.Game.Submit` | src/TeluguWordle.tsx:179-239 | an accepted row's scoring, usedLetters merge and three-way outcome |
| `Wordle.Game.Conclude` | src/TeluguWordle.tsx:229-239 | the win test on the concatenated word, then lost on the last row, otherwise the next row at position 0; it requires the scored grid to be consistent with that outcome (which `SubmitConsistent` proves) and establishes `Valid()` from it |

## Left out

- `splitToGraphemes` (Intl.Segmenter, with a fallback to Array.from) is
  foreign runtime behaviour. The graphemes of the target are a parameter of
  `NewGame`, required to concatenate to the target word.
- `getRandomWord` uses `Math.random`. The choice is the parameter `choice`,
  an index into the dictionary.
- React state plumbing is not modelled: `useState`, the `useEffect` hook
  as a mechanism, and the copy of the board before mutation. The effect the
  mount hook has, starting a new game, is part of the constructor. Each
  handler updates the fields in place. The shallow copy in the source aliases the rows, so this is the
  same update.
- `console.log`, JSX rendering, CSS classes and `showKeyboard` (never
  changed) are display only.
- The message strings are abstract `Message` kinds. The reveal message
  carries the target word.
- The keys the interface offers are not modelled. `KeyInput` takes any
  `grapheme: string`, while the buttons offer only the vowels, the
  consonants and the consonant-plus-sign combinations. So a row such as
  అమ + ్మ in `SegmentationQuirk` cannot be typed with the shipped keys.
- `src/index.tsx` is not part of this model: it only mounts the component.
- `Wordle.Game.CheckGuess`: has no requirement on the game status, because
  the source has none. The interface only offers submission while playing.
  A resubmission after the game is over keeps the game consistent and the
  status unchanged.
