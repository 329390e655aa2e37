# Hamming Wordle: a Dafny model of the guess state machine

The Home page of hamming-wordle is a five-letter word game. The feedback for a guess
is its Hamming distance to the secret word: the number of positions at which the two
words differ. This project models the logic in `pages/index.tsx`:

- `getHammingDistance`: a pure function (`Hamming.HammingDistance`) plus the source's
  counting loop (`Hamming.GetHammingDistance`), proved equal to it.
- The word list of `getStaticProps`: the fetched text split on newlines, with only
  entries of length five kept (`WordList`).
- The page's state machine: the six `useState` variables and the two handlers,
  `handleSubmit` and `onKeyPress`.
  - `Home.Session` holds the six variables as one value. `Home.Submitted` and
    `Home.Pressed` are the pure transitions.
  - `Home.Inv` is the invariant that every reachable state keeps.
  - Class `Home.Game` holds those variables as fields. `Submit` and `HandleKey`
    follow the handlers statement by statement, and each is proved to perform its
    pure transition and keep the invariant.
  - React setters replace a whole array, so each field is a `seq` that the methods
    reassign.
- The five-slot typing buffer (`GuessBuffer`): the cursor is the first blank. The
  letter and Backspace edits are stated as point updates and related to the
  "typed letters" prefix. Separate lemmas show that the source's own
  `slice`/`repeat` expressions compute the same strings.
- The JavaScript built-ins the code relies on (`JsBuiltins`): `indexOf`, `slice(0, n)`
  with a negative end, `" ".repeat(n)` and `toLowerCase` on one character.
- Concrete runs for the secret "apple" (`Scenarios`).

Where this model follows the code rather than the usual description of the game:

- A win is not terminal. After a distance of 0, the winning word stays in the buffer:
  - the history does not grow;
  - a second Enter scores it again and writes a second 0 into the next slot
    (`Home.WinIsNotTerminal`, `Scenarios.WinningGuessAgain`).
- The submission guard is `guessState.length === 6`. So six non-winning guesses are
  appended, not five, and only a seventh is ignored (`Scenarios.SixthAndSeventhGuess`).
  The render hides the current row at six guesses, so this matches the code's own
  layout.
- After six guesses, typing and Backspace still change the buffer, and nothing else
  changes (`Home.ExhaustedFreezes`). After a win there is no such freeze: Enter scores
  the word again and records another 0, and editing the buffer lets a new guess be
  scored and appended.
- The distance slots are not always aligned with the history. A win fills a slot
  but appends nothing, and since a win is not terminal a later guess can still be
  appended. Its distance then goes one slot further right. The render colours
  history row `i` by slot `i`, so the row appended right after the win shows the
  win's 0, and each later row shows the distance of the guess before it. Every
  further win shifts the rows by one more slot (`Home.PressAligned`,
  `Scenarios.WinThenGuessMisaligns`). After one win, five appended guesses set all
  six slots, and a sixth guess is appended with its distance recorded nowhere
  (`Home.SixthGuessAfterWinUnscored`). Without a win, every key press keeps the
  slots aligned.
- `nextGuessDistances[index] = distance` with `index == -1` sets a property of the
  array object, not an element. The distance slots therefore stay as they were when all
  six are set (`Home.FillAtFirstUnset`).
- The buffer is not limited to letters. Any one-character key is written into it
  after `toLowerCase`: a digit, "!" or "é" as well as a letter
  (`GuessBuffer.AfterLetter`, `Home.Pressed`). Such a guess is only rejected on
  Enter, when it is not in the word list.
- The space key has length one. It goes down the letter path, writes a blank into the
  first blank, and so leaves the buffer as it was.
- Backspace on a partly typed buffer falls through to the letter check. There, the key's
  length of nine ends the handler, so the buffer is written once.

## Model

| member | source | states |
|---|---|---|
| JsBuiltins.IndexOf | pages/index.tsx:87 | The result is -1 exactly when the element is absent. Otherwise it is a position holding the element, with no earlier occurrence. |
| JsBuiltins.Blanks | pages/index.tsx:97 | `" ".repeat(n)` has length n and holds only blanks. |
| JsBuiltins.ToLower | pages/index.tsx:108 | An upper-case ASCII letter maps to its lower-case letter, and every other character is unchanged. The result is never an upper-case letter. The blank maps to itself and only the blank does. |
| JsBuiltins.SliceTo | pages/index.tsx:81 | `slice(0, end)` gives a prefix whose length is end clamped to the array, with a negative end counted from the back. |
| JsBuiltins.DropLast | pages/index.tsx:81 | The result is a prefix one element shorter, or empty when the input is empty. |
| JsBuiltins.SliceToDropsLast | pages/index.tsx:81 | `slice(0, length - 1)` removes the last element, and nothing from an empty array. |
| Hamming.Mismatches | pages/index.tsx:28-34 | The loop's running count never exceeds the length of the strings. |
| Hamming.MismatchesCountsIndices | pages/index.tsx:28-34 | The front-to-back count equals the number of positions where the strings differ. |
| Hamming.HammingDistance | pages/index.tsx:24-35 | 0 for strings of different lengths. Otherwise the number of differing positions, at most the length. |
| Hamming.GetHammingDistance | pages/index.tsx:24-35 | The source's loop returns exactly HammingDistance. |
| Hamming.ZeroIffEqual | pages/index.tsx:64-65 | For equal lengths, the distance is 0 exactly when the strings are equal. So the win test `distance === 0` means the guess is the word. |
| Hamming.Symmetric | pages/index.tsx:24-35 | The distance does not depend on argument order. |
| Hamming.Triangle | pages/index.tsx:24-35 | On one length, the distance obeys the triangle inequality. |
| WordList.Split | pages/index.tsx:12 | `split("\n")` yields at least one piece, and no piece contains the separator. |
| WordList.Join | pages/index.tsx:12 | `join`, the inverse used in the round trips below: the first piece is a prefix of the result, the separator follows it when more pieces come, and the result is at least as long as the number of pieces minus one. |
| WordList.JoinSeparators | pages/index.tsx:12 | A join of n pieces holds the separator at least n - 1 times. |
| WordList.JoinSplit | pages/index.tsx:12 | Joining the pieces with the separator gives the text back. |
| WordList.SplitJoin | pages/index.tsx:12 | Splitting a join of separator-free pieces gives those pieces back. |
| WordList.KeepFiveLetter | pages/index.tsx:12 | The filter keeps a word exactly when it is in the input and has length 5. |
| WordList.KeepFiveLetterKeepsOrder | pages/index.tsx:12 | The kept words are a subsequence of the input. |
| WordList.KeepFiveLetterCounts | pages/index.tsx:12 | Every occurrence of a five-letter word is kept, and nothing else. |
| WordList.WordListOf | pages/index.tsx:12 | Every listed word has length 5 and no newline. |
| WordList.WordListOfLines | pages/index.tsx:12 | The word list is exactly the five-character lines of the text, in their order, each as often as it occurs in the text. |
| GuessBuffer.Typed | pages/index.tsx:87 | The letters before the first blank are a blank-free prefix, and a blank follows them when the buffer is not full. |
| GuessBuffer.PadTyped | pages/index.tsx:87 | A left-packed buffer is its typed letters followed by blanks. |
| GuessBuffer.TypedPad | pages/index.tsx:87 | Blank-free letters padded with blanks form a left-packed buffer whose typed letters are exactly those letters. |
| GuessBuffer.AfterLetter | pages/index.tsx:100-110 | A full buffer is unchanged. Otherwise the lowercased key goes into the first blank and no other slot changes. |
| GuessBuffer.LetterAppends | pages/index.tsx:106-110 | Left-packing is kept. The typed letters gain the lowercased key unless the buffer is full or the key is a blank. |
| GuessBuffer.AfterBackspace | pages/index.tsx:89-98 | An empty buffer is unchanged. A full buffer loses its last slot. Otherwise the slot before the first blank is cleared. |
| GuessBuffer.BackspaceDropsLast | pages/index.tsx:89-98 | A five-slot left-packed buffer stays one, and its typed letters lose the last letter, if any. |
| GuessBuffer.InsertExpression | pages/index.tsx:106-110 | `slice(0, p) + key.toLowerCase() + " ".repeat(4 - p)` equals AfterLetter. |
| GuessBuffer.BackspaceExpression | pages/index.tsx:91-98 | `slice(0, 4) + " "` and `slice(0, p - 1) + " ".repeat(6 - p)` equal AfterBackspace. |
| Home.SetCount | pages/index.tsx:67 | The count n is at most the number of slots. The first n slots are set, and slot n, if there is one, is -1. |
| Home.Fill | pages/index.tsx:67-69 | Recording a distance keeps the number of slots. Where it writes is stated by FillAtFirstUnset. |
| Home.FillAtFirstUnset | pages/index.tsx:67-69 | Recording a distance writes the slot `indexOf(-1)` names, and nothing when it is -1. |
| Home.FillKeepsSetSlotsFirst | pages/index.tsx:77-80 | Set slots stay first. One more slot is set unless all are. No set slot is overwritten. |
| Home.Initial | pages/index.tsx:41-54 | Nothing is typed, no distance slot is set, the history is empty and there are five pending rows. |
| Home.InitialInv | pages/index.tsx:41-54 | The initial values satisfy the invariant. |
| Home.Submitted | pages/index.tsx:57-83 | `handleSubmit` only extends the history, by at most one guess, and keeps the number of distance slots. |
| Home.SubmitKeepsInv | pages/index.tsx:57-83 | `handleSubmit` keeps the invariant: at most six listed full guesses; six slots, set ones first; no more guesses than set slots; one pending row fewer per guess. |
| Home.RecordKeepsInv | pages/index.tsx:67-70 | Recording a distance of at most 5 keeps the slot invariant, and the set count goes up by one, capped at six. |
| Home.AppendKeepsInv | pages/index.tsx:73-82 | Appending a listed full guess, dropping a pending row and blanking the buffer keep the buffer, history and board invariants. |
| Home.SubmitGuard | pages/index.tsx:58 | With six guesses recorded, or a blank in the buffer, a submission changes nothing. |
| Home.SubmitUnknownWord | pages/index.tsx:59-62 | An unlisted full guess only clears `wordInList`. |
| Home.SubmitScores | pages/index.tsx:63-80 | A listed guess sets the flag. Its distance is the number of differing positions. It goes into the leftmost unset slot, or nowhere if none is left. |
| Home.SubmitWinOrAppend | pages/index.tsx:65-82 | A win keeps the history, the pending rows and the buffer. Any other listed guess is appended, removes a pending row and blanks the buffer. |
| Home.WinIsNotTerminal | pages/index.tsx:65-71 | After a win the word stays in the buffer. A second submission only records another 0. |
| Home.Pressed | pages/index.tsx:84-111 | `onKeyPress` keeps the buffer at five slots, only extends the history and keeps the number of distance slots. |
| Home.InitialAligned | pages/index.tsx:41-54 | At the start the distance slots are aligned with the (empty) history. |
| Home.SubmitAligned | pages/index.tsx:57-83 | From an aligned state, a submission keeps each history row paired with its own distance exactly when it is not a win. |
| Home.SixthGuessAfterWinUnscored | pages/index.tsx:67-80 | With five guesses and all six slots set (possible only after a win), a sixth non-winning guess is appended and its distance is written nowhere. |
| Home.BufferEditKeepsInv | pages/index.tsx:89-110 | Replacing only the buffer with another five-slot left-packed buffer keeps the invariant. |
| Home.PressKeepsInv | pages/index.tsx:84-111 | Every key press keeps the invariant. |
| Home.PressAppendsOnly | pages/index.tsx:84-111 | A key press only appends to the history and never changes a set distance slot. |
| Home.PressAligned | pages/index.tsx:84-111 | From an aligned state, a key press keeps the slots aligned exactly when it is not an Enter that wins. |
| Home.EditKeysTouchOnlyBuffer | pages/index.tsx:89-110 | A key other than Enter changes only the buffer. Backspace drops the last typed letter. A one-character key appends its lowercase form unless the buffer is full or the key is a blank. Other keys do nothing. |
| Home.EnterNeedsFullBuffer | pages/index.tsx:88 | Enter with a blank in the buffer does nothing. |
| Home.Run | pages/index.tsx:84-111 | Over any sequence of key presses the buffer keeps five slots. From a state that satisfies the invariant, the state reached satisfies it too. |
| Home.RunStep | pages/index.tsx:84-111 | A run is its first key press followed by the run of the remaining keys. |
| Home.RunAppendsOnly | pages/index.tsx:84-111 | Over any key sequence the history only grows at its end, and set distance slots never change. |
| Home.ExhaustedFreezes | pages/index.tsx:58 | With six guesses recorded, any key sequence changes only the buffer. |
| Home.Game.constructor | pages/index.tsx:41-54 | The fields start at the `useState` initial values, which satisfy the invariant. |
| Home.Game.Submit | pages/index.tsx:57-83 | `handleSubmit` on the fields performs Submitted and keeps the invariant. |
| Home.Game.HandleKey | pages/index.tsx:84-111 | `onKeyPress` on the fields performs Pressed and keeps the invariant. |
| Scenarios.InitialState | pages/index.tsx:41-54 | The initial state is five blank rows, no history, a blank buffer, -1, true, and six -1 slots. |
| Scenarios.TypingFillsLeftToRight | pages/index.tsx:106-110 | Typing "a" then "N" gives "a    " then "an   ". |
| Scenarios.TypingFillsToTheEnd | pages/index.tsx:106-110 | Typing fills the last two slots. |
| Scenarios.TypingOnFullBuffer | pages/index.tsx:100-105 | A letter on a full buffer is ignored. |
| Scenarios.BackspaceSteps | pages/index.tsx:89-98 | Backspace clears the last slot, then the one before it, and does nothing on an empty buffer. |
| Scenarios.AngleAgainstApple | pages/index.tsx:24-35 | The distance from "angle" to "apple" is 2. |
| Scenarios.NonWinningGuess | pages/index.tsx:73-82 | Submitting "angle" records 2, appends it, drops a pending row and blanks the buffer. |
| Scenarios.WinningGuess | pages/index.tsx:65-71 | Submitting "apple" records 0 and leaves the history and buffer as they were. |
| Scenarios.WinningGuessAgain | pages/index.tsx:65-71 | Submitting "apple" again records a second 0. |
| Scenarios.WinThenGuessMisaligns | pages/index.tsx:65-82 | A win with "apple" and then "angle" give history ["angle"] with slots [0, 2, -1, -1, -1, -1], which are not aligned. |
| Scenarios.UnknownWord | pages/index.tsx:59-62 | An unlisted word only clears the flag. |
| Scenarios.SixthAndSeventhGuess | pages/index.tsx:58 | A sixth non-winning guess is appended, and a seventh changes nothing. |
| Scenarios.TypeAndSubmitAngle | pages/index.tsx:84-111 | From the initial state, the keys a, n, g, l, e and Enter record "angle" with distance 2, drop a pending row and leave a blank buffer. |

## Left out

- Fetching the word list (`fetch`, `res.text()`) and `revalidate` (lines 9-11 and 20): network and caching. The fetched text is a parameter of `WordList.WordListOf`.
- Choosing the secret word with `Math.random` (line 13): randomness. The word is an input of `Home.Game.constructor`.
- The React machinery: `useEffect`, listener registration and removal, `instanceof KeyboardEvent` (lines 56, 85, 112-114). A key press is a call of `HandleKey` with the key string.
- Rendering (lines 116-179): JSX and styling only, with no state change.
- Default parameters `str1 = ""`, `str2 = ""` of `getHammingDistance`: the arguments are always given.
- `wordList[...]` on an empty list gives `undefined` for the word. The model takes the word as a string.
- JsBuiltins.ToLower: ASCII only. JavaScript's Unicode `toLowerCase` can map one character to two. This is not modelled.
- Strings are sequences of characters, but JavaScript's `length` and indices count UTF-16 code units. This affects WordList.KeepFiveLetter (a line of five characters outside the Basic Multilingual Plane has length 10 in JavaScript and is dropped there), Hamming.HammingDistance (it compares code units, not characters) and Home.Pressed (a key such as "😀" has length 2 in JavaScript and is ignored, while the model writes it into the buffer).
- Home.Pressed: requires a non-empty key, and so do Home.Run (through Home.KeysOk), Home.PressKeepsInv, Home.PressAppendsOnly, Home.EditKeysTouchOnlyBuffer, Home.RunAppendsOnly and Home.ExhaustedFreezes. A browser never reports an empty `KeyboardEvent.key`. With `""` the source would take the letter path and shrink the buffer to four slots.
- Home.Pressed and Home.Run: on a five-slot buffer that is not left-packed (a blank before a letter, unreachable under Home.Inv) the buffer edits differ from the source's `slice`/`repeat` expressions. GuessBuffer.InsertExpression and GuessBuffer.BackspaceExpression state their agreement on left-packed buffers only.
- Home.Game.HandleKey: requires a non-empty key, for the same reason as Home.Pressed.
