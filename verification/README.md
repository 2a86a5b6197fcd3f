# crisdle game logic in Dafny

A model of the game logic of crisdle, a browser Wordle clone whose whole
behaviour lives in `script.js`. The page is a grid of letter tiles (rows of
five) and an on-screen keyboard. The player types letters into the first
empty tiles and deletes them again, then submits the row. After a valid
submission the row flips tile by tile. Each tile is marked `correct`,
`wrong-location` or `wrong`, and each keyboard key collects the statuses
its letter received. When the last tile has flipped, the game is won if the
row equals the day's target word. Otherwise it is lost if no empty tile is
left, and otherwise input resumes.

The model keeps only the state behind the DOM:

- `Evaluation`: the per-letter classification. It uses the naive rule: a
  letter is `wrong-location` whenever the target contains it, however many
  times it is guessed.
- `Keyboard`: each key's set of statuses. Statuses are only ever added.
- `Game`: the game state. It holds the submitted rows, the letters of the
  active tiles, the tile count, the phase and the keys. It also defines
  typing, deleting, submitting, revealing and the win/lose check, plus the
  invariant `Valid` that every reachable game satisfies.
- `Input`: the keydown and click dispatch, the input lock and runs of
  events.
- `Calendar`: the day index and the daily target word.

script.js attaches and detaches its event listeners to lock input. The
model uses a phase instead: `Accepting`, then `Evaluating` while the row
flips, then `Accepting`, `Won` or `Lost`. Handlers act only in
`Accepting`. The flip animation is one event, `FlipsDone`. The dictionary,
the target word and the number of alerts on screen are parameters. The
number of tiles is also a parameter, a positive multiple of five.

Behaviour of the code that the model keeps:

- "trace" against "crate" gives `wrong-location, correct, correct,
  wrong-location, correct`: r, a and e are in place (`TraceAgainstCrate`).
- A five-letter word outside the dictionary is refused only while fewer
  than seven alerts are showing. With seven or more it is evaluated like a
  real word, because `script.js:144` joins the two tests with `&&`.
- The keyboard keeps every status class a key has received, not only the
  best one. Which colour shows is decided by the stylesheet.
- `pressKey` with five active tiles returns early. With fewer active tiles
  but no empty tile, the tile lookup yields `null` and the assignment
  throws before anything is changed. Both are no-ops in the model.
- The click handler tests for a delete button with the selector
  `"[data-delete"`, which has no closing bracket. The model treats such a
  click as a delete, relying on the browser's CSS error recovery to close
  the bracket.

## Model

| member | source | states |
|---|---|---|
| Evaluation.Evaluate | script.js:165-174 | one status per typed letter; a position is correct iff the letter equals the target's letter there, wrong-location iff not and the target contains it, wrong iff the target does not contain it |
| Evaluation.EvaluateSelf | script.js:165-166 | a guess equal to the target is correct at every position |
| Evaluation.EvaluateDisjoint | script.js:171-173 | a guess sharing no letter with the target is wrong at every position |
| Evaluation.PresentNeverWrong | script.js:168-170 | a letter the target contains is never wrong, however often it is repeated in the guess |
| Evaluation.TraceAgainstCrate | script.js:165-174 | "trace" against "crate" gives wrong-location, correct, correct, wrong-location, correct |
| Evaluation.RepeatedLetterStaysPresent | script.js:165-174 | "geese" against "crate" marks both misplaced e's wrong-location beside the correct one, so duplicates are not counted |
| Evaluation.CrateExamples | script.js:165-174 | "crate" against itself is all correct and "zzzzz" against "crate" is all wrong |
| Keyboard.Record | script.js:155-173 | after a row, every key keeps the statuses it had, gains the status of each position typed with its letter, and gains nothing else |
| Keyboard.RecordLeavesOtherKeys | script.js:155-173 | keys whose letter is not in the row are unchanged |
| Letters.ToLower | script.js:93 | an ASCII letter is stored in lower case; other characters are unchanged |
| Letters.ToUpper | script.js:229 | an ASCII letter is shown in upper case after a loss; other characters are unchanged |
| Letters.ToUpperWord | script.js:229 | the word shown after a loss has the target's length; each lower-case letter becomes an upper-case one that lower-cases back to it, and every other character is kept |
| Game.NewGame | script.js:17-24 | a new page has no rows, no active letters, no key statuses and input attached, and is valid for every target |
| Game.PressKey | script.js:80-97 | the active row never exceeds five letters; below five with an empty tile the lower-cased key is appended and the count rises by one; at five, or with no empty tile, it is a no-op; submitted rows, phase and keys are unchanged |
| Game.DeleteKey | script.js:112-125 | removes exactly the last active letter, is a no-op on an empty row, and leaves submitted rows, phase and keys unchanged |
| Game.PressThenDelete | script.js:80-125 | typing a letter into a row with room and deleting it restores the game |
| Game.SubmitGuess | script.js:127-152 | a row of other than five letters changes nothing and shows "not enough letters" below seven alerts; a non-word changes nothing and shows "not a word" below seven alerts; otherwise input locks with the row kept |
| Game.SubmitLocksIff | script.js:128-150 | while accepting, submission locks input iff the row has five letters and is a dictionary word or seven alerts are showing; otherwise the game is unchanged |
| Game.CheckWinLose | script.js:219-237 | won iff the guess equals the target, checked first; lost iff not won and no tile is empty; otherwise input is unlocked; only the phase changes; win and loss show their alerts |
| Game.Reveal | script.js:151-183 | the active row becomes a submitted row carrying its evaluation, the row empties, keys only gain the row's statuses, and the phase follows the win-then-loss check |
| Game.RecordKeepsKeysMatching | script.js:155-173 | if the keyboard shows exactly the statuses of the submitted rows, then after recording a new row it shows exactly those of the rows plus the new one |
| Game.RevealValid | script.js:154-183 | revealing a row of a valid game gives a valid game, so the keys still agree with the rows and the phase fits the grid |
| Input.KeyCommand | script.js:48-66 | Enter submits, Backspace and Delete delete, exactly one ASCII letter types itself, any other key is ignored |
| Input.ClickCommand | script.js:31-46 | a letter key types its letter, otherwise enter submits, otherwise delete deletes, otherwise nothing |
| Input.Apply | script.js:19-29 | with listeners detached a command does nothing; otherwise only the active row and phase can change, the phase only to evaluating |
| Input.HandleEvent | script.js:17-66 | won and lost games ignore every event; an evaluating game ignores keys and clicks; rows are only extended and keys only gain statuses |
| Input.HandleEventValid | script.js:127-183 | every event keeps a valid game valid |
| Input.RunValid | script.js:80-237 | any sequence of events keeps a valid game valid |
| Input.ReachableValid | script.js:17-24 | every game reachable from a new page is valid: at most five active letters, rows evaluated, keys matching rows, a correct row only last and only when won |
| Input.FinishedStaysFinished | script.js:219-236 | once won or lost, no sequence of events changes the game |
| Input.RunOnlyAccumulates | script.js:155-187 | over any sequence of events keys only gain statuses and submitted rows are only extended, never rewritten (typing and deleting touch only active tiles) |
| Input.FinalCorrectRowWins | script.js:219-225 | a correct row wins and shows "You Win", even on the grid's last row |
| Input.WrongRowLosesOnlyWhenGridFull | script.js:227-236 | a wrong row loses iff it filled the grid and otherwise unlocks input for the next row |
| Calendar.DayIndex | script.js:11-14 | the day index is the floor of the elapsed milliseconds over a day's milliseconds, also before the start date |
| Calendar.TargetWord | script.js:14 | the day's word is the target list's entry at the day index, and absent when the index is outside the list |
| Calendar.FloorUnique | script.js:13-14 | the day index is the only integer bracketing the elapsed time |
| Calendar.SameDaySameWord | script.js:11-14 | two instants in the same day give the same index and the same word |
| Calendar.NextDay | script.js:13-14 | one day later the index is one higher |

## Left out

- DOM lookups and mutation, tile text, and the `hover`, `flip`, `shake`, `dance` and `lost` classes, with `hoverKey`, `handleKeyUp`, `shakeTiles` and `danceTiles`. These are presentation only.
- `setTimeout` and the `transitionend`/`animationend` sequencing. A row's flips are one `FlipsDone` event, and the listener lock is the game phase.
- Alert creation and the timed removal in `showAlert`. The number of alerts showing is an input carried by each key and click event.
- `Date.now()`, the local-time start date and the floating-point division. The day index is integer floor division of a given millisecond count.
- The contents of `targetWords` and `dictionary`. They are word-list data defined outside script.js, so they are parameters.
- The grid size, set in the page's HTML outside script.js. It is a parameter.
- Letters.ToLower: covers ASCII only, not JavaScript's full Unicode `toLowerCase`. Only ASCII letters pass the keydown dispatch, and the on-screen key labels are defined in the page's HTML outside script.js.
- Letters.ToUpper: covers ASCII only, not JavaScript's full Unicode `toUpperCase`. It is applied only to the target word, and the target words are lower-case ASCII word-list data.
- Letters.ToUpperWord: keeps the word's length and maps letter by letter, which holds only for ASCII (JavaScript upper-cases `ß` to `SS`). The target words it is applied to are lower-case ASCII.
- Input.ClickCommand: treats the `data-key` value as one character. The key labels are defined in the page's HTML outside script.js.
- Game.Reveal: requires a full row in the evaluating phase. The flip sequence is only ever started by a valid submission.
