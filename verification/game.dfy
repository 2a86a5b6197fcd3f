/** The state of one game, as the guess grid and keyboard hold it in
    script.js, and the operations on it: typing and deleting letters in the
    current row, submitting the row, and revealing it once the flip
    animation has finished.

    Input is accepted only in phase `Accepting`; this stands for script.js
    attaching and detaching its click and keydown listeners. */
module Game {

  import opened Options
  import opened Letters
  import opened Evaluation
  import opened Keyboard

  /** Submission alerts are shown only while fewer than this many are on screen. */
  const MaxAlerts: nat := 7

  /** `Evaluating` is the span between a valid submission and the end of the
      row's flip animation; `Won` and `Lost` leave input detached for good. */
  datatype Phase = Accepting | Evaluating | Won | Lost

  /** A submitted row: its letters and the status each tile received. */
  datatype Row = Row(guess: string, statuses: seq<Status>)

  /** `rows` are the submitted rows, `buffer` the letters of the tiles still
      marked active, `tiles` the number of tiles in the grid (fixed by the
      page layout), `keys` the keyboard's recorded statuses. */
  datatype Game = Game(rows: seq<Row>, buffer: string, tiles: nat, phase: Phase, keys: Keys)

  datatype Alert = NotEnoughLetters(count: nat) | NotAWord | YouWin | ShowTarget(word: string)

  /** The game after an operation, with the alert it put on screen, if any. */
  datatype Step = Step(game: Game, alert: Option<Alert>)

  /** Tiles that hold no letter yet. */
  function EmptyTiles(g: Game): int {
    g.tiles - WordLength * |g.rows| - |g.buffer|
  }

  function Last<T>(s: seq<T>): T
    requires |s| > 0
  {
    s[|s| - 1]
  }

  /** Whether `s` is among the statuses some submitted row gave to letter `c`. */
  ghost predicate Recorded(rows: seq<Row>, c: char, s: Status) {
    exists r, i :: 0 <= r < |rows| && 0 <= i < |rows[r].guess| && i < |rows[r].statuses| &&
      rows[r].guess[i] == c && rows[r].statuses[i] == s
  }

  /** The keyboard shows exactly the statuses the submitted rows gave. */
  ghost predicate KeysMatchRows(keys: Keys, rows: seq<Row>) {
    forall c, s :: s in StatusesOf(keys, c) <==> Recorded(rows, c, s)
  }

  /** Every submitted row has five letters and carries its evaluation. */
  ghost predicate RowsEvaluated(rows: seq<Row>, target: string) {
    forall r :: 0 <= r < |rows| ==>
      |rows[r].guess| == WordLength && rows[r].statuses == Evaluate(rows[r].guess, target)
  }

  /** A row equal to the target can only be the last one, of a won game. */
  ghost predicate OnlyLastRowHits(g: Game, target: string) {
    forall r :: 0 <= r < |g.rows| && g.rows[r].guess == target ==> g.phase == Won && r == |g.rows| - 1
  }

  /** The shape each phase promises. */
  ghost predicate PhaseFits(g: Game, target: string) {
    match g.phase
    case Accepting => WordLength * |g.rows| < g.tiles
    case Evaluating => |g.buffer| == WordLength
    case Won => g.buffer == [] && |g.rows| > 0 && Last(g.rows).guess == target
    case Lost => g.buffer == [] && |g.rows| > 0 && WordLength * |g.rows| == g.tiles
  }

  /** The states a game reaches while playing for `target`: the grid is whole
      rows, the current row holds at most five letters, every submitted row
      carries its evaluation, the keyboard agrees with the rows, only a win
      ends on the target, and each phase has the shape its name promises. */
  ghost predicate Valid(g: Game, target: string) {
    && g.tiles % WordLength == 0
    && |g.buffer| <= WordLength
    && WordLength * |g.rows| + |g.buffer| <= g.tiles
    && RowsEvaluated(g.rows, target)
    && KeysMatchRows(g.keys, g.rows)
    && OnlyLastRowHits(g, target)
    && PhaseFits(g, target)
  }

  /** A fresh page: an empty grid of `tiles` tiles, listeners attached. */
  function NewGame(tiles: nat): (g: Game)
    ensures g.rows == [] && g.buffer == [] && g.phase == Accepting
    ensures forall c :: StatusesOf(g.keys, c) == {}
    ensures tiles > 0 && tiles % WordLength == 0 ==> forall target :: Valid(g, target)
  {
    Game([], [], tiles, Accepting, map[])
  }

  /** Types `key` into the first empty tile, lower-cased, unless five tiles
      are already active. When no empty tile is left the tile lookup
      finds nothing and the assignment throws before anything changes. */
  function PressKey(g: Game, key: char): (r: Game)
    ensures |g.buffer| <= WordLength ==> |r.buffer| <= WordLength
    ensures |g.buffer| >= WordLength ==> r == g
    ensures EmptyTiles(g) <= 0 ==> r == g
    ensures |g.buffer| < WordLength && EmptyTiles(g) > 0 ==>
      r == g.(buffer := g.buffer + [ToLower(key)]) && |r.buffer| == |g.buffer| + 1
    ensures r.rows == g.rows && r.phase == g.phase && r.keys == g.keys && r.tiles == g.tiles
  {
    if |g.buffer| >= WordLength then g
    else if EmptyTiles(g) <= 0 then g
    else g.(buffer := g.buffer + [ToLower(key)])
  }

  /** Clears the last active tile; with no active tile nothing happens.
      Submitted tiles are not active, so they are never touched. */
  function DeleteKey(g: Game): (r: Game)
    ensures g.buffer == [] ==> r == g
    ensures g.buffer != [] ==> r.buffer + [Last(g.buffer)] == g.buffer
    ensures |r.buffer| <= |g.buffer|
    ensures r.rows == g.rows && r.phase == g.phase && r.keys == g.keys && r.tiles == g.tiles
  {
    if |g.buffer| == 0 then g
    else g.(buffer := g.buffer[..|g.buffer| - 1])
  }

  /** Submits the active row. `alerts` is the number of alerts currently on
      screen. A row that is not five letters long is refused; a five-letter
      word outside `dictionary` is refused only while fewer than seven alerts
      are showing, and otherwise goes through like a valid word. */
  function SubmitGuess(g: Game, dictionary: seq<string>, alerts: nat): (r: Step)
    ensures |g.buffer| != WordLength ==>
      r.game == g && r.alert == (if alerts < MaxAlerts then Some(NotEnoughLetters(|g.buffer|)) else None)
    ensures |g.buffer| == WordLength && g.buffer !in dictionary && alerts < MaxAlerts ==>
      r.game == g && r.alert == Some(NotAWord)
    ensures |g.buffer| == WordLength && (g.buffer in dictionary || alerts >= MaxAlerts) ==>
      r.game == g.(phase := Evaluating) && r.alert == None
  {
    if |g.buffer| != WordLength then
      Step(g, if alerts < MaxAlerts then Some(NotEnoughLetters(|g.buffer|)) else None)
    else if g.buffer !in dictionary && alerts < MaxAlerts then
      Step(g, Some(NotAWord))
    else
      Step(g.(phase := Evaluating), None)
  }

  /** After the last tile has flipped: listeners are re-attached, then a
      guess equal to the target wins; failing that, a grid with no empty tile
      loses. Both detach the listeners again. The win is checked first. */
  function CheckWinLose(g: Game, guess: string, target: string): (r: Step)
    ensures r.game == g.(phase := r.game.phase)
    ensures r.game.phase == Won <==> guess == target
    ensures r.game.phase == Lost <==> guess != target && EmptyTiles(g) == 0
    ensures r.game.phase == Accepting <==> guess != target && EmptyTiles(g) != 0
    ensures r.game.phase == Won ==> r.alert == Some(YouWin)
    ensures r.game.phase == Lost ==> r.alert == Some(ShowTarget(ToUpperWord(target)))
    ensures r.game.phase == Accepting ==> r.alert == None
  {
    if guess == target then Step(g.(phase := Won), Some(YouWin))
    else if EmptyTiles(g) == 0 then Step(g.(phase := Lost), Some(ShowTarget(ToUpperWord(target))))
    else Step(g.(phase := Accepting), None)
  }

  /** The end of the flip animation of a submitted row: every tile gets its
      status, every key gains the status of its letter, the row stops being
      active, and the game is checked for a win or a loss. */
  function Reveal(g: Game, target: string): (r: Step)
    requires g.phase == Evaluating && |g.buffer| == WordLength
    ensures r.game.rows == g.rows + [Row(g.buffer, Evaluate(g.buffer, target))]
    ensures r.game.buffer == [] && r.game.tiles == g.tiles
    ensures forall c :: StatusesOf(g.keys, c) <= StatusesOf(r.game.keys, c)
    ensures forall i :: 0 <= i < |g.buffer| ==>
      Evaluate(g.buffer, target)[i] in StatusesOf(r.game.keys, g.buffer[i])
    ensures forall c, s :: s in StatusesOf(r.game.keys, c) ==>
      s in StatusesOf(g.keys, c) ||
      exists i :: 0 <= i < |g.buffer| && g.buffer[i] == c && Evaluate(g.buffer, target)[i] == s
    ensures r.game.phase == Won <==> g.buffer == target
    ensures r.game.phase == Lost <==> g.buffer != target && EmptyTiles(r.game) == 0
    ensures r.game.phase == Accepting <==> g.buffer != target && EmptyTiles(r.game) != 0
  {
    var statuses := Evaluate(g.buffer, target);
    var revealed := g.(rows := g.rows + [Row(g.buffer, statuses)], buffer := [],
                       keys := Record(g.keys, g.buffer, statuses));
    CheckWinLose(revealed, g.buffer, target)
  }

  /** Typing a letter into a row with room and deleting it again gives back
      the game as it was. */
  lemma PressThenDelete(g: Game, key: char)
    requires |g.buffer| < WordLength && EmptyTiles(g) > 0
    ensures DeleteKey(PressKey(g, key)) == g
  {
    assert (g.buffer + [ToLower(key)])[..|g.buffer|] == g.buffer;
  }

  /** From the accepting phase, submission locks input exactly when the row is
      full and either a dictionary word or the alert cap is reached. */
  lemma SubmitLocksIff(g: Game, dictionary: seq<string>, alerts: nat)
    requires g.phase == Accepting
    ensures SubmitGuess(g, dictionary, alerts).game.phase == Evaluating <==>
      |g.buffer| == WordLength && (g.buffer in dictionary || alerts >= MaxAlerts)
    ensures SubmitGuess(g, dictionary, alerts).game.phase != Evaluating ==>
      SubmitGuess(g, dictionary, alerts).game == g
  {
  }

  /** Recorded statuses of a grid with one more row are the old ones plus
      those of the new row. */
  lemma RecordedAppend(rows: seq<Row>, row: Row, c: char, s: Status)
    ensures Recorded(rows + [row], c, s) <==>
      Recorded(rows, c, s) ||
      exists i :: 0 <= i < |row.guess| && i < |row.statuses| && row.guess[i] == c && row.statuses[i] == s
  {
    var rows' := rows + [row];
    if Recorded(rows', c, s) {
      var r, i :| 0 <= r < |rows'| && 0 <= i < |rows'[r].guess| && i < |rows'[r].statuses| &&
        rows'[r].guess[i] == c && rows'[r].statuses[i] == s;
      if r < |rows| {
        assert rows'[r] == rows[r];
      } else {
        assert rows'[r] == row;
      }
    }
    if Recorded(rows, c, s) {
      var r, i :| 0 <= r < |rows| && 0 <= i < |rows[r].guess| && i < |rows[r].statuses| &&
        rows[r].guess[i] == c && rows[r].statuses[i] == s;
      assert rows'[r] == rows[r];
    }
    if exists i :: 0 <= i < |row.guess| && i < |row.statuses| && row.guess[i] == c && row.statuses[i] == s {
      var i :| 0 <= i < |row.guess| && i < |row.statuses| && row.guess[i] == c && row.statuses[i] == s;
      assert rows'[|rows|] == row;
    }
  }

  /** Recording a row on a keyboard that agrees with the submitted rows
      gives a keyboard that agrees with those rows plus the new one. */
  lemma RecordKeepsKeysMatching(keys: Keys, rows: seq<Row>, guess: string, statuses: seq<Status>)
    requires |statuses| == |guess| && KeysMatchRows(keys, rows)
    ensures KeysMatchRows(Record(keys, guess, statuses), rows + [Row(guess, statuses)])
  {
    var keys' := Record(keys, guess, statuses);
    forall c, s
      ensures s in StatusesOf(keys', c) <==> Recorded(rows + [Row(guess, statuses)], c, s)
    {
      RecordedAppend(rows, Row(guess, statuses), c, s);
    }
  }

  /** Revealing a row of a valid game gives a valid game. */
  lemma RevealValid(g: Game, target: string)
    requires Valid(g, target) && g.phase == Evaluating
    ensures Valid(Reveal(g, target).game, target)
  {
    var row := Row(g.buffer, Evaluate(g.buffer, target));
    var revealed := g.(rows := g.rows + [row], buffer := [], keys := Record(g.keys, row.guess, row.statuses));
    var r := CheckWinLose(revealed, g.buffer, target).game;
    assert Reveal(g, target).game == r;
    RecordKeepsKeysMatching(g.keys, g.rows, row.guess, row.statuses);
    assert KeysMatchRows(r.keys, r.rows);
    assert RowsEvaluated(r.rows, target) by {
      forall k | 0 <= k < |r.rows|
        ensures |r.rows[k].guess| == WordLength && r.rows[k].statuses == Evaluate(r.rows[k].guess, target)
      {
        if k < |g.rows| {
          assert r.rows[k] == g.rows[k];
        }
      }
    }
    assert OnlyLastRowHits(r, target) by {
      forall k | 0 <= k < |r.rows| && r.rows[k].guess == target
        ensures r.phase == Won && k == |r.rows| - 1
      {
        assert k == |g.rows|;
      }
    }
    assert PhaseFits(r, target);
  }
}
