/** Event handling: the keydown and click handlers that dispatch to the
    game operations, the end of a row's flip animation, and sequences of
    such events. A handler runs only while the game is accepting input,
    which stands for its listener being attached. */
module Input {

  import opened Options
  import opened Letters
  import opened Evaluation
  import opened Keyboard
  import opened Game

  /** What a key or click asks the game to do. */
  datatype Command = Submit | Delete | Press(key: char) | Ignore

  /** The relevant attributes of a clicked element: its `data-key` letter if
      it has one, and whether it carries `data-enter` or `data-delete`. */
  datatype ClickTarget = ClickTarget(dataKey: Option<char>, enter: bool, delete: bool)

  /** `alerts` is the number of alerts on screen when the event arrives.
      `FlipsDone` is the end of the last tile's flip after a submission. */
  datatype Event =
    | KeyDown(key: string, alerts: nat)
    | Click(target: ClickTarget, alerts: nat)
    | FlipsDone

  /** The keydown dispatch: Enter submits, Backspace and Delete delete, a
      key whose text is one ASCII letter types it, anything else is ignored. */
  function KeyCommand(key: string): (c: Command)
    ensures c == Submit <==> key == "Enter"
    ensures c == Delete <==> key == "Backspace" || key == "Delete"
    ensures c.Press? <==> |key| == 1 && IsAsciiLetter(key[0])
    ensures c.Press? ==> c.key == key[0]
  {
    if key == "Enter" then Submit
    else if key == "Backspace" || key == "Delete" then Delete
    else if |key| == 1 && IsAsciiLetter(key[0]) then Press(key[0])
    else Ignore
  }

  /** The click dispatch, tried in the order letter key, enter, delete. */
  function ClickCommand(t: ClickTarget): (c: Command)
    ensures t.dataKey.Some? ==> c == Press(t.dataKey.value)
    ensures c == Submit <==> t.dataKey.None? && t.enter
    ensures c == Delete <==> t.dataKey.None? && !t.enter && t.delete
    ensures c == Ignore <==> t.dataKey.None? && !t.enter && !t.delete
  {
    match t.dataKey
    case Some(k) => Press(k)
    case None =>
      if t.enter then Submit
      else if t.delete then Delete
      else Ignore
  }

  /** Whether the click and keydown listeners are attached. */
  predicate Listening(g: Game) {
    g.phase == Accepting
  }

  /** Runs a command if the listeners are attached; otherwise nothing happens. */
  function Apply(g: Game, cmd: Command, dictionary: seq<string>, alerts: nat): (r: Step)
    ensures !Listening(g) ==> r == Step(g, None)
    ensures r.game.rows == g.rows && r.game.keys == g.keys && r.game.tiles == g.tiles
    ensures r.game.phase == g.phase || r.game.phase == Evaluating
  {
    if !Listening(g) then Step(g, None)
    else match cmd
      case Submit => SubmitGuess(g, dictionary, alerts)
      case Delete => Step(DeleteKey(g), None)
      case Press(k) => Step(PressKey(g, k), None)
      case Ignore => Step(g, None)
  }

  /** One event against a game played for `target`. The flip animation only
      runs after a valid submission, so `FlipsDone` does something only while
      the game is evaluating a full row. */
  function HandleEvent(g: Game, e: Event, dictionary: seq<string>, target: string): (r: Step)
    ensures g.phase == Won || g.phase == Lost ==> r == Step(g, None)
    ensures g.phase == Evaluating && !e.FlipsDone? ==> r == Step(g, None)
    ensures g.rows <= r.game.rows
    ensures forall c :: StatusesOf(g.keys, c) <= StatusesOf(r.game.keys, c)
  {
    match e
    case KeyDown(key, alerts) => Apply(g, KeyCommand(key), dictionary, alerts)
    case Click(t, alerts) => Apply(g, ClickCommand(t), dictionary, alerts)
    case FlipsDone =>
      if g.phase == Evaluating && |g.buffer| == WordLength then Reveal(g, target)
      else Step(g, None)
  }

  /** The game after a sequence of events. */
  function Run(g: Game, events: seq<Event>, dictionary: seq<string>, target: string): Game
    decreases |events|
  {
    if |events| == 0 then g
    else Run(HandleEvent(g, events[0], dictionary, target).game, events[1..], dictionary, target)
  }

  /** Every event keeps a valid game valid. */
  lemma HandleEventValid(g: Game, e: Event, dictionary: seq<string>, target: string)
    requires Valid(g, target)
    ensures Valid(HandleEvent(g, e, dictionary, target).game, target)
  {
    if e.FlipsDone? && g.phase == Evaluating {
      RevealValid(g, target);
    }
  }

  /** Playing any sequence of events from a valid game leaves it valid: the
      current row never exceeds five letters, every submitted row carries
      its evaluation, the keyboard agrees with the rows, and a game ends
      exactly at a correct row or a full grid. */
  lemma {:induction false} RunValid(g: Game, events: seq<Event>, dictionary: seq<string>, target: string)
    requires Valid(g, target)
    ensures Valid(Run(g, events, dictionary, target), target)
    decreases |events|
  {
    if |events| > 0 {
      HandleEventValid(g, events[0], dictionary, target);
      RunValid(HandleEvent(g, events[0], dictionary, target).game, events[1..], dictionary, target);
    }
  }

  /** Once won or lost, no further key press, click or animation changes the game. */
  lemma {:induction false} FinishedStaysFinished(g: Game, events: seq<Event>, dictionary: seq<string>, target: string)
    requires g.phase == Won || g.phase == Lost
    ensures Run(g, events, dictionary, target) == g
    decreases |events|
  {
    if |events| > 0 {
      FinishedStaysFinished(g, events[1..], dictionary, target);
    }
  }

  /** Over any sequence of events, keys only gain statuses and submitted rows
      are only ever extended, never rewritten. */
  lemma {:induction false} RunOnlyAccumulates(g: Game, events: seq<Event>, dictionary: seq<string>, target: string)
    ensures forall c :: StatusesOf(g.keys, c) <= StatusesOf(Run(g, events, dictionary, target).keys, c)
    ensures g.rows <= Run(g, events, dictionary, target).rows
    decreases |events|
  {
    if |events| > 0 {
      var next := HandleEvent(g, events[0], dictionary, target).game;
      RunOnlyAccumulates(next, events[1..], dictionary, target);
    }
  }

  /** Starting from a new page, every reachable game is valid. */
  lemma ReachableValid(tiles: nat, events: seq<Event>, dictionary: seq<string>, target: string)
    requires tiles > 0 && tiles % WordLength == 0
    ensures Valid(Run(NewGame(tiles), events, dictionary, target), target)
  {
    RunValid(NewGame(tiles), events, dictionary, target);
  }

  /** In a valid game a full row that matches the target wins, even when it
      fills the last row of the grid. */
  lemma FinalCorrectRowWins(g: Game, target: string, dictionary: seq<string>)
    requires Valid(g, target) && g.phase == Evaluating && g.buffer == target
    ensures HandleEvent(g, FlipsDone, dictionary, target).game.phase == Won
    ensures HandleEvent(g, FlipsDone, dictionary, target).alert == Some(YouWin)
  {
  }

  /** In a valid game, an evaluated wrong row loses exactly when it used the
      grid's last empty row, and otherwise hands input back for the next row. */
  lemma WrongRowLosesOnlyWhenGridFull(g: Game, target: string, dictionary: seq<string>)
    requires Valid(g, target) && g.phase == Evaluating && g.buffer != target
    ensures var r := HandleEvent(g, FlipsDone, dictionary, target).game;
      (r.phase == Lost <==> WordLength * (|g.rows| + 1) == g.tiles) &&
      (r.phase == Accepting <==> WordLength * (|g.rows| + 1) < g.tiles)
  {
  }
}
