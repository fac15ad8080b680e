/** The mini-game page: two game cards, an instructions overlay shown after
    a card is clicked, and a game overlay that mounts the chosen game once
    the player starts it. */
module Host {
  import opened Optional

  datatype GameId = Game1 | Game2


  datatype HostState = HostState(
    selectedGame: Option<GameId>,
    showInstructions: bool,
    gameToStart: Option<GameId>)

  /** The page as first rendered: no overlay. */
  function Initial(): (s: HostState)
    ensures InstructionsOverlay(s) == None && GameOverlay(s) == None
    ensures s.selectedGame == None && !s.showInstructions && s.gameToStart == None
  {
    HostState(None, false, None)
  }

  /** Which game's instructions are on screen: they are rendered only when
      `showInstructions` is set and a game is waiting to start. */
  function InstructionsOverlay(s: HostState): (r: Option<GameId>)
    ensures r.Some? <==> s.showInstructions && s.gameToStart.Some?
    ensures r.Some? ==> r == s.gameToStart
  {
    if s.showInstructions then s.gameToStart else None
  }

  /** Which game is mounted in the game overlay. */
  function GameOverlay(s: HostState): (r: Option<GameId>)
    ensures r.Some? <==> s.selectedGame.Some?
    ensures r.Some? ==> r.value == s.selectedGame.value
  {
    s.selectedGame
  }

  /** `handleGameClick(gameId)`: the clicked game's instructions appear;
      a game already mounted stays mounted. */
  function GameClickStep(s: HostState, g: GameId): (r: HostState)
    ensures InstructionsOverlay(r) == Some(g)
    ensures GameOverlay(r) == GameOverlay(s)
  {
    s.(gameToStart := Some(g), showInstructions := true)
  }

  /** `handleStartGame`: the waiting game is mounted and its instructions
      disappear. */
  function StartGameStep(s: HostState): (r: HostState)
    ensures GameOverlay(r) == s.gameToStart
    ensures InstructionsOverlay(r) == None && !r.showInstructions
    ensures r.gameToStart == s.gameToStart
  {
    s.(selectedGame := s.gameToStart, showInstructions := false)
  }

  /** The instructions overlay's own close action: only the instructions
      disappear. */
  function CloseInstructionsStep(s: HostState): (r: HostState)
    ensures InstructionsOverlay(r) == None && !r.showInstructions
    ensures GameOverlay(r) == GameOverlay(s) && r.gameToStart == s.gameToStart
  {
    s.(showInstructions := false)
  }

  /** `handleCloseGame`: the game is unmounted and nothing waits to start,
      so neither overlay is shown afterwards. */
  function CloseGameStep(s: HostState): (r: HostState)
    ensures r.selectedGame == None && r.gameToStart == None
    ensures GameOverlay(r) == None && InstructionsOverlay(r) == None
    ensures r.showInstructions == s.showInstructions
  {
    s.(selectedGame := None, gameToStart := None)
  }

  /** Clicking a card and starting mounts exactly that game, with no
      instructions on top; closing it then brings the page back to its
      first state. */
  lemma OpenStartClose(s: HostState, g: GameId)
    ensures GameOverlay(StartGameStep(GameClickStep(s, g))) == Some(g)
    ensures InstructionsOverlay(StartGameStep(GameClickStep(s, g))) == None
    ensures CloseGameStep(StartGameStep(GameClickStep(s, g))) == Initial()
  {
  }

  /** Dismissing the instructions and starting without a card click mounts
      nothing when nothing was waiting. */
  lemma StartWithoutChoice(s: HostState)
    requires s.gameToStart == None
    ensures GameOverlay(StartGameStep(s)) == None
  {
  }

  class MiniGamePage {
    var selectedGame: Option<GameId>
    var showInstructions: bool
    var gameToStart: Option<GameId>

    function State(): HostState
      reads this
    {
      HostState(selectedGame, showInstructions, gameToStart)
    }

    constructor ()
      ensures State() == Initial()
    {
      selectedGame := None;
      showInstructions := false;
      gameToStart := None;
    }

    method HandleGameClick(gameId: GameId)
      modifies this
      ensures State() == GameClickStep(old(State()), gameId)
    {
      gameToStart := Some(gameId);
      showInstructions := true;
    }

    method HandleStartGame()
      modifies this
      ensures State() == StartGameStep(old(State()))
    {
      selectedGame := gameToStart;
      showInstructions := false;
    }

    /** The instructions overlay's `onClose`. */
    method CloseInstructions()
      modifies this
      ensures State() == CloseInstructionsStep(old(State()))
    {
      showInstructions := false;
    }

    method HandleCloseGame()
      modifies this
      ensures State() == CloseGameStep(old(State()))
    {
      selectedGame := None;
      gameToStart := None;
    }
  }
}
