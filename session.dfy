/** The non-I/O logic of `TetrisGameEngine` as a function of its state: the
    preview queue, spawning, locking, the fall timer and per-frame commands.
    Random kinds are parameters; the two event listeners are called directly. */
module Session {
  import opened Shapes
  import opened Grid
  import opened Piece
  import opened Scoring

  datatype Option<T> = None | Some(value: T)

  const GridWidth: nat := 10
  const GridHeight: nat := 20
  const FallTimeBase: int := 60
  const PreviewLength: nat := 10

  /** The ten kinds `_initialize_game` draws for the preview queue. */
  type Refill = q: seq<Kind> | |q| == PreviewLength witness [O, O, O, O, O, O, O, O, O, O]

  /** The actions pressed in one frame. */
  datatype Commands = Commands(
    restart: bool, pause: bool,
    left: bool, right: bool, down: bool,
    rotateCw: bool, rotateCcw: bool,
    hardDrop: bool)

  datatype Engine = Engine(
    factory: Factory,
    board: Board,
    current: Option<PieceState>,
    preview: seq<Kind>,
    scores: ScoreState,
    gameOver: bool,
    paused: bool,
    fallTimer: int,
    fallSpeed: int)

  /** `_get_next_tetromino`: take the head of the preview queue as the new
      piece, append `next`, and end the game if the new piece collides where it
      spawns; with an empty queue the game ends and nothing else changes. */
  function Spawn(e: Engine, next: Kind): Engine
    requires WellFormed(e.board) && Stocked(e.factory)
  {
    if |e.preview| > 0 then
      var p := Spawned(e.factory, e.preview[0]);
      var e1 := e.(current := Some(p), preview := e.preview[1..] + [next]);
      if CollidesAt(e.board, p, 0, 0) then e1.(gameOver := true) else e1
    else e.(gameOver := true)
  }

  /** `_initialize_game`: a fresh preview queue, a spawn tested against the
      grid as it was, then the flags, timer, score and grid are reset. The fall
      speed is kept. */
  function Initialize(e: Engine, refill: Refill, next: Kind): Engine
    requires WellFormed(e.board) && Stocked(e.factory)
  {
    var e1 := Spawn(e.(preview := refill), next);
    e1.(gameOver := false, paused := false, fallTimer := 0, scores := Initial,
        board := EmptyBoard(e.board.width, e.board.height))
  }

  /** `_on_line_cleared`: score the lines, then set the fall speed for the
      new level. */
  function OnLineCleared(e: Engine, lines: int): Engine {
    var s := AddLineClearScore(e.scores, lines);
    e.(scores := s, fallSpeed := FallSpeedFor(s.level))
  }

  /** The first two steps of `_lock_current_tetromino`: the shape is scored,
      then written into the grid. */
  function Scored(e: Engine): (s: Engine)
    requires WellFormed(e.board) && e.current.Some?
    ensures SameShape(e.board, s.board)
  {
    var p := e.current.value;
    e.(scores := AddShapeScore(e.scores, BlockCount(Shape(p))),
       board := Place(e.board, Shape(p), p.x, p.y, Code(p)).board)
  }

  /** The clear step of a lock: the full rows, if there are any, are removed
      and reported to `_on_line_cleared`. */
  function Cleared(e: Engine): (c: Engine)
    requires WellFormed(e.board)
    ensures SameShape(e.board, c.board)
  {
    var rows := FullRows(e.board);
    if |rows| > 0 then OnLineCleared(e.(board := RemoveLines(e.board, rows)), |rows|) else e
  }

  /** The state a successful lock reaches before spawning. */
  function Settled(e: Engine): Engine
    requires WellFormed(e.board) && e.current.Some?
  {
    Cleared(Scored(e))
  }

  /** `_lock_current_tetromino`: without a piece nothing happens; a placement
      that fails ends the game, and one that succeeds is settled and followed
      by a spawn. */
  function Lock(e: Engine, next: Kind): Engine
    requires WellFormed(e.board) && Stocked(e.factory)
  {
    match e.current
    case None => e
    case Some(p) =>
      if !Place(e.board, Shape(p), p.x, p.y, Code(p)).ok then Scored(e).(gameOver := true)
      else Spawn(Settled(e), next)
  }

  /** `fall_timer += 1`. */
  function CountFrame(e: Engine): Engine {
    e.(fallTimer := e.fallTimer + 1)
  }

  /** `_update_game_logic`. */
  function Tick(e: Engine, next: Kind): Engine
    requires WellFormed(e.board) && Stocked(e.factory)
  {
    if e.gameOver || e.paused || e.current.None? then e
    else
      var e1 := CountFrame(e);
      if e1.fallTimer >= e1.fallSpeed then
        var mv := Move(e1.board, e1.current.value, 0, 1);
        var e2 := if mv.ok then e1.(current := Some(mv.piece)) else Lock(e1, next);
        e2.(fallTimer := 0)
      else e1
  }

  /** The piece after the movement command of a frame: left, right and down
      exclude each other, in that order. */
  function Shifted(b: Board, p: PieceState, cmd: Commands): (q: PieceState)
    requires WellFormed(b)
    ensures q.kind == p.kind && q.definition == p.definition
  {
    if cmd.left then Move(b, p, -1, 0).piece
    else if cmd.right then Move(b, p, 1, 0).piece
    else if cmd.down then Move(b, p, 0, 1).piece
    else p
  }

  /** The piece after the rotation command of a frame: clockwise wins over
      counter-clockwise. */
  function Turned(b: Board, p: PieceState, cmd: Commands): (q: PieceState)
    requires WellFormed(b)
    ensures q.kind == p.kind && q.definition == p.definition
  {
    if cmd.rotateCw then Rotate(b, p, 1).piece
    else if cmd.rotateCcw then Rotate(b, p, -1).piece
    else p
  }

  /** The current piece, if any, is well shaped, so a hard drop ends. */
  predicate PieceShaped(e: Engine) {
    e.current.Some? ==> WellShaped(e.current.value.definition)
  }

  /** `_handle_input` for one frame's commands (quitting is not modelled). */
  function HandleInput(e: Engine, cmd: Commands, refill: Refill, next: Kind): Engine
    requires WellFormed(e.board) && Stocked(e.factory) && PieceShaped(e)
  {
    if cmd.restart then Initialize(e, refill, next)
    else
      var e1 := if cmd.pause then e.(paused := !e.paused) else e;
      if e1.gameOver || e1.paused || e1.current.None? then e1
      else
        var e2 := e1.(current := Some(Steered(e1, cmd)));
        if cmd.hardDrop then Lock(Dropped(e2), next) else e2
  }

  /** The piece after a frame's movement and rotation commands. */
  function Steered(e: Engine, cmd: Commands): PieceState
    requires WellFormed(e.board) && e.current.Some?
  {
    Turned(e.board, Shifted(e.board, e.current.value, cmd), cmd)
  }

  /** The engine with its piece hard-dropped. */
  function Dropped(e: Engine): Engine
    requires WellFormed(e.board) && PieceShaped(e)
  {
    match e.current
    case None => e
    case Some(p) => e.(current := Some(HardDrop(e.board, p)))
  }

  /** Without a restart, a frame toggles the pause flag if asked; then, if the
      game is on, steers the piece, and hard-drops and locks it if asked. */
  lemma InputCases(e: Engine, cmd: Commands, refill: Refill, next: Kind)
    requires WellFormed(e.board) && Stocked(e.factory) && PieceShaped(e) && !cmd.restart
    ensures var e1 := e.(paused := e.paused != cmd.pause);
      HandleInput(e, cmd, refill, next) ==
        if e1.gameOver || e1.paused || e1.current.None? then e1
        else if cmd.hardDrop then Lock(Dropped(e1.(current := Some(Steered(e1, cmd)))), next)
        else e1.(current := Some(Steered(e1, cmd)))
  {
    var e1 := if cmd.pause then e.(paused := !e.paused) else e;
    assert e1 == e.(paused := e.paused != cmd.pause);
  }

  // ---------------------------------------------------------------------
  // Properties
  // ---------------------------------------------------------------------

  /** What holds of the engine between frames once it is initialised: a
      10x20 grid, ten kinds in the preview queue, a fall speed of at least 10,
      consistent scores, a piece from the catalogue, and while the game is on
      the piece fits where it stands, at or below the top row. */
  predicate Inv(e: Engine) {
    e.board.width == GridWidth && e.board.height == GridHeight && WellFormed(e.board) &&
    |e.preview| == PreviewLength &&
    e.fallSpeed >= 10 && e.fallTimer >= 0 &&
    Consistent(e.scores) && CatalogueOk(e.factory) &&
    e.current.Some? && Valid(e.current.value) &&
    (!e.gameOver ==> Fits(e.board, e.current.value) && e.current.value.y >= 0)
  }

  /** A spawn takes the head of a non-empty queue as the piece at rotation 0
      and position [4, 0], keeps the queue's length by appending `next`, and
      ends the game exactly when the new piece does not fit; the grid, scores,
      pause flag, timer and speed are untouched. */
  lemma SpawnSpec(e: Engine, next: Kind)
    requires WellFormed(e.board) && Stocked(e.factory) && |e.preview| > 0
    ensures var e1 := Spawn(e, next);
      e1.current == Some(Spawned(e.factory, e.preview[0])) &&
      e1.preview == e.preview[1..] + [next] && |e1.preview| == |e.preview| &&
      (e1.gameOver <==> e.gameOver || !Fits(e.board, Spawned(e.factory, e.preview[0]))) &&
      e1.board == e.board && e1.scores == e.scores && e1.paused == e.paused &&
      e1.fallTimer == e.fallTimer && e1.fallSpeed == e.fallSpeed && e1.factory == e.factory
  {
  }

  /** Spawning from an empty queue ends the game and changes nothing else. */
  lemma SpawnEmptyQueue(e: Engine, next: Kind)
    requires WellFormed(e.board) && Stocked(e.factory) && |e.preview| == 0
    ensures Spawn(e, next) == e.(gameOver := true)
  {
  }

  /** A spawn keeps the invariant's queue, piece and fit parts. */
  lemma SpawnKeepsInv(e: Engine, next: Kind)
    requires WellFormed(e.board) && CatalogueOk(e.factory) && e.board.width == GridWidth && e.board.height == GridHeight
    requires |e.preview| == PreviewLength && e.fallSpeed >= 10 && e.fallTimer >= 0 && Consistent(e.scores)
    ensures Inv(Spawn(e, next))
  {
    var p := Spawned(e.factory, e.preview[0]);
    assert SpawnReady(p.definition);
    assert Valid(p) && p.y >= 0;
    SpawnSpec(e, next);
  }

  /** `_initialize_game` yields a fresh game: an empty grid of the same size,
      the initial scores, no game over, no pause, timer 0, the speed kept,
      the first drawn kind as the piece and the rest followed by `next` as
      the queue. */
  lemma InitializeFresh(e: Engine, refill: Refill, next: Kind)
    requires WellFormed(e.board) && Stocked(e.factory)
    ensures var e1 := Initialize(e, refill, next);
      e1.board == EmptyBoard(e.board.width, e.board.height) &&
      e1.scores == Initial && !e1.gameOver && !e1.paused && e1.fallTimer == 0 &&
      e1.fallSpeed == e.fallSpeed && e1.factory == e.factory &&
      e1.current == Some(Spawned(e.factory, refill[0])) && e1.preview == refill[1..] + [next]
  {
    SpawnSpec(e.(preview := refill), next);
  }

  /** On a 10x20 grid with a valid speed, `_initialize_game` establishes the
      invariant, whatever the grid held before: the spawned piece fits the
      cleared grid. */
  lemma InitializeEstablishesInv(e: Engine, refill: Refill, next: Kind)
    requires WellFormed(e.board) && CatalogueOk(e.factory) && e.board.width == GridWidth && e.board.height == GridHeight
    requires e.fallSpeed >= 10
    ensures Inv(Initialize(e, refill, next))
  {
    var k := refill[0];
    InitializeFresh(e, refill, next);
    assert SpawnReady(e.factory.definitions[k]);
    SpawnFitsEmpty(e.factory, k);
    InitialConsistent();
    assert EmptyBoard(e.board.width, e.board.height) == EmptyBoard(10, 20);
  }

  /** While the game is on, locking the piece never fails to place it: it
      fits and lies at or below the top row. */
  lemma LockInPlaySucceeds(e: Engine)
    requires Inv(e) && !e.gameOver
    ensures var p := e.current.value;
      Place(e.board, Shape(p), p.x, p.y, Code(p)).ok
  {
    var p := e.current.value;
    var m := Shape(p);
    PlaceSucceedsIff(e.board, m, p.x, p.y, Code(p));
  }

  /** Unfolds a lock whose placement succeeds. */
  lemma LockPlaced(e: Engine, next: Kind)
    requires WellFormed(e.board) && Stocked(e.factory) && e.current.Some?
    requires var p := e.current.value; Place(e.board, Shape(p), p.x, p.y, Code(p)).ok
    ensures WellFormed(Settled(e).board) && Settled(e).factory == e.factory
    ensures Lock(e, next) == Spawn(Settled(e), next)
  {
  }

  /** Settling keeps the grid's size, the queue, a speed of at least 10 and
      consistent scores. */
  lemma SettledKeeps(e: Engine)
    requires Inv(e)
    ensures var s := Settled(e);
      WellFormed(s.board) && s.board.width == GridWidth && s.board.height == GridHeight &&
      |s.preview| == PreviewLength && s.fallSpeed >= 10 && s.fallTimer >= 0 && Consistent(s.scores)
  {
    var p := e.current.value;
    var m := Shape(p);
    assert m == p.definition.rotationStates[p.rotation];
    assert BlockCount(m) == 4;
    ShapeScoreExact(e.scores, BlockCount(m));
    var scored := AddShapeScore(e.scores, BlockCount(m));
    var placed := Place(e.board, m, p.x, p.y, Code(p));
    var rows := FullRows(placed.board);
    if |rows| > 0 {
      LineClearSpec(scored, |rows|);
    }
  }

  /** Locking while the game is on keeps the invariant: the placed piece's
      full rows are removed, the cleared lines are scored and set the speed,
      and the next piece spawns. */
  lemma LockKeepsInv(e: Engine, next: Kind)
    requires Inv(e) && !e.gameOver
    ensures Inv(Lock(e, next))
  {
    LockInPlaySucceeds(e);
    LockPlaced(e, next);
    SettledKeeps(e);
    SpawnKeepsInv(Settled(e), next);
  }

  /** A lock that cannot place the piece still adds its shape score, keeps
      the cells it wrote, keeps the piece and ends the game. */
  lemma LockFailure(e: Engine, next: Kind)
    requires WellFormed(e.board) && Stocked(e.factory) && e.current.Some?
    requires var p := e.current.value; !Place(e.board, Shape(p), p.x, p.y, Code(p)).ok
    ensures var p := e.current.value; var l := Lock(e, next);
      l.gameOver && l.current == e.current && l.preview == e.preview &&
      l.scores == AddShapeScore(e.scores, BlockCount(Shape(p))) &&
      l.board == Place(e.board, Shape(p), p.x, p.y, Code(p)).board
  {
  }

  /** A lock while the game is on adds the full rows of the placed grid to
      the line count, leaves the grid with those rows removed, and sets the
      speed for the new level exactly when some row was cleared. */
  lemma LockClears(e: Engine, next: Kind)
    requires Inv(e) && !e.gameOver
    ensures var p := e.current.value;
      var placed := Place(e.board, Shape(p), p.x, p.y, Code(p)).board;
      var rows := FullRows(placed);
      var l := Lock(e, next);
      l.scores.linesCleared == e.scores.linesCleared + |rows| &&
      l.board == (if |rows| > 0 then RemoveLines(placed, rows) else placed) &&
      l.fallSpeed == (if |rows| > 0 then FallSpeedFor(l.scores.level) else e.fallSpeed) &&
      l.fallSpeed >= 10
  {
    LockInPlaySucceeds(e);
    LockPlaced(e, next);
    SettledClears(e);
    SettledKeeps(e);
    SpawnSpec(Settled(e), next);
  }

  /** Settling scores the full rows of the placed piece, removes them and
      sets the speed for the new level. */
  lemma SettledClears(e: Engine)
    requires Inv(e) && !e.gameOver
    ensures var p := e.current.value;
      var placed := Place(e.board, Shape(p), p.x, p.y, Code(p)).board;
      var rows := FullRows(placed);
      var s := Settled(e);
      s.scores.linesCleared == e.scores.linesCleared + |rows| &&
      s.board == (if |rows| > 0 then RemoveLines(placed, rows) else placed) &&
      s.fallSpeed == (if |rows| > 0 then FallSpeedFor(s.scores.level) else e.fallSpeed)
  {
    var p := e.current.value;
    var m := Shape(p);
    assert m == p.definition.rotationStates[p.rotation];
    assert BlockCount(m) == 4;
    ShapeScoreExact(e.scores, 4);
    var scored := AddShapeScore(e.scores, 4);
    var placed := Place(e.board, m, p.x, p.y, Code(p));
    var rows := FullRows(placed.board);
    if |rows| > 0 {
      LineClearSpec(scored, |rows|);
    }
  }

  /** Settling a fitting piece adds at least its 40-point shape score and
      never lowers the line count, level or combo. */
  lemma SettledScoresGrow(e: Engine)
    requires Inv(e) && !e.gameOver
    ensures var s := Settled(e).scores;
      s.score >= e.scores.score + 40 && s.linesCleared >= e.scores.linesCleared &&
      s.level >= e.scores.level && s.combo >= e.scores.combo
  {
    var p := e.current.value;
    var m := Shape(p);
    assert m == p.definition.rotationStates[p.rotation];
    assert BlockCount(m) == 4;
    ShapeScoreExact(e.scores, 4);
    ConsistentLevel(e.scores);
    var scored := AddShapeScore(e.scores, 4);
    var placed := Place(e.board, m, p.x, p.y, Code(p));
    var rows := FullRows(placed.board);
    if |rows| > 0 {
      LineClearGrows(scored, |rows|);
    }
  }

  /** A lock while the game is on never lowers the score, the line count,
      the level or the combo: the combo is never reset in play. */
  lemma LockScoresGrow(e: Engine, next: Kind)
    requires Inv(e) && !e.gameOver
    ensures var l := Lock(e, next).scores;
      l.score >= e.scores.score + 40 && l.linesCleared >= e.scores.linesCleared &&
      l.level >= e.scores.level && l.combo >= e.scores.combo
  {
    LockInPlaySucceeds(e);
    LockPlaced(e, next);
    SettledKeeps(e);
    SpawnKeepsScores(Settled(e), next);
    SettledScoresGrow(e);
  }

  /** A spawn never touches the scores. */
  lemma SpawnKeepsScores(e: Engine, next: Kind)
    requires WellFormed(e.board) && Stocked(e.factory)
    ensures Spawn(e, next).scores == e.scores
  {
  }

  /** While paused or over, a tick changes nothing. */
  lemma TickFrozen(e: Engine, next: Kind)
    requires WellFormed(e.board) && Stocked(e.factory) && (e.paused || e.gameOver)
    ensures Tick(e, next) == e
  {
  }

  /** The movement command keeps a valid piece valid, fitting and at or
      below the top row. */
  lemma ShiftedKeepsFit(b: Board, p: PieceState, cmd: Commands)
    requires WellFormed(b) && Valid(p) && Fits(b, p) && p.y >= 0
    ensures var q := Shifted(b, p, cmd);
      Valid(q) && Fits(b, q) && q.y >= p.y && q.kind == p.kind && q.definition == p.definition
  {
    if cmd.left {
      MoveSpec(b, p, -1, 0);
    } else if cmd.right {
      MoveSpec(b, p, 1, 0);
    } else if cmd.down {
      MoveSpec(b, p, 0, 1);
    }
  }

  /** The rotation command keeps a valid piece valid, fitting and in its row. */
  lemma TurnedKeepsFit(b: Board, p: PieceState, cmd: Commands)
    requires WellFormed(b) && Valid(p) && Fits(b, p)
    ensures var q := Turned(b, p, cmd);
      Valid(q) && Fits(b, q) && q.y == p.y && q.kind == p.kind && q.definition == p.definition
  {
    if cmd.rotateCw {
      RotateSpec(b, p, 1);
    } else if cmd.rotateCcw {
      RotateSpec(b, p, -1);
    }
  }

  /** Moving and turning keep a valid piece valid, fitting and at or below
      the top row. */
  lemma CommandsKeepFit(b: Board, p: PieceState, cmd: Commands)
    requires WellFormed(b) && Valid(p) && Fits(b, p) && p.y >= 0
    ensures var q := Turned(b, Shifted(b, p, cmd), cmd);
      Valid(q) && Fits(b, q) && q.y >= p.y && q.kind == p.kind && q.definition == p.definition
  {
    ShiftedKeepsFit(b, p, cmd);
    TurnedKeepsFit(b, Shifted(b, p, cmd), cmd);
  }

  /** A tick that reaches the fall speed and cannot move the piece locks it
      and restarts the count. */
  lemma TickLocks(e: Engine, next: Kind)
    requires WellFormed(e.board) && Stocked(e.factory) && !e.paused && !e.gameOver && e.current.Some?
    requires e.fallTimer + 1 >= e.fallSpeed && CollidesAt(e.board, e.current.value, 0, 1)
    ensures Tick(e, next) == Lock(CountFrame(e), next).(fallTimer := 0)
  {
    var e1 := CountFrame(e);
    assert e1.board == e.board && e1.current == e.current;
    assert !Move(e1.board, e1.current.value, 0, 1).ok;
  }

  /** A tick that reaches the fall speed and can move the piece moves it
      one row down and restarts the count. */
  lemma TickFalls(e: Engine, next: Kind)
    requires WellFormed(e.board) && Stocked(e.factory) && !e.paused && !e.gameOver && e.current.Some?
    requires e.fallTimer + 1 >= e.fallSpeed && !CollidesAt(e.board, e.current.value, 0, 1)
    ensures var p := e.current.value;
      Tick(e, next) == e.(current := Some(p.(y := p.y + 1)), fallTimer := 0)
  {
  }

  /** A tick below the fall speed only counts the frame. */
  lemma TickCounts(e: Engine, next: Kind)
    requires WellFormed(e.board) && Stocked(e.factory) && !e.paused && !e.gameOver && e.current.Some?
    requires e.fallTimer + 1 < e.fallSpeed
    ensures Tick(e, next) == CountFrame(e) && CountFrame(e).fallTimer == e.fallTimer + 1
  {
  }

  /** Counting a frame keeps the invariant and the game-over flag. */
  lemma CountFrameKeepsInv(e: Engine)
    requires Inv(e)
    ensures Inv(CountFrame(e)) && CountFrame(e).gameOver == e.gameOver
  {
  }

  /** A tick that locks the piece keeps the invariant. */
  lemma TickLockKeepsInv(e: Engine, next: Kind)
    requires Inv(e) && !e.paused && !e.gameOver
    requires e.fallTimer + 1 >= e.fallSpeed && CollidesAt(e.board, e.current.value, 0, 1)
    ensures Inv(Tick(e, next))
  {
    CountFrameKeepsInv(e);
    TickLocks(e, next);
    LockKeepsInv(CountFrame(e), next);
  }

  /** A tick that moves the piece down keeps the invariant. */
  lemma TickFallKeepsInv(e: Engine, next: Kind)
    requires Inv(e) && !e.paused && !e.gameOver
    requires e.fallTimer + 1 >= e.fallSpeed && !CollidesAt(e.board, e.current.value, 0, 1)
    ensures Inv(Tick(e, next))
  {
    var p := e.current.value;
    TickFalls(e, next);
    MoveSpec(e.board, p, 0, 1);
    assert Move(e.board, p, 0, 1).piece == p.(y := p.y + 1);
  }

  /** A tick keeps the invariant. */
  lemma TickKeepsInv(e: Engine, next: Kind)
    requires Inv(e)
    ensures Inv(Tick(e, next))
  {
    if e.gameOver || e.paused {
      TickFrozen(e, next);
    } else if e.fallTimer + 1 < e.fallSpeed {
      TickCounts(e, next);
      CountFrameKeepsInv(e);
    } else {
      var p := e.current.value;
      if CollidesAt(e.board, p, 0, 1) {
        TickLockKeepsInv(e, next);
      } else {
        TickFallKeepsInv(e, next);
      }
    }
  }

  /** Steering keeps the piece valid and fitting, at or below the top row. */
  lemma SteeredKeepsInv(e: Engine, cmd: Commands)
    requires Inv(e) && !e.gameOver
    ensures Inv(e.(current := Some(Steered(e, cmd))))
  {
    CommandsKeepFit(e.board, e.current.value, cmd);
  }

  /** A hard drop keeps the piece valid and fitting, and touches neither the
      game-over flag nor the scores. */
  lemma DroppedKeepsInv(e: Engine)
    requires Inv(e) && !e.gameOver
    ensures var d := Dropped(e); Inv(d) && !d.gameOver && d.scores == e.scores
  {
    var p := e.current.value;
    var q := HardDrop(e.board, p);
    HardDropIdempotent(e.board, p);
    HardDropSpec(e.board, p);
    var d := Dropped(e);
    assert d == e.(current := Some(q));
    assert Valid(q) && Fits(e.board, q) && q.y >= 0;
  }

  /** A frame's commands keep the invariant. */
  lemma HandleInputKeepsInv(e: Engine, cmd: Commands, refill: Refill, next: Kind)
    requires Inv(e)
    ensures PieceShaped(e) && Inv(HandleInput(e, cmd, refill, next))
  {
    if cmd.restart {
      InitializeEstablishesInv(e, refill, next);
    } else {
      InputCases(e, cmd, refill, next);
      var e1 := e.(paused := e.paused != cmd.pause);
      if !e1.gameOver && !e1.paused {
        var e2 := e1.(current := Some(Steered(e1, cmd)));
        SteeredKeepsInv(e1, cmd);
        if cmd.hardDrop {
          DroppedKeepsInv(e2);
          LockKeepsInv(Dropped(e2), next);
        }
      }
    }
  }

  /** Once the game is over, only a restart or the pause toggle changes
      anything, and a tick changes nothing. */
  lemma GameOverFrozen(e: Engine, cmd: Commands, refill: Refill, next: Kind)
    requires WellFormed(e.board) && Stocked(e.factory) && PieceShaped(e) && e.gameOver && !cmd.restart
    ensures HandleInput(e, cmd, refill, next) == e.(paused := e.paused != cmd.pause)
    ensures Tick(e, next) == e
  {
  }

  /** A tick never lowers the score, lines, level or combo. */
  lemma TickScoresGrow(e: Engine, next: Kind)
    requires Inv(e)
    ensures var t := Tick(e, next).scores;
      t.score >= e.scores.score && t.linesCleared >= e.scores.linesCleared &&
      t.level >= e.scores.level && t.combo >= e.scores.combo
  {
    if e.gameOver || e.paused {
      TickFrozen(e, next);
    } else if e.fallTimer + 1 < e.fallSpeed {
      TickCounts(e, next);
    } else if CollidesAt(e.board, e.current.value, 0, 1) {
      TickLocks(e, next);
      LockScoresGrow(CountFrame(e), next);
    } else {
      TickFalls(e, next);
    }
  }

  /** Without a restart, a frame's commands never lower the score, lines,
      level or combo. */
  lemma InputScoresGrow(e: Engine, cmd: Commands, refill: Refill, next: Kind)
    requires Inv(e) && !cmd.restart
    ensures PieceShaped(e)
    ensures var h := HandleInput(e, cmd, refill, next).scores;
      h.score >= e.scores.score && h.linesCleared >= e.scores.linesCleared &&
      h.level >= e.scores.level && h.combo >= e.scores.combo
  {
    InputCases(e, cmd, refill, next);
    var e1 := e.(paused := e.paused != cmd.pause);
    if !e1.gameOver && !e1.paused && cmd.hardDrop {
      var e2 := e1.(current := Some(Steered(e1, cmd)));
      SteeredKeepsInv(e1, cmd);
      DroppedKeepsInv(e2);
      LockScoresGrow(Dropped(e2), next);
    }
  }

  /** A frame whose commands leave the game paused changes nothing but the
      pause flag. */
  lemma PausedFrameOnlyPauses(e: Engine, cmd: Commands, refill: Refill, next: Kind)
    requires WellFormed(e.board) && Stocked(e.factory) && PieceShaped(e)
    requires !cmd.restart && e.paused != cmd.pause
    ensures HandleInput(e, cmd, refill, next) == e.(paused := true)
  {
    InputCases(e, cmd, refill, next);
  }

  /** A frame without restart or hard drop only steers the piece and toggles
      the pause flag: the grid, scores, queue, timer, speed and game-over
      flag stay as they were. */
  lemma QuietFrameKeepsGame(e: Engine, cmd: Commands, refill: Refill, next: Kind)
    requires WellFormed(e.board) && Stocked(e.factory) && PieceShaped(e)
    requires !cmd.restart && !cmd.hardDrop
    ensures var h := HandleInput(e, cmd, refill, next);
      h.board == e.board && h.scores == e.scores && h.preview == e.preview &&
      h.fallTimer == e.fallTimer && h.fallSpeed == e.fallSpeed &&
      h.gameOver == e.gameOver && h.factory == e.factory &&
      h.paused == (e.paused != cmd.pause)
  {
    InputCases(e, cmd, refill, next);
  }

  /** One pass of the loop in `run`, drawing aside: the frame's input, then
      one step of game logic. Each may spawn a piece, so each has its own
      newly drawn kind. */
  function Frame(e: Engine, cmd: Commands, refill: Refill, inputNext: Kind, tickNext: Kind): Engine
    requires Inv(e)
  {
    HandleInputKeepsInv(e, cmd, refill, inputNext);
    Tick(HandleInput(e, cmd, refill, inputNext), tickNext)
  }

  /** Every pass of the main loop keeps the engine invariant. */
  lemma FrameKeepsInv(e: Engine, cmd: Commands, refill: Refill, inputNext: Kind, tickNext: Kind)
    requires Inv(e)
    ensures Inv(Frame(e, cmd, refill, inputNext, tickNext))
  {
    HandleInputKeepsInv(e, cmd, refill, inputNext);
    TickKeepsInv(HandleInput(e, cmd, refill, inputNext), tickNext);
  }

  /** Without a restart, a pass of the main loop never lowers the score,
      lines, level or combo. */
  lemma FrameScoresGrow(e: Engine, cmd: Commands, refill: Refill, inputNext: Kind, tickNext: Kind)
    requires Inv(e) && !cmd.restart
    ensures var f := Frame(e, cmd, refill, inputNext, tickNext).scores;
      f.score >= e.scores.score && f.linesCleared >= e.scores.linesCleared &&
      f.level >= e.scores.level && f.combo >= e.scores.combo
  {
    HandleInputKeepsInv(e, cmd, refill, inputNext);
    InputScoresGrow(e, cmd, refill, inputNext);
    TickScoresGrow(HandleInput(e, cmd, refill, inputNext), tickNext);
  }
}
