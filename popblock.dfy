/** The mutable objects of the game: `GameGrid`, `ActiveTetromino`,
    `ScoreManager` and the non-I/O part of `TetrisGameEngine`, as classes whose
    methods update their fields in place. Every method is proved to leave its
    object in the state the matching function of the value modules gives. */
module PopBlock {
  import opened Shapes
  import opened Grid
  import opened Piece
  import opened Scoring
  import opened Session

  // ---------------------------------------------------------------------
  // The row-major scan of a matrix
  // ---------------------------------------------------------------------

  /** The offsets a row-major scan of `m` has still to visit when it stands
      at row `r`, column `c`. */
  function Pending(m: Matrix, r: nat, c: nat): seq<Offset> {
    if r >= |m| then [] else RowCoords(m[r], r, c) + CoordsFrom(m, r + 1)
  }

  lemma PendingStart(m: Matrix)
    ensures Pending(m, 0, 0) == Coords(m)
  {
  }

  /** Visiting entry (r, c) takes its offset off the front when it is occupied. */
  lemma PendingStep(m: Matrix, r: nat, c: nat)
    requires r < |m| && c < |m[r]|
    ensures Pending(m, r, c) == (if m[r][c] != 0 then [Offset(r, c)] else []) + Pending(m, r, c + 1)
  {
    var head := if m[r][c] != 0 then [Offset(r, c)] else [];
    var rest := RowCoords(m[r], r, c + 1);
    var below := CoordsFrom(m, r + 1);
    assert RowCoords(m[r], r, c) == head + rest;
    assert (head + rest) + below == head + (rest + below);
  }

  lemma PendingRowEnd(m: Matrix, r: nat)
    requires r < |m|
    ensures Pending(m, r, |m[r]|) == Pending(m, r + 1, 0)
  {
  }

  /** One entry of the placing scan. */
  lemma PlaceScanStep(b: Board, m: Matrix, r: nat, c: nat, x: int, y: int, code: char)
    requires WellFormed(b) && r < |m| && c < |m[r]|
    ensures PlaceFrom(b, Pending(m, r, c), x, y, code) ==
      if m[r][c] == 0 then PlaceFrom(b, Pending(m, r, c + 1), x, y, code)
      else if Free(b, x + c, y + r) then PlaceFrom(Paint(b, x + c, y + r, code), Pending(m, r, c + 1), x, y, code)
      else Placed(b, false)
  {
    var rest := Pending(m, r, c + 1);
    PendingStep(m, r, c);
    if m[r][c] != 0 {
      assert Pending(m, r, c) == [Offset(r, c)] + rest;
      PlaceFromCons(b, Offset(r, c), rest, x, y, code);
    } else {
      assert Pending(m, r, c) == rest;
    }
  }

  /** Deleting the rows from the `i`-th on is deleting the `i`-th, then the rest. */
  lemma RemoveSortedStep(b: Board, rows: seq<int>, i: nat)
    requires WellFormed(b) && i < |rows| && InRange(rows[i..], b.height)
    ensures 0 <= rows[i] < b.height && InRange(rows[i + 1..], b.height)
    ensures RemoveSorted(b, rows[i..]) == RemoveSorted(DeleteRow(b, rows[i]), rows[i + 1..])
  {
    assert rows[i..][0] == rows[i] && rows[i..][1..] == rows[i + 1..];
  }

  lemma PlaceFromCons(b: Board, o: Offset, rest: seq<Offset>, x: int, y: int, code: char)
    requires WellFormed(b)
    ensures PlaceFrom(b, [o] + rest, x, y, code) ==
      if Free(b, x + o.col, y + o.row) then PlaceFrom(Paint(b, x + o.col, y + o.row, code), rest, x, y, code)
      else Placed(b, false)
  {
    assert ([o] + rest)[0] == o && ([o] + rest)[1..] == rest;
  }

  // ---------------------------------------------------------------------
  // GameGrid
  // ---------------------------------------------------------------------

  class GameGrid {
    const width: nat
    const height: nat
    var cells: seq<seq<Cell>>

    function Board(): Board
      reads this
    {
      Grid.Board(width, height, cells)
    }

    /** `height` rows of `width` cells. */
    predicate Valid()
      reads this
    {
      WellFormed(Board())
    }

    /** `GameGrid(width, height)`: an empty grid of that size. */
    constructor (w: nat, h: nat)
      ensures Valid() && Board() == EmptyBoard(w, h)
    {
      width, height := w, h;
      cells := EmptyBoard(w, h).cells;
    }

    /** `clear`: every cell empty again, the size kept. */
    method Clear()
      modifies this
      ensures Valid() && Board() == EmptyBoard(width, height)
    {
      cells := EmptyBoard(width, height).cells;
    }

    /** `is_collision(t, dx, dy)`: the scan over the occupied entries of the
        piece's current matrix, in row-major order, stopping at the first
        one that lands outside the walls, below the floor or on a filled
        cell. */
    method IsCollision(t: ActiveTetromino, dx: int, dy: int) returns (hit: bool)
      requires Valid()
      ensures hit == CollidesAt(Board(), t.State(), dx, dy)
    {
      var m := t.CurrentShape();
      var px, py := t.x + dx, t.y + dy;
      ghost var b := Board();
      CollidesIff(b, m, px, py);
      var y := 0;
      while y < |m|
        invariant 0 <= y <= |m|
        invariant forall r, c :: 0 <= r < y && 0 <= c < |m[r]| && m[r][c] == 1 ==> !Blocked(b, px + c, py + r)
      {
        var row := m[y];
        var x := 0;
        while x < |row|
          invariant 0 <= x <= |row|
          invariant forall r, c :: 0 <= r < y && 0 <= c < |m[r]| && m[r][c] == 1 ==> !Blocked(b, px + c, py + r)
          invariant forall c :: 0 <= c < x && m[y][c] == 1 ==> !Blocked(b, px + c, py + y)
        {
          if row[x] != 0 {
            var gridX := t.x + x + dx;
            var gridY := t.y + y + dy;
            if gridX < 0 || gridX >= width || gridY >= height {
              assert Blocked(b, px + x, py + y);
              return true;
            }
            if gridY >= 0 && cells[gridY][gridX] != Empty {
              assert Blocked(b, px + x, py + y);
              return true;
            }
          }
          x := x + 1;
        }
        y := y + 1;
      }
      return false;
    }

    /** `place_tetromino(t)`: write the colour code into the target of each
        occupied entry, in row-major order, and stop with `false` at the first
        target that is outside the grid or not empty, keeping the cells
        already written. */
    method PlaceTetromino(t: ActiveTetromino) returns (ok: bool)
      requires Valid()
      modifies this
      ensures Valid()
      ensures var placed := Place(old(Board()), t.CurrentShape(), t.x, t.y, t.colorCode);
        Board() == placed.board && ok == placed.ok
    {
      var m := t.CurrentShape();
      var code := t.colorCode;
      var px, py := t.x, t.y;
      ghost var result := Place(Board(), m, px, py, code);
      PendingStart(m);
      var y := 0;
      while y < |m|
        invariant 0 <= y <= |m|
        invariant Valid()
        invariant PlaceFrom(Board(), Pending(m, y, 0), px, py, code) == result
      {
        var row := m[y];
        var x := 0;
        while x < |row|
          invariant 0 <= x <= |row|
          invariant Valid()
          invariant PlaceFrom(Board(), Pending(m, y, x), px, py, code) == result
        {
          PlaceScanStep(Board(), m, y, x, px, py, code);
          if row[x] != 0 {
            var gridX := px + x;
            var gridY := py + y;
            if 0 <= gridX < width && 0 <= gridY < height && cells[gridY][gridX] == Empty {
              ghost var painted := Paint(Board(), gridX, gridY, code);
              cells := cells[gridY := cells[gridY][gridX := Filled(code)]];
              assert Board() == painted;
            } else {
              return false;
            }
          }
          x := x + 1;
        }
        PendingRowEnd(m, y);
        y := y + 1;
      }
      return true;
    }

    /** `check_line_completions`: the indices of the full rows, top to bottom. */
    method CheckLineCompletions() returns (rows: seq<int>)
      requires Valid()
      ensures rows == FullRows(Board())
      ensures forall y :: y in rows <==> 0 <= y < height && RowFull(cells[y])
    {
      rows := [];
      var y := 0;
      while y < height
        invariant 0 <= y <= height
        invariant rows == FullRowsBelow(Board(), y)
      {
        if RowFull(cells[y]) {
          rows := rows + [y];
        }
        y := y + 1;
      }
      FullRowsSpec(Board());
    }

    /** `remove_lines(rows)`: in ascending order, delete each row and put an
        empty row on top. */
    method RemoveLines(rows: seq<int>)
      requires Valid() && InRange(rows, height)
      modifies this
      ensures Valid() && Board() == Grid.RemoveLines(old(Board()), rows)
    {
      SortRowsInRange(rows, height);
      var sorted := SortRows(rows);
      ghost var goal := RemoveSorted(Board(), sorted);
      assert goal == Grid.RemoveLines(Board(), rows);
      var i := 0;
      assert sorted[i..] == sorted;
      while i < |sorted|
        invariant 0 <= i <= |sorted|
        invariant Valid()
        invariant InRange(sorted[i..], height)
        invariant RemoveSorted(Board(), sorted[i..]) == goal
      {
        var row := sorted[i];
        RemoveSortedStep(Board(), sorted, i);
        ghost var deleted := DeleteRow(Board(), row);
        cells := cells[..row] + cells[row + 1..];
        cells := [EmptyRow(width)] + cells;
        assert Board() == deleted;
        i := i + 1;
      }
      assert sorted[i..] == [];
    }
  }

  // ---------------------------------------------------------------------
  // ActiveTetromino
  // ---------------------------------------------------------------------

  class ActiveTetromino {
    const kind: Kind
    /** The definition looked up in the factory when the piece was made. */
    const definition: Definition
    /** `color_code`, fixed by the kind. */
    const colorCode: char := ColorCode(kind)
    var rotation: Rotation
    var x: int
    var y: int

    function State(): PieceState
      reads this
    {
      PieceState(kind, definition, rotation, x, y)
    }

    /** `get_current_shape`: the matrix of the current rotation state. */
    function CurrentShape(): Matrix
      reads this
    {
      Shape(State())
    }

    /** `ActiveTetromino(k, factory)`: the factory's definition of `k`, rotation
        0, position [4, 0]. */
    constructor (k: Kind, f: Factory)
      requires k in f.definitions
      ensures State() == Spawned(f, k) && colorCode == Code(State())
    {
      kind := k;
      definition := GetDefinition(f, k);
      rotation := 0;
      x, y := SpawnX, SpawnY;
    }

    /** `rotate(direction, grid)`: step the rotation index, and step it back
        if the new state collides. */
    method Rotate(direction: int, grid: GameGrid) returns (ok: bool)
      requires grid.Valid()
      modifies this
      ensures var s := Piece.Rotate(grid.Board(), old(State()), direction);
        State() == s.piece && ok == s.ok
    {
      var oldRotation := rotation;
      if direction > 0 {
        rotation := (rotation + 1) % 4;
      } else {
        rotation := (rotation - 1) % 4;
      }
      var hit := grid.IsCollision(this, 0, 0);
      if hit {
        rotation := oldRotation;
        return false;
      }
      return true;
    }

    /** `move(dx, dy, grid)`: shift the position unless that collides. */
    method Move(dx: int, dy: int, grid: GameGrid) returns (ok: bool)
      requires grid.Valid()
      modifies this
      ensures var s := Piece.Move(grid.Board(), old(State()), dx, dy);
        State() == s.piece && ok == s.ok
    {
      var hit := grid.IsCollision(this, dx, dy);
      if !hit {
        x := x + dx;
        y := y + dy;
        return true;
      }
      return false;
    }

    /** `hard_drop(grid)`: move down one row while that does not collide. */
    method HardDrop(grid: GameGrid)
      requires grid.Valid() && WellShaped(definition)
      modifies this
      ensures State() == Piece.HardDrop(grid.Board(), old(State()))
    {
      ghost var b := grid.Board();
      ghost var m := CurrentShape();
      assert m == definition.rotationStates[rotation];
      ghost var start := y;
      ghost var bound := if y < b.height then b.height else y;
      var moved := true;
      while moved
        invariant State() == old(State()).(y := y) && CurrentShape() == m
        invariant start <= y <= bound
        invariant forall y' :: start < y' <= y ==> !Collides(b, m, x, y')
        invariant !moved ==> Collides(b, m, x, y + 1)
        decreases bound - y + (if moved then 1 else 0)
      {
        if !Collides(b, m, x, y + 1) {
          FloorBound(b, m, x, y + 1);
        }
        moved := Move(0, 1, grid);
      }
      DropRowEnds(b, m, x, start, y);
    }
  }

  // ---------------------------------------------------------------------
  // ScoreManager
  // ---------------------------------------------------------------------

  class ScoreManager {
    var score: int
    var level: int
    var linesCleared: int
    var combo: int
    /** `multiplier`, in tenths. */
    var tenths: int

    function State(): ScoreState
      reads this
    {
      ScoreState(score, level, linesCleared, combo, tenths)
    }

    /** `ScoreManager()`: score 0, level 1, no lines, no combo, multiplier 1.0. */
    constructor ()
      ensures State() == Initial
    {
      score, level, linesCleared, combo, tenths := 0, 1, 0, 0, 10;
    }

    /** `add_shape_score(t)`: ten points per occupied cell of the piece's
        current matrix, times the multiplier, truncated. */
    method AddShapeScore(t: ActiveTetromino)
      modifies this
      ensures State() == Scoring.AddShapeScore(old(State()), BlockCount(t.CurrentShape()))
    {
      var blockCount := BlockCount(t.CurrentShape());
      score := score + TruncTenths(blockCount * 10 * tenths);
    }

    /** `add_line_clear_score(n)`. */
    method AddLineClearScore(linesCount: int)
      modifies this
      ensures State() == Scoring.AddLineClearScore(old(State()), linesCount)
    {
      var baseScore := LineBase(linesCount);
      var comboBonus := combo * 50;
      score := score + TruncTenths((baseScore + comboBonus) * tenths);
      linesCleared := linesCleared + linesCount;
      if linesCount > 0 {
        combo := combo + 1;
      } else {
        combo := 0;
      }
      level := linesCleared / 10 + 1;
      tenths := 10 + (level - 1);
    }

    /** `reset`: back to the initial state. */
    method Reset()
      modifies this
      ensures State() == Initial
    {
      score, level, linesCleared, combo, tenths := 0, 1, 0, 0, 10;
    }
  }

  // ---------------------------------------------------------------------
  // TetrisGameEngine
  // ---------------------------------------------------------------------

  /** The engine as `__init__` leaves it just before `_initialize_game`: a new
      factory, an empty 10x20 grid, no piece, an empty queue, fresh scores,
      the flags off, timer 0 and speed 60. */
  function Constructed(): (e: Engine)
    ensures WellFormed(e.board) && Stocked(e.factory) && CatalogueOk(e.factory)
  {
    NewFactoryOk();
    Engine(NewFactory(), EmptyBoard(GridWidth, GridHeight), None, [], Initial, false, false, 0, FallTimeBase)
  }

  /** A newly constructed engine satisfies the invariant once initialised. */
  lemma ConstructedInv(refill: Refill, next: Kind)
    ensures Inv(Session.Initialize(Constructed(), refill, next))
  {
    InitializeEstablishesInv(Constructed(), refill, next);
  }

  class GameEngine {
    /** `tetromino_factory`: built once, then only read. */
    const factory: Factory
    const grid: GameGrid
    const scoreManager: ScoreManager
    /** `current_tetromino`, `None` until the first spawn. */
    var current: ActiveTetromino?
    /** `preview_shapes`. */
    var preview: seq<Kind>
    var gameOver: bool
    var paused: bool
    var fallTimer: int
    var fallSpeed: int

    /** The engine's fields as a value. */
    function State(): Engine
      reads this, grid, scoreManager, current
    {
      Engine(factory, grid.Board(), if current == null then None else Some(current.State()),
        preview, scoreManager.State(), gameOver, paused, fallTimer, fallSpeed)
    }

    /** A well-formed grid and a factory that holds every kind. */
    predicate Valid()
      reads this, grid
    {
      grid.Valid() && Stocked(factory)
    }

    /** `__init__` without the window, clock and audio: the 10 kinds of the
        first queue and the kind drawn at the first spawn are parameters. */
    constructor (refill: Refill, next: Kind)
      ensures Valid() && State() == Session.Initialize(Constructed(), refill, next)
      ensures Inv(State())
    {
      factory := NewFactory();
      scoreManager := new ScoreManager();
      grid := new GameGrid(GridWidth, GridHeight);
      current := null;
      preview := [];
      gameOver := false;
      paused := false;
      fallTimer := 0;
      fallSpeed := FallTimeBase;
      new;
      NewFactoryOk();
      Initialize(refill, next);
      ConstructedInv(refill, next);
    }

    /** `_initialize_game`: a new queue, a spawn against the grid as it
        stands, then the flags, timer, scores and grid reset. */
    method Initialize(refill: Refill, next: Kind)
      requires Valid()
      modifies this, grid, scoreManager
      ensures Valid() && State() == Session.Initialize(old(State()), refill, next)
      ensures current == old(current) || fresh(current)
    {
      preview := refill;
      GetNextTetromino(next);
      gameOver := false;
      paused := false;
      fallTimer := 0;
      scoreManager.Reset();
      grid.Clear();
    }

    /** `_on_line_cleared`: score the lines, then set the fall speed for the
        new level, never below 10. */
    method OnLineCleared(linesCount: int)
      modifies this, scoreManager
      ensures State() == Session.OnLineCleared(old(State()), linesCount)
      ensures current == old(current)
    {
      scoreManager.AddLineClearScore(linesCount);
      var speed := FallTimeBase - (scoreManager.level - 1) * 5;
      fallSpeed := if 10 >= speed then 10 else speed;
    }

    /** `_on_game_over`. */
    method OnGameOver()
      modifies this
      ensures State() == old(State()).(gameOver := true)
      ensures current == old(current)
    {
      gameOver := true;
    }

    /** `_get_next_tetromino`. */
    method GetNextTetromino(next: Kind)
      requires Valid()
      modifies this
      ensures Valid() && State() == Spawn(old(State()), next)
      ensures current == old(current) || fresh(current)
    {
      if |preview| > 0 {
        var nextShape := preview[0];
        preview := preview[1..];
        current := new ActiveTetromino(nextShape, factory);
        preview := preview + [next];
        var hit := grid.IsCollision(current, 0, 0);
        if hit {
          OnGameOver();
        }
      } else {
        OnGameOver();
      }
    }

    /** `_lock_current_tetromino`. */
    method LockCurrentTetromino(next: Kind)
      requires Valid()
      modifies this, grid, scoreManager
      ensures Valid() && State() == Lock(old(State()), next)
      ensures current == old(current) || fresh(current)
    {
      ghost var e := State();
      if current != null {
        ghost var p := current.State();
        ghost var placed := Place(e.board, Shape(p), p.x, p.y, Code(p));
        ghost var e1 := Scored(e);
        scoreManager.AddShapeScore(current);
        var success := grid.PlaceTetromino(current);
        assert State() == e1;
        if !success {
          assert Lock(e, next) == e1.(gameOver := true);
          OnGameOver();
          return;
        }
        LockPlaced(e, next);
        var completedRows := grid.CheckLineCompletions();
        if |completedRows| > 0 {
          grid.RemoveLines(completedRows);
          OnLineCleared(|completedRows|);
        }
        assert State() == Cleared(e1);
        GetNextTetromino(next);
      }
    }

    /** `_update_game_logic`. */
    method UpdateGameLogic(next: Kind)
      requires Valid()
      modifies this, grid, scoreManager, current
      ensures Valid() && State() == Tick(old(State()), next)
    {
      if gameOver || paused || current == null {
        return;
      }
      ghost var e := State();
      fallTimer := fallTimer + 1;
      assert State() == CountFrame(e);
      if fallTimer >= fallSpeed {
        var moved := current.Move(0, 1, grid);
        if !moved {
          TickLocks(e, next);
          LockCurrentTetromino(next);
        } else {
          TickFalls(e, next);
        }
        fallTimer := 0;
      } else {
        TickCounts(e, next);
      }
    }

    /** The movement and rotation part of `_handle_input`: at most one of
        left, right and down, then at most one of the two rotations. */
    method Steer(piece: ActiveTetromino, cmd: Commands)
      requires grid.Valid()
      modifies piece
      ensures piece.State() == Turned(grid.Board(), Shifted(grid.Board(), old(piece.State()), cmd), cmd)
    {
      var moved, turned;
      if cmd.left {
        moved := piece.Move(-1, 0, grid);
      } else if cmd.right {
        moved := piece.Move(1, 0, grid);
      } else if cmd.down {
        moved := piece.Move(0, 1, grid);
      }
      assert piece.State() == Shifted(grid.Board(), old(piece.State()), cmd);
      if cmd.rotateCw {
        turned := piece.Rotate(1, grid);
      } else if cmd.rotateCcw {
        turned := piece.Rotate(-1, grid);
      }
    }

    /** `_handle_input` for one frame's commands. */
    method HandleInput(cmd: Commands, refill: Refill, next: Kind)
      requires Valid() && PieceShaped(State())
      modifies this, grid, scoreManager, current
      ensures Valid() && State() == Session.HandleInput(old(State()), cmd, refill, next)
      ensures current == old(current) || fresh(current)
    {
      if cmd.restart {
        Initialize(refill, next);
        return;
      }
      ghost var e := State();
      InputCases(e, cmd, refill, next);
      if cmd.pause {
        paused := !paused;
      }
      ghost var e1 := e.(paused := e.paused != cmd.pause);
      assert State() == e1;
      if gameOver || paused || current == null {
        return;
      }
      Steer(current, cmd);
      ghost var e2 := e1.(current := Some(Steered(e1, cmd)));
      assert State() == e2;
      if cmd.hardDrop {
        current.HardDrop(grid);
        assert State() == Dropped(e2);
        LockCurrentTetromino(next);
      }
    }
  
    /** One pass of the loop in `run`, event polling and drawing aside: the
        frame's input, then one step of game logic. */
    method RunFrame(cmd: Commands, refill: Refill, inputNext: Kind, tickNext: Kind)
      requires Valid() && Inv(State())
      modifies this, grid, scoreManager, current
      ensures Valid() && State() == Frame(old(State()), cmd, refill, inputNext, tickNext)
    {
      ghost var e := State();
      HandleInputKeepsInv(e, cmd, refill, inputNext);
      ghost var h := Session.HandleInput(e, cmd, refill, inputNext);
      assert Frame(e, cmd, refill, inputNext, tickNext) == Tick(h, tickNext);
      HandleInput(cmd, refill, inputNext);
      assert State() == h;
      UpdateGameLogic(tickNext);
    }
  }
}
