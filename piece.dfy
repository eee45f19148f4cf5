/** The active piece of `ActiveTetromino` as a value: its kind, rotation
    index and position, and the guarded moves, rotations and the hard drop. */
module Piece {
  import opened Shapes
  import opened Grid

  /** `rotation_index`, always one of the four states. */
  type Rotation = r: int | 0 <= r < 4

  /** An `ActiveTetromino`: its kind, the definition it looked up when it
      was created, its rotation index and its position. */
  datatype PieceState = PieceState(kind: Kind, definition: Definition, rotation: Rotation, x: int, y: int)

  const SpawnX: int := 4
  const SpawnY: int := 0

  /** A fresh `ActiveTetromino`: the definition the factory holds for the
      kind, rotation 0, position [4, 0]. */
  function Spawned(f: Factory, k: Kind): PieceState
    requires k in f.definitions
  {
    PieceState(k, GetDefinition(f, k), 0, SpawnX, SpawnY)
  }

  /** Four rotation states, all rectangular with four cells. */
  predicate WellShaped(d: Definition) {
    |d.rotationStates| == 4 &&
    forall i :: 0 <= i < 4 ==> Rectangular(d.rotationStates[i]) && BlockCount(d.rotationStates[i]) == 4
  }

  /** Each rotation state is the clockwise turn of the one before, and the
      first is the turn of the last. */
  predicate Cycles(d: Definition) {
    var st := d.rotationStates;
    |st| == 4 &&
    st[1] == RotateCW(st[0]) && st[2] == RotateCW(st[1]) &&
    st[3] == RotateCW(st[2]) && st[0] == RotateCW(st[3])
  }

  /** A piece whose definition has the shape of every catalogue entry. */
  predicate Valid(p: PieceState) {
    WellShaped(p.definition) && Cycles(p.definition)
  }

  /** A definition a fresh piece can use: well shaped, cycling, and with a
      first state of at most 2 rows by 4 columns. */
  predicate SpawnReady(d: Definition) {
    WellShaped(d) && Cycles(d) &&
    |d.rotationStates[0]| <= 2 && |d.rotationStates[0][0]| <= 4
  }

  /** The factory holds every kind. */
  predicate Stocked(f: Factory) {
    forall k: Kind :: k in f.definitions
  }

  /** The factory holds every kind, each with a definition a fresh piece can use. */
  predicate CatalogueOk(f: Factory) {
    forall k: Kind :: k in f.definitions && SpawnReady(f.definitions[k])
  }

  /** A new factory holds every kind, and every definition in it can be used
      by a fresh piece. */
  lemma NewFactoryOk()
    ensures Stocked(NewFactory()) && CatalogueOk(NewFactory())
  {
    forall k: Kind
      ensures k in NewFactory().definitions && SpawnReady(NewFactory().definitions[k])
    {
      NewFactoryLookup(k);
      DefinitionFacts(k);
      BaseMatrixShape(k);
    }
  }

  /** `get_current_shape`: the matrix of the current rotation state. The
      empty matrix for an index past the states has no counterpart in the
      source: every definition has four states and `Turn` keeps the index
      below four, so no piece of the engine reaches that branch. */
  function Shape(p: PieceState): Matrix {
    var states := p.definition.rotationStates;
    if p.rotation < |states| then states[p.rotation] else []
  }

  /** `color_code`. */
  function Code(p: PieceState): char {
    ColorCode(p.kind)
  }

  /** `grid.is_collision(p, dx, dy)`. */
  predicate CollidesAt(b: Board, p: PieceState, dx: int, dy: int)
    requires WellFormed(b)
  {
    Collides(b, Shape(p), p.x + dx, p.y + dy)
  }

  /** The piece stands where no occupied cell of it is blocked. */
  predicate Fits(b: Board, p: PieceState)
    requires WellFormed(b)
  {
    !CollidesAt(b, p, 0, 0)
  }

  /** `move(dx, dy)`: the new piece and the returned flag. */
  datatype Step = Step(piece: PieceState, ok: bool)

  function Move(b: Board, p: PieceState, dx: int, dy: int): (s: Step)
    requires WellFormed(b)
  {
    if !CollidesAt(b, p, dx, dy) then Step(p.(x := p.x + dx, y := p.y + dy), true)
    else Step(p, false)
  }

  /** `move` shifts the position by exactly (dx, dy) when there is no
      collision at that offset and otherwise changes nothing; the kind and
      rotation never change, and a piece that moved fits where it lands and
      differs from the old one in its position only. */
  lemma MoveSpec(b: Board, p: PieceState, dx: int, dy: int)
    requires WellFormed(b)
    ensures Move(b, p, dx, dy).ok <==> !CollidesAt(b, p, dx, dy)
    ensures var q := Move(b, p, dx, dy).piece;
      q.kind == p.kind && q.rotation == p.rotation &&
      (if Move(b, p, dx, dy).ok then q.x == p.x + dx && q.y == p.y + dy && Fits(b, q) else q == p)
    ensures Move(b, p, dx, dy).ok ==> Move(b, p, dx, dy).piece == p.(x := p.x + dx, y := p.y + dy)
  {
    var q := p.(x := p.x + dx, y := p.y + dy);
    assert q.kind == p.kind && q.rotation == p.rotation;
  }

  /** A successful move from a fitting position can be undone by the
      opposite move. */
  lemma MoveUndo(b: Board, p: PieceState, dx: int, dy: int)
    requires WellFormed(b) && Fits(b, p) && Move(b, p, dx, dy).ok
    ensures Move(b, Move(b, p, dx, dy).piece, -dx, -dy) == Step(p, true)
  {
    var q := Move(b, p, dx, dy).piece;
    assert q == p.(x := p.x + dx, y := p.y + dy);
    assert q.kind == p.kind && q.rotation == p.rotation;
    assert q.(x := q.x + -dx, y := q.y + -dy) == p;
    assert Shape(q) == Shape(p);
    assert q.x + -dx == p.x + 0 && q.y + -dy == p.y + 0;
  }

  /** The rotation index after turning in direction `dir`. */
  function Turn(r: Rotation, dir: int): (t: Rotation)
    ensures dir > 0 ==> t == (r + 1) % 4
    ensures dir <= 0 ==> (t + 1) % 4 == r
  {
    if dir > 0 then (r + 1) % 4 else (r - 1) % 4
  }

  /** Turning one way and then the other gives the index back. */
  lemma TurnUndo(r: Rotation)
    ensures Turn(Turn(r, 1), -1) == r && Turn(Turn(r, -1), 1) == r
  {
  }

  /** The shape after a clockwise turn is the clockwise turn of the shape,
      and a counter-clockwise turn is undone by a clockwise one. */
  lemma TurnShape(p: PieceState)
    requires Cycles(p.definition)
    ensures Shape(p.(rotation := Turn(p.rotation, 1))) == RotateCW(Shape(p))
    ensures RotateCW(Shape(p.(rotation := Turn(p.rotation, -1)))) == Shape(p)
  {
    var r := p.rotation;
    var cw, ccw := Turn(r, 1), Turn(r, -1);
    assert cw == (if r == 3 then 0 else r + 1);
    assert ccw == (if r == 0 then 3 else r - 1);
  }

  /** `rotate(dir)`: try the next state; on collision restore the old one. */
  function Rotate(b: Board, p: PieceState, dir: int): (s: Step)
    requires WellFormed(b)
  {
    var q := p.(rotation := Turn(p.rotation, dir));
    if !CollidesAt(b, q, 0, 0) then Step(q, true) else Step(p, false)
  }

  /** `rotate` never changes the kind or the position; on success the index
      moved by one in the turn's direction and the new state fits, on
      failure nothing changed. A turned piece differs from the old one in its
      rotation index only. */
  lemma RotateSpec(b: Board, p: PieceState, dir: int)
    requires WellFormed(b)
    ensures var s := Rotate(b, p, dir);
      s.piece.kind == p.kind && s.piece.x == p.x && s.piece.y == p.y &&
      (s.ok <==> Fits(b, p.(rotation := Turn(p.rotation, dir)))) &&
      (if s.ok then s.piece.rotation == Turn(p.rotation, dir) && Fits(b, s.piece) else s.piece == p)
    ensures Rotate(b, p, dir).ok ==> Rotate(b, p, dir).piece == p.(rotation := Turn(p.rotation, dir))
  {
  }

  /** A successful rotation of a fitting piece is undone by the rotation in
      the other direction. */
  lemma RotateUndo(b: Board, p: PieceState, dir: int)
    requires WellFormed(b) && Fits(b, p) && Rotate(b, p, dir).ok
    ensures Rotate(b, Rotate(b, p, dir).piece, if dir > 0 then -1 else 1) == Step(p, true)
  {
    TurnUndo(p.rotation);
    var q := Rotate(b, p, dir).piece;
    assert q.(rotation := Turn(q.rotation, if dir > 0 then -1 else 1)) == p;
  }

  /** A shape with an occupied cell collides once that cell is below the
      bottom row, so a position that does not collide is above the floor. */
  lemma FloorBound(b: Board, m: Matrix, x: int, y: int)
    requires WellFormed(b) && BlockCount(m) > 0 && !Collides(b, m, x, y)
    ensures y < b.height
  {
    CoordsCount(m);
    var o := Coords(m)[0];
    CoordsMembership(m, o);
    CollidesIff(b, m, x, y);
    assert !Blocked(b, x + o.col, y + o.row);
  }

  /** The `while self.move(0, 1, grid)` loop of `hard_drop`, as the row it
      stops at. */
  function DropRow(b: Board, m: Matrix, x: int, y: int): (ry: int)
    requires WellFormed(b) && BlockCount(m) > 0
    ensures ry >= y && Collides(b, m, x, ry + 1)
    decreases b.height - y
  {
    if Collides(b, m, x, y + 1) then y
    else
      FloorBound(b, m, x, y + 1);
      DropRow(b, m, x, y + 1)
  }

  /** Every row the drop passes through, below the start, is free. */
  lemma {:induction false} DropRowPath(b: Board, m: Matrix, x: int, y: int, y': int)
    requires WellFormed(b) && BlockCount(m) > 0 && y < y' <= DropRow(b, m, x, y)
    ensures !Collides(b, m, x, y')
    decreases b.height - y
  {
    if y' > y + 1 {
      FloorBound(b, m, x, y + 1);
      DropRowPath(b, m, x, y + 1, y');
    }
  }

  /** The drop stops at the first row from which one more step collides:
      any row reached through free rows whose next row collides is where
      the drop ends. */
  lemma {:induction false} DropRowEnds(b: Board, m: Matrix, x: int, y0: int, y: int)
    requires WellFormed(b) && BlockCount(m) > 0 && y0 <= y
    requires forall y' :: y0 < y' <= y ==> !Collides(b, m, x, y')
    requires Collides(b, m, x, y + 1)
    ensures DropRow(b, m, x, y0) == y
    decreases y - y0
  {
    if y0 < y {
      assert !Collides(b, m, x, y0 + 1);
      FloorBound(b, m, x, y0 + 1);
      DropRowEnds(b, m, x, y0 + 1, y);
    }
  }

  /** `hard_drop`. */
  function HardDrop(b: Board, p: PieceState): PieceState
    requires WellFormed(b) && WellShaped(p.definition)
  {
    p.(y := DropRow(b, Shape(p), p.x, p.y))
  }

  /** `hard_drop` keeps the kind, definition, rotation and column, never moves the piece
      up, passes only through positions that fit, and stops where one more
      step down collides. */
  lemma HardDropSpec(b: Board, p: PieceState)
    requires WellFormed(b) && WellShaped(p.definition)
    ensures var q := HardDrop(b, p);
      q.kind == p.kind && q.definition == p.definition && q.rotation == p.rotation &&
      q.x == p.x && q.y >= p.y && CollidesAt(b, q, 0, 1) &&
      forall y' :: p.y < y' <= q.y ==> Fits(b, p.(y := y'))
  {
    var q := HardDrop(b, p);
    forall y' | p.y < y' <= q.y ensures Fits(b, p.(y := y')) {
      DropRowPath(b, Shape(p), p.x, p.y, y');
      assert Shape(p.(y := y')) == Shape(p);
    }
  }

  /** A dropped piece that fitted still fits, and dropping again does not
      move it. */
  lemma HardDropIdempotent(b: Board, p: PieceState)
    requires WellFormed(b) && WellShaped(p.definition) && Fits(b, p)
    ensures Fits(b, HardDrop(b, p)) && HardDrop(b, HardDrop(b, p)) == HardDrop(b, p)
  {
    HardDropSpec(b, p);
  }

  /** A fresh piece from a new factory shows its kind's base matrix. */
  lemma SpawnShape(k: Kind)
    ensures k in NewFactory().definitions && Shape(Spawned(NewFactory(), k)) == BaseMatrix(k)
  {
    NewFactoryLookup(k);
    DefinitionFacts(k);
  }

  /** A rectangular shape lying wholly inside an empty grid does not collide. */
  lemma InsideEmptyFits(b: Board, m: Matrix, x: int, y: int)
    requires WellFormed(b) && Rectangular(m)
    requires forall gy, gx :: 0 <= gy < b.height && 0 <= gx < b.width ==> b.cells[gy][gx] == Empty
    requires 0 <= x && x + |m[0]| <= b.width && 0 <= y && y + |m| <= b.height
    ensures !Collides(b, m, x, y)
  {
    forall r, c | 0 <= r < |m| && 0 <= c < |m[r]| && m[r][c] == 1 ensures !Blocked(b, x + c, y + r) {
      assert |m[r]| == |m[0]|;
    }
    CollidesIff(b, m, x, y);
  }

  /** A rectangular matrix of at most 2 rows by 4 columns does not collide
      at the spawn position of the empty 10x20 grid. */
  lemma SmallFitsEmpty(m: Matrix)
    requires Rectangular(m) && |m| <= 2 && |m[0]| <= 4
    ensures !Collides(EmptyBoard(10, 20), m, SpawnX, SpawnY)
  {
    InsideEmptyFits(EmptyBoard(10, 20), m, SpawnX, SpawnY);
  }

  /** On the empty 10x20 grid, every kind spawns without collision. */
  lemma SpawnFitsEmpty(f: Factory, k: Kind)
    requires CatalogueOk(f)
    ensures Fits(EmptyBoard(10, 20), Spawned(f, k))
  {
    var d := f.definitions[k];
    assert SpawnReady(d);
    assert Shape(Spawned(f, k)) == d.rotationStates[0];
    SmallFitsEmpty(d.rotationStates[0]);
  }
}
