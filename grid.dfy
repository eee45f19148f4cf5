/** The grid as a value: a height x width matrix of cells, row 0 at the top.
    The functions here are what `GameGrid`'s methods compute; the lemmas say
    what those results mean. */
module Grid {
  import opened Shapes

  /** `''` in the source is `Empty`; a locked cell holds its colour code. */
  datatype Cell = Empty | Filled(code: char)

  datatype Board = Board(width: nat, height: nat, cells: seq<seq<Cell>>)

  /** `height` rows of `width` cells each. */
  predicate WellFormed(b: Board) {
    |b.cells| == b.height && forall y :: 0 <= y < |b.cells| ==> |b.cells[y]| == b.width
  }

  predicate SameShape(a: Board, b: Board) {
    a.width == b.width && a.height == b.height && WellFormed(a) && WellFormed(b)
  }

  function EmptyRow(w: nat): (row: seq<Cell>)
    ensures |row| == w && forall x :: 0 <= x < w ==> row[x] == Empty
  {
    seq(w, _ => Empty)
  }

  /** `_create_empty_grid`: a well-formed board of the given size, every cell empty. */
  function EmptyBoard(w: nat, h: nat): (b: Board)
    ensures WellFormed(b) && b.width == w && b.height == h
    ensures forall y, x :: 0 <= y < h && 0 <= x < w ==> b.cells[y][x] == Empty
  {
    Board(w, h, seq(h, _ => EmptyRow(w)))
  }

  // ---------------------------------------------------------------------
  // Collision
  // ---------------------------------------------------------------------

  /** The test `is_collision` applies to one occupied cell landing at (gx, gy):
      outside the side walls or below the floor, or on a filled cell. A cell
      above the top row (gy < 0) inside the walls is not blocked. */
  predicate Blocked(b: Board, gx: int, gy: int)
    requires WellFormed(b)
  {
    gx < 0 || gx >= b.width || gy >= b.height || (gy >= 0 && b.cells[gy][gx] != Empty)
  }

  /** The scan of `is_collision` over the listed offsets, stopping at the first
      blocked one. */
  function CollidesAny(b: Board, cs: seq<Offset>, x: int, y: int): bool
    requires WellFormed(b)
    decreases |cs|
  {
    if cs == [] then false
    else if Blocked(b, x + cs[0].col, y + cs[0].row) then true
    else CollidesAny(b, cs[1..], x, y)
  }

  /** The scan finds a blocked target exactly when one of the offsets has one. */
  lemma {:induction false} CollidesAnyIff(b: Board, cs: seq<Offset>, x: int, y: int)
    requires WellFormed(b)
    ensures CollidesAny(b, cs, x, y) <==> exists o :: o in cs && Blocked(b, x + o.col, y + o.row)
    decreases |cs|
  {
    if cs != [] && !Blocked(b, x + cs[0].col, y + cs[0].row) {
      CollidesAnyIff(b, cs[1..], x, y);
      assert forall o :: o in cs ==> o == cs[0] || o in cs[1..];
    }
  }

  /** `is_collision` for matrix `m` with its top-left corner at (x, y): the
      scan over the occupied entries in row-major order. */
  function Collides(b: Board, m: Matrix, x: int, y: int): bool
    requires WellFormed(b)
  {
    CollidesAny(b, Coords(m), x, y)
  }

  /** `is_collision` is true exactly when some occupied entry of the matrix
      lands left of, right of or below the grid, or on a filled cell at or
      below row 0; entries above row 0 inside the columns never collide. */
  lemma CollidesIff(b: Board, m: Matrix, x: int, y: int)
    requires WellFormed(b)
    ensures Collides(b, m, x, y) <==>
      exists r, c :: 0 <= r < |m| && 0 <= c < |m[r]| && m[r][c] == 1 && Blocked(b, x + c, y + r)
  {
    CollidesAnyIff(b, Coords(m), x, y);
    if CollidesAny(b, Coords(m), x, y) {
      var o :| o in Coords(m) && Blocked(b, x + o.col, y + o.row);
      CoordsMembership(m, o);
    } else {
      forall r, c | 0 <= r < |m| && 0 <= c < |m[r]| && m[r][c] == 1
        ensures !Blocked(b, x + c, y + r)
      {
        CoordsMembership(m, Offset(r, c));
      }
    }
  }

  /** Cell (gx, gy) of the board is an occupied entry of `m` when the top-left
      corner of `m` is placed at (x, y). */
  predicate Covers(m: Matrix, x: int, y: int, gx: int, gy: int) {
    0 <= gy - y < |m| && 0 <= gx - x < |m[gy - y]| && m[gy - y][gx - x] == 1
  }

  // ---------------------------------------------------------------------
  // Placing a piece
  // ---------------------------------------------------------------------

  /** The test `place_tetromino` applies before writing a cell. */
  predicate Free(b: Board, gx: int, gy: int)
    requires WellFormed(b)
  {
    0 <= gx < b.width && 0 <= gy < b.height && b.cells[gy][gx] == Empty
  }

  function Paint(b: Board, gx: int, gy: int, code: char): (r: Board)
    requires WellFormed(b) && 0 <= gx < b.width && 0 <= gy < b.height
    ensures SameShape(b, r)
  {
    b.(cells := b.cells[gy := b.cells[gy][gx := Filled(code)]])
  }

  datatype Placed = Placed(board: Board, ok: bool)

  /** The loop of `place_tetromino` over the listed offsets: write each free
      target cell, and stop with `false` at the first target that is not free,
      keeping the cells already written. */
  function PlaceFrom(b: Board, cs: seq<Offset>, x: int, y: int, code: char): (r: Placed)
    requires WellFormed(b)
    ensures SameShape(b, r.board)
    decreases |cs|
  {
    if cs == [] then Placed(b, true)
    else
      var gx, gy := x + cs[0].col, y + cs[0].row;
      if Free(b, gx, gy) then PlaceFrom(Paint(b, gx, gy, code), cs[1..], x, y, code)
      else Placed(b, false)
  }

  /** `place_tetromino` for matrix `m` at (x, y) with colour code `code`. */
  function Place(b: Board, m: Matrix, x: int, y: int, code: char): (r: Placed)
    requires WellFormed(b)
    ensures SameShape(b, r.board)
  {
    PlaceFrom(b, Coords(m), x, y, code)
  }

  /** `after` is `before` with exactly the targets of `cs` set to `code`. */
  predicate PaintedExactly(before: Board, after: Board, cs: seq<Offset>, x: int, y: int, code: char) {
    SameShape(before, after) &&
    forall gy, gx :: 0 <= gy < before.height && 0 <= gx < before.width ==>
      after.cells[gy][gx] ==
        if Offset(gy - y, gx - x) in cs then Filled(code) else before.cells[gy][gx]
  }

  /** A list in strict row-major order has no repeats: its head is not in its tail. */
  lemma RowMajorTail(cs: seq<Offset>)
    requires RowMajor(cs) && cs != []
    ensures RowMajor(cs[1..]) && cs[0] !in cs[1..]
  {
    var t := cs[1..];
    forall i, j | 0 <= i < j < |t| ensures LexBefore(t[i], t[j]) {
      assert t[i] == cs[i + 1] && t[j] == cs[j + 1];
    }
  }

  /** Painting one cell changes that cell only. */
  lemma PaintCell(b: Board, gx: int, gy: int, code: char)
    requires WellFormed(b) && 0 <= gx < b.width && 0 <= gy < b.height
    ensures forall y', x' :: 0 <= y' < b.height && 0 <= x' < b.width ==>
      Paint(b, gx, gy, code).cells[y'][x'] ==
        if y' == gy && x' == gx then Filled(code) else b.cells[y'][x']
    ensures forall y', x' :: !(y' == gy && x' == gx) ==>
      (Free(Paint(b, gx, gy, code), x', y') <==> Free(b, x', y'))
  {
  }

  /** Painting the head's target and then exactly the tail's targets paints
      exactly the targets of the whole list. */
  lemma PaintedCons(b: Board, after: Board, h: Offset, t: seq<Offset>, x: int, y: int, code: char)
    requires WellFormed(b) && 0 <= x + h.col < b.width && 0 <= y + h.row < b.height
    requires PaintedExactly(Paint(b, x + h.col, y + h.row, code), after, t, x, y, code)
    ensures PaintedExactly(b, after, [h] + t, x, y, code)
  {
    PaintCell(b, x + h.col, y + h.row, code);
    forall y', x' | 0 <= y' < b.height && 0 <= x' < b.width
      ensures after.cells[y'][x'] ==
        if Offset(y' - y, x' - x) in [h] + t then Filled(code) else b.cells[y'][x']
    {
      assert Offset(y' - y, x' - x) in [h] + t <==> Offset(y' - y, x' - x) == h || Offset(y' - y, x' - x) in t;
    }
  }

  lemma {:induction false} PlaceFromOk(b: Board, cs: seq<Offset>, x: int, y: int, code: char)
    requires WellFormed(b) && RowMajor(cs)
    ensures PlaceFrom(b, cs, x, y, code).ok <==>
      forall o :: o in cs ==> Free(b, x + o.col, y + o.row)
    decreases |cs|
  {
    if cs != [] {
      var h, t := cs[0], cs[1..];
      assert forall o :: o in cs <==> o == h || o in t;
      var gx, gy := x + h.col, y + h.row;
      if Free(b, gx, gy) {
        RowMajorTail(cs);
        var b1 := Paint(b, gx, gy, code);
        PaintCell(b, gx, gy, code);
        PlaceFromOk(b1, t, x, y, code);
        forall o | o in t ensures Free(b1, x + o.col, y + o.row) <==> Free(b, x + o.col, y + o.row) {
          assert o != h;
        }
      }
    }
  }

  lemma {:induction false} PlaceFromPaints(b: Board, cs: seq<Offset>, x: int, y: int, code: char)
    requires WellFormed(b) && RowMajor(cs) && PlaceFrom(b, cs, x, y, code).ok
    ensures PaintedExactly(b, PlaceFrom(b, cs, x, y, code).board, cs, x, y, code)
    decreases |cs|
  {
    var r := PlaceFrom(b, cs, x, y, code);
    if cs != [] {
      var h, t := cs[0], cs[1..];
      var gx, gy := x + h.col, y + h.row;
      RowMajorTail(cs);
      var b1 := Paint(b, gx, gy, code);
      PaintCell(b, gx, gy, code);
      PlaceFromPaints(b1, t, x, y, code);
      PaintedCons(b, r.board, h, t, x, y, code);
      assert cs == [h] + t;
    }
  }

  /** Placing `cs` stopped at its `k`-th offset, the first whose target is
      not free, after painting exactly the targets before it. */
  predicate StoppedAt(b: Board, after: Board, cs: seq<Offset>, x: int, y: int, code: char, k: int) {
    WellFormed(b) && 0 <= k < |cs| && !Free(b, x + cs[k].col, y + cs[k].row) &&
    (forall j :: 0 <= j < k ==> Free(b, x + cs[j].col, y + cs[j].row)) &&
    PaintedExactly(b, after, cs[..k], x, y, code)
  }

  /** The offsets before the `k`-th of the tail were free after painting the
      head, so they, and the head, were free before. */
  lemma FreePrefixCons(b: Board, cs: seq<Offset>, x: int, y: int, code: char, k: int)
    requires WellFormed(b) && RowMajor(cs) && cs != [] && Free(b, x + cs[0].col, y + cs[0].row)
    requires 0 <= k < |cs| - 1
    requires forall j :: 0 <= j < k ==>
      Free(Paint(b, x + cs[0].col, y + cs[0].row, code), x + cs[1..][j].col, y + cs[1..][j].row)
    ensures forall j :: 0 <= j < k + 1 ==> Free(b, x + cs[j].col, y + cs[j].row)
  {
    var h, t := cs[0], cs[1..];
    RowMajorTail(cs);
    PaintCell(b, x + h.col, y + h.row, code);
    forall j | 0 <= j < k + 1 ensures Free(b, x + cs[j].col, y + cs[j].row) {
      if j > 0 {
        assert cs[j] == t[j - 1] && t[j - 1] != h;
      }
    }
  }

  /** A target other than the painted one is free after painting exactly
      when it was free before. */
  lemma FreeAfterPaint(b: Board, h: Offset, o: Offset, x: int, y: int, code: char)
    requires WellFormed(b) && 0 <= x + h.col < b.width && 0 <= y + h.row < b.height && o != h
    ensures Free(Paint(b, x + h.col, y + h.row, code), x + o.col, y + o.row) <==> Free(b, x + o.col, y + o.row)
  {
    PaintCell(b, x + h.col, y + h.row, code);
    assert !(y + o.row == y + h.row && x + o.col == x + h.col);
  }

  lemma StoppedAtCons(b: Board, after: Board, cs: seq<Offset>, x: int, y: int, code: char, k: int)
    requires WellFormed(b) && RowMajor(cs) && cs != [] && Free(b, x + cs[0].col, y + cs[0].row)
    requires StoppedAt(Paint(b, x + cs[0].col, y + cs[0].row, code), after, cs[1..], x, y, code, k)
    ensures StoppedAt(b, after, cs, x, y, code, k + 1)
  {
    var h, t := cs[0], cs[1..];
    RowMajorTail(cs);
    assert cs[k + 1] == t[k] && t[k] != h;
    FreeAfterPaint(b, h, t[k], x, y, code);
    assert !Free(b, x + cs[k + 1].col, y + cs[k + 1].row);
    FreePrefixCons(b, cs, x, y, code, k);
    PaintedCons(b, after, h, t[..k], x, y, code);
    assert cs[..k + 1] == [h] + t[..k];
  }

  lemma {:induction false} PlaceFromFailure(b: Board, cs: seq<Offset>, x: int, y: int, code: char)
    requires WellFormed(b) && RowMajor(cs) && !PlaceFrom(b, cs, x, y, code).ok
    ensures exists k :: StoppedAt(b, PlaceFrom(b, cs, x, y, code).board, cs, x, y, code, k)
    decreases |cs|
  {
    var r := PlaceFrom(b, cs, x, y, code);
    var h, t := cs[0], cs[1..];
    var gx, gy := x + h.col, y + h.row;
    if !Free(b, gx, gy) {
      assert StoppedAt(b, r.board, cs, x, y, code, 0);
    } else {
      RowMajorTail(cs);
      var b1 := Paint(b, gx, gy, code);
      PlaceFromFailure(b1, t, x, y, code);
      var k :| StoppedAt(b1, r.board, t, x, y, code, k);
      StoppedAtCons(b, r.board, cs, x, y, code, k);
    }
  }

  /** `place_tetromino` returns True exactly when the piece does not collide
      where it stands and no occupied cell is above row 0. */
  lemma PlaceSucceedsIff(b: Board, m: Matrix, x: int, y: int, code: char)
    requires WellFormed(b)
    ensures Place(b, m, x, y, code).ok <==>
      !Collides(b, m, x, y) &&
      forall r, c :: 0 <= r < |m| && 0 <= c < |m[r]| && m[r][c] == 1 ==> y + r >= 0
  {
    CoordsOrdered(m);
    CollidesIff(b, m, x, y);
    PlaceFromOk(b, Coords(m), x, y, code);
    var ok := Place(b, m, x, y, code).ok;
    if ok {
      forall r, c | 0 <= r < |m| && 0 <= c < |m[r]| && m[r][c] == 1
        ensures !Blocked(b, x + c, y + r) && y + r >= 0
      {
        CoordsMembership(m, Offset(r, c));
      }
    }
    if !Collides(b, m, x, y) &&
       forall r, c :: 0 <= r < |m| && 0 <= c < |m[r]| && m[r][c] == 1 ==> y + r >= 0
    {
      forall o | o in Coords(m) ensures Free(b, x + o.col, y + o.row) {
        CoordsMembership(m, o);
      }
    }
  }

  /** On success exactly the piece's cells take `code` and every other cell
      keeps its content. */
  lemma PlacePaintsPiece(b: Board, m: Matrix, x: int, y: int, code: char)
    requires WellFormed(b) && Place(b, m, x, y, code).ok
    ensures forall gy, gx :: 0 <= gy < b.height && 0 <= gx < b.width ==>
      Place(b, m, x, y, code).board.cells[gy][gx] ==
        if Covers(m, x, y, gx, gy) then Filled(code) else b.cells[gy][gx]
  {
    CoordsOrdered(m);
    PlaceFromPaints(b, Coords(m), x, y, code);
    forall gy, gx | 0 <= gy < b.height && 0 <= gx < b.width
      ensures Offset(gy - y, gx - x) in Coords(m) <==> Covers(m, x, y, gx, gy)
    {
      CoordsMembership(m, Offset(gy - y, gx - x));
    }
  }

  /** On failure the cells written before the first cell that was not free
      keep `code`; nothing else changes. */
  lemma PlaceFailureKeepsPrefix(b: Board, m: Matrix, x: int, y: int, code: char)
    requires WellFormed(b) && !Place(b, m, x, y, code).ok
    ensures exists k :: StoppedAt(b, Place(b, m, x, y, code).board, Coords(m), x, y, code, k)
  {
    CoordsOrdered(m);
    PlaceFromFailure(b, Coords(m), x, y, code);
  }

  // ---------------------------------------------------------------------
  // Completed rows
  // ---------------------------------------------------------------------

  /** `all(cell != '' for cell in row)`. */
  predicate RowFull(row: seq<Cell>) {
    forall x :: 0 <= x < |row| ==> row[x] != Empty
  }

  predicate StrictlyAscending(s: seq<int>) {
    forall i, j :: 0 <= i < j < |s| ==> s[i] < s[j]
  }

  /** The rows among `0..n-1` that are full, in ascending order. */
  function FullRowsBelow(b: Board, n: nat): (rows: seq<int>)
    requires n <= |b.cells|
    ensures StrictlyAscending(rows)
    ensures forall y :: y in rows <==> 0 <= y < n && RowFull(b.cells[y])
    ensures forall i :: 0 <= i < |rows| ==> 0 <= rows[i] < n
  {
    if n == 0 then []
    else
      var below := FullRowsBelow(b, n - 1);
      below + (if RowFull(b.cells[n - 1]) then [n - 1] else [])
  }

  /** `check_line_completions`: the scan over all rows, top to bottom. */
  function FullRows(b: Board): (rows: seq<int>)
    requires WellFormed(b)
    ensures InRange(rows, b.height)
  {
    FullRowsBelow(b, b.height)
  }

  /** `check_line_completions` lists, in ascending order and without
      repeats, exactly the rows whose every cell is filled. */
  lemma FullRowsSpec(b: Board)
    requires WellFormed(b)
    ensures StrictlyAscending(FullRows(b)) && Distinct(FullRows(b))
    ensures forall y :: y in FullRows(b) <==> 0 <= y < b.height && RowFull(b.cells[y])
  {
  }

  // ---------------------------------------------------------------------
  // Sorting the rows to remove
  // ---------------------------------------------------------------------

  predicate Ascending(s: seq<int>) {
    forall i, j :: 0 <= i < j < |s| ==> s[i] <= s[j]
  }

  /** One step of the sort: `v` placed before the first element not below it. */
  function Insert(v: int, s: seq<int>): (r: seq<int>)
    ensures multiset(r) == multiset(s) + multiset{v}
  {
    if s == [] then [v]
    else if v <= s[0] then [v] + s
    else
      assert s == [s[0]] + s[1..];
      [s[0]] + Insert(v, s[1..])
  }

  /** The head of an insertion is the inserted value or the old head. */
  lemma InsertHead(v: int, s: seq<int>)
    ensures Insert(v, s)[0] == v || (s != [] && Insert(v, s)[0] == s[0])
  {
  }

  /** Inserting into an ascending list keeps it ascending. */
  lemma {:induction false} InsertAscending(v: int, s: seq<int>)
    requires Ascending(s)
    ensures Ascending(Insert(v, s))
  {
    if s != [] && v > s[0] {
      var t := s[1..];
      assert Ascending(t) by {
        forall i, j | 0 <= i < j < |t| ensures t[i] <= t[j] {
          assert t[i] == s[i + 1] && t[j] == s[j + 1];
        }
      }
      InsertAscending(v, t);
      var rest := Insert(v, t);
      InsertHead(v, t);
      assert s[0] <= rest[0] by {
        if rest[0] != v {
          assert rest[0] == s[1];
        }
      }
      ConsAscending(s[0], rest);
      assert Insert(v, s) == [s[0]] + rest;
    }
  }

  /** A head no larger than an ascending tail's head keeps the list ascending. */
  lemma ConsAscending(x: int, rest: seq<int>)
    requires Ascending(rest) && (rest != [] ==> x <= rest[0])
    ensures Ascending([x] + rest)
  {
    var r := [x] + rest;
    forall i, j | 0 <= i < j < |r| ensures r[i] <= r[j] {
      if i == 0 {
        assert r[j] == rest[j - 1];
      } else {
        assert r[i] == rest[i - 1] && r[j] == rest[j - 1];
      }
    }
  }

  /** `rows.sort()`: the rows in ascending order, as a permutation of the input. */
  function SortRows(s: seq<int>): (r: seq<int>)
    ensures Ascending(r) && multiset(r) == multiset(s)
  {
    if s == [] then []
    else
      assert s == [s[0]] + s[1..];
      InsertAscending(s[0], SortRows(s[1..]));
      Insert(s[0], SortRows(s[1..]))
  }

  predicate Distinct(s: seq<int>) {
    forall i, j :: 0 <= i < j < |s| ==> s[i] != s[j]
  }

  lemma {:induction false} DistinctCounts(s: seq<int>)
    requires Distinct(s)
    ensures forall v :: multiset(s)[v] <= 1
  {
    if s != [] {
      var t := s[1..];
      assert s == [s[0]] + t;
      assert Distinct(t) by {
        forall i, j | 0 <= i < j < |t| ensures t[i] != t[j] {
          assert t[i] == s[i + 1] && t[j] == s[j + 1];
        }
      }
      DistinctCounts(t);
      assert s[0] !in t by {
        forall k | 0 <= k < |t| ensures t[k] != s[0] {
          assert t[k] == s[k + 1];
        }
      }
      assert multiset(t)[s[0]] == 0;
    }
  }

  lemma TwoCopies(s: seq<int>, i: int, j: int)
    requires 0 <= i < j < |s| && s[i] == s[j]
    ensures multiset(s)[s[i]] >= 2
  {
    assert s == s[..i] + [s[i]] + s[i + 1..j] + [s[j]] + s[j + 1..];
  }

  /** Sorting distinct rows gives them in strictly ascending order, with the
      same members. */
  lemma SortRowsDistinct(s: seq<int>)
    requires Distinct(s)
    ensures StrictlyAscending(SortRows(s)) && |SortRows(s)| == |s|
    ensures forall v :: v in SortRows(s) <==> v in s
  {
    var r := SortRows(s);
    assert |multiset(r)| == |multiset(s)|;
    DistinctCounts(s);
    forall i, j | 0 <= i < j < |r| ensures r[i] < r[j] {
      if r[i] == r[j] {
        TwoCopies(r, i, j);
        assert false;
      }
    }
    forall v ensures v in r <==> v in s {
      assert v in r <==> v in multiset(r);
      assert v in s <==> v in multiset(s);
    }
  }

  /** Sorting an ascending list returns it unchanged. */
  lemma {:induction false} SortRowsOfSorted(s: seq<int>)
    requires StrictlyAscending(s)
    ensures SortRows(s) == s
  {
    if s != [] {
      SortRowsOfSorted(s[1..]);
      assert s == [s[0]] + s[1..];
    }
  }

  // ---------------------------------------------------------------------
  // Removing rows
  // ---------------------------------------------------------------------

  /** `del cells[row]` followed by `cells.insert(0, <empty row>)`. */
  function DeleteRow(b: Board, row: int): (r: Board)
    requires WellFormed(b) && 0 <= row < b.height
    ensures SameShape(b, r)
  {
    var without := b.cells[..row] + b.cells[row + 1..];
    b.(cells := [EmptyRow(b.width)] + without)
  }

  predicate InRange(rows: seq<int>, h: int) {
    forall i :: 0 <= i < |rows| ==> 0 <= rows[i] < h
  }

  /** The loop of `remove_lines` over the (already sorted) rows. */
  function RemoveSorted(b: Board, rows: seq<int>): (r: Board)
    requires WellFormed(b) && InRange(rows, b.height)
    ensures SameShape(b, r)
    decreases |rows|
  {
    if rows == [] then b else RemoveSorted(DeleteRow(b, rows[0]), rows[1..])
  }

  lemma SortRowsInRange(rows: seq<int>, h: int)
    requires InRange(rows, h)
    ensures InRange(SortRows(rows), h)
  {
    var r := SortRows(rows);
    forall i | 0 <= i < |r| ensures 0 <= r[i] < h {
      assert r[i] in multiset(rows);
    }
  }

  /** `remove_lines`: sort the rows, then delete each and add an empty row on
      top. The board keeps its dimensions. */
  function RemoveLines(b: Board, rows: seq<int>): (r: Board)
    requires WellFormed(b) && InRange(rows, b.height)
    ensures SameShape(b, r)
  {
    SortRowsInRange(rows, b.height);
    RemoveSorted(b, SortRows(rows))
  }

  /** `k` empty rows of width `w`. */
  function Empties(w: nat, k: nat): (rs: seq<seq<Cell>>)
    ensures |rs| == k && forall i :: 0 <= i < k ==> rs[i] == EmptyRow(w)
  {
    seq(k, _ => EmptyRow(w))
  }

  /** The rows among `cells[..n]` whose index is not in `del`, in their order. */
  function KeptBelow(cells: seq<seq<Cell>>, del: set<int>, n: nat): seq<seq<Cell>>
    requires n <= |cells|
  {
    if n == 0 then []
    else KeptBelow(cells, del, n - 1) + (if n - 1 in del then [] else [cells[n - 1]])
  }

  /** The rows of `cells` whose index is not in `del`, in their order. */
  function Kept(cells: seq<seq<Cell>>, del: set<int>): seq<seq<Cell>> {
    KeptBelow(cells, del, |cells|)
  }

  function Elems(s: seq<int>): set<int> {
    set v | v in s
  }

  lemma {:induction false} KeptRun(cells: seq<seq<Cell>>, del: set<int>, p: nat, q: nat)
    requires p <= q <= |cells|
    requires forall v :: v in del ==> !(p <= v < q)
    ensures KeptBelow(cells, del, q) == KeptBelow(cells, del, p) + cells[p..q]
    decreases q
  {
    if q > p {
      KeptRun(cells, del, p, q - 1);
      assert cells[p..q] == cells[p..q - 1] + [cells[q - 1]];
    }
  }

  lemma {:induction false} KeptLength(cells: seq<seq<Cell>>, rows: seq<int>, p: nat, i: nat)
    requires p <= |cells| && i <= |rows|
    requires StrictlyAscending(rows) && InRange(rows, |cells|)
    requires forall k :: 0 <= k < i ==> rows[k] < p
    requires forall k :: i <= k < |rows| ==> rows[k] >= p
    ensures |KeptBelow(cells, Elems(rows), p)| + i == p
    decreases p
  {
    if p == 0 {
    } else if p - 1 in Elems(rows) {
      var j :| 0 <= j < |rows| && rows[j] == p - 1;
      assert j < i;
      assert rows[i - 1] < p;
      assert j >= i - 1;
      KeptLength(cells, rows, p - 1, i - 1);
    } else {
      forall k | 0 <= k < i ensures rows[k] < p - 1 {
        assert rows[k] != p - 1;
      }
      KeptLength(cells, rows, p - 1, i);
    }
  }

  /** Where the rows below the `i`-th row to remove start (0 before the first). */
  function Mark(rows: seq<int>, i: nat): int
    requires i <= |rows|
  {
    if i == 0 then 0 else rows[i - 1] + 1
  }

  /** Rows before the `i`-th lie below the mark, the others at or above it,
      and none lies between the mark and the `i`-th. */
  lemma MarkBounds(rows: seq<int>, i: nat)
    requires StrictlyAscending(rows) && i < |rows| && rows[0] >= 0
    ensures rows[i] >= Mark(rows, i)
    ensures forall k :: 0 <= k < i ==> rows[k] < Mark(rows, i)
    ensures forall k :: i <= k < |rows| ==> rows[k] >= Mark(rows, i)
    ensures forall v :: v in Elems(rows) ==> !(Mark(rows, i) <= v < rows[i])
  {
    var p := Mark(rows, i);
    if i > 0 { assert rows[i - 1] < rows[i]; }
    forall k | 0 <= k < i ensures rows[k] < p {
      assert rows[k] <= rows[i - 1];
    }
    assert rows[i] >= p;
    forall k | i <= k < |rows| ensures rows[k] >= p {
      if k > i { assert rows[i] < rows[k]; }
    }
    forall v | v in Elems(rows) ensures !(p <= v < rows[i]) {
      var k :| 0 <= k < |rows| && rows[k] == v;
      if k >= i { assert rows[k] >= rows[i]; }
    }
  }

  /** Deleting row `r` from a board laid out as `front + orig[p..]`, where
      `front` has `p` rows and `p <= r`. */
  lemma DeleteSplice(b: Board, front: seq<seq<Cell>>, orig: seq<seq<Cell>>, p: nat, r: nat)
    requires WellFormed(b) && p <= r < |orig| && |front| == p
    requires b.cells == front + orig[p..]
    ensures r < b.height
    ensures DeleteRow(b, r).cells == [EmptyRow(b.width)] + (front + orig[p..r]) + orig[r + 1..]
  {
    assert b.cells[..r] == front + orig[p..r];
    assert b.cells[r + 1..] == orig[r + 1..];
  }

  /** One step of the loop: deleting the next row to remove, which lies at
      or above the mark, moves the mark past it. */
  lemma DeleteRowStep(orig: seq<seq<Cell>>, b: Board, rows: seq<int>, i: nat)
    requires WellFormed(b) && |orig| == b.height
    requires StrictlyAscending(rows) && InRange(rows, b.height) && i < |rows|
    requires 0 <= Mark(rows, i) <= |orig|
    requires b.cells == Empties(b.width, i) + KeptBelow(orig, Elems(rows), Mark(rows, i)) + orig[Mark(rows, i)..]
    ensures Mark(rows, i + 1) == rows[i] + 1
    ensures DeleteRow(b, rows[i]).cells ==
      Empties(b.width, i + 1) + KeptBelow(orig, Elems(rows), rows[i] + 1) + orig[rows[i] + 1..]
  {
    var p := Mark(rows, i);
    KeptStep(orig, rows, i);
    var e := Empties(b.width, i);
    DeleteRegroup(b, e, KeptBelow(orig, Elems(rows), p), orig, p, rows[i]);
    EmptiesCons(b.width, i);
  }

  lemma EmptiesCons(w: nat, k: nat)
    ensures Empties(w, k + 1) == [EmptyRow(w)] + Empties(w, k)
  {
    assert forall j :: 0 <= j < k + 1 ==> Empties(w, k + 1)[j] == ([EmptyRow(w)] + Empties(w, k))[j];
  }

  /** From the mark to the `i`-th row to remove every row is kept, and the
      rows kept below the mark are the mark less the `i` rows removed. */
  lemma KeptStep(orig: seq<seq<Cell>>, rows: seq<int>, i: nat)
    requires StrictlyAscending(rows) && InRange(rows, |orig|) && i < |rows|
    requires 0 <= Mark(rows, i) <= |orig|
    ensures Mark(rows, i) <= rows[i] < |orig|
    ensures |KeptBelow(orig, Elems(rows), Mark(rows, i))| + i == Mark(rows, i)
    ensures KeptBelow(orig, Elems(rows), rows[i] + 1) ==
      KeptBelow(orig, Elems(rows), Mark(rows, i)) + orig[Mark(rows, i)..rows[i]]
  {
    var p := Mark(rows, i);
    var del := Elems(rows);
    var r := rows[i];
    MarkBounds(rows, i);
    KeptLength(orig, rows, p, i);
    KeptRun(orig, del, p, r);
    assert r in del;
  }

  /** Deleting row `r` from `e + kept + orig[p..]` puts the new empty row in
      front of `e` and moves `orig[p..r]` after `kept`. */
  lemma DeleteRegroup(b: Board, e: seq<seq<Cell>>, kept: seq<seq<Cell>>, orig: seq<seq<Cell>>, p: nat, r: nat)
    requires WellFormed(b) && p <= r < |orig| && |e| + |kept| == p
    requires b.cells == e + kept + orig[p..]
    ensures r < b.height
    ensures DeleteRow(b, r).cells == ([EmptyRow(b.width)] + e) + (kept + orig[p..r]) + orig[r + 1..]
  {
    DeleteSplice(b, e + kept, orig, p, r);
    assert e + kept + orig[p..r] == e + (kept + orig[p..r]);
  }

  lemma {:induction false} RemoveSortedFrom(orig: seq<seq<Cell>>, b: Board, rows: seq<int>, i: nat)
    requires WellFormed(b) && |orig| == b.height
    requires StrictlyAscending(rows) && InRange(rows, b.height) && i <= |rows|
    requires 0 <= Mark(rows, i) <= |orig|
    requires b.cells == Empties(b.width, i) + KeptBelow(orig, Elems(rows), Mark(rows, i)) + orig[Mark(rows, i)..]
    ensures InRange(rows[i..], b.height)
    ensures RemoveSorted(b, rows[i..]).cells == Empties(b.width, |rows|) + Kept(orig, Elems(rows))
    decreases |rows| - i
  {
    if i == |rows| {
      assert rows[i..] == [];
      RemoveSortedEnd(orig, b, rows);
    } else {
      DeleteRowStep(orig, b, rows, i);
      RemoveSortedFrom(orig, DeleteRow(b, rows[i]), rows, i + 1);
      assert rows[i..][0] == rows[i] && rows[i..][1..] == rows[i + 1..];
    }
  }

  /** Once every row is deleted, no row to remove lies above the mark, so the
      untouched part is kept whole. */
  lemma RemoveSortedEnd(orig: seq<seq<Cell>>, b: Board, rows: seq<int>)
    requires |orig| == b.height
    requires StrictlyAscending(rows) && InRange(rows, b.height)
    requires 0 <= Mark(rows, |rows|) <= |orig|
    requires b.cells == Empties(b.width, |rows|) + KeptBelow(orig, Elems(rows), Mark(rows, |rows|)) + orig[Mark(rows, |rows|)..]
    ensures b.cells == Empties(b.width, |rows|) + Kept(orig, Elems(rows))
  {
    var p := Mark(rows, |rows|);
    var del := Elems(rows);
    forall v | v in del ensures !(p <= v < |orig|) {
      var k :| 0 <= k < |rows| && rows[k] == v;
      assert rows[k] <= rows[|rows| - 1];
    }
    KeptRun(orig, del, p, |orig|);
    assert orig[p..] == orig[p..|orig|];
  }

  /** `remove_lines` on distinct in-range rows: the board keeps its size, one
      empty row per removed row appears on top, and the other rows follow in
      their original order. */
  lemma RemoveLinesLayout(b: Board, rows: seq<int>)
    requires WellFormed(b) && InRange(rows, b.height) && Distinct(rows)
    ensures RemoveLines(b, rows).cells == Empties(b.width, |rows|) + Kept(b.cells, Elems(rows))
  {
    var sorted := SortRows(rows);
    SortRowsDistinct(rows);
    SortRowsInRange(rows, b.height);
    assert Elems(sorted) == Elems(rows);
    assert b.cells == Empties(b.width, 0) + KeptBelow(b.cells, Elems(sorted), 0) + b.cells[0..];
    RemoveSortedFrom(b.cells, b, sorted, 0);
    assert sorted[0..] == sorted;
  }
}
