/** Board.c and Piece.c on their objects: the mutable field with the active piece drawn into it. */
module TetrisBoard {
  import opened Bits
  import opened TetrisGrid
  import opened TetrisRules

  class Piece {
    var kind: nat
    var rotation: nat
    var pos: Point

    ghost predicate Valid()
      reads this
    {
      kind < KINDS && rotation < 4
    }

    constructor (rnd: nat)
      ensures Valid() && kind == rnd % KINDS && rotation == 0
    {
      kind, rotation, pos := rnd % KINDS, 0, Point(0, 0);
    }

    method Randomize(rnd: nat)
      modifies this
      ensures Valid() && kind == rnd % KINDS && rotation == 0 && pos == old(pos)
    {
      kind := rnd % KINDS;
      rotation := 0;
    }

    method RotateCW()
      requires Valid()
      modifies this`rotation
      ensures rotation == (old(rotation) + 1) % 4
    {
      rotation := (rotation + 1) % 4;
    }

    /** Undoes RotateCW. */
    method RotateCCW()
      requires Valid()
      modifies this`rotation
      ensures rotation < 4 && (rotation + 1) % 4 == old(rotation)
    {
      if rotation == 0 { rotation := 3; } else { rotation := rotation - 1; }
    }

    function Cells(): (r: seq<Point>)
      requires Valid()
      reads this
    {
      TetrisRules.Cells(kind, rotation, pos)
    }
  }

  class Board {
    const d: Dims
    var fields: array2<Color>
    var activePiece: Piece
    var nextPiece: Piece
    var blocked: bool
    var level: nat
    var lines: nat
    var score: nat

    /** What `fields` shows, row by row. */
    ghost var grid: Grid
    /** How many pieces have settled. */
    ghost var placed: nat

    ghost predicate Shows()
      reads this, fields
    {
      && d.Valid() && Shape(grid, d)
      && fields.Length0 == d.height && fields.Length1 == d.width
      && forall y, x :: 0 <= y < d.height && 0 <= x < d.width ==> fields[y, x] == grid[y][x]
    }

    ghost predicate Valid()
      reads this, fields, activePiece, nextPiece
    {
      && Shows()
      && activePiece != nextPiece && activePiece.Valid() && nextPiece.Valid() && nextPiece.rotation == 0
      && AllInside(activePiece.Cells(), d)
    }

    /** The field without the active piece. */
    ghost function Settled(): (g: Grid)
      requires Valid()
      reads this, fields, activePiece, nextPiece
      ensures Shape(g, d)
    {
      Paint(grid, d, activePiece.Cells(), EMPTY_FIELD, 0)
    }

    /** The game this board is in. */
    ghost function State(): (s: Game)
      requires Valid()
      reads this, fields, activePiece, nextPiece
    {
      Game(Settled(), activePiece.kind, activePiece.rotation, activePiece.pos, nextPiece.kind,
           blocked, level, lines, score, placed)
    }

    /** The invariant of the game between two keys. */
    ghost predicate Good()
      reads this, fields, activePiece, nextPiece
    {
      Valid() && GoodGame(State(), d)
    }

    /** The visible part of the active piece is on the screen, in the piece's colour. */
    ghost predicate Drawn()
      requires Valid()
      reads this, fields, activePiece, nextPiece
    {
      ShowsCells(grid, d, activePiece.Cells(), ColorOf(activePiece.kind), d.hidden)
    }

    /** ConstructBoard, with the random draws of its two pieces and of the next one. */
    constructor (d: Dims, first: nat, second: nat, third: nat)
      requires d.Valid()
      ensures Good() && this.d == d && State() == NewGame(d, first % KINDS, third % KINDS) && Drawn()
    {
      hide Body, TetrisRules.Cells, Paint, Free, Full;
      this.d := d;
      fields := new Color[d.height, d.width]((_, _) => EMPTY_FIELD);
      blocked, level, lines, score := false, 1, 0, 0;
      nextPiece := new Piece(first);
      activePiece := new Piece(second);
      grid, placed := Pad(d.height, d.width), 0;
      new;
      LoadNextPiece(third);
      NewGameIsGood(d, first % KINDS, third % KINDS);
      WipeFree(grid, d, activePiece.Cells(), 0);
    }

    // ----- single fields

    method RedrawField(x: nat, y: nat, color: Color)
      requires Shows() && x < d.width && y < d.height
      modifies fields, this`grid
      ensures Shows() && grid == Put(old(grid), d, Point(x, y), color, d.hidden)
    {
      if y >= d.hidden {
        fields[y, x] := color;
        grid := Put(grid, d, Point(x, y), color, 0);
      }
    }

    method MarkFieldsOccupiedByPiece(color: Color)
      requires Valid()
      modifies fields, this`grid
      ensures Valid() && grid == Paint(old(grid), d, activePiece.Cells(), color, 0)
      ensures Settled() == old(Settled()) && (color == ColorOf(activePiece.kind) ==> Drawn())
    {
      hide Body, TetrisRules.Cells;
      ghost var g, cells := grid, activePiece.Cells();
      for i := 0 to 4
        invariant Valid() && activePiece.Cells() == cells
        invariant grid == Paint(g, d, cells[..i], color, 0)
      {
        assert cells[..i + 1][..i] == cells[..i];
        var p := activePiece.Cells()[i];
        fields[p.y, p.x] := color;
        grid := Put(grid, d, p, color, 0);
      }
      assert cells[..4] == cells;
      WipeForgetsPaint(g, d, cells, color, 0);
      PaintedIsShown(g, d, cells, color, 0, d.hidden);
    }

    method DrawFieldsOccupiedByPiece(color: Color)
      requires Valid()
      modifies fields, this`grid
      ensures Valid() && grid == Paint(old(grid), d, activePiece.Cells(), color, d.hidden)
      ensures Settled() == old(Settled()) && (color == ColorOf(activePiece.kind) ==> Drawn())
    {
      hide Body, TetrisRules.Cells;
      ghost var g, cells := grid, activePiece.Cells();
      for i := 0 to 4
        invariant Valid() && activePiece.Cells() == cells
        invariant grid == Paint(g, d, cells[..i], color, d.hidden)
      {
        assert cells[..i + 1][..i] == cells[..i];
        var p := activePiece.Cells()[i];
        RedrawField(p.x, p.y, color);
      }
      assert cells[..4] == cells;
      WipeForgetsPaint(g, d, cells, color, d.hidden);
      PaintedIsShown(g, d, cells, color, d.hidden, d.hidden);
    }

    method IsMovePossible(dx: int, dy: int) returns (r: bool)
      requires Shows() && activePiece.Valid()
      ensures r <==> Free(grid, d, TetrisRules.Cells(activePiece.kind, activePiece.rotation,
                                                     Point(activePiece.pos.x + dx, activePiece.pos.y + dy)))
    {
      hide Body;
      ghost var cells := TetrisRules.Cells(activePiece.kind, activePiece.rotation,
                                           Point(activePiece.pos.x + dx, activePiece.pos.y + dy));
      for i := 0 to 4
        invariant forall j :: 0 <= j < i ==> d.Contains(cells[j]) && grid[cells[j].y][cells[j].x] == EMPTY_FIELD
      {
        var b := Body(activePiece.kind, activePiece.rotation)[i];
        var fx, fy := b.x + activePiece.pos.x + dx, b.y + activePiece.pos.y + dy;
        assert cells[i] == Point(fx, fy);
        if fx < 0 || fx >= d.width || fy < 0 || fy >= d.height || fields[fy, fx] != EMPTY_FIELD {
          return false;
        }
      }
      r := true;
    }

    // ----- keys

    method MovePieceSideways(dx: int)
      requires Good()
      modifies fields, this`grid, activePiece`pos
      ensures Good() && State() == ShiftSpec(old(State()), d, dx) && Drawn()
    {
      hide Body, TetrisRules.Cells, Paint, Free, Shape;
      ghost var s := State();
      MarkFieldsOccupiedByPiece(EMPTY_FIELD);
      var possible := IsMovePossible(dx, 0);
      if possible {
        WipeFree(s.settled, d, activePiece.Cells(), d.hidden);
        DrawFieldsOccupiedByPiece(EMPTY_FIELD);
        activePiece.pos := Point(activePiece.pos.x + dx, activePiece.pos.y);
        assert activePiece.pos == Point(s.pos.x + dx, s.pos.y + 0);
        WipeFree(grid, d, activePiece.Cells(), 0);
        assert Valid() && Settled() == s.settled;
        DrawFieldsOccupiedByPiece(ColorOf(activePiece.kind));
      }
      MarkFieldsOccupiedByPiece(ColorOf(activePiece.kind));
    }

    method MovePieceLeft()
      requires Good()
      modifies fields, this`grid, activePiece`pos
      ensures Good() && State() == Press(Left, old(State()), d) && Drawn()
    {
      hide Body, TetrisRules.Cells, ShiftSpec;
      MovePieceSideways(-1);
    }

    method MovePieceRight()
      requires Good()
      modifies fields, this`grid, activePiece`pos
      ensures Good() && State() == Press(Right, old(State()), d) && Drawn()
    {
      hide Body, TetrisRules.Cells, ShiftSpec;
      MovePieceSideways(1);
    }

    method RotatePiece()
      requires Good()
      modifies fields, this`grid, activePiece`rotation
      ensures Good() && State() == Press(Rotate, old(State()), d) && Drawn()
    {
      hide Body, TetrisRules.Cells, Paint, Free, Shape, AllInside, Press, GoodGame;
      ghost var s := State();
      RotatingKeeps(s, d);
      MarkFieldsOccupiedByPiece(EMPTY_FIELD);
      activePiece.RotateCW();
      assert Point(s.pos.x + 0, s.pos.y + 0) == s.pos;
      var possible := IsMovePossible(0, 0);
      if !possible {
        activePiece.RotateCCW();
        assert activePiece.rotation == s.rot;
        MarkFieldsOccupiedByPiece(ColorOf(activePiece.kind));
      } else {
        activePiece.RotateCCW();
        assert activePiece.rotation == s.rot;
        RepaintTurned();
      }
    }

    /** The piece, which is not in the field, is turned and drawn. */
    method RepaintTurned()
      requires Valid() && Free(grid, d, activePiece.Cells())
      requires Free(grid, d, TetrisRules.Cells(activePiece.kind, (activePiece.rotation + 1) % 4, activePiece.pos))
      modifies fields, this`grid, activePiece`rotation
      ensures Valid() && Settled() == old(grid) && activePiece.rotation == old(activePiece.rotation + 1) % 4 && Drawn()
    {
      hide Body, TetrisRules.Cells, Paint, Free, Shape;
      ghost var g := grid;
      WipeFree(g, d, activePiece.Cells(), d.hidden);
      DrawFieldsOccupiedByPiece(EMPTY_FIELD);
      activePiece.RotateCW();
      WipeFree(g, d, activePiece.Cells(), 0);
      assert Valid() && Settled() == g;
      DrawFieldsOccupiedByPiece(ColorOf(activePiece.kind));
    }

    method LoadNextPiece(rnd: nat)
      requires Shows() && activePiece != nextPiece && activePiece.Valid() && nextPiece.Valid()
      requires nextPiece.rotation == 0 && HiddenEmpty(grid, d)
      modifies this`activePiece, this`nextPiece, activePiece, nextPiece
      ensures Valid() && activePiece == old(nextPiece) && nextPiece == old(activePiece)
      ensures activePiece.kind == old(nextPiece.kind) && activePiece.rotation == 0 && activePiece.pos == START
      ensures nextPiece.kind == rnd % KINDS
      ensures Free(grid, d, activePiece.Cells()) && Drawn()
    {
      hide Body, TetrisRules.Cells;
      var tmp := activePiece;
      activePiece := nextPiece;
      nextPiece := tmp;
      nextPiece.Randomize(rnd);
      activePiece.pos := START;
      NewPieceIsFree(grid, d, activePiece.kind);
      NewPieceIsHidden(activePiece.kind);
    }

    // ----- line removal

    /** The scan that stops at the first empty field of a row. */
    method RowIsFull(i: nat) returns (lineWasFull: bool)
      requires Shows() && i < d.height
      ensures lineWasFull <==> Full(grid[i])
    {
      lineWasFull := true;
      for j := 0 to d.width
        invariant lineWasFull && forall x :: 0 <= x < j ==> grid[i][x] != EMPTY_FIELD
      {
        if fields[i, j] == EMPTY_FIELD {
          lineWasFull := false;
          break;
        }
      }
    }

    /** Row i is blanked. */
    method BlankRow(i: nat)
      requires Shows() && d.hidden <= i < d.height
      modifies fields, this`grid
      ensures Shows() && grid == old(grid)[i := Blank(d.width)]
    {
      ghost var g := grid;
      for j := 0 to d.width
        invariant Shows()
        invariant forall y :: 0 <= y < d.height && y != i ==> grid[y] == g[y]
        invariant forall x :: 0 <= x < j ==> grid[i][x] == EMPTY_FIELD
      {
        RedrawField(j, i, EMPTY_FIELD);
      }
      assert grid[i] == Blank(d.width);
    }

    /** Row j becomes a copy of the row above, unless it is an invisible row. */
    method CopyRowDown(j: nat)
      requires Shows() && 0 < j < d.height
      modifies fields, this`grid
      ensures Shows() && grid == if j >= d.hidden then old(grid)[j := old(grid)[j - 1]] else old(grid)
    {
      ghost var g := grid;
      for k := 0 to d.width
        invariant Shows()
        invariant forall y :: 0 <= y < d.height && y != j ==> grid[y] == g[y]
        invariant forall x :: 0 <= x < d.width ==> grid[j][x] == if x < k && j >= d.hidden then g[j - 1][x] else g[j][x]
      {
        RedrawField(k, j, fields[j - 1, k]);
      }
      assert grid[j] == if j >= d.hidden then g[j - 1] else g[j];
    }

    /** The visible rows above i move down by one. */
    method RemoveRow(i: nat)
      requires Shows() && d.hidden <= i < d.height
      modifies fields, this`grid
      ensures Shows()
      ensures grid == RowRemoved(old(grid), d, i)
    {
      hide Shows, RowRemoved;
      ShownShape();
      ghost var g := grid;
      BlankRow(i);
      var j := i;
      ShownShape();
      while j > 0
        invariant j <= i && Shows() && Shape(grid, d)
        invariant forall y :: 0 <= y < d.height && (y > i || y < d.hidden) ==> grid[y] == g[y]
        invariant forall y :: 0 <= y <= j && y != i ==> grid[y] == g[y]
        invariant forall y :: j < y <= i && d.hidden <= y ==> grid[y] == g[y - 1]
      {
        CopyRowDown(j);
        ShownShape();
        j := j - 1;
      }
      RowRemovedIs(g, grid, d, i);
    }

    lemma ShownShape()
      requires Shows()
      ensures d.Valid() && Shape(grid, d)
    {
    }

    /** The loop that revisits a row after a removal; it counts the removed lines. */
    method RemoveLines() returns (counter: nat)
      requires Shows() && HiddenEmpty(grid, d)
      modifies fields, this`grid
      ensures Shows() && grid == Cleared(old(grid), d)
      ensures counter == FullCount(old(grid)[d.hidden..])
    {
      hide Full, FullCount, NonFull, PartlyCleared, Cleared, RowRemoved, HiddenEmpty, Shows;
      ShownShape();
      ghost var g := grid;
      ghost var q: nat := d.height - d.hidden;
      counter := 0;
      var i := d.height - 1;
      ClearingStarts(g, d);
      while i >= d.hidden
        invariant d.hidden - 1 <= i < d.height && Shows()
        invariant q <= d.height - d.hidden && grid == PartlyCleared(g, d, q)
        invariant counter == FullCount(g[d.hidden + q..])
        invariant q > 0 ==> i + 1 == d.hidden + q + counter
        invariant q == 0 ==> i < d.hidden + counter
        // i++ after a removal revisits row i, but with one row fewer left to look at
        decreases q, i
      {
        ShownShape();
        if q > 0 { RowInTurn(g, d, q, i); } else { NothingLeft(g, d, i); }
        var lineWasFull := RowIsFull(i);
        if q > 0 { Tail(g, d, q); }
        if lineWasFull {
          RowGoes(g, d, q, i);
          RemoveRow(i);
          i := i + 1;
          counter := counter + 1;
        } else if q > 0 {
          RowStays(g, d, q);
        }
        q := if q > 0 then q - 1 else 0;
        i := i - 1;
      }
      assert q == 0 && g[d.hidden + q..] == g[d.hidden..];
    }

    method CheckAndRemoveLines()
      requires Shows() && HiddenEmpty(grid, d)
      modifies fields, this`grid, this`lines, this`score
      ensures Shows() && grid == Cleared(old(grid), d)
      ensures lines == old(lines) + FullCount(old(grid)[d.hidden..])
      ensures score == old(score) + LineScore(FullCount(old(grid)[d.hidden..]), level)
    {
      hide FullCount, Cleared, HiddenEmpty;
      var counter := RemoveLines();
      lines := lines + counter;
      if counter != 0 {
        score := score + Shl(LINE_CLEAR_SCORE, counter - 1);
        score := score + LINE_CLEAR_LEVEL_BONUS_SCORE * level;
      }
    }

    // ----- landing

    method IsGameOver() returns (r: bool)
      requires Valid()
      ensures r <==> Overflows(State(), d)
    {
      hide Body, TetrisRules.Cells, Paint;
      r := false;
      assert State().Active() == activePiece.Cells();
      for i := 0 to 4
        invariant !r && forall j :: 0 <= j < i ==> activePiece.Cells()[j].y >= d.hidden
      {
        if activePiece.Cells()[i].y < d.hidden {
          assert State().Active()[i].y < d.hidden;
          return true;
        }
      }
    }

    method PlacePiece(rnd: nat)
      requires Good() && grid == Landed(State(), d) && Drawn()
      modifies this, fields, activePiece, nextPiece
      ensures fields == old(fields) && {activePiece, nextPiece} == old({activePiece, nextPiece})
      ensures Good() && State() == PlaceSpec(old(State()), d, rnd) && Drawn()
    {
      hide Body, TetrisRules.Cells, Paint, Cleared, FullCount, HiddenEmpty;
      ghost var s := State();
      PlaceKeeps(s, d, rnd);
      var over := IsGameOver();
      if over {
        blocked := true;
      } else {
        LandingKeeps(s, d);
        CheckAndRemoveLines();
        placed := placed + 1;
        LoadNextPiece(rnd);
        WipeFree(grid, d, activePiece.Cells(), 0);
      }
    }

    method MovePieceDown(rnd: nat) returns (moved: bool)
      requires Good()
      modifies this, fields, activePiece, nextPiece
      ensures fields == old(fields) && {activePiece, nextPiece} == old({activePiece, nextPiece})
      ensures Good() && State() == Press(Down(rnd), old(State()), d) && Drawn()
      ensures moved <==> old(State().CanMove(d, 0, 1))
      ensures moved ==> activePiece == old(activePiece)
    {
      hide Body, TetrisRules.Cells, Paint, Free, PlaceSpec;
      ghost var s := State();
      MarkFieldsOccupiedByPiece(EMPTY_FIELD);
      var possible := IsMovePossible(0, 1);
      if possible {
        WipeFree(s.settled, d, activePiece.Cells(), d.hidden);
        DrawFieldsOccupiedByPiece(EMPTY_FIELD);
        activePiece.pos := Point(activePiece.pos.x, activePiece.pos.y + 1);
        assert activePiece.pos == Point(s.pos.x + 0, s.pos.y + 1);
        WipeFree(grid, d, activePiece.Cells(), 0);
        assert Valid() && Settled() == s.settled;
        DrawFieldsOccupiedByPiece(ColorOf(activePiece.kind));
        moved := true;
      } else {
        MarkFieldsOccupiedByPiece(ColorOf(activePiece.kind));
        assert State() == s;
        PlacePiece(rnd);
        moved := false;
      }
    }

    /** The piece falls as far as it can, then lands. */
    method DropPiece(rnd: nat)
      requires Good()
      modifies this, fields, activePiece, nextPiece
      ensures Good() && State() == Press(Drop(rnd), old(State()), d) && Drawn()
    {
      hide Body, TetrisRules.Cells, Paint, Free, DropSpec, PlaceSpec;
      ghost var s := State();
      var height := 0;
      var moved := true;
      while moved
        invariant fields == old(fields) && {activePiece, nextPiece} == old({activePiece, nextPiece})
        invariant Good() && (!moved ==> Drawn())
        invariant moved ==> AddBonus(DropSpec(State(), d, rnd), height) == DropSpec(s, d, rnd)
        invariant !moved ==> AddBonus(State(), height) == DropSpec(s, d, rnd)
        decreases if moved then 1 + d.height - activePiece.pos.y else 0
      {
        ghost var t := State();
        DropIsRepeatedDown(t, d, rnd);
        CellsLieBelowPos(t.kind, t.rot, t.pos);
        moved := MovePieceDown(rnd);
        if moved { height := height + 1; }
      }
      score := score + DROP_BONUS_SCORE_PER_LINE * height;
    }
  }

  ghost function AddBonus(s: Game, height: nat): Game {
    s.(score := s.score + DROP_BONUS_SCORE_PER_LINE * height)
  }
}
