/** What the keys, the pieces and the score of the game are, in the terms of its players. */
module TetrisLaws {
  import opened Bits
  import opened TetrisGrid
  import opened TetrisRules

  // ----- the pieces

  /** The upper two rows of each piece as it appears: I, J, L, O, S, T and Z. */
  function Picture(kind: nat): seq<string>
    requires kind < 7
  {
    [["....", "XXXX"], ["X...", "XXX."], ["..X.", "XXX."], [".XX.", ".XX."], [".XX.", "XX.."], [".X..", "XXX."],
     ["XX..", ".XX."]][kind]
  }

  lemma PiecesLookLikeThis(kind: nat, x: nat, y: nat)
    requires kind < 7 && x < 4 && y < 2
    ensures |Picture(kind)| == 2 && |Picture(kind)[y]| == 4
    ensures Point(x, y) in Body(kind, 0) <==> Picture(kind)[y][x] == 'X'
  {
    assert |Picture(kind)| == 2 && |Picture(kind)[0]| == 4 && |Picture(kind)[1]| == 4;
  }

  /** A quarter turn in the box of the piece: four wide for I, three for the others; O does not turn. */
  function Turned(kind: nat, p: Point): Point {
    if kind == 0 then Point(3 - p.y, p.x) else if kind == 3 then p else Point(2 - p.y, p.x)
  }

  /** The next rotation is the piece turned clockwise. */
  lemma RotationsAreQuarterTurns(kind: nat, rot: nat, p: Point)
    requires kind < 7 && rot < 4
    ensures p in Body(kind, rot) <==> Turned(kind, p) in Body(kind, (rot + 1) % 4)
  {
  }

  /** No two pieces have the same colour, and none the background's. */
  lemma ColoursAreUnique(j: nat, k: nat)
    requires j < k < 7
    ensures ColorOf(j) != ColorOf(k) && ColorOf(j) != 0 && ColorOf(k) != 0
  {
  }

  // ----- the keys

  /** The cell (x, y) of a piece at pos lies inside the field and is empty. */
  ghost predicate FreeCell(s: Game, d: Dims, p: Point, x: int, y: int)
    requires Shape(s.settled, d)
  {
    0 <= p.x + x < d.width && 0 <= p.y + y < d.height && s.settled[p.y + y][p.x + x] == 0
  }

  /** A piece has room at rotation rot and position pos. */
  ghost predicate HasRoom(s: Game, d: Dims, rot: nat, pos: Point)
    requires s.kind < 7 && rot < 4 && Shape(s.settled, d)
  {
    forall i :: 0 <= i < 4 ==> FreeCell(s, d, Body(s.kind, rot)[i], pos.x, pos.y)
  }

  lemma RoomIsFree(s: Game, d: Dims, rot: nat, pos: Point)
    requires s.kind < 7 && rot < 4 && Shape(s.settled, d)
    ensures HasRoom(s, d, rot, pos) <==> Free(s.settled, d, Cells(s.kind, rot, pos))
  {
    hide Body;
    var cells := Cells(s.kind, rot, pos);
    forall i | 0 <= i < 4
      ensures FreeCell(s, d, Body(s.kind, rot)[i], pos.x, pos.y) <==>
              d.Contains(cells[i]) && s.settled[cells[i].y][cells[i].x] == EMPTY_FIELD
    {
    }
  }

  /** Left and right move the piece by one column, and turning turns it clockwise, where there is room; otherwise
      nothing changes. */
  lemma SidewaysAndTurning(s: Game, d: Dims)
    requires s.WellFormed(d) && AllInside(s.Active(), d)
    ensures Press(Left, s, d) ==
            if HasRoom(s, d, s.rot, Point(s.pos.x - 1, s.pos.y)) then s.(pos := Point(s.pos.x - 1, s.pos.y)) else s
    ensures Press(Right, s, d) ==
            if HasRoom(s, d, s.rot, Point(s.pos.x + 1, s.pos.y)) then s.(pos := Point(s.pos.x + 1, s.pos.y)) else s
    ensures var next := if s.rot == 3 then 0 else s.rot + 1;
            Press(Rotate, s, d) == if HasRoom(s, d, next, s.pos) then s.(rot := next) else s
  {
    hide Body, Cells, Free, HasRoom;
    RoomIsFree(s, d, s.rot, Point(s.pos.x - 1, s.pos.y));
    RoomIsFree(s, d, s.rot, Point(s.pos.x + 1, s.pos.y));
    RoomIsFree(s, d, (s.rot + 1) % 4, s.pos);
  }

  /** Down moves the piece by one row where there is room, and places it otherwise. */
  lemma MovingDown(s: Game, d: Dims, rnd: nat)
    requires s.WellFormed(d) && AllInside(s.Active(), d)
    ensures Press(Down(rnd), s, d) ==
            if HasRoom(s, d, s.rot, Point(s.pos.x, s.pos.y + 1)) then s.(pos := Point(s.pos.x, s.pos.y + 1))
            else PlaceSpec(s, d, rnd)
  {
    hide Body, Cells, Free, HasRoom, PlaceSpec;
    RoomIsFree(s, d, s.rot, Point(s.pos.x, s.pos.y + 1));
  }

  /** There is room k rows further down. */
  ghost predicate RoomBelow(s: Game, d: Dims, k: nat)
    requires s.WellFormed(d)
  {
    HasRoom(s, d, s.rot, Point(s.pos.x, s.pos.y + k))
  }

  lemma RoomBelowIs(s: Game, d: Dims, k: nat)
    requires s.WellFormed(d)
    ensures RoomBelow(s, d, k) <==> s.CanMove(d, 0, k)
  {
    hide Body, Cells, Free, HasRoom;
    assert Point(s.pos.x + 0, s.pos.y + k) == Point(s.pos.x, s.pos.y + k);
    RoomIsFree(s, d, s.rot, Point(s.pos.x, s.pos.y + k));
  }

  /** A drop goes down row by row, two points each, to the first row without room below, and places the piece there. */
  lemma Dropping(s: Game, d: Dims, rnd: nat) returns (h: nat)
    requires s.WellFormed(d) && AllInside(s.Active(), d)
    ensures (forall k: nat :: 0 < k <= h ==> RoomBelow(s, d, k)) && !RoomBelow(s, d, h + 1)
    ensures var t := s.(pos := Point(s.pos.x, s.pos.y + h));
            && AllInside(t.Active(), d)
            && Press(Drop(rnd), s, d) == var r := PlaceSpec(t, d, rnd); r.(score := r.score + 2 * h)
  {
    hide Body, Cells, Free, RoomBelow, PlaceSpec, AllInside;
    h := Fall(s, d);
    FallIsMaximal(s, d);
    forall k: nat | 0 < k <= h ensures RoomBelow(s, d, k) {
      RoomBelowIs(s, d, k);
    }
    RoomBelowIs(s, d, h + 1);
  }

  // ----- placing

  /** The points for n lines at once. */
  function Points(n: nat, level: nat): nat {
    match n
    case 0 => 0
    case 1 => 100 + 50 * level
    case 2 => 200 + 50 * level
    case 3 => 400 + 50 * level
    case _ => 800 + 50 * level
  }

  lemma LinesScore(n: nat, level: nat)
    requires n <= 4
    ensures LineScore(n, level) == Points(n, level)
  {
    assert Pow2(0) == 1 && Pow2(1) == 2 && Pow2(2) == 4 && Pow2(3) == 8;
  }

  /** A cell of the piece in a hidden row ends the game, and changes nothing else. */
  lemma PlacingTooHigh(s: Game, d: Dims, rnd: nat)
    requires GoodGame(s, d) && exists i :: 0 <= i < 4 && s.Active()[i].y < d.hidden
    ensures PlaceSpec(s, d, rnd) == s.(blocked := true)
  {
    FreeIsInside(s.settled, d, s.Active());
  }

  /** Otherwise the piece settles in its colour, the full rows are counted, scored and taken out, the next piece
      comes in at the top, and the one behind it is drawn. */
  lemma Placing(s: Game, d: Dims, rnd: nat) returns (landed: Grid, n: nat)
    requires GoodGame(s, d) && !Overflows(s, d)
    ensures Shape(landed, d)
    ensures forall x: nat, y: nat :: x < d.width && y < d.height ==>
              landed[y][x] == if Point(x, y) in s.Active() then ColorOf(s.kind) else s.settled[y][x]
    ensures n <= 4 && n == |set y | d.hidden <= y < d.height && AllTaken(landed[y])|
    ensures var t := PlaceSpec(s, d, rnd);
            && t.kind == s.nextKind && t.rot == 0 && t.pos == Point(4, 0) && t.nextKind == rnd % 7
            && t.blocked == s.blocked && t.level == s.level && t.placed == s.placed + 1
            && t.lines == s.lines + n && t.score == s.score + Points(n, s.level)
            && t.settled == Cleared(landed, d)
  {
    FreeIsInside(s.settled, d, s.Active());
    landed := Landed(s, d);
    hide Body, Cells, Paint, Cleared, FullCount, Free;
    n := FullCount(landed[d.hidden..]);
    AtMostFourLines(s, d);
    LinesScore(n, s.level);
    forall x: nat, y: nat | x < d.width && y < d.height
      ensures landed[y][x] == if Point(x, y) in s.Active() then ColorOf(s.kind) else s.settled[y][x]
    {
      PaintAt(s.settled, d, s.Active(), ColorOf(s.kind), 0, x, y);
    }
    CountedRows(landed, d);
  }

  /** A row without an empty cell. */
  predicate AllTaken(row: seq<Color>) { forall x :: 0 <= x < |row| ==> row[x] != 0 }

  lemma CountedRows(g: Grid, d: Dims)
    requires Shape(g, d) && d.hidden <= d.height
    ensures FullCount(g[d.hidden..]) == |set y | d.hidden <= y < d.height && AllTaken(g[y])|
  {
    hide FullCount;
    CountFull(g, d.hidden, d.height);
    assert g[d.hidden..d.height] == g[d.hidden..];
  }

  lemma {:induction false} CountFull(g: Grid, a: nat, b: nat)
    requires a <= b <= |g|
    ensures FullCount(g[a..b]) == |set y | a <= y < b && AllTaken(g[y])|
    decreases b - a
  {
    var rows := set y | a <= y < b && AllTaken(g[y]);
    if a == b {
      assert rows == {};
    } else {
      CountFull(g, a + 1, b);
      var rest := set y | a + 1 <= y < b && AllTaken(g[y]);
      assert g[a..b][1..] == g[a + 1..b] && g[a..b][0] == g[a];
      if Full(g[a]) {
        assert rows == rest + {a};
      } else {
        assert rows == rest;
      }
    }
  }

  // ----- taking lines out

  /** `indices` says where the rows of `r` come from: their old positions, in the old order, no row with an empty
      cell left out. */
  ghost predicate ComesFrom(r: Grid, rows: Grid, first: nat, indices: seq<nat>) {
    && |indices| == |r|
    && (forall k :: 0 <= k < |indices| ==> TakenFrom(r, rows, first, indices, k))
    && (forall j, k :: 0 <= j < k < |indices| ==> indices[j] < indices[k])
    && forall y: nat :: first <= y < |rows| && !AllTaken(rows[y]) ==> y in indices
  }

  ghost predicate TakenFrom(r: Grid, rows: Grid, first: nat, indices: seq<nat>, k: nat)
    requires k < |indices| == |r|
  {
    first <= indices[k] < |rows| && !AllTaken(rows[indices[k]]) && r[k] == rows[indices[k]]
  }

  /** The rows from `first` on that are kept. */
  lemma {:induction false} KeptRows(rows: Grid, first: nat) returns (indices: seq<nat>)
    requires first <= |rows|
    ensures ComesFrom(NonFull(rows[first..]), rows, first, indices)
    decreases |rows| - first
  {
    hide AllTaken;
    if first == |rows| {
      indices := [];
    } else {
      var rest := KeptRows(rows, first + 1);
      assert rows[first..][1..] == rows[first + 1..];
      FullIsTaken(rows[first]);
      if Full(rows[first]) {
        indices := rest;
        SkipRow(NonFull(rows[first + 1..]), rows, first, rest);
      } else {
        indices := [first] + rest;
        KeepRow(NonFull(rows[first + 1..]), rows, first, rest);
      }
    }
  }

  lemma FullIsTaken(row: seq<Color>)
    ensures Full(row) <==> AllTaken(row)
  {
  }

  lemma SkipRow(r: Grid, rows: Grid, first: nat, rest: seq<nat>)
    requires first < |rows| && AllTaken(rows[first]) && ComesFrom(r, rows, first + 1, rest)
    ensures ComesFrom([] + r, rows, first, rest)
  {
    hide AllTaken;
    assert [] + r == r;
    forall k | 0 <= k < |rest| ensures TakenFrom(r, rows, first, rest, k) {
      assert TakenFrom(r, rows, first + 1, rest, k);
    }
  }

  lemma KeepRow(r: Grid, rows: Grid, first: nat, rest: seq<nat>)
    requires first < |rows| && !AllTaken(rows[first]) && ComesFrom(r, rows, first + 1, rest)
    ensures ComesFrom([rows[first]] + r, rows, first, [first] + rest)
  {
    hide AllTaken;
    var indices, all := [first] + rest, [rows[first]] + r;
    forall k | 0 <= k < |indices| ensures TakenFrom(all, rows, first, indices, k) {
      if k > 0 { assert TakenFrom(r, rows, first + 1, rest, k - 1); }
    }
    forall j, k | 0 <= j < k < |indices| ensures indices[j] < indices[k] {
      assert TakenFrom(r, rows, first + 1, rest, k - 1);
      if j > 0 { assert rest[j - 1] < rest[k - 1]; }
    }
    forall y: nat | first <= y < |rows| && !AllTaken(rows[y]) ensures y in indices {
      if y == first { assert indices[0] == y; } else { assert y in rest; }
    }
  }

  /** After line removal: the hidden rows stay, the rows that are not full lie at the bottom in their old order, and
      the rows between are blank. */
  lemma ClearedRows(g: Grid, d: Dims) returns (indices: seq<nat>)
    requires Shape(g, d) && d.Valid()
    ensures |Cleared(g, d)| == d.height && |indices| <= d.height - d.hidden
    ensures Cleared(g, d)[..d.hidden] == g[..d.hidden]
    ensures forall y :: d.hidden <= y < d.height - |indices| ==>
              |Cleared(g, d)[y]| == d.width && forall x :: 0 <= x < d.width ==> Cleared(g, d)[y][x] == 0
    ensures ComesFrom(Cleared(g, d)[d.height - |indices|..], g, d.hidden, indices)
  {
    hide NonFull, ComesFrom, Full, FullCount;
    var visible := g[d.hidden..];
    indices := KeptRows(g, d.hidden);
    KeptLength(NonFull(visible), g, d.hidden, indices);
    CountAll(visible);
    var top, blank, kept := g[..d.hidden], Pad(FullCount(visible), d.width), NonFull(visible);
    assert (top + blank + kept)[..d.hidden] == top;
    assert (top + blank + kept)[d.height - |indices|..] == kept;
    forall y | d.hidden <= y < d.height - |indices|
      ensures |Cleared(g, d)[y]| == d.width && forall x :: 0 <= x < d.width ==> Cleared(g, d)[y][x] == 0
    {
      assert (top + blank + kept)[y] == blank[y - d.hidden] == Blank(d.width);
    }
  }

  lemma KeptLength(r: Grid, rows: Grid, first: nat, indices: seq<nat>)
    requires ComesFrom(r, rows, first, indices)
    ensures |indices| == |r|
  {
  }

  lemma CountAll(rows: Grid)
    ensures FullCount(rows) + |NonFull(rows)| == |rows|
  {
  }

  /** A game starts with an empty field, level 1 and no points. */
  lemma Starting(d: Dims, kind: nat, nextKind: nat)
    ensures var s := NewGame(d, kind, nextKind);
            && |s.settled| == d.height && (forall y :: 0 <= y < d.height ==> |s.settled[y]| == d.width)
            && (forall x, y :: 0 <= y < d.height && 0 <= x < d.width ==> s.settled[y][x] == 0)
            && s.kind == kind && s.nextKind == nextKind && s.rot == 0 && s.pos == Point(4, 0)
            && !s.blocked && s.level == 1 && s.lines == 0 && s.score == 0 && s.placed == 0
  {
  }
}
