/** The game of Board.c on values: what each key does to the settled cells, the active piece and the
    score, and what every sequence of keys keeps. */
module TetrisRules {
  import opened Bits
  import opened TetrisGrid

  const KINDS: nat := 7
  const START: Point := Point(4, 0)
  const DROP_BONUS_SCORE_PER_LINE: nat := 2
  const LINE_CLEAR_SCORE: nat := 100
  const LINE_CLEAR_LEVEL_BONUS_SCORE: nat := 50

  // ----- pieces

  /** TETRIMINO_I_BODY to TETRIMINO_Z_BODY: four points for each kind and rotation. */
  function Body(kind: nat, rot: nat): (r: seq<Point>)
    requires kind < KINDS && rot < 4
    ensures |r| == 4
  {
    var P := (x: int, y: int) => Point(x, y);
    match kind
    case 0 => (match rot
      case 0 => [P(0, 1), P(1, 1), P(2, 1), P(3, 1)]
      case 1 => [P(2, 0), P(2, 1), P(2, 2), P(2, 3)]
      case 2 => [P(0, 2), P(1, 2), P(2, 2), P(3, 2)]
      case _ => [P(1, 0), P(1, 1), P(1, 2), P(1, 3)])
    case 1 => (match rot
      case 0 => [P(0, 0), P(0, 1), P(1, 1), P(2, 1)]
      case 1 => [P(1, 2), P(1, 1), P(1, 0), P(2, 0)]
      case 2 => [P(0, 1), P(1, 1), P(2, 1), P(2, 2)]
      case _ => [P(0, 2), P(1, 2), P(1, 1), P(1, 0)])
    case 2 => (match rot
      case 0 => [P(0, 1), P(1, 1), P(2, 1), P(2, 0)]
      case 1 => [P(1, 2), P(1, 1), P(1, 0), P(2, 2)]
      case 2 => [P(0, 1), P(1, 1), P(2, 1), P(0, 2)]
      case _ => [P(0, 0), P(1, 2), P(1, 1), P(1, 0)])
    case 3 => [P(1, 0), P(1, 1), P(2, 0), P(2, 1)]
    case 4 => (match rot
      case 0 => [P(0, 1), P(1, 1), P(1, 0), P(2, 0)]
      case 1 => [P(1, 0), P(1, 1), P(2, 1), P(2, 2)]
      case 2 => [P(0, 2), P(1, 2), P(1, 1), P(2, 1)]
      case _ => [P(0, 0), P(0, 1), P(1, 1), P(1, 2)])
    case 5 => (match rot
      case 0 => [P(0, 1), P(1, 1), P(2, 1), P(1, 0)]
      case 1 => [P(1, 0), P(1, 1), P(1, 2), P(2, 1)]
      case 2 => [P(0, 1), P(1, 1), P(2, 1), P(1, 2)]
      case _ => [P(1, 0), P(1, 1), P(1, 2), P(0, 1)])
    case _ => (match rot
      case 0 => [P(2, 1), P(1, 1), P(1, 0), P(0, 0)]
      case 1 => [P(1, 2), P(1, 1), P(2, 1), P(2, 0)]
      case 2 => [P(2, 2), P(1, 2), P(1, 1), P(0, 1)]
      case _ => [P(0, 2), P(0, 1), P(1, 1), P(1, 0)])
  }

  /** The EFI text colour of each kind; none is EFI_BLACK. */
  function ColorOf(kind: nat): (c: Color)
    requires kind < KINDS
    ensures c != EMPTY_FIELD
  {
    [0x0B, 0x09, 0x02, 0x0E, 0x0A, 0x05, 0x0D][kind]
  }

  lemma BodyFacts(kind: nat, rot: nat)
    requires kind < KINDS && rot < 4
    ensures Distinct(Body(kind, rot))
    ensures forall i :: 0 <= i < 4 ==> 0 <= Body(kind, rot)[i].x < 4 && 0 <= Body(kind, rot)[i].y < 4
    ensures rot == 0 ==> forall i :: 0 <= i < 4 ==> Body(kind, rot)[i].y < 2
  {
  }

  function Cells(kind: nat, rot: nat, pos: Point): (r: seq<Point>)
    requires kind < KINDS && rot < 4
    ensures |r| == 4
  {
    hide Body;
    var b := Body(kind, rot);
    seq(4, i requires 0 <= i < 4 => Point(b[i].x + pos.x, b[i].y + pos.y))
  }

  // ----- states and keys

  datatype Game = Game(settled: Grid, kind: nat, rot: nat, pos: Point, nextKind: nat,
                       blocked: bool, level: nat, lines: nat, score: nat, placed: nat) {
    ghost predicate WellFormed(d: Dims) {
      d.Valid() && Shape(settled, d) && kind < KINDS && rot < 4 && nextKind < KINDS
    }

    function Active(): seq<Point>
      requires kind < KINDS && rot < 4
    {
      Cells(kind, rot, pos)
    }

    /** isMovePossible, asked with the active piece lifted off the field. */
    ghost predicate CanMove(d: Dims, dx: int, dy: int)
      requires WellFormed(d)
    {
      Free(settled, d, Cells(kind, rot, Point(pos.x + dx, pos.y + dy)))
    }
  }

  /** A key press; `rnd` is what rand() answers if a new piece is drawn. */
  datatype Key = Rotate | Left | Right | Down(rnd: nat) | Drop(rnd: nat)

  ghost function RotateSpec(s: Game, d: Dims): Game
    requires s.WellFormed(d)
  {
    if Free(s.settled, d, Cells(s.kind, (s.rot + 1) % 4, s.pos)) then s.(rot := (s.rot + 1) % 4) else s
  }

  ghost function ShiftSpec(s: Game, d: Dims, dx: int): Game
    requires s.WellFormed(d)
  {
    if s.CanMove(d, dx, 0) then s.(pos := Point(s.pos.x + dx, s.pos.y)) else s
  }

  /** Score of removing n lines at once. */
  function LineScore(n: nat, level: nat): nat {
    if n == 0 then 0 else Shl(LINE_CLEAR_SCORE, n - 1) + LINE_CLEAR_LEVEL_BONUS_SCORE * level
  }

  function Landed(s: Game, d: Dims): Grid
    requires s.WellFormed(d) && AllInside(s.Active(), d)
  {
    Paint(s.settled, d, s.Active(), ColorOf(s.kind), 0)
  }

  ghost predicate Overflows(s: Game, d: Dims)
    requires s.WellFormed(d)
  {
    exists i :: 0 <= i < 4 && s.Active()[i].y < d.hidden
  }

  /** placePiece: game over, or the piece settles, lines go and the next piece comes in. */
  ghost function PlaceSpec(s: Game, d: Dims, rnd: nat): Game
    requires s.WellFormed(d) && AllInside(s.Active(), d)
  {
    if Overflows(s, d) then s.(blocked := true)
    else
      var landed := Landed(s, d);
      var n := FullCount(landed[d.hidden..]);
      Game(Cleared(landed, d), s.nextKind, 0, START, rnd % KINDS, s.blocked, s.level,
           s.lines + n, s.score + LineScore(n, s.level), s.placed + 1)
  }

  ghost function DownSpec(s: Game, d: Dims, rnd: nat): Game
    requires s.WellFormed(d) && AllInside(s.Active(), d)
  {
    if s.CanMove(d, 0, 1) then s.(pos := Point(s.pos.x, s.pos.y + 1)) else PlaceSpec(s, d, rnd)
  }

  lemma CellsLieBelowPos(kind: nat, rot: nat, pos: Point)
    requires kind < KINDS && rot < 4
    ensures Cells(kind, rot, pos)[0].y >= pos.y
  {
    hide Body;
    BodyFacts(kind, rot);
  }

  /** How far the active piece falls. */
  ghost function Fall(s: Game, d: Dims): (h: nat)
    requires s.WellFormed(d) && AllInside(s.Active(), d)
    decreases d.height - s.pos.y
  {
    hide Body, Cells;
    CellsLieBelowPos(s.kind, s.rot, s.pos);
    if s.CanMove(d, 0, 1) then 1 + Fall(s.(pos := Point(s.pos.x, s.pos.y + 1)), d) else 0
  }

  /** It falls through free cells, and as far as it can. */
  lemma {:induction false} FallIsMaximal(s: Game, d: Dims)
    requires s.WellFormed(d) && AllInside(s.Active(), d)
    ensures forall k :: 0 < k <= Fall(s, d) ==> s.CanMove(d, 0, k)
    ensures !s.CanMove(d, 0, Fall(s, d) + 1)
    ensures AllInside(s.(pos := Point(s.pos.x, s.pos.y + Fall(s, d))).Active(), d)
    decreases d.height - s.pos.y
  {
    hide Body, Cells, Free, AllInside;
    CellsLieBelowPos(s.kind, s.rot, s.pos);
    assert s.Active()[0].y < d.height by { InsideAt(s.Active(), d, 0); }
    if s.CanMove(d, 0, 1) {
      var t := s.(pos := Point(s.pos.x, s.pos.y + 1));
      FreeIsInside(s.settled, d, t.Active());
      FallIsMaximal(t, d);
      var h := Fall(t, d);
      forall k | 0 < k <= h + 1
        ensures s.CanMove(d, 0, k)
      {
        if k > 1 { assert t.CanMove(d, 0, k - 1); }
      }
      assert s.CanMove(d, 0, h + 2) == t.CanMove(d, 0, h + 1);
    }
  }

  lemma InsideAt(cells: seq<Point>, d: Dims, i: nat)
    requires AllInside(cells, d) && i < |cells|
    ensures d.Contains(cells[i])
  {
  }

  lemma FreeIsInside(g: Grid, d: Dims, cells: seq<Point>)
    requires Shape(g, d) && Free(g, d, cells)
    ensures AllInside(cells, d)
  {
  }

  ghost function DropSpec(s: Game, d: Dims, rnd: nat): Game
    requires s.WellFormed(d) && AllInside(s.Active(), d)
  {
    hide Body, Cells;
    var h := Fall(s, d);
    FallIsMaximal(s, d);
    var r := PlaceSpec(s.(pos := Point(s.pos.x, s.pos.y + h)), d, rnd);
    r.(score := r.score + DROP_BONUS_SCORE_PER_LINE * h)
  }

  ghost function Press(key: Key, s: Game, d: Dims): Game
    requires s.WellFormed(d) && AllInside(s.Active(), d)
  {
    hide Body, Cells;
    match key
    case Rotate => RotateSpec(s, d)
    case Left => ShiftSpec(s, d, -1)
    case Right => ShiftSpec(s, d, 1)
    case Down(rnd) => DownSpec(s, d, rnd)
    case Drop(rnd) => DropSpec(s, d, rnd)
  }

  // ----- what every game keeps

  /** The active piece is in bounds and clear of settled cells, the invisible rows hold no settled
      cell, no settled row is full, and cells are only gained by landing and lost by lines. */
  ghost predicate GoodGame(s: Game, d: Dims) {
    && s.WellFormed(d)
    && Free(s.settled, d, s.Active())
    && HiddenEmpty(s.settled, d)
    && (forall y :: 0 <= y < d.height ==> !Full(s.settled[y]))
    && CellCount(s.settled) + d.width * s.lines == 4 * s.placed
  }

  /** A new piece fits the invisible rows, which are empty, so it never collides. */
  lemma NewPieceIsFree(g: Grid, d: Dims, kind: nat)
    requires d.Valid() && Shape(g, d) && HiddenEmpty(g, d) && kind < KINDS
    ensures Free(g, d, Cells(kind, 0, START))
  {
    hide Body;
    BodyFacts(kind, 0);
    var cells := Cells(kind, 0, START);
    forall i | 0 <= i < 4
      ensures d.Contains(cells[i]) && g[cells[i].y][cells[i].x] == EMPTY_FIELD
    {
      assert g[cells[i].y] == Blank(d.width);
    }
  }

  /** A new piece lies in the first two rows. */
  lemma NewPieceIsHidden(kind: nat)
    requires kind < KINDS
    ensures forall i :: 0 <= i < 4 ==> Cells(kind, 0, START)[i].y < 2
  {
    hide Body;
    BodyFacts(kind, 0);
  }

  lemma CellsDistinct(kind: nat, rot: nat, pos: Point)
    requires kind < KINDS && rot < 4
    ensures Distinct(Cells(kind, rot, pos))
  {
    hide Body;
    BodyFacts(kind, rot);
  }

  /** Landing and clearing: four cells in, `width` cells out for each line, nothing above the visible rows. */
  lemma LandingKeeps(s: Game, d: Dims)
    requires GoodGame(s, d) && !Overflows(s, d)
    ensures Shape(Landed(s, d), d) && HiddenEmpty(Landed(s, d), d)
    ensures CellCount(Landed(s, d)) == CellCount(s.settled) + 4
  {
    hide Body, Cells;
    CellsDistinct(s.kind, s.rot, s.pos);
    PaintAdds(s.settled, d, s.Active(), ColorOf(s.kind));
    var landed := Landed(s, d);
    forall y | 0 <= y < d.hidden
      ensures landed[y] == Blank(d.width)
    {
      forall x | 0 <= x < d.width
        ensures landed[y][x] == EMPTY_FIELD
      {
        PaintAt(s.settled, d, s.Active(), ColorOf(s.kind), 0, x, y);
        assert s.settled[y] == Blank(d.width);
      }
    }
  }

  lemma PlaceKeeps(s: Game, d: Dims, rnd: nat)
    requires GoodGame(s, d)
    ensures GoodGame(PlaceSpec(s, d, rnd), d)
  {
    FreeIsInside(s.settled, d, s.Active());
    hide Body, Cells, Cleared, FullCount, HiddenEmpty, Paint, Free;
    if !Overflows(s, d) {
      LandingKeeps(s, d);
      var landed := Landed(s, d);
      ClearedFacts(landed, d);
      NewPieceIsFree(Cleared(landed, d), d, s.nextKind);
      LineArithmetic(d.width, s.lines, FullCount(landed[d.hidden..]));
    }
  }

  lemma LineArithmetic(w: nat, a: nat, b: nat)
    ensures w * (a + b) == w * a + w * b
  {
  }

  lemma DropKeeps(s: Game, d: Dims, rnd: nat)
    requires GoodGame(s, d)
    ensures GoodGame(DropSpec(s, d, rnd), d)
  {
    hide Body, Cells, PlaceSpec;
    var h := Fall(s, d);
    FallIsMaximal(s, d);
    var t := s.(pos := Point(s.pos.x, s.pos.y + h));
    if h > 0 {
      assert s.CanMove(d, 0, h);
    } else {
      assert t == s;
    }
    PlaceKeeps(t, d, rnd);
  }

  lemma PressKeeps(key: Key, s: Game, d: Dims)
    requires GoodGame(s, d)
    ensures GoodGame(Press(key, s, d), d)
  {
    hide Body, Cells, PlaceSpec, DropSpec;
    match key {
      case Rotate =>
      case Left =>
      case Right =>
      case Down(rnd) => PlaceKeeps(s, d, rnd);
      case Drop(rnd) => DropKeeps(s, d, rnd);
    }
  }

  lemma RotatingKeeps(s: Game, d: Dims)
    requires GoodGame(s, d)
    ensures GoodGame(Press(Rotate, s, d), d) && Free(s.settled, d, s.Active())
    ensures var turned := s.(rot := (s.rot + 1) % 4);
            Press(Rotate, s, d) == if Free(s.settled, d, turned.Active()) then turned else s
  {
    hide Body, Cells, Free;
    PressKeeps(Rotate, s, d);
  }

  ghost function Play(keys: seq<Key>, s: Game, d: Dims): Game
    requires GoodGame(s, d)
    decreases |keys|
  {
    hide Body, Cells;
    if keys == [] then s
    else
      PressKeeps(keys[0], s, d);
      Play(keys[1..], Press(keys[0], s, d), d)
  }

  function NewGame(d: Dims, kind: nat, nextKind: nat): Game {
    Game(Pad(d.height, d.width), kind, 0, START, nextKind, false, 1, 0, 0, 0)
  }

  /** Every game, however played, stays good from the first piece on. */
  lemma {:induction false} EveryGameIsGood(keys: seq<Key>, s: Game, d: Dims)
    requires GoodGame(s, d)
    ensures GoodGame(Play(keys, s, d), d)
    decreases |keys|
  {
    hide Body, Cells;
    if keys != [] {
      PressKeeps(keys[0], s, d);
      EveryGameIsGood(keys[1..], Press(keys[0], s, d), d);
    }
  }

  lemma NewGameIsGood(d: Dims, kind: nat, nextKind: nat)
    requires d.Valid() && kind < KINDS && nextKind < KINDS
    ensures GoodGame(NewGame(d, kind, nextKind), d)
  {
    hide Body, Cells;
    var g := Pad(d.height, d.width);
    NewPieceIsFree(g, d, kind);
    PadCount(d.height, d.width);
    forall y | 0 <= y < d.height
      ensures !Full(g[y])
    {
      assert g[y][0] == EMPTY_FIELD;
    }
  }

  /** One piece completes at most four lines, so the score shift is at most three. */
  lemma AtMostFourLines(s: Game, d: Dims)
    requires GoodGame(s, d) && !Overflows(s, d)
    ensures FullCount(Landed(s, d)[d.hidden..]) <= 4
  {
    hide Body, Cells, FullCount, Full;
    var cells, landed := s.Active(), Landed(s, d);
    var painted := {cells[0].y, cells[1].y, cells[2].y, cells[3].y};
    var rows := landed[d.hidden..];
    forall y | 0 <= y < |rows| && d.hidden + y !in painted
      ensures !Full(rows[y])
    {
      UntouchedRowStays(s, d, d.hidden + y);
    }
    FullCountBound(rows, painted, d.hidden);
    SubsetBound((set y | y in painted && d.hidden <= y), painted);
  }

  lemma UntouchedRowStays(s: Game, d: Dims, y: nat)
    requires GoodGame(s, d) && y < d.height && forall i :: 0 <= i < 4 ==> s.Active()[i].y != y
    ensures !Full(Landed(s, d)[y])
  {
    hide Body, Cells;
    var row := s.settled[y];
    assert !Full(row);
    var x :| 0 <= x < |row| && row[x] == EMPTY_FIELD;
    PaintAt(s.settled, d, s.Active(), ColorOf(s.kind), 0, x, y);
    assert Landed(s, d)[y][x] == EMPTY_FIELD;
  }

  lemma SubsetBound(a: set<int>, b: set<int>)
    requires a <= b
    ensures |a| <= |b|
  {
    assert b == a + (b - a);
  }

  /** Dropping is moving down until the piece lands, with two points a row. */
  lemma {:induction false} DropIsRepeatedDown(s: Game, d: Dims, rnd: nat)
    requires s.WellFormed(d) && AllInside(s.Active(), d)
    ensures !s.CanMove(d, 0, 1) ==> DropSpec(s, d, rnd) == DownSpec(s, d, rnd)
    ensures s.CanMove(d, 0, 1) ==>
              AllInside(DownSpec(s, d, rnd).Active(), d)
              && DropSpec(s, d, rnd) ==
                 var r := DropSpec(DownSpec(s, d, rnd), d, rnd); r.(score := r.score + DROP_BONUS_SCORE_PER_LINE)
  {
    hide Body, Cells, PlaceSpec;
    if s.CanMove(d, 0, 1) {
      var t := s.(pos := Point(s.pos.x, s.pos.y + 1));
      var h := Fall(t, d);
      assert Fall(s, d) == h + 1;
      assert t.(pos := Point(t.pos.x, t.pos.y + h)) == s.(pos := Point(s.pos.x, s.pos.y + (h + 1)));
    } else {
      assert s.(pos := Point(s.pos.x, s.pos.y + 0)) == s;
    }
  }
}
