/** The playing field of Board.c as a value: painting cells, and removing full lines by filtering. */
module TetrisGrid {
  type Color = int
  type Grid = seq<seq<Color>>

  /** EFI_BLACK */
  const EMPTY_FIELD: Color := 0

  datatype Point = Point(x: int, y: int)

  /** BOARD_HEIGHT, BOARD_WIDTH and INVISIBLE_ROWS_COUNT.  A starting piece, four columns wide from
      column 4 and two rows high, fits in the invisible rows. */
  datatype Dims = Dims(height: nat, width: nat, hidden: nat) {
    ghost predicate Valid() {
      2 <= hidden < height && 8 <= width
    }

    ghost predicate Contains(p: Point) {
      0 <= p.x < width && 0 <= p.y < height
    }
  }

  ghost predicate Shape(g: Grid, d: Dims) {
    |g| == d.height && forall y :: 0 <= y < |g| ==> |g[y]| == d.width
  }

  // ----- painting

  /** One write to the field, which rows above `top` ignore. */
  function Put(g: Grid, d: Dims, p: Point, c: Color, top: nat): (r: Grid)
    requires Shape(g, d) && d.Contains(p)
    ensures Shape(r, d)
  {
    if p.y >= top then g[p.y := g[p.y][p.x := c]] else g
  }

  ghost predicate AllInside(cells: seq<Point>, d: Dims) {
    forall i :: 0 <= i < |cells| ==> d.Contains(cells[i])
  }

  function Paint(g: Grid, d: Dims, cells: seq<Point>, c: Color, top: nat): (r: Grid)
    requires Shape(g, d) && AllInside(cells, d)
    ensures Shape(r, d)
  {
    if cells == [] then g
    else
      var n := |cells| - 1;
      Put(Paint(g, d, cells[..n], c, top), d, cells[n], c, top)
  }

  lemma {:induction false} PaintAt(g: Grid, d: Dims, cells: seq<Point>, c: Color, top: nat, x: nat, y: nat)
    requires Shape(g, d) && AllInside(cells, d) && x < d.width && y < d.height
    ensures Paint(g, d, cells, c, top)[y][x] == if Point(x, y) in cells && y >= top then c else g[y][x]
  {
    if cells != [] {
      var n := |cells| - 1;
      PaintAt(g, d, cells[..n], c, top, x, y);
      assert cells == cells[..n] + [cells[n]];
    }
  }

  /** All cells from row `top` on show the colour. */
  ghost predicate ShowsCells(g: Grid, d: Dims, cells: seq<Point>, c: Color, top: nat)
    requires Shape(g, d) && AllInside(cells, d)
  {
    forall i :: 0 <= i < |cells| && cells[i].y >= top ==> g[cells[i].y][cells[i].x] == c
  }

  lemma PaintedIsShown(g: Grid, d: Dims, cells: seq<Point>, c: Color, top: nat, shown: nat)
    requires Shape(g, d) && AllInside(cells, d) && top <= shown
    ensures ShowsCells(Paint(g, d, cells, c, top), d, cells, c, shown)
  {
    forall i | 0 <= i < |cells| && cells[i].y >= shown
      ensures Paint(g, d, cells, c, top)[cells[i].y][cells[i].x] == c
    {
      PaintAt(g, d, cells, c, top, cells[i].x, cells[i].y);
      assert cells[i] in cells;
    }
  }

  ghost predicate Free(g: Grid, d: Dims, cells: seq<Point>)
    requires Shape(g, d)
  {
    forall i :: 0 <= i < |cells| ==> d.Contains(cells[i]) && g[cells[i].y][cells[i].x] == EMPTY_FIELD
  }

  lemma GridsEqual(g: Grid, h: Grid, d: Dims)
    requires Shape(g, d) && Shape(h, d)
    requires forall x, y :: 0 <= x < d.width && 0 <= y < d.height ==> g[y][x] == h[y][x]
    ensures g == h
  {
    forall y | 0 <= y < d.height
      ensures g[y] == h[y]
    {
      assert forall x :: 0 <= x < d.width ==> g[y][x] == h[y][x];
    }
  }

  /** Wiping forgets whatever was painted on the same cells. */
  lemma WipeForgetsPaint(g: Grid, d: Dims, cells: seq<Point>, c: Color, top: nat)
    requires Shape(g, d) && AllInside(cells, d)
    ensures Paint(Paint(g, d, cells, c, top), d, cells, EMPTY_FIELD, 0) == Paint(g, d, cells, EMPTY_FIELD, 0)
  {
    var painted := Paint(g, d, cells, c, top);
    var wiped, plain := Paint(painted, d, cells, EMPTY_FIELD, 0), Paint(g, d, cells, EMPTY_FIELD, 0);
    forall x, y | 0 <= x < d.width && 0 <= y < d.height
      ensures wiped[y][x] == plain[y][x]
    {
      PaintAt(g, d, cells, c, top, x, y);
      PaintAt(painted, d, cells, EMPTY_FIELD, 0, x, y);
      PaintAt(g, d, cells, EMPTY_FIELD, 0, x, y);
    }
    GridsEqual(wiped, plain, d);
  }

  /** Wiping cells that are free changes nothing. */
  lemma WipeFree(g: Grid, d: Dims, cells: seq<Point>, top: nat)
    requires Shape(g, d) && Free(g, d, cells)
    ensures AllInside(cells, d) && Paint(g, d, cells, EMPTY_FIELD, top) == g
  {
    forall x, y | 0 <= x < d.width && 0 <= y < d.height
      ensures Paint(g, d, cells, EMPTY_FIELD, top)[y][x] == g[y][x]
    {
      PaintAt(g, d, cells, EMPTY_FIELD, top, x, y);
    }
    GridsEqual(Paint(g, d, cells, EMPTY_FIELD, top), g, d);
  }

  // ----- full lines

  predicate Full(row: seq<Color>) {
    forall x :: 0 <= x < |row| ==> row[x] != EMPTY_FIELD
  }

  function Blank(width: nat): (r: seq<Color>)
    ensures |r| == width && forall x :: 0 <= x < width ==> r[x] == EMPTY_FIELD
  {
    seq(width, _ => EMPTY_FIELD)
  }

  function Pad(n: nat, width: nat): (r: Grid)
    ensures |r| == n && forall y :: 0 <= y < n ==> r[y] == Blank(width)
  {
    seq(n, _ => Blank(width))
  }

  /** The rows that are not full, in order. */
  function NonFull(rows: Grid): (r: Grid)
    ensures |r| <= |rows|
    ensures forall y :: 0 <= y < |r| ==> r[y] in rows && !Full(r[y])
  {
    if rows == [] then []
    else (if Full(rows[0]) then [] else [rows[0]]) + NonFull(rows[1..])
  }

  function FullCount(rows: Grid): nat { |rows| - |NonFull(rows)| }

  ghost predicate HiddenEmpty(g: Grid, d: Dims)
    requires Shape(g, d) && d.Valid()
  {
    forall y :: 0 <= y < d.hidden ==> g[y] == Blank(d.width)
  }

  /** The field after line removal: the visible rows that are not full keep their order at the bottom. */
  function Cleared(g: Grid, d: Dims): Grid
    requires |g| == d.height && d.hidden <= d.height
  {
    var visible := g[d.hidden..];
    g[..d.hidden] + Pad(FullCount(visible), d.width) + NonFull(visible)
  }

  // ----- clearing row by row

  /** Row i goes, the visible rows above it move down, and the top one becomes a copy of the lowest
      invisible row. */
  function RowRemoved(g: Grid, d: Dims, i: nat): Grid
    requires |g| == d.height && 0 < d.hidden <= i < d.height
  {
    g[..d.hidden] + [g[d.hidden - 1]] + g[d.hidden..i] + g[i + 1..]
  }

  lemma RowRemovedIs(g: Grid, h: Grid, d: Dims, i: nat)
    requires |g| == |h| == d.height && 0 < d.hidden <= i < d.height
    requires forall y :: 0 <= y < d.height && (y > i || y < d.hidden) ==> h[y] == g[y]
    requires forall y :: d.hidden <= y <= i ==> h[y] == g[y - 1]
    ensures h == RowRemoved(g, d, i)
  {
    assert forall y :: 0 <= y < d.height ==> h[y] == RowRemoved(g, d, i)[y];
  }

  /** Line removal when the lowest visible rows, those from index q on, have been looked at. */
  function PartlyCleared(g: Grid, d: Dims, q: nat): Grid
    requires |g| == d.height && d.hidden + q <= d.height
  {
    var v := g[d.hidden..];
    g[..d.hidden] + Pad(FullCount(v[q..]), d.width) + v[..q] + NonFull(v[q..])
  }

  lemma ClearingStarts(g: Grid, d: Dims)
    requires Shape(g, d) && d.Valid()
    ensures PartlyCleared(g, d, d.height - d.hidden) == g
    ensures FullCount(g[d.height..]) == 0
    ensures PartlyCleared(g, d, 0) == Cleared(g, d)
  {
    var v := g[d.hidden..];
    assert v[d.height - d.hidden..] == [] && v[..d.height - d.hidden] == v;
    assert v[0..] == v && v[..0] == [];
  }

  lemma PartlyClearedParts(g: Grid, d: Dims, q: nat)
    requires Shape(g, d) && d.Valid() && d.hidden + q <= d.height
    ensures Shape(PartlyCleared(g, d, q), d)
    ensures forall y :: 0 <= y < d.hidden ==> PartlyCleared(g, d, q)[y] == g[y]
    ensures var n := FullCount(g[d.hidden + q..]); var cur := PartlyCleared(g, d, q);
            && cur[d.hidden..d.hidden + n] == Pad(n, d.width)
            && cur[d.hidden + n..d.hidden + n + q] == g[d.hidden..d.hidden + q]
            && cur[d.hidden + n + q..] == NonFull(g[d.hidden + q..])
  {
    var v := g[d.hidden..];
    assert v[q..] == g[d.hidden + q..] && v[..q] == g[d.hidden..d.hidden + q];
    var rest := NonFull(v[q..]);
    assert forall y :: 0 <= y < |v[q..]| ==> |v[q..][y]| == d.width;
    assert forall y :: 0 <= y < |rest| ==> |rest[y]| == d.width;
  }

  /** When all rows have been looked at, the rows still above are blank. */
  lemma NothingLeft(g: Grid, d: Dims, i: nat)
    requires Shape(g, d) && d.Valid() && d.hidden <= i < d.hidden + FullCount(g[d.hidden..])
    ensures i < |PartlyCleared(g, d, 0)| && !Full(PartlyCleared(g, d, 0)[i])
  {
    PartlyClearedParts(g, d, 0);
    assert g[d.hidden + 0..] == g[d.hidden..];
    var cur, n := PartlyCleared(g, d, 0), FullCount(g[d.hidden..]);
    assert cur[i] == cur[d.hidden..d.hidden + n][i - d.hidden] == Blank(d.width);
    assert cur[i][0] == EMPTY_FIELD;
  }

  /** Row i shows the next row to look at. */
  lemma RowInTurn(g: Grid, d: Dims, q: nat, i: nat)
    requires Shape(g, d) && d.Valid() && 0 < q && d.hidden + q <= d.height
    requires i + 1 == d.hidden + q + FullCount(g[d.hidden + q..])
    ensures i < d.height && |PartlyCleared(g, d, q)| == d.height
    ensures PartlyCleared(g, d, q)[i] == g[d.hidden + q - 1]
  {
    PartlyClearedParts(g, d, q);
    var cur, n := PartlyCleared(g, d, q), FullCount(g[d.hidden + q..]);
    assert cur[i] == cur[d.hidden + n..d.hidden + n + q][q - 1] == g[d.hidden..d.hidden + q][q - 1];
  }

  lemma Tail(g: Grid, d: Dims, q: nat)
    requires |g| == d.height && 0 < q && d.hidden + q <= d.height
    ensures var row := g[d.hidden + q - 1];
            if Full(row) then
              && NonFull(g[d.hidden + q - 1..]) == NonFull(g[d.hidden + q..])
              && FullCount(g[d.hidden + q - 1..]) == FullCount(g[d.hidden + q..]) + 1
            else
              && NonFull(g[d.hidden + q - 1..]) == [row] + NonFull(g[d.hidden + q..])
              && FullCount(g[d.hidden + q - 1..]) == FullCount(g[d.hidden + q..])
  {
    assert g[d.hidden + q - 1..][1..] == g[d.hidden + q..];
  }

  /** A row that is not full stays where it is. */
  lemma RowStays(g: Grid, d: Dims, q: nat)
    requires Shape(g, d) && d.Valid() && 0 < q && d.hidden + q <= d.height && !Full(g[d.hidden + q - 1])
    ensures PartlyCleared(g, d, q - 1) == PartlyCleared(g, d, q)
  {
    hide FullCount, NonFull, Full, Shape, PartlyCleared, Pad;
    Parts(g, d, q);
    Parts(g, d, q - 1);
    Tail(g, d, q);
    SplitLast(g, d.hidden, d.hidden + q - 1);
    var row, n := g[d.hidden + q - 1], FullCount(g[d.hidden + q..]);
    MoveBracket(g[..d.hidden] + Pad(n, d.width), g[d.hidden..d.hidden + q - 1], [row], NonFull(g[d.hidden + q..]));
  }

  lemma MoveBracket(a: Grid, b: Grid, c: Grid, e: Grid)
    ensures a + (b + c) + e == a + b + (c + e)
  {
  }

  /** A full row goes, and the rows above it close up. */
  lemma RowGoes(g: Grid, d: Dims, q: nat, i: nat)
    requires Shape(g, d) && d.Valid() && HiddenEmpty(g, d)
    requires 0 < q && d.hidden + q <= d.height && Full(g[d.hidden + q - 1])
    requires i + 1 == d.hidden + q + FullCount(g[d.hidden + q..])
    ensures i < d.height && PartlyCleared(g, d, q - 1) == RowRemoved(PartlyCleared(g, d, q), d, i)
  {
    hide FullCount, NonFull, Full, Shape, PartlyCleared, RowRemoved, Pad, HiddenEmpty;
    RowInTurn(g, d, q, i);
    Parts(g, d, q);
    Parts(g, d, q - 1);
    Tail(g, d, q);
    LowestHidden(g, d);
    var n, k := FullCount(g[d.hidden + q..]), d.hidden + q - 1;
    SplitLast(g, d.hidden, k);
    TakeOut(PartlyCleared(g, d, q), d, i, g[..d.hidden], Pad(n, d.width), g[d.hidden..k], g[k],
            NonFull(g[d.hidden + q..]));
    OnePadMore(n, d.width);
  }

  /** The four parts of a partly cleared field. */
  lemma Parts(g: Grid, d: Dims, q: nat)
    requires Shape(g, d) && d.Valid() && d.hidden + q <= d.height
    ensures |g| == d.height && |Pad(FullCount(g[d.hidden + q..]), d.width)| == FullCount(g[d.hidden + q..])
    ensures PartlyCleared(g, d, q)
         == g[..d.hidden] + Pad(FullCount(g[d.hidden + q..]), d.width)
            + g[d.hidden..d.hidden + q] + NonFull(g[d.hidden + q..])
  {
    var v := g[d.hidden..];
    assert v[q..] == g[d.hidden + q..] && v[..q] == g[d.hidden..d.hidden + q];
  }

  lemma LowestHidden(g: Grid, d: Dims)
    requires Shape(g, d) && d.Valid() && HiddenEmpty(g, d)
    ensures 0 < d.hidden <= |g| && g[d.hidden - 1] == Blank(d.width)
  {
  }

  lemma SplitLast(g: Grid, a: nat, k: nat)
    requires a <= k < |g|
    ensures g[a..k + 1] == g[a..k] + [g[k]]
  {
  }

  /** A row taken out of the lower part makes room for a blank one below the hidden rows. */
  lemma TakeOut(cur: Grid, d: Dims, i: nat, top: Grid, pad: Grid, above: Grid, row: seq<Color>, rest: Grid)
    requires |cur| == d.height && cur == top + pad + (above + [row]) + rest
    requires 0 < |top| == d.hidden && i == |top| + |pad| + |above| && top[d.hidden - 1] == Blank(d.width)
    ensures RowRemoved(cur, d, i) == top + ([Blank(d.width)] + pad) + above + rest
  {
    assert cur[..d.hidden] == top && cur[d.hidden..i] == pad + above && cur[i + 1..] == rest;
    assert cur[d.hidden - 1] == top[d.hidden - 1];
  }

  lemma OnePadMore(n: nat, width: nat)
    ensures [Blank(width)] + Pad(n, width) == Pad(n + 1, width)
  {
  }

  // ----- counting cells

  function RowCount(row: seq<Color>): (n: nat)
    ensures n <= |row|
  {
    if row == [] then 0 else (if row[0] == EMPTY_FIELD then 0 else 1) + RowCount(row[1..])
  }

  function CellCount(g: Grid): nat {
    if g == [] then 0 else RowCount(g[0]) + CellCount(g[1..])
  }

  lemma {:induction false} RowCountPut(row: seq<Color>, x: nat, c: Color)
    requires x < |row| && row[x] == EMPTY_FIELD && c != EMPTY_FIELD
    ensures RowCount(row[x := c]) == RowCount(row) + 1
  {
    var after := row[x := c];
    if x == 0 {
      assert after[1..] == row[1..];
    } else {
      assert after[1..] == row[1..][x - 1 := c];
      RowCountPut(row[1..], x - 1, c);
    }
  }

  lemma {:induction false} CellCountRow(g: Grid, y: nat, row: seq<Color>)
    requires y < |g|
    ensures CellCount(g[y := row]) == CellCount(g) - RowCount(g[y]) + RowCount(row)
  {
    var after := g[y := row];
    if y == 0 {
      assert after[1..] == g[1..];
    } else {
      assert after[1..] == g[1..][y - 1 := row];
      CellCountRow(g[1..], y - 1, row);
    }
  }

  lemma {:induction false} CellCountJoin(a: Grid, b: Grid)
    ensures CellCount(a + b) == CellCount(a) + CellCount(b)
  {
    if a == [] {
      assert a + b == b;
    } else {
      assert (a + b)[1..] == a[1..] + b;
      CellCountJoin(a[1..], b);
    }
  }

  ghost predicate Distinct(cells: seq<Point>) {
    forall i, j :: 0 <= i < j < |cells| ==> cells[i] != cells[j]
  }

  /** Painting free distinct cells adds that many. */
  lemma {:induction false} PaintAdds(g: Grid, d: Dims, cells: seq<Point>, c: Color)
    requires Shape(g, d) && Free(g, d, cells) && Distinct(cells) && c != EMPTY_FIELD
    ensures AllInside(cells, d)
    ensures CellCount(Paint(g, d, cells, c, 0)) == CellCount(g) + |cells|
  {
    if cells != [] {
      var n := |cells| - 1;
      var p, before := cells[n], cells[..n];
      PaintAdds(g, d, before, c);
      PaintAt(g, d, before, c, 0, p.x, p.y);
      assert Point(p.x, p.y) == p;
      assert p !in before;
      var painted := Paint(g, d, before, c, 0);
      RowCountPut(painted[p.y], p.x, c);
      CellCountRow(painted, p.y, painted[p.y][p.x := c]);
    }
  }

  lemma {:induction false} FullRowCount(row: seq<Color>)
    requires Full(row)
    ensures RowCount(row) == |row|
  {
    if row != [] { FullRowCount(row[1..]); }
  }

  lemma {:induction false} BlankRowCount(width: nat)
    ensures RowCount(Blank(width)) == 0
  {
    if width > 0 {
      assert Blank(width)[1..] == Blank(width - 1);
      BlankRowCount(width - 1);
    }
  }

  lemma {:induction false} PadCount(n: nat, width: nat)
    ensures CellCount(Pad(n, width)) == 0
  {
    if n > 0 {
      assert Pad(n, width)[1..] == Pad(n - 1, width);
      BlankRowCount(width);
      PadCount(n - 1, width);
    }
  }

  /** Filtering takes away exactly the cells of the full rows. */
  lemma {:induction false} NonFullCount(rows: Grid, width: nat)
    requires forall y :: 0 <= y < |rows| ==> |rows[y]| == width
    ensures CellCount(NonFull(rows)) + width * FullCount(rows) == CellCount(rows)
  {
    hide NonFull, FullCount, Full;
    if rows == [] {
      NoRows();
    } else {
      NonFullCount(rows[1..], width);
      NonFullStep(rows);
      OneMore(width, FullCount(rows[1..]));
    }
  }

  lemma NoRows()
    ensures NonFull([]) == [] && FullCount([]) == 0
  {
  }

  lemma OneMore(w: nat, n: nat)
    ensures w * (n + 1) == w * n + w
  {
  }

  lemma NonFullStep(rows: Grid)
    requires rows != []
    ensures Full(rows[0]) ==> FullCount(rows) == FullCount(rows[1..]) + 1 && RowCount(rows[0]) == |rows[0]|
                              && CellCount(NonFull(rows)) == CellCount(NonFull(rows[1..]))
    ensures !Full(rows[0]) ==> FullCount(rows) == FullCount(rows[1..])
                               && CellCount(NonFull(rows)) == RowCount(rows[0]) + CellCount(NonFull(rows[1..]))
  {
    if Full(rows[0]) {
      FullRowCount(rows[0]);
      assert NonFull(rows) == NonFull(rows[1..]);
    } else {
      assert NonFull(rows) == [rows[0]] + NonFull(rows[1..]);
      CellCountCons(rows[0], NonFull(rows[1..]));
    }
  }

  lemma CellCountCons(row: seq<Color>, g: Grid)
    ensures CellCount([row] + g) == RowCount(row) + CellCount(g)
  {
    assert ([row] + g)[1..] == g;
  }

  lemma ClearedCount(g: Grid, d: Dims)
    requires Shape(g, d) && d.Valid()
    ensures CellCount(Cleared(g, d)) + d.width * FullCount(g[d.hidden..]) == CellCount(g)
  {
    hide CellCount, FullCount, NonFull;
    var top, visible := g[..d.hidden], g[d.hidden..];
    var pad := Pad(FullCount(visible), d.width);
    assert g == top + visible;
    CellCountJoin(top, visible);
    CellCountJoin(top, pad);
    CellCountJoin(top + pad, NonFull(visible));
    PadCount(FullCount(visible), d.width);
    NonFullCount(visible, d.width);
  }

  /** Line removal loses width cells a line, keeps the shape and leaves no full line. */
  lemma ClearedFacts(g: Grid, d: Dims)
    requires Shape(g, d) && d.Valid() && HiddenEmpty(g, d)
    ensures var r := Cleared(g, d);
            && Shape(r, d) && HiddenEmpty(r, d)
            && CellCount(r) + d.width * FullCount(g[d.hidden..]) == CellCount(g)
            && forall y :: 0 <= y < d.height ==> !Full(r[y])
  {
    var visible := g[d.hidden..];
    var n := FullCount(visible);
    var r := Cleared(g, d);
    ClearedCount(g, d);
    forall y | 0 <= y < d.height
      ensures |r[y]| == d.width && !Full(r[y])
    {
      if y < d.hidden + n {
        assert r[y] == Blank(d.width);
        assert r[y][0] == EMPTY_FIELD;
      } else {
        assert r[y] == NonFull(visible)[y - d.hidden - n];
      }
    }
  }

  // ----- bounds on what one piece can complete

  /** If no row was full before, only rows that were painted on can be full. */
  lemma {:induction false} FullCountBound(rows: Grid, painted: set<int>, first: int)
    requires forall y :: 0 <= y < |rows| && first + y !in painted ==> !Full(rows[y])
    ensures FullCount(rows) <= |set y | y in painted && first <= y|
    decreases |rows|
  {
    var here := set y | y in painted && first <= y;
    if rows != [] {
      var later := set y | y in painted && first + 1 <= y;
      assert forall y :: 0 <= y < |rows[1..]| ==> rows[1..][y] == rows[y + 1];
      FullCountBound(rows[1..], painted, first + 1);
      if Full(rows[0]) {
        assert here == later + {first};
      } else {
        assert later <= here;
        assert here == later + (here - later);
        assert |here| == |later| + |here - later|;
      }
    }
  }
}
