/** The pixels of a terminal: each cell's box shows the cell's glyph
    (rootfs/lib/beer/term.beer:95-178; rootfs/lib/beer/font.beer:124-129). */
module TermPixels {
  import opened Options
  import opened Pictures
  import opened TermState
  import Gfx

  const WORD: nat := 0x1_0000_0000

  /** Where the terminal is on its surface, and its font. */
  datatype Geometry = Geometry(x: nat, y: nat, scale: nat, fw: nat, fh: nat, glyph: char -> seq<seq<bool>>)

  ghost predicate Sane(g: Geometry) {
    && g.scale > 0 && g.fw > 0 && g.fh > 0
    && forall c :: |g.glyph(c)| == g.fh && forall r :: 0 <= r < g.fh ==> |g.glyph(c)[r]| == g.fw
  }

  ghost predicate SpaceIsBlank(g: Geometry)
    requires Sane(g)
  {
    forall r, c :: 0 <= r < g.fh && 0 <= c < g.fw ==> !g.glyph(' ')[r][c]
  }

  function Cw(g: Geometry): nat { g.scale * g.fw }
  function Ch(g: Geometry): nat { g.scale * g.fh }

  /** The k-th grid line. */
  function Edge(base: nat, step: nat, k: nat): nat { base + k * step }

  function Left(g: Geometry, col: nat): nat { Edge(g.x, Cw(g), col) }
  function Upper(g: Geometry, row: nat): nat { Edge(g.y, Ch(g), row) }

  lemma EdgeSpan(base: nat, step: nat, a: nat, b: nat)
    requires a <= b
    ensures Edge(base, step, b) == Edge(base, step, a) + (b - a) * step
    ensures a < b ==> Edge(base, step, a) + step <= Edge(base, step, b)
    ensures Edge(base, step, a) <= Edge(base, step, b)
  {
    assert b * step == a * step + (b - a) * step;
    if a < b { MulMore(1, b - a, step); }
    MulMore(0, b - a, step);
  }

  /** A coordinate in the k-th step lies between grid lines a and b exactly when k does. */
  lemma EdgeIn(base: nat, step: nat, k: nat, a: nat, b: nat, p: int)
    requires Edge(base, step, k) <= p < Edge(base, step, k) + step && a <= b
    ensures Edge(base, step, a) <= p < Edge(base, step, b) <==> a <= k < b
  {
    hide Edge;
    if a <= k { EdgeSpan(base, step, a, k); } else { EdgeSpan(base, step, k, a); }
    if k < b { EdgeSpan(base, step, k, b); } else { EdgeSpan(base, step, b, k); }
  }

  predicate InCell(g: Geometry, col: nat, row: nat, px: int, py: int) {
    Inside(px, py, Left(g, col), Upper(g, row), Cw(g), Ch(g))
  }

  lemma SpanSizes(g: Geometry, from: nat, to: nat, lo: nat, hi: nat)
    ensures from <= to ==> Left(g, from) <= Left(g, to)
    ensures lo <= hi ==> Upper(g, lo) <= Upper(g, hi)
  {
    hide Edge, Cw, Ch;
    if from <= to { EdgeSpan(g.x, Cw(g), from, to); }
    if lo <= hi { EdgeSpan(g.y, Ch(g), lo, hi); }
  }

  /** The box of columns [from, to) in rows [lo, hi). */
  function Span(g: Geometry, from: nat, to: nat, lo: nat, hi: nat): (r: Rect)
    ensures r.x >= 0 && r.y >= 0 && (from <= to ==> r.w >= 0) && (lo <= hi ==> r.h >= 0)
  {
    SpanSizes(g, from, to, lo, hi);
    Rect(Left(g, from), Upper(g, lo), Left(g, to) - Left(g, from), Upper(g, hi) - Upper(g, lo))
  }

  predicate InRect(r: Rect, px: int, py: int) {
    Inside(px, py, r.x, r.y, r.w, r.h)
  }

  lemma InSpan(g: Geometry, from: nat, to: nat, lo: nat, hi: nat, col: nat, row: nat, px: int, py: int)
    requires InCell(g, col, row, px, py) && from <= to && lo <= hi
    ensures InRect(Span(g, from, to, lo, hi), px, py) <==> from <= col < to && lo <= row < hi
  {
    hide Edge, Cw, Ch;
    EdgeIn(g.x, Cw(g), col, from, to, px);
    EdgeIn(g.y, Ch(g), row, lo, hi, py);
  }

  lemma SpanShape(g: Geometry, from: nat, to: nat, lo: nat, hi: nat)
    requires from <= to && lo <= hi
    ensures Span(g, from, to, lo, hi) == Rect(g.x + from * Cw(g), g.y + lo * Ch(g), (to - from) * Cw(g), (hi - lo) * Ch(g))
  {
    hide Cw, Ch;
    EdgeSpan(g.x, Cw(g), from, to);
    EdgeSpan(g.y, Ch(g), lo, hi);
  }

  // ---- what a cell looks like ----

  /** A cell's pixel, drawn plainly or as the cursor. */
  ghost function CellPixel(g: Geometry, cell: Cell, inv: bool, i: int, j: int): nat
    requires Sane(g) && 0 <= i < Cw(g) && 0 <= j < Ch(g)
  {
    ScaleBound(i, g.scale, g.fw);
    ScaleBound(j, g.scale, g.fh);
    if g.glyph(cell.ch)[j / g.scale][i / g.scale] != inv then cell.fg % WORD else cell.bg % WORD
  }

  ghost predicate CellShown(g: Geometry, img: Image, col: nat, row: nat, cell: Cell, inv: bool)
    requires Sane(g) && Well(img)
  {
    forall px, py :: 0 <= px < img.w && 0 <= py < img.h && InCell(g, col, row, px, py) ==>
      img.px[py][px] == CellPixel(g, cell, inv, px - Left(g, col), py - Upper(g, row))
  }

  /** All rows but [lo, hi) show their cells, the cell at `hot` as the cursor. */
  ghost predicate Shows(g: Geometry, t: Term, img: Image, lo: nat, hi: nat)
    requires Sane(g) && Good(t) && Well(img)
  {
    forall row: nat, col: nat :: row < t.rows && col < t.cols && !(lo <= row < hi) ==>
      CellShown(g, img, col, row, t.cells[row][col], t.drawn == Some(Place(col, row)))
  }

  /** The terminal fits its surface. */
  ghost predicate Fits(g: Geometry, t: Term, img: Image) {
    Well(img) && Left(g, t.cols) <= img.w < WORD && Upper(g, t.rows) <= img.h < WORD
  }

  /** Outside the terminal's box nothing differs. */
  ghost predicate Confined(g: Geometry, cols: nat, rows: nat, a: Image, b: Image) {
    && Alike(a, b)
    && forall px, py :: 0 <= px < a.w && 0 <= py < a.h && !InRect(Span(g, 0, cols, 0, rows), px, py) ==>
         b.px[py][px] == a.px[py][px]
  }

  // ---- drawing one cell ----

  ghost predicate Painted(g: Geometry, a: Image, b: Image, col: nat, row: nat, cell: Cell, inv: bool)
    requires Sane(g)
  {
    && Alike(a, b)
    && forall px, py :: 0 <= px < a.w && 0 <= py < a.h ==>
         b.px[py][px] == if InCell(g, col, row, px, py) then CellPixel(g, cell, inv, px - Left(g, col), py - Upper(g, row))
                                                      else a.px[py][px]
  }

  /** draw-glyph-on! at the cell's corner paints the cell. */
  lemma GlyphPaints(g: Geometry, a: Image, b: Image, col: nat, row: nat, cell: Cell, inv: bool)
    requires Sane(g)
    requires var (front, back) := if inv then (cell.bg, cell.fg) else (cell.fg, cell.bg);
             Scaled(a, b, Left(g, col), Upper(g, row), Gfx.Tinted(g.glyph(cell.ch), front % WORD, back), g.scale, g.fh * g.scale)
    ensures Painted(g, a, b, col, row, cell, inv)
  {
    hide Left, Upper, RowPixel, CellPixel, Gfx.Tinted, Sane;
    var (front, back) := if inv then (cell.bg, cell.fg) else (cell.fg, cell.bg);
    var rows := Gfx.Tinted(g.glyph(cell.ch), front % WORD, back);
    forall px, py | 0 <= px < a.w && 0 <= py < a.h
      ensures b.px[py][px] == if InCell(g, col, row, px, py) then CellPixel(g, cell, inv, px - Left(g, col), py - Upper(g, row))
                                                           else a.px[py][px]
    {
      GlyphRows(g, cell, inv);
      assert g.scale > 0;
      RowPixelIs(a, Left(g, col), Upper(g, row), rows, g.scale, g.fw, g.fh, px, py);
      if InCell(g, col, row, px, py) {
        var i, j := px - Left(g, col), py - Upper(g, row);
        GlyphPixel(g, cell, inv, i, j, i / g.scale, j / g.scale);
      }
    }
  }

  lemma GlyphRows(g: Geometry, cell: Cell, inv: bool)
    requires Sane(g)
    ensures g.scale > 0
    ensures var (front, back) := if inv then (cell.bg, cell.fg) else (cell.fg, cell.bg);
            var rows := Gfx.Tinted(g.glyph(cell.ch), front % WORD, back);
            |rows| == g.fh && forall r :: 0 <= r < g.fh ==> |rows[r]| == g.fw
  {}

  lemma GlyphPixel(g: Geometry, cell: Cell, inv: bool, i: nat, j: nat, c: nat, r: nat)
    requires Sane(g) && i < Cw(g) && j < Ch(g) && c == i / g.scale && r == j / g.scale && c < g.fw && r < g.fh
    ensures var (front, back) := if inv then (cell.bg, cell.fg) else (cell.fg, cell.bg);
            Gfx.Tinted(g.glyph(cell.ch), front % WORD, back)[r][c] == CellPixel(g, cell, inv, i, j)
  {
    hide Gfx.Tinted, CellPixel, Cw, Ch;
    var (front, back) := if inv then (cell.bg, cell.fg) else (cell.fg, cell.bg);
    TintedAt(g.glyph(cell.ch), front % WORD, back, r, c);
    CellPixelIs(g, cell, inv, i, j, c, r);
  }

  lemma TintedAt(bits: seq<seq<bool>>, fg: nat, bg: nat, r: nat, c: nat)
    requires r < |bits| && c < |bits[r]|
    ensures Gfx.Tinted(bits, fg, bg)[r][c] == if bits[r][c] then fg else bg % WORD
  {}

  lemma CellPixelIs(g: Geometry, cell: Cell, inv: bool, i: nat, j: nat, c: nat, r: nat)
    requires Sane(g) && i < Cw(g) && j < Ch(g) && c == i / g.scale && r == j / g.scale
    ensures r < g.fh && c < g.fw
    ensures CellPixel(g, cell, inv, i, j) == if g.glyph(cell.ch)[r][c] != inv then cell.fg % WORD else cell.bg % WORD
  {
    ScaleBound(i, g.scale, g.fw);
    ScaleBound(j, g.scale, g.fh);
  }

  /** A scaled block, pixel by pixel. */
  lemma RowPixelIs(a: Image, x: int, y: int, rows: seq<seq<int>>, scale: nat, w: nat, h: nat, px: nat, py: nat)
    requires Well(a) && scale > 0 && px < a.w && py < a.h && |rows| == h
    requires forall r :: 0 <= r < h ==> |rows[r]| == w
    ensures Inside(px, py, x, y, scale * w, scale * h) ==> (px - x) / scale < w && (py - y) / scale < h
    ensures RowPixel(a, x, y, rows, scale, h * scale, px, py) ==
      if Inside(px, py, x, y, scale * w, scale * h) && rows[(py - y) / scale][(px - x) / scale] >= 0
      then rows[(py - y) / scale][(px - x) / scale] else a.px[py][px]
  {
    var i, j := px - x, py - y;
    if 0 <= i < w * scale { ScaleBound(i, scale, w); }
    if 0 <= j < h * scale { ScaleBound(j, scale, h); }
  }

  /** What one painted cell does to the picture. */
  lemma PaintedShows(g: Geometry, t: Term, t': Term, a: Image, b: Image, col: nat, row: nat, cell: Cell, inv: bool)
    requires Sane(g) && Good(t) && Good(t') && Painted(g, a, b, col, row, cell, inv) && col < t.cols && row < t.rows
    requires Shows(g, t, a, 0, 0)
    requires t'.cols == t.cols && t'.rows == t.rows && t'.cells[row][col] == cell && inv == (t'.drawn == Some(Place(col, row)))
    requires forall y: nat, x: nat :: y < t.rows && x < t.cols && (x != col || y != row) ==>
               && t'.cells[y][x] == t.cells[y][x]
               && (t'.drawn == Some(Place(x, y)) <==> t.drawn == Some(Place(x, y)))
    ensures Shows(g, t', b, 0, 0)
  {
    hide Edge, CellPixel, Cw, Ch, Sane;
    forall y: nat, x: nat | y < t.rows && x < t.cols
      ensures CellShown(g, b, x, y, t'.cells[y][x], t'.drawn == Some(Place(x, y)))
    {
      assert (x == col && y == row) || CellShown(g, a, x, y, t.cells[y][x], t.drawn == Some(Place(x, y)));
      forall px, py | 0 <= px < a.w && 0 <= py < a.h && InCell(g, x, y, px, py)
        ensures b.px[py][px] == CellPixel(g, t'.cells[y][x], t'.drawn == Some(Place(x, y)), px - Left(g, x), py - Upper(g, y))
      {
        SameCell(g, col, row, x, y, px, py);
      }
    }
  }

  lemma SameCell(g: Geometry, col: nat, row: nat, x: nat, y: nat, px: int, py: int)
    requires InCell(g, x, y, px, py)
    ensures InCell(g, col, row, px, py) <==> x == col && y == row
  {
    hide Edge, Cw, Ch;
    InSpan(g, col, col + 1, row, row + 1, x, y, px, py);
    EdgeSpan(g.x, Cw(g), col, col + 1);
    EdgeSpan(g.y, Ch(g), row, row + 1);
  }

  lemma PaintedConfined(g: Geometry, t: Term, base: Image, a: Image, b: Image, col: nat, row: nat, cell: Cell, inv: bool)
    requires Sane(g) && Painted(g, a, b, col, row, cell, inv) && col < t.cols && row < t.rows && Confined(g, t.cols, t.rows, base, a)
    ensures Confined(g, t.cols, t.rows, base, b)
  {
    hide Edge, CellPixel, Cw, Ch, Sane;
    forall px, py | 0 <= px < a.w && 0 <= py < a.h && !InRect(Span(g, 0, t.cols, 0, t.rows), px, py)
      ensures b.px[py][px] == base.px[py][px]
    {
      if InCell(g, col, row, px, py) { InSpan(g, 0, t.cols, 0, t.rows, col, row, px, py); }
    }
  }

  // ---- erasing cells ----

  /** A filled box shows blank cells, if the space glyph is blank. */
  lemma FilledCell(g: Geometry, b: Image, col: nat, row: nat, fg: nat, bg: nat)
    requires Sane(g) && SpaceIsBlank(g) && Well(b)
    requires forall px, py :: 0 <= px < b.w && 0 <= py < b.h && InCell(g, col, row, px, py) ==> b.px[py][px] == bg % WORD
    ensures CellShown(g, b, col, row, Cell(' ', fg, bg), false)
  {
    hide Edge, CellPixel, Cw, Ch, Sane, SpaceIsBlank, Left, Upper;
    forall px, py | 0 <= px < b.w && 0 <= py < b.h && InCell(g, col, row, px, py)
      ensures b.px[py][px] == CellPixel(g, Cell(' ', fg, bg), false, px - Left(g, col), py - Upper(g, row))
    {
      BlankPixel(g, fg, bg, px - Left(g, col), py - Upper(g, row));
    }
  }

  lemma BlankPixel(g: Geometry, fg: nat, bg: nat, i: nat, j: nat)
    requires Sane(g) && SpaceIsBlank(g) && i < Cw(g) && j < Ch(g)
    ensures CellPixel(g, Cell(' ', fg, bg), false, i, j) == bg % WORD
  {
    ScaleBound(i, g.scale, g.fw);
    ScaleBound(j, g.scale, g.fh);
  }

  /** Filling is drawing a blank cell exactly when the space glyph is blank or its ink
      does not show. */
  lemma FillIsBlankCell(g: Geometry, fg: nat, bg: nat)
    requires Sane(g)
    ensures (forall i, j :: 0 <= i < Cw(g) && 0 <= j < Ch(g) ==> CellPixel(g, Cell(' ', fg, bg), false, i, j) == bg % WORD)
            <==> SpaceIsBlank(g) || fg % WORD == bg % WORD
  {
    if SpaceIsBlank(g) {
      forall i, j | 0 <= i < Cw(g) && 0 <= j < Ch(g)
        ensures CellPixel(g, Cell(' ', fg, bg), false, i, j) == bg % WORD
      {
        BlankPixel(g, fg, bg, i, j);
      }
    } else if fg % WORD != bg % WORD {
      var r: nat, c: nat :| r < g.fh && c < g.fw && g.glyph(' ')[r][c];
      InkPixel(g, fg, bg, r, c);
    }
  }

  function Dot(c: char): seq<seq<bool>> { [[true]] }

  /** A font of one pixel whose space has ink, and a pen of colour 7 on 0: the erased cell
      has the background, drawing it would give the ink. */
  lemma InkySpace()
    ensures var g, a, b := Geometry(0, 0, 1, 1, 1, Dot), Image(1, 1, [[9]]), Image(1, 1, [[0]]);
            && Sane(g) && !SpaceIsBlank(g) && Filled(a, b, Span(g, 0, 1, 0, 1), 0)
            && !CellShown(g, b, 0, 0, Cell(' ', 7, 0), false)
  {
    hide *;
    DotFont();
    DotFilled();
    DotCell();
  }

  lemma DotFont()
    ensures var g := Geometry(0, 0, 1, 1, 1, Dot); Sane(g) && !SpaceIsBlank(g) && Cw(g) == 1 && Ch(g) == 1
  {
    var g := Geometry(0, 0, 1, 1, 1, Dot);
    assert forall c :: g.glyph(c) == [[true]];
    assert g.glyph(' ')[0][0];
  }

  lemma DotFilled()
    ensures Filled(Image(1, 1, [[9]]), Image(1, 1, [[0]]), Span(Geometry(0, 0, 1, 1, 1, Dot), 0, 1, 0, 1), 0)
  {
    hide Dot;
    assert Span(Geometry(0, 0, 1, 1, 1, Dot), 0, 1, 0, 1) == Rect(0, 0, 1, 1);
  }

  lemma DotCell()
    ensures var g, b := Geometry(0, 0, 1, 1, 1, Dot), Image(1, 1, [[0]]);
            Sane(g) && Well(b) && !CellShown(g, b, 0, 0, Cell(' ', 7, 0), false)
  {
    hide Sane, Edge;
    var g, b := Geometry(0, 0, 1, 1, 1, Dot), Image(1, 1, [[0]]);
    DotFont();
    DotCorner();
    assert g.glyph(' ')[0][0];
    assert CellPixel(g, Cell(' ', 7, 0), false, 0, 0) == 7;
    assert b.px[0][0] == 0 && InCell(g, 0, 0, 0, 0);
  }

  lemma DotCorner()
    ensures var g := Geometry(0, 0, 1, 1, 1, Dot); Left(g, 0) == 0 && Upper(g, 0) == 0
  {}

  lemma InkPixel(g: Geometry, fg: nat, bg: nat, r: nat, c: nat)
    requires Sane(g) && r < g.fh && c < g.fw && g.glyph(' ')[r][c]
    ensures exists i: nat, j: nat :: i < Cw(g) && j < Ch(g) && CellPixel(g, Cell(' ', fg, bg), false, i, j) == fg % WORD
  {
    var i, j := c * g.scale, r * g.scale;
    MulStep(c, g.fw, g.scale);
    MulStep(r, g.fh, g.scale);
    MulMore(0, c, g.scale);
    MulMore(0, r, g.scale);
    ScaleIndex(i, g.scale, c);
    ScaleIndex(j, g.scale, r);
    assert i < Cw(g) && j < Ch(g);
    assert CellPixel(g, Cell(' ', fg, bg), false, i, j) == fg % WORD;
  }

  /** Erasing [from, to) of a row: a whole row at `lo` mends it. */
  lemma ErasedShows(g: Geometry, t: Term, a: Image, b: Image, row: nat, from: nat, to: nat, lo: nat, hi: nat)
    requires Sane(g) && SpaceIsBlank(g) && Good(t) && row < t.rows && from <= to <= t.cols && t.drawn == None
    requires Well(a) && Shows(g, t, a, lo, hi)
    requires Filled(a, b, Span(g, from, to, row, row + 1), Blank(t).bg % WORD)
    ensures Shows(g, Erased(t, row, from, to), b, lo, hi)
    ensures row == lo && from == 0 && to == t.cols ==> Shows(g, Erased(t, row, from, to), b, lo + 1, hi)
  {
    hide Edge, CellPixel, Cw, Ch, Sane, Span, SpaceIsBlank, Resolve, Pens;
    var t' := Erased(t, row, from, to);
    forall y: nat, x: nat | y < t.rows && x < t.cols && (!(lo <= y < hi) || (y == row && from <= x < to))
      ensures CellShown(g, b, x, y, t'.cells[y][x], false)
    {
      if y == row && from <= x < to {
        forall px, py | 0 <= px < b.w && 0 <= py < b.h && InCell(g, x, y, px, py) ensures b.px[py][px] == Blank(t).bg % WORD {
          InSpan(g, from, to, row, row + 1, x, y, px, py);
        }
        FilledCell(g, b, x, y, Blank(t).fg, Blank(t).bg);
      } else {
        assert CellShown(g, a, x, y, t.cells[y][x], false);
        forall px, py | 0 <= px < b.w && 0 <= py < b.h && InCell(g, x, y, px, py)
          ensures b.px[py][px] == CellPixel(g, t.cells[y][x], false, px - Left(g, x), py - Upper(g, y))
        {
          InSpan(g, from, to, row, row + 1, x, y, px, py);
        }
      }
    }
  }

  lemma FilledConfined(g: Geometry, t: Term, base: Image, a: Image, b: Image, from: nat, to: nat, row: nat, color: nat)
    requires Filled(a, b, Span(g, from, to, row, row + 1), color) && from <= to <= t.cols && row < t.rows
    requires Confined(g, t.cols, t.rows, base, a)
    ensures Confined(g, t.cols, t.rows, base, b)
  {
    hide Edge, Cw, Ch;
    SpanInside(g, from, to, row, row + 1, t.cols, t.rows);
  }

  lemma SpanInside(g: Geometry, from: nat, to: nat, lo: nat, hi: nat, cols: nat, rows: nat)
    requires from <= to <= cols && lo <= hi <= rows
    ensures forall px, py :: InRect(Span(g, from, to, lo, hi), px, py) ==> InRect(Span(g, 0, cols, 0, rows), px, py)
  {
    hide Edge, Cw, Ch;
    EdgeSpan(g.x, Cw(g), 0, from);
    EdgeSpan(g.x, Cw(g), to, cols);
    EdgeSpan(g.y, Ch(g), 0, lo);
    EdgeSpan(g.y, Ch(g), hi, rows);
  }

  // ---- scrolling ----

  /** Copying `keep` rows from row `src` to row `dst` shows them there. */
  lemma CopiedShows(g: Geometry, t: Term, t': Term, a: Image, b: Image, src: nat, dst: nat, keep: nat, lo: nat, hi: nat)
    requires Sane(g) && Good(t) && Good(t') && t'.cols == t.cols && t'.rows == t.rows && t.drawn == None && t'.drawn == None
    requires src + keep <= t.rows && dst + keep <= t.rows
    requires Well(a) && Shows(g, t, a, 0, 0)
    requires var s := Span(g, 0, t.cols, src, src + keep);
             Copied(a, b, s.x, s.y, s.w, s.h, s.x, Upper(g, dst))
    requires forall y :: dst <= y < dst + keep ==> t'.cells[y] == t.cells[src + (y - dst)]
    requires (dst == 0 && lo == keep && hi == t.rows) || (lo == 0 && hi == dst && dst + keep == t.rows)
    ensures Alike(a, b) && Shows(g, t', b, lo, hi)
  {
    hide Edge, CellPixel, Cw, Ch, Sane, Span, Copied;
    CopiedSame(g, t, a, b, src, dst, keep);
    forall y: nat, x: nat | y < t.rows && x < t.cols && !(lo <= y < hi) ensures CellShown(g, b, x, y, t'.cells[y][x], false) {
      assert CellShown(g, a, x, src + (y - dst), t.cells[src + (y - dst)][x], false);
      forall px, py | 0 <= px < b.w && 0 <= py < b.h && InCell(g, x, y, px, py)
        ensures b.px[py][px] == CellPixel(g, t'.cells[y][x], false, px - Left(g, x), py - Upper(g, y))
      {
        CopiedCell(g, t, a, b, src, dst, keep, x, y, px, py);
      }
    }
  }

  lemma CopiedSame(g: Geometry, t: Term, a: Image, b: Image, src: nat, dst: nat, keep: nat)
    requires var s := Span(g, 0, t.cols, src, src + keep);
             Copied(a, b, s.x, s.y, s.w, s.h, s.x, Upper(g, dst))
    ensures Alike(a, b)
  {}

  /** A pixel of a copied cell comes from the same place in the cell it was copied from. */
  lemma CopiedCell(g: Geometry, t: Term, a: Image, b: Image, src: nat, dst: nat, keep: nat, x: nat, y: nat, px: int, py: int)
    requires Well(a) && x < t.cols && dst <= y < dst + keep
    requires var s := Span(g, 0, t.cols, src, src + keep);
             Copied(a, b, s.x, s.y, s.w, s.h, s.x, Upper(g, dst))
    requires 0 <= px < a.w && 0 <= py < a.h && InCell(g, x, y, px, py)
    ensures var v := py - Upper(g, y) + Upper(g, src + (y - dst));
            && 0 <= v < a.h && InCell(g, x, src + (y - dst), px, v)
            && Alike(a, b) && b.px[py][px] == a.px[v][px]
  {
    hide Edge, Cw, Ch, Copied;
    var s := Span(g, 0, t.cols, src, src + keep);
    InSpan(g, 0, t.cols, dst, dst + keep, x, y, px, py);
    EdgeSpan(g.y, Ch(g), dst, y);
    EdgeSpan(g.y, Ch(g), src, src + (y - dst));
    EdgeSpan(g.y, Ch(g), dst, dst + keep);
    EdgeSpan(g.y, Ch(g), src, src + keep);
    EdgeSpan(g.x, Cw(g), 0, t.cols);
    CopiedAt(a, b, s, Upper(g, dst), px, py);
  }

  lemma CopiedAt(a: Image, b: Image, s: Rect, dy: nat, px: int, py: int)
    requires s.x >= 0 && s.y >= 0 && s.w >= 0 && s.h >= 0 && Well(a)
    requires Copied(a, b, s.x, s.y, s.w, s.h, s.x, dy)
    requires 0 <= px < a.w && 0 <= py < a.h && Inside(px, py, s.x, dy, s.w, s.h)
    ensures var v := s.y + (py - dy); 0 <= v < a.h && Alike(a, b) && b.px[py][px] == a.px[v][px]
  {}

  lemma CopiedConfined(g: Geometry, t: Term, base: Image, a: Image, b: Image, src: nat, dst: nat, keep: nat)
    requires src + keep <= t.rows && dst + keep <= t.rows && Well(a) && Confined(g, t.cols, t.rows, base, a)
    requires var s := Span(g, 0, t.cols, src, src + keep);
             Copied(a, b, s.x, s.y, s.w, s.h, s.x, Upper(g, dst))
    ensures Confined(g, t.cols, t.rows, base, b)
  {
    hide Edge, Cw, Ch;
    EdgeSpan(g.y, Ch(g), dst, dst + keep);
    EdgeSpan(g.y, Ch(g), src, src + keep);
    SpanInside(g, 0, t.cols, dst, dst + keep, t.cols, t.rows);
    assert Span(g, 0, t.cols, dst, dst + keep).h == Span(g, 0, t.cols, src, src + keep).h;
  }

  // ---- the picture is a function of the state ----

  /** Every pixel of the terminal's box is in a cell. */
  lemma Located(g: Geometry, cols: nat, rows: nat, px: int, py: int) returns (col: nat, row: nat)
    requires InRect(Span(g, 0, cols, 0, rows), px, py) && Cw(g) > 0 && Ch(g) > 0
    ensures col < cols && row < rows && InCell(g, col, row, px, py)
  {
    hide Cw, Ch;
    col, row := (px - g.x) / Cw(g), (py - g.y) / Ch(g);
    DivAt(px - g.x, Cw(g), cols);
    DivAt(py - g.y, Ch(g), rows);
  }

  lemma DivAt(d: nat, step: nat, n: nat)
    requires step > 0 && d < n * step
    ensures 0 <= d / step < n && d / step * step <= d < d / step * step + step
  {
    ScaleBound(d, step, n);
  }

  /** Two pictures of one state over one background are the same. */
  lemma SamePixels(g: Geometry, t: Term, base: Image, a: Image, b: Image)
    requires Sane(g) && Good(t) && Confined(g, t.cols, t.rows, base, a) && Confined(g, t.cols, t.rows, base, b)
    requires Shows(g, t, a, 0, 0) && Shows(g, t, b, 0, 0)
    ensures forall px, py :: 0 <= px < a.w && 0 <= py < a.h ==> a.px[py][px] == b.px[py][px]
  {
    hide Edge, CellPixel, Span, Left, Upper;
    CellSize(g);
    forall px, py | 0 <= px < a.w && 0 <= py < a.h ensures a.px[py][px] == b.px[py][px] {
      if InRect(Span(g, 0, t.cols, 0, t.rows), px, py) {
        var col, row := Located(g, t.cols, t.rows, px, py);
        assert CellShown(g, a, col, row, t.cells[row][col], t.drawn == Some(Place(col, row)));
        assert CellShown(g, b, col, row, t.cells[row][col], t.drawn == Some(Place(col, row)));
      }
    }
  }

  lemma CellSize(g: Geometry)
    requires Sane(g)
    ensures Cw(g) > 0 && Ch(g) > 0
  {
    MulMore(1, g.fw, g.scale);
    MulMore(1, g.fh, g.scale);
  }
}
