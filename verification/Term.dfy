/** The terminal emulator: each grid update draws only what it changes, and the pixels
    stay those of a full redraw (rootfs/lib/beer/term.beer:95-178, 232-297). */
module Terminal {
  import opened Options
  import opened Pictures
  import opened TermState
  import opened TermPixels
  import Cursor
  import Gfx

  class Emulator {
    const gfx: Gfx.Screen
    const surf: nat
    const g: Geometry
    var st: Term

    ghost predicate Live()
      reads this, gfx
    {
      gfx.Valid() && Gfx.LiveAt(gfx.surfaces, surf)
    }

    /** What a caller sees of its surface. */
    ghost function Pixels(): (img: Image)
      requires Live()
      reads this, gfx
      ensures Well(img)
    {
      gfx.Layers()[surf].img
    }

    ghost predicate Sound()
      reads this, gfx
    {
      Live() && Sane(g) && SpaceIsBlank(g) && Good(st) && Fits(g, st, Pixels())
    }

    /** Every cell outside rows [lo, hi) is on the screen as the state says. */
    ghost predicate Shown(lo: nat, hi: nat)
      requires Sound()
      reads this, gfx
    {
      Shows(g, st, Pixels(), lo, hi)
    }

    /** Between two calls of feed. */
    ghost predicate Settled()
      reads this, gfx
    {
      Sound() && Shown(0, 0) && st.drawn == if st.cursorOn then Some(Place(st.cx, st.cy)) else None
    }

    /** Since `v`, only this terminal's box has been drawn in. */
    ghost predicate Only(v: Gfx.View)
      requires Sound()
      reads this, gfx
    {
      Gfx.OnlyAt(v, gfx.Seen(), surf) && Confined(g, st.cols, st.rows, v.layers[surf].img, Pixels())
    }

    constructor (screen: Gfx.Screen, surface: nat, geo: Geometry, cols: nat, rows: nat, fg: nat, bg: nat)
      requires screen.Valid() && Gfx.LiveAt(screen.surfaces, surface) && Sane(geo) && SpaceIsBlank(geo) && cols > 0 && rows > 0
      requires Fits(geo, Make(cols, rows, fg, bg), screen.Layers()[surface].img)
      ensures gfx == screen && surf == surface && st == Make(cols, rows, fg, bg) && Sound()
    {
      gfx, surf, g := screen, surface, geo;
      st := Make(cols, rows, fg, bg);
    }

    // ---- drawing ----

    method DrawCell(col: nat, row: nat, cell: Cell, inverse: bool, ghost v: Gfx.View)
      requires Sound() && Only(v) && col < st.cols && row < st.rows
      modifies gfx`surfaces, gfx`saved, gfx`screen
      ensures Sound() && Only(v) && Painted(g, old(Pixels()), Pixels(), col, row, cell, inverse)
    {
      hide Cursor.OnTop, Scaled, Painted, Good, SpaceIsBlank, Confined, Edge, Gfx.Tinted;
      ghost var a := Pixels();
      var front, back := if inverse then cell.bg else cell.fg, if inverse then cell.fg else cell.bg;
      gfx.BlitBits(surf, Left(g, col), Upper(g, row), g.glyph(cell.ch), g.fw, g.scale, front % WORD, back);
      GlyphPaints(g, a, Pixels(), col, row, cell, inverse);
      PaintedConfined(g, st, v.layers[surf].img, a, Pixels(), col, row, cell, inverse);
      PaintedAlike(g, a, Pixels(), col, row, cell, inverse);
    }

    method FillCells(row: nat, from: nat, to: nat, ghost v: Gfx.View)
      requires Sound() && Only(v) && row < st.rows && from <= to <= st.cols
      modifies gfx`surfaces, gfx`saved, gfx`screen
      ensures Sound() && Only(v)
      ensures Filled(old(Pixels()), Pixels(), Span(g, from, to, row, row + 1), Blank(st).bg % WORD)
    {
      hide Cursor.OnTop, Filled, SpaceIsBlank, Confined, Edge, Resolve, Pens, Grid, Blank, Sane, Span;
      ghost var a := Pixels();
      var color := Blank(st).bg % WORD;
      SpanShape(g, from, to, row, row + 1);
      gfx.FillRect(surf, Rect(g.x + from * Cw(g), g.y + row * Ch(g), (to - from) * Cw(g), Ch(g)), color);
      Gfx.FilledAlike(a, Pixels(), Span(g, from, to, row, row + 1), color);
      FilledConfined(g, st, v.layers[surf].img, a, Pixels(), from, to, row, color);
    }

    method EraseCells(row: nat, from: nat, to: nat, ghost lo: nat, ghost hi: nat, ghost v: Gfx.View)
      requires Sound() && Only(v) && st.drawn == None && Shown(lo, hi) && row < st.rows && to <= st.cols
      modifies `st, gfx`surfaces, gfx`saved, gfx`screen
      ensures Sound() && Only(v) && st == Erased(old(st), row, from, to) && Shown(lo, hi)
      ensures row == lo && from == 0 && to == st.cols ==> Shown(lo + 1, hi)
    {
      hide Cursor.OnTop, Filled, Shows, SpaceIsBlank, Confined, Edge, Erased, Grid, Blank, Sane, Span, Cw, Ch;
      if from >= to {
        ErasedNothing(st, row, from, to);
        return;
      }
      ghost var a := Pixels();
      FillCells(row, from, to, v);
      ErasedShows(g, st, a, Pixels(), row, from, to, lo, hi);
      st := Erased(st, row, from, to);
    }

    /** erase-rows: mends the rows [from, to) if they were not shown. */
    method EraseRows(from: nat, to: nat, ghost v: Gfx.View)
      requires Sound() && Only(v) && st.drawn == None && Shown(from, to) && from <= to <= st.rows
      modifies `st, gfx`surfaces, gfx`saved, gfx`screen
      ensures Sound() && Only(v) && st == ErasedRows(old(st), from, to) && Shown(0, 0)
    {
      hide Cursor.OnTop, Shows, SpaceIsBlank, Confined, Edge, Resolve, Pens, Grid, Erased;
      var row := from;
      while row < to
        invariant from <= row <= to && Sound() && Only(v) && Shown(row, to)
        invariant st.drawn == None && st.cols == old(st.cols) && st.rows == old(st.rows)
        invariant ErasedRows(st, row, to) == ErasedRows(old(st), from, to)
      {
        EraseCells(row, 0, st.cols, row, to, v);
        row := row + 1;
      }
      ShowsAll(g, st, Pixels(), to);
    }

    /** The pixel side of scrolling: `keep` rows from src to dst. */
    method CopyBand(src: nat, dst: nat, keep: nat, ghost t: Term, ghost lo: nat, ghost hi: nat, ghost v: Gfx.View)
      requires Sound() && Only(v) && st.drawn == None && Shown(0, 0)
      requires 0 < keep && src + keep <= st.rows && dst + keep <= st.rows
      requires Good(t) && t.cols == st.cols && t.rows == st.rows && t.drawn == None
      requires forall y :: dst <= y < dst + keep ==> t.cells[y] == st.cells[src + (y - dst)]
      requires (dst == 0 && lo == keep && hi == st.rows) || (lo == 0 && hi == dst && dst + keep == st.rows)
      modifies gfx`surfaces, gfx`saved, gfx`screen
      ensures Sound() && Only(v) && Shows(g, t, Pixels(), lo, hi)
    {
      hide Cursor.OnTop, Copied, Shows, SpaceIsBlank, Confined, Edge, Grid, Sane, Cw, Ch;
      ghost var a := Pixels();
      BandFits(g, st, a, src, keep);
      BandFits(g, st, a, dst, keep);
      gfx.CopyRect(surf, g.x, Upper(g, src), st.cols * Cw(g), keep * Ch(g), g.x, Upper(g, dst));
      CopiedShows(g, st, t, a, Pixels(), src, dst, keep, lo, hi);
      CopiedConfined(g, st, v.layers[surf].img, a, Pixels(), src, dst, keep);
    }

    method ScrollUp(n: nat, ghost v: Gfx.View)
      requires Sound() && Only(v) && st.drawn == None && Shown(0, 0)
      modifies `st, gfx`surfaces, gfx`saved, gfx`screen
      ensures Sound() && Only(v) && st == ScrolledUp(old(st), n) && Shown(0, 0)
    {
      hide Cursor.OnTop, Shows, SpaceIsBlank, Confined, Edge, Sane, ErasedRows, BlankRows, Blank;
      var m := Min(n, st.rows);
      var keep := st.rows - m;
      ghost var t := Lifted(st, m);
      if keep > 0 {
        CopyBand(m, 0, keep, t, keep, st.rows, v);
      } else {
        ShowsNone(g, t, Pixels());
      }
      st := Lifted(st, m);
      EraseRows(keep, st.rows, v);
    }

    method ScrollDown(n: nat, ghost v: Gfx.View)
      requires Sound() && Only(v) && st.drawn == None && Shown(0, 0)
      modifies `st, gfx`surfaces, gfx`saved, gfx`screen
      ensures Sound() && Only(v) && st == ScrolledDown(old(st), n) && Shown(0, 0)
    {
      hide Cursor.OnTop, Shows, SpaceIsBlank, Confined, Edge, Sane, ErasedRows, BlankRows, Blank;
      var m := Min(n, st.rows);
      var keep := st.rows - m;
      ghost var t := Lowered(st, m);
      if keep > 0 {
        CopyBand(0, m, keep, t, 0, m, v);
      } else {
        ShowsNone(g, t, Pixels());
      }
      st := Lowered(st, m);
      EraseRows(0, m, v);
    }

    // ---- characters ----

    method LineFeed(ghost v: Gfx.View)
      requires Sound() && Only(v) && st.drawn == None && Shown(0, 0)
      modifies `st, gfx`surfaces, gfx`saved, gfx`screen
      ensures Sound() && Only(v) && st == LineFed(old(st)) && Shown(0, 0)
    {
      hide Cursor.OnTop, Shows, SpaceIsBlank, Confined, Edge, Sane, ScrolledUp, Grid;
      if st.cy >= st.rows - 1 {
        ScrollUp(1, v);
      } else {
        SameGrid(g, st, st.(cy := st.cy + 1), Pixels());
        st := st.(cy := st.cy + 1);
      }
    }

    method PutChar(c: char, ghost v: Gfx.View)
      requires Sound() && Only(v) && st.drawn == None && Shown(0, 0)
      modifies `st, gfx`surfaces, gfx`saved, gfx`screen
      ensures Sound() && Only(v) && st == Put(old(st), c) && Shown(0, 0)
    {
      hide Cursor.OnTop, Shows, SpaceIsBlank, Confined, Edge, Sane, LineFed, Painted;
      if st.wrap {
        LineFeed(v);
        SameGrid(g, st, st.(cx := 0, wrap := false), Pixels());
        st := st.(cx := 0, wrap := false);
      }
      var cell := Inked(st, c);
      ghost var a := Pixels();
      DrawCell(st.cx, st.cy, cell, false, v);
      PaintedShows(g, st, Placed(st, cell), a, Pixels(), st.cx, st.cy, cell, false);
      st := Placed(st, cell);
    }

    method EraseScreen(m: nat, ghost v: Gfx.View)
      requires Sound() && Only(v) && st.drawn == None && Shown(0, 0)
      modifies `st, gfx`surfaces, gfx`saved, gfx`screen
      ensures Sound() && Only(v) && st == ErasedScreen(old(st), m) && Shown(0, 0)
    {
      hide Cursor.OnTop, Shows, SpaceIsBlank, Confined, Edge, Sane, ErasedRows, Erased, Grid;
      if m == 0 {
        EraseCells(st.cy, st.cx, st.cols, 0, 0, v);
        ShowsLess(g, st, Pixels(), st.cy + 1, st.rows);
        EraseRows(st.cy + 1, st.rows, v);
      } else if m == 1 {
        ShowsLess(g, st, Pixels(), 0, st.cy);
        EraseRows(0, st.cy, v);
        EraseCells(st.cy, 0, st.cx + 1, 0, 0, v);
      } else {
        ShowsLess(g, st, Pixels(), 0, st.rows);
        EraseRows(0, st.rows, v);
      }
    }

    method EraseLine(m: nat, ghost v: Gfx.View)
      requires Sound() && Only(v) && st.drawn == None && Shown(0, 0)
      modifies `st, gfx`surfaces, gfx`saved, gfx`screen
      ensures Sound() && Only(v) && st == ErasedLine(old(st), m) && Shown(0, 0)
    {
      hide Cursor.OnTop, Shows, SpaceIsBlank, Confined, Edge, Sane, ErasedRows, Erased, Grid;
      if m == 0 {
        EraseCells(st.cy, st.cx, st.cols, 0, 0, v);
      } else if m == 1 {
        EraseCells(st.cy, 0, st.cx + 1, 0, 0, v);
      } else {
        EraseCells(st.cy, 0, st.cols, 0, 0, v);
      }
    }

    method DoControlSequence(c: char, ghost v: Gfx.View)
      requires Sound() && Only(v) && st.drawn == None && Shown(0, 0)
      modifies `st, gfx`surfaces, gfx`saved, gfx`screen
      ensures Sound() && Only(v) && st == ControlSequence(old(st), c) && Shown(0, 0)
    {
      hide Cursor.OnTop, Shows, SpaceIsBlank, Confined, Edge, Sane, Grid, ErasedScreen, ErasedLine, ScrolledUp, ScrolledDown,
           Sgr, Moved, Arguments, Private;
      var ps := Arguments(st.params);
      var private := Private(st.params);
      SameGrid(g, st, Grounded(st), Pixels());
      st := Grounded(st);
      if private {
        SameGrid(g, st, PrivateMode(st, c, ps), Pixels());
        st := PrivateMode(st, c, ps);
      } else if c == 'J' {
        EraseScreen(Z(ps, 0), v);
      } else if c == 'K' {
        EraseLine(Z(ps, 0), v);
      } else if c == 'S' {
        ScrollUp(N(ps, 0, 1), v);
      } else if c == 'T' {
        ScrollDown(N(ps, 0, 1), v);
      } else if c == 'm' {
        SameGrid(g, st, Sgr(st, ps), Pixels());
        st := Sgr(st, ps);
      } else {
        SameGrid(g, st, Moved(st, c, ps), Pixels());
        st := Moved(st, c, ps);
      }
    }

    method DoReset(ghost v: Gfx.View)
      requires Sound() && Only(v) && st.drawn == None && Shown(0, 0)
      modifies `st, gfx`surfaces, gfx`saved, gfx`screen
      ensures Sound() && Only(v) && st == Reset(old(st)) && Shown(0, 0)
    {
      hide Cursor.OnTop, Shows, SpaceIsBlank, Confined, Edge, Sane, Grid, ErasedRows;
      var u := st.(fg := st.defFg, bg := st.defBg, bold := false, inverse := false, cursorOn := true, saved := None);
      SameGrid(g, st, u, Pixels());
      st := u;
      ShowsLess(g, st, Pixels(), 0, st.rows);
      EraseRows(0, st.rows, v);
      SameGrid(g, st, MovedTo(st, 0, 0), Pixels());
      st := MovedTo(st, 0, 0);
    }

    method FeedInEsc(c: char, ghost v: Gfx.View)
      requires Sound() && Only(v) && st.drawn == None && Shown(0, 0)
      modifies `st, gfx`surfaces, gfx`saved, gfx`screen
      ensures Sound() && Only(v) && st == FedInEsc(old(st), c) && Shown(0, 0)
    {
      hide Cursor.OnTop, Shows, SpaceIsBlank, Confined, Edge, Sane, Grid, Reset, LineFed, ScrolledDown, EscMoved;
      var code := c as int;
      SameGrid(g, st, st.(mode := Ground), Pixels());
      st := st.(mode := Ground);
      if code == 99 {
        DoReset(v);
      } else if code == 68 {
        LineFeed(v);
      } else if code == 77 && st.cy == 0 {
        ScrollDown(1, v);
      } else if code == 69 {
        LineFeed(v);
        SameGrid(g, st, st.(cx := 0), Pixels());
        st := st.(cx := 0);
      } else {
        SameGrid(g, st, EscMoved(st, code), Pixels());
        st := EscMoved(st, code);
      }
    }

    method FeedInGround(c: char, ghost v: Gfx.View)
      requires Sound() && Only(v) && st.drawn == None && Shown(0, 0)
      modifies `st, gfx`surfaces, gfx`saved, gfx`screen
      ensures Sound() && Only(v) && st == FedInGround(old(st), c) && Shown(0, 0)
    {
      hide Cursor.OnTop, Shows, SpaceIsBlank, Confined, Edge, Sane, Grid, LineFed, Put, ControlMoved;
      var code := c as int;
      if code == 10 || code == 11 || code == 12 {
        LineFeed(v);
        SameGrid(g, st, st.(wrap := false), Pixels());
        st := st.(wrap := false);
      } else if code < 32 || code == 127 {
        SameGrid(g, st, ControlMoved(st, code), Pixels());
        st := ControlMoved(st, code);
      } else {
        PutChar(c, v);
      }
    }

    method FeedChar(c: char, ghost v: Gfx.View)
      requires Sound() && Only(v) && st.drawn == None && Shown(0, 0)
      modifies `st, gfx`surfaces, gfx`saved, gfx`screen
      ensures Sound() && Only(v) && st == FedChar(old(st), c) && Shown(0, 0)
    {
      hide Cursor.OnTop, Shows, SpaceIsBlank, Confined, Edge, Sane, Grid, FedInEsc, FedInGround, ControlSequence;
      match st.mode {
        case Esc => FeedInEsc(c, v);
        case Ground => FeedInGround(c, v);
        case Csi =>
          var code := c as int;
          if 0x40 <= code <= 0x7E {
            DoControlSequence(c, v);
          } else {
            var u := if code == 27 then st.(mode := Esc, params := "")
                     else if code < 32 then st
                     else st.(params := st.params + [c]);
            SameGrid(g, st, u, Pixels());
            st := u;
          }
      }
    }

    // ---- the cursor cell ----

    method HideCursor(ghost v: Gfx.View)
      requires Settled() && Only(v)
      modifies `st, gfx`surfaces, gfx`saved, gfx`screen
      ensures Sound() && Only(v) && st == CursorHidden(old(st)) && Shown(0, 0)
    {
      hide Cursor.OnTop, Shows, SpaceIsBlank, Confined, Edge, Sane, Painted;
      if st.drawn.Some? {
        var d := st.drawn.value;
        if d.col < st.cols && d.row < st.rows {
          ghost var a := Pixels();
          DrawCell(d.col, d.row, st.cells[d.row][d.col], false, v);
          PaintedShows(g, st, CursorHidden(st), a, Pixels(), d.col, d.row, st.cells[d.row][d.col], false);
        }
      }
      st := CursorHidden(st);
    }

    method ShowCursor(ghost v: Gfx.View)
      requires Sound() && Only(v) && st.drawn == None && Shown(0, 0)
      modifies `st, gfx`surfaces, gfx`saved, gfx`screen
      ensures Settled() && Only(v) && st == CursorShown(old(st))
    {
      hide Cursor.OnTop, Shows, SpaceIsBlank, Confined, Edge, Sane, Painted;
      if st.cursorOn {
        var col, row := Min(st.cx, st.cols - 1), st.cy;
        ghost var a := Pixels();
        DrawCell(col, row, st.cells[row][col], true, v);
        PaintedShows(g, st, CursorShown(st), a, Pixels(), col, row, st.cells[row][col], true);
        st := st.(drawn := Some(Place(col, row)));
      }
    }

    // ---- feed and redraw! ----

    /** Writing a text: the state is the pure one, the pixels are its picture, and
        nothing else was drawn on. */
    method Feed(s: string)
      requires Settled()
      modifies `st, gfx`surfaces, gfx`saved, gfx`screen
      ensures Settled() && st == Fed(old(st), s) && Only(old(gfx.Seen()))
    {
      hide Cursor.OnTop, Shows, SpaceIsBlank, Edge, Sane, Grid, FedChar, FedAll;
      ghost var v := gfx.Seen();
      HideCursor(v);
      ghost var t := st;
      var i := 0;
      assert s[0..] == s;
      while i < |s|
        invariant 0 <= i <= |s| && Sound() && Only(v) && Shown(0, 0) && st.drawn == None
        invariant FedAll(st, s[i..]) == FedAll(t, s)
      {
        FedAllStep(st, s, i);
        FeedChar(s[i], v);
        i := i + 1;
      }
      FedAllEnd(st, s[i..]);
      ShowCursor(v);
    }

    /** render-once! on each chunk in turn. */
    method Render(ss: seq<string>)
      requires Settled()
      modifies `st, gfx`surfaces, gfx`saved, gfx`screen
      ensures Settled() && st == FedEach(old(st), ss) && Only(old(gfx.Seen()))
      ensures ss != [] ==> st == Fed(old(st), Concat(ss))
    {
      hide Cursor.OnTop, Shows, SpaceIsBlank, Edge, Sane, Fed, Confined, FedEach, Concat;
      ghost var t, v := st, gfx.Seen();
      ConfinedSelf(g, st.cols, st.rows, Pixels());
      var i := 0;
      assert ss[0..] == ss;
      while i < |ss|
        invariant 0 <= i <= |ss| && Settled() && FedEach(st, ss[i..]) == FedEach(t, ss)
        invariant st.cols == t.cols && st.rows == t.rows && Only(v)
      {
        ghost var u := gfx.Seen();
        FedEachStep(st, ss, i);
        FedSize(st, ss[i]);
        Feed(ss[i]);
        ConfinedTrans(g, t.cols, t.rows, Gfx.Img(v, surf), Gfx.Img(u, surf), Pixels());
        i := i + 1;
      }
      FedEachEnd(st, ss[i..]);
      if ss != [] { ChunksDoNotMatter(t, ss); }
    }

    /** redraw! mends any picture, and changes nothing of a settled one. */
    method Redraw()
      requires Sound()
      modifies `st, gfx`surfaces, gfx`saved, gfx`screen
      ensures Settled() && st == CursorShown(CursorHidden(old(st))) && Only(old(gfx.Seen()))
      ensures old(Settled()) ==> st == old(st) && gfx.Seen() == old(gfx.Seen())
    {
      hide Cursor.OnTop, Shows, SpaceIsBlank, Edge, Sane, Painted, CellShown;
      ghost var v := gfx.Seen();
      ghost var before := st;
      ghost var was := Pixels();
      ConfinedSelf(g, st.cols, st.rows, was);
      var row := 0;
      while row < st.rows
        invariant 0 <= row <= st.rows && st == before && Sound() && Only(v)
        invariant forall y: nat, x: nat :: y < row && x < st.cols ==> CellShown(g, Pixels(), x, y, st.cells[y][x], false)
      {
        RedrawRow(row, v);
        row := row + 1;
      }
      CellsShow(g, CursorHidden(st), Pixels());
      st := CursorHidden(st);
      ShowCursor(v);
      if old(Settled()) {
        Resettled(before);
        SamePicture(g, st, was, Pixels());
      }
    }

    method RedrawRow(row: nat, ghost v: Gfx.View)
      requires Sound() && Only(v) && row < st.rows
      requires forall y: nat, x: nat :: y < row && x < st.cols ==> CellShown(g, Pixels(), x, y, st.cells[y][x], false)
      modifies gfx`surfaces, gfx`saved, gfx`screen
      ensures Sound() && Only(v)
      ensures forall y: nat, x: nat :: y < row + 1 && x < st.cols ==> CellShown(g, Pixels(), x, y, st.cells[y][x], false)
    {
      hide Cursor.OnTop, Shows, SpaceIsBlank, Edge, Sane, Painted, CellShown, Confined;
      var col := 0;
      while col < st.cols
        invariant 0 <= col <= st.cols && Sound() && Only(v)
        invariant forall y: nat, x: nat :: y < st.rows && x < st.cols && (y < row || (y == row && x < col)) ==>
                    CellShown(g, Pixels(), x, y, st.cells[y][x], false)
      {
        ghost var a := Pixels();
        DrawCell(col, row, st.cells[row][col], false, v);
        forall y: nat, x: nat | y < st.rows && x < st.cols && (y < row || (y == row && x < col + 1))
          ensures CellShown(g, Pixels(), x, y, st.cells[y][x], false)
        {
          PaintedKeeps(g, a, Pixels(), col, row, st.cells[row][col], false, x, y, st.cells[y][x], false);
        }
        col := col + 1;
      }
    }
  }

  lemma PaintedAlike(g: Geometry, a: Image, b: Image, col: nat, row: nat, cell: Cell, inv: bool)
    requires Sane(g) && Painted(g, a, b, col, row, cell, inv)
    ensures Alike(a, b)
  {}

  lemma ShowsAll(g: Geometry, t: Term, img: Image, at: nat)
    requires Sane(g) && Good(t) && Well(img) && Shows(g, t, img, at, at)
    ensures Shows(g, t, img, 0, 0)
  {}

  lemma ShowsNone(g: Geometry, t: Term, img: Image)
    requires Sane(g) && Good(t) && Well(img)
    ensures Shows(g, t, img, 0, t.rows)
  {}

  lemma ShowsLess(g: Geometry, t: Term, img: Image, lo: nat, hi: nat)
    requires Sane(g) && Good(t) && Well(img) && Shows(g, t, img, 0, 0)
    ensures Shows(g, t, img, lo, hi)
  {}

  /** A change of anything but the grid leaves the picture right. */
  lemma SameGrid(g: Geometry, t: Term, t': Term, img: Image)
    requires Sane(g) && Good(t) && Good(t') && Well(img) && Shows(g, t, img, 0, 0)
    requires t'.cells == t.cells && t'.cols == t.cols && t'.rows == t.rows && t'.drawn == t.drawn
    ensures Shows(g, t', img, 0, 0)
  {}

  /** A band of rows lies on the surface, and its corners and size are what scrolling
      passes to gfx_copy_rect_on. */
  lemma BandFits(g: Geometry, t: Term, img: Image, row: nat, keep: nat)
    requires Sane(g) && Good(t) && Fits(g, t, img) && row + keep <= t.rows && keep > 0
    ensures g.x < img.w && Upper(g, row) < img.h
    ensures g.x + t.cols * Cw(g) <= img.w < WORD && Upper(g, row) + keep * Ch(g) <= img.h < WORD
    ensures Span(g, 0, t.cols, row, row + keep) == Rect(g.x, Upper(g, row), t.cols * Cw(g), keep * Ch(g))
  {
    hide Cw, Ch;
    CellSize(g);
    SpanShape(g, 0, t.cols, row, row + keep);
    EdgeSpan(g.x, Cw(g), 0, t.cols);
    EdgeSpan(g.y, Ch(g), row, row + keep);
    EdgeSpan(g.y, Ch(g), row + keep, t.rows);
    MulMore(1, t.cols, Cw(g));
  }

  lemma FedAllStep(t: Term, s: string, i: nat)
    requires Good(t) && i < |s|
    ensures FedAll(t, s[i..]) == FedAll(FedChar(t, s[i]), s[i + 1..])
  {
    hide FedChar;
    assert s[i..][0] == s[i] && s[i..][1..] == s[i + 1..];
  }

  lemma FedAllEnd(t: Term, s: string)
    requires Good(t) && s == ""
    ensures FedAll(t, s) == t
  {}

  lemma FedEachStep(t: Term, ss: seq<string>, i: nat)
    requires Good(t) && i < |ss|
    ensures FedEach(t, ss[i..]) == FedEach(Fed(t, ss[i]), ss[i + 1..])
  {
    hide Fed;
    assert ss[i..][0] == ss[i] && ss[i..][1..] == ss[i + 1..];
  }

  lemma FedEachEnd(t: Term, ss: seq<string>)
    requires Good(t) && ss == []
    ensures FedEach(t, ss) == t
  {}

  lemma ConfinedSelf(g: Geometry, cols: nat, rows: nat, img: Image)
    requires Well(img)
    ensures Confined(g, cols, rows, img, img)
  {}

  lemma PaintedKeeps(g: Geometry, a: Image, b: Image, col: nat, row: nat, cell: Cell, inv: bool, x: nat, y: nat, c: Cell, i: bool)
    requires Sane(g) && Painted(g, a, b, col, row, cell, inv)
    requires if x == col && y == row then c == cell && i == inv else CellShown(g, a, x, y, c, i)
    ensures CellShown(g, b, x, y, c, i)
  {
    hide Edge, CellPixel, Cw, Ch, Sane;
    forall px, py | 0 <= px < b.w && 0 <= py < b.h && InCell(g, x, y, px, py)
      ensures b.px[py][px] == CellPixel(g, c, i, px - Left(g, x), py - Upper(g, y))
    {
      SameCell(g, col, row, x, y, px, py);
    }
  }

  lemma CellsShow(g: Geometry, t: Term, img: Image)
    requires Sane(g) && Good(t) && Well(img) && t.drawn == None
    requires forall y: nat, x: nat :: y < t.rows && x < t.cols ==> CellShown(g, img, x, y, t.cells[y][x], false)
    ensures Shows(g, t, img, 0, 0)
  {
    hide CellShown, Grid;
  }

  lemma SamePicture(g: Geometry, t: Term, a: Image, b: Image)
    requires Sane(g) && Good(t) && Confined(g, t.cols, t.rows, a, b)
    requires Shows(g, t, a, 0, 0) && Shows(g, t, b, 0, 0)
    ensures a == b
  {
    hide Shows;
    ConfinedSelf(g, t.cols, t.rows, a);
    SamePixels(g, t, a, a, b);
    Cursor.SameImage(a, b);
  }

  lemma ErasedNothing(t: Term, row: nat, from: nat, to: nat)
    requires Good(t) && row < t.rows && to <= t.cols && from >= to
    ensures Erased(t, row, from, to) == t
    ensures !(from == 0 && to == t.cols)
  {}

  lemma Resettled(t: Term)
    requires Good(t) && t.drawn == if t.cursorOn then Some(Place(t.cx, t.cy)) else None
    ensures CursorShown(CursorHidden(t)) == t
  {}

  lemma ConfinedTrans(g: Geometry, cols: nat, rows: nat, a: Image, b: Image, c: Image)
    requires Confined(g, cols, rows, a, b) && Confined(g, cols, rows, b, c)
    ensures Confined(g, cols, rows, a, c)
  {}

  lemma FedSize(t: Term, s: string)
    requires Good(t)
    ensures Fed(t, s).cols == t.cols && Fed(t, s).rows == t.rows
  {
    hide FedAll;
  }

  /** However a text is cut into chunks, the pixels end the same. */
  lemma ChunksSamePixels(g: Geometry, t: Term, base: Image, ss: seq<string>, a: Image, b: Image)
    requires Sane(g) && Good(t) && ss != []
    requires var u := FedEach(t, ss); Good(u) && Confined(g, u.cols, u.rows, base, a) && Shows(g, u, a, 0, 0)
    requires var w := Fed(t, Concat(ss)); Confined(g, w.cols, w.rows, base, b) && Shows(g, w, b, 0, 0)
    ensures a == b
  {
    hide Shows, Fed, FedEach, Confined;
    ChunksDoNotMatter(t, ss);
    SamePixels(g, FedEach(t, ss), base, a, b);
    ConfinedAlike(g, FedEach(t, ss), base, a, b);
    Cursor.SameImage(a, b);
  }

  lemma ConfinedAlike(g: Geometry, t: Term, base: Image, a: Image, b: Image)
    requires Confined(g, t.cols, t.rows, base, a) && Confined(g, t.cols, t.rows, base, b)
    ensures Alike(a, b)
  {}
}
