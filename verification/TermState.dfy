/** The terminal as a value: its grid of cells, cursor, pen and parser
    (rootfs/lib/beer/term.beer:25-65, 139-297). */
module TermState {
  import opened Options
  import opened Text

  // ---- colours ----

  const PALETTE: seq<nat> := [
    0x000000, 0xCD0000, 0x00CD00, 0xCDCD00, 0x0000EE, 0xCD00CD, 0x00CDCD, 0xE5E5E5,
    0x7F7F7F, 0xFF0000, 0x00FF00, 0xFFFF00, 0x5C5CFF, 0xFF00FF, 0x00FFFF, 0xFFFFFF
  ]

  const RGB_FLAG: nat := 0x1000000

  function Rgb(r: nat, g: nat, b: nat): nat {
    r % 256 * 0x10000 + g % 256 * 0x100 + b % 256
  }

  function Level(v: nat): nat { if v == 0 then 0 else 55 + 40 * v }

  function Color256(n: nat): nat {
    if n < 16 then PALETTE[n]
    else if n < 232 then Rgb(Level((n - 16) / 36), Level((n - 16) / 6 % 6), Level((n - 16) % 6))
    else var v := 8 + 10 * (n - 232); Rgb(v, v, v)
  }

  function Resolve(c: nat, bold: bool): nat {
    if c >= RGB_FLAG then c - RGB_FLAG else Color256(if bold && c < 8 then c + 8 else c)
  }

  // ---- state ----

  datatype Mode = Ground | Esc | Csi
  datatype Cell = Cell(ch: char, fg: nat, bg: nat)
  datatype Place = Place(col: nat, row: nat)

  datatype Term = Term(
    cols: nat, rows: nat, defFg: nat, defBg: nat,
    fg: nat, bg: nat, bold: bool, inverse: bool,
    cx: nat, cy: nat, wrap: bool, saved: Option<Place>,
    cursorOn: bool, drawn: Option<Place>,
    mode: Mode, params: string, cells: seq<seq<Cell>>)

  /** The grid is rows x cols and the cursor is on it. */
  ghost predicate Good(t: Term) {
    && t.cols > 0 && t.rows > 0 && t.cx < t.cols && t.cy < t.rows
    && Grid(t.cells, t.cols, t.rows)
  }

  /** A good state of the same terminal with the same cell drawn as the cursor. */
  ghost predicate Next(t: Term, r: Term) {
    Good(r) && r.cols == t.cols && r.rows == t.rows && r.drawn == t.drawn
  }

  /** A good state with the same grid. */
  ghost predicate SameCells(t: Term, r: Term) {
    Next(t, r) && r.cells == t.cells
  }

  ghost predicate Grid(cells: seq<seq<Cell>>, cols: nat, rows: nat) {
    |cells| == rows && forall r :: 0 <= r < rows ==> |cells[r]| == cols
  }

  function Pens(t: Term): (nat, nat) {
    var fg, bg := Resolve(t.fg, t.bold), Resolve(t.bg, false);
    if t.inverse then (bg, fg) else (fg, bg)
  }

  function Blank(t: Term): Cell {
    Cell(' ', Resolve(t.defFg, false), Pens(t).1)
  }

  function Make(cols: nat, rows: nat, fg: nat, bg: nat): Term {
    var t := Term(cols, rows, fg, bg, fg, bg, false, false, 0, 0, false, None, true, None, Ground, "", []);
    t.(cells := seq(rows, _ => seq(cols, _ => Blank(t))))
  }

  function Min(a: int, b: int): int { if a < b then a else b }

  // ---- grid operations ----

  function Erased(t: Term, row: nat, from: nat, to: nat): (r: Term)
    requires Good(t) && row < t.rows && to <= t.cols
    ensures Good(r) && r == t.(cells := r.cells)
    ensures forall y, x :: 0 <= y < t.rows && 0 <= x < t.cols ==>
              r.cells[y][x] == if y == row && from <= x < to then Blank(t) else t.cells[y][x]
  {
    hide Blank;
    if from >= to then t
    else
      t.(cells := t.cells[row := t.cells[row][..from] + seq(to - from, _ => Blank(t)) + t.cells[row][to..]])
  }

  function ErasedRows(t: Term, from: nat, to: nat): (r: Term)
    requires Good(t) && to <= t.rows
    ensures Good(r) && r == t.(cells := r.cells)
    decreases if from < to then to - from else 0
  {
    if from >= to then t else ErasedRows(Erased(t, from, 0, t.cols), from + 1, to)
  }

  function BlankRows(t: Term, n: nat): (rows: seq<seq<Cell>>)
    ensures |rows| == n && forall r :: 0 <= r < n ==> |rows[r]| == t.cols
  {
    seq(n, _ => seq(t.cols, _ => Blank(t)))
  }

  /** The grid before its new rows are erased. */
  function Lifted(t: Term, n: nat): (r: Term)
    requires Good(t) && n <= t.rows
    ensures Next(t, r)
  {
    t.(cells := t.cells[n..] + BlankRows(t, n))
  }

  function Lowered(t: Term, n: nat): (r: Term)
    requires Good(t) && n <= t.rows
    ensures Next(t, r)
  {
    t.(cells := BlankRows(t, n) + t.cells[..t.rows - n])
  }

  function ScrolledUp(t: Term, n: nat): (r: Term)
    requires Good(t)
    ensures Next(t, r)
  {
    var m := Min(n, t.rows);
    ErasedRows(Lifted(t, m), t.rows - m, t.rows)
  }

  function ScrolledDown(t: Term, n: nat): (r: Term)
    requires Good(t)
    ensures Next(t, r)
  {
    var m := Min(n, t.rows);
    ErasedRows(Lowered(t, m), 0, m)
  }

  function LineFed(t: Term): (r: Term)
    requires Good(t)
    ensures Next(t, r)
  {
    if t.cy >= t.rows - 1 then ScrolledUp(t, 1) else t.(cy := t.cy + 1)
  }

  /** The deferred wrap, taken before a character is put. */
  function Wrapped(t: Term): (r: Term)
    requires Good(t)
    ensures Next(t, r)
  {
    if t.wrap then LineFed(t).(cx := 0, wrap := false) else t
  }

  function Inked(t: Term, c: char): Cell { Cell(c, Pens(t).0, Pens(t).1) }

  function Placed(t: Term, cell: Cell): (r: Term)
    requires Good(t)
    ensures Next(t, r)
  {
    var u := t.(cells := t.cells[t.cy := t.cells[t.cy][t.cx := cell]]);
    if t.cx >= t.cols - 1 then u.(wrap := true) else u.(cx := t.cx + 1)
  }

  function Put(t: Term, c: char): (r: Term)
    requires Good(t)
    ensures Next(t, r)
  {
    Placed(Wrapped(t), Inked(Wrapped(t), c))
  }

  function Clamp(v: int, n: nat): (r: nat)
    requires n > 0
    ensures r < n
  {
    var a := Min(v, n - 1);
    if a > 0 then a else 0
  }

  function MovedTo(t: Term, col: int, row: int): (r: Term)
    requires Good(t)
    ensures SameCells(t, r)
  {
    t.(cx := Clamp(col, t.cols), cy := Clamp(row, t.rows), wrap := false)
  }

  // ---- SGR ----

  function Or(p: Option<nat>, dflt: nat): nat { if p.Some? then p.value else dflt }

  function At(ps: seq<Option<nat>>, i: nat): Option<nat> { if i < |ps| then ps[i] else None }

  function Drop(ps: seq<Option<nat>>, n: nat): (r: seq<Option<nat>>)
    ensures |r| <= |ps|
  {
    if n <= |ps| then ps[n..] else []
  }

  /** Only the pen differs. */
  ghost predicate OnlyPen(t: Term, r: Term) {
    r == t.(fg := r.fg, bg := r.bg, bold := r.bold, inverse := r.inverse)
  }

  function Coloured(t: Term, front: bool, c: nat): Term {
    if front then t.(fg := c) else t.(bg := c)
  }

  /** One parameter: the new state and what is left to read. */
  function SgrOne(t: Term, p: nat, more: seq<Option<nat>>): (res: (Term, seq<Option<nat>>))
    ensures OnlyPen(t, res.0) && |res.1| <= |more|
  {
    hide Rgb;
    if p == 0 then (t.(fg := t.defFg, bg := t.defBg, bold := false, inverse := false), more)
    else if p == 1 then (t.(bold := true), more)
    else if p == 22 then (t.(bold := false), more)
    else if p == 7 then (t.(inverse := true), more)
    else if p == 27 then (t.(inverse := false), more)
    else if 30 <= p <= 37 then (t.(fg := p - 30), more)
    else if 90 <= p <= 97 then (t.(fg := p - 82), more)
    else if 40 <= p <= 47 then (t.(bg := p - 40), more)
    else if 100 <= p <= 107 then (t.(bg := p - 92), more)
    else if p == 39 then (t.(fg := t.defFg), more)
    else if p == 49 then (t.(bg := t.defBg), more)
    else if p == 38 || p == 48 then
      if At(more, 0) == Some(5) then (Coloured(t, p == 38, Or(At(more, 1), 0)), Drop(more, 2))
      else if At(more, 0) == Some(2) then
        var c := RGB_FLAG + Rgb(Or(At(more, 1), 0), Or(At(more, 2), 0), Or(At(more, 3), 0));
        (Coloured(t, p == 38, c), Drop(more, 4))
      else (t, [])
    else (t, more)
  }

  function SgrLoop(t: Term, ps: seq<Option<nat>>): (r: Term)
    ensures OnlyPen(t, r)
    decreases |ps|
  {
    if ps == [] then t
    else var (u, rest) := SgrOne(t, Or(ps[0], 0), ps[1..]); SgrLoop(u, rest)
  }

  function Sgr(t: Term, ps: seq<Option<nat>>): (r: Term)
    ensures OnlyPen(t, r)
  {
    SgrLoop(t, if ps == [] then [Some(0)] else ps)
  }

  // ---- control sequences ----

  predicate Digits(s: string) {
    forall i :: 0 <= i < |s| ==> '0' <= s[i] <= '9'
  }

  function Number(s: string): nat
    requires Digits(s)
  {
    if s == "" then 0 else Number(s[..|s| - 1]) * 10 + (s[|s| - 1] as nat - '0' as nat)
  }

  /** A decimal parameter; absent when empty. */
  function Param(s: string): Option<nat> {
    if s == "" || !Digits(s) then None else Some(Number(s))
  }

  function Params(s: string): seq<Option<nat>> {
    var ps := Split(s, ';');
    seq(|ps|, i requires 0 <= i < |ps| => Param(ps[i]))
  }

  predicate Private(raw: string) { |raw| > 0 && raw[0] == '?' }

  function Arguments(raw: string): seq<Option<nat>> {
    Params(if Private(raw) then raw[1..] else raw)
  }

  /** Parameter i, the default when it is absent or 0. */
  function N(ps: seq<Option<nat>>, i: nat, dflt: nat): nat {
    if Or(At(ps, i), 0) == 0 then dflt else At(ps, i).value
  }

  function Z(ps: seq<Option<nat>>, i: nat): nat { Or(At(ps, i), 0) }

  function Grounded(t: Term): Term { t.(mode := Ground, params := "") }

  function SavedPlace(t: Term): Place { if t.saved.Some? then t.saved.value else Place(0, 0) }

  function ErasedScreen(t: Term, m: nat): (r: Term)
    requires Good(t)
    ensures Next(t, r)
  {
    if m == 0 then ErasedRows(Erased(t, t.cy, t.cx, t.cols), t.cy + 1, t.rows)
    else if m == 1 then Erased(ErasedRows(t, 0, t.cy), t.cy, 0, t.cx + 1)
    else ErasedRows(t, 0, t.rows)
  }

  function ErasedLine(t: Term, m: nat): (r: Term)
    requires Good(t)
    ensures Next(t, r)
  {
    if m == 0 then Erased(t, t.cy, t.cx, t.cols)
    else if m == 1 then Erased(t, t.cy, 0, t.cx + 1)
    else Erased(t, t.cy, 0, t.cols)
  }

  /** The sequences that only move the cursor or set state. */
  function Moved(t: Term, final: char, ps: seq<Option<nat>>): (r: Term)
    requires Good(t)
    ensures SameCells(t, r)
  {
    var cx, cy := t.cx, t.cy;
    match final
    case 'A' => MovedTo(t, cx, cy - N(ps, 0, 1))
    case 'B' => MovedTo(t, cx, cy + N(ps, 0, 1))
    case 'C' => MovedTo(t, cx + N(ps, 0, 1), cy)
    case 'D' => MovedTo(t, Min(cx, t.cols - 1) - N(ps, 0, 1), cy)
    case 'E' => MovedTo(t, 0, cy + N(ps, 0, 1))
    case 'F' => MovedTo(t, 0, cy - N(ps, 0, 1))
    case 'G' => MovedTo(t, N(ps, 0, 1) - 1, cy)
    case 'd' => MovedTo(t, cx, N(ps, 0, 1) - 1)
    case 'H' => MovedTo(t, N(ps, 1, 1) - 1, N(ps, 0, 1) - 1)
    case 'f' => MovedTo(t, N(ps, 1, 1) - 1, N(ps, 0, 1) - 1)
    case 's' => t.(saved := Some(Place(cx, cy)))
    case 'u' => MovedTo(t, SavedPlace(t).col, SavedPlace(t).row)
    case _ => t
  }

  function PrivateMode(t: Term, final: char, ps: seq<Option<nat>>): Term {
    if final == 'h' && Z(ps, 0) == 25 then t.(cursorOn := true)
    else if final == 'l' && Z(ps, 0) == 25 then t.(cursorOn := false)
    else t
  }

  function ControlSequence(t: Term, final: char): (r: Term)
    requires Good(t)
    ensures Next(t, r)
  {
    var ps := Arguments(t.params);
    var u := Grounded(t);
    if Private(t.params) then PrivateMode(u, final, ps)
    else if final == 'J' then ErasedScreen(u, Z(ps, 0))
    else if final == 'K' then ErasedLine(u, Z(ps, 0))
    else if final == 'S' then ScrolledUp(u, N(ps, 0, 1))
    else if final == 'T' then ScrolledDown(u, N(ps, 0, 1))
    else if final == 'm' then Sgr(u, ps)
    else Moved(u, final, ps)
  }

  // ---- characters ----

  function Reset(t: Term): (r: Term)
    requires Good(t)
    ensures Next(t, r)
  {
    var u := t.(fg := t.defFg, bg := t.defBg, bold := false, inverse := false, cursorOn := true, saved := None);
    MovedTo(ErasedRows(u, 0, u.rows), 0, 0)
  }

  function FedInCsi(t: Term, c: char): (r: Term)
    requires Good(t)
    ensures Next(t, r)
  {
    var code := c as int;
    if 0x40 <= code <= 0x7E then ControlSequence(t, c)
    else if code == 27 then t.(mode := Esc, params := "")
    else if code < 32 then t
    else t.(params := t.params + [c])
  }

  /** The escapes that leave the grid alone. */
  function EscMoved(t: Term, code: int): (r: Term)
    requires Good(t)
    ensures SameCells(t, r)
  {
    if code == 91 then t.(mode := Csi, params := "")
    else if code == 55 then t.(saved := Some(Place(t.cx, t.cy)))
    else if code == 56 then MovedTo(t, SavedPlace(t).col, SavedPlace(t).row)
    else if code == 77 && t.cy > 0 then t.(cy := t.cy - 1)
    else t
  }

  function FedInEsc(t: Term, c: char): (r: Term)
    requires Good(t)
    ensures Next(t, r)
  {
    var u := t.(mode := Ground);
    var code := c as int;
    if code == 99 then Reset(u)
    else if code == 68 then LineFed(u)
    else if code == 77 && u.cy == 0 then ScrolledDown(u, 1)
    else if code == 69 then LineFed(u).(cx := 0)
    else EscMoved(u, code)
  }

  /** The control characters that leave the grid alone. */
  function ControlMoved(t: Term, code: int): (r: Term)
    requires Good(t)
    ensures SameCells(t, r)
  {
    if code == 27 then t.(mode := Esc)
    else if code == 13 then t.(cx := 0, wrap := false)
    else if code == 8 then
      var x := Min(t.cx, t.cols - 1) - 1;
      t.(cx := if x > 0 then x else 0, wrap := false)
    else if code == 9 then MovedTo(t, Min(t.cols - 1, 8 * (t.cx / 8 + 1)), t.cy)
    else t
  }

  function FedInGround(t: Term, c: char): (r: Term)
    requires Good(t)
    ensures Next(t, r)
  {
    var code := c as int;
    if code == 10 || code == 11 || code == 12 then LineFed(t).(wrap := false)
    else if code < 32 || code == 127 then ControlMoved(t, code)
    else Put(t, c)
  }

  function FedChar(t: Term, c: char): (r: Term)
    requires Good(t)
    ensures Next(t, r)
  {
    match t.mode
    case Csi => FedInCsi(t, c)
    case Esc => FedInEsc(t, c)
    case Ground => FedInGround(t, c)
  }

  function FedAll(t: Term, s: string): (r: Term)
    requires Good(t)
    ensures Next(t, r)
    decreases |s|
  {
    if s == "" then t else FedAll(FedChar(t, s[0]), s[1..])
  }

  function CursorHidden(t: Term): Term { t.(drawn := None) }

  function CursorShown(t: Term): Term
    requires Good(t)
  {
    if t.cursorOn then t.(drawn := Some(Place(Min(t.cx, t.cols - 1), t.cy))) else t
  }

  /** feed: the state after writing a string. */
  function Fed(t: Term, s: string): (r: Term)
    requires Good(t)
    ensures Good(r)
  {
    CursorShown(FedAll(CursorHidden(t), s))
  }

  // ---- what the grid operations come to ----

  /** Only the grid differs, cell (x, y) being what `cell` says. */
  ghost predicate OnlyGrid(t: Term, r: Term) { Good(r) && r == t.(cells := r.cells) }

  /** Blank and pen depend on the colours alone. */
  lemma SameInk(t: Term, u: Term)
    requires u.fg == t.fg && u.bg == t.bg && u.bold == t.bold && u.inverse == t.inverse && u.defFg == t.defFg
    ensures Blank(u) == Blank(t) && forall c :: Inked(u, c) == Inked(t, c)
  {
    hide Resolve;
  }

  lemma {:induction false} ErasedRowsIs(t: Term, from: nat, to: nat)
    requires Good(t) && to <= t.rows
    ensures var r := ErasedRows(t, from, to);
            && OnlyGrid(t, r)
            && forall y, x :: 0 <= y < t.rows && 0 <= x < t.cols ==>
                 r.cells[y][x] == if from <= y < to then Blank(t) else t.cells[y][x]
    decreases if from < to then to - from else 0
  {
    hide Pens, Resolve;
    if from < to {
      var u := Erased(t, from, 0, t.cols);
      SameInk(t, u);
      ErasedRowsIs(u, from + 1, to);
    }
  }

  /** Scrolling up by n moves every row up and leaves blank rows at the bottom. */
  lemma ScrolledUpIs(t: Term, n: nat)
    requires Good(t)
    ensures var m, r := Min(n, t.rows), ScrolledUp(t, n);
            && OnlyGrid(t, r)
            && forall y, x :: 0 <= y < t.rows && 0 <= x < t.cols ==>
                 r.cells[y][x] == if y < t.rows - m then t.cells[y + m][x] else Blank(t)
  {
    hide ErasedRows, Pens, Resolve, BlankRows;
    var m := Min(n, t.rows);
    SameInk(t, Lifted(t, m));
    ErasedRowsIs(Lifted(t, m), t.rows - m, t.rows);
  }

  /** Scrolling down moves every row down and leaves blank rows at the top. */
  lemma ScrolledDownIs(t: Term, n: nat)
    requires Good(t)
    ensures var m, r := Min(n, t.rows), ScrolledDown(t, n);
            && OnlyGrid(t, r)
            && forall y, x :: 0 <= y < t.rows && 0 <= x < t.cols ==>
                 r.cells[y][x] == if y >= m then t.cells[y - m][x] else Blank(t)
  {
    hide ErasedRows, Pens, Resolve, BlankRows;
    var m := Min(n, t.rows);
    SameInk(t, Lowered(t, m));
    ErasedRowsIs(Lowered(t, m), 0, m);
  }

  /** Cells in reading order: whether (x, y) comes before the cursor. */
  predicate BeforeCursor(t: Term, x: int, y: int) { y < t.cy || (y == t.cy && x < t.cx) }

  /** ED: from the cursor on, up to it and including it, or everything. */
  lemma ErasedScreenIs(t: Term, m: nat)
    requires Good(t)
    ensures var r := ErasedScreen(t, m);
            && OnlyGrid(t, r)
            && forall y, x :: 0 <= y < t.rows && 0 <= x < t.cols ==>
                 r.cells[y][x] ==
                   if (m == 0 && BeforeCursor(t, x, y))
                      || (m == 1 && !BeforeCursor(t, x, y) && !(x == t.cx && y == t.cy)) then t.cells[y][x]
                   else Blank(t)
  {
    hide ErasedRows, Pens, Resolve;
    if m == 0 {
      var u := Erased(t, t.cy, t.cx, t.cols);
      SameInk(t, u);
      ErasedRowsIs(u, t.cy + 1, t.rows);
    } else if m == 1 {
      var u := ErasedRows(t, 0, t.cy);
      ErasedRowsIs(t, 0, t.cy);
      SameInk(t, u);
    } else {
      ErasedRowsIs(t, 0, t.rows);
    }
  }

  predicate Printable(s: string) {
    forall i :: 0 <= i < |s| ==> s[i] as int >= 32 && s[i] as int != 127
  }

  /** Printable text with room in its row lands there cell by cell in the pen's colours;
      the cursor follows, and stays on the last column with a wrap pending. */
  lemma {:induction false} PrintedIs(t: Term, s: string)
    requires Good(t) && t.mode == Ground && !t.wrap && Printable(s) && t.cx + |s| <= t.cols
    ensures var r := FedAll(t, s);
            && Good(r) && r == t.(cells := r.cells, cx := r.cx, wrap := r.wrap)
            && r.cx == Min(t.cx + |s|, t.cols - 1) && r.wrap == (t.cx + |s| == t.cols && s != "")
            && forall y, x :: 0 <= y < t.rows && 0 <= x < t.cols ==>
                 r.cells[y][x] == if y == t.cy && t.cx <= x < t.cx + |s| then Inked(t, s[x - t.cx]) else t.cells[y][x]
    decreases |s|
  {
    hide Pens, Resolve;
    if s != "" {
      var u := FedChar(t, s[0]);
      assert u == Placed(t, Inked(t, s[0]));
      SameInk(t, u);
      if |s| == 1 {
        assert s[1..] == "";
        assert FedAll(u, "") == u;
      } else {
        PrintedIs(u, s[1..]);
      }
    }
  }

  /** A character that finds a wrap pending starts the next row. */
  lemma WrapsOnce(t: Term, c: char)
    requires Good(t) && t.mode == Ground && t.wrap && Printable([c])
    ensures var r, u := FedChar(t, c), LineFed(t);
            && r.cy == Min(t.cy + 1, t.rows - 1) && r.cx == Min(1, t.cols - 1) && r.wrap == (t.cols == 1)
            && r.cells == u.cells[r.cy := u.cells[r.cy][0 := Inked(t, c)]]
  {
    hide ErasedRows, Resolve;
    assert [c][0] == c;
    ScrolledUpIs(t, 1);
  }

  /** ESC 7 or CSI s, then anything that saves no other place, then ESC 8 or CSI u: the
      cursor is where it was. */
  lemma RestoredPlace(t: Term, u: Term)
    requires Good(t) && Good(u) && u.cols == t.cols && u.rows == t.rows && u.saved == Some(Place(t.cx, t.cy))
    ensures var r := MovedTo(u, SavedPlace(u).col, SavedPlace(u).row);
            SameCells(u, r) && r.cx == t.cx && r.cy == t.cy && !r.wrap
  {}

  // ---- chunks ----

  lemma {:induction false} FedAllAppend(t: Term, a: string, b: string)
    requires Good(t)
    ensures FedAll(t, a + b) == FedAll(FedAll(t, a), b)
    decreases |a|
  {
    hide FedChar;
    if a == "" {
      assert a + b == b;
    } else {
      assert (a + b)[0] == a[0] && (a + b)[1..] == a[1..] + b;
      FedAllAppend(FedChar(t, a[0]), a[1..], b);
    }
  }

  /** Writing a text in two pieces ends in the state of writing it at once. */
  lemma FedInChunks(t: Term, a: string, b: string)
    requires Good(t)
    ensures Fed(Fed(t, a), b) == Fed(t, a + b)
  {
    hide FedAll;
    FedAllAppend(CursorHidden(t), a, b);
  }

  ghost function Concat(ss: seq<string>): string {
    if ss == [] then "" else ss[0] + Concat(ss[1..])
  }

  ghost function FedEach(t: Term, ss: seq<string>): Term
    requires Good(t)
    decreases |ss|
  {
    if ss == [] then t else FedEach(Fed(t, ss[0]), ss[1..])
  }

  /** However a text is cut, the grid, the cursor and the parser end the same. */
  lemma {:induction false} ChunksDoNotMatter(t: Term, ss: seq<string>)
    requires Good(t) && ss != []
    ensures FedEach(t, ss) == Fed(t, Concat(ss))
    decreases |ss|
  {
    hide Fed;
    if |ss| == 1 {
      assert Concat(ss) == ss[0] && FedEach(t, ss) == Fed(t, ss[0]);
    } else {
      ChunksDoNotMatter(Fed(t, ss[0]), ss[1..]);
      FedInChunks(t, ss[0], Concat(ss[1..]));
    }
  }
}
