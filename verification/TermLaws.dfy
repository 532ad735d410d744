/** What control characters and sequences do to the terminal, said of the text that is fed
    (rootfs/lib/beer/term.beer:139-297). */
module TermLaws {
  import opened Options
  import opened Text
  import opened TermState

  /** A new terminal is blank in its colours, with the cursor at home and the pen in them. */
  lemma MadeIs(cols: nat, rows: nat, fg: nat, bg: nat)
    requires cols > 0 && rows > 0
    ensures var t := Make(cols, rows, fg, bg);
            && Good(t) && t.cols == cols && t.rows == rows && t.mode == Ground && t.params == ""
            && t.cx == 0 && t.cy == 0 && !t.wrap && t.saved == None && t.cursorOn
            && (forall c :: Inked(t, c) == Cell(c, TermState.Resolve(fg, false), TermState.Resolve(bg, false)))
            && forall y, x :: 0 <= y < rows && 0 <= x < cols ==>
                 t.cells[y][x] == Cell(' ', TermState.Resolve(fg, false), TermState.Resolve(bg, false))
  {
    hide TermState.Resolve;
  }

  /** After feed the cursor is drawn where it stands, if it is shown, and nowhere else; all the
      rest is what the text does. */
  lemma CursorDrawn(t: Term, s: string)
    requires Good(t)
    ensures var r, u := Fed(t, s), FedAll(t.(drawn := None), s);
            r == u.(drawn := if u.cursorOn then Some(Place(u.cx, u.cy)) else None)
  {
    hide FedAll;
  }

  // ---- the texts ----

  const ESC: char := 27 as char

  function Digit(n: nat): (c: char)
    requires n < 10
    ensures '0' <= c <= '9' && c as nat - '0' as nat == n
  {
    ('0' as nat + n) as char
  }

  /** n in decimal. */
  function Decimal(n: nat): (s: string)
    ensures s != "" && Digits(s)
  {
    if n < 10 then [Digit(n)] else Decimal(n / 10) + [Digit(n % 10)]
  }

  /** A parameter that may be left out. */
  function Arg(n: Option<nat>): (s: string)
    ensures Digits(s)
  {
    if n.None? then "" else Decimal(n.value)
  }

  /** Motions count from 1: nothing and 0 say 1. */
  function Count(n: Option<nat>): (c: nat)
    ensures c > 0
  {
    if n.None? || n.value == 0 then 1 else n.value
  }

  function Csi(args: string, final: char): string { [ESC, '['] + args + [final] }

  // ---- reading them ----

  /** A decimal text is read as its number. */
  lemma {:induction false} NumberOf(n: nat)
    ensures Number(Decimal(n)) == n
  {
    if n >= 10 {
      NumberOf(n / 10);
      var s := Decimal(n);
      assert s[..|s| - 1] == Decimal(n / 10) && s[|s| - 1] == Digit(n % 10);
    } else {
      assert Decimal(n)[..0] == "";
    }
  }

  lemma ParamOf(n: Option<nat>)
    ensures Param(Arg(n)) == n
  {
    hide Decimal, Number;
    if n.Some? { NumberOf(n.value); }
  }

  /** Characters that a control sequence collects. */
  predicate Collected(s: string) {
    forall i :: 0 <= i < |s| ==> 32 <= s[i] as int < 0x40
  }

  lemma {:induction false} Collects(t: Term, args: string)
    requires Good(t) && t.mode == TermState.Csi && Collected(args)
    ensures FedAll(t, args) == t.(params := t.params + args)
    decreases |args|
  {
    hide ControlSequence;
    if args == "" {
      assert t.params + args == t.params;
    } else {
      var u := FedChar(t, args[0]);
      Collects(u, args[1..]);
      assert t.params + [args[0]] + args[1..] == t.params + args;
    }
  }

  lemma FedOne(t: Term, c: char)
    requires Good(t)
    ensures FedAll(t, [c]) == FedChar(t, c)
  {
    hide FedChar;
    assert [c][1..] == "";
  }

  /** A whole control sequence is its final character with what was collected. */
  lemma FedCsi(t: Term, args: string, final: char)
    requires Good(t) && t.mode == Ground && Collected(args) && 0x40 <= final as int <= 0x7E
    ensures FedAll(t, Csi(args, final)) == ControlSequence(t.(mode := TermState.Csi, params := args), final)
  {
    hide ControlSequence, FedAll;
    var a, b := t.(mode := Esc), t.(mode := TermState.Csi, params := "");
    FedOne(t, ESC);
    FedOne(a, '[');
    FedAllAppend(t, [ESC], ['[']);
    assert [ESC] + ['['] == [ESC, '['];
    FedAllAppend(t, [ESC, '['], args);
    Collects(b, args);
    assert "" + args == args;
    FedAllAppend(t, [ESC, '['] + args, [final]);
    FedOne(b.(params := args), final);
  }

  lemma DigitsCollected(s: string)
    requires Digits(s)
    ensures Collected(s) && !Private(s) && ';' !in s
  {}

  /** One parameter. */
  lemma OneArgument(n: Option<nat>)
    ensures Collected(Arg(n)) && !Private(Arg(n)) && Arguments(Arg(n)) == [n]
  {
    hide Arg, Param;
    DigitsCollected(Arg(n));
    SplitJoin([Arg(n)], ';');
    ParamOf(n);
  }

  /** Two, with a semicolon between them. */
  lemma TwoArguments(m: Option<nat>, n: Option<nat>)
    ensures var s := Arg(m) + ";" + Arg(n); Collected(s) && !Private(s) && Arguments(s) == [m, n]
  {
    hide Arg, Param;
    DigitsCollected(Arg(m));
    DigitsCollected(Arg(n));
    SplitJoin([Arg(m), Arg(n)], ';');
    ParamOf(m);
    ParamOf(n);
  }

  // ---- motions ----

  /** The cursor is on that place with no wrap pending, and nothing else has changed. */
  ghost predicate Arrives(t: Term, r: Term, col: nat, row: nat) {
    r == t.(cx := col, cy := row, wrap := false, params := "")
  }

  function Up(t: Term, n: nat): nat { if n <= t.cy then t.cy - n else 0 }

  function Down(t: Term, n: nat): int { if t.cy + n < t.rows then t.cy + n else t.rows - 1 }

  lemma OneMotion(t: Term, n: Option<nat>, final: char)
    requires Good(t) && t.mode == Ground && 0x40 <= final as int <= 0x7E && final !in "JKSTm"
    ensures FedAll(t, Csi(Arg(n), final)) == Moved(t.(params := ""), final, [n])
  {
    hide Arg, FedAll, Moved, Arguments;
    OneArgument(n);
    FedCsi(t, Arg(n), final);
  }

  /** CSI A and B: up and down by the count, to the edge at most. */
  lemma VerticalMotion(t: Term, n: Option<nat>)
    requires Good(t) && t.mode == Ground
    ensures Arrives(t, FedAll(t, Csi(Arg(n), 'A')), t.cx, Up(t, Count(n)))
    ensures Down(t, Count(n)) >= 0 && Arrives(t, FedAll(t, Csi(Arg(n), 'B')), t.cx, Down(t, Count(n)))
  {
    hide Arg, FedAll;
    OneMotion(t, n, 'A');
    OneMotion(t, n, 'B');
  }

  /** CSI C and D: to the right and to the left. */
  lemma HorizontalMotion(t: Term, n: Option<nat>)
    requires Good(t) && t.mode == Ground
    ensures Arrives(t, FedAll(t, Csi(Arg(n), 'C')), if t.cx + Count(n) < t.cols then t.cx + Count(n) else t.cols - 1, t.cy)
    ensures Arrives(t, FedAll(t, Csi(Arg(n), 'D')), if Count(n) <= t.cx then t.cx - Count(n) else 0, t.cy)
  {
    hide Arg, FedAll;
    OneMotion(t, n, 'C');
    OneMotion(t, n, 'D');
  }

  /** CSI E and F: to the start of a row below or above. */
  lemma LineMotion(t: Term, n: Option<nat>)
    requires Good(t) && t.mode == Ground
    ensures Down(t, Count(n)) >= 0 && Arrives(t, FedAll(t, Csi(Arg(n), 'E')), 0, Down(t, Count(n)))
    ensures Arrives(t, FedAll(t, Csi(Arg(n), 'F')), 0, Up(t, Count(n)))
  {
    hide Arg, FedAll, Moved, Grid, Csi, Count;
    OneMotion(t, n, 'E');
    OneMotion(t, n, 'F');
    LinesAre(t.(params := ""), n);
  }

  lemma LinesAre(t: Term, n: Option<nat>)
    requires Good(t)
    ensures Down(t, Count(n)) >= 0 && Moved(t, 'E', [n]) == t.(cx := 0, cy := Down(t, Count(n)), wrap := false)
    ensures Moved(t, 'F', [n]) == t.(cx := 0, cy := Up(t, Count(n)), wrap := false)
  {}

  /** A coordinate counts from 1 and stops at the last one. */
  function Coordinate(n: Option<nat>, size: nat): (k: nat)
    requires size > 0
    ensures k < size
  {
    if Count(n) <= size then Count(n) - 1 else size - 1
  }

  /** CSI G and d: to a column of the row, to a row of the column. */
  lemma LineOrColumn(t: Term, n: Option<nat>)
    requires Good(t) && t.mode == Ground
    ensures Arrives(t, FedAll(t, Csi(Arg(n), 'G')), Coordinate(n, t.cols), t.cy)
    ensures Arrives(t, FedAll(t, Csi(Arg(n), 'd')), t.cx, Coordinate(n, t.rows))
  {
    hide Arg, FedAll;
    OneMotion(t, n, 'G');
    OneMotion(t, n, 'd');
  }

  /** CSI H and f: the row, then the column. */
  lemma PlaceMotion(t: Term, row: Option<nat>, col: Option<nat>, final: char)
    requires Good(t) && t.mode == Ground && final in "Hf"
    ensures Arrives(t, FedAll(t, Csi(Arg(row) + ";" + Arg(col), final)), Coordinate(col, t.cols), Coordinate(row, t.rows))
    ensures Arrives(t, FedAll(t, Csi(Arg(row), final)), 0, Coordinate(row, t.rows))
  {
    hide Arg, FedAll, Moved, Grid, Csi, Count, Coordinate;
    TwoMotion(t, row, col, final);
    OneMotion(t, row, final);
    PlaceIs(t.(params := ""), row, col, final);
    FinalPlace(final);
  }

  lemma FinalPlace(final: char)
    requires final in "Hf"
    ensures 0x40 <= final as int <= 0x7E && final !in "JKSTm"
  {}

  lemma TwoMotion(t: Term, m: Option<nat>, n: Option<nat>, final: char)
    requires Good(t) && t.mode == Ground && final in "Hf"
    ensures FedAll(t, Csi(Arg(m) + ";" + Arg(n), final)) == Moved(t.(params := ""), final, [m, n])
  {
    hide Arg, FedAll, Moved, Arguments;
    TwoArguments(m, n);
    FedCsi(t, Arg(m) + ";" + Arg(n), final);
  }

  lemma PlaceIs(t: Term, row: Option<nat>, col: Option<nat>, final: char)
    requires Good(t) && final in "Hf"
    ensures Moved(t, final, [row, col]) == t.(cx := Coordinate(col, t.cols), cy := Coordinate(row, t.rows), wrap := false)
    ensures Moved(t, final, [row]) == t.(cx := 0, cy := Coordinate(row, t.rows), wrap := false)
  {}

  // ---- control characters and escapes ----

  /** CR, BS and HT: the start of the row, one column back, the next multiple of eight. */
  lemma ColumnControls(t: Term)
    requires Good(t) && t.mode == Ground
    ensures FedAll(t, [13 as char]) == t.(cx := 0, wrap := false)
    ensures FedAll(t, [8 as char]) == t.(cx := if t.cx > 0 then t.cx - 1 else 0, wrap := false)
    ensures var stop := t.cx + 8 - t.cx % 8;
            FedAll(t, [9 as char]) == t.(cx := if stop < t.cols then stop else t.cols - 1, wrap := false)
  {
    hide FedAll;
    FedOne(t, 13 as char);
    FedOne(t, 8 as char);
    FedOne(t, 9 as char);
  }

  /** All rows have moved by one, up or down, and the row that came in is blank. */
  ghost predicate Shifted(t: Term, cells: seq<seq<Cell>>, down: bool)
    requires Good(t)
  {
    && Grid(cells, t.cols, t.rows)
    && forall y, x :: 0 <= y < t.rows && 0 <= x < t.cols ==>
         cells[y][x] ==
           if down then (if y == 0 then Blank(t) else t.cells[y - 1][x])
           else if y == t.rows - 1 then Blank(t) else t.cells[y + 1][x]
  }

  /** One row down, or at the bottom the rows go up. */
  ghost predicate WentDown(t: Term, r: Term)
    requires Good(t)
  {
    if t.cy + 1 < t.rows then r == t.(cx := r.cx, wrap := r.wrap, cy := t.cy + 1)
    else r == t.(cx := r.cx, wrap := r.wrap, cells := r.cells) && Shifted(t, r.cells, false)
  }

  lemma LineFeeds(t: Term)
    requires Good(t)
    ensures WentDown(t, LineFed(t)) && LineFed(t).cx == t.cx && LineFed(t).wrap == t.wrap
  {
    hide ScrolledUp, Blank;
    ScrolledUpIs(t, 1);
  }

  /** LF, VT and FF keep the column and drop a pending wrap. */
  lemma LineFeedMotion(t: Term, c: char)
    requires Good(t) && t.mode == Ground && 10 <= c as int <= 12
    ensures var r := FedAll(t, [c]); WentDown(t, r) && r.cx == t.cx && !r.wrap
  {
    hide FedAll, LineFed, Blank;
    FedOne(t, c);
    LineFeeds(t);
  }

  lemma FedEsc(t: Term, c: char)
    requires Good(t) && t.mode == Ground
    ensures FedAll(t, [ESC, c]) == FedInEsc(t.(mode := Esc), c)
  {
    hide FedAll, FedInEsc;
    FedOne(t, ESC);
    FedOne(t.(mode := Esc), c);
    FedAllAppend(t, [ESC], [c]);
    assert [ESC] + [c] == [ESC, c];
  }

  /** ESC D, ESC E and ESC M: a row down, the start of the next row, a row up. */
  lemma RowEscapes(t: Term)
    requires Good(t) && t.mode == Ground
    ensures var r := FedAll(t, [ESC, 'D']); WentDown(t, r) && r.cx == t.cx && r.wrap == t.wrap
    ensures var r := FedAll(t, [ESC, 'E']); WentDown(t, r) && r.cx == 0 && r.wrap == t.wrap
    ensures var r := FedAll(t, [ESC, 'M']);
            if t.cy > 0 then r == t.(cy := t.cy - 1) else r == t.(cells := r.cells) && Shifted(t, r.cells, true)
  {
    hide FedAll, FedInEsc, LineFed, Blank, Grid, Shifted, WentDown;
    FedEsc(t, 'D');
    FedEsc(t, 'E');
    FedEsc(t, 'M');
    RowsAre(t);
    LineFeeds(t);
    Went(t, LineFed(t));
  }

  lemma RowsAre(t: Term)
    requires Good(t) && t.mode == Ground
    ensures var u := t.(mode := Esc); FedInEsc(u, 'D') == LineFed(t) && FedInEsc(u, 'E') == LineFed(t).(cx := 0)
    ensures var r := FedInEsc(t.(mode := Esc), 'M');
            if t.cy > 0 then r == t.(cy := t.cy - 1) else r == t.(cells := r.cells) && Shifted(t, r.cells, true)
  {
    hide LineFed, Blank, ScrolledDown;
    ScrolledDownIs(t, 1);
  }

  lemma Went(t: Term, r: Term)
    requires Good(t) && WentDown(t, r)
    ensures WentDown(t, r.(cx := 0))
  {}

  /** ESC 7 and CSI s save the place; ESC 8 and CSI u go to the one saved, or home. */
  lemma SavedPlaces(t: Term)
    requires Good(t) && t.mode == Ground
    ensures FedAll(t, [ESC, '7']) == t.(saved := Some(Place(t.cx, t.cy)))
    ensures FedAll(t, Csi("", 's')) == t.(saved := Some(Place(t.cx, t.cy)), params := "")
    ensures t.saved.Some? && t.saved.value.col < t.cols && t.saved.value.row < t.rows ==>
              && FedAll(t, [ESC, '8']) == t.(cx := t.saved.value.col, cy := t.saved.value.row, wrap := false)
              && Arrives(t, FedAll(t, Csi("", 'u')), t.saved.value.col, t.saved.value.row)
    ensures t.saved.None? ==>
              FedAll(t, [ESC, '8']) == t.(cx := 0, cy := 0, wrap := false) && Arrives(t, FedAll(t, Csi("", 'u')), 0, 0)
  {
    hide FedAll;
    FedEsc(t, '7');
    FedEsc(t, '8');
    OneMotion(t, None, 's');
    OneMotion(t, None, 'u');
  }

  /** ESC c: blank in the default colours, the cursor shown at home, the default pen. */
  lemma Resets(t: Term)
    requires Good(t) && t.mode == Ground
    ensures var r := FedAll(t, [ESC, 'c']);
            && r == t.(fg := t.defFg, bg := t.defBg, bold := false, inverse := false, cursorOn := true, saved := None,
                       cx := 0, cy := 0, wrap := false, cells := r.cells)
            && Good(r)
            && forall y, x :: 0 <= y < t.rows && 0 <= x < t.cols ==>
                 r.cells[y][x] == Cell(' ', TermState.Resolve(t.defFg, false), TermState.Resolve(t.defBg, false))
  {
    hide FedAll, ErasedRows, TermState.Resolve;
    FedEsc(t, 'c');
    var u := t.(fg := t.defFg, bg := t.defBg, bold := false, inverse := false, cursorOn := true, saved := None);
    ErasedRowsIs(u, 0, u.rows);
  }

  /** CSI ? 25 h and l show and hide the cursor. */
  lemma CursorModes(t: Term)
    requires Good(t) && t.mode == Ground
    ensures FedAll(t, Csi("?25", 'h')) == t.(cursorOn := true, params := "")
    ensures FedAll(t, Csi("?25", 'l')) == t.(cursorOn := false, params := "")
  {
    hide FedAll, Arguments;
    FedCsi(t, "?25", 'h');
    FedCsi(t, "?25", 'l');
    PrivateArgument();
  }

  lemma PrivateArgument()
    ensures Arguments("?25") == [Some(25)] && Private("?25") && Collected("?25")
  {
    hide Split;
    var s := "?25";
    assert s[1..] == "25";
    SplitJoin(["25"], ';');
    assert "25"[..1] == "2" && "2"[..0] == "";
    assert Number("2") == 2 && Number("25") == 25;
  }

  /** BEL and the other controls, DEL, unknown escapes and unknown final characters do
      nothing. */
  lemma Ignored(t: Term, c: char)
    requires Good(t) && t.mode == Ground
    ensures (c as int < 32 && c as int !in {8, 9, 10, 11, 12, 13, 27}) || c as int == 127 ==> FedAll(t, [c]) == t
    ensures c !in "[78cDEM" ==> FedAll(t, [ESC, c]) == t
    ensures 0x40 <= c as int <= 0x7E && c !in "ABCDEFGHJKSTdfmsu" ==> FedAll(t, Csi("", c)) == t.(params := "")
  {
    hide FedAll;
    FedOne(t, c);
    FedEsc(t, c);
    if 0x40 <= c as int <= 0x7E && c !in "JKSTm" { OneMotion(t, None, c); }
  }

  // ---- erasing and scrolling ----

  lemma OneArgumentCsi(t: Term, n: Option<nat>, final: char)
    requires Good(t) && t.mode == Ground && 0x40 <= final as int <= 0x7E
    ensures FedAll(t, Csi(Arg(n), final))
         == var u := t.(params := "");
            if final == 'J' then ErasedScreen(u, Or(n, 0))
            else if final == 'K' then ErasedLine(u, Or(n, 0))
            else if final == 'S' then ScrolledUp(u, Count(n))
            else if final == 'T' then ScrolledDown(u, Count(n))
            else if final == 'm' then Sgr(u, [n])
            else Moved(u, final, [n])
  {
    hide Arg, FedAll, Moved, Arguments, ErasedScreen, ErasedLine, ScrolledUp, ScrolledDown, Sgr;
    OneArgument(n);
    FedCsi(t, Arg(n), final);
  }

  /** A blank cell: a space on the pen's background. */
  lemma BlankIs(t: Term)
    ensures Blank(t) == Cell(' ', TermState.Resolve(t.defFg, false), Inked(t, ' ').bg)
  {}

  /** CSI K: the row from the cursor on, up to and with it, or all of it. */
  lemma ErasesLine(t: Term, m: Option<nat>)
    requires Good(t) && t.mode == Ground
    ensures var r, how := FedAll(t, Csi(Arg(m), 'K')), Or(m, 0);
            && r == t.(cells := r.cells, params := "") && Good(r)
            && forall y, x :: 0 <= y < t.rows && 0 <= x < t.cols ==>
                 r.cells[y][x] ==
                   if y == t.cy && (if how == 0 then x >= t.cx else how > 1 || x <= t.cx) then Blank(t) else t.cells[y][x]
  {
    hide Arg, FedAll, Blank;
    OneArgumentCsi(t, m, 'K');
    PenKept(t, t.(params := ""));
  }

  lemma PenKept(t: Term, u: Term)
    requires u.fg == t.fg && u.bg == t.bg && u.bold == t.bold && u.inverse == t.inverse && u.defFg == t.defFg
    ensures Blank(u) == Blank(t)
  {
    SameInk(t, u);
  }

  /** CSI J: the screen from the cursor on, up to and with it, or all of it. */
  lemma ErasesScreen(t: Term, m: Option<nat>)
    requires Good(t) && t.mode == Ground
    ensures var r, how := FedAll(t, Csi(Arg(m), 'J')), Or(m, 0);
            && r == t.(cells := r.cells, params := "") && Good(r)
            && forall y, x :: 0 <= y < t.rows && 0 <= x < t.cols ==>
                 r.cells[y][x] ==
                   if how > 1 || (if how == 0 then !BeforeCursor(t, x, y) else BeforeCursor(t, x, y) || (y == t.cy && x == t.cx))
                   then Blank(t) else t.cells[y][x]
  {
    hide Arg, FedAll, Blank, ErasedScreen;
    OneArgumentCsi(t, m, 'J');
    ErasedScreenIs(t.(params := ""), Or(m, 0));
    PenKept(t, t.(params := ""));
  }

  /** CSI S and T: all rows up or down by the count, with blank rows behind them. */
  lemma Scrolls(t: Term, n: Option<nat>)
    requires Good(t) && t.mode == Ground
    ensures var r := FedAll(t, Csi(Arg(n), 'S'));
            && r == t.(cells := r.cells, params := "") && Good(r)
            && forall y, x :: 0 <= y < t.rows && 0 <= x < t.cols ==>
                 r.cells[y][x] == if y + Count(n) < t.rows then t.cells[y + Count(n)][x] else Blank(t)
    ensures var r := FedAll(t, Csi(Arg(n), 'T'));
            && r == t.(cells := r.cells, params := "") && Good(r)
            && forall y, x :: 0 <= y < t.rows && 0 <= x < t.cols ==>
                 r.cells[y][x] == if y >= Count(n) then t.cells[y - Count(n)][x] else Blank(t)
  {
    hide Arg, FedAll, Blank, ScrolledUp, ScrolledDown;
    OneArgumentCsi(t, n, 'S');
    OneArgumentCsi(t, n, 'T');
    ScrolledUpIs(t.(params := ""), Count(n));
    ScrolledDownIs(t.(params := ""), Count(n));
    PenKept(t, t.(params := ""));
  }

  // ---- colours ----

  function Texts(ns: seq<Option<nat>>): (ps: seq<string>)
    ensures |ps| == |ns| && forall p :: p in ps ==> Digits(p)
  {
    seq(|ns|, i requires 0 <= i < |ns| => Arg(ns[i]))
  }

  /** Any number of parameters, with semicolons between them. */
  function Args(ns: seq<Option<nat>>): string { Join(Texts(ns), ';') }

  predicate DigitsOrSemicolons(s: string) {
    forall c :: c in s ==> '0' <= c <= '9' || c == ';'
  }

  lemma {:induction false} JoinCollected(ps: seq<string>)
    requires forall p :: p in ps ==> Digits(p)
    ensures DigitsOrSemicolons(Join(ps, ';'))
  {
    if |ps| > 1 {
      JoinCollected(ps[1..]);
      assert ps[0] in ps;
    } else if |ps| == 1 {
      assert ps[0] in ps;
    }
  }

  lemma SemicolonsCollected(s: string)
    requires DigitsOrSemicolons(s)
    ensures Collected(s) && !Private(s)
  {
    forall i | 0 <= i < |s| ensures 32 <= s[i] as int < 0x40 { assert s[i] in s; }
    if s != "" { assert s[0] in s; }
  }

  lemma ArgumentsOf(ns: seq<Option<nat>>)
    requires ns != []
    ensures Collected(Args(ns)) && !Private(Args(ns)) && Arguments(Args(ns)) == ns
  {
    hide Arg, Param, Digits, Join, Split, Collected;
    JoinCollected(Texts(ns));
    SemicolonsCollected(Args(ns));
    forall p | p in Texts(ns) ensures ';' !in p { DigitsCollected(p); }
    SplitJoin(Texts(ns), ';');
    forall i | 0 <= i < |ns| ensures Param(Texts(ns)[i]) == ns[i] { ParamOf(ns[i]); }
  }

  function Attributes(ns: seq<Option<nat>>): string { Csi(Args(ns), 'm') }

  lemma FedSgr(t: Term, ns: seq<Option<nat>>)
    requires Good(t) && t.mode == Ground && ns != []
    ensures FedAll(t, Attributes(ns)) == Sgr(t.(params := ""), ns)
  {
    hide FedAll, Arguments, Args, Csi, SgrLoop;
    ArgumentsOf(ns);
    FedCsi(t, Args(ns), 'm');
  }

  /** The parameters that belong together: 38 and 48 take a colour with them. */
  predicate Group(ns: seq<Option<nat>>) {
    && ns != []
    && if Or(ns[0], 0) in {38, 48} then
         || (|ns| == 3 && ns[1] == Some(5))
         || (|ns| == 5 && ns[1] == Some(2))
       else |ns| == 1
  }

  lemma GroupFirst(t: Term, ns: seq<Option<nat>>, rest: seq<Option<nat>>)
    requires Group(ns)
    ensures SgrLoop(t, ns + rest) == SgrLoop(SgrLoop(t, ns), rest)
  {
    hide Rgb;
    var p := Or(ns[0], 0);
    assert (ns + rest)[1..] == ns[1..] + rest;
    assert Drop(ns[1..] + rest, |ns| - 1) == rest && Drop(ns[1..], |ns| - 1) == [];
    assert [] + rest == rest;
    assert SgrOne(t, p, ns[1..] + rest) == (SgrOne(t, p, ns[1..]).0, rest);
    assert SgrOne(t, p, ns[1..]).1 == [];
  }

  /** One sequence with several groups is as many sequences. */
  lemma SgrInTurn(t: Term, ns: seq<Option<nat>>, rest: seq<Option<nat>>)
    requires Good(t) && t.mode == Ground && Group(ns) && rest != []
    ensures FedAll(t, Attributes(ns + rest)) == FedAll(FedAll(t, Attributes(ns)), Attributes(rest))
  {
    hide FedAll, Args, Csi, SgrLoop, Group;
    assert |ns| > 0 by { GroupSome(ns); }
    FedSgr(t, ns + rest);
    FedSgr(t, ns);
    FedSgr(FedAll(t, Attributes(ns)), rest);
    GroupFirst(t.(params := ""), ns, rest);
  }

  lemma GroupSome(ns: seq<Option<nat>>)
    requires Group(ns)
    ensures |ns| > 0
  {}

  /** What t prints, with this colour of the text or of what is behind it; inverse
      exchanges the two. */
  function Tinted(t: Term, c: char, front: bool, colour: nat): Cell {
    if front != t.inverse then Inked(t, c).(fg := colour) else Inked(t, c).(bg := colour)
  }

  /** r prints as t with that colour, and is t but for it. */
  ghost predicate Tints(t: Term, r: Term, front: bool, colour: nat) {
    && r == (if front then t.(fg := r.fg, params := "") else t.(bg := r.bg, params := ""))
    && forall c :: Inked(r, c) == Tinted(t, c, front, colour)
  }

  lemma OneGroup(t: Term, ns: seq<Option<nat>>)
    requires Group(ns)
    ensures SgrLoop(t, ns) == SgrOne(t, Or(ns[0], 0), ns[1..]).0
  {
    hide Rgb;
    var left := SgrOne(t, Or(ns[0], 0), ns[1..]).1;
    assert Drop(ns[1..], |ns| - 1) == [];
    assert left == [];
  }

  lemma FedGroup(t: Term, ns: seq<Option<nat>>)
    requires Good(t) && t.mode == Ground && Group(ns)
    ensures |ns| > 0 && FedAll(t, Attributes(ns)) == SgrOne(t.(params := ""), Or(ns[0], 0), ns[1..]).0
  {
    hide FedAll, Attributes, SgrOne, SgrLoop, Group;
    GroupSome(ns);
    FedSgr(t, ns);
    OneGroup(t.(params := ""), ns);
  }

  lemma FedSgrOne(t: Term, p: nat)
    requires Good(t) && t.mode == Ground && p !in {38, 48}
    ensures FedAll(t, Attributes([Some(p)])) == SgrOne(t.(params := ""), p, []).0
  {
    hide FedAll, Attributes, SgrOne;
    FedGroup(t, [Some(p)]);
    assert [Some(p)][1..] == [];
  }

  /** 30 to 37 and 90 to 97 colour the text, 40 to 47 and 100 to 107 what is behind it; bold
      brightens the first eight in the text. */
  lemma SixteenColours(t: Term, k: nat)
    requires Good(t) && t.mode == Ground && k < 8
    ensures var r := FedAll(t, Attributes([Some(30 + k)])); r.fg == k && Tints(t, r, true, PALETTE[if t.bold then k + 8 else k])
    ensures var r := FedAll(t, Attributes([Some(90 + k)])); r.fg == k + 8 && Tints(t, r, true, PALETTE[k + 8])
    ensures var r := FedAll(t, Attributes([Some(40 + k)])); r.bg == k && Tints(t, r, false, PALETTE[k])
    ensures var r := FedAll(t, Attributes([Some(100 + k)])); r.bg == k + 8 && Tints(t, r, false, PALETTE[k + 8])
  {
    hide FedAll, Attributes, Good, Tints, SgrOne, Color256, PALETTE;
    FedSgrOne(t, 30 + k);
    FedSgrOne(t, 90 + k);
    FedSgrOne(t, 40 + k);
    FedSgrOne(t, 100 + k);
    Codes(t.(params := ""), k);
    CodeTints(t, true, k);
    CodeTints(t, true, k + 8);
    CodeTints(t, false, k);
    CodeTints(t, false, k + 8);
    Sixteen(k);
    Sixteen(k + 8);
  }

  lemma Codes(u: Term, k: nat)
    requires k < 8
    ensures SgrOne(u, 30 + k, []).0 == Coloured(u, true, k) && SgrOne(u, 90 + k, []).0 == Coloured(u, true, k + 8)
    ensures SgrOne(u, 40 + k, []).0 == Coloured(u, false, k) && SgrOne(u, 100 + k, []).0 == Coloured(u, false, k + 8)
  {}

  lemma CodeTints(t: Term, front: bool, n: nat)
    requires n < RGB_FLAG
    ensures Tints(t, Coloured(t.(params := ""), front, n), front, Color256(if front && t.bold && n < 8 then n + 8 else n))
  {
    hide Color256;
  }

  lemma Sixteen(n: nat)
    requires n < 16
    ensures |PALETTE| == 16 && Color256(n) == PALETTE[n]
  {}

  /** 1 and 22: bold is seen in the first eight colours of the text. */
  lemma BoldInk(t: Term)
    requires Good(t) && t.mode == Ground
    ensures var r := FedAll(t, Attributes([Some(1)]));
            && r == t.(bold := true, params := "")
            && forall c :: Inked(r, c) == if t.fg < 8 then Tinted(t, c, true, PALETTE[t.fg + 8]) else Inked(t, c)
    ensures var r := FedAll(t, Attributes([Some(22)]));
            && r == t.(bold := false, params := "")
            && forall c :: Inked(r, c) == if t.fg < 8 then Tinted(t, c, true, PALETTE[t.fg]) else Inked(t, c)
  {
    hide FedAll, Attributes, Good;
    FedSgrOne(t, 1);
    FedSgrOne(t, 22);
  }

  /** 7 and 27: the two colours change places, and back. */
  lemma InverseInk(t: Term, c: char)
    requires Good(t) && t.mode == Ground
    ensures var r, a := FedAll(t, Attributes([Some(7)])), Inked(t, c);
            r == t.(inverse := true, params := "") && Inked(r, c) == if t.inverse then a else Cell(c, a.bg, a.fg)
    ensures var r, a := FedAll(t, Attributes([Some(27)])), Inked(t, c);
            r == t.(inverse := false, params := "") && Inked(r, c) == if t.inverse then Cell(c, a.bg, a.fg) else a
  {
    hide FedAll, Attributes, Good, TermState.Resolve;
    FedSgrOne(t, 7);
    FedSgrOne(t, 27);
  }

  /** 39 and 49 bring one colour of the terminal back, 0 or no parameter all of the pen. */
  lemma DefaultInk(t: Term)
    requires Good(t) && t.mode == Ground
    ensures var r := FedAll(t, Attributes([Some(39)])); r.fg == t.defFg && Tints(t, r, true, TermState.Resolve(t.defFg, t.bold))
    ensures var r := FedAll(t, Attributes([Some(49)])); r.bg == t.defBg && Tints(t, r, false, TermState.Resolve(t.defBg, false))
    ensures var r := FedAll(t, Attributes([Some(0)]));
            && r == t.(fg := t.defFg, bg := t.defBg, bold := false, inverse := false, params := "")
            && forall c :: Inked(r, c) == Cell(c, TermState.Resolve(t.defFg, false), TermState.Resolve(t.defBg, false))
    ensures FedAll(t, Csi("", 'm')) == FedAll(t, Attributes([Some(0)]))
  {
    hide FedAll, Attributes, Good, TermState.Resolve;
    FedSgrOne(t, 39);
    FedSgrOne(t, 49);
    FedSgrOne(t, 0);
    Zero(t);
  }

  lemma Zero(t: Term)
    requires Good(t) && t.mode == Ground
    ensures FedAll(t, Csi("", 'm')) == FedAll(t, Attributes([Some(0)]))
  {
    hide FedAll, Args, Arguments, SgrOne;
    OneArgument(None);
    FedCsi(t, Arg(None), 'm');
    FedSgr(t, [Some(0)]);
    assert [Some(0)][1..] == [None][1..];
  }

  /** The six levels of the colour cube. */
  const LEVELS: seq<nat> := [0, 95, 135, 175, 215, 255]

  lemma ChosenColour(t: Term, front: bool, n: nat)
    requires Good(t) && t.mode == Ground
    ensures FedAll(t, Attributes([Some(if front then 38 else 48), Some(5), Some(n)])) == Coloured(t.(params := ""), front, n)
  {
    hide FedAll, Attributes, Good, Rgb, SgrLoop;
    var ns := [Some(if front then 38 else 48), Some(5), Some(n)];
    FedGroup(t, ns);
    assert ns[1..] == [Some(5), Some(n)];
  }

  /** 38;5;n and 48;5;n: the sixteen, the cube of six levels, and the greys. */
  lemma Colours256(t: Term, front: bool, n: nat)
    requires Good(t) && t.mode == Ground && n < 256
    ensures var r := FedAll(t, Attributes([Some(if front then 38 else 48), Some(5), Some(n)]));
            && (n < 16 ==> Tints(t, r, front, PALETTE[if front && t.bold && n < 8 then n + 8 else n]))
            && (232 <= n ==> Tints(t, r, front, (8 + 10 * (n - 232)) * 0x010101))
            && forall x, y, z :: 0 <= x < 6 && 0 <= y < 6 && 0 <= z < 6 && n == 16 + 36 * x + 6 * y + z ==>
                 Tints(t, r, front, LEVELS[x] * 0x10000 + LEVELS[y] * 0x100 + LEVELS[z])
  {
    hide FedAll, Attributes, Good, Rgb, Tints, Color256;
    ChosenColour(t, front, n);
    var r := Coloured(t.(params := ""), front, n);
    if n < 16 {
      Sixteen(if front && t.bold && n < 8 then n + 8 else n);
      CodeTints(t, front, n);
    } else {
      CodeTints(t, front, n);
      if 232 <= n { Grey(n); }
      forall x, y, z | 0 <= x < 6 && 0 <= y < 6 && 0 <= z < 6 && n == 16 + 36 * x + 6 * y + z
        ensures Tints(t, r, front, LEVELS[x] * 0x10000 + LEVELS[y] * 0x100 + LEVELS[z])
      {
        Cube(x, y, z);
      }
    }
  }

  lemma Grey(n: nat)
    requires 232 <= n < 256
    ensures Color256(n) == (8 + 10 * (n - 232)) * 0x010101
  {}

  lemma Cube(x: nat, y: nat, z: nat)
    requires x < 6 && y < 6 && z < 6
    ensures Color256(16 + 36 * x + 6 * y + z) == LEVELS[x] * 0x10000 + LEVELS[y] * 0x100 + LEVELS[z]
  {
    hide Level, LEVELS;
    LevelIs(x);
    LevelIs(y);
    LevelIs(z);
    var n := 36 * x + 6 * y + z;
    assert n / 36 == x && n / 6 == 6 * x + y && n / 6 % 6 == y && n % 6 == z;
  }

  lemma LevelIs(v: nat)
    requires v < 6
    ensures |LEVELS| == 6 && Level(v) == LEVELS[v] < 256
  {}

  /** 38;2;r;g;b and 48;2;r;g;b: that colour. */
  lemma TrueColour(t: Term, front: bool, r: nat, g: nat, b: nat)
    requires Good(t) && t.mode == Ground && r < 256 && g < 256 && b < 256
    ensures Tints(t, FedAll(t, Attributes([Some(if front then 38 else 48), Some(2), Some(r), Some(g), Some(b)])), front,
                  r * 0x10000 + g * 0x100 + b)
  {
    hide FedAll, Attributes, Good, Rgb, SgrLoop, Tints;
    var ns := [Some(if front then 38 else 48), Some(2), Some(r), Some(g), Some(b)];
    FedGroup(t, ns);
    assert ns[1..] == [Some(2), Some(r), Some(g), Some(b)];
    FlagTints(t, front, r, g, b);
  }

  lemma FlagTints(t: Term, front: bool, r: nat, g: nat, b: nat)
    requires r < 256 && g < 256 && b < 256
    ensures Tints(t, Coloured(t.(params := ""), front, RGB_FLAG + Rgb(r, g, b)), front, r * 0x10000 + g * 0x100 + b)
  {}
}
