/** The editor's buffer: a vector of lines that stands for one flat string
    (packages/beermacs/src/beermacs/buffer.beer:18-189). */
module EditBuffer {
  import opened Options
  import opened Text

  const NL := '\n'
  const TAB := '\t'

  datatype Place = Place(row: nat, col: nat)
  datatype Buffer = Buffer(lines: seq<string>, row: nat, col: nat, goal: Option<nat>, modified: bool)

  /** Lines hold neither newlines nor tabs, and point is on one of them. */
  ghost predicate Valid(b: Buffer) {
    Plain(b.lines) && On(b.lines, Point(b))
  }

  ghost predicate Plain(lines: seq<string>) {
    lines != [] && forall l :: l in lines ==> NL !in l && TAB !in l
  }

  predicate On(lines: seq<string>, p: Place) {
    p.row < |lines| && p.col <= |lines[p.row]|
  }

  function Point(b: Buffer): Place { Place(b.row, b.col) }

  function TextOf(b: Buffer): string { Join(b.lines, NL) }

  /** The place's position in the flat string. */
  function Offset(lines: seq<string>, p: Place): nat
    requires On(lines, p)
  {
    |Lead(lines[..p.row], NL)| + p.col
  }

  // ---- places and the flat string ----

  lemma Spliced(a: seq<string>, m: string, b: seq<string>)
    ensures Join(a + [m] + b, NL) == Lead(a, NL) + m + Trail(b, NL)
  {
    var ps := a + [m] + b;
    assert ps[..|a|] == a && ps[|a|] == m && ps[|a| + 1..] == b;
    JoinAt(ps, |a|, NL);
  }

  /** A place cuts the flat string at its offset. */
  lemma CutAt(lines: seq<string>, p: Place)
    requires On(lines, p)
    ensures var t := Join(lines, NL);
            var o := Offset(lines, p);
            && o <= |t| && t[..o] == Lead(lines[..p.row], NL) + lines[p.row][..p.col]
            && t[o..] == lines[p.row][p.col..] + Trail(lines[p.row + 1..], NL)
  {
    hide Lead, Trail, Join;
    JoinAt(lines, p.row, NL);
    var l := lines[p.row];
    assert l == l[..p.col] + l[p.col..];
  }

  lemma LeadStep(lines: seq<string>, r: nat)
    requires r < |lines|
    ensures Lead(lines[..r + 1], NL) == Lead(lines[..r], NL) + lines[r] + [NL]
  {
    hide Lead;
    assert lines[..r + 1] == lines[..r] + [lines[r]];
    LeadAppend(lines[..r], [lines[r]], NL);
    LeadOne(lines[r]);
  }

  lemma LeadOne(l: string)
    ensures Lead([l], NL) == l + [NL]
  {
    assert [l][1..] == [];
  }

  predicate Before(p: Place, q: Place) {
    p.row < q.row || (p.row == q.row && p.col < q.col)
  }

  /** Places are ordered as their offsets are. */
  lemma {:induction false} OffsetOrder(lines: seq<string>, p: Place, q: Place)
    requires On(lines, p) && On(lines, q)
    ensures Before(p, q) <==> Offset(lines, p) < Offset(lines, q)
  {
    hide Lead;
    if p.row < q.row { LeadFar(lines, p.row, q.row); }
    if q.row < p.row { LeadFar(lines, q.row, p.row); }
  }

  lemma {:induction false} LeadFar(lines: seq<string>, r: nat, s: nat)
    requires r < s <= |lines|
    ensures |Lead(lines[..s], NL)| >= |Lead(lines[..r], NL)| + |lines[r]| + 1
    decreases s
  {
    hide Lead;
    LeadStep(lines, s - 1);
    if r < s - 1 { LeadFar(lines, r, s - 1); }
  }

  // ---- tabs ----

  function Spaces(n: nat): string { seq(n, _ => ' ') }

  /** expand-tabs, from a column on. */
  function Expanded(s: string, col: nat): (r: string)
    ensures TAB !in r
    ensures NL !in s ==> NL !in r
  {
    if s == "" then ""
    else if s[0] == TAB then Spaces(8 - col % 8) + Expanded(s[1..], col + (8 - col % 8))
    else [s[0]] + Expanded(s[1..], col + 1)
  }

  lemma {:induction false} ExpandedSnoc(s: string, c: char, col: nat)
    ensures Expanded(s + [c], col)
         == Expanded(s, col) + if c == TAB then Spaces(8 - (col + |Expanded(s, col)|) % 8) else [c]
    decreases |s|
  {
    hide Expanded, Spaces;
    if s == "" {
      assert "" + [c] == [c];
      ExpandedOne(c, col);
    } else {
      assert (s + [c])[0] == s[0] && (s + [c])[1..] == s[1..] + [c];
      var k := if s[0] == TAB then 8 - col % 8 else 1;
      ExpandedSnoc(s[1..], c, col + k);
      ExpandedFirst(s, col);
      ExpandedFirst(s + [c], col);
      assert col + k + |Expanded(s[1..], col + k)| == col + |Expanded(s, col)|;
    }
  }

  lemma ExpandedFirst(s: string, col: nat)
    requires s != ""
    ensures var k := if s[0] == TAB then 8 - col % 8 else 1;
            var first := if s[0] == TAB then Spaces(k) else [s[0]];
            |first| == k && Expanded(s, col) == first + Expanded(s[1..], col + k)
  {}

  lemma ExpandedOne(c: char, col: nat)
    ensures Expanded([c], col) == if c == TAB then Spaces(8 - col % 8) else [c]
    ensures Expanded("", col) == ""
  {
    assert [c][1..] == "";
    assert Expanded("", col) == "";
  }

  function ExpandTabs(s: string): (r: string)
    ensures TAB !in r
    ensures NL !in s ==> NL !in r
  {
    if TAB in s then Expanded(s, 0) else s
  }

  lemma {:induction false} ExpandedSame(s: string, col: nat)
    requires TAB !in s
    ensures Expanded(s, col) == s
    decreases |s|
  {
    if s != "" {
      assert forall c :: c in s[1..] ==> c in s;
      ExpandedSame(s[1..], col + 1);
    }
  }

  lemma ExpandTabsIs(s: string)
    ensures ExpandTabs(s) == Expanded(s, 0)
  {
    if TAB !in s { ExpandedSame(s, 0); }
  }

  /** A tab becomes spaces up to the next multiple of eight, any other character stays. */
  lemma TabStops(s: string, c: char)
    ensures var a, b := ExpandTabs(s), ExpandTabs(s + [c]);
            if c == TAB then
              && a <= b && |a| < |b| <= |a| + 8 && |b| % 8 == 0
              && forall i :: |a| <= i < |b| ==> b[i] == ' '
            else b == a + [c]
  {
    hide Expanded, ExpandTabs;
    ExpandTabsIs(s);
    ExpandTabsIs(s + [c]);
    ExpandedSnoc(s, c, 0);
  }

  // ---- text between places ----

  function Ordered(p: Place, q: Place): (Place, Place) { if Before(q, p) then (q, p) else (p, q) }

  function TextBetween(b: Buffer, p: Place, q: Place): string
    requires On(b.lines, p) && On(b.lines, q)
  {
    var (x, y) := Ordered(p, q);
    if x.row == y.row then b.lines[x.row][x.col..y.col]
    else Join([b.lines[x.row][x.col..]] + b.lines[x.row + 1..y.row] + [b.lines[y.row][..y.col]], NL)
  }

  function DeleteBetween(b: Buffer, p: Place, q: Place): Buffer
    requires On(b.lines, p) && On(b.lines, q)
  {
    var (x, y) := Ordered(p, q);
    var joined := b.lines[x.row][..x.col] + b.lines[y.row][y.col..];
    b.(lines := b.lines[..x.row] + [joined] + b.lines[y.row + 1..], row := x.row, col := x.col, goal := None, modified := true)
  }

  /** text-between is the slice of the flat string. */
  lemma TextBetweenIsSlice(b: Buffer, p: Place, q: Place)
    requires On(b.lines, p) && On(b.lines, q)
    ensures var (x, y) := Ordered(p, q);
            var i, j := Offset(b.lines, x), Offset(b.lines, y);
            i <= j <= |TextOf(b)| && TextBetween(b, p, q) == TextOf(b)[i..j]
  {
    hide Join, Lead, Trail;
    var (x, y) := Ordered(p, q);
    OffsetOrder(b.lines, p, q);
    OffsetOrder(b.lines, q, p);
    CutAt(b.lines, x);
    CutAt(b.lines, y);
    var t, i, j := TextOf(b), Offset(b.lines, x), Offset(b.lines, y);
    assert t[i..j] == t[..j][i..];
    if x.row == y.row {
      assert b.lines[x.row][..y.col] == b.lines[x.row][..x.col] + b.lines[x.row][x.col..y.col];
    } else {
      SliceAcross(b.lines, x, y);
    }
  }

  /** Across lines, what is before the later place is what is before the earlier one
      and the joined slice. */
  lemma SliceAcross(lines: seq<string>, x: Place, y: Place)
    requires On(lines, x) && On(lines, y) && x.row < y.row
    ensures Lead(lines[..y.row], NL) + lines[y.row][..y.col] ==
            (Lead(lines[..x.row], NL) + lines[x.row][..x.col]) +
            Join([lines[x.row][x.col..]] + lines[x.row + 1..y.row] + [lines[y.row][..y.col]], NL)
  {
    hide Join, Lead, Trail;
    var first, mid, last := lines[x.row], lines[x.row + 1..y.row], lines[y.row][..y.col];
    assert lines[..y.row] == lines[..x.row + 1] + mid;
    LeadAppend(lines[..x.row + 1], mid, NL);
    LeadStep(lines, x.row);
    Spliced([first[x.col..]] + mid, last, []);
    assert [first[x.col..]] + mid + [last] + [] == [first[x.col..]] + mid + [last];
    LeadAppend([first[x.col..]], mid, NL);
    LeadOne(first[x.col..]);
    TrailNone();
    assert first == first[..x.col] + first[x.col..];
  }

  lemma TrailNone()
    ensures Trail([], NL) == ""
  {}

  /** delete-between removes the slice, and point is where it was. */
  lemma DeleteBetweenRemoves(b: Buffer, p: Place, q: Place)
    requires Valid(b) && On(b.lines, p) && On(b.lines, q)
    ensures var (x, y) := Ordered(p, q);
            var i, j := Offset(b.lines, x), Offset(b.lines, y);
            var r := DeleteBetween(b, p, q);
            && i <= j <= |TextOf(b)| && Valid(r)
            && TextOf(r) == TextOf(b)[..i] + TextOf(b)[j..]
            && Offset(r.lines, Point(r)) == i
  {
    hide Join, Lead, Trail, DeleteBetween, Offset;
    var (x, y) := Ordered(p, q);
    OffsetOrder(b.lines, p, q);
    OffsetOrder(b.lines, q, p);
    CutAt(b.lines, x);
    CutAt(b.lines, y);
    DeletedJoin(b, p, q);
    DeletedPlain(b, p, q);
  }

  lemma DeletedJoin(b: Buffer, p: Place, q: Place)
    requires On(b.lines, p) && On(b.lines, q)
    ensures var (x, y) := Ordered(p, q);
            var r := DeleteBetween(b, p, q);
            && TextOf(r) == (Lead(b.lines[..x.row], NL) + b.lines[x.row][..x.col])
                            + (b.lines[y.row][y.col..] + Trail(b.lines[y.row + 1..], NL))
            && On(r.lines, Point(r)) && Offset(r.lines, Point(r)) == Offset(b.lines, x)
  {
    hide Join, Lead, Trail;
    var (x, y) := Ordered(p, q);
    var r := DeleteBetween(b, p, q);
    var head, tail := b.lines[x.row][..x.col], b.lines[y.row][y.col..];
    Spliced(b.lines[..x.row], head + tail, b.lines[y.row + 1..]);
    assert r.lines[..x.row] == b.lines[..x.row] && r.lines[x.row] == head + tail;
  }

  lemma DeletedPlain(b: Buffer, p: Place, q: Place)
    requires Valid(b) && On(b.lines, p) && On(b.lines, q)
    ensures Valid(DeleteBetween(b, p, q))
  {
    var (x, y) := Ordered(p, q);
    var r := DeleteBetween(b, p, q);
    var head, tail := b.lines[x.row][..x.col], b.lines[y.row][y.col..];
    PlainParts(b.lines, x.row, x.col, y.row, y.col);
    assert r.lines[x.row] == head + tail;
    forall l | l in r.lines ensures NL !in l && TAB !in l {
      assert l in b.lines || l == head + tail;
    }
  }

  lemma PlainParts(lines: seq<string>, r: nat, c: nat, s: nat, d: nat)
    requires Plain(lines) && r < |lines| && c <= |lines[r]| && s < |lines| && d <= |lines[s]|
    ensures NL !in lines[r][..c] && TAB !in lines[r][..c] && NL !in lines[s][d..] && TAB !in lines[s][d..]
  {
    assert lines[r] in lines && lines[s] in lines;
    assert forall ch :: ch in lines[r][..c] ==> ch in lines[r];
    assert forall ch :: ch in lines[s][d..] ==> ch in lines[s];
  }

  // ---- insertion ----

  function Insert(b: Buffer, text: string): Buffer
    requires On(b.lines, Point(b))
  {
    var l, c, r := b.lines[b.row], b.col, b.row;
    var parts := Split(ExpandTabs(text), NL);
    var n := |parts|;
    var head, tail := l[..c], l[c..];
    var spliced := if n == 1 then [head + parts[0] + tail]
               else [head + parts[0]] + parts[1..n - 1] + [parts[n - 1] + tail];
    b.(lines := b.lines[..r] + spliced + b.lines[r + 1..], row := r + (n - 1),
       col := if n == 1 then c + |parts[0]| else |parts[n - 1]|, goal := None, modified := true)
  }

  lemma {:induction false} SameLength(ps: seq<string>)
    ensures |Lead(ps, NL)| == |Trail(ps, NL)|
  {
    if ps != [] { SameLength(ps[1..]); }
  }

  /** The inserted lines are the text between what stood before and after point. */
  lemma InsertedJoin(a: seq<string>, head: string, parts: seq<string>, tail: string, z: seq<string>)
    requires |parts| > 1
    ensures var n := |parts|;
            var spliced := [head + parts[0]] + parts[1..n - 1] + [parts[n - 1] + tail];
            && Join(a + spliced + z, NL) == (Lead(a, NL) + head) + Join(parts, NL) + (tail + Trail(z, NL))
            && |Lead(a + [head + parts[0]] + parts[1..n - 1], NL)| + |parts[n - 1]| == |Lead(a, NL)| + |head| + |Join(parts, NL)|
  {
    hide Join, Lead, Trail;
    var n := |parts|;
    var mid, last := parts[1..n - 1], parts[n - 1];
    var spliced := [head + parts[0]] + mid + [last + tail];
    assert a + spliced + z == a + [head + parts[0]] + (mid + ([last + tail] + z));
    Spliced(a, head + parts[0], mid + ([last + tail] + z));
    TrailAppend(mid, [last + tail] + z, NL);
    TrailAppend([last + tail], z, NL);
    TrailOne(last + tail, NL);
    assert parts == [] + [parts[0]] + (mid + [last]);
    Spliced([], parts[0], mid + [last]);
    LeadNone();
    TrailAppend(mid, [last], NL);
    TrailOne(last, NL);
    assert a + [head + parts[0]] + mid == a + ([head + parts[0]] + mid);
    LeadAppend(a, [head + parts[0]] + mid, NL);
    LeadAppend([head + parts[0]], mid, NL);
    LeadOne(head + parts[0]);
    SameLength(mid);
  }

  lemma LeadNone()
    ensures Lead([], NL) == ""
  {}

  lemma JoinOne(p: string)
    ensures Join([p], NL) == p
  {}

  /** insert splices the text in at point, and point is after it. */
  lemma InsertSplices(b: Buffer, text: string)
    requires Valid(b)
    ensures var o := Offset(b.lines, Point(b));
            var r := Insert(b, text);
            && o <= |TextOf(b)| && Valid(r)
            && TextOf(r) == TextOf(b)[..o] + ExpandTabs(text) + TextOf(b)[o..]
            && Offset(r.lines, Point(r)) == o + |ExpandTabs(text)|
  {
    hide Join, Lead, Trail, ExpandTabs, Split, Insert;
    CutAt(b.lines, Point(b));
    JoinSplit(ExpandTabs(text), NL);
    InsertPlain(b, text);
    if |Split(ExpandTabs(text), NL)| == 1 { InsertedOne(b, text); } else { InsertedMany(b, text); }
  }

  lemma InsertedOne(b: Buffer, text: string)
    requires On(b.lines, Point(b)) && |Split(ExpandTabs(text), NL)| == 1
    ensures var l, s, r := b.lines[b.row], ExpandTabs(text), Insert(b, text);
            && TextOf(r) == (Lead(b.lines[..b.row], NL) + l[..b.col]) + s + (l[b.col..] + Trail(b.lines[b.row + 1..], NL))
            && On(r.lines, Point(r)) && Offset(r.lines, Point(r)) == Offset(b.lines, Point(b)) + |s|
  {
    hide Join, Lead, Trail, ExpandTabs, Split;
    var s, parts := ExpandTabs(text), Split(ExpandTabs(text), NL);
    var l, a, z := b.lines[b.row], b.lines[..b.row], b.lines[b.row + 1..];
    JoinSplit(s, NL);
    assert parts == [parts[0]];
    JoinOne(parts[0]);
    Spliced(a, l[..b.col] + s + l[b.col..], z);
    assert Insert(b, text).lines[..b.row] == a;
  }

  lemma InsertedMany(b: Buffer, text: string)
    requires On(b.lines, Point(b)) && |Split(ExpandTabs(text), NL)| > 1
    ensures var l, s, r := b.lines[b.row], ExpandTabs(text), Insert(b, text);
            && TextOf(r) == (Lead(b.lines[..b.row], NL) + l[..b.col]) + s + (l[b.col..] + Trail(b.lines[b.row + 1..], NL))
            && On(r.lines, Point(r)) && Offset(r.lines, Point(r)) == Offset(b.lines, Point(b)) + |s|
  {
    hide Join, Lead, Trail, ExpandTabs, Split;
    var parts := Split(ExpandTabs(text), NL);
    var n, l, a, z := |parts|, b.lines[b.row], b.lines[..b.row], b.lines[b.row + 1..];
    var head, tail, res := l[..b.col], l[b.col..], Insert(b, text);
    JoinSplit(ExpandTabs(text), NL);
    InsertedJoin(a, head, parts, tail, z);
    var spliced := [head + parts[0]] + parts[1..n - 1] + [parts[n - 1] + tail];
    assert res.lines == a + spliced + z;
    assert res.lines[..b.row + (n - 1)] == a + [head + parts[0]] + parts[1..n - 1];
    assert res.lines[b.row + (n - 1)] == parts[n - 1] + tail;
  }

  lemma InsertPlain(b: Buffer, text: string)
    requires Valid(b)
    ensures Valid(Insert(b, text))
  {
    hide Join, Lead, Trail, ExpandTabs, Split;
    var parts := Split(ExpandTabs(text), NL);
    var n := |parts|;
    var res := Insert(b, text);
    PartsPlain(ExpandTabs(text));
    PlainParts(b.lines, b.row, b.col, b.row, b.col);
    var head, tail := b.lines[b.row][..b.col], b.lines[b.row][b.col..];
    assert parts[0] in parts && parts[n - 1] in parts;
    forall l | l in res.lines ensures NL !in l && TAB !in l {
      assert l in b.lines || l in parts || l == head + parts[0] + tail || l == head + parts[0] || l == parts[n - 1] + tail;
    }
    if n > 1 { assert res.lines[b.row + (n - 1)] == parts[n - 1] + tail; }
  }

  /** Splitting tab-free text gives plain parts. */
  lemma {:induction false} PartsPlain(s: string)
    requires TAB !in s
    ensures forall p :: p in Split(s, NL) ==> NL !in p && TAB !in p
    decreases |s|
  {
    if s != "" {
      assert forall c :: c in s[1..] ==> c in s;
      PartsPlain(s[1..]);
      assert Split(s[1..], NL)[0] in Split(s[1..], NL);
    }
  }

  /** new-buffer, as its lines. */
  function NewBuffer(text: string): Buffer {
    var parts := Split(text, NL);
    Buffer(seq(|parts|, i requires 0 <= i < |parts| => ExpandTabs(parts[i])), 0, 0, None, false)
  }

  /** A fresh buffer is valid, and tab-free text is kept as it is. */
  lemma NewBufferHolds(text: string)
    ensures Valid(NewBuffer(text))
    ensures TAB !in text ==> TextOf(NewBuffer(text)) == text
  {
    hide ExpandTabs, Join;
    var parts := Split(text, NL);
    var b := NewBuffer(text);
    forall l | l in b.lines ensures NL !in l && TAB !in l {
      var i :| 0 <= i < |parts| && l == ExpandTabs(parts[i]);
      assert parts[i] in parts;
    }
    if TAB !in text {
      PartsPlain(text);
      forall i | 0 <= i < |parts| ensures ExpandTabs(parts[i]) == parts[i] {
        assert parts[i] in parts;
        NoTabs(parts[i]);
      }
      assert b.lines == parts;
      JoinSplit(text, NL);
    }
  }

  lemma NoTabs(s: string)
    requires TAB !in s
    ensures ExpandTabs(s) == s
  {}

  /** Valid buffers with the same text have the same lines. */
  lemma SameLines(a: Buffer, b: Buffer)
    requires Valid(a) && Valid(b) && TextOf(a) == TextOf(b)
    ensures a.lines == b.lines
  {
    SplitJoin(a.lines, NL);
    SplitJoin(b.lines, NL);
  }

  // ---- motion ----

  function LastRow(b: Buffer): int { |b.lines| - 1 }

  function ForwardChar(b: Buffer): Buffer
    requires On(b.lines, Point(b))
  {
    if b.col < |b.lines[b.row]| then b.(col := b.col + 1, goal := None)
    else if b.row < LastRow(b) then b.(row := b.row + 1, col := 0, goal := None)
    else b
  }

  function BackwardChar(b: Buffer): Buffer
    requires On(b.lines, Point(b))
  {
    if b.col > 0 then b.(col := b.col - 1, goal := None)
    else if b.row > 0 then b.(row := b.row - 1, col := |b.lines[b.row - 1]|, goal := None)
    else b
  }

  /** Point as an offset. */
  function PointOffset(b: Buffer): nat
    requires On(b.lines, Point(b))
  {
    Offset(b.lines, Point(b))
  }

  predicate AtEnd(b: Buffer)
    requires On(b.lines, Point(b))
  {
    b.row == LastRow(b) && b.col == |b.lines[b.row]|
  }

  predicate AtStart(b: Buffer) { b.row == 0 && b.col == 0 }

  /** The ends of the buffer are the ends of the flat string. */
  lemma Ends(b: Buffer)
    requires On(b.lines, Point(b))
    ensures PointOffset(b) <= |TextOf(b)|
    ensures AtEnd(b) <==> PointOffset(b) == |TextOf(b)|
    ensures AtStart(b) <==> PointOffset(b) == 0
  {
    hide Join;
    CutAt(b.lines, Point(b));
    if b.row < LastRow(b) { TrailSome(b.lines[b.row + 1..]); }
    if b.row > 0 { LeadSome(b.lines[..b.row]); }
  }

  lemma TrailSome(ps: seq<string>)
    requires ps != []
    ensures |Trail(ps, NL)| > 0
  {}

  lemma LeadSome(ps: seq<string>)
    requires ps != []
    ensures |Lead(ps, NL)| > 0
  {}

  /** forward-char moves point one character, or stays at the end. */
  lemma ForwardCharMoves(b: Buffer)
    requires Valid(b)
    ensures var r := ForwardChar(b);
            && Valid(r) && r.lines == b.lines
            && PointOffset(r) == if PointOffset(b) == |TextOf(b)| then PointOffset(b) else PointOffset(b) + 1
  {
    hide Join, Lead;
    Ends(b);
    LeadStep(b.lines, b.row);
  }

  lemma BackwardCharMoves(b: Buffer)
    requires Valid(b)
    ensures var r := BackwardChar(b);
            && Valid(r) && r.lines == b.lines
            && PointOffset(r) == if PointOffset(b) == 0 then 0 else PointOffset(b) - 1
  {
    hide Join, Lead;
    Ends(b);
    if b.col == 0 && b.row > 0 { LeadStep(b.lines, b.row - 1); }
  }

  function Vertical(b: Buffer, dr: int): Buffer
    requires On(b.lines, Point(b))
  {
    var goal := if b.goal.Some? then b.goal.value else b.col;
    var low := if b.row + dr < LastRow(b) then b.row + dr else LastRow(b);
    var r := if low > 0 then low else 0;
    b.(row := r, col := if goal < |b.lines[r]| then goal else |b.lines[r]|, goal := Some(goal))
  }

  /** Down and up again comes back to where it was, through a shorter line too. */
  lemma VerticalReturns(b: Buffer)
    requires Valid(b) && b.row < LastRow(b) && b.goal == None
    ensures Valid(Vertical(b, 1)) && Point(Vertical(Vertical(b, 1), -1)) == Point(b)
  {}

  /** The line so many rows on, the first or the last at most; there the column that is kept,
      or the line's end if it is shorter. */
  lemma VerticalMoves(b: Buffer, dr: int)
    requires Valid(b)
    ensures var r := Vertical(b, dr);
            var goal := if b.goal.Some? then b.goal.value else b.col;
            && Valid(r) && r.lines == b.lines && r.modified == b.modified && r.goal == Some(goal)
            && (0 <= b.row + dr <= LastRow(b) ==> r.row == b.row + dr)
            && (b.row + dr < 0 ==> r.row == 0) && (b.row + dr > LastRow(b) ==> r.row == LastRow(b))
            && r.col <= goal && forall c :: r.col < c <= goal ==> !On(b.lines, Place(r.row, c))
  {}

  // ---- words ----

  predicate WordChar(ch: char) { ch !in " \t\n()[]{}\"',`;@^~" }

  /** char-at: a newline past the end of a line. */
  function CharAt(b: Buffer): char
    requires On(b.lines, Point(b))
  {
    if b.col < |b.lines[b.row]| then b.lines[b.row][b.col] else NL
  }

  lemma CharAtIs(b: Buffer)
    requires Valid(b) && PointOffset(b) < |TextOf(b)|
    ensures CharAt(b) == TextOf(b)[PointOffset(b)]
  {
    hide Join, Lead;
    CutAt(b.lines, Point(b));
    Ends(b);
    var t, o := TextOf(b), PointOffset(b);
    assert t[o] == t[o..][0];
    if b.col == |b.lines[b.row]| { TrailHead(b.lines[b.row + 1..]); }
  }

  lemma TrailHead(ps: seq<string>)
    requires ps != []
    ensures |Trail(ps, NL)| > 0 && Trail(ps, NL)[0] == NL
  {}

  /** One of the two loops of forward-word: on until the character is, or is not, a word's. */
  function SkipForward(b: Buffer, word: bool): Buffer
    requires Valid(b)
    decreases |TextOf(b)| - PointOffset(b)
  {
    Ends(b);
    ForwardCharMoves(b);
    if AtEnd(b) || WordChar(CharAt(b)) == word then b else SkipForward(ForwardChar(b), word)
  }

  function SkipBackward(b: Buffer, word: bool): Buffer
    requires Valid(b)
    decreases PointOffset(b)
  {
    Ends(b);
    BackwardCharMoves(b);
    if AtStart(b) || WordChar(CharAt(BackwardChar(b))) == word then b else SkipBackward(BackwardChar(b), word)
  }

  /** k is the first position from o on whose character is (not) a word's, or the end. */
  ghost predicate FirstFrom(t: string, o: nat, word: bool, k: nat) {
    && o <= k <= |t| && (k == |t| || WordChar(t[k]) == word)
    && forall j :: o <= j < k ==> WordChar(t[j]) != word
  }

  /** k is the last position up to o after whose left neighbour that holds, or the start. */
  ghost predicate LastTo(t: string, o: nat, word: bool, k: nat) {
    && 0 <= k <= o <= |t| && (k == 0 || WordChar(t[k - 1]) == word)
    && forall j :: k <= j < o ==> WordChar(t[j]) != word
  }

  lemma {:induction false} SkipForwardIs(b: Buffer, word: bool)
    requires Valid(b)
    ensures var r := SkipForward(b, word);
            Valid(r) && r.lines == b.lines && FirstFrom(TextOf(b), PointOffset(b), word, PointOffset(r))
    decreases |TextOf(b)| - PointOffset(b)
  {
    hide WordChar, Join, Offset;
    Ends(b);
    ForwardCharMoves(b);
    if !AtEnd(b) {
      CharAtIs(b);
      if WordChar(CharAt(b)) != word { SkipForwardIs(ForwardChar(b), word); }
    }
  }

  lemma {:induction false} SkipBackwardIs(b: Buffer, word: bool)
    requires Valid(b)
    ensures var r := SkipBackward(b, word);
            Valid(r) && r.lines == b.lines && LastTo(TextOf(b), PointOffset(b), word, PointOffset(r))
    decreases PointOffset(b)
  {
    hide WordChar, Join, Offset;
    Ends(b);
    BackwardCharMoves(b);
    if !AtStart(b) {
      CharAtIs(BackwardChar(b));
      if WordChar(CharAt(BackwardChar(b))) != word { SkipBackwardIs(BackwardChar(b), word); }
    }
  }

  function ForwardWord(b: Buffer): Buffer
    requires Valid(b)
  {
    SkipForwardIs(b, true);
    SkipForward(SkipForward(b, true), false)
  }

  function BackwardWord(b: Buffer): Buffer
    requires Valid(b)
  {
    SkipBackwardIs(b, true);
    SkipBackward(SkipBackward(b, true), false)
  }

  /** forward-word: past the next word of the flat string. */
  lemma ForwardWordIs(b: Buffer) returns (m: nat)
    requires Valid(b)
    ensures var r := ForwardWord(b);
            && Valid(r) && r.lines == b.lines
            && FirstFrom(TextOf(b), PointOffset(b), true, m) && FirstFrom(TextOf(b), m, false, PointOffset(r))
  {
    hide SkipForward, FirstFrom, Offset, Join;
    SkipForwardIs(b, true);
    m := PointOffset(SkipForward(b, true));
    SkipForwardIs(SkipForward(b, true), false);
  }

  lemma BackwardWordIs(b: Buffer) returns (m: nat)
    requires Valid(b)
    ensures var r := BackwardWord(b);
            && Valid(r) && r.lines == b.lines
            && LastTo(TextOf(b), PointOffset(b), true, m) && LastTo(TextOf(b), m, false, PointOffset(r))
  {
    hide SkipBackward, LastTo, Offset, Join;
    SkipBackwardIs(b, true);
    m := PointOffset(SkipBackward(b, true));
    SkipBackwardIs(SkipBackward(b, true), false);
  }

  // ---- deleting and killing ----

  function DeleteChar(b: Buffer): Buffer
    requires Valid(b)
  {
    ForwardCharMoves(b);
    if AtEnd(b) then b else DeleteBetween(b, Point(b), Point(ForwardChar(b)))
  }

  function DeleteBackwardChar(b: Buffer): Buffer
    requires Valid(b)
  {
    BackwardCharMoves(b);
    if AtStart(b) then b else DeleteBetween(b, Point(BackwardChar(b)), Point(b))
  }

  lemma DeleteCharRemoves(b: Buffer)
    requires Valid(b) && PointOffset(b) < |TextOf(b)|
    ensures var t, o, r := TextOf(b), PointOffset(b), DeleteChar(b);
            Valid(r) && TextOf(r) == t[..o] + t[o + 1..] && PointOffset(r) == o
  {
    hide Join, Offset, DeleteBetween;
    Ends(b);
    ForwardCharMoves(b);
    var q := Point(ForwardChar(b));
    OffsetOrder(b.lines, q, Point(b));
    DeleteBetweenRemoves(b, Point(b), q);
  }

  lemma DeleteBackwardCharRemoves(b: Buffer)
    requires Valid(b) && PointOffset(b) > 0
    ensures var t, o, r := TextOf(b), PointOffset(b), DeleteBackwardChar(b);
            o <= |t| && Valid(r) && TextOf(r) == t[..o - 1] + t[o..] && PointOffset(r) == o - 1
  {
    hide Join, Offset, DeleteBetween;
    Ends(b);
    BackwardCharMoves(b);
    var q := Point(BackwardChar(b));
    OffsetOrder(b.lines, Point(b), q);
    DeleteBetweenRemoves(b, q, Point(b));
  }

  /** Where kill-line-text stops. */
  function KillEnd(b: Buffer): Place
    requires On(b.lines, Point(b))
  {
    if b.col == |b.lines[b.row]| then Point(ForwardChar(b)) else Place(b.row, |b.lines[b.row]|)
  }

  function KillLineText(b: Buffer): (string, Buffer)
    requires Valid(b)
  {
    ForwardCharMoves(b);
    (TextBetween(b, Point(b), KillEnd(b)), DeleteBetween(b, Point(b), KillEnd(b)))
  }

  /** C-k takes the slice from point to where it stops ... */
  lemma KilledText(b: Buffer)
    requires Valid(b)
    ensures var (killed, r) := KillLineText(b);
            var t, o := TextOf(b), PointOffset(b);
            && o + |killed| <= |t| && killed == t[o..o + |killed|]
            && Valid(r) && PointOffset(r) == o && TextOf(r) == t[..o] + t[o + |killed|..]
  {
    hide Join, Lead, DeleteBetween, TextBetween, Offset;
    ForwardCharMoves(b);
    var p, q := Point(b), KillEnd(b);
    OffsetOrder(b.lines, q, p);
    TextBetweenIsSlice(b, p, q);
    DeleteBetweenRemoves(b, p, q);
  }

  /** ... which is the rest of the line, or the newline at its end, or nothing at the
      end of the buffer. */
  lemma KilledIs(b: Buffer)
    requires Valid(b)
    ensures KillLineText(b).0 ==
            if b.col < |b.lines[b.row]| then b.lines[b.row][b.col..] else if AtEnd(b) then "" else [NL]
  {
    if b.col == |b.lines[b.row]| && b.row < LastRow(b) {
      var l := b.lines[b.row];
      assert b.lines[b.row + 1..b.row + 1] == [];
      assert l[b.col..] == "" && b.lines[b.row + 1][..0] == "";
      assert [l[b.col..]] + [] + [b.lines[b.row + 1][..0]] == ["", ""];
      JoinTwo();
    }
  }

  lemma JoinTwo()
    ensures Join(["", ""], NL) == [NL]
  {
    assert ["", ""][1..] == [""];
  }

  /** Inserting what was killed where it was killed restores the buffer's lines. */
  lemma KillThenInsert(b: Buffer)
    requires Valid(b)
    ensures var (killed, r) := KillLineText(b);
            Valid(r) && Insert(r, killed).lines == b.lines && PointOffset(Insert(r, killed)) == PointOffset(b) + |killed|
  {
    hide Join, Offset, Insert, DeleteBetween, TextBetween, ExpandTabs;
    var (killed, r) := KillLineText(b);
    KilledText(b);
    KilledNoTabs(b);
    InsertSplices(r, killed);
    NoTabs(killed);
    var t, o := TextOf(b), PointOffset(b);
    assert t == t[..o] + t[o..o + |killed|] + t[o + |killed|..];
    assert TextOf(r)[..o] == t[..o] && TextOf(r)[o..] == t[o + |killed|..];
    SameLines(Insert(r, killed), b);
  }

  lemma KilledNoTabs(b: Buffer)
    requires Valid(b)
    ensures TAB !in KillLineText(b).0
  {
    hide KillLineText;
    KilledIs(b);
    var l := b.lines[b.row];
    assert l in b.lines;
    assert forall c :: c in l[b.col..] ==> c in l;
  }

  // ---- search ----

  function Lower(c: char): char { if 'A' <= c <= 'Z' then (c as int + 32) as char else c }

  /** lower-case, for ASCII letters. */
  function LowerCase(s: string): (r: string)
    ensures |r| == |s| && forall i :: 0 <= i < |s| ==> r[i] == Lower(s[i])
  {
    seq(|s|, i requires 0 <= i < |s| => Lower(s[i]))
  }

  predicate Fold(pat: string) { pat == LowerCase(pat) }

  function Prepared(l: string, fold: bool): string { if fold then LowerCase(l) else l }

  predicate MatchAt(l: string, pat: string, i: nat) {
    i + |pat| <= |l| && l[i..i + |pat|] == pat
  }

  /** find-in-line */
  function FindInLine(l: string, pat: string, from: nat): (r: Option<nat>)
    ensures r.Some? ==> from <= r.value && MatchAt(l, pat, r.value) && forall i :: from <= i < r.value ==> !MatchAt(l, pat, i)
    ensures r.None? ==> forall i :: from <= i ==> !MatchAt(l, pat, i)
    decreases |l| + 1 - from
  {
    if from + |pat| > |l| then None
    else if l[from..from + |pat|] == pat then Some(from)
    else FindInLine(l, pat, from + 1)
  }

  function SearchRows(lines: seq<string>, pat: string, fold: bool, r: nat, c: nat): (res: Option<Place>)
    decreases |lines| - r
  {
    if r >= |lines| then None
    else
      var i := FindInLine(Prepared(lines[r], fold), pat, c);
      if i.Some? then Some(Place(r, i.value)) else SearchRows(lines, pat, fold, r + 1, 0)
  }

  function SearchForward(b: Buffer, pat: string, p: Place): Option<Place> {
    SearchRows(b.lines, pat, Fold(pat), p.row, p.col)
  }

  predicate Capital(c: char) { 'A' <= c <= 'Z' }

  predicate HasCapital(s: string) { exists i :: 0 <= i < |s| && Capital(s[i]) }

  /** The same, or a capital for a small letter. */
  predicate SameLetter(c: char, d: char) { c == d || (Capital(c) && d as int == c as int + 32) }

  /** A pattern with a capital is matched exactly, any other without regard to case. */
  lemma MatchesCase(t: string, pat: string, o: nat)
    ensures MatchAt(Prepared(t, Fold(pat)), pat, o)
       <==> o + |pat| <= |t| && if HasCapital(pat) then t[o..o + |pat|] == pat
                                else forall i :: 0 <= i < |pat| ==> SameLetter(t[o + i], pat[i])
  {
    hide HasCapital, MatchAt;
    FoldIs(pat);
    if Fold(pat) {
      MatchElements(LowerCase(t), pat, o);
      if o + |pat| <= |t| {
        forall i | 0 <= i < |pat| ensures Lower(t[o + i]) == pat[i] <==> SameLetter(t[o + i], pat[i]) {
          assert LowerCase(pat)[i] == pat[i];
        }
      }
    } else {
      ExactMatch(t, pat, o);
    }
  }

  lemma ExactMatch(t: string, pat: string, o: nat)
    ensures MatchAt(t, pat, o) <==> o + |pat| <= |t| && t[o..o + |pat|] == pat
  {}

  lemma MatchElements(t: string, pat: string, o: nat)
    ensures MatchAt(t, pat, o) <==> o + |pat| <= |t| && forall i :: 0 <= i < |pat| ==> t[o + i] == pat[i]
  {
    if o + |pat| <= |t| {
      var u := t[o..o + |pat|];
      assert forall i :: 0 <= i < |pat| ==> u[i] == t[o + i];
    }
  }

  lemma FoldIs(pat: string)
    ensures Fold(pat) <==> !HasCapital(pat)
  {
    var low := LowerCase(pat);
    assert forall i :: 0 <= i < |pat| ==> (Capital(pat[i]) <==> low[i] != pat[i]);
    if !HasCapital(pat) { assert low == pat; }
  }

  /** The pattern is found at a place of the flat string. */
  ghost predicate FlatMatch(b: Buffer, pat: string, o: nat) {
    MatchAt(Prepared(TextOf(b), Fold(pat)), pat, o)
  }

  /** A match of a pattern without newlines is within one line. */
  lemma MatchInLine(lines: seq<string>, pat: string, fold: bool, p: Place)
    requires On(lines, p) && NL !in pat
    ensures MatchAt(Prepared(Join(lines, NL), fold), pat, Offset(lines, p)) <==> MatchAt(Prepared(lines[p.row], fold), pat, p.col)
  {
    hide Join, Lead, Trail, Offset;
    var t, o, l := Join(lines, NL), Offset(lines, p), lines[p.row];
    var rest := Trail(lines[p.row + 1..], NL);
    CutAt(lines, p);
    assert t[o..] == l[p.col..] + rest;
    TailMatch(t, o, pat, fold);
    TailMatch(l, p.col, pat, fold);
    if p.row + 1 < |lines| { TrailHead(lines[p.row + 1..]); } else { TrailNone(); }
    TailLine(l[p.col..], rest, pat, fold);
  }

  /** A match at o is a match at the start of what follows. */
  lemma TailMatch(t: string, o: nat, pat: string, fold: bool)
    requires o <= |t|
    ensures MatchAt(Prepared(t, fold), pat, o) <==> MatchAt(Prepared(t[o..], fold), pat, 0)
  {
    var u, v := Prepared(t, fold), Prepared(t[o..], fold);
    assert v == u[o..];
    if o + |pat| <= |t| { assert u[o..o + |pat|] == v[0..|pat|]; }
  }

  /** A pattern without newlines that starts in `l` does not reach the newline after it. */
  lemma TailLine(l: string, rest: string, pat: string, fold: bool)
    requires NL !in pat && (rest == "" || rest[0] == NL)
    ensures MatchAt(Prepared(l + rest, fold), pat, 0) <==> MatchAt(Prepared(l, fold), pat, 0)
  {
    var u, v := Prepared(l + rest, fold), Prepared(l, fold);
    assert u[..|l|] == v;
    if |pat| <= |l| {
      assert u[0..|pat|] == v[0..|pat|];
    } else {
      assert pat[|l|] in pat;
      assert |pat| <= |u| ==> u[0..|pat|][|l|] == u[|l|];
    }
  }

  /** search-forward returns the first match at or after the start, and none only if
      there is none. */
  lemma {:induction false} SearchRowsFirst(lines: seq<string>, pat: string, fold: bool, r: nat, c: nat)
    ensures var res := SearchRows(lines, pat, fold, r, c);
            && (res.Some? ==> res.value.row < |lines| && !Before(res.value, Place(r, c))
                              && MatchAt(Prepared(lines[res.value.row], fold), pat, res.value.col))
            && forall q: Place :: q.row < |lines| && !Before(q, Place(r, c)) && (res.Some? ==> Before(q, res.value)) ==>
                 !MatchAt(Prepared(lines[q.row], fold), pat, q.col)
    decreases |lines| - r
  {
    hide MatchAt, Prepared;
    if r < |lines| && FindInLine(Prepared(lines[r], fold), pat, c).None? {
      SearchRowsFirst(lines, pat, fold, r + 1, 0);
    }
  }

  /** Every position of the flat string is a place. */
  lemma {:induction false} PlaceOf(lines: seq<string>, o: nat) returns (p: Place)
    requires lines != [] && o <= |Join(lines, NL)|
    ensures On(lines, p) && Offset(lines, p) == o
    decreases |lines|
  {
    hide Join, Lead;
    var n := |lines| - 1;
    JoinAt(lines, n, NL);
    TrailNone();
    assert lines[n + 1..] == [];
    var lead := Lead(lines[..n], NL);
    if o >= |lead| {
      p := Place(n, o - |lead|);
    } else {
      LeadPositive(lines[..n]);
      LeadStep(lines, n - 1);
      JoinAt(lines[..n], n - 1, NL);
      assert lines[..n][..n - 1] == lines[..n - 1] && lines[..n][n..] == [];
      p := PlaceOf(lines[..n], o);
      assert lines[..n][..p.row] == lines[..p.row];
    }
  }

  lemma LeadPositive(ps: seq<string>)
    requires |Lead(ps, NL)| > 0
    ensures ps != []
  {}

  /** In the flat string: the least match at or after the start, for a pattern that
      holds no newline. */
  lemma SearchForwardLeast(b: Buffer, pat: string, p: Place)
    requires Valid(b) && On(b.lines, p) && NL !in pat
    ensures var res := SearchForward(b, pat, p);
            && (res.Some? ==> On(b.lines, res.value) && FlatMatch(b, pat, Offset(b.lines, res.value))
                              && Offset(b.lines, p) <= Offset(b.lines, res.value))
            && forall o: nat :: Offset(b.lines, p) <= o && (res.Some? ==> o < Offset(b.lines, res.value)) ==> !FlatMatch(b, pat, o)
  {
    hide Join, Offset, SearchRows, Lead, FlatMatch;
    var res, fold := SearchForward(b, pat, p), Fold(pat);
    SearchRowsFirst(b.lines, pat, fold, p.row, p.col);
    if res.Some? {
      FlatMatchIs(b, pat, res.value);
      OffsetOrder(b.lines, res.value, p);
    }
    forall o: nat | Offset(b.lines, p) <= o && (res.Some? ==> o < Offset(b.lines, res.value))
      ensures !FlatMatch(b, pat, o)
    {
      if o <= |TextOf(b)| {
        var q := PlaceOf(b.lines, o);
        OffsetOrder(b.lines, q, p);
        if res.Some? { OffsetOrder(b.lines, q, res.value); }
        FlatMatchIs(b, pat, q);
      } else {
        NoMatchPast(b, pat, o);
      }
    }
  }

  lemma FlatMatchIs(b: Buffer, pat: string, q: Place)
    requires On(b.lines, q) && NL !in pat
    ensures FlatMatch(b, pat, Offset(b.lines, q)) <==> MatchAt(Prepared(b.lines[q.row], Fold(pat)), pat, q.col)
  {
    hide Offset, MatchAt, Prepared;
    MatchInLine(b.lines, pat, Fold(pat), q);
  }

  lemma NoMatchPast(b: Buffer, pat: string, o: nat)
    requires o > |TextOf(b)|
    ensures !FlatMatch(b, pat, o)
  {
    hide Join;
  }

  /** A pattern that holds a newline is never found, even where the flat string has it. */
  lemma SearchMissesNewlines(b: Buffer, pat: string, p: Place)
    requires Valid(b) && NL in pat
    ensures SearchForward(b, pat, p) == None
  {
    hide MatchAt, Prepared, SearchRows;
    SearchRowsFirst(b.lines, pat, Fold(pat), p.row, p.col);
    forall l, i: nat | l in b.lines ensures !MatchAt(Prepared(l, Fold(pat)), pat, i) {
      NoNewlineMatch(l, pat, Fold(pat), i);
    }
  }

  lemma NoNewlineMatch(l: string, pat: string, fold: bool, i: nat)
    requires NL !in l && NL in pat
    ensures !MatchAt(Prepared(l, fold), pat, i)
  {
    var k :| 0 <= k < |pat| && pat[k] == NL;
    var u := Prepared(l, fold);
    if i + |pat| <= |u| {
      assert l[i + k] in l;
      assert u[i..i + |pat|][k] == u[i + k] != NL;
    }
  }

  lemma SearchMissExample()
    ensures var b := Buffer(["a", "b"], 0, 0, None, false);
            Valid(b) && FlatMatch(b, ['a', NL, 'b'], 0) && SearchForward(b, ['a', NL, 'b'], Place(0, 0)) == None
  {
    var b := Buffer(["a", "b"], 0, 0, None, false);
    var pat := ['a', NL, 'b'];
    assert Valid(b);
    assert TextOf(b) == pat by { JoinAt(b.lines, 0, NL); assert b.lines[1..] == ["b"]; TrailOne("b", NL); LeadNone(); }
    SearchMissesNewlines(b, pat, Place(0, 0));
  }
}
