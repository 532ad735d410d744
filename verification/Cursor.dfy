/** The software mouse cursor: the arrow painted over a screen, with the pixels
    under it kept aside (kernel/gfx.c:44-113). */
module Cursor {
  import opened Pictures

  // 11 columns, 16 rows: '#' black, '.' white, ' ' nothing.
  const ART: seq<string> := [
    "#          ",
    "##         ",
    "#.#        ",
    "#..#       ",
    "#...#      ",
    "#....#     ",
    "#.....#    ",
    "#......#   ",
    "#.......#  ",
    "#........# ",
    "#.....#####",
    "#..#..#    ",
    "#.# #..#   ",
    "##  #..#   ",
    "#    #..#  ",
    "      ##   "
  ]

  lemma ArtRows()
    ensures |ART| == 16 && forall r :: 0 <= r < 16 ==> |ART[r]| == 11
  {}

  /** The arrow's colour at row r, column c; -1 where it has none. */
  function Ink(r: nat, c: nat): int
    requires r < 16 && c < 11
  {
    ArtRows();
    if ART[r][c] == '#' then 0 else if ART[r][c] == '.' then 0xFFFFFF else -1
  }

  /** Whether a pixel lies in the box of the arrow whose tip is at (x, y). */
  predicate Boxed(px: int, py: int, x: int, y: int) {
    Inside(px, py, x, y, 11, 16)
  }

  ghost function OverPixel(s: Image, x: int, y: int, px: nat, py: nat): nat
    requires Well(s) && px < s.w && py < s.h
  {
    if Boxed(px, py, x, y) && Ink(py - y, px - x) >= 0 then Ink(py - y, px - x) else s.px[py][px]
  }

  /** fb is the screen s with the arrow painted at (x, y). */
  ghost predicate Over(fb: Image, s: Image, x: int, y: int) {
    && Alike(fb, s)
    && forall px, py :: 0 <= px < s.w && 0 <= py < s.h ==> fb.px[py][px] == OverPixel(s, x, y, px, py)
  }

  /** fb is s outside the arrow's box. */
  ghost predicate Around(fb: Image, s: Image, x: int, y: int) {
    && Alike(fb, s)
    && forall px, py :: 0 <= px < s.w && 0 <= py < s.h && !Boxed(px, py, x, y) ==> fb.px[py][px] == s.px[py][px]
  }

  /** `saved` holds what s has under the arrow. */
  ghost predicate Under(s: Image, x: int, y: int, saved: seq<nat>) {
    && Well(s) && |saved| == 176
    && forall px, py :: 0 <= px < s.w && 0 <= py < s.h && Boxed(px, py, x, y) ==>
         saved[(py - y) * 11 + (px - x)] == s.px[py][px]
  }

  /** The cursor is transparent: taking the arrow away leaves the screen s. */
  ghost predicate OnTop(fb: Image, s: Image, x: int, y: int, shown: bool, saved: seq<nat>) {
    |saved| == 176 && if shown then Over(fb, s, x, y) && Under(s, x, y, saved) else Well(s) && fb == s
  }

  lemma SameImage(a: Image, b: Image)
    requires Alike(a, b)
    requires forall x, y :: 0 <= x < a.w && 0 <= y < a.h ==> a.px[y][x] == b.px[y][x]
    ensures a == b
  {
    forall y | 0 <= y < a.h ensures a.px[y] == b.px[y] {
      assert forall x :: 0 <= x < a.w ==> a.px[y][x] == b.px[y][x];
    }
  }

  lemma OverAround(fb: Image, s: Image, x: int, y: int)
    requires Over(fb, s, x, y)
    ensures Around(fb, s, x, y)
  {}

  // ---- drawing and restoring, pixel by pixel ----

  /** The box's pixels before row r, column c. */
  predicate Swept(px: int, py: int, x: int, y: int, r: int, c: int) {
    x <= px < x + 11 && (y <= py < y + r || (py == y + r && px < x + c))
  }

  ghost predicate DrawnUpTo(s: Image, out: Image, x: int, y: int, saved: seq<nat>, r: int, c: int)
    requires 0 <= r <= 16
  {
    && Alike(s, out) && |saved| == 176
    && (forall px, py :: 0 <= px < s.w && 0 <= py < s.h && !Swept(px, py, x, y, r, c) ==> out.px[py][px] == s.px[py][px])
    && (forall px, py :: 0 <= px < s.w && 0 <= py < s.h && Swept(px, py, x, y, r, c) && Boxed(px, py, x, y) ==>
          && out.px[py][px] == OverPixel(s, x, y, px, py)
          && saved[(py - y) * 11 + (px - x)] == s.px[py][px])
  }

  function Dotted(img: Image, x: nat, y: nat, v: nat): (r: Image)
    requires Well(img) && x < img.w && y < img.h
    ensures Alike(img, r)
    ensures forall px, py :: 0 <= px < img.w && 0 <= py < img.h ==>
              r.px[py][px] == if px == x && py == y then v else img.px[py][px]
  {
    var line: seq<nat> := img.px[y];
    var dotted: seq<nat> := line[x := v];
    img.(px := img.px[y := dotted])
  }

  method Draw(s: Image, x: int, y: int, was: seq<nat>) returns (out: Image, saved: seq<nat>)
    requires Well(s) && |was| == 176
    ensures Over(out, s, x, y) && Under(s, x, y, saved)
  {
    hide Ink;
    out, saved := s, was;
    var r := 0;
    while r < 16
      invariant 0 <= r <= 16 && DrawnUpTo(s, out, x, y, saved, r, 0)
    {
      var c := 0;
      while c < 11
        invariant 0 <= c <= 11 && DrawnUpTo(s, out, x, y, saved, r, c)
      {
        var px, py := x + c, y + r;
        if 0 <= px && 0 <= py && px < s.w && py < s.h {
          saved := saved[r * 11 + c := out.px[py][px]];
          if Ink(r, c) >= 0 {
            var ink: nat := Ink(r, c);
            out := Dotted(out, px, py, ink);
          }
        }
        c := c + 1;
      }
      r := r + 1;
    }
  }

  method Restore(fb: Image, x: int, y: int, saved: seq<nat>, ghost s: Image) returns (out: Image)
    requires Around(fb, s, x, y) && Under(s, x, y, saved)
    ensures out == s
  {
    out := fb;
    var r := 0;
    while r < 16
      invariant 0 <= r <= 16 && Alike(s, out)
      invariant forall px, py :: 0 <= px < s.w && 0 <= py < s.h && (Swept(px, py, x, y, r, 0) || !Boxed(px, py, x, y)) ==>
                  out.px[py][px] == s.px[py][px]
    {
      var c := 0;
      while c < 11
        invariant 0 <= c <= 11 && Alike(s, out)
        invariant forall px, py :: 0 <= px < s.w && 0 <= py < s.h && (Swept(px, py, x, y, r, c) || !Boxed(px, py, x, y)) ==>
                    out.px[py][px] == s.px[py][px]
      {
        var px, py := x + c, y + r;
        if 0 <= px && 0 <= py && px < out.w && py < out.h {
          assert Boxed(px, py, x, y);
          out := Dotted(out, px, py, saved[r * 11 + c]);
        }
        c := c + 1;
      }
      r := r + 1;
    }
    SameImage(out, s);
  }

  // ---- drawing beside the arrow ----

  /** cursor_hide_for's test: nothing of the rectangle is in the arrow's box. */
  predicate Apart(r: Rect, x: int, y: int) {
    r.x >= x + 11 || r.y >= y + 16 || r.x + r.w <= x || r.y + r.h <= y
  }

  /** The screen after `out` was drawn with the arrow left standing over s. */
  ghost function Merged(out: Image, s: Image, x: int, y: int): (m: Image)
    requires Alike(out, s)
    ensures Alike(m, s)
  {
    Image(s.w, s.h, seq(s.h, py requires 0 <= py < s.h =>
      seq(s.w, px requires 0 <= px < s.w => if Boxed(px, py, x, y) then s.px[py][px] else out.px[py][px])))
  }

  /** The logical screen once `out` is in the framebuffer. */
  ghost function After(out: Image, s: Image, x: int, y: int, standing: bool): (m: Image)
    requires Alike(out, s)
    ensures Alike(m, s)
  {
    if standing then Merged(out, s, x, y) else out
  }

  /** What a drawing loop may start from: the screen itself, or the screen under a
      standing arrow that the loop stays clear of. */
  ghost predicate Start(fb: Image, s: Image, x: int, y: int, standing: bool, r: Rect) {
    && Around(fb, s, x, y)
    && (if standing then Apart(r, x, y) else fb == s)
  }

  /** The arrow's box is as it was. */
  ghost predicate Spared(fb: Image, out: Image, x: int, y: int) {
    && Alike(fb, out)
    && forall px, py :: 0 <= px < fb.w && 0 <= py < fb.h && Boxed(px, py, x, y) ==> out.px[py][px] == fb.px[py][px]
  }

  lemma StillOver(fb: Image, out: Image, s: Image, x: int, y: int, saved: seq<nat>)
    requires Over(fb, s, x, y) && Under(s, x, y, saved) && Spared(fb, out, x, y)
    ensures OnTop(out, Merged(out, s, x, y), x, y, true, saved)
  {
    hide Ink;
  }

  // ---- each rule, drawn beside the arrow, is the rule on the logical screen ----

  lemma FilledBeside(fb: Image, out: Image, s: Image, x: int, y: int, standing: bool, r: Rect, color: nat)
    requires Start(fb, s, x, y, standing, r) && Filled(fb, out, r, color)
    ensures Filled(s, After(out, s, x, y, standing), r, color)
    ensures standing ==> Spared(fb, out, x, y)
  {}

  lemma OwnedFilledBeside(fb: Image, out: Image, s: Image, x: int, y: int, standing: bool, own: Image, id: int, r: Rect,
                          color: nat)
    requires Start(fb, s, x, y, standing, r) && OwnedFilled(fb, out, own, id, r, color)
    ensures OwnedFilled(s, After(out, s, x, y, standing), own, id, r, color)
    ensures standing ==> Spared(fb, out, x, y)
  {}

  lemma PresentedBeside(fb: Image, out: Image, s: Image, x: int, y: int, standing: bool, own: Image, surf: Image, id: int,
                        r: Rect, dx: int, dy: int)
    requires Start(fb, s, x, y, standing, Rect(dx, dy, r.w, r.h)) && Presented(fb, out, own, surf, id, r, dx, dy)
    ensures Presented(s, After(out, s, x, y, standing), own, surf, id, r, dx, dy)
    ensures standing ==> Spared(fb, out, x, y)
  {}

  lemma CopiedBeside(fb: Image, out: Image, s: Image, x: int, y: int, standing: bool, sx: nat, sy: nat, w: nat, h: nat,
                     dx: nat, dy: nat)
    requires Start(fb, s, x, y, standing, Rect(sx, sy, w, h)) && Start(fb, s, x, y, standing, Rect(dx, dy, w, h))
    requires Copied(fb, out, sx, sy, w, h, dx, dy)
    ensures Copied(s, After(out, s, x, y, standing), sx, sy, w, h, dx, dy)
    ensures standing ==> Spared(fb, out, x, y)
  {
    var m := After(out, s, x, y, standing);
    forall px, py | 0 <= px < s.w && 0 <= py < s.h
      ensures m.px[py][px] == CopiedPixel(s, sx, sy, dx, dy, Inside(px, py, dx, dy, w, h), px, py)
    {
      if Inside(px, py, dx, dy, w, h) {
        var u, v := sx + (px - dx), sy + (py - dy);
        assert Inside(u, v, sx, sy, w, h);
        assert fb.px[v][u] == s.px[v][u];
      }
    }
  }

  lemma KeyedBeside(fb: Image, out: Image, s: Image, x: int, y: int, standing: bool, at: Rect, ax: int, ay: int, block: Image,
                    key: int)
    requires Start(fb, s, x, y, standing, at) && Keyed(fb, out, ax, ay, block, key)
    requires Clip(Rect(ax, ay, block.w, block.h), fb.w, fb.h) == (true, at)
    ensures Keyed(s, After(out, s, x, y, standing), ax, ay, block, key)
    ensures standing ==> Spared(fb, out, x, y)
  {
    hide Clip;
    var m := After(out, s, x, y, standing);
    forall px, py | 0 <= px < s.w && 0 <= py < s.h
      ensures m.px[py][px] == KeyedPixel(s, ax, ay, block, block.h, key, px, py)
      ensures standing && Boxed(px, py, x, y) ==> out.px[py][px] == fb.px[py][px]
    {
      ClipIs(Rect(ax, ay, block.w, block.h), fb.w, fb.h, px, py);
    }
  }

  /** Every value of the rows lies in the rectangle that is hidden for. */
  lemma ScaledBeside(fb: Image, out: Image, s: Image, x: int, y: int, standing: bool, ax: int, ay: int,
                     rows: seq<seq<int>>, scale: nat, w: nat, q: nat)
    requires scale > 0 && Start(fb, s, x, y, standing, Rect(ax, ay, w * scale, q))
    requires forall i :: 0 <= i < |rows| ==> |rows[i]| == w
    requires Scaled(fb, out, ax, ay, rows, scale, q)
    ensures Scaled(s, After(out, s, x, y, standing), ax, ay, rows, scale, q)
    ensures standing ==> Spared(fb, out, x, y)
  {
    var m := After(out, s, x, y, standing);
    var reach := w * scale;
    forall px, py | 0 <= px < s.w && 0 <= py < s.h
      ensures m.px[py][px] == RowPixel(s, ax, ay, rows, scale, q, px, py)
      ensures standing && Boxed(px, py, x, y) ==> out.px[py][px] == fb.px[py][px]
    {
      RowReach(fb, ax, ay, rows, scale, q, px, py, w, reach);
      RowReach(s, ax, ay, rows, scale, q, px, py, w, reach);
      if !standing || !Boxed(px, py, x, y) { RowBase(fb, s, ax, ay, rows, scale, q, px, py); }
    }
  }

  lemma RowReach(a: Image, x: int, y: int, rows: seq<seq<int>>, scale: nat, q: nat, px: nat, py: nat, w: nat, reach: nat)
    requires Well(a) && scale > 0 && px < a.w && py < a.h && reach == w * scale
    requires forall i :: 0 <= i < |rows| ==> |rows[i]| == w
    ensures !Inside(px, py, x, y, reach, q) ==> RowPixel(a, x, y, rows, scale, q, px, py) == a.px[py][px]
  {}

  lemma RowBase(a: Image, b: Image, x: int, y: int, rows: seq<seq<int>>, scale: nat, q: nat, px: nat, py: nat)
    requires Alike(a, b) && scale > 0 && px < a.w && py < a.h && a.px[py][px] == b.px[py][px]
    ensures RowPixel(a, x, y, rows, scale, q, px, py) == RowPixel(b, x, y, rows, scale, q, px, py)
  {}
}
