/** Pixel rectangles: clipping, and the loops of kernel/gfx.c that draw into one
    surface, each against the rule it follows pixel by pixel
    (kernel/gfx.c:144-204, 243-332).  A surface's rows are its pixel rows. */
module Pictures {

  datatype Image = Image(w: nat, h: nat, px: seq<seq<nat>>)

  ghost predicate Well(img: Image) {
    |img.px| == img.h && forall y :: 0 <= y < img.h ==> |img.px[y]| == img.w
  }

  ghost predicate Alike(a: Image, b: Image) {
    Well(a) && Well(b) && a.w == b.w && a.h == b.h
  }

  predicate Inside(px: int, py: int, x: int, y: int, w: int, h: int) {
    x <= px < x + w && y <= py < y + h
  }

  // ---- clip ----

  datatype Rect = Rect(x: int, y: int, w: int, h: int)

  /** What is left of a rectangle in a wMax x hMax area; ok unless nothing is. */
  function Clip(r: Rect, wMax: nat, hMax: nat): (res: (bool, Rect)) {
    var r1 := if r.x < 0 then r.(w := r.w + r.x, x := 0) else r;
    var r2 := if r1.y < 0 then r1.(h := r1.h + r1.y, y := 0) else r1;
    var r3 := if r2.x + r2.w > wMax then r2.(w := wMax - r2.x) else r2;
    var r4 := if r3.y + r3.h > hMax then r3.(h := hMax - r3.y) else r3;
    (r4.w > 0 && r4.h > 0, r4)
  }

  /** Clipping keeps exactly the pixels of the area. */
  lemma ClipIs(r: Rect, wMax: nat, hMax: nat, px: int, py: int)
    requires 0 <= px < wMax && 0 <= py < hMax
    ensures var (ok, c) := Clip(r, wMax, hMax);
            Inside(px, py, r.x, r.y, r.w, r.h) <==> ok && Inside(px, py, c.x, c.y, c.w, c.h)
  {}

  lemma ClipFits(r: Rect, wMax: nat, hMax: nat)
    ensures var (ok, c) := Clip(r, wMax, hMax);
            ok ==> 0 <= c.x && 0 <= c.y && 0 < c.w && 0 < c.h && c.x + c.w <= wMax && c.y + c.h <= hMax
                   && r.x <= c.x && r.y <= c.y && c.x + c.w <= r.x + r.w && c.y + c.h <= r.y + r.h
  {}

  // ---- fill ----

  ghost predicate Filled(a: Image, b: Image, r: Rect, color: nat) {
    && Alike(a, b)
    && forall x, y :: 0 <= x < a.w && 0 <= y < a.h ==>
         b.px[y][x] == if Inside(x, y, r.x, r.y, r.w, r.h) then color else a.px[y][x]
  }

  ghost predicate FitsIn(r: Rect, w: nat, h: nat) {
    0 <= r.x && 0 <= r.y && 0 <= r.w && 0 <= r.h && r.x + r.w <= w && r.y + r.h <= h
  }

  method FillRows(img: Image, r: Rect, color: nat) returns (out: Image)
    requires Well(img) && FitsIn(r, img.w, img.h)
    ensures Filled(img, out, r, color)
  {
    out := img;
    var row := r.y;
    while row < r.y + r.h
      invariant r.y <= row <= r.y + r.h
      invariant Filled(img, out, r.(h := row - r.y), color)
    {
      var line := out.px[row];
      var col := 0;
      while col < r.w
        invariant 0 <= col <= r.w && |line| == img.w
        invariant forall x :: 0 <= x < img.w ==> line[x] == if r.x <= x < r.x + col then color else img.px[row][x]
      {
        line := line[r.x + col := color];
        col := col + 1;
      }
      out := out.(px := out.px[row := line]);
      row := row + 1;
    }
  }

  /** Filling what clipping leaves is filling the rectangle. */
  lemma FilledClipped(a: Image, b: Image, r: Rect, color: nat)
    requires Well(a)
    requires var (ok, c) := Clip(r, a.w, a.h); if ok then Filled(a, b, c, color) else b == a
    ensures Filled(a, b, r, color)
  {
    hide Clip;
    forall x, y | 0 <= x < a.w && 0 <= y < a.h
      ensures b.px[y][x] == if Inside(x, y, r.x, r.y, r.w, r.h) then color else a.px[y][x]
    {
      ClipIs(r, a.w, a.h, x, y);
    }
  }

  // ---- fill and present where the owner map says so ----

  /** One row: the pixels from x0 on whose owner is id take their values. */
  method OwnedRow(line: seq<nat>, own: seq<nat>, id: int, x0: nat, values: seq<nat>) returns (out: seq<nat>)
    requires |own| == |line| && x0 + |values| <= |line|
    ensures |out| == |line|
    ensures forall x :: 0 <= x < |line| ==>
              out[x] == if x0 <= x < x0 + |values| && own[x] == id then values[x - x0] else line[x]
  {
    out := line;
    var c := 0;
    while c < |values|
      invariant 0 <= c <= |values| && |out| == |line|
      invariant forall x :: 0 <= x < |line| ==> out[x] == if x0 <= x < x0 + c && own[x] == id then values[x - x0] else line[x]
    {
      if own[x0 + c] == id { out := out[x0 + c := values[c]]; }
      c := c + 1;
    }
  }

  ghost predicate OwnedFilled(a: Image, b: Image, own: Image, id: int, r: Rect, color: nat) {
    && Alike(a, b) && Alike(a, own)
    && forall x, y :: 0 <= x < a.w && 0 <= y < a.h ==>
         b.px[y][x] == if Inside(x, y, r.x, r.y, r.w, r.h) && own.px[y][x] == id then color else a.px[y][x]
  }

  method FillOwnedRows(img: Image, own: Image, id: int, r: Rect, color: nat) returns (out: Image)
    requires Alike(img, own) && FitsIn(r, img.w, img.h)
    ensures OwnedFilled(img, out, own, id, r, color)
  {
    out := img;
    var row := r.y;
    while row < r.y + r.h
      invariant r.y <= row <= r.y + r.h
      invariant OwnedFilled(img, out, own, id, r.(h := row - r.y), color)
    {
      var line := OwnedRow(out.px[row], own.px[row], id, r.x, seq(r.w, _ => color));
      out := out.(px := out.px[row := line]);
      row := row + 1;
    }
  }

  lemma OwnedFilledClipped(a: Image, b: Image, own: Image, id: int, r: Rect, color: nat)
    requires Alike(a, own)
    requires var (ok, c) := Clip(r, a.w, a.h); if ok then OwnedFilled(a, b, own, id, c, color) else b == a
    ensures OwnedFilled(a, b, own, id, r, color)
  {
    hide Clip;
    forall x, y | 0 <= x < a.w && 0 <= y < a.h
      ensures b.px[y][x] == if Inside(x, y, r.x, r.y, r.w, r.h) && own.px[y][x] == id then color else a.px[y][x]
    {
      ClipIs(r, a.w, a.h, x, y);
    }
  }

  /** The naive rule of gfx_present: a screen pixel of the destination rectangle
      that id owns takes the surface pixel it corresponds to, if there is one. */
  ghost predicate Presented(a: Image, b: Image, own: Image, surf: Image, id: int, s: Rect, dx: int, dy: int) {
    && Alike(a, b) && Alike(a, own) && Well(surf)
    && forall x, y :: 0 <= x < a.w && 0 <= y < a.h ==>
         b.px[y][x] == PresentedPixel(a, own, surf, id, s, dx, dy, x, y)
  }

  ghost function PresentedPixel(a: Image, own: Image, surf: Image, id: int, s: Rect, dx: int, dy: int, x: nat, y: nat): nat
    requires Alike(a, own) && Well(surf) && x < a.w && y < a.h
  {
    var u, v := s.x + (x - dx), s.y + (y - dy);
    if Inside(x, y, dx, dy, s.w, s.h) && 0 <= u < surf.w && 0 <= v < surf.h && own.px[y][x] == id then surf.px[v][u]
    else a.px[y][x]
  }

  /** The rows of gfx_present, after both clips. */
  method PresentRows(img: Image, own: Image, surf: Image, id: int, s: Rect, dx: int, dy: int) returns (out: Image)
    requires Alike(img, own) && Well(surf) && FitsIn(s, surf.w, surf.h) && FitsIn(Rect(dx, dy, s.w, s.h), img.w, img.h)
    ensures Presented(img, out, own, surf, id, s, dx, dy)
  {
    out := img;
    var r := 0;
    while r < s.h
      invariant 0 <= r <= s.h && Presented(img, out, own, surf, id, s.(h := r), dx, dy)
    {
      var line := OwnedRow(out.px[dy + r], own.px[dy + r], id, dx, surf.px[s.y + r][s.x..s.x + s.w]);
      out := out.(px := out.px[dy + r := line]);
      r := r + 1;
    }
  }

  /** Clipping to the surface and then to the screen, moving the other side along
      each time, is the naive rule. */
  lemma DoubleClip(a: Image, b: Image, own: Image, surf: Image, id: int, s: Rect, dx: int, dy: int)
    requires Alike(a, own) && Well(surf)
    requires var (ok1, s1) := Clip(s, surf.w, surf.h);
             var (ok2, d2) := Clip(Rect(dx + (s1.x - s.x), dy + (s1.y - s.y), s1.w, s1.h), a.w, a.h);
             if ok1 && ok2 then
               Presented(a, b, own, surf, id,
                         Rect(s1.x + (d2.x - (dx + (s1.x - s.x))), s1.y + (d2.y - (dy + (s1.y - s.y))), d2.w, d2.h), d2.x, d2.y)
             else b == a
    ensures Presented(a, b, own, surf, id, s, dx, dy)
  {
    var (ok1, s1) := Clip(s, surf.w, surf.h);
    var d1 := Rect(dx + (s1.x - s.x), dy + (s1.y - s.y), s1.w, s1.h);
    var (ok2, d2) := Clip(d1, a.w, a.h);
    forall x, y | 0 <= x < a.w && 0 <= y < a.h
      ensures b.px[y][x] == PresentedPixel(a, own, surf, id, s, dx, dy, x, y)
    {
      DoubleClipPixel(a, b, own, surf, id, s, dx, dy, x, y);
    }
  }

  lemma DoubleClipPixel(a: Image, b: Image, own: Image, surf: Image, id: int, s: Rect, dx: int, dy: int, x: nat, y: nat)
    requires Alike(a, own) && Well(surf) && x < a.w && y < a.h
    requires var (ok1, s1) := Clip(s, surf.w, surf.h);
             var (ok2, d2) := Clip(Rect(dx + (s1.x - s.x), dy + (s1.y - s.y), s1.w, s1.h), a.w, a.h);
             if ok1 && ok2 then
               Presented(a, b, own, surf, id,
                         Rect(s1.x + (d2.x - (dx + (s1.x - s.x))), s1.y + (d2.y - (dy + (s1.y - s.y))), d2.w, d2.h), d2.x, d2.y)
             else b == a
    ensures Alike(a, b) && b.px[y][x] == PresentedPixel(a, own, surf, id, s, dx, dy, x, y)
  {
    hide Clip;
    var (ok1, s1) := Clip(s, surf.w, surf.h);
    var d1 := Rect(dx + (s1.x - s.x), dy + (s1.y - s.y), s1.w, s1.h);
    var (ok2, d2) := Clip(d1, a.w, a.h);
    var u, v := s.x + (x - dx), s.y + (y - dy);
    ClipFits(s, surf.w, surf.h);
    ClipFits(d1, a.w, a.h);
    ClipIs(d1, a.w, a.h, x, y);
    if 0 <= u < surf.w && 0 <= v < surf.h {
      ClipIs(s, surf.w, surf.h, u, v);
      assert Inside(u, v, s.x, s.y, s.w, s.h) <==> Inside(x, y, dx, dy, s.w, s.h);
      assert Inside(u, v, s1.x, s1.y, s1.w, s1.h) <==> Inside(x, y, d1.x, d1.y, d1.w, d1.h);
    }
  }

  // ---- copying inside one surface ----

  /** A simultaneous copy of the rectangle at (sx, sy) to (dx, dy). */
  ghost predicate Copied(a: Image, b: Image, sx: nat, sy: nat, w: nat, h: nat, dx: nat, dy: nat) {
    && Alike(a, b) && sx + w <= a.w && sy + h <= a.h && dx + w <= a.w && dy + h <= a.h
    && forall x, y :: 0 <= x < a.w && 0 <= y < a.h ==>
         b.px[y][x] == CopiedPixel(a, sx, sy, dx, dy, Inside(x, y, dx, dy, w, h), x, y)
  }

  /** Pixel (x, y) of the copy if `moved`, else of the original. */
  ghost function CopiedPixel(a: Image, sx: nat, sy: nat, dx: nat, dy: nat, moved: bool, x: nat, y: nat): nat
    requires Well(a) && x < a.w && y < a.h
    requires moved ==> 0 <= sy + (y - dy) < a.h && 0 <= sx + (x - dx) < a.w
  {
    if moved then a.px[sy + (y - dy)][sx + (x - dx)] else a.px[y][x]
  }

  /** memmove of w pixels from one row's sx to another's dx. */
  function MovedRow(dst: seq<nat>, src: seq<nat>, sx: nat, dx: nat, w: nat): (r: seq<nat>)
    requires sx + w <= |src| && dx + w <= |dst|
    ensures |r| == |dst|
    ensures forall x :: 0 <= x < |dst| ==> r[x] == if dx <= x < dx + w then src[sx + (x - dx)] else dst[x]
  {
    dst[..dx] + src[sx..sx + w] + dst[dx + w..]
  }

  /** Which destination rows have been copied after i of h. */
  predicate RowDone(down: bool, y: int, dy: nat, h: nat, i: nat) {
    if down then dy + h - i <= y < dy + h else dy <= y < dy + i
  }

  /** Row by row in place: downwards when the destination is below, so no row is
      overwritten before it is copied. */
  method CopyRows(img: Image, sx: nat, sy: nat, w: nat, h: nat, dx: nat, dy: nat) returns (out: Image)
    requires Well(img) && sx + w <= img.w && sy + h <= img.h && dx + w <= img.w && dy + h <= img.h
    ensures Copied(img, out, sx, sy, w, h, dx, dy)
  {
    out := img;
    var i := 0;
    while i < h
      invariant 0 <= i <= h && Alike(img, out)
      invariant forall x, y :: 0 <= x < img.w && 0 <= y < img.h ==>
        out.px[y][x] == CopiedPixel(img, sx, sy, dx, dy, dx <= x < dx + w && RowDone(dy > sy, y, dy, h, i), x, y)
    {
      var r := if dy > sy then h - 1 - i else i;
      var line := MovedRow(out.px[dy + r], out.px[sy + r], sx, dx, w);
      out := out.(px := out.px[dy + r := line]);
      i := i + 1;
    }
  }

  // ---- scaled blits ----

  lemma ScaleIndex(k: nat, scale: nat, c: nat)
    requires scale > 0 && c * scale <= k < c * scale + scale
    ensures k / scale == c
  {
    var q, r := k / scale, k % scale;
    assert k == q * scale + r;
    if q < c { MulStep(q, c, scale); }
    if c < q { MulStep(c, q, scale); }
  }

  lemma MulStep(a: nat, b: nat, d: nat)
    requires a < b
    ensures a * d + d <= b * d
  {
    assert b * d == a * d + (b - a) * d;
    assert (b - a) * d >= 1 * d by { MulMore(1, b - a, d); }
  }

  lemma MulMore(a: nat, b: nat, d: nat)
    requires a <= b
    ensures a * d <= b * d
  {}

  lemma ScaleBound(k: nat, scale: nat, n: nat)
    requires scale > 0 && k < n * scale
    ensures k / scale < n
  {
    if k / scale >= n { MulMore(n, k / scale, scale); }
  }

  /** Pixel x of a row on which the first p of the scaled pixels have been drawn
      from x0 on; a negative value is transparent. */
  ghost function ScaledPixel(line: seq<nat>, x0: int, values: seq<int>, scale: nat, p: int, x: nat): nat
    requires x < |line| && scale > 0
  {
    var k := x - x0;
    if 0 <= k < p && k / scale < |values| && values[k / scale] >= 0 then values[k / scale] else line[x]
  }

  method ScaledRow(line: seq<nat>, x0: int, values: seq<int>, scale: nat) returns (out: seq<nat>)
    requires scale > 0
    ensures |out| == |line|
    ensures forall x :: 0 <= x < |line| ==> out[x] == ScaledPixel(line, x0, values, scale, |values| * scale, x)
  {
    out := line;
    var c := 0;
    while c < |values|
      invariant 0 <= c <= |values| && |out| == |line|
      invariant forall x :: 0 <= x < |line| ==> out[x] == ScaledPixel(line, x0, values, scale, c * scale, x)
    {
      var m := 0;
      MulMore(0, c, scale);
      while m < scale
        invariant 0 <= m <= scale && |out| == |line|
        invariant forall x :: 0 <= x < |line| ==> out[x] == ScaledPixel(line, x0, values, scale, c * scale + m, x)
      {
        var x := x0 + c * scale + m;
        ghost var before := out;
        if values[c] >= 0 && 0 <= x < |line| { out := out[x := values[c]]; }
        if 0 <= x < |line| { ScaleIndex(c * scale + m, scale, c); }
        ScaledMore(line, before, out, x0, values, scale, c, m);
        m := m + 1;
      }
      assert (c + 1) * scale == c * scale + scale;
      c := c + 1;
    }
  }

  lemma ScaledMore(line: seq<nat>, before: seq<nat>, out: seq<nat>, x0: int, values: seq<int>, scale: nat, c: nat, m: nat)
    requires c < |values| && m < scale && |out| == |before| == |line| && 0 <= c * scale
    requires forall x :: 0 <= x < |line| ==> before[x] == ScaledPixel(line, x0, values, scale, c * scale + m, x)
    requires var x := x0 + c * scale + m;
             out == if values[c] >= 0 && 0 <= x < |line| then before[x := values[c]] else before
    requires 0 <= x0 + c * scale + m < |line| ==> (c * scale + m) / scale == c
    ensures forall x :: 0 <= x < |line| ==> out[x] == ScaledPixel(line, x0, values, scale, c * scale + (m + 1), x)
  {
    var k := c * scale + m;
    forall x | 0 <= x < |line| ensures out[x] == ScaledPixel(line, x0, values, scale, k + 1, x) {
      if x - x0 == k { assert x == x0 + c * scale + m; }
    }
  }

  /** The rule of both scaled blits: `rows` drawn at (x, y), each value a
      scale x scale square, negative values transparent. */
  ghost predicate Scaled(a: Image, b: Image, x: int, y: int, rows: seq<seq<int>>, scale: nat, q: int)
    requires scale > 0
  {
    && Alike(a, b)
    && forall px, py :: 0 <= px < a.w && 0 <= py < a.h ==> b.px[py][px] == RowPixel(a, x, y, rows, scale, q, px, py)
  }

  /** After the first q pixel rows were drawn. */
  ghost function RowPixel(a: Image, x: int, y: int, rows: seq<seq<int>>, scale: nat, q: int, px: nat, py: nat): nat
    requires Well(a) && scale > 0 && px < a.w && py < a.h
  {
    var k := py - y;
    if 0 <= k < q && k / scale < |rows| then ScaledPixel(a.px[py], x, rows[k / scale], scale, |rows[k / scale]| * scale, px)
    else a.px[py][px]
  }

  /** memcpy of a whole row's part inside the line: scale 1 without transparency. */
  method PlainRow(line: seq<nat>, x0: int, values: seq<int>) returns (out: seq<nat>)
    requires forall i :: 0 <= i < |values| ==> values[i] >= 0
    ensures |out| == |line|
    ensures forall x :: 0 <= x < |line| ==> out[x] == ScaledPixel(line, x0, values, 1, |values| * 1, x)
  {
    var c0 := if x0 < 0 then -x0 else 0;
    var c1 := if x0 + |values| > |line| then |line| - x0 else |values|;
    out := line;
    if c1 > c0 {
      var part := seq(c1 - c0, i requires 0 <= i < c1 - c0 => values[c0 + i] as nat);
      out := MovedRow(line, part, 0, x0 + c0, c1 - c0);
    }
  }

  /** `whole` says that no value is transparent: rows are then copied at scale 1. */
  method ScaledRows(img: Image, x: int, y: int, rows: seq<seq<int>>, scale: nat, whole: bool) returns (out: Image)
    requires Well(img) && scale > 0
    requires whole ==> forall r, c :: 0 <= r < |rows| && 0 <= c < |rows[r]| ==> rows[r][c] >= 0
    ensures Scaled(img, out, x, y, rows, scale, |rows| * scale)
  {
    hide ScaledPixel;
    out := img;
    var r := 0;
    while r < |rows|
      invariant 0 <= r <= |rows| && Scaled(img, out, x, y, rows, scale, r * scale)
    {
      var k := 0;
      MulMore(0, r, scale);
      while k < scale
        invariant 0 <= k <= scale && Scaled(img, out, x, y, rows, scale, r * scale + k)
      {
        var py := y + r * scale + k;
        ghost var before := out;
        var line := [];
        if 0 <= py < img.h {
          ScaleIndex(r * scale + k, scale, r);
          RowStill(img, out, x, y, rows, scale, r * scale + k, py);
          if whole && scale == 1 {
            line := PlainRow(out.px[py], x, rows[r]);
          } else {
            line := ScaledRow(out.px[py], x, rows[r], scale);
          }
          out := out.(px := out.px[py := line]);
        }
        RowMore(img, before, out, x, y, rows, scale, r, k, line);
        k := k + 1;
      }
      assert (r + 1) * scale == r * scale + scale;
      r := r + 1;
    }
  }

  lemma RowStill(a: Image, b: Image, x: int, y: int, rows: seq<seq<int>>, scale: nat, q: nat, py: nat)
    requires scale > 0 && Scaled(a, b, x, y, rows, scale, q) && py < a.h && py - y == q
    ensures b.px[py] == a.px[py]
  {
    hide ScaledPixel;
    forall px | 0 <= px < a.w ensures b.px[py][px] == a.px[py][px] {}
  }

  lemma RowMore(a: Image, before: Image, out: Image, x: int, y: int, rows: seq<seq<int>>, scale: nat, r: nat, k: nat,
                line: seq<nat>)
    requires r < |rows| && k < scale && Scaled(a, before, x, y, rows, scale, r * scale + k) && 0 <= r * scale
    requires var py := y + r * scale + k;
             if 0 <= py < a.h then
               && Alike(before, out) && (r * scale + k) / scale == r
               && out.px == before.px[py := line] && |line| == a.w
               && forall px :: 0 <= px < a.w ==> line[px] == ScaledPixel(a.px[py], x, rows[r], scale, |rows[r]| * scale, px)
             else out == before
    ensures Scaled(a, out, x, y, rows, scale, r * scale + (k + 1))
  {
    hide ScaledPixel, RowPixel;
    var q := r * scale + k;
    forall px, py | 0 <= px < a.w && 0 <= py < a.h ensures out.px[py][px] == RowPixel(a, x, y, rows, scale, q + 1, px, py) {
      RowStep(a, x, y, rows, scale, q, px, py);
      if py - y == q {
        assert py == y + r * scale + k && q / scale == r;
        assert out.px[py][px] == ScaledPixel(a.px[py], x, rows[r], scale, |rows[r]| * scale, px);
      } else {
        assert out.px[py][px] == before.px[py][px];
      }
    }
  }

  lemma RowStep(a: Image, x: int, y: int, rows: seq<seq<int>>, scale: nat, q: nat, px: nat, py: nat)
    requires Well(a) && scale > 0 && px < a.w && py < a.h
    ensures RowPixel(a, x, y, rows, scale, q + 1, px, py) ==
      (if py - y == q && q / scale < |rows| then
         ScaledPixel(a.px[py], x, rows[q / scale], scale, |rows[q / scale]| * scale, px)
       else RowPixel(a, x, y, rows, scale, q, px, py))
  {
    hide ScaledPixel;
    if py - y == q && q / scale >= |rows| {
      assert RowPixel(a, x, y, rows, scale, q, px, py) == a.px[py][px];
    }
  }

  // ---- pixel blocks with a key ----

  ghost predicate Keyed(a: Image, b: Image, x: int, y: int, block: Image, key: int) {
    && Alike(a, b) && Well(block)
    && forall px, py :: 0 <= px < a.w && 0 <= py < a.h ==> b.px[py][px] == KeyedPixel(a, x, y, block, block.h, key, px, py)
  }

  predicate Transparent(v: nat, key: int) {
    key >= 0 && v % 0x100_0000 == key % 0x1_0000_0000
  }

  /** After the first q rows of the block. */
  ghost function KeyedPixel(a: Image, x: int, y: int, block: Image, q: int, key: int, px: nat, py: nat): nat
    requires Well(a) && Well(block) && px < a.w && py < a.h && q <= block.h
  {
    if Inside(px, py, x, y, block.w, q) && !Transparent(block.px[py - y][px - x], key) then block.px[py - y][px - x]
    else a.px[py][px]
  }

  method KeyedRow(line: seq<nat>, x0: nat, values: seq<nat>, key: int) returns (out: seq<nat>)
    requires x0 + |values| <= |line|
    ensures |out| == |line|
    ensures forall x :: 0 <= x < |line| ==>
              out[x] == if x0 <= x < x0 + |values| && !Transparent(values[x - x0], key) then values[x - x0] else line[x]
  {
    if key < 0 { return MovedRow(line, values, 0, x0, |values|); }
    out := line;
    var c := 0;
    while c < |values|
      invariant 0 <= c <= |values| && |out| == |line|
      invariant forall x :: 0 <= x < |line| ==>
                  out[x] == if x0 <= x < x0 + c && !Transparent(values[x - x0], key) then values[x - x0] else line[x]
    {
      if values[c] % 0x100_0000 != key % 0x1_0000_0000 { out := out[x0 + c := values[c]]; }
      c := c + 1;
    }
  }

  /** The block's part inside the surface, row by row; `r` is the clipped rectangle. */
  method KeyedRows(img: Image, x: int, y: int, block: Image, key: int) returns (out: Image)
    requires Well(img) && Well(block)
    ensures Keyed(img, out, x, y, block, key)
  {
    out := img;
    var (ok, r) := Clip(Rect(x, y, block.w, block.h), img.w, img.h);
    ClipFits(Rect(x, y, block.w, block.h), img.w, img.h);
    if !ok {
      KeyedNone(img, x, y, block, key);
      return;
    }
    var i := 0;
    while i < r.h
      invariant 0 <= i <= r.h && Alike(img, out)
      invariant forall px, py :: 0 <= px < img.w && 0 <= py < img.h ==>
                  out.px[py][px] == KeyedPixel(img, x, y, block, r.y - y + i, key, px, py)
    {
      var v := r.y + i - y;
      var line := KeyedRow(out.px[r.y + i], r.x, block.px[v][r.x - x..r.x - x + r.w], key);
      KeyedMore(img, out, out.(px := out.px[r.y + i := line]), x, y, block, r, i, key, line);
      out := out.(px := out.px[r.y + i := line]);
      i := i + 1;
    }
    KeyedDone(img, out, x, y, block, r, key);
  }

  lemma KeyedNone(a: Image, x: int, y: int, block: Image, key: int)
    requires Well(a) && Well(block) && !Clip(Rect(x, y, block.w, block.h), a.w, a.h).0
    ensures Keyed(a, a, x, y, block, key)
  {
    forall px, py | 0 <= px < a.w && 0 <= py < a.h ensures a.px[py][px] == KeyedPixel(a, x, y, block, block.h, key, px, py) {
      ClipIs(Rect(x, y, block.w, block.h), a.w, a.h, px, py);
    }
  }

  lemma KeyedMore(a: Image, before: Image, out: Image, x: int, y: int, block: Image, r: Rect, i: nat, key: int, line: seq<nat>)
    requires Alike(a, before) && Well(block) && Clip(Rect(x, y, block.w, block.h), a.w, a.h) == (true, r) && i < r.h
    requires r.x >= x && r.y >= y && 0 <= r.x && 0 <= r.y && r.x + r.w <= a.w && r.y + r.h <= a.h
    requires r.x + r.w <= x + block.w && r.y + r.h <= y + block.h
    requires forall px, py :: 0 <= px < a.w && 0 <= py < a.h ==>
               before.px[py][px] == KeyedPixel(a, x, y, block, r.y - y + i, key, px, py)
    requires |before.px| == |out.px| && out.w == a.w && out.h == a.h
    requires forall py :: 0 <= py < a.h && py != r.y + i ==> out.px[py] == before.px[py]
    requires out.px[r.y + i] == line && |line| == a.w
    requires forall px :: 0 <= px < a.w ==>
               line[px] == (if r.x <= px < r.x + r.w && !Transparent(block.px[r.y + i - y][px - x], key)
                                       then block.px[r.y + i - y][px - x] else before.px[r.y + i][px])
    ensures Alike(a, out)
    ensures forall px, py :: 0 <= px < a.w && 0 <= py < a.h ==>
              out.px[py][px] == KeyedPixel(a, x, y, block, r.y - y + (i + 1), key, px, py)
  {
    forall px, py | 0 <= px < a.w && 0 <= py < a.h
      ensures out.px[py][px] == KeyedPixel(a, x, y, block, r.y - y + (i + 1), key, px, py)
    {
      if py == r.y + i { ClipIs(Rect(x, y, block.w, block.h), a.w, a.h, px, py); }
    }
  }

  lemma KeyedDone(a: Image, out: Image, x: int, y: int, block: Image, r: Rect, key: int)
    requires Alike(a, out) && Well(block) && Clip(Rect(x, y, block.w, block.h), a.w, a.h) == (true, r)
    requires 0 <= r.y - y + r.h <= block.h
    requires forall px, py :: 0 <= px < a.w && 0 <= py < a.h ==>
               out.px[py][px] == KeyedPixel(a, x, y, block, r.y - y + r.h, key, px, py)
    ensures Keyed(a, out, x, y, block, key)
  {
    forall px, py | 0 <= px < a.w && 0 <= py < a.h ensures out.px[py][px] == KeyedPixel(a, x, y, block, block.h, key, px, py) {
      ClipIs(Rect(x, y, block.w, block.h), a.w, a.h, px, py);
    }
  }
}
