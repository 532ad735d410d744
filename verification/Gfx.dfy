/** The screen, its off-screen surfaces, the owner map and the software cursor
    (kernel/gfx.c).  The framebuffer is surface 0; `screen` is the picture a caller
    draws, and the arrow is only ever painted on top of it. */
module Gfx {
  import opened Pictures
  import opened Cursor

  const SURFACES := 64

  datatype Target = None | Live(img: Image)

  ghost predicate Sized(t: Target) {
    t.Live? ==> Well(t.img)
  }

  ghost predicate AllSized(ts: seq<Target>) {
    |ts| == SURFACES && ts[0].Live? && forall k :: 0 <= k < |ts| ==> Sized(ts[k])
  }

  predicate LiveAt(ts: seq<Target>, id: int) {
    0 <= id < |ts| && ts[id].Live?
  }

  function Blank(w: nat, h: nat): (img: Image)
    ensures Well(img) && img.w == w && img.h == h
    ensures forall x, y :: 0 <= x < w && 0 <= y < h ==> img.px[y][x] == 0
  {
    Image(w, h, seq(h, _ => seq(w, _ => 0)))
  }

  // ---- arguments ----

  /** gfx_copy_rect_on's clipping of one side, in 32-bit arithmetic. */
  function CopyLength(start: nat, len: nat, size: nat): nat
    requires start < size
  {
    if (start + len) % 0x1_0000_0000 > size then size - start else len
  }

  /** It keeps the copy inside the surface exactly when the sum does not wrap. */
  lemma CopyLengthExact(start: nat, len: nat, size: nat)
    requires start < size < 0x1_0000_0000 && len < 0x1_0000_0000
    ensures start + CopyLength(start, len, size) <= size <==> start + len < 0x1_0000_0000
    ensures start + len < 0x1_0000_0000 ==>
              CopyLength(start, len, size) == if start + len > size then size - start else len
  {
    if start + len >= 0x1_0000_0000 {
      assert (start + len) % 0x1_0000_0000 == start + len - 0x1_0000_0000;
    }
  }

  /** The two regions that gfx_copy_rect_on goes through lie in the surface exactly when
      the call is Legal. */
  lemma CopyInside(id: int, sx: nat, sy: nat, w: nat, h: nat, dx: nat, dy: nat, tw: nat, th: nat)
    requires sx < tw && dx < tw && sy < th && dy < th && tw < 0x1_0000_0000 && th < 0x1_0000_0000
    requires w < 0x1_0000_0000 && h < 0x1_0000_0000
    ensures var cw, ch := CopyLength(Max(sx, dx), w, tw), CopyLength(Max(sy, dy), h, th);
            FitsIn(Rect(sx, sy, cw, ch), tw, th) && FitsIn(Rect(dx, dy, cw, ch), tw, th)
            <==> Legal(Copy(id, sx, sy, w, h, dx, dy))
  {
    hide CopyLength;
    CopyLengthExact(Max(sx, dx), w, tw);
    CopyLengthExact(Max(sy, dy), h, th);
  }

  /** A width that wraps: on a surface of 640 x 480 the copy from (1, 0) to (0, 0) is not
      cut, and its rows end far past the surface's. */
  lemma CopyWraps()
    ensures var w := 0xFFFF_FFFF;
            && CopyLength(Max(1, 0), w, 640) == w && CopyLength(Max(0, 0), 1, 480) == 1
            && !FitsIn(Rect(1, 0, w, 1), 640, 480) && !Legal(Copy(0, 1, 0, w, 1, 0, 0))
  {}

  function Max(a: nat, b: nat): nat { if a > b then a else b }

  /** Glyph bits as colours; -1 where a background below 0 leaves the surface alone. */
  function Tinted(bits: seq<seq<bool>>, fg: nat, bg: int): (rows: seq<seq<int>>)
    ensures |rows| == |bits| && forall r :: 0 <= r < |rows| ==> |rows[r]| == |bits[r]|
  {
    seq(|bits|, r requires 0 <= r < |bits| =>
      seq(|bits[r]|, c requires 0 <= c < |bits[r]| =>
        if bits[r][c] then fg else if bg < 0 then -1 else bg % 0x1_0000_0000))
  }

  /** The rows of a rectangle of an image. */
  function Block(img: Image, r: Rect): (rows: seq<seq<int>>)
    requires Well(img) && FitsIn(r, img.w, img.h)
    ensures |rows| == r.h
    ensures forall i :: 0 <= i < |rows| ==> |rows[i]| == r.w
    ensures forall i, c :: 0 <= i < |rows| && 0 <= c < |rows[i]| ==> rows[i][c] >= 0
  {
    seq(r.h, i requires 0 <= i < r.h => seq(r.w, c requires 0 <= c < r.w => img.px[r.y + i][r.x + c]))
  }

  /** memset and the freeing loop over the owner map. */
  method Disown(own: Image, id: nat) returns (out: Image)
    requires Well(own)
    ensures Alike(own, out)
    ensures forall x, y :: 0 <= x < own.w && 0 <= y < own.h ==>
              out.px[y][x] == if own.px[y][x] == id then 0 else own.px[y][x]
  {
    out := own;
    var y := 0;
    while y < own.h
      invariant 0 <= y <= own.h && Alike(own, out)
      invariant forall x, v :: 0 <= x < own.w && 0 <= v < own.h ==>
                  out.px[v][x] == if v < y && own.px[v][x] == id then 0 else own.px[v][x]
    {
      var line := OwnedRow(out.px[y], out.px[y], id, 0, seq(own.w, _ => 0));
      out := out.(px := out.px[y := line]);
      y := y + 1;
    }
  }

  // ---- what each call does to the picture ----

  /** What a caller sees: the surfaces with the screen as surface 0, and the owner map. */
  datatype View = View(layers: seq<Target>, owner: Image)

  datatype Call =
    | Fill(id: int, r: Rect, color: nat)
    | Bits(id: int, x: int, y: int, bits: seq<seq<bool>>, w: nat, scale: nat, fg: nat, bg: int)
    | Copy(id: int, sx: nat, sy: nat, w: nat, h: nat, tx: nat, ty: nat)
    | Pixel(px: nat, py: nat, color: nat)
    | Own(id: int, r: Rect)
    | Present(id: int, s: Rect, dx: int, dy: int)
    | FillOwned(id: int, r: Rect, color: nat)
    | Pixels(id: int, x: int, y: int, block: Image, key: int)
    | Blit(src: int, s: Rect, dst: int, dx: int, dy: int, zoom: int)
    | NewSurface(w: nat, h: nat, memory: bool)
    | FreeSurface(id: int)
    | Pointer(x: int, y: int, show: bool)

  /** What the source asks of a caller; a blit from the screen may show the arrow (BlitSurface). */
  ghost predicate Legal(c: Call) {
    match c
    case Bits(_, _, _, bits, w, _, _, _) => forall r :: 0 <= r < |bits| ==> |bits[r]| == w
    case Copy(_, sx, sy, w, h, dx, dy) => Max(sx, dx) + w < 0x1_0000_0000 && Max(sy, dy) + h < 0x1_0000_0000
    case Pixels(_, _, _, block, _) => Well(block)
    case Blit(src, _, _, _, _, _) => src != 0
    case _ => true
  }

  ghost predicate WellView(v: View) {
    AllSized(v.layers) && Alike(v.layers[0].img, v.owner)
  }

  /** Only surface id's picture differs. */
  ghost predicate OnlyAt(v: View, v': View, id: int) {
    && LiveAt(v.layers, id) && LiveAt(v'.layers, id) && v'.owner == v.owner
    && v'.layers == v.layers[id := v'.layers[id]]
  }

  /** A surface's picture. */
  ghost function Img(v: View, id: int): Image
    requires LiveAt(v.layers, id)
  {
    v.layers[id].img
  }

  /** The rule of each call, pixel by pixel and without a cursor. */
  ghost predicate Step(c: Call, v: View, v': View)
    requires WellView(v) && Legal(c)
  {
    match c
    case Fill(id, r, color) =>
      if LiveAt(v.layers, id) then OnlyAt(v, v', id) && Filled(Img(v, id), Img(v', id), r, color) else v' == v
    case Bits(id, x, y, bits, w, scale, fg, bg) =>
      if LiveAt(v.layers, id) && scale > 0 then
        OnlyAt(v, v', id) && Scaled(Img(v, id), Img(v', id), x, y, Tinted(bits, fg, bg), scale, |bits| * scale)
      else v' == v
    case Copy(id, sx, sy, w, h, dx, dy) =>
      if LiveAt(v.layers, id) && Max(sx, dx) < Img(v, id).w && Max(sy, dy) < Img(v, id).h then
        && OnlyAt(v, v', id)
        && Copied(Img(v, id), Img(v', id), sx, sy, Room(Max(sx, dx), w, Img(v, id).w), Room(Max(sy, dy), h, Img(v, id).h), dx, dy)
      else v' == v
    case Pixel(x, y, color) => OnlyAt(v, v', 0) && Filled(Img(v, 0), Img(v', 0), Rect(x, y, 1, 1), color)
    case Own(id, r) =>
      v'.layers == v.layers && if 0 <= id < SURFACES then Filled(v.owner, v'.owner, r, id) else v'.owner == v.owner
    case Present(id, s, dx, dy) =>
      if LiveAt(v.layers, id) && id != 0 then
        OnlyAt(v, v', 0) && Presented(Img(v, 0), Img(v', 0), v.owner, Img(v, id), id, s, dx, dy)
      else v' == v
    case FillOwned(id, r, color) =>
      OnlyAt(v, v', 0) && OwnedFilled(Img(v, 0), Img(v', 0), v.owner, id, r, color)
    case Pixels(id, x, y, block, key) =>
      if LiveAt(v.layers, id) then OnlyAt(v, v', id) && Keyed(Img(v, id), Img(v', id), x, y, block, key) else v' == v
    case Blit(src, s, dst, dx, dy, scale) =>
      if LiveAt(v.layers, src) && LiveAt(v.layers, dst) && src != dst && scale >= 1 then
        OnlyAt(v, v', dst) && Blitted(Img(v, src), Img(v, dst), Img(v', dst), s, dx, dy, scale)
      else v' == v
    case NewSurface(w, h, memory) =>
      var k := Free(v.layers, 1);
      v' == if w == 0 || h == 0 || k == |v.layers| || !memory then v else v.(layers := v.layers[k := Live(Blank(w, h))])
    case FreeSurface(id) =>
      if LiveAt(v.layers, id) && id != 0 then
        v'.layers == v.layers[id := None] && Disowned(v.owner, v'.owner, id)
      else v' == v
    case Pointer(_, _, _) => v' == v
  }

  /** How much of `len` fits from `start` on. */
  function Room(start: nat, len: nat, size: nat): nat
    requires start < size
  {
    if start + len > size then size - start else len
  }

  /** gfx_blit_surface clips to the source only, without moving the destination. */
  ghost predicate Blitted(src: Image, a: Image, b: Image, s: Rect, dx: int, dy: int, scale: int)
    requires Well(src) && scale > 0
  {
    var (ok, r) := Clip(s, src.w, src.h);
    ClipFits(s, src.w, src.h);
    if ok then Scaled(a, b, dx, dy, Block(src, r), scale, r.h * scale) else Well(a) && b == a
  }

  ghost predicate Disowned(a: Image, b: Image, id: nat) {
    && Alike(a, b)
    && forall x, y :: 0 <= x < a.w && 0 <= y < a.h ==> b.px[y][x] == if a.px[y][x] == id then 0 else a.px[y][x]
  }

  /** The first free slot from k on. */
  function Free(ts: seq<Target>, k: nat): (r: nat)
    requires k <= |ts|
    ensures k <= r <= |ts|
    ensures r < |ts| ==> ts[r].None?
    ensures forall j :: k <= j < r ==> ts[j].Live?
    decreases |ts| - k
  {
    if k == |ts| || ts[k].None? then k else Free(ts, k + 1)
  }

  // ---- every rule says all of the new picture ----

  lemma FilledOnce(a: Image, b: Image, c: Image, r: Rect, color: nat)
    requires Filled(a, b, r, color) && Filled(a, c, r, color)
    ensures b == c
  { SameImage(b, c); }

  lemma OwnedFilledOnce(a: Image, b: Image, c: Image, own: Image, id: int, r: Rect, color: nat)
    requires OwnedFilled(a, b, own, id, r, color) && OwnedFilled(a, c, own, id, r, color)
    ensures b == c
  { SameImage(b, c); }

  lemma PresentedOnce(a: Image, b: Image, c: Image, own: Image, surf: Image, id: int, s: Rect, dx: int, dy: int)
    requires Presented(a, b, own, surf, id, s, dx, dy) && Presented(a, c, own, surf, id, s, dx, dy)
    ensures b == c
  { SameImage(b, c); }

  lemma CopiedOnce(a: Image, b: Image, c: Image, sx: nat, sy: nat, w: nat, h: nat, dx: nat, dy: nat)
    requires Copied(a, b, sx, sy, w, h, dx, dy) && Copied(a, c, sx, sy, w, h, dx, dy)
    ensures b == c
  { SameImage(b, c); }

  lemma ScaledOnce(a: Image, b: Image, c: Image, x: int, y: int, rows: seq<seq<int>>, scale: nat, q: int)
    requires scale > 0 && Scaled(a, b, x, y, rows, scale, q) && Scaled(a, c, x, y, rows, scale, q)
    ensures b == c
  { SameImage(b, c); }

  lemma KeyedOnce(a: Image, b: Image, c: Image, x: int, y: int, block: Image, key: int)
    requires Keyed(a, b, x, y, block, key) && Keyed(a, c, x, y, block, key)
    ensures b == c
  { SameImage(b, c); }

  lemma DisownedOnce(a: Image, b: Image, c: Image, id: nat)
    requires Disowned(a, b, id) && Disowned(a, c, id)
    ensures b == c
  { SameImage(b, c); }

  /** A call's rule determines the view it leaves. */
  lemma StepUnique(c: Call, v: View, v1: View, v2: View)
    requires WellView(v) && Legal(c) && Step(c, v, v1) && Step(c, v, v2)
    ensures v1 == v2
  {
    hide Clip, Scaled, Copied, Keyed, Presented, OwnedFilled, Disowned, Filled;
    match c
    case Fill(id, r, color) =>
      if LiveAt(v.layers, id) { FilledOnce(Img(v, id), Img(v1, id), Img(v2, id), r, color); }
    case Bits(id, x, y, bits, w, scale, fg, bg) =>
      if LiveAt(v.layers, id) && scale > 0 {
        ScaledOnce(Img(v, id), Img(v1, id), Img(v2, id), x, y, Tinted(bits, fg, bg), scale, |bits| * scale);
      }
    case Copy(id, sx, sy, w, h, dx, dy) =>
      if LiveAt(v.layers, id) && Max(sx, dx) < Img(v, id).w && Max(sy, dy) < Img(v, id).h {
        CopiedOnce(Img(v, id), Img(v1, id), Img(v2, id), sx, sy, Room(Max(sx, dx), w, Img(v, id).w),
                   Room(Max(sy, dy), h, Img(v, id).h), dx, dy);
      }
    case Pixel(x, y, color) => FilledOnce(Img(v, 0), Img(v1, 0), Img(v2, 0), Rect(x, y, 1, 1), color);
    case Own(id, r) => if 0 <= id < SURFACES { FilledOnce(v.owner, v1.owner, v2.owner, r, id); }
    case Present(id, s, dx, dy) =>
      if LiveAt(v.layers, id) && id != 0 {
        PresentedOnce(Img(v, 0), Img(v1, 0), Img(v2, 0), v.owner, Img(v, id), id, s, dx, dy);
      }
    case FillOwned(id, r, color) => OwnedFilledOnce(Img(v, 0), Img(v1, 0), Img(v2, 0), v.owner, id, r, color);
    case Pixels(id, x, y, block, key) =>
      if LiveAt(v.layers, id) { KeyedOnce(Img(v, id), Img(v1, id), Img(v2, id), x, y, block, key); }
    case Blit(src, s, dst, dx, dy, scale) =>
      if LiveAt(v.layers, src) && LiveAt(v.layers, dst) && src != dst && scale >= 1 {
        var (ok, r) := Clip(s, Img(v, src).w, Img(v, src).h);
        if ok {
          ClipFits(s, Img(v, src).w, Img(v, src).h);
          ScaledOnce(Img(v, dst), Img(v1, dst), Img(v2, dst), dx, dy, Block(Img(v, src), r), scale, r.h * scale);
        }
      }
    case NewSurface(_, _, _) => {}
    case FreeSurface(id) =>
      if LiveAt(v.layers, id) && id != 0 { DisownedOnce(v.owner, v1.owner, v2.owner, id); }
    case Pointer(_, _, _) => {}
  }

  lemma FilledAlike(a: Image, b: Image, r: Rect, color: nat)
    requires Filled(a, b, r, color)
    ensures Alike(a, b)
  {}

  lemma OwnedFilledAlike(a: Image, b: Image, own: Image, id: int, r: Rect, color: nat)
    requires OwnedFilled(a, b, own, id, r, color)
    ensures Alike(a, b)
  {}

  lemma PresentedAlike(a: Image, b: Image, own: Image, surf: Image, id: int, s: Rect, dx: int, dy: int)
    requires Presented(a, b, own, surf, id, s, dx, dy)
    ensures Alike(a, b)
  {}

  lemma CopiedAlike(a: Image, b: Image, sx: nat, sy: nat, w: nat, h: nat, dx: nat, dy: nat)
    requires Copied(a, b, sx, sy, w, h, dx, dy)
    ensures Alike(a, b)
  {}

  lemma ScaledAlike(a: Image, b: Image, x: int, y: int, rows: seq<seq<int>>, scale: nat, q: int)
    requires scale > 0 && Scaled(a, b, x, y, rows, scale, q)
    ensures Alike(a, b)
  {}

  lemma KeyedAlike(a: Image, b: Image, x: int, y: int, block: Image, key: int)
    requires Keyed(a, b, x, y, block, key)
    ensures Alike(a, b)
  {}

  // ---- blitting from the screen ----

  /** Source column or row i, drawn from `start` on at this scale, meets the surface. */
  predicate Lands(i: nat, start: int, scale: nat, size: nat) {
    0 < size && start + i * scale < size && start + i * scale + scale > 0
  }

  /** The arrow at (x, y) paints nothing on this pixel, or the colour that it has. */
  predicate Bare(s: Image, x: int, y: int, px: nat, py: nat)
    requires py < |s.px| && px < |s.px[py]|
  {
    Boxed(px, py, x, y) && Ink(py - y, px - x) >= 0 ==> s.px[py][px] == Ink(py - y, px - x)
  }

  /** Of the rectangle's pixels that reach a surface of w x h at (dx, dy), the arrow hides
      none of another colour. */
  ghost predicate Unhidden(s: Image, x: int, y: int, r: Rect, w: nat, h: nat, dx: int, dy: int, scale: nat)
    requires Well(s)
  {
    var (ok, c) := Clip(r, s.w, s.h);
    ClipFits(r, s.w, s.h);
    ok ==>
      forall i, j :: 0 <= i < c.w && 0 <= j < c.h && Lands(i, dx, scale, w) && Lands(j, dy, scale, h) ==>
        Bare(s, x, y, c.x + i, c.y + j)
  }

  /** A blit that does not touch the arrow's box. */
  lemma ApartUnhidden(s: Image, x: int, y: int, r: Rect, w: nat, h: nat, dx: int, dy: int, scale: nat)
    requires Well(s) && Apart(Clip(r, s.w, s.h).1, x, y)
    ensures Unhidden(s, x, y, r, w, h, dx, dy, scale)
  {
    hide Clip, Ink, Lands;
    ClipFits(r, s.w, s.h);
  }

  lemma InScale(k: int, n: nat, scale: nat)
    requires scale > 0
    ensures 0 <= k < n * scale ==> 0 <= k / scale < n && (k / scale) * scale <= k < (k / scale) * scale + scale
  {
    if 0 <= k < n * scale {
      var q, r := k / scale, k % scale;
      assert k == q * scale + r;
      if q >= n { MulStep(n - 1, q, scale); }
    }
  }

  /** Where a pixel of a blit comes from. */
  lemma BlockPixel(img: Image, r: Rect, a: Image, dx: int, dy: int, scale: nat, qx: nat, qy: nat)
    requires Well(img) && FitsIn(r, img.w, img.h) && Well(a) && qx < a.w && qy < a.h && scale > 0
    ensures var i, j := (qx - dx) / scale, (qy - dy) / scale;
            if 0 <= qx - dx < r.w * scale && 0 <= qy - dy < r.h * scale then
              && 0 <= i < r.w && 0 <= j < r.h && Lands(i, dx, scale, a.w) && Lands(j, dy, scale, a.h)
              && RowPixel(a, dx, dy, Block(img, r), scale, r.h * scale, qx, qy) == img.px[r.y + j][r.x + i]
            else RowPixel(a, dx, dy, Block(img, r), scale, r.h * scale, qx, qy) == a.px[qy][qx]
  {
    InScale(qx - dx, r.w, scale);
    InScale(qy - dy, r.h, scale);
  }

  /** The first pixel of a square that reaches the surface. */
  lemma LandsAt(i: nat, n: nat, start: int, scale: nat, size: nat) returns (q: nat)
    requires i < n && scale > 0 && Lands(i, start, scale, size)
    ensures q < size && 0 <= q - start < n * scale && (q - start) / scale == i
  {
    q := if start + i * scale >= 0 then start + i * scale else 0;
    ScaleIndex(q - start, scale, i);
    if i < n - 1 { MulStep(i, n - 1, scale); }
    assert n * scale == (n - 1) * scale + scale;
  }

  /** Blitting the framebuffer has the effect of blitting the screen below the arrow
      exactly when the arrow hides nothing of another colour in what is copied. */
  lemma ScreenSource(fb: Image, s: Image, x: int, y: int, a: Image, b: Image, r: Rect, dx: int, dy: int, scale: nat)
    requires Over(fb, s, x, y) && scale > 0 && Blitted(fb, a, b, r, dx, dy, scale)
    ensures Blitted(s, a, b, r, dx, dy, scale) <==> Unhidden(s, x, y, r, a.w, a.h, dx, dy, scale)
  {
    hide Clip, RowPixel, Ink, Lands, Inside;
    var (ok, c) := Clip(r, s.w, s.h);
    ClipFits(r, s.w, s.h);
    if ok {
      if Blitted(s, a, b, r, dx, dy, scale) {
        forall i, j | 0 <= i < c.w && 0 <= j < c.h && Lands(i, dx, scale, a.w) && Lands(j, dy, scale, a.h)
          ensures Bare(s, x, y, c.x + i, c.y + j)
        {
          var qx := LandsAt(i, c.w, dx, scale, a.w);
          var qy := LandsAt(j, c.h, dy, scale, a.h);
          BlockPixel(fb, c, a, dx, dy, scale, qx, qy);
          BlockPixel(s, c, a, dx, dy, scale, qx, qy);
          assert b.px[qy][qx] == fb.px[c.y + j][c.x + i] == s.px[c.y + j][c.x + i];
        }
      }
      if Unhidden(s, x, y, r, a.w, a.h, dx, dy, scale) {
        forall qx, qy | 0 <= qx < a.w && 0 <= qy < a.h
          ensures b.px[qy][qx] == RowPixel(a, dx, dy, Block(s, c), scale, c.h * scale, qx, qy)
        {
          BlockPixel(fb, c, a, dx, dy, scale, qx, qy);
          BlockPixel(s, c, a, dx, dy, scale, qx, qy);
          if 0 <= qx - dx < c.w * scale && 0 <= qy - dy < c.h * scale {
            assert Bare(s, x, y, c.x + (qx - dx) / scale, c.y + (qy - dy) / scale);
          }
        }
      }
    }
  }

  lemma SeenSource(fb: Image, s: Image, x: int, y: int, shown: bool, saved: seq<nat>, a: Image, b: Image, r: Rect, dx: int, dy: int, scale: nat)
    requires OnTop(fb, s, x, y, shown, saved) && scale > 0 && Blitted(fb, a, b, r, dx, dy, scale)
    ensures Blitted(s, a, b, r, dx, dy, scale) <==> (shown ==> Unhidden(s, x, y, r, a.w, a.h, dx, dy, scale))
  {
    hide Blitted, Unhidden, Over, Under;
    if shown { ScreenSource(fb, s, x, y, a, b, r, dx, dy, scale); }
  }

  /** A screen of one pixel with the arrow's tip on it: the blit copies the tip. */
  lemma ArrowCopied()
    ensures var s, fb, a := Image(1, 1, [[5]]), Image(1, 1, [[0]]), Image(1, 1, [[7]]);
            && Over(fb, s, 0, 0) && Blitted(fb, a, fb, Rect(0, 0, 1, 1), 0, 0, 1)
            && !Blitted(s, a, fb, Rect(0, 0, 1, 1), 0, 0, 1)
  {
    ArtRows();
    var s, fb, a := Image(1, 1, [[5]]), Image(1, 1, [[0]]), Image(1, 1, [[7]]);
    assert Ink(0, 0) == 0;
    assert Clip(Rect(0, 0, 1, 1), 1, 1) == (true, Rect(0, 0, 1, 1));
    BlockPixel(fb, Rect(0, 0, 1, 1), a, 0, 0, 1, 0, 0);
    BlockPixel(s, Rect(0, 0, 1, 1), a, 0, 0, 1, 0, 0);
  }

  class Screen {
    const gw: nat
    const gh: nat
    var surfaces: seq<Target>
    var owner: Image
    var curX: int
    var curY: int
    var curShown: bool
    var saved: seq<nat>
    ghost var screen: Image

    ghost predicate Sound()
      reads this
    {
      && AllSized(surfaces) && Alike(surfaces[0].img, screen) && Alike(screen, owner)
      && screen.w == gw && screen.h == gh && |saved| == 176
    }

    /** The framebuffer is the screen with the arrow painted over it, and cur_saved
        is what lies under the arrow. */
    ghost predicate Valid()
      reads this
    {
      Sound() && OnTop(surfaces[0].img, screen, curX, curY, curShown, saved)
    }

    ghost function Layers(): (l: seq<Target>)
      requires |surfaces| > 0
      reads this
      ensures |l| == |surfaces|
    {
      surfaces[0 := Live(screen)]
    }

    ghost function Seen(): (v: View)
      requires |surfaces| > 0
      reads this
    {
      View(Layers(), owner)
    }

    function Tip(): Spot
      reads this
    {
      Spot(curX, curY, curShown)
    }

    /** gfx_init: `fb` is whatever the framebuffer holds. */
    constructor (fb: Image)
      requires Well(fb)
      ensures Valid() && gw == fb.w && gh == fb.h && owner == Blank(fb.w, fb.h) && !curShown
      ensures screen == fb && forall k :: 0 < k < SURFACES ==> surfaces[k] == None
    {
      gw, gh := fb.w, fb.h;
      surfaces := seq(SURFACES, k => if k == 0 then Live(fb) else None);
      owner := Blank(fb.w, fb.h);
      curX, curY, curShown := 0, 0, false;
      saved := seq(176, _ => 0);
      screen := fb;
    }

    // ---- the cursor around a drawing loop ----

    /** Before the loop the framebuffer is the screen, or the arrow stands clear. */
    ghost predicate Drawing(hid: bool)
      reads this
    {
      && Sound() && (hid ==> curShown)
      && (if curShown && !hid then Over(surfaces[0].img, screen, curX, curY) && Under(screen, curX, curY, saved)
          else surfaces[0].img == screen)
    }

    /** Taking the arrow away would leave the screen. */
    ghost predicate Hideable()
      requires Sound()
      reads this
    {
      if curShown then Around(surfaces[0].img, screen, curX, curY) && Under(screen, curX, curY, saved)
      else surfaces[0].img == screen
    }

    ghost predicate Drawn(id: nat, hid: bool)
      reads this
    {
      if id == 0 then Drawing(hid) else Valid() && !hid
    }

    method HideFor(x: int, y: int, w: int, h: int) returns (hid: bool)
      requires Sound() && Hideable()
      modifies `surfaces
      ensures Sound() && Hideable() && Layers() == old(Layers())
      ensures hid ==> curShown && surfaces[0].img == screen
      ensures !hid ==> surfaces == old(surfaces) && (curShown ==> Apart(Rect(x, y, w, h), curX, curY))
    {
      if !curShown { return false; }
      if x >= curX + 11 || y >= curY + 16 || x + w <= curX || y + h <= curY { return false; }
      var out := Restore(surfaces[0].img, curX, curY, saved, screen);
      surfaces := surfaces[0 := Live(out)];
      return true;
    }

    /** The loop's result goes to surface id, and a hidden arrow comes back. */
    method Settle(id: nat, out: Image, hid: bool)
      requires Sound() && LiveAt(surfaces, id) && Alike(surfaces[id].img, out)
      requires Drawn(id, hid)
      requires id == 0 && curShown && !hid ==> Spared(surfaces[0].img, out, curX, curY)
      modifies `surfaces, `saved, `screen
      ensures Valid()
      ensures Layers() == old(Layers())[id := Live(if id == 0 then After(out, old(screen), curX, curY, curShown && !hid) else out)]
    {
      ghost var fb := surfaces[0].img;
      surfaces := surfaces[id := Live(out)];
      if id == 0 {
        if curShown && !hid { StillOver(fb, out, screen, curX, curY, saved); }
        screen := After(out, screen, curX, curY, curShown && !hid);
        if hid {
          var over, kept := Draw(out, curX, curY, saved);
          surfaces, saved := surfaces[0 := Live(over)], kept;
        }
      }
    }

    /** gfx_cursor. */
    method SetPointer(x: int, y: int, show: bool)
      requires Valid()
      modifies `surfaces, `saved, `curX, `curY, `curShown
      ensures Valid() && Seen() == old(Seen()) && Step(Pointer(x, y, show), old(Seen()), Seen())
      ensures curX == x && curY == y && curShown == show
    {
      if curShown {
        OverAround(surfaces[0].img, screen, curX, curY);
        var out := Restore(surfaces[0].img, curX, curY, saved, screen);
        surfaces := surfaces[0 := Live(out)];
      }
      curX, curY, curShown := x, y, show;
      if show {
        var over, kept := Draw(surfaces[0].img, curX, curY, saved);
        surfaces, saved := surfaces[0 := Live(over)], kept;
      }
    }

    // ---- drawing calls ----

    /** Hide the cursor if the call draws on the screen and would touch it. */
    method HideOn(id: nat, r: Rect) returns (hid: bool)
      requires Valid() && LiveAt(surfaces, id)
      modifies `surfaces
      ensures Sound() && LiveAt(surfaces, id) && Layers() == old(Layers()) && Drawn(id, hid)
      ensures id == 0 ==> Hideable() && Start(surfaces[0].img, screen, curX, curY, curShown && !hid, r)
      ensures id != 0 ==> surfaces == old(surfaces)
    {
      hid := false;
      if id == 0 { hid := HideFor(r.x, r.y, r.w, r.h); }
    }

    method FillRect(id: int, r: Rect, color: nat)
      requires Valid()
      modifies `surfaces, `saved, `screen
      ensures Valid() && Step(Fill(id, r, color), old(Seen()), Seen())
    {
      hide Clip, Filled, OnTop;
      if !LiveAt(surfaces, id) { return; }
      ghost var v := Seen();
      var (ok, c) := Clip(r, surfaces[id].img.w, surfaces[id].img.h);
      ClipFits(r, surfaces[id].img.w, surfaces[id].img.h);
      if ok {
        var hid := HideOn(id, c);
        ghost var base := surfaces[id].img;
        var out := FillRows(surfaces[id].img, c, color);
        FilledAlike(base, out, c, color);
        if id == 0 { FilledBeside(base, out, screen, curX, curY, curShown && !hid, c, color); }
        Settle(id, out, hid);
      }
      FilledClipped(Img(v, id), Img(Seen(), id), r, color);
    }

    method BlitBits(id: int, x: int, y: int, bits: seq<seq<bool>>, w: nat, scale: nat, fg: nat, bg: int)
      requires Valid() && Legal(Bits(id, x, y, bits, w, scale, fg, bg))
      modifies `surfaces, `saved, `screen
      ensures Valid() && Step(Bits(id, x, y, bits, w, scale, fg, bg), old(Seen()), Seen())
    {
      hide Scaled, OnTop;
      if !LiveAt(surfaces, id) || scale == 0 { return; }
      var hid := HideOn(id, Rect(x, y, w * scale, |bits| * scale));
      ghost var base := surfaces[id].img;
      var rows := Tinted(bits, fg, bg);
      var out := ScaledRows(surfaces[id].img, x, y, rows, scale, false);
      ScaledAlike(base, out, x, y, rows, scale, |bits| * scale);
      if id == 0 { ScaledBeside(base, out, screen, curX, curY, curShown && !hid, x, y, rows, scale, w, |bits| * scale); }
      Settle(id, out, hid);
    }

    method CopyRect(id: int, sx: nat, sy: nat, w: nat, h: nat, dx: nat, dy: nat)
      requires Valid() && Legal(Copy(id, sx, sy, w, h, dx, dy))
      modifies `surfaces, `saved, `screen
      ensures Valid() && Step(Copy(id, sx, sy, w, h, dx, dy), old(Seen()), Seen())
    {
      hide Copied, OnTop, Over, Under, Around;
      if !LiveAt(surfaces, id) { return; }
      var t := surfaces[id].img;
      if sx >= t.w || sy >= t.h || dx >= t.w || dy >= t.h { return; }
      var maxx, maxy := Max(sx, dx), Max(sy, dy);
      var cw, ch := CopyLength(maxx, w, t.w), CopyLength(maxy, h, t.h);
      var hid := HideOn(id, Rect(sx, sy, cw, ch));
      if id == 0 {
        var too := HideFor(dx, dy, cw, ch);
        hid := hid || too;
      }
      ghost var base := surfaces[id].img;
      var out := CopyRows(surfaces[id].img, sx, sy, cw, ch, dx, dy);
      CopiedAlike(base, out, sx, sy, cw, ch, dx, dy);
      if id == 0 { CopiedBeside(base, out, screen, curX, curY, curShown && !hid, sx, sy, cw, ch, dx, dy); }
      Settle(id, out, hid);
    }

    method SetPixel(x: nat, y: nat, color: nat)
      requires Valid()
      modifies `surfaces, `saved, `screen
      ensures Valid() && Step(Pixel(x, y, color), old(Seen()), Seen())
    {
      hide OnTop;
      if x >= gw || y >= gh { return; }
      var hid := HideOn(0, Rect(x, y, 1, 1));
      ghost var base := surfaces[0].img;
      var out := Dotted(surfaces[0].img, x, y, color);
      FilledBeside(base, out, screen, curX, curY, curShown && !hid, Rect(x, y, 1, 1), color);
      Settle(0, out, hid);
    }

    method OwnRect(id: int, r: Rect)
      requires Valid()
      modifies `owner
      ensures Valid() && Step(Own(id, r), old(Seen()), Seen())
    {
      hide Clip, Filled, OnTop;
      ghost var was := owner;
      var (ok, c) := Clip(r, gw, gh);
      ClipFits(r, gw, gh);
      if id < 0 || id >= SURFACES { return; }
      if ok {
        owner := FillRows(owner, c, id);
        FilledAlike(was, owner, c, id);
      }
      FilledClipped(was, owner, r, id);
    }

    method OwnerAt(x: int, y: int) returns (id: int)
      requires Valid()
      ensures id == if 0 <= x < gw && 0 <= y < gh then owner.px[y][x] else -1
    {
      if x < 0 || y < 0 || x >= gw || y >= gh { return -1; }
      return owner.px[y][x];
    }

    method PresentRect(id: int, s: Rect, dx: int, dy: int)
      requires Valid()
      modifies `surfaces, `saved, `screen
      ensures Valid() && Step(Present(id, s, dx, dy), old(Seen()), Seen())
    {
      hide Clip, Presented, OnTop;
      if !LiveAt(surfaces, id) || id == 0 { return; }
      ghost var v := Seen();
      var surf := surfaces[id].img;
      var (ok1, s1) := Clip(s, surf.w, surf.h);
      ClipFits(s, surf.w, surf.h);
      var d1 := Rect(dx + (s1.x - s.x), dy + (s1.y - s.y), s1.w, s1.h);
      var (ok2, d2) := Clip(d1, gw, gh);
      ClipFits(d1, gw, gh);
      if ok1 && ok2 {
        var s2 := Rect(s1.x + (d2.x - d1.x), s1.y + (d2.y - d1.y), d2.w, d2.h);
        var hid := HideOn(0, d2);
        ghost var base := surfaces[0].img;
        var out := PresentRows(surfaces[0].img, owner, surf, id, s2, d2.x, d2.y);
        PresentedAlike(base, out, owner, surf, id, s2, d2.x, d2.y);
        PresentedBeside(base, out, screen, curX, curY, curShown && !hid, owner, surf, id, s2, d2.x, d2.y);
        Settle(0, out, hid);
      }
      DoubleClip(Img(v, 0), Img(Seen(), 0), owner, surf, id, s, dx, dy);
    }

    method FillOwnedRect(id: int, r: Rect, color: nat)
      requires Valid()
      modifies `surfaces, `saved, `screen
      ensures Valid() && Step(FillOwned(id, r, color), old(Seen()), Seen())
    {
      hide Clip, OwnedFilled, OnTop;
      ghost var v := Seen();
      var (ok, c) := Clip(r, gw, gh);
      ClipFits(r, gw, gh);
      if ok {
        var hid := HideOn(0, c);
        ghost var base := surfaces[0].img;
        var out := FillOwnedRows(surfaces[0].img, owner, id, c, color);
        OwnedFilledAlike(base, out, owner, id, c, color);
        OwnedFilledBeside(base, out, screen, curX, curY, curShown && !hid, owner, id, c, color);
        Settle(0, out, hid);
      }
      OwnedFilledClipped(Img(v, 0), Img(Seen(), 0), owner, id, r, color);
    }

    method BlitPixels(id: int, x: int, y: int, block: Image, key: int)
      requires Valid() && Legal(Pixels(id, x, y, block, key))
      modifies `surfaces, `saved, `screen
      ensures Valid() && Step(Pixels(id, x, y, block, key), old(Seen()), Seen())
    {
      hide Clip, Keyed, OnTop;
      if !LiveAt(surfaces, id) { return; }
      ghost var v := Seen();
      var (ok, c) := Clip(Rect(x, y, block.w, block.h), surfaces[id].img.w, surfaces[id].img.h);
      if !ok {
        KeyedNone(Img(v, id), x, y, block, key);
        return;
      }
      var hid := HideOn(id, c);
      ghost var base := surfaces[id].img;
      var out := KeyedRows(surfaces[id].img, x, y, block, key);
      KeyedAlike(base, out, x, y, block, key);
      if id == 0 { KeyedBeside(base, out, screen, curX, curY, curShown && !hid, c, x, y, block, key); }
      Settle(id, out, hid);
    }

    /** From the screen it copies the framebuffer, arrow and all. */
    method BlitSurface(src: int, s: Rect, dst: int, dx: int, dy: int, scale: int)
      requires Valid()
      modifies `surfaces, `saved, `screen
      ensures Valid()
      ensures if LiveAt(old(surfaces), src) && LiveAt(old(surfaces), dst) && src != dst && scale >= 1 then
                && OnlyAt(old(Seen()), Seen(), dst)
                && Blitted(old(surfaces[src].img), Img(old(Seen()), dst), Img(Seen(), dst), s, dx, dy, scale)
              else Seen() == old(Seen())
      ensures src != 0 ==> Step(Blit(src, s, dst, dx, dy, scale), old(Seen()), Seen())
      ensures src == 0 && LiveAt(old(surfaces), dst) && dst != 0 && scale >= 1 ==>
                (Blitted(old(screen), Img(old(Seen()), dst), Img(Seen(), dst), s, dx, dy, scale)
                 <==> (curShown ==> Unhidden(old(screen), curX, curY, s, Img(old(Seen()), dst).w, Img(old(Seen()), dst).h, dx, dy, scale)))
    {
      hide Clip, Scaled, OnTop, Unhidden;
      if !LiveAt(surfaces, src) || !LiveAt(surfaces, dst) || src == dst || scale < 1 { return; }
      var t := surfaces[src].img;
      var (ok, c) := Clip(s, t.w, t.h);
      ClipFits(s, t.w, t.h);
      ghost var was, before := screen, surfaces[dst].img;
      if !ok {
        if src == 0 { SeenSource(t, was, curX, curY, curShown, saved, before, before, s, dx, dy, scale); }
        return;
      }
      ghost var under := saved;
      var rows := Block(t, c);
      var hid := HideOn(dst, Rect(dx, dy, c.w * scale, c.h * scale));
      ghost var base := surfaces[dst].img;
      var out := ScaledRows(surfaces[dst].img, dx, dy, rows, scale, true);
      ScaledAlike(base, out, dx, dy, rows, scale, c.h * scale);
      if dst == 0 { ScaledBeside(base, out, screen, curX, curY, curShown && !hid, dx, dy, rows, scale, c.w, c.h * scale); }
      Settle(dst, out, hid);
      if src == 0 { SeenSource(t, was, curX, curY, curShown, under, before, out, s, dx, dy, scale); }
    }

    /** gfx_surface_new; `memory` is whether calloc has room. */
    method SurfaceNew(w: nat, h: nat, memory: bool) returns (id: int)
      requires Valid()
      modifies `surfaces
      ensures Valid() && Step(NewSurface(w, h, memory), old(Seen()), Seen())
      ensures id == -1 || (LiveAt(surfaces, id) && !LiveAt(old(surfaces), id))
      ensures id == -1 ==> surfaces == old(surfaces)
    {
      hide OnTop;
      ghost var v := Seen();
      if w == 0 || h == 0 { return -1; }
      id := 1;
      while id < SURFACES
        invariant 1 <= id <= SURFACES && Free(v.layers, id) == Free(v.layers, 1)
      {
        if surfaces[id].None? {
          assert v.layers[id].None?;
          if !memory { return -1; }
          surfaces := surfaces[id := Live(Blank(w, h))];
          return;
        }
        assert v.layers[id].Live?;
        id := id + 1;
      }
      return -1;
    }

    method SurfaceFree(id: int)
      requires Valid()
      modifies `surfaces, `owner
      ensures Valid() && Step(FreeSurface(id), old(Seen()), Seen())
    {
      hide OnTop;
      if id <= 0 || id >= SURFACES || surfaces[id].None? { return; }
      surfaces := surfaces[id := None];
      owner := Disown(owner, id);
    }

    // ---- runs ----

    method Perform(c: Call)
      requires Valid() && Legal(c)
      modifies this
      ensures Valid() && Step(c, old(Seen()), Seen())
      ensures Tip() == Pointed([c], old(Tip()))
    {
      hide Valid, Step;
      PointedOne(c, Tip());
      match c
      case Fill(id, r, color) => FillRect(id, r, color);
      case Bits(id, x, y, bits, w, scale, fg, bg) => BlitBits(id, x, y, bits, w, scale, fg, bg);
      case Copy(id, sx, sy, w, h, dx, dy) => CopyRect(id, sx, sy, w, h, dx, dy);
      case Pixel(x, y, color) => SetPixel(x, y, color);
      case Own(id, r) => OwnRect(id, r);
      case Present(id, s, dx, dy) => PresentRect(id, s, dx, dy);
      case FillOwned(id, r, color) => FillOwnedRect(id, r, color);
      case Pixels(id, x, y, block, key) => BlitPixels(id, x, y, block, key);
      case Blit(src, s, dst, dx, dy, scale) => BlitSurface(src, s, dst, dx, dy, scale);
      case NewSurface(w, h, memory) => var id := SurfaceNew(w, h, memory);
      case FreeSurface(id) => SurfaceFree(id);
      case Pointer(x, y, show) => SetPointer(x, y, show);
    }

    method Run(cs: seq<Call>) returns (ghost vs: seq<View>)
      requires Valid() && forall i :: 0 <= i < |cs| ==> Legal(cs[i])
      modifies this
      ensures Valid() && Steps(cs, vs) && vs[0] == old(Seen()) && vs[|cs|] == Seen()
      ensures Tip() == Pointed(cs, old(Tip()))
    {
      hide Legal, Step, OnTop, Pointed;
      vs := [Seen()];
      ghost var tip := Tip();
      PointedNone(tip);
      var i := 0;
      while i < |cs|
        invariant 0 <= i <= |cs| && Valid()
        invariant |vs| == i + 1 && vs[0] == old(Seen()) && vs[i] == Seen()
        invariant Steps(cs[..i], vs) && Tip() == Pointed(cs[..i], tip)
      {
        PointedNext(cs, i, tip);
        Perform(cs[i]);
        vs := vs + [Seen()];
        i := i + 1;
      }
      assert cs[..i] == cs;
    }
  }

  /** Where the arrow stands, and whether it is shown. */
  datatype Spot = Spot(x: int, y: int, shown: bool)

  /** The last pointer call says so, if there is one. */
  function Pointed(cs: seq<Call>, was: Spot): Spot {
    if cs == [] then was
    else
      var c := cs[|cs| - 1];
      if c.Pointer? then Spot(c.x, c.y, c.show) else Pointed(cs[..|cs| - 1], was)
  }

  lemma PointedNone(was: Spot)
    ensures Pointed([], was) == was
  {}

  lemma PointedOne(c: Call, was: Spot)
    ensures Pointed([c], was) == if c.Pointer? then Spot(c.x, c.y, c.show) else was
  {
    assert [c][..0] == [];
  }

  lemma PointedNext(cs: seq<Call>, i: nat, was: Spot)
    requires i < |cs|
    ensures Pointed(cs[..i + 1], was) == Pointed([cs[i]], Pointed(cs[..i], was))
  {
    assert cs[..i + 1][..i] == cs[..i];
    PointedOne(cs[i], Pointed(cs[..i], was));
  }

  /** A run: each call's rule takes one view to the next. */
  ghost predicate Steps(cs: seq<Call>, vs: seq<View>) {
    && |vs| == |cs| + 1 && WellView(vs[0])
    && forall i :: 0 <= i < |cs| ==> WellView(vs[i]) && Legal(cs[i]) && Step(cs[i], vs[i], vs[i + 1])
  }

  /** The calls that draw: all but the pointer's moves. */
  ghost function Drawings(cs: seq<Call>): seq<Call> {
    if cs == [] then []
    else if cs[|cs| - 1].Pointer? then Drawings(cs[..|cs| - 1])
    else Drawings(cs[..|cs| - 1]) + [cs[|cs| - 1]]
  }

  /** Runs that draw the same leave the same picture, wherever the pointer goes. */
  lemma {:induction false} SamePicture(cs: seq<Call>, vs: seq<View>, ds: seq<Call>, ws: seq<View>)
    requires Steps(cs, vs) && Steps(ds, ws) && vs[0] == ws[0] && Drawings(cs) == Drawings(ds)
    ensures vs[|cs|] == ws[|ds|]
    decreases |cs| + |ds|
  {
    hide Legal, WellView;
    var m, n := |cs|, |ds|;
    if m > 0 && cs[m - 1].Pointer? {
      StepsPrefix(cs, vs);
      SamePicture(cs[..m - 1], vs[..m], ds, ws);
      PointerStep(cs[m - 1], vs[m - 1], vs[m]);
    } else if n > 0 && ds[n - 1].Pointer? {
      StepsPrefix(ds, ws);
      SamePicture(cs, vs, ds[..n - 1], ws[..n]);
      PointerStep(ds[n - 1], ws[n - 1], ws[n]);
    } else if m > 0 && n > 0 {
      hide Step;
      StepsPrefix(cs, vs);
      StepsPrefix(ds, ws);
      assert Drawings(cs) == Drawings(cs[..m - 1]) + [cs[m - 1]];
      assert Drawings(ds) == Drawings(ds[..n - 1]) + [ds[n - 1]];
      SameSnoc(Drawings(cs[..m - 1]), cs[m - 1], Drawings(ds[..n - 1]), ds[n - 1]);
      SamePicture(cs[..m - 1], vs[..m], ds[..n - 1], ws[..n]);
      StepUnique(cs[m - 1], vs[m - 1], vs[m], ws[n]);
    }
  }

  lemma SameSnoc<T>(a: seq<T>, x: T, b: seq<T>, y: T)
    requires a + [x] == b + [y]
    ensures a == b && x == y
  {
    assert |a + [x]| == |b + [y]|;
    assert (a + [x])[|a|] == (b + [y])[|b|];
    assert (a + [x])[..|a|] == a && (b + [y])[..|b|] == b;
  }

  lemma PointerStep(c: Call, v: View, v': View)
    requires WellView(v) && Legal(c) && c.Pointer? && Step(c, v, v')
    ensures v' == v
  {}

  lemma StepsPrefix(cs: seq<Call>, vs: seq<View>)
    requires Steps(cs, vs) && |cs| > 0
    ensures Steps(cs[..|cs| - 1], vs[..|cs|])
  {
    hide Legal, Step, WellView;
  }
}
