/** The window manager's stack of windows and the picture it composes on the screen
    (rootfs/lib/beer/wm.beer:72-104, 144-175, 254-259). */
module Wm {
  import opened Pictures
  import Cursor
  import opened Gfx
  import opened Options

  const DESKTOP := 0x2E3440

  /** plain and lit are the drawing calls of its frame without and with the focus. */
  datatype Window = Window(id: nat, surf: nat, x: int, y: int, w: nat, h: nat, plain: seq<Call>, lit: seq<Call>)

  predicate Covers(w: Window, x: int, y: int) {
    x >= w.x && x < w.x + w.w && y >= w.y && y < w.y + w.h
  }

  // ---- lookups ----

  function Covering(ws: seq<Window>, x: int, y: int): seq<Window> {
    if ws == [] then []
    else (if Covers(ws[0], x, y) then [ws[0]] else []) + Covering(ws[1..], x, y)
  }

  /** window-at: the last of the windows that cover the point. */
  function WindowAt(ws: seq<Window>, x: int, y: int): Option<Window> {
    var c := Covering(ws, x, y);
    if c == [] then Option.None else Some(c[|c| - 1])
  }

  /** The index of the topmost covering window, -1 on the desktop. */
  function Top(ws: seq<Window>, x: int, y: int): (i: int)
    ensures -1 <= i < |ws|
    ensures i >= 0 ==> Covers(ws[i], x, y)
    ensures forall j :: i < j < |ws| ==> !Covers(ws[j], x, y)
  {
    if ws == [] then -1
    else if Covers(ws[|ws| - 1], x, y) then |ws| - 1
    else Top(ws[..|ws| - 1], x, y)
  }

  /** window-at returns the topmost covering window. */
  lemma {:induction false} WindowAtIsTop(ws: seq<Window>, x: int, y: int)
    ensures WindowAt(ws, x, y) == if Top(ws, x, y) >= 0 then Some(ws[Top(ws, x, y)]) else Option.None
  {
    if |ws| > 0 {
      var n := |ws| - 1;
      CoveringSnoc(ws[..n], ws[n], x, y);
      assert ws[..n] + [ws[n]] == ws;
      WindowAtIsTop(ws[..n], x, y);
    }
  }

  lemma CoveringFirst(ws: seq<Window>, x: int, y: int)
    ensures Covering(ws, x, y)
         == if ws == [] then [] else (if Covers(ws[0], x, y) then [ws[0]] else []) + Covering(ws[1..], x, y)
  {}

  lemma {:induction false} CoveringSnoc(ws: seq<Window>, w: Window, x: int, y: int)
    ensures Covering(ws + [w], x, y) == Covering(ws, x, y) + if Covers(w, x, y) then [w] else []
    decreases |ws|
  {
    hide Covering, Covers;
    var all := ws + [w];
    CoveringFirst(all, x, y);
    CoveringFirst(ws, x, y);
    if ws == [] {
      assert all[1..] == [];
      CoveringFirst([], x, y);
    } else {
      assert all[0] == ws[0] && all[1..] == ws[1..] + [w];
      CoveringSnoc(ws[1..], w, x, y);
    }
  }

  /** The index of window id, -1 if there is none. */
  function Find(ws: seq<Window>, id: int): (i: int)
    ensures -1 <= i < |ws|
    ensures i >= 0 ==> ws[i].id == id
    ensures forall j :: 0 <= j < (if i < 0 then |ws| else i) ==> ws[j].id != id
  {
    if ws == [] then -1
    else if ws[0].id == id then 0
    else var i := Find(ws[1..], id); if i < 0 then -1 else i + 1
  }

  /** filter (not= id) */
  function Without(ws: seq<Window>, id: int): (r: seq<Window>)
    ensures |r| <= |ws|
    ensures forall w :: w in r <==> w in ws && w.id != id
  {
    if ws == [] then []
    else (if ws[0].id != id then [ws[0]] else []) + Without(ws[1..], id)
  }

  // ---- the picture ----

  /** Calls that draw on one surface; a window supplies its own. */
  ghost predicate Strokes(cs: seq<Call>) {
    forall c :: c in cs ==> (c.Fill? || c.Bits?) && Legal(c)
  }

  /** What one of those calls makes of a picture. */
  ghost predicate Stroke(c: Call, a: Image, b: Image) {
    && Alike(a, b)
    && match c
       case Fill(_, r, color) => Filled(a, b, r, color)
       case Bits(_, x, y, bits, _, scale, fg, bg) =>
         if scale > 0 then Legal(c) && Scaled(a, b, x, y, Tinted(bits, fg, bg), scale, |bits| * scale) else b == a
       case _ => false
  }

  ghost predicate Chain(calls: seq<Call>, pics: seq<Image>) {
    |pics| == |calls| + 1 && forall k :: 0 <= k < |calls| ==> Stroke(calls[k], pics[k], pics[k + 1])
  }

  /** b is what the calls, one after the other, make of a. */
  ghost predicate Painted(calls: seq<Call>, a: Image, b: Image) {
    exists pics: seq<Image> :: Chain(calls, pics) && pics[0] == a && pics[|calls|] == b
  }

  /** The calls have been drawn on surface s. */
  ghost predicate Repainted(calls: seq<Call>, s: nat, a: seq<Target>, b: seq<Target>) {
    LiveAt(a, s) && LiveAt(b, s) && Painted(calls, a[s].img, b[s].img)
  }

  lemma NothingPainted(a: Image)
    ensures Painted([], a, a)
  {
    assert Chain([], [a]);
  }

  lemma PaintedNext(calls: seq<Call>, k: nat, a: Image, b: Image, c: Image)
    requires k < |calls| && Painted(calls[..k], a, b) && Stroke(calls[k], b, c)
    ensures Painted(calls[..k + 1], a, c)
  {
    hide Stroke;
    var pics :| Chain(calls[..k], pics) && pics[0] == a && pics[k] == b;
    assert Chain(calls[..k + 1], pics + [c]);
  }

  /** The calls determine the picture. */
  lemma PaintedUnique(calls: seq<Call>, a: Image, b: Image, c: Image)
    requires Well(a) && Painted(calls, a, b) && Painted(calls, a, c)
    ensures b == c
  {
    hide Stroke;
    var ps :| Chain(calls, ps) && ps[0] == a && ps[|calls|] == b;
    var qs :| Chain(calls, qs) && qs[0] == a && qs[|calls|] == c;
    SameChain(calls, ps, qs, |calls|);
  }

  lemma {:induction false} SameChain(calls: seq<Call>, ps: seq<Image>, qs: seq<Image>, n: nat)
    requires Chain(calls, ps) && Chain(calls, qs) && n <= |calls| && ps[0] == qs[0] && Well(ps[0])
    ensures ps[n] == qs[n] && Well(ps[n])
  {
    hide Stroke;
    if n > 0 {
      SameChain(calls, ps, qs, n - 1);
      StrokeOnce(calls[n - 1], ps[n - 1], ps[n], qs[n]);
    }
  }

  lemma StrokeOnce(c: Call, a: Image, b: Image, b': Image)
    requires Stroke(c, a, b) && Stroke(c, a, b')
    ensures b == b' && Well(b)
  {
    hide Filled, Scaled;
    match c
    case Fill(_, r, color) => FilledOnce(a, b, b', r, color);
    case Bits(_, x, y, bits, _, scale, fg, bg) =>
      if scale > 0 { ScaledOnce(a, b, b', x, y, Tinted(bits, fg, bg), scale, |bits| * scale); }
    case _ =>
  }

  ghost predicate Framed(w: Window) {
    Strokes(w.plain) && Strokes(w.lit)
  }

  /** Each window has a surface of its own, of its size. */
  ghost predicate Backed(ws: seq<Window>, layers: seq<Target>) {
    forall w :: w in ws ==>
      && w.surf > 0 && LiveAt(layers, w.surf) && Well(layers[w.surf].img)
      && layers[w.surf].img.w == w.w && layers[w.surf].img.h == w.h
  }

  ghost predicate Distinct(ws: seq<Window>) {
    forall i, j :: 0 <= i < j < |ws| ==> ws[i].surf != ws[j].surf && ws[i].id != ws[j].id
  }

  /** The layered picture: the topmost window's own pixel, or the desktop. */
  ghost function Layered(ws: seq<Window>, layers: seq<Target>, x: int, y: int): nat
    requires Backed(ws, layers)
  {
    var i := Top(ws, x, y);
    if i < 0 then DESKTOP else assert ws[i] in ws; layers[ws[i].surf].img.px[y - ws[i].y][x - ws[i].x]
  }

  function TopSurface(ws: seq<Window>, x: int, y: int): nat {
    var i := Top(ws, x, y);
    if i < 0 then 0 else ws[i].surf
  }

  ghost predicate Owned(ws: seq<Window>, own: Image) {
    Well(own) && forall x, y :: 0 <= x < own.w && 0 <= y < own.h ==> own.px[y][x] == TopSurface(ws, x, y)
  }

  /** The screen is the layered picture, and the owner map says which window is where. */
  ghost predicate Composed(ws: seq<Window>, v: View) {
    && WellView(v) && Backed(ws, v.layers) && Owned(ws, v.owner)
    && forall x, y :: 0 <= x < Img(v, 0).w && 0 <= y < Img(v, 0).h ==>
         Img(v, 0).px[y][x] == Layered(ws, v.layers, x, y)
  }

  // ---- the owner map, back to front ----

  lemma TopSnoc(ws: seq<Window>, k: nat, x: int, y: int)
    requires k < |ws|
    ensures Top(ws[..k + 1], x, y) == if Covers(ws[k], x, y) then k else Top(ws[..k], x, y)
  {
    assert ws[..k + 1][..k] == ws[..k];
  }

  lemma OwnedNext(ws: seq<Window>, k: nat, own: Image, own': Image)
    requires k < |ws| && Owned(ws[..k], own)
    requires Filled(own, own', Rect(ws[k].x, ws[k].y, ws[k].w, ws[k].h), ws[k].surf)
    ensures Owned(ws[..k + 1], own')
  {
    forall x, y | 0 <= x < own.w && 0 <= y < own.h ensures own'.px[y][x] == TopSurface(ws[..k + 1], x, y) {
      TopSnoc(ws, k, x, y);
    }
  }

  // ---- presenting the windows in turn ----

  /** The picture when the first k windows have been presented over `was`. */
  ghost predicate Presenting(ws: seq<Window>, k: nat, was: Image, v: View) {
    && WellView(v) && Backed(ws, v.layers) && Owned(ws, v.owner) && Alike(was, Img(v, 0))
    && forall x, y :: 0 <= x < was.w && 0 <= y < was.h ==>
         Img(v, 0).px[y][x] == if Top(ws, x, y) < k then Layered(ws, v.layers, x, y) else was.px[y][x]
  }

  lemma PresentNext(ws: seq<Window>, k: nat, was: Image, v: View, v': View)
    requires k < |ws| && Distinct(ws) && Presenting(ws, k, was, v)
    requires WellView(v') && Step(Call.Present(ws[k].surf, Rect(0, 0, ws[k].w, ws[k].h), ws[k].x, ws[k].y), v, v')
    ensures Presenting(ws, k + 1, was, v')
  {
    hide Top;
    var w := ws[k];
    assert w in ws;
    forall x, y | 0 <= x < was.w && 0 <= y < was.h
      ensures Img(v', 0).px[y][x] == if Top(ws, x, y) < k + 1 then Layered(ws, v'.layers, x, y) else was.px[y][x]
    {
      var i := Top(ws, x, y);
      LayeredSame(ws, v.layers, v'.layers, x, y);
      if i >= 0 { assert ws[i] in ws; }
    }
  }

  lemma LayeredSame(ws: seq<Window>, a: seq<Target>, b: seq<Target>, x: int, y: int)
    requires Backed(ws, a) && |a| == |b| && forall s :: 0 < s < |a| ==> b[s] == a[s]
    ensures Backed(ws, b) && Layered(ws, b, x, y) == Layered(ws, a, x, y)
  {
    hide Top;
    var i := Top(ws, x, y);
    if i >= 0 { assert ws[i] in ws; }
  }

  lemma PresentedAll(ws: seq<Window>, was: Image, v: View)
    requires Presenting(ws, |ws|, was, v)
    ensures Composed(ws, v)
  {
    hide Top, Layered;
  }

  /** A window that has drawn on its surface and presents it restores the layered picture. */
  lemma RedrawnComposed(ws: seq<Window>, w: Window, v: View, v1: View, v2: View)
    requires Composed(ws, v) && Distinct(ws) && w in ws
    requires WellView(v1) && OnlyAt(v, v1, w.surf) && Alike(Img(v, w.surf), Img(v1, w.surf))
    requires WellView(v2) && Step(Call.Present(w.surf, Rect(0, 0, w.w, w.h), w.x, w.y), v1, v2)
    ensures Composed(ws, v2)
  {
    hide Top;
    var k :| 0 <= k < |ws| && ws[k] == w;
    forall x, y | 0 <= x < Img(v, 0).w && 0 <= y < Img(v, 0).h
      ensures Img(v2, 0).px[y][x] == Layered(ws, v2.layers, x, y)
    {
      var i := Top(ws, x, y);
      LayeredSame(ws, v1.layers, v2.layers, x, y);
      if i >= 0 { assert ws[i] in ws; }
    }
  }

  // ---- raising, closing and moving a window ----

  lemma {:induction false} WithoutSnoc(ws: seq<Window>, w: Window, id: int)
    ensures Without(ws + [w], id) == Without(ws, id) + if w.id != id then [w] else []
  {
    if ws == [] {
      assert ws + [w] == [w];
    } else {
      assert (ws + [w])[0] == ws[0] && (ws + [w])[1..] == ws[1..] + [w];
      WithoutSnoc(ws[1..], w, id);
    }
  }

  /** Taking a window away uncovers nothing where it was not on top. */
  lemma {:induction false} WindowAtWithout(ws: seq<Window>, id: int, x: int, y: int)
    requires WindowAt(ws, x, y).Some? ==> WindowAt(ws, x, y).value.id != id
    ensures WindowAt(Without(ws, id), x, y) == WindowAt(ws, x, y)
  {
    hide Covers, Covering, Without;
    if ws == [] {
      NothingCovered(id, x, y);
    } else {
      var n := |ws| - 1;
      assert ws[..n] + [ws[n]] == ws;
      CoveringSnoc(ws[..n], ws[n], x, y);
      WithoutSnoc(ws[..n], ws[n], id);
      if !Covers(ws[n], x, y) {
        assert Covering(ws, x, y) == Covering(ws[..n], x, y);
        WindowAtWithout(ws[..n], id, x, y);
      }
      if ws[n].id != id {
        CoveringSnoc(Without(ws[..n], id), ws[n], x, y);
      } else {
        assert Without(ws, id) == Without(ws[..n], id);
      }
    }
  }

  lemma NothingCovered(id: int, x: int, y: int)
    ensures WindowAt(Without([], id), x, y) == WindowAt([], x, y)
  {}

  /** After a raise the window shows wherever it is; elsewhere nothing changes. */
  lemma RaisedOnTop(ws: seq<Window>, w: Window, x: int, y: int)
    requires w in ws && Distinct(ws)
    ensures WindowAt(Without(ws, w.id) + [w], x, y) == if Covers(w, x, y) then Some(w) else WindowAt(ws, x, y)
  {
    hide Top, Without;
    CoveringSnoc(Without(ws, w.id), w, x, y);
    if !Covers(w, x, y) {
      WindowAtIsTop(ws, x, y);
      var i := Top(ws, x, y);
      if i >= 0 {
        var k :| 0 <= k < |ws| && ws[k] == w;
        assert Covers(ws[i], x, y) && i != k;
      }
      WindowAtWithout(ws, w.id, x, y);
    }
  }

  lemma {:induction false} WithoutDistinct(ws: seq<Window>, id: int)
    requires Distinct(ws)
    ensures Distinct(Without(ws, id))
  {
    if ws != [] {
      WithoutDistinct(ws[1..], id);
      var r := Without(ws[1..], id);
      forall j | 0 <= j < |r| ensures ws[0].surf != r[j].surf && ws[0].id != r[j].id {
        assert r[j] in ws[1..];
      }
    }
  }

  lemma RaisedDistinct(ws: seq<Window>, w: Window)
    requires w in ws && Distinct(ws)
    ensures Distinct(Without(ws, w.id) + [w])
  {
    WithoutDistinct(ws, w.id);
    var r := Without(ws, w.id);
    var k :| 0 <= k < |ws| && ws[k] == w;
    forall j | 0 <= j < |r| ensures r[j].surf != w.surf && r[j].id != w.id {
      assert r[j] in ws;
    }
  }

  function Moved(ws: seq<Window>, id: int, x: int, y: int): (r: seq<Window>)
    ensures |r| == |ws|
    ensures forall i :: 0 <= i < |ws| ==> r[i] == if ws[i].id == id then ws[i].(x := x, y := y) else ws[i]
  {
    seq(|ws|, i requires 0 <= i < |ws| => if ws[i].id == id then ws[i].(x := x, y := y) else ws[i])
  }

  // ---- the manager ----

  class Manager {
    const gfx: Screen
    var windows: seq<Window>
    var focus: Option<nat>
    var next: nat

    ghost predicate Valid()
      reads this, gfx
    {
      && gfx.Valid() && Backed(windows, gfx.Layers()) && Distinct(windows)
      && forall w :: w in windows ==> Framed(w) && w.id < next
    }

    constructor (g: Screen)
      requires g.Valid()
      ensures Valid() && gfx == g && windows == [] && focus == Option.None
    {
      gfx := g;
      windows, focus, next := [], Option.None, 1;
    }

    /** Draw on one window's surface. */
    method DrawOn(surf: nat, calls: seq<Call>)
      requires gfx.Valid() && surf > 0 && LiveAt(gfx.surfaces, surf) && Strokes(calls)
      modifies gfx`surfaces, gfx`saved, gfx`screen
      ensures gfx.Valid() && OnlyAt(old(gfx.Seen()), gfx.Seen(), surf)
      ensures Alike(Img(old(gfx.Seen()), surf), Img(gfx.Seen(), surf))
      ensures Painted(calls, Img(old(gfx.Seen()), surf), Img(gfx.Seen(), surf))
    {
      hide Painted, Cursor.OnTop;
      var i := 0;
      ghost var a := Img(gfx.Seen(), surf);
      NothingPainted(a);
      assert calls[..0] == [];
      while i < |calls|
        invariant 0 <= i <= |calls| && gfx.Valid() && OnlyAt(old(gfx.Seen()), gfx.Seen(), surf)
        invariant Alike(a, Img(gfx.Seen(), surf)) && Painted(calls[..i], a, Img(gfx.Seen(), surf))
      {
        assert calls[i] in calls;
        ghost var b := Img(gfx.Seen(), surf);
        match calls[i] {
          case Fill(_, r, color) => gfx.FillRect(surf, r, color);
          case Bits(_, x, y, bits, w, scale, fg, bg) => gfx.BlitBits(surf, x, y, bits, w, scale, fg, bg);
        }
        PaintedNext(calls, i, a, b, Img(gfx.Seen(), surf));
        i := i + 1;
      }
      assert calls[..i] == calls;
    }

    method PresentWindow(w: Window)
      requires gfx.Valid()
      modifies gfx`surfaces, gfx`saved, gfx`screen
      ensures gfx.Valid()
      ensures Step(Call.Present(w.surf, Rect(0, 0, w.w, w.h), w.x, w.y), old(gfx.Seen()), gfx.Seen())
    {
      gfx.PresentRect(w.surf, Rect(0, 0, w.w, w.h), w.x, w.y);
    }

    /** The owner map, back to front. */
    method OwnAll()
      requires Valid()
      modifies gfx`owner
      ensures Valid() && Owned(windows, gfx.owner)
    {
      hide Filled, Cursor.OnTop, TopSurface;
      gfx.OwnRect(0, Rect(0, 0, gfx.gw, gfx.gh));
      OwnedNone(old(gfx.owner), gfx.owner);
      var i := 0;
      assert windows[..i] == [];
      while i < |windows|
        invariant 0 <= i <= |windows| && Valid()
        invariant Owned(windows[..i], gfx.owner)
      {
        var w := windows[i];
        ghost var own := gfx.owner;
        gfx.OwnRect(w.surf, Rect(w.x, w.y, w.w, w.h));
        OwnedNext(windows, i, own, gfx.owner);
        i := i + 1;
      }
      assert windows[..i] == windows;
    }

    method PresentAll()
      requires Valid() && Presenting(windows, 0, gfx.screen, gfx.Seen())
      modifies gfx`surfaces, gfx`saved, gfx`screen
      ensures Valid() && Composed(windows, gfx.Seen())
      ensures SameBehind(old(gfx.Layers()), gfx.Layers())
    {
      hide Cursor.OnTop, Presenting, Composed, Presented, Distinct, Owned, Framed;
      ghost var was := gfx.screen;
      var i := 0;
      while i < |windows|
        invariant 0 <= i <= |windows| && gfx.Valid() && Presenting(windows, i, was, gfx.Seen())
        invariant SameBehind(old(gfx.Layers()), gfx.Layers())
      {
        ghost var v := gfx.Seen();
        PresentWindow(windows[i]);
        PresentNext(windows, i, was, v, gfx.Seen());
        i := i + 1;
      }
      PresentedAll(windows, was, gfx.Seen());
    }

    method Restack()
      requires Valid()
      modifies gfx`surfaces, gfx`saved, gfx`screen, gfx`owner
      ensures Valid() && Composed(windows, gfx.Seen())
      ensures SameBehind(old(gfx.Layers()), gfx.Layers())
    {
      hide Cursor.OnTop, Composed, OwnedFilled, Distinct, Owned, Framed;
      OwnAll();
      ghost var v := gfx.Seen();
      gfx.FillOwnedRect(0, Rect(0, 0, gfx.gw, gfx.gh), DESKTOP);
      DesktopFilled(windows, v, gfx.Seen());
      PresentAll();
    }

    /** A window draws on its surface and presents it. */
    method Redraw(i: nat, calls: seq<Call>)
      requires Valid() && i < |windows| && Strokes(calls) && Composed(windows, gfx.Seen())
      modifies gfx`surfaces, gfx`saved, gfx`screen
      ensures Valid() && Composed(windows, gfx.Seen())
      ensures OthersKept({windows[i].surf}, old(gfx.Layers()), gfx.Layers())
      ensures Repainted(calls, windows[i].surf, old(gfx.Layers()), gfx.Layers())
    {
      hide Cursor.OnTop, Composed, Presented, Distinct, Framed, Strokes, Painted;
      var w := windows[i];
      ghost var v := gfx.Seen();
      assert w in windows;
      DrawOn(w.surf, calls);
      ghost var v1 := gfx.Seen();
      BackedDrawn(windows, v.layers, v1.layers, w.surf);
      PresentWindow(w);
      RedrawnComposed(windows, w, v, v1, gfx.Seen());
      BackedBehind(windows, v1.layers, gfx.Layers());
    }

    /** draw-frame! */
    method DrawFrame(w: Window, lit: bool)
      requires Valid() && w in windows
      modifies gfx`surfaces, gfx`saved, gfx`screen
      ensures Valid() && OnlyAt(old(gfx.Seen()), gfx.Seen(), w.surf)
      ensures Repainted(if lit then w.lit else w.plain, w.surf, old(gfx.Layers()), gfx.Layers())
    {
      hide Cursor.OnTop, Distinct, Strokes, Painted;
      ghost var v := gfx.Seen();
      DrawOn(w.surf, if lit then w.lit else w.plain);
      BackedDrawn(windows, v.layers, gfx.Layers(), w.surf);
    }

    method Focus(id: nat)
      requires Valid()
      modifies `windows, `focus, gfx`surfaces, gfx`saved, gfx`screen, gfx`owner
      ensures Valid()
      ensures var i := Find(old(windows), id);
              if i < 0 then windows == old(windows) && focus == old(focus) && gfx.Seen() == old(gfx.Seen())
              else
                && windows == Without(old(windows), id) + [old(windows)[i]] && focus == Some(id)
                && Composed(windows, gfx.Seen())
                && OthersKept(Marks(old(windows)[i], old(focus), old(windows)), old(gfx.Layers()), gfx.Layers())
                && Highlighted(old(windows), i, old(focus), old(gfx.Layers()), gfx.Layers())
    {
      hide Cursor.OnTop, Composed, Strokes, Distinct, Framed, Backed, Find, Without, Top, Covers, Painted;
      ghost var v := gfx.Seen();
      var i := Find(windows, id);
      if i < 0 { return; }
      var w := windows[i];
      var o := if focus.Some? then Find(windows, focus.value) else -1;
      var before := windows;
      RaisedValid(windows, w, gfx.Layers());
      windows, focus := Without(windows, id) + [w], Some(id);
      if o >= 0 && before[o].id != id {
        assert before[o] in windows;
        DrawFrame(before[o], false);
      }
      ghost var v1 := gfx.Layers();
      DrawFrame(w, true);
      ghost var v2 := gfx.Layers();
      Restack();
      HighlightedFrom(before, i, o, v.layers, v1, v2, gfx.Layers());
    }

    /** The end of close!: the topmost window gets a focus that is gone. */
    method Reseat()
      requires Valid()
      modifies `windows, `focus, gfx`surfaces, gfx`saved, gfx`screen, gfx`owner
      ensures Valid() && windows == old(windows) && Composed(windows, gfx.Seen())
      ensures focus == if old(focus).Some? || windows == [] then old(focus) else Some(windows[|windows| - 1].id)
      ensures Reseated(windows, old(focus), old(gfx.Layers()), gfx.Layers())
    {
      hide Cursor.OnTop, Composed, Strokes, Distinct, Framed, Backed, Painted;
      if windows != [] && focus.None? {
        RaiseLast(windows);
        Focus(windows[|windows| - 1].id);
      } else {
        Restack();
      }
    }

    method Close(id: nat)
      requires Valid()
      modifies `windows, `focus, gfx`surfaces, gfx`saved, gfx`screen, gfx`owner
      ensures Valid()
      ensures var i := Find(old(windows), id);
              if i < 0 then windows == old(windows) && focus == old(focus) && gfx.Seen() == old(gfx.Seen())
              else
                && windows == Without(old(windows), id) && Composed(windows, gfx.Seen())
                && Closed(old(windows)[i].surf, windows, if old(focus) == Some(id) then Option.None else old(focus),
                          old(gfx.Layers()), gfx.Layers())
                && focus == (if old(focus).Some? && old(focus) != Some(id) then old(focus)
                             else if windows == [] then Option.None else Some(windows[|windows| - 1].id))
    {
      hide Cursor.OnTop, Composed, Strokes, Distinct, Framed, Backed, Disowned, Find, Without, Painted, Repainted;
      var i := Find(windows, id);
      if i < 0 { return; }
      var w := windows[i];
      ghost var v := gfx.Seen();
      assert w in windows;
      ClosedValid(windows, w, v.layers);
      windows := Without(windows, id);
      focus := if focus != Some(id) then focus else Option.None;
      gfx.SurfaceFree(w.surf);
      ghost var v1 := gfx.Layers();
      assert v1 == v.layers[w.surf := Target.None];
      Reseat();
      ClosedFrom(w.surf, windows, if old(focus) == Some(id) then Option.None else old(focus), v.layers, v1, gfx.Layers());
    }

    method Move(id: nat, x: int, y: int)
      requires Valid()
      modifies `windows
      ensures Valid() && windows == Moved(old(windows), id, x, y)
    {
      MovedValid(windows, id, x, y, gfx.Layers());
      windows := Moved(windows, id, x, y);
    }

    /** drag-to! */
    method DragTo(id: nat, x: int, y: int)
      requires Valid()
      modifies `windows, gfx`surfaces, gfx`saved, gfx`screen, gfx`owner
      ensures Valid() && windows == Moved(old(windows), id, x, y) && Composed(windows, gfx.Seen())
      ensures SameBehind(old(gfx.Layers()), gfx.Layers())
    {
      hide Cursor.OnTop, Composed, Distinct, Framed, Backed;
      Move(id, x, y);
      Restack();
    }

    /** open!, up to the terminal it starts; -1 when no surface is free. */
    method Open(w: nat, h: nat, wantX: int, wantY: int, plain: seq<Call>, lit: seq<Call>, memory: bool) returns (id: int)
      requires Valid() && Strokes(plain) && Strokes(lit)
      modifies `windows, `focus, `next, gfx`surfaces, gfx`saved, gfx`screen, gfx`owner
      ensures Valid()
      ensures id < 0 <==> w == 0 || h == 0 || !memory || Free(old(gfx.Layers()), 1) == SURFACES
      ensures if id < 0 then
                id == -1 && windows == old(windows) && focus == old(focus) && next == old(next) && gfx.Seen() == old(gfx.Seen())
              else
                && |windows| == |old(windows)| + 1 && windows[..|windows| - 1] == old(windows)
                && windows[|windows| - 1].id == id == old(next) && next == old(next) + 1 && focus == Some(id as nat)
                && Placed(windows[|windows| - 1], Clamped(wantX, gfx.gw - w), Clamped(wantY, gfx.gh - h), w, h, plain, lit)
                && Composed(windows, gfx.Seen())
                && Unveiled(old(windows), windows[|windows| - 1], old(focus), old(gfx.Layers()), gfx.Layers())
    {
      hide Cursor.OnTop, Composed, Strokes, Distinct, Backed, Find, Without, Free, Painted, Repainted, Unveiled, Highlighted;
      ghost var v := gfx.Seen();
      var x := Clamped(wantX, gfx.gw - w);
      var y := Clamped(wantY, gfx.gh - h);
      var s := gfx.SurfaceNew(w, h, memory);
      if s < 0 { return -1; }
      var win := Window(next, s, x, y, w, h, plain, lit);
      OpenedValid(windows, win, v.layers, gfx.Layers());
      RaiseLast(windows + [win]);
      id := next;
      ghost var v1 := gfx.Layers();
      next, windows := next + 1, windows + [win];
      Focus(id);
      UnveiledFrom(old(windows), win, old(focus), v.layers, v1, gfx.Layers());
    }

    method Perform(wish: Wish)
      requires Valid() && Composed(windows, gfx.Seen()) && Fair(wish)
      modifies `windows, `focus, `next, gfx`surfaces, gfx`saved, gfx`screen, gfx`owner
      ensures Valid() && Composed(windows, gfx.Seen())
      ensures Granted(wish, gfx.gw, gfx.gh, old(MostWindows(windows, gfx.Layers())), old(Desk(windows, focus, next)), Desk(windows, focus, next))
      ensures Displayed(wish, old(Desk(windows, focus, next)), Desk(windows, focus, next), old(gfx.Layers()), gfx.Layers())
      ensures MostWindows(windows, gfx.Layers()) == old(MostWindows(windows, gfx.Layers()))
    {
      hide Cursor.OnTop, Composed, Strokes, Distinct, Backed, Framed, Find, Without, Placed, Clamped, Marks, Surfaces, Free, MostWindows, OthersKept, Moved,
           Closed, Unveiled, Highlighted, Repainted;
      ghost var ws, layers := windows, gfx.Layers();
      RoomFull(ws, layers);
      match wish {
        case Opening(w, h, x, y, plain, lit, memory) =>
          var id := Open(w, h, x, y, plain, lit, memory);
          if id >= 0 { OpenedRoom(ws, windows, old(focus), layers, gfx.Layers()); }
        case Closing(id) =>
          Close(id);
          if Find(ws, id) >= 0 { ClosedRoom(ws, id, if old(focus) == Some(id) then Option.None else old(focus), layers, gfx.Layers()); }
        case Focusing(id) =>
          Focus(id);
          if Find(ws, id) >= 0 { FocusedRoom(ws, ws[Find(ws, id)], old(focus), layers, gfx.Layers()); }
        case Dragging(id, x, y) =>
          DragTo(id, x, y);
          MovedRoom(ws, id, x, y, layers, gfx.Layers());
        case Drawing(id, calls) =>
          var i := Find(windows, id);
          if i >= 0 {
            Redraw(i, calls);
            DrawnRoom(ws, i, layers, gfx.Layers());
          }
      }
    }

    /** Any sequence of them: the screen stays the layered picture, each changes the windows
        and their surfaces as it should, and the focus is always on the topmost window. */
    method Run(wishes: seq<Wish>) returns (ghost desks: seq<Desk>, ghost pics: seq<seq<Target>>)
      requires Valid() && Composed(windows, gfx.Seen()) && TopFocused(Desk(windows, focus, next))
      requires forall k :: 0 <= k < |wishes| ==> Fair(wishes[k])
      modifies `windows, `focus, `next, gfx`surfaces, gfx`saved, gfx`screen, gfx`owner
      ensures Valid() && Composed(windows, gfx.Seen()) && TopFocused(Desk(windows, focus, next))
      ensures |desks| == |wishes| + 1 && desks[0] == old(Desk(windows, focus, next)) && desks[|wishes|] == Desk(windows, focus, next)
      ensures |pics| == |wishes| + 1 && pics[0] == old(gfx.Layers()) && pics[|wishes|] == gfx.Layers()
      ensures forall k :: 0 <= k < |wishes| ==>
        && Granted(wishes[k], gfx.gw, gfx.gh, old(MostWindows(windows, gfx.Layers())), desks[k], desks[k + 1]) && TopFocused(desks[k])
        && Displayed(wishes[k], desks[k], desks[k + 1], pics[k], pics[k + 1])
    {
      hide Cursor.OnTop, Composed, Granted, TopFocused, Fair, Backed, Distinct, Framed, MostWindows, Displayed;
      ghost var room := MostWindows(windows, gfx.Layers());
      desks, pics := [Desk(windows, focus, next)], [gfx.Layers()];
      var i := 0;
      while i < |wishes|
        invariant 0 <= i <= |wishes| && Valid() && Composed(windows, gfx.Seen()) && TopFocused(Desk(windows, focus, next))
        invariant |desks| == i + 1 && desks[0] == old(Desk(windows, focus, next)) && desks[i] == Desk(windows, focus, next)
        invariant |pics| == i + 1 && pics[0] == old(gfx.Layers()) && pics[i] == gfx.Layers()
        invariant MostWindows(windows, gfx.Layers()) == room
        invariant forall k :: 0 <= k < i ==>
          && Granted(wishes[k], gfx.gw, gfx.gh, room, desks[k], desks[k + 1]) && TopFocused(desks[k])
          && Displayed(wishes[k], desks[k], desks[k + 1], pics[k], pics[k + 1])
      {
        ghost var before := Desk(windows, focus, next);
        Perform(wishes[i]);
        FocusStaysOnTop(wishes[i], gfx.gw, gfx.gh, room, before, Desk(windows, focus, next));
        desks, pics := desks + [Desk(windows, focus, next)], pics + [gfx.Layers()];
        i := i + 1;
      }
    }
  }

  // ---- runs ----

  datatype Wish =
    | Opening(w: nat, h: nat, x: int, y: int, plain: seq<Call>, lit: seq<Call>, memory: bool)
    | Closing(id: nat)
    | Focusing(id: nat)
    | Dragging(id: nat, x: int, y: int)
    | Drawing(id: nat, calls: seq<Call>)

  datatype Desk = Desk(windows: seq<Window>, focus: Option<nat>, next: nat)

  ghost predicate Fair(wish: Wish) {
    match wish
    case Opening(_, _, _, _, plain, lit, _) => Strokes(plain) && Strokes(lit)
    case Drawing(_, calls) => Strokes(calls)
    case _ => true
  }

  ghost predicate Placed(w: Window, x: int, y: int, width: nat, height: nat, plain: seq<Call>, lit: seq<Call>) {
    w.x == x && w.y == y && w.w == width && w.h == height && w.plain == plain && w.lit == lit
  }

  /** What each wish does to the windows and the focus, where `room` windows find a
      surface. */
  ghost predicate Granted(wish: Wish, gw: nat, gh: nat, room: int, d: Desk, d': Desk) {
    match wish
    case Opening(w, h, x, y, plain, lit, memory) =>
      if w == 0 || h == 0 || !memory || |d.windows| == room then d' == d
      else
        && |d'.windows| == |d.windows| + 1 && d'.windows[..|d.windows|] == d.windows
        && d'.windows[|d.windows|].id == d.next && d'.next == d.next + 1 && d'.focus == Some(d.next)
        && Placed(d'.windows[|d.windows|], Clamped(x, gw - w), Clamped(y, gh - h), w, h, plain, lit)
    case Closing(id) =>
      d' == if Find(d.windows, id) < 0 then d
            else
              var ws := Without(d.windows, id);
              Desk(ws, if d.focus.Some? && d.focus != Some(id) then d.focus
                       else if ws == [] then Option.None else Some(ws[|ws| - 1].id), d.next)
    case Focusing(id) =>
      var i := Find(d.windows, id);
      d' == if i < 0 then d else Desk(Without(d.windows, id) + [d.windows[i]], Some(id), d.next)
    case Dragging(id, x, y) => d' == d.(windows := Moved(d.windows, id, x, y))
    case Drawing(_, _) => d' == d
  }

  /** What each wish does to the pictures behind the screen. */
  ghost predicate Displayed(wish: Wish, d: Desk, d': Desk, a: seq<Target>, b: seq<Target>) {
    match wish
    case Opening(_, _, _, _, _, _, _) =>
      if d'.next == d.next then SameBehind(a, b)
      else d'.windows != [] && Unveiled(d.windows, d'.windows[|d'.windows| - 1], d.focus, a, b)
    case Closing(id) =>
      var i := Find(d.windows, id);
      if i < 0 then SameBehind(a, b)
      else Closed(d.windows[i].surf, Without(d.windows, id), if d.focus == Some(id) then Option.None else d.focus, a, b)
    case Focusing(id) =>
      var i := Find(d.windows, id);
      if i < 0 then SameBehind(a, b)
      else Highlighted(d.windows, i, d.focus, a, b) && OthersKept(Marks(d.windows[i], d.focus, d.windows), a, b)
    case Dragging(_, _, _) => SameBehind(a, b)
    case Drawing(id, calls) =>
      var i := Find(d.windows, id);
      if i < 0 then SameBehind(a, b)
      else Repainted(calls, d.windows[i].surf, a, b) && OthersKept({d.windows[i].surf}, a, b)
  }

  /** The topmost window has the focus. */
  predicate TopFocused(d: Desk) {
    d.focus == if d.windows == [] then Option.None else Some(d.windows[|d.windows| - 1].id)
  }

  lemma FocusStaysOnTop(wish: Wish, gw: nat, gh: nat, room: int, d: Desk, d': Desk)
    requires TopFocused(d) && Granted(wish, gw, gh, room, d, d')
    ensures TopFocused(d')
  {
    hide Find, Without, Clamped, Placed;
    if wish.Closing? && d.windows != [] && Find(d.windows, wish.id) >= 0 && d.focus != Some(wish.id) {
      var n := |d.windows| - 1;
      assert d.windows[..n] + [d.windows[n]] == d.windows;
      WithoutSnoc(d.windows[..n], d.windows[n], wish.id);
    }
  }

  function Clamped(want: int, room: int): int {
    var a := if want < room then want else room;
    if a > 0 then a else 0
  }

  /** A new window is where it was asked for, or as near to it as it is whole on the screen;
      one that is too large starts at the edge. */
  lemma OnScreen(want: int, size: nat, screen: nat)
    ensures var at := Clamped(want, screen - size);
            if size > screen then at == 0
            else
              && 0 <= at && at + size <= screen
              && forall other: int :: 0 <= other && other + size <= screen ==> Far(want, at) <= Far(want, other)
  {}

  function Far(a: int, b: int): nat { if a < b then b - a else a - b }

  ghost function Surfaces(ws: seq<Window>): set<nat> {
    set w | w in ws :: w.surf
  }

  /** The surfaces that a focus change may draw on. */
  ghost function Marks(w: Window, focus: Option<nat>, ws: seq<Window>): set<nat> {
    var o := if focus.Some? then Find(ws, focus.value) else -1;
    {w.surf} + if o >= 0 then {ws[o].surf} else {}
  }

  /** The frames after a focus change: window i's lit, that of the window that had the focus
      plain. */
  ghost predicate Highlighted(ws: seq<Window>, i: nat, focus: Option<nat>, a: seq<Target>, b: seq<Target>)
    requires i < |ws|
  {
    && Repainted(ws[i].lit, ws[i].surf, a, b)
    && var o := if focus.Some? then Find(ws, focus.value) else -1;
       (o >= 0 && o != i ==> Repainted(ws[o].plain, ws[o].surf, a, b))
  }

  /** The surfaces once the topmost window has got the focus, if no window had it. */
  ghost predicate Reseated(ws: seq<Window>, focus: Option<nat>, a: seq<Target>, b: seq<Target>) {
    if ws != [] && focus.None? then
      var w := ws[|ws| - 1];
      Repainted(w.lit, w.surf, a, b) && OthersKept({w.surf}, a, b)
    else SameBehind(a, b)
  }

  /** The same, and surface s is free. */
  ghost predicate Closed(s: nat, ws: seq<Window>, focus: Option<nat>, a: seq<Target>, b: seq<Target>) {
    && s < |b| && b[s] == Target.None
    && if ws != [] && focus.None? then
         var w := ws[|ws| - 1];
         Repainted(w.lit, w.surf, a, b) && OthersKept({s, w.surf}, a, b)
       else OthersKept({s}, a, b)
  }

  lemma ClosedFrom(s: nat, ws: seq<Window>, focus: Option<nat>, a: seq<Target>, a1: seq<Target>, b: seq<Target>)
    requires 0 < s < |a| && a1 == a[s := Target.None] && s !in Surfaces(ws) && Reseated(ws, focus, a1, b)
    ensures Closed(s, ws, focus, a, b)
  {
    hide Painted;
    if ws != [] { assert ws[|ws| - 1] in ws; }
  }

  /** The surfaces after open!: the new window's has its lit frame on a blank picture, that of
      the window that had the focus its plain one. */
  ghost predicate Unveiled(ws: seq<Window>, w: Window, focus: Option<nat>, a: seq<Target>, b: seq<Target>) {
    && !LiveAt(a, w.surf) && LiveAt(b, w.surf) && Painted(w.lit, Blank(w.w, w.h), b[w.surf].img)
    && var o := if focus.Some? then Find(ws, focus.value) else -1;
       if o >= 0 then Repainted(ws[o].plain, ws[o].surf, a, b) && OthersKept({w.surf, ws[o].surf}, a, b)
       else OthersKept({w.surf}, a, b)
  }

  lemma UnveiledFrom(ws: seq<Window>, w: Window, focus: Option<nat>, a: seq<Target>, a1: seq<Target>, b: seq<Target>)
    requires Distinct(ws + [w]) && Backed(ws, a) && 0 < w.surf < |a| && !LiveAt(a, w.surf)
    requires a1 == a[w.surf := Target.Live(Blank(w.w, w.h))]
    requires Highlighted(ws + [w], |ws|, focus, a1, b) && OthersKept(Marks(w, focus, ws + [w]), a1, b)
    ensures Unveiled(ws, w, focus, a, b)
  {
    hide Painted, Find;
    LastAlone(ws + [w]);
    assert (ws + [w])[..|ws|] == ws;
    if focus.Some? && focus.value != w.id { FindFirst(ws, w, focus.value); }
    var o := if focus.Some? then Find(ws, focus.value) else -1;
    if o >= 0 { assert ws[o] in ws && (ws + [w])[o] == ws[o]; }
  }

  lemma {:induction false} FindFirst(ws: seq<Window>, w: Window, id: int)
    requires w.id != id
    ensures Find(ws + [w], id) == Find(ws, id)
  {
    if ws == [] {
      assert [] + [w] == [w] && [w][1..] == [];
    } else {
      assert (ws + [w])[0] == ws[0] && (ws + [w])[1..] == ws[1..] + [w];
      FindFirst(ws[1..], w, id);
    }
  }

  lemma HighlightedFrom(ws: seq<Window>, i: nat, o: int, a: seq<Target>, a1: seq<Target>, a2: seq<Target>, b: seq<Target>)
    requires i < |ws| && -1 <= o < |ws| && Distinct(ws) && Backed(ws, a) && |a1| == |a| && |a2| == |a1|
    requires if o >= 0 && o != i then Repainted(ws[o].plain, ws[o].surf, a, a1) && a1 == a[ws[o].surf := a1[ws[o].surf]] else a1 == a
    requires Repainted(ws[i].lit, ws[i].surf, a1, a2) && a2 == a1[ws[i].surf := a2[ws[i].surf]] && SameBehind(a2, b)
    ensures Repainted(ws[i].lit, ws[i].surf, a, b)
    ensures o >= 0 && o != i ==> Repainted(ws[o].plain, ws[o].surf, a, b)
  {
    hide Painted;
    assert ws[i] in ws;
    if o >= 0 && o != i {
      assert ws[o] in ws && ws[o].surf != ws[i].surf;
    }
  }

  ghost predicate OthersKept(marks: set<nat>, a: seq<Target>, b: seq<Target>) {
    |a| == |b| && forall k: nat :: 0 < k < |a| && k !in marks ==> b[k] == a[k]
  }

  /** Surfaces that no window has. */
  ghost function Strangers(ws: seq<Window>, layers: seq<Target>): set<nat> {
    set k | 0 < k < |layers| && layers[k].Live? && k !in Surfaces(ws)
  }

  /** How many windows can be open at a time. */
  ghost function MostWindows(ws: seq<Window>, layers: seq<Target>): int {
    SURFACES - 1 - |Strangers(ws, layers)|
  }

  lemma LastSurface(ws: seq<Window>)
    requires ws != [] && Distinct(ws)
    ensures var n := |ws| - 1;
            Distinct(ws[..n]) && ws[n].surf !in Surfaces(ws[..n]) && Surfaces(ws) == Surfaces(ws[..n]) + {ws[n].surf}
  {
    var n := |ws| - 1;
    var init := ws[..n];
    assert ws == init + [ws[n]];
    forall k ensures k in Surfaces(ws) <==> k in Surfaces(init) || k == ws[n].surf {}
  }

  lemma {:induction false} SurfacesSize(ws: seq<Window>)
    requires Distinct(ws)
    ensures |Surfaces(ws)| == |ws|
    decreases |ws|
  {
    hide Distinct, Surfaces;
    if ws == [] {
      NoSurfaces();
    } else {
      LastSurface(ws);
      SurfacesSize(ws[..|ws| - 1]);
    }
  }

  lemma NoSurfaces()
    ensures Surfaces([]) == {}
  {}

  ghost function Slots(n: nat): (s: set<nat>)
    ensures |s| == n && forall k :: k in s <==> 0 < k <= n
  {
    if n == 0 then {} else Slots(n - 1) + {n}
  }

  /** Open! finds no surface exactly when there are that many. */
  lemma RoomFull(ws: seq<Window>, layers: seq<Target>)
    requires Distinct(ws) && Backed(ws, layers) && |layers| == SURFACES
    ensures Free(layers, 1) == SURFACES <==> |ws| == MostWindows(ws, layers)
  {
    hide Distinct, Free;
    SurfacesSize(ws);
    var own, strange, all := Surfaces(ws), Strangers(ws, layers), Slots(SURFACES - 1);
    assert |own + strange| == |own| + |strange|;
    assert own + strange <= all;
    if Free(layers, 1) == SURFACES {
      assert own + strange == all;
    } else {
      assert Free(layers, 1) in all - (own + strange);
      assert |all| == |own + strange| + |all - (own + strange)|;
    }
  }

  lemma SameStrangers(ws: seq<Window>, ws': seq<Window>, a: seq<Target>, b: seq<Target>)
    requires OthersKept(Surfaces(ws) + Surfaces(ws'), a, b)
    requires forall k :: k in Surfaces(ws) - Surfaces(ws') && 0 < k < |b| ==> b[k].None?
    requires forall k :: k in Surfaces(ws') - Surfaces(ws) && 0 < k < |a| ==> a[k].None?
    ensures MostWindows(ws', b) == MostWindows(ws, a)
  {
    hide Surfaces;
    assert Strangers(ws', b) == Strangers(ws, a);
  }

  lemma SameSurfaces(ws: seq<Window>, ws': seq<Window>, a: seq<Target>, b: seq<Target>)
    requires Surfaces(ws') == Surfaces(ws) && OthersKept(Surfaces(ws), a, b)
    ensures MostWindows(ws', b) == MostWindows(ws, a)
  {
    hide Surfaces, MostWindows;
    SameStrangers(ws, ws', a, b);
  }

  lemma OpenedRoom(ws: seq<Window>, ws': seq<Window>, focus: Option<nat>, a: seq<Target>, b: seq<Target>)
    requires |ws'| == |ws| + 1 && ws'[..|ws|] == ws && Unveiled(ws, ws'[|ws|], focus, a, b)
    ensures MostWindows(ws', b) == MostWindows(ws, a)
  {
    hide MostWindows, Painted, Find;
    var o := if focus.Some? then Find(ws, focus.value) else -1;
    if o >= 0 { assert ws[o] in ws; }
    assert ws' == ws + [ws'[|ws|]];
    assert Surfaces(ws') == Surfaces(ws) + {ws'[|ws|].surf};
    assert Surfaces(ws) + Surfaces(ws') == Surfaces(ws');
    SameStrangers(ws, ws', a, b);
  }

  lemma ClosedRoom(ws: seq<Window>, id: nat, focus: Option<nat>, a: seq<Target>, b: seq<Target>)
    requires Distinct(ws) && Find(ws, id) >= 0 && Closed(ws[Find(ws, id)].surf, Without(ws, id), focus, a, b)
    ensures MostWindows(Without(ws, id), b) == MostWindows(ws, a)
  {
    hide MostWindows, Find, Without, Painted;
    if Without(ws, id) != [] { assert Without(ws, id)[|Without(ws, id)| - 1] in Without(ws, id); }
    var i := Find(ws, id);
    assert Surfaces(ws) + Surfaces(Without(ws, id)) == Surfaces(ws);
    forall w | w in ws && w.id == id ensures w.surf == ws[i].surf {
      var j :| 0 <= j < |ws| && ws[j] == w;
    }
    SameStrangers(ws, Without(ws, id), a, b);
  }

  lemma FocusedRoom(ws: seq<Window>, w: Window, focus: Option<nat>, a: seq<Target>, b: seq<Target>)
    requires Distinct(ws) && w in ws && OthersKept(Marks(w, focus, ws), a, b)
    ensures MostWindows(Without(ws, w.id) + [w], b) == MostWindows(ws, a)
  {
    hide MostWindows, Find, Without;
    RaisedSame(ws, w);
    assert Marks(w, focus, ws) <= Surfaces(ws);
    assert Surfaces(Without(ws, w.id) + [w]) == Surfaces(ws);
    SameSurfaces(ws, Without(ws, w.id) + [w], a, b);
  }

  lemma MovedRoom(ws: seq<Window>, id: nat, x: int, y: int, a: seq<Target>, b: seq<Target>)
    requires SameBehind(a, b)
    ensures MostWindows(Moved(ws, id, x, y), b) == MostWindows(ws, a)
  {
    hide MostWindows;
    var r := Moved(ws, id, x, y);
    forall k ensures k in Surfaces(r) <==> k in Surfaces(ws) {
      if k in Surfaces(ws) { var i :| 0 <= i < |ws| && ws[i].surf == k; assert r[i].surf == k; }
      if k in Surfaces(r) { var i :| 0 <= i < |r| && r[i].surf == k; assert ws[i].surf == k; }
    }
    assert Surfaces(r) == Surfaces(ws);
    SameSurfaces(ws, r, a, b);
  }

  lemma DrawnRoom(ws: seq<Window>, i: nat, a: seq<Target>, b: seq<Target>)
    requires i < |ws| && OthersKept({ws[i].surf}, a, b)
    ensures MostWindows(ws, b) == MostWindows(ws, a)
  {
    hide MostWindows;
    assert ws[i].surf in Surfaces(ws);
    SameSurfaces(ws, ws, a, b);
  }

  lemma BackedDrawn(ws: seq<Window>, a: seq<Target>, b: seq<Target>, s: nat)
    requires Backed(ws, a) && |a| == |b| && 0 < s && LiveAt(a, s) && b == a[s := b[s]] && LiveAt(b, s)
    requires Alike(a[s].img, b[s].img)
    ensures Backed(ws, b)
  {}

  lemma BackedBehind(ws: seq<Window>, a: seq<Target>, b: seq<Target>)
    requires Backed(ws, a) && SameBehind(a, b)
    ensures Backed(ws, b)
  {}

  lemma RaisedSame(ws: seq<Window>, w: Window)
    requires w in ws && Distinct(ws)
    ensures forall u :: u in Without(ws, w.id) + [w] <==> u in ws
  {
    forall u | u in ws ensures u in Without(ws, w.id) + [w] {
      if u.id == w.id {
        var i, j :| 0 <= i < |ws| && 0 <= j < |ws| && ws[i] == u && ws[j] == w;
        assert i == j;
      }
    }
  }

  lemma RaisedValid(ws: seq<Window>, w: Window, layers: seq<Target>)
    requires w in ws && Distinct(ws) && Backed(ws, layers)
    ensures Distinct(Without(ws, w.id) + [w]) && Backed(Without(ws, w.id) + [w], layers)
    ensures forall u :: u in Without(ws, w.id) + [w] <==> u in ws
  {
    RaisedDistinct(ws, w);
    RaisedSame(ws, w);
  }

  lemma ClosedValid(ws: seq<Window>, w: Window, layers: seq<Target>)
    requires w in ws && Distinct(ws) && Backed(ws, layers)
    ensures LiveAt(layers, w.surf) && w.surf > 0
    ensures Distinct(Without(ws, w.id)) && Backed(Without(ws, w.id), layers[w.surf := Target.None])
    ensures w.surf !in Surfaces(Without(ws, w.id))
  {
    WithoutDistinct(ws, w.id);
    var k :| 0 <= k < |ws| && ws[k] == w;
    forall u | u in Without(ws, w.id) ensures u.surf != w.surf {
      var j :| 0 <= j < |ws| && ws[j] == u;
    }
  }

  lemma {:induction false} WithoutNone(ws: seq<Window>, id: int)
    requires forall w :: w in ws ==> w.id != id
    ensures Without(ws, id) == ws
  {
    if ws != [] { WithoutNone(ws[1..], id); }
  }

  lemma RaiseLast(ws: seq<Window>)
    requires ws != [] && Distinct(ws)
    ensures var w := ws[|ws| - 1]; Find(ws, w.id) == |ws| - 1 && Without(ws, w.id) + [w] == ws
  {
    hide Find, Without, Distinct;
    var n := |ws| - 1;
    LastAlone(ws);
    assert ws[..n] + [ws[n]] == ws;
    WithoutSnoc(ws[..n], ws[n], ws[n].id);
    WithoutNone(ws[..n], ws[n].id);
  }

  lemma LastAlone(ws: seq<Window>)
    requires ws != [] && Distinct(ws)
    ensures Find(ws, ws[|ws| - 1].id) == |ws| - 1
    ensures forall w :: w in ws[..|ws| - 1] ==> w.id != ws[|ws| - 1].id
  {
    hide Find;
  }

  lemma MovedValid(ws: seq<Window>, id: nat, x: int, y: int, layers: seq<Target>)
    requires Distinct(ws) && Backed(ws, layers)
    ensures Distinct(Moved(ws, id, x, y)) && Backed(Moved(ws, id, x, y), layers)
    ensures forall u :: u in Moved(ws, id, x, y) ==>
              exists w :: w in ws && w.id == u.id && w.plain == u.plain && w.lit == u.lit
  {
    var r := Moved(ws, id, x, y);
    forall u | u in r
      ensures exists w :: w in ws && w.id == u.id && w.plain == u.plain && w.lit == u.lit && w.surf == u.surf && w.w == u.w && w.h == u.h
    {
      var i :| 0 <= i < |r| && r[i] == u;
      assert ws[i] in ws;
    }
  }

  lemma OpenedValid(ws: seq<Window>, w: Window, a: seq<Target>, b: seq<Target>)
    requires Distinct(ws) && Backed(ws, a) && (forall u :: u in ws ==> u.id < w.id)
    requires |a| == |b| && 0 < w.surf < |a| && !LiveAt(a, w.surf) && b == a[w.surf := b[w.surf]]
    requires LiveAt(b, w.surf) && Well(b[w.surf].img) && b[w.surf].img.w == w.w && b[w.surf].img.h == w.h
    ensures Distinct(ws + [w]) && Backed(ws + [w], b)
  {
    forall i | 0 <= i < |ws| ensures ws[i].surf != w.surf && ws[i].id != w.id {
      assert ws[i] in ws;
    }
  }

  /** The owner map names window-at's surface, and 0 on the desktop. */
  lemma OwnerIsWindowAt(ws: seq<Window>, v: View, x: nat, y: nat)
    requires Composed(ws, v) && x < v.owner.w && y < v.owner.h
    ensures v.owner.px[y][x] == var w := WindowAt(ws, x, y); if w.Some? then w.value.surf else 0
  {
    WindowAtIsTop(ws, x, y);
  }

  /** On a composed screen a window that presents any part of its surface, anywhere,
      changes only pixels where window-at finds that window. */
  lemma PresentKeepsOthers(ws: seq<Window>, id: int, s: Rect, dx: int, dy: int, v: View, v': View, x: nat, y: nat)
    requires Composed(ws, v) && Step(Call.Present(id, s, dx, dy), v, v') && WellView(v')
    requires Alike(Img(v, 0), Img(v', 0)) && x < Img(v, 0).w && y < Img(v, 0).h
    ensures Img(v', 0).px[y][x] != Img(v, 0).px[y][x] ==> WindowAt(ws, x, y).Some? && WindowAt(ws, x, y).value.surf == id
  {
    hide WindowAt, Top, Layered, Inside;
    OwnerIsWindowAt(ws, v, x, y);
  }

  /** Every surface but the screen is as it was. */
  ghost predicate SameBehind(a: seq<Target>, b: seq<Target>) {
    |a| == |b| && forall k :: 0 < k < |a| ==> b[k] == a[k]
  }

  lemma OwnedNone(own: Image, own': Image)
    requires Filled(own, own', Rect(0, 0, own.w, own.h), 0)
    ensures Owned([], own')
  {}

  lemma DesktopFilled(ws: seq<Window>, v: View, v': View)
    requires WellView(v) && Backed(ws, v.layers) && Owned(ws, v.owner) && WellView(v')
    requires Step(Call.FillOwned(0, Rect(0, 0, Img(v, 0).w, Img(v, 0).h), DESKTOP), v, v')
    ensures Presenting(ws, 0, Img(v', 0), v')
  {
    hide Top;
    forall x, y | 0 <= x < Img(v, 0).w && 0 <= y < Img(v, 0).h && Top(ws, x, y) < 0
      ensures Img(v', 0).px[y][x] == Layered(ws, v'.layers, x, y)
    {
      LayeredSame(ws, v.layers, v'.layers, x, y);
      NoneOnTop(ws, v.layers, x, y);
    }
  }

  lemma NoneOnTop(ws: seq<Window>, layers: seq<Target>, x: int, y: int)
    requires Backed(ws, layers) && Top(ws, x, y) < 0
    ensures Layered(ws, layers, x, y) == DESKTOP
    ensures TopSurface(ws, x, y) == 0
  {}
}
