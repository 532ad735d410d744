/** Paths as bytes: the components split-path keeps, and what mv!'s comparison
    of joined paths means (lib/ext2.beer:263-264, 688-695, 829-832). */
module Ext2Path {
  import opened Bytes

  const SLASH: byte := 0x2F

  /** Offset of the first slash, or the length. */
  function SlashAt(p: Bytes): (i: nat)
    ensures i <= |p| && SLASH !in p[..i] && (i < |p| ==> p[i] == SLASH)
  {
    if p == [] || p[0] == SLASH then 0 else 1 + SlashAt(p[1..])
  }

  function Part(p: Bytes): seq<Bytes> { if p == [] then [] else [p] }

  /** split-path: the non-empty stretches between slashes. */
  function Split(p: Bytes): seq<Bytes>
    decreases |p|
  {
    var i := SlashAt(p);
    Part(p[..i]) + if i == |p| then [] else Split(p[i + 1..])
  }

  predicate Component(c: Bytes) { c != [] && SLASH !in c }

  lemma {:induction false} SplitParts(p: Bytes)
    ensures forall k :: 0 <= k < |Split(p)| ==> Component(Split(p)[k])
    decreases |p|
  {
    var i := SlashAt(p);
    if i < |p| { SplitParts(p[i + 1..]); }
  }

  lemma {:induction false} SlashFirst(c: Bytes, p: Bytes)
    requires SLASH !in c
    ensures SlashAt(c + [SLASH] + p) == |c|
  {
    if c != [] {
      SlashFirst(c[1..], p);
      assert (c + [SLASH] + p)[1..] == c[1..] + [SLASH] + p;
    }
  }

  lemma SplitStep(c: Bytes, p: Bytes)
    requires SLASH !in c
    ensures Split(c + [SLASH] + p) == Part(c) + Split(p)
  {
    hide SlashAt, Part;
    var s := c + [SLASH] + p;
    SlashFirst(c, p);
    assert s[..|c|] == c && s[|c| + 1..] == p;
  }

  lemma SplitWhole(c: Bytes)
    requires SLASH !in c
    ensures Split(c) == Part(c)
  {
    hide SlashAt, Part;
    assert c[..|c|] == c;
    assert Part(c) + [] == Part(c);
  }

  lemma Assoc(a: Bytes, b: Bytes, c: Bytes)
    ensures (a + [SLASH] + b) + [SLASH] + c == a + [SLASH] + (b + [SLASH] + c)
  {}

  /** A slash separates: what stands before it and after it split alone. */
  lemma {:induction false} SplitAtSlash(a: Bytes, b: Bytes)
    ensures Split(a + [SLASH] + b) == Split(a) + Split(b)
    decreases |a|
  {
    hide SlashAt, Part, Split;
    var i := SlashAt(a);
    if i == |a| {
      assert a[..i] == a;
      SplitStep(a, b);
      SplitWhole(a);
    } else {
      var c, tail := a[..i], a[i + 1..];
      assert a == c + [SLASH] + tail;
      Assoc(c, tail, b);
      SplitStep(c, tail + [SLASH] + b);
      SplitStep(c, tail);
      SplitAtSlash(tail, b);
    }
  }

  lemma SplitNone()
    ensures Split([]) == []
  {
    SplitWhole([]);
  }

  /** A slash before every component, which is how norm in mv! and the parent
      path of parent-and-name spell a non-empty list of them. */
  function Join(cs: seq<Bytes>): Bytes {
    if cs == [] then [] else [SLASH] + cs[0] + Join(cs[1..])
  }

  /** (str "/" (join "/" cs)) */
  function Norm(cs: seq<Bytes>): Bytes {
    if cs == [] then [SLASH] else Join(cs)
  }

  /** A component up to the next one, and everything from there. */
  lemma {:induction false} SplitJoinAfter(c: Bytes, cs: seq<Bytes>)
    requires Component(c) && forall k :: 0 <= k < |cs| ==> Component(cs[k])
    ensures Split(c + Join(cs)) == [c] + cs
    decreases |cs|
  {
    hide Split;
    if cs == [] {
      assert c + [] == c;
      SplitWhole(c);
    } else {
      SplitJoinAfter(cs[0], cs[1..]);
      assert c + Join(cs) == c + [SLASH] + (cs[0] + Join(cs[1..]));
      SplitStep(c, cs[0] + Join(cs[1..]));
    }
  }

  lemma SplitJoin(cs: seq<Bytes>)
    requires forall k :: 0 <= k < |cs| ==> Component(cs[k])
    ensures Split(Join(cs)) == cs
  {
    hide Split;
    SplitNone();
    if cs != [] {
      SplitJoinAfter(cs[0], cs[1..]);
      var after := cs[0] + Join(cs[1..]);
      assert Join(cs) == [] + [SLASH] + after;
      SplitStep([], after);
      assert cs == [cs[0]] + cs[1..];
    }
  }

  /** Joining components into an absolute path and splitting it again. */
  lemma SplitNorm(cs: seq<Bytes>)
    requires forall k :: 0 <= k < |cs| ==> Component(cs[k])
    ensures Split(Norm(cs)) == cs
  {
    hide Split;
    SplitJoin(cs);
    if cs == [] {
      assert [SLASH] == [] + [SLASH] + [];
      SplitAtSlash([], []);
      SplitNone();
    }
  }

  lemma {:induction false} JoinConcat(a: seq<Bytes>, b: seq<Bytes>)
    ensures Join(a + b) == Join(a) + Join(b)
  {
    if a == [] {
      assert a + b == b;
    } else {
      assert (a + b)[1..] == a[1..] + b;
      JoinConcat(a[1..], b);
    }
  }

  /** `to` is `from` or starts with `from` and a slash. */
  predicate InsidePath(from_: Bytes, to: Bytes) {
    to == from_ || from_ + [SLASH] <= to
  }

  lemma PrefixRest(a: seq<Bytes>, b: seq<Bytes>)
    requires a <= b
    ensures Join(b) == Join(a) + Join(b[|a|..])
  {
    assert b == a + b[|a|..];
    JoinConcat(a, b[|a|..]);
  }

  lemma PrefixInside(a: seq<Bytes>, b: seq<Bytes>)
    requires a <= b
    ensures Join(a) == Join(b) || Join(a) + [SLASH] <= Join(b)
  {
    PrefixRest(a, b);
    if a == b {
    } else {
      assert b[|a|..] != [];
    }
  }

  lemma InsidePrefix(from_: seq<Bytes>, to: seq<Bytes>)
    requires forall k :: 0 <= k < |from_| ==> Component(from_[k])
    requires forall k :: 0 <= k < |to| ==> Component(to[k])
    requires Join(from_) + [SLASH] <= Join(to)
    ensures from_ <= to
  {
    hide Split, Component, Join;
    SplitJoin(from_);
    SplitJoin(to);
    var rest := Join(to)[|Join(from_)| + 1..];
    assert Join(to) == Join(from_) + [SLASH] + rest;
    SplitAtSlash(Join(from_), rest);
  }

  /** The string comparison of mv! on normalised paths decides whether one list
      of components continues the other. */
  lemma InsideIsPrefix(from_: seq<Bytes>, to: seq<Bytes>)
    requires from_ != [] && to != []
    requires forall k :: 0 <= k < |from_| ==> Component(from_[k])
    requires forall k :: 0 <= k < |to| ==> Component(to[k])
    ensures InsidePath(Norm(from_), Norm(to)) <==> from_ <= to
  {
    hide Split, Component, Join;
    SplitJoin(from_);
    SplitJoin(to);
    if from_ <= to { PrefixInside(from_, to); }
    if Join(from_) + [SLASH] <= Join(to) { InsidePrefix(from_, to); }
  }
}
