/** Splitting a string at every separator and joining it again: the string functions
    that the terminal and the editor are written with. */
module Text {

  /** One piece more than there are separators; none is dropped. */
  function Split(s: string, sep: char): (r: seq<string>)
    ensures |r| >= 1
    ensures forall p :: p in r ==> sep !in p
  {
    if s == "" then [""]
    else
      var rest := Split(s[1..], sep);
      if s[0] == sep then [""] + rest else [[s[0]] + rest[0]] + rest[1..]
  }

  function Join(ps: seq<string>, sep: char): string {
    if ps == [] then "" else if |ps| == 1 then ps[0] else ps[0] + [sep] + Join(ps[1..], sep)
  }

  /** The pieces, each followed by the separator; or each preceded by it. */
  function Lead(ps: seq<string>, sep: char): string {
    if ps == [] then "" else ps[0] + [sep] + Lead(ps[1..], sep)
  }

  function Trail(ps: seq<string>, sep: char): string {
    if ps == [] then "" else [sep] + ps[0] + Trail(ps[1..], sep)
  }

  lemma {:induction false} LeadAppend(a: seq<string>, b: seq<string>, sep: char)
    ensures Lead(a + b, sep) == Lead(a, sep) + Lead(b, sep)
  {
    if a == [] {
      assert a + b == b;
    } else {
      assert (a + b)[0] == a[0] && (a + b)[1..] == a[1..] + b;
      LeadAppend(a[1..], b, sep);
    }
  }

  lemma {:induction false} TrailAppend(a: seq<string>, b: seq<string>, sep: char)
    ensures Trail(a + b, sep) == Trail(a, sep) + Trail(b, sep)
  {
    if a == [] {
      assert a + b == b;
    } else {
      assert (a + b)[0] == a[0] && (a + b)[1..] == a[1..] + b;
      TrailAppend(a[1..], b, sep);
    }
  }

  lemma TrailOne(p: string, sep: char)
    ensures Trail([p], sep) == [sep] + p
  {
    assert [p][1..] == [];
  }

  lemma {:induction false} JoinTrail(ps: seq<string>, sep: char)
    requires ps != []
    ensures Join(ps, sep) == ps[0] + Trail(ps[1..], sep)
  {
    if |ps| > 1 {
      JoinTrail(ps[1..], sep);
      assert ps[1..][1..] == ps[1..][1..];
    }
  }

  /** A join, cut at one of its pieces. */
  lemma {:induction false} JoinAt(ps: seq<string>, r: nat, sep: char)
    requires r < |ps|
    ensures Join(ps, sep) == Lead(ps[..r], sep) + ps[r] + Trail(ps[r + 1..], sep)
  {
    if r == 0 {
      JoinTrail(ps, sep);
    } else {
      assert ps[..r][0] == ps[0] && ps[..r][1..] == ps[1..][..r - 1];
      assert ps[1..][r - 1] == ps[r] && ps[1..][r..] == ps[r + 1..];
      JoinAt(ps[1..], r - 1, sep);
    }
  }

  lemma {:induction false} JoinSplit(s: string, sep: char)
    ensures Join(Split(s, sep), sep) == s
  {
    if s != "" {
      var rest := Split(s[1..], sep);
      JoinSplit(s[1..], sep);
      JoinTrail(rest, sep);
      JoinTrail(Split(s, sep), sep);
      if s[0] == sep {
        assert ([""] + rest)[1..] == rest;
        assert Trail(rest, sep) == [sep] + rest[0] + Trail(rest[1..], sep);
      } else {
        assert ([[s[0]] + rest[0]] + rest[1..])[1..] == rest[1..];
      }
    }
  }

  lemma SplitCons(c: char, s: string, sep: char)
    ensures Split([c] + s, sep) ==
            if c == sep then [""] + Split(s, sep) else [[c] + Split(s, sep)[0]] + Split(s, sep)[1..]
  {
    assert ([c] + s)[1..] == s;
  }

  lemma JoinCons(c: char, p: string, rest: seq<string>, sep: char)
    ensures Join([[c] + p] + rest, sep) == [c] + Join([p] + rest, sep)
    ensures rest != [] ==> Join([""] + rest, sep) == [sep] + Join(rest, sep)
  {
    hide Join;
    JoinTrail([[c] + p] + rest, sep);
    JoinTrail([p] + rest, sep);
    JoinTrail([""] + rest, sep);
    assert ([[c] + p] + rest)[1..] == rest && ([p] + rest)[1..] == rest && ([""] + rest)[1..] == rest;
    if rest != [] { JoinTrail(rest, sep); }
  }

  lemma SplitOne(sep: char)
    ensures Split(Join([""], sep), sep) == [""]
  {}

  /** Pieces without the separator are what splitting their join gives. */
  lemma {:induction false} SplitJoin(ps: seq<string>, sep: char)
    requires ps != [] && forall p :: p in ps ==> sep !in p
    ensures Split(Join(ps, sep), sep) == ps
    decreases |ps|, |ps[0]|
  {
    hide Split, Join;
    var rest := ps[1..];
    assert ps == [ps[0]] + rest;
    if ps[0] != "" {
      var c, p := ps[0][0], ps[0][1..];
      assert ps[0] == [c] + p;
      assert forall d :: d in p ==> d in ps[0];
      assert c in ps[0] && ps[0] in ps;
      assert ([p] + rest)[0] == p && ([p] + rest)[1..] == rest;
      SplitJoin([p] + rest, sep);
      JoinCons(c, p, rest, sep);
      SplitCons(c, Join([p] + rest, sep), sep);
    } else if rest != [] {
      SplitJoin(rest, sep);
      JoinCons(sep, "", rest, sep);
      SplitCons(sep, Join(rest, sep), sep);
    } else {
      assert ps == [""];
      SplitOne(sep);
    }
  }
}
