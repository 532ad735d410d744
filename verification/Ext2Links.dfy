/** Where symbolic links lead, said of whole paths: a link in a path stands for the path that
    has the link's text in its place (lib/ext2.beer:257-290). */
module Ext2Links {
  import opened Bytes
  import opened Ext2Disk
  import opened Ext2FileData
  import opened Ext2DirBlock
  import opened Ext2DirData
  import opened Ext2Store
  import opened Ext2Dir
  import opened Ext2Path
  import opened Ext2Lookup

  // ---- paths without links ----

  /** The inode that the components name when no link is followed. */
  ghost function WalkTo(geo: Geometry, d: Disk, comps: seq<Bytes>): (r: Result<nat>)
    requires geo.Valid() && Fits(geo, d)
    ensures r.Ok? ==> 1 <= r.value <= geo.inodes && r.value < |d.inode|
    decreases |comps|
  {
    RootInRange(geo, d);
    if comps == [] then Ok(ROOT_INO)
    else
      var n := |comps| - 1;
      var parent := WalkTo(geo, d, comps[..n]);
      if parent.Err? then parent
      else if d.inode[parent.value].kind != Dir then Err(NotADirectory)
      else
        var found := Lookup(geo, d, parent.value, comps[n]);
        if found.Err? then Err(found.reason)
        else if found.value < 0 then Err(NotFound)
        else if !(1 <= found.value <= geo.inodes) then Err(BadInode)
        else Ok(found.value)
  }

  /** Component k is a symbolic link that is to be followed: not the last one, or that too. */
  ghost predicate LinkAt(geo: Geometry, d: Disk, comps: seq<Bytes>, follow: bool, k: nat)
    requires geo.Valid() && Fits(geo, d)
  {
    && k < |comps| && (follow || k + 1 < |comps|)
    && var r := WalkTo(geo, d, comps[..k + 1]); r.Ok? && d.inode[r.value].kind == Symlink
  }

  ghost function TextAt(geo: Geometry, d: Disk, comps: seq<Bytes>, follow: bool, k: nat): Result<Bytes>
    requires geo.Valid() && Fits(geo, d) && LinkAt(geo, d, comps, follow, k)
  {
    LinkTarget(geo, d, WalkTo(geo, d, comps[..k + 1]).value)
  }

  /** The components with the link's text for component k: an absolute text replaces what is
      before it too. */
  ghost function Expanded(comps: seq<Bytes>, k: nat, text: Bytes): seq<Bytes>
    requires k < |comps|
  {
    (if Absolute(text) then [] else comps[..k]) + Split(text) + comps[k + 1..]
  }

  lemma {:induction false} ResolveWalks(geo: Geometry, d: Disk, a: seq<Bytes>, rest: seq<Bytes>, follow: bool, hops: nat)
    requires geo.Valid() && Fits(geo, d) && hops <= MAX_HOPS && 1 <= ROOT_INO <= geo.inodes
    requires WalkTo(geo, d, a).Ok?
    requires a == [] || d.inode[WalkTo(geo, d, a).value].kind != Symlink || (rest == [] && !follow)
    ensures Resolve(geo, d, ROOT_INO, a + rest, follow, hops) == Resolve(geo, d, WalkTo(geo, d, a).value, rest, follow, hops)
    decreases |a|
  {
    hide Lookup, LinkTarget, Fits, Split, Geometry.Valid, Absolute;
    if a == [] {
      assert [] + rest == rest;
    } else {
      var n := |a| - 1;
      var next := [a[n]] + rest;
      assert a + rest == a[..n] + next && next[1..] == rest;
      ResolveWalks(geo, d, a[..n], next, follow, hops);
    }
  }

  /** A walk that fails within the components fails their resolution, where no link is
      followed before. */
  lemma {:induction false} ResolveFails(geo: Geometry, d: Disk, comps: seq<Bytes>, follow: bool, hops: nat, n: nat)
    requires geo.Valid() && Fits(geo, d) && hops <= MAX_HOPS && 1 <= ROOT_INO <= geo.inodes && n <= |comps|
    requires WalkTo(geo, d, comps[..n]).Err? && forall k: nat :: k < n ==> !LinkAt(geo, d, comps, follow, k)
    ensures Resolve(geo, d, ROOT_INO, comps, follow, hops) == WalkTo(geo, d, comps[..n])
    ensures WalkTo(geo, d, comps) == WalkTo(geo, d, comps[..n])
  {
    hide Lookup, LinkTarget, Fits, Split, Geometry.Valid, Absolute, Follows;
    assert comps[..n][..n - 1] == comps[..n - 1] && comps[..n][n - 1] == comps[n - 1];
    if WalkTo(geo, d, comps[..n - 1]).Err? {
      ResolveFails(geo, d, comps, follow, hops, n - 1);
    } else {
      var rest := comps[n - 1..];
      assert comps == comps[..n - 1] + rest;
      assert n > 1 ==> !LinkAt(geo, d, comps, follow, n - 2);
      ResolveWalks(geo, d, comps[..n - 1], rest, follow, hops);
      StaysFailed(geo, d, comps, n);
    }
  }

  lemma {:induction false} StaysFailed(geo: Geometry, d: Disk, comps: seq<Bytes>, n: nat)
    requires geo.Valid() && Fits(geo, d) && n <= |comps| && WalkTo(geo, d, comps[..n]).Err?
    ensures WalkTo(geo, d, comps) == WalkTo(geo, d, comps[..n])
    decreases |comps|
  {
    hide Lookup, Fits, Geometry.Valid;
    if n == |comps| {
      assert comps[..n] == comps;
    } else {
      var m := |comps| - 1;
      assert comps[..m][..n] == comps[..n];
      StaysFailed(geo, d, comps[..m], n);
    }
  }

  /** Without a link to follow, resolution is the walk. */
  lemma ResolveWithoutLinks(geo: Geometry, d: Disk, comps: seq<Bytes>, follow: bool, hops: nat)
    requires geo.Valid() && Fits(geo, d) && hops <= MAX_HOPS && 1 <= ROOT_INO <= geo.inodes
    requires forall k: nat :: !LinkAt(geo, d, comps, follow, k)
    ensures Resolve(geo, d, ROOT_INO, comps, follow, hops) == WalkTo(geo, d, comps)
  {
    hide Lookup, Fits, Geometry.Valid, WalkTo;
    assert comps[..|comps|] == comps && comps + [] == comps;
    if WalkTo(geo, d, comps).Err? {
      ResolveFails(geo, d, comps, follow, hops, |comps|);
    } else {
      assert comps != [] ==> !LinkAt(geo, d, comps, follow, |comps| - 1);
      ResolveWalks(geo, d, comps, [], follow, hops);
    }
  }

  /** A link to follow makes resolution that of the expanded path, with one hop more. */
  lemma ResolveOneLink(geo: Geometry, d: Disk, comps: seq<Bytes>, follow: bool, hops: nat, k: nat)
    requires geo.Valid() && Fits(geo, d) && hops <= MAX_HOPS && 1 <= ROOT_INO <= geo.inodes
    requires LinkAt(geo, d, comps, follow, k)
    ensures k < |comps|
    ensures var text := TextAt(geo, d, comps, follow, k);
            Resolve(geo, d, ROOT_INO, comps, follow, hops) ==
              if text.Err? then Err(text.reason)
              else if hops == MAX_HOPS then Err(TooManyLinks)
              else Resolve(geo, d, ROOT_INO, Expanded(comps, k, text.value), follow, hops + 1)
  {
    hide Lookup, LinkTarget, Fits, Split, Geometry.Valid, Absolute;
    var a, rest := comps[..k], comps[k + 1..];
    assert comps[..k + 1][..k] == a && comps[..k + 1][k] == comps[k];
    var next := [comps[k]] + rest;
    assert comps == a + next && next[1..] == rest;
    ResolveWalks(geo, d, a, next, follow, hops);
    var text := TextAt(geo, d, comps, follow, k);
    if text.Ok? && hops < MAX_HOPS {
      if Absolute(text.value) {
        assert [] + Split(text.value) + rest == Split(text.value) + rest;
      } else {
        assert a + Split(text.value) + rest == a + (Split(text.value) + rest);
        ResolveWalks(geo, d, a, Split(text.value) + rest, follow, hops + 1);
      }
    }
  }

  lemma {:induction false} PrefixIsDir(geo: Geometry, d: Disk, comps: seq<Bytes>, n: nat)
    requires geo.Valid() && Fits(geo, d) && n < |comps| && WalkTo(geo, d, comps).Ok?
    ensures WalkTo(geo, d, comps[..n]).Ok? && d.inode[WalkTo(geo, d, comps[..n]).value].kind == Dir
    decreases |comps|
  {
    hide Lookup, Fits, Geometry.Valid;
    var m := |comps| - 1;
    if n < m {
      assert comps[..m][..n] == comps[..n];
      PrefixIsDir(geo, d, comps[..m], n);
    }
  }

  /** A path has at most one link to follow before anything is expanded. */
  lemma OneLink(geo: Geometry, d: Disk, comps: seq<Bytes>, follow: bool, j: nat, k: nat)
    requires geo.Valid() && Fits(geo, d) && LinkAt(geo, d, comps, follow, j) && LinkAt(geo, d, comps, follow, k)
    ensures j == k
  {
    hide WalkTo, Fits, Geometry.Valid;
    if j < k {
      assert comps[..k + 1][..j + 1] == comps[..j + 1];
      PrefixIsDir(geo, d, comps[..k + 1], j + 1);
    } else if k < j {
      assert comps[..j + 1][..k + 1] == comps[..k + 1];
      PrefixIsDir(geo, d, comps[..j + 1], k + 1);
    }
  }

  /** The path with its links expanded, at most n of them: what it names, or TooManyLinks when
      another one is left. */
  ghost function Followed(geo: Geometry, d: Disk, comps: seq<Bytes>, follow: bool, n: nat): Result<nat>
    requires geo.Valid() && Fits(geo, d)
    decreases n
  {
    if k: nat :| LinkAt(geo, d, comps, follow, k) then
      var text := TextAt(geo, d, comps, follow, k);
      if text.Err? then Err(text.reason)
      else if n == 0 then Err(TooManyLinks)
      else Followed(geo, d, Expanded(comps, k, text.value), follow, n - 1)
    else WalkTo(geo, d, comps)
  }

  lemma FollowedLink(geo: Geometry, d: Disk, comps: seq<Bytes>, follow: bool, n: nat, k: nat)
    requires geo.Valid() && Fits(geo, d) && LinkAt(geo, d, comps, follow, k)
    ensures k < |comps|
    ensures var text := TextAt(geo, d, comps, follow, k);
            Followed(geo, d, comps, follow, n) ==
              if text.Err? then Err(text.reason)
              else if n == 0 then Err(TooManyLinks)
              else Followed(geo, d, Expanded(comps, k, text.value), follow, n - 1)
  {
    hide WalkTo, TextAt, Expanded, Fits, Geometry.Valid;
    var j: nat :| LinkAt(geo, d, comps, follow, j)
                  && Followed(geo, d, comps, follow, n) ==
                       var text := TextAt(geo, d, comps, follow, j);
                       if text.Err? then Err(text.reason)
                       else if n == 0 then Err(TooManyLinks)
                       else Followed(geo, d, Expanded(comps, j, text.value), follow, n - 1);
    OneLink(geo, d, comps, follow, j, k);
  }

  /** Resolution names what the path names with up to 40 links expanded. */
  lemma {:induction false} ResolveIsFollowed(geo: Geometry, d: Disk, comps: seq<Bytes>, follow: bool, hops: nat)
    requires geo.Valid() && Fits(geo, d) && hops <= MAX_HOPS && 1 <= ROOT_INO <= geo.inodes
    ensures Resolve(geo, d, ROOT_INO, comps, follow, hops) == Followed(geo, d, comps, follow, MAX_HOPS - hops)
    decreases MAX_HOPS - hops
  {
    hide Resolve, WalkTo, LinkAt, TextAt, Expanded, Fits, Geometry.Valid;
    if k: nat :| LinkAt(geo, d, comps, follow, k) {
      ResolveOneLink(geo, d, comps, follow, hops, k);
      FollowedLink(geo, d, comps, follow, MAX_HOPS - hops, k);
      var text := TextAt(geo, d, comps, follow, k);
      if text.Ok? && hops < MAX_HOPS { ResolveIsFollowed(geo, d, Expanded(comps, k, text.value), follow, hops + 1); }
    } else {
      ResolveWithoutLinks(geo, d, comps, follow, hops);
    }
  }

  /** n links can be expanded one after the other. */
  ghost predicate Chained(geo: Geometry, d: Disk, comps: seq<Bytes>, follow: bool, n: nat)
    requires geo.Valid() && Fits(geo, d)
    decreases n
  {
    n == 0 || exists k: nat :: LinkAt(geo, d, comps, follow, k) && Continues(geo, d, comps, follow, k, n)
  }

  ghost predicate Continues(geo: Geometry, d: Disk, comps: seq<Bytes>, follow: bool, k: nat, n: nat)
    requires geo.Valid() && Fits(geo, d) && LinkAt(geo, d, comps, follow, k) && n > 0
    decreases n, 0
  {
    var text := TextAt(geo, d, comps, follow, k);
    text.Ok? && Chained(geo, d, Expanded(comps, k, text.value), follow, n - 1)
  }

  lemma {:induction false} WalkReasons(ft: bool, buf: Bytes, o: nat)
    ensures DirWalk(ft, buf, o) != Err(TooManyLinks)
    decreases |buf| - o
  {
    hide RecIno, RecLen, RecEntry, NameLen;
    if o + 8 < |buf| && RecLen(buf, o) >= 8 { WalkReasons(ft, buf, o + RecLen(buf, o)); }
  }

  lemma LookupReasons(geo: Geometry, d: Disk, dir: nat, name: Bytes)
    requires geo.Valid() && Fits(geo, d) && dir <= geo.inodes
    ensures Lookup(geo, d, dir, name) != Err(TooManyLinks)
  {
    hide Fits, Geometry.Valid, BlocksBytes, Fb, DirWalk;
    var buf := Contents(geo, d, dir);
    if buf.Ok? { WalkReasons(geo.filetype, buf.value, 0); }
  }

  lemma {:induction false} WalksNotLong(geo: Geometry, d: Disk, comps: seq<Bytes>)
    requires geo.Valid() && Fits(geo, d)
    ensures WalkTo(geo, d, comps) != Err(TooManyLinks)
    decreases |comps|
  {
    hide Fits, Geometry.Valid, Lookup;
    if comps != [] {
      var n := |comps| - 1;
      WalksNotLong(geo, d, comps[..n]);
      if WalkTo(geo, d, comps[..n]).Ok? { LookupReasons(geo, d, WalkTo(geo, d, comps[..n]).value, comps[n]); }
    }
  }

  lemma {:induction false} FollowedTooLong(geo: Geometry, d: Disk, comps: seq<Bytes>, follow: bool, n: nat)
    requires geo.Valid() && Fits(geo, d)
    ensures Followed(geo, d, comps, follow, n) == Err(TooManyLinks) <==> Chained(geo, d, comps, follow, n + 1)
    decreases n
  {
    hide WalkTo, LinkAt, Expanded, Fits, Geometry.Valid;
    if k: nat :| LinkAt(geo, d, comps, follow, k) {
      FollowedLink(geo, d, comps, follow, n, k);
      var text := TextAt(geo, d, comps, follow, k);
      forall j: nat | LinkAt(geo, d, comps, follow, j) ensures j == k { OneLink(geo, d, comps, follow, j, k); }
      if n > 0 && text.Ok? { FollowedTooLong(geo, d, Expanded(comps, k, text.value), follow, n - 1); }
    } else {
      WalksNotLong(geo, d, comps);
    }
  }

  /** Too many links are reported exactly where 41 can be expanded one after the other. */
  lemma TooManyLinksExact(geo: Geometry, d: Disk, comps: seq<Bytes>, follow: bool)
    requires geo.Valid() && Fits(geo, d) && 1 <= ROOT_INO <= geo.inodes
    ensures Resolve(geo, d, ROOT_INO, comps, follow, 0) == Err(TooManyLinks) <==> Chained(geo, d, comps, follow, MAX_HOPS + 1)
  {
    hide Resolve, Followed, Chained, Fits, Geometry.Valid;
    ResolveIsFollowed(geo, d, comps, follow, 0);
    FollowedTooLong(geo, d, comps, follow, MAX_HOPS);
  }

  // ---- a link in any path ----

  /** More hops behind it, and a resolution is the same or one of too many links. */
  lemma {:induction false} MoreHops(geo: Geometry, d: Disk, cur: nat, comps: seq<Bytes>, follow: bool, h: nat, h': nat)
    requires geo.Valid() && Fits(geo, d) && 1 <= cur <= geo.inodes && h <= h' <= MAX_HOPS
    ensures Resolve(geo, d, cur, comps, follow, h') in {Resolve(geo, d, cur, comps, follow, h), Err(TooManyLinks)}
    decreases MAX_HOPS - h', |comps|
  {
    hide Lookup, LinkTarget, Fits, Split, Geometry.Valid, Absolute;
    RootInRange(geo, d);
    if comps != [] && d.inode[cur].kind == Dir {
      var found := Lookup(geo, d, cur, comps[0]);
      if found.Ok? && found.value >= 0 && 1 <= found.value <= geo.inodes {
        var child: nat := found.value;
        if Follows(d, child, follow, comps) {
          var text := LinkTarget(geo, d, child);
          if text.Ok? && h' < MAX_HOPS {
            MoreHops(geo, d, if Absolute(text.value) then ROOT_INO else cur, Split(text.value) + comps[1..], follow, h + 1, h' + 1);
          }
        } else {
          MoreHops(geo, d, child, comps[1..], follow, h, h');
        }
      }
    }
  }

  /** What follows a prefix that resolves to p is resolved from p on. */
  lemma {:induction false} ResolveOnward(geo: Geometry, d: Disk, cur: nat, a: seq<Bytes>, p: nat, x: seq<Bytes>, y: seq<Bytes>, follow: bool, h: nat)
    returns (h': nat)
    requires geo.Valid() && Fits(geo, d) && 1 <= cur <= geo.inodes && h <= MAX_HOPS
    requires Resolve(geo, d, cur, a, true, h) == Ok(p) && (follow || (x != [] && y != []))
    ensures h <= h' <= MAX_HOPS && 1 <= p <= geo.inodes
    ensures Resolve(geo, d, cur, a + x, follow, h) == Resolve(geo, d, p, x, follow, h')
    ensures Resolve(geo, d, cur, a + y, follow, h) == Resolve(geo, d, p, y, follow, h')
    decreases MAX_HOPS - h, |a|
  {
    hide Lookup, LinkTarget, Fits, Split, Geometry.Valid, Absolute;
    RootInRange(geo, d);
    if a == [] {
      assert [] + x == x && [] + y == y;
      h' := h;
    } else {
      assert (a + x)[1..] == a[1..] + x && (a + y)[1..] == a[1..] + y;
      var child: nat := Lookup(geo, d, cur, a[0]).value;
      if Follows(d, child, true, a) {
        var s := Split(LinkTarget(geo, d, child).value);
        assert (s + a[1..]) + x == s + (a[1..] + x) && (s + a[1..]) + y == s + (a[1..] + y);
        h' := ResolveOnward(geo, d, if Absolute(LinkTarget(geo, d, child).value) then ROOT_INO else cur,
                            s + a[1..], p, x, y, follow, h + 1);
      } else {
        h' := ResolveOnward(geo, d, child, a[1..], p, x, y, follow, h);
      }
    }
  }

  /** The directory that `a` names has a symbolic link l with this text. */
  ghost predicate LinkIn(geo: Geometry, d: Disk, a: seq<Bytes>, l: Bytes, text: Bytes)
    requires geo.Valid() && Fits(geo, d)
  {
    RootInRange(geo, d);
    var p := Resolve(geo, d, ROOT_INO, a, true, 0);
    && p.Ok? && d.inode[p.value].kind == Dir
    && var found := Lookup(geo, d, p.value, l);
    && found.Ok? && 1 <= found.value <= geo.inodes
    && d.inode[found.value].kind == Symlink && LinkTarget(geo, d, found.value) == Ok(text)
  }

  /** Where links are followed, the path through the link is the path with the link's text in
      its place: after what is before it, or from the root when the text is absolute. */
  lemma ThroughLink(geo: Geometry, d: Disk, a: seq<Bytes>, l: Bytes, text: Bytes, more: seq<Bytes>, follow: bool)
    requires geo.Valid() && Fits(geo, d) && LinkIn(geo, d, a, l, text) && (follow || more != []) && 1 <= ROOT_INO <= geo.inodes
    ensures var r := Resolve(geo, d, ROOT_INO, a + [l] + more, follow, 0);
            || r == Resolve(geo, d, ROOT_INO, (if Absolute(text) then [] else a) + Split(text) + more, follow, 0)
            || r == Err(TooManyLinks)
  {
    hide Lookup, LinkTarget, Fits, Split, Geometry.Valid, Absolute;
    var p := Resolve(geo, d, ROOT_INO, a, true, 0).value;
    var x, y := [l] + more, Split(text) + more;
    assert a + [l] + more == a + x && x[1..] == more && a + Split(text) + more == a + y && [] + Split(text) + more == y;
    var h := ResolveOnward(geo, d, ROOT_INO, a, p, x, y, follow, 0);
    if h < MAX_HOPS {
      if Absolute(text) {
        MoreHops(geo, d, ROOT_INO, y, follow, 0, h + 1);
      } else {
        MoreHops(geo, d, p, y, follow, h, h + 1);
      }
    }
  }

  // ---- paths as texts ----

  function Under(dir: Bytes, rest: Bytes): Bytes { dir + [SLASH] + rest }

  /** read-bytes of a link is read-bytes of its text, which starts at the link's directory
      unless it is absolute. */
  lemma ReadsLink(geo: Geometry, d: Disk, dir: Bytes, l: Bytes, text: Bytes)
    requires geo.Valid() && Fits(geo, d) && Component(l) && LinkIn(geo, d, Split(dir), l, text)
    ensures BytesAt(geo, d, Under(dir, l)) in
              {BytesAt(geo, d, if Absolute(text) then text else Under(dir, text)), Err(TooManyLinks)}
  {
    hide Split, Resolve, Contents, Fits, LinkIn;
    RootInRange(geo, d);
    ThroughLink(geo, d, Split(dir), l, text, [], true);
    SplitAtSlash(dir, l);
    SplitWhole(l);
    SplitAtSlash(dir, text);
    assert Split(dir) + [l] + [] == Split(dir) + [l];
    assert [] + Split(text) + [] == Split(text) && Split(dir) + Split(text) + [] == Split(dir) + Split(text);
  }

  /** The same for a link on the way. */
  lemma ReadsThroughLink(geo: Geometry, d: Disk, dir: Bytes, l: Bytes, text: Bytes, rest: Bytes)
    requires geo.Valid() && Fits(geo, d) && Component(l) && LinkIn(geo, d, Split(dir), l, text)
    ensures BytesAt(geo, d, Under(Under(dir, l), rest)) in
              {BytesAt(geo, d, Under(if Absolute(text) then text else Under(dir, text), rest)), Err(TooManyLinks)}
  {
    hide Split, Resolve, Contents, Fits, LinkIn;
    RootInRange(geo, d);
    ThroughLink(geo, d, Split(dir), l, text, Split(rest), true);
    SplitAtSlash(dir, l);
    SplitWhole(l);
    SplitAtSlash(dir, text);
    SplitAtSlash(Under(dir, l), rest);
    SplitAtSlash(if Absolute(text) then text else Under(dir, text), rest);
    assert [] + Split(text) + Split(rest) == Split(text) + Split(rest);
  }
}
