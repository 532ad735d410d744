/** Reading by path: contents, lookup, symbolic links and path resolution
    (lib/ext2.beer:200-318). */
module Ext2Lookup {
  import opened Bytes
  import opened Ext2Disk
  import opened Ext2FileData
  import opened Ext2DirData
  import opened Ext2Store
  import opened Ext2Dir
  import opened Ext2Names
  import opened Ext2Path
  import opened Ext2Tree

  const MAX_HOPS := 40

  /** read-inode-data: exactly `size` bytes; a size past the mapped blocks does
      not slice. */
  function Contents(geo: Geometry, d: Disk, i: nat): Result<Bytes>
    requires geo.Valid() && Fits(geo, d) && i <= geo.inodes
  {
    var all := BlocksBytes(geo.bs, d.data, Fb(geo, d, i));
    if d.inode[i].size <= |all| then Ok(all[..d.inode[i].size]) else Err(BadBuffer)
  }

  /** The inode a directory's first entry of this name has, -1 for none. */
  function Lookup(geo: Geometry, d: Disk, dir: nat, name: Bytes): (r: Result<int>)
    requires geo.Valid() && Fits(geo, d) && dir <= geo.inodes
    ensures r.Ok? ==> -1 <= r.value
  {
    var buf := Contents(geo, d, dir);
    if buf.Err? then Err(buf.reason)
    else
      var es := DirWalk(geo.filetype, buf.value, 0);
      if es.Err? then Err(es.reason) else Ok(FindIno(es.value, name))
  }

  function LinkTarget(geo: Geometry, d: Disk, i: nat): Result<Bytes>
    requires geo.Valid() && Fits(geo, d) && i <= geo.inodes
  {
    if FastSymlink(d.inode[i]) then
      if d.inode[i].size <= 60 then Ok(d.inode[i].iblock[..d.inode[i].size]) else Err(BadBuffer)
    else Contents(geo, d, i)
  }

  predicate Absolute(p: Bytes) { p != [] && p[0] == SLASH }

  predicate Follows(d: Disk, i: nat, follow: bool, comps: seq<Bytes>)
    requires i < |d.inode|
  {
    d.inode[i].kind == Symlink && (follow || |comps| > 1)
  }

  /** resolve-inode from directory cur: the inode of the remaining components,
      symbolic links followed (the last one only when `follow`). */
  function Resolve(geo: Geometry, d: Disk, cur: nat, comps: seq<Bytes>, follow: bool, hops: nat): (r: Result<nat>)
    requires geo.Valid() && Fits(geo, d) && 1 <= cur <= geo.inodes && hops <= MAX_HOPS
    ensures r.Ok? ==> 1 <= r.value <= geo.inodes
    decreases MAX_HOPS - hops, |comps|
  {
    if comps == [] then Ok(cur)
    else if d.inode[cur].kind != Dir then Err(NotADirectory)
    else
      var found := Lookup(geo, d, cur, comps[0]);
      if found.Err? then Err(found.reason)
      else if found.value < 0 then Err(NotFound)
      else
        var child: nat := found.value;
        if !(1 <= child <= geo.inodes) then Err(BadInode)
        else if Follows(d, child, follow, comps) then
          var target := LinkTarget(geo, d, child);
          if target.Err? then Err(target.reason)
          else if hops >= MAX_HOPS then Err(TooManyLinks)
          else Resolve(geo, d, if Absolute(target.value) then ROOT_INO else cur,
                       Split(target.value) + comps[1..], follow, hops + 1)
        else Resolve(geo, d, child, comps[1..], follow, hops)
  }

  // ---- what lookups see in a consistent namespace ----

  lemma LookupIs(geo: Geometry, d: Disk, dir: nat, name: Bytes)
    requires geo.Valid() && Fits(geo, d) && DirOK(geo, d, dir)
    ensures Lookup(geo, d, dir, name) == Ok(FindIno(Ents(geo, d, dir), name))
  {
    hide DirWalk, Ents, FindIno, Fits, DirOK, Geometry.Valid, Fb, BlocksBytes;
    DirEntriesIs(geo, d, dir);
  }

  ghost predicate Namespace(geo: Geometry, d: Disk, live: set<nat>)
    requires geo.Valid() && Fits(geo, d)
  {
    && Numbers(geo, live) && DirsOK(geo, d, live)
    && TreeOK(TreeOf(geo, d, live))
  }

  lemma NamespaceDir(geo: Geometry, d: Disk, live: set<nat>, i: nat)
    requires geo.Valid() && Fits(geo, d) && Numbers(geo, live) && DirsOK(geo, d, live)
    requires i in live && i < |d.inode| && d.inode[i].kind == Dir
    ensures DirOK(geo, d, i) && NamesOK(geo, d, i) && i <= geo.inodes
  {
    hide DirOK, NamesOK, Fits;
  }

  /** Keys and values of the tree. */
  lemma TreeAt(geo: Geometry, d: Disk, live: set<nat>, i: nat)
    requires geo.Valid() && Fits(geo, d) && Numbers(geo, live) && DirsOK(geo, d, live)
    ensures var t := TreeOf(geo, d, live);
            && (i in t.kind <==> i in live) && (i in t.links <==> i in live)
            && (i in live ==> i < |d.inode| && t.kind[i] == d.inode[i].kind && t.links[i] == d.inode[i].links)
            && (i in t.kids <==> i in live && i < |d.inode| && d.inode[i].kind == Dir)
            && (i in t.up <==> i in t.kids)
    ensures i in TreeOf(geo, d, live).kids ==>
            && DirOK(geo, d, i) && NamesOK(geo, d, i)
            && TreeOf(geo, d, live).kids[i] == KidMap(Ents(geo, d, i))
            && TreeOf(geo, d, live).up[i] == FindIno(Ents(geo, d, i), DOTDOT)
  {
    hide Ents, KidMap, FindIno, DirOK, NamesOK;
    FitsData(geo, d);
  }

  /** A lookup is `.`, `..` or an edge of the tree. */
  lemma LookupTree(geo: Geometry, d: Disk, live: set<nat>, i: nat, name: Bytes)
    requires geo.Valid() && Fits(geo, d) && Namespace(geo, d, live)
    requires i in live && i < |d.inode| && d.inode[i].kind == Dir
    ensures i <= geo.inodes
    ensures var t, r := TreeOf(geo, d, live), Lookup(geo, d, i, name);
            && i in t.kids && i in t.up && r.Ok?
            && r.value == (if name == DOT then i else if name == DOTDOT then t.up[i]
                           else if name in t.kids[i] then t.kids[i][name] else -1)
            && (r.value >= 0 ==> r.value in live)
  {
    hide Ents, KidMap, FindIno, DirOK, Fits, Lookup, TreeOK, TreeOf, Geometry.Valid;
    TreeAt(geo, d, live, i);
    LookupIs(geo, d, i, name);
    KidMapIs(Ents(geo, d, i), name);
    UpIsLive(TreeOf(geo, d, live), i);
    var r := Lookup(geo, d, i, name).value;
    if r >= 0 { TreeAt(geo, d, live, r); }
  }

  lemma UpIsLive(t: Tree, i: nat)
    requires TreeOK(t) && i in t.kids
    ensures i in t.up && t.up[i] in t.kind
    ensures forall n :: n in t.kids[i] ==> t.kids[i][n] in t.kind
  {
    hide Refs, SubDirs, Acyclic;
  }

  /** A path that resolves names a live inode. */
  lemma {:induction false} ResolveLive(geo: Geometry, d: Disk, live: set<nat>, cur: nat, comps: seq<Bytes>, follow: bool, hops: nat)
    requires geo.Valid() && Fits(geo, d) && Namespace(geo, d, live)
    requires cur in live && 1 <= cur <= geo.inodes && hops <= MAX_HOPS && ROOT_INO in live
    ensures var r := Resolve(geo, d, cur, comps, follow, hops); r.Ok? ==> r.value in live
    decreases MAX_HOPS - hops, |comps|
  {
    hide Lookup, LinkTarget, Fits, Namespace, TreeOf, Split, Geometry.Valid;
    FitsData(geo, d);
    if comps != [] && d.inode[cur].kind == Dir {
      LookupTree(geo, d, live, cur, comps[0]);
      var found := Lookup(geo, d, cur, comps[0]);
      if found.Ok? && found.value >= 0 && 1 <= found.value <= geo.inodes {
        var child: nat := found.value;
        if Follows(d, child, follow, comps) {
          var target := LinkTarget(geo, d, child);
          if target.Ok? && hops < MAX_HOPS {
            ResolveLive(geo, d, live, if Absolute(target.value) then ROOT_INO else cur,
                        Split(target.value) + comps[1..], follow, hops + 1);
          }
        } else {
          ResolveLive(geo, d, live, child, comps[1..], follow, hops);
        }
      }
    }
  }

  lemma RootLive(geo: Geometry, d: Disk, live: set<nat>)
    requires geo.Valid() && Fits(geo, d) && Namespace(geo, d, live)
    ensures ROOT_INO in live && 1 <= ROOT_INO <= geo.inodes && d.inode[ROOT_INO].kind == Dir
  {
    hide TreeOf, DirsOK, Fits, Refs, DirLinks, Acyclic, OneParent, RefsLive;
    FitsData(geo, d);
    TreeParts(TreeOf(geo, d, live));
    TreeAt(geo, d, live, ROOT_INO);
  }

  /** One more component is one more step. */
  lemma {:induction false} ResolveSnoc(geo: Geometry, d: Disk, cur: nat, a: seq<Bytes>, nm: Bytes, follow: bool, hops: nat, p: nat, c: nat)
    requires geo.Valid() && Fits(geo, d) && 1 <= cur <= geo.inodes && hops <= MAX_HOPS
    requires Resolve(geo, d, cur, a, true, hops) == Ok(p)
    requires 1 <= c <= geo.inodes && d.inode[c].kind != Symlink && d.inode[p].kind == Dir
    requires Lookup(geo, d, p, nm) == Ok(c)
    ensures Resolve(geo, d, cur, a + [nm], follow, hops) == Ok(c)
    decreases MAX_HOPS - hops, |a|
  {
    hide Lookup, LinkTarget, Fits, Split, Geometry.Valid, Absolute;
    FitsData(geo, d);
    if a == [] {
      assert a + [nm] == [nm] && [nm][1..] == [];
    } else {
      assert (a + [nm])[1..] == a[1..] + [nm];
      var child: nat := Lookup(geo, d, cur, a[0]).value;
      if Follows(d, child, true, a) {
        var target := LinkTarget(geo, d, child).value;
        var next := if Absolute(target) then ROOT_INO else cur;
        assert (Split(target) + a[1..]) + [nm] == Split(target) + (a[1..] + [nm]);
        ResolveSnoc(geo, d, next, Split(target) + a[1..], nm, follow, hops + 1, p, c);
      } else {
        ResolveSnoc(geo, d, child, a[1..], nm, follow, hops, p, c);
      }
    }
  }

  /** Whatever was found before is still found, and leads to the same kind of
      inode and link target. */
  ghost predicate LookupsKept(geo: Geometry, d: Disk, d': Disk, live: set<nat>)
    requires geo.Valid() && Fits(geo, d) && Fits(geo, d') && Numbers(geo, live)
  {
    FitsData(geo, d);
    FitsData(geo, d');
    forall i: nat :: i in live ==>
      && d'.inode[i].kind == d.inode[i].kind
      && (d.inode[i].kind == Symlink ==> LinkTarget(geo, d', i) == LinkTarget(geo, d, i))
      && (d.inode[i].kind == Dir ==> LookupKept(geo, d, d', i))
  }

  ghost predicate LookupKept(geo: Geometry, d: Disk, d': Disk, i: nat)
    requires geo.Valid() && Fits(geo, d) && Fits(geo, d') && i <= geo.inodes
  {
    forall n :: Lookup(geo, d, i, n).Ok? && Lookup(geo, d, i, n).value >= 0 ==>
      Lookup(geo, d', i, n) == Lookup(geo, d, i, n)
  }

  /** Paths that resolved before resolve to the same inode. */
  lemma {:induction false} ResolveStable(geo: Geometry, d: Disk, d': Disk, live: set<nat>, cur: nat, comps: seq<Bytes>, follow: bool, hops: nat)
    requires geo.Valid() && Fits(geo, d) && Fits(geo, d') && Namespace(geo, d, live)
    requires Numbers(geo, live) && LookupsKept(geo, d, d', live)
    requires cur in live && 1 <= cur <= geo.inodes && hops <= MAX_HOPS && ROOT_INO in live
    requires Resolve(geo, d, cur, comps, follow, hops).Ok?
    ensures Resolve(geo, d', cur, comps, follow, hops) == Resolve(geo, d, cur, comps, follow, hops)
    decreases MAX_HOPS - hops, |comps|
  {
    hide Lookup, LinkTarget, Fits, Namespace, TreeOf, Split, Geometry.Valid, Absolute;
    FitsData(geo, d);
    FitsData(geo, d');
    if comps != [] {
      LookupTree(geo, d, live, cur, comps[0]);
      assert LookupKept(geo, d, d', cur);
      var child: nat := Lookup(geo, d, cur, comps[0]).value;
      if Follows(d, child, follow, comps) {
        var target := LinkTarget(geo, d, child);
        ResolveStable(geo, d, d', live, if Absolute(target.value) then ROOT_INO else cur,
                      Split(target.value) + comps[1..], follow, hops + 1);
      } else {
        ResolveStable(geo, d, d', live, child, comps[1..], follow, hops);
      }
    }
  }

  // ---- canonical paths ----

  /** Only plain names, and no symbolic link on the way or at the end. */
  ghost predicate Canonical(t: Tree, cur: int, comps: seq<Bytes>)
    decreases |comps|
  {
    comps == [] ||
    (Plain(comps[0])
     && (cur in t.kids && comps[0] in t.kids[cur] ==>
           && t.kids[cur][comps[0]] in t.kind
           && t.kind[t.kids[cur][comps[0]]] != Symlink
           && Canonical(t, t.kids[cur][comps[0]], comps[1..])))
  }

  /** A canonical path resolves along the edges of the tree. */
  lemma {:induction false} ResolveIsWalk(geo: Geometry, d: Disk, live: set<nat>, cur: nat, comps: seq<Bytes>, follow: bool, hops: nat)
    requires geo.Valid() && Fits(geo, d) && Namespace(geo, d, live)
    requires cur in live && 1 <= cur <= geo.inodes && hops <= MAX_HOPS
    requires Canonical(TreeOf(geo, d, live), cur, comps)
    requires Resolve(geo, d, cur, comps, follow, hops).Ok?
    ensures Walk(TreeOf(geo, d, live), cur, comps) == Resolve(geo, d, cur, comps, follow, hops).value
    decreases |comps|
  {
    hide Lookup, LinkTarget, Fits, Namespace, TreeOf, Split, Geometry.Valid, Absolute;
    FitsData(geo, d);
    if comps != [] {
      LookupTree(geo, d, live, cur, comps[0]);
      var child: nat := Lookup(geo, d, cur, comps[0]).value;
      KindIs(geo, d, live, child);
      ResolveIsWalk(geo, d, live, child, comps[1..], follow, hops);
    }
  }

  lemma KindIs(geo: Geometry, d: Disk, live: set<nat>, i: nat)
    requires geo.Valid() && Fits(geo, d) && Namespace(geo, d, live) && i in live
    ensures i <= geo.inodes && TreeOf(geo, d, live).kind[i] == d.inode[i].kind
  {
    hide TreeOf, DirsOK, Fits, TreeOK;
    FitsData(geo, d);
    TreeAt(geo, d, live, i);
  }

  // ---- parent-and-name and read-bytes ----

  /** The parent directory's inode and the last component. */
  function ParentAndName(geo: Geometry, d: Disk, path: Bytes): (r: Result<(nat, Bytes)>)
    requires geo.Valid() && Fits(geo, d)
    ensures r.Ok? ==> 1 <= r.value.0 <= geo.inodes && d.inode[r.value.0].kind == Dir
  {
    RootInRange(geo, d);
    var comps := Split(path);
    if comps == [] then Err(IsRoot)
    else
      var n := |comps| - 1;
      var parent := Resolve(geo, d, ROOT_INO, Split(Norm(comps[..n])), true, 0);
      if parent.Err? then Err(parent.reason)
      else if d.inode[parent.value].kind != Dir then Err(NotADirectory)
      else Ok((parent.value, comps[n]))
  }

  lemma RootInRange(geo: Geometry, d: Disk)
    requires geo.Valid() && Fits(geo, d)
    ensures 1 <= ROOT_INO <= geo.inodes && |d.inode| == geo.inodes + 1
  {
    FitsData(geo, d);
  }

  /** Joining and splitting again gives the parent's components. */
  lemma ParentIs(geo: Geometry, d: Disk, path: Bytes)
    requires geo.Valid() && Fits(geo, d) && ParentAndName(geo, d, path).Ok?
    ensures var comps, r := Split(path), ParentAndName(geo, d, path).value;
            && comps != [] && r.1 == comps[|comps| - 1] && 1 <= ROOT_INO <= geo.inodes
            && Resolve(geo, d, ROOT_INO, comps[..|comps| - 1], true, 0) == Ok(r.0)
  {
    hide Resolve, Split, Norm, Fits;
    SplitParts(path);
    SplitNorm(Split(path)[..|Split(path)| - 1]);
  }

  /** The contents of the file a path names. */
  function BytesAt(geo: Geometry, d: Disk, path: Bytes): Result<Bytes>
    requires geo.Valid() && Fits(geo, d)
  {
    RootInRange(geo, d);
    var i := Resolve(geo, d, ROOT_INO, Split(path), true, 0);
    if i.Err? then Err(i.reason)
    else if d.inode[i.value].kind != File then Err(NotAFile)
    else Contents(geo, d, i.value)
  }
}
