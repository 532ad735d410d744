/** When each writing operation is refused, and why, said of the tree of a consistent disk
    (lib/ext2.beer:688-885). */
module Ext2Checks {
  import opened Bytes
  import opened Ext2Disk
  import opened Ext2Store
  import opened Ext2Dir
  import opened Ext2Path
  import opened Ext2Lookup
  import opened Ext2Books
  import opened Ext2Ops
  import opened Ext2Write
  import opened Ext2Mv
  import opened Ext2Tree

  // ---- parents ----

  /** A path has a parent exactly when it has a component, and the components before the last
      resolve to a directory. */
  lemma ParentExact(geo: Geometry, d: Disk, path: Bytes)
    requires geo.Valid() && Fits(geo, d) && 1 <= ROOT_INO <= geo.inodes
    ensures var comps := Split(path); var n := |comps| - 1;
            ParentAndName(geo, d, path) ==
              if comps == [] then Err(IsRoot)
              else
                var dir := Resolve(geo, d, ROOT_INO, comps[..n], true, 0);
                if dir.Err? then Err(dir.reason)
                else if !IsDirectory(d, dir.value) then Err(NotADirectory)
                else Ok((dir.value, comps[n]))
  {
    hide Resolve, Split, Norm, Fits;
    FitsData(geo, d);
    SplitParts(path);
    if Split(path) != [] { SplitNorm(Split(path)[..|Split(path)| - 1]); }
  }

  predicate IsDirectory(d: Disk, i: nat) { i < |d.inode| && d.inode[i].kind == Dir }

  /** The inode that the name has below directory p, -1 for none. */
  ghost function Below(t: Tree, p: nat, nm: Bytes): int
    requires p in t.kids
  {
    if nm in t.kids[p] then t.kids[p][nm] else -1
  }

  /** The name is there, and its inode is of this kind. */
  ghost predicate Holds(t: Tree, p: nat, nm: Bytes, k: Kind)
    requires p in t.kids
  {
    nm in t.kids[p] && t.kids[p][nm] in t.kind && t.kind[t.kids[p][nm]] == k
  }

  lemma BelowIs(geo: Geometry, d: Disk, path: Bytes)
    requires geo.Valid() && Consistent(geo, d) && Fits(geo, d) && Nameable(geo, d, path)
    ensures var pn, t := ParentAndName(geo, d, path), NamespaceOf(geo, d);
            if pn.Err? then Target(geo, d, path) == Err(pn.reason)
            else
              var (p, nm) := pn.value;
              && p in t.kids && Target(geo, d, path) == Ok((p, nm, Below(t, p, nm)))
              && (nm in t.kids[p] ==>
                    var i := t.kids[p][nm];
                    i in t.kind && i < |d.inode| && i <= geo.inodes && t.kind[i] == d.inode[i].kind && (t.kind[i] == Dir ==> i in t.kids))
  {
    hide Consistent, Fits, NamespaceOf, ParentAndName, Lookup, Nameable, ConsistentLive;
    if ParentAndName(geo, d, path).Ok? {
      TargetIs(geo, d, path);
      var (p, nm, i) := Target(geo, d, path).value;
      if i >= 0 { RmTarget(geo, d, path, p, nm, i); }
    }
  }

  // ---- one path ----

  /** mkdir! and symlink!: the name must be free. */
  lemma CreateCheckExact(geo: Geometry, d: Disk, path: Bytes)
    requires geo.Valid() && Consistent(geo, d) && Fits(geo, d) && Nameable(geo, d, path)
    ensures var pn, t := ParentAndName(geo, d, path), NamespaceOf(geo, d);
            if pn.Err? then CreateCheck(geo, d, path) == Err(pn.reason)
            else
              var (p, nm) := pn.value;
              p in t.kids && CreateCheck(geo, d, path) == if nm in t.kids[p] then Err(Exists) else Ok((p, nm))
  {
    hide Consistent, Fits, NamespaceOf, ParentAndName, Target, Nameable;
    BelowIs(geo, d, path);
  }

  /** What the name gives to write to: the file's inode, -1 for a new one. */
  ghost function Writable(t: Tree, p: nat, nm: Bytes): Result<(nat, Bytes, int)>
    requires p in t.kids
  {
    if nm !in t.kids[p] then Ok((p, nm, -1))
    else if Holds(t, p, nm, File) then Ok((p, nm, t.kids[p][nm]))
    else Err(NotAFile)
  }

  /** write-file!: the name must be free or a file's. */
  lemma WriteCheckExact(geo: Geometry, d: Disk, path: Bytes)
    requires geo.Valid() && Consistent(geo, d) && Fits(geo, d) && Nameable(geo, d, path)
    ensures var pn, t := ParentAndName(geo, d, path), NamespaceOf(geo, d);
            if pn.Err? then WriteCheck(geo, d, path) == Err(pn.reason)
            else pn.value.0 in t.kids && WriteCheck(geo, d, path) == Writable(t, pn.value.0, pn.value.1)
  {
    hide Consistent, Fits, NamespaceOf, ParentAndName, Target, Nameable;
    BelowIs(geo, d, path);
  }

  /** rm!: the name must be there and not a directory's. */
  lemma RmCheckExact(geo: Geometry, d: Disk, path: Bytes)
    requires geo.Valid() && Consistent(geo, d) && Fits(geo, d) && Nameable(geo, d, path)
    ensures var pn, t := ParentAndName(geo, d, path), NamespaceOf(geo, d);
            if pn.Err? then RmCheck(geo, d, path) == Err(pn.reason)
            else
              var (p, nm) := pn.value;
              && p in t.kids
              && RmCheck(geo, d, path) ==
                   if nm !in t.kids[p] then Err(NotFound)
                   else if Holds(t, p, nm, Dir) then Err(IsADirectory)
                   else Ok((p, nm, t.kids[p][nm]))
  {
    hide Consistent, Fits, NamespaceOf, ParentAndName, Target, Nameable;
    BelowIs(geo, d, path);
  }

  /** rmdir!: the name must be there, a directory's, and that directory empty. */
  lemma RmdirCheckExact(geo: Geometry, d: Disk, path: Bytes)
    requires geo.Valid() && Consistent(geo, d) && Fits(geo, d) && Nameable(geo, d, path)
    ensures var pn, t := ParentAndName(geo, d, path), NamespaceOf(geo, d);
            if pn.Err? then RmdirCheck(geo, d, path) == Err(pn.reason)
            else
              var (p, nm) := pn.value;
              && p in t.kids
              && RmdirCheck(geo, d, path) ==
                   if nm !in t.kids[p] then Err(NotFound)
                   else if !Holds(t, p, nm, Dir) then Err(NotADirectory)
                   else if !EmptyDir(t, t.kids[p][nm]) then Err(NotEmpty)
                   else Ok((p, nm, t.kids[p][nm]))
  {
    hide Consistent, Fits, NamespaceOf, ParentAndName, Target, Nameable, EntriesOf, OnlyDots;
    BelowIs(geo, d, path);
    var t, target := NamespaceOf(geo, d), Target(geo, d, path);
    if target.Ok? && target.value.2 >= 0 && t.kind[target.value.2] == Dir {
      var (p, nm, i) := target.value;
      EmptyTarget(geo, d, path, p, nm, i);
    }
  }

  /** Directory i has nothing but `.` and `..`. */
  ghost predicate EmptyDir(t: Tree, i: nat) { i in t.kids && t.kids[i] == map[] }

  // ---- mv! ----

  /** Why inode o cannot give way to inode i, if so. */
  ghost function Replaces(t: Tree, i: nat, o: nat): Result<()>
    requires i in t.kind && o in t.kind
  {
    if t.kind[i] == Dir && t.kind[o] != Dir then Err(NotADirectory)
    else if t.kind[i] != Dir && t.kind[o] == Dir then Err(IsADirectory)
    else if t.kind[i] == Dir && !EmptyDir(t, o) then Err(NotEmpty)
    else Ok(())
  }

  lemma OldCheckIs(geo: Geometry, d: Disk, t: Tree, i: nat, o: nat)
    requires geo.Valid() && Fits(geo, d) && i in t.kind && o in t.kind
    requires o < |d.inode| && o <= geo.inodes && t.kind[o] == d.inode[o].kind
    requires t.kind[o] == Dir ==> EntriesOf(geo, d, o).Ok? && (OnlyDots(EntriesOf(geo, d, o).value) <==> EmptyDir(t, o))
    ensures OldCheck(geo, d, o, t.kind[i] == Dir) == Replaces(t, i, o)
  {
    hide Fits, EntriesOf, OnlyDots, EmptyDir, Geometry.Valid;
  }

  lemma OldCheckExact(geo: Geometry, d: Disk, to: Bytes, i: nat)
    requires geo.Valid() && Consistent(geo, d) && Fits(geo, d) && Nameable(geo, d, to)
    requires ParentAndName(geo, d, to).Ok? && i in NamespaceOf(geo, d).kind
    ensures var (p, nm) := ParentAndName(geo, d, to).value; var t := NamespaceOf(geo, d);
            && p in t.kids
            && (nm in t.kids[p] ==>
                  t.kids[p][nm] in t.kind && OldCheck(geo, d, t.kids[p][nm], t.kind[i] == Dir) == Replaces(t, i, t.kids[p][nm]))
  {
    hide Consistent, Fits, NamespaceOf, ParentAndName, Target, Nameable, EntriesOf, OnlyDots, OldCheck, Replaces;
    BelowIs(geo, d, to);
    var t := NamespaceOf(geo, d);
    var (p, nm, o) := Target(geo, d, to).value;
    if o >= 0 {
      if t.kind[o] == Dir { EmptyTarget(geo, d, to, p, nm, o); }
      OldCheckIs(geo, d, t, i, o);
    }
  }

  /** The comparison of the two paths: one list of components continues the other. */
  lemma InsideExact(from_: Bytes, to: Bytes)
    requires Split(from_) != []
    ensures InsidePath(Norm(Split(from_)), Norm(Split(to))) <==> Split(from_) <= Split(to)
  {
    hide Split;
    SplitParts(from_);
    SplitParts(to);
    if Split(to) != [] { InsideIsPrefix(Split(from_), Split(to)); }
  }

  lemma Components(geo: Geometry, d: Disk, path: Bytes)
    requires geo.Valid() && Fits(geo, d) && ParentAndName(geo, d, path).Ok?
    ensures Split(path) != []
  {
    hide Resolve, Split, Fits;
  }

  /** mv!: the source must be there; a directory must not go to a path that continues its own;
      what is in the way must be of the same sort, and empty if it is a directory. */
  lemma MvCheckExact(geo: Geometry, d: Disk, from_: Bytes, to: Bytes)
    requires geo.Valid() && Consistent(geo, d) && Fits(geo, d) && Nameable(geo, d, from_) && Nameable(geo, d, to)
    ensures var pn1, pn2, t := ParentAndName(geo, d, from_), ParentAndName(geo, d, to), NamespaceOf(geo, d);
            if pn1.Err? then MvCheck(geo, d, from_, to) == Err(pn1.reason)
            else
              var (p1, n1) := pn1.value;
              && p1 in t.kids
              && if n1 !in t.kids[p1] then MvCheck(geo, d, from_, to) == Err(NotFound)
                 else
                   var i := t.kids[p1][n1];
                   && i in t.kind
                   && if t.kind[i] == Dir && Split(from_) <= Split(to) then MvCheck(geo, d, from_, to) == Err(IntoItself)
                      else if pn2.Err? then MvCheck(geo, d, from_, to) == Err(pn2.reason)
                      else
                        var (p2, n2) := pn2.value;
                        && p2 in t.kids && (n2 in t.kids[p2] ==> t.kids[p2][n2] in t.kind)
                        && MvCheck(geo, d, from_, to) ==
                             if n2 in t.kids[p2] && t.kids[p2][n2] != i && Replaces(t, i, t.kids[p2][n2]).Err?
                             then Err(Replaces(t, i, t.kids[p2][n2]).reason)
                             else Ok(Plan(p1, n1, i, p2, n2, Below(t, p2, n2)))
  {
    hide Consistent, Fits, NamespaceOf, ParentAndName, Target, Nameable, OldCheck, Replaces, Split, InsidePath, Norm;
    BelowIs(geo, d, from_);
    BelowIs(geo, d, to);
    var pn1, t := ParentAndName(geo, d, from_), NamespaceOf(geo, d);
    if pn1.Ok? && pn1.value.1 in t.kids[pn1.value.0] {
      Components(geo, d, from_);
      InsideExact(from_, to);
      if ParentAndName(geo, d, to).Ok? { OldCheckExact(geo, d, to, t.kids[pn1.value.0][pn1.value.1]); }
    }
  }
}
