/** mv! on paths (lib/ext2.beer:817-858). */
module Ext2Mv {
  import opened Bytes
  import opened Ext2Disk
  import opened Ext2DirBlock
  import opened Ext2DirData
  import opened Ext2Store
  import opened Ext2Dir
  import opened Ext2DirOps
  import opened Ext2Names
  import opened Ext2Path
  import opened Ext2Lookup
  import opened Ext2Alloc
  import opened Ext2Books
  import opened Ext2Views
  import opened Ext2Create
  import opened Ext2Make
  import opened Ext2Remove
  import opened Ext2Move
  import opened Ext2Ops
  import opened Ext2Tree

  // ---- canonical paths on the disk ----

  /** From cur, the components are plain names and none is a symbolic link. */
  predicate CanonicalOn(geo: Geometry, d: Disk, cur: nat, comps: seq<Bytes>)
    requires geo.Valid() && Fits(geo, d) && 1 <= cur <= geo.inodes
    decreases |comps|
  {
    FitsData(geo, d);
    comps == [] ||
    (Plain(comps[0])
     && (d.inode[cur].kind == Dir ==>
           var found := Lookup(geo, d, cur, comps[0]);
           found.Ok? && 1 <= found.value <= geo.inodes ==>
             d.inode[found.value].kind != Symlink && CanonicalOn(geo, d, found.value, comps[1..])))
  }

  lemma {:induction false} CanonicalIs(geo: Geometry, d: Disk, live: set<nat>, cur: nat, comps: seq<Bytes>)
    requires geo.Valid() && Fits(geo, d) && Namespace(geo, d, live) && 1 <= cur <= geo.inodes && cur in live
    requires CanonicalOn(geo, d, cur, comps)
    ensures Numbers(geo, live) && DirsOK(geo, d, live) && Canonical(TreeOf(geo, d, live), cur, comps)
    decreases |comps|
  {
    hide Fits, TreeOf, Lookup, DirsOK, DirOK, NamesOK, Ents, KidMap, TreeOK, Plain;
    FitsData(geo, d);
    var t := TreeOf(geo, d, live);
    TreeAt(geo, d, live, cur);
    if comps != [] && cur in t.kids && comps[0] in t.kids[cur] {
      PlainKid(geo, d, live, cur, comps[0]);
      CanonicalIs(geo, d, live, t.kids[cur][comps[0]], comps[1..]);
    }
  }

  /** An entry of the tree, found by lookup. */
  lemma PlainKid(geo: Geometry, d: Disk, live: set<nat>, cur: nat, name: Bytes)
    requires geo.Valid() && Fits(geo, d) && Namespace(geo, d, live)
    requires Numbers(geo, live) && DirsOK(geo, d, live)
    requires var t := TreeOf(geo, d, live); cur in t.kids && name in t.kids[cur]
    ensures cur < |d.inode| && cur <= geo.inodes && d.inode[cur].kind == Dir
    ensures var t := TreeOf(geo, d, live); var i := t.kids[cur][name];
            && Lookup(geo, d, cur, name) == Ok(i) && i in live && 1 <= i <= geo.inodes && i < |d.inode|
            && i in t.kind && t.kind[i] == d.inode[i].kind
  {
    hide Fits, Namespace, TreeOf, Lookup, DirsOK, DirOK, NamesOK, Ents, KidMap, FindIno;
    FitsData(geo, d);
    TreeAt(geo, d, live, cur);
    KidMapIs(Ents(geo, d, cur), name);
    LookupTree(geo, d, live, cur, name);
    TreeAt(geo, d, live, TreeOf(geo, d, live).kids[cur][name]);
  }

  /** The path up to its last component is canonical. */
  predicate PlainParents(geo: Geometry, d: Disk, path: Bytes)
    requires geo.Valid() && Fits(geo, d)
  {
    RootInRange(geo, d);
    var comps := Split(path);
    comps != [] ==> CanonicalOn(geo, d, ROOT_INO, comps[..|comps| - 1])
  }

  lemma ParentWalk(geo: Geometry, d: Disk, live: set<nat>, path: Bytes, p: nat, nm: Bytes)
    requires geo.Valid() && Fits(geo, d) && Namespace(geo, d, live) && PlainParents(geo, d, path)
    requires ParentAndName(geo, d, path) == Ok((p, nm))
    ensures Numbers(geo, live) && DirsOK(geo, d, live)
    ensures var comps, t := Split(path), TreeOf(geo, d, live);
            comps != [] && comps[|comps| - 1] == nm && Walk(t, ROOT_INO, comps[..|comps| - 1]) == p
  {
    hide Fits, TreeOf, Resolve, DirsOK, Split, ParentAndName, TreeOK, CanonicalOn, Canonical, Walk;
    RootInRange(geo, d);
    RootLive(geo, d, live);
    ParentIs(geo, d, path);
    var comps := Split(path);
    CanonicalIs(geo, d, live, ROOT_INO, comps[..|comps| - 1]);
    ResolveIsWalk(geo, d, live, ROOT_INO, comps[..|comps| - 1], true, 0);
  }

  // ---- the checks ----

  datatype Plan = Plan(p1: nat, n1: Bytes, i: nat, p2: nat, n2: Bytes, old_: int)

  function MvCheck(geo: Geometry, d: Disk, from_: Bytes, to: Bytes): (r: Result<Plan>)
    requires geo.Valid() && Fits(geo, d)
    ensures r.Ok? ==> 1 <= r.value.p2 <= geo.inodes && r.value.i < |d.inode|
  {
    var source := Target(geo, d, from_);
    if source.Err? then Err(source.reason)
    else
      var (p1, n1, i) := source.value;
      if i < 0 then Err(NotFound)
      else if i >= |d.inode| then Err(BadInode)
      else if d.inode[i].kind == Dir && InsidePath(Norm(Split(from_)), Norm(Split(to))) then Err(IntoItself)
      else
        var dest := Target(geo, d, to);
        if dest.Err? then Err(dest.reason)
        else
          var (p2, n2, o) := dest.value;
          if o != i && o >= 0 && OldCheck(geo, d, o, d.inode[i].kind == Dir).Err? then
            Err(OldCheck(geo, d, o, d.inode[i].kind == Dir).reason)
          else Ok(Plan(p1, n1, i, p2, n2, o))
  }

  /** May inode o give way to a directory, or to something else? */
  function OldCheck(geo: Geometry, d: Disk, o: nat, dir: bool): Result<()>
    requires geo.Valid() && Fits(geo, d)
  {
    if o >= |d.inode| || o > geo.inodes then Err(BadInode)
    else if dir && d.inode[o].kind != Dir then Err(NotADirectory)
    else if !dir && d.inode[o].kind == Dir then Err(IsADirectory)
    else if dir then
      var es := EntriesOf(geo, d, o);
      if es.Err? then Err(es.reason) else if !OnlyDots(es.value) then Err(NotEmpty) else Ok(())
    else Ok(())
  }

  /** The tree once the replaced target is gone. */
  ghost function Cleared(t: Tree, plan: Plan): Tree
    requires plan.p2 in t.kids && plan.p2 in t.links
    requires plan.old_ >= 0 ==> plan.n2 in t.kids[plan.p2] && t.kids[plan.p2][plan.n2] in t.links
  {
    if plan.old_ < 0 then t
    else if IsDir(t, t.kids[plan.p2][plan.n2]) then RemoveDir(t, plan.p2, plan.n2)
    else RemoveFile(t, plan.p2, plan.n2)
  }

  /** mv!: the target gives way, the entry moves, and the texts of all inodes
      that remain are as before; a move onto itself changes nothing.  The names that
      are left need not be a tree. */
  ghost predicate MovedTo(geo: Geometry, d: Disk, d': Disk, from_: Bytes, to: Bytes)
    requires geo.Valid() && Consistent(geo, d) && Fits(geo, d)
  {
    && MvCheck(geo, d, from_, to).Ok?
    && var plan := MvCheck(geo, d, from_, to).value; var t := NamespaceOf(geo, d);
    && PlanFits(t, plan)
    && (if plan.old_ == plan.i then d' == d
        else
          && Linkable(Cleared(t, plan), plan)
          && var live := Cleared(t, plan).kind.Keys;
             Relaid(geo, d, d', live, Relinked(Cleared(t, plan), plan.p1, plan.n1, plan.p2, plan.n2), live))
  }

  /** The plan's names and inodes are those of the tree. */
  ghost predicate PlanFits(t: Tree, plan: Plan) {
    && plan.p1 in t.kids && plan.n1 in t.kids[plan.p1] && t.kids[plan.p1][plan.n1] == plan.i
    && plan.p2 in t.kids && plan.p2 in t.links
    && (if plan.old_ < 0 then plan.n2 !in t.kids[plan.p2]
        else plan.n2 in t.kids[plan.p2] && t.kids[plan.p2][plan.n2] == plan.old_ && plan.old_ in t.links)
  }

  ghost predicate Linkable(t: Tree, plan: Plan) {
    && plan.p1 in t.kids && plan.n1 in t.kids[plan.p1] && plan.p2 in t.kids && plan.p1 in t.links && plan.p2 in t.links
  }

  // ---- what the checks give ----

  ghost predicate Allowed(t: Tree, plan: Plan) {
    && TreeOK(t) && PlanFits(t, plan) && plan.old_ != plan.i
    && (plan.old_ >= 0 ==>
          && IsDir(t, plan.old_) == IsDir(t, plan.i)
          && (IsDir(t, plan.old_) ==> plan.old_ in t.kids && t.kids[plan.old_] == map[]))
  }

  lemma PlanFitsIs(t: Tree, plan: Plan)
    requires PlanFits(t, plan)
    ensures plan.p2 in t.kids && plan.p2 in t.links
    ensures plan.old_ >= 0 ==> plan.n2 in t.kids[plan.p2] && t.kids[plan.p2][plan.n2] in t.links
  {}

  lemma ClearedFile(t: Tree, plan: Plan)
    requires Allowed(t, plan) && plan.old_ >= 0 && !IsDir(t, plan.old_)
    ensures var c := RemoveFile(t, plan.p2, plan.n2);
            && Movable(c, plan.p1, plan.n1, plan.p2, plan.n2) && c.kids[plan.p1][plan.n1] == plan.i
            && plan.p1 in c.links && plan.p2 in c.links && IsDir(c, plan.i) == IsDir(t, plan.i)
  {
    hide TreeOK, Refs;
    RemoveFileKeeps(t, plan.p2, plan.n2);
    TreeParts(t);
    RemoveFileShape(t, plan.p2, plan.n2);
  }

  lemma ClearedDir(t: Tree, plan: Plan)
    requires Allowed(t, plan) && plan.old_ >= 0 && IsDir(t, plan.old_)
    ensures var c := RemoveDir(t, plan.p2, plan.n2);
            && Movable(c, plan.p1, plan.n1, plan.p2, plan.n2) && c.kids[plan.p1][plan.n1] == plan.i
            && plan.p1 in c.links && plan.p2 in c.links && IsDir(c, plan.i) == IsDir(t, plan.i)
  {
    hide TreeOK, Refs;
    RemoveDirKeeps(t, plan.p2, plan.n2);
    TreeParts(t);
    EmptyHoldsNone(t, plan.p2, plan.n2);
    RemoveDirShape(t, plan.p2, plan.n2);
  }

  lemma NothingToClear(t: Tree, plan: Plan)
    requires Allowed(t, plan) && plan.old_ < 0
    ensures Cleared(t, plan) == t && Movable(t, plan.p1, plan.n1, plan.p2, plan.n2) && Linkable(t, plan)
  {
    hide TreeOK;
    TreeParts(t);
  }

  /** Once the target is gone the entry can move. */
  lemma ClearedIs(t: Tree, plan: Plan)
    requires Allowed(t, plan)
    ensures PlanFits(t, plan)
    ensures var c := Cleared(t, plan);
            && Movable(c, plan.p1, plan.n1, plan.p2, plan.n2) && Linkable(c, plan)
            && c.kids[plan.p1][plan.n1] == plan.i && IsDir(c, plan.i) == IsDir(t, plan.i)
  {
    hide TreeOK, RemoveFile, RemoveDir;
    if plan.old_ < 0 {
      NothingToClear(t, plan);
    } else if IsDir(t, plan.old_) {
      ClearedDir(t, plan);
    } else {
      ClearedFile(t, plan);
    }
  }

  // ---- nothing stands below the target ----

  lemma UpHas(t: Tree, plan: Plan)
    requires Shaped(t) && PlanFits(t, plan)
    ensures plan.p2 in t.up
  {}

  lemma {:induction false} UnderLess(up: map<nat, nat>, rank: map<nat, nat>, o: nat, j: nat, i: nat)
    requires Ranks(up, rank) && UpClosed(up) && Ranks(up - {o}, rank) && UpClosed(up - {o})
    requires j in up && j != o
    ensures Under(up - {o}, rank, j, i) == Under(up, rank, j, i)
    decreases if j in rank then rank[j] else 0
  {
    hide UpClosed;
    if j != i && j != ROOT_INO {
      LessClosed(up, rank, o, j);
      UnderStep(up, rank, j, i);
      UnderStep(up - {o}, rank, j, i);
      UnderLess(up, rank, o, up[j], i);
    }
  }

  lemma LessClosed(up: map<nat, nat>, rank: map<nat, nat>, o: nat, j: nat)
    requires Ranks(up, rank) && UpClosed(up) && UpClosed(up - {o}) && j in up && j != o
    ensures up[j] in up && up[j] != o && (up - {o})[j] == up[j]
    ensures j != ROOT_INO ==> j in rank && up[j] in rank && rank[up[j]] < rank[j]
  {
    var less := up - {o};
    assert j in less && less[j] in less;
  }

  lemma ClearedUp(t: Tree, plan: Plan)
    requires Allowed(t, plan)
    ensures PlanFits(t, plan)
    ensures Cleared(t, plan).up == if plan.old_ >= 0 && IsDir(t, plan.old_) then t.up - {plan.old_} else t.up
    ensures plan.old_ >= 0 && IsDir(t, plan.old_) ==> plan.p2 != plan.old_
  {
    hide TreeOK, Refs;
    if plan.old_ >= 0 && IsDir(t, plan.old_) {
      EmptyHoldsNone(t, plan.p2, plan.n2);
    }
  }

  /** So the moved directory has the same directories below it. */
  lemma ClearedUnder(t: Tree, rank: map<nat, nat>, plan: Plan)
    requires Allowed(t, plan) && Ranks(t.up, rank)
    ensures PlanFits(t, plan) && UpClosed(t.up) && plan.p2 in t.up
    ensures var up := Cleared(t, plan).up;
            && Ranks(up, rank) && UpClosed(up) && plan.p2 in up
            && (Under(up, rank, plan.p2, plan.i) <==> Under(t.up, rank, plan.p2, plan.i))
  {
    hide TreeOK, Movable, Under, Cleared, UpClosed;
    ClearedIs(t, plan);
    ClearedUp(t, plan);
    UpLive(t);
    UpHas(t, plan);
    MovableTree(Cleared(t, plan), plan);
    UpLive(Cleared(t, plan));
    if plan.old_ >= 0 && IsDir(t, plan.old_) {
      UnderLess(t.up, rank, plan.old_, plan.p2, plan.i);
    }
  }

  lemma MovableTree(t: Tree, plan: Plan)
    requires Movable(t, plan.p1, plan.n1, plan.p2, plan.n2)
    ensures TreeOK(t)
  {
    hide TreeOK;
  }

  // ---- a plan that passed its checks ----

  lemma PlanTargets(geo: Geometry, d: Disk, from_: Bytes, to: Bytes)
    requires geo.Valid() && Fits(geo, d) && MvCheck(geo, d, from_, to).Ok?
    ensures var plan := MvCheck(geo, d, from_, to).value;
            && Target(geo, d, from_) == Ok((plan.p1, plan.n1, plan.i)) && Target(geo, d, to) == Ok((plan.p2, plan.n2, plan.old_))
            && plan.i < |d.inode| && -1 <= plan.old_
            && (d.inode[plan.i].kind == Dir ==> !InsidePath(Norm(Split(from_)), Norm(Split(to))))
            && (plan.old_ != plan.i && plan.old_ >= 0 ==> OldCheck(geo, d, plan.old_, d.inode[plan.i].kind == Dir).Ok?)
  {
    hide Fits, ParentAndName, Lookup, InsidePath, Norm, Split, OldCheck;
  }

  /** The moved directory does not go below itself. */
  lemma PlanBelow(geo: Geometry, d: Disk, live: set<nat>, from_: Bytes, to: Bytes, plan: Plan, rank: map<nat, nat>)
    requires geo.Valid() && Fits(geo, d) && Namespace(geo, d, live) && PlainParents(geo, d, from_) && PlainParents(geo, d, to)
    requires ParentAndName(geo, d, from_) == Ok((plan.p1, plan.n1)) && ParentAndName(geo, d, to) == Ok((plan.p2, plan.n2))
    requires !InsidePath(Norm(Split(from_)), Norm(Split(to)))
    requires Numbers(geo, live) && DirsOK(geo, d, live)
    requires var t := TreeOf(geo, d, live);
             && TreeOK(t) && PlanFits(t, plan) && Ranks(t.up, rank)
    ensures var up := TreeOf(geo, d, live).up;
            UpClosed(up) && plan.p2 in up && !Under(up, rank, plan.p2, plan.i)
  {
    hide Fits, TreeOf, Namespace, DirsOK, Split, ParentAndName, TreeOK, PlainParents, Walk, InsidePath, Under, UpClosed, Ranks;
    var t := TreeOf(geo, d, live);
    var fs, ts := Split(from_), Split(to);
    ParentWalk(geo, d, live, from_, plan.p1, plan.n1);
    ParentWalk(geo, d, live, to, plan.p2, plan.n2);
    UpLive(t);
    SplitParts(from_);
    SplitParts(to);
    InsideIsPrefix(fs, ts);
    WalkOn(t, fs, plan.p1, plan.n1);
    NotIntoItself(t, rank, fs, ts);
  }

  lemma WalkOn(t: Tree, path: seq<Name>, p: nat, n: Name)
    requires path != [] && path[|path| - 1] == n && Walk(t, ROOT_INO, path[..|path| - 1]) == p
    requires p in t.kids && n in t.kids[p]
    ensures Walk(t, ROOT_INO, path) == t.kids[p][n]
  {
    hide Walk;
    var k := |path| - 1;
    assert path == path[..k] + [n];
    WalkConcat(t, ROOT_INO, path[..k], [n]);
    WalkOne(t, p, n);
  }

  lemma SomeRank(t: Tree) returns (rank: map<nat, nat>)
    requires TreeOK(t)
    ensures Ranks(t.up, rank)
  {
    hide Refs, SubDirs, DirLinks, OneParent, RefsLive, Ranks;
    TreeParts(t);
    rank :| Ranks(t.up, rank);
  }

  // ---- following `..` ----

  /** Following `..` from directory j for at most `fuel` steps meets i. */
  predicate Climbs(geo: Geometry, d: Disk, j: nat, i: nat, fuel: nat)
    requires geo.Valid() && Fits(geo, d) && 1 <= j <= geo.inodes
    decreases fuel
  {
    j == i
    || (j != ROOT_INO && fuel > 0
        && var up := Lookup(geo, d, j, DOTDOT);
           up.Ok? && 1 <= up.value <= geo.inodes && Climbs(geo, d, up.value, i, fuel - 1))
  }

  /** The directories that rank below j: the climb from j can only visit these. */
  ghost function Lower(up: map<nat, nat>, rank: map<nat, nat>, j: nat): set<nat>
    requires Ranks(up, rank) && j in up
  {
    set k | k in up && rank[k] < rank[j]
  }

  lemma LowerUp(up: map<nat, nat>, rank: map<nat, nat>, j: nat)
    requires Ranks(up, rank) && UpClosed(up) && j in up && j != ROOT_INO
    ensures up[j] in up && |Lower(up, rank, up[j])| < |Lower(up, rank, j)|
  {
    var p := up[j];
    var s, s' := Lower(up, rank, j), Lower(up, rank, p);
    assert p in s && p !in s' && s' <= s - {p};
    Fewer(s', s - {p});
  }

  lemma Fewer(s: set<nat>, t: set<nat>)
    requires s <= t
    ensures |s| <= |t|
  {
    assert t == s + (t - s);
  }

  lemma {:induction false} ClimbsUnder(geo: Geometry, d: Disk, live: set<nat>, rank: map<nat, nat>, j: nat, i: nat, fuel: nat)
    requires geo.Valid() && Fits(geo, d) && Namespace(geo, d, live) && Numbers(geo, live) && DirsOK(geo, d, live)
    requires var up := TreeOf(geo, d, live).up; Ranks(up, rank) && UpClosed(up) && j in up && |Lower(up, rank, j)| <= fuel
    ensures 1 <= j <= geo.inodes && (Climbs(geo, d, j, i, fuel) <==> Under(TreeOf(geo, d, live).up, rank, j, i))
    decreases fuel
  {
    hide *;
    var up := TreeOf(geo, d, live).up;
    UpLookup(geo, d, live, j);
    ClimbsStep(geo, d, j, i, fuel);
    if j == i {
      UnderSelf(up, rank, i);
    } else if j == ROOT_INO {
      UnderRoot(up, rank, i);
    } else {
      LowerUp(up, rank, j);
      UnderStep(up, rank, j, i);
      UpLookup(geo, d, live, up[j]);
      ClimbsUnder(geo, d, live, rank, up[j], i, fuel - 1);
    }
  }

  lemma UpLookup(geo: Geometry, d: Disk, live: set<nat>, j: nat)
    requires geo.Valid() && Fits(geo, d) && Namespace(geo, d, live) && Numbers(geo, live) && DirsOK(geo, d, live)
    requires j in TreeOf(geo, d, live).up
    ensures 1 <= j <= geo.inodes && Lookup(geo, d, j, DOTDOT) == Ok(TreeOf(geo, d, live).up[j])
  {
    hide Fits, Namespace, TreeOf, Lookup, DirsOK, DirOK, NamesOK;
    TreeAt(geo, d, live, j);
    LookupTree(geo, d, live, j, DOTDOT);
  }

  lemma UnderRoot(up: map<nat, nat>, rank: map<nat, nat>, i: nat)
    requires Ranks(up, rank) && UpClosed(up) && ROOT_INO in up && i != ROOT_INO
    ensures !Under(up, rank, ROOT_INO, i)
  {}

  lemma ClimbsStep(geo: Geometry, d: Disk, j: nat, i: nat, fuel: nat)
    requires geo.Valid() && Fits(geo, d) && 1 <= j <= geo.inodes
    ensures j == i ==> Climbs(geo, d, j, i, fuel)
    ensures j != i && j == ROOT_INO ==> !Climbs(geo, d, j, i, fuel)
    ensures j != i && j != ROOT_INO && fuel > 0 ==>
              (Climbs(geo, d, j, i, fuel)
               <==> var up := Lookup(geo, d, j, DOTDOT);
                    up.Ok? && 1 <= up.value <= geo.inodes && Climbs(geo, d, up.value, i, fuel - 1))
  {
    hide Lookup, Fits;
  }

  /** A caller can follow `..` to test whether directory j is i or lies below it. */
  lemma ClimbsExact(geo: Geometry, d: Disk, j: nat, i: nat, rank: map<nat, nat>)
    requires geo.Valid() && Consistent(geo, d) && Fits(geo, d) && j in NamespaceOf(geo, d).up
    requires Ranks(NamespaceOf(geo, d).up, rank) && UpClosed(NamespaceOf(geo, d).up)
    ensures 1 <= j <= geo.inodes
    ensures Climbs(geo, d, j, i, geo.inodes) <==> Under(NamespaceOf(geo, d).up, rank, j, i)
  {
    hide Consistent, Fits, TreeOf, LiveInodes, Settled, Namespace, DirsOK, Ranks, UpClosed, Under, Climbs, Lower;
    TreeShape(geo, d);
    var live := LiveInodes(geo, d);
    ConsistentIs(geo, d);
    LowerAll(geo, d, live, rank, j);
    ClimbsUnder(geo, d, live, rank, j, i, geo.inodes);
  }

  ghost function UpTo(n: nat): (s: set<nat>)
    ensures |s| == n && forall k :: k in s <==> 1 <= k <= n
  {
    if n == 0 then {} else UpTo(n - 1) + {n}
  }

  lemma LowerAll(geo: Geometry, d: Disk, live: set<nat>, rank: map<nat, nat>, j: nat)
    requires geo.Valid() && Fits(geo, d) && Numbers(geo, live) && DirsOK(geo, d, live)
    requires Ranks(TreeOf(geo, d, live).up, rank) && j in TreeOf(geo, d, live).up
    ensures |Lower(TreeOf(geo, d, live).up, rank, j)| <= geo.inodes
  {
    hide Fits, TreeOf, DirsOK, Ranks, DirOK, NamesOK;
    var up := TreeOf(geo, d, live).up;
    forall k | k in Lower(up, rank, j) ensures k in UpTo(geo.inodes) { TreeAt(geo, d, live, k); }
    Fewer(Lower(up, rank, j), UpTo(geo.inodes));
  }

  /** What mv! of a directory needs beyond its own check: the new parent is not the
      moved directory or below it, by the directories' own `..`. */
  predicate NotIntoSelf(geo: Geometry, d: Disk, from_: Bytes, to: Bytes)
    requires geo.Valid() && Fits(geo, d)
  {
    var check := MvCheck(geo, d, from_, to);
    check.Ok? && check.value.old_ != check.value.i && d.inode[check.value.i].kind == Dir ==>
      !Climbs(geo, d, check.value.p2, check.value.i, geo.inodes)
  }

  /** Paths without `.`, `..` and symbolic links have it from the check. */
  lemma CanonicalSafe(geo: Geometry, d: Disk, from_: Bytes, to: Bytes)
    requires geo.Valid() && Consistent(geo, d) && Fits(geo, d)
    requires Nameable(geo, d, from_) && Nameable(geo, d, to) && PlainParents(geo, d, from_) && PlainParents(geo, d, to)
    ensures NotIntoSelf(geo, d, from_, to)
  {
    hide Consistent, Fits, NamespaceOf, ParentAndName, Target, MvCheck, Nameable, PlainParents, TreeOK, Climbs,
         PlanFits, InsidePath, Split, Norm, TreeOf, DirsOK, Namespace, LiveInodes, BitmapsFit, Settled;
    var check := MvCheck(geo, d, from_, to);
    if check.Ok? && check.value.old_ != check.value.i && d.inode[check.value.i].kind == Dir {
      var plan, t := check.value, NamespaceOf(geo, d);
      PlanFound(geo, d, from_, to);
      PlanTargets(geo, d, from_, to);
      TreeShape(geo, d);
      var rank := SomeRank(t);
      UpLive(t);
      UpHas(t, plan);
      PlanBelow(geo, d, LiveInodes(geo, d), from_, to, plan, rank);
      ClimbsExact(geo, d, plan.p2, plan.i, rank);
    }
  }

  /** The names of a plan, in the tree. */
  lemma PlanFound(geo: Geometry, d: Disk, from_: Bytes, to: Bytes)
    requires geo.Valid() && Consistent(geo, d) && Fits(geo, d) && MvCheck(geo, d, from_, to).Ok?
    requires Nameable(geo, d, from_) && Nameable(geo, d, to)
    ensures var plan, t := MvCheck(geo, d, from_, to).value, NamespaceOf(geo, d);
            && PlanFits(t, plan) && Plain(plan.n1) && Plain(plan.n2) && 1 <= |plan.n2|
            && ParentAndName(geo, d, from_) == Ok((plan.p1, plan.n1)) && ParentAndName(geo, d, to) == Ok((plan.p2, plan.n2))
            && plan.i < |d.inode| && plan.i in t.kind && t.kind[plan.i] == d.inode[plan.i].kind
  {
    hide Consistent, Fits, NamespaceOf, ParentAndName, SmallDir, Target, MvCheck;
    PlanTargets(geo, d, from_, to);
    TargetParent(geo, d, from_);
    TargetParent(geo, d, to);
    TargetIs(geo, d, from_);
    TargetIs(geo, d, to);
    TreeShape(geo, d);
  }

  lemma PlanNames(geo: Geometry, d: Disk, from_: Bytes, to: Bytes)
    requires geo.Valid() && Consistent(geo, d) && Fits(geo, d) && MvCheck(geo, d, from_, to).Ok?
    requires Nameable(geo, d, from_) && Nameable(geo, d, to) && Roomy(geo, d, to)
    ensures var plan, t := MvCheck(geo, d, from_, to).value, NamespaceOf(geo, d);
            && PlanFits(t, plan) && Plain(plan.n1) && Plain(plan.n2) && 1 <= |plan.n2| <= 255 && SmallDir(geo, d, plan.p2)
            && plan.i < |d.inode| && plan.i in t.kind && t.kind[plan.i] == d.inode[plan.i].kind
  {
    hide Consistent, Fits, NamespaceOf, ParentAndName, SmallDir, Target, MvCheck, PlanFits;
    PlanFound(geo, d, from_, to);
  }

  lemma TreeShape(geo: Geometry, d: Disk)
    requires geo.Valid() && Consistent(geo, d)
    ensures BitmapsFit(geo, d.ibm) && Fits(geo, d)
    ensures var t, live := NamespaceOf(geo, d), LiveInodes(geo, d);
            && TreeOK(t) && Shaped(t) && RefsLive(t) && t.kind.Keys == live && Settled(geo, d, live) && Namespace(geo, d, live)
            && Numbers(geo, live) && DirsOK(geo, d, live) && t == TreeOf(geo, d, live)
  {
    hide Consistent, Fits, LiveInodes, Settled, TreeOf, BitmapsFit, DirsOK, Namespace, RefsLive;
    ConsistentIs(geo, d);
    SettledParts(geo, d, LiveInodes(geo, d));
    TreeParts(NamespaceOf(geo, d));
  }

  /** A replaced target is of the same sort, and empty. */
  lemma PlanOld(geo: Geometry, d: Disk, from_: Bytes, to: Bytes)
    requires geo.Valid() && Consistent(geo, d) && Fits(geo, d) && MvCheck(geo, d, from_, to).Ok? && Nameable(geo, d, to)
    ensures var plan, t := MvCheck(geo, d, from_, to).value, NamespaceOf(geo, d);
            plan.old_ >= 0 && plan.old_ != plan.i ==>
              && plan.i < |d.inode| && plan.old_ < |d.inode| && plan.old_ in t.kind && t.kind[plan.old_] == d.inode[plan.old_].kind
              && (d.inode[plan.old_].kind == Dir <==> d.inode[plan.i].kind == Dir)
              && (d.inode[plan.old_].kind == Dir ==> plan.old_ in t.kids && t.kids[plan.old_] == map[])
  {
    hide Consistent, Fits, NamespaceOf, ParentAndName, Target, MvCheck, EntriesOf, OnlyDots, Nameable, DirName;
    PlanTargets(geo, d, from_, to);
    var plan := MvCheck(geo, d, from_, to).value;
    if plan.old_ >= 0 && plan.old_ != plan.i {
      TargetParent(geo, d, to);
      TargetIs(geo, d, to);
      if d.inode[plan.old_].kind == Dir { EmptyTarget(geo, d, to, plan.p2, plan.n2, plan.old_); }
    }
  }

  /** A plan that passed its checks, on a consistent disk. */
  lemma PlanAllowed(geo: Geometry, d: Disk, from_: Bytes, to: Bytes)
    requires geo.Valid() && Consistent(geo, d) && Fits(geo, d) && MvCheck(geo, d, from_, to).Ok?
    requires Nameable(geo, d, from_) && Nameable(geo, d, to)
    requires MvCheck(geo, d, from_, to).value.old_ != MvCheck(geo, d, from_, to).value.i
    ensures Allowed(NamespaceOf(geo, d), MvCheck(geo, d, from_, to).value)
  {
    hide Consistent, Fits, NamespaceOf, ParentAndName, Target, MvCheck, EntriesOf, OnlyDots, Nameable, TreeOK,
         PlanFits, TreeOf, DirsOK, Namespace, LiveInodes, BitmapsFit, Settled;
    PlanFound(geo, d, from_, to);
    PlanOld(geo, d, from_, to);
    TreeShape(geo, d);
  }

  /** Only those moves keep the tree: of all that pass the check, with a target to replace
      or without. */
  lemma MoveExact(geo: Geometry, d: Disk, from_: Bytes, to: Bytes)
    requires geo.Valid() && Consistent(geo, d) && Fits(geo, d) && MvCheck(geo, d, from_, to).Ok?
    requires Nameable(geo, d, from_) && Nameable(geo, d, to)
    requires MvCheck(geo, d, from_, to).value.old_ != MvCheck(geo, d, from_, to).value.i
    ensures var plan, t := MvCheck(geo, d, from_, to).value, NamespaceOf(geo, d);
            && PlanFits(t, plan) && Linkable(Cleared(t, plan), plan)
            && (TreeOK(Relinked(Cleared(t, plan), plan.p1, plan.n1, plan.p2, plan.n2)) <==> NotIntoSelf(geo, d, from_, to))
  {
    hide Consistent, Fits, NamespaceOf, ParentAndName, Target, MvCheck, Nameable, TreeOK, Climbs, TreeOf, DirsOK, Namespace,
         LiveInodes, BitmapsFit, Settled, Relinked, Under, UpClosed, Ranks, Allowed, PlanFits, Cleared, Movable, Linkable, RefsLive;
    var plan, t := MvCheck(geo, d, from_, to).value, NamespaceOf(geo, d);
    PlanFound(geo, d, from_, to);
    PlanAllowed(geo, d, from_, to);
    PlanFitsIs(t, plan);
    ClearedIs(t, plan);
    var rank := AllowedRank(t, plan);
    ClearedUnder(t, rank, plan);
    ClimbsExact(geo, d, plan.p2, plan.i, rank);
    RelinkedExact(Cleared(t, plan), rank, plan);
  }

  lemma AllowedRank(t: Tree, plan: Plan) returns (rank: map<nat, nat>)
    requires Allowed(t, plan)
    ensures Ranks(t.up, rank)
  {
    hide TreeOK;
    rank := SomeRank(t);
  }

  lemma RelinkedExact(t: Tree, rank: map<nat, nat>, plan: Plan)
    requires Movable(t, plan.p1, plan.n1, plan.p2, plan.n2) && Linkable(t, plan)
    requires plan.p2 in t.up && Ranks(t.up, rank) && UpClosed(t.up)
    ensures TreeOK(Relinked(t, plan.p1, plan.n1, plan.p2, plan.n2))
       <==> (IsDir(t, t.kids[plan.p1][plan.n1]) ==> !Under(t.up, rank, plan.p2, t.kids[plan.p1][plan.n1]))
  {
    hide TreeOK, RelinkDir, RelinkFile, Under, UpClosed, Ranks, Movable;
    if IsDir(t, t.kids[plan.p1][plan.n1]) {
      RelinkDirExact(t, plan.p1, plan.n1, plan.p2, plan.n2, rank);
    } else {
      RelinkFileKeeps(t, plan.p1, plan.n1, plan.p2, plan.n2);
    }
  }

  // ---- the moves themselves ----

  ghost predicate Planned(geo: Geometry, d: Disk, live: set<nat>, plan: Plan)
    requires geo.Valid()
  {
    && Settled(geo, d, live) && Allowed(TreeOf(geo, d, live), plan) && SmallDir(geo, d, plan.p2)
    && Plain(plan.n1) && Plain(plan.n2) && 1 <= |plan.n2| <= 255
  }

  lemma PlannedOld(geo: Geometry, d: Disk, live: set<nat>, plan: Plan)
    requires geo.Valid() && Planned(geo, d, live, plan) && plan.old_ >= 0
    ensures Fits(geo, d) && Numbers(geo, live) && DirsOK(geo, d, live) && plan.old_ < |d.inode|
    ensures d.inode[plan.old_].kind == Dir <==> IsDir(TreeOf(geo, d, live), plan.old_)
    ensures d.inode[plan.old_].kind != Dir ==> FileName(geo, d, live, plan.p2, plan.n2, plan.old_)
    ensures d.inode[plan.old_].kind == Dir ==> DirName(geo, d, live, plan.p2, plan.n2, plan.old_)
    ensures var t := TreeOf(geo, d, live); PlanFits(t, plan) && Shaped(t) && plan.p2 != plan.old_
  {
    hide Fits, Store, InodeBooks, TreeOf, DirsOK, TreeOK, SmallDir, DirOK, NamesOK;
    SettledParts(geo, d, live);
    FitsData(geo, d);
    var t := TreeOf(geo, d, live);
    TreeAt(geo, d, live, plan.p2);
    TreeAt(geo, d, live, plan.old_);
    if IsDir(t, plan.old_) { EmptyHoldsNone(t, plan.p2, plan.n2); }
  }

  lemma SmallStill(geo: Geometry, d: Disk, d': Disk, i: nat, dir: nat)
    requires geo.Valid() && SmallDir(geo, d, dir) && SizesKept(d, d', i) && dir != i
    ensures SmallDir(geo, d', dir)
  {}

  lemma ReadyToMove(geo: Geometry, d: Disk, live: set<nat>, plan: Plan)
    requires geo.Valid() && Planned(geo, d, live, plan) && plan.old_ < 0
    ensures MoveArgs(geo, d, live, plan.p1, plan.n1, plan.p2, plan.n2, plan.i)
  {
    hide Fits, Store, InodeBooks, TreeOf, DirsOK, TreeOK, SmallDir;
    SettledParts(geo, d, live);
    TreeAt(geo, d, live, plan.p1);
  }

  /** After the target gave way, the entry can move. */
  lemma ClearedToMove(geo: Geometry, d: Disk, d1: Disk, live: set<nat>, live1: set<nat>, plan: Plan)
    requires geo.Valid() && Planned(geo, d, live, plan) && plan.old_ >= 0 && Fits(geo, d)
    requires Numbers(geo, live) && DirsOK(geo, d, live) && PlanFits(TreeOf(geo, d, live), plan)
    requires Became(geo, d, d1, live1, Cleared(TreeOf(geo, d, live), plan), live1) && SizesKept(d, d1, plan.old_) && plan.p2 != plan.old_
    ensures MoveArgs(geo, d1, live1, plan.p1, plan.n1, plan.p2, plan.n2, plan.i)
  {
    hide Fits, Settled, TreeOf, DirsOK, TreeOK, SmallDir, Movable, Cleared, PlanFits, SameText;
    SmallStill(geo, d, d1, plan.old_, plan.p2);
    var t := TreeOf(geo, d, live);
    ClearedIs(t, plan);
  }

  /** Remove the replaced target, if there is one. */
  method ClearTarget(fs: Volume, plan: Plan, ghost live: set<nat>) returns (ghost live1: set<nat>)
    requires fs.geo.Valid() && Planned(fs.geo, fs.disk, live, plan)
    modifies fs
    ensures Fits(fs.geo, old(fs.disk)) && Numbers(fs.geo, live) && DirsOK(fs.geo, old(fs.disk), live)
    ensures MoveArgs(fs.geo, fs.disk, live1, plan.p1, plan.n1, plan.p2, plan.n2, plan.i)
    ensures PlanFits(TreeOf(fs.geo, old(fs.disk), live), plan)
    ensures plan.old_ < 0 ==> live1 == live
    ensures if plan.old_ < 0 then fs.disk == old(fs.disk) else Reusable(fs.geo, fs.disk, plan.p2, plan.n2)
    ensures Became(fs.geo, old(fs.disk), fs.disk, live1, Cleared(TreeOf(fs.geo, old(fs.disk), live), plan), live1)
  {
    hide Reusable, Planned, Fits, Settled, Numbers, DirsOK, MoveArgs, TreeOf, Became, Geometry.Valid, PlanFits, RemoveFile, RemoveDir, FileName, DirName,
         Shaped;
    var geo := fs.geo;
    ghost var d := fs.disk;
    if plan.old_ < 0 {
      live1 := live;
      ReadyToMove(geo, d, live, plan);
      NothingCleared(geo, d, live, plan);
    } else {
      PlannedOld(geo, d, live, plan);
      ClearedFields(TreeOf(geo, d, live), plan);
      if fs.disk.inode[plan.old_].kind == Dir {
        UnlinkDir(fs, plan.p2, plan.n2, plan.old_, live);
        live1 := live - {plan.old_};
      } else {
        UnlinkFile(fs, plan.p2, plan.n2, plan.old_, live);
        live1 := LeftOver(d, live, plan.old_);
      }
      ClearedToMove(geo, d, fs.disk, live, live1, plan);
    }
  }

  lemma ClearedFields(t: Tree, plan: Plan)
    requires PlanFits(t, plan) && plan.old_ >= 0
    ensures plan.p2 in t.kids && plan.p2 in t.links && plan.n2 in t.kids[plan.p2] && t.kids[plan.p2][plan.n2] in t.links
    ensures Cleared(t, plan) == if IsDir(t, plan.old_) then RemoveDir(t, plan.p2, plan.n2) else RemoveFile(t, plan.p2, plan.n2)
  {}

  lemma NothingCleared(geo: Geometry, d: Disk, live: set<nat>, plan: Plan)
    requires geo.Valid() && Planned(geo, d, live, plan) && plan.old_ < 0
    ensures Fits(geo, d) && Numbers(geo, live) && DirsOK(geo, d, live) && PlanFits(TreeOf(geo, d, live), plan)
    ensures Became(geo, d, d, live, Cleared(TreeOf(geo, d, live), plan), live)
  {
    hide Fits, Store, InodeBooks, TreeOf, DirsOK, TreeOK, SmallDir, TextOf;
    SettledParts(geo, d, live);
    FitsData(geo, d);
  }

  lemma PlannedNow(geo: Geometry, d: Disk, plan: Plan)
    requires geo.Valid() && Consistent(geo, d) && Allowed(NamespaceOf(geo, d), plan) && SmallDir(geo, d, plan.p2)
    requires Plain(plan.n1) && Plain(plan.n2) && 1 <= |plan.n2| <= 255
    ensures BitmapsFit(geo, d.ibm) && Planned(geo, d, LiveInodes(geo, d), plan)
  {
    hide Consistent, LiveInodes, Settled, TreeOf, BitmapsFit, Allowed, SmallDir;
    ConsistentIs(geo, d);
  }

  lemma TwoMoves(geo: Geometry, d0: Disk, d1: Disk, d2: Disk, live: set<nat>, t1: Tree, t2: Tree)
    requires geo.Valid() && Fits(geo, d0) && Fits(geo, d1)
    requires Became(geo, d0, d1, live, t1, live) && Relaid(geo, d1, d2, live, t2, live)
    ensures Relaid(geo, d0, d2, live, t2, live)
  {
    hide Settled, Laid, Fits, TreeOf, TextOf;
    LaidFits(geo, d2, live, t2);
    forall j | j in live ensures SameText(geo, d0, d2, j) {}
  }

  lemma LaidFits(geo: Geometry, d: Disk, live: set<nat>, t: Tree)
    requires geo.Valid() && Laid(geo, d, live, t)
    ensures Fits(geo, d)
  {
    hide Store, Fits, InodeBooks, TreeOf, DirsOK;
  }

  lemma MovedToFrom(geo: Geometry, d: Disk, d': Disk, from_: Bytes, to: Bytes, live1: set<nat>)
    requires geo.Valid() && Consistent(geo, d) && Fits(geo, d) && MvCheck(geo, d, from_, to).Ok?
    requires MvCheck(geo, d, from_, to).value.old_ != MvCheck(geo, d, from_, to).value.i
    requires var plan, t := MvCheck(geo, d, from_, to).value, NamespaceOf(geo, d);
             && PlanFits(t, plan) && Cleared(t, plan).kind.Keys == live1
             && MayMove(Cleared(t, plan), plan.p1, plan.n1, plan.p2, plan.n2)
             && Relaid(geo, d, d', live1, Relinked(Cleared(t, plan), plan.p1, plan.n1, plan.p2, plan.n2), live1)
    ensures MovedTo(geo, d, d', from_, to)
  {
    hide Consistent, Fits, NamespaceOf, MvCheck, Cleared, Relinked, TreeOK, Relaid;
  }

  /** The disk that mv! leaves is consistent exactly when the move did not go into itself. */
  lemma MovedExact(geo: Geometry, d: Disk, d': Disk, from_: Bytes, to: Bytes)
    requires geo.Valid() && Consistent(geo, d) && Fits(geo, d) && Nameable(geo, d, from_) && Nameable(geo, d, to)
    requires MovedTo(geo, d, d', from_, to)
    ensures Consistent(geo, d') <==> NotIntoSelf(geo, d, from_, to)
  {
    hide Consistent, Fits, NamespaceOf, MvCheck, Nameable, Cleared, Relinked, TreeOK, Laid, PlanFits, SameText, Climbs, Allowed, Movable;
    var plan, t := MvCheck(geo, d, from_, to).value, NamespaceOf(geo, d);
    if plan.old_ != plan.i {
      MoveExact(geo, d, from_, to);
      PlanAllowed(geo, d, from_, to);
      PlanFitsIs(t, plan);
      ClearedIs(t, plan);
      MovableTree(Cleared(t, plan), plan);
      RootNode(Cleared(t, plan));
      LaidConsistent(geo, d', Cleared(t, plan).kind.Keys, Relinked(Cleared(t, plan), plan.p1, plan.n1, plan.p2, plan.n2));
    }
  }

  /** Then its namespace is what the move makes of the old one. */
  lemma MovedTurned(geo: Geometry, d: Disk, d': Disk, from_: Bytes, to: Bytes)
    requires geo.Valid() && Consistent(geo, d) && Fits(geo, d) && Consistent(geo, d')
    requires Nameable(geo, d, from_) && Nameable(geo, d, to)
    requires MovedTo(geo, d, d', from_, to) && MvCheck(geo, d, from_, to).value.old_ != MvCheck(geo, d, from_, to).value.i
    ensures var plan, t := MvCheck(geo, d, from_, to).value, NamespaceOf(geo, d);
            Turned(geo, d, d', Relinked(Cleared(t, plan), plan.p1, plan.n1, plan.p2, plan.n2), Cleared(t, plan).kind.Keys)
  {
    hide Consistent, Fits, NamespaceOf, MvCheck, Nameable, Cleared, Relinked, TreeOK, Laid, PlanFits, SameText, Allowed, Movable,
         LiveInodes, TreeOf, DirsOK, Namespace, Settled;
    var plan, t := MvCheck(geo, d, from_, to).value, NamespaceOf(geo, d);
    PlanAllowed(geo, d, from_, to);
    PlanFitsIs(t, plan);
    ClearedIs(t, plan);
    MovableTree(Cleared(t, plan), plan);
    RootNode(Cleared(t, plan));
    LaidNames(geo, d', Cleared(t, plan).kind.Keys, Relinked(Cleared(t, plan), plan.p1, plan.n1, plan.p2, plan.n2));
  }

  lemma LaidNames(geo: Geometry, d: Disk, live: set<nat>, t: Tree)
    requires geo.Valid() && Laid(geo, d, live, t) && ROOT_INO in live && Consistent(geo, d)
    ensures NamespaceOf(geo, d) == t
  {
    hide TreeOK, Store, Fits, InodeBooks, TreeOf, DirSet, DirsOK, LiveInodes, Consistent;
    LaidConsistent(geo, d, live, t);
  }

  lemma RootNode(t: Tree)
    requires TreeOK(t)
    ensures ROOT_INO in t.kind
  {
    hide TreeOK, Refs, RefsLive, Acyclic;
    TreeParts(t);
  }

  /** What mv! comes to: its check's refusal, or what the new entry comes to; a replaced
      target leaves room for it. */
  ghost function MvOutcome(geo: Geometry, d: Disk, from_: Bytes, to: Bytes): Result<()>
    requires geo.Valid() && Fits(geo, d)
  {
    var check := MvCheck(geo, d, from_, to);
    if check.Err? then Err(check.reason)
    else if check.value.old_ >= 0 then Ok(())
    else Bare(AddOutcome(geo, d, d.sbFreeBlocks, check.value.p2, check.value.n2))
  }

  /** The new entry has the type of the inode it names. */
  ghost predicate EntryMoved(geo: Geometry, d: Disk, d': Disk, from_: Bytes, to: Bytes)
    requires geo.Valid() && Fits(geo, d)
  {
    && MvCheck(geo, d, from_, to).Ok?
    && var plan := MvCheck(geo, d, from_, to).value;
       (plan.old_ != plan.i ==>
          HasEntry(geo, d', plan.p2, NewEntry(geo.filetype, plan.n2, plan.i, TypeOf(d.inode[plan.i].kind))))
  }

  /** Rename or move; an existing file, or an empty directory when a directory
      moves, is replaced.  A directory that goes into itself costs the disk its tree. */
  method Mv(fs: Volume, from_: Bytes, to: Bytes) returns (r: Result<()>)
    requires fs.geo.Valid() && Consistent(fs.geo, fs.disk) && Fits(fs.geo, fs.disk)
    requires Nameable(fs.geo, fs.disk, from_) && Nameable(fs.geo, fs.disk, to) && Roomy(fs.geo, fs.disk, to)
    modifies fs
    ensures r.Ok? ==> MovedTo(fs.geo, old(fs.disk), fs.disk, from_, to)
    ensures r.Ok? ==> (Consistent(fs.geo, fs.disk) <==> NotIntoSelf(fs.geo, old(fs.disk), from_, to))
    ensures r.Ok? ==> EntryMoved(fs.geo, old(fs.disk), fs.disk, from_, to)
    ensures r == MvOutcome(fs.geo, old(fs.disk), from_, to)
    ensures r.Err? && MvCheck(fs.geo, old(fs.disk), from_, to).Ok? ==>
      Spared(fs.geo, old(fs.disk), fs.disk, MvCheck(fs.geo, old(fs.disk), from_, to).value.p2)
    ensures Refused(MvCheck(fs.geo, old(fs.disk), from_, to), r, old(fs.disk), fs.disk)
  {
    hide Consistent, Fits, NamespaceOf, MvCheck, Nameable, Roomy, NotIntoSelf, Geometry.Valid, MovedTo, AddOutcome, Spared, HasEntry;
    var geo := fs.geo;
    ghost var d := fs.disk;
    var plan;
    r, plan := MvPlan(fs, from_, to);
    if r.Err? { return; }
    if plan.old_ == plan.i {
      StayedPut(geo, d, from_, to);
      r := Ok(());
    } else {
      r := MvMove(fs, from_, to, plan);
    }
    if r.Ok? { MovedExact(geo, d, fs.disk, from_, to); }
  }

  lemma StayedPut(geo: Geometry, d: Disk, from_: Bytes, to: Bytes)
    requires geo.Valid() && Consistent(geo, d) && Fits(geo, d) && MvCheck(geo, d, from_, to).Ok?
    requires Nameable(geo, d, from_) && Nameable(geo, d, to) && Roomy(geo, d, to)
    requires MvCheck(geo, d, from_, to).value.old_ == MvCheck(geo, d, from_, to).value.i
    ensures MovedTo(geo, d, d, from_, to)
  {
    hide Consistent, Fits, NamespaceOf, MvCheck, Nameable, Roomy, PlanFits;
    PlanNames(geo, d, from_, to);
  }

  /** The checks, in the source's order; nothing is written. */
  method MvPlan(fs: Volume, from_: Bytes, to: Bytes) returns (r: Result<()>, plan: Plan)
    requires fs.geo.Valid() && Fits(fs.geo, fs.disk)
    ensures r == var c := MvCheck(fs.geo, fs.disk, from_, to); if c.Ok? then Ok(()) else Err(c.reason)
    ensures r.Ok? ==> MvCheck(fs.geo, fs.disk, from_, to) == Ok(plan)
  {
    hide Fits, Target, InsidePath, Norm, Split, OldCheck;
    var geo, d := fs.geo, fs.disk;
    plan := Plan(0, [], 0, 0, [], -1);
    var source := Target(geo, d, from_);
    if source.Err? { return Err(source.reason), plan; }
    var (p1, n1, i) := source.value;
    if i < 0 { return Err(NotFound), plan; }
    if i >= |d.inode| { return Err(BadInode), plan; }
    var dir := d.inode[i].kind == Dir;
    if dir && InsidePath(Norm(Split(from_)), Norm(Split(to))) { return Err(IntoItself), plan; }
    var dest := Target(geo, d, to);
    if dest.Err? { return Err(dest.reason), plan; }
    var (p2, n2, o) := dest.value;
    if o != i && o >= 0 {
      var check := OldCheck(geo, d, o, dir);
      if check.Err? { return Err(check.reason), plan; }
    }
    return Ok(()), Plan(p1, n1, i, p2, n2, o);
  }

  /** The writing part of mv!. */
  method MvMove(fs: Volume, from_: Bytes, to: Bytes, plan: Plan) returns (r: Result<()>)
    requires fs.geo.Valid() && Consistent(fs.geo, fs.disk) && Fits(fs.geo, fs.disk)
    requires Nameable(fs.geo, fs.disk, from_) && Nameable(fs.geo, fs.disk, to) && Roomy(fs.geo, fs.disk, to)
    requires MvCheck(fs.geo, fs.disk, from_, to) == Ok(plan) && plan.old_ != plan.i
    modifies fs
    ensures r.Ok? ==> MovedTo(fs.geo, old(fs.disk), fs.disk, from_, to)
    ensures r.Ok? ==> EntryMoved(fs.geo, old(fs.disk), fs.disk, from_, to)
    ensures r.Err? ==> OutOfSpace(r.reason)
    ensures r == MvOutcome(fs.geo, old(fs.disk), from_, to)
    ensures r.Err? ==> Spared(fs.geo, old(fs.disk), fs.disk, plan.p2)
  {
    hide HasEntry, NewEntry, TypeOf, Spared, Unharmed, AddOutcome, Reusable, Consistent, Fits, MvCheck, Nameable, Roomy, Geometry.Valid, MovedTo, Planned, Allowed, TreeOf, LiveInodes, MoveArgs, Became,
         PlanFits, SmallDir, Cleared, MayMove, Relinked, Numbers, DirsOK, BitmapsFit, Settled, TreeOK;
    var geo := fs.geo;
    ghost var d := fs.disk;
    PlanIndex(geo, d, from_, to);
    var t := TypeOf(fs.disk.inode[plan.i].kind);
    PlanAllowed(geo, d, from_, to);
    PlanNames(geo, d, from_, to);
    PlannedNow(geo, d, plan);
    ghost var live := LiveInodes(geo, d);
    ghost var live1 := ClearTarget(fs, plan, live);
    ghost var d1 := fs.disk;
    PlanFitsIs(TreeOf(geo, d, live), plan);
    ghost var t1 := Cleared(TreeOf(geo, d, live), plan);
    BecameTree(geo, d, d1, live1, t1, live1);
    r := Relink(fs, plan.p1, plan.n1, plan.p2, plan.n2, plan.i, t, live1);
    if plan.old_ >= 0 { ReusableOutcome(geo, d1, d1.sbFreeBlocks, plan.p2, plan.n2); }
    OnlyUnit(r);
    MayMoveIs(t1, plan.p1, plan.n1, plan.p2, plan.n2);
    if r.Err? { SparedFrom(geo, d, fs.disk, plan.p2); }
    if r.Ok? {
      TwoMoves(geo, d, d1, fs.disk, live1, t1, Relinked(t1, plan.p1, plan.n1, plan.p2, plan.n2));
      MovedToFrom(geo, d, fs.disk, from_, to, live1);
    }
  }

  lemma ReusableOutcome(geo: Geometry, d: Disk, free: nat, dir: nat, name: Bytes)
    requires geo.Valid() && Reusable(geo, d, dir, name)
    ensures Fits(geo, d) && dir <= geo.inodes && AddOutcome(geo, d, free, dir, name) == Ok(free)
  {
    hide Fits, HasSlot, Fb, GrowOutcome;
  }

  lemma PlanIndex(geo: Geometry, d: Disk, from_: Bytes, to: Bytes)
    requires geo.Valid() && Fits(geo, d) && MvCheck(geo, d, from_, to).Ok?
    ensures MvCheck(geo, d, from_, to).value.i < |d.inode|
  {
    hide MvCheck, Fits;
    PlanTargets(geo, d, from_, to);
  }

  lemma BecameTree(geo: Geometry, d: Disk, d': Disk, live': set<nat>, t': Tree, kept: set<nat>)
    requires geo.Valid() && Fits(geo, d) && Became(geo, d, d', live', t', kept)
    ensures Settled(geo, d', live') && Fits(geo, d') && Numbers(geo, live') && DirsOK(geo, d', live')
    ensures TreeOf(geo, d', live') == t' && t'.kind.Keys == live'
  {
    hide Settled, Fits, TreeOf, SameText;
    SettledParts(geo, d', live');
  }
}
