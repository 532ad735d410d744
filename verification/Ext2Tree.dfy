/** The namespace as a tree: what the directory operations of lib/ext2.beer do
    to it (lib/ext2.beer:733-858) and why it stays a tree. */
module Ext2Tree {
  import opened Bytes
  import opened Ext2Disk

  type Name = Bytes

  /** kids: the entries of each directory other than `.` and `..`;
      up: what `..` names; links: the link count field. */
  datatype Tree = Tree(kids: map<nat, map<Name, nat>>, up: map<nat, nat>, links: map<nat, nat>, kind: map<nat, Kind>)

  predicate IsDir(t: Tree, i: nat) { i in t.kind && t.kind[i] == Dir }

  ghost predicate Shaped(t: Tree) {
    && t.links.Keys == t.kind.Keys
    && t.kids.Keys == t.up.Keys
    && forall i :: i in t.kids <==> IsDir(t, i)
  }

  /** The entries that name i. */
  ghost function Refs(t: Tree, i: nat): set<(nat, Name)> {
    set p, n | p in t.kids && n in t.kids[p] && t.kids[p][n] == i :: (p, n)
  }

  /** The names of i's subdirectories. */
  ghost function SubDirs(t: Tree, i: nat): set<Name>
    requires i in t.kids
  {
    set n | n in t.kids[i] && IsDir(t, t.kids[i][n])
  }

  const LINK_WRAP := 0x1_0000

  ghost predicate RefsLive(t: Tree) {
    forall p, n :: p in t.kids && n in t.kids[p] ==> t.kids[p][n] in t.kind
  }

  /** Exactly one entry names a directory other than the root, and it stands in
      the directory that `..` names. */
  ghost predicate OneParent(t: Tree, i: nat)
    requires i in t.up
  {
    t.up[i] in t.kids && exists n :: Refs(t, i) == {(t.up[i], n)}
  }

  /** A directory's link count is 2 plus its subdirectories, as far as a 16-bit
      field can say. */
  ghost predicate DirLinks(t: Tree, i: nat)
    requires i in t.kids && i in t.links
  {
    t.links[i] == (2 + |SubDirs(t, i)|) % LINK_WRAP
  }

  /** Going up lowers the rank, down to the root. */
  ghost predicate Ranks(up: map<nat, nat>, rank: map<nat, nat>) {
    && (forall i :: i in up ==> i in rank)
    && (forall i :: i in up && i != ROOT_INO ==> up[i] in rank && rank[up[i]] < rank[i])
  }

  ghost predicate UpClosed(up: map<nat, nat>) {
    forall k :: k in up ==> up[k] in up
  }

  ghost predicate Acyclic(up: map<nat, nat>) {
    exists rank :: Ranks(up, rank)
  }

  ghost predicate TreeOK(t: Tree) {
    && Shaped(t) && RefsLive(t)
    && ROOT_INO in t.kids && t.up[ROOT_INO] == ROOT_INO && Refs(t, ROOT_INO) == {}
    && (forall i :: i in t.kids && i != ROOT_INO ==> OneParent(t, i))
    && (forall i :: i in t.kids ==> DirLinks(t, i))
    && (forall i :: i in t.kind && i !in t.kids ==> t.links[i] == |Refs(t, i)| && t.links[i] >= 1)
    && Acyclic(t.up)
  }

  // ---- the operations ----

  function Bind(m: map<Name, nat>, n: Name, i: nat): map<Name, nat> { m[n := i] }

  function AddFile(t: Tree, p: nat, n: Name, i: nat, k: Kind): Tree
    requires p in t.kids
  {
    t.(kids := t.kids[p := Bind(t.kids[p], n, i)], links := t.links[i := 1], kind := t.kind[i := k])
  }

  function AddDir(t: Tree, p: nat, n: Name, i: nat): Tree
    requires p in t.kids && p in t.links
  {
    Tree(t.kids[p := Bind(t.kids[p], n, i)][i := map[]],
         t.up[i := p],
         t.links[i := 2][p := (t.links[p] + 1) % LINK_WRAP],
         t.kind[i := Dir])
  }

  /** The last link takes the inode with it. */
  function RemoveFile(t: Tree, p: nat, n: Name): Tree
    requires p in t.kids && n in t.kids[p] && t.kids[p][n] in t.links
  {
    var i := t.kids[p][n];
    var kids := t.kids[p := t.kids[p] - {n}];
    if t.links[i] <= 1 then t.(kids := kids, links := t.links - {i}, kind := t.kind - {i})
    else t.(kids := kids, links := t.links[i := t.links[i] - 1])
  }

  function RemoveDir(t: Tree, p: nat, n: Name): Tree
    requires p in t.kids && n in t.kids[p] && p in t.links
  {
    var i := t.kids[p][n];
    Tree((t.kids[p := t.kids[p] - {n}]) - {i},
         t.up - {i},
         t.links[p := (t.links[p] - 1) % LINK_WRAP] - {i},
         t.kind - {i})
  }

  function MovedKids(t: Tree, p1: nat, n1: Name, p2: nat, n2: Name): map<nat, map<Name, nat>>
    requires p1 in t.kids && n1 in t.kids[p1] && p2 in t.kids
  {
    var added := t.kids[p2 := Bind(t.kids[p2], n2, t.kids[p1][n1])];
    added[p1 := added[p1] - {n1}]
  }

  function RelinkFile(t: Tree, p1: nat, n1: Name, p2: nat, n2: Name): Tree
    requires p1 in t.kids && n1 in t.kids[p1] && p2 in t.kids
  {
    t.(kids := MovedKids(t, p1, n1, p2, n2))
  }

  function RelinkDir(t: Tree, p1: nat, n1: Name, p2: nat, n2: Name): Tree
    requires p1 in t.kids && n1 in t.kids[p1] && p2 in t.kids && p1 in t.links && p2 in t.links
  {
    if p1 == p2 then RelinkFile(t, p1, n1, p2, n2)
    else
      t.(kids := MovedKids(t, p1, n1, p2, n2),
         up := t.up[t.kids[p1][n1] := p2],
         links := t.links[p1 := (t.links[p1] - 1) % LINK_WRAP][p2 := (t.links[p2] + 1) % LINK_WRAP])
  }

  // ---- they keep the tree ----

  lemma NoRefsToNew(t: Tree, i: nat)
    requires RefsLive(t) && i !in t.kind
    ensures Refs(t, i) == {}
  {}

  /** One entry p/n -> i more. */
  ghost predicate Grown(t: Tree, t': Tree, p: nat, n: Name, i: nat) {
    && p in t.kids && n !in t.kids[p]
    && (forall q :: q in t.kids ==> q in t'.kids)
    && forall q :: q in t'.kids ==>
         t'.kids[q] == if q == p then Bind(t.kids[p], n, i) else if q in t.kids then t.kids[q] else map[]
  }

  /** One entry p/n less. */
  ghost predicate Shrunk(t: Tree, t': Tree, p: nat, n: Name) {
    && p in t.kids && n in t.kids[p]
    && (forall q :: q in t'.kids ==> q in t.kids && t'.kids[q] == if q == p then t.kids[p] - {n} else t.kids[q])
    && (forall q :: q in t.kids && q !in t'.kids ==> t.kids[q] == map[])
  }

  lemma RefsGrown(t: Tree, t': Tree, p: nat, n: Name, i: nat, j: nat)
    requires Grown(t, t', p, n, i)
    ensures Refs(t', j) == Refs(t, j) + (if j == i then {(p, n)} else {})
    ensures (p, n) !in Refs(t, j)
  {
    var more := if j == i then {(p, n)} else {};
    forall q, m | (q, m) in Refs(t, j) + more ensures (q, m) in Refs(t', j) {}
    forall q, m | (q, m) in Refs(t', j) ensures (q, m) in Refs(t, j) + more {}
  }

  lemma RefsShrunk(t: Tree, t': Tree, p: nat, n: Name, j: nat)
    requires Shrunk(t, t', p, n)
    ensures Refs(t', j) == Refs(t, j) - {(p, n)}
    ensures (p, n) in Refs(t, j) <==> j == t.kids[p][n]
  {
    forall q, m | (q, m) in Refs(t, j) - {(p, n)} ensures (q, m) in Refs(t', j) {
      assert t.kids[q] != map[];
    }
    forall q, m | (q, m) in Refs(t', j) ensures (q, m) in Refs(t, j) - {(p, n)} {}
  }

  /** The subdirectories after one entry more: one more under p if it names a
      directory. */
  lemma SubDirsGrown(t: Tree, t': Tree, p: nat, n: Name, i: nat, j: nat)
    requires Grown(t, t', p, n, i) && RefsLive(t) && j in t'.kids
    requires forall c :: c in t.kind && c != i ==> IsDir(t', c) == IsDir(t, c)
    requires forall q, m :: q in t.kids && m in t.kids[q] ==> t.kids[q][m] != i
    ensures j in t.kids ==> SubDirs(t', j) == SubDirs(t, j) + (if j == p && IsDir(t', i) then {n} else {})
    ensures j in t.kids ==> n !in SubDirs(t, p)
    ensures j !in t.kids ==> SubDirs(t', j) == {}
  {
    if j in t.kids {
      var more := if j == p && IsDir(t', i) then {n} else {};
      forall m | m in SubDirs(t, j) + more ensures m in SubDirs(t', j) {}
      forall m | m in SubDirs(t', j) ensures m in SubDirs(t, j) + more {}
    }
  }

  lemma SubDirsShrunk(t: Tree, t': Tree, p: nat, n: Name, j: nat)
    requires Shrunk(t, t', p, n) && RefsLive(t) && j in t'.kids
    requires forall q, m :: q in t'.kids && m in t'.kids[q] ==> IsDir(t', t'.kids[q][m]) == IsDir(t, t.kids[q][m])
    ensures j in t.kids
    ensures SubDirs(t', j) == SubDirs(t, j) - (if j == p then {n} else {})
    ensures n in SubDirs(t, p) <==> IsDir(t, t.kids[p][n])
  {
    var less: set<Name> := if j == p then {n} else {};
    forall m | m in SubDirs(t, j) - less ensures m in SubDirs(t', j) {}
    forall m | m in SubDirs(t', j) ensures m in SubDirs(t, j) - less {}
  }

  lemma NoRefs(t: Tree, i: nat)
    requires Refs(t, i) == {}
    ensures forall q, m :: q in t.kids && m in t.kids[q] ==> t.kids[q][m] != i
  {
    forall q, m | q in t.kids && m in t.kids[q] ensures t.kids[q][m] != i {
      assert (q, m) in Refs(t, i) <==> t.kids[q][m] == i;
    }
  }

  /** The clauses of TreeOK about one inode. */
  ghost predicate NodeOK(t: Tree, i: nat)
    requires Shaped(t) && i in t.kind
  {
    if i in t.kids then
      (if i == ROOT_INO then Refs(t, i) == {} else OneParent(t, i)) && DirLinks(t, i)
    else t.links[i] == |Refs(t, i)| && t.links[i] >= 1
  }

  lemma TreeFrom(t: Tree)
    requires Shaped(t) && RefsLive(t) && Acyclic(t.up)
    requires ROOT_INO in t.kids && t.up[ROOT_INO] == ROOT_INO
    requires forall i :: i in t.kind ==> NodeOK(t, i)
    ensures TreeOK(t)
  {
    hide Refs, DirLinks, Acyclic, OneParent, RefsLive;
    assert NodeOK(t, ROOT_INO);
    forall i | i in t.kids ensures (i != ROOT_INO ==> OneParent(t, i)) && DirLinks(t, i) { assert NodeOK(t, i); }
    forall i | i in t.kind && i !in t.kids ensures t.links[i] == |Refs(t, i)| && t.links[i] >= 1 { assert NodeOK(t, i); }
  }

  lemma TreeNode(t: Tree, i: nat)
    requires TreeOK(t) && i in t.kind
    ensures NodeOK(t, i)
  {
    hide Refs, DirLinks, Acyclic, OneParent, RefsLive;
  }

  lemma TreeParts(t: Tree)
    requires TreeOK(t)
    ensures Shaped(t) && RefsLive(t) && Acyclic(t.up) && ROOT_INO in t.kids && t.up[ROOT_INO] == ROOT_INO
    ensures Refs(t, ROOT_INO) == {}
  {
    hide Refs, DirLinks, Acyclic, OneParent, RefsLive;
  }

  lemma AddFileKeeps(t: Tree, p: nat, n: Name, i: nat, k: Kind)
    requires TreeOK(t) && p in t.kids && n !in t.kids[p] && i !in t.kind && k != Dir
    ensures TreeOK(AddFile(t, p, n, i, k))
  {
    hide Refs, SubDirs, Acyclic, TreeOK, NodeOK;
    TreeParts(t);
    var t' := AddFile(t, p, n, i, k);
    NoRefsToNew(t, i);
    forall j | j in t'.kind ensures NodeOK(t', j) { AddFileNode(t, p, n, i, k, j); }
    TreeFrom(t');
  }

  lemma AddFileNode(t: Tree, p: nat, n: Name, i: nat, k: Kind, j: nat)
    requires TreeOK(t) && p in t.kids && n !in t.kids[p] && i !in t.kind && k != Dir
    requires var t' := AddFile(t, p, n, i, k); Shaped(t') && j in t'.kind
    ensures NodeOK(AddFile(t, p, n, i, k), j)
  {
    hide Refs, SubDirs, Acyclic, TreeOK;
    TreeParts(t);
    var t' := AddFile(t, p, n, i, k);
    NoRefsToNew(t, i);
    NoRefs(t, i);
    RefsGrown(t, t', p, n, i, j);
    if j != i { TreeNode(t, j); }
    if j in t'.kids { SubDirsGrown(t, t', p, n, i, j); }
  }

  /** Removing the reference of a count of them. */
  lemma OneLess(s: set<(nat, Name)>, x: (nat, Name))
    ensures |s - {x}| == |s| - (if x in s then 1 else 0)
  {
    if x in s { assert s == s - {x} + {x}; } else { assert s - {x} == s; }
  }

  lemma OneNameMore(s: set<Name>, x: Name)
    requires x !in s
    ensures |s + {x}| == |s| + 1
  {}

  lemma OneNameLess(s: set<Name>, x: Name)
    requires x in s
    ensures |s - {x}| == |s| - 1 && |s| >= 1
  {
    assert s == s - {x} + {x};
  }

  lemma LinkUp(a: int, b: nat)
    requires a == (2 + b) % LINK_WRAP
    ensures (a + 1) % LINK_WRAP == (2 + (b + 1)) % LINK_WRAP
  {}

  lemma LinkDown(a: int, b: nat)
    requires a == (2 + b) % LINK_WRAP && b >= 1
    ensures (a - 1) % LINK_WRAP == (2 + (b - 1)) % LINK_WRAP
  {}

  lemma AddDirRefs(t: Tree, p: nat, n: Name, i: nat, j: nat)
    requires TreeOK(t) && p in t.kids && n !in t.kids[p] && i !in t.kind && p in t.links
    ensures var t' := AddDir(t, p, n, i);
            && Refs(t', j) == Refs(t, j) + (if j == i then {(p, n)} else {})
            && (j in t.kids ==> SubDirs(t', j) == SubDirs(t, j) + (if j == p then {n} else {}))
            && SubDirs(t', i) == {}
    ensures Refs(t, i) == {} && n !in SubDirs(t, p)
  {
    hide Refs, SubDirs, Acyclic, TreeOK;
    TreeParts(t);
    var t' := AddDir(t, p, n, i);
    NoRefsToNew(t, i);
    NoRefs(t, i);
    RefsGrown(t, t', p, n, i, j);
    if j in t.kids { SubDirsGrown(t, t', p, n, i, j); }
    SubDirsGrown(t, t', p, n, i, i);
    SubDirsGrown(t, t', p, n, i, p);
  }

  lemma AddDirLinks(t: Tree, p: nat, n: Name, i: nat)
    requires TreeOK(t) && p in t.kids && n !in t.kids[p] && i !in t.kind && p in t.links
    ensures p != i && p in AddDir(t, p, n, i).links && DirLinks(AddDir(t, p, n, i), p)
  {
    hide Refs, SubDirs, TreeOK, RefsLive, Acyclic, OneParent;
    TreeParts(t);
    AddDirRefs(t, p, n, i, p);
    TreeNode(t, p);
    OneNameMore(SubDirs(t, p), n);
    LinkUp(t.links[p], |SubDirs(t, p)|);
  }

  lemma AddDirNode(t: Tree, p: nat, n: Name, i: nat, j: nat)
    requires TreeOK(t) && p in t.kids && n !in t.kids[p] && i !in t.kind && p in t.links
    requires var t' := AddDir(t, p, n, i); Shaped(t') && j in t'.kind
    ensures NodeOK(AddDir(t, p, n, i), j)
  {
    hide Refs, SubDirs, TreeOK, RefsLive, Acyclic;
    TreeParts(t);
    AddDirRefs(t, p, n, i, j);
    if j == p {
      AddDirLinks(t, p, n, i);
      TreeNode(t, j);
    } else if j != i {
      TreeNode(t, j);
    }
  }

  lemma AddDirShape(t: Tree, p: nat, n: Name, i: nat)
    requires Shaped(t) && RefsLive(t) && p in t.kids && i !in t.kind && p in t.links
    ensures var t' := AddDir(t, p, n, i); Shaped(t') && RefsLive(t')
  {}

  lemma AddDirKeeps(t: Tree, p: nat, n: Name, i: nat)
    requires TreeOK(t) && p in t.kids && n !in t.kids[p] && i !in t.kind && p in t.links
    ensures TreeOK(AddDir(t, p, n, i))
  {
    hide Refs, SubDirs, Acyclic, TreeOK, NodeOK, RefsLive, UpClosed;
    TreeParts(t);
    AddDirShape(t, p, n, i);
    UpLive(t);
    RankBelow(t.up, p, i);
    forall j | j in AddDir(t, p, n, i).kind ensures NodeOK(AddDir(t, p, n, i), j) { AddDirNode(t, p, n, i, j); }
    TreeFrom(AddDir(t, p, n, i));
  }

  lemma UpLive(t: Tree)
    requires TreeOK(t)
    ensures Shaped(t) && UpClosed(t.up)
  {
    hide Refs, SubDirs, DirLinks, Acyclic, RefsLive;
  }

  lemma RankBelow(up: map<nat, nat>, p: nat, i: nat)
    requires Acyclic(up) && p in up && i !in up && UpClosed(up)
    ensures Acyclic(up[i := p])
  {
    var rank :| Ranks(up, rank);
    assert Ranks(up[i := p], rank[i := rank[p] + 1]);
  }

  // ---- removing ----

  lemma RemoveFileRefs(t: Tree, p: nat, n: Name, j: nat)
    requires TreeOK(t) && p in t.kids && n in t.kids[p] && !IsDir(t, t.kids[p][n]) && t.kids[p][n] in t.links
    ensures var t' := RemoveFile(t, p, n);
            && Refs(t', j) == Refs(t, j) - {(p, n)}
            && (j in t.kids ==> j in t'.kids && SubDirs(t', j) == SubDirs(t, j))
    ensures (p, n) in Refs(t, j) <==> j == t.kids[p][n]
  {
    hide Refs, SubDirs, Acyclic, TreeOK;
    TreeParts(t);
    var t' := RemoveFile(t, p, n);
    RefsShrunk(t, t', p, n, j);
    if j in t.kids {
      SubDirsShrunk(t, t', p, n, j);
      SubDirsShrunk(t, t', p, n, p);
    }
  }

  lemma RemoveFileNode(t: Tree, p: nat, n: Name, j: nat)
    requires TreeOK(t) && p in t.kids && n in t.kids[p] && !IsDir(t, t.kids[p][n]) && t.kids[p][n] in t.links
    requires var t' := RemoveFile(t, p, n); Shaped(t') && j in t'.kind
    ensures NodeOK(RemoveFile(t, p, n), j)
  {
    hide Refs, SubDirs, TreeOK, RefsLive, Acyclic;
    TreeParts(t);
    RemoveFileRefs(t, p, n, j);
    TreeNode(t, j);
    OneLess(Refs(t, j), (p, n));
    if (p, n) !in Refs(t, j) { assert Refs(t, j) - {(p, n)} == Refs(t, j); }
  }

  lemma RemoveFileShape(t: Tree, p: nat, n: Name)
    requires TreeOK(t) && p in t.kids && n in t.kids[p] && !IsDir(t, t.kids[p][n]) && t.kids[p][n] in t.links
    ensures var t' := RemoveFile(t, p, n); Shaped(t') && RefsLive(t') && t'.up == t.up && ROOT_INO in t'.kids
  {
    hide Refs, SubDirs, TreeOK, Acyclic;
    TreeParts(t);
    var i := t.kids[p][n];
    var t' := RemoveFile(t, p, n);
    TreeNode(t, i);
    RemoveFileRefs(t, p, n, i);
    if t.links[i] <= 1 {
      OneLess(Refs(t, i), (p, n));
      NoRefs(t', i);
    }
  }

  lemma RemoveFileKeeps(t: Tree, p: nat, n: Name)
    requires TreeOK(t) && p in t.kids && n in t.kids[p] && !IsDir(t, t.kids[p][n]) && t.kids[p][n] in t.links
    ensures TreeOK(RemoveFile(t, p, n))
  {
    hide Refs, SubDirs, Acyclic, TreeOK, NodeOK, RefsLive;
    TreeParts(t);
    RemoveFileShape(t, p, n);
    forall j | j in RemoveFile(t, p, n).kind ensures NodeOK(RemoveFile(t, p, n), j) { RemoveFileNode(t, p, n, j); }
    TreeFrom(RemoveFile(t, p, n));
  }

  /** An entry's directory has exactly that entry naming it. */
  lemma OnlyRef(t: Tree, p: nat, n: Name)
    requires TreeOK(t) && p in t.kids && n in t.kids[p] && IsDir(t, t.kids[p][n])
    ensures var i := t.kids[p][n];
            i in t.kids && i != ROOT_INO && t.up[i] == p && Refs(t, i) == {(p, n)}
  {
    hide SubDirs, Acyclic, TreeOK, RefsLive, DirLinks;
    TreeParts(t);
    var i := t.kids[p][n];
    assert (p, n) in Refs(t, i);
    TreeNode(t, i);
  }

  /** The directory that holds i is another one, and none stands under an empty
      one. */
  lemma EmptyHoldsNone(t: Tree, p: nat, n: Name)
    requires TreeOK(t) && p in t.kids && n in t.kids[p] && IsDir(t, t.kids[p][n]) && t.kids[p][n] in t.kids
    requires t.kids[t.kids[p][n]] == map[]
    ensures p != t.kids[p][n]
    ensures forall j :: j in t.kids && j != t.kids[p][n] ==> t.up[j] != t.kids[p][n]
  {
    hide SubDirs, Acyclic, TreeOK, RefsLive, DirLinks;
    TreeParts(t);
    var i := t.kids[p][n];
    OnlyRef(t, p, n);
    forall j | j in t.kids && j != i ensures t.up[j] != i {
      if j != ROOT_INO {
        TreeNode(t, j);
        var m :| Refs(t, j) == {(t.up[j], m)};
        assert (t.up[j], m) in Refs(t, j);
      }
    }
  }

  lemma RemoveDirRefs(t: Tree, p: nat, n: Name, j: nat)
    requires TreeOK(t) && p in t.kids && n in t.kids[p] && IsDir(t, t.kids[p][n]) && t.kids[p][n] in t.kids && p in t.links
    requires t.kids[t.kids[p][n]] == map[]
    ensures var t' := RemoveDir(t, p, n);
            && Refs(t', j) == Refs(t, j) - {(p, n)}
            && (j in t.kids && j != t.kids[p][n] ==>
                  j in t'.kids && SubDirs(t', j) == SubDirs(t, j) - (if j == p then {n} else {}))
    ensures (p, n) in Refs(t, j) <==> j == t.kids[p][n]
    ensures p != t.kids[p][n] && n in SubDirs(t, p)
  {
    hide Refs, SubDirs, Acyclic, TreeOK;
    TreeParts(t);
    EmptyHoldsNone(t, p, n);
    var t' := RemoveDir(t, p, n);
    assert Shrunk(t, t', p, n);
    RefsShrunk(t, t', p, n, j);
    OnlyRef(t, p, n);
    RefsShrunk(t, t', p, n, t.kids[p][n]);
    NoRefs(t', t.kids[p][n]);
    if j in t'.kids { SubDirsShrunk(t, t', p, n, j); }
    SubDirsShrunk(t, t', p, n, p);
  }

  lemma RemoveDirLinks(t: Tree, p: nat, n: Name)
    requires TreeOK(t) && p in t.kids && n in t.kids[p] && IsDir(t, t.kids[p][n]) && t.kids[p][n] in t.kids && p in t.links
    requires t.kids[t.kids[p][n]] == map[]
    ensures var t' := RemoveDir(t, p, n); p in t'.kids && p in t'.links && DirLinks(t', p)
  {
    hide Refs, SubDirs, TreeOK, RefsLive, Acyclic, OneParent;
    TreeParts(t);
    RemoveDirRefs(t, p, n, p);
    TreeNode(t, p);
    OneNameLess(SubDirs(t, p), n);
    LinkDown(t.links[p], |SubDirs(t, p)|);
  }

  lemma RemoveDirNode(t: Tree, p: nat, n: Name, j: nat)
    requires TreeOK(t) && p in t.kids && n in t.kids[p] && IsDir(t, t.kids[p][n]) && t.kids[p][n] in t.kids && p in t.links
    requires t.kids[t.kids[p][n]] == map[]
    requires var t' := RemoveDir(t, p, n); Shaped(t') && j in t'.kind
    ensures NodeOK(RemoveDir(t, p, n), j)
  {
    hide Refs, SubDirs, TreeOK, RefsLive, Acyclic;
    TreeParts(t);
    RemoveDirRefs(t, p, n, j);
    EmptyHoldsNone(t, p, n);
    TreeNode(t, j);
    assert Refs(t, j) - {(p, n)} == Refs(t, j);
    if j == p { RemoveDirLinks(t, p, n); } else if j in t.kids { assert SubDirs(t, j) - {} == SubDirs(t, j); }
  }

  lemma RemoveDirShape(t: Tree, p: nat, n: Name)
    requires TreeOK(t) && p in t.kids && n in t.kids[p] && IsDir(t, t.kids[p][n]) && t.kids[p][n] in t.kids && p in t.links
    requires t.kids[t.kids[p][n]] == map[]
    ensures var t' := RemoveDir(t, p, n);
            Shaped(t') && RefsLive(t') && t'.up == t.up - {t.kids[p][n]} && ROOT_INO in t'.kids
  {
    hide Refs, SubDirs, TreeOK, Acyclic;
    TreeParts(t);
    OnlyRef(t, p, n);
    var i := t.kids[p][n];
    RemoveDirRefs(t, p, n, i);
    NoRefs(RemoveDir(t, p, n), i);
  }

  lemma RankLess(up: map<nat, nat>, i: nat)
    requires Acyclic(up)
    ensures Acyclic(up - {i})
  {
    var rank :| Ranks(up, rank);
    assert Ranks(up - {i}, rank);
  }

  lemma RemoveDirKeeps(t: Tree, p: nat, n: Name)
    requires TreeOK(t) && p in t.kids && n in t.kids[p] && IsDir(t, t.kids[p][n]) && t.kids[p][n] in t.kids && p in t.links
    requires t.kids[t.kids[p][n]] == map[]
    ensures TreeOK(RemoveDir(t, p, n))
  {
    hide Refs, SubDirs, Acyclic, TreeOK, NodeOK, RefsLive;
    TreeParts(t);
    OnlyRef(t, p, n);
    RemoveDirShape(t, p, n);
    RankLess(t.up, t.kids[p][n]);
    forall j | j in RemoveDir(t, p, n).kind ensures NodeOK(RemoveDir(t, p, n), j) { RemoveDirNode(t, p, n, j); }
    TreeFrom(RemoveDir(t, p, n));
  }

  // ---- moving an entry ----

  ghost predicate Movable(t: Tree, p1: nat, n1: Name, p2: nat, n2: Name) {
    && TreeOK(t) && p1 in t.kids && n1 in t.kids[p1] && p2 in t.kids && n2 !in t.kids[p2]
  }

  /** The entry is first added, then the old one removed. */
  lemma MovedRefs(t: Tree, t': Tree, p1: nat, n1: Name, p2: nat, n2: Name, j: nat)
    requires Movable(t, p1, n1, p2, n2) && t'.kids == MovedKids(t, p1, n1, p2, n2)
    ensures Refs(t', j) == Refs(t, j) + (if j == t.kids[p1][n1] then {(p2, n2)} else {}) - {(p1, n1)}
    ensures (p1, n1) in Refs(t, j) <==> j == t.kids[p1][n1]
    ensures (p2, n2) !in Refs(t, j) && (p1, n1) != (p2, n2)
  {
    hide TreeOK;
    var i := t.kids[p1][n1];
    var mid := t.(kids := t.kids[p2 := Bind(t.kids[p2], n2, i)]);
    RefsGrown(t, mid, p2, n2, i, j);
    RefsShrunk(mid, t', p1, n1, j);
    assert (p1, n1) in Refs(t, j) <==> j == i;
  }

  lemma MovedSubDirs(t: Tree, t': Tree, p1: nat, n1: Name, p2: nat, n2: Name, j: nat)
    requires Movable(t, p1, n1, p2, n2) && t'.kids == MovedKids(t, p1, n1, p2, n2) && t'.kind == t.kind
    requires j in t.kids
    ensures j in t'.kids
    ensures !IsDir(t, t.kids[p1][n1]) ==> SubDirs(t', j) == SubDirs(t, j)
    ensures IsDir(t, t.kids[p1][n1]) ==>
      SubDirs(t', j) == SubDirs(t, j) + (if j == p2 then {n2} else {}) - (if j == p1 then {n1} else {})
    ensures n2 !in SubDirs(t, p2)
    ensures n1 in SubDirs(t, p1) <==> IsDir(t, t.kids[p1][n1])
  {
    hide TreeOK;
    var isDir := IsDir(t, t.kids[p1][n1]);
    var more := if j == p2 && isDir then {n2} else {};
    var less := if j == p1 && isDir then {n1} else {};
    forall m | m in SubDirs(t, j) + more - less ensures m in SubDirs(t', j) {}
    forall m | m in SubDirs(t', j) ensures m in SubDirs(t, j) + more - less {}
  }

  lemma MovedShape(t: Tree, t': Tree, p1: nat, n1: Name, p2: nat, n2: Name)
    requires Movable(t, p1, n1, p2, n2) && t'.kids == MovedKids(t, p1, n1, p2, n2) && t'.kind == t.kind
    requires t'.up.Keys == t.up.Keys && t'.links.Keys == t.links.Keys
    ensures Shaped(t') && RefsLive(t') && ROOT_INO in t'.kids
  {
    hide TreeOK;
    TreeParts(t);
  }

  lemma SwapSize(s: set<(nat, Name)>, x: (nat, Name), y: (nat, Name))
    requires y in s && x !in s
    ensures |s + {x} - {y}| == |s|
  {
    assert s + {x} - {y} == s - {y} + {x};
    OneLess(s, y);
  }

  lemma RelinkFileNode(t: Tree, p1: nat, n1: Name, p2: nat, n2: Name, j: nat)
    requires Movable(t, p1, n1, p2, n2) && !IsDir(t, t.kids[p1][n1])
    requires var t' := RelinkFile(t, p1, n1, p2, n2); Shaped(t') && j in t'.kind
    ensures NodeOK(RelinkFile(t, p1, n1, p2, n2), j)
  {
    hide Refs, SubDirs, TreeOK, RefsLive, Acyclic;
    var t' := RelinkFile(t, p1, n1, p2, n2);
    TreeParts(t);
    TreeNode(t, j);
    MovedRefs(t, t', p1, n1, p2, n2, j);
    if j in t.kids { MovedSubDirs(t, t', p1, n1, p2, n2, j); }
    if j == t.kids[p1][n1] { SwapSize(Refs(t, j), (p2, n2), (p1, n1)); } else { assert Refs(t', j) == Refs(t, j); }
  }

  lemma RelinkFileKeeps(t: Tree, p1: nat, n1: Name, p2: nat, n2: Name)
    requires Movable(t, p1, n1, p2, n2) && !IsDir(t, t.kids[p1][n1])
    ensures TreeOK(RelinkFile(t, p1, n1, p2, n2))
  {
    hide Refs, SubDirs, Acyclic, TreeOK, NodeOK, RefsLive, MovedKids;
    TreeParts(t);
    var t' := RelinkFile(t, p1, n1, p2, n2);
    MovedShape(t, t', p1, n1, p2, n2);
    forall j | j in t'.kind ensures NodeOK(t', j) { RelinkFileNode(t, p1, n1, p2, n2, j); }
    TreeFrom(t');
  }

  // ---- moving a directory ----

  /** Following `..` from j reaches i. */
  ghost predicate Under(up: map<nat, nat>, rank: map<nat, nat>, j: nat, i: nat)
    requires Ranks(up, rank) && j in up && UpClosed(up)
    decreases rank[j]
  {
    j == i || (j != ROOT_INO && Under(up, rank, up[j], i))
  }

  /** Pointing a directory at a parent that is not below it keeps `..` acyclic. */
  lemma RankMoved(up: map<nat, nat>, rank: map<nat, nat>, i: nat, p: nat)
    requires Ranks(up, rank) && i in up && p in up && i != ROOT_INO && UpClosed(up)
    requires !Under(up, rank, p, i)
    ensures Acyclic(up[i := p])
  {
    hide Under, UpClosed;
    var up' := up[i := p];
    var rank' := map j | j in up :: if Under(up, rank, j, i) then rank[j] + rank[p] + 1 else rank[j];
    UnderSelf(up, rank, i);
    forall j | j in up && j != ROOT_INO ensures up'[j] in rank' && rank'[up'[j]] < rank'[j] {
      if j != i { UnderStep(up, rank, j, i); }
    }
    assert Ranks(up', rank');
  }

  lemma UnderSelf(up: map<nat, nat>, rank: map<nat, nat>, i: nat)
    requires Ranks(up, rank) && i in up && UpClosed(up)
    ensures Under(up, rank, i, i)
  {}

  lemma UnderStep(up: map<nat, nat>, rank: map<nat, nat>, j: nat, i: nat)
    requires Ranks(up, rank) && j in up && UpClosed(up) && j != i && j != ROOT_INO
    ensures up[j] in up && Under(up, rank, j, i) == Under(up, rank, up[j], i)
  {}

  lemma MovedCount(t: Tree, t': Tree, p1: nat, n1: Name, p2: nat, n2: Name, j: nat)
    requires Movable(t, p1, n1, p2, n2) && t'.kids == MovedKids(t, p1, n1, p2, n2) && t'.kind == t.kind
    requires IsDir(t, t.kids[p1][n1]) && j in t.kids
    ensures j in t'.kids
    ensures |SubDirs(t', j)| == |SubDirs(t, j)| + (if j == p2 then 1 else 0) - (if j == p1 then 1 else 0)
    ensures j == p1 ==> |SubDirs(t, j)| >= 1
  {
    hide TreeOK, SubDirs, MovedKids;
    MovedSubDirs(t, t', p1, n1, p2, n2, j);
    var s := SubDirs(t, j);
    var s2 := s + (if j == p2 then {n2} else {});
    if j == p2 { OneNameMore(s, n2); } else { assert s2 == s; }
    if j == p1 { OneNameLess(s, n1); OneNameLess(s2, n1); } else { assert s2 - {} == s2; }
  }

  lemma RelinkDirLinks(t: Tree, p1: nat, n1: Name, p2: nat, n2: Name, j: nat)
    requires Movable(t, p1, n1, p2, n2) && IsDir(t, t.kids[p1][n1]) && p1 in t.links && p2 in t.links
    requires Shaped(t) && j in t.kids
    ensures var t' := RelinkDir(t, p1, n1, p2, n2); j in t'.kids && j in t'.links && DirLinks(t', j)
  {
    hide Refs, TreeOK, RefsLive, Acyclic, OneParent, SubDirs, MovedKids;
    var t' := RelinkDir(t, p1, n1, p2, n2);
    TreeParts(t);
    TreeNode(t, j);
    MovedCount(t, t', p1, n1, p2, n2, j);
    LinkUp(t.links[j], |SubDirs(t, j)|);
    if j == p1 { LinkDown(t.links[j], |SubDirs(t, j)|); }
  }

  lemma RelinkDirNode(t: Tree, p1: nat, n1: Name, p2: nat, n2: Name, j: nat)
    requires Movable(t, p1, n1, p2, n2) && IsDir(t, t.kids[p1][n1]) && p1 in t.links && p2 in t.links
    requires var t' := RelinkDir(t, p1, n1, p2, n2); Shaped(t) && Shaped(t') && j in t'.kind
    ensures NodeOK(RelinkDir(t, p1, n1, p2, n2), j)
  {
    hide Refs, SubDirs, TreeOK, RefsLive, Acyclic, MovedKids, DirLinks;
    var t' := RelinkDir(t, p1, n1, p2, n2);
    TreeParts(t);
    TreeNode(t, j);
    MovedRefs(t, t', p1, n1, p2, n2, j);
    if j in t.kids { RelinkDirLinks(t, p1, n1, p2, n2, j); }
    OnlyRef(t, p1, n1);
    if j == t.kids[p1][n1] {
      assert Refs(t', j) == {(p2, n2)};
    } else {
      assert Refs(t', j) == Refs(t, j);
    }
  }

  lemma RelinkDirKeeps(t: Tree, p1: nat, n1: Name, p2: nat, n2: Name, rank: map<nat, nat>)
    requires Movable(t, p1, n1, p2, n2) && IsDir(t, t.kids[p1][n1]) && p1 in t.links && p2 in t.links
    requires p2 in t.up && Ranks(t.up, rank) && UpClosed(t.up)
    requires !Under(t.up, rank, p2, t.kids[p1][n1])
    ensures TreeOK(RelinkDir(t, p1, n1, p2, n2))
  {
    hide Refs, SubDirs, Acyclic, TreeOK, NodeOK, RefsLive, MovedKids, Under, Ranks, RelinkDir, UpClosed;
    TreeParts(t);
    var t' := RelinkDir(t, p1, n1, p2, n2);
    RelinkDirParts(t, p1, n1, p2, n2, rank);
    MovedShape(t, t', p1, n1, p2, n2);
    forall j | j in t'.kind ensures NodeOK(t', j) { RelinkDirNode(t, p1, n1, p2, n2, j); }
    TreeFrom(t');
  }

  /** Under a directory, ranks are no lower. */
  lemma {:induction false} UnderRank(up: map<nat, nat>, rank: map<nat, nat>, up': map<nat, nat>, rank': map<nat, nat>, j: nat, i: nat)
    requires Ranks(up, rank) && UpClosed(up) && j in up && i in up && Under(up, rank, j, i)
    requires Ranks(up', rank') && up'.Keys == up.Keys && forall k :: k in up && k != i ==> up'[k] == up[k]
    ensures i in rank' && j in rank' && rank'[i] <= rank'[j]
    decreases if j in rank then rank[j] else 0
  {
    hide UpClosed;
    if j != i {
      UnderStep(up, rank, j, i);
      UnderRank(up, rank, up', rank', up[j], i);
    }
  }

  /** The into-itself check is exactly what moving a directory needs: the tree
      survives if and only if the new parent is not below the directory. */
  lemma RelinkDirExact(t: Tree, p1: nat, n1: Name, p2: nat, n2: Name, rank: map<nat, nat>)
    requires Movable(t, p1, n1, p2, n2) && IsDir(t, t.kids[p1][n1]) && p1 in t.links && p2 in t.links
    requires p2 in t.up && Ranks(t.up, rank) && UpClosed(t.up)
    ensures TreeOK(RelinkDir(t, p1, n1, p2, n2)) <==> !Under(t.up, rank, p2, t.kids[p1][n1])
  {
    hide Refs, SubDirs, TreeOK, RefsLive, MovedKids, Under, RelinkDir, UpClosed, DirLinks;
    var i := t.kids[p1][n1];
    OnlyRef(t, p1, n1);
    TreeParts(t);
    if Under(t.up, rank, p2, i) {
      RelinkDirFields(t, p1, n1, p2, n2);
      var up' := t.up[i := p2];
      if TreeOK(RelinkDir(t, p1, n1, p2, n2)) {
        TreeParts(RelinkDir(t, p1, n1, p2, n2));
        var rank' :| Ranks(up', rank');
        UnderRank(t.up, rank, up', rank', p2, i);
      }
    } else {
      RelinkDirKeeps(t, p1, n1, p2, n2, rank);
    }
  }

  lemma RelinkDirParts(t: Tree, p1: nat, n1: Name, p2: nat, n2: Name, rank: map<nat, nat>)
    requires Movable(t, p1, n1, p2, n2) && IsDir(t, t.kids[p1][n1]) && p1 in t.links && p2 in t.links
    requires p2 in t.up && Ranks(t.up, rank) && UpClosed(t.up)
    requires !Under(t.up, rank, p2, t.kids[p1][n1])
    ensures var t' := RelinkDir(t, p1, n1, p2, n2);
            && t'.kids == MovedKids(t, p1, n1, p2, n2) && t'.kind == t.kind
            && t'.up.Keys == t.up.Keys && t'.links.Keys == t.links.Keys
            && Acyclic(t'.up) && ROOT_INO in t'.up && t'.up[ROOT_INO] == ROOT_INO
  {
    hide Refs, SubDirs, Acyclic, TreeOK, NodeOK, RefsLive, MovedKids, Under, Ranks, RelinkDir, UpClosed;
    TreeParts(t);
    OnlyRef(t, p1, n1);
    RankMoved(t.up, rank, t.kids[p1][n1], p2);
    RelinkDirFields(t, p1, n1, p2, n2);
  }

  lemma RelinkDirFields(t: Tree, p1: nat, n1: Name, p2: nat, n2: Name)
    requires p1 in t.kids && n1 in t.kids[p1] && p2 in t.kids && p1 in t.links && p2 in t.links
    requires t.kids[p1][n1] in t.up && t.up[t.kids[p1][n1]] == p1
    ensures var t' := RelinkDir(t, p1, n1, p2, n2);
            && t'.kids == MovedKids(t, p1, n1, p2, n2) && t'.kind == t.kind
            && t'.up == t.up[t.kids[p1][n1] := p2] && t'.links.Keys == t.links.Keys
  {
    hide MovedKids;
    SameUpMap(t.up, t.kids[p1][n1], p2);
  }

  lemma SameUpMap(up: map<nat, nat>, i: nat, p: nat)
    requires i in up
    ensures up[i] == p ==> up[i := p] == up
  {}

  // ---- paths ----

  /** The inode reached from cur through plain entries. */
  function Walk(t: Tree, cur: nat, path: seq<Name>): (r: int)
    ensures -1 <= r
    decreases |path|
  {
    if path == [] then cur
    else if cur in t.kids && path[0] in t.kids[cur] then Walk(t, t.kids[cur][path[0]], path[1..])
    else -1
  }

  lemma {:induction false} WalkConcat(t: Tree, cur: nat, a: seq<Name>, b: seq<Name>)
    ensures Walk(t, cur, a + b) == if Walk(t, cur, a) < 0 then -1 else Walk(t, Walk(t, cur, a), b)
    decreases |a|
  {
    if a == [] {
      assert a + b == b;
    } else {
      assert (a + b)[1..] == a[1..] + b;
      if cur in t.kids && a[0] in t.kids[cur] { WalkConcat(t, t.kids[cur][a[0]], a[1..], b); }
    }
  }

  /** The last step of a path is an entry of the directory before it. */
  lemma WalkLast(t: Tree, cur: nat, path: seq<Name>)
    requires path != [] && Walk(t, cur, path) >= 0
    ensures var n := |path| - 1;
            var p := Walk(t, cur, path[..n]);
            p >= 0 && p in t.kids && path[n] in t.kids[p] && t.kids[p][path[n]] == Walk(t, cur, path)
  {
    var n := |path| - 1;
    assert path == path[..n] + [path[n]];
    WalkConcat(t, cur, path[..n], [path[n]]);
    WalkOne(t, Walk(t, cur, path[..n]), path[n]);
  }

  /** A directory has only one path from the root. */
  lemma {:induction false} WalkUnique(t: Tree, a: seq<Name>, b: seq<Name>)
    requires TreeOK(t) && Walk(t, ROOT_INO, a) == Walk(t, ROOT_INO, b) >= 0
    requires IsDir(t, Walk(t, ROOT_INO, a))
    ensures a == b
    decreases |a|
  {
    hide TreeOK, Walk;
    if a != [] { WalkLast(t, ROOT_INO, a); var m := |a| - 1; OnlyRef(t, Walk(t, ROOT_INO, a[..m]), a[m]); }
    if b != [] { WalkLast(t, ROOT_INO, b); var m := |b| - 1; OnlyRef(t, Walk(t, ROOT_INO, b[..m]), b[m]); }
    WalkHere(t, ROOT_INO);
    if a != [] && b != [] {
      var m, k := |a| - 1, |b| - 1;
      var p, q := Walk(t, ROOT_INO, a[..m]), Walk(t, ROOT_INO, b[..k]);
      var i := t.kids[p][a[m]];
      assert (p, a[m]) in Refs(t, i) && (q, b[k]) in Refs(t, i);
      TreeParts(t);
      WalkUnique(t, a[..m], b[..k]);
      assert a == a[..m] + [a[m]] && b == b[..k] + [b[k]];
    }
  }

  lemma WalkHere(t: Tree, cur: nat)
    ensures Walk(t, cur, []) == cur
  {}

  /** A path to i continues to everything below i. */
  lemma {:induction false} PathBelow(t: Tree, rank: map<nat, nat>, f: seq<Name>, i: nat, j: nat) returns (u: seq<Name>)
    requires TreeOK(t) && Ranks(t.up, rank) && j in t.up && UpClosed(t.up)
    requires Walk(t, ROOT_INO, f) == i && Under(t.up, rank, j, i)
    ensures Walk(t, ROOT_INO, f + u) == j
    decreases if j in rank then rank[j] else 0
  {
    hide Walk, TreeOK;
    if j == i {
      u := [];
      assert f + [] == f;
    } else {
      TreeParts(t);
      var v := PathBelow(t, rank, f, i, t.up[j]);
      TreeNode(t, j);
      var n :| Refs(t, j) == {(t.up[j], n)};
      assert (t.up[j], n) in Refs(t, j);
      u := v + [n];
      assert f + u == (f + v) + [n];
      WalkConcat(t, ROOT_INO, f + v, [n]);
      WalkOne(t, t.up[j], n);
    }
  }

  lemma WalkOne(t: Tree, p: int, n: Name)
    requires p >= 0
    ensures Walk(t, p, [n]) == if p in t.kids && n in t.kids[p] then t.kids[p][n] else -1
  {
    var one := [n];
    assert one[1..] == [];
  }

  /** The lexical check of mv! is enough: with plain paths, a destination that
      does not continue the source's path is not below the moved directory. */
  lemma NotIntoItself(t: Tree, rank: map<nat, nat>, from_: seq<Name>, to: seq<Name>)
    requires TreeOK(t) && Ranks(t.up, rank) && UpClosed(t.up)
    requires to != [] && Walk(t, ROOT_INO, from_) >= 0 && Walk(t, ROOT_INO, to[..|to| - 1]) in t.up
    requires Walk(t, ROOT_INO, to[..|to| - 1]) in t.kids
    requires !(from_ <= to)
    ensures !Under(t.up, rank, Walk(t, ROOT_INO, to[..|to| - 1]), Walk(t, ROOT_INO, from_))
  {
    hide Walk, TreeOK, Under, Ranks, UpClosed;
    var i, p2 := Walk(t, ROOT_INO, from_), Walk(t, ROOT_INO, to[..|to| - 1]);
    if Under(t.up, rank, p2, i) {
      var u := PathBelow(t, rank, from_, i, p2);
      TreeParts(t);
      WalkUnique(t, from_ + u, to[..|to| - 1]);
    }
  }
}
