/** From the disk's directories to the tree, and path lookup
    (lib/ext2.beer:231-286, 306-311, 688-695). */
module Ext2Names {
  import opened Bytes
  import opened Ext2Disk
  import opened Ext2DirBlock
  import opened Ext2DirData
  import opened Ext2Store
  import opened Ext2Dir
  import opened Ext2DirOps
  import opened Ext2Tree

  /** The inode number of the first entry of this name; -1 for none. */
  function FindIno(es: seq<Entry>, name: Bytes): (r: int)
    ensures -1 <= r
  {
    if es == [] then -1
    else if es[0].name == name then es[0].ino
    else FindIno(es[1..], name)
  }

  predicate Plain(name: Bytes) { name != DOT && name != DOTDOT }

  /** The entries other than `.` and `..`, as a map. */
  function KidMap(es: seq<Entry>): map<Name, nat> {
    if es == [] then map[]
    else if Plain(es[0].name) then Bind(KidMap(es[1..]), es[0].name, es[0].ino)
    else KidMap(es[1..])
  }

  lemma {:induction false} KidMapIs(es: seq<Entry>, n: Bytes)
    ensures n in KidMap(es) <==> Plain(n) && FindIno(es, n) >= 0
    ensures n in KidMap(es) ==> KidMap(es)[n] == FindIno(es, n)
  {
    if es != [] { KidMapIs(es[1..], n); }
  }

  lemma {:induction false} FindConcat(a: seq<Entry>, b: seq<Entry>, n: Bytes)
    ensures FindIno(a + b, n) == if FindIno(a, n) >= 0 then FindIno(a, n) else FindIno(b, n)
  {
    if a == [] {
      assert a + b == b;
    } else {
      assert (a + b)[1..] == a[1..] + b;
      FindConcat(a[1..], b, n);
    }
  }

  lemma {:induction false} FindNone(es: seq<Entry>, n: Bytes)
    ensures FindIno(es, n) < 0 <==> NoneNamed(es, n)
  {
    if es != [] {
      FindNone(es[1..], n);
      assert es == [es[0]] + es[1..];
      if NoneNamed(es, n) { assert !Named(es[0], n); assert forall e :: e in es[1..] ==> e in es; }
    }
  }

  lemma FindOne(e: Entry, n: Bytes)
    ensures FindIno([e], n) == if e.name == n then e.ino else -1
  {
    var one := [e];
    assert one[1..] == [];
  }

  ghost predicate UniqueNames(es: seq<Entry>) {
    forall a, b :: 0 <= a < b < |es| ==> es[a].name != es[b].name
  }

  lemma FindInserted(es: seq<Entry>, es': seq<Entry>, e: Entry, n: Bytes)
    requires Inserted(es, es', e) && FindIno(es, e.name) < 0
    ensures FindIno(es', n) == if n == e.name then e.ino else FindIno(es, n)
  {
    var k :| 0 <= k <= |es| && es' == es[..k] + [e] + es[k..];
    assert es == es[..k] + es[k..];
    FindConcat(es[..k], es[k..], n);
    FindConcat(es[..k] + [e], es[k..], n);
    FindConcat(es[..k], [e], n);
    FindOne(e, n);
  }

  lemma UniqueInserted(es: seq<Entry>, es': seq<Entry>, e: Entry)
    requires Inserted(es, es', e) && FindIno(es, e.name) < 0 && UniqueNames(es)
    ensures UniqueNames(es')
  {
    FindNone(es, e.name);
    var k :| 0 <= k <= |es| && es' == es[..k] + [e] + es[k..];
    forall a, b | 0 <= a < b < |es'| ensures es'[a].name != es'[b].name {
      assert a != k ==> es'[a] == es[if a < k then a else a - 1];
      assert b != k ==> es'[b] == es[if b < k then b else b - 1];
      assert a != k ==> !Named(es[if a < k then a else a - 1], e.name);
      assert b != k ==> !Named(es[if b < k then b else b - 1], e.name);
    }
  }

  lemma FindWithout(es: seq<Entry>, es': seq<Entry>, name: Bytes, k: nat, n: Bytes)
    requires Without(es, es', name, k) && UniqueNames(es)
    ensures FindIno(es', n) == if n == name then -1 else FindIno(es, n)
    ensures FindIno(es, name) == es[k].ino
  {
    assert es == es[..k] + [es[k]] + es[k + 1..];
    FindConcat(es[..k] + [es[k]], es[k + 1..], n);
    FindConcat(es[..k], [es[k]], n);
    FindConcat(es[..k], es[k + 1..], n);
    FindConcat(es[..k] + [es[k]], es[k + 1..], name);
    FindConcat(es[..k], [es[k]], name);
    FindOne(es[k], n);
    FindOne(es[k], name);
    FindNone(es[..k], name);
    FindNone(es[k + 1..], name);
    forall e | e in es[k + 1..] ensures !Named(e, name) {
      var m :| 0 <= m < |es[k + 1..]| && es[k + 1..][m] == e;
      assert es[k + 1 + m] == e;
    }
  }

  lemma UniqueWithout(es: seq<Entry>, es': seq<Entry>, name: Bytes, k: nat)
    requires Without(es, es', name, k) && UniqueNames(es)
    ensures UniqueNames(es')
  {
    forall a, b | 0 <= a < b < |es'| ensures es'[a].name != es'[b].name {
      assert es'[a] == es[if a < k then a else a + 1];
      assert es'[b] == es[if b < k then b else b + 1];
    }
  }

  lemma FindRepointed(es: seq<Entry>, es': seq<Entry>, name: Bytes, k: nat, ino: nat, n: Bytes)
    requires Repointing(es, es', name, k, ino)
    ensures FindIno(es', n) == if n == name then ino else FindIno(es, n)
  {
    var e := es[k].(ino := ino);
    assert es == es[..k] + [es[k]] + es[k + 1..];
    assert es' == es[..k] + [e] + es[k + 1..];
    FindConcat(es[..k] + [es[k]], es[k + 1..], n);
    FindConcat(es[..k], [es[k]], n);
    FindConcat(es[..k] + [e], es[k + 1..], n);
    FindConcat(es[..k], [e], n);
    FindOne(es[k], n);
    FindOne(e, n);
    FindNone(es[..k], name);
  }

  // ---- directories of the disk ----

  /** Names in directory i are distinct, `.` names i itself and `..` is in the
      first block. */
  ghost predicate NamesOK(geo: Geometry, d: Disk, i: nat)
    requires geo.Valid() && Fits(geo, d) && DirOK(geo, d, i)
  {
    && UniqueNames(Ents(geo, d, i))
    && FindIno(Ents(geo, d, i), DOT) == i
    && FindIno(Ents(geo, d, i), DOTDOT) >= 0
    && FirstBlockNames(geo, d, i, DOTDOT)
  }

  ghost predicate DirsOK(geo: Geometry, d: Disk, live: set<nat>)
    requires geo.Valid() && Fits(geo, d)
  {
    forall i :: i in live && i < |d.inode| && d.inode[i].kind == Dir ==> DirOK(geo, d, i) && NamesOK(geo, d, i)
  }

  ghost function DirSet(d: Disk, live: set<nat>): set<nat> {
    set i | i in live && i < |d.inode| && d.inode[i].kind == Dir
  }

  /** The tree that the live inodes and their entries form. */
  ghost function TreeOf(geo: Geometry, d: Disk, live: set<nat>): Tree
    requires geo.Valid() && Fits(geo, d) && DirsOK(geo, d, live) && Numbers(geo, live)
  {
    Tree(map i | i in DirSet(d, live) :: KidMap(Ents(geo, d, i)),
         map i | i in DirSet(d, live) :: FindIno(Ents(geo, d, i), DOTDOT),
         map i | i in live :: d.inode[i].links,
         map i | i in live :: d.inode[i].kind)
  }
}
