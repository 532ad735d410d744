/** The records of one directory block, byte by byte: how they tile it, and what
    adding, removing and repointing an entry does to them
    (lib/ext2.beer:231-253, 604-684, 803-815). */
module Ext2DirBlock {
  import opened Bytes

  datatype Entry = Entry(name: Bytes, ino: nat, ft: nat)

  function Align4(n: nat): (r: nat)
    ensures n <= r < n + 4 && r % 4 == 0
  {
    4 * ((n + 3) / 4)
  }

  // ---- one record ----

  function RecIno(b: Bytes, o: nat): nat
    requires o + 8 <= |b|
  {
    U32(b, o)
  }

  function RecLen(b: Bytes, o: nat): nat
    requires o + 8 <= |b|
  {
    U16(b, o + 4)
  }

  function NameLen(ft: bool, b: Bytes, o: nat): nat
    requires o + 8 <= |b|
  {
    if ft then b[o + 6] else U16(b, o + 6)
  }

  /** A record that fits: a multiple of 4 bytes, with room for its name. */
  predicate GoodRec(ft: bool, b: Bytes, o: nat) {
    && o + 8 <= |b|
    && 8 <= RecLen(b, o) && o + RecLen(b, o) <= |b| && RecLen(b, o) % 4 == 0
    && (RecIno(b, o) != 0 ==> 1 <= NameLen(ft, b, o) && 8 + NameLen(ft, b, o) <= RecLen(b, o))
  }

  function RecEntry(ft: bool, b: Bytes, o: nat): Entry
    requires o + 8 <= |b| && o + 8 + NameLen(ft, b, o) <= |b|
  {
    Entry(b[o + 8..o + 8 + NameLen(ft, b, o)], RecIno(b, o), if ft then b[o + 7] else 0)
  }

  /** The entry of a record, none for a deleted one. */
  function Live(ft: bool, b: Bytes, o: nat): seq<Entry>
    requires GoodRec(ft, b, o)
  {
    if RecIno(b, o) == 0 then [] else [RecEntry(ft, b, o)]
  }

  /** Bytes of a record that its entry needs. */
  function UsedLen(ft: bool, b: Bytes, o: nat): (r: nat)
    requires GoodRec(ft, b, o)
    ensures r <= RecLen(b, o) && r % 4 == 0 && (r == 0 || 12 <= r)
  {
    if RecIno(b, o) == 0 then 0 else Align4(8 + NameLen(ft, b, o))
  }

  /** From offset o on, records follow each other exactly to the block's end. */
  predicate Tiles(ft: bool, b: Bytes, o: nat)
    decreases |b| - o
  {
    o == |b| || (GoodRec(ft, b, o) && Tiles(ft, b, o + RecLen(b, o)))
  }

  /** The entries from offset o on, in order. */
  function Entries(ft: bool, b: Bytes, o: nat): seq<Entry>
    requires Tiles(ft, b, o)
    decreases |b| - o
  {
    if o == |b| then [] else Live(ft, b, o) + Entries(ft, b, o + RecLen(b, o))
  }

  /** p is the start of a record reached from o. */
  predicate OnChain(ft: bool, b: Bytes, o: nat, p: nat)
    decreases |b| - o
  {
    o == p || (o < p && GoodRec(ft, b, o) && OnChain(ft, b, o + RecLen(b, o), p))
  }

  lemma {:induction false} ChainTiles(ft: bool, b: Bytes, o: nat, p: nat)
    requires Tiles(ft, b, o) && OnChain(ft, b, o, p)
    ensures Tiles(ft, b, p) && o <= p <= |b|
    decreases |b| - o
  {
    if o != p { ChainTiles(ft, b, o + RecLen(b, o), p); }
  }

  lemma {:induction false} ChainStep(ft: bool, b: Bytes, o: nat, p: nat)
    requires OnChain(ft, b, o, p) && GoodRec(ft, b, p)
    ensures OnChain(ft, b, o, p + RecLen(b, p))
    decreases |b| - o
  {
    if o != p { ChainStep(ft, b, o + RecLen(b, o), p); }
  }

  // ---- what a record depends on ----

  ghost predicate SameBytes(b: Bytes, b': Bytes, from_: nat, to: nat) {
    |b'| == |b| && forall i :: from_ <= i < to && i < |b| ==> b'[i] == b[i]
  }

  lemma SameRec(ft: bool, b: Bytes, b': Bytes, o: nat)
    requires GoodRec(ft, b, o) && SameBytes(b, b', o, o + RecLen(b, o))
    ensures GoodRec(ft, b', o) && RecLen(b', o) == RecLen(b, o) && RecIno(b', o) == RecIno(b, o)
    ensures NameLen(ft, b', o) == NameLen(ft, b, o)
    ensures Live(ft, b', o) == Live(ft, b, o)
  {
    SameHeader(ft, b, b', o);
    hide RecLen, RecIno, NameLen;
    if RecIno(b, o) != 0 {
      var n := NameLen(ft, b, o);
      assert b'[o + 8..o + 8 + n] == b[o + 8..o + 8 + n];
    }
  }

  lemma SameHeader(ft: bool, b: Bytes, b': Bytes, o: nat)
    requires o + 8 <= |b| && SameBytes(b, b', o, o + 8)
    ensures RecLen(b', o) == RecLen(b, o) && RecIno(b', o) == RecIno(b, o)
    ensures NameLen(ft, b', o) == NameLen(ft, b, o)
    ensures b'[o + 7] == b[o + 7]
  {
    assert U16(b', o) == U16(b, o) && U16(b', o + 2) == U16(b, o + 2);
  }

  lemma {:induction false} SameTail(ft: bool, b: Bytes, b': Bytes, o: nat)
    requires Tiles(ft, b, o) && SameBytes(b, b', o, |b|)
    ensures Tiles(ft, b', o) && Entries(ft, b', o) == Entries(ft, b, o)
    decreases |b| - o
  {
    hide GoodRec, RecLen, Live;
    if o != |b| {
      TilesAt(ft, b, o);
      SameRec(ft, b, b', o);
      SameTail(ft, b, b', o + RecLen(b, o));
    }
  }

  lemma TilesAt(ft: bool, b: Bytes, o: nat)
    requires Tiles(ft, b, o) && o != |b|
    ensures GoodRec(ft, b, o) && Tiles(ft, b, o + RecLen(b, o)) && RecLen(b, o) >= 8
    ensures o + 8 <= |b| && o + RecLen(b, o) <= |b|
  {}

  // ---- put-entry! ----

  function PutEntry(ft: bool, b: Bytes, o: nat, ino: nat, rec: nat, name: Bytes, t: nat): (r: Bytes)
    requires o + 8 + |name| <= |b| && t < 256 && |name| <= 255
    ensures |r| == |b|
  {
    var b1 := PutU16(PutU32(b, o, ino), o + 4, rec);
    var b2 := if ft then b1[o + 6 := |name|][o + 7 := t] else PutU16(b1, o + 6, |name|);
    PutBytes(b2, o + 8, name)
  }

  /** A linked directory entry, byte by byte: the inode number and the record's length with
      the low byte first, the name's length in one byte with a type or in two, the name. */
  lemma RecordBytes(ft: bool, b: Bytes, o: nat, ino: nat, rec: nat, name: Bytes, t: nat)
    requires o + 8 + |name| <= |b| && t < 256 && |name| <= 255 && ino < 0x1_0000_0000 && rec < 0x1_0000
    ensures var r := PutEntry(ft, b, o, ino, rec, name, t);
            && r[o] == ino % 256 && r[o + 1] == ino / 256 % 256 && r[o + 2] == ino / 65536 % 256 && r[o + 3] == ino / 16777216
            && r[o + 4] == rec % 256 && r[o + 5] == rec / 256
            && r[o + 6] == |name| && r[o + 7] == (if ft then t else 0)
            && r[o + 8..o + 8 + |name|] == name
            && forall i :: 0 <= i < |b| && !(o <= i < o + 8 + |name|) ==> r[i] == b[i]
  {
    var b0 := PutU32(b, o, ino);
    LowFirst(b, o, ino);
    var b1 := PutU16(b0, o + 4, rec);
    var b2 := if ft then b1[o + 6 := |name|][o + 7 := t] else PutU16(b1, o + 6, |name|);
    var r := PutBytes(b2, o + 8, name);
    assert forall i :: o <= i < o + 8 ==> r[i] == b2[i];
  }

  lemma LowFirst(b: Bytes, o: nat, v: nat)
    requires o + 4 <= |b| && v < 0x1_0000_0000
    ensures var r := PutU32(b, o, v);
            r[o] == v % 256 && r[o + 1] == v / 256 % 256 && r[o + 2] == v / 65536 % 256 && r[o + 3] == v / 16777216
  {}

  function NewEntry(ft: bool, name: Bytes, ino: nat, t: nat): Entry {
    Entry(name, ino, if ft then t else 0)
  }

  lemma PutEntryIs(ft: bool, b: Bytes, o: nat, ino: nat, rec: nat, name: Bytes, t: nat)
    requires 1 <= |name| <= 255 && 8 + |name| <= rec && o + rec <= |b| && t < 256
    requires 0 < ino < 0x1_0000_0000 && rec < 0x1_0000 && rec % 4 == 0
    ensures var b' := PutEntry(ft, b, o, ino, rec, name, t);
            && GoodRec(ft, b', o) && RecLen(b', o) == rec
            && Live(ft, b', o) == [NewEntry(ft, name, ino, t)]
            && (forall i :: 0 <= i < |b| && !(o <= i < o + 8 + |name|) ==> b'[i] == b[i])
  {
    HeaderIs(ft, b, o, ino, rec, name, t);
  }

  lemma HeaderIs(ft: bool, b: Bytes, o: nat, ino: nat, rec: nat, name: Bytes, t: nat)
    requires 1 <= |name| <= 255 && 8 + |name| <= rec && o + rec <= |b| && t < 256
    requires 0 < ino < 0x1_0000_0000 && rec < 0x1_0000
    ensures var b' := PutEntry(ft, b, o, ino, rec, name, t);
            && RecIno(b', o) == ino && RecLen(b', o) == rec && NameLen(ft, b', o) == |name|
            && (ft ==> b'[o + 7] == t)
            && b'[o + 8..o + 8 + |name|] == name
            && (forall i :: 0 <= i < |b| && !(o <= i < o + 8 + |name|) ==> b'[i] == b[i])
  {
    var b0 := PutU32(b, o, ino);
    var b1 := PutU16(b0, o + 4, rec);
    var b2 := if ft then b1[o + 6 := |name|][o + 7 := t] else PutU16(b1, o + 6, |name|);
    var b' := PutBytes(b2, o + 8, name);
    assert U16(b', o) == U16(b0, o) && U16(b', o + 2) == U16(b0, o + 2);
    assert U16(b', o + 4) == U16(b1, o + 4);
    if !ft { assert U16(b', o + 6) == U16(b2, o + 6); }
  }

  // ---- adding ----

  /** new_ is old with e put in somewhere. */
  ghost predicate Inserted(old_: seq<Entry>, new_: seq<Entry>, e: Entry) {
    exists k :: 0 <= k <= |old_| && new_ == old_[..k] + [e] + old_[k..]
  }

  lemma InsertedAfter(pre: seq<Entry>, old_: seq<Entry>, new_: seq<Entry>, e: Entry)
    requires Inserted(old_, new_, e)
    ensures Inserted(pre + old_, pre + new_, e)
  {
    var k :| 0 <= k <= |old_| && new_ == old_[..k] + [e] + old_[k..];
    var m := |pre| + k;
    assert pre + new_ == (pre + old_)[..m] + [e] + (pre + old_)[m..];
  }

  lemma InsertedBefore(old_: seq<Entry>, new_: seq<Entry>, e: Entry, post: seq<Entry>)
    requires Inserted(old_, new_, e)
    ensures Inserted(old_ + post, new_ + post, e)
  {
    var k :| 0 <= k <= |old_| && new_ == old_[..k] + [e] + old_[k..];
    assert new_ + post == (old_ + post)[..k] + [e] + (old_ + post)[k..];
  }

  /** The entries of the records from o up to p. */
  function Before(ft: bool, b: Bytes, o: nat, p: nat): seq<Entry>
    requires OnChain(ft, b, o, p)
    decreases |b| - o
  {
    if o == p then [] else Live(ft, b, o) + Before(ft, b, o + RecLen(b, o), p)
  }

  /** A change from p on leaves the entries before p as they are. */
  lemma {:induction false} Upstream(ft: bool, b: Bytes, b': Bytes, o: nat, p: nat)
    requires Tiles(ft, b, o) && OnChain(ft, b, o, p) && SameBytes(b, b', 0, p)
    requires Tiles(ft, b', p)
    ensures Tiles(ft, b, p) && Entries(ft, b, o) == Before(ft, b, o, p) + Entries(ft, b, p)
    ensures Tiles(ft, b', o) && Entries(ft, b', o) == Before(ft, b, o, p) + Entries(ft, b', p)
    decreases |b| - o
  {
    hide GoodRec, RecLen, RecIno, NameLen, Live, Tiles, Entries, OnChain, Before, SameBytes;
    ChainTiles(ft, b, o, p);
    if o == p {
      NothingBefore(ft, b, o);
    } else {
      ChainAt(ft, b, o, p);
      SamePart(b, b', o, o + RecLen(b, o), p);
      SameRec(ft, b, b', o);
      Upstream(ft, b, b', o + RecLen(b, o), p);
      BeforeOne(ft, b, o, p);
      TilesOne(ft, b, o);
      TilesOne(ft, b', o);
      var x, y := Live(ft, b, o), Before(ft, b, o + RecLen(b, o), p);
      assert x + (y + Entries(ft, b, p)) == x + y + Entries(ft, b, p);
      assert x + (y + Entries(ft, b', p)) == x + y + Entries(ft, b', p);
    }
  }

  lemma SamePart(b: Bytes, b': Bytes, x: nat, y: nat, p: nat)
    requires SameBytes(b, b', 0, p) && y <= p
    ensures SameBytes(b, b', x, y)
  {}

  lemma BeforeOne(ft: bool, b: Bytes, o: nat, p: nat)
    requires OnChain(ft, b, o, p) && o != p
    ensures GoodRec(ft, b, o) && OnChain(ft, b, o + RecLen(b, o), p)
    ensures Before(ft, b, o, p) == Live(ft, b, o) + Before(ft, b, o + RecLen(b, o), p)
  {
    hide GoodRec, RecLen, Live;
    ChainLow(ft, b, o, p);
  }


  lemma ChainAt(ft: bool, b: Bytes, o: nat, p: nat)
    requires Tiles(ft, b, o) && OnChain(ft, b, o, p) && o != p
    ensures GoodRec(ft, b, o) && o != |b| && RecLen(b, o) >= 8
    ensures Tiles(ft, b, o + RecLen(b, o)) && OnChain(ft, b, o + RecLen(b, o), p)
    ensures o + 8 <= |b| && o + RecLen(b, o) <= |b| && o + RecLen(b, o) <= p
  {
    ChainTiles(ft, b, o, p);
    ChainTiles(ft, b, o + RecLen(b, o), p);
  }

  /** The block after add-entry! used the slot at p. */
  function Added(ft: bool, b: Bytes, p: nat, ino: nat, name: Bytes, t: nat): (r: Bytes)
    requires GoodRec(ft, b, p) && |name| <= 255 && t < 256
    requires RecLen(b, p) - UsedLen(ft, b, p) >= 8 + |name|
    ensures |r| == |b|
  {
    var rec, used := RecLen(b, p), UsedLen(ft, b, p);
    if RecIno(b, p) == 0 then PutEntry(ft, b, p, ino, rec, name, t)
    else PutEntry(ft, PutU16(b, p + 4, used), p + used, ino, rec - used, name, t)
  }

  lemma TilesOne(ft: bool, b: Bytes, o: nat)
    requires GoodRec(ft, b, o) && Tiles(ft, b, o + RecLen(b, o))
    ensures Tiles(ft, b, o) && Entries(ft, b, o) == Live(ft, b, o) + Entries(ft, b, o + RecLen(b, o))
  {}

  lemma ReuseSlot(ft: bool, b: Bytes, p: nat, ino: nat, name: Bytes, t: nat)
    requires Tiles(ft, b, p) && p < |b| && RecIno(b, p) == 0
    requires 1 <= |name| <= 255 && t < 256 && 0 < ino < 0x1_0000_0000
    requires RecLen(b, p) >= 8 + |name|
    ensures var b' := PutEntry(ft, b, p, ino, RecLen(b, p), name, t);
            Tiles(ft, b', p) && Entries(ft, b', p) == [NewEntry(ft, name, ino, t)] + Entries(ft, b, p)
  {
    hide Live, RecIno, PutEntry;
    var rec := RecLen(b, p);
    var b' := PutEntry(ft, b, p, ino, rec, name, t);
    PutEntryIs(ft, b, p, ino, rec, name, t);
    SameTail(ft, b, b', p + rec);
    TilesOne(ft, b', p);
    TilesOne(ft, b, p);
    NoLive(ft, b, p);
  }

  lemma NoLive(ft: bool, b: Bytes, p: nat)
    requires GoodRec(ft, b, p) && RecIno(b, p) == 0
    ensures Live(ft, b, p) == []
  {}

  /** Shortening or lengthening a record keeps its entry. */
  lemma Resized(ft: bool, b: Bytes, p: nat, rec: nat)
    requires GoodRec(ft, b, p) && rec < 0x1_0000 && rec % 4 == 0 && p + rec <= |b|
    requires 8 <= rec && (RecIno(b, p) != 0 ==> 8 + NameLen(ft, b, p) <= rec)
    ensures var b' := PutU16(b, p + 4, rec);
            && GoodRec(ft, b', p) && RecLen(b', p) == rec && RecIno(b', p) == RecIno(b, p)
            && Live(ft, b', p) == Live(ft, b, p) && NameLen(ft, b', p) == NameLen(ft, b, p)
  {
    var b' := PutU16(b, p + 4, rec);
    assert U16(b', p) == U16(b, p) && U16(b', p + 2) == U16(b, p + 2) && U16(b', p + 6) == U16(b, p + 6);
    if RecIno(b, p) != 0 {
      var n := NameLen(ft, b, p);
      assert b'[p + 8..p + 8 + n] == b[p + 8..p + 8 + n];
    }
  }

  lemma SplitSlot(ft: bool, b: Bytes, p: nat, ino: nat, name: Bytes, t: nat)
    requires |b| < 0x1_0000 && Tiles(ft, b, p) && p < |b| && RecIno(b, p) != 0
    requires 1 <= |name| <= 255 && t < 256 && 0 < ino < 0x1_0000_0000
    requires RecLen(b, p) - UsedLen(ft, b, p) >= 8 + |name|
    ensures var b' := Added(ft, b, p, ino, name, t);
            Tiles(ft, b', p) && Entries(ft, b', p) ==
              Live(ft, b, p) + ([NewEntry(ft, name, ino, t)] + Entries(ft, b, p + RecLen(b, p)))
  {
    hide Live, PutEntry, Tiles, Entries, GoodRec, RecLen, RecIno, NameLen, UsedLen, Added;
    TilesAt(ft, b, p);
    SplitSizes(ft, b, p);
    AddedSplit(ft, b, p, ino, name, t);
    var rec, used := RecLen(b, p), UsedLen(ft, b, p);
    var b1 := PutU16(b, p + 4, used);
    var b' := PutEntry(ft, b1, p + used, ino, rec - used, name, t);
    Resized(ft, b, p, used);
    PutEntryIs(ft, b1, p + used, ino, rec - used, name, t);
    SameRec(ft, b1, b', p);
    SameTail(ft, b, b', p + rec);
    TilesOne(ft, b', p + used);
    TilesOne(ft, b', p);
  }

  lemma SplitSizes(ft: bool, b: Bytes, p: nat)
    requires GoodRec(ft, b, p) && RecIno(b, p) != 0
    ensures 12 <= UsedLen(ft, b, p) && 8 + NameLen(ft, b, p) <= UsedLen(ft, b, p)
    ensures RecLen(b, p) % 4 == 0 && UsedLen(ft, b, p) % 4 == 0 && RecLen(b, p) < 0x1_0000
    ensures (RecLen(b, p) - UsedLen(ft, b, p)) % 4 == 0
  {
    assert 12 <= UsedLen(ft, b, p) && UsedLen(ft, b, p) % 4 == 0 && RecLen(b, p) % 4 == 0;
    hide *;
    LessAligned(RecLen(b, p), UsedLen(ft, b, p));
  }

  lemma LessAligned(a: nat, b: nat)
    requires a % 4 == 0 && b % 4 == 0
    ensures (a - b) % 4 == 0
  {}

  lemma AddedSplit(ft: bool, b: Bytes, p: nat, ino: nat, name: Bytes, t: nat)
    requires GoodRec(ft, b, p) && |name| <= 255 && t < 256 && RecIno(b, p) != 0
    requires RecLen(b, p) - UsedLen(ft, b, p) >= 8 + |name|
    ensures var rec, used := RecLen(b, p), UsedLen(ft, b, p);
            Added(ft, b, p, ino, name, t) == PutEntry(ft, PutU16(b, p + 4, used), p + used, ino, rec - used, name, t)
  {}

  lemma AddAt(ft: bool, b: Bytes, p: nat, ino: nat, name: Bytes, t: nat)
    requires |b| < 0x1_0000 && Tiles(ft, b, p) && p < |b|
    requires 1 <= |name| <= 255 && t < 256 && 0 < ino < 0x1_0000_0000
    requires RecLen(b, p) - UsedLen(ft, b, p) >= 8 + |name|
    ensures var b' := Added(ft, b, p, ino, name, t);
            && SameBytes(b, b', 0, p) && Tiles(ft, b', p)
            && Inserted(Entries(ft, b, p), Entries(ft, b', p), NewEntry(ft, name, ino, t))
  {
    hide Live, Tiles, Entries, Inserted, PutEntry, UsedLen, RecLen, NameLen, GoodRec, SameBytes;
    var e := NewEntry(ft, name, ino, t);
    TilesAt(ft, b, p);
    AddedBefore(ft, b, p, ino, name, t);
    TilesOne(ft, b, p);
    var pre, es := Live(ft, b, p), Entries(ft, b, p + RecLen(b, p));
    if RecIno(b, p) == 0 {
      NoLive(ft, b, p);
      RoomIs(ft, b, p);
      ReuseSlot(ft, b, p, ino, name, t);
      assert [] + es == es;
      InsertedFront(es, e);
    } else {
      SplitSlot(ft, b, p, ino, name, t);
      InsertedFront(es, e);
      InsertedAfter(pre, es, [e] + es, e);
    }
  }

  lemma InsertedFront(es: seq<Entry>, e: Entry)
    ensures Inserted(es, [e] + es, e)
  {
    assert [e] + es == es[..0] + [e] + es[0..];
  }

  lemma RoomIs(ft: bool, b: Bytes, p: nat)
    requires GoodRec(ft, b, p) && RecIno(b, p) == 0
    ensures UsedLen(ft, b, p) == 0
  {}

  lemma AddedBefore(ft: bool, b: Bytes, p: nat, ino: nat, name: Bytes, t: nat)
    requires |name| <= 255 && t < 256 && GoodRec(ft, b, p)
    requires RecLen(b, p) - UsedLen(ft, b, p) >= 8 + |name|
    ensures SameBytes(b, Added(ft, b, p, ino, name, t), 0, p)
  {
    hide UsedLen, RecLen, RecIno, NameLen;
  }

  lemma {:induction false} ChainNext(ft: bool, b: Bytes, x: nat, o: nat, q: nat)
    requires OnChain(ft, b, x, o) && OnChain(ft, b, x, q) && o < q
    ensures GoodRec(ft, b, o) && o + RecLen(b, o) <= q
    decreases |b| - x
  {
    hide GoodRec, RecLen;
    ChainLow(ft, b, x, o);
    ChainLow(ft, b, x, q);
    if x == o { ChainLow(ft, b, o + RecLen(b, o), q); } else { ChainNext(ft, b, x + RecLen(b, x), o, q); }
  }

  lemma ChainLow(ft: bool, b: Bytes, x: nat, o: nat)
    requires OnChain(ft, b, x, o)
    ensures x <= o
    ensures o != x ==> GoodRec(ft, b, x) && RecLen(b, x) >= 8 && x + RecLen(b, x) <= |b| && OnChain(ft, b, x + RecLen(b, x), o)
  {}

  ghost predicate Room(ft: bool, b: Bytes, p: nat, need: nat) {
    GoodRec(ft, b, p) && RecLen(b, p) - UsedLen(ft, b, p) >= need
  }

  /** Some record of the block has that many bytes to spare. */
  ghost predicate HasRoom(ft: bool, b: Bytes, need: nat) {
    exists q :: 0 <= q < |b| && OnChain(ft, b, 0, q) && Room(ft, b, q, need)
  }

  /** The scan of add-entry! in one block: the first record with room. */
  method FindSlot(ft: bool, b: Bytes, need: nat) returns (found: bool, p: nat)
    requires Tiles(ft, b, 0)
    ensures found <==> HasRoom(ft, b, need)
    ensures found ==> p < |b| && OnChain(ft, b, 0, p) && Room(ft, b, p, need)
    ensures forall q :: 0 <= q < |b| && OnChain(ft, b, 0, q) && (found ==> q < p) ==> !Room(ft, b, q, need)
  {
    hide GoodRec, RecLen, UsedLen, RecIno, NameLen;
    p := 0;
    found := false;
    while p < |b| && !found
      invariant p <= |b| && OnChain(ft, b, 0, p) && Tiles(ft, b, p)
      invariant found ==> p < |b| && Room(ft, b, p, need)
      invariant forall q :: 0 <= q < p && OnChain(ft, b, 0, q) ==> !Room(ft, b, q, need)
      decreases |b| - p, !found
    {
      TilesAt(ft, b, p);
      if RecLen(b, p) - UsedLen(ft, b, p) >= need {
        found := true;
      } else {
        forall q | p < q < p + RecLen(b, p) ensures !OnChain(ft, b, 0, q) {
          if OnChain(ft, b, 0, q) { ChainNext(ft, b, 0, p, q); }
        }
        ChainStep(ft, b, 0, p);
        p := p + RecLen(b, p);
      }
    }
  }

  /** Adding in a block's slot inserts exactly the new entry. */
  lemma AddInBlock(ft: bool, b: Bytes, p: nat, ino: nat, name: Bytes, t: nat)
    requires |b| < 0x1_0000 && Tiles(ft, b, 0) && OnChain(ft, b, 0, p) && p < |b|
    requires 1 <= |name| <= 255 && t < 256 && 0 < ino < 0x1_0000_0000
    requires Room(ft, b, p, 8 + |name|)
    ensures var b' := Added(ft, b, p, ino, name, t);
            Tiles(ft, b', 0) && Inserted(Entries(ft, b, 0), Entries(ft, b', 0), NewEntry(ft, name, ino, t))
  {
    hide GoodRec, RecLen, UsedLen, RecIno, NameLen, Added, Tiles, Entries, OnChain, Before, Inserted, SameBytes;
    ChainTiles(ft, b, 0, p);
    TilesAt(ft, b, p);
    AddAt(ft, b, p, ino, name, t);
    var b' := Added(ft, b, p, ino, name, t);
    Upstream(ft, b, b', 0, p);
    InsertedAfter(Before(ft, b, 0, p), Entries(ft, b, p), Entries(ft, b', p), NewEntry(ft, name, ino, t));
  }

  // ---- finding a name, removing it, repointing it ----

  ghost predicate Named(e: Entry, name: Bytes) { e.name == name }

  lemma {:induction false} BeforeStep(ft: bool, b: Bytes, o: nat, p: nat)
    requires OnChain(ft, b, o, p) && GoodRec(ft, b, p)
    ensures OnChain(ft, b, o, p + RecLen(b, p))
    ensures Before(ft, b, o, p + RecLen(b, p)) == Before(ft, b, o, p) + Live(ft, b, p)
    decreases |b| - o
  {
    hide RecLen, Live, RecIno, NameLen;
    ChainStep(ft, b, o, p);
    ChainLow(ft, b, o, p);
    if o != p {
      BeforeStep(ft, b, o + RecLen(b, o), p);
    } else {
      RecPositive(ft, b, p);
    }
  }

  lemma RecPositive(ft: bool, b: Bytes, p: nat)
    requires GoodRec(ft, b, p)
    ensures RecLen(b, p) >= 8 && p + RecLen(b, p) <= |b|
  {}

  predicate RecNamed(ft: bool, b: Bytes, p: nat, name: Bytes)
    requires GoodRec(ft, b, p)
  {
    RecIno(b, p) != 0 && b[p + 8..p + 8 + NameLen(ft, b, p)] == name
  }

  lemma RecNamedIs(ft: bool, b: Bytes, p: nat, name: Bytes)
    requires GoodRec(ft, b, p)
    ensures RecNamed(ft, b, p, name) ==> Live(ft, b, p) == [RecEntry(ft, b, p)] && RecEntry(ft, b, p).name == name
    ensures !RecNamed(ft, b, p, name) ==> forall e :: e in Live(ft, b, p) ==> !Named(e, name)
    ensures RecNamed(ft, b, p, name) ==> RecEntry(ft, b, p).ino == RecIno(b, p) != 0
  {}

  /** prev is the record just before p; p is the first record if `first`. */
  ghost predicate Precedes(ft: bool, b: Bytes, first: bool, prev: nat, p: nat) {
    if first then p == 0 else OnChain(ft, b, 0, prev) && GoodRec(ft, b, prev) && p == prev + RecLen(b, prev)
  }

  /** The first record with this name, and the record just before it (first:
      there is none). */
  method FindName(ft: bool, b: Bytes, name: Bytes) returns (found: bool, p: nat, first: bool, prev: nat)
    requires Tiles(ft, b, 0)
    ensures found ==>
      && p < |b| && OnChain(ft, b, 0, p) && GoodRec(ft, b, p) && RecNamed(ft, b, p, name)
      && (forall e :: e in Before(ft, b, 0, p) ==> !Named(e, name))
      && Precedes(ft, b, first, prev, p)
    ensures !found ==> forall e :: e in Entries(ft, b, 0) ==> !Named(e, name)
  {
    hide GoodRec, RecLen, RecIno, NameLen, Live, RecNamed, RecEntry;
    p, prev := 0, 0;
    found, first := false, true;
    while p < |b| && !found
      invariant p <= |b| && OnChain(ft, b, 0, p) && Tiles(ft, b, p)
      invariant found ==> p < |b| && GoodRec(ft, b, p) && RecNamed(ft, b, p, name)
      invariant forall e :: e in Before(ft, b, 0, p) ==> !Named(e, name)
      invariant Precedes(ft, b, first, prev, p)
      decreases |b| - p, !found
    {
      TilesAt(ft, b, p);
      RecNamedIs(ft, b, p, name);
      if RecNamed(ft, b, p, name) {
        found := true;
      } else {
        BeforeStep(ft, b, 0, p);
        prev, first := p, false;
        p := p + RecLen(b, p);
      }
    }
    if !found { Upstream(ft, b, b, 0, p); }
  }

  /** The block after remove-entry!: the record before takes the space, or the
      first record is marked deleted. */
  function Removed(ft: bool, b: Bytes, p: nat, first: bool, prev: nat): (r: Bytes)
    requires p + 8 <= |b| && (!first ==> prev + 8 <= |b|)
    ensures |r| == |b|
  {
    if first then PutU32(b, 0, 0) else PutU16(b, prev + 4, RecLen(b, prev) + RecLen(b, p))
  }

  lemma Erased(ft: bool, b: Bytes, p: nat)
    requires GoodRec(ft, b, p)
    ensures var b' := PutU32(b, p, 0);
            GoodRec(ft, b', p) && RecLen(b', p) == RecLen(b, p) && Live(ft, b', p) == []
  {
    var b' := PutU32(b, p, 0);
    assert U16(b', p + 4) == U16(b, p + 4);
  }

  lemma RemoveAt(ft: bool, b: Bytes, p: nat, prev: nat)
    requires |b| < 0x1_0000 && Tiles(ft, b, prev) && p < |b|
    requires GoodRec(ft, b, prev) && p == prev + RecLen(b, prev)
    ensures GoodRec(ft, b, p) && Tiles(ft, b, p + RecLen(b, p))
    ensures var b' := PutU16(b, prev + 4, RecLen(b, prev) + RecLen(b, p));
            && SameBytes(b, b', 0, prev) && Tiles(ft, b', prev)
            && Entries(ft, b', prev) == Live(ft, b, prev) + Entries(ft, b, p + RecLen(b, p))
  {
    hide RecLen, RecIno, NameLen, Live;
    TilesAt(ft, b, prev);
    TilesAt(ft, b, p);
    RecSizes(ft, b, prev);
    RecSizes(ft, b, p);
    var rec := RecLen(b, prev) + RecLen(b, p);
    var b' := PutU16(b, prev + 4, rec);
    Resized(ft, b, prev, rec);
    SameTail(ft, b, b', prev + rec);
    TilesOne(ft, b', prev);
  }

  lemma RecSizes(ft: bool, b: Bytes, p: nat)
    requires GoodRec(ft, b, p)
    ensures RecLen(b, p) % 4 == 0 && RecIno(b, p) != 0 ==> 8 + NameLen(ft, b, p) <= RecLen(b, p)
    ensures RecLen(b, p) % 4 == 0
  {}

  /** Removing takes out exactly the named entry. */
  lemma RemoveInBlock(ft: bool, b: Bytes, p: nat, first: bool, prev: nat, name: Bytes)
    requires |b| < 0x1_0000 && Tiles(ft, b, 0) && OnChain(ft, b, 0, p) && p < |b|
    requires GoodRec(ft, b, p) && RecNamed(ft, b, p, name)
    requires Precedes(ft, b, first, prev, p)
    ensures Tiles(ft, b, p + RecLen(b, p)) && (first || prev + 8 <= |b|)
    ensures var b' := Removed(ft, b, p, first, prev);
            var pre, post := Before(ft, b, 0, p), Entries(ft, b, p + RecLen(b, p));
            && Tiles(ft, b', 0)
            && Entries(ft, b, 0) == pre + [RecEntry(ft, b, p)] + post
            && Entries(ft, b', 0) == pre + post
  {
    hide GoodRec, RecLen, RecIno, NameLen, Live, RecNamed, RecEntry, Tiles, Entries, OnChain, SameBytes, Before;
    ChainTiles(ft, b, 0, p);
    TilesAt(ft, b, p);
    TilesOne(ft, b, p);
    RecNamedIs(ft, b, p, name);
    SameSelf(b, p);
    Upstream(ft, b, b, 0, p);
    var post := Entries(ft, b, p + RecLen(b, p));
    assert Before(ft, b, 0, p) + ([RecEntry(ft, b, p)] + post) == Before(ft, b, 0, p) + [RecEntry(ft, b, p)] + post;
    if first {
      var b' := PutU32(b, 0, 0);
      Erased(ft, b, 0);
      SameAfter(b, b', RecLen(b, 0));
      SameTail(ft, b, b', RecLen(b, 0));
      TilesOne(ft, b', 0);
      NothingBefore(ft, b, 0);
    } else {
      var b' := Removed(ft, b, p, first, prev);
      ChainTiles(ft, b, 0, prev);
      RemoveAt(ft, b, p, prev);
      Upstream(ft, b, b', 0, prev);
      BeforeStep(ft, b, 0, prev);
      assert Before(ft, b, 0, prev) + (Live(ft, b, prev) + post) == Before(ft, b, 0, prev) + Live(ft, b, prev) + post;
    }
  }

  lemma {:induction false} SameChain(ft: bool, b: Bytes, b': Bytes, o: nat, p: nat)
    requires OnChain(ft, b, o, p) && SameBytes(b, b', 0, p)
    ensures OnChain(ft, b', o, p)
    decreases |b| - o
  {
    hide GoodRec, RecLen;
    ChainLow(ft, b, o, p);
    if o != p {
      ChainLow(ft, b, o + RecLen(b, o), p);
      SameRec(ft, b, b', o);
      SameChain(ft, b, b', o + RecLen(b, o), p);
    }
  }

  /** The space of a removed record takes the same name again. */
  lemma RemovedRoom(ft: bool, b: Bytes, p: nat, first: bool, prev: nat, name: Bytes)
    requires |b| < 0x1_0000 && Tiles(ft, b, 0) && OnChain(ft, b, 0, p) && p < |b|
    requires GoodRec(ft, b, p) && RecNamed(ft, b, p, name)
    requires Precedes(ft, b, first, prev, p)
    ensures first || prev + 8 <= |b|
    ensures HasRoom(ft, Removed(ft, b, p, first, prev), Align4(8 + |name|))
  {
    hide GoodRec, RecLen, RecIno, NameLen, Live, RecNamed, RecEntry, Tiles, OnChain, SameBytes, UsedLen;
    var need := Align4(8 + |name|);
    TakesName(ft, b, p, name);
    if first {
      Erased(ft, b, 0);
      ErasedRoom(ft, b, 0);
      NothingBefore(ft, PutU32(b, 0, 0), 0);
      assert Room(ft, Removed(ft, b, p, first, prev), 0, need);
    } else {
      ChainTiles(ft, b, 0, prev);
      RecPositive(ft, b, p);
      RecPositive(ft, b, prev);
      RemoveAt(ft, b, p, prev);
      MergedRoom(ft, b, p, prev);
      SameChain(ft, b, Removed(ft, b, p, first, prev), 0, prev);
      assert Room(ft, Removed(ft, b, p, first, prev), prev, need);
    }
  }

  lemma TakesName(ft: bool, b: Bytes, p: nat, name: Bytes)
    requires GoodRec(ft, b, p) && RecNamed(ft, b, p, name)
    ensures Align4(8 + |name|) <= RecLen(b, p)
  {
    hide RecLen, RecIno, NameLen;
    assert |b[p + 8..p + 8 + NameLen(ft, b, p)]| == NameLen(ft, b, p);
    AlignedIn(8 + |name|, RecLen(b, p));
  }

  lemma AlignedIn(n: nat, r: nat)
    requires n <= r && r % 4 == 0
    ensures Align4(n) <= r
  {}

  lemma ErasedRoom(ft: bool, b: Bytes, p: nat)
    requires GoodRec(ft, b, p) && GoodRec(ft, PutU32(b, p, 0), p)
    ensures UsedLen(ft, PutU32(b, p, 0), p) == 0
  {}

  lemma MergedRoom(ft: bool, b: Bytes, p: nat, prev: nat)
    requires |b| < 0x1_0000 && GoodRec(ft, b, prev) && p == prev + RecLen(b, prev) && GoodRec(ft, b, p)
    ensures var b' := PutU16(b, prev + 4, RecLen(b, prev) + RecLen(b, p));
            GoodRec(ft, b', prev) && RecLen(b', prev) - UsedLen(ft, b', prev) >= RecLen(b, p)
  {
    hide RecLen, RecIno, NameLen, Live;
    RecSizes(ft, b, prev);
    RecSizes(ft, b, p);
    Resized(ft, b, prev, RecLen(b, prev) + RecLen(b, p));
  }

  lemma SameSelf(b: Bytes, p: nat)
    ensures SameBytes(b, b, 0, p)
  {}

  lemma SameAfter(b: Bytes, b': Bytes, p: nat)
    requires |b'| == |b| && 4 <= p && forall i :: 4 <= i < |b| ==> b'[i] == b[i]
    ensures SameBytes(b, b', p, |b|)
  {}

  lemma NothingBefore(ft: bool, b: Bytes, p: nat)
    ensures OnChain(ft, b, p, p) && Before(ft, b, p, p) == []
  {}

  /** set-dotdot! on the block: the named entry gets another inode number. */
  lemma RepointInBlock(ft: bool, b: Bytes, p: nat, name: Bytes, ino: nat)
    requires Tiles(ft, b, 0) && OnChain(ft, b, 0, p) && p < |b|
    requires GoodRec(ft, b, p) && RecNamed(ft, b, p, name) && 0 < ino < 0x1_0000_0000
    ensures Tiles(ft, b, p + RecLen(b, p))
    ensures var b' := PutU32(b, p, ino);
            var pre, post := Before(ft, b, 0, p), Entries(ft, b, p + RecLen(b, p));
            && Tiles(ft, b', 0)
            && Entries(ft, b, 0) == pre + [RecEntry(ft, b, p)] + post
            && Entries(ft, b', 0) == pre + [RecEntry(ft, b, p).(ino := ino)] + post
  {
    hide GoodRec, RecLen, RecIno, NameLen, Live, RecNamed, RecEntry, Tiles, Entries, OnChain, SameBytes, Before;
    ChainTiles(ft, b, 0, p);
    TilesAt(ft, b, p);
    TilesOne(ft, b, p);
    RecNamedIs(ft, b, p, name);
    var b' := PutU32(b, p, ino);
    Repointed(ft, b, p, name, ino);
    SameTail(ft, b, b', p + RecLen(b, p));
    TilesOne(ft, b', p);
    Upstream(ft, b, b', 0, p);
    var pre, post := Before(ft, b, 0, p), Entries(ft, b, p + RecLen(b, p));
    assert pre + ([RecEntry(ft, b, p)] + post) == pre + [RecEntry(ft, b, p)] + post;
    assert pre + ([RecEntry(ft, b, p).(ino := ino)] + post) == pre + [RecEntry(ft, b, p).(ino := ino)] + post;
  }

  lemma Repointed(ft: bool, b: Bytes, p: nat, name: Bytes, ino: nat)
    requires GoodRec(ft, b, p) && RecNamed(ft, b, p, name) && 0 < ino < 0x1_0000_0000
    ensures var b' := PutU32(b, p, ino);
            && GoodRec(ft, b', p) && RecLen(b', p) == RecLen(b, p)
            && Live(ft, b', p) == [RecEntry(ft, b, p).(ino := ino)]
            && SameBytes(b, b', 0, p) && SameBytes(b, b', p + RecLen(b, p), |b|)
  {
    var b' := PutU32(b, p, ino);
    assert U16(b', p + 4) == U16(b, p + 4) && U16(b', p + 6) == U16(b, p + 6);
    var n := NameLen(ft, b, p);
    assert b'[p + 8..p + 8 + n] == b[p + 8..p + 8 + n];
  }
}
