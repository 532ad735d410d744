/** Runs of operations: what holds after any number of them. */
module Ext2Run {
  import opened Bytes
  import opened Ext2Disk
  import opened Ext2Store
  import opened Ext2Books
  import opened Ext2Views
  import opened Ext2Create
  import opened Ext2Make
  import opened Ext2Ops
  import opened Ext2Write
  import opened Ext2Mv
  import opened Ext2Move
  import opened Ext2Tree

  datatype Op =
    | OpWrite(path: Bytes, buf: Bytes)
    | OpMkdir(path: Bytes)
    | OpRm(path: Bytes)
    | OpRmdir(path: Bytes)
    | OpMv(path: Bytes, to: Bytes)
    | OpSymlink(path: Bytes, target: Bytes)

  /** What each operation asks of its arguments; a caller can check it. */
  predicate Permitted(geo: Geometry, d: Disk, op: Op)
    requires geo.Valid() && Fits(geo, d)
  {
    && Nameable(geo, d, op.path)
    && match op
       case OpWrite(path, buf) => Roomy(geo, d, path) && |buf| < 0x1_0000_0000
       case OpMkdir(path) => Roomy(geo, d, path)
       case OpRm(_) => true
       case OpRmdir(_) => true
       case OpMv(path, to) => Nameable(geo, d, to) && Roomy(geo, d, to) && NotIntoSelf(geo, d, path, to)
       case OpSymlink(path, target) => Roomy(geo, d, path) && |target| <= geo.bs
  }

  /** What a successful operation does; i is the inode it created or wrote. */
  ghost predicate Effect(geo: Geometry, d: Disk, d': Disk, op: Op, i: nat)
    requires geo.Valid() && Consistent(geo, d)
  {
    ConsistentIs(geo, d);
    match op
    case OpWrite(path, buf) => FileWritten(geo, d, d', path, buf, i)
    case OpMkdir(path) => DirMade(geo, d, d', path, i)
    case OpRm(path) => FileRemoved(geo, d, d', path)
    case OpRmdir(path) => DirRemoved(geo, d, d', path)
    case OpMv(path, to) => MovedTo(geo, d, d', path, to)
    case OpSymlink(path, target) => LinkMade(geo, d, d', path, target, i)
  }

  lemma EffectConsistent(geo: Geometry, d: Disk, d': Disk, op: Op, i: nat)
    requires geo.Valid() && Consistent(geo, d) && Fits(geo, d) && Permitted(geo, d, op) && Effect(geo, d, d', op, i)
    ensures Consistent(geo, d') && Fits(geo, d')
  {
    hide Consistent, Fits, NamespaceOf, WriteCheck, CreateCheck, RmCheck, RmdirCheck, MvCheck, TextsKept, HasText, AddFile, AddDir, RemoveFile,
         RemoveDir, MovedTo, NotIntoSelf, Nameable, Roomy, TreeWithFile;
    if op.OpMv? { MovedExact(geo, d, d', op.path, op.to); }
    assert Consistent(geo, d');
    ConsistentIs(geo, d');
  }

  /** What the operation comes to: done, refused, or out of space. */
  ghost function OpOutcome(geo: Geometry, d: Disk, op: Op): Result<()>
    requires geo.Valid() && Fits(geo, d)
  {
    match op
    case OpWrite(path, buf) => Bare(WriteOutcome(geo, d, path, |buf|))
    case OpMkdir(path) => Bare(CreateOutcome(geo, d, path, 1))
    case OpRm(path) => Bare(RmCheck(geo, d, path))
    case OpRmdir(path) => Bare(RmdirCheck(geo, d, path))
    case OpMv(path, to) => MvOutcome(geo, d, path, to)
    case OpSymlink(path, target) => Bare(CreateOutcome(geo, d, path, TargetBlocks(target)))
  }

  /** The inode that the operation may leave damaged when space runs out. */
  function Hit(geo: Geometry, d: Disk, op: Op): nat
    requires geo.Valid() && Fits(geo, d)
  {
    match op
    case OpWrite(path, _) => var c := WriteCheck(geo, d, path); if c.Ok? then WriteHit(c.value) else 0
    case OpMkdir(path) => var c := CreateCheck(geo, d, path); if c.Ok? then c.value.0 else 0
    case OpSymlink(path, _) => var c := CreateCheck(geo, d, path); if c.Ok? then c.value.0 else 0
    case OpMv(path, to) => var c := MvCheck(geo, d, path, to); if c.Ok? then c.value.p2 else 0
    case _ => 0
  }

  method Perform(fs: Volume, op: Op) returns (r: Result<()>, ghost i: nat)
    requires fs.geo.Valid() && Consistent(fs.geo, fs.disk) && Fits(fs.geo, fs.disk) && Permitted(fs.geo, fs.disk, op)
    modifies fs
    ensures r == OpOutcome(fs.geo, old(fs.disk), op)
    ensures r.Ok? ==> Effect(fs.geo, old(fs.disk), fs.disk, op, i)
    ensures r.Err? && !OutOfSpace(r.reason) ==> fs.disk == old(fs.disk)
    ensures r.Err? ==> Spared(fs.geo, old(fs.disk), fs.disk, Hit(fs.geo, old(fs.disk), op))
  {
    hide Consistent, Fits, Nameable, Roomy, NotIntoSelf, FileWritten, DirMade, FileRemoved, DirRemoved, MovedTo, LinkMade, WriteCheck, CreateCheck,
         RmCheck, RmdirCheck, MvCheck, Geometry.Valid, WriteOutcome, CreateOutcome, MvOutcome, Takes, Spared, WriteHit;
    ghost var d := fs.disk;
    i := 0;
    match op {
      case OpWrite(path, buf) => r, i := WriteFile(fs, path, buf);
      case OpMkdir(path) => r, i := Mkdir(fs, path);
      case OpRm(path) => r := Rm(fs, path);
      case OpRmdir(path) => r := Rmdir(fs, path);
      case OpMv(path, to) => r := Mv(fs, path, to);
      case OpSymlink(path, target) => r, i := MakeSymlink(fs, target, path);
    }
    OnlyUnit(r);
    if fs.disk == d { SparedSame(fs.geo, d, Hit(fs.geo, d, op)); }
  }

  lemma SparedSame(geo: Geometry, d: Disk, hit: nat)
    requires geo.Valid() && Consistent(geo, d)
    ensures Spared(geo, d, d, hit)
  {
    hide Consistent, LiveInodes, Unharmed;
    ConsistentIs(geo, d);
    NotMade(geo, d, LiveInodes(geo, d));
    UnharmedFewer(geo, d, d, LiveInodes(geo, d), LiveInodes(geo, d) - {hit});
  }

  /** Disk k of the run, and what step k did. */
  datatype Step = Step(before: Disk, op: Op, made: nat, after: Disk)

  /** The operation was permitted; it had its effect, or was refused and changed nothing, as
      its outcome on the disk before it says. */
  ghost predicate GoodStep(geo: Geometry, s: Step)
    requires geo.Valid()
  {
    && Consistent(geo, s.before) && Consistent(geo, s.after)
    && (ConsistentIs(geo, s.before);
        Permitted(geo, s.before, s.op))
    && (ConsistentIs(geo, s.before);
        match OpOutcome(geo, s.before, s.op)
        case Ok(_) => Effect(geo, s.before, s.after, s.op, s.made)
        case Err(e) => !OutOfSpace(e) && s.after == s.before)
  }

  /** Running out of space is all that can stop the permitted operation on this disk. */
  ghost predicate Exhausted(geo: Geometry, d: Disk, op: Op)
    requires geo.Valid() && Consistent(geo, d)
  {
    ConsistentIs(geo, d);
    Permitted(geo, d, op) && OpOutcome(geo, d, op).Err? && OutOfSpace(OpOutcome(geo, d, op).reason)
  }

  /** Each step starts where the one before it ended. */
  ghost predicate Chained(steps: seq<Step>, first: Disk, last: Disk) {
    if steps == [] then first == last
    else steps[0].before == first && Chained(steps[1..], steps[0].after, last)
  }

  lemma {:induction false} ChainedSnoc(steps: seq<Step>, first: Disk, mid: Disk, s: Step)
    requires Chained(steps, first, mid) && s.before == mid
    ensures Chained(steps + [s], first, s.after)
  {
    if steps == [] {
      assert [s][1..] == [];
      assert steps + [s] == [s];
    } else {
      assert (steps + [s])[1..] == steps[1..] + [s];
      ChainedSnoc(steps[1..], steps[0].after, mid, s);
    }
  }

  /** No inode but the one that the operation was working on is harmed. */
  ghost predicate SparedBut(geo: Geometry, d: Disk, d': Disk, op: Op)
    requires geo.Valid() && Consistent(geo, d)
  {
    ConsistentIs(geo, d);
    Spared(geo, d, d', Hit(geo, d, op))
  }

  ghost predicate Forbidden(geo: Geometry, d: Disk, op: Op)
    requires geo.Valid() && Consistent(geo, d)
  {
    ConsistentIs(geo, d);
    !Permitted(geo, d, op)
  }

  /** One operation, if it is permitted. */
  method Attempt(fs: Volume, op: Op) returns (allowed: bool, full: bool, ghost s: Step)
    requires fs.geo.Valid() && Consistent(fs.geo, fs.disk)
    modifies fs
    ensures !allowed ==> fs.disk == old(fs.disk) && Forbidden(fs.geo, fs.disk, op)
    ensures allowed && full ==> Exhausted(fs.geo, old(fs.disk), op) && SparedBut(fs.geo, old(fs.disk), fs.disk, op)
    ensures allowed && !full ==> s.before == old(fs.disk) && s.after == fs.disk && s.op == op && GoodStep(fs.geo, s)
  {
    hide Consistent, Fits, Permitted, Effect, Geometry.Valid, OpOutcome, Spared, Hit;
    ghost var d := fs.disk;
    s := Step(d, op, 0, d);
    ConsistentIs(fs.geo, d);
    if !Permitted(fs.geo, fs.disk, op) { return false, false, s; }
    var r, i := Perform(fs, op);
    s := Step(d, op, i, fs.disk);
    if r.Ok? { EffectConsistent(fs.geo, d, fs.disk, op, i); }
    return true, r.Err? && OutOfSpace(r.reason), s;
  }

  /** Perform the operations in order, until one is not permitted or runs out of space.
      Every disk up to there is consistent; `last` is the last of them.  Out of space,
      at most one inode of it is harmed. */
  method Run(fs: Volume, ops: seq<Op>) returns (done: nat, full: bool, ghost steps: seq<Step>, ghost last: Disk)
    requires fs.geo.Valid() && Consistent(fs.geo, fs.disk)
    modifies fs
    ensures done <= |ops| && |steps| == done
    ensures forall k :: 0 <= k < done ==> steps[k].op == ops[k] && GoodStep(fs.geo, steps[k])
    ensures Consistent(fs.geo, last) && Chained(steps, old(fs.disk), last)
    ensures !full ==> fs.disk == last && (done < |ops| ==> Forbidden(fs.geo, last, ops[done]))
    ensures full ==> done < |ops| && Exhausted(fs.geo, last, ops[done]) && SparedBut(fs.geo, last, fs.disk, ops[done])
  {
    hide Consistent, Geometry.Valid, GoodStep, Chained, Exhausted, Forbidden, SparedBut;
    var geo := fs.geo;
    ghost var first := fs.disk;
    done, full, steps, last := 0, false, [], fs.disk;
    ChainedNone(first);
    while done < |ops|
      invariant 0 <= done <= |ops| && |steps| == done && !full && last == fs.disk
      invariant forall k :: 0 <= k < done ==> steps[k].op == ops[k] && GoodStep(geo, steps[k])
      invariant Consistent(geo, last) && Chained(steps, first, last)
    {
      var allowed, out, s := Attempt(fs, ops[done]);
      if !allowed { return; }
      if out {
        full := true;
        return;
      }
      GoodEnd(geo, s);
      ChainedSnoc(steps, first, last, s);
      steps := steps + [s];
      last := fs.disk;
      done := done + 1;
    }
  }

  lemma ChainedNone(d: Disk)
    ensures Chained([], d, d)
  {}

  lemma GoodEnd(geo: Geometry, s: Step)
    requires geo.Valid() && GoodStep(geo, s)
    ensures Consistent(geo, s.before) && Consistent(geo, s.after)
  {
    hide Consistent, Effect, OpOutcome;
  }

  // ---- what survives a run ----

  /** Inode i lives on both sides of the step, and the step does not write it. */
  ghost predicate LeftAlone(geo: Geometry, s: Step, i: nat)
    requires geo.Valid() && Consistent(geo, s.before) && Consistent(geo, s.after)
  {
    && i in NamespaceOf(geo, s.before).kind && i in NamespaceOf(geo, s.after).kind
    && (s.op.OpWrite? ==> s.made != i)
  }

  ghost function TextAt(geo: Geometry, d: Disk, i: nat): Result<Bytes>
    requires geo.Valid() && Consistent(geo, d)
  {
    ConsistentIs(geo, d);
    if i <= geo.inodes && i < |d.inode| then TextOf(geo, d, i) else Err(BadInode)
  }

  lemma TextsAgree(geo: Geometry, d: Disk, d': Disk, t': Tree, kept: set<nat>, i: nat)
    requires geo.Valid() && Turned(geo, d, d', t', kept) && i in kept
    ensures Consistent(geo, d) && Consistent(geo, d') && TextAt(geo, d', i) == TextAt(geo, d, i)
  {
    hide Consistent, NamespaceOf, TextOf;
    TextKept(geo, d, d', kept, i);
  }

  lemma TurnedTree(geo: Geometry, d: Disk, d': Disk, t': Tree, kept: set<nat>)
    requires geo.Valid() && Turned(geo, d, d', t', kept)
    ensures Consistent(geo, d) && Consistent(geo, d') && NamespaceOf(geo, d') == t'
  {
    hide Consistent, NamespaceOf, TextsKept;
  }

  lemma MoveKeepsText(geo: Geometry, d: Disk, d': Disk, from_: Bytes, to: Bytes, i: nat)
    requires geo.Valid() && Consistent(geo, d) && Consistent(geo, d') && Fits(geo, d) && MovedTo(geo, d, d', from_, to)
    requires i in NamespaceOf(geo, d).kind && i in NamespaceOf(geo, d').kind && Nameable(geo, d, from_) && Nameable(geo, d, to)
    ensures TextAt(geo, d', i) == TextAt(geo, d, i)
  {
    hide Consistent, NamespaceOf, TextAt, MvCheck, Cleared, Turned, Fits, Nameable, Relaid;
    if d' != d {
      var plan, t := MvCheck(geo, d, from_, to).value, NamespaceOf(geo, d);
      var t1 := Cleared(t, plan);
      MovedTurned(geo, d, d', from_, to);
      TurnedTree(geo, d, d', Relinked(t1, plan.p1, plan.n1, plan.p2, plan.n2), t1.kind.Keys);
      TextsAgree(geo, d, d', Relinked(t1, plan.p1, plan.n1, plan.p2, plan.n2), t1.kind.Keys, i);
    }
  }

  lemma WriteKeepsText(geo: Geometry, d: Disk, d': Disk, path: Bytes, buf: Bytes, made: nat, i: nat)
    requires geo.Valid() && Consistent(geo, d) && Consistent(geo, d') && Fits(geo, d) && FileWritten(geo, d, d', path, buf, made)
    requires i in NamespaceOf(geo, d).kind && i in NamespaceOf(geo, d').kind && i != made
    ensures TextAt(geo, d', i) == TextAt(geo, d, i)
  {
    hide Consistent, NamespaceOf, TextAt, WriteCheck, CreateCheck, RmCheck, RmdirCheck, Turned, Fits, HasText, AddDir, AddFile, RemoveFile,
         RemoveDir, TreeWithFile;
    var t := NamespaceOf(geo, d);
    var (p, nm, found) := WriteCheck(geo, d, path).value;
    TextsAgree(geo, d, d', TreeWithFile(t, p, nm, made), t.kind.Keys - {made}, i);
  }

  lemma MkdirKeepsText(geo: Geometry, d: Disk, d': Disk, path: Bytes, made: nat, i: nat)
    requires geo.Valid() && Consistent(geo, d) && Consistent(geo, d') && Fits(geo, d) && DirMade(geo, d, d', path, made)
    requires i in NamespaceOf(geo, d).kind && i in NamespaceOf(geo, d').kind
    ensures TextAt(geo, d', i) == TextAt(geo, d, i)
  {
    hide Consistent, NamespaceOf, TextAt, WriteCheck, CreateCheck, RmCheck, RmdirCheck, Turned, Fits, HasText, AddDir, AddFile, RemoveFile,
         RemoveDir, TreeWithFile;
    var t := NamespaceOf(geo, d);
    var (p, nm) := CreateCheck(geo, d, path).value;
    TextsAgree(geo, d, d', AddDir(t, p, nm, made), t.kind.Keys, i);
  }

  lemma SymlinkKeepsText(geo: Geometry, d: Disk, d': Disk, path: Bytes, target: Bytes, made: nat, i: nat)
    requires geo.Valid() && Consistent(geo, d) && Consistent(geo, d') && Fits(geo, d) && LinkMade(geo, d, d', path, target, made)
    requires i in NamespaceOf(geo, d).kind && i in NamespaceOf(geo, d').kind
    ensures TextAt(geo, d', i) == TextAt(geo, d, i)
  {
    hide Consistent, NamespaceOf, TextAt, WriteCheck, CreateCheck, RmCheck, RmdirCheck, Turned, Fits, HasText, AddDir, AddFile, RemoveFile,
         RemoveDir, TreeWithFile;
    var t := NamespaceOf(geo, d);
    var (p, nm) := CreateCheck(geo, d, path).value;
    TextsAgree(geo, d, d', AddFile(t, p, nm, made, Symlink), t.kind.Keys, i);
  }

  lemma RmKeepsText(geo: Geometry, d: Disk, d': Disk, path: Bytes, i: nat)
    requires geo.Valid() && Consistent(geo, d) && Consistent(geo, d') && Fits(geo, d) && FileRemoved(geo, d, d', path)
    requires i in NamespaceOf(geo, d).kind && i in NamespaceOf(geo, d').kind
    ensures TextAt(geo, d', i) == TextAt(geo, d, i)
  {
    hide Consistent, NamespaceOf, TextAt, WriteCheck, CreateCheck, RmCheck, RmdirCheck, Turned, Fits, HasText, AddDir, AddFile, RemoveFile,
         RemoveDir, TreeWithFile;
    var t := NamespaceOf(geo, d);
    var (p, nm, gone) := RmCheck(geo, d, path).value;
    TurnedTree(geo, d, d', RemoveFile(t, p, nm), RemoveFile(t, p, nm).kind.Keys);
    TextsAgree(geo, d, d', RemoveFile(t, p, nm), RemoveFile(t, p, nm).kind.Keys, i);
  }

  lemma RmdirKeepsText(geo: Geometry, d: Disk, d': Disk, path: Bytes, i: nat)
    requires geo.Valid() && Consistent(geo, d) && Consistent(geo, d') && Fits(geo, d) && DirRemoved(geo, d, d', path)
    requires i in NamespaceOf(geo, d).kind && i in NamespaceOf(geo, d').kind
    ensures TextAt(geo, d', i) == TextAt(geo, d, i)
  {
    hide Consistent, NamespaceOf, TextAt, WriteCheck, CreateCheck, RmCheck, RmdirCheck, Turned, Fits, HasText, AddDir, AddFile, RemoveFile,
         RemoveDir, TreeWithFile;
    var t := NamespaceOf(geo, d);
    var (p, nm, gone) := RmdirCheck(geo, d, path).value;
    TurnedTree(geo, d, d', RemoveDir(t, p, nm), RemoveDir(t, p, nm).kind.Keys);
    TextsAgree(geo, d, d', RemoveDir(t, p, nm), RemoveDir(t, p, nm).kind.Keys, i);
  }

  lemma FitsNow(geo: Geometry, d: Disk)
    requires geo.Valid() && Consistent(geo, d)
    ensures Fits(geo, d)
  {
    hide Consistent, LiveInodes;
    ConsistentIs(geo, d);
  }

  lemma GoodIs(geo: Geometry, s: Step)
    requires geo.Valid() && GoodStep(geo, s)
    ensures Consistent(geo, s.before) && (s.after == s.before || Effect(geo, s.before, s.after, s.op, s.made))
    ensures Fits(geo, s.before) && Permitted(geo, s.before, s.op)
  {
    hide Consistent, Effect, OpOutcome, Permitted, Fits;
    FitsNow(geo, s.before);
  }

  /** A step changes the text of no other inode. */
  lemma StepKeepsText(geo: Geometry, s: Step, i: nat)
    requires geo.Valid() && GoodStep(geo, s) && Consistent(geo, s.before) && Consistent(geo, s.after) && LeftAlone(geo, s, i)
    ensures TextAt(geo, s.after, i) == TextAt(geo, s.before, i)
  {
    hide Consistent, NamespaceOf, TextAt, FileWritten, DirMade, FileRemoved, DirRemoved, MovedTo, LinkMade, Fits, Geometry.Valid, GoodStep, Nameable, Roomy, NotIntoSelf;
    var d, d' := s.before, s.after;
    FitsNow(geo, d);
    GoodIs(geo, s);
    if d' != d {
      match s.op
      case OpWrite(path, buf) => WriteKeepsText(geo, d, d', path, buf, s.made, i);
      case OpMkdir(path) => MkdirKeepsText(geo, d, d', path, s.made, i);
      case OpSymlink(path, target) => SymlinkKeepsText(geo, d, d', path, target, s.made, i);
      case OpRm(path) => RmKeepsText(geo, d, d', path, i);
      case OpRmdir(path) => RmdirKeepsText(geo, d, d', path, i);
      case OpMv(path, to) => MoveKeepsText(geo, d, d', path, to, i);
    }
  }

  /** Over a whole run: the contents of an inode that stays live and that no
      write-file! of the run targets are the same at the end. */
  lemma {:induction false} RunKeepsText(geo: Geometry, steps: seq<Step>, first: Disk, last: Disk, i: nat)
    requires geo.Valid() && Consistent(geo, first) && Chained(steps, first, last)
    requires forall k :: 0 <= k < |steps| ==> GoodStep(geo, steps[k])
    requires forall k :: 0 <= k < |steps| ==>
               Consistent(geo, steps[k].before) && Consistent(geo, steps[k].after) && LeftAlone(geo, steps[k], i)
    ensures Consistent(geo, last) && TextAt(geo, last, i) == TextAt(geo, first, i)
  {
    hide Consistent, TextAt, GoodStep, LeftAlone;
    if steps != [] {
      var s := steps[0];
      GoodEnd(geo, s);
      StepKeepsText(geo, s, i);
      RunKeepsText(geo, steps[1..], s.after, last, i);
    }
  }
}
