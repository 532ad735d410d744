# Verified model of beeros

beeros is a bare-metal Lisp system: a C kernel and libraries written in a
Clojure-like language. This project models its parts that keep the most state,
in Dafny, and proves what they keep and what they compute. Each component's
code is followed branch by branch; code that works by changing state is a class
or a method with loops, proved against a specification, and code that computes
values is functions.

- **ext2 (`Ext2*.dfy`)**: the write path of `lib/ext2.beer` on a disk of bitmaps, counts,
  inode records and byte blocks. `Ext2Books.Consistent` is the whole invariant: set
  block bits are the metadata plus the disjoint blocks of live inodes, set inode bits
  are the reserved and live inodes, free and used-directory counts match in every
  group and in the superblock, i_blocks counts an inode's blocks, directory records tile their blocks, and the names form
  a tree whose link counts are right (`Ext2Format.FormattedConsistent` shows a freshly made
  volume that satisfies it). Every operation that returns normally keeps it,
  except one that moves a directory into itself, and its effect is stated on the tree and on the
  contents of files. `Ext2Checks.dfy` says on the tree when each is refused and why, `Ext2Links.dfy`
  where symbolic links lead.
- **Screen (`Pictures.dfy`, `Cursor.dfy`, `Gfx.dfy`, `Wm.dfy`)**: `kernel/gfx.c` and the
  composition of `beer.wm`. The screen is a picture without a cursor; the
  framebuffer is that picture with the arrow over it. Each drawing loop is proved
  equal to a rule per pixel, and a restacked screen is the layered picture of its windows.
- **Terminal (`Text.dfy`, `TermState.dfy`, `TermLaws.dfy`, `TermPixels.dfy`, `Term.dfy`)**: `beer.term`
  draws through the model of the screen; its incremental drawing equals a full redraw, and what each
  control sequence does is said of the text that is fed.
- **Allocator (`MallocClasses.dfy`, `Malloc.dfy`, `MallocRun.dfy`)**: `kernel/malloc.c` over the bytes that
  `_sbrk` hands out, and how far the break goes in any run of a client.
- **Receive ring (`ConsoleRing.dfy`)**: `kernel/console.c` under every interleaving of the
  trap handler with the reader's single accesses.
- **Virtqueues (`Virtqueue.dfy`, `VirtqueueMemory.dfy`)**: `lib/virtio.beer` and the input driver against
  any device that follows section 2.7 of VIRTIO 1.2, and the rings as bytes.
- **Lines and circles (`Lines.dfy`)**: `lib/gfx.beer`, with exact error bounds.
- **Editor text (`EditBuffer.dfy`)**: beermacs' vector of lines as one flat string.

`dafny verify dfyconfig.toml` verifies all of it.

## What turned out not to hold as written

- `mv!` lets a directory into itself: its check compares the text of the paths
  (lib/ext2.beer:829-832). On every disk with a directory `/a` and no `/a/c`, or an empty
  directory there, `mv!` from `/../a` to `/a/c` passes it (`Ext2Cases.MvCheckMisses`), and when it
  succeeds the disk is no longer consistent (`Ext2Cases.MoveInto`); `Ext2Cases.LoopsA` and
  `Ext2Cases.LoopsOverC` do it on a fresh volume. `Ext2Mv.Mv` has the exact condition for the disk that
  every successful move leaves, `Ext2Mv.MoveExact` for its names: following `..` from the new parent
  does not meet the moved directory. Paths without `.`, `..` and symbolic links have it
  (`Ext2Mv.CanonicalSafe`).
- `write-file!` frees a file's blocks before it takes the new ones (lib/ext2.beer:715-718).
  When the free blocks and the file's own are too few for the new data it fails; no block
  was written, but the inode still maps blocks whose bits are clear, so the disk is consistent
  only if the file had none (`Ext2Write.WriteFile`, `Ext2Replace.EmptiedConsistent`).
  `Ext2Cases.LosesA` runs into it on a fresh volume. It also fails when only the indirect blocks
  cannot be had, after the data was written; that disk is not described. `Ext2Write.WriteFile` says
  for every disk and size whether the call completes.
- `aligned_alloc` adds the alignment to the size without an overflow check
  (kernel/malloc.c:101). `Malloc.AlignedFits` is the exact condition, `Malloc.AlignedTooSmall` an input.
- `gfx_copy_rect_on` clips in 32-bit arithmetic (kernel/gfx.c:194-196). What it copies lies on the
  surface exactly when the sums do not wrap (`Gfx.CopyInside`); a width of 4294967295 on a
  640 x 480 surface is not clipped at all (`Gfx.CopyWraps`).
- `gfx_blit_surface` from the screen copies the arrow too. It has the effect of copying the
  screen below the arrow exactly when the arrow hides nothing of another colour in the pixels
  that reach the destination (`Gfx.ScreenSource`, and `Gfx.Screen.BlitSurface` for the call), for
  instance when the source stands clear of the arrow's box (`Gfx.ApartUnhidden`).
  `Gfx.ArrowCopied` is a screen of one pixel where it does not.
- The terminal erases by filling and redraws by drawing a space; `TermPixels.FillIsBlankCell`
  says exactly when these agree, `TermPixels.InkySpace` is a font and a pen for which they do not.
- `search-forward` never finds a pattern that holds a newline
  (`EditBuffer.SearchMissesNewlines`, `EditBuffer.SearchMissExample`).

## Model

| member | source | states |
|---|---|---|
| Bytes.WordsOfPutWords | lib/ext2.beer:505-506 | storing 15 block pointers and reading them back is the identity |
| Ext2Bitmap.ScanGroup | lib/ext2.beer:434-438 | the scan that jumps over full bytes takes the first free bits that a bit-by-bit scan finds, sets exactly those, and leaves the rest of the free list |
| Ext2Bitmap.FreeInSkip | lib/ext2.beer:436 | a run of set bits adds nothing to the free list, so it may be jumped over |
| Ext2Alloc.AdjustCounts | lib/ext2.beer:398-408 | one group's counts and the superblock's totals change by the given amounts, in their field widths, and nothing else does |
| Ext2Alloc.CountsFollow | lib/ext2.beer:398-408 | when a bitmap changes and the counts are adjusted by the difference, every free count still equals what its bitmap says and the total is their sum, without wrap |
| Ext2Alloc.FreeFromComplete | lib/ext2.beer:419-442 | the search order from any starting group lists exactly the unused blocks of the volume |
| Ext2Alloc.FreeFromOrder | lib/ext2.beer:419-442 | and in this order: the goal's group first, then the following ones around to it, lower numbers first in each |
| Ext2Alloc.AllocBlocks | lib/ext2.beer:419-442 | the first n free blocks in search order, now marked used and counted, or too few and the disk as before |
| Ext2Alloc.FreeBlocks | lib/ext2.beer:444-455 | exactly the given blocks that are not holes become free, and the counts follow |
| Ext2Space.FreeBlocksCount | lib/ext2.beer:398-408 | the superblock's free total is the number of unmarked blocks, so it alone decides whether n blocks can be had |
| Ext2InodeAlloc.AllocInode | lib/ext2.beer:460-478 | the least free inode of the first group that has one, from the goal on, marked and counted; refused only when every group is full, with nothing changed |
| Ext2InodeAlloc.FoundNearest | lib/ext2.beer:460-478 | every other inode that could have been taken is in a group farther from the goal, or later in the same one |
| Ext2InodeAlloc.FreeInode | lib/ext2.beer:480-487 | exactly this inode's bit is cleared, and free and used-directory counts follow |
| Ext2Space.NoInodeCount | lib/ext2.beer:460-478 | no group has an inode to give only when the superblock counts none |
| Ext2BlockMap.CollectIs | lib/ext2.beer:170-184 | collecting below an indirect block of any depth gives the first leaves in order, holes included |
| Ext2BlockMap.MapLength | lib/ext2.beer:186-198 | the list of blocks is as long as the size asks, up to triple indirection's capacity |
| Ext2BlockMap.MapBlockIs | lib/ext2.beer:186-198 | entry j is the block the format places there: direct, single, double or triple indirect |
| Ext2BuildMap.BuildMap | lib/ext2.beer:555-581 | fails exactly past double indirection (nothing changed) or when the free blocks are fewer than the indirect blocks over that many data blocks (only the blocks taken so far are lost); otherwise the map on disk lists the data, its indirect blocks are newly allocated and distinct, and the count returned is their number |
| Ext2BuildMap.ReadsBack | lib/ext2.beer:186-198 | reading a built map back gives the same list of blocks in order |
| Ext2BuildMap.IndirectBuilt | lib/ext2.beer:524-532 | indirect-blocks of a built map lists exactly the blocks allocated for it |
| Ext2BuildMap.BuiltCount | lib/ext2.beer:570-581 | the count is one for a single map, and one plus the number of second-level blocks for a double one |
| Ext2FileData.ReadData | lib/ext2.beer:200-221 | reading in contiguous runs, holes as zeros, gives exactly the first `size` bytes of the blocks |
| Ext2FileData.WriteData | lib/ext2.beer:583-600 | writing in runs with a zero-padded last block puts each piece into its block and touches no other block |
| Ext2FileData.WriteThenRead | lib/ext2.beer:583-600 | writing bytes into distinct blocks and reading them back is the identity, partial last block included |
| Ext2FileData.PieceBytes | lib/ext2.beer:583-600 | byte j of the block for piece k is the file's, and 0 past its end |
| Ext2DirBlock.AddInBlock | lib/ext2.beer:631-643 | splitting a record's slack or reusing an empty slot keeps the block tiled and inserts exactly the new entry |
| Ext2DirBlock.FindSlot | lib/ext2.beer:629-641 | the first record with the bytes to spare, found exactly when the block has one |
| Ext2DirBlock.RecordBytes | lib/ext2.beer:608-615 | a record byte by byte: inode number and record length with the low byte first, the name's length in one byte with a type or in two, the name; no other byte changes |
| Ext2DirBlock.RemoveInBlock | lib/ext2.beer:663-684 | merging into the record before, or zeroing a first one, keeps the block tiled and takes out exactly the named entry |
| Ext2DirBlock.RemovedRoom | lib/ext2.beer:663-684 | the place of a removed entry takes the same name again |
| Ext2DirBlock.RepointInBlock | lib/ext2.beer:803-815 | changing an inode number in place keeps the tiling and every other entry |
| Ext2DirData.WalkIsEntries | lib/ext2.beer:231-250 | dir-entries over a directory's bytes gives the entries its blocks hold, in order |
| Ext2DirData.NewDirBlockIs | lib/ext2.beer:744-747 | a new directory's block is tiled by `.` and `..` |
| Ext2Dir.DirEntriesIs | lib/ext2.beer:231-250 | on a disk, reading a directory inode and walking it gives its blocks' entries |
| Ext2Dir.GrowDir | lib/ext2.beer:645-661 | a directory without room gets a new block, through indirect blocks if need be, that holds exactly the new entry; it fails exactly when no block is free, or the blocks left with the old indirect ones do not suffice for the new map, leaves the free count that this says, and takes nothing from any other inode |
| Ext2DirOps.AddEntry | lib/ext2.beer:622-661 | the directory shows its old entries plus exactly the named one, and every other inode's blocks and contents are as before; it needs a block exactly when no record of the directory has room, fails exactly when growing does, and then too every other inode is as before |
| Ext2DirOps.RemoveEntry | lib/ext2.beer:663-684 | the first entry of that name goes, every other stays in place, and the directory has room for the name; not found exactly when no entry has the name, with nothing changed |
| Ext2DirOps.SetDotDot | lib/ext2.beer:803-815 | only the entry `..` gets another inode number |
| Ext2DirOps.RemovedHas | lib/ext2.beer:663-684 | an entry stays as it is, type byte included, when another one is removed |
| Ext2DirOps.RepointedHas | lib/ext2.beer:803-815 | and when another one is repointed |
| Ext2Store.GrowStep | lib/ext2.beer:538-548 | blocks taken by the allocator become the operation's own; the set bits stay metadata, owned and held blocks |
| Ext2Store.Attach | lib/ext2.beer:493-503 | an inode record that maps held blocks makes them its own, disjoint from every other inode's |
| Ext2Store.FreeStep | lib/ext2.beer:538-548 | freeing held blocks keeps block bits equal to metadata, owned and held blocks |
| Ext2Books.BooksAfterAlloc | lib/ext2.beer:460-478 | after allocating an inode the inode bits, the counts and the used-directory counts fit the enlarged set of live inodes |
| Ext2Books.BooksAfterFree | lib/ext2.beer:480-487 | after freeing one they fit the smaller set |
| Ext2Books.SettledIsConsistent | lib/ext2.beer:538-548 | the invariant may be read off the disk: the live inodes are those with bits and are the tree's nodes |
| Ext2Tree.AddFileKeeps | lib/ext2.beer:699-731 | adding a file or link keeps the namespace a tree with right link counts |
| Ext2Tree.AddDirKeeps | lib/ext2.beer:733-756 | adding a directory does, with `..` and the parent's count |
| Ext2Tree.RemoveFileKeeps | lib/ext2.beer:765-781 | removing an entry does, the inode going with its last link |
| Ext2Tree.RemoveDirKeeps | lib/ext2.beer:783-801 | removing an empty directory does |
| Ext2Tree.RelinkFileKeeps | lib/ext2.beer:850-855 | moving a file's entry does |
| Ext2Tree.RelinkDirExact | lib/ext2.beer:829-855 | moving a directory keeps the tree if and only if the new parent is not below it |
| Ext2Tree.WalkUnique | lib/ext2.beer:266-288 | a directory has exactly one path of names from the root |
| Ext2Tree.NotIntoItself | lib/ext2.beer:829-832 | for plain paths, a destination that does not continue the source's path is not below the moved directory |
| Ext2Path.SplitNorm | lib/ext2.beer:263-264 | joining components and splitting again gives the components |
| Ext2Path.InsideIsPrefix | lib/ext2.beer:829-832 | the string comparison of joined paths decides whether one list of components continues the other |
| Ext2Path.SplitAtSlash | lib/ext2.beer:263-264 | what stands before a slash and after it splits alone |
| Ext2Lookup.LookupTree | lib/ext2.beer:252-253 | a lookup in a consistent directory is `.`, `..` or an edge of the tree |
| Ext2Lookup.ResolveLive | lib/ext2.beer:266-288 | a path that resolves, through symbolic links too, names a live inode |
| Ext2Lookup.ResolveStable | lib/ext2.beer:266-288 | when lookups that succeeded still give the same, paths that resolved resolve to the same inode |
| Ext2Lookup.ResolveIsWalk | lib/ext2.beer:266-288 | a canonical path resolves along the edges of the tree |
| Ext2Lookup.ParentIs | lib/ext2.beer:688-695 | parent-and-name yields the last component and what the others resolve to |
| Ext2Links.ResolveWithoutLinks | lib/ext2.beer:266-288 | a path with no symbolic link to follow resolves to what its names lead to one by one |
| Ext2Links.ResolveOneLink | lib/ext2.beer:278-285 | a path with one resolves as the path with the link's text in its place: after the components before it, or instead of them when the text is absolute |
| Ext2Links.OneLink | lib/ext2.beer:278-285 | a path has at most one link to follow before anything is expanded |
| Ext2Links.ResolveIsFollowed | lib/ext2.beer:266-288 | resolution is the expansion of up to 40 links, one after the other, and then the walk along names |
| Ext2Links.TooManyLinksExact | lib/ext2.beer:281-282 | too many links are reported exactly where 41 can be expanded one after the other |
| Ext2Links.ThroughLink | lib/ext2.beer:278-285 | for a link behind any path that resolves, links in it included: the path on through the link and the path with its text in its place resolve alike, unless there are too many links |
| Ext2Links.ReadsLink | lib/ext2.beer:306-311 | read-bytes of a link gives what read-bytes of its text gives, from the link's directory or from the root |
| Ext2Links.ReadsThroughLink | lib/ext2.beer:306-311 | and the same for a link in the middle of a path |
| Ext2Make.CreateFile | lib/ext2.beer:710-714 | the tree gains exactly one file, empty, and no other inode's text changes; the entry has the type of a file; it fails exactly without a free inode (nothing changed) or when the entry cannot be added, and then harms at most the parent directory |
| Ext2Make.CreateDir | lib/ext2.beer:741-754 | the tree gains exactly one empty directory whose `..` is the parent, which gains a link, and the entry has the type of a directory; it fails exactly without a free inode or block, or when the entry cannot be added with the blocks left |
| Ext2Make.CreateSymlink | lib/ext2.beer:866-884 | the tree gains exactly one link whose text is the target, inside the inode or, from 60 bytes on, in a block, as i_blocks says, and the entry has the type of a link; it fails exactly without the inode or that block, or when the entry cannot be added |
| Ext2Replace.ReplaceData | lib/ext2.beer:715-729 | the file's blocks are replaced so that it reads as the new bytes and takes exactly the blocks that so many bytes need; bitmaps, counts and all other inodes are kept. It completes exactly when the free blocks and the file's own suffice for the data and its indirect blocks; when not even for the data, the disk is the old one with the file's blocks marked free, and in no case is another inode harmed |
| Ext2Replace.EmptiedConsistent | lib/ext2.beer:715-718 | that disk is consistent if and only if the file had no block |
| Ext2Remove.Release | lib/ext2.beer:758-763 | an inode's blocks and number are freed and nothing of another inode changes |
| Ext2Remove.UnlinkFile | lib/ext2.beer:774-781 | the entry goes, the inode with its last link |
| Ext2Remove.UnlinkDir | lib/ext2.beer:794-801 | the empty directory, its entry and its link on the parent go |
| Ext2Move.Relink | lib/ext2.beer:850-855 | the entry moves, and for a directory between parents `..` and both link counts follow, and it has the type byte that was asked for; it fails exactly when the new entry cannot be added |
| Ext2Ops.Mkdir | lib/ext2.beer:733-756 | success exactly when the check allows, an inode and a block are free and the entry fits or its directory can grow with the blocks left: the tree gains that directory, the disk stays consistent, no other inode's text changes; a refusal changes nothing, and running out of space harms no inode but possibly the parent |
| Ext2Ops.MakeSymlink | lib/ext2.beer:860-885 | the same for a symbolic link with its target, which takes a block from 60 bytes on |
| Ext2Ops.SparedText | lib/ext2.beer:699-885 | what such a failure has spared is still there: a file's bytes, a link's target, a directory's entries and parent, and the link count |
| Ext2Ops.SectorsCount | lib/ext2.beer:724-728 | on every consistent disk i_blocks of each inode counts its blocks, the indirect ones too, in 512-byte units, and a link with 0 there has none |
| Ext2Ops.Rm | lib/ext2.beer:765-781 | succeeds exactly as its check says (Ext2Checks.RmCheckExact) and removes exactly it; a refusal changes nothing |
| Ext2Ops.Rmdir | lib/ext2.beer:783-801 | succeeds exactly as its check says (Ext2Checks.RmdirCheckExact) and removes exactly it; a refusal changes nothing |
| Ext2Write.ReadBytes | lib/ext2.beer:306-311 | the contents of the inode that the path resolves to, links followed (Ext2Links.ReadsLink); an error exactly where it does not resolve, is no file, or is shorter than its size |
| Ext2Write.WriteFile | lib/ext2.beer:699-731 | creates or replaces: the tree is the old one or has the new file, its text is the bytes, it takes exactly the blocks they need, which i_blocks counts (Ext2Ops.SectorsCount), no other inode's text changes, the disk stays consistent; a refusal changes nothing. For every disk and size it says whether the call completes, and what is left when the blocks for an existing file's data cannot be had; a failure harms no inode but possibly the file, or a new file's directory |
| Ext2Write.WrittenReadsBack | lib/ext2.beer:306-311 | after a successful write-file! of any bytes, read-bytes on the path returns exactly those bytes |
| Ext2Write.OthersReadAsBefore | lib/ext2.beer:306-311 | every path that read before and does not name the written file reads the same bytes |
| Ext2Mv.PlanBelow | lib/ext2.beer:829-832 | for canonical parents the lexical check implies that the directory does not move below itself |
| Ext2Mv.ClimbsExact | lib/ext2.beer:252-253 | following `..` from a directory, at most as often as there are inodes, meets another exactly when it is that one or lies below it |
| Ext2Mv.MoveExact | lib/ext2.beer:829-855 | a move that the check allows, of a directory or not, with a target to replace or without, leaves a tree if and only if following `..` from the new parent does not meet a moved directory |
| Ext2Mv.CanonicalSafe | lib/ext2.beer:829-832 | between paths without `.`, `..` and symbolic links every move that the check allows is one |
| Ext2Mv.Mv | lib/ext2.beer:817-858 | the target is replaced if there is one, the entry moves with a directory's `..` and both link counts, the new entry has the inode's type, and no other inode's text changes; the disk is then consistent if and only if no directory went into itself. It fails exactly as its check says (nothing changed) or, without a target, when the new entry cannot be added, which harms no inode but possibly that directory |
| Ext2Mv.MovedTurned | lib/ext2.beer:850-855 | a consistent disk after a move has the names that the move makes of the old ones, and every inode left its text |
| Ext2Checks.ParentExact | lib/ext2.beer:688-695 | a path has a parent exactly when it has a component and those before its last resolve to a directory; otherwise it is the root, what they fail with, or not a directory |
| Ext2Checks.CreateCheckExact | lib/ext2.beer:739-740 | mkdir! and symlink! are refused exactly without a parent, or as existing when the parent has the name |
| Ext2Checks.WriteCheckExact | lib/ext2.beer:709-716 | write-file! exactly without a parent, or as not a file when the name is another inode's |
| Ext2Checks.RmCheckExact | lib/ext2.beer:771-775 | rm! exactly without a parent, as not found without the name, as a directory for a directory; a symbolic link is removed |
| Ext2Checks.RmdirCheckExact | lib/ext2.beer:789-796 | rmdir! exactly without a parent, as not found without the name, as not a directory, and as not empty when the directory has a name |
| Ext2Checks.OldCheckExact | lib/ext2.beer:838-845 | what is in the way of mv! must be a directory exactly when the moved inode is, and then empty |
| Ext2Checks.MvCheckExact | lib/ext2.beer:823-845 | mv! exactly, in this order, without the source's parent or name, into itself when a directory's components begin the target's, without the target's parent, and for what is in the way, unless that is the inode itself |
| Ext2Run.Perform | lib/ext2.beer:699-885 | each operation succeeds, is refused or runs out of space exactly as its outcome on the disk before it says; it has its effect, or leaves the disk as it was, except that running out of space may harm the one inode it was working on |
| Ext2Run.Run | lib/ext2.beer:699-885 | in every run of operations each step is permitted and has its effect or is refused as its outcome says, and every disk up to there is consistent; the run stops early only at an operation that its arguments forbid (a move into itself among them) or that the last consistent disk has no space for, and then at most one inode of that disk is harmed |
| Ext2Run.StepKeepsText | lib/ext2.beer:699-885 | a step changes the text of no inode that stays live and is not written |
| Ext2Run.RunKeepsText | lib/ext2.beer:699-885 | over a whole run the contents of such an inode are the same at the end |
| Ext2Cases.MvCheckMisses | lib/ext2.beer:829-832 | from `/../a` to `/a/c` the check passes on every consistent disk with a directory `/a` where `/a/c` does not exist or is an empty directory, and what the move makes of the names is not a tree |
| Ext2Cases.MoveInto | lib/ext2.beer:817-858 | on each of these disks the call succeeds unless the new entry cannot be added, and leaves a disk that is not consistent |
| Ext2Cases.LoopsA | lib/ext2.beer:817-858 | it does so on a fresh volume after mkdir! of `/a` |
| Ext2Cases.LoopsOverC | lib/ext2.beer:835-849 | and after mkdir! of `/a` and `/a/c`, which is replaced |
| Ext2Cases.LosesA | lib/ext2.beer:715-720 | on a full volume a write of one byte more than a file has fails and leaves an inconsistent disk |
| Ext2Cases.SmallVolume | lib/ext2.beer:652-661 | on a volume of less than 4 GiB no directory comes near the largest size, so that assumption of the operations holds |
| Pictures.ClipIs | kernel/gfx.c:144-151 | clipping keeps exactly the pixels of the rectangle that lie in the area |
| Pictures.DoubleClip | kernel/gfx.c:246-252 | clipping to the surface and then to the screen, moving the other side along, is the rule per pixel |
| Pictures.FillRows | kernel/gfx.c:157-160 | the loops colour exactly the rectangle |
| Pictures.OwnedRow | kernel/gfx.c:257-259 | of a row's pixels exactly the owned ones take their values |
| Pictures.PresentRows | kernel/gfx.c:254-260 | the owned pixels take the surface's pixels, all others stay |
| Pictures.FillOwnedRows | kernel/gfx.c:269-274 | exactly the owned pixels of the rectangle are coloured |
| Pictures.CopyRows | kernel/gfx.c:198-202 | copying row by row in place, in the chosen order, equals a simultaneous copy for every overlap |
| Pictures.ScaledRows | kernel/gfx.c:169-185 | each bit or pixel becomes a scale x scale square, cut at the surface's edges, transparent ones skipped; a memcpy at scale 1 is the same |
| Pictures.KeyedRows | kernel/gfx.c:287-297 | the block's pixels inside the surface, except those equal to the key |
| Cursor.Draw | kernel/gfx.c:73-85 | the arrow is painted over the screen, and what it covers is saved |
| Cursor.Restore | kernel/gfx.c:87-95 | with what it covers saved, taking the arrow away gives the screen back |
| Cursor.StillOver | kernel/gfx.c:97-106 | a drawing that leaves the arrow's box alone leaves the arrow over the new screen |
| Cursor.CopiedBeside | kernel/gfx.c:197 | a copy whose source and destination are both clear of the arrow is the copy on the screen below it |
| Cursor.ScaledBeside | kernel/gfx.c:168 | a scaled blit inside the rectangle that was checked is the blit on the screen below |
| Gfx.CopyLengthExact | kernel/gfx.c:194-196 | the 32-bit clipping keeps the copy on the surface exactly when the sum does not wrap |
| Gfx.CopyInside | kernel/gfx.c:189-204 | source and destination of the copy lie on the surface if and only if neither sum wraps |
| Gfx.CopyWraps | kernel/gfx.c:189-204 | a width of 4294967295 from (1, 0) on a 640 x 480 surface is not clipped |
| Gfx.ScreenSource | kernel/gfx.c:303-309 | a blit whose source is the framebuffer has the effect of one whose source is the screen below the arrow if and only if, of the clipped source pixels that reach the destination, the arrow hides none of another colour |
| Gfx.ApartUnhidden | kernel/gfx.c:97-104 | a source rectangle clear of the arrow's box meets that condition |
| Gfx.ArrowCopied | kernel/gfx.c:303-332 | a screen of one pixel whose blit copies the arrow's tip |
| Gfx.StepUnique | kernel/gfx.c:108-332 | each call's rule determines the whole new picture |
| Gfx.Screen.constructor | kernel/gfx.c:33-39 | an empty owner map, no surface but the screen, no cursor |
| Gfx.Screen.HideFor | kernel/gfx.c:97-104 | hidden, the framebuffer is the screen; not hidden, the rectangle is clear of the arrow |
| Gfx.Screen.Settle | kernel/gfx.c:106 | after the loop the arrow is over the new screen again, with what is under it saved |
| Gfx.Screen.SetPointer | kernel/gfx.c:108-113 | moving, showing or hiding the pointer changes no surface, not the screen and not the owner map |
| Gfx.Screen.SurfaceNew | kernel/gfx.c:122-133 | the first free slot becomes a zeroed surface, or nothing changes |
| Gfx.Screen.SurfaceFree | kernel/gfx.c:135-141 | the surface goes and owns no pixel any more |
| Gfx.Screen.FillRect | kernel/gfx.c:153-162 | exactly the rectangle's pixels of that surface change; the cursor stays transparent |
| Gfx.Screen.BlitBits | kernel/gfx.c:164-187 | the bitmap, scaled, is on that surface and nothing else changed |
| Gfx.Screen.CopyRect | kernel/gfx.c:189-204 | the clipped rectangle is copied as if at once |
| Gfx.Screen.SetPixel | kernel/gfx.c:208-213 | one pixel of the screen, if it is on it |
| Gfx.Screen.OwnRect | kernel/gfx.c:230-234 | exactly the rectangle's pixels get the owner |
| Gfx.Screen.OwnerAt | kernel/gfx.c:236-239 | the owner on the screen, -1 off it |
| Gfx.Screen.PresentRect | kernel/gfx.c:243-262 | the rule per pixel: owned pixels with a corresponding surface pixel take it |
| Gfx.Screen.FillOwnedRect | kernel/gfx.c:266-276 | exactly the owned pixels of the rectangle change |
| Gfx.Screen.BlitPixels | kernel/gfx.c:282-299 | the block's pixels that are not transparent |
| Gfx.Screen.BlitSurface | kernel/gfx.c:303-332 | the clipped source, scaled, at the destination; from the screen, the screen's own pixels exactly under ScreenSource's condition |
| Gfx.Screen.Run | kernel/gfx.c:108-332 | in any sequence of calls every step follows its rule, the framebuffer is always the screen with the arrow over it, and the arrow is where the last pointer call put it |
| Gfx.SamePicture | kernel/gfx.c:108-113 | sequences with the same drawing calls end with the same surfaces, screen and owners, wherever the pointer went |
| Wm.WindowAtIsTop | rootfs/lib/beer/wm.beer:254-259 | window-at is the topmost covering window |
| Wm.OwnerIsWindowAt | rootfs/lib/beer/wm.beer:78-86 | on a composed screen the owner map names window-at's surface, 0 on the desktop |
| Wm.PresentKeepsOthers | kernel/gfx.c:254-260 | on a composed screen a present of any rectangle to any place changes only pixels at which window-at finds the presenting window |
| Wm.RedrawnComposed | rootfs/lib/beer/wm.beer:76 | a window that drew on its surface and presents it makes the screen the layered picture again |
| Wm.RaisedOnTop | rootfs/lib/beer/wm.beer:92-100 | after a raise the window is on top wherever it is, and elsewhere the topmost window is the same |
| Wm.WindowAtWithout | rootfs/lib/beer/wm.beer:152-153 | where the closed window was not on top, the topmost window is the same |
| Wm.Manager.Restack | rootfs/lib/beer/wm.beer:78-86 | every screen pixel is the topmost covering window's own pixel or the desktop colour, and owners fit; no surface changes |
| Wm.Manager.Redraw | rootfs/lib/beer/wm.beer:76 | the window's surface is what the calls, one after the other, make of it, no other surface changes, and the screen stays the layered picture |
| Wm.PaintedUnique | rootfs/lib/beer/wm.beer:54-70 | the calls determine the picture |
| Wm.Manager.Focus | rootfs/lib/beer/wm.beer:92-104 | the window moves to the top of the list, the others keep their order, the window gets its lit frame and the one that had the focus its plain one, nothing else is drawn, and the screen is the layered picture |
| Wm.Manager.Close | rootfs/lib/beer/wm.beer:144-160 | the window goes, its surface is freed, the focus passes to the topmost window if it was lost, which then gets its lit frame, nothing else is drawn, and the screen is the layered picture |
| Wm.Manager.DragTo | rootfs/lib/beer/wm.beer:166-169 | only that window's place changes, and the screen is the layered picture |
| Wm.Manager.Open | rootfs/lib/beer/wm.beer:106-142 | a new window of that size at the wanted place, kept on the screen, on top with the focus; none and no change exactly when no surface can be had; its surface has its lit frame on a blank picture, the window that had the focus gets its plain frame, and nothing else is drawn |
| Wm.OnScreen | rootfs/lib/beer/wm.beer:120-121 | the place is the wanted one or the nearest at which the window is whole on the screen, the edge if it is too large |
| Wm.RoomFull | kernel/gfx.c:122-136 | no surface is free exactly when that many windows are open |
| Wm.Manager.Run | rootfs/lib/beer/wm.beer:72-175 | in any sequence of opening, closing, raising, dragging and drawing the screen stays the layered picture, every step leaves the surfaces as it should, and the focus is on the topmost window; a window fails to open exactly for an empty size, without memory, or when as many are open as there are surfaces that nobody else has |
| Wm.FocusStaysOnTop | rootfs/lib/beer/wm.beer:92-160 | each of them keeps the focus on the topmost window, none exactly when there is no window |
| TermState.Erased | rootfs/lib/beer/term.beer:128-140 | exactly the columns become blank |
| TermState.PrintedIs | rootfs/lib/beer/term.beer:169-178 | printable text with room in its row lands there cell by cell in the pen's colours, nothing else changes, and the cursor follows or stays on the last column with a wrap pending |
| TermState.WrapsOnce | rootfs/lib/beer/term.beer:164-178 | a character that finds a wrap pending starts the next row, after a scroll on the last one |
| TermState.ScrolledUpIs | rootfs/lib/beer/term.beer:146-153 | every row moves up by n and blank rows follow |
| TermState.ScrolledDownIs | rootfs/lib/beer/term.beer:155-162 | every row moves down by n below blank rows |
| TermState.ErasedScreenIs | rootfs/lib/beer/term.beer:242-245 | CSI J blanks exactly the cells from the cursor on, up to and with it, or all |
| TermState.RestoredPlace | rootfs/lib/beer/term.beer:253-254 | restoring a saved place puts the cursor exactly there |
| TermLaws.MadeIs | rootfs/lib/beer/term.beer:56-81 | a new terminal is blank in its colours, with the cursor at home |
| TermLaws.NumberOf | rootfs/lib/beer/term.beer:217-219 | the decimal text of n is read as n |
| TermLaws.ArgumentsOf | rootfs/lib/beer/term.beer:217-224 | numbers with semicolons between them, some left out, are read as these numbers |
| TermLaws.VerticalMotion | rootfs/lib/beer/term.beer:233-234 | after the text ESC [ n A the cursor is n rows up, after B n rows down, on the first or last row at most, with no wrap pending and nothing else changed; no number and 0 count as 1 |
| TermLaws.HorizontalMotion | rootfs/lib/beer/term.beer:235-236 | C and D: n columns right and left, to the edge at most |
| TermLaws.LineMotion | rootfs/lib/beer/term.beer:237-238 | E and F: to the first column n rows down and up |
| TermLaws.LineOrColumn | rootfs/lib/beer/term.beer:239-240 | G and d: to column and row n, counted from 1, the last at most |
| TermLaws.PlaceMotion | rootfs/lib/beer/term.beer:241 | H and f: row, then column |
| TermLaws.BlankIs | rootfs/lib/beer/term.beer:53 | a blank cell is a space on the background that the pen prints on |
| TermLaws.ErasesScreen | rootfs/lib/beer/term.beer:242-245 | J blanks the cells from the cursor on, up to and with it, or all |
| TermLaws.ErasesLine | rootfs/lib/beer/term.beer:246-249 | K those of the row |
| TermLaws.Scrolls | rootfs/lib/beer/term.beer:250-251 | S and T: all rows go n up or down and blank ones follow |
| TermLaws.SavedPlaces | rootfs/lib/beer/term.beer:253-275 | ESC 7 and CSI s save the place, ESC 8 and CSI u go to it, or home |
| TermLaws.ColumnControls | rootfs/lib/beer/term.beer:284-287 | CR, BS and HT: to the first column, one back, to the next multiple of eight or the last column |
| TermLaws.LineFeedMotion | rootfs/lib/beer/term.beer:285 | LF, VT and FF go one row down, on the last one the rows go up |
| TermLaws.RowEscapes | rootfs/lib/beer/term.beer:277-280 | ESC D, ESC E and ESC M: a row down, to the start of the next, a row up; at the edge the rows move |
| TermLaws.Resets | rootfs/lib/beer/term.beer:257-276 | ESC c: blank, the cursor shown at home, the pen in the terminal's colours |
| TermLaws.CursorModes | rootfs/lib/beer/term.beer:230-232 | CSI ? 25 h and l show and hide the cursor |
| TermLaws.Ignored | rootfs/lib/beer/term.beer:255-289 | other control characters, escapes and final characters do nothing |
| TermLaws.SixteenColours | rootfs/lib/beer/term.beer:199-202 | after CSI 30+k m or 90+k m text is printed in that colour of the palette, after 40+k and 100+k on it; bold brightens the first eight in the text; inverse exchanges the two |
| TermLaws.BoldInk | rootfs/lib/beer/term.beer:195-196 | 1 and 22: bold is seen in the first eight colours of the text alone |
| TermLaws.InverseInk | rootfs/lib/beer/term.beer:197-198 | 7 and 27: the two colours of what is printed change places, and back |
| TermLaws.DefaultInk | rootfs/lib/beer/term.beer:193-204 | 39 and 49 bring one of the terminal's colours back, 0 or no parameter the whole pen |
| TermLaws.Colours256 | rootfs/lib/beer/term.beer:29-34 | 38;5;n and 48;5;n: the sixteen, the cube of the levels 0, 95, 135, 175, 215 and 255, and the greys |
| TermLaws.TrueColour | rootfs/lib/beer/term.beer:205-212 | 38;2;r;g;b and 48;2;r;g;b: that colour |
| TermLaws.SgrInTurn | rootfs/lib/beer/term.beer:187-213 | several groups of parameters in one sequence do what as many sequences do |
| TermLaws.CursorDrawn | rootfs/lib/beer/term.beer:96-109 | after feed the cursor is drawn where it stands if it is shown, and the rest is what the text does |
| TermState.FedInChunks | rootfs/lib/beer/term.beer:292-297 | writing two texts ends in the state of writing them at once |
| TermState.ChunksDoNotMatter | rootfs/lib/beer/term.beer:326-335 | however a text is cut into chunks, grid, cursor and parser end the same |
| TermPixels.GlyphPaints | rootfs/lib/beer/term.beer:87-92 | drawing a glyph at a cell's corner paints exactly the cell's box |
| TermPixels.PaintedShows | rootfs/lib/beer/term.beer:169-178 | one painted cell and its new entry keep every cell's box showing its entry |
| TermPixels.ErasedShows | rootfs/lib/beer/term.beer:128-140 | filling a stretch of a row shows the blank cells, with a blank space glyph |
| TermPixels.FillIsBlankCell | rootfs/lib/beer/term.beer:128-140 | filling equals drawing a blank cell exactly when the space glyph is blank or its ink has the background's colour |
| TermPixels.InkySpace | rootfs/lib/beer/term.beer:128-140 | a font of one pixel whose space has ink: the filled cell does not show the blank one |
| TermPixels.CopiedShows | rootfs/lib/beer/term.beer:146-162 | moving a band of pixel rows shows the moved rows of cells |
| TermPixels.SamePixels | rootfs/lib/beer/term.beer:111-124 | two pictures of one state over one background are equal |
| Terminal.Emulator.DrawCell | rootfs/lib/beer/term.beer:87-92 | exactly the cell's box changes |
| Terminal.Emulator.EraseRows | rootfs/lib/beer/term.beer:142-144 | the rows become blank in the grid and on the screen, whatever was shown there |
| Terminal.Emulator.ScrollUp | rootfs/lib/beer/term.beer:146-153 | grid and pixels scroll together |
| Terminal.Emulator.ScrollDown | rootfs/lib/beer/term.beer:155-162 | grid and pixels scroll together |
| Terminal.Emulator.FeedChar | rootfs/lib/beer/term.beer:262-290 | one character: the pure state step, and pixels that show it |
| Terminal.Emulator.Feed | rootfs/lib/beer/term.beer:292-297 | after any text the state is the pure one, every cell's box shows its cell, the cursor's inverted, and nothing outside the terminal's box was drawn on |
| Terminal.Emulator.Redraw | rootfs/lib/beer/term.beer:111-124 | redraw! shows the state from any pixels, and after feed it changes nothing: incremental drawing is a full redraw |
| Terminal.Emulator.Render | rootfs/lib/beer/term.beer:326-335 | feeding chunks in turn ends in the state of feeding their concatenation |
| Terminal.ChunksSamePixels | rootfs/lib/beer/term.beer:326-335 | and with the same pixels |
| MallocClasses.ClassHolds | kernel/malloc.c:34-39 | a class exists exactly up to 2 GiB and is the smallest that holds the request |
| MallocClasses.Waste | kernel/malloc.c:34-43 | at most 15 bytes are wasted up to 2048, and a larger block is smaller than twice the request |
| MallocClasses.ClassOf | kernel/malloc.c:34-39 | the loop finds that class for every 64-bit size |
| Malloc.HeaderFound | kernel/malloc.c:45-48 | the word before any live pointer, aligned interior ones too, leads to its block's header |
| Malloc.LiveApart | kernel/malloc.c:50-63 | live allocations do not overlap |
| Malloc.AlignedFits | kernel/malloc.c:99-109 | the block holds n bytes from the aligned pointer exactly when n + align does not wrap |
| Malloc.AlignedTooSmall | kernel/malloc.c:101 | a request for 2^64 - 16 bytes at a 32-byte boundary gets a 16-byte block |
| Malloc.GrowthBound | kernel/malloc.c:50-71 | the break has advanced by the sum over classes of the class's peak times header plus size |
| Malloc.Allocator.Sbrk | kernel/syscall_stubs.c:60-70 | the old break, or -1 and no change at the heap's end |
| Malloc.Allocator.Malloc | kernel/malloc.c:50-63 | none exactly when no class fits or the heap ends; otherwise a block no live allocation uses, all live bytes kept, the tiling and lists kept, and the class's peak follows its live blocks |
| Malloc.Allocator.Free | kernel/malloc.c:65-71 | exactly that allocation ends, its block is on its class's list, the others' bytes are kept, and no peak changes |
| Malloc.Allocator.Usable | kernel/malloc.c:73-76 | the bytes from the pointer to its block's end |
| Malloc.Allocator.Realloc | kernel/malloc.c:80-89 | in place exactly when the block's bytes from the pointer suffice; otherwise none exactly when malloc has none, or a new block with the bytes both sizes cover, the old one freed, and the peak counts both; the others' bytes are kept |
| Malloc.Allocator.Calloc | kernel/malloc.c:91-97 | zeroed; none exactly when the product overflows or malloc has none for it; the peak follows |
| Malloc.Allocator.AlignedAlloc | kernel/malloc.c:99-109 | n bytes at a multiple of the alignment, with a header in front that leads back; none exactly when malloc has none for the size, or above 16 for the sum; the peak follows |
| MallocRun.Serve | kernel/malloc.c:50-109 | one call of a client gets it the bytes it asked for, zeroed or aligned if so asked, or none exactly when there is no room, and keeps the bytes of all its other allocations; it changes one of its pointers, every pointer it keeps stays live and its own, and the live blocks of each class change as the call's log of blocks taken and given back says |
| MallocRun.Run | kernel/malloc.c:50-109 | in any sequence of calls on a fresh heap each is served so, and at the end the break has advanced by the sum over classes of the most blocks of the class that were ever live together, a moving realloc's two included, times header plus size |
| Malloc.MostConcat | kernel/malloc.c:50-71 | the most over two stretches of a run is the larger of both |
| ConsoleRing.Always | kernel/console.c:31-73 | the invariant of ring, counters and drop protocol under every interleaving |
| ConsoleRing.Occupancy | kernel/console.c:31-58 | head - tail stays in 0..256 modulo 2^32 |
| ConsoleRing.NextByte | kernel/console.c:60-73 | bytes come out in arrival order without duplicates |
| ConsoleRing.NeverStale | kernel/console.c:60-73 | a read begun after an interrupt key returns no byte accepted before it |
| ConsoleRing.OnlyTypedAheadDropped | kernel/console.c:60-73 | no byte accepted after the last key is discarded |
| ConsoleRing.ClearingLateLosesKey | kernel/console.c:60-68 | with the flag cleared after drop_before is read, a key is lost |
| ConsoleRing.UnguardedReadsTwice | kernel/console.c:60-68 | without the signed guard a byte is read twice |
| ConsoleRing.InterruptKeys | kernel/console.c:46-58 | Ctrl-\ and a break always interrupt, Ctrl-C outside a read unless that is switched off; during a read it is a byte like all others, stored if there is room |
| ConsoleRing.AloneIs | kernel/console.c:60-73 | a read without traps skips to drop_before if a key lies ahead and takes the byte there |
| ConsoleRing.Console.Rx | kernel/console.c:46-58 | the trap handler's step on the shared variables, and an interrupt is requested exactly for these keys |
| ConsoleRing.Console.GetcNonblock | kernel/console.c:60-73 | the reader alone does what its accesses, one after the other, do |
| Virtqueue.Always | lib/virtio_input.beer:84-163 | the queue's invariant in every run of driver and device; the device may write buffers and any number of used entries before it moves the index past any number of them |
| Virtqueue.ExactlyOne | lib/virtio_input.beer:149-163 | each of the 64 descriptors is in exactly one place: available, held by the device, in a used entry past the index, returned, or with the driver |
| Virtqueue.HandledInOrder | lib/virtio.beer:175-185 | completions are handled in the device's order, each with the bytes its buffer held when the index moved |
| Virtqueue.PollBound | lib/virtio_input.beer:149-163 | one poll! takes at most 64 completions before it offers them again |
| Virtqueue.PublishedAt | lib/virtio.beer:160-173 | up to a ring's worth of heads lie in consecutive slots, the index wrapping at 16 bits |
| Virtqueue.PublishedElse | lib/virtio.beer:160-173 | and no other slot changes |
| Virtqueue.PublishSteps | lib/virtio.beer:160-173 | the machine's accesses of one publish!, without the device's in between, put all heads into the ring and then move the index |
| Virtqueue.TakeSteps | lib/virtio.beer:175-185 | where there is a completion, two of its accesses are take-used!'s |
| VirtqueueMemory.AlignedOffset | lib/virtio.beer:105-113 | the offset makes the address a multiple of the alignment and is smaller than it |
| VirtqueueMemory.AlignUpIs | lib/virtio.beer:115 | the least multiple not below |
| VirtqueueMemory.Layout | lib/virtio.beer:122-126 | table and rings follow each other without overlap on their boundaries |
| VirtqueueMemory.Queue.SetDesc | lib/virtio.beer:152-158 | exactly the 16 bytes of that descriptor |
| VirtqueueMemory.Queue.Publish | lib/virtio.beer:160-173 | the heads are in the ring and the index has advanced by their number; only the ring's bytes change, and they are those of the machine after the driver's accesses |
| VirtqueueMemory.Queue.TakeUsed | lib/virtio.beer:175-185 | the next completion exactly when the device's index differs from the driver's; the machine's driver then holds the same descriptor |
| VirtqueueMemory.Queue.PostAll | lib/virtio_input.beer:84-90 | descriptor i points at event buffer i, device-writable, and all are offered as the machine's first publish does |
| VirtqueueMemory.EventBuffers | lib/virtio_input.beer:84-90 | that descriptor has the eight bytes that are event buffer i, behind the rings and apart from the others, for the device to write |
| VirtqueueMemory.SlotIsStep | lib/virtio.beer:160-173 | the store of one head is one access of the machine's driver, from every state that the bytes hold |
| VirtqueueMemory.IndexIsStep | lib/virtio.beer:167-169 | and so is the store of the index |
| VirtqueueMemory.FreshRings | lib/virtio.beer:130-150 | rings with indices 0 hold a state that every run may start from |
| Lines.Line | lib/gfx.beer:26-42 | from end to end in max(dx, dy) + 1 pixels, one per step of the longer side, each within half a pixel, in every direction |
| Lines.Deviation | lib/gfx.beer:26-42 | the bound as a distance in real numbers along the shorter side, for flat and steep lines |
| Lines.DecisionStep | lib/gfx.beer:65-67 | both updates keep 4d + 1 = 4(x+1)^2 + (2y-1)^2 - 4r^2, and d gives the distance from the circle |
| Lines.Circle | lib/gfx.beer:52-67 | the octant column by column, down to the diagonal, each pixel with its seven reflections; every pixel set is off the circle by abs(x^2 + y^2 - r^2) at most its larger coordinate |
| EditBuffer.NewBufferHolds | packages/beermacs/src/beermacs/buffer.beer:28-34 | tab-free text is kept exactly |
| EditBuffer.TabStops | packages/beermacs/src/beermacs/buffer.beer:16-26 | a tab becomes spaces up to the next multiple of eight, any other character stays |
| EditBuffer.OffsetOrder | packages/beermacs/src/beermacs/buffer.beer:47-49 | places are ordered as their offsets in the flat string |
| EditBuffer.PlaceOf | packages/beermacs/src/beermacs/buffer.beer:40-45 | every offset of the flat string is a place |
| EditBuffer.TextBetweenIsSlice | packages/beermacs/src/beermacs/buffer.beer:67-75 | text-between is the slice of the flat string, in either order |
| EditBuffer.DeleteBetweenRemoves | packages/beermacs/src/beermacs/buffer.beer:77-84 | delete-between removes exactly that slice and leaves point there |
| EditBuffer.InsertSplices | packages/beermacs/src/beermacs/buffer.beer:86-102 | insert splices the text in at point and leaves point after it |
| EditBuffer.ForwardCharMoves | packages/beermacs/src/beermacs/buffer.beer:106-109 | the offset grows by one, or stays at the end |
| EditBuffer.BackwardCharMoves | packages/beermacs/src/beermacs/buffer.beer:111-114 | the offset shrinks by one, or stays at the start |
| EditBuffer.VerticalReturns | packages/beermacs/src/beermacs/buffer.beer:116-122 | down and up comes back, through a shorter line too |
| EditBuffer.VerticalMoves | packages/beermacs/src/beermacs/buffer.beer:116-122 | the line so many rows on, the first or last at most, there the kept column, or the line's end if it is shorter |
| EditBuffer.ForwardWordIs | packages/beermacs/src/beermacs/buffer.beer:138-140 | forward-word stops after the next word of the flat string, across lines |
| EditBuffer.BackwardWordIs | packages/beermacs/src/beermacs/buffer.beer:142-145 | backward-word stops before the word to the left |
| EditBuffer.DeleteCharRemoves | packages/beermacs/src/beermacs/buffer.beer:149-150 | exactly the character at point goes, newlines too |
| EditBuffer.DeleteBackwardCharRemoves | packages/beermacs/src/beermacs/buffer.beer:152-153 | exactly the character before point goes |
| EditBuffer.KilledText | packages/beermacs/src/beermacs/buffer.beer:160-168 | C-k returns and removes the same slice of the flat string |
| EditBuffer.KilledIs | packages/beermacs/src/beermacs/buffer.beer:160-168 | it is the rest of the line, the newline at its end, or nothing at the end |
| EditBuffer.KillThenInsert | packages/beermacs/src/beermacs/buffer.beer:160-168 | inserting what was killed restores the lines |
| EditBuffer.SearchForwardLeast | packages/beermacs/src/beermacs/buffer.beer:172-189 | the least match of the flat string at or after the start, none only if there is none, for a pattern without newlines |
| EditBuffer.MatchesCase | packages/beermacs/src/beermacs/buffer.beer:179-185 | a pattern with a capital is matched exactly, any other without regard to case |
| EditBuffer.SearchMissesNewlines | packages/beermacs/src/beermacs/buffer.beer:179-189 | a pattern with a newline is never found |
| EditBuffer.SearchMissExample | packages/beermacs/src/beermacs/buffer.beer:179-189 | even where the text has it |
| Text.JoinSplit | packages/beermacs/src/beermacs/buffer.beer:28-34 | joining what splitting gave is the text |
| Text.SplitJoin | packages/beermacs/src/beermacs/buffer.beer:28-34 | splitting a join of newline-free lines gives the lines |

## Left out

- Ext2Write.WriteFile: when the data's blocks could be had and the indirect ones could not, or when a new file's entry or contents could not, nothing is said of the file, or of the directory that had to grow, nor of the bitmaps; every other inode is as before.
- Ext2Run.Perform: the same goes for the directory that mkdir!, symlink! or mv! could not grow.
- Ext2Ops.Mkdir: assumes that the parent directory's data stays below 2^32 bytes and that the new name has 1 to 255 bytes and is neither `.` nor `..`.
- Ext2Ops.Rmdir: assumes the same of the name; removing `.` of an empty directory would take its own inode away.
- Ext2Ops.SectorsCount: i_blocks counts no extended attributes, which are not modelled, and is taken modulo 2^32, as its field is.
- Ext2Ops.MakeSymlink: assumes a target no longer than one block.
- Ext2Mv.Mv: assumes of both names, and of the new parent, what Ext2Ops.Mkdir assumes.
- Ext2Alloc.FreeFromOrder: which of the free blocks and inodes a path's file gets is said for the allocators alone, not for the operations on paths.
- Ext2Make.CreateFile: init-inode! and the inode-update! after it are one store of the record, and permissions, owners, times and the extra inode fields are not modelled.
- Ext2Disk.Volume: bitmaps, group counts, superblock totals and inode records are values of their own, kept apart from the byte blocks by a set of metadata block numbers, because no operation mixes them; extended attributes, mount checks, htree directories, the lock, caching and flushing are not modelled.
- Ext2Tree.AddDirKeeps: a directory's link count is taken modulo 2^16, as its field is.
- Gfx.Screen.FillRect: pixels are rows of numbers instead of one flat array, coordinates are unbounded integers where the C code uses 32 and 64 bits, and a blit's bitmap is given as rows of bits.
- Gfx.Screen.SurfaceNew: whether calloc finds memory is an argument.
- Wm.Manager.Open: the terminal, task and channel that a window starts are not modelled, and a frame is an arbitrary list of drawing calls on the window's own surface.
- TermState.ControlSequence: a parameter that is not made of digits counts as absent, because the reader that parses it is not part of this model; scroll regions do not exist in the source.
- Terminal.Emulator.Feed: the queue, the capture streams, the renderer task and the present hook are not modelled; a glyph is any bitmap of the font's size.
- Malloc.Allocator.AlignedAlloc: only for sums that do not wrap; the other case is Malloc.AlignedFits.
- Malloc.Allocator.Malloc: errno and the address where the linker puts the heap are not modelled beyond its 16-byte alignment.
- ConsoleRing.Console.Rx: the interrupt request to the virtual machine is a flag, and the UART itself is not modelled.
- Virtqueue.Always: notification, memory barriers, feature negotiation and the meaning of input events are not modelled; the device is any interleaving that keeps to the rings' rules.
- Lines.Line: pixels are a list of points; those off the screen are dropped by set-pixel!.
- EditBuffer.SearchForwardLeast: case folding is for ASCII letters.
- EditBuffer.KillThenInsert: undo, s-expressions, indentation and goto are left out as easier members.
- The block device drivers, package, archive, server and image libraries, font parsing, line editor, help browser, compiler and virtual machine are not modelled.
