/** The blocks of a deleted file are lost: no operation ever gives one to a file again. */
module Ext2Leak {
  import opened Bits
  import opened Ext2Layout
  import opened Ext2State
  import opened Ext2Inv
  import opened Ext2Steps
  import opened Ext2Records
  import opened Ext2Files
  import opened Ext2Dirs
  import opened Ext2Ops
  import opened Ext2Marks

  /** Block `b` was free. */
  ghost predicate WasFree(fs: Fs, b: nat)
    requires Geometry(fs)
  {
    InGroups(fs, b) && !BlockMarked(fs, b)
  }

  /** Pointers that changed lead to blocks that were free. */
  ghost predicate FreshPointers(fs: Fs, ino: Inode, ino': Inode)
    requires Geometry(fs)
  {
    forall i | 0 <= i < 12 && ino'.block[i] != ino.block[i] :: WasFree(fs, ino'.block[i])
  }

  lemma FreshTransitive(a: Fs, b: Fs, x: Inode, y: Inode, z: Inode)
    requires Grow(a, b) && Same(a, b) && FreshPointers(a, x, y) && FreshPointers(b, y, z)
    ensures FreshPointers(a, x, z)
  {
    hide Geometry, BlockMarked, InGroups;
    SameGroups(a, b);
  }

  lemma ProvideFreshly(fs: Fs, n: nat, ino: Inode, k: nat, needed: nat)
    requires Writing(fs, n, ino, k, needed) && k < needed
    ensures Geometry(fs) && FreshPointers(fs, ino, Provide(fs, n, ino, k, needed).1)
  {
    hide Inv, Geometry, FindFreeBlock, ClearBlocks, WasFree, Allocated;
    WritingParts(fs, n, ino, k, needed);
    AllocatedParts(fs, Holding(n, ino), n);
    if ino.block[k] == 0 {
      TakeFits(fs, n, ino, k, needed);
      FoundFree(fs, GroupOfInode(fs, n));
    }
  }

  lemma FoundFree(fs: Fs, g: nat)
    requires Geometry(fs) && g < GroupCount(fs) && ClearBlocks(fs, g) != {}
    ensures WasFree(fs, FindFreeBlock(fs, g))
  {
    FoundBlock(fs, g);
  }

  /** write_file's loop. */
  lemma {:induction false} WriteBlocksFresh(fs: Fs, n: nat, ino: Inode, data: seq<byte>, k: nat, needed: nat)
    requires Writing(fs, n, ino, k, needed) && needed <= BlocksNeeded(data)
    ensures Geometry(fs) && FreshPointers(fs, ino, WriteBlocks(fs, n, ino, data, k, needed).1)
    decreases needed - k
  {
    hide Provide, KeepsOthers, Holds, Inv, Geometry, Writing, WriteAt, Chunk, Allocated, BlocksNeeded, Grow,
      FreshPointers, SameNumbers, Marks, WriteBlocks;
    WritingParts(fs, n, ino, k, needed);
    if k < needed {
      WriteOne(fs, n, ino, data, k, needed);
      ProvideFreshly(fs, n, ino, k, needed);
      WriteOneTakes(fs, n, ino, data, k, needed);
      var (fs1, ino1) := Provide(fs, n, ino, k, needed);
      var fs2 := WriteAt(fs1, ino1.block[k], Chunk(data, k));
      WriteBlocksStep(fs, n, ino, data, k, needed, fs2, ino1);
      WriteBlocksFresh(fs2, n, ino1, data, k + 1, needed);
      KeptLayout(fs, fs2, n);
      FreshTransitive(fs, fs2, ino, ino1, WriteBlocks(fs2, n, ino1, data, k + 1, needed).1);
    } else {
      WriteBlocksEnd(fs, n, ino, data, needed);
      FreshSame(fs, ino, ino);
    }
  }

  lemma FreshSame(fs: Fs, ino: Inode, ino': Inode)
    requires Geometry(fs) && ino'.block == ino.block
    ensures FreshPointers(fs, ino, ino')
  {
  }

  lemma WriteFresh(fs: Fs, n: nat, data: seq<byte>)
    requires Inv(fs, Clean) && Allocated(fs, n) && |data| < 0x1_0000_0000 && EnoughBlocks(fs, n, data)
    ensures Geometry(fs) && ValidInode(fs, n)
    ensures var fs' := WriteFile(fs, n, data);
      Geometry(fs') && ValidInode(fs', n) && FreshPointers(fs, ReadInode(fs, n), ReadInode(fs', n))
  {
    hide Inv, Geometry, ReadInode, Allocated, WriteFile, WriteBlocks, EnoughBlocks, BlocksNeeded, EditInode, Writing,
      SameBits, FreshPointers, IsMeta;
    AllocatedParts(fs, Clean, n);
    WriteFileIs(fs, n, data);
    var ino, needed := ReadInode(fs, n), BlocksNeeded(data);
    if data == [] || FileType(ino) != REGULAR || needed > 12 {
      FreshSame(fs, ino, ino);
    } else {
      WriteBlocksFresh(fs, n, ino, data, 0, needed);
      var (fs1, ino1) := WriteBlocks(fs, n, ino, data, 0, needed);
      var ino' := ino1.(size := |data|, sectors := needed * 2);
      StoreBits(fs1, n, ino');
      BitsGeometry(fs1, EditInode(fs1, n, ino'));
      FreshAlike(fs, ino, ino1, ino');
    }
  }

  lemma FreshAlike(fs: Fs, ino: Inode, ino1: Inode, ino': Inode)
    requires Geometry(fs) && FreshPointers(fs, ino, ino1) && ino'.block == ino1.block
    ensures FreshPointers(fs, ino, ino')
  {
    hide Geometry, WasFree;
  }

  // ------------------------------------------------------------------ directories

  lemma PutFresh(fs: Fs, parent: nat, k: nat, buf: Block, end: nat)
    requires Inv(fs, Clean) && Allocated(fs, parent) && k < 12 && ReadInode(fs, parent).block[k] != 0
    ensures var fs' := PutEntry(fs, parent, k, buf, end);
      && Geometry(fs) && ValidInode(fs, parent) && Geometry(fs') && ValidInode(fs', parent)
      && FreshPointers(fs, ReadInode(fs, parent), ReadInode(fs', parent))
  {
    hide Inv, Geometry, ReadInode, Allocated, WriteAt, EditInode, KeepsOthers, PutEntry, FreshPointers,
      DataKept, SameBits;
    AllocatedParts(fs, Clean, parent);
    var ino := ReadInode(fs, parent);
    PutKeeps(fs, parent, k, buf);
    PutParts(fs, parent, k, buf, end);
    if end > ino.size {
      var fs1 := WriteAt(fs, ino.block[k], buf);
      Hold(fs1, parent, ino.(size := U32(end)));
      Store(fs1, parent, ino.(size := U32(end)));
      BitsGeometry(fs1, EditInode(fs1, parent, ino.(size := U32(end))));
    }
    FreshSame(fs, ino, ReadInode(PutEntry(fs, parent, k, buf, end), parent));
  }

  lemma ExtendFresh(fs: Fs, parent: nat, k: nat, e: Record)
    requires Inv(fs, Clean) && Allocated(fs, parent) && k < 12 && ReadInode(fs, parent).block[k] == 0
    requires ClearBlocks(fs, GroupOfInode(fs, parent)) != {}
    ensures var fs' := ExtendDir(fs, parent, k, e);
      && Geometry(fs) && ValidInode(fs, parent) && Geometry(fs') && ValidInode(fs', parent)
      && FreshPointers(fs, ReadInode(fs, parent), ReadInode(fs', parent))
  {
    hide Inv, Geometry, ReadInode, Allocated, WriteAt, EditInode, KeepsOthers, ExtendDir, DataKept, SameBits,
      FindFreeBlock, SetBlockBit, BlockTaken, FreshBlock, ClearBlocks, WasFree;
    AllocatedParts(fs, Clean, parent);
    var g := GroupOfInode(fs, parent);
    ExtendTakes(fs, parent, k, e);
    ExtendParts(fs, parent, k, e);
    FoundFree(fs, g);
    var b := FindFreeBlock(fs, g);
    var fs2, ino' := WriteAt(SetBlockBit(fs, g, b, true), b, FreshBlock(e)), Grown(ReadInode(fs, parent), k, U32(b));
    AllocatedParts(fs2, Holding(parent, ino'), parent);
    Store(fs2, parent, ino');
    BitsGeometry(fs2, EditInode(fs2, parent, ino'));
  }

  lemma AddFresh(fs: Fs, parent: nat, e: Record)
    requires Inv(fs, Clean) && Allocated(fs, parent) && CanAdd(fs, parent, e)
    ensures var fs' := AddEntry(fs, parent, e);
      && Geometry(fs) && ValidInode(fs, parent) && Geometry(fs') && ValidInode(fs', parent)
      && FreshPointers(fs, ReadInode(fs, parent), ReadInode(fs', parent))
  {
    hide Inv, Geometry, ReadInode, Allocated, ClearBlocks, Search, DirSearchable, ExtendDir, PutEntry, FreshPointers;
    AllocatedParts(fs, Clean, parent);
    FreshSame(fs, ReadInode(fs, parent), ReadInode(fs, parent));
    if FileType(ReadInode(fs, parent)) == DIRECTORY {
      match Search(fs.disk, ReadInode(fs, parent), e, 0)
      case Full =>
      case Put(k, buf, end) => PutFresh(fs, parent, k, buf, end);
      case Extend(k, e') => ExtendFresh(fs, parent, k, e');
    }
  }

  lemma CreateFresh(fs: Fs, parent: nat, filename: seq<byte>)
    requires Inv(fs, Clean) && Allocated(fs, parent) && CanCreate(fs, parent, filename)
    ensures var fs' := CreateFile(fs, parent, filename);
      && Geometry(fs) && ValidInode(fs, parent) && Geometry(fs') && ValidInode(fs', parent)
      && FreshPointers(fs, ReadInode(fs, parent), ReadInode(fs', parent))
  {
    hide Inv, Geometry, ReadInode, Allocated, ClearBlocks, ClearInodes, FindFreeInode, CreateFile, WithInode, CanAdd,
      AddEntry, SameDirectory, FreshPointers, Marks, KeepsOthers, WasFree;
    AllocatedParts(fs, Clean, parent);
    CreateUnfolds(fs, parent, filename);
    WithInodeKeeps(fs, parent);
    WithInodeMarks(fs, parent);
    var fs2 := WithInode(fs, parent);
    AddFresh(fs2, parent, NewEntry(U32(FindFreeInode(fs, GroupOfInode(fs, parent))), filename));
    KeptLayout(fs, fs2, 0);
    MarksGrow(fs, fs2, {});
    var ino := ReadInode(fs, parent);
    FreshSame(fs, ino, ino);
    FreshTransitive(fs, fs2, ino, ino, ReadInode(CreateFile(fs, parent, filename), parent));
  }

  // ------------------------------------------------------------------ runs

  /** Block `b` is marked used, and no file refers to it. */
  ghost predicate Leaked(fs: Fs, b: nat) {
    && Geometry(fs) && InGroups(fs, b) && BlockMarked(fs, b)
    && forall m, i :: !Refers(fs, Clean, m, i, b)
  }

  /** Whatever inode an operation is given, it points it at free blocks only. */
  lemma TargetFresh(fs: Fs, op: Operation)
    requires Inv(fs, Clean) && Asks(fs, op) && !op.Delete?
    ensures Geometry(fs) && ValidInode(fs, Target(op))
    ensures Geometry(Apply(fs, op)) && ValidInode(Apply(fs, op), Target(op))
    ensures FreshPointers(fs, ReadInode(fs, Target(op)), ReadInode(Apply(fs, op), Target(op)))
  {
    hide Inv, Geometry, ReadInode, Allocated, CreateFile, WriteFile, AddEntry, EnoughBlocks, CanAdd, CanCreate,
      FreshPointers;
    match op
    case Create(p, name) => CreateFresh(fs, p, name);
    case Write(n, data) => WriteFresh(fs, n, data);
    case Add(p, e) => AddFresh(fs, p, e);
  }

  /** A file referring to a block after an operation did so before, or the block was free. */
  lemma RefersBack(fs: Fs, op: Operation, m: nat, i: nat, b: nat)
    requires Inv(fs, Clean) && Asks(fs, op) && Inv(Apply(fs, op), Clean) && Refers(Apply(fs, op), Clean, m, i, b)
    ensures Refers(fs, Clean, m, i, b) || WasFree(fs, b)
  {
    hide Inv, Geometry, ReadInode, Allocated, Apply, Asks, ClearInodes, FindFreeInode, WasFree, Grow;
    var fs' := Apply(fs, op);
    ApplyNumbers(fs, op);
    ApplyKeeps(fs, op);
    if Allocated(fs, m) && m != Target(op) {
      KeptAllocated(fs, fs', Target(op), m);
    } else if Allocated(fs, m) {
      TargetFresh(fs, op);
    } else {
      NewIsEmpty(fs, op, m);
    }
  }

  lemma NewIsEmpty(fs: Fs, op: Operation, m: nat)
    requires Inv(fs, Clean) && Asks(fs, op) && !Allocated(fs, m)
    requires Inv(Apply(fs, op), Clean) && Allocated(Apply(fs, op), m)
    ensures forall i | 0 <= i < 12 :: ReadInode(Apply(fs, op), m).block[i] == 0
  {
    hide Inv, Geometry, ReadInode, Allocated, ClearInodes, FindFreeInode, CreateFile, CanCreate, Grow, AddEntry,
      WriteFile, DeleteFile, KeepsOthers;
    ApplyNumbers(fs, op);
    if op.Create? { CreateFileKeeps(fs, op.parent, op.filename); }
  }

  lemma StepLeaks(fs: Fs, op: Operation, fs': Fs, b: nat)
    requires Inv(fs, Clean) && Step(fs, op, fs') && Leaked(fs, b)
    ensures Inv(fs', Clean) && Leaked(fs', b)
  {
    hide Inv, Geometry, Asks, Apply, BlockMarked, InGroups, Refers;
    StepGrows(fs, op, fs');
    forall m, i ensures !Refers(fs', Clean, m, i, b) {
      if Refers(fs', Clean, m, i, b) { RefersBack(fs, op, m, i, b); }
    }
  }

  /** A block no file refers to though it is marked is lost: no run of operations frees it or gives
      it to a file. */
  lemma {:induction false} RunsLeak(trace: seq<Fs>, ops: seq<Operation>, j: nat, k: nat, b: nat)
    requires IsRun(trace, ops) && j <= k < |trace| && Inv(trace[j], Clean) && Leaked(trace[j], b)
    ensures Inv(trace[k], Clean) && Leaked(trace[k], b)
  {
    hide Inv, Step, Leaked;
    if j < k {
      RunsLeak(trace, ops, j, k - 1, b);
      StepLeaks(trace[k - 1], ops[k - 1], trace[k], b);
    }
  }

  /** delete_file leaves every block of the file so. */
  lemma DeletedLeaks(fs: Fs, n: nat, i: nat)
    requires Inv(fs, Clean) && Allocated(fs, n) && i < 12 && ReadInode(fs, n).block[i] != 0
    ensures Inv(DeleteFile(fs, n), Clean) && Leaked(DeleteFile(fs, n), ReadInode(fs, n).block[i])
  {
    hide Inv, Geometry, ReadInode, Allocated, BlockMarked, InGroups, DeleteFile, KeepsOthers;
    AllocatedParts(fs, Clean, n);
    var fs', b := DeleteFile(fs, n), ReadInode(fs, n).block[i];
    DeleteFileKeeps(fs, n);
    InvParts(fs', Clean);
    FilesApart(fs, n, i, n, i);
    forall m, j ensures !Refers(fs', Clean, m, j, b) {
      if Refers(fs', Clean, m, j, b) {
        RefersBack(fs, Delete(n), m, j, b);
        FilesApart(fs, n, i, m, j);
      }
    }
  }

  /** So the blocks of a deleted file are marked and nobody's in every later state. */
  lemma DeletedForGood(trace: seq<Fs>, ops: seq<Operation>, j: nat, k: nat, n: nat, i: nat)
    requires IsRun(trace, ops) && j < k < |trace| && Inv(trace[j], Clean) && ops[j] == Delete(n)
    requires Allocated(trace[j], n) && i < 12 && ReadInode(trace[j], n).block[i] != 0
    ensures Inv(trace[k], Clean) && Leaked(trace[k], ReadInode(trace[j], n).block[i])
  {
    hide Inv, Geometry, ReadInode, Allocated, Leaked, DeleteFile;
    assert Step(trace[j], ops[j], trace[j + 1]);
    AllocatedParts(trace[j], Clean, n);
    DeletedLeaks(trace[j], n, i);
    RunsLeak(trace, ops, j + 1, k, ReadInode(trace[j], n).block[i]);
  }
}
