/** Writing through the VFS: the write lock shared by all open files of a VFS, switching writes on and
    off while transactions run, and the dirty pages in between, kept in buffer files that the open files
    of a VFS may share. */
module VfsWriter {
  import opened Ltx
  import opened Wal
  import opened WriteBuffer

  type LockType = x: nat | x <= 4

  const LOCK_NONE: LockType := 0
  const LOCK_SHARED: LockType := 1
  const LOCK_RESERVED: LockType := 2

  /** A level-0 file written by a VFS. */
  datatype Upload = Upload(txid: TXID, commit: nat, pages: map<nat, Bytes>)

  datatype LockResult = Locked | InvalidDowngrade | WaitingForDisable | LockReadOnly | Busy

  /** What a sync meets: the largest transaction listed remotely, none if listing fails, and which
      later step fails. */
  datatype Remote = Remote(txid: Option<TXID>, uploadFails: bool, readBackFails: bool, truncateFails: bool)

  datatype SyncStatus = SyncOk | ListFailed | Conflict | UploadFailed | ReadBackFailed | ClearFailed

  /** How far a sync of dirty pages gets; the upload needs all of them. */
  function Judged(remote: Remote, expected: TXID, readable: bool): SyncStatus {
    if remote.txid.None? then ListFailed
    else if remote.txid.value > expected then Conflict
    else if remote.uploadFails || !readable then UploadFailed
    else if remote.readBackFails then ReadBackFailed
    else if remote.truncateFails then ClearFailed
    else SyncOk
  }

  predicate Uploads(dirty: map<nat, nat>, r: SyncStatus) {
    dirty != map[] && (r == SyncOk || r == ReadBackFailed || r == ClearFailed)
  }

  /** Up to len bytes of a page from an offset on. */
  function Part(page: Bytes, off: nat, len: nat): (r: Bytes)
    requires off <= |page|
    ensures |r| == Smaller(len, |page| - off) && forall i :: 0 <= i < |r| ==> r[i] == page[off + i]
  {
    page[off..][..if |page| - off < len then |page| - off else len]
  }

  class VFS {
    const configured: bool          // whether a path for the buffer file is configured
    var writeSeq: nat
    var writeFile: VFSFile?
    var lastSyncedTXID: TXID
    var uploads: seq<Upload>
    var disk: Disk                  // the buffer files
    ghost var files: set<VFSFile>

    constructor (configured: bool)
      ensures Sound() && files == {} && writeFile == null && uploads == [] && this.configured == configured && disk == Disk([], map[]) && writeSeq == 0
    {
      this.configured := configured;
      writeSeq := 0;
      writeFile := null;
      lastSyncedTXID := 0;
      uploads := [];
      disk := Disk([], map[]);
      files := {};
    }

    /** Whichever open file is in a transaction is the one recorded as writing. */
    ghost predicate Valid()
      reads this`files, this`writeFile, files`isOpen, files`inTransaction, files`writeEnabled
    {
      forall f :: f in files ==> f.vfs == this && (f.inTransaction ==> f.writeEnabled) && (f.Writing() ==> writeFile == f)
    }

    ghost predicate Sound()
      reads this`files, this`writeFile, this`disk, files
    {
      Valid() && disk.Valid() && forall f :: f in files ==> f.Sound(|disk.files|)
    }

    /** The buffer path of a file opened for writing. */
    function WarmPath(n: nat): BufferPath {
      if configured && n == 1 then Configured else Numbered(n)
    }

    /** The buffer path of any file whose writes are enabled later. */
    function ColdPath(): BufferPath {
      if configured then Configured else Cold
    }

    /** The buffer files that g has open, and the paths it may still open. */
    ghost function HeldBy(g: VFSFile): set<nat>
      reads g`isOpen, g`bufferFile
    {
      HeldIf(g.isOpen, g.bufferFile)
    }

    ghost function PathsOf(g: VFSFile): set<BufferPath>
      reads g`isOpen, g`bufferFile
    {
      PathIf(g.isOpen, g.bufferFile, ColdPath())
    }

    /** No other open file has the buffer file of f, or takes it when its writes are enabled. */
    ghost predicate Alone(f: VFSFile)
      reads this`disk, this`files, f`bufferFile, files`isOpen, files`bufferFile
    {
      f.bufferFile.Some? && forall g :: g in files && g != f ==> OutOfReach(disk, HeldBy(g), PathsOf(g), f.bufferFile.value)
    }

    ghost function OthersHold(f: VFSFile): set<nat>
      reads this`files, files`isOpen, files`bufferFile
    {
      set g | g in files && g != f && g.isOpen && g.bufferFile.Some? :: g.bufferFile.value
    }

    ghost function OthersPaths(f: VFSFile): set<BufferPath>
      reads this`files, files`isOpen, files`bufferFile
    {
      if exists g :: g in files && g != f && g.isOpen && g.bufferFile.None? then {ColdPath()} else {}
    }

    /** Whatever the other files do, the buffer file of f stays as it is. */
    ghost predicate Safe(f: VFSFile)
      requires f.bufferFile.Some?
      reads this`disk, this`files, f`bufferFile, files`isOpen, files`bufferFile
    {
      forall d :: CanBecome(disk, OthersHold(f), OthersPaths(f), d) ==> SameFile(disk, d, f.bufferFile.value)
    }

    /** A buffer file with something in it is safe from the others if and only if no other open file has it,
        or takes it when its writes are enabled. */
    lemma SafeIffAlone(f: VFSFile)
      requires Sound() && f in files && f.bufferFile.Some? && f.Buffer() != []
      ensures Safe(f) <==> Alone(f)
    {
      var k := f.bufferFile.value;
      KeptIffOutOfReach(disk, OthersHold(f), OthersPaths(f), k);
      forall g | g in files && g != f
        ensures OutOfReach(disk, OthersHold(f), OthersPaths(f), k) ==> OutOfReach(disk, HeldBy(g), PathsOf(g), k)
      {
        assert g.isOpen && g.bufferFile.Some? ==> g.bufferFile.value in OthersHold(f);
      }
      if Alone(f) {
        forall g | g in files && g != f && g.isOpen && g.bufferFile.Some?
          ensures g.bufferFile.value != k
        {
          assert OutOfReach(disk, HeldBy(g), PathsOf(g), k);
        }
        if g :| g in files && g != f && g.isOpen && g.bufferFile.None? {
          assert OutOfReach(disk, HeldBy(g), PathsOf(g), k) && ColdPath() in PathsOf(g);
        }
      }
    }

    /** One file has changed, and what it changed is sound. */
    lemma SoundAfter(f: VFSFile, n: nat)
      requires f in files && f.vfs == this && f.Whole() && n <= |disk.files| && forall g :: g in files && g != f ==> g.Sound(n)
      ensures Sound()
    {
      forall g | g in files
        ensures g.Sound(|disk.files|)
      {
        assert g != f ==> g.Sound(n) && g.vfs == this;
      }
    }

    /** Opens another database file; for writing, with a new buffer file. */
    method Open(pageSize: nat, lockPgno: nat, txid: TXID, commit: nat, writeEnabled: bool) returns (f: VFSFile)
      requires Sound() && pageSize > 0
      modifies this`files, this`lastSyncedTXID, this`writeSeq, this`disk
      ensures Sound() && fresh(f) && files == old(files) + {f}
      ensures f.New(pageSize, lockPgno, txid, commit, writeEnabled)
      ensures lastSyncedTXID == if writeEnabled then Larger(txid, old(lastSyncedTXID)) else old(lastSyncedTXID)
      ensures writeSeq == old(writeSeq) + if writeEnabled then 1 else 0
      ensures if writeEnabled then f.bufferFile == Some(old(disk).At(WarmPath(writeSeq))) && disk == old(disk).Create(WarmPath(writeSeq))
              else f.bufferFile == None && disk == old(disk)
    {
      if writeEnabled {
        f := OpenWriter(pageSize, lockPgno, txid, commit);
      } else {
        f := OpenReader(pageSize, lockPgno, txid, commit);
      }
    }

    method OpenWriter(pageSize: nat, lockPgno: nat, txid: TXID, commit: nat) returns (f: VFSFile)
      requires Sound() && pageSize > 0
      modifies this`files, this`lastSyncedTXID, this`writeSeq, this`disk
      ensures Sound() && fresh(f) && files == old(files) + {f} && f.New(pageSize, lockPgno, txid, commit, true)
      ensures lastSyncedTXID == Larger(txid, old(lastSyncedTXID)) && writeSeq == old(writeSeq) + 1
      ensures f.bufferFile == Some(old(disk).At(WarmPath(writeSeq))) && disk == old(disk).Create(WarmPath(writeSeq))
    {
      f := OpenReader(pageSize, lockPgno, txid, commit);
      writeSeq := writeSeq + 1;
      StartWriting(f);
      if f.expectedTXID > lastSyncedTXID {
        lastSyncedTXID := f.expectedTXID;
      }
    }

    lemma NextPathIsNew(n: nat)
      requires Sound() && Separate() && n == writeSeq + 1
      ensures SeparateBut(files, disk, n)
    {
    }

    method OpenReader(pageSize: nat, lockPgno: nat, txid: TXID, commit: nat) returns (f: VFSFile)
      requires Sound() && pageSize > 0
      modifies this`files
      ensures Sound() && fresh(f) && files == old(files) + {f} && f.New(pageSize, lockPgno, txid, commit, false)
      ensures f.bufferPath == None && f.bufferFile == None
    {
      f := new VFSFile(this, pageSize, lockPgno, txid, commit);
      files := files + {f};
    }

    /** The file that was just opened gets a buffer file, and may write. */
    method StartWriting(f: VFSFile)
      requires Sound() && f in files && writeSeq > 0
      requires f.New(f.pageSize, f.lockPgno, f.expectedTXID, f.commit, false)
      modifies this`disk, f`bufferPath, f`bufferFile, f`bufferNextOff, f`writeEnabled, f`pendingTXID
      ensures Sound() && f.New(f.pageSize, f.lockPgno, f.expectedTXID, f.commit, true)
      ensures f.bufferFile == Some(old(disk).At(WarmPath(writeSeq))) && disk == old(disk).Create(WarmPath(writeSeq))
    {
      ghost var n := |disk.files|;
      f.InitWriteBuffer(WarmPath(writeSeq));
      f.pendingTXID := f.expectedTXID + 1;
      f.writeEnabled := true;
      SoundAfter(f, n);
    }

    /** A file opened for writing has a buffer file of its own, if all files opened before have. */
    method OpenSeparate(pageSize: nat, lockPgno: nat, txid: TXID, commit: nat) returns (f: VFSFile)
      requires Sound() && pageSize > 0
      modifies this`files, this`lastSyncedTXID, this`writeSeq, this`disk
      ensures Sound() && fresh(f) && files == old(files) + {f}
      ensures old(Separate()) ==> Separate()
    {
      ghost var others, separate, d, n := files, Separate(), disk, writeSeq + 1;
      if separate {
        NextPathIsNew(n);
      }
      f := Open(pageSize, lockPgno, txid, commit, true);
      if separate {
        SeparateWith(f, others, d);
      }
    }

    /** The files opened before the last one have buffer files of their own, and none is at its path. */
    ghost predicate SeparateBut(others: set<VFSFile>, d: Disk, n: nat)
      reads others`bufferFile
    {
      && (forall g :: g in others ==> g.bufferFile.Some? && g.bufferFile.value < |d.files|)
      && (forall g, h :: g in others && h in others && g != h ==> g.bufferFile != h.bufferFile)
      && forall p :: p in d.names ==> PathUsed(p, n) && p != WarmPath(n)
    }

    /** The path of a newly opened file was not used before, so its buffer file is a new one. */
    lemma SeparateWith(f: VFSFile, others: set<VFSFile>, d: Disk)
      requires files == others + {f} && writeSeq > 0 && d.Valid() && SeparateBut(others, d, writeSeq)
      requires f.bufferFile == Some(d.At(WarmPath(writeSeq))) && disk == d.Create(WarmPath(writeSeq))
      ensures Separate()
    {
    }

    /** Every file has a buffer file of its own, from a path that was not used before. */
    ghost predicate Separate()
      reads this`disk, this`files, this`writeSeq, files`bufferFile
    {
      && (forall f :: f in files ==> f.bufferFile.Some?)
      && (forall f, g :: f in files && g in files && f != g ==> f.bufferFile != g.bufferFile)
      && forall p :: p in disk.names ==> PathUsed(p, writeSeq)
    }

    /** The path belongs to one of the files opened so far. */
    predicate PathUsed(p: BufferPath, upTo: nat) {
      match p
      case Configured => configured && 1 <= upTo
      case Numbered(n) => n <= upTo
      case Cold => false
    }

    lemma SeparateIsAlone()
      requires Sound() && Separate()
      ensures forall f :: f in files ==> Alone(f)
    {
    }

    /** Others act, on this and on other files. */
    method Perform(ops: seq<Op>, ghost waiting: VFSFile)
      requires Sound() && OpsIn(ops, files) && waiting in files
      modifies this, files
      ensures Sound() && files == old(files)
      ensures old(waiting.Blocked()) && (forall i :: 0 <= i < |ops| ==> ops[i].f != waiting || Holds(ops[i].step)) ==> waiting.Blocked()
      ensures old(Alone(waiting)) && (forall i :: 0 <= i < |ops| ==> ops[i].f != waiting) ==>
                Alone(waiting) && (old(waiting.Readable()) ==> waiting.Readable() && waiting.Pages() == old(waiting.Pages()))
    {
      ghost var own := Alone(waiting);
      ghost var d := disk;
      for i := 0 to |ops|
        invariant Sound() && files == old(files)
        invariant old(waiting.Blocked()) && (forall k :: 0 <= k < i ==> ops[k].f != waiting || Holds(ops[k].step)) ==> waiting.Blocked()
        invariant own && (forall k :: 0 <= k < i ==> ops[k].f != waiting) ==>
                    && Alone(waiting) && waiting.dirty == old(waiting.dirty) && waiting.bufferFile == old(waiting.bufferFile)
                    && SameFile(d, disk, waiting.bufferFile.value)
      {
        PerformOne(ops[i].f, ops[i].step);
      }
    }

    /** What f does to the buffer files is what it may do with its own. A file that is alone with its buffer
        stays so, and the buffer stays as it is. */
    method PerformOne(f: VFSFile, step: Step)
      requires Sound() && f in files
      modifies this`writeFile, this`lastSyncedTXID, this`uploads, this`disk, f
      ensures Sound()
      ensures old(f.Blocked()) && Holds(step) ==> f.Blocked()
      ensures CanBecome(old(disk), old(HeldBy(f)), old(PathsOf(f)), disk)
      ensures forall g :: g in files && g != f && old(Alone(g)) ==> Alone(g) && SameFile(old(disk), disk, g.bufferFile.value)
      ensures Stepped(old(disk), old(f.isOpen), old(f.bufferFile), ColdPath(), disk, f.bufferFile)
      ensures old(Separate()) ==> Separate()
    {
      ghost var d, open, k := disk, f.isOpen, f.bufferFile;
      Act(f, step);
      SteppedIsValid(d, open, k, ColdPath(), disk, f.bufferFile);
      SoundAfter(f, |d.files|);
      SteppedUses(d, open, k, ColdPath(), disk, f.bufferFile);
      forall g | g in files && g != f && old(Alone(g))
        ensures Alone(g) && SameFile(d, disk, g.bufferFile.value)
      {
        AloneKept(f, g, d, open, k);
      }
    }

    /** What was out of reach of everyone else still is after a step of f. */
    lemma AloneKept(f: VFSFile, g: VFSFile, d: Disk, open: bool, k: Option<nat>)
      requires f in files && g in files && f != g && d.Valid() && g.bufferFile.Some? && (k.Some? ==> k.value < |d.files|)
      requires Stepped(d, open, k, ColdPath(), disk, f.bufferFile) && (f.isOpen ==> open)
      requires OutOfReach(d, HeldIf(open, k), PathIf(open, k, ColdPath()), g.bufferFile.value)
      requires forall h :: h in files && h != g && h != f ==> OutOfReach(d, HeldBy(h), PathsOf(h), g.bufferFile.value)
      ensures Alone(g) && SameFile(d, disk, g.bufferFile.value)
    {
      SteppedKeeps(d, open, k, ColdPath(), disk, f.bufferFile, f.isOpen, g.bufferFile.value);
      forall h | h in files && h != g
        ensures OutOfReach(disk, HeldBy(h), PathsOf(h), g.bufferFile.value)
      {
        if h != f {
          SteppedKeepsOthers(d, open, k, ColdPath(), disk, f.bufferFile, HeldBy(h), PathsOf(h), g.bufferFile.value);
        }
      }
    }

    method Act(f: VFSFile, step: Step)
      requires f.Whole() && f.vfs == this
      modifies this`writeFile, this`lastSyncedTXID, this`uploads, this`disk, f
      ensures f.Whole() && (f.isOpen ==> old(f.isOpen))
      ensures old(f.Blocked()) && Holds(step) ==> f.Blocked()
      ensures Stepped(old(disk), old(f.isOpen), old(f.bufferFile), ColdPath(), disk, f.bufferFile)
    {
      match step
      case StepLock(_) =>
        ActOnLock(f, step);
      case StepUnlock(_) =>
        ActOnLock(f, step);
      case StepClose(remote) =>
        f.Close(remote);
      case StepEnable(txid, initFails) =>
        if f.isOpen {
          var r := f.EnableWrites(txid, initFails);
        }
      case StepDisable(remote) =>
        var r, last := f.DisableNow(remote);
      case StepGiveUp =>
        f.GiveUp();
      case _ =>
        Write(f, step);
    }

    method ActOnLock(f: VFSFile, step: Step)
      requires f.Whole() && f.vfs == this
      modifies this`writeFile, f`lockType, f`inTransaction, f`expectedTXID, f`pendingTXID
      ensures f.Whole() && (old(f.Blocked()) && Holds(step) ==> f.Blocked())
    {
      match step {
        case StepLock(elock) =>
          var r := f.Lock(elock);
        case StepUnlock(elock) =>
          var ok := f.Unlock(elock);
        case _ =>
      }
    }

    method Write(f: VFSFile, step: Step)
      requires f.Whole() && f.vfs == this
      modifies this`uploads, this`lastSyncedTXID, this`disk, f`commit, f`bufferNextOff, f`dirty, f`expectedTXID, f`pendingTXID
      ensures f.Whole()
      ensures Stepped(old(disk), old(f.isOpen), old(f.bufferFile), ColdPath(), disk, f.bufferFile)
      ensures uploads == old(uploads) + if step.StepSync? && !f.inTransaction then old(f.LastUpload(step.remote)) else []
    {
      match step {
        case StepWrite(b, off, clean, fails) =>
          if clean.Some? ==> |clean.value| == f.pageSize {
            var n := f.WriteAt(b, off, clean, fails);
          }
        case StepTruncate(size) =>
          var ok := f.Truncate(size);
        case StepSync(remote) =>
          if !f.inTransaction {
            ghost var d := disk;
            f.SyncDirty(remote);
            EmptiedAndRemoved(d, if f.isOpen then f.bufferFile else None, disk, disk);
          }
        case _ =>
      }
    }
  }

  class VFSFile {
    const vfs: VFS
    const pageSize: nat
    const lockPgno: nat
    var isOpen: bool
    var lockType: LockType
    var inTransaction: bool
    var writeEnabled: bool
    var disabling: bool
    var expectedTXID: TXID
    var pendingTXID: TXID
    var commit: nat
    var bufferPath: Option<BufferPath>
    var bufferFile: Option<nat>
    var bufferNextOff: nat
    var dirty: map<nat, nat>

    ghost predicate Writing()
      reads this`isOpen, this`inTransaction
    {
      isOpen && inTransaction
    }

    /** Dirty pages lie inside the database and have slots of their own. */
    ghost predicate Consistent()
      reads this`commit, this`bufferNextOff, this`dirty
    {
      && pageSize > 0 && Slots(dirty, bufferNextOff, pageSize)
      && lockPgno !in dirty && forall p :: p in dirty ==> 1 <= p <= commit
    }

    /** There is a buffer file where one is needed, and it is one of n. */
    ghost predicate Buffered(n: nat)
      reads this`writeEnabled, this`dirty, this`bufferPath, this`bufferFile
    {
      && (writeEnabled || dirty != map[] ==> bufferFile.Some?)
      && (if bufferFile.Some? then bufferFile.value < n && bufferPath.Some?
          else bufferPath.None? || bufferPath == Some(vfs.ColdPath()))
    }

    /** The next transaction is the one after the last, once there is one. */
    ghost predicate Numbered()
      reads this`writeEnabled, this`expectedTXID, this`pendingTXID
    {
      (pendingTXID == 0 || pendingTXID == expectedTXID + 1) && (writeEnabled ==> pendingTXID > 0)
    }

    ghost predicate Sound(n: nat)
      reads this
    {
      Consistent() && Buffered(n) && Numbered() && (writeEnabled || dirty == map[])
    }

    /** A file in a transaction that is to be disabled: it can neither raise its lock nor, without
        unlocking, end its transaction. */
    ghost predicate Blocked()
      reads this`inTransaction, this`lockType, this`disabling
    {
      inTransaction && lockType >= LOCK_RESERVED && disabling
    }

    /** As a file is when it has just been opened. */
    ghost predicate New(pageSize: nat, lockPgno: nat, txid: TXID, commit: nat, writeEnabled: bool)
      reads this
    {
      && this.pageSize == pageSize && this.lockPgno == lockPgno && this.commit == commit && expectedTXID == txid
      && isOpen && !inTransaction && !disabling && this.writeEnabled == writeEnabled && dirty == map[] && lockType == LOCK_NONE
      && pendingTXID == if writeEnabled then txid + 1 else 0
    }

    /** This file is sound, and a file of its VFS. */
    ghost predicate Whole()
      reads this, vfs`files, vfs`writeFile, vfs`disk, vfs.files`isOpen, vfs.files`inTransaction, vfs.files`writeEnabled
    {
      this in vfs.files && vfs.Valid() && vfs.disk.Valid() && Sound(|vfs.disk.files|)
    }

    /** What is in the buffer file. */
    function Buffer(): Bytes
      requires bufferFile.Some? ==> bufferFile.value < |vfs.disk.files|
      reads this`bufferFile, vfs`disk
    {
      if bufferFile.Some? then vfs.disk.files[bufferFile.value] else []
    }

    /** All dirty pages can be read back. */
    predicate Readable()
      requires bufferFile.Some? ==> bufferFile.value < |vfs.disk.files|
      reads this`bufferFile, this`dirty, vfs`disk
    {
      Fits(dirty, |Buffer()|, pageSize)
    }

    /** The dirty pages. */
    ghost function Pages(): map<nat, Bytes>
      requires (bufferFile.Some? ==> bufferFile.value < |vfs.disk.files|) && Readable()
      reads this`bufferFile, this`dirty, vfs`disk
    {
      Overlay(dirty, Buffer(), pageSize)
    }

    constructor (vfs: VFS, pageSize: nat, lockPgno: nat, txid: TXID, commit: nat)
      requires pageSize > 0
      ensures this.vfs == vfs && this.pageSize == pageSize && this.lockPgno == lockPgno && Consistent() && Numbered()
      ensures New(pageSize, lockPgno, txid, commit, false) && bufferPath == None && bufferFile == None
    {
      this.vfs, this.pageSize, this.lockPgno := vfs, pageSize, lockPgno;
      isOpen, lockType, inTransaction, writeEnabled, disabling := true, LOCK_NONE, false, false, false;
      expectedTXID, pendingTXID := txid, 0;
      this.commit, bufferPath, bufferFile, bufferNextOff, dirty := commit, None, None, 0, map[];
    }

    /** Opens the buffer file at a path, and empties it, whoever else has it open. */
    method InitWriteBuffer(path: BufferPath)
      requires vfs.disk.Valid() && Consistent() && dirty == map[]
      modifies this`bufferPath, this`bufferFile, this`bufferNextOff, vfs`disk
      ensures vfs.disk == old(vfs.disk).Create(path) && vfs.disk.Valid()
      ensures bufferPath == Some(path) && bufferFile == Some(old(vfs.disk).At(path)) && bufferNextOff == 0 && Consistent()
      ensures |old(vfs.disk).files| <= |vfs.disk.files| && bufferFile.value < |vfs.disk.files|
    {
      bufferPath, bufferFile, bufferNextOff := Some(path), Some(vfs.disk.At(path)), 0;
      vfs.disk := vfs.disk.Create(path);
    }

    // -------------------------------------------------------------------------------------
    // Locking

    method Lock(elock: LockType) returns (r: LockResult)
      requires vfs.Valid() && this in vfs.files && Numbered()
      modifies this`lockType, this`inTransaction, this`expectedTXID, this`pendingTXID, vfs`writeFile
      ensures vfs.Valid() && Numbered()
      ensures r == Locked ==> lockType == elock && (elock >= LOCK_RESERVED ==> inTransaction && (isOpen ==> vfs.writeFile == this))
      ensures r == Locked && elock < LOCK_RESERVED ==> inTransaction == old(inTransaction) && vfs.writeFile == old(vfs.writeFile)
      ensures r != Locked ==> lockType == old(lockType) && inTransaction == old(inTransaction) && vfs.writeFile == old(vfs.writeFile)
      ensures old(Blocked()) ==> r != Locked
      ensures r == InvalidDowngrade <==> elock < old(lockType)
      ensures r == WaitingForDisable <==> elock >= old(lockType) && elock >= LOCK_RESERVED && disabling
      ensures r == LockReadOnly <==> elock >= old(lockType) && elock >= LOCK_RESERVED && !disabling && !writeEnabled
      ensures r == Busy <==> elock >= old(lockType) && elock >= LOCK_RESERVED && !disabling && writeEnabled && !old(inTransaction)
                             && old(vfs.writeFile) != null && old(vfs.writeFile) != this
      ensures if r == Locked && !old(inTransaction) && inTransaction && dirty == map[] && vfs.lastSyncedTXID > old(expectedTXID)
              then expectedTXID == vfs.lastSyncedTXID && pendingTXID == vfs.lastSyncedTXID + 1
              else expectedTXID == old(expectedTXID) && pendingTXID == old(pendingTXID)
    {
      if elock < lockType {
        return InvalidDowngrade;
      }
      if elock >= LOCK_RESERVED {
        if disabling {
          return WaitingForDisable;
        }
        if !writeEnabled {
          return LockReadOnly;
        }
      }
      if writeEnabled && elock >= LOCK_RESERVED && !inTransaction {
        if vfs.writeFile != null && vfs.writeFile != this {
          return Busy;
        }
        vfs.writeFile := this;
        if vfs.lastSyncedTXID > expectedTXID && |dirty| == 0 {
          expectedTXID := vfs.lastSyncedTXID;
          pendingTXID := vfs.lastSyncedTXID + 1;
        }
        inTransaction := true;
      }
      lockType := elock;
      r := Locked;
    }

    method Unlock(elock: LockType) returns (ok: bool)
      requires vfs.Valid() && this in vfs.files
      modifies this`lockType, this`inTransaction, vfs`writeFile
      ensures vfs.Valid()
      ensures ok <==> elock <= LOCK_SHARED
      ensures ok ==> lockType == elock && !inTransaction
      ensures !ok ==> lockType == old(lockType) && inTransaction == old(inTransaction) && vfs.writeFile == old(vfs.writeFile)
      ensures vfs.writeFile == old(vfs.writeFile) || (old(vfs.writeFile) == this && vfs.writeFile == null)
      ensures ok && old(writeEnabled && inTransaction) ==> vfs.writeFile != this
    {
      if elock != LOCK_SHARED && elock != LOCK_NONE {
        return false;
      }
      if writeEnabled && inTransaction && elock < LOCK_RESERVED {
        inTransaction := false;
        if vfs.writeFile == this {
          vfs.writeFile := null;
        }
      }
      lockType := elock;
      ok := true;
    }

    // -------------------------------------------------------------------------------------
    // Writing

    /** What is under a partial write: the page in the buffer if it is dirty, else the one read from
        cache or replica, else zeros. */
    ghost function Underneath(pgno: nat, clean: Option<Bytes>): Bytes
      requires Buffered(|vfs.disk.files|) && Readable()
      reads this`writeEnabled, this`bufferPath, this`bufferFile, this`dirty, vfs`disk
    {
      if pgno in dirty then Pages()[pgno] else if clean.Some? then clean.value else Zeros(pageSize)
    }

    /** Where a page is written: into its slot, or behind all others. */
    function SlotOf(pgno: nat): nat
      reads this`dirty, this`bufferNextOff
    {
      if pgno in dirty then dirty[pgno] else bufferNextOff
    }

    /** A dirty page can be read back. */
    predicate SlotThere(pgno: nat)
      requires Buffered(|vfs.disk.files|)
      reads this`writeEnabled, this`bufferPath, this`bufferFile, this`dirty, vfs`disk
    {
      pgno in dirty ==> dirty[pgno] + pageSize <= |Buffer()|
    }

    /** Writes part of a page over its current contents; never the lock page. */
    method WriteAt(b: Bytes, off: nat, clean: Option<Bytes>, fails: bool) returns (n: Option<nat>)
      requires Consistent() && Buffered(|vfs.disk.files|) && (clean.Some? ==> |clean.value| == pageSize)
      modifies this`commit, this`bufferNextOff, this`dirty, vfs`disk
      ensures Consistent() && Buffered(|vfs.disk.files|) && Tended(old(vfs.disk), if isOpen then bufferFile else None, vfs.disk)
      ensures n.None? <==> off / pageSize + 1 == lockPgno || !writeEnabled || !isOpen || fails || !old(SlotThere(off / pageSize + 1))
      ensures old(Readable()) ==> (n.None? <==> off / pageSize + 1 == lockPgno || !writeEnabled || !isOpen || fails)
      ensures n.None? ==> dirty == old(dirty) && vfs.disk == old(vfs.disk)
      ensures n.Some? ==> dirty == old(dirty)[off / pageSize + 1 := old(SlotOf(off / pageSize + 1))] && vfs.disk.names == old(vfs.disk).names
      ensures n.Some? ==> n.value == Smaller(pageSize - off % pageSize, |b|)
      ensures n.Some? ==> commit == Larger(off / pageSize + 1, old(commit))
      ensures old(Readable()) ==> Readable()
      ensures n.Some? && old(Readable()) ==>
                Pages() == old(Pages())[off / pageSize + 1 := Patch(old(Underneath(off / pageSize + 1, clean)), off % pageSize, b)]
    {
      var pgno, pageOffset := off / pageSize + 1, off % pageSize;
      if pgno == lockPgno || !writeEnabled {
        return None;
      }
      var ok := WritePage(pgno, pageOffset, b, clean, fails);
      return if ok then Some(Smaller(pageSize - pageOffset, |b|)) else None;
    }

    method WritePage(pgno: nat, pageOffset: nat, b: Bytes, clean: Option<Bytes>, fails: bool) returns (ok: bool)
      requires Consistent() && Buffered(|vfs.disk.files|) && writeEnabled && (clean.Some? ==> |clean.value| == pageSize)
      requires 1 <= pgno && pgno != lockPgno && pageOffset < pageSize
      modifies this`commit, this`bufferNextOff, this`dirty, vfs`disk
      ensures Consistent() && Buffered(|vfs.disk.files|) && Tended(old(vfs.disk), if isOpen then bufferFile else None, vfs.disk)
      ensures ok <==> isOpen && !fails && old(SlotThere(pgno))
      ensures ok ==> commit == Larger(pgno, old(commit))
      ensures ok ==> dirty == old(dirty)[pgno := old(SlotOf(pgno))] && vfs.disk.names == old(vfs.disk).names
      ensures !ok ==> dirty == old(dirty) && vfs.disk == old(vfs.disk)
      ensures old(Readable()) ==> Readable()
      ensures ok && old(Readable()) ==> Pages() == old(Pages())[pgno := Patch(old(Underneath(pgno, clean)), pageOffset, b)]
    {
      var page;
      if pgno in dirty {
        if !isOpen || !SlotThere(pgno) {
          return false;
        }
        page := PageIn(Buffer(), dirty[pgno], pageSize);
      } else if clean.Some? {
        page := clean.value;
      } else {
        page := Zeros(pageSize);
      }
      page := Patch(page, pageOffset, b);
      commit := Larger(pgno, commit);
      ok := WriteToBuffer(pgno, page, fails);
    }

    /** A page that is already dirty keeps its slot; another one gets the next. */
    method WriteToBuffer(pgno: nat, data: Bytes, fails: bool) returns (ok: bool)
      requires Consistent() && Buffered(|vfs.disk.files|) && writeEnabled && |data| == pageSize && 1 <= pgno <= commit && pgno != lockPgno
      modifies this`bufferNextOff, this`dirty, vfs`disk
      ensures Consistent() && Buffered(|vfs.disk.files|) && Tended(old(vfs.disk), if isOpen then bufferFile else None, vfs.disk)
      ensures ok == (isOpen && !fails)
      ensures ok ==> dirty == old(dirty)[pgno := old(SlotOf(pgno))] && vfs.disk.names == old(vfs.disk).names
      ensures !ok ==> dirty == old(dirty) && vfs.disk == old(vfs.disk)
      ensures old(Readable()) ==> Readable()
      ensures ok && old(Readable()) ==> Pages() == old(Pages())[pgno := data]
    {
      var off, next := bufferNextOff, bufferNextOff + |data|;
      if pgno in dirty {
        off, next := dirty[pgno], bufferNextOff;
      }
      SlotTaken(dirty, bufferNextOff, pgno, off, next, |data|);
      if Readable() {
        BufferWrite(dirty, bufferNextOff, Buffer(), pgno, off, next, data);
      }
      bufferNextOff := next;
      ok := isOpen && !fails;
      if ok {
        Store(pgno, off, data);
      }
    }

    method Store(pgno: nat, off: nat, data: Bytes)
      requires Buffered(|vfs.disk.files|) && bufferFile.Some?
      modifies this`dirty, vfs`disk
      ensures Buffered(|vfs.disk.files|) && dirty == old(dirty)[pgno := off]
      ensures vfs.disk == old(vfs.disk).Put(bufferFile.value, WriteBytes(old(Buffer()), off, data))
    {
      vfs.disk := vfs.disk.Put(bufferFile.value, WriteBytes(Buffer(), off, data));
      dirty := dirty[pgno := off];
    }

    /** Reads part of a dirty page. */
    method ReadDirty(off: nat, len: nat) returns (data: Option<Bytes>)
      requires Consistent() && Buffered(|vfs.disk.files|)
      ensures data.Some? <==> writeEnabled && isOpen && off / pageSize + 1 in dirty && SlotThere(off / pageSize + 1)
      ensures Readable() ==> (data.Some? <==> writeEnabled && isOpen && off / pageSize + 1 in dirty)
      ensures data.Some? && Readable() ==> data.value == Part(Pages()[off / pageSize + 1], off % pageSize, len)
    {
      var pgno, pageOffset := off / pageSize + 1, off % pageSize;
      if !writeEnabled || !isOpen || pgno !in dirty || !SlotThere(pgno) {
        return None;
      }
      return Some(Part(PageIn(Buffer(), dirty[pgno], pageSize), pageOffset, len));
    }

    /** Forgets the dirty pages behind the new size. */
    method Truncate(size: nat) returns (ok: bool)
      requires Consistent() && Buffered(|vfs.disk.files|)
      modifies this`commit, this`dirty
      ensures Consistent() && Buffered(|vfs.disk.files|) && ok == writeEnabled
      ensures if ok then commit == size / pageSize && dirty == Below(old(dirty), size / pageSize) else commit == old(commit) && dirty == old(dirty)
      ensures ok ==> forall p :: p in dirty <==> p in old(dirty) && p <= size / pageSize
      ensures old(Readable()) ==> Readable() && Pages() == if ok then Below(old(Pages()), size / pageSize) else old(Pages())
    {
      if !writeEnabled {
        return false;
      }
      Shrink(size / pageSize);
      ok := true;
    }

    method Shrink(newCommit: nat)
      requires Consistent() && Buffered(|vfs.disk.files|)
      modifies this`commit, this`dirty
      ensures Consistent() && Buffered(|vfs.disk.files|) && commit == newCommit && dirty == Below(old(dirty), newCommit)
      ensures old(Readable()) ==> Readable() && Pages() == Below(old(Pages()), newCommit)
    {
      BufferCut(dirty, bufferNextOff, Buffer(), pageSize, newCommit);
      dirty := Below(dirty, newCommit);
      commit := newCommit;
    }

    // -------------------------------------------------------------------------------------
    // Syncing

    /** Uploads the dirty pages as the next transaction, unless the replica has moved on. A closed file
        cannot reach the replica. */
    method SyncToRemoteWithLock(remote: Remote) returns (r: SyncStatus)
      requires Consistent() && Buffered(|vfs.disk.files|)
      modifies this`expectedTXID, this`pendingTXID, this`dirty, this`bufferNextOff, vfs`uploads, vfs`lastSyncedTXID, vfs`disk
      ensures Consistent() && Buffered(|vfs.disk.files|)
      ensures r == if old(dirty) == map[] then SyncOk else if !isOpen then ListFailed else Judged(remote, old(expectedTXID), old(Readable()))
      ensures old(dirty) != map[] && isOpen ==> (r == ListFailed <==> remote.txid.None?)
      ensures old(dirty) != map[] && isOpen && remote.txid.Some? ==> (r == Conflict <==> remote.txid.value > old(expectedTXID))
      ensures old(dirty) != map[] && isOpen && remote.txid.Some? && remote.txid.value <= old(expectedTXID) ==>
                if remote.uploadFails || !old(Readable()) then r == UploadFailed
                else r == if remote.readBackFails then ReadBackFailed else if remote.truncateFails then ClearFailed else SyncOk
      ensures !Uploads(old(dirty), r) ==> vfs.uploads == old(vfs.uploads) && expectedTXID == old(expectedTXID) && pendingTXID == old(pendingTXID)
      ensures Uploads(old(dirty), r) ==>
                && old(Readable()) && vfs.uploads == old(vfs.uploads) + [Upload(old(pendingTXID), commit, old(Pages()))]
                && expectedTXID == old(pendingTXID) && pendingTXID == expectedTXID + 1
                && vfs.lastSyncedTXID == Larger(expectedTXID, old(vfs.lastSyncedTXID))
      ensures old(Numbered()) ==> Numbered()
      ensures (old(vfs.lastSyncedTXID) > old(expectedTXID) && remote.txid.Some? ==> remote.txid.value >= old(vfs.lastSyncedTXID))
              && old(pendingTXID == expectedTXID + 1) ==>
                (Uploads(old(dirty), r) ==> old(pendingTXID) > old(vfs.lastSyncedTXID))
      ensures r == SyncOk || r == ClearFailed ==> dirty == map[]
      ensures bufferNextOff == if r == SyncOk && old(dirty) != map[] then 0 else old(bufferNextOff)
      ensures r != SyncOk && r != ClearFailed ==> dirty == old(dirty)
      ensures vfs.disk == if r == SyncOk && old(dirty) != map[] then old(vfs.disk).Put(bufferFile.value, []) else old(vfs.disk)
    {
      if dirty == map[] {
        return SyncOk;
      }
      r := if isOpen then Judged(remote, expectedTXID, Readable()) else ListFailed;
      if r in {ListFailed, Conflict, UploadFailed} {
        return;
      }
      UploadDirty();
      if r != ReadBackFailed {
        Clear(r == SyncOk);
      }
    }

    method UploadDirty()
      requires Consistent() && Buffered(|vfs.disk.files|) && Readable()
      modifies this`expectedTXID, this`pendingTXID, vfs`uploads, vfs`lastSyncedTXID
      ensures vfs.uploads == old(vfs.uploads) + [Upload(old(pendingTXID), commit, Pages())]
      ensures expectedTXID == old(pendingTXID) && pendingTXID == expectedTXID + 1
      ensures vfs.lastSyncedTXID == Larger(expectedTXID, old(vfs.lastSyncedTXID))
    {
      var pages := CreateLTXFromDirty();
      vfs.uploads := vfs.uploads + [Upload(pendingTXID, commit, pages)];
      expectedTXID := pendingTXID;
      pendingTXID := pendingTXID + 1;
      vfs.lastSyncedTXID := Larger(expectedTXID, vfs.lastSyncedTXID);
    }

    /** Forgets the dirty pages; the buffer file is emptied, unless that fails. */
    method Clear(emptied: bool)
      requires Consistent() && Buffered(|vfs.disk.files|) && bufferFile.Some?
      modifies this`dirty, this`bufferNextOff, vfs`disk
      ensures Consistent() && Buffered(|vfs.disk.files|) && dirty == map[]
      ensures vfs.disk == if emptied then old(vfs.disk).Put(bufferFile.value, []) else old(vfs.disk)
      ensures bufferNextOff == if emptied then 0 else old(bufferNextOff)
    {
      dirty := map[];
      if emptied {
        vfs.disk := vfs.disk.Put(bufferFile.value, []);
        bufferNextOff := 0;
      }
    }

    /** The pages of the file to upload, read back from the buffer. */
    method CreateLTXFromDirty() returns (pages: map<nat, Bytes>)
      requires Consistent() && Buffered(|vfs.disk.files|) && Readable()
      ensures pages == Pages()
    {
      pages := map[];
      var pgnos := dirty.Keys;
      while pgnos != {}
        invariant pgnos <= dirty.Keys && pages.Keys == dirty.Keys - pgnos
        invariant forall p :: p in pages ==> pages[p] == Pages()[p]
        decreases |pgnos|
      {
        var pgno :| pgno in pgnos;
        pgnos := pgnos - {pgno};
        if pgno != lockPgno {
          pages := pages[pgno := PageIn(Buffer(), dirty[pgno], pageSize)];
        }
      }
    }

    /** Tries a last sync, removes the path of the buffer file, and gives up the write lock of the VFS if
        this file has it. */
    method Close(remote: Remote)
      requires Whole()
      modifies this`isOpen, this`expectedTXID, this`pendingTXID, this`dirty, this`bufferNextOff,
               vfs`uploads, vfs`lastSyncedTXID, vfs`writeFile, vfs`disk
      ensures Whole() && !isOpen
      ensures Tended(old(vfs.disk), if old(isOpen) then bufferFile else None, vfs.disk)
      ensures old(writeEnabled) ==> vfs.writeFile != this
      ensures old(vfs.writeFile) != this ==> vfs.writeFile == old(vfs.writeFile)
      ensures vfs.uploads == old(vfs.uploads) + old(LastUpload(remote))
      ensures bufferFile.Some? ==> bufferPath.value !in vfs.disk.names
    {
      ghost var d := vfs.disk;
      SyncDirty(remote);
      ghost var m := vfs.disk;
      RemoveBuffer();
      EmptiedAndRemoved(d, if isOpen then bufferFile else None, m, vfs.disk);
      isOpen := false;
      if writeEnabled {
        if vfs.writeFile == this {
          vfs.writeFile := null;
        }
      }
    }

    /** What a sync uploads now. */
    ghost function LastUpload(remote: Remote): seq<Upload>
      requires bufferFile.Some? ==> bufferFile.value < |vfs.disk.files|
      reads this, vfs`disk
    {
      if dirty != map[] && isOpen && remote.txid.Some? && remote.txid.value <= expectedTXID && !remote.uploadFails && Readable() then
        [Upload(pendingTXID, commit, Pages())]
      else []
    }

    /** A sync, if there is anything to sync. */
    method SyncDirty(remote: Remote)
      requires Whole()
      modifies this`expectedTXID, this`pendingTXID, this`dirty, this`bufferNextOff, vfs`uploads, vfs`lastSyncedTXID, vfs`disk
      ensures Whole()
      ensures vfs.disk == old(vfs.disk) || (isOpen && bufferFile.Some? && vfs.disk == old(vfs.disk).Put(bufferFile.value, []))
      ensures vfs.uploads == old(vfs.uploads) + old(LastUpload(remote))
    {
      if writeEnabled && |dirty| > 0 {
        var status := SyncToRemoteWithLock(remote);
      }
    }

    method RemoveBuffer()
      requires Buffered(|vfs.disk.files|)
      modifies vfs`disk
      ensures vfs.disk == if bufferFile.Some? then old(vfs.disk).Remove(bufferPath.value) else old(vfs.disk)
    {
      if bufferFile.Some? {
        vfs.disk := vfs.disk.Remove(bufferPath.value);
      }
    }

    // -------------------------------------------------------------------------------------
    // Switching writes on and off

    /** Disabling waits for the transaction to end, while others go on, and then uploads what is dirty.
        `last` are the dirty pages once no transaction runs. Writing cannot raise the lock of a file
        whose disable waits: unless it is unlocked, the wait ends only by giving up. */
    method DisableWrites(waits: seq<Wait>, remote: Remote) returns (r: SwitchResult, ghost last: map<nat, Bytes>)
      requires vfs.Sound() && this in vfs.files && AllIn(waits, vfs.files)
      modifies vfs, vfs.files
      ensures vfs.Sound() && vfs.files == old(vfs.files)
      ensures r == NoChange <==> !old(writeEnabled)
      ensures r == NoChange ==> writeEnabled == old(writeEnabled) && disabling == old(disabling) && dirty == old(dirty)
      ensures r == Switched ==> !writeEnabled && !disabling && !inTransaction && dirty == map[]
      ensures r == Switched && last != map[] ==> vfs.uploads != [] && vfs.uploads[|vfs.uploads| - 1].pages == last
      ensures !old(inTransaction) && old(writeEnabled) ==>
                (r == Switched <==> old(dirty) == map[] || (isOpen && Judged(remote, old(expectedTXID), old(Readable())) == SyncOk))
      ensures r == Switched && !old(inTransaction) ==> vfs.uploads == old(vfs.uploads) + old(LastUpload(remote))
      ensures r != Switched && r != NoChange ==> writeEnabled && (r != StillWaiting ==> !disabling)
      ensures old(Writable()) && NeverUnlocked(waits, this) ==> r == StillWaiting || r == Cancelled || r == TimedOut
    {
      last := map[];
      if !writeEnabled {
        return NoChange, last;
      }
      disabling := true;
      r := Switched;
      if inTransaction {
        r := WaitForTransaction(waits);
      }
      if r == Switched {
        r, last := EndDisable(remote);
      }
    }

    /** The end of a disable, with no transaction running. */
    method EndDisable(remote: Remote) returns (r: SwitchResult, ghost last: map<nat, Bytes>)
      requires vfs.Sound() && this in vfs.files && !inTransaction
      modifies vfs`uploads, vfs`lastSyncedTXID, vfs`disk, this`disabling, this`writeEnabled, this`expectedTXID, this`pendingTXID,
               this`dirty, this`bufferNextOff
      ensures vfs.Sound() && vfs.files == old(vfs.files) && !disabling
      ensures r == Switched || (r == SyncBeforeDisableFailed && writeEnabled)
      ensures r == Switched ==> !writeEnabled && !inTransaction && dirty == map[]
      ensures r == Switched && last != map[] ==> vfs.uploads != [] && vfs.uploads[|vfs.uploads| - 1].pages == last
      ensures r == Switched <==> old(dirty) == map[] || (isOpen && Judged(remote, old(expectedTXID), old(Readable())) == SyncOk)
      ensures vfs.uploads == old(vfs.uploads) + old(LastUpload(remote))
    {
      last := if Readable() then Pages() else map[];
      ghost var n := |vfs.disk.files|;
      r := FinishDisable(remote);
      vfs.SoundAfter(this, n);
    }

    /** A file in a write transaction that holds the lock for it. */
    ghost predicate Writable()
      reads this`writeEnabled, this`inTransaction, this`lockType
    {
      writeEnabled && inTransaction && lockType >= LOCK_RESERVED
    }

    /** Disabling without a wait: it is done if no transaction runs, else only announced. */
    method DisableNow(remote: Remote) returns (r: SwitchResult, ghost last: map<nat, Bytes>)
      requires Whole()
      modifies vfs`uploads, vfs`lastSyncedTXID, vfs`disk, this`disabling, this`writeEnabled, this`expectedTXID, this`pendingTXID,
               this`dirty, this`bufferNextOff
      ensures Whole() && Tended(old(vfs.disk), if isOpen then bufferFile else None, vfs.disk)
      ensures r == NoChange <==> !old(writeEnabled)
      ensures r == StillWaiting <==> old(writeEnabled && inTransaction)
      ensures r == StillWaiting ==> disabling && inTransaction && lockType == old(lockType)
      ensures r == Switched ==> !writeEnabled && !disabling && dirty == map[]
    {
      last := map[];
      if !writeEnabled {
        return NoChange, last;
      }
      disabling := true;
      if inTransaction {
        return StillWaiting, last;
      }
      last := if Readable() then Pages() else map[];
      r := FinishDisable(remote);
    }

    /** Someone stops waiting for a disable. */
    method GiveUp()
      requires Whole()
      modifies this`disabling
      ensures Whole() && !disabling
    {
      disabling := false;
    }

    /** Waits while a transaction runs; gives up when cancelled, as by closing the file, or out of time. */
    method WaitForTransaction(waits: seq<Wait>) returns (r: SwitchResult)
      requires vfs.Sound() && this in vfs.files && AllIn(waits, vfs.files) && writeEnabled && disabling
      modifies vfs, vfs.files
      ensures vfs.Sound() && vfs.files == old(vfs.files)
      ensures r == Switched || r == StillWaiting || r == Cancelled || r == TimedOut
      ensures r == Switched <==> !inTransaction
      ensures r == Cancelled || r == TimedOut ==> !disabling
      ensures r == StillWaiting ==> NoneGivesUp(waits, |waits|)
      ensures r == TimedOut ==> exists i: nat :: NoneGivesUp(waits, i) && i < |waits| && waits[i].expired && !waits[i].cancelled
      ensures r == Cancelled ==> !isOpen || exists i: nat :: NoneGivesUp(waits, i) && i < |waits| && waits[i].cancelled
      ensures old(Blocked()) && NeverUnlocked(waits, this) ==> inTransaction
    {
      var i := 0;
      while inTransaction
        invariant vfs.Sound() && vfs.files == old(vfs.files) && i <= |waits|
        invariant NoneGivesUp(waits, i)
        invariant old(Blocked()) && NeverUnlocked(waits, this) ==> Blocked()
        decreases |waits| - i
      {
        if !isOpen {
          disabling := false;
          return Cancelled;
        }
        if i == |waits| {
          return StillWaiting;
        }
        if waits[i].cancelled || waits[i].expired {
          disabling := false;
          return if waits[i].cancelled then Cancelled else TimedOut;
        }
        vfs.Perform(waits[i].meanwhile, this);
        i := i + 1;
      }
      r := Switched;
    }

    method FinishDisable(remote: Remote) returns (r: SwitchResult)
      requires Whole() && !inTransaction
      modifies vfs`uploads, vfs`lastSyncedTXID, vfs`disk, this`disabling, this`writeEnabled, this`expectedTXID, this`pendingTXID,
               this`dirty, this`bufferNextOff
      ensures Whole() && !disabling && Tended(old(vfs.disk), if isOpen then bufferFile else None, vfs.disk)
      ensures r == Switched || (r == SyncBeforeDisableFailed && writeEnabled)
      ensures r == Switched ==> !writeEnabled && dirty == map[]
      ensures r == Switched && old(dirty) != map[] ==>
                old(Readable()) && vfs.uploads != [] && vfs.uploads[|vfs.uploads| - 1].pages == old(Pages())
      ensures r == Switched <==> old(dirty) == map[] || (isOpen && Judged(remote, old(expectedTXID), old(Readable())) == SyncOk)
      ensures vfs.uploads == old(vfs.uploads) + old(LastUpload(remote))
    {
      disabling := false;
      r := SyncBeforeDisableFailed;
      var synced := SyncBeforeDisable(remote);
      if synced {
        TurnOff();
        r := Switched;
      }
    }

    method TurnOff()
      requires Whole() && !inTransaction && dirty == map[]
      modifies this`writeEnabled
      ensures Whole() && !writeEnabled
    {
      writeEnabled := false;
    }

    method SyncBeforeDisable(remote: Remote) returns (ok: bool)
      requires Whole()
      modifies this`expectedTXID, this`pendingTXID, this`dirty, this`bufferNextOff, vfs`uploads, vfs`lastSyncedTXID, vfs`disk
      ensures Whole() && (ok ==> dirty == map[]) && (!ok ==> writeEnabled)
      ensures Tended(old(vfs.disk), if isOpen then bufferFile else None, vfs.disk)
      ensures ok && old(dirty) != map[] ==>
                old(Readable()) && vfs.uploads != [] && vfs.uploads[|vfs.uploads| - 1].pages == old(Pages())
      ensures ok <==> old(dirty) == map[] || (isOpen && Judged(remote, old(expectedTXID), old(Readable())) == SyncOk)
      ensures vfs.uploads == old(vfs.uploads) + old(LastUpload(remote))
    {
      var status := SyncToRemoteWithLock(remote);
      ok := status == SyncOk;
    }

    /** This file has just opened, and emptied, the buffer file that all files enabled later share. */
    ghost predicate Taken(d: Disk)
      requires d.Valid()
      reads this`bufferFile, this`bufferNextOff, vfs`disk
    {
      bufferFile == Some(d.At(vfs.ColdPath())) && bufferNextOff == 0 && vfs.disk == d.Create(vfs.ColdPath())
    }

    /** Opens a buffer file if there is none. */
    method TakeBuffer(initFails: bool) returns (ok: bool)
      requires Whole() && !writeEnabled
      modifies this`bufferPath, this`bufferFile, this`bufferNextOff, vfs`disk
      ensures Whole() && (ok ==> bufferFile.Some?)
      ensures ok <==> old(bufferFile).Some? || !initFails
      ensures ok && old(bufferFile).None? ==> Taken(old(vfs.disk)) && bufferPath == Some(vfs.ColdPath())
      ensures !ok || old(bufferFile).Some? ==> bufferFile == old(bufferFile) && vfs.disk == old(vfs.disk)
    {
      if bufferPath.None? {
        bufferPath := Some(vfs.ColdPath());
      }
      ok := bufferFile.Some? || !initFails;
      if bufferFile.None? && ok {
        InitWriteBuffer(bufferPath.value);
      }
    }

    /** Enabling needs a buffer file. If there is none yet it is opened, and emptied, at a path that all
        files enabled like this share. The first time it takes up the position of the reader. */
    method EnableWrites(txid: TXID, initFails: bool) returns (r: SwitchResult)
      requires Whole() && isOpen
      modifies this`writeEnabled, this`expectedTXID, this`pendingTXID, this`bufferPath, this`bufferFile, this`bufferNextOff, vfs`disk
      ensures Whole() && Stepped(old(vfs.disk), true, old(bufferFile), vfs.ColdPath(), vfs.disk, bufferFile)
      ensures r == Switched || r == NoChange || r == InitFailed
      ensures r == NoChange <==> old(writeEnabled)
      ensures r != InitFailed ==> writeEnabled
      ensures r == InitFailed <==> !old(writeEnabled) && old(bufferFile).None? && initFails
      ensures r == InitFailed ==> !writeEnabled
      ensures r == Switched ==> writeEnabled && (if old(pendingTXID) == 0 then expectedTXID == txid else expectedTXID == old(expectedTXID))
      ensures r == Switched && old(bufferFile).None? ==> Taken(old(vfs.disk)) && bufferPath == Some(if vfs.configured then Configured else Cold)
      ensures r != Switched || old(bufferFile).Some? ==> bufferFile == old(bufferFile) && vfs.disk == old(vfs.disk)
    {
      if writeEnabled {
        return NoChange;
      }
      var ok := TakeBuffer(initFails);
      if !ok {
        return InitFailed;
      }
      if pendingTXID == 0 {
        expectedTXID := txid;
        pendingTXID := txid + 1;
      }
      writeEnabled := true;
      r := Switched;
    }
  }

  // ---------------------------------------------------------------------------------------
  // What others do in the meantime

  datatype SwitchResult = Switched | NoChange | Cancelled | TimedOut | SyncBeforeDisableFailed | InitFailed | StillWaiting

  datatype Step =
    | StepLock(elock: LockType)
    | StepUnlock(elock: LockType)
    | StepWrite(b: Bytes, off: nat, clean: Option<Bytes>, fails: bool)
    | StepTruncate(size: nat)
    | StepSync(remote: Remote)
    | StepClose(remote: Remote)
    | StepEnable(txid: TXID, initFails: bool)
    | StepDisable(remote: Remote)
    | StepGiveUp

  /** A step that neither unlocks a file nor calls its disable off. */
  predicate Holds(step: Step) {
    !step.StepUnlock? && !step.StepGiveUp?
  }

  ghost predicate NeverUnlocked(waits: seq<Wait>, f: VFSFile) {
    forall i :: 0 <= i < |waits| ==> forall k :: 0 <= k < |waits[i].meanwhile| ==>
      waits[i].meanwhile[k].f != f || Holds(waits[i].meanwhile[k].step)
  }

  datatype Op = Op(f: VFSFile, step: Step)

  /** One turn of waiting: the context is cancelled, the time is up, or others act. */
  datatype Wait = Wait(cancelled: bool, expired: bool, meanwhile: seq<Op>)

  /** In the first n turns neither the context is cancelled nor the time up. */
  ghost predicate NoneGivesUp(waits: seq<Wait>, n: nat) {
    forall i :: 0 <= i < n && i < |waits| ==> !waits[i].cancelled && !waits[i].expired
  }

  ghost predicate AllIn(waits: seq<Wait>, files: set<VFSFile>) {
    forall i :: 0 <= i < |waits| ==> OpsIn(waits[i].meanwhile, files)
  }

  /** What happens to a VFS: another file is opened, or something is done to the i-th file. */
  datatype Action =
    | OpenFile(pageSize: nat, lockPgno: nat, txid: TXID, commit: nat, writeEnabled: bool)
    | On(i: nat, step: Step)

  // ---------------------------------------------------------------------------------------
  // Shared buffer files

  /** A file whose buffer file another open file has, or takes when its writes are enabled, loses its dirty
      pages by ordinary steps of that file: enabling, or a write and a sync. */
  method Spoil(f: VFSFile, g: VFSFile)
    requires f.vfs.Sound() && f in f.vfs.files && g in f.vfs.files && f != g && g.isOpen && f.dirty != map[]
    requires !OutOfReach(f.vfs.disk, f.vfs.HeldBy(g), f.vfs.PathsOf(g), f.bufferFile.value)
    modifies f.vfs`uploads, f.vfs`lastSyncedTXID, f.vfs`disk, g
    ensures f.vfs.Sound() && !f.Readable()
  {
    ghost var d, k := f.vfs.disk, f.bufferFile.value;
    if g.bufferFile.None? {
      assert f.vfs.ColdPath() in d.names && d.names[f.vfs.ColdPath()] == k;
      var r := g.EnableWrites(0, false);
    } else {
      WriteAndSync(g);
    }
    assert f.vfs.disk.files[k] == [];
    f.vfs.SoundAfter(g, |d.files|);
    var p :| p in f.dirty;
    assert f.dirty[p] + f.pageSize > 0;
  }

  /** A file with a buffer file writes a page and syncs it, which empties the buffer file. */
  method WriteAndSync(g: VFSFile)
    requires g.Whole() && g.isOpen && g.bufferFile.Some?
    modifies g.vfs`uploads, g.vfs`lastSyncedTXID, g.vfs`disk, g`writeEnabled, g`expectedTXID, g`pendingTXID, g`bufferPath, g`bufferFile,
             g`bufferNextOff, g`commit, g`dirty
    ensures g.Whole() && |g.vfs.disk.files| == old(|g.vfs.disk.files|) && g.bufferFile == old(g.bufferFile)
    ensures g.vfs.disk.files[g.bufferFile.value] == []
  {
    var e := g.EnableWrites(0, false);
    var t := g.Truncate(0);
    WriteThenSync(g);
  }

  method WriteThenSync(g: VFSFile)
    requires g.Whole() && g.isOpen && g.writeEnabled && g.dirty == map[]
    modifies g.vfs`uploads, g.vfs`lastSyncedTXID, g.vfs`disk, g`expectedTXID, g`pendingTXID, g`bufferNextOff, g`commit, g`dirty
    ensures g.Whole() && |g.vfs.disk.files| == old(|g.vfs.disk.files|)
    ensures g.vfs.disk.files[g.bufferFile.value] == []
  {
    WriteAny(g);
    var r := g.SyncToRemoteWithLock(Remote(Some(0), false, false, false));
  }

  /** Leaves one dirty page. */
  method WriteAny(g: VFSFile)
    requires g.Whole() && g.isOpen && g.writeEnabled && g.dirty == map[]
    modifies g.vfs`disk, g`bufferNextOff, g`commit, g`dirty
    ensures g.Whole() && |g.vfs.disk.files| == old(|g.vfs.disk.files|) && g.dirty != map[] && g.Readable()
  {
    var pgno: nat := if g.lockPgno == 1 then 2 else 1;
    PageOffset(pgno, g.pageSize);
    var w := g.WriteAt([], (pgno - 1) * g.pageSize, None, false);
    assert pgno in g.dirty;
  }

  lemma PageOffset(pgno: nat, size: nat)
    requires (pgno == 1 || pgno == 2) && size > 0
    ensures (pgno - 1) * size / size + 1 == pgno && 0 % size == 0
  {
  }

  /** Enables the writes of a file that was opened without, and writes its first page in a transaction. */
  method EnableAndWrite(f: VFSFile, data: Bytes)
    requires f.Whole() && f.vfs.writeFile == null && f.New(|data|, 2, f.expectedTXID, f.commit, false) && f.bufferFile.None?
    modifies f.vfs`writeFile, f.vfs`disk, f
    ensures f.Whole() && f.vfs.writeFile == null && f.isOpen && !f.inTransaction && f.pendingTXID == f.expectedTXID + 1
    ensures f.dirty == map[1 := 0] && f.bufferFile == Some(old(f.vfs.disk).At(f.vfs.ColdPath()))
    ensures f.vfs.disk.names == old(f.vfs.disk).Create(f.vfs.ColdPath()).names
    ensures f.Readable() && f.Pages() == map[1 := data]
  {
    var e := f.EnableWrites(f.expectedTXID, false);
    WriteInTransaction(f, data);
  }

  method WriteInTransaction(f: VFSFile, data: Bytes)
    requires f.Whole() && f.isOpen && f.writeEnabled && f.dirty == map[] && f.bufferNextOff == 0 && f.lockPgno == 2 && |data| == f.pageSize
    requires f.vfs.writeFile == null && !f.inTransaction && !f.disabling && f.lockType == LOCK_NONE
    modifies f.vfs`writeFile, f.vfs`disk, f`bufferNextOff, f`commit, f`dirty, f`lockType, f`inTransaction, f`expectedTXID, f`pendingTXID
    ensures f.Whole() && f.vfs.writeFile == null && !f.inTransaction && f.vfs.disk.names == old(f.vfs.disk.names)
    ensures f.dirty == map[1 := 0] && f.Readable() && f.Pages() == map[1 := data]
  {
    var l := f.Lock(LOCK_RESERVED);
    WriteFirst(f, data);
    var u := f.Unlock(LOCK_NONE);
  }

  method WriteFirst(f: VFSFile, data: Bytes)
    requires f.Whole() && f.isOpen && f.writeEnabled && f.dirty == map[] && f.bufferNextOff == 0 && f.lockPgno == 2 && |data| == f.pageSize
    modifies f.vfs`disk, f`bufferNextOff, f`commit, f`dirty
    ensures f.Whole() && |f.vfs.disk.files| == old(|f.vfs.disk.files|) && f.vfs.disk.names == old(f.vfs.disk).names
    ensures f.dirty == map[1 := 0] && f.Readable() && f.Pages() == map[1 := data]
  {
    PageOffset(1, f.pageSize);
    assert Patch(Zeros(f.pageSize), 0, data) == data;
    var n := f.WriteAt(data, 0, None, false);
  }

  /** Two files of a VFS, opened without write support. */
  method TwoReaders(configured: bool, size: nat) returns (vfs: VFS, a: VFSFile, b: VFSFile)
    requires size > 0
    ensures fresh(vfs) && fresh(a) && fresh(b) && a != b && a.vfs == vfs && b.vfs == vfs && vfs.writeFile == null
    ensures a.Whole() && a.New(size, 2, 5, 1, false) && a.bufferFile.None?
    ensures b.Whole() && b.New(size, 2, 5, 1, false) && b.bufferFile.None?
  {
    vfs := new VFS(configured);
    a := vfs.Open(size, 2, 5, 1, false);
    b := vfs.Open(size, 2, 5, 1, false);
  }

  /** The one is enabled, writes a page and ends its transaction; then the other. */
  method WriteBoth(a: VFSFile, b: VFSFile, mine: Bytes, theirs: Bytes) returns (written: map<nat, Bytes>)
    requires a != b && a.vfs == b.vfs && a.vfs.writeFile == null && |mine| == |theirs|
    requires a.Whole() && a.New(|mine|, 2, a.expectedTXID, a.commit, false) && a.bufferFile.None?
    requires b.Whole() && b.New(|mine|, 2, b.expectedTXID, b.commit, false) && b.bufferFile.None?
    modifies a.vfs`writeFile, a.vfs`disk, a, b
    ensures written == map[1 := mine]
    ensures a.Consistent() && a.Buffered(|a.vfs.disk.files|) && a.isOpen && a.dirty != map[]
    ensures a.Readable() && a.Pages() == map[1 := theirs]
  {
    ghost var n := |a.vfs.disk.files|;
    EnableAndWrite(a, mine);
    written := a.CreateLTXFromDirty();
    EnableAndWrite(b, theirs);
    SamePages(a, b);
    assert 1 in a.dirty;
  }

  /** Two files of a VFS that does not open files for writing. The first is enabled, writes a page and ends
      its transaction; then the second is enabled, and writes one. When the first syncs, the page it uploads
      is that of the second. */
  method SharedBuffer(configured: bool, mine: Bytes, theirs: Bytes) returns (written: map<nat, Bytes>, uploaded: map<nat, Bytes>)
    requires |mine| == |theirs| > 0
    ensures written == map[1 := mine] && uploaded == map[1 := theirs]
  {
    var vfs, a, b := TwoReaders(configured, |mine|);
    written := WriteBoth(a, b, mine, theirs);
    var r := a.SyncToRemoteWithLock(Remote(Some(0), false, false, false));
    uploaded := vfs.uploads[|vfs.uploads| - 1].pages;
  }

  lemma SamePages(a: VFSFile, b: VFSFile)
    requires a.vfs == b.vfs && a.pageSize == b.pageSize && a.bufferFile == b.bufferFile && a.dirty == b.dirty
    requires (b.bufferFile.Some? ==> b.bufferFile.value < |b.vfs.disk.files|) && b.Readable()
    ensures a.Readable() && a.Pages() == b.Pages()
  {
  }

  /** Whatever is done with a VFS from its start, at most one of its open files is in a write transaction
      at the end; as this holds for every sequence of actions, it holds all the time. If all files are
      opened for writing each is alone with its buffer file. */
  method Session(configured: bool, actions: seq<Action>) returns (vfs: VFS, all: seq<VFSFile>)
    ensures fresh(vfs) && vfs.Sound() && forall f :: f in all <==> f in vfs.files
    ensures forall f, g :: f in all && g in all && f.Writing() && g.Writing() ==> f == g
    ensures OpenedForWriting(actions) ==> forall f :: f in all ==> vfs.Alone(f)
  {
    vfs := new VFS(configured);
    all := [];
    for i := 0 to |actions|
      invariant fresh(vfs) && vfs.Sound() && forall f :: f in all <==> f in vfs.files
      invariant forall f :: f in all ==> fresh(f)
      invariant OpenedForWriting(actions) ==> vfs.Separate()
    {
      match actions[i]
      case OpenFile(pageSize, lockPgno, txid, commit, writeEnabled) =>
        if pageSize > 0 {
          var f;
          if writeEnabled {
            f := vfs.OpenSeparate(pageSize, lockPgno, txid, commit);
          } else {
            f := vfs.Open(pageSize, lockPgno, txid, commit, false);
          }
          all := all + [f];
        }
      case On(k, step) =>
        if k < |all| {
          var f := all[k];
          assert f in all;
          vfs.PerformOne(f, step);
        }
    }
    if OpenedForWriting(actions) {
      vfs.SeparateIsAlone();
    }
  }

  predicate OpenedForWriting(actions: seq<Action>) {
    forall i :: 0 <= i < |actions| && actions[i].OpenFile? ==> actions[i].writeEnabled
  }

  ghost predicate OpsIn(ops: seq<Op>, files: set<VFSFile>) {
    forall i :: 0 <= i < |ops| ==> ops[i].f in files
  }
}
