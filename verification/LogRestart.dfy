/** Capture across restarts of the log. SQLite starts the log over once everything in it has been copied
    into the database file; the next sync must notice, and must not lose what it had not read yet. */
module LogRestart {
  import opened Ltx
  import opened PageImage
  import opened Wal
  import opened WalIndex
  import opened WalReader
  import opened CaptureTheory
  import opened LogPosition
  import opened Capture
  import opened CaptureRun

  // ---------------------------------------------------------------------------------------
  // An increment from the header

  /** The contents of page p, zeros if the database ends before it. */
  function Reads(img: Image, p: nat): Page {
    match img.Lookup(p)
    case Some(data) => data
    case None => ZERO
  }

  /** Every page that is still there at k and was not written behind b reads the same at m and at b. */
  ghost predicate NothingLost(h: History, m: TXID, b: TXID, k: TXID)
    requires m <= |h.txns| && b <= k <= |h.txns|
  {
    forall p: nat :: KeptPage(h, m, b, k, p)
  }

  ghost predicate KeptPage(h: History, m: TXID, b: TXID, k: TXID, p: nat)
    requires m <= |h.txns| && b <= k <= |h.txns|
  {
    IsPage(h.lock, h.Commit(k), p) && p !in LastWrites(h, b + 1, k) ==> Reads(State(h, m), p) == Reads(State(h, b), p)
  }

  lemma {:induction false} AppliedPage(h: History, img: Image, m: TXID, b: TXID, k: TXID, p: nat)
    requires ValidHistory(h) && m <= |h.txns| && b <= k <= |h.txns| && 1 <= k && SameImage(h.lock, img, State(h, m))
    requires IsPage(h.lock, h.Commit(k), p)
    ensures img.Apply(FileContent(h, b + 1, k)).Lookup(p) == State(h, k).Lookup(p) <==> KeptPage(h, m, b, k, p)
  {
    StateSize(h, k);
    if p in LastWrites(h, b + 1, k) {
      WrittenHoldsLast(h, b + 1, k, p);
    } else {
      UnwrittenStays(h, b + 1, k, p);
      StateSize(h, b);
    }
  }

  /** The file over the transactions behind b, applied to the database after m, gives the database after k
      exactly if nothing written up to b is missing at m. */
  lemma {:induction false} AppliedIsExact(h: History, img: Image, m: TXID, b: TXID, k: TXID)
    requires ValidHistory(h) && m <= |h.txns| && b <= k <= |h.txns| && 1 <= k && SameImage(h.lock, img, State(h, m))
    ensures SameImage(h.lock, img.Apply(FileContent(h, b + 1, k)), State(h, k)) <==> NothingLost(h, m, b, k)
  {
    StateSize(h, k);
    var img' := img.Apply(FileContent(h, b + 1, k));
    forall p: nat | IsPage(h.lock, h.Commit(k), p)
      ensures img'.Lookup(p) == State(h, k).Lookup(p) <==> KeptPage(h, m, b, k, p)
    {
      AppliedPage(h, img, m, b, k, p);
    }
    forall p: nat | !IsPage(h.lock, h.Commit(k), p)
      ensures KeptPage(h, m, b, k, p) && (p != h.lock ==> img'.Lookup(p) == State(h, k).Lookup(p))
    {
    }
  }

  /** Nothing is missing if the files reach as far as the database that the new log continues. */
  lemma {:induction false} NothingLostIfCaughtUp(h: History, m: TXID, b: TXID, k: TXID)
    requires ValidHistory(h) && b <= m <= k <= |h.txns|
    ensures NothingLost(h, m, b, k)
  {
    forall p: nat
      ensures KeptPage(h, m, b, k, p)
    {
      if IsPage(h.lock, h.Commit(k), p) && p !in LastWrites(h, b + 1, k) {
        LastWritesSplit(h, b + 1, m, k, p);
        UnwrittenStays(h, m + 1, k, p);
        UnwrittenStays(h, b + 1, m, p);
      }
    }
  }

  /** An increment taken from the header of a log, as the next file: the files then add up to the database
      after the last transaction exactly if nothing that the new log does not repeat is missing in the
      files before. */
  lemma {:induction false} IncrementIsExact(lock: nat, base: seq<Changes>, frames: seq<Frame>, files: seq<Changes>, cuts: seq<nat>, m: nat, k: nat)
    requires ValidHistory(LogHistory(lock, base, frames)) && LastCommit(frames, |frames|) > 0
    requires Groups(LogHistory(lock, base, frames), files, cuts) && m == CutBefore(cuts, |cuts|) && k == |LogHistory(lock, base, frames).txns|
    ensures m <= k && |base| < k
    ensures var h := LogHistory(lock, base, frames);
            && (SameImage(lock, State(History(lock, files + [Chunk(frames)]), |files| + 1), State(h, k)) <==> NothingLost(h, m, |base|, k))
            && (|base| <= m ==> NothingLost(h, m, |base|, k))
  {
    var h, g, b := LogHistory(lock, base, frames), History(lock, files + [Chunk(frames)]), |base|;
    LogHistoryIsLogged(lock, base, frames);
    NewChunk(h, base, frames, 0, b, k);
    assert frames[0..] == frames;
    GroupsKeepState(h, files, cuts, |files|);
    StateExtends(History(lock, files), g, |files|);
    AppliedIsExact(h, State(g, |files|), m, b, k);
    if b <= m {
      NothingLostIfCaughtUp(h, m, b, k);
    }
  }

  lemma {:induction false} StateExtends(h: History, more: History, t: TXID)
    requires h.lock == more.lock && h.txns <= more.txns && t <= |h.txns|
    ensures State(h, t) == State(more, t)
  {
    if t > 0 {
      StateExtends(h, more, t - 1);
    }
  }

  // ---------------------------------------------------------------------------------------
  // Reading from the header

  /** A sync with this information reads the log from its header. */
  ghost predicate FromHeader(wal: Bytes, hdr: Header, info: SyncInfo) {
    info.offset == WAL_HEADER_SIZE || PrevFrameGone(wal, hdr, info)
  }

  lemma {:induction false} ReadsFromHeader(wal: Bytes, hdr: Header, info: SyncInfo, start: nat, read: seq<Frame>)
    requires FromHeader(wal, hdr, info) && ReadsFrom(wal, hdr, info, start, read)
    ensures start == 0 && read == LogFrames(wal, hdr)
  {
    if info.offset == WAL_HEADER_SIZE {
      ReadsAll(wal, hdr, info, LogFrames(wal, hdr), start, read);
    } else {
      var n: nat :| n > 0 && FrameOffset(hdr, n) == info.offset && !Accepts(wal, hdr, n - 1, info.salt1, info.salt2, None);
      OffsetsDiffer(hdr, start, n);
    }
  }

  /** If the frame before the saved offset is gone, no snapshot follows: an increment over the whole log
      does. */
  lemma {:induction false} GoneFrameIsNoSnapshot(lock: nat, wal: Bytes, db: seq<Page>, info: SyncInfo, hdr: Header,
                              h: Header, start: nat, read: seq<Frame>, r: SyncResult, f: Captured)
    requires ParseHeader(wal) == HeaderOk(hdr) && PrevFrameGone(wal, hdr, info) && !info.snapshotting
    requires SyncOutcome(lock, wal, db, info, h, start, read, r, f)
    ensures r == if Chunk(LogFrames(wal, hdr)).pages == map[] then Skipped else Synced
    ensures r == Synced ==> f.changes == Chunk(LogFrames(wal, hdr)) && f.walOffset == WAL_HEADER_SIZE
  {
    var n: nat :| n > 0 && FrameOffset(hdr, n) == info.offset && !Accepts(wal, hdr, n - 1, info.salt1, info.salt2, None);
    CanOpen(wal, hdr, info, n);
    ReadsFromHeader(wal, hdr, info, start, read);
  }

  // ---------------------------------------------------------------------------------------
  // What is found after a restart

  /** Frame n is still there, with salts of the log before. */
  ghost predicate Survives(wal: Bytes, hdr: Header, n: nat, was: Salts) {
    Accepts(wal, hdr, n, was.salt1, was.salt2, None)
  }

  /** The last captured frame is still there, as it was, and no complete transaction of the old log stands
      behind it. */
  ghost predicate LeftOver(wal: Bytes, hdr: Header, n: nat, was: Salts, frame: Frame) {
    && Survives(wal, hdr, n, was) && FrameAt(wal, hdr, n) == frame
    && LastCommit(Behind(wal, hdr, n, was), |Behind(wal, hdr, n, was)|) == 0
  }

  /** What a reader that looks for the old salts finds behind frame n. */
  ghost function Behind(wal: Bytes, hdr: Header, n: nat, was: Salts): seq<Frame>
    requires Survives(wal, hdr, n, was)
  {
    Chain(wal, hdr, n + 1, was.salt1, was.salt2, StoredSums(wal, hdr, n))
  }

  /** The last captured frame is the last of the file, so that its length has not changed. */
  ghost predicate Stalled(wal: Bytes, hdr: Header, c: nat, was: Salts) {
    0 < c && Survives(wal, hdr, c - 1, was) && |wal| == FrameOffset(hdr, c)
  }

  /** The only frame captured is still there: it was the first of the old log, so the new one is empty. */
  ghost predicate NothingNew(wal: Bytes, hdr: Header, c: nat, was: Salts) {
    c == 1 && Survives(wal, hdr, 0, was) && FrameOffset(hdr, 1) < |wal|
  }

  /** The decision after a restart: the new log is read from its header, unless the log file still ends
      with the last captured frame, or holds nothing new. */
  lemma {:induction false} AfterRestart(wal: Bytes, hdr: Header, last: Captured, c: nat, atEnd: bool)
    requires ParseHeader(wal) == HeaderOk(hdr) && last.End() == FrameOffset(hdr, c)
    requires SaltsOf(last) != Salts(hdr.salt1, hdr.salt2)
    requires 1 < c && Survives(wal, hdr, c - 1, SaltsOf(last)) ==> PageMatches(wal, hdr.pageSize, last, FrameOffset(hdr, c - 1))
    ensures var pos := Position(last, hdr.pageSize, wal, atEnd);
            && pos.Some?
            && if Stalled(wal, hdr, c, SaltsOf(last)) then pos.value == ReadOn(last, false)
               else if NothingNew(wal, hdr, c, SaltsOf(last)) then pos.value == ReadOn(last, true)
               else FromHeader(wal, hdr, pos.value)
  {
    assert HeaderSalts(wal) == Salts(hdr.salt1, hdr.salt2);
    if 0 < c && !Survives(wal, hdr, c - 1, SaltsOf(last)) {
      assert PrevFrameGone(wal, hdr, ReadOn(last, true)) && PrevFrameGone(wal, hdr, ReadOn(last, false));
    }
    if 1 < c {
      FrameOffsetGrows(hdr, 1, c);
    }
  }

  // ---------------------------------------------------------------------------------------
  // One sync after a restart

  /** A log of the next generation: it continues the database as the old log left it, with other salts, and
      the database file holds what it does not. */
  ghost predicate Restarted(lock: nat, hist: History, hdr: Header, base': seq<Changes>, hdr': Header, wal: Bytes, db: seq<Page>) {
    var h' := LogHistory(lock, base', LogFrames(wal, hdr'));
    && base' == hist.txns && ValidLog(lock, base', hdr', wal) && hdr'.pageSize == hdr.pageSize
    && Salts(hdr'.salt1, hdr'.salt2) != Salts(hdr.salt1, hdr.salt2)
    && DbBacks(h', db, |base'|, |h'.txns|)
  }

  /** If the last captured frame is still there it is untouched. */
  ghost predicate Untouched(hdr: Header, frames: seq<Frame>, hdr': Header, wal: Bytes) {
    var c, was := LastCommit(frames, |frames|), Salts(hdr.salt1, hdr.salt2);
    0 < c && Survives(wal, hdr', c - 1, was) ==> LeftOver(wal, hdr', c - 1, was, frames[c - 1])
  }

  lemma {:induction false} SameOffsets(hdr: Header, hdr': Header, n: nat)
    requires hdr.pageSize == hdr'.pageSize
    ensures FrameOffset(hdr, n) == FrameOffset(hdr', n)
  {
    if n > 0 {
      SameOffsets(hdr, hdr', n - 1);
    }
  }

  /** A log of other salts is empty if its first frame is still that of the old one. */
  lemma {:induction false} EmptyLog(wal: Bytes, hdr: Header, was: Salts)
    requires Survives(wal, hdr, 0, was) && was != Salts(hdr.salt1, hdr.salt2)
    ensures LogFrames(wal, hdr) == []
  {
  }

  lemma {:induction false} NoCommitNoChunk(read: seq<Frame>)
    requires LastCommit(read, |read|) == 0
    ensures Chunk(read).pages == map[]
  {
  }

  /** Whatever was read without finding a commit, the snapshot is the same. */
  lemma {:induction false} EmptySnapshot(lock: nat, read: seq<Frame>, other: seq<Frame>, db: seq<Page>)
    requires Chunk(read).pages == map[] && Chunk(other).pages == map[]
    ensures SnapshotOf(lock, read, db) == SnapshotOf(lock, other, db)
  {
  }

  /** What comes of reading a new log from its header. */
  lemma {:induction false} FileFromHeader(lock: nat, base: seq<Changes>, hdr: Header, frames: seq<Frame>, db: seq<Page>, snapshotting: bool,
                       r: SyncResult, f: Captured, k: nat)
    requires ValidHistory(LogHistory(lock, base, frames)) && base != [] && k == |LogHistory(lock, base, frames).txns|
    requires DbBacks(LogHistory(lock, base, frames), db, |base|, k)
    requires WriteOutcome(lock, hdr, 0, frames, db, snapshotting, r, f)
    ensures r != Failed && |base| <= k
    ensures r == Skipped ==> k == |base|
    ensures r == Synced ==> f.walOffset == WAL_HEADER_SIZE && f.End() == FrameOffset(hdr, LastCommit(frames, |frames|))
    ensures r == Synced ==> IsFile(LogHistory(lock, base, frames), f.changes, if snapshotting then 1 else |base| + 1, k)
  {
    var h := LogHistory(lock, base, frames);
    LogHistoryIsLogged(lock, base, frames);
    assert frames[0..] == frames;
    if snapshotting {
      SnapshotIsExact(h, base, frames, 0, |base|, k, db);
      EndsAtCommit(h, base, hdr, frames, 0, f, |base|, k);
    } else {
      TakesNewTransactions(lock, h, base, hdr, frames, 0, db, |base|, k, r, f);
    }
  }

  /** The files are caught up with the new log. */
  lemma {:induction false} TakenUp(lock: nat, base: seq<Changes>, hdr: Header, frames: seq<Frame>, files: seq<Captured>, cuts: seq<nat>, from: nat,
                base': seq<Changes>, hdr': Header, frames': seq<Frame>, f: Captured, a: nat, k: nat)
    requires CaughtUp(lock, base, hdr, frames, files, cuts, from) && base' == LogHistory(lock, base, frames).txns
    requires k == |LogHistory(lock, base', frames').txns| && (a == 1 || a == |base'| + 1)
    requires IsFile(LogHistory(lock, base', frames'), f.changes, a, k)
    requires f.walOffset == WAL_HEADER_SIZE && f.End() == FrameOffset(hdr', LastCommit(frames', |frames'|))
    requires f.salt1 == hdr'.salt1 && f.salt2 == hdr'.salt2
    ensures CaughtUp(lock, base', hdr', frames', files + [f], cuts + [k], |files|)
  {
    GroupsExtend(LogHistory(lock, base, frames), LogHistory(lock, base', frames'), ChangesOf(files), cuts);
    CatchesUp(lock, base', hdr', frames', files, cuts, |files|, f, a, k);
  }

  /** A snapshot that found nothing new: it repeats what the files hold. */
  lemma {:induction false} Repeated(lock: nat, base: seq<Changes>, hdr: Header, frames: seq<Frame>, files: seq<Captured>, cuts: seq<nat>, from: nat,
                 base': seq<Changes>, hdr': Header, wal: Bytes, db: seq<Page>, read: seq<Frame>, r: SyncResult, f: Captured, k: nat)
    requires CaughtUp(lock, base, hdr, frames, files, cuts, from) && Restarted(lock, LogHistory(lock, base, frames), hdr, base', hdr', wal, db)
    requires k == |base'| && LogFrames(wal, hdr') == [] && base' != []
    requires LastCommit(frames, |frames|) == 1 && LastCommit(read, |read|) == 0
    requires WriteOutcome(lock, hdr', 1, read, db, true, r, f) && f.salt1 == hdr.salt1 && f.salt2 == hdr.salt2
    ensures r == Synced && CaughtUp(lock, base, hdr, frames, files + [f], cuts + [k], from)
  {
    var h, none: seq<Frame> := LogHistory(lock, base', LogFrames(wal, hdr')), [];
    LogHistoryIsLogged(lock, base', none);
    assert none[0..] == none;
    SnapshotIsExact(h, base', none, 0, k, k, db);
    NoCommitNoChunk(read);
    NoCommitNoChunk(none);
    EmptySnapshot(lock, read, none, db);
    assert h.txns == base' == LogHistory(lock, base, frames).txns;
    SameOffsets(hdr, hdr', 1);
    SegmentedAppend(files, from, f);
    CatchesUp(lock, base, hdr, frames, files, cuts, from, f, 1, k);
  }

  /** The first sync after a restart: the files are then caught up with the new log; or they are caught up
      with the old one as before, and the new log holds nothing more, or holds it back behind a file length
      that has not changed. */
  lemma {:induction false} SyncAfterRestart(lock: nat, base: seq<Changes>, hdr: Header, frames: seq<Frame>, files: seq<Captured>, cuts: seq<nat>,
                         from: nat, base': seq<Changes>, hdr': Header, wal: Bytes, frames': seq<Frame>, db: seq<Page>, atEnd: bool,
                         h: Header, start: nat, read: seq<Frame>, r: SyncResult, f: Captured, k: nat)
    requires CaughtUp(lock, base, hdr, frames, files, cuts, from) && ValidHistory(LogHistory(lock, base, frames))
    requires Restarted(lock, LogHistory(lock, base, frames), hdr, base', hdr', wal, db) && Untouched(hdr, frames, hdr', wal)
    requires frames' == LogFrames(wal, hdr') && k == |LogHistory(lock, base', frames').txns|
    requires VerifiedSync(lock, hdr.pageSize, files, wal, db, atEnd, h, start, read, r, f)
    ensures r != Failed
    ensures |base'| <= k
    ensures k > |base'| ==> (r == Skipped <==> Stalled(wal, hdr', LastCommit(frames, |frames|), Salts(hdr.salt1, hdr.salt2)))
    ensures r == Synced ==>
              || CaughtUp(lock, base', hdr', frames', files + [f], cuts + [k], |files|)
              || (k == |base'| && CaughtUp(lock, base, hdr, frames, files + [f], cuts + [k], from))
  {
    var c, was := LastCommit(frames, |frames|), Salts(hdr.salt1, hdr.salt2);
    var info := Decided(lock, base, hdr, frames, files, cuts, from, base', hdr', wal, db, c, was, atEnd);
    if Stalled(wal, hdr', c, was) {
      StalledSkips(lock, wal, hdr', db, info, c, h, start, read, r, f);
    } else if NothingNew(wal, hdr', c, was) {
      FindsNothing(lock, base, hdr, frames, files, cuts, from, base', hdr', wal, db, info, was, h, start, read, r, f, k);
    } else {
      StartsOver(lock, base, hdr, frames, files, cuts, from, base', hdr', wal, frames', db, info, h, start, read, r, f, k);
    }
  }

  /** What is decided, given the files. */
  lemma {:induction false} Decided(lock: nat, base: seq<Changes>, hdr: Header, frames: seq<Frame>, files: seq<Captured>, cuts: seq<nat>, from: nat,
                base': seq<Changes>, hdr': Header, wal: Bytes, db: seq<Page>, c: nat, was: Salts, atEnd: bool)
    returns (info: SyncInfo)
    requires CaughtUp(lock, base, hdr, frames, files, cuts, from) && ValidHistory(LogHistory(lock, base, frames))
    requires Restarted(lock, LogHistory(lock, base, frames), hdr, base', hdr', wal, db) && Untouched(hdr, frames, hdr', wal)
    requires c == LastCommit(frames, |frames|) && was == Salts(hdr.salt1, hdr.salt2)
    ensures NextPosition(files, hdr.pageSize, wal, atEnd) == Some(info)
    ensures Stalled(wal, hdr', c, was) || NothingNew(wal, hdr', c, was) ==>
              info.offset == FrameOffset(hdr', c) && Salts(info.salt1, info.salt2) == was
    ensures Stalled(wal, hdr', c, was) ==> !info.snapshotting
    ensures !Stalled(wal, hdr', c, was) ==> if NothingNew(wal, hdr', c, was) then info.snapshotting else FromHeader(wal, hdr', info)
  {
    var last := files[|files| - 1];
    SameOffsets(hdr, hdr', c);
    if 1 < c && Survives(wal, hdr', c - 1, was) {
      LastFilePage(lock, base, hdr, frames, files, cuts, from, c);
      FrameMatches(wal, hdr', c - 1, last, frames[c - 1]);
    }
    AfterRestart(wal, hdr', last, c, atEnd);
    info := Position(last, hdr'.pageSize, wal, atEnd).value;
  }

  lemma {:induction false} FindsNothing(lock: nat, base: seq<Changes>, hdr: Header, frames: seq<Frame>, files: seq<Captured>, cuts: seq<nat>,
                     from: nat, base': seq<Changes>, hdr': Header, wal: Bytes, db: seq<Page>, info: SyncInfo, was: Salts,
                     h: Header, start: nat, read: seq<Frame>, r: SyncResult, f: Captured, k: nat)
    requires CaughtUp(lock, base, hdr, frames, files, cuts, from)
    requires Restarted(lock, LogHistory(lock, base, frames), hdr, base', hdr', wal, db) && Untouched(hdr, frames, hdr', wal)
    requires k == |LogHistory(lock, base', LogFrames(wal, hdr')).txns|
    requires was == Salts(hdr.salt1, hdr.salt2) && NothingNew(wal, hdr', LastCommit(frames, |frames|), was)
    requires info == SyncInfo(FrameOffset(hdr', 1), was.salt1, was.salt2, true)
    requires SyncOutcome(lock, wal, db, info, h, start, read, r, f)
    ensures r == Synced && k == |base'| && CaughtUp(lock, base, hdr, frames, files + [f], cuts + [k], from)
  {
    EmptyLog(wal, hdr', was);
    CanOpen(wal, hdr', info, 1);
    ReadsBehind(wal, hdr', info, 1, 0, start, read);
    HasTxns(lock, base, hdr, frames, files, cuts, from);
    Repeated(lock, base, hdr, frames, files, cuts, from, base', hdr', wal, db, read, r, f, k);
  }

  lemma {:induction false} StartsOver(lock: nat, base: seq<Changes>, hdr: Header, frames: seq<Frame>, files: seq<Captured>, cuts: seq<nat>,
                   from: nat, base': seq<Changes>, hdr': Header, wal: Bytes, frames': seq<Frame>, db: seq<Page>, info: SyncInfo,
                   h: Header, start: nat, read: seq<Frame>, r: SyncResult, f: Captured, k: nat)
    requires CaughtUp(lock, base, hdr, frames, files, cuts, from)
    requires Restarted(lock, LogHistory(lock, base, frames), hdr, base', hdr', wal, db) && FromHeader(wal, hdr', info)
    requires frames' == LogFrames(wal, hdr') && k == |LogHistory(lock, base', frames').txns|
    requires SyncOutcome(lock, wal, db, info, h, start, read, r, f)
    ensures r != Failed && (r == Skipped ==> k == |base'|)
    ensures r == Synced ==> CaughtUp(lock, base', hdr', frames', files + [f], cuts + [k], |files|)
  {
    OpensFromHeader(wal, hdr', info);
    ReadsFromHeader(wal, hdr', info, start, read);
    HasTxns(lock, base, hdr, frames, files, cuts, from);
    FileFromHeader(lock, base', hdr', frames', db, info.snapshotting, r, f, k);
    if r == Synced {
      TakenUp(lock, base, hdr, frames, files, cuts, from, base', hdr', frames', f, if info.snapshotting then 1 else |base'| + 1, k);
    }
  }

  lemma {:induction false} HasTxns(lock: nat, base: seq<Changes>, hdr: Header, frames: seq<Frame>, files: seq<Captured>, cuts: seq<nat>, from: nat)
    requires CaughtUp(lock, base, hdr, frames, files, cuts, from)
    ensures LogHistory(lock, base, frames).txns != []
  {
    var a := LastGroup(LogHistory(lock, base, frames), files, cuts);
  }

  lemma {:induction false} OpensFromHeader(wal: Bytes, hdr: Header, info: SyncInfo)
    requires ParseHeader(wal) == HeaderOk(hdr) && FromHeader(wal, hdr, info)
    ensures !CannotOpen(wal, info)
  {
    if info.offset == WAL_HEADER_SIZE {
      CanOpen(wal, hdr, info, 0);
    } else {
      var n: nat :| n > 0 && FrameOffset(hdr, n) == info.offset && !Accepts(wal, hdr, n - 1, info.salt1, info.salt2, None);
      CanOpen(wal, hdr, info, n);
    }
  }

  /** Nothing can be read behind the end of the file. */
  lemma {:induction false} NothingBehindEnd(wal: Bytes, hdr: Header, c: nat, salt1: nat, salt2: nat, sums: Sums)
    requires |wal| == FrameOffset(hdr, c)
    ensures Chain(wal, hdr, c, salt1, salt2, sums) == []
  {
    ChainStep(wal, hdr, c, salt1, salt2, sums);
  }

  lemma {:induction false} StalledSkips(lock: nat, wal: Bytes, hdr: Header, db: seq<Page>, info: SyncInfo, c: nat,
                     h: Header, start: nat, read: seq<Frame>, r: SyncResult, f: Captured)
    requires ParseHeader(wal) == HeaderOk(hdr) && info.offset == FrameOffset(hdr, c) && !info.snapshotting
    requires Stalled(wal, hdr, c, Salts(info.salt1, info.salt2))
    requires SyncOutcome(lock, wal, db, info, h, start, read, r, f)
    ensures r == Skipped
  {
    CanOpen(wal, hdr, info, c);
    ReadsNothing(wal, hdr, info, c, c - 1, start, read);
    NoCommitNoChunk(read);
  }

  lemma {:induction false} ReadsNothing(wal: Bytes, hdr: Header, info: SyncInfo, c: nat, at: nat, start: nat, read: seq<Frame>)
    requires c == at + 1 && info.offset == FrameOffset(hdr, c) == |wal| && Accepts(wal, hdr, at, info.salt1, info.salt2, None)
    requires ReadsFrom(wal, hdr, info, start, read)
    ensures start == c && read == []
  {
    ReadsBehind(wal, hdr, info, c, at, start, read);
    NothingBehindEnd(wal, hdr, c, info.salt1, info.salt2, StoredSums(wal, hdr, at));
  }

  // ---------------------------------------------------------------------------------------
  // Any number of syncs, through any number of restarts

  /** One generation of the log: its header, and the transactions of the database it continues. */
  datatype Generation = Generation(hdr: Header, base: seq<Changes>)

  function SaltsIn(g: Generation): Salts {
    Salts(g.hdr.salt1, g.hdr.salt2)
  }

  /** All transactions up to now. */
  ghost function Now(lock: nat, g: Generation, wal: Bytes): History {
    LogHistory(lock, g.base, LogFrames(wal, g.hdr))
  }

  /** A log of this generation, next to a database file that holds what the log does not. */
  ghost predicate Sight(lock: nat, pageSize: nat, g: Generation, wal: Bytes, db: seq<Page>) {
    && ValidLog(lock, g.base, g.hdr, wal) && g.hdr.pageSize == pageSize
    && DbBacks(Now(lock, g, wal), db, |g.base|, |Now(lock, g, wal).txns|)
  }

  /** Log j holds its frames back behind the file length that log i had been read to. */
  ghost predicate HeldBackAt(gens: seq<Generation>, wals: seq<Bytes>, i: nat, j: nat)
    requires i < |gens| == |wals| && j < |gens|
  {
    var frames := LogFrames(wals[i], gens[i].hdr);
    gens[i].hdr != gens[j].hdr && Stalled(wals[j], gens[j].hdr, LastCommit(frames, |frames|), SaltsIn(gens[i]))
  }

  ghost predicate AllSeen(lock: nat, pageSize: nat, gens: seq<Generation>, wals: seq<Bytes>, dbs: seq<seq<Page>>) {
    && |gens| == |wals| == |dbs| && 0 < |gens|
    && Now(lock, gens[0], wals[0]).txns != []
    && (forall i :: 0 <= i < |gens| ==> SightAt(lock, pageSize, gens, wals, dbs, i))
    && (forall i, j :: 0 <= i < j < |gens| ==> LaterAt(gens, wals, i, j))
    && (forall j :: 0 < j < |gens| ==> BeginsWell(lock, gens, wals, j))
  }

  ghost predicate SightAt(lock: nat, pageSize: nat, gens: seq<Generation>, wals: seq<Bytes>, dbs: seq<seq<Page>>, i: nat)
    requires i < |gens| == |wals| == |dbs|
  {
    Sight(lock, pageSize, gens[i], wals[i], dbs[i])
  }

  /** Log i is the last one seen of its generation. */
  predicate Ends(gens: seq<Generation>, i: nat) {
    i + 1 < |gens| && gens[i + 1].hdr != gens[i].hdr
  }

  /** Log j, seen later than log i: the same, grown; or one of another generation, with other salts. If
      the frame captured last is still there, it is as it was. */
  ghost predicate LaterAt(gens: seq<Generation>, wals: seq<Bytes>, i: nat, j: nat)
    requires i < j < |gens| == |wals|
  {
    if gens[i].hdr == gens[j].hdr then gens[i].base == gens[j].base && Grown(LogFrames(wals[i], gens[i].hdr), LogFrames(wals[j], gens[j].hdr))
    else
      && SaltsIn(gens[i]) != SaltsIn(gens[j])
      && (Ends(gens, i) ==> Untouched(gens[i].hdr, LogFrames(wals[i], gens[i].hdr), gens[j].hdr, wals[j]))
  }

  /** A restart comes only after everything committed so far was seen, and was not held back. */
  ghost predicate BeginsWell(lock: nat, gens: seq<Generation>, wals: seq<Bytes>, j: nat)
    requires |gens| == |wals| && 0 < j < |gens|
  {
    gens[j].hdr != gens[j - 1].hdr ==>
      && gens[j].base == Now(lock, gens[j - 1], wals[j - 1]).txns
      && Open(gens, wals, j - 1)
  }

  /** Seen from the end of any earlier generation, log j does not hold its frames back. */
  ghost predicate Open(gens: seq<Generation>, wals: seq<Bytes>, j: nat)
    requires |gens| == |wals| && j < |gens|
  {
    forall i :: 0 <= i < j && Ends(gens, i) ==> !HeldBackAt(gens, wals, i, j)
  }

  /** After log j was seen: the files are caught up with the log seen at some time s, and nothing was
      committed since, unless log j holds it back. */
  ghost predicate Standing(lock: nat, gens: seq<Generation>, wals: seq<Bytes>, j: nat, s: nat, files: seq<Captured>, cuts: seq<nat>, from: nat)
    requires |gens| == |wals| && j < |gens|
  {
    && s <= j && CaughtUp(lock, gens[s].base, gens[s].hdr, LogFrames(wals[s], gens[s].hdr), files, cuts, from)
    && (s < j ==>
          && Ends(gens, s) && gens[j].hdr != gens[s].hdr && gens[j].base == Now(lock, gens[s], wals[s]).txns
          && (Now(lock, gens[j], wals[j]).txns == gens[j].base || HeldBackAt(gens, wals, s, j)))
  }

  /** So the next log, if it is of another generation, continues what the files hold. */
  lemma {:induction false} NextBase(lock: nat, gens: seq<Generation>, wals: seq<Bytes>, i: nat, j: nat, s: nat, files: seq<Captured>, cuts: seq<nat>, from: nat)
    requires |gens| == |wals| && j < |gens| && j == i + 1 && Standing(lock, gens, wals, i, s, files, cuts, from)
    requires BeginsWell(lock, gens, wals, j) && LaterAt(gens, wals, i, j)
    requires gens[j].hdr != gens[s].hdr
    ensures gens[j].base == Now(lock, gens[s], wals[s]).txns
  {
    if gens[j].hdr != gens[i].hdr && s < i {
      assert !HeldBackAt(gens, wals, s, i);
    }
  }

  // One more sync.

  lemma {:induction false} StandsSame(lock: nat, pageSize: nat, gens: seq<Generation>, wals: seq<Bytes>, dbs: seq<seq<Page>>, i: nat, j: nat, s: nat,
                   files: seq<Captured>, cuts: seq<nat>, from: nat, atEnd: bool,
                   h: Header, start: nat, read: seq<Frame>, r: SyncResult, f: Captured, files': seq<Captured>)
    returns (cuts': seq<nat>)
    requires AllSeen(lock, pageSize, gens, wals, dbs) && j < |gens| && j == i + 1 && Standing(lock, gens, wals, i, s, files, cuts, from)
    requires gens[j].hdr == gens[s].hdr && VerifiedSync(lock, pageSize, files, wals[j], dbs[j], atEnd, h, start, read, r, f)
    requires files' == if r == Synced then files + [f] else files
    ensures Standing(lock, gens, wals, j, j, files', cuts', from)
  {
    assert LaterAt(gens, wals, s, j);
    assert SightAt(lock, pageSize, gens, wals, dbs, s) && SightAt(lock, pageSize, gens, wals, dbs, j);
    var g, frames, more, k := gens[j], LogFrames(wals[s], gens[s].hdr), LogFrames(wals[j], gens[j].hdr), |Now(lock, gens[j], wals[j]).txns|;
    Undisturbed(lock, g.base, g.hdr, frames, wals[j], more, files, cuts, from, atEnd);
    NextSync(lock, g.base, g.hdr, frames, wals[j], more, dbs[j], files, cuts, from, h, start, read, r, f, k);
    cuts' := if r == Synced then cuts + [k] else cuts;
  }

  lemma {:induction false} EndSeen(lock: nat, gens: seq<Generation>, wals: seq<Bytes>, i: nat, j: nat, s: nat, files: seq<Captured>, cuts: seq<nat>, from: nat)
    requires |gens| == |wals| && j < |gens| && j == i + 1 && Standing(lock, gens, wals, i, s, files, cuts, from)
    requires gens[j].hdr != gens[s].hdr
    ensures s < j && Ends(gens, s)
  {
  }

  lemma {:induction false} UntouchedAt(lock: nat, pageSize: nat, gens: seq<Generation>, wals: seq<Bytes>, dbs: seq<seq<Page>>, s: nat, j: nat)
    requires AllSeen(lock, pageSize, gens, wals, dbs) && s < j < |gens| && Ends(gens, s) && gens[j].hdr != gens[s].hdr
    ensures SaltsIn(gens[s]) != SaltsIn(gens[j])
    ensures Untouched(gens[s].hdr, LogFrames(wals[s], gens[s].hdr), gens[j].hdr, wals[j])
  {
    assert LaterAt(gens, wals, s, j);
  }

  lemma {:induction false} RestartSeen(lock: nat, pageSize: nat, gens: seq<Generation>, wals: seq<Bytes>, dbs: seq<seq<Page>>, s: nat, j: nat)
    requires AllSeen(lock, pageSize, gens, wals, dbs) && s < j < |gens| && Ends(gens, s) && gens[j].hdr != gens[s].hdr
    requires gens[j].base == Now(lock, gens[s], wals[s]).txns
    ensures ValidHistory(Now(lock, gens[s], wals[s])) && gens[s].hdr.pageSize == pageSize
    ensures Restarted(lock, Now(lock, gens[s], wals[s]), gens[s].hdr, gens[j].base, gens[j].hdr, wals[j], dbs[j])
  {
    UntouchedAt(lock, pageSize, gens, wals, dbs, s, j);
    assert SightAt(lock, pageSize, gens, wals, dbs, s) && SightAt(lock, pageSize, gens, wals, dbs, j);
  }

  /** What is caught up after a sync that found another generation: the new log, or the old one still. */
  ghost predicate TakenOrKept(lock: nat, g: Generation, frames: seq<Frame>, g': Generation, wal: Bytes, files: seq<Captured>, cuts: seq<nat>,
                              from: nat, taken: bool)
  {
    if taken then CaughtUp(lock, g'.base, g'.hdr, LogFrames(wal, g'.hdr), files, cuts, from)
    else
      && CaughtUp(lock, g.base, g.hdr, frames, files, cuts, from)
      && (Now(lock, g', wal).txns == g'.base || Stalled(wal, g'.hdr, LastCommit(frames, |frames|), SaltsIn(g)))
  }

  lemma {:induction false} AfterRestartSync(lock: nat, g: Generation, frames: seq<Frame>, g': Generation, wal: Bytes, db: seq<Page>,
                         files: seq<Captured>, cuts: seq<nat>, from: nat, atEnd: bool,
                         h: Header, start: nat, read: seq<Frame>, r: SyncResult, f: Captured, files': seq<Captured>)
    returns (cuts': seq<nat>, from': nat, taken: bool)
    requires CaughtUp(lock, g.base, g.hdr, frames, files, cuts, from) && ValidHistory(LogHistory(lock, g.base, frames))
    requires Restarted(lock, LogHistory(lock, g.base, frames), g.hdr, g'.base, g'.hdr, wal, db) && Untouched(g.hdr, frames, g'.hdr, wal)
    requires VerifiedSync(lock, g.hdr.pageSize, files, wal, db, atEnd, h, start, read, r, f)
    requires files' == if r == Synced then files + [f] else files
    ensures TakenOrKept(lock, g, frames, g', wal, files', cuts', from', taken)
  {
    var frames', k := LogFrames(wal, g'.hdr), |Now(lock, g', wal).txns|;
    SyncAfterRestart(lock, g.base, g.hdr, frames, files, cuts, from, g'.base, g'.hdr, wal, frames', db, atEnd, h, start, read, r, f, k);
    cuts', from', taken := cuts, from, false;
    if r == Synced {
      cuts' := cuts + [k];
      if CaughtUp(lock, g'.base, g'.hdr, frames', files + [f], cuts + [k], |files|) {
        from', taken := |files|, true;
      }
    }
  }

  lemma {:induction false} StandsAfterRestart(lock: nat, pageSize: nat, gens: seq<Generation>, wals: seq<Bytes>, dbs: seq<seq<Page>>, i: nat, j: nat, s: nat,
                           files: seq<Captured>, cuts: seq<nat>, from: nat, atEnd: bool,
                           h: Header, start: nat, read: seq<Frame>, r: SyncResult, f: Captured, files': seq<Captured>)
    returns (s': nat, cuts': seq<nat>, from': nat)
    requires AllSeen(lock, pageSize, gens, wals, dbs) && j < |gens| && j == i + 1 && Standing(lock, gens, wals, i, s, files, cuts, from)
    requires gens[j].hdr != gens[s].hdr && VerifiedSync(lock, pageSize, files, wals[j], dbs[j], atEnd, h, start, read, r, f)
    requires files' == if r == Synced then files + [f] else files
    ensures Standing(lock, gens, wals, j, s', files', cuts', from')
  {
    EndSeen(lock, gens, wals, i, j, s, files, cuts, from);
    assert LaterAt(gens, wals, i, j) && BeginsWell(lock, gens, wals, j);
    NextBase(lock, gens, wals, i, j, s, files, cuts, from);
    RestartSeen(lock, pageSize, gens, wals, dbs, s, j);
    UntouchedAt(lock, pageSize, gens, wals, dbs, s, j);
    var taken;
    cuts', from', taken := AfterRestartSync(lock, gens[s], LogFrames(wals[s], gens[s].hdr), gens[j], wals[j], dbs[j], files, cuts, from, atEnd,
                                            h, start, read, r, f, files');
    s' := if taken then j else s;
  }

  lemma {:induction false} StandsAfterSync(lock: nat, pageSize: nat, gens: seq<Generation>, wals: seq<Bytes>, dbs: seq<seq<Page>>, i: nat, j: nat, s: nat,
                        files: seq<Captured>, cuts: seq<nat>, from: nat, atEnd: bool,
                        h: Header, start: nat, read: seq<Frame>, r: SyncResult, f: Captured, files': seq<Captured>)
    returns (s': nat, cuts': seq<nat>, from': nat)
    requires AllSeen(lock, pageSize, gens, wals, dbs) && j < |gens| && j == i + 1 && Standing(lock, gens, wals, i, s, files, cuts, from)
    requires VerifiedSync(lock, pageSize, files, wals[j], dbs[j], atEnd, h, start, read, r, f)
    requires files' == if r == Synced then files + [f] else files
    ensures Standing(lock, gens, wals, j, s', files', cuts', from')
  {
    if gens[j].hdr == gens[s].hdr {
      cuts' := StandsSame(lock, pageSize, gens, wals, dbs, i, j, s, files, cuts, from, atEnd, h, start, read, r, f, files');
      s', from' := j, from;
    } else {
      s', cuts', from' := StandsAfterRestart(lock, pageSize, gens, wals, dbs, i, j, s, files, cuts, from, atEnd, h, start, read, r, f, files');
    }
  }

  lemma {:induction false} SeenIsUsable(lock: nat, pageSize: nat, gens: seq<Generation>, wals: seq<Bytes>, dbs: seq<seq<Page>>, j: nat)
    requires AllSeen(lock, pageSize, gens, wals, dbs) && j < |gens|
    ensures |wals| == |dbs| == |gens| && ParseHeader(wals[j]).HeaderOk? && Usable(ParseHeader(wals[j]).header)
  {
    assert SightAt(lock, pageSize, gens, wals, dbs, j);
  }

  lemma {:induction false} StandsAtStart(lock: nat, pageSize: nat, gens: seq<Generation>, wals: seq<Bytes>, dbs: seq<seq<Page>>, files: seq<Captured>,
                      cuts: seq<nat>)
    requires AllSeen(lock, pageSize, gens, wals, dbs)
    requires CaughtUp(lock, gens[0].base, gens[0].hdr, LogFrames(wals[0], gens[0].hdr), files, cuts, 0)
    ensures Standing(lock, gens, wals, 0, 0, files, cuts, 0)
  {
  }

  lemma {:induction false} FirstSight(lock: nat, pageSize: nat, gens: seq<Generation>, wals: seq<Bytes>, dbs: seq<seq<Page>>)
    requires AllSeen(lock, pageSize, gens, wals, dbs)
    ensures ValidLog(lock, gens[0].base, gens[0].hdr, wals[0]) && BackedAtStart(lock, gens[0].base, gens[0].hdr, wals[0], dbs[0])
  {
    assert SightAt(lock, pageSize, gens, wals, dbs, 0);
  }

  method SyncNext(d: Database, wals: seq<Bytes>, dbs: seq<seq<Page>>, j: nat, ghost gens: seq<Generation>, ghost i: nat,
                  ghost s: nat, ghost cuts: seq<nat>, ghost from: nat)
    returns (ghost s': nat, ghost cuts': seq<nat>, ghost from': nat)
    requires AllSeen(d.lock, d.pageSize, gens, wals, dbs) && j < |gens| && j == i + 1
    requires Standing(d.lock, gens, wals, i, s, d.files, cuts, from)
    modifies d
    ensures Standing(d.lock, gens, wals, j, s', d.files, cuts', from')
  {
    SeenIsUsable(d.lock, d.pageSize, gens, wals, dbs, j);
    ghost var h, start, read, files, atEnd := gens[0].hdr, 0, [], d.files, d.syncedToWALEnd;
    var r, f;
    r, f, h, start, read := d.VerifyAndSync(wals[j], dbs[j]);
    s', cuts', from' := StandsAfterSync(d.lock, d.pageSize, gens, wals, dbs, i, j, s, files, cuts, from, atEnd, h, start, read, r, f, d.files);
  }

  /** Syncing again and again, while the log grows, is started over, cut off or rewritten in place. */
  method Monitor(d: Database, wals: seq<Bytes>, dbs: seq<seq<Page>>, ghost gens: seq<Generation>)
    returns (ghost s: nat, ghost cuts: seq<nat>, ghost from: nat)
    requires AllSeen(d.lock, d.pageSize, gens, wals, dbs) && d.files == []
    modifies d
    ensures Standing(d.lock, gens, wals, |gens| - 1, s, d.files, cuts, from)
  {
    FirstSight(d.lock, d.pageSize, gens, wals, dbs);
    cuts := SyncFirst(d, wals[0], dbs[0], gens[0].base, gens[0].hdr);
    StandsAtStart(d.lock, d.pageSize, gens, wals, dbs, d.files, cuts);
    s, from := 0, 0;
    ghost var seen: nat := 0;
    for j := 1 to |wals|
      invariant seen == j - 1 && Standing(d.lock, gens, wals, seen, s, d.files, cuts, from)
    {
      s, cuts, from := SyncNext(d, wals, dbs, j, gens, seen, s, cuts, from);
      seen := j;
    }
  }

  lemma {:induction false} StandingPrefix(lock: nat, gens: seq<Generation>, wals: seq<Bytes>, j: nat, s: nat,
                       files: seq<Captured>, cuts: seq<nat>, from: nat)
    requires |gens| == |wals| && j < |gens| && Standing(lock, gens, wals, j, s, files, cuts, from)
    ensures s < |gens| && Now(lock, gens[s], wals[s]).txns <= Now(lock, gens[j], wals[j]).txns
    ensures Open(gens, wals, j) ==> |Now(lock, gens[s], wals[s]).txns| == |Now(lock, gens[j], wals[j]).txns|
  {
    assert s < j && Open(gens, wals, j) ==> !HeldBackAt(gens, wals, s, j);
  }

  /** Applying the files in order gives the database after transaction t. */
  ghost predicate AddUpTo(lock: nat, files: seq<Captured>, h: History, t: TXID) {
    && t <= |h.txns| && ValidHistory(History(lock, ChangesOf(files)))
    && SameImage(lock, State(History(lock, ChangesOf(files)), |files|), State(h, t))
  }

  lemma {:induction false} AddUpInMore(lock: nat, files: seq<Captured>, h: History, more: History, t: TXID)
    requires AddUpTo(lock, files, h, t) && h.lock == more.lock && h.txns <= more.txns
    ensures AddUpTo(lock, files, more, t)
  {
    StateExtends(h, more, t);
  }

  lemma {:induction false} AddUpAt(lock: nat, pageSize: nat, g: Generation, wal: Bytes, db: seq<Page>,
                files: seq<Captured>, cuts: seq<nat>, from: nat, h: History, t: nat)
    requires Sight(lock, pageSize, g, wal, db) && CaughtUp(lock, g.base, g.hdr, LogFrames(wal, g.hdr), files, cuts, from)
    requires h == Now(lock, g, wal) && t == |h.txns|
    ensures AddUpTo(lock, files, h, t)
  {
    FilesAddUp(lock, g.base, g.hdr, LogFrames(wal, g.hdr), files, cuts, from);
  }

  /** The files add up to the database SQLite had after some transaction; after the last one, unless the log
      seen last holds its frames back. */
  lemma {:induction false} FilesStand(lock: nat, pageSize: nat, gens: seq<Generation>, wals: seq<Bytes>, dbs: seq<seq<Page>>, s: nat,
                   files: seq<Captured>, cuts: seq<nat>, from: nat, h: History) returns (t: nat)
    requires AllSeen(lock, pageSize, gens, wals, dbs) && h == Now(lock, gens[|gens| - 1], wals[|gens| - 1])
    requires Standing(lock, gens, wals, |gens| - 1, s, files, cuts, from)
    ensures AddUpTo(lock, files, h, t) && (Open(gens, wals, |gens| - 1) ==> t == |h.txns|)
  {
    StandingPrefix(lock, gens, wals, |gens| - 1, s, files, cuts, from);
    assert SightAt(lock, pageSize, gens, wals, dbs, s);
    var h' := Now(lock, gens[s], wals[s]);
    t := |h'.txns|;
    AddUpAt(lock, pageSize, gens[s], wals[s], dbs[s], files, cuts, from, h', t);
    AddUpInMore(lock, files, h', h, t);
  }
}
