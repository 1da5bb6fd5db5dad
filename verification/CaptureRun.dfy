/** Incremental capture over one generation of the log: however often the log is synced while it
    grows, the files together hold what one reading of the whole log holds. */
module CaptureRun {
  import opened Ltx
  import opened PageImage
  import opened Wal
  import opened WalIndex
  import opened WalReader
  import opened CaptureTheory
  import opened LogPosition
  import opened Capture

  ghost function ChangesOf(files: seq<Captured>): (r: seq<Changes>)
    ensures |r| == |files|
  {
    if files == [] then [] else ChangesOf(files[..|files| - 1]) + [files[|files| - 1].changes]
  }

  /** From file `from` on the captured stretches follow each other without a gap, beginning with the
      first frame of the log. */
  ghost predicate Segmented(files: seq<Captured>, from: nat) {
    && from < |files| && files[from].walOffset == WAL_HEADER_SIZE
    && forall i :: from < i < |files| ==> Adjoins(files, i)
  }

  predicate Adjoins(files: seq<Captured>, i: nat)
    requires 0 < i < |files|
  {
    files[i].walOffset == files[i - 1].End()
  }

  predicate InSegment(files: seq<Captured>, from: nat, j: nat, offset: nat) {
    from <= j < |files| && files[j].walOffset <= offset < files[j].End()
  }

  /** What the next sync works from: the end of the last file, or a snapshot if there is none. */
  function NextInfo(files: seq<Captured>): SyncInfo {
    if files == [] then SyncInfo(WAL_HEADER_SIZE, 0, 0, true)
    else
      ReadOn(files[|files| - 1], false)
  }

  /** The files reach to the last commit of these frames and hold all transactions up to it. */
  ghost predicate CaughtUp(lock: nat, base: seq<Changes>, hdr: Header, frames: seq<Frame>, files: seq<Captured>, cuts: seq<nat>,
                           from: nat)
  {
    var h := LogHistory(lock, base, frames);
    && Segmented(files, from) && Groups(h, ChangesOf(files), cuts) && CutBefore(cuts, |cuts|) == |h.txns|
    && NextInfo(files) == SyncInfo(FrameOffset(hdr, LastCommit(frames, |frames|)), hdr.salt1, hdr.salt2, false)
  }

  lemma {:induction false} LogHistoryIsLogged(lock: nat, base: seq<Changes>, frames: seq<Frame>)
    ensures Logged(LogHistory(lock, base, frames), base, frames, |frames|, |LogHistory(lock, base, frames).txns|)
  {
  }

  lemma {:induction false} OffsetsDiffer(hdr: Header, i: nat, j: nat)
    ensures FrameOffset(hdr, i) == FrameOffset(hdr, j) ==> i == j
  {
    if i < j {
      FrameOffsetGrows(hdr, i, j);
    } else if j < i {
      FrameOffsetGrows(hdr, j, i);
    }
  }

  // ---------------------------------------------------------------------------------------
  // Reading on

  /** Reading from the header, if nothing of the log was captured so far. */
  lemma {:induction false} ReadsAll(wal: Bytes, hdr: Header, info: SyncInfo, frames: seq<Frame>, start: nat, read: seq<Frame>)
    requires frames == LogFrames(wal, hdr) && info.offset == FrameOffset(hdr, 0)
    requires ReadsFrom(wal, hdr, info, start, read)
    ensures start == 0 && read == frames
  {
  }

  lemma {:induction false} PrevFrameThere(wal: Bytes, hdr: Header, info: SyncInfo, c: nat, at: nat)
    requires c == at + 1 && info.offset == FrameOffset(hdr, c) && Accepts(wal, hdr, at, info.salt1, info.salt2, None)
    ensures !PrevFrameGone(wal, hdr, info) && info.offset != WAL_HEADER_SIZE
  {
  }

  /** A reader that finds its previous frame goes on behind it. */
  lemma {:induction false} ReadsBehind(wal: Bytes, hdr: Header, info: SyncInfo, c: nat, at: nat, start: nat, read: seq<Frame>)
    requires c == at + 1 && info.offset == FrameOffset(hdr, c) && Accepts(wal, hdr, at, info.salt1, info.salt2, None)
    requires ReadsFrom(wal, hdr, info, start, read)
    ensures start == c && read == Chain(wal, hdr, c, info.salt1, info.salt2, StoredSums(wal, hdr, at))
  {
    PrevFrameThere(wal, hdr, info, c, at);
    OffsetsDiffer(hdr, start, c);
  }

  /** A reader opened behind frame `at` of the log, with the salts of the log, reads exactly the frames
      from c on. */
  lemma {:induction false} ReadsOn(wal: Bytes, hdr: Header, info: SyncInfo, frames: seq<Frame>, c: nat, at: nat, start: nat, read: seq<Frame>)
    requires frames == LogFrames(wal, hdr) && 0 < c <= |frames| && c == at + 1
    requires info.offset == FrameOffset(hdr, c) && info.salt1 == hdr.salt1 && info.salt2 == hdr.salt2
    requires ReadsFrom(wal, hdr, info, start, read)
    ensures start == c && read == frames[c..]
  {
    ChainSuffix(wal, hdr, 0, hdr.salt1, hdr.salt2, hdr.sums, frames, c, at);
    ReadsBehind(wal, hdr, info, c, at, start, read);
  }

  lemma {:induction false} CanOpen(wal: Bytes, hdr: Header, info: SyncInfo, c: nat)
    requires ParseHeader(wal) == HeaderOk(hdr) && info.offset == FrameOffset(hdr, c)
    ensures !CannotOpen(wal, info)
  {
  }

  /** Where the captured stretch ends: at the last commit. */
  lemma {:induction false} EndsAtCommit(h: History, base: seq<Changes>, hdr: Header, frames: seq<Frame>, c: nat, f: Captured, m: nat, k: nat)
    requires ValidHistory(h) && Logged(h, base, frames, |frames|, k)
    requires Boundary(frames, c) && m == Count(base, frames, c)
    requires f.walOffset == FrameOffset(hdr, c) && (f.walSize == 0 <==> Chunk(frames[c..]).pages == map[])
    requires EndsWell(frames[c..], hdr, c, if f.walSize == 0 then 0 else f.End())
    ensures f.End() == FrameOffset(hdr, LastCommit(frames, |frames|))
  {
    ChunkPages(h, base, frames, c, m, k);
    CountedUpTo(h, base, frames, c, m, k);
    if c < LastCommit(frames, |frames|) {
      EndOfStretch(h, base, hdr, frames, c, LastCommit(frames, |frames|), f.End(), k);
    }
  }

  lemma {:induction false} EndOfStretch(h: History, base: seq<Changes>, hdr: Header, frames: seq<Frame>, c: nat, n: nat, maxOffset: nat, k: nat)
    requires ValidHistory(h) && Logged(h, base, frames, |frames|, k)
    requires Boundary(frames, c) && c < n && n == LastCommit(frames, |frames|) && EndsWell(frames[c..], hdr, c, maxOffset)
    ensures maxOffset == FrameOffset(hdr, n)
  {
    CommitBehind(frames, c, |frames|, |frames| - c);
    TxnsUpToCommit(frames, |frames|, n);
    LastFrameInside(h, base, frames, n, k);
    assert frames[c..][n - c - 1] == frames[n - 1];
    EndsWellAt(frames[c..], hdr, c, maxOffset, n - c, n);
  }

  lemma {:induction false} EndsWellAt(read: seq<Frame>, hdr: Header, start: nat, maxOffset: nat, r: nat, n: nat)
    requires EndsWell(read, hdr, start, maxOffset) && r == LastCommit(read, |read|) && n == start + r
    requires 0 < r && read[r - 1].pgno <= read[r - 1].commit
    ensures maxOffset == FrameOffset(hdr, n)
  {
  }

  // ---------------------------------------------------------------------------------------
  // One more sync

  /** A log that continues the base database by SQLite's rules. */
  ghost predicate ValidLog(lock: nat, base: seq<Changes>, hdr: Header, wal: Bytes) {
    ParseHeader(wal) == HeaderOk(hdr) && Usable(hdr) && ValidHistory(LogHistory(lock, base, LogFrames(wal, hdr)))
  }

  lemma {:induction false} ChangesOfAppend(files: seq<Captured>, f: Captured)
    ensures ChangesOf(files + [f]) == ChangesOf(files) + [f.changes]
  {
  }

  lemma {:induction false} SegmentedAppend(files: seq<Captured>, from: nat, f: Captured)
    requires Segmented(files, from) && f.walOffset == files[|files| - 1].End()
    ensures Segmented(files + [f], from)
  {
    forall i | from < i < |files + [f]|
      ensures Adjoins(files + [f], i)
    {
      if i < |files| {
        assert Adjoins(files, i);
      }
    }
  }

  /** Adding a file that holds the transactions up to the end of the log and ends at its last commit. */
  lemma {:induction false} CatchesUp(lock: nat, base: seq<Changes>, hdr: Header, frames: seq<Frame>, files: seq<Captured>, cuts: seq<nat>,
                  from: nat, f: Captured, a: nat, k: nat)
    requires k == |LogHistory(lock, base, frames).txns| && Groups(LogHistory(lock, base, frames), ChangesOf(files), cuts)
    requires CutBefore(cuts, |cuts|) <= k && (a == 1 || a == CutBefore(cuts, |cuts|) + 1)
    requires IsFile(LogHistory(lock, base, frames), f.changes, a, k)
    requires Segmented(files + [f], from)
    requires f.End() == FrameOffset(hdr, LastCommit(frames, |frames|)) && f.salt1 == hdr.salt1 && f.salt2 == hdr.salt2
    ensures CaughtUp(lock, base, hdr, frames, files + [f], cuts + [k], from)
  {
    ChangesOfAppend(files, f);
    GroupsAppend(LogHistory(lock, base, frames), ChangesOf(files), cuts, f.changes, a, k);
  }

  /** The first sync takes a snapshot of everything committed so far. */
  lemma {:induction false} FirstSync(lock: nat, base: seq<Changes>, hdr: Header, wal: Bytes, frames: seq<Frame>, db: seq<Page>,
                  h: Header, start: nat, read: seq<Frame>, r: SyncResult, f: Captured)
    requires ValidLog(lock, base, hdr, wal) && frames == LogFrames(wal, hdr)
    requires LogHistory(lock, base, frames).txns != []
    requires DbBacks(LogHistory(lock, base, frames), db, |base|, |LogHistory(lock, base, frames).txns|)
    requires SyncOutcome(lock, wal, db, NextInfo([]), h, start, read, r, f)
    ensures r == Synced && CaughtUp(lock, base, hdr, frames, [f], [|LogHistory(lock, base, frames).txns|], 0)
  {
    var hist, k := LogHistory(lock, base, frames), |LogHistory(lock, base, frames).txns|;
    LogHistoryIsLogged(lock, base, frames);
    CanOpen(wal, hdr, NextInfo([]), 0);
    ReadsAll(wal, hdr, NextInfo([]), frames, start, read);
    assert frames[0..] == frames;
    SnapshotIsExact(hist, base, frames, 0, |base|, k, db);
    EndsAtCommit(hist, base, hdr, frames, 0, f, |base|, k);
    assert IsFile(hist, f.changes, 1, k);
    assert [] + [f] == [f] && [] + [k] == [k];
    assert Groups(hist, ChangesOf([]), []);
    CatchesUp(lock, base, hdr, frames, [], [], 0, f, 1, k);
  }

  /** What the files hold is not disturbed when the log grows. */
  lemma {:induction false} GrowthKeeps(lock: nat, base: seq<Changes>, frames: seq<Frame>, more: seq<Frame>, files: seq<Changes>, cuts: seq<nat>, c: nat)
    requires Grown(frames, more) && c == LastCommit(frames, |frames|)
    requires Groups(LogHistory(lock, base, frames), files, cuts) && CutBefore(cuts, |cuts|) == |LogHistory(lock, base, frames).txns|
    ensures Groups(LogHistory(lock, base, more), files, cuts)
    ensures Boundary(more, c) && CutBefore(cuts, |cuts|) == Count(base, more, c)
  {
    GrownTxns(frames, more, c);
    GroupsExtend(LogHistory(lock, base, frames), LogHistory(lock, base, more), files, cuts);
  }

  /** A sync that works from the last captured file reads on where that file ends. */
  lemma {:induction false} Resumes(lock: nat, wal: Bytes, hdr: Header, db: seq<Page>, info: SyncInfo, frames: seq<Frame>, c: nat,
                h: Header, start: nat, read: seq<Frame>, r: SyncResult, f: Captured)
    requires ParseHeader(wal) == HeaderOk(hdr) && frames == LogFrames(wal, hdr) && c <= |frames|
    requires info == SyncInfo(FrameOffset(hdr, c), hdr.salt1, hdr.salt2, false)
    requires SyncOutcome(lock, wal, db, info, h, start, read, r, f)
    ensures WriteOutcome(lock, hdr, c, frames[c..], db, false, r, f)
    ensures f.salt1 == hdr.salt1 && f.salt2 == hdr.salt2
  {
    CanOpen(wal, hdr, info, c);
    if c == 0 {
      ReadsAll(wal, hdr, info, frames, start, read);
      assert frames[0..] == frames;
    } else {
      ReadsOn(wal, hdr, info, frames, c, c - 1, start, read);
    }
  }

  /** It finds exactly the transactions committed since. */
  lemma {:induction false} TakesNewTransactions(lock: nat, h: History, base: seq<Changes>, hdr: Header, frames: seq<Frame>, c: nat, db: seq<Page>,
                             m: nat, k: nat, r: SyncResult, f: Captured)
    requires ValidHistory(h) && Logged(h, base, frames, |frames|, k) && Boundary(frames, c) && m == Count(base, frames, c)
    requires WriteOutcome(lock, hdr, c, frames[c..], db, false, r, f)
    ensures m <= k && (r == Skipped <==> m == k) && (m == k <==> c == LastCommit(frames, |frames|)) && r != Failed
    ensures r == Synced ==> f.walOffset == FrameOffset(hdr, c) && f.End() == FrameOffset(hdr, LastCommit(frames, |frames|))
    ensures r == Synced ==> IsFile(h, f.changes, m + 1, k)
  {
    ChunkPages(h, base, frames, c, m, k);
    if r == Synced {
      EndsAtCommit(h, base, hdr, frames, c, f, m, k);
    }
  }

  /** The log has grown since the files caught up with it. */
  lemma {:induction false} Grew(lock: nat, base: seq<Changes>, hdr: Header, frames: seq<Frame>, more: seq<Frame>,
             files: seq<Captured>, cuts: seq<nat>, from: nat, c: nat, m: nat, k: nat)
    requires CaughtUp(lock, base, hdr, frames, files, cuts, from) && Grown(frames, more)
    requires c == LastCommit(frames, |frames|) && m == CutBefore(cuts, |cuts|) && k == |LogHistory(lock, base, more).txns|
    ensures Boundary(more, c) && m == Count(base, more, c) && Logged(LogHistory(lock, base, more), base, more, |more|, k)
    ensures NextInfo(files) == SyncInfo(FrameOffset(hdr, c), hdr.salt1, hdr.salt2, false)
    ensures m == k && c == LastCommit(more, |more|) ==> CaughtUp(lock, base, hdr, more, files, cuts, from)
  {
    LogHistoryIsLogged(lock, base, more);
    GrowthKeeps(lock, base, frames, more, ChangesOf(files), cuts, c);
  }

  lemma {:induction false} GrewBy(lock: nat, base: seq<Changes>, hdr: Header, frames: seq<Frame>, more: seq<Frame>,
               files: seq<Captured>, cuts: seq<nat>, from: nat, f: Captured, m: nat, k: nat)
    requires CaughtUp(lock, base, hdr, frames, files, cuts, from) && Grown(frames, more)
    requires m == CutBefore(cuts, |cuts|) && k == |LogHistory(lock, base, more).txns|
    requires f.walOffset == NextInfo(files).offset && f.salt1 == hdr.salt1 && f.salt2 == hdr.salt2
    requires f.End() == FrameOffset(hdr, LastCommit(more, |more|)) && IsFile(LogHistory(lock, base, more), f.changes, m + 1, k)
    ensures CaughtUp(lock, base, hdr, more, files + [f], cuts + [k], from)
  {
    GrowthKeeps(lock, base, frames, more, ChangesOf(files), cuts, LastCommit(frames, |frames|));
    SegmentedAppend(files, from, f);
    CatchesUp(lock, base, hdr, more, files, cuts, from, f, m + 1, k);
  }

  /** Every later sync takes exactly the transactions committed since, and nothing if there are none. */
  lemma {:induction false} NextSync(lock: nat, base: seq<Changes>, hdr: Header, frames: seq<Frame>, wal: Bytes, more: seq<Frame>, db: seq<Page>,
                 files: seq<Captured>, cuts: seq<nat>, from: nat, h: Header, start: nat, read: seq<Frame>, r: SyncResult, f: Captured, k: nat)
    requires CaughtUp(lock, base, hdr, frames, files, cuts, from) && Grown(frames, more)
    requires ValidLog(lock, base, hdr, wal) && more == LogFrames(wal, hdr) && k == |LogHistory(lock, base, more).txns|
    requires SyncOutcome(lock, wal, db, NextInfo(files), h, start, read, r, f)
    ensures r == Skipped ==> CaughtUp(lock, base, hdr, more, files, cuts, from)
    ensures r == Synced ==> CaughtUp(lock, base, hdr, more, files + [f], cuts + [k], from)
    ensures r != Failed && (r == Skipped <==> LastCommit(more, |more|) == LastCommit(frames, |frames|))
  {
    var c, m := LastCommit(frames, |frames|), CutBefore(cuts, |cuts|);
    Grew(lock, base, hdr, frames, more, files, cuts, from, c, m, k);
    Resumes(lock, wal, hdr, db, NextInfo(files), more, c, h, start, read, r, f);
    TakesNewTransactions(lock, LogHistory(lock, base, more), base, hdr, more, c, db, m, k, r, f);
    if r == Synced {
      GrewBy(lock, base, hdr, frames, more, files, cuts, from, f, m, k);
    }
  }

  // ---------------------------------------------------------------------------------------
  // Finding the place again

  /** Frame n, as read from a valid log. */
  lemma {:induction false} LogFrame(wal: Bytes, hdr: Header, frames: seq<Frame>, n: nat)
    requires ParseHeader(wal) == HeaderOk(hdr) && frames == LogFrames(wal, hdr) && n < |frames|
    ensures Complete(wal, hdr, n) && Salted(wal, hdr, n, hdr.salt1, hdr.salt2) && FrameAt(wal, hdr, n) == frames[n]
  {
    LogFramesAreValid(wal, hdr, n);
  }

  /** The file holds the page of this frame, as the frame has it. */
  predicate HoldsPage(f: Changes, frame: Frame) {
    frame.pgno in f.pages && f.pages[frame.pgno] == PageOf(frame.data)
  }

  lemma {:induction false} LastPageCaptured(lock: nat, base: seq<Changes>, frames: seq<Frame>, c: nat, f: Changes, a: nat, k: nat)
    requires ValidHistory(LogHistory(lock, base, frames)) && c == LastCommit(frames, |frames|) && 0 < c
    requires k == |LogHistory(lock, base, frames).txns| && IsFile(LogHistory(lock, base, frames), f, a, k)
    ensures HoldsPage(f, frames[c - 1])
  {
    var h := LogHistory(lock, base, frames);
    LogHistoryIsLogged(lock, base, frames);
    TxnsUpToCommit(frames, |frames|, c);
    LastFrameInside(h, base, frames, c, k);
    var b := LastCommit(frames, c - 1);
    LoggedStep(h, base, frames, c, k, b);
    assert frames[b..][c - b - 1] == frames[c - 1];
    assert Writes(frames[b..], c - b) == Writes(frames[b..], c - b - 1)[frames[c - 1].pgno := PageOf(frames[c - 1].data)];
  }

  lemma {:induction false} FrameMatches(wal: Bytes, hdr: Header, n: nat, last: Captured, frame: Frame)
    requires Accepts(wal, hdr, n, last.salt1, last.salt2, None) && FrameAt(wal, hdr, n) == frame && HoldsPage(last.changes, frame)
    ensures FrameOffset(hdr, n) + WAL_FRAME_HEADER_SIZE + hdr.pageSize <= |wal|
    ensures PageMatches(wal, hdr.pageSize, last, FrameOffset(hdr, n))
  {
  }

  lemma {:induction false} LastGroup(h: History, files: seq<Captured>, cuts: seq<nat>) returns (a: nat)
    requires Groups(h, ChangesOf(files), cuts) && files != []
    ensures IsFile(h, files[|files| - 1].changes, a, CutBefore(cuts, |cuts|))
  {
    var i := |files| - 1;
    assert GroupAt(h, ChangesOf(files), cuts, i);
    a :| IsFile(h, ChangesOf(files)[i], a, cuts[i]) && (a == 1 || a == CutBefore(cuts, i) + 1);
  }

  lemma {:induction false} LogReaches(wal: Bytes, hdr: Header, frames: seq<Frame>, c: nat)
    requires ParseHeader(wal) == HeaderOk(hdr) && frames == LogFrames(wal, hdr) && c <= |frames|
    ensures FrameOffset(hdr, c) <= |wal|
  {
    LogFramesFrom(wal, hdr, frames, c);
  }

  /** As long as the log only grows the next sync reads on where the last file ends. */
  lemma {:induction false} Undisturbed(lock: nat, base: seq<Changes>, hdr: Header, frames: seq<Frame>, wal: Bytes, more: seq<Frame>,
                    files: seq<Captured>, cuts: seq<nat>, from: nat, atEnd: bool)
    requires CaughtUp(lock, base, hdr, frames, files, cuts, from) && ValidHistory(LogHistory(lock, base, frames))
    requires ParseHeader(wal) == HeaderOk(hdr) && more == LogFrames(wal, hdr) && Grown(frames, more)
    ensures NextPosition(files, hdr.pageSize, wal, atEnd) == Some(NextInfo(files))
  {
    var c, last := LastCommit(frames, |frames|), files[|files| - 1];
    LogReaches(wal, hdr, more, c);
    if 0 < c {
      LastFilePage(lock, base, hdr, frames, files, cuts, from, c);
      SamePrefix(more, frames, c);
      InPlace(wal, hdr, more, c - 1, last);
    }
    Found(wal, hdr, c, last, atEnd);
  }

  lemma {:induction false} InPlace(wal: Bytes, hdr: Header, more: seq<Frame>, n: nat, last: Captured)
    requires ParseHeader(wal) == HeaderOk(hdr) && more == LogFrames(wal, hdr) && n < |more|
    requires SaltsOf(last) == Salts(hdr.salt1, hdr.salt2) && HoldsPage(last.changes, more[n])
    ensures FrameOffset(hdr, n) + WAL_FRAME_HEADER_SIZE + hdr.pageSize <= |wal|
    ensures PageMatches(wal, hdr.pageSize, last, FrameOffset(hdr, n))
  {
    LogFrame(wal, hdr, more, n);
    FrameMatches(wal, hdr, n, last, more[n]);
  }

  /** The last file holds the page of the last committed frame. */
  lemma {:induction false} LastFilePage(lock: nat, base: seq<Changes>, hdr: Header, frames: seq<Frame>, files: seq<Captured>, cuts: seq<nat>,
                     from: nat, c: nat)
    requires CaughtUp(lock, base, hdr, frames, files, cuts, from) && ValidHistory(LogHistory(lock, base, frames))
    requires c == LastCommit(frames, |frames|) && 0 < c
    ensures HoldsPage(files[|files| - 1].changes, frames[c - 1])
  {
    var a := LastGroup(LogHistory(lock, base, frames), files, cuts);
    LastPageCaptured(lock, base, frames, c, files[|files| - 1].changes, a, CutBefore(cuts, |cuts|));
  }

  lemma {:induction false} Found(wal: Bytes, hdr: Header, c: nat, last: Captured, atEnd: bool)
    requires ParseHeader(wal) == HeaderOk(hdr) && SaltsOf(last) == Salts(hdr.salt1, hdr.salt2) && last.End() == FrameOffset(hdr, c) <= |wal|
    requires 0 < c ==> PageMatches(wal, hdr.pageSize, last, FrameOffset(hdr, c - 1))
    ensures Position(last, hdr.pageSize, wal, atEnd) == Some(ReadOn(last, false))
  {
  }

  // ---------------------------------------------------------------------------------------
  // Any number of syncs

  /** The database file holds, at the first sync, what the log does not. */
  ghost predicate BackedAtStart(lock: nat, base: seq<Changes>, hdr: Header, wal: Bytes, db: seq<Page>) {
    var h := LogHistory(lock, base, LogFrames(wal, hdr));
    h.txns != [] && DbBacks(h, db, |base|, |h.txns|)
  }

  method SyncFirst(d: Database, wal: Bytes, db: seq<Page>, ghost base: seq<Changes>, ghost hdr: Header) returns (ghost cuts: seq<nat>)
    requires ValidLog(d.lock, base, hdr, wal) && BackedAtStart(d.lock, base, hdr, wal, db) && d.files == []
    modifies d
    ensures CaughtUp(d.lock, base, hdr, LogFrames(wal, hdr), d.files, cuts, 0)
  {
    ghost var h, start, read;
    var r, f;
    r, f, h, start, read := d.VerifyAndSync(wal, db);
    ghost var frames := LogFrames(wal, hdr);
    FirstSync(d.lock, base, hdr, wal, frames, db, h, start, read, r, f);
    assert [] + [f] == [f];
    cuts := [|LogHistory(d.lock, base, frames).txns|];
  }

  /** Applying the files in order gives the database after the last transaction of the log; what one
      reading of the whole log gives. */
  lemma {:induction false} FilesAddUp(lock: nat, base: seq<Changes>, hdr: Header, frames: seq<Frame>, files: seq<Captured>, cuts: seq<nat>, from: nat)
    requires CaughtUp(lock, base, hdr, frames, files, cuts, from) && ValidHistory(LogHistory(lock, base, frames))
    ensures var h := LogHistory(lock, base, frames);
            && ValidHistory(History(lock, ChangesOf(files)))
            && SameImage(lock, State(History(lock, ChangesOf(files)), |files|), State(h, |h.txns|))
  {
    GroupsKeepState(LogHistory(lock, base, frames), ChangesOf(files), cuts, |files|);
    GroupsAreValid(LogHistory(lock, base, frames), ChangesOf(files), cuts);
  }

  /** One reading of the whole log, laid over the database it continues, gives that database too. */
  lemma {:induction false} WholeLogIsCurrent(lock: nat, base: seq<Changes>, frames: seq<Frame>)
    requires ValidHistory(LogHistory(lock, base, frames)) && LastCommit(frames, |frames|) > 0
    ensures var h := LogHistory(lock, base, frames);
            && |base| <= |h.txns|
            && SameImage(lock, State(h, |base|).Apply(Chunk(frames)), State(h, |h.txns|))
  {
    var h := LogHistory(lock, base, frames);
    LogHistoryIsLogged(lock, base, frames);
    NewChunk(h, base, frames, 0, |base|, |h.txns|);
    assert frames[0..] == frames;
    ApplyFileContent(h, State(h, |base|), |base|, |base| + 1, |h.txns|);
  }

  lemma {:induction false} SegmentsOrdered(files: seq<Captured>, from: nat, i: nat, j: nat)
    requires Segmented(files, from) && from <= i < j < |files|
    ensures files[i].End() <= files[j].walOffset
    decreases j
  {
    assert Adjoins(files, j);
    if i < j - 1 {
      SegmentsOrdered(files, from, i, j - 1);
    }
  }

  lemma {:induction false} SegmentFound(files: seq<Captured>, from: nat, n: nat, offset: nat) returns (j: nat)
    requires Segmented(files, from) && from <= n < |files| && WAL_HEADER_SIZE <= offset < files[n].End()
    ensures InSegment(files, from, j, offset)
    decreases n
  {
    if files[n].walOffset <= offset {
      j := n;
    } else {
      assert Adjoins(files, n);
      j := SegmentFound(files, from, n - 1, offset);
    }
  }

  /** Every committed frame lies in the captured stretch of exactly one file. */
  lemma {:induction false} EachFrameOnce(lock: nat, base: seq<Changes>, hdr: Header, frames: seq<Frame>, files: seq<Captured>, cuts: seq<nat>, from: nat, i: nat)
    returns (j: nat)
    requires CaughtUp(lock, base, hdr, frames, files, cuts, from) && i < LastCommit(frames, |frames|)
    ensures InSegment(files, from, j, FrameOffset(hdr, i))
    ensures forall other: nat :: InSegment(files, from, other, FrameOffset(hdr, i)) ==> other == j
  {
    FrameOffsetGrows(hdr, i, LastCommit(frames, |frames|));
    j := SegmentFound(files, from, |files| - 1, FrameOffset(hdr, i));
    forall other: nat | InSegment(files, from, other, FrameOffset(hdr, i))
      ensures other == j
    {
      if other < j {
        SegmentsOrdered(files, from, other, j);
      } else if j < other {
        SegmentsOrdered(files, from, j, other);
      }
    }
  }
}
