/** Logs on which capture does not do what its comments say: bytes as SQLite writes them, what is found in
    them, and what is lost, kept back or stale. */
module LogExamples {
  import opened Ltx
  import opened PageImage
  import opened Wal
  import opened WalIndex
  import opened WalReader
  import opened WalWriter
  import opened CaptureTheory
  import opened LogPosition
  import opened Capture
  import opened CaptureRun
  import opened LogRestart

  const BLANK: Bytes := [0, 0, 0, 0, 0, 0, 0, 0]

  lemma {:induction false} BlankIsZero(b: Bytes)
    requires forall i :: 0 <= i < |b| ==> b[i] == 0
    ensures PageOf(b) == ZERO
    decreases |b|
  {
    if b != [] {
      BlankIsZero(b[..|b| - 1]);
    }
  }

  lemma BlankFrames(h: Header, frames: seq<Frame>)
    requires h.pageSize == 8
    requires forall i :: 0 <= i < |frames| ==> frames[i].pgno < TWO_32 && frames[i].commit < TWO_32 && frames[i].data == BLANK
    ensures FramesFit(h, frames)
  {
  }

  /** A log of blank pages of eight bytes, with these salts. */
  ghost predicate BlankLog(wal: Bytes, h: Header, salt1: nat, salt2: nat, frames: seq<Frame>) {
    && ParseHeader(wal) == HeaderOk(h) && LogFrames(wal, h) == frames && |wal| == FrameOffset(h, |frames|)
    && h.pageSize == 8 && h.salt1 == salt1 && h.salt2 == salt2
    && forall i :: 0 <= i < |frames| ==> frames[i].data == BLANK
  }

  lemma WriteBlankLog(salt1: Word32, salt2: Word32, frames: seq<Frame>) returns (wal: Bytes, h: Header)
    requires forall i :: 0 <= i < |frames| ==> frames[i].pgno < TWO_32 && frames[i].commit < TWO_32 && frames[i].data == BLANK
    ensures BlankLog(wal, h, salt1, salt2, frames) && h == LogHeader(false, 8, 0, salt1, salt2)
  {
    h := LogHeader(false, 8, 0, salt1, salt2);
    BlankFrames(h, frames);
    wal := LogBytes(false, 8, 0, salt1, salt2, frames);
    WholeLogRoundTrip(false, 8, 0, salt1, salt2, frames);
  }

  // ---------------------------------------------------------------------------------------
  // A write that is lost

  const LOCK := 9

  /** Transaction 1 creates page 1 and was captured from the first frame of a log. Transaction 2 adds page 2;
      the log was then cut off, and transaction 3 is the first of the new one. */
  const CREATED := Captured(32, 32, 1, 2, Changes(1, map[1 := 1]))
  const GREW := Changes(2, map[2 := 2])

  ghost predicate LostRun(wal: Bytes, h: Header, frames: seq<Frame>, hist: History) {
    && frames == [Frame(1, 2, BLANK)] && BlankLog(wal, h, 3, 4, frames)
    && hist == LogHistory(LOCK, [CREATED.changes, GREW], frames)
  }

  lemma OneTxn(frames: seq<Frame>, pgno: nat, commit: nat)
    requires frames == [Frame(pgno, commit, BLANK)] && commit > 0 && pgno <= commit
    ensures LastCommit(frames, 1) == 1 && Txns(frames, 1) == [Changes(commit, map[pgno := ZERO])]
    ensures Chunk(frames) == Changes(commit, map[pgno := ZERO])
  {
    BlankIsZero(BLANK);
    assert LastCommit(frames, 0) == 0 && Txns(frames, 0) == [];
    assert frames[0..] == frames;
    assert Writes(frames, 0) == map[];
    assert Writes(frames, 1) == map[pgno := ZERO];
  }

  lemma LastOfOne(h: History, a: TXID, b: TXID)
    requires 1 <= a == b <= |h.txns|
    ensures LastWrites(h, a, b) == h.txns[a - 1].pages
  {
    assert LastWrites(h, a, b - 1) == map[];
  }

  lemma FirstState(h: History, t: TXID)
    requires t == 1 <= |h.txns|
    ensures State(h, t) == Image(0, map[]).Apply(h.txns[0])
  {
    assert State(h, t - 1) == Image(0, map[]);
  }

  lemma LostHistory(wal: Bytes, h: Header, frames: seq<Frame>, hist: History)
    requires LostRun(wal, h, frames, hist)
    ensures hist.txns == [CREATED.changes, GREW, Changes(2, map[1 := ZERO])]
  {
    OneTxn(frames, 1, 2);
  }

  lemma LostStates(hist: History, m: nat, b: nat, k: nat)
    requires hist == History(LOCK, [CREATED.changes, GREW, Changes(2, map[1 := ZERO])]) && m == 1 && b == 2 && k == 3
    ensures ValidHistory(hist) && Groups(hist, [CREATED.changes], [1]) && !NothingLost(hist, m, b, k)
  {
    assert ValidAt(hist, m) && ValidAt(hist, b) && ValidAt(hist, k);
    LastOfOne(hist, m, m);
    assert FileContent(hist, m, m) == CREATED.changes;
    assert IsFile(hist, CREATED.changes, m, m);
    assert GroupAt(hist, [CREATED.changes], [1], 0);
    FirstState(hist, m);
    LastOfOne(hist, b, b);
    WrittenHoldsLast(hist, b, b, 2);
    LastOfOne(hist, k, k);
    assert !KeptPage(hist, m, b, k, 2);
  }

  lemma LostRunExists() returns (wal: Bytes, h: Header, frames: seq<Frame>, hist: History)
    ensures LostRun(wal, h, frames, hist) && ValidHistory(hist) && Groups(hist, [CREATED.changes], [1])
  {
    frames := [Frame(1, 2, BLANK)];
    wal, h := WriteBlankLog(3, 4, frames);
    hist := LogHistory(LOCK, [CREATED.changes, GREW], frames);
    LostHistory(wal, h, frames, hist);
    LostStates(hist, 1, 2, 3);
  }

  /** The file is as long as the one read before, so the sync goes on behind its end; the frame before is not
      the one read before, so it starts over, without a snapshot. What transaction 2 wrote is lost. */
  lemma LostWrite(wal: Bytes, h: Header, frames: seq<Frame>, hist: History, db: seq<Page>, atEnd: bool,
                  h': Header, start: nat, read: seq<Frame>, r: SyncResult, f: Captured)
    requires LostRun(wal, h, frames, hist)
    requires VerifiedSync(LOCK, 8, [CREATED], wal, db, atEnd, h', start, read, r, f)
    ensures r == Synced && |hist.txns| == 3 && !SameImage(LOCK, State(History(LOCK, [CREATED.changes, f.changes]), 2), State(hist, 3))
  {
    LostHistory(wal, h, frames, hist);
    LostSync(wal, h, frames, db, atEnd, h', start, read, r, f);
    assert [CREATED.changes] + [f.changes] == [CREATED.changes, f.changes];
    LostIncrement(hist, frames, [CREATED.changes, f.changes], 1, 2, 3);
  }

  lemma LostIncrement(hist: History, frames: seq<Frame>, files: seq<Changes>, m: nat, n: nat, k: nat)
    requires hist == LogHistory(LOCK, [CREATED.changes, GREW], frames) == History(LOCK, [CREATED.changes, GREW, Changes(2, map[1 := ZERO])])
    requires frames == [Frame(1, 2, BLANK)] && files == [CREATED.changes] + [Chunk(frames)] && m == 1 && n == 2 && k == 3
    ensures !SameImage(LOCK, State(History(LOCK, files), n), State(hist, k))
  {
    OneTxn(frames, 1, 2);
    LostStates(hist, m, n, k);
    IncrementIsExact(LOCK, [CREATED.changes, GREW], frames, [CREATED.changes], [m], m, k);
  }

  lemma LostSync(wal: Bytes, h: Header, frames: seq<Frame>, db: seq<Page>, atEnd: bool,
                 h': Header, start: nat, read: seq<Frame>, r: SyncResult, f: Captured)
    requires frames == [Frame(1, 2, BLANK)] && BlankLog(wal, h, 3, 4, frames)
    requires VerifiedSync(LOCK, 8, [CREATED], wal, db, atEnd, h', start, read, r, f)
    ensures r == Synced && f.changes == Chunk(frames)
  {
    LogFrame(wal, h, frames, 0);
    assert FrameOffset(h, 1) == 64 == |wal|;
    var info := ReadOn(CREATED, false);
    assert NextPosition([CREATED], 8, wal, atEnd) == Some(info);
    assert !Accepts(wal, h, 0, 1, 2, None);
    assert FrameOffset(h, 1) == info.offset;
    assert PrevFrameGone(wal, h, info);
    OneTxn(frames, 1, 2);
    assert 1 in Chunk(frames).pages;
    GoneFrameIsNoSnapshot(LOCK, wal, db, info, h, h', start, read, r, f);
  }

  // ---------------------------------------------------------------------------------------
  // A stale snapshot

  /** Transaction 1 made a database of two pages. The log holds transaction 2, over two frames, and transaction
      3. The last file ends behind transaction 2, but its page 1 is not the one in the log; the database file
      is still that of transaction 1. No run that only grows or restarts the log gets there. It takes a
      database put back, with its log, to where transaction 1 had ended: the last file is from the time before
      that (it is fetched from the replica if the local ones are behind it, `db.go:1212-1300`), and SQLite,
      going on under the same salts, writes another transaction 2 over the same frames. */
  const MADE := Changes(2, map[1 := 1, 2 := 2])
  const OTHER := Captured(32, 64, 1, 2, Changes(2, map[1 := 7, 2 := ZERO]))
  const OLD_FILE: seq<Page> := [1, 2]

  ghost predicate StaleRun(wal: Bytes, h: Header, frames: seq<Frame>, hist: History) {
    && frames == [Frame(2, 0, BLANK), Frame(1, 2, BLANK), Frame(1, 2, BLANK)] && BlankLog(wal, h, 1, 2, frames)
    && hist == LogHistory(LOCK, [MADE], frames)
  }

  lemma TwoTxns(frames: seq<Frame>)
    requires frames == [Frame(2, 0, BLANK), Frame(1, 2, BLANK), Frame(1, 2, BLANK)]
    ensures LastCommit(frames, 2) == 2 && LastCommit(frames, 3) == 3 && Txns(frames, 2) == [Changes(2, map[1 := ZERO, 2 := ZERO])]
    ensures Txns(frames, 3) == [Changes(2, map[1 := ZERO, 2 := ZERO]), Changes(2, map[1 := ZERO])]
    ensures Chunk(frames[2..]) == Changes(2, map[1 := ZERO])
  {
    BlankIsZero(BLANK);
    assert LastCommit(frames, 1) == LastCommit(frames, 0) == 0;
    assert Txns(frames, 1) == Txns(frames, 0) == [];
    assert frames[0..] == frames;
    assert Writes(frames, 0) == map[] && Writes(frames, 1) == map[2 := ZERO] && Writes(frames, 2) == map[1 := ZERO, 2 := ZERO];
    var rest := frames[2..];
    assert rest == [Frame(1, 2, BLANK)];
    OneTxn(rest, 1, 2);
    assert Writes(rest, 0) == map[] && Writes(rest, 1) == map[1 := ZERO];
  }

  lemma StaleHistory(wal: Bytes, h: Header, frames: seq<Frame>, hist: History)
    requires StaleRun(wal, h, frames, hist)
    ensures hist.txns == [MADE, Changes(2, map[1 := ZERO, 2 := ZERO]), Changes(2, map[1 := ZERO])]
  {
    TwoTxns(frames);
  }

  lemma StaleStates(hist: History, m: nat, k: nat)
    requires hist == History(LOCK, [MADE, Changes(2, map[1 := ZERO, 2 := ZERO]), Changes(2, map[1 := ZERO])])
    requires m == 2 && k == 3
    ensures ValidHistory(hist) && Checkpointed(hist, OLD_FILE, 1)
    ensures State(hist, k).Lookup(2) == Some(ZERO) && !DbBacks(hist, OLD_FILE, m, k)
  {
    assert ValidAt(hist, 1) && ValidAt(hist, m) && ValidAt(hist, k);
    FirstState(hist, 1);
    WrittenHoldsLast(hist, m, m, 2);
    LastOfOne(hist, m, m);
    LastOfOne(hist, k, k);
    UnwrittenStays(hist, k, k, 2);
    assert !PageBacked(hist, OLD_FILE, m, k, 2);
  }

  lemma StaleRunExists() returns (wal: Bytes, h: Header, frames: seq<Frame>, hist: History)
    ensures StaleRun(wal, h, frames, hist) && ValidHistory(hist) && Checkpointed(hist, OLD_FILE, 1)
  {
    frames := [Frame(2, 0, BLANK), Frame(1, 2, BLANK), Frame(1, 2, BLANK)];
    wal, h := WriteBlankLog(1, 2, frames);
    hist := LogHistory(LOCK, [MADE], frames);
    StaleHistory(wal, h, frames, hist);
    StaleStates(hist, 2, 3);
  }

  /** The last page does not match, so a snapshot is taken, but only of the log behind the last file. It holds
      page 2 as it was before transaction 2. */
  lemma {:induction false} StaleSnapshot(wal: Bytes, h: Header, frames: seq<Frame>, hist: History, atEnd: bool,
                      h': Header, start: nat, read: seq<Frame>, r: SyncResult, f: Captured)
    requires StaleRun(wal, h, frames, hist)
    requires VerifiedSync(LOCK, 8, [OTHER], wal, OLD_FILE, atEnd, h', start, read, r, f)
    ensures r == Synced && f.changes == Changes(2, map[1 := ZERO, 2 := 2])
    ensures |hist.txns| == 3 && f.changes != FileContent(hist, 1, 3) && State(hist, 3).Lookup(2) == Some(ZERO)
  {
    StaleHistory(wal, h, frames, hist);
    StaleStates(hist, 2, 3);
    TwoTxns(frames);
    StaleSync(wal, h, frames, 2, 3, atEnd, h', start, read, r, f);
    SnapshotIsExact(hist, [MADE], frames, 2, 2, 3, OLD_FILE);
  }

  lemma StaleSync(wal: Bytes, h: Header, frames: seq<Frame>, c: nat, n: nat, atEnd: bool, h': Header, start: nat,
                  read: seq<Frame>, r: SyncResult, f: Captured)
    requires frames == [Frame(2, 0, BLANK), Frame(1, 2, BLANK), Frame(1, 2, BLANK)] && BlankLog(wal, h, 1, 2, frames)
    requires c == 2 && n == 3 && VerifiedSync(LOCK, 8, [OTHER], wal, OLD_FILE, atEnd, h', start, read, r, f)
    ensures r == Synced && f.changes == Changes(2, map[1 := ZERO, 2 := 2]) && SnapshotOf(LOCK, frames[c..], OLD_FILE) == Some(f.changes)
  {
    TwoTxns(frames);
    FrameOffsetLinear(h, 1);
    FrameOffsetLinear(h, c);
    FrameOffsetLinear(h, n);
    LogFrame(wal, h, frames, 1);
    NoMatch(wal, h, frames[1]);
    var info := ReadOn(OTHER, true);
    assert NextPosition([OTHER], 8, wal, atEnd) == Some(info);
    CanOpen(wal, h, info, c);
    ReadsOn(wal, h, info, frames, c, 1, start, read);
    StalePages(frames[c..]);
  }

  lemma NoMatch(wal: Bytes, h: Header, frame: Frame)
    requires Complete(wal, h, 1) && FrameAt(wal, h, 1) == frame == Frame(1, 2, BLANK) && FrameOffset(h, 1) == 64 && h.pageSize == 8
    ensures !PageMatches(wal, 8, OTHER, 64)
  {
    BlankIsZero(BLANK);
  }

  lemma StalePages(read: seq<Frame>)
    requires Chunk(read) == Changes(2, map[1 := ZERO])
    ensures SnapshotOf(LOCK, read, OLD_FILE) == Some(Changes(2, map[1 := ZERO, 2 := 2]))
  {
    assert 1 in Chunk(read).pages;
    assert SnapshotPages(LOCK, map[1 := ZERO], OLD_FILE, 2) == map[1 := ZERO, 2 := 2];
  }

  // ---------------------------------------------------------------------------------------
  // A transaction that is held back

  /** The old log had two frames, both captured. The new one has one so far, written over the first; the file
      still ends with the second. */
  const BOTH := Captured(32, 64, 1, 2, Changes(1, map[1 := ZERO]))

  ghost predicate HeldRun(wal: Bytes, h: Header, frames: seq<Frame>) {
    && frames == [Frame(1, 1, BLANK)] && ParseHeader(wal) == HeaderOk(h) && LogFrames(wal, h) == frames
    && h.pageSize == 8 && h.salt1 == 3 && h.salt2 == 4 && |wal| == FrameOffset(h, 2) && Survives(wal, h, 1, Salts(1, 2))
  }

  lemma HeldRunExists() returns (wal: Bytes, h: Header, frames: seq<Frame>)
    ensures HeldRun(wal, h, frames)
  {
    frames := [Frame(1, 1, BLANK)];
    h := LogHeader(false, 8, 0, 3, 4);
    var was, front := LogHeader(false, 8, 0, 1, 2), LogBytes(false, 8, 0, 3, 4, frames);
    LogHeaderFits(false, 8, 0, 1, 2);
    LogLength(false, 8, 0, 3, 4, frames);
    var tail := FrameBytes(was, was.sums, frames[0]);
    wal := front + tail;
    SameOffsets(was, h, 1);
    assert wal == front + tail + [];
    ReadsFrame(wal, was, 1, |front|, front, was.sums, frames[0], []);
    assert Salted(wal, h, 1, 1, 2);
    LogRoundTrip(false, 8, 0, 3, 4, frames, tail);
  }

  /** Nothing is captured, although the log holds a transaction that no file has. */
  lemma HeldTransaction(wal: Bytes, h: Header, frames: seq<Frame>, db: seq<Page>, atEnd: bool,
                        h': Header, start: nat, read: seq<Frame>, r: SyncResult, f: Captured)
    requires HeldRun(wal, h, frames) && VerifiedSync(LOCK, 8, [BOTH], wal, db, atEnd, h', start, read, r, f)
    ensures r == Skipped && |Txns(frames, |frames|)| == 1
  {
    OneTxn(frames, 1, 1);
    FrameOffsetLinear(h, 2);
    assert NextPosition([BOTH], 8, wal, atEnd) == Some(ReadOn(BOTH, false));
    StalledSkips(LOCK, wal, h, db, ReadOn(BOTH, false), 2, h', start, read, r, f);
  }

  // ---------------------------------------------------------------------------------------
  // A log that grows, is rewritten in place, and grows again

  const ONE := Frame(1, 1, BLANK)
  const WRITE := Changes(1, map[1 := ZERO])

  /** n transactions that each write the only page. */
  predicate Ones(frames: seq<Frame>, n: nat) {
    |frames| == n && forall i :: 0 <= i < n ==> frames[i] == ONE
  }

  lemma {:induction false} OnesTxns(frames: seq<Frame>, n: nat)
    requires n <= |frames| && Ones(frames, |frames|)
    ensures LastCommit(frames, n) == n && |Txns(frames, n)| == n && forall t :: t in Txns(frames, n) ==> t == WRITE
  {
    if n > 0 {
      OnesTxns(frames, n - 1);
      BlankIsZero(BLANK);
      var rest := frames[n - 1..];
      assert Writes(rest, 0) == map[];
      assert Writes(rest, 1) == map[1 := ZERO];
    }
  }

  lemma {:induction false} OnesAreBacked(h: History, m: nat, k: nat)
    requires h.lock == LOCK && 1 <= k == |h.txns| && m <= k && forall t :: t in h.txns ==> t == WRITE
    ensures ValidHistory(h) && DbBacks(h, [ZERO], m, k)
  {
    forall t | 1 <= t <= |h.txns|
      ensures ValidAt(h, t)
    {
      assert t > 1 ==> h.txns[t - 2] in h.txns;
      assert h.txns[t - 1] in h.txns;
    }
    assert h.txns[k - 1] in h.txns && State(h, k).Lookup(1) == Some(ZERO);
    CheckpointedBacks(h, [ZERO], m, k, k);
  }

  lemma {:induction false} OnesSight(g: Generation, wal: Bytes, n: nat)
    requires ParseHeader(wal) == HeaderOk(g.hdr) && g.hdr.pageSize == 8 && Ones(LogFrames(wal, g.hdr), n)
    requires g.base != [] && forall t :: t in g.base ==> t == WRITE
    ensures Sight(LOCK, 8, g, wal, [ZERO])
    ensures |Now(LOCK, g, wal).txns| == |g.base| + n && forall t :: t in Now(LOCK, g, wal).txns ==> t == WRITE
  {
    OnesTxns(LogFrames(wal, g.hdr), n);
    OnesAreBacked(Now(LOCK, g, wal), |g.base|, |Now(LOCK, g, wal).txns|);
  }

  lemma {:induction false} OnesGrow(frames: seq<Frame>, more: seq<Frame>, n: nat, m: nat)
    requires Ones(frames, n) && Ones(more, m) && n <= m
    ensures Grown(frames, more)
  {
    OnesTxns(frames, n);
    assert frames[..n] == more[..n];
  }

  /** The files agree from frame n on. */
  ghost predicate SameTail(a: Bytes, b: Bytes, h: Header, n: nat) {
    |a| == |b| && FrameOffset(h, n) <= |a| && a[FrameOffset(h, n)..] == b[FrameOffset(h, n)..]
  }

  lemma {:induction false} SameTailNext(a: Bytes, b: Bytes, h: Header, n: nat, n': nat)
    requires SameTail(a, b, h, n) && n' == n + 1 && FrameOffset(h, n') <= |a|
    ensures SameTail(a, b, h, n')
  {
    var off, size := FrameOffset(h, n), FrameSize(h);
    assert a[off..][size..] == a[FrameOffset(h, n')..] && b[off..][size..] == b[FrameOffset(h, n')..];
  }

  lemma {:induction false} SamePart(a: Bytes, b: Bytes, from: nat, lo: nat, hi: nat)
    requires from <= lo <= hi <= |a| == |b| && a[from..] == b[from..]
    ensures a[lo..hi] == b[lo..hi]
  {
    forall i | lo <= i < hi
      ensures a[i] == b[i]
    {
      assert a[from..][i - from] == b[from..][i - from];
    }
  }

  lemma {:induction false} SameFrame(a: Bytes, h: Header, b: Bytes, h': Header, n: nat)
    requires SameTail(a, b, h, n) && h'.pageSize == h.pageSize && Complete(a, h, n)
    ensures Complete(b, h', n) && FrameAt(a, h, n) == FrameAt(b, h', n) && StoredSums(a, h, n) == StoredSums(b, h', n)
    ensures FrameChecked(a, h, n) == FrameChecked(b, h', n)
    ensures forall s1, s2 :: Salted(a, h, n, s1, s2) <==> Salted(b, h', n, s1, s2)
  {
    SameOffsets(h, h', n);
    var off := FrameOffset(h, n);
    SamePart(a, b, off, off, off + 4);
    SamePart(a, b, off, off + 4, off + 8);
    SamePart(a, b, off, off, off + 8);
    SamePart(a, b, off, off + 8, off + 12);
    SamePart(a, b, off, off + 12, off + 16);
    SamePart(a, b, off, off + 16, off + 20);
    SamePart(a, b, off, off + 20, off + 24);
    SamePart(a, b, off, off + 24, off + FrameSize(h));
  }

  lemma {:induction false} SameAccepted(a: Bytes, h: Header, b: Bytes, h': Header, n: nat, salt1: nat, salt2: nat, sums: Sums)
    requires SameTail(a, b, h, n) && h'.pageSize == h.pageSize && h'.little == h.little
    ensures Accepts(a, h, n, salt1, salt2, Some(sums)) <==> Accepts(b, h', n, salt1, salt2, Some(sums))
  {
    SameOffsets(h, h', n);
    if Complete(a, h, n) {
      SameFrame(a, h, b, h', n);
    }
  }

  lemma {:induction false} ChainOfOne(a: Bytes, h: Header, n: nat, n': nat, salt1: nat, salt2: nat, sums: Sums)
    requires Accepts(a, h, n, salt1, salt2, Some(sums)) && n' == n + 1
    ensures Chain(a, h, n, salt1, salt2, sums) == [FrameAt(a, h, n)] + Chain(a, h, n', salt1, salt2, StoredSums(a, h, n))
  {
  }

  lemma {:induction false} ChainOfNone(a: Bytes, h: Header, n: nat, salt1: nat, salt2: nat, sums: Sums)
    requires !Accepts(a, h, n, salt1, salt2, Some(sums))
    ensures Chain(a, h, n, salt1, salt2, sums) == []
  {
  }

  /** So a reader finds the same behind it. */
  lemma {:induction false} SameChain(a: Bytes, h: Header, b: Bytes, h': Header, n: nat, salt1: nat, salt2: nat, sums: Sums)
    requires SameTail(a, b, h, n) && h'.pageSize == h.pageSize && h'.little == h.little
    ensures Chain(a, h, n, salt1, salt2, sums) == Chain(b, h', n, salt1, salt2, sums)
    decreases |a| - FrameOffset(h, n)
  {
    SameAccepted(a, h, b, h', n, salt1, salt2, sums);
    if Accepts(a, h, n, salt1, salt2, Some(sums)) {
      var n' := n + 1;
      SameFrame(a, h, b, h', n);
      SameTailNext(a, b, h, n, n');
      SameChain(a, h, b, h', n', salt1, salt2, StoredSums(a, h, n));
      ChainOfOne(a, h, n, n', salt1, salt2, sums);
      ChainOfOne(b, h', n, n', salt1, salt2, sums);
    } else {
      ChainOfNone(a, h, n, salt1, salt2, sums);
      ChainOfNone(b, h', n, salt1, salt2, sums);
    }
  }

  /** The old log had three frames; the new one has one so far, written over the first. */
  ghost predicate Rewritten(was: Bytes, h: Header, wal: Bytes, h': Header) {
    && OnesLog(was, h, 1, 2, 3)
    && ParseHeader(wal) == HeaderOk(h') && h'.pageSize == 8 && h'.little == h.little && h'.salt1 == 3 && h'.salt2 == 4
    && Ones(LogFrames(wal, h'), 1) && SameTail(was, wal, h, 1)
  }

  /** A new log of one frame in front of what is left of the old one. */
  lemma {:induction false} WriteOver(tail: Bytes) returns (wal: Bytes, h: Header)
    ensures |wal| == 64 + |tail| && wal[64..] == tail && h == LogHeader(false, 8, 0, 3, 4) && ParseHeader(wal) == HeaderOk(h)
    ensures !Accepts(wal, h, 1, 3, 4, None) ==> LogFrames(wal, h) == [ONE]
  {
    h := LogHeader(false, 8, 0, 3, 4);
    LogLength(false, 8, 0, 3, 4, [ONE]);
    LogRoundTrip(false, 8, 0, 3, 4, [ONE], tail);
    FrameOffsetLinear(h, 1);
    wal := LogBytes(false, 8, 0, 3, 4, [ONE]) + tail;
  }

  lemma {:induction false} RewrittenExists(was: Bytes, h: Header) returns (wal: Bytes, h': Header)
    requires OnesLog(was, h, 1, 2, 3) && h == LogHeader(false, 8, 0, 1, 2)
    ensures Rewritten(was, h, wal, h') && h' == LogHeader(false, 8, 0, 3, 4)
  {
    FrameOffsetLinear(h, 1);
    FrameOffsetLinear(h, 3);
    wal, h' := WriteOver(was[64..]);
    OldFrame(was, h, wal, h', LogFrames(was, h));
  }

  lemma {:induction false} OldFrame(was: Bytes, h: Header, wal: Bytes, h': Header, frames: seq<Frame>)
    requires ParseHeader(was) == HeaderOk(h) && frames == LogFrames(was, h) && 1 < |frames| && h.salt1 == 1 && h.salt2 == 2
    requires SameTail(was, wal, h, 1) && h'.pageSize == h.pageSize
    ensures !Accepts(wal, h', 1, 3, 4, None)
  {
    LogFrame(was, h, frames, 1);
    SameFrame(was, h, wal, h', 1);
  }

  /** The second and the third frame of the old log are still there. */
  lemma {:induction false} RewrittenTail(was: Bytes, h: Header, wal: Bytes, h': Header)
    requires Rewritten(was, h, wal, h')
    ensures Untouched(h, LogFrames(was, h), h', wal) && Stalled(wal, h', 3, Salts(1, 2))
    ensures Survives(wal, h', 1, Salts(1, 2)) && LastCommit(Behind(wal, h', 1, Salts(1, 2)), |Behind(wal, h', 1, Salts(1, 2))|) > 0
  {
    var frames := LogFrames(was, h);
    OnesTxns(frames, 3);
    SameOffsets(h, h', 3);
    LogFrame(was, h, frames, 1);
    LogFrame(was, h, frames, 2);
    SameFrame(was, h, wal, h', 1);
    SameTailNext(was, wal, h, 1, 2);
    SameFrame(was, h, wal, h', 2);
    NothingBehindEnd(wal, h', 3, 1, 2, StoredSums(wal, h', 2));
    ChainSuffix(was, h, 0, 1, 2, h.sums, frames, 2, 1);
    SameChain(was, h, wal, h', 2, 1, 2, StoredSums(was, h, 1));
    OnesTxns(frames[2..], 1);
  }

  /** A log of n such transactions. */
  ghost predicate OnesLog(wal: Bytes, h: Header, salt1: nat, salt2: nat, n: nat) {
    BlankLog(wal, h, salt1, salt2, LogFrames(wal, h)) && Ones(LogFrames(wal, h), n)
  }

  lemma {:induction false} WriteOnes(salt1: Word32, salt2: Word32, n: nat) returns (wal: Bytes, h: Header)
    ensures OnesLog(wal, h, salt1, salt2, n) && h == LogHeader(false, 8, 0, salt1, salt2)
  {
    var frames := seq(n, _ => ONE);
    wal, h := WriteBlankLog(salt1, salt2, frames);
  }

  /** Two frames are seen, then three, then the log rewritten in place, then one grown past the old end. */
  ghost predicate Rewriting(g: Generation, g': Generation, wals: seq<Bytes>) {
    && g.base == [WRITE] && g'.base == [WRITE, WRITE, WRITE, WRITE] && |wals| == 4
    && OnesLog(wals[0], g.hdr, 1, 2, 2) && OnesLog(wals[1], g.hdr, 1, 2, 3)
    && Rewritten(wals[1], g.hdr, wals[2], g'.hdr) && OnesLog(wals[3], g'.hdr, 3, 4, 4)
  }

  lemma {:induction false} RewritingExists() returns (g: Generation, g': Generation, wals: seq<Bytes>)
    ensures Rewriting(g, g', wals)
  {
    var w0, h := WriteOnes(1, 2, 2);
    var w1, h1 := WriteOnes(1, 2, 3);
    var w2, h' := RewrittenExists(w1, h1);
    var w3, h3 := WriteOnes(3, 4, 4);
    g, g', wals := Generation(h, [WRITE]), Generation(h', [WRITE, WRITE, WRITE, WRITE]), [w0, w1, w2, w3];
  }

  lemma {:induction false} AllWrites(txns: seq<Changes>, n: nat)
    requires |txns| == n && forall t :: t in txns ==> t == WRITE
    ensures n == 4 ==> txns == [WRITE, WRITE, WRITE, WRITE]
  {
    forall i | 0 <= i < n
      ensures txns[i] == WRITE
    {
      assert txns[i] in txns;
    }
  }

  /** What the log of the old generation amounts to. */
  lemma {:induction false} RewritingBases(g: Generation, g': Generation, wals: seq<Bytes>)
    requires Rewriting(g, g', wals)
    ensures Now(LOCK, g, wals[0]).txns != [] && Now(LOCK, g, wals[1]).txns == g'.base
  {
    OnesSight(g, wals[1], 3);
    AllWrites(Now(LOCK, g, wals[1]).txns, 4);
  }

  lemma {:induction false} RewritingGrows(g: Generation, g': Generation, wals: seq<Bytes>)
    requires Rewriting(g, g', wals)
    ensures Grown(LogFrames(wals[0], g.hdr), LogFrames(wals[1], g.hdr)) && Grown(LogFrames(wals[2], g'.hdr), LogFrames(wals[3], g'.hdr))
  {
    OnesGrow(LogFrames(wals[0], g.hdr), LogFrames(wals[1], g.hdr), 2, 3);
    OnesGrow(LogFrames(wals[2], g'.hdr), LogFrames(wals[3], g'.hdr), 1, 4);
  }

  /** In the last log nothing is left of the old one. */
  lemma {:induction false} RewritingOver(g: Generation, g': Generation, wals: seq<Bytes>)
    requires Rewriting(g, g', wals)
    ensures LastCommit(LogFrames(wals[1], g.hdr), |LogFrames(wals[1], g.hdr)|) == 3
    ensures !Survives(wals[3], g'.hdr, 2, Salts(1, 2))
  {
    OnesTxns(LogFrames(wals[1], g.hdr), 3);
    LogFrame(wals[3], g'.hdr, LogFrames(wals[3], g'.hdr), 2);
  }

  /** What the first log ended with is still there in the third, with a transaction behind it. */
  lemma {:induction false} RewritingLeaves(g: Generation, g': Generation, wals: seq<Bytes>)
    requires Rewriting(g, g', wals)
    ensures !Untouched(g.hdr, LogFrames(wals[0], g.hdr), g'.hdr, wals[2])
  {
    RewrittenTail(wals[1], g.hdr, wals[2], g'.hdr);
    OnesTxns(LogFrames(wals[0], g.hdr), 2);
  }

  ghost predicate FourLogs(gens: seq<Generation>, g: Generation, g': Generation, wals: seq<Bytes>) {
    |gens| == |wals| == 4 && gens[0] == gens[1] == g && gens[2] == gens[3] == g' && SaltsIn(g) != SaltsIn(g')
  }

  lemma {:induction false} LaterSame(gens: seq<Generation>, wals: seq<Bytes>, i: nat, j: nat)
    requires i < j < |gens| == |wals| && gens[i] == gens[j]
    requires Grown(LogFrames(wals[i], gens[i].hdr), LogFrames(wals[j], gens[j].hdr))
    ensures LaterAt(gens, wals, i, j)
  {
  }

  lemma {:induction false} LaterOther(gens: seq<Generation>, wals: seq<Bytes>, i: nat, j: nat)
    requires i < j < |gens| == |wals| && SaltsIn(gens[i]) != SaltsIn(gens[j])
    requires Ends(gens, i) ==> Untouched(gens[i].hdr, LogFrames(wals[i], gens[i].hdr), gens[j].hdr, wals[j])
    ensures LaterAt(gens, wals, i, j)
  {
  }

  lemma {:induction false} OneEnd(gens: seq<Generation>, g: Generation, g': Generation, wals: seq<Bytes>, j: nat)
    requires FourLogs(gens, g, g', wals) && j < 4 && (j > 1 ==> !HeldBackAt(gens, wals, 1, j))
    ensures Open(gens, wals, j)
  {
  }

  lemma {:induction false} HeldAt(gens: seq<Generation>, g: Generation, g': Generation, wals: seq<Bytes>, j: nat, c: nat)
    requires FourLogs(gens, g, g', wals) && 1 < j < 4 && c == LastCommit(LogFrames(wals[1], g.hdr), |LogFrames(wals[1], g.hdr)|)
    ensures HeldBackAt(gens, wals, 1, j) <==> Stalled(wals[j], g'.hdr, c, SaltsIn(g))
  {
  }

  lemma {:induction false} FourBegin(gens: seq<Generation>, g: Generation, g': Generation, wals: seq<Bytes>, j: nat)
    requires FourLogs(gens, g, g', wals) && Now(LOCK, g, wals[1]).txns == g'.base && 0 < j < 4 && Open(gens, wals, 1)
    ensures BeginsWell(LOCK, gens, wals, j)
  {
  }

  /** The pairs of the run are as they should be. */
  ghost predicate FourPairs(gens: seq<Generation>, wals: seq<Bytes>)
    requires |gens| == |wals| == 4
  {
    && LaterAt(gens, wals, 0, 1) && LaterAt(gens, wals, 0, 2) && LaterAt(gens, wals, 0, 3)
    && LaterAt(gens, wals, 1, 2) && LaterAt(gens, wals, 1, 3) && LaterAt(gens, wals, 2, 3)
  }

  lemma {:induction false} FourLater(gens: seq<Generation>, wals: seq<Bytes>, i: nat, j: nat)
    requires |gens| == |wals| == 4 && FourPairs(gens, wals) && i < j < 4
    ensures LaterAt(gens, wals, i, j)
  {
    PairsOfFour((x: nat, y: nat) => x < y < 4 && LaterAt(gens, wals, x, y), i, j);
  }

  lemma {:induction false} PairsOfFour(p: (nat, nat) -> bool, i: nat, j: nat)
    requires p(0, 1) && p(0, 2) && p(0, 3) && p(1, 2) && p(1, 3) && p(2, 3) && i < j < 4
    ensures p(i, j)
  {
  }

  ghost predicate FourSights(gens: seq<Generation>, wals: seq<Bytes>, dbs: seq<seq<Page>>)
    requires |gens| == |wals| == |dbs| == 4
  {
    && SightAt(LOCK, 8, gens, wals, dbs, 0) && SightAt(LOCK, 8, gens, wals, dbs, 1)
    && SightAt(LOCK, 8, gens, wals, dbs, 2) && SightAt(LOCK, 8, gens, wals, dbs, 3)
  }

  lemma {:induction false} FourSight(gens: seq<Generation>, wals: seq<Bytes>, dbs: seq<seq<Page>>, i: nat)
    requires |gens| == |wals| == |dbs| == 4 && FourSights(gens, wals, dbs) && i < 4
    ensures SightAt(LOCK, 8, gens, wals, dbs, i)
  {
    PairsOfFour((x: nat, y: nat) => x < y < 4 && SightAt(LOCK, 8, gens, wals, dbs, x) && SightAt(LOCK, 8, gens, wals, dbs, y),
                if i == 0 then 0 else i - 1, if i == 0 then 1 else i);
  }

  lemma {:induction false} FourSeen(gens: seq<Generation>, g: Generation, g': Generation, wals: seq<Bytes>, dbs: seq<seq<Page>>)
    requires FourLogs(gens, g, g', wals) && |dbs| == 4 && FourPairs(gens, wals) && FourSights(gens, wals, dbs)
    requires Now(LOCK, g, wals[0]).txns != [] && Now(LOCK, g, wals[1]).txns == g'.base
    ensures AllSeen(LOCK, 8, gens, wals, dbs)
  {
    forall i | 0 <= i < |gens|
      ensures SightAt(LOCK, 8, gens, wals, dbs, i)
    {
      FourSight(gens, wals, dbs, i);
    }
    forall i, j | 0 <= i < j < |gens|
      ensures LaterAt(gens, wals, i, j)
    {
      FourLater(gens, wals, i, j);
    }
    OneEnd(gens, g, g', wals, 1);
    forall j | 0 < j < |gens|
      ensures BeginsWell(LOCK, gens, wals, j)
    {
      FourBegin(gens, g, g', wals, j);
    }
  }

  /** What the old log left in the third and in the fourth. */
  lemma {:induction false} RewritingRests(g: Generation, g': Generation, wals: seq<Bytes>, c: nat)
    requires Rewriting(g, g', wals) && c == 3
    ensures SaltsIn(g) != SaltsIn(g') && c == LastCommit(LogFrames(wals[1], g.hdr), |LogFrames(wals[1], g.hdr)|)
    ensures Untouched(g.hdr, LogFrames(wals[1], g.hdr), g'.hdr, wals[2]) && Untouched(g.hdr, LogFrames(wals[1], g.hdr), g'.hdr, wals[3])
    ensures Stalled(wals[2], g'.hdr, c, SaltsIn(g)) && !Stalled(wals[3], g'.hdr, c, SaltsIn(g))
  {
    RewrittenTail(wals[1], g.hdr, wals[2], g'.hdr);
    RewritingOver(g, g', wals);
  }

  lemma {:induction false} OnesSightAt(gens: seq<Generation>, wals: seq<Bytes>, dbs: seq<seq<Page>>, i: nat, g: Generation, n: nat)
    requires i < |gens| == |wals| == |dbs| && gens[i] == g && dbs[i] == [ZERO]
    requires ParseHeader(wals[i]) == HeaderOk(g.hdr) && g.hdr.pageSize == 8 && Ones(LogFrames(wals[i], g.hdr), n)
    requires g.base != [] && forall t :: t in g.base ==> t == WRITE
    ensures SightAt(LOCK, 8, gens, wals, dbs, i)
  {
    OnesSight(g, wals[i], n);
  }

  lemma {:induction false} RewritingOpens(g: Generation, g': Generation, wals: seq<Bytes>, gens: seq<Generation>)
    requires Rewriting(g, g', wals) && FourLogs(gens, g, g', wals)
    ensures HeldBackAt(gens, wals, 1, 2) && Open(gens, wals, 3)
  {
    RewritingRests(g, g', wals, 3);
    HeldAt(gens, g, g', wals, 2, 3);
    HeldAt(gens, g, g', wals, 3, 3);
    OneEnd(gens, g, g', wals, 3);
  }

  lemma {:induction false} RewritingSights(g: Generation, g': Generation, wals: seq<Bytes>, gens: seq<Generation>, dbs: seq<seq<Page>>)
    requires Rewriting(g, g', wals) && FourLogs(gens, g, g', wals) && dbs == [[ZERO], [ZERO], [ZERO], [ZERO]]
    ensures FourSights(gens, wals, dbs)
  {
    OnesSightAt(gens, wals, dbs, 0, g, 2);
    OnesSightAt(gens, wals, dbs, 1, g, 3);
    OnesSightAt(gens, wals, dbs, 2, g', 1);
    OnesSightAt(gens, wals, dbs, 3, g', 4);
  }

  lemma {:induction false} RewritingPairs(g: Generation, g': Generation, wals: seq<Bytes>, gens: seq<Generation>)
    requires Rewriting(g, g', wals) && FourLogs(gens, g, g', wals)
    ensures FourPairs(gens, wals)
  {
    RewritingGrows(g, g', wals);
    RewritingRests(g, g', wals, 3);
    LaterSame(gens, wals, 0, 1);
    LaterSame(gens, wals, 2, 3);
    LaterOther(gens, wals, 0, 2);
    LaterOther(gens, wals, 0, 3);
    LaterOther(gens, wals, 1, 2);
    LaterOther(gens, wals, 1, 3);
  }

  /** A log that is seen, grows by a transaction, is seen again, and is then rewritten in place, with that
      transaction still in the file, is one of the runs of Monitor. */
  lemma {:induction false} RewritingSeen(g: Generation, g': Generation, wals: seq<Bytes>, gens: seq<Generation>, dbs: seq<seq<Page>>)
    requires Rewriting(g, g', wals) && gens == [g, g, g', g'] && dbs == [[ZERO], [ZERO], [ZERO], [ZERO]]
    ensures AllSeen(LOCK, 8, gens, wals, dbs) && HeldBackAt(gens, wals, 1, 2) && Open(gens, wals, 3)
    ensures !Untouched(g.hdr, LogFrames(wals[0], g.hdr), g'.hdr, wals[2])
  {
    RewritingRests(g, g', wals, 3);
    RewritingBases(g, g', wals);
    RewritingSights(g, g', wals, gens, dbs);
    RewritingPairs(g, g', wals, gens);
    FourSeen(gens, g, g', wals, dbs);
    RewritingOpens(g, g', wals, gens);
    RewritingLeaves(g, g', wals);
  }
}
