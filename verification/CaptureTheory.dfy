/** What the frames of a write-ahead log mean: the transactions they hold, and why the page map of a
    stretch of the log is the file over the transactions in it. */
module CaptureTheory {
  import opened Ltx
  import opened PageImage
  import opened Wal
  import opened WalIndex

  // ---------------------------------------------------------------------------------------
  // Page contents

  /** A page as an opaque value: the number its bytes spell. */
  function PageOf(data: Bytes): Page {
    Number(data)
  }

  /** Pages of equal size with the same number have the same bytes. */
  lemma {:induction false} PageOfIsInjective(x: Bytes, y: Bytes)
    requires |x| == |y| && PageOf(x) == PageOf(y)
    ensures x == y
    decreases |x|
  {
    if x != [] {
      var n := |x| - 1;
      PageOfIsInjective(x[..n], y[..n]);
      assert x == x[..n] + [x[n]] && y == y[..n] + [y[n]];
    }
  }

  // ---------------------------------------------------------------------------------------
  // Writes

  /** The last write of each page in the first n frames. */
  ghost function Writes(frames: seq<Frame>, n: nat): map<nat, Page>
    requires n <= |frames|
  {
    if n == 0 then map[] else Writes(frames, n - 1)[frames[n - 1].pgno := PageOf(frames[n - 1].data)]
  }

  lemma {:induction false} WritesAreLastFrames(frames: seq<Frame>, n: nat, p: nat)
    requires n <= |frames|
    ensures -1 <= LastFrame(frames, n, p) < n
    ensures p in Writes(frames, n) <==> LastFrame(frames, n, p) >= 0
    ensures p in Writes(frames, n) ==> Writes(frames, n)[p] == PageOf(frames[LastFrame(frames, n, p)].data)
  {
    if n > 0 && frames[n - 1].pgno != p {
      WritesAreLastFrames(frames, n - 1, p);
    }
  }

  lemma {:induction false} WritesSplit(frames: seq<Frame>, lo: nat, n: nat)
    requires lo <= n <= |frames|
    ensures Writes(frames, n) == Writes(frames, lo) + Writes(frames[lo..], n - lo)
    decreases n
  {
    if lo < n {
      WritesSplit(frames, lo, n - 1);
      assert frames[lo..][n - 1 - lo] == frames[n - 1];
    }
  }

  lemma {:induction false} WritesPrefix(frames: seq<Frame>, more: seq<Frame>, n: nat)
    requires n <= |frames| && n <= |more| && frames[..n] == more[..n]
    ensures Writes(frames, n) == Writes(more, n)
  {
    if n > 0 {
      assert frames[n - 1] == frames[..n][n - 1] == more[..n][n - 1] == more[n - 1];
      assert frames[..n - 1] == frames[..n][..n - 1] == more[..n][..n - 1] == more[..n - 1];
      WritesPrefix(frames, more, n - 1);
    }
  }

  /** The file a page map stands for. */
  ghost function Chunk(frames: seq<Frame>): Changes {
    Changes(CommitSize(frames, |frames|), Restrict(Writes(frames, LastCommit(frames, |frames|)), CommitSize(frames, |frames|)))
  }

  // ---------------------------------------------------------------------------------------
  // Transactions

  /** The transactions completed in the first n frames: each ends with the frame that carries its
      commit size. */
  ghost function Txns(frames: seq<Frame>, n: nat): seq<Changes>
    requires n <= |frames|
  {
    if n == 0 then []
    else if frames[n - 1].commit == 0 then Txns(frames, n - 1)
    else
      var c := LastCommit(frames, n - 1);
      Txns(frames, n - 1) + [Changes(frames[n - 1].commit, Writes(frames[c..], n - c))]
  }

  ghost predicate Boundary(frames: seq<Frame>, n: nat) {
    n <= |frames| && LastCommit(frames, n) == n
  }

  lemma {:induction false} TxnsUpToCommit(frames: seq<Frame>, n: nat, c: nat)
    requires n <= |frames| && c == LastCommit(frames, n)
    ensures Boundary(frames, c)
    ensures Txns(frames, n) == Txns(frames, c)
  {
    if n > 0 && frames[n - 1].commit == 0 {
      TxnsUpToCommit(frames, n - 1, c);
    }
  }

  lemma {:induction false} PrefixOf<T>(x: seq<T>, y: seq<T>, z: seq<T>)
    requires x <= y
    ensures x <= y + z
  {
  }

  /** A commit frame completes one transaction. */
  lemma {:induction false} TxnsStep(frames: seq<Frame>, n: nat, c: nat)
    requires 0 < n <= |frames| && frames[n - 1].commit != 0 && c == LastCommit(frames, n - 1)
    ensures Txns(frames, n) == Txns(frames, c) + [Changes(frames[n - 1].commit, Writes(frames[c..], n - c))]
    ensures Txns(frames, n - 1) == Txns(frames, c)
  {
    TxnsUpToCommit(frames, n - 1, c);
  }

  lemma {:induction false} TxnsPrefix(frames: seq<Frame>, lo: nat, n: nat)
    requires lo <= n <= |frames|
    ensures Txns(frames, lo) <= Txns(frames, n)
    decreases n
  {
    if lo < n {
      TxnsPrefix(frames, lo, n - 1);
      if frames[n - 1].commit != 0 {
        var c := LastCommit(frames, n - 1);
        PrefixOf(Txns(frames, lo), Txns(frames, n - 1), [Changes(frames[n - 1].commit, Writes(frames[c..], n - c))]);
      }
    }
  }

  lemma {:induction false} MoreTxns(frames: seq<Frame>, lo: nat, n: nat)
    requires Boundary(frames, n) && lo < n
    ensures |Txns(frames, lo)| < |Txns(frames, n)|
  {
    TxnsPrefix(frames, lo, n - 1);
  }

  lemma {:induction false} CommitAtLeast(frames: seq<Frame>, lo: nat, n: nat)
    requires lo <= n <= |frames| && Boundary(frames, lo)
    ensures lo <= LastCommit(frames, n)
    decreases n
  {
    if lo < n && frames[n - 1].commit == 0 {
      CommitAtLeast(frames, lo, n - 1);
    }
  }

  lemma {:induction false} CommitBehind(frames: seq<Frame>, lo: nat, n: nat, m: nat)
    requires lo <= n <= |frames| && Boundary(frames, lo) && m == n - lo
    ensures LastCommit(frames[lo..], m) == LastCommit(frames, n) - lo
    decreases n
  {
    if lo < n {
      assert frames[lo..][m - 1] == frames[n - 1];
      if frames[n - 1].commit == 0 {
        CommitBehind(frames, lo, n - 1, m - 1);
      }
    }
  }

  /** Transactions up to k of the history are those of the database and of the first n frames. */
  ghost predicate Logged(h: History, base: seq<Changes>, frames: seq<Frame>, n: nat, k: nat)
    requires n <= |frames|
  {
    k == |base| + |Txns(frames, n)| <= |h.txns| && h.txns[..k] == base + Txns(frames, n)
  }

  lemma {:induction false} LoggedStep(h: History, base: seq<Changes>, frames: seq<Frame>, n: nat, k: nat, c: nat)
    requires 0 < n <= |frames| && frames[n - 1].commit != 0 && c == LastCommit(frames, n - 1)
    requires Logged(h, base, frames, n, k)
    ensures 0 < k && Logged(h, base, frames, c, k - 1)
    ensures h.txns[k - 1] == Changes(frames[n - 1].commit, Writes(frames[c..], n - c))
  {
    TxnsStep(frames, n, c);
    var last := Changes(frames[n - 1].commit, Writes(frames[c..], n - c));
    assert h.txns[..k] == (base + Txns(frames, c)) + [last];
    assert h.txns[..k][..k - 1] == h.txns[..k - 1];
    assert h.txns[..k][k - 1] == last;
  }

  lemma {:induction false} WritesJoin(frames: seq<Frame>, lo: nat, c: nat, n: nat)
    requires lo <= c <= n <= |frames|
    ensures Writes(frames[lo..], n - lo) == Writes(frames[lo..], c - lo) + Writes(frames[c..], n - c)
  {
    WritesSplit(frames[lo..], c - lo, n - lo);
    assert frames[lo..][c - lo..] == frames[c..];
  }

  lemma {:induction false} LastWritesJoin(h: History, a: TXID, k: TXID, x: map<nat, Page>, y: map<nat, Page>)
    requires 1 <= a <= k <= |h.txns| && x == LastWrites(h, a, k - 1) && y == h.txns[k - 1].pages
    ensures LastWrites(h, a, k) == x + y
  {
  }

  /** The last commit before a commit frame n, seen from an earlier boundary. */
  lemma {:induction false} CommitBefore(h: History, base: seq<Changes>, frames: seq<Frame>, lo: nat, n: nat, a: nat, k: nat) returns (c: nat)
    requires Boundary(frames, lo) && Boundary(frames, n) && lo < n
    requires Logged(h, base, frames, n, k) && a == |base| + |Txns(frames, lo)| + 1
    ensures lo <= c < n && Boundary(frames, c) && a <= k && Logged(h, base, frames, c, k - 1)
    ensures h.txns[k - 1].pages == Writes(frames[c..], n - c)
  {
    c := LastCommit(frames, n - 1);
    CommitAtLeast(frames, lo, n - 1);
    TxnsUpToCommit(frames, n - 1, c);
    TxnsPrefix(frames, lo, c);
    LoggedStep(h, base, frames, n, k, c);
  }

  /** The frames between two commits hold the last writes of exactly the transactions in between. */
  lemma {:induction false} WritesAreLastWrites(h: History, base: seq<Changes>, frames: seq<Frame>, lo: nat, n: nat, a: nat, k: nat)
    requires Boundary(frames, lo) && Boundary(frames, n) && lo <= n
    requires Logged(h, base, frames, n, k) && a == |base| + |Txns(frames, lo)| + 1
    ensures LastWrites(h, a, k) == Writes(frames[lo..], n - lo)
    decreases n
  {
    if lo < n {
      var c := CommitBefore(h, base, frames, lo, n, a, k);
      WritesAreLastWrites(h, base, frames, lo, c, a, k - 1);
      LastWritesJoin(h, a, k, Writes(frames[lo..], c - lo), Writes(frames[c..], n - c));
      WritesJoin(frames, lo, c, n);
    }
  }

  /** The history whose last transactions are those of the log. */
  ghost function LogHistory(lock: nat, base: seq<Changes>, frames: seq<Frame>): History {
    History(lock, base + Txns(frames, |frames|))
  }

  /** The number of transactions in the database and in the first n frames. */
  ghost function Count(base: seq<Changes>, frames: seq<Frame>, n: nat): nat
    requires n <= |frames|
  {
    |base| + |Txns(frames, n)|
  }

  lemma {:induction false} SizeBehind(frames: seq<Frame>, lo: nat, n: nat, m: nat)
    requires lo <= n <= |frames| && Boundary(frames, lo) && lo < LastCommit(frames, n) && m == n - lo
    ensures CommitSize(frames[lo..], m) == frames[LastCommit(frames, n) - 1].commit
    decreases n
  {
    assert frames[lo..][m - 1] == frames[n - 1];
    if frames[n - 1].commit == 0 {
      SizeBehind(frames, lo, n - 1, m - 1);
    }
  }

  lemma {:induction false} ChunkOf(frames: seq<Frame>, lo: nat, n: nat)
    requires Boundary(frames, lo) && n == LastCommit(frames, |frames|) && lo < n
    ensures Chunk(frames[lo..]) == Changes(frames[n - 1].commit, Restrict(Writes(frames[lo..], n - lo), frames[n - 1].commit))
  {
    CommitBehind(frames, lo, |frames|, |frames| - lo);
    SizeBehind(frames, lo, |frames|, |frames| - lo);
  }

  /** The page map of the log from a commit on is the file over the transactions behind it. */
  lemma {:induction false} ChunkIsFileContent(h: History, base: seq<Changes>, frames: seq<Frame>, lo: nat, a: nat, k: nat)
    requires Boundary(frames, lo) && lo < LastCommit(frames, |frames|)
    requires Logged(h, base, frames, |frames|, k) && a == Count(base, frames, lo) + 1
    ensures a <= k && Chunk(frames[lo..]) == FileContent(h, a, k)
  {
    var n := LastCommit(frames, |frames|);
    TxnsUpToCommit(frames, |frames|, n);
    WritesAreLastWrites(h, base, frames, lo, n, a, k);
    SizeOfLast(h, base, frames, lo, n, a, k);
    ChunkOf(frames, lo, n);
  }

  lemma {:induction false} SizeOfLast(h: History, base: seq<Changes>, frames: seq<Frame>, lo: nat, n: nat, a: nat, k: nat)
    requires Boundary(frames, lo) && Boundary(frames, n) && lo < n
    requires Logged(h, base, frames, n, k) && a == |base| + |Txns(frames, lo)| + 1
    ensures a <= k && h.Commit(k) == frames[n - 1].commit
  {
    LoggedStep(h, base, frames, n, k, LastCommit(frames, n - 1));
    MoreTxns(frames, lo, n);
  }

  // ---------------------------------------------------------------------------------------
  // A growing log

  /** SQLite only appends behind the last commit: what was committed stays. */
  ghost predicate Grown(frames: seq<Frame>, more: seq<Frame>) {
    var c := LastCommit(frames, |frames|);
    c <= |more| && frames[..c] == more[..c]
  }

  lemma {:induction false} CommitSame(frames: seq<Frame>, more: seq<Frame>, n: nat)
    requires n <= |frames| && n <= |more| && frames[..n] == more[..n]
    ensures LastCommit(frames, n) == LastCommit(more, n)
  {
    if n > 0 {
      SamePrefix(frames, more, n);
      CommitSame(frames, more, n - 1);
    }
  }

  lemma {:induction false} SamePrefix<T>(x: seq<T>, y: seq<T>, n: nat)
    requires 0 < n <= |x| && n <= |y| && x[..n] == y[..n]
    ensures x[n - 1] == y[n - 1] && x[..n - 1] == y[..n - 1]
  {
  }

  lemma {:induction false} SameMiddle<T>(x: seq<T>, y: seq<T>, c: nat, n: nat)
    requires c <= n <= |x| && n <= |y| && x[..n] == y[..n]
    ensures x[c..][..n - c] == y[c..][..n - c] && x[..c] == y[..c]
  {
    assert x[c..][..n - c] == x[..n][c..] && y[c..][..n - c] == y[..n][c..];
    assert x[..n][..c] == x[..c] && y[..n][..c] == y[..c];
  }

  lemma {:induction false} TxnsSame(frames: seq<Frame>, more: seq<Frame>, n: nat)
    requires n <= |frames| && n <= |more| && frames[..n] == more[..n]
    ensures Txns(frames, n) == Txns(more, n)
  {
    if n > 0 {
      SamePrefix(frames, more, n);
      if frames[n - 1].commit == 0 {
        TxnsSame(frames, more, n - 1);
      } else {
        var c := LastCommit(frames, n - 1);
        CommitSame(frames, more, n - 1);
        SameMiddle(frames, more, c, n);
        TxnsSame(frames, more, n - 1);
        WritesPrefix(frames[c..], more[c..], n - c);
      }
    }
  }

  /** So the transactions seen before are still the first ones. */
  lemma {:induction false} GrownTxns(frames: seq<Frame>, more: seq<Frame>, c: nat)
    requires Grown(frames, more) && c == LastCommit(frames, |frames|)
    ensures Boundary(more, c) && Txns(more, c) == Txns(frames, |frames|) && Txns(frames, |frames|) <= Txns(more, |more|)
  {
    TxnsUpToCommit(frames, |frames|, c);
    CommitSame(frames, more, c);
    TxnsSame(frames, more, c);
    TxnsPrefix(more, c, |more|);
  }

  // ---------------------------------------------------------------------------------------
  // Snapshots of the database file and the log

  /** A snapshot takes a page from the log if it is there, else from the database file; its size is
      that of the log's last commit, or of the file if the log has none. It fails if the file is too
      short. */
  ghost function SnapshotOf(lock: nat, read: seq<Frame>, db: seq<Page>): Option<Changes> {
    var log := Chunk(read);
    var size := if log.pages == map[] then |db| else log.commit;
    if CanRead(lock, log.pages, |db|, size) then Some(Changes(size, SnapshotPages(lock, log.pages, db, size))) else None
  }

  ghost predicate CanRead(lock: nat, log: map<nat, Page>, length: nat, size: nat) {
    forall p: nat :: IsPage(lock, size, p) && p !in log ==> p <= length
  }

  ghost function SnapshotPages(lock: nat, log: map<nat, Page>, db: seq<Page>, size: nat): map<nat, Page>
    requires CanRead(lock, log, |db|, size)
  {
    map p | 1 <= p <= size && IsPage(lock, size, p) :: if p in log then log[p] else db[p - 1]
  }

  /** The database file holds page p of the state after transaction k. */
  ghost predicate DbHolds(h: History, db: seq<Page>, k: TXID, p: nat)
    requires k <= |h.txns|
  {
    1 <= p <= |db| && State(h, k).Lookup(p) == Some(db[p - 1])
  }

  /** The database file holds every page that no transaction behind m wrote. */
  ghost predicate DbBacks(h: History, db: seq<Page>, m: TXID, k: TXID)
    requires k <= |h.txns|
  {
    && (m == k ==> |db| == h.Commit(k))
    && forall p: nat :: PageBacked(h, db, m, k, p)
  }

  ghost predicate PageBacked(h: History, db: seq<Page>, m: TXID, k: TXID, p: nat)
    requires k <= |h.txns|
  {
    IsPage(h.lock, h.Commit(k), p) && p !in LastWrites(h, m + 1, k) ==> DbHolds(h, db, k, p)
  }

  lemma {:induction false} ChunkPages(h: History, base: seq<Changes>, frames: seq<Frame>, lo: nat, m: nat, k: nat)
    requires ValidHistory(h) && Boundary(frames, lo) && Logged(h, base, frames, |frames|, k) && m == Count(base, frames, lo)
    ensures m <= k && (m == k <==> lo == LastCommit(frames, |frames|))
    ensures m == k ==> Chunk(frames[lo..]).pages == map[]
    ensures m < k ==> Chunk(frames[lo..]) == FileContent(h, m + 1, k) && Chunk(frames[lo..]).pages != map[]
  {
    CountedUpTo(h, base, frames, lo, m, k);
    if lo == LastCommit(frames, |frames|) {
      EmptyChunk(frames, lo);
    } else {
      NewChunk(h, base, frames, lo, m, k);
    }
  }

  lemma {:induction false} CountedUpTo(h: History, base: seq<Changes>, frames: seq<Frame>, lo: nat, m: nat, k: nat)
    requires Boundary(frames, lo) && Logged(h, base, frames, |frames|, k) && m == Count(base, frames, lo)
    ensures m <= k && lo <= LastCommit(frames, |frames|) && (m == k <==> lo == LastCommit(frames, |frames|))
  {
    var n := LastCommit(frames, |frames|);
    CommitAtLeast(frames, lo, |frames|);
    TxnsUpToCommit(frames, |frames|, n);
    if lo < n {
      MoreTxns(frames, lo, n);
    }
  }

  lemma {:induction false} NewChunk(h: History, base: seq<Changes>, frames: seq<Frame>, lo: nat, m: nat, k: nat)
    requires ValidHistory(h) && Boundary(frames, lo) && Logged(h, base, frames, |frames|, k) && m == Count(base, frames, lo)
    requires lo < LastCommit(frames, |frames|)
    ensures m < k && Chunk(frames[lo..]) == FileContent(h, m + 1, k) && Chunk(frames[lo..]).pages != map[]
  {
    var n := LastCommit(frames, |frames|);
    ChunkIsFileContent(h, base, frames, lo, m + 1, k);
    TxnsUpToCommit(frames, |frames|, n);
    LastFrameInside(h, base, frames, n, k);
    NonEmptyFile(h, m + 1, k, frames[n - 1].pgno);
  }

  lemma {:induction false} EmptyChunk(frames: seq<Frame>, lo: nat)
    requires Boundary(frames, lo) && lo == LastCommit(frames, |frames|)
    ensures Chunk(frames[lo..]).pages == map[]
  {
    CommitBehind(frames, lo, |frames|, |frames| - lo);
  }

  lemma {:induction false} NonEmptyFile(h: History, a: nat, k: nat, p: nat)
    requires 1 <= a <= k <= |h.txns| && h.Wrote(k, p) && p <= h.Commit(k)
    ensures FileContent(h, a, k).pages != map[]
  {
  }

  /** The frame that ends a transaction writes a page inside the committed size. */
  lemma {:induction false} LastFrameInside(h: History, base: seq<Changes>, frames: seq<Frame>, n: nat, k: nat)
    requires ValidHistory(h) && 0 < n && Boundary(frames, n) && Logged(h, base, frames, n, k)
    ensures 0 < k && h.Wrote(k, frames[n - 1].pgno) && frames[n - 1].pgno <= frames[n - 1].commit == h.Commit(k)
  {
    var c := LastCommit(frames, n - 1);
    LoggedStep(h, base, frames, n, k, c);
    assert ValidAt(h, k);
    assert frames[c..][n - c - 1] == frames[n - 1];
    assert frames[n - 1].pgno in Writes(frames[c..], n - c);
  }

  lemma {:induction false} FilePages(h: History, k: TXID, p: nat)
    requires ValidHistory(h) && 1 <= k <= |h.txns|
    ensures p in FileContent(h, 1, k).pages <==> IsPage(h.lock, h.Commit(k), p)
    ensures IsPage(h.lock, h.Commit(k), p) ==> State(h, k).Lookup(p) == Some(FileContent(h, 1, k).pages[p])
  {
    SnapshotContent(h, k);
    if IsPage(h.lock, h.Commit(k), p) {
      WrittenHoldsLast(h, 1, k, p);
    }
  }

  /** Pages of the log are pages of the state. */
  lemma {:induction false} LogPages(h: History, m: TXID, k: TXID, p: nat)
    requires ValidHistory(h) && m < k <= |h.txns| && p in FileContent(h, m + 1, k).pages
    ensures State(h, k).Lookup(p) == Some(FileContent(h, m + 1, k).pages[p])
    ensures IsPage(h.lock, h.Commit(k), p)
  {
    WrittenHoldsLast(h, m + 1, k, p);
  }

  lemma {:induction false} SnapshotPageIs(h: History, log: map<nat, Page>, db: seq<Page>, m: TXID, k: TXID, p: nat)
    requires ValidHistory(h) && m <= k && 1 <= k <= |h.txns| && CanRead(h.lock, log, |db|, h.Commit(k))
    requires log == if m < k then FileContent(h, m + 1, k).pages else map[]
    ensures Agree(SnapshotPages(h.lock, log, db, h.Commit(k)), FileContent(h, 1, k).pages, p) <==> PageBacked(h, db, m, k, p)
  {
    FilePages(h, k, p);
    if p in log {
      LogPages(h, m, k, p);
    }
  }

  lemma {:induction false} SameMaps(x: map<nat, Page>, y: map<nat, Page>)
    requires forall p: nat :: Agree(x, y, p)
    ensures x == y
  {
    assert forall p :: p in x ==> Agree(x, y, p);
    assert forall p :: p in y ==> Agree(x, y, p);
  }

  /** A snapshot that reads the log behind transaction m is the file over all k transactions exactly if
      the database file holds every page those transactions did not write. */
  lemma {:induction false} SnapshotIsExact(h: History, base: seq<Changes>, frames: seq<Frame>, lo: nat, m: nat, k: nat, db: seq<Page>)
    requires ValidHistory(h) && Boundary(frames, lo) && Logged(h, base, frames, |frames|, k) && 1 <= k
    requires m == Count(base, frames, lo)
    ensures m <= k
    ensures SnapshotOf(h.lock, frames[lo..], db) == Some(FileContent(h, 1, k)) <==> DbBacks(h, db, m, k)
  {
    ChunkPages(h, base, frames, lo, m, k);
    var log := Chunk(frames[lo..]).pages;
    var size := if m == k then |db| else h.Commit(k);
    assert DbBacks(h, db, m, k) ==> size == h.Commit(k) && CanRead(h.lock, log, |db|, size) by {
      if DbBacks(h, db, m, k) {
        forall p: nat | IsPage(h.lock, h.Commit(k), p) && p !in log
          ensures p <= |db|
        {
          assert PageBacked(h, db, m, k, p);
          assert p !in LastWrites(h, m + 1, k);
        }
      }
    }
    if size == h.Commit(k) && CanRead(h.lock, log, |db|, size) {
      var pages := SnapshotPages(h.lock, log, db, size);
      assert SnapshotOf(h.lock, frames[lo..], db) == Some(Changes(size, pages));
      forall p: nat
        ensures Agree(pages, FileContent(h, 1, k).pages, p) <==> PageBacked(h, db, m, k, p)
      {
        SnapshotPageIs(h, log, db, m, k, p);
      }
      if DbBacks(h, db, m, k) {
        SameMaps(pages, FileContent(h, 1, k).pages);
      }
    }
  }

  /** The database file as a checkpoint of the transactions up to j leaves it. */
  ghost predicate Checkpointed(h: History, db: seq<Page>, j: TXID)
    requires j <= |h.txns|
  {
    |db| == h.Commit(j) && forall p: nat :: IsPage(h.lock, h.Commit(j), p) ==> State(h, j).Lookup(p) == Some(db[p - 1])
  }

  /** Such a file holds what a snapshot does not find in the log behind m, if the checkpoint went at least
      that far, and no further than the log. */
  lemma {:induction false} CheckpointedBacks(h: History, db: seq<Page>, m: TXID, j: TXID, k: TXID)
    requires ValidHistory(h) && m <= j <= k <= |h.txns| && Checkpointed(h, db, j)
    ensures DbBacks(h, db, m, k)
  {
    forall p: nat
      ensures PageBacked(h, db, m, k, p)
    {
      if IsPage(h.lock, h.Commit(k), p) && p !in LastWrites(h, m + 1, k) {
        LastWritesSplit(h, m + 1, j, k, p);
        UnwrittenStays(h, j + 1, k, p);
      }
    }
  }

  // ---------------------------------------------------------------------------------------
  // Grouping transactions

  /** Each captured file holds the transactions from one cut to the next, or all transactions up to
      a cut. */
  ghost predicate Groups(h: History, files: seq<Changes>, cuts: seq<nat>) {
    |cuts| == |files| && forall i :: 0 <= i < |files| ==> GroupAt(h, files, cuts, i)
  }

  function CutBefore(cuts: seq<nat>, i: nat): nat
    requires i <= |cuts|
  {
    if i == 0 then 0 else cuts[i - 1]
  }

  ghost predicate GroupAt(h: History, files: seq<Changes>, cuts: seq<nat>, i: nat)
    requires i < |files| == |cuts|
  {
    && 1 <= cuts[i] <= |h.txns| && CutBefore(cuts, i) <= cuts[i]
    && exists a :: IsFile(h, files[i], a, cuts[i]) && (a == 1 || a == CutBefore(cuts, i) + 1)
  }

  ghost predicate IsFile(h: History, c: Changes, a: nat, b: nat) {
    1 <= a <= b <= |h.txns| && c == FileContent(h, a, b)
  }

  /** Applying a file that begins no later than the next transaction leads to the state at its end. */
  lemma {:induction false} ApplyFileContent(h: History, img: Image, m: TXID, a: TXID, b: TXID)
    requires ValidHistory(h) && 1 <= a <= m + 1 && m <= b && a <= b <= |h.txns| && SameImage(h.lock, img, State(h, m))
    ensures SameImage(h.lock, img.Apply(FileContent(h, a, b)), State(h, b))
  {
    var img' := img.Apply(FileContent(h, a, b));
    StateSize(h, b);
    StateSize(h, m);
    forall p: nat | p != h.lock
      ensures img'.Lookup(p) == State(h, b).Lookup(p)
    {
      if 1 <= p && p <= h.Commit(b) {
        if p in LastWrites(h, a, b) {
          WrittenHoldsLast(h, a, b, p);
        } else {
          LastWritesSplit(h, a, m, b, p);
          UnwrittenStays(h, m + 1, b, p);
        }
      }
    }
  }

  /** The database after captured file i is the one SQLite had at its cut. */
  lemma {:induction false} GroupsKeepState(h: History, files: seq<Changes>, cuts: seq<nat>, i: nat)
    requires ValidHistory(h) && Groups(h, files, cuts) && i <= |files|
    ensures CutBefore(cuts, i) <= |h.txns|
    ensures SameImage(h.lock, State(History(h.lock, files), i), State(h, CutBefore(cuts, i)))
  {
    if i > 0 {
      GroupsKeepState(h, files, cuts, i - 1);
      assert GroupAt(h, files, cuts, i - 1);
      var a :| IsFile(h, files[i - 1], a, cuts[i - 1]) && (a == 1 || a == CutBefore(cuts, i - 1) + 1);
      ApplyFileContent(h, State(History(h.lock, files), i - 1), CutBefore(cuts, i - 1), a, cuts[i - 1]);
    }
  }

  /** The captured files are themselves a history that follows SQLite's rules. */
  lemma {:induction false} GroupsAreValid(h: History, files: seq<Changes>, cuts: seq<nat>)
    requires ValidHistory(h) && Groups(h, files, cuts)
    ensures ValidHistory(History(h.lock, files))
  {
    var g := History(h.lock, files);
    forall t | 1 <= t <= |files|
      ensures ValidAt(g, t)
    {
      var i := t - 1;
      assert GroupAt(h, files, cuts, i);
      var a :| IsFile(h, files[i], a, cuts[i]) && (a == 1 || a == CutBefore(cuts, i) + 1);
      if i > 0 {
        assert GroupAt(h, files, cuts, i - 1);
      }
      assert g.Commit(i) == h.Commit(CutBefore(cuts, i));
      FileIsTxn(h, CutBefore(cuts, i), a, cuts[i]);
    }
  }

  lemma {:induction false} FileIsTxn(h: History, prev: TXID, a: TXID, b: TXID)
    requires ValidHistory(h) && prev <= b && 1 <= a <= b <= |h.txns| && (a == 1 || a == prev + 1)
    ensures ValidTxn(h.lock, h.Commit(prev), FileContent(h, a, b))
  {
    assert ValidAt(h, b);
    forall p | p in LastWrites(h, a, b)
      ensures 1 <= p && p != h.lock
    {
      LastWritesLegal(h, a, b, p);
    }
    forall p: nat | h.Commit(prev) < p <= h.Commit(b) && p != h.lock
      ensures p in LastWrites(h, a, b)
    {
      if p !in LastWrites(h, a, b) {
        UnwrittenInside(h, a, b, p);
      }
    }
  }

  /** Adding transactions to the history does not change the files over the earlier ones. */
  lemma {:induction false} LastWritesExtend(h: History, more: History, a: TXID, b: TXID)
    requires h.lock == more.lock && h.txns <= more.txns && 1 <= a && b <= |h.txns|
    ensures LastWrites(more, a, b) == LastWrites(h, a, b)
    decreases b
  {
    if a <= b {
      LastWritesExtend(h, more, a, b - 1);
    }
  }

  lemma {:induction false} GroupsExtend(h: History, more: History, files: seq<Changes>, cuts: seq<nat>)
    requires Groups(h, files, cuts) && h.lock == more.lock && h.txns <= more.txns
    ensures Groups(more, files, cuts)
  {
    forall i | 0 <= i < |files|
      ensures GroupAt(more, files, cuts, i)
    {
      assert GroupAt(h, files, cuts, i);
      var a :| IsFile(h, files[i], a, cuts[i]) && (a == 1 || a == CutBefore(cuts, i) + 1);
      LastWritesExtend(h, more, a, cuts[i]);
      assert IsFile(more, files[i], a, cuts[i]);
    }
  }

  lemma {:induction false} GroupsAppend(h: History, files: seq<Changes>, cuts: seq<nat>, c: Changes, a: nat, cut: nat)
    requires Groups(h, files, cuts) && IsFile(h, c, a, cut) && CutBefore(cuts, |cuts|) <= cut
    requires a == 1 || a == CutBefore(cuts, |cuts|) + 1
    ensures Groups(h, files + [c], cuts + [cut])
  {
    var files', cuts' := files + [c], cuts + [cut];
    forall i | 0 <= i < |files'|
      ensures GroupAt(h, files', cuts', i)
    {
      if i < |files| {
        assert GroupAt(h, files, cuts, i);
        var a :| IsFile(h, files[i], a, cuts[i]) && (a == 1 || a == CutBefore(cuts, i) + 1);
        assert IsFile(h, files'[i], a, cuts'[i]);
      } else {
        assert IsFile(h, files'[i], a, cuts'[i]);
      }
    }
  }
}
