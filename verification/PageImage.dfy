/** The meaning of LTX files: a history of transactions, the database image after each of them, the
    changes a file over a range of transactions holds, and merging and applying such files. */
module PageImage {
  import opened Ltx

  /** Page contents are opaque: equal numbers stand for equal bytes, ZERO for a page of zeros. */
  type Page = int
  const ZERO: Page := 0

  /** What an LTX file holds: some pages, and the size of the database in pages once applied. */
  datatype Changes = Changes(commit: nat, pages: map<nat, Page>)

  /** Transaction i is txns[i - 1]. Page `lock` holds SQLite's lock bytes and is never written. */
  datatype History = History(lock: nat, txns: seq<Changes>) {
    function Commit(t: TXID): nat
      requires t <= |txns|
    {
      if t == 0 then 0 else txns[t - 1].commit
    }

    ghost predicate Wrote(i: TXID, p: nat) {
      1 <= i <= |txns| && p in txns[i - 1].pages
    }
  }

  /** A transaction writes pages inside the new size, and every page that growth adds. */
  ghost predicate ValidTxn(lock: nat, prevCommit: nat, t: Changes) {
    && 1 <= t.commit
    && (forall p :: p in t.pages ==> 1 <= p <= t.commit && p != lock)
    && (forall p :: prevCommit < p <= t.commit && p != lock ==> p in t.pages)
  }

  ghost predicate ValidHistory(h: History) {
    forall t :: 1 <= t <= |h.txns| ==> ValidAt(h, t)
  }

  ghost predicate ValidAt(h: History, t: TXID)
    requires 1 <= t <= |h.txns|
  {
    ValidTxn(h.lock, h.Commit(t - 1), h.txns[t - 1])
  }

  predicate IsPage(lock: nat, commit: nat, p: nat) {
    1 <= p <= commit && p != lock
  }

  /** A database file: its size in pages, and the pages ever written; the others read as zeros. */
  datatype Image = Image(size: nat, pages: map<nat, Page>) {
    function Lookup(p: nat): Option<Page> {
      if p == 0 || size < p then None
      else if p in pages then Some(pages[p])
      else Some(ZERO)
    }

    /** Writes one page, extending the file with a hole of zeros if it lies past the end. */
    function Write(p: nat, data: Page): Image {
      Image(if size < p then p else size, (map q | q in pages && q <= size :: pages[q])[p := data])
    }

    function Truncate(n: nat): Image {
      Image(n, map q | q in pages && q <= size && q <= n :: pages[q])
    }

    function Apply(c: Changes): Image {
      Image(c.commit, map q | q in pages.Keys + c.pages.Keys && (q in c.pages || q <= size) && q <= c.commit
                      :: if q in c.pages then c.pages[q] else pages[q])
    }
  }

  /** Equal size and equal pages, the lock page aside. */
  ghost predicate SameImage(lock: nat, x: Image, y: Image) {
    x.size == y.size && forall p :: p != lock ==> x.Lookup(p) == y.Lookup(p)
  }

  /** The database after transactions 1..t. */
  ghost function State(h: History, t: TXID): Image
    requires t <= |h.txns|
  {
    if t == 0 then Image(0, map[]) else State(h, t - 1).Apply(h.txns[t - 1])
  }

  function Restrict(w: map<nat, Page>, commit: nat): map<nat, Page> {
    map p | p in w && p <= commit :: w[p]
  }

  lemma RestrictAgree(x: map<nat, Page>, y: map<nat, Page>, commit: nat)
    requires forall p: nat :: p <= commit ==> Agree(x, y, p)
    ensures Restrict(x, commit) == Restrict(y, commit)
  {
    forall p | p in Restrict(x, commit) || p in Restrict(y, commit)
      ensures p in Restrict(x, commit) && p in Restrict(y, commit) && x[p] == y[p]
    {
      assert Agree(x, y, p);
    }
  }

  /** The last write of each page in transactions a..b. */
  ghost function LastWrites(h: History, a: TXID, b: TXID): map<nat, Page>
    requires 1 <= a && b <= |h.txns|
    decreases b
  {
    if b < a then map[] else LastWrites(h, a, b - 1) + h.txns[b - 1].pages
  }

  /** The file over a..b: the last write of each page that is still inside the database at b. */
  ghost function FileContent(h: History, a: TXID, b: TXID): Changes
    requires 1 <= a && b <= |h.txns|
  {
    var w := LastWrites(h, a, b);
    Changes(h.Commit(b), Restrict(w, h.Commit(b)))
  }

  // ---------------------------------------------------------------------------------------
  // History

  /** The maps agree on page p. */
  predicate Agree(x: map<nat, Page>, y: map<nat, Page>, p: nat) {
    (p in x <==> p in y) && (p in x ==> x[p] == y[p])
  }

  lemma {:induction false} LastWritesSplit(h: History, a: TXID, m: TXID, b: TXID, p: nat)
    requires 1 <= a <= m + 1 && m <= b <= |h.txns|
    ensures Agree(LastWrites(h, a, b), if p in LastWrites(h, m + 1, b) then LastWrites(h, m + 1, b) else LastWrites(h, a, m), p)
    decreases b
  {
    if m < b {
      LastWritesSplit(h, a, m, b - 1, p);
    }
  }

  /** A page not written in a..b that lies inside the database at b was inside it all along. */
  lemma {:induction false} UnwrittenInside(h: History, a: TXID, b: TXID, p: nat)
    requires ValidHistory(h) && 1 <= a <= b + 1 && b <= |h.txns|
    requires p != h.lock && p !in LastWrites(h, a, b) && p <= h.Commit(b)
    ensures p <= h.Commit(a - 1) && forall i :: a <= i <= b ==> p <= h.Commit(i)
    decreases b
  {
    if a <= b {
      assert ValidAt(h, b);
      UnwrittenInside(h, a, b - 1, p);
    }
  }

  /** So it is still what it was before a. */
  lemma {:induction false} UnwrittenStays(h: History, a: TXID, b: TXID, p: nat)
    requires ValidHistory(h) && 1 <= a <= b + 1 && b <= |h.txns|
    requires p != h.lock && p !in LastWrites(h, a, b) && p <= h.Commit(b)
    ensures State(h, b).Lookup(p) == State(h, a - 1).Lookup(p)
    ensures p <= h.Commit(a - 1) && forall i :: a <= i <= b ==> p <= h.Commit(i)
    decreases b
  {
    UnwrittenInside(h, a, b, p);
    if a <= b {
      StateSize(h, b - 1);
      UnwrittenStays(h, a, b - 1, p);
    }
  }

  lemma StateSize(h: History, t: TXID)
    requires t <= |h.txns|
    ensures State(h, t).size == h.Commit(t)
  {
  }

  /** A page written in a..b and inside the database at b holds its last write there. */
  lemma {:induction false} WrittenHoldsLast(h: History, a: TXID, b: TXID, p: nat)
    requires ValidHistory(h) && 1 <= a && b <= |h.txns|
    requires p in LastWrites(h, a, b) && p <= h.Commit(b)
    ensures p != h.lock && 1 <= p && State(h, b).Lookup(p) == Some(LastWrites(h, a, b)[p])
    decreases b
  {
    assert ValidAt(h, b);
    StateSize(h, b - 1);
    if p !in h.txns[b - 1].pages {
      LastWritesLegal(h, a, b - 1, p);
      WrittenHoldsLast(h, a, b - 1, p);
    }
  }

  lemma {:induction false} LastWritesLegal(h: History, a: TXID, b: TXID, p: nat)
    requires ValidHistory(h) && 1 <= a && b <= |h.txns| && p in LastWrites(h, a, b)
    ensures 1 <= p && p != h.lock && exists i :: a <= i <= b && h.Wrote(i, p)
    decreases b
  {
    assert ValidAt(h, b);
    if p in h.txns[b - 1].pages {
      assert h.Wrote(b, p);
    } else {
      LastWritesLegal(h, a, b - 1, p);
    }
  }

  lemma {:induction false} WroteIsInLastWrites(h: History, a: TXID, b: TXID, i: TXID, p: nat)
    requires 1 <= a <= i <= b <= |h.txns| && h.Wrote(i, p)
    ensures p in LastWrites(h, a, b)
    decreases b
  {
    if i < b {
      WroteIsInLastWrites(h, a, b - 1, i, p);
    }
  }

  /** A file that starts at transaction 1 holds every page of the database, as a snapshot does. */
  lemma SnapshotContent(h: History, b: TXID)
    requires ValidHistory(h) && b <= |h.txns|
    ensures forall p :: p in FileContent(h, 1, b).pages <==> IsPage(h.lock, h.Commit(b), p)
    ensures SameImage(h.lock, Image(h.Commit(b), FileContent(h, 1, b).pages), State(h, b))
  {
    StateSize(h, b);
    forall p | 1 <= p <= h.Commit(b) && p != h.lock
      ensures p in LastWrites(h, 1, b)
    {
      if p !in LastWrites(h, 1, b) {
        UnwrittenStays(h, 1, b, p);
      }
    }
    forall p | p in LastWrites(h, 1, b) && p <= h.Commit(b)
      ensures 1 <= p && p != h.lock && State(h, b).Lookup(p) == Some(LastWrites(h, 1, b)[p])
    {
      WrittenHoldsLast(h, 1, b, p);
    }
  }

  // ---------------------------------------------------------------------------------------
  // Merging: the contract of the LTX compactor

  /** Pages of all inputs, a later input winning over an earlier one. */
  ghost function Overlay(inputs: seq<Changes>): map<nat, Page> {
    if inputs == [] then map[] else Overlay(inputs[..|inputs| - 1]) + inputs[|inputs| - 1].pages
  }

  /** The compactor keeps the last writer of each page, within the size of the last input. */
  ghost function Merge(inputs: seq<Changes>): Changes
    requires inputs != []
  {
    var commit := inputs[|inputs| - 1].commit;
    var w := Overlay(inputs);
    Changes(commit, Restrict(w, commit))
  }

  /** The file describes a range of transactions of the history. */
  predicate Within(h: History, f: FileInfo) {
    WellFormed(f) && f.maxTXID <= |h.txns|
  }

  ghost predicate AllWithin(h: History, files: seq<FileInfo>) {
    forall i :: 0 <= i < |files| ==> Within(h, files[i])
  }

  ghost function Content(h: History, f: FileInfo): Changes
    requires Within(h, f)
  {
    FileContent(h, f.minTXID, f.maxTXID)
  }

  ghost function Contents(h: History, files: seq<FileInfo>): (r: seq<Changes>)
    requires AllWithin(h, files)
    ensures |r| == |files| && forall i :: 0 <= i < |r| ==> r[i] == Content(h, files[i])
  {
    seq(|files|, i requires 0 <= i < |files| => Content(h, files[i]))
  }

  /** Files that touch or overlap and each reach further, none starting before the first. */
  ghost predicate Mergeable(files: seq<FileInfo>) {
    && files != []
    && (forall i :: 0 <= i < |files| ==> 1 <= files[0].minTXID <= files[i].minTXID)
    && (forall i :: 1 <= i < |files| ==> ContinuesAt(files, i))
  }

  /** File i touches the one before it and reaches further. */
  predicate ContinuesAt(files: seq<FileInfo>, i: nat)
    requires 1 <= i < |files|
  {
    files[i].minTXID <= files[i - 1].maxTXID + 1 && files[i - 1].maxTXID < files[i].maxTXID
  }

  lemma MergeablePrefix(files: seq<FileInfo>, n: nat)
    requires Mergeable(files) && 1 <= n <= |files|
    ensures Mergeable(files[..n])
  {
    forall i | 1 <= i < n
      ensures ContinuesAt(files[..n], i)
    {
      assert ContinuesAt(files, i);
    }
  }

  /** Overlaying the file over a..b onto one that reaches m extends it to b. */
  lemma OverlayStep(h: History, lo: TXID, m: TXID, a: TXID, b: TXID, o: map<nat, Page>, p: nat)
    requires ValidHistory(h) && 1 <= lo <= a <= m + 1 && m < b <= |h.txns| && lo <= m + 1
    requires p != h.lock && p <= h.Commit(b)
    requires p <= h.Commit(m) ==> Agree(o, LastWrites(h, lo, m), p)
    ensures Agree(o + FileContent(h, a, b).pages, LastWrites(h, lo, b), p)
  {
    LastWritesSplit(h, lo, a - 1, b, p);
    LastWritesSplit(h, lo, m, b, p);
    LastWritesSplit(h, a, m, b, p);
    if p !in LastWrites(h, a, b) {
      UnwrittenStays(h, m + 1, b, p);
    }
  }

  lemma {:induction false} OverlayMeaning(h: History, files: seq<FileInfo>, p: nat)
    requires ValidHistory(h) && Mergeable(files)
    requires AllWithin(h, files)
    requires p != h.lock && p <= h.Commit(files[|files| - 1].maxTXID)
    ensures Agree(Overlay(Contents(h, files)), LastWrites(h, files[0].minTXID, files[|files| - 1].maxTXID), p)
    decreases |files|
  {
    var n := |files| - 1;
    var lo, a, b := files[0].minTXID, files[n].minTXID, files[n].maxTXID;
    assert Contents(h, files)[..n] == Contents(h, files[..n]);
    var o := Overlay(Contents(h, files[..n]));
    assert Overlay(Contents(h, files)) == o + FileContent(h, a, b).pages;
    if n == 0 {
      assert o == map[];
      OverlayStep(h, lo, lo - 1, lo, b, o, p);
    } else {
      var m := files[n - 1].maxTXID;
      assert ContinuesAt(files, n);
      MergeablePrefix(files, n);
      if p <= h.Commit(m) {
        OverlayMeaning(h, files[..n], p);
      }
      OverlayStep(h, lo, m, a, b, o, p);
    }
  }

  lemma NoLockWrites(h: History, a: TXID, b: TXID)
    requires ValidHistory(h) && 1 <= a && b <= |h.txns|
    ensures h.lock !in LastWrites(h, a, b)
  {
    if h.lock in LastWrites(h, a, b) {
      LastWritesLegal(h, a, b, h.lock);
    }
  }

  lemma {:induction false} LockNotInOverlay(h: History, files: seq<FileInfo>)
    requires ValidHistory(h)
    requires AllWithin(h, files)
    ensures h.lock !in Overlay(Contents(h, files))
    decreases |files|
  {
    if files != [] {
      var n := |files| - 1;
      assert Contents(h, files)[..n] == Contents(h, files[..n]);
      LockNotInOverlay(h, files[..n]);
      NoLockWrites(h, files[n].minTXID, files[n].maxTXID);
    }
  }

  /** Merging files over touching or overlapping ranges gives the file over the whole range. */
  lemma MergeMeaning(h: History, files: seq<FileInfo>)
    requires ValidHistory(h) && Mergeable(files)
    requires AllWithin(h, files)
    ensures Merge(Contents(h, files)) == FileContent(h, files[0].minTXID, files[|files| - 1].maxTXID)
  {
    var lo, hi := files[0].minTXID, files[|files| - 1].maxTXID;
    LockNotInOverlay(h, files);
    NoLockWrites(h, lo, hi);
    forall p: nat | p <= h.Commit(hi)
      ensures Agree(Overlay(Contents(h, files)), LastWrites(h, lo, hi), p)
    {
      if p != h.lock {
        OverlayMeaning(h, files, p);
      }
    }
    RestrictAgree(Overlay(Contents(h, files)), LastWrites(h, lo, hi), h.Commit(hi));
  }

  /** Decoding a merged file into a database: it must hold every page but the lock page. */
  ghost function DecodeDatabase(lock: nat, c: Changes): Option<Image> {
    if forall p :: p in c.pages <==> IsPage(lock, c.commit, p) then Some(Image(c.commit, c.pages)) else None
  }

  /** Restoring from files that start at transaction 1 replays the history. */
  lemma RestoreMeaning(h: History, files: seq<FileInfo>)
    requires ValidHistory(h) && Mergeable(files) && files[0].minTXID == 1
    requires AllWithin(h, files)
    ensures var db := DecodeDatabase(h.lock, Merge(Contents(h, files)));
            db.Some? && SameImage(h.lock, db.value, State(h, files[|files| - 1].maxTXID))
  {
    MergeMeaning(h, files);
    SnapshotContent(h, files[|files| - 1].maxTXID);
  }
}
