/** Copying the write-ahead log into LTX files: one call of sync, and what a run of calls over a
    growing log adds up to. */
module Capture {
  import opened Ltx
  import opened PageImage
  import opened Wal
  import opened WalIndex
  import opened WalReader
  import opened CaptureTheory
  import opened LogPosition

  datatype SyncResult = Synced | Skipped | Failed

  // ---------------------------------------------------------------------------------------
  // Page contents by offset

  /** Following m into the log yields these pages. */
  ghost predicate Backed(wal: Bytes, hdr: Header, m: map<nat, nat>, pages: map<nat, Page>) {
    m.Keys == pages.Keys && forall p :: p in m ==> PageStoredAt(wal, hdr, m[p], pages[p])
  }

  predicate PageStoredAt(wal: Bytes, hdr: Header, offset: nat, page: Page) {
    && offset + FrameSize(hdr) <= |wal|
    && PageOf(ReadPage(wal, hdr, offset)) == page
  }

  function ReadPage(wal: Bytes, hdr: Header, offset: nat): Bytes
    requires offset + FrameSize(hdr) <= |wal|
  {
    wal[offset + WAL_FRAME_HEADER_SIZE..offset + FrameSize(hdr)]
  }

  lemma DataStored(wal: Bytes, hdr: Header, at: nat)
    requires Complete(wal, hdr, at)
    ensures PageStoredAt(wal, hdr, FrameOffset(hdr, at), PageOf(FrameAt(wal, hdr, at).data))
  {
  }

  lemma FrameStored(wal: Bytes, hdr: Header, start: nat, salt1: nat, salt2: nat, sums: Sums, frames: seq<Frame>, i: nat, at: nat)
    requires frames == Chain(wal, hdr, start, salt1, salt2, sums) && i < |frames| && at == start + i
    ensures PageStoredAt(wal, hdr, FrameOffset(hdr, at), PageOf(frames[i].data))
  {
    ChainSuffix(wal, hdr, start, salt1, salt2, sums, frames, i + 1, at);
    DataStored(wal, hdr, at);
  }

  /** The offsets of the page map lead to the pages of the chunk. */
  lemma PageMapIsBacked(wal: Bytes, hdr: Header, start: nat, salt1: nat, salt2: nat, sums: Sums, frames: seq<Frame>, m: map<nat, nat>)
    requires frames == Chain(wal, hdr, start, salt1, salt2, sums) && IsPageMap(m, frames, Offsets(hdr, start, |frames|))
    ensures Backed(wal, hdr, m, Chunk(frames).pages)
  {
    var pages := Chunk(frames).pages;
    forall p: nat
      ensures p in m <==> p in pages
      ensures p in m ==> PageStoredAt(wal, hdr, m[p], pages[p])
    {
      var c := LastCommit(frames, |frames|);
      assert MapsPage(m, frames, Offsets(hdr, start, |frames|), p);
      WritesAreLastFrames(frames, c, p);
      if p in m {
        var i := LastFrame(frames, c, p);
        OffsetsAt(hdr, start, |frames|, i, start + i);
        FrameStored(wal, hdr, start, salt1, salt2, sums, frames, i, start + i);
      }
    }
    assert forall p :: p in m.Keys <==> p in pages.Keys;
  }

  // ---------------------------------------------------------------------------------------
  // Writing files

  /** Copies the pages of the page map. */
  method WriteLTXFromWAL(wal: Bytes, hdr: Header, m: map<nat, nat>, ghost log: map<nat, Page>) returns (pages: map<nat, Page>)
    requires Backed(wal, hdr, m, log)
    ensures pages == log
  {
    pages := map[];
    var pgnos := m.Keys;
    while pgnos != {}
      invariant pgnos <= m.Keys && pages.Keys == m.Keys - pgnos
      invariant forall p :: p in pages ==> pages[p] == log[p]
      decreases |pgnos|
    {
      var pgno :| pgno in pgnos;
      assert PageStoredAt(wal, hdr, m[pgno], log[pgno]);
      pages := pages[pgno := PageOf(ReadPage(wal, hdr, m[pgno]))];
      pgnos := pgnos - {pgno};
    }
  }

  /** Copies every page but the lock page, from the log if it is there, else from the database. */
  method WriteLTXFromDB(wal: Bytes, hdr: Header, m: map<nat, nat>, ghost log: map<nat, Page>, lock: nat, db: seq<Page>, commit: nat)
    returns (ok: bool, pages: map<nat, Page>)
    requires Backed(wal, hdr, m, log)
    ensures ok <==> CanRead(lock, log, |db|, commit)
    ensures ok ==> CanRead(lock, log, |db|, commit) && pages == SnapshotPages(lock, log, db, commit)
  {
    pages := map[];
    for pgno := 1 to commit + 1
      invariant forall p: nat :: p < pgno && IsPage(lock, commit, p) && p !in log ==> p <= |db|
      invariant forall p: nat :: p in pages <==> p < pgno && IsPage(lock, commit, p)
      invariant forall p :: p in pages ==> pages[p] == if p in log then log[p] else db[p - 1]
    {
      if pgno != lock {
        if pgno in m {
          assert PageStoredAt(wal, hdr, m[pgno], log[pgno]);
          pages := pages[pgno := PageOf(ReadPage(wal, hdr, m[pgno]))];
        } else if pgno <= |db| {
          pages := pages[pgno := db[pgno - 1]];
        } else {
          assert IsPage(lock, commit, pgno) && pgno !in log;
          return false, map[];
        }
      }
    }
    assert CanRead(lock, log, |db|, commit);
    assert pages.Keys == SnapshotPages(lock, log, db, commit).Keys;
    ok := true;
  }

  // ---------------------------------------------------------------------------------------
  // Opening the log

  /** The frames a sync reads: the log from frame `start` on. It starts over from the header if the
      frame before the saved offset is no longer there. */
  ghost predicate ReadsFrom(wal: Bytes, hdr: Header, info: SyncInfo, start: nat, read: seq<Frame>) {
    if start > 0 then
      && FrameOffset(hdr, start) == info.offset && Accepts(wal, hdr, start - 1, info.salt1, info.salt2, None)
      && read == Chain(wal, hdr, start, info.salt1, info.salt2, StoredSums(wal, hdr, start - 1))
    else
      && read == LogFrames(wal, hdr)
      && (info.offset == WAL_HEADER_SIZE || PrevFrameGone(wal, hdr, info))
  }

  ghost predicate PrevFrameGone(wal: Bytes, hdr: Header, info: SyncInfo) {
    exists n: nat :: n > 0 && FrameOffset(hdr, n) == info.offset && !Accepts(wal, hdr, n - 1, info.salt1, info.salt2, None)
  }

  /** The log cannot be opened: no valid header, or not the start of a frame. */
  ghost predicate CannotOpen(wal: Bytes, info: SyncInfo) {
    || !ParseHeader(wal).HeaderOk?
    || info.offset < WAL_HEADER_SIZE
    || NoFrameAt(ParseHeader(wal).header, info.offset)
  }

  method OpenLog(wal: Bytes, info: SyncInfo) returns (r: Option<Reader>, offset: nat)
    requires ParseHeader(wal).HeaderOk? ==> Usable(ParseHeader(wal).header)
    ensures r.None? <==> CannotOpen(wal, info)
    ensures r.Some? ==> fresh(r.value) && r.value.file == wal && ParseHeader(wal) == HeaderOk(r.value.h)
    ensures r.Some? ==> offset == FrameOffset(r.value.h, r.value.frameN)
    ensures r.Some? ==> ReadsFrom(wal, r.value.h, info, r.value.frameN, r.value.Rest())
    ensures r.Some? && r.value.frameN > 0 ==> r.value.salt1 == info.salt1 && r.value.salt2 == info.salt2
    ensures r.Some? && r.value.frameN == 0 ==> r.value.salt1 == r.value.h.salt1 && r.value.salt2 == r.value.h.salt2
  {
    offset := info.offset;
    if info.offset == WAL_HEADER_SIZE {
      r := OpenFromHeader(wal);
    } else {
      var status;
      ghost var n;
      r, status, n := OpenAt(wal, info.offset, info.salt1, info.salt2);
      if status == PrevFrameMismatch {
        offset := WAL_HEADER_SIZE;
        r := OpenFromHeader(wal);
        assert PrevFrameGone(wal, r.value.h, info);
      }
    }
  }

  method OpenFromHeader(wal: Bytes) returns (r: Option<Reader>)
    ensures r.None? <==> !ParseHeader(wal).HeaderOk?
    ensures r.Some? ==> fresh(r.value) && r.value.file == wal && ParseHeader(wal) == HeaderOk(r.value.h)
    ensures r.Some? ==> r.value.frameN == 0 && r.value.Rest() == LogFrames(wal, r.value.h)
    ensures r.Some? ==> r.value.salt1 == r.value.h.salt1 && r.value.salt2 == r.value.h.salt2
  {
    var header := ReadHeader(wal);
    if !header.HeaderOk? {
      return None;
    }
    var reader := new Reader(wal, header.header);
    r := Some(reader);
  }

  // ---------------------------------------------------------------------------------------
  // Sync

  /** The file one sync writes, given the frames it read. Its stretch of the log starts where the
      frames do; it is empty exactly if they hold no page of a complete transaction. */
  ghost predicate CapturedFrom(lock: nat, hdr: Header, start: nat, read: seq<Frame>, db: seq<Page>, snapshotting: bool, f: Captured) {
    && f.walOffset == FrameOffset(hdr, start)
    && (f.walSize == 0 <==> Chunk(read).pages == map[])
    && EndsWell(read, hdr, start, if f.walSize == 0 then 0 else f.End())
    && (if snapshotting then SnapshotOf(lock, read, db) == Some(f.changes)
        else Chunk(read).pages != map[] && f.changes == Chunk(read))
  }

  /** What a page map and a start of the log amount to. */
  lemma CapturedIs(lock: nat, hdr: Header, start: nat, read: seq<Frame>, db: seq<Page>, snapshotting: bool,
                   m: map<nat, nat>, maxOffset: nat, walCommit: nat, f: Captured)
    requires PageMapOf(read, hdr, start, m, maxOffset, walCommit) && m.Keys == Chunk(read).pages.Keys
    requires f.walOffset == FrameOffset(hdr, start) && f.walSize == (if maxOffset > 0 then maxOffset - f.walOffset else 0)
    requires FileWritten(lock, Chunk(read).pages, db, if walCommit > 0 then walCommit else |db|, snapshotting, Some(f.changes))
    requires snapshotting || f.walSize > 0
    ensures CapturedFrom(lock, hdr, start, read, db, snapshotting, f)
  {
    assert m == map[] <==> Chunk(read).pages == map[];
    CommitSizeIs(read, |read|);
    if m != map[] {
      assert maxOffset == f.End();
      NonEmptyChunk(read);
    }
  }

  lemma NonEmptyChunk(frames: seq<Frame>)
    requires Chunk(frames).pages != map[]
    ensures CommitSize(frames, |frames|) > 0
  {
    CommitSizeIs(frames, |frames|);
  }

  /** The contents of the new file, nothing if the database file is too short. */
  ghost predicate FileWritten(lock: nat, log: map<nat, Page>, db: seq<Page>, commit: nat, snapshotting: bool, c: Option<Changes>) {
    if !snapshotting then c == Some(Changes(commit, log))
    else if CanRead(lock, log, |db|, commit) then c == Some(Changes(commit, SnapshotPages(lock, log, db, commit)))
    else c == None
  }

  method WriteFile(wal: Bytes, hdr: Header, m: map<nat, nat>, ghost log: map<nat, Page>, lock: nat, db: seq<Page>, commit: nat,
                   snapshotting: bool) returns (c: Option<Changes>)
    requires Backed(wal, hdr, m, log)
    ensures FileWritten(lock, log, db, commit, snapshotting, c)
  {
    if snapshotting {
      var ok, pages := WriteLTXFromDB(wal, hdr, m, log, lock, db, commit);
      c := if ok then Some(Changes(commit, pages)) else None;
    } else {
      var pages := WriteLTXFromWAL(wal, hdr, m, log);
      c := Some(Changes(commit, pages));
    }
  }

  /** What comes of the frames a sync read: nothing new, a database file that is too short for the
      snapshot, or a file. */
  ghost predicate WriteOutcome(lock: nat, hdr: Header, start: nat, read: seq<Frame>, db: seq<Page>, snapshotting: bool, r: SyncResult, f: Captured) {
    if !snapshotting && Chunk(read).pages == map[] then r == Skipped
    else if snapshotting && SnapshotOf(lock, read, db).None? then r == Failed
    else r == Synced && CapturedFrom(lock, hdr, start, read, db, snapshotting, f)
  }

  lemma EndBehindStart(hdr: Header, start: nat, read: seq<Frame>, m: map<nat, nat>, maxOffset: nat, walCommit: nat)
    requires PageMapOf(read, hdr, start, m, maxOffset, walCommit) && m.Keys == Chunk(read).pages.Keys
    ensures maxOffset == 0 <==> Chunk(read).pages == map[]
    ensures maxOffset > 0 ==> maxOffset > FrameOffset(hdr, start)
  {
  }

  lemma Written(lock: nat, hdr: Header, start: nat, read: seq<Frame>, db: seq<Page>, snapshotting: bool,
                m: map<nat, nat>, maxOffset: nat, walCommit: nat, c: Option<Changes>, r: SyncResult, f: Captured)
    requires PageMapOf(read, hdr, start, m, maxOffset, walCommit) && m.Keys == Chunk(read).pages.Keys
    requires snapshotting || maxOffset > 0
    requires FileWritten(lock, Chunk(read).pages, db, if walCommit > 0 then walCommit else |db|, snapshotting, c)
    requires if c.None? then r == Failed else r == Synced && f.changes == c.value
    requires f.walOffset == FrameOffset(hdr, start) && f.walSize == (if maxOffset > 0 then maxOffset - f.walOffset else 0)
    ensures WriteOutcome(lock, hdr, start, read, db, snapshotting, r, f)
  {
    EndBehindStart(hdr, start, read, m, maxOffset, walCommit);
    if c.Some? {
      CapturedIs(lock, hdr, start, read, db, snapshotting, m, maxOffset, walCommit, f);
    } else {
      assert m == map[] <==> Chunk(read).pages == map[];
      if m != map[] {
        NonEmptyChunk(read);
      }
    }
  }

  /** Reads the page map and makes a file of it. The size of the captured stretch is never negative. */
  method CaptureFrom(reader: Reader, offset: nat, lock: nat, db: seq<Page>, snapshotting: bool) returns (r: SyncResult, f: Captured)
    requires Usable(reader.h) && offset == FrameOffset(reader.h, reader.frameN)
    modifies reader`frameN, reader`sums
    ensures WriteOutcome(lock, reader.h, old(reader.frameN), old(reader.Rest()), db, snapshotting, r, f)
    ensures f.salt1 == reader.salt1 && f.salt2 == reader.salt2
  {
    ghost var hdr, start, read, sums := reader.h, reader.frameN, reader.Rest(), reader.sums;
    var m, maxOffset, walCommit := reader.PageMap();
    PageMapIsBacked(reader.file, hdr, start, reader.salt1, reader.salt2, sums, read, m);
    EndBehindStart(hdr, start, read, m, maxOffset, walCommit);
    var sz: nat := if maxOffset > 0 then maxOffset - offset else 0;
    f := Captured(offset, sz, reader.salt1, reader.salt2, Changes(0, map[]));
    if !snapshotting && sz == 0 {
      return Skipped, f;
    }
    var commit := if walCommit > 0 then walCommit else |db|;
    var c := WriteFile(reader.file, reader.h, m, Chunk(read).pages, lock, db, commit, snapshotting);
    r := Failed;
    if c.Some? {
      r, f := Synced, f.(changes := c.value);
    }
    Written(lock, hdr, start, read, db, snapshotting, m, maxOffset, walCommit, c, r, f);
  }

  /** One sync, as a function of what it finds: it fails if the log cannot be opened, and otherwise
      makes what it can of the frames it reads. */
  ghost predicate SyncOutcome(lock: nat, wal: Bytes, db: seq<Page>, info: SyncInfo, hdr: Header, start: nat, read: seq<Frame>,
                              r: SyncResult, f: Captured)
  {
    if CannotOpen(wal, info) then r == Failed
    else
      && ParseHeader(wal) == HeaderOk(hdr) && ReadsFrom(wal, hdr, info, start, read)
      && WriteOutcome(lock, hdr, start, read, db, info.snapshotting, r, f)
      && f.salt1 == (if start > 0 then info.salt1 else hdr.salt1)
      && f.salt2 == (if start > 0 then info.salt2 else hdr.salt2)
  }

  /** What a sync works from: the first one takes a snapshot from the start of the log. */
  ghost function NextPosition(files: seq<Captured>, pageSize: nat, wal: Bytes, atEnd: bool): Option<SyncInfo> {
    if files == [] then Some(SyncInfo(WAL_HEADER_SIZE, 0, 0, true)) else Position(files[|files| - 1], pageSize, wal, atEnd)
  }

  /** One sync that first finds out where to read on. */
  ghost predicate VerifiedSync(lock: nat, pageSize: nat, files: seq<Captured>, wal: Bytes, db: seq<Page>, atEnd: bool,
                               hdr: Header, start: nat, read: seq<Frame>, r: SyncResult, f: Captured)
  {
    var info := NextPosition(files, pageSize, wal, atEnd);
    if info.None? then r == Failed else SyncOutcome(lock, wal, db, info.value, hdr, start, read, r, f)
  }

  class Database {
    const lock: nat
    const pageSize: nat
    var files: seq<Captured>
    var lastSyncedWALOffset: nat
    var syncedToWALEnd: bool

    constructor (lock: nat, pageSize: nat)
      ensures this.lock == lock && this.pageSize == pageSize && files == [] && lastSyncedWALOffset == 0 && !syncedToWALEnd
    {
      this.lock, this.pageSize := lock, pageSize;
      files := [];
      lastSyncedWALOffset := 0;
      syncedToWALEnd := false;
    }

    /** Checks the last file against the log. A log that was cut off after it was read to its end is
        taken up from its header, once. */
    method Verify(wal: Bytes) returns (r: Option<SyncInfo>)
      modifies this`syncedToWALEnd
      ensures r == NextPosition(files, pageSize, wal, old(syncedToWALEnd))
      ensures syncedToWALEnd <==> old(syncedToWALEnd) && (files == [] || files[|files| - 1].End() <= |wal|)
    {
      if files == [] {
        return Some(SyncInfo(WAL_HEADER_SIZE, 0, 0, true));
      }
      var last := files[|files| - 1];
      var end := last.End();
      if end > |wal| {
        if !syncedToWALEnd {
          return Some(ReadOn(last, true));
        }
        syncedToWALEnd := false;
        if |wal| < WAL_HEADER_SIZE {
          return None;
        }
        return Some(StartOver(wal, false));
      }
      if end == |wal| {
        return Some(ReadOn(last, false));
      }
      if |wal| < WAL_HEADER_SIZE {
        return None;
      }
      var salts := HeaderSalts(wal);
      var saltMatch := salts == SaltsOf(last);
      if end == WAL_HEADER_SIZE {
        return Some(ReadOn(last, !saltMatch));
      }
      var prev := end - (pageSize + WAL_FRAME_HEADER_SIZE);
      if prev == WAL_HEADER_SIZE {
        return Some(ReadOn(last, !saltMatch));
      } else if prev < WAL_HEADER_SIZE {
        return None;
      }
      var found := LastPageMatch(wal, pageSize, last, prev);
      if !found {
        return Some(ReadOn(last, true));
      }
      if saltMatch {
        return Some(ReadOn(last, false));
      }
      var detected := DetectFullCheckpoint(wal, salts, SaltsOf(last));
      if detected.None? {
        return None;
      }
      return Some(StartOver(wal, detected.value));
    }

    /** Copies what is new in the log to the next level-0 file, if anything is. */
    method Sync(wal: Bytes, db: seq<Page>, info: SyncInfo)
      returns (r: SyncResult, f: Captured, ghost hdr: Header, ghost start: nat, ghost read: seq<Frame>)
      requires ParseHeader(wal).HeaderOk? ==> Usable(ParseHeader(wal).header)
      modifies this
      ensures SyncOutcome(lock, wal, db, info, hdr, start, read, r, f)
      ensures files == if r == Synced then old(files) + [f] else old(files)
      ensures lastSyncedWALOffset == if r == Synced then f.End() else old(lastSyncedWALOffset)
      ensures syncedToWALEnd == if r == Synced then f.End() == |wal| else old(syncedToWALEnd)
    {
      hdr, start, read := Header(false, 0, 0, 0, Sums(0, 0)), 0, [];
      r, f := Failed, Captured(0, 0, 0, 0, Changes(0, map[]));
      var rd, offset := OpenLog(wal, info);
      if rd.Some? {
        var reader := rd.value;
        hdr, start, read := reader.h, reader.frameN, reader.Rest();
        r, f := CaptureFrom(reader, offset, lock, db, info.snapshotting);
      }
      assert SyncOutcome(lock, wal, db, info, hdr, start, read, r, f);
      if r == Synced {
        files := files + [f];
        lastSyncedWALOffset := f.End();
        syncedToWALEnd := lastSyncedWALOffset == |wal|;
      }
    }

    /** Checks the last file against the log, and copies what is new. */
    method VerifyAndSync(wal: Bytes, db: seq<Page>)
      returns (r: SyncResult, f: Captured, ghost hdr: Header, ghost start: nat, ghost read: seq<Frame>)
      requires ParseHeader(wal).HeaderOk? ==> Usable(ParseHeader(wal).header)
      modifies this
      ensures VerifiedSync(lock, pageSize, old(files), wal, db, old(syncedToWALEnd), hdr, start, read, r, f)
      ensures files == if r == Synced then old(files) + [f] else old(files)
      ensures syncedToWALEnd <==> if r == Synced then f.End() == |wal|
                                  else old(syncedToWALEnd) && (files == [] || files[|files| - 1].End() <= |wal|)
    {
      hdr, start, read := Header(false, 0, 0, 0, Sums(0, 0)), 0, [];
      f := Captured(0, 0, 0, 0, Changes(0, map[]));
      var info := Verify(wal);
      if info.None? {
        r := Failed;
      } else {
        r, f, hdr, start, read := Sync(wal, db, info.value);
      }
    }
  }
}
