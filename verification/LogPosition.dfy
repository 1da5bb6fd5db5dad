/** Where the next sync reads on: what the last captured file says about the log, checked against what
    is found there now. */
module LogPosition {
  import opened Ltx
  import opened PageImage
  import opened Wal
  import opened WalReader
  import opened CaptureTheory

  /** Where to read on, with which salts, and whether a full snapshot is required. */
  datatype SyncInfo = SyncInfo(offset: nat, salt1: nat, salt2: nat, snapshotting: bool)

  /** A level-0 file: the stretch of the log it was taken from, and what it holds. */
  datatype Captured = Captured(walOffset: nat, walSize: nat, salt1: nat, salt2: nat, changes: Changes) {
    function End(): nat {
      walOffset + walSize
    }
  }

  datatype Salts = Salts(salt1: nat, salt2: nat)

  function SaltsOf(f: Captured): Salts {
    Salts(f.salt1, f.salt2)
  }

  /** The salts in the header of a log, valid or not. */
  function HeaderSalts(wal: Bytes): Salts
    requires WAL_HEADER_SIZE <= |wal|
  {
    Salts(BigEndian(wal, 16), BigEndian(wal, 20))
  }

  // ---------------------------------------------------------------------------------------
  // The salts of the frames

  /** The header of frame i is there and carries these salts. */
  predicate CarriesSalts(wal: Bytes, h: Header, i: nat, s: Salts) {
    var off := FrameOffset(h, i);
    off + WAL_FRAME_HEADER_SIZE <= |wal| && Salts(BigEndian(wal, off + 8), BigEndian(wal, off + 12)) == s
  }

  /** Frame i carries these salts, and no frame before it those of `until`. */
  ghost predicate SeenAt(wal: Bytes, h: Header, until: Salts, i: nat, s: Salts) {
    CarriesSalts(wal, h, i, s) && forall j: nat :: j < i ==> !CarriesSalts(wal, h, j, until)
  }

  ghost predicate Seen(wal: Bytes, h: Header, until: Salts, s: Salts) {
    exists i: nat :: SeenAt(wal, h, until, i, s)
  }

  /** All salts in the log, up to the first frame with those of `until`. */
  method FrameSaltsUntil(wal: Bytes, h: Header, until: Salts) returns (m: set<Salts>)
    ensures forall s :: s in m <==> Seen(wal, h, until, s)
  {
    m := {};
    var offset: nat := WAL_HEADER_SIZE;
    ghost var n: nat := 0;
    ghost var last := false;
    while true
      invariant offset == FrameOffset(h, n)
      invariant forall s :: s in m <==> exists i: nat :: i < n && SeenAt(wal, h, until, i, s)
      invariant forall j: nat :: j < n ==> !CarriesSalts(wal, h, j, until)
      decreases |wal| - offset
    {
      if |wal| < offset + WAL_FRAME_HEADER_SIZE {
        NoFramesBehind(wal, h, n);
        break;
      }
      var s := Salts(BigEndian(wal, offset + 8), BigEndian(wal, offset + 12));
      assert SeenAt(wal, h, until, n, s);
      m := m + {s};
      if s == until {
        assert CarriesSalts(wal, h, n, until);
        break;
      }
      n, offset := n + 1, offset + FrameSize(h);
    }
  }

  lemma NoFramesBehind(wal: Bytes, h: Header, n: nat)
    requires |wal| < FrameOffset(h, n) + WAL_FRAME_HEADER_SIZE
    ensures forall i: nat, s :: n <= i ==> !CarriesSalts(wal, h, i, s)
  {
    forall i: nat, s | n <= i
      ensures !CarriesSalts(wal, h, i, s)
    {
      if n < i {
        FrameOffsetGrows(h, n, i);
      }
    }
  }

  /** Frames of a third generation lie between those of the header and those last captured. */
  ghost predicate OtherSalts(wal: Bytes, h: Header, known: Salts, last: Salts) {
    exists s :: s != known && s != last && Seen(wal, h, last, s)
  }

  method DetectFullCheckpoint(wal: Bytes, known: Salts, last: Salts) returns (r: Option<bool>)
    ensures r.Some? <==> ParseHeader(wal).HeaderOk?
    ensures r.Some? ==> (r.value <==> OtherSalts(wal, ParseHeader(wal).header, known, last))
  {
    var header := ReadHeader(wal);
    if !header.HeaderOk? {
      return None;
    }
    var m := FrameSaltsUntil(wal, header.header, last);
    var rest := m - {known, last};
    assert forall s :: s in rest <==> s != known && s != last && Seen(wal, header.header, last, s);
    return Some(rest != {});
  }

  // ---------------------------------------------------------------------------------------
  // The last page captured

  /** The frame at this offset carries the salts of the last file, and its page is in that file. */
  ghost predicate PageMatches(wal: Bytes, pageSize: nat, last: Captured, at: nat)
    requires at + WAL_FRAME_HEADER_SIZE + pageSize <= |wal|
  {
    var pgno := BigEndian(wal, at);
    && Salts(BigEndian(wal, at + 8), BigEndian(wal, at + 12)) == SaltsOf(last)
    && pgno in last.changes.pages
    && last.changes.pages[pgno] == PageOf(wal[at + WAL_FRAME_HEADER_SIZE..at + WAL_FRAME_HEADER_SIZE + pageSize])
  }

  method LastPageMatch(wal: Bytes, pageSize: nat, last: Captured, at: nat) returns (r: bool)
    requires WAL_HEADER_SIZE < at && at + WAL_FRAME_HEADER_SIZE + pageSize <= |wal|
    ensures r <==> PageMatches(wal, pageSize, last, at)
  {
    var pgno := BigEndian(wal, at);
    var data := wal[at + WAL_FRAME_HEADER_SIZE..at + WAL_FRAME_HEADER_SIZE + pageSize];
    if Salts(BigEndian(wal, at + 8), BigEndian(wal, at + 12)) != SaltsOf(last) {
      return false;
    }
    var pages := last.changes.pages.Keys;
    while pages != {}
      invariant pages <= last.changes.pages.Keys
      invariant forall p :: p in last.changes.pages && p !in pages ==> !(p == pgno && last.changes.pages[p] == PageOf(data))
      decreases |pages|
    {
      var p :| p in pages;
      if p == pgno && last.changes.pages[p] == PageOf(data) {
        return true;
      }
      pages := pages - {p};
    }
    return false;
  }

  // ---------------------------------------------------------------------------------------
  // The decision

  /** What a sync works from, given the last file and the log as it is now; nothing if that is an error.
      `atEnd` says that the last sync reached the end of the log file. */
  ghost function Position(last: Captured, pageSize: nat, wal: Bytes, atEnd: bool): Option<SyncInfo> {
    var end := last.End();
    if |wal| < end then
      if !atEnd then Some(ReadOn(last, true))
      else if |wal| < WAL_HEADER_SIZE then None
      else Some(StartOver(wal, false))
    else if |wal| == end then Some(ReadOn(last, false))
    else if |wal| < WAL_HEADER_SIZE then None
    else if end == WAL_HEADER_SIZE || end == WAL_HEADER_SIZE + WAL_FRAME_HEADER_SIZE + pageSize then
      Some(ReadOn(last, HeaderSalts(wal) != SaltsOf(last)))
    else if end < WAL_HEADER_SIZE + WAL_FRAME_HEADER_SIZE + pageSize then None
    else if !PageMatches(wal, pageSize, last, end - WAL_FRAME_HEADER_SIZE - pageSize) then Some(ReadOn(last, true))
    else if HeaderSalts(wal) == SaltsOf(last) then Some(ReadOn(last, false))
    else if !ParseHeader(wal).HeaderOk? then None
    else Some(StartOver(wal, OtherSalts(wal, ParseHeader(wal).header, HeaderSalts(wal), SaltsOf(last))))
  }

  /** The decision, case by case. The file ends in front of the end captured: everything anew, unless that end
      had been the end of the file, then the log from its start. At the end captured: on from there. Behind it:
      on from there, if the last frame is the one captured and the header still has its salts; from the start, if
      only the salts are new, and anew if a third generation is found in between; anew, if the last frame is
      another. Of a log of at most one frame only the salts are compared. */
  lemma PositionIs(last: Captured, pageSize: nat, wal: Bytes, atEnd: bool)
    ensures var end := last.walOffset + last.walSize;
            var r := Position(last, pageSize, wal, atEnd);
            && (|wal| < end && !atEnd ==> r == Some(SyncInfo(end, last.salt1, last.salt2, true)))
            && (|wal| < end && atEnd ==> r == if |wal| < 32 then None else Some(SyncInfo(32, BigEndian(wal, 16), BigEndian(wal, 20), false)))
            && (|wal| == end ==> r == Some(SyncInfo(end, last.salt1, last.salt2, false)))
            && (|wal| > end && |wal| < 32 ==> r == None)
            && (|wal| > end && |wal| >= 32 ==>
                  var known := BigEndian(wal, 16) == last.salt1 && BigEndian(wal, 20) == last.salt2;
                  && (end == 32 || end == 32 + 24 + pageSize ==> r == Some(SyncInfo(end, last.salt1, last.salt2, !known)))
                  && (end != 32 && end < 32 + 24 + pageSize ==> r == None)
                  && (end > 32 + 24 + pageSize ==>
                        var at := end - (24 + pageSize);
                        var pgno := BigEndian(wal, at);
                        var found := && BigEndian(wal, at + 8) == last.salt1 && BigEndian(wal, at + 12) == last.salt2
                                     && pgno in last.changes.pages && last.changes.pages[pgno] == PageOf(wal[at + 24..end]);
                        && (!found ==> r == Some(SyncInfo(end, last.salt1, last.salt2, true)))
                        && (found && known ==> r == Some(SyncInfo(end, last.salt1, last.salt2, false)))
                        && (found && !known ==> (r.None? <==> !ParseHeader(wal).HeaderOk?))
                        && (found && !known && r.Some? ==>
                              && r.value.offset == 32 && r.value.salt1 == BigEndian(wal, 16) && r.value.salt2 == BigEndian(wal, 20)
                              && (r.value.snapshotting <==> ThirdGeneration(wal, ParseHeader(wal).header.pageSize, last.salt1, last.salt2)))))
  {
    if |wal| >= 32 && ParseHeader(wal).HeaderOk? {
      ThirdIsOther(wal, ParseHeader(wal).header, SaltsOf(last));
    }
  }

  /** In front of the first frame with the salts given is one with neither these nor those of the header. */
  ghost predicate ThirdGeneration(wal: Bytes, pageSize: nat, salt1: nat, salt2: nat)
    requires |wal| >= 32
  {
    exists i: nat :: ThirdAt(wal, pageSize, salt1, salt2, i)
  }

  ghost predicate ThirdAt(wal: Bytes, pageSize: nat, salt1: nat, salt2: nat, i: nat)
    requires |wal| >= 32
  {
    && FrameHas(wal, pageSize, i) && !FrameSalts(wal, pageSize, i, salt1, salt2) && !FrameSalts(wal, pageSize, i, BigEndian(wal, 16), BigEndian(wal, 20))
    && forall j: nat :: j < i && FrameHas(wal, pageSize, j) ==> !FrameSalts(wal, pageSize, j, salt1, salt2)
  }

  /** The header of frame i is in the file, and has these salts. */
  ghost predicate FrameHas(wal: Bytes, pageSize: nat, i: nat) {
    32 + i * (pageSize + 24) + 24 <= |wal|
  }

  ghost predicate FrameSalts(wal: Bytes, pageSize: nat, i: nat, salt1: nat, salt2: nat)
    requires FrameHas(wal, pageSize, i)
  {
    var off := 32 + i * (pageSize + 24);
    BigEndian(wal, off + 8) == salt1 && BigEndian(wal, off + 12) == salt2
  }

  lemma CarriesIs(wal: Bytes, h: Header, i: nat, s: Salts)
    ensures CarriesSalts(wal, h, i, s) <==> FrameHas(wal, h.pageSize, i) && FrameSalts(wal, h.pageSize, i, s.salt1, s.salt2)
  {
    FrameOffsetLinear(h, i);
  }

  lemma NoneBefore(wal: Bytes, h: Header, last: Salts, i: nat)
    ensures (forall j: nat :: j < i ==> !CarriesSalts(wal, h, j, last)) <==>
            forall j: nat :: j < i && FrameHas(wal, h.pageSize, j) ==> !FrameSalts(wal, h.pageSize, j, last.salt1, last.salt2)
  {
    forall j: nat
      ensures CarriesSalts(wal, h, j, last) <==> FrameHas(wal, h.pageSize, j) && FrameSalts(wal, h.pageSize, j, last.salt1, last.salt2)
    {
      CarriesIs(wal, h, j, last);
    }
  }

  lemma ThirdAtIsSeen(wal: Bytes, h: Header, last: Salts, i: nat, s: Salts)
    requires |wal| >= 32 && CarriesSalts(wal, h, i, s)
    ensures ThirdAt(wal, h.pageSize, last.salt1, last.salt2, i) <==> SeenAt(wal, h, last, i, s) && s != HeaderSalts(wal) && s != last
  {
    CarriesIs(wal, h, i, s);
    NoneBefore(wal, h, last, i);
  }

  lemma ThirdIsOther(wal: Bytes, h: Header, last: Salts)
    requires |wal| >= 32
    ensures OtherSalts(wal, h, HeaderSalts(wal), last) <==> ThirdGeneration(wal, h.pageSize, last.salt1, last.salt2)
  {
    if i: nat :| ThirdAt(wal, h.pageSize, last.salt1, last.salt2, i) {
      FrameOffsetLinear(h, i);
      var off := FrameOffset(h, i);
      var s := Salts(BigEndian(wal, off + 8), BigEndian(wal, off + 12));
      ThirdAtIsSeen(wal, h, last, i, s);
      assert Seen(wal, h, last, s);
    }
    if s :| s != HeaderSalts(wal) && s != last && Seen(wal, h, last, s) {
      var i: nat :| SeenAt(wal, h, last, i, s);
      ThirdAtIsSeen(wal, h, last, i, s);
    }
  }

  /** Behind the last file, with its salts. */
  function ReadOn(last: Captured, snapshotting: bool): SyncInfo {
    SyncInfo(last.End(), last.salt1, last.salt2, snapshotting)
  }

  /** From the header, with the salts found there. */
  function StartOver(wal: Bytes, snapshotting: bool): SyncInfo
    requires WAL_HEADER_SIZE <= |wal|
  {
    SyncInfo(WAL_HEADER_SIZE, HeaderSalts(wal).salt1, HeaderSalts(wal).salt2, snapshotting)
  }
}
