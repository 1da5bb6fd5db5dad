/** The log reader: frame by frame, from the header or from a saved offset, and the page map it
    builds (section 4.4 of the SQLite Database File Format document). */
module WalReader {
  import opened Ltx
  import opened Wal
  import opened WalIndex

  // ---------------------------------------------------------------------------------------
  // The valid frames of a file

  lemma ChainStep(file: Bytes, h: Header, n: nat, salt1: nat, salt2: nat, sums: Sums)
    ensures var frames := Chain(file, h, n, salt1, salt2, sums);
            if Accepts(file, h, n, salt1, salt2, Some(sums)) then
              && frames != [] && frames[0] == FrameAt(file, h, n)
              && frames[1..] == Chain(file, h, n + 1, salt1, salt2, StoredSums(file, h, n))
            else frames == []
  {
  }

  /** Behind frame `at`, with the checksum stored in it, the chain continues with all but the first k
      of these frames. */
  ghost predicate ContinuesBehind(file: Bytes, h: Header, at: nat, salt1: nat, salt2: nat, frames: seq<Frame>, k: nat) {
    && k <= |frames| && Accepts(file, h, at, salt1, salt2, None)
    && Chain(file, h, at + 1, salt1, salt2, StoredSums(file, h, at)) == frames[k..]
  }

  lemma ContinueOne(file: Bytes, h: Header, before: nat, at: nat, salt1: nat, salt2: nat, frames: seq<Frame>, k: nat, k': nat)
    requires ContinuesBehind(file, h, before, salt1, salt2, frames, k) && at == before + 1 && k' == k + 1 && k < |frames|
    ensures ContinuesBehind(file, h, at, salt1, salt2, frames, k') && frames[k] == FrameAt(file, h, at)
  {
  }

  lemma ChainFirst(file: Bytes, h: Header, n: nat, salt1: nat, salt2: nat, sums: Sums, frames: seq<Frame>)
    requires frames == Chain(file, h, n, salt1, salt2, sums) && frames != []
    ensures ContinuesBehind(file, h, n, salt1, salt2, frames, 1) && frames[0] == FrameAt(file, h, n)
  {
  }

  /** Reading on behind the k-th frame of a chain, with the checksum stored in that frame, yields what
      is left of the chain. */
  lemma {:induction false} ChainSuffix(file: Bytes, h: Header, n: nat, salt1: nat, salt2: nat, sums: Sums,
                                       frames: seq<Frame>, k: nat, at: nat)
    requires frames == Chain(file, h, n, salt1, salt2, sums) && 1 <= k <= |frames| && at == n + k - 1
    ensures ContinuesBehind(file, h, at, salt1, salt2, frames, k) && frames[k - 1] == FrameAt(file, h, at)
    decreases k
  {
    if k == 1 {
      ChainFirst(file, h, n, salt1, salt2, sums, frames);
    } else {
      var before, j := at - 1, k - 1;
      ChainSuffix(file, h, n, salt1, salt2, sums, frames, j, before);
      ContinueOne(file, h, before, at, salt1, salt2, frames, j, k);
    }
  }

  lemma HeaderSums(file: Bytes, h: Header)
    requires ParseHeader(file) == HeaderOk(h)
    ensures |file| >= FrameOffset(h, 0) && h.sums == RunningSums(file, h, 0)
  {
  }

  /** Frame n follows on the checksum of everything in front of it, as do the frames after it. */
  ghost predicate ValidFrom(file: Bytes, h: Header, frames: seq<Frame>, n: nat) {
    && n <= |frames| && FrameOffset(h, n) <= |file|
    && Chain(file, h, n, h.salt1, h.salt2, RunningSums(file, h, n)) == frames[n..]
  }

  lemma ValidNext(file: Bytes, h: Header, frames: seq<Frame>, n: nat, n': nat)
    requires ValidFrom(file, h, frames, n) && n' == n + 1
    ensures ValidFrame(file, h, n) <==> n < |frames|
    ensures n < |frames| ==> ValidFrom(file, h, frames, n') && frames[n] == FrameAt(file, h, n)
  {
  }

  lemma {:induction false} LogFramesFrom(file: Bytes, h: Header, frames: seq<Frame>, n: nat)
    requires ParseHeader(file) == HeaderOk(h) && frames == LogFrames(file, h) && n <= |frames|
    ensures ValidFrom(file, h, frames, n)
    decreases n
  {
    if n == 0 {
      HeaderSums(file, h);
    } else {
      LogFramesFrom(file, h, frames, n - 1);
      ValidNext(file, h, frames, n - 1, n);
    }
  }

  /** The frames read from the header are exactly the valid frames in front of the first invalid
      one. */
  lemma LogFramesAreValid(file: Bytes, h: Header, n: nat)
    requires ParseHeader(file) == HeaderOk(h) && n <= |LogFrames(file, h)|
    ensures ValidFrame(file, h, n) <==> n < |LogFrames(file, h)|
    ensures n < |LogFrames(file, h)| ==> Complete(file, h, n) && LogFrames(file, h)[n] == FrameAt(file, h, n)
  {
    LogFramesFrom(file, h, LogFrames(file, h), n);
    ValidNext(file, h, LogFrames(file, h), n, n + 1);
  }

  /** The offsets of n frames from frame `start` on. */
  ghost function Offsets(h: Header, start: nat, n: nat): (r: seq<nat>)
    ensures |r| == n
  {
    if n == 0 then [] else Offsets(h, start, n - 1) + [FrameOffset(h, start + n - 1)]
  }

  lemma {:induction false} OffsetsAt(h: Header, start: nat, n: nat, i: nat, at: nat)
    requires i < n && at == start + i
    ensures Offsets(h, start, n)[i] == FrameOffset(h, at)
  {
    if i < n - 1 {
      OffsetsAt(h, start, n - 1, i, at);
    }
  }

  lemma OffsetsIncrease(h: Header, start: nat, n: nat)
    ensures Increasing(Offsets(h, start, n))
  {
    var offsets := Offsets(h, start, n);
    forall i, j | 0 <= i < j < n
      ensures offsets[i] < offsets[j]
    {
      OffsetsAt(h, start, n, i, start + i);
      OffsetsAt(h, start, n, j, start + j);
      FrameOffsetGrows(h, start + i, start + j);
    }
  }

  // ---------------------------------------------------------------------------------------
  // The reader

  method ReadHeader(file: Bytes) returns (r: HeaderResult)
    ensures r == ParseHeader(file)
  {
    if |file| < WAL_HEADER_SIZE {
      return HeaderEof;
    }
    var little;
    var magic := BigEndian(file, 0);
    if magic == MAGIC_LITTLE {
      little := true;
    } else if magic == MAGIC_BIG {
      little := false;
    } else {
      return HeaderInvalid;
    }
    var sums := Sums(BigEndian(file, 24), BigEndian(file, 28));
    var v := WALChecksum(little, Sums(0, 0), file[..24]);
    if v != sums {
      return HeaderEof;
    }
    if BigEndian(file, 4) != WAL_VERSION {
      return HeaderInvalid;
    }
    return HeaderOk(Header(little, BigEndian(file, 8), BigEndian(file, 16), BigEndian(file, 20), sums));
  }

  /** The checksum over two pieces, one after the other. */
  method SumsOfBoth(little: bool, s: Sums, head: Bytes, data: Bytes) returns (r: Sums)
    requires |head| == 8 && |data| % 8 == 0
    ensures r == Checksum(little, s, head + data)
  {
    var t := WALChecksum(little, s, head);
    r := WALChecksum(little, t, data);
    ChecksumSplits(little, s, head, data, 1);
  }

  /** The checksum over the two parts of frame n that are covered by it. */
  method FrameSums(file: Bytes, h: Header, n: nat, s: Sums) returns (r: Sums)
    requires Complete(file, h, n) && Usable(h)
    ensures r == Checksum(h.little, s, FrameChecked(file, h, n))
  {
    var off := FrameOffset(h, n);
    var data := file[off + WAL_FRAME_HEADER_SIZE..off + FrameSize(h)];
    assert |data| == h.pageSize;
    r := SumsOfBoth(h.little, s, file[off..off + 8], data);
  }

  /** Whether the header and the page of frame n can be read, and the salts are these. */
  method FramePresent(file: Bytes, h: Header, n: nat, salt1: nat, salt2: nat) returns (present: bool)
    ensures present <==> Complete(file, h, n) && Salted(file, h, n, salt1, salt2)
  {
    var offset := FrameOffset(h, n);
    if |file| < offset + WAL_FRAME_HEADER_SIZE {
      return false;
    }
    if |file| < offset + WAL_FRAME_HEADER_SIZE + h.pageSize {
      return false;
    }
    present := BigEndian(file, offset + 8) == salt1 && BigEndian(file, offset + 12) == salt2;
  }

  lemma TakeFirst<T>(s: seq<T>, n: nat, x: T, rest: seq<T>)
    requires n <= |s| && s[n..] == [x] + rest
    ensures n < |s| && s[n] == x && s[n + 1..] == rest
  {
  }

  class Reader {
    const file: Bytes
    const h: Header
    var frameN: nat
    var salt1: nat
    var salt2: nat
    var sums: Sums

    constructor (file: Bytes, h: Header)
      ensures this.file == file && this.h == h && frameN == 0 && Rest() == LogFrames(file, h)
      ensures salt1 == h.salt1 && salt2 == h.salt2
    {
      this.file := file;
      this.h := h;
      frameN := 0;
      salt1, salt2 := h.salt1, h.salt2;
      sums := h.sums;
    }

    /** A reader that is about to read frame n and looks for other salts than those of the header. */
    constructor At(file: Bytes, h: Header, n: nat, salt1: nat, salt2: nat)
      ensures this.file == file && this.h == h && frameN == n && this.salt1 == salt1 && this.salt2 == salt2
    {
      this.file := file;
      this.h := h;
      frameN := n;
      this.salt1, this.salt2 := salt1, salt2;
      sums := h.sums;
    }

    /** The frames this reader is still to return. */
    ghost function Rest(): seq<Frame>
      reads this
    {
      Chain(file, h, frameN, salt1, salt2, sums)
    }

    /** The offset of the last frame read, 0 if none was. */
    function Offset(): nat
      reads this`frameN
    {
      if frameN == 0 then 0 else FrameOffset(h, frameN - 1)
    }

    /** Without checksum verification the stored checksum of the frame is taken over. */
    method ReadFrame(verifyChecksum: bool) returns (r: Option<Frame>)
      requires Usable(h)
      modifies this`frameN, this`sums
      ensures r.Some? <==> Accepts(file, h, old(frameN), salt1, salt2, if verifyChecksum then Some(old(sums)) else None)
      ensures r.Some? ==> r.value == FrameAt(file, h, old(frameN)) && sums == StoredSums(file, h, old(frameN))
      ensures frameN == old(frameN) + if r.Some? then 1 else 0
      ensures r.Some? ==> Offset() == FrameOffset(h, old(frameN))
    {
      var n := frameN;
      var present := FramePresent(file, h, n, salt1, salt2);
      if !present {
        return None;
      }
      var stored := StoredSums(file, h, n);
      if verifyChecksum {
        sums := FrameSums(file, h, n, sums);
        if sums != stored {
          return None;
        }
      } else {
        sums := stored;
      }
      r := Some(FrameAt(file, h, n));
      frameN := n + 1;
    }

    /** Returns the next frame of the chain, and nothing at its end. */
    method NextFrame() returns (r: Option<Frame>)
      requires Usable(h)
      modifies this`frameN, this`sums
      ensures r.None? ==> old(Rest()) == []
      ensures r.Some? ==> old(Rest()) == [r.value] + Rest()
      ensures r.Some? ==> frameN == old(frameN) + 1 && Offset() == FrameOffset(h, old(frameN))
    {
      ChainStep(file, h, frameN, salt1, salt2, sums);
      r := ReadFrame(true);
    }

    /** Reads all frames of the chain. The transaction map is never cleared. */
    method ReadTransactions() returns (m: map<nat, nat>, commit: nat)
      requires Usable(h)
      modifies this`frameN, this`sums
      ensures var frames := old(Rest());
              && Indexes(m, frames, Offsets(h, old(frameN), |frames|), LastCommit(frames, |frames|))
              && commit == CommitSize(frames, |frames|)
    {
      m := map[];
      commit := 0;
      var txMap: map<nat, nat> := map[];
      ghost var start := frameN;
      ghost var frames := Rest();
      ghost var offsets := Offsets(h, start, |frames|);
      ghost var n: nat := 0;
      while true
        invariant frameN == start + n && n <= |frames| && frames[n..] == Rest()
        invariant Indexes(txMap, frames, offsets, n)
        invariant Indexes(m, frames, offsets, LastCommit(frames, n))
        invariant commit == CommitSize(frames, n)
        decreases |frames| - n
      {
        ghost var at := frameN;
        var r := NextFrame();
        if r.None? {
          break;
        }
        TakeFirst(frames, n, r.value, Rest());
        OffsetsAt(h, start, |frames|, n, at);
        IndexNext(txMap, frames, offsets, n);
        txMap := txMap[r.value.pgno := Offset()];
        if r.value.commit != 0 {
          IndexCommit(m, txMap, frames, offsets, LastCommit(frames, n), n + 1);
          m := m + txMap;
          commit := r.value.commit;
        }
        n := n + 1;
      }
    }

    /** The committed page versions, the end of the log they were read from and the database size. */
    method PageMap() returns (m: map<nat, nat>, maxOffset: nat, commit: nat)
      requires Usable(h)
      modifies this`frameN, this`sums
      ensures PageMapOf(old(Rest()), h, old(frameN), m, maxOffset, commit)
    {
      ghost var start := frameN;
      ghost var frames := Rest();
      var all, size := ReadTransactions();
      m, maxOffset, commit := Cut(all, size, h, start, frames);
    }
  }

  // ---------------------------------------------------------------------------------------
  // Opening at a saved offset

  datatype OpenStatus = Opened | OffsetInHeader | HeaderFailed | Unaligned | PrevFrameMismatch

  lemma DivMod(x: nat, d: nat)
    requires d > 0
    ensures x == x / d * d + x % d
  {
  }

  lemma {:induction false} NoRemainder(n: nat, q: nat, d: nat, r: nat)
    requires n * d == q * d + r && r < d
    ensures r == 0
  {
    if n > 0 && q > 0 {
      NoRemainder(n - 1, q - 1, d, r);
    } else if n > 0 {
      assert n * d == (n - 1) * d + d;
    }
  }

  /** Offsets of frames lie at multiples of the frame size behind the header. */
  lemma Alignment(h: Header, offset: nat, q: nat, r: nat, n: nat)
    requires offset >= WAL_HEADER_SIZE && q == (offset - WAL_HEADER_SIZE) / FrameSize(h) && r == (offset - WAL_HEADER_SIZE) % FrameSize(h)
    ensures r == 0 ==> FrameOffset(h, q) == offset
    ensures FrameOffset(h, n) == offset ==> r == 0
  {
    var x, d := offset - WAL_HEADER_SIZE, FrameSize(h);
    DivMod(x, d);
    FrameOffsetLinear(h, q);
    FrameOffsetLinear(h, n);
    if n * d == x {
      NoRemainder(n, q, d, r);
    }
  }

  /** No frame of the log starts at this offset. */
  ghost predicate NoFrameAt(h: Header, offset: nat) {
    forall n: nat :: FrameOffset(h, n) != offset
  }

  method FrameIndex(h: Header, offset: nat) returns (n: Option<nat>)
    requires offset > WAL_HEADER_SIZE
    ensures n.None? ==> NoFrameAt(h, offset)
    ensures n.Some? ==> n.value > 0 && FrameOffset(h, n.value) == offset
  {
    var q: nat := (offset - WAL_HEADER_SIZE) / FrameSize(h);
    var r: nat := (offset - WAL_HEADER_SIZE) % FrameSize(h);
    forall k: nat
      ensures r != 0 ==> FrameOffset(h, k) != offset
    {
      Alignment(h, offset, q, r, k);
    }
    Alignment(h, offset, q, r, 0);
    if r != 0 {
      return None;
    }
    return Some(q);
  }

  /** Opening at an offset: the offset must be the start of a frame n > 0, and frame n - 1 complete
      with the given salts. */
  ghost predicate OpenOutcome(file: Bytes, offset: nat, salt1: nat, salt2: nat, header: HeaderResult, n: nat, status: OpenStatus) {
    match status
    case OffsetInHeader => offset <= WAL_HEADER_SIZE
    case HeaderFailed => offset > WAL_HEADER_SIZE && !header.HeaderOk?
    case Unaligned => offset > WAL_HEADER_SIZE && header.HeaderOk? && NoFrameAt(header.header, offset)
    case PrevFrameMismatch =>
      && header.HeaderOk? && n > 0 && FrameOffset(header.header, n) == offset
      && !Accepts(file, header.header, n - 1, salt1, salt2, None)
    case Opened =>
      && header.HeaderOk? && n > 0 && FrameOffset(header.header, n) == offset
      && Accepts(file, header.header, n - 1, salt1, salt2, None)
  }

  /** Opens a reader at a saved offset, with the salts saved along with it. The checksum stored in
      the frame before the offset is taken on trust. */
  method OpenAt(file: Bytes, offset: nat, salt1: nat, salt2: nat) returns (r: Option<Reader>, status: OpenStatus, ghost n: nat)
    requires ParseHeader(file).HeaderOk? ==> Usable(ParseHeader(file).header)
    ensures r.Some? <==> status == Opened
    ensures OpenOutcome(file, offset, salt1, salt2, ParseHeader(file), n, status)
    ensures r.Some? ==> fresh(r.value) && r.value.file == file && HeaderOk(r.value.h) == ParseHeader(file) && r.value.frameN == n
    ensures r.Some? ==> r.value.salt1 == salt1 && r.value.salt2 == salt2 && r.value.sums == StoredSums(file, r.value.h, n - 1)
  {
    n := 0;
    if offset <= WAL_HEADER_SIZE {
      return None, OffsetInHeader, n;
    }
    var header := ReadHeader(file);
    if !header.HeaderOk? {
      return None, HeaderFailed, n;
    }
    var index := FrameIndex(header.header, offset);
    if index.None? {
      return None, Unaligned, n;
    }
    n := index.value;
    var reader := new Reader.At(file, header.header, index.value - 1, salt1, salt2);
    var prev := reader.ReadFrame(false);
    if prev.None? {
      return None, PrevFrameMismatch, n;
    }
    return Some(reader), Opened, n;
  }

  // ---------------------------------------------------------------------------------------
  // The end of a page map

  /** m is the page map of these frames, maxOffset the end of the frame it reaches to and commit the
      size of the database; an empty map has neither. */
  ghost predicate PageMapOf(frames: seq<Frame>, h: Header, start: nat, m: map<nat, nat>, maxOffset: nat, commit: nat) {
    && IsPageMap(m, frames, Offsets(h, start, |frames|))
    && commit == (if m == map[] then 0 else CommitSize(frames, |frames|))
    && (maxOffset == 0 <==> m == map[])
    && EndsWell(frames, h, start, maxOffset)
  }

  /** The end lies after the first and not after the last committed frame; it is the end of the last
      commit frame exactly if that frame writes a page inside the committed size. */
  ghost predicate EndsWell(frames: seq<Frame>, h: Header, start: nat, maxOffset: nat) {
    var c := LastCommit(frames, |frames|);
    var k := start + c;
    && (maxOffset > 0 ==> 0 < c && FrameOffset(h, start) < maxOffset <= FrameOffset(h, k))
    && (0 < c ==> (maxOffset == FrameOffset(h, k) <==> frames[c - 1].pgno <= frames[c - 1].commit))
  }

  /** Removes the pages beyond the size of the database and finds the end of the rest. */
  method Cut(all: map<nat, nat>, size: nat, h: Header, ghost start: nat, ghost frames: seq<Frame>)
    returns (m: map<nat, nat>, maxOffset: nat, commit: nat)
    requires size == CommitSize(frames, |frames|)
    requires Indexes(all, frames, Offsets(h, start, |frames|), LastCommit(frames, |frames|))
    ensures PageMapOf(frames, h, start, m, maxOffset, commit)
  {
    m := map p | p in all && p <= size :: all[p];
    CutIsPageMap(all, m, frames, Offsets(h, start, |frames|));
    NonEmptyPageMap(m, frames, Offsets(h, start, |frames|));
    if |m| == 0 {
      assert m == map[];
      return m, 0, 0;
    }
    var end := MaxOffset(m);
    maxOffset, commit := end + FrameSize(h), size;
    EndOfMap(m, end, h, start, frames);
  }

  lemma EndOfMap(m: map<nat, nat>, end: nat, h: Header, start: nat, frames: seq<Frame>)
    requires IsPageMap(m, frames, Offsets(h, start, |frames|))
    requires (exists p :: p in m && m[p] == end) && forall p :: p in m ==> m[p] <= end
    ensures EndsWell(frames, h, start, end + FrameSize(h))
  {
    OffsetsIncrease(h, start, |frames|);
    EndOfPageMap(m, end, frames, Offsets(h, start, |frames|));
    var c := LastCommit(frames, |frames|);
    OffsetsAt(h, start, |frames|, 0, start);
    OffsetsAt(h, start, |frames|, c - 1, start + c - 1);
  }

  /** The largest offset of a page map. */
  method MaxOffset(m: map<nat, nat>) returns (end: nat)
    requires m != map[]
    ensures (exists p :: p in m && m[p] == end) && forall p :: p in m ==> m[p] <= end
  {
    var pages := m.Keys;
    end := 0;
    while pages != {}
      invariant pages <= m.Keys
      invariant forall p :: p in m && p !in pages ==> m[p] <= end
      invariant pages == m.Keys || exists p :: p in m && m[p] == end
      decreases |pages|
    {
      var p :| p in pages;
      if pages == m.Keys || m[p] > end {
        end := m[p];
      }
      pages := pages - {p};
    }
  }
}
