/** Writing a log as section 4.1 of the SQLite Database File Format document lays it down, and the round
    trip: the reader finds exactly the frames that were written. */
module WalWriter {
  import opened Ltx
  import opened Wal
  import opened WalReader

  // ---------------------------------------------------------------------------------------
  // Words

  type Word32 = x: nat | x < TWO_32

  function WordBytes(w: Word32): (r: Bytes)
    ensures |r| == 4
  {
    var a := w / 0x100;
    var b := a / 0x100;
    [b / 0x100, b % 0x100, a % 0x100, w % 0x100]
  }

  function Quad(a: int, b: int, c: int, d: int): int {
    ((a * 0x100 + b) * 0x100 + c) * 0x100 + d
  }

  lemma NumberOfFour(b: Bytes)
    requires |b| == 4
    ensures Number(b) == Quad(b[0], b[1], b[2], b[3])
  {
    assert b[..3] == [b[0], b[1], b[2]] && b[..3][..2] == [b[0], b[1]] && b[..3][..2][..1] == [b[0]] && b[..3][..2][..1][..0] == [];
    assert Number(b[..3][..2][..1]) == b[0];
    assert Number(b[..3][..2]) == 0x100 * Number(b[..3][..2][..1]) + b[1];
    assert Number(b[..3]) == 0x100 * Number(b[..3][..2]) + b[2];
  }

  lemma WordRoundTrip(w: Word32)
    ensures Number(WordBytes(w)) == w
  {
    var a := w / 0x100;
    var b := a / 0x100;
    NumberOfFour(WordBytes(w));
    assert w == a * 0x100 + w % 0x100 && a == b * 0x100 + a % 0x100 && b == b / 0x100 * 0x100 + b % 0x100;
  }

  lemma Middle<T>(a: seq<T>, b: seq<T>, c: seq<T>, i: nat, j: nat)
    requires i == |a| && j == |a| + |b|
    ensures (a + b + c)[i..j] == b && (a + (b + c))[i..j] == b
  {
    assert a + (b + c) == a + b + c;
  }

  lemma ReadsWord(file: Bytes, a: Bytes, w: Word32, c: Bytes, i: nat)
    requires file == a + WordBytes(w) + c && i == |a|
    ensures BigEndian(file, i) == w
  {
    Middle(a, WordBytes(w), c, i, i + 4);
    WordRoundTrip(w);
  }

  /** Checksums are 32-bit words. */
  lemma {:induction false} SumsFit(little: bool, s: Sums, b: Bytes)
    requires |b| >= 8 || (s.s0 < TWO_32 && s.s1 < TWO_32)
    ensures Checksum(little, s, b).s0 < TWO_32 && Checksum(little, s, b).s1 < TWO_32
    decreases |b|
  {
    if |b| >= 8 {
      SumsFit(little, AddPair(s, Word(little, b, 0), Word(little, b, 4)), b[8..]);
    }
  }

  // ---------------------------------------------------------------------------------------
  // Header and frames

  function Head24(little: bool, pageSize: Word32, number: Word32, salt1: Word32, salt2: Word32): (r: Bytes)
    ensures |r| == 24
  {
    WordBytes(if little then MAGIC_LITTLE else MAGIC_BIG) + WordBytes(WAL_VERSION) + WordBytes(pageSize) + WordBytes(number)
    + WordBytes(salt1) + WordBytes(salt2)
  }

  function SumsBytes(s: Sums): (r: Bytes)
    requires s.s0 < TWO_32 && s.s1 < TWO_32
    ensures |r| == 8
  {
    WordBytes(s.s0) + WordBytes(s.s1)
  }

  ghost predicate Writable(h: Header) {
    && Usable(h) && h.pageSize < TWO_32 && h.salt1 < TWO_32 && h.salt2 < TWO_32
    && h.sums.s0 < TWO_32 && h.sums.s1 < TWO_32
  }

  predicate FrameFits(h: Header, f: Frame) {
    f.pgno < TWO_32 && f.commit < TWO_32 && |f.data| == h.pageSize
  }

  function FrameHead(f: Frame): (r: Bytes)
    requires f.pgno < TWO_32 && f.commit < TWO_32
    ensures |r| == 8
  {
    WordBytes(f.pgno) + WordBytes(f.commit)
  }

  function NextSums(h: Header, sums: Sums, f: Frame): (r: Sums)
    requires FrameFits(h, f)
    ensures r.s0 < TWO_32 && r.s1 < TWO_32
  {
    SumsFit(h.little, sums, FrameHead(f) + f.data);
    Checksum(h.little, sums, FrameHead(f) + f.data)
  }

  /** One frame: page number, commit size, salts, checksum over everything before, page. */
  function FrameBytes(h: Header, sums: Sums, f: Frame): (r: Bytes)
    requires FrameFits(h, f) && h.salt1 < TWO_32 && h.salt2 < TWO_32
    ensures |r| == FrameSize(h)
  {
    FrameHead(f) + (WordBytes(h.salt1) + WordBytes(h.salt2)) + SumsBytes(NextSums(h, sums, f)) + f.data
  }

  predicate FramesFit(h: Header, frames: seq<Frame>) {
    forall i :: 0 <= i < |frames| ==> FrameFits(h, frames[i])
  }

  function FramesBytes(h: Header, sums: Sums, frames: seq<Frame>): Bytes
    requires FramesFit(h, frames) && h.salt1 < TWO_32 && h.salt2 < TWO_32
    decreases |frames|
  {
    if |frames| == 0 then []
    else FrameBytes(h, sums, frames[0]) + FramesBytes(h, NextSums(h, sums, frames[0]), frames[1..])
  }

  /** A whole log, with the header whose checksum is right. */
  function LogHeader(little: bool, pageSize: Word32, number: Word32, salt1: Word32, salt2: Word32): Header {
    Header(little, pageSize, salt1, salt2, Checksum(little, Sums(0, 0), Head24(little, pageSize, number, salt1, salt2)))
  }

  lemma LogHeaderFits(little: bool, pageSize: Word32, number: Word32, salt1: Word32, salt2: Word32)
    requires pageSize % 8 == 0
    ensures Writable(LogHeader(little, pageSize, number, salt1, salt2))
  {
    SumsFit(little, Sums(0, 0), Head24(little, pageSize, number, salt1, salt2));
  }

  ghost function LogBytes(little: bool, pageSize: Word32, number: Word32, salt1: Word32, salt2: Word32, frames: seq<Frame>): Bytes
    requires pageSize % 8 == 0 && FramesFit(LogHeader(little, pageSize, number, salt1, salt2), frames)
  {
    var h := LogHeader(little, pageSize, number, salt1, salt2);
    LogHeaderFits(little, pageSize, number, salt1, salt2);
    Head24(little, pageSize, number, salt1, salt2) + SumsBytes(h.sums) + FramesBytes(h, h.sums, frames)
  }

  // ---------------------------------------------------------------------------------------
  // Reading it back

  lemma ReadsHeader(file: Bytes, little: bool, pageSize: Word32, number: Word32, salt1: Word32, salt2: Word32, rest: Bytes)
    requires pageSize % 8 == 0
    requires var h := LogHeader(little, pageSize, number, salt1, salt2);
             h.sums.s0 < TWO_32 && h.sums.s1 < TWO_32 && file == Head24(little, pageSize, number, salt1, salt2) + SumsBytes(h.sums) + rest
    ensures ParseHeader(file) == HeaderOk(LogHeader(little, pageSize, number, salt1, salt2))
  {
    var h, head := LogHeader(little, pageSize, number, salt1, salt2), Head24(little, pageSize, number, salt1, salt2);
    assert file[..24] == head;
    HeadWords(file, little, pageSize, number, salt1, salt2, SumsBytes(h.sums) + rest);
    assert file == head + WordBytes(h.sums.s0) + (WordBytes(h.sums.s1) + rest);
    ReadsWord(file, head, h.sums.s0, WordBytes(h.sums.s1) + rest, 24);
    assert file == (head + WordBytes(h.sums.s0)) + WordBytes(h.sums.s1) + rest;
    ReadsWord(file, head + WordBytes(h.sums.s0), h.sums.s1, rest, 28);
  }

  lemma HeadWords(file: Bytes, little: bool, pageSize: Word32, number: Word32, salt1: Word32, salt2: Word32, rest: Bytes)
    requires file == Head24(little, pageSize, number, salt1, salt2) + rest
    ensures BigEndian(file, 0) == (if little then MAGIC_LITTLE else MAGIC_BIG) && BigEndian(file, 4) == WAL_VERSION
    ensures BigEndian(file, 8) == pageSize && BigEndian(file, 16) == salt1 && BigEndian(file, 20) == salt2
  {
    var m, v, p, n, s, t := WordBytes(if little then MAGIC_LITTLE else MAGIC_BIG), WordBytes(WAL_VERSION), WordBytes(pageSize),
      WordBytes(number), WordBytes(salt1), WordBytes(salt2);
    assert file == m + v + p + n + s + t + rest;
    assert file[0..4] == m && file[4..8] == v && file[8..12] == p && file[16..20] == s && file[20..24] == t;
    WordRoundTrip(if little then MAGIC_LITTLE else MAGIC_BIG);
    WordRoundTrip(WAL_VERSION);
    WordRoundTrip(pageSize);
    WordRoundTrip(salt1);
    WordRoundTrip(salt2);
  }

  /** The frame behind a prefix that ends where frame n starts is accepted as frame n. */
  lemma ReadsFrame(file: Bytes, h: Header, n: nat, off: nat, p: Bytes, sums: Sums, f: Frame, rest: Bytes)
    requires Writable(h) && FrameFits(h, f) && off == |p| == FrameOffset(h, n)
    requires file == p + FrameBytes(h, sums, f) + rest
    ensures Accepts(file, h, n, h.salt1, h.salt2, Some(sums)) && FrameAt(file, h, n) == f && StoredSums(file, h, n) == NextSums(h, sums, f)
  {
    var s := NextSums(h, sums, f);
    var a, b, c, d, e, g := WordBytes(f.pgno), WordBytes(f.commit), WordBytes(h.salt1), WordBytes(h.salt2), WordBytes(s.s0), WordBytes(s.s1);
    FrameParts(file, p, a, b, c, d, e, g, f.data, rest, off);
    ReadsWords(file, f.pgno, f.commit, h.salt1, h.salt2, s.s0, s.s1, off);
    FrameOf(file, h, n, off, f, a + b, s);
  }

  lemma ReadsWords(file: Bytes, a: Word32, b: Word32, c: Word32, d: Word32, e: Word32, g: Word32, off: nat)
    requires off + 24 <= |file|
    requires file[off..off + 4] == WordBytes(a) && file[off + 4..off + 8] == WordBytes(b)
    requires file[off + 8..off + 12] == WordBytes(c) && file[off + 12..off + 16] == WordBytes(d)
    requires file[off + 16..off + 20] == WordBytes(e) && file[off + 20..off + 24] == WordBytes(g)
    ensures BigEndian(file, off) == a && BigEndian(file, off + 4) == b && BigEndian(file, off + 8) == c && BigEndian(file, off + 12) == d
    ensures BigEndian(file, off + 16) == e && BigEndian(file, off + 20) == g
  {
    WordRoundTrip(a);
    WordRoundTrip(b);
    WordRoundTrip(c);
    WordRoundTrip(d);
    WordRoundTrip(e);
    WordRoundTrip(g);
  }

  lemma FrameOf(file: Bytes, h: Header, n: nat, off: nat, f: Frame, head: Bytes, s: Sums)
    requires off == FrameOffset(h, n) && off + FrameSize(h) <= |file| && file[off..off + 8] == head && FrameFits(h, f)
    requires file[off + WAL_FRAME_HEADER_SIZE..off + FrameSize(h)] == f.data
    requires BigEndian(file, off) == f.pgno && BigEndian(file, off + 4) == f.commit
    requires BigEndian(file, off + 8) == h.salt1 && BigEndian(file, off + 12) == h.salt2
    requires BigEndian(file, off + 16) == s.s0 && BigEndian(file, off + 20) == s.s1
    ensures Complete(file, h, n) && FrameAt(file, h, n) == f && Salted(file, h, n, h.salt1, h.salt2)
    ensures StoredSums(file, h, n) == s && FrameChecked(file, h, n) == head + f.data
  {
  }

  lemma FrameParts(file: Bytes, p: Bytes, a: Bytes, b: Bytes, c: Bytes, d: Bytes, e: Bytes, g: Bytes, data: Bytes, rest: Bytes, off: nat)
    requires |a| == |b| == |c| == |d| == |e| == |g| == 4 && off == |p|
    requires file == p + ((a + b) + (c + d) + (e + g) + data) + rest
    ensures off + 24 + |data| <= |file|
    ensures file[off..off + 4] == a && file[off + 4..off + 8] == b && file[off..off + 8] == a + b
    ensures file[off + 8..off + 12] == c && file[off + 12..off + 16] == d
    ensures file[off + 16..off + 20] == e && file[off + 20..off + 24] == g
    ensures file[off + 24..off + 24 + |data|] == data
  {
  }

  /** Behind p, which ends where frame n starts, these frames are written, and then `rest`. */
  ghost predicate WrittenAt(file: Bytes, h: Header, n: nat, p: Bytes, sums: Sums, frames: seq<Frame>, rest: Bytes) {
    && Writable(h) && FramesFit(h, frames) && |p| == FrameOffset(h, n)
    && file == p + FramesBytes(h, sums, frames) + rest
  }

  lemma WrittenNext(file: Bytes, h: Header, n: nat, n': nat, p: Bytes, sums: Sums, next: Sums, frames: seq<Frame>, rest: Bytes)
    requires WrittenAt(file, h, n, p, sums, frames, rest) && frames != [] && n' == n + 1 && next == NextSums(h, sums, frames[0])
    ensures Accepts(file, h, n, h.salt1, h.salt2, Some(sums)) && FrameAt(file, h, n) == frames[0] && StoredSums(file, h, n) == next
    ensures WrittenAt(file, h, n', p + FrameBytes(h, sums, frames[0]), next, frames[1..], rest)
  {
    var more := FramesBytes(h, next, frames[1..]);
    Regroup(file, p, FrameBytes(h, sums, frames[0]), more, rest);
    ReadsFrame(file, h, n, |p|, p, sums, frames[0], more + rest);
  }

  /** Reading from frame n on yields the frames written from there on, if what follows is no frame of this
      log. */
  lemma {:induction false} ReadsFrames(file: Bytes, h: Header, n: nat, p: Bytes, sums: Sums, frames: seq<Frame>, rest: Bytes, end: nat)
    requires WrittenAt(file, h, n, p, sums, frames, rest) && end == n + |frames|
    requires !Accepts(file, h, end, h.salt1, h.salt2, None)
    ensures Chain(file, h, n, h.salt1, h.salt2, sums) == frames
    decreases |frames|
  {
    if |frames| == 0 {
      ChainStep(file, h, n, h.salt1, h.salt2, sums);
    } else {
      var next, n' := NextSums(h, sums, frames[0]), n + 1;
      WrittenNext(file, h, n, n', p, sums, next, frames, rest);
      ReadsFrames(file, h, n', p + FrameBytes(h, sums, frames[0]), next, frames[1..], rest, end);
      ReadsFirst(file, h, n, n', sums, next, frames);
    }
  }

  lemma Regroup(file: Bytes, p: Bytes, first: Bytes, more: Bytes, rest: Bytes)
    requires file == p + (first + more) + rest
    ensures file == p + first + (more + rest) && file == (p + first) + more + rest
  {
  }

  lemma ReadsFirst(file: Bytes, h: Header, n: nat, n': nat, sums: Sums, next: Sums, frames: seq<Frame>)
    requires n' == n + 1 && frames != [] && Accepts(file, h, n, h.salt1, h.salt2, Some(sums)) && FrameAt(file, h, n) == frames[0]
    requires StoredSums(file, h, n) == next && Chain(file, h, n', h.salt1, h.salt2, next) == frames[1..]
    ensures Chain(file, h, n, h.salt1, h.salt2, sums) == frames
  {
    assert frames == [frames[0]] + frames[1..];
  }

  /** Whatever is written as the format says is read back, the header and exactly the frames; also in front of
      bytes that are no frame of this log. */
  lemma LogRoundTrip(little: bool, pageSize: Word32, number: Word32, salt1: Word32, salt2: Word32, frames: seq<Frame>,
                     rest: Bytes)
    requires pageSize % 8 == 0 && FramesFit(LogHeader(little, pageSize, number, salt1, salt2), frames)
    ensures var h := LogHeader(little, pageSize, number, salt1, salt2);
            var file := LogBytes(little, pageSize, number, salt1, salt2, frames) + rest;
            && ParseHeader(file) == HeaderOk(h)
            && (!Accepts(file, h, |frames|, salt1, salt2, None) ==> LogFrames(file, h) == frames)
  {
    var h, file := LogHeader(little, pageSize, number, salt1, salt2), LogBytes(little, pageSize, number, salt1, salt2, frames) + rest;
    LogHeaderFits(little, pageSize, number, salt1, salt2);
    var p := Head24(little, pageSize, number, salt1, salt2) + SumsBytes(h.sums);
    assert file == p + (FramesBytes(h, h.sums, frames) + rest);
    ReadsHeader(file, little, pageSize, number, salt1, salt2, FramesBytes(h, h.sums, frames) + rest);
    if !Accepts(file, h, |frames|, salt1, salt2, None) {
      ReadsFrames(file, h, 0, p, h.sums, frames, rest, |frames|);
    }
  }

  /** A log that ends with its last frame is read back completely. */
  lemma WholeLogRoundTrip(little: bool, pageSize: Word32, number: Word32, salt1: Word32, salt2: Word32, frames: seq<Frame>)
    requires pageSize % 8 == 0 && FramesFit(LogHeader(little, pageSize, number, salt1, salt2), frames)
    ensures var h := LogHeader(little, pageSize, number, salt1, salt2);
            var file := LogBytes(little, pageSize, number, salt1, salt2, frames);
            ParseHeader(file) == HeaderOk(h) && LogFrames(file, h) == frames && |file| == FrameOffset(h, |frames|)
  {
    LogLength(little, pageSize, number, salt1, salt2, frames);
    LogRoundTrip(little, pageSize, number, salt1, salt2, frames, []);
    assert LogBytes(little, pageSize, number, salt1, salt2, frames) + [] == LogBytes(little, pageSize, number, salt1, salt2, frames);
  }

  lemma {:induction false} FramesLength(h: Header, sums: Sums, frames: seq<Frame>, at: nat, end: nat)
    requires FramesFit(h, frames) && h.salt1 < TWO_32 && h.salt2 < TWO_32 && end == at + |frames|
    ensures FrameOffset(h, at) + |FramesBytes(h, sums, frames)| == FrameOffset(h, end)
    decreases |frames|
  {
    if |frames| > 0 {
      FramesLength(h, NextSums(h, sums, frames[0]), frames[1..], at + 1, end);
    }
  }

  /** The log ends with its last frame. */
  lemma LogLength(little: bool, pageSize: Word32, number: Word32, salt1: Word32, salt2: Word32, frames: seq<Frame>)
    requires pageSize % 8 == 0 && FramesFit(LogHeader(little, pageSize, number, salt1, salt2), frames)
    ensures |LogBytes(little, pageSize, number, salt1, salt2, frames)| == FrameOffset(LogHeader(little, pageSize, number, salt1, salt2), |frames|)
  {
    var h := LogHeader(little, pageSize, number, salt1, salt2);
    LogHeaderFits(little, pageSize, number, salt1, salt2);
    FramesLength(h, h.sums, frames, 0, |frames|);
  }
}
