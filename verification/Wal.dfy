/** Reading the SQLite write-ahead log: the checksum, the header and the frames (sections 4.1 and
    4.2 of the SQLite Database File Format document). */
module Wal {
  import opened Ltx

  type Byte = x: int | 0 <= x < 256
  type Bytes = seq<Byte>

  const TWO_32 := 0x1_0000_0000
  const WAL_HEADER_SIZE := 32
  const WAL_FRAME_HEADER_SIZE := 24

  /** The number whose digits in base 256 are the given bytes, the most significant first. */
  function Number(b: Bytes): nat {
    if b == [] then 0 else 0x100 * Number(b[..|b| - 1]) + b[|b| - 1]
  }

  function BigEndian(b: Bytes, i: nat): nat
    requires i + 4 <= |b|
  {
    Number(b[i..i + 4])
  }

  function LittleEndian(b: Bytes, i: nat): nat
    requires i + 4 <= |b|
  {
    Number([b[i + 3], b[i + 2], b[i + 1], b[i]])
  }

  function Word(little: bool, b: Bytes, i: nat): nat
    requires i + 4 <= |b|
  {
    if little then LittleEndian(b, i) else BigEndian(b, i)
  }

  // ---------------------------------------------------------------------------------------
  // The checksum

  /** The two 32-bit accumulators of a checksum. */
  datatype Sums = Sums(s0: nat, s1: nat)

  /** Addition of 32-bit words. */
  function Add32(x: nat, y: nat, z: nat): nat {
    (x + y + z) % TWO_32
  }

  /** Adds a pair of words to the accumulators. */
  function AddPair(s: Sums, x: nat, y: nat): Sums {
    var s0 := Add32(s.s0, x, s.s1);
    Sums(s0, Add32(s.s1, y, s0))
  }

  /** The checksum of the word pairs of b, continuing from s. */
  function Checksum(little: bool, s: Sums, b: Bytes): Sums
    decreases |b|
  {
    if |b| < 8 then s else Checksum(little, AddPair(s, Word(little, b, 0), Word(little, b, 4)), b[8..])
  }

  lemma WordOfPrefix(little: bool, a: Bytes, b: Bytes, i: nat)
    requires i + 4 <= |a|
    ensures Word(little, a + b, i) == Word(little, a, i)
  {
    assert (a + b)[i..i + 4] == a[i..i + 4];
  }

  lemma WordOfSuffix(little: bool, b: Bytes, i: nat, k: nat)
    requires i + k + 4 <= |b|
    ensures Word(little, b[i..], k) == Word(little, b, i + k)
  {
    assert b[i..][k..k + 4] == b[i + k..i + k + 4];
  }

  /** A checksum may be interrupted at any multiple of eight bytes. */
  lemma {:induction false} ChecksumSplits(little: bool, s: Sums, a: Bytes, b: Bytes, pairs: nat)
    requires |a| == 8 * pairs
    ensures Checksum(little, s, a + b) == Checksum(little, Checksum(little, s, a), b)
    decreases pairs
  {
    if pairs == 0 {
      assert a + b == b;
    } else {
      var t := AddPair(s, Word(little, a, 0), Word(little, a, 4));
      WordOfPrefix(little, a, b, 0);
      WordOfPrefix(little, a, b, 4);
      assert (a + b)[8..] == a[8..] + b;
      assert Checksum(little, s, a + b) == Checksum(little, t, a[8..] + b);
      ChecksumSplits(little, t, a[8..], b, pairs - 1);
    }
  }

  lemma ChecksumStep(little: bool, s: Sums, b: Bytes, i: nat)
    requires i + 8 <= |b|
    ensures Checksum(little, s, b[i..]) == Checksum(little, AddPair(s, Word(little, b, i), Word(little, b, i + 4)), b[i + 8..])
  {
    WordOfSuffix(little, b, i, 0);
    WordOfSuffix(little, b, i, 4);
    assert b[i..][8..] == b[i + 8..];
  }

  method WALChecksum(little: bool, s: Sums, b: Bytes) returns (r: Sums)
    requires |b| % 8 == 0
    ensures r == Checksum(little, s, b)
  {
    var s0: nat, s1: nat := s.s0, s.s1;
    var i: nat := 0;
    ghost var pairs: nat := |b| / 8;
    ghost var done: nat := 0;
    assert b[0..] == b;
    while i < |b|
      invariant |b| == 8 * pairs && i == 8 * done && done <= pairs
      invariant Checksum(little, Sums(s0, s1), b[i..]) == Checksum(little, s, b)
    {
      ChecksumStep(little, Sums(s0, s1), b, i);
      s0 := Add32(s0, Word(little, b, i), s1);
      s1 := Add32(s1, Word(little, b, i + 4), s0);
      i, done := i + 8, done + 1;
    }
    r := Sums(s0, s1);
  }

  // ---------------------------------------------------------------------------------------
  // The header

  datatype Header = Header(little: bool, pageSize: nat, salt1: nat, salt2: nat, sums: Sums)

  datatype HeaderResult = HeaderOk(header: Header) | HeaderEof | HeaderInvalid

  const MAGIC_LITTLE := 0x377f0682
  const MAGIC_BIG := 0x377f0683
  const WAL_VERSION := 3007000

  /** The header of a log: complete, with a known magic number, a correct checksum and version. */
  function ParseHeader(file: Bytes): HeaderResult {
    if |file| < WAL_HEADER_SIZE then HeaderEof
    else
      var magic := BigEndian(file, 0);
      if magic != MAGIC_LITTLE && magic != MAGIC_BIG then HeaderInvalid
      else
        var little := magic == MAGIC_LITTLE;
        var sums := Sums(BigEndian(file, 24), BigEndian(file, 28));
        if Checksum(little, Sums(0, 0), file[..24]) != sums then HeaderEof
        else if BigEndian(file, 4) != WAL_VERSION then HeaderInvalid
        else HeaderOk(Header(little, BigEndian(file, 8), BigEndian(file, 16), BigEndian(file, 20), sums))
  }

  // ---------------------------------------------------------------------------------------
  // Frames

  /** A frame: the page it writes and, on the last frame of a transaction, the database size. */
  datatype Frame = Frame(pgno: nat, commit: nat, data: Bytes)

  function FrameSize(h: Header): nat {
    h.pageSize + WAL_FRAME_HEADER_SIZE
  }

  /** Frames follow the header without gaps. */
  function FrameOffset(h: Header, i: nat): (r: nat)
    ensures r >= WAL_HEADER_SIZE
  {
    if i == 0 then WAL_HEADER_SIZE else FrameOffset(h, i - 1) + FrameSize(h)
  }

  lemma {:induction false} FrameOffsetLinear(h: Header, i: nat)
    ensures FrameOffset(h, i) == WAL_HEADER_SIZE + i * FrameSize(h)
  {
    if i > 0 {
      FrameOffsetLinear(h, i - 1);
    }
  }

  lemma {:induction false} FrameOffsetGrows(h: Header, i: nat, j: nat)
    requires i < j
    ensures FrameOffset(h, i) + FrameSize(h) <= FrameOffset(h, j)
    decreases j
  {
    if i < j - 1 {
      FrameOffsetGrows(h, i, j - 1);
    }
  }

  predicate Complete(file: Bytes, h: Header, i: nat) {
    FrameOffset(h, i) + FrameSize(h) <= |file|
  }

  function FrameAt(file: Bytes, h: Header, i: nat): Frame
    requires Complete(file, h, i)
  {
    var off := FrameOffset(h, i);
    Frame(BigEndian(file, off), BigEndian(file, off + 4), file[off + WAL_FRAME_HEADER_SIZE..off + FrameSize(h)])
  }

  predicate Salted(file: Bytes, h: Header, i: nat, salt1: nat, salt2: nat)
    requires Complete(file, h, i)
  {
    var off := FrameOffset(h, i);
    BigEndian(file, off + 8) == salt1 && BigEndian(file, off + 12) == salt2
  }

  function StoredSums(file: Bytes, h: Header, i: nat): Sums
    requires Complete(file, h, i)
  {
    var off := FrameOffset(h, i);
    Sums(BigEndian(file, off + 16), BigEndian(file, off + 20))
  }

  /** A page size for which frames can be checksummed. */
  predicate Usable(h: Header) {
    h.pageSize % 8 == 0
  }

  /** What the checksum of frame i adds to that of the frames before it. */
  function FrameChecked(file: Bytes, h: Header, i: nat): (r: Bytes)
    requires Complete(file, h, i)
    ensures |r| == 8 + h.pageSize
  {
    var off := FrameOffset(h, i);
    file[off..off + 8] + file[off + WAL_FRAME_HEADER_SIZE..off + FrameSize(h)]
  }

  /** The checksum before frame n: over the first 24 bytes of the header, then over the first eight
      bytes and the page of every frame before it. */
  function RunningSums(file: Bytes, h: Header, n: nat): Sums
    requires FrameOffset(h, n) <= |file|
  {
    if n == 0 then Checksum(h.little, Sums(0, 0), file[..24])
    else Checksum(h.little, RunningSums(file, h, n - 1), FrameChecked(file, h, n - 1))
  }

  /** Frame i is valid: its salts are those of the header, and its checksum is the one over the
      header and all frames up to and including it. */
  predicate ValidFrame(file: Bytes, h: Header, i: nat) {
    Complete(file, h, i) && Salted(file, h, i, h.salt1, h.salt2) && StoredSums(file, h, i) == RunningSums(file, h, i + 1)
  }

  /** All the bytes that the checksum before frame n covers. */
  function CheckedBytes(file: Bytes, h: Header, n: nat): Bytes
    requires FrameOffset(h, n) <= |file|
  {
    if n == 0 then file[..24] else CheckedBytes(file, h, n - 1) + FrameChecked(file, h, n - 1)
  }

  /** The running checksum is the checksum of all these bytes at once. */
  lemma {:induction false} RunningSumsOfAll(file: Bytes, h: Header, n: nat) returns (pairs: nat)
    requires Usable(h) && FrameOffset(h, n) <= |file|
    ensures |CheckedBytes(file, h, n)| == 8 * pairs
    ensures RunningSums(file, h, n) == Checksum(h.little, Sums(0, 0), CheckedBytes(file, h, n))
  {
    if n == 0 {
      pairs := 3;
    } else {
      var before := RunningSumsOfAll(file, h, n - 1);
      ChecksumSplits(h.little, Sums(0, 0), CheckedBytes(file, h, n - 1), FrameChecked(file, h, n - 1), before);
      pairs := before + 1 + h.pageSize / 8;
    }
  }

  /** Whether frame n is complete, carries these salts and, if `before` is given, continues that
      checksum. */
  ghost predicate Accepts(file: Bytes, h: Header, n: nat, salt1: nat, salt2: nat, before: Option<Sums>) {
    && Complete(file, h, n) && Salted(file, h, n, salt1, salt2)
    && (before.Some? ==> StoredSums(file, h, n) == Checksum(h.little, before.value, FrameChecked(file, h, n)))
  }

  /** The frames from frame n on, up to the first that is incomplete, has other salts or does not
      continue the checksum. */
  ghost function Chain(file: Bytes, h: Header, n: nat, salt1: nat, salt2: nat, sums: Sums): seq<Frame>
    decreases |file| - FrameOffset(h, n)
  {
    if Accepts(file, h, n, salt1, salt2, Some(sums)) then
      [FrameAt(file, h, n)] + Chain(file, h, n + 1, salt1, salt2, StoredSums(file, h, n))
    else []
  }

  /** The chain read from the header. */
  ghost function LogFrames(file: Bytes, h: Header): seq<Frame> {
    Chain(file, h, 0, h.salt1, h.salt2, h.sums)
  }
}
