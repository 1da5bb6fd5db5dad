/** The bytes behind the readers of the log: words, the header, frames, and what the checksum computes
    (sections 4.1 and 4.2 of the SQLite Database File Format document). */
module WalFormat {
  import opened Wal

  // ---------------------------------------------------------------------------------------
  // Words

  lemma BigEndianIs(b: Bytes, i: nat)
    requires i + 4 <= |b|
    ensures var w: int, x: int, y: int, z: int := b[i], b[i + 1], b[i + 2], b[i + 3];
            BigEndian(b, i) == 0x100_0000 * w + 0x1_0000 * x + 0x100 * y + z
  {
    NumberOfFour(b[i..i + 4]);
  }

  lemma LittleEndianIs(b: Bytes, i: nat)
    requires i + 4 <= |b|
    ensures var w: int, x: int, y: int, z: int := b[i], b[i + 1], b[i + 2], b[i + 3];
            LittleEndian(b, i) == w + 0x100 * x + 0x1_0000 * y + 0x100_0000 * z
  {
    NumberOfFour([b[i + 3], b[i + 2], b[i + 1], b[i]]);
  }

  lemma NumberOfFour(b: Bytes)
    requires |b| == 4
    ensures var w: int, x: int, y: int, z: int := b[0], b[1], b[2], b[3];
            Number(b) == 0x100_0000 * w + 0x1_0000 * x + 0x100 * y + z
  {
    var w: int, x: int, y: int := b[0], b[1], b[2];
    assert b[..3][..2] == b[..2] && b[..2][..1] == b[..1] && b[..1][..0] == [];
    assert Number(b[..1]) == w && Number(b[..2]) == 0x100 * w + x;
    assert Number(b[..3]) == 0x1_0000 * w + 0x100 * x + y;
  }

  // ---------------------------------------------------------------------------------------
  // The checksum

  function Fibonacci(n: nat): nat {
    if n < 2 then n else Fibonacci(n - 1) + Fibonacci(n - 2)
  }

  /** The sum of the words with Fibonacci weights in reverse order: the last has weight 1. */
  function Weighted(words: seq<int>): int {
    if words == [] then 0 else Fibonacci(|words|) * words[0] + Weighted(words[1..])
  }

  function Words(little: bool, b: Bytes): (r: seq<int>)
    ensures |r| == |b| / 4
    decreases |b|
  {
    if |b| < 4 then [] else [if little then LittleEndian(b, 0) else BigEndian(b, 0)] + Words(little, b[4..])
  }

  /** The sums, not reduced modulo 2^32. */
  function Unreduced(a: int, b: int, words: seq<int>): (int, int)
    decreases |words|
  {
    if |words| < 2 then (a, b) else Unreduced(a + words[0] + b, b + words[1] + (a + words[0] + b), words[2..])
  }

  lemma Reduced(x: int, y: int, z: int)
    ensures (x % TWO_32 + y + z % TWO_32) % TWO_32 == (x + y + z) % TWO_32
  {
  }

  lemma PairReduced(a: int, b: int, u: nat, v: nat)
    ensures AddPair(Sums(a % TWO_32, b % TWO_32), u, v) == Sums((a + u + b) % TWO_32, (b + v + (a + u + b)) % TWO_32)
  {
    Reduced(a, u, b);
    Reduced(b, v, a + u + b);
  }

  lemma WordsNext(little: bool, bytes: Bytes, first: int, rest: Bytes)
    requires |bytes| >= 4 && first == Word(little, bytes, 0) && rest == bytes[4..]
    ensures Words(little, bytes) == [first] + Words(little, rest)
  {
  }

  lemma {:induction false} WordsSplit(little: bool, bytes: Bytes)
    requires |bytes| >= 8
    ensures Words(little, bytes) == [Word(little, bytes, 0), Word(little, bytes, 4)] + Words(little, bytes[8..])
  {
    var rest := bytes[4..];
    WordOfSuffix(little, bytes, 4, 0);
    assert rest[4..] == bytes[8..];
    WordsNext(little, bytes, Word(little, bytes, 0), rest);
    WordsNext(little, rest, Word(little, rest, 0), bytes[8..]);
  }

  lemma {:induction false} ChecksumReduces(little: bool, a: int, b: int, bytes: Bytes, pairs: nat)
    requires |bytes| == 8 * pairs
    ensures var (x, y) := Unreduced(a, b, Words(little, bytes));
            Checksum(little, Sums(a % TWO_32, b % TWO_32), bytes) == Sums(x % TWO_32, y % TWO_32)
    decreases pairs
  {
    if pairs > 0 {
      var u, v := Word(little, bytes, 0), Word(little, bytes, 4);
      WordsSplit(little, bytes);
      PairReduced(a, b, u, v);
      ChecksumReduces(little, a + u + b, b + v + (a + u + b), bytes[8..], pairs - 1);
    }
  }

  /** The weights of four words in front of n others. */
  lemma WeightedFour(a: int, b: int, x: int, y: int, rest: seq<int>)
    ensures Weighted([a, b - a, x, y] + rest) == Weighted([a + x + b, b + y] + rest)
  {
    var n := |rest|;
    var f, g := Fibonacci(n + 1), Fibonacci(n + 2);
    assert Fibonacci(n + 3) == g + f && Fibonacci(n + 4) == (g + f) + g;
    WeightedTwo(a, b - a, [x, y] + rest);
    assert [a, b - a, x, y] + rest == [a, b - a] + ([x, y] + rest);
    WeightedTwo(x, y, rest);
    WeightedTwo(a + x + b, b + y, rest);
    Regroup(f, g, a, b, x, y);
  }

  lemma WeightedTwo(x: int, y: int, rest: seq<int>)
    ensures Weighted([x, y] + rest) == Fibonacci(|rest| + 2) * x + Fibonacci(|rest| + 1) * y + Weighted(rest)
  {
    assert ([x, y] + rest)[1..] == [y] + rest && ([y] + rest)[1..] == rest;
  }

  lemma Regroup(f: int, g: int, a: int, b: int, x: int, y: int)
    ensures ((g + f) + g) * a + (g + f) * (b - a) + (g * x + f * y) == g * (a + x + b) + f * (b + y)
  {
  }

  /** The same over all words but the last. */
  lemma WeightedButLast(a: int, b: int, x: int, y: int, rest: seq<int>)
    ensures Weighted(([a, b - a, x, y] + rest)[..|rest| + 3]) == Weighted(([a + x + b, b + y] + rest)[..|rest| + 1])
  {
    if rest == [] {
      WeightedOne(a, b, x, y);
    } else {
      var most := rest[..|rest| - 1];
      assert ([a, b - a, x, y] + rest)[..|rest| + 3] == [a, b - a, x, y] + most;
      assert ([a + x + b, b + y] + rest)[..|rest| + 1] == [a + x + b, b + y] + most;
      WeightedFour(a, b, x, y, most);
    }
  }

  lemma WeightedOne(a: int, b: int, x: int, y: int)
    ensures Weighted(([a, b - a, x, y] + [])[..3]) == Weighted(([a + x + b, b + y] + [])[..1])
  {
    assert ([a, b - a, x, y] + [])[..3] == [a, b - a] + [x] && ([a + x + b, b + y] + [])[..1] == [a + x + b];
    WeightedTwo(a, b - a, [x]);
    assert Fibonacci(1) == Fibonacci(2) == 1 && Fibonacci(3) == 2;
    assert Weighted([x]) == x && Weighted([a + x + b]) == a + x + b;
  }

  lemma {:induction false} UnreducedIsWeighted(a: int, b: int, words: seq<int>, pairs: nat)
    requires |words| == 2 * pairs
    ensures Unreduced(a, b, words) == (Weighted(([a, b - a] + words)[..|words| + 1]), Weighted([a, b - a] + words))
    decreases pairs
  {
    if pairs == 0 {
      assert ([a, b - a] + words)[..1] == [a] && [a, b - a] + words == [a, b - a] + [];
      assert Weighted([a]) == a;
      WeightedTwo(a, b - a, []);
    } else {
      var x, y, rest := words[0], words[1], words[2..];
      var c := a + x + b;
      var d := b + y + c;
      UnreducedIsWeighted(c, d, rest, pairs - 1);
      assert [a, b - a] + words == [a, b - a, x, y] + rest && [c, d - c] == [a + x + b, b + y];
      WeightedFour(a, b, x, y, rest);
      WeightedButLast(a, b, x, y, rest);
    }
  }

  /** The second sum is the sum of all words with Fibonacci weights in reverse order, the first leaves out the
      last word. Sums to start from count as two words in front, of which they are the sums. */
  lemma ChecksumIsWeighted(little: bool, s: Sums, b: Bytes, pairs: nat)
    requires |b| == 8 * pairs && s.s0 < TWO_32 && s.s1 < TWO_32
    ensures var words := [s.s0, s.s1 - s.s0] + Words(little, b);
            Checksum(little, s, b) == Sums(Weighted(words[..|words| - 1]) % TWO_32, Weighted(words) % TWO_32)
  {
    WeightedChecksum(little, s.s0, s.s1, b, pairs, Words(little, b));
    InRange(s);
  }

  lemma InRange(s: Sums)
    requires s.s0 < TWO_32 && s.s1 < TWO_32
    ensures Sums(s.s0 % TWO_32, s.s1 % TWO_32) == s
  {
  }

  lemma WeightedChecksum(little: bool, x: int, y: int, b: Bytes, pairs: nat, words: seq<int>)
    requires |b| == 8 * pairs && words == Words(little, b)
    ensures Checksum(little, Sums(x % TWO_32, y % TWO_32), b) ==
            Sums(Weighted(([x, y - x] + words)[..|words| + 1]) % TWO_32, Weighted([x, y - x] + words) % TWO_32)
  {
    ChecksumReduces(little, x, y, b, pairs);
    UnreducedIsWeighted(x, y, words, pairs);
  }

  /** Without any, as for the header: */
  lemma ChecksumFromZero(little: bool, b: Bytes, pairs: nat)
    requires |b| == 8 * pairs && pairs > 0
    ensures var words := Words(little, b);
            Checksum(little, Sums(0, 0), b) == Sums(Weighted(words[..|words| - 1]) % TWO_32, Weighted(words) % TWO_32)
  {
    ChecksumIsWeighted(little, Sums(0, 0), b, pairs);
    var words := Words(little, b);
    WeightedTwo(0, 0, words);
    WeightedTwo(0, 0, words[..|words| - 1]);
    assert ([0, 0] + words)[..|words| + 1] == [0, 0] + words[..|words| - 1];
  }

  // ---------------------------------------------------------------------------------------
  // The header and the frames

  /** A log begins with one of the two magic numbers, the version, and the first 24 bytes under a checksum in
      the byte order that the magic number tells. */
  lemma HeaderIs(file: Bytes, h: Header)
    ensures ParseHeader(file) == HeaderOk(h) <==>
              && |file| >= 32 && (file[..4] == [0x37, 0x7f, 0x06, 0x82] || file[..4] == [0x37, 0x7f, 0x06, 0x83])
              && file[4..8] == [0x00, 0x2d, 0xe2, 0x18]
              && h == Header(file[3] == 0x82, BigEndian(file, 8), BigEndian(file, 16), BigEndian(file, 20), Sums(BigEndian(file, 24), BigEndian(file, 28)))
              && Checksum(h.little, Sums(0, 0), file[..24]) == h.sums
  {
    if |file| >= 32 {
      BigEndianIs(file, 0);
      BigEndianIs(file, 4);
    }
  }

  /** It reads as incomplete if it is shorter than a header or its checksum is wrong. */
  lemma HeaderFails(file: Bytes)
    ensures ParseHeader(file).HeaderEof? <==>
              |file| < 32 || ((file[..4] == [0x37, 0x7f, 0x06, 0x82] || file[..4] == [0x37, 0x7f, 0x06, 0x83])
                              && Checksum(file[3] == 0x82, Sums(0, 0), file[..24]) != Sums(BigEndian(file, 24), BigEndian(file, 28)))
  {
    if |file| >= 32 {
      BigEndianIs(file, 0);
    }
  }

  /** Frame i lies behind the header of 32 bytes and i frames, with 24 bytes in front of its page. */
  lemma FrameIs(file: Bytes, h: Header, i: nat, off: nat)
    requires off == 32 + i * (h.pageSize + 24)
    ensures Complete(file, h, i) <==> off + 24 + h.pageSize <= |file|
    ensures Complete(file, h, i) ==>
              && FrameAt(file, h, i) == Frame(BigEndian(file, off), BigEndian(file, off + 4), file[off + 24..off + 24 + h.pageSize])
              && (forall salt1, salt2 :: Salted(file, h, i, salt1, salt2) <==> BigEndian(file, off + 8) == salt1 && BigEndian(file, off + 12) == salt2)
              && StoredSums(file, h, i) == Sums(BigEndian(file, off + 16), BigEndian(file, off + 20))
              && FrameChecked(file, h, i) == file[off..off + 8] + file[off + 24..off + 24 + h.pageSize]
  {
    FrameOffsetLinear(h, i);
  }

  /** So a frame is valid if it has the salts of the header and holds the two weighted sums of the words of the
      header and of all frames so far. */
  lemma ValidFrameIs(file: Bytes, h: Header, i: nat)
    requires Usable(h)
    ensures ValidFrame(file, h, i) <==>
              Complete(file, h, i) && Salted(file, h, i, h.salt1, h.salt2)
              && var words := Words(h.little, CheckedBytes(file, h, i + 1));
                 |words| > 0 && StoredSums(file, h, i) == Sums(Weighted(words[..|words| - 1]) % TWO_32, Weighted(words) % TWO_32)
  {
    if Complete(file, h, i) {
      var pairs := RunningSumsOfAll(file, h, i + 1);
      ChecksumFromZero(h.little, CheckedBytes(file, h, i + 1), pairs);
    }
  }
}
