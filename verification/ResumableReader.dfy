/** A reader that reopens its stream when it breaks or ends early. Its documentation promises a
    seamless byte stream; the code reopens one byte before the current offset, and the promise holds
    exactly as long as no byte follows such a reopening. */
module ResumableReader {
  import opened Ltx

  const MAX_RETRIES := 3

  /** How far before the current offset the code reopens; the documentation says 0. */
  const REWIND := 1

  datatype Ending = Fine | Eof | Broken

  /** What the remote side does in one attempt: opening a stream may fail, and a read returns some
      bytes together with no error, an end of file, genuine or early, or another error. */
  datatype Attempt = Attempt(openFails: bool, n: nat, ending: Ending)

  datatype ReadError = NoError | EndOfFile | OpenFailed | RetriesExceeded

  datatype Verdict = Done(err: ReadError) | Retry

  /** Settings of a reader: file length, expected size (0 if unknown), rewind. */
  datatype Setup = Setup(length: nat, size: nat, rewind: nat) {
    predicate Valid() {
      (size == 0 || size == length) && rewind <= 1
    }
  }

  /** A reader's fields: the number of bytes handed out, and where the open stream stands in the file. */
  datatype Stream = Stream(offset: nat, rc: Option<nat>)

  const START := Stream(0, Some(0))

  // ---------------------------------------------------------------------------------------
  // One attempt and one read

  /** The offset at which a stream is reopened. */
  function ResumeOffset(offset: nat, rewind: nat): nat {
    if offset < rewind then 0 else offset - rewind
  }

  /** How many bytes an attempt yields. */
  function Got(a: Attempt, len: nat, position: nat, length: nat): nat {
    if length < position then 0 else Smaller(a.n, Smaller(len, length - position))
  }

  /** The stream stays open: no error, or an end of file that is believed. */
  predicate Keeps(a: Attempt, offset: nat, size: nat) {
    a.ending == Fine || (a.ending == Eof && !(size > 0 && offset < size))
  }

  function Judge(a: Attempt, offset: nat, size: nat, n: nat): Verdict {
    if a.ending == Fine then Done(NoError)
    else if a.ending == Eof && !(size > 0 && offset < size) then Done(EndOfFile)
    else if n > 0 then Done(NoError)
    else Retry
  }

  /** Where an attempt reads. */
  function From(x: Setup, st: Stream): nat {
    if st.rc.Some? then st.rc.value else ResumeOffset(st.offset, x.rewind)
  }

  /** One attempt of a read of up to len bytes: the reader afterwards, the bytes gained, the verdict. */
  function Try(x: Setup, st: Stream, len: nat, a: Attempt): (Stream, nat, Verdict) {
    if st.rc.None? && a.openFails then (st, 0, Done(OpenFailed))
    else
      var n := Got(a, len, From(x, st), x.length);
      var offset := st.offset + n;
      (Stream(offset, if Keeps(a, offset, x.size) then Some(From(x, st) + n) else None), n, Judge(a, offset, x.size, n))
  }

  /** The bytes of that attempt. */
  function Data<T>(x: Setup, file: seq<T>, st: Stream, len: nat, a: Attempt): (r: seq<T>)
    requires x.length == |file|
    ensures |r| == Try(x, st, len, a).1
  {
    var n := Try(x, st, len, a).1;
    if n == 0 then [] else file[From(x, st)..From(x, st) + n]
  }

  /** A read: the first attempt that is not to be retried decides, or the retries run out. */
  function Reading<T>(x: Setup, file: seq<T>, st: Stream, len: nat, remote: seq<Attempt>): (Stream, seq<T>, ReadError)
    requires x.length == |file|
    decreases |remote|
  {
    if |remote| == 0 then (st, [], RetriesExceeded)
    else
      var (next, n, verdict) := Try(x, st, len, remote[0]);
      if verdict.Done? then (next, Data(x, file, st, len, remote[0]), verdict.err)
      else Reading(x, file, next, len, remote[1..])
  }

  class ResumableReader<T(==)> {
    const file: seq<T>
    const x: Setup
    var st: Stream

    ghost predicate Valid()
      reads this
    {
      x.Valid() && x.length == |file| && Placed(x, st)
    }

    constructor (file: seq<T>, size: nat, rewind: nat)
      requires (size == 0 || size == |file|) && rewind <= 1
      ensures Valid() && this.file == file && x == Setup(|file|, size, rewind) && st == START
    {
      this.file, x := file, Setup(|file|, size, rewind);
      st := START;
    }

    /** One attempt, reopening the stream first if there is none. */
    method TryOnce(len: nat, a: Attempt) returns (data: seq<T>, verdict: Verdict)
      requires Valid()
      modifies this
      ensures Valid() && data == Data(x, file, old(st), len, a)
      ensures (st, |data|, verdict) == Try(x, old(st), len, a)
    {
      if st.rc.None? {
        if a.openFails {
          return [], Done(OpenFailed);
        }
        st := st.(rc := Some(ResumeOffset(st.offset, x.rewind)));
      }
      var from := st.rc.value;
      var n := Got(a, len, from, |file|);
      data := file[from..from + n];
      st := Stream(st.offset + n, Some(from + n));
      verdict := Judge(a, st.offset, x.size, n);
      if !Keeps(a, st.offset, x.size) {
        st := st.(rc := None);
      }
    }

    /** Reads up to len bytes, over at most four attempts. */
    method Read(len: nat, remote: seq<Attempt>) returns (data: seq<T>, err: ReadError)
      requires Valid() && |remote| >= 4
      modifies this
      ensures Valid() && (st, data, err) == Reading(x, file, old(st), len, remote[..4])
    {
      ghost var tries := remote[..MAX_RETRIES + 1];
      for attempt := 0 to MAX_RETRIES + 1
        invariant Valid() && Reading(x, file, st, len, tries[attempt..]) == Reading(x, file, old(st), len, tries)
      {
        var verdict;
        data, verdict := TryOnce(len, remote[attempt]);
        assert tries[attempt..][1..] == tries[attempt + 1..];
        if verdict.Done? {
          return data, verdict.err;
        }
      }
      return [], RetriesExceeded;
    }
  }

  /** The stream stands inside the file, and no more was handed out than the file and one byte. */
  predicate Placed(x: Setup, st: Stream) {
    if st.rc.Some? then st.rc.value <= x.length && st.rc.value <= st.offset <= st.rc.value + x.rewind
    else st.offset <= x.length + x.rewind
  }

  // ---------------------------------------------------------------------------------------
  // What one read amounts to

  /** Where attempt i of a read reads if all before it were fruitless: in the open stream, else one byte, or
      what the rewind is, before the current offset. */
  function PositionOf(x: Setup, st: Stream, i: nat): nat {
    if i == 0 && st.rc.Some? then st.rc.value else if st.offset < x.rewind then 0 else st.offset - x.rewind
  }

  /** It yields no byte, and breaks or ends before the known size. */
  ghost predicate Fruitless(x: Setup, st: Stream, len: nat, a: Attempt, i: nat) {
    && ((i == 0 && st.rc.Some?) || !a.openFails)
    && (a.n == 0 || len == 0 || x.length <= PositionOf(x, st, i))
    && (a.ending == Broken || (a.ending == Eof && 0 < x.size && st.offset < x.size))
  }

  /** Attempt i decides: with how many bytes, with which error, and whether the stream stays open behind them. */
  ghost predicate Decides<T>(x: Setup, file: seq<T>, st: Stream, len: nat, a: Attempt, i: nat, next: Stream, data: seq<T>, err: ReadError) {
    if !(i == 0 && st.rc.Some?) && a.openFails then data == [] && err == OpenFailed && next == Stream(st.offset, None)
    else
      var p := PositionOf(x, st, i);
      && (if a.n == 0 || len == 0 || |file| <= p then data == []
          else |data| == Smaller(a.n, Smaller(len, |file| - p)) && p + |data| <= |file| && data == file[p..p + |data|])
      && var ends := a.ending == Eof && (x.size == 0 || x.size <= st.offset + |data|);
         && err == (if ends then EndOfFile else NoError)
         && next.offset == st.offset + |data| && (next.rc.Some? <==> ends || a.ending == Fine) && (next.rc.Some? ==> next.rc.value == p + |data|)
  }

  lemma TryIs<T>(x: Setup, file: seq<T>, st: Stream, len: nat, a: Attempt, i: nat, now: Stream)
    requires x.length == |file| && now == (if i == 0 then st else Stream(st.offset, None))
    ensures Fruitless(x, st, len, a, i) ==> Try(x, now, len, a) == (Stream(st.offset, None), 0, Retry)
    ensures !Fruitless(x, st, len, a, i) ==>
              Try(x, now, len, a).2.Done? && Decides(x, file, st, len, a, i, Try(x, now, len, a).0, Data(x, file, now, len, a), Try(x, now, len, a).2.err)
  {
  }

  /** The first attempt that is not fruitless decides; if there is none the retries are used up. */
  lemma {:induction false} ReadingIs<T>(x: Setup, file: seq<T>, st: Stream, len: nat, remote: seq<Attempt>, i: nat)
    requires x.length == |file| && i <= |remote| && forall j :: 0 <= j < i ==> Fruitless(x, st, len, remote[j], j)
    ensures Reading(x, file, st, len, remote) == Reading(x, file, if i == 0 then st else Stream(st.offset, None), len, remote[i..])
    ensures i == |remote| ==> Reading(x, file, st, len, remote).1 == [] && Reading(x, file, st, len, remote).2 == RetriesExceeded
    ensures i < |remote| && !Fruitless(x, st, len, remote[i], i) ==>
              var (next, data, err) := Reading(x, file, st, len, remote);
              Decides(x, file, st, len, remote[i], i, next, data, err)
  {
    if i == 0 {
      assert remote[0..] == remote;
    } else {
      ReadingIs(x, file, st, len, remote, i - 1);
      TryIs(x, file, st, len, remote[i - 1], i - 1, if i == 1 then st else Stream(st.offset, None));
      assert remote[i - 1..][1..] == remote[i..];
    }
    if i < |remote| {
      TryIs(x, file, st, len, remote[i], i, if i == 0 then st else Stream(st.offset, None));
    }
  }

  // ---------------------------------------------------------------------------------------
  // Runs of reads

  datatype Call = Call(len: nat, remote: seq<Attempt>)

  /** Reader, bytes handed out and last error after a list of reads. */
  function Session<T>(x: Setup, file: seq<T>, st: Stream, calls: seq<Call>): (Stream, seq<T>, ReadError)
    requires x.length == |file|
    decreases |calls|
  {
    if |calls| == 0 then (st, [], NoError)
    else
      var last := |calls| - 1;
      var (before, bytes, _) := Session(x, file, st, calls[..last]);
      var (next, data, err) := Reading(x, file, before, calls[last].len, calls[last].remote);
      (next, bytes + data, err)
  }

  /** What goes wrong in a run: late, if an attempt found no open stream behind the start of the file and
      reopened it; spoiled, if a byte was handed out by that attempt or after it. */
  datatype Watch = Watch(late: bool, spoiled: bool)

  function WatchTry(x: Setup, st: Stream, len: nat, a: Attempt, w: Watch): Watch {
    var late := w.late || (st.rc.None? && !a.openFails && st.offset > 0);
    Watch(late, w.spoiled || (late && Try(x, st, len, a).1 > 0))
  }

  function WatchRead(x: Setup, st: Stream, len: nat, remote: seq<Attempt>, w: Watch): (Stream, Watch)
    decreases |remote|
  {
    if |remote| == 0 then (st, w)
    else
      var (next, _, verdict) := Try(x, st, len, remote[0]);
      var w' := WatchTry(x, st, len, remote[0], w);
      if verdict.Done? then (next, w') else WatchRead(x, next, len, remote[1..], w')
  }

  function WatchAll(x: Setup, calls: seq<Call>): (Stream, Watch)
    decreases |calls|
  {
    if |calls| == 0 then (START, Watch(false, false))
    else
      var last := |calls| - 1;
      var (before, w) := WatchAll(x, calls[..last]);
      WatchRead(x, before, calls[last].len, calls[last].remote, w)
  }

  // ---------------------------------------------------------------------------------------
  // What is handed out

  /** The bytes handed out, o in number, if the stream was first reopened behind the start of the file
      at offset d (0 if it never was). */
  function HandedOut<T>(file: seq<T>, d: nat, o: nat, rewind: nat): seq<T>
    requires d <= o && ResumeOffset(o, if d > 0 then rewind else 0) <= |file| && d <= |file|
  {
    if d == 0 then file[..o] else file[..d] + file[ResumeOffset(d, rewind)..ResumeOffset(o, rewind)]
  }

  /** The stream stands at the current offset, or behind it by the rewind once it was reopened there. */
  function StandsAt(x: Setup, o: nat, d: nat): nat {
    ResumeOffset(o, if d > 0 then x.rewind else 0)
  }

  ghost predicate Linked<T>(x: Setup, file: seq<T>, st: Stream, out: seq<T>, d: nat, w: Watch) {
    && x.Valid() && x.length == |file|
    && d <= st.offset && d <= |file| && StandsAt(x, st.offset, d) <= |file|
    && (st.rc.Some? ==> st.rc.value == StandsAt(x, st.offset, d))
    && out == HandedOut(file, d, st.offset, x.rewind)
    && (w.late <==> d > 0) && (w.spoiled <==> 0 < d < st.offset)
  }

  lemma Longer<T>(file: seq<T>, d: nat, o: nat, rewind: nat, p: nat, n: nat, end: nat)
    requires rewind <= 1 && d <= o && d <= |file| && end == o + n
    requires p == ResumeOffset(o, if d > 0 then rewind else 0) && p + n <= |file|
    ensures ResumeOffset(end, if d > 0 then rewind else 0) == p + n
    ensures HandedOut(file, d, end, rewind) == HandedOut(file, d, o, rewind) + file[p..p + n]
  {
    if d == 0 {
      assert file[..end] == file[..o] + file[o..end];
    } else {
      var q := ResumeOffset(d, rewind);
      assert file[q..p + n] == file[q..p] + file[p..p + n];
    }
  }

  /** Reopening the stream hands out nothing. */
  lemma LinkedReopen<T>(x: Setup, file: seq<T>, st: Stream, out: seq<T>, d: nat, w: Watch) returns (d': nat)
    requires Linked(x, file, st, out, d, w)
    ensures Linked(x, file, Stream(st.offset, Some(From(x, st))), out, d', Watch(w.late || (st.rc.None? && st.offset > 0), w.spoiled))
  {
    d' := if d == 0 && st.rc.None? then st.offset else d;
  }

  lemma LinkedBytes<T>(x: Setup, file: seq<T>, o: nat, p: nat, out: seq<T>, d: nat, w: Watch, n: nat, next: Stream, w': Watch)
    requires Linked(x, file, Stream(o, Some(p)), out, d, w) && p + n <= |file|
    requires next.offset == o + n && (next.rc.Some? ==> next.rc.value == p + n)
    requires w' == Watch(w.late, w.spoiled || (w.late && n > 0))
    ensures Linked(x, file, next, out + file[p..p + n], d, w')
  {
    Longer(file, d, o, x.rewind, p, n, o + n);
  }

  lemma TryYields<T>(x: Setup, file: seq<T>, st: Stream, len: nat, a: Attempt, p: nat, n: nat)
    requires x.length == |file| && p == From(x, st) <= |file| && n == Try(x, st, len, a).1 && (st.rc.Some? || !a.openFails)
    ensures p + n <= |file| && Data(x, file, st, len, a) == file[p..p + n]
    ensures var next := Try(x, st, len, a).0; next.offset == st.offset + n && (next.rc.Some? ==> next.rc.value == p + n)
  {
  }

  lemma LinkedTry<T>(x: Setup, file: seq<T>, st: Stream, out: seq<T>, d: nat, w: Watch, len: nat, a: Attempt)
    returns (d': nat)
    requires Linked(x, file, st, out, d, w)
    ensures Linked(x, file, Try(x, st, len, a).0, out + Data(x, file, st, len, a), d', WatchTry(x, st, len, a, w))
  {
    if st.rc.None? && a.openFails {
      d' := d;
      assert out + [] == out;
    } else {
      d' := LinkedReopen(x, file, st, out, d, w);
      var p, n := From(x, st), Try(x, st, len, a).1;
      TryYields(x, file, st, len, a, p, n);
      LinkedBytes(x, file, st.offset, p, out, d', Watch(w.late || (st.rc.None? && st.offset > 0), w.spoiled), n,
                  Try(x, st, len, a).0, WatchTry(x, st, len, a, w));
    }
  }

  lemma {:induction false} LinkedRead<T>(x: Setup, file: seq<T>, st: Stream, out: seq<T>, d: nat, w: Watch, len: nat, remote: seq<Attempt>)
    returns (d': nat)
    requires Linked(x, file, st, out, d, w)
    ensures var (next, data, _) := Reading(x, file, st, len, remote);
            next == WatchRead(x, st, len, remote, w).0 && Linked(x, file, next, out + data, d', WatchRead(x, st, len, remote, w).1)
    decreases |remote|
  {
    if |remote| == 0 {
      d' := d;
      assert out + [] == out;
    } else {
      d' := LinkedTry(x, file, st, out, d, w, len, remote[0]);
      if Try(x, st, len, remote[0]).2 == Retry {
        assert out + Data(x, file, st, len, remote[0]) == out;
        d' := LinkedRead(x, file, Try(x, st, len, remote[0]).0, out, d', WatchTry(x, st, len, remote[0], w), len, remote[1..]);
      }
    }
  }

  lemma {:induction false} LinkedSession<T>(x: Setup, file: seq<T>, calls: seq<Call>) returns (d: nat)
    requires x.Valid() && x.length == |file|
    ensures var (end, out, _) := Session(x, file, START, calls);
            end == WatchAll(x, calls).0 && Linked(x, file, end, out, d, WatchAll(x, calls).1)
    decreases |calls|
  {
    if |calls| == 0 {
      d := 0;
    } else {
      var last := |calls| - 1;
      d := LinkedSession(x, file, calls[..last]);
      var (before, out, _) := Session(x, file, START, calls[..last]);
      d := LinkedRead(x, file, before, out, d, WatchAll(x, calls[..last]).1, calls[last].len, calls[last].remote);
    }
  }

  // ---------------------------------------------------------------------------------------
  // When the stream is exact

  /** The byte before the reopening is handed out twice, and everything behind it one place late. */
  lemma RewindRepeats<T>(file: seq<T>, d: nat, o: nat)
    requires 0 < d <= |file| && d <= o <= |file| + 1
    ensures HandedOut(file, d, o, REWIND) == file[..d] + file[d - 1..o - 1]
    ensures o > d ==> HandedOut(file, d, o, REWIND)[d] == file[d - 1]
  {
  }

  lemma Straight<T>(x: Setup, file: seq<T>, st: Stream, out: seq<T>, d: nat, w: Watch)
    requires Linked(x, file, st, out, d, w) && (x.rewind == 0 || !w.spoiled)
    ensures st.offset <= |file| && out == file[..st.offset]
  {
    if d > 0 && x.rewind == 0 {
      assert file[..d] + file[d..st.offset] == file[..st.offset];
    }
  }

  /** What the documentation promises, for reopening at the current offset: whatever the remote side
      does, the bytes handed out are the beginning of the file, and an end of file at a known size means
      the whole file. */
  lemma DocumentedIsExact<T>(x: Setup, file: seq<T>, calls: seq<Call>)
    requires x.Valid() && x.length == |file| && x.rewind == 0
    ensures var (end, out, err) := Session(x, file, START, calls);
            && out <= file && |out| == end.offset
            && (err == EndOfFile && x.size > 0 ==> out == file)
  {
    var d := LinkedSession(x, file, calls);
    var (end, out, err) := Session(x, file, START, calls);
    Straight(x, file, end, out, d, WatchAll(x, calls).1);
    EndOfFileAtSize(x, file, calls);
  }

  /** What the code keeps of it: over any reads the bytes handed out are the beginning of the file,
      whatever the file, exactly if no byte was handed out by an attempt that reopened the stream behind
      the start, or after it. */
  lemma ExactUnlessRewound(x: Setup, calls: seq<Call>)
    requires x.Valid() && x.rewind == REWIND
    ensures (forall file: seq<int> :: |file| == x.length ==> Session(x, file, START, calls).1 <= file) <==> !WatchAll(x, calls).1.spoiled
  {
    if WatchAll(x, calls).1.spoiled {
      var file := seq(x.length, i => i);
      NotABeginning(x, file, calls);
    } else {
      forall file: seq<int> | |file| == x.length
        ensures Session(x, file, START, calls).1 <= file
      {
        var d := LinkedSession(x, file, calls);
        Straight(x, file, Session(x, file, START, calls).0, Session(x, file, START, calls).1, d, WatchAll(x, calls).1);
      }
    }
  }

  lemma NotABeginning(x: Setup, file: seq<int>, calls: seq<Call>)
    requires x.Valid() && x.rewind == REWIND && x.length == |file| && WatchAll(x, calls).1.spoiled
    requires forall i :: 0 <= i < |file| ==> file[i] == i
    ensures !(Session(x, file, START, calls).1 <= file)
  {
    var d := LinkedSession(x, file, calls);
    var (end, out, _) := Session(x, file, START, calls);
    RewindRepeats(file, d, end.offset);
    assert out[d] == d - 1;
  }

  /** And an end of file at a known size means the whole file exactly under the same condition. */
  lemma EndMeansWholeUnlessRewound(x: Setup, calls: seq<Call>)
    requires x.Valid() && x.rewind == REWIND && x.size > 0
    requires forall file: seq<int> :: |file| == x.length ==> Session(x, file, START, calls).2 == EndOfFile
    ensures (forall file: seq<int> :: |file| == x.length ==> Session(x, file, START, calls).1 == file) <==> !WatchAll(x, calls).1.spoiled
  {
    ExactUnlessRewound(x, calls);
    forall file: seq<int> | |file| == x.length
      ensures Session(x, file, START, calls).1 <= file ==> Session(x, file, START, calls).1 == file
    {
      var d := LinkedSession(x, file, calls);
      EndOfFileAtSize(x, file, calls);
    }
  }

  /** With a known size an end of file is reported only when the reader has counted that many bytes. */
  lemma EndOfFileAtSize<T>(x: Setup, file: seq<T>, calls: seq<Call>)
    requires x.length == |file|
    ensures Session(x, file, START, calls).2 == EndOfFile && x.size > 0 ==> Session(x, file, START, calls).0.offset >= x.size
  {
    if |calls| > 0 {
      var last := |calls| - 1;
      EndOfRead(x, file, Session(x, file, START, calls[..last]).0, calls[last].len, calls[last].remote);
    }
  }

  lemma {:induction false} EndOfRead<T>(x: Setup, file: seq<T>, st: Stream, len: nat, remote: seq<Attempt>)
    requires x.length == |file|
    ensures Reading(x, file, st, len, remote).2 == EndOfFile && x.size > 0 ==> Reading(x, file, st, len, remote).0.offset >= x.size
    decreases |remote|
  {
    if |remote| > 0 {
      EndOfRead(x, file, Try(x, st, len, remote[0]).0, len, remote[1..]);
    }
  }

  lemma OneMoreRead<T>(x: Setup, file: seq<T>, st: Stream, calls: seq<Call>, c: Call)
    requires x.length == |file|
    ensures var (before, bytes, _) := Session(x, file, st, calls);
            var (next, data, err) := Reading(x, file, before, c.len, c.remote);
            Session(x, file, st, calls + [c]) == (next, bytes + data, err)
  {
    assert (calls + [c])[..|calls|] == calls;
  }

  /** A concrete run: of a file of two bytes, one is read before the connection breaks; the two bytes
      read after that begin with the same one again. */
  lemma BrokenOnce(x: Setup, file: seq<int>, first: Call, second: Call)
    requires x == Setup(2, 2, REWIND) && file == [7, 8]
    requires first == Call(1, [Attempt(false, 1, Broken)]) && second == Call(2, [Attempt(false, 2, Fine)])
    ensures Session(x, file, START, [first, second]).1 == [7, 7, 8]
  {
    assert file[0..1] == [7] && file[0..2] == [7, 8];
    assert Reading(x, file, START, first.len, first.remote) == (Stream(1, None), [7], NoError);
    assert Reading(x, file, Stream(1, None), second.len, second.remote) == (Stream(3, Some(2)), [7, 8], NoError);
    OneMoreRead(x, file, START, [], first);
    assert [] + [first] == [first] && [first] + [second] == [first, second];
    OneMoreRead(x, file, START, [first], second);
  }
}
