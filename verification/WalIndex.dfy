/** The reader algorithm of section 4.4 of the SQLite Database File Format document, over a list of
    valid frames: which version of a page a reader of the log sees. */
module WalIndex {
  import opened Wal

  /** The end of the last transaction that is complete within the first n frames, 0 if none is. */
  function LastCommit(frames: seq<Frame>, n: nat): (r: nat)
    requires n <= |frames|
    ensures r <= n
  {
    if n == 0 then 0 else if frames[n - 1].commit != 0 then n else LastCommit(frames, n - 1)
  }

  /** Behind that end no transaction is complete. */
  lemma {:induction false} LastCommitIs(frames: seq<Frame>, n: nat)
    requires n <= |frames|
    ensures var c := LastCommit(frames, n);
            (c == 0 || frames[c - 1].commit != 0) && forall j :: c <= j < n ==> frames[j].commit == 0
  {
    if n > 0 && frames[n - 1].commit == 0 {
      LastCommitIs(frames, n - 1);
    }
  }

  /** The last of the first n frames that writes page p, -1 if there is none. */
  function LastFrame(frames: seq<Frame>, n: nat, p: nat): int
    requires n <= |frames|
  {
    if n == 0 then -1 else if frames[n - 1].pgno == p then n - 1 else LastFrame(frames, n - 1, p)
  }

  lemma {:induction false} LastFrameIs(frames: seq<Frame>, n: nat, p: nat)
    requires n <= |frames|
    ensures var r := LastFrame(frames, n, p);
            && -1 <= r < n && (r >= 0 ==> frames[r].pgno == p)
            && forall j :: r < j < n ==> frames[j].pgno != p
  {
    if n > 0 && frames[n - 1].pgno != p {
      LastFrameIs(frames, n - 1, p);
    }
  }

  /** m gives, for every page written in the first n frames, the offset of its last frame there. */
  ghost predicate Indexes(m: map<nat, nat>, frames: seq<Frame>, offsets: seq<nat>, n: nat)
    requires n <= |frames| == |offsets|
  {
    forall p: nat :: IndexesPage(m, frames, offsets, n, p)
  }

  ghost predicate IndexesPage(m: map<nat, nat>, frames: seq<Frame>, offsets: seq<nat>, n: nat, p: nat)
    requires n <= |frames| == |offsets|
  {
    var i := LastFrame(frames, n, p);
    if p in m then 0 <= i < n && m[p] == offsets[i] else i < 0
  }

  /** The size of the database after the first n frames, 0 if no transaction is complete there. */
  function CommitSize(frames: seq<Frame>, n: nat): nat
    requires n <= |frames|
  {
    if n == 0 then 0 else if frames[n - 1].commit != 0 then frames[n - 1].commit else CommitSize(frames, n - 1)
  }

  lemma {:induction false} CommitSizeIs(frames: seq<Frame>, n: nat)
    requires n <= |frames|
    ensures CommitSize(frames, n) == if LastCommit(frames, n) == 0 then 0 else frames[LastCommit(frames, n) - 1].commit
    ensures LastCommit(frames, n) > 0 <==> CommitSize(frames, n) > 0
  {
    if n > 0 && frames[n - 1].commit == 0 {
      CommitSizeIs(frames, n - 1);
    }
  }

  /** What a page map is: of every page up to the committed size, the last frame that is part of a
      complete transaction. Frames past the last commit do not count. */
  ghost predicate IsPageMap(m: map<nat, nat>, frames: seq<Frame>, offsets: seq<nat>)
    requires |frames| == |offsets|
  {
    forall p: nat :: MapsPage(m, frames, offsets, p)
  }

  ghost predicate MapsPage(m: map<nat, nat>, frames: seq<Frame>, offsets: seq<nat>, p: nat)
    requires |frames| == |offsets|
  {
    var c := LastCommit(frames, |frames|);
    var i := LastFrame(frames, c, p);
    if p in m then 0 <= i < c && p <= CommitSize(frames, |frames|) && m[p] == offsets[i]
    else i < 0 || CommitSize(frames, |frames|) < p
  }

  lemma IndexNext(m: map<nat, nat>, frames: seq<Frame>, offsets: seq<nat>, n: nat)
    requires n < |frames| == |offsets| && Indexes(m, frames, offsets, n)
    ensures Indexes(m[frames[n].pgno := offsets[n]], frames, offsets, n + 1)
  {
    var m', k := m[frames[n].pgno := offsets[n]], n + 1;
    forall p: nat
      ensures IndexesPage(m', frames, offsets, k, p)
    {
      assert IndexesPage(m, frames, offsets, n, p);
    }
  }

  /** Carrying every page of the transaction map over at a commit gives the index up to it, although
      that map also holds the pages of earlier transactions. */
  lemma IndexCommit(m: map<nat, nat>, tx: map<nat, nat>, frames: seq<Frame>, offsets: seq<nat>, c: nat, n: nat)
    requires c <= n <= |frames| == |offsets| && Indexes(m, frames, offsets, c) && Indexes(tx, frames, offsets, n)
    ensures Indexes(m + tx, frames, offsets, n)
  {
    forall p: nat
      ensures IndexesPage(m + tx, frames, offsets, n, p)
    {
      assert IndexesPage(m, frames, offsets, c, p) && IndexesPage(tx, frames, offsets, n, p);
      LastFrameIs(frames, c, p);
      LastFrameIs(frames, n, p);
    }
  }

  lemma CutIsPageMap(all: map<nat, nat>, m: map<nat, nat>, frames: seq<Frame>, offsets: seq<nat>)
    requires |frames| == |offsets|
    requires Indexes(all, frames, offsets, LastCommit(frames, |frames|))
    requires forall p :: p in m <==> p in all && p <= CommitSize(frames, |frames|)
    requires forall p :: p in m ==> m[p] == all[p]
    ensures IsPageMap(m, frames, offsets)
  {
    forall p: nat
      ensures MapsPage(m, frames, offsets, p)
    {
      assert IndexesPage(all, frames, offsets, LastCommit(frames, |frames|), p);
    }
  }

  ghost predicate Increasing(offsets: seq<nat>) {
    forall i, j :: 0 <= i < j < |offsets| ==> offsets[i] < offsets[j]
  }

  /** The largest offset of a page map belongs to the last commit frame exactly if the page of that
      frame lies inside the committed size. */
  lemma EndOfPageMap(m: map<nat, nat>, end: nat, frames: seq<Frame>, offsets: seq<nat>)
    requires |frames| == |offsets| && IsPageMap(m, frames, offsets) && Increasing(offsets)
    requires (exists p :: p in m && m[p] == end) && forall p :: p in m ==> m[p] <= end
    ensures var c := LastCommit(frames, |frames|);
            && 0 < c && offsets[0] <= end <= offsets[c - 1]
            && (end == offsets[c - 1] <==> frames[c - 1].pgno <= frames[c - 1].commit)
  {
    var c := LastCommit(frames, |frames|);
    CommitSizeIs(frames, |frames|);
    var p :| p in m && m[p] == end;
    assert MapsPage(m, frames, offsets, p);
    LastFrameIs(frames, c, p);
    var q := frames[c - 1].pgno;
    assert MapsPage(m, frames, offsets, q);
    assert LastFrame(frames, c, q) == c - 1;
  }

  /** If the page of the last commit frame lies inside the committed size, the map is not empty. */
  lemma NonEmptyPageMap(m: map<nat, nat>, frames: seq<Frame>, offsets: seq<nat>)
    requires |frames| == |offsets| && IsPageMap(m, frames, offsets)
    ensures var c := LastCommit(frames, |frames|);
            0 < c && frames[c - 1].pgno <= frames[c - 1].commit ==> m != map[]
  {
    var c := LastCommit(frames, |frames|);
    CommitSizeIs(frames, |frames|);
    if 0 < c {
      assert MapsPage(m, frames, offsets, frames[c - 1].pgno);
      assert LastFrame(frames, c, frames[c - 1].pgno) == c - 1;
    }
  }
}
