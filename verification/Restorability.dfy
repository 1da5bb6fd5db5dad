/** What the replica's steps mean for its readers: in every reachable state the newest transaction
    can be restored, and a follower that is not older than the newest snapshot can catch up. */
module Restorability {
  import opened Ltx
  import opened RestorePlan
  import opened RestoreTheorems
  import opened ReplicaMachine
  import PageImage
  import CaptureTheory
  import Replicator
  import opened Follow
  import FollowTheory

  const LATEST := Target(0, None)

  /** A listing delivers exactly the stored files, in filename order. */
  ghost predicate Lists(listing: seq<FileInfo>, files: set<FileInfo>) {
    Sorted(listing) && forall f :: f in listing <==> f in files
  }

  ghost predicate ListsAll(levels: seq<Listing>, s: State)
    requires Shaped(s)
  {
    |levels| == SNAPSHOT_LEVEL && forall l :: 0 <= l < |levels| ==> Lists(levels[l].files, s.levels[l])
  }

  /** Levels 0 and 1 together cover everything from the newest snapshot to the last upload. */
  lemma TwoLevelsCover(s: State)
    requires Inv(s)
    ensures Covers(s.levels[0] + s.levels[1], NewestSnapshot(s), Uploaded(s))
  {
    forall x | NewestSnapshot(s) < x <= Uploaded(s)
      ensures Covered(s.levels[0] + s.levels[1], x)
    {
      if x <= Compacted(s) {
        assert Covered(s.levels[1], x);
      } else {
        assert Covered(s.levels[0], x);
      }
    }
  }

  lemma ListedLevels(levels: seq<Listing>, s: State, f: FileInfo)
    requires Inv(s) && ListsAll(levels, s)
    ensures f in ListedFiles(levels) <==> exists l :: 0 <= l < SNAPSHOT_LEVEL && f in s.levels[l]
    ensures f in ListedFiles(levels) ==> WellFormed(f) && f.maxTXID <= Uploaded(s)
  {
  }

  lemma SnapshotsListed(snapshots: seq<FileInfo>, s: State)
    requires Inv(s) && Lists(snapshots, s.levels[SNAPSHOT_LEVEL])
    ensures SnapshotListing(snapshots) && End(0, LatestSnapshot(snapshots, LATEST)) == NewestSnapshot(s)
  {
  }

  lemma CoveredOnward(levels: seq<Listing>, s: State)
    requires Inv(s) && ListsAll(levels, s)
    ensures Covers(ListedFiles(levels), NewestSnapshot(s), Uploaded(s))
  {
    TwoLevelsCover(s);
    forall x | NewestSnapshot(s) < x <= Uploaded(s)
      ensures Covered(ListedFiles(levels), x)
    {
      assert Covered(s.levels[0] + s.levels[1], x);
      var f :| f in s.levels[0] + s.levels[1] && f.Contains(x);
      ListedLevels(levels, s, f);
    }
  }

  lemma PlanReachesLastUpload(s: State, levels: seq<Listing>, snap: seq<FileInfo>, chain: seq<FileInfo>, r: PlanResult)
    requires Inv(s) && ListsAll(levels, s) && |snap| <= 1 && End(0, snap) == NewestSnapshot(s)
    requires Outcome(snap, ListedFiles(levels), LATEST, chain, r)
    ensures snap != [] || ListedFiles(levels) != {} ==> r.Plan?
    ensures r.Plan? ==> End(0, r.infos) == LargestStored(s)
    ensures Uploaded(s) > 0 ==> ListedFiles(levels) != {}
  {
    var all := ListedFiles(levels);
    CoveredOnward(levels, s);
    forall f | f in all
      ensures WellFormed(f) && f.maxTXID <= Uploaded(s)
    {
      ListedLevels(levels, s, f);
    }
    LatestCompleteness(snap, all, LATEST, chain, r);
    GreedyIsTouching(all, End(0, snap), LATEST, chain);
    GreedyEndsWithin(all, End(0, snap), LATEST, chain);
    if chain != [] {
      assert chain[|chain| - 1] in chain;
    }
    if Uploaded(s) > 0 {
      var f :| f in s.levels[0] && f.maxTXID == Uploaded(s);
      ListedLevels(levels, s, f);
    }
  }

  /** In every state reachable by any interleaving of uploads, compactions, snapshots and partial
      deletions, a latest-mode plan exists and ends at the largest transaction stored. */
  lemma AlwaysRestorable(s: State, snapshots: seq<FileInfo>, levels: seq<Listing>, chain: seq<FileInfo>, r: PlanResult)
    requires Shaped(s) && Reaches(INITIAL, s, false)
    requires Lists(snapshots, s.levels[SNAPSHOT_LEVEL]) && ListsAll(levels, s)
    requires Outcome(LatestSnapshot(snapshots, LATEST), ListedFiles(levels), LATEST, chain, r)
    ensures LargestStored(s) > 0 ==> r.Plan? && End(0, r.infos) == LargestStored(s)
    ensures LargestStored(s) == 0 ==> r.TxNotAvailable?
  {
    InvInitial();
    ReachableInv(INITIAL, s, false);
    SnapshotsListed(snapshots, s);
    PlanReachesLastUpload(s, levels, LatestSnapshot(snapshots, LATEST), chain, r);
    var snap := LatestSnapshot(snapshots, LATEST);
    assert snap != [] ==> snap[0] in snapshots;
    GreedyIsTouching(ListedFiles(levels), End(0, snap), LATEST, chain);
    assert chain != [] ==> chain[0] in chain;
    if chain != [] {
      ListedLevels(levels, s, chain[0]);
    }
  }

  /** What is restored then is the database after that transaction. */
  lemma {:induction false} LatestRestoreReplaysHistory(h: PageImage.History, s: State, snapshots: seq<FileInfo>, levels: seq<Listing>,
                                    chain: seq<FileInfo>, r: PlanResult)
    requires PageImage.ValidHistory(h) && s.dbPos <= |h.txns|
    requires Shaped(s) && Reaches(INITIAL, s, false) && LargestStored(s) > 0
    requires Lists(snapshots, s.levels[SNAPSHOT_LEVEL]) && ListsAll(levels, s)
    requires Outcome(LatestSnapshot(snapshots, LATEST), ListedFiles(levels), LATEST, chain, r)
    ensures r.Plan? && PageImage.Mergeable(r.infos) && PageImage.AllWithin(h, r.infos)
    ensures LargestStored(s) <= |h.txns|
    ensures var db := PageImage.DecodeDatabase(h.lock, PageImage.Merge(PageImage.Contents(h, r.infos)));
            db.Some? && PageImage.SameImage(h.lock, db.value, PageImage.State(h, LargestStored(s)))
  {
    InvInitial();
    ReachableInv(INITIAL, s, false);
    AlwaysRestorable(s, snapshots, levels, chain, r);
    SnapshotsListed(snapshots, s);
    assert LevelShape(SNAPSHOT_LEVEL, s.levels[SNAPSHOT_LEVEL], Uploaded(s), s.dbPos);
    forall f | f in ListedFiles(levels) || f in snapshots
      ensures PageImage.Within(h, f)
    {
      if f in ListedFiles(levels) {
        ListedLevels(levels, s, f);
      }
    }
    RestoreReplaysHistory(h, snapshots, ListedFiles(levels), LATEST, chain, r.infos);
  }

  /** If the transactions were captured from SQLite's log, it is the database SQLite had at the cut of
      the last stored file. */
  lemma LatestRestoreIsSQLites(h: PageImage.History, files: seq<PageImage.Changes>, cuts: seq<nat>, s: State,
                                                  snapshots: seq<FileInfo>, levels: seq<Listing>, chain: seq<FileInfo>, r: PlanResult)
    requires PageImage.ValidHistory(h) && CaptureTheory.Groups(h, files, cuts) && s.dbPos <= |files|
    requires Shaped(s) && Reaches(INITIAL, s, false) && LargestStored(s) > 0
    requires Lists(snapshots, s.levels[SNAPSHOT_LEVEL]) && ListsAll(levels, s)
    requires Outcome(LatestSnapshot(snapshots, LATEST), ListedFiles(levels), LATEST, chain, r)
    ensures var g := PageImage.History(h.lock, files);
            && r.Plan? && PageImage.Mergeable(r.infos) && PageImage.AllWithin(g, r.infos)
            && LargestStored(s) <= |files| && CaptureTheory.CutBefore(cuts, LargestStored(s)) <= |h.txns|
            && var db := PageImage.DecodeDatabase(h.lock, PageImage.Merge(PageImage.Contents(g, r.infos)));
               db.Some? && PageImage.SameImage(h.lock, db.value, PageImage.State(h, CaptureTheory.CutBefore(cuts, LargestStored(s))))
  {
    CaptureTheory.GroupsAreValid(h, files, cuts);
    LatestRestoreReplaysHistory(PageImage.History(h.lock, files), s, snapshots, levels, chain, r);
    CaptureTheory.GroupsKeepState(h, files, cuts, LargestStored(s));
  }

  /** A follower between the newest snapshot and the last upload always finds a file to apply. */
  lemma FollowerNeverStuck(s: State, remote: Remote, cur: TXID)
    requires Shaped(s) && Reaches(INITIAL, s, false)
    requires |remote.levels| == SNAPSHOT_LEVEL && forall l :: 0 <= l < SNAPSHOT_LEVEL ==> Lists(remote.levels[l], s.levels[l])
    requires NewestSnapshot(s) <= cur < Uploaded(s)
    ensures remote.CanExtend(0, cur)
  {
    InvInitial();
    ReachableInv(INITIAL, s, false);
    TwoLevelsCover(s);
    assert Covered(s.levels[0] + s.levels[1], cur + 1);
    var f :| f in s.levels[0] + s.levels[1] && f.Contains(cur + 1);
    assert Extends(f, cur);
    var l := if f in s.levels[0] then 0 else 1;
    assert f in remote.levels[l];
  }

  /** If retention in the compaction levels goes by the oldest snapshot, a follower that lacks nothing
      that snapshot starts with does, too. */
  lemma FollowerNeverStuckSince(s: State, remote: Remote, cur: TXID)
    requires Shaped(s) && Reaches(INITIAL, s, true)
    requires |remote.levels| == SNAPSHOT_LEVEL && forall l :: 0 <= l < SNAPSHOT_LEVEL ==> Lists(remote.levels[l], s.levels[l])
    requires Spared(s) <= cur < Uploaded(s)
    ensures remote.CanExtend(0, cur)
  {
    var l, f := NextFile(s, cur);
    assert f in remote.levels[l];
  }

  lemma NextFile(s: State, cur: TXID) returns (l: nat, f: FileInfo)
    requires Shaped(s) && Reaches(INITIAL, s, true) && Spared(s) <= cur < Uploaded(s)
    ensures l <= 1 && f in s.levels[l] && Extends(f, cur)
  {
    LosslessStrict(s);
    l := if cur < Compacted(s) then 1 else 0;
    assert Covered(s.levels[l], cur + 1);
    f :| f in s.levels[l] && f.Contains(cur + 1);
  }

  // ---------------------------------------------------------------------------------------
  // Catching up

  /** The listings are those of state s, with the files behind them. */
  ghost predicate Offers(s: State, remote: Remote, h: PageImage.History)
    requires Shaped(s)
  {
    remote.Truthful(h) && forall l :: 0 <= l < SNAPSHOT_LEVEL ==> Lists(remote.levels[l], s.levels[l])
  }

  /** The follower lacks nothing from before the newest snapshot, or in lossless runs the oldest. */
  ghost predicate NotPruned(s: State, lossless: bool, cur: TXID)
    requires Shaped(s)
  {
    NewestSnapshot(s) <= cur || (lossless && Spared(s) <= cur)
  }

  lemma EndsByUpload(s: State, lossless: bool, remote: Remote, h: PageImage.History)
    requires Shaped(s) && Reaches(INITIAL, s, lossless) && Offers(s, remote, h)
    ensures remote.EndsBy(Uploaded(s))
  {
    InvInitial();
    ReachableInv(INITIAL, s, lossless);
    forall l, f | 0 <= l < |remote.levels| && f in remote.levels[l]
      ensures f.maxTXID <= Uploaded(s)
    {
      assert LevelShape(l, s.levels[l], Uploaded(s), s.dbPos);
    }
  }

  lemma FindsFile(s: State, lossless: bool, remote: Remote, h: PageImage.History, cur: TXID)
    requires Shaped(s) && Reaches(INITIAL, s, lossless) && Offers(s, remote, h)
    requires NotPruned(s, lossless, cur) && cur < Uploaded(s)
    ensures remote.CanExtend(0, cur)
  {
    if NewestSnapshot(s) <= cur {
      if lossless {
        LosslessReaches(INITIAL, s);
      }
      FollowerNeverStuck(s, remote, cur);
    } else {
      FollowerNeverStuckSince(s, remote, cur);
    }
  }

  /** How many I/O calls of a poll succeed before one fails, and whether recording its result does. */
  datatype Tick = Tick(ioCalls: nat, sidecarFails: bool)

  /** One poll. Without an error it leads on, unless the follower has caught up. */
  method PollOnce(f: Follower, ghost s: State, ghost lossless: bool, remote: Remote, tick: Tick) returns (ok: bool, running: bool)
    requires Shaped(s) && Reaches(INITIAL, s, lossless) && Offers(s, remote, f.h) && NotPruned(s, lossless, f.sidecar)
    requires f.Recoverable() && f.lastTXID == f.sidecar && remote.EndsBy(Uploaded(s))
    modifies f
    ensures f.Recoverable() && (running ==> f.lastTXID == f.sidecar) && NotPruned(s, lossless, f.sidecar)
    ensures GrownWithin(old(f.sidecar), f.sidecar, Uploaded(s)) && GrownWithin(old(f.upTo), f.upTo, Uploaded(s))
    ensures ok ==> f.sidecar >= Smaller(old(f.sidecar) + 1, Uploaded(s))
    ensures old(f.failures) <= f.failures && (f.failures == old(f.failures) && !tick.sidecarFails ==> ok && running)
  {
    if f.sidecar < Uploaded(s) {
      FindsFile(s, lossless, remote, f.h, f.sidecar);
    }
    ok, running := f.Poll(remote, Uploaded(s), tick.ioCalls, tick.sidecarFails);
  }

  /** Repeated polls, some of which may fail at any call, until one cannot record where it got. Each
      error-free one brings the follower on: with as many of them as it lacked transactions it is at
      the last upload, and with nothing ever applied that lies behind, the database is the one there. */
  method CatchUp(f: Follower, ghost s: State, ghost lossless: bool, remote: Remote, polls: seq<Tick>) returns (good: nat, running: bool)
    requires f.Recoverable() && f.lastTXID == f.sidecar
    requires Shaped(s) && Reaches(INITIAL, s, lossless) && Offers(s, remote, f.h) && NotPruned(s, lossless, f.sidecar)
    modifies f
    ensures f.Recoverable() && (running ==> f.lastTXID == f.sidecar) && good <= |polls|
    ensures f.failures == old(f.failures) && (forall i :: 0 <= i < |polls| ==> !polls[i].sidecarFails) ==> good == |polls|
    ensures GrownWithin(old(f.sidecar), f.sidecar, Uploaded(s))
    ensures old(f.sidecar) + good >= Uploaded(s) ==> f.sidecar == Larger(old(f.sidecar), Uploaded(s))
    ensures f.sidecar >= Uploaded(s) && old(f.upTo) <= f.sidecar ==> PageImage.SameImage(f.h.lock, f.img, PageImage.State(f.h, f.sidecar))
  {
    good, running := 0, true;
    EndsByUpload(s, lossless, remote, f.h);
    var i := 0;
    while i < |polls| && running
      invariant good <= i <= |polls| && f.Recoverable() && (running ==> f.lastTXID == f.sidecar) && NotPruned(s, lossless, f.sidecar)
      invariant GrownWithin(old(f.sidecar), f.sidecar, Uploaded(s)) && GrownWithin(old(f.upTo), f.upTo, Uploaded(s))
      invariant old(f.failures) <= f.failures
      invariant f.failures == old(f.failures) && (forall k :: 0 <= k < |polls| ==> !polls[k].sidecarFails) ==> good == i && running
      invariant f.sidecar >= Smaller(old(f.sidecar) + good, Uploaded(s))
    {
      var ok;
      ok, running := PollOnce(f, s, lossless, remote, polls[i]);
      if ok {
        good := good + 1;
      }
      i := i + 1;
    }
    if f.sidecar >= Uploaded(s) && old(f.upTo) <= f.sidecar {
      FollowTheory.TornExact(f.h, f.img, f.sidecar);
    }
  }

  // ---------------------------------------------------------------------------------------
  // Resuming a follower

  lemma LastSnapshotIsNewest(s: State, snapshots: seq<FileInfo>)
    requires Inv(s) && Lists(snapshots, s.levels[SNAPSHOT_LEVEL]) && snapshots != []
    ensures snapshots[|snapshots| - 1].minTXID == 1 && snapshots[|snapshots| - 1].maxTXID == NewestSnapshot(s)
  {
    SnapshotsListed(snapshots, s);
    var last := snapshots[|snapshots| - 1];
    assert last in snapshots;
    assert LATEST.Admits(last);
  }

  /** A saved transaction passes the test exactly when it is not newer than the newest snapshot;
      yet a follower that the test turns away, and that is behind the last upload, could go on. */
  lemma ResumeCondition(s: State, snapshots: seq<FileInfo>, remote: Remote, txid: TXID)
    requires Shaped(s) && Reaches(INITIAL, s, false) && 1 <= txid
    requires Lists(snapshots, s.levels[SNAPSHOT_LEVEL])
    requires |remote.levels| == SNAPSHOT_LEVEL && forall l :: 0 <= l < SNAPSHOT_LEVEL ==> Lists(remote.levels[l], s.levels[l])
    ensures ResumeTest(snapshots, txid) != HistoryPruned
    ensures ResumeTest(snapshots, txid) == Resumes <==> snapshots == [] || txid <= NewestSnapshot(s)
    ensures ResumeTest(snapshots, txid) == AheadOfSnapshot && txid < Uploaded(s) ==> remote.CanExtend(0, txid)
  {
    InvInitial();
    ReachableInv(INITIAL, s, false);
    if snapshots != [] {
      LastSnapshotIsNewest(s, snapshots);
      if NewestSnapshot(s) < txid < Uploaded(s) {
        FollowerNeverStuck(s, remote, txid);
      }
    }
  }

  /** There is more to apply behind cur, but no file continues it. */
  ghost predicate StuckAt(s: State, cur: TXID)
    requires Shaped(s)
  {
    cur < Uploaded(s) && forall l, f :: 0 <= l < SNAPSHOT_LEVEL && f in s.levels[l] ==> !Extends(f, cur)
  }

  /** A reachable state whose oldest snapshot ends at o, in which the resume test lets a follower at
      txid go on although it is stuck. */
  ghost predicate Misled(s: State, o: TXID, txid: TXID) {
    && Shaped(s) && Reaches(INITIAL, s, true) && OldestSnapshot(s) == o
    && txid <= NewestSnapshot(s) && StuckAt(s, txid)
  }

  /** The condition the test should use: a follower it lets go on is never stuck exactly if its saved
      transaction is at most one behind the end of the oldest snapshot. */
  lemma SafeToResume(o: TXID, txid: TXID)
    requires 1 <= o
    ensures (exists s :: Misled(s, o, txid)) <==> txid + 1 < o
  {
    if txid + 1 < o {
      var s := Pruned(o);
      PrunedMisleads(s, o, txid);
      assert Misled(s, o, txid);
    } else {
      forall s | Shaped(s) && Reaches(INITIAL, s, true) && OldestSnapshot(s) == o
        ensures !StuckAt(s, txid)
      {
        NotStuck(s, txid);
      }
    }
  }

  lemma NotStuck(s: State, cur: TXID)
    requires Shaped(s) && Reaches(INITIAL, s, true) && Spared(s) <= cur
    ensures !StuckAt(s, cur)
  {
    if cur < Uploaded(s) {
      var l, f := NextFile(s, cur);
    }
  }

  // ---------------------------------------------------------------------------------------
  // Concrete runs

  /** One file a transaction. */
  function Singles(level: nat, n: nat): set<FileInfo> {
    set k | 1 <= k <= n :: FileInfo(level, k, k, 0)
  }

  lemma SinglesNext(level: nat, n: nat)
    requires 1 <= n
    ensures Put(Singles(level, n - 1), FileInfo(level, n, n, 0)) == Singles(level, n)
    ensures MaxTXID(Singles(level, n - 1)) == n - 1 && MaxTXID(Singles(level, n)) == n
  {
    assert FileInfo(level, n, n, 0) in Singles(level, n);
    if n > 1 {
      assert FileInfo(level, n - 1, n - 1, 0) in Singles(level, n - 1);
    }
  }

  /** Levels 0 and 1 with n and m such files. */
  function Built(n: nat, m: nat): seq<set<FileInfo>> {
    [Singles(0, n), Singles(1, m), {}, {}, {}, {}, {}, {}, {}, {}]
  }

  lemma BuildOne(r: State, n: nat) returns (s: State)
    requires 1 <= n && Strict(r) && Reaches(INITIAL, r, true) && r.dbPos == n - 1 && r.levels == Built(n - 1, n - 1)
    ensures Strict(s) && Reaches(INITIAL, s, true) && s.dbPos == n && s.levels == Built(n, n - 1)
  {
    SinglesNext(0, n);
    var t := Then(r, Commit);
    s := Then(t, Upload(0));
  }

  lemma CompactOne(r: State, n: nat) returns (s: State)
    requires 1 <= n && Strict(r) && Reaches(INITIAL, r, true) && r.dbPos == n && r.levels == Built(n, n - 1)
    ensures Strict(s) && Reaches(INITIAL, s, true) && s.dbPos == n && s.levels == Built(n, n)
  {
    SinglesNext(0, n);
    SinglesNext(1, n);
    s := Then(r, Compact(1, n, n, 0, true));
  }

  /** n transactions, each committed, uploaded and compacted by itself. */
  lemma {:induction false} OneByOne(n: nat) returns (s: State)
    ensures Strict(s) && Reaches(INITIAL, s, true) && s.dbPos == n && s.levels == Built(n, n)
  {
    if n == 0 {
      s := INITIAL;
      StrictInitial();
      ReachesSelf(s, true);
      assert Singles(0, 0) == {} && Singles(1, 0) == {};
    } else {
      s := OneByOne(n - 1);
      s := BuildOne(s, n);
      s := CompactOne(s, n);
    }
  }

  lemma Then(s: State, e: Event) returns (t: State)
    requires Strict(s) && Reaches(INITIAL, s, true) && Lossless(s, e)
    ensures t == Apply(s, e) && Strict(t) && Reaches(INITIAL, t, true)
  {
    t := Apply(s, e);
    StrictStep(s, e);
    StepReaches(s, e, true);
    ReachesTransitive(INITIAL, s, t, true);
  }

  lemma OneSnapshot(s: State, n: nat)
    requires Shaped(s) && s.levels[SNAPSHOT_LEVEL] == {FileInfo(SNAPSHOT_LEVEL, 1, n, 0)}
    ensures OldestSnapshot(s) == NewestSnapshot(s) == n
  {
  }

  lemma SnapshotAt(n: nat, pos: nat) returns (s: State)
    requires 1 <= pos <= n
    ensures Strict(s) && Reaches(INITIAL, s, true) && s.levels == Built(n, n)[SNAPSHOT_LEVEL := {FileInfo(SNAPSHOT_LEVEL, 1, pos, 0)}]
  {
    var r := OneByOne(n);
    s := Then(r, Snapshot(pos, 0, true));
    assert Put({}, FileInfo(SNAPSHOT_LEVEL, 1, pos, 0)) == {FileInfo(SNAPSHOT_LEVEL, 1, pos, 0)};
  }

  /** All but the last file of level 0 or 1 is deleted. */
  lemma WithoutOldFiles(s: State, level: nat, n: nat) returns (t: State)
    requires 1 <= n && level <= 1 && Strict(s) && Reaches(INITIAL, s, true)
    requires s.levels[level] == Singles(level, n) && OldestSnapshot(s) == n && Uploaded(s) == n && Compacted(s) == n
    ensures Strict(t) && Reaches(INITIAL, t, true) && t.levels == s.levels[level := {FileInfo(level, n, n, 0)}]
  {
    var d := Singles(level, n - 1);
    forall f | f in d
      ensures Lossless(s, Delete(level, f))
    {
      assert FileInfo(level, n, n, 0) in s.levels[level] && Before(f, FileInfo(level, n, n, 0));
    }
    Replicator.DeletesReach(s, level, d, true);
    t := Replicator.Without(s, level, d);
    assert s.levels[level] - d == {FileInfo(level, n, n, 0)};
    ReachesTransitive(INITIAL, s, t, true);
    StrictReaches(s, t);
  }

  lemma WithoutOldLevel1(n: nat) returns (s: State)
    requires 1 <= n
    ensures Strict(s) && Reaches(INITIAL, s, true)
    ensures s.levels == Built(n, n)[SNAPSHOT_LEVEL := {FileInfo(SNAPSHOT_LEVEL, 1, n, 0)}][1 := {FileInfo(1, n, n, 0)}]
  {
    s := SnapshotAt(n, n);
    OneSnapshot(s, n);
    SinglesNext(0, n);
    SinglesNext(1, n);
    s := WithoutOldFiles(s, 1, n);
  }

  /** n transactions, then a snapshot of all of them, and then retention removes all it may. */
  lemma Pruned(n: nat) returns (s: State)
    requires 1 <= n
    ensures Strict(s) && Reaches(INITIAL, s, true)
    ensures s.levels == [{FileInfo(0, n, n, 0)}, {FileInfo(1, n, n, 0)}, {}, {}, {}, {}, {}, {}, {}, {FileInfo(9, 1, n, 0)}]
  {
    s := WithoutOldLevel1(n);
    OneSnapshot(s, n);
    SinglesNext(0, n);
    assert IsMax({FileInfo(1, n, n, 0)}, n);
    s := WithoutOldFiles(s, 0, n);
  }

  /** A follower that lacks more than the oldest snapshot's last transaction is stuck then. */
  lemma PrunedMisleads(s: State, n: nat, txid: TXID)
    requires txid + 1 < n && Strict(s) && Reaches(INITIAL, s, true)
    requires s.levels == [{FileInfo(0, n, n, 0)}, {FileInfo(1, n, n, 0)}, {}, {}, {}, {}, {}, {}, {}, {FileInfo(9, 1, n, 0)}]
    ensures Misled(s, n, txid)
  {
    OneSnapshot(s, n);
    assert IsMax({FileInfo(0, n, n, 0)}, n);
  }

  /** A follower at transaction 1 is let go on, and never finds a file: transactions 2 and 3 are only
      stored in the snapshot and in the files of transaction 3. */
  lemma PrunedFollowerIsStuck() returns (s: State)
    ensures Shaped(s) && Reaches(INITIAL, s, true)
    ensures s.levels == [{FileInfo(0, 3, 3, 0)}, {FileInfo(1, 3, 3, 0)}, {}, {}, {}, {}, {}, {}, {}, {FileInfo(9, 1, 3, 0)}]
    ensures ResumeTest([FileInfo(9, 1, 3, 0)], 1) == Resumes && StuckAt(s, 1)
  {
    s := Pruned(3);
    PrunedMisleads(s, 3, 1);
  }

  /** A follower at transaction 2 is turned away, although the file of transaction 3 continues it. */
  lemma NewerFollowerIsRefused() returns (s: State)
    ensures Shaped(s) && Reaches(INITIAL, s, true)
    ensures s.levels == Built(4, 4)[9 := {FileInfo(9, 1, 1, 0)}]
    ensures ResumeTest([FileInfo(9, 1, 1, 0)], 2) == AheadOfSnapshot
    ensures FileInfo(0, 3, 3, 0) in s.levels[0] && Extends(FileInfo(0, 3, 3, 0), 2)
  {
    s := SnapshotAt(4, 1);
  }
}
