/** What a restore plan guarantees: it exists exactly when the wanted transactions are covered, it
    ends exactly where it should, and no smaller set of files would do. */
module RestoreTheorems {
  import opened Ltx
  import opened RestorePlan
  import PageImage

  /** Consecutive files touch or overlap, and each reaches further than the one before. */
  ghost predicate Touching(start: TXID, chain: seq<FileInfo>) {
    forall i :: 0 <= i < |chain| ==>
      chain[i].minTXID <= End(start, chain[..i]) + 1 && End(start, chain[..i]) < chain[i].maxTXID
  }

  lemma GreedyIsTouching(all: set<FileInfo>, start: TXID, tgt: Target, chain: seq<FileInfo>)
    requires GreedyChain(all, start, tgt, chain)
    ensures Touching(start, chain)
    ensures forall f :: f in chain ==> f in all && tgt.Admits(f)
  {
  }

  lemma TouchingPrefix(start: TXID, chain: seq<FileInfo>, n: nat)
    requires Touching(start, chain) && n <= |chain|
    ensures Touching(start, chain[..n])
  {
  }

  lemma {:induction false} TouchingGrows(start: TXID, chain: seq<FileInfo>, m: nat, n: nat)
    requires Touching(start, chain) && m <= n <= |chain|
    ensures End(start, chain[..m]) + (n - m) <= End(start, chain[..n])
    decreases n
  {
    if m < n {
      TouchingGrows(start, chain, m, n - 1);
      assert chain[..n][n - 1] == chain[n - 1];
    }
  }

  /** A touching chain leaves no transaction out. */
  lemma {:induction false} TouchingCovers(start: TXID, chain: seq<FileInfo>, x: TXID)
    requires Touching(start, chain) && start < x <= End(start, chain)
    ensures exists f :: f in chain && f.Contains(x)
    decreases |chain|
  {
    var n := |chain| - 1;
    if x <= End(start, chain[..n]) {
      TouchingPrefix(start, chain, n);
      TouchingCovers(start, chain[..n], x);
    } else {
      assert chain[n].Contains(x);
    }
  }

  // ---------------------------------------------------------------------------------------
  // Snapshots

  /** Every snapshot starts at transaction 1, and the level is listed in filename order. */
  ghost predicate SnapshotListing(snapshots: seq<FileInfo>) {
    Sorted(snapshots) && forall f :: f in snapshots ==> f.minTXID == 1 && 1 <= f.maxTXID
  }

  /** The chosen snapshot reaches at least as far as any the target admits. */
  lemma LatestSnapshotIsBest(snapshots: seq<FileInfo>, tgt: Target, f: FileInfo)
    requires SnapshotListing(snapshots) && f in snapshots && tgt.Admits(f)
    ensures LatestSnapshot(snapshots, tgt) != [] && f.maxTXID <= LatestSnapshot(snapshots, tgt)[0].maxTXID
  {
  }

  // ---------------------------------------------------------------------------------------
  // Completeness

  /** Some choice of snapshot, or none, together with files that end at or before txID, leaves no
      transaction up to txID uncovered. */
  ghost predicate TargetCovered(snapshots: seq<FileInfo>, all: set<FileInfo>, txID: TXID) {
    exists s: TXID ::
      && (s == 0 || exists f :: f in snapshots && f.maxTXID == s && s <= txID)
      && Covers(EndingBy(all, txID), s, txID)
  }

  ghost function EndingBy(all: set<FileInfo>, txID: TXID): set<FileInfo> {
    set f | f in all && f.maxTXID <= txID
  }

  lemma StuckIsUncovered(all: set<FileInfo>, end: TXID, tgt: Target)
    requires Stuck(all, end, tgt)
    ensures forall f :: f in all && tgt.Admits(f) ==> !f.Contains(end + 1)
  {
  }

  lemma ReachedIsCovered(all: set<FileInfo>, start: TXID, tgt: Target, chain: seq<FileInfo>)
    requires tgt.txID != 0 && GreedyChain(all, start, tgt, chain) && End(start, chain) == tgt.txID
    ensures Covers(EndingBy(all, tgt.txID), start, tgt.txID)
  {
    GreedyIsTouching(all, start, tgt, chain);
    forall x | start < x <= tgt.txID
      ensures Covered(EndingBy(all, tgt.txID), x)
    {
      TouchingCovers(start, chain, x);
      var f :| f in chain && f.Contains(x);
      assert f in EndingBy(all, tgt.txID);
    }
  }

  lemma GreedyEndsWithin(all: set<FileInfo>, start: TXID, tgt: Target, chain: seq<FileInfo>)
    requires GreedyChain(all, start, tgt, chain)
    ensures start <= End(start, chain)
    ensures tgt.txID != 0 && start <= tgt.txID ==> End(start, chain) <= tgt.txID
  {
    GreedyIsTouching(all, start, tgt, chain);
    TouchingGrows(start, chain, 0, |chain|);
    assert chain[..|chain|] == chain;
    if chain != [] {
      assert chain[|chain| - 1] in chain;
    }
  }

  /** The snapshot choice of the code is never worse than any other. */
  lemma SnapshotStartsFarthest(snapshots: seq<FileInfo>, tgt: Target, s: TXID)
    requires SnapshotListing(snapshots) && tgt.txID != 0 && tgt.timestamp.None?
    requires s == 0 || exists f :: f in snapshots && f.maxTXID == s && s <= tgt.txID
    ensures s <= End(0, LatestSnapshot(snapshots, tgt)) <= tgt.txID
  {
  }

  /** A target is restorable exactly when it is covered, and then the plan ends exactly there. */
  lemma TargetCompleteness(snapshots: seq<FileInfo>, all: set<FileInfo>, tgt: Target, chain: seq<FileInfo>, r: PlanResult)
    requires SnapshotListing(snapshots)
    requires tgt.txID != 0 && tgt.timestamp.None?
    requires Outcome(LatestSnapshot(snapshots, tgt), all, tgt, chain, r)
    ensures r.Plan? <==> TargetCovered(snapshots, all, tgt.txID)
    ensures r.Plan? ==> End(0, r.infos) == tgt.txID
    ensures !r.Plan? ==> r.TxNotAvailable?
  {
    var snap := LatestSnapshot(snapshots, tgt);
    var start := End(0, snap);
    var end := End(start, chain);
    SnapshotStartsFarthest(snapshots, tgt, 0);
    GreedyEndsWithin(all, start, tgt, chain);
    assert End(0, snap + chain) == end;
    if r.Plan? {
      ReachedIsCovered(all, start, tgt, chain);
      assert TargetCovered(snapshots, all, tgt.txID);
    } else {
      StuckIsUncovered(all, end, tgt);
      assert !Covered(EndingBy(all, tgt.txID), end + 1);
      forall s: TXID | s == 0 || exists f :: f in snapshots && f.maxTXID == s && s <= tgt.txID
        ensures !Covers(EndingBy(all, tgt.txID), s, tgt.txID)
      {
        SnapshotStartsFarthest(snapshots, tgt, s);
      }
    }
  }

  /** In latest mode a plan exists exactly when something is stored and no transaction between the
      newest snapshot and the end of any listed file is uncovered; it then reaches every file. */
  lemma LatestCompleteness(snap: seq<FileInfo>, all: set<FileInfo>, tgt: Target, chain: seq<FileInfo>, r: PlanResult)
    requires tgt.txID == 0 && tgt.timestamp.None? && |snap| <= 1
    requires forall f :: f in all ==> WellFormed(f)
    requires Outcome(snap, all, tgt, chain, r)
    ensures r.Plan? <==> (snap != [] || all != {}) && forall f :: f in all ==> Covers(all, End(0, snap), f.maxTXID)
    ensures r.TxNotAvailable? <==> snap == [] && forall f :: f in all ==> 1 < f.minTXID
    ensures r.Plan? ==> End(0, r.infos) == End(End(0, snap), chain)
    ensures r.Plan? ==> forall f :: f in all ==> f.maxTXID <= End(0, r.infos)
  {
    var start := End(0, snap);
    var end := End(start, chain);
    GreedyIsTouching(all, start, tgt, chain);
    TouchingGrows(start, chain, 0, |chain|);
    assert chain[..|chain|] == chain;
    if chain != [] {
      assert chain[0] in chain;
    }
    assert End(0, snap + chain) == end;
    if r.Plan? {
      forall f, x | f in all && start < x <= f.maxTXID
        ensures Covered(all, x)
      {
        assert !Eligible(f, end, tgt);
        TouchingCovers(start, chain, x);
        var g :| g in chain && g.Contains(x);
        assert g in all;
      }
    } else if snap != [] || all != {} {
      StuckIsUncovered(all, end, tgt);
      var f :| f in all && f.maxTXID > end;
      assert !Covered(all, end + 1);
    }
  }

  // ---------------------------------------------------------------------------------------
  // Restoring as of a moment

  ghost function CreatedBefore(all: set<FileInfo>, moment: int): set<FileInfo> {
    set f | f in all && f.createdAt < moment
  }

  /** From the end of some snapshot created before the moment, or from nothing, files created before it
      leave no transaction up to t out. */
  ghost predicate CoveredBefore(snapshots: seq<FileInfo>, all: set<FileInfo>, moment: int, t: TXID) {
    exists s: TXID :: StartsBefore(snapshots, moment, s) && s <= t && Covers(CreatedBefore(all, moment), s, t)
  }

  ghost predicate StartsBefore(snapshots: seq<FileInfo>, moment: int, s: TXID) {
    s == 0 || exists f :: f in snapshots && f.maxTXID == s && f.createdAt < moment
  }

  lemma BestStart(snapshots: seq<FileInfo>, tgt: Target, s: TXID)
    requires SnapshotListing(snapshots) && tgt.txID == 0 && tgt.timestamp.Some?
    requires StartsBefore(snapshots, tgt.timestamp.value, s)
    ensures s <= End(0, LatestSnapshot(snapshots, tgt))
    ensures StartsBefore(snapshots, tgt.timestamp.value, End(0, LatestSnapshot(snapshots, tgt)))
  {
    if f :| f in snapshots && f.maxTXID == s && f.createdAt < tgt.timestamp.value {
      LatestSnapshotIsBest(snapshots, tgt, f);
    }
    LatestIsLastWanted(snapshots, tgt);
  }

  lemma ChainCovers(all: set<FileInfo>, start: TXID, tgt: Target, chain: seq<FileInfo>)
    requires tgt.timestamp.Some? && GreedyChain(all, start, tgt, chain)
    ensures start <= End(start, chain) && Covers(CreatedBefore(all, tgt.timestamp.value), start, End(start, chain))
  {
    GreedyIsTouching(all, start, tgt, chain);
    GreedyEndsWithin(all, start, tgt, chain);
    forall x | start < x <= End(start, chain)
      ensures Covered(CreatedBefore(all, tgt.timestamp.value), x)
    {
      TouchingCovers(start, chain, x);
      var f :| f in chain && f.Contains(x);
      assert f in CreatedBefore(all, tgt.timestamp.value);
    }
  }

  /** As of a moment a plan exists exactly if files created before it cover some transaction from the first
      on, and it ends at the last transaction up to which they cover everything. */
  lemma MomentCompleteness(snapshots: seq<FileInfo>, all: set<FileInfo>, tgt: Target, chain: seq<FileInfo>, r: PlanResult)
    requires SnapshotListing(snapshots) && tgt.txID == 0 && tgt.timestamp.Some?
    requires Outcome(LatestSnapshot(snapshots, tgt), all, tgt, chain, r)
    ensures r.Plan? <==> exists t: TXID :: t > 0 && CoveredBefore(snapshots, all, tgt.timestamp.value, t)
    ensures !r.Plan? ==> r.TxNotAvailable?
    ensures r.Plan? ==> CoveredBefore(snapshots, all, tgt.timestamp.value, End(0, r.infos))
    ensures r.Plan? ==> forall t: TXID :: CoveredBefore(snapshots, all, tgt.timestamp.value, t) ==> t <= End(0, r.infos)
  {
    var snap, moment := LatestSnapshot(snapshots, tgt), tgt.timestamp.value;
    var start := End(0, snap);
    var end := End(start, chain);
    assert End(0, snap + chain) == end;
    BestStart(snapshots, tgt, 0);
    ChainCovers(all, start, tgt, chain);
    assert CoveredBefore(snapshots, all, moment, end);
    StuckIsUncovered(all, end, tgt);
    assert !Covered(CreatedBefore(all, moment), end + 1);
    forall t: TXID | CoveredBefore(snapshots, all, moment, t)
      ensures t <= end
    {
      var s: TXID :| StartsBefore(snapshots, moment, s) && s <= t && Covers(CreatedBefore(all, moment), s, t);
      BestStart(snapshots, tgt, s);
    }
    assert snap + chain == [] ==> end == 0;
    assert snap + chain != [] ==> end > 0 by {
      GreedyIsTouching(all, start, tgt, chain);
      assert chain != [] ==> chain[|chain| - 1] == chain[..][|chain| - 1];
    }
  }

  // ---------------------------------------------------------------------------------------
  // Minimality

  /** The transactions just past each prefix of a greedy chain need pairwise different files. */
  lemma GreedyPointsSeparate(all: set<FileInfo>, start: TXID, tgt: Target, chain: seq<FileInfo>, i: nat, j: nat, f: FileInfo)
    requires GreedyChain(all, start, tgt, chain) && i < j < |chain|
    requires f in all && tgt.Admits(f)
    requires f.Contains(End(start, chain[..i]) + 1)
    ensures !f.Contains(End(start, chain[..j]) + 1)
  {
    GreedyIsTouching(all, start, tgt, chain);
    TouchingGrows(start, chain, i + 1, j);
    assert GreedyChoice(all, End(start, chain[..i]), tgt, chain[i]);
    assert End(start, chain[..i + 1]) == chain[i].maxTXID;
  }

  ghost predicate Separates(cover: set<FileInfo>, points: seq<TXID>) {
    forall f, i, j :: f in cover && 0 <= i < j < |points| && f.Contains(points[i]) ==> !f.Contains(points[j])
  }

  lemma {:induction false} SeparatePointsNeedFiles(cover: set<FileInfo>, points: seq<TXID>)
    requires forall i :: 0 <= i < |points| ==> Covered(cover, points[i])
    requires Separates(cover, points)
    ensures |points| <= |cover|
    decreases |points|
  {
    if points != [] {
      var n := |points| - 1;
      var f :| f in cover && f.Contains(points[n]);
      forall i | 0 <= i < n
        ensures Covered(cover - {f}, points[..n][i])
      {
        var g :| g in cover && g.Contains(points[i]);
        assert !g.Contains(points[n]);
        assert g in cover - {f};
      }
      SeparatePointsNeedFiles(cover - {f}, points[..n]);
    }
  }

  /** No set of admissible files that covers what the plan covers after its snapshot is smaller. */
  lemma PlanIsMinimal(all: set<FileInfo>, start: TXID, tgt: Target, chain: seq<FileInfo>, cover: set<FileInfo>)
    requires GreedyChain(all, start, tgt, chain)
    requires forall f :: f in cover ==> f in all && tgt.Admits(f)
    requires Covers(cover, start, End(start, chain))
    ensures |chain| <= |cover|
  {
    GreedyIsTouching(all, start, tgt, chain);
    var points: seq<TXID> := seq(|chain|, i requires 0 <= i < |chain| => End(start, chain[..i]) + 1);
    forall i | 0 <= i < |points|
      ensures Covered(cover, points[i])
    {
      TouchingGrows(start, chain, 0, i);
      TouchingGrows(start, chain, i, |chain|);
      assert chain[..|chain|] == chain;
    }
    forall f, i, j | f in cover && 0 <= i < j < |points| && f.Contains(points[i])
      ensures !f.Contains(points[j])
    {
      GreedyPointsSeparate(all, start, tgt, chain, i, j, f);
    }
    SeparatePointsNeedFiles(cover, points);
  }

  // ---------------------------------------------------------------------------------------
  // The shape of a whole plan

  /** A plan is a chain from the empty database: its first file starts at transaction 1 and every
      later one continues the one before, so that the files can be merged in order. */
  lemma PlanIsTouching(snapshots: seq<FileInfo>, all: set<FileInfo>, tgt: Target, chain: seq<FileInfo>, infos: seq<FileInfo>)
    requires SnapshotListing(snapshots)
    requires forall f :: f in all ==> WellFormed(f)
    requires Outcome(LatestSnapshot(snapshots, tgt), all, tgt, chain, Plan(infos))
    ensures infos != [] && Touching(0, infos) && infos[0].minTXID == 1
    ensures forall f :: f in infos ==> WellFormed(f) && (f in snapshots || f in all)
  {
    var snap := LatestSnapshot(snapshots, tgt);
    GreedyIsTouching(all, End(0, snap), tgt, chain);
    if snap == [] {
      assert infos == chain;
    } else {
      TouchingPrepend(snap[0], chain);
      assert infos == [snap[0]] + chain;
    }
    assert infos[..0] == [];
  }

  lemma TouchingPrepend(f: FileInfo, chain: seq<FileInfo>)
    requires f.minTXID == 1 <= f.maxTXID && Touching(f.maxTXID, chain)
    ensures Touching(0, [f] + chain)
  {
    var infos := [f] + chain;
    forall i | 0 <= i < |infos|
      ensures infos[i].minTXID <= End(0, infos[..i]) + 1 && End(0, infos[..i]) < infos[i].maxTXID
    {
      if i > 0 {
        assert infos[..i] == [f] + chain[..i - 1];
        assert End(0, infos[..i]) == End(f.maxTXID, chain[..i - 1]);
        assert infos[i] == chain[i - 1];
      }
    }
  }

  /** Restoring the files of a plan, merged and decoded, yields the database as it was after the
      last transaction of the plan, whatever overlaps, shrinking and regrowing the files contain. */
  lemma RestoreReplaysHistory(h: PageImage.History, snapshots: seq<FileInfo>, all: set<FileInfo>, tgt: Target,
                              chain: seq<FileInfo>, infos: seq<FileInfo>)
    requires PageImage.ValidHistory(h) && SnapshotListing(snapshots)
    requires forall f :: f in all || f in snapshots ==> PageImage.Within(h, f)
    requires Outcome(LatestSnapshot(snapshots, tgt), all, tgt, chain, Plan(infos))
    ensures PageImage.Mergeable(infos) && PageImage.AllWithin(h, infos)
    ensures var db := PageImage.DecodeDatabase(h.lock, PageImage.Merge(PageImage.Contents(h, infos)));
            db.Some? && PageImage.SameImage(h.lock, db.value, PageImage.State(h, End(0, infos)))
  {
    PlanIsTouching(snapshots, all, tgt, chain, infos);
    TouchingIsMergeable(infos);
    PageImage.RestoreMeaning(h, infos);
  }

  lemma TouchingIsMergeable(infos: seq<FileInfo>)
    requires infos != [] && Touching(0, infos) && infos[0].minTXID == 1
    requires forall f :: f in infos ==> WellFormed(f)
    ensures PageImage.Mergeable(infos)
  {
    forall i | 1 <= i < |infos|
      ensures PageImage.ContinuesAt(infos, i)
    {
      assert End(0, infos[..i]) == infos[i - 1].maxTXID;
    }
    forall i | 0 <= i < |infos|
      ensures 1 <= infos[0].minTXID <= infos[i].minTXID
    {
      assert infos[i] in infos;
    }
  }
}
