/** Restore planning: the streaming selection of LTX files over levels 8..0, and the greedy
    interval cover it implements. */
module RestorePlan {
  import opened Ltx

  /** What to restore: a transaction (0 for none) or everything created before a timestamp. */
  datatype Target = Target(txID: TXID, timestamp: Option<int>) {
    predicate Latest() {
      txID == 0 && timestamp.None?
    }

    predicate Admits(f: FileInfo) {
      && (txID != 0 ==> f.maxTXID <= txID)
      && (timestamp.Some? ==> f.createdAt < timestamp.value)
    }
  }

  /** The listing of one level: whether it could be opened, the files delivered, and whether the
      iteration ended without an error. */
  datatype Listing = Listing(opens: bool, files: seq<FileInfo>, clean: bool)

  datatype PlanResult =
    | Plan(infos: seq<FileInfo>)
    | ConflictingTargets
    | ListFailed
    | NonContiguous
    | TxNotAvailable

  /** True if next is preferred over curr as the next file of a plan. */
  predicate CandidateBetter(curr: FileInfo, next: FileInfo) {
    if next.maxTXID != curr.maxTXID then next.maxTXID > curr.maxTXID
    else if next.minTXID != curr.minTXID then next.minTXID < curr.minTXID
    else if next.level != curr.level then next.level > curr.level
    else next.createdAt < curr.createdAt
  }

  // ---------------------------------------------------------------------------------------
  // The specification: a greedy interval cover over the whole set of listed files.

  function End(start: TXID, chain: seq<FileInfo>): TXID {
    if chain == [] then start else chain[|chain| - 1].maxTXID
  }

  ghost predicate Eligible(f: FileInfo, cur: TXID, tgt: Target) {
    Extends(f, cur) && tgt.Admits(f)
  }

  /** f is an eligible file to which no other eligible file is preferred. */
  ghost predicate GreedyChoice(all: set<FileInfo>, cur: TXID, tgt: Target, f: FileInfo) {
    f in all && Eligible(f, cur, tgt) && forall g :: g in all && Eligible(g, cur, tgt) ==> !CandidateBetter(f, g)
  }

  ghost predicate GreedyChain(all: set<FileInfo>, start: TXID, tgt: Target, chain: seq<FileInfo>) {
    forall i :: 0 <= i < |chain| ==> GreedyChoice(all, End(start, chain[..i]), tgt, chain[i])
  }

  ghost predicate Reached(end: TXID, tgt: Target) {
    tgt.txID != 0 && tgt.txID <= end
  }

  ghost predicate Stuck(all: set<FileInfo>, cur: TXID, tgt: Target) {
    forall f :: f in all ==> !Eligible(f, cur, tgt)
  }

  /** The chain is greedy and stops only at the target or when nothing extends it. */
  ghost predicate MaximalGreedy(all: set<FileInfo>, start: TXID, tgt: Target, chain: seq<FileInfo>) {
    && GreedyChain(all, start, tgt, chain)
    && (Reached(End(start, chain), tgt) || Stuck(all, End(start, chain), tgt))
  }

  /** The last listed snapshot that the target admits. */
  function LatestSnapshot(snapshots: seq<FileInfo>, tgt: Target): (r: seq<FileInfo>)
    ensures |r| <= 1
    ensures r == [] ==> forall f :: f in snapshots ==> !tgt.Admits(f)
    ensures r != [] ==> exists i :: 0 <= i < |snapshots| && snapshots[i] == r[0] && tgt.Admits(r[0])
                                    && forall j :: i < j < |snapshots| ==> !tgt.Admits(snapshots[j])
  {
    if snapshots == [] then []
    else
      var last := snapshots[|snapshots| - 1];
      if tgt.Admits(last) then [last] else LatestSnapshot(snapshots[..|snapshots| - 1], tgt)
  }

  ghost function ListedFiles(levels: seq<Listing>): set<FileInfo> {
    set l, f | 0 <= l < |levels| && f in levels[l].files :: f
  }

  ghost predicate AllClean(snapshots: Listing, levels: seq<Listing>) {
    snapshots.opens && snapshots.clean && forall l :: 0 <= l < |levels| ==> levels[l].opens && levels[l].clean
  }

  ghost predicate Beyond(all: set<FileInfo>, end: TXID) {
    exists f :: f in all && f.minTXID > end + 1
  }

  /** What each outcome of planning means for the greedy cover. */
  ghost predicate Outcome(snap: seq<FileInfo>, all: set<FileInfo>, tgt: Target, chain: seq<FileInfo>, r: PlanResult) {
    var start := End(0, snap);
    var end := End(start, chain);
    && MaximalGreedy(all, start, tgt, chain)
    && match r
       case Plan(infos) =>
         && infos == snap + chain && infos != []
         && (tgt.txID != 0 ==> Reached(end, tgt))
         && (tgt.Latest() ==> !Beyond(all, end))
       case NonContiguous => tgt.Latest() && snap + chain != [] && Beyond(all, end)
       case TxNotAvailable => snap + chain == [] || (tgt.txID != 0 && !Reached(end, tgt))
       case _ => false
  }

  /** Of the files that touch the end of the plan and reach further, and end by the transaction wanted or were
      created before the moment given, the next one reaches farthest; among those that reach as far it starts
      first, then has the highest level, then is the oldest. */
  lemma GreedyChoiceIs(all: set<FileInfo>, cur: TXID, tgt: Target, f: FileInfo)
    ensures GreedyChoice(all, cur, tgt, f) <==>
              && f in all && f.minTXID <= cur + 1 && cur < f.maxTXID
              && (tgt.txID != 0 ==> f.maxTXID <= tgt.txID) && (tgt.timestamp.Some? ==> f.createdAt < tgt.timestamp.value)
              && forall g :: g in all && Eligible(g, cur, tgt) ==>
                   && g.maxTXID <= f.maxTXID
                   && (g.maxTXID == f.maxTXID ==> f.minTXID <= g.minTXID)
                   && (g.maxTXID == f.maxTXID && g.minTXID == f.minTXID ==> g.level <= f.level)
                   && (g.maxTXID == f.maxTXID && g.minTXID == f.minTXID && g.level == f.level ==> f.createdAt <= g.createdAt)
  {
  }

  // ---------------------------------------------------------------------------------------
  // The implementation: one mutable cursor a level.

  ghost predicate Dominates(files: seq<FileInfo>, n: nat, candidate: Option<FileInfo>, cur: TXID, tgt: Target)
    requires n <= |files|
  {
    && (candidate.Some? ==>
          candidate.value in files && tgt.Admits(candidate.value) && candidate.value.minTXID <= cur + 1)
    && (forall i :: 0 <= i < n ==> files[i].minTXID <= cur + 1)
    && (forall i :: 0 <= i < n && cur < files[i].maxTXID && tgt.Admits(files[i]) ==>
                      candidate.Some? && !CandidateBetter(candidate.value, files[i]))
  }

  lemma DominatesNext(files: seq<FileInfo>, n: nat, candidate: Option<FileInfo>, cur: TXID, tgt: Target)
    requires n < |files| && files[n].minTXID <= cur + 1
    requires Dominates(files, n, candidate, cur, tgt)
    ensures files[n].maxTXID <= cur || !tgt.Admits(files[n]) ==> Dominates(files, n + 1, candidate, cur, tgt)
    ensures cur < files[n].maxTXID && tgt.Admits(files[n]) ==>
              Dominates(files, n + 1, if candidate.None? || CandidateBetter(candidate.value, files[n]) then Some(files[n]) else candidate, cur, tgt)
  {
  }

  class LevelCursor {
    const files: seq<FileInfo>   // what the iterator delivers, in filename order
    const clean: bool            // false if the iterator ends with an error
    var pos: nat                 // items read from the iterator
    var current: Option<FileInfo>
    var candidate: Option<FileInfo>
    var done: bool

    constructor (listing: Listing)
      ensures New(listing)
    {
      files := listing.files;
      clean := listing.clean;
      pos := 0;
      current := None;
      candidate := None;
      done := false;
    }

    /** As a cursor is when its listing has just been opened. */
    ghost predicate New(listing: Listing)
      reads this
    {
      files == listing.files && clean == listing.clean && pos == 0 && current.None? && candidate.None? && !done
    }

    ghost predicate Valid()
      reads this
    {
      && pos <= |files|
      && (current.Some? ==> 0 < pos && current.value == files[pos - 1])
      && (done ==> pos == |files| && current.None? && clean)
    }

    /** How many listed files have been evaluated, and so either kept as candidate or dropped. */
    ghost function Evaluated(): nat
      reads this
      requires Valid()
    {
      if current.Some? then pos - 1 else pos
    }

    /** Work left: two for every file not yet evaluated, one for a live candidate. */
    ghost function Work(): nat
      reads this
      requires Valid()
    {
      2 * (|files| - Evaluated()) + (if candidate.Some? then 1 else 0)
    }

    /** The candidate is admissible, touches cur and beats every evaluated file that could still
        extend cur, although the others have been discarded for good. */
    ghost predicate Tracks(cur: TXID, tgt: Target)
      reads this
    {
      Valid() && Dominates(files, Evaluated(), candidate, cur, tgt)
    }

    /** Every file not yet evaluated starts too late to touch cur. */
    ghost predicate CaughtUp(cur: TXID)
      reads this
      requires Valid()
    {
      forall i :: Evaluated() <= i < |files| ==> files[i].minTXID > cur + 1
    }

    /** The listing has been read to its end, or to a file that starts too late to touch cur. */
    ghost predicate ReadPast(cur: TXID)
      reads this
    {
      Valid() && (done || (current.Some? && current.value.minTXID > cur + 1))
    }

    ghost predicate Refreshed(cur: TXID, tgt: Target)
      reads this
    {
      Tracks(cur, tgt) && CaughtUp(cur) && ReadPast(cur)
    }

    method EnsureCurrent() returns (ok: bool)
      requires Valid()
      modifies this`pos, this`current, this`done
      ensures Valid() && Evaluated() == old(Evaluated()) && (done || current.Some? || !ok)
      ensures old(done) || old(current.Some?) ==> ok && pos == old(pos) && current == old(current) && done == old(done)
      ensures ok <==> old(done) || old(current.Some?) || old(pos) < |files| || clean
      ensures ok && done ==> Evaluated() == |files|
    {
      if done || current.Some? {
        return true;
      }
      if pos == |files| {
        if !clean {
          return false;
        }
        done := true;
        return true;
      }
      current := Some(files[pos]);
      pos := pos + 1;
      return true;
    }

    /** Evaluates the current item: keeps it as candidate if it beats the one held, else drops it. */
    method Consider(cur: TXID, tgt: Target)
      requires Tracks(cur, tgt) && current.Some? && current.value.minTXID <= cur + 1
      modifies this`current, this`candidate
      ensures Tracks(cur, tgt) && current.None? && !done
      ensures Evaluated() == old(Evaluated()) + 1 && Work() < old(Work())
    {
      var info := current.value;
      DominatesNext(files, Evaluated(), candidate, cur, tgt);
      current := None;
      if info.maxTXID <= cur {
        return;
      }
      if !tgt.Admits(info) {
        return;
      }
      if candidate.None? || CandidateBetter(candidate.value, info) {
        candidate := Some(info);
      }
    }

    method Refresh(cur: TXID, tgt: Target) returns (ok: bool)
      requires Tracks(cur, tgt) && Sorted(files)
      modifies this
      ensures Valid() && Work() <= old(Work())
      ensures clean ==> ok
      ensures ok ==> Refreshed(cur, tgt)
    {
      if done {
        return true;
      }
      if candidate.Some? && candidate.value.maxTXID <= cur {
        candidate := None;
      }
      while true
        invariant Tracks(cur, tgt) && Work() <= old(Work())
        decreases |files| - Evaluated()
      {
        var fetched := EnsureCurrent();
        if !fetched {
          return false;
        }
        if done {
          return true;
        }
        if current.value.minTXID > cur + 1 {
          return true;
        }
        Consider(cur, tgt);
      }
    }
  }

  ghost function Sum(s: seq<nat>): nat {
    if s == [] then 0 else s[0] + Sum(s[1..])
  }

  lemma {:induction false} SumMonotone(s: seq<nat>, t: seq<nat>)
    requires |s| == |t| && forall i :: 0 <= i < |s| ==> s[i] <= t[i]
    ensures Sum(s) <= Sum(t)
    ensures (exists i :: 0 <= i < |s| && s[i] < t[i]) ==> Sum(s) < Sum(t)
  {
    if s != [] {
      SumMonotone(s[1..], t[1..]);
      if i :| 0 <= i < |s| && s[i] < t[i] {
        if i > 0 {
          assert s[1..][i - 1] < t[1..][i - 1];
        }
      }
    }
  }

  /** The cursors are distinct objects, and together they list exactly the files in all. */
  ghost predicate CursorsOver(cursors: seq<LevelCursor>, all: set<FileInfo>) {
    && (forall j, k :: 0 <= j < k < |cursors| ==> cursors[j] != cursors[k])
    && (forall k :: 0 <= k < |cursors| ==> Sorted(cursors[k].files))
    && (forall k, f :: 0 <= k < |cursors| && f in cursors[k].files ==> f in all)
    && (forall f :: f in all ==> exists k :: 0 <= k < |cursors| && f in cursors[k].files)
  }

  ghost predicate AllTrack(cursors: seq<LevelCursor>, cur: TXID, tgt: Target)
    reads cursors
  {
    forall k :: 0 <= k < |cursors| ==> cursors[k].Tracks(cur, tgt)
  }

  ghost predicate AllRefreshed(cursors: seq<LevelCursor>, cur: TXID, tgt: Target)
    reads cursors
  {
    forall k :: 0 <= k < |cursors| ==> cursors[k].Refreshed(cur, tgt)
  }

  ghost predicate AllReadPast(cursors: seq<LevelCursor>, cur: TXID)
    reads cursors
  {
    forall k :: 0 <= k < |cursors| ==> cursors[k].ReadPast(cur)
  }

  /** Index k holds the preferred candidate; |candidates| stands for "no candidate at all". */
  ghost predicate Preferred(candidates: seq<Option<FileInfo>>, k: nat) {
    if k < |candidates| then
      && candidates[k].Some?
      && forall j :: 0 <= j < |candidates| && candidates[j].Some? ==>
                       !CandidateBetter(candidates[k].value, candidates[j].value)
    else forall j :: 0 <= j < |candidates| ==> candidates[j].None?
  }

  lemma PreferredNext(candidates: seq<Option<FileInfo>>, k: nat, c: Option<FileInfo>)
    requires Preferred(candidates, k)
    ensures c.None? && k < |candidates| ==> Preferred(candidates + [c], k)
    ensures c.None? && k >= |candidates| ==> forall k' :: k' > |candidates| ==> Preferred(candidates + [c], k')
    ensures c.Some? && k < |candidates| && !CandidateBetter(candidates[k].value, c.value) ==> Preferred(candidates + [c], k)
    ensures c.Some? && (k >= |candidates| || CandidateBetter(candidates[k].value, c.value)) ==> Preferred(candidates + [c], |candidates|)
  {
  }

  ghost function Works(cursors: seq<LevelCursor>): (w: seq<nat>)
    reads cursors
    requires forall k :: 0 <= k < |cursors| ==> cursors[k].Valid()
    ensures |w| == |cursors| && forall k :: 0 <= k < |w| ==> w[k] == cursors[k].Work()
  {
    if cursors == [] then [] else [cursors[0].Work()] + Works(cursors[1..])
  }

  ghost predicate Holds(cursors: seq<LevelCursor>, candidates: seq<Option<FileInfo>>)
    requires |candidates| <= |cursors|
    reads cursors
  {
    forall k :: 0 <= k < |candidates| ==> cursors[k].candidate == candidates[k]
  }

  /** Compares the candidate of cursor k with the best so far. */
  method PickBetter(next: nat, best: Option<FileInfo>, k: nat, c: Option<FileInfo>, n: nat, ghost candidates: seq<Option<FileInfo>>)
    returns (next': nat)
    requires |candidates| == k < n && Preferred(candidates, next) && (next < k || next == n)
    requires best == if next < k then candidates[next] else None
    ensures Preferred(candidates + [c], next') && (next' < k + 1 || next' == n)
  {
    PreferredNext(candidates, next, c);
    next' := next;
    if c.Some? {
      if next == n || CandidateBetter(best.value, c.value) {
        next' := k;
      }
    }
  }

  /** One round over the cursors: refresh each and pick the preferred candidate. */
  method PickNext(cursors: seq<LevelCursor>, cur: TXID, tgt: Target)
    returns (ok: bool, next: nat, ghost candidates: seq<Option<FileInfo>>)
    requires forall j, k :: 0 <= j < k < |cursors| ==> cursors[j] != cursors[k]
    requires forall k :: 0 <= k < |cursors| ==> Sorted(cursors[k].files)
    requires AllTrack(cursors, cur, tgt)
    modifies cursors
    ensures forall k :: 0 <= k < |cursors| ==> cursors[k].Valid() && cursors[k].Work() <= old(cursors[k].Work())
    ensures (forall k :: 0 <= k < |cursors| ==> cursors[k].clean) ==> ok
    ensures ok ==> AllRefreshed(cursors, cur, tgt)
    ensures ok ==> |candidates| == |cursors| && Holds(cursors, candidates) && Preferred(candidates, next) && next <= |cursors|
  {
    next := |cursors|;
    candidates := [];
    for k := 0 to |cursors|
      invariant forall j :: 0 <= j < k ==> cursors[j].Refreshed(cur, tgt)
      invariant forall j :: 0 <= j < k ==> cursors[j].Work() <= old(cursors[j].Work())
      invariant forall j :: k <= j < |cursors| ==> unchanged(cursors[j])
      invariant |candidates| == k && forall j :: 0 <= j < k ==> cursors[j].candidate == candidates[j]
      invariant Preferred(candidates, next) && (next < k || next == |cursors|)
    {
      var c := cursors[k];
      assert forall j :: 0 <= j < |cursors| && j != k ==> cursors[j] != c;
      var refreshed := c.Refresh(cur, tgt);
      if !refreshed {
        return false, next, candidates;
      }
      var best := if next < |cursors| then cursors[next].candidate else None;
      next := PickBetter(next, best, k, c.candidate, |cursors|, candidates);
      candidates := candidates + [c.candidate];
    }
    ok := true;
  }

  /** The preferred candidate of caught-up cursors is a greedy choice over all listed files. */
  lemma PreferredIsGreedy(cursors: seq<LevelCursor>, candidates: seq<Option<FileInfo>>, all: set<FileInfo>,
                          cur: TXID, tgt: Target, next: nat)
    requires CursorsOver(cursors, all) && AllRefreshed(cursors, cur, tgt)
    requires |candidates| == |cursors| && Holds(cursors, candidates) && Preferred(candidates, next)
    ensures next >= |cursors| ==> Stuck(all, cur, tgt)
    ensures next < |cursors| && candidates[next].value.maxTXID > cur ==> GreedyChoice(all, cur, tgt, candidates[next].value)
  {
    forall f | f in all && Eligible(f, cur, tgt)
      ensures next < |cursors| && !CandidateBetter(candidates[next].value, f)
    {
      var k :| 0 <= k < |cursors| && f in cursors[k].files;
      var i :| 0 <= i < |cursors[k].files| && cursors[k].files[i] == f;
      assert i < cursors[k].Evaluated();
      assert candidates[k].Some? && !CandidateBetter(candidates[k].value, f);
    }
    if next < |cursors| {
      assert cursors[next].candidate.value in cursors[next].files;
    }
  }

  /** Tracking survives when cur grows, and when the candidate at cur's new end is taken. */
  lemma TracksAdvance(c: LevelCursor, cur: TXID, cur': TXID, tgt: Target)
    requires c.Tracks(cur, tgt) && cur <= cur'
    ensures c.Tracks(cur', tgt)
    ensures c.candidate.Some? && c.candidate.value.maxTXID <= cur' ==> Dominates(c.files, c.Evaluated(), None, cur', tgt)
  {
  }

  /** The cursors read these listings, the highest level first. */
  ghost predicate Read(levels: seq<Listing>, cursors: seq<LevelCursor>) {
    |cursors| == |levels| && forall k :: 0 <= k < |cursors| ==>
      cursors[k].files == levels[|levels| - 1 - k].files && cursors[k].clean == levels[|levels| - 1 - k].clean
  }

  /** A listing that breaks off has delivered a file that starts too late to touch cur. */
  ghost predicate LevelReadPast(level: Listing, cur: TXID) {
    level.opens && (level.clean || exists f :: f in level.files && f.minTXID > cur + 1)
  }

  ghost predicate LevelsReadPast(levels: seq<Listing>, cur: TXID) {
    forall l :: 0 <= l < |levels| ==> LevelReadPast(levels[l], cur)
  }

  lemma ReadPastAll(levels: seq<Listing>, cursors: seq<LevelCursor>, cur: TXID)
    requires Read(levels, cursors) && AllReadPast(cursors, cur) && forall l :: 0 <= l < |levels| ==> levels[l].opens
    ensures LevelsReadPast(levels, cur)
  {
    forall l | 0 <= l < |levels|
      ensures LevelReadPast(levels[l], cur)
    {
      var c := cursors[|levels| - 1 - l];
      assert c.ReadPast(cur) && c.files == levels[l].files && c.clean == levels[l].clean;
      if !c.done {
        assert c.current.value in c.files;
      }
    }
  }

  /** Opens the highest level first, and stops at the first that fails. */
  method OpenLevels(levels: seq<Listing>) returns (ok: bool, cursors: seq<LevelCursor>)
    requires |levels| == SNAPSHOT_LEVEL
    ensures ok <==> forall l :: 0 <= l < |levels| ==> levels[l].opens
    ensures |cursors| <= |levels| && (ok ==> |cursors| == |levels|)
    ensures forall k :: 0 <= k < |cursors| ==> fresh(cursors[k]) && cursors[k].New(levels[|levels| - 1 - k])
    ensures forall j, k :: 0 <= j < k < |cursors| ==> cursors[j] != cursors[k]
  {
    cursors := [];
    var level: int := SNAPSHOT_LEVEL - 1;
    while level >= 0
      invariant -1 <= level < |levels| && |cursors| == |levels| - 1 - level
      invariant forall l :: level < l < |levels| ==> levels[l].opens
      invariant forall k :: 0 <= k < |cursors| ==> fresh(cursors[k]) && cursors[k].New(levels[|levels| - 1 - k])
      invariant forall j, k :: 0 <= j < k < |cursors| ==> cursors[j] != cursors[k]
    {
      if !levels[level].opens {
        return false, cursors;
      }
      var cursor := new LevelCursor(levels[level]);
      cursors := cursors + [cursor];
      level := level - 1;
    }
    ok := true;
  }

  /** One cursor a level, from level 8 down to level 0. */
  method OpenCursors(levels: seq<Listing>, ghost cur: TXID, ghost tgt: Target) returns (ok: bool, cursors: seq<LevelCursor>)
    requires |levels| == SNAPSHOT_LEVEL
    requires forall l :: 0 <= l < |levels| ==> Sorted(levels[l].files)
    ensures ok <==> forall l :: 0 <= l < |levels| ==> levels[l].opens
    ensures forall k :: 0 <= k < |cursors| ==> fresh(cursors[k])
    ensures ok ==> CursorsOver(cursors, ListedFiles(levels)) && AllTrack(cursors, cur, tgt) && Read(levels, cursors)
  {
    ok, cursors := OpenLevels(levels);
    if ok {
      OpenedCursorsCover(levels, cursors);
    }
  }

  method ClearCandidate(cursors: seq<LevelCursor>, k: nat, ghost at: TXID, ghost cur: TXID, tgt: Target)
    requires k < |cursors| && forall i, j :: 0 <= i < j < |cursors| ==> cursors[i] != cursors[j]
    requires AllTrack(cursors, cur, tgt) && cursors[k].candidate.Some?
    requires Dominates(cursors[k].files, cursors[k].Evaluated(), None, cur, tgt)
    modifies cursors[k]
    ensures AllTrack(cursors, cur, tgt)
    ensures old(AllReadPast(cursors, at)) ==> AllReadPast(cursors, at)
    ensures cursors[k].Work() < old(cursors[k].Work()) && cursors[k].candidate.None?
    ensures forall j :: 0 <= j < |cursors| && j != k ==> unchanged(cursors[j])
  {
    cursors[k].candidate := None;
  }

  /** One iteration of the planning loop: pick the preferred candidate of all levels and take it
      from its cursor. It may turn out to be stale, held by a cursor that is done. */
  method TakeNext(cursors: seq<LevelCursor>, cur: TXID, tgt: Target, ghost all: set<FileInfo>)
    returns (ok: bool, next: Option<FileInfo>)
    requires CursorsOver(cursors, all) && AllTrack(cursors, cur, tgt)
    modifies cursors
    ensures forall k :: 0 <= k < |cursors| ==> cursors[k].Valid()
    ensures (forall k :: 0 <= k < |cursors| ==> cursors[k].clean) ==> ok
    ensures ok ==> AllReadPast(cursors, cur)
    ensures ok && next.None? ==> Stuck(all, cur, tgt) && AllRefreshed(cursors, cur, tgt)
    ensures ok ==> forall k :: 0 <= k < |cursors| ==> cursors[k].Work() <= old(cursors[k].Work())
    ensures ok && next.Some? ==> exists k :: 0 <= k < |cursors| && cursors[k].Work() < old(cursors[k].Work())
    ensures ok && next.Some? && next.value.maxTXID <= cur ==> AllTrack(cursors, cur, tgt)
    ensures ok && next.Some? && next.value.maxTXID > cur ==>
              GreedyChoice(all, cur, tgt, next.value) && AllTrack(cursors, next.value.maxTXID, tgt)
  {
    next := None;
    var picked, k, candidates := PickNext(cursors, cur, tgt);
    if !picked {
      return false, next;
    }
    PreferredIsGreedy(cursors, candidates, all, cur, tgt, k);
    if k == |cursors| {
      return true, next;
    }
    next := cursors[k].candidate;
    ghost var cur' := if next.value.maxTXID <= cur then cur else next.value.maxTXID;
    forall j | 0 <= j < |cursors|
      ensures cursors[j].Tracks(cur', tgt)
    {
      TracksAdvance(cursors[j], cur, cur', tgt);
    }
    TracksAdvance(cursors[k], cur, cur', tgt);
    ClearCandidate(cursors, k, cur, cur', tgt);
    ok := true;
  }

  twostate lemma {:induction false} WorkShrinks(cursors: seq<LevelCursor>)
    requires forall k :: 0 <= k < |cursors| ==> old(cursors[k].Valid()) && cursors[k].Valid()
    requires forall k :: 0 <= k < |cursors| ==> cursors[k].Work() <= old(cursors[k].Work())
    requires exists k :: 0 <= k < |cursors| && cursors[k].Work() < old(cursors[k].Work())
    ensures Sum(Works(cursors)) < old(Sum(Works(cursors)))
  {
    var k :| 0 <= k < |cursors| && cursors[k].Work() < old(cursors[k].Work());
    assert Works(cursors)[k] < old(Works(cursors))[k];
    SumMonotone(Works(cursors), old(Works(cursors)));
  }

  /** Where the last turn of the planning loop started. */
  ghost function LastTurn(start: TXID, chain: seq<FileInfo>, tgt: Target): TXID {
    if Reached(End(start, chain), tgt) && chain != [] then End(start, chain[..|chain| - 1]) else End(start, chain)
  }

  lemma LastTurnIs(start: TXID, chain: seq<FileInfo>, f: FileInfo, tgt: Target)
    ensures Reached(f.maxTXID, tgt) ==> LastTurn(start, chain + [f], tgt) == End(start, chain)
  {
    assert (chain + [f])[..|chain|] == chain;
  }

  /** The planning loop: returns the files that follow the snapshot. */
  method ExtendPlan(cursors: seq<LevelCursor>, startTXID: TXID, tgt: Target, ghost all: set<FileInfo>)
    returns (ok: bool, chain: seq<FileInfo>)
    requires CursorsOver(cursors, all) && AllTrack(cursors, startTXID, tgt)
    requires !Reached(startTXID, tgt)
    modifies cursors
    ensures forall k :: 0 <= k < |cursors| ==> cursors[k].Valid()
    ensures (forall k :: 0 <= k < |cursors| ==> cursors[k].clean) ==> ok
    ensures ok ==> MaximalGreedy(all, startTXID, tgt, chain)
    ensures ok && tgt.txID == 0 ==> AllRefreshed(cursors, End(startTXID, chain), tgt)
    ensures ok ==> AllReadPast(cursors, LastTurn(startTXID, chain, tgt))
  {
    chain := [];
    var currentMax: TXID := startTXID;
    while true
      invariant AllTrack(cursors, currentMax, tgt)
      invariant currentMax == End(startTXID, chain) && GreedyChain(all, startTXID, tgt, chain) && !Reached(currentMax, tgt)
      decreases Sum(Works(cursors))
    {
      label Before:
      var taken, next := TakeNext(cursors, currentMax, tgt, all);
      if !taken {
        return false, chain;
      }
      if next.None? {
        return true, chain;
      }
      WorkShrinks@Before(cursors);
      if next.value.maxTXID <= currentMax {
        continue;
      }
      GreedyChainExtend(all, startTXID, tgt, chain, next.value);
      LastTurnIs(startTXID, chain, next.value, tgt);
      chain := chain + [next.value];
      currentMax := next.value.maxTXID;
      if tgt.txID != 0 && currentMax >= tgt.txID {
        return true, chain;
      }
    }
  }

  /** Latest mode only: every level must have been read to its end, or a later file is left out. */
  method CheckContiguous(cursors: seq<LevelCursor>, currentMax: TXID, tgt: Target, ghost all: set<FileInfo>)
    returns (ok: bool, contiguous: bool)
    requires CursorsOver(cursors, all) && AllRefreshed(cursors, currentMax, tgt)
    modifies cursors
    ensures (forall k :: 0 <= k < |cursors| ==> cursors[k].clean) ==> ok
    ensures ok ==> (contiguous <==> !Beyond(all, currentMax))
  {
    contiguous := true;
    for k := 0 to |cursors|
      invariant AllRefreshed(cursors, currentMax, tgt)
      invariant forall j :: 0 <= j < k ==> cursors[j].Evaluated() == |cursors[j].files|
    {
      var checked := cursors[k].EnsureCurrent();
      if !checked {
        return false, contiguous;
      }
      if cursors[k].current.Some? && cursors[k].current.value.minTXID > currentMax + 1 {
        assert cursors[k].current.value in cursors[k].files;
        return true, false;
      }
    }
    AllReadNoneBeyond(cursors, all, currentMax, tgt);
    ok := true;
  }

  /** The last listed snapshot that ends by the transaction, if one is wanted, and was created before the
      moment, if one is given. */
  ghost predicate LastWanted(snapshots: seq<FileInfo>, txID: TXID, timestamp: Option<int>, infos: seq<FileInfo>) {
    if infos == [] then forall f :: f in snapshots ==> TooLate(f, txID, timestamp)
    else |infos| == 1 && exists i :: LastWantedAt(snapshots, txID, timestamp, infos[0], i)
  }

  ghost predicate LastWantedAt(snapshots: seq<FileInfo>, txID: TXID, timestamp: Option<int>, f: FileInfo, i: nat) {
    && i < |snapshots| && snapshots[i] == f && (txID != 0 ==> f.maxTXID <= txID) && (timestamp.Some? ==> f.createdAt < timestamp.value)
    && forall j :: i < j < |snapshots| ==> TooLate(snapshots[j], txID, timestamp)
  }

  ghost predicate TooLate(f: FileInfo, txID: TXID, timestamp: Option<int>) {
    (txID != 0 && txID < f.maxTXID) || (timestamp.Some? && timestamp.value <= f.createdAt)
  }

  lemma LatestIsLastWanted(snapshots: seq<FileInfo>, tgt: Target)
    ensures LastWanted(snapshots, tgt.txID, tgt.timestamp, LatestSnapshot(snapshots, tgt))
  {
    var r := LatestSnapshot(snapshots, tgt);
    if r != [] {
      var i :| 0 <= i < |snapshots| && snapshots[i] == r[0] && tgt.Admits(r[0])
               && forall j :: i < j < |snapshots| ==> !tgt.Admits(snapshots[j]);
      assert LastWantedAt(snapshots, tgt.txID, tgt.timestamp, r[0], i);
    }
  }

  /** No file of a plan ends behind the transaction wanted, or was created at the moment given or later. */
  lemma PlanIsInTime(snapshots: seq<FileInfo>, all: set<FileInfo>, tgt: Target, chain: seq<FileInfo>)
    requires GreedyChain(all, End(0, LatestSnapshot(snapshots, tgt)), tgt, chain)
    ensures forall f :: f in LatestSnapshot(snapshots, tgt) + chain ==>
              (tgt.txID != 0 ==> f.maxTXID <= tgt.txID) && (tgt.timestamp.Some? ==> f.createdAt < tgt.timestamp.value)
  {
  }

  method SelectSnapshot(snapshots: seq<FileInfo>, tgt: Target) returns (infos: seq<FileInfo>)
    ensures infos == LatestSnapshot(snapshots, tgt) && LastWanted(snapshots, tgt.txID, tgt.timestamp, infos)
  {
    infos := [];
    for i := 0 to |snapshots|
      invariant infos == LatestSnapshot(snapshots[..i], tgt)
    {
      var info := snapshots[i];
      assert snapshots[..i + 1][..i] == snapshots[..i];
      if tgt.txID != 0 && info.maxTXID > tgt.txID {
        continue;
      }
      if tgt.timestamp.Some? && !(info.createdAt < tgt.timestamp.value) {
        continue;
      }
      infos := [info];
    }
    assert snapshots[..|snapshots|] == snapshots;
    LatestIsLastWanted(snapshots, tgt);
  }

  /** The part of CalcRestorePlan that follows the choice of a snapshot. */
  method PlanLevels(snap: seq<FileInfo>, levels: seq<Listing>, tgt: Target) returns (r: PlanResult, ghost chain: seq<FileInfo>)
    requires |levels| == SNAPSHOT_LEVEL && !Reached(End(0, snap), tgt)
    requires forall l :: 0 <= l < |levels| ==> Sorted(levels[l].files)
    ensures !r.ConflictingTargets?
    ensures r.ListFailed? ==> exists l :: 0 <= l < |levels| && !(levels[l].opens && levels[l].clean)
    ensures !r.ListFailed? ==> Outcome(snap, ListedFiles(levels), tgt, chain, r)
    ensures !r.ListFailed? ==> LevelsReadPast(levels, LastTurn(End(0, snap), chain, tgt))
  {
    chain := [];
    var startTXID := End(0, snap);
    var listed, cursors := OpenCursors(levels, startTXID, tgt);
    if !listed {
      return ListFailed, chain;
    }
    ghost var all := ListedFiles(levels);
    var extended, rest := ExtendPlan(cursors, startTXID, tgt, all);
    if !extended {
      return ListFailed, chain;
    }
    chain := rest;
    ReadPastAll(levels, cursors, LastTurn(startTXID, rest, tgt));
    var infos := snap + rest;
    var currentMax := End(startTXID, rest);
    assert End(0, infos) == currentMax;

    if |infos| > 0 && tgt.txID == 0 && tgt.timestamp.None? {
      var checked, contiguous := CheckContiguous(cursors, currentMax, tgt, all);
      if !checked {
        return ListFailed, chain;
      }
      if !contiguous {
        return NonContiguous, chain;
      }
    }
    if |infos| == 0 {
      return TxNotAvailable, chain;
    }
    if tgt.txID != 0 && End(0, infos) < tgt.txID {
      return TxNotAvailable, chain;
    }
    return Plan(infos), chain;
  }

  method CalcRestorePlan(snapshots: Listing, levels: seq<Listing>, tgt: Target)
    returns (r: PlanResult, ghost chain: seq<FileInfo>)
    requires |levels| == SNAPSHOT_LEVEL
    requires forall l :: 0 <= l < |levels| ==> Sorted(levels[l].files)
    ensures r.ConflictingTargets? <==> tgt.txID != 0 && tgt.timestamp.Some?
    ensures r.ListFailed? ==> !AllClean(snapshots, levels)
    ensures r.Plan? ==> forall f :: f in r.infos ==>
              (tgt.txID != 0 ==> f.maxTXID <= tgt.txID) && (tgt.timestamp.Some? ==> f.createdAt < tgt.timestamp.value)
    ensures !(snapshots.opens && snapshots.clean) ==> r.ConflictingTargets? || r.ListFailed?
    ensures !r.ConflictingTargets? && snapshots.opens && snapshots.clean && Reached(End(0, LatestSnapshot(snapshots.files, tgt)), tgt) ==>
              r == Plan(LatestSnapshot(snapshots.files, tgt))
    ensures !r.ConflictingTargets? && !r.ListFailed? && !Reached(End(0, LatestSnapshot(snapshots.files, tgt)), tgt) ==>
              LevelsReadPast(levels, LastTurn(End(0, LatestSnapshot(snapshots.files, tgt)), chain, tgt))
    ensures !r.ConflictingTargets? && !r.ListFailed? ==>
              Outcome(LatestSnapshot(snapshots.files, tgt), ListedFiles(levels), tgt, chain, r)
  {
    chain := [];
    if tgt.txID != 0 && tgt.timestamp.Some? {
      return ConflictingTargets, chain;
    }
    if !snapshots.opens {
      return ListFailed, chain;
    }
    var infos := SelectSnapshot(snapshots.files, tgt);
    if !snapshots.clean {
      return ListFailed, chain;
    }
    if tgt.txID != 0 && End(0, infos) >= tgt.txID {
      assert infos == infos + chain;
      return Plan(infos), chain;
    }
    r, chain := PlanLevels(infos, levels, tgt);
    if r.Plan? {
      PlanIsInTime(snapshots.files, ListedFiles(levels), tgt, chain);
    }
  }

  lemma AllReadNoneBeyond(cursors: seq<LevelCursor>, all: set<FileInfo>, cur: TXID, tgt: Target)
    requires CursorsOver(cursors, all) && AllTrack(cursors, cur, tgt)
    requires forall j :: 0 <= j < |cursors| ==> cursors[j].Evaluated() == |cursors[j].files|
    ensures !Beyond(all, cur)
  {
  }

  lemma GreedyChainExtend(all: set<FileInfo>, start: TXID, tgt: Target, chain: seq<FileInfo>, f: FileInfo)
    requires GreedyChain(all, start, tgt, chain) && GreedyChoice(all, End(start, chain), tgt, f)
    ensures GreedyChain(all, start, tgt, chain + [f]) && End(start, chain + [f]) == f.maxTXID
  {
  }

  lemma OpenedCursorsCover(levels: seq<Listing>, cursors: seq<LevelCursor>)
    requires |cursors| == |levels|
    requires forall l :: 0 <= l < |levels| ==> Sorted(levels[l].files)
    requires forall k :: 0 <= k < |cursors| ==> cursors[k].files == levels[|levels| - 1 - k].files
    requires forall j, k :: 0 <= j < k < |cursors| ==> cursors[j] != cursors[k]
    ensures CursorsOver(cursors, ListedFiles(levels))
  {
    forall f | f in ListedFiles(levels)
      ensures exists k :: 0 <= k < |cursors| && f in cursors[k].files
    {
      var l :| 0 <= l < |levels| && f in levels[l].files;
      assert f in cursors[|levels| - 1 - l].files;
    }
  }
}
