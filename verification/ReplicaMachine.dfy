/** The replica as a state machine: uploads, compactions, snapshots and single deletions interleave
    freely, responses get lost and the process restarts. */
module ReplicaMachine {
  import opened Ltx

  /** Files stored at levels 0..9, the local database position and the cached maximum of levels. */
  datatype State = State(levels: seq<set<FileInfo>>, dbPos: TXID, cache: map<nat, TXID>)

  datatype Event =
    | Commit                                                              // a local transaction is captured
    | Upload(createdAt: int)                                              // the next level-0 file is stored
    | Compact(level: nat, lo: TXID, hi: TXID, createdAt: int, acked: bool) // a compacted file is stored
    | Snapshot(pos: TXID, createdAt: int, acked: bool)                    // a snapshot of a past position is stored
    | CacheFill(level: nat)                                               // a maximum is read and cached
    | Delete(level: nat, f: FileInfo)                                     // one deletion of a retention list
    | Restart                                                             // the caches are lost

  // ---------------------------------------------------------------------------------------
  // Sets of files

  ghost predicate IsMax(files: set<FileInfo>, m: TXID) {
    (forall f :: f in files ==> f.maxTXID <= m) && (m == 0 || exists f :: f in files && f.maxTXID == m)
  }

  lemma {:induction false} MaxExists(files: set<FileInfo>)
    ensures exists m: TXID :: IsMax(files, m)
  {
    if files == {} {
      assert IsMax(files, 0);
    } else {
      var f :| f in files;
      MaxExists(files - {f});
      var rest: TXID :| IsMax(files - {f}, rest);
      var m: TXID := if rest < f.maxTXID then f.maxTXID else rest;
      forall g | g in files
        ensures g.maxTXID <= m
      {
        assert g == f || g in files - {f};
      }
      assert IsMax(files, m);
    }
  }

  /** The largest transaction of a set of files, 0 if there is none. */
  ghost function MaxTXID(files: set<FileInfo>): (m: TXID)
    ensures IsMax(files, m)
  {
    MaxExists(files);
    var m: TXID :| IsMax(files, m);
    m
  }

  ghost predicate IsMin(files: set<FileInfo>, m: TXID) {
    (forall f :: f in files ==> m <= f.maxTXID) && if files == {} then m == 0 else exists f :: f in files && f.maxTXID == m
  }

  lemma {:induction false} MinExists(files: set<FileInfo>)
    ensures exists m: TXID :: IsMin(files, m)
  {
    if files == {} {
      assert IsMin(files, 0);
    } else {
      var f :| f in files;
      if files == {f} {
        assert IsMin(files, f.maxTXID);
      } else {
        MinExists(files - {f});
        var rest: TXID :| IsMin(files - {f}, rest);
        var m: TXID := if f.maxTXID < rest then f.maxTXID else rest;
        forall g | g in files
          ensures m <= g.maxTXID
        {
          assert g == f || g in files - {f};
        }
        var g :| g in files - {f} && g.maxTXID == rest;
        assert IsMin(files, m);
      }
    }
  }

  /** The smallest end of a set of files, 0 if there is none. */
  ghost function MinEnd(files: set<FileInfo>): (m: TXID)
    ensures IsMin(files, m)
  {
    MinExists(files);
    var m: TXID :| IsMin(files, m);
    m
  }

  predicate SameName(f: FileInfo, g: FileInfo) {
    f.minTXID == g.minTXID && f.maxTXID == g.maxTXID
  }

  /** Storing a file replaces one of the same name. */
  function Put(files: set<FileInfo>, f: FileInfo): set<FileInfo> {
    (set g | g in files && !SameName(g, f)) + {f}
  }

  /** f is followed by another file of the listing. */
  ghost predicate NotLast(files: set<FileInfo>, f: FileInfo) {
    exists g :: g in files && Before(f, g)
  }

  /** Strict filename order. */
  predicate Before(f: FileInfo, g: FileInfo) {
    FilenameOrder(f, g) && !SameName(f, g)
  }

  // ---------------------------------------------------------------------------------------
  // Positions

  ghost predicate Shaped(s: State) {
    |s.levels| == SNAPSHOT_LEVEL + 1
  }

  /** The largest uploaded transaction. */
  ghost function Uploaded(s: State): TXID
    requires Shaped(s)
  {
    MaxTXID(s.levels[0])
  }

  /** The end of the newest snapshot. */
  ghost function NewestSnapshot(s: State): TXID
    requires Shaped(s)
  {
    MaxTXID(s.levels[SNAPSHOT_LEVEL])
  }

  /** The end of the oldest snapshot, 0 if there is none. */
  ghost function OldestSnapshot(s: State): TXID
    requires Shaped(s)
  {
    MinEnd(s.levels[SNAPSHOT_LEVEL])
  }

  /** Retention by the oldest snapshot spares everything behind this transaction. */
  ghost function Spared(s: State): TXID
    requires Shaped(s)
  {
    if OldestSnapshot(s) == 0 then 0 else OldestSnapshot(s) - 1
  }

  /** The largest transaction compacted into level 1. */
  ghost function Compacted(s: State): TXID
    requires Shaped(s)
  {
    MaxTXID(s.levels[1])
  }

  /** Below the watermark a level-0 file is no longer needed. It never falls. */
  ghost function Watermark(s: State): TXID
    requires Shaped(s)
  {
    Larger(NewestSnapshot(s), Compacted(s))
  }

  ghost function LargestStored(s: State): TXID
    requires Shaped(s)
  {
    Larger(NewestSnapshot(s), Uploaded(s))
  }

  // ---------------------------------------------------------------------------------------
  // Steps

  /** Which deletions retention may carry out, at once or at any later time. */
  ghost predicate MayDelete(s: State, level: nat, f: FileInfo)
    requires Shaped(s) && level <= SNAPSHOT_LEVEL
  {
    if level == 0 then f.maxTXID <= Watermark(s) && f.maxTXID < Uploaded(s)
    else NotLast(s.levels[level], f) && (level == SNAPSHOT_LEVEL || f.maxTXID < NewestSnapshot(s))
  }

  ghost predicate Enabled(s: State, e: Event)
    requires Shaped(s)
  {
    match e
    case Commit => true
    case Upload(_) => Uploaded(s) < s.dbPos
    case Compact(level, lo, hi, _, _) =>
      && 1 <= level < SNAPSHOT_LEVEL && 1 <= lo <= hi <= Uploaded(s)
      && (level == 1 ==> lo <= Watermark(s) + 1)
    case Snapshot(pos, _, _) => 1 <= pos <= s.dbPos
    case CacheFill(level) => 1 <= level <= SNAPSHOT_LEVEL
    case Delete(level, f) => level <= SNAPSHOT_LEVEL && MayDelete(s, level, f)
    case Restart => true
  }

  ghost function Apply(s: State, e: Event): (r: State)
    requires Shaped(s) && Enabled(s, e)
    ensures Shaped(r)
  {
    match e
    case Commit => s.(dbPos := s.dbPos + 1)
    case Upload(t) =>
      var n := Uploaded(s) + 1;
      s.(levels := s.levels[0 := Put(s.levels[0], FileInfo(0, n, n, t))])
    case Compact(level, lo, hi, t, acked) =>
      s.(levels := s.levels[level := Put(s.levels[level], FileInfo(level, lo, hi, t))],
         cache := if acked then s.cache[level := hi] else s.cache)
    case Snapshot(pos, t, acked) =>
      s.(levels := s.levels[SNAPSHOT_LEVEL := Put(s.levels[SNAPSHOT_LEVEL], FileInfo(SNAPSHOT_LEVEL, 1, pos, t))],
         cache := if acked then s.cache[SNAPSHOT_LEVEL := pos] else s.cache)
    case CacheFill(level) => s.(cache := s.cache[level := MaxTXID(s.levels[level])])
    case Delete(level, f) => s.(levels := s.levels[level := s.levels[level] - {f}])
    case Restart => s.(cache := map[])
  }

  ghost predicate Disjoint(files: set<FileInfo>) {
    forall f, g :: f in files && g in files && f != g ==> f.maxTXID < g.minTXID || g.maxTXID < f.minTXID
  }

  /** No file reaches across the end m of the next level. */
  ghost predicate Aligned(files: set<FileInfo>, m: TXID) {
    forall f :: f in files ==> f.maxTXID <= m || m < f.minTXID
  }

  ghost predicate Stacked(lower: set<FileInfo>, upper: set<FileInfo>) {
    Disjoint(upper) && MaxTXID(upper) <= MaxTXID(lower) && Aligned(lower, MaxTXID(upper))
  }

  /** A step of a single writer whose compactions and snapshots are acknowledged: each compacted
      file follows its level and ends where the source level can be cut, and retention in the
      compaction levels goes by the oldest snapshot. */
  ghost predicate Lossless(s: State, e: Event)
    requires Shaped(s)
  {
    && Enabled(s, e)
    && match e
       case Compact(level, lo, hi, _, acked) =>
         && acked && MaxTXID(s.levels[level]) < lo && hi <= MaxTXID(s.levels[level - 1])
         && Aligned(s.levels[level - 1], hi)
         && (level == 1 ==> lo == Compacted(s) + 1)
       case Snapshot(pos, _, acked) => acked && NewestSnapshot(s) <= pos
       case Delete(level, f) =>
         && (level == 0 ==> f.maxTXID <= Compacted(s))
         && (1 <= level < SNAPSHOT_LEVEL ==> f.maxTXID < OldestSnapshot(s))
       case _ => true
  }

  const INITIAL := State([{}, {}, {}, {}, {}, {}, {}, {}, {}, {}], 0, map[])

  /** The events take s to t; if lossless, every step is. */
  ghost predicate Runs(s: State, es: seq<Event>, t: State, lossless: bool)
    requires Shaped(s)
    decreases |es|
  {
    if es == [] then s == t
    else Enabled(s, es[0]) && (lossless ==> Lossless(s, es[0])) && Runs(Apply(s, es[0]), es[1..], t, lossless)
  }

  ghost predicate Reaches(s: State, t: State, lossless: bool)
    requires Shaped(s)
  {
    exists es :: Runs(s, es, t, lossless)
  }

  // ---------------------------------------------------------------------------------------
  // The invariant

  /** The shape of the files at one level, given the largest uploaded transaction and the local position. */
  ghost predicate LevelShape(level: nat, files: set<FileInfo>, uploaded: TXID, dbPos: TXID) {
    forall f :: f in files ==> FileShape(level, f, uploaded, dbPos)
  }

  predicate FileShape(level: nat, f: FileInfo, uploaded: TXID, dbPos: TXID) {
    && WellFormed(f) && f.level == level
    && (level == 0 ==> f.minTXID == f.maxTXID)
    && if level == SNAPSHOT_LEVEL then f.minTXID == 1 && f.maxTXID <= dbPos else f.maxTXID <= uploaded
  }

  ghost predicate FilesShape(s: State)
    requires Shaped(s)
  {
    forall l :: 0 <= l <= SNAPSHOT_LEVEL ==> LevelShape(l, s.levels[l], Uploaded(s), s.dbPos)
  }

  /** Level 1 covers everything from the newest snapshot to its own end, level 0 everything from
      the watermark to the last upload, and level 1 is never believed to reach past the watermark. */
  ghost predicate Coverage(s: State)
    requires Shaped(s)
  {
    && Covers(s.levels[1], NewestSnapshot(s), Compacted(s))
    && Covers(s.levels[0], Watermark(s), Uploaded(s))
    && (1 in s.cache ==> s.cache[1] <= Watermark(s))
  }

  ghost predicate Inv(s: State) {
    Shaped(s) && FilesShape(s) && Uploaded(s) <= s.dbPos && Coverage(s)
  }

  lemma MaxAfterPut(files: set<FileInfo>, f: FileInfo)
    ensures MaxTXID(Put(files, f)) == Larger(MaxTXID(files), f.maxTXID)
  {
  }

  lemma CoversPut(files: set<FileInfo>, f: FileInfo, lo: TXID, hi: TXID)
    requires forall x :: lo < x <= hi ==> Covered(files, x) || f.Contains(x)
    ensures Covers(Put(files, f), lo, hi)
  {
  }

  lemma MaxAfterDelete(files: set<FileInfo>, f: FileInfo)
    ensures MaxTXID(files - {f}) <= MaxTXID(files)
    ensures f.maxTXID < MaxTXID(files) ==> MaxTXID(files - {f}) == MaxTXID(files)
  {
  }

  lemma InvInitial()
    ensures Inv(INITIAL)
  {
  }

  lemma ShapeAfterPut(s: State, level: nat, f: FileInfo, uploaded: TXID)
    requires Shaped(s) && FilesShape(s) && level <= SNAPSHOT_LEVEL && Uploaded(s) <= uploaded
    requires FileShape(level, f, uploaded, s.dbPos)
    ensures var levels := s.levels[level := Put(s.levels[level], f)];
            forall l :: 0 <= l <= SNAPSHOT_LEVEL ==> LevelShape(l, levels[l], uploaded, s.dbPos)
  {
  }

  lemma InvUpload(s: State, e: Event)
    requires Inv(s) && e.Upload? && Enabled(s, e)
    ensures Inv(Apply(s, e)) && Uploaded(Apply(s, e)) == Uploaded(s) + 1 && Watermark(Apply(s, e)) == Watermark(s)
  {
    var n := Uploaded(s) + 1;
    var f := FileInfo(0, n, n, e.createdAt);
    MaxAfterPut(s.levels[0], f);
    ShapeAfterPut(s, 0, f, n);
    CoversPut(s.levels[0], f, Watermark(s), n);
  }

  lemma InvCompact(s: State, e: Event)
    requires Inv(s) && e.Compact? && Enabled(s, e)
    ensures Inv(Apply(s, e)) && Uploaded(Apply(s, e)) == Uploaded(s) && Watermark(s) <= Watermark(Apply(s, e))
  {
    var f := FileInfo(e.level, e.lo, e.hi, e.createdAt);
    MaxAfterPut(s.levels[e.level], f);
    ShapeAfterPut(s, e.level, f, Uploaded(s));
    if e.level == 1 {
      CoversPut(s.levels[1], f, NewestSnapshot(s), Larger(Compacted(s), e.hi));
    }
  }

  lemma InvSnapshot(s: State, e: Event)
    requires Inv(s) && e.Snapshot? && Enabled(s, e)
    ensures Inv(Apply(s, e)) && Uploaded(Apply(s, e)) == Uploaded(s) && Watermark(s) <= Watermark(Apply(s, e))
  {
  }

  /** Deletions leave the last upload, the newest snapshot and the watermark where they are. */
  lemma DeleteKeepsPositions(s: State, level: nat, f: FileInfo)
    requires Inv(s) && level <= SNAPSHOT_LEVEL && MayDelete(s, level, f)
    ensures var t := Apply(s, Delete(level, f));
            Uploaded(t) == Uploaded(s) && NewestSnapshot(t) == NewestSnapshot(s) && Watermark(t) == Watermark(s)
  {
  }

  lemma CoversAfterDelete(files: set<FileInfo>, f: FileInfo, lo: TXID, hi: TXID)
    requires Covers(files, lo, hi) && f.maxTXID <= lo
    ensures Covers(files - {f}, lo, hi)
  {
    forall x | lo < x <= hi
      ensures Covered(files - {f}, x)
    {
      assert Covered(files, x);
      var g :| g in files && g.Contains(x);
      assert g in files - {f};
    }
  }

  lemma InvDelete(s: State, level: nat, f: FileInfo)
    requires Inv(s) && level <= SNAPSHOT_LEVEL && MayDelete(s, level, f)
    ensures Inv(Apply(s, Delete(level, f)))
  {
    var t := Apply(s, Delete(level, f));
    DeleteKeepsPositions(s, level, f);
    MaxAfterDelete(s.levels[level], f);
    assert FilesShape(t) by {
      forall l | 0 <= l <= SNAPSHOT_LEVEL
        ensures LevelShape(l, t.levels[l], Uploaded(t), t.dbPos)
      {
        assert LevelShape(l, s.levels[l], Uploaded(s), s.dbPos);
      }
    }
    if level == 0 {
      CoversAfterDelete(s.levels[0], f, Watermark(s), Uploaded(s));
    } else if level == 1 {
      CoversAfterDelete(s.levels[1], f, NewestSnapshot(s), Compacted(s));
    }
  }

  /** Every step keeps the invariant. */
  lemma InvStep(s: State, e: Event)
    requires Inv(s) && Enabled(s, e)
    ensures Inv(Apply(s, e))
  {
    match e
    case Upload(_) => InvUpload(s, e);
    case Compact(_, _, _, _, _) => InvCompact(s, e);
    case Snapshot(_, _, _) => InvSnapshot(s, e);
    case Delete(level, f) => InvDelete(s, level, f);
    case _ =>
  }

  lemma {:induction false} InvRun(s: State, es: seq<Event>, t: State, lossless: bool)
    requires Inv(s) && Runs(s, es, t, lossless)
    ensures Inv(t)
    decreases |es|
  {
    if es != [] {
      InvStep(s, es[0]);
      InvRun(Apply(s, es[0]), es[1..], t, lossless);
    }
  }

  /** Every state reachable from a state with the invariant has it, the initial state among them. */
  lemma ReachableInv(s: State, t: State, lossless: bool)
    requires Inv(s) && Reaches(s, t, lossless)
    ensures Inv(INITIAL) && Inv(t)
  {
    InvInitial();
    var es :| Runs(s, es, t, lossless);
    InvRun(s, es, t, lossless);
  }

  lemma ReachesSelf(s: State, lossless: bool)
    requires Shaped(s)
    ensures Reaches(s, s, lossless)
  {
    assert Runs(s, [], s, lossless);
  }

  lemma ReachesStep(s: State, e: Event, t: State, lossless: bool)
    requires Shaped(s) && Enabled(s, e) && (lossless ==> Lossless(s, e)) && Reaches(Apply(s, e), t, lossless)
    ensures Reaches(s, t, lossless)
  {
    var es :| Runs(Apply(s, e), es, t, lossless);
    assert ([e] + es)[1..] == es;
    assert Runs(s, [e] + es, t, lossless);
  }

  lemma StepReaches(s: State, e: Event, lossless: bool)
    requires Shaped(s) && Enabled(s, e) && (lossless ==> Lossless(s, e))
    ensures Reaches(s, Apply(s, e), lossless)
  {
    ReachesSelf(Apply(s, e), lossless);
    ReachesStep(s, e, Apply(s, e), lossless);
  }

  lemma {:induction false} RunsTransitive(r: State, es: seq<Event>, s: State, fs: seq<Event>, t: State, lossless: bool)
    requires Shaped(r) && Runs(r, es, s, lossless) && Shaped(s) && Runs(s, fs, t, lossless)
    ensures Runs(r, es + fs, t, lossless)
    decreases |es|
  {
    if es == [] {
      assert es + fs == fs;
    } else {
      assert (es + fs)[1..] == es[1..] + fs;
      RunsTransitive(Apply(r, es[0]), es[1..], s, fs, t, lossless);
    }
  }

  lemma ReachesTransitive(r: State, s: State, t: State, lossless: bool)
    requires Shaped(r) && Reaches(r, s, lossless) && Shaped(s) && Reaches(s, t, lossless)
    ensures Reaches(r, t, lossless)
  {
    var es :| Runs(r, es, s, lossless);
    var fs :| Runs(s, fs, t, lossless);
    RunsTransitive(r, es, s, fs, t, lossless);
  }

  // ---------------------------------------------------------------------------------------
  // Decisions may be carried out late

  lemma BeforeTransitive(f: FileInfo, g: FileInfo, k: FileInfo)
    requires Before(f, g) && Before(g, k)
    ensures Before(f, k)
  {
  }

  /** A deletion or a compaction decided on now is still allowed after any other step, so lists
      may be carried out in part, late, and interleaved with everything else. */
  lemma DecisionsStayValid(s: State, e: Event, level: nat, f: FileInfo)
    requires Inv(s) && Enabled(s, e) && level <= SNAPSHOT_LEVEL
    ensures MayDelete(s, level, f) ==> MayDelete(Apply(s, e), level, f)
    ensures forall lo, hi, t, acked :: Enabled(s, Compact(level, lo, hi, t, acked)) ==> Enabled(Apply(s, e), Compact(level, lo, hi, t, acked))
  {
    var t := Apply(s, e);
    match e {
      case Upload(_) => InvUpload(s, e);
      case Compact(_, _, _, _, _) => InvCompact(s, e); PutKeepsNotLast(s.levels[e.level], FileInfo(e.level, e.lo, e.hi, e.createdAt), f);
      case Snapshot(_, _, _) => InvSnapshot(s, e); PutKeepsNotLast(s.levels[SNAPSHOT_LEVEL], FileInfo(SNAPSHOT_LEVEL, 1, e.pos, e.createdAt), f);
      case Delete(l, g) =>
        DeleteKeepsPositions(s, l, g);
        if l == level && level > 0 && NotLast(s.levels[l], f) {
          DeleteKeepsNotLast(s.levels[l], g, f);
        }
      case _ =>
    }
  }

  lemma PutKeepsNotLast(files: set<FileInfo>, f: FileInfo, g: FileInfo)
    ensures NotLast(files, g) ==> NotLast(Put(files, f), g)
    ensures MaxTXID(files) <= MaxTXID(Put(files, f))
  {
  }

  lemma DeleteKeepsNotLast(files: set<FileInfo>, g: FileInfo, f: FileInfo)
    requires NotLast(files, g) && NotLast(files, f)
    ensures NotLast(files - {g}, f)
  {
    var k :| k in files && Before(f, k);
    if k == g {
      var k' :| k' in files && Before(g, k');
      BeforeTransitive(f, g, k');
      assert k' in files - {g};
    } else {
      assert k in files - {g};
    }
  }

  // ---------------------------------------------------------------------------------------
  // Runs without lost compaction responses

  ghost predicate CacheAgrees(s: State)
    requires Shaped(s)
  {
    forall l :: l in s.cache ==> 1 <= l <= SNAPSHOT_LEVEL && s.cache[l] == MaxTXID(s.levels[l])
  }

  ghost predicate StackedAt(s: State, l: nat)
    requires Shaped(s) && 1 <= l < SNAPSHOT_LEVEL
  {
    Stacked(s.levels[l - 1], s.levels[l])
  }

  /** Files above level 0 are disjoint and aligned with the next level, level 0 covers everything behind
      level 1, and every cached maximum is the true one. */
  ghost predicate Exact(s: State) {
    && Inv(s) && CacheAgrees(s)
    && (forall l :: 1 <= l < SNAPSHOT_LEVEL ==> StackedAt(s, l))
    && Covers(s.levels[0], Compacted(s), Uploaded(s))
  }

  /** Moreover level 1 covers everything from the oldest snapshot on. */
  ghost predicate Strict(s: State) {
    Exact(s) && Covers(s.levels[1], Spared(s), Compacted(s))
  }

  /** A file of a disjoint level that is not listed last does not hold the maximum. */
  lemma NotLastIsNotMax(files: set<FileInfo>, f: FileInfo)
    requires Disjoint(files) && f in files && NotLast(files, f)
    requires forall g :: g in files ==> WellFormed(g)
    ensures f.maxTXID < MaxTXID(files)
  {
  }

  lemma StackedAfterDelete(lower: set<FileInfo>, upper: set<FileInfo>, f: FileInfo)
    requires Stacked(lower, upper)
    ensures MaxTXID(lower - {f}) == MaxTXID(lower) ==> Stacked(lower - {f}, upper)
    ensures MaxTXID(upper - {f}) == MaxTXID(upper) ==> Stacked(lower, upper - {f})
  {
  }

  lemma StackedAfterPutBelow(lower: set<FileInfo>, upper: set<FileInfo>, f: FileInfo)
    requires Stacked(lower, upper) && MaxTXID(lower) < f.minTXID <= f.maxTXID
    ensures Stacked(Put(lower, f), upper)
  {
  }

  lemma DeleteKeepsMax(s: State, level: nat, f: FileInfo)
    requires Exact(s) && Lossless(s, Delete(level, f))
    ensures MaxTXID(s.levels[level] - {f}) == MaxTXID(s.levels[level])
  {
    DeleteKeepsPositions(s, level, f);
    MaxAfterDelete(s.levels[level], f);
    if f !in s.levels[level] {
      assert s.levels[level] - {f} == s.levels[level];
    } else if 1 <= level < SNAPSHOT_LEVEL {
      assert StackedAt(s, level);
      assert LevelShape(level, s.levels[level], Uploaded(s), s.dbPos);
      NotLastIsNotMax(s.levels[level], f);
    }
  }

  /** Deleting a file leaves the smallest end where it is, or raises it. */
  lemma MinAfterDelete(files: set<FileInfo>, f: FileInfo)
    requires NotLast(files, f)
    ensures MinEnd(files) <= MinEnd(files - {f})
  {
    var g :| g in files && Before(f, g);
    assert g in files - {f};
  }

  lemma MinAfterPut(files: set<FileInfo>, f: FileInfo)
    ensures MinEnd(Put(files, f)) == if files == {} || f.maxTXID < MinEnd(files) then f.maxTXID else MinEnd(files)
  {
    assert f in Put(files, f);
    if g :| g in files && g.maxTXID == MinEnd(files) {
      assert SameName(g, f) || g in Put(files, f);
    }
  }

  lemma StackedDelete(s: State, level: nat, f: FileInfo, l: nat)
    requires Exact(s) && Lossless(s, Delete(level, f)) && 1 <= l < SNAPSHOT_LEVEL
    ensures StackedAt(Apply(s, Delete(level, f)), l)
  {
    DeleteKeepsMax(s, level, f);
    assert StackedAt(s, l);
    StackedWithout(s.levels, level, f, l);
  }

  lemma StackedWithout(levels: seq<set<FileInfo>>, level: nat, f: FileInfo, l: nat)
    requires 1 <= l < |levels| && level < |levels| && Stacked(levels[l - 1], levels[l])
    requires MaxTXID(levels[level] - {f}) == MaxTXID(levels[level])
    ensures var r := levels[level := levels[level] - {f}]; Stacked(r[l - 1], r[l])
  {
    StackedAfterDelete(levels[l - 1], levels[l], f);
  }

  lemma CacheAfterDelete(s: State, level: nat, f: FileInfo)
    requires Exact(s) && Lossless(s, Delete(level, f))
    ensures CacheAgrees(Apply(s, Delete(level, f)))
  {
    DeleteKeepsMax(s, level, f);
  }

  lemma Level0AfterDelete(s: State, level: nat, f: FileInfo)
    requires Exact(s) && Lossless(s, Delete(level, f))
    ensures var t := Apply(s, Delete(level, f)); Covers(t.levels[0], Compacted(t), Uploaded(t))
  {
    DeleteKeepsMax(s, level, f);
    if level == 0 {
      CoversAfterDelete(s.levels[0], f, Compacted(s), Uploaded(s));
    }
  }

  lemma ExactDelete(s: State, level: nat, f: FileInfo)
    requires Exact(s) && Lossless(s, Delete(level, f))
    ensures Exact(Apply(s, Delete(level, f)))
  {
    InvDelete(s, level, f);
    CacheAfterDelete(s, level, f);
    Level0AfterDelete(s, level, f);
    forall l | 1 <= l < SNAPSHOT_LEVEL
      ensures StackedAt(Apply(s, Delete(level, f)), l)
    {
      StackedDelete(s, level, f, l);
    }
  }

  lemma StackedAfterCompact(s: State, level: nat, f: FileInfo, l: nat)
    requires Shaped(s) && 1 <= l < SNAPSHOT_LEVEL && 1 <= level < SNAPSHOT_LEVEL
    requires Stacked(s.levels[l - 1], s.levels[l])
    requires MaxTXID(s.levels[level]) < f.minTXID <= f.maxTXID <= MaxTXID(s.levels[level - 1])
    requires Aligned(s.levels[level - 1], f.maxTXID)
    ensures var levels := s.levels[level := Put(s.levels[level], f)];
            Stacked(levels[l - 1], levels[l])
  {
  }

  lemma StackedCompact(s: State, e: Event)
    requires Exact(s) && e.Compact? && Lossless(s, e)
    ensures forall l :: 1 <= l < SNAPSHOT_LEVEL ==> StackedAt(Apply(s, e), l)
  {
    forall l | 1 <= l < SNAPSHOT_LEVEL
      ensures StackedAt(Apply(s, e), l)
    {
      assert StackedAt(s, l);
      StackedAfterCompact(s, e.level, FileInfo(e.level, e.lo, e.hi, e.createdAt), l);
    }
  }

  lemma ExactCompact(s: State, e: Event)
    requires Exact(s) && e.Compact? && Lossless(s, e)
    ensures Exact(Apply(s, e))
  {
    InvCompact(s, e);
    MaxAfterPut(s.levels[e.level], FileInfo(e.level, e.lo, e.hi, e.createdAt));
    StackedCompact(s, e);
  }

  lemma ExactUpload(s: State, e: Event)
    requires Exact(s) && e.Upload? && Lossless(s, e)
    ensures Exact(Apply(s, e))
  {
    var t := Apply(s, e);
    var n := Uploaded(s) + 1;
    InvUpload(s, e);
    CoversPut(s.levels[0], FileInfo(0, n, n, e.createdAt), Compacted(s), n);
    forall l | 1 <= l < SNAPSHOT_LEVEL
      ensures StackedAt(t, l)
    {
      assert StackedAt(s, l);
      if l == 1 {
        StackedAfterPutBelow(s.levels[0], s.levels[1], FileInfo(0, n, n, e.createdAt));
      }
    }
  }

  lemma ExactSnapshot(s: State, e: Event)
    requires Exact(s) && e.Snapshot? && Lossless(s, e)
    ensures Exact(Apply(s, e))
  {
    var t := Apply(s, e);
    InvSnapshot(s, e);
    MaxAfterPut(s.levels[SNAPSHOT_LEVEL], FileInfo(SNAPSHOT_LEVEL, 1, e.pos, e.createdAt));
    forall l | 1 <= l < SNAPSHOT_LEVEL
      ensures StackedAt(t, l)
    {
      assert StackedAt(s, l);
    }
  }

  lemma ExactStep(s: State, e: Event)
    requires Exact(s) && Lossless(s, e)
    ensures Exact(Apply(s, e))
  {
    match e
    case Upload(_) => ExactUpload(s, e);
    case Compact(_, _, _, _, _) => ExactCompact(s, e);
    case Snapshot(_, _, _) => ExactSnapshot(s, e);
    case Delete(level, f) => ExactDelete(s, level, f);
    case _ =>
      InvStep(s, e);
      forall l | 1 <= l < SNAPSHOT_LEVEL
        ensures StackedAt(Apply(s, e), l)
      {
        assert StackedAt(s, l);
      }
  }

  lemma SparedDelete(s: State, level: nat, f: FileInfo)
    requires Strict(s) && Lossless(s, Delete(level, f))
    ensures var t := Apply(s, Delete(level, f)); Covers(t.levels[1], Spared(t), Compacted(t))
  {
    DeleteKeepsMax(s, level, f);
    if level == 1 {
      CoversAfterDelete(s.levels[1], f, Spared(s), Compacted(s));
    } else if level == SNAPSHOT_LEVEL {
      MinAfterDelete(s.levels[level], f);
    }
  }

  /** Level 1 keeps covering everything from the oldest snapshot on. */
  lemma SparedStep(s: State, e: Event)
    requires Strict(s) && Lossless(s, e)
    ensures Covers(Apply(s, e).levels[1], Spared(Apply(s, e)), Compacted(Apply(s, e)))
  {
    match e
    case Compact(level, lo, hi, t, _) =>
      if level == 1 {
        MaxAfterPut(s.levels[1], FileInfo(1, lo, hi, t));
        CoversPut(s.levels[1], FileInfo(1, lo, hi, t), Spared(s), hi);
      }
    case Snapshot(pos, t, _) =>
      MinAfterPut(s.levels[SNAPSHOT_LEVEL], FileInfo(SNAPSHOT_LEVEL, 1, pos, t));
    case Delete(level, f) => SparedDelete(s, level, f);
    case _ =>
  }

  /** Files stay disjoint above level 0, never straddle the end of the next level, the cached maxima
      stay exact, and level 1 keeps covering everything from the oldest snapshot on. */
  lemma StrictStep(s: State, e: Event)
    requires Strict(s) && Lossless(s, e)
    ensures Strict(Apply(s, e))
  {
    ExactStep(s, e);
    SparedStep(s, e);
  }

  /** A lossless deletion stays lossless after any other lossless step. */
  lemma DeletionMayWait(s: State, e: Event, level: nat, f: FileInfo)
    requires Strict(s) && Lossless(s, e) && Lossless(s, Delete(level, f))
    ensures Lossless(Apply(s, e), Delete(level, f))
  {
    DecisionsStayValid(s, e, level, f);
    match e
    case Compact(l, lo, hi, t, _) => MaxAfterPut(s.levels[l], FileInfo(l, lo, hi, t));
    case Snapshot(pos, t, _) => MinAfterPut(s.levels[SNAPSHOT_LEVEL], FileInfo(SNAPSHOT_LEVEL, 1, pos, t));
    case Delete(l, g) =>
      DeleteKeepsMax(s, l, g);
      if l == SNAPSHOT_LEVEL {
        MinAfterDelete(s.levels[l], g);
      }
    case _ =>
  }

  /** A file over lo..hi follows the upper level, and the lower one can be cut behind it. */
  ghost predicate Fits(lower: set<FileInfo>, upper: set<FileInfo>, lo: TXID, hi: TXID) {
    MaxTXID(upper) < lo && hi <= MaxTXID(lower) && Aligned(lower, hi)
  }

  lemma FitsAfterPutBelow(lower: set<FileInfo>, upper: set<FileInfo>, lo: TXID, hi: TXID, f: FileInfo)
    requires Fits(lower, upper, lo, hi) && MaxTXID(lower) < f.minTXID <= f.maxTXID
    ensures Fits(Put(lower, f), upper, lo, hi)
  {
    MaxAfterPut(lower, f);
  }

  lemma FitsStays(s: State, e: Event, level: nat, lo: TXID, hi: TXID)
    requires Strict(s) && Lossless(s, e) && 1 <= level < SNAPSHOT_LEVEL && !(e.Compact? && e.level == level)
    requires Fits(s.levels[level - 1], s.levels[level], lo, hi)
    ensures Fits(Apply(s, e).levels[level - 1], Apply(s, e).levels[level], lo, hi)
  {
    match e
    case Upload(t) =>
      if level == 1 {
        FitsAfterPutBelow(s.levels[0], s.levels[1], lo, hi, FileInfo(0, Uploaded(s) + 1, Uploaded(s) + 1, t));
      }
    case Compact(l, a, b, t, _) =>
      if l == level - 1 {
        FitsAfterPutBelow(s.levels[l], s.levels[level], lo, hi, FileInfo(l, a, b, t));
      }
    case Delete(l, g) =>
      DeleteKeepsMax(s, l, g);
      FitsWithout(s.levels, l, g, level, lo, hi);
    case _ =>
  }

  lemma FitsWithout(levels: seq<set<FileInfo>>, l: nat, g: FileInfo, level: nat, lo: TXID, hi: TXID)
    requires 1 <= level < |levels| && l < |levels| && Fits(levels[level - 1], levels[level], lo, hi)
    requires MaxTXID(levels[l] - {g}) == MaxTXID(levels[l])
    ensures var r := levels[l := levels[l] - {g}]; Fits(r[level - 1], r[level], lo, hi)
  {
  }

  /** A lossless compaction stays lossless after any lossless step that does not compact into the same
      level, although the files were listed before that step and are written after it. */
  lemma CompactionMayWait(s: State, e: Event, c: Event)
    requires Strict(s) && Lossless(s, e) && c.Compact? && Lossless(s, c)
    requires !(e.Compact? && e.level == c.level)
    ensures Lossless(Apply(s, e), c)
  {
    DecisionsStayValid(s, e, c.level, FileInfo(c.level, c.lo, c.hi, c.createdAt));
    FitsStays(s, e, c.level, c.lo, c.hi);
    if c.level == 1 {
      CompactedOnlyByCompaction(s, e);
    }
  }

  lemma CompactedOnlyByCompaction(s: State, e: Event)
    requires Strict(s) && Lossless(s, e) && !(e.Compact? && e.level == 1)
    ensures Compacted(Apply(s, e)) == Compacted(s)
  {
    if e.Delete? {
      DeleteKeepsMax(s, e.level, e.f);
    }
  }

  /** No compaction into this level among the events. */
  predicate Spares(es: seq<Event>, level: nat) {
    forall i :: 0 <= i < |es| ==> !(es[i].Compact? && es[i].level == level)
  }

  /** So a deletion decided in one state may be carried out in any later one. */
  lemma {:induction false} DeletionsMayWait(s: State, es: seq<Event>, t: State, level: nat, f: FileInfo)
    requires Strict(s) && Runs(s, es, t, true) && Lossless(s, Delete(level, f))
    ensures Shaped(t) && Lossless(t, Delete(level, f))
    decreases |es|
  {
    if es != [] {
      StrictStep(s, es[0]);
      DeletionMayWait(s, es[0], level, f);
      DeletionsMayWait(Apply(s, es[0]), es[1..], t, level, f);
    }
  }

  /** And a compaction too, while nothing else is compacted into its level. */
  lemma {:induction false} CompactionsMayWait(s: State, es: seq<Event>, t: State, c: Event)
    requires Strict(s) && Runs(s, es, t, true) && c.Compact? && Lossless(s, c) && Spares(es, c.level)
    ensures Shaped(t) && Lossless(t, c)
    decreases |es|
  {
    if es != [] {
      StrictStep(s, es[0]);
      CompactionMayWait(s, es[0], c);
      CompactionsMayWait(Apply(s, es[0]), es[1..], t, c);
    }
  }

  lemma StrictInitial()
    ensures Strict(INITIAL)
  {
  }

  lemma {:induction false} StrictRun(s: State, es: seq<Event>, t: State)
    requires Strict(s) && Runs(s, es, t, true)
    ensures Strict(t)
    decreases |es|
  {
    if es != [] {
      StrictStep(s, es[0]);
      StrictRun(Apply(s, es[0]), es[1..], t);
    }
  }

  /** In every state that a lossless run reaches, files above level 0 are disjoint and aligned with
      the next level, and every cached maximum is the true one. */
  lemma LosslessStrict(t: State)
    requires Reaches(INITIAL, t, true)
    ensures Strict(t)
  {
    StrictInitial();
    StrictReaches(INITIAL, t);
  }

  lemma {:induction false} LosslessRunIsRun(s: State, es: seq<Event>, t: State)
    requires Shaped(s) && Runs(s, es, t, true)
    ensures Runs(s, es, t, false)
    decreases |es|
  {
    if es != [] {
      LosslessRunIsRun(Apply(s, es[0]), es[1..], t);
    }
  }

  lemma LosslessReaches(s: State, t: State)
    requires Shaped(s) && Reaches(s, t, true)
    ensures Reaches(s, t, false)
  {
    var es :| Runs(s, es, t, true);
    LosslessRunIsRun(s, es, t);
  }

  lemma StrictReaches(s: State, t: State)
    requires Strict(s) && Reaches(s, t, true)
    ensures Strict(t)
  {
    var es :| Runs(s, es, t, true);
    StrictRun(s, es, t);
  }
}
