/** Cached maxima when responses to compactions get lost. A process may believe that a level ends
    earlier than it does, and compact the same files again, but never that it ends later: the last file
    of a listing, which no deletion removes, always ends last in its level. */
module CacheBound {
  import opened Ltx
  import opened ReplicaMachine

  /** Where a level ends as far as the process knows. */
  ghost function Believed(s: State, level: nat): TXID
    requires Shaped(s) && level <= SNAPSHOT_LEVEL
  {
    if level in s.cache then s.cache[level] else MaxTXID(s.levels[level])
  }

  /** The files of a level that start at transaction t or later. */
  ghost function From(files: set<FileInfo>, t: TXID): set<FileInfo> {
    set f | f in files && t <= f.minTXID
  }

  /** The compaction planned from what is listed now: all files behind the believed end. */
  ghost predicate Planned(s: State, e: Event)
    requires Shaped(s) && e.Compact? && Enabled(s, e)
  {
    PlannedFrom(s.levels[e.level - 1], Believed(s, e.level), e.lo, e.hi)
  }

  ghost predicate PlannedFrom(lower: set<FileInfo>, believed: TXID, lo: TXID, hi: TXID) {
    var src := From(lower, believed + 1);
    hi == MaxTXID(src) && (exists f :: f in src && f.minTXID == lo) && forall f :: f in src ==> lo <= f.minTXID
  }

  /** A file that starts later than another ends no earlier. */
  ghost predicate Ascending(files: set<FileInfo>) {
    forall f, g :: f in files && g in files && f.minTXID < g.minTXID ==> f.maxTXID <= g.maxTXID
  }

  /** Some file starts at t or later. */
  ghost predicate StartsBy(files: set<FileInfo>, t: TXID) {
    exists f :: f in files && t <= f.minTXID
  }

  /** Every file behind the believed end starts at t or later. */
  ghost predicate NoneBefore(files: set<FileInfo>, believed: TXID, t: TXID) {
    forall f :: f in files && believed < f.minTXID ==> t <= f.minTXID
  }

  /** A file over lo..hi may be stored above this level. */
  ghost predicate Supports(lower: set<FileInfo>, believed: TXID, lo: TXID, hi: TXID) {
    hi <= MaxTXID(lower) && StartsBy(lower, lo) && NoneBefore(lower, believed, lo)
  }

  ghost predicate SupportsAll(lower: set<FileInfo>, believed: TXID, upper: set<FileInfo>) {
    forall g :: g in upper ==> Supports(lower, believed, g.minTXID, g.maxTXID)
  }

  /** A file over lo..hi is no step back in its level. */
  ghost predicate Follows(files: set<FileInfo>, lo: TXID, hi: TXID) {
    forall g :: g in files ==> g.minTXID <= lo && g.maxTXID <= hi
  }

  /** What is left of a plan when it is carried out, maybe much later. */
  ghost predicate Onward(s: State, e: Event)
    requires Shaped(s) && Enabled(s, e)
  {
    e.Compact? ==>
      && Follows(s.levels[e.level], e.lo, e.hi)
      && Supports(s.levels[e.level - 1], Believed(s, e.level), e.lo, e.hi)
  }

  ghost predicate CacheBelow(s: State)
    requires Shaped(s)
  {
    forall l :: l in s.cache ==> 1 <= l <= SNAPSHOT_LEVEL && s.cache[l] <= MaxTXID(s.levels[l])
  }

  ghost predicate SupportedAt(s: State, l: nat)
    requires Shaped(s) && 1 <= l < SNAPSHOT_LEVEL
  {
    SupportsAll(s.levels[l - 1], Believed(s, l), s.levels[l])
  }

  /** No cached maximum is beyond the true one, and the files of each level ascend. */
  ghost predicate Tidy(s: State) {
    && Inv(s) && CacheBelow(s)
    && (forall l :: 0 <= l <= SNAPSHOT_LEVEL ==> Ascending(s.levels[l]))
    && (forall l :: 1 <= l < SNAPSHOT_LEVEL ==> SupportedAt(s, l))
  }

  // ---------------------------------------------------------------------------------------
  // One level

  lemma AscendingAfterPut(files: set<FileInfo>, f: FileInfo)
    requires Ascending(files) && Follows(files, f.minTXID, f.maxTXID)
    ensures Ascending(Put(files, f))
  {
  }

  /** A file that is not listed last does not alone hold the maximum. */
  lemma NotLastIsSpared(files: set<FileInfo>, f: FileInfo)
    requires Ascending(files) && NotLast(files, f)
    ensures MaxTXID(files - {f}) == MaxTXID(files)
  {
    var g :| g in files && Before(f, g);
    assert g in files - {f};
    if f in files {
      assert f.maxTXID <= g.maxTXID;
      if m :| m in files && m.maxTXID == MaxTXID(files) {
        assert m == f || m in files - {f};
      }
    } else {
      assert files - {f} == files;
    }
  }

  lemma SupportsAfterPut(lower: set<FileInfo>, f: FileInfo, believed: TXID, lo: TXID, hi: TXID)
    requires Supports(lower, believed, lo, hi) && Follows(lower, f.minTXID, f.maxTXID)
    ensures Supports(Put(lower, f), believed, lo, hi)
  {
    var w :| w in lower && lo <= w.minTXID;
    assert f in Put(lower, f) && lo <= f.minTXID;
    MaxAfterPut(lower, f);
  }

  lemma SupportsAfterDelete(lower: set<FileInfo>, f: FileInfo, believed: TXID, lo: TXID, hi: TXID)
    requires Supports(lower, believed, lo, hi) && NotLast(lower, f) && MaxTXID(lower - {f}) == MaxTXID(lower)
    ensures Supports(lower - {f}, believed, lo, hi)
  {
    var w :| w in lower && lo <= w.minTXID;
    var g :| g in lower && Before(f, g);
    assert g in lower - {f};
    assert if w == f then lo <= g.minTXID else w in lower - {f};
  }

  /** What may be deleted is not listed last, also at level 0. */
  lemma DeletedIsNotLast(s: State, level: nat, f: FileInfo)
    requires Inv(s) && level <= SNAPSHOT_LEVEL && MayDelete(s, level, f) && f in s.levels[level]
    ensures NotLast(s.levels[level], f)
  {
    if level == 0 {
      assert LevelShape(0, s.levels[0], Uploaded(s), s.dbPos);
      var g :| g in s.levels[0] && g.maxTXID == Uploaded(s);
      assert FileShape(0, f, Uploaded(s), s.dbPos) && FileShape(0, g, Uploaded(s), s.dbPos);
      assert Before(f, g);
    }
  }

  // ---------------------------------------------------------------------------------------
  // Plans

  /** Among the files behind a point is the one that ends last. */
  lemma HighestIsBehind(files: set<FileInfo>, t: TXID, src: set<FileInfo>)
    requires Ascending(files) && src == From(files, t + 1) && src != {}
    ensures MaxTXID(src) == MaxTXID(files)
  {
    var f :| f in src;
    if m :| m in files && m.maxTXID == MaxTXID(files) {
      if m !in src {
        assert m.minTXID < f.minTXID;
      }
    }
  }

  lemma PlanFits(lower: set<FileInfo>, upper: set<FileInfo>, believed: TXID, lo: TXID, hi: TXID)
    requires Ascending(lower) && SupportsAll(lower, believed, upper) && PlannedFrom(lower, believed, lo, hi)
    ensures Follows(upper, lo, hi) && Supports(lower, believed, lo, hi)
  {
    var src := From(lower, believed + 1);
    var first :| first in src && first.minTXID == lo;
    HighestIsBehind(lower, believed, src);
    forall g | g in upper
      ensures g.minTXID <= lo && g.maxTXID <= hi
    {
      assert Supports(lower, believed, g.minTXID, g.maxTXID);
    }
  }

  /** A compaction planned from what is listed now is a step onward. */
  lemma PlannedIsOnward(s: State, e: Event)
    requires Tidy(s) && e.Compact? && Enabled(s, e) && Planned(s, e)
    ensures Onward(s, e)
  {
    assert SupportedAt(s, e.level);
    PlanFits(s.levels[e.level - 1], s.levels[e.level], Believed(s, e.level), e.lo, e.hi);
  }

  lemma MaxStays(s: State, level: nat, f: FileInfo)
    requires Tidy(s) && level <= SNAPSHOT_LEVEL && MayDelete(s, level, f)
    ensures MaxTXID(s.levels[level] - {f}) == MaxTXID(s.levels[level])
  {
    if f in s.levels[level] {
      DeletedIsNotLast(s, level, f);
      NotLastIsSpared(s.levels[level], f);
    } else {
      assert s.levels[level] - {f} == s.levels[level];
    }
  }

  /** The file that a step stores, if it stores one. */
  ghost function Stored(s: State, e: Event): Option<FileInfo>
    requires Shaped(s)
  {
    match e
    case Upload(t) => Some(FileInfo(0, Uploaded(s) + 1, Uploaded(s) + 1, t))
    case Compact(level, lo, hi, t, _) => Some(FileInfo(level, lo, hi, t))
    case Snapshot(pos, t, _) => Some(FileInfo(SNAPSHOT_LEVEL, 1, pos, t))
    case _ => None
  }

  /** Each level stays, gains the stored file or loses the deleted one. */
  lemma LevelAfter(s: State, e: Event, l: nat)
    requires Shaped(s) && Enabled(s, e) && l <= SNAPSHOT_LEVEL
    ensures Stored(s, e).Some? ==> Stored(s, e).value.level <= SNAPSHOT_LEVEL
    ensures Apply(s, e).levels[l] ==
            if Stored(s, e).Some? && Stored(s, e).value.level == l then Put(s.levels[l], Stored(s, e).value)
            else if e.Delete? && e.level == l then s.levels[l] - {e.f}
            else s.levels[l]
  {
  }

  /** No level ever ends earlier than before. */
  lemma MaxGrows(s: State, e: Event, l: nat)
    requires Tidy(s) && Enabled(s, e) && l <= SNAPSHOT_LEVEL
    ensures MaxTXID(s.levels[l]) <= MaxTXID(Apply(s, e).levels[l])
    ensures Stored(s, e).Some? && Stored(s, e).value.level == l ==> Stored(s, e).value.maxTXID <= MaxTXID(Apply(s, e).levels[l])
  {
    LevelAfter(s, e, l);
    if Stored(s, e).Some? {
      MaxAfterPut(s.levels[l], Stored(s, e).value);
    }
    if e.Delete? && e.level == l {
      MaxStays(s, l, e.f);
    }
  }

  /** The cached maximum of a level stays, is forgotten, or is set to the true one or to the end of the stored file. */
  lemma CacheAfter(s: State, e: Event, l: nat)
    requires Shaped(s) && Enabled(s, e) && l in Apply(s, e).cache
    ensures var c := Apply(s, e).cache[l];
            || (l in s.cache && c == s.cache[l])
            || (1 <= l <= SNAPSHOT_LEVEL && c == MaxTXID(s.levels[l]))
            || (1 <= l <= SNAPSHOT_LEVEL && Stored(s, e).Some? && Stored(s, e).value.level == l && c == Stored(s, e).value.maxTXID)
  {
  }

  lemma CacheBelowStep(s: State, e: Event)
    requires Tidy(s) && Enabled(s, e)
    ensures CacheBelow(Apply(s, e))
  {
    forall l | l in Apply(s, e).cache
      ensures 1 <= l <= SNAPSHOT_LEVEL && Apply(s, e).cache[l] <= MaxTXID(Apply(s, e).levels[l])
    {
      CacheAfter(s, e, l);
      MaxGrows(s, e, l);
    }
  }

  /** What the process believes a compaction level to reach does not fall. */
  lemma BelievedGrows(s: State, e: Event, l: nat)
    requires Tidy(s) && Enabled(s, e) && Onward(s, e) && 1 <= l < SNAPSHOT_LEVEL
    ensures Believed(s, l) <= Believed(Apply(s, e), l)
  {
    MaxGrows(s, e, l);
    if l in Apply(s, e).cache {
      CacheAfter(s, e, l);
    }
  }

  lemma UploadFollows(s: State)
    requires Inv(s)
    ensures Follows(s.levels[0], Uploaded(s) + 1, Uploaded(s) + 1)
  {
    assert LevelShape(0, s.levels[0], Uploaded(s), s.dbPos);
  }

  /** What a step stores below the snapshots is no step back in its level. */
  lemma StoredFollows(s: State, e: Event)
    requires Tidy(s) && Enabled(s, e) && Onward(s, e) && !e.Snapshot? && Stored(s, e).Some?
    ensures var f := Stored(s, e).value; f.level < SNAPSHOT_LEVEL && Follows(s.levels[f.level], f.minTXID, f.maxTXID)
  {
    UploadFollows(s);
  }

  lemma AscendingStep(s: State, e: Event, l: nat)
    requires Tidy(s) && Enabled(s, e) && Onward(s, e) && l <= SNAPSHOT_LEVEL
    ensures Ascending(Apply(s, e).levels[l])
  {
    LevelAfter(s, e, l);
    if e.Snapshot? {
      assert LevelShape(SNAPSHOT_LEVEL, s.levels[SNAPSHOT_LEVEL], Uploaded(s), s.dbPos);
    } else if Stored(s, e).Some? {
      StoredFollows(s, e);
      AscendingAfterPut(s.levels[Stored(s, e).value.level], Stored(s, e).value);
    }
  }

  lemma SupportsMore(lower: set<FileInfo>, believed: TXID, believed': TXID, lo: TXID, hi: TXID)
    requires Supports(lower, believed, lo, hi) && believed <= believed'
    ensures Supports(lower, believed', lo, hi)
  {
  }

  lemma SupportsAfterStore(s: State, e: Event, l: nat, believed: TXID, lo: TXID, hi: TXID)
    requires Tidy(s) && Enabled(s, e) && Onward(s, e) && l < SNAPSHOT_LEVEL
    requires Stored(s, e).Some? && Stored(s, e).value.level == l && Supports(s.levels[l], believed, lo, hi)
    ensures Supports(Put(s.levels[l], Stored(s, e).value), believed, lo, hi)
  {
    StoredFollows(s, e);
    SupportsAfterPut(s.levels[l], Stored(s, e).value, believed, lo, hi);
  }

  lemma SupportsWithout(s: State, l: nat, f: FileInfo, believed: TXID, lo: TXID, hi: TXID)
    requires Tidy(s) && l < SNAPSHOT_LEVEL && MayDelete(s, l, f) && Supports(s.levels[l], believed, lo, hi)
    ensures Supports(s.levels[l] - {f}, believed, lo, hi)
  {
    MaxStays(s, l, f);
    if f in s.levels[l] {
      DeletedIsNotLast(s, l, f);
      SupportsAfterDelete(s.levels[l], f, believed, lo, hi);
    } else {
      assert s.levels[l] - {f} == s.levels[l];
    }
  }

  lemma SupportsLevel(s: State, e: Event, l: nat, believed: TXID, lo: TXID, hi: TXID)
    requires Tidy(s) && Enabled(s, e) && Onward(s, e) && l < SNAPSHOT_LEVEL && Supports(s.levels[l], believed, lo, hi)
    ensures Supports(Apply(s, e).levels[l], believed, lo, hi)
  {
    LevelAfter(s, e, l);
    if Stored(s, e).Some? && Stored(s, e).value.level == l {
      SupportsAfterStore(s, e, l, believed, lo, hi);
    } else if e.Delete? && e.level == l {
      SupportsWithout(s, l, e.f, believed, lo, hi);
    }
  }

  /** A file that a level supports stays supported. */
  lemma SupportsStep(s: State, e: Event, l: nat, lo: TXID, hi: TXID)
    requires Tidy(s) && Enabled(s, e) && Onward(s, e) && 1 <= l < SNAPSHOT_LEVEL
    requires Supports(s.levels[l - 1], Believed(s, l), lo, hi)
    ensures Supports(Apply(s, e).levels[l - 1], Believed(Apply(s, e), l), lo, hi)
  {
    SupportsLevel(s, e, l - 1, Believed(s, l), lo, hi);
    BelievedGrows(s, e, l);
    SupportsMore(Apply(s, e).levels[l - 1], Believed(s, l), Believed(Apply(s, e), l), lo, hi);
  }

  /** Every file of a level, the one just stored included, was supported before the step. */
  lemma SupportedBefore(s: State, e: Event, l: nat, g: FileInfo)
    requires Shaped(s) && Enabled(s, e) && Onward(s, e) && 1 <= l < SNAPSHOT_LEVEL && SupportedAt(s, l) && g in Apply(s, e).levels[l]
    ensures Supports(s.levels[l - 1], Believed(s, l), g.minTXID, g.maxTXID)
  {
    if g !in s.levels[l] {
      NewFile(s, e, l, g);
    }
  }

  lemma NewFile(s: State, e: Event, l: nat, g: FileInfo)
    requires Shaped(s) && Enabled(s, e) && 1 <= l < SNAPSHOT_LEVEL && g in Apply(s, e).levels[l] && g !in s.levels[l]
    ensures e.Compact? && e.level == l && g == FileInfo(l, e.lo, e.hi, e.createdAt)
  {
    LevelAfter(s, e, l);
  }

  lemma SupportedStep(s: State, e: Event, l: nat)
    requires Tidy(s) && Enabled(s, e) && Onward(s, e) && 1 <= l < SNAPSHOT_LEVEL
    ensures SupportedAt(Apply(s, e), l)
  {
    var t := Apply(s, e);
    assert SupportedAt(s, l);
    forall g | g in t.levels[l]
      ensures Supports(t.levels[l - 1], Believed(t, l), g.minTXID, g.maxTXID)
    {
      SupportedBefore(s, e, l, g);
      SupportsStep(s, e, l, g.minTXID, g.maxTXID);
    }
  }

  /** Every step keeps this, if compactions go onward. */
  lemma TidyStep(s: State, e: Event)
    requires Tidy(s) && Enabled(s, e) && Onward(s, e)
    ensures Tidy(Apply(s, e))
  {
    InvStep(s, e);
    CacheBelowStep(s, e);
    forall l | 0 <= l <= SNAPSHOT_LEVEL
      ensures Ascending(Apply(s, e).levels[l])
    {
      AscendingStep(s, e, l);
    }
    forall l | 1 <= l < SNAPSHOT_LEVEL
      ensures SupportedAt(Apply(s, e), l)
    {
      SupportedStep(s, e, l);
    }
  }

  // ---------------------------------------------------------------------------------------
  // Runs

  /** A planned compaction may be carried out after any other step that is not a compaction into its level. */
  lemma OnwardMayWait(s: State, e: Event, c: Event)
    requires Tidy(s) && Enabled(s, e) && Onward(s, e) && c.Compact? && Enabled(s, c) && Onward(s, c)
    requires !(e.Compact? && e.level == c.level)
    ensures Enabled(Apply(s, e), c) && Onward(Apply(s, e), c)
  {
    DecisionsStayValid(s, e, c.level, FileInfo(c.level, c.lo, c.hi, c.createdAt));
    SupportsStep(s, e, c.level, c.lo, c.hi);
    LevelAfter(s, e, c.level);
  }

  /** Every compaction of the run is as it was planned from some listing. */
  ghost predicate Proceeds(s: State, es: seq<Event>, t: State)
    requires Shaped(s)
    decreases |es|
  {
    if es == [] then s == t
    else Enabled(s, es[0]) && Onward(s, es[0]) && Proceeds(Apply(s, es[0]), es[1..], t)
  }

  lemma TidyInitial()
    ensures Tidy(INITIAL)
  {
    InvInitial();
  }

  lemma {:induction false} TidyRun(s: State, es: seq<Event>, t: State)
    requires Tidy(s) && Proceeds(s, es, t)
    ensures Tidy(t)
    decreases |es|
  {
    if es != [] {
      TidyStep(s, es[0]);
      TidyRun(Apply(s, es[0]), es[1..], t);
    }
  }

  /** Whatever responses get lost: no cached maximum is ever beyond the true one, and the file that
      retention spares in each level, the last of its listing, is one that holds the maximum. */
  lemma CacheNeverAhead(es: seq<Event>, t: State)
    requires Proceeds(INITIAL, es, t)
    ensures Shaped(t) && CacheBelow(t)
    ensures forall l, f, g :: 0 <= l <= SNAPSHOT_LEVEL && f in t.levels[l] && g in t.levels[l] && FilenameOrder(f, g) ==> f.maxTXID <= g.maxTXID
  {
    TidyInitial();
    TidyRun(INITIAL, es, t);
    forall l, f, g | 0 <= l <= SNAPSHOT_LEVEL && f in t.levels[l] && g in t.levels[l] && FilenameOrder(f, g)
      ensures f.maxTXID <= g.maxTXID
    {
      assert Ascending(t.levels[l]);
    }
  }
}
