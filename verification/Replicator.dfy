/** The writing side of a replica: uploads, compactions, snapshots and retention, as methods of one
    process over the stored listings. Each method is a run of the state machine in ReplicaMachine. */
module Replicator {
  import opened Ltx
  import opened ReplicaMachine
  import opened CacheBound
  import PageImage

  // ---------------------------------------------------------------------------------------
  // Listings

  ghost predicate StrictlySorted(s: seq<FileInfo>) {
    forall i, j {:trigger s[i], s[j]} :: 0 <= i < j < |s| ==> Before(s[i], s[j])
  }

  function FilesOf(s: seq<FileInfo>): set<FileInfo> {
    set f | f in s
  }

  /** Stores f in a listing, replacing a file of the same name. */
  function Insert(s: seq<FileInfo>, f: FileInfo): seq<FileInfo> {
    if s == [] then [f]
    else if SameName(s[0], f) then [f] + s[1..]
    else if Before(f, s[0]) then [f] + s
    else [s[0]] + Insert(s[1..], f)
  }

  lemma {:induction false} InsertSorted(s: seq<FileInfo>, f: FileInfo)
    requires StrictlySorted(s)
    ensures StrictlySorted(Insert(s, f)) && FilesOf(Insert(s, f)) == Put(FilesOf(s), f)
  {
    var r := Insert(s, f);
    if s != [] {
      var rest := s[1..];
      assert s == [s[0]] + rest;
      InsertSorted(rest, f);
      if !SameName(s[0], f) && !Before(f, s[0]) {
        assert FilesOf(r) == {s[0]} + FilesOf(Insert(rest, f));
        assert FilesOf(s) == {s[0]} + FilesOf(rest);
        forall j | 0 < j < |r|
          ensures Before(r[0], r[j])
        {
          assert r[j] in FilesOf(Insert(rest, f));
        }
      } else {
        forall g | g in rest
          ensures !SameName(g, f)
        {
          assert Before(s[0], g);
        }
        assert FilesOf(s) == {s[0]} + FilesOf(rest);
      }
    }
  }

  lemma {:induction false} InsertLast(s: seq<FileInfo>, f: FileInfo)
    requires forall i :: 0 <= i < |s| ==> Before(s[i], f)
    ensures Insert(s, f) == s + [f]
  {
    if s != [] {
      InsertLast(s[1..], f);
    }
  }

  function Remove(s: seq<FileInfo>, d: set<FileInfo>): seq<FileInfo> {
    if s == [] then [] else (if s[0] in d then [] else [s[0]]) + Remove(s[1..], d)
  }

  lemma {:induction false} RemoveMembers(s: seq<FileInfo>, d: set<FileInfo>)
    ensures forall f :: f in Remove(s, d) <==> f in s && f !in d
  {
    if s != [] {
      RemoveMembers(s[1..], d);
    }
  }

  lemma {:induction false} RemoveSorted(s: seq<FileInfo>, d: set<FileInfo>)
    requires StrictlySorted(s)
    ensures StrictlySorted(Remove(s, d)) && FilesOf(Remove(s, d)) == FilesOf(s) - d
  {
    if s != [] {
      var rest := Remove(s[1..], d);
      RemoveSorted(s[1..], d);
      RemoveMembers(s[1..], d);
      forall f | f in rest
        ensures Before(s[0], f)
      {
        assert f in s[1..];
      }
    }
  }

  /** Consecutive files are adjacent. */
  ghost predicate Gapless(s: seq<FileInfo>) {
    forall i :: 1 <= i < |s| ==> AdjacentAt(s, i)
  }

  predicate AdjacentAt(s: seq<FileInfo>, i: nat)
    requires 1 <= i < |s|
  {
    s[i].minTXID == s[i - 1].maxTXID + 1
  }

  lemma GaplessIs(s: seq<FileInfo>)
    ensures Gapless(s) <==> forall i :: 1 <= i < |s| ==> s[i].minTXID == s[i - 1].maxTXID + 1
  {
    if forall i :: 1 <= i < |s| ==> s[i].minTXID == s[i - 1].maxTXID + 1 {
      forall i | 1 <= i < |s|
        ensures AdjacentAt(s, i)
      {
      }
    } else {
      var i :| 1 <= i < |s| && s[i].minTXID != s[i - 1].maxTXID + 1;
      assert !AdjacentAt(s, i);
    }
  }

  lemma GaplessSlice(s: seq<FileInfo>, i: nat, j: nat)
    requires Gapless(s) && i <= j <= |s|
    ensures Gapless(s[i..j])
  {
    forall k | 1 <= k < j - i
      ensures AdjacentAt(s[i..j], k)
    {
      assert AdjacentAt(s, i + k);
    }
  }

  lemma GaplessAppend(s: seq<FileInfo>, f: FileInfo)
    requires Gapless(s) && (s != [] ==> f.minTXID == s[|s| - 1].maxTXID + 1)
    ensures Gapless(s + [f])
  {
    forall k | 1 <= k < |s + [f]|
      ensures AdjacentAt(s + [f], k)
    {
      if k < |s| {
        assert AdjacentAt(s, k);
      }
    }
  }

  /** The files of s that satisfy the retention test, oldest first. */
  function Matching(s: seq<FileInfo>, test: FileInfo -> bool): seq<FileInfo> {
    if s == [] then []
    else Matching(s[..|s| - 1], test) + if test(s[|s| - 1]) then [s[|s| - 1]] else []
  }

  lemma {:induction false} MatchingMembers(s: seq<FileInfo>, test: FileInfo -> bool)
    ensures forall f :: f in Matching(s, test) <==> f in s && test(f)
    decreases |s|
  {
    if s != [] {
      var n := |s| - 1;
      MatchingMembers(s[..n], test);
      assert s == s[..n] + [s[n]];
    }
  }

  /** What retention leaves of a listing: the last file, and those that fail the test. */
  function Retained(s: seq<FileInfo>, test: FileInfo -> bool, enabled: bool): seq<FileInfo> {
    if enabled then Remove(s, FilesOf(Matching(ButLast(s), test))) else s
  }

  function ButLast(s: seq<FileInfo>): seq<FileInfo> {
    if s == [] then [] else s[..|s| - 1]
  }

  function Deleted(levels: seq<seq<FileInfo>>, level: nat, test: FileInfo -> bool, failing: set<FileInfo>): seq<seq<FileInfo>>
    requires level < |levels|
  {
    levels[level := Remove(levels[level], FilesOf(Matching(ButLast(levels[level]), test)) - failing)]
  }

  /** Which files that leaves, if some deletions fail. */
  lemma RetainedIs(s: seq<FileInfo>, test: FileInfo -> bool, failing: set<FileInfo>)
    requires StrictlySorted(s)
    ensures var deleted := FilesOf(Matching(ButLast(s), test));
            && (forall f :: f in deleted <==> f in s && f != s[|s| - 1] && test(f))
            && forall f :: f in Remove(s, deleted - failing) <==> f in s && (f == s[|s| - 1] || !test(f) || f in failing)
  {
    MatchingMembers(ButLast(s), test);
    RemoveMembers(s, FilesOf(Matching(ButLast(s), test)) - failing);
    forall f | f in s
      ensures f in ButLast(s) <==> f != s[|s| - 1]
    {
      var i :| 0 <= i < |s| && s[i] == f;
      assert i < |s| - 1 ==> Before(s[i], s[|s| - 1]);
    }
  }

  // ---------------------------------------------------------------------------------------
  // Deletion lists

  ghost function Without(s: State, level: nat, d: set<FileInfo>): State
    requires Shaped(s) && level <= SNAPSHOT_LEVEL
  {
    s.(levels := s.levels[level := s.levels[level] - d])
  }

  lemma WithoutNothing(s: State, level: nat)
    requires Shaped(s) && level <= SNAPSHOT_LEVEL
    ensures Without(s, level, {}) == s
  {
    assert s.levels[level] - {} == s.levels[level];
    assert s.levels[level := s.levels[level]] == s.levels;
  }

  lemma WithoutStep(s: State, level: nat, d: set<FileInfo>, f: FileInfo)
    requires Shaped(s) && level <= SNAPSHOT_LEVEL && f in d
    ensures Without(Without(s, level, {f}), level, d - {f}) == Without(s, level, d)
  {
    assert s.levels[level] - {f} - (d - {f}) == s.levels[level] - d;
  }

  /** Deleting any set of files that may each be deleted is a run of the machine. */
  lemma {:induction false} DeletesReach(s: State, level: nat, d: set<FileInfo>, lossless: bool)
    requires Inv(s) && level <= SNAPSHOT_LEVEL && (lossless ==> Strict(s))
    requires forall f :: f in d ==> MayDelete(s, level, f) && (lossless ==> Lossless(s, Delete(level, f)))
    ensures Reaches(s, Without(s, level, d), lossless)
    decreases d
  {
    if d == {} {
      WithoutNothing(s, level);
      ReachesSelf(s, lossless);
    } else {
      var f :| f in d;
      var s' := Apply(s, Delete(level, f));
      InvDelete(s, level, f);
      if lossless {
        StrictStep(s, Delete(level, f));
        DeleteKeepsMax(s, level, f);
      }
      forall g | g in d - {f}
        ensures MayDelete(s', level, g) && (lossless ==> Lossless(s', Delete(level, g)))
      {
        DecisionsStayValid(s, Delete(level, f), level, g);
      }
      DeletesReach(s', level, d - {f}, lossless);
      WithoutStep(s, level, d, f);
      ReachesStep(s, Delete(level, f), Without(s, level, d), lossless);
    }
  }

  ghost function ViewOf(levels: seq<seq<FileInfo>>, dbPos: TXID, cache: map<nat, FileInfo>): State {
    State(seq(|levels|, i requires 0 <= i < |levels| => FilesOf(levels[i])), dbPos, map l | l in cache :: cache[l].maxTXID)
  }

  lemma ViewOfUpdate(levels: seq<seq<FileInfo>>, l: nat, listing: seq<FileInfo>, dbPos: TXID, cache: map<nat, FileInfo>)
    requires l < |levels|
    ensures ViewOf(levels[l := listing], dbPos, cache) ==
            ViewOf(levels, dbPos, cache).(levels := ViewOf(levels, dbPos, cache).levels[l := FilesOf(listing)])
  {
  }

  /** The file with the largest transaction, or no file at all. */
  method ScanMax(listing: seq<FileInfo>) returns (info: FileInfo)
    ensures info.maxTXID == MaxTXID(FilesOf(listing))
    ensures info.maxTXID > 0 ==> info in listing
  {
    info := FileInfo(0, 0, 0, 0);
    for i := 0 to |listing|
      invariant forall j :: 0 <= j < i ==> listing[j].maxTXID <= info.maxTXID
      invariant info.maxTXID == 0 || info in listing
    {
      if listing[i].maxTXID > info.maxTXID {
        info := listing[i];
      }
    }
    assert IsMax(FilesOf(listing), info.maxTXID);
  }

  /** True if each file continues the one before it. */
  method VerifyLevelConsistency(listing: seq<FileInfo>) returns (ok: bool)
    ensures ok <==> Gapless(listing)
    ensures ok <==> forall i :: 1 <= i < |listing| ==> listing[i].minTXID == listing[i - 1].maxTXID + 1
  {
    GaplessIs(listing);
    var prev: Option<FileInfo> := None;
    for i := 0 to |listing|
      invariant prev == if i == 0 then None else Some(listing[i - 1])
      invariant forall j :: 1 <= j < i ==> AdjacentAt(listing, j)
    {
      var info := listing[i];
      if prev.Some? && info.minTXID != prev.value.maxTXID + 1 {
        assert !AdjacentAt(listing, i);
        return false;
      }
      prev := Some(info);
    }
    return true;
  }

  /** The contiguity test of the LTX compactor over its inputs. */
  method InputsContiguous(src: seq<FileInfo>) returns (ok: bool)
    requires Sorted(src) && src != [] && forall f :: f in src ==> WellFormed(f)
    ensures ok <==> PageImage.Mergeable(src)
  {
    assert src[0] in src;
    for i := 1 to |src|
      invariant forall j :: 1 <= j < i ==> PageImage.ContinuesAt(src, j)
    {
      if !(src[i].minTXID <= src[i - 1].maxTXID + 1 && src[i - 1].maxTXID < src[i].maxTXID) {
        assert !PageImage.ContinuesAt(src, i);
        return false;
      }
    }
    return true;
  }

  /** The range a compaction of src covers. */
  method SourceRange(src: seq<FileInfo>) returns (minTXID: TXID, maxTXID: TXID)
    requires Sorted(src) && forall f :: f in src ==> WellFormed(f)
    ensures src == [] ==> minTXID == maxTXID == 0
    ensures src != [] ==> minTXID == src[0].minTXID && maxTXID == MaxTXID(FilesOf(src))
  {
    minTXID, maxTXID := 0, 0;
    for i := 0 to |src|
      invariant i == 0 ==> minTXID == maxTXID == 0
      invariant i > 0 ==> minTXID == src[0].minTXID && maxTXID > 0
      invariant forall j :: 0 <= j < i ==> src[j].maxTXID <= maxTXID
      invariant i > 0 ==> exists j :: 0 <= j < i && src[j].maxTXID == maxTXID
    {
      var info := src[i];
      assert WellFormed(src[0]) && WellFormed(info);
      if minTXID == 0 || info.minTXID < minTXID {
        minTXID := info.minTXID;
      }
      if maxTXID == 0 || info.maxTXID > maxTXID {
        maxTXID := info.maxTXID;
      }
    }
    assert IsMax(FilesOf(src), maxTXID);
  }

  /** src holds the files of a level that start at transaction t or later. */
  ghost predicate SourceOf(src: set<FileInfo>, files: set<FileInfo>, t: TXID) {
    forall f :: f in src <==> f in files && t <= f.minTXID
  }

  /** What a compaction decides on is a step of the machine. */
  lemma CompactionEnabled(s: State, level: nat, cached: TXID, src: set<FileInfo>, first: FileInfo, info: FileInfo)
    requires Inv(s) && 1 <= level < SNAPSHOT_LEVEL
    requires info.level == level && info.minTXID == first.minTXID && info.maxTXID == MaxTXID(src)
    requires SourceOf(src, s.levels[level - 1], cached + 1)
    requires first in src && forall f :: f in src ==> first.minTXID <= f.minTXID
    requires level == 1 ==> cached <= Watermark(s)
    ensures Enabled(s, CompactEvent(info, false)) && Enabled(s, CompactEvent(info, true))
  {
    assert LevelShape(level - 1, s.levels[level - 1], Uploaded(s), s.dbPos);
    assert FileShape(level - 1, first, Uploaded(s), s.dbPos) && first.maxTXID <= MaxTXID(src);
    var g :| g in src && g.maxTXID == MaxTXID(src);
    assert FileShape(level - 1, g, Uploaded(s), s.dbPos);
    if level == 1 {
      FirstSource(s, cached, src, first, Watermark(s));
    }
  }

  /** If the cached maximum is the true one, the step is lossless. */
  lemma CompactionLossless(s: State, level: nat, src: set<FileInfo>, first: FileInfo, info: FileInfo)
    requires Strict(s) && 1 <= level < SNAPSHOT_LEVEL
    requires info.level == level && info.minTXID == first.minTXID && info.maxTXID == MaxTXID(src)
    requires SourceOf(src, s.levels[level - 1], MaxTXID(s.levels[level]) + 1)
    requires first in src && forall f :: f in src ==> first.minTXID <= f.minTXID
    requires Enabled(s, CompactEvent(info, true))
    ensures Lossless(s, CompactEvent(info, true))
  {
    assert LevelShape(level - 1, s.levels[level - 1], Uploaded(s), s.dbPos);
    assert StackedAt(s, level);
    if level == 1 {
      FirstSource(s, Compacted(s), src, first, Compacted(s));
    }
    SourceIsAligned(s.levels[level - 1], s.levels[level], src);
  }

  /** Everything past the end of the upper level can be cut off the lower level. */
  lemma SourceIsAligned(lower: set<FileInfo>, upper: set<FileInfo>, src: set<FileInfo>)
    requires Stacked(lower, upper) && SourceOf(src, lower, MaxTXID(upper) + 1)
    requires src != {} && forall f :: f in lower ==> WellFormed(f)
    ensures Aligned(lower, MaxTXID(src)) && MaxTXID(src) <= MaxTXID(lower)
  {
  }

  /** If level 0 covers everything past m, and cached <= m, the first source file starts at m + 1 or before. */
  lemma FirstSource(s: State, cached: TXID, src: set<FileInfo>, first: FileInfo, m: TXID)
    requires Inv(s) && cached <= m && Covers(s.levels[0], m, Uploaded(s))
    requires SourceOf(src, s.levels[0], cached + 1)
    requires first in src && forall f :: f in src ==> first.minTXID <= f.minTXID
    ensures first.minTXID <= m + 1
  {
    assert LevelShape(0, s.levels[0], Uploaded(s), s.dbPos);
    assert FileShape(0, first, Uploaded(s), s.dbPos);
    if m < Uploaded(s) {
      assert Covered(s.levels[0], m + 1);
      var g :| g in s.levels[0] && g.Contains(m + 1);
      assert FileShape(0, g, Uploaded(s), s.dbPos);
      assert g in src;
    }
  }

  /** How a request to the storage ends. */
  datatype Fate = Acked | ResponseLost | Failed

  datatype CompactResult = Written(info: FileInfo) | NoCompaction | SourceNonContiguous | WriteFailed

  /** What a compaction of a listing into dstLevel, which reaches prevMax, may result in. */
  ghost predicate CompactionPlan(listing: seq<FileInfo>, prevMax: TXID, dstLevel: nat, r: CompactResult)
    requires Sorted(listing)
  {
    var src := Seek(listing, prevMax + 1);
    match r
    case NoCompaction => src == []
    case SourceNonContiguous => src != [] && !PageImage.Mergeable(src)
    case Written(info) =>
      && PageImage.Mergeable(src)
      && info.level == dstLevel && info.minTXID == src[0].minTXID && info.maxTXID == src[|src| - 1].maxTXID
    case WriteFailed => PageImage.Mergeable(src)
  }

  class Replica {
    var levels: seq<seq<FileInfo>>  // the stored files of levels 0..9, in filename order
    var dbPos: TXID                 // the local position of the database
    var rpos: TXID                  // the replica position, 0 if unknown
    var cache: map<nat, FileInfo>   // the last file of levels 1..9, where known
    const retentionEnabled: bool

    constructor (retentionEnabled: bool)
      ensures Contiguous() && View() == INITIAL && this.retentionEnabled == retentionEnabled
    {
      levels := [[], [], [], [], [], [], [], [], [], []];
      dbPos, rpos := 0, 0;
      cache := map[];
      this.retentionEnabled := retentionEnabled;
      new;
      assert FilesOf([]) == {};
      assert forall l :: 0 <= l < |levels| ==> levels[l] == [] && View().levels[l] == INITIAL.levels[l];
      assert View().levels == INITIAL.levels;
      assert View().cache == INITIAL.cache;
      StrictInitial();
      ReachesSelf(INITIAL, false);
    }

    ghost function View(): State
      reads this
    {
      ViewOf(levels, dbPos, cache)
    }

    ghost predicate Listed()
      reads this`levels
    {
      |levels| == SNAPSHOT_LEVEL + 1 && forall l :: 0 <= l < |levels| ==> StrictlySorted(levels[l])
    }

    ghost predicate Valid()
      reads this
    {
      && Listed()
      && Reaches(INITIAL, View(), false)
      && (rpos == 0 || rpos == Uploaded(View()))
    }

    ghost function CachedMax(level: nat): TXID
      reads this
      requires level < |levels|
    {
      CachedMaxOf(levels, cache, level)
    }

    method MaxLTXFileInfo(level: nat) returns (info: FileInfo)
      requires Valid() && 1 <= level <= SNAPSHOT_LEVEL
      modifies this`cache
      ensures Valid() && Reaches(old(View()), View(), true)
      ensures old(Tidy(View())) ==> Tidy(View())
      ensures info.maxTXID == old(CachedMax(level)) == CachedMax(level)
      ensures if level in old(cache) then info == old(cache)[level] else info.maxTXID > 0 ==> info in levels[level]
      ensures cache == if level in old(cache) || info.maxTXID == 0 then old(cache) else old(cache)[level := info]
    {
      if level in cache {
        ReachesSelf(View(), true);
        return cache[level];
      }
      info := ScanMax(levels[level]);
      if info.maxTXID > 0 {
        FillCache(level, info);
      } else {
        ReachesSelf(View(), true);
      }
    }

    method FillCache(level: nat, info: FileInfo)
      requires Valid() && 1 <= level <= SNAPSHOT_LEVEL && info.maxTXID == MaxTXID(FilesOf(levels[level]))
      modifies this`cache
      ensures Valid() && Reaches(old(View()), View(), true)
      ensures old(Tidy(View())) ==> Tidy(View())
      ensures cache == old(cache)[level := info]
    {
      ghost var s := View();
      CachedView(levels, dbPos, cache, level, info);
      StepReaches(s, CacheFill(level), true);
      Continue(s, Apply(s, CacheFill(level)), true);
      KeepsTidy(s, CacheFill(level));
      cache := cache[level := info];
    }

    /** A transaction of the local database has been captured. */
    method Commit()
      requires Valid()
      modifies this`dbPos
      ensures Valid() && dbPos == old(dbPos) + 1 && Reaches(old(View()), View(), true)
    {
      ghost var s := View();
      StepReaches(s, ReplicaMachine.Commit, true);
      Continue(s, Apply(s, ReplicaMachine.Commit), true);
      dbPos := dbPos + 1;
    }

    /** The process restarts: what it remembered of the replica is gone. */
    method Restart()
      requires Valid()
      modifies this`cache, this`rpos
      ensures Valid() && rpos == 0 && cache == map[] && Reaches(old(View()), View(), true)
    {
      ghost var s := View();
      StepReaches(s, ReplicaMachine.Restart, true);
      Continue(s, Apply(s, ReplicaMachine.Restart), true);
      cache, rpos := map[], 0;
    }

    /** Writes a planned compaction to the storage and, if that is acknowledged, caches it. */
    method WriteCompacted(info: FileInfo, fate: Fate) returns (acked: bool)
      requires Valid() && Enabled(View(), CompactEvent(info, false)) && Enabled(View(), CompactEvent(info, true))
      modifies this`levels, this`cache
      ensures Valid() && Reaches(old(View()), View(), false)
      ensures old(Lossless(View(), CompactEvent(info, true))) && fate != ResponseLost ==> Reaches(old(View()), View(), true)
      ensures old(Tidy(View()) && Onward(View(), CompactEvent(info, fate == Acked))) ==> Tidy(View())
      ensures acked <==> fate == Acked
      ensures levels == if fate == Failed then old(levels) else old(levels)[info.level := Insert(old(levels)[info.level], info)]
      ensures cache == if acked then old(cache)[info.level := info] else old(cache)
    {
      ghost var s := View();
      acked := fate == Acked;
      if fate == Failed {
        ReachesSelf(s, true);
        ReachesSelf(s, false);
        return;
      }
      StoredView(levels, dbPos, cache, info.level, info);
      EventReaches(s, CompactEvent(info, acked));
      KeepsTidy(s, CompactEvent(info, acked));
      levels := levels[info.level := Insert(levels[info.level], info)];
      if acked {
        cache := cache[info.level := info];
      }
    }

    /** Writes what was planned from the listing as it is. */
    method WritePlanned(dstLevel: nat, info: FileInfo, fate: Fate) returns (acked: bool)
      requires Valid() && 1 <= dstLevel < SNAPSHOT_LEVEL
      requires CompactionPlan(levels[dstLevel - 1], CachedMax(dstLevel), dstLevel, Written(info))
      modifies this`levels, this`cache
      ensures Valid() && Reaches(old(View()), View(), false)
      ensures old(Strict(View())) && fate != ResponseLost ==> Reaches(old(View()), View(), true)
      ensures old(Tidy(View())) ==> Tidy(View())
      ensures acked <==> fate == Acked
      ensures levels == if fate == Failed then old(levels) else old(levels)[dstLevel := Insert(old(levels)[dstLevel], info)]
      ensures cache == if acked then old(cache)[dstLevel := info] else old(cache)
      ensures dstLevel == 1 && old(Strict(View())) && Gapless(old(levels)[1]) ==> Gapless(levels[1])
    {
      CompactionReady(levels, dbPos, cache, CachedMax(dstLevel), dstLevel, info);
      CompactedFollows(levels, dbPos, cache, dstLevel, info);
      CompactionOnward(levels, dbPos, cache, dstLevel, info, fate == Acked);
      acked := WriteCompacted(info, fate);
    }

    method Compact(dstLevel: nat, now: int, fate: Fate) returns (r: CompactResult)
      requires Valid() && 1 <= dstLevel < SNAPSHOT_LEVEL
      modifies this`levels, this`cache
      ensures CompactionPlan(old(levels)[dstLevel - 1], old(CachedMax(dstLevel)), dstLevel, r)
      ensures Valid() && Reaches(old(View()), View(), false)
      ensures old(Strict(View())) && fate != ResponseLost ==> Reaches(old(View()), View(), true)
      ensures old(Tidy(View())) ==> Tidy(View())
      ensures r.WriteFailed? ==> fate != Acked
      ensures r.Written? ==> fate == Acked && r.info.createdAt == now
      ensures r.Written? ==> levels == old(levels)[dstLevel := Insert(old(levels)[dstLevel], r.info)] && CachedMax(dstLevel) == r.info.maxTXID
      ensures !r.Written? && fate != ResponseLost ==> levels == old(levels)
      ensures dstLevel == 1 && r.Written? && old(Strict(View())) && Gapless(old(levels)[1]) ==> Gapless(levels[1])
    {
      ghost var s0 := View();
      var prevMaxInfo := MaxLTXFileInfo(dstLevel);
      ghost var s := View();
      LosslessReaches(s0, s);
      ListingWellFormed(levels, dbPos, cache, dstLevel - 1);
      r := PlanCompaction(levels[dstLevel - 1], prevMaxInfo.maxTXID, dstLevel, now);
      if r.Written? {
        if Strict(s0) {
          StrictReaches(s0, s);
        }
        var acked := WritePlanned(dstLevel, r.info, fate);
        RunJoined(s0, s, View());
        if !acked {
          r := WriteFailed;
        }
      }
    }

    method Snapshot(pos: TXID, now: int, fate: Fate) returns (ok: bool)
      requires Valid() && 1 <= pos <= dbPos
      modifies this`levels, this`cache
      ensures Valid() && Reaches(old(View()), View(), false)
      ensures fate != ResponseLost && old(NewestSnapshot(View())) <= pos ==> Reaches(old(View()), View(), true)
      ensures ok <==> fate == Acked
      ensures var info := FileInfo(SNAPSHOT_LEVEL, 1, pos, now);
              && levels == (if fate == Failed then old(levels) else old(levels)[SNAPSHOT_LEVEL := Insert(old(levels)[SNAPSHOT_LEVEL], info)])
              && cache == (if ok then old(cache)[SNAPSHOT_LEVEL := info] else old(cache))
    {
      ok := fate == Acked;
      if fate == Failed {
        ReachesSelf(View(), true);
        ReachesSelf(View(), false);
        return;
      }
      var info := FileInfo(SNAPSHOT_LEVEL, 1, pos, now);
      StoredView(levels, dbPos, cache, SNAPSHOT_LEVEL, info);
      EventReaches(View(), ReplicaMachine.Snapshot(pos, now, ok));
      levels := levels[SNAPSHOT_LEVEL := Insert(levels[SNAPSHOT_LEVEL], info)];
      if ok {
        cache := cache[SNAPSHOT_LEVEL := info];
      }
    }

    /** Uploads one level-0 file; without an acknowledgement the replica position is forgotten. */
    method UploadLTXFile(txID: TXID, now: int, fate: Fate) returns (ok: bool)
      requires Valid() && txID == Uploaded(View()) + 1 <= dbPos && rpos == Uploaded(View())
      modifies this`levels, this`rpos
      ensures Valid() && Reaches(old(View()), View(), true)
      ensures ok <==> fate == Acked
      ensures rpos == if ok then txID else 0
      ensures ok ==> Uploaded(View()) == txID
      ensures fate == Failed ==> levels == old(levels)
      ensures fate != Failed ==> levels == old(levels)[0 := old(levels)[0] + [FileInfo(0, txID, txID, now)]]
      ensures Gapless(old(levels)[0]) ==> Gapless(levels[0])
    {
      ok := fate == Acked;
      if fate == Failed {
        ReachesSelf(View(), true);
      } else {
        var info := FileInfo(0, txID, txID, now);
        UploadAppends(levels, dbPos, cache, info);
        StoredView(levels, dbPos, cache, 0, info);
        UploadStep(View(), ViewOf(levels[0 := Insert(levels[0], info)], dbPos, cache), info);
        levels := levels[0 := Insert(levels[0], info)];
      }
      rpos := if ok then txID else 0;
    }

    /** Uploads every local transaction the replica lacks; `script` says how each upload ends. */
    method Sync(script: seq<Fate>, now: int) returns (ok: bool)
      requires Valid()
      modifies this`levels, this`rpos
      ensures Valid() && Reaches(old(View()), View(), true)
      ensures if ok then rpos == dbPos == Uploaded(View()) else rpos == 0
      ensures dbPos == 0 ==> !ok
      ensures (forall k :: 0 <= k < |script| ==> script[k] == Acked) && dbPos > 0 ==> ok
      ensures levels == old(levels)[0 := levels[0]] && old(levels)[0] <= levels[0]
      ensures Gapless(old(levels)[0]) ==> Gapless(levels[0])
    {
      ghost var s0 := View();
      ReachesSelf(s0, true);
      UploadedWithinPosition(levels, dbPos, cache);
      if rpos == 0 {
        var info := ScanMax(levels[0]);
        rpos := info.maxTXID;
      }
      if dbPos == 0 {
        rpos := 0;
        return false;
      }
      ok := UploadMissing(script, now);
    }

    /** Uploads what the replica lacks, one transaction after the other. */
    method UploadMissing(script: seq<Fate>, now: int) returns (ok: bool)
      requires Valid() && rpos == Uploaded(View()) <= dbPos && dbPos > 0
      modifies this`levels, this`rpos
      ensures Valid() && Reaches(old(View()), View(), true)
      ensures if ok then rpos == dbPos == Uploaded(View()) else rpos == 0
      ensures (forall k :: 0 <= k < |script| ==> script[k] == Acked) ==> ok
      ensures levels == old(levels)[0 := levels[0]] && old(levels)[0] <= levels[0]
      ensures Gapless(old(levels)[0]) ==> Gapless(levels[0])
    {
      ghost var s0 := View();
      ReachesSelf(s0, true);
      var n := 0;
      while rpos + 1 <= dbPos
        invariant Valid() && Reaches(s0, View(), true) && rpos == Uploaded(View()) <= dbPos
        invariant levels == old(levels)[0 := levels[0]] && old(levels)[0] <= levels[0]
        invariant Gapless(old(levels)[0]) ==> Gapless(levels[0])
        decreases dbPos - rpos
      {
        ghost var s := View();
        ok := UploadLTXFile(rpos + 1, now, if n < |script| then script[n] else Acked);
        ReachesTransitive(s0, s, View(), true);
        if !ok {
          return;
        }
        n := n + 1;
      }
      return true;
    }

    /** Deletes the listed files, except those for which the deletion fails. */
    method DeleteFiles(level: nat, deleted: seq<FileInfo>, failing: set<FileInfo>) returns (ok: bool)
      requires Valid() && level <= SNAPSHOT_LEVEL
      requires forall f :: f in deleted ==> MayDelete(View(), level, f)
      modifies this`levels
      ensures Valid() && Reaches(old(View()), View(), false)
      ensures old(Strict(View()) && forall f :: f in deleted ==> Lossless(View(), Delete(level, f))) ==> Reaches(old(View()), View(), true)
      ensures levels == old(levels)[level := Remove(old(levels)[level], FilesOf(deleted) - failing)]
      ensures ok <==> FilesOf(deleted) !! failing
      ensures NewestSnapshot(View()) == old(NewestSnapshot(View()))
    {
      ok := forall f :: f in deleted ==> f !in failing;
      DeletedView(levels, dbPos, cache, level, FilesOf(deleted) - failing);
      levels := levels[level := Remove(levels[level], FilesOf(deleted) - failing)];
    }

    /** Deletes snapshots created before timestamp, except the last; returns the end of the oldest
        snapshot that is recent enough, 0 if there is none. */
    method EnforceSnapshotRetention(timestamp: int, failing: set<FileInfo>) returns (ok: bool, minSnapshotTXID: TXID)
      requires Valid()
      modifies this`levels
      ensures Valid() && Reaches(old(View()), View(), false)
      ensures old(Strict(View())) ==> Reaches(old(View()), View(), true)
      ensures minSnapshotTXID <= NewestSnapshot(View()) == old(NewestSnapshot(View()))
      ensures retentionEnabled ==> minSnapshotTXID <= OldestSnapshot(View())
      ensures ok <==> !retentionEnabled || !FailsByTime(old(levels)[SNAPSHOT_LEVEL], timestamp, failing)
      ensures KeptByTime(old(levels)[SNAPSHOT_LEVEL], levels[SNAPSHOT_LEVEL], timestamp, retentionEnabled, failing)
      ensures ok ==> OldestRetained(old(levels)[SNAPSHOT_LEVEL], timestamp, minSnapshotTXID)
      ensures ok ==> levels[SNAPSHOT_LEVEL] == Retained(old(levels)[SNAPSHOT_LEVEL], CreatedBefore(timestamp), retentionEnabled)
      ensures levels == old(levels)[SNAPSHOT_LEVEL := levels[SNAPSHOT_LEVEL]]
    {
      ListingWellFormed(levels, dbPos, cache, SNAPSHOT_LEVEL);
      minSnapshotTXID := MinRetained(levels[SNAPSHOT_LEVEL], timestamp);
      RetainedIsNotNewer(levels, dbPos, cache, timestamp, minSnapshotTXID);
      RetainedIsOldest(levels, dbPos, cache, timestamp, minSnapshotTXID);
      ok := PruneSnapshots(timestamp, failing);
      assert View().levels[SNAPSHOT_LEVEL] == FilesOf(levels[SNAPSHOT_LEVEL]);
      if !ok {
        minSnapshotTXID := 0;
      }
    }

    method PruneSnapshots(timestamp: int, failing: set<FileInfo>) returns (ok: bool)
      requires Valid()
      modifies this`levels
      ensures Valid() && Reaches(old(View()), View(), false)
      ensures old(Strict(View())) ==> Reaches(old(View()), View(), true)
      ensures NewestSnapshot(View()) == old(NewestSnapshot(View()))
      ensures ok <==> !retentionEnabled || !FailsByTime(old(levels)[SNAPSHOT_LEVEL], timestamp, failing)
      ensures KeptByTime(old(levels)[SNAPSHOT_LEVEL], levels[SNAPSHOT_LEVEL], timestamp, retentionEnabled, failing)
      ensures ok ==> levels[SNAPSHOT_LEVEL] == Retained(old(levels)[SNAPSHOT_LEVEL], CreatedBefore(timestamp), retentionEnabled)
      ensures levels == old(levels)[SNAPSHOT_LEVEL := levels[SNAPSHOT_LEVEL]]
    {
      KeptByTimeIs(levels[SNAPSHOT_LEVEL], timestamp, retentionEnabled, failing);
      var deleted := RetentionList(levels[SNAPSHOT_LEVEL], CreatedBefore(timestamp));
      ListMayBeDeleted(levels, dbPos, cache, SNAPSHOT_LEVEL, CreatedBefore(timestamp));
      ok := true;
      if retentionEnabled {
        ok := DeleteFiles(SNAPSHOT_LEVEL, deleted, failing);
        if ok {
          assert FilesOf(deleted) - failing == FilesOf(deleted);
        }
      } else {
        ReachesSelf(View(), false);
        ReachesSelf(View(), true);
      }
    }

    /** Deletes the files of a compaction level that end before txID, except the last. It is a run of
        the machine if txID does not lie behind the newest snapshot, and lossless by the oldest. */
    method EnforceRetentionByTXID(level: nat, txID: TXID, failing: set<FileInfo>) returns (ok: bool)
      requires Listed() && 1 <= level < SNAPSHOT_LEVEL
      modifies this`levels
      ensures Listed()
      ensures old(Valid()) && RetentionFits(txID, old(NewestSnapshot(View()))) ==> Valid() && Reaches(old(View()), View(), false)
      ensures old(Valid() && Strict(View())) && RetentionFits(txID, old(OldestSnapshot(View()))) ==> Reaches(old(View()), View(), true)
      ensures ok <==> !retentionEnabled || !FailsByEnd(old(levels)[level], txID, failing)
      ensures KeptByEnd(old(levels)[level], levels[level], txID, retentionEnabled, failing)
      ensures ok ==> levels[level] == Retained(old(levels)[level], EndsBefore(txID), retentionEnabled)
      ensures levels == old(levels)[level := levels[level]]
      ensures ok && old(Valid()) && Gapless(old(levels)[level]) ==> Gapless(levels[level])
    {
      if Valid() {
        ReachesSelf(View(), false);
        ReachesSelf(View(), true);
        PrunedView(levels, dbPos, cache, level, txID, failing);
        GaplessAfterRetention(levels, dbPos, cache, level, txID);
      }
      ok := PruneLevel(level, txID, failing);
    }

    method PruneLevel(level: nat, txID: TXID, failing: set<FileInfo>) returns (ok: bool)
      requires Listed() && 1 <= level < SNAPSHOT_LEVEL
      modifies this`levels
      ensures Listed()
      ensures ok <==> !retentionEnabled || !FailsByEnd(old(levels)[level], txID, failing)
      ensures KeptByEnd(old(levels)[level], levels[level], txID, retentionEnabled, failing)
      ensures ok ==> levels[level] == Retained(old(levels)[level], EndsBefore(txID), retentionEnabled)
      ensures if retentionEnabled then levels == Deleted(old(levels), level, EndsBefore(txID), failing) else levels == old(levels)
    {
      KeptByEndIs(levels[level], txID, retentionEnabled, failing);
      var deleted := RetentionList(levels[level], EndsBefore(txID));
      ok := true;
      if retentionEnabled {
        ok := forall f :: f in deleted ==> f !in failing;
        RemoveSorted(levels[level], FilesOf(deleted) - failing);
        levels := levels[level := Remove(levels[level], FilesOf(deleted) - failing)];
        if ok {
          assert FilesOf(deleted) - failing == FilesOf(deleted);
        }
      }
    }

    predicate RetentionFits(txID: TXID, snapshot: TXID) {
      txID <= snapshot || !retentionEnabled
    }

    /** Snapshot retention and its cascade to the compaction levels 1..maxLevel: each keeps what ends at
        the oldest retained snapshot or later, and its last file. */
    method EnforceSnapshotRetentionCascade(timestamp: int, maxLevel: nat, failing: set<FileInfo>) returns (ok: bool, ghost m: TXID)
      requires Valid() && maxLevel < SNAPSHOT_LEVEL
      modifies this`levels
      ensures Valid() && Reaches(old(View()), View(), false)
      ensures old(Strict(View())) ==> Reaches(old(View()), View(), true)
      ensures failing == {} || !retentionEnabled ==> ok
      ensures ok ==> OldestRetained(old(levels)[SNAPSHOT_LEVEL], timestamp, m)
      ensures ok ==> levels[SNAPSHOT_LEVEL] == Retained(old(levels)[SNAPSHOT_LEVEL], CreatedBefore(timestamp), retentionEnabled)
      ensures ok ==> Cascaded(old(levels), levels, 1, maxLevel + 1, m, retentionEnabled)
      ensures levels[0] == old(levels)[0]
      ensures ok && Gapless(old(levels)[1]) ==> Gapless(levels[1])
    {
      ghost var s0 := View();
      var minSnapshotTXID;
      ok, minSnapshotTXID := EnforceSnapshotRetention(timestamp, failing);
      m := minSnapshotTXID;
      if !ok {
        return;
      }
      ok := CascadeLevels(maxLevel, minSnapshotTXID, failing, s0, levels);
    }

    /** The cascade, once the snapshots have been pruned. */
    method CascadeLevels(maxLevel: nat, m: TXID, failing: set<FileInfo>, ghost s0: State, ghost first: seq<seq<FileInfo>>) returns (ok: bool)
      requires maxLevel < SNAPSHOT_LEVEL && Cascading(s0, first, 1, m)
      modifies this`levels
      ensures Valid() && Reaches(s0, View(), false) && (Strict(s0) ==> Reaches(s0, View(), true))
      ensures levels[0] == old(levels)[0]
      ensures failing == {} || !retentionEnabled ==> ok
      ensures ok ==> Cascading(s0, first, maxLevel + 1, m)
    {
      for level := 1 to maxLevel + 1
        invariant Cascading(s0, first, level, m) && levels[0] == old(levels)[0]
      {
        ok := CascadeLevel(level, m, failing, s0, first);
        if !ok {
          return;
        }
      }
      ok := true;
    }

    /** Levels 1..level-1 have been pruned by transaction m since the listings were `first`. */
    ghost predicate Cascading(s0: State, first: seq<seq<FileInfo>>, level: nat, m: TXID)
      reads this
    {
      && Valid() && Shaped(s0) && Reaches(s0, View(), false) && (Strict(s0) ==> Reaches(s0, View(), true))
      && RetentionFits(m, NewestSnapshot(View())) && RetentionFits(m, OldestSnapshot(View()))
      && Cascaded(first, levels, 1, level, m, retentionEnabled)
      && Unchanged(first, levels, 0, 1) && Unchanged(first, levels, level, SNAPSHOT_LEVEL + 1)
      && (|first| > 1 && Gapless(first[1]) ==> Gapless(levels[1]))
    }

    method CascadeLevel(level: nat, m: TXID, failing: set<FileInfo>, ghost s0: State, ghost first: seq<seq<FileInfo>>) returns (ok: bool)
      requires 1 <= level < SNAPSHOT_LEVEL && Cascading(s0, first, level, m)
      modifies this`levels
      ensures Valid() && Reaches(s0, View(), false) && (Strict(s0) ==> Reaches(s0, View(), true))
      ensures levels[0] == old(levels)[0]
      ensures failing == {} || !retentionEnabled ==> ok
      ensures ok ==> Cascading(s0, first, level + 1, m)
    {
      ghost var s, before := View(), levels;
      ok := EnforceRetentionByTXID(level, m, failing);
      RunOn(s0, s, View());
      if ok {
        CascadeStep(first, before, levels, level, m, retentionEnabled);
      }
    }

    /** Deletes level-0 files up to maxL1TXID that were created by threshold. */
    method DeleteCompactedL0(maxL1TXID: TXID, threshold: int, localTimes: map<FileInfo, int>, failing: set<FileInfo>)
      returns (ok: bool, ghost n: nat)
      requires Valid() && maxL1TXID == Compacted(View())
      modifies this`levels
      ensures Valid() && Reaches(old(View()), View(), false)
      ensures old(Strict(View())) ==> Reaches(old(View()), View(), true)
      ensures levels == old(levels)[0 := levels[0]]
      ensures ExpiredPrefix(old(levels)[0], n, maxL1TXID, threshold, localTimes)
      ensures failing == {} || !retentionEnabled ==> ok
      ensures forall f :: f in old(levels)[0][n..] ==> f in levels[0]
      ensures forall f :: f in old(levels)[0] && f !in levels[0] ==> Expired(f, maxL1TXID, threshold, localTimes)
      ensures ok ==> levels[0] == if retentionEnabled then old(levels)[0][n..] else old(levels)[0]
      ensures ok && Gapless(old(levels)[0]) ==> Gapless(levels[0])
    {
      L0Singles(levels, dbPos, cache);
      var deleted := L0RetentionList(levels[0], maxL1TXID, threshold, localTimes);
      n := |deleted|;
      if !retentionEnabled {
        ReachesSelf(View(), false);
        ReachesSelf(View(), true);
        return true, n;
      }
      L0ListMayBeDeleted(levels, dbPos, cache, deleted, maxL1TXID);
      ok := DeletePrefixL0(deleted, failing);
    }

    /** Deletes leading files of level 0. */
    method DeletePrefixL0(deleted: seq<FileInfo>, failing: set<FileInfo>) returns (ok: bool)
      requires Valid() && deleted <= levels[0] && forall f :: f in deleted ==> MayDelete(View(), 0, f)
      modifies this`levels
      ensures Valid() && Reaches(old(View()), View(), false)
      ensures old(Strict(View()) && forall f :: f in deleted ==> Lossless(View(), Delete(0, f))) ==> Reaches(old(View()), View(), true)
      ensures levels == old(levels)[0 := levels[0]]
      ensures ok <==> FilesOf(deleted) !! failing
      ensures forall f :: f in old(levels)[0][|deleted|..] ==> f in levels[0]
      ensures ok ==> levels[0] == old(levels)[0][|deleted|..]
      ensures ok && Gapless(old(levels)[0]) ==> Gapless(levels[0])
    {
      RemovePrefix(levels[0], |deleted|, FilesOf(deleted));
      RemoveMembers(levels[0], FilesOf(deleted) - failing);
      ok := DeleteFiles(0, deleted, failing);
      if ok {
        assert FilesOf(deleted) - failing == FilesOf(deleted);
      }
    }

    /** Deletes level-0 files that are compacted into level 1 and old enough. */
    method EnforceL0RetentionByTime(l0Retention: int, now: int, localTimes: map<FileInfo, int>, failing: set<FileInfo>)
      returns (ok: bool, ghost n: nat)
      requires Valid()
      modifies this`levels
      ensures Valid() && Reaches(old(View()), View(), false)
      ensures old(Strict(View())) ==> Reaches(old(View()), View(), true)
      ensures levels == old(levels)[0 := levels[0]]
      ensures if l0Retention <= 0 || old(Compacted(View())) == 0 then n == 0
              else ExpiredPrefix(old(levels)[0], n, old(Compacted(View())), now - l0Retention, localTimes)
      ensures failing == {} || !retentionEnabled ==> ok
      ensures forall f :: f in old(levels)[0][n..] ==> f in levels[0]
      ensures ok ==> levels[0] == if retentionEnabled then old(levels)[0][n..] else old(levels)[0]
      ensures forall f :: f in old(levels)[0] && f !in levels[0] ==>
                && f.maxTXID <= old(Compacted(View())) && (f.createdAt != 0 ==> f.createdAt <= now - l0Retention)
                && (f.createdAt == 0 && f in localTimes ==> localTimes[f] <= now - l0Retention)
      ensures l0Retention > 0 && old(Compacted(View())) > 0 && n + 1 < |old(levels)[0]| ==>
                var f := old(levels)[0][n];
                || f.maxTXID > old(Compacted(View())) || (f.createdAt != 0 && f.createdAt > now - l0Retention)
                || (f.createdAt == 0 && f in localTimes && localTimes[f] > now - l0Retention)
      ensures ok && Gapless(old(levels)[0]) ==> Gapless(levels[0])
    {
      ReachesSelf(View(), false);
      ReachesSelf(View(), true);
      assert View().levels[1] == FilesOf(levels[1]);
      if l0Retention <= 0 {
        return true, 0;
      }
      var maxL1 := ScanMax(levels[1]);
      if maxL1.maxTXID == 0 {
        return true, 0;
      }
      ok, n := DeleteCompactedL0(maxL1.maxTXID, now - l0Retention, localTimes, failing);
      forall f: FileInfo
        ensures Expired(f, maxL1.maxTXID, now - l0Retention, localTimes) <==>
                  && f.maxTXID <= maxL1.maxTXID && (f.createdAt != 0 ==> f.createdAt <= now - l0Retention)
                  && (f.createdAt == 0 && f in localTimes ==> localTimes[f] <= now - l0Retention)
      {
        ExpiredIs(f, maxL1.maxTXID, now - l0Retention, localTimes);
      }
    }

    // -------------------------------------------------------------------------------------
    // Whole runs

    /** Levels 0 and 1 have no gaps, and the run so far was lossless. */
    ghost predicate Contiguous()
      reads this
    {
      Valid() && Strict(View()) && Gapless(levels[0]) && Gapless(levels[1])
    }

    /** One operation of the process, with all its deletions carried out. */
    method Do(op: Op)
      requires Contiguous() && Answered(op)
      modifies this`levels, this`dbPos, this`rpos, this`cache
      ensures Contiguous() && Reaches(old(View()), View(), true)
    {
      ghost var s := View();
      match op {
        case DoCommit =>
          Commit();
        case DoSync(script, now) =>
          var ok := Sync(script, now);
        case DoCompact(level, now, fate) =>
          var r := Compact(level, now, fate);
        case DoSnapshot(now, fate) =>
          NewestIsPast(levels, dbPos, cache);
          if dbPos > 0 {
            var ok := Snapshot(dbPos, now, fate);
          } else {
            ReachesSelf(s, true);
          }
        case DoRetention(timestamp, maxLevel) =>
          var ok, m := EnforceSnapshotRetentionCascade(timestamp, maxLevel, {});
        case DoL0Retention(l0Retention, now, localTimes) =>
          var ok, n := EnforceL0RetentionByTime(l0Retention, now, localTimes, {});
        case DoRestart =>
          Restart();
      }
      StrictReaches(s, View());
    }

    /** Whatever the process does, and whichever requests fail, levels 0 and 1 stay contiguous as long as
        deletions are carried out and no response of a compaction or snapshot is lost. */
    method Work(ops: seq<Op>)
      requires Contiguous() && forall i :: 0 <= i < |ops| ==> Answered(ops[i])
      modifies this`levels, this`dbPos, this`rpos, this`cache
      ensures Contiguous() && Reaches(old(View()), View(), true)
      ensures forall i :: 1 <= i < |levels[0]| ==> levels[0][i].minTXID == levels[0][i - 1].maxTXID + 1
      ensures forall i :: 1 <= i < |levels[1]| ==> levels[1][i].minTXID == levels[1][i - 1].maxTXID + 1
    {
      ghost var s := View();
      ReachesSelf(s, true);
      for i := 0 to |ops|
        invariant Contiguous() && Reaches(s, View(), true)
      {
        ghost var t := View();
        Do(ops[i]);
        ReachesTransitive(s, t, View(), true);
      }
      GaplessIs(levels[0]);
      GaplessIs(levels[1]);
    }
  }

  /** What the process does, and how the storage answers. */
  datatype Op =
    | DoCommit
    | DoSync(script: seq<Fate>, now: int)
    | DoCompact(level: nat, now: int, fate: Fate)
    | DoSnapshot(now: int, fate: Fate)
    | DoRetention(timestamp: int, maxLevel: nat)
    | DoL0Retention(l0Retention: int, now: int, localTimes: map<FileInfo, int>)
    | DoRestart

  /** The response of a compaction or snapshot is not lost; uploads may lose theirs. */
  predicate Answered(op: Op) {
    match op
    case DoCompact(level, _, fate) => 1 <= level < SNAPSHOT_LEVEL && fate != ResponseLost
    case DoSnapshot(_, fate) => fate != ResponseLost
    case DoRetention(_, maxLevel) => maxLevel < SNAPSHOT_LEVEL
    case _ => true
  }

  lemma NewestIsPast(levels: seq<seq<FileInfo>>, dbPos: TXID, cache: map<nat, FileInfo>)
    requires |levels| == SNAPSHOT_LEVEL + 1 && Reaches(INITIAL, ViewOf(levels, dbPos, cache), false)
    ensures NewestSnapshot(ViewOf(levels, dbPos, cache)) <= dbPos
  {
    var s := ViewOf(levels, dbPos, cache);
    InvInitial();
    ReachableInv(INITIAL, s, false);
    assert LevelShape(SNAPSHOT_LEVEL, s.levels[SNAPSHOT_LEVEL], Uploaded(s), s.dbPos);
  }

  /** Levels lo..hi-1 keep what retention by transaction m leaves. */
  ghost predicate Cascaded(from: seq<seq<FileInfo>>, to: seq<seq<FileInfo>>, lo: nat, hi: nat, m: TXID, enabled: bool) {
    |from| == |to| && forall l :: lo <= l < hi && l < |to| ==> to[l] == Retained(from[l], EndsBefore(m), enabled)
  }

  ghost predicate Unchanged(from: seq<seq<FileInfo>>, to: seq<seq<FileInfo>>, lo: nat, hi: nat) {
    |from| == |to| && forall l :: lo <= l < hi && l < |to| ==> to[l] == from[l]
  }

  lemma CascadeStep(first: seq<seq<FileInfo>>, before: seq<seq<FileInfo>>, after: seq<seq<FileInfo>>, level: nat, m: TXID, enabled: bool)
    requires 1 <= level < SNAPSHOT_LEVEL && |first| == |before| == |after| == SNAPSHOT_LEVEL + 1
    requires Cascaded(first, before, 1, level, m, enabled) && Unchanged(first, before, level, SNAPSHOT_LEVEL + 1) && Unchanged(first, before, 0, 1)
    requires after == before[level := after[level]] && after[level] == Retained(before[level], EndsBefore(m), enabled)
    ensures Cascaded(first, after, 1, level + 1, m, enabled)
    ensures Unchanged(first, after, level + 1, SNAPSHOT_LEVEL + 1) && Unchanged(first, after, 0, 1)
  {
  }

  /** A reachable state takes one step. */
  lemma EventReaches(s: State, e: Event)
    requires Reaches(INITIAL, s, false) && Shaped(s) && Enabled(s, e)
    ensures Reaches(s, Apply(s, e), false) && Reaches(INITIAL, Apply(s, e), false)
    ensures Lossless(s, e) ==> Reaches(s, Apply(s, e), true)
    ensures Uploaded(Apply(s, e)) == Uploaded(s) + if e.Upload? then 1 else 0
  {
    StepReaches(s, e, false);
    if Lossless(s, e) {
      StepReaches(s, e, true);
    }
    Continue(s, Apply(s, e), false);
    InvInitial();
    ReachableInv(INITIAL, s, false);
    match e
    case Upload(_) => InvUpload(s, e);
    case Compact(_, _, _, _, _) => InvCompact(s, e);
    case Snapshot(_, _, _) => InvSnapshot(s, e);
    case Delete(level, f) => DeleteKeepsPositions(s, level, f);
    case _ =>
  }

  /** Runs compose, the lossless ones from a strict state included. */
  lemma RunJoined(s0: State, s: State, t: State)
    requires Shaped(s0) && Shaped(s) && Reaches(s0, s, true) && Reaches(s, t, false)
    ensures Reaches(s0, t, false) && (Reaches(s, t, true) ==> Reaches(s0, t, true))
  {
    LosslessReaches(s0, s);
    ReachesTransitive(s0, s, t, false);
    if Reaches(s, t, true) {
      ReachesTransitive(s0, s, t, true);
    }
  }

  lemma RunOn(s0: State, s: State, t: State)
    requires Shaped(s0) && Shaped(s) && Reaches(s0, s, false) && Reaches(s, t, false)
    requires Strict(s0) ==> Reaches(s0, s, true)
    requires Strict(s) ==> Reaches(s, t, true)
    ensures Reaches(s0, t, false) && (Strict(s0) ==> Reaches(s0, t, true))
  {
    ReachesTransitive(s0, s, t, false);
    if Strict(s0) {
      StrictReaches(s0, s);
      ReachesTransitive(s0, s, t, true);
    }
  }

  lemma UploadedWithinPosition(levels: seq<seq<FileInfo>>, dbPos: TXID, cache: map<nat, FileInfo>)
    requires |levels| == SNAPSHOT_LEVEL + 1 && Reaches(INITIAL, ViewOf(levels, dbPos, cache), false)
    ensures Uploaded(ViewOf(levels, dbPos, cache)) <= dbPos
    ensures Uploaded(ViewOf(levels, dbPos, cache)) == MaxTXID(FilesOf(levels[0]))
  {
    InvInitial();
    ReachableInv(INITIAL, ViewOf(levels, dbPos, cache), false);
  }

  lemma L0Singles(levels: seq<seq<FileInfo>>, dbPos: TXID, cache: map<nat, FileInfo>)
    requires |levels| == SNAPSHOT_LEVEL + 1 && Reaches(INITIAL, ViewOf(levels, dbPos, cache), false)
    ensures forall f :: f in levels[0] ==> 1 <= f.minTXID == f.maxTXID <= MaxTXID(FilesOf(levels[0]))
  {
    var s := ViewOf(levels, dbPos, cache);
    InvInitial();
    ReachableInv(INITIAL, s, false);
    ListingShape(s, levels, dbPos, cache, 0);
  }

  /** Of single transactions the one listed last is the largest. */
  lemma LastHoldsMax(l0: seq<FileInfo>)
    requires StrictlySorted(l0) && l0 != [] && forall f :: f in l0 ==> 1 <= f.minTXID == f.maxTXID
    ensures l0[|l0| - 1].maxTXID == MaxTXID(FilesOf(l0))
  {
  }

  /** The next upload is appended, and opens no gap. */
  lemma UploadAppends(levels: seq<seq<FileInfo>>, dbPos: TXID, cache: map<nat, FileInfo>, info: FileInfo)
    requires |levels| == SNAPSHOT_LEVEL + 1 && Reaches(INITIAL, ViewOf(levels, dbPos, cache), false)
    requires StrictlySorted(levels[0])
    requires info.minTXID == info.maxTXID == Uploaded(ViewOf(levels, dbPos, cache)) + 1
    ensures Insert(levels[0], info) == levels[0] + [info]
    ensures Gapless(levels[0]) ==> Gapless(levels[0] + [info])
  {
    UploadedWithinPosition(levels, dbPos, cache);
    L0Singles(levels, dbPos, cache);
    InsertLast(levels[0], info);
    if levels[0] != [] {
      LastHoldsMax(levels[0]);
    }
    if Gapless(levels[0]) {
      GaplessAppend(levels[0], info);
    }
  }

  /** Storing the next upload is a step of the machine. */
  lemma UploadStep(s: State, t: State, info: FileInfo)
    requires Shaped(s) && Reaches(INITIAL, s, false) && Uploaded(s) < s.dbPos
    requires info == FileInfo(0, Uploaded(s) + 1, Uploaded(s) + 1, info.createdAt)
    requires t == s.(levels := s.levels[0 := Put(s.levels[0], info)])
    ensures Shaped(t) && Reaches(s, t, true) && Reaches(INITIAL, t, false) && Uploaded(t) == info.maxTXID
  {
    UploadIs(s, t, info);
    EventReaches(s, Upload(info.createdAt));
  }

  lemma UploadIs(s: State, t: State, info: FileInfo)
    requires Shaped(s) && Uploaded(s) < s.dbPos && info == FileInfo(0, Uploaded(s) + 1, Uploaded(s) + 1, info.createdAt)
    requires t == s.(levels := s.levels[0 := Put(s.levels[0], info)])
    ensures Enabled(s, Upload(info.createdAt)) && Lossless(s, Upload(info.createdAt)) && t == Apply(s, Upload(info.createdAt))
  {
  }

  // ---------------------------------------------------------------------------------------
  // Retention lists

  function CreatedBefore(timestamp: int): FileInfo -> bool {
    (f: FileInfo) => f.createdAt < timestamp
  }

  function EndsBefore(txID: TXID): FileInfo -> bool {
    (f: FileInfo) => f.maxTXID < txID
  }

  /** What is left: the files created at the moment or later, the last one of the listing, and those whose
      deletion failed. */
  ghost predicate KeptByTime(from: seq<FileInfo>, to: seq<FileInfo>, timestamp: int, enabled: bool, failing: set<FileInfo>) {
    forall f :: f in to <==> f in from && (!enabled || f.createdAt >= timestamp || f == from[|from| - 1] || f in failing)
  }

  ghost predicate FailsByTime(from: seq<FileInfo>, timestamp: int, failing: set<FileInfo>) {
    exists f :: f in failing && f in from && f.createdAt < timestamp && f != from[|from| - 1]
  }

  lemma KeptByTimeIs(s: seq<FileInfo>, timestamp: int, enabled: bool, failing: set<FileInfo>)
    requires StrictlySorted(s)
    ensures var deleted := FilesOf(Matching(ButLast(s), CreatedBefore(timestamp)));
            && (deleted !! failing <==> !FailsByTime(s, timestamp, failing))
            && KeptByTime(s, if enabled then Remove(s, deleted - failing) else s, timestamp, enabled, failing)
  {
    RetainedIs(s, CreatedBefore(timestamp), failing);
  }

  /** What is left: the files that end at the transaction or later, the last one of the listing, and those
      whose deletion failed. */
  ghost predicate KeptByEnd(from: seq<FileInfo>, to: seq<FileInfo>, txID: TXID, enabled: bool, failing: set<FileInfo>) {
    forall f :: f in to <==> f in from && (!enabled || f.maxTXID >= txID || f == from[|from| - 1] || f in failing)
  }

  ghost predicate FailsByEnd(from: seq<FileInfo>, txID: TXID, failing: set<FileInfo>) {
    exists f :: f in failing && f in from && f.maxTXID < txID && f != from[|from| - 1]
  }

  lemma KeptByEndIs(s: seq<FileInfo>, txID: TXID, enabled: bool, failing: set<FileInfo>)
    requires StrictlySorted(s)
    ensures var deleted := FilesOf(Matching(ButLast(s), EndsBefore(txID)));
            && (deleted !! failing <==> !FailsByEnd(s, txID, failing))
            && KeptByEnd(s, if enabled then Remove(s, deleted - failing) else s, txID, enabled, failing)
  {
    RetainedIs(s, EndsBefore(txID), failing);
  }

  /** Collects the files that satisfy the test, but never the last file of the listing. */
  method RetentionList(listing: seq<FileInfo>, test: FileInfo -> bool) returns (deleted: seq<FileInfo>)
    requires StrictlySorted(listing)
    ensures deleted == Matching(ButLast(listing), test)
  {
    deleted := [];
    var lastInfo: Option<FileInfo> := None;
    for i := 0 to |listing|
      invariant deleted == Matching(listing[..i], test)
      invariant lastInfo == if i == 0 then None else Some(listing[i - 1])
    {
      assert listing[..i + 1][..i] == listing[..i];
      var info := listing[i];
      lastInfo := Some(info);
      if test(info) {
        deleted := deleted + [info];
      }
    }
    assert listing[..|listing|] == listing;
    MatchingMembers(ButLast(listing), test);
    if |deleted| > 0 && Some(deleted[|deleted| - 1]) == lastInfo {
      deleted := deleted[..|deleted| - 1];
    }
  }

  /** m is the end of the oldest snapshot not created before timestamp, 0 if there is none. */
  ghost predicate OldestRetained(listing: seq<FileInfo>, timestamp: int, m: TXID) {
    && (forall f :: f in listing && !(f.createdAt < timestamp) ==> 0 < m <= f.maxTXID)
    && (m != 0 ==> exists f :: f in listing && !(f.createdAt < timestamp) && f.maxTXID == m)
  }

  method MinRetained(listing: seq<FileInfo>, timestamp: int) returns (m: TXID)
    requires forall f :: f in listing ==> WellFormed(f)
    ensures OldestRetained(listing, timestamp, m)
  {
    m := 0;
    for i := 0 to |listing|
      invariant forall j :: 0 <= j < i && !(listing[j].createdAt < timestamp) ==> 0 < m <= listing[j].maxTXID
      invariant m != 0 ==> exists f :: f in listing && !(f.createdAt < timestamp) && f.maxTXID == m
    {
      var info := listing[i];
      assert WellFormed(info);
      if info.createdAt < timestamp {
        continue;
      }
      if m == 0 || info.maxTXID < m {
        m := info.maxTXID;
      }
    }
  }

  /** The age of a level-0 file: its stored time, else that of the local copy, else old enough. */
  function CreatedAt(f: FileInfo, localTimes: map<FileInfo, int>, threshold: int): int {
    if f.createdAt != ZERO_TIME then f.createdAt
    else if f in localTimes then localTimes[f]
    else threshold
  }

  /** Stands for a missing timestamp. */
  const ZERO_TIME := 0

  /** A level-0 file that is compacted into level 1 and old enough. */
  predicate Expired(f: FileInfo, maxL1TXID: TXID, threshold: int, localTimes: map<FileInfo, int>) {
    f.maxTXID <= maxL1TXID && CreatedAt(f, localTimes, threshold) <= threshold
  }

  /** A file has expired if it is compacted, its stored time has passed the threshold if there is one, and
      else that of the local copy, if there is one. */
  lemma ExpiredIs(f: FileInfo, maxL1TXID: TXID, threshold: int, localTimes: map<FileInfo, int>)
    ensures Expired(f, maxL1TXID, threshold, localTimes) <==>
              && f.maxTXID <= maxL1TXID && (f.createdAt != 0 ==> f.createdAt <= threshold)
              && (f.createdAt == 0 && f in localTimes ==> localTimes[f] <= threshold)
  {
  }

  /** The first n files have expired, and no more do in a row; the last file does not count. */
  ghost predicate ExpiredPrefix(listing: seq<FileInfo>, n: nat, maxL1TXID: TXID, threshold: int, localTimes: map<FileInfo, int>) {
    && (if listing == [] then n == 0 else n < |listing|)
    && (forall i :: 0 <= i < n ==> Expired(listing[i], maxL1TXID, threshold, localTimes))
    && (n + 1 < |listing| ==> !Expired(listing[n], maxL1TXID, threshold, localTimes))
  }

  method L0RetentionList(listing: seq<FileInfo>, maxL1TXID: TXID, threshold: int, localTimes: map<FileInfo, int>)
    returns (deleted: seq<FileInfo>)
    requires StrictlySorted(listing) && forall f :: f in listing ==> f.minTXID == f.maxTXID
    ensures deleted <= listing && ExpiredPrefix(listing, |deleted|, maxL1TXID, threshold, localTimes)
    ensures forall f :: f in deleted ==>
              f.maxTXID <= maxL1TXID && (f.createdAt != 0 ==> f.createdAt <= threshold) && (f.createdAt == 0 && f in localTimes ==> localTimes[f] <= threshold)
    ensures |deleted| + 1 < |listing| ==>
              var f := listing[|deleted|];
              f.maxTXID > maxL1TXID || (f.createdAt != 0 && f.createdAt > threshold) || (f.createdAt == 0 && f in localTimes && localTimes[f] > threshold)
  {
    deleted := [];
    var processedAll := true;
    var lastInfo: Option<FileInfo> := None;
    for i := 0 to |listing|
      invariant processedAll && deleted <= listing[..i]
      invariant lastInfo == if i == 0 then None else Some(listing[i - 1])
      invariant forall j :: 0 <= j < |deleted| ==> Expired(listing[j], maxL1TXID, threshold, localTimes)
      invariant |deleted| < i ==> maxL1TXID < listing[|deleted|].maxTXID
    {
      var info := listing[i];
      lastInfo := Some(info);
      if CreatedAt(info, localTimes, threshold) > threshold {
        processedAll := false;
        break;
      }
      assert |deleted| < i ==> Before(listing[|deleted|], listing[i]);
      if info.maxTXID <= maxL1TXID {
        assert listing[..i + 1] == listing[..i] + [info];
        deleted := deleted + [info];
      }
    }
    if processedAll && |deleted| > 0 && lastInfo == Some(deleted[|deleted| - 1]) {
      deleted := deleted[..|deleted| - 1];
    }
  }

  /** Deleting a subset of what may be deleted changes the view by these files alone. */
  lemma DeletedView(levels: seq<seq<FileInfo>>, dbPos: TXID, cache: map<nat, FileInfo>, level: nat, d: set<FileInfo>)
    requires |levels| == SNAPSHOT_LEVEL + 1 && level <= SNAPSHOT_LEVEL && StrictlySorted(levels[level])
    requires var s := ViewOf(levels, dbPos, cache);
             Reaches(INITIAL, s, false) && forall f :: f in d ==> MayDelete(s, level, f)
    ensures StrictlySorted(Remove(levels[level], d))
    ensures var s := ViewOf(levels, dbPos, cache);
            var t := ViewOf(levels[level := Remove(levels[level], d)], dbPos, cache);
            && Reaches(s, t, false) && Reaches(INITIAL, t, false)
            && (Strict(s) && (forall f :: f in d ==> Lossless(s, Delete(level, f))) ==> Reaches(s, t, true))
            && NewestSnapshot(t) == NewestSnapshot(s) && Uploaded(t) == Uploaded(s)
  {
    var s := ViewOf(levels, dbPos, cache);
    var t := ViewOf(levels[level := Remove(levels[level], d)], dbPos, cache);
    RemoveSorted(levels[level], d);
    ViewOfUpdate(levels, level, Remove(levels[level], d), dbPos, cache);
    assert t == Without(s, level, d);
    InvInitial();
    ReachableInv(INITIAL, s, false);
    DeletesReach(s, level, d, false);
    if Strict(s) && forall f :: f in d ==> Lossless(s, Delete(level, f)) {
      DeletesReach(s, level, d, true);
    }
    DeletesKeepPositions(s, level, d);
    Continue(s, t, false);
  }

  lemma DeletesKeepPositions(s: State, level: nat, d: set<FileInfo>)
    requires Inv(s) && level <= SNAPSHOT_LEVEL && forall f :: f in d ==> MayDelete(s, level, f)
    ensures NewestSnapshot(Without(s, level, d)) == NewestSnapshot(s) && Uploaded(Without(s, level, d)) == Uploaded(s)
    decreases d
  {
  }

  /** Every file on a retention list of levels 1..9 may be deleted, and losslessly so if the test goes
      by the oldest snapshot. */
  lemma ListMayBeDeleted(levels: seq<seq<FileInfo>>, dbPos: TXID, cache: map<nat, FileInfo>, level: nat, test: FileInfo -> bool)
    requires |levels| == SNAPSHOT_LEVEL + 1 && 1 <= level <= SNAPSHOT_LEVEL && StrictlySorted(levels[level])
    requires level < SNAPSHOT_LEVEL ==> forall f :: test(f) ==> f.maxTXID < NewestSnapshot(ViewOf(levels, dbPos, cache))
    requires Reaches(INITIAL, ViewOf(levels, dbPos, cache), false)
    ensures forall f :: f in levels[level] ==> WellFormed(f)
    ensures var s := ViewOf(levels, dbPos, cache);
            forall f :: f in Matching(ButLast(levels[level]), test) ==>
              && MayDelete(s, level, f)
              && (level == SNAPSHOT_LEVEL || f.maxTXID < OldestSnapshot(s) ==> Lossless(s, Delete(level, f)))
  {
    var s := ViewOf(levels, dbPos, cache);
    var listing := levels[level];
    ListingWellFormed(levels, dbPos, cache, level);
    assert s.levels[level] == FilesOf(listing);
    MatchingMembers(ButLast(listing), test);
    forall f | f in Matching(ButLast(listing), test)
      ensures NotLast(s.levels[level], f)
    {
      ButLastIsNotLast(listing, f);
    }
  }

  lemma ButLastIsNotLast(listing: seq<FileInfo>, f: FileInfo)
    requires StrictlySorted(listing) && f in ButLast(listing)
    ensures NotLast(FilesOf(listing), f)
  {
    var i :| 0 <= i < |ButLast(listing)| && ButLast(listing)[i] == f;
    assert Before(listing[i], listing[|listing| - 1]);
    assert listing[|listing| - 1] in FilesOf(listing);
  }

  /** Retention by a transaction, carried out in part, as a run of the machine. */
  lemma PrunedView(levels: seq<seq<FileInfo>>, dbPos: TXID, cache: map<nat, FileInfo>, level: nat, txID: TXID, failing: set<FileInfo>)
    requires |levels| == SNAPSHOT_LEVEL + 1 && 1 <= level < SNAPSHOT_LEVEL && StrictlySorted(levels[level])
    requires Reaches(INITIAL, ViewOf(levels, dbPos, cache), false)
    ensures var s := ViewOf(levels, dbPos, cache);
            var d := FilesOf(Matching(ButLast(levels[level]), EndsBefore(txID))) - failing;
            var t := ViewOf(levels[level := Remove(levels[level], d)], dbPos, cache);
            && (txID <= NewestSnapshot(s) ==> Reaches(s, t, false) && Reaches(INITIAL, t, false) && Uploaded(t) == Uploaded(s))
            && (txID <= OldestSnapshot(s) && Strict(s) ==> Reaches(s, t, true))
  {
    var s := ViewOf(levels, dbPos, cache);
    var d := FilesOf(Matching(ButLast(levels[level]), EndsBefore(txID))) - failing;
    OldestIsNotNewer(s);
    if txID <= NewestSnapshot(s) {
      ListMayBeDeleted(levels, dbPos, cache, level, EndsBefore(txID));
      MatchingMembers(ButLast(levels[level]), EndsBefore(txID));
      DeletedView(levels, dbPos, cache, level, d);
    }
  }

  lemma OldestIsNotNewer(s: State)
    requires Shaped(s)
    ensures OldestSnapshot(s) <= NewestSnapshot(s)
  {
  }

  /** What snapshot retention leaves ends no earlier than the transaction it hands on. */
  lemma KeptEndsLate(s: seq<FileInfo>, timestamp: int, m: TXID, f: FileInfo)
    requires StrictlySorted(s) && OldestRetained(s, timestamp, m) && forall g :: g in s ==> g.minTXID == 1
    requires f in s && (f.createdAt < timestamp ==> f !in ButLast(s))
    ensures m <= f.maxTXID
  {
    if m != 0 && f.createdAt < timestamp {
      LastOfListing(s, f);
      var g :| g in s && !(g.createdAt < timestamp) && g.maxTXID == m;
      var i :| 0 <= i < |s| && s[i] == g;
      assert i < |s| - 1 ==> Before(s[i], s[|s| - 1]);
    }
  }

  lemma RetainedIsOldest(levels: seq<seq<FileInfo>>, dbPos: TXID, cache: map<nat, FileInfo>, timestamp: int, m: TXID)
    requires |levels| == SNAPSHOT_LEVEL + 1 && StrictlySorted(levels[SNAPSHOT_LEVEL]) && OldestRetained(levels[SNAPSHOT_LEVEL], timestamp, m)
    requires Reaches(INITIAL, ViewOf(levels, dbPos, cache), false)
    ensures m <= MinEnd(FilesOf(Retained(levels[SNAPSHOT_LEVEL], CreatedBefore(timestamp), true)))
  {
    var s := levels[SNAPSHOT_LEVEL];
    InvInitial();
    ReachableInv(INITIAL, ViewOf(levels, dbPos, cache), false);
    ListingShape(ViewOf(levels, dbPos, cache), levels, dbPos, cache, SNAPSHOT_LEVEL);
    KeptMembers(s, timestamp);
    forall f | f in Retained(s, CreatedBefore(timestamp), true)
      ensures m <= f.maxTXID
    {
      KeptEndsLate(s, timestamp, m, f);
    }
    if m != 0 {
      var g :| g in s && !(g.createdAt < timestamp) && g.maxTXID == m;
      assert g in FilesOf(Retained(s, CreatedBefore(timestamp), true));
    }
  }

  lemma KeptMembers(s: seq<FileInfo>, timestamp: int)
    ensures forall f :: f in Retained(s, CreatedBefore(timestamp), true) <==> f in s && (f.createdAt < timestamp ==> f !in ButLast(s))
  {
    RemoveMembers(s, FilesOf(Matching(ButLast(s), CreatedBefore(timestamp))));
    MatchingMembers(ButLast(s), CreatedBefore(timestamp));
  }

  lemma LastOfListing(s: seq<FileInfo>, f: FileInfo)
    requires f in s
    ensures f in ButLast(s) || f == s[|s| - 1]
  {
    assert s == ButLast(s) + [s[|s| - 1]];
  }

  lemma RetainedIsNotNewer(levels: seq<seq<FileInfo>>, dbPos: TXID, cache: map<nat, FileInfo>, timestamp: int, m: TXID)
    requires |levels| == SNAPSHOT_LEVEL + 1 && OldestRetained(levels[SNAPSHOT_LEVEL], timestamp, m)
    ensures m <= NewestSnapshot(ViewOf(levels, dbPos, cache))
  {
  }

  lemma L0ListMayBeDeleted(levels: seq<seq<FileInfo>>, dbPos: TXID, cache: map<nat, FileInfo>, deleted: seq<FileInfo>, maxL1: TXID)
    requires |levels| == SNAPSHOT_LEVEL + 1 && StrictlySorted(levels[0])
    requires Reaches(INITIAL, ViewOf(levels, dbPos, cache), false)
    requires deleted <= levels[0] && (levels[0] != [] ==> |deleted| < |levels[0]|)
    requires maxL1 == MaxTXID(FilesOf(levels[1])) && forall f :: f in deleted ==> f.maxTXID <= maxL1
    ensures var s := ViewOf(levels, dbPos, cache);
            && maxL1 == Compacted(s)
            && forall f :: f in deleted ==> MayDelete(s, 0, f) && Lossless(s, Delete(0, f))
  {
    var s := ViewOf(levels, dbPos, cache);
    var l0 := levels[0];
    L0Singles(levels, dbPos, cache);
    assert s.levels[1] == FilesOf(levels[1]) && s.levels[0] == FilesOf(l0);
    forall f | f in deleted
      ensures f.maxTXID < Uploaded(s)
    {
      var i :| 0 <= i < |deleted| && deleted[i] == f;
      var last := l0[|l0| - 1];
      assert Before(l0[i], last) && last in l0;
    }
  }

  // ---------------------------------------------------------------------------------------
  // Contiguity

  lemma {:induction false} RemoveFirst(s: seq<FileInfo>, n: nat, d: set<FileInfo>)
    requires n <= |s|
    requires forall i :: 0 <= i < n ==> s[i] in d
    requires forall i :: n <= i < |s| ==> s[i] !in d
    ensures Remove(s, d) == s[n..]
    decreases |s|
  {
    if s != [] {
      RemoveFirst(s[1..], if n > 0 then n - 1 else 0, d);
    }
  }

  /** Removing a prefix leaves the rest, which has no gap if the whole had none. */
  lemma RemovePrefix(s: seq<FileInfo>, n: nat, d: set<FileInfo>)
    requires StrictlySorted(s) && n <= |s| && forall f :: f in d <==> f in s[..n]
    ensures Remove(s, d) == s[n..]
    ensures Gapless(s) ==> Gapless(s[n..])
  {
    forall i | 0 <= i < n
      ensures s[i] in d
    {
      assert s[..n][i] == s[i];
    }
    forall i | n <= i < |s|
      ensures s[i] !in d
    {
      forall j | 0 <= j < n
        ensures s[..n][j] != s[i]
      {
        assert Before(s[j], s[i]);
      }
    }
    RemoveFirst(s, n, d);
    if Gapless(s) {
      GaplessSlice(s, n, |s|);
      assert s[n..] == s[n..|s|];
    }
  }

  /** If the test splits the listing in two, the matching files are the first part. */
  lemma {:induction false} MatchingSplit(s: seq<FileInfo>, test: FileInfo -> bool, k: nat)
    requires k <= |s|
    requires forall i :: 0 <= i < k ==> test(s[i])
    requires forall i :: k <= i < |s| ==> !test(s[i])
    ensures Matching(s, test) == s[..k]
    decreases |s|
  {
    if s != [] {
      var n := |s| - 1;
      MatchingSplit(s[..n], test, if k <= n then k else n);
    }
  }

  /** In a gapless listing the files that end before txID are a prefix. */
  lemma MatchingIsPrefix(s: seq<FileInfo>, txID: TXID)
    requires Gapless(s) && forall f :: f in s ==> WellFormed(f)
    ensures Matching(s, EndsBefore(txID)) <= s
  {
    var k := 0;
    while k < |s| && s[k].maxTXID < txID
      invariant k <= |s| && forall i :: 0 <= i < k ==> EndsBefore(txID)(s[i])
    {
      k := k + 1;
    }
    forall i | k <= i < |s|
      ensures !EndsBefore(txID)(s[i])
    {
      GaplessGrows(s, k, i);
    }
    MatchingSplit(s, EndsBefore(txID), k);
  }

  lemma {:induction false} GaplessGrows(s: seq<FileInfo>, i: nat, j: nat)
    requires Gapless(s) && i <= j < |s| && forall f :: f in s ==> WellFormed(f)
    ensures s[i].maxTXID <= s[j].maxTXID
    decreases j
  {
    if i < j {
      GaplessGrows(s, i, j - 1);
      assert AdjacentAt(s, j) && s[j] in s;
    }
  }

  lemma GaplessAfterRetention(levels: seq<seq<FileInfo>>, dbPos: TXID, cache: map<nat, FileInfo>, level: nat, txID: TXID)
    requires |levels| == SNAPSHOT_LEVEL + 1 && 1 <= level < SNAPSHOT_LEVEL && StrictlySorted(levels[level])
    requires Reaches(INITIAL, ViewOf(levels, dbPos, cache), false)
    ensures Gapless(levels[level]) ==>
              Gapless(Remove(levels[level], FilesOf(Matching(ButLast(levels[level]), EndsBefore(txID)))))
  {
    var s := levels[level];
    ListingWellFormed(levels, dbPos, cache, level);
    if Gapless(s) {
      GaplessSlice(s, 0, |ButLast(s)|);
      MatchingIsPrefix(ButLast(s), txID);
      var deleted := Matching(ButLast(s), EndsBefore(txID));
      assert s[..|deleted|] == deleted;
      RemovePrefix(s, |deleted|, FilesOf(deleted));
    }
  }

  ghost function CachedMaxOf(levels: seq<seq<FileInfo>>, cache: map<nat, FileInfo>, level: nat): TXID
    requires level < |levels|
  {
    if level in cache then cache[level].maxTXID else MaxTXID(FilesOf(levels[level]))
  }

  lemma ListingWellFormed(levels: seq<seq<FileInfo>>, dbPos: TXID, cache: map<nat, FileInfo>, l: nat)
    requires l < |levels| == SNAPSHOT_LEVEL + 1 && Reaches(INITIAL, ViewOf(levels, dbPos, cache), false)
    ensures forall f :: f in levels[l] ==> WellFormed(f)
  {
    InvInitial();
    ReachableInv(INITIAL, ViewOf(levels, dbPos, cache), false);
    ListingShape(ViewOf(levels, dbPos, cache), levels, dbPos, cache, l);
  }

  /** What is cached for level 1 never exceeds the watermark; a strict cache is exact. So a planned
      compaction may be written, and is lossless if the run so far was. */
  lemma CompactionReady(levels: seq<seq<FileInfo>>, dbPos: TXID, cache: map<nat, FileInfo>, prevMax: TXID, level: nat, info: FileInfo)
    requires |levels| == SNAPSHOT_LEVEL + 1 && 1 <= level < SNAPSHOT_LEVEL
    requires prevMax == CachedMaxOf(levels, cache, level) && Reaches(INITIAL, ViewOf(levels, dbPos, cache), false)
    requires Sorted(levels[level - 1]) && CompactionPlan(levels[level - 1], prevMax, level, Written(info))
    ensures var s := ViewOf(levels, dbPos, cache);
            && Enabled(s, CompactEvent(info, false)) && Enabled(s, CompactEvent(info, true))
            && (Strict(s) ==> Lossless(s, CompactEvent(info, true)))
  {
    var s := ViewOf(levels, dbPos, cache);
    InvInitial();
    ReachableInv(INITIAL, s, false);
    ListingShape(s, levels, dbPos, cache, level - 1);
    assert s.levels[level] == FilesOf(levels[level]);
    if level in cache {
      assert s.cache[level] == prevMax;
    }
    PlannedIsEnabled(s, levels[level - 1], prevMax, level, info);
  }

  lemma KeepsTidy(s: State, e: Event)
    requires Shaped(s) && Enabled(s, e)
    ensures Tidy(s) && Onward(s, e) ==> Tidy(Apply(s, e))
  {
    if Tidy(s) && Onward(s, e) {
      TidyStep(s, e);
    }
  }

  lemma SourcePlanned(listing: seq<FileInfo>, believed: TXID, level: nat, info: FileInfo)
    requires Sorted(listing) && CompactionPlan(listing, believed, level, Written(info))
    ensures PlannedFrom(FilesOf(listing), believed, info.minTXID, info.maxTXID)
  {
    var src := Seek(listing, believed + 1);
    LastIsMax(src);
    SeekIsSource(listing, believed + 1);
    assert FilesOf(src) == From(FilesOf(listing), believed + 1);
  }

  /** The compaction is one planned from what is listed, whatever was lost before. */
  lemma CompactionOnward(levels: seq<seq<FileInfo>>, dbPos: TXID, cache: map<nat, FileInfo>, level: nat, info: FileInfo, acked: bool)
    requires |levels| == SNAPSHOT_LEVEL + 1 && 1 <= level < SNAPSHOT_LEVEL && Sorted(levels[level - 1])
    requires CompactionPlan(levels[level - 1], CachedMaxOf(levels, cache, level), level, Written(info))
    requires Enabled(ViewOf(levels, dbPos, cache), CompactEvent(info, acked))
    ensures var s := ViewOf(levels, dbPos, cache);
            Planned(s, CompactEvent(info, acked)) && (Tidy(s) ==> Onward(s, CompactEvent(info, acked)))
  {
    var s := ViewOf(levels, dbPos, cache);
    SourcePlanned(levels[level - 1], CachedMaxOf(levels, cache, level), level, info);
    assert Planned(s, CompactEvent(info, acked));
    if Tidy(s) {
      PlannedIsOnward(s, CompactEvent(info, acked));
    }
  }

  /** A reachable state stays reachable along a run. */
  lemma Continue(s: State, t: State, lossless: bool)
    requires Reaches(INITIAL, s, false) && Shaped(s) && Reaches(s, t, lossless)
    ensures Reaches(INITIAL, t, false)
  {
    if lossless {
      LosslessReaches(s, t);
    }
    ReachesTransitive(INITIAL, s, t, false);
  }

  lemma CachedView(levels: seq<seq<FileInfo>>, dbPos: TXID, cache: map<nat, FileInfo>, l: nat, f: FileInfo)
    requires l < |levels|
    ensures var s := ViewOf(levels, dbPos, cache);
            ViewOf(levels, dbPos, cache[l := f]) == s.(cache := s.cache[l := f.maxTXID])
  {
  }

  lemma ListingShape(s: State, levels: seq<seq<FileInfo>>, dbPos: TXID, cache: map<nat, FileInfo>, l: nat)
    requires s == ViewOf(levels, dbPos, cache) && Inv(s) && l < |levels|
    ensures s.levels[l] == FilesOf(levels[l]) && forall f :: f in levels[l] ==> FileShape(l, f, Uploaded(s), s.dbPos)
  {
  }

  /** Storing a file changes the view by that file, and caching it by the cached maximum. */
  lemma StoredView(levels: seq<seq<FileInfo>>, dbPos: TXID, cache: map<nat, FileInfo>, l: nat, f: FileInfo)
    requires l < |levels| && StrictlySorted(levels[l])
    ensures StrictlySorted(Insert(levels[l], f))
    ensures var s := ViewOf(levels, dbPos, cache);
            var t := ViewOf(levels[l := Insert(levels[l], f)], dbPos, cache);
            var u := ViewOf(levels[l := Insert(levels[l], f)], dbPos, cache[l := f]);
            && t == s.(levels := s.levels[l := Put(s.levels[l], f)])
            && u == t.(cache := s.cache[l := f.maxTXID])
  {
    InsertSorted(levels[l], f);
    ViewOfUpdate(levels, l, Insert(levels[l], f), dbPos, cache);
    CachedView(levels[l := Insert(levels[l], f)], dbPos, cache, l, f);
  }

  /** The files to compact are all files of the listing past prevMax, if they are contiguous. */
  method PlanCompaction(listing: seq<FileInfo>, prevMax: TXID, dstLevel: nat, now: int) returns (r: CompactResult)
    requires Sorted(listing) && forall f :: f in listing ==> WellFormed(f)
    ensures CompactionPlan(listing, prevMax, dstLevel, r) && !r.WriteFailed?
    ensures r.Written? ==> r.info.createdAt == now
  {
    var src := Seek(listing, prevMax + 1);
    var minTXID, maxTXID := SourceRange(src);
    if |src| == 0 {
      return NoCompaction;
    }
    var contiguous := InputsContiguous(src);
    if !contiguous {
      return SourceNonContiguous;
    }
    LastIsMax(src);
    return Written(FileInfo(dstLevel, minTXID, maxTXID, now));
  }

  lemma AppendGapless(s: seq<FileInfo>, info: FileInfo)
    requires Gapless(s) && forall f :: f in s ==> WellFormed(f)
    requires info.minTXID == MaxTXID(FilesOf(s)) + 1
    ensures Insert(s, info) == s + [info] && Gapless(s + [info])
  {
    if s != [] {
      GaplessLastHoldsMax(s);
    }
    forall i | 0 <= i < |s|
      ensures Before(s[i], info)
    {
      GaplessGrows(s, i, |s| - 1);
      assert s[i] in s;
    }
    InsertLast(s, info);
    GaplessAppend(s, info);
  }

  /** A lossless compaction into level 1 is appended right after the end of the level. */
  lemma CompactedFollows(levels: seq<seq<FileInfo>>, dbPos: TXID, cache: map<nat, FileInfo>, level: nat, info: FileInfo)
    requires |levels| == SNAPSHOT_LEVEL + 1 && Reaches(INITIAL, ViewOf(levels, dbPos, cache), false)
    requires 1 <= level < SNAPSHOT_LEVEL && info.level == level
    ensures level == 1 && Lossless(ViewOf(levels, dbPos, cache), CompactEvent(info, true)) && Gapless(levels[1]) ==>
              Gapless(Insert(levels[1], info))
  {
    ListingWellFormed(levels, dbPos, cache, level);
    assert ViewOf(levels, dbPos, cache).levels[1] == FilesOf(levels[1]);
    if level == 1 && Lossless(ViewOf(levels, dbPos, cache), CompactEvent(info, true)) && Gapless(levels[1]) {
      AppendGapless(levels[1], info);
    }
  }

  lemma GaplessLastHoldsMax(s: seq<FileInfo>)
    requires Gapless(s) && s != [] && forall f :: f in s ==> WellFormed(f)
    ensures s[|s| - 1].maxTXID == MaxTXID(FilesOf(s))
  {
    forall f | f in FilesOf(s)
      ensures f.maxTXID <= s[|s| - 1].maxTXID
    {
      var i :| 0 <= i < |s| && s[i] == f;
      GaplessGrows(s, i, |s| - 1);
    }
    assert s[|s| - 1] in FilesOf(s);
  }

  lemma SeekIsSource(listing: seq<FileInfo>, t: TXID)
    requires Sorted(listing)
    ensures var src := Seek(listing, t);
            && SourceOf(FilesOf(src), FilesOf(listing), t)
            && (src != [] ==> src[0] in FilesOf(src) && forall f :: f in FilesOf(src) ==> src[0].minTXID <= f.minTXID)
  {
  }

  lemma PlannedIsEnabled(s: State, listing: seq<FileInfo>, prevMax: TXID, level: nat, info: FileInfo)
    requires Inv(s) && 1 <= level < SNAPSHOT_LEVEL && s.levels[level - 1] == FilesOf(listing) && Sorted(listing)
    requires CompactionPlan(listing, prevMax, level, Written(info))
    requires level == 1 ==> prevMax <= Watermark(s)
    ensures Enabled(s, CompactEvent(info, false)) && Enabled(s, CompactEvent(info, true))
    ensures Strict(s) && prevMax == MaxTXID(s.levels[level]) ==> Lossless(s, CompactEvent(info, true))
  {
    var src := Seek(listing, prevMax + 1);
    LastIsMax(src);
    SeekIsSource(listing, prevMax + 1);
    CompactionEnabled(s, level, prevMax, FilesOf(src), src[0], info);
    if Strict(s) && prevMax == MaxTXID(s.levels[level]) {
      CompactionLossless(s, level, FilesOf(src), src[0], info);
    }
  }

  function CompactEvent(info: FileInfo, acked: bool): Event {
    ReplicaMachine.Compact(info.level, info.minTXID, info.maxTXID, info.createdAt, acked)
  }

  lemma LastIsMax(src: seq<FileInfo>)
    requires PageImage.Mergeable(src)
    ensures MaxTXID(FilesOf(src)) == src[|src| - 1].maxTXID
  {
    var n := |src| - 1;
    forall i | 0 <= i <= n
      ensures src[i].maxTXID <= src[n].maxTXID
    {
      MergeableGrows(src, i, n);
    }
    assert src[n] in FilesOf(src);
  }

  lemma {:induction false} MergeableGrows(src: seq<FileInfo>, i: nat, j: nat)
    requires PageImage.Mergeable(src) && i <= j < |src|
    ensures src[i].maxTXID <= src[j].maxTXID
    decreases j
  {
    if i < j {
      MergeableGrows(src, i, j - 1);
      assert PageImage.ContinuesAt(src, j);
    }
  }
}
