/** Follow mode: polling the replica and patching the restored database in place. Every I/O call
    may fail; a failing call is also where the process may crash. */
module Follow {
  import opened Ltx
  import opened PageImage
  import opened RestorePlan
  import opened RestoreTheorems
  import opened FollowTheory

  /** The replica as one poll sees it: the listings of levels 0..8 and the files behind them. */
  datatype Remote = Remote(levels: seq<seq<FileInfo>>, files: map<FileInfo, Changes>) {
    /** Listings are in filename order, level 0 holds single transactions, files tell the truth. */
    ghost predicate Truthful(h: History) {
      && |levels| == SNAPSHOT_LEVEL
      && (forall l :: 0 <= l < |levels| ==> Sorted(levels[l]))
      && (forall l, f :: 0 <= l < |levels| && f in levels[l] ==> Stored(h, f))
      && (forall f :: f in levels[0] ==> f.minTXID == f.maxTXID)
    }

    ghost predicate Stored(h: History, f: FileInfo) {
      Within(h, f) && f in files && files[f] == Content(h, f)
    }

    /** No listed file ends behind n. */
    ghost predicate EndsBy(n: TXID) {
      forall l, f :: 0 <= l < |levels| && f in levels[l] ==> f.maxTXID <= n
    }

    /** What a search of one level for the files that lead from `after` to the gap's end comes to, if it
        ends at cur: there, or where no file of the level leads on. */
    ghost predicate Searched(level: nat, after: TXID, gapMin: TXID, cur: TXID)
      requires level < |levels|
    {
      SearchedIn(levels[level], after, gapMin, cur)
    }

    /** And one over levels 1..8: the first level with a file that continues `after` is searched. */
    ghost predicate Bridged(after: TXID, gapMin: TXID, cur: TXID) {
      if cur == after then !CanExtend(1, after)
      else exists l :: 1 <= l < |levels| && FirstToExtend(l, after) && Searched(l, after, gapMin, cur)
    }

    ghost predicate FirstToExtend(l: nat, after: TXID)
      requires l < |levels|
    {
      && Leads(levels[l], after)
      && forall l', f :: 1 <= l' < l && f in levels[l'] ==> !Extends(f, after)
    }

    /** What a poll comes to, if it ends at cur: all of level 0 is applied, or it is up to a gap that the
        search from some a on could not bridge, or there was nothing at level 0 and the other levels were
        searched. */
    ghost predicate PolledTo(after: TXID, cur: TXID)
      requires levels != []
    {
      || ((exists f :: f in levels[0] && after < f.minTXID) && forall f :: f in levels[0] ==> f.maxTXID <= cur)
      || (exists f, a :: f in levels[0] && after <= a && StoppedAt(f, a, cur))
      || ((forall f :: f in levels[0] ==> f.minTXID <= after) && Bridged(after, after + 1, cur))
    }

    ghost predicate StoppedAt(f: FileInfo, a: TXID, cur: TXID)
      requires levels != []
    {
      && a <= cur && cur + 1 < f.minTXID && Bridged(a, f.minTXID, cur)
      && forall g :: g in levels[0] ==> g.maxTXID <= cur || f.minTXID <= g.minTXID
    }

    /** Some listed file at levels lo..8 continues the database at cur. */
    ghost predicate CanExtend(lo: nat, cur: TXID) {
      exists l, f :: lo <= l < |levels| && f in levels[l] && Extends(f, cur)
    }
  }

  /** b is a, or larger, but not beyond n then. */
  predicate GrownWithin(a: TXID, b: TXID, n: TXID) {
    a <= b <= Larger(a, n)
  }

  /** Some file of the listing continues a database at `after`. */
  ghost predicate Leads(items: seq<FileInfo>, after: TXID) {
    exists f :: f in items && Extends(f, after)
  }

  ghost predicate SearchedIn(items: seq<FileInfo>, after: TXID, gapMin: TXID, cur: TXID) {
    (cur > after && cur + 1 >= gapMin) || forall f :: f in items ==> !Extends(f, cur)
  }

  /** Everything applied since `before` is from this listing, and ends in front of the gap. */
  ghost predicate TakenInFront(items: seq<FileInfo>, gapMin: TXID, before: seq<FileInfo>, applied: seq<FileInfo>)
    decreases |applied|
  {
    if |applied| <= |before| then applied == before
    else
      var n := |applied| - 1;
      applied[n] in items && applied[n].maxTXID + 1 < gapMin && TakenInFront(items, gapMin, before, applied[..n])
  }

  /** But the last file may lead past it. */
  ghost predicate TakenFrom(items: seq<FileInfo>, gapMin: TXID, before: seq<FileInfo>, applied: seq<FileInfo>) {
    if |applied| <= |before| then applied == before
    else
      var n := |applied| - 1;
      applied[n] in items && TakenInFront(items, gapMin, before, applied[..n])
  }

  lemma TakenMore(items: seq<FileInfo>, gapMin: TXID, before: seq<FileInfo>, applied: seq<FileInfo>, f: FileInfo)
    requires TakenInFront(items, gapMin, before, applied) && f in items
    ensures TakenFrom(items, gapMin, before, applied) && TakenFrom(items, gapMin, before, applied + [f])
    ensures f.maxTXID + 1 < gapMin ==> TakenInFront(items, gapMin, before, applied + [f])
  {
    assert (applied + [f])[..|applied|] == applied;
    TakenExtends(items, gapMin, before, applied);
  }

  lemma {:induction false} TakenExtends(items: seq<FileInfo>, gapMin: TXID, before: seq<FileInfo>, applied: seq<FileInfo>)
    requires TakenInFront(items, gapMin, before, applied)
    ensures |before| <= |applied|
    decreases |applied|
  {
    if |applied| > |before| {
      TakenExtends(items, gapMin, before, applied[..|applied| - 1]);
    }
  }

  /** A poll that applied the items in front of items[k], or all of them, has come to where a poll comes to. */
  lemma Polled(remote: Remote, items: seq<FileInfo>, afterTXID: TXID, k: nat, a: TXID, cur: TXID)
    requires remote.levels != [] && Sorted(remote.levels[0]) && items == Seek(remote.levels[0], afterTXID + 1) && k <= |items| && afterTXID <= cur
    requires forall f :: f in remote.levels[0] ==> f.minTXID == f.maxTXID
    requires forall j :: 0 <= j < k ==> items[j].maxTXID <= cur
    requires k < |items| ==> afterTXID <= a <= cur && cur + 1 < items[k].minTXID && remote.Bridged(a, items[k].minTXID, cur)
    requires items == [] ==> remote.Bridged(afterTXID, afterTXID + 1, cur)
    ensures remote.PolledTo(afterTXID, cur)
  {
    OlderOrSought(remote.levels[0], items, afterTXID);
    if k < |items| {
      BehindGap(remote.levels[0], items, afterTXID, k, cur);
      assert items[k] in remote.levels[0] && remote.StoppedAt(items[k], a, cur);
    } else if items != [] {
      assert items[0] in remote.levels[0] && afterTXID < items[0].minTXID;
    }
  }

  lemma OlderOrSought(listing: seq<FileInfo>, items: seq<FileInfo>, after: TXID)
    requires Sorted(listing) && items == Seek(listing, after + 1)
    ensures forall f :: f in listing ==> f.minTXID <= after || f in items
    ensures forall j :: 0 <= j < |items| ==> items[j] in listing && after < items[j].minTXID
  {
    forall j | 0 <= j < |items|
      ensures items[j] in listing && after < items[j].minTXID
    {
      assert items[j] in items;
    }
  }

  lemma BehindGap(listing: seq<FileInfo>, items: seq<FileInfo>, after: TXID, k: nat, cur: TXID)
    requires Sorted(items) && k < |items| && after <= cur
    requires forall f :: f in listing ==> f.minTXID == f.maxTXID && (f.minTXID <= after || f in items)
    requires forall j :: 0 <= j < k ==> items[j].maxTXID <= cur
    ensures forall g :: g in listing ==> g.maxTXID <= cur || items[k].minTXID <= g.minTXID
  {
  }

  /** So a poll moves if and only if some file leads on, and leaves no file of level 0 that does. */
  lemma PollMoves(remote: Remote, after: TXID, cur: TXID)
    requires remote.levels != [] && (forall f :: f in remote.levels[0] ==> f.minTXID == f.maxTXID) && after <= cur
    requires remote.PolledTo(after, cur) && (cur > after ==> remote.CanExtend(0, after))
    ensures cur > after <==> remote.CanExtend(0, after)
    ensures forall f :: f in remote.levels[0] ==> !Extends(f, cur)
  {
  }

  /** If level 0 has no gap exactly its files are applied. */
  ghost predicate AppliedPlainly(before: seq<FileInfo>, after: TXID, items: seq<FileInfo>, i: nat, applied: seq<FileInfo>)
    requires i <= |items|
  {
    Touching(after, items) ==> applied == before + items[..i]
  }

  lemma AppliedNext(before: seq<FileInfo>, after: TXID, items: seq<FileInfo>, i: nat, i': nat, applied: seq<FileInfo>, cur: TXID, applied': seq<FileInfo>)
    requires i < |items| && i' == i + 1 && AppliedPlainly(before, after, items, i, applied)
    requires before <= applied && End(after, applied[|before|..]) == cur
    requires items[i].minTXID <= cur + 1 ==> applied' == if cur < items[i].maxTXID then applied + [items[i]] else applied
    ensures AppliedPlainly(before, after, items, i', applied')
    ensures items[i].minTXID > cur + 1 ==> !Touching(after, items)
  {
    if Touching(after, items) {
      assert applied[|before|..] == items[..i];
      assert items[..i'] == items[..i] + [items[i]];
    }
  }

  /** Where the files in front are used up and the next one starts too late, none leads on. */
  lemma SearchEnds(items: seq<FileInfo>, i: nat, after: TXID, gapMin: TXID, cur: TXID)
    requires Sorted(items) && i <= |items| && (i < |items| ==> items[i].minTXID > cur + 1)
    requires forall j :: 0 <= j < i ==> items[j].maxTXID <= cur
    ensures SearchedIn(items, after, gapMin, cur)
  {
  }

  // ---------------------------------------------------------------------------------------
  // Resuming after a crash

  datatype ResumeResult = Resumes | NoTXIDFile | CannotValidate | HistoryPruned | AheadOfSnapshot

  /** The outcome of the resume test against the snapshot listed last. */
  function ResumeTest(snapshots: seq<FileInfo>, txid: TXID): ResumeResult {
    if snapshots == [] then Resumes
    else
      var latest := snapshots[|snapshots| - 1];
      if latest.minTXID > txid then HistoryPruned
      else if txid > latest.maxTXID then AheadOfSnapshot
      else Resumes
  }

  /** The test a follower's saved transaction must pass before it resumes after a crash. */
  method CheckResume(snapshots: seq<FileInfo>, txid: TXID) returns (r: ResumeResult)
    ensures r == ResumeTest(snapshots, txid)
  {
    var latestSnapshot: Option<FileInfo> := None;
    for i := 0 to |snapshots|
      invariant latestSnapshot == if i == 0 then None else Some(snapshots[i - 1])
    {
      latestSnapshot := Some(snapshots[i]);
    }
    if latestSnapshot.Some? {
      if latestSnapshot.value.minTXID > txid {
        return HistoryPruned;
      }
      if txid > latestSnapshot.value.maxTXID {
        return AheadOfSnapshot;
      }
    }
    return Resumes;
  }

  // ---------------------------------------------------------------------------------------
  // Following

  class Follower {
    ghost const h: History
    var img: Image          // the database file
    var sidecar: TXID       // the transaction recorded next to it
    var lastTXID: TXID      // the same, as the running process remembers it
    var budget: nat         // I/O calls that succeed before the next one fails
    ghost var failures: nat // I/O calls that have failed

    ghost var upTo: TXID            // the image may differ from its state on pages touched up to here
    ghost var applied: seq<FileInfo> // the files applied so far

    constructor (ghost h: History, img: Image, txid: TXID)
      requires ValidHistory(h) && txid <= |h.txns| && SameImage(h.lock, img, State(h, txid))
      ensures Recoverable() && lastTXID == sidecar == txid && this.h == h && this.img == img && upTo == txid
    {
      this.h := h;
      this.img := img;
      sidecar, lastTXID, upTo := txid, txid, txid;
      budget, failures := 0, 0;
      applied := [];
      new;
      StateSize(h, txid);
    }

    /** What every moment of a run keeps, whatever fails: later files can still repair the image. */
    ghost predicate Recoverable()
      reads this
    {
      ValidHistory(h) && Torn(h, img, sidecar, upTo)
    }

    method Io() returns (ok: bool)
      modifies this`budget, this`failures
      ensures if old(budget) == 0 then !ok && budget == 0 && failures == old(failures) + 1
              else ok && budget == old(budget) - 1 && failures == old(failures)
    {
      ok := budget > 0;
      if ok {
        budget := budget - 1;
      } else {
        failures := failures + 1;
      }
    }

    method ApplyLTXFile(remote: Remote, info: FileInfo, ghost cur: TXID) returns (ok: bool)
      requires ValidHistory(h) && remote.Stored(h, info) && Extends(info, cur) && Torn(h, img, cur, upTo)
      modifies this`img, this`budget, this`failures, this`upTo, this`applied
      ensures failures == old(failures) + if ok then 0 else 1
      ensures upTo == Larger(old(upTo), info.maxTXID) && Torn(h, img, cur, upTo)
      ensures ok ==> img == ApplyFile(h, old(img), info) && Torn(h, img, info.maxTXID, upTo)
      ensures applied == if ok then old(applied) + [info] else old(applied)
    {
      upTo := Larger(upTo, info.maxTXID);
      TornWiden(h, img, cur, old(upTo), upTo);
      ApplyAdvances(h, img, cur, upTo, info);
      ok := Io(); // open the file and decode its header
      if !ok {
        return;
      }
      var c := remote.files[info];
      var pgno: nat := 1;
      while pgno <= c.commit
        invariant 1 <= pgno <= c.commit + 1
        invariant img == PartialApply(old(img), c, pgno - 1)
        invariant upTo == Larger(old(upTo), info.maxTXID) && applied == old(applied) && failures == old(failures)
      {
        if pgno in c.pages {
          ok := Io(); // decode the page and write it
          if !ok {
            CrashInApply(h, old(img), cur, upTo, info, pgno - 1);
            return;
          }
          img := img.Write(pgno, c.pages[pgno]);
        }
        pgno := pgno + 1;
      }
      CrashInApply(h, old(img), cur, upTo, info, c.commit);
      assert ValidAt(h, info.maxTXID);
      if c.commit > 0 {
        ok := Io();
        if !ok {
          return;
        }
        img := img.Truncate(c.commit);
        TornTruncate(h, PartialApply(old(img), c, c.commit), cur, upTo, info.maxTXID);
      }
      ok := Io(); // close the decoder and sync
      if ok {
        applied := applied + [info];
      }
    }

    /** The chain applied since `from`, each file touching what came before it. */
    ghost predicate AppliedChain(from: seq<FileInfo>, start: TXID, end: TXID)
      reads this
    {
      from <= applied && Touching(start, applied[|from|..]) && End(start, applied[|from|..]) == end
    }

    /** Files from `start` up to `cur` have been applied, and the image is torn past `cur` at most. */
    ghost predicate At(n: TXID, from: seq<FileInfo>, start: TXID, cur: TXID)
      reads this
    {
      ValidHistory(h) && GrownWithin(start, cur, n) && Torn(h, img, cur, upTo) && AppliedChain(from, start, cur)
    }

    lemma AppliedMore(from: seq<FileInfo>, start: TXID, cur: TXID, f: FileInfo)
      requires AppliedChain(from, start, cur) && Extends(f, cur)
      ensures var more := applied + [f];
              from <= more && Touching(start, more[|from|..]) && End(start, more[|from|..]) == f.maxTXID
    {
    }

    /** Applies one file that continues the database at cur. */
    method Advance(remote: Remote, info: FileInfo, cur: TXID, ghost n: TXID, ghost from: seq<FileInfo>, ghost start: TXID) returns (ok: bool)
      requires At(n, from, start, cur) && remote.Stored(h, info) && Extends(info, cur) && info.maxTXID <= n
      modifies this`img, this`budget, this`failures, this`upTo, this`applied
      ensures failures == old(failures) + if ok then 0 else 1
      ensures GrownWithin(old(upTo), upTo, n)
      ensures if ok then At(n, from, start, info.maxTXID) else At(n, from, start, cur)
      ensures applied == if ok then old(applied) + [info] else old(applied)
    {
      AppliedMore(from, start, cur, info);
      ok := ApplyLTXFile(remote, info, cur);
    }

    /** One level of the gap search. Stops at the first file that starts too late, and once past the gap. */
    method FillFromLevel(remote: Remote, level: nat, afterTXID: TXID, gapMinTXID: TXID, ghost n: TXID, ghost from: seq<FileInfo>, ghost start: TXID)
      returns (ok: bool, currentTXID: TXID)
      requires remote.Truthful(h) && remote.EndsBy(n) && 1 <= level < SNAPSHOT_LEVEL && At(n, from, start, afterTXID)
      modifies this`img, this`budget, this`failures, this`upTo, this`applied
      ensures failures == old(failures) + if ok then 0 else 1
      ensures afterTXID <= currentTXID && At(n, from, start, currentTXID) && GrownWithin(old(upTo), upTo, n)
      ensures currentTXID > afterTXID ==> Leads(remote.levels[level], afterTXID)
      ensures ok ==> remote.Searched(level, afterTXID, gapMinTXID, currentTXID)
      ensures TakenFrom(remote.levels[level], gapMinTXID, old(applied), applied)
    {
      currentTXID := afterTXID;
      ok := Io(); // list the level
      if !ok {
        return;
      }
      ok, currentTXID := SearchLevel(remote, remote.levels[level], afterTXID, gapMinTXID, n, from, start);
      if ok {
        ok := Io(); // close the iterator
      }
    }

    ghost predicate AllStored(remote: Remote, items: seq<FileInfo>, n: TXID) {
      ValidHistory(h) && forall f :: f in items ==> remote.Stored(h, f) && f.maxTXID <= n
    }

    /** A search of a level that has come to cur: what it applied, and that it was entitled to. */
    ghost predicate Searching(items: seq<FileInfo>, after: TXID, gapMin: TXID, n: TXID, from: seq<FileInfo>, start: TXID,
                              before: seq<FileInfo>, cur: TXID)
      reads this
    {
      && after <= cur && At(n, from, start, cur) && TakenFrom(items, gapMin, before, applied)
      && (cur > after ==> Leads(items, after))
    }

    /** Before item i nothing is left to apply, and the gap is still ahead. */
    ghost predicate SearchedTo(items: seq<FileInfo>, i: nat, after: TXID, gapMin: TXID, n: TXID, from: seq<FileInfo>, start: TXID,
                               before: seq<FileInfo>, cur: TXID)
      reads this
      requires i <= |items|
    {
      && Searching(items, after, gapMin, n, from, start, before, cur) && TakenInFront(items, gapMin, before, applied)
      && forall j :: 0 <= j < i ==> items[j].maxTXID <= cur
    }

    method SearchLevel(remote: Remote, items: seq<FileInfo>, afterTXID: TXID, gapMinTXID: TXID, ghost n: TXID, ghost from: seq<FileInfo>, ghost start: TXID)
      returns (ok: bool, currentTXID: TXID)
      requires Sorted(items) && AllStored(remote, items, n) && At(n, from, start, afterTXID)
      modifies this`img, this`budget, this`failures, this`upTo, this`applied
      ensures failures == old(failures) + if ok then 0 else 1
      ensures Searching(items, afterTXID, gapMinTXID, n, from, start, old(applied), currentTXID) && GrownWithin(old(upTo), upTo, n)
      ensures ok ==> SearchedIn(items, afterTXID, gapMinTXID, currentTXID)
    {
      currentTXID := afterTXID;
      for i := 0 to |items|
        invariant SearchedTo(items, i, afterTXID, gapMinTXID, n, from, start, old(applied), currentTXID)
        invariant failures == old(failures) && GrownWithin(old(upTo), upTo, n)
      {
        if items[i].minTXID > currentTXID + 1 {
          SearchEnds(items, i, afterTXID, gapMinTXID, currentTXID);
          return true, currentTXID;
        }
        var stop;
        ok, currentTXID, stop := SearchOne(remote, items, i, afterTXID, gapMinTXID, currentTXID, n, from, start, old(applied));
        if !ok || stop {
          return;
        }
      }
      SearchEnds(items, |items|, afterTXID, gapMinTXID, currentTXID);
      ok := true;
    }

    /** An item that does not start too late is applied if it reaches further; `stop` says that the gap is
        bridged. */
    method SearchOne(remote: Remote, items: seq<FileInfo>, i: nat, ghost afterTXID: TXID, gapMinTXID: TXID, cur: TXID, ghost n: TXID,
                     ghost from: seq<FileInfo>, ghost start: TXID, ghost before: seq<FileInfo>)
      returns (ok: bool, currentTXID: TXID, stop: bool)
      requires i < |items| && items[i].minTXID <= cur + 1 && remote.Stored(h, items[i]) && items[i].maxTXID <= n
      requires SearchedTo(items, i, afterTXID, gapMinTXID, n, from, start, before, cur)
      modifies this`img, this`budget, this`failures, this`upTo, this`applied
      ensures failures == old(failures) + if ok then 0 else 1
      ensures Searching(items, afterTXID, gapMinTXID, n, from, start, before, currentTXID) && GrownWithin(old(upTo), upTo, n)
      ensures ok && !stop ==> SearchedTo(items, i + 1, afterTXID, gapMinTXID, n, from, start, before, currentTXID)
      ensures ok && stop ==> SearchedIn(items, afterTXID, gapMinTXID, currentTXID)
    {
      if items[i].maxTXID <= cur {
        return true, cur, false;
      }
      TakenMore(items, gapMinTXID, before, applied, items[i]);
      ok := Advance(remote, items[i], cur, n, from, start);
      currentTXID := if ok then items[i].maxTXID else cur;
      stop := currentTXID + 1 >= gapMinTXID;
    }

    method FillFollowGap(remote: Remote, afterTXID: TXID, gapMinTXID: TXID, ghost n: TXID, ghost from: seq<FileInfo>, ghost start: TXID)
      returns (ok: bool, currentTXID: TXID)
      requires remote.Truthful(h) && remote.EndsBy(n) && At(n, from, start, afterTXID)
      modifies this`img, this`budget, this`failures, this`upTo, this`applied
      ensures failures == old(failures) + if ok then 0 else 1
      ensures afterTXID <= currentTXID && At(n, from, start, currentTXID) && GrownWithin(old(upTo), upTo, n)
      ensures currentTXID > afterTXID ==> remote.CanExtend(1, afterTXID)
      ensures ok ==> remote.Bridged(afterTXID, gapMinTXID, currentTXID)
    {
      currentTXID := afterTXID;
      ok := true;
      for level := 1 to SNAPSHOT_LEVEL
        invariant ok && failures == old(failures) && currentTXID == afterTXID && GrownWithin(old(upTo), upTo, n) && At(n, from, start, currentTXID)
        invariant forall l, f :: 1 <= l < level && f in remote.levels[l] ==> !Extends(f, afterTXID)
      {
        ok, currentTXID := FillFromLevel(remote, level, currentTXID, gapMinTXID, n, from, start);
        if currentTXID > afterTXID {
          assert remote.FirstToExtend(level, afterTXID);
          return;
        }
        if !ok {
          return;
        }
      }
    }

    /** One level-0 file: bridge a gap before it if there is one, then apply it if still needed.
        `stop` means that the gap could not be bridged up to the file. */
    method FollowFile(remote: Remote, info: FileInfo, cur: TXID, ghost n: TXID, ghost from: seq<FileInfo>, ghost start: TXID)
      returns (ok: bool, currentTXID: TXID, stop: bool)
      requires remote.Truthful(h) && remote.EndsBy(n) && At(n, from, start, cur) && info in remote.levels[0]
      modifies this`img, this`budget, this`failures, this`upTo, this`applied
      ensures failures == old(failures) + if ok then 0 else 1
      ensures cur <= currentTXID && At(n, from, start, currentTXID) && GrownWithin(old(upTo), upTo, n)
      ensures currentTXID > cur ==> remote.CanExtend(0, cur)
      ensures ok && stop ==> info.minTXID > currentTXID + 1 && remote.Bridged(cur, info.minTXID, currentTXID)
      ensures ok && !stop ==> info.maxTXID <= currentTXID
      ensures ok && info.minTXID <= cur + 1 ==> applied == if cur < info.maxTXID then old(applied) + [info] else old(applied)
    {
      currentTXID := cur;
      ok, stop := true, false;
      if info.minTXID > currentTXID + 1 {
        ok, currentTXID := FillFollowGap(remote, currentTXID, info.minTXID, n, from, start);
        if !ok {
          return;
        }
        if info.maxTXID <= currentTXID {
          return;
        }
        if info.minTXID > currentTXID + 1 {
          stop := true;
          return;
        }
      }
      if info.maxTXID <= currentTXID {
        return;
      }
      assert currentTXID == cur ==> info in remote.levels[0] && Extends(info, cur);
      ok := Advance(remote, info, currentTXID, n, from, start);
      if ok {
        currentTXID := info.maxTXID;
      }
    }

    /** Item i of the level-0 listing. */
    method FollowNext(remote: Remote, items: seq<FileInfo>, i: nat, cur: TXID, ghost n: TXID, ghost before: seq<FileInfo>, ghost after: TXID)
      returns (ok: bool, currentTXID: TXID, stop: bool)
      requires remote.Truthful(h) && remote.EndsBy(n) && i < |items| && items[i] in remote.levels[0]
      requires At(n, before, after, cur) && AppliedPlainly(before, after, items, i, applied)
      modifies this`img, this`budget, this`failures, this`upTo, this`applied
      ensures failures == old(failures) + if ok then 0 else 1
      ensures At(n, before, after, currentTXID) && GrownWithin(old(upTo), upTo, n)
      ensures cur <= currentTXID && (currentTXID > cur ==> remote.CanExtend(0, cur))
      ensures ok && stop ==> items[i].minTXID > currentTXID + 1 && remote.Bridged(cur, items[i].minTXID, currentTXID)
      ensures ok && !stop ==> items[i].maxTXID <= currentTXID
      ensures ok ==> AppliedPlainly(before, after, items, i + 1, applied)
      ensures ok && stop ==> AppliedPlainly(before, after, items, |items|, applied)
    {
      ghost var now := applied;
      ok, currentTXID, stop := FollowFile(remote, items[i], cur, n, before, after);
      if ok {
        AppliedNext(before, after, items, i, i + 1, now, cur, applied);
      }
    }

    /** The level-0 part of a poll, over the listing from the transaction after afterTXID on. Item k is the
        one in front of which it stopped, where the gap search began at a; |items| if there is none. */
    method FollowLevel0(remote: Remote, ghost n: TXID, items: seq<FileInfo>, afterTXID: TXID)
      returns (ok: bool, currentTXID: TXID, ghost k: nat, ghost a: TXID)
      requires remote.Truthful(h) && remote.EndsBy(n) && At(n, applied, afterTXID, afterTXID)
      requires forall f :: f in items ==> f in remote.levels[0]
      modifies this`img, this`budget, this`failures, this`upTo, this`applied
      ensures failures == old(failures) + if ok then 0 else 1
      ensures At(n, old(applied), afterTXID, currentTXID) && GrownWithin(old(upTo), upTo, n)
      ensures currentTXID > afterTXID ==> remote.CanExtend(0, afterTXID)
      ensures k <= |items| && forall j :: 0 <= j < k ==> items[j].maxTXID <= currentTXID
      ensures ok && k < |items| ==> afterTXID <= a <= currentTXID && currentTXID + 1 < items[k].minTXID && remote.Bridged(a, items[k].minTXID, currentTXID)
      ensures ok && items == [] ==> currentTXID == afterTXID
      ensures ok ==> AppliedPlainly(old(applied), afterTXID, items, |items|, applied)
    {
      currentTXID := afterTXID;
      a := afterTXID;
      k := 0;
      for i := 0 to |items|
        invariant At(n, old(applied), afterTXID, currentTXID) && GrownWithin(old(upTo), upTo, n)
        invariant currentTXID > afterTXID ==> remote.CanExtend(0, afterTXID)
        invariant i == 0 ==> currentTXID == afterTXID
        invariant k == i && failures == old(failures) && forall j :: 0 <= j < i ==> items[j].maxTXID <= currentTXID
        invariant AppliedPlainly(old(applied), afterTXID, items, i, applied)
      {
        a := currentTXID;
        var stop;
        ok, currentTXID, stop := FollowNext(remote, items, i, currentTXID, n, old(applied), afterTXID);
        if !ok {
          return;
        }
        if stop {
          ok := Io(); // close the iterator
          return;
        }
        k := i + 1;
      }
      ok := Io(); // close the iterator
    }

    method ApplyNewLTXFiles(remote: Remote, ghost n: TXID, afterTXID: TXID) returns (ok: bool, currentTXID: TXID)
      requires ValidHistory(h) && remote.Truthful(h) && remote.EndsBy(n) && Torn(h, img, afterTXID, upTo)
      modifies this`img, this`budget, this`failures, this`upTo, this`applied
      ensures failures == old(failures) + if ok then 0 else 1
      ensures At(n, old(applied), afterTXID, currentTXID) && GrownWithin(old(upTo), upTo, n)
      ensures ok ==> (currentTXID > afterTXID <==> remote.CanExtend(0, afterTXID))
      ensures ok ==> remote.PolledTo(afterTXID, currentTXID)
      ensures var items := Seek(remote.levels[0], afterTXID + 1);
              ok && items != [] && Touching(afterTXID, items) ==> applied == old(applied) + items
    {
      currentTXID := afterTXID;
      ok := Io(); // list level 0
      if !ok {
        return;
      }
      var items := Seek(remote.levels[0], currentTXID + 1);
      ghost var k, a;
      ok, currentTXID, k, a := FollowLevel0(remote, n, items, afterTXID);
      assert items[..|items|] == items;
      if ok && |items| == 0 {
        ok, currentTXID := FillFollowGap(remote, currentTXID, currentTXID + 1, n, old(applied), afterTXID);
      }
      if ok {
        Polled(remote, items, afterTXID, k, a, currentTXID);
        PollMoves(remote, afterTXID, currentTXID);
      }
    }

    /** One tick of the follow loop, in which `ioCalls` I/O calls succeed before one fails. The sidecar is
        replaced atomically, after the image; if that fails the loop ends. */
    method Poll(remote: Remote, ghost n: TXID, ioCalls: nat, sidecarFails: bool) returns (ok: bool, running: bool)
      requires Recoverable() && lastTXID == sidecar && remote.Truthful(h) && remote.EndsBy(n)
      modifies this
      ensures Recoverable() && (running ==> lastTXID == sidecar) && GrownWithin(old(sidecar), sidecar, n) && GrownWithin(old(upTo), upTo, n)
      ensures ok ==> Torn(h, img, sidecar, upTo) && AppliedChain(old(applied), old(sidecar), sidecar)
      ensures ok ==> (sidecar > old(sidecar) <==> remote.CanExtend(0, old(sidecar)))
      ensures ok ==> remote.PolledTo(old(sidecar), sidecar)
      ensures var items := Seek(remote.levels[0], old(sidecar) + 1);
              ok && items != [] && Touching(old(sidecar), items) ==> applied == old(applied) + items
      ensures ok <==> failures == old(failures) && !(sidecarFails && remote.CanExtend(0, old(sidecar)))
      ensures running <==> ok || failures == old(failures) + 1
      ensures failures == old(failures) || failures == old(failures) + 1
      ensures ok && upTo <= sidecar ==> SameImage(h.lock, img, State(h, sidecar))
      ensures !ok ==> sidecar == old(sidecar)
    {
      running := true;
      budget := ioCalls;
      var newTXID;
      ok, newTXID := ApplyNewLTXFiles(remote, n, lastTXID);
      TornBack(h, img, sidecar, newTXID, upTo);
      if !ok {
        return;
      }
      if newTXID > lastTXID {
        if sidecarFails {
          return false, false;
        }
        sidecar := newTXID;
        lastTXID := newTXID;
      }
      if upTo <= sidecar {
        TornExact(h, img, sidecar);
      }
    }

    /** After a crash the process resumes from the sidecar, if there is one, the snapshots can be listed
        and the check against them lets it; the image is whatever is on disk. */
    method Restart(snapshots: Option<seq<FileInfo>>) returns (r: ResumeResult)
      requires Recoverable()
      modifies this`lastTXID
      ensures Recoverable()
      ensures r == if sidecar == 0 then NoTXIDFile else if snapshots.None? then CannotValidate else ResumeTest(snapshots.value, sidecar)
      ensures lastTXID == if r == Resumes then sidecar else old(lastTXID)
    {
      if sidecar == 0 {
        return NoTXIDFile;
      }
      if snapshots.None? {
        return CannotValidate;
      }
      r := CheckResume(snapshots.value, sidecar);
      if r == Resumes {
        lastTXID := sidecar;
      }
    }
  }
}
