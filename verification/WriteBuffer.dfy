/** The buffer file of a VFS writer: where dirty pages are kept, and what it holds. */
module WriteBuffer {
  import opened Ltx
  import opened Wal

  function Zeros(n: nat): (r: Bytes)
    ensures |r| == n && forall i :: 0 <= i < n ==> r[i] == 0
  {
    seq(n, _ => 0)
  }

  /** Writing bytes into a file at an offset, which may lie past its end. */
  function WriteBytes(file: Bytes, off: nat, data: Bytes): Bytes {
    if |file| < off then file + Zeros(off - |file|) + data
    else if |file| < off + |data| then file[..off] + data
    else file[..off] + data + file[off + |data|..]
  }

  /** Every dirty page has a slot of its own in front of the next free offset. */
  ghost predicate Slots(dirty: map<nat, nat>, next: nat, size: nat) {
    && (forall p :: p in dirty ==> dirty[p] + size <= next)
    && forall p, q :: p in dirty && q in dirty && p != q ==> Apart(dirty[p], dirty[q], size)
  }

  predicate Apart(x: nat, y: nat, size: nat) {
    x + size <= y || y + size <= x
  }

  /** The file is long enough to read back every dirty page. */
  predicate Fits(dirty: map<nat, nat>, length: nat, size: nat) {
    forall p :: p in dirty ==> dirty[p] + size <= length
  }

  /** The page in the slot at an offset. */
  function PageIn(file: Bytes, off: nat, size: nat): Bytes
    requires off + size <= |file|
  {
    file[off..off + size]
  }

  /** The dirty pages: what the offsets lead to in the buffer file. */
  ghost function Overlay(dirty: map<nat, nat>, file: Bytes, size: nat): map<nat, Bytes>
    requires Fits(dirty, |file|, size)
  {
    map p | p in dirty :: PageIn(file, dirty[p], size)
  }

  lemma WrittenSlot(file: Bytes, off: nat, data: Bytes)
    ensures |WriteBytes(file, off, data)| >= off + |data| && |WriteBytes(file, off, data)| >= |file|
    ensures PageIn(WriteBytes(file, off, data), off, |data|) == data
  {
  }

  lemma OtherSlot(file: Bytes, off: nat, data: Bytes, other: nat)
    requires other + |data| <= |file| && Apart(off, other, |data|)
    ensures |WriteBytes(file, off, data)| >= |file|
    ensures PageIn(WriteBytes(file, off, data), other, |data|) == PageIn(file, other, |data|)
  {
  }

  /** A page goes into its old slot, or into a new one behind all others. */
  predicate SlotFor(dirty: map<nat, nat>, next: nat, pgno: nat, off: nat, next': nat, size: nat) {
    if pgno in dirty then off == dirty[pgno] && next' == next else off == next && next' == next + size
  }

  lemma SlotTaken(dirty: map<nat, nat>, next: nat, pgno: nat, off: nat, next': nat, size: nat)
    requires Slots(dirty, next, size) && SlotFor(dirty, next, pgno, off, next', size)
    ensures Slots(dirty[pgno := off], next', size)
  {
  }

  /** That replaces exactly this page of the overlay. */
  lemma BufferWrite(dirty: map<nat, nat>, next: nat, file: Bytes, pgno: nat, off: nat, next': nat, data: Bytes)
    requires Slots(dirty, next, |data|) && SlotFor(dirty, next, pgno, off, next', |data|) && Fits(dirty, |file|, |data|)
    ensures Fits(dirty[pgno := off], |WriteBytes(file, off, data)|, |data|)
    ensures Overlay(dirty[pgno := off], WriteBytes(file, off, data), |data|) == Overlay(dirty, file, |data|)[pgno := data]
  {
    WrittenSlot(file, off, data);
    forall p | p in dirty && p != pgno
      ensures PageIn(WriteBytes(file, off, data), dirty[p], |data|) == PageIn(file, dirty[p], |data|)
    {
      assert pgno in dirty ==> Apart(dirty[pgno], dirty[p], |data|);
      OtherSlot(file, off, data, dirty[p]);
    }
  }

  function Below<T>(m: map<nat, T>, n: nat): map<nat, T> {
    map p | p in m && p <= n :: m[p]
  }

  /** Forgetting the offsets of some pages forgets just these pages. */
  lemma BufferCut(dirty: map<nat, nat>, next: nat, file: Bytes, size: nat, n: nat)
    requires Slots(dirty, next, size)
    ensures Slots(Below(dirty, n), next, size)
    ensures Fits(dirty, |file|, size) ==>
              Fits(Below(dirty, n), |file|, size) && Overlay(Below(dirty, n), file, size) == Below(Overlay(dirty, file, size), n)
  {
  }

  // ---------------------------------------------------------------------------------------
  // Buffer files and their names

  /** Where a buffer file may lie: at the configured path, at a path of its own, or at the one that is
      used when writes are enabled later. */
  datatype BufferPath = Configured | Numbered(n: nat) | Cold

  /** Files that were opened stay, whatever becomes of the names that led to them. */
  datatype Disk = Disk(files: seq<Bytes>, names: map<BufferPath, nat>) {
    ghost predicate Valid() {
      forall p :: p in names ==> names[p] < |files|
    }

    /** The file that opening a path for writing gives: the one there, or a new one. */
    function At(p: BufferPath): nat {
      if p in names then names[p] else |files|
    }

    /** Opening a path for writing empties the file. */
    function Create(p: BufferPath): Disk
      requires p in names ==> names[p] < |files|
    {
      if p in names then Disk(files[names[p] := []], names) else Disk(files + [[]], names[p := |files|])
    }

    function Put(k: nat, data: Bytes): Disk
      requires k < |files|
    {
      Disk(files[k := data], names)
    }

    function Remove(p: BufferPath): Disk {
      Disk(files, names - {p})
    }
  }

  /** What someone does with the files of a disk. */
  datatype Use = Creates(p: BufferPath) | Puts(k: nat, data: Bytes) | Removes(p: BufferPath)

  /** Who has opened the files in `held`, and may open the paths in `paths`, can do this. */
  predicate MayUse(d: Disk, held: set<nat>, paths: set<BufferPath>, e: Use) {
    match e
    case Creates(p) => p in paths && (p in d.names ==> d.names[p] < |d.files|)
    case Puts(k, _) => k in held && k < |d.files|
    case Removes(_) => true
  }

  function Used(d: Disk, held: set<nat>, paths: set<BufferPath>, e: Use): Disk
    requires MayUse(d, held, paths, e)
  {
    match e
    case Creates(p) => d.Create(p)
    case Puts(k, data) => d.Put(k, data)
    case Removes(p) => d.Remove(p)
  }

  function HeldAfter(d: Disk, held: set<nat>, e: Use): set<nat> {
    match e
    case Creates(p) => held + {d.At(p)}
    case _ => held
  }

  ghost predicate Uses(d: Disk, held: set<nat>, paths: set<BufferPath>, es: seq<Use>, d': Disk)
    decreases |es|
  {
    if es == [] then d' == d
    else MayUse(d, held, paths, es[0]) && Uses(Used(d, held, paths, es[0]), HeldAfter(d, held, es[0]), paths, es[1..], d')
  }

  ghost predicate CanBecome(d: Disk, held: set<nat>, paths: set<BufferPath>, d': Disk) {
    exists es :: Uses(d, held, paths, es, d')
  }

  /** File k is none of theirs, and no path of theirs leads to it. */
  predicate OutOfReach(d: Disk, held: set<nat>, paths: set<BufferPath>, k: nat) {
    k < |d.files| && k !in held && forall p :: p in paths && p in d.names ==> d.names[p] != k
  }

  predicate SameFile(d: Disk, d': Disk, k: nat) {
    k < |d.files| && k < |d'.files| && d.files[k] == d'.files[k]
  }

  lemma OutOfReachStep(d: Disk, held: set<nat>, paths: set<BufferPath>, k: nat, e: Use)
    requires OutOfReach(d, held, paths, k) && MayUse(d, held, paths, e)
    ensures OutOfReach(Used(d, held, paths, e), HeldAfter(d, held, e), paths, k) && SameFile(d, Used(d, held, paths, e), k)
  {
  }

  lemma {:induction false} OutOfReachRun(d: Disk, held: set<nat>, paths: set<BufferPath>, k: nat, es: seq<Use>, d': Disk)
    requires OutOfReach(d, held, paths, k) && Uses(d, held, paths, es, d')
    ensures SameFile(d, d', k)
    decreases |es|
  {
    if es != [] {
      OutOfReachStep(d, held, paths, k, es[0]);
      OutOfReachRun(Used(d, held, paths, es[0]), HeldAfter(d, held, es[0]), paths, k, es[1..], d');
    }
  }

  lemma OneUse(d: Disk, held: set<nat>, paths: set<BufferPath>, e: Use)
    requires MayUse(d, held, paths, e)
    ensures CanBecome(d, held, paths, Used(d, held, paths, e))
  {
    assert Uses(d, held, paths, [e], Used(d, held, paths, e));
  }

  /** A buffer file that holds something stays as it is, whatever others do, if and only if it is out of
      their reach. */
  lemma KeptIffOutOfReach(d: Disk, held: set<nat>, paths: set<BufferPath>, k: nat)
    requires d.Valid() && k < |d.files| && d.files[k] != []
    ensures (forall d' :: CanBecome(d, held, paths, d') ==> SameFile(d, d', k)) <==> OutOfReach(d, held, paths, k)
  {
    if OutOfReach(d, held, paths, k) {
      forall d' | CanBecome(d, held, paths, d')
        ensures SameFile(d, d', k)
      {
        var es :| Uses(d, held, paths, es, d');
        OutOfReachRun(d, held, paths, k, es, d');
      }
    } else if k in held {
      OneUse(d, held, paths, Puts(k, []));
      assert !SameFile(d, d.Put(k, []), k);
    } else {
      var p :| p in paths && p in d.names && d.names[p] == k;
      OneUse(d, held, paths, Creates(p));
      assert !SameFile(d, d.Create(p), k);
    }
  }

  // ---------------------------------------------------------------------------------------
  // One step of the owner of a buffer file

  function HeldIf(open: bool, k: Option<nat>): set<nat> {
    if open && k.Some? then {k.value} else {}
  }

  function PathIf(open: bool, k: Option<nat>, cold: BufferPath): set<BufferPath> {
    if open && k.None? then {cold} else {}
  }

  predicate NameGone(names: map<BufferPath, nat>, p: BufferPath, names': map<BufferPath, nat>) {
    names' == names - {p}
  }

  /** Only file k may have changed, and a name may be gone. */
  ghost predicate Tended(d: Disk, k: Option<nat>, d': Disk) {
    && |d'.files| == |d.files| && (forall i :: 0 <= i < |d.files| && k != Some(i) ==> d'.files[i] == d.files[i])
    && (d'.names == d.names || exists p :: NameGone(d.names, p, d'.names))
  }

  /** A step of a user of buffer file k: it tends the file, or opens its first one. */
  ghost predicate Stepped(d: Disk, open: bool, k: Option<nat>, cold: BufferPath, d': Disk, k': Option<nat>)
    requires d.Valid()
  {
    || (k' == k && Tended(d, if open then k else None, d'))
    || (open && k.None? && k' == Some(d.At(cold)) && d' == d.Create(cold))
  }

  /** Emptying a file, perhaps, and then removing a name, perhaps, is tending it. */
  lemma EmptiedAndRemoved(d: Disk, k: Option<nat>, m: Disk, d': Disk)
    requires m == d || (k.Some? && k.value < |d.files| && m == d.Put(k.value, []))
    requires d' == m || exists p :: d' == m.Remove(p)
    ensures Tended(d, k, d') && (d.Valid() ==> d'.Valid())
  {
    if d' != m {
      var p :| d' == m.Remove(p);
      assert NameGone(d.names, p, d'.names);
    }
  }

  lemma SteppedIsValid(d: Disk, open: bool, k: Option<nat>, cold: BufferPath, d': Disk, k': Option<nat>)
    requires d.Valid() && Stepped(d, open, k, cold, d', k') && (k.Some? ==> k.value < |d.files|)
    ensures d'.Valid() && |d.files| <= |d'.files| && (k'.Some? ==> k'.value < |d'.files|)
  {
  }

  lemma TendedUses(d: Disk, held: set<nat>, paths: set<BufferPath>, k: Option<nat>, d': Disk)
    requires Tended(d, k, d') && (k.Some? ==> k.value in held && k.value < |d.files|)
    ensures CanBecome(d, held, paths, d')
  {
    var m := if k.Some? then d.Put(k.value, d'.files[k.value]) else d;
    var puts := if k.Some? then [Puts(k.value, d'.files[k.value])] else [];
    assert m == Disk(d'.files, d.names);
    if d'.names == d.names {
      assert m == d';
      assert Uses(d, held, paths, puts, d');
    } else {
      var p :| NameGone(d.names, p, d'.names);
      assert m.Remove(p) == d';
      var e := Removes(p);
      assert Uses(m, held, paths, [e], d');
      assert Uses(d, held, paths, puts + [e], d') by {
        if k.Some? {
          assert (puts + [e])[1..] == [e];
        } else {
          assert puts + [e] == [e];
        }
      }
    }
  }

  lemma SteppedUses(d: Disk, open: bool, k: Option<nat>, cold: BufferPath, d': Disk, k': Option<nat>)
    requires d.Valid() && Stepped(d, open, k, cold, d', k') && (k.Some? ==> k.value < |d.files|)
    ensures CanBecome(d, HeldIf(open, k), PathIf(open, k, cold), d')
  {
    if k' == k && Tended(d, if open then k else None, d') {
      TendedUses(d, HeldIf(open, k), PathIf(open, k, cold), if open then k else None, d');
    } else {
      OneUse(d, HeldIf(open, k), PathIf(open, k, cold), Creates(cold));
    }
  }

  /** Whatever is out of the reach of this user stays so, and out of that of others. */
  lemma SteppedKeeps(d: Disk, open: bool, k: Option<nat>, cold: BufferPath, d': Disk, k': Option<nat>, open': bool, i: nat)
    requires d.Valid() && Stepped(d, open, k, cold, d', k') && (k.Some? ==> k.value < |d.files|)
    requires OutOfReach(d, HeldIf(open, k), PathIf(open, k, cold), i) && (open' ==> open)
    ensures SameFile(d, d', i) && OutOfReach(d', HeldIf(open', k'), PathIf(open', k', cold), i)
  {
  }

  lemma SteppedKeepsOthers(d: Disk, open: bool, k: Option<nat>, cold: BufferPath, d': Disk, k': Option<nat>, held: set<nat>, paths: set<BufferPath>, i: nat)
    requires d.Valid() && Stepped(d, open, k, cold, d', k') && (k.Some? ==> k.value < |d.files|)
    requires OutOfReach(d, held, paths, i)
    ensures OutOfReach(d', held, paths, i)
  {
  }

  /** Copies bytes over a page from an offset on, as far as the page goes. */
  function Patch(page: Bytes, off: nat, b: Bytes): (r: Bytes)
    requires off <= |page|
    ensures |r| == |page| && forall i :: 0 <= i < |page| ==> r[i] == if off <= i < off + |b| then b[i - off] else page[i]
  {
    if |page| < off + |b| then page[..off] + b[..|page| - off] else page[..off] + b + page[off + |b|..]
  }
}
