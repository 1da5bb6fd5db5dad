/** Why follow mode converges although it patches the database in place: files are redo logs, and
    what a crash can leave behind is confined to pages that the next files rewrite or cut off. */
module FollowTheory {
  import opened Ltx
  import opened PageImage
  import opened RestorePlan
  import opened RestoreTheorems

  ghost predicate TouchedBy(h: History, i: TXID, p: nat)
    requires 1 <= i <= |h.txns|
  {
    p in h.txns[i - 1].pages || h.txns[i - 1].commit < p
  }

  /** Some transaction in (t, u] writes page p or cuts it off. */
  ghost predicate Touched(h: History, t: TXID, u: TXID, p: nat)
    requires u <= |h.txns|
  {
    exists i :: t < i <= u && TouchedBy(h, i, p)
  }

  /** The image agrees with the state at t except on pages that transactions in (t, u] touch. */
  ghost predicate Torn(h: History, img: Image, t: TXID, u: TXID) {
    && t <= u <= |h.txns|
    && (forall p :: 1 <= p && p != h.lock && !Touched(h, t, u, p) ==> img.Lookup(p) == State(h, t).Lookup(p))
    && (t == u ==> img.size == h.Commit(t))
  }

  /** The image when the pages of c up to number n have been written and nothing was cut off yet. */
  ghost function PartialApply(img: Image, c: Changes, n: nat): Image {
    if n == 0 then img
    else
      var r := PartialApply(img, c, n - 1);
      if n in c.pages then r.Write(n, c.pages[n]) else r
  }

  lemma TornExact(h: History, img: Image, t: TXID)
    requires Torn(h, img, t, t)
    ensures SameImage(h.lock, img, State(h, t))
  {
  }

  /** A page no transaction in (t, u] touches is the same in the states at t and u. */
  lemma {:induction false} UntouchedSame(h: History, t: TXID, u: TXID, p: nat)
    requires ValidHistory(h) && t <= u <= |h.txns|
    requires 1 <= p && p != h.lock && !Touched(h, t, u, p)
    ensures State(h, t).Lookup(p) == State(h, u).Lookup(p)
    ensures t < u ==> p <= h.Commit(t)
    decreases u
  {
    StateSize(h, t);
    if t < u {
      assert !TouchedBy(h, u, p);
      assert ValidAt(h, u);
      StateSize(h, u - 1);
      TouchedGrows(h, t, u, t, u - 1, p);
      UntouchedSame(h, t, u - 1, p);
    }
  }

  lemma TouchedGrows(h: History, t: TXID, u: TXID, t': TXID, u': TXID, p: nat)
    requires t <= t' && u' <= u <= |h.txns|
    ensures Touched(h, t', u', p) ==> Touched(h, t, u, p)
  {
  }

  /** An image torn with respect to a later position is torn with respect to an earlier one. */
  lemma TornBack(h: History, img: Image, t: TXID, cur: TXID, u: TXID)
    requires ValidHistory(h) && Torn(h, img, cur, u) && t <= cur
    ensures Torn(h, img, t, u)
  {
    forall p | 1 <= p && p != h.lock && !Touched(h, t, u, p)
      ensures img.Lookup(p) == State(h, t).Lookup(p)
    {
      TouchedGrows(h, t, u, cur, u, p);
      TouchedGrows(h, t, u, t, cur, p);
      UntouchedSame(h, t, cur, p);
    }
  }

  lemma TornWiden(h: History, img: Image, t: TXID, u: TXID, u': TXID)
    requires ValidHistory(h) && Torn(h, img, t, u) && u <= u' <= |h.txns|
    ensures Torn(h, img, t, u')
  {
  }

  /** A page of such a file that (cur, b] does not touch already has its right value at cur. */
  lemma UntouchedFilePage(h: History, f: FileInfo, cur: TXID, p: nat)
    requires ValidHistory(h) && Within(h, f) && Extends(f, cur)
    requires p in Content(h, f).pages && !Touched(h, cur, f.maxTXID, p)
    ensures 1 <= p && p != h.lock && State(h, cur).Lookup(p) == Some(Content(h, f).pages[p])
  {
    WrittenHoldsLast(h, f.minTXID, f.maxTXID, p);
    UntouchedSame(h, cur, f.maxTXID, p);
  }

  /** Growth pages are always touched: an untouched page inside the file at b is inside it at cur. */
  lemma UntouchedIsInside(h: History, cur: TXID, b: TXID, p: nat)
    requires ValidHistory(h) && cur < b <= |h.txns|
    requires 1 <= p && p != h.lock && !Touched(h, cur, b, p)
    ensures p <= h.Commit(cur) && State(h, cur).Lookup(p).Some? && p <= h.Commit(b)
  {
    UntouchedSame(h, cur, b, p);
    StateSize(h, cur);
    assert !TouchedBy(h, b, p);
  }

  /** Writing one page of an applicable file keeps the image torn. */
  lemma TornWrite(h: History, img: Image, cur: TXID, u: TXID, f: FileInfo, n: nat)
    requires ValidHistory(h) && Within(h, f) && Extends(f, cur) && f.maxTXID <= u
    requires Torn(h, img, cur, u) && n in Content(h, f).pages
    ensures Torn(h, img.Write(n, Content(h, f).pages[n]), cur, u)
  {
    var img' := img.Write(n, Content(h, f).pages[n]);
    forall p | 1 <= p && p != h.lock && !Touched(h, cur, u, p)
      ensures img'.Lookup(p) == State(h, cur).Lookup(p)
    {
      TouchedGrows(h, cur, u, cur, f.maxTXID, p);
      UntouchedIsInside(h, cur, f.maxTXID, p);
      assert img.Lookup(p).Some?;
      if p == n {
        UntouchedFilePage(h, f, cur, p);
      }
    }
  }

  /** So does cutting the file at the size the file records. */
  lemma TornTruncate(h: History, img: Image, cur: TXID, u: TXID, b: TXID)
    requires ValidHistory(h) && cur < b <= u && Torn(h, img, cur, u)
    ensures Torn(h, img.Truncate(h.Commit(b)), cur, u)
  {
    var img' := img.Truncate(h.Commit(b));
    forall p | 1 <= p && p != h.lock && !Touched(h, cur, u, p)
      ensures img'.Lookup(p) == State(h, cur).Lookup(p)
    {
      TouchedGrows(h, cur, u, cur, b, p);
      UntouchedIsInside(h, cur, b, p);
      assert img.Lookup(p).Some?;
    }
  }

  /** A crash after any number of page writes leaves an image torn with respect to cur. */
  lemma {:induction false} CrashInApply(h: History, img: Image, cur: TXID, u: TXID, f: FileInfo, n: nat)
    requires ValidHistory(h) && Within(h, f) && Extends(f, cur) && f.maxTXID <= u && Torn(h, img, cur, u)
    ensures Torn(h, PartialApply(img, Content(h, f), n), cur, u)
  {
    if n > 0 {
      CrashInApply(h, img, cur, u, f, n - 1);
      if n in Content(h, f).pages {
        TornWrite(h, PartialApply(img, Content(h, f), n - 1), cur, u, f, n);
      }
    }
  }

  lemma {:induction false} PartialApplyLookup(img: Image, c: Changes, n: nat, p: nat)
    requires forall q :: q in c.pages ==> 1 <= q
    ensures var r := PartialApply(img, c, n);
            && img.size <= r.size
            && (p in c.pages && p <= n ==> r.Lookup(p) == Some(c.pages[p]))
            && (!(p in c.pages && p <= n) && img.Lookup(p).Some? ==> r.Lookup(p) == img.Lookup(p))
  {
    if n > 0 {
      PartialApplyLookup(img, c, n - 1, p);
    }
  }

  /** Once a file is applied completely the image is torn with respect to the file's end only. */
  lemma ApplyAdvances(h: History, img: Image, cur: TXID, u: TXID, f: FileInfo)
    requires ValidHistory(h) && Within(h, f) && Extends(f, cur) && f.maxTXID <= u && Torn(h, img, cur, u)
    ensures Torn(h, PartialApply(img, Content(h, f), h.Commit(f.maxTXID)).Truncate(h.Commit(f.maxTXID)), f.maxTXID, u)
  {
    var b, c := f.maxTXID, Content(h, f);
    var r := PartialApply(img, c, h.Commit(b));
    var img' := r.Truncate(h.Commit(b));
    assert img'.size == h.Commit(b);
    StateSize(h, b);
    forall p | 1 <= p && p != h.lock && !Touched(h, b, u, p)
      ensures img'.Lookup(p) == State(h, b).Lookup(p)
    {
      FilePagesLegal(h, f);
      PartialApplyLookup(img, c, h.Commit(b), p);
      if p > h.Commit(b) {
      } else if p in c.pages {
        WrittenHoldsLast(h, f.minTXID, b, p);
      } else {
        UnwrittenIsUntouched(h, f, cur, p);
        if Touched(h, cur, u, p) {
          TouchedSplits(h, cur, b, u, p);
        }
        UntouchedSame(h, cur, b, p);
        UntouchedIsInside(h, cur, b, p);
      }
    }
  }

  lemma FilePagesLegal(h: History, f: FileInfo)
    requires ValidHistory(h) && Within(h, f)
    ensures forall q :: q in Content(h, f).pages ==> IsPage(h.lock, h.Commit(f.maxTXID), q)
  {
    forall q | q in Content(h, f).pages
      ensures IsPage(h.lock, h.Commit(f.maxTXID), q)
    {
      LastWritesLegal(h, f.minTXID, f.maxTXID, q);
    }
  }

  lemma TouchedSplits(h: History, t: TXID, m: TXID, u: TXID, p: nat)
    requires t <= m <= u <= |h.txns| && Touched(h, t, u, p)
    ensures Touched(h, t, m, p) || Touched(h, m, u, p)
  {
  }

  /** A page inside the database at the end of the file, but not in the file, is untouched since cur. */
  lemma UnwrittenIsUntouched(h: History, f: FileInfo, cur: TXID, p: nat)
    requires ValidHistory(h) && Within(h, f) && Extends(f, cur)
    requires 1 <= p <= h.Commit(f.maxTXID) && p != h.lock && p !in Content(h, f).pages
    ensures !Touched(h, cur, f.maxTXID, p)
  {
    UnwrittenStays(h, f.minTXID, f.maxTXID, p);
    forall i | cur < i <= f.maxTXID
      ensures !TouchedBy(h, i, p)
    {
      if p in h.txns[i - 1].pages {
        WroteIsInLastWrites(h, f.minTXID, f.maxTXID, i, p);
      }
      assert p <= h.Commit(i);
    }
  }

  ghost function ApplyFile(h: History, img: Image, f: FileInfo): Image
    requires Within(h, f)
  {
    PartialApply(img, Content(h, f), h.Commit(f.maxTXID)).Truncate(h.Commit(f.maxTXID))
  }

  ghost function ApplyChain(h: History, img: Image, chain: seq<FileInfo>): Image
    requires AllWithin(h, chain)
    decreases |chain|
  {
    if chain == [] then img else ApplyChain(h, ApplyFile(h, img, chain[0]), chain[1..])
  }

  /** Redo-log convergence: from any torn image, a chain of touching files that reaches u gives
      exactly the state at its end. */
  lemma {:induction false} FollowConverges(h: History, img: Image, t: TXID, u: TXID, chain: seq<FileInfo>)
    requires ValidHistory(h) && Torn(h, img, t, u)
    requires AllWithin(h, chain) && Touching(t, chain)
    ensures Torn(h, ApplyChain(h, img, chain), End(t, chain), Larger(u, End(t, chain)))
    ensures u <= End(t, chain) ==> SameImage(h.lock, ApplyChain(h, img, chain), State(h, End(t, chain)))
    decreases |chain|
  {
    if chain == [] {
      if u <= t {
        TornExact(h, img, t);
      }
    } else {
      var f := chain[0];
      assert chain[..0] == [];
      assert Extends(f, t);
      var u' := Larger(u, f.maxTXID);
      TornWiden(h, img, t, u, u');
      ApplyAdvances(h, img, t, u', f);
      TouchingRest(t, chain);
      FollowConverges(h, ApplyFile(h, img, f), f.maxTXID, u', chain[1..]);
      EndGrows(f.maxTXID, chain[1..]);
      if u <= End(t, chain) {
        TornExact(h, ApplyChain(h, img, chain), End(t, chain));
      }
    }
  }

  lemma TouchingRest(t: TXID, chain: seq<FileInfo>)
    requires chain != [] && Touching(t, chain)
    ensures Touching(chain[0].maxTXID, chain[1..])
    ensures End(chain[0].maxTXID, chain[1..]) == End(t, chain)
  {
  }

  lemma EndGrows(t: TXID, chain: seq<FileInfo>)
    requires Touching(t, chain)
    ensures t <= End(t, chain)
  {
    TouchingGrows(t, chain, 0, |chain|);
    assert chain[..|chain|] == chain;
  }
}
