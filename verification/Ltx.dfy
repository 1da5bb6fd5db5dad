/** LTX file metadata shared by every component: transaction identifiers, file ranges and the
    filename order in which a storage level is listed. */
module Ltx {

  datatype Option<+T> = None | Some(value: T)

  /** Transaction identifiers start at 1; 0 stands for "no transaction". */
  type TXID = nat

  /** Level 0 holds single transactions, levels 1..8 hold compactions, level 9 holds snapshots. */
  const SNAPSHOT_LEVEL := 9

  datatype FileInfo = FileInfo(level: nat, minTXID: TXID, maxTXID: TXID, createdAt: int) {
    predicate Contains(x: TXID) {
      minTXID <= x <= maxTXID
    }
  }

  /** Filenames are "min-max" in fixed-width hexadecimal, so listing order is by min, then max. */
  predicate FilenameOrder(a: FileInfo, b: FileInfo) {
    a.minTXID < b.minTXID || (a.minTXID == b.minTXID && a.maxTXID <= b.maxTXID)
  }

  ghost predicate Sorted(s: seq<FileInfo>) {
    forall i, j :: 0 <= i < j < |s| ==> FilenameOrder(s[i], s[j])
  }

  function Larger(x: nat, y: nat): nat {
    if x < y then y else x
  }

  function Smaller(x: nat, y: nat): nat {
    if x < y then x else y
  }

  /** The file continues a database at cur: it touches or overlaps it, and reaches further. */
  predicate Extends(f: FileInfo, cur: TXID) {
    f.minTXID <= cur + 1 && cur < f.maxTXID
  }

  /** A well-formed range: transactions are numbered from 1 and a file holds at least one. */
  predicate WellFormed(f: FileInfo) {
    1 <= f.minTXID <= f.maxTXID
  }

  ghost predicate Covered(files: set<FileInfo>, x: TXID) {
    exists f :: f in files && f.Contains(x)
  }

  /** Every transaction in (lo, hi] lies in some file. */
  ghost predicate Covers(files: set<FileInfo>, lo: TXID, hi: TXID) {
    forall x :: lo < x <= hi ==> Covered(files, x)
  }

  /** The files of a listing from a transaction on. */
  function Seek(listing: seq<FileInfo>, t: TXID): (r: seq<FileInfo>)
    requires Sorted(listing)
    ensures Sorted(r)
    ensures forall f :: f in r <==> f in listing && t <= f.minTXID
  {
    if listing == [] || t <= listing[0].minTXID then listing
    else Seek(listing[1..], t)
  }
}
