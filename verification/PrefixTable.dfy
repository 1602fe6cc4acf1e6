/** The registry's `cert` table as a value. A row is a binary prefix of the network,
    either free, reserved or holding a certificate; `width` is the number of address
    bits below the network prefix, so a full address is a string of `width` bits. */
module PrefixTable {
  import opened Bits

  datatype Entry = Free | Reserved | Issued(serial: nat, notAfter: int)
  type Table = map<Bits, Entry>

  predicate FreeRow(t: Table, p: Bits) { p in t && t[p].Free? }

  function Taken(t: Table): (r: Table) { map p | p in t && !t[p].Free? :: t[p] }

  /** The row p begins the address a. */
  ghost predicate Covers(t: Table, a: Bits) { exists p :: p in t && p <= a }

  ghost predicate PrefixFree(t: Table) {
    forall p, q :: p in t && q in t && p <= q ==> p == q
  }

  /** The rows are a complete prefix code: every address is below exactly one of them. */
  ghost predicate Partition(t: Table, width: nat) {
    && PrefixFree(t)
    && (forall p :: p in t ==> |p| <= width)
    && (forall a: Bits :: |a| == width ==> Covers(t, a))
  }

  ghost predicate BlockFree(t: Table, b: Bits) {
    forall p :: p in t && Overlap(p, b) ==> t[p].Free?
  }

  ghost predicate InFreeRow(t: Table, b: Bits) {
    exists p :: FreeRow(t, p) && p <= b
  }

  predicate FreeSiblings(t: Table, q: Bits) {
    FreeRow(t, q + [false]) && FreeRow(t, q + [true])
  }

  ghost predicate Coalesced(t: Table) {
    forall q :: !FreeSiblings(t, q)
  }

  /** Coalesced but for the pair that x belongs to. */
  ghost predicate CoalescedBut(t: Table, x: Bits) {
    forall q :: FreeSiblings(t, q) ==> x == q + [false] || x == q + [true]
  }

  // ---- what the partition means for addresses -------------------------------------

  lemma {:induction false} UniqueRow(t: Table, width: nat, a: Bits, p: Bits, q: Bits)
    requires Partition(t, width) && p in t && q in t && p <= a && q <= a
    ensures p == q
  {
    PrefixesOverlap(p, q, a);
  }

  function Complete(p: Bits, width: nat): (a: Bits)
    requires |p| <= width
    ensures |a| == width && p <= a
  {
    p + Zeros(width - |p|)
  }

  /** A block is free as the code sees it exactly when every address in it lies below
      a free row. */
  lemma BlockFreeMeansAddressesFree(t: Table, width: nat, b: Bits)
    requires Partition(t, width) && |b| <= width
    ensures BlockFree(t, b) <==> forall a: Bits :: |a| == width && b <= a ==> InFreeRow(t, a)
  {
    if BlockFree(t, b) {
      forall a: Bits | |a| == width && b <= a ensures InFreeRow(t, a) {
        assert Covers(t, a);
        var p :| p in t && p <= a;
        PrefixesOverlap(p, b, a);
        assert FreeRow(t, p);
      }
    }
    if forall a: Bits :: |a| == width && b <= a ==> InFreeRow(t, a) {
      forall p | p in t && Overlap(p, b) ensures t[p].Free? {
        var a := Complete(if p <= b then b else p, width);
        assert p <= a && b <= a;
        assert InFreeRow(t, a);
        var q :| FreeRow(t, q) && q <= a;
        UniqueRow(t, width, a, p, q);
      }
    }
  }

  /** No free siblings whose parent lies in the block b. */
  ghost predicate CoalescedIn(t: Table, b: Bits) {
    forall q :: b <= q ==> !FreeSiblings(t, q)
  }

  /** Where a block is coalesced, if it is entirely free it lies inside one free row. */
  lemma {:induction false} FreeBlockInOneRow(t: Table, width: nat, b: Bits)
    requires Partition(t, width) && CoalescedIn(t, b) && |b| <= width && BlockFree(t, b)
    ensures InFreeRow(t, b)
    decreases width - |b|
  {
    if |b| == width {
      assert Covers(t, b);
      var p :| p in t && p <= b;
      assert Overlap(p, b) && FreeRow(t, p);
    } else {
      HalfFree(t, width, b, false);
      HalfFree(t, width, b, true);
      var p :| FreeRow(t, p) && p <= b + [false];
      var q :| FreeRow(t, q) && q <= b + [true];
      assert !FreeSiblings(t, b);
      assert p <= b || p == b + [false];
      assert q <= b || q == b + [true];
    }
  }

  lemma {:induction false} HalfFree(t: Table, width: nat, b: Bits, c: bool)
    requires Partition(t, width) && CoalescedIn(t, b) && |b| < width && BlockFree(t, b)
    ensures InFreeRow(t, b + [c])
    decreases width - |b|, 0
  {
    forall p | p in t && Overlap(p, b + [c]) ensures t[p].Free? {
      if p <= b + [c] && p != b + [c] {
        assert p <= b;
      } else {
        assert b <= b + [c] <= p;
      }
      assert Overlap(p, b);
    }
    forall q | b + [c] <= q ensures !FreeSiblings(t, q) {
      assert b <= b + [c] <= q;
    }
    FreeBlockInOneRow(t, width, b + [c]);
  }

  /** The block of two free siblings is entirely free, but in no single row. */
  lemma SiblingsInTwoRows(t: Table, width: nat, q: Bits)
    requires Partition(t, width) && FreeSiblings(t, q)
    ensures |q| < width && BlockFree(t, q) && !InFreeRow(t, q)
  {
    assert |q + [false]| <= width;
    forall p | p <= q ensures p !in t {
      assert p <= q + [false] && |p| < |q + [false]|;
    }
    forall p | p in t && Overlap(p, q) ensures t[p].Free? {
      LongerHasHalf(q, p);
    }
  }

  lemma FreeRowBlock(t: Table, width: nat, b: Bits)
    requires Partition(t, width) && InFreeRow(t, b)
    ensures BlockFree(t, b)
  {
    var f :| FreeRow(t, f) && f <= b;
    forall p | p in t && Overlap(p, b) ensures t[p].Free? {
      if p <= b {
        PrefixesOverlap(p, f, b);
      }
      assert p == f;
    }
  }

  // ---- splitting a free row in two ------------------------------------------------

  /** The row p moves to its half !c and a fresh free row is inserted for its half c. */
  function Split(t: Table, p: Bits, c: bool): (r: Table)
    requires p in t
  {
    (t - {p})[p + [!c] := t[p]][p + [c] := Free]
  }

  lemma SplitPartition(t: Table, width: nat, p: Bits, c: bool)
    requires Partition(t, width) && FreeRow(t, p) && |p| < width
    ensures Partition(Split(t, p, c), width)
  {
    var r := Split(t, p, c);
    forall a: Bits | |a| == width ensures Covers(r, a) {
      assert Covers(t, a);
      var q :| q in t && q <= a;
      if q == p {
        LongerHasHalf(p, a);
        assert p + [c] in r && p + [!c] in r;
      } else {
        assert q in r;
      }
    }
    forall x, y | x in r && y in r && x <= y ensures x == y {
      SplitPairFree(t, p, c, x, y);
    }
  }

  lemma SplitPairFree(t: Table, p: Bits, c: bool, x: Bits, y: Bits)
    requires PrefixFree(t) && p in t && x <= y
    requires x in Split(t, p, c) && y in Split(t, p, c)
    ensures x == y
  {
    var xNew := x == p + [c] || x == p + [!c];
    var yNew := y == p + [c] || y == p + [!c];
    if xNew {
      assert p <= y;
    } else if yNew {
      PrefixesOverlap(x, p, y);
    }
  }

  /** Splitting free space takes no address from anyone. */
  lemma SplitTaken(t: Table, width: nat, p: Bits, c: bool)
    requires Partition(t, width) && FreeRow(t, p)
    ensures Taken(Split(t, p, c)) == Taken(t)
  {
    assert p <= p + [c] && p <= p + [!c];
    assert p + [c] !in t && p + [!c] !in t;
  }

  lemma SplitInFreeRow(t: Table, width: nat, p: Bits, c: bool, b: Bits)
    requires Partition(t, width) && FreeRow(t, p) && |p| < width && |p| < |b|
    ensures InFreeRow(Split(t, p, c), b) <==> InFreeRow(t, b)
  {
    var r := Split(t, p, c);
    if InFreeRow(t, b) {
      var f :| FreeRow(t, f) && f <= b;
      if f == p {
        LongerHasHalf(p, b);
        assert FreeRow(r, p + [c]) && FreeRow(r, p + [!c]);
      } else {
        assert FreeRow(r, f);
      }
    }
    if InFreeRow(r, b) {
      var f :| FreeRow(r, f) && f <= b;
      if f == p + [c] || f == p + [!c] {
        assert p <= f <= b;
      } else {
        assert FreeRow(t, f);
      }
    }
  }

  lemma SplitCoalesced(t: Table, width: nat, p: Bits, c: bool)
    requires Partition(t, width) && FreeRow(t, p) && CoalescedBut(t, p)
    ensures CoalescedBut(Split(t, p, c), p + [c])
  {
    var r := Split(t, p, c);
    forall q | FreeSiblings(r, q) ensures p + [c] == q + [false] || p + [c] == q + [true] {
      if q != p {
        SiblingsKept(t, p, c, q);
      }
    }
  }

  /** Other free siblings than the new ones were there before, and are not the row split. */
  lemma SiblingsKept(t: Table, p: Bits, c: bool, q: Bits)
    requires FreeRow(t, p) && q != p && FreeSiblings(Split(t, p, c), q)
    ensures FreeSiblings(t, q) && p != q + [false] && p != q + [true]
  {
    DifferentHalves(q, p);
  }

  lemma DifferentHalves(q: Bits, p: Bits)
    requires q != p
    ensures forall d, c :: q + [d] != p + [c]
  {
    forall d, c ensures q + [d] != p + [c] {
      if |q| == |p| {
        var k :| 0 <= k < |q| && q[k] != p[k];
        assert (q + [d])[k] != (p + [c])[k];
      }
    }
  }

  // ---- merging two free siblings --------------------------------------------------

  /** The row q0 moves up to q and the row q1 is deleted. */
  function Join(t: Table, q: Bits): (r: Table)
    requires q + [false] in t && q + [true] in t
  {
    (t - {q + [false], q + [true]})[q := t[q + [false]]]
  }

  /** The two statements of the merge: the row `first` moves up, the row `second` goes. */
  function MoveUp(t: Table, first: Bits, second: Bits, parent: Bits): Table {
    (if first in t then (t - {first})[parent := t[first]] else t) - {second}
  }

  lemma MoveUpIsJoin(t: Table, q: Bits)
    requires q + [false] in t && q + [true] in t
    ensures MoveUp(t, q + [false], q + [true], q) == Join(t, q)
  {
  }

  lemma JoinPartition(t: Table, width: nat, q: Bits)
    requires Partition(t, width) && FreeSiblings(t, q)
    ensures Partition(Join(t, q), width)
  {
    var r := Join(t, q);
    forall a: Bits | |a| == width ensures Covers(r, a) {
      assert Covers(t, a);
      var p :| p in t && p <= a;
      if p == q + [false] || p == q + [true] {
        assert q in r && q <= p <= a;
      } else {
        assert p in r;
      }
    }
    forall x, y | x in r && y in r && x <= y ensures x == y {
      JoinPairFree(t, q, x, y);
    }
  }

  lemma JoinPairFree(t: Table, q: Bits, x: Bits, y: Bits)
    requires PrefixFree(t) && q + [false] in t && q + [true] in t
    requires x in Join(t, q) && y in Join(t, q) && x <= y
    ensures x == y
  {
    LongerHasHalf(q, y);
    if y == q {
      assert x <= q + [false];
    }
  }

  lemma JoinTaken(t: Table, width: nat, q: Bits)
    requires Partition(t, width) && FreeSiblings(t, q)
    ensures Taken(Join(t, q)) == Taken(t)
  {
    assert q <= q + [false] && q != q + [false];
    assert q !in t;
  }

  // ---- changing the owner of a row ------------------------------------------------

  /** Being a partition is a matter of the prefixes, not of who holds them. */
  lemma SamePrefixesPartition(t: Table, t': Table, width: nat)
    requires Partition(t, width) && t'.Keys == t.Keys
    ensures Partition(t', width)
  {
    forall a: Bits | |a| == width ensures Covers(t', a) {
      assert Covers(t, a);
      var q :| q in t && q <= a;
      assert q in t';
    }
  }

  lemma SetRowPartition(t: Table, width: nat, p: Bits, e: Entry)
    requires Partition(t, width) && p in t
    ensures Partition(t[p := e], width)
  {
    SamePrefixesPartition(t, t[p := e], width);
  }

  lemma TakeRowCoalesced(t: Table, p: Bits, e: Entry)
    requires p in t && CoalescedBut(t, p) && !e.Free?
    ensures Coalesced(t[p := e])
  {
    var r := t[p := e];
    forall q ensures FreeSiblings(r, q) ==> FreeSiblings(t, q) && q + [false] != p && q + [true] != p {
    }
  }
}
