/** One pass of `mergePrefixes` over the free rows of one length. */
module PrefixMerging {
  import opened Bits
  import opened PrefixTable
  import opened Wrappers

  /** The free rows of length n below p, in text order: the snapshot the source iterates
      over. Rows rewritten by the pass are shorter, so it never meets them. */
  function FreeRows(t: Table, p: Bits, n: nat): seq<Bits>
    requires |p| <= n
    decreases n - |p|
  {
    if |p| == n then if FreeRow(t, p) then [p] else []
    else FreeRows(t, p + [false], n) + FreeRows(t, p + [true], n)
  }

  ghost predicate Sorted(rows: seq<Bits>) {
    forall i, j :: 0 <= i < j < |rows| ==> Less(rows[i], rows[j])
  }

  lemma {:induction false} FreeRowsMembers(t: Table, p: Bits, n: nat)
    requires |p| <= n
    ensures forall x :: x in FreeRows(t, p, n) <==> FreeRow(t, x) && |x| == n && p <= x
    decreases n - |p|
  {
    if |p| == n {
      assert forall x :: FreeRow(t, x) && |x| == n && p <= x ==> x == p;
    } else {
      FreeRowsMembers(t, p + [false], n);
      FreeRowsMembers(t, p + [true], n);
      forall x | FreeRow(t, x) && |x| == n && p <= x ensures p + [false] <= x || p + [true] <= x {
        LongerHasHalf(p, x);
      }
      assert p <= p + [false] && p <= p + [true];
    }
  }

  lemma {:induction false} FreeRowsSorted(t: Table, p: Bits, n: nat)
    requires |p| <= n
    ensures Sorted(FreeRows(t, p, n))
    decreases n - |p|
  {
    if |p| < n {
      var a, b := FreeRows(t, p + [false], n), FreeRows(t, p + [true], n);
      FreeRowsSorted(t, p + [false], n);
      FreeRowsSorted(t, p + [true], n);
      FreeRowsMembers(t, p + [false], n);
      FreeRowsMembers(t, p + [true], n);
      forall x, y | x in a && y in b ensures Less(x, y) { HalvesOrdered(p, x, y); }
      forall i, j | 0 <= i < j < |a + b| ensures Less((a + b)[i], (a + b)[j]) {
        if i < |a| <= j {
          assert a[i] in a && b[j - |a|] in b;
        }
      }
    }
  }

  /** The state of the pass before rows[k]: `prev` is the previous row if it is still
      there, and every pair of free siblings left has its second half ahead. */
  ghost predicate Merging(t0: Table, t: Table, width: nat, n: nat, rows: seq<Bits>, k: nat, prev: Option<Bits>) {
    && Partition(t, width) && Taken(t) == Taken(t0)
    && k <= |rows|
    && (forall p: Bits :: |p| > n ==> (FreeRow(t, p) <==> FreeRow(t0, p)))
    && (forall i :: k <= i < |rows| ==> FreeRow(t, rows[i]))
    && (forall p: Bits :: FreeRow(t, p) && |p| == n ==> p in rows)
    && (forall q: Bits :: FreeSiblings(t, q) && |q| + 1 == n ==> q + [true] in rows[k..])
    && (k == 0 ==> prev.None? || |prev.value| > n)
    && (k > 0 ==> if prev.Some? then prev.value == rows[k - 1] && FreeRow(t, rows[k - 1]) else !FreeRow(t, rows[k - 1]))
  }

  lemma MergingStarts(t: Table, width: nat, n: nat, prev: Option<Bits>)
    requires Partition(t, width) && 0 < n && (prev.Some? ==> |prev.value| > n)
    ensures var rows := FreeRows(t, [], n); Snapshot(rows, n) && Merging(t, t, width, n, rows, 0, prev)
  {
    var rows := FreeRows(t, [], n);
    FreeRowsMembers(t, [], n);
    FreeRowsSorted(t, [], n);
    assert rows[0..] == rows;
    assert forall i :: 0 <= i < |rows| ==> rows[i] in rows;
  }

  ghost predicate Snapshot(rows: seq<Bits>, n: nat) {
    Sorted(rows) && n > 0 && forall p :: p in rows ==> |p| == n
  }

  function Parent(p: Bits): Bits { if p == [] then [] else p[..|p| - 1] }

  /** What the pass does at one row: the row before is moved up and this one deleted, or this
      one is remembered. */
  function MergeOne(t: Table, prev: Option<Bits>, row: Bits): (Table, Option<Bits>) {
    if prev.Some? && prev.value != [] && Parent(row) == Parent(prev.value)
    then (MoveUp(t, prev.value, row, Parent(row)), None)
    else (t, Some(row))
  }

  function MergeAll(t: Table, prev: Option<Bits>, rows: seq<Bits>): (Table, Option<Bits>) {
    if rows == [] then (t, prev)
    else
      var (t', prev') := MergeAll(t, prev, rows[..|rows| - 1]);
      MergeOne(t', prev', rows[|rows| - 1])
  }

  lemma HalfOfParent(p: Bits)
    requires p != []
    ensures p == Parent(p) + [false] || p == Parent(p) + [true]
  {
    var c := p[|p| - 1];
    assert p == Parent(p) + [c];
    assert c == false || c == true;
  }

  /** Two neighbouring rows with one parent are its two halves, in order. */
  lemma NeighboursAreHalves(rows: seq<Bits>, n: nat, k: nat)
    requires Snapshot(rows, n) && 0 < k < |rows| && Parent(rows[k - 1]) == Parent(rows[k])
    ensures rows[k - 1] == Parent(rows[k]) + [false] && rows[k] == Parent(rows[k]) + [true]
  {
    HalfOfParent(rows[k - 1]);
    HalfOfParent(rows[k]);
    var q := Parent(rows[k]);
    HalvesOrdered(q, q + [false], q + [true]);
    LessTotal(rows[k - 1], rows[k]);
    LessTotal(q + [false], q + [true]);
  }

  lemma MergeStep(t0: Table, t: Table, width: nat, n: nat, rows: seq<Bits>, k: nat, prev: Option<Bits>)
    requires Snapshot(rows, n) && Merging(t0, t, width, n, rows, k, prev) && 0 < k < |rows|
    requires prev.Some? && Parent(prev.value) == Parent(rows[k])
    ensures var q := Parent(rows[k]);
            && FreeSiblings(t, q) && prev.value == q + [false] && rows[k] == q + [true]
            && Merging(t0, MoveUp(t, prev.value, rows[k], q), width, n, rows, k + 1, None)
  {
    var q := Parent(rows[k]);
    MergeStepJoin(t0, t, width, n, rows, k, prev);
    MoveUpIsJoin(t, q);
  }

  lemma LaterRow(rows: seq<Bits>, n: nat, k: nat, i: nat)
    requires Snapshot(rows, n) && 0 < k < i < |rows|
    ensures rows[i] != rows[k] && rows[i] != rows[k - 1]
  {
    assert Less(rows[k], rows[i]) && Less(rows[k - 1], rows[i]);
    LessTotal(rows[k], rows[i]);
    LessTotal(rows[k - 1], rows[i]);
  }

  lemma MergeStepJoin(t0: Table, t: Table, width: nat, n: nat, rows: seq<Bits>, k: nat, prev: Option<Bits>)
    requires Snapshot(rows, n) && Merging(t0, t, width, n, rows, k, prev) && 0 < k < |rows|
    requires prev.Some? && Parent(prev.value) == Parent(rows[k])
    ensures var q := Parent(rows[k]);
            && FreeSiblings(t, q) && prev.value == q + [false] && rows[k] == q + [true]
            && Merging(t0, Join(t, q), width, n, rows, k + 1, None)
  {
    var q := Parent(rows[k]);
    NeighboursAreHalves(rows, n, k);
    JoinPartition(t, width, q);
    JoinTaken(t, width, q);
    var t' := Join(t, q);
    forall i | k + 1 <= i < |rows| ensures FreeRow(t', rows[i]) {
      LaterRow(rows, n, k, i);
    }
    forall q': Bits | FreeSiblings(t', q') && |q'| + 1 == n ensures q' + [true] in rows[k + 1..] {
      assert FreeSiblings(t, q');
      assert q' + [true] != rows[k];
    }
  }

  lemma SkipStep(t0: Table, t: Table, width: nat, n: nat, rows: seq<Bits>, k: nat, prev: Option<Bits>)
    requires Snapshot(rows, n) && Merging(t0, t, width, n, rows, k, prev) && k < |rows|
    requires prev.Some? && prev.value != [] ==> Parent(prev.value) != Parent(rows[k])
    ensures Merging(t0, t, width, n, rows, k + 1, Some(rows[k]))
  {
    forall q: Bits | FreeSiblings(t, q) && |q| + 1 == n ensures q + [true] in rows[k + 1..] {
      assert Parent(q + [false]) == q == Parent(q + [true]);
      if q + [true] == rows[k] {
        FirstHalfJustBefore(rows, n, k, q);
      }
    }
  }

  lemma MergeOneStep(t0: Table, t: Table, width: nat, n: nat, rows: seq<Bits>, k: nat, prev: Option<Bits>)
    requires Snapshot(rows, n) && Merging(t0, t, width, n, rows, k, prev) && k < |rows|
    ensures var (t', prev') := MergeOne(t, prev, rows[k]);
            Merging(t0, t', width, n, rows, k + 1, prev')
  {
    assert |rows[k]| == n;
    if prev.Some? && Parent(rows[k]) == Parent(prev.value) {
      MergeStep(t0, t, width, n, rows, k, prev);
    } else {
      SkipStep(t0, t, width, n, rows, k, prev);
    }
  }

  /** The state of the pass after the first k rows. */
  ghost predicate MergedRows(t: Table, width: nat, n: nat, prev: Option<Bits>, rows: seq<Bits>, k: nat)
    requires k <= |rows|
  {
    var (t', prev') := MergeAll(t, prev, rows[..k]);
    Merging(t, t', width, n, rows, k, prev')
  }

  lemma {:induction false} MergeAllMerging(t: Table, width: nat, n: nat, prev: Option<Bits>, rows: seq<Bits>, k: nat)
    requires Snapshot(rows, n) && Merging(t, t, width, n, rows, 0, prev) && k <= |rows|
    ensures MergedRows(t, width, n, prev, rows, k)
  {
    if k == 0 {
      assert rows[..0] == [];
    } else {
      MergeAllMerging(t, width, n, prev, rows, k - 1);
      MergedNext(t, width, n, prev, rows, k - 1);
    }
  }

  lemma MergedNext(t: Table, width: nat, n: nat, prev: Option<Bits>, rows: seq<Bits>, k: nat)
    requires Snapshot(rows, n) && k < |rows| && MergedRows(t, width, n, prev, rows, k)
    ensures MergedRows(t, width, n, prev, rows, k + 1)
  {
    var (t', prev') := MergeAll(t, prev, rows[..k]);
    MergeOneStep(t, t', width, n, rows, k, prev');
    MergeAllNext(t, prev, rows, k);
  }

  lemma MergeAllNext(t: Table, prev: Option<Bits>, rows: seq<Bits>, k: nat)
    requires k < |rows|
    ensures var (t', prev') := MergeAll(t, prev, rows[..k]);
            MergeAll(t, prev, rows[..k + 1]) == MergeOne(t', prev', rows[k])
  {
    assert rows[..k + 1][..k] == rows[..k];
  }

  lemma FirstHalfJustBefore(rows: seq<Bits>, n: nat, k: nat, q: Bits)
    requires Snapshot(rows, n) && k < |rows| && rows[k] == q + [true] && q + [false] in rows
    ensures 0 < k && rows[k - 1] == q + [false]
  {
    var i :| 0 <= i < |rows| && rows[i] == q + [false];
    HalvesOrdered(q, q + [false], q + [true]);
    LessTotal(q + [false], q + [true]);
    LessTotal(rows[k], rows[i]);
    if i + 1 < k {
      assert Less(rows[i], rows[k - 1]) && Less(rows[k - 1], rows[k]);
      assert |rows[k - 1]| == n;
      SiblingsAdjacent(q, rows[k - 1]);
    }
  }

  /** The table once every length at least `bound` (and below 128) has been merged. */
  ghost predicate MergedDownTo(t0: Table, t: Table, width: nat, bound: nat) {
    && Partition(t, width) && Taken(t) == Taken(t0)
    && (forall p: Bits :: |p| >= 128 ==> (FreeRow(t, p) <==> FreeRow(t0, p)))
    && (forall q :: FreeSiblings(t, q) ==> |q| + 1 < bound || |q| + 1 >= 128)
  }

  lemma LengthMerged(t0: Table, t: Table, t': Table, width: nat, n: nat, bound: nat, rows: seq<Bits>,
                     prev: Option<Bits>)
    requires MergedDownTo(t0, t, width, bound) && 0 < n < bound <= 128
    requires forall p :: FreeRow(t, p) ==> |p| <= n || |p| >= bound
    requires Merging(t, t', width, n, rows, |rows|, prev)
    ensures MergedDownTo(t0, t', width, n)
  {
    forall q | FreeSiblings(t', q) ensures |q| + 1 < n || |q| + 1 >= 128 {
      if |q| + 1 > n {
        assert FreeSiblings(t, q);
      }
    }
  }

  /** The effect of a whole `mergePrefixes`: taken rows keep their place, so the free
      addresses are the same too, and no two free rows shorter than 128 bits are siblings. */
  ghost predicate Merged(t0: Table, t: Table, width: nat) {
    && Partition(t, width) && Taken(t) == Taken(t0)
    && (forall p: Bits :: |p| >= 128 ==> (FreeRow(t, p) <==> FreeRow(t0, p)))
    && (forall q :: FreeSiblings(t, q) ==> |q| + 1 >= 128)
  }

  /** The search for the longest free row starts below 128, so rows of 128 bits, which
      exist only when the network prefix is empty, are never merged. */
  lemma MergedIsCoalesced(t0: Table, t: Table, width: nat)
    requires Merged(t0, t, width) && width <= 128
    ensures Coalesced(t) <==> forall q: Bits :: |q| == 127 ==> !FreeSiblings(t0, q)
    ensures width < 128 ==> Coalesced(t)
  {
    forall q: Bits | |q| == 127 ensures FreeSiblings(t, q) <==> FreeSiblings(t0, q) {}
    forall q | FreeSiblings(t, q) ensures |q| == 127 {}
  }
}
