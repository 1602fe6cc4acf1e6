/** Conservation of address space: in every partition the blocks of the rows add up to
    the whole space. */
module KraftSum {
  import opened Bits
  import opened Numbers
  import opened PrefixTable

  function BlockSize(p: Bits, width: nat): nat {
    if |p| <= width then Pow2(width - |p|) else 0
  }

  ghost function Space(rows: set<Bits>, width: nat): nat {
    if rows == {} then 0 else
      var p :| p in rows;
      BlockSize(p, width) + Space(rows - {p}, width)
  }

  lemma {:induction false} SpaceWithout(rows: set<Bits>, p: Bits, width: nat)
    requires p in rows
    ensures Space(rows, width) == BlockSize(p, width) + Space(rows - {p}, width)
  {
    var q :| q in rows && Space(rows, width) == BlockSize(q, width) + Space(rows - {q}, width);
    if q != p {
      SpaceWithout(rows - {q}, p, width);
      SpaceWithout(rows - {p}, q, width);
      assert rows - {q} - {p} == rows - {p} - {q};
    }
  }

  lemma {:induction false} SpaceUnion(a: set<Bits>, b: set<Bits>, width: nat)
    requires a !! b
    ensures Space(a + b, width) == Space(a, width) + Space(b, width)
  {
    if a == {} {
      assert a + b == b;
    } else {
      var p :| p in a;
      SpaceWithout(a, p, width);
      SpaceWithout(a + b, p, width);
      assert a + b - {p} == (a - {p}) + b;
      SpaceUnion(a - {p}, b, width);
    }
  }

  function RowsBelow(t: Table, b: Bits): set<Bits> { set p | p in t && b <= p }

  lemma BelowHalves(t: Table, b: Bits)
    requires b !in t
    ensures RowsBelow(t, b) == RowsBelow(t, b + [false]) + RowsBelow(t, b + [true])
    ensures RowsBelow(t, b + [false]) !! RowsBelow(t, b + [true])
  {
    var left, right := b + [false], b + [true];
    assert b <= left && b <= right;
    forall q | q in RowsBelow(t, b) ensures left <= q || right <= q { LongerHasHalf(b, q); }
    forall q | q in RowsBelow(t, left) ensures q !in RowsBelow(t, right) {
      assert q[|b|] == left[|b|] != right[|b|];
    }
  }

  /** The rows below a block that no shorter row contains fill that block exactly. */
  lemma {:induction false} BlockSpace(t: Table, width: nat, b: Bits)
    requires Partition(t, width) && |b| <= width
    requires forall p :: p in t && p <= b ==> p == b
    ensures Space(RowsBelow(t, b), width) == BlockSize(b, width)
    decreases width - |b|
  {
    if b in t {
      assert RowsBelow(t, b) == {b};
      SpaceWithout({b}, b, width);
      assert {b} - {b} == {};
    } else {
      LongerRowBelow(t, width, b);
      ShorterThanHalf(t, b, false);
      ShorterThanHalf(t, b, true);
      BlockSpace(t, width, b + [false]);
      BlockSpace(t, width, b + [true]);
      BelowHalves(t, b);
      SpaceUnion(RowsBelow(t, b + [false]), RowsBelow(t, b + [true]), width);
    }
  }

  lemma LongerRowBelow(t: Table, width: nat, b: Bits)
    requires Partition(t, width) && |b| <= width && b !in t
    requires forall p :: p in t && p <= b ==> p == b
    ensures |b| < width
  {
    assert |b| == width ==> Covers(t, b);
  }

  lemma ShorterThanHalf(t: Table, b: Bits, c: bool)
    requires b !in t && forall p :: p in t && p <= b ==> p == b
    ensures forall p :: p in t && p <= b + [c] ==> p == b + [c]
  {
    forall p | p in t && p <= b + [c] ensures p == b + [c] {
      if |p| <= |b| {
        PrefixesOverlap(p, b, b + [c]);
      }
    }
  }

  /** The rows of a partition together hold exactly 2^width addresses. */
  lemma SpaceConserved(t: Table, width: nat)
    requires Partition(t, width)
    ensures Space(t.Keys, width) == Pow2(width)
  {
    BlockSpace(t, width, []);
    assert RowsBelow(t, []) == t.Keys;
  }
}
