/** What an allocation is allowed to do to the table, stated on values. `length` is the
    wanted prefix length, community included. */
module PrefixAllocation {
  import opened Bits
  import opened PrefixTable
  import opened Wrappers

  /** The block that allocation never hands out: its address is all zeros after the
      community. */
  function ZeroAddress(community: Bits, width: nat): Bits
    requires |community| <= width
  {
    Complete(community, width)
  }

  predicate Wanted(b: Bits, community: Bits, length: nat, width: nat)
    requires |community| <= width
  {
    |b| == length && community <= b && b != ZeroAddress(community, width)
  }

  /** Some wanted block lies inside one free row. */
  ghost predicate Allocatable(t: Table, community: Bits, length: nat, width: nat)
    requires |community| <= width
  {
    exists b :: Wanted(b, community, length, width) && InFreeRow(t, b)
  }

  /** Some wanted block is entirely free, whatever rows it is made of. */
  ghost predicate RoomLeft(t: Table, community: Bits, length: nat, width: nat)
    requires |community| <= width
  {
    exists b :: Wanted(b, community, length, width) && BlockFree(t, b)
  }

  predicate Candidate(t: Table, p: Bits, community: Bits, length: nat) {
    FreeRow(t, p) && community <= p && |p| <= length
  }

  /** f is the free row the allocation starts from: a longest one that fits in the
      community, or, when there is none, the one the whole community lies in. */
  ghost predicate BestFit(t: Table, f: Bits, community: Bits, length: nat) {
    || (Candidate(t, f, community, length) && forall p :: Candidate(t, p, community, length) ==> |p| <= |f|)
    || (FreeRow(t, f) && f <= community && forall p :: !Candidate(t, p, community, length))
  }

  /** The leftmost block of the wanted length that lies in both f and the community. */
  function Leftmost(f: Bits, community: Bits, length: nat): (b: Bits)
    requires |f| <= length && |community| <= length
  {
    Complete(if |f| < |community| then community else f, length)
  }

  /** On a coalesced table the allocator misses nothing: one free row covers a wanted
      block as soon as any wanted block is entirely free. */
  lemma AllocationComplete(t: Table, width: nat, community: Bits, length: nat)
    requires Partition(t, width) && Coalesced(t) && |community| <= width && length <= width
    ensures Allocatable(t, community, length, width) <==> RoomLeft(t, community, length, width)
  {
    if RoomLeft(t, community, length, width) {
      var b :| Wanted(b, community, length, width) && BlockFree(t, b);
      FreeBlockInOneRow(t, width, b);
    }
    if Allocatable(t, community, length, width) {
      var b :| Wanted(b, community, length, width) && InFreeRow(t, b);
      FreeRowBlock(t, width, b);
    }
  }

  /** The allocator misses nothing: whatever is asked for is granted when there is room. */
  ghost predicate MissesNothing(t: Table, width: nat) {
    forall c: Bits, n: nat :: |c| <= n <= width && n > 0 ==>
      (Allocatable(t, c, n, width) <==> RoomLeft(t, c, n, width))
  }

  /** That is so exactly when no two free rows are siblings, the two halves of the whole
      space aside: no prefix of length zero is ever asked for. */
  lemma MissesNothingIff(t: Table, width: nat)
    requires Partition(t, width)
    ensures MissesNothing(t, width) <==> forall q :: q != [] ==> !FreeSiblings(t, q)
  {
    if MissesNothing(t, width) {
      forall q | q != [] && FreeSiblings(t, q) ensures false {
        SiblingsMissed(t, width, q);
      }
    }
    if forall q :: q != [] ==> !FreeSiblings(t, q) {
      forall c: Bits, n: nat | |c| <= n <= width && n > 0
        ensures Allocatable(t, c, n, width) <==> RoomLeft(t, c, n, width)
      {
        NothingMissed(t, width, c, n);
      }
    }
  }

  /** The community that two free siblings make up has room that is missed. */
  lemma SiblingsMissed(t: Table, width: nat, q: Bits)
    requires Partition(t, width) && FreeSiblings(t, q)
    ensures |q| <= width && RoomLeft(t, q, |q|, width) && !Allocatable(t, q, |q|, width)
  {
    SiblingsInTwoRows(t, width, q);
    assert Wanted(q, q, |q|, width);
    forall b | Wanted(b, q, |q|, width) ensures b == q {}
  }

  lemma NothingMissed(t: Table, width: nat, c: Bits, n: nat)
    requires Partition(t, width) && |c| <= n <= width && n > 0
    requires forall q :: q != [] ==> !FreeSiblings(t, q)
    ensures Allocatable(t, c, n, width) <==> RoomLeft(t, c, n, width)
  {
    if RoomLeft(t, c, n, width) {
      var b :| Wanted(b, c, n, width) && BlockFree(t, b);
      FreeBlockInOneRow(t, width, b);
    }
    if Allocatable(t, c, n, width) {
      var b :| Wanted(b, c, n, width) && InFreeRow(t, b);
      FreeRowBlock(t, width, b);
    }
  }

  lemma LeftmostBit(f: Bits, community: Bits, length: nat, k: nat)
    requires Overlap(f, community) && |f| <= k < length && |community| <= length
    ensures Leftmost(f, community, length)[k] == (k < |community| && community[k])
    ensures f <= Leftmost(f, community, length) && community <= Leftmost(f, community, length)
  {
  }

  /** p is the block b or one of the halves that are left aside when f is split down to b. */
  predicate CutFrom(f: Bits, b: Bits, p: Bits) {
    p == b || (|f| < |p| <= |b| && p == b[..|p| - 1] + [!b[|p| - 1]])
  }

  /** The row f has been split down to the block b, and nothing else has changed. */
  ghost predicate CarvedOut(t: Table, f: Bits, b: Bits, t': Table) {
    && f <= b && FreeRow(t, f)
    && (forall p :: p in t' <==> (p in t && p != f) || CutFrom(f, b, p))
    && (forall p :: p in t' ==> t'[p] == if CutFrom(f, b, p) then Free else t[p])
  }

  lemma CarvedNext(t: Table, width: nat, f: Bits, b: Bits, t': Table, c: bool)
    requires Partition(t, width) && Partition(t', width) && CarvedOut(t, f, b, t')
    ensures CarvedOut(t, f, b + [c], Split(t', b, c))
  {
    var r, b' := Split(t', b, c), b + [c];
    assert b <= b + [c] && b <= b + [!c] && FreeRow(t', b);
    assert b + [c] !in t' && b + [!c] !in t';
    assert b in t ==> b == f;
    forall p ensures CutFrom(f, b', p) <==> (CutFrom(f, b, p) && p != b) || p == b + [c] || p == b + [!c] {
      CutNext(f, b, c, p);
    }
  }

  lemma CutNext(f: Bits, b: Bits, c: bool, p: Bits)
    requires f <= b
    ensures CutFrom(f, b + [c], p) <==> (CutFrom(f, b, p) && p != b) || p == b + [c] || p == b + [!c]
  {
    var b' := b + [c];
    assert b'[..|b|] == b;
    if 0 < |p| <= |b| {
      assert b'[..|p| - 1] == b[..|p| - 1];
      assert p == b ==> p[|p| - 1] == b[|p| - 1];
    }
  }

  /** One round of the search: a best-fitting row is split down to its leftmost block. */
  ghost predicate Round(t: Table, f: Bits, b: Bits, t': Table, community: Bits, length: nat) {
    && |f| <= length && |community| <= length && BestFit(t, f, community, length)
    && b == Leftmost(f, community, length) && CarvedOut(t, f, b, t')
  }

  /** A round that has led to the all-zero address, which is then reserved. */
  ghost predicate ReservingRound(t: Table, t': Table, community: Bits, length: nat, width: nat)
    requires |community| <= length <= width
  {
    var zero := ZeroAddress(community, width);
    && length == width && zero in t' && t'[zero] == Reserved
    && exists f :: RoundBefore(t, f, zero, t', community, length)
  }

  ghost predicate RoundBefore(t: Table, f: Bits, b: Bits, t': Table, community: Bits, length: nat) {
    Round(t, f, b, t'[b := Free], community, length)
  }

  /** What is left of t0 when the search ends, t1 being the table of its last round: t0, or
      t0 after a round that reserved. */
  ghost predicate Rounds(t0: Table, t1: Table, t: Table, community: Bits, length: nat, width: nat, r: Option<Bits>)
    requires |community| <= length <= width
  {
    && Partition(t1, width) && (t1 == t0 || ReservingRound(t0, t1, community, length, width))
    && if r.Some? then exists f :: Round(t1, f, r.value, t, community, length) else t == t1
  }

  /** The table is what one or two rounds leave, the first of two having reserved. */
  ghost predicate Searched(t0: Table, t: Table, community: Bits, length: nat, width: nat, r: Option<Bits>)
    requires |community| <= length <= width
  {
    exists t1 :: Rounds(t0, t1, t, community, length, width, r)
  }

  /** What the splitting loop has achieved when it reaches the row `prefix`. */
  ghost predicate SplitInto(t0: Table, t: Table, width: nat, prefix: Bits, length: nat) {
    && Partition(t, width) && FreeRow(t, prefix)
    && Taken(t) == Taken(t0)
    && (forall b: Bits :: |b| == length ==> (InFreeRow(t, b) <==> InFreeRow(t0, b)))
    && (Coalesced(t0) ==> CoalescedBut(t, prefix))
  }

  /** One step of the splitting loop. */
  lemma SplitGoesOn(t0: Table, t: Table, width: nat, prefix: Bits, f: Bits, community: Bits, length: nat)
    requires SplitInto(t0, t, width, prefix, length) && |f| <= |prefix| < length <= width
    requires Overlap(f, community) && |community| <= length && prefix <= Leftmost(f, community, length)
    ensures var c := if |prefix| < |community| then community[|prefix|] else false;
            && SplitInto(t0, Split(t, prefix, c), width, prefix + [c], length)
            && prefix + [c] <= Leftmost(f, community, length)
  {
    var c := if |prefix| < |community| then community[|prefix|] else false;
    SplitOnce(t0, t, width, prefix, c, length);
    LeftmostBit(f, community, length, |prefix|);
  }

  lemma SplitOnce(t0: Table, t: Table, width: nat, prefix: Bits, c: bool, length: nat)
    requires SplitInto(t0, t, width, prefix, length) && |prefix| < length <= width
    ensures SplitInto(t0, Split(t, prefix, c), width, prefix + [c], length)
  {
    SplitPartition(t, width, prefix, c);
    SplitTaken(t, width, prefix, c);
    forall b: Bits | |b| == length ensures InFreeRow(Split(t, prefix, c), b) <==> InFreeRow(t0, b) {
      SplitInFreeRow(t, width, prefix, c, b);
    }
    if Coalesced(t0) {
      SplitCoalesced(t, width, prefix, c);
    }
  }

  /** Testing that the address is `width` long and has no '1' after the community is
      testing that it is the all-zero address. */
  lemma ZeroTest(b: Bits, community: Bits, width: nat)
    requires community <= b && |b| <= width
    ensures b == ZeroAddress(community, width) <==> |b| == width && true !in b[|community|..]
  {
    if |b| == width && true !in b[|community|..] {
      assert forall k :: |community| <= k < |b| ==> !b[k] by {
        forall k | |community| <= k < |b| ensures !b[k] { assert b[|community|..][k - |community|] == b[k]; }
      }
      assert b == ZeroAddress(community, width);
    }
    if b == ZeroAddress(community, width) {
      assert b[|community|..] == Zeros(width - |community|);
    }
  }

  /** What a failed search proves: containing is the row the community lies in, if any. */
  lemma SearchFailed(t: Table, width: nat, community: Bits, length: nat, containing: Option<Bits>)
    requires Partition(t, width) && |community| <= length <= width
    requires forall p :: !Candidate(t, p, community, length)
    requires match containing
             case None => forall p :: p in t ==> !(p <= community)
             case Some(p) => p in t && p <= community && !t[p].Free?
    ensures !Allocatable(t, community, length, width)
  {
    forall b | Wanted(b, community, length, width) ensures !InFreeRow(t, b) {
      forall f | FreeRow(t, f) && f <= b ensures false {
        PrefixesOverlap(f, community, b);
        assert !Candidate(t, f, community, length);
        if containing.Some? {
          UniqueRow(t, width, Complete(community, width), f, containing.value);
        }
      }
    }
  }

  ghost predicate SameRoom(t0: Table, t: Table, community: Bits, length: nat, width: nat)
    requires |community| <= width
  {
    forall b :: Wanted(b, community, length, width) ==> (InFreeRow(t, b) <==> InFreeRow(t0, b))
  }

  /** The split arrived at the all-zero address, which is reserved: the room for any
      other block is untouched. */
  lemma ReserveZero(t0: Table, t1: Table, width: nat, community: Bits)
    requires |community| <= width
    requires SplitInto(t0, t1, width, ZeroAddress(community, width), width)
    ensures var zero := ZeroAddress(community, width);
            var t2 := t1[zero := Reserved];
            && Partition(t2, width)
            && Taken(t2) == Taken(t0)[zero := Reserved]
            && InFreeRow(t0, zero)
            && SameRoom(t0, t2, community, width, width)
            && (Coalesced(t0) ==> Coalesced(t2))
  {
    var zero := ZeroAddress(community, width);
    var t2 := t1[zero := Reserved];
    SetRowPartition(t1, width, zero, Reserved);
    if Coalesced(t0) {
      TakeRowCoalesced(t1, zero, Reserved);
    }
    assert InFreeRow(t1, zero);
    forall b | Wanted(b, community, width, width)
      ensures InFreeRow(t2, b) <==> InFreeRow(t0, b)
    {
      assert forall f :: f <= b && f != zero ==> (FreeRow(t1, f) <==> FreeRow(t2, f));
      assert InFreeRow(t2, b) <==> InFreeRow(t1, b);
    }
  }

  /** How a whole allocation may change the taken rows: not at all, or by reserving the
      all-zero address when the search led there first. */
  ghost predicate ReservedOnlyZero(t0: Table, t: Table, community: Bits, length: nat, width: nat)
    requires |community| <= length <= width
  {
    var zero := ZeroAddress(community, width);
    || Taken(t) == Taken(t0)
    || ( && length == width && InFreeRow(t0, zero)
         && Taken(t) == Taken(t0)[zero := Reserved]
         && exists f :: |f| <= length && BestFit(t0, f, community, length) && Leftmost(f, community, length) == zero)
  }

  /** The whole effect of `newPrefix`. */
  ghost predicate Allocated(t0: Table, t: Table, community: Bits, length: nat, width: nat, r: Option<Bits>)
    requires |community| <= length <= width
  {
    && Partition(t, width)
    && ReservedOnlyZero(t0, t, community, length, width)
    && (r.Some? <==> Allocatable(t0, community, length, width))
    && (r.None? ==> !Allocatable(t, community, length, width))
    && (r.Some? ==> Wanted(r.value, community, length, width) && FreeRow(t, r.value) && InFreeRow(t0, r.value))
    && Searched(t0, t, community, length, width, r)
    && (Coalesced(t0) ==> if r.Some? then CoalescedBut(t, r.value) else Coalesced(t))
  }

  /** Between two rounds of the search: nothing has happened yet, or the all-zero address
      has been reserved and the search goes on. */
  ghost predicate Searching(t0: Table, t: Table, community: Bits, length: nat, width: nat, reserved: bool)
    requires |community| <= length <= width
  {
    var zero := ZeroAddress(community, width);
    && Partition(t, width)
    && (if reserved then ReservingRound(t0, t, community, length, width) else t == t0)
    && (reserved ==> zero in Taken(t) && Taken(t) != Taken(t0))
    && ReservedOnlyZero(t0, t, community, length, width)
    && SameRoom(t0, t, community, length, width)
    && (Coalesced(t0) ==> Coalesced(t))
  }

  lemma SearchFound(t0: Table, t: Table, t': Table, community: Bits, length: nat, width: nat, reserved: bool,
                    f: Bits, prefix: Bits)
    requires |community| <= length <= width && Searching(t0, t, community, length, width, reserved)
    requires Round(t, f, prefix, t', community, length) && SplitInto(t, t', width, prefix, length)
    requires prefix != ZeroAddress(community, width)
    ensures Allocated(t0, t', community, length, width, Some(prefix))
  {
    assert InFreeRow(t', prefix);
    assert Wanted(prefix, community, length, width);
    assert Rounds(t0, t, t', community, length, width, Some(prefix));
  }

  lemma SearchOver(t0: Table, t: Table, community: Bits, length: nat, width: nat, reserved: bool)
    requires |community| <= length <= width && Searching(t0, t, community, length, width, reserved)
    requires !Allocatable(t, community, length, width)
    ensures Allocated(t0, t, community, length, width, None)
  {
    assert Rounds(t0, t, t, community, length, width, None);
  }

  lemma SearchGoesOn(t0: Table, t': Table, community: Bits, width: nat, f: Bits)
    requires |community| <= width && Partition(t0, width)
    requires Round(t0, f, ZeroAddress(community, width), t', community, width)
    requires SplitInto(t0, t', width, ZeroAddress(community, width), width)
    ensures Searching(t0, t'[ZeroAddress(community, width) := Reserved], community, width, width, true)
  {
    var zero := ZeroAddress(community, width);
    ReserveZero(t0, t', width, community);
    FreeRowBlock(t0, width, zero);
    assert zero !in Taken(t0);
    Reserving(t0, f, t', community, width);
  }

  lemma Reserving(t0: Table, f: Bits, t': Table, community: Bits, width: nat)
    requires |community| <= width && Round(t0, f, ZeroAddress(community, width), t', community, width)
    ensures ReservingRound(t0, t'[ZeroAddress(community, width) := Reserved], community, width, width)
  {
    var zero := ZeroAddress(community, width);
    assert CutFrom(f, zero, zero);
    assert t'[zero := Reserved][zero := Free] == t';
    assert RoundBefore(t0, f, zero, t'[zero := Reserved], community, width);
  }

  /** The all-zero address is taken for good, so no later split ends there. */
  lemma SecondRoundElsewhere(t0: Table, t: Table, t': Table, community: Bits, length: nat, width: nat, prefix: Bits)
    requires |community| <= length <= width && Searching(t0, t, community, length, width, true)
    requires SplitInto(t, t', width, prefix, length)
    ensures prefix != ZeroAddress(community, width)
  {
    assert prefix !in Taken(t');
  }

  /** A row that neither contains the block granted nor the all-zero address is still there,
      and still whole. */
  lemma AllocationKeepsRows(t0: Table, t: Table, community: Bits, length: nat, width: nat, r: Option<Bits>, p: Bits)
    requires |community| <= length <= width && Partition(t0, width)
    requires Allocated(t0, t, community, length, width, r)
    requires p in t0 && !(p <= ZeroAddress(community, width)) && (r.Some? ==> !(p <= r.value))
    ensures p in t && t[p] == t0[p]
  {
    SearchKeepsRows(t0, t, community, length, width, r, p);
  }

  lemma SearchKeepsRows(t0: Table, t: Table, community: Bits, length: nat, width: nat, r: Option<Bits>, p: Bits)
    requires |community| <= length <= width && Partition(t0, width)
    requires Searched(t0, t, community, length, width, r)
    requires p in t0 && !(p <= ZeroAddress(community, width)) && (r.Some? ==> !(p <= r.value))
    ensures p in t && t[p] == t0[p]
  {
    var t1 :| Rounds(t0, t1, t, community, length, width, r);
    if t1 != t0 {
      ReservationKeeps(t0, t1, community, length, width, p);
    }
    if r.Some? {
      var f :| Round(t1, f, r.value, t, community, length);
      CarvedKeeps(t1, width, f, r.value, t, p);
    }
  }

  lemma ReservationKeeps(t0: Table, t1: Table, community: Bits, length: nat, width: nat, p: Bits)
    requires |community| <= length <= width && Partition(t0, width)
    requires ReservingRound(t0, t1, community, length, width) && p in t0 && !(p <= ZeroAddress(community, width))
    ensures p in t1 && t1[p] == t0[p]
  {
    var zero := ZeroAddress(community, width);
    var f :| RoundBefore(t0, f, zero, t1, community, length);
    CarvedKeeps(t0, width, f, zero, t1[zero := Free], p);
  }

  lemma CarvedKeeps(t: Table, width: nat, f: Bits, b: Bits, t': Table, p: Bits)
    requires Partition(t, width) && CarvedOut(t, f, b, t') && p in t && !(p <= b)
    ensures p in t' && t'[p] == t[p]
  {
  }
}
