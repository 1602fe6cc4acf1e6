/** Runs of the registry in which the allocator misses room, or the merge a pair of rows. */
module PrefixWitnesses {
  import opened Bits
  import opened PrefixTable
  import opened PrefixAllocation
  import opened PrefixRuns
  import opened Wrappers

  // ---- a revocation leaves room that is missed -----------------------------------------

  /** One prefix is granted, a second one from the half that the first one left, and the
      second one is revoked. */
  function GapEvents(): seq<Event> {
    [Request([], 1, Some([false]), 1, 9), Request([], 2, Some([true, false]), 2, 9),
     Revoke([true, false], RevokedSerial(2))]
  }

  function OneGranted(): Table { map[[false] := Issued(1, 9), [true] := Free] }

  function TwoGranted(): Table { map[[false] := Issued(1, 9), [true, false] := Issued(2, 9), [true, true] := Free] }

  function Gap(): Table { map[[false] := Issued(1, 9), [true, false] := Free, [true, true] := Free] }

  function GapTables(): seq<Table> { [map[[] := Free], OneGranted(), TwoGranted(), Gap()] }

  ghost predicate OnlyFreeRow(t: Table, f: Bits) {
    FreeRow(t, f) && forall p :: FreeRow(t, p) ==> p == f
  }

  /** A free row that is the only one is split once for a block of the next length. */
  lemma SplitGranted(t: Table, width: nat, f: Bits)
    requires Partition(t, width) && OnlyFreeRow(t, f) && |f| + 1 < width
    ensures Allocated(t, Split(t, f, false), [], |f| + 1, width, Some(f + [false]))
  {
    var n := |f| + 1;
    assert BestFit(t, f, [], n);
    assert SplitInto(t, t, width, f, n);
    SplitOnce(t, t, width, f, false, n);
    assert Leftmost(f, [], n) == f + [false];
    CarvedNext(t, width, f, f, t, false);
    SearchFound(t, t, Split(t, f, false), [], n, width, false, f, f + [false]);
  }

  lemma GrantedStep(t: Table, t': Table, width: nat, f: Bits, n: nat, b: Bits, serial: nat, notAfter: int)
    requires Partition(t, width) && OnlyFreeRow(t, f) && n == |f| + 1 < width && b == f + [false]
    requires t' == Split(t, f, false)[b := Issued(serial, notAfter)]
    ensures Step(t, Request([], n, Some(b), serial, notAfter), t', width) && Partition(t', width)
  {
    SplitGranted(t, width, f);
    assert Requested(t, t', width, [], n, Some(b), serial, notAfter);
    StepSafe(t, Request([], n, Some(b), serial, notAfter), t', width);
  }

  lemma FirstSplit()
    ensures OnlyFreeRow(map[[] := Free], []) && [] + [false] == [false]
    ensures OneGranted() == Split(map[[] := Free], [], false)[[false] := Issued(1, 9)]
  {
    assert [] + [false] == [false] && [] + [true] == [true];
  }

  lemma SecondSplit()
    ensures OnlyFreeRow(OneGranted(), [true]) && [true] + [false] == [true, false]
    ensures TwoGranted() == Split(OneGranted(), [true], false)[[true, false] := Issued(2, 9)]
  {
    assert [true] + [false] == [true, false] && [true] + [true] == [true, true];
  }

  lemma GapRevoked()
    ensures Revoked(TwoGranted(), Gap(), [true, false], RevokedSerial(2))
  {
    assert Gap() == TwoGranted()[[true, false] := Free];
  }

  lemma StartPartition(t: Table, width: nat)
    requires t == map[[] := Free]
    ensures Partition(t, width)
  {
    forall a: Bits ensures Covers(t, a) { assert [] in t && [] <= a; }
  }

  /** One more event at the end of a run. */
  lemma RunExtended(ts: seq<Table>, es: seq<Event>, width: nat, e: Event, t: Table, ts': seq<Table>, es': seq<Event>)
    requires IsRun(ts, es, width) && ts' == ts + [t] && es' == es + [e]
    requires Step(ts[|ts| - 1], e, t, width)
    ensures IsRun(ts', es', width)
  {
    forall i | 0 <= i < |es'| ensures StepAt(ts', es', width, i) {
      assert i < |es| ==> StepAt(ts, es, width, i);
    }
  }

  lemma Listed<T>(a: T, b: T, c: T, d: T, e: T)
    ensures [a] + [b] == [a, b] && [a, b] + [c] == [a, b, c] && [a, b, c] + [d] == [a, b, c, d]
    ensures [a, b, c, d] + [e] == [a, b, c, d, e]
  {
  }

  lemma ThreeSteps(t0: Table, t1: Table, t2: Table, t3: Table, e0: Event, e1: Event, e2: Event, width: nat)
    requires t0 == map[[] := Free] && Step(t0, e0, t1, width) && Step(t1, e1, t2, width) && Step(t2, e2, t3, width)
    ensures IsRun([t0, t1, t2, t3], [e0, e1, e2], width)
  {
    Listed(t0, t1, t2, t3, t3);
    Listed(e0, e1, e2, e2, e2);
    assert [] + [e0] == [e0];
    RunExtended([t0], [], width, e0, t1, [t0, t1], [e0]);
    RunExtended([t0, t1], [e0], width, e1, t2, [t0, t1, t2], [e0, e1]);
    RunExtended([t0, t1, t2], [e0, e1], width, e2, t3, [t0, t1, t2, t3], [e0, e1, e2]);
  }

  lemma FourSteps(t1: Table, t2: Table, t3: Table, e0: Event, e1: Event, e2: Event, e3: Event, width: nat)
    requires Step(map[[] := Free], e0, t1, width) && Step(t1, e1, t2, width)
    requires Step(t2, e2, t3, width) && Step(t3, e3, t3, width)
    ensures IsRun([map[[] := Free], t1, t2, t3, t3], [e0, e1, e2, e3], width)
  {
    var t0: Table := map[[] := Free];
    ThreeSteps(t0, t1, t2, t3, e0, e1, e2, width);
    Listed(t0, t1, t2, t3, t3);
    Listed(e0, e1, e2, e3, e3);
    RunExtended([t0, t1, t2, t3], [e0, e1, e2], width, e3, t3, [t0, t1, t2, t3, t3], [e0, e1, e2, e3]);
  }

  lemma GapIsRun(width: nat)
    requires width == 3
    ensures IsRun(GapTables(), GapEvents(), width) && Partition(Gap(), width)
  {
    StartPartition(map[[] := Free], width);
    FirstSplit();
    GrantedStep(map[[] := Free], OneGranted(), width, [], 1, [false], 1, 9);
    SecondSplit();
    GrantedStep(OneGranted(), TwoGranted(), width, [true], 2, [true, false], 2, 9);
    GapRevoked();
    StepSafe(TwoGranted(), GapEvents()[2], Gap(), width);
    ThreeSteps(map[[] := Free], OneGranted(), TwoGranted(), Gap(),
               GapEvents()[0], GapEvents()[1], GapEvents()[2], width);
  }

  lemma GapMissed(width: nat)
    requires width == 3 && Partition(Gap(), width)
    ensures RoomLeft(Gap(), [], 1, width) && !Allocatable(Gap(), [], 1, width)
  {
    assert [true] + [false] == [true, false] && [true] + [true] == [true, true];
    SiblingsInTwoRows(Gap(), width, [true]);
    assert Wanted([true], [], 1, width);
    forall b | Wanted(b, [], 1, width) ensures !InFreeRow(Gap(), b) {
      assert forall p :: FreeRow(Gap(), p) ==> |p| == 2;
    }
  }

  /** In that run half of the space ends up entirely free, and the allocator cannot grant
      it. */
  lemma RevocationLeavesGap()
    ensures IsRun(GapTables(), GapEvents(), 3) && GapTables()[3] == Gap()
    ensures RoomLeft(Gap(), [], 1, 3) && !Allocatable(Gap(), [], 1, 3)
  {
    GapIsRun(3);
    GapMissed(3);
  }

  // ---- rows of 128 bits are never merged -------------------------------------------------

  /** The whole space split n times, towards the all-zero address. */
  function Deep(n: nat): (t: Table)
    ensures FreeRow(t, Zeros(n))
  {
    if n == 0 then
      assert Zeros(0) == [];
      map[[] := Free]
    else
      assert Zeros(n - 1) + [false] == Zeros(n);
      Split(Deep(n - 1), Zeros(n - 1), false)
  }

  lemma {:induction false} DeepSplit(n: nat, width: nat)
    requires n <= width
    ensures SplitInto(map[[] := Free], Deep(n), width, Zeros(n), width)
  {
    if n == 0 {
      StartPartition(map[[] := Free], width);
      assert Zeros(0) == [];
    } else {
      DeepSplit(n - 1, width);
      assert Zeros(n - 1) + [false] == Zeros(n);
      SplitOnce(map[[] := Free], Deep(n - 1), width, Zeros(n - 1), false, width);
    }
  }

  lemma {:induction false} DeepCarved(n: nat)
    ensures DeepIsCarved(n)
  {
    if n == 0 {
      DeepStart();
    } else {
      DeepCarved(n - 1);
      DeepNext(n - 1);
    }
  }

  ghost predicate DeepIsCarved(n: nat) { CarvedOut(map[[] := Free], [], Zeros(n), Deep(n)) }

  lemma DeepStart()
    ensures DeepIsCarved(0)
  {
    assert Zeros(0) == [];
    CarvedStart(Deep(0));
  }

  lemma DeepNext(n: nat)
    requires DeepIsCarved(n)
    ensures DeepIsCarved(n + 1)
  {
    var d, z := Deep(n), Zeros(n);
    DeepSplit(n, n + 1);
    HalfCarved(d, z, n + 1);
    assert z + [false] == Zeros(n + 1);
  }

  lemma CarvedStart(t: Table)
    requires t == map[[] := Free]
    ensures CarvedOut(t, [], [], t)
  {
  }

  lemma HalfCarved(d: Table, z: Bits, n: nat)
    requires Partition(d, n) && CarvedOut(map[[] := Free], [], z, d) && z in d
    ensures CarvedOut(map[[] := Free], [], z + [false], Split(d, z, false))
  {
    StartPartition(map[[] := Free], n);
    CarvedNext(map[[] := Free], n, [], z, d, false);
  }

  /** The block next to the all-zero block of k + 1 bits. */
  function Beside(k: nat): (b: Bits)
    ensures |b| == k + 1 && b[k]
  {
    Zeros(k) + [true]
  }

  lemma SplitRows(t: Table, p: Bits)
    requires FreeRow(t, p)
    ensures FreeRow(Split(t, p, false), p + [true])
    ensures forall q :: FreeRow(t, q) && q != p ==> FreeRow(Split(t, p, false), q)
    ensures forall q :: q in Split(t, p, false) ==> q in t || q == p + [false] || q == p + [true]
  {
  }

  /** The splitting leaves a free row beside each all-zero block; only two are full addresses. */
  lemma DeepRows(d: Table, w: nat)
    requires w >= 2 && d == Deep(w)
    ensures FreeRow(d, Beside(w - 1)) && FreeRow(d, Beside(w - 2))
    ensures forall p :: p in d && |p| == w ==> p == Zeros(w) || p == Beside(w - 1)
  {
    var k := w - 1;
    DeepSplit(k, k);
    SplitRows(Deep(k - 1), Zeros(k - 1));
    SplitRows(Deep(k), Zeros(k));
  }

  /** The first full address asked for: the all-zero one is reserved on the way. */
  lemma FirstAddressGranted(t0: Table, d: Table, t1: Table, w: nat, z: Bits, f: Bits)
    requires t0 == map[[] := Free] && z == Zeros(w) && SplitInto(t0, d, w, z, w)
    requires CarvedOut(t0, [], z, d)
    requires FreeRow(d, f) && |f| == w && f != z
    requires t1 == d[z := Reserved]
    ensures Step(t0, Request([], w, Some(f), 1, 9), t1[f := Issued(1, 9)], w)
  {
    FirstRound(t0, d, w, z);
    SecondRound(t0, t1, w, z, f);
    assert Requested(t0, t1[f := Issued(1, 9)], w, [], w, Some(f), 1, 9);
  }

  lemma FirstRound(t0: Table, d: Table, w: nat, z: Bits)
    requires t0 == map[[] := Free] && z == Zeros(w) && SplitInto(t0, d, w, z, w) && CarvedOut(t0, [], z, d)
    ensures Searching(t0, d[z := Reserved], [], w, w, true)
  {
    StartPartition(t0, w);
    assert ZeroAddress([], w) == z == Leftmost([], [], w);
    assert Round(t0, [], z, d, [], w);
    SearchGoesOn(t0, d, [], w, []);
  }

  lemma SecondRound(t0: Table, t1: Table, w: nat, z: Bits, f: Bits)
    requires z == Zeros(w) && Searching(t0, t1, [], w, w, true) && FreeRow(t1, f) && |f| == w && f != z
    ensures Allocated(t0, t1, [], w, w, Some(f))
  {
    assert Leftmost(f, [], w) == f;
    assert ZeroAddress([], w) == z;
    assert BestFit(t1, f, [], w);
    assert SplitInto(t1, t1, w, f, w);
    SearchFound(t0, t1, t1, [], w, w, true, f, f);
  }

  /** The next full address asked for: the first half of a row that is split for it. */
  lemma NextAddressFound(t: Table, f: Bits, b: Bits, w: nat)
    requires Partition(t, w) && FreeRow(t, f) && |f| + 1 == w && b == f + [false] && true in f
    requires forall p :: FreeRow(t, p) ==> |p| < w
    ensures Allocated(t, Split(t, f, false), [], w, w, Some(b))
  {
    OneRound(t, f, b, w);
    assert b != Zeros(w) by {
      var k :| 0 <= k < |f| && f[k];
      assert b[k];
    }
    SearchFound(t, t, Split(t, f, false), [], w, w, false, f, b);
  }

  lemma OneRound(t: Table, f: Bits, b: Bits, w: nat)
    requires Partition(t, w) && FreeRow(t, f) && |f| + 1 == w && b == f + [false]
    requires forall p :: FreeRow(t, p) ==> |p| < w
    ensures SplitInto(t, Split(t, f, false), w, b, w) && Round(t, f, b, Split(t, f, false), [], w)
  {
    assert SplitInto(t, t, w, f, w);
    SplitOnce(t, t, w, f, false, w);
    FirstHalf(f, w);
    CarvedNext(t, w, f, f, t, false);
  }

  lemma FirstHalf(f: Bits, w: nat)
    requires |f| + 1 == w
    ensures Leftmost(f, [], w) == f + [false]
  {
    assert Zeros(1) == [false];
  }

  function FirstAddress(w: nat): Table
    requires w >= 2
  {
    Deep(w)[Zeros(w) := Reserved][Beside(w - 1) := Issued(1, 9)]
  }

  function Next(w: nat): (b: Bits)
    requires w >= 2
    ensures |b| == w
  {
    Beside(w - 2) + [false]
  }

  /** The row that is split for the second address; the first one is granted, reserving the
      all-zero one. */
  lemma AddressesGranted(w: nat)
    requires w >= 2
    ensures Beside(w - 2) in FirstAddress(w)
    ensures Step(map[[] := Free], Request([], w, Some(Beside(w - 1)), 1, 9), FirstAddress(w), w)
  {
    var t0: Table, d := map[[] := Free], Deep(w);
    DeepRows(d, w);
    DeepSplit(w, w);
    DeepCarved(w);
    FirstAddressGranted(t0, d, d[Zeros(w) := Reserved], w, Zeros(w), Beside(w - 1));
  }

  function SecondAddress(w: nat): Table
    requires w >= 2
  {
    AddressesGranted(w);
    Split(FirstAddress(w), Beside(w - 2), false)[Next(w) := Issued(2, 9)]
  }

  lemma SecondAddressGranted(w: nat, t: Table, f: Bits)
    requires w >= 2 && t == FirstAddress(w) && Partition(t, w) && f == Beside(w - 2)
    ensures Step(t, Request([], w, Some(Next(w)), 2, 9), SecondAddress(w), w)
  {
    var d, z := Deep(w), Zeros(w);
    DeepRows(d, w);
    assert f[w - 2];
    NextAddressFound(t, f, Next(w), w);
    assert Requested(t, SecondAddress(w), w, [], w, Some(Next(w)), 2, 9);
  }

  /** The second certificate is revoked, and its row freed. */
  function Halves(w: nat): Table
    requires w >= 2
  {
    SecondAddress(w)[Next(w) := Free]
  }

  function HalvesTables(w: nat): seq<Table>
    requires w >= 2
  {
    [map[[] := Free], FirstAddress(w), SecondAddress(w), Halves(w), Halves(w)]
  }

  function HalvesEvents(w: nat): seq<Event>
    requires w >= 2
  {
    [Request([], w, Some(Beside(w - 1)), 1, 9), Request([], w, Some(Next(w)), 2, 9),
     Revoke(Next(w), RevokedSerial(2)), Timeout(0)]
  }

  /** Freeing one row of a coalesced table makes no other free siblings than its own. */
  lemma FreedSiblings(t: Table, p: Bits, q: Bits)
    requires Coalesced(t) && p in t && FreeSiblings(t[p := Free], q)
    ensures |p| == |q| + 1
  {
    assert !FreeSiblings(t, q);
  }

  ghost predicate NoneExpired(t: Table, now: int) { forall p :: p in t ==> !Expired(t, p, now) }

  /** A full address is not merged by a pass that starts below its length. */
  lemma FreedUnmerged(t: Table, p: Bits, w: nat)
    requires Partition(t, w) && Coalesced(t) && p in t && |p| >= 128 && NoneExpired(t, 0)
    ensures Step(t[p := Free], Timeout(0), t[p := Free], w)
  {
    var r := t[p := Free];
    SetRowPartition(t, w, p, Free);
    forall q | q in r ensures !Expired(r, q, 0) {
      assert q in t && !Expired(t, q, 0);
    }
    assert Released(r, 0) == r;
    forall q | FreeSiblings(r, q) ensures |q| + 1 >= 128 {
      FreedSiblings(t, p, q);
    }
  }

  lemma DeepFree(n: nat)
    ensures forall p :: p in Deep(n) ==> Deep(n)[p].Free?
  {
    DeepSplit(n, n);
    forall p | p in Deep(n) ensures Deep(n)[p].Free? {
      assert p in Taken(Deep(n)) <==> p in Taken(map[[] := Free]);
    }
  }

  /** The sibling of the second address is free, and no certificate ends before date 9. */
  lemma SecondAddressRows(w: nat)
    requires w >= 2
    ensures NoneExpired(SecondAddress(w), 0) && Next(w) in SecondAddress(w)
    ensures SecondAddress(w)[Next(w)] == Issued(2, 9)
    ensures FreeRow(SecondAddress(w), Beside(w - 2) + [true])
  {
    DeepFree(w);
    DeepRows(Deep(w), w);
    SplitRows(FirstAddress(w), Beside(w - 2));
    assert (Beside(w - 2) + [true])[w - 1] && !Next(w)[w - 1];
  }

  lemma RequestCoalesced(t: Table, e: Event, t': Table, width: nat)
    requires Partition(t, width) && Step(t, e, t', width) && e.Request? && Coalesced(t)
    ensures Partition(t', width) && Coalesced(t')
  {
    StepSafe(t, e, t', width);
    StepCoalesced(t, e, t', width);
  }

  ghost predicate Leads(t: Table, e: Event, t': Table, w: nat) {
    Partition(t, w) ==> Step(t, e, t', w)
  }

  lemma FirstLeads(w: nat)
    requires w >= 2
    ensures Leads(map[[] := Free], HalvesEvents(w)[0], FirstAddress(w), w)
  {
    AddressesGranted(w);
  }

  lemma SecondLeads(w: nat)
    requires w >= 2
    ensures Leads(FirstAddress(w), HalvesEvents(w)[1], SecondAddress(w), w)
  {
    AddressesGranted(w);
    if Partition(FirstAddress(w), w) {
      SecondAddressGranted(w, FirstAddress(w), Beside(w - 2));
    }
  }

  /** Two full addresses are granted, the second one is revoked and the table cleaned. */
  lemma AddressRun(t1: Table, t2: Table, e0: Event, e1: Event, p: Bits, w: nat)
    requires Leads(map[[] := Free], e0, t1, w) && Leads(t1, e1, t2, w) && e0.Request? && e1.Request?
    requires p in t2 && t2[p] == Issued(2, 9) && |p| >= 128 && NoneExpired(t2, 0)
    ensures var t3 := t2[p := Free];
            IsRun([map[[] := Free], t1, t2, t3, t3], [e0, e1, Revoke(p, RevokedSerial(2)), Timeout(0)], w)
  {
    var t0: Table := map[[] := Free];
    StartPartition(t0, w);
    StartCoalesced();
    RequestCoalesced(t0, e0, t1, w);
    RequestCoalesced(t1, e1, t2, w);
    FreedUnmerged(t2, p, w);
    var t3, e2, e3 := t2[p := Free], Revoke(p, RevokedSerial(2)), Timeout(0);
    FourSteps(t1, t2, t3, e0, e1, e2, e3, w);
  }

  lemma HalvesRun(w: nat)
    requires w >= 128
    ensures IsRun(HalvesTables(w), HalvesEvents(w), w)
  {
    FirstLeads(w);
    SecondLeads(w);
    SecondAddressRows(w);
    AddressRun(FirstAddress(w), SecondAddress(w), HalvesEvents(w)[0], HalvesEvents(w)[1], Next(w), w);
  }

  /** In a network without a prefix of its own: two hosts get full addresses, the second one
      is revoked, and the cleaning that follows leaves both halves of its block free. */
  lemma AddressesStayApart(w: nat)
    requires w >= 128
    ensures IsRun(HalvesTables(w), HalvesEvents(w), w)
    ensures HalvesEvents(w)[3].Timeout? && FreeSiblings(HalvesTables(w)[4], Beside(w - 2))
  {
    HalvesRun(w);
    SecondAddressRows(w);
    assert FreeSiblings(Halves(w), Beside(w - 2));
  }
}
