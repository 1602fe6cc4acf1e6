/** Runs of the registry: what each request does to the table, and what holds after any
    sequence of requests. */
module PrefixRuns {
  import opened Bits
  import opened Numbers
  import opened PrefixTable
  import opened PrefixAllocation
  import opened PrefixMerging
  import opened KraftSum
  import opened Wrappers

  datatype RevokeResult = NotFound | RevokedSerial(serial: nat) | NotACertificate

  predicate Expired(t: Table, p: Bits, now: int) {
    p in t && t[p].Issued? && t[p].notAfter <= now
  }

  function Released(t: Table, now: int): (r: Table)
    ensures r.Keys == t.Keys
  {
    map p | p in t :: if Expired(t, p, now) then Free else t[p]
  }

  ghost predicate Requested(t: Table, t': Table, width: nat, community: Bits, length: nat,
                            r: Option<Bits>, serial: nat, notAfter: int)
    requires |community| <= length <= width
  {
    exists t1 :: Allocated(t, t1, community, length, width, r)
              && t' == if r.Some? then t1[r.value := Issued(serial, notAfter)] else t1
  }

  predicate Revoked(t: Table, t': Table, prefix: Bits, r: RevokeResult) {
    match r
    case NotFound => t' == t && (prefix !in t || t[prefix].Free?)
    case RevokedSerial(s) => prefix in t && t[prefix].Issued? && t[prefix].serial == s && t' == t[prefix := Free]
    case NotACertificate => prefix in t && t[prefix].Reserved? && t' == t[prefix := Free]
  }

  datatype Event =
    | Request(community: Bits, length: nat, granted: Option<Bits>, serial: nat, notAfter: int)
    | Timeout(now: int)
    | Revoke(prefix: Bits, result: RevokeResult)
    | Renew(prefix: Bits, serial: nat, notAfter: int)

  ghost predicate Step(t: Table, e: Event, t': Table, width: nat) {
    match e
    case Request(c, n, r, serial, notAfter) => |c| <= n <= width && Requested(t, t', width, c, n, r, serial, notAfter)
    case Timeout(now) => Merged(Released(t, now), t', width)
    case Revoke(p, r) => Revoked(t, t', p, r)
    case Renew(p, serial, notAfter) => p in t && t[p].Issued? && t' == t[p := Issued(serial, notAfter)]
  }

  /** The event ends or replaces the certificate of the row p. */
  predicate Ends(e: Event, p: Bits, entry: Entry) {
    match e
    case Request(_, _, _, _, _) => false
    case Timeout(now) => entry.Issued? && entry.notAfter <= now
    case Revoke(q, _) => q == p
    case Renew(q, _, _) => q == p
  }

  lemma TakenApart(t: Table, width: nat, p: Bits, b: Bits)
    requires Partition(t, width) && p in t && !t[p].Free? && InFreeRow(t, b)
    ensures !Overlap(p, b)
  {
    FreeRowBlock(t, width, b);
  }

  /** An allocation keeps the rows that are taken, and overlaps none of them. */
  lemma AllocatedKeeps(t: Table, t1: Table, community: Bits, length: nat, width: nat, r: Option<Bits>, p: Bits)
    requires |community| <= length <= width && Partition(t, width) && Allocated(t, t1, community, length, width, r)
    requires p in t && !t[p].Free?
    ensures p in t1 && t1[p] == t[p] && (r.Some? ==> !Overlap(p, r.value))
  {
    ReservedKeeps(t, t1, community, length, width, p);
    if r.Some? {
      TakenApart(t, width, p, r.value);
    }
  }

  lemma ReservedKeeps(t: Table, t1: Table, community: Bits, length: nat, width: nat, p: Bits)
    requires |community| <= length <= width && Partition(t, width) && p in t && !t[p].Free?
    requires ReservedOnlyZero(t, t1, community, length, width)
    ensures p in t1 && t1[p] == t[p]
  {
    var zero := ZeroAddress(community, width);
    if InFreeRow(t, zero) {
      TakenApart(t, width, p, zero);
      assert p != zero;
    }
    assert p in Taken(t) && p in Taken(t1);
  }

  lemma RequestedTaken(t: Table, t1: Table, t': Table, width: nat, e: Event, p: Bits)
    requires e.Request? && |e.community| <= e.length <= width && Partition(t, width)
    requires Allocated(t, t1, e.community, e.length, width, e.granted)
    requires t' == if e.granted.Some? then t1[e.granted.value := Issued(e.serial, e.notAfter)] else t1
    requires p in t && !t[p].Free?
    ensures p in t' && t'[p] == t[p]
    ensures e.granted.Some? ==> !Overlap(p, e.granted.value)
  {
    AllocatedKeeps(t, t1, e.community, e.length, width, e.granted, p);
    assert Overlap(p, p);
  }

  /** One step keeps the partition, and keeps every taken row that it does not name. */
  lemma {:induction false} StepSafe(t: Table, e: Event, t': Table, width: nat)
    requires Partition(t, width) && Step(t, e, t', width)
    ensures Partition(t', width)
    ensures forall p :: p in t && !t[p].Free? && !Ends(e, p, t[p]) ==> p in t' && t'[p] == t[p]
    ensures e.Request? && e.granted.Some? ==>
              forall p :: p in t && !t[p].Free? ==> !Overlap(p, e.granted.value)
  {
    match e
    case Request(c, n, r, serial, notAfter) =>
      var t1 :| Allocated(t, t1, c, n, width, r)
             && t' == if r.Some? then t1[r.value := Issued(serial, notAfter)] else t1;
      if r.Some? {
        SetRowPartition(t1, width, r.value, Issued(serial, notAfter));
      }
      forall p | p in t && !t[p].Free?
        ensures p in t' && t'[p] == t[p] && (r.Some? ==> !Overlap(p, r.value))
      {
        RequestedTaken(t, t1, t', width, e, p);
      }
    case Timeout(now) =>
      forall p | p in t && !t[p].Free? && !Ends(e, p, t[p]) ensures p in t' && t'[p] == t[p] {
        assert p in Taken(Released(t, now));
        assert p in Taken(t');
      }
    case Revoke(p, r) =>
      if !r.NotFound? {
        SetRowPartition(t, width, p, Free);
      }
    case Renew(p, serial, notAfter) =>
      SetRowPartition(t, width, p, Issued(serial, notAfter));
  }

  /** After a cleaning no certificate is left that has expired, and its block is free. */
  lemma ExpiredIsFree(t: Table, now: int, t': Table, width: nat, p: Bits)
    requires Partition(t, width) && Step(t, Timeout(now), t', width)
    requires p in t && t[p].Issued? && t[p].notAfter <= now
    ensures BlockFree(t', p) && forall q :: q in t' && t'[q].Issued? ==> t'[q].notAfter > now
  {
    var r := Released(t, now);
    forall q | q in t' && !t'[q].Free? ensures q in t && t'[q] == t[q] && !Expired(t, q, now) {
      assert q in Taken(t') && q in Taken(r);
    }
    forall q | q in t' && Overlap(q, p) ensures t'[q].Free? {
      assert !t'[q].Free? ==> q == p;
    }
  }

  ghost predicate StepAt(ts: seq<Table>, es: seq<Event>, width: nat, i: nat)
    requires i < |es| && i + 1 < |ts|
  {
    Step(ts[i], es[i], ts[i + 1], width)
  }

  ghost predicate IsRun(ts: seq<Table>, es: seq<Event>, width: nat) {
    && |ts| == |es| + 1 && ts[0] == map[[] := Free]
    && forall i :: 0 <= i < |es| ==> StepAt(ts, es, width, i)
  }

  /** In every run, at every moment, the rows partition the address space and add up to it. */
  lemma {:induction false} RunKeepsPartition(ts: seq<Table>, es: seq<Event>, width: nat, i: nat)
    requires IsRun(ts, es, width) && i < |ts|
    ensures Partition(ts[i], width) && Space(ts[i].Keys, width) == Pow2(width)
  {
    if i == 0 {
      forall a: Bits ensures Covers(ts[0], a) { assert [] in ts[0] && [] <= a; }
    } else {
      RunKeepsPartition(ts, es, width, i - 1);
      assert StepAt(ts, es, width, i - 1);
      StepSafe(ts[i - 1], es[i - 1], ts[i], width);
    }
    SpaceConserved(ts[i], width);
  }

  /** A certificate stays on its block, whatever happens to the others, until a request
      that names it; and no block granted meanwhile overlaps it. */
  lemma {:induction false} CertificateKept(ts: seq<Table>, es: seq<Event>, width: nat, p: Bits, i: nat, j: nat)
    requires IsRun(ts, es, width) && i <= j < |ts|
    requires p in ts[i] && !ts[i][p].Free?
    requires forall k :: i <= k < j ==> !Ends(es[k], p, ts[i][p])
    ensures p in ts[j] && ts[j][p] == ts[i][p]
    ensures forall k :: i <= k < j && es[k].Request? && es[k].granted.Some? ==> !Overlap(p, es[k].granted.value)
    decreases j
  {
    if i < j {
      CertificateKept(ts, es, width, p, i, j - 1);
      RunKeepsPartition(ts, es, width, j - 1);
      assert StepAt(ts, es, width, j - 1);
      StepSafe(ts[j - 1], es[j - 1], ts[j], width);
    }
  }

  /** The certificate of an issued row closes the only gap the allocation left; only a
      revocation, which does not merge, leaves free siblings behind. */
  lemma StepCoalesced(t: Table, e: Event, t': Table, width: nat)
    requires Partition(t, width) && Step(t, e, t', width)
    requires if e.Timeout? then width < 128 else Coalesced(t) && (e.Revoke? ==> e.result.NotFound?)
    ensures Coalesced(t')
  {
    match e
    case Request(c, n, r, serial, notAfter) =>
      var t1 :| Allocated(t, t1, c, n, width, r)
             && t' == if r.Some? then t1[r.value := Issued(serial, notAfter)] else t1;
      if r.Some? {
        TakeRowCoalesced(t1, r.value, Issued(serial, notAfter));
      }
    case Timeout(now) =>
      MergedIsCoalesced(Released(t, now), t', width);
    case Revoke(p, r) =>
    case Renew(p, serial, notAfter) =>
      forall q ensures FreeSiblings(t', q) ==> FreeSiblings(t, q) {}
  }

  /** No prefix has been revoked since the last cleaning, or since the start. */
  predicate Settled(es: seq<Event>, i: nat)
    requires i <= |es|
  {
    i == 0 || es[i - 1].Timeout? || (Settled(es, i - 1) && (es[i - 1].Revoke? ==> es[i - 1].result.NotFound?))
  }

  lemma {:induction false} SettledIsCoalesced(ts: seq<Table>, es: seq<Event>, width: nat, i: nat)
    requires width < 128 && IsRun(ts, es, width) && i < |ts| && Settled(es, i)
    ensures Coalesced(ts[i])
  {
    if i == 0 {
      StartCoalesced();
    } else {
      var k := i - 1;
      RunKeepsPartition(ts, es, width, k);
      if !es[k].Timeout? {
        SettledIsCoalesced(ts, es, width, k);
      }
      StepAtCoalesced(ts, es, width, k);
    }
  }

  lemma StepAtCoalesced(ts: seq<Table>, es: seq<Event>, width: nat, k: nat)
    requires width < 128 && k < |es| && k + 1 < |ts| && StepAt(ts, es, width, k) && Partition(ts[k], width)
    requires es[k].Timeout? || (Coalesced(ts[k]) && (es[k].Revoke? ==> es[k].result.NotFound?))
    ensures Coalesced(ts[k + 1])
  {
    StepCoalesced(ts[k], es[k], ts[k + 1], width);
  }

  lemma StartCoalesced()
    ensures Coalesced(map[[] := Free])
  {
  }

  /** In a settled moment of any run a request is granted exactly when some block of the
      wanted length in the community is entirely free, the all-zero address aside. */
  lemma GrantedIffRoom(ts: seq<Table>, es: seq<Event>, width: nat, i: nat)
    requires width < 128 && IsRun(ts, es, width) && i < |es| && Settled(es, i) && es[i].Request?
    ensures |es[i].community| <= width
    ensures es[i].granted.Some? <==> RoomLeft(ts[i], es[i].community, es[i].length, width)
  {
    var e := es[i];
    RunKeepsPartition(ts, es, width, i);
    SettledIsCoalesced(ts, es, width, i);
    assert StepAt(ts, es, width, i);
    var t1 :| Allocated(ts[i], t1, e.community, e.length, width, e.granted);
    AllocationComplete(ts[i], width, e.community, e.length);
  }

  /** At any moment of any run, settled or not, the allocator misses nothing exactly when
      no two free rows are siblings, the halves of the whole space aside. */
  lemma RunMissesNothingIff(ts: seq<Table>, es: seq<Event>, width: nat, i: nat)
    requires IsRun(ts, es, width) && i < |ts|
    ensures MissesNothing(ts[i], width) <==> forall q :: q != [] ==> !FreeSiblings(ts[i], q)
  {
    RunKeepsPartition(ts, es, width, i);
    MissesNothingIff(ts[i], width);
  }
}
