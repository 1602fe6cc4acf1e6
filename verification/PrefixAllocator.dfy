/** The allocator of the registry: `newPrefix`, `mergePrefixes` and the requests that
    change the `cert` table, with the table as a mutable map. */
module PrefixAllocator {
  import opened Bits
  import opened PrefixTable
  import opened PrefixAllocation
  import opened PrefixMerging
  import opened PrefixRuns
  import opened Wrappers

  class Registry {
    const networkLen: nat     // bits of the network prefix, shared by all addresses
    var table: Table
    var serial: nat           // last certificate serial given

    ghost predicate Valid()
      reads this
    {
      networkLen <= 128 && Partition(table, Width())
    }

    function Width(): nat
      requires networkLen <= 128
    {
      128 - networkLen
    }

    constructor (networkLen: nat)
      requires networkLen <= 128
      ensures Valid() && table == map[[] := Free] && this.networkLen == networkLen && serial == 0
    {
      this.networkLen := networkLen;
      table := map[[] := Free];
      serial := 0;
      new;
      forall a: Bits ensures Covers(table, a) { assert [] in table && [] <= a; }
    }

    /** Longest free row inside the community; ties are broken arbitrarily. */
    method SelectLongestFree(community: Bits, length: nat) returns (r: Option<Bits>)
      ensures r.None? ==> forall p :: !Candidate(table, p, community, length)
      ensures r.Some? ==> Candidate(table, r.value, community, length)
      ensures r.Some? ==> forall p :: Candidate(table, p, community, length) ==> |p| <= |r.value|
    {
      var rows := set p | p in table && Candidate(table, p, community, length);
      assert forall p :: Candidate(table, p, community, length) ==> p in rows;
      if rows == {} {
        return None;
      }
      LongestExists(rows);
      var p :| p in rows && forall q :: q in rows ==> |q| <= |p|;
      return Some(p);
    }

    /** The row that the community lies in, if a single row contains it. */
    method SelectContaining(community: Bits) returns (r: Option<Bits>)
      ensures r.None? ==> forall p :: p in table ==> !(p <= community)
      ensures r.Some? ==> r.value in table && r.value <= community
    {
      var rows := set p | p in table && p <= community;
      if rows == {} {
        assert forall p :: p in table && p <= community ==> p in rows;
        return None;
      }
      var p :| p in rows;
      return Some(p);
    }

    /** Split the row f until a row of the wanted length starts with the community and
        goes on with zeros. */
    method SplitDown(f: Bits, community: Bits, length: nat) returns (prefix: Bits)
      requires Valid() && FreeRow(table, f) && Overlap(f, community)
      requires |f| <= length && |community| <= length <= Width()
      modifies this`table
      ensures Valid() && SplitInto(old(table), table, Width(), prefix, length)
      ensures prefix == Leftmost(f, community, length) && CarvedOut(old(table), f, prefix, table)
    {
      prefix := f;
      ghost var t0 := table;
      while |prefix| < length
        invariant |f| <= |prefix| <= length && prefix <= Leftmost(f, community, length)
        invariant SplitInto(t0, table, Width(), prefix, length) && CarvedOut(t0, f, prefix, table)
      {
        var c := if |prefix| < |community| then community[|prefix|] else false;
        SplitGoesOn(t0, table, Width(), prefix, f, community, length);
        CarvedNext(t0, Width(), f, prefix, table, c);
        table := Split(table, prefix, c);
        prefix := prefix + [c];
      }
    }

    /** The row the search starts from, or None when the source raises StopIteration. */
    method FindRow(community: Bits, length: nat) returns (f: Option<Bits>)
      requires Valid() && |community| <= length <= Width()
      ensures f.None? ==> !Allocatable(table, community, length, Width())
      ensures f.Some? ==> |f.value| <= length && BestFit(table, f.value, community, length)
    {
      f := SelectLongestFree(community, length);
      if f.None? {
        f := SelectContaining(community);
        if f.None? || !table[f.value].Free? {
          SearchFailed(table, Width(), community, length, f);
          f := None;
        }
      }
    }

    /** `newPrefix`: None is the source's StopIteration. */
    method NewPrefix(prefixLen: nat, community: Bits) returns (r: Option<Bits>)
      requires Valid() && 0 < prefixLen + |community| <= Width()
      modifies this`table
      ensures Valid()
      ensures Allocated(old(table), table, community, prefixLen + |community|, Width(), r)
    {
      var length := prefixLen + |community|;
      ghost var reserved := false;
      while true
        invariant Searching(old(table), table, community, length, Width(), reserved)
        decreases !reserved
      {
        var f := FindRow(community, length);
        if f.None? {
          SearchOver(old(table), table, community, length, Width(), reserved);
          return None;
        }
        ghost var t := table;
        var prefix := SplitDown(f.value, community, length);
        ZeroTest(prefix, community, Width());
        if |prefix| < Width() || true in prefix[|community|..] {
          SearchFound(old(table), t, table, community, length, Width(), reserved, f.value, prefix);
          return Some(prefix);
        }
        if reserved {
          SecondRoundElsewhere(old(table), t, table, community, length, Width(), prefix);
        }
        SearchGoesOn(t, table, community, Width(), f.value);
        table := table[prefix := Reserved];
        reserved := true;
      }
    }

    /** Length of the longest free row shorter than `bound`, if any. */
    method MaxFreeLength(bound: nat) returns (n: Option<nat>)
      ensures n.None? ==> forall p :: FreeRow(table, p) ==> |p| >= bound
      ensures n.Some? ==> n.value < bound && exists p :: FreeRow(table, p) && |p| == n.value
      ensures n.Some? ==> forall p :: FreeRow(table, p) ==> |p| <= n.value || |p| >= bound
    {
      var rows := set p | p in table && table[p].Free? && |p| < bound;
      assert forall p :: FreeRow(table, p) && |p| < bound ==> p in rows;
      if rows == {} {
        return None;
      }
      LongestExists(rows);
      var p :| p in rows && forall q :: q in rows ==> |q| <= |p|;
      assert FreeRow(table, p);
      return Some(|p|);
    }

    /** The inner loop of `mergePrefixes`, over the free rows of one length in order. */
    method MergeLength(n: nat, prevPrefix: Option<Bits>) returns (prev: Option<Bits>, ghost rows: seq<Bits>)
      requires Valid() && 0 < n <= Width() && (prevPrefix.Some? ==> |prevPrefix.value| > n)
      modifies this`table
      ensures Valid() && Merging(old(table), table, Width(), n, rows, |rows|, prev)
      ensures prev.Some? ==> |prev.value| >= n
    {
      prev := prevPrefix;
      ghost var t0 := table;
      var snapshot := FreeRows(table, [], n);
      rows := snapshot;
      for k := 0 to |snapshot|
        invariant (table, prev) == MergeAll(t0, prevPrefix, rows[..k])
      {
        var prefix := snapshot[k];
        MergeAllNext(t0, prevPrefix, rows, k);
        if prev.Some? && prev.value != [] && Parent(prefix) == Parent(prev.value) {
          table := MoveUp(table, prev.value, prefix, Parent(prefix));
          prev := None;
        } else {
          prev := Some(prefix);
        }
      }
      MergingStarts(t0, Width(), n, prevPrefix);
      MergeAllMerging(t0, Width(), n, prevPrefix, rows, |rows|);
    }

    method MergePrefixes()
      requires Valid()
      modifies this`table
      ensures Valid() && Merged(old(table), table, Width())
    {
      var prev: Option<Bits> := None;
      var bound := 128;
      while true
        invariant Valid() && bound <= 128
        invariant MergedDownTo(old(table), table, Width(), bound)
        invariant prev.Some? ==> |prev.value| >= bound
        decreases bound
      {
        var n := MaxFreeLength(bound);
        if n.None? || n.value == 0 {
          return;
        }
        ghost var t, rows := table, [];
        prev, rows := MergeLength(n.value, prev);
        LengthMerged(old(table), t, table, Width(), n.value, bound, rows, prev);
        bound := n.value;
      }
    }

    /** `requestCertificate` once the community is known: allocate, then issue. */
    method RequestCertificate(prefixLen: nat, community: Bits, notAfter: int) returns (r: Option<Bits>)
      requires Valid() && 0 < prefixLen + |community| <= Width()
      modifies this
      ensures Valid()
      ensures Requested(old(table), table, Width(), community, prefixLen + |community|, r, serial, notAfter)
      ensures serial == if r.Some? then old(serial) + 1 else old(serial)
    {
      r := NewPrefix(prefixLen, community);
      if r.Some? {
        serial := serial + 1;
        SetRowPartition(table, Width(), r.value, Issued(serial, notAfter));
        table := table[r.value := Issued(serial, notAfter)];
      }
    }

    method ReleaseExpired(deadline: int, ours: Option<Bits>) returns (ok: bool)
      modifies this`table
      ensures ok <==> !(ours.Some? && Expired(old(table), ours.value, deadline))
      ensures ok ==> table == Released(old(table), deadline)
    {
      var rows := table.Keys;
      while rows != {}
        invariant rows <= table.Keys == old(table).Keys
        invariant forall p :: p in table ==>
                    table[p] == if p in rows then old(table)[p] else Released(old(table), deadline)[p]
        invariant ours.Some? && ours.value !in rows ==> !Expired(old(table), ours.value, deadline)
      {
        var p :| p in rows;
        rows := rows - {p};
        if table[p].Issued? && table[p].notAfter <= deadline {
          if ours == Some(p) {
            return false;
          }
          table := table[p := Free];
        }
      }
      ok := true;
    }

    /** The certificate part of `onTimeout`. `ours` is the registry's own prefix: finding
        its certificate expired rolls the transaction back and stops the server. */
    method OnTimeout(deadline: int, ours: Option<Bits>) returns (ok: bool)
      requires Valid()
      modifies this`table
      ensures Valid()
      ensures ok <==> !(ours.Some? && Expired(old(table), ours.value, deadline))
      ensures !ok ==> table == old(table)
      ensures ok ==> Merged(Released(old(table), deadline), table, Width())
    {
      var saved := table;
      ok := ReleaseExpired(deadline, ours);
      if ok {
        SamePrefixesPartition(saved, table, Width());
        MergePrefixes();
      } else {
        table := saved;
      }
    }

    /** `revoke` by subnet. The row is freed before the certificate is read, so revoking
        the reserved row frees it although the request then fails. */
    method Revoke(prefix: Bits) returns (r: RevokeResult)
      requires Valid()
      modifies this`table
      ensures Valid() && Revoked(old(table), table, prefix, r)
    {
      if prefix !in table || table[prefix].Free? {
        return NotFound;
      }
      var e := table[prefix];
      SetRowPartition(table, Width(), prefix, Free);
      table := table[prefix := Free];
      return if e.Issued? then RevokedSerial(e.serial) else NotACertificate;
    }

    /** `createCertificate` called by `renewCertificate` for a row that holds one. */
    method Renew(prefix: Bits, notAfter: int)
      requires Valid() && prefix in table && table[prefix].Issued?
      modifies this
      ensures Valid() && serial == old(serial) + 1
      ensures table == old(table)[prefix := Issued(serial, notAfter)]
    {
      serial := serial + 1;
      SetRowPartition(table, Width(), prefix, Issued(serial, notAfter));
      table := table[prefix := Issued(serial, notAfter)];
    }
  }

  lemma {:induction false} LongestExists(rows: set<Bits>)
    requires rows != {}
    ensures exists p :: p in rows && forall q :: q in rows ==> |q| <= |p|
  {
    var x :| x in rows;
    if rows != {x} {
      assert rows == (rows - {x}) + {x};
      LongestExists(rows - {x});
      var p :| p in rows - {x} && forall q :: q in rows - {x} ==> |q| <= |p|;
      var m := if |x| <= |p| then p else x;
      assert m in rows && forall q :: q in rows ==> q == x || q in rows - {x};
    }
  }
}
