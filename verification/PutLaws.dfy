/** What a put does, said without the decision functions the stores are built from: when it is refused,
    when it changes nothing, and that it otherwise leaves its own record, at equal versions and without
    versions too; the same for every store, for batches, and for sequences of deliveries. */
module PutLaws {
  import opened ByteStrings
  import opened Documents
  import opened Mutations
  import WalLog
  import WalStore
  import WalDurability
  import StripedStore
  import BatchPuts

  /** The record carries the mutation id that is stored already. */
  predicate RepeatsStored(slot: Option<DocumentRecord>, r: DocumentRecord) {
    slot.Some? && r.mutationId != [] && r.mutationId == slot.value.mutationId
  }

  /** Both versions are given and the stored one is later. */
  predicate ComesTooLate(slot: Option<DocumentRecord>, r: DocumentRecord) {
    slot.Some? && 0 < r.version < slot.value.version
  }

  /** A put is rejected exactly when it comes too late without repeating the stored id; a put that
      neither comes too late nor repeats the stored id leaves its own record, whatever the versions. */
  lemma PutExactly(slot: Option<DocumentRecord>, r: DocumentRecord)
    ensures Decide(slot, r) == Reject <==> ComesTooLate(slot, r) && !RepeatsStored(slot, r)
    ensures Decide(slot, r) == Ignore <==> RepeatsStored(slot, r)
    ensures After(slot, r) == if ComesTooLate(slot, r) || RepeatsStored(slot, r) then slot else Some(r)
  {
  }

  lemma PutAtExactly<K>(m: map<K, DocumentRecord>, k: K, r: DocumentRecord)
    ensures Lookup(PutAt(m, k, r), k) ==
            if ComesTooLate(Lookup(m, k), r) || RepeatsStored(Lookup(m, k), r) then Lookup(m, k) else Some(r)
    ensures forall x :: x != k ==> Lookup(PutAt(m, k, r), x) == Lookup(m, x)
  {
    PutExactly(Lookup(m, k), r);
  }

  /** The write-ahead store's Put: status, map and files. */
  lemma WalPutExactly(fm: WalLog.Formats, st: WalStore.Store, r: DocumentRecord)
    ensures var slot := Lookup(st.records, KeyOf(r));
            var after, status := WalStore.AfterPut(fm, st, r).0, WalStore.AfterPut(fm, st, r).1;
            && status == (if ComesTooLate(slot, r) && !RepeatsStored(slot, r) then StaleMutation else Ok)
            && (ComesTooLate(slot, r) || RepeatsStored(slot, r) ==> after == st)
            && (!ComesTooLate(slot, r) && !RepeatsStored(slot, r) ==>
                  && Lookup(after.records, KeyOf(r)) == Some(r)
                  && after.disk.wal == Some(WalLog.Appended(fm, st.disk.wal, after.records, [WalLog.PutEntry(r)]))
                  && after.disk.snapshot == st.disk.snapshot)
            && forall k :: k != KeyOf(r) ==> Lookup(after.records, k) == Lookup(st.records, k)
  {
    hide WalLog.Appended, KeyOf;
    PutExactly(Lookup(st.records, KeyOf(r)), r);
  }

  /** The striped store's Put. */
  lemma StripedPutExactly(db: StripedStore.Db, r: DocumentRecord)
    ensures var slot := Lookup(db, KeyPair(r));
            var (after, status) := StripedStore.Atomic(db, StripedStore.PutOp(r));
            && status == (if ComesTooLate(slot, r) && !RepeatsStored(slot, r) then StaleMutation else Ok)
            && Lookup(after, KeyPair(r)) == (if ComesTooLate(slot, r) || RepeatsStored(slot, r) then slot else Some(r))
            && forall k :: k != KeyPair(r) ==> Lookup(after, k) == Lookup(db, k)
  {
    PutExactly(Lookup(db, KeyPair(r)), r);
    StripedStore.ScanOne(db, r);
  }

  /** Deletes: the key goes, every other key stays; the write-ahead store logs a delete also for a key
      it does not hold. */
  lemma DeletesExactly(fm: WalLog.Formats, st: WalStore.Store, db: StripedStore.Db, c: ByteString, k: ByteString)
    ensures var after := WalStore.AfterDelete(fm, st, c, k);
            && (forall x :: Lookup(after.records, x) ==
                            if x == CompositeKey(c, k) then None else Lookup(st.records, x))
            && after.disk.wal == Some(WalLog.Appended(fm, st.disk.wal, after.records, [WalLog.DeleteEntry(c, k)]))
            && after.disk.snapshot == st.disk.snapshot
    ensures var (after, status) := StripedStore.Atomic(db, StripedStore.DeleteOp(c, k));
            && status == Ok && forall x :: Lookup(after, x) == if x == (c, k) then None else Lookup(db, x)
  {
    hide WalLog.Appended, CompositeKey;
  }

  // ------------------------------------------------------------------ batches of the write-ahead store

  /** The i-th record has the key of an earlier one. */
  ghost predicate RepeatsEarlier(rs: seq<DocumentRecord>, i: nat)
    requires i < |rs|
  {
    exists j :: 0 <= j < i && KeyOf(rs[j]) == KeyOf(rs[i])
  }

  /** The record alone would be refused. */
  predicate RefusedAlone(m: WalLog.Records, r: DocumentRecord) {
    ComesTooLate(Lookup(m, KeyOf(r)), r) && !RepeatsStored(Lookup(m, KeyOf(r)), r)
  }

  ghost predicate Troubled(m: WalLog.Records, rs: seq<DocumentRecord>, i: nat)
    requires i < |rs|
  {
    RepeatsEarlier(rs, i) || RefusedAlone(m, rs[i])
  }

  /** The first troubled record decides what the whole batch answers, a repeated key before a late record. */
  lemma WalBatchExactly(m: WalLog.Records, rs: seq<DocumentRecord>)
    ensures var after := WalDurability.StepMap(m, WalDurability.BatchOp(rs));
            if exists i :: 0 <= i < |rs| && Troubled(m, rs, i) then
              && after == m
              && (forall i ::
                    0 <= i < |rs| && Troubled(m, rs, i) && (forall j :: 0 <= j < i ==> !Troubled(m, rs, j)) ==>
                    WalStore.StageBatch(m, rs) ==
                    WalStore.Refused(if RepeatsEarlier(rs, i) then DuplicateKey else StaleMutation))
            else
              && WalStore.StageBatch(m, rs).Staged?
              && (forall i :: 0 <= i < |rs| ==>
                    var slot := Lookup(m, KeyOf(rs[i]));
                    Lookup(after, KeyOf(rs[i])) ==
                    if ComesTooLate(slot, rs[i]) || RepeatsStored(slot, rs[i]) then slot else Some(rs[i]))
              && (forall k :: (forall i :: 0 <= i < |rs| ==> KeyOf(rs[i]) != k) ==> Lookup(after, k) == Lookup(m, k))
  {
    hide WalStore.Stage, RepeatsEarlier, RefusedAlone, KeyOf, After, Decide;
    var s := WalStore.Staging(m, {}, []);
    if i :| 0 <= i < |rs| && Troubled(m, rs, i) {
      var first := FirstTroubled(m, rs, i);
      StageStops(m, s, rs, first);
      forall j | 0 <= j < |rs| && Troubled(m, rs, j) && (forall x :: 0 <= x < j ==> !Troubled(m, rs, x))
        ensures j == first
      {
      }
    } else {
      StageEnds(m, rs);
      BatchPuts.StagePutsEach(s, rs);
      forall i | 0 <= i < |rs|
        ensures var slot := Lookup(m, KeyOf(rs[i]));
                After(slot, rs[i]) ==
                if ComesTooLate(slot, rs[i]) || RepeatsStored(slot, rs[i]) then slot else Some(rs[i])
      {
        PutExactly(Lookup(m, KeyOf(rs[i])), rs[i]);
      }
    }
  }

  lemma {:induction false} FirstTroubled(m: WalLog.Records, rs: seq<DocumentRecord>, i: nat) returns (first: nat)
    requires i < |rs| && Troubled(m, rs, i)
    ensures first <= i && Troubled(m, rs, first) && forall j :: 0 <= j < first ==> !Troubled(m, rs, j)
    decreases i
  {
    hide Troubled;
    if j :| 0 <= j < i && Troubled(m, rs, j) {
      first := FirstTroubled(m, rs, j);
    } else {
      first := i;
    }
  }

  lemma RefusedAloneIsReject(m: WalLog.Records, r: DocumentRecord)
    ensures Decide(Lookup(m, KeyOf(r)), r) == Reject <==> RefusedAlone(m, r)
  {
    PutExactly(Lookup(m, KeyOf(r)), r);
  }

  /** Without trouble the staging loop reaches the end. */
  lemma StageEnds(m: WalLog.Records, rs: seq<DocumentRecord>)
    requires forall i :: 0 <= i < |rs| ==> !Troubled(m, rs, i)
    ensures WalStore.StageBatch(m, rs).Staged?
  {
    hide KeyOf, Decide, WalStore.Stage, RefusedAlone;
    forall i | 0 <= i < |rs| ensures BatchPuts.Acceptable(m, rs[i]) {
      assert !Troubled(m, rs, i);
      RefusedAloneIsReject(m, rs[i]);
    }
    forall i, j | 0 <= i < j < |rs| ensures KeyOf(rs[i]) != KeyOf(rs[j]) {
      assert !Troubled(m, rs, j);
    }
    BatchPuts.StageSucceeds(m, WalStore.Staging(m, {}, []), rs);
  }

  /** The staging loop stops at the first record that repeats a key or is refused. */
  lemma {:induction false} StageStops(m: WalLog.Records, s: WalStore.Staging, rs: seq<DocumentRecord>, i: nat)
    requires BatchPuts.AgreesUnseen(m, s) && i < |rs|
    requires forall j :: 0 <= j < i ==> KeyOf(rs[j]) !in s.seen && !Troubled(m, rs, j)
    requires KeyOf(rs[i]) in s.seen || Troubled(m, rs, i)
    ensures WalStore.Stage(s, rs) ==
            WalStore.Refused(if KeyOf(rs[i]) in s.seen || RepeatsEarlier(rs, i) then DuplicateKey else StaleMutation)
    decreases rs
  {
    hide KeyOf, Decide, RefusedAlone;
    var k := KeyOf(rs[0]);
    assert k !in s.seen ==> Lookup(s.records, k) == Lookup(m, k);
    RefusedAloneIsReject(m, rs[0]);
    if i > 0 {
      assert !Troubled(m, rs, 0);
      var rest := rs[1..];
      var next := BatchPuts.NextStaging(s, rs[0]);
      assert WalStore.Stage(s, rs) == WalStore.Stage(next, rest);
      assert next.seen == s.seen + {k};
      forall j | 0 <= j < i - 1 ensures KeyOf(rest[j]) !in next.seen && !Troubled(m, rest, j) {
        assert !Troubled(m, rs, j + 1);
        RepeatsShifted(rs, j);
      }
      RepeatsShifted(rs, i - 1);
      StageStops(m, next, rest, i - 1);
    }
  }

  lemma RepeatsShifted(rs: seq<DocumentRecord>, j: nat)
    requires j + 1 < |rs|
    ensures RepeatsEarlier(rs, j + 1) <==> RepeatsEarlier(rs[1..], j) || KeyOf(rs[j + 1]) == KeyOf(rs[0])
  {
    hide KeyOf;
    assert forall x :: 0 < x < |rs| ==> rs[x] == rs[1..][x - 1];
    if RepeatsEarlier(rs[1..], j) {
      var x :| 0 <= x < j && KeyOf(rs[1..][x]) == KeyOf(rs[1..][j]);
      assert rs[x + 1] == rs[1..][x];
    }
  }

  // ------------------------------------------------------------------ batches of the striped store

  ghost predicate DistinctKeys(rs: seq<DocumentRecord>) {
    forall i, j :: 0 <= i < j < |rs| ==> KeyOf(rs[i]) != KeyOf(rs[j])
  }

  /** The record alone would be refused. */
  predicate Refusable(db: StripedStore.Db, r: DocumentRecord) {
    ComesTooLate(Lookup(db, KeyPair(r)), r) && !RepeatsStored(Lookup(db, KeyPair(r)), r)
  }

  lemma {:induction false} ScanSucceedsExactly(db: StripedStore.Db, rs: seq<DocumentRecord>)
    ensures StripedStore.Scan(db, rs).Batch? <==> forall i :: 0 <= i < |rs| ==> !Refusable(db, rs[i])
    ensures StripedStore.Scan(db, rs).Refused? ==> StripedStore.Scan(db, rs).status == StaleMutation
    decreases |rs|
  {
    hide Decide, Refusable;
    if rs != [] {
      var n := |rs| - 1;
      ScanSucceedsExactly(db, rs[..n]);
      RefusedIsRefusable(db, rs[n]);
    }
  }

  lemma RefusedIsRefusable(db: StripedStore.Db, r: DocumentRecord)
    ensures Decide(Lookup(db, KeyPair(r)), r) == Reject <==> Refusable(db, r)
  {
    PutExactly(Lookup(db, KeyPair(r)), r);
  }

  /** Every key of the batch holds what its own put would leave, every other key what it held. */
  ghost predicate HoldsEach(db: StripedStore.Db, rs: seq<DocumentRecord>, after: StripedStore.Db) {
    && (forall i :: 0 <= i < |rs| ==> Lookup(after, KeyPair(rs[i])) == After(Lookup(db, KeyPair(rs[i])), rs[i]))
    && (forall k :: (forall i :: 0 <= i < |rs| ==> KeyPair(rs[i]) != k) ==> Lookup(after, k) == Lookup(db, k))
  }

  lemma {:induction false} EachIsWritten(db: StripedStore.Db, rs: seq<DocumentRecord>)
    requires forall i, j :: 0 <= i < j < |rs| ==> KeyPair(rs[i]) != KeyPair(rs[j])
    requires StripedStore.Scan(db, rs).Batch?
    ensures HoldsEach(db, rs, StripedStore.Write(db, StripedStore.Scan(db, rs).writes))
    decreases |rs|
  {
    hide KeyPair, Decide, HoldsEach;
    if rs == [] {
      HoldsNothing(db);
    } else {
      var n := |rs| - 1;
      var front := rs[..n];
      assert StripedStore.Scan(db, front).Batch?;
      assert forall i :: 0 <= i < |front| ==> front[i] == rs[i];
      EachIsWritten(db, front);
      var writes := StripedStore.Scan(db, front).writes;
      var before := StripedStore.Write(db, writes);
      assert (writes + [rs[n]])[..|writes|] == writes;
      var after := StripedStore.Write(db, StripedStore.Scan(db, rs).writes);
      assert after == if Decide(Lookup(db, KeyPair(rs[n])), rs[n]) == Accept
                      then before[KeyPair(rs[n]) := rs[n]] else before;
      assert rs == front + [rs[n]];
      OneMoreHeld(db, front, rs[n], before, after);
    }
  }

  lemma HoldsNothing(db: StripedStore.Db)
    ensures HoldsEach(db, [], db)
  {
  }

  lemma OneMoreHeld(db: StripedStore.Db, front: seq<DocumentRecord>, r: DocumentRecord, before: StripedStore.Db,
                    after: StripedStore.Db)
    requires HoldsEach(db, front, before)
    requires forall i :: 0 <= i < |front| ==> KeyPair(front[i]) != KeyPair(r)
    requires after == if Decide(Lookup(db, KeyPair(r)), r) == Accept then before[KeyPair(r) := r] else before
    ensures HoldsEach(db, front + [r], after)
  {
    hide KeyPair, Decide;
    assert Lookup(before, KeyPair(r)) == Lookup(db, KeyPair(r));
    var rs := front + [r];
    assert Lookup(after, KeyPair(r)) == After(Lookup(db, KeyPair(r)), r);
    forall k | forall i :: 0 <= i < |rs| ==> KeyPair(rs[i]) != k ensures Lookup(after, k) == Lookup(db, k) {
      assert rs[|front|] == r;
      assert forall i :: 0 <= i < |front| ==> front[i] == rs[i];
    }
  }

  /** The striped store's BatchPut: it succeeds exactly when no key repeats and no record alone would be
      refused; then every batch key holds what its own put would leave and every other key its record;
      otherwise nothing changes. */
  lemma StripedBatchExactly(db: StripedStore.Db, rs: seq<DocumentRecord>)
    ensures var (after, status) := StripedStore.Atomic(db, StripedStore.BatchOp(rs));
            && status == (if !DistinctKeys(rs) then DuplicateKey
                          else if exists i :: 0 <= i < |rs| && Refusable(db, rs[i]) then StaleMutation
                          else Ok)
            && (status != Ok ==> after == db)
            && (status == Ok ==>
                  && (forall i :: 0 <= i < |rs| ==>
                        var slot := Lookup(db, KeyPair(rs[i]));
                        Lookup(after, KeyPair(rs[i])) ==
                        if ComesTooLate(slot, rs[i]) || RepeatsStored(slot, rs[i]) then slot else Some(rs[i]))
                  && (forall k ::
                        (forall i :: 0 <= i < |rs| ==> KeyPair(rs[i]) != k) ==> Lookup(after, k) == Lookup(db, k)))
  {
    hide StripedStore.Scan, StripedStore.Write, Decide, After;
    ScanSucceedsExactly(db, rs);
    if DistinctKeys(rs) && StripedStore.Scan(db, rs).Batch? {
      forall i, j | 0 <= i < j < |rs| ensures KeyPair(rs[i]) != KeyPair(rs[j]) {
        assert KeyOf(rs[i]) != KeyOf(rs[j]);
      }
      EachIsWritten(db, rs);
      forall i | 0 <= i < |rs|
        ensures var slot := Lookup(db, KeyPair(rs[i]));
                After(slot, rs[i]) ==
                if ComesTooLate(slot, rs[i]) || RepeatsStored(slot, rs[i]) then slot else Some(rs[i])
      {
        PutExactly(Lookup(db, KeyPair(rs[i])), rs[i]);
      }
    }
  }

  // ------------------------------------------------------------------ sequences of deliveries

  /** No two deliveries share a mutation id. */
  predicate NoSharedIds(rs: seq<DocumentRecord>) {
    forall i, j :: 0 <= i < j < |rs| && rs[j].mutationId != [] ==> rs[i].mutationId != rs[j].mutationId
  }

  /** Position i holds the last of the newest records. */
  predicate LastOfNewest(rs: seq<DocumentRecord>, i: nat) {
    && i < |rs|
    && (forall j :: 0 <= j < i ==> rs[j].version <= rs[i].version)
    && (forall j :: i < j < |rs| ==> rs[j].version < rs[i].version)
  }

  lemma Compared(rs: seq<DocumentRecord>, i: nat, j: nat)
    requires LastOfNewest(rs, i) && j < |rs|
    ensures if j <= i then rs[j].version <= rs[i].version else rs[j].version < rs[i].version
  {
  }

  lemma LastOfNewestUnique(rs: seq<DocumentRecord>, i: nat, j: nat)
    requires LastOfNewest(rs, i) && LastOfNewest(rs, j)
    ensures i == j
  {
    Compared(rs, i, j);
    Compared(rs, j, i);
  }

  /** Dropping the loser of the first two keeps what the rest is about. */
  lemma WithoutLoser(s: DocumentRecord, r: DocumentRecord, rest: seq<DocumentRecord>, j: nat) returns (i: nat)
    requires var kept := if r.version < s.version then s else r; LastOfNewest([kept] + rest, j)
    ensures LastOfNewest([s, r] + rest, i)
    ensures var kept := if r.version < s.version then s else r; ([s, r] + rest)[i] == ([kept] + rest)[j]
  {
    var kept := if r.version < s.version then s else r;
    var short, all := [kept] + rest, [s, r] + rest;
    i := if j > 0 then j + 1 else if r.version < s.version then 0 else 1;
    Compared(short, j, 0);
    forall x | 0 <= x < |all|
      ensures x < i ==> all[x].version <= all[i].version
      ensures x > i ==> all[x].version < all[i].version
    {
      if x > 1 {
        assert all[x] == short[x - 1];
        Compared(short, j, x - 1);
      }
    }
  }

  lemma NoSharedIdsAt(rs: seq<DocumentRecord>, i: nat, j: nat)
    requires NoSharedIds(rs) && i < j < |rs| && rs[j].mutationId != []
    ensures rs[i].mutationId != rs[j].mutationId
  {
  }

  /** Leaving out one record shares no more ids. */
  lemma FewerStillFit(rs: seq<DocumentRecord>, i: nat)
    requires Versioned(rs) && NoSharedIds(rs) && i < |rs|
    ensures Versioned(rs[..i] + rs[i + 1..]) && NoSharedIds(rs[..i] + rs[i + 1..])
  {
    var fewer := rs[..i] + rs[i + 1..];
    forall x, y | 0 <= x < y < |fewer| && fewer[y].mutationId != [] ensures fewer[x].mutationId != fewer[y].mutationId {
      NoSharedIdsAt(rs, if x < i then x else x + 1, if y < i then y else y + 1);
    }
    forall x | x in fewer ensures x.version != 0 {
      assert x in rs;
    }
  }

  lemma {:induction false} DeliveredOnto(s: DocumentRecord, rs: seq<DocumentRecord>) returns (i: nat)
    requires Versioned([s] + rs) && NoSharedIds([s] + rs)
    ensures LastOfNewest([s] + rs, i) && Deliver(Some(s), rs) == Some(([s] + rs)[i])
    decreases rs
  {
    hide Versioned, NoSharedIds, LastOfNewest, After;
    if rs == [] {
      i := 0;
      OnlyOne(s);
      assert [s] + rs == [s];
    } else {
      var r, rest := rs[0], rs[1..];
      var all := [s, r] + rest;
      assert [s] + rs == all;
      FirstTwo(s, r, rest);
      PutExactly(Some(s), r);
      var kept := if r.version < s.version then s else r;
      assert all[..0] + all[1..] == [r] + rest && all[..1] + all[2..] == [s] + rest;
      FewerStillFit(all, 0);
      FewerStillFit(all, 1);
      var j := DeliveredOnto(kept, rest);
      i := WithoutLoser(s, r, rest, j);
    }
  }

  lemma OnlyOne(s: DocumentRecord)
    ensures LastOfNewest([s], 0)
  {
  }

  lemma FirstTwo(s: DocumentRecord, r: DocumentRecord, rest: seq<DocumentRecord>)
    requires Versioned([s, r] + rest) && NoSharedIds([s, r] + rest)
    ensures s.version != 0 && r.version != 0 && !RepeatsStored(Some(s), r)
  {
    var all := [s, r] + rest;
    assert all[0] == s && all[1] == r;
    assert s in all && r in all;
  }

  /** Deliveries with versions and without shared mutation ids leave the last of the newest: later
      versions win, and among equal ones the later delivery. */
  lemma LastOfNewestWins(rs: seq<DocumentRecord>, i: nat)
    requires Versioned(rs) && NoSharedIds(rs) && LastOfNewest(rs, i)
    ensures Deliver(None, rs) == Some(rs[i])
  {
    assert rs == [rs[0]] + rs[1..];
    PutExactly(None, rs[0]);
    var j := DeliveredOnto(rs[0], rs[1..]);
    LastOfNewestUnique(rs, i, j);
  }
}
