/** What BatchPut adds to Put: all or nothing, the effect of single puts, and no dependence on order. */
module BatchPuts {
  import opened ByteStrings
  import opened Documents
  import opened Mutations
  import opened WalLog
  import opened WalStore
  import opened DistinctWalk
  import PersistenceCodec

  ghost predicate DistinctKeys(rs: seq<DocumentRecord>) {
    forall i, j :: 0 <= i < j < |rs| ==> KeyOf(rs[i]) != KeyOf(rs[j])
  }

  /** The record alone would be accepted or ignored, not rejected. */
  predicate Acceptable(m: Records, r: DocumentRecord) {
    Decide(Lookup(m, KeyOf(r)), r) != Reject
  }

  ghost predicate AgreesUnseen(m: Records, s: Staging) {
    forall k :: k !in s.seen ==> Lookup(s.records, k) == Lookup(m, k)
  }

  function NextStaging(s: Staging, r: DocumentRecord): Staging {
    var k := KeyOf(r);
    if Decide(Lookup(s.records, k), r) == Accept
    then Staging(s.records[k := r], s.seen + {k}, s.applied + [r])
    else s.(seen := s.seen + {k})
  }

  lemma {:induction false} StageSucceeds(m: Records, s: Staging, rs: seq<DocumentRecord>)
    requires AgreesUnseen(m, s)
    ensures Stage(s, rs).Staged? <==>
            && DistinctKeys(rs)
            && forall i :: 0 <= i < |rs| ==> KeyOf(rs[i]) !in s.seen && Acceptable(m, rs[i])
    decreases rs
  {
    if rs != [] {
      var r := rs[0];
      var k := KeyOf(r);
      var rest := rs[1..];
      if k !in s.seen && Acceptable(m, r) {
        var next := NextStaging(s, r);
        assert Lookup(s.records, k) == Lookup(m, k);
        assert Stage(s, rs) == Stage(next, rest);
        StageSucceeds(m, next, rest);
        if DistinctKeys(rs) {
          assert forall i :: 0 <= i < |rest| ==> KeyOf(rest[i]) == KeyOf(rs[i + 1]) != k;
          assert DistinctKeys(rest);
        }
        if
          && DistinctKeys(rest)
          && forall i :: 0 <= i < |rest| ==> KeyOf(rest[i]) !in next.seen && Acceptable(m, rest[i])
        {
          forall i, j | 0 <= i < j < |rs| ensures KeyOf(rs[i]) != KeyOf(rs[j]) {
            assert rs[j] == rest[j - 1];
            assert i > 0 ==> rs[i] == rest[i - 1];
          }
        }
      }
    }
  }

  /** A batch succeeds exactly when its keys are distinct and each record alone would be accepted;
      otherwise neither the map nor the log changes. */
  lemma BatchSucceedsExactly(fm: Formats, st: Store, rs: seq<DocumentRecord>)
    ensures AfterBatch(fm, st, rs).1 == Ok <==>
            DistinctKeys(rs) && forall i :: 0 <= i < |rs| ==> Acceptable(st.records, rs[i])
    ensures AfterBatch(fm, st, rs).1 != Ok ==> AfterBatch(fm, st, rs).0 == st
  {
    StageSucceeds(st.records, Staging(st.records, {}, []), rs);
    RefusalIsNotOk(Staging(st.records, {}, []), rs);
  }

  lemma {:induction false} RefusalIsNotOk(s: Staging, rs: seq<DocumentRecord>)
    ensures Stage(s, rs).Refused? ==> Stage(s, rs).status != Ok
    decreases rs
  {
    if rs != [] && KeyOf(rs[0]) !in s.seen && Decide(Lookup(s.records, KeyOf(rs[0])), rs[0]) != Reject {
      RefusalIsNotOk(NextStaging(s, rs[0]), rs[1..]);
    }
  }

  // ------------------------------------------------------------------ the fold of single puts

  function PutAll(fm: Formats, st: Store, rs: seq<DocumentRecord>): Store
    decreases rs
  {
    if rs == [] then st else PutAll(fm, AfterPut(fm, st, rs[0]).0, rs[1..])
  }

  /** The store once the staged records are logged; nothing is logged when none is. */
  function Committed(fm: Formats, st: Store, records: Records, applied: seq<DocumentRecord>): Store {
    if applied == [] then st else Logged(fm, st, records, PutEntries(applied))
  }

  lemma AppendTwice(fm: Formats, wal: Option<ByteString>, live: Records, live2: Records, a: seq<WalEntry>,
                    b: seq<WalEntry>)
    requires !IsLegacy(wal)
    ensures !IsLegacy(Some(Appended(fm, wal, live, a)))
    ensures Appended(fm, Some(Appended(fm, wal, live, a)), live2, b) == Appended(fm, wal, live2, a + b)
  {
    hide EncodeWalEntry, SortedKeys, PersistenceCodec.Concatenated;
    assert Payloads(fm, a + b) == Payloads(fm, a) + Payloads(fm, b);
    PersistenceCodec.ConcatenatedAppend(Payloads(fm, a), Payloads(fm, b));
    assert PersistenceCodec.HasMagic(Appended(fm, wal, live, a));
    hide Payloads, PersistenceCodec.Concatenated;
  }

  lemma PutAfterCommitted(fm: Formats, st: Store, s: Staging, r: DocumentRecord)
    requires !IsLegacy(st.disk.wal)
    requires s.applied == [] ==> s.records == st.records
    requires Decide(Lookup(s.records, KeyOf(r)), r) != Reject
    ensures AfterPut(fm, Committed(fm, st, s.records, s.applied), r) ==
            (Committed(fm, st, NextStaging(s, r).records, NextStaging(s, r).applied), Ok)
  {
    if Decide(Lookup(s.records, KeyOf(r)), r) == Accept {
      if s.applied == [] {
        assert PutEntries([] + [r]) == [PutEntry(r)];
      } else {
        AppendTwice(fm, st.disk.wal, s.records, s.records[KeyOf(r) := r], PutEntries(s.applied), [PutEntry(r)]);
        assert PutEntries(s.applied + [r]) == PutEntries(s.applied) + [PutEntry(r)];
      }
    }
  }

  lemma {:induction false} StageIsFold(fm: Formats, st: Store, s: Staging, rs: seq<DocumentRecord>)
    requires !IsLegacy(st.disk.wal)
    requires s.applied == [] ==> s.records == st.records
    requires Stage(s, rs).Staged?
    ensures PutAll(fm, Committed(fm, st, s.records, s.applied), rs) ==
            Committed(fm, st, Stage(s, rs).records, Stage(s, rs).applied)
    decreases rs
  {
    if rs != [] {
      PutAfterCommitted(fm, st, s, rs[0]);
      StageIsFold(fm, st, NextStaging(s, rs[0]), rs[1..]);
    }
  }

  /** An accepted batch leaves exactly the map and the log bytes that its puts leave one by one. */
  lemma BatchIsFoldOfPuts(fm: Formats, st: Store, rs: seq<DocumentRecord>)
    requires !IsLegacy(st.disk.wal)
    requires AfterBatch(fm, st, rs).1 == Ok
    ensures AfterBatch(fm, st, rs).0 == PutAll(fm, st, rs)
  {
    RefusalIsNotOk(Staging(st.records, {}, []), rs);
    StageIsFold(fm, st, Staging(st.records, {}, []), rs);
  }

  // ------------------------------------------------------------------ order

  /** The outcome key by key: batch keys hold what their own put leaves, other keys keep theirs. */
  ghost predicate PutEach(m: Records, rs: seq<DocumentRecord>, after: Records) {
    && (forall i :: 0 <= i < |rs| ==> Lookup(after, KeyOf(rs[i])) == After(Lookup(m, KeyOf(rs[i])), rs[i]))
    && (forall k :: (forall i :: 0 <= i < |rs| ==> KeyOf(rs[i]) != k) ==> Lookup(after, k) == Lookup(m, k))
  }

  lemma {:induction false} StagePutsEach(s: Staging, rs: seq<DocumentRecord>)
    requires Stage(s, rs).Staged?
    ensures PutEach(s.records, rs, Stage(s, rs).records)
    decreases rs
  {
    if rs != [] {
      var r := rs[0];
      var next := NextStaging(s, r);
      var rest := rs[1..];
      var after := Stage(s, rs).records;
      assert Stage(s, rs) == Stage(next, rest);
      StagePutsEach(next, rest);
      StageSucceeds(next.records, next, rest);
      assert forall i :: 0 <= i < |rest| ==> KeyOf(rest[i]) != KeyOf(r);
      assert Lookup(after, KeyOf(r)) == Lookup(next.records, KeyOf(r));
      forall i | 0 <= i < |rs| ensures Lookup(after, KeyOf(rs[i])) == After(Lookup(s.records, KeyOf(rs[i])), rs[i]) {
        if i > 0 {
          assert rs[i] == rest[i - 1];
        }
      }
      forall k | forall i :: 0 <= i < |rs| ==> KeyOf(rs[i]) != k ensures Lookup(after, k) == Lookup(s.records, k) {
        assert KeyOf(rs[0]) != k;
        assert forall i :: 0 <= i < |rest| ==> rest[i] == rs[i + 1];
      }
    }
  }

  function KeysOf(rs: seq<DocumentRecord>): seq<ByteString> {
    seq(|rs|, i requires 0 <= i < |rs| => KeyOf(rs[i]))
  }

  lemma DistinctBySize(rs: seq<DocumentRecord>)
    ensures DistinctKeys(rs) <==> |SetOf(KeysOf(rs))| == |rs|
  {
    NoRepeatsBySize(KeysOf(rs));
    assert forall i :: 0 <= i < |rs| ==> KeysOf(rs)[i] == KeyOf(rs[i]);
  }

  lemma SameKeySet(a: seq<DocumentRecord>, b: seq<DocumentRecord>)
    requires forall r :: r in a <==> r in b
    ensures SetOf(KeysOf(a)) == SetOf(KeysOf(b))
  {
    forall k | k in KeysOf(a) ensures k in KeysOf(b) {
      var i :| 0 <= i < |a| && KeyOf(a[i]) == k;
      assert a[i] in b;
      var j :| 0 <= j < |b| && b[j] == a[i];
      assert KeysOf(b)[j] == k;
    }
    forall k | k in KeysOf(b) ensures k in KeysOf(a) {
      var i :| 0 <= i < |b| && KeyOf(b[i]) == k;
      assert b[i] in a;
      var j :| 0 <= j < |a| && a[j] == b[i];
      assert KeysOf(a)[j] == k;
    }
  }

  /** Reordering a batch changes neither whether it succeeds nor the map it leaves. */
  lemma BatchOrderIrrelevant(fm: Formats, st: Store, a: seq<DocumentRecord>, b: seq<DocumentRecord>)
    requires multiset(a) == multiset(b)
    ensures AfterBatch(fm, st, a).1 == Ok <==> AfterBatch(fm, st, b).1 == Ok
    ensures AfterBatch(fm, st, a).0.records == AfterBatch(fm, st, b).0.records
  {
    SameMembers(a, b);
    BatchSucceedsExactly(fm, st, a);
    BatchSucceedsExactly(fm, st, b);
    DistinctBySize(a);
    DistinctBySize(b);
    SameKeySet(a, b);
    assert |a| == |multiset(a)| == |b|;
    forall i | 0 <= i < |a| ensures a[i] in b { assert a[i] in a; }
    forall i | 0 <= i < |b| ensures b[i] in a { assert b[i] in b; }
    if AfterBatch(fm, st, a).1 == Ok {
      BatchMap(fm, st, a);
      BatchMap(fm, st, b);
      PutEachUnique(st.records, a, b, AfterBatch(fm, st, a).0.records, AfterBatch(fm, st, b).0.records);
    }
  }

  lemma SameMembers(a: seq<DocumentRecord>, b: seq<DocumentRecord>)
    requires multiset(a) == multiset(b)
    ensures forall r :: r in a <==> r in b
  {
    forall r ensures r in a <==> r in b {
      assert r in a <==> r in multiset(a);
      assert r in b <==> r in multiset(b);
    }
  }

  lemma BatchMap(fm: Formats, st: Store, rs: seq<DocumentRecord>)
    requires AfterBatch(fm, st, rs).1 == Ok
    ensures PutEach(st.records, rs, AfterBatch(fm, st, rs).0.records)
  {
    var start := Staging(st.records, {}, []);
    RefusalIsNotOk(start, rs);
    StagePutsEach(start, rs);
    AppliedNothing(start, rs);
  }

  lemma {:induction false} AppliedNothing(s: Staging, rs: seq<DocumentRecord>)
    requires Stage(s, rs).Staged?
    ensures |s.applied| <= |Stage(s, rs).applied|
    ensures Stage(s, rs).applied == s.applied ==> Stage(s, rs).records == s.records
    decreases rs
  {
    if rs != [] {
      AppliedNothing(NextStaging(s, rs[0]), rs[1..]);
    }
  }

  lemma PutEachUnique(m: Records, a: seq<DocumentRecord>, b: seq<DocumentRecord>, x: Records, y: Records)
    requires forall r :: r in a <==> r in b
    requires PutEach(m, a, x) && PutEach(m, b, y)
    ensures x == y
  {
    forall k ensures Lookup(x, k) == Lookup(y, k) {
      if i :| 0 <= i < |a| && KeyOf(a[i]) == k {
        assert a[i] in b;
        var j :| 0 <= j < |b| && b[j] == a[i];
      } else {
        forall j | 0 <= j < |b| ensures KeyOf(b[j]) != k {
          assert b[j] in a;
          var i :| 0 <= i < |a| && a[i] == b[j];
        }
      }
    }
    SameLookups(x, y);
  }
}
