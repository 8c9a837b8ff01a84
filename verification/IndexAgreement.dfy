/** Agreement between the store, the pending records and the vector index over every run of document
    operations, with embeddings failing at will and clean restarts in between. */
module IndexAgreement {
  import opened ByteStrings
  import opened Documents
  import opened Mutations
  import opened WalLog
  import opened WalDurability
  import opened VectorOutbox
  import opened GatewayServer
  import RangeScan

  /** What a reader can tell two versions of a document apart by. */
  datatype Content = Content(
    collection: ByteString,
    key: ByteString,
    title: ByteString,
    body: ByteString,
    metadata: map<ByteString, ByteString>)

  function ContentOf(r: DocumentRecord): Content {
    Content(r.collection, r.key, r.title, r.body, r.metadata)
  }

  /** The pending record speaks for a key if there is one, the index entry otherwise; keys absent from
      the store are in neither. */
  predicate Matches(s: Site, k: ByteString) {
    if k !in s.kv then k !in s.pending && k !in s.index
    else if k in s.pending then ContentOf(s.pending[k]) == ContentOf(s.kv[k])
    else k in s.index && ContentOf(s.index[k]) == ContentOf(s.kv[k])
  }

  ghost predicate Agree(s: Site) {
    && RangeScan.Keyed(s.kv) && RangeScan.Keyed(s.pending) && RangeScan.Keyed(s.index)
    && forall k :: Matches(s, k)
  }

  /** Index and store hold the same documents. */
  ghost predicate Synced(s: Site) {
    s.kv.Keys == s.index.Keys && forall k :: k in s.kv ==> ContentOf(s.index[k]) == ContentOf(s.kv[k])
  }

  ghost predicate FileFits(fm: Formats, s: Site) {
    AllFit(fm, s.pending) && FileHolds(fm, s.pending, s.file)
  }

  // ------------------------------------------------------------------ single steps

  lemma DrainAgrees(fm: Formats, s: Site, embeds: Embeds)
    requires Agree(s)
    ensures Agree(AfterDrain(fm, s, embeds))
  {
    hide SnapshotOf, CompositeKey, KeyOf;
    var d := AfterDrain(fm, s, embeds);
    forall k ensures Matches(d, k) {
      assert Matches(s, k);
    }
  }

  /** A drain leaves nothing pending exactly when every pending record embeds, and index and store
      then hold the same documents. */
  lemma CleanDrainSyncs(fm: Formats, s: Site, embeds: Embeds)
    requires Agree(s)
    ensures AfterDrain(fm, s, embeds).pending == map[] <==> forall k :: k in s.pending ==> embeds(s.pending[k])
    ensures AfterDrain(fm, s, embeds).pending == map[] ==> Synced(AfterDrain(fm, s, embeds))
  {
    hide SnapshotOf, Agree, Matches;
    DrainAgrees(fm, s, embeds);
    var d := AfterDrain(fm, s, embeds);
    if k :| k in s.pending && !embeds(s.pending[k]) {
      assert k in d.pending;
    }
    if d.pending == map[] {
      NothingPendingSyncs(d);
    }
  }

  lemma NothingPendingSyncs(s: Site)
    requires Agree(s) && s.pending == map[]
    ensures Synced(s)
  {
    hide KeyOf;
    forall k
      ensures k in s.kv <==> k in s.index
      ensures k in s.kv ==> ContentOf(s.index[k]) == ContentOf(s.kv[k])
    {
      assert Matches(s, k);
    }
  }

  /** The store ignores r as a repeated mutation although its content is new. */
  predicate RepeatedButDifferent(s: Site, r: DocumentRecord) {
    && Decide(Lookup(s.kv, KeyOf(r)), r) == Ignore
    && ContentOf(s.kv[KeyOf(r)]) != ContentOf(r)
  }

  /** An upsert keeps the agreement exactly when it is not a repeated mutation with new content. */
  lemma UpsertAgreesExactly(fm: Formats, s: Site, r: DocumentRecord, embeds: Embeds)
    requires Agree(s)
    ensures Agree(AfterUpsert(fm, s, r, embeds)) <==> !RepeatedButDifferent(s, r)
  {
    hide SnapshotOf, CompositeKey, KeyOf;
    if !Refused(s, r) {
      var k := KeyOf(r);
      var pending := s.pending[k := r];
      var middle := Site(KvPut(s.kv, r), pending, Some(SnapshotOf(fm, pending)), s.index);
      if RepeatedButDifferent(s, r) {
        assert pending[k] == r;
        assert !Matches(AfterDrain(fm, middle, embeds), k);
      } else {
        forall x ensures Matches(middle, x) {
          assert Matches(s, x);
        }
        DrainAgrees(fm, middle, embeds);
      }
    } else {
      assert AfterUpsert(fm, s, r, embeds) == s;
    }
  }

  /** Retrying a mutation id with another body splits store and index: the store keeps the first
      content, the index or the outbox holds the second. */
  lemma RetriedIdDiverges(fm: Formats, first: DocumentRecord, second: DocumentRecord, embeds: Embeds)
    requires KeyOf(first) == KeyOf(second) && first.mutationId == second.mutationId != []
    requires ContentOf(first) != ContentOf(second)
    ensures var s := AfterUpsert(fm, Site(map[], map[], None, map[]), first, embeds);
            Agree(s) && !Agree(AfterUpsert(fm, s, second, embeds))
  {
    hide SnapshotOf, CompositeKey, KeyOf;
    var empty := Site(map[], map[], None, map[]);
    var s := AfterUpsert(fm, empty, first, embeds);
    assert Agree(empty);
    UpsertAgreesExactly(fm, empty, first, embeds);
    assert s.kv == map[KeyOf(first) := first];
    UpsertAgreesExactly(fm, s, second, embeds);
  }

  lemma DeleteAgrees(fm: Formats, s: Site, collection: ByteString, key: ByteString)
    requires Agree(s)
    ensures Agree(AfterDelete(fm, s, collection, key))
  {
    hide SnapshotOf, CompositeKey, KeyOf;
    forall k ensures Matches(AfterDelete(fm, s, collection, key), k) {
      assert Matches(s, k);
    }
  }

  lemma ReindexAgrees(s: Site, keys: set<ByteString>)
    requires Agree(s)
    ensures Agree(AfterReindex(s, keys))
  {
    hide CompositeKey, KeyOf;
    var d := AfterReindex(s, keys);
    forall k ensures Matches(d, k) {
      assert Matches(s, k);
    }
  }

  /** A clean stop and start are no more than a drain. */
  lemma RestartIsDrain(fm: Formats, s: Site, embeds: Embeds)
    requires fm.Faithful() && Agree(s) && FileFits(fm, s)
    ensures AfterRestart(fm, s, embeds) == AfterDrain(fm, s, embeds)
    ensures FileFits(fm, AfterDrain(fm, s, embeds))
  {
    hide SnapshotOf, CompositeKey, KeyOf, OutboxContent, Replay, RecordFits;
    var d := AfterDrain(fm, s, embeds);
    DrainAgrees(fm, s, embeds);
    if d.pending != s.pending {
      RewriteHolds(fm, d.pending);
    }
  }

  // ------------------------------------------------------------------ runs

  datatype Op =
    | Upsert(record: DocumentRecord, embeds: Embeds)
    | Delete(collection: ByteString, key: ByteString)
    | Drain(embeds: Embeds)
    | Restart(embeds: Embeds)
    | Reindex(keys: set<ByteString>)

  function Step(fm: Formats, s: Site, op: Op): Site {
    match op
    case Upsert(r, embeds) => AfterUpsert(fm, s, r, embeds)
    case Delete(c, k) => AfterDelete(fm, s, c, k)
    case Drain(embeds) => AfterDrain(fm, s, embeds)
    case Restart(embeds) => AfterRestart(fm, s, embeds)
    case Reindex(keys) => AfterReindex(s, keys)
  }

  /** Upserted records fit a frame of the outbox file. */
  predicate Fits(fm: Formats, op: Op) {
    op.Upsert? ==> RecordFits(fm, op.record)
  }

  /** The step is an upsert that the store ignores although its content is new. */
  predicate Splits(s: Site, op: Op) {
    op.Upsert? && RepeatedButDifferent(s, op.record)
  }

  ghost predicate Inv(fm: Formats, s: Site) {
    Agree(s) && FileFits(fm, s)
  }

  lemma UpsertKeeps(fm: Formats, s: Site, r: DocumentRecord, embeds: Embeds)
    requires fm.Faithful() && Inv(fm, s) && RecordFits(fm, r) && !RepeatedButDifferent(s, r)
    ensures Inv(fm, AfterUpsert(fm, s, r, embeds))
  {
    hide SnapshotOf, KeyOf, FileHolds, RecordFits, Matches;
    UpsertAgreesExactly(fm, s, r, embeds);
    if !Refused(s, r) {
      var pending := s.pending[KeyOf(r) := r];
      RewriteHolds(fm, pending);
      var left := Undelivered(pending, embeds);
      KeyedLeft(pending, embeds);
      if left != pending {
        RewriteHolds(fm, left);
      }
    }
  }

  lemma StepKeeps(fm: Formats, s: Site, op: Op)
    requires fm.Faithful() && Inv(fm, s) && Fits(fm, op) && !Splits(s, op)
    ensures Inv(fm, Step(fm, s, op))
  {
    hide SnapshotOf, KeyOf, FileHolds, RecordFits, Agree, RepeatedButDifferent;
    match op
    case Upsert(r, embeds) => UpsertKeeps(fm, s, r, embeds);
    case Delete(c, k) =>
      DeleteAgrees(fm, s, c, k);
      DeleteFits(fm, s, c, k);
    case Drain(embeds) =>
      DrainAgrees(fm, s, embeds);
      RestartIsDrain(fm, s, embeds);
    case Restart(embeds) =>
      DrainAgrees(fm, s, embeds);
      RestartIsDrain(fm, s, embeds);
    case Reindex(keys) => ReindexAgrees(s, keys);
  }

  lemma DeleteFits(fm: Formats, s: Site, c: ByteString, k: ByteString)
    requires fm.Faithful() && Agree(s) && AllFit(fm, s.pending)
    ensures FileFits(fm, AfterDelete(fm, s, c, k))
  {
    hide SnapshotOf, KeyOf, FileHolds, RecordFits, Matches;
    RewriteHolds(fm, s.pending - {CompositeKey(c, k)});
  }

  function Run(fm: Formats, s: Site, ops: seq<Op>): Site
    decreases |ops|
  {
    if ops == [] then s else Run(fm, Step(fm, s, ops[0]), ops[1..])
  }

  const EMPTY: Site := Site(map[], map[], None, map[])

  lemma EmptyIsInv(fm: Formats)
    ensures Inv(fm, EMPTY)
  {
  }

  /** No step of the run splits the state it meets. */
  ghost predicate NoneSplits(fm: Formats, s: Site, ops: seq<Op>) {
    forall i :: 0 <= i < |ops| ==> !Splits(Run(fm, s, ops[..i]), ops[i])
  }

  ghost predicate AlwaysAgrees(fm: Formats, s: Site, ops: seq<Op>) {
    forall i :: 0 <= i <= |ops| ==> Agree(Run(fm, s, ops[..i]))
  }

  lemma {:induction false} RunSnoc(fm: Formats, s: Site, ops: seq<Op>, op: Op)
    ensures Run(fm, s, ops + [op]) == Step(fm, Run(fm, s, ops), op)
    decreases |ops|
  {
    hide Step;
    if ops == [] {
      assert ([op])[1..] == [];
    } else {
      assert (ops + [op])[1..] == ops[1..] + [op];
      RunSnoc(fm, Step(fm, s, ops[0]), ops[1..], op);
    }
  }

  lemma {:induction false} UnsplitRunKeeps(fm: Formats, s: Site, ops: seq<Op>, n: nat)
    requires fm.Faithful() && Inv(fm, s) && n <= |ops|
    requires forall i :: 0 <= i < |ops| ==> Fits(fm, ops[i])
    requires forall i :: 0 <= i < n ==> !Splits(Run(fm, s, ops[..i]), ops[i])
    ensures Inv(fm, Run(fm, s, ops[..n]))
    decreases n
  {
    hide Inv, Step, Fits, Splits, Run;
    if n == 0 {
      assert Run(fm, s, ops[..0]) == s by {
        RunNothing(fm, s, ops);
      }
    } else {
      UnsplitRunKeeps(fm, s, ops, n - 1);
      StepKeeps(fm, Run(fm, s, ops[..n - 1]), ops[n - 1]);
      RunSnoc(fm, s, ops[..n - 1], ops[n - 1]);
      assert ops[..n - 1] + [ops[n - 1]] == ops[..n];
    }
  }

  lemma RunNothing(fm: Formats, s: Site, ops: seq<Op>)
    ensures Run(fm, s, ops[..0]) == s
  {
  }

  /** Store, outbox and index agree after every prefix of a run exactly when no upsert of the run
      repeats, in the state it meets, the stored mutation id of its key with other content. */
  lemma RunAgreesExactly(fm: Formats, s: Site, ops: seq<Op>)
    requires fm.Faithful() && Inv(fm, s)
    requires forall i :: 0 <= i < |ops| ==> Fits(fm, ops[i])
    ensures AlwaysAgrees(fm, s, ops) <==> NoneSplits(fm, s, ops)
  {
    hide Step, Fits, Run, Agree, RepeatedButDifferent;
    if NoneSplits(fm, s, ops) {
      forall n | 0 <= n <= |ops| ensures Agree(Run(fm, s, ops[..n])) {
        UnsplitRunKeeps(fm, s, ops, n);
      }
    }
    if AlwaysAgrees(fm, s, ops) {
      forall n | 0 <= n < |ops| ensures !Splits(Run(fm, s, ops[..n]), ops[n]) {
        var before := Run(fm, s, ops[..n]);
        assert Agree(before) && Agree(Run(fm, s, ops[..n + 1]));
        RunSnoc(fm, s, ops[..n], ops[n]);
        assert ops[..n] + [ops[n]] == ops[..n + 1];
        if Splits(before, ops[n]) {
          SplitDisagrees(fm, before, ops[n]);
        }
      }
    }
  }

  lemma SplitDisagrees(fm: Formats, s: Site, op: Op)
    requires Agree(s) && Splits(s, op)
    ensures !Agree(Step(fm, s, op))
  {
    hide Agree, RepeatedButDifferent;
    UpsertAgreesExactly(fm, s, op.record, op.embeds);
  }

  /** From an empty server: each document's content in the store is its pending record's content, or
      its index entry's if none is pending, and absent keys are in neither, after every step of every
      run in which no upsert splits them. */
  lemma EveryRunAgrees(fm: Formats, ops: seq<Op>)
    requires fm.Faithful() && forall i :: 0 <= i < |ops| ==> Fits(fm, ops[i])
    ensures AlwaysAgrees(fm, EMPTY, ops) <==> NoneSplits(fm, EMPTY, ops)
  {
    EmptyIsInv(fm);
    RunAgreesExactly(fm, EMPTY, ops);
  }

  /** At any time a drain in which every embedding works leaves store and index with the same
      documents, also across a restart. */
  lemma EveryRunCanSync(fm: Formats, ops: seq<Op>, last: Op)
    requires fm.Faithful() && (last.Drain? || last.Restart?)
    requires forall i :: 0 <= i < |ops| ==> Fits(fm, ops[i])
    requires NoneSplits(fm, EMPTY, ops)
    requires forall k :: k in Run(fm, EMPTY, ops).pending ==> last.embeds(Run(fm, EMPTY, ops).pending[k])
    ensures Synced(Step(fm, Run(fm, EMPTY, ops), last))
  {
    hide Run, Agree;
    EmptyIsInv(fm);
    UnsplitRunKeeps(fm, EMPTY, ops, |ops|);
    assert ops[..|ops|] == ops;
    var s := Run(fm, EMPTY, ops);
    CleanDrainSyncs(fm, s, last.embeds);
    RestartIsDrain(fm, s, last.embeds);
  }

  // ------------------------------------------------------------------ the migration's delete

  /** What the migration manager's delayed delete does to the site: the key leaves the store and, for
      a semantic record, the index, but not the outbox. */
  function AfterMigrationDelete(s: Site, k: ByteString, semantic: bool): Site {
    s.(kv := s.kv - {k}, index := if semantic then s.index - {k} else s.index)
  }

  /** That delete keeps the agreement exactly when the key is not pending; a pending record would be
      indexed again by the next drain. */
  lemma MigrationDeleteExactly(s: Site, k: ByteString)
    requires Agree(s)
    ensures Agree(AfterMigrationDelete(s, k, true)) <==> k !in s.pending
  {
    hide KeyOf;
    var d := AfterMigrationDelete(s, k, true);
    assert Matches(d, k) <==> k !in s.pending;
    forall x | x != k ensures Matches(d, x) {
      assert Matches(s, x);
    }
  }

  /** For a record taken as not semantic it keeps the agreement exactly when the key is not stored. */
  lemma PlainMigrationDeleteExactly(s: Site, k: ByteString)
    requires Agree(s)
    ensures Agree(AfterMigrationDelete(s, k, false)) <==> k !in s.kv
  {
    hide KeyOf;
    var d := AfterMigrationDelete(s, k, false);
    assert Matches(s, k);
    assert Matches(d, k) <==> k !in s.kv;
    forall x | x != k ensures Matches(d, x) {
      assert Matches(s, x);
    }
  }

  /** The next drain brings a document back that the migration deleted while it was pending. */
  lemma DeletedDocumentReturns(fm: Formats, s: Site, k: ByteString, embeds: Embeds)
    requires Agree(s) && k in s.pending && embeds(s.pending[k])
    ensures var d := AfterDrain(fm, AfterMigrationDelete(s, k, true), embeds);
            k !in d.kv && k in d.index && d.index[k] == s.pending[k]
  {
  }
}
