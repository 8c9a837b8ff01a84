/** What the gateway's operations mean to a client: when they are refused and with which answer, and
    what each of them leaves in store, outbox and index, key by key. */
module GatewayLaws {
  import opened ByteStrings
  import opened Documents
  import opened Mutations
  import opened WalLog
  import opened VectorOutbox
  import opened GatewayServer
  import WalDurability
  import WalStore
  import Decimals
  import PutLaws

  // ------------------------------------------------------------------ refusals

  /** An upsert, put or delete goes on exactly when the server runs, may write, the key is not empty and
      the key under its filled-in collection belongs here; the first of these that fails is the answer. */
  lemma GuardExactly(cfg: Settings, started: bool, collection: ByteString, key: ByteString)
    ensures var here := cfg.routedHere(if collection != [] then collection else cfg.defaultCollection, key);
            && (Guard(cfg, started, collection, key) == Done <==> started && !cfg.readOnly && key != [] && here)
            && (Guard(cfg, started, collection, key) == NotStarted <==> !started)
            && (Guard(cfg, started, collection, key) == ReadOnly <==> started && cfg.readOnly)
            && (Guard(cfg, started, collection, key) == EmptyKey <==> started && !cfg.readOnly && key == [])
            && (Guard(cfg, started, collection, key) == OwnedElsewhere <==>
                  started && !cfg.readOnly && key != [] && !here)
  {
  }

  /** The i-th record has no key, repeats an earlier one's text, or belongs to another node. */
  ghost predicate Objectionable(cfg: Settings, rs: seq<DocumentRecord>, i: nat)
    requires i < |rs|
  {
    rs[i].key == [] || RepeatsText(rs, i) || !cfg.routedHere(rs[i].collection, rs[i].key)
  }

  ghost predicate RepeatsText(rs: seq<DocumentRecord>, i: nat)
    requires i < |rs|
  {
    exists j :: 0 <= j < i && BatchKey(rs[j]) == BatchKey(rs[i])
  }

  /** The first record objected to decides the answer to a batch. */
  lemma {:induction false} FirstObjectionDecides(cfg: Settings, rs: seq<DocumentRecord>, from: nat, i: nat)
    requires from <= i < |rs| && Objectionable(cfg, rs, i)
    requires forall j :: from <= j < i ==> !Objectionable(cfg, rs, j)
    ensures Objection(cfg, rs, from) == if rs[i].key == [] then EmptyKey
                                        else if RepeatsText(rs, i) then Reply.DuplicateKey
                                        else OwnedElsewhere
    decreases i - from
  {
    hide BatchKey;
    if from < i {
      assert !Objectionable(cfg, rs, from);
      FirstObjectionDecides(cfg, rs, from + 1, i);
    }
  }

  /** A batch goes on to the store exactly when the server runs and may write, the batch is neither empty
      nor too large, and no record under its filled-in collection is objected to. */
  lemma BatchGuardExactly(cfg: Settings, started: bool, rs: seq<DocumentRecord>)
    ensures var filled := FilledAll(cfg, rs);
            && (BatchGuard(cfg, started, rs) == Done <==>
                  && started && !cfg.readOnly && 0 < |rs| <= cfg.batchMax
                  && forall i :: 0 <= i < |filled| ==> !Objectionable(cfg, filled, i))
            && (BatchGuard(cfg, started, rs) == NotStarted <==> !started)
            && (BatchGuard(cfg, started, rs) == ReadOnly <==> started && cfg.readOnly)
            && (BatchGuard(cfg, started, rs) == EmptyBatch <==> started && !cfg.readOnly && rs == [])
            && (BatchGuard(cfg, started, rs) == BatchTooLarge <==>
                  started && !cfg.readOnly && rs != [] && |rs| > cfg.batchMax)
  {
    hide BatchKey, FilledAll, Objection;
    var filled := FilledAll(cfg, rs);
    BatchPassesExactly(cfg, filled);
    PassMeans(cfg, filled);
    ObjectionsAre(cfg, filled, 0);
  }

  lemma PassMeans(cfg: Settings, rs: seq<DocumentRecord>)
    ensures (forall i :: 0 <= i < |rs| ==> !Objectionable(cfg, rs, i)) <==>
            && (forall i :: 0 <= i < |rs| ==> rs[i].key != [] && cfg.routedHere(rs[i].collection, rs[i].key))
            && (forall i, j :: 0 <= i < j < |rs| ==> BatchKey(rs[i]) != BatchKey(rs[j]))
  {
    hide BatchKey;
    if forall i :: 0 <= i < |rs| ==> !Objectionable(cfg, rs, i) {
      forall i, j | 0 <= i < j < |rs| ensures BatchKey(rs[i]) != BatchKey(rs[j]) {
        assert !Objectionable(cfg, rs, j);
      }
      forall i | 0 <= i < |rs| ensures rs[i].key != [] && cfg.routedHere(rs[i].collection, rs[i].key) {
        assert !Objectionable(cfg, rs, i);
      }
    }
  }

  lemma {:induction false} ObjectionsAre(cfg: Settings, rs: seq<DocumentRecord>, i: nat)
    requires i <= |rs|
    ensures Objection(cfg, rs, i) in {Done, EmptyKey, Reply.DuplicateKey, OwnedElsewhere}
    decreases |rs| - i
  {
    hide BatchKey;
    if i < |rs| {
      ObjectionsAre(cfg, rs, i + 1);
    }
  }

  // ------------------------------------------------------------------ generated ids

  lemma {:induction false} IdsGrow(rs: seq<DocumentRecord>, i: nat, j: nat)
    requires i <= j <= |rs|
    ensures IdsNeeded(rs[..i]) <= IdsNeeded(rs[..j])
    ensures i < j && rs[i].mutationId == [] ==> IdsNeeded(rs[..i]) < IdsNeeded(rs[..j])
    decreases j
  {
    if i < j {
      assert rs[..j][..j - 1] == rs[..j - 1];
      IdsGrow(rs, i, j - 1);
    }
  }

  /** Each id made for a batch takes a counter of its own from the given one on, so no two records of the
      batch share one. */
  lemma MadeIdsDiffer(node: ByteString, rs: seq<DocumentRecord>, clock: nat -> int, counter: nat)
    ensures var prepared := PreparedAll(node, rs, clock, counter);
            && (forall i :: 0 <= i < |rs| && rs[i].mutationId == [] ==>
                  exists c :: counter <= c < counter + IdsNeeded(rs) &&
                              prepared[i].mutationId == MutationId(node, prepared[i].updatedAt, c))
            && (forall i, j :: 0 <= i < j < |rs| && rs[i].mutationId == [] && rs[j].mutationId == [] ==>
                  prepared[i].mutationId != prepared[j].mutationId)
            && (forall i :: 0 <= i < |rs| && rs[i].mutationId != [] ==> prepared[i].mutationId == rs[i].mutationId)
  {
    hide IdsNeeded, MutationId;
    var prepared := PreparedAll(node, rs, clock, counter);
    forall i | 0 <= i < |rs| && rs[i].mutationId == []
      ensures exists c :: counter <= c < counter + IdsNeeded(rs) &&
                          prepared[i].mutationId == MutationId(node, prepared[i].updatedAt, c)
    {
      IdsGrow(rs, i, |rs|);
      assert rs[..|rs|] == rs;
      MadeId(node, rs, clock, counter, i);
      var c := counter + IdsNeeded(rs[..i]);
      assert counter <= c < counter + IdsNeeded(rs);
    }
    forall i | 0 <= i < |rs| && rs[i].mutationId != [] ensures prepared[i].mutationId == rs[i].mutationId {
      var p := PrepareMutation(rs[i], node, clock(i), counter + IdsNeeded(rs[..i]));
      assert prepared[i] == p && p.mutationId == rs[i].mutationId;
    }
    forall i, j | 0 <= i < j < |rs| && rs[i].mutationId == [] && rs[j].mutationId == []
      ensures prepared[i].mutationId != prepared[j].mutationId
    {
      IdsGrow(rs, i, j);
      MadeId(node, rs, clock, counter, i);
      MadeId(node, rs, clock, counter, j);
      GeneratedIdsUnique(node, prepared[i].updatedAt, counter + IdsNeeded(rs[..i]), node, prepared[j].updatedAt,
                         counter + IdsNeeded(rs[..j]));
    }
  }

  lemma MadeId(node: ByteString, rs: seq<DocumentRecord>, clock: nat -> int, counter: nat, i: nat)
    requires i < |rs| && rs[i].mutationId == []
    ensures var p := PreparedAll(node, rs, clock, counter)[i];
            p.mutationId == MutationId(node, p.updatedAt, counter + IdsNeeded(rs[..i]))
  {
    hide IdsNeeded, MutationId;
    var p := PrepareMutation(rs[i], node, clock(i), counter + IdsNeeded(rs[..i]));
    assert PreparedAll(node, rs, clock, counter)[i] == p;
    assert p.mutationId == MutationId(node, p.updatedAt, counter + IdsNeeded(rs[..i]));
  }

  /** Every record of a batch reaches the store with what the client gave: its key and content, its
      collection if it has one, and its time, version and id if they are given. */
  lemma BatchKeepsGiven(cfg: Settings, rs: seq<DocumentRecord>, clock: nat -> int, counter: nat, i: nat)
    requires i < |rs| && -0x8000_0000_0000_0000 <= rs[i].updatedAt < 0x8000_0000_0000_0000
    requires -0x8000_0000_0000_0000 <= clock(i) < 0x8000_0000_0000_0000
    ensures var r, p := rs[i], PreparedAll(cfg.nodeId, FilledAll(cfg, rs), clock, counter)[i];
            && p.key == r.key && p.title == r.title && p.body == r.body && p.metadata == r.metadata
            && p.collection == (if r.collection != [] then r.collection else cfg.defaultCollection)
            && p.updatedAt == (if r.updatedAt != 0 then r.updatedAt else clock(i))
            && (r.version != 0 ==> p.version == r.version)
            && (r.version == 0 && p.updatedAt >= 0 ==> p.version == p.updatedAt)
            && (r.mutationId != [] ==> p.mutationId == r.mutationId)
  {
    hide IdsNeeded, PrepareMutation, MutationId;
    var filled := FilledAll(cfg, rs);
    assert filled[i] == Filled(cfg, rs[i]);
    PreparedKeepsGiven(filled[i], cfg.nodeId, clock(i), counter + IdsNeeded(filled[..i]));
  }

  // ------------------------------------------------------------------ what an operation leaves

  /** The answer of the store to a batch, as the client sees it. */
  lemma BatchReplyExactly(kv: Records, rs: seq<DocumentRecord>, i: nat)
    requires i < |rs| && forall j :: 0 <= j < i ==> !PutLaws.Troubled(kv, rs, j)
    ensures PutLaws.Troubled(kv, rs, i) ==>
              BatchReply(kv, rs) == (if PutLaws.RepeatsEarlier(rs, i) then Reply.DuplicateKey else Stale) &&
              KvBatch(kv, rs) == kv
    ensures !PutLaws.Troubled(kv, rs, i) && i + 1 == |rs| ==> BatchReply(kv, rs) == Done
  {
    hide WalStore.Stage, PutLaws.Troubled, PutLaws.RepeatsEarlier;
    PutLaws.WalBatchExactly(kv, rs);
  }

  /** A put is refused exactly when it comes too late without repeating the stored id. If it neither comes
      too late nor repeats that id, the store holds this record afterwards; nothing else ever changes. */
  lemma GatewayPutExactly(s: Site, r: DocumentRecord)
    ensures var slot := Lookup(s.kv, KeyOf(r));
            && (Refused(s, r) <==> PutLaws.ComesTooLate(slot, r) && !PutLaws.RepeatsStored(slot, r))
            && (forall k :: Lookup(KvPut(s.kv, r), k) ==
                  if k == KeyOf(r) && !PutLaws.ComesTooLate(slot, r) && !PutLaws.RepeatsStored(slot, r)
                  then Some(r) else Lookup(s.kv, k))
  {
    hide KeyOf, Decide, After;
    PutLaws.PutExactly(Lookup(s.kv, KeyOf(r)), r);
    PutLaws.PutAtExactly(s.kv, KeyOf(r), r);
  }

  /** A drain moves exactly the pending records that embed into the index; the file is written again
      exactly when one was moved. */
  lemma DrainExactly(fm: Formats, s: Site, embeds: Embeds)
    ensures var d := AfterDrain(fm, s, embeds);
            && d.kv == s.kv
            && (forall k :: Lookup(d.pending, k) ==
                  if k in s.pending && embeds(s.pending[k]) then None else Lookup(s.pending, k))
            && (forall k :: Lookup(d.index, k) ==
                  if k in s.pending && embeds(s.pending[k]) then Some(s.pending[k]) else Lookup(s.index, k))
            && d.file == if exists k :: k in s.pending && embeds(s.pending[k]) then Some(SnapshotOf(fm, d.pending))
                         else s.file
  {
    hide SnapshotOf;
    if k :| k in s.pending && embeds(s.pending[k]) {
      assert k !in Undelivered(s.pending, embeds);
    } else {
      assert Undelivered(s.pending, embeds) == s.pending;
    }
  }

  /** An upsert the store did not refuse: its record is in the index if it embeds and pending otherwise,
      and every record that was pending before is tried as well. */
  lemma UpsertExactly(fm: Formats, s: Site, r: DocumentRecord, embeds: Embeds)
    ensures var d := AfterUpsert(fm, s, r, embeds);
            var k := KeyOf(r);
            && (Refused(s, r) ==> d == s)
            && (!Refused(s, r) ==>
                  && d.kv == KvPut(s.kv, r) && d.file == Some(SnapshotOf(fm, d.pending))
                  && Lookup(d.pending, k) == (if embeds(r) then None else Some(r))
                  && Lookup(d.index, k) == (if embeds(r) then Some(r) else Lookup(s.index, k))
                  && forall x :: x != k ==>
                       && Lookup(d.pending, x) ==
                          (if x in s.pending && embeds(s.pending[x]) then None else Lookup(s.pending, x))
                       && Lookup(d.index, x) ==
                          if x in s.pending && embeds(s.pending[x]) then Some(s.pending[x]) else Lookup(s.index, x))
  {
    hide SnapshotOf, KeyOf, KvPut, Refused, AfterDrain;
    if !Refused(s, r) {
      var pending := s.pending[KeyOf(r) := r];
      var put := Site(KvPut(s.kv, r), pending, Some(SnapshotOf(fm, pending)), s.index);
      DrainExactly(fm, put, embeds);
      SameRecords(AfterDrain(fm, put, embeds).pending, pending);
    }
  }

  lemma SameRecords(a: Records, b: Records)
    ensures (forall k :: Lookup(a, k) == Lookup(b, k)) ==> a == b
  {
    if forall k :: Lookup(a, k) == Lookup(b, k) {
      forall k ensures k in a <==> k in b {
        assert Lookup(a, k) == Lookup(b, k);
      }
      forall k | k in a ensures a[k] == b[k] {
        assert Lookup(a, k) == Lookup(b, k);
      }
    }
  }

  /** A delete takes the key out of store, outbox and index and leaves every other key. */
  lemma DeleteExactly(fm: Formats, s: Site, collection: ByteString, key: ByteString)
    ensures var d := AfterDelete(fm, s, collection, key);
            && d.file == Some(SnapshotOf(fm, d.pending))
            && forall x ::
                 var gone := x == CompositeKey(collection, key);
                 && Lookup(d.kv, x) == (if gone then None else Lookup(s.kv, x))
                 && Lookup(d.pending, x) == (if gone then None else Lookup(s.pending, x))
                 && Lookup(d.index, x) == (if gone then None else Lookup(s.index, x))
  {
    hide SnapshotOf, CompositeKey;
  }

  /** Reindexed keys hold what the store holds, whatever the index held; other keys stay. */
  lemma ReindexExactly(s: Site, keys: set<ByteString>)
    ensures var d := AfterReindex(s, keys);
            && d.kv == s.kv && d.pending == s.pending && d.file == s.file
            && forall k :: Lookup(d.index, k) == if k in keys && k in s.kv then Some(s.kv[k]) else Lookup(s.index, k)
  {
  }
}
