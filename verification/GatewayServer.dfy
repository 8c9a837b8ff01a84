/** The document operations of the gateway: each changes the store, the outbox and the vector index
    one after the other. */
module GatewayServer {
  import opened ByteStrings
  import opened Documents
  import opened Mutations
  import opened WalLog
  import opened WalDurability
  import opened VectorOutbox
  import WalStore
  import BatchPuts
  import PersistenceCodec
  import RangeScan

  datatype Settings = Settings(
    nodeId: ByteString,
    defaultCollection: ByteString,
    readOnly: bool,
    batchMax: nat,
    routedHere: (ByteString, ByteString) -> bool)

  datatype Reply =
    | Done
    | NotStarted
    | ReadOnly
    | EmptyKey
    | OwnedElsewhere
    | EmptyBatch
    | BatchTooLarge
    | DuplicateKey
    | Stale
    | NotEmbedded
    | NotFlushed

  /** What a server holds between two operations. */
  datatype Site = Site(kv: Records, pending: Records, file: Option<ByteString>, index: Records)

  function Named(cfg: Settings, collection: ByteString): ByteString {
    if collection == [] then cfg.defaultCollection else collection
  }

  /** The checks in front of every change, in their order. */
  function Guard(cfg: Settings, started: bool, collection: ByteString, key: ByteString): Reply {
    if !started then NotStarted
    else if cfg.readOnly then ReadOnly
    else if key == [] then EmptyKey
    else if !cfg.routedHere(Named(cfg, collection), key) then OwnedElsewhere
    else Done
  }

  /** The text by which the gateway tells the records of a batch apart. */
  function BatchKey(r: DocumentRecord): ByteString {
    Join(NEWLINE, r.collection, r.key)
  }

  function Filled(cfg: Settings, r: DocumentRecord): DocumentRecord {
    r.(collection := Named(cfg, r.collection))
  }

  function FilledAll(cfg: Settings, rs: seq<DocumentRecord>): (filled: seq<DocumentRecord>)
    ensures |filled| == |rs|
  {
    seq(|rs|, i requires 0 <= i < |rs| => Filled(cfg, rs[i]))
  }

  /** The first objection to the records of a batch from the i-th on. */
  function Objection(cfg: Settings, rs: seq<DocumentRecord>, i: nat): Reply
    requires i <= |rs|
    decreases |rs| - i
  {
    if i == |rs| then Done
    else if rs[i].key == [] then EmptyKey
    else if exists j :: 0 <= j < i && BatchKey(rs[j]) == BatchKey(rs[i]) then Reply.DuplicateKey
    else if !cfg.routedHere(rs[i].collection, rs[i].key) then OwnedElsewhere
    else Objection(cfg, rs, i + 1)
  }

  function BatchGuard(cfg: Settings, started: bool, rs: seq<DocumentRecord>): Reply {
    if !started then NotStarted
    else if cfg.readOnly then ReadOnly
    else if rs == [] then EmptyBatch
    else if |rs| > cfg.batchMax then BatchTooLarge
    else Objection(cfg, FilledAll(cfg, rs), 0)
  }

  function IdsNeeded(rs: seq<DocumentRecord>): nat {
    if rs == [] then 0 else IdsNeeded(rs[..|rs| - 1]) + if rs[|rs| - 1].mutationId == [] then 1 else 0
  }

  /** All records prepared in order; the clock tells the time at each of them. */
  function PreparedAll(nodeId: ByteString, rs: seq<DocumentRecord>, clock: nat -> int,
                       counter: nat): (prepared: seq<DocumentRecord>)
    ensures |prepared| == |rs|
  {
    seq(|rs|, i requires 0 <= i < |rs| => PrepareMutation(rs[i], nodeId, clock(i), counter + IdsNeeded(rs[..i])))
  }

  /** The store's answer to a batch, as the gateway passes it on. */
  function BatchReply(kv: Records, rs: seq<DocumentRecord>): Reply {
    match WalStore.StageBatch(kv, rs)
    case Staged(_, _) => Done
    case Refused(status) => if status == Status.DuplicateKey then Reply.DuplicateKey else Stale
  }

  /** And its batch. */
  function KvBatch(kv: Records, rs: seq<DocumentRecord>): Records {
    StepMap(kv, BatchOp(rs))
  }

  /** The store's put on the plain map that WalDurability shows it to refine. */
  function KvPut(kv: Records, r: DocumentRecord): Records {
    StepMap(kv, PutOp(r))
  }

  function AfterDrain(fm: Formats, s: Site, embeds: Embeds): Site {
    var left := Undelivered(s.pending, embeds);
    Site(s.kv, left, if left == s.pending then s.file else Some(SnapshotOf(fm, left)),
         s.index + Delivered(s.pending, embeds))
  }

  function Refused(s: Site, r: DocumentRecord): bool {
    Decide(Lookup(s.kv, KeyOf(r)), r) == Reject
  }

  /** A put the store did not refuse is enqueued and a drain is tried at once, also when the store
      ignored it as a repeated mutation. */
  function AfterUpsert(fm: Formats, s: Site, r: DocumentRecord, embeds: Embeds): Site {
    if Refused(s, r) then s
    else
      var pending := s.pending[KeyOf(r) := r];
      AfterDrain(fm, Site(KvPut(s.kv, r), pending, Some(SnapshotOf(fm, pending)), s.index), embeds)
  }

  function AfterDelete(fm: Formats, s: Site, collection: ByteString, key: ByteString): Site {
    var k := CompositeKey(collection, key);
    Site(StepMap(s.kv, DeleteOp(collection, key)), s.pending - {k}, Some(SnapshotOf(fm, s.pending - {k})),
         s.index - {k})
  }

  /** A clean stop drains once; the start after it reads the pending records from the file. */
  function AfterRestart(fm: Formats, s: Site, embeds: Embeds): Site {
    var stopped := AfterDrain(fm, s, embeds);
    stopped.(pending := Replay(map[], OutboxContent(fm, stopped.file).entries))
  }

  function AfterReindex(s: Site, indexed: set<ByteString>): Site {
    s.(index := Reindexed(s.index, s.kv, indexed))
  }

  function Reindexed(index: Records, kv: Records, keys: set<ByteString>): Records {
    index + map k | k in kv && k in keys :: kv[k]
  }

  const PAGE_SIZE: nat := 1000

  class InProcessGatewayServer {
    const cfg: Settings
    const fm: Formats
    const index: VectorIndex
    var outbox: VectorIndexOutbox
    var kv: Records
    var started: bool
    var counter: nat

    ghost predicate Valid()
      reads this, outbox
    {
      outbox.fm == fm && outbox.index == index && RangeScan.Keyed(outbox.pending) && RangeScan.Keyed(kv)
    }

    ghost function AsSite(): Site
      reads this, outbox, index
    {
      Site(kv, outbox.pending, outbox.file, index.entries)
    }

    /** The server before its first start, over the outbox file and the recovered store and index. */
    constructor (cfg: Settings, fm: Formats, kv: Records, index: VectorIndex, file: Option<ByteString>)
      requires RangeScan.Keyed(kv)
      ensures Valid() && fresh(outbox) && !started
      ensures this.cfg == cfg && this.fm == fm && this.index == index
      ensures AsSite() == Site(kv, map[], file, index.entries)
    {
      this.cfg := cfg;
      this.fm := fm;
      this.index := index;
      this.kv := kv;
      this.started := false;
      this.counter := 0;
      this.outbox := new VectorIndexOutbox(fm, index, file);
    }

    method Start() returns (status: Status)
      requires Valid()
      modifies this
      ensures Valid()
      ensures index.entries == old(index.entries) && kv == old(kv) && counter == old(counter)
      ensures old(started) ==> status == Ok && started && outbox == old(outbox)
      ensures !old(started) ==> fresh(outbox) && outbox.fm == fm && outbox.index == index
      ensures !old(started) ==> status == OutboxContent(fm, old(outbox.file)).status && (started <==> status == Ok)
      ensures !old(started) ==>
                AsSite() == old(AsSite()).(pending := Replay(map[], OutboxContent(fm, old(outbox.file)).entries))
    {
      if started {
        return Ok;
      }
      outbox := new VectorIndexOutbox(fm, index, outbox.file);
      status := outbox.Recover();
      RecoveredKeyed(fm, outbox.file);
      started := status == Ok;
    }

    /** A stop drains the outbox and flushes both snapshots; it counts as stopped only if both flushes
        work. */
    method Stop(embeds: Embeds, kvFlushed: bool, indexFlushed: bool) returns (reply: Reply)
      requires Valid()
      modifies this`started, outbox, index
      ensures Valid()
      ensures reply == if old(started) && !(kvFlushed && indexFlushed) then NotFlushed else Done
      ensures started == (reply == NotFlushed)
      ensures AsSite() == if old(started) then AfterDrain(fm, old(AsSite()), embeds) else old(AsSite())
    {
      if !started {
        return Done;
      }
      outbox.DrainOnce(embeds);
      if !kvFlushed {
        return NotFlushed;
      }
      if !indexFlushed {
        return NotFlushed;
      }
      started := false;
      reply := Done;
    }

    method Prepare(record: DocumentRecord, now: int) returns (prepared: DocumentRecord)
      modifies this`counter
      ensures prepared == PrepareMutation(record, cfg.nodeId, now, old(counter))
      ensures counter == old(counter) + if record.mutationId == [] then 1 else 0
    {
      prepared := PrepareMutation(record, cfg.nodeId, now, counter);
      if record.mutationId == [] {
        counter := counter + 1;
      }
    }

    method PutAndIndex(record: DocumentRecord, semantic: bool, embeds: Embeds) returns (reply: Reply)
      requires Valid()
      modifies this`kv, outbox, index
      ensures Valid()
      ensures reply == if Refused(old(AsSite()), record) then Stale else Done
      ensures AsSite() == if semantic then AfterUpsert(fm, old(AsSite()), record, embeds)
                          else old(AsSite()).(kv := KvPut(old(kv), record))
    {
      hide SnapshotOf, Undelivered, Delivered, KeyOf, KvPut, RangeScan.Keyed, Decide;
      KvPutKeyed(kv, record);
      reply := PutRecord(record);
      if reply == Done && semantic {
        KeyedPut(outbox.pending, record);
        KeyedLeft(outbox.pending[KeyOf(record) := record], embeds);
        outbox.Enqueue(record);
        outbox.DrainOnce(embeds);
      }
    }

    /** The store's Put. */
    method PutRecord(record: DocumentRecord) returns (reply: Reply)
      modifies this`kv
      ensures reply == if Decide(Lookup(old(kv), KeyOf(record)), record) == Reject then Stale else Done
      ensures kv == KvPut(old(kv), record) && (reply == Stale ==> kv == old(kv))
    {
      var k := KeyOf(record);
      if k in kv {
        if ValidateMutation(kv[k], record) != Ok {
          return Stale;
        }
        if IsDuplicateMutation(kv[k], record) {
          return Done;
        }
      }
      kv := kv[k := record];
      reply := Done;
    }

    method PutKvRecord(record: DocumentRecord, now: int) returns (reply: Reply)
      requires Valid()
      modifies this`kv, this`counter
      ensures Valid()
      ensures var guard := Guard(cfg, started, record.collection, record.key);
              var r := PrepareMutation(Filled(cfg, record), cfg.nodeId, now, old(counter));
              && (guard != Done ==> reply == guard && kv == old(kv) && counter == old(counter))
              && (guard == Done ==>
                    && reply == (if Decide(Lookup(old(kv), KeyOf(r)), r) == Reject then Stale else Done)
                    && kv == KvPut(old(kv), r)
                    && counter == old(counter) + if record.mutationId == [] then 1 else 0)
    {
      hide KvPut, PrepareMutation, Decide;
      reply := Guard(cfg, started, record.collection, record.key);
      if reply != Done {
        return;
      }
      var prepared := Prepare(Filled(cfg, record), now);
      KvPutKeyed(kv, prepared);
      reply := PutRecord(prepared);
    }

    method PutKvRecords(records: seq<DocumentRecord>, clock: nat -> int) returns (reply: Reply)
      requires Valid()
      modifies this`kv, this`counter
      ensures Valid()
      ensures var guard := BatchGuard(cfg, started, records);
              var rs := PreparedAll(cfg.nodeId, FilledAll(cfg, records), clock, old(counter));
              && (guard != Done ==> reply == guard && kv == old(kv) && counter == old(counter))
              && (guard == Done ==>
                    && reply == BatchReply(old(kv), rs) && kv == KvBatch(old(kv), rs)
                    && counter == old(counter) + IdsNeeded(FilledAll(cfg, records)))
    {
      hide PrepareMutation, Objection, WalStore.Stage, FilledAll, KvBatch, BatchReply;
      if !started {
        return NotStarted;
      }
      if cfg.readOnly {
        return ReadOnly;
      }
      if records == [] {
        return EmptyBatch;
      }
      if |records| > cfg.batchMax {
        return BatchTooLarge;
      }
      var filled := FilledAll(cfg, records);
      reply := CheckRecords(filled);
      if reply != Done {
        return;
      }
      var prepared := PrepareRecords(filled, clock);
      reply := BatchReply(kv, prepared);
      KvBatchKeyed(kv, prepared);
      kv := KvBatch(kv, prepared);
    }

    /** The second loop of PutKvRecords. */
    method PrepareRecords(filled: seq<DocumentRecord>, clock: nat -> int) returns (prepared: seq<DocumentRecord>)
      modifies this`counter
      ensures prepared == PreparedAll(cfg.nodeId, filled, clock, old(counter))
      ensures counter == old(counter) + IdsNeeded(filled)
    {
      hide PrepareMutation;
      prepared := [];
      for i := 0 to |filled|
        invariant counter == old(counter) + IdsNeeded(filled[..i])
        invariant prepared == PreparedAll(cfg.nodeId, filled, clock, old(counter))[..i]
      {
        assert filled[..i + 1][..i] == filled[..i];
        var next := Prepare(filled[i], clock(i));
        prepared := prepared + [next];
      }
      assert filled[..|filled|] == filled;
    }

    /** The checking loop of PutKvRecords. */
    method CheckRecords(filled: seq<DocumentRecord>) returns (reply: Reply)
      ensures reply == Objection(cfg, filled, 0)
    {
      hide BatchKey;
      var batchKeys: set<ByteString> := {};
      for i := 0 to |filled|
        invariant batchKeys == set j | 0 <= j < i :: BatchKey(filled[j])
        invariant Objection(cfg, filled, 0) == Objection(cfg, filled, i)
      {
        if filled[i].key == [] {
          return EmptyKey;
        }
        if BatchKey(filled[i]) in batchKeys {
          return Reply.DuplicateKey;
        }
        batchKeys := batchKeys + {BatchKey(filled[i])};
        if !cfg.routedHere(filled[i].collection, filled[i].key) {
          return OwnedElsewhere;
        }
      }
      reply := Done;
    }

    method UpsertDocument(record: DocumentRecord, now: int, embeds: Embeds) returns (reply: Reply)
      requires Valid()
      modifies this`kv, this`counter, outbox, index
      ensures Valid()
      ensures var guard := Guard(cfg, started, record.collection, record.key);
              var r := PrepareMutation(Filled(cfg, record), cfg.nodeId, now, old(counter));
              && (guard != Done ==> reply == guard && AsSite() == old(AsSite()) && counter == old(counter))
              && (guard == Done ==>
                    && reply == (if Refused(old(AsSite()), r) then Stale else Done)
                    && AsSite() == AfterUpsert(fm, old(AsSite()), r, embeds)
                    && counter == old(counter) + if record.mutationId == [] then 1 else 0)
    {
      hide AfterUpsert, Refused, PrepareMutation, CompositeKey, RangeScan.Keyed;
      if !started {
        return NotStarted;
      }
      if cfg.readOnly {
        return ReadOnly;
      }
      var filled := Filled(cfg, record);
      if filled.key == [] {
        return EmptyKey;
      }
      if !cfg.routedHere(filled.collection, filled.key) {
        return OwnedElsewhere;
      }
      var prepared := Prepare(filled, now);
      reply := PutAndIndex(prepared, true, embeds);
    }

    /** A migrated record is stored whoever owns it; without an embedded trace id it arrives as posted. */
    method ApplyMigratedRecord(record: DocumentRecord, semantic: bool, traceId: ByteString, now: int, embeds: Embeds)
      returns (reply: Reply)
      requires Valid()
      modifies this`kv, this`counter, outbox, index
      ensures Valid()
      ensures var r := Traced(PrepareMutation(Filled(cfg, record), cfg.nodeId, now, old(counter)), traceId);
              var s := old(AsSite());
              if started && !cfg.readOnly && record.key != [] then
                && reply == (if Refused(s, r) then Stale else Done)
                && AsSite() == (if semantic then AfterUpsert(fm, s, r, embeds) else s.(kv := KvPut(s.kv, r)))
                && counter == old(counter) + if record.mutationId == [] then 1 else 0
              else
                && reply == (if !started then NotStarted else if cfg.readOnly then ReadOnly else EmptyKey)
                && AsSite() == s && counter == old(counter)
    {
      hide AfterUpsert, Refused, PrepareMutation, CompositeKey, RangeScan.Keyed, Traced, KvPut;
      if !started {
        return NotStarted;
      }
      if cfg.readOnly {
        return ReadOnly;
      }
      var filled := Filled(cfg, record);
      if filled.key == [] {
        return EmptyKey;
      }
      var prepared := Prepare(filled, now);
      prepared := Traced(prepared, traceId);
      reply := PutAndIndex(prepared, semantic, embeds);
    }

    method DeleteDocument(collection: ByteString, key: ByteString) returns (reply: Reply)
      requires Valid()
      modifies this`kv, outbox, index
      ensures Valid()
      ensures reply == Guard(cfg, started, collection, key)
      ensures AsSite() == if reply == Done then AfterDelete(fm, old(AsSite()), Named(cfg, collection), key)
                else old(AsSite())
    {
      reply := Guard(cfg, started, collection, key);
      if reply != Done {
        return;
      }
      var name := Named(cfg, collection);
      outbox.Remove(name, key);
      kv := kv - {CompositeKey(name, key)};
      index.Remove(name, key);
    }

    /** Indexes the records of a collection again, page by page, up to the first failure. */
    method ReindexDocuments(collection: ByteString, embeds: Embeds, indexFlushed: bool)
        returns (reply: Reply, indexedCount: nat)
      requires Valid()
      modifies index
      ensures Valid()
      ensures !started ==> reply == NotStarted && indexedCount == 0 && AsSite() == old(AsSite())
      ensures started ==>
                && reply in {Done, NotEmbedded, NotFlushed}
                && (reply == NotFlushed ==> !indexFlushed) && (reply == Done ==> indexFlushed)
                && Outcome(old(AsSite()), AsSite(), RangeScan.Visited(kv, Named(cfg, collection), [], PAGE_SIZE),
                           embeds, reply != NotEmbedded, indexedCount)
    {
      hide Outcome, RangeScan.Visited, RangeScan.Keyed;
      if !started {
        return NotStarted, 0;
      }
      var ok;
      ok, indexedCount := ReindexPages(Named(cfg, collection), embeds);
      reply := if !ok then NotEmbedded else if indexFlushed then Done else NotFlushed;
    }

    /** The paging loop of ReindexDocuments. */
    method ReindexPages(c: ByteString, embeds: Embeds) returns (ok: bool, indexedCount: nat)
      requires Valid()
      modifies index
      ensures Valid()
      ensures Outcome(old(AsSite()), AsSite(), RangeScan.Visited(kv, c, [], PAGE_SIZE), embeds, ok, indexedCount)
    {
      hide RangeScan.Range, RangeScan.Remaining, RangeScan.Visited, KeyOf, RangeScan.Keyed, Reindexed,
          RangeScan.KeySet, Outcome, Halfway, Finished;
      indexedCount := 0;
      var beginKey: ByteString := [];
      ghost var site := AsSite();
      ghost var done: set<ByteString> := {};
      NothingReindexed(site);
      StartsHalfway(kv, c, embeds);
      while true
        invariant Halfway(kv, c, beginKey, done, embeds)
        invariant index.entries == Reindexed(site.index, kv, done)
        invariant indexedCount == |done|
        decreases |RangeScan.Remaining(kv, c, beginKey)|
      {
        var records := RangeScan.Range(kv, c, beginKey, [], PAGE_SIZE);
        if records == [] {
          EmptyPage(kv, c, beginKey, done, embeds);
          break;
        }
        PageInStore(kv, c, beginKey);
        var indexed, count := IndexPage(records, embeds);
        ghost var front := RangeScan.KeySet(records[..count]);
        AfterPage(kv, c, beginKey, done, embeds, count);
        ReindexedTwice(site.index, kv, done, front);
        done := done + front;
        indexedCount := indexedCount + count;
        if !indexed {
          Fails(site, RangeScan.Visited(kv, c, [], PAGE_SIZE), embeds, done, KeyOf(records[count]));
          return false, indexedCount;
        }
        if |records| < PAGE_SIZE {
          break;
        }
        beginKey := records[|records| - 1].key + [0];
      }
      SucceedsFinished(site, c, embeds, done);
      ok := true;
    }

    /** The inner loop of ReindexDocuments. */
    method IndexPage(records: seq<DocumentRecord>, embeds: Embeds) returns (ok: bool, count: nat)
      requires forall i :: 0 <= i < |records| ==> KeyOf(records[i]) in kv && kv[KeyOf(records[i])] == records[i]
      modifies index
      ensures count <= |records| && (ok <==> count == |records|)
      ensures forall i :: 0 <= i < count ==> embeds(records[i])
      ensures count < |records| ==> !embeds(records[count])
      ensures index.entries == Reindexed(old(index.entries), kv, RangeScan.KeySet(records[..count]))
    {
      count := 0;
      ghost var entries := index.entries;
      hide Reindexed, RangeScan.KeySet, KeyOf, RangeScan.Keyed;
      assert records[..0] == [];
      NoKeys();
      NothingIndexed(entries, kv);
      while count < |records|
        invariant count <= |records|
        invariant forall i :: 0 <= i < count ==> embeds(records[i])
        invariant index.entries == Reindexed(entries, kv, RangeScan.KeySet(records[..count]))
      {
        OneMoreIndexed(entries, kv, records, count);
        var indexed := index.Upsert(records[count], embeds(records[count]));
        if !indexed {
          return false, count;
        }
        count := count + 1;
      }
      ok := true;
    }
  }

  lemma KeyedPut(m: Records, r: DocumentRecord)
    requires RangeScan.Keyed(m)
    ensures RangeScan.Keyed(m[KeyOf(r) := r])
  {
  }

  lemma KeyedLeft(m: Records, embeds: Embeds)
    requires RangeScan.Keyed(m)
    ensures RangeScan.Keyed(Undelivered(m, embeds)) && RangeScan.Keyed(Delivered(m, embeds))
  {
  }

  lemma KvPutKeyed(m: Records, r: DocumentRecord)
    requires RangeScan.Keyed(m)
    ensures RangeScan.Keyed(KvPut(m, r))
  {
  }

  lemma {:induction false} StageKeyed(s: WalStore.Staging, rs: seq<DocumentRecord>)
    requires RangeScan.Keyed(s.records)
    ensures WalStore.Stage(s, rs).Staged? ==> RangeScan.Keyed(WalStore.Stage(s, rs).records)
    decreases rs
  {
    if rs != [] && KeyOf(rs[0]) !in s.seen && Decide(Lookup(s.records, KeyOf(rs[0])), rs[0]) != Reject {
      KeyedPut(s.records, rs[0]);
      StageKeyed(BatchPuts.NextStaging(s, rs[0]), rs[1..]);
    }
  }

  lemma KvBatchKeyed(m: Records, rs: seq<DocumentRecord>)
    requires RangeScan.Keyed(m)
    ensures RangeScan.Keyed(KvBatch(m, rs))
  {
    StageKeyed(WalStore.Staging(m, {}, []), rs);
  }

  /** Whatever an outbox file holds, its records come back under their own keys. */
  lemma RecoveredKeyed(fm: Formats, file: Option<ByteString>)
    ensures RangeScan.Keyed(Replay(map[], OutboxContent(fm, file).entries))
  {
    if file.Some? && file.value != [] {
      match PersistenceCodec.Decode(file.value)
      case Decoded(frames) =>
        OnlyPuts(fm, frames);
        PutsKeyed(map[], BinaryRecords(fm, frames).entries);
      case _ =>
    }
  }

  lemma {:induction false} OnlyPuts(fm: Formats, frames: seq<ByteString>)
    ensures forall i :: 0 <= i < |BinaryRecords(fm, frames).entries|
              ==> BinaryRecords(fm, frames).entries[i].operation == Put
    decreases frames
  {
    if frames != [] && fm.parseRecord(frames[0]).Some? {
      OnlyPuts(fm, frames[1..]);
    }
  }

  lemma {:induction false} PutsKeyed(m: Records, es: seq<WalEntry>)
    requires RangeScan.Keyed(m) && forall i :: 0 <= i < |es| ==> es[i].operation == Put
    ensures RangeScan.Keyed(Replay(m, es))
    decreases es
  {
    if es != [] {
      KeyedPut(m, es[0].record);
      PutsKeyed(ReplayEntry(m, es[0]), es[1..]);
    }
  }

  lemma NothingIndexed(index: Records, kv: Records)
    ensures Reindexed(index, kv, {}) == index
  {
  }

  lemma OneMoreIndexed(index: Records, kv: Records, rs: seq<DocumentRecord>, i: nat)
    requires i < |rs| && KeyOf(rs[i]) in kv && kv[KeyOf(rs[i])] == rs[i]
    ensures Reindexed(index, kv, RangeScan.KeySet(rs[..i + 1])) ==
              Reindexed(index, kv, RangeScan.KeySet(rs[..i]))[KeyOf(rs[i]) := rs[i]]
  {
    hide KeyOf;
    KeySetSnoc(rs, i);
  }

  lemma NothingReindexed(s: Site)
    ensures AfterReindex(s, {}) == s
  {
    NothingIndexed(s.index, s.kv);
  }

  lemma ReindexedTwice(index: Records, kv: Records, a: set<ByteString>, b: set<ByteString>)
    ensures Reindexed(Reindexed(index, kv, a), kv, b) == Reindexed(index, kv, a + b)
  {
  }

  lemma NoKeys()
    ensures RangeScan.KeySet([]) == {}
  {
  }

  /** The keys of the first records of a page: as many as the records, all hits. */
  lemma {:induction false} KeySetIs(rs: seq<DocumentRecord>, count: nat, hits: set<ByteString>, m: Records,
                                    embeds: Embeds)
    requires count <= |rs|
    requires forall i :: 0 <= i < |rs| ==> KeyOf(rs[i]) in hits && KeyOf(rs[i]) in m && m[KeyOf(rs[i])] == rs[i]
    requires forall i, j :: 0 <= i < j < |rs| ==> KeyOf(rs[i]) != KeyOf(rs[j])
    requires forall i :: 0 <= i < count ==> embeds(rs[i])
    ensures RangeScan.KeySet(rs[..count]) <= hits && |RangeScan.KeySet(rs[..count])| == count
    ensures forall k :: k in RangeScan.KeySet(rs[..count]) ==> k in m && embeds(m[k])
  {
    hide KeyOf, RangeScan.KeySet;
    if count == 0 {
      NoKeys();
    } else {
      KeySetIs(rs, count - 1, hits, m, embeds);
      KeySetSnoc(rs, count - 1);
    }
  }

  /** One more record adds its key; distinct keys make it a new one. */
  lemma KeySetSnoc(rs: seq<DocumentRecord>, i: nat)
    requires i < |rs|
    ensures RangeScan.KeySet(rs[..i + 1]) == RangeScan.KeySet(rs[..i]) + {KeyOf(rs[i])}
    ensures (forall j :: 0 <= j < i ==> KeyOf(rs[j]) != KeyOf(rs[i])) ==> KeyOf(rs[i]) !in RangeScan.KeySet(rs[..i])
  {
    hide KeyOf;
    assert rs[..i + 1] == rs[..i] + [rs[i]];
  }

  // ------------------------------------------------------------------ batches

  lemma {:induction false} NoObjectionFrom(cfg: Settings, rs: seq<DocumentRecord>, i: nat)
    requires i <= |rs|
    ensures Objection(cfg, rs, i) == Done <==>
            && (forall j :: i <= j < |rs| ==> rs[j].key != [] && cfg.routedHere(rs[j].collection, rs[j].key))
            && (forall j, k :: 0 <= j < k < |rs| && i <= k ==> BatchKey(rs[j]) != BatchKey(rs[k]))
    decreases |rs| - i
  {
    hide BatchKey;
    if i < |rs| {
      NoObjectionFrom(cfg, rs, i + 1);
    }
  }

  /** No record is objected to exactly when all have a key, all belong here, and no two read the same
      with a newline between collection and key. */
  lemma BatchPassesExactly(cfg: Settings, rs: seq<DocumentRecord>)
    ensures Objection(cfg, rs, 0) == Done <==>
            && (forall i :: 0 <= i < |rs| ==> rs[i].key != [] && cfg.routedHere(rs[i].collection, rs[i].key))
            && (forall i, j :: 0 <= i < j < |rs| ==> BatchKey(rs[i]) != BatchKey(rs[j]))
  {
    hide BatchKey;
    NoObjectionFrom(cfg, rs, 0);
  }

  /** The newline check refuses two different records exactly when a newline in the longer collection
      continues the shorter one. */
  lemma NewlineConfusesExactly(a: DocumentRecord, b: DocumentRecord)
    requires |a.collection| <= |b.collection| && KeyPair(a) != KeyPair(b)
    ensures BatchKey(a) == BatchKey(b) <==>
            exists middle ::
              b.collection == Join(NEWLINE, a.collection, middle) && a.key == Join(NEWLINE, middle, b.key)
  {
    JoinCollision(NEWLINE, a.collection, a.key, b.collection, b.key);
    if BatchKey(a) == BatchKey(b) {
      var middle := b.collection[|a.collection| + 1..];
      assert b.collection == Join(NEWLINE, a.collection, middle) && a.key == Join(NEWLINE, middle, b.key);
    }
    if middle :| b.collection == Join(NEWLINE, a.collection, middle) && a.key == Join(NEWLINE, middle, b.key) {
      assert Join(NEWLINE, a.collection, Join(NEWLINE, middle, b.key)) ==
          Join(NEWLINE, Join(NEWLINE, a.collection, middle), b.key);
    }
  }

  /** Preparing keeps collection and key. */
  lemma PreparedKeepsKeys(nodeId: ByteString, rs: seq<DocumentRecord>, clock: nat -> int, counter: nat)
    ensures forall i :: 0 <= i < |rs| ==> KeyPair(PreparedAll(nodeId, rs, clock, counter)[i]) == KeyPair(rs[i])
  {
    hide IdsNeeded;
    forall i | 0 <= i < |rs| ensures KeyPair(PreparedAll(nodeId, rs, clock, counter)[i]) == KeyPair(rs[i]) {
      var p := PrepareMutation(rs[i], nodeId, clock(i), counter + IdsNeeded(rs[..i]));
      assert PreparedAll(nodeId, rs, clock, counter)[i] == p && p.collection == rs[i].collection && p.key == rs[i].key;
    }
  }

  /** With separator-free collections a batch that passed the gateway's checks never fails the store's
      own duplicate check: it succeeds exactly when the store would accept each record alone. */
  lemma PassedBatchSucceedsExactly(cfg: Settings, kv: Records, rs: seq<DocumentRecord>, clock: nat -> int, counter: nat)
    requires Objection(cfg, rs, 0) == Done
    requires forall i :: 0 <= i < |rs| ==> SEPARATOR !in rs[i].collection
    ensures var prepared := PreparedAll(cfg.nodeId, rs, clock, counter);
            BatchReply(kv, prepared) == Done <==>
            forall i :: 0 <= i < |prepared| ==> BatchPuts.Acceptable(kv, prepared[i])
  {
    hide PreparedAll, Objection, BatchPuts.Acceptable, WalStore.Stage;
    var prepared := PreparedAll(cfg.nodeId, rs, clock, counter);
    BatchPassesExactly(cfg, rs);
    PreparedKeepsKeys(cfg.nodeId, rs, clock, counter);
    forall i, j | 0 <= i < j < |prepared| ensures KeyOf(prepared[i]) != KeyOf(prepared[j]) {
      assert KeyPair(prepared[i]) == KeyPair(rs[i]) && KeyPair(prepared[j]) == KeyPair(rs[j]);
      assert BatchKey(rs[i]) != BatchKey(rs[j]);
      CompositeInjective(rs[i].collection, rs[i].key, rs[j].collection, rs[j].key);
    }
    BatchPuts.StageSucceeds(kv, WalStore.Staging(kv, {}, []), prepared);
  }

  /** How reindexing the given keys may end: it succeeds exactly when every record embeds, and has
      then indexed all of them; otherwise it has indexed as many of them as it counted. Nothing else
      changes. */
  ghost predicate Outcome(before: Site, after: Site, keys: set<ByteString>, embeds: Embeds, ok: bool, count: nat)
  {
    && (exists indexed :: indexed <= keys && |indexed| == count && after == AfterReindex(before, indexed))
    && (ok <==> forall k :: k in keys ==> k in before.kv && embeds(before.kv[k]))
    && (ok ==> after == AfterReindex(before, keys) && count == |keys|)
  }

  /** What is visited before the begin key is done, and nothing behind it is. */
  ghost predicate Halfway(m: Records, c: ByteString, begin: ByteString, done: set<ByteString>, embeds: Embeds)
    requires RangeScan.Keyed(m)
  {
    && done !! RangeScan.Remaining(m, c, begin)
    && done + RangeScan.Visited(m, c, begin, PAGE_SIZE) == RangeScan.Visited(m, c, [], PAGE_SIZE)
    && forall k :: k in done ==> k in m && embeds(m[k])
  }

  ghost predicate Finished(m: Records, c: ByteString, done: set<ByteString>, embeds: Embeds)
    requires RangeScan.Keyed(m)
  {
    done == RangeScan.Visited(m, c, [], PAGE_SIZE) && forall k :: k in done ==> k in m && embeds(m[k])
  }

  lemma StartsHalfway(m: Records, c: ByteString, embeds: Embeds)
    requires RangeScan.Keyed(m)
    ensures Halfway(m, c, [], {}, embeds)
  {
  }

  /** The records of a page are records of the store. */
  lemma PageInStore(m: Records, c: ByteString, begin: ByteString)
    requires RangeScan.Keyed(m)
    ensures var page := RangeScan.Range(m, c, begin, [], PAGE_SIZE);
            forall i :: 0 <= i < |page| ==> KeyOf(page[i]) in m && m[KeyOf(page[i])] == page[i]
  {
    hide KeyOf, RangeScan.Range;
    RangeScan.PageHits(m, c, begin, PAGE_SIZE);
  }

  lemma VisitedInStore(m: Records, c: ByteString)
    requires RangeScan.Keyed(m)
    ensures RangeScan.Visited(m, c, [], PAGE_SIZE) <= m.Keys
  {
    hide RangeScan.Visited;
    forall k | k in RangeScan.Visited(m, c, [], PAGE_SIZE) ensures k in m {
      RangeScan.VisitedFrom(m, c, [], PAGE_SIZE, k);
    }
  }

  lemma EmptyPage(m: Records, c: ByteString, begin: ByteString, done: set<ByteString>, embeds: Embeds)
    requires RangeScan.Keyed(m) && Halfway(m, c, begin, done, embeds)
    requires RangeScan.Range(m, c, begin, [], PAGE_SIZE) == []
    ensures Finished(m, c, done, embeds)
  {
    hide RangeScan.Range, RangeScan.Remaining, RangeScan.Keyed, RangeScan.KeySet;
    NoKeys();
    assert RangeScan.Visited(m, c, begin, PAGE_SIZE) == {};
    assert done + {} == done;
  }

  /** What indexing the first records of a page leaves: all of it with the next page to do, the end,
      or a failure at one of its records. */
  lemma AfterPage(m: Records, c: ByteString, begin: ByteString, done: set<ByteString>, embeds: Embeds, count: nat)
    requires RangeScan.Keyed(m) && Halfway(m, c, begin, done, embeds)
    requires RangeScan.Range(m, c, begin, [], PAGE_SIZE) != []
    requires count <= |RangeScan.Range(m, c, begin, [], PAGE_SIZE)|
    requires forall i :: 0 <= i < count ==> embeds(RangeScan.Range(m, c, begin, [], PAGE_SIZE)[i])
    ensures var page := RangeScan.Range(m, c, begin, [], PAGE_SIZE);
            var all := RangeScan.Visited(m, c, [], PAGE_SIZE);
            var after := done + RangeScan.KeySet(page[..count]);
            && all <= m.Keys && after <= all && |after| == |done| + count
            && (count < |page| ==> KeyOf(page[count]) in all && m[KeyOf(page[count])] == page[count])
            && (count == |page| < PAGE_SIZE ==> Finished(m, c, after, embeds))
            && (count == |page| >= PAGE_SIZE ==>
                  var next := page[|page| - 1].key + [0];
                  && Halfway(m, c, next, after, embeds)
                  && |RangeScan.Remaining(m, c, next)| < |RangeScan.Remaining(m, c, begin)|)
  {
    hide RangeScan.Range, RangeScan.Remaining, RangeScan.Keyed, KeyOf, RangeScan.KeySet, RangeScan.Visited;
    var page := RangeScan.Range(m, c, begin, [], PAGE_SIZE);
    VisitedInStore(m, c);
    PageFacts(m, c, begin);
    RangeScan.PageInRemaining(m, c, begin, PAGE_SIZE);
    KeySetIs(page, count, RangeScan.KeySet(page), m, embeds);
    if count == |page| {
      assert page[..count] == page;
      if |page| >= PAGE_SIZE {
        RangeScan.PageShrinks(m, c, begin, PAGE_SIZE);
        var next := page[|page| - 1].key + [0];
        forall k | k in RangeScan.Remaining(m, c, next)
          ensures k in RangeScan.Remaining(m, c, begin) && k !in RangeScan.KeySet(page)
        {
          RangeScan.NextIsInside(m, c, begin, PAGE_SIZE, k);
        }
      }
    }
  }

  lemma PageFacts(m: Records, c: ByteString, begin: ByteString)
    requires RangeScan.Keyed(m)
    ensures var page := RangeScan.Range(m, c, begin, [], PAGE_SIZE);
            && (forall i :: 0 <= i < |page| ==>
                  KeyOf(page[i]) in RangeScan.KeySet(page) && KeyOf(page[i]) in m && m[KeyOf(page[i])] == page[i])
            && (forall i, j :: 0 <= i < j < |page| ==> KeyOf(page[i]) != KeyOf(page[j]))
            && RangeScan.Visited(m, c, begin, PAGE_SIZE) ==
               if page == [] || |page| < PAGE_SIZE then RangeScan.KeySet(page)
               else RangeScan.KeySet(page) + RangeScan.Visited(m, c, page[|page| - 1].key + [0], PAGE_SIZE)
  {
    hide RangeScan.Range, KeyOf, Less;
    var page := RangeScan.Range(m, c, begin, [], PAGE_SIZE);
    RangeScan.PageHits(m, c, begin, PAGE_SIZE);
    forall i, j | 0 <= i < j < |page| ensures KeyOf(page[i]) != KeyOf(page[j]) {
      LessIrreflexive(KeyOf(page[i]));
    }
  }

  lemma SucceedsFinished(s: Site, c: ByteString, embeds: Embeds, done: set<ByteString>)
    requires RangeScan.Keyed(s.kv) && Finished(s.kv, c, done, embeds)
    ensures done <= s.kv.Keys && done == RangeScan.Visited(s.kv, c, [], PAGE_SIZE)
    ensures Outcome(s, AfterReindex(s, done), done, embeds, true, |done|)
  {
    hide RangeScan.Visited;
    Succeeds(s, done, embeds);
  }

  lemma Succeeds(s: Site, keys: set<ByteString>, embeds: Embeds)
    requires keys <= s.kv.Keys && forall k :: k in keys ==> embeds(s.kv[k])
    ensures Outcome(s, AfterReindex(s, keys), keys, embeds, true, |keys|)
  {
  }

  lemma Fails(s: Site, keys: set<ByteString>, embeds: Embeds, indexed: set<ByteString>, k: ByteString)
    requires keys <= s.kv.Keys && indexed <= keys && k in keys && !embeds(s.kv[k])
    ensures Outcome(s, AfterReindex(s, indexed), keys, embeds, false, |indexed|)
  {
  }

  function Traced(r: DocumentRecord, traceId: ByteString): DocumentRecord {
    if traceId == [] then r else r.(metadata := r.metadata[TRACE_ID := traceId])
  }

  /** "trace_id" */
  const TRACE_ID: ByteString := [116, 114, 97, 99, 101, 95, 105, 100]
}
