/** The write-ahead-logged store: a record map in memory, a log file and a snapshot file. */
module WalStore {
  import opened ByteStrings
  import opened Documents
  import opened Mutations
  import opened WalLog
  import PersistenceCodec
  import RangeScan

  datatype Store = Store(records: Records, disk: Disk)

  function PutEntries(rs: seq<DocumentRecord>): seq<WalEntry> {
    seq(|rs|, i requires 0 <= i < |rs| => PutEntry(rs[i]))
  }

  /** The store with a new map whose change es has been logged. */
  function Logged(fm: Formats, st: Store, records: Records, es: seq<WalEntry>): Store {
    Store(records, st.disk.(wal := Some(Appended(fm, st.disk.wal, records, es))))
  }

  function AfterPut(fm: Formats, st: Store, r: DocumentRecord): (Store, Status) {
    match Decide(Lookup(st.records, KeyOf(r)), r)
    case Reject => (st, StaleMutation)
    case Ignore => (st, Ok)
    case Accept => (Logged(fm, st, st.records[KeyOf(r) := r], [PutEntry(r)]), Ok)
  }

  function AfterDelete(fm: Formats, st: Store, c: ByteString, k: ByteString): Store {
    Logged(fm, st, st.records - {CompositeKey(c, k)}, [DeleteEntry(c, k)])
  }

  datatype Staging = Staging(records: Records, seen: set<ByteString>, applied: seq<DocumentRecord>)
  datatype StageResult = Staged(records: Records, applied: seq<DocumentRecord>) | Refused(status: Status)

  /** The validation loop of a batch, record by record. */
  function Stage(s: Staging, rs: seq<DocumentRecord>): StageResult
    decreases rs
  {
    if rs == [] then Staged(s.records, s.applied)
    else
      var r := rs[0];
      var k := KeyOf(r);
      if k in s.seen then Refused(DuplicateKey)
      else match Decide(Lookup(s.records, k), r)
           case Reject => Refused(StaleMutation)
           case Ignore => Stage(s.(seen := s.seen + {k}), rs[1..])
           case Accept => Stage(Staging(s.records[k := r], s.seen + {k}, s.applied + [r]), rs[1..])
  }

  function StageBatch(m: Records, rs: seq<DocumentRecord>): StageResult {
    Stage(Staging(m, {}, []), rs)
  }

  function AfterBatch(fm: Formats, st: Store, rs: seq<DocumentRecord>): (Store, Status) {
    match StageBatch(st.records, rs)
    case Refused(status) => (st, status)
    case Staged(records, applied) =>
      if applied == [] then (st, Ok) else (Logged(fm, st, records, PutEntries(applied)), Ok)
  }

  function AfterFlush(fm: Formats, st: Store): Store {
    st.(disk := st.disk.(snapshot := Some(SnapshotOf(fm, st.records))))
  }

  class WriteAheadKvStore {
    const fm: Formats
    var records: Records
    var wal: Option<ByteString>
    var snapshot: Option<ByteString>

    ghost function State(): Store
      reads this
    {
      Store(records, Disk(wal, snapshot))
    }

    /** A store over two existing or missing files, before Recover. */
    constructor (fm: Formats, wal: Option<ByteString>, snapshot: Option<ByteString>)
      ensures this.fm == fm && State() == Store(map[], Disk(wal, snapshot))
    {
      this.fm := fm;
      this.records := map[];
      this.wal := wal;
      this.snapshot := snapshot;
    }

    method Recover() returns (status: Status)
      modifies this`records
      ensures Recovered(records, status) == RecoverFrom(fm, Disk(wal, snapshot))
    {
      records := map[];
      status := ReplaySnapshot();
      if status != Ok {
        return;
      }
      status := ReplayWal();
    }

    method ReplaySnapshot() returns (status: Status)
      modifies this`records
      ensures var content := SnapshotContent(fm, snapshot);
              records == Replay(old(records), content.entries) && status == content.status
    {
      if snapshot.None? {
        return Ok;
      }
      ghost var start, content := records, SnapshotContent(fm, snapshot);
      if PersistenceCodec.HasMagic(snapshot.value) {
        var decoded := PersistenceCodec.DecodeFrames(snapshot.value);
        if !decoded.Decoded? {
          return FramesStatus(decoded);
        }
        var frames := decoded.frames;
        assert frames[0..] == frames;
        for i := 0 to |frames|
          invariant var rest := BinaryRecords(fm, frames[i..]);
                    Replay(records, rest.entries) == Replay(start, content.entries) && rest.status == content.status
        {
          var record := fm.parseRecord(frames[i]);
          if record.None? {
            return BadRecord;
          }
          ghost var rest := BinaryRecords(fm, frames[i + 1..]);
          assert frames[i..][1..] == frames[i + 1..];
          assert ([PutEntry(record.value)] + rest.entries)[1..] == rest.entries;
          records := records[KeyOf(record.value) := record.value];
        }
      } else {
        var lines := Lines(snapshot.value);
        assert lines[0..] == lines;
        for i := 0 to |lines|
          invariant var rest := TextRecords(fm, lines[i..]);
                    Replay(records, rest.entries) == Replay(start, content.entries) && rest.status == content.status
        {
          var record := fm.textRecord(lines[i]);
          if record.None? {
            return BadRecord;
          }
          ghost var rest := TextRecords(fm, lines[i + 1..]);
          assert lines[i..][1..] == lines[i + 1..];
          assert ([PutEntry(record.value)] + rest.entries)[1..] == rest.entries;
          records := records[KeyOf(record.value) := record.value];
        }
      }
      status := Ok;
    }

    method ReplayWal() returns (status: Status)
      modifies this`records
      ensures var content := WalContent(fm, wal);
              records == Replay(old(records), content.entries) && status == content.status
    {
      if wal.None? {
        return Ok;
      }
      ghost var start, content := records, WalContent(fm, wal);
      if PersistenceCodec.HasMagic(wal.value) {
        var decoded := PersistenceCodec.DecodeFrames(wal.value);
        if !decoded.Decoded? {
          return FramesStatus(decoded);
        }
        var frames := decoded.frames;
        assert frames[0..] == frames;
        for i := 0 to |frames|
          invariant var rest := BinaryEntries(fm, frames[i..]);
                    Replay(records, rest.entries) == Replay(start, content.entries) && rest.status == content.status
        {
          var entry := DecodeWalEntry(fm, frames[i]);
          if entry.None? {
            return BadEntry;
          }
          ghost var rest := BinaryEntries(fm, frames[i + 1..]);
          assert frames[i..][1..] == frames[i + 1..];
          assert ([entry.value] + rest.entries)[1..] == rest.entries;
          match entry.value.operation {
            case Put => records := records[KeyOf(entry.value.record) := entry.value.record];
            case Delete => records := records - {CompositeKey(entry.value.collection, entry.value.key)};
          }
        }
      } else {
        var lines := Lines(wal.value);
        assert lines[0..] == lines;
        for i := 0 to |lines|
          invariant var rest := TextEntries(fm, lines[i..]);
                    Replay(records, rest.entries) == Replay(start, content.entries) && rest.status == content.status
        {
          ghost var rest := TextEntries(fm, lines[i + 1..]);
          assert lines[i..][1..] == lines[i + 1..];
          var meaning := TextLine(fm, lines[i]);
          if meaning.Unreadable? {
            return BadRecord;
          }
          if meaning.Means? {
            assert ([meaning.entry] + rest.entries)[1..] == rest.entries;
            records := ReplayEntry(records, meaning.entry);
          }
        }
      }
      status := Ok;
    }

    method Put(record: DocumentRecord) returns (status: Status)
      modifies this`records, this`wal
      ensures (State(), status) == AfterPut(fm, old(State()), record)
    {
      var compositeKey := KeyOf(record);
      if compositeKey in records {
        var existing := records[compositeKey];
        status := ValidateMutation(existing, record);
        if status != Ok {
          return;
        }
        if IsDuplicateMutation(existing, record) {
          return Ok;
        }
      }
      records := records[compositeKey := record];
      Append([PutEntry(record)], records);
      status := Ok;
    }

    method BatchPut(batch: seq<DocumentRecord>) returns (status: Status)
      modifies this`records, this`wal
      ensures (State(), status) == AfterBatch(fm, old(State()), batch)
    {
      var batchKeys: set<ByteString> := {};
      var staged := records;
      var toApply: seq<DocumentRecord> := [];
      assert batch[0..] == batch;
      for i := 0 to |batch|
        invariant StageBatch(records, batch) == Stage(Staging(staged, batchKeys, toApply), batch[i..])
      {
        var record := batch[i];
        assert batch[i..][1..] == batch[i + 1..];
        var compositeKey := KeyOf(record);
        if compositeKey in batchKeys {
          return DuplicateKey;
        }
        batchKeys := batchKeys + {compositeKey};
        if compositeKey in staged {
          var existing := staged[compositeKey];
          status := ValidateMutation(existing, record);
          if status != Ok {
            return;
          }
          if IsDuplicateMutation(existing, record) {
            continue;
          }
        }
        staged := staged[compositeKey := record];
        toApply := toApply + [record];
      }
      if toApply == [] {
        return Ok;
      }
      Append(PutEntries(toApply), staged);
      records := staged;
      status := Ok;
    }

    method Delete(collection: ByteString, key: ByteString)
      modifies this`records, this`wal
      ensures State() == AfterDelete(fm, old(State()), collection, key)
    {
      records := records - {CompositeKey(collection, key)};
      Append([DeleteEntry(collection, key)], records);
    }

    method Get(collection: ByteString, key: ByteString) returns (found: Option<DocumentRecord>)
      ensures found == Lookup(records, CompositeKey(collection, key))
    {
      var compositeKey := CompositeKey(collection, key);
      found := if compositeKey in records then Some(records[compositeKey]) else None;
    }

    method Range(collection: ByteString, beginKey: ByteString, endKey: ByteString, limit: nat)
        returns (results: seq<DocumentRecord>)
      ensures results == RangeScan.Range(records, collection, beginKey, endKey, limit)
    {
      var start := CompositeKey(collection, beginKey);
      var finish := CompositeKey(collection, RangeScan.EndOf(endKey));
      var keys := SortedKeys(records.Keys);
      results := RangeScan.Walk(records, keys, LowerBound(keys, start), finish, collection, limit);
    }

    method FlushSnapshot()
      modifies this`snapshot
      ensures State() == AfterFlush(fm, old(State()))
    {
      var keys := SortedKeys(records.Keys);
      var output := PersistenceCodec.WriteFrames(PersistenceCodec.MAGIC, RecordPayloads(fm, records, keys));
      snapshot := Some(output);
    }

    /** AppendWalLocked, AppendWalBatchLocked and AppendDeleteLocked: the same steps for one put,
        for the puts of a batch and for a delete. */
    method Append(entries: seq<WalEntry>, live: Records)
      modifies this`wal
      ensures wal == Some(Appended(fm, old(wal), live, entries))
    {
      var rewriteLegacy := IsLegacy(wal);
      var needsHeader := rewriteLegacy || wal.None? || wal.value == [];
      var output := if needsHeader then PersistenceCodec.MAGIC else wal.value;
      if rewriteLegacy {
        output := PersistenceCodec.WriteFrames(output, Payloads(fm, LiveEntries(live, SortedKeys(live.Keys))));
      } else {
        output := PersistenceCodec.WriteFrames(output, Payloads(fm, entries));
      }
      wal := Some(output);
    }
  }
}
