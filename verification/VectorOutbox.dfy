/** The outbox between the store and the vector index: records waiting to be indexed, persisted in a
    framed file, and drained one by one while embeddings may fail. */
module VectorOutbox {
  import opened ByteStrings
  import opened Documents
  import opened Mutations
  import opened WalLog
  import opened WalDurability
  import PersistenceCodec
  import RangeScan

  /** Whether embedding and indexing a record works in the current pass. */
  type Embeds = DocumentRecord -> bool

  /** What an outbox file holds. There is no fallback for other formats. */
  function OutboxContent(fm: Formats, file: Option<ByteString>): LogResult {
    if file.None? || file.value == [] then LogResult([], Ok)
    else match PersistenceCodec.Decode(file.value)
         case Decoded(frames) => BinaryRecords(fm, frames)
         case failure => LogResult([], FramesStatus(failure))
  }

  function Delivered(pending: Records, embeds: Embeds): Records {
    map k | k in pending && embeds(pending[k]) :: pending[k]
  }

  /** What stays pending after a pass: exactly the records that could not be indexed. */
  function Undelivered(pending: Records, embeds: Embeds): Records {
    map k | k in pending && !embeds(pending[k]) :: pending[k]
  }

  /** The entries of the index by composite key; vectors and ids are not part of this model. */
  class VectorIndex {
    var entries: Records

    constructor ()
      ensures entries == map[]
    {
      entries := map[];
    }

    method Upsert(record: DocumentRecord, vectorComputed: bool) returns (ok: bool)
      modifies this
      ensures ok == vectorComputed
      ensures entries == if ok then old(entries)[KeyOf(record) := record] else old(entries)
    {
      ok := vectorComputed;
      if ok {
        entries := entries[KeyOf(record) := record];
      }
    }

    method Remove(collection: ByteString, key: ByteString)
      modifies this
      ensures entries == old(entries) - {CompositeKey(collection, key)}
    {
      entries := entries - {CompositeKey(collection, key)};
    }
  }

  class VectorIndexOutbox {
    const fm: Formats
    const index: VectorIndex
    var pending: Records
    var file: Option<ByteString>
    var succeeded: nat
    var failed: nat

    constructor (fm: Formats, index: VectorIndex, file: Option<ByteString>)
      ensures this.fm == fm && this.index == index && this.file == file && pending == map[]
    {
      this.fm := fm;
      this.index := index;
      this.file := file;
      this.pending := map[];
      this.succeeded := 0;
      this.failed := 0;
    }

    method Recover() returns (status: Status)
      modifies this`pending
      ensures pending == Replay(map[], OutboxContent(fm, file).entries)
      ensures status == OutboxContent(fm, file).status
    {
      pending := map[];
      if file.None? || file.value == [] {
        return Ok;
      }
      ghost var content := OutboxContent(fm, file);
      var decoded := PersistenceCodec.DecodeFrames(file.value);
      if !decoded.Decoded? {
        return FramesStatus(decoded);
      }
      var frames := decoded.frames;
      assert frames[0..] == frames;
      for i := 0 to |frames|
        invariant var rest := BinaryRecords(fm, frames[i..]);
                  Replay(pending, rest.entries) == Replay(map[], content.entries) && rest.status == content.status
      {
        var record := fm.parseRecord(frames[i]);
        if record.None? {
          return BadRecord;
        }
        ghost var rest := BinaryRecords(fm, frames[i + 1..]);
        assert frames[i..][1..] == frames[i + 1..];
        assert ([PutEntry(record.value)] + rest.entries)[1..] == rest.entries;
        pending := pending[KeyOf(record.value) := record.value];
      }
      status := Ok;
    }

    method Rewrite()
      modifies this`file
      ensures file == Some(SnapshotOf(fm, pending))
    {
      var keys := SortedKeys(pending.Keys);
      var output := PersistenceCodec.WriteFrames(PersistenceCodec.MAGIC, RecordPayloads(fm, pending, keys));
      file := Some(output);
    }

    method Enqueue(record: DocumentRecord)
      modifies this`pending, this`file
      ensures pending == old(pending)[KeyOf(record) := record]
      ensures file == Some(SnapshotOf(fm, pending))
    {
      pending := pending[KeyOf(record) := record];
      Rewrite();
    }

    method Remove(collection: ByteString, key: ByteString)
      modifies this`pending, this`file
      ensures pending == old(pending) - {CompositeKey(collection, key)}
      ensures file == Some(SnapshotOf(fm, pending))
    {
      pending := pending - {CompositeKey(collection, key)};
      Rewrite();
    }

    /** One pass over the records that were pending when it started. */
    method DrainOnce(embeds: Embeds)
      requires RangeScan.Keyed(pending)
      modifies this, index
      ensures pending == Undelivered(old(pending), embeds)
      ensures index.entries == old(index.entries) + Delivered(old(pending), embeds)
      ensures file == if pending == old(pending) then old(file) else Some(SnapshotOf(fm, pending))
      ensures succeeded == old(succeeded) + |old(pending)| - |pending|
      ensures failed == old(failed) + |pending|
    {
      hide SnapshotOf, SortedKeys, Waiting, Indexed, Undelivered, Delivered, KeyOf, RangeScan.Keyed, Less;
      ghost var was, entries := pending, index.entries;
      var keys := SortedKeys(pending.Keys);
      DrainStarts(was, entries, keys, embeds);
      for i := 0 to |keys|
        invariant pending == Waiting(was, keys[i..], embeds)
        invariant index.entries == entries + Indexed(was, keys[i..], embeds)
        invariant file == if pending == was then old(file) else Some(SnapshotOf(fm, pending))
        invariant succeeded == old(succeeded) + |was| - |pending|
        invariant failed == old(failed) + i - (succeeded - old(succeeded))
      {
        DrainStep(was, entries, keys, i, embeds);
        var key := keys[i];
        if key !in pending {
          continue;
        }
        var record := pending[key];
        var ok := index.Upsert(record, embeds(record));
        if ok {
          pending := pending - {key};
          succeeded := succeeded + 1;
          Rewrite();
        } else {
          failed := failed + 1;
        }
      }
      DrainEnds(was, keys, embeds);
    }
  }

  /** Pending and indexed records when the keys still to do are the given ones. */
  function Waiting(was: Records, todo: seq<ByteString>, embeds: Embeds): Records {
    map k | k in was && (k in todo || !embeds(was[k])) :: was[k]
  }

  function Indexed(was: Records, todo: seq<ByteString>, embeds: Embeds): Records {
    map k | k in was && k !in todo && embeds(was[k]) :: was[k]
  }

  lemma DrainStarts(was: Records, entries: Records, keys: seq<ByteString>, embeds: Embeds)
    requires forall k :: k in was ==> k in keys
    ensures Waiting(was, keys[0..], embeds) == was && entries + Indexed(was, keys[0..], embeds) == entries
  {
    assert keys[0..] == keys;
    assert Indexed(was, keys, embeds) == map[];
  }

  lemma DrainEnds(was: Records, keys: seq<ByteString>, embeds: Embeds)
    ensures Waiting(was, keys[|keys|..], embeds) == Undelivered(was, embeds)
    ensures Indexed(was, keys[|keys|..], embeds) == Delivered(was, embeds)
  {
  }

  lemma DrainStep(was: Records, entries: Records, keys: seq<ByteString>, i: nat, embeds: Embeds)
    requires RangeScan.Keyed(was) && Ascending(keys) && i < |keys| && keys[i] in was
    ensures var before := Waiting(was, keys[i..], embeds);
            var record := was[keys[i]];
            var ok := embeds(record);
            && keys[i] in before && before[keys[i]] == record && KeyOf(record) == keys[i]
            && Waiting(was, keys[i + 1..], embeds) == (if ok then before - {keys[i]} else before)
            && (ok ==> before - {keys[i]} != was && |before - {keys[i]}| == |before| - 1)
            && entries + Indexed(was, keys[i + 1..], embeds) ==
               if ok then (entries + Indexed(was, keys[i..], embeds))[keys[i] := record]
               else entries + Indexed(was, keys[i..], embeds)
  {
    hide Waiting, Indexed;
    NotAgain(keys, i);
    assert keys[i..] == [keys[i]] + keys[i + 1..];
    WaitingStep(was, keys[i], keys[i + 1..], embeds);
    IndexedStep(was, entries, keys[i], keys[i + 1..], embeds);
    var before := Waiting(was, keys[i..], embeds);
    RemoveShrinks(before, keys[i]);
    assert keys[i] !in before - {keys[i]};
  }

  lemma WaitingStep(was: Records, key: ByteString, rest: seq<ByteString>, embeds: Embeds)
    requires key in was && key !in rest
    ensures var before := Waiting(was, [key] + rest, embeds);
            && key in before && before[key] == was[key]
            && Waiting(was, rest, embeds) == if embeds(was[key]) then before - {key} else before
  {
  }

  lemma IndexedStep(was: Records, entries: Records, key: ByteString, rest: seq<ByteString>, embeds: Embeds)
    requires key in was && key !in rest
    ensures entries + Indexed(was, rest, embeds) ==
            if embeds(was[key]) then (entries + Indexed(was, [key] + rest, embeds))[key := was[key]]
            else entries + Indexed(was, [key] + rest, embeds)
  {
    var before, after := Indexed(was, [key] + rest, embeds), Indexed(was, rest, embeds);
    assert after == if embeds(was[key]) then before[key := was[key]] else before;
  }

  lemma NotAgain(keys: seq<ByteString>, i: nat)
    requires Ascending(keys) && i < |keys|
    ensures keys[i] !in keys[i + 1..]
  {
    if keys[i] in keys[i + 1..] {
      var j :| i + 1 <= j < |keys| && keys[j] == keys[i];
      LessIrreflexive(keys[i]);
    }
  }

  lemma RemoveShrinks(m: Records, k: ByteString)
    requires k in m
    ensures |m - {k}| == |m| - 1
  {
    assert (m - {k}).Keys == m.Keys - {k};
  }

  // ------------------------------------------------------------------ the file

  /** Reopening the file gives back the pending records. */
  ghost predicate FileHolds(fm: Formats, pending: Records, file: Option<ByteString>) {
    OutboxContent(fm, file).status == Ok && Replay(map[], OutboxContent(fm, file).entries) == pending
  }

  /** Whatever was pending when the file was written comes back. */
  lemma RewriteHolds(fm: Formats, pending: Records)
    requires fm.Faithful() && RangeScan.Keyed(pending) && AllFit(fm, pending)
    ensures FileHolds(fm, pending, Some(SnapshotOf(fm, pending)))
  {
    hide Replay, PersistenceCodec.Decode, AllFit, SortedKeys, PersistenceCodec.Concatenated;
    SnapshotReadsBack(fm, pending);
    assert PersistenceCodec.HasMagic(SnapshotOf(fm, pending));
  }
}
