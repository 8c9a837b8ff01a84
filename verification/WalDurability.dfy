/** What recovery rebuilds: after every run of operations, after torn appends, and after the rewrite
    of a log in the older text format. */
module WalDurability {
  import opened ByteStrings
  import opened Documents
  import opened Mutations
  import opened WalLog
  import opened WalStore
  import PersistenceCodec
  import RangeScan

  /** Entries as the store builds them: unused fields empty. */
  predicate Plain(e: WalEntry) {
    e == match e.operation
         case Put => PutEntry(e.record)
         case Delete => DeleteEntry(e.collection, e.key)
  }

  predicate AllPlain(es: seq<WalEntry>) {
    forall i :: 0 <= i < |es| ==> Plain(es[i])
  }

  predicate Fits(fm: Formats, es: seq<WalEntry>) {
    forall i :: 0 <= i < |es| ==> |EncodeWalEntry(fm, es[i])| < PersistenceCodec.WORD
  }

  lemma FitsIsShort(fm: Formats, es: seq<WalEntry>)
    requires Fits(fm, es)
    ensures PersistenceCodec.Short(Payloads(fm, es))
  {
  }

  lemma PlainRoundTrip(fm: Formats, e: WalEntry)
    requires fm.Faithful() && Plain(e)
    ensures DecodeWalEntry(fm, EncodeWalEntry(fm, e)) == Some(e)
  {
    WalEntryRoundTrip(fm, e, map[]);
  }

  // ------------------------------------------------------------------ file contents

  lemma {:induction false} BinaryEntriesAppend(fm: Formats, frames: seq<ByteString>, es: seq<WalEntry>)
    requires fm.Faithful() && AllPlain(es)
    requires BinaryEntries(fm, frames).status == Ok
    ensures BinaryEntries(fm, frames + Payloads(fm, es)) == LogResult(BinaryEntries(fm, frames).entries + es, Ok)
    decreases |frames| + |es|
  {
    var all := frames + Payloads(fm, es);
    if frames != [] {
      assert all[0] == frames[0] && all[1..] == frames[1..] + Payloads(fm, es);
      BinaryEntriesAppend(fm, frames[1..], es);
      var rest := BinaryEntries(fm, frames[1..]).entries;
      var e := DecodeWalEntry(fm, frames[0]).value;
      assert [e] + (rest + es) == ([e] + rest) + es;
    } else if es != [] {
      PlainRoundTrip(fm, es[0]);
      assert all[0] == EncodeWalEntry(fm, es[0]) && all[1..] == [] + Payloads(fm, es[1..]);
      BinaryEntriesAppend(fm, [], es[1..]);
      assert [es[0]] + ([] + es[1..]) == [] + es;
    } else {
      assert all == [];
    }
  }

  /** A readable log that is not in the text format is a (possibly missing) header and whole frames. */
  lemma WalFrames(fm: Formats, wal: Option<ByteString>) returns (frames: seq<ByteString>)
    requires !IsLegacy(wal) && WalContent(fm, wal).status == Ok
    ensures PersistenceCodec.Short(frames)
    ensures WalContent(fm, wal) == BinaryEntries(fm, frames)
    ensures wal.None? || wal.value == [] ==> frames == []
    ensures wal.Some? && wal.value != [] ==> wal.value == PersistenceCodec.MAGIC + PersistenceCodec.Concatenated(frames)
  {
    if wal.None? || wal.value == [] {
      frames := [];
    } else {
      frames := PersistenceCodec.Decode(wal.value).frames;
      PersistenceCodec.AcceptedIsCanonical(wal.value, frames);
    }
  }

  /** The bytes of a log file with its new frames. */
  lemma AppendedBytes(fm: Formats, wal: Option<ByteString>, live: Records, es: seq<WalEntry>, frames: seq<ByteString>)
    requires !IsLegacy(wal)
    requires wal.None? || wal.value == [] ==> frames == []
    requires wal.Some? && wal.value != [] ==>
               wal.value == PersistenceCodec.MAGIC + PersistenceCodec.Concatenated(frames)
    ensures Appended(fm, wal, live, es) ==
            PersistenceCodec.MAGIC + PersistenceCodec.Concatenated(frames + Payloads(fm, es))
    ensures wal.Some? && wal.value != [] ==> |PersistenceCodec.MAGIC| <= |wal.value|
  {
    hide Payloads, EncodeWalEntry;
    var added := Payloads(fm, es);
    PersistenceCodec.ConcatenatedAppend(frames, added);
    assert frames == [] ==> frames + added == added;
    hide PersistenceCodec.Concatenated;
  }

  lemma ShortConcat(a: seq<ByteString>, b: seq<ByteString>)
    requires PersistenceCodec.Short(a) && PersistenceCodec.Short(b)
    ensures PersistenceCodec.Short(a + b)
  {
  }

  /** An append adds exactly the new entries to what the file means. */
  lemma AppendContent(fm: Formats, wal: Option<ByteString>, live: Records, es: seq<WalEntry>)
    requires fm.Faithful() && !IsLegacy(wal) && AllPlain(es) && Fits(fm, es)
    requires WalContent(fm, wal).status == Ok
    ensures WalContent(fm, Some(Appended(fm, wal, live, es))) == LogResult(WalContent(fm, wal).entries + es, Ok)
    ensures !IsLegacy(Some(Appended(fm, wal, live, es)))
  {
    var frames := WalFrames(fm, wal);
    var added := Payloads(fm, es);
    AppendedBytes(fm, wal, live, es, frames);
    FitsIsShort(fm, es);
    ShortConcat(frames, added);
    PersistenceCodec.FileReadsBack(frames + added);
    BinaryEntriesAppend(fm, frames, es);
    var file := Appended(fm, wal, live, es);
    hide Payloads, Appended, BinaryEntries, Lines, TextEntries, PersistenceCodec.Decode, PersistenceCodec.Concatenated,
        PersistenceCodec.HasMagic;
    assert WalContent(fm, Some(file)) == BinaryEntries(fm, frames + added);
  }

  lemma {:induction false} LiveTouch(m: Records, keys: seq<ByteString>, k: ByteString)
    requires RangeScan.Keyed(m) && forall i :: 0 <= i < |keys| ==> keys[i] in m
    ensures LastTouch(LiveEntries(m, keys), k) == if k in keys then Some(Some(m[k])) else None
    decreases keys
  {
    if keys != [] {
      assert LiveEntries(m, keys)[1..] == LiveEntries(m, keys[1..]);
      LiveTouch(m, keys[1..], k);
      assert k in keys <==> k == keys[0] || k in keys[1..];
    }
  }

  /** Replaying the puts of all live records lays the live map over the base. */
  lemma ReplayLive(base: Records, m: Records)
    requires RangeScan.Keyed(m)
    ensures Replay(base, LiveEntries(m, SortedKeys(m.Keys))) == base + m
  {
    var keys := SortedKeys(m.Keys);
    var result := Replay(base, LiveEntries(m, keys));
    forall k ensures Lookup(result, k) == Lookup(base + m, k) {
      LastWriterWins(base, LiveEntries(m, keys), k);
      LiveTouch(m, keys, k);
    }
    SameLookups(result, base + m);
  }

  predicate RecordFits(fm: Formats, r: DocumentRecord) {
    && |fm.recordBytes(r)| < PersistenceCodec.WORD
    && |EncodeWalEntry(fm, PutEntry(r))| < PersistenceCodec.WORD
  }

  predicate AllFit(fm: Formats, m: Records) {
    forall k :: k in m ==> RecordFits(fm, m[k])
  }

  lemma {:induction false} BinaryRecordsOf(fm: Formats, m: Records, keys: seq<ByteString>)
    requires fm.Faithful() && forall i :: 0 <= i < |keys| ==> keys[i] in m
    ensures BinaryRecords(fm, RecordPayloads(fm, m, keys)) == LogResult(LiveEntries(m, keys), Ok)
    decreases keys
  {
    var payloads := RecordPayloads(fm, m, keys);
    if keys != [] {
      assert fm.parseRecord(fm.recordBytes(m[keys[0]])) == Some(m[keys[0]]);
      assert payloads[1..] == RecordPayloads(fm, m, keys[1..]);
      BinaryRecordsOf(fm, m, keys[1..]);
      assert LiveEntries(m, keys) == [PutEntry(m[keys[0]])] + LiveEntries(m, keys[1..]);
    }
  }

  lemma SnapshotFrames(fm: Formats, m: Records)
    requires fm.Faithful() && AllFit(fm, m)
    ensures SnapshotContent(fm, Some(SnapshotOf(fm, m))) == LogResult(LiveEntries(m, SortedKeys(m.Keys)), Ok)
  {
    hide SortedKeys, BinaryRecords, PersistenceCodec.Decode, PersistenceCodec.HasMagic, PersistenceCodec.Concatenated,
        Lines;
    var keys := SortedKeys(m.Keys);
    var payloads := RecordPayloads(fm, m, keys);
    forall p | p in payloads ensures |p| < PersistenceCodec.WORD {
      var i :| 0 <= i < |payloads| && payloads[i] == p;
      assert RecordFits(fm, m[keys[i]]);
    }
    PersistenceCodec.FileReadsBack(payloads);
    BinaryRecordsOf(fm, m, keys);
  }

  /** A snapshot reads back as the map it was taken of. */
  lemma SnapshotReadsBack(fm: Formats, m: Records)
    requires fm.Faithful() && RangeScan.Keyed(m) && AllFit(fm, m)
    ensures SnapshotContent(fm, Some(SnapshotOf(fm, m))).status == Ok
    ensures Replay(map[], SnapshotContent(fm, Some(SnapshotOf(fm, m))).entries) == m
  {
    hide SnapshotContent, SnapshotOf, SortedKeys, RecordFits;
    SnapshotFrames(fm, m);
    ReplayLive(map[], m);
    assert map[] + m == m;
  }

  // ------------------------------------------------------------------ durability of every run

  /** Reopening the files would rebuild exactly the map in memory. */
  ghost predicate Durable(fm: Formats, st: Store) {
    RecoverFrom(fm, st.disk) == Recovered(st.records, Ok)
  }

  ghost predicate Good(fm: Formats, st: Store) {
    && RangeScan.Keyed(st.records)
    && AllFit(fm, st.records)
    && !IsLegacy(st.disk.wal)
    && Durable(fm, st)
  }

  /** Logging the entries that lead from the old map to the new one keeps the store durable. */
  lemma LoggedIsDurable(fm: Formats, st: Store, records: Records, es: seq<WalEntry>)
    requires fm.Faithful() && Durable(fm, st) && !IsLegacy(st.disk.wal)
    requires AllPlain(es) && Fits(fm, es) && records == Replay(st.records, es)
    ensures Durable(fm, Logged(fm, st, records, es)) && !IsLegacy(Logged(fm, st, records, es).disk.wal)
  {
    AppendContent(fm, st.disk.wal, records, es);
    var base := Replay(map[], SnapshotContent(fm, st.disk.snapshot).entries);
    ReplayConcat(base, WalContent(fm, st.disk.wal).entries, es);
  }

  /** A snapshot of the current map under the untruncated log: replay is idempotent. The snapshot alone
      would do as well, and neither map nor log changes. */
  lemma FlushIsDurable(fm: Formats, st: Store)
    requires fm.Faithful() && RangeScan.Keyed(st.records) && AllFit(fm, st.records) && Durable(fm, st)
    ensures Durable(fm, AfterFlush(fm, st))
    ensures RecoverFrom(fm, Disk(None, AfterFlush(fm, st).disk.snapshot)) == Recovered(st.records, Ok)
    ensures AfterFlush(fm, st).records == st.records && AfterFlush(fm, st).disk.wal == st.disk.wal
  {
    hide SnapshotContent, SnapshotOf;
    SnapshotReadsBack(fm, st.records);
    NothingReplayed(st.records);
    var base := Replay(map[], SnapshotContent(fm, st.disk.snapshot).entries);
    ReplayIdempotent(base, WalContent(fm, st.disk.wal).entries);
  }

  lemma {:induction false} StageReplays(s: Staging, rs: seq<DocumentRecord>, m: Records)
    requires Stage(s, rs).Staged?
    requires s.records == Replay(m, PutEntries(s.applied))
    ensures Stage(s, rs).records == Replay(m, PutEntries(Stage(s, rs).applied))
    ensures forall r :: r in Stage(s, rs).applied ==> r in s.applied || r in rs
    decreases rs
  {
    if rs != [] {
      var r := rs[0];
      var k := KeyOf(r);
      assert forall x :: x in rs[1..] ==> x in rs;
      match Decide(Lookup(s.records, k), r)
      case Ignore =>
        StageReplays(s.(seen := s.seen + {k}), rs[1..], m);
      case Accept =>
        assert PutEntries(s.applied + [r]) == PutEntries(s.applied) + [PutEntry(r)];
        ReplayConcat(m, PutEntries(s.applied), [PutEntry(r)]);
        assert Replay(s.records, [PutEntry(r)]) == s.records[k := r] by { assert [PutEntry(r)][1..] == []; }
        StageReplays(Staging(s.records[k := r], s.seen + {k}, s.applied + [r]), rs[1..], m);
      case Reject =>
    }
  }

  lemma {:induction false} ReplayPutsKeyed(m: Records, rs: seq<DocumentRecord>, fm: Formats)
    requires RangeScan.Keyed(m) && AllFit(fm, m) && forall i :: 0 <= i < |rs| ==> RecordFits(fm, rs[i])
    ensures RangeScan.Keyed(Replay(m, PutEntries(rs))) && AllFit(fm, Replay(m, PutEntries(rs)))
    decreases rs
  {
    if rs != [] {
      assert PutEntries(rs)[1..] == PutEntries(rs[1..]);
      ReplayPutsKeyed(m[KeyOf(rs[0]) := rs[0]], rs[1..], fm);
    }
  }

  /** The operations of a run; a restart drops the map and recovers from the files. */
  datatype Op =
    | PutOp(record: DocumentRecord)
    | BatchOp(batch: seq<DocumentRecord>)
    | DeleteOp(collection: ByteString, key: ByteString)
    | FlushOp
    | RestartOp

  function StepStore(fm: Formats, st: Store, op: Op): Store {
    match op
    case PutOp(r) => AfterPut(fm, st, r).0
    case BatchOp(rs) => AfterBatch(fm, st, rs).0
    case DeleteOp(c, k) => AfterDelete(fm, st, c, k)
    case FlushOp => AfterFlush(fm, st)
    case RestartOp => st.(records := RecoverFrom(fm, st.disk).records)
  }

  /** The same operations on a plain map: flushing and restarting are invisible. */
  function StepMap(m: Records, op: Op): Records {
    match op
    case PutOp(r) => PutAt(m, KeyOf(r), r)
    case BatchOp(rs) => (match StageBatch(m, rs) case Staged(after, _) => after case Refused(_) => m)
    case DeleteOp(c, k) => m - {CompositeKey(c, k)}
    case FlushOp => m
    case RestartOp => m
  }

  predicate OpFits(fm: Formats, op: Op) {
    match op
    case PutOp(r) => RecordFits(fm, r)
    case BatchOp(rs) => forall i :: 0 <= i < |rs| ==> RecordFits(fm, rs[i])
    case DeleteOp(c, k) => |EncodeWalEntry(fm, DeleteEntry(c, k))| < PersistenceCodec.WORD
    case FlushOp => true
    case RestartOp => true
  }

  lemma PutRefines(fm: Formats, st: Store, r: DocumentRecord)
    requires fm.Faithful() && Good(fm, st) && RecordFits(fm, r)
    ensures Good(fm, AfterPut(fm, st, r).0)
    ensures AfterPut(fm, st, r).0.records == StepMap(st.records, PutOp(r))
  {
    if Decide(Lookup(st.records, KeyOf(r)), r) == Accept {
      assert [PutEntry(r)][1..] == [];
      LoggedIsDurable(fm, st, st.records[KeyOf(r) := r], [PutEntry(r)]);
    }
  }

  lemma DeleteRefines(fm: Formats, st: Store, c: ByteString, k: ByteString)
    requires fm.Faithful() && Good(fm, st) && OpFits(fm, DeleteOp(c, k))
    ensures Good(fm, AfterDelete(fm, st, c, k))
  {
    assert [DeleteEntry(c, k)][1..] == [];
    LoggedIsDurable(fm, st, st.records - {CompositeKey(c, k)}, [DeleteEntry(c, k)]);
  }

  lemma BatchRefines(fm: Formats, st: Store, rs: seq<DocumentRecord>)
    requires fm.Faithful() && Good(fm, st) && OpFits(fm, BatchOp(rs))
    ensures Good(fm, AfterBatch(fm, st, rs).0)
    ensures AfterBatch(fm, st, rs).0.records == StepMap(st.records, BatchOp(rs))
  {
    if StageBatch(st.records, rs).Staged? {
      StageReplays(Staging(st.records, {}, []), rs, st.records);
      var after, applied := StageBatch(st.records, rs).records, StageBatch(st.records, rs).applied;
      forall i | 0 <= i < |applied| ensures RecordFits(fm, applied[i]) {
        assert applied[i] in applied;
      }
      if applied != [] {
        ReplayPutsKeyed(st.records, applied, fm);
        LoggedIsDurable(fm, st, after, PutEntries(applied));
      }
    }
  }

  /** One operation keeps the store recoverable and acts on it as on a plain map. */
  lemma StepRefines(fm: Formats, st: Store, op: Op)
    requires fm.Faithful() && Good(fm, st) && OpFits(fm, op)
    ensures Good(fm, StepStore(fm, st, op))
    ensures StepStore(fm, st, op).records == StepMap(st.records, op)
  {
    match op
    case PutOp(r) => PutRefines(fm, st, r);
    case BatchOp(rs) => BatchRefines(fm, st, rs);
    case DeleteOp(c, k) => DeleteRefines(fm, st, c, k);
    case FlushOp => FlushIsDurable(fm, st);
    case RestartOp =>
  }

  function RunStore(fm: Formats, st: Store, ops: seq<Op>): Store
    decreases ops
  {
    if ops == [] then st else RunStore(fm, StepStore(fm, st, ops[0]), ops[1..])
  }

  function RunMap(m: Records, ops: seq<Op>): Records
    decreases ops
  {
    if ops == [] then m else RunMap(StepMap(m, ops[0]), ops[1..])
  }

  /** For every run, with flushes and restarts anywhere, the map in memory is the plain map of the
      run, and recovery from the files would rebuild exactly that map. */
  lemma {:induction false} RunRefines(fm: Formats, st: Store, ops: seq<Op>)
    requires fm.Faithful() && Good(fm, st)
    requires forall i :: 0 <= i < |ops| ==> OpFits(fm, ops[i])
    ensures RunStore(fm, st, ops).records == RunMap(st.records, ops)
    ensures RecoverFrom(fm, RunStore(fm, st, ops).disk) == Recovered(RunMap(st.records, ops), Ok)
    decreases ops
  {
    if ops != [] {
      StepRefines(fm, st, ops[0]);
      RunRefines(fm, StepStore(fm, st, ops[0]), ops[1..]);
    }
  }

  /** A store without files is a good place to start. */
  lemma FreshStoreIsGood(fm: Formats)
    ensures Good(fm, Store(map[], Disk(None, None)))
  {
  }

  // ------------------------------------------------------------------ torn appends

  /** A file without a newline is one line. */
  lemma OneLine(file: ByteString)
    requires file != [] && forall i :: 0 <= i < |file| ==> file[i] != NEWLINE
    ensures Lines(file) == [file]
  {
    assert LineEnd(file) == |file|;
    assert file[..|file|] == file;
  }

  /** No part of the header is a put or a delete in the text format. */
  lemma HeaderIsSkipped(fm: Formats, n: nat)
    requires n < |PersistenceCodec.MAGIC|
    ensures TextLine(fm, PersistenceCodec.MAGIC[..n]) == Skipped
    ensures forall i :: 0 <= i < n ==> PersistenceCodec.MAGIC[..n][i] != NEWLINE
  {
    var line := PersistenceCodec.MAGIC[..n];
    assert n >= 2 ==> line[1] == PersistenceCodec.MAGIC[1] == 86;
    assert forall i :: 0 <= i < 8 ==> PersistenceCodec.MAGIC[i] != NEWLINE;
  }

  lemma SkippedLineIsEmpty(fm: Formats, line: ByteString)
    requires TextLine(fm, line) == Skipped
    ensures TextEntries(fm, [line]) == LogResult([], Ok)
  {
    assert [line][1..] == [];
  }

  /** A log that holds only a part of the first header means nothing, and is not an error. */
  lemma TornHeaderIsEmpty(fm: Formats, n: nat)
    requires n < |PersistenceCodec.MAGIC|
    ensures WalContent(fm, Some(PersistenceCodec.MAGIC[..n])) == LogResult([], Ok)
  {
    hide TextLine;
    var file: ByteString := PersistenceCodec.MAGIC[..n];
    assert !PersistenceCodec.HasMagic(file);
    assert WalContent(fm, Some(file)) == TextEntries(fm, Lines(file));
    if n == 0 {
      assert file == [];
    } else {
      HeaderIsSkipped(fm, n);
      hide TextEntries, Lines;
      OneLine(file);
      SkippedLineIsEmpty(fm, file);
    }
  }

  /** The first n bytes of the file are what appending the first j entries alone would have left. */
  ghost predicate KeepsWhole(fm: Formats, wal: Option<ByteString>, live: Records, es: seq<WalEntry>, j: nat, n: nat) {
    j <= |es| && n == |Appended(fm, wal, live, es[..j])|
  }

  lemma ShorterAppend(fm: Formats, wal: Option<ByteString>, live: Records, es: seq<WalEntry>, j: nat)
    requires !IsLegacy(wal) && j <= |es|
    ensures Appended(fm, wal, live, es[..j]) <= Appended(fm, wal, live, es)
  {
    hide EncodeWalEntry;
    var front, rest := Payloads(fm, es[..j]), Payloads(fm, es[j..]);
    assert Payloads(fm, es) == front + rest;
    PersistenceCodec.ConcatenatedAppend(front, rest);
    hide PersistenceCodec.Concatenated;
  }

  /** Whole entries are read as they were written. */
  lemma WholeEntriesRead(fm: Formats, wal: Option<ByteString>, live: Records, es: seq<WalEntry>, j: nat, n: nat)
    requires fm.Faithful() && !IsLegacy(wal) && AllPlain(es) && Fits(fm, es)
    requires WalContent(fm, wal).status == Ok && KeepsWhole(fm, wal, live, es, j, n)
    ensures n <= |Appended(fm, wal, live, es)|
    ensures WalContent(fm, Some(Appended(fm, wal, live, es)[..n])) ==
              LogResult(WalContent(fm, wal).entries + es[..j], Ok)
  {
    ShorterAppend(fm, wal, live, es, j);
    hide Appended, WalContent, IsLegacy, EncodeWalEntry;
    AppendContent(fm, wal, live, es[..j]);
    assert Appended(fm, wal, live, es)[..n] == Appended(fm, wal, live, es[..j]);
  }

  /** A stream of old and new frames, cut behind the old ones, decodes only between two frames. */
  lemma CutBetweenFrames(frames: seq<ByteString>, added: seq<ByteString>, cut: nat) returns (j: nat)
    requires PersistenceCodec.Short(frames + added)
    requires |PersistenceCodec.Concatenated(frames)| <= cut <= |PersistenceCodec.Concatenated(frames + added)|
    requires PersistenceCodec.Parse(PersistenceCodec.Concatenated(frames + added)[..cut]).Decoded?
    ensures j <= |added| && cut == |PersistenceCodec.Concatenated(frames + added[..j])|
  {
    hide PersistenceCodec.Parse, PersistenceCodec.Concatenated;
    var all := frames + added;
    var i := PersistenceCodec.CutBoundary(all, cut);
    assert |frames| <= i by {
      if i < |frames| {
        assert frames[..i] == all[..i];
        PersistenceCodec.ConcatenatedGrows(frames, i);
      }
    }
    j := i - |frames|;
    assert all[..i] == frames + added[..j];
  }

  /** A log that has its header and is cut inside the last append reads without an error only if the
      cut falls between two entries. */
  lemma ReadsOnlyWhole(fm: Formats, wal: Option<ByteString>, live: Records, es: seq<WalEntry>, n: nat) returns (j: nat)
    requires !IsLegacy(wal) && Fits(fm, es) && WalContent(fm, wal).status == Ok
    requires (if wal.None? then 0 else |wal.value|) <= n <= |Appended(fm, wal, live, es)|
               && |PersistenceCodec.MAGIC| <= n
    requires WalContent(fm, Some(Appended(fm, wal, live, es)[..n])).status == Ok
    ensures KeepsWhole(fm, wal, live, es, j, n)
  {
    hide BinaryEntries, Lines, TextEntries, EncodeWalEntry, PersistenceCodec.Parse, PersistenceCodec.Concatenated,
        Appended;
    var frames := WalFrames(fm, wal);
    AppendedBytes(fm, wal, live, es, frames);
    var header := |PersistenceCodec.MAGIC|;
    var added := Payloads(fm, es);
    var all := PersistenceCodec.Concatenated(frames + added);
    var file := Appended(fm, wal, live, es);
    HeaderThenFrames(all, n);
    FitsIsShort(fm, es);
    ShortConcat(frames, added);
    OldFramesFirst(fm, wal, live, es, frames);
    j := CutBetweenFrames(frames, added, n - header);
    AppendedBytes(fm, wal, live, es[..j], frames);
    assert added[..j] == Payloads(fm, es[..j]);
  }

  lemma HeaderThenFrames(all: ByteString, n: nat)
    requires |PersistenceCodec.MAGIC| <= n <= |PersistenceCodec.MAGIC + all|
    ensures var cut := (PersistenceCodec.MAGIC + all)[..n];
            && PersistenceCodec.HasMagic(cut)
            && PersistenceCodec.Decode(cut) == PersistenceCodec.Parse(all[..n - |PersistenceCodec.MAGIC|])
  {
    hide PersistenceCodec.Parse;
    var header := |PersistenceCodec.MAGIC|;
    var cut := (PersistenceCodec.MAGIC + all)[..n];
    assert cut == PersistenceCodec.MAGIC + all[..n - header];
    assert cut[header..] == all[..n - header];
  }

  /** The old file is the header and the old frames, if it is not empty. */
  lemma OldFramesFirst(fm: Formats, wal: Option<ByteString>, live: Records, es: seq<WalEntry>, frames: seq<ByteString>)
    requires wal.None? || wal.value == [] ==> frames == []
    requires wal.Some? && wal.value != [] ==>
               wal.value == PersistenceCodec.MAGIC + PersistenceCodec.Concatenated(frames)
    ensures wal.None? || wal.value == [] ==> |PersistenceCodec.Concatenated(frames)| == 0
    ensures wal.Some? && wal.value != [] ==>
              |wal.value| == |PersistenceCodec.MAGIC| + |PersistenceCodec.Concatenated(frames)|
  {
  }

  /** Cut inside the header that its first append wrote, a log reads as empty. */
  lemma CutInHeader(fm: Formats, wal: Option<ByteString>, live: Records, es: seq<WalEntry>, n: nat)
    requires !IsLegacy(wal) && (if wal.None? then 0 else |wal.value|) <= n <= |Appended(fm, wal, live, es)|
    requires n < |PersistenceCodec.MAGIC|
    ensures WalContent(fm, Some(Appended(fm, wal, live, es)[..n])) == LogResult([], Ok)
    ensures WalContent(fm, wal).status == Ok ==> WalContent(fm, wal).entries == []
  {
    hide TextEntries, BinaryEntries, PersistenceCodec.Concatenated, PersistenceCodec.Decode;
    assert wal.None? || wal.value == [];
    assert Appended(fm, wal, live, es)[..n] == PersistenceCodec.MAGIC[..n];
    TornHeaderIsEmpty(fm, n);
    if wal.Some? {
      assert PersistenceCodec.MAGIC[..0] == wal.value;
      TornHeaderIsEmpty(fm, 0);
    }
  }

  /** Cutting the log anywhere inside its last append makes recovery fail, or rebuilds the state
      after some prefix of that append's entries; nothing else. Exactly: it succeeds if the cut is
      inside a header that this append wrote, and then nothing of the append is left, or if the cut
      falls behind one of its entries, and then the entries up to there are. */
  lemma TornAppend(fm: Formats, disk: Disk, live: Records, es: seq<WalEntry>, n: nat)
    requires fm.Faithful() && !IsLegacy(disk.wal) && AllPlain(es) && Fits(fm, es)
    requires RecoverFrom(fm, disk).status == Ok
    requires (if disk.wal.None? then 0 else |disk.wal.value|) <= n <= |Appended(fm, disk.wal, live, es)|
    ensures var before := RecoverFrom(fm, disk).records;
            var torn := RecoverFrom(fm, disk.(wal := Some(Appended(fm, disk.wal, live, es)[..n])));
            && (torn.status == Ok ==> exists j: nat :: j <= |es| && torn.records == Replay(before, es[..j]))
            && (torn.status == Ok <==>
                n < |PersistenceCodec.MAGIC| || exists j: nat :: KeepsWhole(fm, disk.wal, live, es, j, n))
            && (n < |PersistenceCodec.MAGIC| ==> torn.records == before)
            && (forall j: nat :: KeepsWhole(fm, disk.wal, live, es, j, n) ==> torn.records == Replay(before, es[..j]))
  {
    hide WalContent, SnapshotContent, Appended, Replay, IsLegacy, EncodeWalEntry, KeepsWhole;
    var file := Appended(fm, disk.wal, live, es);
    var before := RecoverFrom(fm, disk).records;
    var torn := RecoverFrom(fm, disk.(wal := Some(file[..n])));
    forall j: nat | KeepsWhole(fm, disk.wal, live, es, j, n)
      ensures j <= |es| && torn == Recovered(Replay(before, es[..j]), Ok)
    {
      WholeIsRebuilt(fm, disk, live, es, j, n);
    }
    if n < |PersistenceCodec.MAGIC| {
      CutInHeader(fm, disk.wal, live, es, n);
      assert torn == Recovered(before, Ok) && Replay(before, es[..0]) == before by {
        ReplayNothing(before, es);
      }
    } else if torn.status == Ok {
      var j := ReadsOnlyWhole(fm, disk.wal, live, es, n);
    }
  }

  lemma ReplayNothing(m: Records, es: seq<WalEntry>)
    ensures Replay(m, es[..0]) == m
  {
  }

  lemma WholeIsRebuilt(fm: Formats, disk: Disk, live: Records, es: seq<WalEntry>, j: nat, n: nat)
    requires fm.Faithful() && !IsLegacy(disk.wal) && AllPlain(es) && Fits(fm, es)
    requires RecoverFrom(fm, disk).status == Ok && KeepsWhole(fm, disk.wal, live, es, j, n)
    ensures j <= |es| && n <= |Appended(fm, disk.wal, live, es)|
    ensures RecoverFrom(fm, disk.(wal := Some(Appended(fm, disk.wal, live, es)[..n]))) ==
            Recovered(Replay(RecoverFrom(fm, disk).records, es[..j]), Ok)
  {
    WholeEntriesRead(fm, disk.wal, live, es, j, n);
    hide WalContent, SnapshotContent, Appended, Replay, IsLegacy, EncodeWalEntry;
    var base := Replay(map[], SnapshotContent(fm, disk.snapshot).entries);
    ReplayConcat(base, WalContent(fm, disk.wal).entries, es[..j]);
  }

  // ------------------------------------------------------------------ the rewrite of a text log

  lemma FreshLogContent(fm: Formats, es: seq<WalEntry>)
    requires fm.Faithful() && AllPlain(es) && Fits(fm, es)
    ensures WalContent(fm, Some(PersistenceCodec.MAGIC + PersistenceCodec.Concatenated(Payloads(fm, es)))) ==
              LogResult(es, Ok)
  {
    FitsIsShort(fm, es);
    PersistenceCodec.FileReadsBack(Payloads(fm, es));
    BinaryEntriesAppend(fm, [], es);
    assert [] + Payloads(fm, es) == Payloads(fm, es) && [] + es == es;
  }

  /** The append that replaces a log in the older text format keeps the store durable exactly when
      every key of the snapshot is still live: the rewrite logs no deletions. */
  lemma LegacyRewriteExactly(fm: Formats, st: Store, records: Records, es: seq<WalEntry>)
    requires fm.Faithful() && IsLegacy(st.disk.wal)
    requires RangeScan.Keyed(records) && AllFit(fm, records)
    requires SnapshotContent(fm, st.disk.snapshot).status == Ok
    ensures var base := Replay(map[], SnapshotContent(fm, st.disk.snapshot).entries);
            var after := Logged(fm, st, records, es);
            && RecoverFrom(fm, after.disk) == Recovered(base + records, Ok)
            && (Durable(fm, after) <==> base.Keys <= records.Keys)
  {
    RewriteRecovers(fm, st, records, es);
    assert Logged(fm, st, records, es).records == records;
    hide SnapshotContent, WalContent, Replay, RecoverFrom, IsLegacy, RangeScan.Keyed, AllFit, Logged;
    MergeIsSame(Replay(map[], SnapshotContent(fm, st.disk.snapshot).entries), records);
  }

  lemma MergeIsSame(base: Records, live: Records)
    ensures base + live == live <==> base.Keys <= live.Keys
  {
    if base.Keys <= live.Keys {
      assert base + live == live;
    } else {
      var k :| k in base && k !in live;
      assert k in base + live;
    }
  }

  lemma RewriteRecovers(fm: Formats, st: Store, records: Records, es: seq<WalEntry>)
    requires fm.Faithful() && IsLegacy(st.disk.wal)
    requires RangeScan.Keyed(records) && AllFit(fm, records)
    requires SnapshotContent(fm, st.disk.snapshot).status == Ok
    ensures RecoverFrom(fm, Logged(fm, st, records, es).disk) ==
            Recovered(Replay(map[], SnapshotContent(fm, st.disk.snapshot).entries) + records, Ok)
  {
    hide SnapshotContent, WalContent, SortedKeys;
    var keys := SortedKeys(records.Keys);
    var live := LiveEntries(records, keys);
    forall i | 0 <= i < |live| ensures |EncodeWalEntry(fm, live[i])| < PersistenceCodec.WORD {
      assert RecordFits(fm, records[keys[i]]);
    }
    assert Fits(fm, live) && AllPlain(live);
    FreshLogContent(fm, live);
    ReplayLive(Replay(map[], SnapshotContent(fm, st.disk.snapshot).entries), records);
  }

  /** So a header torn off the first append followed by a delete brings the record back. */
  lemma TornHeaderResurrects(fm: Formats, r: DocumentRecord)
    requires fm.Faithful() && RecordFits(fm, r)
    ensures var m: Records := map[KeyOf(r) := r];
            var st := Store(m, Disk(Some(PersistenceCodec.MAGIC[..4]), Some(SnapshotOf(fm, m))));
            var after := AfterDelete(fm, st, r.collection, r.key);
            && Durable(fm, st)
            && KeyOf(r) !in after.records
            && RecoverFrom(fm, after.disk) == Recovered(m, Ok)
  {
    hide SnapshotContent, SnapshotOf, SortedKeys, WalContent, Replay, Appended, IsLegacy, RecordFits;
    var m: Records := map[KeyOf(r) := r];
    var st := Store(m, Disk(Some(PersistenceCodec.MAGIC[..4]), Some(SnapshotOf(fm, m))));
    SnapshotReadsBack(fm, m);
    TornHeaderIsEmpty(fm, 4);
    PartOfHeaderIsLegacy();
    assert Replay(m, []) == m by {
      NothingReplayed(m);
    }
    var gone: Records := map[];
    assert m - {KeyOf(r)} == gone && m + gone == m;
    LegacyRewriteExactly(fm, st, gone, [DeleteEntry(r.collection, r.key)]);
  }

  lemma PartOfHeaderIsLegacy()
    ensures IsLegacy(Some(PersistenceCodec.MAGIC[..4]))
  {
  }

  lemma NothingReplayed(m: Records)
    ensures Replay(m, []) == m
  {
  }
}
