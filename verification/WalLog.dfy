/** Log entries, the payload formats behind them, and what replaying a log does to the record map. */
module WalLog {
  import opened ByteStrings
  import opened Documents
  import opened Mutations
  import PersistenceCodec
  import RangeScan

  type Records = RangeScan.Records

  lemma SameLookups(a: Records, b: Records)
    requires forall k :: Lookup(a, k) == Lookup(b, k)
    ensures a == b
  {
    forall k ensures k in a <==> k in b {
      assert Lookup(a, k) == Lookup(b, k);
    }
    forall k | k in a ensures a[k] == b[k] {
      assert Lookup(a, k) == Lookup(b, k);
    }
  }

  // ------------------------------------------------------------------ entries and their wire form

  datatype WalOperation = Put | Delete

  datatype WalEntry = WalEntry(operation: WalOperation, record: DocumentRecord, collection: ByteString, key: ByteString)

  function PutEntry(r: DocumentRecord): WalEntry {
    WalEntry(Put, r, [], [])
  }

  function DeleteEntry(collection: ByteString, key: ByteString): WalEntry {
    WalEntry(Delete, EMPTY_RECORD, collection, key)
  }

  /** The Protobuf message of an entry; unset fields hold their defaults. */
  datatype WireOperation = Unspecified | WirePut | WireDelete
  datatype WireEntry = WireEntry(operation: WireOperation, record: DocumentRecord, collection: ByteString,
                                 key: ByteString)

  /** The byte formats this model takes as given: Protobuf serialisation and parsing of records and
      entries, and the parser of the older text lines. */
  datatype Formats = Formats(
    recordBytes: DocumentRecord -> ByteString,
    parseRecord: ByteString -> Option<DocumentRecord>,
    entryBytes: WireEntry -> ByteString,
    parseEntry: ByteString -> Option<WireEntry>,
    textRecord: ByteString -> Option<DocumentRecord>,
    textDelete: ByteString -> Option<(ByteString, ByteString)>)
  {
    /** Parsing undoes serialising. */
    ghost predicate Faithful() {
      && (forall r :: parseRecord(recordBytes(r)) == Some(r))
      && (forall e :: parseEntry(entryBytes(e)) == Some(e))
    }
  }

  function EncodeWalEntry(fm: Formats, e: WalEntry): ByteString {
    fm.entryBytes(match e.operation
                  case Put => WireEntry(WirePut, e.record, [], [])
                  case Delete => WireEntry(WireDelete, EMPTY_RECORD, e.collection, e.key))
  }

  function DecodeWalEntry(fm: Formats, payload: ByteString): Option<WalEntry> {
    match fm.parseEntry(payload)
    case None => None
    case Some(w) =>
      if w.operation == WireDelete then Some(DeleteEntry(w.collection, w.key))
      else Some(PutEntry(w.record))
  }

  function ReplayEntry(m: Records, e: WalEntry): Records {
    match e.operation
    case Put => m[KeyOf(e.record) := e.record]
    case Delete => m - {CompositeKey(e.collection, e.key)}
  }

  /** A decoded entry keeps what its operation uses: a put its record, a delete its key. */
  lemma WalEntryRoundTrip(fm: Formats, e: WalEntry, m: Records)
    requires fm.Faithful()
    ensures var d := DecodeWalEntry(fm, EncodeWalEntry(fm, e));
            && d.Some? && d.value.operation == e.operation
            && (e.operation == Put ==> d.value.record == e.record)
            && (e.operation == Delete ==> d.value.collection == e.collection && d.value.key == e.key)
            && ReplayEntry(m, d.value) == ReplayEntry(m, e)
  {
    var w := match e.operation
             case Put => WireEntry(WirePut, e.record, [], [])
             case Delete => WireEntry(WireDelete, EMPTY_RECORD, e.collection, e.key);
    assert fm.parseEntry(fm.entryBytes(w)) == Some(w);
  }

  // ------------------------------------------------------------------ replay

  function Replay(m: Records, es: seq<WalEntry>): Records
    decreases es
  {
    if es == [] then m else Replay(ReplayEntry(m, es[0]), es[1..])
  }

  lemma {:induction false} ReplayConcat(m: Records, a: seq<WalEntry>, b: seq<WalEntry>)
    ensures Replay(m, a + b) == Replay(Replay(m, a), b)
    decreases a
  {
    if a == [] {
      assert a + b == b;
    } else {
      assert (a + b)[1..] == a[1..] + b;
      ReplayConcat(ReplayEntry(m, a[0]), a[1..], b);
    }
  }

  /** What the last entry about key k leaves there, if any entry is about it. */
  function LastTouch(es: seq<WalEntry>, k: ByteString): Option<Option<DocumentRecord>>
    decreases es
  {
    if es == [] then None
    else
      var later := LastTouch(es[1..], k);
      if later.Some? then later
      else match es[0].operation
           case Put => if KeyOf(es[0].record) == k then Some(Some(es[0].record)) else None
           case Delete => if CompositeKey(es[0].collection, es[0].key) == k then Some(None) else None
  }

  /** Replay is last writer wins, key by key. */
  lemma {:induction false} LastWriterWins(m: Records, es: seq<WalEntry>, k: ByteString)
    ensures Lookup(Replay(m, es), k) ==
            match LastTouch(es, k)
            case None => Lookup(m, k)
            case Some(outcome) => outcome
    decreases es
  {
    if es != [] {
      LastWriterWins(ReplayEntry(m, es[0]), es[1..], k);
    }
  }

  /** Replaying a log over its own result changes nothing. */
  lemma ReplayIdempotent(m: Records, es: seq<WalEntry>)
    ensures Replay(Replay(m, es), es) == Replay(m, es)
  {
    var once := Replay(m, es);
    forall k ensures Lookup(Replay(once, es), k) == Lookup(once, k) {
      LastWriterWins(m, es, k);
      LastWriterWins(once, es, k);
    }
    SameLookups(Replay(once, es), once);
  }

  // ------------------------------------------------------------------ reading the files

  /** The entries read before the end of a file or the first unreadable piece. */
  datatype LogResult = LogResult(entries: seq<WalEntry>, status: Status)

  function Before(e: WalEntry, rest: LogResult): LogResult {
    LogResult([e] + rest.entries, rest.status)
  }

  function BinaryEntries(fm: Formats, frames: seq<ByteString>): LogResult
    decreases frames
  {
    if frames == [] then LogResult([], Ok)
    else match DecodeWalEntry(fm, frames[0])
         case None => LogResult([], BadEntry)
         case Some(e) => Before(e, BinaryEntries(fm, frames[1..]))
  }

  function BinaryRecords(fm: Formats, frames: seq<ByteString>): LogResult
    decreases frames
  {
    if frames == [] then LogResult([], Ok)
    else match fm.parseRecord(frames[0])
         case None => LogResult([], BadRecord)
         case Some(r) => Before(PutEntry(r), BinaryRecords(fm, frames[1..]))
  }

  const BAR: Byte := 0x7c

  function LineEnd(b: ByteString): (n: nat)
    ensures n <= |b|
    ensures forall i :: 0 <= i < n ==> b[i] != NEWLINE
    ensures n < |b| ==> b[n] == NEWLINE
  {
    if b == [] || b[0] == NEWLINE then 0 else 1 + LineEnd(b[1..])
  }

  /** The lines std::getline delivers. */
  function Lines(b: ByteString): seq<ByteString>
    decreases |b|
  {
    if b == [] then []
    else
      var n := LineEnd(b);
      [b[..n]] + (if n < |b| then Lines(b[n + 1..]) else [])
  }

  datatype LineMeaning = Skipped | Unreadable | Means(entry: WalEntry)

  /** One line of the older text log: "P|record" or "D|collection|key"; anything else is passed over. */
  function TextLine(fm: Formats, line: ByteString): LineMeaning {
    if |line| < 2 || line[1] != BAR then Skipped
    else if line[0] == 0x50 then
      match fm.textRecord(line[2..])
      case None => Unreadable
      case Some(r) => Means(PutEntry(r))
    else if line[0] == 0x44 then
      match fm.textDelete(line[2..])
      case None => Skipped
      case Some(ck) => Means(DeleteEntry(ck.0, ck.1))
    else Skipped
  }

  function TextEntries(fm: Formats, lines: seq<ByteString>): LogResult
    decreases lines
  {
    if lines == [] then LogResult([], Ok)
    else match TextLine(fm, lines[0])
         case Skipped => TextEntries(fm, lines[1..])
         case Unreadable => LogResult([], BadRecord)
         case Means(e) => Before(e, TextEntries(fm, lines[1..]))
  }

  function TextRecords(fm: Formats, lines: seq<ByteString>): LogResult
    decreases lines
  {
    if lines == [] then LogResult([], Ok)
    else match fm.textRecord(lines[0])
         case None => LogResult([], BadRecord)
         case Some(r) => Before(PutEntry(r), TextRecords(fm, lines[1..]))
  }

  function FramesStatus(r: PersistenceCodec.FramesResult): Status {
    match r
    case Decoded(_) => Ok
    case MissingMagic => MissingMagic
    case TruncatedFrame => TruncatedFrame
    case TruncatedPayload => TruncatedPayload
  }

  /** The content of a write-ahead log file; None is a file that does not exist. */
  function WalContent(fm: Formats, file: Option<ByteString>): LogResult {
    if file.None? then LogResult([], Ok)
    else if PersistenceCodec.HasMagic(file.value) then
      match PersistenceCodec.Decode(file.value)
      case Decoded(frames) => BinaryEntries(fm, frames)
      case failure => LogResult([], FramesStatus(failure))
    else TextEntries(fm, Lines(file.value))
  }

  function SnapshotContent(fm: Formats, file: Option<ByteString>): LogResult {
    if file.None? then LogResult([], Ok)
    else if PersistenceCodec.HasMagic(file.value) then
      match PersistenceCodec.Decode(file.value)
      case Decoded(frames) => BinaryRecords(fm, frames)
      case failure => LogResult([], FramesStatus(failure))
    else TextRecords(fm, Lines(file.value))
  }

  datatype Disk = Disk(wal: Option<ByteString>, snapshot: Option<ByteString>)

  datatype Recovered = Recovered(records: Records, status: Status)

  /** The map and status Recover ends with: the snapshot, then the whole log over it. */
  function RecoverFrom(fm: Formats, disk: Disk): Recovered {
    var s := SnapshotContent(fm, disk.snapshot);
    var base := Replay(map[], s.entries);
    if s.status != Ok then Recovered(base, s.status)
    else
      var l := WalContent(fm, disk.wal);
      Recovered(Replay(base, l.entries), l.status)
  }

  // ------------------------------------------------------------------ writing the files

  function Payloads(fm: Formats, es: seq<WalEntry>): seq<ByteString> {
    seq(|es|, i requires 0 <= i < |es| => EncodeWalEntry(fm, es[i]))
  }

  /** Put entries for all live records, in key order. */
  function LiveEntries(m: Records, keys: seq<ByteString>): (es: seq<WalEntry>)
    requires forall i :: 0 <= i < |keys| ==> keys[i] in m
  {
    seq(|keys|, i requires 0 <= i < |keys| => PutEntry(m[keys[i]]))
  }

  predicate IsLegacy(wal: Option<ByteString>) {
    wal.Some? && wal.value != [] && !PersistenceCodec.HasMagic(wal.value)
  }

  /** The log file after appending es: a new file starts with the magic header, and a file in the
      older text format is replaced by puts of the live records instead. */
  function Appended(fm: Formats, wal: Option<ByteString>, live: Records, es: seq<WalEntry>): ByteString {
    if IsLegacy(wal) then
      PersistenceCodec.MAGIC + PersistenceCodec.Concatenated(Payloads(fm, LiveEntries(live, SortedKeys(live.Keys))))
    else
      (if wal.None? || wal.value == [] then PersistenceCodec.MAGIC else wal.value)
      + PersistenceCodec.Concatenated(Payloads(fm, es))
  }

  function RecordPayloads(fm: Formats, m: Records, keys: seq<ByteString>): seq<ByteString>
    requires forall i :: 0 <= i < |keys| ==> keys[i] in m
  {
    seq(|keys|, i requires 0 <= i < |keys| => fm.recordBytes(m[keys[i]]))
  }

  function SnapshotOf(fm: Formats, m: Records): ByteString {
    PersistenceCodec.MAGIC + PersistenceCodec.Concatenated(RecordPayloads(fm, m, SortedKeys(m.Keys)))
  }
}
