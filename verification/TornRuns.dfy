/** Runs of the write-ahead store in which crashes tear the last append and the store goes on from what
    recovery finds. */
module TornRuns {
  import opened ByteStrings
  import opened Documents
  import opened Mutations
  import opened WalLog
  import opened WalStore
  import opened WalDurability
  import BatchPuts
  import PersistenceCodec
  import RangeScan

  /** An operation completes, or the machine stops when kept bytes of the log file are on disk and the
      store is recovered from there. */
  datatype Event = Complete(op: Op) | Crash(op: Op, kept: nat)

  /** What an operation appends to the log, given the map it meets. */
  function EntriesOf(m: Records, op: Op): seq<WalEntry> {
    match op
    case PutOp(r) => if Decide(Lookup(m, KeyOf(r)), r) == Accept then [PutEntry(r)] else []
    case BatchOp(rs) => (match StageBatch(m, rs) case Staged(_, applied) => PutEntries(applied) case Refused(_) => [])
    case DeleteOp(c, k) => [DeleteEntry(c, k)]
    case FlushOp => []
    case RestartOp => []
  }

  /** A log that holds a part of the header of its first append. */
  predicate TornHeader(wal: Option<ByteString>) {
    wal.Some? && 0 < |wal.value| < |PersistenceCodec.MAGIC| && wal.value <= PersistenceCodec.MAGIC
  }

  function WholeLog(fm: Formats, st: Store, op: Op): ByteString {
    Appended(fm, st.disk.wal, StepMap(st.records, op), EntriesOf(st.records, op))
  }

  function TornDisk(fm: Formats, st: Store, op: Op, kept: nat): Disk
    requires kept <= |WholeLog(fm, st, op)|
  {
    if EntriesOf(st.records, op) == [] then st.disk else st.disk.(wal := Some(WholeLog(fm, st, op)[..kept]))
  }

  /** A crash while the log is written: an append leaves the old bytes and some of the new ones, a
      rewrite some of the new ones; and the run goes on only if recovery succeeds. */
  predicate Possible(fm: Formats, st: Store, e: Event) {
    e.Crash? ==>
      && (e.op.PutOp? || e.op.BatchOp? || e.op.DeleteOp?)
      && (st.disk.wal.Some? && !IsLegacy(st.disk.wal) ==> |st.disk.wal.value| <= e.kept)
      && e.kept <= |WholeLog(fm, st, e.op)|
      && RecoverFrom(fm, TornDisk(fm, st, e.op, e.kept)).status == Ok
  }

  function Step(fm: Formats, st: Store, e: Event): Store
    requires Possible(fm, st, e)
  {
    match e
    case Complete(op) => StepStore(fm, st, op)
    case Crash(op, kept) =>
      var disk := TornDisk(fm, st, op, kept);
      Store(RecoverFrom(fm, disk).records, disk)
  }

  /** Key by key, x is as before or as after. */
  ghost predicate Between(before: Records, after: Records, x: Records) {
    forall k :: Lookup(x, k) == Lookup(before, k) || Lookup(x, k) == Lookup(after, k)
  }

  /** What the plain map allows: a completed operation does what it does there, a crashed one has done
      some of it, each key wholly or not at all. */
  ghost predicate Allowed(before: Records, e: Event, x: Records) {
    match e
    case Complete(op) => x == StepMap(before, op)
    case Crash(op, _) => Between(before, StepMap(before, op), x)
  }

  /** A delete of a live record meets a log that holds a part of its header only. */
  predicate LosesDelete(st: Store, e: Event) {
    e.Complete? && e.op.DeleteOp? && TornHeader(st.disk.wal) && CompositeKey(e.op.collection, e.op.key) in st.records
  }

  ghost predicate Sane(fm: Formats, st: Store) {
    && RangeScan.Keyed(st.records) && AllFit(fm, st.records)
    && (IsLegacy(st.disk.wal) ==> TornHeader(st.disk.wal))
    && Durable(fm, st)
  }

  // ------------------------------------------------------------------ entries and the map

  function Touched(e: WalEntry): ByteString {
    match e.operation
    case Put => KeyOf(e.record)
    case Delete => CompositeKey(e.collection, e.key)
  }

  ghost predicate TouchOnce(es: seq<WalEntry>) {
    forall i, j :: 0 <= i < j < |es| ==> Touched(es[i]) != Touched(es[j])
  }

  lemma {:induction false} TouchedBySome(es: seq<WalEntry>, k: ByteString)
    ensures LastTouch(es, k).Some? <==> exists i :: 0 <= i < |es| && Touched(es[i]) == k
    decreases es
  {
    hide KeyOf, CompositeKey;
    if es != [] {
      TouchedBySome(es[1..], k);
      if LastTouch(es[1..], k).Some? {
        var i :| 0 <= i < |es[1..]| && Touched(es[1..][i]) == k;
        assert Touched(es[i + 1]) == k;
      }
      if i :| 0 <= i < |es| && Touched(es[i]) == k {
        assert i > 0 ==> Touched(es[1..][i - 1]) == k;
      }
    }
  }

  /** If no key is touched twice, what a prefix of the entries leaves at a touched key is final. */
  lemma {:induction false} PrefixIsFinal(es: seq<WalEntry>, j: nat, k: ByteString)
    requires TouchOnce(es) && j <= |es|
    ensures LastTouch(es[..j], k).None? || LastTouch(es[..j], k) == LastTouch(es, k)
    decreases es
  {
    hide KeyOf, CompositeKey;
    if j > 0 {
      var rest := es[1..];
      assert es[..j][1..] == rest[..j - 1] && es[..j][0] == es[0];
      forall a, b | 0 <= a < b < |rest| ensures Touched(rest[a]) != Touched(rest[b]) {
        assert rest[a] == es[a + 1] && rest[b] == es[b + 1];
      }
      PrefixIsFinal(rest, j - 1, k);
      HeadIsFinal(es);
    }
  }

  lemma HeadIsFinal(es: seq<WalEntry>)
    requires TouchOnce(es) && es != []
    ensures LastTouch(es[1..], Touched(es[0])).None?
  {
    hide KeyOf, CompositeKey;
    var rest := es[1..];
    TouchedBySome(rest, Touched(es[0]));
    forall i | 0 <= i < |rest| ensures Touched(rest[i]) != Touched(es[0]) {
      assert rest[i] == es[i + 1];
    }
  }

  lemma PrefixBetween(m: Records, es: seq<WalEntry>, j: nat)
    requires TouchOnce(es) && j <= |es|
    ensures Between(m, Replay(m, es), Replay(m, es[..j]))
  {
    hide Replay, TouchOnce, LastTouch;
    var x := Replay(m, es[..j]);
    forall k ensures Lookup(x, k) == Lookup(m, k) || Lookup(x, k) == Lookup(Replay(m, es), k) {
      LastWriterWins(m, es, k);
      LastWriterWins(m, es[..j], k);
      PrefixIsFinal(es, j, k);
    }
  }

  lemma {:induction false} AppliedOnce(s: Staging, rs: seq<DocumentRecord>)
    requires Stage(s, rs).Staged? && BatchPuts.DistinctKeys(s.applied)
    requires forall i :: 0 <= i < |s.applied| ==> KeyOf(s.applied[i]) in s.seen
    ensures BatchPuts.DistinctKeys(Stage(s, rs).applied)
    decreases rs
  {
    hide KeyOf, Decide;
    if rs != [] {
      AppliedOnce(BatchPuts.NextStaging(s, rs[0]), rs[1..]);
    }
  }

  lemma EntriesTouchOnce(m: Records, op: Op)
    ensures TouchOnce(EntriesOf(m, op))
  {
    hide KeyOf, CompositeKey, Decide;
    if op.BatchOp? && StageBatch(m, op.batch).Staged? {
      AppliedOnce(Staging(m, {}, []), op.batch);
    }
  }

  /** On the map an operation is the replay of its entries. */
  lemma EntriesReplay(m: Records, op: Op)
    ensures Replay(m, EntriesOf(m, op)) == StepMap(m, op)
  {
    hide KeyOf, CompositeKey;
    match op
    case PutOp(r) => assert [PutEntry(r)][1..] == [];
    case BatchOp(rs) =>
      if StageBatch(m, rs).Staged? {
        StageReplays(Staging(m, {}, []), rs, m);
      }
    case DeleteOp(c, k) => assert [DeleteEntry(c, k)][1..] == [];
    case _ =>
  }

  // ------------------------------------------------------------------ what steps write

  lemma EntriesArePlain(fm: Formats, m: Records, op: Op)
    requires OpFits(fm, op)
    ensures AllPlain(EntriesOf(m, op)) && Fits(fm, EntriesOf(m, op))
  {
    hide KeyOf, CompositeKey, Decide, EncodeWalEntry;
    if op.BatchOp? && StageBatch(m, op.batch).Staged? {
      AppliedFit(fm, m, op.batch);
    }
  }

  lemma AppliedFit(fm: Formats, m: Records, rs: seq<DocumentRecord>)
    requires StageBatch(m, rs).Staged? && forall i :: 0 <= i < |rs| ==> RecordFits(fm, rs[i])
    ensures forall i :: 0 <= i < |StageBatch(m, rs).applied| ==> RecordFits(fm, StageBatch(m, rs).applied[i])
  {
    hide RecordFits, KeyOf, Decide, Stage;
    StageReplays(Staging(m, {}, []), rs, m);
    var applied := StageBatch(m, rs).applied;
    forall i | 0 <= i < |applied| ensures RecordFits(fm, applied[i]) {
      assert applied[i] in applied && applied[i] in rs;
    }
  }

  lemma MapStaysFit(fm: Formats, m: Records, op: Op)
    requires RangeScan.Keyed(m) && AllFit(fm, m) && OpFits(fm, op)
    ensures RangeScan.Keyed(StepMap(m, op)) && AllFit(fm, StepMap(m, op))
  {
    hide RecordFits, Stage, Decide;
    if op.BatchOp? && StageBatch(m, op.batch).Staged? {
      AppliedFit(fm, m, op.batch);
      StageReplays(Staging(m, {}, []), op.batch, m);
      ReplayPutsKeyed(m, StageBatch(m, op.batch).applied, fm);
    }
  }

  lemma BetweenStaysFit(fm: Formats, a: Records, b: Records, x: Records)
    requires RangeScan.Keyed(a) && AllFit(fm, a) && RangeScan.Keyed(b) && AllFit(fm, b) && Between(a, b, x)
    ensures RangeScan.Keyed(x) && AllFit(fm, x)
  {
    hide RecordFits, KeyOf;
    forall k | k in x ensures KeyOf(x[k]) == k && RecordFits(fm, x[k]) {
      assert Lookup(x, k) == Lookup(a, k) || Lookup(x, k) == Lookup(b, k);
    }
  }

  /** A completed operation that writes entries logs them; one that writes none leaves the log alone. */
  lemma CompletedIsLogged(fm: Formats, st: Store, op: Op)
    requires op.PutOp? || op.BatchOp? || op.DeleteOp?
    ensures StepStore(fm, st, op) ==
            if EntriesOf(st.records, op) == [] then st
            else Logged(fm, st, StepMap(st.records, op), EntriesOf(st.records, op))
  {
    hide Appended, KeyOf, CompositeKey, Decide, Stage;
    if op.BatchOp? {
      NothingApplied(st.records, op.batch);
    }
  }

  lemma NothingApplied(m: Records, rs: seq<DocumentRecord>)
    ensures StageBatch(m, rs).Staged? ==>
              (StageBatch(m, rs).applied == [] <==> PutEntries(StageBatch(m, rs).applied) == [])
  {
    hide Stage;
  }

  // ------------------------------------------------------------------ the header torn

  /** Under a torn header the log says nothing, so a durable store is its snapshot. */
  lemma TornHeaderIsSnapshot(fm: Formats, st: Store)
    requires Durable(fm, st) && TornHeader(st.disk.wal)
    ensures SnapshotContent(fm, st.disk.snapshot).status == Ok
    ensures Replay(map[], SnapshotContent(fm, st.disk.snapshot).entries) == st.records
    ensures RecoverFrom(fm, st.disk.(wal := None)) == Recovered(st.records, Ok)
    ensures IsLegacy(st.disk.wal)
  {
    var n := |st.disk.wal.value|;
    assert st.disk.wal.value == PersistenceCodec.MAGIC[..n];
    TornHeaderIsEmpty(fm, n);
    assert WalContent(fm, None) == LogResult([], Ok);
    hide WalContent, SnapshotContent, Replay;
    NothingReplayed(Replay(map[], SnapshotContent(fm, st.disk.snapshot).entries));
  }

  /** The rewrite is what a first append of all live records to a new log would be. */
  lemma RewriteIsFirstAppend(fm: Formats, wal: Option<ByteString>, live: Records, es: seq<WalEntry>)
    requires IsLegacy(wal)
    ensures Appended(fm, wal, live, es) == Appended(fm, None, live, LiveEntries(live, SortedKeys(live.Keys)))
    ensures PersistenceCodec.MAGIC <= Appended(fm, wal, live, es)
  {
    hide PersistenceCodec.Concatenated, SortedKeys;
  }

  lemma LiveTouchOnce(live: Records)
    requires RangeScan.Keyed(live)
    ensures TouchOnce(LiveEntries(live, SortedKeys(live.Keys)))
  {
    hide KeyOf, Less, SortedKeys;
    var keys := SortedKeys(live.Keys);
    forall i, j | 0 <= i < j < |keys| ensures keys[i] != keys[j] {
      assert Less(keys[i], keys[j]);
      LessIrreflexive(keys[i]);
    }
  }

  lemma LiveArePlain(fm: Formats, live: Records)
    requires AllFit(fm, live)
    ensures AllPlain(LiveEntries(live, SortedKeys(live.Keys))) && Fits(fm, LiveEntries(live, SortedKeys(live.Keys)))
  {
    hide SortedKeys, EncodeWalEntry;
    var keys := SortedKeys(live.Keys);
    forall i | 0 <= i < |keys| ensures |EncodeWalEntry(fm, PutEntry(live[keys[i]]))| < PersistenceCodec.WORD {
      assert RecordFits(fm, live[keys[i]]);
    }
  }

  /** Laying records over a map ends key by key with one or the other. */
  lemma OverlayBetween(m: Records, live: Records, x: Records)
    requires Between(m, m + live, x)
    ensures Between(m, live, x)
  {
    forall k ensures Lookup(x, k) == Lookup(m, k) || Lookup(x, k) == Lookup(live, k) {
      assert Lookup(x, k) == Lookup(m, k) || Lookup(x, k) == Lookup(m + live, k);
    }
  }

  // ------------------------------------------------------------------ single steps

  lemma HeaderOrWhole(fm: Formats, whole: ByteString, n: nat)
    requires PersistenceCodec.MAGIC <= whole && n <= |whole|
    ensures IsLegacy(Some(whole[..n])) ==> TornHeader(Some(whole[..n]))
  {
    var header := |PersistenceCodec.MAGIC|;
    if n < header {
      assert whole[..n] == PersistenceCodec.MAGIC[..n];
    } else {
      assert whole[..n][..header] == PersistenceCodec.MAGIC;
    }
  }

  lemma StartsWithHeader(fm: Formats, wal: Option<ByteString>, live: Records, es: seq<WalEntry>)
    ensures PersistenceCodec.MAGIC <= Appended(fm, wal, live, es)
  {
    hide PersistenceCodec.Concatenated, Payloads, SortedKeys;
  }

  /** A crash under an intact log, or a new one. */
  lemma CrashedAppend(fm: Formats, st: Store, op: Op, kept: nat)
    requires fm.Faithful() && Sane(fm, st) && OpFits(fm, op) && Possible(fm, st, Crash(op, kept))
    requires !IsLegacy(st.disk.wal) && EntriesOf(st.records, op) != []
    ensures Between(st.records, StepMap(st.records, op), Step(fm, st, Crash(op, kept)).records)
  {
    var es, live := EntriesOf(st.records, op), StepMap(st.records, op);
    EntriesArePlain(fm, st.records, op);
    EntriesTouchOnce(st.records, op);
    EntriesReplay(st.records, op);
    hide EntriesOf, StepMap, Replay, Appended, IsLegacy, WalContent, SnapshotContent, AllPlain, Fits, TouchOnce,
        RangeScan.Keyed, AllFit;
    TornAppend(fm, st.disk, live, es, kept);
    var torn := RecoverFrom(fm, st.disk.(wal := Some(Appended(fm, st.disk.wal, live, es)[..kept])));
    var j: nat :| j <= |es| && torn.records == Replay(st.records, es[..j]);
    PrefixBetween(st.records, es, j);
  }

  /** What a torn first append leaves lies between the map before it and the map after it. */
  lemma TornFirstAppend(fm: Formats, disk: Disk, before: Records, live: Records, es: seq<WalEntry>, n: nat)
    requires fm.Faithful() && AllPlain(es) && Fits(fm, es) && TouchOnce(es)
    requires disk.wal.None? && RecoverFrom(fm, disk) == Recovered(before, Ok)
    requires n <= |Appended(fm, None, live, es)|
    ensures var torn := RecoverFrom(fm, disk.(wal := Some(Appended(fm, None, live, es)[..n])));
            torn.status == Ok ==> Between(before, Replay(before, es), torn.records)
  {
    hide Replay, Appended, WalContent, SnapshotContent, RecoverFrom, AllPlain, Fits, TouchOnce, Between;
    TornAppend(fm, disk, live, es, n);
    var torn := RecoverFrom(fm, disk.(wal := Some(Appended(fm, None, live, es)[..n])));
    if torn.status == Ok {
      var j: nat :| j <= |es| && torn.records == Replay(before, es[..j]);
      PrefixBetween(before, es, j);
    }
  }

  /** A crash while a log that held a part of its header is rewritten. */
  lemma CrashedRewrite(fm: Formats, st: Store, op: Op, kept: nat)
    requires fm.Faithful() && Sane(fm, st) && OpFits(fm, op) && Possible(fm, st, Crash(op, kept))
    requires TornHeader(st.disk.wal) && EntriesOf(st.records, op) != []
    ensures Between(st.records, StepMap(st.records, op), Step(fm, st, Crash(op, kept)).records)
  {
    var live := StepMap(st.records, op);
    MapStaysFit(fm, st.records, op);
    TornHeaderIsSnapshot(fm, st);
    hide StepMap, Replay, Appended, WalContent, SnapshotContent, RecoverFrom, Durable, TornHeader;
    LiveArePlain(fm, live);
    LiveTouchOnce(live);
    ReplayLive(st.records, live);
    RewriteIsFirstAppend(fm, st.disk.wal, live, EntriesOf(st.records, op));
    hide EntriesOf, AllPlain, Fits, TouchOnce, RangeScan.Keyed, AllFit, LiveEntries, SortedKeys, OpFits, Between,
        IsLegacy;
    var all := LiveEntries(live, SortedKeys(live.Keys));
    TornFirstAppend(fm, st.disk.(wal := None), st.records, live, all, kept);
    OverlayBetween(st.records, live, Step(fm, st, Crash(op, kept)).records);
  }

  lemma CrashStep(fm: Formats, st: Store, op: Op, kept: nat)
    requires fm.Faithful() && Sane(fm, st) && OpFits(fm, op) && Possible(fm, st, Crash(op, kept))
    ensures Sane(fm, Step(fm, st, Crash(op, kept)))
    ensures Between(st.records, StepMap(st.records, op), Step(fm, st, Crash(op, kept)).records)
  {
    var t := Step(fm, st, Crash(op, kept));
    MapStaysFit(fm, st.records, op);
    if EntriesOf(st.records, op) == [] {
      assert t == st;
    } else {
      if IsLegacy(st.disk.wal) {
        CrashedRewrite(fm, st, op, kept);
      } else {
        CrashedAppend(fm, st, op, kept);
      }
      StartsIntact(fm, st, op);
      HeaderOrWhole(fm, WholeLog(fm, st, op), kept);
    }
    hide Appended, IsLegacy, EntriesOf, StepMap, WholeLog, TornHeader, RangeScan.Keyed, AllFit, WalContent,
        SnapshotContent;
    BetweenStaysFit(fm, st.records, StepMap(st.records, op), t.records);
  }

  /** The written log starts with its header: the old one does, or is new, or is rewritten. */
  lemma StartsIntact(fm: Formats, st: Store, op: Op)
    ensures PersistenceCodec.MAGIC <= WholeLog(fm, st, op)
  {
    StartsWithHeader(fm, st.disk.wal, StepMap(st.records, op), EntriesOf(st.records, op));
  }

  /** An operation that completes. */
  lemma CompleteStep(fm: Formats, st: Store, op: Op)
    requires fm.Faithful() && Sane(fm, st) && OpFits(fm, op)
    ensures var t := Step(fm, st, Complete(op));
            && t.records == StepMap(st.records, op)
            && (Durable(fm, t) <==> !LosesDelete(st, Complete(op)))
            && (Durable(fm, t) ==> Sane(fm, t))
  {
    MapStaysFit(fm, st.records, op);
    if !IsLegacy(st.disk.wal) {
      hide RangeScan.Keyed, AllFit, IsLegacy, Durable, StepStore, StepMap, OpFits, CompositeKey;
      StepRefines(fm, st, op);
      NotTorn(st.disk.wal);
    } else if op.FlushOp? {
      FlushIsDurable(fm, st);
    } else if op.RestartOp? {
      assert Step(fm, st, Complete(op)) == st;
    } else {
      CompleteUnderTornHeader(fm, st, op);
    }
  }

  lemma NotTorn(wal: Option<ByteString>)
    requires !IsLegacy(wal)
    ensures !TornHeader(wal)
  {
  }

  lemma CompleteUnderTornHeader(fm: Formats, st: Store, op: Op)
    requires fm.Faithful() && Sane(fm, st) && OpFits(fm, op) && TornHeader(st.disk.wal)
    requires op.PutOp? || op.BatchOp? || op.DeleteOp?
    ensures var t := Step(fm, st, Complete(op));
            && t.records == StepMap(st.records, op)
            && (Durable(fm, t) <==> !LosesDelete(st, Complete(op)))
            && (Durable(fm, t) ==> Sane(fm, t))
  {
    var es, live := EntriesOf(st.records, op), StepMap(st.records, op);
    MapStaysFit(fm, st.records, op);
    EntriesReplay(st.records, op);
    CompletedIsLogged(fm, st, op);
    TornHeaderIsSnapshot(fm, st);
    KeysAfter(st.records, op);
    if es == [] {
      assert live == st.records;
    } else {
      LegacyRewriteExactly(fm, st, live, es);
      RewriteIsFirstAppend(fm, st.disk.wal, live, es);
    }
    hide Appended, EntriesOf, StepMap, RangeScan.Keyed, AllFit, WalContent, SnapshotContent, Replay, CompositeKey;
  }

  /** Which keys an operation takes away: only a delete takes one, its own. */
  lemma KeysAfter(m: Records, op: Op)
    ensures m.Keys <= StepMap(m, op).Keys <==> !(op.DeleteOp? && CompositeKey(op.collection, op.key) in m)
  {
    hide KeyOf, CompositeKey, Decide;
    if op.BatchOp? && StageBatch(m, op.batch).Staged? {
      StageGrows(Staging(m, {}, []), op.batch);
    }
  }

  lemma {:induction false} StageGrows(s: Staging, rs: seq<DocumentRecord>)
    requires Stage(s, rs).Staged?
    ensures s.records.Keys <= Stage(s, rs).records.Keys
    decreases rs
  {
    hide KeyOf, Decide;
    if rs != [] {
      StageGrows(BatchPuts.NextStaging(s, rs[0]), rs[1..]);
    }
  }

  /** One event: the map moves as the plain map allows, and the files recover to it exactly when no
      delete of a live record meets a torn header. */
  lemma StepExactly(fm: Formats, st: Store, e: Event)
    requires fm.Faithful() && Sane(fm, st) && OpFits(fm, e.op) && Possible(fm, st, e)
    ensures Allowed(st.records, e, Step(fm, st, e).records)
    ensures Durable(fm, Step(fm, st, e)) <==> !LosesDelete(st, e)
    ensures Durable(fm, Step(fm, st, e)) ==> Sane(fm, Step(fm, st, e))
  {
    hide Sane, Durable, Between, StepMap, LosesDelete, OpFits;
    match e
    case Complete(op) => CompleteStep(fm, st, op);
    case Crash(op, kept) =>
      CrashStep(fm, st, op, kept);
      CrashLosesNothing(fm, st, op, kept);
  }

  lemma CrashLosesNothing(fm: Formats, st: Store, op: Op, kept: nat)
    requires Possible(fm, st, Crash(op, kept)) && Sane(fm, Step(fm, st, Crash(op, kept)))
    ensures Durable(fm, Step(fm, st, Crash(op, kept))) && !LosesDelete(st, Crash(op, kept))
  {
  }

  // ------------------------------------------------------------------ runs

  predicate IsRun(fm: Formats, st: Store, es: seq<Event>)
    decreases |es|
  {
    es == [] || (Possible(fm, st, es[0]) && IsRun(fm, Step(fm, st, es[0]), es[1..]))
  }

  function Run(fm: Formats, st: Store, es: seq<Event>): Store
    requires IsRun(fm, st, es)
    decreases |es|
  {
    if es == [] then st else Run(fm, Step(fm, st, es[0]), es[1..])
  }

  /** The files recover to the map in memory after every event of the run. */
  ghost predicate AlwaysDurable(fm: Formats, st: Store, es: seq<Event>)
    requires IsRun(fm, st, es)
    decreases |es|
  {
    Durable(fm, st) && (es != [] ==> AlwaysDurable(fm, Step(fm, st, es[0]), es[1..]))
  }

  /** Every event moves the map as the plain map allows. */
  ghost predicate AlwaysAllowed(fm: Formats, st: Store, es: seq<Event>)
    requires IsRun(fm, st, es)
    decreases |es|
  {
    es != [] ==>
      var t := Step(fm, st, es[0]);
      Allowed(st.records, es[0], t.records) && AlwaysAllowed(fm, t, es[1..])
  }

  /** No delete of a live record meets a torn header. */
  predicate LosesNoDelete(fm: Formats, st: Store, es: seq<Event>)
    requires IsRun(fm, st, es)
    decreases |es|
  {
    es != [] ==> !LosesDelete(st, es[0]) && LosesNoDelete(fm, Step(fm, st, es[0]), es[1..])
  }

  /** Over runs with crashes that tear the last append at any byte and go on from what recovery finds:
      the files recover to the map after every event exactly when no delete of a live record meets a log
      that holds a part of its header only; and then every event moves the map as the plain map allows. */
  lemma {:induction false} TornRunExactly(fm: Formats, st: Store, es: seq<Event>)
    requires fm.Faithful() && Sane(fm, st) && IsRun(fm, st, es)
    requires forall i :: 0 <= i < |es| ==> OpFits(fm, es[i].op)
    ensures AlwaysDurable(fm, st, es) <==> LosesNoDelete(fm, st, es)
    ensures AlwaysDurable(fm, st, es) ==> AlwaysAllowed(fm, st, es) && Sane(fm, Run(fm, st, es))
    decreases |es|
  {
    hide Possible, Step, OpFits, LosesDelete, Allowed, RangeScan.Keyed, AllFit, IsLegacy, TornHeader;
    if es != [] {
      StepExactly(fm, st, es[0]);
      var t := Step(fm, st, es[0]);
      if Durable(fm, t) {
        TornRunExactly(fm, t, es[1..]);
      }
    }
  }

  lemma FreshIsSane(fm: Formats)
    ensures Sane(fm, Store(map[], Disk(None, None)))
  {
    FreshStoreIsGood(fm);
  }

  // ------------------------------------------------------------------ runs from a new store

  /** As long as the log is shorter than a header, nothing is stored. */
  predicate EarlyIsEmpty(st: Store) {
    st.disk.wal.None? || |st.disk.wal.value| < |PersistenceCodec.MAGIC| ==> st.records == map[]
  }

  /** A log shorter than a header says nothing, so the snapshot is the map. */
  lemma EarlyIsSnapshot(fm: Formats, st: Store, n: nat)
    requires Sane(fm, st) && (st.disk.wal.None? || |st.disk.wal.value| < |PersistenceCodec.MAGIC|)
    requires n < |PersistenceCodec.MAGIC|
    ensures RecoverFrom(fm, st.disk.(wal := Some(PersistenceCodec.MAGIC[..n]))) == Recovered(st.records, Ok)
  {
    hide RangeScan.Keyed, AllFit;
    TornHeaderIsEmpty(fm, n);
    if st.disk.wal.Some? {
      var m := |st.disk.wal.value|;
      assert !PersistenceCodec.HasMagic(st.disk.wal.value);
      assert st.disk.wal.value == PersistenceCodec.MAGIC[..m];
      TornHeaderIsEmpty(fm, m);
    } else {
      assert WalContent(fm, st.disk.wal) == LogResult([], Ok);
    }
    hide WalContent, SnapshotContent, Replay;
    NothingReplayed(Replay(map[], SnapshotContent(fm, st.disk.snapshot).entries));
  }

  lemma EarlyCrash(fm: Formats, st: Store, op: Op, kept: nat)
    requires Sane(fm, st) && EarlyIsEmpty(st) && Possible(fm, st, Crash(op, kept))
    requires EntriesOf(st.records, op) != [] && kept < |PersistenceCodec.MAGIC|
    ensures Step(fm, st, Crash(op, kept)).records == map[]
  {
    StartsIntact(fm, st, op);
    hide WholeLog, RangeScan.Keyed, AllFit, EntriesOf, Durable, RecoverFrom, PersistenceCodec.HasMagic;
    assert st.disk.wal.None? || |st.disk.wal.value| < |PersistenceCodec.MAGIC|;
    assert WholeLog(fm, st, op)[..kept] == PersistenceCodec.MAGIC[..kept];
    EarlyIsSnapshot(fm, st, kept);
  }

  lemma EarlyStays(fm: Formats, st: Store, e: Event)
    requires Sane(fm, st) && EarlyIsEmpty(st) && Possible(fm, st, e)
    ensures EarlyIsEmpty(Step(fm, st, e)) && !LosesDelete(st, e)
  {
    hide RangeScan.Keyed, AllFit, StepMap, EntriesOf, WalContent, SnapshotContent;
    match e
    case Complete(op) =>
      if op.FlushOp? || op.RestartOp? {
        assert Step(fm, st, e).records == st.records && Step(fm, st, e).disk.wal == st.disk.wal;
      } else {
        CompletedIsLogged(fm, st, op);
        StartsIntact(fm, st, op);
      }
    case Crash(op, kept) =>
      if EntriesOf(st.records, op) == [] {
        assert Step(fm, st, e) == st;
      } else if kept < |PersistenceCodec.MAGIC| {
        EarlyCrash(fm, st, op, kept);
      }
  }

  lemma {:induction false} EarlyLosesNoDelete(fm: Formats, st: Store, es: seq<Event>)
    requires fm.Faithful() && Sane(fm, st) && EarlyIsEmpty(st) && IsRun(fm, st, es)
    requires forall i :: 0 <= i < |es| ==> OpFits(fm, es[i].op)
    ensures LosesNoDelete(fm, st, es)
    decreases |es|
  {
    hide Possible, Step, OpFits, LosesDelete, Allowed, Sane, EarlyIsEmpty, Durable;
    if es != [] {
      EarlyStays(fm, st, es[0]);
      StepExactly(fm, st, es[0]);
      EarlyLosesNoDelete(fm, Step(fm, st, es[0]), es[1..]);
    }
  }

  /** A store that starts without files stays recoverable through every run: whatever completes, and
      wherever crashes tear the log, recovery rebuilds the map in memory, and the map moves as the plain
      map allows. */
  lemma NewStoreIsAlwaysDurable(fm: Formats, es: seq<Event>)
    requires fm.Faithful() && IsRun(fm, Store(map[], Disk(None, None)), es)
    requires forall i :: 0 <= i < |es| ==> OpFits(fm, es[i].op)
    ensures AlwaysDurable(fm, Store(map[], Disk(None, None)), es)
    ensures AlwaysAllowed(fm, Store(map[], Disk(None, None)), es)
  {
    hide Possible, Step, OpFits, LosesDelete, Allowed, Sane;
    var start := Store(map[], Disk(None, None));
    FreshIsSane(fm);
    EarlyLosesNoDelete(fm, start, es);
    TornRunExactly(fm, start, es);
  }
}
