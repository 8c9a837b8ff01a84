/** The concurrent store: get-validate-write under striped key locks. Every client runs one
    operation; its lock, get, write and unlock steps interleave freely with those of the others. */
module StripedStore {
  import opened ByteStrings
  import opened Documents
  import opened Mutations
  import opened DistinctWalk

  const STRIPES: nat := 4096

  /** The records by column family and key. */
  type Db = map<RecordKey, DocumentRecord>

  datatype Op =
    | PutOp(record: DocumentRecord)
    | BatchOp(batch: seq<DocumentRecord>)
    | DeleteOp(collection: ByteString, key: ByteString)

  function RecordsOf(op: Op): seq<DocumentRecord> {
    match op
    case PutOp(r) => [r]
    case BatchOp(rs) => rs
    case DeleteOp(_, _) => []
  }

  predicate RepeatsKey(rs: seq<DocumentRecord>) {
    exists i, j :: 0 <= i < j < |rs| && KeyOf(rs[i]) == KeyOf(rs[j])
  }

  predicate Malformed(op: Op) {
    op.BatchOp? && RepeatsKey(op.batch)
  }

  // ------------------------------------------------------------------ stripes

  type Hash = ByteString -> nat

  function Stripe(hash: Hash, k: RecordKey): int {
    hash(CompositeKey(k.0, k.1)) % STRIPES
  }

  function StripeSet(hash: Hash, op: Op): set<int> {
    if op.DeleteOp? then {Stripe(hash, (op.collection, op.key))}
    else set r | r in RecordsOf(op) :: Stripe(hash, KeyPair(r))
  }

  /** Two keys share their stripe under every hash exactly when their composite keys are equal, and every
      one of the stripes is reached. */
  lemma SharedStripeExactly(a: RecordKey, b: RecordKey, t: nat)
    ensures (forall hash: Hash :: Stripe(hash, a) == Stripe(hash, b)) <==>
            CompositeKey(a.0, a.1) == CompositeKey(b.0, b.1)
    ensures (exists hash: Hash :: Stripe(hash, a) == t) <==> t < 4096
  {
    var own: Hash := x => if x == CompositeKey(a.0, a.1) then 1 else 0;
    assert Stripe(own, a) == 1;
    if CompositeKey(a.0, a.1) != CompositeKey(b.0, b.1) {
      assert Stripe(own, b) == 0;
    }
    if t < 4096 {
      var hash: Hash := (x: ByteString) => t;
      assert Stripe(hash, a) == t;
    }
  }

  /** The stripes an operation locks, ascending and without repetition. */
  function LockList(hash: Hash, op: Op): (l: seq<int>)
    ensures AscendingInts(l)
    ensures forall t :: t in l <==> t in StripeSet(hash, op)
    ensures forall i :: 0 <= i < |l| ==> 0 <= l[i] < STRIPES
  {
    var l := SortedInts(StripeSet(hash, op));
    assert forall i :: 0 <= i < |l| ==> l[i] in StripeSet(hash, op);
    l
  }

  // ------------------------------------------------------------------ one operation at once

  datatype ScanResult = Batch(writes: seq<DocumentRecord>) | Refused(status: Status)

  /** Get and validate record after record, collecting the writes. */
  function Scan(db: Db, rs: seq<DocumentRecord>): ScanResult
    decreases |rs|
  {
    if rs == [] then Batch([])
    else
      var n := |rs| - 1;
      match Scan(db, rs[..n])
      case Refused(status) => Refused(status)
      case Batch(writes) =>
        match Decide(Lookup(db, KeyPair(rs[n])), rs[n])
        case Reject => Refused(StaleMutation)
        case Ignore => Batch(writes)
        case Accept => Batch(writes + [rs[n]])
  }

  function Write(db: Db, rs: seq<DocumentRecord>): Db
    decreases |rs|
  {
    if rs == [] then db else Write(db, rs[..|rs| - 1])[KeyPair(rs[|rs| - 1]) := rs[|rs| - 1]]
  }

  /** What an operation does to the store when nothing runs beside it. */
  function Atomic(db: Db, op: Op): (Db, Status) {
    if op.DeleteOp? then (db - {(op.collection, op.key)}, Ok)
    else if Malformed(op) then (db, DuplicateKey)
    else match Scan(db, RecordsOf(op))
         case Refused(status) => (db, status)
         case Batch(writes) => (Write(db, writes), Ok)
  }

  /** The store as one caller alone sees it. */
  class RocksDbKvStore {
    const hash: Hash
    var db: Db
    var locked: set<int>

    constructor (hash: Hash)
      ensures this.hash == hash && db == map[] && locked == {}
    {
      this.hash := hash;
      this.db := map[];
      this.locked := {};
    }

    method LockRecordStripes(op: Op) returns (stripes: seq<int>)
      requires locked == {}
      modifies this`locked
      ensures stripes == LockList(hash, op)
      ensures forall t :: t in locked <==> t in stripes
    {
      hide LockList;
      stripes := LockList(hash, op);
      for i := 0 to |stripes|
        invariant forall t :: t in locked <==> t in stripes[..i]
      {
        assert stripes[..i + 1] == stripes[..i] + [stripes[i]];
        locked := locked + {stripes[i]};
      }
      assert stripes[..|stripes|] == stripes;
    }

    method Put(record: DocumentRecord) returns (status: Status)
      requires locked == {}
      modifies this
      ensures (db, status) == Atomic(old(db), PutOp(record)) && locked == {}
    {
      var stripes := LockRecordStripes(PutOp(record));
      var k := KeyPair(record);
      ScanOne(db, record);
      hide LockList, StripeSet, Scan, Write;
      if k in db {
        status := ValidateMutation(db[k], record);
        if status != Ok {
          locked := {};
          return;
        }
        if IsDuplicateMutation(db[k], record) {
          locked := {};
          return;
        }
      }
      db := db[k := record];
      locked := {};
      status := Ok;
    }

    method BatchPut(records: seq<DocumentRecord>) returns (status: Status)
      requires locked == {}
      modifies this
      ensures (db, status) == Atomic(old(db), BatchOp(records)) && locked == {}
    {
      if RepeatsKey(records) {
        return DuplicateKey;
      }
      var stripes := LockRecordStripes(BatchOp(records));
      hide LockList, StripeSet, RepeatsKey, Write;
      var writes: seq<DocumentRecord> := [];
      assert Scan(db, records[..0]) == Batch([]);
      hide Scan;
      for i := 0 to |records|
        invariant db == old(db)
        invariant Scan(db, records[..i]) == Batch(writes)
      {
        ScanStep(db, records, i);
        var record := records[i];
        var k := KeyPair(record);
        if k in db {
          status := ValidateMutation(db[k], record);
          if status != Ok {
            RefusalIsFinal(db, records, i);
            locked := {};
            return;
          }
          if IsDuplicateMutation(db[k], record) {
            continue;
          }
        }
        writes := writes + [record];
      }
      assert records[..|records|] == records;
      db := Write(db, writes);
      locked := {};
      status := Ok;
    }

    method Delete(collection: ByteString, key: ByteString)
      requires locked == {}
      modifies this
      ensures db == Atomic(old(db), DeleteOp(collection, key)).0 && locked == {}
    {
      var stripes := LockRecordStripes(DeleteOp(collection, key));
      db := db - {(collection, key)};
      locked := {};
    }
  }

  lemma ScanOne(db: Db, r: DocumentRecord)
    ensures Scan(db, [r]) == match Decide(Lookup(db, KeyPair(r)), r)
                             case Reject => Refused(StaleMutation)
                             case Ignore => Batch([])
                             case Accept => Batch([r])
    ensures Write(db, [r]) == db[KeyPair(r) := r] && Write(db, []) == db
  {
    assert [r][..0] == [];
    assert Scan(db, []) == Batch([]) && [] + [r] == [r];
  }

  lemma ScanStep(db: Db, rs: seq<DocumentRecord>, i: nat)
    requires i < |rs| && Scan(db, rs[..i]).Batch?
    ensures Scan(db, rs[..i + 1]) == match Decide(Lookup(db, KeyPair(rs[i])), rs[i])
                                     case Reject => Refused(StaleMutation)
                                     case Ignore => Scan(db, rs[..i])
                                     case Accept => Batch(Scan(db, rs[..i]).writes + [rs[i]])
  {
    assert rs[..i + 1][..i] == rs[..i];
  }

  lemma {:induction false} RefusalIsFinal(db: Db, rs: seq<DocumentRecord>, i: nat)
    requires i < |rs| && Scan(db, rs[..i + 1]).Refused?
    ensures Scan(db, rs) == Scan(db, rs[..i + 1])
    decreases |rs|
  {
    if i + 1 == |rs| {
      assert rs[..i + 1] == rs;
    } else {
      var n := |rs| - 1;
      assert rs[..n][..i + 1] == rs[..i + 1];
      RefusalIsFinal(db, rs[..n], i);
    }
  }

  // ------------------------------------------------------------------ interleaved steps

  datatype Phase =
    | Start
    | Locking(held: nat)
    | Reading(next: nat, staged: seq<DocumentRecord>)
    | Unlocking(released: nat, status: Status)
    | Done(status: Status)

  /** What never changes in a run: the operation of each client, the hash and the first contents. */
  datatype World = World(ops: seq<Op>, hash: Hash, initial: Db)

  /** The shared store and locks, the clients' positions, and, as history, the clients in the order
      of their decisive step. */
  datatype State = State(db: Db, owner: map<int, int>, phases: seq<Phase>, log: seq<int>)

  function Init(w: World): State {
    State(w.initial, map[], seq(|w.ops|, _ => Start), [])
  }

  function Locks(w: World, i: nat): (l: seq<int>)
    requires i < |w.ops|
    ensures AscendingInts(l)
  {
    LockList(w.hash, w.ops[i])
  }

  predicate Enabled(w: World, s: State, i: nat) {
    && i < |w.ops| == |s.phases|
    && match s.phases[i]
       case Done(_) => false
       case Locking(held) => held < |Locks(w, i)| ==> Locks(w, i)[held] !in s.owner
       case _ => true
  }

  function Move(s: State, i: nat, phase: Phase): State
    requires i < |s.phases|
  {
    s.(phases := s.phases[i := phase])
  }

  /** The decisive step of client i: its effect on the store and its result are fixed here. */
  function Decisive(s: State, i: nat, db: Db, phase: Phase): State
    requires i < |s.phases|
  {
    s.(db := db, phases := s.phases[i := phase], log := s.log + [i])
  }

  function Next(w: World, s: State, i: nat): State
    requires Enabled(w, s, i)
  {
    var op := w.ops[i];
    var locks := Locks(w, i);
    match s.phases[i]
    case Start =>
      if Malformed(op) then Decisive(s, i, s.db, Done(DuplicateKey)) else Move(s, i, Locking(0))
    case Locking(held) =>
      if held < |locks| then Move(s, i, Locking(held + 1)).(owner := s.owner[locks[held] := i])
      else if op.DeleteOp? then Decisive(s, i, s.db - {(op.collection, op.key)}, Unlocking(0, Ok))
      else Move(s, i, Reading(0, []))
    case Reading(next, staged) =>
      var rs := RecordsOf(op);
      if next < |rs| then
        match Decide(Lookup(s.db, KeyPair(rs[next])), rs[next])
        case Reject => Decisive(s, i, s.db, Unlocking(0, StaleMutation))
        case Ignore =>
          if op.PutOp? then Decisive(s, i, s.db, Unlocking(0, Ok)) else Move(s, i, Reading(next + 1, staged))
        case Accept => Move(s, i, Reading(next + 1, staged + [rs[next]]))
      else Decisive(s, i, Write(s.db, staged), Unlocking(0, Ok))
    case Unlocking(released, status) =>
      if released < |locks| then Move(s, i, Unlocking(released + 1, status)).(owner := s.owner - {locks[released]})
      else Move(s, i, Done(status))
    case Done(status) => s
  }

  // ------------------------------------------------------------------ the invariant

  function Held(w: World, s: State, i: nat): seq<int>
    requires i < |w.ops| == |s.phases|
  {
    match s.phases[i]
    case Locking(held) => if held <= |Locks(w, i)| then Locks(w, i)[..held] else []
    case Reading(_, _) => Locks(w, i)
    case Unlocking(released, _) => if released <= |Locks(w, i)| then Locks(w, i)[released..] else []
    case _ => []
  }

  ghost predicate LocksAgree(w: World, s: State) {
    && |s.phases| == |w.ops|
    && (forall t :: t in s.owner ==> 0 <= s.owner[t] < |w.ops| && t in Held(w, s, s.owner[t]))
    && (forall i, t :: 0 <= i < |w.ops| && t in Held(w, s, i) ==> t in s.owner && s.owner[t] == i)
  }

  ghost predicate PhaseFits(w: World, s: State, i: nat)
    requires i < |w.ops| == |s.phases|
  {
    match s.phases[i]
    case Start => true
    case Locking(held) => held <= |Locks(w, i)| && !Malformed(w.ops[i])
    case Reading(next, staged) =>
      && !w.ops[i].DeleteOp? && !Malformed(w.ops[i])
      && next <= |RecordsOf(w.ops[i])|
      && Scan(s.db, RecordsOf(w.ops[i])[..next]) == Batch(staged)
    case Unlocking(released, _) => released <= |Locks(w, i)|
    case Done(_) => true
  }

  ghost predicate PhasesFit(w: World, s: State) {
    |s.phases| == |w.ops| && forall i :: 0 <= i < |w.ops| ==> PhaseFits(w, s, i)
  }

  predicate Decided(p: Phase) {
    p.Unlocking? || p.Done?
  }

  /** The store after running the logged operations one at a time. */
  function Serial(w: World, log: seq<int>): Db
    requires forall p :: 0 <= p < |log| ==> 0 <= log[p] < |w.ops|
    decreases |log|
  {
    if log == [] then w.initial else Atomic(Serial(w, log[..|log| - 1]), w.ops[log[|log| - 1]]).0
  }

  ghost predicate LogFits(w: World, s: State) {
    && |s.phases| == |w.ops|
    && NoRepeats(s.log)
    && (forall p :: 0 <= p < |s.log| ==> 0 <= s.log[p] < |w.ops|)
    && (forall i :: 0 <= i < |w.ops| ==> (i in s.log <==> Decided(s.phases[i])))
  }

  /** Store and results are those of running the logged operations one at a time, in log order. */
  ghost predicate Serialized(w: World, s: State) {
    && LogFits(w, s)
    && s.db == Serial(w, s.log)
    && (forall p :: 0 <= p < |s.log| ==>
          Decided(s.phases[s.log[p]]) &&
          s.phases[s.log[p]].status == Atomic(Serial(w, s.log[..p]), w.ops[s.log[p]]).1)
  }

  ghost predicate Inv(w: World, s: State) {
    LocksAgree(w, s) && PhasesFit(w, s) && Serialized(w, s)
  }

  lemma InitInv(w: World)
    ensures Inv(w, Init(w))
  {
  }

  // ------------------------------------------------------------------ steps keep the invariant

  lemma MoveKeepsLog(w: World, s: State, t: State, i: nat)
    requires Serialized(w, s) && i < |w.ops|
    requires t.db == s.db && t.log == s.log && |t.phases| == |s.phases|
    requires forall j :: 0 <= j < |w.ops| && j != i ==> t.phases[j] == s.phases[j]
    requires Decided(t.phases[i]) <==> Decided(s.phases[i])
    requires Decided(s.phases[i]) ==> t.phases[i].status == s.phases[i].status
    ensures Serialized(w, t)
  {
  }

  lemma DecisiveLogFits(w: World, s: State, i: nat, db: Db, phase: Phase)
    requires LogFits(w, s) && i < |w.ops| && !Decided(s.phases[i]) && Decided(phase)
    ensures LogFits(w, Decisive(s, i, db, phase))
  {
    var t := Decisive(s, i, db, phase);
    assert i !in s.log;
    assert forall j :: j in t.log <==> j in s.log || j == i;
  }

  lemma SerialAppend(w: World, log: seq<int>, i: nat)
    requires i < |w.ops| && forall p :: 0 <= p < |log| ==> 0 <= log[p] < |w.ops|
    ensures Serial(w, log + [i]) == Atomic(Serial(w, log), w.ops[i]).0
  {
    assert (log + [i])[..|log|] == log;
  }

  lemma DecisiveKeepsLog(w: World, s: State, i: nat, db: Db, phase: Phase)
    requires Serialized(w, s) && i < |w.ops| && !Decided(s.phases[i]) && Decided(phase)
    requires Atomic(s.db, w.ops[i]) == (db, phase.status)
    ensures Serialized(w, Decisive(s, i, db, phase))
  {
    hide Atomic, LockList, Serial;
    var t := Decisive(s, i, db, phase);
    var n := |s.log|;
    DecisiveLogFits(w, s, i, db, phase);
    SerialAppend(w, s.log, i);
    assert t.log[..n] == s.log;
    forall p | 0 <= p < |t.log|
      ensures Decided(t.phases[t.log[p]])
      ensures t.phases[t.log[p]].status == Atomic(Serial(w, t.log[..p]), w.ops[t.log[p]]).1
    {
      if p < n {
        assert s.log[p] in s.log;
        assert t.log[..p] == s.log[..p];
      }
    }
  }

  /** A lock is held by at most one client. */
  lemma HeldApart(w: World, s: State, i: nat, j: nat, t: int)
    requires LocksAgree(w, s) && i < |w.ops| && j < |w.ops| && i != j
    requires t in Held(w, s, i)
    ensures t !in Held(w, s, j)
  {
    hide LockList, Locks;
    assert t in s.owner && s.owner[t] == i;
    if t in Held(w, s, j) {
      assert false;
    }
  }

  lemma {:induction false} ScanFrame(a: Db, b: Db, rs: seq<DocumentRecord>)
    requires forall i :: 0 <= i < |rs| ==> Lookup(a, KeyPair(rs[i])) == Lookup(b, KeyPair(rs[i]))
    ensures Scan(a, rs) == Scan(b, rs)
    decreases |rs|
  {
    if rs != [] {
      ScanFrame(a, b, rs[..|rs| - 1]);
    }
  }

  lemma {:induction false} ScanWithin(db: Db, rs: seq<DocumentRecord>)
    ensures Scan(db, rs).Batch? ==> forall i :: 0 <= i < |Scan(db, rs).writes| ==> Scan(db, rs).writes[i] in rs
    decreases |rs|
  {
    if rs != [] {
      ScanWithin(db, rs[..|rs| - 1]);
      assert forall r :: r in rs[..|rs| - 1] ==> r in rs;
    }
  }

  lemma {:induction false} WriteFrame(db: Db, rs: seq<DocumentRecord>, k: RecordKey)
    requires forall i :: 0 <= i < |rs| ==> KeyPair(rs[i]) != k
    ensures Lookup(Write(db, rs), k) == Lookup(db, k)
    decreases |rs|
  {
    if rs != [] {
      WriteFrame(db, rs[..|rs| - 1], k);
    }
  }

  /** The keys an operation works on have their stripes in its lock list. */
  lemma KeyIsLocked(w: World, i: nat, n: nat)
    requires i < |w.ops| && n < |RecordsOf(w.ops[i])|
    ensures Stripe(w.hash, KeyPair(RecordsOf(w.ops[i])[n])) in Locks(w, i)
  {
    if !w.ops[i].DeleteOp? {
      assert RecordsOf(w.ops[i])[n] in RecordsOf(w.ops[i]);
    }
  }

  /** Only keys of i's stripes differ between the two stores. */
  ghost predicate ChangesOnly(w: World, i: nat, a: Db, b: Db)
    requires i < |w.ops|
  {
    forall k: RecordKey :: Stripe(w.hash, k) !in Locks(w, i) ==> Lookup(a, k) == Lookup(b, k)
  }

  lemma WriteChangesOnly(w: World, i: nat, db: Db, staged: seq<DocumentRecord>)
    requires i < |w.ops| && Scan(db, RecordsOf(w.ops[i])) == Batch(staged)
    ensures ChangesOnly(w, i, db, Write(db, staged))
  {
    var rs := RecordsOf(w.ops[i]);
    ScanWithin(db, rs);
    forall k: RecordKey | Stripe(w.hash, k) !in Locks(w, i) ensures Lookup(db, k) == Lookup(Write(db, staged), k) {
      forall m | 0 <= m < |staged| ensures KeyPair(staged[m]) != k {
        var n :| 0 <= n < |rs| && rs[n] == staged[m];
        KeyIsLocked(w, i, n);
      }
      WriteFrame(db, staged, k);
    }
  }

  lemma DeleteChangesOnly(w: World, i: nat, db: Db)
    requires i < |w.ops| && w.ops[i].DeleteOp?
    ensures ChangesOnly(w, i, db, db - {(w.ops[i].collection, w.ops[i].key)})
  {
    assert Stripe(w.hash, (w.ops[i].collection, w.ops[i].key)) in StripeSet(w.hash, w.ops[i]);
  }

  /** A version check another client has made stays valid: what a reader has validated does not
      change while it holds its locks. */
  lemma ReadersUndisturbed(w: World, s: State, t: State, i: nat, j: nat)
    requires i < |w.ops| && j < |w.ops| && i != j
    requires LocksAgree(w, s) && PhaseFits(w, s, j) && |t.phases| == |w.ops|
    requires t.phases[j] == s.phases[j]
    requires Held(w, s, i) == Locks(w, i) && ChangesOnly(w, i, s.db, t.db)
    ensures PhaseFits(w, t, j)
  {
    hide LockList, Locks;
    if s.phases[j].Reading? {
      var rs := RecordsOf(w.ops[j]);
      var next := s.phases[j].next;
      forall n | 0 <= n < next ensures Lookup(s.db, KeyPair(rs[..next][n])) == Lookup(t.db, KeyPair(rs[..next][n])) {
        KeyIsLocked(w, j, n);
        HeldApart(w, s, j, i, Stripe(w.hash, KeyPair(rs[n])));
      }
      ScanFrame(s.db, t.db, rs[..next]);
    }
  }

  lemma FitsUnchangedDb(w: World, s: State, t: State, i: nat)
    requires PhasesFit(w, s) && i < |w.ops| && |t.phases| == |w.ops| && t.db == s.db
    requires forall j :: 0 <= j < |w.ops| && j != i ==> t.phases[j] == s.phases[j]
    requires PhaseFits(w, t, i)
    ensures PhasesFit(w, t)
  {
    hide LockList, Locks;
    forall j | 0 <= j < |w.ops| ensures PhaseFits(w, t, j) {
      assert PhaseFits(w, s, j);
    }
  }

  lemma LocksUnchanged(w: World, s: State, t: State, i: nat)
    requires LocksAgree(w, s) && i < |w.ops| && |t.phases| == |w.ops| && t.owner == s.owner
    requires forall j :: 0 <= j < |w.ops| && j != i ==> t.phases[j] == s.phases[j]
    requires forall x :: x in Held(w, t, i) <==> x in Held(w, s, i)
    ensures LocksAgree(w, t)
  {
    hide Locks, Held;
    forall j, x | 0 <= j < |w.ops| ensures x in Held(w, t, j) <==> x in Held(w, s, j) {
      if j != i {
        HeldByPhase(w, s, t, j);
      }
    }
  }

  lemma HeldByPhase(w: World, s: State, t: State, j: nat)
    requires j < |w.ops| == |s.phases| == |t.phases| && t.phases[j] == s.phases[j]
    ensures Held(w, t, j) == Held(w, s, j)
  {
    hide Locks;
  }

  lemma StartKeeps(w: World, s: State, i: nat)
    requires Inv(w, s) && Enabled(w, s, i) && s.phases[i].Start?
    ensures Inv(w, Next(w, s, i))
  {
    hide LockList, Locks, Serialized;
    var t := Next(w, s, i);
    if Malformed(w.ops[i]) {
      DecisiveKeepsLog(w, s, i, s.db, Done(DuplicateKey));
    } else {
      MoveKeepsLog(w, s, t, i);
    }
    LocksUnchanged(w, s, t, i);
    FitsUnchangedDb(w, s, t, i);
  }

  lemma AcquireKeeps(w: World, s: State, i: nat)
    requires Inv(w, s) && Enabled(w, s, i) && s.phases[i].Locking? && s.phases[i].held < |Locks(w, i)|
    ensures Inv(w, Next(w, s, i))
  {
    hide LockList, Locks, Serialized;
    var t := Next(w, s, i);
    assert PhaseFits(w, s, i);
    MoveKeepsLog(w, s, t, i);
    FitsUnchangedDb(w, s, t, i);
    var locks, held := Locks(w, i), s.phases[i].held;
    assert locks[..held + 1] == locks[..held] + [locks[held]];
    forall j, x | 0 <= j < |w.ops| ensures x in Held(w, t, j) <==> x in Held(w, s, j) || (j == i && x == locks[held]) {
    }
  }

  lemma DeleteKeeps(w: World, s: State, i: nat)
    requires Inv(w, s) && Enabled(w, s, i) && s.phases[i].Locking? && s.phases[i].held == |Locks(w, i)|
    requires w.ops[i].DeleteOp?
    ensures Inv(w, Next(w, s, i))
  {
    hide LockList, Locks, Serialized;
    var t := Next(w, s, i);
    DecisiveKeepsLog(w, s, i, t.db, Unlocking(0, Ok));
    LocksUnchanged(w, s, t, i);
    DeleteChangesOnly(w, i, s.db);
    OthersUndisturbed(w, s, t, i);
  }

  lemma OthersUndisturbed(w: World, s: State, t: State, i: nat)
    requires LocksAgree(w, s) && PhasesFit(w, s) && i < |w.ops| && |t.phases| == |w.ops|
    requires forall j :: 0 <= j < |w.ops| && j != i ==> t.phases[j] == s.phases[j]
    requires Held(w, s, i) == Locks(w, i) && ChangesOnly(w, i, s.db, t.db)
    requires PhaseFits(w, t, i)
    ensures PhasesFit(w, t)
  {
    hide LockList, Locks;
    forall j | 0 <= j < |w.ops| ensures PhaseFits(w, t, j) {
      if j != i {
        ReadersUndisturbed(w, s, t, i, j);
      }
    }
  }

  lemma BeginReadingKeeps(w: World, s: State, i: nat)
    requires Inv(w, s) && Enabled(w, s, i) && s.phases[i].Locking? && s.phases[i].held == |Locks(w, i)|
    requires !w.ops[i].DeleteOp?
    ensures Inv(w, Next(w, s, i))
  {
    hide LockList, Locks, Serialized;
    var t := Next(w, s, i);
    assert PhaseFits(w, s, i);
    MoveKeepsLog(w, s, t, i);
    LocksUnchanged(w, s, t, i);
    FitsUnchangedDb(w, s, t, i);
  }

  lemma ReadKeeps(w: World, s: State, i: nat)
    requires Inv(w, s) && Enabled(w, s, i) && s.phases[i].Reading? && s.phases[i].next < |RecordsOf(w.ops[i])|
    ensures Inv(w, Next(w, s, i))
  {
    hide LockList, Locks, Serialized;
    var t := Next(w, s, i);
    var rs, next, staged := RecordsOf(w.ops[i]), s.phases[i].next, s.phases[i].staged;
    assert PhaseFits(w, s, i);
    assert rs[..next + 1][..next] == rs[..next] && rs[..next + 1][next] == rs[next];
    match Decide(Lookup(s.db, KeyPair(rs[next])), rs[next])
    case Reject =>
      RefusalIsFinal(s.db, rs, next);
      DecisiveKeepsLog(w, s, i, s.db, Unlocking(0, StaleMutation));
      LocksUnchanged(w, s, t, i);
      FitsUnchangedDb(w, s, t, i);
    case Ignore =>
      if w.ops[i].PutOp? {
        assert rs[..1] == rs;
        DecisiveKeepsLog(w, s, i, s.db, Unlocking(0, Ok));
      } else {
        MoveKeepsLog(w, s, t, i);
      }
      LocksUnchanged(w, s, t, i);
      FitsUnchangedDb(w, s, t, i);
    case Accept =>
      MoveKeepsLog(w, s, t, i);
      LocksUnchanged(w, s, t, i);
      FitsUnchangedDb(w, s, t, i);
  }

  lemma WriteKeeps(w: World, s: State, i: nat)
    requires Inv(w, s) && Enabled(w, s, i) && s.phases[i].Reading? && s.phases[i].next >= |RecordsOf(w.ops[i])|
    ensures Inv(w, Next(w, s, i))
  {
    hide LockList, Locks, Serialized;
    var t := Next(w, s, i);
    var rs := RecordsOf(w.ops[i]);
    assert PhaseFits(w, s, i);
    assert rs[..|rs|] == rs;
    DecisiveKeepsLog(w, s, i, t.db, Unlocking(0, Ok));
    LocksUnchanged(w, s, t, i);
    WriteChangesOnly(w, i, s.db, s.phases[i].staged);
    OthersUndisturbed(w, s, t, i);
  }

  lemma ReleaseKeeps(w: World, s: State, i: nat)
    requires Inv(w, s) && Enabled(w, s, i) && s.phases[i].Unlocking? && s.phases[i].released < |Locks(w, i)|
    ensures Inv(w, Next(w, s, i))
  {
    hide LockList, Locks, Serialized;
    var t := Next(w, s, i);
    assert PhaseFits(w, s, i);
    MoveKeepsLog(w, s, t, i);
    FitsUnchangedDb(w, s, t, i);
    hide PhasesFit, PhaseFits;
    ReleaseUnlocks(w, s, i);
  }

  lemma ReleaseUnlocks(w: World, s: State, i: nat)
    requires LocksAgree(w, s) && Enabled(w, s, i) && s.phases[i].Unlocking? && s.phases[i].released < |Locks(w, i)|
    ensures LocksAgree(w, Next(w, s, i))
  {
    hide LockList, Locks, Decisive, Serialized, LocksAgree;
    var t := Next(w, s, i);
    var gone := Locks(w, i)[s.phases[i].released];
    ReleasedOne(w, i, s.phases[i].released);
    assert |t.phases| == |s.phases| && t.owner == s.owner - {gone};
    forall x ensures x in Held(w, t, i) <==> x in Held(w, s, i) && x != gone {
    }
    forall j | 0 <= j < |w.ops| && j != i ensures Held(w, t, j) == Held(w, s, j) {
      assert t.phases[j] == s.phases[j];
    }
    hide Next, Held;
    LocksAgreeWithout(w, s, t, i, gone);
  }

  lemma LocksAgreeWithout(w: World, s: State, t: State, i: nat, gone: int)
    requires LocksAgree(w, s) && i < |w.ops| && |t.phases| == |s.phases| && t.owner == s.owner - {gone}
    requires gone in Held(w, s, i)
    requires forall x :: x in Held(w, t, i) <==> x in Held(w, s, i) && x != gone
    requires forall j :: 0 <= j < |w.ops| && j != i ==> Held(w, t, j) == Held(w, s, j)
    ensures LocksAgree(w, t)
  {
    hide Held;
    forall j | 0 <= j < |w.ops| && j != i ensures gone !in Held(w, s, j) {
      HeldApart(w, s, i, j, gone);
    }
  }

  /** Releasing one stripe leaves the others of the list, and it does not come again. */
  lemma ReleasedOne(w: World, i: nat, released: nat)
    requires i < |w.ops| && released < |Locks(w, i)|
    ensures var locks := Locks(w, i);
            forall x :: x in locks[released + 1..] <==> x in locks[released..] && x != locks[released]
  {
    hide Locks;
    var locks := Locks(w, i);
    var rest := locks[released + 1..];
    assert locks[released..] == [locks[released]] + rest;
    forall x | x in rest ensures x != locks[released] {
      LocksApart(w, i, released, x);
    }
  }

  lemma LocksApart(w: World, i: nat, released: nat, x: int)
    requires i < |w.ops| && released < |Locks(w, i)| && x in Locks(w, i)[released + 1..]
    ensures x != Locks(w, i)[released]
  {
    var l := Locks(w, i);
    var j :| released + 1 <= j < |l| && l[j] == x;
  }

  lemma FinishKeeps(w: World, s: State, i: nat)
    requires Inv(w, s) && Enabled(w, s, i) && s.phases[i].Unlocking? && s.phases[i].released >= |Locks(w, i)|
    ensures Inv(w, Next(w, s, i))
  {
    hide LockList, Locks, Serialized;
    var t := Next(w, s, i);
    assert PhaseFits(w, s, i);
    MoveKeepsLog(w, s, t, i);
    FitsUnchangedDb(w, s, t, i);
    LocksUnchanged(w, s, t, i);
  }

  /** Every step of every client keeps locks, readers and serial history consistent. */
  lemma StepKeepsInv(w: World, s: State, i: nat)
    requires Inv(w, s) && Enabled(w, s, i)
    ensures Inv(w, Next(w, s, i))
  {
    assert PhaseFits(w, s, i);
    match s.phases[i]
    case Start => StartKeeps(w, s, i);
    case Locking(held) =>
      if held < |Locks(w, i)| {
        AcquireKeeps(w, s, i);
      } else if w.ops[i].DeleteOp? {
        DeleteKeeps(w, s, i);
      } else {
        BeginReadingKeeps(w, s, i);
      }
    case Reading(next, _) =>
      if next < |RecordsOf(w.ops[i])| {
        ReadKeeps(w, s, i);
      } else {
        WriteKeeps(w, s, i);
      }
    case Unlocking(released, _) =>
      if released < |Locks(w, i)| {
        ReleaseKeeps(w, s, i);
      } else {
        FinishKeeps(w, s, i);
      }
  }

  // ------------------------------------------------------------------ runs

  /** A schedule names the client of each step. */
  predicate Feasible(w: World, s: State, schedule: seq<nat>)
    decreases |schedule|
  {
    schedule == [] || (Enabled(w, s, schedule[0]) && Feasible(w, Next(w, s, schedule[0]), schedule[1..]))
  }

  function Run(w: World, s: State, schedule: seq<nat>): State
    requires Feasible(w, s, schedule)
    decreases |schedule|
  {
    if schedule == [] then s else Run(w, Next(w, s, schedule[0]), schedule[1..])
  }

  lemma LogGrows(w: World, s: State, i: nat)
    requires Enabled(w, s, i)
    ensures s.log <= Next(w, s, i).log
  {
    hide LockList, Locks, Scan, Write, RecordsOf, Malformed;
  }

  lemma {:induction false} RunKeepsInv(w: World, s: State, schedule: seq<nat>)
    requires Inv(w, s) && Feasible(w, s, schedule)
    ensures Inv(w, Run(w, s, schedule))
    ensures s.log <= Run(w, s, schedule).log
    decreases |schedule|
  {
    if schedule != [] {
      hide Inv, Enabled, Next;
      LogGrows(w, s, schedule[0]);
      StepKeepsInv(w, s, schedule[0]);
      RunKeepsInv(w, Next(w, s, schedule[0]), schedule[1..]);
    }
  }

  predicate AllDone(s: State) {
    forall i :: 0 <= i < |s.phases| ==> s.phases[i].Done?
  }

  /** Every interleaving is equivalent to a serial order: the store and every result are those of
      running the decided operations one at a time in log order; and once all clients are done the
      log names each client exactly once. */
  lemma EveryInterleavingIsSerial(w: World, schedule: seq<nat>)
    requires Feasible(w, Init(w), schedule)
    ensures Serialized(w, Run(w, Init(w), schedule))
    ensures AllDone(Run(w, Init(w), schedule)) ==>
              forall i :: 0 <= i < |w.ops| ==> i in Run(w, Init(w), schedule).log
  {
    InitInv(w);
    RunKeepsInv(w, Init(w), schedule);
  }

  /** The serial order respects real time: an operation finished before another begins is logged
      before it. */
  lemma RealTimeOrder(w: World, s: State, schedule: seq<nat>, i: nat, j: nat, p: nat, q: nat)
    requires Inv(w, s) && Feasible(w, s, schedule)
    requires i < |w.ops| && j < |w.ops| && s.phases[i].Done? && s.phases[j].Start?
    requires p < |Run(w, s, schedule).log| && q < |Run(w, s, schedule).log|
    requires Run(w, s, schedule).log[p] == i && Run(w, s, schedule).log[q] == j
    ensures p < q
  {
    hide LocksAgree, PhasesFit, Serialized, Run, Feasible;
    RunKeepsInv(w, s, schedule);
    LoggedOnce(w, s);
    LoggedOnce(w, Run(w, s, schedule));
    var log := Run(w, s, schedule).log;
    InPrefixFirst(s.log, log, p, q);
  }

  /** What stands in a prefix comes before what does not. */
  lemma InPrefixFirst(a: seq<int>, b: seq<int>, p: nat, q: nat)
    requires a <= b && NoRepeats(b) && p < |b| && q < |b| && b[p] in a && b[q] !in a
    ensures p < q
  {
    var r :| 0 <= r < |a| && a[r] == b[p];
    assert b[r] == b[p];
    assert forall x :: 0 <= x < |a| ==> b[x] == a[x] && a[x] in a;
  }

  lemma LoggedOnce(w: World, s: State)
    requires Inv(w, s)
    ensures |s.phases| == |w.ops| && NoRepeats(s.log)
    ensures forall i :: 0 <= i < |w.ops| ==> (i in s.log <==> Decided(s.phases[i]))
  {
    hide LocksAgree, PhasesFit, Serial;
  }

  // ------------------------------------------------------------------ no deadlock, and an end

  /** A blocked client leads to an enabled one: the holder of the wanted stripe, if blocked itself,
      wants a higher stripe. */
  lemma {:induction false} SomeoneCanStep(w: World, s: State, i: nat) returns (j: nat)
    requires Inv(w, s) && i < |w.ops| && !s.phases[i].Done?
    ensures Enabled(w, s, j)
    decreases if s.phases[i].Locking? && s.phases[i].held < |Locks(w, i)| then STRIPES - Locks(w, i)[s.phases[i].held]
        else STRIPES + 1
  {
    j := i;
    hide Serialized, LockList;
    if !Enabled(w, s, i) {
      var wanted := Locks(w, i)[s.phases[i].held];
      var holder := s.owner[wanted];
      assert wanted in Held(w, s, holder);
      assert PhaseFits(w, s, holder) && PhaseFits(w, s, i);
      if s.phases[holder].Locking? && s.phases[holder].held < |Locks(w, holder)| {
        var h := s.phases[holder].held;
        var n :| 0 <= n < h && Locks(w, holder)[n] == wanted;
        j := SomeoneCanStep(w, s, holder);
      } else {
        j := holder;
      }
    }
  }

  /** No reachable state is a deadlock. */
  lemma NoDeadlock(w: World, schedule: seq<nat>)
    requires Feasible(w, Init(w), schedule)
    requires !AllDone(Run(w, Init(w), schedule))
    ensures exists i :: Enabled(w, Run(w, Init(w), schedule), i)
  {
    InitInv(w);
    RunKeepsInv(w, Init(w), schedule);
    var s := Run(w, Init(w), schedule);
    var i :| 0 <= i < |s.phases| && !s.phases[i].Done?;
    var j := SomeoneCanStep(w, s, i);
  }

  /** The steps a client still has before it. */
  function Work(w: World, i: nat, p: Phase): int {
    if i >= |w.ops| then 0
    else
      var locks, records := |Locks(w, i)|, |RecordsOf(w.ops[i])|;
      match p
      case Start => 2 * locks + records + 5
      case Locking(held) => 2 * locks - held + records + 4
      case Reading(next, _) => locks + records - next + 3
      case Unlocking(released, _) => locks - released + 1
      case Done(_) => 0
  }

  function TotalWork(w: World, phases: seq<Phase>): int
    decreases |phases|
  {
    if phases == [] then 0
    else TotalWork(w, phases[..|phases| - 1]) + Work(w, |phases| - 1, phases[|phases| - 1])
  }

  lemma {:induction false} WorkAfterMove(w: World, phases: seq<Phase>, i: nat, p: Phase)
    requires i < |phases|
    ensures TotalWork(w, phases[i := p]) == TotalWork(w, phases) - Work(w, i, phases[i]) + Work(w, i, p)
    decreases |phases|
  {
    hide Work;
    var n := |phases| - 1;
    if i < n {
      assert phases[i := p][..n] == phases[..n][i := p];
      WorkAfterMove(w, phases[..n], i, p);
    } else {
      assert phases[i := p][..n] == phases[..n];
    }
  }

  lemma {:induction false} WorkNotNegative(w: World, s: State, n: nat)
    requires PhasesFit(w, s) && n <= |s.phases|
    ensures TotalWork(w, s.phases[..n]) >= 0
    decreases n
  {
    hide LockList, Locks;
    if n > 0 {
      WorkNotNegative(w, s, n - 1);
      assert s.phases[..n][..n - 1] == s.phases[..n - 1];
      assert PhaseFits(w, s, n - 1);
    }
  }

  lemma OnlyOnePhaseMoves(w: World, s: State, i: nat)
    requires Enabled(w, s, i)
    ensures |Next(w, s, i).phases| == |s.phases|
    ensures Next(w, s, i).phases == s.phases[i := Next(w, s, i).phases[i]]
  {
    hide LockList, Locks, Scan, Write, Malformed, RecordsOf, Decide, Lookup;
  }

  lemma NextWorkIsLess(w: World, s: State, i: nat, p: Phase)
    requires Enabled(w, s, i) && PhaseFits(w, s, i)
    requires |Next(w, s, i).phases| == |s.phases| && p == Next(w, s, i).phases[i]
    ensures Work(w, i, p) < Work(w, i, s.phases[i])
  {
    hide LockList, Locks, Scan, Write, Malformed, RecordsOf, Decide, Lookup;
    match s.phases[i]
    case Start =>
      assert p == Done(DuplicateKey) || p == Locking(0);
    case Locking(held) =>
      assert p == Locking(held + 1) || p == Unlocking(0, Ok) || p == Reading(0, []);
    case Reading(next, staged) =>
      assert p.Unlocking? || (p.Reading? && p.next == next + 1);
    case Unlocking(released, status) =>
      assert p == Unlocking(released + 1, status) || p == Done(status);
  }

  lemma StepUsesWork(w: World, s: State, i: nat)
    requires Enabled(w, s, i) && PhaseFits(w, s, i)
    ensures TotalWork(w, Next(w, s, i).phases) < TotalWork(w, s.phases)
  {
    OnlyOnePhaseMoves(w, s, i);
    var p := Next(w, s, i).phases[i];
    NextWorkIsLess(w, s, i, p);
    hide Next, Work, PhaseFits;
    WorkAfterMove(w, s.phases, i, p);
  }

  lemma {:induction false} RunIsBounded(w: World, s: State, schedule: seq<nat>)
    requires Inv(w, s) && Feasible(w, s, schedule)
    ensures |schedule| <= TotalWork(w, s.phases)
    decreases |schedule|
  {
    hide Next, PhaseFits, Serialized, LocksAgree, TotalWork;
    if schedule == [] {
      WorkNotNegative(w, s, |s.phases|);
      assert s.phases[..|s.phases|] == s.phases;
    } else {
      assert PhaseFits(w, s, schedule[0]);
      StepUsesWork(w, s, schedule[0]);
      StepKeepsInv(w, s, schedule[0]);
      RunIsBounded(w, Next(w, s, schedule[0]), schedule[1..]);
    }
  }

  /** So every run can only go on for a bounded number of steps, and one that cannot go on has
      finished every operation. */
  lemma EveryRunFinishes(w: World, schedule: seq<nat>)
    requires Feasible(w, Init(w), schedule)
    ensures |schedule| <= TotalWork(w, Init(w).phases)
    ensures (forall i :: !Enabled(w, Run(w, Init(w), schedule), i)) ==> AllDone(Run(w, Init(w), schedule))
  {
    InitInv(w);
    RunIsBounded(w, Init(w), schedule);
    if !AllDone(Run(w, Init(w), schedule)) {
      NoDeadlock(w, schedule);
    }
  }
}
