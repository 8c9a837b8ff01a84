/** The protocol between the nodes: clients put, nodes scan, post, take answers and delete, in any
    interleaving. Messages may be lost, delayed and repeated, acknowledgements may be lost, and a node
    may crash and come back with its task log or without it. */
module MigrationProtocol {
  import opened ByteStrings
  import opened Documents
  import opened Mutations
  import opened DataMigration

  /** A posted record on its way; it may arrive never, late, or more than once. */
  datatype Message = Message(target: nat, record: DocumentRecord)

  /** A client's put that a node has found to be its own key and has not stored yet. */
  datatype Admitted = Admitted(n: nat, record: DocumentRecord)

  datatype Cluster = Cluster(nodes: seq<Node>, admitted: set<Admitted>, wire: set<Message>, acked: set<Message>)

  datatype Action =
    | Admit(n: nat, record: DocumentRecord)
    | ClientPut(n: nat, record: DocumentRecord)
    | ReadPage(n: nat, page: seq<DocumentRecord>)
    | EnqueueNext(n: nat, task: Task)
    | PersistTasks(n: nat)
    | Post(n: nat, key: ByteString)
    | Arrive(message: Message, stored: DocumentRecord)
    | Answered(n: nat, key: ByteString, ok: bool, deleteAfter: int)
    | TakeDue(n: nat, index: nat)
    | ResolveDue(n: nat)
    | DeleteCondemned(n: nat)
    | CrashRestart(n: nat, logKept: bool)

  /** The record the target stores for a posted one: PrepareMutation may add a mutation id, a trace
      id may join the metadata; key and version stay. */
  predicate StoredFor(w: World, posted: DocumentRecord, stored: DocumentRecord) {
    && KeyPair(stored) == KeyPair(posted) && stored.version == posted.version
    && (posted.mutationId != [] ==> stored.mutationId == posted.mutationId)
    && VersionFits(w, stored)
  }

  /** The route of the first due delete is looked up: it is dropped if the key is the node's own now,
      and condemned otherwise. */
  function Resolve(w: World, me: nat, node: Node): Node
    requires node.due != []
  {
    if w.owner(KeyPair(node.due[0].record)) == me then node.(due := node.due[1..])
    else node.(due := node.due[1..], condemned := node.condemned + [node.due[0]])
  }

  predicate Possible(w: World, c: Cluster, a: Action) {
    match a
    case Admit(n, r) => n < |c.nodes| && w.owner(KeyPair(r)) == n && VersionFits(w, r)
    case ClientPut(n, r) => n < |c.nodes| && Admitted(n, r) in c.admitted
    case ReadPage(n, page) =>
      n < |c.nodes| && forall i :: 0 <= i < |page| ==> Lookup(c.nodes[n].store, KeyPair(page[i])) == Some(page[i])
    case EnqueueNext(n, task) => n < |c.nodes| && c.nodes[n].page != [] && task.record == c.nodes[n].page[0]
    case PersistTasks(n) => n < |c.nodes|
    case Post(n, key) => n < |c.nodes| && key in c.nodes[n].pending
    case Arrive(m, stored) => m in c.wire && m.target < |c.nodes| && StoredFor(w, m.record, stored)
    case Answered(n, key, ok, _) =>
      && n < |c.nodes| && key in c.nodes[n].pending
      && (ok ==> Message(c.nodes[n].pending[key].target, c.nodes[n].pending[key].record) in c.acked)
    case TakeDue(n, index) => n < |c.nodes| && index < |c.nodes[n].delayed|
    case ResolveDue(n) => n < |c.nodes| && c.nodes[n].due != []
    case DeleteCondemned(n) => n < |c.nodes| && c.nodes[n].condemned != []
    case CrashRestart(n, _) => n < |c.nodes|
  }

  function Next(w: World, c: Cluster, a: Action): Cluster
    requires Possible(w, c, a)
  {
    match a
    case Admit(n, r) => c.(admitted := c.admitted + {Admitted(n, r)})
    case ClientPut(n, r) => SetNode(c, n, c.nodes[n].(store := PutLocal(c.nodes[n].store, r)))
    case ReadPage(n, page) => SetNode(c, n, c.nodes[n].(page := page))
    case EnqueueNext(n, task) =>
      SetNode(c, n, Enqueue(w, n, c.nodes[n], task.record, task).(page := c.nodes[n].page[1..]))
    case PersistTasks(n) => SetNode(c, n, Persist(c.nodes[n]))
    case Post(n, key) => c.(wire := c.wire + {Message(c.nodes[n].pending[key].target, c.nodes[n].pending[key].record)})
    case Arrive(m, stored) =>
      var target := c.nodes[m.target];
      var refused := Decide(Lookup(target.store, KeyPair(stored)), stored) == Reject;
      var d := SetNode(c, m.target, target.(store := PutLocal(target.store, stored)));
      if refused then d else d.(acked := c.acked + {m})
    case Answered(n, key, ok, deleteAfter) => SetNode(c, n, FinishPost(w, c.nodes[n], key, ok, deleteAfter))
    case TakeDue(n, index) =>
      var node := c.nodes[n];
      SetNode(c, n, node.(delayed := node.delayed[..index] + node.delayed[index + 1..],
                          due := node.due + [node.delayed[index]]))
    case ResolveDue(n) => SetNode(c, n, Resolve(w, n, c.nodes[n]))
    case DeleteCondemned(n) =>
      var node := c.nodes[n];
      SetNode(c, n, node.(store := node.store - {KeyPair(node.condemned[0].record)}, condemned := node.condemned[1..]))
    case CrashRestart(n, logKept) => SetNode(c, n, Restart(if logKept then c.nodes[n] else c.nodes[n].(log := [])))
  }

  function SetNode(c: Cluster, n: nat, node: Node): Cluster
    requires n < |c.nodes|
  {
    c.(nodes := c.nodes[n := node])
  }

  // ------------------------------------------------------------------ the invariant

  ghost predicate StoreFits(w: World, m: Stored) {
    forall k :: k in m ==> KeyPair(m[k]) == k && VersionFits(w, m[k])
  }

  /** The target holds this record's key in at least this record's version. */
  predicate Covered(c: Cluster, target: nat, r: DocumentRecord) {
    target < |c.nodes| && KeyPair(r) in c.nodes[target].store && c.nodes[target].store[KeyPair(r)].version >= r.version
  }

  /** A record read from a store that does not own it: the copy there, if still there, is this one. */
  predicate CopyFits(w: World, me: nat, m: Stored, r: DocumentRecord) {
    && VersionFits(w, r)
    && (w.owner(KeyPair(r)) != me && KeyPair(r) in m ==> m[KeyPair(r)] == r)
  }

  predicate TaskFits(w: World, me: nat, m: Stored, t: Task) {
    CopyFits(w, me, m, t.record) && t.target == w.owner(KeyPair(t.record)) && t.target != me
  }

  ghost predicate NodeFits(w: World, c: Cluster, n: nat)
    requires n < |c.nodes|
  {
    var node := c.nodes[n];
    && StoreFits(w, node.store)
    && (forall i :: 0 <= i < |node.page| ==> CopyFits(w, n, node.store, node.page[i]))
    && (forall k :: k in node.pending ==> TaskFits(w, n, node.store, node.pending[k]))
    && (forall i :: 0 <= i < |node.log| ==> ItemFits(w, c, n, node.log[i]))
    && DeletesFit(w, c, n, node.delayed)
    && DeletesFit(w, c, n, node.due)
    && DeletesFit(w, c, n, node.condemned)
  }

  predicate ItemFits(w: World, c: Cluster, n: nat, item: LogItem)
    requires n < |c.nodes|
  {
    TaskFits(w, n, c.nodes[n].store, item.task) && (item.deleting ==> Covered(c, item.task.target, item.task.record))
  }

  predicate DeletesFit(w: World, c: Cluster, n: nat, tasks: seq<Task>)
    requires n < |c.nodes|
  {
    forall i :: 0 <= i < |tasks| ==>
      TaskFits(w, n, c.nodes[n].store, tasks[i]) && Covered(c, tasks[i].target, tasks[i].record)
  }

  ghost predicate Inv(w: World, c: Cluster) {
    && |c.nodes| == w.nodeCount
    && (forall n :: 0 <= n < |c.nodes| ==> NodeFits(w, c, n))
    && (forall m :: m in c.wire ==> m.target == w.owner(KeyPair(m.record)) && VersionFits(w, m.record))
    && (forall m :: m in c.acked ==> Covered(c, m.target, m.record))
    && (forall p :: p in c.admitted ==> p.n == w.owner(KeyPair(p.record)) && VersionFits(w, p.record))
  }

  /** Any stores to begin with, and no tasks left from an earlier ring. */
  ghost predicate Fresh(w: World, c: Cluster) {
    && |c.nodes| == w.nodeCount && c.admitted == {} && c.wire == {} && c.acked == {}
    && forall n :: 0 <= n < |c.nodes| ==>
         StoreFits(w, c.nodes[n].store) && c.nodes[n] == Node(c.nodes[n].store, [], [], map[], [], [], [])
  }

  lemma FreshIsInv(w: World, c: Cluster)
    requires Fresh(w, c)
    ensures Inv(w, c)
  {
  }

  // ------------------------------------------------------------------ what steps do to the stores

  /** How a store may change: the owner's copies never go away and never get older, other nodes'
      copies never change except by going away. */
  ghost predicate StoreMoves(w: World, n: nat, a: Stored, b: Stored) {
    && (forall k :: k in a && w.owner(k) == n ==> k in b && b[k].version >= a[k].version)
    && (forall k :: k in b && w.owner(k) != n ==> k in a && a[k] == b[k])
  }

  ghost predicate ClusterMoves(w: World, c: Cluster, d: Cluster) {
    |c.nodes| == |d.nodes| && forall n :: 0 <= n < |c.nodes| ==> StoreMoves(w, n, c.nodes[n].store, d.nodes[n].store)
  }

  lemma PutMoves(w: World, n: nat, m: Stored, r: DocumentRecord)
    requires StoreFits(w, m) && VersionFits(w, r) && w.owner(KeyPair(r)) == n
    ensures StoreMoves(w, n, m, PutLocal(m, r)) && StoreFits(w, PutLocal(m, r))
  {
  }

  /** The put is ignored as a repeated mutation although the stored version is older. */
  predicate ShortIgnored(m: Stored, r: DocumentRecord) {
    Decide(Lookup(m, KeyPair(r)), r) == Ignore && m[KeyPair(r)].version < r.version
  }

  /** A put that is not rejected, and so acknowledged, leaves its version or a later one exactly when
      it is not ignored over an older version. */
  lemma AckCoversExactly(w: World, m: Stored, r: DocumentRecord)
    requires StoreFits(w, m) && r.version != 0 && Decide(Lookup(m, KeyPair(r)), r) != Reject
    ensures (KeyPair(r) in PutLocal(m, r) && PutLocal(m, r)[KeyPair(r)].version >= r.version) <==> !ShortIgnored(m, r)
  {
  }

  /** The step acknowledges a post whose version the target does not have. */
  predicate ShortAck(c: Cluster, a: Action) {
    a.Arrive? && a.message.target < |c.nodes| && ShortIgnored(c.nodes[a.message.target].store, a.stored)
  }

  lemma CoveredStays(w: World, c: Cluster, d: Cluster, target: nat, r: DocumentRecord)
    requires ClusterMoves(w, c, d) && Covered(c, target, r) && target == w.owner(KeyPair(r))
    ensures Covered(d, target, r)
  {
    assert StoreMoves(w, target, c.nodes[target].store, d.nodes[target].store);
  }

  lemma CopyStays(w: World, n: nat, a: Stored, b: Stored, r: DocumentRecord)
    requires StoreMoves(w, n, a, b) && CopyFits(w, n, a, r)
    ensures CopyFits(w, n, b, r)
  {
  }

  lemma DeletesStay(w: World, c: Cluster, d: Cluster, n: nat, tasks: seq<Task>)
    requires n < |c.nodes| && ClusterMoves(w, c, d) && DeletesFit(w, c, n, tasks)
    ensures DeletesFit(w, d, n, tasks)
  {
    forall i | 0 <= i < |tasks|
      ensures TaskFits(w, n, d.nodes[n].store, tasks[i]) && Covered(d, tasks[i].target, tasks[i].record)
    {
      CopyStays(w, n, c.nodes[n].store, d.nodes[n].store, tasks[i].record);
      CoveredStays(w, c, d, tasks[i].target, tasks[i].record);
    }
  }

  /** A node whose own memory is as before still fits after the stores moved. */
  lemma NodeStays(w: World, c: Cluster, d: Cluster, n: nat)
    requires n < |c.nodes| && ClusterMoves(w, c, d) && NodeFits(w, c, n)
    requires StoreFits(w, d.nodes[n].store)
    requires d.nodes[n] == c.nodes[n].(store := d.nodes[n].store)
    ensures NodeFits(w, d, n)
  {
    var a, b := c.nodes[n].store, d.nodes[n].store;
    forall i | 0 <= i < |c.nodes[n].page| ensures CopyFits(w, n, b, c.nodes[n].page[i]) {
      CopyStays(w, n, a, b, c.nodes[n].page[i]);
    }
    forall k | k in c.nodes[n].pending ensures TaskFits(w, n, b, c.nodes[n].pending[k]) {
      CopyStays(w, n, a, b, c.nodes[n].pending[k].record);
    }
    forall i | 0 <= i < |c.nodes[n].log| ensures ItemFits(w, d, n, c.nodes[n].log[i]) {
      var item := c.nodes[n].log[i];
      assert ItemFits(w, c, n, item);
      CopyStays(w, n, a, b, item.task.record);
      if item.deleting {
        CoveredStays(w, c, d, item.task.target, item.task.record);
      }
    }
    DeletesStay(w, c, d, n, c.nodes[n].delayed);
    DeletesStay(w, c, d, n, c.nodes[n].due);
    DeletesStay(w, c, d, n, c.nodes[n].condemned);
  }

  /** The cluster fits again when only node n's memory or store changed and that node fits. */
  lemma ClusterStays(w: World, c: Cluster, d: Cluster, n: nat)
    requires Inv(w, c) && n < |c.nodes| && ClusterMoves(w, c, d)
    requires forall j :: 0 <= j < |c.nodes| && j != n ==> d.nodes[j] == c.nodes[j]
    requires NodeFits(w, d, n)
    requires forall m :: m in d.wire ==> m.target == w.owner(KeyPair(m.record)) && VersionFits(w, m.record)
    requires forall m :: m in d.acked ==> m in c.acked || Covered(d, m.target, m.record)
    requires forall m :: m in c.acked ==> m.target == w.owner(KeyPair(m.record))
    requires forall p :: p in d.admitted ==> p.n == w.owner(KeyPair(p.record)) && VersionFits(w, p.record)
    ensures Inv(w, d)
  {
    forall j | 0 <= j < |d.nodes| ensures NodeFits(w, d, j) {
      if j != n {
        assert NodeFits(w, c, j);
        NodeStays(w, c, d, j);
      }
    }
    forall m | m in d.acked ensures Covered(d, m.target, m.record) {
      if m in c.acked {
        CoveredStays(w, c, d, m.target, m.record);
      }
    }
  }

  /** Acknowledged messages were on the wire, so they went to the owner. */
  ghost predicate AckedWasSent(c: Cluster) {
    c.acked <= c.wire
  }

  lemma SameStoresMove(w: World, c: Cluster, d: Cluster)
    requires |c.nodes| == |d.nodes|
    requires forall n :: 0 <= n < |c.nodes| ==> d.nodes[n].store == c.nodes[n].store
    ensures ClusterMoves(w, c, d)
  {
  }

  ghost predicate Good(w: World, c: Cluster) {
    Inv(w, c) && AckedWasSent(c)
  }

  /** A step that changes only the store of node n, as stores may change, and acknowledges only what
      the target then holds. */
  lemma StoreKeeps(w: World, c: Cluster, d: Cluster, n: nat)
    requires Good(w, c) && n < |c.nodes| == |d.nodes| && d.nodes == c.nodes[n := c.nodes[n].(store := d.nodes[n].store)]
    requires StoreMoves(w, n, c.nodes[n].store, d.nodes[n].store) && StoreFits(w, d.nodes[n].store)
    requires d.wire == c.wire && d.acked <= d.wire && d.admitted == c.admitted
    requires forall m :: m in d.acked ==> m in c.acked || Covered(d, m.target, m.record)
    ensures Good(w, d) && ClusterMoves(w, c, d)
  {
    hide NodeFits, StoreMoves, StoreFits, Covered;
    assert NodeFits(w, c, n);
    OneStoreMoves(w, c, d, n);
    NodeStays(w, c, d, n);
    ClusterStays(w, c, d, n);
  }

  lemma OneStoreMoves(w: World, c: Cluster, d: Cluster, n: nat)
    requires n < |c.nodes| == |d.nodes| && d.nodes == c.nodes[n := c.nodes[n].(store := d.nodes[n].store)]
    requires StoreMoves(w, n, c.nodes[n].store, d.nodes[n].store)
    ensures ClusterMoves(w, c, d)
  {
    forall j | 0 <= j < |c.nodes| ensures StoreMoves(w, j, c.nodes[j].store, d.nodes[j].store) {
      if j != n {
        assert d.nodes[j] == c.nodes[j];
      }
    }
  }

  lemma ClientPutKeeps(w: World, c: Cluster, a: Action)
    requires Good(w, c) && Possible(w, c, a) && a.ClientPut?
    ensures Good(w, Next(w, c, a)) && ClusterMoves(w, c, Next(w, c, a))
  {
    hide Covered, VersionFits, StoreMoves, PutLocal, ClusterMoves;
    assert NodeFits(w, c, a.n);
    hide NodeFits, StoreFits;
    PutMoves(w, a.n, c.nodes[a.n].store, a.record);
    StoreKeeps(w, c, Next(w, c, a), a.n);
  }

  lemma ArriveKeeps(w: World, c: Cluster, a: Action)
    requires Good(w, c) && Possible(w, c, a) && a.Arrive? && !ShortAck(c, a)
    ensures Good(w, Next(w, c, a)) && ClusterMoves(w, c, Next(w, c, a))
  {
    hide VersionFits, StoreMoves, PutLocal, ClusterMoves, Decide, ShortIgnored;
    var n := a.message.target;
    assert NodeFits(w, c, n);
    assert a.stored.version != 0 by {
      NonZero(w, a.stored);
    }
    hide NodeFits, StoreFits;
    PutMoves(w, n, c.nodes[n].store, a.stored);
    if Decide(Lookup(c.nodes[n].store, KeyPair(a.stored)), a.stored) != Reject {
      AckCoversExactly(w, c.nodes[n].store, a.stored);
    }
    StoreKeeps(w, c, Next(w, c, a), n);
  }

  lemma NonZero(w: World, r: DocumentRecord)
    requires VersionFits(w, r)
    ensures r.version != 0
  {
  }

  /** Deleting by key removes a copy that the owner holds in at least the same version. */
  lemma DeleteKeeps(w: World, c: Cluster, a: Action)
    requires Good(w, c) && Possible(w, c, a) && a.DeleteCondemned?
    ensures Good(w, Next(w, c, a)) && ClusterMoves(w, c, Next(w, c, a))
  {
    var n := a.n;
    var node := c.nodes[n];
    assert NodeFits(w, c, n);
    var m := node.store - {KeyPair(node.condemned[0].record)};
    assert StoreMoves(w, n, node.store, m) && StoreFits(w, m);
    var middle := SetNode(c, n, node.(store := m));
    hide NodeFits, StoreMoves, StoreFits, Covered;
    StoreKeeps(w, c, middle, n);
    DropFirstKeeps(w, middle, Next(w, c, a), n);
  }

  /** Forgetting the first condemned task. */
  lemma DropFirstKeeps(w: World, c: Cluster, d: Cluster, n: nat)
    requires Good(w, c) && n < |c.nodes| && c.nodes[n].condemned != []
    requires d == SetNode(c, n, c.nodes[n].(condemned := c.nodes[n].condemned[1..]))
    ensures Good(w, d)
    ensures forall b: Cluster :: ClusterMoves(w, b, c) ==> ClusterMoves(w, b, d)
  {
    assert NodeFits(w, c, n);
    SameStoresMove(w, c, d);
    SameMemory(w, c, d, n);
    assert NodeFits(w, d, n);
    hide NodeFits, StoreMoves, Covered;
    ClusterStays(w, c, d, n);
  }

  /** The step changes one node's memory or log and nothing else. */
  predicate MemoryStep(a: Action) {
    || a.ReadPage?
    || a.EnqueueNext?
    || a.PersistTasks?
    || a.Answered?
    || a.TakeDue?
    || a.ResolveDue?
    || a.CrashRestart?
  }

  lemma MemoryKeeps(w: World, c: Cluster, a: Action)
    requires Good(w, c) && Possible(w, c, a)
    requires MemoryStep(a)
    ensures Good(w, Next(w, c, a)) && ClusterMoves(w, c, Next(w, c, a))
  {
    hide NodeFits, Next;
    var d := Next(w, c, a);
    MemoryOnly(w, c, a);
    SameStoresMove(w, c, d);
    MemoryFits(w, c, a);
    ClusterStays(w, c, d, a.n);
  }

  lemma MemoryOnly(w: World, c: Cluster, a: Action)
    requires Possible(w, c, a)
    requires MemoryStep(a)
    ensures var d := Next(w, c, a);
            && |d.nodes| == |c.nodes| && d.admitted == c.admitted && d.wire == c.wire && d.acked == c.acked
            && (forall j :: 0 <= j < |c.nodes| && j != a.n ==> d.nodes[j] == c.nodes[j])
            && (forall j :: 0 <= j < |c.nodes| ==> d.nodes[j].store == c.nodes[j].store)
  {
    hide NodeFits, Written, RecoveredPending, RecoveredDeletes;
  }

  /** Same stores, so what was covered stays so; the rest is one case for each action. */
  lemma MemoryFits(w: World, c: Cluster, a: Action)
    requires Good(w, c) && Possible(w, c, a)
    requires MemoryStep(a)
    ensures NodeFits(w, Next(w, c, a), a.n)
  {
    match a
    case ReadPage(n, page) => PageFits(w, c, n, page);
    case EnqueueNext(n, task) => EnqueueFits(w, c, n, task);
    case PersistTasks(n) => PersistFits(w, c, n);
    case Answered(n, key, ok, deleteAfter) => AnsweredFits(w, c, n, key, ok, deleteAfter);
    case TakeDue(n, index) => TakeDueFits(w, c, n, index);
    case ResolveDue(n) => ResolveFits(w, c, n);
    case CrashRestart(n, logKept) => RestartFits(w, c, n, logKept);
  }

  lemma PageFits(w: World, c: Cluster, n: nat, page: seq<DocumentRecord>)
    requires Good(w, c) && Possible(w, c, ReadPage(n, page))
    ensures NodeFits(w, Next(w, c, ReadPage(n, page)), n)
  {
    assert NodeFits(w, c, n);
    SameMemory(w, c, Next(w, c, ReadPage(n, page)), n);
  }

  lemma EnqueueFits(w: World, c: Cluster, n: nat, task: Task)
    requires Good(w, c) && Possible(w, c, EnqueueNext(n, task))
    ensures NodeFits(w, Next(w, c, EnqueueNext(n, task)), n)
  {
    assert NodeFits(w, c, n);
    SameMemory(w, c, Next(w, c, EnqueueNext(n, task)), n);
  }

  lemma PersistFits(w: World, c: Cluster, n: nat)
    requires Good(w, c) && Possible(w, c, PersistTasks(n))
    ensures NodeFits(w, Next(w, c, PersistTasks(n)), n)
  {
    hide Written;
    var d := Next(w, c, PersistTasks(n));
    assert NodeFits(w, c, n);
    SameMemory(w, c, d, n);
    WrittenFromTasks(c.nodes[n].pending, c.nodes[n].delayed);
    forall i | 0 <= i < |d.nodes[n].log| ensures ItemFits(w, d, n, d.nodes[n].log[i]) {
      if d.nodes[n].log[i].deleting {
        assert d.nodes[n].log[i].task in c.nodes[n].delayed;
      }
    }
  }

  lemma AnsweredFits(w: World, c: Cluster, n: nat, key: ByteString, ok: bool, deleteAfter: int)
    requires Good(w, c) && Possible(w, c, Answered(n, key, ok, deleteAfter))
    ensures NodeFits(w, Next(w, c, Answered(n, key, ok, deleteAfter)), n)
  {
    assert NodeFits(w, c, n);
    SameMemory(w, c, Next(w, c, Answered(n, key, ok, deleteAfter)), n);
  }

  lemma TakeDueFits(w: World, c: Cluster, n: nat, index: nat)
    requires Good(w, c) && Possible(w, c, TakeDue(n, index))
    ensures NodeFits(w, Next(w, c, TakeDue(n, index)), n)
  {
    assert NodeFits(w, c, n);
    SameMemory(w, c, Next(w, c, TakeDue(n, index)), n);
  }

  lemma ResolveFits(w: World, c: Cluster, n: nat)
    requires Good(w, c) && Possible(w, c, ResolveDue(n))
    ensures NodeFits(w, Next(w, c, ResolveDue(n)), n)
  {
    assert NodeFits(w, c, n);
    SameMemory(w, c, Next(w, c, ResolveDue(n)), n);
  }

  lemma RestartFits(w: World, c: Cluster, n: nat, logKept: bool)
    requires Good(w, c) && Possible(w, c, CrashRestart(n, logKept))
    ensures NodeFits(w, Next(w, c, CrashRestart(n, logKept)), n)
  {
    var d := Next(w, c, CrashRestart(n, logKept));
    assert NodeFits(w, c, n);
    SameMemory(w, c, d, n);
    RecoveredFromLog(d.nodes[n].log);
    forall item | item in c.nodes[n].log ensures ItemFits(w, d, n, item) {
      assert ItemFits(w, c, n, item);
    }
    assert forall k :: k in d.nodes[n].pending ==> ItemFits(w, d, n, LogItem(false, d.nodes[n].pending[k]));
    assert forall i :: 0 <= i < |d.nodes[n].delayed| ==> ItemFits(w, d, n, LogItem(true, d.nodes[n].delayed[i]));
  }

  lemma SameMemory(w: World, c: Cluster, d: Cluster, n: nat)
    requires n < |c.nodes| == |d.nodes| && NodeFits(w, c, n)
    requires forall j :: 0 <= j < |c.nodes| ==> d.nodes[j].store == c.nodes[j].store
    ensures forall target: nat, r :: Covered(c, target, r) <==> Covered(d, target, r)
    ensures forall i :: 0 <= i < |c.nodes[n].log| ==> ItemFits(w, d, n, c.nodes[n].log[i])
    ensures DeletesFit(w, d, n, c.nodes[n].delayed)
    ensures DeletesFit(w, d, n, c.nodes[n].due) && DeletesFit(w, d, n, c.nodes[n].condemned)
  {
    assert forall i :: 0 <= i < |c.nodes[n].log| ==> ItemFits(w, c, n, c.nodes[n].log[i]);
  }

  /** Posting and admitting touch no node. */
  lemma OutsideKeeps(w: World, c: Cluster, a: Action)
    requires Good(w, c) && Possible(w, c, a) && (a.Post? || a.Admit?)
    ensures Good(w, Next(w, c, a)) && ClusterMoves(w, c, Next(w, c, a))
  {
    var d := Next(w, c, a);
    assert NodeFits(w, c, a.n);
    SameStoresMove(w, c, d);
    NodeStays(w, c, d, a.n);
    ClusterStays(w, c, d, a.n);
  }

  lemma StepKeeps(w: World, c: Cluster, a: Action)
    requires Good(w, c) && Possible(w, c, a) && !ShortAck(c, a)
    ensures Good(w, Next(w, c, a)) && ClusterMoves(w, c, Next(w, c, a))
  {
    match a
    case ClientPut(_, _) => ClientPutKeeps(w, c, a);
    case Arrive(_, _) => ArriveKeeps(w, c, a);
    case DeleteCondemned(_) => DeleteKeeps(w, c, a);
    case Post(_, _) => OutsideKeeps(w, c, a);
    case Admit(_, _) => OutsideKeeps(w, c, a);
    case _ => MemoryKeeps(w, c, a);
  }

  // ------------------------------------------------------------------ no version is ever lost

  /** Some node holds key k in version v or a later one. */
  ghost predicate HeldSomewhere(c: Cluster, k: RecordKey, v: nat) {
    exists n :: 0 <= n < |c.nodes| && k in c.nodes[n].store && c.nodes[n].store[k].version >= v
  }

  /** Only a condemned delete removes a copy, and the owner then holds the same version or a later one. */
  lemma OnlyDeletesRemove(w: World, c: Cluster, a: Action, k: RecordKey, n: nat) returns (owner: nat)
    requires Good(w, c) && Possible(w, c, a)
    requires n < |c.nodes| && k in c.nodes[n].store && k !in Next(w, c, a).nodes[n].store
    ensures owner == w.owner(k) && owner < |c.nodes|
    ensures k in c.nodes[owner].store && c.nodes[owner].store[k].version >= c.nodes[n].store[k].version
  {
    owner := w.owner(k);
    OnlyDeletes(w, c, a, k, n);
    assert NodeFits(w, c, n);
    var task := c.nodes[n].condemned[0];
    assert TaskFits(w, n, c.nodes[n].store, task) && Covered(c, task.target, task.record);
  }

  lemma OnlyDeletes(w: World, c: Cluster, a: Action, k: RecordKey, n: nat)
    requires Possible(w, c, a) && n < |c.nodes| && k in c.nodes[n].store && k !in Next(w, c, a).nodes[n].store
    ensures a.DeleteCondemned? && a.n == n && KeyPair(c.nodes[n].condemned[0].record) == k
  {
    hide NodeFits;
  }

  lemma StepLosesNothing(w: World, c: Cluster, a: Action, k: RecordKey, v: nat)
    requires Good(w, c) && Possible(w, c, a) && !ShortAck(c, a) && HeldSomewhere(c, k, v)
    ensures HeldSomewhere(Next(w, c, a), k, v)
  {
    hide Next, NodeFits;
    var d := Next(w, c, a);
    StepKeeps(w, c, a);
    var n :| 0 <= n < |c.nodes| && k in c.nodes[n].store && c.nodes[n].store[k].version >= v;
    assert StoreMoves(w, n, c.nodes[n].store, d.nodes[n].store);
    if k !in d.nodes[n].store {
      var owner := OnlyDeletesRemove(w, c, a, k, n);
      assert StoreMoves(w, owner, c.nodes[owner].store, d.nodes[owner].store);
    }
  }

  predicate Runs(w: World, c: Cluster, actions: seq<Action>)
    decreases |actions|
  {
    actions == [] || (Possible(w, c, actions[0]) && Runs(w, Next(w, c, actions[0]), actions[1..]))
  }

  function Run(w: World, c: Cluster, actions: seq<Action>): Cluster
    requires Runs(w, c, actions)
    decreases |actions|
  {
    if actions == [] then c else Run(w, Next(w, c, actions[0]), actions[1..])
  }

  /** No step of the run acknowledges a post whose version the target does not have. */
  predicate NoShortAck(w: World, c: Cluster, actions: seq<Action>)
    requires Runs(w, c, actions)
    decreases |actions|
  {
    actions == [] || (!ShortAck(c, actions[0]) && NoShortAck(w, Next(w, c, actions[0]), actions[1..]))
  }

  lemma {:induction false} RunLosesNothing(w: World, c: Cluster, actions: seq<Action>, k: RecordKey, v: nat)
    requires Good(w, c) && Runs(w, c, actions) && NoShortAck(w, c, actions) && HeldSomewhere(c, k, v)
    ensures Good(w, Run(w, c, actions)) && HeldSomewhere(Run(w, c, actions), k, v)
    decreases |actions|
  {
    hide Next, Possible, Good, ShortAck;
    if actions != [] {
      StepKeeps(w, c, actions[0]);
      StepLosesNothing(w, c, actions[0], k, v);
      RunLosesNothing(w, Next(w, c, actions[0]), actions[1..], k, v);
    }
  }

  lemma {:induction false} RunSplits(w: World, c: Cluster, a: seq<Action>, b: seq<Action>)
    requires Runs(w, c, a + b)
    ensures Runs(w, c, a) && Runs(w, Run(w, c, a), b)
    ensures Run(w, c, a + b) == Run(w, Run(w, c, a), b)
    ensures NoShortAck(w, c, a + b) <==> NoShortAck(w, c, a) && NoShortAck(w, Run(w, c, a), b)
    decreases |a|
  {
    hide Next, Possible, ShortAck;
    if a == [] {
      assert a + b == b;
    } else {
      assert (a + b)[0] == a[0] && (a + b)[1..] == a[1..] + b;
      RunSplits(w, Next(w, c, a[0]), a[1..], b);
    }
  }

  lemma {:induction false} RunKeeps(w: World, c: Cluster, actions: seq<Action>)
    requires Good(w, c) && Runs(w, c, actions) && NoShortAck(w, c, actions)
    ensures Good(w, Run(w, c, actions))
    decreases |actions|
  {
    hide Next, Possible, Good, ShortAck;
    if actions != [] {
      StepKeeps(w, c, actions[0]);
      RunKeeps(w, Next(w, c, actions[0]), actions[1..]);
    }
  }

  /** Between any two points of any run from fresh task lists, under one ring and without client
      deletes, the highest version held for a key anywhere in the cluster does not decrease, if no
      post is ignored as a repeated mutation over an older version. */
  lemma VersionsStayWithoutShortAcks(w: World, c: Cluster, before: seq<Action>, after: seq<Action>, k: RecordKey,
                                     v: nat)
    requires Fresh(w, c) && Runs(w, c, before + after) && NoShortAck(w, c, before + after)
    ensures Runs(w, c, before)
    ensures HeldSomewhere(Run(w, c, before), k, v) ==> HeldSomewhere(Run(w, c, before + after), k, v)
  {
    hide Next, Possible, Good, ShortAck;
    FreshIsGood(w, c);
    RunSplits(w, c, before, after);
    RunKeeps(w, c, before);
    if HeldSomewhere(Run(w, c, before), k, v) {
      RunLosesNothing(w, Run(w, c, before), after, k, v);
    }
  }

  // ------------------------------------------------------------------ mutation ids that name a version

  /** Every mutation id goes with one version. */
  ghost predicate IdsFixed(w: World) {
    forall id :: w.versionOf(id).Some?
  }

  lemma SameIdSameVersion(w: World, a: DocumentRecord, b: DocumentRecord)
    requires IdsFixed(w) && VersionFits(w, a) && VersionFits(w, b)
    ensures IsDuplicateMutation(a, b) ==> a.version == b.version
  {
    assert w.versionOf(b.mutationId).Some?;
  }

  lemma FixedIdsAckFully(w: World, c: Cluster, a: Action)
    requires IdsFixed(w) && Good(w, c) && Possible(w, c, a)
    ensures !ShortAck(c, a)
  {
    if a.Arrive? && KeyPair(a.stored) in c.nodes[a.message.target].store {
      assert NodeFits(w, c, a.message.target);
      SameIdSameVersion(w, c.nodes[a.message.target].store[KeyPair(a.stored)], a.stored);
    }
  }

  lemma {:induction false} FixedIdsRunFully(w: World, c: Cluster, actions: seq<Action>)
    requires IdsFixed(w) && Good(w, c) && Runs(w, c, actions)
    ensures NoShortAck(w, c, actions)
    decreases |actions|
  {
    hide Next, Possible, Good, ShortAck, IdsFixed;
    if actions != [] {
      FixedIdsAckFully(w, c, actions[0]);
      StepKeeps(w, c, actions[0]);
      FixedIdsRunFully(w, Next(w, c, actions[0]), actions[1..]);
    }
  }

  lemma FreshIsGood(w: World, c: Cluster)
    requires Fresh(w, c)
    ensures Good(w, c)
  {
    FreshIsInv(w, c);
  }

  /** Between any two points of any run from fresh task lists, under one ring, without client deletes
      and with mutation ids that name a version, the highest version held for a key anywhere in the
      cluster does not decrease. */
  lemma HighestVersionNeverDecreases(w: World, c: Cluster, before: seq<Action>, after: seq<Action>, k: RecordKey,
                                     v: nat)
    requires IdsFixed(w) && Fresh(w, c) && Runs(w, c, before + after)
    ensures Runs(w, c, before)
    ensures HeldSomewhere(Run(w, c, before), k, v) ==> HeldSomewhere(Run(w, c, before + after), k, v)
  {
    hide Next, Possible, Good, ShortAck;
    FreshIsGood(w, c);
    FixedIdsRunFully(w, c, before + after);
    VersionsStayWithoutShortAcks(w, c, before, after, k, v);
  }
}
