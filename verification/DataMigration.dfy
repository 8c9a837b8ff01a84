/** Background migration at one node: it scans its store for records another node owns, posts them
    there and deletes its own copy later. */
module DataMigration {
  import opened ByteStrings
  import opened Documents
  import opened Mutations
  import RangeScan

  type Stored = map<RecordKey, DocumentRecord>

  function TaskKey(r: DocumentRecord): ByteString {
    Join(0, r.collection, r.key)
  }

  datatype Task = Task(record: DocumentRecord, target: nat, semantic: bool, attempts: nat, deleteAfter: int)

  type Pending = map<ByteString, Task>

  /** An item of the persisted task log, in state "delete_pending" or "pending". */
  datatype LogItem = LogItem(deleting: bool, task: Task)

  type TaskLog = seq<LogItem>

  /** The task log file as JSON: missing, not JSON, no array, or an array in which None stands for an
      element that is not an object. */
  datatype TaskFile = Missing | NotJson | NotAnArray | Elements(elements: seq<Option<LogItem>>)

  function Objects(elements: seq<Option<LogItem>>): TaskLog {
    if elements == [] then []
    else
      var front := Objects(elements[..|elements| - 1]);
      var last := elements[|elements| - 1];
      if last.Some? then front + [last.value] else front
  }

  lemma ObjectsNone()
    ensures Objects([]) == []
  {
  }

  lemma ObjectsSnoc(elements: seq<Option<LogItem>>, i: nat)
    requires i < |elements|
    ensures Objects(elements[..i + 1]) ==
            if elements[i].Some? then Objects(elements[..i]) + [elements[i].value] else Objects(elements[..i])
  {
    assert elements[..i + 1][..i] == elements[..i];
  }

  function LogOf(file: TaskFile): TaskLog {
    if file.Elements? then Objects(file.elements) else []
  }

  function AsElements(log: TaskLog): seq<Option<LogItem>> {
    seq(|log|, i requires 0 <= i < |log| => Some(log[i]))
  }

  /** A written log is read as it was. */
  lemma {:induction false} ElementsReadBack(log: TaskLog)
    ensures LogOf(Elements(AsElements(log))) == log
  {
    if log != [] {
      var front := log[..|log| - 1];
      ElementsReadBack(front);
      assert AsElements(log)[..|log| - 1] == AsElements(front);
    }
  }

  /** One node: its durable store and task log, and the worker's memory: the page being walked, the
      pending tasks, the delayed deletes, the deletes taken out as due, and those whose route has been
      resolved to another node but whose copy is not deleted yet. */
  datatype Node = Node(
    store: Stored,
    log: TaskLog,
    page: seq<DocumentRecord>,
    pending: Pending,
    delayed: seq<Task>,
    due: seq<Task>,
    condemned: seq<Task>)

  /** What is fixed in a run: the owner of every key, the retry limit, and the version that goes with
      a mutation id, for ids of which that is known. */
  datatype World = World(owner: RecordKey -> nat, nodeCount: nat, maxRetries: nat, versionOf: ByteString -> Option<nat>)

  /** A version, and the one of the mutation id if that is known. */
  predicate VersionFits(w: World, r: DocumentRecord) {
    && r.version != 0
    && (r.mutationId != [] && w.versionOf(r.mutationId).Some? ==> r.version == w.versionOf(r.mutationId).value)
  }

  // ------------------------------------------------------------------ the task log

  function Items(pending: Pending, keys: seq<ByteString>): TaskLog
    requires forall i :: 0 <= i < |keys| ==> keys[i] in pending
  {
    seq(|keys|, i requires 0 <= i < |keys| => LogItem(false, pending[keys[i]]))
  }

  function DeleteItems(tasks: seq<Task>): TaskLog {
    seq(|tasks|, i requires 0 <= i < |tasks| => LogItem(true, tasks[i]))
  }

  function Written(pending: Pending, delayed: seq<Task>): TaskLog {
    Items(pending, SortedKeys(pending.Keys)) + DeleteItems(delayed)
  }

  /** Recovery skips an item without a collection or a key. */
  predicate Identified(r: DocumentRecord) {
    r.collection != [] && r.key != []
  }

  function RecoveredPending(log: TaskLog): Pending {
    if log == [] then map[]
    else
      var front := RecoveredPending(log[..|log| - 1]);
      var last := log[|log| - 1];
      if Identified(last.task.record) && !last.deleting then front[TaskKey(last.task.record) := last.task] else front
  }

  function RecoveredDeletes(log: TaskLog): seq<Task> {
    if log == [] then []
    else
      var front := RecoveredDeletes(log[..|log| - 1]);
      var last := log[|log| - 1];
      if Identified(last.task.record) && last.deleting then front + [last.task] else front
  }

  lemma WrittenFromTasks(pending: Pending, delayed: seq<Task>)
    ensures forall i :: 0 <= i < |Written(pending, delayed)| ==>
              if Written(pending, delayed)[i].deleting then Written(pending, delayed)[i].task in delayed
              else exists k :: k in pending && Written(pending, delayed)[i].task == pending[k]
  {
    hide SortedKeys;
    var keys := SortedKeys(pending.Keys);
    var log := Written(pending, delayed);
    forall i | 0 <= i < |log|
      ensures if log[i].deleting then log[i].task in delayed else exists k :: k in pending && log[i].task == pending[k]
    {
      if i < |keys| {
        assert log[i] == LogItem(false, pending[keys[i]]);
      } else {
        assert log[i] == LogItem(true, delayed[i - |keys|]);
      }
    }
  }

  lemma RecoveredNothing()
    ensures RecoveredPending([]) == map[] && RecoveredDeletes([]) == []
  {
  }

  /** What one more item adds. */
  lemma RecoveredSnoc(log: TaskLog, item: LogItem)
    ensures RecoveredPending(log + [item]) ==
            if Identified(item.task.record) && !item.deleting
            then RecoveredPending(log)[TaskKey(item.task.record) := item.task]
            else RecoveredPending(log)
    ensures RecoveredDeletes(log + [item]) ==
            if Identified(item.task.record) && item.deleting then RecoveredDeletes(log) + [item.task]
            else RecoveredDeletes(log)
  {
    hide TaskKey, Identified;
    assert (log + [item])[..|log|] == log;
  }

  /** Every pending task sits under the key of its record. */
  predicate Keyed(pending: Pending) {
    forall k :: k in pending ==> k == TaskKey(pending[k].record)
  }

  lemma {:induction false} ItemsReadBack(pending: Pending, keys: seq<ByteString>)
    requires Keyed(pending) && forall i :: 0 <= i < |keys| ==> keys[i] in pending
    ensures RecoveredDeletes(Items(pending, keys)) == []
    ensures RecoveredPending(Items(pending, keys)) ==
            map k | k in pending && k in keys && Identified(pending[k].record) :: pending[k]
  {
    hide TaskKey, Identified, RecoveredPending, RecoveredDeletes;
    if keys == [] {
      RecoveredNothing();
      assert Items(pending, keys) == [];
    } else {
      var front, last := keys[..|keys| - 1], keys[|keys| - 1];
      ItemsReadBack(pending, front);
      assert Items(pending, keys) == Items(pending, front) + [LogItem(false, pending[last])];
      RecoveredSnoc(Items(pending, front), LogItem(false, pending[last]));
      assert keys == front + [last];
    }
  }

  lemma {:induction false} DeletesReadBack(log: TaskLog, tasks: seq<Task>)
    requires forall i :: 0 <= i < |tasks| ==> Identified(tasks[i].record)
    ensures RecoveredPending(log + DeleteItems(tasks)) == RecoveredPending(log)
    ensures RecoveredDeletes(log + DeleteItems(tasks)) == RecoveredDeletes(log) + tasks
  {
    hide TaskKey, Identified, RecoveredPending, RecoveredDeletes;
    if tasks == [] {
      assert log + DeleteItems(tasks) == log;
    } else {
      var front, last := tasks[..|tasks| - 1], tasks[|tasks| - 1];
      DeletesReadBack(log, front);
      assert log + DeleteItems(tasks) == (log + DeleteItems(front)) + [LogItem(true, last)];
      RecoveredSnoc(log + DeleteItems(front), LogItem(true, last));
      assert tasks == front + [last];
    }
  }

  /** The task log gives back exactly what was persisted, unless a pending task's record has an empty
      collection or key: recovery drops those tasks. */
  lemma TaskLogReadsBack(pending: Pending, delayed: seq<Task>)
    requires Keyed(pending) && forall i :: 0 <= i < |delayed| ==> Identified(delayed[i].record)
    ensures RecoveredDeletes(Written(pending, delayed)) == delayed
    ensures RecoveredPending(Written(pending, delayed)) == pending <==>
            forall k :: k in pending ==> Identified(pending[k].record)
  {
    hide SortedKeys, TaskKey, Identified, Items, RecoveredPending, RecoveredDeletes, DeleteItems;
    var keys := SortedKeys(pending.Keys);
    ItemsReadBack(pending, keys);
    DeletesReadBack(Items(pending, keys), delayed);
    IdentifiedOnly(pending, keys);
  }

  lemma IdentifiedOnly(pending: Pending, keys: seq<ByteString>)
    requires forall k :: k in keys <==> k in pending
    ensures (map k | k in pending && k in keys && Identified(pending[k].record) :: pending[k]) == pending
            <==> forall k :: k in pending ==> Identified(pending[k].record)
  {
    hide Identified;
    var kept := map k | k in pending && k in keys && Identified(pending[k].record) :: pending[k];
    if k :| k in pending && !Identified(pending[k].record) {
      assert k !in kept;
    } else {
      assert kept.Keys == pending.Keys;
    }
  }

  /** Recovery brings back nothing but tasks of the log. */
  lemma {:induction false} RecoveredFromLog(log: TaskLog)
    ensures forall k :: k in RecoveredPending(log) ==> LogItem(false, RecoveredPending(log)[k]) in log
    ensures forall i :: 0 <= i < |RecoveredDeletes(log)| ==> LogItem(true, RecoveredDeletes(log)[i]) in log
  {
    if log != [] {
      RecoveredFromLog(log[..|log| - 1]);
      assert log[|log| - 1] in log;
    }
  }

  // ------------------------------------------------------------------ what one node does

  function PutLocal(m: Stored, r: DocumentRecord): Stored {
    PutAt(m, KeyPair(r), r)
  }

  /** ScanOnce on one record of a page. */
  function Enqueue(w: World, me: nat, n: Node, r: DocumentRecord, task: Task): Node
    requires task.record == r
  {
    if w.owner(KeyPair(r)) == me || TaskKey(r) in n.pending then n
    else n.(pending := n.pending[TaskKey(r) := task.(target := w.owner(KeyPair(r)))])
  }

  function Persist(n: Node): Node {
    n.(log := Written(n.pending, n.delayed))
  }

  /** After a post: a success moves the task to the delayed deletes, a failure counts an attempt and
      gives up at the limit. */
  function FinishPost(w: World, n: Node, key: ByteString, ok: bool, deleteAfter: int): Node
    requires key in n.pending
  {
    var task := n.pending[key];
    if ok then n.(delayed := n.delayed + [task.(deleteAfter := deleteAfter)], pending := n.pending - {key})
    else if GivesUp(w, n, key, ok) then n.(pending := n.pending - {key})
    else n.(pending := n.pending[key := task.(attempts := task.attempts + 1)])
  }

  predicate GivesUp(w: World, n: Node, key: ByteString, ok: bool)
    requires key in n.pending
  {
    !ok && n.pending[key].attempts + 1 >= w.maxRetries
  }

  /** DeleteLocalIfStillRemote: the route is resolved again, the delete goes by key alone. */
  function DeleteIfRemote(w: World, me: nat, m: Stored, task: Task): Stored {
    if w.owner(KeyPair(task.record)) == me then m else m - {KeyPair(task.record)}
  }

  function Restart(n: Node): Node {
    Node(n.store, n.log, [], RecoveredPending(n.log), RecoveredDeletes(n.log), [], [])
  }

  // ------------------------------------------------------------------ the manager's loops

  function EnqueuePage(w: World, me: nat, n: Node, tasks: seq<Task>): Node
    decreases tasks
  {
    if tasks == [] then n
    else
      var next := Enqueue(w, me, n, tasks[0].record, tasks[0]);
      EnqueuePage(w, me, if next == n then n else Persist(next), tasks[1..])
  }

  function PostAll(w: World, n: Node, keys: seq<ByteString>, accepted: ByteString -> bool,
                   deleteAfter: ByteString -> int): Node
    decreases keys
  {
    if keys == [] then n
    else if keys[0] !in n.pending then PostAll(w, n, keys[1..], accepted, deleteAfter)
    else PostAll(w, Persist(FinishPost(w, n, keys[0], accepted(keys[0]), deleteAfter(keys[0]))), keys[1..], accepted,
                 deleteAfter)
  }

  function DueTasks(tasks: seq<Task>, now: int): seq<Task> {
    if tasks == [] then []
    else
      var front := DueTasks(tasks[..|tasks| - 1], now);
      if tasks[|tasks| - 1].deleteAfter <= now then front + [tasks[|tasks| - 1]] else front
  }

  function LaterTasks(tasks: seq<Task>, now: int): seq<Task> {
    if tasks == [] then []
    else
      var front := LaterTasks(tasks[..|tasks| - 1], now);
      if tasks[|tasks| - 1].deleteAfter <= now then front else front + [tasks[|tasks| - 1]]
  }

  function DeleteAll(w: World, me: nat, m: Stored, tasks: seq<Task>): Stored {
    if tasks == [] then m
    else DeleteIfRemote(w, me, DeleteAll(w, me, m, tasks[..|tasks| - 1]), tasks[|tasks| - 1])
  }

  /** What ProcessDueDeletes does to a node. */
  function AfterDeletes(w: World, me: nat, n: Node, now: int): Node {
    var due := DueTasks(n.delayed, now);
    var m := n.(delayed := LaterTasks(n.delayed, now), store := DeleteAll(w, me, n.store, due));
    if due == [] then m else Persist(m)
  }

  /** The composite keys left in the vector index when the deletes of semantic records also remove there. */
  function UnindexAll(w: World, me: nat, indexed: set<ByteString>, tasks: seq<Task>): set<ByteString> {
    if tasks == [] then indexed
    else UnindexIfRemote(w, me, UnindexAll(w, me, indexed, tasks[..|tasks| - 1]), tasks[|tasks| - 1])
  }

  function UnindexIfRemote(w: World, me: nat, indexed: set<ByteString>, task: Task): set<ByteString> {
    if w.owner(KeyPair(task.record)) != me && task.semantic then indexed - {KeyOf(task.record)} else indexed
  }

  /** The metadata keys "image_path", "image_reference" and "image_uri". */
  const IMAGE_KEYS: set<ByteString> := {
    [105, 109, 97, 103, 101, 95, 112, 97, 116, 104],
    [105, 109, 97, 103, 101, 95, 114, 101, 102, 101, 114, 101, 110, 99, 101],
    [105, 109, 97, 103, 101, 95, 117, 114, 105]
  }

  /** Whether the target is to index the record too. */
  predicate IsSemanticRecord(home: ByteString, r: DocumentRecord) {
    r.title != [] || r.collection == home || exists key :: key in IMAGE_KEYS && key in r.metadata
  }

  /** The tasks ScanOnce makes for records; home is the default collection. */
  function TasksFor(records: seq<DocumentRecord>, home: ByteString,
                    deleteAfter: DocumentRecord -> int): (tasks: seq<Task>)
    ensures |tasks| == |records|
  {
    seq(|records|, i requires 0 <= i < |records| =>
          Task(records[i], 0, IsSemanticRecord(home, records[i]), 0, deleteAfter(records[i])))
  }

  lemma NoTasks(w: World, me: nat, n: Node, home: ByteString, deleteAfter: DocumentRecord -> int)
    ensures EnqueuePage(w, me, n, TasksFor([], home, deleteAfter)) == n
  {
  }

  /** The task of a record that another node owns. */
  predicate Foreign(w: World, me: nat, task: Task) {
    w.owner(KeyPair(task.record)) != me
  }

  /** What a page does to a node: the tasks pending before stay as they are, no foreign record is left
      without a task, the log is written again exactly when there is a new task, and nothing else changes. */
  lemma {:induction false} EnqueuePageKeeps(w: World, me: nat, n: Node, tasks: seq<Task>)
    ensures var m := EnqueuePage(w, me, n, tasks);
            && (forall k :: k in n.pending ==> k in m.pending && m.pending[k] == n.pending[k])
            && (forall i :: 0 <= i < |tasks| && Foreign(w, me, tasks[i]) ==> TaskKey(tasks[i].record) in m.pending)
            && m == n.(pending := m.pending,
                       log := if m.pending == n.pending then n.log else Written(m.pending, n.delayed))
    decreases tasks
  {
    hide Written, TaskKey;
    if tasks != [] {
      var next := Enqueue(w, me, n, tasks[0].record, tasks[0]);
      var reached := if next == n then n else Persist(next);
      EnqueuePageKeeps(w, me, reached, tasks[1..]);
      var m := EnqueuePage(w, me, n, tasks);
      assert m == EnqueuePage(w, me, reached, tasks[1..]);
      assert next != n ==> TaskKey(tasks[0].record) in reached.pending && TaskKey(tasks[0].record) !in n.pending;
      assert m.pending == n.pending ==> reached.pending == n.pending;
      forall i | 0 <= i < |tasks| && Foreign(w, me, tasks[i]) ensures TaskKey(tasks[i].record) in m.pending {
        if i > 0 {
          assert tasks[i] == tasks[1..][i - 1];
        }
      }
    }
  }

  /** The tasks it adds are those of foreign records that were not pending, the first of a key, aimed at
      the owner. */
  lemma {:induction false} EnqueuePageAdds(w: World, me: nat, n: Node, tasks: seq<Task>, k: ByteString)
    requires k in EnqueuePage(w, me, n, tasks).pending && k !in n.pending
    ensures exists i :: 0 <= i < |tasks| && FirstOf(w, me, tasks, k, i) &&
                        EnqueuePage(w, me, n, tasks).pending[k] ==
                        tasks[i].(target := w.owner(KeyPair(tasks[i].record)))
    decreases tasks
  {
    hide Written, TaskKey;
    var next := Enqueue(w, me, n, tasks[0].record, tasks[0]);
    var reached := if next == n then n else Persist(next);
    var m := EnqueuePage(w, me, n, tasks);
    assert m == EnqueuePage(w, me, reached, tasks[1..]);
    if k in reached.pending {
      EnqueuePageKeeps(w, me, reached, tasks[1..]);
      assert FirstOf(w, me, tasks, k, 0);
    } else {
      EnqueuePageAdds(w, me, reached, tasks[1..], k);
      var i :| 0 <= i < |tasks[1..]| && FirstOf(w, me, tasks[1..], k, i)
               && m.pending[k] == tasks[1..][i].(target := w.owner(KeyPair(tasks[1..][i].record)));
      LaterFirst(w, me, tasks, k, i);
    }
  }

  /** The i-th task is the first foreign one under this key. */
  ghost predicate FirstOf(w: World, me: nat, tasks: seq<Task>, k: ByteString, i: nat)
    requires i < |tasks|
  {
    && Foreign(w, me, tasks[i]) && TaskKey(tasks[i].record) == k
    && forall j :: 0 <= j < i && TaskKey(tasks[j].record) == k ==> !Foreign(w, me, tasks[j])
  }

  lemma LaterFirst(w: World, me: nat, tasks: seq<Task>, k: ByteString, i: nat)
    requires i + 1 < |tasks| && FirstOf(w, me, tasks[1..], k, i)
    requires !(Foreign(w, me, tasks[0]) && TaskKey(tasks[0].record) == k)
    ensures FirstOf(w, me, tasks, k, i + 1)
  {
    hide TaskKey, Foreign;
    assert forall j :: 0 < j < |tasks| ==> tasks[j] == tasks[1..][j - 1];
  }

  /** What a scan of records does to the tasks of a node: it leaves every pending task alone, and gives
      every record that another node owns and that has no task yet a task without attempts, aimed at that
      owner, semantic by title, collection or image. */
  lemma ScanEnqueuesExactly(w: World, me: nat, n: Node, met: seq<DocumentRecord>, home: ByteString,
                            deleteAfter: DocumentRecord -> int)
    ensures var m := EnqueuePage(w, me, n, TasksFor(met, home, deleteAfter));
            && (forall k :: k in n.pending ==> k in m.pending && m.pending[k] == n.pending[k])
            && (forall r :: r in met && w.owner(KeyPair(r)) != me ==> TaskKey(r) in m.pending)
            && (forall k :: k in m.pending && k !in n.pending ==>
                  var t := m.pending[k];
                  && t.record in met && TaskKey(t.record) == k && t.target == w.owner(KeyPair(t.record)) != me
                  && t.attempts == 0 && t.deleteAfter == deleteAfter(t.record)
                  && (t.semantic <==> t.record.title != [] || t.record.collection == home ||
                                      t.record.metadata.Keys * IMAGE_KEYS != {}))
            && m.store == n.store && m.delayed == n.delayed && m.due == n.due && m.condemned == n.condemned
  {
    hide TaskKey, EnqueuePage, Written, IMAGE_KEYS;
    var tasks := TasksFor(met, home, deleteAfter);
    EnqueuePageKeeps(w, me, n, tasks);
    var m := EnqueuePage(w, me, n, tasks);
    forall r | r in met && w.owner(KeyPair(r)) != me ensures TaskKey(r) in m.pending {
      var i :| 0 <= i < |met| && met[i] == r;
      assert Foreign(w, me, tasks[i]);
    }
    forall k | k in m.pending && k !in n.pending
      ensures var t := m.pending[k];
              && t.record in met && TaskKey(t.record) == k && t.target == w.owner(KeyPair(t.record)) != me
              && t.attempts == 0 && t.deleteAfter == deleteAfter(t.record)
              && (t.semantic <==> t.record.title != [] || t.record.collection == home ||
                                  t.record.metadata.Keys * IMAGE_KEYS != {})
    {
      EnqueuePageAdds(w, me, n, tasks, k);
      var i :| 0 <= i < |tasks| && FirstOf(w, me, tasks, k, i)
               && m.pending[k] == tasks[i].(target := w.owner(KeyPair(tasks[i].record)));
      SemanticMeans(home, met[i]);
    }
  }

  lemma SemanticMeans(home: ByteString, r: DocumentRecord)
    ensures IsSemanticRecord(home, r) <==>
            r.title != [] || r.collection == home || r.metadata.Keys * IMAGE_KEYS != {}
  {
    hide IMAGE_KEYS;
    if key :| key in IMAGE_KEYS && key in r.metadata {
      assert key in r.metadata.Keys * IMAGE_KEYS;
    }
    if r.metadata.Keys * IMAGE_KEYS != {} {
      var key :| key in r.metadata.Keys * IMAGE_KEYS;
      assert key in r.metadata;
    }
  }

  lemma {:induction false} EnqueueConcat(w: World, me: nat, n: Node, a: seq<Task>, b: seq<Task>)
    ensures EnqueuePage(w, me, n, a + b) == EnqueuePage(w, me, EnqueuePage(w, me, n, a), b)
    decreases a
  {
    hide Enqueue, Persist;
    if a == [] {
      assert a + b == b;
    } else {
      assert (a + b)[0] == a[0] && (a + b)[1..] == a[1..] + b;
      var next := Enqueue(w, me, n, a[0].record, a[0]);
      EnqueueConcat(w, me, if next == n then n else Persist(next), a[1..], b);
    }
  }

  lemma EnqueueTwice(w: World, me: nat, n: Node, a: seq<DocumentRecord>, b: seq<DocumentRecord>,
                     home: ByteString, deleteAfter: DocumentRecord -> int)
    ensures EnqueuePage(w, me, n, TasksFor(a + b, home, deleteAfter)) ==
            EnqueuePage(w, me, EnqueuePage(w, me, n, TasksFor(a, home, deleteAfter)), TasksFor(b, home, deleteAfter))
  {
    hide EnqueuePage, IsSemanticRecord;
    assert TasksFor(a + b, home, deleteAfter) == TasksFor(a, home, deleteAfter) + TasksFor(b, home, deleteAfter);
    EnqueueConcat(w, me, n, TasksFor(a, home, deleteAfter), TasksFor(b, home, deleteAfter));
  }

  class DataMigrationManager {
    const world: World
    const me: nat
    var store: Stored
    var indexed: set<ByteString>
    var file: TaskFile
    var pending: Pending
    var delayedDelete: seq<Task>
    var succeeded: nat
    var failed: nat

    ghost function AsNode(): Node
      reads this
    {
      Node(store, LogOf(file), [], pending, delayedDelete, [], [])
    }

    constructor (world: World, me: nat, store: Stored, indexed: set<ByteString>, file: TaskFile)
      ensures this.world == world && this.me == me && this.indexed == indexed && this.file == file
      ensures succeeded == failed == 0
      ensures AsNode() == Node(store, LogOf(file), [], map[], [], [], [])
    {
      this.world := world;
      this.me := me;
      this.store := store;
      this.indexed := indexed;
      this.file := file;
      this.pending := map[];
      this.delayedDelete := [];
      this.succeeded := 0;
      this.failed := 0;
    }

    /** A missing file is no error; a file that is not a JSON array is, and leaves the tasks alone. */
    method RecoverTasks() returns (ok: bool)
      modifies this`pending, this`delayedDelete
      ensures ok == (file.Missing? || file.Elements?)
      ensures AsNode() == if file.Elements? then Restart(old(AsNode())) else old(AsNode())
    {
      if file.Missing? {
        return true;
      }
      if !file.Elements? {
        return false;
      }
      hide TaskKey, RecoveredPending, RecoveredDeletes, Objects;
      pending := map[];
      delayedDelete := [];
      RecoveredNothing();
      ObjectsNone();
      for i := 0 to |file.elements|
        invariant pending == RecoveredPending(Objects(file.elements[..i]))
        invariant delayedDelete == RecoveredDeletes(Objects(file.elements[..i]))
      {
        ObjectsSnoc(file.elements, i);
        if file.elements[i].None? {
          continue;
        }
        var item := file.elements[i].value;
        RecoveredSnoc(Objects(file.elements[..i]), item);
        var task := item.task;
        if task.record.collection == [] || task.record.key == [] {
          continue;
        }
        if item.deleting {
          delayedDelete := delayedDelete + [task];
        } else {
          pending := pending[TaskKey(task.record) := task];
        }
      }
      assert file.elements[..|file.elements|] == file.elements;
      ok := true;
    }

    method PersistTasks()
      modifies this`file
      ensures AsNode() == Persist(old(AsNode()))
    {
      hide SortedKeys, RecoveredPending, RecoveredDeletes, LogOf;
      var keys := SortedKeys(pending.Keys);
      var items: TaskLog := [];
      for i := 0 to |keys|
        invariant items == Items(pending, keys[..i])
      {
        items := items + [LogItem(false, pending[keys[i]])];
      }
      assert keys[..|keys|] == keys;
      for i := 0 to |delayedDelete|
        invariant items == Items(pending, keys) + DeleteItems(delayedDelete[..i])
      {
        items := items + [LogItem(true, delayedDelete[i])];
      }
      assert delayedDelete[..|delayedDelete|] == delayedDelete;
      file := Elements(AsElements(items));
      ElementsReadBack(items);
    }

    /** The first loop of ScanOnce over one page; the tasks are the fresh ones made for its records. */
    method CollectTasks(tasks: seq<Task>)
      modifies this`pending, this`file
      ensures AsNode() == EnqueuePage(world, me, old(AsNode()), tasks)
    {
      hide LogOf, Written, TaskKey;
      assert tasks[0..] == tasks;
      for i := 0 to |tasks|
        invariant EnqueuePage(world, me, old(AsNode()), tasks) == EnqueuePage(world, me, AsNode(), tasks[i..])
      {
        assert tasks[i..][0] == tasks[i] && tasks[i..][1..] == tasks[i + 1..];
        var record := tasks[i].record;
        var owner := world.owner(KeyPair(record));
        if owner == me {
          continue;
        }
        var key := TaskKey(record);
        if key !in pending {
          ghost var before := AsNode();
          pending := pending[key := tasks[i].(target := owner)];
          assert key !in before.pending && key in pending;
          PersistTasks();
        }
      }
    }

    /** The scan of one collection by ScanOnce: page i is read from the store as it is by then. The
        scan has not finished if the pages go on behind the last store. */
    method ScanCollection(stores: seq<RangeScan.Records>, collection: ByteString, batchSize: nat,
                          home: ByteString, deleteAfter: DocumentRecord -> int)
      returns (finished: bool)
      modifies this`pending, this`file
      ensures var met := RangeScan.Scanned(stores, collection, [], batchSize);
              && AsNode() == EnqueuePage(world, me, old(AsNode()), TasksFor(met, home, deleteAfter))
              && (forall k :: k in old(pending) ==> k in pending && pending[k] == old(pending)[k])
              && (forall r :: r in met && world.owner(KeyPair(r)) != me ==> TaskKey(r) in pending)
              && (forall k :: k in pending && k !in old(pending) ==>
                    var t := pending[k];
                    && t.record in met && TaskKey(t.record) == k
                    && t.target == world.owner(KeyPair(t.record)) != me && t.attempts == 0)
      ensures finished == RangeScan.Pages(stores, collection, [], batchSize).finished
    {
      hide EnqueuePage, RangeScan.Range, RangeScan.Scanned, RangeScan.Pages, LogOf, TaskKey, IsSemanticRecord, TasksFor;
      var beginKey: ByteString := [];
      ghost var start := AsNode();
      ghost var met: seq<DocumentRecord> := [];
      ghost var all := RangeScan.Scanned(stores, collection, [], batchSize);
      RangeScan.NoPages(stores, collection, [], batchSize);
      NoTasks(world, me, start, home, deleteAfter);
      ScanEnqueuesExactly(world, me, start, all, home, deleteAfter);
      for i := 0 to |stores|
        invariant AsNode() == EnqueuePage(world, me, start, TasksFor(met, home, deleteAfter))
        invariant all == met + RangeScan.Scanned(stores[i..], collection, beginKey, batchSize)
        invariant RangeScan.Pages(stores, collection, [], batchSize).finished ==
                  RangeScan.Pages(stores[i..], collection, beginKey, batchSize).finished
      {
        RangeScan.ScanTurn(stores, i, collection, beginKey, batchSize);
        var records := RangeScan.Range(stores[i], collection, beginKey, [], batchSize);
        if records == [] {
          assert all == met;
          return true;
        }
        CollectTasks(TasksFor(records, home, deleteAfter));
        EnqueueTwice(world, me, start, met, records, home, deleteAfter);
        if |records| < batchSize {
          return true;
        }
        met := met + records;
        beginKey := records[|records| - 1].key + [0];
      }
      RangeScan.NoPages(stores, collection, beginKey, batchSize);
      assert all == met;
      finished := false;
    }

    /** The second loop of ScanOnce: post every pending task once. Each one that is no longer pending
        has been counted as succeeded and waits for its delete, or has been counted as failed. */
    method PostPending(accepted: ByteString -> bool, deleteAfter: ByteString -> int)
      modifies this`pending, this`delayedDelete, this`file, this`succeeded, this`failed
      ensures AsNode() == PostAll(world, old(AsNode()), SortedKeys(old(pending).Keys), accepted, deleteAfter)
      ensures succeeded - old(succeeded) == |delayedDelete| - old(|delayedDelete|)
      ensures (succeeded - old(succeeded)) + (failed - old(failed)) == old(|pending|) - |pending|
    {
      hide SortedKeys, Written, PostAll, LogOf, FinishPost;
      var keys := SortedKeys(pending.Keys);
      ghost var start := AsNode();
      assert keys[0..] == keys;
      for i := 0 to |keys|
        invariant PostAll(world, start, keys, accepted, deleteAfter) ==
                    PostAll(world, AsNode(), keys[i..], accepted, deleteAfter)
        invariant succeeded - old(succeeded) == |delayedDelete| - old(|delayedDelete|)
        invariant (succeeded - old(succeeded)) + (failed - old(failed)) == old(|pending|) - |pending|
      {
        var key := keys[i];
        PostStep(world, AsNode(), keys, i, accepted, deleteAfter);
        if key !in pending {
          continue;
        }
        FinishCounts(world, AsNode(), key, accepted(key), deleteAfter(key));
        FinishTask(key, accepted(key), deleteAfter(key));
      }
      PostNothing(world, AsNode(), keys, accepted, deleteAfter);
    }

    /** What ScanOnce does under the mutex with the answer to a post. */
    method FinishTask(key: ByteString, ok: bool, deleteAfter: int)
      requires key in pending
      modifies this`pending, this`delayedDelete, this`file, this`succeeded, this`failed
      ensures AsNode() == Persist(FinishPost(world, old(AsNode()), key, ok, deleteAfter))
      ensures succeeded == old(succeeded) + if ok then 1 else 0
      ensures failed == old(failed) + if GivesUp(world, old(AsNode()), key, ok) then 1 else 0
    {
      hide Written, LogOf;
      var task := pending[key];
      if ok {
        succeeded := succeeded + 1;
        delayedDelete := delayedDelete + [task.(deleteAfter := deleteAfter)];
        pending := pending - {key};
      } else if task.attempts + 1 >= world.maxRetries {
        failed := failed + 1;
        pending := pending - {key};
      } else {
        pending := pending[key := task.(attempts := task.attempts + 1)];
      }
      PersistTasks();
    }

    /** The route is resolved again and the delete goes by key; the version is not compared. */
    method DeleteLocalIfStillRemote(task: Task)
      modifies this`store, this`indexed
      ensures store == DeleteIfRemote(world, me, old(store), task)
      ensures indexed == UnindexIfRemote(world, me, old(indexed), task)
    {
      if world.owner(KeyPair(task.record)) == me {
        return;
      }
      store := store - {KeyPair(task.record)};
      if task.semantic {
        indexed := indexed - {KeyOf(task.record)};
      }
    }

    /** Due deletes leave the list and remove the local copy where the route still points elsewhere,
        and its index entry too if the record is semantic. */
    method ProcessDueDeletes(now: int)
      modifies this`store, this`indexed, this`delayedDelete, this`file
      ensures AsNode() == AfterDeletes(world, me, old(AsNode()), now)
      ensures indexed == UnindexAll(world, me, old(indexed), DueTasks(old(delayedDelete), now))
    {
      hide Written, LogOf, DeleteIfRemote, UnindexIfRemote;
      var due: seq<Task> := [];
      var later: seq<Task> := [];
      for i := 0 to |delayedDelete|
        invariant delayedDelete == old(delayedDelete)
        invariant due == DueTasks(delayedDelete[..i], now)
        invariant later == LaterTasks(delayedDelete[..i], now)
      {
        assert delayedDelete[..i + 1][..i] == delayedDelete[..i];
        if delayedDelete[i].deleteAfter <= now {
          due := due + [delayedDelete[i]];
        } else {
          later := later + [delayedDelete[i]];
        }
      }
      assert delayedDelete[..|delayedDelete|] == delayedDelete;
      delayedDelete := later;
      for i := 0 to |due|
        invariant delayedDelete == later && file == old(file)
        invariant store == DeleteAll(world, me, old(store), due[..i])
        invariant indexed == UnindexAll(world, me, old(indexed), due[..i])
      {
        assert due[..i + 1][..i] == due[..i];
        DeleteLocalIfStillRemote(due[i]);
      }
      assert due[..|due|] == due;
      if due != [] {
        PersistTasks();
      }
    }
  }

  lemma PostStep(w: World, n: Node, keys: seq<ByteString>, i: nat, accepted: ByteString -> bool,
                 deleteAfter: ByteString -> int)
    requires i < |keys|
    ensures PostAll(w, n, keys[i..], accepted, deleteAfter) ==
            if keys[i] !in n.pending then PostAll(w, n, keys[i + 1..], accepted, deleteAfter)
            else PostAll(w, Persist(FinishPost(w, n, keys[i], accepted(keys[i]), deleteAfter(keys[i]))), keys[i + 1..],
                         accepted, deleteAfter)
  {
    hide Written;
    assert keys[i..][0] == keys[i] && keys[i..][1..] == keys[i + 1..];
  }

  lemma PostNothing(w: World, n: Node, keys: seq<ByteString>, accepted: ByteString -> bool,
                    deleteAfter: ByteString -> int)
    ensures PostAll(w, n, keys[|keys|..], accepted, deleteAfter) == n
  {
  }

  lemma FinishCounts(w: World, n: Node, key: ByteString, ok: bool, deleteAfter: int)
    requires key in n.pending
    ensures var m := FinishPost(w, n, key, ok, deleteAfter);
            && |m.delayed| == |n.delayed| + (if ok then 1 else 0)
            && |m.pending| == |n.pending| - (if ok || GivesUp(w, n, key, ok) then 1 else 0)
  {
    assert (n.pending - {key}).Keys == n.pending.Keys - {key};
    var task := n.pending[key];
    assert n.pending[key := task.(attempts := task.attempts + 1)].Keys == n.pending.Keys;
  }

  /** One pass over the pending tasks accounts for each of them: delivered ones wait for their
      delete, the others wait for the next pass with one more attempt, or are given up. */
  lemma {:induction false} PostAllAccounts(w: World, n: Node, keys: seq<ByteString>, accepted: ByteString -> bool,
                                           deleteAfter: ByteString -> int, key: ByteString)
    requires Ascending(keys) && key in keys && key in n.pending
    ensures var m := PostAll(w, n, keys, accepted, deleteAfter);
            var t := n.pending[key];
            && (accepted(key) ==> key !in m.pending && t.(deleteAfter := deleteAfter(key)) in m.delayed)
            && (!accepted(key) && t.attempts + 1 < w.maxRetries ==>
                  key in m.pending && m.pending[key] == t.(attempts := t.attempts + 1))
            && (!accepted(key) && t.attempts + 1 >= w.maxRetries ==> key !in m.pending)
            && m.store == n.store && (n.delayed <= m.delayed)
    decreases keys
  {
    hide Written;
    HeadNotInTail(keys);
    if keys[0] == key {
      var next := Persist(FinishPost(w, n, key, accepted(key), deleteAfter(key)));
      PostAllOthers(w, next, keys[1..], accepted, deleteAfter, key);
      assert accepted(key) ==> next.delayed[|n.delayed|] == n.pending[key].(deleteAfter := deleteAfter(key));
    } else {
      assert key in keys[1..];
      var next :=
        if keys[0] in n.pending then Persist(FinishPost(w, n, keys[0], accepted(keys[0]), deleteAfter(keys[0])))
        else n;
      PostAllAccounts(w, next, keys[1..], accepted, deleteAfter, key);
    }
  }

  lemma {:induction false} PostAllOthers(w: World, n: Node, keys: seq<ByteString>, accepted: ByteString -> bool,
                                         deleteAfter: ByteString -> int, key: ByteString)
    requires key !in keys
    ensures var m := PostAll(w, n, keys, accepted, deleteAfter);
            && (key in m.pending <==> key in n.pending)
            && (key in n.pending ==> m.pending[key] == n.pending[key])
            && m.store == n.store && n.delayed <= m.delayed
    decreases keys
  {
    hide Written;
    if keys != [] {
      var next :=
        if keys[0] in n.pending then Persist(FinishPost(w, n, keys[0], accepted(keys[0]), deleteAfter(keys[0])))
        else n;
      PostAllOthers(w, next, keys[1..], accepted, deleteAfter, key);
    }
  }

  // ------------------------------------------------------------------ which deletes a pass fires

  /** The picked tasks are those at the given places, taken from front to back. */
  ghost predicate PickedInOrder(tasks: seq<Task>, picked: seq<Task>, places: seq<nat>) {
    && |places| == |picked|
    && (forall i :: 0 <= i < |places| ==> places[i] < |tasks| && tasks[places[i]] == picked[i])
    && (forall i, j :: 0 <= i < j < |places| ==> places[i] < places[j])
  }

  /** The delayed deletes split by their time into due and later ones, and no task is lost or doubled. */
  lemma {:induction false} DueSplit(tasks: seq<Task>, now: int)
    ensures multiset(DueTasks(tasks, now)) + multiset(LaterTasks(tasks, now)) == multiset(tasks)
    ensures forall t :: t in DueTasks(tasks, now) <==> t in tasks && t.deleteAfter <= now
    ensures forall t :: t in LaterTasks(tasks, now) <==> t in tasks && t.deleteAfter > now
  {
    if tasks != [] {
      var n := |tasks| - 1;
      var front := tasks[..n];
      assert tasks == front + [tasks[n]];
      DueSplit(front, now);
    }
  }

  /** Both parts keep the order. */
  lemma {:induction false} DueInOrder(tasks: seq<Task>, now: int)
    ensures exists places :: PickedInOrder(tasks, DueTasks(tasks, now), places)
    ensures exists places :: PickedInOrder(tasks, LaterTasks(tasks, now), places)
  {
    hide PickedInOrder;
    if tasks == [] {
      NothingPicked(tasks);
      assert DueTasks(tasks, now) == [] && LaterTasks(tasks, now) == [];
    } else {
      var n := |tasks| - 1;
      var front := tasks[..n];
      assert tasks == front + [tasks[n]];
      DueInOrder(front, now);
      var due :| PickedInOrder(front, DueTasks(front, now), due);
      var later :| PickedInOrder(front, LaterTasks(front, now), later);
      PickedSnoc(front, tasks[n], DueTasks(front, now), due);
      PickedSnoc(front, tasks[n], LaterTasks(front, now), later);
      if tasks[n].deleteAfter <= now {
        assert PickedInOrder(tasks, DueTasks(tasks, now), due + [n]);
        assert PickedInOrder(tasks, LaterTasks(tasks, now), later);
      } else {
        assert PickedInOrder(tasks, DueTasks(tasks, now), due);
        assert PickedInOrder(tasks, LaterTasks(tasks, now), later + [n]);
      }
    }
  }

  lemma NothingPicked(tasks: seq<Task>)
    ensures PickedInOrder(tasks, [], [])
  {
  }

  lemma PickedSnoc(front: seq<Task>, last: Task, picked: seq<Task>, places: seq<nat>)
    requires PickedInOrder(front, picked, places)
    ensures PickedInOrder(front + [last], picked, places)
    ensures PickedInOrder(front + [last], picked + [last], places + [|front|])
  {
  }

  /** A pass over delayed deletes takes exactly the keys of the due tasks out of the store whose owner is
      another node, whatever their version, and changes no record; the tasks left are the later ones. */
  lemma DeletesExactly(w: World, me: nat, n: Node, now: int)
    ensures var m := AfterDeletes(w, me, n, now);
            && (forall k :: k in m.store <==>
                  k in n.store &&
                  (w.owner(k) == me ||
                   forall t :: t in n.delayed && t.deleteAfter <= now ==> KeyPair(t.record) != k))
            && (forall k :: k in m.store ==> m.store[k] == n.store[k])
            && (forall t :: t in m.delayed <==> t in n.delayed && t.deleteAfter > now)
            && m.pending == n.pending && m.page == n.page && m.due == n.due && m.condemned == n.condemned
            && m.log == if exists t :: t in n.delayed && t.deleteAfter <= now then Written(n.pending, m.delayed)
                        else n.log
  {
    hide Written, DueTasks, LaterTasks, DeleteAll;
    DueSplit(n.delayed, now);
    var due := DueTasks(n.delayed, now);
    DeleteAllExactly(w, me, n.store, due);
    if due != [] {
      assert due[0] in n.delayed;
    }
  }

  lemma {:induction false} DeleteAllExactly(w: World, me: nat, m: Stored, tasks: seq<Task>)
    ensures var d := DeleteAll(w, me, m, tasks);
            && (forall k :: k in d <==>
                  k in m && (w.owner(k) == me || forall t :: t in tasks ==> KeyPair(t.record) != k))
            && (forall k :: k in d ==> d[k] == m[k])
  {
    if tasks != [] {
      var n := |tasks| - 1;
      DeleteAllExactly(w, me, m, tasks[..n]);
      assert forall t :: t in tasks <==> t in tasks[..n] || t == tasks[n] by {
        assert tasks == tasks[..n] + [tasks[n]];
      }
    }
  }

  /** The index loses exactly the composite keys of the semantic tasks whose record another node owns. */
  lemma {:induction false} UnindexExactly(w: World, me: nat, indexed: set<ByteString>, tasks: seq<Task>)
    ensures forall x :: x in UnindexAll(w, me, indexed, tasks) <==>
              x in indexed && forall t :: t in tasks && Foreign(w, me, t) && t.semantic ==> KeyOf(t.record) != x
  {
    hide KeyOf;
    if tasks != [] {
      var n := |tasks| - 1;
      UnindexExactly(w, me, indexed, tasks[..n]);
      assert forall t :: t in tasks <==> t in tasks[..n] || t == tasks[n] by {
        assert tasks == tasks[..n] + [tasks[n]];
      }
    }
  }

  // ------------------------------------------------------------------ elements of the file, delayed deletes

  /** Reading the elements passes over those that are not objects and keeps the order of the others. */
  lemma {:induction false} ObjectsConcat(a: seq<Option<LogItem>>, b: seq<Option<LogItem>>)
    ensures Objects(a + b) == Objects(a) + Objects(b)
    ensures forall item: LogItem :: Objects([Some(item)]) == [item]
    ensures Objects([None]) == []
    decreases |b|
  {
    if b == [] {
      assert a + b == a;
    } else {
      var n := |b| - 1;
      ObjectsConcat(a, b[..n]);
      assert (a + b)[..|a + b| - 1] == a + b[..n];
    }
    forall item: LogItem ensures Objects([Some(item)]) == [item] {
      assert [Some(item)][..0] == [];
    }
    var none: seq<Option<LogItem>> := [None];
    assert none[..0] == [];
  }

  /** Recovering a log from two parts: later items of a key replace earlier ones, deletes follow in order. */
  lemma {:induction false} RecoveredConcat(a: TaskLog, b: TaskLog)
    ensures RecoveredPending(a + b) == RecoveredPending(a) + RecoveredPending(b)
    ensures RecoveredDeletes(a + b) == RecoveredDeletes(a) + RecoveredDeletes(b)
    decreases |b|
  {
    hide TaskKey, Identified;
    if b == [] {
      assert a + b == a;
    } else {
      var n := |b| - 1;
      RecoveredConcat(a, b[..n]);
      assert (a + b)[..|a + b| - 1] == a + b[..n];
    }
  }

  /** One item of the log: its task under its key, or a delete, or nothing if it names no record. */
  lemma RecoveredOne(item: LogItem)
    ensures var t := item.task;
            && (t.record.collection == [] || t.record.key == [] ==>
                  RecoveredPending([item]) == map[] && RecoveredDeletes([item]) == [])
            && (t.record.collection != [] && t.record.key != [] && !item.deleting ==>
                  RecoveredPending([item]) == map[TaskKey(t.record) := t] && RecoveredDeletes([item]) == [])
            && (t.record.collection != [] && t.record.key != [] && item.deleting ==>
                  RecoveredPending([item]) == map[] && RecoveredDeletes([item]) == [t])
  {
    hide TaskKey;
    assert [item][..0] == [];
  }

  /** Two different records share a task key exactly when a zero byte in the longer collection continues
      the shorter one; while one of them is pending the scan then makes no task for the other. */
  lemma TaskKeysMeetExactly(a: DocumentRecord, b: DocumentRecord)
    requires |a.collection| <= |b.collection| && KeyPair(a) != KeyPair(b)
    ensures TaskKey(a) == TaskKey(b) <==>
            exists middle :: b.collection == Join(0, a.collection, middle) && a.key == Join(0, middle, b.key)
  {
    JoinCollision(0, a.collection, a.key, b.collection, b.key);
    if TaskKey(a) == TaskKey(b) {
      var middle := b.collection[|a.collection| + 1..];
      assert b.collection == Join(0, a.collection, middle) && a.key == Join(0, middle, b.key);
    }
    if middle :| b.collection == Join(0, a.collection, middle) && a.key == Join(0, middle, b.key) {
      assert Join(0, a.collection, Join(0, middle, b.key)) == Join(0, Join(0, a.collection, middle), b.key);
    }
  }

  function DelayedFor(pending: Pending, keys: seq<ByteString>, deleteAfter: ByteString -> int): seq<Task>
    requires forall i :: 0 <= i < |keys| ==> keys[i] in pending
  {
    seq(|keys|, i requires 0 <= i < |keys| => pending[keys[i]].(deleteAfter := deleteAfter(keys[i])))
  }

  /** A posting pass puts behind the delayed deletes exactly the delivered tasks, each once, in the order
      of their keys. */
  lemma {:induction false} PostAllDelays(w: World, n: Node, keys: seq<ByteString>, accepted: ByteString -> bool,
                                         deleteAfter: ByteString -> int) returns (delivered: seq<ByteString>)
    requires Ascending(keys)
    ensures Ascending(delivered)
    ensures forall k :: k in delivered <==> k in keys && k in n.pending && accepted(k)
    ensures forall i :: 0 <= i < |delivered| ==> delivered[i] in n.pending
    ensures PostAll(w, n, keys, accepted, deleteAfter).delayed ==
            n.delayed + DelayedFor(n.pending, delivered, deleteAfter)
    decreases keys
  {
    hide FinishPost, DelayedFor, Persist, PostAll;
    if keys == [] {
      delivered := [];
      PostNothing(w, n, keys, accepted, deleteAfter);
      DelayedNothing(n.pending, deleteAfter);
    } else {
      var k := keys[0];
      HeadNotInTail(keys);
      PostStep(w, n, keys, 0, accepted, deleteAfter);
      assert keys[0..] == keys;
      if k !in n.pending {
        delivered := PostAllDelays(w, n, keys[1..], accepted, deleteAfter);
      } else {
        var next := Persist(FinishPost(w, n, k, accepted(k), deleteAfter(k)));
        DelaysOne(w, n, k, accepted(k), deleteAfter(k));
        var rest := PostAllDelays(w, next, keys[1..], accepted, deleteAfter);
        assert forall x :: x in rest ==> x in keys[1..] && x in n.pending;
        if accepted(k) {
          delivered := [k] + rest;
          InFront(k, keys, rest);
          DelayedFront(n.pending, next.pending, k, rest, deleteAfter);
        } else {
          delivered := rest;
          DelayedSame(n.pending, next.pending, rest, deleteAfter);
        }
      }
    }
  }

  lemma DelaysOne(w: World, n: Node, k: ByteString, ok: bool, deleteAfter: int)
    requires k in n.pending
    ensures var next := Persist(FinishPost(w, n, k, ok, deleteAfter));
            && next.delayed == n.delayed + (if ok then [n.pending[k].(deleteAfter := deleteAfter)] else [])
            && (forall x :: x != k ==> (x in next.pending <==> x in n.pending))
            && (forall x :: x != k && x in n.pending ==> next.pending[x] == n.pending[x])
  {
    hide Written;
  }

  lemma DelayedNothing(pending: Pending, deleteAfter: ByteString -> int)
    ensures DelayedFor(pending, [], deleteAfter) == []
  {
  }

  lemma DelayedSame(a: Pending, b: Pending, keys: seq<ByteString>, deleteAfter: ByteString -> int)
    requires forall i :: 0 <= i < |keys| ==> keys[i] in a && keys[i] in b && a[keys[i]] == b[keys[i]]
    ensures DelayedFor(a, keys, deleteAfter) == DelayedFor(b, keys, deleteAfter)
  {
  }

  lemma DelayedFront(a: Pending, b: Pending, k: ByteString, keys: seq<ByteString>, deleteAfter: ByteString -> int)
    requires k in a
    requires forall i :: 0 <= i < |keys| ==> keys[i] in a && keys[i] in b && a[keys[i]] == b[keys[i]]
    ensures DelayedFor(a, [k] + keys, deleteAfter) ==
            [a[k].(deleteAfter := deleteAfter(k))] + DelayedFor(b, keys, deleteAfter)
  {
  }

  lemma InFront(k: ByteString, keys: seq<ByteString>, rest: seq<ByteString>)
    requires keys != [] && k == keys[0] && Ascending(keys) && Ascending(rest)
    requires forall x :: x in rest ==> x in keys[1..]
    ensures Ascending([k] + rest)
  {
    forall i, j | 0 <= i < j < |[k] + rest| ensures Less(([k] + rest)[i], ([k] + rest)[j]) {
      if i == 0 {
        assert rest[j - 1] in keys[1..];
      }
    }
  }
}
