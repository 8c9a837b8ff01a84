/** The loops of the migration manager as runs of the cluster protocol: what is proved of every run
    holds for what the manager does. */
module MigrationRuns {
  import opened ByteStrings
  import opened Documents
  import opened Mutations
  import opened DataMigration
  import opened MigrationProtocol

  lemma {:induction false} PageStandsAside(w: World, me: nat, n: Node, tasks: seq<Task>, page: seq<DocumentRecord>)
    ensures EnqueuePage(w, me, n.(page := page), tasks) == EnqueuePage(w, me, n, tasks).(page := page)
    decreases tasks
  {
    if tasks != [] {
      var next := Enqueue(w, me, n, tasks[0].record, tasks[0]);
      PageStandsAside(w, me, if next == n then n else Persist(next), tasks[1..], page);
    }
  }

  lemma StepFirst(w: World, c: Cluster, a: Action, rest: seq<Action>)
    requires Possible(w, c, a) && Runs(w, Next(w, c, a), rest)
    ensures Runs(w, c, [a] + rest) && Run(w, c, [a] + rest) == Run(w, Next(w, c, a), rest)
  {
    hide Next, Possible;
    assert ([a] + rest)[1..] == rest;
  }

  lemma SetTwice(c: Cluster, n: nat, a: Node, b: Node)
    requires n < |c.nodes|
    ensures SetNode(SetNode(c, n, a), n, b) == SetNode(c, n, b)
    ensures SetNode(c, n, c.nodes[n]) == c
  {
  }

  lemma EnqueueNextIs(w: World, c: Cluster, n: nat, task: Task)
    requires n < |c.nodes| && c.nodes[n].page != [] && task.record == c.nodes[n].page[0]
    ensures Possible(w, c, EnqueueNext(n, task))
    ensures Next(w, c, EnqueueNext(n, task)) ==
            SetNode(c, n, Enqueue(w, n, c.nodes[n], task.record, task).(page := c.nodes[n].page[1..]))
  {
  }

  lemma PersistIs(w: World, c: Cluster, n: nat)
    requires n < |c.nodes|
    ensures Possible(w, c, PersistTasks(n)) && Next(w, c, PersistTasks(n)) == SetNode(c, n, Persist(c.nodes[n]))
  {
  }

  /** Collecting the tasks of a page is a run of the protocol. */
  lemma {:induction false} CollectIsRun(w: World, c: Cluster, n: nat, tasks: seq<Task>) returns (actions: seq<Action>)
    requires n < |c.nodes| && |c.nodes[n].page| == |tasks|
    requires forall i :: 0 <= i < |tasks| ==> c.nodes[n].page[i] == tasks[i].record
    ensures Runs(w, c, actions)
    ensures Run(w, c, actions) == SetNode(c, n, EnqueuePage(w, n, c.nodes[n], tasks).(page := []))
    decreases tasks
  {
    hide Written, Next, Possible, Enqueue;
    if tasks == [] {
      actions := [];
      SetTwice(c, n, c.nodes[n], c.nodes[n]);
    } else {
      var node := c.nodes[n];
      var first := EnqueueNext(n, tasks[0]);
      EnqueueNextIs(w, c, n, tasks[0]);
      var c1 := Next(w, c, first);
      var next := Enqueue(w, n, node, tasks[0].record, tasks[0]);
      PageStandsAside(w, n, if next == node then node else Persist(next), tasks[1..], node.page[1..]);
      if next == node {
        var rest := CollectIsRun(w, c1, n, tasks[1..]);
        StepFirst(w, c, first, rest);
        actions := [first] + rest;
      } else {
        PersistIs(w, c1, n);
        var c2 := Next(w, c1, PersistTasks(n));
        var rest := CollectIsRun(w, c2, n, tasks[1..]);
        StepFirst(w, c1, PersistTasks(n), rest);
        StepFirst(w, c, first, [PersistTasks(n)] + rest);
        actions := [first] + ([PersistTasks(n)] + rest);
      }
    }
  }

  /** What becomes of one post: lost before it arrives, or arrived and stored as the given record, with
      or without the answer coming back. */
  datatype Outcome = Lost | Arrived(stored: DocumentRecord, answered: bool)

  /** The outcome is one the target and the network can produce. */
  predicate Deliverable(w: World, c: Cluster, n: nat, task: Task, o: Outcome) {
    task.target != n && (o.Arrived? ==> task.target < |c.nodes| && StoredFor(w, task.record, o.stored))
  }

  /** The manager sees a success exactly when the post arrives, the target does not refuse the record
      and the answer comes back. */
  predicate Accepts(c: Cluster, task: Task, o: Outcome) {
    && o.Arrived? && o.answered && task.target < |c.nodes|
    && Decide(Lookup(c.nodes[task.target].store, KeyPair(o.stored)), o.stored) != Reject
  }

  /** Apart from node n only stores differ, and of the records of key k only. */
  predicate OnlyStoresDiffer(c: Cluster, d: Cluster, n: nat) {
    && |d.nodes| == |c.nodes|
    && forall j :: 0 <= j < |c.nodes| && j != n ==> d.nodes[j] == c.nodes[j].(store := d.nodes[j].store)
  }

  ghost predicate OnlyKeyDiffers(c: Cluster, d: Cluster, n: nat, k: RecordKey) {
    && |d.nodes| == |c.nodes|
    && forall j, x :: 0 <= j < |c.nodes| && j != n && x != k ==>
         Lookup(d.nodes[j].store, x) == Lookup(c.nodes[j].store, x)
  }

  /** One post with its answer is a run of the protocol. */
  lemma PostOneIsRun(w: World, c: Cluster, n: nat, key: ByteString, o: Outcome, deleteAfter: int)
      returns (actions: seq<Action>)
    requires n < |c.nodes| && key in c.nodes[n].pending && Deliverable(w, c, n, c.nodes[n].pending[key], o)
    ensures Runs(w, c, actions)
    ensures var task := c.nodes[n].pending[key];
            var d := Run(w, c, actions);
            && OnlyStoresDiffer(c, d, n) && OnlyKeyDiffers(c, d, n, KeyPair(task.record))
            && d.nodes[n] == Persist(FinishPost(w, c.nodes[n], key, Accepts(c, task, o), deleteAfter))
  {
    hide Written, FinishPost, GivesUp, Accepts, OnlyKeyDiffers, Next, Possible;
    var task := c.nodes[n].pending[key];
    var c2, send := SendIsRun(w, c, n, key, o);
    var answer := AnswerIsRun(w, c2, n, key, Accepts(c, task, o), deleteAfter);
    RunsJoin(w, c, send, answer);
    SameKeyDiffers(c, c2, Run(w, c2, answer), n, KeyPair(task.record));
    actions := send + answer;
  }

  lemma SameKeyDiffers(c: Cluster, c2: Cluster, d: Cluster, n: nat, k: RecordKey)
    requires OnlyKeyDiffers(c, c2, n, k) && n < |c2.nodes| == |d.nodes| && d.nodes == c2.nodes[n := d.nodes[n]]
    ensures OnlyKeyDiffers(c, d, n, k)
  {
    hide Lookup;
  }

  /** The post goes out and, unless it is lost, arrives. */
  lemma SendIsRun(w: World, c: Cluster, n: nat, key: ByteString, o: Outcome) returns (d: Cluster, actions: seq<Action>)
    requires n < |c.nodes| && key in c.nodes[n].pending && Deliverable(w, c, n, c.nodes[n].pending[key], o)
    ensures Runs(w, c, actions) && d == Run(w, c, actions)
    ensures var task := c.nodes[n].pending[key];
            && OnlyStoresDiffer(c, d, n) && OnlyKeyDiffers(c, d, n, KeyPair(task.record)) && d.nodes[n] == c.nodes[n]
            && (Accepts(c, task, o) ==> Message(task.target, task.record) in d.acked)
  {
    var task := c.nodes[n].pending[key];
    var post := Post(n, key);
    var c1 := Next(w, c, post);
    if o.Lost? {
      d := c1;
      StepFirst(w, c, post, []);
      actions := [post] + [];
    } else {
      var arrive := Arrive(Message(task.target, task.record), o.stored);
      d := Next(w, c1, arrive);
      assert OnlyKeyDiffers(c, d, n, KeyPair(task.record));
      hide Decide, PutLocal;
      StepFirst(w, c1, arrive, []);
      StepFirst(w, c, post, [arrive] + []);
      actions := [post] + ([arrive] + []);
    }
  }

  lemma AnswerIsRun(w: World, c: Cluster, n: nat, key: ByteString, ok: bool, deleteAfter: int)
      returns (actions: seq<Action>)
    requires n < |c.nodes| && key in c.nodes[n].pending
    requires ok ==> Message(c.nodes[n].pending[key].target, c.nodes[n].pending[key].record) in c.acked
    ensures Runs(w, c, actions) && |Run(w, c, actions).nodes| == |c.nodes|
    ensures Run(w, c, actions).nodes == c.nodes[n := Persist(FinishPost(w, c.nodes[n], key, ok, deleteAfter))]
  {
    hide Written, FinishPost, GivesUp;
    var answer := Answered(n, key, ok, deleteAfter);
    var c3 := Next(w, c, answer);
    StepFirst(w, c3, PersistTasks(n), []);
    StepFirst(w, c, answer, [PersistTasks(n)] + []);
    actions := [answer] + ([PersistTasks(n)] + []);
  }

  /** The keys the pass still has to do meet their targets as the given answers say. */
  predicate Answers(w: World, c: Cluster, n: nat, keys: seq<ByteString>, outcome: ByteString -> Outcome,
                    accepted: ByteString -> bool)
    requires n < |c.nodes|
  {
    forall i :: 0 <= i < |keys| && keys[i] in c.nodes[n].pending ==>
      && Deliverable(w, c, n, c.nodes[n].pending[keys[i]], outcome(keys[i]))
      && accepted(keys[i]) == Accepts(c, c.nodes[n].pending[keys[i]], outcome(keys[i]))
  }

  /** Answering one task does not change the answers to the others: they are about other keys. */
  lemma OthersAnswerAlike(w: World, c: Cluster, d: Cluster, n: nat, keys: seq<ByteString>,
                          outcome: ByteString -> Outcome, accepted: ByteString -> bool, ok: bool, deleteAfter: int)
    requires n < |c.nodes| && Ascending(keys) && keys != [] && keys[0] in c.nodes[n].pending
               && Keyed(c.nodes[n].pending)
    requires Answers(w, c, n, keys, outcome, accepted)
    requires OnlyStoresDiffer(c, d, n) && OnlyKeyDiffers(c, d, n, KeyPair(c.nodes[n].pending[keys[0]].record))
    requires d.nodes[n] == Persist(FinishPost(w, c.nodes[n], keys[0], ok, deleteAfter))
    ensures Answers(w, d, n, keys[1..], outcome, accepted) && Keyed(d.nodes[n].pending)
  {
    hide Written, TaskKey, Less;
    HeadNotInTail(keys);
    var first := c.nodes[n].pending[keys[0]].record;
    forall i | 0 <= i < |keys[1..]| && keys[1..][i] in d.nodes[n].pending
      ensures Deliverable(w, d, n, d.nodes[n].pending[keys[1..][i]], outcome(keys[1..][i]))
      ensures accepted(keys[1..][i]) == Accepts(d, d.nodes[n].pending[keys[1..][i]], outcome(keys[1..][i]))
    {
      var key := keys[i + 1];
      assert keys[1..][i] == key && key in keys[1..] && key != keys[0];
      var task := c.nodes[n].pending[key];
      assert d.nodes[n].pending[key] == task;
      OtherRecord(first, task.record);
    }
  }

  lemma OtherRecord(a: DocumentRecord, b: DocumentRecord)
    ensures KeyPair(a) == KeyPair(b) ==> TaskKey(a) == TaskKey(b)
  {
  }

  /** Posting the tasks of the given keys is a run of the protocol in which each post goes out, and
      arrives and is answered as its outcome says. */
  lemma {:induction false} PostAllIsRun(w: World, c: Cluster, n: nat, keys: seq<ByteString>,
                                        outcome: ByteString -> Outcome,
                                        accepted: ByteString -> bool, deleteAfter: ByteString -> int)
      returns (actions: seq<Action>)
    requires n < |c.nodes| && Ascending(keys) && Keyed(c.nodes[n].pending)
    requires Answers(w, c, n, keys, outcome, accepted)
    ensures Runs(w, c, actions)
    ensures OnlyStoresDiffer(c, Run(w, c, actions), n)
    ensures Run(w, c, actions).nodes[n] == PostAll(w, c.nodes[n], keys, accepted, deleteAfter)
    decreases |keys|
  {
    hide Written, Next, Possible, FinishPost, Deliverable, Accepts, Less, Keyed;
    if keys == [] {
      actions := [];
    } else if keys[0] !in c.nodes[n].pending {
      SkipOne(w, c, n, keys, outcome, accepted);
      actions := PostAllIsRun(w, c, n, keys[1..], outcome, accepted, deleteAfter);
    } else {
      var one := PostOneIsRun(w, c, n, keys[0], outcome(keys[0]), deleteAfter(keys[0]));
      var d := Run(w, c, one);
      OthersAnswerAlike(w, c, d, n, keys, outcome, accepted, accepted(keys[0]), deleteAfter(keys[0]));
      var rest := PostAllIsRun(w, d, n, keys[1..], outcome, accepted, deleteAfter);
      RunsJoin(w, c, one, rest);
      actions := one + rest;
    }
  }

  lemma SkipOne(w: World, c: Cluster, n: nat, keys: seq<ByteString>, outcome: ByteString -> Outcome,
                accepted: ByteString -> bool)
    requires n < |c.nodes| && keys != [] && Ascending(keys) && Answers(w, c, n, keys, outcome, accepted)
    ensures Ascending(keys[1..]) && Answers(w, c, n, keys[1..], outcome, accepted)
  {
    hide Deliverable, Accepts, Less;
  }

  /** The pass over all pending tasks of a node, whatever becomes of each post: what the manager
      records as success is what was acknowledged, never assumed. */
  lemma PassIsRun(w: World, c: Cluster, n: nat, outcome: ByteString -> Outcome, deleteAfter: ByteString -> int)
      returns (actions: seq<Action>)
    requires n < |c.nodes| && Keyed(c.nodes[n].pending) && Targeted(w, n, c.nodes[n])
    requires forall k :: k in c.nodes[n].pending && outcome(k).Arrived? ==>
               c.nodes[n].pending[k].target < |c.nodes| && StoredFor(w, c.nodes[n].pending[k].record, outcome(k).stored)
    ensures Runs(w, c, actions) && OnlyStoresDiffer(c, Run(w, c, actions), n)
    ensures var accepted := (k: ByteString) => k in c.nodes[n].pending && Accepts(c, c.nodes[n].pending[k], outcome(k));
            Run(w, c, actions).nodes[n] ==
            PostAll(w, c.nodes[n], SortedKeys(c.nodes[n].pending.Keys), accepted, deleteAfter)
  {
    hide Written, Next, Possible, PostAll, SortedKeys, Accepts, Less;
    var accepted := (k: ByteString) => k in c.nodes[n].pending && Accepts(c, c.nodes[n].pending[k], outcome(k));
    var keys := SortedKeys(c.nodes[n].pending.Keys);
    actions := PostAllIsRun(w, c, n, keys, outcome, accepted, deleteAfter);
  }

  lemma TakeFromMiddle(front: seq<Task>, tasks: seq<Task>, k: nat)
    requires k < |tasks|
    ensures (front + tasks[k..])[|front|] == tasks[k]
    ensures (front + tasks[k..])[..|front|] + (front + tasks[k..])[|front| + 1..] == front + tasks[k + 1..]
  {
  }

  lemma TakeDueNext(w: World, c: Cluster, n: nat, index: nat)
    requires n < |c.nodes| && index < |c.nodes[n].delayed|
    ensures Possible(w, c, TakeDue(n, index))
    ensures var node := c.nodes[n];
            Next(w, c, TakeDue(n, index)) ==
            SetNode(c, n, node.(delayed := node.delayed[..index] + node.delayed[index + 1..],
                                due := node.due + [node.delayed[index]]))
  {
  }

  lemma SplitSnoc(tasks: seq<Task>, k: nat, now: int)
    requires k < |tasks|
    ensures var due := tasks[k].deleteAfter <= now;
            && DueTasks(tasks[..k + 1], now) == DueTasks(tasks[..k], now) + (if due then [tasks[k]] else [])
            && LaterTasks(tasks[..k + 1], now) == LaterTasks(tasks[..k], now) + (if due then [] else [tasks[k]])
  {
    assert tasks[..k + 1][..k] == tasks[..k];
  }

  /** A node whose first k delayed deletes have been sorted out. */
  function Sorted(node: Node, tasks: seq<Task>, k: nat, now: int): Node
    requires k <= |tasks|
  {
    node.(due := DueTasks(tasks[..k], now), delayed := LaterTasks(tasks[..k], now) + tasks[k..])
  }

  /** Taking out the due deletes is a run of the protocol: the first k tasks are done. */
  lemma {:induction false} TakeDueIsRun(w: World, c: Cluster, n: nat, node: Node, tasks: seq<Task>, k: nat, now: int)
      returns (actions: seq<Action>)
    requires n < |c.nodes| && k <= |tasks| && c.nodes[n] == Sorted(node, tasks, k, now)
    ensures Runs(w, c, actions)
    ensures Run(w, c, actions) == SetNode(c, n, Sorted(node, tasks, |tasks|, now))
    decreases |tasks| - k
  {
    hide Next, Possible, DueTasks, LaterTasks, SetNode;
    if k == |tasks| {
      actions := [];
      SetTwice(c, n, c.nodes[n], c.nodes[n]);
    } else {
      SplitSnoc(tasks, k, now);
      var later := LaterTasks(tasks[..k], now);
      if tasks[k].deleteAfter <= now {
        var first := TakeDue(n, |later|);
        TakeFromMiddle(later, tasks, k);
        TakeDueNext(w, c, n, |later|);
        var next := Sorted(node, tasks, k + 1, now);
        var c1 := Next(w, c, first);
        assert later + [] == later;
        assert c1 == SetNode(c, n, next);
        NodeSet(c, n, next);
        var rest := TakeDueIsRun(w, c1, n, node, tasks, k + 1, now);
        StepFirst(w, c, first, rest);
        SetTwice(c, n, next, Sorted(node, tasks, |tasks|, now));
        actions := [first] + rest;
      } else {
        assert later + tasks[k..] == later + [tasks[k]] + tasks[k + 1..];
        actions := TakeDueIsRun(w, c, n, node, tasks, k + 1, now);
      }
    }
  }

  lemma NodeSet(c: Cluster, n: nat, a: Node)
    requires n < |c.nodes|
    ensures |SetNode(c, n, a).nodes| == |c.nodes| && SetNode(c, n, a).nodes[n] == a
  {
  }

  /** Resolving and, if it still belongs elsewhere, deleting one task. */
  lemma DeleteOneIsRun(w: World, c: Cluster, n: nat) returns (actions: seq<Action>)
    requires n < |c.nodes| && c.nodes[n].due != [] && c.nodes[n].condemned == []
    ensures Runs(w, c, actions)
    ensures var node := c.nodes[n];
            Run(w, c, actions) ==
            SetNode(c, n, node.(due := node.due[1..], store := DeleteIfRemote(w, n, node.store, node.due[0])))
  {
    var node := c.nodes[n];
    var c1 := Next(w, c, ResolveDue(n));
    if w.owner(KeyPair(node.due[0].record)) == n {
      StepFirst(w, c, ResolveDue(n), []);
      actions := [ResolveDue(n)] + [];
    } else {
      assert [] + [node.due[0]] == [node.due[0]] && [node.due[0]][1..] == [];
      StepFirst(w, c1, DeleteCondemned(n), []);
      StepFirst(w, c, ResolveDue(n), [DeleteCondemned(n)] + []);
      actions := [ResolveDue(n)] + ([DeleteCondemned(n)] + []);
    }
  }

  /** Working off the due deletes is a run of the protocol. */
  lemma {:induction false} DeleteAllIsRun(w: World, c: Cluster, n: nat, m: Stored, tasks: seq<Task>, k: nat)
      returns (actions: seq<Action>)
    requires n < |c.nodes| && k <= |tasks| && c.nodes[n].condemned == []
    requires c.nodes[n].due == tasks[k..] && c.nodes[n].store == DeleteAll(w, n, m, tasks[..k])
    ensures Runs(w, c, actions)
    ensures Run(w, c, actions) == SetNode(c, n, c.nodes[n].(due := [], store := DeleteAll(w, n, m, tasks)))
    decreases |tasks| - k
  {
    hide Next, Possible, DeleteIfRemote, SetNode;
    if k == |tasks| {
      actions := [];
      assert tasks[..k] == tasks;
      SetTwice(c, n, c.nodes[n], c.nodes[n]);
    } else {
      assert tasks[..k + 1][..k] == tasks[..k];
      var node := c.nodes[n];
      var first := DeleteOneIsRun(w, c, n);
      var c1 := Run(w, c, first);
      NodeSet(c, n, node.(due := node.due[1..], store := DeleteIfRemote(w, n, node.store, node.due[0])));
      var rest := DeleteAllIsRun(w, c1, n, m, tasks, k + 1);
      RunsJoin(w, c, first, rest);
      SetTwice(c, n, c1.nodes[n], node.(due := [], store := DeleteAll(w, n, m, tasks)));
      actions := first + rest;
    }
  }

  lemma DeletesAreRun(w: World, c: Cluster, n: nat, now: int) returns (actions: seq<Action>)
    requires n < |c.nodes| && c.nodes[n].due == [] && c.nodes[n].condemned == []
    ensures Runs(w, c, actions)
    ensures Run(w, c, actions) == SetNode(c, n, AfterDeletes(w, n, c.nodes[n], now))
  {
    hide Written, DueTasks, LaterTasks, DeleteAll;
    var node := c.nodes[n];
    var due := DueTasks(node.delayed, now);
    NothingTaken(node, now);
    var take := TakeDueIsRun(w, c, n, node, node.delayed, 0, now);
    var c1 := Run(w, c, take);
    NothingDeleted(w, n, node.store, due);
    var delete := DeleteAllIsRun(w, c1, n, node.store, due, 0);
    var c2 := Run(w, c1, delete);
    assert c2 == SetNode(c, n, c2.nodes[n]);
    RunsJoin(w, c, take, delete);
    if due == [] {
      actions := take + delete;
    } else {
      var persist := [PersistTasks(n)];
      assert Runs(w, c2, persist) && Run(w, c2, persist) == SetNode(c2, n, Persist(c2.nodes[n])) by {
        StepFirst(w, c2, PersistTasks(n), []);
        assert persist == persist + [];
      }
      RunsJoin(w, c, take + delete, persist);
      actions := (take + delete) + persist;
    }
  }

  lemma NothingTaken(node: Node, now: int)
    requires node.due == []
    ensures node == Sorted(node, node.delayed, 0, now)
    ensures Sorted(node, node.delayed, |node.delayed|, now) ==
            node.(due := DueTasks(node.delayed, now), delayed := LaterTasks(node.delayed, now))
  {
    assert node.delayed[..|node.delayed|] == node.delayed && node.delayed[|node.delayed|..] == [];
    assert LaterTasks(node.delayed, now) + [] == LaterTasks(node.delayed, now);
  }

  lemma NothingDeleted(w: World, me: nat, m: Stored, tasks: seq<Task>)
    ensures DeleteAll(w, me, m, tasks[..0]) == m && tasks[0..] == tasks
  {
  }

  lemma {:induction false} RunsJoin(w: World, c: Cluster, a: seq<Action>, b: seq<Action>)
    requires Runs(w, c, a) && Runs(w, Run(w, c, a), b)
    ensures Runs(w, c, a + b) && Run(w, c, a + b) == Run(w, Run(w, c, a), b)
    decreases |a|
  {
    hide Next, Possible;
    if a == [] {
      assert a + b == b;
    } else {
      assert (a + b)[0] == a[0] && (a + b)[1..] == a[1..] + b;
      RunsJoin(w, Next(w, c, a[0]), a[1..], b);
    }
  }

  // ------------------------------------------------------------------ what every reachable node satisfies

  /** Pending tasks, in memory and in the log, go to the owner of their key, and that is another node. */
  ghost predicate Targeted(w: World, me: nat, node: Node) {
    && (forall k :: k in node.pending ==> GoesAway(w, me, node.pending[k]))
    && (forall i :: 0 <= i < |node.log| && !node.log[i].deleting ==> GoesAway(w, me, node.log[i].task))
  }

  predicate GoesAway(w: World, me: nat, task: Task) {
    task.target == w.owner(KeyPair(task.record)) && task.target != me
  }

  ghost predicate AllOrderly(w: World, c: Cluster) {
    forall n :: 0 <= n < |c.nodes| ==> Keyed(c.nodes[n].pending) && Targeted(w, n, c.nodes[n])
  }

  lemma {:induction false} RecoveredKeyed(log: TaskLog)
    ensures Keyed(RecoveredPending(log))
  {
    hide TaskKey;
    if log != [] {
      RecoveredKeyed(log[..|log| - 1]);
    }
  }

  lemma RestartIsOrderly(w: World, me: nat, node: Node)
    requires Targeted(w, me, node)
    ensures Keyed(Restart(node).pending) && Targeted(w, me, Restart(node))
  {
    hide Keyed, GoesAway;
    RecoveredKeyed(node.log);
    RecoveredFromLog(node.log);
    hide RecoveredPending, RecoveredDeletes;
    forall k | k in RecoveredPending(node.log) ensures GoesAway(w, me, RecoveredPending(node.log)[k]) {
      var i :| 0 <= i < |node.log| && node.log[i] == LogItem(false, RecoveredPending(node.log)[k]);
    }
  }

  lemma PersistIsOrderly(w: World, me: nat, node: Node)
    requires Targeted(w, me, node)
    ensures Targeted(w, me, Persist(node))
  {
    hide Written, GoesAway;
    WrittenFromTasks(node.pending, node.delayed);
  }

  /** What orderliness looks at stays: the pending tasks and the log. */
  lemma SameTasksStayOrderly(w: World, c: Cluster, d: Cluster)
    requires AllOrderly(w, c) && |d.nodes| == |c.nodes|
    requires forall n :: 0 <= n < |c.nodes| ==>
               d.nodes[n].pending == c.nodes[n].pending && d.nodes[n].log == c.nodes[n].log
    ensures AllOrderly(w, d)
  {
    hide Keyed, GoesAway;
    forall n | 0 <= n < |d.nodes| ensures Keyed(d.nodes[n].pending) && Targeted(w, n, d.nodes[n]) {
      assert Keyed(c.nodes[n].pending) && Targeted(w, n, c.nodes[n]);
    }
  }

  lemma OneNodeStaysOrderly(w: World, c: Cluster, n: nat, node: Node)
    requires AllOrderly(w, c) && n < |c.nodes| && Keyed(node.pending) && Targeted(w, n, node)
    ensures AllOrderly(w, SetNode(c, n, node))
  {
    hide Keyed, Targeted;
  }

  lemma EnqueueIsOrderly(w: World, me: nat, node: Node, task: Task, page: seq<DocumentRecord>)
    requires Keyed(node.pending) && Targeted(w, me, node)
    ensures var next := Enqueue(w, me, node, task.record, task).(page := page);
            Keyed(next.pending) && Targeted(w, me, next)
  {
    hide TaskKey;
  }

  lemma AnswerIsOrderly(w: World, me: nat, node: Node, key: ByteString, ok: bool, deleteAfter: int)
    requires key in node.pending && Keyed(node.pending) && Targeted(w, me, node)
    ensures var next := FinishPost(w, node, key, ok, deleteAfter);
            Keyed(next.pending) && Targeted(w, me, next)
  {
    hide TaskKey;
  }

  lemma StepKeepsOrder(w: World, c: Cluster, a: Action)
    requires Possible(w, c, a) && AllOrderly(w, c)
    ensures AllOrderly(w, Next(w, c, a))
  {
    hide AllOrderly, Keyed, Targeted, Written, RecoveredPending, RecoveredDeletes, PutLocal, FinishPost, Enqueue;
    match a
    case EnqueueNext(n, task) =>
      NodeIsOrderly(w, c, n);
      EnqueueIsOrderly(w, n, c.nodes[n], task, c.nodes[n].page[1..]);
      OneNodeStaysOrderly(w, c, n, Next(w, c, a).nodes[n]);
    case Answered(n, key, ok, deleteAfter) =>
      NodeIsOrderly(w, c, n);
      AnswerIsOrderly(w, n, c.nodes[n], key, ok, deleteAfter);
      OneNodeStaysOrderly(w, c, n, Next(w, c, a).nodes[n]);
    case PersistTasks(n) =>
      NodeIsOrderly(w, c, n);
      PersistIsOrderly(w, n, c.nodes[n]);
      OneNodeStaysOrderly(w, c, n, Next(w, c, a).nodes[n]);
    case CrashRestart(n, logKept) =>
      NodeIsOrderly(w, c, n);
      WithoutLog(w, n, c.nodes[n]);
      RestartIsOrderly(w, n, if logKept then c.nodes[n] else c.nodes[n].(log := []));
      OneNodeStaysOrderly(w, c, n, Next(w, c, a).nodes[n]);
    case _ => SameTasksStayOrderly(w, c, Next(w, c, a));
  }

  lemma NodeIsOrderly(w: World, c: Cluster, n: nat)
    requires AllOrderly(w, c) && n < |c.nodes|
    ensures Keyed(c.nodes[n].pending) && Targeted(w, n, c.nodes[n])
  {
  }

  lemma WithoutLog(w: World, me: nat, node: Node)
    requires Targeted(w, me, node)
    ensures Targeted(w, me, node.(log := []))
  {
  }

  lemma {:induction false} RunKeepsOrder(w: World, c: Cluster, actions: seq<Action>)
    requires AllOrderly(w, c) && Runs(w, c, actions)
    ensures AllOrderly(w, Run(w, c, actions))
    decreases |actions|
  {
    hide Next, Possible, AllOrderly;
    if actions != [] {
      StepKeepsOrder(w, c, actions[0]);
      RunKeepsOrder(w, Next(w, c, actions[0]), actions[1..]);
    }
  }

  /** In every state a run reaches from fresh task lists, a pass of any node is a further run. */
  lemma ReachablePassIsRun(w: World, c: Cluster, before: seq<Action>, n: nat, outcome: ByteString -> Outcome,
                           deleteAfter: ByteString -> int)
      returns (actions: seq<Action>)
    requires Fresh(w, c) && Runs(w, c, before) && n < |Run(w, c, before).nodes|
    requires var node := Run(w, c, before).nodes[n];
             forall k :: k in node.pending && outcome(k).Arrived? ==>
               && node.pending[k].target < |Run(w, c, before).nodes|
               && StoredFor(w, node.pending[k].record, outcome(k).stored)
    ensures Runs(w, c, before + actions)
    ensures var d := Run(w, c, before);
            var accepted := (k: ByteString) => k in d.nodes[n].pending && Accepts(d, d.nodes[n].pending[k], outcome(k));
            && |Run(w, c, before + actions).nodes| == |d.nodes|
            && Run(w, c, before + actions).nodes[n] ==
               PostAll(w, d.nodes[n], SortedKeys(d.nodes[n].pending.Keys), accepted, deleteAfter)
  {
    hide Written, Next, Possible, PostAll, SortedKeys, Accepts, Less;
    RunKeepsOrder(w, c, before);
    actions := PassIsRun(w, Run(w, c, before), n, outcome, deleteAfter);
    RunsJoin(w, c, before, actions);
  }

  // ------------------------------------------------------------------ passes among the steps of others

  /** The steps of node n's own worker, and its restart. */
  predicate Own(n: nat, a: Action) {
    !a.Admit? && !a.ClientPut? && !a.Arrive? && a.n == n
  }

  function OwnSteps(n: nat, actions: seq<Action>): seq<Action> {
    if actions == [] then []
    else if Own(n, actions[0]) then [actions[0]] + OwnSteps(n, actions[1..])
    else OwnSteps(n, actions[1..])
  }

  /** What an own step does to the node apart from its store. */
  function OwnEffect(w: World, n: nat, node: Node, a: Action): Node {
    match a
    case ReadPage(_, page) => node.(page := page)
    case EnqueueNext(_, task) =>
      if node.page == [] then node else Enqueue(w, n, node, task.record, task).(page := node.page[1..])
    case PersistTasks(_) => Persist(node)
    case Answered(_, key, ok, deleteAfter) =>
      if key in node.pending then FinishPost(w, node, key, ok, deleteAfter) else node
    case TakeDue(_, i) =>
      if i >= |node.delayed| then node
      else node.(delayed := node.delayed[..i] + node.delayed[i + 1..], due := node.due + [node.delayed[i]])
    case ResolveDue(_) => if node.due == [] then node else Resolve(w, n, node)
    case DeleteCondemned(_) => if node.condemned == [] then node else node.(condemned := node.condemned[1..])
    case CrashRestart(_, logKept) => Restart(if logKept then node else node.(log := []))
    case _ => node
  }

  function OwnRun(w: World, n: nat, node: Node, steps: seq<Action>): Node
    decreases |steps|
  {
    if steps == [] then node else OwnRun(w, n, OwnEffect(w, n, node, steps[0]), steps[1..])
  }

  lemma EffectSparesStore(w: World, n: nat, node: Node, m: Stored, a: Action)
    ensures OwnEffect(w, n, node.(store := m), a) == OwnEffect(w, n, node, a).(store := m)
  {
    hide Written, RecoveredPending, RecoveredDeletes, TaskKey;
  }

  lemma {:induction false} RunSparesStore(w: World, n: nat, node: Node, m: Stored, steps: seq<Action>)
    ensures OwnRun(w, n, node.(store := m), steps) == OwnRun(w, n, node, steps).(store := m)
    decreases |steps|
  {
    hide OwnEffect;
    if steps != [] {
      EffectSparesStore(w, n, node, m, steps[0]);
      RunSparesStore(w, n, OwnEffect(w, n, node, steps[0]), m, steps[1..]);
    }
  }

  /** One step of the cluster, seen from node n: its own effect, or at most a change of the store. */
  lemma StepSeenFrom(w: World, c: Cluster, n: nat, a: Action)
    requires n < |c.nodes| && Possible(w, c, a)
    ensures |Next(w, c, a).nodes| == |c.nodes|
    ensures var node := if Own(n, a) then OwnEffect(w, n, c.nodes[n], a) else c.nodes[n];
            Next(w, c, a).nodes[n] == node.(store := Next(w, c, a).nodes[n].store)
  {
    hide Written, RecoveredPending, RecoveredDeletes, PutLocal, TaskKey, FinishPost, Decide;
  }

  /** In every run the memory of a node is what its own steps make of it, whatever happens between. */
  lemma {:induction false} OwnStepsDecide(w: World, c: Cluster, n: nat, actions: seq<Action>)
    requires n < |c.nodes| && Runs(w, c, actions)
    ensures |Run(w, c, actions).nodes| == |c.nodes|
    ensures var d := Run(w, c, actions);
            d.nodes[n] == OwnRun(w, n, c.nodes[n], OwnSteps(n, actions)).(store := d.nodes[n].store)
    decreases |actions|
  {
    hide Next, Possible, OwnEffect, Own;
    if actions != [] {
      var a := actions[0];
      var c1 := Next(w, c, a);
      StepSeenFrom(w, c, n, a);
      OwnStepsDecide(w, c1, n, actions[1..]);
      var node := if Own(n, a) then OwnEffect(w, n, c.nodes[n], a) else c.nodes[n];
      RunSparesStore(w, n, node, c1.nodes[n].store, OwnSteps(n, actions[1..]));
      OwnCons(n, a, actions[1..]);
      assert actions == [a] + actions[1..];
    }
  }

  lemma OwnCons(n: nat, a: Action, rest: seq<Action>)
    ensures OwnSteps(n, [a] + rest) == if Own(n, a) then [a] + OwnSteps(n, rest) else OwnSteps(n, rest)
    ensures ([a] + OwnSteps(n, rest))[1..] == OwnSteps(n, rest)
  {
    assert ([a] + rest)[1..] == rest;
  }

  /** The own steps of a pass: for each key post, take the answer, persist. */
  function PassSteps(n: nat, keys: seq<ByteString>, accepted: ByteString -> bool,
                     deleteAfter: ByteString -> int): seq<Action> {
    if keys == [] then []
    else
      [Post(n, keys[0]), Answered(n, keys[0], accepted(keys[0]), deleteAfter(keys[0])), PersistTasks(n)]
      + PassSteps(n, keys[1..], accepted, deleteAfter)
  }

  lemma {:induction false} PassStepsPostAll(w: World, n: nat, node: Node, keys: seq<ByteString>,
                                            accepted: ByteString -> bool,
                                            deleteAfter: ByteString -> int)
    requires Ascending(keys) && forall i :: 0 <= i < |keys| ==> keys[i] in node.pending
    ensures OwnRun(w, n, node, PassSteps(n, keys, accepted, deleteAfter)) ==
              PostAll(w, node, keys, accepted, deleteAfter)
    decreases |keys|
  {
    hide Written, Less;
    if keys != [] {
      var key := keys[0];
      var answer := Answered(n, key, accepted(key), deleteAfter(key));
      var rest := PassSteps(n, keys[1..], accepted, deleteAfter);
      HeadNotInTail(keys);
      var next := Persist(FinishPost(w, node, key, accepted(key), deleteAfter(key)));
      ThreeSteps(w, n, node, Post(n, key), answer, PersistTasks(n), rest);
      forall i | 0 <= i < |keys[1..]| ensures keys[1..][i] in next.pending {
        assert keys[1..][i] in keys[1..] && keys[1..][i] == keys[i + 1];
      }
      PassStepsPostAll(w, n, next, keys[1..], accepted, deleteAfter);
    }
  }

  lemma ThreeSteps(w: World, n: nat, node: Node, a: Action, b: Action, c: Action, rest: seq<Action>)
    ensures OwnRun(w, n, node, [a, b, c] + rest) ==
            OwnRun(w, n, OwnEffect(w, n, OwnEffect(w, n, OwnEffect(w, n, node, a), b), c), rest)
  {
    hide OwnEffect, OwnRun;
    assert [a, b, c] + rest == [a] + ([b] + ([c] + rest));
    var first := OwnEffect(w, n, node, a);
    FirstStep(w, n, node, a, [b] + ([c] + rest));
    FirstStep(w, n, first, b, [c] + rest);
    FirstStep(w, n, OwnEffect(w, n, first, b), c, rest);
  }

  lemma FirstStep(w: World, n: nat, node: Node, a: Action, rest: seq<Action>)
    ensures OwnRun(w, n, node, [a] + rest) == OwnRun(w, n, OwnEffect(w, n, node, a), rest)
  {
    hide OwnEffect;
    assert ([a] + rest)[1..] == rest;
  }

  /** In every run in which the own steps of node n are those of a pass over its pending tasks, other
      nodes, clients and messages doing anything in between, the node ends up as the pass alone says,
      apart from its store. */
  lemma EveryInterleavedPass(w: World, c: Cluster, n: nat, actions: seq<Action>, accepted: ByteString -> bool,
                             deleteAfter: ByteString -> int)
    requires n < |c.nodes| && Runs(w, c, actions)
    requires OwnSteps(n, actions) == PassSteps(n, SortedKeys(c.nodes[n].pending.Keys), accepted, deleteAfter)
    ensures |Run(w, c, actions).nodes| == |c.nodes|
    ensures var d := Run(w, c, actions);
            d.nodes[n] ==
            PostAll(w, c.nodes[n], SortedKeys(c.nodes[n].pending.Keys), accepted, deleteAfter)
              .(store := d.nodes[n].store)
  {
    hide Next, Possible, OwnEffect, Own, PostAll, SortedKeys, OwnRun, PassSteps;
    OwnStepsDecide(w, c, n, actions);
    PassStepsPostAll(w, n, c.nodes[n], SortedKeys(c.nodes[n].pending.Keys), accepted, deleteAfter);
  }
}
