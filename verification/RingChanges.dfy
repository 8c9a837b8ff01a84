/** What happens to the newest version of a record when the ring may change between any two steps, or
    when a mutation id does not name a version: exactly which steps lose it, guards that prevent it,
    and runs that do lose it. */
module RingChanges {
  import opened ByteStrings
  import opened Documents
  import opened Mutations
  import opened DataMigration
  import opened MigrationProtocol

  /** A step of the cluster protocol under the ring of its moment. */
  datatype Step = Step(owner: RecordKey -> nat, action: Action)

  function Under(w: World, step: Step): World {
    w.(owner := step.owner)
  }

  predicate IsRun(w: World, c: Cluster, steps: seq<Step>)
    decreases |steps|, 0
  {
    steps == [] || (
      var front := steps[..|steps| - 1];
      IsRun(w, c, front)
      && Possible(Under(w, steps[|steps| - 1]), After(w, c, front), steps[|steps| - 1].action))
  }

  function After(w: World, c: Cluster, steps: seq<Step>): Cluster
    requires IsRun(w, c, steps)
    decreases |steps|, 1
  {
    if steps == [] then c
    else Next(Under(w, steps[|steps| - 1]), After(w, c, steps[..|steps| - 1]), steps[|steps| - 1].action)
  }

  lemma StepLast(w: World, c: Cluster, steps: seq<Step>, step: Step)
    requires IsRun(w, c, steps) && Possible(Under(w, step), After(w, c, steps), step.action)
    ensures IsRun(w, c, steps + [step])
    ensures After(w, c, steps + [step]) == Next(Under(w, step), After(w, c, steps), step.action)
  {
    hide Possible, Next;
    assert (steps + [step])[..|steps|] == steps;
  }

  lemma {:induction false} RunsJoin(w: World, c: Cluster, a: seq<Step>, b: seq<Step>)
    requires IsRun(w, c, a) && IsRun(w, After(w, c, a), b)
    ensures IsRun(w, c, a + b) && After(w, c, a + b) == After(w, After(w, c, a), b)
    decreases |b|
  {
    hide Possible, Next;
    if b == [] {
      assert a + b == a;
    } else {
      var n := |b| - 1;
      RunsJoin(w, c, a, b[..n]);
      assert (a + b)[..|a + b| - 1] == a + b[..n];
    }
  }

  lemma {:induction false} PrefixIsRun(w: World, c: Cluster, steps: seq<Step>, n: nat)
    requires IsRun(w, c, steps) && n <= |steps|
    ensures IsRun(w, c, steps[..n])
    decreases |steps|
  {
    hide Possible, Next;
    if n == |steps| {
      assert steps[..n] == steps;
    } else {
      PrefixIsRun(w, c, steps[..|steps| - 1], n);
      assert steps[..|steps| - 1][..n] == steps[..n];
    }
  }

  // ------------------------------------------------------------------ one step

  /** Every version held anywhere in c is held, or outdone, somewhere in d. */
  ghost predicate KeepsAll(c: Cluster, d: Cluster) {
    forall k: RecordKey, v: nat :: HeldSomewhere(c, k, v) ==> HeldSomewhere(d, k, v)
  }

  ghost predicate StoresFit(w: World, c: Cluster) {
    forall n :: 0 <= n < |c.nodes| ==> StoreFits(w, c.nodes[n].store)
  }

  ghost predicate AdmittedFit(w: World, c: Cluster) {
    forall p :: p in c.admitted ==> VersionFits(w, p.record)
  }

  /** The step is a delete of a local copy that is newer than every copy elsewhere. */
  ghost predicate RemovesNewest(c: Cluster, a: Action) {
    && a.DeleteCondemned? && a.n < |c.nodes| && c.nodes[a.n].condemned != []
    && var k := KeyPair(c.nodes[a.n].condemned[0].record);
       && k in c.nodes[a.n].store
       && forall j :: 0 <= j < |c.nodes| && j != a.n && k in c.nodes[j].store ==>
            c.nodes[j].store[k].version < c.nodes[a.n].store[k].version
  }

  lemma PutKeeps(w: World, m: Stored, r: DocumentRecord)
    requires StoreFits(w, m) && VersionFits(w, r)
    ensures StoreFits(w, PutLocal(m, r))
    ensures forall k :: k in m ==> k in PutLocal(m, r) && PutLocal(m, r)[k].version >= m[k].version
  {
  }

  /** Only a delete makes a store hold less, whatever the ring. */
  lemma StoresGrow(w: World, c: Cluster, a: Action)
    requires StoresFit(w, c) && AdmittedFit(w, c) && Possible(w, c, a)
    ensures |Next(w, c, a).nodes| == |c.nodes| && StoresFit(w, Next(w, c, a)) && AdmittedFit(w, Next(w, c, a))
    ensures var d := Next(w, c, a);
            !a.DeleteCondemned? ==> forall n, k :: 0 <= n < |c.nodes| && k in c.nodes[n].store ==>
              k in d.nodes[n].store && d.nodes[n].store[k].version >= c.nodes[n].store[k].version
  {
    hide StoreFits, VersionFits;
    match a
    case ClientPut(n, r) =>
      assert StoreFits(w, c.nodes[n].store);
      PutKeeps(w, c.nodes[n].store, r);
      hide PutLocal;
    case Arrive(m, stored) =>
      assert StoreFits(w, c.nodes[m.target].store);
      PutKeeps(w, c.nodes[m.target].store, stored);
      hide PutLocal, Decide;
    case Admit(_, _) =>
    case Post(_, _) =>
    case DeleteCondemned(n) => DeleteFits(w, c.nodes[n].store, KeyPair(c.nodes[n].condemned[0].record));
    case _ =>
      hide Next;
      MemoryOnly(w, c, a);
  }

  lemma DeleteFits(w: World, m: Stored, k: RecordKey)
    requires StoreFits(w, m)
    ensures StoreFits(w, m - {k})
  {
  }

  lemma GrownKeepsAll(c: Cluster, d: Cluster)
    requires |d.nodes| == |c.nodes|
    requires forall n, k :: 0 <= n < |c.nodes| && k in c.nodes[n].store ==>
               k in d.nodes[n].store && d.nodes[n].store[k].version >= c.nodes[n].store[k].version
    ensures KeepsAll(c, d)
  {
    forall k, v: nat | HeldSomewhere(c, k, v) ensures HeldSomewhere(d, k, v) {
      var n :| 0 <= n < |c.nodes| && k in c.nodes[n].store && c.nodes[n].store[k].version >= v;
      assert k in d.nodes[n].store && d.nodes[n].store[k].version >= v;
    }
  }

  /** A delete keeps all held versions exactly when its copy is not newer than all others. */
  lemma DeleteKeepsExactly(w: World, c: Cluster, a: Action)
    requires Possible(w, c, a) && a.DeleteCondemned?
    ensures KeepsAll(c, Next(w, c, a)) <==> !RemovesNewest(c, a)
  {
    var d := Next(w, c, a);
    var k := KeyPair(c.nodes[a.n].condemned[0].record);
    if RemovesNewest(c, a) {
      var v: nat := c.nodes[a.n].store[k].version;
      assert HeldSomewhere(c, k, v);
      assert !HeldSomewhere(d, k, v);
    } else {
      forall x, v: nat | HeldSomewhere(c, x, v) ensures HeldSomewhere(d, x, v) {
        var n :| 0 <= n < |c.nodes| && x in c.nodes[n].store && c.nodes[n].store[x].version >= v;
        if x == k && n == a.n {
          var j :| 0 <= j < |c.nodes| && j != a.n && k in c.nodes[j].store
                   && c.nodes[j].store[k].version >= c.nodes[a.n].store[k].version;
          assert k in d.nodes[j].store && d.nodes[j].store[k].version >= v;
        } else {
          assert x in d.nodes[n].store && d.nodes[n].store[x].version >= v;
        }
      }
    }
  }

  /** Under any ring, a step keeps all held versions exactly when it does not remove the newest copy. */
  lemma StepKeepsExactly(w: World, c: Cluster, a: Action)
    requires StoresFit(w, c) && AdmittedFit(w, c) && Possible(w, c, a)
    ensures KeepsAll(c, Next(w, c, a)) <==> !RemovesNewest(c, a)
    ensures StoresFit(w, Next(w, c, a)) && AdmittedFit(w, Next(w, c, a))
  {
    hide Next, Possible, HeldSomewhere, KeepsAll;
    StoresGrow(w, c, a);
    if a.DeleteCondemned? {
      DeleteKeepsExactly(w, c, a);
    } else {
      GrownKeepsAll(c, Next(w, c, a));
    }
  }

  // ------------------------------------------------------------------ runs under changing rings

  lemma {:induction false} RunKeepsStores(w: World, c: Cluster, steps: seq<Step>)
    requires StoresFit(w, c) && AdmittedFit(w, c) && IsRun(w, c, steps)
    ensures StoresFit(w, After(w, c, steps)) && AdmittedFit(w, After(w, c, steps))
    decreases |steps|
  {
    hide Next, Possible, StoresFit, AdmittedFit;
    if steps != [] {
      var last := steps[|steps| - 1];
      var before := After(w, c, steps[..|steps| - 1]);
      RunKeepsStores(w, c, steps[..|steps| - 1]);
      SameFits(w, last, before);
      StepKeepsExactly(Under(w, last), before, last.action);
      SameFits(w, last, After(w, c, steps));
    }
  }

  /** Whether records fit does not depend on the ring. */
  lemma SameFits(w: World, step: Step, c: Cluster)
    ensures StoresFit(Under(w, step), c) <==> StoresFit(w, c)
    ensures AdmittedFit(Under(w, step), c) <==> AdmittedFit(w, c)
  {
    var u := Under(w, step);
    forall r ensures VersionFits(u, r) <==> VersionFits(w, r) {
      assert u.versionOf == w.versionOf;
    }
    hide VersionFits;
    if StoresFit(u, c) {
      forall n | 0 <= n < |c.nodes| ensures StoreFits(w, c.nodes[n].store) {
        assert StoreFits(u, c.nodes[n].store);
      }
    }
    if StoresFit(w, c) {
      forall n | 0 <= n < |c.nodes| ensures StoreFits(u, c.nodes[n].store) {
        assert StoreFits(w, c.nodes[n].store);
      }
    }
  }

  /** The cluster after the first i steps. */
  function At(w: World, c: Cluster, steps: seq<Step>, i: nat): Cluster
    requires IsRun(w, c, steps) && i <= |steps|
  {
    PrefixIsRun(w, c, steps, i);
    After(w, c, steps[..i])
  }

  lemma AtNext(w: World, c: Cluster, steps: seq<Step>, i: nat)
    requires IsRun(w, c, steps) && i < |steps|
    ensures Possible(Under(w, steps[i]), At(w, c, steps, i), steps[i].action)
    ensures At(w, c, steps, i + 1) == Next(Under(w, steps[i]), At(w, c, steps, i), steps[i].action)
  {
    hide Possible, Next;
    PrefixIsRun(w, c, steps, i);
    PrefixIsRun(w, c, steps, i + 1);
    assert steps[..i + 1][..i] == steps[..i];
  }

  ghost predicate KeepsAllAt(w: World, c: Cluster, steps: seq<Step>, i: nat)
    requires IsRun(w, c, steps) && i < |steps|
  {
    KeepsAll(At(w, c, steps, i), At(w, c, steps, i + 1))
  }

  ghost predicate RemovesNewestAt(w: World, c: Cluster, steps: seq<Step>, i: nat)
    requires IsRun(w, c, steps) && i < |steps|
  {
    RemovesNewest(At(w, c, steps, i), steps[i].action)
  }

  /** Under rings that change at will, no step of a run loses a held version exactly when no step
      removes a copy that is newer than every copy elsewhere. */
  lemma RunKeepsExactly(w: World, c: Cluster, steps: seq<Step>)
    requires StoresFit(w, c) && AdmittedFit(w, c) && IsRun(w, c, steps)
    ensures (forall i :: 0 <= i < |steps| ==> KeepsAllAt(w, c, steps, i))
            <==> (forall i :: 0 <= i < |steps| ==> !RemovesNewestAt(w, c, steps, i))
  {
    forall i | 0 <= i < |steps| ensures KeepsAllAt(w, c, steps, i) <==> !RemovesNewestAt(w, c, steps, i) {
      KeepsExactlyAt(w, c, steps, i);
    }
    hide KeepsAllAt, RemovesNewestAt;
  }

  lemma KeepsExactlyAt(w: World, c: Cluster, steps: seq<Step>, i: nat)
    requires StoresFit(w, c) && AdmittedFit(w, c) && IsRun(w, c, steps) && i < |steps|
    ensures KeepsAllAt(w, c, steps, i) <==> !RemovesNewestAt(w, c, steps, i)
  {
    hide Next, Possible, KeepsAll, RemovesNewest, At;
    FitAt(w, c, steps, i);
    AtNext(w, c, steps, i);
    SameFits(w, steps[i], At(w, c, steps, i));
    StepKeepsExactly(Under(w, steps[i]), At(w, c, steps, i), steps[i].action);
  }

  lemma FitAt(w: World, c: Cluster, steps: seq<Step>, i: nat)
    requires StoresFit(w, c) && AdmittedFit(w, c) && IsRun(w, c, steps) && i <= |steps|
    ensures StoresFit(w, At(w, c, steps, i)) && AdmittedFit(w, At(w, c, steps, i))
  {
    PrefixIsRun(w, c, steps, i);
    RunKeepsStores(w, c, steps[..i]);
  }

  // ------------------------------------------------------------------ guards a node could check

  /** The copy about to be deleted is not newer than the record that was migrated. */
  predicate LocalNotNewer(c: Cluster, n: nat)
    requires n < |c.nodes| && c.nodes[n].condemned != []
  {
    var t := c.nodes[n].condemned[0];
    KeyPair(t.record) in c.nodes[n].store ==> c.nodes[n].store[KeyPair(t.record)].version <= t.record.version
  }

  /** The task's target is another node and holds the key in at least the version of the local copy. */
  predicate TargetCovers(c: Cluster, n: nat)
    requires n < |c.nodes| && c.nodes[n].condemned != []
  {
    var t := c.nodes[n].condemned[0];
    && t.target != n
    && (KeyPair(t.record) in c.nodes[n].store ==> Covered(c, t.target, c.nodes[n].store[KeyPair(t.record)]))
  }

  /** Every delete of the run asks the target first. */
  predicate AsksTarget(w: World, c: Cluster, steps: seq<Step>, i: nat)
    requires IsRun(w, c, steps) && i < |steps|
  {
    AtNext(w, c, steps, i);
    steps[i].action.DeleteCondemned? ==> TargetCovers(At(w, c, steps, i), steps[i].action.n)
  }

  /** Under rings that change at will, no step loses a held version if every delete that fires finds
      its target, another node, holding at least the version of the local copy. */
  lemma GuardedRunKeeps(w: World, c: Cluster, steps: seq<Step>)
    requires StoresFit(w, c) && AdmittedFit(w, c) && IsRun(w, c, steps)
    requires forall i :: 0 <= i < |steps| ==> AsksTarget(w, c, steps, i)
    ensures forall i :: 0 <= i < |steps| ==> KeepsAllAt(w, c, steps, i)
  {
    hide KeepsAllAt;
    forall i | 0 <= i < |steps| ensures KeepsAllAt(w, c, steps, i) {
      KeepsExactlyAt(w, c, steps, i);
      AtNext(w, c, steps, i);
      FitAt(w, c, steps, i);
      assert AsksTarget(w, c, steps, i);
      hide Next, At;
      if steps[i].action.DeleteCondemned? {
        CoveredIsNotNewest(w, At(w, c, steps, i), steps[i].action);
      }
    }
  }

  lemma CoveredIsNotNewest(w: World, c: Cluster, a: Action)
    requires a.DeleteCondemned? && a.n < |c.nodes| && c.nodes[a.n].condemned != [] && TargetCovers(c, a.n)
    requires StoresFit(w, c)
    ensures !RemovesNewest(c, a)
  {
    var t := c.nodes[a.n].condemned[0];
    if KeyPair(t.record) in c.nodes[a.n].store {
      assert StoreFits(w, c.nodes[a.n].store);
      assert KeyPair(c.nodes[a.n].store[KeyPair(t.record)]) == KeyPair(t.record);
    }
  }

  /** Deleting for task t at node me, whose store is m, keeps all held versions in every cluster in
      which some other node holds the task's record or a later version. */
  ghost predicate DeleteIsSafe(me: nat, m: Stored, t: Task) {
    forall c: Cluster, other: nat ::
      me < |c.nodes| && c.nodes[me].store == m && other != me && Covered(c, other, t.record) ==>
        KeepsAll(c, Deleted(c, me, t))
  }

  function Deleted(c: Cluster, me: nat, t: Task): Cluster
    requires me < |c.nodes|
  {
    SetNode(c, me, c.nodes[me].(store := c.nodes[me].store - {KeyPair(t.record)}))
  }

  /** As long as another node covers the migrated record, a delete is safe exactly when the node has no
      copy or its copy is not newer than that record. The code deletes by key and compares nothing. */
  lemma DeleteIsSafeExactly(me: nat, m: Stored, t: Task)
    ensures var k := KeyPair(t.record);
            DeleteIsSafe(me, m, t) <==> k !in m || m[k].version <= t.record.version
  {
    var k := KeyPair(t.record);
    if k !in m || m[k].version <= t.record.version {
      forall c: Cluster, other: nat |
        me < |c.nodes| && c.nodes[me].store == m && other != me && Covered(c, other, t.record)
        ensures KeepsAll(c, Deleted(c, me, t))
      {
        CoveredDeleteKeeps(c, me, other, t);
      }
    } else {
      UnsafeDelete(me, m, t);
    }
  }

  lemma CoveredDeleteKeeps(c: Cluster, me: nat, other: nat, t: Task)
    requires me < |c.nodes| && other != me && Covered(c, other, t.record)
    requires var m, k := c.nodes[me].store, KeyPair(t.record); k !in m || m[k].version <= t.record.version
    ensures KeepsAll(c, Deleted(c, me, t))
  {
    var k := KeyPair(t.record);
    var d := Deleted(c, me, t);
    forall x, v: nat | HeldSomewhere(c, x, v) ensures HeldSomewhere(d, x, v) {
      var n :| 0 <= n < |c.nodes| && x in c.nodes[n].store && c.nodes[n].store[x].version >= v;
      if n == me && x == k {
        assert k in d.nodes[other].store && d.nodes[other].store[k].version >= v;
      } else {
        assert x in d.nodes[n].store && d.nodes[n].store[x].version >= v;
      }
    }
  }

  /** Otherwise a cluster in which the target holds just the migrated record loses the newer one. */
  lemma UnsafeDelete(me: nat, m: Stored, t: Task)
    requires var k := KeyPair(t.record); k in m && m[k].version > t.record.version
    ensures !DeleteIsSafe(me, m, t)
  {
    var k := KeyPair(t.record);
    var nodes := seq(me + 2, i requires 0 <= i < me + 2 =>
      Idle(if i == me then m else if i == me + 1 then map[k := t.record] else map[]));
    var c := Cluster(nodes, {}, {}, {});
    var d := Deleted(c, me, t);
    var v: nat := m[k].version;
    assert c.nodes[me] == Idle(m) && c.nodes[me + 1] == Idle(map[k := t.record]);
    assert forall j :: 0 <= j < me ==> c.nodes[j] == Idle(map[]);
    assert Covered(c, me + 1, t.record);
    assert k in c.nodes[me].store && HeldSomewhere(c, k, v);
    assert !HeldSomewhere(d, k, v);
    assert !KeepsAll(c, d);
  }

  // ------------------------------------------------------------------ building blocks of runs that lose

  function Idle(m: Stored): Node {
    Node(m, [], [], map[], [], [], [])
  }

  lemma SameVersionFits(w: World, step: Step, r: DocumentRecord)
    ensures VersionFits(Under(w, step), r) <==> VersionFits(w, r)
  {
  }

  /** The task for record r of a node that hands it to the target. */
  function TaskFor(r: DocumentRecord, target: nat): Task {
    Task(r, target, false, 0, 0)
  }

  lemma ReadOne(w: World, c: Cluster, n: nat, r: DocumentRecord)
    requires n < |c.nodes| && Lookup(c.nodes[n].store, KeyPair(r)) == Some(r)
    ensures Possible(w, c, ReadPage(n, [r]))
    ensures Next(w, c, ReadPage(n, [r])) == SetNode(c, n, c.nodes[n].(page := [r]))
  {
  }

  lemma EnqueueOne(w: World, c: Cluster, n: nat, task: Task)
    requires n < |c.nodes| && c.nodes[n].page == [task.record] && TaskKey(task.record) !in c.nodes[n].pending
    requires w.owner(KeyPair(task.record)) == task.target != n
    ensures Possible(w, c, EnqueueNext(n, task))
    ensures Next(w, c, EnqueueNext(n, task)) ==
            SetNode(c, n, c.nodes[n].(page := [], pending := c.nodes[n].pending[TaskKey(task.record) := task]))
  {
    hide TaskKey;
    assert [task.record][1..] == [] && task.(target := w.owner(KeyPair(task.record))) == task;
  }

  lemma PostOne(w: World, c: Cluster, n: nat, key: ByteString, task: Task)
    requires n < |c.nodes| && key in c.nodes[n].pending && c.nodes[n].pending[key] == task
    ensures Possible(w, c, Post(n, key))
    ensures Next(w, c, Post(n, key)) == c.(wire := c.wire + {Message(task.target, task.record)})
  {
  }

  lemma ArriveOne(w: World, c: Cluster, task: Task)
    requires Message(task.target, task.record) in c.wire && task.target < |c.nodes| && VersionFits(w, task.record)
    requires Decide(Lookup(c.nodes[task.target].store, KeyPair(task.record)), task.record) != Reject
    ensures var m, node := Message(task.target, task.record), c.nodes[task.target];
            && Possible(w, c, Arrive(m, task.record))
            && Next(w, c, Arrive(m, task.record)) ==
               SetNode(c, task.target, node.(store := PutLocal(node.store, task.record))).(acked := c.acked + {m})
  {
    hide VersionFits, PutLocal, Decide;
  }

  lemma AnswerOne(w: World, c: Cluster, n: nat, key: ByteString, task: Task)
    requires n < |c.nodes| && key in c.nodes[n].pending && c.nodes[n].pending[key] == task
    requires Message(task.target, task.record) in c.acked
    ensures var a := Answered(n, key, true, task.deleteAfter);
            var node := c.nodes[n];
            && Possible(w, c, a)
            && Next(w, c, a) == SetNode(c, n, node.(pending := node.pending - {key}, delayed := node.delayed + [task]))
  {
    assert task.(deleteAfter := task.deleteAfter) == task;
  }

  /** Node n, which is idle but for waiting deletes, hands record r to its owner and waits to delete it. */
  lemma HandOver(w: World, c: Cluster, n: nat, r: DocumentRecord, owner: RecordKey -> nat) returns (steps: seq<Step>)
    requires n < |c.nodes| && c.nodes[n].page == [] && c.nodes[n].pending == map[]
    requires Lookup(c.nodes[n].store, KeyPair(r)) == Some(r) && VersionFits(w, r)
    requires owner(KeyPair(r)) != n && owner(KeyPair(r)) < |c.nodes|
    requires Decide(Lookup(c.nodes[owner(KeyPair(r))].store, KeyPair(r)), r) != Reject
    ensures IsRun(w, c, steps)
    ensures forall i :: 0 <= i < |steps| ==>
              steps[i].owner == owner && !steps[i].action.DeleteCondemned? && !steps[i].action.ClientPut?
    ensures var target := owner(KeyPair(r));
            After(w, c, steps).nodes ==
            c.nodes[n := c.nodes[n].(delayed := c.nodes[n].delayed + [TaskFor(r, target)])]
                   [target := c.nodes[target].(store := PutLocal(c.nodes[target].store, r))]
  {
    var target := owner(KeyPair(r));
    var task, key, message := TaskFor(r, target), TaskKey(r), Message(target, r);
    var s1, s2 := Step(owner, ReadPage(n, [r])), Step(owner, EnqueueNext(n, task));
    var s3, s4, s5 := Step(owner, Post(n, key)), Step(owner, Arrive(message, r)),
        Step(owner, Answered(n, key, true, 0));
    SameVersionFits(w, s1, r);
    hide Next, Possible, TaskKey, VersionFits, PutLocal, Decide, IsRun, After;
    EmptyRun(w, c);
    ReadOne(Under(w, s1), c, n, r);
    StepLast(w, c, [], s1);
    var c1 := After(w, c, [] + [s1]);
    EnqueueOne(Under(w, s2), c1, n, task);
    StepLast(w, c, [] + [s1], s2);
    var c2 := After(w, c, [] + [s1] + [s2]);
    PostOne(Under(w, s3), c2, n, key, task);
    StepLast(w, c, [] + [s1] + [s2], s3);
    var c3 := After(w, c, [] + [s1] + [s2] + [s3]);
    ArriveOne(Under(w, s4), c3, task);
    StepLast(w, c, [] + [s1] + [s2] + [s3], s4);
    var c4 := After(w, c, [] + [s1] + [s2] + [s3] + [s4]);
    AnswerOne(Under(w, s5), c4, n, key, task);
    StepLast(w, c, [] + [s1] + [s2] + [s3] + [s4], s5);
    steps := [] + [s1] + [s2] + [s3] + [s4] + [s5];
    assert map[key := task] - {key} == map[];
    assert map[][key := task] == map[key := task];
  }

  lemma EmptyRun(w: World, c: Cluster)
    ensures IsRun(w, c, []) && After(w, c, []) == c
  {
  }

  lemma TakeOne(w: World, c: Cluster, n: nat, task: Task)
    requires n < |c.nodes| && c.nodes[n].delayed == [task] && c.nodes[n].due == []
    ensures Possible(w, c, TakeDue(n, 0))
    ensures Next(w, c, TakeDue(n, 0)) == SetNode(c, n, c.nodes[n].(delayed := [], due := [task]))
  {
    assert [task][..0] + [task][1..] == [] && [] + [task] == [task];
  }

  lemma ResolveOne(w: World, c: Cluster, n: nat, task: Task)
    requires n < |c.nodes| && c.nodes[n].due == [task] && c.nodes[n].condemned == []
               && w.owner(KeyPair(task.record)) != n
    ensures Possible(w, c, ResolveDue(n))
    ensures Next(w, c, ResolveDue(n)) == SetNode(c, n, c.nodes[n].(due := [], condemned := [task]))
  {
    assert [task][1..] == [] && [] + [task] == [task];
  }

  lemma DeleteOne(w: World, c: Cluster, n: nat, task: Task)
    requires n < |c.nodes| && c.nodes[n].condemned == [task]
    ensures Possible(w, c, DeleteCondemned(n))
    ensures Next(w, c, DeleteCondemned(n)) ==
            SetNode(c, n, c.nodes[n].(store := c.nodes[n].store - {KeyPair(task.record)}, condemned := []))
  {
    assert [task][1..] == [];
  }

  /** Node n works off its one waiting delete, which the ring still sends elsewhere. */
  lemma WorkOff(w: World, c: Cluster, n: nat, task: Task, owner: RecordKey -> nat)
      returns (before: seq<Step>, delete: Step)
    requires n < |c.nodes| && c.nodes[n].delayed == [task] && c.nodes[n].due == [] && c.nodes[n].condemned == []
    requires owner(KeyPair(task.record)) != n
    ensures delete == Step(owner, DeleteCondemned(n)) && IsRun(w, c, before) && IsRun(w, c, before + [delete])
    ensures forall i :: 0 <= i < |before| ==>
              before[i].owner == owner && !before[i].action.DeleteCondemned? && !before[i].action.ClientPut?
    ensures After(w, c, before).nodes == c.nodes[n := c.nodes[n].(delayed := [], condemned := [task])]
    ensures After(w, c, before + [delete]).nodes ==
            c.nodes[n := c.nodes[n].(delayed := [], store := c.nodes[n].store - {KeyPair(task.record)})]
  {
    var s1, s2 := Step(owner, TakeDue(n, 0)), Step(owner, ResolveDue(n));
    delete := Step(owner, DeleteCondemned(n));
    hide IsRun, After, Next, Possible;
    EmptyRun(w, c);
    TakeOne(Under(w, s1), c, n, task);
    StepLast(w, c, [], s1);
    ResolveOne(Under(w, s2), After(w, c, [] + [s1]), n, task);
    StepLast(w, c, [] + [s1], s2);
    before := [] + [s1] + [s2];
    DeleteOne(Under(w, delete), After(w, c, before), n, task);
    StepLast(w, c, before, delete);
  }

  /** The same at the end of a run. */
  lemma ThenWorkOff(w: World, c: Cluster, prefix: seq<Step>, n: nat, task: Task, owner: RecordKey -> nat)
      returns (before: seq<Step>, delete: Step)
    requires IsRun(w, c, prefix)
    requires var d := After(w, c, prefix);
             n < |d.nodes| && d.nodes[n].delayed == [task] && d.nodes[n].due == [] && d.nodes[n].condemned == []
    requires owner(KeyPair(task.record)) != n
    ensures delete == Step(owner, DeleteCondemned(n))
    ensures IsRun(w, c, prefix + before) && IsRun(w, c, prefix + before + [delete])
    ensures forall i :: 0 <= i < |before| ==>
              before[i].owner == owner && !before[i].action.DeleteCondemned? && !before[i].action.ClientPut?
    ensures var d := After(w, c, prefix);
            && After(w, c, prefix + before).nodes == d.nodes[n := d.nodes[n].(delayed := [], condemned := [task])]
            && After(w, c, prefix + before + [delete]).nodes ==
               d.nodes[n := d.nodes[n].(delayed := [], store := d.nodes[n].store - {KeyPair(task.record)})]
  {
    hide IsRun, After;
    before, delete := WorkOff(w, After(w, c, prefix), n, task, owner);
    RunsJoin(w, c, prefix, before);
    RunsJoin(w, c, prefix, before + [delete]);
    assert prefix + before + [delete] == prefix + (before + [delete]);
  }

  // ------------------------------------------------------------------ runs that lose the newest version

  lemma FreshIdle(w: World, a: Stored, b: Stored)
    requires w.nodeCount == 2 && StoreFits(w, a) && StoreFits(w, b)
    ensures Fresh(w, Cluster([Idle(a), Idle(b)], {}, {}, {}))
  {
    hide StoreFits;
  }

  lemma OneRecordFits(w: World, r: DocumentRecord)
    requires VersionFits(w, r)
    ensures StoreFits(w, map[KeyPair(r) := r]) && StoreFits(w, map[])
  {
    hide VersionFits;
  }

  lemma RepeatedPut(r: DocumentRecord)
    ensures Decide(Some(r), r) != Reject && PutLocal(map[KeyPair(r) := r], r) == map[KeyPair(r) := r]
    ensures Decide(None, r) != Reject && PutLocal(map[], r) == map[KeyPair(r) := r]
  {
    assert map[KeyPair(r) := r][KeyPair(r) := r] == map[KeyPair(r) := r];
    assert map[][KeyPair(r) := r] == map[KeyPair(r) := r];
  }

  lemma NewerPut(first: DocumentRecord, second: DocumentRecord)
    requires KeyPair(first) == KeyPair(second) && first.version < second.version && !IsDuplicateMutation(first, second)
    ensures PutLocal(map[KeyPair(first) := first], second) == map[KeyPair(first) := second]
  {
    assert map[KeyPair(first) := first][KeyPair(first) := second] == map[KeyPair(first) := second];
  }

  /** A client writes at node n, which owns the key. */
  lemma WriteSteps(w: World, c: Cluster, n: nat, r: DocumentRecord, owner: RecordKey -> nat) returns (steps: seq<Step>)
    requires n < |c.nodes| && owner(KeyPair(r)) == n && VersionFits(w, r)
    ensures IsRun(w, c, steps)
    ensures forall i :: 0 <= i < |steps| ==> steps[i].owner == owner && !steps[i].action.DeleteCondemned?
    ensures After(w, c, steps).nodes == c.nodes[n := c.nodes[n].(store := PutLocal(c.nodes[n].store, r))]
  {
    var s1, s2 := Step(owner, Admit(n, r)), Step(owner, ClientPut(n, r));
    SameVersionFits(w, s1, r);
    EmptyRun(w, c);
    hide IsRun, After, VersionFits, PutLocal;
    StepLast(w, c, [], s1);
    StepLast(w, c, [] + [s1], s2);
    steps := [] + [s1] + [s2];
  }

  /** Node 0 migrates a record to node 1; while its delayed delete waits the ring moves the key to node
      0, a client writes a newer version there, and the ring moves back: the delete removes the newer
      version, and no node holds it any more. */
  lemma RingChangeLosesNewest(w: World, first: DocumentRecord, second: DocumentRecord, away: RecordKey -> nat,
                              here: RecordKey -> nat)
      returns (c: Cluster, before: seq<Step>, delete: Step)
    requires KeyPair(first) == KeyPair(second) && first.version < second.version
    requires VersionFits(w, first) && VersionFits(w, second) && !IsDuplicateMutation(first, second)
    requires w.nodeCount == 2 && away(KeyPair(first)) == 1 && here(KeyPair(first)) == 0
    ensures Fresh(w.(owner := away), c) && IsRun(w, c, before + [delete]) && IsRun(w, c, before)
    ensures forall i :: 0 <= i < |before| ==> before[i].owner == away || before[i].owner == here
    ensures delete == Step(away, DeleteCondemned(0))
    ensures HeldSomewhere(After(w, c, before), KeyPair(first), second.version)
    ensures !HeldSomewhere(After(w, c, before + [delete]), KeyPair(first), second.version)
  {
    var k := KeyPair(first);
    c := Cluster([Idle(map[k := first]), Idle(map[])], {}, {}, {});
    FreshPair(w.(owner := away), first);
    NewerPut(first, second);
    hide IsRun, After, VersionFits, PutLocal, Decide, Fresh, IsDuplicateMutation, HeldSomewhere;
    var write := HandOverAndWrite(w, c, first, second, away, here);
    var wait;
    wait, delete := ThenWorkOff(w, c, write, 0, TaskFor(first, 1), away);
    before := write + wait;
    HeldBy(After(w, c, before), 0, k, second.version);
    OnlyOlder(After(w, c, before + [delete]), k, first, second.version);
  }

  lemma HandOverAndWrite(w: World, c: Cluster, first: DocumentRecord, second: DocumentRecord, away: RecordKey -> nat,
                         here: RecordKey -> nat)
      returns (steps: seq<Step>)
    requires c == Cluster([Idle(map[KeyPair(first) := first]), Idle(map[])], {}, {}, {})
    requires KeyPair(first) == KeyPair(second) && VersionFits(w, first) && VersionFits(w, second)
    requires PutLocal(map[KeyPair(first) := first], second) == map[KeyPair(first) := second]
    requires away(KeyPair(first)) == 1 && here(KeyPair(first)) == 0
    ensures IsRun(w, c, steps)
    ensures forall i :: 0 <= i < |steps| ==> steps[i].owner == away || steps[i].owner == here
    ensures var k := KeyPair(first);
            After(w, c, steps).nodes ==
            [Idle(map[k := second]).(delayed := [TaskFor(first, 1)]), Idle(map[k := first])]
  {
    RepeatedPut(first);
    hide IsRun, After, VersionFits, PutLocal, Decide;
    var hand := HandOver(w, c, 0, first, away);
    assert [] + [TaskFor(first, 1)] == [TaskFor(first, 1)];
    var write := WriteSteps(w, After(w, c, hand), 0, second, here);
    RunsJoin(w, c, hand, write);
    steps := hand + write;
  }

  lemma FreshPair(w: World, r: DocumentRecord)
    requires w.nodeCount == 2 && VersionFits(w, r)
    ensures Fresh(w, Cluster([Idle(map[KeyPair(r) := r]), Idle(map[])], {}, {}, {}))
  {
    OneRecordFits(w, r);
    FreshIdle(w, map[KeyPair(r) := r], map[]);
  }

  lemma HeldBy(c: Cluster, n: nat, k: RecordKey, v: nat)
    requires n < |c.nodes| && k in c.nodes[n].store && c.nodes[n].store[k].version >= v
    ensures HeldSomewhere(c, k, v)
  {
  }

  lemma OnlyOlder(c: Cluster, k: RecordKey, older: DocumentRecord, v: nat)
    requires |c.nodes| == 2 && k !in c.nodes[0].store && c.nodes[1].store == map[k := older] && older.version < v
    ensures !HeldSomewhere(c, k, v)
  {
  }

  /** Comparing the local version with the migrated one is not enough. The ring sends the key to node
      1, then to node 0 and so on: node 0 hands its record to node 1 and node 1 hands it back, both
      deletes wait, neither copy is newer than the record its delete was made for, no client writes,
      and when both have fired no node holds the key in any version. */
  lemma CrossingDeletesLoseAll(w: World, r: DocumentRecord, away: RecordKey -> nat, here: RecordKey -> nat)
      returns (c: Cluster, before: seq<Step>, first: Step, between: seq<Step>, second: Step)
    requires VersionFits(w, r) && w.nodeCount == 2 && away(KeyPair(r)) == 1 && here(KeyPair(r)) == 0
    ensures Fresh(w.(owner := away), c) && HeldSomewhere(c, KeyPair(r), r.version)
    ensures first == Step(away, DeleteCondemned(0)) && second == Step(here, DeleteCondemned(1))
    ensures forall i :: 0 <= i < |before + between| ==>
              !(before + between)[i].action.DeleteCondemned? && !(before + between)[i].action.ClientPut?
    ensures IsRun(w, c, before)
    ensures var d := After(w, c, before); |d.nodes| == 2 && d.nodes[0].condemned != [] && LocalNotNewer(d, 0)
    ensures IsRun(w, c, before + [first] + between)
    ensures var d := After(w, c, before + [first] + between);
            |d.nodes| == 2 && d.nodes[1].condemned != [] && LocalNotNewer(d, 1)
    ensures IsRun(w, c, before + [first] + between + [second])
    ensures forall v: nat :: !HeldSomewhere(After(w, c, before + [first] + between + [second]), KeyPair(r), v)
  {
    var k := KeyPair(r);
    c := Cluster([Idle(map[k := r]), Idle(map[])], {}, {}, {});
    FreshPair(w.(owner := away), r);
    HeldBy(c, 0, k, r.version);
    hide IsRun, After, VersionFits, Fresh, HeldSomewhere;
    var hands := HandToAndFro(w, c, r, away, here);
    var wait;
    wait, first := ThenWorkOff(w, c, hands, 0, TaskFor(r, 1), away);
    before := hands + wait;
    between, second := ThenWorkOff(w, c, before + [first], 1, TaskFor(r, 0), here);
    HeldNowhere(After(w, c, before + [first] + between + [second]), k);
  }

  lemma HandToAndFro(w: World, c: Cluster, r: DocumentRecord, away: RecordKey -> nat, here: RecordKey -> nat)
      returns (steps: seq<Step>)
    requires c == Cluster([Idle(map[KeyPair(r) := r]), Idle(map[])], {}, {}, {})
    requires VersionFits(w, r) && away(KeyPair(r)) == 1 && here(KeyPair(r)) == 0
    ensures IsRun(w, c, steps)
    ensures forall i :: 0 <= i < |steps| ==> !steps[i].action.DeleteCondemned? && !steps[i].action.ClientPut?
    ensures var stored := Idle(map[KeyPair(r) := r]);
            After(w, c, steps).nodes == [stored.(delayed := [TaskFor(r, 1)]), stored.(delayed := [TaskFor(r, 0)])]
  {
    RepeatedPut(r);
    hide IsRun, After, VersionFits, PutLocal, Decide;
    var stored := Idle(map[KeyPair(r) := r]);
    var go := HandOver(w, c, 0, r, away);
    var c1 := After(w, c, go);
    assert [] + [TaskFor(r, 1)] == [TaskFor(r, 1)] && [] + [TaskFor(r, 0)] == [TaskFor(r, 0)];
    assert c1.nodes == [stored.(delayed := [TaskFor(r, 1)]), stored];
    var back := HandOver(w, c1, 1, r, here);
    RunsJoin(w, c, go, back);
    steps := go + back;
  }

  lemma HeldNowhere(c: Cluster, k: RecordKey)
    requires forall n :: 0 <= n < |c.nodes| ==> k !in c.nodes[n].store
    ensures forall v: nat :: !HeldSomewhere(c, k, v)
  {
  }

  /** Under one ring a mutation id that names two versions is enough: the owner ignores the newer record
      as repeated over the older one, acknowledges it, and the newer copy is deleted. */
  lemma SharedIdLosesNewest(w: World, older: DocumentRecord, newer: DocumentRecord)
      returns (c: Cluster, before: seq<Step>, delete: Step)
    requires KeyPair(older) == KeyPair(newer) && older.version < newer.version && IsDuplicateMutation(older, newer)
    requires VersionFits(w, older) && VersionFits(w, newer)
    requires w.nodeCount == 2 && w.owner(KeyPair(older)) == 1
    ensures Fresh(w, c) && IsRun(w, c, before + [delete]) && IsRun(w, c, before)
    ensures forall i :: 0 <= i < |before| ==> before[i].owner == w.owner && !before[i].action.ClientPut?
    ensures delete == Step(w.owner, DeleteCondemned(0))
    ensures HeldSomewhere(After(w, c, before), KeyPair(older), newer.version)
    ensures !HeldSomewhere(After(w, c, before + [delete]), KeyPair(older), newer.version)
  {
    var k := KeyPair(older);
    var a, b := map[k := newer], map[k := older];
    c := Cluster([Idle(a), Idle(b)], {}, {}, {});
    OneRecordFits(w, older);
    OneRecordFits(w, newer);
    FreshIdle(w, a, b);
    assert PutLocal(b, newer) == b && Decide(Lookup(b, k), newer) != Reject;
    hide IsRun, After, VersionFits, PutLocal, Decide, Fresh, IsDuplicateMutation, HeldSomewhere;
    var hand := HandOver(w, c, 0, newer, w.owner);
    var c1 := After(w, c, hand);
    assert [] + [TaskFor(newer, 1)] == [TaskFor(newer, 1)];
    assert c1.nodes == [Idle(a).(delayed := [TaskFor(newer, 1)]), Idle(b)];
    var wait;
    wait, delete := ThenWorkOff(w, c, hand, 0, TaskFor(newer, 1), w.owner);
    before := hand + wait;
    HeldBy(After(w, c, before), 0, k, newer.version);
    OnlyOlder(After(w, c, before + [delete]), k, older, newer.version);
  }
}
