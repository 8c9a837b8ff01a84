/** Where the migration meets the gateway: how a posted record arrives there, that the gateway's store
    and the protocol's are one, and what the delayed deletes do to index and pending records. */
module MigrationAtGateway {
  import opened ByteStrings
  import opened Documents
  import opened Mutations
  import opened DataMigration
  import MigrationProtocol
  import GatewayServer
  import IndexAgreement
  import RangeScan
  import WalLog
  import WalDurability

  /** The record the gateway makes of a posted one before it puts it. */
  function Arriving(cfg: GatewayServer.Settings, posted: DocumentRecord, now: int, counter: nat,
                    traceId: ByteString): DocumentRecord {
    GatewayServer.Traced(PrepareMutation(GatewayServer.Filled(cfg, posted), cfg.nodeId, now, counter), traceId)
  }

  /** A record of the default collection may come without its name; all other text stays. */
  lemma FilledKeeps(cfg: GatewayServer.Settings, r: DocumentRecord)
    ensures var f := GatewayServer.Filled(cfg, r);
            && f.key == r.key && f.title == r.title && f.body == r.body && f.metadata == r.metadata
            && f.version == r.version && f.updatedAt == r.updatedAt && f.mutationId == r.mutationId
            && (r.collection != [] ==> f.collection == r.collection)
            && (r.collection == [] ==> f.collection == cfg.defaultCollection)
  {
  }

  /** A trace id joins the metadata under its own name and leaves everything else. */
  lemma TracedKeeps(r: DocumentRecord, traceId: ByteString)
    ensures var t := GatewayServer.Traced(r, traceId);
            && KeyPair(t) == KeyPair(r) && t.title == r.title && t.body == r.body
            && t.version == r.version && t.updatedAt == r.updatedAt && t.mutationId == r.mutationId
            && (forall k :: k != GatewayServer.TRACE_ID ==> Lookup(t.metadata, k) == Lookup(r.metadata, k))
            && Lookup(t.metadata, GatewayServer.TRACE_ID) ==
               if traceId == [] then Lookup(r.metadata, GatewayServer.TRACE_ID) else Some(traceId)
  {
    hide GatewayServer.TRACE_ID;
  }

  /** The gateway stores a posted record with a version and a collection as the migration protocol asks
      of a target; the one thing left to ask is that the id it carries names this version. */
  lemma ArrivesAsPosted(w: World, cfg: GatewayServer.Settings, posted: DocumentRecord, now: int, counter: nat,
                        traceId: ByteString)
    requires -0x8000_0000_0000_0000 <= now < 0x8000_0000_0000_0000
    requires -0x8000_0000_0000_0000 <= posted.updatedAt < 0x8000_0000_0000_0000
    requires posted.version != 0 && posted.collection != []
    ensures var stored := Arriving(cfg, posted, now, counter, traceId);
            && MigrationProtocol.StoredFor(w, posted, stored) ==
               (w.versionOf(stored.mutationId).Some? ==> w.versionOf(stored.mutationId).value == posted.version)
            && stored.title == posted.title && stored.body == posted.body
  {
    hide GatewayServer.Traced, GatewayServer.Filled, PrepareMutation, MutationId;
    var filled := GatewayServer.Filled(cfg, posted);
    FilledKeeps(cfg, posted);
    PreparedKeepsGiven(filled, cfg.nodeId, now, counter);
    var prepared := PrepareMutation(filled, cfg.nodeId, now, counter);
    TracedKeeps(prepared, traceId);
    if posted.mutationId == [] {
      MadeIdNotEmpty(cfg.nodeId, prepared.updatedAt, counter);
    }
  }

  lemma MadeIdNotEmpty(node: ByteString, time: int, counter: nat)
    ensures MutationId(node, time, counter) != []
  {
    assert MutationId(node, time, counter)[|node|] == COLON;
  }

  // ------------------------------------------------------------------ one store under two kinds of keys

  /** A collection name without the separator, so that the composite key can be taken apart. */
  predicate Plain(r: DocumentRecord) {
    SEPARATOR !in r.collection
  }

  /** The gateway's store by composite key and the protocol's by collection and key hold the same records. */
  ghost predicate SameRecords(kv: WalLog.Records, m: Stored) {
    && (forall x :: x in kv ==> Plain(kv[x]) && KeyOf(kv[x]) == x && Lookup(m, KeyPair(kv[x])) == Some(kv[x]))
    && (forall p :: p in m ==> Plain(m[p]) && KeyPair(m[p]) == p && Lookup(kv, KeyOf(m[p])) == Some(m[p]))
  }

  lemma SamePlaces(kv: WalLog.Records, m: Stored, r: DocumentRecord)
    requires SameRecords(kv, m) && Plain(r)
    ensures Lookup(kv, KeyOf(r)) == Lookup(m, KeyPair(r))
  {
    hide CompositeKey;
    if KeyOf(r) in kv {
      SamePlace(kv[KeyOf(r)], r);
    }
  }

  lemma SamePlace(a: DocumentRecord, b: DocumentRecord)
    requires Plain(a) && Plain(b)
    ensures KeyOf(a) == KeyOf(b) <==> KeyPair(a) == KeyPair(b)
  {
    CompositeInjective(a.collection, a.key, b.collection, b.key);
  }

  /** The gateway's put and the protocol's take the same decision and keep the stores the same. */
  lemma PutsAgree(kv: WalLog.Records, m: Stored, r: DocumentRecord)
    requires SameRecords(kv, m) && Plain(r)
    ensures Decide(Lookup(kv, KeyOf(r)), r) == Decide(Lookup(m, KeyPair(r)), r)
    ensures SameRecords(GatewayServer.KvPut(kv, r), PutLocal(m, r))
  {
    hide KeyOf, Plain, Decide;
    SamePlaces(kv, m, r);
    var kv2, m2 := GatewayServer.KvPut(kv, r), PutLocal(m, r);
    if Decide(Lookup(m, KeyPair(r)), r) == Accept {
      assert kv2 == kv[KeyOf(r) := r] && m2 == m[KeyPair(r) := r];
      PutSame(kv, m, r);
    } else {
      assert kv2 == kv && m2 == m;
    }
  }

  lemma PutSame(kv: WalLog.Records, m: Stored, r: DocumentRecord)
    requires SameRecords(kv, m) && Plain(r)
    ensures SameRecords(kv[KeyOf(r) := r], m[KeyPair(r) := r])
  {
    hide KeyOf, KeyPair, Plain;
    forall x | x in kv ensures x == KeyOf(r) || KeyPair(kv[x]) != KeyPair(r) {
      SamePlace(kv[x], r);
    }
    forall p | p in m ensures p == KeyPair(r) || KeyOf(m[p]) != KeyOf(r) {
      SamePlace(m[p], r);
    }
  }

  /** So do their deletes. */
  lemma DeletesAgree(kv: WalLog.Records, m: Stored, r: DocumentRecord)
    requires SameRecords(kv, m) && Plain(r)
    ensures SameRecords(kv - {KeyOf(r)}, m - {KeyPair(r)})
  {
    hide KeyOf, KeyPair, Plain;
    forall x | x in kv ensures x == KeyOf(r) <==> KeyPair(kv[x]) == KeyPair(r) {
      SamePlace(kv[x], r);
    }
    forall p | p in m ensures p == KeyPair(r) <==> KeyOf(m[p]) == KeyOf(r) {
      SamePlace(m[p], r);
    }
  }

  // ------------------------------------------------------------------ a pass of delayed deletes at a site

  /** The site after a pass that fires these deletes. */
  function SiteAfter(w: World, me: nat, s: GatewayServer.Site, tasks: seq<Task>): GatewayServer.Site {
    if tasks == [] then s
    else
      var n := |tasks| - 1;
      var front := SiteAfter(w, me, s, tasks[..n]);
      if Foreign(w, me, tasks[n])
      then IndexAgreement.AfterMigrationDelete(front, KeyOf(tasks[n].record), tasks[n].semantic)
      else front
  }

  /** The manager's pass over its store and index is that pass over the site. */
  lemma {:induction false} PassIsSitePass(w: World, me: nat, s: GatewayServer.Site, m: Stored, tasks: seq<Task>)
    requires SameRecords(s.kv, m) && forall t :: t in tasks ==> Plain(t.record)
    ensures SameRecords(SiteAfter(w, me, s, tasks).kv, DeleteAll(w, me, m, tasks))
    ensures SiteAfter(w, me, s, tasks).index.Keys == UnindexAll(w, me, s.index.Keys, tasks)
    ensures SiteAfter(w, me, s, tasks).pending == s.pending
  {
    hide SameRecords, Plain, KeyOf, KeyPair;
    if tasks != [] {
      var n := |tasks| - 1;
      PassIsSitePass(w, me, s, m, tasks[..n]);
      DeletesAgree(SiteAfter(w, me, s, tasks[..n]).kv, DeleteAll(w, me, m, tasks[..n]), tasks[n].record);
    }
  }

  /** Some task to be fired deletes this key, and some such task takes it out of the index. */
  ghost predicate Leaves(w: World, me: nat, tasks: seq<Task>, k: ByteString) {
    exists t :: t in tasks && Foreign(w, me, t) && KeyOf(t.record) == k
  }

  ghost predicate LeavesIndex(w: World, me: nat, tasks: seq<Task>, k: ByteString) {
    exists t :: t in tasks && Foreign(w, me, t) && KeyOf(t.record) == k && t.semantic
  }

  lemma {:induction false} SiteAfterExactly(w: World, me: nat, s: GatewayServer.Site, tasks: seq<Task>)
    ensures var d := SiteAfter(w, me, s, tasks);
            && (forall k :: Lookup(d.kv, k) == if Leaves(w, me, tasks, k) then None else Lookup(s.kv, k))
            && (forall k :: Lookup(d.index, k) == if LeavesIndex(w, me, tasks, k) then None else Lookup(s.index, k))
            && d.pending == s.pending && d.file == s.file
  {
    hide KeyOf;
    if tasks != [] {
      var n := |tasks| - 1;
      SiteAfterExactly(w, me, s, tasks[..n]);
      assert forall t :: t in tasks <==> t in tasks[..n] || t == tasks[n] by {
        assert tasks == tasks[..n] + [tasks[n]];
      }
      forall k ensures Leaves(w, me, tasks, k) <==>
                       Leaves(w, me, tasks[..n], k) || (Foreign(w, me, tasks[n]) && KeyOf(tasks[n].record) == k)
      {
      }
      forall k ensures LeavesIndex(w, me, tasks, k) <==>
                       LeavesIndex(w, me, tasks[..n], k) ||
                       (Foreign(w, me, tasks[n]) && KeyOf(tasks[n].record) == k && tasks[n].semantic)
      {
      }
    }
  }

  /** A pass of delayed deletes keeps store, pending records and index in agreement exactly when no key it
      deletes is pending, and every stored one leaves the index too. */
  lemma PassAgreesExactly(w: World, me: nat, s: GatewayServer.Site, tasks: seq<Task>)
    requires IndexAgreement.Agree(s)
    ensures IndexAgreement.Agree(SiteAfter(w, me, s, tasks)) <==>
            forall k :: Leaves(w, me, tasks, k) ==>
              k !in s.pending && (k in s.kv ==> LeavesIndex(w, me, tasks, k))
  {
    hide KeyOf, Leaves, LeavesIndex, IndexAgreement.ContentOf;
    var d := SiteAfter(w, me, s, tasks);
    SiteAfterExactly(w, me, s, tasks);
    forall k ensures IndexAgreement.Matches(d, k) <==>
                     (Leaves(w, me, tasks, k) ==> k !in s.pending && (k in s.kv ==> LeavesIndex(w, me, tasks, k)))
    {
      assert IndexAgreement.Matches(s, k);
      LeavesBoth(w, me, tasks, k);
      assert Lookup(d.kv, k) == if Leaves(w, me, tasks, k) then None else Lookup(s.kv, k);
      assert Lookup(d.index, k) == if LeavesIndex(w, me, tasks, k) then None else Lookup(s.index, k);
    }
    assert RangeScan.Keyed(d.kv) && RangeScan.Keyed(d.index) by {
      forall k | k in d.kv ensures KeyOf(d.kv[k]) == k {
        assert Lookup(d.kv, k) == Lookup(s.kv, k);
      }
      forall k | k in d.index ensures KeyOf(d.index[k]) == k {
        assert Lookup(d.index, k) == Lookup(s.index, k);
      }
    }
  }

  lemma LeavesBoth(w: World, me: nat, tasks: seq<Task>, k: ByteString)
    ensures LeavesIndex(w, me, tasks, k) ==> Leaves(w, me, tasks, k)
  {
    hide KeyOf;
  }
}
