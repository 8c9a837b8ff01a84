/** Which incoming record replaces which stored record, and what repeated or reordered delivery leads to. */
module Mutations {
  import opened ByteStrings
  import opened Documents
  import Decimals

  datatype Status =
    | Ok
    | StaleMutation
    | DuplicateKey
    | MissingMagic
    | TruncatedFrame
    | TruncatedPayload
    | BadRecord
    | BadEntry

  predicate IsDuplicateMutation(existing: DocumentRecord, incoming: DocumentRecord) {
    incoming.mutationId != [] && existing.mutationId == incoming.mutationId
  }

  function ValidateMutation(existing: DocumentRecord, incoming: DocumentRecord): Status {
    if IsDuplicateMutation(existing, incoming) then Ok
    else if incoming.version != 0 && existing.version != 0 && incoming.version < existing.version then StaleMutation
    else Ok
  }

  /** The get-validate-write decision every put makes about the stored record, if any. */
  datatype Decision = Accept | Ignore | Reject

  function Decide(slot: Option<DocumentRecord>, incoming: DocumentRecord): Decision {
    if slot.None? then Accept
    else if ValidateMutation(slot.value, incoming) != Ok then Reject
    else if IsDuplicateMutation(slot.value, incoming) then Ignore
    else Accept
  }

  function After(slot: Option<DocumentRecord>, incoming: DocumentRecord): Option<DocumentRecord> {
    if Decide(slot, incoming) == Accept then Some(incoming) else slot
  }

  /** A put of r under key k of a map of records. */
  function PutAt<K>(m: map<K, DocumentRecord>, k: K, r: DocumentRecord): map<K, DocumentRecord> {
    match After(Lookup(m, k), r)
    case Some(x) => m[k := x]
    case None => m
  }

  /** The slot of one key after a sequence of puts. */
  function Deliver(slot: Option<DocumentRecord>, rs: seq<DocumentRecord>): Option<DocumentRecord>
    decreases rs
  {
    if rs == [] then slot else Deliver(After(slot, rs[0]), rs[1..])
  }

  /** A record older than the stored one, or carrying its mutation id, leaves the slot alone;
      so does delivering a record twice in a row. */
  lemma StaleAndRepeatedChangeNothing(slot: Option<DocumentRecord>, r: DocumentRecord)
    ensures slot.Some? && (IsDuplicateMutation(slot.value, r) || 0 < r.version < slot.value.version) ==>
              After(slot, r) == slot
    ensures After(After(slot, r), r) == After(slot, r)
  {
  }

  lemma {:induction false} DeliverConcat(slot: Option<DocumentRecord>, a: seq<DocumentRecord>, b: seq<DocumentRecord>)
    ensures Deliver(slot, a + b) == Deliver(Deliver(slot, a), b)
    decreases a
  {
    if a == [] {
      assert a + b == b;
    } else {
      assert (a + b)[1..] == a[1..] + b;
      DeliverConcat(After(slot, a[0]), a[1..], b);
    }
  }

  lemma {:induction false} DeliverFromAmong(slot: Option<DocumentRecord>, rs: seq<DocumentRecord>)
    ensures Deliver(slot, rs) == slot || (exists r :: r in rs && Deliver(slot, rs) == Some(r))
    ensures slot.Some? || rs != [] ==> Deliver(slot, rs).Some?
    decreases rs
  {
    if rs != [] {
      DeliverFromAmong(After(slot, rs[0]), rs[1..]);
      assert rs[0] in rs && forall r :: r in rs[1..] ==> r in rs;
    }
  }

  predicate Versioned(rs: seq<DocumentRecord>) {
    forall r :: r in rs ==> r.version != 0
  }

  /** With non-zero versions the stored version never goes down. */
  lemma {:induction false} VersionsNeverDecrease(slot: Option<DocumentRecord>, rs: seq<DocumentRecord>)
    requires Versioned(rs) && (slot.Some? ==> slot.value.version != 0)
    ensures slot.Some? ==> Deliver(slot, rs).Some? && slot.value.version <= Deliver(slot, rs).value.version
    decreases rs
  {
    if rs != [] {
      VersionsNeverDecrease(After(slot, rs[0]), rs[1..]);
    }
  }

  // ---------------------------------------------------------------- convergence

  function Elements(rs: seq<DocumentRecord>): set<DocumentRecord> {
    set r | r in rs
  }

  /** t is newer than every other record and shares its mutation id with none. */
  predicate Dominates(d: set<DocumentRecord>, t: DocumentRecord) {
    && t in d
    && forall r :: r in d && r != t ==> r.version < t.version && !IsDuplicateMutation(r, t)
  }

  /** Every delivery order, with any repetitions, ends with t stored. */
  ghost predicate ConvergesTo(d: set<DocumentRecord>, t: DocumentRecord) {
    forall rs :: Elements(rs) == d ==> Deliver(None, rs) == Some(t)
  }

  lemma {:induction false} DominantSurvives(d: set<DocumentRecord>, t: DocumentRecord, rs: seq<DocumentRecord>,
                                            slot: Option<DocumentRecord>)
    requires Dominates(d, t) && Elements(rs) <= d && t.version != 0
    requires forall r :: r in d ==> r.version != 0
    requires slot.Some? ==> slot.value in d
    requires slot == Some(t) || t in rs
    ensures Deliver(slot, rs) == Some(t)
    decreases rs
  {
    if rs != [] {
      assert rs[0] in Elements(rs);
      assert forall r :: r in rs[1..] ==> r in Elements(rs);
      DominantSurvives(d, t, rs[1..], After(slot, rs[0]));
    }
  }

  lemma {:induction false} Enumerate(d: set<DocumentRecord>) returns (rs: seq<DocumentRecord>)
    ensures Elements(rs) == d
    decreases |d|
  {
    if d == {} {
      rs := [];
    } else {
      var r :| r in d;
      var rest := Enumerate(d - {r});
      rs := [r] + rest;
      assert forall x :: x in rs <==> x == r || x in rest;
      assert forall x :: x in rest <==> x in Elements(rest);
    }
  }

  lemma ElementsConcat(a: seq<DocumentRecord>, b: seq<DocumentRecord>)
    ensures Elements(a + b) == Elements(a) + Elements(b)
  {
  }

  /** An order that ends with something other than t, when some record shares t's mutation id. */
  lemma SharedIdDefeats(d: set<DocumentRecord>, t: DocumentRecord, r: DocumentRecord) returns (rs: seq<DocumentRecord>)
    requires t in d && r in d && r != t && IsDuplicateMutation(r, t)
    ensures Elements(rs) == d && Deliver(None, rs) != Some(t)
  {
    var rest := Enumerate(d - {t});
    rs := [r, t] + rest;
    ElementsConcat([r, t], rest);
    DeliverConcat(None, [r, t], rest);
    assert [r, t][1..] == [t] && [t][1..] == [];
    assert Deliver(None, [r, t]) == Deliver(Some(r), [t]) == Some(r);
    DeliverFromAmong(Some(r), rest);
    assert t !in Elements(rest);
  }

  /** An order that ends with something other than t, when another record has the highest version. */
  lemma TieDefeats(d: set<DocumentRecord>, t: DocumentRecord, r: DocumentRecord) returns (rs: seq<DocumentRecord>)
    requires t in d && r in d && r != t && !IsDuplicateMutation(r, t)
    requires forall x :: x in d ==> x.version != 0 && x.version <= r.version
    ensures Elements(rs) == d && Deliver(None, rs) != Some(t)
  {
    var all := Enumerate(d);
    rs := all + [r];
    ElementsConcat(all, [r]);
    DeliverConcat(None, all, [r]);
    DeliverFromAmong(None, all);
    var slot := Deliver(None, all);
    assert slot.Some? ==> slot.value in Elements(all);
    assert [r][1..] == [];
    assert Deliver(slot, [r]) == After(slot, r);
  }

  /** A set of deliveries for one key ends with the same record in every order exactly when one of
      them is strictly the newest and shares its mutation id with no other. */
  lemma ConvergenceExactly(d: set<DocumentRecord>, t: DocumentRecord)
    requires forall r :: r in d ==> r.version != 0
    requires d != {}
    ensures ConvergesTo(d, t) <==> Dominates(d, t)
  {
    if Dominates(d, t) {
      forall rs | Elements(rs) == d ensures Deliver(None, rs) == Some(t) {
        assert t in Elements(rs);
        DominantSurvives(d, t, rs, None);
      }
    }
    if ConvergesTo(d, t) {
      var all := Enumerate(d);
      DeliverFromAmong(None, all);
      assert t in Elements(all);
      forall r | r in d && r != t ensures r.version < t.version && !IsDuplicateMutation(r, t) {
        if IsDuplicateMutation(r, t) {
          var rs := SharedIdDefeats(d, t, r);
          assert false;
        }
        if t.version <= r.version {
          forall x | x in d ensures x.version <= t.version {
            NewestIsKept(d, t, x);
          }
          var rs := TieDefeats(d, t, r);
          assert false;
        }
      }
    }
  }

  lemma NewestIsKept(d: set<DocumentRecord>, t: DocumentRecord, x: DocumentRecord)
    requires forall r :: r in d ==> r.version != 0
    requires ConvergesTo(d, t) && x in d
    ensures x.version <= t.version
  {
    var all := Enumerate(d);
    ElementsConcat([x], all);
    assert Elements([x] + all) == d;
    assert ([x] + all)[1..] == all;
    assert forall r :: r in all ==> r in Elements(all);
    VersionsNeverDecrease(Some(x), all);
  }

  /** The premise under which clients get convergence: equal versions, or equal non-empty
      mutation ids, mean equal records. */
  predicate Consistent(d: set<DocumentRecord>) {
    forall a, b :: a in d && b in d && (a.version == b.version || IsDuplicateMutation(a, b)) ==> a == b
  }

  lemma ConsistentConverges(d: set<DocumentRecord>)
    requires Consistent(d) && d != {}
    requires forall r :: r in d ==> r.version != 0
    ensures exists t :: Dominates(d, t) && ConvergesTo(d, t)
  {
    var t := Newest(d);
    ConvergenceExactly(d, t);
  }

  lemma {:induction false} Newest(d: set<DocumentRecord>) returns (t: DocumentRecord)
    requires d != {} && Consistent(d)
    ensures Dominates(d, t)
    decreases |d|
  {
    var first :| first in d;
    t := first;
    var rest := d - {first};
    if rest != {} {
      var u := Newest(rest);
      if first.version < u.version {
        t := u;
      }
      assert u in d && u != first;
      forall r | r in d && r != t ensures r.version < t.version && !IsDuplicateMutation(r, t) {
        assert r == first || r == u || r in rest;
      }
    } else {
      forall r | r in d ensures r == t {
        assert r !in rest;
      }
    }
  }

  // ---------------------------------------------------------------- PrepareMutation

  function MutationId(node: ByteString, updatedAt: int, counter: nat): ByteString {
    node + [COLON] + Decimals.Signed(updatedAt) + [COLON] + Decimals.Decimal(counter)
  }

  /** Fills in what the client left out; a negative time wraps when it becomes a version. */
  function PrepareMutation(r: DocumentRecord, node: ByteString, now: int, counter: nat): DocumentRecord {
    var updatedAt := if r.updatedAt == 0 then now else r.updatedAt;
    r.(updatedAt := updatedAt,
       version := if r.version == 0 then updatedAt % 0x1_0000_0000_0000_0000 else r.version,
       mutationId := if r.mutationId == [] then MutationId(node, updatedAt, counter) else r.mutationId)
  }

  /** What the client gave stays; a missing time becomes now, a missing version the time of the record as
      an unsigned number, and a missing id the one made of node, time and counter. */
  lemma PreparedKeepsGiven(r: DocumentRecord, node: ByteString, now: int, counter: nat)
    requires -0x8000_0000_0000_0000 <= now < 0x8000_0000_0000_0000
    requires -0x8000_0000_0000_0000 <= r.updatedAt < 0x8000_0000_0000_0000
    ensures var p := PrepareMutation(r, node, now, counter);
            && KeyPair(p) == KeyPair(r) && p.title == r.title && p.body == r.body && p.metadata == r.metadata
            && (r.updatedAt != 0 ==> p.updatedAt == r.updatedAt) && (r.updatedAt == 0 ==> p.updatedAt == now)
            && (r.version != 0 ==> p.version == r.version)
            && (r.version == 0 && p.updatedAt >= 0 ==> p.version == p.updatedAt)
            && (r.version == 0 && p.updatedAt < 0 ==> p.version - p.updatedAt == 0x1_0000_0000_0000_0000)
            && (r.mutationId != [] ==> p.mutationId == r.mutationId)
            && (r.mutationId == [] ==> p.mutationId == MutationId(node, p.updatedAt, counter))
  {
    var u := if r.updatedAt == 0 then now else r.updatedAt;
    var wrapped := if u < 0 then u + 0x1_0000_0000_0000_0000 else u;
    assert u % 0x1_0000_0000_0000_0000 == wrapped by {
      assert 0 <= wrapped < 0x1_0000_0000_0000_0000;
    }
    assert MutationId(node, u, counter)[|node|] == COLON;
  }

  /** After PrepareMutation a record always has a version and a mutation id, whatever the client
      sent, and a second pass changes nothing. */
  lemma PreparedIsVersioned(r: DocumentRecord, node: ByteString, now: int, counter: nat, now2: int, counter2: nat)
    requires now != 0
    requires -0x8000_0000_0000_0000 <= now < 0x8000_0000_0000_0000
    requires -0x8000_0000_0000_0000 <= r.updatedAt < 0x8000_0000_0000_0000
    ensures var p := PrepareMutation(r, node, now, counter);
            && p.version != 0 && p.mutationId != []
            && KeyOf(p) == KeyOf(r) && p.title == r.title && p.body == r.body && p.metadata == r.metadata
            && PrepareMutation(p, node, now2, counter2) == p
  {
    var u := if r.updatedAt == 0 then now else r.updatedAt;
    var wrapped := if u < 0 then u + 0x1_0000_0000_0000_0000 else u;
    assert u % 0x1_0000_0000_0000_0000 == wrapped by {
      assert 0 <= wrapped < 0x1_0000_0000_0000_0000;
    }
    var p := PrepareMutation(r, node, now, counter);
    assert p.version != 0;
    assert p.updatedAt != 0;
    assert p.mutationId != [];
    assert PrepareMutation(p, node, now2, counter2) == p;
    assert MutationId(node, u, counter)[|node|] == COLON;
  }

  /** Generated ids determine the node, the time and the counter they were made from. */
  lemma GeneratedIdsUnique(n1: ByteString, u1: int, c1: nat, n2: ByteString, u2: int, c2: nat)
    ensures MutationId(n1, u1, c1) == MutationId(n2, u2, c2) <==> n1 == n2 && u1 == u2 && c1 == c2
  {
    if MutationId(n1, u1, c1) == MutationId(n2, u2, c2) {
      var s1, s2 := Decimals.Signed(u1), Decimals.Signed(u2);
      var d1, d2 := Decimals.Decimal(c1), Decimals.Decimal(c2);
      assert COLON !in d1 && COLON !in d2 && COLON !in s1 && COLON !in s2;
      Decimals.SplitAtLast(COLON, n1 + [COLON] + s1, d1, n2 + [COLON] + s2, d2);
      Decimals.SplitAtLast(COLON, n1, s1, n2, s2);
      Decimals.DecimalInjective(c1, c2);
      Decimals.SignedInjective(u1, u2);
    }
  }
}
