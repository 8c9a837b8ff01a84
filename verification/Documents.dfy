/** Document records and the composite key that the store, the log replay and the outbox share. */
module Documents {
  import opened ByteStrings

  /** std::uint64_t */
  type U64 = n: int | 0 <= n < 0x1_0000_0000_0000_0000

  datatype DocumentRecord = DocumentRecord(
    collection: ByteString,
    key: ByteString,
    title: ByteString,
    body: ByteString,
    metadata: map<ByteString, ByteString>,
    version: U64,
    updatedAt: int,
    mutationId: ByteString)

  datatype Option<+T> = None | Some(value: T)

  function Lookup<K, V>(m: map<K, V>, k: K): Option<V> {
    if k in m then Some(m[k]) else None
  }

  /** A default-constructed record. */
  const EMPTY_RECORD: DocumentRecord := DocumentRecord([], [], [], [], map[], 0, 0, [])

  /** The unit separator byte. */
  const SEPARATOR: Byte := 0x1f

  /** A collection and a key joined by one byte. */
  function Join(separator: Byte, collection: ByteString, key: ByteString): ByteString {
    collection + [separator] + key
  }

  function CompositeKey(collection: ByteString, key: ByteString): ByteString {
    Join(SEPARATOR, collection, key)
  }

  type RecordKey = (ByteString, ByteString)

  function KeyPair(r: DocumentRecord): RecordKey {
    (r.collection, r.key)
  }

  function KeyOf(r: DocumentRecord): ByteString {
    CompositeKey(r.collection, r.key)
  }

  /** Two joins collide exactly when the shorter collection, the separator and some middle part
      make up the longer collection. */
  lemma JoinCollision(separator: Byte, c1: ByteString, k1: ByteString, c2: ByteString, k2: ByteString)
    requires |c1| <= |c2|
    ensures Join(separator, c1, k1) == Join(separator, c2, k2) <==>
            (c1 == c2 && k1 == k2) ||
            (|c1| < |c2| && c2 == Join(separator, c1, c2[|c1| + 1..]) && k1 == Join(separator, c2[|c1| + 1..], k2))
  {
    var x1, x2 := Join(separator, c1, k1), Join(separator, c2, k2);
    assert x1[..|c1|] == c1 && x1[|c1| + 1..] == k1 && x2[..|c2|] == c2 && x2[|c2| + 1..] == k2;
    if |c1| < |c2| {
      var m := c2[|c1| + 1..];
      if x1 == x2 {
        assert c2[..|c1|] == c1 && c2[|c1|] == separator;
        assert c2 == c2[..|c1|] + [c2[|c1|]] + m;
        assert k1 == x2[|c1| + 1..] == m + [separator] + k2;
      }
      assert Join(separator, c1, Join(separator, m, k2)) == Join(separator, Join(separator, c1, m), k2);
    }
  }

  /** With collections free of the separator a join determines its parts. */
  lemma JoinInjective(separator: Byte, c1: ByteString, k1: ByteString, c2: ByteString, k2: ByteString)
    requires separator !in c1 && separator !in c2
    ensures Join(separator, c1, k1) == Join(separator, c2, k2) <==> c1 == c2 && k1 == k2
  {
    if |c1| <= |c2| {
      JoinCollision(separator, c1, k1, c2, k2);
      assert |c1| < |c2| ==> Join(separator, c1, c2[|c1| + 1..])[|c1|] == separator;
    } else {
      JoinCollision(separator, c2, k2, c1, k1);
      assert Join(separator, c2, c1[|c2| + 1..])[|c2|] == separator;
    }
  }

  /** Keys of separator-free collections never collide. */
  lemma CompositeInjective(c1: ByteString, k1: ByteString, c2: ByteString, k2: ByteString)
    requires SEPARATOR !in c1 && SEPARATOR !in c2
    ensures CompositeKey(c1, k1) == CompositeKey(c2, k2) <==> c1 == c2 && k1 == k2
  {
    JoinInjective(SEPARATOR, c1, k1, c2, k2);
  }

  /** Within one collection, composite keys are ordered like the keys. */
  lemma CompositeOrder(c: ByteString, a: ByteString, b: ByteString)
    ensures Less(CompositeKey(c, a), CompositeKey(c, b)) <==> Less(a, b)
    ensures AtMost(CompositeKey(c, a), CompositeKey(c, b)) <==> AtMost(a, b)
    ensures CompositeKey(c, a) == CompositeKey(c, b) <==> a == b
  {
    LessSamePrefix(c + [SEPARATOR], a, b);
  }
}
