/** The end key of an etcd range request that is to cover all keys with a prefix. */
module EtcdPrefix {
  import opened ByteStrings

  const TOP: Byte := 0xff

  /** "\0", which etcd reads as no upper bound. */
  const UNBOUNDED: ByteString := [0]

  predicate AllTop(p: ByteString) {
    forall i :: 0 <= i < |p| ==> p[i] == TOP
  }

  /** The number of bytes in front of the trailing 0xff bytes. */
  function Stem(p: ByteString): (n: nat)
    ensures n <= |p|
    ensures n > 0 ==> p[n - 1] != TOP
  {
    if p == [] then 0
    else
      var rest := Stem(p[1..]);
      if rest > 0 then rest + 1 else if p[0] != TOP then 1 else 0
  }

  lemma {:induction false} StemIsZero(p: ByteString)
    ensures Stem(p) == 0 <==> AllTop(p)
  {
    if p != [] {
      StemIsZero(p[1..]);
      assert p == [p[0]] + p[1..];
    }
  }

  /** Seen from the end: a last byte below 0xff ends the stem, another one does not count. */
  lemma {:induction false} StemSnoc(p: ByteString, last: Byte)
    ensures Stem(p + [last]) == if last != TOP then |p| + 1 else Stem(p)
    decreases p
  {
    if p != [] {
      assert (p + [last])[1..] == p[1..] + [last];
      StemSnoc(p[1..], last);
    } else {
      assert (p + [last])[1..] == [];
    }
  }

  method PrefixRangeEnd(prefix: ByteString) returns (end: ByteString)
    ensures end == EndOf(prefix)
  {
    hide Stem;
    StemIsZero([]);
    if prefix == [] {
      return UNBOUNDED;
    }
    end := prefix;
    var i := |end|;
    assert prefix[..i] == prefix;
    while i > 0
      invariant 0 <= i <= |prefix| && end == prefix
      invariant Stem(prefix[..i]) == Stem(prefix)
    {
      i := i - 1;
      assert prefix[..i + 1] == prefix[..i] + [prefix[i]];
      StemSnoc(prefix[..i], prefix[i]);
      if end[i] != TOP {
        end := end[i := end[i] + 1];
        return end[..i + 1];
      }
    }
    assert prefix[..0] == [];
    end := UNBOUNDED;
  }

  /** The prefix without its trailing 0xff bytes and with its last byte raised by one. */
  function EndOf(p: ByteString): ByteString {
    var n := Stem(p);
    if n == 0 then UNBOUNDED else p[..n - 1] + [p[n - 1] + 1]
  }

  /** A key that begins with a smaller byte is in front of the prefix, one that begins with a greater
      byte is not in front of the end. */
  lemma OtherHead(p: ByteString, k: ByteString)
    requires p != [] && k != [] && p[0] != k[0] && Stem(p) > 0 && AtMost(p, k)
    ensures !Less(k, EndOf(p))
  {
    hide Stem;
    assert EndOf(p)[0] == if Stem(p) == 1 then p[0] + 1 else p[0];
    assert Stem(p) == 1 ==> EndOf(p)[1..] == [];
  }

  /** Same first byte, and a stem behind it: both strings go on alike. */
  lemma LongStem(p: ByteString, k: ByteString)
    requires p != [] && k != [] && p[0] == k[0] && Stem(p) > 1
    ensures Stem(p[1..]) > 0
    ensures Less(k, EndOf(p)) <==> Less(k[1..], EndOf(p[1..]))
  {
    assert Stem(p[1..]) == Stem(p) - 1;
    EndTail(p);
    hide Stem, EndOf;
    LessCons(k, p[0], EndOf(p[1..]));
  }

  lemma EndTail(p: ByteString)
    requires p != [] && Stem(p) > 1 && Stem(p[1..]) == Stem(p) - 1
    ensures EndOf(p) == [p[0]] + EndOf(p[1..])
  {
    hide Stem;
    var n := Stem(p);
    assert p[..n - 1] == [p[0]] + p[1..][..n - 2];
  }

  lemma LessCons(k: ByteString, head: Byte, tail: ByteString)
    requires k != [] && k[0] == head
    ensures Less(k, [head] + tail) <==> Less(k[1..], tail)
  {
    assert ([head] + tail)[1..] == tail;
  }

  /** Same first byte, and no stem behind it: the end is that byte raised. */
  lemma ShortStem(p: ByteString, k: ByteString)
    requires p != [] && k != [] && p[0] == k[0] && Stem(p) == 1
    ensures Stem(p[1..]) == 0
    ensures Less(k, EndOf(p))
  {
    hide Less;
    assert EndOf(p) == [p[0] + 1];
    RaisedIsGreater(k, p[0] + 1);
  }

  lemma RaisedIsGreater(k: ByteString, b: Byte)
    requires k != [] && k[0] < b
    ensures Less(k, [b])
  {
  }

  lemma SameHead(p: ByteString, k: ByteString)
    requires p != [] && k != [] && p[0] == k[0]
    ensures p <= k <==> p[1..] <= k[1..]
    ensures AtMost(p, k) <==> AtMost(p[1..], k[1..])
  {
    assert p == [p[0]] + p[1..] && k == [k[0]] + k[1..];
  }

  /** A key starts with a prefix exactly when it lies at or behind the prefix and, unless the prefix
      is all 0xff, in front of the end key. */
  lemma {:induction false} RangeCoversPrefix(p: ByteString, k: ByteString)
    ensures p <= k <==> AtMost(p, k) && (AllTop(p) || Less(k, EndOf(p)))
    decreases p
  {
    StemIsZero(p);
    if p != [] && k != [] {
      if p[0] == k[0] {
        StemIsZero(p[1..]);
        SameHead(p, k);
        RangeCoversPrefix(p[1..], k[1..]);
        if Stem(p) == 1 {
          ShortStem(p, k);
        } else if Stem(p) > 1 {
          LongStem(p, k);
        }
        hide EndOf, AllTop, Less;
      } else if Stem(p) > 0 {
        if AtMost(p, k) {
          OtherHead(p, k);
        }
      } else {
        assert p[0] == TOP;
      }
    }
  }
}
