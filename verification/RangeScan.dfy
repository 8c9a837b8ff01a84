/** Range over the ordered record map, and the paging loops built on it. */
module RangeScan {
  import opened ByteStrings
  import opened Documents

  type Records = map<ByteString, DocumentRecord>

  /** Every record is stored under its own composite key. */
  predicate Keyed(m: Records) {
    forall k :: k in m ==> KeyOf(m[k]) == k
  }

  /** "\x7f", the end of a scan without an end key. */
  const DEFAULT_END: ByteString := [0x7f]

  function EndOf(endKey: ByteString): ByteString {
    if endKey == [] then DEFAULT_END else endKey
  }

  ghost predicate InOrder(m: Records, keys: seq<ByteString>) {
    Ascending(keys) && forall k :: k in keys <==> k in m
  }

  /** What the iteration yields from position i of the key order on: it stops behind the end key,
      at the first record of another collection, or when the limit is reached after a push. */
  function Scan(m: Records, keys: seq<ByteString>, i: nat, finish: ByteString, c: ByteString,
                limit: nat): seq<DocumentRecord>
    requires i <= |keys|
    requires forall j :: 0 <= j < |keys| ==> keys[j] in m
    decreases |keys| - i
  {
    if i == |keys| || Less(finish, keys[i]) || m[keys[i]].collection != c then []
    else if limit <= 1 then [m[keys[i]]]
    else [m[keys[i]]] + Scan(m, keys, i + 1, finish, c, limit - 1)
  }

  /** What Range returns for a store. */
  function Range(m: Records, c: ByteString, beginKey: ByteString, endKey: ByteString, limit: nat): seq<DocumentRecord> {
    var keys := SortedKeys(m.Keys);
    assert forall j :: 0 <= j < |keys| ==> keys[j] in keys;
    Scan(m, keys, LowerBound(keys, CompositeKey(c, beginKey)), CompositeKey(c, EndOf(endKey)), c, limit)
  }

  /** One turn of the iteration behind what was found so far. */
  lemma OneMoreScanned(m: Records, keys: seq<ByteString>, found: seq<DocumentRecord>, i: nat, finish: ByteString,
                       c: ByteString, limit: nat)
    requires i <= |keys|
    requires forall j :: 0 <= j < |keys| ==> keys[j] in m
    ensures found + Scan(m, keys, i, finish, c, limit) ==
            if i == |keys| || Less(finish, keys[i]) || m[keys[i]].collection != c then found
            else if limit <= 1 then found + [m[keys[i]]]
            else (found + [m[keys[i]]]) + Scan(m, keys, i + 1, finish, c, limit - 1)
  {
    hide Less;
  }

  /** The loop of Range: an iterator that starts at the lower bound. */
  method Walk(m: Records, keys: seq<ByteString>, lower: nat, finish: ByteString, c: ByteString, limit: nat)
    returns (results: seq<DocumentRecord>)
    requires lower <= |keys|
    requires forall j :: 0 <= j < |keys| ==> keys[j] in m
    ensures results == Scan(m, keys, lower, finish, c, limit)
  {
    hide Less, Scan;
    results := [];
    var i := lower;
    assert [] + Scan(m, keys, lower, finish, c, limit) == Scan(m, keys, lower, finish, c, limit);
    while i < |keys|
      invariant lower <= i <= |keys|
      invariant i > lower ==> |results| < limit
      invariant i == lower ==> results == []
      invariant Scan(m, keys, lower, finish, c, limit) ==
                results + Scan(m, keys, i, finish, c, if i == lower then limit else limit - |results|)
    {
      OneMoreScanned(m, keys, results, i, finish, c, if i == lower then limit else limit - |results|);
      if Less(finish, keys[i]) || m[keys[i]].collection != c {
        break;
      }
      results := results + [m[keys[i]]];
      if |results| >= limit {
        break;
      }
      i := i + 1;
    }
    if i == |keys| {
      OneMoreScanned(m, keys, results, i, finish, c, if i == lower then limit else limit - |results|);
    }
  }

  // ------------------------------------------------------------------ what a caller expects

  predicate Hit(m: Records, c: ByteString, beginKey: ByteString, endKey: ByteString, k: ByteString) {
    k in m && m[k].collection == c && AtMost(beginKey, m[k].key) && AtMost(m[k].key, EndOf(endKey))
  }

  function Hits(m: Records, c: ByteString, beginKey: ByteString, endKey: ByteString): set<ByteString> {
    set k | k in m && Hit(m, c, beginKey, endKey, k)
  }

  /** The span runs from the first key to the last one, both included; without a last key it ends at the
      one-byte key 0x7f. */
  lemma HitExactly(m: Records, c: ByteString, beginKey: ByteString, endKey: ByteString, k: ByteString)
    ensures k in Hits(m, c, beginKey, endKey) <==>
            && k in m && m[k].collection == c
            && (m[k].key == beginKey || Less(beginKey, m[k].key))
            && (if endKey != [] then m[k].key == endKey || Less(m[k].key, endKey)
                else m[k].key == [0x7f] || Less(m[k].key, [0x7f]))
  {
  }

  function Wanted(limit: nat): nat {
    if limit == 0 then 1 else limit
  }

  function Take(s: seq<ByteString>, n: nat): seq<ByteString> {
    if |s| <= n then s else s[..n]
  }

  function RecordsOf(m: Records, keys: seq<ByteString>): (r: seq<DocumentRecord>)
    requires forall j :: 0 <= j < |keys| ==> keys[j] in m
    ensures |r| == |keys|
    ensures forall i :: 0 <= i < |r| ==> r[i] == m[keys[i]]
  {
    seq(|keys|, i requires 0 <= i < |keys| => m[keys[i]])
  }

  /** The first records of exactly this collection between the two keys, in key order; a limit of
      zero still yields one record, because the loop pushes before it compares. */
  function Expected(m: Records, c: ByteString, beginKey: ByteString, endKey: ByteString,
                    limit: nat): seq<DocumentRecord> {
    var keys := SortedKeys(Hits(m, c, beginKey, endKey));
    assert forall j :: 0 <= j < |keys| ==> keys[j] in keys;
    RecordsOf(m, Take(keys, Wanted(limit)))
  }

  /** A record of another collection sits inside c's key block, in front of a record of c. */
  ghost predicate Intruded(m: Records, c: ByteString) {
    exists x, y :: x in m && y in m && m[x].collection != c && m[y].collection == c
                   && AtMost(CompositeKey(c, []), x) && Less(x, y)
  }

  // ------------------------------------------------------------------ proofs

  /** The hits from position i of the key order on. */
  function HitsFrom(m: Records, keys: seq<ByteString>, i: nat, c: ByteString, b: ByteString,
                    e: ByteString): (h: seq<ByteString>)
    requires i <= |keys| && Ascending(keys)
    ensures forall k :: k in h ==> Hit(m, c, b, e, k) && i < |keys| && AtMost(keys[i], k)
    ensures forall j :: 0 <= j < |h| ==> h[j] in m
    ensures forall j :: i <= j < |keys| && Hit(m, c, b, e, keys[j]) ==> keys[j] in h
    ensures Ascending(h)
    decreases |keys| - i
  {
    if i == |keys| then []
    else
      var rest := HitsFrom(m, keys, i + 1, c, b, e);
      assert forall k :: k in rest ==> Less(keys[i], k) by {
        forall k | k in rest ensures Less(keys[i], k) {
          AtMostTransitive(keys[i], keys[i + 1], k);
        }
      }
      if Hit(m, c, b, e, keys[i]) then [keys[i]] + rest else rest
  }

  /** Once the walk meets the end or a foreign record, no hit can follow. */
  lemma NoneBehind(m: Records, c: ByteString, b: ByteString, e: ByteString, x: ByteString, y: ByteString)
    requires Keyed(m) && !Intruded(m, c) && x in m
    requires AtMost(CompositeKey(c, b), x) && AtMost(x, y)
    requires Less(CompositeKey(c, EndOf(e)), x) || m[x].collection != c
    ensures !Hit(m, c, b, e, y)
  {
    if Hit(m, c, b, e, y) {
      CompositeOrder(c, m[y].key, EndOf(e));
      if m[x].collection != c {
        PrefixAtMost(CompositeKey(c, []), CompositeKey(c, b));
        AtMostTransitive(CompositeKey(c, []), CompositeKey(c, b), x);
        assert false;
      }
      var finish := CompositeKey(c, EndOf(e));
      AtMostTransitive(finish, x, y);
      LessTrichotomy(finish, y);
    }
  }

  /** Between the bounds, a record of the collection is a hit. */
  lemma InsideIsHit(m: Records, c: ByteString, b: ByteString, e: ByteString, x: ByteString)
    requires Keyed(m) && x in m && m[x].collection == c
    requires AtMost(CompositeKey(c, b), x) && !Less(CompositeKey(c, EndOf(e)), x)
    ensures Hit(m, c, b, e, x)
  {
    CompositeOrder(c, b, m[x].key);
    CompositeOrder(c, m[x].key, EndOf(e));
    LessTrichotomy(CompositeKey(c, EndOf(e)), x);
  }

  lemma {:induction false} ScanIsTake(m: Records, keys: seq<ByteString>, i: nat, c: ByteString, b: ByteString,
                                      e: ByteString, limit: nat)
    requires Keyed(m) && !Intruded(m, c)
    requires Ascending(keys) && (forall j :: 0 <= j < |keys| ==> keys[j] in m)
    requires i <= |keys| && (forall j :: i <= j < |keys| ==> AtMost(CompositeKey(c, b), keys[j]))
    ensures Scan(m, keys, i, CompositeKey(c, EndOf(e)), c, limit) ==
            RecordsOf(m, Take(HitsFrom(m, keys, i, c, b, e), Wanted(limit)))
    decreases |keys| - i
  {
    hide Less, CompositeKey, EndOf, Hit, Intruded, Keyed;
    var finish := CompositeKey(c, EndOf(e));
    var hits := HitsFrom(m, keys, i, c, b, e);
    if i < |keys| {
      if Less(finish, keys[i]) || m[keys[i]].collection != c {
        if |hits| > 0 {
          NoneBehind(m, c, b, e, keys[i], hits[0]);
          assert false;
        }
      } else {
        InsideIsHit(m, c, b, e, keys[i]);
        var rest := HitsFrom(m, keys, i + 1, c, b, e);
        if limit > 1 {
          ScanIsTake(m, keys, i + 1, c, b, e, limit - 1);
          assert Take(hits, limit) == [keys[i]] + Take(rest, limit - 1);
        } else {
          assert Take(hits, 1) == [keys[i]];
        }
      }
    }
  }

  lemma HitsFromStart(m: Records, keys: seq<ByteString>, i: nat, c: ByteString, b: ByteString, e: ByteString)
    requires Keyed(m) && InOrder(m, keys) && i <= |keys|
    requires forall j :: 0 <= j < i ==> Less(keys[j], CompositeKey(c, b))
    ensures HitsFrom(m, keys, i, c, b, e) == SortedKeys(Hits(m, c, b, e))
  {
    hide Less;
    var hits := HitsFrom(m, keys, i, c, b, e);
    forall k | k in Hits(m, c, b, e) ensures k in hits {
      CompositeOrder(c, b, m[k].key);
      assert k in keys;
      var j :| 0 <= j < |keys| && keys[j] == k;
      LessTrichotomy(CompositeKey(c, b), k);
    }
    AscendingUnique(hits, SortedKeys(Hits(m, c, b, e)));
  }

  lemma RangeMeetsExpectation(m: Records, c: ByteString, b: ByteString, e: ByteString, limit: nat)
    requires Keyed(m) && !Intruded(m, c)
    ensures Range(m, c, b, e, limit) == Expected(m, c, b, e, limit)
  {
    var keys := SortedKeys(m.Keys);
    var i := LowerBound(keys, CompositeKey(c, b));
    assert forall j :: 0 <= j < |keys| ==> keys[j] in keys;
    ScanIsTake(m, keys, i, c, b, e, limit);
    HitsFromStart(m, keys, i, c, b, e);
  }

  /** The walk yields nothing at or behind a foreign record. */
  lemma {:induction false} ScanStopsBefore(m: Records, keys: seq<ByteString>, i: nat, finish: ByteString,
                                           c: ByteString, limit: nat, x: nat)
    requires Keyed(m) && Ascending(keys)
    requires forall j :: 0 <= j < |keys| ==> keys[j] in m
    requires i <= x < |keys| && m[keys[x]].collection != c
    ensures forall r :: r in Scan(m, keys, i, finish, c, limit) ==> Less(KeyOf(r), keys[x])
    decreases x - i
  {
    if !(Less(finish, keys[i]) || m[keys[i]].collection != c) && limit > 1 {
      ScanStopsBefore(m, keys, i + 1, finish, c, limit - 1, x);
    }
  }

  /** A collection's ranges are all answered correctly exactly when no foreign record sits inside
      its block in front of one of its own. */
  lemma RangeExactly(m: Records, c: ByteString)
    requires Keyed(m)
    ensures (forall b, e, n :: Range(m, c, b, e, n) == Expected(m, c, b, e, n)) <==> !Intruded(m, c)
  {
    if !Intruded(m, c) {
      forall b, e, n ensures Range(m, c, b, e, n) == Expected(m, c, b, e, n) {
        RangeMeetsExpectation(m, c, b, e, n);
      }
    } else {
      var x, y :| x in m && y in m && m[x].collection != c && m[y].collection == c
                  && AtMost(CompositeKey(c, []), x) && Less(x, y);
      StillExpected(m, c, x, y);
      IntruderCutsOff(m, c, x, y, m[y].key, |m|);
      assert Range(m, c, [], m[y].key, |m|) != Expected(m, c, [], m[y].key, |m|);
    }
  }

  lemma StillExpected(m: Records, c: ByteString, x: ByteString, y: ByteString)
    requires Keyed(m) && y in m && m[y].collection == c
    requires AtMost(CompositeKey(c, []), x) && Less(x, y)
    ensures m[y] in Expected(m, c, [], m[y].key, |m|)
  {
    hide Less;
    var e := m[y].key;
    if e == [] {
      LessTrichotomy(x, y);
      assert false;
    }
    PrefixAtMost([], e);
    var hits := SortedKeys(Hits(m, c, [], e));
    assert y in hits;
    SubsetSize(Hits(m, c, [], e), m.Keys);
    var i :| 0 <= i < |hits| && hits[i] == y;
    assert Take(hits, Wanted(|m|)) == hits;
    assert forall j :: 0 <= j < |hits| ==> hits[j] in hits;
    assert RecordsOf(m, hits)[i] == m[y];
  }

  lemma IntruderCutsOff(m: Records, c: ByteString, x: ByteString, y: ByteString, e: ByteString, limit: nat)
    requires Keyed(m) && x in m && y in m && m[x].collection != c
    requires AtMost(CompositeKey(c, []), x) && Less(x, y)
    ensures m[y] !in Range(m, c, [], e, limit)
  {
    hide Less, SortedKeys, LowerBound, Scan, KeyOf;
    var keys := SortedKeys(m.Keys);
    var start := CompositeKey(c, []);
    var from := LowerBound(keys, start);
    assert x in keys;
    var j :| 0 <= j < |keys| && keys[j] == x;
    LessTrichotomy(start, x);
    assert forall j :: 0 <= j < |keys| ==> keys[j] in keys;
    ScanStopsBefore(m, keys, from, CompositeKey(c, EndOf(e)), c, limit, j);
    LessTrichotomy(x, y);
  }

  lemma {:induction false} SubsetSize(a: set<ByteString>, b: set<ByteString>)
    requires a <= b
    ensures |a| <= |b|
    decreases |a|
  {
    if a != {} {
      var k :| k in a;
      SubsetSize(a - {k}, b - {k});
    }
  }

  /** No collection name contains the separator. */
  predicate PlainCollections(m: Records) {
    forall k :: k in m ==> SEPARATOR !in m[k].collection
  }

  /** In a store whose collection names avoid the separator nothing intrudes, so the
      collection-mismatch break never cuts off a match. */
  lemma PlainNeverIntruded(m: Records, c: ByteString)
    requires Keyed(m) && PlainCollections(m)
    ensures !Intruded(m, c)
  {
    hide Less;
    if Intruded(m, c) {
      var x, y :| x in m && y in m && m[x].collection != c && m[y].collection == c
                  && AtMost(CompositeKey(c, []), x) && Less(x, y);
      var p := CompositeKey(c, []);
      assert y == p + m[y].key;
      BetweenExtends(p, x, m[y].key);
      assert x == p + x[|p|..] == CompositeKey(c, x[|p|..]);
      CompositeInjective(c, x[|p|..], m[x].collection, m[x].key);
      assert false;
    }
  }

  lemma PlainRange(m: Records, c: ByteString, beginKey: ByteString, endKey: ByteString, limit: nat)
    requires Keyed(m) && PlainCollections(m)
    ensures Range(m, c, beginKey, endKey, limit) == Expected(m, c, beginKey, endKey, limit)
  {
    PlainNeverIntruded(m, c);
    RangeMeetsExpectation(m, c, beginKey, endKey, limit);
  }

  /** With a separator in a collection name a scan of "a" loses the record "z": the record "k" of
      the collection "a\x1fb" stops it. */
  lemma SeparatorCutsOff() returns (m: Records, z: DocumentRecord)
    ensures Keyed(m) && z in Expected(m, [97], [], z.key, |m|) && z !in Range(m, [97], [], z.key, |m|)
  {
    z := EMPTY_RECORD.(collection := [97], key := [122]);
    var other := EMPTY_RECORD.(collection := [97, SEPARATOR, 98], key := [107]);
    var p := CompositeKey([97], []);
    var x, y := KeyOf(other), KeyOf(z);
    assert x == p + [98, SEPARATOR, 107] && y == p + [122];
    PrefixAtMost(p, x);
    assert Less([98, SEPARATOR, 107], [122]);
    LessSamePrefix(p, [98, SEPARATOR, 107], [122]);
    hide Less;
    m := map[x := other, y := z];
    StillExpected(m, [97], x, y);
    IntruderCutsOff(m, [97], x, y, z.key, |m|);
  }

  // ------------------------------------------------------------------ paging

  /** The collection's keys visited by the loop that continues after last key + "\0", where page i
      reads the i-th store, and whether the loop has left. */
  datatype Visit = Visit(keys: seq<ByteString>, finished: bool)

  function Keys(rs: seq<DocumentRecord>): (ks: seq<ByteString>)
    ensures |ks| == |rs|
    ensures forall i :: 0 <= i < |ks| ==> ks[i] == rs[i].key
  {
    seq(|rs|, i requires 0 <= i < |rs| => rs[i].key)
  }

  function Pages(stores: seq<Records>, c: ByteString, begin: ByteString, size: nat): Visit {
    if stores == [] then Visit([], false)
    else
      var page := Range(stores[0], c, begin, [], size);
      if page == [] then Visit([], true)
      else if |page| < size then Visit(Keys(page), true)
      else
        var rest := Pages(stores[1..], c, page[|page| - 1].key + [0], size);
        Visit(Keys(page) + rest.keys, rest.finished)
  }

  /** The records of those pages, in the order they are met. */
  function Scanned(stores: seq<Records>, c: ByteString, begin: ByteString, size: nat): seq<DocumentRecord> {
    if stores == [] then []
    else
      var page := Range(stores[0], c, begin, [], size);
      if page == [] || |page| < size then page
      else page + Scanned(stores[1..], c, page[|page| - 1].key + [0], size)
  }

  /** One turn of the paging loop. */
  lemma ScanTurn(stores: seq<Records>, i: nat, c: ByteString, begin: ByteString, size: nat)
    requires i < |stores|
    ensures var page := Range(stores[i], c, begin, [], size);
            var over := page == [] || |page| < size;
            && Scanned(stores[i..], c, begin, size) ==
               (if over then page else page + Scanned(stores[i + 1..], c, page[|page| - 1].key + [0], size))
            && Pages(stores[i..], c, begin, size).finished ==
               (over || Pages(stores[i + 1..], c, page[|page| - 1].key + [0], size).finished)
  {
    hide Range;
    assert stores[i..][0] == stores[i] && stores[i..][1..] == stores[i + 1..];
  }

  lemma NoPages(stores: seq<Records>, c: ByteString, begin: ByteString, size: nat)
    ensures Scanned(stores[|stores|..], c, begin, size) == [] && !Pages(stores[|stores|..], c, begin, size).finished
    ensures stores[0..] == stores
  {
  }

  /** A scan meets one record for each visited key. */
  lemma {:induction false} ScannedAreVisited(stores: seq<Records>, c: ByteString, begin: ByteString, size: nat)
    ensures Keys(Scanned(stores, c, begin, size)) == Pages(stores, c, begin, size).keys
    decreases |stores|
  {
    hide Range;
    if stores != [] {
      var page := Range(stores[0], c, begin, [], size);
      if page != [] && |page| >= size {
        ScannedAreVisited(stores[1..], c, page[|page| - 1].key + [0], size);
        var rest := Scanned(stores[1..], c, page[|page| - 1].key + [0], size);
        assert Keys(page + rest) == Keys(page) + Keys(rest);
      }
    }
  }

  predicate Present(m: Records, c: ByteString, k: ByteString) {
    CompositeKey(c, k) in m && m[CompositeKey(c, k)].collection == c && m[CompositeKey(c, k)].key == k
  }

  /** The composite keys of a page. */
  function Taken(m: Records, c: ByteString, begin: ByteString, size: nat): seq<ByteString> {
    Take(SortedKeys(Hits(m, c, begin, [])), Wanted(size))
  }

  lemma PageIs(m: Records, c: ByteString, begin: ByteString, size: nat)
    requires Keyed(m) && !Intruded(m, c)
    ensures var taken := Taken(m, c, begin, size);
            && Ascending(taken)
            && (forall j :: 0 <= j < |taken| ==> Hit(m, c, begin, [], taken[j]))
            && Range(m, c, begin, [], size) == RecordsOf(m, taken)
  {
    hide Less, CompositeKey, Range;
    RangeMeetsExpectation(m, c, begin, [], size);
  }

  /** What the walk yields is a stretch of the key order from i on, inside the collection and the end key. */
  lemma {:induction false} ScanAt(m: Records, keys: seq<ByteString>, i: nat, finish: ByteString, c: ByteString,
                                  limit: nat, j: nat)
    requires i <= |keys| && forall x :: 0 <= x < |keys| ==> keys[x] in m
    requires j < |Scan(m, keys, i, finish, c, limit)|
    ensures i + j < |keys| && Scan(m, keys, i, finish, c, limit)[j] == m[keys[i + j]]
    ensures m[keys[i + j]].collection == c && !Less(finish, keys[i + j])
    decreases j
  {
    hide Less;
    if j > 0 {
      ScanAt(m, keys, i + 1, finish, c, limit - 1, j - 1);
    }
  }

  /** A page holds hits, each under its own key, in ascending order; this much holds for every store. */
  lemma PageHits(m: Records, c: ByteString, begin: ByteString, size: nat)
    requires Keyed(m)
    ensures var page := Range(m, c, begin, [], size);
            && (forall i :: 0 <= i < |page| ==> KeyOf(page[i]) in Hits(m, c, begin, []) && m[KeyOf(page[i])] == page[i])
            && (forall i, j :: 0 <= i < j < |page| ==> Less(KeyOf(page[i]), KeyOf(page[j])))
  {
    hide Less, CompositeKey, Scan;
    var keys := SortedKeys(m.Keys);
    var start := LowerBound(keys, CompositeKey(c, begin));
    var page := Range(m, c, begin, [], size);
    forall i | 0 <= i < |page|
      ensures start + i < |keys| && KeyOf(page[i]) == keys[start + i] && page[i] == m[keys[start + i]]
      ensures Hit(m, c, begin, [], keys[start + i])
    {
      ScanAt(m, keys, start, CompositeKey(c, DEFAULT_END), c, size, i);
      LessTrichotomy(CompositeKey(c, DEFAULT_END), keys[start + i]);
      CompositeOrder(c, begin, page[i].key);
      CompositeOrder(c, page[i].key, DEFAULT_END);
    }
  }

  lemma PageAscends(m: Records, c: ByteString, begin: ByteString, size: nat)
    requires Keyed(m)
    ensures var keys := Keys(Range(m, c, begin, [], size));
            && Ascending(keys)
            && (forall k :: k in keys ==> AtMost(begin, k) && AtMost(k, DEFAULT_END) && Present(m, c, k))
  {
    hide Less, Range;
    PageHits(m, c, begin, size);
    var page := Range(m, c, begin, [], size);
    var keys := Keys(page);
    forall i, j | 0 <= i < j < |keys| ensures Less(keys[i], keys[j]) {
      CompositeOrder(c, page[i].key, page[j].key);
    }
    forall k | k in keys ensures AtMost(begin, k) && AtMost(k, DEFAULT_END) && Present(m, c, k) {
      var i :| 0 <= i < |keys| && keys[i] == k;
      assert Hit(m, c, begin, [], KeyOf(page[i]));
    }
  }

  /** What a page leaves out lies behind its last key, and a page that is not full leaves out nothing. */
  lemma PageCompletes(m: Records, c: ByteString, begin: ByteString, size: nat, k: ByteString)
    requires Keyed(m) && !Intruded(m, c)
    requires Present(m, c, k) && AtMost(begin, k) && AtMost(k, DEFAULT_END)
    ensures var page := Range(m, c, begin, [], size);
            k in Keys(page) || (|page| >= Wanted(size) && Less(page[|page| - 1].key, k))
  {
    hide Less, Range;
    PageIs(m, c, begin, size);
    var hits := SortedKeys(Hits(m, c, begin, []));
    var taken := Taken(m, c, begin, size);
    var page := Range(m, c, begin, [], size);
    assert Hit(m, c, begin, [], CompositeKey(c, k));
    assert CompositeKey(c, k) in hits;
    var i :| 0 <= i < |hits| && hits[i] == CompositeKey(c, k);
    if i < |taken| {
      assert Keys(page)[i] == k;
    } else {
      var last := taken[|taken| - 1];
      assert Hit(m, c, begin, [], last);
      assert CompositeKey(c, m[last].key) == KeyOf(m[last]) == last;
      assert Less(last, hits[i]);
      CompositeOrder(c, m[last].key, k);
    }
  }

  /** Whatever happens to the store between pages, the visited keys ascend strictly, so none is
      visited twice; and a scan that has finished visited every in-span key that was there
      throughout, if no foreign record ever intruded. */
  lemma {:induction false} PagingExactlyOnce(stores: seq<Records>, c: ByteString, begin: ByteString, size: nat)
    requires forall i :: 0 <= i < |stores| ==> Keyed(stores[i])
    ensures var v := Pages(stores, c, begin, size);
            && Ascending(v.keys)
            && (forall k :: k in v.keys ==> AtMost(begin, k) && AtMost(k, DEFAULT_END))
            && (v.finished && (forall i :: 0 <= i < |stores| ==> !Intruded(stores[i], c)) ==>
                  forall k :: (AtMost(begin, k) && AtMost(k, DEFAULT_END)
                               && forall i :: 0 <= i < |stores| ==> Present(stores[i], c, k)) ==> k in v.keys)
  {
    hide Range, Less, Present, Remaining;
    if stores != [] {
      var page := Range(stores[0], c, begin, [], size);
      PageAscends(stores[0], c, begin, size);
      forall k | !Intruded(stores[0], c) && Present(stores[0], c, k) && AtMost(begin, k) && AtMost(k, DEFAULT_END)
        ensures k in Keys(page) || (|page| >= Wanted(size) && Less(page[|page| - 1].key, k))
      {
        PageCompletes(stores[0], c, begin, size, k);
      }
      if page != [] && |page| >= size {
        var last := page[|page| - 1].key;
        var next := last + [0];
        PagingExactlyOnce(stores[1..], c, next, size);
        var rest := Pages(stores[1..], c, next, size);
        AscendingJoin(Keys(page), rest.keys, last);
        assert last in Keys(page);
        forall k | k in rest.keys ensures AtMost(begin, k) {
          SuccessorIsNext(last, k);
          AtMostTransitive(begin, last, k);
        }
        forall k | rest.finished && (forall i :: 0 <= i < |stores| ==> !Intruded(stores[i], c)) && AtMost(begin, k)
            && AtMost(k, DEFAULT_END) && (forall i :: 0 <= i < |stores| ==> Present(stores[i], c, k))
          ensures k in Keys(page) + rest.keys
        {
          if k !in Keys(page) {
            SuccessorIsNext(last, k);
          }
        }
      }
    }
  }

  lemma AscendingJoin(a: seq<ByteString>, b: seq<ByteString>, last: ByteString)
    requires Ascending(a) && Ascending(b) && a != [] && last == a[|a| - 1]
    requires forall k :: k in b ==> AtMost(last + [0], k)
    ensures Ascending(a + b)
  {
    var s := a + b;
    forall i, j | 0 <= i < j < |s| ensures Less(s[i], s[j]) {
      if i < |a| <= j {
        assert s[j] in b;
        SuccessorIsNext(last, s[j]);
        AtMostTransitive(a[i], last, s[j]);
      }
    }
  }

  /** The in-span keys of a store not yet behind begin. */
  function Remaining(m: Records, c: ByteString, begin: ByteString): set<ByteString> {
    Hits(m, c, begin, [])
  }

  lemma PageShrinks(m: Records, c: ByteString, begin: ByteString, size: nat)
    requires Keyed(m)
    requires Range(m, c, begin, [], size) != []
    ensures var page := Range(m, c, begin, [], size);
            |Remaining(m, c, page[|page| - 1].key + [0])| < |Remaining(m, c, begin)|
  {
    hide Less;
    var page := Range(m, c, begin, [], size);
    PageAscends(m, c, begin, size);
    var last := page[|page| - 1].key;
    assert last in Keys(page);
    var x := CompositeKey(c, last);
    var before, after := Remaining(m, c, begin), Remaining(m, c, last + [0]);
    forall k | k in after ensures k in before && k != x {
      SuccessorIsNext(last, m[k].key);
      AtMostTransitive(begin, last, m[k].key);
      LessIrreflexive(last);
    }
    assert x in before;
    SubsetSize(after, before - {x});
  }

  /** On a store that stays the same, paging leaves the loop after at most one page per in-span key
      and one more. */
  lemma {:induction false} PagingTerminates(m: Records, stores: seq<Records>, c: ByteString, begin: ByteString,
                                            size: nat)
    requires Keyed(m)
    requires forall i :: 0 <= i < |stores| ==> stores[i] == m
    requires |stores| > |Remaining(m, c, begin)|
    ensures Pages(stores, c, begin, size).finished
    decreases |stores|
  {
    hide Range, Less, Present, Remaining;
    var page := Range(m, c, begin, [], size);
    if page != [] && |page| >= size {
      PageShrinks(m, c, begin, size);
      var next := page[|page| - 1].key + [0];
      assert |stores[1..]| > |Remaining(m, c, next)|;
      PagingTerminates(m, stores[1..], c, next, size);
    }
  }

  // ------------------------------------------------------------------ what paging over a fixed store visits

  function KeySet(rs: seq<DocumentRecord>): set<ByteString> {
    set r | r in rs :: KeyOf(r)
  }

  /** The composite keys of all pages from begin on. */
  function Visited(m: Records, c: ByteString, begin: ByteString, size: nat): set<ByteString>
    requires Keyed(m)
    decreases |Remaining(m, c, begin)|
  {
    hide Range, Less, Remaining;
    var page := Range(m, c, begin, [], size);
    if page == [] || |page| < size then KeySet(page)
    else
      PageShrinks(m, c, begin, size);
      KeySet(page) + Visited(m, c, page[|page| - 1].key + [0], size)
  }

  /** No record of another collection lies between the start of c's key block and k. */
  ghost predicate Unblocked(m: Records, c: ByteString, k: ByteString) {
    forall x :: x in m && AtMost(CompositeKey(c, []), x) && Less(x, k) ==> m[x].collection == c
  }

  lemma BlockStarts(c: ByteString, begin: ByteString)
    ensures AtMost(CompositeKey(c, []), CompositeKey(c, begin))
  {
    PrefixAtMost([], begin);
    CompositeOrder(c, [], begin);
  }

  lemma IndexOf(m: Records, keys: seq<ByteString>, start: nat, low: ByteString, x: ByteString) returns (j: nat)
    requires InOrder(m, keys) && x in m && AtMost(low, x)
    requires start <= |keys| && forall i :: 0 <= i < start ==> Less(keys[i], low)
    ensures start <= j < |keys| && keys[j] == x
  {
    hide Less;
    j :| 0 <= j < |keys| && keys[j] == x;
    if j < start {
      AtMostTransitive(low, x, low);
      LessIrreflexive(low);
    }
  }

  /** The walk reaches every key up to the end in front of which nothing foreign lies, unless the
      limit is reached first. */
  lemma {:induction false} ScanReaches(m: Records, keys: seq<ByteString>, i: nat, finish: ByteString, c: ByteString,
                                       limit: nat, y: nat)
    requires i <= y < |keys| && forall j :: 0 <= j < |keys| ==> keys[j] in m
    requires forall j :: i <= j <= y ==> m[keys[j]].collection == c && !Less(finish, keys[j])
    ensures var r := Scan(m, keys, i, finish, c, limit);
            y - i < |r| || |r| >= Wanted(limit)
    decreases |keys| - i
  {
    hide Less;
    if limit > 1 && i < y {
      ScanReaches(m, keys, i + 1, finish, c, limit - 1, y);
    }
  }

  /** From the start of the walk up to an unblocked key every record is of the collection. */
  lemma StretchIsOurs(m: Records, keys: seq<ByteString>, start: nat, c: ByteString, begin: ByteString,
                      finish: ByteString, y: nat)
    requires InOrder(m, keys) && start <= y < |keys| && AtMost(keys[y], finish)
    requires Unblocked(m, c, keys[y]) && m[keys[y]].collection == c
    requires forall j :: start <= j < |keys| ==> AtMost(CompositeKey(c, begin), keys[j])
    ensures forall j :: start <= j <= y ==> m[keys[j]].collection == c && !Less(finish, keys[j])
  {
    hide Less, CompositeKey;
    BlockStarts(c, begin);
    forall j | start <= j <= y ensures m[keys[j]].collection == c && !Less(finish, keys[j]) {
      AtMostTransitive(CompositeKey(c, []), CompositeKey(c, begin), keys[j]);
      AtMostTransitive(keys[j], keys[y], finish);
      LessTrichotomy(finish, keys[j]);
    }
  }

  lemma PageReaches(m: Records, c: ByteString, begin: ByteString, size: nat, k: ByteString)
    requires Keyed(m) && size > 0 && k in Remaining(m, c, begin) && Unblocked(m, c, k)
    ensures var page := Range(m, c, begin, [], size);
            k in KeySet(page) || (|page| >= size && k in Remaining(m, c, page[|page| - 1].key + [0]))
  {
    hide Less, CompositeKey, Range, Unblocked, KeySet, Remaining;
    var page := Range(m, c, begin, [], size);
    var i := ReachedAt(m, c, begin, size, k);
    if i < |page| {
      assert k in KeySet(page) by {
        OnPage(page, i);
      }
    } else {
      BehindLast(m, c, begin, page[|page| - 1], k);
    }
  }

  lemma OnPage(rs: seq<DocumentRecord>, i: nat)
    requires i < |rs|
    ensures KeyOf(rs[i]) in KeySet(rs)
  {
  }

  /** The place of an unblocked hit on the page, or a place behind a full page. */
  lemma ReachedAt(m: Records, c: ByteString, begin: ByteString, size: nat, k: ByteString) returns (i: nat)
    requires Keyed(m) && size > 0 && k in Remaining(m, c, begin) && Unblocked(m, c, k)
    ensures var page := Range(m, c, begin, [], size);
            if i < |page| then KeyOf(page[i]) == k
            else |page| >= size && page[|page| - 1].collection == c && Less(KeyOf(page[|page| - 1]), k)
  {
    hide Less, CompositeKey, Scan, Unblocked, Remaining, SortedKeys, LowerBound;
    var keys := SortedKeys(m.Keys);
    var low, finish := CompositeKey(c, begin), CompositeKey(c, DEFAULT_END);
    var start := LowerBound(keys, low);
    HitBetween(m, c, begin, k);
    var y := IndexOf(m, keys, start, low, k);
    StretchIsOurs(m, keys, start, c, begin, finish, y);
    ScanFinds(m, keys, start, finish, c, size, y);
    i := y - start;
  }

  lemma ScanFinds(m: Records, keys: seq<ByteString>, i: nat, finish: ByteString, c: ByteString, limit: nat, y: nat)
    requires Keyed(m) && InOrder(m, keys) && i <= y < |keys| && forall j :: 0 <= j < |keys| ==> keys[j] in m
    requires forall j :: i <= j <= y ==> m[keys[j]].collection == c && !Less(finish, keys[j])
    ensures var r := Scan(m, keys, i, finish, c, limit);
            if y - i < |r| then KeyOf(r[y - i]) == keys[y]
            else |r| >= Wanted(limit) && r[|r| - 1].collection == c && Less(KeyOf(r[|r| - 1]), keys[y])
  {
    hide Less, CompositeKey, Scan;
    ScanReaches(m, keys, i, finish, c, limit, y);
    var r := Scan(m, keys, i, finish, c, limit);
    ScanAt(m, keys, i, finish, c, limit, if y - i < |r| then y - i else |r| - 1);
  }

  lemma HitBetween(m: Records, c: ByteString, begin: ByteString, k: ByteString)
    requires Keyed(m) && k in Remaining(m, c, begin)
    ensures k in m && m[k].collection == c
    ensures AtMost(CompositeKey(c, begin), k) && AtMost(k, CompositeKey(c, DEFAULT_END))
  {
    hide Less, CompositeKey;
    assert k == CompositeKey(c, m[k].key);
    CompositeOrder(c, begin, m[k].key);
    CompositeOrder(c, m[k].key, DEFAULT_END);
  }

  lemma BehindLast(m: Records, c: ByteString, begin: ByteString, last: DocumentRecord, k: ByteString)
    requires Keyed(m) && k in Remaining(m, c, begin) && last.collection == c && Less(KeyOf(last), k)
    ensures k in Remaining(m, c, last.key + [0])
  {
    hide Less, CompositeKey;
    assert k == CompositeKey(c, m[k].key);
    CompositeOrder(c, last.key, m[k].key);
    SuccessorIsNext(last.key, m[k].key);
  }

  lemma NotBehind(keys: seq<ByteString>, j: nat, y: nat)
    requires Ascending(keys) && j < |keys| && y < |keys| && AtMost(keys[j], keys[y])
    ensures j <= y
  {
    hide Less;
    if j > y {
      AtMostTransitive(keys[j], keys[y], keys[j]);
      LessIrreflexive(keys[j]);
    }
  }

  /** In front of what a page holds nothing foreign lies behind the page's begin. */
  lemma PageUnblocked(m: Records, c: ByteString, begin: ByteString, size: nat, i: nat, x: ByteString)
    requires Keyed(m) && i < |Range(m, c, begin, [], size)|
    requires x in m && AtMost(CompositeKey(c, begin), x) && AtMost(x, KeyOf(Range(m, c, begin, [], size)[i]))
    ensures m[x].collection == c
  {
    hide Less, CompositeKey, Scan, SortedKeys, LowerBound, AtMost, Ascending;
    var keys := SortedKeys(m.Keys);
    var low := CompositeKey(c, begin);
    var start := LowerBound(keys, low);
    var finish := CompositeKey(c, DEFAULT_END);
    ScanAt(m, keys, start, finish, c, size, i);
    var j := IndexOf(m, keys, start, low, x);
    var y := start + i;
    NotBehind(keys, j, y);
    ScanAt(m, keys, start, finish, c, size, j - start);
  }

  /** A key is visited from begin on exactly if it is a hit from there on and nothing foreign blocks it. */
  lemma {:induction false} VisitedFrom(m: Records, c: ByteString, begin: ByteString, size: nat, k: ByteString)
    requires Keyed(m) && size > 0
    ensures k in Remaining(m, c, begin) && Unblocked(m, c, k) ==> k in Visited(m, c, begin, size)
    ensures k in Visited(m, c, begin, size) ==> k in Remaining(m, c, begin)
    ensures forall x :: k in Visited(m, c, begin, size) && x in m && AtMost(CompositeKey(c, begin), x) && Less(x, k)
              ==> m[x].collection == c
    decreases |Remaining(m, c, begin)|
  {
    hide Less, Range, CompositeKey, Remaining;
    var page := Range(m, c, begin, [], size);
    PageHits(m, c, begin, size);
    PageInRemaining(m, c, begin, size);
    if k in Remaining(m, c, begin) && Unblocked(m, c, k) {
      PageReaches(m, c, begin, size, k);
    }
    if k in KeySet(page) {
      var i :| 0 <= i < |page| && KeyOf(page[i]) == k;
      forall x | x in m && AtMost(CompositeKey(c, begin), x) && Less(x, k) ensures m[x].collection == c {
        PageUnblocked(m, c, begin, size, i, x);
      }
    }
    if page != [] && |page| >= size {
      var last := page[|page| - 1];
      var next := last.key + [0];
      PageShrinks(m, c, begin, size);
      VisitedFrom(m, c, next, size, k);
      NextIsInside(m, c, begin, size, k);
      forall x | k in Visited(m, c, next, size) && x in m && AtMost(CompositeKey(c, begin), x) && Less(x, k)
        ensures m[x].collection == c
      {
        if !AtMost(CompositeKey(c, next), x) {
          NextIsSuccessor(c, last.key);
          SuccessorIsNext(KeyOf(last), x);
          LessTrichotomy(KeyOf(last), x);
          PageUnblocked(m, c, begin, size, |page| - 1, x);
        }
      }
    }
  }

  lemma PageInRemaining(m: Records, c: ByteString, begin: ByteString, size: nat)
    requires Keyed(m)
    ensures KeySet(Range(m, c, begin, [], size)) <= Remaining(m, c, begin)
    ensures forall i :: 0 <= i < |Range(m, c, begin, [], size)| ==> Range(m, c, begin, [], size)[i].collection == c
  {
    hide Less, Range, CompositeKey;
    PageHits(m, c, begin, size);
  }

  lemma NextIsSuccessor(c: ByteString, key: ByteString)
    ensures CompositeKey(c, key + [0]) == CompositeKey(c, key) + [0]
  {
  }

  /** What remains behind a page remained before it and is not on it. */
  lemma NextIsInside(m: Records, c: ByteString, begin: ByteString, size: nat, k: ByteString)
    requires Keyed(m) && Range(m, c, begin, [], size) != []
    ensures var page := Range(m, c, begin, [], size);
            k in Remaining(m, c, page[|page| - 1].key + [0]) ==> k in Remaining(m, c, begin) && k !in KeySet(page)
  {
    hide Less, Range;
    var page := Range(m, c, begin, [], size);
    var last := page[|page| - 1].key;
    PageAscends(m, c, begin, size);
    var keys := Keys(page);
    if k in Remaining(m, c, last + [0]) {
      SuccessorIsNext(last, m[k].key);
      assert last in keys;
      AtMostTransitive(begin, last, m[k].key);
      forall i | 0 <= i < |page| ensures page[i].key != m[k].key {
        assert keys[i] == page[i].key && keys[|page| - 1] == last;
        if page[i].key == m[k].key {
          AtMostTransitive(m[k].key, last, m[k].key);
          LessIrreflexive(m[k].key);
        }
      }
      forall i | 0 <= i < |page| ensures KeyOf(page[i]) != k {
        PageHits(m, c, begin, size);
      }
    }
  }

  /** Paging over a fixed store visits exactly the in-span keys in front of which no foreign record
      lies inside the collection's key block. */
  lemma VisitedExactly(m: Records, c: ByteString, size: nat, k: ByteString)
    requires Keyed(m) && size > 0
    ensures k in Visited(m, c, [], size) <==> k in Remaining(m, c, []) && Unblocked(m, c, k)
  {
    hide Less, Visited, Remaining, CompositeKey;
    VisitedFrom(m, c, [], size, k);
  }

  /** So with separator-free collection names it visits every in-span key. */
  lemma PlainVisitsAll(m: Records, c: ByteString, size: nat)
    requires Keyed(m) && PlainCollections(m) && size > 0
    ensures Visited(m, c, [], size) == Remaining(m, c, [])
  {
    hide Less, Visited, CompositeKey;
    PlainNeverIntruded(m, c);
    forall k ensures k in Visited(m, c, [], size) <==> k in Remaining(m, c, []) {
      VisitedExactly(m, c, size, k);
    }
  }
}
