/** Byte strings in the order std::string compares them: bytewise, a proper prefix first. */
module ByteStrings {
  type Byte = b: int | 0 <= b < 0x100
  type ByteString = seq<Byte>

  const NEWLINE: Byte := 0x0a
  const COLON: Byte := 0x3a

  /** Strict lexicographic order of unsigned bytes. */
  predicate Less(a: ByteString, b: ByteString)
    decreases a
  {
    if b == [] then false
    else if a == [] then true
    else a[0] < b[0] || (a[0] == b[0] && Less(a[1..], b[1..]))
  }

  predicate AtMost(a: ByteString, b: ByteString) {
    a == b || Less(a, b)
  }

  lemma {:induction false} LessTransitive(a: ByteString, b: ByteString, c: ByteString)
    requires Less(a, b) && Less(b, c)
    ensures Less(a, c)
    decreases a
  {
    if a != [] && a[0] == b[0] && b[0] == c[0] {
      LessTransitive(a[1..], b[1..], c[1..]);
    }
  }

  lemma {:induction false} LessIrreflexive(a: ByteString)
    ensures !Less(a, a)
  {
    if a != [] {
      LessIrreflexive(a[1..]);
    }
  }

  /** Exactly one of a < b, a == b, b < a holds. */
  lemma {:induction false} LessTrichotomy(a: ByteString, b: ByteString)
    ensures Less(a, b) || a == b || Less(b, a)
    ensures !(Less(a, b) && Less(b, a))
    ensures Less(a, b) ==> a != b
    decreases a
  {
    LessIrreflexive(a);
    if a != [] && b != [] {
      LessTrichotomy(a[1..], b[1..]);
      assert a == [a[0]] + a[1..] && b == [b[0]] + b[1..];
    }
  }

  lemma AtMostTransitive(a: ByteString, b: ByteString, c: ByteString)
    requires AtMost(a, b) && AtMost(b, c)
    ensures AtMost(a, c)
    ensures Less(a, b) || Less(b, c) ==> Less(a, c)
  {
    if Less(a, b) && Less(b, c) {
      LessTransitive(a, b, c);
    }
  }

  /** A common prefix does not influence the comparison. */
  lemma {:induction false} LessSamePrefix(p: ByteString, a: ByteString, b: ByteString)
    ensures Less(p + a, p + b) <==> Less(a, b)
    ensures p + a == p + b <==> a == b
    decreases p
  {
    assert a == (p + a)[|p|..] && b == (p + b)[|p|..];
    if p == [] {
      assert p + a == a && p + b == b;
    } else {
      assert (p + a)[1..] == p[1..] + a && (p + b)[1..] == p[1..] + b;
      LessSamePrefix(p[1..], a, b);
    }
  }

  /** A string is at least each of its prefixes. */
  lemma PrefixAtMost(p: ByteString, x: ByteString)
    requires p <= x
    ensures AtMost(p, x)
  {
    var s := x[|p|..];
    assert x == p + s && p == p + [];
    LessSamePrefix(p, [], s);
  }

  /** Everything from p up to some extension of p extends p itself. */
  lemma {:induction false} BetweenExtends(p: ByteString, x: ByteString, s: ByteString)
    requires AtMost(p, x) && AtMost(x, p + s)
    ensures p <= x
    decreases p
  {
    if p != [] && x != p {
      var y := p + s;
      assert y[0] == p[0] && y[1..] == p[1..] + s;
      assert x[0] == p[0];
      BetweenExtends(p[1..], x[1..], s);
      assert p == [p[0]] + p[1..] && x == [x[0]] + x[1..];
    }
  }

  /** k + "\0" is the immediate successor of k: nothing lies strictly between them. */
  lemma {:induction false} SuccessorIsNext(k: ByteString, x: ByteString)
    ensures AtMost(k + [0], x) <==> Less(k, x)
    decreases k
  {
    if k == [] {
      assert k + [0] == [0];
      if x != [] && x[0] == 0 {
        PrefixAtMost([0], x);
      }
    } else if x != [] {
      assert (k + [0])[1..] == k[1..] + [0];
      SuccessorIsNext(k[1..], x[1..]);
      assert k + [0] == x <==> (k[0] == x[0] && k[1..] + [0] == x[1..]) by {
        assert k + [0] == [k[0]] + (k[1..] + [0]) && x == [x[0]] + x[1..];
      }
    }
  }

  // ---------------------------------------------------------------- ordered key sets

  lemma {:induction false} FindLeast(s: set<ByteString>) returns (m: ByteString)
    requires s != {}
    ensures m in s && forall x :: x in s ==> AtMost(m, x)
    decreases |s|
  {
    hide Less;
    var first :| first in s;
    var rest := s - {first};
    assert forall x :: x in s ==> x == first || x in rest;
    m := first;
    if rest != {} {
      var other := FindLeast(rest);
      LessTrichotomy(first, other);
      if Less(other, first) {
        m := other;
      } else {
        forall x | x in rest ensures AtMost(first, x) {
          AtMostTransitive(first, other, x);
        }
      }
    }
  }

  lemma LeastExists(s: set<ByteString>)
    requires s != {}
    ensures exists m :: m in s && forall x :: x in s ==> AtMost(m, x)
  {
    var m := FindLeast(s);
  }

  lemma LeastUnique(s: set<ByteString>)
    ensures forall a, b ::
              && a in s && b in s
              && (forall x :: x in s ==> AtMost(a, x))
              && (forall x :: x in s ==> AtMost(b, x))
              ==> a == b
  {
    forall a, b | a in s && b in s && (forall x :: x in s ==> AtMost(a, x)) && (forall x :: x in s ==> AtMost(b, x))
      ensures a == b
    {
      assert AtMost(a, b) && AtMost(b, a);
      LessTrichotomy(a, b);
    }
  }

  function Least(s: set<ByteString>): (m: ByteString)
    requires s != {}
    ensures m in s
    ensures forall x :: x in s ==> AtMost(m, x)
  {
    LeastExists(s);
    LeastUnique(s);
    var m :| m in s && forall x :: x in s ==> AtMost(m, x);
    m
  }

  ghost predicate Ascending(keys: seq<ByteString>) {
    forall i, j :: 0 <= i < j < |keys| ==> Less(keys[i], keys[j])
  }

  lemma LeastFirst(m: ByteString, rest: seq<ByteString>, s: set<ByteString>)
    requires m in s && (forall x :: x in s ==> AtMost(m, x)) && Ascending(rest) && |rest| == |s - {m}|
    requires forall k :: k in rest <==> k in s - {m}
    ensures Ascending([m] + rest) && |[m] + rest| == |s|
    ensures forall k :: k in [m] + rest <==> k in s
    ensures forall i :: 0 <= i < |[m] + rest| ==> ([m] + rest)[i] in s
  {
    hide Less;
    assert s == (s - {m}) + {m};
    forall i | 0 <= i < |rest| ensures rest[i] in s && Less(m, rest[i]) {
      assert rest[i] in rest;
    }
  }

  /** The keys of a std::map in iteration order. */
  function SortedKeys(s: set<ByteString>): (keys: seq<ByteString>)
    ensures Ascending(keys)
    ensures |keys| == |s|
    ensures forall k :: k in keys <==> k in s
    ensures forall i :: 0 <= i < |keys| ==> keys[i] in s
    decreases |s|
  {
    if s == {} then []
    else
      var m := Least(s);
      var rest := SortedKeys(s - {m});
      LeastFirst(m, rest, s);
      [m] + rest
  }

  /** Two ascending sequences with the same members are the same sequence. */
  lemma {:induction false} AscendingUnique(a: seq<ByteString>, b: seq<ByteString>)
    requires Ascending(a) && Ascending(b)
    requires forall k :: k in a <==> k in b
    ensures a == b
    decreases |a|
  {
    if a == [] {
      assert forall i :: 0 <= i < |b| ==> b[i] in b;
    } else {
      assert a[0] in b;
      assert b[0] in a;
      LessTrichotomy(a[0], b[0]);
      HeadNotInTail(a);
      HeadNotInTail(b);
      assert a == [a[0]] + a[1..] && b == [b[0]] + b[1..];
      assert a[0] == b[0];
      forall k ensures k in a[1..] <==> k in b[1..] {
        assert k in a <==> k == a[0] || k in a[1..];
        assert k in b <==> k == b[0] || k in b[1..];
      }
      AscendingUnique(a[1..], b[1..]);
      assert a == [a[0]] + a[1..] && b == [b[0]] + b[1..];
    }
  }

  lemma HeadNotInTail(a: seq<ByteString>)
    requires Ascending(a) && a != []
    ensures a[0] !in a[1..]
    ensures forall k :: k in a ==> AtMost(a[0], k)
  {
    LessIrreflexive(a[0]);
  }

  /** std::map::lower_bound over the iteration order: the first position whose key is not below k. */
  function LowerBound(keys: seq<ByteString>, k: ByteString): (i: nat)
    requires Ascending(keys)
    ensures i <= |keys|
    ensures forall j :: 0 <= j < i ==> Less(keys[j], k)
    ensures forall j :: i <= j < |keys| ==> AtMost(k, keys[j])
  {
    if keys == [] then 0
    else
      LessTrichotomy(keys[0], k);
      if Less(keys[0], k) then 1 + LowerBound(keys[1..], k)
      else
        assert forall j {:trigger keys[j]} :: 0 < j < |keys| ==> AtMost(k, keys[j]) by {
          forall j {:trigger keys[j]} | 0 < j < |keys| ensures AtMost(k, keys[j]) {
            AtMostTransitive(k, keys[0], keys[j]);
          }
        }
        0
  }
}
