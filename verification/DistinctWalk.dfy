/** Order-preserving removal of repetitions, and ascending number sets: the two tools of the ring walk. */
module DistinctWalk {
  ghost predicate NoRepeats<T>(s: seq<T>) {
    forall i, j :: 0 <= i < j < |s| ==> s[i] != s[j]
  }

  function SetOf<T(==)>(s: seq<T>): set<T> {
    set x | x in s
  }

  lemma NoRepeatsCons<T>(first: T, rest: seq<T>)
    ensures NoRepeats([first] + rest) <==> first !in rest && NoRepeats(rest)
  {
    var s := [first] + rest;
    assert forall i :: 0 <= i < |rest| ==> s[i + 1] == rest[i];
    if first in rest {
      var j :| 0 <= j < |rest| && rest[j] == first;
      assert s[j + 1] == s[0];
    }
  }

  /** A sequence has as many elements as its set exactly when none repeats. */
  lemma {:induction false} NoRepeatsBySize<T(!new)>(s: seq<T>)
    ensures |SetOf(s)| <= |s|
    ensures NoRepeats(s) <==> |SetOf(s)| == |s|
    decreases s
  {
    if s != [] {
      var first, rest := s[0], s[1..];
      NoRepeatsBySize(rest);
      assert s == [first] + rest;
      NoRepeatsCons(first, rest);
      assert SetOf(s) == SetOf(rest) + {first};
      if first in rest {
        assert SetOf(s) == SetOf(rest);
      }
    }
  }

  /** The distinct elements of s, each where it occurs first. */
  function Distinct<T(==,!new)>(s: seq<T>): (d: seq<T>)
    ensures NoRepeats(d)
    ensures forall x :: x in d <==> x in s
    ensures |d| <= |s|
  {
    if s == [] then []
    else
      var front := s[..|s| - 1];
      var last := s[|s| - 1];
      var d := Distinct(front);
      assert forall x :: x in s <==> x in front || x == last;
      if last in d then d else d + [last]
  }

  lemma {:induction false} DistinctOfPrefix<T(!new)>(s: seq<T>, n: nat)
    requires n <= |s|
    ensures Distinct(s[..n]) <= Distinct(s)
    decreases |s|
  {
    if n < |s| {
      DistinctOfPrefix(s[..|s| - 1], n);
      assert s[..|s| - 1][..n] == s[..n];
    } else {
      assert s[..n] == s;
    }
  }

  /** One more step of the walk. */
  lemma DistinctStep<T(!new)>(s: seq<T>, n: nat)
    requires n < |s|
    ensures Distinct(s[..n + 1]) == if s[n] in Distinct(s[..n]) then Distinct(s[..n]) else Distinct(s[..n]) + [s[n]]
  {
    assert s[..n + 1][..n] == s[..n];
  }

  function Without<T(==,!new)>(s: seq<T>, x: T): (r: seq<T>)
    ensures forall y :: y in r <==> y in s && y != x
    ensures |r| <= |s|
  {
    if s == [] then []
    else
      var front := Without(s[..|s| - 1], x);
      assert forall y :: y in s <==> y in s[..|s| - 1] || y == s[|s| - 1];
      if s[|s| - 1] == x then front else front + [s[|s| - 1]]
  }

  lemma {:induction false} DistinctWithout<T(!new)>(s: seq<T>, x: T)
    ensures Distinct(Without(s, x)) == Without(Distinct(s), x)
    decreases |s|
  {
    if s != [] {
      var front, last := s[..|s| - 1], s[|s| - 1];
      DistinctWithout(front, x);
      var w := Without(front, x);
      if last != x {
        assert (w + [last])[..|w|] == w;
      }
      var d := Distinct(front);
      assert (d + [last])[..|d|] == d;
    }
  }

  lemma {:induction false} WithoutOfPrefix<T(!new)>(s: seq<T>, n: nat, x: T)
    requires n <= |s|
    ensures Without(s[..n], x) <= Without(s, x)
    decreases |s|
  {
    if n < |s| {
      WithoutOfPrefix(s[..|s| - 1], n, x);
      assert s[..|s| - 1][..n] == s[..n];
    } else {
      assert s[..n] == s;
    }
  }

  lemma {:induction false} WithoutAbsent<T(!new)>(s: seq<T>, x: T)
    requires x !in s
    ensures Without(s, x) == s
    decreases |s|
  {
    if s != [] {
      var front := s[..|s| - 1];
      assert x !in front;
      WithoutAbsent(front, x);
    }
  }

  /** Numbers from 0 up to n without repetition: at most n of them. */
  lemma {:induction false} PigeonHole(s: seq<int>, n: nat)
    requires NoRepeats(s) && forall i :: 0 <= i < |s| ==> 0 <= s[i] < n
    ensures |s| <= n
    decreases n
  {
    var first := if |s| > 0 then s[0] else 0;
    if n > 0 {
      var r := Without(s, n - 1);
      WithoutSize(s, n - 1);
      assert forall i :: 0 <= i < |r| ==> r[i] in r;
      PigeonHole(r, n - 1);
    } else if |s| > 0 {
      assert false;
    }
  }

  /** A sequence in which all numbers below n occur has at least n elements. */
  lemma {:induction false} Covering(s: seq<int>, n: nat)
    requires NoRepeats(s) && forall k :: 0 <= k < n ==> k in s
    ensures n <= |s|
    decreases n
  {
    if n > 0 {
      var r := Without(s, n - 1);
      WithoutSize(s, n - 1);
      Covering(r, n - 1);
    }
  }

  lemma {:induction false} WithoutSize<T(!new)>(s: seq<T>, x: T)
    requires NoRepeats(s)
    ensures NoRepeats(Without(s, x))
    ensures |Without(s, x)| == if x in s then |s| - 1 else |s|
    decreases |s|
  {
    if s != [] {
      var front, last := s[..|s| - 1], s[|s| - 1];
      WithoutSize(front, x);
      assert forall y :: y in s <==> y in front || y == last;
      assert last !in front;
      assert last !in Without(front, x);
    }
  }

  // ------------------------------------------------------------------ ascending numbers

  ghost predicate AscendingInts(s: seq<int>) {
    forall i, j :: 0 <= i < j < |s| ==> s[i] < s[j]
  }

  predicate IsLeast(m: int, s: set<int>) {
    m in s && forall x :: x in s ==> m <= x
  }

  lemma AnyOf<T(!new)>(s: set<T>) returns (x: T)
    requires s != {}
    ensures x in s
  {
    x :| x in s;
  }

  lemma {:induction false} FindLeastInt(s: set<int>) returns (m: int)
    requires s != {}
    ensures IsLeast(m, s)
    decreases |s|
  {
    var first := AnyOf(s);
    m := first;
    var rest := s - {first};
    assert forall x :: x in s ==> x == first || x in rest;
    if rest != {} {
      var other := FindLeastInt(rest);
      if other < first {
        m := other;
      }
    }
  }

  lemma LeastIntExists(s: set<int>)
    requires s != {}
    ensures exists m :: IsLeast(m, s)
  {
    var m := FindLeastInt(s);
  }

  lemma LeastFirst(m: int, rest: seq<int>, s: set<int>)
    requires IsLeast(m, s) && AscendingInts(rest) && |rest| == |s - {m}|
    requires forall k :: k in rest <==> k in s - {m}
    ensures AscendingInts([m] + rest) && |[m] + rest| == |s|
    ensures forall k :: k in [m] + rest <==> k in s
    ensures forall i :: 0 <= i < |[m] + rest| ==> ([m] + rest)[i] in s
  {
    assert s == (s - {m}) + {m};
    forall i | 0 <= i < |rest| ensures rest[i] in s && m < rest[i] {
      assert rest[i] in rest;
    }
  }

  function SortedInts(s: set<int>): (keys: seq<int>)
    ensures AscendingInts(keys)
    ensures forall k :: k in keys <==> k in s
    ensures forall i :: 0 <= i < |keys| ==> keys[i] in s
    ensures |keys| == |s|
    decreases |s|
  {
    if s == {} then []
    else
      LeastIntExists(s);
      var m :| IsLeast(m, s);
      var rest := SortedInts(s - {m});
      LeastFirst(m, rest, s);
      [m] + rest
  }

  lemma {:induction false} AscendingIntsUnique(a: seq<int>, b: seq<int>)
    requires AscendingInts(a) && AscendingInts(b)
    requires forall k :: k in a <==> k in b
    ensures a == b
    decreases |a|
  {
    if a == [] {
      assert forall i :: 0 <= i < |b| ==> b[i] in b;
    } else {
      assert a[0] in b && b[0] in a;
      assert a[0] == b[0];
      assert a == [a[0]] + a[1..] && b == [b[0]] + b[1..];
      forall k ensures k in a[1..] <==> k in b[1..] {
        assert k in a <==> k == a[0] || k in a[1..];
        assert k in b <==> k == b[0] || k in b[1..];
      }
      AscendingIntsUnique(a[1..], b[1..]);
    }
  }

  /** std::map::lower_bound over ascending numbers. */
  function LowerBoundInt(keys: seq<int>, h: int): (i: nat)
    requires AscendingInts(keys)
    ensures i <= |keys|
    ensures forall j :: 0 <= j < i ==> keys[j] < h
    ensures forall j :: i <= j < |keys| ==> h <= keys[j]
  {
    if keys == [] || h <= keys[0] then 0 else 1 + LowerBoundInt(keys[1..], h)
  }
}
