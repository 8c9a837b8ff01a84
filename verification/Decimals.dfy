/** std::to_string, and why labels built with it are unambiguous. */
module Decimals {
  import opened ByteStrings

  const MINUS: Byte := 0x2d

  predicate Digits(s: ByteString) {
    forall i :: 0 <= i < |s| ==> 48 <= s[i] <= 57
  }

  function Decimal(n: nat): (s: ByteString)
    ensures s != [] && Digits(s)
  {
    if n < 10 then [48 + n] else Decimal(n / 10) + [48 + n % 10]
  }

  function Signed(n: int): ByteString {
    if n < 0 then [MINUS] + Decimal(-n) else Decimal(n)
  }

  /** The number a string of digits stands for. */
  function Value(s: ByteString): int
    decreases |s|
  {
    if s == [] then 0 else 10 * Value(s[..|s| - 1]) + (s[|s| - 1] as int - 48)
  }

  /** The digits stand for the number and have no needless zero in front. */
  lemma {:induction false} DecimalReadsBack(n: nat)
    ensures Value(Decimal(n)) == n
    ensures Decimal(n)[0] == 48 ==> n == 0 && Decimal(n) == [48]
  {
    if n < 10 {
      assert Value(Decimal(n)[..0]) == 0;
    } else {
      DecimalReadsBack(n / 10);
      var s := Decimal(n);
      assert s[..|s| - 1] == Decimal(n / 10);
    }
  }

  lemma {:induction false} DecimalInjective(m: nat, n: nat)
    ensures Decimal(m) == Decimal(n) ==> m == n
    decreases m
  {
    if Decimal(m) == Decimal(n) {
      assert Decimal(m)[|Decimal(m)| - 1] == 48 + m % 10;
      assert Decimal(n)[|Decimal(n)| - 1] == 48 + n % 10;
      if m >= 10 && n >= 10 {
        assert Decimal(m)[..|Decimal(m)| - 1] == Decimal(m / 10);
        assert Decimal(n)[..|Decimal(n)| - 1] == Decimal(n / 10);
        DecimalInjective(m / 10, n / 10);
      }
    }
  }

  lemma SignedInjective(m: int, n: int)
    ensures Signed(m) == Signed(n) ==> m == n
  {
    if Signed(m) == Signed(n) {
      assert m < 0 <==> Signed(m)[0] == MINUS;
      assert n < 0 <==> Signed(n)[0] == MINUS;
      if m < 0 {
        assert Signed(m)[1..] == Decimal(-m) && Signed(n)[1..] == Decimal(-n);
        DecimalInjective(-m, -n);
      } else {
        DecimalInjective(m, n);
      }
    }
  }

  /** The last separator of a string splits it in one way only. */
  lemma SplitAtLast(sep: Byte, a: ByteString, x: ByteString, b: ByteString, y: ByteString)
    requires sep !in x && sep !in y
    requires a + [sep] + x == b + [sep] + y
    ensures a == b && x == y
  {
    var s := a + [sep] + x;
    var t := b + [sep] + y;
    assert s[|a|] == sep && t[|b|] == sep;
    assert forall i :: |a| < i < |s| ==> s[i] == x[i - |a| - 1];
    assert forall i :: |b| < i < |t| ==> t[i] == y[i - |b| - 1];
    assert |a| == |b|;
    assert a == s[..|a|] && b == t[..|a|] && x == s[|a| + 1..] && y == t[|a| + 1..];
  }
}
