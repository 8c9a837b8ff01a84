/** The fixed-window rate limiter, over a clock that never goes back. */
module RateLimiter {

  /** One second in clock ticks. */
  const SECOND: int := 1_000_000_000

  datatype Window = Window(max: nat, start: int, count: nat)

  function Renewed(w: Window, now: int): Window {
    if now - w.start >= SECOND then w.(start := now, count := 0) else w
  }

  function Allows(w: Window, now: int): bool {
    Renewed(w, now).count < w.max
  }

  function Next(w: Window, now: int): Window {
    var r := Renewed(w, now);
    if r.count < r.max then r.(count := r.count + 1) else r
  }

  class FixedWindowRateLimiter {
    const maxRequestsPerSecond: nat
    var windowStart: int
    var requestCount: nat

    ghost function AsWindow(): Window
      reads this
    {
      Window(maxRequestsPerSecond, windowStart, requestCount)
    }

    constructor (maxRequestsPerSecond: nat, now: int)
      ensures AsWindow() == Window(maxRequestsPerSecond, now, 0)
    {
      this.maxRequestsPerSecond := maxRequestsPerSecond;
      this.windowStart := now;
      this.requestCount := 0;
    }

    method Allow(now: int) returns (allowed: bool)
      modifies this
      ensures allowed == Allows(old(AsWindow()), now) && AsWindow() == Next(old(AsWindow()), now)
    {
      if now - windowStart >= SECOND {
        windowStart := now;
        requestCount := 0;
      }
      if requestCount >= maxRequestsPerSecond {
        return false;
      }
      requestCount := requestCount + 1;
      allowed := true;
    }
  }

  // ------------------------------------------------------------------ runs

  predicate NonDecreasing(times: seq<int>) {
    forall i, j :: 0 <= i < j < |times| ==> times[i] <= times[j]
  }

  /** Call times of a run that starts in window w. */
  predicate Follows(w: Window, times: seq<int>) {
    NonDecreasing(times) && w.count <= w.max && (times != [] ==> w.start <= times[0])
  }

  /** How many calls at times in [a, b) are allowed. */
  function AllowedIn(w: Window, times: seq<int>, a: int, b: int): nat
    decreases times
  {
    if times == [] then 0
    else (if Allows(w, times[0]) && a <= times[0] < b then 1 else 0) + AllowedIn(Next(w, times[0]), times[1..], a, b)
  }

  function Allowed(w: Window, times: seq<int>): nat
    decreases times
  {
    if times == [] then 0
    else (if Allows(w, times[0]) then 1 else 0) + Allowed(Next(w, times[0]), times[1..])
  }

  // ------------------------------------------------------------------ any second

  lemma {:induction false} NoneBehind(w: Window, times: seq<int>, a: int, b: int)
    requires forall i :: 0 <= i < |times| ==> times[i] >= b
    ensures AllowedIn(w, times, a, b) == 0
    decreases times
  {
    if times != [] {
      NoneBehind(Next(w, times[0]), times[1..], a, b);
    }
  }

  /** A window that opened inside the second is not renewed within it. */
  lemma {:induction false} SameWindow(w: Window, times: seq<int>, a: int)
    requires Follows(w, times) && a <= w.start
    ensures AllowedIn(w, times, a, a + SECOND) <= w.max - w.count
    decreases times
  {
    if times != [] {
      if times[0] < a + SECOND {
        SameWindow(Next(w, times[0]), times[1..], a);
      } else {
        NoneBehind(w, times, a, a + SECOND);
      }
    }
  }

  /** Once the calls are inside the second, an older window is renewed at most once. */
  lemma {:induction false} OneRenewal(w: Window, times: seq<int>, a: int)
    requires Follows(w, times) && w.start < a && (times != [] ==> a <= times[0])
    ensures AllowedIn(w, times, a, a + SECOND) <= 2 * w.max - w.count
    decreases times
  {
    if times != [] {
      if times[0] >= a + SECOND {
        NoneBehind(w, times, a, a + SECOND);
      } else if times[0] - w.start >= SECOND {
        SameWindow(Next(w, times[0]), times[1..], a);
      } else {
        OneRenewal(Next(w, times[0]), times[1..], a);
      }
    }
  }

  /** Any half-open interval of one second contains at most twice the limit of allowed calls. */
  lemma {:induction false} AnySecondAllowsTwice(w: Window, times: seq<int>, a: int)
    requires Follows(w, times)
    ensures AllowedIn(w, times, a, a + SECOND) <= 2 * w.max
    decreases times
  {
    if times != [] {
      if a <= w.start {
        SameWindow(w, times, a);
      } else if a <= times[0] {
        OneRenewal(w, times, a);
      } else {
        AnySecondAllowsTwice(Next(w, times[0]), times[1..], a);
      }
    }
  }

  function Repeat(t: int, n: nat): seq<int> {
    seq(n, _ => t)
  }

  /** Repeated calls at one time inside a second are allowed up to the limit; the calls behind them
      continue from the window they leave. */
  lemma {:induction false} Burst(w: Window, t: int, n: nat, rest: seq<int>, a: int, b: int)
    requires w.start <= t && t - w.start < SECOND && w.count + n <= w.max && a <= t < b
    ensures AllowedIn(w, Repeat(t, n) + rest, a, b) == n + AllowedIn(w.(count := w.count + n), rest, a, b)
    ensures Allowed(w, Repeat(t, n) + rest) == n + Allowed(w.(count := w.count + n), rest)
    decreases n
  {
    if n == 0 {
      assert Repeat(t, n) + rest == rest;
      assert w.(count := w.count + n) == w;
    } else {
      var times := Repeat(t, n) + rest;
      assert times[1..] == Repeat(t, n - 1) + rest;
      Burst(Next(w, t), t, n - 1, rest, a, b);
    }
  }

  /** Calls at one time that renew the window. */
  lemma BurstRenews(w: Window, t: int, n: nat, a: int, b: int)
    requires t - w.start >= SECOND && n <= w.max && a <= t < b
    ensures AllowedIn(w, Repeat(t, n), a, b) == n && Allowed(w, Repeat(t, n)) == n
  {
    if n > 0 {
      assert Repeat(t, n)[1..] == Repeat(t, n - 1) + [];
      Burst(Next(w, t), t, n - 1, [], a, b);
    }
  }

  /** The bound is met: a burst at the end of a window and one at the start of the next. */
  lemma TwiceIsReached(max: nat) returns (times: seq<int>, a: int)
    ensures Follows(Window(max, 0, 0), times)
    ensures AllowedIn(Window(max, 0, 0), times, a, a + SECOND) == 2 * max
  {
    a := SECOND - 1;
    times := Repeat(a, max) + Repeat(SECOND, max);
    Burst(Window(max, 0, 0), a, max, Repeat(SECOND, max), a, a + SECOND);
    BurstRenews(Window(max, 0, max), SECOND, max, a, a + SECOND);
  }

  // ------------------------------------------------------------------ longer spans

  lemma MoreWindows(max: nat, a: int, b: int)
    requires 0 <= a <= b
    ensures max * (a / SECOND + 1) <= max * (b / SECOND + 1)
    ensures a + SECOND <= b ==> max * (a / SECOND + 1) + max <= max * (b / SECOND + 1)
  {
    assert a / SECOND <= b / SECOND;
    if a + SECOND <= b {
      assert a / SECOND + 1 == (a + SECOND) / SECOND <= b / SECOND;
      assert max * (a / SECOND + 2) <= max * (b / SECOND + 1);
    }
  }

  /** Calls up to span ticks after the current window opened. */
  lemma {:induction false} SpanFromWindow(w: Window, times: seq<int>, span: int)
    requires Follows(w, times) && span >= 0
    requires forall i :: 0 <= i < |times| ==> times[i] - w.start <= span
    ensures Allowed(w, times) <= w.max * (span / SECOND + 1) - w.count
    decreases times
  {
    if times == [] {
      MoreWindows(w.max, 0, span);
    } else if times[0] - w.start >= SECOND {
      MoreWindows(w.max, span - (times[0] - w.start), span);
      SpanFromWindow(Next(w, times[0]), times[1..], span - (times[0] - w.start));
    } else {
      SpanFromWindow(Next(w, times[0]), times[1..], span);
    }
  }

  /** A run of T ticks from its first call on allows at most max * (T / SECOND + 1) calls. */
  ghost predicate SpanBounded(w: Window, first: int) {
    forall times :: Follows(w, times) && times != [] && times[0] == first ==>
      Allowed(w, times) <= w.max * ((times[|times| - 1] - first) / SECOND + 1)
  }

  /** That bound holds for every run exactly when the first call opens a window, falls on the tick the
      window opened, or finds the window used up: a run that begins inside a window with room gets
      the rest of that window on top. */
  lemma SpanBoundExactly(w: Window, first: int)
    requires w.count <= w.max && w.start <= first
    ensures SpanBounded(w, first) <==> first - w.start >= SECOND || first == w.start || w.count == w.max
  {
    if first - w.start >= SECOND || first == w.start || w.count == w.max {
      forall times | Follows(w, times) && times != [] && times[0] == first
        ensures Allowed(w, times) <= w.max * ((times[|times| - 1] - first) / SECOND + 1)
      {
        SpanHolds(w, times);
      }
    } else {
      var next := w.start + SECOND;
      var times := Repeat(first, 1) + Repeat(next, w.max);
      Burst(w, first, 1, Repeat(next, w.max), first, next);
      BurstRenews(w.(count := w.count + 1), next, w.max, next, next + 1);
      assert times[0] == first && times[|times| - 1] == next && Follows(w, times);
      assert Allowed(w, times) == 1 + w.max;
      assert (next - first) / SECOND == 0;
    }
  }

  lemma {:induction false} SpanHolds(w: Window, times: seq<int>)
    requires Follows(w, times) && times != []
    requires times[0] - w.start >= SECOND || times[0] == w.start || w.count == w.max
    ensures Allowed(w, times) <= w.max * ((times[|times| - 1] - times[0]) / SECOND + 1)
    decreases times
  {
    var first, last := times[0], times[|times| - 1];
    if first - w.start >= SECOND {
      SpanFromWindow(w.(start := first, count := 0), times, last - first);
      assert Next(w, first) == Next(w.(start := first, count := 0), first);
    } else if first == w.start {
      SpanFromWindow(w, times, last - first);
    } else if |times| > 1 {
      assert Next(w, first) == w;
      var rest := times[1..];
      assert forall i :: 0 <= i < |rest| ==> rest[i] == times[i + 1];
      SpanHolds(w, times[1..]);
      MoreWindows(w.max, last - times[1], last - first);
    } else {
      MoreWindows(w.max, 0, 0);
      assert Allowed(w, times) == 0;
    }
  }

  /** A run that begins with the construction of the limiter meets the bound. */
  lemma SpanFromConstruction(max: nat, created: int, times: seq<int>)
    requires Follows(Window(max, created, 0), times) && times != []
    ensures Allowed(Window(max, created, 0), times) <= max * ((times[|times| - 1] - created) / SECOND + 1)
  {
    SpanFromWindow(Window(max, created, 0), times, times[|times| - 1] - created);
  }

  // ------------------------------------------------------------------ what is not refused

  /** Within one window the first calls up to the limit are allowed, and no other. */
  lemma {:induction false} WindowIsUsedUp(w: Window, times: seq<int>)
    requires w.count <= w.max
    requires forall i :: 0 <= i < |times| ==> w.start <= times[i] < w.start + SECOND
    ensures Allowed(w, times) == if |times| < w.max - w.count then |times| else w.max - w.count
    decreases times
  {
    if times != [] {
      WindowIsUsedUp(Next(w, times[0]), times[1..]);
    }
  }

  /** A call is refused exactly when the limit is zero or its window is not over and used up; a call
      after the end of the window opens the next one. */
  lemma RefusedExactly(w: Window, now: int)
    requires w.count <= w.max && w.start <= now
    ensures !Allows(w, now) <==> w.max == 0 || (now < w.start + SECOND && w.count == w.max)
    ensures Next(w, now).start == if now < w.start + SECOND then w.start else now
    ensures Next(w, now).max == w.max
    ensures Next(w, now).count == (if now < w.start + SECOND then w.count else 0) + (if Allows(w, now) then 1 else 0)
  {
  }
}
