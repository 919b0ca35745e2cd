/** Shared vocabulary: optional values, instants and the ordering of strings. */
module Common {

  datatype Option<+T> = None | Some(value: T)

  /** Nanoseconds since the zero time (1 January of year 1, UTC); the zero time itself is 0. */
  type Instant = int

  const SECOND := 1_000_000_000
  const MINUTE := 60 * SECOND
  const HOUR := 60 * MINUTE
  const DAY := 24 * HOUR
  const UNIX_EPOCH_SECONDS := 62_135_596_800

  predicate IsZero(t: Instant) {
    t == 0
  }

  /** Whole seconds since the Unix epoch, rounded down. */
  function Unix(t: Instant): int {
    t / SECOND - UNIX_EPOCH_SECONDS
  }

  /** The instant of a whole number of Unix seconds. */
  function FromUnix(seconds: int): Instant {
    (seconds + UNIX_EPOCH_SECONDS) * SECOND
  }

  /** Unix seconds count from 1 January 1970, rounding down. */
  lemma UnixIs(t: Instant, seconds: int)
    ensures Unix(t) == seconds <==> FromUnix(seconds) <= t < FromUnix(seconds + 1)
    ensures FromUnix(0) == 62_135_596_800_000_000_000 && FromUnix(seconds + 1) == FromUnix(seconds) + 1_000_000_000
  {
  }

  /** Strict lexicographic order on strings. */
  predicate LexLess(a: string, b: string) {
    b != [] && (a == [] || a[0] < b[0] || (a[0] == b[0] && LexLess(a[1..], b[1..])))
  }

  lemma {:induction false} LexTotal(a: string, b: string)
    ensures LexLess(a, b) || LexLess(b, a) || a == b
    ensures !(LexLess(a, b) && LexLess(b, a))
    ensures !LexLess(a, a)
  {
    if a != [] && b != [] {
      LexTotal(a[1..], b[1..]);
      LexTotal(a[1..], a[1..]);
      if a[0] == b[0] && a[1..] == b[1..] {
        assert a == [a[0]] + a[1..] && b == [b[0]] + b[1..];
      }
    } else if a != [] {
      LexTotal(a[1..], a[1..]);
    }
  }

  /** At the first difference `a` ends or has the smaller character. */
  predicate FirstBelow(a: string, b: string) {
    exists i :: 0 <= i <= |a| && i < |b| && a[..i] == b[..i] && (i == |a| || a[i] < b[i])
  }

  lemma HeadsDiffer(a: string, b: string, i: nat)
    requires a != [] && b != [] && a[0] != b[0] && i <= |a| && i <= |b|
    ensures i > 0 ==> a[..i] != b[..i]
  {
    if i > 0 { assert a[..i][0] == a[0] && b[..i][0] == b[0]; }
  }

  /** The recursive order is the usual one. */
  lemma {:induction false} LexIsFirstDifference(a: string, b: string)
    ensures LexLess(a, b) <==> FirstBelow(a, b)
  {
    if a != [] && b != [] && a[0] == b[0] {
      LexIsFirstDifference(a[1..], b[1..]);
      if FirstBelow(a[1..], b[1..]) {
        var i :| 0 <= i <= |a[1..]| && i < |b[1..]| && a[1..][..i] == b[1..][..i] && (i == |a[1..]| || a[1..][i] < b[1..][i]);
        assert a[..i + 1] == [a[0]] + a[1..][..i] && b[..i + 1] == [b[0]] + b[1..][..i];
        assert 0 <= i + 1 <= |a| && i + 1 < |b| && a[..i + 1] == b[..i + 1] && (i + 1 == |a| || a[i + 1] < b[i + 1]);
      }
      if FirstBelow(a, b) {
        var i :| 0 <= i <= |a| && i < |b| && a[..i] == b[..i] && (i == |a| || a[i] < b[i]);
        assert a[1..][..i - 1] == a[..i][1..] && b[1..][..i - 1] == b[..i][1..];
        assert 0 <= i - 1 <= |a[1..]| && i - 1 < |b[1..]|;
      }
    } else if a != [] && b != [] {
      if a[0] < b[0] { assert a[..0] == b[..0]; }
      if FirstBelow(a, b) {
        var i :| 0 <= i <= |a| && i < |b| && a[..i] == b[..i] && (i == |a| || a[i] < b[i]);
        HeadsDiffer(a, b, i);
      }
    } else if b != [] {
      assert a[..0] == b[..0];
    }
  }

  lemma {:induction false} LexTransitive(a: string, b: string, c: string)
    requires LexLess(a, b) && LexLess(b, c)
    ensures LexLess(a, c)
  {
    if a != [] && a[0] == b[0] && b[0] == c[0] {
      LexTransitive(a[1..], b[1..], c[1..]);
    }
  }

  lemma SubsetSize<T>(a: set<T>, b: set<T>)
    requires a <= b
    ensures |a| <= |b|
  {
    if a != b {
      assert a + (b - a) == b;
      assert |b| == |a| + |b - a|;
    }
  }

  /** A counter that some steps raise by one stands still exactly over stretches without such steps. */
  lemma {:induction false} CounterTells(count: nat -> int, raises: nat -> bool, m: nat, n: nat)
    requires m <= n && forall i: nat :: m <= i < n ==> count(i + 1) == count(i) + if raises(i) then 1 else 0
    ensures count(m) <= count(n) && (count(m) == count(n) <==> forall i: nat :: m <= i < n ==> !raises(i))
    decreases n
  {
    if m < n { CounterTells(count, raises, m, n - 1); }
  }
}
