/** Taking elements out of sequences by their indices. */
module Sequences {
  /** The first `n` elements but for those at the given indices. */
  function Without<T>(s: seq<T>, drop: set<nat>, n: nat): seq<T>
    requires n <= |s|
  {
    if n == 0 then []
    else if n - 1 in drop then Without(s, drop, n - 1)
    else Without(s, drop, n - 1) + [s[n - 1]]
  }

  lemma {:induction false} WithoutKeepsFirst<T>(s: seq<T>, drop: set<nat>, n: nat)
    requires 0 < n <= |s| && 0 !in drop
    ensures Without(s, drop, n) != [] && Without(s, drop, n)[0] == s[0]
  {
    if 1 < n {
      WithoutKeepsFirst(s, drop, n - 1);
    }
  }

  lemma {:induction false} WithoutNone<T>(s: seq<T>, n: nat)
    requires n <= |s|
    ensures Without(s, {}, n) == s[..n]
  {
    if 0 < n {
      WithoutNone(s, n - 1);
      assert s[..n] == s[..n - 1] + [s[n - 1]];
    }
  }
}
