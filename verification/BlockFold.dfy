/** Messages consumed in blocks of a fixed size, as every hash here does. */
module BlockFold {
  import opened Bytes

  /** The state after all complete blocks of m. */
  function Fold<S>(n: nat, f: (S, Octets) -> S, s: S, m: Octets): S
    requires n > 0
    decreases |m|
  {
    if |m| < n then s else Fold(n, f, f(s, m[..n]), m[n..])
  }

  /** The bytes behind the last complete block. */
  function Rest(n: nat, m: Octets): (r: Octets)
    requires n > 0
    ensures |r| < n
    decreases |m|
  {
    if |m| < n then m else Rest(n, m[n..])
  }

  /** A message that grows: only what was left over and what is new has to be folded. */
  lemma {:induction false} Grow<S>(n: nat, f: (S, Octets) -> S, s: S, m: Octets, data: Octets)
    requires n > 0
    ensures Fold(n, f, s, m + data) == Fold(n, f, Fold(n, f, s, m), Rest(n, m) + data)
    ensures Rest(n, m + data) == Rest(n, Rest(n, m) + data)
    decreases |m|
  {
    if |m| >= n {
      assert (m + data)[..n] == m[..n] && (m + data)[n..] == m[n..] + data;
      Grow(n, f, f(s, m[..n]), m[n..], data);
    }
  }

  /** One block ahead. */
  lemma OneBlock<S>(n: nat, f: (S, Octets) -> S, s: S, b: Octets, data: Octets)
    requires n > 0 && |b| == n
    ensures Fold(n, f, s, b + data) == Fold(n, f, f(s, b), data) && Rest(n, b + data) == Rest(n, data)
  {
    assert (b + data)[..n] == b && (b + data)[n..] == data;
  }

  lemma NoBlock<S>(n: nat, f: (S, Octets) -> S, s: S, m: Octets)
    requires n > 0 && |m| < n
    ensures Fold(n, f, s, m) == s && Rest(n, m) == m
  {
  }

  lemma {:induction false} RestLength(n: nat, m: Octets)
    requires n == 16 || n == 64
    ensures |Rest(n, m)| == |m| % n
    decreases |m|
  {
    if |m| >= n { RestLength(n, m[n..]); }
  }
}
