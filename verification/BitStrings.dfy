/** Bit strings, most significant bit first: keys, edge paths and node positions. */
module BitStrings {
  type Bits = seq<bool>

  /** Length of the longest common prefix. */
  function CommonLen(a: Bits, b: Bits): (n: nat)
    ensures n <= |a| && n <= |b|
    ensures a[..n] == b[..n]
    ensures n < |a| && n < |b| ==> a[n] != b[n]
  {
    if a == [] || b == [] || a[0] != b[0] then 0 else 1 + CommonLen(a[1..], b[1..])
  }

  lemma {:induction false} CommonLenAfter(p: Bits, a: Bits, b: Bits)
    ensures CommonLen(p + a, p + b) == |p| + CommonLen(a, b)
  {
    if p == [] {
      assert p + a == a && p + b == b;
    } else {
      assert (p + a)[1..] == p[1..] + a && (p + b)[1..] == p[1..] + b;
      CommonLenAfter(p[1..], a, b);
    }
  }

  lemma {:induction false} PrefixInTwo(p: Bits, k: Bits, e: nat, n: nat)
    requires e <= n <= |k|
    ensures (p + k[..e]) + k[e..][..n - e] == p + k[..n]
    ensures k[e..][n - e..] == k[n..]
  {
  }

  /** Keys with the same first n bits still have n - e in common past bit e. */
  lemma {:induction false} SamePrefixStep(j: Bits, k: Bits, e: nat, n: nat)
    requires e <= n <= |j| && n <= |k| && j[..n] == k[..n]
    ensures j[..e] == k[..e] && j[e..][..n - e] == k[e..][..n - e]
    ensures n > 0 ==> j[0] == k[0]
  {
    assert j[..e] == j[..n][..e] && k[..e] == k[..n][..e];
    assert j[e..][..n - e] == j[..n][e..] && k[e..][..n - e] == k[..n][e..];
    assert n > 0 ==> j[0] == j[..n][0] && k[0] == k[..n][0];
  }
}
