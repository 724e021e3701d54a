/** A circular buffer as the window of an unbounded stream: the arithmetic of wrapped copies. */
module Circular {
  import opened Numbers

  /** Number of the slots between w and k, walking forward round a circle of size n. */
  function Ahead(k: int, w: int, n: int): int {
    if k >= w then k - w else k - w + n
  }

  /** The buffer after data has been written from index w on, wrapping at the end. */
  function Overwrite(ring: seq<int>, w: int, data: seq<int>): (r: seq<int>)
    requires 0 <= w < |ring| && |data| <= |ring|
    ensures |r| == |ring|
  {
    seq(|ring|, k requires 0 <= k < |ring| =>
      if Ahead(k, w, |ring|) < |data| then data[Ahead(k, w, |ring|)] else ring[k])
  }

  /** n bytes read from index r on, wrapping at the end. */
  function Extract(ring: seq<int>, r: int, n: int): (s: seq<int>)
    requires 0 <= r < |ring| && 0 <= n <= |ring|
    ensures |s| == n
  {
    seq(n, i requires 0 <= i < n => ring[if r + i < |ring| then r + i else r + i - |ring|])
  }

  function Zeros(n: nat): (r: seq<int>)
    ensures |r| == n && forall i :: 0 <= i < n ==> r[i] == 0
  {
    seq(n, _ => 0)
  }

  /** The buffer holds the last |ring| bytes of the stream, each at its position modulo the size. */
  ghost predicate Mirrors(ring: seq<int>, stream: seq<int>) {
    |ring| > 0 && forall p :: 0 <= p < |stream| && |stream| - |ring| <= p ==> ring[p % |ring|] == stream[p]
  }

  /** Advancing by less than one turn. */
  lemma {:induction false} ModAdd(a: nat, i: nat, n: int)
    requires 0 <= i < n
    ensures (a + i) % n == if a % n + i < n then a % n + i else a % n + i - n
  {
    var q, r := a / n, a % n;
    var s := if r + i < n then r + i else r + i - n;
    var k := if r + i < n then q else q + 1;
    assert a == q * n + r;
    assert (q + 1) * n == q * n + n;
    ModUnique(a + i, k, s, n);
  }

  /** Writing the next bytes of the stream keeps the mirror: the write position falls on the
      oldest bytes, wherever the copy splits. */
  lemma {:induction false} WriteKeepsMirror(ring: seq<int>, stream: seq<int>, data: seq<int>)
    requires Mirrors(ring, stream) && |data| <= |ring|
    ensures Mirrors(Overwrite(ring, |stream| % |ring|, data), stream + data)
  {
    var n, m, all := |ring|, |stream|, stream + data;
    var r := Overwrite(ring, m % n, data);
    if |data| == 0 {
      assert r == ring && all == stream;
    } else {
      forall p | 0 <= p < |all| && |all| - n <= p ensures r[p % n] == all[p] {
        if p >= m {
          AheadOfNew(m, p - m, n);
        } else {
          AheadOfOld(p, m, n);
        }
      }
    }
  }

  lemma {:induction false} AheadOfNew(m: nat, i: nat, n: int)
    requires i < n
    ensures 0 <= (m + i) % n < n && Ahead((m + i) % n, m % n, n) == i
  {
    ModAdd(m, i, n);
    InRange(m, n);
  }

  lemma {:induction false} AheadOfOld(p: nat, m: nat, n: int)
    requires 0 < m - p < n
    ensures 0 <= p % n < n && Ahead(p % n, m % n, n) == n - (m - p)
  {
    ModAdd(p, m - p, n);
    InRange(p, n);
  }

  /** Padding with a whole turn of zeros or more leaves a buffer of zeros. */
  lemma {:induction false} ZerosKeepMirror(stream: seq<int>, n: nat, pad: nat)
    requires 0 < n <= pad
    ensures Mirrors(Zeros(n), stream + Zeros(pad))
  {
  }

  /** Reading inside the window yields the stream. */
  lemma {:induction false} ReadMirrored(ring: seq<int>, stream: seq<int>, p: nat, n: nat)
    requires Mirrors(ring, stream) && |stream| - |ring| <= p && p + n <= |stream|
    ensures n <= |ring|
    ensures Extract(ring, p % |ring|, n) == stream[p..p + n]
  {
    forall i | 0 <= i < n ensures Extract(ring, p % |ring|, n)[i] == stream[p + i] {
      ModAdd(p, i, |ring|);
    }
  }

  /** Stepping once round a circle. */
  lemma {:induction false} NextRemainder(p: int, n: int)
    requires 0 <= p < n
    ensures (p + 1) % n == if p + 1 < n then p + 1 else 0
  {
    if p + 1 < n {
      ModUnique(p + 1, 0, p + 1, n);
    } else {
      ModUnique(p + 1, 1, 0, n);
    }
  }
}
