/** Channel layouts: planar on the wire, interleaved in memory. */
module Planar {
  import opened Numbers

  /** Index of sample n of channel c: planar with `frames` samples a channel, and interleaved with
      `chans` channels. */
  function PlanarAt(n: int, c: int, frames: int): int { n + c * frames }
  function InterleavedAt(n: int, c: int, chans: int): int { n * chans + c }

  lemma {:induction false} Inside(n: int, c: int, frames: int, chans: int)
    requires 0 <= n < frames && 0 <= c < chans
    ensures 0 <= PlanarAt(n, c, frames) < frames * chans
    ensures 0 <= InterleavedAt(n, c, chans) < frames * chans
  {
    NonNegativeProduct(c, frames);
    NextProduct(c, frames);
    ProductGrows(c + 1, chans, frames);
    assert chans * frames == frames * chans;
    NonNegativeProduct(n, chans);
    NextProduct(n, chans);
    ProductGrows(n + 1, frames, chans);
  }

  lemma {:induction false} Apart(a: int, b: int, size: int)
    requires a < b && size > 0
    ensures a * size + size <= b * size
  {
    NextProduct(a, size);
    ProductGrows(a + 1, b, size);
  }

  /** Different samples never share an interleaved index. */
  lemma {:induction false} InterleavedInjective(n: int, c: int, n': int, c': int, chans: int)
    requires 0 <= c < chans && 0 <= c' < chans
    requires InterleavedAt(n, c, chans) == InterleavedAt(n', c', chans)
    ensures n == n' && c == c'
  {
    if n < n' {
      Apart(n, n', chans);
    } else if n' < n {
      Apart(n', n, chans);
    }
  }

  lemma {:induction false} PlanarInjective(n: int, c: int, n': int, c': int, frames: int)
    requires 0 <= n < frames && 0 <= n' < frames
    requires PlanarAt(n, c, frames) == PlanarAt(n', c', frames)
    ensures n == n' && c == c'
  {
    if c < c' {
      Apart(c, c', frames);
    } else if c' < c {
      Apart(c', c, frames);
    }
  }

  /** The planar samples are those of the interleaved ones, for the first `common` channels. */
  ghost predicate SameSamples(planar: seq<int>, interleaved: seq<int>, frames: int, chans: int, common: int)
    requires common <= chans && |interleaved| == frames * chans && |planar| >= frames * common
  {
    forall n, c :: 0 <= n < frames && 0 <= c < common ==>
      && 0 <= PlanarAt(n, c, frames) < |planar| && 0 <= InterleavedAt(n, c, chans) < |interleaved|
      && planar[PlanarAt(n, c, frames)] == interleaved[InterleavedAt(n, c, chans)]
  }

  /** On the wire channel c is the c-th run of `frames` samples; in memory it is every chans-th sample
      from the c-th on. */
  lemma {:induction false} SamplePlaces(planar: seq<int>, interleaved: seq<int>, frames: int, chans: int, common: int,
                                        n: int, c: int)
    requires common <= chans && |interleaved| == frames * chans && |planar| >= frames * common
    requires SameSamples(planar, interleaved, frames, chans, common) && 0 <= n < frames && 0 <= c < common
    ensures 0 <= c * frames + n < |planar| && 0 <= n * chans + c < |interleaved|
    ensures planar[c * frames + n] == interleaved[n * chans + c]
  {
    assert planar[PlanarAt(n, c, frames)] == interleaved[InterleavedAt(n, c, chans)];
  }

  /** The sender's conversion: interleaved to planar. */
  method Planarise(src: seq<int>, dst: array<int>, frames: nat, chans: nat)
    requires |src| == frames * chans == dst.Length
    modifies dst
    ensures SameSamples(dst[..], src, frames, chans, chans)
  {
    for n := 0 to frames
      invariant forall i, c :: 0 <= i < n && 0 <= c < chans ==>
        && 0 <= PlanarAt(i, c, frames) < dst.Length && 0 <= InterleavedAt(i, c, chans) < |src|
        && dst[PlanarAt(i, c, frames)] == src[InterleavedAt(i, c, chans)]
    {
      for c := 0 to chans
        invariant forall i, k :: 0 <= i < frames && 0 <= k < chans && (i < n || (i == n && k < c)) ==>
          && 0 <= PlanarAt(i, k, frames) < dst.Length && 0 <= InterleavedAt(i, k, chans) < |src|
          && dst[PlanarAt(i, k, frames)] == src[InterleavedAt(i, k, chans)]
      {
        Inside(n, c, frames, chans);
        ghost var was := dst[..];
        dst[n + c * frames] := src[n * chans + c];
        forall i, k | 0 <= i < frames && 0 <= k < chans && (i < n || (i == n && k <= c))
          ensures 0 <= PlanarAt(i, k, frames) < dst.Length && 0 <= InterleavedAt(i, k, chans) < |src|
          ensures dst[PlanarAt(i, k, frames)] == src[InterleavedAt(i, k, chans)]
        {
          Inside(i, k, frames, chans);
          if PlanarAt(i, k, frames) == PlanarAt(n, c, frames) {
            PlanarInjective(i, k, n, c, frames);
          } else {
            assert dst[PlanarAt(i, k, frames)] == was[PlanarAt(i, k, frames)];
          }
        }
      }
    }
  }

  /** The first `common` channels of the interleaved buffer are those of the planar one; every other
      index keeps its value. */
  ghost predicate Merged(was: seq<int>, planar: seq<int>, now: seq<int>, frames: int, chans: int, common: int)
    requires 0 <= common <= chans && |now| == |was| >= frames * chans && |planar| >= frames * common
  {
    && (forall n, c :: 0 <= n < frames && 0 <= c < common ==>
          && 0 <= PlanarAt(n, c, frames) < |planar| && 0 <= InterleavedAt(n, c, chans) < |now|
          && now[InterleavedAt(n, c, chans)] == planar[PlanarAt(n, c, frames)])
    && (forall i :: 0 <= i < |now| && Extra(i, chans, common) ==> now[i] == was[i])
  }

  /** Index i belongs to a channel the sender does not have. */
  ghost predicate Extra(i: int, chans: int, common: int) {
    chans > 0 && i % chans >= common
  }

  lemma {:induction false} ChannelOf(n: int, c: int, chans: int)
    requires 0 <= c < chans
    ensures InterleavedAt(n, c, chans) % chans == c
  {
    var i := n * chans + c;
    var q, r := i / chans, i % chans;
    assert i == InterleavedAt(q, r, chans);
    InterleavedInjective(n, c, q, r, chans);
  }

  /** The receiver's conversion: planar to interleaved, for the channels both sides have. */
  method Interleave(src: seq<int>, dst: array<int>, frames: nat, chans: nat, peerChans: nat) returns (common: nat)
    requires |src| == frames * peerChans && dst.Length >= frames * chans
    modifies dst
    ensures common == (if chans < peerChans then chans else peerChans)
    ensures frames * common <= |src|
    ensures Merged(old(dst[..]), src, dst[..], frames, chans, common)
  {
    common := if chans < peerChans then chans else peerChans;
    FewerFit(frames, common, peerChans);
    ghost var start := dst[..];
    for n := 0 to frames
      invariant forall i, c :: 0 <= i < n && 0 <= c < common ==>
        && 0 <= PlanarAt(i, c, frames) < |src| && 0 <= InterleavedAt(i, c, chans) < dst.Length
        && dst[InterleavedAt(i, c, chans)] == src[PlanarAt(i, c, frames)]
      invariant forall i :: 0 <= i < dst.Length && Extra(i, chans, common) ==> dst[i] == start[i]
    {
      for c := 0 to common
        invariant forall i, k :: 0 <= i < frames && 0 <= k < common && (i < n || (i == n && k < c)) ==>
          && 0 <= PlanarAt(i, k, frames) < |src| && 0 <= InterleavedAt(i, k, chans) < dst.Length
          && dst[InterleavedAt(i, k, chans)] == src[PlanarAt(i, k, frames)]
        invariant forall i :: 0 <= i < dst.Length && Extra(i, chans, common) ==> dst[i] == start[i]
      {
        Inside(n, c, frames, common);
        Inside(n, c, frames, chans);
        ChannelOf(n, c, chans);
        ghost var was := dst[..];
        dst[n * chans + c] := src[n + c * frames];
        forall i, k | 0 <= i < frames && 0 <= k < common && (i < n || (i == n && k <= c))
          ensures 0 <= PlanarAt(i, k, frames) < |src| && 0 <= InterleavedAt(i, k, chans) < dst.Length
          ensures dst[InterleavedAt(i, k, chans)] == src[PlanarAt(i, k, frames)]
        {
          Inside(i, k, frames, common);
          Inside(i, k, frames, chans);
          if InterleavedAt(i, k, chans) == InterleavedAt(n, c, chans) {
            InterleavedInjective(i, k, n, c, chans);
          } else {
            assert dst[InterleavedAt(i, k, chans)] == was[InterleavedAt(i, k, chans)];
          }
        }
      }
    }
  }

  lemma {:induction false} FewerFit(frames: nat, common: nat, chans: nat)
    requires common <= chans
    ensures frames * common <= frames * chans
  {
    ProductGrows(common, chans, frames);
    assert frames * common == common * frames && frames * chans == chans * frames;
  }

  /** Round trip: after planarising with `sent` channels and interleaving with `chans`, the channels
      both sides have carry the sender's samples; for equal counts the buffers are equal. */
  lemma {:induction false} RoundTrip(src: seq<int>, planar: seq<int>, was: seq<int>, now: seq<int>,
                                     frames: nat, sent: nat, chans: nat, common: nat)
    requires common == (if chans < sent then chans else sent)
    requires |src| == frames * sent == |planar| && |now| == |was| == frames * chans && frames * common <= |planar|
    requires SameSamples(planar, src, frames, sent, sent)
    requires Merged(was, planar, now, frames, chans, common)
    ensures forall n, c :: 0 <= n < frames && 0 <= c < common ==>
              && 0 <= InterleavedAt(n, c, chans) < |now| && 0 <= InterleavedAt(n, c, sent) < |src|
              && now[InterleavedAt(n, c, chans)] == src[InterleavedAt(n, c, sent)]
    ensures chans == sent ==> now == src
  {
    forall n, c | 0 <= n < frames && 0 <= c < common
      ensures 0 <= InterleavedAt(n, c, chans) < |now| && 0 <= InterleavedAt(n, c, sent) < |src|
      ensures now[InterleavedAt(n, c, chans)] == src[InterleavedAt(n, c, sent)]
    {
      Inside(n, c, frames, chans);
      Inside(n, c, frames, sent);
      assert planar[PlanarAt(n, c, frames)] == src[InterleavedAt(n, c, sent)];
    }
    if chans == sent {
      forall i | 0 <= i < |now| ensures now[i] == src[i] {
        var n, c := Locate(i, frames, chans);
        assert now[InterleavedAt(n, c, chans)] == src[InterleavedAt(n, c, sent)];
      }
    }
  }

  lemma {:induction false} Locate(i: int, frames: int, chans: int) returns (n: int, c: int)
    requires 0 <= i < frames * chans && frames >= 0 && chans >= 0
    ensures 0 <= n < frames && 0 <= c < chans && InterleavedAt(n, c, chans) == i
  {
    PositiveFactor(frames, chans);
    n, c := i / chans, i % chans;
    assert i == n * chans + c;
    if n >= frames {
      ProductGrows(frames, n, chans);
    } else if n < 0 {
      Apart(n, 0, chans);
    }
  }

  lemma {:induction false} PositiveFactor(a: int, b: int)
    requires a >= 0 && b >= 0 && a * b > 0
    ensures b > 0
  {
  }

  /** Packet after packet into the same buffer, the receiver's extra channels stay silent. */
  lemma {:induction false} ExtraChannelsStaySilent(buffers: seq<seq<int>>, packets: seq<seq<int>>, frames: nat,
                                                   chans: nat, common: nat)
    requires common <= chans && |buffers| == |packets| + 1
    requires forall k :: 0 <= k < |buffers| ==> |buffers[k]| == frames * chans
    requires forall k :: 0 <= k < |packets| ==> |packets[k]| >= frames * common
    requires forall k :: 0 <= k < |packets| ==>
               |buffers[k]| == |buffers[k + 1]| && Merged(buffers[k], packets[k], buffers[k + 1], frames, chans, common)
    requires forall i :: 0 <= i < frames * chans && Extra(i, chans, common) ==> buffers[0][i] == 0
    ensures forall i :: 0 <= i < frames * chans && Extra(i, chans, common) ==> buffers[|packets|][i] == 0
  {
    if |packets| > 0 {
      var m := |packets| - 1;
      ExtraChannelsStaySilent(buffers[..m + 1], packets[..m], frames, chans, common);
      assert Merged(buffers[m], packets[m], buffers[m + 1], frames, chans, common);
    }
  }
}
