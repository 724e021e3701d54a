/** Reading local-size slots out of peer-size packets, without the worker thread. */
module Rechunking {
  import opened Numbers

  type Bytes = seq<int>

  /** How many packets make a slot, over how many slots a packet makes. */
  datatype Ratio = Ratio(numerator: int, denominator: int)

  function FppRatio(peer: int, local: int): Ratio
    requires peer > 0 && local > 0
  {
    if peer == local then Ratio(1, 1)
    else if peer > local then Ratio(1, peer / local)
    else Ratio(local / peer, 1)
  }

  predicate Divides(a: int, b: int)
    requires a > 0
  {
    b % a == 0
  }

  predicate OneDivides(peer: int, local: int)
    requires peer > 0 && local > 0
  {
    Divides(peer, local) || Divides(local, peer)
  }

  lemma {:induction false} QuotientIsExact(a: int, b: int)
    requires a > 0 && b > 0
    ensures (b / a) * a == b <==> Divides(a, b)
    ensures b / a >= 0 && (b / a) * a <= b < (b / a) * a + a
  {
    var q, r := b / a, b % a;
    assert b == q * a + r;
    if q < 0 {
      AtLeastOnce(-q, a);
      DifferenceProduct(0, q, a);
    }
  }

  /** The integer ratio stands for the two sizes exactly when one divides the other. */
  lemma {:induction false} RatioIsExact(peer: int, local: int)
    requires peer > 0 && local > 0
    ensures var r := FppRatio(peer, local);
            r.numerator * peer == r.denominator * local <==> OneDivides(peer, local)
  {
    QuotientIsExact(local, peer);
    QuotientIsExact(peer, local);
    if peer < local {
      SmallNotDivided(peer, local);
    } else if local < peer {
      SmallNotDivided(local, peer);
    }
  }

  lemma SmallNotDivided(a: int, b: int)
    requires 0 < a < b
    ensures !Divides(b, a)
  {
  }

  lemma {:induction false} RatioShape(peer: int, local: int)
    requires peer > 0 && local > 0
    ensures var r := FppRatio(peer, local);
            r.numerator >= 1 && r.denominator >= 1 && (r.numerator == 1 || r.denominator == 1)
  {
    QuotientIsExact(local, peer);
    QuotientIsExact(peer, local);
  }

  /** Counting bytes instead of frames changes neither the quotient nor whether it is exact. */
  lemma {:induction false} ScaledQuotient(a: int, b: int, frame: int)
    requires a > 0 && b > 0 && frame > 0
    ensures a * frame > 0 && (b * frame) / (a * frame) == b / a
    ensures Divides(a * frame, b * frame) <==> Divides(a, b)
  {
    var q, r := b / a, b % a;
    var n := a * frame;
    PositiveProduct(a, frame);
    ProductGrows(0, r, frame);
    ProductGrows(r + 1, a, frame);
    NextProduct(r, frame);
    assert b * frame == q * n + r * frame by {
      assert b == q * a + r;
      assert (q * a) * frame == q * n;
    }
    ModUnique(b * frame, q, r * frame, n);
    if r > 0 {
      PositiveProduct(r, frame);
    }
  }

  lemma {:induction false} ScaledRatio(peer: int, local: int, frame: int)
    requires peer > 0 && local > 0 && frame > 0
    ensures peer * frame > 0 && local * frame > 0
    ensures FppRatio(peer * frame, local * frame) == FppRatio(peer, local)
    ensures OneDivides(peer * frame, local * frame) <==> OneDivides(peer, local)
  {
    ScaledQuotient(peer, local, frame);
    ScaledQuotient(local, peer, frame);
    if peer < local {
      NextProduct(peer, frame);
      ProductGrows(peer + 1, local, frame);
    } else if local < peer {
      NextProduct(local, frame);
      ProductGrows(local + 1, peer, frame);
    }
  }

  // ---------------------------------------------------------------------------------------
  // The pull pointer

  /** How many packets have been pulled, and the pull pointer; -1 for none. */
  datatype Cut = Cut(pulls: nat, ptr: int)

  predicate UsedUp(peer: int, ptr: int) {
    ptr == -1 || ptr >= peer
  }

  /** Where the next read starts in the transfer buffer. */
  function StartOf(peer: int, local: int, ptr: int): int
    requires peer > 0 && local > 0
  {
    if FppRatio(peer, local).denominator == 1 || UsedUp(peer, ptr) then 0 else ptr
  }

  function PullsOf(peer: int, local: int, ptr: int): int
    requires peer > 0 && local > 0
  {
    var r := FppRatio(peer, local);
    if r.denominator == 1 then r.numerator else if UsedUp(peer, ptr) then 1 else 0
  }

  function NextPtr(peer: int, local: int, ptr: int): int
    requires peer > 0 && local > 0
  {
    if FppRatio(peer, local).denominator == 1 then ptr else StartOf(peer, local, ptr) + local
  }

  /** After n reads. */
  function After(peer: int, local: int, n: nat): (c: Cut)
    requires peer > 0 && local > 0
    ensures c.ptr == -1 || 0 <= c.ptr < peer + local
  {
    if n == 0 then Cut(0, -1)
    else
      var c := After(peer, local, n - 1);
      RatioShape(peer, local);
      Cut(c.pulls + PullsOf(peer, local, c.ptr), NextPtr(peer, local, c.ptr))
  }

  /** A read with this pull pointer takes no byte from behind the transfer buffer. */
  predicate StaysInside(peer: int, local: int, ptr: int)
    requires peer > 0 && local > 0
  {
    FppRatio(peer, local).numerator > 1 || StartOf(peer, local, ptr) + local <= peer
  }

  /** Sizes that the source can cut: the packet is a whole number of slots or, for other sizes, makes
      one slot with frames left over, or takes at least two to the slot. */
  predicate Cuttable(peer: int, local: int)
    requires peer > 0 && local > 0
  {
    if local <= peer then Divides(local, peer) || peer / local == 1 else local / peer >= 2
  }

  /** Every read stays inside the packet exactly for cuttable sizes; when the packet is at least two
      slots long, exactly when the slot divides it. */
  lemma {:induction false} ReadsStayInside(peer: int, local: int)
    requires peer > 0 && local > 0
    ensures (forall n: nat :: StaysInside(peer, local, After(peer, local, n).ptr)) <==> Cuttable(peer, local)
    ensures peer / local >= 2 ==> (Cuttable(peer, local) <==> Divides(local, peer))
  {
    hide After, StaysInside, FppRatio, Cuttable;
    CuttableCases(peer, local);
    if FppRatio(peer, local).denominator == 1 {
      WholesStayInside(peer, local);
      assert StaysInside(peer, local, After(peer, local, 0).ptr) <==> Cuttable(peer, local);
    } else if Divides(local, peer) {
      forall n: nat ensures StaysInside(peer, local, After(peer, local, n).ptr) {
        DividingStaysInside(peer, local, n);
      }
    } else {
      RemainderLeaves(peer, local);
    }
  }

  lemma {:induction false} CuttableCases(peer: int, local: int)
    requires peer > 0 && local > 0
    ensures var r := FppRatio(peer, local);
            if r.denominator == 1 then Cuttable(peer, local) <==> local <= peer || r.numerator > 1
            else peer > local && r.denominator > 1 && (Cuttable(peer, local) <==> Divides(local, peer))
    ensures peer / local >= 2 ==> FppRatio(peer, local).denominator > 1
  {
    QuotientIsExact(local, peer);
    QuotientIsExact(peer, local);
  }

  lemma {:induction false} WholesStayInside(peer: int, local: int)
    requires peer > 0 && local > 0 && FppRatio(peer, local).denominator == 1
    ensures forall n: nat ::
      StaysInside(peer, local, After(peer, local, n).ptr) <==> local <= peer || FppRatio(peer, local).numerator > 1
  {
    hide After;
  }

  /** The read after the last whole slot. */
  lemma {:induction false} RemainderLeaves(peer: int, local: int)
    requires peer > local > 0 && FppRatio(peer, local).denominator > 1 && !Divides(local, peer)
    ensures peer / local >= 0 && !StaysInside(peer, local, After(peer, local, peer / local).ptr)
  {
    hide After;
    var q := peer / local;
    QuotientIsExact(local, peer);
    NextProduct(q - 1, local);
    FirstPacket(peer, local, q);
  }

  lemma {:induction false} DividingStaysInside(peer: int, local: int, n: nat)
    requires peer > local > 0 && FppRatio(peer, local).denominator > 1 && Divides(local, peer)
    ensures StaysInside(peer, local, After(peer, local, n).ptr)
  {
    hide After, FppRatio;
    var j := PtrIsMultiple(peer, local, n);
    RoomForOne(j, peer / local, local);
  }

  lemma {:induction false} DividingStays(peer: int, local: int, n: nat)
    requires peer > 0 && local > 0 && OneDivides(peer, local)
    ensures StaysInside(peer, local, After(peer, local, n).ptr)
  {
    hide After, StaysInside;
    ReadsStayInside(peer, local);
    QuotientIsExact(peer, local);
    if local < peer {
      SmallNotDivided(local, peer);
    }
    assert Cuttable(peer, local);
  }

  /** One such input: of a packet of 5 frames and slots of 2, the third read starts at 4. */
  lemma ThirdReadLeaves()
    ensures FppRatio(5, 2) == Ratio(1, 2) && After(5, 2, 2) == Cut(1, 4) && !StaysInside(5, 2, 4)
  {
    hide After;
    FirstPacket(5, 2, 2);
  }

  /** The reads of the first packet start one slot apart, up to the first start past the last whole slot. */
  lemma {:induction false} FirstPacket(peer: int, local: int, n: nat)
    requires peer > local > 0 && FppRatio(peer, local).denominator > 1
    requires 1 <= n && (n - 1) * local < peer
    ensures After(peer, local, n) == Cut(1, n * local)
  {
    if n > 1 {
      NextProduct(n - 1, local);
      NextProduct(n - 2, local);
      NonNegativeProduct(n - 1, local);
      FirstPacket(peer, local, n - 1);
    } else {
      assert After(peer, local, 0) == Cut(0, -1);
    }
  }

  /** For sizes that divide, the pointer is always at a whole number of slots, and what has been read
      and what remains is what was pulled. */
  lemma {:induction false} PtrIsMultiple(peer: int, local: int, n: nat) returns (j: int)
    requires peer > local > 0 && FppRatio(peer, local).denominator > 1 && Divides(local, peer)
    ensures 0 <= j <= peer / local && peer == (peer / local) * local
    ensures var c := After(peer, local, n);
            && c.ptr == (if n == 0 then -1 else j * local) && (n == 0 ==> j == peer / local)
            && n * local + (peer - j * local) == c.pulls * peer
            && (UsedUp(peer, c.ptr) <==> j == peer / local)
  {
    var q := peer / local;
    QuotientIsExact(local, peer);
    if n == 0 {
      j := q;
    } else {
      var i := PtrIsMultiple(peer, local, n - 1);
      NextProduct(n - 1, local);
      var was := After(peer, local, n - 1);
      if i == q {
        j := 1;
        NextProduct(was.pulls, peer);
        ProductGrows(2, q, local);
      } else {
        j := i + 1;
        NextProduct(i, local);
        RoomForOne(i, q, local);
        if j < q {
          RoomForOne(j, q, local);
        }
      }
    }
  }

  lemma {:induction false} RoomForOne(j: int, q: int, local: int)
    requires 0 <= j <= q && 0 < local
    ensures j < q ==> j * local < q * local && j * local + local <= q * local
  {
    NextProduct(j, local);
    if j < q {
      ProductGrows(j + 1, q, local);
    }
  }

  /** The reads keep up with the pulls: nothing is read that was not pulled, and less than one packet or
      slot is pulled ahead. */
  predicate KeepsUp(peer: int, local: int, n: nat)
    requires peer > 0 && local > 0
  {
    n * local <= After(peer, local, n).pulls * peer < n * local + MaxInt(peer, local)
  }

  /** They do so for ever exactly when one size divides the other. */
  lemma {:induction false} ReadsKeepUp(peer: int, local: int)
    requires peer > 0 && local > 0
    ensures (forall n: nat :: KeepsUp(peer, local, n)) <==> OneDivides(peer, local)
  {
    if OneDivides(peer, local) {
      forall n: nat ensures KeepsUp(peer, local, n) {
        DividingKeepsUp(peer, local, n);
      }
    } else {
      var n := FallsBehind(peer, local);
      assert !KeepsUp(peer, local, n);
    }
  }

  lemma {:induction false} DividingKeepsUp(peer: int, local: int, n: nat)
    requires peer > 0 && local > 0 && OneDivides(peer, local)
    ensures KeepsUp(peer, local, n)
  {
    hide After, KeepsUp;
    RatioShape(peer, local);
    if FppRatio(peer, local).denominator == 1 {
      RatioIsExact(peer, local);
      WholesKeepUp(peer, local, n);
    } else {
      SmallNotDivided(local, peer);
      PiecesKeepUp(peer, local, n);
    }
  }

  lemma {:induction false} WholesKeepUp(peer: int, local: int, n: nat)
    requires peer > 0 && local > 0 && FppRatio(peer, local).denominator == 1
    requires FppRatio(peer, local).numerator * peer == local
    ensures KeepsUp(peer, local, n)
  {
    hide After, FppRatio;
    var k := FppRatio(peer, local).numerator;
    PullsAreFixed(peer, local, n);
    assert (n * k) * peer == n * (k * peer);
  }

  lemma {:induction false} PiecesKeepUp(peer: int, local: int, n: nat)
    requires peer > local > 0 && FppRatio(peer, local).denominator > 1 && Divides(local, peer)
    ensures KeepsUp(peer, local, n)
  {
    hide After, FppRatio;
    var j := PtrIsMultiple(peer, local, n);
    if n > 0 {
      PtrIsPositive(peer, local, n);
    }
    RoomForOne(j, peer / local, local);
  }

  lemma {:induction false} PullsAreFixed(peer: int, local: int, n: nat)
    requires peer > 0 && local > 0 && FppRatio(peer, local).denominator == 1
    ensures After(peer, local, n).pulls == n * FppRatio(peer, local).numerator
  {
    if n > 0 {
      PullsAreFixed(peer, local, n - 1);
      NextProduct(n - 1, FppRatio(peer, local).numerator);
    }
  }

  lemma PtrIsPositive(peer: int, local: int, n: nat)
    requires peer > 0 && local > 0 && FppRatio(peer, local).denominator != 1 && n > 0
    ensures After(peer, local, n).ptr > 0
  {
    RatioShape(peer, local);
  }

  lemma {:induction false} FallsBehind(peer: int, local: int) returns (n: nat)
    requires peer > 0 && local > 0 && !OneDivides(peer, local)
    ensures !KeepsUp(peer, local, n)
  {
    QuotientIsExact(local, peer);
    QuotientIsExact(peer, local);
    if FppRatio(peer, local).denominator > 1 {
      // the slot after the last whole one reads what was not pulled
      var q := peer / local;
      n := q + 1;
      FirstPacket(peer, local, n);
      NextProduct(q, local);
    } else if local < peer {
      // frames are left over in every packet
      n := peer;
      PullsAreFixed(peer, local, n);
      DifferenceProduct(peer, local, peer);
      ProductGrows(1, peer - local, peer);
    } else {
      // the packets of the first slot do not fill it
      n := 1;
      PullsAreFixed(peer, local, n);
    }
  }

  // ---------------------------------------------------------------------------------------
  // The reader

  function Flat(packets: seq<Bytes>): Bytes {
    if |packets| == 0 then [] else Flat(packets[..|packets| - 1]) + packets[|packets| - 1]
  }

  lemma FlatAppend(packets: seq<Bytes>, p: Bytes)
    ensures Flat(packets + [p]) == Flat(packets) + p
  {
    assert (packets + [p])[..|packets|] == packets;
  }

  /** The side of the Regulator that cuts pulled packets into slots.  `feed` is what the next pulls
      will leave in the transfer buffer; after it, pulls leave silence. */
  class SlotReader {
    const peerBytes: nat
    const localBytes: nat
    const ratio: Ratio
    var feed: seq<Bytes>
    var xfrBuffer: Bytes
    var xfrPullPtr: int             // offset into the transfer buffer; -1 for none
    ghost var pulled: seq<Bytes>     // every packet pulled so far
    ghost var heard: Bytes           // every byte handed to the audio callback so far
    ghost var count: nat

    /** The bytes of the transfer buffer that have not been handed out. */
    ghost function Remaining(): Bytes
      reads this
    {
      if ratio.denominator == 1 || xfrPullPtr < 0 || xfrPullPtr > |xfrBuffer| then [] else xfrBuffer[xfrPullPtr..]
    }

    ghost predicate Sized()
      reads this
    {
      && peerBytes > 0 && localBytes > 0 && ratio == FppRatio(peerBytes, localBytes)
      && |xfrBuffer| == peerBytes && -1 <= xfrPullPtr
      && forall k :: 0 <= k < |feed| ==> |feed[k]| == peerBytes
    }

    /** What has been heard, followed by what is left of the transfer buffer, is what was pulled. */
    ghost predicate Continuous()
      reads this
    {
      xfrPullPtr <= |xfrBuffer| && Flat(pulled) == heard + Remaining()
    }

    ghost predicate Valid()
      reads this
    {
      && Sized()
      && After(peerBytes, localBytes, count) == Cut(|pulled|, xfrPullPtr)
      && |heard| == count * localBytes
      && (OneDivides(peerBytes, localBytes) ==> Continuous())
    }

    constructor (peerFPP: int, localFPP: int, frame: int, packets: seq<Bytes>)
      requires peerFPP > 0 && localFPP > 0 && frame > 0
      requires forall k :: 0 <= k < |packets| ==> |packets[k]| == peerFPP * frame
      ensures Valid() && feed == packets && pulled == [] && heard == [] && count == 0
      ensures peerBytes == peerFPP * frame && localBytes == localFPP * frame && ratio == FppRatio(peerFPP, localFPP)
      ensures OneDivides(peerBytes, localBytes) <==> OneDivides(peerFPP, localFPP)
    {
      ScaledRatio(peerFPP, localFPP, frame);
      peerBytes, localBytes, ratio := peerFPP * frame, localFPP * frame, FppRatio(peerFPP, localFPP);
      feed := packets;
      xfrBuffer := seq(peerFPP * frame, _ => 0);
      xfrPullPtr := -1;
      pulled, heard, count := [], [], 0;
    }

    method PullPacket()
      requires Sized()
      modifies `feed, `xfrBuffer, `pulled
      ensures Sized() && pulled == old(pulled) + [xfrBuffer] && Flat(pulled) == Flat(old(pulled)) + xfrBuffer
      ensures if old(feed) == [] then xfrBuffer == seq(peerBytes, _ => 0) && feed == []
              else xfrBuffer == old(feed)[0] && feed == old(feed)[1..]
    {
      if |feed| == 0 {
        xfrBuffer := seq(peerBytes, _ => 0);
      } else {
        xfrBuffer, feed := feed[0], feed[1..];
      }
      FlatAppend(pulled, xfrBuffer);
      pulled := pulled + [xfrBuffer];
    }

    /** Fills a slot.  `slot` is what it held before and `beyond` what lies behind the transfer buffer;
        `inside` tells that none of the latter was read.  If one size divides the other, every read
        continues where the last one ended. */
    method ReadSlotNonBlocking(slot: Bytes, beyond: Bytes) returns (out: Bytes, inside: bool)
      requires Valid() && |slot| == |beyond| == localBytes
      modifies this
      ensures Valid() && count == old(count) + 1 && |out| == localBytes && heard == old(heard) + out
      ensures inside <==> StaysInside(peerBytes, localBytes, old(xfrPullPtr))
      ensures FilledFrom(out, old(pulled), old(xfrPullPtr), slot, beyond)
      ensures OneDivides(peerBytes, localBytes) ==>
        heard <= Flat(pulled) && |Flat(pulled)| < |heard| + MaxInt(peerBytes, localBytes)
    {
      hide Flat, After, StaysInside, FppRatio;
      ghost var ptr := xfrPullPtr;
      out, inside := FillSlot(slot, beyond);
      NextProduct(count, localBytes);
      NextCut(count, ptr);
      if OneDivides(peerBytes, localBytes) {
        DividingStays(peerBytes, localBytes, count);
      }
      count := count + 1;
      if OneDivides(peerBytes, localBytes) {
        LessThanOneAhead();
      }
    }

    method FillSlot(slot: Bytes, beyond: Bytes) returns (out: Bytes, inside: bool)
      requires Sized() && |slot| == |beyond| == localBytes
      modifies `feed, `xfrBuffer, `pulled, `heard, `xfrPullPtr
      ensures Sized() && |pulled| == |old(pulled)| + PullsOf(peerBytes, localBytes, old(xfrPullPtr))
      ensures xfrPullPtr == NextPtr(peerBytes, localBytes, old(xfrPullPtr))
      ensures |out| == localBytes && heard == old(heard) + out
      ensures inside <==> StaysInside(peerBytes, localBytes, old(xfrPullPtr))
      ensures FilledFrom(out, old(pulled), old(xfrPullPtr), slot, beyond)
      ensures OneDivides(peerBytes, localBytes) && inside && old(Continuous()) ==> Continuous()
    {
      hide Flat, OneDivides, Continuous;
      RatioShape(peerBytes, localBytes);
      if ratio.numerator == ratio.denominator {
        out, inside := ReadOne(beyond);
      } else if ratio.numerator > 1 {
        out := ReadWhole(slot);
        inside := true;
      } else {
        out, inside := ReadPiece(beyond);
      }
    }

    /** Where the bytes of a slot come from. */
    ghost predicate FilledFrom(out: Bytes, before: seq<Bytes>, ptr: int, slot: Bytes, beyond: Bytes)
      requires Sized() && |slot| == |beyond| == localBytes && -1 <= ptr
      reads this
    {
      && before <= pulled
      && if ratio.numerator > 1 then
           ratio.numerator * peerBytes <= localBytes &&
           out == Flat(pulled[|before|..]) + slot[ratio.numerator * peerBytes..]
         else
           var start := StartOf(peerBytes, localBytes, ptr);
           start <= peerBytes && out == (xfrBuffer + beyond)[start..start + localBytes]
    }

    lemma NextCut(n: nat, ptr: int)
      requires peerBytes > 0 && localBytes > 0 && After(peerBytes, localBytes, n).ptr == ptr
      ensures After(peerBytes, localBytes, n + 1).ptr == NextPtr(peerBytes, localBytes, ptr)
      ensures After(peerBytes, localBytes, n + 1).pulls
           == After(peerBytes, localBytes, n).pulls + PullsOf(peerBytes, localBytes, ptr)
    {
    }

    lemma LessThanOneAhead()
      requires Sized() && Continuous() && count > 0 && OneDivides(peerBytes, localBytes)
      requires After(peerBytes, localBytes, count) == Cut(|pulled|, xfrPullPtr)
      ensures heard <= Flat(pulled) && |Flat(pulled)| < |heard| + MaxInt(peerBytes, localBytes)
    {
      hide Flat, After;
      RatioShape(peerBytes, localBytes);
      if ratio.denominator > 1 {
        PtrIsPositive(peerBytes, localBytes, count);
      }
    }

    /** One packet makes one slot. */
    method ReadOne(beyond: Bytes) returns (out: Bytes, inside: bool)
      requires Sized() && ratio.numerator == ratio.denominator == 1 && |beyond| == localBytes
      modifies `feed, `xfrBuffer, `pulled, `heard
      ensures Sized() && |pulled| == |old(pulled)| + 1 && |out| == localBytes && heard == old(heard) + out
      ensures out == (xfrBuffer + beyond)[..localBytes] && old(pulled) <= pulled
      ensures inside <==> localBytes <= peerBytes
      ensures OneDivides(peerBytes, localBytes) && old(Continuous()) ==> Continuous()
    {
      hide Flat;
      RatioIsExact(peerBytes, localBytes);
      PullPacket();
      out := (xfrBuffer + beyond)[..localBytes];
      inside := localBytes <= peerBytes;
      heard := heard + out;
    }

    /** Several packets make one slot. */
    method ReadWhole(slot: Bytes) returns (out: Bytes)
      requires Sized() && ratio.numerator > 1 && ratio.denominator == 1 && |slot| == localBytes
      modifies `feed, `xfrBuffer, `pulled, `heard
      ensures Sized() && |pulled| == |old(pulled)| + ratio.numerator
      ensures |out| == localBytes && heard == old(heard) + out
      ensures ratio.numerator * peerBytes <= localBytes && old(pulled) <= pulled
      ensures out == Flat(pulled[|old(pulled)|..]) + slot[ratio.numerator * peerBytes..]
      ensures OneDivides(peerBytes, localBytes) && old(Continuous()) ==> Continuous()
    {
      hide Flat;
      RatioIsExact(peerBytes, localBytes);
      QuotientIsExact(peerBytes, localBytes);
      ghost var before := pulled;
      var copied: Bytes := [];
      FlatEmpty();
      assert pulled[|before|..] == [];
      for i := 0 to ratio.numerator
        invariant Sized() && |copied| == i * peerBytes && |pulled| == |before| + i && before <= pulled
        invariant copied == Flat(pulled[|before|..]) && Flat(pulled) == Flat(before) + copied
        modifies `feed, `xfrBuffer, `pulled
      {
        NextProduct(i, peerBytes);
        ghost var was := pulled;
        PullPacket();
        assert pulled[|before|..] == was[|before|..] + [xfrBuffer];
        FlatAppend(was[|before|..], xfrBuffer);
        copied := copied + xfrBuffer;
      }
      out := copied + slot[|copied|..];
      heard := heard + out;
    }

    /** Pulls a packet when the last one is used up. */
    method Refill()
      requires Sized() && ratio.numerator == 1 < ratio.denominator
      modifies `feed, `xfrBuffer, `pulled, `xfrPullPtr
      ensures Sized() && |pulled| == |old(pulled)| + PullsOf(peerBytes, localBytes, old(xfrPullPtr))
      ensures old(pulled) <= pulled
      ensures xfrPullPtr == StartOf(peerBytes, localBytes, old(xfrPullPtr)) && 0 <= xfrPullPtr < peerBytes
      ensures old(Continuous()) ==> Continuous()
    {
      hide Flat, FppRatio;
      if xfrPullPtr == -1 || xfrPullPtr >= peerBytes {
        PullPacket();
        xfrPullPtr := 0;
      }
    }

    /** One packet makes several slots. */
    method ReadPiece(beyond: Bytes) returns (out: Bytes, inside: bool)
      requires Sized() && ratio.numerator == 1 < ratio.denominator && |beyond| == localBytes
      modifies `feed, `xfrBuffer, `pulled, `heard, `xfrPullPtr
      ensures Sized() && |pulled| == |old(pulled)| + PullsOf(peerBytes, localBytes, old(xfrPullPtr))
      ensures xfrPullPtr == NextPtr(peerBytes, localBytes, old(xfrPullPtr))
      ensures |out| == localBytes && heard == old(heard) + out
      ensures var start := StartOf(peerBytes, localBytes, old(xfrPullPtr));
              start <= peerBytes && out == (xfrBuffer + beyond)[start..start + localBytes] && old(pulled) <= pulled
      ensures inside <==> StaysInside(peerBytes, localBytes, old(xfrPullPtr))
      ensures inside && old(Continuous()) ==> Continuous()
    {
      hide Flat, FppRatio;
      Refill();
      ghost var rest := xfrBuffer[xfrPullPtr..];
      out := (xfrBuffer + beyond)[xfrPullPtr..xfrPullPtr + localBytes];
      inside := xfrPullPtr + localBytes <= peerBytes;
      heard := heard + out;
      xfrPullPtr := xfrPullPtr + localBytes;
      assert inside ==> rest == out + xfrBuffer[xfrPullPtr..];
    }
  }

  lemma FlatEmpty()
    ensures Flat([]) == []
  {
  }
}
