/** The Regulator's packet ring: 4096 slots addressed by circular sequence numbers, a one-packet
    stash, and the choice of the packet to play next. */
module Regulator {

  const NUM_SLOTS: int := 4096

  /** gUdpWaitTimeout, in milliseconds. */
  const UDP_WAIT_TIMEOUT: real := 512.0

  type Packet = seq<int>

  /** The fields that pushing and pulling read and write. */
  datatype State = State(
    timing: seq<real>,    // arrival stamp of each slot, milliseconds
    slots: seq<Packet>,
    lastIn: int,          // -1 before the first push
    lastOut: int,         // -1 before the first delivery
    stash: int,           // -1 when empty
    overruns: int,
    skipped: int,
    underruns: int)

  ghost predicate WellFormed(s: State) {
    && |s.timing| == |s.slots| == NUM_SLOTS
    && -1 <= s.lastIn < NUM_SLOTS && -1 <= s.lastOut < NUM_SLOTS && -1 <= s.stash < NUM_SLOTS
  }

  /** What a pull leaves in the transfer buffer. */
  datatype Outcome =
    | Silence             // zeros, startup
    | Stuck               // zeros, the peer has been quiet for too long
    | Real(packet: Packet)
    | Concealed           // a predicted packet

  function Initial(slots: seq<Packet>): State
    requires |slots| == NUM_SLOTS
  {
    State(seq(NUM_SLOTS, _ => 0.0), slots, -1, -1, -1, 0, 0, 0)
  }

  // ---------------------------------------------------------------------------------------
  // Push

  /** The newest number after number n has arrived while `last` was the newest. */
  function Newest(last: int, n: int): int {
    if last == -1 || n > last || (n < last && last - n > NUM_SLOTS / 2) then n else last
  }

  function Push(s: State, buf: Packet, seqNum: nat, now: real): State
    requires WellFormed(s)
  {
    var n := seqNum % NUM_SLOTS;
    s.(timing := s.timing[n := now], slots := s.slots[n := buf], lastIn := Newest(s.lastIn, n))
  }

  // ---------------------------------------------------------------------------------------
  // Pull

  /** How many numbers lie after the last one out, up to the newest one in. */
  function Behind(s: State): (d: int)
    requires WellFormed(s) && s.lastIn != -1
    ensures 0 <= d <= NUM_SLOTS
  {
    if s.lastIn < s.lastOut then s.lastIn - s.lastOut + NUM_SLOTS else s.lastIn - s.lastOut
  }

  /** The slot p places after the last one out. */
  function SlotAt(s: State, p: int): (n: int)
    ensures 0 <= n < NUM_SLOTS
  {
    (s.lastOut + p) % NUM_SLOTS
  }

  /** The slot p places on was never filled: its stamp is too old beside the last one out. */
  predicate Missing(s: State, p: int, tolerance: real)
    requires WellFormed(s)
  {
    && s.lastOut != -1
    && s.timing[SlotAt(s, p)] < s.timing[s.lastOut]
    && s.timing[s.lastOut] - s.timing[SlotAt(s, p)] > tolerance
  }

  predicate WithinTolerance(s: State, p: int, now: real, tolerance: real)
    requires WellFormed(s)
  {
    s.timing[SlotAt(s, p)] + tolerance >= now
  }

  predicate Candidate(s: State, p: int, now: real, tolerance: real)
    requires WellFormed(s) && s.lastIn != -1
  {
    !Missing(s, p, tolerance) && (WithinTolerance(s, p, now, tolerance) || p == Behind(s))
  }

  /** The first candidate at or after p; one past the newest when there is none. */
  function Choose(s: State, p: int, now: real, tolerance: real): (r: int)
    requires WellFormed(s) && s.lastIn != -1 && 1 <= p <= Behind(s) + 1
    ensures p <= r <= Behind(s) + 1
    ensures r <= Behind(s) ==> Candidate(s, r, now, tolerance)
    ensures forall q :: p <= q < r ==> !Candidate(s, q, now, tolerance)
    decreases Behind(s) + 1 - p
  {
    if p > Behind(s) || Candidate(s, p, now, tolerance) then p
    else Choose(s, p + 1, now, tolerance)
  }

  function Underrun(s: State, now: real): (State, Outcome)
    requires WellFormed(s) && s.lastIn != -1
  {
    (s.(underruns := s.underruns + 1),
     if s.lastOut == s.lastIn && now - s.timing[s.lastOut] > UDP_WAIT_TIMEOUT then Stuck else Concealed)
  }

  function Deliver(s: State, slot: int): (State, Outcome)
    requires WellFormed(s) && 0 <= slot < NUM_SLOTS
  {
    (s.(lastOut := slot), Real(s.slots[slot]))
  }

  function Pull(s: State, now: real, tolerance: real): (State, Outcome)
    requires WellFormed(s)
  {
    if s.lastIn == -1 || now < tolerance then (s, Silence)
    else if s.stash != -1 then Deliver(s.(stash := -1), s.stash)
    else if s.lastIn == s.lastOut then Underrun(s, now)
    else
      var p := Choose(s, 1, now, tolerance);
      if p > Behind(s) then Underrun(s, now)
      else if s.lastOut == -1 || p == 1 then Deliver(s, SlotAt(s, p))
      else if p == 2 && !Missing(s, 1, tolerance) then
        Deliver(s.(stash := SlotAt(s, 2)), SlotAt(s, 1))
      else
        (s.(overruns := s.overruns + p - 1, skipped := s.skipped + p - 1, stash := SlotAt(s, p)), Concealed)
  }

  lemma ChooseStep(s: State, p: int, now: real, tolerance: real)
    requires WellFormed(s) && s.lastIn != -1 && 1 <= p <= Behind(s)
    ensures Choose(s, p, now, tolerance)
         == if Candidate(s, p, now, tolerance) then p else Choose(s, p + 1, now, tolerance)
    ensures Choose(s, Behind(s) + 1, now, tolerance) == Behind(s) + 1
  {
  }

  /** The search covers every number after the last one out. */
  lemma BehindIs(s: State)
    requires WellFormed(s) && s.lastIn != -1
    ensures var d := s.lastIn - s.lastOut; Behind(s) == if d < 0 then d + NUM_SLOTS else d
  {
  }

  /** Counting i back from the newest packet reaches the slot Behind - i places after the last out. */
  lemma CircularSlot(s: State, i: int)
    requires WellFormed(s) && s.lastIn != -1 && 0 <= i < Behind(s)
    ensures SlotAt(s, Behind(s) - i) == if s.lastIn - i < 0 then s.lastIn - i + NUM_SLOTS else s.lastIn - i
    ensures s.lastOut != -1 ==>
      var d := SlotAt(s, Behind(s) - i) - s.lastOut - 1;
      Behind(s) - i - 1 == if d < 0 then d + NUM_SLOTS else d
  {
  }

  // ---------------------------------------------------------------------------------------
  // The imperative ring

  class PacketRing {
    const incomingTiming: array<real>
    const slots: array<Packet>
    var lastSeqNumIn: int
    var lastSeqNumOut: int
    var stashedPacket: int
    var plcOverruns: int
    var skippedTotal: int
    var plcUnderruns: int

    ghost predicate Valid()
      reads this
    {
      && incomingTiming.Length == slots.Length == NUM_SLOTS
      && -1 <= lastSeqNumIn < NUM_SLOTS && -1 <= lastSeqNumOut < NUM_SLOTS
      && -1 <= stashedPacket < NUM_SLOTS
    }

    ghost function Value(): (s: State)
      requires Valid()
      reads this, incomingTiming, slots
      ensures WellFormed(s)
    {
      State(incomingTiming[..], slots[..], lastSeqNumIn, lastSeqNumOut, stashedPacket,
            plcOverruns, skippedTotal, plcUnderruns)
    }

    constructor ()
      ensures Valid() && fresh(incomingTiming) && fresh(slots)
      ensures Value() == Initial(Value().slots)
    {
      incomingTiming := new real[NUM_SLOTS](_ => 0.0);
      slots := new Packet[NUM_SLOTS];
      lastSeqNumIn, lastSeqNumOut, stashedPacket := -1, -1, -1;
      plcOverruns, skippedTotal, plcUnderruns := 0, 0, 0;
    }

    method PushPacket(buf: Packet, seqNum: nat, now: real)
      requires Valid()
      modifies `lastSeqNumIn, incomingTiming, slots
      ensures Valid() && Value() == Push(old(Value()), buf, seqNum, now)
    {
      var n := seqNum % NUM_SLOTS;
      incomingTiming[n] := now;
      slots[n] := buf;
      var newestIn := lastSeqNumIn;
      if newestIn == -1 || n > newestIn || (n < newestIn && newestIn - n > NUM_SLOTS / 2) {
        lastSeqNumIn := n;
      }
    }

    /** The glue from the network side: a packet without a number is dropped silently. */
    method InsertSlotNonBlocking(buf: Packet, seqNum: int, now: real)
      requires Valid() && seqNum >= -1
      modifies `lastSeqNumIn, incomingTiming, slots
      ensures Valid()
      ensures Value() == if seqNum == -1 then old(Value()) else Push(old(Value()), buf, seqNum, now)
    {
      if seqNum == -1 {
        return;
      }
      PushPacket(buf, seqNum, now);
    }

    /** The search through the new packets, oldest first, that reads but does not write the ring. */
    method FindCandidate(now: real, tolerance: real, newestIn: int)
      returns (found: bool, next: int, skipped: int, firstGoodSkipped: int)
      requires Valid() && newestIn == lastSeqNumIn != -1
      ensures var s := Value();
              var p := Choose(s, 1, now, tolerance);
              && (found <==> p <= Behind(s))
              && (found ==> next == SlotAt(s, p) && skipped == if s.lastOut == -1 then 0 else p - 1)
              && (found && p == 2 ==>
                    firstGoodSkipped == if Missing(s, 1, tolerance) then -1 else SlotAt(s, 1))
    {
      hide Choose, SlotAt, Behind;
      skipped := 0;
      firstGoodSkipped := -1;
      next := -1;
      var newPkts := newestIn - lastSeqNumOut;
      if newPkts < 0 {
        newPkts := newPkts + NUM_SLOTS;
      }
      ghost var s := Value();
      BehindIs(s);
      for i := newPkts downto 0
        invariant newPkts == Behind(s)
        invariant Choose(s, 1, now, tolerance) == Choose(s, newPkts - i + 1, now, tolerance)
        invariant s.lastOut == -1 ==> skipped == 0
        invariant i == newPkts ==> firstGoodSkipped == -1
        invariant i == newPkts - 1 ==>
          firstGoodSkipped == if Missing(s, 1, tolerance) then -1 else SlotAt(s, 1)
      {
        next := newestIn - i;
        if next < 0 {
          next := next + NUM_SLOTS;
        }
        CircularSlot(s, i);
        ChooseStep(s, newPkts - i, now, tolerance);
        if lastSeqNumOut != -1 {
          if incomingTiming[next] < incomingTiming[lastSeqNumOut]
            && incomingTiming[lastSeqNumOut] - incomingTiming[next] > tolerance
          {
            continue;
          }
          skipped := next - lastSeqNumOut - 1;
          if skipped < 0 {
            skipped := skipped + NUM_SLOTS;
          }
        }
        if incomingTiming[next] + tolerance >= now || i == 0 {
          found := true;
          return;
        }
        if firstGoodSkipped == -1 {
          firstGoodSkipped := next;
        }
      }
      found := false;
    }

    /** Returns true exactly when the packet left in the transfer buffer is a prediction. */
    method PullPacket(now: real, tolerance: real) returns (prediction: bool, xfr: Outcome)
      requires Valid()
      modifies this
      ensures Valid()
      ensures (Value(), xfr) == Pull(old(Value()), now, tolerance)
      ensures prediction <==> xfr.Concealed?
    {
      var newestIn := lastSeqNumIn;
      if newestIn == -1 || now < tolerance {
        return false, Silence;
      } else if stashedPacket != -1 {
        xfr := Real(slots[stashedPacket]);
        lastSeqNumOut := stashedPacket;
        stashedPacket := -1;
        return false, xfr;
      } else if newestIn != lastSeqNumOut {
        var found, next, skipped, firstGoodSkipped := FindCandidate(now, tolerance, newestIn);
        if found {
          if skipped == 1 && firstGoodSkipped >= 0 {
            // about to skip one good packet: play it, and defer the jump
            stashedPacket := next;
            next := firstGoodSkipped;
          } else if skipped > 0 {
            plcOverruns := plcOverruns + skipped;
            skippedTotal := skippedTotal + skipped;
            stashedPacket := next;
            return true, Concealed;
          }
          xfr := Real(slots[next]);
          lastSeqNumOut := next;
          return false, xfr;
        }
      }
      prediction, xfr := CountUnderrun(now, newestIn);
    }

    method CountUnderrun(now: real, newestIn: int) returns (prediction: bool, xfr: Outcome)
      requires Valid() && newestIn == lastSeqNumIn != -1
      modifies `plcUnderruns
      ensures Valid()
      ensures (Value(), xfr) == Underrun(old(Value()), now)
      ensures prediction <==> xfr.Concealed?
    {
      plcUnderruns := plcUnderruns + 1;
      if lastSeqNumOut == newestIn && now - incomingTiming[lastSeqNumOut] > UDP_WAIT_TIMEOUT {
        return false, Stuck;
      }
      return true, Concealed;
    }
  }
}
