/** Packet-loss concealment of one channel: real packets pass through, lost ones are predicted from
    the last outputs, and the packet after a loss is faded in from the second predicted packet. */
module Concealment {
  import opened Vectors
  import Burg
  import BurgTheory
  import Circular
  import Numbers

  type Frame = seq<real>

  datatype Event = Heard(packet: Frame) | Lost

  /** Samples per packet, and packets of history. */
  datatype Format = Format(fpp: nat, past: nat)

  ghost predicate ValidFormat(m: Format) {
    m.fpp >= 1 && m.past >= 1
  }

  ghost predicate Framed(m: Format, frames: seq<Frame>) {
    forall k :: 0 <= k < |frames| ==> |frames[k]| == m.fpp
  }

  /** The last `past` frames, silence standing in for those before the start. */
  function LastFrames(m: Format, frames: seq<Frame>): (r: seq<Frame>)
    ensures |r| == m.past
    ensures Framed(m, frames) ==> Framed(m, r)
  {
    (seq(m.past, _ => Zeros(m.fpp)) + frames)[|frames|..]
  }

  function Flat(frames: seq<Frame>): seq<real> {
    if |frames| == 0 then [] else Flat(frames[..|frames| - 1]) + frames[|frames| - 1]
  }

  lemma EmptyFlat(frames: seq<Frame>)
    ensures Flat(frames[..0]) == []
  {
  }

  lemma FlatAppend(frames: seq<Frame>, i: nat)
    requires i < |frames|
    ensures Flat(frames[..i + 1]) == Flat(frames[..i]) + frames[i]
  {
    assert frames[..i + 1][..i] == frames[..i];
  }

  lemma {:induction false} FlatLength(m: Format, frames: seq<Frame>)
    requires Framed(m, frames)
    ensures |Flat(frames)| == |frames| * m.fpp
    ensures |frames| == m.past ==> |Flat(frames)| == HistorySize(m)
  {
    if |frames| > 0 {
      FlatLength(m, frames[..|frames| - 1]);
      assert (|frames| - 1) * m.fpp + m.fpp == |frames| * m.fpp;
    }
  }

  /** Samples of history. */
  function HistorySize(m: Format): nat {
    m.past * m.fpp
  }

  /** History and two predicted packets. */
  function TailSize(m: Format): nat {
    HistorySize(m) + 2 * m.fpp
  }

  lemma {:induction false} HistoryIsNotEmpty(m: Format)
    requires ValidFormat(m)
    ensures HistorySize(m) >= m.fpp >= 1
  {
    assert (m.past - 1) * m.fpp >= 0;
  }

  /** The last outputs continued by two packets. */
  function Predicted(m: Format, outs: seq<Frame>): (r: seq<real>)
    requires ValidFormat(m) && Framed(m, outs)
    ensures |r| == TailSize(m)
  {
    FlatLength(m, LastFrames(m, outs));
    HistoryIsNotEmpty(m);
    Burg.Continuation(Flat(LastFrames(m, outs)), TailSize(m))
  }

  /** The first and the second packet after the history. */
  function FirstOf(m: Format, p: seq<real>): (f: Frame)
    requires |p| == TailSize(m)
    ensures |f| == m.fpp
  {
    p[HistorySize(m)..HistorySize(m) + m.fpp]
  }

  function SecondOf(m: Format, p: seq<real>): (f: Frame)
    requires |p| == TailSize(m)
    ensures |f| == m.fpp
  {
    p[HistorySize(m) + m.fpp..HistorySize(m) + 2 * m.fpp]
  }

  function FadeUp(m: Format, i: nat): real
    requires i < m.fpp
  {
    i as real / m.fpp as real
  }

  /** Fading from the predicted packet a into the real packet b. */
  function Blend(m: Format, a: Frame, b: Frame): (r: Frame)
    requires |a| == |b| == m.fpp
    ensures |r| == m.fpp
  {
    seq(m.fpp, i requires 0 <= i < m.fpp => (1.0 - FadeUp(m, i)) * a[i] + FadeUp(m, i) * b[i])
  }

  /** All outputs of a run, and the second predicted packet of the latest loss. */
  datatype History = History(outs: seq<Frame>, future: Frame)

  predicate AfterLoss(events: seq<Event>) {
    |events| > 0 && events[|events| - 1].Lost?
  }

  ghost predicate WellFramed(m: Format, events: seq<Event>) {
    forall k :: 0 <= k < |events| && events[k].Heard? ==> |events[k].packet| == m.fpp
  }

  function Step(m: Format, h: History, e: Event, afterLoss: bool): (r: History)
    requires ValidFormat(m) && Framed(m, h.outs) && |h.future| == m.fpp
    requires e.Heard? ==> |e.packet| == m.fpp
    ensures Framed(m, r.outs) && |r.future| == m.fpp && |r.outs| == |h.outs| + 1 && h.outs <= r.outs
  {
    match e
    case Heard(packet) =>
      h.(outs := h.outs + [if afterLoss then Blend(m, h.future, packet) else packet])
    case Lost =>
      var p := Predicted(m, h.outs);
      History(h.outs + [if |h.outs| > m.past then FirstOf(m, p) else Zeros(m.fpp)], SecondOf(m, p))
  }

  function Play(m: Format, events: seq<Event>): (h: History)
    requires ValidFormat(m) && WellFramed(m, events)
    ensures Framed(m, h.outs) && |h.future| == m.fpp && |h.outs| == |events|
  {
    if |events| == 0 then History([], Zeros(m.fpp))
    else
      var before := events[..|events| - 1];
      Step(m, Play(m, before), events[|events| - 1], AfterLoss(before))
  }

  /** The packets really heard in a run. */
  function Reals(events: seq<Event>): seq<Frame> {
    if |events| == 0 then []
    else
      var e := events[|events| - 1];
      Reals(events[..|events| - 1]) + if e.Heard? then [e.packet] else []
  }

  lemma {:induction false} RealsAreFramed(m: Format, events: seq<Event>)
    requires WellFramed(m, events)
    ensures Framed(m, Reals(events))
  {
    if |events| > 0 {
      RealsAreFramed(m, events[..|events| - 1]);
    }
  }

  /** A packet ring, read from the write pointer on, is the last of some frames, in order. */
  ghost predicate RingIs(m: Format, ring: seq<Frame>, wptr: int, frames: seq<Frame>) {
    && 0 <= wptr < m.past == |ring|
    && forall k :: 0 <= k < m.past ==>
         ring[if wptr + k < m.past then wptr + k else wptr + k - m.past] == LastFrames(m, frames)[k]
  }

  lemma RingIsFramed(m: Format, ring: seq<Frame>, wptr: int, frames: seq<Frame>)
    requires RingIs(m, ring, wptr, frames) && Framed(m, frames)
    ensures Framed(m, ring)
  {
    forall i | 0 <= i < |ring| ensures |ring[i]| == m.fpp {
      var k := if i >= wptr then i - wptr else i - wptr + m.past;
      assert ring[if wptr + k < m.past then wptr + k else wptr + k - m.past] == LastFrames(m, frames)[k];
    }
  }

  /** Overwriting the oldest packet and moving the write pointer on. */
  lemma RingPushed(m: Format, ring: seq<Frame>, wptr: int, frames: seq<Frame>, frame: Frame)
    requires RingIs(m, ring, wptr, frames)
    ensures RingIs(m, ring[wptr := frame], if wptr + 1 < m.past then wptr + 1 else 0, frames + [frame])
  {
    ShiftLast(m, frames, frame);
    var last, next := LastFrames(m, frames), LastFrames(m, frames + [frame]);
    var ring', w := ring[wptr := frame], if wptr + 1 < m.past then wptr + 1 else 0;
    forall k | 0 <= k < m.past
      ensures ring'[if w + k < m.past then w + k else w + k - m.past] == next[k]
    {
      if k + 1 < m.past {
        assert next[k] == last[k + 1];
        assert ring[if wptr + (k + 1) < m.past then wptr + (k + 1) else wptr + (k + 1) - m.past] == last[k + 1];
      }
    }
  }

  lemma NextReals(events: seq<Event>, e: Event)
    ensures Reals(events + [e]) == Reals(events) + if e.Heard? then [e.packet] else []
  {
    assert (events + [e])[..|events|] == events;
  }

  lemma PlayStep(m: Format, events: seq<Event>, e: Event)
    requires ValidFormat(m) && WellFramed(m, events) && (e.Heard? ==> |e.packet| == m.fpp)
    ensures WellFramed(m, events + [e])
    ensures Play(m, events + [e]) == Step(m, Play(m, events), e, AfterLoss(events))
  {
    hide Step;
    assert (events + [e])[..|events|] == events;
  }

  lemma StepShape(m: Format, h: History, e: Event, afterLoss: bool)
    requires ValidFormat(m) && Framed(m, h.outs) && |h.future| == m.fpp && (e.Heard? ==> |e.packet| == m.fpp)
    ensures var r := Step(m, h, e, afterLoss);
            r.outs == h.outs + [r.outs[|h.outs|]] && (e.Heard? ==> r.future == h.future)
  {
    hide Predicted, Blend;
  }

  // ---------------------------------------------------------------------------------------
  // The imperative channel

  class Channel {
    const format: Format
    const packetsInThePast: nat
    const peerFPP: nat
    const upToNow: nat
    const beyondNow: nat
    const ba: Burg.BurgAlgorithm
    const prediction: array<real>
    var tmpFloatBuf: Frame
    var realNowPacket: Frame
    var outputNowPacket: Frame
    var predictedNowPacket: Frame
    var futurePredictedPacket: Frame
    var realPast: seq<real>
    var predictedPast: seq<Frame>
    var coeffs: seq<real>
    var packetRing: seq<Frame>
    var wptr: int
    var ring: int
    var pcnt: nat
    var lastWasGlitch: bool
    ghost var events: seq<Event>

    ghost predicate Shaped()
      reads this
    {
      && ValidFormat(format) && packetsInThePast == format.past && peerFPP == format.fpp
      && upToNow == HistorySize(format) && beyondNow == upToNow + format.fpp
      && |tmpFloatBuf| == |realNowPacket| == |outputNowPacket| == format.fpp
      && |predictedNowPacket| == |futurePredictedPacket| == format.fpp
      && |realPast| == upToNow && ring == format.past == |packetRing| && 0 <= wptr < ring
    }

    ghost predicate Separate()
      reads this, ba, ba.akReset
    {
      && ba.Valid() && ba.size == upToNow
      && prediction.Length == TailSize(format)
      && prediction !in ba.Repr && prediction != ba.akReset
    }

    ghost predicate Valid()
      reads this, prediction, ba, ba.akReset
    {
      && Shaped() && Separate() && WellFramed(format, events)
      && pcnt == |events| && lastWasGlitch == AfterLoss(events)
      && predictedPast == LastFrames(format, Play(format, events).outs)
      && RingIs(format, packetRing, wptr, Reals(events))
      && futurePredictedPacket == Play(format, events).future
      && prediction[beyondNow..] == futurePredictedPacket
    }

    constructor (fpp: nat, past: nat)
      requires fpp >= 1 && past >= 1
      ensures Valid() && events == [] && format == Format(fpp, past) && wptr == past / 2
      ensures fresh(prediction) && fresh(ba) && fresh(ba.Repr) && fresh(ba.akReset)
    {
      var m := Format(fpp, past);
      HistoryIsNotEmpty(m);
      format, packetsInThePast, peerFPP := m, past, fpp;
      upToNow, beyondNow := past * fpp, past * fpp + fpp;
      ba := new Burg.BurgAlgorithm(past * fpp);
      prediction := new real[TailSize(m)](_ => 0.0);
      tmpFloatBuf, realNowPacket, outputNowPacket := Zeros(fpp), Zeros(fpp), Zeros(fpp);
      predictedNowPacket, futurePredictedPacket := Zeros(fpp), Zeros(fpp);
      realPast, coeffs := Zeros(past * fpp), Zeros(past * fpp - 1);
      predictedPast := seq(past, _ => Zeros(fpp));
      packetRing := seq(past, _ => Zeros(fpp));
      ring, wptr := past, past / 2;
      pcnt, lastWasGlitch := 0, false;
      events := [];
    }

    method RingBufferPush(ghost reals: seq<Frame>)
      requires Shaped() && RingIs(format, packetRing, wptr, reals)
      modifies `packetRing, `wptr
      ensures Shaped() && RingIs(format, packetRing, wptr, reals + [tmpFloatBuf])
    {
      hide LastFrames, RingIs;
      RingPushed(format, packetRing, wptr, reals, tmpFloatBuf);
      Numbers.SmallRemainder(wptr, ring);
      Circular.NextRemainder(wptr, ring);
      packetRing := packetRing[wptr % ring := tmpFloatBuf];
      wptr := wptr + 1;
      wptr := wptr % ring;
    }

    /** Fetches the packet `past` places back. */
    method RingBufferPull(past: int)
      requires Shaped() && 1 <= past <= ring == |packetRing| && 0 <= wptr < ring
      requires Framed(format, packetRing)
      modifies `tmpFloatBuf
      ensures Shaped()
      ensures var k := ring - past;
              tmpFloatBuf == packetRing[if wptr + k < ring then wptr + k else wptr + k - ring]
    {
      var pastPtr := wptr - past;
      if pastPtr < 0 {
        pastPtr := pastPtr + ring;
      }
      tmpFloatBuf := packetRing[pastPtr];
    }

    /** Gathers the last real packets, oldest first; tmpFloatBuf is overwritten on the way. */
    method GatherRealPast(ghost reals: seq<Frame>)
      requires Shaped() && RingIs(format, packetRing, wptr, reals) && Framed(format, reals)
      modifies `tmpFloatBuf, `realPast
      ensures Shaped() && RingIs(format, packetRing, wptr, reals)
      ensures realPast == Flat(LastFrames(format, reals))
    {
      hide LastFrames, Flat, HistorySize;
      ghost var last := LastFrames(format, reals);
      var offset := 0;
      EmptyFlat(last);
      FramesFit(format, 0);
      RingIsFramed(format, packetRing, wptr, reals);
      for i := 0 to packetsInThePast
        invariant Shaped() && RingIs(format, packetRing, wptr, reals) && Framed(format, packetRing)
        invariant offset == i * peerFPP <= upToNow
        invariant realPast[..offset] == Flat(last[..i])
      {
        FramesFit(format, i);
        FlatAppend(last, i);
        RingBufferPull(packetsInThePast - i);
        assert tmpFloatBuf == last[i];
        realPast := realPast[..offset] + tmpFloatBuf + realPast[offset + peerFPP..];
        offset := offset + peerFPP;
      }
      FramesFit(format, format.past);
      assert last[..format.past] == last && realPast[..offset] == realPast;
    }

    /** Copies the last outputs to the front of the prediction buffer. */
    method LoadHistory()
      requires Shaped() && Separate() && |predictedPast| == format.past && Framed(format, predictedPast)
      modifies prediction
      ensures prediction[..upToNow] == Flat(predictedPast)
    {
      hide HistorySize, Flat;
      EmptyFlat(predictedPast);
      FramesFit(format, 0);
      for i := 0 to packetsInThePast
        invariant 0 <= i * peerFPP <= upToNow
        invariant prediction[..i * peerFPP] == Flat(predictedPast[..i])
      {
        FramesFit(format, i);
        FlatAppend(predictedPast, i);
        LoadFrame(i, i * peerFPP);
      }
      FramesFit(format, format.past);
      assert predictedPast[..format.past] == predictedPast;
    }

    method LoadFrame(i: nat, base: nat)
      requires Shaped() && i < |predictedPast| && |predictedPast[i]| == peerFPP
      requires base == i * peerFPP && base + peerFPP <= prediction.Length
      modifies prediction
      ensures prediction[..base + peerFPP] == old(prediction[..base]) + predictedPast[i]
    {
      for s := 0 to peerFPP
        invariant prediction[..base] == old(prediction[..base])
        invariant forall j :: 0 <= j < s ==> prediction[base + j] == predictedPast[i][j]
      {
        prediction[i * peerFPP + s] := predictedPast[i][s];
      }
    }

    /** Loads the last outputs, trains on them and continues them by two packets. */
    method PredictFromOutputs(ghost outs: seq<Frame>)
      requires Shaped() && Separate() && Framed(format, outs) && predictedPast == LastFrames(format, outs)
      modifies `coeffs, `predictedNowPacket, prediction, ba.Repr
      ensures Shaped() && Separate()
      ensures prediction[..] == Predicted(format, outs)
      ensures predictedNowPacket == FirstOf(format, prediction[..])
    {
      hide HistorySize, Flat, LastFrames, Burg.Coefficients, Burg.Extend;
      HistoryIsNotEmpty(format);
      FlatLength(format, predictedPast);
      LoadHistory();
      ghost var history := prediction[..upToNow];
      coeffs := ba.Train(prediction);
      assert history[..upToNow - 1] == prediction[..upToNow - 1];
      ba.Predict(coeffs, prediction);
      predictedNowPacket := prediction[upToNow..upToNow + peerFPP];
    }

    /** The output of this packet, sample by sample. */
    method Mix(glitch: bool, primed: bool)
      requires Shaped()
      modifies `outputNowPacket, `tmpFloatBuf
      ensures Shaped() && tmpFloatBuf == outputNowPacket
      ensures outputNowPacket ==
        if glitch then (if primed then predictedNowPacket else Zeros(format.fpp))
        else if lastWasGlitch then Blend(format, futurePredictedPacket, realNowPacket)
        else realNowPacket
    {
      ghost var goal := if glitch then (if primed then predictedNowPacket else Zeros(format.fpp))
                        else if lastWasGlitch then Blend(format, futurePredictedPacket, realNowPacket)
                        else realNowPacket;
      for s := 0 to peerFPP
        invariant Shaped() && outputNowPacket[..s] == tmpFloatBuf[..s] == goal[..s]
      {
        var up := s as real / peerFPP as real;
        var down := 1.0 - up;
        var sample :=
          if glitch then (if primed then predictedNowPacket[s] else 0.0)
          else if lastWasGlitch then down * futurePredictedPacket[s] + up * realNowPacket[s]
          else realNowPacket[s];
        assert sample == goal[s];
        outputNowPacket := outputNowPacket[s := sample];
        tmpFloatBuf := tmpFloatBuf[s := sample];
        assert outputNowPacket[..s + 1] == goal[..s] + [goal[s]] == tmpFloatBuf[..s + 1] == goal[..s + 1];
      }
      assert outputNowPacket == outputNowPacket[..peerFPP] && tmpFloatBuf == tmpFloatBuf[..peerFPP];
      assert goal == goal[..peerFPP];
    }

    /** Takes the packet from the float buffer into the ring, or silence for a glitch. */
    method Receive(glitch: bool, ghost reals: seq<Frame>)
      requires Shaped() && RingIs(format, packetRing, wptr, reals)
      modifies `realNowPacket, `tmpFloatBuf, `packetRing, `wptr
      ensures Shaped() && realNowPacket == if glitch then Zeros(format.fpp) else old(tmpFloatBuf)
      ensures RingIs(format, packetRing, wptr, if glitch then reals else reals + [old(tmpFloatBuf)])
    {
      hide LastFrames, HistorySize, RingIs;
      realNowPacket := if !glitch then tmpFloatBuf else Zeros(peerFPP);
      if !glitch {
        tmpFloatBuf := realNowPacket;
        RingBufferPush(reals);
      }
    }

    /** Predicts if need be, and mixes the output of this packet. */
    method Produce(glitch: bool, primed: bool, ghost e: Event, ghost h: History)
      requires Shaped() && Separate() && Framed(format, h.outs) && |h.future| == format.fpp
      requires e.Heard? ==> |e.packet| == format.fpp
      requires glitch == e.Lost? && primed == (|h.outs| > format.past)
      requires realNowPacket == if glitch then Zeros(format.fpp) else e.packet
      requires predictedPast == LastFrames(format, h.outs) && futurePredictedPacket == h.future
      requires SecondOf(format, prediction[..]) == h.future
      modifies `coeffs, `predictedNowPacket, `outputNowPacket, `tmpFloatBuf, prediction, ba.Repr
      ensures Shaped() && Separate()
      ensures tmpFloatBuf == outputNowPacket == Step(format, h, e, lastWasGlitch).outs[|h.outs|]
      ensures SecondOf(format, prediction[..]) == Step(format, h, e, lastWasGlitch).future
    {
      hide Predicted, Blend, HistorySize, LastFrames, FirstOf, SecondOf;
      if glitch {
        PredictFromOutputs(h.outs);
      }
      Mix(glitch, primed);
    }

    /** One packet: the float buffer holds the packet on entry (ignored for a glitch) and the output
        on return. */
    method BurgPacket(glitch: bool)
      requires Valid()
      modifies this, prediction, ba.Repr
      ensures Valid()
      ensures events == old(events) + [if glitch then Lost else Heard(old(tmpFloatBuf))]
      ensures tmpFloatBuf == Play(format, events).outs[|old(events)|]
      ensures old(pcnt) > format.past ==> realPast == Flat(LastFrames(format, Reals(events)))
    {
      hide Predicted, Blend, HistorySize, LastFrames, Flat, Step, Play, Reals, SecondOf, RingIs;
      ghost var h, reals := Play(format, events), Reals(events);
      ghost var e := if glitch then Lost else Heard(tmpFloatBuf);
      RealsAreFramed(format, events);
      NextReals(events, e);
      WholeTail();
      var primed := pcnt > packetsInThePast;
      Receive(glitch, reals);
      assert Reals(events + [e]) == if glitch then reals else reals + [e.packet];
      reals := Reals(events + [e]);
      if primed {
        GatherRealPast(reals);
      }
      Produce(glitch, primed, e, h);
      PlayStep(format, events, e);
      Remember(glitch, e, h);
    }

    lemma WholeTail()
      requires Shaped() && Separate()
      ensures beyondNow + peerFPP == prediction.Length
      ensures prediction[beyondNow..] == SecondOf(format, prediction[..])
    {
      hide HistorySize;
    }

    /** Shifts the output into the past and moves on to the next packet. */
    method Remember(glitch: bool, ghost e: Event, ghost h: History)
      requires Shaped() && Separate() && WellFramed(format, events) && h == Play(format, events)
      requires e.Heard? ==> |e.packet| == format.fpp
      requires pcnt == |events| && lastWasGlitch == AfterLoss(events) && glitch == e.Lost?
      requires predictedPast == LastFrames(format, h.outs)
      requires RingIs(format, packetRing, wptr, Reals(events + [e]))
      requires outputNowPacket == Step(format, h, e, lastWasGlitch).outs[|h.outs|]
      requires SecondOf(format, prediction[..]) == Step(format, h, e, lastWasGlitch).future
      modifies `predictedPast, `futurePredictedPacket, `lastWasGlitch, `pcnt, `events
      ensures Valid() && events == old(events) + [e]
    {
      hide Predicted, Blend, HistorySize, LastFrames, Reals, FirstOf, SecondOf, Step, Play, RingIs, WellFramed;
      hide AfterLoss;
      WholeTail();
      NextPlay(format, events, e, outputNowPacket, SecondOf(format, prediction[..]));
      predictedPast := predictedPast[1..] + [outputNowPacket];
      futurePredictedPacket := prediction[beyondNow..beyondNow + peerFPP];
      lastWasGlitch := glitch;
      pcnt := pcnt + 1;
      events := events + [e];
    }
  }

  lemma NextPlay(m: Format, events: seq<Event>, e: Event, out: Frame, future: Frame)
    requires ValidFormat(m) && WellFramed(m, events) && (e.Heard? ==> |e.packet| == m.fpp)
    requires var h := Play(m, events);
             var r := Step(m, h, e, AfterLoss(events));
             out == r.outs[|h.outs|] && future == r.future
    ensures WellFramed(m, events + [e]) && AfterLoss(events + [e]) == e.Lost?
    ensures Play(m, events + [e]).future == future
    ensures LastFrames(m, Play(m, events + [e]).outs) == LastFrames(m, Play(m, events).outs)[1..] + [out]
  {
    hide Predicted, Blend, LastFrames, Step, Play;
    var h := Play(m, events);
    StepShape(m, h, e, AfterLoss(events));
    PlayStep(m, events, e);
    ShiftLast(m, h.outs, out);
  }

  /** The start of frame i of the history lies inside it. */
  lemma {:induction false} FramesFit(m: Format, i: nat)
    requires i <= m.past
    ensures 0 <= i * m.fpp <= HistorySize(m)
    ensures (i + 1) * m.fpp == i * m.fpp + m.fpp
    ensures i < m.past ==> i * m.fpp + m.fpp <= HistorySize(m)
    ensures i == m.past ==> i * m.fpp == HistorySize(m)
  {
    SplitProduct(m.past, i, m.fpp);
    if i < m.past {
      SplitProduct(m.past, i + 1, m.fpp);
    }
  }

  lemma {:induction false} SplitProduct(p: nat, i: nat, n: nat)
    requires i <= p
    ensures p * n == (p - i) * n + i * n && (p - i) * n >= 0 && i * n >= 0
    ensures (i + 1) * n == i * n + n
  {
  }

  lemma ShiftLast(m: Format, frames: seq<Frame>, frame: Frame)
    requires m.past >= 1
    ensures LastFrames(m, frames + [frame]) == LastFrames(m, frames)[1..] + [frame]
  {
  }

  // ---------------------------------------------------------------------------------------
  // What every run sounds like

  /** Output k depends only on the first k + 1 events. */
  lemma {:induction false} OutputIsCausal(m: Format, events: seq<Event>, k: nat)
    requires ValidFormat(m) && WellFramed(m, events) && k < |events|
    ensures Play(m, events).outs[k] == Play(m, events[..k + 1]).outs[k]
    ensures Play(m, events).outs[..k] == Play(m, events[..k]).outs
  {
    var before := events[..|events| - 1];
    if k < |events| - 1 {
      OutputIsCausal(m, before, k);
      assert before[..k + 1] == events[..k + 1] && before[..k] == events[..k];
      assert Play(m, events).outs[..k] == Play(m, before).outs[..k];
    } else {
      assert events[..k + 1] == events;
    }
  }

  /** A packet not directly after a loss passes through unchanged. */
  lemma {:induction false} RealPacketsPassThrough(m: Format, events: seq<Event>, k: nat)
    requires ValidFormat(m) && WellFramed(m, events) && k < |events| && events[k].Heard?
    requires k > 0 ==> events[k - 1].Heard?
    ensures Play(m, events).outs[k] == events[k].packet
  {
    OutputIsCausal(m, events, k);
    assert events[..k + 1][..k] == events[..k];
  }

  /** The second packet predicted by the loss at k. */
  function SecondPredicted(m: Format, events: seq<Event>, k: nat): (f: Frame)
    requires ValidFormat(m) && WellFramed(m, events) && k < |events|
    ensures |f| == m.fpp
  {
    SecondOf(m, Predicted(m, Play(m, events[..k]).outs))
  }

  /** A packet directly after a loss lies, sample by sample, between itself and the second packet
      predicted by that loss, and starts at the prediction. */
  lemma {:induction false} FirstPacketFadesIn(m: Format, events: seq<Event>, k: nat, i: nat)
    requires ValidFormat(m) && WellFramed(m, events) && 0 < k < |events| && i < m.fpp
    requires events[k].Heard? && events[k - 1].Lost?
    ensures var out, a, b := Play(m, events).outs[k][i], SecondPredicted(m, events, k - 1)[i], events[k].packet[i];
            && (if a <= b then a <= out <= b else b <= out <= a)
            && (i == 0 ==> out == a)
  {
    hide Play, Predicted, Blend, SecondOf, FadeUp;
    var upTo := events[..k + 1];
    OutputIsCausal(m, events, k);
    FadedOutput(m, upTo);
    assert upTo[..k - 1] == events[..k - 1];
    FadeInUnit(m, i);
    BlendAt(m, SecondPredicted(m, upTo, k - 1), events[k].packet, i);
  }

  lemma {:induction false} BlendAt(m: Format, a: Frame, b: Frame, i: nat)
    requires |a| == |b| == m.fpp && i < m.fpp
    ensures var out := Blend(m, a, b)[i];
            && (if a[i] <= b[i] then a[i] <= out <= b[i] else b[i] <= out <= a[i])
            && (i == 0 ==> out == a[i])
  {
    FadeInUnit(m, i);
    Between(FadeUp(m, i), a[i], b[i], Blend(m, a, b)[i]);
  }

  lemma {:induction false} FadedOutput(m: Format, events: seq<Event>)
    requires ValidFormat(m) && WellFramed(m, events) && |events| >= 2
    requires var k := |events| - 1; events[k].Heard? && events[k - 1].Lost?
    ensures var k := |events| - 1;
            Play(m, events).outs[k] == Blend(m, SecondPredicted(m, events, k - 1), events[k].packet)
  {
    hide Predicted, Blend, SecondOf, FirstOf;
    var k := |events| - 1;
    assert events[..k][..k - 1] == events[..k - 1];
  }

  lemma {:induction false} FadeInUnit(m: Format, i: nat)
    requires i < m.fpp
    ensures 0.0 <= FadeUp(m, i) <= 1.0 && (i == 0 ==> FadeUp(m, i) == 0.0)
  {
    var q, n := FadeUp(m, i), m.fpp as real;
    assert q * n == i as real;
    if q < 0.0 {
      BurgTheory.NonNegativeProduct(-q, n);
    }
    if q > 1.0 {
      Vectors.PositiveProduct(q - 1.0, n, (q - 1.0) * n);
    }
  }

  lemma {:induction false} Between(t: real, a: real, b: real, out: real)
    requires 0.0 <= t <= 1.0 && out == (1.0 - t) * a + t * b
    ensures if a <= b then a <= out <= b else b <= out <= a
    ensures t == 0.0 ==> out == a
  {
    assert out - a == t * (b - a) && b - out == (1.0 - t) * (b - a);
    if a <= b {
      BurgTheory.NonNegativeProduct(t, b - a);
      BurgTheory.NonNegativeProduct(1.0 - t, b - a);
    } else {
      BurgTheory.NonNegativeProduct(t, a - b);
      BurgTheory.NonNegativeProduct(1.0 - t, a - b);
    }
  }

  // ---------------------------------------------------------------------------------------
  // What a loss sounds like, in samples

  /** h holds the samples of the last `past` outputs, oldest first, 0 standing in for those before the
      start. */
  ghost predicate IsPast(m: Format, outs: seq<Frame>, h: seq<real>)
    requires ValidFormat(m)
  {
    && |h| == m.past * m.fpp
    && forall p :: 0 <= p < |h| ==>
         var j, i := |outs| - m.past + p / m.fpp, p % m.fpp;
         h[p] == if 0 <= j < |outs| && i < |outs[j]| then outs[j][i] else 0.0
  }

  lemma {:induction false} FlatAt(m: Format, frames: seq<Frame>, p: nat)
    requires ValidFormat(m) && Framed(m, frames) && p < |Flat(frames)|
    ensures p / m.fpp < |frames| && Flat(frames)[p] == frames[p / m.fpp][p % m.fpp]
  {
    FlatLength(m, frames);
    if |frames| > 0 {
      var k := |frames| - 1;
      FlatLength(m, frames[..k]);
      Numbers.NextProduct(k, m.fpp);
      if p < |Flat(frames[..k])| {
        FlatAt(m, frames[..k], p);
      } else {
        Numbers.ModUnique(p, k, p - k * m.fpp, m.fpp);
      }
    }
  }

  lemma {:induction false} PastIsFlat(m: Format, outs: seq<Frame>, h: seq<real>)
    requires ValidFormat(m) && Framed(m, outs)
    ensures IsPast(m, outs, h) <==> h == Flat(LastFrames(m, outs))
  {
    hide Flat, LastFrames;
    FlatIsPast(m, outs);
    var flat := Flat(LastFrames(m, outs));
    if IsPast(m, outs, h) {
      forall p | 0 <= p < |h| ensures h[p] == flat[p] {
      }
    }
  }

  lemma {:induction false} FlatIsPast(m: Format, outs: seq<Frame>)
    requires ValidFormat(m) && Framed(m, outs)
    ensures IsPast(m, outs, Flat(LastFrames(m, outs)))
  {
    hide Flat, LastFrames;
    var frames := LastFrames(m, outs);
    var flat := Flat(frames);
    FlatLength(m, frames);
    forall p | 0 <= p < |flat|
      ensures var j, i := |outs| - m.past + p / m.fpp, p % m.fpp;
              flat[p] == if 0 <= j < |outs| && i < |outs[j]| then outs[j][i] else 0.0
    {
      FlatAt(m, frames, p);
      Numbers.InRange(p, m.fpp);
      LastFrameAt(m, outs, p / m.fpp, p % m.fpp);
    }
  }

  lemma LastFrameAt(m: Format, outs: seq<Frame>, j: nat, i: nat)
    requires j < m.past && i < m.fpp && Framed(m, outs)
    ensures LastFrames(m, outs)[j][i]
         == if 0 <= |outs| - m.past + j then outs[|outs| - m.past + j][i] else 0.0
  {
  }

  /** A lost packet is the continuation of the last outputs, directly after them; until more than
      `past` packets have come it is silence. */
  lemma {:induction false} ConcealedPacketContinues(m: Format, events: seq<Event>, k: nat, h: seq<real>)
    requires ValidFormat(m) && WellFramed(m, events) && k < |events| && events[k].Lost?
    requires IsPast(m, Play(m, events).outs[..k], h) && |h| >= 1
    ensures Play(m, events).outs[k]
         == if k <= m.past then Zeros(m.fpp) else Burg.Continuation(h, |h| + m.fpp)[|h|..]
  {
    hide Play, Flat, LastFrames, Burg.Continuation, IsPast;
    var outs := Play(m, events[..k]).outs;
    OutputIsCausal(m, events, k);
    LostOutput(m, events[..k + 1]);
    assert events[..k + 1][..k] == events[..k];
    if k > m.past {
      PastIsFlat(m, outs, h);
      PastLength(m, outs, h);
      BurgTheory.ContinuationPrefix(h, |h| + m.fpp, TailSize(m));
    }
  }

  /** Placed directly after the history that it continues, every sample of a concealed packet has zero
      forward error under the filter trained on that history. */
  lemma {:induction false} ConcealedPacketHasZeroError(m: Format, events: seq<Event>, k: nat, h: seq<real>, i: nat)
    requires ValidFormat(m) && WellFramed(m, events) && m.past < k < |events| && events[k].Lost? && i < m.fpp
    requires IsPast(m, Play(m, events).outs[..k], h) && |h| >= 1
    ensures BurgTheory.Forward(Burg.Filter(h), Burg.Continuation(h, |h|) + Play(m, events).outs[k], |h| + i) == 0.0
  {
    hide Play, Burg.Continuation, Burg.Filter, BurgTheory.Forward, IsPast;
    var y := Burg.Continuation(h, |h| + m.fpp);
    ConcealedPacketContinues(m, events, k, h);
    BurgTheory.ContinuationPrefix(h, |h|, |h| + m.fpp);
    assert y == y[..|h|] + y[|h|..];
    BurgTheory.ContinuationHasZeroError(h, |h| + m.fpp, |h| + i);
  }

  lemma PastLength(m: Format, outs: seq<Frame>, h: seq<real>)
    requires ValidFormat(m) && IsPast(m, outs, h)
    ensures |h| == HistorySize(m) && TailSize(m) == |h| + 2 * m.fpp
  {
  }

  /** The packet after a loss fades in linearly from the second packet of that continuation. */
  lemma {:induction false} FadeIsLinear(m: Format, events: seq<Event>, k: nat, h: seq<real>, i: nat)
    requires ValidFormat(m) && WellFramed(m, events) && 0 < k < |events| && i < m.fpp
    requires events[k].Heard? && events[k - 1].Lost?
    requires IsPast(m, Play(m, events).outs[..k - 1], h) && |h| >= 1
    ensures var a := Burg.Continuation(h, |h| + 2 * m.fpp)[|h| + m.fpp + i];
            var b := events[k].packet[i];
            m.fpp as real * (Play(m, events).outs[k][i] - a) == i as real * (b - a)
  {
    hide Play, Flat, LastFrames, Burg.Continuation, Blend, IsPast;
    var upTo, outs := events[..k + 1], Play(m, events[..k - 1]).outs;
    OutputIsCausal(m, events, k);
    OutputIsCausal(m, events, k - 1);
    FadedOutput(m, upTo);
    assert upTo[..k - 1] == events[..k - 1];
    PastIsFlat(m, outs, h);
    PastLength(m, outs, h);
    BlendIsLinear(m, SecondPredicted(m, upTo, k - 1), events[k].packet, i);
  }

  lemma {:induction false} BlendIsLinear(m: Format, a: Frame, b: Frame, i: nat)
    requires |a| == |b| == m.fpp && i < m.fpp
    ensures m.fpp as real * (Blend(m, a, b)[i] - a[i]) == i as real * (b[i] - a[i])
  {
    var t, n := FadeUp(m, i), m.fpp as real;
    assert t * n == i as real;
    LinearFade(t, n, a[i], b[i], Blend(m, a, b)[i]);
  }

  lemma {:induction false} LinearFade(t: real, n: real, a: real, b: real, out: real)
    requires out == (1.0 - t) * a + t * b
    ensures n * (out - a) == (t * n) * (b - a)
  {
    assert out - a == t * (b - a);
  }

  /** The energy of the last outputs of a run. */
  ghost function PastEnergy(m: Format, events: seq<Event>): real
    requires ValidFormat(m) && WellFramed(m, events)
  {
    Energy(LastFrames(m, Play(m, events).outs))
  }

  ghost function Energy(frames: seq<Frame>): real {
    Dot(Flat(frames), Flat(frames))
  }

  /** Every sample of a concealed packet is within 2.00002 times the energy of the last outputs, which
      are themselves predictions when the losses before it are consecutive. */
  lemma {:induction false} ConcealedPacketIsBounded(m: Format, events: seq<Event>, k: nat, i: nat)
    requires ValidFormat(m) && WellFramed(m, events) && k < |events| && i < m.fpp && events[k].Lost?
    ensures BurgTheory.Square(Play(m, events).outs[k][i]) <= 2.00002 * PastEnergy(m, events[..k])
  {
    hide Dot, Play, Predicted, Flat, LastFrames, FirstOf, BurgTheory.Square;
    var outs := Play(m, events[..k]).outs;
    OutputIsCausal(m, events, k);
    LostOutput(m, events[..k + 1]);
    assert events[..k + 1][..k] == events[..k];
    if k > m.past {
      FirstPredictedIsBounded(m, outs, i);
    } else {
      DotSelfNonNegative(Flat(LastFrames(m, outs)));
      SilentSquare();
    }
  }

  /** By how much the energy of the last outputs can grow over n losses in a row. */
  ghost function Growth(m: Format, n: nat): real {
    if n == 0 then 1.0 else (1.0 + 2.00002 * m.fpp as real) * Growth(m, n - 1)
  }

  /** A burst of losses: after n losses in a row every concealed sample is within 2.00002 times the
      energy of the outputs before the burst, times 1 + 2.00002 fpp for each of them. */
  lemma {:induction false} BurstIsBounded(m: Format, events: seq<Event>, k: nat, n: nat, i: nat)
    requires ValidFormat(m) && WellFramed(m, events) && k + n < |events| && i < m.fpp
    requires forall j :: k <= j <= k + n ==> events[j].Lost?
    ensures BurgTheory.Square(Play(m, events).outs[k + n][i]) <= 2.00002 * (Growth(m, n) * PastEnergy(m, events[..k]))
  {
    hide PastEnergy, Growth, BurgTheory.Square;
    BurstEnergy(m, events, k, n);
    ConcealedPacketIsBounded(m, events, k + n, i);
  }

  lemma {:induction false} BurstEnergy(m: Format, events: seq<Event>, k: nat, n: nat)
    requires ValidFormat(m) && WellFramed(m, events) && k + n <= |events|
    requires forall j :: k <= j < k + n ==> events[j].Lost?
    ensures PastEnergy(m, events[..k + n]) <= Growth(m, n) * PastEnergy(m, events[..k])
  {
    hide PastEnergy;
    if n > 0 {
      var factor, e, g := 1.0 + 2.00002 * m.fpp as real, PastEnergy(m, events[..k]), Growth(m, n - 1);
      BurstEnergy(m, events, k, n - 1);
      LossGrowsEnergy(m, events, k + n - 1);
      Compound(factor, g, e, PastEnergy(m, events[..k + n - 1]));
    }
  }

  lemma {:induction false} Compound(factor: real, g: real, e: real, now: real)
    requires factor >= 0.0 && now <= g * e
    ensures factor * now <= (factor * g) * e
  {
    BurgTheory.NonNegativeProduct(factor, g * e - now);
    assert factor * (g * e - now) == factor * (g * e) - factor * now;
  }

  /** One loss adds at most a packet of bounded samples to the energy of the last outputs. */
  lemma {:induction false} LossGrowsEnergy(m: Format, events: seq<Event>, k: nat)
    requires ValidFormat(m) && WellFramed(m, events) && k < |events| && events[k].Lost?
    ensures PastEnergy(m, events[..k + 1]) <= (1.0 + 2.00002 * m.fpp as real) * PastEnergy(m, events[..k])
  {
    hide Dot, Play, Flat, LastFrames, BurgTheory.Square;
    var was, now := events[..k], events[..k + 1];
    assert now[..k] == was;
    var outs, out := Play(m, was).outs, Play(m, now).outs[k];
    OutputIsCausal(m, now, k);
    assert Play(m, now).outs == outs + [out];
    ShiftLast(m, outs, out);
    EnergyShifted(LastFrames(m, outs), out);
    forall i | 0 <= i < |out| ensures out[i] * out[i] <= 2.00002 * PastEnergy(m, was) {
      ConcealedPacketIsBounded(m, now, k, i);
      SquareIs(out[i]);
    }
    EnergyWithin(out, 2.00002 * PastEnergy(m, was));
    GrowthStep(m.fpp as real, PastEnergy(m, was));
  }

  lemma {:induction false} GrowthStep(n: real, e: real)
    ensures e + n * (2.00002 * e) == (1.0 + 2.00002 * n) * e
  {
  }

  lemma SquareIs(x: real)
    ensures BurgTheory.Square(x) == x * x
  {
  }

  /** Replacing the oldest frame by a new one. */
  lemma {:induction false} EnergyShifted(frames: seq<Frame>, frame: Frame)
    requires |frames| > 0
    ensures Energy(frames[1..] + [frame]) <= Energy(frames) + Dot(frame, frame)
  {
    hide Dot;
    var rest := frames[1..];
    FlatHead(frames);
    DotConcat(frames[0], Flat(rest));
    DotSelfNonNegative(frames[0]);
    assert (rest + [frame])[..|rest|] == rest;
    DotConcat(Flat(rest), frame);
  }

  lemma {:induction false} FlatHead(frames: seq<Frame>)
    requires |frames| > 0
    ensures Flat(frames) == frames[0] + Flat(frames[1..])
  {
    if |frames| > 1 {
      FlatHead(frames[..|frames| - 1]);
      assert frames[..|frames| - 1][1..] == frames[1..][..|frames| - 2];
    } else {
      EmptyFlat(frames);
      assert frames[..0] == frames[1..] == [];
    }
  }

  lemma SilentSquare()
    ensures BurgTheory.Square(0.0) == 0.0
  {
  }

  lemma {:induction false} LostOutput(m: Format, events: seq<Event>)
    requires ValidFormat(m) && WellFramed(m, events) && |events| > 0 && events[|events| - 1].Lost?
    ensures var k := |events| - 1;
            Play(m, events).outs[k] == if k > m.past then FirstOf(m, Predicted(m, Play(m, events[..k]).outs))
                                       else Zeros(m.fpp)
  {
    hide Predicted, FirstOf, SecondOf;
  }

  lemma {:induction false} FirstPredictedIsBounded(m: Format, outs: seq<Frame>, i: nat)
    requires ValidFormat(m) && Framed(m, outs) && i < m.fpp
    ensures var past := Flat(LastFrames(m, outs));
            BurgTheory.Square(FirstOf(m, Predicted(m, outs))[i]) <= 2.00002 * Dot(past, past)
  {
    hide Dot, Burg.Continuation, HistorySize, Flat, LastFrames, BurgTheory.Square;
    var past := Flat(LastFrames(m, outs));
    FlatLength(m, LastFrames(m, outs));
    HistoryIsNotEmpty(m);
    BurgTheory.PredictionIsBounded(past, TailSize(m), HistorySize(m) + i);
  }
}
