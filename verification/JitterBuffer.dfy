/** The jitter buffer: a byte ring whose positions count bytes since the start, whose read position
    jumps to correct latency, and whose counters account for every jump. */
module JitterBuffer {
  import opened Circular
  import opened Numbers

  /** Set once by the constructor, with the automatic queue off (a positive queue length). */
  datatype Config = Config(
    slotSize: int,
    totalSize: int,
    minStepSize: int,
    bitRes: int,
    broadcastLatency: int,
    startLatency: int,             // the initial maxLatency
    underrunIncTolerance: real,
    corrIncTolerance: real,
    overflowDecTolerance: real,
    overflowDropStep: int,
    minLevelThreshold: real,
    levelDownRate: real)

  datatype State = State(
    active: bool,
    inSlotSize: int,
    maxLatency: int,
    read: int,
    write: int,
    levelCur: real,
    level: int,
    corrCounter: int,
    corrDirection: int,
    skewRaw: int,
    readsNew: int,
    underruns: int,
    underrunsNew: int,
    overflows: int,
    decOverflow: int,
    decPktLoss: int,
    incUnderrun: int,
    incCompensate: int)

  datatype Broadcast = Broadcast(position: int, corr: real, skew: int, delta: int)

  /** Truncation toward zero of a real. */
  function Truncate(x: real): int { if x >= 0.0 then x.Floor else -(-x).Floor }

  /** C++ integer division. */
  function TruncDiv(a: int, b: int): int
    requires b > 0
  {
    if a >= 0 then a / b else -((-a) / b)
  }

  function Abs(a: int): int { if a < 0 then -a else a }

  function MakeConfig(bufSamples: int, qlen: int, sampleRate: int, strategy: int, bcastQlen: int,
                      channels: int, bitRes: int): Config
    requires sampleRate > 0
  {
    var slot := bufSamples * channels * bitRes;
    var latency := qlen * slot;
    Config(
      slot, sampleRate * channels * bitRes * 2, channels * bitRes, bitRes, bcastQlen * slot, latency,
      if strategy == 2 then 1.1 * slot as real else -10.0 * slot as real,
      if strategy == 2 then 1.9 * slot as real else 100.0 * latency as real,
      if strategy == 2 then 0.1 * slot as real else 100.0 * latency as real,
      if strategy == 1 || strategy == 2 then slot else TruncDiv(latency, 2),
      1.9 * slot as real,
      MinInt(256, bufSamples) as real / (5.0 * sampleRate as real) * slot as real)
  }

  function Init(c: Config): State {
    State(false, c.slotSize, c.startLatency, 0, c.startLatency, c.startLatency as real, c.startLatency,
          0, 0, 0, 0, 0, 0, 0, 0, 0, 0, 0)
  }

  function CorrFactor(counter: int): (f: real)
    ensures 0.0 < f <= 1.0
  {
    var d := if counter < 500 then 500.0 else counter as real;
    Share(500.0, d);
    500.0 / d
  }

  lemma {:induction false} Share(a: real, d: real)
    requires 0.0 < a <= d
    ensures 0.0 < a / d <= 1.0
  {
    var q := a / d;
    assert q * d == a;
    if q <= 0.0 {
      NonPositive(q, d);
    } else if q > 1.0 {
      AboveOne(q, d);
    }
  }

  lemma {:induction false} NonPositive(q: real, d: real)
    requires q <= 0.0 < d
    ensures q * d <= 0.0
  {
  }

  lemma {:induction false} AboveOne(q: real, d: real)
    requires q > 1.0 && d > 0.0
    ensures q * d > d
  {
    assert (q - 1.0) * d > 0.0;
  }

  /** Levels below which an insert catches up, compensates, or may skip for a loss. */
  function CatchUpLevel(c: Config, maxLatency: int, inSlotSize: int, counter: int): real {
    MaxReal(inSlotSize as real + c.minLevelThreshold,
            maxLatency as real - c.underrunIncTolerance - 2.0 * c.slotSize as real * CorrFactor(counter))
  }

  function CompensateLevel(c: Config, maxLatency: int, counter: int): real {
    maxLatency as real - c.corrIncTolerance - 6.0 * c.slotSize as real * CorrFactor(counter)
  }

  function SkipLevel(c: Config, maxLatency: int, counter: int): real {
    maxLatency as real - c.overflowDecTolerance * (1.1 - CorrFactor(counter))
  }

  // ---------------------------------------------------------------------------------------
  // Packet loss

  /** Bytes of the announced loss that are dropped instead of padded. */
  function LossDelta(c: Config, s: State, lostLen: int): int {
    var available := s.write - s.read;
    var delta := MinInt(available + s.inSlotSize + lostLen - s.maxLatency, lostLen);
    if 0 < delta then delta
    else if SkipsForLoss(c, s, lostLen) then MinInt(lostLen, c.slotSize)
    else 0
  }

  predicate SkipsForLoss(c: Config, s: State, lostLen: int) {
    && c.slotSize < s.write - s.read + lostLen
    && (c.overflowDecTolerance > s.maxLatency as real
        || (0 < s.corrDirection
            && s.levelCur > SkipLevel(c, s.maxLatency, s.corrCounter)))
  }

  /** Zero bytes written in place of lost packets. */
  function Residual(c: Config, s: State, lostLen: int): int {
    lostLen - LossDelta(c, s, lostLen)
  }

  predicate ComesLate(s: State, lostLen: int) {
    0 < MinInt(s.write - s.read + s.inSlotSize + lostLen - s.maxLatency, lostLen)
  }

  /** The part of the loss that is dropped, counted. */
  function DropLoss(c: Config, s: State, lostLen: int): State {
    var delta := LossDelta(c, s, lostLen);
    var t := s.(skewRaw := s.skewRaw - lostLen);
    if ComesLate(s, lostLen) then
      t.(decPktLoss := s.decPktLoss + delta, levelCur := s.maxLatency as real, corrCounter := 0, corrDirection := 1)
    else if SkipsForLoss(c, s, lostLen) then
      t.(decPktLoss := s.decPktLoss + delta, levelCur := s.levelCur - delta as real,
         corrCounter := 0, corrDirection := 1)
    else t
  }

  function Loss(c: Config, s: State, lostLen: int): State {
    var late, pad := s.read - s.write, Residual(c, s, lostLen);
    var t := DropLoss(c, s, lostLen);
    t.(underruns := s.underruns + if 0 < pad then MaxInt(0, pad - MaxInt(0, late)) else 0,
       write := s.write + pad)
  }

  // ---------------------------------------------------------------------------------------
  // Insert

  datatype Branch = Reset | Overflow | CatchUp | Compensate | Keep

  function Decide(c: Config, s: State, len: int): Branch {
    var available := s.write - s.read;
    if available < -10 * s.maxLatency then Reset
    else if available + len > s.maxLatency then Overflow
    else if 0 > available
      && s.levelCur < CatchUpLevel(c, s.maxLatency, s.inSlotSize, s.corrCounter) then CatchUp
    else if s.levelCur < CompensateLevel(c, s.maxLatency, s.corrCounter) then Compensate
    else Keep
  }

  /** How far the read position jumps. */
  function Jump(c: Config, s: State, len: int): int {
    match Decide(c, s, len)
    case Reset => s.write - s.read
    case Overflow => c.overflowDropStep
    case CatchUp => -MinInt(-(s.write - s.read), c.slotSize)
    case Compensate => -c.slotSize
    case Keep => 0
  }

  /** Length, activation, minimum latency and loss padding, ahead of the latency decision. */
  function Admit(c: Config, s: State, len: int, lostLen: int): State {
    var grown := s.(inSlotSize := len, active := true,
                    maxLatency := MaxInt(s.maxLatency, len + c.slotSize));
    if 0 < lostLen then Loss(c, grown, lostLen) else grown
  }

  /** The level in whole slots, in bytes. */
  function RoundedLevel(c: Config, levelCur: real): int
    requires c.slotSize > 0
  {
    c.slotSize * Ceil(levelCur / c.slotSize as real)
  }

  function FoldCounters(c: Config, s: State, len: int): State
    requires c.slotSize > 0
  {
    s.(skewRaw := s.skewRaw + s.readsNew - len, readsNew := 0,
       underruns := s.underruns + s.underrunsNew, underrunsNew := 0,
       level := RoundedLevel(c, s.levelCur))
  }

  /** The counters and the level of the chosen branch. */
  function Count(c: Config, s: State, len: int): State {
    var delta := Jump(c, s, len);
    match Decide(c, s, len)
    case Reset => s.(incUnderrun := s.incUnderrun - delta, levelCur := len as real)
    case Overflow => s.(overflows := s.overflows + delta, decOverflow := s.decOverflow + delta,
                        levelCur := s.maxLatency as real)
    case CatchUp => s.(incUnderrun := s.incUnderrun - delta)
    case Compensate => s.(underruns := s.underruns - delta, incCompensate := s.incCompensate - delta)
    case Keep => s
  }

  /** The jump itself, and the memory of when and where the last one went. */
  function Shift(s: State, delta: int): State {
    if delta == 0 then s.(corrCounter := s.corrCounter + 1)
    else s.(read := s.read + delta, corrCounter := 0, corrDirection := if 0 < delta then 1 else -1)
  }

  function Adjust(c: Config, s: State, len: int): State {
    Shift(Count(c, s, len), Jump(c, s, len))
  }

  function Insert(c: Config, s: State, len: int, lostLen: int): State
    requires c.slotSize > 0
  {
    var moved := Adjust(c, FoldCounters(c, Admit(c, s, len, lostLen), len), len);
    moved.(write := moved.write + len)
  }

  // ---------------------------------------------------------------------------------------
  // Read

  function Bound(lo: int, v: int, hi: int): int { MaxInt(lo, MinInt(hi, v)) }

  function Read(c: Config, s: State): State {
    if !s.active then s
    else
      var available := s.write - s.read;
      s.(readsNew := s.readsNew + c.slotSize,
         levelCur := FollowLevel(s.levelCur, available, c.levelDownRate),
         underrunsNew := s.underrunsNew + c.slotSize - Bound(0, available, c.slotSize),
         read := s.read + c.slotSize)
  }

  // ---------------------------------------------------------------------------------------
  // The broadcast reader

  predicate BroadcastActive(c: Config, s: State) {
    c.broadcastLatency + c.slotSize <= s.read
  }

  function Drift(c: Config, s: State, b: Broadcast): int {
    s.read - c.broadcastLatency - b.position - c.slotSize
  }

  predicate Snaps(c: Config, s: State, b: Broadcast) {
    Abs(Drift(c, s, b)) > c.broadcastLatency / 2
  }

  /** Whole steps of correction due after this call's drift has been added. */
  function StepsDue(c: Config, s: State, b: Broadcast): int
    requires c.minStepSize > 0
  {
    Truncate((b.corr + 0.0003 * Drift(c, s, b) as real) / c.minStepSize as real)
  }

  predicate Interpolates(c: Config, s: State, b: Broadcast)
    requires c.minStepSize > 0
  {
    !Snaps(c, s, b) && StepsDue(c, s, b) != 0 && c.bitRes == 2 && s.write - b.position > c.slotSize
  }

  /** Where the bytes of an uninterpolated read start. */
  function BroadcastStart(c: Config, s: State, b: Broadcast): int
    requires c.minStepSize > 0
  {
    if Snaps(c, s, b) then s.read - c.broadcastLatency - c.slotSize
    else if StepsDue(c, s, b) != 0 && !Interpolates(c, s, b) then b.position + StepsDue(c, s, b) * c.minStepSize
    else b.position
  }

  function ReadBroadcast(c: Config, s: State, b: Broadcast): Broadcast
    requires c.minStepSize > 0
  {
    var d, steps, start := Drift(c, s, b), StepsDue(c, s, b), BroadcastStart(c, s, b);
    var m := c.minStepSize;
    if !BroadcastActive(c, s) then b
    else if Snaps(c, s, b) then Broadcast(start + c.slotSize, 0.0, b.skew + TruncDiv(d, m), TruncDiv(d, m))
    else
      Broadcast(
        if Interpolates(c, s, b) then start + c.slotSize + steps * m else start + c.slotSize,
        b.corr + 0.0003 * d as real - (steps * m) as real, b.skew + steps, TruncDiv(d, m))
  }

  // ---------------------------------------------------------------------------------------
  // The imperative buffer

  class JitterBuffer {
    const config: Config
    const ringBuffer: array<int>
    var active: bool
    var inSlotSize: int
    var maxLatency: int
    var readPosition: int
    var writePosition: int
    var levelCur: real
    var level: int
    var lastCorrCounter: int
    var lastCorrDirection: int
    var skewRaw: int
    var readsNew: int
    var underruns: int
    var underrunsNew: int
    var overflows: int
    var bufDecOverflow: int
    var bufDecPktLoss: int
    var bufIncUnderrun: int
    var bufIncCompensate: int
    var broadcastPosition: int
    var broadcastPositionCorr: real
    var broadcastSkew: int
    var broadcastDelta: int
    ghost var stream: seq<int>      // every byte written so far, padding included

    ghost function Value(): State
      reads this
    {
      State(active, inSlotSize, maxLatency, readPosition, writePosition, levelCur, level,
            lastCorrCounter, lastCorrDirection, skewRaw, readsNew, underruns, underrunsNew, overflows,
            bufDecOverflow, bufDecPktLoss, bufIncUnderrun, bufIncCompensate)
    }

    ghost function Listener(): Broadcast
      reads this
    {
      Broadcast(broadcastPosition, broadcastPositionCorr, broadcastSkew, broadcastDelta)
    }

    ghost predicate Valid()
      reads this, ringBuffer
    {
      && config.slotSize > 0 && config.minStepSize > 0 && ringBuffer.Length == config.totalSize > 0
      && config.slotSize <= config.totalSize
      && |stream| == writePosition
      && Mirrors(ringBuffer[..], stream)
    }

    constructor (c: Config)
      requires 0 < c.slotSize <= c.totalSize && c.minStepSize > 0 && c.startLatency >= 0
      ensures Valid() && config == c && fresh(ringBuffer)
      ensures Value() == Init(c) && Listener() == Broadcast(0, 0.0, 0, 0)
      ensures stream == Zeros(c.startLatency) && !active && readPosition == 0 && writePosition == c.startLatency
      ensures maxLatency == c.startLatency && levelCur == c.startLatency as real
    {
      config := c;
      ringBuffer := new int[c.totalSize](_ => 0);
      active, inSlotSize, maxLatency := false, c.slotSize, c.startLatency;
      readPosition, writePosition := 0, c.startLatency;
      levelCur, level := c.startLatency as real, c.startLatency;
      lastCorrCounter, lastCorrDirection := 0, 0;
      skewRaw, readsNew, underruns, underrunsNew, overflows := 0, 0, 0, 0, 0;
      bufDecOverflow, bufDecPktLoss, bufIncUnderrun, bufIncCompensate := 0, 0, 0, 0;
      broadcastPosition, broadcastPositionCorr, broadcastSkew, broadcastDelta := 0, 0.0, 0, 0;
      stream := Zeros(c.startLatency);
    }

    /** Copies data into the ring from position pos on, in one piece or two. */
    method CopyIn(pos: nat, data: seq<int>)
      requires ringBuffer.Length > 0 && |data| <= ringBuffer.Length
      modifies ringBuffer
      ensures ringBuffer[..] == Overwrite(old(ringBuffer[..]), pos % ringBuffer.Length, data)
    {
      var wpos := pos % ringBuffer.Length;
      var n := MinInt(ringBuffer.Length - wpos, |data|);
      forall i | 0 <= i < n {
        ringBuffer[wpos + i] := data[i];
      }
      if n < |data| {
        forall i | 0 <= i < |data| - n {
          ringBuffer[i] := data[n + i];
        }
      }
    }

    method CopyOut(pos: nat, n: nat) returns (out: seq<int>)
      requires 0 < ringBuffer.Length && n <= ringBuffer.Length
      ensures out == Extract(ringBuffer[..], pos % ringBuffer.Length, n)
    {
      var rpos := pos % ringBuffer.Length;
      var first := MinInt(ringBuffer.Length - rpos, n);
      out := ringBuffer[rpos..rpos + first];
      if first < n {
        out := out + ringBuffer[..n - first];
      }
    }

    /** Writes the next bytes of the stream and advances the write position. */
    method Append(data: seq<int>)
      requires Valid() && |data| <= config.totalSize
      modifies `writePosition, `stream, ringBuffer
      ensures Valid() && stream == old(stream) + data && writePosition == old(writePosition) + |data|
    {
      hide Mirrors, Overwrite;
      WriteKeepsMirror(ringBuffer[..], stream, data);
      CopyIn(writePosition, data);
      stream := stream + data;
      writePosition := writePosition + |data|;
    }

    /** Writes lostLen zeros in place of lost packets. */
    method PadZeros(lostLen: nat)
      requires Valid()
      modifies `writePosition, `stream, ringBuffer
      ensures Valid() && stream == old(stream) + Zeros(lostLen) && writePosition == old(writePosition) + lostLen
    {
      hide Mirrors, Overwrite;
      if lostLen >= config.totalSize {
        forall i | 0 <= i < ringBuffer.Length {
          ringBuffer[i] := 0;
        }
        assert ringBuffer[..] == Zeros(config.totalSize);
        ZerosKeepMirror(stream, config.totalSize, lostLen);
        stream := stream + Zeros(lostLen);
        writePosition := writePosition + lostLen;
      } else {
        Append(Zeros(lostLen));
      }
    }

    /** Returns false, and does nothing, only when the packet is larger than the whole buffer. */
    method InsertSlotNonBlocking(slot: seq<int>, length: nat, lostLen: int) returns (ok: bool)
      requires Valid()
      requires |slot| == if length == 0 then config.slotSize else length
      modifies `inSlotSize, `active, `maxLatency, `skewRaw, `readsNew, `bufDecPktLoss, `levelCur, `level
      modifies `lastCorrCounter, `lastCorrDirection, `underruns, `underrunsNew, `overflows, `bufDecOverflow
      modifies `bufIncUnderrun, `bufIncCompensate, `readPosition, `writePosition, `stream, ringBuffer
      ensures Valid()
      ensures ok <==> |slot| <= config.totalSize
      ensures Value() == if ok then Insert(config, old(Value()), |slot|, lostLen) else old(Value())
      ensures ok ==>
        var pad := old(Residual(config, Admit(config, Value(), |slot|, 0), lostLen));
        (0 < lostLen ==> 0 <= pad) &&
        stream == old(stream) + (if 0 < lostLen then Zeros(pad) else []) + slot
      ensures !ok ==> stream == old(stream)
    {
      hide Admit, Adjust, Residual, Mirrors, FoldCounters, Zeros;
      var len := |slot|;
      if len > config.totalSize {
        return false;
      }
      AdmitPacket(len, lostLen);
      Settle(len);
      Append(slot);
      return true;
    }

    /** Statistics and the latency correction, ahead of the copy. */
    method Settle(len: int)
      requires Valid()
      modifies `skewRaw, `readsNew, `levelCur, `level, `lastCorrCounter, `lastCorrDirection, `underruns
      modifies `underrunsNew, `overflows, `bufDecOverflow, `bufIncUnderrun, `bufIncCompensate, `readPosition
      ensures Valid()
      ensures Value() == Adjust(config, FoldCounters(config, old(Value()), len), len)
    {
      hide Adjust, FoldCounters, Mirrors;
      FoldReads(len);
      UpdatePositions(len);
    }

    /** Length, activation, minimum latency and loss padding. */
    method AdmitPacket(len: int, lostLen: int)
      requires Valid()
      modifies `inSlotSize, `active, `maxLatency, `skewRaw, `bufDecPktLoss, `levelCur, `lastCorrCounter
      modifies `lastCorrDirection, `underruns, `writePosition, `stream, ringBuffer
      ensures Valid()
      ensures Value() == Admit(config, old(Value()), len, lostLen)
      ensures var pad := old(Residual(config, Admit(config, Value(), len, 0), lostLen));
              (0 < lostLen ==> 0 <= pad) && stream == old(stream) + if 0 < lostLen then Zeros(pad) else []
    {
      hide Loss, Residual, Mirrors;
      inSlotSize := len;
      if !active {
        active := true;
      }
      if maxLatency < len + config.slotSize {
        maxLatency := len + config.slotSize;
      }
      assert Value() == Admit(config, old(Value()), len, 0);
      if 0 < lostLen {
        ProcessPacketLoss(lostLen);
      }
    }

    /** Folds what the reads have counted since the last insert into the statistics. */
    method FoldReads(len: int)
      requires Valid()
      modifies `skewRaw, `readsNew, `underruns, `underrunsNew, `level
      ensures Value() == FoldCounters(config, old(Value()), len)
    {
      hide RoundedLevel, Mirrors;
      skewRaw := skewRaw + readsNew - len;
      readsNew := 0;
      underruns := underruns + underrunsNew;
      underrunsNew := 0;
      level := RoundedLevel(config, levelCur);
    }

    /** The latency decision: picks the jump and counts it. */
    method DecideJump(len: int) returns (delta: int)
      requires Valid()
      modifies `levelCur, `underruns, `overflows, `bufDecOverflow, `bufIncUnderrun, `bufIncCompensate
      ensures delta == Jump(config, old(Value()), len)
      ensures Value() == Count(config, old(Value()), len)
    {
      hide CatchUpLevel, CompensateLevel, Mirrors;
      var available := writePosition - readPosition;
      delta := 0;
      if available < -10 * maxLatency {
        delta := available;
        bufIncUnderrun := bufIncUnderrun - delta;
        levelCur := len as real;
      } else if available + len > maxLatency {
        delta := config.overflowDropStep;
        overflows := overflows + delta;
        bufDecOverflow := bufDecOverflow + delta;
        levelCur := maxLatency as real;
      } else if 0 > available
        && levelCur < CatchUpLevel(config, maxLatency, inSlotSize, lastCorrCounter)
      {
        delta := -MinInt(-available, config.slotSize);
        bufIncUnderrun := bufIncUnderrun - delta;
      } else if levelCur < CompensateLevel(config, maxLatency, lastCorrCounter) {
        delta := -config.slotSize;
        underruns := underruns - delta;
        bufIncCompensate := bufIncCompensate - delta;
      }
    }

    method UpdatePositions(len: int)
      requires Valid()
      modifies `readPosition, `levelCur, `lastCorrCounter, `lastCorrDirection, `underruns, `overflows
      modifies `bufDecOverflow, `bufIncUnderrun, `bufIncCompensate
      ensures Value() == Adjust(config, old(Value()), len)
    {
      hide Count, Jump;
      var delta := DecideJump(len);
      if 0 != delta {
        readPosition := readPosition + delta;
        lastCorrCounter := 0;
        lastCorrDirection := if 0 < delta then 1 else -1;
      } else {
        lastCorrCounter := lastCorrCounter + 1;
      }
    }

    /** Drops from the announced loss what would exceed the latency; returns what is left to pad. */
    method DropForLoss(lost: int) returns (lostLen: int)
      requires Valid() && 0 < lost
      modifies `skewRaw, `bufDecPktLoss, `levelCur, `lastCorrCounter, `lastCorrDirection
      ensures lostLen == Residual(config, old(Value()), lost)
      ensures Value() == DropLoss(config, old(Value()), lost)
    {
      hide SkipLevel, Mirrors;
      lostLen := lost;
      skewRaw := skewRaw - lostLen;
      var available := writePosition - readPosition;
      var delta := MinInt(available + inSlotSize + lostLen - maxLatency, lostLen);
      if 0 < delta {
        lostLen := lostLen - delta;
        bufDecPktLoss := bufDecPktLoss + delta;
        levelCur := maxLatency as real;
        lastCorrCounter := 0;
        lastCorrDirection := 1;
      } else if config.slotSize < available + lostLen
        && (config.overflowDecTolerance > maxLatency as real
            || (0 < lastCorrDirection && levelCur > SkipLevel(config, maxLatency, lastCorrCounter)))
      {
        delta := MinInt(lostLen, config.slotSize);
        lostLen := lostLen - delta;
        bufDecPktLoss := bufDecPktLoss + delta;
        levelCur := levelCur - delta as real;
        lastCorrCounter := 0;
        lastCorrDirection := 1;
      }
    }

    method ProcessPacketLoss(lost: int)
      requires Valid() && 0 < lost
      modifies `skewRaw, `bufDecPktLoss, `levelCur, `lastCorrCounter, `lastCorrDirection, `underruns
      modifies `writePosition, `stream, ringBuffer
      ensures Valid()
      ensures Value() == Loss(config, old(Value()), lost)
      ensures var pad := old(Residual(config, Value(), lost));
              0 <= pad && stream == old(stream) + Zeros(pad)
    {
      hide Residual, DropLoss, Mirrors;
      ResidualNonNegative(config, Value(), lost);
      DropLossFrame(config, Value(), lost);
      var available := writePosition - readPosition;
      var lostLen := DropForLoss(lost);
      if 0 < lostLen {
        underruns := underruns + MaxInt(0, lostLen - MaxInt(0, -available));
      }
      PadZeros(lostLen);
    }

    /** Inside the window the bytes are those of the stream, with zeros past the write position. */
    method ReadSlotNonBlocking() returns (out: seq<int>)
      requires Valid()
      modifies `readsNew, `levelCur, `underrunsNew, `readPosition
      ensures Valid()
      ensures Value() == Read(config, old(Value()))
      ensures |out| == config.slotSize
      ensures !old(active) ==> out == Zeros(config.slotSize)
      ensures var start := old(readPosition);
              old(active) && 0 <= start && writePosition - start <= config.totalSize ==>
                forall i :: 0 <= i < config.slotSize ==>
                  out[i] == if start + i < |stream| then stream[start + i] else 0
    {
      hide FollowLevel, Mirrors;
      var len := config.slotSize;
      if !active {
        return Zeros(len);
      }
      readsNew := readsNew + len;
      var available := writePosition - readPosition;
      UpdateLevel(available);
      var readLen := Bound(0, available, len);
      out := ReadAt(readPosition, readLen, len);
      if readLen < len {
        underrunsNew := underrunsNew + (len - readLen);
      }
      readPosition := readPosition + len;
    }

    method UpdateLevel(available: int)
      modifies `levelCur
      ensures levelCur == FollowLevel(old(levelCur), available, config.levelDownRate)
    {
      if available as real < levelCur {
        levelCur := MaxReal(available as real, levelCur - config.levelDownRate);
      } else {
        levelCur := available as real;
      }
    }

    /** readLen bytes from a position on, filled up with zeros. */
    method ReadAt(position: int, readLen: nat, len: nat) returns (out: seq<int>)
      requires Valid() && readLen <= len <= config.totalSize
      ensures |out| == len
      ensures 0 <= position && writePosition - position <= config.totalSize
              && readLen == Bound(0, writePosition - position, len) ==>
                forall i :: 0 <= i < len ==> out[i] == if position + i < |stream| then stream[position + i] else 0
    {
      if 0 <= position && 0 < readLen && writePosition - position <= config.totalSize
        && position + readLen <= writePosition
      {
        ReadMirrored(ringBuffer[..], stream, position, readLen);
      }
      SmallModulus(position, config.totalSize);
      out := CopyOut(position % config.totalSize, readLen);
      if readLen < len {
        out := out + Zeros(len - readLen);
      }
    }

    /** The broadcast listener's read.  The values of an interpolated read are not modelled. */
    method ReadBroadcastSlot() returns (out: seq<int>, interpolated: bool)
      requires Valid()
      modifies this
      ensures Valid() && Value() == old(Value()) && stream == old(stream)
      ensures Listener() == ReadBroadcast(config, Value(), old(Listener()))
      ensures interpolated <==> BroadcastActive(config, Value()) && Interpolates(config, Value(), old(Listener()))
      ensures config.broadcastLatency + config.slotSize > readPosition ==> out == Zeros(config.slotSize)
      ensures !interpolated ==> |out| == config.slotSize
      ensures var start := BroadcastStart(config, Value(), old(Listener()));
              BroadcastActive(config, Value()) && !interpolated
                && 0 <= start && writePosition - start <= config.totalSize ==>
                forall i :: 0 <= i < config.slotSize ==>
                  out[i] == if start + i < |stream| then stream[start + i] else 0
    {
      hide Mirrors, ReadBroadcast, BroadcastStart, Interpolates;
      var len := config.slotSize;
      if config.broadcastLatency + len > readPosition {
        InactiveListener(config, Value(), Listener());
        return Zeros(len), false;
      }
      var start;
      start, interpolated := MoveListener();
      out := [];
      if !interpolated {
        var readLen := Bound(0, writePosition - start, len);
        out := ReadAt(start, readLen, len);
      }
    }

    /** Moves an active listener past this read; returns where the read starts. */
    method MoveListener() returns (start: int, interpolated: bool)
      requires config.minStepSize > 0 && BroadcastActive(config, Value())
      modifies `broadcastPosition, `broadcastPositionCorr, `broadcastSkew, `broadcastDelta
      ensures Listener() == ReadBroadcast(config, Value(), old(Listener()))
      ensures interpolated <==> Interpolates(config, Value(), old(Listener()))
      ensures start == BroadcastStart(config, Value(), old(Listener()))
    {
      hide Truncate, TruncDiv;
      var len := config.slotSize;
      interpolated := false;
      var d := readPosition - config.broadcastLatency - broadcastPosition - len;
      if Abs(d) > config.broadcastLatency / 2 {
        broadcastPosition := readPosition - config.broadcastLatency - len;
        broadcastPositionCorr := 0.0;
        broadcastSkew := broadcastSkew + TruncDiv(d, config.minStepSize);
      } else {
        broadcastPositionCorr := broadcastPositionCorr + 0.0003 * d as real;
        var delta := Truncate(broadcastPositionCorr / config.minStepSize as real);
        if 0 != delta {
          broadcastPositionCorr := broadcastPositionCorr - (delta * config.minStepSize) as real;
          if 2 == config.bitRes && writePosition - broadcastPosition > len {
            interpolated := true;
            len := len + delta * config.minStepSize;
          } else {
            broadcastPosition := broadcastPosition + delta * config.minStepSize;
          }
          broadcastSkew := broadcastSkew + delta;
        }
      }
      broadcastDelta := TruncDiv(d, config.minStepSize);
      start := broadcastPosition;
      broadcastPosition := broadcastPosition + len;
    }
  }

  lemma InactiveListener(c: Config, s: State, b: Broadcast)
    requires c.minStepSize > 0 && !BroadcastActive(c, s)
    ensures ReadBroadcast(c, s, b) == b
  {
  }

  lemma {:induction false} SmallModulus(p: int, n: int)
    requires n > 0
    ensures 0 <= p % n < n && (p % n) % n == p % n
  {
    ModUnique(p % n, 0, p % n, n);
  }

  /** Dropping leaves the positions and the underrun counter alone. */
  lemma DropLossFrame(c: Config, s: State, lostLen: int)
    ensures var t := DropLoss(c, s, lostLen);
            t.write == s.write && t.read == s.read && t.underruns == s.underruns
  {
  }

  /** Padding never goes negative. */
  lemma ResidualNonNegative(c: Config, s: State, lostLen: int)
    requires 0 < lostLen && c.slotSize > 0
    ensures 0 <= Residual(c, s, lostLen) <= lostLen
  {
  }
}
