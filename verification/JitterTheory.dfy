/** The jitter buffer over whole runs: bounded occupancy, exact accounting of every jump, and the
    broadcast listener's position. */
module JitterTheory {
  import opened JitterBuffer
  import opened Numbers
  import Vectors

  // ---------------------------------------------------------------------------------------
  // Accounting

  /** Occupancy corrected by every counter that moves a position. */
  function Balance(s: State): int {
    s.write - s.read + s.skewRaw + s.readsNew + s.decOverflow + s.decPktLoss - s.incUnderrun - s.incCompensate
  }

  /** Every insert, of any length and with any announced loss, keeps the balance. */
  lemma InsertKeepsBalance(c: Config, s: State, len: int, lostLen: int)
    requires c.slotSize > 0
    ensures Balance(Insert(c, s, len, lostLen)) == Balance(s)
  {
    hide CompensateLevel, CatchUpLevel, SkipLevel, RoundedLevel;
    var admitted := Admit(c, s, len, lostLen);
    assert Balance(admitted) == Balance(s) by {
      LossKeepsBalance(c, Admit(c, s, len, 0), lostLen);
    }
    AdjustKeepsBalance(c, FoldCounters(c, admitted, len), len);
  }

  lemma LossKeepsBalance(c: Config, s: State, lostLen: int)
    ensures Balance(Loss(c, s, lostLen)) == Balance(s)
  {
    hide SkipLevel;
  }

  lemma AdjustKeepsBalance(c: Config, s: State, len: int)
    ensures Balance(Adjust(c, s, len)) == Balance(s)
  {
    hide CompensateLevel, CatchUpLevel;
  }

  lemma ReadKeepsBalance(c: Config, s: State)
    ensures Balance(Read(c, s)) == Balance(s)
  {
    hide FollowLevel;
  }

  /** Padding is written only up to the latency: it never makes the same insert overflow. */
  lemma PaddingNeverOverflows(c: Config, s: State, len: int, lostLen: int)
    requires c.slotSize > 0 && 0 < lostLen && 0 < Residual(c, Admit(c, s, len, 0), lostLen)
    ensures !Decide(c, FoldCounters(c, Admit(c, s, len, lostLen), len), len).Overflow?
  {
    hide CompensateLevel, CatchUpLevel, SkipLevel, RoundedLevel;
  }

  // ---------------------------------------------------------------------------------------
  // Where the positions land

  /** Insert without a loss: the packet goes behind the write position, and the reader is put there
      when it is hopelessly ahead, dropped forward when the latency would be exceeded, moved back to
      meet the packet (by at most a slot) when it has run ahead at a low level, moved back by a slot
      when the level is too low, and otherwise left alone. */
  lemma InsertLands(c: Config, s: State, len: int)
    requires c.slotSize > 0
    ensures var r, ahead := Insert(c, s, len, 0), s.read - s.write;
            var most := MaxInt(s.maxLatency, len + c.slotSize);
            var slots := c.slotSize as real * (500.0 / if s.corrCounter < 500 then 500.0 else s.corrCounter as real);
            && r.write == s.write + len && r.maxLatency == most && r.inSlotSize == len && r.active
            && r.read ==
                 if ahead > 10 * most then s.write
                 else if len - ahead > most then s.read + c.overflowDropStep
                 else if ahead > 0 && (s.levelCur < len as real + c.minLevelThreshold
                                       || s.levelCur < most as real - c.underrunIncTolerance - 2.0 * slots)
                 then MaxInt(s.write, s.read - c.slotSize)
                 else if s.levelCur < most as real - c.corrIncTolerance - 6.0 * slots then s.read - c.slotSize
                 else s.read
  {
    hide RoundedLevel;
    Reassociate(c.slotSize as real, CorrFactor(s.corrCounter));
  }

  lemma {:induction false} Reassociate(slot: real, f: real)
    ensures 2.0 * slot * f == 2.0 * (slot * f) && 6.0 * slot * f == 6.0 * (slot * f)
  {
  }

  /** The counters of such an insert say where the reader went. */
  lemma InsertCounts(c: Config, s: State, len: int)
    requires c.slotSize > 0 && c.overflowDropStep >= 0 && s.maxLatency >= 0
    ensures var r, ahead := Insert(c, s, len, 0), s.read - s.write;
            var most := MaxInt(s.maxLatency, len + c.slotSize);
            var moved := r.read - s.read;
            var reset, over := ahead > 10 * most, ahead <= 10 * most && len - ahead > most;
            && r.skewRaw == s.skewRaw + s.readsNew - len && r.readsNew == 0 && r.underrunsNew == 0
            && r.decPktLoss == s.decPktLoss
            && r.overflows - s.overflows == r.decOverflow - s.decOverflow == (if over then moved else 0)
            && r.incUnderrun + r.incCompensate - s.incUnderrun - s.incCompensate == (if over then 0 else -moved)
            && (ahead <= 0 ==> r.incUnderrun == s.incUnderrun)
            && r.underruns - s.underruns - s.underrunsNew == r.incCompensate - s.incCompensate
            && r.levelCur == (if reset then len as real else if over then most as real else s.levelCur)
            && (if moved == 0 then r.corrCounter == s.corrCounter + 1 && r.corrDirection == s.corrDirection
                else r.corrCounter == 0 && r.corrDirection == if moved > 0 then 1 else -1)
  {
    hide RoundedLevel, CatchUpLevel, CompensateLevel;
  }

  /** The reported level is the level in whole slots, rounded up. */
  lemma {:induction false} LevelIsRounded(c: Config, s: State, len: int) returns (slots: int)
    requires c.slotSize > 0
    ensures var r := Insert(c, s, len, 0);
            r.level == c.slotSize * slots && r.level as real - c.slotSize as real < s.levelCur <= r.level as real
  {
    hide Adjust, RoundedLevel;
    var q, w := s.levelCur / c.slotSize as real, c.slotSize as real;
    slots := Ceil(q);
    assert q * w == s.levelCur;
    ReportedLevel(c, s, len);
    ProductAsReal(c.slotSize, slots);
    var k := slots as real;
    ScaledOrder(q, k, w, q * w, k * w);
    Vectors.PositiveProduct(q + 1.0 - k, w, (q + 1.0 - k) * w);
    assert (q + 1.0 - k) * w == s.levelCur + w - k * w;
    assert k * w == w * k;
  }

  lemma ReportedLevel(c: Config, s: State, len: int)
    requires c.slotSize > 0
    ensures Insert(c, s, len, 0).level == c.slotSize * Ceil(s.levelCur / c.slotSize as real)
  {
    hide Ceil, Jump, Decide;
  }

  /** Without an overflow no insert moves the reader forward, nor back by more than a slot, unless it
      resets the reader, exactly to the write position. */
  lemma ReaderNeverSkipsAhead(c: Config, s: State, len: int)
    requires c.slotSize > 0 && len >= 0
    ensures var r, most := Insert(c, s, len, 0), MaxInt(s.maxLatency, len + c.slotSize);
            if s.read - s.write > 10 * most then r.read == s.write
            else s.write - s.read + len <= most ==> s.read - c.slotSize <= r.read <= s.read
  {
    InsertLands(c, s, len);
  }

  /** An announced loss, ahead of the packet: what fits into the latency beside the packet is padded,
      or all but a slot of it when latency should shrink; the rest is counted as dropped. */
  lemma LossLands(c: Config, s: State, len: int, lostLen: int)
    requires c.slotSize > 0 && 0 < lostLen
    ensures var held, most := s.write - s.read, MaxInt(s.maxLatency, len + c.slotSize);
            var share := 500.0 / if s.corrCounter < 500 then 500.0 else s.corrCounter as real;
            var late := lostLen > most - held - len;
            var skips := !late && c.slotSize < held + lostLen
                         && (c.overflowDecTolerance > most as real
                             || (0 < s.corrDirection
                                 && s.levelCur > most as real - c.overflowDecTolerance * (1.1 - share)));
            var pad := if late then MaxInt(0, most - held - len)
                       else if skips then MaxInt(0, lostLen - c.slotSize) else lostLen;
            var before := s.(write := s.write + pad, skewRaw := s.skewRaw - lostLen,
                             decPktLoss := s.decPktLoss + lostLen - pad,
                             underruns := s.underruns + MaxInt(0, pad - MaxInt(0, -held)),
                             levelCur := if late then most as real
                                         else if skips then s.levelCur - (lostLen - pad) as real else s.levelCur,
                             corrCounter := if late || skips then 0 else s.corrCounter,
                             corrDirection := if late || skips then 1 else s.corrDirection);
            && Residual(c, Admit(c, s, len, 0), lostLen) == pad
            && Insert(c, s, len, lostLen) == Insert(c, before, len, 0)
  {
    hide Adjust, FoldCounters;
  }

  lemma LossWrites(c: Config, s: State, len: int, lostLen: int)
    requires c.slotSize > 0 && 0 < lostLen
    ensures var r := Insert(c, s, len, lostLen);
            r.active && r.write == s.write + Residual(c, Admit(c, s, len, 0), lostLen) + len
  {
    hide Residual, DropLoss, Count, Jump, RoundedLevel;
    DropLossFrame(c, Admit(c, s, len, 0), lostLen);
    CountKeepsWrite(c, FoldCounters(c, Admit(c, s, len, lostLen), len), len);
    DropLossKeepsActive(c, Admit(c, s, len, 0), lostLen);
  }

  lemma CountKeepsWrite(c: Config, s: State, len: int)
    ensures Count(c, s, len).write == s.write && Count(c, s, len).active == s.active
  {
    hide Jump, Decide;
  }

  lemma DropLossKeepsActive(c: Config, s: State, lostLen: int)
    ensures DropLoss(c, s, lostLen).active == s.active
  {
    hide ComesLate, SkipsForLoss, LossDelta;
  }

  /** A read moves on by a slot and counts the bytes that were not there; the level follows the
      occupancy up at once and down at the given rate. */
  lemma ReadLands(c: Config, s: State)
    requires c.slotSize > 0
    ensures var r, held := Read(c, s), s.write - s.read;
            if !s.active then r == s
            else r == s.(read := s.read + c.slotSize, readsNew := s.readsNew + c.slotSize,
                         underrunsNew := s.underrunsNew + if held >= c.slotSize then 0
                                                          else if held <= 0 then c.slotSize else c.slotSize - held,
                         levelCur := if held as real >= s.levelCur then held as real
                                     else if held as real >= s.levelCur - c.levelDownRate then held as real
                                     else s.levelCur - c.levelDownRate)
  {
  }

  // ---------------------------------------------------------------------------------------
  // Occupancy

  /** The steady latency: the configured one, but never less than two slots. */
  function Latency(c: Config): int {
    MaxInt(c.startLatency, 2 * c.slotSize)
  }

  /** The configuration the occupancy bound is promised for. */
  ghost predicate Sized(c: Config) {
    && 0 < c.slotSize <= c.startLatency && c.minStepSize > 0
    && c.corrIncTolerance >= 1.9 * c.slotSize as real
    && c.totalSize >= Latency(c) + c.slotSize
  }

  /** What every reachable state keeps when packets and reads have the slot size. */
  ghost predicate Sane(c: Config, s: State) {
    if !s.active then s == Init(c)
    else
      && s.inSlotSize == c.slotSize && s.maxLatency == Latency(c) <= s.write
      && 0 <= s.read
      && s.write - s.read <= s.maxLatency + c.slotSize
  }

  lemma FirstFactor()
    ensures CorrFactor(0) == 1.0
  {
    assert 500.0 / 500.0 == 1.0;
  }

  /** The occupancy after admission: never more than before, or than leaves room for the packet. */
  lemma AdmitOccupancy(c: Config, s: State, lostLen: int)
    requires Sized(c) && Sane(c, s)
    ensures var r := Admit(c, s, c.slotSize, lostLen);
            && r.active && r.inSlotSize == c.slotSize && r.maxLatency == Latency(c) && r.read == s.read
            && s.write <= r.write
            && r.write - r.read <= MaxInt(s.write - s.read, r.maxLatency - c.slotSize)
            && (!s.active ==> r.levelCur >= 0.0 && r.corrCounter == 0)
  {
    hide SkipLevel;
  }

  /** The first insert has no reason to compensate, whatever the queue length. */
  lemma FirstInsertDoesNotCompensate(c: Config, s: State)
    requires Sized(c) && s.maxLatency == 2 * c.slotSize && s.levelCur >= 0.0 && s.corrCounter == 0
    ensures s.levelCur >= CompensateLevel(c, s.maxLatency, s.corrCounter)
  {
    FirstFactor();
  }

  lemma InsertKeepsSane(c: Config, s: State, lostLen: int)
    requires Sized(c) && Sane(c, s) && c.overflowDropStep >= c.slotSize
    ensures Sane(c, Insert(c, s, c.slotSize, lostLen))
  {
    hide CatchUpLevel, CompensateLevel, RoundedLevel;
    AdmitOccupancy(c, s, lostLen);
    var r := FoldCounters(c, Admit(c, s, c.slotSize, lostLen), c.slotSize);
    if r.maxLatency == 2 * c.slotSize && !s.active {
      FirstInsertDoesNotCompensate(c, r);
    }
    hide Admit;
    SettleOccupancy(c, r, s.active);
  }

  lemma SettleOccupancy(c: Config, r: State, wasActive: bool)
    requires Sized(c) && c.overflowDropStep >= c.slotSize
    requires r.active && r.inSlotSize == c.slotSize && r.maxLatency == Latency(c) && 0 <= r.read
    requires c.startLatency <= r.write && (wasActive ==> r.maxLatency <= r.write)
    requires r.write - r.read <= r.maxLatency + c.slotSize
    requires !wasActive && r.maxLatency == 2 * c.slotSize ==>
               r.levelCur >= CompensateLevel(c, r.maxLatency, r.corrCounter)
    ensures var t := Adjust(c, r, c.slotSize);
            Sane(c, t.(write := t.write + c.slotSize))
  {
    hide CatchUpLevel, CompensateLevel;
  }

  lemma ReadKeepsSane(c: Config, s: State)
    requires Sized(c) && Sane(c, s)
    ensures Sane(c, Read(c, s))
  {
    hide FollowLevel;
  }

  datatype Event = Packet(lostLen: int) | Pull

  function Next(c: Config, s: State, e: Event): State
    requires c.slotSize > 0
  {
    match e
    case Packet(lostLen) => Insert(c, s, c.slotSize, lostLen)
    case Pull => Read(c, s)
  }

  function After(c: Config, s: State, run: seq<Event>): State
    requires c.slotSize > 0
  {
    if |run| == 0 then s else Next(c, After(c, s, run[..|run| - 1]), run[|run| - 1])
  }

  /** Safety over whole runs: from the start, through any packets, losses and reads, the ring always
      holds every unread byte, so each read is exactly the stream (see ReadSlotNonBlocking), and the
      balance never changes. */
  lemma {:induction false} EveryRunFits(c: Config, run: seq<Event>)
    requires Sized(c) && c.overflowDropStep >= c.slotSize
    ensures var s := After(c, Init(c), run);
            && Sane(c, s) && Balance(s) == c.startLatency
            && 0 <= s.read && s.write - s.read <= Latency(c) + c.slotSize <= c.totalSize
  {
    if |run| > 0 {
      hide Insert, Read, Balance;
      EveryRunFits(c, run[..|run| - 1]);
      var s := After(c, Init(c), run[..|run| - 1]);
      match run[|run| - 1] {
        case Packet(lostLen) =>
          InsertKeepsSane(c, s, lostLen);
          InsertKeepsBalance(c, s, c.slotSize, lostLen);
        case Pull =>
          ReadKeepsSane(c, s);
          ReadKeepsBalance(c, s);
      }
    }
  }

  /** n packets with no loss and no read in between. */
  function Packets(n: nat): (r: seq<Event>)
    ensures |r| == n
  {
    seq(n, _ => Packet(0))
  }

  /** Running and full: the next packet will overflow. */
  ghost predicate Full(c: Config, s: State) {
    && s.active && s.maxLatency == Latency(c) && s.inSlotSize == c.slotSize
    && s.write - s.read + c.slotSize > s.maxLatency
  }

  /** An overflowing packet raises the occupancy by what the drop step falls short of a slot. */
  lemma OverflowGrows(c: Config, s: State)
    requires Sized(c) && c.overflowDropStep < c.slotSize && Full(c, s)
    ensures var r := Insert(c, s, c.slotSize, 0);
            Full(c, r) && r.write - r.read == s.write - s.read + c.slotSize - c.overflowDropStep
  {
    hide CatchUpLevel, RoundedLevel, CompensateLevel;
  }

  lemma {:induction false} FullBufferGrows(c: Config, n: nat)
    requires Sized(c) && c.overflowDropStep < c.slotSize && n >= 1
    ensures var s := After(c, Init(c), Packets(n));
            Full(c, s) && s.write - s.read >= n - 1
  {
    hide Insert, Init;
    assert Packets(n)[..n - 1] == Packets(n - 1);
    if n == 1 {
      FirstPacket(c);
    } else {
      FullBufferGrows(c, n - 1);
      OverflowGrows(c, After(c, Init(c), Packets(n - 1)));
    }
  }

  lemma {:induction false} FirstPacket(c: Config)
    requires Sized(c) && c.overflowDropStep < c.slotSize
    ensures var s := Insert(c, Init(c), c.slotSize, 0);
            Full(c, s) && s.write - s.read >= 0
  {
    hide CatchUpLevel, RoundedLevel, CompensateLevel;
    var s0 := FoldCounters(c, Admit(c, Init(c), c.slotSize, 0), c.slotSize);
    if s0.maxLatency == 2 * c.slotSize {
      FirstInsertDoesNotCompensate(c, s0);
    }
  }

  /** The bound needs the drop step: without it occupancy passes every limit. */
  lemma OccupancyIsUnboundedWithoutDrop(c: Config, limit: nat)
    requires Sized(c) && c.overflowDropStep < c.slotSize
    ensures var s := After(c, Init(c), Packets(limit + 2));
            s.write - s.read > limit
  {
    FullBufferGrows(c, limit + 2);
  }

  /** For the configurations the constructor makes, the drop step is large enough exactly for
      strategies 1 and 2, or for a queue of two slots or more. */
  lemma {:induction false} DropStepSuffices(bufSamples: int, qlen: int, sampleRate: int, strategy: int, bcastQlen: int,
                                            channels: int, bitRes: int)
    requires bufSamples > 0 && qlen > 0 && sampleRate > 0 && channels > 0 && bitRes > 0
    ensures var c := MakeConfig(bufSamples, qlen, sampleRate, strategy, bcastQlen, channels, bitRes);
            c.overflowDropStep >= c.slotSize <==> strategy == 1 || strategy == 2 || qlen >= 2
  {
    var slot := bufSamples * channels * bitRes;
    assert slot > 0 by {
      PositiveProduct(bufSamples, channels);
      PositiveProduct(bufSamples * channels, bitRes);
    }
    HalfLatency(qlen, slot);
  }

  /** The strategies in numbers: 2 reacts to the level by fractions of a slot, both ways; 0 and 1 move a
      reader back at any level, never ask for more latency and always shorten it on a loss. */
  lemma StrategyNumbers(bufSamples: int, qlen: int, sampleRate: int, strategy: int, bcastQlen: int,
                        channels: int, bitRes: int)
    requires bufSamples > 0 && sampleRate > 0
    ensures var c := MakeConfig(bufSamples, qlen, sampleRate, strategy, bcastQlen, channels, bitRes);
            var step := channels * bitRes;
            var slot, latency := bufSamples * channels * bitRes, qlen * (bufSamples * channels * bitRes);
            && c.slotSize == slot && c.minStepSize == step && c.bitRes == bitRes
            && c.totalSize == sampleRate * channels * bitRes * 2
            && c.startLatency == latency && c.broadcastLatency == bcastQlen * slot
            && c.overflowDropStep == (if strategy in {1, 2} then slot else TruncDiv(latency, 2))
            && c.underrunIncTolerance == (if strategy == 2 then 1.1 else -10.0) * slot as real
            && c.corrIncTolerance == (if strategy == 2 then 1.9 * slot as real else 100.0 * latency as real)
            && c.overflowDecTolerance == (if strategy == 2 then 0.1 * slot as real else 100.0 * latency as real)
            && c.levelDownRate == MinInt(256, bufSamples) as real / (5.0 * sampleRate as real) * slot as real
  {
  }

  /** What the constructor computes meets the size conditions, given room for the latency in the two
      seconds of audio it allocates. */
  lemma {:induction false} ConfigIsSized(bufSamples: int, qlen: int, sampleRate: int, strategy: int, bcastQlen: int,
                                         channels: int, bitRes: int)
    requires bufSamples > 0 && qlen > 0 && sampleRate > 0 && channels > 0 && bitRes > 0
    ensures var c := MakeConfig(bufSamples, qlen, sampleRate, strategy, bcastQlen, channels, bitRes);
            Sized(c) <==> c.totalSize >= Latency(c) + c.slotSize
  {
    var slot := bufSamples * channels * bitRes;
    PositiveProduct(bufSamples, channels);
    PositiveProduct(bufSamples * channels, bitRes);
    PositiveProduct(channels, bitRes);
    assert (qlen - 1) * slot >= 0;
    assert qlen * slot == (qlen - 1) * slot + slot;
  }

  lemma {:induction false} HalfLatency(qlen: int, slot: int)
    requires qlen > 0 && slot > 0
    ensures TruncDiv(qlen * slot, 2) >= slot <==> qlen >= 2
  {
    PositiveProduct(qlen, slot);
    if qlen >= 2 {
      assert (qlen - 2) * slot >= 0;
      assert qlen * slot == (qlen - 2) * slot + 2 * slot;
    } else {
      assert qlen * slot == slot;
    }
  }

  // ---------------------------------------------------------------------------------------
  // The broadcast listener

  lemma {:induction false} WholeDivision(d: int, m: int, k: int)
    requires m > 0 && d == k * m
    ensures TruncDiv(d, m) == k
  {
    DivideMultiple(k, m);
    if d < 0 {
      assert -d == (-k) * m;
      DivideMultiple(-k, m);
    }
  }

  /** Every active call moves the listener by one slot plus exactly the steps it counts as skew,
      whether it snapped, skipped or interpolated. */
  lemma {:induction false} ListenerMovesBySkew(c: Config, s: State, b: Broadcast, k: int)
    requires c.minStepSize > 0 && BroadcastActive(c, s)
    requires Drift(c, s, b) == k * c.minStepSize
    ensures var r := ReadBroadcast(c, s, b);
            r.position - b.position == c.slotSize + c.minStepSize * (r.skew - b.skew) && r.delta == k
  {
    hide Truncate, TruncDiv;
    WholeDivision(Drift(c, s, b), c.minStepSize, k);
  }

  /** A run of the listener against any readings of the buffer's positions. */
  function ListenerAfter(c: Config, readings: seq<State>): Broadcast
    requires c.minStepSize > 0
  {
    if |readings| == 0 then Broadcast(0, 0.0, 0, 0)
    else ReadBroadcast(c, readings[|readings| - 1], ListenerAfter(c, readings[..|readings| - 1]))
  }

  function ActiveCalls(c: Config, readings: seq<State>): nat {
    if |readings| == 0 then 0
    else ActiveCalls(c, readings[..|readings| - 1]) + if BroadcastActive(c, readings[|readings| - 1]) then 1 else 0
  }

  /** All sizes and read positions are whole steps. */
  ghost predicate WholeSteps(c: Config, readings: seq<State>) {
    && c.minStepSize > 0
    && (exists k :: c.slotSize == k * c.minStepSize)
    && (exists k :: c.broadcastLatency == k * c.minStepSize)
    && forall i :: 0 <= i < |readings| ==> exists k :: readings[i].read == k * c.minStepSize
  }

  /** Over whole runs the listener stands at slotSize * (active calls) + minStepSize * skew. */
  lemma {:induction false} ListenerPosition(c: Config, readings: seq<State>) returns (k: int)
    requires WholeSteps(c, readings)
    ensures var b := ListenerAfter(c, readings);
            && b.position == c.slotSize * ActiveCalls(c, readings) + c.minStepSize * b.skew
            && b.position == k * c.minStepSize
  {
    if |readings| == 0 {
      k := 0;
    } else {
      var before, s := readings[..|readings| - 1], readings[|readings| - 1];
      k := ListenerPosition(c, before);
      if BroadcastActive(c, s) {
        var slots :| c.slotSize == slots * c.minStepSize;
        var latency :| c.broadcastLatency == latency * c.minStepSize;
        var read :| s.read == read * c.minStepSize;
        k := ListenerStep(c, s, ListenerAfter(c, before), ActiveCalls(c, before), k, slots, latency, read);
      }
    }
  }

  lemma {:induction false} ListenerStep(c: Config, s: State, b: Broadcast, calls: nat, k: int, slots: int,
                                        latency: int, read: int) returns (k': int)
    requires c.minStepSize > 0 && BroadcastActive(c, s)
    requires c.slotSize == slots * c.minStepSize && c.broadcastLatency == latency * c.minStepSize
    requires s.read == read * c.minStepSize && b.position == k * c.minStepSize
    requires b.position == c.slotSize * calls + c.minStepSize * b.skew
    ensures var r := ReadBroadcast(c, s, b);
            && r.position == c.slotSize * (calls + 1) + c.minStepSize * r.skew
            && r.position == k' * c.minStepSize
  {
    hide ReadBroadcast;
    var m, d := c.minStepSize, read - latency - k - slots;
    assert Drift(c, s, b) == d * m;
    ListenerMovesBySkew(c, s, b, d);
    var r := ReadBroadcast(c, s, b);
    k' := k + slots + (r.skew - b.skew);
    assert m * (r.skew - b.skew) == m * r.skew - m * b.skew;
  }

  /** An uninterpolated read starts a slot behind where the listener stands after it; a read is
      interpolated exactly when it takes steps, the samples have two bytes, the listener did not snap,
      and more than a slot is there to read. */
  lemma ListenerReads(c: Config, s: State, b: Broadcast)
    requires c.minStepSize > 0 && BroadcastActive(c, s)
    ensures var r := ReadBroadcast(c, s, b);
            var off := Abs(s.read - c.broadcastLatency - b.position - c.slotSize);
            && (!Interpolates(c, s, b) ==> BroadcastStart(c, s, b) == r.position - c.slotSize)
            && (Interpolates(c, s, b) ==> BroadcastStart(c, s, b) == b.position)
            && (Interpolates(c, s, b) <==>
                  off <= c.broadcastLatency / 2 && r.skew != b.skew && c.bitRes == 2
                  && s.write - b.position > c.slotSize)
            && (off > c.broadcastLatency / 2 ==> r.position == s.read - c.broadcastLatency && r.corr == 0.0)
  {
    hide TruncDiv;
  }

  /** The correction carried over is less than a step: steps are taken as soon as they are due. */
  ghost predicate CarriesLessThanStep(c: Config, b: Broadcast) {
    -(c.minStepSize as real) < b.corr < c.minStepSize as real
  }

  lemma {:induction false} TruncatedRemainder(x: real, m: int, steps: int)
    requires m > 0 && steps == Truncate(x / m as real)
    ensures -(m as real) < x - (steps * m) as real < m as real
    ensures if x >= 0.0 then 0.0 <= (steps * m) as real <= x else x <= (steps * m) as real <= 0.0
  {
    var q, w, k := x / m as real, m as real, steps as real;
    assert q * w == x;
    ProductAsReal(steps, m);
    RoundedProduct(k, q, w, x, k * w);
  }

  lemma {:induction false} ProductAsReal(a: int, b: int)
    ensures (a * b) as real == a as real * b as real
  {
  }

  /** k rounds q toward zero. */
  lemma {:induction false} RoundedProduct(k: real, q: real, w: real, x: real, y: real)
    requires w > 0.0 && x == q * w && y == k * w
    requires if q >= 0.0 then 0.0 <= k <= q < k + 1.0 else 0.0 <= -k <= -q < -k + 1.0
    ensures -w < x - y < w
    ensures if x >= 0.0 then 0.0 <= y <= x else x <= y <= 0.0
  {
    if q >= 0.0 {
      ScaledBounds(k, q, w, y, x);
    } else {
      ScaledBounds(-k, -q, w, -y, -x);
      if q < 0.0 {
        ScaledOrder(q, 0.0, w, x, 0.0);
        assert x != 0.0 by {
          Vectors.PositiveProduct(-q, w, -x);
        }
      }
    }
  }

  /** k rounds q down, scaled. */
  lemma {:induction false} ScaledBounds(k: real, q: real, w: real, y: real, x: real)
    requires 0.0 <= k <= q < k + 1.0 && w > 0.0 && y == k * w && x == q * w
    ensures 0.0 <= y <= x < y + w
  {
    ScaledOrder(0.0, k, w, 0.0, y);
    ScaledOrder(k, q, w, y, x);
    var rest := k + 1.0 - q;
    Vectors.PositiveProduct(rest, w, rest * w);
    assert rest * w == y + w - x;
  }

  lemma {:induction false} ScaledOrder(a: real, b: real, w: real, p: real, q: real)
    requires a <= b && w > 0.0 && p == a * w && q == b * w
    ensures p <= q
  {
    assert (b - a) * w == q - p;
    if b > a {
      Vectors.PositiveProduct(b - a, w, (b - a) * w);
    }
  }

  /** One active call leaves the listener about its latency behind the reader: at most half of it off,
      plus a step and what one call corrects. */
  lemma {:induction false} ListenerStaysCloseOnce(c: Config, s: State, b: Broadcast)
    requires c.minStepSize > 0 && CarriesLessThanStep(c, b) && BroadcastActive(c, s) && c.broadcastLatency >= 0
    ensures var r := ReadBroadcast(c, s, b);
            var off, half := r.position - (s.read - c.broadcastLatency), c.broadcastLatency / 2;
            && CarriesLessThanStep(c, r)
            && Abs(off) as real < 1.0003 * half as real + c.minStepSize as real
  {
    var d, half := Drift(c, s, b), c.broadcastLatency / 2;
    var steps := StepsDue(c, s, b);
    if !Snaps(c, s, b) {
      hide Truncate;
      TruncatedRemainder(b.corr + 0.0003 * d as real, c.minStepSize, steps);
      assert ReadBroadcast(c, s, b).position == b.position + c.slotSize + steps * c.minStepSize;
      assert Abs(d) <= half;
    }
  }

  /** Over whole runs an active listener is never further from its place, the broadcast latency behind
      the reader, than half that latency, a step, and what one call corrects. */
  lemma {:induction false} ListenerStaysClose(c: Config, readings: seq<State>)
    requires c.minStepSize > 0 && c.broadcastLatency >= 0
    ensures var b := ListenerAfter(c, readings);
            && CarriesLessThanStep(c, b)
            && (|readings| > 0 && c.broadcastLatency + c.slotSize <= readings[|readings| - 1].read ==>
                  var off := b.position - (readings[|readings| - 1].read - c.broadcastLatency);
                  Abs(off) as real < 1.0003 * (c.broadcastLatency / 2) as real + c.minStepSize as real)
  {
    if |readings| > 0 {
      hide ReadBroadcast, CarriesLessThanStep;
      var before, s := readings[..|readings| - 1], readings[|readings| - 1];
      ListenerStaysClose(c, before);
      if BroadcastActive(c, s) {
        ListenerStaysCloseOnce(c, s, ListenerAfter(c, before));
      } else {
        InactiveListener(c, s, ListenerAfter(c, before));
      }
    }
  }
}
