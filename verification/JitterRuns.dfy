/** Runs of the jitter buffer with their bytes: what a packet put in sounds like when it comes out, and
    how the buffer recovers from an underrun. */
module JitterRuns {
  import opened Circular
  import opened JitterBuffer
  import Theory = JitterTheory
  import opened Numbers

  datatype Event = Packet(slot: seq<int>, lostLen: int) | Pull

  /** The buffer's positions and counters beside the stream of every byte written. */
  datatype Tape = Tape(s: State, stream: seq<int>)

  ghost function Start(c: Config): Tape
    requires c.startLatency >= 0
  {
    Tape(Init(c), Zeros(c.startLatency))
  }

  /** The zeros that an insert puts in front of the packet. */
  ghost function Padding(c: Config, s: State, len: int, lostLen: int): nat
    requires c.slotSize > 0
  {
    MaxInt(0, Insert(c, s, len, lostLen).write - s.write - len)
  }

  ghost function Next(c: Config, t: Tape, e: Event): Tape
    requires c.slotSize > 0
  {
    match e
    case Packet(slot, lostLen) =>
      Tape(Insert(c, t.s, |slot|, lostLen),
           t.stream + Zeros(Padding(c, t.s, |slot|, lostLen)) + slot)
    case Pull => t.(s := Read(c, t.s))
  }

  ghost function After(c: Config, t: Tape, run: seq<Event>): Tape
    requires c.slotSize > 0
  {
    if |run| == 0 then t else Next(c, After(c, t, run[..|run| - 1]), run[|run| - 1])
  }

  /** What a pull hands out, as ReadSlotNonBlocking promises it. */
  ghost function Heard(c: Config, t: Tape): (out: seq<int>)
    requires c.slotSize > 0
  {
    seq(c.slotSize, i requires 0 <= i < c.slotSize =>
      if t.s.active && 0 <= t.s.read + i < |t.stream| then t.stream[t.s.read + i] else 0)
  }

  ghost predicate SlotSized(c: Config, run: seq<Event>) {
    forall e :: e in run && e.Packet? ==> |e.slot| == c.slotSize
  }

  /** Nothing but positions and lengths of a run. */
  ghost function Erased(run: seq<Event>): (r: seq<Theory.Event>)
    ensures |r| == |run|
  {
    seq(|run|, i requires 0 <= i < |run| =>
      match run[i] case Packet(_, lostLen) => Theory.Packet(lostLen) case Pull => Theory.Pull)
  }

  ghost predicate Usable(c: Config) {
    Theory.Sized(c) && c.overflowDropStep >= c.slotSize
  }

  /** Every run is in step with its positions; the stream ends at the write position, and the ring
      holds every unread byte. */
  lemma {:induction false} RunIsTracked(c: Config, run: seq<Event>)
    requires Usable(c) && SlotSized(c, run)
    ensures var t := After(c, Start(c), run);
            && t.s == Theory.After(c, Init(c), Erased(run)) && |t.stream| == t.s.write
            && Theory.Sane(c, t.s) && 0 <= t.s.read && t.s.write - t.s.read <= c.totalSize
  {
    hide Insert, Read, Theory.Sane;
    if |run| > 0 {
      var init, e := run[..|run| - 1], run[|run| - 1];
      assert e in run;
      RunIsTracked(c, init);
      assert Erased(run)[..|run| - 1] == Erased(init);
      var t := After(c, Start(c), init);
      match e {
        case Packet(slot, lostLen) => WritesForward(c, t.s, |slot|, lostLen);
        case Pull => Theory.ReadLands(c, t.s);
      }
    }
    Theory.EveryRunFits(c, Erased(run));
  }

  /** An insert never takes the write position back. */
  lemma WritesForward(c: Config, s: State, len: int, lostLen: int)
    requires c.slotSize > 0
    ensures Insert(c, s, len, lostLen).write == s.write + Padding(c, s, len, lostLen) + len
    ensures Insert(c, s, len, lostLen).active
  {
    hide Insert;
    if lostLen > 0 {
      Theory.LossWrites(c, s, len, lostLen);
      ResidualNonNegative(c, Admit(c, s, len, 0), lostLen);
    } else {
      Theory.InsertLands(c, s, len);
      NoLoss(c, s, len, lostLen);
    }
  }

  lemma NoLoss(c: Config, s: State, len: int, lostLen: int)
    requires c.slotSize > 0 && lostLen <= 0
    ensures Insert(c, s, len, lostLen) == Insert(c, s, len, 0)
  {
    hide Adjust;
  }

  /** The stream only grows, and the buffer stays active. */
  lemma {:induction false} StreamGrows(c: Config, t: Tape, run: seq<Event>, k: nat)
    requires c.slotSize > 0 && k <= |run|
    ensures After(c, t, run[..k]).stream <= After(c, t, run).stream
    ensures After(c, t, run[..k]).s.active ==> After(c, t, run).s.active
    decreases |run| - k
  {
    hide Insert, Read;
    if k < |run| {
      StreamGrows(c, t, run, k + 1);
      assert run[..k + 1][..k] == run[..k];
      var was := After(c, t, run[..k]);
      match run[k] {
        case Packet(slot, lostLen) => WritesForward(c, was.s, |slot|, lostLen);
        case Pull => Theory.ReadLands(c, was.s);
      }
    } else {
      assert run[..k] == run;
    }
  }

  /** Bytes come out as they went in: in every run, wherever a pull reaches a byte of a packet inserted
      before it, it hands out exactly that byte, in its place, and 0 past the write position; and the
      ring still holds the byte, so the read is within its contract. */
  lemma {:induction false} BytesComeOut(c: Config, run: seq<Event>, k: nat, i: nat)
    requires Usable(c) && SlotSized(c, run) && k < |run| && run[k].Packet? && i < c.slotSize
    ensures var t, start := After(c, Start(c), run), After(c, Start(c), run[..k + 1]).s.write - c.slotSize;
            && |Heard(c, t)| == c.slotSize
            && (start <= t.s.read + i < start + c.slotSize ==>
                  Heard(c, t)[i] == run[k].slot[t.s.read + i - start])
            && (t.s.read + i >= t.s.write ==> Heard(c, t)[i] == 0)
            && 0 <= t.s.read && t.s.write - t.s.read <= c.totalSize
  {
    hide Insert, Read, Theory.Sane;
    var upTo := run[..k + 1];
    var t, put := After(c, Start(c), run), After(c, Start(c), upTo);
    assert run[k] in run;
    assert forall e :: e in upTo ==> e in run;
    RunIsTracked(c, run);
    RunIsTracked(c, upTo);
    StreamGrows(c, Start(c), run, k + 1);
    assert upTo[..k] == run[..k];
    var was := After(c, Start(c), run[..k]);
    WritesForward(c, was.s, |run[k].slot|, run[k].lostLen);
    var start := put.s.write - c.slotSize;
    assert put.stream[start..] == run[k].slot;
    if start <= t.s.read + i < start + c.slotSize {
      var p := t.s.read + i;
      assert t.stream[p] == put.stream[p] == put.stream[start..][p - start];
    }
  }

  // ---------------------------------------------------------------------------------------
  // Recovery

  /** A packet and a pull, again and again. */
  ghost function Rounds(slots: seq<seq<int>>): seq<Event> {
    if |slots| == 0 then []
    else Rounds(slots[..|slots| - 1]) + [Packet(slots[|slots| - 1], 0), Pull]
  }

  /** A level at which an insert moves back a reader that has run ahead: below a slot and the level
      threshold; any level, when the tolerance is so negative that the threshold lies beyond all. */
  ghost predicate LowEnough(c: Config, level: real) {
    || level < c.slotSize as real + c.minLevelThreshold
    || (level <= (Theory.Latency(c) + c.slotSize) as real && c.underrunIncTolerance <= -4.0 * c.slotSize as real)
  }

  /** The reader has run ahead of the writer, at a level low enough to move it back. */
  ghost predicate RanAhead(c: Config, t: Tape, ahead: int) {
    && t.s.active && t.s.inSlotSize == c.slotSize && t.s.maxLatency == Theory.Latency(c)
    && |t.stream| == t.s.write
    && t.s.read - t.s.write == ahead && 0 < ahead <= 10 * Theory.Latency(c)
    && LowEnough(c, t.s.levelCur)
  }

  /** An insert moves such a reader back, by at most a slot, to meet the packet. */
  lemma {:induction false} ReaderIsMovedBack(c: Config, t: Tape, ahead: int)
    requires MovesBack(c) && RanAhead(c, t, ahead)
    ensures Insert(c, t.s, c.slotSize, 0).read == MaxInt(t.s.write, t.s.read - c.slotSize)
    ensures Insert(c, t.s, c.slotSize, 0).levelCur == t.s.levelCur
  {
    hide Insert;
    Theory.InsertLands(c, t.s, c.slotSize);
    Theory.InsertCounts(c, t.s, c.slotSize);
    var d := if t.s.corrCounter < 500 then 500.0 else t.s.corrCounter as real;
    Share(500.0, d);
    Theory.ScaledOrder(500.0 / d, 1.0, c.slotSize as real, (500.0 / d) * c.slotSize as real, c.slotSize as real);
    assert c.slotSize as real * (500.0 / d) == (500.0 / d) * c.slotSize as real;
  }

  ghost predicate MovesBack(c: Config) {
    Usable(c) && c.minLevelThreshold > 0.0 && c.levelDownRate >= 0.0
  }

  /** The packet that meets a reader ahead of it by more than a slot brings it a slot nearer. */
  lemma {:induction false} OneRound(c: Config, t: Tape, slot: seq<int>, ahead: int)
    requires MovesBack(c) && RanAhead(c, t, ahead) && ahead > c.slotSize && |slot| == c.slotSize
    ensures RanAhead(c, Next(c, Next(c, t, Packet(slot, 0)), Pull), ahead - c.slotSize)
  {
    hide Insert, Read;
    WritesForward(c, t.s, |slot|, 0);
    ReaderIsMovedBack(c, t, ahead);
    Theory.InsertLands(c, t.s, |slot|);
    var put := Next(c, t, Packet(slot, 0));
    Theory.ReadLands(c, put.s);
  }

  /** The packet that meets a reader at most a slot ahead of it is heard whole. */
  lemma {:induction false} PacketIsMet(c: Config, t: Tape, slot: seq<int>, ahead: int)
    requires MovesBack(c) && RanAhead(c, t, ahead) && ahead <= c.slotSize && |slot| == c.slotSize
    requires t.s.write >= 0
    ensures Heard(c, Next(c, t, Packet(slot, 0))) == slot
  {
    hide Insert, Read;
    WritesForward(c, t.s, |slot|, 0);
    ReaderIsMovedBack(c, t, ahead);
    Theory.InsertLands(c, t.s, |slot|);
    var put := Next(c, t, Packet(slot, 0));
    assert put.stream == t.stream + slot;
    assert put.s.read == |t.stream|;
  }

  lemma {:induction false} RoundsBringNearer(c: Config, t: Tape, slots: seq<seq<int>>, ahead: int)
    requires MovesBack(c) && RanAhead(c, t, ahead) && ahead > |slots| * c.slotSize
    requires forall slot :: slot in slots ==> |slot| == c.slotSize
    ensures RanAhead(c, After(c, t, Rounds(slots)), ahead - |slots| * c.slotSize)
  {
    hide RanAhead, Next;
    if |slots| > 0 {
      var n := |slots| - 1;
      var init, run := slots[..n], Rounds(slots);
      NextProduct(n, c.slotSize);
      assert slots[n] in slots;
      RoundsBringNearer(c, t, init, ahead);
      assert run[..|run| - 1][..|run| - 2] == Rounds(init);
      assert run[|run| - 2] == Packet(slots[n], 0) && run[|run| - 1] == Pull;
      assert run[..|run| - 1][|run| - 2] == run[|run| - 2];
      OneRound(c, After(c, t, Rounds(init)), slots[n], ahead - n * c.slotSize);
    }
  }

  lemma {:induction false} AfterJoin(c: Config, t: Tape, first: seq<Event>, rest: seq<Event>)
    requires c.slotSize > 0
    ensures After(c, t, first + rest) == After(c, After(c, t, first), rest)
  {
    hide Next;
    var run := first + rest;
    if |rest| > 0 {
      AfterJoin(c, t, first, rest[..|rest| - 1]);
      assert run[..|run| - 1] == first + rest[..|rest| - 1];
    } else {
      assert run == first;
    }
  }

  lemma {:induction false} InsertLevel(c: Config, s: State, lostLen: int)
    requires Usable(c) && s.maxLatency >= 0
    ensures var most := MaxInt(s.maxLatency, 2 * c.slotSize) as real;
            Insert(c, s, c.slotSize, lostLen).levelCur <= MaxReal(s.levelCur, most)
  {
    hide Insert;
    if lostLen > 0 {
      Theory.LossLands(c, s, c.slotSize, lostLen);
      var before :| Insert(c, s, c.slotSize, lostLen) == Insert(c, before, c.slotSize, 0)
                    && before.maxLatency == s.maxLatency
                    && before.levelCur <= MaxReal(s.levelCur, MaxInt(s.maxLatency, 2 * c.slotSize) as real);
      Theory.InsertCounts(c, before, c.slotSize);
    } else {
      NoLoss(c, s, c.slotSize, lostLen);
      Theory.InsertCounts(c, s, c.slotSize);
    }
  }

  /** The level never exceeds what the buffer can hold. */
  lemma {:induction false} LevelIsBounded(c: Config, run: seq<Event>)
    requires Usable(c) && SlotSized(c, run) && c.levelDownRate >= 0.0
    ensures After(c, Start(c), run).s.levelCur <= (Theory.Latency(c) + c.slotSize) as real
  {
    hide Insert, Read;
    if |run| > 0 {
      var init, e := run[..|run| - 1], run[|run| - 1];
      assert e in run;
      LevelIsBounded(c, init);
      RunIsTracked(c, init);
      var s := After(c, Start(c), init).s;
      match e {
        case Packet(slot, lostLen) => InsertLevel(c, s, lostLen);
        case Pull => Theory.ReadLands(c, s);
      }
    }
  }

  /** Every underrun is recovered from, a slot at each packet: from any state of any run in which the
      reader is ahead by at most n slots, at a low level or with a tolerance that needs none, the n-th
      packet is heard whole by the pull directly after it. */
  lemma {:induction false} EveryUnderrunRecovers(c: Config, run: seq<Event>, slots: seq<seq<int>>, last: seq<int>)
    requires MovesBack(c) && SlotSized(c, run) && |last| == c.slotSize
    requires forall slot :: slot in slots ==> |slot| == c.slotSize
    requires var s := After(c, Start(c), run).s;
             && s.active
             && (s.levelCur < c.slotSize as real + c.minLevelThreshold
                 || c.underrunIncTolerance <= -4.0 * c.slotSize as real)
             && |slots| * c.slotSize < s.read - s.write <= |slots| * c.slotSize + c.slotSize
             && s.read - s.write <= 10 * Theory.Latency(c)
    ensures Heard(c, After(c, Start(c), run + Rounds(slots) + [Packet(last, 0)])) == last
  {
    hide Next, Heard, Insert;
    var t, n := After(c, Start(c), run), |slots|;
    var ahead := t.s.read - t.s.write;
    RunIsTracked(c, run);
    LevelIsBounded(c, run);
    NonNegativeProduct(n, c.slotSize);
    RoundsBringNearer(c, t, slots, ahead);
    AfterJoin(c, Start(c), run, Rounds(slots));
    var all := run + Rounds(slots);
    var near := After(c, Start(c), all);
    assert near.s.write == |near.stream| >= 0;
    PacketIsMet(c, near, last, ahead - n * c.slotSize);
    assert (all + [Packet(last, 0)])[..|all|] == all;
  }

  /** The configurations that the constructor makes move a reader back: with strategies 0 and 1 at any
      level, with strategy 2 below 2.9 slots. */
  lemma {:induction false} MadeConfigMovesBack(bufSamples: int, qlen: int, sampleRate: int, strategy: int,
                                               bcastQlen: int, channels: int, bitRes: int)
    requires bufSamples > 0 && qlen > 0 && sampleRate > 0 && channels > 0 && bitRes > 0
    requires strategy == 1 || strategy == 2 || qlen >= 2
    ensures var c := MakeConfig(bufSamples, qlen, sampleRate, strategy, bcastQlen, channels, bitRes);
            && (MovesBack(c) <==> c.totalSize >= Theory.Latency(c) + c.slotSize)
            && c.slotSize == bufSamples * channels * bitRes
            && c.slotSize as real + c.minLevelThreshold == 2.9 * c.slotSize as real
            && (c.underrunIncTolerance <= -4.0 * c.slotSize as real <==> strategy != 2)
  {
    var c := MakeConfig(bufSamples, qlen, sampleRate, strategy, bcastQlen, channels, bitRes);
    Theory.DropStepSuffices(bufSamples, qlen, sampleRate, strategy, bcastQlen, channels, bitRes);
    Theory.ConfigIsSized(bufSamples, qlen, sampleRate, strategy, bcastQlen, channels, bitRes);
    PositiveProduct(bufSamples, channels);
    PositiveProduct(bufSamples * channels, bitRes);
    var share := MinInt(256, bufSamples) as real / (5.0 * sampleRate as real);
    assert share >= 0.0;
    assert c.levelDownRate == share * c.slotSize as real;
  }
}
