/** The slot ring buffer: a bounded FIFO that, when full, drops its oldest half together with the
    incoming slot, and that in wavetable mode replays the last slot really read. */
module RingBuffer {
  import opened Circular
  import opened Numbers

  /** The buffer as a queue of slots and its counters; slots can be anything. */
  datatype State<T> = State(
    queue: seq<T>,
    lastRead: T,
    levelCur: real,
    level: int,
    skewRaw: int,
    readsNew: int,
    underruns: int,
    underrunsNew: int,
    overflows: int,
    decOverflow: int,
    decPktLoss: int,
    incUnderrun: int)

  function FoldReads<T>(s: State<T>): State<T> {
    s.(skewRaw := s.skewRaw - 1 + s.readsNew, readsNew := 0,
       underruns := s.underruns + s.underrunsNew, incUnderrun := s.incUnderrun + s.underrunsNew,
       underrunsNew := 0, level := Ceil(s.levelCur))
  }

  function CountLoss<T>(s: State<T>, lostCount: int): State<T> {
    s.(decPktLoss := s.decPktLoss + lostCount, skewRaw := s.skewRaw - lostCount,
       levelCur := s.levelCur - lostCount as real)
  }

  /** Non-blocking insert into a queue of at most `capacity` slots. */
  function Insert<T>(s: State<T>, capacity: nat, slot: T, lostCount: int): State<T>
    requires |s.queue| <= capacity
  {
    var t := FoldReads(if 0 < lostCount then CountLoss(s, lostCount) else s);
    if |t.queue| == capacity then
      var d := capacity / 2;
      t.(queue := t.queue[d..], overflows := t.overflows + d + 1, decOverflow := t.decOverflow + d + 1,
         levelCur := t.levelCur - d as real)
    else t.(queue := t.queue + [slot])
  }

  lemma {:induction false} WholeSlots(lostLen: int, slotSize: int)
    requires 0 < slotSize
    ensures var n := lostLen / slotSize;
            n * slotSize <= lostLen < n * slotSize + slotSize && (lostLen > 0 ==> n >= 0)
  {
    var n, r := lostLen / slotSize, lostLen % slotSize;
    assert lostLen == n * slotSize + r;
    if n < 0 {
      AtLeastOnce(-n, slotSize);
      DifferenceProduct(0, n, slotSize);
    }
  }

  /** Whole slots in an announced loss of bytes. */
  function LostSlots(lostLen: int, slotSize: int): (n: int)
    requires 0 < slotSize
    ensures 0 <= n && n * slotSize <= MaxInt(0, lostLen) < n * slotSize + slotSize
  {
    WholeSlots(lostLen, slotSize);
    if 0 < lostLen then lostLen / slotSize else 0
  }

  const LEVEL_DOWN_RATE: real := 0.01

  /** Non-blocking read. */
  function Read<T>(s: State<T>): State<T> {
    var t := s.(readsNew := s.readsNew + 1, levelCur := FollowLevel(s.levelCur, |s.queue|, LEVEL_DOWN_RATE));
    if |s.queue| == 0 then t.(underrunsNew := t.underrunsNew + 1)
    else t.(queue := t.queue[1..], lastRead := t.queue[0])
  }

  // ---------------------------------------------------------------------------------------
  // Slots as pieces of a byte array

  type Slot = seq<int>

  function SlotAt(ring: seq<int>, j: int, size: int): Slot
    requires 0 <= j && 0 <= size && 0 <= j * size && j * size + size <= |ring|
  {
    ring[j * size..j * size + size]
  }

  lemma {:induction false} SlotFits(j: int, n: int, size: int)
    requires 0 <= j < n && 0 < size
    ensures 0 <= j * size && j * size + size <= n * size
  {
    NonNegativeProduct(j, size);
    NextProduct(j, size);
    ProductGrows(j + 1, n, size);
  }

  lemma {:induction false} SlotsApart(i: int, j: int, size: int)
    requires 0 <= i < j && 0 < size
    ensures i * size + size <= j * size
  {
    SlotFits(i, j, size);
  }

  /** Advancing a byte position by whole slots, modulo the buffer, advances its slot modulo the
      number of slots. */
  lemma {:induction false} PositionOfSlot(a: nat, n: int, size: int)
    requires 0 < n && 0 < size
    ensures n * size > 0 && (a * size) % (n * size) == (a % n) * size
  {
    var q, r := a / n, a % n;
    SlotFits(r, n, size);
    assert a == q * n + r;
    assert a * size == q * (n * size) + r * size by {
      assert (q * n + r) * size == (q * n) * size + r * size;
      assert (q * n) * size == q * (n * size);
    }
    ModUnique(a * size, q, r * size, n * size);
  }

  /** A slot number, round the circle of n slots. */
  function Wrap(a: int, n: int): int
    requires n > 0
  {
    a % n
  }

  ghost predicate SlotIs(ring: seq<int>, j: int, size: int, slot: Slot) {
    && 0 <= j && 0 <= size && 0 <= j * size && j * size + size <= |ring|
    && slot == SlotAt(ring, j, size)
  }

  /** The slots of the byte array, in queue order from slot `first`, are the queue. */
  ghost predicate Holds(ring: seq<int>, first: int, n: int, size: int, queue: seq<Slot>) {
    && 0 < size && 0 <= first < n && |ring| == n * size && |queue| <= n
    && forall k :: 0 <= k < |queue| ==> SlotIs(ring, Wrap(first + k, n), size, queue[k])
  }

  lemma {:induction false} WrapApart(first: int, k: int, m: int, n: int)
    requires 0 <= first < n && 0 <= k < m < n
    ensures (first + k) % n != (first + m) % n
  {
    ModAdd(first, k, n);
    ModAdd(first, m, n);
  }

  /** Writing one slot behind the queue extends the queue by it. */
  lemma {:induction false} WriteHolds(ring: seq<int>, first: int, n: int, size: int, queue: seq<Slot>,
                                      ring': seq<int>, slot: Slot)
    requires Holds(ring, first, n, size, queue) && |queue| < n && |slot| == size
    requires |ring'| == |ring|
    requires var w := (first + |queue|) % n * size;
             && 0 <= w && w + size <= |ring|
             && ring' == ring[..w] + slot + ring[w + size..]
    ensures Holds(ring', first, n, size, queue + [slot])
  {
    var m := (first + |queue|) % n;
    var w := m * size;
    var all := queue + [slot];
    forall k | 0 <= k < |all|
      ensures SlotIs(ring', (first + k) % n, size, all[k])
    {
      InRange(first + k, n);
      var j := (first + k) % n;
      SlotFits(j, n, size);
      if k < |queue| {
        WrapApart(first, k, |queue|, n);
        InRange(first + |queue|, n);
        SameElsewhere(ring, ring', j, m, size, slot);
      } else {
        assert SlotAt(ring', m, size) == slot;
      }
    }
  }

  lemma {:induction false} SameElsewhere(ring: seq<int>, ring': seq<int>, j: int, m: int, size: int, slot: Slot)
    requires 0 <= j && 0 <= m && j != m && 0 < size == |slot| && |ring'| == |ring|
    requires 0 <= j * size && j * size + size <= |ring| && 0 <= m * size && m * size + size <= |ring|
    requires ring' == ring[..m * size] + slot + ring[m * size + size..]
    ensures SlotAt(ring', j, size) == SlotAt(ring, j, size)
  {
    if j < m {
      SlotsApart(j, m, size);
    } else {
      SlotsApart(m, j, size);
    }
  }

  /** Moving the first slot on drops the front of the queue. */
  lemma {:induction false} AdvanceHolds(ring: seq<int>, first: int, n: int, size: int, queue: seq<Slot>, d: nat)
    requires Holds(ring, first, n, size, queue) && d <= |queue| && d <= n
    ensures Holds(ring, Wrap(first + d, n), n, size, queue[d..])
  {
    hide SlotIs, Wrap;
    WrapInRange(first + d, n);
    var rest := queue[d..];
    forall k | 0 <= k < |rest|
      ensures SlotIs(ring, Wrap(Wrap(first + d, n) + k, n), size, rest[k])
    {
      WrapTwice(first + d, k, n);
      assert rest[k] == queue[d + k] && first + d + k == first + (d + k);
    }
  }

  lemma WrapInRange(a: int, n: int)
    requires 0 < n
    ensures 0 <= Wrap(a, n) < n
  {
  }

  lemma {:induction false} WrapTwice(a: nat, k: nat, n: int)
    requires 0 < n
    ensures Wrap(Wrap(a, n) + k, n) == Wrap(a + k, n)
  {
    WrapAgain(a, k, n);
  }

  lemma {:induction false} WrapAgain(a: nat, k: nat, n: int)
    requires 0 < n
    ensures (a % n + k) % n == (a + k) % n
  {
    var q, r := a / n, a % n;
    var q', r' := (r + k) / n, (r + k) % n;
    assert a + k == (q + q') * n + r' by {
      assert a == q * n + r && r + k == q' * n + r';
      assert (q + q') * n == q * n + q' * n;
    }
    ModUnique(a + k, q + q', r', n);
  }

  // ---------------------------------------------------------------------------------------
  // The imperative buffer

  class RingBuffer {
    const slotSize: int
    const numSlots: int
    const totalSize: int
    const wavetable: bool            // RingBufferWavetable overrides the underrun slot
    const ringBuffer: array<int>
    var lastReadSlot: Slot
    var readPosition: int
    var writePosition: int
    var fullSlots: int
    var levelCur: real
    var level: int
    var skewRaw: int
    var readsNew: int
    var underruns: int
    var underrunsNew: int
    var overflows: int
    var bufDecOverflow: int
    var bufDecPktLoss: int
    var bufIncUnderrun: int
    ghost var queue: seq<Slot>
    ghost var first: int             // the slot at the read position

    ghost predicate Valid()
      reads this, ringBuffer
    {
      && 0 < slotSize && 0 < numSlots && totalSize == numSlots * slotSize == ringBuffer.Length
      && 0 <= fullSlots == |queue| <= numSlots
      && readPosition == first * slotSize
      && writePosition == (first + |queue|) % numSlots * slotSize
      && |lastReadSlot| == slotSize
      && Holds(ringBuffer[..], first, numSlots, slotSize, queue)
    }

    ghost function Value(): State<Slot>
      reads this
    {
      State(queue, lastReadSlot, levelCur, level, skewRaw, readsNew, underruns, underrunsNew, overflows,
            bufDecOverflow, bufDecPktLoss, bufIncUnderrun)
    }

    constructor (size: int, slots: int, wave: bool)
      requires 0 < size && 0 < slots
      ensures Valid() && numSlots == slots && slotSize == size && wavetable == wave && fresh(ringBuffer)
      ensures Value() == State(seq(slots / 2, _ => Zeros(size)), Zeros(size), (slots / 2) as real,
                               slots / 2, 0, 0, 0, 0, 0, 0, 0, 0)
    {
      SlotFits(0, slots, size);
      PositionOfSlot(slots / 2, slots, size);
      slotSize, numSlots, totalSize, wavetable := size, slots, size * slots, wave;
      ringBuffer := new int[slots * size](_ => 0);
      lastReadSlot := Zeros(size);
      readPosition, writePosition := 0, (slots / 2 * size) % (slots * size);
      fullSlots, levelCur, level := slots / 2, (slots / 2) as real, slots / 2;
      skewRaw, readsNew, underruns, underrunsNew, overflows := 0, 0, 0, 0, 0;
      bufDecOverflow, bufDecPktLoss, bufIncUnderrun := 0, 0, 0;
      queue, first := seq(slots / 2, _ => Zeros(size)), 0;
      new;
      forall k | 0 <= k < |queue|
        ensures SlotIs(ringBuffer[..], (first + k) % numSlots, slotSize, queue[k])
      {
        InRange(first + k, numSlots);
        SlotFits((first + k) % numSlots, numSlots, slotSize);
      }
    }

    method UpdateReadStats()
      modifies `skewRaw, `readsNew, `underruns, `underrunsNew, `bufIncUnderrun, `level
      ensures Value() == FoldReads(old(Value()))
    {
      skewRaw := skewRaw - 1;
      skewRaw := skewRaw + readsNew;
      readsNew := 0;
      underruns := underruns + underrunsNew;
      bufIncUnderrun := bufIncUnderrun + underrunsNew;
      underrunsNew := 0;
      level := Ceil(levelCur);
    }

    /** Copies one slot to the write position. */
    method WriteSlot(slot: Slot)
      requires Valid() && |slot| == slotSize && fullSlots < numSlots
      modifies `writePosition, `fullSlots, `queue, ringBuffer
      ensures Valid() && queue == old(queue) + [slot]
    {
      hide SlotIs;
      ghost var was, m := ringBuffer[..], (first + |queue|) % numSlots;
      InRange(first + |queue|, numSlots);
      SlotFits(m, numSlots, slotSize);
      forall i | 0 <= i < slotSize {
        ringBuffer[writePosition + i] := slot[i];
      }
      assert ringBuffer[..] == was[..m * slotSize] + slot + was[m * slotSize + slotSize..];
      WriteHolds(was, first, numSlots, slotSize, queue, ringBuffer[..], slot);
      NextPosition(m, 1);
      writePosition := (writePosition + slotSize) % totalSize;
      WrapAgain(first + |queue|, 1, numSlots);
      fullSlots := fullSlots + 1;
      queue := queue + [slot];
    }

    /** A byte position moved on by d slots, modulo the buffer. */
    lemma NextPosition(j: int, d: nat)
      requires 0 <= j && 0 < numSlots && 0 < slotSize && totalSize == numSlots * slotSize
      ensures totalSize > 0
      ensures (j * slotSize + d * slotSize) % totalSize == (j + d) % numSlots * slotSize
    {
      assert j * slotSize + d * slotSize == (j + d) * slotSize;
      PositionOfSlot(j + d, numSlots, slotSize);
    }

    /** Moves the read position on by d slots. */
    method DropSlots(d: nat)
      requires Valid() && d <= fullSlots
      modifies `readPosition, `fullSlots, `queue, `first
      ensures Valid() && queue == old(queue)[d..]
    {
      NextPosition(first, d);
      AdvanceHolds(ringBuffer[..], first, numSlots, slotSize, queue, d);
      WrapAgain(first + d, |queue| - d, numSlots);
      readPosition := (readPosition + d * slotSize) % totalSize;
      fullSlots := fullSlots - d;
      queue, first := queue[d..], (first + d) % numSlots;
    }

    /** False, and nothing happens, when the length does not fit. */
    method InsertSlotNonBlocking(slot: Slot, len: int, lostLen: int) returns (ok: bool)
      requires Valid() && |slot| == slotSize
      modifies this, ringBuffer
      ensures Valid()
      ensures ok <==> len == slotSize || len == 0
      ensures Value() == if ok then Insert(old(Value()), numSlots, slot, LostSlots(lostLen, slotSize))
                         else old(Value())
    {
      if len != slotSize && 0 != len {
        return false;
      }
      hide Holds;
      if 0 < lostLen {
        RecordLoss(lostLen / slotSize);
      }
      UpdateReadStats();
      if fullSlots == numSlots {
        OverflowReset();
        return true;
      }
      WriteSlot(slot);
      return true;
    }

    method RecordLoss(lostCount: int)
      modifies `bufDecPktLoss, `skewRaw, `levelCur
      ensures Value() == CountLoss(old(Value()), lostCount)
      ensures lostCount == 0 ==> Value() == old(Value())
    {
      bufDecPktLoss := bufDecPktLoss + lostCount;
      skewRaw := skewRaw - lostCount;
      levelCur := levelCur - lostCount as real;
    }

    method OverflowReset()
      requires Valid() && fullSlots == numSlots
      modifies `readPosition, `fullSlots, `overflows, `bufDecOverflow, `levelCur, `queue, `first
      ensures Valid()
      ensures var s, d := old(Value()), numSlots / 2;
              Value() == s.(queue := s.queue[d..], overflows := s.overflows + d + 1,
                            decOverflow := s.decOverflow + d + 1, levelCur := s.levelCur - d as real)
    {
      hide Holds;
      var d := numSlots / 2;
      DropSlots(d);
      overflows := overflows + d + 1;
      bufDecOverflow := bufDecOverflow + d + 1;
      levelCur := levelCur - d as real;
    }

    /** Nothing to read: the slot is silence or, in wavetable mode, the last slot really read. */
    method ReadSlotNonBlocking() returns (out: Slot)
      requires Valid()
      modifies this, ringBuffer
      ensures Valid() && Value() == Read(old(Value()))
      ensures out == if old(queue) != [] then old(queue)[0]
                     else if wavetable then old(lastReadSlot) else Zeros(slotSize)
    {
      hide Holds, FollowLevel;
      readsNew := readsNew + 1;
      UpdateLevel();
      if fullSlots <= 0 {
        out := if wavetable then lastReadSlot else Zeros(slotSize);
        UnderrunReset();
        return;
      }
      out := TakeSlot();
    }

    method UpdateLevel()
      modifies `levelCur
      ensures levelCur == FollowLevel(old(levelCur), fullSlots, LEVEL_DOWN_RATE)
    {
      if fullSlots as real < levelCur {
        levelCur := if fullSlots as real < levelCur - LEVEL_DOWN_RATE then levelCur - LEVEL_DOWN_RATE
                     else fullSlots as real;
      } else {
        levelCur := fullSlots as real;
      }
    }

    method TakeSlot() returns (out: Slot)
      requires Valid() && fullSlots > 0
      modifies `lastReadSlot, `readPosition, `fullSlots, `queue, `first
      ensures Valid() && out == old(queue)[0] == lastReadSlot && queue == old(queue)[1..]
    {
      hide Holds;
      FrontSlot(ringBuffer[..], first, numSlots, slotSize, queue);
      out := ringBuffer[readPosition..readPosition + slotSize];
      lastReadSlot := out;
      DropSlots(1);
    }

    /** Clears the whole (empty) buffer. */
    method UnderrunReset()
      requires Valid() && fullSlots == 0
      modifies `underrunsNew, ringBuffer
      ensures Valid() && underrunsNew == old(underrunsNew) + 1
    {
      forall i | 0 <= i < ringBuffer.Length {
        ringBuffer[i] := 0;
      }
      underrunsNew := underrunsNew + 1;
    }

    /** The blocking insert, once its wait for a free slot is over. */
    method InsertSlotBlocking(slot: Slot)
      requires Valid() && |slot| == slotSize && fullSlots < numSlots
      modifies this, ringBuffer
      ensures Valid() && Value() == Insert(old(Value()), numSlots, slot, 0)
    {
      UpdateReadStats();
      WriteSlot(slot);
    }

    /** The blocking read, once its wait for a full slot is over. */
    method ReadSlotBlocking() returns (out: Slot)
      requires Valid() && fullSlots > 0
      modifies this
      ensures Valid() && out == old(queue)[0]
      ensures var s := old(Value());
              Value() == s.(readsNew := s.readsNew + 1, queue := s.queue[1..], lastRead := s.queue[0])
    {
      readsNew := readsNew + 1;
      out := TakeSlot();
    }
  }

  /** The front of the queue is the slot at the read position. */
  lemma FrontSlot(ring: seq<int>, first: int, n: int, size: int, queue: seq<Slot>)
    requires Holds(ring, first, n, size, queue) && |queue| > 0
    ensures 0 <= first * size && first * size + size <= |ring|
    ensures queue[0] == ring[first * size..first * size + size]
  {
    assert (first + 0) % n == first by {
      SmallRemainder(first, n);
    }
    assert SlotIs(ring, Wrap(first + 0, n), size, queue[0]);
  }

  // ---------------------------------------------------------------------------------------
  // One step in plain numbers

  /** An insert appends the slot or, when the queue is full, drops the oldest half and the slot; it folds
      the reads and underruns since the last insert into the statistics. */
  lemma PutLands<T>(s: State<T>, capacity: nat, slot: T, lostCount: int)
    requires |s.queue| <= capacity
    ensures var r, lost := Insert(s, capacity, slot, lostCount), MaxInt(0, lostCount);
            var full, half := |s.queue| == capacity, capacity / 2;
            && r.queue == (if full then s.queue[half..] else s.queue + [slot]) && r.lastRead == s.lastRead
            && r.overflows - s.overflows == r.decOverflow - s.decOverflow == (if full then half + 1 else 0)
            && r.underruns - s.underruns == r.incUnderrun - s.incUnderrun == s.underrunsNew
            && r.readsNew == r.underrunsNew == 0
            && r.decPktLoss - s.decPktLoss == lost && r.skewRaw - s.skewRaw == s.readsNew - 1 - lost
            && r.levelCur == s.levelCur - lost as real - (if full then half as real else 0.0)
            && r.level as real - 1.0 < s.levelCur - lost as real <= r.level as real
  {
  }

  /** A read takes the oldest slot, or counts an underrun and leaves the slot kept for replay; the level
      follows the number of slots up at once and down by a hundredth of a slot. */
  lemma GetLands<T>(s: State<T>)
    ensures var r, held := Read(s), |s.queue| as real;
            && (if |s.queue| == 0 then r.queue == [] && r.lastRead == s.lastRead
                else r.queue == s.queue[1..] && r.lastRead == s.queue[0])
            && r.underrunsNew - s.underrunsNew == (if |s.queue| == 0 then 1 else 0)
            && r.readsNew - s.readsNew == 1
            && r.levelCur == (if held >= s.levelCur - 0.01 then held else s.levelCur - 0.01)
            && r.overflows == s.overflows && r.skewRaw == s.skewRaw && r.underruns == s.underruns
  {
  }

  // ---------------------------------------------------------------------------------------
  // What every run keeps

  /** Full slots corrected by every counter that stands for a slot. */
  function Balance<T>(s: State<T>): int {
    |s.queue| + s.skewRaw + s.readsNew + s.decPktLoss + s.decOverflow - s.incUnderrun - s.underrunsNew
  }

  datatype Event<T> = Put(slot: T, lostCount: nat) | Get

  /** A run: the buffer, the slots it has really handed out, and those that overflow dropped. */
  datatype Trace<T> = Trace(s: State<T>, delivered: seq<T>, dropped: seq<T>)

  function Next<T>(t: Trace<T>, capacity: nat, e: Event<T>): Trace<T>
    requires |t.s.queue| <= capacity
  {
    match e
    case Put(slot, lost) =>
      t.(s := Insert(t.s, capacity, slot, lost),
         dropped := t.dropped + if |t.s.queue| == capacity then t.s.queue[..capacity / 2] + [slot] else [])
    case Get =>
      t.(s := Read(t.s), delivered := t.delivered + if |t.s.queue| == 0 then [] else [t.s.queue[0]])
  }

  function After<T>(t: Trace<T>, capacity: nat, run: seq<Event<T>>): (r: Trace<T>)
    requires |t.s.queue| <= capacity
    ensures |r.s.queue| <= capacity
    decreases |run|
  {
    if |run| == 0 then t else After(Next(t, capacity, run[0]), capacity, run[1..])
  }

  /** The slot kept for replay is the last one really read. */
  ghost predicate ReplaysLast<T>(t: Trace<T>) {
    t.delivered != [] ==> t.s.lastRead == t.delivered[|t.delivered| - 1]
  }

  /** Every interleaving of non-blocking steps keeps the balance, stays within capacity, and leaves
      as the last slot read the last slot delivered. */
  lemma {:induction false} EveryRunBalances<T>(t: Trace<T>, capacity: nat, run: seq<Event<T>>)
    requires |t.s.queue| <= capacity && ReplaysLast(t)
    ensures var r := After(t, capacity, run);
            && Balance(r.s) == Balance(t.s) && |r.s.queue| <= capacity && ReplaysLast(r)
            && (r.delivered == t.delivered ==> r.s.lastRead == t.s.lastRead)
            && t.delivered <= r.delivered
    decreases |run|
  {
    hide Next, Balance, ReplaysLast;
    if |run| > 0 {
      StepBalances(t, capacity, run[0]);
      EveryRunBalances(Next(t, capacity, run[0]), capacity, run[1..]);
    }
  }

  lemma StepBalances<T>(t: Trace<T>, capacity: nat, e: Event<T>)
    requires |t.s.queue| <= capacity && ReplaysLast(t)
    ensures var r := Next(t, capacity, e);
            && Balance(r.s) == Balance(t.s) && |r.s.queue| <= capacity && ReplaysLast(r)
            && (r.delivered == t.delivered ==> r.s.lastRead == t.s.lastRead)
            && t.delivered <= r.delivered
  {
    hide FollowLevel, Ceil;
  }

  /** The slots that a run puts, in order. */
  function Puts<T>(run: seq<Event<T>>): seq<T> {
    if |run| == 0 then [] else (if run[0].Put? then [run[0].slot] else []) + Puts(run[1..])
  }

  /** Every slot ever in the buffer's hands. */
  ghost function Slots<T>(t: Trace<T>): multiset<T> {
    multiset(t.delivered) + multiset(t.s.queue) + multiset(t.dropped)
  }

  /** No slot is lost or invented: what was there and what is put is delivered, still queued, or was
      dropped by overflow, each exactly once, and the overflow counter counts the dropped. */
  lemma {:induction false} EveryRunAccounts<T>(t: Trace<T>, capacity: nat, run: seq<Event<T>>)
    requires |t.s.queue| <= capacity
    ensures var r := After(t, capacity, run);
            && Slots(r) == Slots(t) + multiset(Puts(run))
            && |r.dropped| - r.s.decOverflow == |t.dropped| - t.s.decOverflow
    decreases |run|
  {
    if |run| > 0 {
      hide Next, Slots;
      var first := if run[0].Put? then [run[0].slot] else [];
      StepAccounts(t, capacity, run[0]);
      EveryRunAccounts(Next(t, capacity, run[0]), capacity, run[1..]);
      assert multiset(Puts(run)) == multiset(first) + multiset(Puts(run[1..]));
    }
  }

  lemma {:induction false} StepAccounts<T>(t: Trace<T>, capacity: nat, e: Event<T>)
    requires |t.s.queue| <= capacity
    ensures var r := Next(t, capacity, e);
            && Slots(r) == Slots(t) + multiset(if e.Put? then [e.slot] else [])
            && |r.dropped| - r.s.decOverflow == |t.dropped| - t.s.decOverflow
  {
    hide FollowLevel, Ceil, Slots;
    var r, q, d := Next(t, capacity, e), t.s.queue, capacity / 2;
    match e
    case Put(slot, lost) =>
      if |q| == capacity {
        MovedSlots(t, r, q[..d], q[d..], [slot]);
      } else {
        QueuedSlot(t, r, slot);
      }
    case Get =>
      if |q| > 0 {
        TakenSlot(t, r);
      } else {
        assert Slots(r) == Slots(t) by {
          SameSlots(t, r);
        }
      }
  }

  lemma MovedSlots<T>(t: Trace<T>, r: Trace<T>, oldest: seq<T>, kept: seq<T>, slot: seq<T>)
    requires t.s.queue == oldest + kept && r.s.queue == kept
    requires r.dropped == t.dropped + (oldest + slot) && r.delivered == t.delivered
    ensures Slots(r) == Slots(t) + multiset(slot)
  {
  }

  lemma QueuedSlot<T>(t: Trace<T>, r: Trace<T>, slot: T)
    requires r.s.queue == t.s.queue + [slot] && r.dropped == t.dropped && r.delivered == t.delivered
    ensures Slots(r) == Slots(t) + multiset([slot])
  {
  }

  lemma TakenSlot<T>(t: Trace<T>, r: Trace<T>)
    requires |t.s.queue| > 0 && r.s.queue == t.s.queue[1..]
    requires r.delivered == t.delivered + [t.s.queue[0]] && r.dropped == t.dropped
    ensures Slots(r) == Slots(t) + multiset([])
  {
    assert t.s.queue == [t.s.queue[0]] + t.s.queue[1..];
  }

  lemma SameSlots<T>(t: Trace<T>, r: Trace<T>)
    requires r.s.queue == t.s.queue && r.delivered == t.delivered && r.dropped == t.dropped
    ensures Slots(r) == Slots(t)
  {
  }

  ghost predicate Increasing(s: seq<int>) {
    forall i, j :: 0 <= i < j < |s| ==> s[i] < s[j]
  }

  /** Every slot put is numbered higher than all slots before it. */
  ghost predicate Numbered(bound: int, run: seq<Event<int>>)
    decreases |run|
  {
    |run| > 0 ==>
      && (run[0].Put? ==> bound < run[0].slot)
      && Numbered(if run[0].Put? then run[0].slot else bound, run[1..])
  }

  /** Slots numbered as they are put: what is delivered and queued is in order, and apart from what
      was dropped. */
  ghost predicate InOrder(t: Trace<int>) {
    Increasing(t.delivered + t.s.queue) && forall v :: v in t.delivered + t.s.queue ==> v !in t.dropped
  }

  ghost predicate Below(t: Trace<int>, bound: int) {
    && (forall v :: v in t.delivered + t.s.queue ==> v <= bound)
    && (forall v :: v in t.dropped ==> v <= bound)
  }

  /** First in, first out: every run hands the slots out in the order they were put, none twice; what
      overflow drops is never handed out; and everything put is delivered, queued or dropped. */
  lemma {:induction false} EveryRunIsFifo(t: Trace<int>, capacity: nat, run: seq<Event<int>>, bound: int)
    requires |t.s.queue| <= capacity && InOrder(t) && Below(t, bound) && Numbered(bound, run)
    ensures var r := After(t, capacity, run);
            && Increasing(r.delivered + r.s.queue)
            && (forall v :: v in r.delivered + r.s.queue ==> v !in r.dropped)
            && Slots(r) == Slots(t) + multiset(Puts(run))
  {
    EveryRunKeepsOrder(t, capacity, run, bound);
    EveryRunAccounts(t, capacity, run);
  }

  lemma {:induction false} EveryRunKeepsOrder(t: Trace<int>, capacity: nat, run: seq<Event<int>>, bound: int)
    requires |t.s.queue| <= capacity && InOrder(t) && Below(t, bound) && Numbered(bound, run)
    ensures InOrder(After(t, capacity, run))
    decreases |run|
  {
    if |run| > 0 {
      StepIsFifo(t, capacity, run[0], bound);
      EveryRunKeepsOrder(Next(t, capacity, run[0]), capacity, run[1..], if run[0].Put? then run[0].slot else bound);
    }
  }

  lemma {:induction false} StepIsFifo(t: Trace<int>, capacity: nat, e: Event<int>, bound: int)
    requires |t.s.queue| <= capacity && InOrder(t) && Below(t, bound) && (e.Put? ==> bound < e.slot)
    ensures InOrder(Next(t, capacity, e)) && Below(Next(t, capacity, e), if e.Put? then e.slot else bound)
  {
    var was := t.delivered + t.s.queue;
    match e
    case Get =>
      var r := Next(t, capacity, e);
      assert r.delivered + r.s.queue == was;
    case Put(slot, lost) =>
      if |t.s.queue| == capacity {
        OverflowIsFifo(t.delivered, t.s.queue, t.dropped, capacity / 2, bound, slot);
      } else {
        assert t.delivered + (t.s.queue + [slot]) == was + [slot];
        forall i | 0 <= i < |was| ensures was[i] <= bound {
          assert was[i] in was;
        }
      }
  }

  /** Dropping the oldest d of the queue and the incoming slot. */
  lemma {:induction false} OverflowIsFifo(delivered: seq<int>, queue: seq<int>, dropped: seq<int>, d: nat,
                                          bound: int, slot: int)
    requires d <= |queue| && bound < slot && Increasing(delivered + queue)
    requires forall v :: v in delivered + queue ==> v <= bound && v !in dropped
    requires forall v :: v in dropped ==> v <= bound
    ensures Increasing(delivered + queue[d..])
    ensures forall v :: v in delivered + queue[d..] ==> v <= bound && v !in dropped + (queue[..d] + [slot])
    ensures forall v :: v in dropped + (queue[..d] + [slot]) ==> v <= slot
  {
    var was, now, n := delivered + queue, delivered + queue[d..], |delivered|;
    forall i | 0 <= i < |now| ensures now[i] == was[if i < n then i else i + d] {
    }
    forall i, k | 0 <= i < |now| && 0 <= k < d ensures now[i] != queue[k] {
      assert now[i] == was[if i < n then i else i + d] && queue[k] == was[n + k];
    }
    forall v | v in now ensures v <= bound && v !in dropped + (queue[..d] + [slot]) {
      var i :| 0 <= i < |now| && now[i] == v;
      assert v == was[if i < n then i else i + d] && v in was;
    }
    forall v | v in dropped + (queue[..d] + [slot]) ensures v <= slot {
      if v in queue[..d] {
        var k :| 0 <= k < d && queue[k] == v;
        assert was[n + k] in was;
      }
    }
  }
}
