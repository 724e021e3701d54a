/** The packet ring against unbounded sequence numbers: what every run delivers, in which order,
    with which bytes, and how the skip counter accounts for the rest. */
module RegulatorTheory {
  import opened Regulator

  // ---------------------------------------------------------------------------------------
  // The asymmetric comparison

  /** One push, in unbounded numbers: the ring's idea of the newest packet is right exactly when
      the number advances by less than half the ring, or advances without wrapping, or is late
      without wrapping and by no more than half the ring. */
  lemma NewestIsRight(last: nat, n: nat)
    requires last - NUM_SLOTS < n < last + NUM_SLOTS
    ensures Newest(last % NUM_SLOTS, n % NUM_SLOTS) == (if n > last then n else last) % NUM_SLOTS
      <==>
      if n >= last then n - last < NUM_SLOTS / 2 || last / NUM_SLOTS == n / NUM_SLOTS
      else last / NUM_SLOTS == n / NUM_SLOTS && last - n <= NUM_SLOTS / 2
  {
    assert n / NUM_SLOTS - 1 <= last / NUM_SLOTS <= n / NUM_SLOTS + 1;
  }

  // ---------------------------------------------------------------------------------------
  // Runs over unbounded numbers

  datatype Event =
    | Arrive(number: nat, buf: Packet, stamp: real)
    | Play(now: real, tolerance: real)

  /** The ring beside what it stands for: unbounded numbers, the last packet pushed under each
      number, and the numbers delivered so far. */
  datatype Track = Track(
    ring: State,
    newest: int,                          // the newest number pushed; -1 before the first push
    out: int,                             // the last number delivered; see OutBase before that
    pending: int,                         // the stashed number, or out when the stash is empty
    log: map<int, (Packet, real)>,
    delivered: seq<int>,
    bytes: seq<Packet>,                   // what those deliveries handed out
    expected: seq<Packet>)                // what had last been pushed under their numbers

  /** Before the first delivery the search starts at slot 0, i.e. after this number. */
  function OutBase(newest: int): int {
    newest - newest % NUM_SLOTS - 1
  }

  /** The ring stands for the unbounded numbers: fewer than 4096 numbers are outstanding. */
  ghost predicate Tracks(t: Track) {
    var s := t.ring;
    && WellFormed(s)
    && (t.newest == -1 ==> s.lastIn == -1 && s.lastOut == -1 && s.stash == -1)
    && (t.newest != -1 ==> 0 <= t.newest && s.lastIn == t.newest % NUM_SLOTS)
    && (s.lastOut == -1 <==> t.delivered == [])
    && (s.lastOut == -1 ==> s.stash == -1 && (t.newest != -1 ==> t.out == OutBase(t.newest)))
    && (s.lastOut != -1 ==>
          0 <= t.out <= t.newest < t.out + NUM_SLOTS && s.lastOut == t.out % NUM_SLOTS)
    && (s.stash == -1 <==> t.pending == t.out)
    && (s.stash != -1 ==> t.out < t.pending <= t.newest && s.stash == t.pending % NUM_SLOTS)
  }

  /** Every logged packet that is within one ring of the newest is still in its slot. */
  ghost predicate Stored(t: Track) {
    && WellFormed(t.ring)
    && (forall n :: n in t.log ==> 0 <= n <= t.newest)
    && (t.newest != -1 ==> t.newest in t.log)
    && (forall n :: n in t.log && t.newest - NUM_SLOTS < n ==>
          t.ring.slots[n % NUM_SLOTS] == t.log[n].0 && t.ring.timing[n % NUM_SLOTS] == t.log[n].1)
  }

  /** Every slot carries its initial stamp 0 or the stamp of some number pushed into it. */
  ghost predicate SlotsRemember(t: Track) {
    && WellFormed(t.ring)
    && forall i :: 0 <= i < NUM_SLOTS ==> t.ring.timing[i] == 0.0 || StampedBy(t, i)
  }

  ghost predicate StampedBy(t: Track, i: int)
    requires |t.ring.timing| == NUM_SLOTS && 0 <= i < NUM_SLOTS
  {
    exists n :: n in t.log && n % NUM_SLOTS == i && t.log[n].1 == t.ring.timing[i]
  }

  /** No stamp in the ring is younger than that of the newest packet. */
  ghost predicate NewestIsYoungest(s: State)
    requires WellFormed(s)
  {
    s.lastIn != -1 ==> forall i :: 0 <= i < NUM_SLOTS ==> s.timing[i] <= s.timing[s.lastIn]
  }

  /** Packets arrive in number order, repeats of the newest allowed, by jumps below half the ring,
      with fewer than 4096 numbers outstanding. */
  ghost predicate ArrivesInOrder(t: Track, number: nat) {
    && t.newest <= number
    && (t.newest != -1 ==> number - t.newest < NUM_SLOTS / 2)
    && (t.delivered != [] ==> number - t.out < NUM_SLOTS)
  }

  ghost function AfterArrive(t: Track, number: nat, buf: Packet, stamp: real): Track
    requires WellFormed(t.ring)
  {
    var base := if t.delivered == [] then OutBase(number) else t.out;
    t.(ring := Push(t.ring, buf, number, stamp), newest := number, log := t.log[number := (buf, stamp)],
       out := base, pending := if t.ring.stash == -1 then base else t.pending)
  }

  /** The number that the ring's slot p places after the last one out stands for. */
  ghost function NumberAt(t: Track, p: int): int {
    t.out + p
  }

  /** The unbounded number a pull delivers when it delivers one. */
  ghost function DeliveredNumber(t: Track, now: real, tolerance: real): int
    requires WellFormed(t.ring) && t.ring.lastIn != -1
  {
    if t.ring.stash != -1 then t.pending
    else
      var p := Choose(t.ring, 1, now, tolerance);
      if t.ring.lastOut != -1 && p == 2 && !Missing(t.ring, 1, tolerance) then NumberAt(t, 1) else NumberAt(t, p)
  }

  ghost function AfterPlay(t: Track, now: real, tolerance: real): Track
    requires WellFormed(t.ring)
  {
    var (s, xfr) := Pull(t.ring, now, tolerance);
    if xfr.Real? then
      var n := DeliveredNumber(t, now, tolerance);
      t.(ring := s, out := n, pending := if s.stash == -1 then n else n + 1,
         delivered := t.delivered + [n], bytes := t.bytes + [xfr.packet],
         expected := t.expected + [if n in t.log then t.log[n].0 else []])
    else if t.ring.stash == -1 && s.stash != -1 then
      t.(ring := s, pending := NumberAt(t, Choose(t.ring, 1, now, tolerance)))
    else t.(ring := s)
  }

  lemma PushKeepsShape(s: State, buf: Packet, n: nat, now: real)
    requires WellFormed(s)
    ensures WellFormed(Push(s, buf, n, now))
  {
  }

  lemma ArriveTracks(t: Track, number: nat, buf: Packet, stamp: real)
    requires Tracks(t) && ArrivesInOrder(t, number)
    ensures Tracks(AfterArrive(t, number, buf, stamp))
  {
    if t.newest != -1 {
      NewestIsRight(t.newest, number);
    }
  }

  lemma ArriveStores(t: Track, number: nat, buf: Packet, stamp: real)
    requires Tracks(t) && Stored(t) && ArrivesInOrder(t, number)
    ensures Stored(AfterArrive(t, number, buf, stamp))
  {
    hide Newest, Tracks, OutBase;
    PushKeepsShape(t.ring, buf, number, stamp);
    var r := AfterArrive(t, number, buf, stamp);
    forall n | n in r.log && r.newest - NUM_SLOTS < n
      ensures r.ring.slots[n % NUM_SLOTS] == r.log[n].0 && r.ring.timing[n % NUM_SLOTS] == r.log[n].1
    {
      if n != number {
        assert n in t.log && t.newest - NUM_SLOTS < n;
        DifferentSlots(n, number);
      }
    }
  }

  /** Numbers less than a ring apart have different slots. */
  lemma DifferentSlots(a: int, b: int)
    requires a < b < a + NUM_SLOTS
    ensures a % NUM_SLOTS != b % NUM_SLOTS
  {
  }

  lemma ArriveRemembers(t: Track, number: nat, buf: Packet, stamp: real)
    requires SlotsRemember(t)
    ensures SlotsRemember(AfterArrive(t, number, buf, stamp))
  {
    var r := AfterArrive(t, number, buf, stamp);
    forall i | 0 <= i < NUM_SLOTS ensures r.ring.timing[i] == 0.0 || StampedBy(r, i) {
      if i == number % NUM_SLOTS {
        assert number in r.log && r.log[number].1 == r.ring.timing[i];
      } else if t.ring.timing[i] != 0.0 {
        var n :| n in t.log && n % NUM_SLOTS == i && t.log[n].1 == t.ring.timing[i];
        assert n in r.log && r.log[n] == t.log[n];
      }
    }
  }

  lemma ArriveKeepsYoungest(t: Track, number: nat, buf: Packet, stamp: real)
    requires Tracks(t) && ArrivesInOrder(t, number) && NewestIsYoungest(t.ring)
    requires forall i :: 0 <= i < NUM_SLOTS ==> t.ring.timing[i] <= stamp
    ensures NewestIsYoungest(AfterArrive(t, number, buf, stamp).ring)
  {
    if t.newest != -1 {
      NewestIsRight(t.newest, number);
    }
  }

  /** The distance the ring computes is the true distance. */
  lemma BehindIsTrue(t: Track)
    requires Tracks(t) && t.newest != -1
    ensures Behind(t.ring) == t.newest - t.out
    ensures forall p :: 1 <= p <= Behind(t.ring) ==> SlotAt(t.ring, p) == NumberAt(t, p) % NUM_SLOTS
  {
    hide SlotAt, NumberAt;
    forall p | 1 <= p <= Behind(t.ring) ensures SlotAt(t.ring, p) == NumberAt(t, p) % NUM_SLOTS {
      SlotIsTrue(t, p);
    }
  }

  lemma SlotIsTrue(t: Track, p: int)
    requires Tracks(t) && t.newest != -1
    ensures SlotAt(t.ring, p) == NumberAt(t, p) % NUM_SLOTS
  {
    var s, out := t.ring.lastOut, t.out;
    assert s == if t.delivered == [] then -1 else out % NUM_SLOTS;
    AddedModulo(s, out, p, if t.delivered == [] then t.newest / NUM_SLOTS else out / NUM_SLOTS);
  }

  lemma AddedModulo(s: int, out: int, p: int, k: int)
    requires out == NUM_SLOTS * k + s
    ensures (s + p) % NUM_SLOTS == (out + p) % NUM_SLOTS
  {
  }

  lemma PlayTracks(t: Track, now: real, tolerance: real)
    requires Tracks(t)
    ensures Tracks(AfterPlay(t, now, tolerance))
  {
    if t.newest != -1 && now >= tolerance {
      BehindIsTrue(t);
    }
  }

  /** One pull, in unbounded numbers: it delivers nothing, or exactly one number, which is newer
      than everything delivered before and no newer than the newest pushed. */
  lemma PlayAdvances(t: Track, now: real, tolerance: real)
    requires Tracks(t)
    ensures var r := AfterPlay(t, now, tolerance);
            || (r.delivered == t.delivered && r.out == t.out)
            || (r.delivered == t.delivered + [r.out] && t.newest != -1 && t.out < r.out <= t.newest)
  {
    if t.newest != -1 && now >= tolerance {
      BehindIsTrue(t);
    }
  }

  // ---------------------------------------------------------------------------------------
  // Whole runs

  ghost predicate Invariant(t: Track) {
    && Tracks(t) && Stored(t) && SlotsRemember(t)
    && t.ring.overruns == t.ring.skipped
    && |t.bytes| == |t.delivered|
    && (forall i, j :: 0 <= i < j < |t.delivered| ==> t.delivered[i] < t.delivered[j])
    && (t.delivered != [] ==> t.delivered[|t.delivered| - 1] == t.out)
    && (t.delivered == [] ==> t.ring.overruns == 0)
    && (t.delivered != [] ==>
          |t.delivered| - 1 + t.ring.overruns
          == t.out - t.delivered[0] + if t.ring.stash == -1 then 0 else t.pending - t.out - 1)
  }

  ghost function Fresh(slots: seq<Packet>): Track
    requires |slots| == NUM_SLOTS
  {
    Track(Initial(slots), -1, -1, -1, map[], [], [], [])
  }

  ghost function Next(t: Track, e: Event): Track
    requires WellFormed(t.ring)
  {
    match e
    case Arrive(n, buf, stamp) => AfterArrive(t, n, buf, stamp)
    case Play(now, tolerance) => AfterPlay(t, now, tolerance)
  }

  /** Every arrival of the run is in order and in window at the moment it happens. */
  ghost predicate InWindow(t: Track, run: seq<Event>)
    requires WellFormed(t.ring)
    decreases |run|
  {
    |run| > 0 ==>
      && (run[0].Arrive? ==> ArrivesInOrder(t, run[0].number))
      && WellFormed(Next(t, run[0]).ring)
      && InWindow(Next(t, run[0]), run[1..])
  }

  ghost function After(t: Track, run: seq<Event>): Track
    requires WellFormed(t.ring) && InWindow(t, run)
    decreases |run|
  {
    if |run| == 0 then t else After(Next(t, run[0]), run[1..])
  }

  lemma ArriveInvariant(t: Track, number: nat, buf: Packet, stamp: real)
    requires Invariant(t) && ArrivesInOrder(t, number)
    ensures Invariant(AfterArrive(t, number, buf, stamp))
  {
    ArriveTracks(t, number, buf, stamp);
    ArriveStores(t, number, buf, stamp);
    ArriveRemembers(t, number, buf, stamp);
  }

  lemma PlayInvariant(t: Track, now: real, tolerance: real)
    requires Invariant(t)
    ensures Invariant(AfterPlay(t, now, tolerance))
  {
    hide AfterPlay, Tracks, Stored, SlotsRemember;
    assert t.delivered == [] ==> t.ring.overruns == 0;
    PlayTracks(t, now, tolerance);
    PlayAdvances(t, now, tolerance);
    PlayConserves(t, now, tolerance);
    PlayRemembers(t, now, tolerance);
  }

  /** A pull leaves what was pushed alone. */
  lemma PlayKeepsPushed(t: Track, now: real, tolerance: real)
    requires WellFormed(t.ring)
    ensures var r := AfterPlay(t, now, tolerance);
            && r.log == t.log && r.newest == t.newest
            && r.ring.timing == t.ring.timing && r.ring.slots == t.ring.slots && r.ring.lastIn == t.ring.lastIn
            && |r.bytes| - |t.bytes| == |r.delivered| - |t.delivered|
  {
  }

  lemma PlayRemembers(t: Track, now: real, tolerance: real)
    requires Stored(t) && SlotsRemember(t) && WellFormed(AfterPlay(t, now, tolerance).ring)
    ensures var r := AfterPlay(t, now, tolerance);
            Stored(r) && SlotsRemember(r) && |r.bytes| - |t.bytes| == |r.delivered| - |t.delivered|
  {
    hide AfterPlay;
    PlayKeepsPushed(t, now, tolerance);
    var r := AfterPlay(t, now, tolerance);
    forall i | 0 <= i < NUM_SLOTS ensures r.ring.timing[i] == 0.0 || StampedBy(r, i) {
      if t.ring.timing[i] != 0.0 {
        assert StampedBy(t, i);
      }
    }
  }

  /** A pull moves the skip account and the delivery account together. */
  lemma PlayConserves(t: Track, now: real, tolerance: real)
    requires Tracks(t) && t.ring.overruns == t.ring.skipped
    ensures var r := AfterPlay(t, now, tolerance);
            && r.ring.overruns == r.ring.skipped
            && (t.delivered == [] ==> r.ring.overruns == t.ring.overruns && r.ring.stash == -1)
            && (t.delivered != [] ==>
                  |r.delivered| - |t.delivered| + r.ring.overruns - t.ring.overruns
                  == (r.out - t.out)
                     + (if r.ring.stash == -1 then 0 else r.pending - r.out - 1)
                     - (if t.ring.stash == -1 then 0 else t.pending - t.out - 1))
  {
    if t.newest != -1 && now >= tolerance {
      BehindIsTrue(t);
    }
  }

  /** Safety over whole runs: deliveries have strictly increasing numbers, never beyond the newest
      pushed; a stash lies between the last one out and the newest in; and every number passed is
      delivered once or counted as skipped once. */
  lemma InvariantParts(t: Track)
    requires Invariant(t)
    ensures Tracks(t)
    ensures (forall n :: n in t.log ==> n <= t.newest) && (t.newest != -1 ==> t.newest in t.log)
  {
  }

  lemma {:induction false} EveryRunIsSafe(t: Track, run: seq<Event>)
    requires Invariant(t) && InWindow(t, run)
    ensures Invariant(After(t, run))
    ensures t.delivered <= After(t, run).delivered
    decreases |run|
  {
    hide Invariant, AfterPlay, Tracks;
    if |run| > 0 {
      InvariantParts(t);
      match run[0] {
        case Arrive(n, buf, stamp) =>
          ArriveInvariant(t, n, buf, stamp);
        case Play(now, tolerance) =>
          PlayInvariant(t, now, tolerance);
          PlayAdvances(t, now, tolerance);
      }
      EveryRunIsSafe(Next(t, run[0]), run[1..]);
    }
  }

  lemma FreshIsSafe(slots: seq<Packet>, run: seq<Event>)
    requires |slots| == NUM_SLOTS && InWindow(Fresh(slots), run)
    ensures Invariant(Fresh(slots)) && Invariant(After(Fresh(slots), run))
  {
    EveryRunIsSafe(Fresh(slots), run);
  }

  // ---------------------------------------------------------------------------------------
  // The delivered bytes

  /** Every outstanding number that was never pushed is passed over: its slot's stamp is too old beside
      the last one out, or out of tolerance and not where the deferral of a jump would play it. */
  ghost predicate HolesAreHarmless(t: Track, now: real, tolerance: real)
    requires Tracks(t) && t.newest != -1
  {
    forall p :: 1 <= p <= Behind(t.ring) && NumberAt(t, p) !in t.log ==>
      || Missing(t.ring, p, tolerance)
      || (!WithinTolerance(t.ring, p, now, tolerance) && (p == 1 ==> t.delivered == []))
  }

  /** So far every delivery handed out the bytes pushed under its number; the last number out and a
      stash were pushed. */
  ghost predicate Faithful(t: Track) {
    && t.bytes == t.expected
    && (t.ring.stash != -1 ==> t.pending in t.log)
    && (t.delivered != [] ==> t.out in t.log)
  }

  lemma PlayIsFaithful(t: Track, now: real, tolerance: real)
    requires Invariant(t) && Faithful(t)
    requires t.newest != -1 && now >= tolerance ==> HolesAreHarmless(t, now, tolerance)
    ensures Faithful(AfterPlay(t, now, tolerance))
  {
    if t.newest != -1 && now >= tolerance {
      BehindIsTrue(t);
    }
  }

  /** With harmless holes the number a pull delivers had been pushed. */
  lemma DeliveredNumberWasPushed(t: Track, now: real, tolerance: real)
    requires Invariant(t) && Faithful(t)
    requires t.newest != -1 && now >= tolerance ==> HolesAreHarmless(t, now, tolerance)
    requires Pull(t.ring, now, tolerance).1.Real?
    ensures DeliveredNumber(t, now, tolerance) in t.log
  {
    BehindIsTrue(t);
  }

  /** What arrivals owe the packet ring, for pulls with at most `lag` numbers outstanding: packets that
      can share a slot with an outstanding one arrive more than the tolerance apart, and no number is
      absent directly after a packet that arrived within the tolerance of the start. */
  ghost predicate Paced(t: Track, tolerance: real, lag: nat) {
    FarApart(t.log, tolerance, NUM_SLOTS - lag) && LossesComeLate(t.log, t.newest, tolerance)
  }

  ghost predicate FarApart(log: map<int, (Packet, real)>, tolerance: real, gap: int) {
    forall a, b :: a in log && b in log && b - a >= gap ==> log[b].1 - log[a].1 > tolerance
  }

  ghost predicate LossesComeLate(log: map<int, (Packet, real)>, newest: int, tolerance: real) {
    forall a :: a in log && a < newest && a + 1 !in log ==> log[a].1 > tolerance
  }

  /** The arrival of a newest number keeps the pace. */
  ghost predicate KeepsPace(t: Track, number: nat, stamp: real, tolerance: real, lag: nat) {
    && (forall a :: a in t.log && number - a >= NUM_SLOTS - lag ==> stamp - t.log[a].1 > tolerance)
    && (t.newest in t.log && number > t.newest + 1 ==> t.log[t.newest].1 > tolerance)
  }

  /** A pull after the newest arrival, the clock past the tolerance, at most `lag` numbers outstanding. */
  ghost predicate InPace(t: Track, now: real, tolerance: real, lag: nat) {
    && now != tolerance && (t.newest in t.log ==> t.log[t.newest].1 <= now)
    && (t.delivered != [] ==> t.newest - t.out <= lag)
  }

  lemma PaceIsKept(t: Track, r: Track, number: nat, buf: Packet, stamp: real, tolerance: real, lag: nat)
    requires Paced(t, tolerance, lag) && KeepsPace(t, number, stamp, tolerance, lag) && lag < NUM_SLOTS
    requires (forall n :: n in t.log ==> n <= t.newest) && t.newest in t.log
    requires t.newest < number && r.newest == number && r.log == t.log[number := (buf, stamp)]
    ensures Paced(r, tolerance, lag)
  {
    hide FarApart, LossesComeLate;
    StaysFarApart(t.log, t.newest, number, (buf, stamp), tolerance, NUM_SLOTS - lag);
    LossesStayLate(t.log, t.newest, number, (buf, stamp), tolerance);
  }

  lemma StaysFarApart(log: map<int, (Packet, real)>, newest: int, number: int, entry: (Packet, real),
                      tolerance: real, gap: int)
    requires FarApart(log, tolerance, gap) && gap > 0 && newest < number && forall n :: n in log ==> n <= newest
    requires forall a :: a in log && number - a >= gap ==> entry.1 - log[a].1 > tolerance
    ensures FarApart(log[number := entry], tolerance, gap)
  {
  }

  lemma LossesStayLate(log: map<int, (Packet, real)>, newest: int, number: int, entry: (Packet, real),
                       tolerance: real)
    requires LossesComeLate(log, newest, tolerance) && newest in log && newest < number
    requires forall n :: n in log ==> n <= newest
    requires number > newest + 1 ==> log[newest].1 > tolerance
    ensures LossesComeLate(log[number := entry], number, tolerance)
  {
  }

  lemma {:induction false} PacedHolesAreHarmless(t: Track, now: real, tolerance: real, lag: nat)
    requires Invariant(t) && Faithful(t) && t.newest != -1 && lag < NUM_SLOTS
    requires Paced(t, tolerance, lag) && InPace(t, now, tolerance, lag) && now >= tolerance >= 0.0
    ensures HolesAreHarmless(t, now, tolerance)
  {
    BehindIsTrue(t);
    forall p | 1 <= p <= Behind(t.ring) && NumberAt(t, p) !in t.log
      ensures || Missing(t.ring, p, tolerance)
              || (!WithinTolerance(t.ring, p, now, tolerance) && (p == 1 ==> t.delivered == []))
    {
      PacedHole(t, now, tolerance, lag, p);
    }
  }

  lemma {:induction false} PacedHole(t: Track, now: real, tolerance: real, lag: nat, p: int)
    requires Invariant(t) && Faithful(t) && t.newest != -1 && lag < NUM_SLOTS
    requires Paced(t, tolerance, lag) && InPace(t, now, tolerance, lag) && now >= tolerance >= 0.0
    requires 1 <= p <= Behind(t.ring) && NumberAt(t, p) !in t.log
    ensures || Missing(t.ring, p, tolerance)
            || (!WithinTolerance(t.ring, p, now, tolerance) && (p == 1 ==> t.delivered == []))
  {
    hide Missing, WithinTolerance, InPace, Paced;
    BehindIsTrue(t);
    LastOutStamp(t);
    var i := SlotAt(t.ring, p);
    if t.ring.timing[i] == 0.0 {
      UnusedSlot(t, now, tolerance, lag, p);
    } else {
      assert StampedBy(t, i);
      var n :| n in t.log && n % NUM_SLOTS == i && t.log[n].1 == t.ring.timing[i];
      EarlierInSlot(n, NumberAt(t, p), t.newest, t.out);
      OldStamp(t, now, tolerance, lag, p, n);
    }
  }

  /** The stamp beside which holes are recognised is that of the last number out. */
  ghost predicate LastOutIsLogged(t: Track)
    requires WellFormed(t.ring)
  {
    if t.delivered == [] then t.ring.lastOut == -1 && t.newest in t.log
    else t.ring.lastOut != -1 && t.out in t.log && t.ring.timing[t.ring.lastOut] == t.log[t.out].1
  }

  lemma LastOutStamp(t: Track)
    requires Invariant(t) && Faithful(t) && t.newest != -1
    ensures LastOutIsLogged(t)
  {
  }

  /** A slot that still has its initial stamp. */
  lemma UnusedSlot(t: Track, now: real, tolerance: real, lag: nat, p: int)
    requires WellFormed(t.ring) && LastOutIsLogged(t) && t.ring.timing[SlotAt(t.ring, p)] == 0.0
    requires Paced(t, tolerance, lag) && InPace(t, now, tolerance, lag) && now >= tolerance >= 0.0
    requires NumberAt(t, p) !in t.log && (p == 1 ==> t.out < t.newest)
    ensures || Missing(t.ring, p, tolerance)
            || (!WithinTolerance(t.ring, p, now, tolerance) && (p == 1 ==> t.delivered == []))
  {
    if p == 1 && t.delivered != [] {
      assert t.out in t.log && t.log[t.out].1 > tolerance;
    }
  }

  /** A slot that still has the stamp of a number at least a ring less the lag older. */
  lemma OldStamp(t: Track, now: real, tolerance: real, lag: nat, p: int, n: int)
    requires WellFormed(t.ring) && LastOutIsLogged(t) && n in t.log
    requires t.ring.timing[SlotAt(t.ring, p)] == t.log[n].1
    requires Paced(t, tolerance, lag) && InPace(t, now, tolerance, lag) && tolerance >= 0.0
    requires n <= NumberAt(t, p) - NUM_SLOTS && NumberAt(t, p) <= t.newest
    ensures || Missing(t.ring, p, tolerance)
            || (!WithinTolerance(t.ring, p, now, tolerance) && (p == 1 ==> t.delivered == []))
  {
    hide SlotAt, NumberAt;
    var beside := if t.delivered == [] then t.newest else t.out;
    assert beside - n >= NUM_SLOTS - lag;
    assert t.log[beside].1 - t.log[n].1 > tolerance;
  }

  /** A loss directly after a packet that arrived within the tolerance of the start is not recognised:
      the slot of the absent number still has stamp 0, and it is played, never filled, exactly when the
      packet after it is the one chosen. */
  lemma {:induction false} EarlyHoleIsPlayed(t: Track, now: real, tolerance: real)
    requires Invariant(t) && Faithful(t) && t.delivered != [] && t.ring.stash == -1 && t.out < t.newest
    requires t.out + 1 !in t.log && t.ring.timing[SlotAt(t.ring, 1)] == 0.0 && now > tolerance >= 0.0
    ensures AfterPlay(t, now, tolerance).delivered == t.delivered + [t.out + 1]
      <==> t.log[t.out].1 <= tolerance && Candidate(t.ring, 2, now, tolerance)
  {
    BehindIsTrue(t);
    ChooseStep(t.ring, 1, now, tolerance);
    ChooseStep(t.ring, 2, now, tolerance);
  }

  /** The search stops at the first candidate. */
  lemma {:induction false} ChooseFirst(s: State, p: int, q: int, now: real, tolerance: real)
    requires WellFormed(s) && s.lastIn != -1 && 1 <= p <= q <= Behind(s) && Candidate(s, q, now, tolerance)
    requires forall i :: p <= i < q ==> !Candidate(s, i, now, tolerance)
    ensures Choose(s, p, now, tolerance) == q
    decreases q - p
  {
    ChooseStep(s, p, now, tolerance);
    if p < q {
      ChooseFirst(s, p + 1, q, now, tolerance);
    }
  }

  /** The first pull of the example takes slot 5, the second plays slot 6 and stashes slot 7. */
  lemma PullsOfExample(s: State)
    requires WellFormed(s) && s.lastIn == 7 && s.stash == -1
    requires s.timing[5] == 1.0 && s.timing[7] == 5.0 && forall i :: 0 <= i < 7 && i != 5 ==> s.timing[i] == 0.0
    ensures s.lastOut == -1 ==> Choose(s, 1, 10.5, 10.0) == 6 && Pull(s, 10.5, 10.0) == Deliver(s, 5)
    ensures s.lastOut == 5 ==>
      && Choose(s, 1, 13.0, 10.0) == 2 && !Missing(s, 1, 10.0)
      && Pull(s, 13.0, 10.0) == Deliver(s.(stash := 7), 6)
  {
    hide Choose;
    if s.lastOut == -1 {
      ChooseFirst(s, 1, 6, 10.5, 10.0);
    } else if s.lastOut == 5 {
      ChooseFirst(s, 1, 2, 13.0, 10.0);
    }
  }

  /** One such run: packets 5 and 7 arrive after 1 and 5 ms, packet 6 is lost, the tolerance is 10 ms. */
  lemma {:induction false} EarlyHoleExample(slots: seq<Packet>, five: Packet, seven: Packet)
    requires |slots| == NUM_SLOTS
    ensures var run := [Arrive(5, five, 1.0), Arrive(7, seven, 5.0), Play(10.5, 10.0), Play(13.0, 10.0)];
            InWindow(Fresh(slots), run) && After(Fresh(slots), run).bytes == [five, slots[6]]
  {
    hide Choose, Pull, Missing;
    var t1 := AfterArrive(Fresh(slots), 5, five, 1.0);
    var t2 := AfterArrive(t1, 7, seven, 5.0);
    PullsOfExample(t2.ring);
    var t3 := AfterPlay(t2, 10.5, 10.0);
    PullsOfExample(t3.ring);
    var t4 := AfterPlay(t3, 13.0, 10.0);
    assert t4.bytes == [five, slots[6]];
    var run := [Arrive(5, five, 1.0), Arrive(7, seven, 5.0), Play(10.5, 10.0), Play(13.0, 10.0)];
    assert run[1..][1..] == run[2..] && run[2..][1..] == run[3..] && run[3..][1..] == [];
    assert InWindow(t4, []) && After(t4, []) == t4;
    assert InWindow(t3, run[3..]) && After(t3, run[3..]) == t4;
    assert InWindow(t2, run[2..]) && After(t2, run[2..]) == t4;
    assert InWindow(t1, run[1..]) && After(t1, run[1..]) == t4;
  }

  /** Another number in the slot of an outstanding one is at least a ring older. */
  lemma EarlierInSlot(n: int, j: int, newest: int, out: int)
    requires 0 <= n <= newest <= out + NUM_SLOTS && -1 <= out < j <= newest && n != j
    requires n % NUM_SLOTS == j % NUM_SLOTS
    ensures n <= j - NUM_SLOTS
  {
  }

  /** Holes are harmless at every pull of the run. */
  ghost predicate HolesStayHarmless(t: Track, run: seq<Event>)
    requires Invariant(t) && InWindow(t, run)
    decreases |run|
  {
    |run| > 0 ==>
      && (run[0].Play? && t.newest != -1 && run[0].now >= run[0].tolerance ==>
            HolesAreHarmless(t, run[0].now, run[0].tolerance))
      && (Invariant(Next(t, run[0])) ==> HolesStayHarmless(Next(t, run[0]), run[1..]))
  }

  /** Over whole runs the delivered bytes are the bytes pushed under the delivered numbers. */
  lemma {:induction false} EveryRunIsFaithful(t: Track, run: seq<Event>)
    requires Invariant(t) && Faithful(t) && InWindow(t, run) && HolesStayHarmless(t, run)
    ensures Faithful(After(t, run))
    decreases |run|
  {
    if |run| > 0 {
      match run[0] {
        case Arrive(n, buf, stamp) =>
          ArriveInvariant(t, n, buf, stamp);
        case Play(now, tolerance) =>
          PlayInvariant(t, now, tolerance);
          PlayIsFaithful(t, now, tolerance);
      }
      EveryRunIsFaithful(Next(t, run[0]), run[1..]);
    }
  }

  // ---------------------------------------------------------------------------------------
  // Progress

  /** With a newer packet in the ring the search always ends at a packet: the pull delivers, or it
      conceals and stashes what the next pull delivers. */
  lemma NewerPacketIsFound(t: Track, now: real, tolerance: real)
    requires Tracks(t) && t.newest != -1 && now >= tolerance >= 0.0
    requires NewestIsYoungest(t.ring) && t.out < t.newest
    ensures var (s, xfr) := Pull(t.ring, now, tolerance);
            && s.underruns == t.ring.underruns
            && (xfr.Real? || (xfr.Concealed? && s.stash != -1))
  {
    BehindIsTrue(t);
    var last := Behind(t.ring);
    assert SlotAt(t.ring, last) == t.ring.lastIn;
    assert Candidate(t.ring, last, now, tolerance);
  }

  /** Any two consecutive pulls, whatever arrives between them, deliver at least one real packet. */
  lemma {:induction false} TwoPullsDeliver(t: Track, now: real, arrivals: seq<Event>, now': real, tolerance: real)
    requires Tracks(t) && t.newest != -1 && now >= tolerance >= 0.0 && now' >= tolerance
    requires NewestIsYoungest(t.ring) && t.out < t.newest
    requires forall e :: e in arrivals ==> e.Arrive?
    requires WellFormed(AfterPlay(t, now, tolerance).ring) && InWindow(AfterPlay(t, now, tolerance), arrivals)
    ensures var between := After(AfterPlay(t, now, tolerance), arrivals);
            && WellFormed(between.ring)
            && (Pull(t.ring, now, tolerance).1.Real? || Pull(between.ring, now', tolerance).1.Real?)
  {
    NewerPacketIsFound(t, now, tolerance);
    PlayTracks(t, now, tolerance);
    ArrivalsKeepStash(AfterPlay(t, now, tolerance), arrivals);
  }

  lemma {:induction false} ArrivalsKeepStash(t: Track, arrivals: seq<Event>)
    requires Tracks(t) && InWindow(t, arrivals)
    requires forall e :: e in arrivals ==> e.Arrive?
    ensures Tracks(After(t, arrivals)) && After(t, arrivals).ring.stash == t.ring.stash
    ensures t.newest != -1 ==> After(t, arrivals).newest != -1
    decreases |arrivals|
  {
    if |arrivals| > 0 {
      var e := arrivals[0];
      assert e in arrivals;
      ArriveTracks(t, e.number, e.buf, e.stamp);
      ArrivalsKeepStash(Next(t, e), arrivals[1..]);
    }
  }

  /** The clock never runs backwards: no arrival is stamped earlier than the one before it. */
  ghost predicate StampsRise(clock: real, run: seq<Event>)
    decreases |run|
  {
    |run| > 0 ==>
      match run[0]
      case Arrive(_, _, stamp) => clock <= stamp && StampsRise(stamp, run[1..])
      case Play(_, _) => StampsRise(clock, run[1..])
  }

  ghost predicate NoneYounger(s: State, clock: real) {
    forall i :: 0 <= i < |s.timing| ==> s.timing[i] <= clock
  }

  /** Over whole runs with rising stamps the newest packet keeps the youngest stamp. */
  lemma {:induction false} EveryRunKeepsYoungest(t: Track, run: seq<Event>, clock: real)
    requires Tracks(t) && NewestIsYoungest(t.ring) && NoneYounger(t.ring, clock)
    requires InWindow(t, run) && StampsRise(clock, run)
    ensures Tracks(After(t, run)) && NewestIsYoungest(After(t, run).ring)
    decreases |run|
  {
    if |run| > 0 {
      var next := Next(t, run[0]);
      match run[0] {
        case Arrive(n, buf, stamp) =>
          ArriveTracks(t, n, buf, stamp);
          ArriveKeepsYoungest(t, n, buf, stamp);
          EveryRunKeepsYoungest(next, run[1..], stamp);
        case Play(now, tolerance) =>
          PlayTracks(t, now, tolerance);
          assert next.ring.timing == t.ring.timing && next.ring.lastIn == t.ring.lastIn;
          EveryRunKeepsYoungest(next, run[1..], clock);
      }
    }
  }

  /** Progress over every run from the start with rising stamps: whenever a newer packet than the last
      one out has arrived, a pull finds a packet, and two pulls, whatever arrives between them, deliver
      one. */
  lemma {:induction false} EveryRunProgresses(slots: seq<Packet>, run: seq<Event>, now: real,
                                              arrivals: seq<Event>, now': real, tolerance: real)
    requires |slots| == NUM_SLOTS && InWindow(Fresh(slots), run) && StampsRise(0.0, run)
    requires var t := After(Fresh(slots), run);
             && t.newest != -1 && t.out < t.newest && WellFormed(t.ring)
             && WellFormed(AfterPlay(t, now, tolerance).ring)
             && InWindow(AfterPlay(t, now, tolerance), arrivals)
    requires now >= tolerance >= 0.0 && now' >= tolerance
    requires forall e :: e in arrivals ==> e.Arrive?
    ensures var t := After(Fresh(slots), run);
            var (s, xfr) := Pull(t.ring, now, tolerance);
            var between := After(AfterPlay(t, now, tolerance), arrivals);
            && s.underruns == t.ring.underruns
            && (xfr.Real? || (xfr.Concealed? && s.stash != -1))
            && WellFormed(between.ring) && (xfr.Real? || Pull(between.ring, now', tolerance).1.Real?)
  {
    EveryRunKeepsYoungest(Fresh(slots), run, 0.0);
    NewerPacketIsFound(After(Fresh(slots), run), now, tolerance);
    TwoPullsDeliver(After(Fresh(slots), run), now, arrivals, now', tolerance);
  }

  /** The choice: the oldest packet, neither missing nor too old, and else the newest one. */
  lemma ChosenPacketIsOldest(t: Track, now: real, tolerance: real)
    requires Tracks(t) && t.newest != -1 && tolerance >= 0.0
    requires NewestIsYoungest(t.ring) && t.out < t.newest
    ensures var p := Choose(t.ring, 1, now, tolerance);
            && 1 <= p <= t.newest - t.out
            && !Missing(t.ring, p, tolerance)
            && (WithinTolerance(t.ring, p, now, tolerance) || NumberAt(t, p) == t.newest)
            && (forall q :: 1 <= q < p ==>
                  Missing(t.ring, q, tolerance) || !WithinTolerance(t.ring, q, now, tolerance))
  {
    BehindIsTrue(t);
    var last := Behind(t.ring);
    assert SlotAt(t.ring, last) == t.ring.lastIn;
    assert Candidate(t.ring, last, now, tolerance);
    var p := Choose(t.ring, 1, now, tolerance);
    forall q | 1 <= q < p
      ensures Missing(t.ring, q, tolerance) || !WithinTolerance(t.ring, q, now, tolerance)
    {
      assert !Candidate(t.ring, q, now, tolerance);
    }
  }

  // ---------------------------------------------------------------------------------------
  // What a pull answers

  /** Silence only at the start; a stashed packet first; and without a real packet a prediction, unless
      nothing newer than the last one out has come for more than 512 ms: then zeros.  An underrun is
      counted exactly when the answer is not real and nothing is stashed. */
  lemma PullAnswers(s: State, now: real, tolerance: real)
    requires WellFormed(s)
    ensures var (r, xfr) := Pull(s, now, tolerance);
            && (xfr.Silence? <==> s.lastIn == -1 || now < tolerance)
            && (xfr.Silence? ==> r == s)
            && (!xfr.Silence? && s.stash != -1 ==>
                  xfr == Real(s.slots[s.stash]) && r == s.(lastOut := s.stash, stash := -1))
            && (!xfr.Silence? && !xfr.Real? ==>
                  if s.stash == -1 && s.lastIn == s.lastOut && now - s.timing[s.lastOut] > 512.0
                  then xfr.Stuck? else xfr.Concealed?)
            && r.underruns - s.underruns == if !xfr.Silence? && !xfr.Real? && r.stash == -1 then 1 else 0
  {
    hide Choose, Missing, SlotAt;
  }

  /** The stamp of the slot of a number. */
  ghost function Stamp(t: Track, n: int): real
    requires WellFormed(t.ring)
  {
    t.ring.timing[n % NUM_SLOTS]
  }

  /** Number n is not recognised as absent beside the last one out. */
  ghost predicate Present(t: Track, n: int, tolerance: real)
    requires WellFormed(t.ring)
  {
    t.delivered != [] ==> Stamp(t, n) >= Stamp(t, t.out) || Stamp(t, t.out) - Stamp(t, n) <= tolerance
  }

  /** Number n is present and young enough, or the newest. */
  ghost predicate Playable(t: Track, n: int, now: real, tolerance: real)
    requires WellFormed(t.ring)
  {
    Present(t, n, tolerance) && (Stamp(t, n) + tolerance >= now || n == t.newest)
  }

  /** A pull with newer packets, in unbounded numbers: the oldest playable number n is played when
      nothing is passed for it or nothing was played yet; when exactly one present number is passed,
      that one is played first and n is kept for the next pull; otherwise the pull conceals, counts
      what it passes, and keeps n.  If no number is playable it is an underrun. */
  lemma {:induction false} PullPlaysOldest(t: Track, now: real, tolerance: real, n: int)
    requires Tracks(t) && t.newest != -1 && now >= tolerance && t.ring.stash == -1 && t.out < n <= t.newest
    requires Playable(t, n, now, tolerance)
    requires forall q :: t.out < q < n ==> !Playable(t, q, now, tolerance)
    ensures var (r, xfr) := Pull(t.ring, now, tolerance);
            var slot, passed := n % NUM_SLOTS, n - t.out - 1;
            if t.delivered == [] || passed == 0 then
              xfr == Real(t.ring.slots[slot]) && r == t.ring.(lastOut := slot)
            else if passed == 1 && Present(t, t.out + 1, tolerance) then
              var first := (t.out + 1) % NUM_SLOTS;
              xfr == Real(t.ring.slots[first]) && r == t.ring.(lastOut := first, stash := slot)
            else
              xfr.Concealed? && r == t.ring.(overruns := t.ring.overruns + passed,
                                             skipped := t.ring.skipped + passed, stash := slot)
  {
    hide Choose;
    BehindIsTrue(t);
    forall p | 1 <= p <= Behind(t.ring)
      ensures SlotAt(t.ring, p) == (t.out + p) % NUM_SLOTS
      ensures Candidate(t.ring, p, now, tolerance) <==> Playable(t, t.out + p, now, tolerance)
      ensures Missing(t.ring, p, tolerance) <==> !Present(t, t.out + p, tolerance)
    {
      PlayableIsCandidate(t, now, tolerance, p);
    }
    ChooseFirst(t.ring, 1, n - t.out, now, tolerance);
  }

  /** With no playable number the pull conceals and counts an underrun. */
  lemma {:induction false} NothingPlayable(t: Track, now: real, tolerance: real)
    requires Tracks(t) && t.newest != -1 && now >= tolerance && t.ring.stash == -1 && t.out < t.newest
    requires forall q :: t.out < q <= t.newest ==> !Playable(t, q, now, tolerance)
    ensures Pull(t.ring, now, tolerance) == (t.ring.(underruns := t.ring.underruns + 1), Concealed)
  {
    hide Choose, Candidate, Playable;
    BehindIsTrue(t);
    SameSlotSameNumber(t);
    forall p | 1 <= p <= Behind(t.ring) ensures !Candidate(t.ring, p, now, tolerance) {
      PlayableIsCandidate(t, now, tolerance, p);
    }
  }

  lemma PlayableIsCandidate(t: Track, now: real, tolerance: real, p: int)
    requires Tracks(t) && t.newest != -1 && 1 <= p <= Behind(t.ring)
    ensures SlotAt(t.ring, p) == (t.out + p) % NUM_SLOTS
    ensures Candidate(t.ring, p, now, tolerance) <==> Playable(t, t.out + p, now, tolerance)
    ensures Missing(t.ring, p, tolerance) <==> !Present(t, t.out + p, tolerance)
  {
    hide SlotAt, Behind;
    BehindIsTrue(t);
    SlotIsTrue(t, p);
  }

  /** Pulls of a run that find nothing newer than the last number out. */
  ghost function DryPulls(t: Track, run: seq<Event>): nat
    requires WellFormed(t.ring) && InWindow(t, run)
    decreases |run|
  {
    if |run| == 0 then 0
    else (if run[0].Play? && FindsNothing(t, run[0].now, run[0].tolerance) then 1 else 0)
         + DryPulls(Next(t, run[0]), run[1..])
  }

  ghost predicate FindsNothing(t: Track, now: real, tolerance: real) {
    t.newest != -1 && now >= tolerance && t.ring.stash == -1 && t.out == t.newest
  }

  ghost predicate TolerancesFit(run: seq<Event>) {
    forall e :: e in run && e.Play? ==> e.tolerance >= 0.0
  }

  /** What a pull answers in a state whose newest packet is the youngest. */
  lemma {:induction false} YoungestAnswers(t: Track, now: real, tolerance: real)
    requires Invariant(t) && NewestIsYoungest(t.ring) && tolerance >= 0.0
    ensures var (r, xfr) := Pull(t.ring, now, tolerance);
            && (xfr.Silence? <==> t.newest == -1 || now < tolerance)
            && (xfr.Stuck? <==> FindsNothing(t, now, tolerance) && now - t.log[t.newest].1 > 512.0)
            && (xfr.Real? ==> !FindsNothing(t, now, tolerance))
            && r.underruns - t.ring.underruns == if FindsNothing(t, now, tolerance) then 1 else 0
  {
    hide Pull, Choose;
    PullAnswers(t.ring, now, tolerance);
    if t.newest != -1 && now >= tolerance && t.ring.stash == -1 {
      SameSlotSameNumber(t);
      if t.out < t.newest {
        NewerPacketIsFound(t, now, tolerance);
      } else {
        NothingNewer(t, now, tolerance);
      }
    }
  }

  /** The ring's two registers agree exactly when the newest number has been played. */
  lemma SameSlotSameNumber(t: Track)
    requires Tracks(t) && t.newest != -1
    ensures t.out <= t.newest && (t.ring.lastIn == t.ring.lastOut <==> t.out == t.newest)
  {
    if t.out < t.newest && t.delivered != [] {
      DifferentSlots(t.out, t.newest);
    }
  }

  lemma NothingNewer(t: Track, now: real, tolerance: real)
    requires Invariant(t) && FindsNothing(t, now, tolerance)
    ensures !Pull(t.ring, now, tolerance).1.Real? && Pull(t.ring, now, tolerance).0.stash == -1
    ensures t.ring.timing[t.ring.lastOut] == t.log[t.newest].1
  {
    hide Choose;
  }

  /** After every run from the start with rising stamps: zeros come out only before the start or when
      the newest packet has been played and is more than 512 ms old, and the underruns counted are
      exactly the pulls that found nothing newer. */
  lemma {:induction false} EveryRunAnswers(slots: seq<Packet>, run: seq<Event>, now: real, tolerance: real)
    requires |slots| == NUM_SLOTS && InWindow(Fresh(slots), run) && StampsRise(0.0, run)
    requires TolerancesFit(run) && tolerance >= 0.0
    ensures var t := After(Fresh(slots), run);
            && Invariant(t) && t.ring.underruns == DryPulls(Fresh(slots), run)
            && var xfr := Pull(t.ring, now, tolerance).1;
               && (xfr.Silence? <==> t.newest == -1 || now < tolerance)
               && (xfr.Stuck? <==> FindsNothing(t, now, tolerance) && now - t.log[t.newest].1 > 512.0)
               && (FindsNothing(t, now, tolerance) && now - t.log[t.newest].1 <= 512.0 ==> xfr.Concealed?)
  {
    hide Pull, Invariant;
    FreshIsSafe(slots, run);
    EveryRunKeepsYoungest(Fresh(slots), run, 0.0);
    UnderrunsAreDryPulls(Fresh(slots), run, 0.0);
    var t := After(Fresh(slots), run);
    YoungestAnswers(t, now, tolerance);
  }

  lemma {:induction false} UnderrunsAreDryPulls(t: Track, run: seq<Event>, clock: real)
    requires Invariant(t) && NewestIsYoungest(t.ring) && NoneYounger(t.ring, clock)
    requires InWindow(t, run) && StampsRise(clock, run) && TolerancesFit(run)
    ensures After(t, run).ring.underruns == t.ring.underruns + DryPulls(t, run)
    decreases |run|
  {
    if |run| > 0 {
      hide Invariant, Tracks, AfterPlay;
      var next := Next(t, run[0]);
      InvariantParts(t);
      assert TolerancesFit(run[1..]);
      match run[0] {
        case Arrive(n, buf, stamp) =>
          ArriveInvariant(t, n, buf, stamp);
          ArriveKeepsYoungest(t, n, buf, stamp);
          UnderrunsAreDryPulls(next, run[1..], stamp);
        case Play(now, tolerance) =>
          assert run[0] in run;
          PlayInvariant(t, now, tolerance);
          PlayKeepsPushed(t, now, tolerance);
          YoungestAnswers(t, now, tolerance);
          PlayUnderruns(t, now, tolerance);
          UnderrunsAreDryPulls(next, run[1..], clock);
      }
    }
  }

  lemma PlayUnderruns(t: Track, now: real, tolerance: real)
    requires WellFormed(t.ring)
    ensures AfterPlay(t, now, tolerance).ring == Pull(t.ring, now, tolerance).0
  {
    hide Pull, Choose;
  }
}
