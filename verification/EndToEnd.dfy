/** The redundancy receiver feeding the packet ring: what a listener hears is what was sent. */
module EndToEnd {
  import Net = Redundancy
  import NetTheory = RedundancyTheory
  import Ring = Regulator
  import RingTheory = RegulatorTheory

  /** The packet ring after the audio writes of one datagram, each pushed under its own number; a write
      without a number is dropped. */
  ghost function Feed(s: Ring.State, w: seq<Net.Write>, stamp: real): Ring.State
    requires Ring.WellFormed(s)
    decreases |w|
  {
    if |w| == 0 then s
    else if w[0].seqNum < 0 then Feed(s, w[1..], stamp)
    else
      RingTheory.PushKeepsShape(s, w[0].payload, w[0].seqNum, stamp);
      Feed(Ring.Push(s, w[0].payload, w[0].seqNum, stamp), w[1..], stamp)
  }

  /** The same writes as arrivals of the unbounded number n. */
  ghost function FeedTrack(t: RingTheory.Track, n: nat, w: seq<Net.Write>, stamp: real): RingTheory.Track
    requires Ring.WellFormed(t.ring)
    decreases |w|
  {
    if |w| == 0 then t
    else
      RingTheory.PushKeepsShape(t.ring, w[0].payload, n, stamp);
      FeedTrack(RingTheory.AfterArrive(t, n, w[0].payload, stamp), n, w[1..], stamp)
  }

  /** Every write of one datagram carries the same, newest, number. */
  ghost predicate AllNumbered(w: seq<Net.Write>, n: nat) {
    forall k :: 0 <= k < |w| ==> w[k].seqNum == n % Net.SEQ_MODULUS
  }

  /** The ring size divides the number space, so 16-bit numbers address the same slots. */
  lemma SameSlot(n: nat)
    ensures (n % Net.SEQ_MODULUS) % Ring.NUM_SLOTS == n % Ring.NUM_SLOTS
  {
  }

  lemma {:induction false} FeedIsPushes(t: RingTheory.Track, n: nat, w: seq<Net.Write>, stamp: real)
    requires Ring.WellFormed(t.ring) && AllNumbered(w, n)
    ensures FeedTrack(t, n, w, stamp).ring == Feed(t.ring, w, stamp)
    decreases |w|
  {
    if |w| > 0 {
      SameSlot(n);
      var r := RingTheory.AfterArrive(t, n, w[0].payload, stamp);
      assert r.ring == Ring.Push(t.ring, w[0].payload, w[0].seqNum, stamp);
      FeedIsPushes(r, n, w[1..], stamp);
    }
  }

  /** Everything logged by the ring is what was sent under that number, and every delivery was logged
      and expected exactly that. */
  ghost predicate LogIsSent(t: RingTheory.Track, sent: seq<Net.Payload>) {
    && (forall k :: k in t.log ==> 0 <= k < |sent| && t.log[k].0 == sent[k])
    && |t.expected| == |t.delivered|
    && (forall i :: 0 <= i < |t.delivered| ==>
          t.delivered[i] in t.log && t.expected[i] == t.log[t.delivered[i]].0)
  }

  /** Pushing all packets of one datagram leaves the ring at number n with the payload written
      last; the payloads written before it went to the same slot and are gone. */
  lemma {:induction false} FeedKeepsInvariant(t: RingTheory.Track, n: nat, w: seq<Net.Write>, stamp: real)
    requires RingTheory.Invariant(t) && RingTheory.ArrivesInOrder(t, n) && |w| > 0
    ensures var r := FeedTrack(t, n, w, stamp);
            && RingTheory.Invariant(r) && r.newest == n
            && r.log == t.log[n := (w[|w| - 1].payload, stamp)]
            && r.delivered == t.delivered && r.bytes == t.bytes && r.expected == t.expected
            && r.ring.stash == t.ring.stash && (t.ring.stash != -1 ==> r.pending == t.pending)
            && (t.delivered != [] ==> r.out == t.out)
    decreases |w|
  {
    RingTheory.ArriveInvariant(t, n, w[0].payload, stamp);
    var r := RingTheory.AfterArrive(t, n, w[0].payload, stamp);
    if |w| > 1 {
      hide RingTheory.Invariant;
      FeedKeepsInvariant(r, n, w[1..], stamp);
    }
  }

  // ---------------------------------------------------------------------------------------
  // The whole receive path

  datatype Event =
    | Datagram(n: nat, stamp: real)
    | Play(now: real, tolerance: real)

  datatype Path = Path(net: NetTheory.Track, ring: RingTheory.Track)

  ghost predicate Invariant(p: Path, c: NetTheory.Setting, start: nat, base: nat) {
    && NetTheory.RunInvariant(p.net, c, start, base)
    && RingTheory.Invariant(p.ring)
    && p.ring.newest == p.net.last
    && LogIsSent(p.ring, c.sent)
    && RingTheory.Faithful(p.ring)
    && LogIsAccepted(p, start)
  }

  /** Beyond the start, the ring has seen exactly the numbers that were themselves accepted. */
  ghost predicate LogIsAccepted(p: Path, start: nat) {
    forall j: nat :: start < j ==> (j in p.ring.log <==> j in p.net.accepted)
  }

  /** What a call added to the writes. */
  ghost function Added(before: seq<Net.Write>, after: seq<Net.Write>): seq<Net.Write> {
    if |before| <= |after| then after[|before|..] else []
  }

  ghost function NewWrites(p: Path, c: NetTheory.Setting, n: nat): seq<Net.Write>
    requires NetTheory.ValidSetting(c) && n < |c.sent|
  {
    Added(p.net.rx.written, NetTheory.Arrive(p.net, c, n).rx.written)
  }

  ghost function Next(p: Path, c: NetTheory.Setting, e: Event): Path
    requires NetTheory.ValidSetting(c) && Ring.WellFormed(p.ring.ring) && (e.Datagram? ==> e.n < |c.sent|)
  {
    match e
    case Datagram(n, stamp) =>
      Path(NetTheory.Arrive(p.net, c, n), FeedTrack(p.ring, n, NewWrites(p, c, n), stamp))
    case Play(now, tolerance) =>
      p.(ring := RingTheory.AfterPlay(p.ring, now, tolerance))
  }

  /** A datagram that is receivable and, if accepted, does not overrun the ring. */
  ghost predicate DatagramFits(p: Path, c: NetTheory.Setting, n: nat) {
    && n < |c.sent| && NetTheory.Receivable(p.net, n)
    && (NetTheory.Accepts(p.net.last, n) && p.ring.delivered != [] ==> n - p.ring.out < Ring.NUM_SLOTS)
  }

  /** A datagram that fits; a pull whose holes are harmless. */
  ghost predicate Enabled(p: Path, c: NetTheory.Setting, e: Event) {
    match e
    case Datagram(n, stamp) => DatagramFits(p, c, n)
    case Play(now, tolerance) =>
      RingTheory.Tracks(p.ring) && p.ring.newest != -1 && now >= tolerance ==>
        RingTheory.HolesAreHarmless(p.ring, now, tolerance)
  }

  /** Composition of the two machines, across the 16-bit wrap: after every datagram the ring's newest
      slot is the newest accepted number modulo 4096, despite the asymmetric comparison and the
      repeated writes. */
  lemma {:induction false} DatagramKeepsInvariant(p: Path, c: NetTheory.Setting, start: nat, base: nat,
                                                  n: nat, stamp: real)
    requires NetTheory.ValidSetting(c) && Invariant(p, c, start, base) && DatagramFits(p, c, n)
    ensures var r := Next(p, c, Datagram(n, stamp));
            && Invariant(r, c, start, base)
            && r.ring.ring == Feed(p.ring.ring, NewWrites(p, c, n), stamp)
            && r.ring.ring.lastIn == r.net.last % Ring.NUM_SLOTS
  {
    hide NetTheory.Arrive, Net.Receive, RingTheory.Invariant, NetTheory.RunInvariant, LogIsAccepted;
    NetInvariantParts(p, c, start, base);
    NetTheory.ArriveKeepsInvariant(p.net, c, start, base, n);
    var w := NewWritesAre(p, c, n);
    FeedIsPushes(p.ring, n, w, stamp);
    if NetTheory.Accepts(p.net.last, n) {
      FeedKeepsInvariant(p.ring, n, w, stamp);
    }
    var r := Next(p, c, Datagram(n, stamp));
    AcceptedIsLogged(p, r, start, c, n, stamp);
    RingTheory.InvariantParts(r.ring);
  }

  lemma NetInvariantParts(p: Path, c: NetTheory.Setting, start: nat, base: nat)
    requires Invariant(p, c, start, base)
    ensures NetTheory.Synced(p.net) && RingTheory.Tracks(p.ring)
  {
  }

  lemma {:induction false} AcceptedIsLogged(p: Path, r: Path, start: nat, c: NetTheory.Setting, n: nat, stamp: real)
    requires NetTheory.ValidSetting(c) && n < |c.sent| && LogIsAccepted(p, start)
    requires r.net == NetTheory.Arrive(p.net, c, n)
    requires r.ring.log == if NetTheory.Accepts(p.net.last, n) then p.ring.log[n := (c.sent[n], stamp)] else p.ring.log
    ensures LogIsAccepted(r, start)
  {
    hide Net.Receive;
  }

  /** The new writes of a datagram: none when it is rejected; otherwise all under its own number,
      the newest payload last. */
  lemma {:induction false} NewWritesAre(p: Path, c: NetTheory.Setting, n: nat) returns (w: seq<Net.Write>)
    requires NetTheory.ValidSetting(c) && NetTheory.Synced(p.net)
    requires n < |c.sent| && NetTheory.Receivable(p.net, n)
    ensures w == NewWrites(p, c, n) && AllNumbered(w, n)
    ensures var r := NetTheory.Arrive(p.net, c, n);
            && (NetTheory.Accepts(p.net.last, n) ==>
                  r.last == n && |w| > 0 && w[|w| - 1].payload == c.sent[n])
            && (!NetTheory.Accepts(p.net.last, n) ==> r.last == p.net.last && w == [])
  {
    hide Net.Receive, NetTheory.WalkIndex;
    NetTheory.ArriveWrites(p.net, c, n);
    w := NewWrites(p, c, n);
  }

  lemma {:induction false} PlayKeepsInvariant(p: Path, c: NetTheory.Setting, start: nat, base: nat,
                                              now: real, tolerance: real)
    requires NetTheory.ValidSetting(c) && Invariant(p, c, start, base) && Enabled(p, c, Play(now, tolerance))
    ensures Invariant(Next(p, c, Play(now, tolerance)), c, start, base)
  {
    hide NetTheory.RunInvariant, RingTheory.Invariant, RingTheory.AfterPlay, RingTheory.Faithful, LogIsSent;
    RingTheory.InvariantParts(p.ring);
    RingTheory.PlayInvariant(p.ring, now, tolerance);
    RingTheory.PlayKeepsPushed(p.ring, now, tolerance);
    RingTheory.PlayIsFaithful(p.ring, now, tolerance);
    DeliveriesWereSent(p, c, start, base, now, tolerance);
  }

  lemma {:induction false} DeliveriesWereSent(p: Path, c: NetTheory.Setting, start: nat, base: nat,
                                              now: real, tolerance: real)
    requires Invariant(p, c, start, base) && Enabled(p, c, Play(now, tolerance))
    ensures LogIsSent(RingTheory.AfterPlay(p.ring, now, tolerance), c.sent)
  {
    hide NetTheory.RunInvariant, LogIsAccepted;
    if Ring.Pull(p.ring.ring, now, tolerance).1.Real? {
      RingTheory.DeliveredNumberWasPushed(p.ring, now, tolerance);
    }
  }

  ghost predicate Run(p: Path, c: NetTheory.Setting, events: seq<Event>)
    requires NetTheory.ValidSetting(c) && Ring.WellFormed(p.ring.ring)
    decreases |events|
  {
    |events| > 0 ==>
      && Enabled(p, c, events[0])
      && Ring.WellFormed(Next(p, c, events[0]).ring.ring)
      && Run(Next(p, c, events[0]), c, events[1..])
  }

  ghost function After(p: Path, c: NetTheory.Setting, events: seq<Event>): Path
    requires NetTheory.ValidSetting(c) && Ring.WellFormed(p.ring.ring) && Run(p, c, events)
    decreases |events|
  {
    if |events| == 0 then p else After(Next(p, c, events[0]), c, events[1..])
  }

  lemma {:induction false} StepKeepsInvariant(p: Path, c: NetTheory.Setting, start: nat, base: nat, e: Event)
    requires NetTheory.ValidSetting(c) && Invariant(p, c, start, base) && Enabled(p, c, e)
    ensures Invariant(Next(p, c, e), c, start, base)
  {
    match e
    case Datagram(n, stamp) => DatagramKeepsInvariant(p, c, start, base, n, stamp);
    case Play(now, tolerance) => PlayKeepsInvariant(p, c, start, base, now, tolerance);
  }

  /** The packets played have strictly increasing numbers and each is, byte for byte, the packet sent
      under its number. */
  ghost predicate Heard(t: RingTheory.Track, sent: seq<Net.Payload>) {
    && |t.bytes| == |t.delivered|
    && (forall i :: 0 <= i < |t.bytes| ==>
          0 <= t.delivered[i] < |sent| && t.bytes[i] == sent[t.delivered[i]])
    && (forall i, j :: 0 <= i < j < |t.delivered| ==> t.delivered[i] < t.delivered[j])
  }

  /** End to end, over every run of datagrams and pulls, across the 16-bit wrap: what is heard is what
      was sent. */
  lemma {:induction false} HeardIsSent(p: Path, c: NetTheory.Setting, start: nat, base: nat, events: seq<Event>)
    requires NetTheory.ValidSetting(c) && Invariant(p, c, start, base) && Run(p, c, events)
    ensures Invariant(After(p, c, events), c, start, base)
    ensures Heard(After(p, c, events).ring, c.sent)
    decreases |events|
  {
    if |events| > 0 {
      hide Invariant, Enabled, Next, Heard;
      StepKeepsInvariant(p, c, start, base, events[0]);
      HeardIsSent(Next(p, c, events[0]), c, start, base, events[1..]);
    }
  }

  /** What the redundancy recovers and what can be heard of it, over every run: a packet is written to
      the audio side exactly when an accepted datagram carried it, but the ring holds it, and it can be
      played, only when its own datagram was accepted.  A revived packet is written and never played. */
  lemma {:induction false} RevivedIsNeverPlayed(p: Path, c: NetTheory.Setting, start: nat, base: nat,
                                                events: seq<Event>, j: nat)
    requires NetTheory.ValidSetting(c) && Invariant(p, c, start, base) && Run(p, c, events)
    requires start < j <= After(p, c, events).net.last
    ensures var r := After(p, c, events);
            && (j in r.net.indices <==> NetTheory.CarriedByAccepted(r.net.accepted, j, c.factor))
            && (j in r.ring.log <==> j in r.net.accepted)
            && (j in r.ring.delivered ==> j in r.net.accepted)
  {
    hide RingTheory.Invariant, RingTheory.Faithful;
    HeardIsSent(p, c, start, base, events);
  }

  // ---------------------------------------------------------------------------------------
  // From the start

  /** The first datagram after (re)initialisation, whatever the stale last number, fed to a ring that
      nothing was pushed to. */
  ghost function Start(c: NetTheory.Setting, rx: Net.Receiver, slots: seq<Ring.Packet>, n: nat, stamp: real): Path
    requires NetTheory.ValidSetting(c) && n < |c.sent| && |slots| == Ring.NUM_SLOTS
  {
    var r := Net.Receive(rx, NetTheory.DatagramOf(c, n), c.layout);
    Path(NetTheory.Track(r, n, [], [], 0, 0, 0),
         FeedTrack(RingTheory.Fresh(slots), n, Added(rx.written, r.written), stamp))
  }

  /** Runs start in the invariant. */
  lemma {:induction false} StartIsInvariant(c: NetTheory.Setting, rx: Net.Receiver, slots: seq<Ring.Packet>,
                                            n: nat, stamp: real)
    requires NetTheory.ValidSetting(c) && n < |c.sent| && |slots| == Ring.NUM_SLOTS && rx.initialState
    ensures var p := Start(c, rx, slots, n, stamp);
            && Invariant(p, c, n, |p.net.rx.written|)
            && p.ring.log == map[n := (c.sent[n], stamp)] && p.ring.newest == n
  {
    hide Net.Receive, Net.Scan;
    var d := NetTheory.DatagramOf(c, n);
    NetTheory.NothingTruncated(c.layout, c.factor);
    NetTheory.FirstWrites(rx, d, c.layout);
    var w := Net.WritesFrom(d, Net.Scan(d, rx.last, 1), 0 - Net.Scan(d, rx.last, 1), d[0].seqNum);
    assert Added(rx.written, Net.Receive(rx, d, c.layout).written) == w;
    FeedKeepsInvariant(RingTheory.Fresh(slots), n, w, stamp);
  }

  /** Events that keep the pace with a fixed tolerance and at most `lag` numbers outstanding at a pull. */
  ghost predicate PacedEvent(p: Path, c: NetTheory.Setting, e: Event, tolerance: real, lag: nat) {
    match e
    case Datagram(n, stamp) =>
      && DatagramFits(p, c, n)
      && (NetTheory.Accepts(p.net.last, n) ==> RingTheory.KeepsPace(p.ring, n, stamp, tolerance, lag))
    case Play(now, t) => t == tolerance && RingTheory.InPace(p.ring, now, tolerance, lag)
  }

  ghost predicate PacedRun(p: Path, c: NetTheory.Setting, events: seq<Event>, tolerance: real, lag: nat)
    requires NetTheory.ValidSetting(c) && Ring.WellFormed(p.ring.ring)
    decreases |events|
  {
    |events| > 0 ==>
      && PacedEvent(p, c, events[0], tolerance, lag)
      && Ring.WellFormed(Next(p, c, events[0]).ring.ring)
      && PacedRun(Next(p, c, events[0]), c, events[1..], tolerance, lag)
  }

  lemma {:induction false} PacedStep(p: Path, c: NetTheory.Setting, start: nat, base: nat, e: Event,
                                     tolerance: real, lag: nat)
    requires NetTheory.ValidSetting(c) && Invariant(p, c, start, base) && lag < Ring.NUM_SLOTS && tolerance >= 0.0
    requires RingTheory.Paced(p.ring, tolerance, lag) && PacedEvent(p, c, e, tolerance, lag)
    ensures Enabled(p, c, e) && RingTheory.Paced(Next(p, c, e).ring, tolerance, lag)
  {
    hide NetTheory.RunInvariant, RingTheory.Invariant, LogIsAccepted, LogIsSent, RingTheory.Paced, Next;
    match e
    case Datagram(n, stamp) => PacedDatagram(p, c, start, base, n, stamp, tolerance, lag);
    case Play(now, t) => PacedPlay(p, c, start, base, now, tolerance, lag);
  }

  lemma {:induction false} PacedPlay(p: Path, c: NetTheory.Setting, start: nat, base: nat, now: real,
                                     tolerance: real, lag: nat)
    requires NetTheory.ValidSetting(c) && Invariant(p, c, start, base) && lag < Ring.NUM_SLOTS && tolerance >= 0.0
    requires RingTheory.Paced(p.ring, tolerance, lag) && RingTheory.InPace(p.ring, now, tolerance, lag)
    ensures Enabled(p, c, Play(now, tolerance))
    ensures RingTheory.Paced(Next(p, c, Play(now, tolerance)).ring, tolerance, lag)
  {
    hide NetTheory.RunInvariant, RingTheory.Invariant, LogIsAccepted, LogIsSent, RingTheory.AfterPlay;
    RingTheory.InvariantParts(p.ring);
    RingTheory.PlayKeepsPushed(p.ring, now, tolerance);
    if p.ring.newest != -1 && now >= tolerance {
      RingTheory.PacedHolesAreHarmless(p.ring, now, tolerance, lag);
    }
  }

  lemma {:induction false} PacedDatagram(p: Path, c: NetTheory.Setting, start: nat, base: nat, n: nat, stamp: real,
                                         tolerance: real, lag: nat)
    requires NetTheory.ValidSetting(c) && Invariant(p, c, start, base) && DatagramFits(p, c, n)
    requires RingTheory.Paced(p.ring, tolerance, lag) && lag < Ring.NUM_SLOTS
    requires NetTheory.Accepts(p.net.last, n) ==> RingTheory.KeepsPace(p.ring, n, stamp, tolerance, lag)
    ensures RingTheory.Paced(Next(p, c, Datagram(n, stamp)).ring, tolerance, lag)
  {
    hide NetTheory.Arrive, Net.Receive, NetTheory.RunInvariant, RingTheory.Invariant, RingTheory.Paced, LogIsAccepted;
    NetInvariantParts(p, c, start, base);
    var w := NewWritesAre(p, c, n);
    if NetTheory.Accepts(p.net.last, n) {
      FeedKeepsInvariant(p.ring, n, w, stamp);
      RingTheory.InvariantParts(p.ring);
      RingTheory.PaceIsKept(p.ring, FeedTrack(p.ring, n, w, stamp), n, c.sent[n], stamp, tolerance, lag);
    }
  }

  lemma {:induction false} PacedRunIsRun(p: Path, c: NetTheory.Setting, start: nat, base: nat, events: seq<Event>,
                                         tolerance: real, lag: nat)
    requires NetTheory.ValidSetting(c) && Invariant(p, c, start, base) && lag < Ring.NUM_SLOTS && tolerance >= 0.0
    requires RingTheory.Paced(p.ring, tolerance, lag) && PacedRun(p, c, events, tolerance, lag)
    ensures Run(p, c, events)
    decreases |events|
  {
    if |events| > 0 {
      hide Invariant, Enabled, Next, RingTheory.Paced, PacedEvent;
      PacedStep(p, c, start, base, events[0], tolerance, lag);
      StepKeepsInvariant(p, c, start, base, events[0]);
      PacedRunIsRun(Next(p, c, events[0]), c, start, base, events[1..], tolerance, lag);
    }
  }

  /** From the first datagram on, nothing assumed of the state: every run whose arrivals keep the pace is
      heard as it was sent, in order, and revived packets are never played. */
  lemma {:induction false} PacedRunIsHeard(c: NetTheory.Setting, rx: Net.Receiver, slots: seq<Ring.Packet>,
                                           n: nat, stamp: real, events: seq<Event>, tolerance: real, lag: nat)
    requires NetTheory.ValidSetting(c) && n < |c.sent| && |slots| == Ring.NUM_SLOTS && rx.initialState
    requires lag < Ring.NUM_SLOTS && tolerance >= 0.0
    requires var p := Start(c, rx, slots, n, stamp);
             Ring.WellFormed(p.ring.ring) && PacedRun(p, c, events, tolerance, lag)
    ensures var p := Start(c, rx, slots, n, stamp);
            && Run(p, c, events)
            && Heard(After(p, c, events).ring, c.sent)
            && Invariant(After(p, c, events), c, n, |p.net.rx.written|)
  {
    hide Net.Receive, Next, PacedEvent, Enabled, Heard;
    var p := Start(c, rx, slots, n, stamp);
    StartIsInvariant(c, rx, slots, n, stamp);
    PacedRunIsRun(p, c, n, |p.net.rx.written|, events, tolerance, lag);
    HeardIsSent(p, c, n, |p.net.rx.written|, events);
  }
}
