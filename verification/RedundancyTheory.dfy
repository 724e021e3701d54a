/** The redundancy protocol over a channel that drops, duplicates and reorders datagrams: which
    packets reach the audio side, in which order, and what the reported gap accounts for. */
module RedundancyTheory {
  import opened Numbers
  import opened Redundancy

  /** What stays fixed during a run: the packets sent, the redundancy factor of both ends, the byte
      layout of a datagram, and the blank packet of a window not yet full. */
  datatype Setting = Setting(sent: seq<Payload>, factor: nat, layout: Layout, blank: Packet)

  /** A whole datagram of `factor` packets, within the size of a UDP datagram. */
  ghost predicate FullLayout(layout: Layout, factor: nat) {
    && layout.packetSize > 0 && layout.header < layout.stride == layout.packetSize
    && layout.datagramSize == factor * layout.packetSize <= 0x10000 && factor >= 1
  }

  ghost predicate ValidSetting(c: Setting) {
    FullLayout(c.layout, c.factor) && 0 <= c.blank.seqNum < SEQ_MODULUS
  }

  ghost function DatagramOf(c: Setting, n: nat): seq<Packet>
    requires n < |c.sent|
  {
    Datagram(c.sent, n, c.factor, c.blank)
  }

  /** The size guards never bind, and a window is shorter than the number space. */
  lemma {:induction false} NothingTruncated(layout: Layout, factor: nat)
    requires FullLayout(layout, factor)
    ensures layout.stride <= layout.datagramSize && factor <= SEQ_MODULUS
    ensures (layout.datagramSize - layout.stride) / layout.packetSize == factor - 1
  {
    var p, k := layout.packetSize, factor - 1;
    NextProduct(k, p);
    NonNegativeProduct(k, p);
    DivideMultiple(k, p);
    NonNegativeProduct(p - 1, factor);
    DifferenceProduct(p, 1, factor);
    assert p * factor == factor * p;
  }

  // ---------------------------------------------------------------------------------------
  // The serial-number filter

  /** The unbounded number n is far enough from wrapping onto the last accepted one. */
  predicate InHorizon(last: nat, n: nat) {
    last - 64534 <= n <= last + SEQ_MODULUS
  }

  predicate Accepts(last: nat, n: nat) {
    1 <= n - last <= 1001
  }

  /** Within the horizon the 16-bit filter accepts exactly the advances of 1 to 1001, and then
      computes the true number of datagrams missed. */
  lemma FilterIsSerial(last: nat, n: nat)
    requires last - 64534 <= n <= last + 65536
    ensures var lost := LostBetween(last % SEQ_MODULUS, n % SEQ_MODULUS);
            && (0 <= lost <= 1000 <==> 1 <= n - last <= 1001)
            && (0 <= lost <= 1000 ==> lost == n - last - 1)
  {
    var a, b := last % SEQ_MODULUS, n % SEQ_MODULUS;
    assert (b - a - 1) % SEQ_MODULUS == (n - last - 1) % SEQ_MODULUS by {
      assert n - last - 1 == (b - a - 1) + SEQ_MODULUS * (n / SEQ_MODULUS - last / SEQ_MODULUS);
    }
    if n >= last + 1 {
      assert (n - last - 1) % SEQ_MODULUS == n - last - 1;
    } else {
      assert (n - last - 1) % SEQ_MODULUS == n - last - 1 + SEQ_MODULUS;
    }
  }

  /** The horizon is as wide as it can be: the next number either way passes the filter although it is
      older than, or far beyond, what the filter should accept. */
  lemma HorizonIsExact(last: nat, n: nat)
    requires n == last - 64535 || n == last + 65537
    ensures 0 <= LostBetween(last % SEQ_MODULUS, n % SEQ_MODULUS) <= 1000 && !Accepts(last, n)
    ensures !InHorizon(last, n)
  {
    var a, b := last % SEQ_MODULUS, n % SEQ_MODULUS;
    assert (b - a - 1) % SEQ_MODULUS == (n - last - 1) % SEQ_MODULUS by {
      assert n - last - 1 == (b - a - 1) + SEQ_MODULUS * (n / SEQ_MODULUS - last / SEQ_MODULUS);
    }
  }

  /** What the search is after: the position of packet last + 1, or the oldest packet aboard. */
  function WantedIndex(last: nat, n: nat, factor: nat): int {
    MinInt(n - last - 1, factor - 1)
  }

  /** Where the search stops: at the wrap it always walks to the oldest packet aboard. */
  function WalkIndex(last: nat, n: nat, factor: nat): int {
    if last % SEQ_MODULUS == 65535 then factor - 1 else WantedIndex(last, n, factor)
  }

  /** The search does not reach back beyond the packet it is after. */
  predicate Fits(last: nat, n: nat, factor: nat) {
    last % SEQ_MODULUS != 65535 || n - last >= factor
  }

  lemma {:induction false} ScanIsWalk(c: Setting, last: nat, n: nat)
    requires ValidSetting(c) && last < n < |c.sent| && n - last <= 1001
    ensures Scan(DatagramOf(c, n), last % SEQ_MODULUS, 1) == WalkIndex(last, n, c.factor)
  {
    if last % SEQ_MODULUS == 65535 {
      ScanAtWrap(c, last, n, 1);
    } else {
      ScanFrom(c, last, n, 1);
    }
  }

  /** The walk through datagram n stops at the wanted packet exactly when the last number is not
      65535 or the datagram does not reach back to it: at the wrap the walk overshoots, and packets
      already written are written again. */
  lemma {:induction false} ScanFindsWanted(c: Setting, last: nat, n: nat)
    requires ValidSetting(c) && last < n < |c.sent| && n - last <= 1001
    ensures Scan(DatagramOf(c, n), last % SEQ_MODULUS, 1) == WantedIndex(last, n, c.factor)
      <==> Fits(last, n, c.factor)
  {
    ScanIsWalk(c, last, n);
  }

  lemma {:induction false} ScanFrom(c: Setting, last: nat, n: nat, i: nat)
    requires ValidSetting(c) && last < n < |c.sent| && n - last <= 1001
    requires last % SEQ_MODULUS != 65535 && 1 <= i <= c.factor && i <= n - last
    ensures Scan(DatagramOf(c, n), last % SEQ_MODULUS, i) == WantedIndex(last, n, c.factor)
    decreases c.factor - i
  {
    SameResidue(n - (i - 1), last + 1);
    if i < c.factor && i < n - last {
      ScanFrom(c, last, n, i + 1);
    }
  }

  /** Residues of numbers less than a modulus apart agree only when the numbers do. */
  lemma SameResidue(a: nat, b: nat)
    requires 0 <= a - b < SEQ_MODULUS
    ensures a % SEQ_MODULUS == b % SEQ_MODULUS <==> a == b
    ensures b % SEQ_MODULUS != 0 ==> b % SEQ_MODULUS == (b - 1) % SEQ_MODULUS + 1
    ensures b >= 1 && (b - 1) % SEQ_MODULUS != 65535 ==> b % SEQ_MODULUS != 0
  {
  }

  lemma {:induction false} ScanAtWrap(c: Setting, last: nat, n: nat, i: nat)
    requires ValidSetting(c) && last < n < |c.sent|
    requires last % SEQ_MODULUS == 65535 && 1 <= i <= c.factor
    ensures Scan(DatagramOf(c, n), last % SEQ_MODULUS, i) == c.factor - 1
    decreases c.factor - i
  {
    if i < c.factor {
      ScanAtWrap(c, last, n, i + 1);
    }
  }

  // ---------------------------------------------------------------------------------------
  // One datagram

  /** A receiver beside the unbounded numbers it stands for. */
  datatype Track = Track(
    rx: Receiver,
    last: nat,               // the last accepted datagram
    accepted: seq<nat>,      // every datagram accepted in this run
    indices: seq<nat>,       // the packets written in this run
    gaps: int,               // the sum of the gaps reported in this run
    lost: int,               // the sum of the positive ones, which are all that the audio side sees
    rejected: nat)           // the arrivals since the last accepted one

  /** Consecutive numbers from lo to hi - 1. */
  ghost function Range(lo: nat, hi: nat): (r: seq<nat>)
    requires lo <= hi
    ensures |r| == hi - lo
    ensures forall i :: 0 <= i < |r| ==> r[i] == lo + i
  {
    seq(hi - lo, i requires 0 <= i < hi - lo => lo + i)
  }

  ghost predicate Synced(t: Track) {
    !t.rx.initialState && t.rx.last == t.last % SEQ_MODULUS && t.rx.outOfOrderRun == t.rejected
  }

  /** Datagram n is inside the horizon and does not make the filter give up. */
  ghost predicate Receivable(t: Track, n: nat) {
    InHorizon(t.last, n) && (!Accepts(t.last, n) ==> t.rejected < 5)
  }

  ghost function GapOf(last: nat, n: nat, factor: nat): int {
    n - last - 1 - WalkIndex(last, n, factor)
  }

  ghost function Arrive(t: Track, c: Setting, n: nat): Track
    requires n < |c.sent| && ValidSetting(c)
  {
    var rx := Receive(t.rx, DatagramOf(c, n), c.layout);
    if Accepts(t.last, n) then
      var gap := GapOf(t.last, n, c.factor);
      Track(rx, n, t.accepted + [n],
            t.indices + Range(MaxInt(0, n - WalkIndex(t.last, n, c.factor)), n + 1),
            t.gaps + gap, t.lost + MaxInt(0, gap), 0)
    else t.(rx := rx, rejected := t.rejected + 1)
  }

  /** The writes of an accepted datagram. */
  ghost function WritesOf(c: Setting, last: nat, n: nat): seq<Write>
    requires n < |c.sent| && 0 <= WalkIndex(last, n, c.factor) <= n
  {
    var index := WalkIndex(last, n, c.factor);
    seq(index + 1, j requires 0 <= j <= index =>
      Write(c.sent[n - index + j], if j == 0 then GapOf(last, n, c.factor) else 0, n % SEQ_MODULUS))
  }

  lemma {:induction false} WalkStaysAboard(c: Setting, last: nat, n: nat)
    requires ValidSetting(c) && Accepts(last, n)
    ensures 0 <= WalkIndex(last, n, c.factor) < c.factor && WalkIndex(last, n, c.factor) <= n
    ensures n - WalkIndex(last, n, c.factor) > last <==> Fits(last, n, c.factor)
  {
    NothingTruncated(c.layout, c.factor);
  }

  /** One accepted datagram writes the packets from where the search stops up to its own, in order,
      under the newest number; writes plus reported gap equal the advance, at the wrap too, and the
      gap comes with the first write.  A rejected datagram writes nothing. */
  lemma {:induction false} ArriveWrites(t: Track, c: Setting, n: nat)
    requires Synced(t) && n < |c.sent| && ValidSetting(c) && Receivable(t, n)
    ensures Synced(Arrive(t, c, n))
    ensures !Accepts(t.last, n) ==> Arrive(t, c, n).rx.written == t.rx.written
    ensures Accepts(t.last, n) ==>
      && 0 <= WalkIndex(t.last, n, c.factor) <= n
      && Arrive(t, c, n).rx.written == t.rx.written + WritesOf(c, t.last, n)
      && |WritesOf(c, t.last, n)| + GapOf(t.last, n, c.factor) == n - t.last
    ensures Accepts(t.last, n) ==>
      var before, written := |t.rx.written|, Arrive(t, c, n).rx.written;
      var count := |written| - before;
      && 1 <= count <= n + 1
      && forall k :: before <= k < |written| ==>
           written[k] == Write(c.sent[n + 1 - |written| + k], if k == before then n - t.last - count else 0,
                               n % SEQ_MODULUS)
  {
    FilterIsSerial(t.last, n);
    NothingTruncated(c.layout, c.factor);
    if Accepts(t.last, n) {
      ScanIsWalk(c, t.last, n);
      WalkStaysAboard(c, t.last, n);
      WritesAreSent(c, t.last, n);
    }
  }

  lemma {:induction false} WritesAreSent(c: Setting, last: nat, n: nat)
    requires n < |c.sent| && 0 <= WalkIndex(last, n, c.factor) <= n && WalkIndex(last, n, c.factor) < c.factor
    ensures WritesFrom(DatagramOf(c, n), WalkIndex(last, n, c.factor), GapOf(last, n, c.factor), n % SEQ_MODULUS)
         == WritesOf(c, last, n)
  {
    var index, d := WalkIndex(last, n, c.factor), DatagramOf(c, n);
    var w, v := WritesFrom(d, index, GapOf(last, n, c.factor), n % SEQ_MODULUS), WritesOf(c, last, n);
    forall j | 0 <= j <= index ensures w[j] == v[j] {
      assert d[index - j] == Packet((n - (index - j)) % SEQ_MODULUS, c.sent[n - (index - j)]);
    }
  }

  // ---------------------------------------------------------------------------------------
  // Which packets are carried, and what is lost for good

  /** Packet j was on board datagram n. */
  ghost predicate Carries(n: nat, j: nat, factor: nat) {
    j <= n < j + factor
  }

  ghost predicate CarriedByAccepted(accepted: seq<nat>, j: nat, factor: nat) {
    exists k :: 0 <= k < |accepted| && Carries(accepted[k], j, factor)
  }

  ghost predicate Increasing(s: seq<nat>, lo: nat, hi: nat) {
    && (forall a, b :: 0 <= a < b < |s| ==> s[a] < s[b])
    && (forall a :: 0 <= a < |s| ==> lo < s[a] <= hi)
  }

  /** How far accepted number k is beyond the one before it, or beyond the start. */
  ghost function Advance(accepted: seq<nat>, start: nat, k: nat): int
    requires k < |accepted|
  {
    accepted[k] - if k == 0 then start else accepted[k - 1]
  }

  /** At most factor - 1 consecutive datagrams are missed before each accepted one. */
  ghost predicate SmallAdvances(accepted: seq<nat>, start: nat, factor: nat) {
    forall k :: 0 <= k < |accepted| ==> Advance(accepted, start, k) <= factor
  }

  /** The packets that no accepted datagram can bring back. */
  ghost function Excess(accepted: seq<nat>, start: nat, factor: nat): int {
    if |accepted| == 0 then 0
    else
      var k := |accepted| - 1;
      Excess(accepted[..k], start, factor) + MaxInt(0, Advance(accepted, start, k) - factor)
  }

  lemma {:induction false} ExcessIsZero(accepted: seq<nat>, start: nat, factor: nat)
    ensures Excess(accepted, start, factor) >= 0
    ensures Excess(accepted, start, factor) == 0 <==> SmallAdvances(accepted, start, factor)
  {
    if |accepted| > 0 {
      var k := |accepted| - 1;
      var init := accepted[..k];
      ExcessIsZero(init, start, factor);
      forall i | 0 <= i < k ensures Advance(init, start, i) == Advance(accepted, start, i) {
      }
    }
  }

  /** Every packet up to the last accepted number was carried exactly when fewer than `factor`
      consecutive datagrams were missed each time. */
  lemma {:induction false} CarriedWhenAdvancesAreSmall(accepted: seq<nat>, start: nat, last: nat, factor: nat)
    requires Increasing(accepted, start, last) && factor >= 1
    requires if accepted == [] then last == start else accepted[|accepted| - 1] == last
    ensures SmallAdvances(accepted, start, factor)
      <==> forall j: nat :: start < j <= last ==> CarriedByAccepted(accepted, j, factor)
  {
    if SmallAdvances(accepted, start, factor) {
      forall j: nat | start < j <= last ensures CarriedByAccepted(accepted, j, factor) {
        var k := FirstFrom(accepted, j);
        assert Advance(accepted, start, k) <= factor;
        assert Carries(accepted[k], j, factor);
      }
    } else {
      var k :| 0 <= k < |accepted| && Advance(accepted, start, k) > factor;
      var j: nat := accepted[k] - Advance(accepted, start, k) + 1;
      forall i | 0 <= i < |accepted| ensures !Carries(accepted[i], j, factor) {
        if k <= i {
          assert accepted[k] <= accepted[i];
        } else {
          assert accepted[i] <= accepted[k - 1];
        }
      }
      assert !CarriedByAccepted(accepted, j, factor);
    }
  }

  /** The first accepted number not below j. */
  lemma {:induction false} FirstFrom(accepted: seq<nat>, j: nat) returns (k: nat)
    requires |accepted| > 0 && j <= accepted[|accepted| - 1]
    ensures k < |accepted| && j <= accepted[k] && (k > 0 ==> accepted[k - 1] < j)
  {
    k := |accepted| - 1;
    while k > 0 && j <= accepted[k - 1]
      invariant k < |accepted| && j <= accepted[k]
    {
      k := k - 1;
    }
  }

  // ---------------------------------------------------------------------------------------
  // What every run keeps

  /** Kept by every run from `start`, across the 16-bit wrap; `base` writes came before it. */
  ghost predicate RunInvariant(t: Track, c: Setting, start: nat, base: nat) {
    && Synced(t) && start <= t.last
    && Increasing(t.accepted, start, t.last)
    && (if t.accepted == [] then t.last == start else t.accepted[|t.accepted| - 1] == t.last)
    // writes plus reported gaps equal the advance
    && |t.indices| + t.gaps == t.last - start
    // what the audio side is told to pad is what no accepted datagram carried
    && t.lost == Excess(t.accepted, start, c.factor)
    // the payload stream
    && |t.rx.written| == base + |t.indices|
    && PayloadsAre(t.rx.written, base, t.indices, c.sent)
    // exactly the packets aboard some accepted datagram are written
    && (forall a :: 0 <= a < |t.indices| ==> t.indices[a] <= t.last)
    && (forall j: nat :: start < j <= t.last ==>
          (j in t.indices <==> CarriedByAccepted(t.accepted, j, c.factor)))
  }

  ghost predicate PayloadsAre(written: seq<Write>, base: nat, indices: seq<nat>, sent: seq<Payload>) {
    && |written| == base + |indices|
    && forall a :: 0 <= a < |indices| ==> indices[a] < |sent| && written[base + a].payload == sent[indices[a]]
  }

  /** The packets are written in strictly increasing order, none twice, none from before the start. */
  ghost predicate InOrder(t: Track, start: nat) {
    Increasing(t.indices, start, t.last)
  }

  lemma {:induction false} ArriveKeepsInvariant(t: Track, c: Setting, start: nat, base: nat, n: nat)
    requires RunInvariant(t, c, start, base) && n < |c.sent| && ValidSetting(c) && Receivable(t, n)
    ensures RunInvariant(Arrive(t, c, n), c, start, base)
  {
    hide Receive, Scan, Datagram, Excess, WalkIndex;
    ArriveWrites(t, c, n);
    if Accepts(t.last, n) {
      var r := Arrive(t, c, n);
      var index := WalkIndex(t.last, n, c.factor);
      var added := Range(n - index, n + 1);
      WalkReachesCarried(c, t.last, n);
      AppendedPayloads(t.rx.written, WritesOf(c, t.last, n), base, t.indices, added, c.sent);
      AppendedExcess(t.accepted, n, start, t.last, c.factor);
      forall j: nat | start < j <= n
        ensures j in r.indices <==> CarriedByAccepted(r.accepted, j, c.factor)
      {
        WrittenIffCarried(t, c, start, base, n, j, index, added);
      }
    }
  }

  /** The walk passes every new packet that the datagram carries, and no packet it does not carry. */
  lemma {:induction false} WalkReachesCarried(c: Setting, last: nat, n: nat)
    requires ValidSetting(c) && Accepts(last, n)
    ensures var index := WalkIndex(last, n, c.factor);
            && 0 <= index < c.factor && index <= n
            && (forall j: nat :: last < j <= n && Carries(n, j, c.factor) ==> n - index <= j)
            && MaxInt(0, GapOf(last, n, c.factor)) == MaxInt(0, n - last - c.factor)
  {
    WalkStaysAboard(c, last, n);
  }

  lemma {:induction false} AppendedExcess(accepted: seq<nat>, n: nat, start: nat, last: nat, factor: nat)
    requires if accepted == [] then last == start else accepted[|accepted| - 1] == last
    ensures Excess(accepted + [n], start, factor) == Excess(accepted, start, factor) + MaxInt(0, n - last - factor)
  {
    var all := accepted + [n];
    assert all[..|accepted|] == accepted;
  }

  lemma {:induction false} AppendedPayloads(written: seq<Write>, w: seq<Write>, base: nat, indices: seq<nat>,
                                            added: seq<nat>, sent: seq<Payload>)
    requires PayloadsAre(written, base, indices, sent) && PayloadsAre(w, 0, added, sent)
    ensures PayloadsAre(written + w, base, indices + added, sent)
  {
    var all, now := indices + added, written + w;
    forall a | 0 <= a < |all| ensures all[a] < |sent| && now[base + a].payload == sent[all[a]] {
      if a < |indices| {
        assert now[base + a] == written[base + a];
      } else {
        assert now[base + a] == w[0 + (a - |indices|)];
      }
    }
  }

  lemma {:induction false} WrittenIffCarried(t: Track, c: Setting, start: nat, base: nat, n: nat, j: nat,
                                             index: nat, added: seq<nat>)
    requires RunInvariant(t, c, start, base)
    requires t.last < n && start < j <= n && index <= n && added == Range(n - index, n + 1)
    requires index < c.factor
    requires j > t.last && Carries(n, j, c.factor) ==> n - index <= j
    ensures j in t.indices + added <==> CarriedByAccepted(t.accepted + [n], j, c.factor)
  {
    var all := t.accepted + [n];
    assert j in added <==> n - index <= j <= n by {
      if n - index <= j <= n {
        assert added[j - (n - index)] == j;
      }
    }
    if CarriedByAccepted(t.accepted, j, c.factor) {
      var k :| 0 <= k < |t.accepted| && Carries(t.accepted[k], j, c.factor);
      assert all[k] == t.accepted[k];
    }
    if Carries(n, j, c.factor) {
      assert all[|t.accepted|] == n;
    }
    if CarriedByAccepted(all, j, c.factor) {
      var k :| 0 <= k < |all| && Carries(all[k], j, c.factor);
      if k < |t.accepted| {
        assert Carries(t.accepted[k], j, c.factor);
      } else if j <= t.last {
        // the newest datagram accepted before n carries j as well
        assert Carries(t.accepted[|t.accepted| - 1], j, c.factor);
      }
    }
  }

  /** Order survives a datagram exactly when the search does not reach back beyond what it is after. */
  lemma {:induction false} ArriveKeepsOrder(t: Track, c: Setting, start: nat, base: nat, n: nat)
    requires RunInvariant(t, c, start, base) && n < |c.sent| && ValidSetting(c) && Receivable(t, n)
    requires InOrder(t, start)
    ensures InOrder(Arrive(t, c, n), start) <==> !Accepts(t.last, n) || Fits(t.last, n, c.factor)
  {
    hide Receive, Scan, Datagram, Excess, WalkIndex;
    if Accepts(t.last, n) {
      WalkStaysAboard(c, t.last, n);
      var lo := n - WalkIndex(t.last, n, c.factor);
      if t.accepted != [] {
        assert Carries(t.accepted[|t.accepted| - 1], t.last, c.factor);
      }
      IncreasingJoins(t.indices, lo, n, start, t.last);
    }
  }

  /** A range can follow an increasing sequence that reaches its bound exactly when it starts above. */
  lemma {:induction false} IncreasingJoins(s: seq<nat>, lo: nat, n: nat, start: nat, last: nat)
    requires Increasing(s, start, last) && (last in s || last == start) && last <= n && lo <= n
    ensures Increasing(s + Range(lo, n + 1), start, n) <==> last < lo
  {
    var all := s + Range(lo, n + 1);
    assert all[|s|] == lo;
    if lo <= last && last in s {
      var p :| 0 <= p < |s| && s[p] == last;
      assert all[p] == last;
    }
  }

  // ---------------------------------------------------------------------------------------
  // Whole runs

  /** Any list of sent datagrams, in any order and with any repeats, inside the horizon and between
      two re-initialisations. */
  ghost predicate ReceivableRun(t: Track, c: Setting, arrivals: seq<nat>)
    requires ValidSetting(c)
    decreases |arrivals|
  {
    |arrivals| > 0 ==>
      && arrivals[0] < |c.sent| && Receivable(t, arrivals[0])
      && ReceivableRun(Arrive(t, c, arrivals[0]), c, arrivals[1..])
  }

  ghost function After(t: Track, c: Setting, arrivals: seq<nat>): Track
    requires ValidSetting(c) && ReceivableRun(t, c, arrivals)
    decreases |arrivals|
  {
    if |arrivals| == 0 then t else After(Arrive(t, c, arrivals[0]), c, arrivals[1..])
  }

  /** No accepted datagram of the run meets the unmatched wrap while reaching back beyond it. */
  ghost predicate FitsThroughout(t: Track, c: Setting, arrivals: seq<nat>)
    requires ValidSetting(c) && ReceivableRun(t, c, arrivals)
    decreases |arrivals|
  {
    |arrivals| > 0 ==>
      && (Accepts(t.last, arrivals[0]) ==> Fits(t.last, arrivals[0], c.factor))
      && FitsThroughout(Arrive(t, c, arrivals[0]), c, arrivals[1..])
  }

  /** The redundancy theorem, across the 16-bit wrap: writes plus reported gaps equal the sequence
      advance, the gaps that count are what could not be recovered, every write is a packet that was
      sent, and a packet is written exactly when some accepted datagram carried it. */
  lemma {:induction false} EveryRunKeepsInvariant(t: Track, c: Setting, start: nat, base: nat, arrivals: seq<nat>)
    requires ValidSetting(c) && RunInvariant(t, c, start, base) && ReceivableRun(t, c, arrivals)
    ensures RunInvariant(After(t, c, arrivals), c, start, base)
    ensures t.indices <= After(t, c, arrivals).indices && t.last <= After(t, c, arrivals).last
    decreases |arrivals|
  {
    if |arrivals| > 0 {
      hide RunInvariant, Receivable, Receive;
      ArriveKeepsInvariant(t, c, start, base, arrivals[0]);
      EveryRunKeepsInvariant(Arrive(t, c, arrivals[0]), c, start, base, arrivals[1..]);
    }
  }

  /** A run writes in strictly increasing order, none twice, exactly when it never overshoots at the
      wrap; then the gaps that count are all the gaps. */
  lemma {:induction false} EveryRunIsInOrder(t: Track, c: Setting, start: nat, base: nat, arrivals: seq<nat>)
    requires ValidSetting(c) && RunInvariant(t, c, start, base) && ReceivableRun(t, c, arrivals)
    requires InOrder(t, start) && t.gaps == t.lost
    ensures InOrder(After(t, c, arrivals), start) <==> FitsThroughout(t, c, arrivals)
    ensures FitsThroughout(t, c, arrivals) ==> After(t, c, arrivals).gaps == After(t, c, arrivals).lost
    decreases |arrivals|
  {
    if |arrivals| > 0 {
      hide RunInvariant, Receivable, Receive, Fits;
      var n, r := arrivals[0], Arrive(t, c, arrivals[0]);
      ArriveKeepsInvariant(t, c, start, base, n);
      ArriveKeepsOrder(t, c, start, base, n);
      if Accepts(t.last, n) ==> Fits(t.last, n, c.factor) {
        FittingGap(t, c, n);
        EveryRunIsInOrder(r, c, start, base, arrivals[1..]);
      } else {
        DisorderStays(r, c, start, base, arrivals[1..]);
      }
    }
  }

  lemma FittingGap(t: Track, c: Setting, n: nat)
    requires ValidSetting(c) && n < |c.sent| && (Accepts(t.last, n) ==> Fits(t.last, n, c.factor))
    requires t.gaps == t.lost
    ensures Arrive(t, c, n).gaps == Arrive(t, c, n).lost
  {
    hide Receive, Datagram;
  }

  lemma {:induction false} DisorderStays(t: Track, c: Setting, start: nat, base: nat, arrivals: seq<nat>)
    requires ValidSetting(c) && RunInvariant(t, c, start, base) && ReceivableRun(t, c, arrivals)
    requires !InOrder(t, start)
    ensures !InOrder(After(t, c, arrivals), start)
  {
    EveryRunKeepsInvariant(t, c, start, base, arrivals);
    var r := After(t, c, arrivals);
    assert forall a :: 0 <= a < |t.indices| ==> r.indices[a] == t.indices[a];
    assert forall a :: 0 <= a < |t.indices| ==> t.indices[a] <= t.last;
  }

  lemma {:induction false} IncreasingBounds(s: seq<nat>, lo: nat, hi: nat, k: nat)
    requires Increasing(s, lo, hi) && k < |s|
    ensures s[k] >= lo + 1 + k
  {
    if k > 0 {
      IncreasingBounds(s, lo, hi, k - 1);
    }
  }

  /** An increasing sequence inside (lo, hi] with nothing absent is the whole range. */
  lemma {:induction false} IncreasingIsWhole(s: seq<nat>, lo: nat, hi: nat, k: nat)
    requires Increasing(s, lo, hi) && k <= hi - lo
    requires forall j: nat :: lo < j <= hi ==> j in s
    ensures k <= |s| && s[..k] == Range(lo + 1, lo + 1 + k)
  {
    if k > 0 {
      IncreasingIsWhole(s, lo, hi, k - 1);
      var j: nat := lo + k;
      assert j in s;
      var p :| 0 <= p < |s| && s[p] == j;
      assert forall i :: 0 <= i < k - 1 ==> s[i] == s[..k - 1][i] == lo + 1 + i;
      assert p >= k - 1;
      IncreasingBounds(s, lo, hi, k - 1);
    }
  }

  /** Loss is hidden completely exactly when every packet was carried by an accepted datagram, and
      exactly when fewer than `factor` consecutive datagrams were missed each time; if the run also
      kept the order, the payloads written are then exactly those sent. */
  lemma {:induction false} LossIsHiddenExactlyWhenCarried(t: Track, c: Setting, start: nat, base: nat)
    requires RunInvariant(t, c, start, base) && ValidSetting(c) && t.last < |c.sent|
    ensures t.lost >= 0
    ensures t.lost == 0 <==> SmallAdvances(t.accepted, start, c.factor)
    ensures t.lost == 0 <==> forall j: nat :: start < j <= t.last ==> CarriedByAccepted(t.accepted, j, c.factor)
    ensures t.lost == 0 && InOrder(t, start) ==>
      && |t.rx.written| == base + t.last - start
      && forall a :: base <= a < |t.rx.written| ==> t.rx.written[a].payload == c.sent[start + 1 + a - base]
  {
    ExcessIsZero(t.accepted, start, c.factor);
    CarriedWhenAdvancesAreSmall(t.accepted, start, t.last, c.factor);
    if t.lost == 0 && InOrder(t, start) {
      IncreasingIsWhole(t.indices, start, t.last, t.last - start);
      WholeHasNoMore(t.indices, start, t.last);
      forall a | base <= a < |t.rx.written|
        ensures t.rx.written[a].payload == c.sent[start + 1 + a - base]
      {
        assert t.indices[a - base] == Range(start + 1, t.last + 1)[a - base];
        assert t.rx.written[base + (a - base)].payload == c.sent[t.indices[a - base]];
      }
    }
  }

  lemma {:induction false} WholeHasNoMore(s: seq<nat>, lo: nat, hi: nat)
    requires Increasing(s, lo, hi) && lo <= hi
    ensures |s| <= hi - lo
  {
    if |s| > 0 {
      IncreasingBounds(s, lo, hi, |s| - 1);
    }
  }

  // ---------------------------------------------------------------------------------------
  // The edges: the first datagram, the wrap, giving up

  /** The first datagram after (re)initialisation reports a gap of 0 exactly when it carries one
      packet or its number happens to follow the stale last number; the flag that should zero the gap
      is cleared before the gap is computed.  Otherwise the gap is negative. */
  lemma {:induction false} FirstPacketGap(r: Receiver, d: seq<Packet>, layout: Layout)
    requires |d| >= 1 && FullLayout(layout, |d|) && r.initialState
    ensures var w := Receive(r, d, layout).written;
            && |r.written| < |w| && w[..|r.written|] == r.written
            && (w[|r.written|].gap == 0 <==> |d| == 1 || d[0].seqNum == r.last + 1)
            && forall a :: |r.written| <= a < |w| ==> w[a].gap <= 0
  {
    NothingTruncated(layout, |d|);
    ScanMovesUnlessNext(d, r.last);
    FirstWrites(r, d, layout);
  }

  lemma {:induction false} ScanMovesUnlessNext(d: seq<Packet>, last: int)
    requires |d| >= 1
    ensures Scan(d, last, 1) == 0 <==> |d| == 1 || d[0].seqNum == last + 1
  {
  }

  lemma {:induction false} FirstWrites(r: Receiver, d: seq<Packet>, layout: Layout)
    requires |d| >= 1 && r.initialState && layout.packetSize > 0
    requires layout.header < layout.stride <= layout.datagramSize
    requires (layout.datagramSize - layout.stride) / layout.packetSize == |d| - 1
    ensures var index := Scan(d, r.last, 1);
            var s := Receive(r, d, layout);
            && !s.initialState && s.last == d[0].seqNum && s.outOfOrderRun == 0
            && s.written == r.written + WritesFrom(d, index, 0 - index as int, d[0].seqNum)
  {
    hide Scan;
  }

  /** One such input: a fresh receiver whose first datagram carries packets 5 and 4 reports a gap of
      -1 although nothing has been lost. */
  lemma FirstPacketGapExample()
    ensures var r := Receiver(true, 0, 0, 0, 0, 0, 0, []);
            var d := [Packet(5, [1]), Packet(4, [0])];
            Receive(r, d, Layout(16, 20, 20, 40)).written == [Write([0], -1, 5), Write([1], 0, 5)]
  {
    var d := [Packet(5, [1]), Packet(4, [0])];
    assert Scan(d, 0, 1) == Scan(d, 0, 2) == 1;
  }

  /** At the wrap: whenever the last number is 65535 and the next accepted datagram reaches back to
      it, packets that were already written are written again, with a negative gap. */
  lemma WrapReplaysPackets(t: Track, c: Setting, n: nat)
    requires Synced(t) && n < |c.sent| && ValidSetting(c)
    requires t.last % SEQ_MODULUS == 65535 && Accepts(t.last, n) && n - t.last < c.factor
    ensures var w := Receive(t.rx, DatagramOf(c, n), c.layout).written;
            && c.factor <= n + 1 && n + 1 - c.factor <= t.last
            && |w| == |t.rx.written| + c.factor
            && w[|t.rx.written|] == Write(c.sent[n + 1 - c.factor], n - t.last - c.factor, n % SEQ_MODULUS)
  {
    ArriveWrites(t, c, n);
  }

  /** The filter gives up, and accepts whatever comes next, on exactly the sixth rejection in a row. */
  lemma GivesUpOnSixth(t: Track, n: nat, d: seq<Packet>, layout: Layout)
    requires Synced(t) && |d| >= 1 && d[0].seqNum == n % SEQ_MODULUS && layout.packetSize > 0 && InHorizon(t.last, n)
    ensures Receive(t.rx, d, layout).initialState <==> !Accepts(t.last, n) && t.rejected >= 5
    ensures Receive(t.rx, d, layout).initialState ==>
      Receive(t.rx, d, layout).totCount == 0 && Receive(t.rx, d, layout).written == t.rx.written
  {
    FilterIsSerial(t.last, n);
  }

  // The same in terms of the arrivals alone

  function Newest(last: nat, n: nat): nat {
    if Accepts(last, n) then n else last
  }

  /** Arrival i of a run that starts after number `last` is rejected. */
  predicate Rejects(last: nat, arrivals: seq<nat>, i: nat)
    requires i < |arrivals|
    decreases i
  {
    if i == 0 then !Accepts(last, arrivals[0]) else Rejects(Newest(last, arrivals[0]), arrivals[1..], i - 1)
  }

  /** Arrivals since the last accepted one, `count` of them before the run. */
  function RejectedRun(last: nat, count: nat, arrivals: seq<nat>): nat
    decreases |arrivals|
  {
    if |arrivals| == 0 then count
    else RejectedRun(Newest(last, arrivals[0]), if Accepts(last, arrivals[0]) then 0 else count + 1, arrivals[1..])
  }

  /** The last k arrivals, or all of a shorter run, were rejected. */
  ghost predicate LastRejected(last: nat, arrivals: seq<nat>, k: nat) {
    forall i :: 0 <= i < |arrivals| && |arrivals| - k <= i ==> Rejects(last, arrivals, i)
  }

  /** At least k arrivals since the last accepted one: the last k of the run were all rejected. */
  lemma {:induction false} RejectedRunMeans(last: nat, count: nat, arrivals: seq<nat>, k: nat)
    ensures RejectedRun(last, count, arrivals) >= k <==>
      LastRejected(last, arrivals, k) && count >= k - |arrivals|
    decreases |arrivals|
  {
    if |arrivals| > 0 {
      var n, rest := arrivals[0], arrivals[1..];
      var next := Newest(last, n);
      RejectedRunMeans(next, if Accepts(last, n) then 0 else count + 1, rest, k);
      assert LastRejected(last, arrivals, k) <==>
        LastRejected(next, rest, k) && (k >= |arrivals| ==> !Accepts(last, n)) by {
        RejectedTail(last, arrivals, k);
      }
    }
  }

  lemma {:induction false} RejectedTail(last: nat, arrivals: seq<nat>, k: nat)
    requires |arrivals| > 0
    ensures LastRejected(last, arrivals, k) <==>
      LastRejected(Newest(last, arrivals[0]), arrivals[1..], k) && (k >= |arrivals| ==> !Accepts(last, arrivals[0]))
  {
    var next, rest := Newest(last, arrivals[0]), arrivals[1..];
    forall i | 0 < i < |arrivals| ensures Rejects(last, arrivals, i) <==> Rejects(next, rest, i - 1) {
    }
    if LastRejected(last, arrivals, k) {
      forall j | 0 <= j < |rest| && |rest| - k <= j ensures Rejects(next, rest, j) {
        assert Rejects(last, arrivals, j + 1);
      }
      if k >= |arrivals| {
        assert Rejects(last, arrivals, 0);
      }
    }
  }

  lemma {:induction false} RunCountsRejected(t: Track, c: Setting, arrivals: seq<nat>)
    requires ValidSetting(c) && Synced(t) && ReceivableRun(t, c, arrivals)
    ensures var r := After(t, c, arrivals);
            Synced(r) && r.rejected == RejectedRun(t.last, t.rejected, arrivals)
    decreases |arrivals|
  {
    if |arrivals| > 0 {
      hide Receive, WalkIndex;
      ArriveWrites(t, c, arrivals[0]);
      RunCountsRejected(Arrive(t, c, arrivals[0]), c, arrivals[1..]);
    }
  }

  lemma {:induction false} OneMoreArrival(t: Track, c: Setting, arrivals: seq<nat>, n: nat)
    requires ValidSetting(c) && ReceivableRun(t, c, arrivals)
    ensures RejectedRun(t.last, t.rejected, arrivals + [n])
         == if Accepts(After(t, c, arrivals).last, n) then 0 else RejectedRun(t.last, t.rejected, arrivals) + 1
    decreases |arrivals|
  {
    hide Receive, WalkIndex, GapOf;
    if |arrivals| > 0 {
      OneMoreArrival(Arrive(t, c, arrivals[0]), c, arrivals[1..], n);
      assert (arrivals + [n])[1..] == arrivals[1..] + [n];
    } else {
      assert arrivals + [n] == [n];
    }
  }

  /** Over runs that begin with an accepted datagram behind them: the receiver re-initialises on
      exactly the arrival that makes the last six all rejected, in a row. */
  lemma {:induction false} GivesUpAfterSixInARow(t: Track, c: Setting, arrivals: seq<nat>, n: nat)
    requires ValidSetting(c) && Synced(t) && t.rejected == 0 && ReceivableRun(t, c, arrivals)
    requires n < |c.sent| && InHorizon(After(t, c, arrivals).last, n)
    ensures var r, all := After(t, c, arrivals), arrivals + [n];
            && r.rx.outOfOrderRun == RejectedRun(t.last, 0, arrivals) <= 5
            && (Receive(r.rx, DatagramOf(c, n), c.layout).initialState <==>
                  |all| >= 6 && LastRejected(t.last, all, 6))
  {
    hide Receive, ReceivableRun, After;
    var r, all := After(t, c, arrivals), arrivals + [n];
    RunCountsRejected(t, c, arrivals);
    OneMoreArrival(t, c, arrivals, n);
    RejectedRunMeans(t.last, 0, all, 6);
    GivesUpOnSixth(r, n, DatagramOf(c, n), c.layout);
    FewRejected(t, c, arrivals);
  }

  lemma {:induction false} FewRejected(t: Track, c: Setting, arrivals: seq<nat>)
    requires ValidSetting(c) && ReceivableRun(t, c, arrivals) && t.rejected <= 5
    ensures After(t, c, arrivals).rejected <= 5
    decreases |arrivals|
  {
    if |arrivals| > 0 {
      hide Receive, WalkIndex, GapOf;
      FewRejected(Arrive(t, c, arrivals[0]), c, arrivals[1..]);
    }
  }

  /** A datagram whose sizes do not fit is counted but writes nothing and does not move the last number;
      one that is shorter than the search writes only the packets that fit, and reports the rest. */
  lemma LayoutBounds(r: Receiver, d: seq<Packet>, layout: Layout)
    requires |d| >= 1 && layout.packetSize > 0
    requires r.initialState || 0 <= LostBetween(r.last, d[0].seqNum) <= 1000
    ensures var s, fit := Receive(r, d, layout), (layout.datagramSize - layout.stride) / layout.packetSize + 1;
            if layout.stride <= layout.header || layout.stride > layout.datagramSize then
              s.written == r.written && s.last == r.last && !s.initialState && s.outOfOrderRun == 0
            else
              && s.last == d[0].seqNum && 1 <= |s.written| - |r.written| <= fit
              && |s.written| - |r.written| + s.written[|r.written|].gap
                 == 1 + if r.initialState then 0 else LostBetween(r.last, d[0].seqNum)
  {
  }

  // ---------------------------------------------------------------------------------------
  // The receiver's statistics

  /** Every run accounts for every number and every arrival: the numbers passed are those accepted and
      those counted as lost, the arrivals are those accepted and those counted as out of order, and the
      packets written are those accepted and those counted as revived. */
  lemma {:induction false} EveryRunCounts(t: Track, c: Setting, arrivals: seq<nat>)
    requires ValidSetting(c) && Synced(t) && ReceivableRun(t, c, arrivals)
    ensures var r := After(t, c, arrivals);
            var accepted := |r.accepted| - |t.accepted|;
            && r.rx.totCount - t.rx.totCount == r.last - t.last
            && r.last - t.last == accepted + r.rx.lostCount - t.rx.lostCount
            && |arrivals| == accepted + r.rx.outOfOrderCount - t.rx.outOfOrderCount
            && |r.rx.written| - |t.rx.written| == accepted + r.rx.revivedCount - t.rx.revivedCount
    decreases |arrivals|
  {
    if |arrivals| > 0 {
      hide Receive, WalkIndex;
      ArriveWrites(t, c, arrivals[0]);
      ArriveCounts(t, c, arrivals[0]);
      EveryRunCounts(Arrive(t, c, arrivals[0]), c, arrivals[1..]);
    }
  }

  lemma {:induction false} ArriveCounts(t: Track, c: Setting, n: nat)
    requires Synced(t) && n < |c.sent| && ValidSetting(c) && Receivable(t, n)
    ensures var r := Arrive(t, c, n);
            var accepted := if Accepts(t.last, n) then 1 else 0;
            && |r.accepted| - |t.accepted| == accepted
            && r.rx.totCount - t.rx.totCount == r.last - t.last
            && r.last - t.last == accepted + r.rx.lostCount - t.rx.lostCount
            && 1 == accepted + r.rx.outOfOrderCount - t.rx.outOfOrderCount
            && |r.rx.written| - |t.rx.written| == accepted + r.rx.revivedCount - t.rx.revivedCount
  {
    FilterIsSerial(t.last, n);
    NothingTruncated(c.layout, c.factor);
    if Accepts(t.last, n) {
      ScanIsWalk(c, t.last, n);
      WalkStaysAboard(c, t.last, n);
    }
  }
}
