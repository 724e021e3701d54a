/** The UDP redundancy protocol: each datagram carries the R newest packets, and the receiver
    filters on 16-bit serial numbers and revives what it missed. */
module Redundancy {

  const SEQ_MODULUS: int := 65536

  type Payload = seq<int>

  datatype Packet = Packet(seqNum: int, payload: Payload)

  // ---------------------------------------------------------------------------------------
  // Sender

  /** The datagram sent with packet n: packets n, n-1, ..., padded with the blank packets that
      fill the window before the first R packets have been sent. */
  ghost function Datagram(sent: seq<Payload>, n: nat, factor: nat, blank: Packet): (d: seq<Packet>)
    requires n < |sent|
    ensures |d| == factor
  {
    seq(factor, i requires 0 <= i < factor =>
      if i <= n then Packet((n - i) % SEQ_MODULUS, sent[n - i]) else blank)
  }

  /** Shifting the window and putting packet n in front turns datagram n - 1 into datagram n. */
  lemma ShiftedDatagram(sent: seq<Payload>, payload: Payload, was: seq<Packet>, now: seq<Packet>,
                        factor: nat, blank: Packet)
    requires |was| == |now| == factor >= 1
    requires if |sent| == 0 then forall i :: 0 <= i < factor ==> was[i] == blank
             else was == Datagram(sent, |sent| - 1, factor, blank)
    requires now[0] == Packet(|sent| % SEQ_MODULUS, payload)
    requires forall i :: 0 < i < factor ==> now[i] == was[i - 1]
    ensures now == Datagram(sent + [payload], |sent|, factor, blank)
  {
    var d := Datagram(sent + [payload], |sent|, factor, blank);
    forall i | 0 <= i < factor ensures now[i] == d[i] {
      if i > 0 {
        assert now[i] == was[i - 1];
      }
    }
  }

  class Sender {
    const udpRedundancyFactor: nat
    const fullRedundantPacket: array<Packet>
    ghost const blank: Packet
    var seqNumber: int
    ghost var sent: seq<Payload>

    ghost predicate Valid()
      reads this, fullRedundantPacket
    {
      && udpRedundancyFactor >= 1 && fullRedundantPacket.Length == udpRedundancyFactor
      && seqNumber == |sent| % SEQ_MODULUS
      && (if |sent| == 0 then forall i :: 0 <= i < udpRedundancyFactor ==> fullRedundantPacket[i] == blank
          else fullRedundantPacket[..] == Datagram(sent, |sent| - 1, udpRedundancyFactor, blank))
    }

    constructor (factor: nat, silence: Payload)
      requires factor >= 1
      ensures Valid() && udpRedundancyFactor == factor && sent == [] && fresh(fullRedundantPacket)
      ensures blank == Packet(0, silence)
    {
      udpRedundancyFactor := factor;
      fullRedundantPacket := new Packet[factor](_ => Packet(0, silence));
      blank := Packet(0, silence);
      seqNumber := 0;
      sent := [];
    }

    method SendPacketRedundancy(payload: Payload) returns (datagram: seq<Packet>)
      requires Valid()
      modifies this, fullRedundantPacket
      ensures Valid() && sent == old(sent) + [payload]
      ensures datagram == Datagram(sent, |old(sent)|, udpRedundancyFactor, blank)
    {
      hide Datagram;
      ghost var was := fullRedundantPacket[..];
      var i := udpRedundancyFactor - 1;
      while i > 0
        invariant 0 <= i < udpRedundancyFactor
        invariant forall j :: 0 <= j <= i ==> fullRedundantPacket[j] == was[j]
        invariant forall j :: i < j < udpRedundancyFactor ==> fullRedundantPacket[j] == was[j - 1]
        modifies fullRedundantPacket
      {
        fullRedundantPacket[i] := fullRedundantPacket[i - 1];
        i := i - 1;
      }
      fullRedundantPacket[0] := Packet(seqNumber, payload);
      ShiftedDatagram(sent, payload, was, fullRedundantPacket[..], udpRedundancyFactor, blank);
      datagram := fullRedundantPacket[..];
      seqNumber := (seqNumber + 1) % SEQ_MODULUS;
      sent := sent + [payload];
    }
  }

  // ---------------------------------------------------------------------------------------
  // Receiver

  /** One call of writeAudioBuffer; the gap is counted in packets. */
  datatype Write = Write(payload: Payload, gap: int, seqNum: int)

  /** The byte sizes that bound how many packets of a datagram can be read. */
  datatype Layout = Layout(header: int, stride: int, packetSize: int, datagramSize: int)

  datatype Receiver = Receiver(
    initialState: bool,
    last: int,
    outOfOrderRun: int,
    lostCount: int,
    outOfOrderCount: int,
    totCount: int,
    revivedCount: int,
    written: seq<Write>)

  /** Conversion of an int to int16_t. */
  function ToInt16(v: int): int {
    var r := v % SEQ_MODULUS;
    if r < SEQ_MODULUS / 2 then r else r - SEQ_MODULUS
  }

  function LostBetween(last: int, newer: int): int {
    ToInt16(newer - last - 1)
  }

  /** Where the walk back through the datagram stops, from position i on.  The comparison is made
      on ints, so that a last number of 65535 is never matched. */
  function Scan(d: seq<Packet>, last: int, i: nat): (r: nat)
    requires 1 <= i <= |d|
    ensures i - 1 <= r < |d|
    decreases |d| - i
  {
    if i == |d| || d[i - 1].seqNum == last + 1 then i - 1 else Scan(d, last, i + 1)
  }

  /** The packets at positions index..0, oldest first, the gap reported with the first of them. */
  function WritesFrom(d: seq<Packet>, index: nat, gap: int, newer: int): (w: seq<Write>)
    requires index < |d|
    ensures |w| == index + 1
  {
    seq(index + 1, j requires 0 <= j <= index =>
      Write(d[index - j].payload, if j == 0 then gap else 0, newer))
  }

  function Receive(r: Receiver, d: seq<Packet>, layout: Layout): Receiver
    requires |d| >= 1 && layout.packetSize > 0
  {
    var newer := d[0].seqNum;
    var lost := if r.initialState then 0 else LostBetween(r.last, newer);
    if lost < 0 || 1000 < lost then
      r.(outOfOrderCount := r.outOfOrderCount + 1, outOfOrderRun := r.outOfOrderRun + 1,
         initialState := 5 < r.outOfOrderRun + 1,
         totCount := if 5 < r.outOfOrderRun + 1 then 0 else r.totCount)
    else
      var index := Scan(d, r.last, 1);
      var counted := r.(lostCount := r.lostCount + lost,
                        totCount := r.totCount + if r.initialState then 0 else 1 + lost,
                        outOfOrderRun := 0, initialState := false, revivedCount := r.revivedCount + index);
      if layout.stride <= layout.header || layout.stride > layout.datagramSize then counted
      else
        var most := (layout.datagramSize - layout.stride) / layout.packetSize;
        var used: nat := if index > most then most else index;
        counted.(last := newer, written := r.written + WritesFrom(d, used, lost - used, newer))
  }

  class UdpReceiver {
    const udpRedundancyFactor: nat
    var initialState: bool
    var lastSeqNum: int
    var lastOutOfOrderCount: int
    var lostCount: int
    var outOfOrderCount: int
    var totCount: int
    var revivedCount: int
    var written: seq<Write>

    ghost function Value(): Receiver
      reads this
    {
      Receiver(initialState, lastSeqNum, lastOutOfOrderCount, lostCount, outOfOrderCount, totCount,
               revivedCount, written)
    }

    constructor (factor: nat)
      ensures udpRedundancyFactor == factor
      ensures Value() == Receiver(true, 0, 0, 0, 0, 0, 0, [])
    {
      udpRedundancyFactor := factor;
      initialState := true;
      lastSeqNum, lastOutOfOrderCount, lostCount, outOfOrderCount := 0, 0, 0, 0;
      totCount, revivedCount := 0, 0;
      written := [];
    }

    method ReceivePacketRedundancy(d: seq<Packet>, layout: Layout)
      requires |d| == udpRedundancyFactor >= 1 && layout.packetSize > 0
      modifies this
      ensures Value() == Receive(old(Value()), d, layout)
    {
      var newerSeqNum := d[0].seqNum;
      var lost := 0;
      if !initialState {
        lost := ToInt16(newerSeqNum - lastSeqNum - 1);
        if 0 > lost || 1000 < lost {
          outOfOrderCount := outOfOrderCount + 1;
          lastOutOfOrderCount := lastOutOfOrderCount + 1;
          if 5 < lastOutOfOrderCount {
            initialState := true;
            totCount := 0;
          }
          return;
        } else if 0 != lost {
          lostCount := lostCount + lost;
        }
        totCount := totCount + 1 + lost;
      }
      lastOutOfOrderCount := 0;
      initialState := false;

      var redunLastIndex := FindExpected(d);
      revivedCount := revivedCount + redunLastIndex;

      if layout.stride <= layout.header || layout.stride > layout.datagramSize {
        return;
      }
      var maxRedunIndex := (layout.datagramSize - layout.stride) / layout.packetSize;
      if redunLastIndex > maxRedunIndex {
        redunLastIndex := maxRedunIndex;
      }
      var gapSize := if initialState then 0 else lost - redunLastIndex;
      lastSeqNum := newerSeqNum;
      SendToAudio(d, redunLastIndex, gapSize);
    }

    /** Walks back from the newest packet to the one that is expected next. */
    method FindExpected(d: seq<Packet>) returns (redunLastIndex: nat)
      requires |d| == udpRedundancyFactor >= 1
      ensures redunLastIndex == Scan(d, lastSeqNum, 1)
    {
      var currentSeqNum := d[0].seqNum;
      redunLastIndex := 0;
      for i := 1 to udpRedundancyFactor
        invariant redunLastIndex == i - 1 && currentSeqNum == d[i - 1].seqNum
        invariant Scan(d, lastSeqNum, 1) == Scan(d, lastSeqNum, i)
      {
        if currentSeqNum == lastSeqNum + 1 {
          break;
        }
        redunLastIndex := i;
        currentSeqNum := d[i].seqNum;
      }
    }

    /** Writes the available packets in order, all under the newest number. */
    method SendToAudio(d: seq<Packet>, redunLastIndex: nat, gap: int)
      requires redunLastIndex < |d|
      modifies `written
      ensures written == old(written) + WritesFrom(d, redunLastIndex, gap, lastSeqNum)
    {
      var gapSize := gap;
      ghost var before, all := written, WritesFrom(d, redunLastIndex, gap, lastSeqNum);
      for i := redunLastIndex + 1 downto 0
        invariant written == before + all[..redunLastIndex + 1 - i]
        invariant gapSize == if i == redunLastIndex + 1 then gap else 0
        modifies `written
      {
        var w := Write(d[i].payload, gapSize, lastSeqNum);
        assert w == all[redunLastIndex - i];
        written := written + [w];
        gapSize := 0;
      }
    }
  }
}
