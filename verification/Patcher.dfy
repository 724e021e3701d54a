/** The hub patcher: connections are made one client at a time, as clients register, and the matrix
    they build does not depend on the order. */
module Patcher {

  type Name = string

  /** A port: its full name, its client and channel (the first and the last part of the name), and
      whether it is a broadcast port. */
  datatype Port = Port(name: string, client: Name, channel: string, broadcast: bool)

  datatype Mode =
    | ServerToClient | ClientEcho | ClientFofi | ReservedMatrix | FullMix | NoAuto | ServFofi | ServFullMix

  datatype Connection = Connection(source: Port, sink: Port)

  /** What is fixed while clients register; `physical` are the receiving ports of the sound card. */
  datatype Hub = Hub(outPorts: seq<Port>, inPorts: seq<Port>, physical: seq<Port>,
                     fan: bool, loop: bool, includeServer: bool, upmix: bool)

  predicate Fans(mode: Mode) {
    mode.ClientFofi? || mode.FullMix? || mode.ServFofi? || mode.ServFullMix?
  }

  predicate Loops(mode: Mode) {
    mode.ClientEcho? || mode.FullMix? || mode.ServFullMix?
  }

  predicate IncludesServer(mode: Mode) {
    mode.ServerToClient? || mode.ServFofi? || mode.ServFullMix?
  }

  function OutPortsOf(h: Hub, client: Name): seq<Port> {
    Select(h.outPorts, client, true)
  }

  /** The ports of a client, in order; broadcast ports can be left out. */
  function Select(ports: seq<Port>, client: Name, skipBroadcast: bool): (r: seq<Port>)
    ensures forall p :: p in r <==> p in ports && p.client == client && !(skipBroadcast && p.broadcast)
  {
    if |ports| == 0 then []
    else
      var rest, p := Select(ports[..|ports| - 1], client, skipBroadcast), ports[|ports| - 1];
      if p.client == client && !(skipBroadcast && p.broadcast) then rest + [p] else rest
  }

  predicate IsMono(h: Hub, client: Name) {
    |OutPortsOf(h, client)| == 1
  }

  /** The channel rule: equal channels, or an upmixed mono source into channel 2. */
  predicate ChannelsMatch(h: Hub, source: Port, sink: Port) {
    source.channel == sink.channel || (h.upmix && IsMono(h, source.client) && sink.channel == "2")
  }

  // ---------------------------------------------------------------------------------------
  // One registration

  /** A connection from a sending port of the new client, to the clients there already or to itself. */
  predicate FromNew(h: Hub, clients: seq<Name>, name: Name, c: Connection) {
    && c.source in OutPortsOf(h, name) && c.sink in h.inPorts && ChannelsMatch(h, c.source, c.sink)
    && ((h.fan && c.sink.client in clients) || (h.loop && c.sink.client == name))
  }

  /** A connection from a client there already into a receiving port of the new one. */
  predicate IntoNew(h: Hub, clients: seq<Name>, name: Name, c: Connection) {
    && h.fan && c.source in h.outPorts && !c.source.broadcast && c.source.client in clients
    && c.sink in Select(h.inPorts, name, false) && ChannelsMatch(h, c.source, c.sink)
  }

  /** The upmix of a mono client into the second output of the sound card. */
  predicate ToServer(h: Hub, name: Name, c: Connection) {
    && h.includeServer && h.upmix && IsMono(h, name) && c.source in OutPortsOf(h, name)
    && |h.physical| >= 2 && c.sink == h.physical[1]
  }

  /** What registering a client beside those there already connects. */
  ghost function AddedBy(h: Hub, clients: seq<Name>, name: Name): (r: set<Connection>)
    ensures forall c :: c in r <==>
      FromNew(h, clients, name, c) || IntoNew(h, clients, name, c) || ToServer(h, name, c)
  {
    set a, b | a in h.outPorts && b in h.inPorts + h.physical
      && var c := Connection(a, b);
         FromNew(h, clients, name, c) || IntoNew(h, clients, name, c) || ToServer(h, name, c)
      :: Connection(a, b)
  }

  /** What a run of registrations connects. */
  ghost function Registered(h: Hub, order: seq<Name>): set<Connection> {
    if |order| == 0 then {}
    else
      var last := |order| - 1;
      Registered(h, order[..last]) + AddedBy(h, order[..last], order[last])
  }

  class HubPatcher {
    var outPorts: seq<Port>
    var inPorts: seq<Port>
    var physical: seq<Port>
    var clients: seq<Name>
    var monoClients: seq<Name>
    var fan: bool
    var loop: bool
    var includeServer: bool
    var stereoUpmix: bool
    var made: set<Connection>          // the connections made so far

    ghost function Value(): Hub
      reads this
    {
      Hub(outPorts, inPorts, physical, fan, loop, includeServer, stereoUpmix)
    }

    /** The registered mono clients are exactly the registered clients with one sending port. */
    ghost predicate MonoKnown()
      reads this
    {
      forall c :: c in monoClients <==> c in clients && IsMono(Value(), c)
    }

    ghost predicate Valid()
      reads this
    {
      MonoKnown() && made == Registered(Value(), clients)
    }

    constructor (outs: seq<Port>, ins: seq<Port>, outputs: seq<Port>, mode: Mode, upmix: bool)
      ensures Valid() && clients == [] && made == {}
      ensures Value() == Hub(outs, ins, outputs, Fans(mode), Loops(mode), IncludesServer(mode), upmix)
    {
      outPorts, inPorts, physical := outs, ins, outputs;
      clients, monoClients, made := [], [], {};
      stereoUpmix := upmix;
      fan, loop, includeServer := false, false, true;
      new;
      SetPatchMode(mode);
    }

    method SetPatchMode(patchMode: Mode)
      modifies `fan, `loop, `includeServer
      ensures fan == Fans(patchMode) && loop == Loops(patchMode) && includeServer == IncludesServer(patchMode)
    {
      fan := patchMode == ClientFofi || patchMode == FullMix || patchMode == ServFofi || patchMode == ServFullMix;
      loop := patchMode == ClientEcho || patchMode == FullMix || patchMode == ServFullMix;
      includeServer := patchMode == ServerToClient || patchMode == ServFofi || patchMode == ServFullMix;
    }

    method RegisterClient(clientName: Name)
      requires Valid()
      modifies `clients, `monoClients, `made
      ensures Valid() && clients == old(clients) + [clientName]
      ensures made == old(made) + AddedBy(Value(), old(clients), clientName)
    {
      hide Select, FromNew, IntoNew, ToServer, AddedBy;
      var clientIsMono := Connect(clientName);
      assert (clients + [clientName])[..|clients|] == clients;
      clients := clients + [clientName];
      if clientIsMono {
        monoClients := monoClients + [clientName];
      }
    }

    method Connect(clientName: Name) returns (clientIsMono: bool)
      requires MonoKnown()
      modifies `made
      ensures made == old(made) + AddedBy(Value(), clients, clientName)
      ensures clientIsMono == IsMono(Value(), clientName)
    {
      hide Select, FromNew, IntoNew, ToServer, ChannelsMatch;
      var clientOutPorts := Select(outPorts, clientName, true);
      var clientInPorts := Select(inPorts, clientName, false);
      clientIsMono := |clientOutPorts| == 1;
      ConnectServer(clientName, clientOutPorts, clientIsMono);
      ConnectOthers(clientName, clientOutPorts, clientInPorts, clientIsMono);
    }

    /** In the server modes only the upmix of a mono client is left to connect. */
    method ConnectServer(clientName: Name, clientOutPorts: seq<Port>, clientIsMono: bool)
      requires clientOutPorts == OutPortsOf(Value(), clientName) && clientIsMono == (|clientOutPorts| == 1)
      modifies `made
      ensures forall c :: c in made <==> c in old(made) || ToServer(Value(), clientName, c)
    {
      hide Select;
      if includeServer && clientIsMono && stereoUpmix {
        if |physical| >= 2 {
          made := made + {Connection(clientOutPorts[0], physical[1])};
        }
      }
    }

    method ConnectOthers(clientName: Name, clientOutPorts: seq<Port>, clientInPorts: seq<Port>, clientIsMono: bool)
      requires MonoKnown()
      requires clientOutPorts == OutPortsOf(Value(), clientName) && clientIsMono == (|clientOutPorts| == 1)
      requires clientInPorts == Select(inPorts, clientName, false)
      modifies `made
      ensures forall c :: c in made <==>
        c in old(made) || FromNew(Value(), clients, clientName, c) || IntoNew(Value(), clients, clientName, c)
    {
      hide Select, ChannelsMatch;
      if fan || loop {
        ConnectSources(clientName, clientOutPorts, clientIsMono);
        if fan {
          ConnectSinks(clientName, clientInPorts);
        }
      }
    }

    method ConnectSources(clientName: Name, clientOutPorts: seq<Port>, clientIsMono: bool)
      requires clientOutPorts == OutPortsOf(Value(), clientName) && clientIsMono == (|clientOutPorts| == 1)
      modifies `made
      ensures forall c :: c in made <==> c in old(made) || FromNew(Value(), clients, clientName, c)
    {
      hide Select, ChannelsMatch;
      for i := 0 to |clientOutPorts|
        invariant forall c :: c in made <==>
          c in old(made) || (c.source in clientOutPorts[..i] && FromNew(Value(), clients, clientName, c))
      {
        ghost var source := clientOutPorts[i];
        assert source in clientOutPorts;
        ConnectSource(clientName, clientOutPorts[i], clientIsMono);
        assert clientOutPorts[..i + 1] == clientOutPorts[..i] + [source];
      }
      assert clientOutPorts[..|clientOutPorts|] == clientOutPorts;
    }

    /** Connects one sending port of the new client. */
    method ConnectSource(clientName: Name, source: Port, clientIsMono: bool)
      requires source in OutPortsOf(Value(), clientName) && clientIsMono == IsMono(Value(), clientName)
      modifies `made
      ensures forall c :: c in made <==>
        c in old(made) || (c.source == source && FromNew(Value(), clients, clientName, c))
    {
      hide FromNew, Select;
      for j := 0 to |inPorts|
        invariant forall c :: c in made <==>
          c in old(made) || (c.source == source && c.sink in inPorts[..j] && FromNew(Value(), clients, clientName, c))
      {
        assert inPorts[..j + 1] == inPorts[..j] + [inPorts[j]];
        ConnectPair(clientName, source, inPorts[j], clientIsMono);
      }
      assert inPorts[..|inPorts|] == inPorts;
      SinksAreIn(Value(), clients, clientName);
    }

    /** The body of the inner loop: first the other clients, then the client itself. */
    method ConnectPair(clientName: Name, source: Port, sink: Port, clientIsMono: bool)
      requires source in OutPortsOf(Value(), clientName) && sink in inPorts
      requires clientIsMono == IsMono(Value(), clientName)
      modifies `made
      ensures made == old(made) +
        if FromNew(Value(), clients, clientName, Connection(source, sink)) then {Connection(source, sink)} else {}
    {
      hide Select;
      var otherClient, otherChannel, channel := sink.client, sink.channel, source.channel;
      if fan {
        if otherClient in clients && otherChannel == channel {
          made := made + {Connection(source, sink)};
        } else if stereoUpmix && clientIsMono {
          if otherClient in clients && otherChannel == "2" {
            made := made + {Connection(source, sink)};
          }
        }
      }
      if loop {
        if otherClient == clientName && otherChannel == channel {
          made := made + {Connection(source, sink)};
        } else if stereoUpmix && clientIsMono {
          if otherClient == clientName && otherChannel == "2" {
            made := made + {Connection(source, sink)};
          }
        }
      }
    }

    method ConnectSinks(clientName: Name, clientInPorts: seq<Port>)
      requires MonoKnown() && fan && clientInPorts == Select(inPorts, clientName, false)
      modifies `made
      ensures forall c :: c in made <==> c in old(made) || IntoNew(Value(), clients, clientName, c)
    {
      hide Select, ChannelsMatch;
      for i := 0 to |clientInPorts|
        invariant forall c :: c in made <==>
          c in old(made) || (c.sink in clientInPorts[..i] && IntoNew(Value(), clients, clientName, c))
      {
        ghost var sink := clientInPorts[i];
        assert sink in clientInPorts;
        ConnectSink(clientName, clientInPorts[i]);
        assert clientInPorts[..i + 1] == clientInPorts[..i] + [sink];
      }
      assert clientInPorts[..|clientInPorts|] == clientInPorts;
    }

    /** Connects one receiving port of the new client. */
    method ConnectSink(clientName: Name, sink: Port)
      requires MonoKnown() && fan && sink in Select(inPorts, clientName, false)
      modifies `made
      ensures forall c :: c in made <==>
        c in old(made) || (c.sink == sink && IntoNew(Value(), clients, clientName, c))
    {
      hide Select;
      for j := 0 to |outPorts|
        invariant forall c :: c in made <==>
          c in old(made) || (c.sink == sink && c.source in outPorts[..j] && IntoNew(Value(), clients, clientName, c))
      {
        var source := outPorts[j];
        assert outPorts[..j + 1] == outPorts[..j] + [source];
        if source.client in clients && !source.broadcast {
          if source.channel == sink.channel
            || (stereoUpmix && sink.channel == "2" && source.client in monoClients)
          {
            made := made + {Connection(source, sink)};
          }
        }
      }
      assert outPorts[..|outPorts|] == outPorts;
    }
  }

  lemma SinksAreIn(h: Hub, clients: seq<Name>, name: Name)
    ensures forall c :: FromNew(h, clients, name, c) ==> c.sink in h.inPorts
  {
  }

  // ---------------------------------------------------------------------------------------
  // Runs of registrations

  /** Two registered ports that the mode wants connected. */
  predicate Wanted(h: Hub, source: Port, sink: Port) {
    && !source.broadcast
    && (if source.client == sink.client then h.loop else h.fan)
    && ChannelsMatch(h, source, sink)
  }

  /** The matrix that a mode wants among some clients, and between them and the sound card. */
  ghost predicate InMatrix(h: Hub, clients: seq<Name>, c: Connection) {
    && c.source in h.outPorts && c.source.client in clients
    && (|| (c.sink in h.inPorts && c.sink.client in clients && Wanted(h, c.source, c.sink))
        || ToServer(h, c.source.client, c))
  }

  ghost predicate Distinct(order: seq<Name>) {
    forall i, j :: 0 <= i < j < |order| ==> order[i] != order[j]
  }

  /** Registering distinct clients one by one builds exactly the wanted matrix. */
  lemma {:induction false} RegisteredIsMatrix(h: Hub, order: seq<Name>)
    requires Distinct(order)
    ensures forall c :: c in Registered(h, order) <==> InMatrix(h, order, c)
  {
    if |order| > 0 {
      var init, name := order[..|order| - 1], order[|order| - 1];
      RegisteredIsMatrix(h, init);
      assert order == init + [name];
      assert name !in init;
      forall c: Connection
        ensures c in Registered(h, order) <==> InMatrix(h, order, c)
      {
        OneMore(h, init, name, c);
      }
    }
  }

  lemma {:induction false} OneMore(h: Hub, clients: seq<Name>, name: Name, c: Connection)
    requires name !in clients
    ensures InMatrix(h, clients + [name], c) <==>
      InMatrix(h, clients, c) || FromNew(h, clients, name, c) || IntoNew(h, clients, name, c) || ToServer(h, name, c)
  {
    hide Select, ChannelsMatch;
  }

  /** Order independence: the same distinct clients, registered in two orders, are connected alike. */
  lemma {:induction false} RegistrationIsOrderIndependent(h: Hub, order: seq<Name>, other: seq<Name>)
    requires multiset(order) == multiset(other) && Distinct(order) && Distinct(other)
    ensures Registered(h, order) == Registered(h, other)
  {
    RegisteredIsMatrix(h, order);
    RegisteredIsMatrix(h, other);
    forall c: Name ensures c in order <==> c in other {
      assert c in order <==> c in multiset(order);
      assert c in other <==> c in multiset(other);
    }
    assert forall c :: InMatrix(h, order, c) <==> InMatrix(h, other, c);
  }

  /** Port i sends for a client. */
  predicate Sends(ports: seq<Port>, client: Name, i: int) {
    0 <= i < |ports| && ports[i].client == client && !ports[i].broadcast
  }

  /** A client is mono when it has one sending port. */
  ghost predicate OneSender(ports: seq<Port>, client: Name) {
    exists i :: Sends(ports, client, i) && forall j :: Sends(ports, client, j) ==> j == i
  }

  ghost predicate NoSender(ports: seq<Port>, client: Name) {
    forall i :: !Sends(ports, client, i)
  }

  lemma {:induction false} SelectCounts(ports: seq<Port>, client: Name)
    ensures |Select(ports, client, true)| == 0 <==> NoSender(ports, client)
    ensures |Select(ports, client, true)| == 1 <==> OneSender(ports, client)
  {
    if |ports| > 0 {
      hide NoSender, OneSender;
      SelectCounts(ports[..|ports| - 1], client);
      SendersBut(ports, client);
    } else {
      assert NoSender(ports, client);
    }
  }

  /** The senders among all ports, by the last one and those before it. */
  lemma {:induction false} SendersBut(ports: seq<Port>, client: Name)
    requires |ports| > 0
    ensures var init, sends := ports[..|ports| - 1], Sends(ports, client, |ports| - 1);
            && (NoSender(ports, client) <==> !sends && NoSender(init, client))
            && (OneSender(ports, client) <==> if sends then NoSender(init, client) else OneSender(init, client))
  {
    var n := |ports| - 1;
    var init := ports[..n];
    forall i ensures Sends(ports, client, i) <==> Sends(init, client, i) || (i == n && Sends(ports, client, n)) {
    }
    if !Sends(ports, client, n) {
      assert OneSender(ports, client) <==> OneSender(init, client) by {
        assert forall i :: Sends(ports, client, i) <==> Sends(init, client, i);
      }
    } else {
      if NoSender(init, client) {
        assert Sends(ports, client, n) && forall j :: Sends(ports, client, j) ==> j == n;
      } else {
        var i :| Sends(init, client, i);
        assert Sends(ports, client, i) && i != n;
      }
    }
  }

  /** Who is connected to whom, mode by mode: other clients in the four modes that fan out, the client
      itself in the three that loop, on equal channels or, with upmixing, from a client's only sending
      port into channel 2; and in the three modes with the server, with upmixing, from that port into the
      second output of the sound card. */
  lemma {:induction false} WhoIsConnected(outs: seq<Port>, ins: seq<Port>, physical: seq<Port>, mode: Mode,
                                          upmix: bool, order: seq<Name>, a: Port, b: Port)
    requires Distinct(order) && a in outs && a.client in order
    ensures var h := Hub(outs, ins, physical, Fans(mode), Loops(mode), IncludesServer(mode), upmix);
            var mono := OneSender(outs, a.client);
            var others := mode in {ClientFofi, FullMix, ServFofi, ServFullMix};
            var itself := mode in {ClientEcho, FullMix, ServFullMix};
            var server := mode in {ServerToClient, ServFofi, ServFullMix};
            Connection(a, b) in Registered(h, order) <==>
              && !a.broadcast
              && (|| (&& b in ins && b.client in order && (if a.client == b.client then itself else others)
                      && (a.channel == b.channel || (upmix && mono && b.channel == "2")))
                  || (server && upmix && mono && |physical| >= 2 && b == physical[1]))
  {
    hide Registered, Select, OneSender;
    var h := Hub(outs, ins, physical, Fans(mode), Loops(mode), IncludesServer(mode), upmix);
    RegisteredIsMatrix(h, order);
    SelectCounts(outs, a.client);
  }

  /** Registering a client a second time changes nothing exactly when the mode does not fan, or loops, or
      no two of its ports match: fanning without looping, it is then connected to itself. */
  lemma {:induction false} RegisteredAgain(h: Hub, order: seq<Name>, name: Name)
    requires Distinct(order) && name in order
    ensures Registered(h, order + [name]) == Registered(h, order) <==> h.fan && !h.loop ==>
      forall c :: FromNew(h.(loop := true), [], name, c) ==> ToServer(h, name, c)
  {
    hide ChannelsMatch, Select;
    RegisteredIsMatrix(h, order);
    var again := order + [name];
    assert again[..|order|] == order;
    forall c: Connection
      ensures c in Registered(h, again) <==> InMatrix(h, order, c) || (h.fan && FromNew(h.(loop := true), [], name, c))
    {
      AgainAdds(h, order, name, c);
    }
    forall c | FromNew(h.(loop := true), [], name, c)
      ensures InMatrix(h, order, c) <==> h.loop || ToServer(h, name, c)
    {
      SelfConnection(h, order, name, c);
    }
  }

  lemma {:induction false} AgainAdds(h: Hub, order: seq<Name>, name: Name, c: Connection)
    requires name in order
    ensures InMatrix(h, order, c) || FromNew(h, order, name, c) || IntoNew(h, order, name, c) || ToServer(h, name, c)
      <==> InMatrix(h, order, c) || (h.fan && FromNew(h.(loop := true), [], name, c))
  {
    hide Select;
  }

  lemma {:induction false} SelfConnection(h: Hub, order: seq<Name>, name: Name, c: Connection)
    requires name in order && FromNew(h.(loop := true), [], name, c)
    ensures InMatrix(h, order, c) <==> h.loop || ToServer(h, name, c)
  {
    hide Select;
  }
}
