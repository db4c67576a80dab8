/** The one-way bridge: two endpoints, each observed by a relay that forwards
    what it receives to the other endpoint unless a loop-prevention check
    drops it. */
module MulticastBridge {
  import opened Wrappers
  import opened Text
  import IPv4
  import opened MulticastThread

  /** An endpoint as the bridge sees it: its address, port and network adapter. */
  datatype Listener = Listener(address: string, port: int, networkAdapter: string)

  /** One `listener.send(data)`. */
  datatype Send = Send(to: Listener, data: Payload)

  /** `address.split('.')[:2]` */
  function NetworkPrefix(address: string): seq<string>
  {
    Take(Split(address, '.'), 2)
  }

  /** `filtered_send(listener, interface, data, server)`, reading the origin
      address from `server`: drops a datagram sent from `interface` itself or
      from the destination's own network, and otherwise sends it on once. */
  function FilteredSend(listener: Listener, interface: string, data: Payload, server: SockAddr): (sends: seq<Send>)
    ensures sends == [] || sends == [Send(listener, data)]
    ensures sends == [] <==>
      server.host == interface || NetworkPrefix(server.host) == NetworkPrefix(listener.networkAdapter)
  {
    var address := server.host;
    if address == interface then []
    else if NetworkPrefix(address) == NetworkPrefix(listener.networkAdapter) then []
    else [Send(listener, data)]
  }

  /** The exception raised as written, where the origin is unpacked from the
      interface text instead of from `server`. */
  datatype Raised = UnpackError(text: string)

  /** `filtered_send` as written: `address, port = interface` unpacks the
      characters of the interface text, which raises unless it has exactly two;
      `server` is never read. */
  function FilteredSendAsWritten(listener: Listener, interface: string, data: Payload, server: SockAddr): Result<seq<Send>, Raised>
  {
    if |interface| != 2 then Failure(UnpackError(interface))
    else
      var address := [interface[0]];
      if address == interface then Success([])
      else if NetworkPrefix(address) == NetworkPrefix(listener.networkAdapter) then Success([])
      else Success([Send(listener, data)])
  }

  /** As written, every bridge whose interface is a dotted-quad address raises
      on every datagram, whatever its origin. */
  lemma AsWrittenRaises(listener: Listener, interface: string, data: Payload, server: SockAddr)
    requires IPv4.Parse(interface).Some?
    ensures FilteredSendAsWritten(listener, interface, data, server) == Failure(UnpackError(interface))
  {
    var parts := Split(interface, '.');
    IPv4.SplitParsed(interface);
    var o := IPv4.Parse(interface).value;
    assert forall i :: 0 <= i < 4 ==> |parts[i]| >= 1 by {
      assert |IPv4.Render(o[0])| >= 1 && |IPv4.Render(o[1])| >= 1;
      assert |IPv4.Render(o[2])| >= 1 && |IPv4.Render(o[3])| >= 1;
    }
    JoinLength(parts, '.');
    JoinSplit(interface, '.');
  }

  /** The example interface 10.0.0.5 already makes every call raise. */
  lemma AsWrittenExample(listener: Listener, data: Payload, server: SockAddr)
    ensures FilteredSendAsWritten(listener, "10.0.0.5", data, server).Failure?
    ensures FilteredSend(listener, "10.0.0.5", data, SockAddr("10.0.0.5", 5000)) == []
  {
  }

  /** As written, even where the unpacking succeeds, the self-loop check can
      never drop a datagram (a one-character origin never equals a
      two-character interface) and the datagram's real origin is never read. */
  lemma AsWrittenSelfCheckInert(listener: Listener, interface: string, data: Payload, server: SockAddr)
    requires |interface| == 2
    ensures FilteredSendAsWritten(listener, interface, data, server) ==
      Success(if NetworkPrefix([interface[0]]) == NetworkPrefix(listener.networkAdapter) then []
              else [Send(listener, data)])
  {
    assert |[interface[0]]| == 1;
  }

  /** On dotted-quad addresses the prefix check compares the first two octets. */
  lemma PrefixComparesOctets(origin: string, adapter: string)
    requires IPv4.Parse(origin).Some? && IPv4.Parse(adapter).Some?
    ensures NetworkPrefix(origin) == NetworkPrefix(adapter) <==>
      IPv4.Parse(origin).value[..2] == IPv4.Parse(adapter).value[..2]
  {
    var o, a := IPv4.Parse(origin).value, IPv4.Parse(adapter).value;
    IPv4.SplitParsed(origin);
    IPv4.SplitParsed(adapter);
    assert NetworkPrefix(origin) == [IPv4.Render(o[0]), IPv4.Render(o[1])];
    assert NetworkPrefix(adapter) == [IPv4.Render(a[0]), IPv4.Render(a[1])];
    IPv4.RenderInjective(o[0], a[0]);
    IPv4.RenderInjective(o[1], a[1]);
    if o[..2] == a[..2] {
      assert o[0] == o[..2][0] && o[1] == o[..2][1];
    }
    if o[0] == a[0] && o[1] == a[1] {
      assert o[..2] == [o[0], o[1]] && a[..2] == [a[0], a[1]];
    }
  }

  /** On text without dots the prefix is the one component there is, as
      slicing a one-element list gives. */
  lemma PrefixOfShortText(s: string)
    requires '.' !in s
    ensures NetworkPrefix(s) == [s]
  {
    SplitFree(s, '.');
  }

  /** `partial(filtered_send, destination, interface)`, registered as an observer. */
  datatype Relay = Relay(destination: Listener, interface: string)

  /** The sends made when a datagram from `server` is signalled to `observers`:
      the order of `MulticastThread.Deliveries` (every observer once, in list
      order, as `signal` calls them) applied to relays, each call contributing
      what `FilteredSend` sends. */
  function Relayed(observers: seq<Relay>, data: Payload, server: SockAddr): seq<Send>
  {
    if observers == [] then []
    else (FilteredSend(observers[0].destination, observers[0].interface, data, server)
          + Relayed(observers[1..], data, server))
  }

  datatype Bridge = Bridge(input: Listener, output: Listener, inputObservers: seq<Relay>, outputObservers: seq<Relay>)

  /** `OneWayBridge(...)`: the input side relays to the output listener and is
      filtered against the input interface; the output side is its mirror image. */
  function OneWayBridge(inputAddress: string, inputPort: int, inputInterface: string,
                        outputAddress: string, outputPort: int, outputInterface: string): (b: Bridge)
    ensures b.input.networkAdapter == inputInterface && b.output.networkAdapter == outputInterface
    ensures b.inputObservers == [Relay(b.output, inputInterface)]
    ensures b.outputObservers == [Relay(b.input, outputInterface)]
    ensures forall data, server ::
              Relayed(b.inputObservers, data, server) ==
              if server.host == inputInterface || NetworkPrefix(server.host) == NetworkPrefix(outputInterface)
              then [] else [Send(b.output, data)]
    ensures forall data, server ::
              Relayed(b.outputObservers, data, server) ==
              if server.host == outputInterface || NetworkPrefix(server.host) == NetworkPrefix(inputInterface)
              then [] else [Send(b.input, data)]
  {
    var input := Listener(inputAddress, inputPort, inputInterface);
    var output := Listener(outputAddress, outputPort, outputInterface);
    Bridge(input, output, [Relay(output, inputInterface)], [Relay(input, outputInterface)])
  }

  /** A datagram the bridge itself sent out of one side, looping back to that
      side's socket from that side's interface, is never relayed again. */
  lemma NoPingPong(b: Bridge, inputInterface: string, outputInterface: string, data: Payload, port: int)
    requires b == OneWayBridge(b.input.address, b.input.port, inputInterface, b.output.address, b.output.port, outputInterface)
    ensures Relayed(b.inputObservers, data, SockAddr(inputInterface, port)) == []
    ensures Relayed(b.outputObservers, data, SockAddr(outputInterface, port)) == []
  {
  }
}
