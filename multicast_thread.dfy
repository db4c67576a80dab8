/** The multicast/unicast endpoint: the socket set-up decided by `_connect`,
    the bounded queue between the receive loop and the dispatch loop, and the
    ordered fan-out to observers.

    The two threads are modelled sequentially: a receive loop runs over a
    finite schedule of socket events, and the dispatch loop drains what is
    queued. Observers are opaque; every call made to one is recorded. */
module MulticastThread {
  import opened Wrappers
  import IPv4

  type Payload = seq<bv8>

  /** `Queue(maxsize=100)` */
  const QueueCapacity: nat := 100

  /** `sock.settimeout(1)` */
  const ReceiveTimeoutSeconds: nat := 1

  /** A socket address `(host, port)`. */
  datatype SockAddr = SockAddr(host: string, port: int)

  /** `IP_ADD_MEMBERSHIP` with `inet_aton(group) + inet_aton(adapter)`. */
  datatype Membership = Membership(group: string, adapter: string)

  /** What `_connect` does to its fresh UDP socket. */
  datatype SocketSetup = SocketSetup(
    reuseAddr: bool,
    timeoutSeconds: nat,
    bound: Option<SockAddr>,
    multicastInterface: Option<string>,
    membership: Option<Membership>)

  /** `ip_address(address)` raises on text that is not an address. */
  datatype ConnectError = AddressValueError(address: string)

  /** The platform dictionary: Linux binds to the group address, Windows to
      the adapter, and any other system gets a fallback that only constructs
      a `SystemError` without raising it, so nothing is bound. */
  function PlatformBind(system: string, address: string, networkAdapter: string, port: int): Option<SockAddr>
  {
    if system == "Linux" then Some(SockAddr(address, port))
    else if system == "Windows" then Some(SockAddr(networkAdapter, port))
    else None
  }

  /** `_connect(port)` run on platform `system`. */
  function ConnectPlan(address: string, networkAdapter: string, port: int, system: string): (r: Result<SocketSetup, ConnectError>)
    ensures r.Failure? <==> IPv4.Parse(address).None?
    ensures r.Failure? ==> r.error == AddressValueError(address)
    ensures r.Success? ==> r.value.reuseAddr && r.value.timeoutSeconds == ReceiveTimeoutSeconds
    ensures r.Success? ==> (r.value.membership.Some? <==> 224 <= IPv4.Parse(address).value[0] <= 239)
    ensures r.Success? && r.value.membership.Some? ==>
      r.value.membership == Some(Membership(address, networkAdapter)) &&
      r.value.multicastInterface == Some(networkAdapter) &&
      (system == "Linux" ==> r.value.bound == Some(SockAddr(address, port))) &&
      (system == "Windows" ==> r.value.bound == Some(SockAddr(networkAdapter, port))) &&
      (system != "Linux" && system != "Windows" ==> r.value.bound.None?)
    ensures r.Success? && r.value.membership.None? ==>
      r.value.bound == Some(SockAddr(networkAdapter, port)) && r.value.multicastInterface.None?
  {
    match IPv4.Parse(address)
    case None => Failure(AddressValueError(address))
    case Some(octets) =>
      IPv4.MulticastRange(octets);
      if IPv4.InMulticastNetwork(octets) then
        Success(SocketSetup(true, ReceiveTimeoutSeconds, PlatformBind(system, address, networkAdapter, port),
          Some(networkAdapter), Some(Membership(address, networkAdapter))))
      else
        Success(SocketSetup(true, ReceiveTimeoutSeconds, Some(SockAddr(networkAdapter, port)), None, None))
  }

  /** `queue.put(data, timeout=.1)` while no consumer runs: the datagram is
      appended when there is room and dropped otherwise. */
  function Put(q: seq<Payload>, data: Payload): seq<Payload>
  {
    if |q| < QueueCapacity then q + [data] else q
  }

  /** The queue after a run of datagrams arrives, one `Put` each. */
  function Fill(q: seq<Payload>, arrivals: seq<Payload>): seq<Payload>
    decreases |arrivals|
  {
    if arrivals == [] then q else Fill(Put(q, arrivals[0]), arrivals[1..])
  }

  /** Arrivals are queued oldest first until the queue holds 100; exactly those
      beyond the capacity are dropped, and what was queued stays. */
  lemma {:induction false} FillKeepsOldest(q: seq<Payload>, arrivals: seq<Payload>)
    requires |q| <= QueueCapacity
    ensures Fill(q, arrivals) == q + arrivals[..Min(|arrivals|, QueueCapacity - |q|)]
    ensures |Fill(q, arrivals)| <= QueueCapacity
    decreases |arrivals|
  {
    if arrivals != [] {
      FillKeepsOldest(Put(q, arrivals[0]), arrivals[1..]);
      if |q| < QueueCapacity {
        var n := Min(|arrivals|, QueueCapacity - |q|);
        assert arrivals[1..][..n - 1] == arrivals[1..n];
        assert q + [arrivals[0]] + arrivals[1..n] == q + arrivals[..n];
      } else {
        assert arrivals[1..][..0] == [] == arrivals[..0];
      }
    }
  }

  /** An observer callback, known only by its identity. */
  datatype Observer = Observer(id: nat)

  /** One call `observer(data)`. */
  datatype Call = Call(observer: Observer, data: Payload)

  /** `signal(data)`: every observer, in list order, called with `data`. */
  function Deliveries(observers: seq<Observer>, data: Payload): seq<Call>
  {
    seq(|observers|, j requires 0 <= j < |observers| => Call(observers[j], data))
  }

  /** The calls made when `items` are dispatched one after the other. */
  function Fanout(observers: seq<Observer>, items: seq<Payload>): seq<Call>
  {
    if items == [] then [] else Deliveries(observers, items[0]) + Fanout(observers, items[1..])
  }

  /** Item i reaches observer j as call number `i * |observers| + j`: items
      oldest first, and for each item the observers in registration order. */
  lemma {:induction false} FanoutAt(observers: seq<Observer>, items: seq<Payload>, i: nat, j: nat)
    requires i < |items| && j < |observers|
    ensures |Fanout(observers, items)| == |items| * |observers|
    ensures i * |observers| + j < |items| * |observers|
    ensures Fanout(observers, items)[i * |observers| + j] == Call(observers[j], items[i])
  {
    FanoutLength(observers, items);
    var n := |observers|;
    IndexBound(i, j, |items|, n);
    if i > 0 {
      FanoutAt(observers, items[1..], i - 1, j);
      assert i * n + j == n + ((i - 1) * n + j);
    }
  }

  lemma IndexBound(i: nat, j: nat, m: nat, n: nat)
    requires i < m && j < n
    ensures i * n + j < m * n
  {
    assert i * n + j < i * n + n == (i + 1) * n;
    assert (i + 1) * n <= m * n;
  }

  lemma {:induction false} FanoutLength(observers: seq<Observer>, items: seq<Payload>)
    ensures |Fanout(observers, items)| == |items| * |observers|
  {
    if items != [] {
      FanoutLength(observers, items[1..]);
      assert |items| * |observers| == |observers| + (|items| - 1) * |observers|;
    }
  }

  /** At most 100 datagrams received while the dispatcher is stalled are all
      dispatched afterwards, in the order received. */
  lemma ReceiveThenDispatch(observers: seq<Observer>, arrivals: seq<Payload>)
    requires |arrivals| <= QueueCapacity
    ensures Fanout(observers, Fill([], arrivals)) == Fanout(observers, arrivals)
  {
    FillKeepsOldest([], arrivals);
    assert arrivals[..|arrivals|] == arrivals;
    assert [] + arrivals == arrivals;
  }

  /** What the socket reports on one pass of the receive loop; `StopRequested`
      stands for another thread calling `stop()` during that pass. */
  datatype Event = Timeout | Arrival(data: Payload, server: SockAddr) | StopRequested

  /** The payloads that arrive before the first stop request. */
  function Arrivals(events: seq<Event>): seq<Payload>
  {
    if events == [] || events[0].StopRequested? then []
    else (if events[0].Arrival? then [events[0].data] else []) + Arrivals(events[1..])
  }

  predicate Stops(events: seq<Event>)
  {
    exists i :: 0 <= i < |events| && events[i].StopRequested?
  }

  lemma StopsExtend(events: seq<Event>, i: nat)
    requires i < |events|
    ensures Stops(events[..i + 1]) <==> Stops(events[..i]) || events[i].StopRequested?
  {
    if Stops(events[..i + 1]) && !events[i].StopRequested? {
      var k :| 0 <= k < i + 1 && events[..i + 1][k].StopRequested?;
      assert events[..i][k] == events[k];
    }
    if Stops(events[..i]) {
      var k :| 0 <= k < i && events[..i][k].StopRequested?;
      assert events[..i + 1][k] == events[k];
    }
    if events[i].StopRequested? {
      assert events[..i + 1][i] == events[i];
    }
  }

  /** The endpoint's socket: how it was set up, and whether it is closed. */
  datatype Socket = Socket(setup: SocketSetup, closed: bool)

  /** `sendto` on a closed socket raises `OSError`. */
  datatype SendError = ClosedSocket

  /** One `sendto(message, to)`. */
  datatype Datagram = Datagram(to: SockAddr, message: Payload)

  class MulticastThread {
    const address: string
    const rport: int
    const sport: int
    const networkAdapter: string

    var running: bool
    var queue: seq<Payload>
    var observers: seq<Observer>
    var sock: Option<Socket>
    /** Every observer call made by `signal`, in order. */
    var calls: seq<Call>
    /** Every datagram handed to the socket by `send_data`, in order. */
    var sent: seq<Datagram>

    ghost predicate Valid()
      reads this
    {
      |queue| <= QueueCapacity
    }

    constructor (address: string, rport: int, sport: int, networkAdapter: string)
      ensures Valid()
      ensures this.address == address && this.rport == rport && this.sport == sport
      ensures this.networkAdapter == networkAdapter
      ensures !running && queue == [] && observers == [] && sock.None? && calls == [] && sent == []
    {
      this.address := address;
      this.rport := rport;
      this.sport := sport;
      this.networkAdapter := networkAdapter;
      running := false;
      queue := [];
      observers := [];
      sock := None;
      calls := [];
      sent := [];
    }

    /** `connect()`: the socket is set up on the receive port. */
    method Connect(system: string) returns (r: Result<SocketSetup, ConnectError>)
      modifies this`sock
      ensures r == ConnectPlan(address, networkAdapter, rport, system)
      ensures sock == if r.Success? then Some(Socket(r.value, false)) else old(sock)
    {
      r := ConnectPlan(address, networkAdapter, rport, system);
      if r.Success? {
        sock := Some(Socket(r.value, false));
      }
    }

    /** `observers.append(observer)` */
    method AddObserver(observer: Observer)
      modifies this`observers
      ensures observers == old(observers) + [observer]
    {
      observers := observers + [observer];
    }

    /** `run()`: the receive loop over a schedule of socket events. It queues
        what arrives, drops what finds the queue full, ends once a stop is
        requested and then closes the socket. */
    method Run(events: seq<Event>)
      requires Valid() && sock.Some? && !sock.value.closed
      modifies this`running, this`queue, this`sock
      ensures Valid()
      ensures queue == Fill(old(queue), Arrivals(events))
      ensures running == !Stops(events)
      ensures sock == Some(old(sock).value.(closed := Stops(events)))
    {
      running := true;
      var i := 0;
      while running && i < |events|
        invariant 0 <= i <= |events|
        invariant Valid() && sock == old(sock)
        invariant running == !Stops(events[..i])
        invariant running ==> Fill(queue, Arrivals(events[i..])) == Fill(old(queue), Arrivals(events))
        invariant !running ==> queue == Fill(old(queue), Arrivals(events)) && Stops(events)
      {
        var event := events[i];
        assert events[..i + 1] == events[..i] + [event];
        assert events[i..][0] == event && events[i..][1..] == events[i + 1..];
        var rest := Arrivals(events[i + 1..]);
        StopsExtend(events, i);
        match event {
          case Timeout =>
            assert Arrivals(events[i..]) == [] + rest == rest;
          case Arrival(data, _) =>
            assert Arrivals(events[i..]) == [data] + rest;
            assert ([data] + rest)[0] == data && ([data] + rest)[1..] == rest;
            queue := Put(queue, data);
          case StopRequested =>
            assert Arrivals(events[i..]) == [];
            assert Stops(events) by { assert events[i].StopRequested?; }
            running := false;
        }
        i := i + 1;
      }
      if !running {
        sock := Some(sock.value.(closed := true));
      } else {
        assert events[..i] == events;
      }
    }

    /** `signal(data)`: calls every observer, in list order. */
    method Signal(data: Payload)
      modifies this`calls
      ensures calls == old(calls) + Deliveries(observers, data)
    {
      var k := 0;
      while k < |observers|
        invariant 0 <= k <= |observers|
        invariant calls == old(calls) + Deliveries(observers[..k], data)
      {
        assert Deliveries(observers[..k + 1], data) == Deliveries(observers[..k], data) + [Call(observers[k], data)];
        calls := calls + [Call(observers[k], data)];
        k := k + 1;
      }
      assert observers[..k] == observers;
    }

    /** `signal_thread()`: while running, takes the oldest queued item and
        signals it, until the queue is empty (where `queue.get()` would block). */
    method SignalThread()
      requires Valid()
      modifies this`queue, this`calls
      ensures Valid()
      ensures old(running) ==> queue == [] && calls == old(calls) + Fanout(observers, old(queue))
      ensures !old(running) ==> queue == old(queue) && calls == old(calls)
    {
      while running && queue != []
        invariant Valid()
        invariant running ==> calls + Fanout(observers, queue) == old(calls) + Fanout(observers, old(queue))
        invariant !running ==> queue == old(queue) && calls == old(calls)
        decreases |queue|
      {
        var data := queue[0];
        assert Fanout(observers, queue) == Deliveries(observers, data) + Fanout(observers, queue[1..]);
        queue := queue[1..];
        Signal(data);
      }
    }

    /** `send_data(message)`: one datagram to the group on the send port.
        On a socket the receive loop has already closed, `sendto` raises
        and nothing is sent. */
    method SendData(message: Payload) returns (r: Result<(), SendError>)
      requires sock.Some?
      modifies this`sent
      ensures r.Failure? <==> sock.value.closed
      ensures r.Failure? ==> r.error == ClosedSocket
      ensures sent == if r.Success? then old(sent) + [Datagram(SockAddr(address, sport), message)] else old(sent)
    {
      if sock.value.closed {
        r := Failure(ClosedSocket);
      } else {
        sent := sent + [Datagram(SockAddr(address, sport), message)];
        r := Success(());
      }
    }

    /** `stop()`: clears the running flag, which ends the receive loop. */
    method Stop()
      modifies this`running
      ensures !running
    {
      running := false;
    }
  }
}
