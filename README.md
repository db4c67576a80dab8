# Multicast bridge and CStruct codec — a Dafny model

This project models two parts of a small Python networking toolkit and
proves properties of the model.

- **The CStruct codec** (`python/cstruct/`). A dataclass whose fields are
  ctypes becomes a fixed-layout byte record. `to_bytes` concatenates the
  fields in declaration order. Inherited fields come first. Character arrays
  are never reordered. Under the default `LITTLE` setting, the native bytes
  of each scalar are reversed (slice step -1). `from_bytes` rejects data of the wrong length and otherwise cuts the
  data back into fields. `default`, `__iter__` and the asymmetric `equals`
  are modelled too, together with the example classes `Header` (37 bytes)
  and `MessageTypeA` (47 bytes).
- **The multicast endpoint** (`python/networking/Multicast/multicast_thread.py`).
  This covers four things:
  - the socket plan that `_connect` chooses: multicast group or unicast
    address, and Linux, Windows or another platform;
  - the receive loop, which puts datagrams into a queue of capacity 100 and
    drops them when the queue is full;
  - the dispatch loop, which drains that queue and calls every observer in
    registration order;
  - the send path, which sends to `(address, sport)`.

  The endpoint is a class whose fields the methods update. The two threads
  are modelled sequentially: the receive loop runs over a finite schedule of
  socket events, and the dispatch loop drains the queue afterwards.
- **The one-way bridge** (`python/networking/Multicast/multicast_bridge.py`).
  This covers the `filtered_send` loop-prevention predicate and the mirrored
  observer wiring.

Supporting modules:

- `Wrappers`: `Option`, `Result` and `Min`.
- `Text`: Python's `str.split`, `'.'.join` and slice `[:n]`.
- `IPv4`: the dotted-quad parsing of `ipaddress.ip_address` and the
  `224.0.0.0/4` membership test.

In the bridge, check 1
compares the origin with the interface bound by `partial`, which is the
receiving side's own interface. Check 2 compares the network prefix with the
destination listener's adapter.

## Model

| member | source | states |
|---|---|---|
| CStruct.DecodeRejectsWrongLength | python/cstruct/cstruct.py:42-43 | `from_bytes` fails exactly when the length differs from the class size, with an error carrying the actual length; otherwise it yields a valid struct of the requested class |
| CStruct.Decode | python/cstruct/cstruct.py:38-51 | definition of `from_bytes`: a failure carrying the length unless it is `size()`, else a struct of the class with the fields from `DecodeFields`; its properties are stated by DecodeRejectsWrongLength, RoundTrip, RoundTripBytes and PrefixDecode |
| CStruct.DecodeFields | python/cstruct/cstruct.py:46-49 | one value per field, each cut from the data at its offset and oriented; DecodeFieldsFit, DecodeEncode and EncodeDecode state what it means |
| CStruct.Encode | python/cstruct/cstruct.py:27-36 | definition of `to_bytes`: each field's oriented bytes, in field order; EncodeLength, EncodeAt, EncodeAppend, EndianRule and the round-trip lemmas state its properties |
| CStruct.Order | python/cstruct/cstruct.py:33 | definition of the slice step: 1 for a `c_char` array (`"c_char_Array" in field.type.__name__`), otherwise the endian value; EndianRule states its effect |
| CStruct.Step | python/cstruct/cstruct.py:34 | definition of `[::order]` for step 1 or -1; OrientedInvolution states that it keeps the length and undoes itself |
| CStruct.Oriented | python/cstruct/cstruct.py:33-34 | definition of one field's block as written or read, `bytes[::order]`; OrientedInvolution, EncodeAt and EndianRule state its meaning |
| CStruct.Concat | python/cstruct/cstruct.py:36 | definition of `b''.join`; ConcatSnoc states that joining one more block appends it, and EndianRule uses it to state the output |
| CStruct.Fields | python/cstruct/cstruct.py:20 | definition of `dataclasses.fields(cls)`, as used at lines 20, 31 and 47: inherited fields first, then the class's own; FieldsPrefix states the prefix property |
| CStruct.IsInstanceOf | python/cstruct/cstruct.py:71 | definition of `isinstance(other, type(self))` on struct classes: an instance of class c is an instance of d when c is d or descends from d; FieldsPrefix and EqualsMeaning state what it implies |
| CStruct.ClassSize | python/cstruct/cstruct.py:18-20 | definition of `size()`: the sum of the field widths of `fields(cls)`; SizeAppend and FieldsPrefix state its properties |
| CStruct.Equals | python/cstruct/cstruct.py:70-73 | definition of `equals`; EqualsMeaning, ZipPrefix and CStructExample.HeaderEqualsMessage state what it answers |
| CStruct.ZipEqual | python/cstruct/cstruct.py:73 | definition of `all(... for ... in zip(...))`, stopping at the shorter field list; ZipPrefix and EqualsMeaning state it as a comparison over this object's fields |
| CStruct.ValueOf | python/cstruct/cstruct.py:73 | definition of ctypes `.value`: a `c_char` array's bytes up to the first NUL, a scalar's native bytes; EqualsMeaning states equality in its terms |
| CStruct.CString | python/cstruct/cstruct.py:73 | definition of a `c_char` array's `.value`: the bytes before the first NUL; ValueOf uses it |
| CStruct.Iter | python/cstruct/cstruct.py:75-76 | definition of `__iter__`: the field values in declaration order; Construct states that it gives back the constructor's arguments |
| CStruct.FromBytes | python/cstruct/cstruct.py:38-51 | the method that checks the length and reads the fields one after another returns exactly `CStruct.Decode` |
| CStruct.ReadFields | python/cstruct/cstruct.py:46-49 | the stream loop that reads `sizeof(field)` bytes per field, reversed for scalars, yields the decoded field values |
| CStruct.ReadNext | python/cstruct/cstruct.py:49 | one `stream.read(sizeof(field))`: the cursor advances by the field's width within the data, and the block read is that slice, oriented |
| CStruct.ToBytes | python/cstruct/cstruct.py:27-36 | the loop that appends one oriented block per field and joins them computes the encoding function |
| CStruct.SizeAppend | python/cstruct/cstruct.py:18-20 | the size of a layout is additive over concatenation of field lists |
| CStruct.FieldsPrefix | python/cstruct/cstruct.py:18-20 | a subclass's fields start with all of its base class's fields, and its size is at least the base's size |
| CStruct.EncodeLength | python/cstruct/cstruct.py:27-36 | the encoding is exactly `size()` bytes long |
| CStruct.EncodeAt | python/cstruct/cstruct.py:27-36 | field i occupies the bytes between the sizes of the first i and the first i+1 fields, and holds that field's oriented value |
| CStruct.EncodeAppend | python/cstruct/cstruct.py:27-36 | encoding a concatenated layout is the concatenation of the encodings |
| CStruct.EndianRule | python/cstruct/cstruct.py:10-12 | with `ENDIAN.BIG` (step 1) the output is the fields' native bytes concatenated as stored; with `ENDIAN.LITTLE` (step -1) every scalar's native bytes are reversed and char arrays keep their order |
| CStruct.OrientedInvolution | python/cstruct/cstruct.py:33 | the `[::order]` reversal keeps the length and undoes itself |
| CStruct.ReverseReverse | python/cstruct/cstruct.py:34 | slicing with step -1 twice gives back the sequence |
| CStruct.DecodeFieldsFit | python/cstruct/cstruct.py:46-49 | every decoded field has its field's width |
| CStruct.DecodeEncode | python/cstruct/cstruct.py:27-51 | decoding the encoding of well-sized values gives the values back |
| CStruct.EncodeDecode | python/cstruct/cstruct.py:27-51 | encoding the decoding of correctly sized data gives the data back |
| CStruct.RoundTrip | python/cstruct/cstruct.py:27-51 | `from_bytes(to_bytes(x))` succeeds and equals `x`, for either byte order |
| CStruct.RoundTripBytes | python/cstruct/cstruct.py:27-51 | every byte string that `from_bytes` accepts re-encodes to itself |
| CStruct.PrefixDecode | python/cstruct/cstruct.py:38-51 | the first `Base.size()` bytes of a subclass instance's encoding decode as the base class, holding the inherited field values |
| CStruct.Default | python/cstruct/cstruct.py:53-56 | `default()` is a valid instance of the class whose every byte is zero |
| CStruct.Construct | python/cstruct/cstruct.py:75-76 | the dataclass constructor succeeds exactly when given one argument per field, and then iterating the instance yields the arguments back |
| CStruct.EqualsMeaning | python/cstruct/cstruct.py:70-73 | `equals` is `NotImplemented` exactly when the other object is not an instance of this class; otherwise it is true iff the `.value` of each of this object's fields (`c_char` arrays and scalar types) equals the other's field at the same position (zip stops at the shorter list) |
| CStruct.ZipPrefix | python/cstruct/cstruct.py:73 | over a field list that extends this one, the zipped comparison is the comparison of this object's fields with the other's first fields |
| CStruct.Reverse | python/cstruct/cstruct.py:34 | the reversal has the same length, with element i taken from position length-1-i |
| CStructExample.Header | python/cstruct/cstruct_example.py:9-13 | `Header` has three fields and size 25 + 8 + 4 = 37 |
| CStructExample.MessageTypeA | python/cstruct/cstruct_example.py:15-17 | `MessageTypeA` is a `Header`, its first three fields are `Header`'s, and its size is 47 |
| CStructExample.HeaderRoundTrip | python/cstruct/cstruct_example.py:24-29 | a header's 37 bytes decode back to the same header |
| CStructExample.MessageFromHeader | python/cstruct/cstruct_example.py:33 | `MessageTypeA(*header, data)` succeeds and copies the header fields then `data` |
| CStructExample.MessageRoundTrip | python/cstruct/cstruct_example.py:34-38 | a message's 47 bytes decode back to the same message |
| CStructExample.HeaderOfMessage | python/cstruct/cstruct_example.py:41 | `Header.from_bytes(message_bytes[:Header.size()])` yields the header the message was built from |
| CStructExample.HeaderEqualsMessage | python/cstruct/cstruct.py:70-73 | for the example classes `Header` and `MessageTypeA`, `header.equals(message)` is true while `message.equals(header)` is `NotImplemented` |
| Text.Split | python/networking/Multicast/multicast_bridge.py:17 | `str.split(sep)` always yields at least one component |
| Text.Take | python/networking/Multicast/multicast_bridge.py:17 | `[:n]` keeps the first `min(n, len)` elements unchanged |
| Text.SplitPartsFree | python/networking/Multicast/multicast_bridge.py:17 | no component of a split contains the separator |
| Text.JoinSplit | python/networking/Multicast/multicast_bridge.py:17 | joining the components of a split with the separator gives back the text |
| Text.SplitJoin | python/networking/Multicast/multicast_bridge.py:17 | splitting a join of separator-free components gives back the components |
| Text.SplitFree | python/networking/Multicast/multicast_bridge.py:17 | text without the separator splits into itself alone |
| Text.SplitCons | python/networking/Multicast/multicast_bridge.py:17 | a separator-free head followed by the separator splits off as the first component |
| IPv4.MulticastRange | python/networking/Multicast/multicast_thread.py:41 | membership of `224.0.0.0/4` holds exactly when the first octet is 224 to 239 |
| IPv4.Parse | python/networking/Multicast/multicast_thread.py:41 | definition of `ip_address` on IPv4 text: four dot-separated octets, or nothing where it raises; ParseFormat, FormatParse and SplitParsed state its meaning |
| IPv4.ParseOctet | python/networking/Multicast/multicast_thread.py:41 | one octet of `ip_address`: one to three ASCII digits, no leading zero, at most 255, and any accepted value is below 256; ParsedIsCanonical and RenderParses state its meaning |
| IPv4.InMulticastNetwork | python/networking/Multicast/multicast_thread.py:41 | definition of membership of `224.0.0.0/4` as a test of the top four bits; MulticastRange states it as a range of the first octet |
| IPv4.RenderParses | python/networking/Multicast/multicast_thread.py:41 | the canonical decimal text of an octet parses back to it and contains no dot |
| IPv4.ParsedIsCanonical | python/networking/Multicast/multicast_thread.py:41 | every octet text `ip_address` accepts is below 256 and is that value's canonical decimal text |
| IPv4.ParseFormat | python/networking/Multicast/multicast_thread.py:41 | a dotted quad formatted from four octets parses back to them |
| IPv4.FormatParse | python/networking/Multicast/multicast_thread.py:41 | every accepted address text is the dotted-quad formatting of what it parses to |
| IPv4.SplitParsed | python/networking/Multicast/multicast_thread.py:41 | an accepted address splits on dots into exactly the four octets' decimal texts |
| IPv4.RenderInjective | python/networking/Multicast/multicast_thread.py:41 | two octets have the same decimal text only if they are equal |
| MulticastThread.ConnectPlan | python/networking/Multicast/multicast_thread.py:35-59 | `_connect` fails on address text that is not an IPv4 dotted quad (exactly then, given an adapter `inet_aton` accepts); it always sets SO_REUSEADDR and a 1 s timeout. A multicast group (224–239) joins the group on the adapter, sends through the adapter and binds the group on Linux, the adapter on Windows and nothing elsewhere, because the fallback only constructs a `SystemError`. A unicast address binds the adapter and joins nothing |
| MulticastThread.PlatformBind | python/networking/Multicast/multicast_thread.py:45-48 | definition of the platform dictionary: Linux binds the group address, Windows the adapter, any other system nothing; ConnectPlan's contract states it per platform |
| MulticastThread.MulticastThread.constructor | python/networking/Multicast/multicast_thread.py:13-30 | a new endpoint keeps its settings, is not running, and has an empty queue, no observers and no socket |
| MulticastThread.MulticastThread.Connect | python/networking/Multicast/multicast_thread.py:32-33 | `connect()` sets the socket up on the receive port, as `_connect` plans |
| MulticastThread.FillKeepsOldest | python/networking/Multicast/multicast_thread.py:23 | with no consumer, arrivals are queued oldest first until 100 are held; exactly the later ones are dropped, and the queue never exceeds 100 |
| MulticastThread.Put | python/networking/Multicast/multicast_thread.py:74 | definition of one `queue.put` with no consumer running: append when fewer than 100 are held, else drop; FillKeepsOldest states what a run of puts keeps |
| MulticastThread.Fill | python/networking/Multicast/multicast_thread.py:70-78 | definition of the puts of the receive loop, one per arrival; FillKeepsOldest states what it keeps and drops, and Run's contract is stated with it |
| MulticastThread.MulticastThread.Run | python/networking/Multicast/multicast_thread.py:61-80 | the receive loop keeps the queue bound and queues exactly what `Fill` gives for the datagrams before the first stop. A timeout changes nothing. The loop runs until a stop, then closes the socket |
| MulticastThread.FanoutAt | python/networking/Multicast/multicast_thread.py:82-85 | dispatch calls observer j with item i as call number i·(observers)+j: items oldest first, observers in registration order, each exactly once |
| MulticastThread.FanoutLength | python/networking/Multicast/multicast_thread.py:109-110 | dispatching n items to m observers makes exactly n·m calls |
| MulticastThread.Deliveries | python/networking/Multicast/multicast_thread.py:110 | definition of the calls of one `signal(data)`: every observer in list order; Signal is proved to make exactly these calls |
| MulticastThread.Fanout | python/networking/Multicast/multicast_thread.py:82-85 | definition of the calls of dispatching several items one after the other; FanoutAt and FanoutLength state its order and count |
| MulticastThread.ReceiveThenDispatch | python/networking/Multicast/multicast_thread.py:74 | up to 100 datagrams received while dispatch is stalled are all dispatched later, unchanged and in arrival order |
| MulticastThread.MulticastThread.SignalThread | python/networking/Multicast/multicast_thread.py:82-85 | while running, the dispatch loop empties the queue and makes the fan-out calls for its items in order; when not running it does nothing |
| MulticastThread.MulticastThread.Signal | python/networking/Multicast/multicast_thread.py:109-110 | `signal(data)` calls every observer once with `data`, in list order |
| MulticastThread.MulticastThread.SendData | python/networking/Multicast/multicast_thread.py:87-95 | on an open socket `send_data` sends exactly one datagram, to `(address, sport)`, with the message unchanged; on a socket that `run` has closed (line 80) it fails with the `OSError` of `sendto` and sends nothing |
| MulticastThread.MulticastThread.Stop | python/networking/Multicast/multicast_thread.py:105-107 | `stop()` clears the running flag |
| MulticastThread.MulticastThread.AddObserver | python/networking/Multicast/multicast_thread.py:24 | appending to the public `observers` list puts the new observer after those already registered |
| MulticastThread.StopsExtend | python/networking/Multicast/multicast_thread.py:70 | a schedule has requested a stop after one more event iff it had before or that event is the request |
| MulticastBridge.FilteredSend | python/networking/Multicast/multicast_bridge.py:11-20 | the relay sends nothing, or sends the payload unchanged to the destination exactly once. It sends nothing iff the origin equals the bound interface or the origin's first two dot components equal the destination adapter's |
| MulticastBridge.NetworkPrefix | python/networking/Multicast/multicast_bridge.py:17 | definition of `address.split('.')[:2]`; PrefixComparesOctets and PrefixOfShortText state what it compares |
| MulticastBridge.Relayed | python/networking/Multicast/multicast_bridge.py:22-23 | definition of `signal` (multicast_thread.py:110) applied to the registered relays: each relay called once, in list order, with its `FilteredSend` result; OneWayBridge's contract states what it sends for the bridge |
| MulticastBridge.FilteredSendAsWritten | python/networking/Multicast/multicast_bridge.py:11-20 | definition of `filtered_send` as written, unpacking `interface`; AsWrittenRaises, AsWrittenExample and AsWrittenSelfCheckInert state how it behaves |
| MulticastBridge.AsWrittenRaises | python/networking/Multicast/multicast_bridge.py:12 | as written, unpacking `interface` raises for every dotted-quad interface, whatever datagram arrives |
| MulticastBridge.AsWrittenExample | python/networking/Multicast/multicast_bridge.py:12-15 | with interface `10.0.0.5` the written code raises, while the corrected relay drops the bridge's own datagram from `10.0.0.5` |
| MulticastBridge.AsWrittenSelfCheckInert | python/networking/Multicast/multicast_bridge.py:12-14 | even where the unpacking succeeds (a two-character interface), the written self check never drops and the datagram's origin is never read; only the prefix of the interface's first character decides |
| MulticastBridge.PrefixComparesOctets | python/networking/Multicast/multicast_bridge.py:17 | on dotted-quad addresses the prefix check holds exactly when the first two octets are equal |
| MulticastBridge.PrefixOfShortText | python/networking/Multicast/multicast_bridge.py:17 | on text without dots the prefix is that whole text, as slicing a shorter list gives |
| MulticastBridge.OneWayBridge | python/networking/Multicast/multicast_bridge.py:6-23 | the input endpoint is observed by a relay to the output endpoint filtered on the input interface, and the output endpoint by the mirror image. So a datagram received on the input side is sent once, unchanged, to the output unless it comes from the input interface or the output adapter's network, and nothing goes back to the input; the output side mirrors this |
| MulticastBridge.NoPingPong | python/networking/Multicast/multicast_bridge.py:14-15 | a datagram arriving on a side from that side's own interface is never relayed |

## Left out

- Sockets, threads, locks and the clock are not modelled. The socket is a record of how it was set up and whether it is closed. `send_data` appends to a list of sent datagrams. Observers are identities whose calls are recorded.
- The concurrency between the receive and dispatch threads: the two loops are modelled one after the other. A queue that a running dispatcher drains concurrently is not modelled, and neither is the 0.1 s wait of `queue.put`. A put finding the queue full drops at once.
- MulticastThread.MulticastThread.Run: the "queue full" log line is not modelled, and `recvfrom`'s 2^20-byte buffer limit is not modelled because payloads are unbounded.
- MulticastThread.MulticastThread.Signal: observers never fail here. In the source, an observer that raises stops the comprehension at multicast_thread.py:110, and later observers are not called.
- MulticastThread.MulticastThread.SignalThread: an exception from an observer is not modelled. In the source it escapes `signal_thread` (lines 83-85 have no `try`) and the dispatch thread ends. Nothing is dispatched after that, the queue fills to 100, and `run` drops every later arrival. With the relay as written (multicast_bridge.py:12), every relay call raises this way.
- MulticastThread.MulticastThread.SignalThread: the blocking `queue.get()` on an empty queue is modelled as leaving the loop. The daemon thread and its shutdown hazard are concurrency concerns.
- MulticastThread.MulticastThread.SendData: the 0.1 s pacing sleep and the `self.t` timestamp are not modelled, because the clock is outside the model. The send lock is not modelled either.
- `start`, `join`, `__enter__` and `__exit__`: thread lifecycle only.
- MulticastThread.ConnectPlan: the network adapter is taken to be text that `socket.inet_aton` accepts, such as a dotted-quad address. The `OSError` that `inet_aton` raises at multicast_thread.py:51-52 for other adapter text (for example `eth0`) is not modelled. Neither is an error from `bind` on an address the host does not have.
- `ipaddress` accepts IPv6 text too. The model parses only IPv4 dotted quads and treats any other text as the `ValueError` path. The byte conversions of `inet_aton` are left out.
- CStruct: `__setattr__` coercion of plain Python values into ctypes is left out. Field values are held as their native bytes, so `Construct` requires each argument to already have its field's width.
- CStruct.EqualsMeaning: a scalar's `.value` is compared by its bytes. So float fields (`c_double`) where NaN differs from itself or +0 equals -0, and `c_bool` fields where every non-zero byte is `True`, are not captured. Field types other than `c_char` arrays and scalars are not modelled: arrays of other element types have no `.value`, so `equals` raises on them, and a `c_wchar` array's `.value` stops at its first NUL character.
- CStruct: `__str__`, `line_log` and the text of the `from_bytes` error message are not modelled (formatting only). A subclass that redeclares a base field name is not modelled either.
- CStruct: the host byte order is not modelled. `Little` and `Big` are only the -1 and 1 slice steps of cstruct.py:10-12, 33 and 48, applied to a field's native bytes.
- `MulticastListener`, its `add_observer` and its `send` are not defined in multicast_bridge.py or multicast_thread.py. The model takes a listener to be its settings, and a relay's call to be given the payload and the sender's address (`server`). Note that `signal` in multicast_thread.py passes only the payload.
- The bridge's endless sleep loop, the `KeyboardInterrupt` handling and the argparse command line are not modelled. multicast_tool.py is not part of this model.

## Findings

| source | as written | input that shows it | evidently intended | confidence | as-written member | corrected member |
|---|---|---|---|---|---|---|
| python/networking/Multicast/multicast_bridge.py:12 | `address, port = interface` unpacks the characters of the bound interface text, so every interface whose text is not exactly two characters long raises, and `server` is never read | interface `10.0.0.5` and any datagram | `address, port = server`: the origin of the datagram is compared with the interface and the adapter's network | not executed | MulticastBridge.FilteredSendAsWritten | MulticastBridge.FilteredSend |
