/**
 The node's network settings: the multicast group it joins and publishes
 to, the UDP port, and the multicast time-to-live.
 */
module Settings {
  import opened CStrings

  datatype Config = Config(group: seq<byte>, port: nat, ttl: nat)

  /** An IPv4 address, a 16-bit port and an 8-bit TTL. */
  predicate ValidConfig(c: Config)
  {
    |c.group| == 4 && c.port < 0x1_0000 && c.ttl < 0x100
  }

  const DEFAULT_GROUP: seq<byte> := [224, 0, 1, 80]
  const DEFAULT_PORT: nat := 1880
  const DEFAULT_TTL: nat := 1

  /** The constructor's default arguments. */
  function DefaultConfig(): Config
  {
    Config(DEFAULT_GROUP, DEFAULT_PORT, DEFAULT_TTL)
  }

  /** Class D: the IPv4 multicast range 224.0.0.0/4. */
  predicate IsMulticast(group: seq<byte>)
  {
    |group| == 4 && 224 <= group[0] <= 239
  }

  /** The defaults name a multicast group, with a TTL of one so that frames
      stay on the local network. */
  lemma DefaultConfigIsLocalMulticast()
    ensures ValidConfig(DefaultConfig())
    ensures IsMulticast(DefaultConfig().group)
    ensures DefaultConfig().ttl == 1
  {
  }
}

/**
 Publishing: what the node asks of its UDP socket. A `Publish` handle
 stands for one begun packet; sending it, or destroying it, ends the packet
 at most once, and moving it hands the obligation to the new handle.
 */
module Publish {
  import opened CStrings
  import opened Frame
  import opened Settings

  /** A call on the UDP socket. */
  datatype Event = BeginPacket(group: seq<byte>, port: nat, ttl: nat) | Write(bytes: seq<byte>) | EndPacket

  /** One single-byte `write` call per octet. */
  function ByteWrites(b: seq<byte>): seq<Event>
    decreases |b|
  {
    if |b| == 0 then [] else [Write([b[0]])] + ByteWrites(b[1..])
  }

  /** The octets handed to the socket by a run of calls. */
  function Written(events: seq<Event>): seq<byte>
    decreases |events|
  {
    if |events| == 0 then []
    else (if events[0].Write? then events[0].bytes else []) + Written(events[1..])
  }

  /** How many times a run of calls ends a packet. */
  function Ends(events: seq<Event>): nat
    decreases |events|
  {
    if |events| == 0 then 0
    else (if events[0] == EndPacket then 1 else 0) + Ends(events[1..])
  }

  /** The datagrams a run of calls puts on the wire, under the socket's
      contract: beginning a packet starts an empty buffer, a write appends
      to it while a packet is open and ending a packet sends the buffer
      once. This describes the socket, not the node. */
  function SentFrom(events: seq<Event>, open: bool, buffer: seq<byte>): seq<seq<byte>>
    decreases |events|
  {
    if |events| == 0 then []
    else
      match events[0]
      case BeginPacket(_, _, _) => SentFrom(events[1..], true, [])
      case Write(b) => SentFrom(events[1..], open, if open then buffer + b else buffer)
      case EndPacket => (if open then [buffer] else []) + SentFrom(events[1..], false, [])
  }

  function Sent(events: seq<Event>): seq<seq<byte>>
  {
    SentFrom(events, false, [])
  }

  lemma {:induction false} WrittenAppend(a: seq<Event>, b: seq<Event>)
    ensures Written(a + b) == Written(a) + Written(b)
    decreases |a|
  {
    if |a| > 0 {
      assert (a + b)[1..] == a[1..] + b;
      WrittenAppend(a[1..], b);
    } else {
      assert a + b == b;
    }
  }

  lemma {:induction false} EndsAppend(a: seq<Event>, b: seq<Event>)
    ensures Ends(a + b) == Ends(a) + Ends(b)
    decreases |a|
  {
    if |a| > 0 {
      assert (a + b)[1..] == a[1..] + b;
      EndsAppend(a[1..], b);
    } else {
      assert a + b == b;
    }
  }

  /** Writing octet by octet hands over exactly those octets and ends no
      packet. */
  lemma {:induction false} ByteWritesWrite(b: seq<byte>)
    ensures Written(ByteWrites(b)) == b
    ensures Ends(ByteWrites(b)) == 0
    ensures forall i :: 0 <= i < |ByteWrites(b)| ==> ByteWrites(b)[i].Write?
    decreases |b|
  {
    if |b| > 0 {
      var rest := ByteWrites(b[1..]);
      ByteWritesWrite(b[1..]);
      WrittenAppend([Write([b[0]])], rest);
      EndsAppend([Write([b[0]])], rest);
      assert forall i :: 0 < i < |ByteWrites(b)| ==> ByteWrites(b)[i] == rest[i - 1];
    }
  }

  /** A run of writes inside an open packet adds its octets to the buffer. */
  lemma {:induction false} SentThroughWrites(w: seq<Event>, buffer: seq<byte>, tail: seq<Event>)
    requires forall i :: 0 <= i < |w| ==> w[i].Write?
    ensures SentFrom(w + tail, true, buffer) == SentFrom(tail, true, buffer + Written(w))
    decreases |w|
  {
    if |w| == 0 {
      assert w + tail == tail;
      assert buffer + Written(w) == buffer;
    } else {
      assert (w + tail)[1..] == w[1..] + tail;
      SentThroughWrites(w[1..], buffer + w[0].bytes, tail);
      assert buffer + w[0].bytes + Written(w[1..]) == buffer + Written(w);
    }
  }

  /** What `begin_publish` asks of the socket: begin a multicast packet to
      the configured group, port and TTL, then write the magic byte and
      every topic character up to and including the NUL, one call each. */
  function HeaderEvents(cfg: Config, topic: seq<Char8>): seq<Event>
  {
    [BeginPacket(cfg.group, cfg.port, cfg.ttl)] + ByteWrites(Header(topic))
  }

  /** The life of a `Publish` handle: alive with or without a send still
      pending, or destroyed. */
  datatype Slot = Live(sendPending: bool) | Destroyed

  /** Every handle created so far, and the socket calls made so far. */
  datatype Wire = Wire(slots: seq<Slot>, events: seq<Event>)

  /** `begin_publish`: writes the header and returns a new handle with a
      send pending. */
  function BeginPublish(w: Wire, cfg: Config, topic: seq<Char8>): Wire
  {
    Wire(w.slots + [Live(true)], w.events + HeaderEvents(cfg, topic))
  }

  /** `Publish::write`: forwards the octets to the socket, whether or not a
      send is still pending. */
  function HandleWrite(w: Wire, k: nat, bytes: seq<byte>): Wire
  {
    if k < |w.slots| && w.slots[k].Live? then Wire(w.slots, w.events + [Write(bytes)]) else w
  }

  /** `Publish::send`: ends the packet if a send is pending, then clears the
      flag. */
  function Send(w: Wire, k: nat): Wire
  {
    if k < |w.slots| && w.slots[k] == Live(true) then
      Wire(w.slots[k := Live(false)], w.events + [EndPacket])
    else w
  }

  /** The move constructor: the new handle takes over the pending flag and
      the old one keeps none. */
  function MoveFrom(w: Wire, k: nat): Wire
  {
    if k < |w.slots| && w.slots[k].Live? then
      Wire(w.slots[k := Live(false)] + [w.slots[k]], w.events)
    else w
  }

  /** The destructor: sends, then the handle is gone. */
  function Destroy(w: Wire, k: nat): Wire
  {
    var s := Send(w, k);
    if k < |s.slots| && s.slots[k].Live? then Wire(s.slots[k := Destroyed], s.events) else s
  }

  /** One thing a program can do with handles; handles are numbered in the
      order they were created. */
  datatype Op =
    | BeginOp(topic: seq<Char8>)
    | WriteOp(handle: nat, bytes: seq<byte>)
    | SendOp(handle: nat)
    | MoveOp(handle: nat)
    | DestroyOp(handle: nat)

  function Step(w: Wire, cfg: Config, op: Op): Wire
  {
    match op
    case BeginOp(topic) => BeginPublish(w, cfg, topic)
    case WriteOp(k, bytes) => HandleWrite(w, k, bytes)
    case SendOp(k) => Send(w, k)
    case MoveOp(k) => MoveFrom(w, k)
    case DestroyOp(k) => Destroy(w, k)
  }

  function Run(w: Wire, cfg: Config, ops: seq<Op>): Wire
    decreases |ops|
  {
    if |ops| == 0 then w else Run(Step(w, cfg, ops[0]), cfg, ops[1..])
  }

  /** How many handles still owe a send. */
  function Pending(slots: seq<Slot>): nat
    decreases |slots|
  {
    if |slots| == 0 then 0
    else (if slots[0] == Live(true) then 1 else 0) + Pending(slots[1..])
  }

  /** How many packets a run of operations begins. */
  function Begins(ops: seq<Op>): nat
    decreases |ops|
  {
    if |ops| == 0 then 0 else (if ops[0].BeginOp? then 1 else 0) + Begins(ops[1..])
  }

  lemma {:induction false} PendingAppend(a: seq<Slot>, b: seq<Slot>)
    ensures Pending(a + b) == Pending(a) + Pending(b)
    decreases |a|
  {
    if |a| > 0 {
      assert (a + b)[1..] == a[1..] + b;
      PendingAppend(a[1..], b);
    } else {
      assert a + b == b;
    }
  }

  lemma {:induction false} PendingUpdate(slots: seq<Slot>, k: nat, x: Slot)
    requires k < |slots|
    ensures Pending(slots[k := x]) + (if slots[k] == Live(true) then 1 else 0) ==
      Pending(slots) + (if x == Live(true) then 1 else 0)
    decreases |slots|
  {
    if k > 0 {
      assert slots[k := x][1..] == slots[1..][k - 1 := x];
      PendingUpdate(slots[1..], k - 1, x);
    }
  }

  /** Every operation keeps the balance between packets ended and sends
      still owed; only beginning a packet adds one to it. */
  lemma StepBalance(w: Wire, cfg: Config, op: Op)
    ensures Ends(Step(w, cfg, op).events) + Pending(Step(w, cfg, op).slots) ==
      Ends(w.events) + Pending(w.slots) + (if op.BeginOp? then 1 else 0)
  {
    match op
    case BeginOp(topic) =>
      EndsAppend(w.events, HeaderEvents(cfg, topic));
      EndsAppend([BeginPacket(cfg.group, cfg.port, cfg.ttl)], ByteWrites(Header(topic)));
      ByteWritesWrite(Header(topic));
      PendingAppend(w.slots, [Live(true)]);
    case WriteOp(k, bytes) =>
      EndsAppend(w.events, [Write(bytes)]);
    case SendOp(k) =>
      SendBalance(w, k);
    case MoveOp(k) =>
      if k < |w.slots| && w.slots[k].Live? {
        PendingUpdate(w.slots, k, Live(false));
        PendingAppend(w.slots[k := Live(false)], [w.slots[k]]);
      }
    case DestroyOp(k) =>
      SendBalance(w, k);
      var s := Send(w, k);
      if k < |s.slots| && s.slots[k].Live? {
        PendingUpdate(s.slots, k, Destroyed);
      }
  }

  lemma SendBalance(w: Wire, k: nat)
    ensures Ends(Send(w, k).events) + Pending(Send(w, k).slots) == Ends(w.events) + Pending(w.slots)
  {
    if k < |w.slots| && w.slots[k] == Live(true) {
      EndsAppend(w.events, [EndPacket]);
      PendingUpdate(w.slots, k, Live(false));
    }
  }

  /** Over any program, the packets ended plus the sends still owed equal
      the packets begun: once every handle is destroyed, each begun packet
      has been ended exactly once. */
  lemma {:induction false} RunBalance(w: Wire, cfg: Config, ops: seq<Op>)
    ensures Ends(Run(w, cfg, ops).events) + Pending(Run(w, cfg, ops).slots) ==
      Ends(w.events) + Pending(w.slots) + Begins(ops)
    decreases |ops|
  {
    if |ops| > 0 {
      StepBalance(w, cfg, ops[0]);
      RunBalance(Step(w, cfg, ops[0]), cfg, ops[1..]);
    }
  }

  lemma {:induction false} NoneLivePendsNothing(slots: seq<Slot>)
    requires forall i :: 0 <= i < |slots| ==> slots[i] == Destroyed
    ensures Pending(slots) == 0
    decreases |slots|
  {
    if |slots| > 0 {
      NoneLivePendsNothing(slots[1..]);
    }
  }

  /** Starting from no handles and no calls, a program that has destroyed
      every handle it created has ended exactly as many packets as it
      began. */
  lemma EveryPacketEndedOnce(cfg: Config, ops: seq<Op>)
    requires forall i :: 0 <= i < |Run(Wire([], []), cfg, ops).slots| ==>
      Run(Wire([], []), cfg, ops).slots[i] == Destroyed
    ensures Ends(Run(Wire([], []), cfg, ops).events) == Begins(ops)
  {
    RunBalance(Wire([], []), cfg, ops);
    NoneLivePendsNothing(Run(Wire([], []), cfg, ops).slots);
  }

  /** `send` is idempotent, and the destructor of a handle that was sent
      makes no further call. */
  lemma SendIdempotent(w: Wire, k: nat)
    ensures Send(Send(w, k), k) == Send(w, k)
    ensures Destroy(Send(w, k), k).events == Send(w, k).events
  {
  }

  /** Moving a live handle leaves the old one owing nothing and the new one
      owing what the old one did; destroying the moved-from handle ends no
      packet. */
  lemma MoveTransfersPending(w: Wire, k: nat)
    requires k < |w.slots| && w.slots[k].Live?
    ensures MoveFrom(w, k).slots[k] == Live(false)
    ensures MoveFrom(w, k).slots[|w.slots|] == w.slots[k]
    ensures Pending(MoveFrom(w, k).slots) == Pending(w.slots)
    ensures Destroy(MoveFrom(w, k), k).events == w.events
  {
    PendingUpdate(w.slots, k, Live(false));
    PendingAppend(w.slots[k := Live(false)], [w.slots[k]]);
  }

  /** `publish(topic, payload, size)`: begin, write the payload in one call,
      send, and let the handle go out of scope. */
  function PublishEvents(cfg: Config, topic: seq<Char8>, payload: seq<byte>): seq<Event>
  {
    Run(Wire([], []), cfg, [BeginOp(topic), WriteOp(0, payload), SendOp(0), DestroyOp(0)]).events
  }

  /** The templated `publish(topic, value)`: the handle prints `value`, which
      the printing code hands over as a run of writes (`chunks`). */
  function PrintOps(chunks: seq<seq<byte>>): seq<Op>
    decreases |chunks|
  {
    if |chunks| == 0 then [] else [WriteOp(0, chunks[0])] + PrintOps(chunks[1..])
  }

  function PublishPrintedEvents(cfg: Config, topic: seq<Char8>, chunks: seq<seq<byte>>): seq<Event>
  {
    Run(Wire([], []), cfg, [BeginOp(topic)] + PrintOps(chunks) + [SendOp(0), DestroyOp(0)]).events
  }

  /** The octets of a run of writes, end to end. */
  function Flatten(chunks: seq<seq<byte>>): seq<byte>
    decreases |chunks|
  {
    if |chunks| == 0 then [] else chunks[0] + Flatten(chunks[1..])
  }

  function ChunkWrites(chunks: seq<seq<byte>>): seq<Event>
    decreases |chunks|
  {
    if |chunks| == 0 then [] else [Write(chunks[0])] + ChunkWrites(chunks[1..])
  }

  lemma {:induction false} RunConcat(w: Wire, cfg: Config, a: seq<Op>, b: seq<Op>)
    ensures Run(w, cfg, a + b) == Run(Run(w, cfg, a), cfg, b)
    decreases |a|
  {
    if |a| > 0 {
      assert (a + b)[1..] == a[1..] + b;
      assert (a + b)[0] == a[0];
      RunConcat(Step(w, cfg, a[0]), cfg, a[1..], b);
    } else {
      assert a + b == b;
    }
  }

  /** Printing through a live handle forwards every chunk in order. */
  lemma {:induction false} RunPrint(w: Wire, cfg: Config, chunks: seq<seq<byte>>)
    requires 0 < |w.slots| && w.slots[0].Live?
    ensures Run(w, cfg, PrintOps(chunks)) == Wire(w.slots, w.events + ChunkWrites(chunks))
    decreases |chunks|
  {
    if |chunks| > 0 {
      var w1 := HandleWrite(w, 0, chunks[0]);
      assert [WriteOp(0, chunks[0])] + PrintOps(chunks[1..]) == PrintOps(chunks);
      RunConcat(w, cfg, [WriteOp(0, chunks[0])], PrintOps(chunks[1..]));
      RunPrint(w1, cfg, chunks[1..]);
      assert w.events + [Write(chunks[0])] + ChunkWrites(chunks[1..]) == w.events + ChunkWrites(chunks);
    }
  }

  lemma {:induction false} ChunkWritesWrite(chunks: seq<seq<byte>>)
    ensures Written(ChunkWrites(chunks)) == Flatten(chunks)
    ensures Ends(ChunkWrites(chunks)) == 0
    ensures forall i :: 0 <= i < |ChunkWrites(chunks)| ==> ChunkWrites(chunks)[i].Write?
    decreases |chunks|
  {
    if |chunks| > 0 {
      var rest := ChunkWrites(chunks[1..]);
      ChunkWritesWrite(chunks[1..]);
      WrittenAppend([Write(chunks[0])], rest);
      EndsAppend([Write(chunks[0])], rest);
      assert forall i :: 0 < i < |ChunkWrites(chunks)| ==> ChunkWrites(chunks)[i] == rest[i - 1];
    }
  }

  /** The printed publish makes the header calls, one write per chunk and
      a single end of packet. */
  lemma PublishPrintedLayout(cfg: Config, topic: seq<Char8>, chunks: seq<seq<byte>>)
    ensures PublishPrintedEvents(cfg, topic, chunks) ==
      HeaderEvents(cfg, topic) + ChunkWrites(chunks) + [EndPacket]
  {
    var w0 := Wire([], []);
    var w1 := BeginPublish(w0, cfg, topic);
    assert w1.slots == [Live(true)];
    assert w1.events == HeaderEvents(cfg, topic);
    RunConcat(w0, cfg, [BeginOp(topic)] + PrintOps(chunks), [SendOp(0), DestroyOp(0)]);
    RunConcat(w0, cfg, [BeginOp(topic)], PrintOps(chunks));
    RunPrint(w1, cfg, chunks);
  }

  /** `publish(topic, payload, size)` makes the header calls, one write of
      the payload and a single end of packet. */
  lemma PublishLayout(cfg: Config, topic: seq<Char8>, payload: seq<byte>)
    ensures PublishEvents(cfg, topic, payload) ==
      HeaderEvents(cfg, topic) + [Write(payload), EndPacket]
  {
    var w0 := Wire([], []);
    var w1 := BeginPublish(w0, cfg, topic);
    assert w1 == Wire([Live(true)], HeaderEvents(cfg, topic));
    var w2 := HandleWrite(w1, 0, payload);
    assert w2 == Wire([Live(true)], HeaderEvents(cfg, topic) + [Write(payload)]);
    var w3 := Send(w2, 0);
    assert w3 == Wire([Live(false)], HeaderEvents(cfg, topic) + [Write(payload)] + [EndPacket]);
    var w4 := Destroy(w3, 0);
    assert w4.events == w3.events;
    var ops := [BeginOp(topic), WriteOp(0, payload), SendOp(0), DestroyOp(0)];
    assert Run(w0, cfg, ops) == Run(w1, cfg, ops[1..]);
    assert Run(w1, cfg, ops[1..]) == Run(w2, cfg, ops[2..]) by {
      assert ops[1..][0] == ops[1] && ops[1..][1..] == ops[2..];
    }
    assert Run(w2, cfg, ops[2..]) == Run(w3, cfg, ops[3..]) by {
      assert ops[2..][0] == ops[2] && ops[2..][1..] == ops[3..];
    }
    assert Run(w3, cfg, ops[3..]) == w4 by {
      assert ops[3..][0] == ops[3] && ops[3..][1..] == [];
    }
    assert HeaderEvents(cfg, topic) + [Write(payload)] + [EndPacket] ==
      HeaderEvents(cfg, topic) + [Write(payload), EndPacket];
  }

  lemma SentAfterBegin(begin: Event, rest: seq<Event>)
    requires begin.BeginPacket?
    ensures Sent([begin] + rest) == SentFrom(rest, true, [])
  {
    assert ([begin] + rest)[1..] == rest;
  }

  lemma SentAtEnd(buffer: seq<byte>)
    ensures SentFrom([EndPacket], true, buffer) == [buffer]
  {
    assert [EndPacket][1..] == [];
  }

  /** Under the socket's contract, a begun packet followed by writes and
      one end of packet sends a single datagram of the octets written. */
  lemma PacketSent(begin: Event, hw: seq<Event>, body: seq<Event>)
    requires begin.BeginPacket?
    requires forall i :: 0 <= i < |hw| ==> hw[i].Write?
    requires forall i :: 0 <= i < |body| ==> body[i].Write?
    ensures Sent([begin] + hw + body + [EndPacket]) == [Written(hw) + Written(body)]
  {
    var tail := body + [EndPacket];
    assert [begin] + hw + body + [EndPacket] == [begin] + (hw + tail);
    SentAfterBegin(begin, hw + tail);
    SentThroughWrites(hw, [], tail);
    assert [] + Written(hw) == Written(hw);
    SentThroughWrites(body, Written(hw), [EndPacket]);
    SentAtEnd(Written(hw) + Written(body));
  }

  /** The datagram a run of header calls, writes and one end of packet puts
      on the wire. */
  lemma FrameSent(cfg: Config, topic: seq<Char8>, body: seq<Event>)
    requires forall i :: 0 <= i < |body| ==> body[i].Write?
    ensures Sent(HeaderEvents(cfg, topic) + body + [EndPacket]) == [Header(topic) + Written(body)]
  {
    ByteWritesWrite(Header(topic));
    PacketSent(BeginPacket(cfg.group, cfg.port, cfg.ttl), ByteWrites(Header(topic)), body);
  }

  /** The same run ends exactly one packet. */
  lemma FrameEndsOnce(cfg: Config, topic: seq<Char8>, body: seq<Event>)
    requires forall i :: 0 <= i < |body| ==> body[i].Write?
    ensures Ends(HeaderEvents(cfg, topic) + body + [EndPacket]) == 1
  {
    ByteWritesWrite(Header(topic));
    WritesEndNothing(body);
    EndsAppend([BeginPacket(cfg.group, cfg.port, cfg.ttl)], ByteWrites(Header(topic)));
    EndsAppend(HeaderEvents(cfg, topic), body);
    EndsAppend(HeaderEvents(cfg, topic) + body, [EndPacket]);
  }

  lemma {:induction false} WritesEndNothing(body: seq<Event>)
    requires forall i :: 0 <= i < |body| ==> body[i].Write?
    ensures Ends(body) == 0
    decreases |body|
  {
    if |body| > 0 {
      WritesEndNothing(body[1..]);
    }
  }

  /** A publish puts exactly one datagram on the wire, and it is the
      frame encoding of the topic and payload; the printed variant sends
      the frame of the printed octets. */
  lemma PublishSendsFrame(cfg: Config, topic: seq<Char8>, payload: seq<byte>, chunks: seq<seq<byte>>)
    ensures Sent(PublishEvents(cfg, topic, payload)) == [Encode(topic, payload)]
    ensures Ends(PublishEvents(cfg, topic, payload)) == 1
    ensures Sent(PublishPrintedEvents(cfg, topic, chunks)) == [Encode(topic, Flatten(chunks))]
    ensures Ends(PublishPrintedEvents(cfg, topic, chunks)) == 1
  {
    PublishLayout(cfg, topic, payload);
    assert HeaderEvents(cfg, topic) + [Write(payload), EndPacket] ==
      HeaderEvents(cfg, topic) + [Write(payload)] + [EndPacket];
    FrameSent(cfg, topic, [Write(payload)]);
    FrameEndsOnce(cfg, topic, [Write(payload)]);
    assert Written([Write(payload)]) == payload;
    PublishPrintedLayout(cfg, topic, chunks);
    ChunkWritesWrite(chunks);
    FrameSent(cfg, topic, ChunkWrites(chunks));
    FrameEndsOnce(cfg, topic, ChunkWrites(chunks));
  }
}

/**
 src/picomq.h, the header-only version of the library, publishes without a
 handle: `write_header` begins the packet and writes the header, the payload
 follows, and the packet is ended at once.
 */
module DraftPublish {
  import opened CStrings
  import opened Frame
  import opened Settings
  import opened Publish

  /** The do-while of `write_header`: each topic character, the NUL
      included, in its own single-byte write. */
  function TopicWrites(topic: seq<Char8>): seq<Event>
    decreases |topic|
  {
    if Peek(topic) == '\0' then [Write([0])]
    else [Write([topic[0] as int])] + TopicWrites(topic[1..])
  }

  /** The draft's `write_header`: begin the packet, write the magic byte,
      then the topic. */
  function WriteHeader(cfg: Config, topic: seq<Char8>): seq<Event>
  {
    [BeginPacket(cfg.group, cfg.port, cfg.ttl), Write([80])] + TopicWrites(topic)
  }

  /** `publish(topic, payload, size)` of the draft. */
  function DraftPublishEvents(cfg: Config, topic: seq<Char8>, payload: seq<byte>): seq<Event>
  {
    WriteHeader(cfg, topic) + [Write(payload), EndPacket]
  }

  /** The draft's templated `publish`, printing straight to the socket. */
  function DraftPublishPrintedEvents(cfg: Config, topic: seq<Char8>, chunks: seq<seq<byte>>): seq<Event>
  {
    WriteHeader(cfg, topic) + ChunkWrites(chunks) + [EndPacket]
  }

  lemma {:induction false} TopicWritesAgree(topic: seq<Char8>)
    ensures TopicWrites(topic) == ByteWrites(TopicBytes(topic))
    decreases |topic|
  {
    if Peek(topic) == '\0' {
      assert TopicBytes(topic) == [0];
      assert ByteWrites([0]) == [Write([0])] + ByteWrites([]);
    } else {
      TopicWritesAgree(topic[1..]);
      var b := TopicBytes(topic);
      assert b == [topic[0] as int] + TopicBytes(topic[1..]);
      assert b[1..] == TopicBytes(topic[1..]);
    }
  }

  /** The draft and the handle-based version make the same socket calls,
      for both kinds of publish. */
  lemma DraftPublishAgrees(cfg: Config, topic: seq<Char8>, payload: seq<byte>, chunks: seq<seq<byte>>)
    ensures DraftPublishEvents(cfg, topic, payload) == PublishEvents(cfg, topic, payload)
    ensures DraftPublishPrintedEvents(cfg, topic, chunks) == PublishPrintedEvents(cfg, topic, chunks)
  {
    WriteHeaderAgrees(cfg, topic);
    PublishLayout(cfg, topic, payload);
    PublishPrintedLayout(cfg, topic, chunks);
  }

  /** `write_header` makes the calls `begin_publish` makes. */
  lemma WriteHeaderAgrees(cfg: Config, topic: seq<Char8>)
    ensures WriteHeader(cfg, topic) == HeaderEvents(cfg, topic)
  {
    ByteWritesCons(MAGIC, TopicBytes(topic));
    TopicWritesAgree(topic);
    var begin, writes := BeginPacket(cfg.group, cfg.port, cfg.ttl), TopicWrites(topic);
    assert [begin, Write([80])] + writes == [begin] + ([Write([80])] + writes);
  }

  lemma ByteWritesCons(x: byte, b: seq<byte>)
    ensures ByteWrites([x] + b) == [Write([x])] + ByteWrites(b)
  {
    assert ([x] + b)[1..] == b;
  }
}
