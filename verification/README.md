# PicoMQ in Dafny

PicoMQ is a small publish/subscribe layer for ESP32 and ESP8266 boards. It
has no broker. Every node joins one UDP multicast group. A message is one
datagram: the magic byte `80` (`'P'`), the topic, a NUL, then the payload.
Each node keeps an ordered map from topic filter to callback. A filter may
use the MQTT-style wildcards `+` (one level) and `#` (the rest of the topic).

This project models the node's logic as pure functions over sequences and
proves what that logic promises:

- **Topic matcher** (`Topic.Matches`, and the loop `Topic.TopicMatches`).
  Proved equal to a level-by-level reference reading of filters
  (`TopicLevels.LevelsMatch`) for NUL-free topics and for filters whose
  every level is `+`, `#` or free of wildcards. Filters that mix a wildcard
  into a longer level, such as `a+` or `a#/b`, are outside that result. The
  wildcard laws are also stated one by one. They need no level structure,
  so they also cover a filter such as `a+`.
- **Topic element accessor** (`Topic.ElementAt`, and the loop
  `Topic.GetTopicElement`). Proved to return the `index`-th level of the
  topic, or the empty string.
- **Frame codec**:
  - `Frame.Encode` is what `begin_publish` and `publish` write;
  - `Frame.Decode` is the validation block of `loop`;
  - a round trip in both directions;
  - the terminator check of the draft is proved equivalent. "The draft"
    means src/picomq.h, the header-only version of the library.
- **Subscription registry** (`Registry`). The `std::map` is modelled as its
  in-order contents: a strictly ascending sequence of entries.
  `Registry.AsMap` reads it back as a map. `Subscribe` and `Unsubscribe` are
  proved to act on that map.
- **Dispatch** (`Callbacks.Dispatch`). It calls every matching filter once,
  in ascending order, and no other filter.
- **Receive cycle** (`Receive.Loop`):
  - the socket is a sequence of polled datagrams;
  - at most 16 are handled;
  - the cycle stops at the first datagram it cannot use;
  - the output is the sequence of callback invocations.
- **Publish handle** (`Publish`). A pool of handles acts on a trace of socket
  calls: begin, write, send, move, destroy. The proofs show:
  - every begun packet is ended exactly once;
  - `send` is idempotent;
  - a move hands the pending send to the new handle.

  The draft's handle-less `publish` makes the same calls.

C strings are `seq<char>` read through `CStrings.Peek`, which yields NUL past
the end. A string with an embedded NUL therefore behaves as it does in C.
Octets are the `CStrings.byte` subset type. Filters, topics and characters
in frames are sequences of `CStrings.Char8`, characters below 256.

A datagram from the node itself makes `loop` return (src/PicoMQ.cpp:88-90);
it is not skipped. So an own echo, like a read error or a malformed frame,
ends the whole cycle, and later datagrams wait for the next call. The
datagram that stops the cycle counts as polled.

## Model

| member | source | states |
|---|---|---|
| `Topic.Matches` | src/PicoMQ.cpp:11-43 | The matcher, one call per loop iteration. At the filter's end it accepts only an exhausted topic. At `#` it accepts any non-empty remainder. At `+` it skips the topic's next `/`-free run. Any other character must equal the topic's. What this means is stated by the lemmas below. |
| `Topic.LevelEnd` | src/PicoMQ.cpp:28-30 | The `+` scan stays within the string and stops at a `/` or NUL, or at the end. |
| `Topic.LevelHasNoStop` | src/PicoMQ.cpp:28-30 | No character before the stop point is a `/` or NUL, so the scan stops at the first one. |
| `Topic.ScanLevel` | src/PicoMQ.cpp:28-30 | The scan loop over one level ends exactly `LevelEnd` characters after its start. |
| `Topic.TopicMatches` | src/PicoMQ.cpp:11-43 | The pointer-walking loop returns exactly `Matches(p, t)`. Termination: each iteration returns or advances the filter. |
| `TopicLaws.LiteralPrefix` | src/PicoMQ.cpp:34-41 | A wildcard-free, NUL-free filter prefix matches iff the topic starts with those characters, and then the rest of the filter must match the rest of the topic. |
| `TopicLaws.WildcardFreeMatchesIffEqual` | src/PicoMQ.cpp:14-17 | With no `+` or `#`, filter and topic match iff they are equal. So a filter ends a match only at the end of the topic: `"a/"` does not match `"a"`. |
| `TopicLaws.ExactTopicMatchesItself` | src/picomq.h:32-38 | Every wildcard-free topic matches itself. |
| `TopicLaws.MultiLevelAcceptsRest` | src/PicoMQ.cpp:19-24 | Filter `q#r`, with `q` literal, matches iff the topic starts with `q` and at least one character follows. `#` needs no `/` before it, ignores the rest of the filter, and rejects an exhausted topic. |
| `TopicLaws.SingleLevelSkipsLevel` | src/PicoMQ.cpp:26-32 | Filter `q+r`, with `q` literal, matches iff the topic starts with `q` and `r` matches what follows the next `/`-free run, which may be empty. |
| `TopicLaws.MatcherExamples` | src/picomq.h:12-38 | `a/+/c` matches `a/b/c` but not `a/b/x/c`. `a/+` matches `a/`. `a/#` matches `a/b/c` but not `a`. `a/` does not match `a`. `#` does not match the empty topic. |
| `TopicLevels.MatchesIffLevelsMatch` | src/picomq.h:9-41 | For NUL-free topics and filters whose levels are `+`, `#` or literal, the character walk agrees with the level reading. `+` is one level, `#` is the remaining levels of a non-empty remainder, and any other level must be equal. |
| `Topic.SkipLevels` | src/PicoMQ.cpp:46-50 | The skip loop stays within the topic. |
| `Topic.ElementAt` | src/PicoMQ.cpp:45-64 | The result contains no `/` and no NUL, and is the substring of the topic starting where the skip loop stopped. |
| `Topic.GetTopicElement` | src/picomq.h:43-62 | The two pointer loops return exactly `ElementAt(t, index)`. |
| `TopicLevels.ElementAtIsLevel` | src/PicoMQ.cpp:52-63 | For a NUL-free topic, the result is level `index` of the `/`-split topic. It is `""` when there are fewer levels. |
| `TopicLevels.ElementAtExamples` | src/PicoMQ.cpp:45-64 | `("a/b/c", 0)` gives `a`, `("a/b/c", 2)` gives `c`, `("a/b/c", 5)` gives `""`. |
| `TopicLevels.JoinSplit` | src/PicoMQ.cpp:57-59 | Joining the levels with `/` gives the topic back, and no level contains `/`. |
| `CStrings.CLen` | src/PicoMQ.cpp:119 | `strlen` over the buffer: a position with no zero before it, holding a zero unless it is the end. |
| `CStrings.CharsOfBytesOf` | src/PicoMQ.cpp:148 | Casting characters to octets and back loses nothing. |
| `Frame.TopicBytes` | src/PicoMQ.cpp:147-149 | The do-while writes octets ending in exactly one zero, with none before it. For a NUL-free topic these are the topic's characters and then the NUL. |
| `Frame.Header` | src/PicoMQ.cpp:146-149 | The header `begin_publish` writes: the magic byte 80, then the topic octets and their NUL. |
| `Frame.Encode` | src/PicoMQ.cpp:157-161 | The datagram `publish` sends: the header followed by the payload octets. |
| `Frame.Decode` | src/PicoMQ.cpp:103-127 | The validation block of `loop`. It rejects a length of 2 or less or of 1500 or more, then a first byte other than 80, then a topic with no NUL before the end. Otherwise the topic is the octets before the first NUL and the payload is everything after it. `Frame.DecodeChecks` states its contract. |
| `Frame.DecodeChecks` | src/PicoMQ.cpp:103-127 | Each check in order: length at most 2, length at least 1500, first byte not 80. Then: no terminator iff no zero occurs after the magic byte. A datagram is accepted iff 2 < length < 1500, its first byte is 80 and a zero follows it. On success: a NUL-free topic, its NUL at index topic length + 1, the payload is every byte after the NUL, and payload length = length − topic length − 2. |
| `FrameLaws.HeaderLayout` | src/PicoMQ.cpp:146-149 | The header is `80`, the topic's characters, then one NUL. That NUL is its only zero. |
| `FrameLaws.DecodeEncode` | src/PicoMQ.cpp:157-161 | Decoding what `publish` sends gives the topic and payload back when the topic has no NUL and 1 ≤ topic + payload < 1498. |
| `FrameLaws.EncodeDecodable` | src/PicoMQ.cpp:104-107 | A published frame decodes iff 1 ≤ topic + payload < 1498. Otherwise it is rejected as too short (both empty) or too long. |
| `FrameLaws.EncodeDecode` | src/PicoMQ.cpp:116-127 | Every accepted datagram is exactly the encoding of the topic and payload it decodes to. |
| `Frame.DraftDecode` | src/picomq.h:103-127 | The draft's validation block. The only difference from `Frame.Decode` is the terminator test `topic_len > packet_size - 2`, computed modulo 2^32. |
| `FrameLaws.DraftDecodeAgrees` | src/picomq.h:119-124 | The draft's `topic_len > packet_size - 2` check accepts and rejects exactly the datagrams the `topic_len + 2 > packet_size` check of src/PicoMQ.cpp does. The subtraction is modelled modulo 2^32, but it runs only once 2 < `packet_size` < 1500 is known, so no wrap-around can occur whatever the integer type of `packet_size`. |
| `FilterOrder.BelowTotal` | src/PicoMQ.h:72 | Key order is total on distinct strings. Irreflexivity, transitivity and asymmetry are proved beside it, so the order is strict. |
| `Registry.AsMapContents` | src/PicoMQ.h:72 | The map the registry stands for has exactly its filters as keys, each holding its own entry's callback. |
| `Registry.Subscribe` | src/PicoMQ.cpp:163-165 | The result is still strictly ordered. Its map is the old map with `filter` set to `callback`, and the filter set grows by `filter`. |
| `Registry.Unsubscribe` | src/PicoMQ.cpp:179-181 | The result is still strictly ordered. Its map is the old map without `filter`, and the filter set loses `filter`. |
| `Registry.MapDeterminesRegistry` | src/PicoMQ.h:72 | Two registries that stand for the same map are equal, so the ordered sequence is a faithful representation. |
| `Registry.SubscribeReplaces` | src/picomq.h:158-160 | Subscribing a filter a second time leaves the registry as if only the second subscription had been made. |
| `Registry.SubscribeCommutes` | src/PicoMQ.cpp:164 | Subscriptions to different filters give the same registry in either order. |
| `Registry.UnsubscribeUndoes` | src/picomq.h:174-176 | Unsubscribing an absent filter changes nothing. Unsubscribing a new subscription restores the registry. |
| `Callbacks.Dispatch` | src/PicoMQ.cpp:129-134 | The callback loop: walk the entries in key order, and invoke each one whose filter matches, with the topic and payload. |
| `Callbacks.DispatchInvokesMatching` | src/PicoMQ.cpp:130-134 | Every invocation is of a registered (filter, callback) whose filter matches, with the frame's topic and payload. The set of filters invoked equals the set of registered filters that match. |
| `Callbacks.DispatchAscending` | src/picomq.h:130-134 | The invoked filters strictly ascend in key order. |
| `Callbacks.DispatchExactlyMatching` | src/PicoMQ.cpp:129-134 | A filter is invoked iff it is a key of the registry map and matches the topic. The invocation uses that key's callback, and no filter is invoked twice. |
| `Callbacks.DispatchExample` | src/PicoMQ.cpp:131-132 | With `x/+` and `x/#` subscribed, `x/y` reaches `x/#` then `x/+`, once each, and `z` reaches neither. |
| `Receive.Receive` | src/PicoMQ.cpp:82-124 | One iteration's checks, in order: nothing pending, a datagram from the node itself, a failed read, then `Frame.Decode`. |
| `Receive.ReceiveChecks` | src/PicoMQ.cpp:82-124 | Each stop reason arises exactly in its own case, checked in order: nothing pending, own address, failed read, then the frame checks. A datagram is accepted iff it comes from another node and decodes, and then it is exactly the encoding of the message. |
| `Receive.Drain` | src/PicoMQ.cpp:80-136 | A cycle polls no more datagrams than its budget or its input holds, and polls none only when one of them is zero. |
| `Receive.DrainStopsOnlyAtRejected` | src/PicoMQ.cpp:84-124 | Every datagram before the last polled one was accepted. A cycle ends before its budget and input run out only at a rejected datagram. |
| `Receive.DrainDelivers` | src/PicoMQ.cpp:126-134 | The invocations equal the reference `Delivered` of the datagrams polled: each accepted datagram dispatched in turn. |
| `Receive.DrainLooksOnlyAhead` | src/PicoMQ.cpp:81-82 | Datagrams beyond the budget do not affect the outcome. |
| `Receive.Loop` | src/PicoMQ.cpp:80-136 | One `loop` call: a cycle with a budget of 16 datagrams. |
| `Receive.LoopBounded` | src/PicoMQ.cpp:81 | One `loop` call polls at most 16 datagrams and ignores everything after the sixteenth. |
| `Receive.DrainStopsAtRejected` | src/PicoMQ.cpp:84-124 | If datagram `j` is the first rejected one and lies within the budget, the cycle polls exactly `j + 1` datagrams and dispatches only those before `j`. |
| `Receive.LoopStopsAtRejected` | src/picomq.h:84-124 | The same for a `loop` call, for a rejection among the first 16 datagrams. |
| `Receive.PublishedFrameIsDelivered` | src/PicoMQ.cpp:88-134 | A frame from another node is dispatched exactly as `Dispatch` describes. The node's own copy reaches nobody. |
| `Receive.NothingPendingEndsCycle` | src/PicoMQ.cpp:84-86 | Once nothing is pending, later datagrams are left for the next call. |
| `Settings.DefaultConfig` | src/PicoMQ.h:15-16 | The constructor's default arguments: group 224.0.1.80, port 1880, TTL 1. |
| `Settings.DefaultConfigIsLocalMulticast` | src/PicoMQ.h:15-16 | The default group 224.0.1.80 is an IPv4 multicast address, port 1880 fits 16 bits, and the TTL is 1. |
| `Publish.HeaderEvents` | src/PicoMQ.cpp:138-149 | The socket calls of `begin_publish`: begin a multicast packet to the configured group, port and TTL, then one single-octet write each for 80, every topic character and the NUL. |
| `Publish.BeginPublish` | src/PicoMQ.cpp:138-151 | Appends the header calls to the trace and a new handle with a send pending. |
| `Publish.HandleWrite` | src/PicoMQ.cpp:193-197 | A live handle forwards the octets to the socket in one write. |
| `Publish.Send` | src/PicoMQ.cpp:199-204 | A handle with a send pending ends the packet and clears the flag. Otherwise nothing happens. |
| `Publish.MoveFrom` | src/PicoMQ.cpp:185-187 | A new handle takes the source's pending flag, and the source keeps none. No socket call is made. |
| `Publish.Destroy` | src/PicoMQ.cpp:189-191 | The destructor: `send`, then the handle is gone. |
| `Publish.StepBalance` | src/PicoMQ.h:39-41 | No handle operation changes packets ended plus sends owed, except `begin_publish`, which adds one. A pending send is never duplicated. |
| `Publish.RunBalance` | src/PicoMQ.cpp:183-204 | Over any run of handle operations, packets ended plus sends still owed equals packets begun. |
| `Publish.EveryPacketEndedOnce` | src/PicoMQ.cpp:189-191 | From a fresh node, once every handle has been destroyed, the number of `endPacket` calls equals the number of packets begun. |
| `Publish.SendIdempotent` | src/PicoMQ.cpp:199-204 | A second `send` does nothing. Destroying a handle after `send` makes no further call. |
| `Publish.MoveTransfersPending` | src/PicoMQ.cpp:185-187 | A move leaves the source owing nothing and the new handle owing what the source did. Total sends owed are unchanged, and destroying the source ends no packet. |
| `Publish.PublishEvents` | src/PicoMQ.cpp:157-161 | The socket calls of `publish(topic, payload, size)`, run from a fresh node: `begin_publish`, one write of the payload, `send`, then the handle's destructor. |
| `Publish.PublishPrintedEvents` | src/PicoMQ.h:29-33 | The socket calls of the templated `publish`: `begin_publish`, one write per chunk the printed value hands over, `send`, then the destructor. |
| `Publish.PublishLayout` | src/PicoMQ.cpp:157-161 | `publish(topic, payload, size)` makes, in order: begin packet, the header's single-byte writes, one payload write, one `endPacket`. Nothing else follows. |
| `Publish.PublishPrintedLayout` | src/PicoMQ.h:29-33 | The templated `publish` makes the header calls, one write per printed chunk and a single `endPacket`. The destructor adds nothing. |
| `Publish.PublishSendsFrame` | src/PicoMQ.cpp:138-161 | Both publishes end exactly one packet and put exactly one datagram on the wire: the frame encoding of the topic and payload (or of the printed octets). |
| `DraftPublish.TopicWrites` | src/picomq.h:186-188 | The draft's do-while: one single-octet write per topic character, then one write of the NUL. |
| `DraftPublish.WriteHeader` | src/picomq.h:182-189 | The draft's `write_header`: begin the multicast packet, write 80, then the topic writes. |
| `DraftPublish.TopicWritesAgree` | src/picomq.h:182-189 | The draft's `write_header` do-while writes the same single octets as `begin_publish` in src/PicoMQ.cpp, NUL included, once. |
| `DraftPublish.DraftPublishEvents` | src/picomq.h:139-143 | The draft's `publish(topic, payload, size)`: `write_header`, one write of the payload, then `endPacket`. |
| `DraftPublish.DraftPublishPrintedEvents` | src/picomq.h:145-150 | The draft's templated `publish`: `write_header`, the printed chunks written straight to the socket, then `endPacket`. |
| `DraftPublish.DraftPublishAgrees` | src/picomq.h:139-150 | The draft's direct `publish` functions make exactly the socket calls of the handle-based ones. |
| `EndToEnd.DefaultPublishTargetsGroup` | src/PicoMQ.h:15-16 | With the default settings, a publish begins exactly one packet, first, to the multicast group 224.0.1.80 on port 1880 with TTL 1. |
| `EndToEnd.PublishReachesSubscribers` | src/PicoMQ.cpp:157-161 | A publish whose topic and payload fit in a frame sends one datagram. Another node's `loop` hands it to exactly the subscriptions `Dispatch` names, and the publisher's own copy reaches nobody. |

## Left out

- UDP and WiFi are not modelled: `begin`, `parsePacket`, `udp.read` with its
  partial-read loop, `remoteIP() == WiFi.localIP()`,
  `beginPacketMulticast` / `beginMulticastPacket` and `endPacket`.
  - Incoming traffic is a sequence of `Receive.Datagram`s. Each carries an
    own-address flag and either the bytes read or a failed read.
  - Outgoing traffic is a trace of `Publish.Event`s.
  - `Publish.Sent` describes the socket's packet assembly as an assumption
    about the socket, not as part of the node.
- The ESP32 and ESP8266 build branches are not modelled. On ESP32,
  `beginMulticastPacket()` takes no arguments; the model uses one
  `BeginPacket(group, port, ttl)` event for both boards.
- The callback adapter overloads (src/PicoMQ.cpp:167-177) are not modelled.
  They only wrap the `(topic, payload, size)` callback. Callbacks are opaque
  ids, and what a callback does when invoked is not modelled.
- `Print` formatting in the templated `publish` is not modelled. The printed
  value enters the model as the chunks it hands to `write`.
- The `size_t` return values of `write` are not modelled.
- The stack buffer and `String` internals are not modelled. The NUL that
  src/PicoMQ.cpp:116 stores after the datagram is modelled: it is what stops
  `strlen` at line 119 when no zero follows the magic byte, and
  `CStrings.CLen` returns the buffer's length in that case, so the check at
  line 121 rejects the frame in `Frame.Decode`. Only the `char *` adapters'
  use of that NUL as the end of a valid payload is left out.
- Using a handle after its destructor ran is undefined in C++. In the model
  that operation does nothing.
- `begin_publish` returns its handle by value, and the model uses no move
  for it. If the compiler moves instead, `Publish.MoveTransfersPending`
  shows the calls are the same.
- Key order ignores embedded NULs. `FilterOrder.Below` compares whole
  sequences; for NUL-free filters that is the `strcmp` order `String` uses.
- The matcher's TODO about a `/#` suffix is not implemented in the source,
  so the model has none either: `a/#` does not match `a`.
- `Frame.Decode` reports `TooShort` and `TooLong` separately. The code
  rejects both in one branch; the split adds information and changes no
  outcome.
- `publish` does not check the frame length. A frame of 1500 or more bytes
  is sent and every receiver rejects it; `FrameLaws.EncodeDecodable`
  states this.
- `size_t` is taken to be 32 bits, as on both boards.
- There is no concurrency in the node, so none is modelled.
