/**
 Two nodes on one group: what one publishes, the other's next `loop`
 hands to its matching subscriptions.
 */
module EndToEnd {
  import opened CStrings
  import opened Frame
  import opened Settings
  import opened Registry
  import opened Callbacks
  import opened Publish
  import opened Receive

  /** A publish from another node of a topic and payload that fit in a
      frame is delivered to every subscription whose filter matches, with
      that topic and payload; the publisher's own copy reaches nobody. */
  lemma PublishReachesSubscribers(cfg: Config, subs: Registry, topic: seq<Char8>, payload: seq<byte>)
    requires NulFree(topic)
    requires 1 <= |topic| + |payload| < MAX_LENGTH_EXCLUSIVE - 2
    ensures |Sent(PublishEvents(cfg, topic, payload))| == 1
    ensures Loop(subs, [Datagram(false, Received(Sent(PublishEvents(cfg, topic, payload))[0]))]) ==
      Outcome(Dispatch(subs, topic, payload), 1)
    ensures Loop(subs, [Datagram(true, Received(Sent(PublishEvents(cfg, topic, payload))[0]))]) ==
      Outcome([], 1)
  {
    PublishSendsFrame(cfg, topic, payload, []);
    PublishedFrameIsDelivered(subs, topic, payload);
  }

  /** With the constructor's defaults, a publish opens its packet on the
      multicast group 224.0.1.80, port 1880, with a TTL of one, and that is
      the only packet it opens. */
  lemma DefaultPublishTargetsGroup(topic: seq<Char8>, payload: seq<byte>)
    ensures var events := PublishEvents(DefaultConfig(), topic, payload);
      |events| > 0 && events[0] == BeginPacket([224, 0, 1, 80], 1880, 1) &&
      IsMulticast(events[0].group) &&
      forall i :: 0 < i < |events| ==> !events[i].BeginPacket?
  {
    PublishLayout(DefaultConfig(), topic, payload);
    DefaultConfigIsLocalMulticast();
    var events := PublishEvents(DefaultConfig(), topic, payload);
    var header := ByteWrites(Header(topic));
    ByteWritesWrite(Header(topic));
    forall i | 0 < i < |events|
      ensures !events[i].BeginPacket?
    {
      if i <= |header| {
        assert events[i] == header[i - 1];
      }
    }
  }
}
