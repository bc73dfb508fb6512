/**
 The receive cycle: one call of the node's `loop` drains at most sixteen
 pending datagrams, decodes each one and hands it to the matching
 subscriptions; the first datagram that cannot be used ends the cycle.
 */
module Receive {
  import opened CStrings
  import opened Wrappers
  import opened Frame
  import FrameLaws
  import opened Registry
  import opened Callbacks

  /** How many datagrams one `loop` call looks at, at most. */
  const MAX_DATAGRAMS_PER_LOOP: nat := 16

  /** What reading a pending datagram into the buffer produced: either all
      of its bytes, or a read call that returned no data before the whole
      datagram was in (such a datagram always has a positive size). A
      zero-length `Received` is what the socket reports when nothing is
      pending. */
  datatype Content = Received(bytes: seq<byte>) | ReadFailed

  /** One result of polling the socket: whether the sender's address is the
      node's own, and what could be read. */
  datatype Datagram = Datagram(fromSelf: bool, content: Content)

  /** Why the cycle stops at a datagram. */
  datatype Halt = NothingPending | OwnEcho | ReadError | Malformed(reason: FrameError)

  /** The checks one iteration of the loop makes, in the order it makes
      them: nothing pending, the node's own echo, a failed read, then the
      frame checks. */
  function Receive(d: Datagram): Result<Message, Halt>
  {
    if d.content == Received([]) then Failure(NothingPending)
    else if d.fromSelf then Failure(OwnEcho)
    else if d.content.ReadFailed? then Failure(ReadError)
    else
      match Decode(d.content.bytes)
      case Failure(e) => Failure(Malformed(e))
      case Success(m) => Success(m)
  }

  /** Each stop reason arises exactly in its own case, and an accepted
      datagram is precisely the encoding of a message from another node. */
  lemma ReceiveChecks(d: Datagram)
    ensures Receive(d) == Failure(NothingPending) <==> d.content == Received([])
    ensures Receive(d) == Failure(OwnEcho) <==> d.fromSelf && d.content != Received([])
    ensures Receive(d) == Failure(ReadError) <==> !d.fromSelf && d.content == ReadFailed
    ensures Receive(d).Success? <==>
      !d.fromSelf && d.content.Received? && Decode(d.content.bytes).Success?
    ensures Receive(d).Success? ==>
      NulFree(Receive(d).value.topic) &&
      d.content == Received(Encode(Receive(d).value.topic, Receive(d).value.payload))
    ensures !d.fromSelf && d.content.Received? && d.content.bytes != [] && Decode(d.content.bytes).Failure? ==>
      Receive(d) == Failure(Malformed(Decode(d.content.bytes).error))
  {
    if Receive(d).Success? {
      FrameLaws.EncodeDecode(d.content.bytes);
    }
  }

  /** The invocations one datagram gives rise to when it is accepted. */
  function Contribution(subs: seq<Entry>, d: Datagram): seq<Delivery>
  {
    match Receive(d)
    case Success(m) => Dispatch(subs, m.topic, m.payload)
    case Failure(_) => []
  }

  /** Reference definition: the invocations a run of datagrams gives rise
      to, each accepted one dispatched in turn and the others contributing
      nothing. */
  function Delivered(subs: seq<Entry>, ds: seq<Datagram>): seq<Delivery>
    decreases |ds|
  {
    if |ds| == 0 then [] else Contribution(subs, ds[0]) + Delivered(subs, ds[1..])
  }

  /** What a cycle did: the callback invocations, in order, and how many
      pending datagrams it took off the socket. */
  datatype Outcome = Outcome(deliveries: seq<Delivery>, polled: nat)

  /** The loop body repeated while `budget` iterations remain: an empty
      input is a socket with nothing pending. A datagram the checks reject
      is taken off the socket and the cycle returns at once. */
  function Drain(subs: seq<Entry>, input: seq<Datagram>, budget: nat): (o: Outcome)
    ensures o.polled <= budget && o.polled <= |input|
    ensures o.polled == 0 <==> budget == 0 || |input| == 0
    decreases budget
  {
    if budget == 0 || |input| == 0 then Outcome([], 0)
    else if Receive(input[0]).Failure? then Outcome([], 1)
    else
      var rest := Drain(subs, input[1..], budget - 1);
      Outcome(Contribution(subs, input[0]) + rest.deliveries, 1 + rest.polled)
  }

  /** One call of the node's `loop`. */
  function Loop(subs: Registry, input: seq<Datagram>): Outcome
  {
    Drain(subs, input, MAX_DATAGRAMS_PER_LOOP)
  }

  lemma DeliveredCons(subs: seq<Entry>, input: seq<Datagram>, n: nat)
    requires 0 < n <= |input|
    ensures Delivered(subs, input[..n]) == Contribution(subs, input[0]) + Delivered(subs, input[1..][..n - 1])
  {
    assert input[..n][1..] == input[1..][..n - 1];
  }

  /** The cycle stops only where the loop returns: every datagram before
      the last one polled was accepted, and the cycle ends before its
      budget and its input run out only at a rejected datagram. */
  lemma {:induction false} DrainStopsOnlyAtRejected(subs: seq<Entry>, input: seq<Datagram>, budget: nat)
    ensures var o := Drain(subs, input, budget);
      forall i :: 0 <= i < o.polled - 1 ==> Receive(input[i]).Success?
    ensures var o := Drain(subs, input, budget);
      o.polled < budget && o.polled < |input| ==>
        0 < o.polled && Receive(input[o.polled - 1]).Failure?
  {
    DrainAcceptsBeforeLast(subs, input, budget);
    DrainStopReason(subs, input, budget);
  }

  /** Every polled datagram but the last was accepted. */
  lemma {:induction false} DrainAcceptsBeforeLast(subs: seq<Entry>, input: seq<Datagram>, budget: nat)
    ensures var o := Drain(subs, input, budget);
      forall i :: 0 <= i < o.polled - 1 ==> Receive(input[i]).Success?
    decreases budget
  {
    var o := Drain(subs, input, budget);
    if budget > 0 && |input| > 0 && Receive(input[0]).Success? {
      DrainAcceptsBeforeLast(subs, input[1..], budget - 1);
      var rest := Drain(subs, input[1..], budget - 1);
      assert o.polled == 1 + rest.polled;
      forall i | 0 <= i < o.polled - 1
        ensures Receive(input[i]).Success?
      {
        if i > 0 {
          assert input[i] == input[1..][i - 1];
        }
      }
    }
  }

  /** A cycle that ends early, with budget and input left, ends at a
      rejected datagram. */
  lemma {:induction false} DrainStopReason(subs: seq<Entry>, input: seq<Datagram>, budget: nat)
    ensures var o := Drain(subs, input, budget);
      o.polled < budget && o.polled < |input| ==>
        0 < o.polled && Receive(input[o.polled - 1]).Failure?
    decreases budget
  {
    if budget == 0 || |input| == 0 {
    } else if Receive(input[0]).Failure? {
      assert Drain(subs, input, budget).polled == 1;
    } else {
      DrainStopReason(subs, input[1..], budget - 1);
      var n := Drain(subs, input[1..], budget - 1).polled;
      AcceptedDrain(subs, input, budget);
      if 1 + n < budget && 1 + n < |input| {
        assert input[n] == input[1..][n - 1];
      }
    }
  }

  /** The invocations a cycle makes are exactly those the reference gives
      for the datagrams it polled. */
  lemma {:induction false} DrainDelivers(subs: seq<Entry>, input: seq<Datagram>, budget: nat)
    ensures var o := Drain(subs, input, budget);
      o.deliveries == Delivered(subs, input[..o.polled])
    decreases budget
  {
    if budget == 0 || |input| == 0 {
      assert input[..0] == [];
    } else if Receive(input[0]).Failure? {
      DeliveredCons(subs, input, 1);
      assert input[1..][..0] == [];
    } else {
      var rest := Drain(subs, input[1..], budget - 1);
      DrainDelivers(subs, input[1..], budget - 1);
      AcceptedDrain(subs, input, budget);
      DeliveredCons(subs, input, 1 + rest.polled);
    }
  }

  /** An accepted first datagram is dispatched, and the cycle goes on with
      the rest. */
  lemma AcceptedDrain(subs: seq<Entry>, input: seq<Datagram>, budget: nat)
    requires budget > 0 && |input| > 0 && Receive(input[0]).Success?
    ensures var rest := Drain(subs, input[1..], budget - 1);
      Drain(subs, input, budget) == Outcome(Contribution(subs, input[0]) + rest.deliveries, 1 + rest.polled)
  {
  }

  /** Datagrams beyond the budget are never looked at. */
  lemma {:induction false} DrainLooksOnlyAhead(subs: seq<Entry>, input: seq<Datagram>, budget: nat, n: nat)
    requires budget <= n <= |input|
    ensures Drain(subs, input, budget) == Drain(subs, input[..n], budget)
    decreases budget
  {
    if budget > 0 {
      assert input[..n][0] == input[0];
      assert input[..n][1..] == input[1..][..n - 1];
      DrainLooksOnlyAhead(subs, input[1..], budget - 1, n - 1);
      DrainSameHead(subs, input, input[..n], budget);
    }
  }

  /** Two inputs with the same first datagram, whose rests drain alike,
      drain alike. */
  lemma DrainSameHead(subs: seq<Entry>, a: seq<Datagram>, b: seq<Datagram>, budget: nat)
    requires budget > 0 && |a| > 0 && |b| > 0 && a[0] == b[0]
    requires Drain(subs, a[1..], budget - 1) == Drain(subs, b[1..], budget - 1)
    ensures Drain(subs, a, budget) == Drain(subs, b, budget)
  {
  }

  /** One `loop` call takes at most sixteen datagrams off the socket and
      depends on no datagram after the sixteenth. */
  lemma LoopBounded(subs: Registry, input: seq<Datagram>)
    ensures Loop(subs, input).polled <= MAX_DATAGRAMS_PER_LOOP
    ensures |input| >= MAX_DATAGRAMS_PER_LOOP ==>
      Loop(subs, input) == Loop(subs, input[..MAX_DATAGRAMS_PER_LOOP])
  {
    if |input| >= MAX_DATAGRAMS_PER_LOOP {
      DrainLooksOnlyAhead(subs, input, MAX_DATAGRAMS_PER_LOOP, MAX_DATAGRAMS_PER_LOOP);
    }
  }

  /** A rejected datagram ends the cycle: it is polled, nothing after it
      is, and only the datagrams before it are dispatched. */
  lemma {:induction false} DrainStopsAtRejected(subs: seq<Entry>, input: seq<Datagram>, budget: nat, j: nat)
    requires j < budget && j < |input|
    requires forall i :: 0 <= i < j ==> Receive(input[i]).Success?
    requires Receive(input[j]).Failure?
    ensures Drain(subs, input, budget) == Outcome(Delivered(subs, input[..j]), j + 1)
    decreases j
  {
    if j == 0 {
      assert input[..0] == [];
    } else {
      forall i | 0 <= i < j - 1
        ensures Receive(input[1..][i]).Success?
      {
        assert input[1..][i] == input[i + 1];
      }
      DrainStopsAtRejected(subs, input[1..], budget - 1, j - 1);
      DeliveredCons(subs, input, j);
    }
  }

  /** The same for a whole `loop` call, for a rejection among the first
      sixteen datagrams. */
  lemma LoopStopsAtRejected(subs: Registry, input: seq<Datagram>, j: nat)
    requires j < MAX_DATAGRAMS_PER_LOOP && j < |input|
    requires forall i :: 0 <= i < j ==> Receive(input[i]).Success?
    requires Receive(input[j]).Failure?
    ensures Loop(subs, input) == Outcome(Delivered(subs, input[..j]), j + 1)
  {
    DrainStopsAtRejected(subs, input, MAX_DATAGRAMS_PER_LOOP, j);
  }

  /** A frame another node publishes reaches every matching subscription
      exactly as dispatch describes; the node's own copy reaches none. */
  lemma PublishedFrameIsDelivered(subs: Registry, topic: seq<Char8>, payload: seq<byte>)
    requires NulFree(topic)
    requires 1 <= |topic| + |payload| < MAX_LENGTH_EXCLUSIVE - 2
    ensures Loop(subs, [Datagram(false, Received(Encode(topic, payload)))]) ==
      Outcome(Dispatch(subs, topic, payload), 1)
    ensures Loop(subs, [Datagram(true, Received(Encode(topic, payload)))]) == Outcome([], 1)
  {
    FrameLaws.DecodeEncode(topic, payload);
    ReceiveChecks(Datagram(false, Received(Encode(topic, payload))));
    var input := [Datagram(false, Received(Encode(topic, payload)))];
    assert input[1..] == [];
    assert Dispatch(subs, topic, payload) + [] == Dispatch(subs, topic, payload);
  }

  /** Once the socket reports nothing pending, a datagram that arrives
      later waits for the next `loop` call. */
  lemma NothingPendingEndsCycle(subs: Registry, later: seq<Datagram>)
    ensures Loop(subs, [Datagram(false, Received([]))] + later) == Outcome([], 1)
  {
  }
}
