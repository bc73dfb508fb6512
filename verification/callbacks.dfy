/**
 Dispatch: one decoded frame is handed to every subscription whose filter
 matches its topic, walking the registry in ascending filter order.
 */
module Callbacks {
  import opened CStrings
  import opened Topic
  import opened FilterOrder
  import opened Registry
  import TopicLaws

  /** One callback invocation: the subscription it was registered under and
      the topic and payload it is called with. */
  datatype Delivery = Delivery(filter: seq<Char8>, callback: CallbackId, topic: seq<Char8>, payload: seq<byte>)

  /** The filters a sequence of invocations went to. */
  function Invoked(r: seq<Delivery>): set<seq<Char8>>
  {
    set i | 0 <= i < |r| :: r[i].filter
  }

  /** The subscribed filters that match `topic`. */
  function MatchingFilters(s: seq<Entry>, topic: seq<Char8>): set<seq<Char8>>
  {
    set e | e in s && Matches(e.filter, topic) :: e.filter
  }

  /** The `for (kv : subscriptions) if (topic_matches(...)) kv.second(...)`
      loop, as the sequence of invocations it makes, in registry order. */
  function Dispatch(s: seq<Entry>, topic: seq<Char8>, payload: seq<byte>): seq<Delivery>
    decreases |s|
  {
    if |s| == 0 then []
    else if Matches(s[0].filter, topic) then
      [Delivery(s[0].filter, s[0].callback, topic, payload)] + Dispatch(s[1..], topic, payload)
    else
      Dispatch(s[1..], topic, payload)
  }

  /** Each invocation is of a subscription whose filter matches, with the
      frame's topic and payload, and the filters invoked are exactly the
      matching ones. */
  lemma {:induction false} DispatchInvokesMatching(s: seq<Entry>, topic: seq<Char8>, payload: seq<byte>)
    ensures var r := Dispatch(s, topic, payload);
      forall i :: 0 <= i < |r| ==>
        Entry(r[i].filter, r[i].callback) in s && Matches(r[i].filter, topic) &&
        r[i].topic == topic && r[i].payload == payload
    ensures Invoked(Dispatch(s, topic, payload)) == MatchingFilters(s, topic)
    decreases |s|
  {
    if |s| == 0 {
    } else {
      var rest := Dispatch(s[1..], topic, payload);
      DispatchInvokesMatching(s[1..], topic, payload);
      assert s == [s[0]] + s[1..];
      MatchingCons(s[0], s[1..], topic);
      if Matches(s[0].filter, topic) {
        var d := Delivery(s[0].filter, s[0].callback, topic, payload);
        InvokedCons(d, rest);
        var r := [d] + rest;
        forall i | 0 <= i < |r|
          ensures Entry(r[i].filter, r[i].callback) in s
        {
          if i > 0 {
            assert r[i] == rest[i - 1];
          }
        }
      }
    }
  }

  lemma MatchingCons(e: Entry, t: seq<Entry>, topic: seq<Char8>)
    ensures MatchingFilters([e] + t, topic) ==
      (if Matches(e.filter, topic) then {e.filter} else {}) + MatchingFilters(t, topic)
  {
    assert forall x :: x in [e] + t <==> x == e || x in t;
  }

  lemma InvokedCons(d: Delivery, r: seq<Delivery>)
    ensures Invoked([d] + r) == {d.filter} + Invoked(r)
  {
    var dr := [d] + r;
    forall x | x in Invoked(dr)
      ensures x in {d.filter} + Invoked(r)
    {
      var i :| 0 <= i < |dr| && dr[i].filter == x;
      if i > 0 {
        assert r[i - 1] == dr[i];
      }
    }
    forall x | x in {d.filter} + Invoked(r)
      ensures x in Invoked(dr)
    {
      if x == d.filter {
        assert dr[0].filter == x;
      } else {
        var i :| 0 <= i < |r| && r[i].filter == x;
        assert dr[i + 1] == r[i];
      }
    }
  }

  /** Invocations follow the registry's ascending filter order. */
  lemma {:induction false} DispatchAscending(s: Registry, topic: seq<Char8>, payload: seq<byte>)
    ensures forall i, j :: 0 <= i < j < |Dispatch(s, topic, payload)| ==>
      Below(Dispatch(s, topic, payload)[i].filter, Dispatch(s, topic, payload)[j].filter)
    decreases |s|
  {
    if |s| > 0 {
      TailOrdered(s);
      DispatchAscending(s[1..], topic, payload);
      DispatchInvokesMatching(s[1..], topic, payload);
      var rest := Dispatch(s[1..], topic, payload);
      if Matches(s[0].filter, topic) {
        HeadBelowRest(s);
        forall j | 0 <= j < |rest|
          ensures Below(s[0].filter, rest[j].filter)
        {
          assert Entry(rest[j].filter, rest[j].callback) in s[1..];
        }
      }
    }
  }

  /** For a decoded frame, every subscribed filter matching the topic is
      invoked exactly once, with its own callback, and no other filter is. */
  lemma DispatchExactlyMatching(s: Registry, topic: seq<Char8>, payload: seq<byte>)
    ensures forall f :: (f in AsMap(s) && Matches(f, topic)) <==>
      f in Invoked(Dispatch(s, topic, payload))
    ensures forall i :: 0 <= i < |Dispatch(s, topic, payload)| ==>
      AsMap(s)[Dispatch(s, topic, payload)[i].filter] == Dispatch(s, topic, payload)[i].callback
    ensures forall i, j ::
      (0 <= i < |Dispatch(s, topic, payload)| && 0 <= j < |Dispatch(s, topic, payload)| &&
       Dispatch(s, topic, payload)[i].filter == Dispatch(s, topic, payload)[j].filter) ==> i == j
  {
    var r := Dispatch(s, topic, payload);
    DispatchInvokesMatching(s, topic, payload);
    AsMapContents(s);
    forall f
      ensures (f in AsMap(s) && Matches(f, topic)) <==> f in MatchingFilters(s, topic)
    {
      if f in AsMap(s) && Matches(f, topic) {
        var e :| e in s && e.filter == f;
      }
    }
    forall i | 0 <= i < |r|
      ensures r[i].filter in AsMap(s) && AsMap(s)[r[i].filter] == r[i].callback
    {
      var e := Entry(r[i].filter, r[i].callback);
      var k :| 0 <= k < |s| && s[k] == e;
    }
    DispatchAscending(s, topic, payload);
    forall i, j | 0 <= i < |r| && 0 <= j < |r| && r[i].filter == r[j].filter
      ensures i == j
    {
      BelowIrreflexive(r[i].filter);
    }
  }

  /** An example: with subscriptions on "x/+" and "x/#", a
      message on "x/y" reaches both, once each, and one on "z" neither. */
  lemma DispatchExample(plus: CallbackId, hash: CallbackId, payload: seq<byte>)
    ensures var s := Subscribe(Subscribe([], "x/+", plus), "x/#", hash);
      Dispatch(s, "x/y", payload) ==
        [Delivery("x/#", hash, "x/y", payload), Delivery("x/+", plus, "x/y", payload)] &&
      Dispatch(s, "z", payload) == []
  {
    ExampleRegistry(plus, hash);
    ExampleMatches();
    var s := [Entry("x/#", hash), Entry("x/+", plus)];
    var tail := s[1..];
    assert tail == [Entry("x/+", plus)];
    assert tail[1..] == [];
    assert Dispatch(tail, "x/y", payload) == [Delivery("x/+", plus, "x/y", payload)];
    assert Dispatch(tail, "z", payload) == [];
  }

  lemma ExampleRegistry(plus: CallbackId, hash: CallbackId)
    ensures Subscribe(Subscribe([], "x/+", plus), "x/#", hash) ==
      [Entry("x/#", hash), Entry("x/+", plus)]
  {
    assert Below("x/#", "x/+") by {
      assert "x/#"[1..] == "/#" && "x/+"[1..] == "/+";
      assert "/#"[1..] == "#" && "/+"[1..] == "+";
    }
    var s1 := Subscribe([], "x/+", plus);
    assert s1 == [Entry("x/+", plus)];
  }

  lemma ExampleMatches()
    ensures Matches("x/#", "x/y") && Matches("x/+", "x/y")
    ensures !Matches("x/#", "z") && !Matches("x/+", "z")
  {
    assert "x/" + "+" + "" == "x/+";
    assert "x/" + "#" + "" == "x/#";
    TopicLaws.SingleLevelSkipsLevel("x/", "", "x/y");
    TopicLaws.MultiLevelAcceptsRest("x/", "", "x/y");
    TopicLaws.MultiLevelAcceptsRest("x/", "", "z");
    TopicLaws.SingleLevelSkipsLevel("x/", "", "z");
  }
}
