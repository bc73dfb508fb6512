/**
 The order `std::map<String, ...>` keeps its keys in: `String::operator<`,
 i.e. `strcmp`, which on NUL-free strings is the lexicographic order of
 character codes with a proper prefix first.
 */
module FilterOrder {

  /** Strict lexicographic order on strings. */
  predicate Below(a: string, b: string)
    decreases |a|
  {
    if |a| == 0 then |b| > 0
    else if |b| == 0 then false
    else a[0] < b[0] || (a[0] == b[0] && Below(a[1..], b[1..]))
  }

  lemma {:induction false} BelowIrreflexive(a: string)
    ensures !Below(a, a)
    decreases |a|
  {
    if |a| > 0 {
      BelowIrreflexive(a[1..]);
    }
  }

  lemma {:induction false} BelowTransitive(a: string, b: string, c: string)
    requires Below(a, b) && Below(b, c)
    ensures Below(a, c)
    decreases |a|
  {
    if |a| > 0 && |b| > 0 && |c| > 0 && a[0] == b[0] && b[0] == c[0] {
      BelowTransitive(a[1..], b[1..], c[1..]);
    }
  }

  lemma {:induction false} BelowAsymmetric(a: string, b: string)
    ensures !(Below(a, b) && Below(b, a))
    decreases |a|
  {
    if |a| > 0 && |b| > 0 && a[0] == b[0] {
      BelowAsymmetric(a[1..], b[1..]);
    }
  }

  /** Any two different strings are ordered one way or the other. */
  lemma {:induction false} BelowTotal(a: string, b: string)
    requires a != b
    ensures Below(a, b) || Below(b, a)
    decreases |a|
  {
    if |a| > 0 && |b| > 0 && a[0] == b[0] {
      assert a == [a[0]] + a[1..] && b == [b[0]] + b[1..];
      BelowTotal(a[1..], b[1..]);
    }
  }
}

/**
 The subscription registry: an ordered map from topic filter to callback.
 It is modelled as its in-order contents, a sequence of entries whose
 filters strictly ascend, which is what iterating the `std::map` visits.
 */
module Registry {
  import opened CStrings
  import opened Topic
  import opened FilterOrder

  /** Callbacks are opaque: only their identity matters to the engine. */
  type CallbackId = nat

  /** One subscription. */
  datatype Entry = Entry(filter: seq<Char8>, callback: CallbackId)

  /** Filters strictly ascend, so no filter has two callbacks. */
  predicate Ordered(s: seq<Entry>)
  {
    forall i, j :: 0 <= i < j < |s| ==> Below(s[i].filter, s[j].filter)
  }

  /** The registry's contents. */
  type Registry = s: seq<Entry> | Ordered(s)

  /** The filters of a sequence of entries. */
  function Filters(s: seq<Entry>): set<seq<Char8>>
  {
    set e | e in s :: e.filter
  }

  /** The map the registry represents. */
  function AsMap(s: seq<Entry>): map<seq<Char8>, CallbackId>
    decreases |s|
  {
    if |s| == 0 then map[] else AsMap(s[1..])[s[0].filter := s[0].callback]
  }

  /** The map holds exactly the registry's filters, each with its entry's
      callback. */
  lemma {:induction false} AsMapContents(s: Registry)
    ensures AsMap(s).Keys == Filters(s)
    ensures forall i :: 0 <= i < |s| ==> AsMap(s)[s[i].filter] == s[i].callback
  {
    AsMapKeys(s);
    AsMapValues(s);
  }

  lemma {:induction false} AsMapKeys(s: seq<Entry>)
    ensures AsMap(s).Keys == Filters(s)
    decreases |s|
  {
    if |s| > 0 {
      AsMapKeys(s[1..]);
      FiltersCons(s[0], s[1..]);
      assert [s[0]] + s[1..] == s;
    }
  }

  lemma {:induction false} AsMapValues(s: Registry)
    ensures forall i :: 0 <= i < |s| ==> s[i].filter in AsMap(s) && AsMap(s)[s[i].filter] == s[i].callback
    decreases |s|
  {
    if |s| > 0 {
      var t: Registry := s[1..];
      AsMapValues(t);
      forall i | 0 < i < |s|
        ensures s[i].filter in AsMap(s) && AsMap(s)[s[i].filter] == s[i].callback
      {
        assert s[i] == t[i - 1];
        BelowIrreflexive(s[0].filter);
      }
    }
  }

  lemma FiltersCons(e: Entry, t: seq<Entry>)
    ensures Filters([e] + t) == {e.filter} + Filters(t)
  {
    assert forall x :: x in [e] + t <==> x == e || x in t;
  }

  lemma AsMapCons(e: Entry, t: seq<Entry>)
    ensures AsMap([e] + t) == AsMap(t)[e.filter := e.callback]
  {
    assert ([e] + t)[1..] == t;
  }

  /** The first filter of the registry is below all the others. */
  lemma HeadBelowRest(s: Registry)
    requires |s| > 0
    ensures forall f :: f in Filters(s[1..]) ==> Below(s[0].filter, f)
  {
    forall f | f in Filters(s[1..])
      ensures Below(s[0].filter, f)
    {
      var e :| e in s[1..] && e.filter == f;
      var j :| 0 <= j < |s[1..]| && s[1..][j] == e;
      assert s[j + 1] == e;
    }
  }

  /** An entry below every filter of a registry can be put in front of it. */
  lemma ConsOrdered(e: Entry, t: Registry)
    requires forall f :: f in Filters(t) ==> Below(e.filter, f)
    ensures Ordered([e] + t)
  {
    forall i, j | 0 <= i < j < |t| + 1
      ensures Below(([e] + t)[i].filter, ([e] + t)[j].filter)
    {
      assert ([e] + t)[j] == t[j - 1];
      if i == 0 {
        assert t[j - 1] in t;
      } else {
        assert ([e] + t)[i] == t[i - 1];
      }
    }
  }

  lemma TailOrdered(s: Registry)
    requires |s| > 0
    ensures Ordered(s[1..])
  {
    forall i, j | 0 <= i < j < |s| - 1
      ensures Below(s[1..][i].filter, s[1..][j].filter)
    {
      assert s[1..][i] == s[i + 1] && s[1..][j] == s[j + 1];
    }
  }

  /** Replacing the callback of the first entry. */
  lemma ReplaceHead(s: Registry, e: Entry)
    requires |s| > 0 && s[0].filter == e.filter
    ensures Ordered([e] + s[1..])
    ensures Filters([e] + s[1..]) == Filters(s) + {e.filter}
    ensures AsMap([e] + s[1..]) == AsMap(s)[e.filter := e.callback]
  {
    TailOrdered(s);
    var t: Registry := s[1..];
    assert s == [s[0]] + t;
    HeadBelowRest(s);
    ConsOrdered(e, t);
    assert Filters([e] + s[1..]) == Filters(s) + {e.filter} by {
      FiltersCons(s[0], t);
      FiltersCons(e, t);
    }
    assert AsMap([e] + s[1..]) == AsMap(s)[e.filter := e.callback] by {
      AsMapCons(s[0], t);
      AsMapCons(e, t);
      UpdateTwice(AsMap(t), e.filter, s[0].callback, e.callback);
    }
  }

  lemma UpdateTwice(m: map<seq<Char8>, CallbackId>, a: seq<Char8>, x: CallbackId, y: CallbackId)
    ensures m[a := x][a := y] == m[a := y]
  {
  }

  /** Inserting a filter below all present ones. */
  lemma InsertFront(s: Registry, e: Entry)
    requires |s| > 0 && Below(e.filter, s[0].filter)
    ensures Ordered([e] + s)
    ensures Filters([e] + s) == Filters(s) + {e.filter}
    ensures AsMap([e] + s) == AsMap(s)[e.filter := e.callback]
  {
    TailOrdered(s);
    var t: Registry := s[1..];
    assert s == [s[0]] + t;
    HeadBelowRest(s);
    FiltersCons(s[0], t);
    forall f | f in Filters(s)
      ensures Below(e.filter, f)
    {
      if f != s[0].filter {
        BelowTransitive(e.filter, s[0].filter, f);
      }
    }
    ConsOrdered(e, s);
    FiltersCons(e, s);
    AsMapCons(e, s);
  }

  /** Inserting a filter above the first one, into the rest. */
  lemma InsertLater(s: Registry, e: Entry, rest: Registry)
    requires |s| > 0 && s[0].filter != e.filter && !Below(e.filter, s[0].filter)
    requires Filters(rest) == Filters(s[1..]) + {e.filter}
    requires AsMap(rest) == AsMap(s[1..])[e.filter := e.callback]
    ensures Ordered([s[0]] + rest)
    ensures Filters([s[0]] + rest) == Filters(s) + {e.filter}
    ensures AsMap([s[0]] + rest) == AsMap(s)[e.filter := e.callback]
  {
    HeadBelowRest(s);
    BelowTotal(e.filter, s[0].filter);
    ConsOrdered(s[0], rest);
    SameTail(s, e, rest);
  }

  /** Putting the first entry back in front of a changed rest. */
  lemma SameTail(s: seq<Entry>, e: Entry, rest: seq<Entry>)
    requires |s| > 0 && s[0].filter != e.filter
    requires Filters(rest) == Filters(s[1..]) + {e.filter}
    requires AsMap(rest) == AsMap(s[1..])[e.filter := e.callback]
    ensures Filters([s[0]] + rest) == Filters(s) + {e.filter}
    ensures AsMap([s[0]] + rest) == AsMap(s)[e.filter := e.callback]
  {
    SameTailFilters(s, rest, Filters(rest) - Filters(s[1..]));
    var t := s[1..];
    AsMapCons(s[0], t);
    assert s == [s[0]] + t;
    AsMapCons(s[0], rest);
    UpdatesCommute(AsMap(t), s[0].filter, s[0].callback, e.filter, e.callback);
  }

  /** Filters added to or kept out of the rest are added or kept out of
      the whole. */
  lemma SameTailFilters(s: seq<Entry>, rest: seq<Entry>, added: set<seq<Char8>>)
    requires |s| > 0
    requires Filters(rest) == Filters(s[1..]) + added
    ensures Filters([s[0]] + rest) == Filters(s) + added
  {
    var t := s[1..];
    assert s == [s[0]] + t;
    FiltersCons(s[0], t);
    FiltersCons(s[0], rest);
  }

  lemma UpdatesCommute(m: map<seq<Char8>, CallbackId>, a: seq<Char8>, x: CallbackId, b: seq<Char8>, y: CallbackId)
    requires a != b
    ensures m[b := y][a := x] == m[a := x][b := y]
  {
  }

  lemma UpdateThenRemove(m: map<seq<Char8>, CallbackId>, a: seq<Char8>, x: CallbackId, b: seq<Char8>)
    ensures a != b ==> m[a := x] - {b} == (m - {b})[a := x]
    ensures a == b && a !in m ==> m[a := x] - {b} == m
  {
  }

  /** Removing the first entry. */
  lemma RemoveHead(s: Registry)
    requires |s| > 0
    ensures Filters(s[1..]) == Filters(s) - {s[0].filter}
    ensures AsMap(s[1..]) == AsMap(s) - {s[0].filter}
  {
    TailOrdered(s);
    var t: Registry := s[1..];
    HeadBelowRest(s);
    BelowIrreflexive(s[0].filter);
    AsMapContents(t);
    RemoveHeadOf(s);
  }

  lemma RemoveHeadOf(s: seq<Entry>)
    requires |s| > 0 && s[0].filter !in Filters(s[1..])
    requires AsMap(s[1..]).Keys == Filters(s[1..])
    ensures Filters(s[1..]) == Filters(s) - {s[0].filter}
    ensures AsMap(s[1..]) == AsMap(s) - {s[0].filter}
  {
    var t := s[1..];
    assert s == [s[0]] + t;
    FiltersCons(s[0], t);
    AsMapCons(s[0], t);
    UpdateThenRemove(AsMap(t), s[0].filter, s[0].callback, s[0].filter);
  }

  /** Removing a filter above the first one, from the rest. */
  lemma RemoveLater(s: Registry, filter: seq<Char8>, rest: Registry)
    requires |s| > 0 && s[0].filter != filter
    requires Filters(rest) == Filters(s[1..]) - {filter}
    requires AsMap(rest) == AsMap(s[1..]) - {filter}
    ensures Ordered([s[0]] + rest)
    ensures Filters([s[0]] + rest) == Filters(s) - {filter}
    ensures AsMap([s[0]] + rest) == AsMap(s) - {filter}
  {
    HeadBelowRest(s);
    ConsOrdered(s[0], rest);
    RemoveLaterOf(s, filter, rest);
  }

  lemma RemoveLaterOf(s: seq<Entry>, filter: seq<Char8>, rest: seq<Entry>)
    requires |s| > 0 && s[0].filter != filter
    requires Filters(rest) == Filters(s[1..]) - {filter}
    requires AsMap(rest) == AsMap(s[1..]) - {filter}
    ensures Filters([s[0]] + rest) == Filters(s) - {filter}
    ensures AsMap([s[0]] + rest) == AsMap(s) - {filter}
  {
    var t := s[1..];
    assert s == [s[0]] + t;
    FiltersCons(s[0], t);
    FiltersCons(s[0], rest);
    AsMapCons(s[0], t);
    AsMapCons(s[0], rest);
    UpdateThenRemove(AsMap(t), s[0].filter, s[0].callback, filter);
  }

  /** `subscriptions[filter] = callback`: the entry for `filter` is added,
      or its callback replaced, and every other entry is left as it was. */
  function Subscribe(s: Registry, filter: seq<Char8>, callback: CallbackId): (r: Registry)
    ensures Filters(r) == Filters(s) + {filter}
    ensures AsMap(r) == AsMap(s)[filter := callback]
    decreases |s|
  {
    var e := Entry(filter, callback);
    if |s| == 0 then
      FiltersCons(e, []);
      [e]
    else if s[0].filter == filter then
      ReplaceHead(s, e);
      [e] + s[1..]
    else if Below(filter, s[0].filter) then
      InsertFront(s, e);
      [e] + s
    else
      TailOrdered(s);
      var rest := Subscribe(s[1..], filter, callback);
      InsertLater(s, e, rest);
      [s[0]] + rest
  }

  /** `subscriptions.erase(filter)`: the entry for `filter`, if any, is
      removed, and every other entry is left as it was. */
  function Unsubscribe(s: Registry, filter: seq<Char8>): (r: Registry)
    ensures Filters(r) == Filters(s) - {filter}
    ensures AsMap(r) == AsMap(s) - {filter}
    decreases |s|
  {
    if |s| == 0 then []
    else if s[0].filter == filter then
      TailOrdered(s);
      RemoveHead(s);
      s[1..]
    else
      TailOrdered(s);
      var rest := Unsubscribe(s[1..], filter);
      RemoveLater(s, filter, rest);
      [s[0]] + rest
  }

  lemma FirstFilterListed(s: seq<Entry>)
    ensures |s| > 0 ==> s[0].filter in Filters(s)
  {
    if |s| > 0 {
      assert s[0] in s;
    }
  }

  /** The first filter of a registry is its least. */
  lemma HeadIsLeast(s: Registry, f: seq<Char8>)
    requires |s| > 0 && f in Filters(s)
    ensures f == s[0].filter || Below(s[0].filter, f)
  {
    var e :| e in s && e.filter == f;
    var j :| 0 <= j < |s| && s[j] == e;
  }

  /** A registry is determined by the map it represents: the ordered
      sequence is the only one with those contents. */
  lemma {:induction false} MapDeterminesRegistry(a: Registry, b: Registry)
    requires AsMap(a) == AsMap(b)
    ensures a == b
    decreases |a|
  {
    SameMapSameLength(a, b);
    if |a| > 0 {
      SameMapSameHead(a, b);
      TailOrdered(a);
      TailOrdered(b);
      MapDeterminesRegistry(a[1..], b[1..]);
      assert a == [a[0]] + a[1..];
      assert b == [b[0]] + b[1..];
    }
  }

  /** Registries with the same map are both empty or both not. */
  lemma SameMapSameLength(a: Registry, b: Registry)
    requires AsMap(a) == AsMap(b)
    ensures |a| == 0 <==> |b| == 0
  {
    AsMapContents(a);
    AsMapContents(b);
    FirstFilterListed(a);
    FirstFilterListed(b);
  }

  /** Registries with the same map start with the same entry, and the rest
      of each has the same map too. */
  lemma SameMapSameHead(a: Registry, b: Registry)
    requires AsMap(a) == AsMap(b) && |a| > 0 && |b| > 0
    ensures a[0] == b[0]
    ensures AsMap(a[1..]) == AsMap(b[1..])
  {
    AsMapContents(a);
    AsMapContents(b);
    FirstFilterListed(a);
    FirstFilterListed(b);
    HeadIsLeast(a, b[0].filter);
    HeadIsLeast(b, a[0].filter);
    BelowAsymmetric(a[0].filter, b[0].filter);
    assert a[0] == b[0];
    RemoveHead(a);
    RemoveHead(b);
  }

  /** Subscribing a filter again replaces its callback: the registry is as
      if only the last subscription had been made. */
  lemma SubscribeReplaces(s: Registry, filter: seq<Char8>, first: CallbackId, second: CallbackId)
    ensures Subscribe(Subscribe(s, filter, first), filter, second) == Subscribe(s, filter, second)
  {
    UpdateTwice(AsMap(s), filter, first, second);
    MapDeterminesRegistry(Subscribe(Subscribe(s, filter, first), filter, second), Subscribe(s, filter, second));
  }

  /** Subscriptions to different filters do not interfere: their order
      does not matter. */
  lemma SubscribeCommutes(s: Registry, f: seq<Char8>, c: CallbackId, g: seq<Char8>, d: CallbackId)
    requires f != g
    ensures Subscribe(Subscribe(s, f, c), g, d) == Subscribe(Subscribe(s, g, d), f, c)
  {
    UpdatesCommute(AsMap(s), f, c, g, d);
    MapDeterminesRegistry(Subscribe(Subscribe(s, f, c), g, d), Subscribe(Subscribe(s, g, d), f, c));
  }

  /** Unsubscribing a filter that has no subscription changes nothing, and
      unsubscribing a new subscription undoes it. */
  lemma UnsubscribeUndoes(s: Registry, filter: seq<Char8>, callback: CallbackId)
    ensures filter !in AsMap(s) ==> Unsubscribe(s, filter) == s
    ensures filter !in AsMap(s) ==> Unsubscribe(Subscribe(s, filter, callback), filter) == s
  {
    if filter !in AsMap(s) {
      assert AsMap(s) - {filter} == AsMap(s);
      MapDeterminesRegistry(Unsubscribe(s, filter), s);
      assert AsMap(s)[filter := callback] - {filter} == AsMap(s);
      MapDeterminesRegistry(Unsubscribe(Subscribe(s, filter, callback), filter), s);
    }
  }
}
