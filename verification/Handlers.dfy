/**
 The table of message handlers of the C client: a fixed array of slots that stands for a finite
 map from topic filters to handlers, and the delivery of a message to it.
 */
module Handlers {
  import opened Bytes
  import Topics

  const SUCCESS: int := 0
  const FAILURE: int := -1

  lemma HandlerNumbers()
    ensures SUCCESS == 0 && FAILURE == -1
  {
  }

  /** A function pointer. */
  type Handler = nat

  /** A free slot has no filter. */
  datatype Slot = Slot(filter: Option<bytes>, handler: Option<Handler>)

  /** The map the slots stand for. */
  ghost function View(slots: seq<Slot>): map<bytes, Handler> {
    if slots == [] then map[]
    else
      var last := slots[|slots| - 1];
      var rest := View(slots[..|slots| - 1]);
      if last.filter.Some? && last.handler.Some? then rest[last.filter.value := last.handler.value] else rest
  }

  /** No filter is in two slots, and exactly the occupied slots have a handler. */
  ghost predicate Valid(slots: seq<Slot>) {
    && (forall i :: 0 <= i < |slots| ==> (slots[i].filter.Some? <==> slots[i].handler.Some?))
    && (forall i, j :: 0 <= i < j < |slots| && slots[i].filter.Some? ==> slots[i].filter != slots[j].filter)
  }

  lemma {:induction false} ViewHas(slots: seq<Slot>, f: bytes)
    requires Valid(slots)
    ensures f in View(slots) <==> exists i :: 0 <= i < |slots| && slots[i].filter == Some(f)
    ensures forall i :: 0 <= i < |slots| && slots[i].filter == Some(f) ==>
              f in View(slots) && View(slots)[f] == slots[i].handler.value
  {
    if slots != [] {
      ViewHas(slots[..|slots| - 1], f);
      var s := slots[..|slots| - 1];
      assert forall i :: 0 <= i < |s| ==> s[i] == slots[i];
    }
  }

  /** The map has as many entries as there are occupied slots, so it is full exactly when no slot
      is free. */
  lemma {:induction false} ViewSize(slots: seq<Slot>)
    requires Valid(slots)
    ensures |View(slots)| <= |slots|
    ensures |View(slots)| == |slots| <==> forall i :: 0 <= i < |slots| ==> slots[i].filter.Some?
  {
    if slots != [] {
      var n := |slots| - 1;
      var s, last := slots[..n], slots[n];
      assert forall i :: 0 <= i < |s| ==> s[i] == slots[i];
      ViewSize(s);
      if last.filter.Some? {
        ViewHas(s, last.filter.value);
        assert last.filter.value !in View(s);
        var v := View(s)[last.filter.value := last.handler.value];
        assert v.Keys == View(s).Keys + {last.filter.value};
      }
    }
  }

  /** What storing in slot `i` does to the map, when that slot is free or holds the same filter. */
  lemma ViewStore(slots: seq<Slot>, i: nat, f: bytes, h: Handler)
    requires Valid(slots) && i < |slots|
    requires slots[i].filter == Some(f) || (slots[i].filter.None? && f !in View(slots))
    ensures Valid(slots[i := Slot(Some(f), Some(h))])
    ensures View(slots[i := Slot(Some(f), Some(h))]) == View(slots)[f := h]
  {
    ViewHas(slots, f);
    var s := slots[i := Slot(Some(f), Some(h))];
    assert Valid(s);
    forall g: bytes
      ensures g in View(s) <==> g in View(slots) || g == f
      ensures g in View(s) ==> View(s)[g] == if g == f then h else View(slots)[g]
    {
      ViewHas(slots, g);
      ViewHas(s, g);
      assert s[i].filter == Some(f);
      assert forall j :: 0 <= j < |slots| && j != i ==> s[j] == slots[j];
    }
    assert View(s) == View(slots)[f := h];
  }

  lemma ViewRemove(slots: seq<Slot>, i: nat, f: bytes)
    requires Valid(slots) && i < |slots| && slots[i].filter == Some(f)
    ensures Valid(slots[i := Slot(None, None)])
    ensures View(slots[i := Slot(None, None)]) == View(slots) - {f}
  {
    var s := slots[i := Slot(None, None)];
    assert Valid(s);
    forall g: bytes
      ensures g in View(s) <==> g in View(slots) && g != f
      ensures g in View(s) ==> View(s)[g] == View(slots)[g]
    {
      ViewHas(slots, g);
      ViewHas(s, g);
      assert forall j :: 0 <= j < |slots| && j != i ==> s[j] == slots[j];
    }
    assert View(s) == View(slots) - {f};
  }

  /** Setting (Some) or removing (None) a handler, on the map. A new filter needs room. */
  datatype Request = Request(filter: bytes, handler: Option<Handler>)

  ghost function Apply(m: map<bytes, Handler>, capacity: nat, r: Request): map<bytes, Handler> {
    if r.handler.None? then m - {r.filter}
    else if r.filter in m || |m| < capacity then m[r.filter := r.handler.value]
    else m
  }

  /** The requests that fail: removing what is not there, and adding to a full table. */
  ghost predicate Fails(m: map<bytes, Handler>, capacity: nat, r: Request) {
    r.filter !in m && (r.handler.None? || |m| == capacity)
  }

  ghost function ApplyAll(m: map<bytes, Handler>, capacity: nat, rs: seq<Request>): map<bytes, Handler> {
    if rs == [] then m
    else Apply(ApplyAll(m, capacity, rs[..|rs| - 1]), capacity, rs[|rs| - 1])
  }

  predicate Matches(filter: bytes, topic: bytes) {
    filter == topic || Topics.Scan(filter, topic)
  }

  /** Against the standard, for every well-formed filter and every topic: a handler gets the message when its
      filter is the topic itself, or matches it by sections 4.7.1.2 and 4.7.1.3, unless the filter has more
      levels than the topic or a wildcard meets an empty level. */
  lemma MatchesExactly(filter: bytes, topic: bytes)
    requires Topics.WellFormed(Topics.Levels(filter))
    ensures var f, n := Topics.Levels(filter), Topics.Levels(topic);
            Matches(filter, topic) <==>
            filter == topic || (Topics.MatchStandard(f, n) && |f| <= |n| && !Topics.EmptyAtWildcard(f, n))
  {
    Topics.ScanExactly(filter, topic);
  }

  /** The handlers a message goes to, with their filters, in slot order. */
  function Matching(slots: seq<Slot>, topic: bytes): seq<(bytes, Handler)> {
    if slots == [] then []
    else
      var last := slots[|slots| - 1];
      Matching(slots[..|slots| - 1], topic) +
      if last.filter.Some? && Matches(last.filter.value, topic) && last.handler.Some? then
        [(last.filter.value, last.handler.value)]
      else []
  }

  /** On the map: every matching filter gets the message exactly once, and nobody else does. */
  lemma MatchingIsView(slots: seq<Slot>, topic: bytes)
    requires Valid(slots)
    ensures var calls := Matching(slots, topic);
            && (forall f: bytes, h: Handler :: (f, h) in calls <==>
                  f in View(slots) && View(slots)[f] == h && Matches(f, topic))
            && (forall i, j :: 0 <= i < j < |calls| ==> calls[i].0 != calls[j].0)
  {
    MatchingIn(slots, topic);
    MatchingOnce(slots, topic);
  }

  lemma {:induction false} MatchingIn(slots: seq<Slot>, topic: bytes)
    requires Valid(slots)
    ensures forall f: bytes, h: Handler :: (f, h) in Matching(slots, topic) <==>
              f in View(slots) && View(slots)[f] == h && Matches(f, topic)
  {
    hide Matches, View, Valid;
    if slots == [] {
      NoView();
    } else {
      var n := |slots| - 1;
      var s, last := slots[..n], slots[n];
      ValidFront(slots);
      MatchingIn(s, topic);
      ViewLast(slots);
    }
  }

  ghost predicate Distinct(calls: seq<(bytes, Handler)>) {
    forall i, j :: 0 <= i < j < |calls| ==> calls[i].0 != calls[j].0
  }

  lemma {:induction false} MatchingOnce(slots: seq<Slot>, topic: bytes)
    requires Valid(slots)
    ensures Distinct(Matching(slots, topic))
  {
    hide Matches, View, Valid;
    if slots != [] {
      var n := |slots| - 1;
      var s, last := slots[..n], slots[n];
      ValidFront(slots);
      MatchingOnce(s, topic);
      MatchingIn(s, topic);
      var rest := Matching(s, topic);
      forall i | 0 <= i < |rest| ensures rest[i].0 in View(s) {
        assert (rest[i].0, rest[i].1) in rest;
      }
    }
  }

  /** The last slot has a filter no other slot has. */
  lemma ValidFront(slots: seq<Slot>)
    requires Valid(slots) && slots != []
    ensures Valid(slots[..|slots| - 1])
    ensures var last := slots[|slots| - 1];
            && (last.filter.Some? <==> last.handler.Some?)
            && (last.filter.Some? ==> last.filter.value !in View(slots[..|slots| - 1]))
  {
    hide View;
    var s, last := slots[..|slots| - 1], slots[|slots| - 1];
    assert forall i :: 0 <= i < |s| ==> s[i] == slots[i];
    if last.filter.Some? {
      ViewHas(s, last.filter.value);
    }
  }

  lemma NoView()
    ensures View([]) == map[]
  {
  }

  lemma ViewLast(slots: seq<Slot>)
    requires Valid(slots) && slots != []
    ensures var last, rest := slots[|slots| - 1], View(slots[..|slots| - 1]);
            View(slots) == if last.filter.Some? then rest[last.filter.value := last.handler.value] else rest
  {
  }

  class Client {
    const slots: array<Slot>
    var defaultHandler: Option<Handler>

    constructor (capacity: nat)
      ensures fresh(slots) && slots.Length == capacity && defaultHandler == None
      ensures Valid(slots[..]) && View(slots[..]) == map[]
    {
      slots := new Slot[capacity](_ => Slot(None, None));
      defaultHandler := None;
      new;
      NoSlots(slots[..]);
    }

    /** MQTTSetMessageHandler refines the map operation, and says so in its result. */
    method SetMessageHandler(filter: bytes, handler: Option<Handler>) returns (rc: int)
      requires Valid(slots[..])
      modifies slots
      ensures Valid(slots[..])
      ensures View(slots[..]) == Apply(old(View(slots[..])), slots.Length, Request(filter, handler))
      ensures rc == if Fails(old(View(slots[..])), slots.Length, Request(filter, handler)) then FAILURE else SUCCESS
    {
      hide View, Valid;
      rc := FAILURE;
      ghost var before := slots[..];
      ViewSize(before);
      ViewHas(before, filter);
      var i := 0;
      while i < slots.Length
        invariant 0 <= i <= slots.Length && slots[..] == before && rc == FAILURE
        invariant forall j :: 0 <= j < i ==> before[j].filter != Some(filter)
      {
        if slots[i].filter == Some(filter) {
          if handler.None? {
            ViewRemove(before, i, filter);
            slots[i] := Slot(None, None);
            assert slots[..] == before[i := Slot(None, None)];
          }
          rc := SUCCESS;
          break;
        }
        i := i + 1;
      }
      if handler.Some? {
        if rc == FAILURE {
          i := 0;
          while i < slots.Length
            invariant 0 <= i <= slots.Length && slots[..] == before && rc == FAILURE
            invariant forall j :: 0 <= j < i ==> before[j].filter.Some?
          {
            if slots[i].filter.None? {
              rc := SUCCESS;
              break;
            }
            i := i + 1;
          }
        }
        if i < slots.Length {
          ViewStore(before, i, filter, handler.value);
          slots[i] := Slot(Some(filter), handler);
          assert slots[..] == before[i := Slot(Some(filter), handler)];
        }
      }
    }

    /** deliverMessage: the handlers called, in order; the default one is called exactly when it is
        set and no other was. */
    method DeliverMessage(topic: bytes) returns (rc: int, calls: seq<Handler>)
      ensures var found := Matching(slots[..], topic);
              && calls == (if found != [] then Handlers(found)
                           else if defaultHandler.Some? then [defaultHandler.value] else [])
              && rc == if calls != [] then SUCCESS else FAILURE
    {
      rc, calls := FAILURE, [];
      ghost var found := [];
      for i := 0 to slots.Length
        invariant found == Matching(slots[..i], topic) && calls == Handlers(found)
        invariant rc == if calls != [] then SUCCESS else FAILURE
      {
        assert slots[..i + 1][..i] == slots[..i];
        var slot := slots[i];
        if slot.filter.Some? {
          var matched := Topics.IsTopicMatched(slot.filter.value, topic);
          if slot.filter.value == topic || matched {
            if slot.handler.Some? {
              HandlersSnoc(found, (slot.filter.value, slot.handler.value));
              calls := calls + [slot.handler.value];
              found := found + [(slot.filter.value, slot.handler.value)];
              rc := SUCCESS;
            }
          }
        }
      }
      assert slots[..slots.Length] == slots[..];
      if rc == FAILURE && defaultHandler.Some? {
        calls := [defaultHandler.value];
        rc := SUCCESS;
      }
    }
  }

  function Handlers(calls: seq<(bytes, Handler)>): (r: seq<Handler>)
    ensures |r| == |calls|
  {
    seq(|calls|, i requires 0 <= i < |calls| => calls[i].1)
  }

  lemma HandlersSnoc(calls: seq<(bytes, Handler)>, c: (bytes, Handler))
    ensures Handlers(calls + [c]) == Handlers(calls) + [c.1]
  {
  }

  lemma {:induction false} NoSlots(slots: seq<Slot>)
    requires forall i :: 0 <= i < |slots| ==> slots[i] == Slot(None, None)
    ensures Valid(slots) && View(slots) == map[]
  {
    if slots != [] {
      NoSlots(slots[..|slots| - 1]);
    }
  }

  /** Any sequence of settings, replacements and removals, on a table of any capacity. */
  method Run(capacity: nat, requests: seq<Request>) returns (client: Client)
    ensures fresh(client) && client.slots.Length == capacity
    ensures Valid(client.slots[..])
    ensures View(client.slots[..]) == ApplyAll(map[], capacity, requests)
    ensures |View(client.slots[..])| <= capacity
  {
    client := new Client(capacity);
    assert requests[..0] == [];
    for i := 0 to |requests|
      invariant fresh(client) && fresh(client.slots) && client.slots.Length == capacity
      invariant Valid(client.slots[..])
      invariant View(client.slots[..]) == ApplyAll(map[], capacity, requests[..i])
    {
      assert requests[..i + 1][..i] == requests[..i];
      var _ := client.SetMessageHandler(requests[i].filter, requests[i].handler);
    }
    assert requests[..|requests|] == requests;
    ViewSize(client.slots[..]);
  }
}
