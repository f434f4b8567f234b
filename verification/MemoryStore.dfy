/** The persistent store's tables and the statements that change them (cricket/memory/store.py). */
module MemoryStores {
  import opened Wrappers
  import opened MemoryHistory

  ghost predicate Agrees(memory: map<Key, Row>, h: seq<Op>) {
    forall k :: RowOf(h, k) == if k in memory then Some(memory[k]) else None
  }

  /** Ids grow from above `low` to below `next`. */
  predicate Increasing(es: seq<Event>, low: int, next: nat) {
    es == [] || (low < es[0].id < next && Increasing(es[1..], es[0].id, next))
  }

  /** The events an update by id changes. */
  function Matching(es: seq<Event>, id: nat): nat {
    if es == [] then 0 else (if es[0].id == id then 1 else 0) + Matching(es[1..], id)
  }

  /** The rows a masking statement sets to `masked`. */
  function Masking(memory: map<Key, Row>, hit: set<Key>, masked: bool): map<Key, Row> {
    map k | k in memory :: if k in hit then memory[k].(masked := masked) else memory[k]
  }

  lemma AgreesNext(memory: map<Key, Row>, h: seq<Op>, op: Op, memory': map<Key, Row>)
    requires Agrees(memory, h)
    requires forall k ::
      (if k in memory' then Some(memory'[k]) else None) ==
      if Deletes(op, k) then None
      else if op.Remember? && op.key == k then Some(Row(op.value, k in memory && memory[k].masked))
      else if VerdictOn(op, k).Some? && k in memory then Some(Row(memory[k].value, VerdictOn(op, k).value))
      else if k in memory then Some(memory[k]) else None
    ensures Agrees(memory', h + [op])
  {
    forall k
      ensures RowOf(h + [op], k) == if k in memory' then Some(memory'[k]) else None
    {
      RowStep(h, op, k);
    }
  }

  lemma {:induction false} NotAtIncreasing(es: seq<Event>, location: string, low: int, low': int, next: nat)
    requires Increasing(es, low, next) && low' <= low
    ensures Increasing(NotAt(es, location), low', next)
    ensures |NotAt(es, location)| <= |es|
  {
    if es != [] {
      NotAtIncreasing(es[1..], location, es[0].id, if es[0].location == location then low' else es[0].id, next);
      var rest := NotAt(es[1..], location);
      assert ([es[0]] + rest)[1..] == rest && [] + rest == rest;
    }
  }

  lemma {:induction false} SetMaskedIncreasing(es: seq<Event>, id: nat, masked: bool, low: int, next: nat)
    requires Increasing(es, low, next)
    ensures Increasing(SetMasked(es, id, masked), low, next)
  {
    if es != [] {
      SetMaskedIncreasing(es[1..], id, masked, es[0].id, next);
      assert SetMasked(es, id, masked)[1..] == SetMasked(es[1..], id, masked);
    }
  }

  lemma {:induction false} IncreasingSnoc(es: seq<Event>, e: Event, low: int, next: nat)
    requires Increasing(es, low, next) && e.id == next && low < next
    ensures Increasing(es + [e], low, next + 1)
  {
    if es == [] {
      assert es + [e] == [e] && [e][1..] == [];
    } else {
      IncreasingSnoc(es[1..], e, es[0].id, next);
      assert (es + [e])[1..] == es[1..] + [e];
    }
  }

  /** No two events have the same id. */
  lemma {:induction false} AtMostOne(es: seq<Event>, id: nat, low: int, next: nat)
    requires Increasing(es, low, next)
    ensures Matching(es, id) <= if id <= low then 0 else 1
  {
    if es != [] {
      AtMostOne(es[1..], id, es[0].id, next);
    }
  }

  lemma {:induction false} MatchingIs(es: seq<Event>, id: nat)
    ensures Matching(es, id) > 0 <==> exists e :: e in es && e.id == id
  {
    if es != [] {
      MatchingIs(es[1..], id);
      assert es[0] in es && forall e :: e in es <==> e == es[0] || e in es[1..];
    }
  }

  lemma VisibleStep(es: seq<Event>, i: nat, location: string, rows: seq<Event>)
    requires i < |es|
    ensures Visible(es[..i + 1], location) + rows ==
      Visible(es[..i], location) + ((if es[i].location == location && !es[i].masked then [es[i]] else []) + rows)
  {
    assert es[..i + 1] == es[..i] + [es[i]];
    VisibleAppend(es[..i], [es[i]], location);
    OneEvent(es[i], 0, false, location);
    Assoc(Visible(es[..i], location), Visible([es[i]], location), rows);
  }

  class MemoryStore {
    var memory: map<Key, Row>
    var events: seq<Event>
    var nextId: nat
    ghost var history: seq<Op>

    ghost predicate Valid()
      reads this
    {
      Agrees(memory, history) && events == Events(history) && Increasing(events, 0, nextId) && nextId > 0
    }

    constructor ()
      ensures Valid() && history == []
    {
      memory, events, nextId, history := map[], [], 1, [];
    }

    /** Inserts the row, or replaces its value and keeps its mask. */
    method Remember(key: Key, value: string)
      requires Valid()
      modifies this
      ensures Valid() && history == old(history) + [Op.Remember(key, value)]
    {
      var row := if key in memory then memory[key].(value := value) else Row(value, false);
      var memory' := memory[key := row];
      var op := Op.Remember(key, value);
      AgreesNext(memory, history, op, memory');
      EventsSnoc(history, op);
      memory, history := memory', history + [op];
    }

    method Recall(key: Key) returns (value: Option<string>)
      requires Valid()
      ensures value == Recalled(history, key)
    {
      value := if key in memory && !memory[key].masked then Some(memory[key].value) else None;
    }

    method MaskMemory(scope: string, owner: string, name: Option<string>, masked: bool) returns (n: nat)
      requires Valid()
      modifies this
      ensures Valid() && history == old(history) + [Mask(scope, owner, name, masked)]
      ensures n == |set k | k in old(memory) && Hits(scope, owner, name, k)|
    {
      var hit := set k | k in memory && Hits(scope, owner, name, k);
      n := |hit|;
      var op := Mask(scope, owner, name, masked);
      var memory' := Masking(memory, hit, masked);
      AgreesNext(memory, history, op, memory');
      EventsSnoc(history, op);
      memory, history := memory', history + [op];
    }

    method DeleteMemory(scope: string, owner: string, name: Option<string>) returns (n: nat)
      requires Valid()
      modifies this
      ensures Valid() && history == old(history) + [Delete(scope, owner, name)]
      ensures n == |set k | k in old(memory) && Hits(scope, owner, name, k)|
      ensures events == old(events) && nextId == old(nextId)
    {
      var hit := set k | k in memory && Hits(scope, owner, name, k);
      n := |hit|;
      var op := Delete(scope, owner, name);
      var memory' := memory - hit;
      AgreesNext(memory, history, op, memory');
      EventsSnoc(history, op);
      memory, history := memory', history + [op];
    }

    method ClearAllDirectives() returns (n: nat)
      requires Valid()
      modifies this
      ensures Valid() && history == old(history) + [ClearDirectives]
      ensures n == |set k | k in old(memory) && k.scope == "directive" && !old(memory)[k].masked|
    {
      var hit := set k | k in memory && k.scope == "directive" && !memory[k].masked;
      n := |hit|;
      var memory' := Masking(memory, hit, true);
      AgreesNext(memory, history, ClearDirectives, memory');
      EventsSnoc(history, ClearDirectives);
      memory, history := memory', history + [ClearDirectives];
    }

    method LogEvent(location: string, text: string) returns (id: nat)
      requires Valid()
      modifies this
      ensures Valid() && history == old(history) + [Log(id, location, text)]
      ensures Increasing(old(events), 0, id)
    {
      id := nextId;
      var op := Log(id, location, text);
      AgreesNext(memory, history, op, memory);
      EventsSnoc(history, op);
      IncreasingSnoc(events, Event(id, location, text, false), 0, nextId);
      events, nextId, history := events + [Event(id, location, text, false)], nextId + 1, history + [op];
    }

    /** At most one event has the id. */
    method MaskOneEvent(id: nat, masked: bool) returns (n: nat)
      requires Valid()
      modifies this
      ensures Valid() && history == old(history) + [MaskEvent(id, masked)]
      ensures n == Matching(old(events), id) <= 1
      ensures n == 1 <==> exists e :: e in old(events) && e.id == id
    {
      n := Matching(events, id);
      AtMostOne(events, id, 0, nextId);
      MatchingIs(events, id);
      var op := MaskEvent(id, masked);
      AgreesNext(memory, history, op, memory);
      EventsSnoc(history, op);
      SetMaskedIncreasing(events, id, masked, 0, nextId);
      events, history := SetMasked(events, id, masked), history + [op];
    }

    method PurgeLocation(location: string) returns (n: nat)
      requires Valid()
      modifies this
      ensures Valid() && history == old(history) + [Purge(location)]
      ensures n == |old(events)| - |events|
      ensures memory == old(memory)
    {
      var op := Purge(location);
      AgreesNext(memory, history, op, memory);
      EventsSnoc(history, op);
      NotAtIncreasing(events, location, 0, 0, nextId);
      var events' := NotAt(events, location);
      n := |events| - |events'|;
      events, history := events', history + [op];
    }

    /** A room's summary and cast are deleted, and its events. */
    method PurgeScene(room: string) returns (rows: nat, gone: nat)
      requires Valid()
      modifies this
      ensures Valid() && history == old(history) + [Delete("scene", room, None)] + [Purge(room)]
      ensures forall name :: Recalled(history, Key("scene", room, name)) == None
      ensures Visible(events, room) == []
      ensures forall k: Key :: k.scope != "scene" || k.owner != room ==> Recalled(history, k) == Recalled(old(history), k)
      ensures forall location :: location != room ==> Visible(events, location) == Visible(old(events), location)
    {
      rows := DeleteMemory("scene", room, None);
      gone := PurgeLocation(room);
      PurgedSceneForgotten(old(history), room);
    }

    /** Newest first up to the limit, then reversed. */
    method RecentEvents(location: string, n: int) returns (rows: seq<Event>)
      requires Valid()
      ensures rows == Recent(history, location, n)
      ensures var seen := Visible(events, location);
        && |rows| == (if n < 0 || |seen| < n then |seen| else n)
        && rows == seen[|seen| - |rows|..]
    {
      rows := [];
      var es := events;
      var i := |es|;
      assert es[..i] == es;
      while i > 0 && |rows| != n
        invariant 0 <= i <= |es|
        invariant n >= 0 ==> |rows| <= n
        invariant Visible(es, location) == Visible(es[..i], location) + rows
      {
        i := i - 1;
        VisibleStep(es, i, location, rows);
        rows := (if es[i].location == location && !es[i].masked then [es[i]] else []) + rows;
      }
    }
  }
}
