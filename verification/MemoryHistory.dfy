/** What the memory store is to answer, read off its history of operations
    (cricket/memory/store.py). */
module MemoryHistory {
  import opened Wrappers

  /** A memory row's primary key: scope, scope key, key. */
  datatype Key = Key(scope: string, owner: string, name: string)

  datatype Row = Row(value: string, masked: bool)

  datatype Event = Event(id: nat, location: string, text: string, masked: bool)

  datatype Op =
    | Remember(key: Key, value: string)
    | Mask(scope: string, owner: string, name: Option<string>, masked: bool)
    | Delete(scope: string, owner: string, name: Option<string>)
    | ClearDirectives
    | Log(id: nat, location: string, text: string)
    | MaskEvent(id: nat, masked: bool)
    | Purge(location: string)

  /** The rows an operation without key name, or with one, is about. */
  predicate Hits(scope: string, owner: string, name: Option<string>, k: Key) {
    k.scope == scope && k.owner == owner && (name.None? || name.value == k.name)
  }

  predicate Deletes(op: Op, k: Key) {
    op.Delete? && Hits(op.scope, op.owner, op.name, k)
  }

  /** A masking verdict on the row of `k`, if the operation is one. */
  function VerdictOn(op: Op, k: Key): Option<bool> {
    match op
    case Mask(s, o, n, m) => if Hits(s, o, n, k) then Some(m) else None
    case ClearDirectives => if k.scope == "directive" then Some(true) else None
    case _ => None
  }

  // ----- key/value memory

  /** The operations on the row of `k` since it was created. */
  function Life(h: seq<Op>, k: Key): seq<Op> {
    if h == [] then []
    else
      var life, op := Life(h[..|h| - 1], k), h[|h| - 1];
      if Deletes(op, k) then []
      else if op.Remember? && op.key == k then life + [op]
      else if VerdictOn(op, k).Some? && life != [] then life + [op]
      else life
  }

  function LastValue(life: seq<Op>): string {
    if life == [] then ""
    else if life[|life| - 1].Remember? then life[|life| - 1].value
    else LastValue(life[..|life| - 1])
  }

  function LastVerdict(life: seq<Op>, k: Key): bool {
    if life == [] then false
    else if VerdictOn(life[|life| - 1], k).Some? then VerdictOn(life[|life| - 1], k).value
    else LastVerdict(life[..|life| - 1], k)
  }

  /** The row the history leaves under `k`. */
  function RowOf(h: seq<Op>, k: Key): Option<Row> {
    var life := Life(h, k);
    if life == [] then None else Some(Row(LastValue(life), LastVerdict(life, k)))
  }

  /** What `recall` is to answer. */
  function Recalled(h: seq<Op>, k: Key): Option<string> {
    var row := RowOf(h, k);
    if row.None? || row.value.masked then None else Some(row.value.value)
  }

  lemma LifeSnoc(life: seq<Op>, op: Op, k: Key)
    ensures LastValue(life + [op]) == if op.Remember? then op.value else LastValue(life)
    ensures LastVerdict(life + [op], k) ==
      if VerdictOn(op, k).Some? then VerdictOn(op, k).value else LastVerdict(life, k)
  {
    assert (life + [op])[..|life|] == life;
  }

  /** One more operation: an overwritten row keeps its verdict, a new row has none. */
  lemma RowStep(h: seq<Op>, op: Op, k: Key)
    ensures RowOf(h + [op], k) ==
      if Deletes(op, k) then None
      else if op.Remember? && op.key == k then
        Some(Row(op.value, RowOf(h, k).Some? && RowOf(h, k).value.masked))
      else if VerdictOn(op, k).Some? && RowOf(h, k).Some? then
        Some(Row(RowOf(h, k).value.value, VerdictOn(op, k).value))
      else RowOf(h, k)
  {
    var life, life' := Life(h, k), Life(h + [op], k);
    assert (h + [op])[..|h|] == h;
    LifeSnoc(life, op, k);
    if Deletes(op, k) {
      assert life' == [];
    } else if op.Remember? && op.key == k {
      assert life' == life + [op];
    } else if VerdictOn(op, k).Some? && life != [] {
      assert life' == life + [op];
    } else {
      assert life' == life;
    }
  }

  /** A statement on a scope, an owner and, if one is given, a key name is about those rows alone. */
  lemma HitsExactly(h: seq<Op>, scope: string, owner: string, name: Option<string>, k: Key)
    ensures var hit := k.scope == scope && k.owner == owner && (name == None || name == Some(k.name));
      && Recalled(h + [Delete(scope, owner, name)], k) == (if hit then None else Recalled(h, k))
      && Recalled(h + [Mask(scope, owner, name, true)], k) == (if hit then None else Recalled(h, k))
      && (!hit ==> Recalled(h + [Mask(scope, owner, name, false)], k) == Recalled(h, k))
      && (hit && RowOf(h, k).Some? ==> Recalled(h + [Mask(scope, owner, name, false)], k) == Some(RowOf(h, k).value.value))
      && Recalled(h + [ClearDirectives], k) == (if k.scope == "directive" then None else Recalled(h, k))
  {
    RowStep(h, Delete(scope, owner, name), k);
    RowStep(h, Mask(scope, owner, name, true), k);
    RowStep(h, Mask(scope, owner, name, false), k);
    RowStep(h, ClearDirectives, k);
  }

  /** A masked row stays hidden through any operations that neither delete nor unmask it. */
  lemma {:induction false} HiddenUntilUnmasked(h: seq<Op>, ops: seq<Op>, k: Key)
    requires RowOf(h, k).Some? && RowOf(h, k).value.masked
    requires forall i :: 0 <= i < |ops| ==> !Deletes(ops[i], k) && VerdictOn(ops[i], k) != Some(false)
    ensures RowOf(h + ops, k).Some? && RowOf(h + ops, k).value.masked
    ensures Recalled(h + ops, k) == None
  {
    if ops == [] {
      assert h + ops == h;
    } else {
      var front := ops[..|ops| - 1];
      HiddenUntilUnmasked(h, front, k);
      RowStep(h + front, ops[|ops| - 1], k);
      assert h + ops == (h + front) + [ops[|ops| - 1]];
    }
  }

  /** A rule saved again after the directives were cleared stays hidden: the new value goes into
      the masked row. */
  lemma RelearnedRuleStaysHidden(h: seq<Op>, k: Key, rule: string)
    requires k.scope == "directive"
    ensures var after := h + [ClearDirectives, Remember(k, rule)];
      Recalled(after, k) == if RowOf(h, k).Some? then None else Some(rule)
  {
    var cleared := h + [ClearDirectives];
    assert h + [ClearDirectives, Remember(k, rule)] == cleared + [Remember(k, rule)];
    RowStep(h, ClearDirectives, k);
    RowStep(cleared, Remember(k, rule), k);
  }

  // ----- events

  predicate Purged(later: seq<Op>, location: string) {
    later != [] && (later[0] == Purge(location) || Purged(later[1..], location))
  }

  /** The latest verdict on an event, unmasked if there is none. */
  function EventMasked(later: seq<Op>, id: nat): bool {
    if later == [] then false
    else if later[|later| - 1].MaskEvent? && later[|later| - 1].id == id then later[|later| - 1].masked
    else EventMasked(later[..|later| - 1], id)
  }

  /** The event an operation logged, unless it was purged later. */
  function Logged(op: Op, later: seq<Op>): seq<Event> {
    if op.Log? && !Purged(later, op.location)
    then [Event(op.id, op.location, op.text, EventMasked(later, op.id))]
    else []
  }

  /** The events logged and not purged later, oldest first. */
  function Events(h: seq<Op>): seq<Event> {
    if h == [] then [] else Logged(h[0], h[1..]) + Events(h[1..])
  }

  function NotAt(es: seq<Event>, location: string): seq<Event> {
    if es == [] then [] else (if es[0].location == location then [] else [es[0]]) + NotAt(es[1..], location)
  }

  /** The unmasked events of a location. */
  function Visible(es: seq<Event>, location: string): seq<Event> {
    if es == [] then []
    else (if es[0].location == location && !es[0].masked then [es[0]] else []) + Visible(es[1..], location)
  }

  function SetMasked(es: seq<Event>, id: nat, masked: bool): seq<Event> {
    if es == [] then []
    else [if es[0].id == id then es[0].(masked := masked) else es[0]] + SetMasked(es[1..], id, masked)
  }

  lemma {:induction false} PurgedSnoc(later: seq<Op>, op: Op, location: string)
    ensures Purged(later + [op], location) <==> Purged(later, location) || op == Purge(location)
  {
    if later == [] {
      assert later + [op] == [op] && [op][1..] == [];
    } else {
      assert (later + [op])[1..] == later[1..] + [op];
      PurgedSnoc(later[1..], op, location);
    }
  }

  /** The table after one more operation. */
  function Next(es: seq<Event>, op: Op): seq<Event> {
    match op
    case Log(id, location, text) => es + [Event(id, location, text, false)]
    case MaskEvent(id, masked) => SetMasked(es, id, masked)
    case Purge(location) => NotAt(es, location)
    case _ => es
  }

  lemma OneEvent(e: Event, id: nat, masked: bool, location: string)
    ensures SetMasked([e], id, masked) == [if e.id == id then e.(masked := masked) else e]
    ensures NotAt([e], location) == if e.location == location then [] else [e]
    ensures Visible([e], location) == if e.location == location && !e.masked then [e] else []
  {
    assert [e][1..] == [];
  }

  lemma ConsEvent(e: Event, es: seq<Event>, id: nat, masked: bool, location: string)
    ensures SetMasked([e] + es, id, masked) == SetMasked([e], id, masked) + SetMasked(es, id, masked)
    ensures NotAt([e] + es, location) == NotAt([e], location) + NotAt(es, location)
  {
    assert ([e] + es)[1..] == es;
    OneEvent(e, id, masked, location);
  }

  lemma NextCons(head: seq<Event>, es: seq<Event>, op: Op)
    requires |head| <= 1
    ensures Next(head + es, op) == (if op.Log? then head else Next(head, op)) + Next(es, op)
  {
    if head == [] {
      assert head + es == es && head + Next(es, op) == Next(es, op);
    } else {
      var e := head[0];
      assert head == [e];
      match op
      case Log(id, location, text) => Assoc(head, es, [Event(id, location, text, false)]);
      case MaskEvent(id, masked) => ConsEvent(e, es, id, masked, "");
      case Purge(location) => ConsEvent(e, es, 0, false, location);
      case _ =>
    }
  }

  lemma LoggedStep(first: Op, later: seq<Op>, op: Op)
    ensures var head := Logged(first, later);
      Logged(first, later + [op]) == if op.Log? then head else Next(head, op)
  {
    if first.Log? {
      PurgedSnoc(later, op, first.location);
      assert (later + [op])[..|later|] == later;
      var e := Event(first.id, first.location, first.text, EventMasked(later, first.id));
      if op.MaskEvent? {
        OneEvent(e, op.id, op.masked, "");
      } else if op.Purge? {
        OneEvent(e, 0, false, op.location);
      }
    }
  }

  /** The table kept by inserting, updating and deleting is the table of the history. */
  lemma {:induction false} EventsSnoc(h: seq<Op>, op: Op)
    ensures Events(h + [op]) == Next(Events(h), op)
  {
    if h == [] {
      assert h + [op] == [op] && [op][1..] == [];
      assert Events([op]) == Logged(op, []) + Events([]);
    } else {
      assert (h + [op])[1..] == h[1..] + [op];
      EventsSnoc(h[1..], op);
      LoggedStep(h[0], h[1..], op);
      NextCons(Logged(h[0], h[1..]), Events(h[1..]), op);
    }
  }

  lemma {:induction false} VisibleAppend(a: seq<Event>, b: seq<Event>, location: string)
    ensures Visible(a + b, location) == Visible(a, location) + Visible(b, location)
  {
    if a == [] {
      assert a + b == b;
    } else {
      assert (a + b)[1..] == a[1..] + b;
      VisibleAppend(a[1..], b, location);
    }
  }

  lemma {:induction false} VisiblePurged(es: seq<Event>, purged: string, location: string)
    ensures Visible(NotAt(es, purged), location) == if purged == location then [] else Visible(es, location)
  {
    if es != [] {
      VisiblePurged(es[1..], purged, location);
      var head := if es[0].location == purged then [] else [es[0]];
      OneEvent(es[0], 0, false, location);
      VisibleAppend(head, NotAt(es[1..], purged), location);
    }
  }

  lemma {:induction false} VisibleMasked(es: seq<Event>, id: nat, masked: bool, location: string)
    ensures var seen, was := Visible(SetMasked(es, id, masked), location), Visible(es, location);
      && (forall e: Event :: e.id != id ==> (e in seen <==> e in was))
      && (forall e: Event :: e.id == id && e in seen ==> !masked)
      && (!masked ==> forall e :: e in es && e.id == id && e.location == location ==> e.(masked := false) in seen)
  {
    if es != [] {
      VisibleMasked(es[1..], id, masked, location);
      var e, rest := if es[0].id == id then es[0].(masked := masked) else es[0], SetMasked(es[1..], id, masked);
      assert SetMasked(es, id, masked) == [e] + rest && ([e] + rest)[1..] == rest;
    }
  }

  /** What one more operation does to the events a location shows. */
  lemma SeenNext(h: seq<Op>, op: Op, location: string)
    ensures var seen, was := Visible(Events(h + [op]), location), Visible(Events(h), location);
      && (op.Log? ==> seen == if op.location == location then was + [Event(op.id, location, op.text, false)] else was)
      && (op.Purge? ==> seen == if op.location == location then [] else was)
      && (op.MaskEvent? ==>
           && (forall e: Event :: e.id != op.id ==> (e in seen <==> e in was))
           && (forall e: Event :: e.id == op.id && e in seen ==> !op.masked)
           && (!op.masked ==> forall e :: e in Events(h) && e.id == op.id && e.location == location ==>
                e.(masked := false) in seen))
      && (!op.Log? && !op.Purge? && !op.MaskEvent? ==> seen == was)
  {
    EventsSnoc(h, op);
    match op
    case Log(id, l, text) =>
      VisibleAppend(Events(h), [Event(id, l, text, false)], location);
      OneEvent(Event(id, l, text, false), 0, false, location);
    case Purge(l) => VisiblePurged(Events(h), l, location);
    case MaskEvent(id, masked) => VisibleMasked(Events(h), id, masked, location);
    case _ =>
  }

  lemma {:induction false} PurgedIn(later: seq<Op>, i: nat, location: string)
    requires i < |later| && later[i] == Purge(location)
    ensures Purged(later, location)
  {
    if i > 0 {
      PurgedIn(later[1..], i - 1, location);
    }
  }

  /** After a purge a location shows only what was logged there since. */
  lemma {:induction false} PurgedStaysGone(h: seq<Op>, location: string, ops: seq<Op>)
    ensures Visible(Events(h + [Purge(location)] + ops), location) == Visible(Events(ops), location)
  {
    var all := h + [Purge(location)] + ops;
    if h == [] {
      assert all == [Purge(location)] + ops;
      assert all[1..] == ops && Logged(all[0], ops) == [];
      assert [] + Events(ops) == Events(ops);
    } else {
      var rest := h[1..] + [Purge(location)] + ops;
      assert all[1..] == rest && all[0] == h[0];
      PurgedStaysGone(h[1..], location, ops);
      assert rest[|h| - 1] == Purge(location);
      PurgedIn(rest, |h| - 1, location);
      VisibleAppend(Logged(h[0], rest), Events(rest), location);
    }
  }

  /** Purging a room's scene hides its memory rows and its events, and nothing else. */
  lemma PurgedSceneForgotten(h: seq<Op>, room: string)
    ensures var after := h + [Delete("scene", room, None)] + [Purge(room)];
      && (forall name :: Recalled(after, Key("scene", room, name)) == None)
      && Visible(Events(after), room) == []
      && (forall k: Key :: k.scope != "scene" || k.owner != room ==> Recalled(after, k) == Recalled(h, k))
      && (forall location :: location != room ==> Visible(Events(after), location) == Visible(Events(h), location))
  {
    var deleted := h + [Delete("scene", room, None)];
    forall name
      ensures Recalled(deleted + [Purge(room)], Key("scene", room, name)) == None
    {
      RowStep(h, Delete("scene", room, None), Key("scene", room, name));
      RowStep(deleted, Purge(room), Key("scene", room, name));
    }
    forall k: Key | k.scope != "scene" || k.owner != room
      ensures Recalled(deleted + [Purge(room)], k) == Recalled(h, k)
    {
      RowStep(h, Delete("scene", room, None), k);
      RowStep(deleted, Purge(room), k);
    }
    forall location | location != room
      ensures Visible(Events(deleted + [Purge(room)]), location) == Visible(Events(h), location)
    {
      SeenNext(h, Delete("scene", room, None), location);
      SeenNext(deleted, Purge(room), location);
    }
    PurgedStaysGone(deleted, room, []);
    assert deleted + [Purge(room)] + [] == deleted + [Purge(room)];
  }

  /** The last `n`, or all for a negative limit. */
  function LastOf(es: seq<Event>, n: int): seq<Event> {
    if n < 0 || |es| <= n then es else es[|es| - n..]
  }

  /** What `recent_events` is to answer. */
  function Recent(h: seq<Op>, location: string, n: int): seq<Event> {
    LastOf(Visible(Events(h), location), n)
  }
}
