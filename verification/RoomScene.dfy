/** One room's scene state and the handlers that change it (cricket/router.py,
    cricket/commands/builtins.py). Each method is one stretch of a handler between two `await`s.
    Suspended handlers keep the list objects they hold, so shared lists are really shared. */
module RoomScenes {
  import opened Wrappers
  import opened Text
  import opened Order
  import opened SceneBlocks
  import opened SceneEvents
  import Lines
  import G = ConsentGate
  import A = SceneAccount
  import L = SceneLedger

  /** A `scene_queues` list. */
  class BlockList {
    var items: seq<ContextLine>

    constructor ()
      ensures items == []
    {
      items := [];
    }

    /** `_trim_scene_bytes`: drop the oldest blocks over the byte budget, then over the cap. */
    method Trim(budget: nat)
      modifies `items
      ensures items == Tail(old(items), budget)
    {
      if items == [] {
        return;
      }
      ghost var all := items;
      var total := Bytes(items);
      while |items| > 1 && total > budget
        invariant items != [] && total == Bytes(items)
        invariant Tail(items, budget) == Tail(all, budget)
      {
        total := total - |items[0].text|;
        items := items[1..];
      }
      if |items| > SCENE_QUEUE_CAP {
        CapSkips(items, |items| - SCENE_QUEUE_CAP, budget);
        items := items[|items| - SCENE_QUEUE_CAP..];
      }
    }

    /** The grouping branch of `_handle_room`, then the trim. */
    method Add(line: ContextLine, budget: nat)
      modifies this
      ensures items == Tail(AddLine(old(items), line), budget)
    {
      if items != [] && SamePoser(items[|items| - 1], line.speaker, line.dbref) {
        items := items[|items| - 1 := Merge(items[|items| - 1], line.text)];
      } else {
        items := items + [line];
      }
      Trim(budget);
    }
  }

  /** Suffixes over the cap never fit; the first one under it fits when the whole is under budget. */
  lemma CapSkips(blocks: seq<ContextLine>, s: nat, budget: nat)
    requires s == |blocks| - SCENE_QUEUE_CAP && Bytes(blocks) <= budget
    ensures Tail(blocks, budget) == blocks[s..]
  {
    TailSkips(blocks, s, budget);
    BytesSuffix(blocks, s);
  }

  /** A line joins the newest block, text under text, or completes it. */
  lemma LineMeans(items: seq<ContextLine>, line: ContextLine, budget: nat)
    ensures items == [] ==> Tail(AddLine(items, line), budget) == [line] && A.Completed(items, line) == []
    ensures items != [] ==>
      var front, b := items[..|items| - 1], items[|items| - 1];
      var joins := if line.dbref != "" && b.dbref != "" then b.dbref == line.dbref
        else Lower(Strip(line.speaker)) != "" && Lower(Strip(b.speaker)) == Lower(Strip(line.speaker));
      if joins then
        && Tail(AddLine(items, line), budget) == Tail(front + [b.(text := Strip(b.text + "\n" + line.text))], budget)
        && A.Completed(items, line) == []
      else
        Tail(AddLine(items, line), budget) == Tail(items + [line], budget) && A.Completed(items, line) == [b]
  {
    if items != [] && Continues(items, line) {
      var front, b := items[..|items| - 1], items[|items| - 1];
      assert AddLine(items, line) == front + [b.(text := Strip(b.text + "\n" + line.text))];
    }
  }

  /** A `scene_ledger` list. */
  class Ledger {
    var entries: seq<string>

    constructor ()
      ensures entries == []
    {
      entries := [];
    }
  }

  /** The three accounts of a room, side by side. */
  datatype View = View(gate: G.Gate, account: A.Account, books: L.Books)

  const START := View(G.Gate(None, None, map[]), A.Empty(map[], false), L.NO_BOOKS)

  function Apply(v: View, e: Event, budget: nat): View {
    View(G.Apply(v.gate, e), A.Apply(v.account, e, budget), L.Apply(v.books, e))
  }

  /** When the bot lets an event happen, and the event loop can run it. */
  predicate MayHappen(v: View, e: Event) {
    G.Allowed(v.gate, e) && L.Feasible(v.books, v.account, e)
  }

  /** The view before each event and after the last. */
  ghost predicate Recorded(trace: seq<Event>, views: seq<View>, budget: nat) {
    && |views| == |trace| + 1
    && views[0] == START
    && forall i {:trigger trace[i]} :: 0 <= i < |trace| ==>
         MayHappen(views[i], trace[i]) && views[i + 1] == Apply(views[i], trace[i], budget)
  }

  /** What the bot has done in the room so far, and the view after each event. */
  class SceneLog {
    ghost const budget: nat
    ghost var trace: seq<Event>
    ghost var views: seq<View>
    ghost var now: View

    ghost predicate Valid()
      reads this
    {
      |views| == |trace| + 1 && views[|trace|] == now && Recorded(trace, views, budget)
    }

    ghost constructor (budget: nat)
      ensures Valid() && trace == [] && now == START && this.budget == budget
    {
      this.budget := budget;
      trace, views, now := [], [START], START;
    }

    ghost method Record(e: Event)
      requires Valid() && MayHappen(now, e)
      modifies this
      ensures Valid() && trace == old(trace) + [e]
      ensures now == Apply(old(now), e, budget)
    {
      now := Apply(now, e, budget);
      views, trace := views + [now], trace + [e];
    }

    /** The views are the accounts of the events. */
    lemma Accounts(n: nat)
      requires Valid() && n <= |trace|
      ensures G.Legal(trace[..n]) && L.Possible(trace[..n], budget) && views[n] == ViewAfter(trace[..n], budget)
    {
      ViewsAre(trace[..n], views[..n + 1], budget);
    }
  }

  ghost function ViewAfter(tr: seq<Event>, budget: nat): View {
    View(G.GateAfter(tr), A.AccountAfter(tr, budget), L.BooksAfter(tr))
  }

  /** These events could happen, and lead here. */
  ghost predicate Leads(tr: seq<Event>, v: View, budget: nat) {
    G.Legal(tr) && L.Possible(tr, budget) && v == ViewAfter(tr, budget)
  }

  lemma LeadsOn(tr: seq<Event>, e: Event, v: View, budget: nat, tr': seq<Event>)
    requires Leads(tr, v, budget) && MayHappen(v, e) && tr' == tr + [e]
    ensures Leads(tr', Apply(v, e, budget), budget)
  {
    G.Extend(tr, e);
    A.Snoc(tr, e, budget);
    L.Snoc(tr, e, budget);
  }

  lemma LeadsNowhere(budget: nat)
    ensures Leads([], START, budget)
  {
  }

  lemma RecordedFront(trace: seq<Event>, views: seq<View>, budget: nat)
    requires Recorded(trace, views, budget) && trace != []
    ensures Recorded(trace[..|trace| - 1], views[..|trace|], budget)
    ensures MayHappen(views[|trace| - 1], trace[|trace| - 1])
    ensures views[|trace|] == Apply(views[|trace| - 1], trace[|trace| - 1], budget)
  {
  }

  lemma {:induction false} ViewsAre(trace: seq<Event>, views: seq<View>, budget: nat)
    requires Recorded(trace, views, budget)
    ensures Leads(trace, views[|trace|], budget)
  {
    if trace == [] {
      LeadsNowhere(budget);
    } else {
      var front, e := trace[..|trace| - 1], trace[|trace| - 1];
      RecordedFront(trace, views, budget);
      ViewsAre(front, views[..|trace|], budget);
      assert trace == front + [e];
      LeadsOn(front, e, views[|trace| - 1], budget, trace);
    }
  }

  datatype Trigger = Blocked(target: string) | Asked(target: string) | Begun(pose: nat)

  /** `_rp_budget`: the configured byte budget when positive, else 6000. */
  function RpBudget(configured: Option<int>): (b: nat)
    ensures b > 0
  {
    if configured.Some? && configured.value > 0 then configured.value else 6000
  }

  /** The room's entries in the bot's dictionaries, the queue and the ledger aside. */
  datatype Entries = Entries(
    rpEnabled: bool, owners: set<string>, suggestions: seq<string>,
    pending: Option<string>, granted: Option<string>)

  const NO_SCENE := Entries(false, {}, [], None, None)

  /** Poses awaiting `persona.respond`: the queue each one took, and the gate's target. */
  datatype Poses = Poses(queues: map<nat, BlockList>, gates: map<nat, Option<string>>, begun: nat)

  /** Distillations: not yet begun, oldest first; awaiting `distill_block`, with the ledger each took. */
  datatype Distills = Distills(scheduled: seq<ContextLine>, ledgers: map<nat, Ledger>, begun: nat)

  /** The gate's state is what the events say. */
  ghost predicate GateKept(g: G.Gate, e: Entries, poses: Poses) {
    && g == G.Gate(e.pending, e.granted, poses.gates)
    && forall p :: p in poses.gates ==> p < poses.begun
  }

  /** The queue is what the events say, and every hand-over was recorded. */
  ghost predicate QueueKept(a: A.Account, queue: BlockList?, items: seq<ContextLine>) {
    && a.queue == items
    && (a.made <==> queue != null)
    && a.distilled == a.handed && a.owing.Nothing?
  }

  /** A pose awaiting the persona shares the room's list, or holds one the room has let go of. */
  ghost predicate HoldKept(hold: A.Hold, taken: BlockList, items: seq<ContextLine>, queue: BlockList?) {
    match hold
    case Shared => taken == queue
    case Kept(kept) => taken != queue && items == kept
  }

  ghost predicate PosesKept(a: A.Account, poses: Poses) {
    a.held.Keys == poses.gates.Keys == poses.queues.Keys
  }

  /** The ledger holds the entries of the distillations that started in this scene. */
  ghost predicate LedgerKept(b: L.Books, owners: set<string>, entries: seq<string>) {
    b.owners == owners && b.ledger == entries
  }

  /** A distillation holds the room's ledger exactly when it started in this scene. */
  ghost predicate DistillsKept(b: L.Books, ledger: Ledger?, ds: Distills) {
    && |b.waiting| == |ds.scheduled|
    && b.begun == ds.begun
    && b.running.Keys == ds.ledgers.Keys
    && forall t :: t in ds.ledgers ==>
      && t < ds.begun
      && b.running[t].startedIn <= b.scene
      && (b.running[t].startedIn == b.scene <==> ds.ledgers[t] == ledger)
  }

  class RoomScene {
    const room: string
    const botName: string
    const budget: nat
    const isSystem: string -> bool   // _ROOM_SYSTEM
    const isMortal: string -> bool   // _MORTAL_RE
    const distills: bool             // the persona has distill_block
    const summarizes: bool           // the persona has summarize_scene
    const hasStore: bool

    var currentRoom: Option<string>
    var here: Entries
    var queue: BlockList?
    var ledger: Ledger?
    var poses: Poses
    var tasks: Distills
    var closing: nat                 // rp off handlers awaiting summarize_scene

    ghost const log: SceneLog
    ghost var lists: set<object>     // every queue and ledger list the room has had

    /** The list under the room's key, or the empty list a lookup falls back to. */
    ghost function Items(): seq<ContextLine>
      reads this, queue
    {
      if queue == null then [] else queue.items
    }

    /** The room's ledger entries, or none. */
    ghost function LedgerEntries(): seq<string>
      reads this, ledger
    {
      if ledger == null then [] else ledger.entries
    }

    ghost predicate Valid()
      reads this, log, lists
    {
      && log.Valid() && log.budget == budget
      && (queue != null ==> queue in lists)
      && (ledger != null ==> ledger in lists)
      && (forall t :: t in tasks.ledgers ==> tasks.ledgers[t] in lists)
      && (here.rpEnabled || closing > 0 ==> queue != null)
      && GateKept(log.now.gate, here, poses)
      && QueueKept(log.now.account, queue, if queue == null then [] else queue.items)
      && PosesKept(log.now.account, poses)
      && (forall p :: p in poses.queues ==>
           && poses.queues[p] in lists
           && HoldKept(log.now.account.held[p], poses.queues[p], poses.queues[p].items, queue))
      && LedgerKept(log.now.books, here.owners, if ledger == null then [] else ledger.entries)
      && DistillsKept(log.now.books, ledger, tasks)
    }

    constructor (
      room: string, botName: string, configured: Option<int>, isSystem: string -> bool,
      isMortal: string -> bool, distills: bool, summarizes: bool, hasStore: bool)
      ensures Valid() && log.trace == [] && fresh(log) && fresh(lists)
      ensures this.room == room && budget == RpBudget(configured)
      ensures configured.Some? && configured.value > 0 ==> budget == configured.value
      ensures configured.None? || configured.value <= 0 ==> budget == 6000
      ensures this.isSystem == isSystem && this.isMortal == isMortal
      ensures this.distills == distills && this.summarizes == summarizes && this.hasStore == hasStore
      ensures currentRoom == None && here == NO_SCENE && queue == null && ledger == null
      ensures poses == Poses(map[], map[], 0) && tasks == Distills([], map[], 0) && closing == 0
    {
      this.room, this.botName, this.budget := room, botName, RpBudget(configured);
      this.isSystem, this.isMortal := isSystem, isMortal;
      this.distills, this.summarizes, this.hasStore := distills, summarizes, hasStore;
      currentRoom, here, queue, ledger := None, NO_SCENE, null, null;
      poses, tasks, closing := Poses(map[], map[], 0), Distills([], map[], 0), 0;
      log := new SceneLog(RpBudget(configured));
      lists := {};
    }

    // ----- room lines

    /** The filters of `_handle_room`: the bot's room, an actor standing in it, no engine chatter, rp on. */
    predicate Accepts(line: ContextLine, loc: Option<string>)
      reads this
    {
      && currentRoom == Some(room)
      && (loc.None? || loc.value == room)
      && !isSystem(Strip(line.text))
      && here.rpEnabled
    }

    /** `_ledger_block`: schedule the block's distillation. */
    method HandToDistiller(block: ContextLine, ghost giver: Option<nat>)
      requires log.Valid() && MayHappen(log.now, LedgerBlock(block, distills, giver))
      modifies log, `tasks
      ensures log.Valid() && log.trace == old(log.trace) + [LedgerBlock(block, distills, giver)]
      ensures log.now == Apply(old(log.now), LedgerBlock(block, distills, giver), log.budget)
      ensures tasks == old(tasks).(scheduled := old(tasks).scheduled + if distills then [block] else [])
    {
      log.Record(LedgerBlock(block, distills, giver));
      if distills {
        tasks := tasks.(scheduled := tasks.scheduled + [block]);
      }
    }

    /** `scene_queues.setdefault(room, [])`, as rp is switched. */
    method SetDefaultQueue(ghost e: Event)
      requires Valid() && (e.RpOn? || e.OffBegun?)
      modifies `queue, `lists, log
      ensures Valid() && fresh(lists - old(lists)) && old(lists) <= lists
      ensures queue != null && Items() == old(Items()) && log.trace == old(log.trace) + [e]
      ensures old(queue) != null ==> queue == old(queue) && lists == old(lists)
    {
      if queue == null {
        queue := new BlockList();
        lists := lists + {queue};
      }
      log.Record(e);
    }

    /** `_handle_room`. A block that the line closes is handed over before the line is queued. Its
        own `setdefault` finds a list: rp on made one. */
    method HandleRoom(line: ContextLine, loc: Option<string>) returns (accepted: bool)
      requires Valid()
      modifies `tasks, log, queue
      ensures Valid() && here == old(here)
      ensures accepted <==>
        currentRoom == Some(room) && (loc.None? || loc == Some(room)) && here.rpEnabled && !isSystem(Strip(line.text))
      ensures !accepted ==> log.trace == old(log.trace) && Items() == old(Items()) && tasks == old(tasks)
      ensures accepted && old(Items()) == [] ==>
        Items() == [line] && log.trace == old(log.trace) + [LineIn(line)] && tasks == old(tasks)
      ensures accepted && old(Items()) != [] ==>
        var front, b := old(Items())[..|old(Items())| - 1], old(Items())[|old(Items())| - 1];
        var joins := if line.dbref != "" && b.dbref != "" then b.dbref == line.dbref
          else Lower(Strip(line.speaker)) != "" && Lower(Strip(b.speaker)) == Lower(Strip(line.speaker));
        if joins then
          && Items() == Tail(front + [b.(text := Strip(b.text + "\n" + line.text))], budget)
          && log.trace == old(log.trace) + [LineIn(line)] && tasks == old(tasks)
        else
          && Items() == Tail(old(Items()) + [line], budget)
          && log.trace == old(log.trace) + [LedgerBlock(b, distills, None)] + [LineIn(line)]
          && tasks == old(tasks).(scheduled := old(tasks).scheduled + if distills then [b] else [])
    {
      accepted := Accepts(line, loc);
      if accepted {
        LineMeans(queue.items, line, budget);
        Enqueue(line);
      }
    }

    /** A line by another poser completes the newest block, which is handed over. */
    method CloseBlock(items: seq<ContextLine>, line: ContextLine)
      requires log.Valid() && log.now.account.queue == items && log.now.account.owing.Nothing?
      modifies log, `tasks
      ensures log.Valid() && log.trace == old(log.trace) + HandOver(A.Completed(items, line), distills, None)
      ensures log.now.gate == old(log.now).gate
      ensures log.now.account == old(log.now).account.(
        distilled := old(log.now).account.distilled + A.Completed(items, line), owing := A.Nothing)
      ensures Queued(old(log.now).books, log.now.books, |tasks.scheduled| - |old(tasks).scheduled|)
      ensures tasks == old(tasks).(scheduled := old(tasks).scheduled + if distills then A.Completed(items, line) else [])
    {
      if items != [] && !SamePoser(items[|items| - 1], line.speaker, line.dbref) {
        HandToDistiller(items[|items| - 1], None);
      }
    }

    method Enqueue(line: ContextLine)
      requires Valid() && queue != null
      modifies `tasks, log, queue
      ensures Valid()
      ensures queue.items == Tail(AddLine(old(queue.items), line), budget)
      ensures log.trace == old(log.trace) + HandOver(A.Completed(old(queue.items), line), distills, None) + [LineIn(line)]
      ensures tasks == old(tasks).(scheduled :=
        old(tasks).scheduled + if distills then A.Completed(old(queue.items), line) else [])
    {
      CloseBlock(queue.items, line);
      queue.Add(line, budget);
      log.Record(LineIn(line));
    }

    // ----- table talk and the mortal-intent heuristic

    /** `_capture_suggestion`: while a scene is live in the bot's room, keep the last five nudges. */
    method CaptureSuggestion(text: string)
      requires Valid()
      modifies `here
      ensures Valid()
      ensures var nudge, before := Strip(text), old(here).suggestions;
        if currentRoom == Some(room) && here.rpEnabled && nudge != "" && Contains(Lower(nudge), Lower(botName)) then
          here == old(here).(suggestions := if |before| < 5 then before + [nudge] else before[|before| - 4..] + [nudge])
        else here == old(here)
    {
      if HeardNudge(text) {
        here := here.(suggestions := here.suggestions + [Strip(text)]);
        if |here.suggestions| > 5 {
          here := here.(suggestions := here.suggestions[|here.suggestions| - 5..]);
        }
      }
    }

    predicate HeardNudge(text: string)
      reads this
    {
      && currentRoom == Some(room) && here.rpEnabled
      && Strip(text) != "" && Contains(Lower(Strip(text)), Lower(botName))
    }

    /** A claimed character that a lethal nudge names. */
    predicate IsTarget(owners: set<string>, blob: string, name: string) {
      name in owners && isMortal(blob) && Contains(Lower(blob), Lower(name))
    }

    /** The first of them in alphabetical order. */
    ghost predicate FirstTarget(owners: set<string>, blob: string, name: string) {
      IsTarget(owners, blob, name) && forall n :: IsTarget(owners, blob, n) ==> Leq(name, n)
    }

    /** The consent in hand covers every character that is named. */
    ghost predicate AllCovered(owners: set<string>, blob: string, granted: Option<string>) {
      forall n :: IsTarget(owners, blob, n) ==> G.Covers(granted, n)
    }

    /** All that are named have one name, case aside. */
    ghost predicate OneName(owners: set<string>, blob: string) {
      forall n, m :: IsTarget(owners, blob, n) && IsTarget(owners, blob, m) ==> Lower(n) == Lower(m)
    }

    /** The gate asks for one named character alone. Once it is covered, consent covers all that are
        named exactly when none of them has another name, case aside. */
    lemma ConsentForAll(owners: set<string>, blob: string, granted: Option<string>, target: string)
      ensures IsTarget(owners, blob, target) && G.Covers(granted, target) ==>
        (AllCovered(owners, blob, granted) <==> OneName(owners, blob))
    {
      if AllCovered(owners, blob, granted) {
        forall n, m | IsTarget(owners, blob, n) && IsTarget(owners, blob, m)
          ensures Lower(n) == Lower(m)
        {
          assert G.Covers(granted, n) && G.Covers(granted, m);
        }
      }
    }

    /** `_mortal_intent`. */
    method MortalIntent(owners: set<string>, blob: string) returns (target: Option<string>)
      ensures target.Some? ==> FirstTarget(owners, blob, target.value)
      ensures target.None? ==> forall n :: !IsTarget(owners, blob, n)
    {
      if owners == {} || !isMortal(blob) {
        return None;
      }
      var low, names := Lower(blob), Sorted(owners);
      for i := 0 to |names|
        invariant forall j :: 0 <= j < i ==> !IsTarget(owners, blob, names[j])
      {
        if Contains(low, Lower(names[i])) {
          forall n | IsTarget(owners, blob, n)
            ensures Leq(names[i], n)
          {
            assert n in names;
            Reflexive(n);
          }
          return Some(names[i]);
        }
      }
      assert forall n :: n in owners ==> n in names;
      return None;
    }

    // ----- the pose trigger

    /** `_trigger_rp` up to `persona.respond`: the consent gate, then the pose takes the queue. The text
        that is judged is the nudges and the seed, one to a line. When it is lethal and any of them
        names an owner, no pose begins without a grant for an owner that is named. */
    method TriggerRp(seed: string) returns (t: Trigger)
      requires Valid()
      modifies `here, `poses, `lists, log
      ensures Valid() && fresh(lists - old(lists)) && old(lists) <= lists
      ensures t.Blocked? <==> old(here).pending.Some?
      ensures t.Blocked? ==> log.trace == old(log.trace) && here == old(here) && poses == old(poses)
      ensures t.Asked? ==>
        && FirstTarget(here.owners, Blob(here.suggestions, seed), t.target)
        && !G.Covers(here.granted, t.target)
        && here == old(here).(pending := Some(t.target)) && poses == old(poses)
        && log.trace == old(log.trace) + [Requested(t.target)]
      ensures t.Begun? ==>
        && here == old(here) && t.pose == old(poses).begun && poses.begun == t.pose + 1
        && poses.gates.Keys == old(poses).gates.Keys + {t.pose}
        && (queue != null ==> poses.queues == old(poses).queues[t.pose := queue])
        && log.trace == old(log.trace) + [Passed(t.pose, poses.gates[t.pose])]
        && match poses.gates[t.pose] {
             case None => forall n :: !IsTarget(here.owners, Blob(here.suggestions, seed), n)
             case Some(target) =>
               FirstTarget(here.owners, Blob(here.suggestions, seed), target) && G.Covers(here.granted, target)
           }
      ensures t.Begun? ==>
        (AllCovered(here.owners, Blob(here.suggestions, seed), here.granted)
         <==> OneName(here.owners, Blob(here.suggestions, seed)))
      ensures var text := Join("\n", here.suggestions + if seed != "" then [seed] else []);
        && (t.Asked? ==>
             && isMortal(text) && t.target in here.owners && Contains(Lower(text), Lower(t.target))
             && (here.granted.None? || Lower(here.granted.value) != Lower(t.target)))
        && (t.Begun? && isMortal(text) && AnyNames(here.owners, here.suggestions, seed) ==>
             here.granted.Some? && exists n ::
               n in here.owners && Contains(Lower(text), Lower(n)) && Lower(here.granted.value) == Lower(n))
    {
      NamedIsTarget(here.owners, here.suggestions, seed);
      t := PassGate(seed);
    }

    /** A nudge or the seed names an owner. */
    ghost predicate AnyNames(owners: set<string>, nudges: seq<string>, seed: string) {
      exists n, p :: n in owners && (p in nudges || p == seed) && Contains(Lower(p), Lower(n))
    }

    lemma NamedIsTarget(owners: set<string>, nudges: seq<string>, seed: string)
      ensures isMortal(Blob(nudges, seed)) && AnyNames(owners, nudges, seed) ==>
        exists n :: IsTarget(owners, Blob(nudges, seed), n)
    {
      if isMortal(Blob(nudges, seed)) && AnyNames(owners, nudges, seed) {
        var n, p :| n in owners && (p in nudges || p == seed) && Contains(Lower(p), Lower(n));
        var parts := nudges + if seed != "" then [seed] else [];
        if p in parts {
          JoinContains("\n", parts, p, Lower(n));
        } else {
          assert Lower(n) == "" && OccursAt(Lower(Blob(nudges, seed)), Lower(n), 0);
        }
        assert IsTarget(owners, Blob(nudges, seed), n);
      }
    }

    /** The gate, on the target that the text names first. */
    method PassGate(seed: string) returns (t: Trigger)
      requires Valid()
      modifies `here, `poses, `lists, log
      ensures Valid() && fresh(lists - old(lists)) && old(lists) <= lists
      ensures t.Blocked? <==> old(here).pending.Some?
      ensures t.Blocked? ==> log.trace == old(log.trace) && here == old(here) && poses == old(poses)
      ensures t.Asked? ==>
        && FirstTarget(here.owners, Blob(here.suggestions, seed), t.target)
        && !G.Covers(here.granted, t.target)
        && here == old(here).(pending := Some(t.target)) && poses == old(poses)
        && log.trace == old(log.trace) + [Requested(t.target)]
      ensures t.Begun? ==>
        && here == old(here) && t.pose == old(poses).begun && poses.begun == t.pose + 1
        && poses.gates.Keys == old(poses).gates.Keys + {t.pose}
        && (queue != null ==> poses.queues == old(poses).queues[t.pose := queue])
        && log.trace == old(log.trace) + [Passed(t.pose, poses.gates[t.pose])]
        && match poses.gates[t.pose] {
             case None => forall n :: !IsTarget(here.owners, Blob(here.suggestions, seed), n)
             case Some(target) =>
               FirstTarget(here.owners, Blob(here.suggestions, seed), target) && G.Covers(here.granted, target)
           }
      ensures t.Begun? ==>
        (AllCovered(here.owners, Blob(here.suggestions, seed), here.granted)
         <==> OneName(here.owners, Blob(here.suggestions, seed)))
    {
      if here.pending.Some? {
        return Blocked(here.pending.value);
      }
      var target := MortalIntent(here.owners, Blob(here.suggestions, seed));
      if target.Some? && !G.Covers(here.granted, target.value) {
        here := here.(pending := target);
        log.Record(Requested(target.value));
        return Asked(target.value);
      }
      if target.Some? {
        ConsentForAll(here.owners, Blob(here.suggestions, seed), here.granted, target.value);
      }
      t := BeginPose(target);
    }

    /** The pose takes the room's list, or a list of its own when there is none. */
    method BeginPose(gate: Option<string>) returns (t: Trigger)
      requires Valid() && here.pending.None? && (gate.Some? ==> G.Covers(here.granted, gate.value))
      modifies `poses, `lists, log
      ensures Valid() && fresh(lists - old(lists)) && old(lists) <= lists
      ensures t == Begun(old(poses).begun) && poses.begun == t.pose + 1
      ensures poses.gates == old(poses).gates[t.pose := gate]
      ensures queue != null ==> poses.queues == old(poses).queues[t.pose := queue]
      ensures log.trace == old(log.trace) + [Passed(t.pose, gate)]
    {
      var taken := TakeList();
      t := Hold(gate, taken);
    }

    /** `scene_queues.get(room, [])`. */
    method TakeList() returns (taken: BlockList)
      requires Valid()
      modifies `lists
      ensures Valid() && taken in lists && fresh(lists - old(lists)) && old(lists) <= lists
      ensures if queue != null then taken == queue else taken.items == []
    {
      if queue != null {
        taken := queue;
      } else {
        taken := new BlockList();
        lists := lists + {taken};
      }
    }

    /** The pose keeps that list over the await. */
    method Hold(gate: Option<string>, taken: BlockList) returns (t: Trigger)
      requires Valid() && here.pending.None? && (gate.Some? ==> G.Covers(here.granted, gate.value))
      requires taken in lists && (if queue != null then taken == queue else taken.items == [])
      modifies `poses, log
      ensures Valid() && t == Begun(old(poses).begun) && poses.begun == t.pose + 1
      ensures poses.gates == old(poses).gates[t.pose := gate]
      ensures poses.queues == old(poses).queues[t.pose := taken]
      ensures log.trace == old(log.trace) + [Passed(t.pose, gate)]
    {
      var p := poses.begun;
      log.Record(Passed(p, gate));
      poses := Poses(poses.queues[p := taken], poses.gates[p := gate], p + 1);
      t := Begun(p);
    }

    /** `_trigger_rp` after `persona.respond`. A spoken pose hands over the newest block of the
        list it took, lines that arrived meanwhile included, and replaces the room's queue. What
        was handed over so far stays what was due exactly when that list ends as the room's does. */
    method ResumePose(p: nat, spoke: bool)
      requires Valid() && p in poses.gates
      modifies `poses, `queue, `lists, `here, `tasks, log
      ensures Valid() && fresh(lists - old(lists)) && old(lists) <= lists
      ensures poses == old(poses).(queues := old(poses).queues - {p}, gates := old(poses).gates - {p})
      ensures !spoke ==>
        log.trace == old(log.trace) + [Silent(p)] && queue == old(queue) && here == old(here) && tasks == old(tasks)
      ensures spoke ==>
        && log.trace == old(log.trace) + [Emitted(p)] + HandOver(A.Newest(old(poses.queues[p].items)), distills, Some(p))
        && Items() == [] && here == old(here).(granted := None, suggestions := [])
        && tasks == old(tasks).(scheduled :=
             old(tasks).scheduled + if distills then A.Newest(old(poses.queues[p].items)) else [])
      ensures spoke && old(log.now).account.distilled == old(log.now).account.due ==>
        (log.now.account.distilled == log.now.account.due
         <==> A.Newest(old(poses.queues[p].items)) == A.Newest(old(Items())))
    {
      if spoke {
        A.SameFront(log.now.account.due, A.Newest(poses.queues[p].items), A.Newest(log.now.account.queue));
        EmitPose(p);
      } else {
        poses := poses.(queues := poses.queues - {p}, gates := poses.gates - {p});
        log.Record(Silent(p));
      }
    }

    /** The pose goes out. */
    method EmitPose(p: nat)
      requires Valid() && p in poses.gates
      modifies `poses, `queue, `lists, `here, `tasks, log
      ensures Valid() && fresh(lists - old(lists)) && old(lists) <= lists
      ensures poses == old(poses).(queues := old(poses).queues - {p}, gates := old(poses).gates - {p})
      ensures log.trace == old(log.trace) + [Emitted(p)] + HandOver(A.Newest(old(poses.queues[p].items)), distills, Some(p))
      ensures Items() == [] && here == old(here).(granted := None, suggestions := [])
      ensures tasks == old(tasks).(scheduled :=
        old(tasks).scheduled + if distills then A.Newest(old(poses.queues[p].items)) else [])
      ensures log.now.account == A.Apply(old(log.now).account, Emitted(p), budget).(
        distilled := old(log.now).account.distilled + A.Newest(old(poses.queues[p].items)), owing := A.Nothing)
    {
      var taken := poses.queues[p];
      poses := poses.(queues := poses.queues - {p}, gates := poses.gates - {p});
      Consume(p, taken.items);
    }

    /** Hand over the newest block, consume the scene, the nudges and the grant. */
    method Consume(p: nat, items: seq<ContextLine>)
      requires log.Valid() && MayHappen(log.now, Emitted(p)) && A.Taken(log.now.account, p) == items
      modifies `queue, `lists, `here, `tasks, log
      ensures log.Valid() && log.trace == old(log.trace) + [Emitted(p)] + HandOver(A.Newest(items), distills, Some(p))
      ensures log.now.gate == G.Apply(old(log.now).gate, Emitted(p))
      ensures log.now.account == A.Apply(old(log.now).account, Emitted(p), log.budget).(
        distilled := old(log.now).account.distilled + A.Newest(items), owing := A.Nothing)
      ensures Queued(old(log.now).books, log.now.books, |tasks.scheduled| - |old(tasks).scheduled|)
      ensures queue != null && fresh(queue) && queue.items == [] && lists == old(lists) + {queue}
      ensures here == old(here).(granted := None, suggestions := [])
      ensures tasks == old(tasks).(scheduled := old(tasks).scheduled + if distills then A.Newest(items) else [])
    {
      log.Record(Emitted(p));
      if items != [] {
        HandToDistiller(items[|items| - 1], Some(p));
      }
      ReplaceQueue();
      here := here.(granted := None, suggestions := []);
    }

    /** `scene_queues[room] = []`: a new list, the old one is let go of. */
    method ReplaceQueue()
      modifies `queue, `lists
      ensures queue != null && fresh(queue) && queue.items == [] && lists == old(lists) + {queue}
    {
      queue := new BlockList();
      lists := lists + {queue};
    }

    // ----- consent commands

    /** The bot stands in the room, a request is open, and this user may answer it. */
    predicate MayResolve(who: Invoker)
      reads this
    {
      currentRoom == Some(room) && here.pending.Some? && ConsentAuthorized(who, here.pending.value)
    }

    /** `cmd_consent_ok`. */
    method ConsentOk(who: Invoker) returns (done: bool)
      requires Valid()
      modifies `here, log
      ensures Valid()
      ensures done ==> old(here).pending.Some?
      ensures currentRoom == Some(room) && old(here).pending.Some? ==>
        var name, target := Lower(Strip(who.name)), Lower(Strip(old(here).pending.value));
        done == (who.admin || (name != "" && name == target))
      ensures done ==> currentRoom == Some(room)
      ensures done ==>
        && here == old(here).(pending := None, granted := old(here).pending)
        && log.trace == old(log.trace) + [Consented(old(here).pending.value, who)]
      ensures !done ==> here == old(here) && log.trace == old(log.trace)
    {
      done := MayResolve(who);
      if done {
        log.Record(Consented(here.pending.value, who));
        here := here.(granted := here.pending, pending := None);
      }
    }

    /** `cmd_consent_deny`. */
    method ConsentDeny(who: Invoker) returns (done: bool)
      requires Valid()
      modifies `here, log
      ensures Valid()
      ensures done ==> old(here).pending.Some?
      ensures currentRoom == Some(room) && old(here).pending.Some? ==>
        var name, target := Lower(Strip(who.name)), Lower(Strip(old(here).pending.value));
        done == (who.admin || (name != "" && name == target))
      ensures done ==> currentRoom == Some(room)
      ensures done ==>
        && here == old(here).(pending := None)
        && log.trace == old(log.trace) + [Declined(old(here).pending.value, who)]
      ensures !done ==> here == old(here) && log.trace == old(log.trace)
    {
      done := MayResolve(who);
      if done {
        log.Record(Declined(here.pending.value, who));
        here := here.(pending := None);
      }
    }

    // ----- rp on and off

    method SetRpOn()
      requires Valid()
      modifies `queue, `lists, `here, log
      ensures Valid() && fresh(lists - old(lists)) && old(lists) <= lists
      ensures here == old(here).(rpEnabled := true) && queue != null && Items() == old(Items())
      ensures log.trace == old(log.trace) + [RpOn]
    {
      SetDefaultQueue(RpOn);
      here := here.(rpEnabled := true);
    }

    /** `_set_rp` off, up to its await: it waits for the summarizer only when the scene has
        blocks but no ledger entry, and otherwise clears the scene at once. */
    method SetRpOff() returns (waits: bool)
      requires Valid()
      modifies `queue, `lists, `closing, `ledger, `here, log
      ensures Valid() && fresh(lists - old(lists)) && old(lists) <= lists
      ensures waits <==> hasStore && summarizes && old(Items()) != [] && old(LedgerEntries()) == []
      ensures waits ==> log.trace == old(log.trace) + [OffBegun] && here == old(here)
      ensures !waits ==>
        && log.trace == old(log.trace) + [OffBegun] + [RpOff]
        && here == NO_SCENE && Items() == [] && ledger == null
    {
      SetDefaultQueue(OffBegun);
      waits := hasStore && summarizes && queue.items != [] && (ledger == null || ledger.entries == []);
      if waits {
        closing := closing + 1;
      } else {
        ClearScene();
      }
    }

    /** `_set_rp` off after the summarizer. */
    method FinishRpOff()
      requires Valid() && closing > 0
      modifies `queue, `lists, `closing, `ledger, `here, log
      ensures Valid() && fresh(lists - old(lists)) && old(lists) <= lists
      ensures log.trace == old(log.trace) + [RpOff] && here == NO_SCENE && Items() == []
    {
      closing := closing - 1;
      ClearScene();
    }

    /** The end of `_set_rp` off: every per-scene entry of the room goes. */
    method ClearScene()
      requires Valid()
      modifies `queue, `lists, `ledger, `here, log
      ensures Valid() && fresh(lists - old(lists)) && old(lists) <= lists
      ensures log.trace == old(log.trace) + [RpOff]
      ensures here == Entries(false, {}, [], None, None) && Items() == [] && ledger == null
    {
      ReplaceQueue();
      ledger, here := null, NO_SCENE;
      log.Record(RpOff);
    }

    // ----- distillation

    /** `scene_ledger.setdefault(room, [])`. */
    method SetDefaultLedger()
      requires Valid()
      modifies `ledger, `lists
      ensures Valid() && fresh(lists - old(lists)) && old(lists) <= lists
      ensures ledger != null && LedgerEntries() == old(LedgerEntries())
    {
      if ledger == null {
        ledger := new Ledger();
        lists := lists + {ledger};
      }
    }

    /** `_distill_to_ledger` up to `distill_block`, for the oldest scheduled block: it takes the
        room's ledger of that moment, and sees its last eight entries. */
    method StartDistill() returns (block: ContextLine, prior: seq<string>)
      requires Valid() && tasks.scheduled != []
      modifies `tasks, `ledger, `lists, log
      ensures Valid() && fresh(lists - old(lists)) && old(lists) <= lists
      ensures block == old(tasks).scheduled[0] && tasks.scheduled == old(tasks).scheduled[1..]
      ensures ledger != null && tasks.ledgers == old(tasks).ledgers[old(tasks).begun := ledger]
      ensures log.trace == old(log.trace) + [Started(old(tasks).begun)]
      ensures LedgerEntries() == old(LedgerEntries())
      ensures prior == var es := LedgerEntries(); if |es| <= 8 then es else es[|es| - 8..]
    {
      SetDefaultLedger();
      block, prior := tasks.scheduled[0], LastEight(ledger.entries);
      log.Record(Started(tasks.begun));
      tasks := Distills(tasks.scheduled[1..], tasks.ledgers[tasks.begun := ledger], tasks.begun + 1);
    }

    /** `_distill_to_ledger` after `distill_block`: the entry goes to the ledger it took, the
        claimed names to the room's owners of now. */
    method FinishDistill(t: nat, entry: string, actors: seq<string>)
      requires Valid() && t in tasks.ledgers
      modifies `tasks, `here, log, tasks.ledgers[t]
      ensures Valid()
      ensures tasks.ledgers == old(tasks).ledgers - {t}
      ensures here == old(here).(owners := old(here).owners + L.Claimed(actors))
      ensures forall n :: n in here.owners <==> n in old(here).owners || (n != "" && exists a :: a in actors && Strip(a) == n)
      ensures log.trace == old(log.trace) + [Finished(t, entry, actors)]
      ensures LedgerEntries() == old(LedgerEntries()) +
        if entry != "" && old(tasks).ledgers[t] == ledger then [entry] else []
    {
      var led := tasks.ledgers[t];
      if entry != "" {
        led.entries := led.entries + [entry];
      }
      here := here.(owners := here.owners + L.Claimed(actors));
      tasks := tasks.(ledgers := tasks.ledgers - {t});
      log.Record(Finished(t, entry, actors));
    }

    /** The server reported where the bot stands. */
    method MoveTo(where: string)
      requires Valid()
      modifies `currentRoom
      ensures Valid() && currentRoom == Some(where)
    {
      currentRoom := Some(where);
    }
  }

  /** Nothing is hidden from the gate: the text it judges splits into the nudges and the seed. */
  lemma BlobLines(nudges: seq<string>, seed: string)
    requires '\n' !in seed && forall i :: 0 <= i < |nudges| ==> '\n' !in nudges[i]
    ensures Lines.Split(Blob(nudges, seed)) ==
      if nudges == [] && seed == "" then [""] else nudges + if seed != "" then [seed] else []
  {
    var parts := nudges + if seed != "" then [seed] else [];
    if parts != [] {
      SplitJoined(parts);
    } else {
      assert Lines.Split("") == [""];
    }
  }

  lemma {:induction false} SplitJoined(parts: seq<string>)
    requires parts != [] && forall i :: 0 <= i < |parts| ==> '\n' !in parts[i]
    ensures Lines.Split(Join("\n", parts)) == parts
  {
    if |parts| == 1 {
      Lines.SplitWhole(parts[0]);
    } else {
      Lines.SplitCons(parts[0], Join("\n", parts[1..]));
      SplitJoined(parts[1..]);
      assert parts == [parts[0]] + parts[1..];
    }
  }

  /** The nudges and the explicit seed, one per line. */
  function Blob(nudges: seq<string>, seed: string): string {
    Join("\n", nudges + if seed != "" then [seed] else [])
  }

  function LastFive(xs: seq<string>): seq<string> {
    if |xs| > 5 then xs[|xs| - 5..] else xs
  }

  function LastEight(xs: seq<string>): seq<string> {
    if |xs| > 8 then xs[|xs| - 8..] else xs
  }

  /** The event of handing over a block, if there is one. */
  ghost function HandOver(blocks: seq<ContextLine>, scheduled: bool, giver: Option<nat>): seq<Event> {
    if blocks == [] then [] else [LedgerBlock(blocks[0], scheduled, giver)]
  }

  /** `n` more distillations wait to start. */
  ghost predicate Queued(b: L.Books, b': L.Books, n: int) {
    b' == b.(waiting := b'.waiting) && |b'.waiting| == |b.waiting| + n
  }
}
