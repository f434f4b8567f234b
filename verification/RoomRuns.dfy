/** Whole runs of a room: any schedule of lines, commands, persona answers and distillations. */
module RoomRuns {
  import opened Wrappers
  import opened Text
  import opened Order
  import opened SceneBlocks
  import opened SceneEvents
  import opened RoomScenes
  import G = ConsentGate
  import A = SceneAccount
  import L = SceneLedger

  /** What the event loop may run next. */
  datatype Turn =
    | Room(line: ContextLine, loc: Option<string>)
    | Nudge(text: string)
    | Pose(seed: string)
    | Answer(pose: nat, spoke: bool)
    | Ok(who: Invoker)
    | Deny(who: Invoker)
    | On
    | Off
    | Summarized
    | Distill
    | Distilled(task: nat, entry: string, actors: seq<string>)
    | Move(where: string)

  /** Run one turn; a turn whose handler is not there is skipped. */
  method Take(scene: RoomScene, turn: Turn)
    requires scene.Valid()
    modifies scene, scene.log, scene.lists
    ensures scene.Valid() && fresh(scene.lists - old(scene.lists))
  {
    match turn
    case Room(line, loc) => var _ := scene.HandleRoom(line, loc);
    case Nudge(text) => scene.CaptureSuggestion(text);
    case Pose(seed) => var _ := scene.TriggerRp(seed);
    case Answer(p, spoke) => if p in scene.poses.gates { scene.ResumePose(p, spoke); }
    case Ok(who) => var _ := scene.ConsentOk(who);
    case Deny(who) => var _ := scene.ConsentDeny(who);
    case On => scene.SetRpOn();
    case Off => var _ := scene.SetRpOff();
    case Summarized => if scene.closing > 0 { scene.FinishRpOff(); }
    case Distill => if scene.tasks.scheduled != [] { var _, _ := scene.StartDistill(); }
    case Distilled(t, entry, actors) => if t in scene.tasks.ledgers { scene.FinishDistill(t, entry, actors); }
    case Move(where) => scene.MoveTo(where);
  }

  /** What holds of a room after any run. */
  ghost predicate Promises(tr: seq<Event>, budget: nat, queue: seq<ContextLine>, ledger: seq<string>) {
    var a, b := A.AccountAfter(tr, budget), L.BooksAfter(tr);
    // every event was allowed by the consent gate
    && G.Legal(tr) && L.Possible(tr, budget)
    // the queue is the online trim of the lines since the last pose, and so the offline one
    && queue == OnlineQueue(a.recent, budget)
    && (StaysUnfit(a.recent, budget) ==> queue == Tail(Grouping(a.recent), budget))
    && (NeverShrinks(a.recent) ==> queue == Tail(Grouping(a.recent), budget))
    // every block but the open one was handed over exactly once, in order, as long as each pose held
    // a list that ended as the room's did; poses that do not overlap always do
    && a.distilled == a.handed
    && (a.exact ==> a.distilled + A.Newest(a.live) == A.Blocks(a))
    && (A.ExactThroughout(tr, budget) <==> a.exact)
    && (A.NoneDisturbed(tr, budget) ==> a.exact)
    // and those blocks say what the accepted lines said
    && A.SameText(a)
    // the ledger holds only entries of distillations that started in this scene, and only about blocks
    // posed in it if, when the last scene ended, nothing was still to start and no waiting pose held a block
    && ledger == b.ledger
    && (L.CleanStart(tr, budget) ==> L.Isolated(b))
  }

  lemma {:induction false} KeepsPromises(tr: seq<Event>, budget: nat, queue: seq<ContextLine>, ledger: seq<string>)
    requires G.Legal(tr) && L.Possible(tr, budget)
    requires queue == A.AccountAfter(tr, budget).queue && ledger == L.BooksAfter(tr).ledger
    requires A.AccountAfter(tr, budget).distilled == A.AccountAfter(tr, budget).handed
    ensures Promises(tr, budget, queue, ledger)
  {
    A.QueueIsOnline(tr, budget);
    A.DueIsExact(tr, budget);
    A.ExactlyWhen(tr, budget);
    A.TextKept(tr, budget);
    InStepExactly(A.AccountAfter(tr, budget).recent, budget);
    if NeverShrinks(A.AccountAfter(tr, budget).recent) {
      OnlineEqualsOffline(A.AccountAfter(tr, budget).recent, budget);
    }
    if A.NoneDisturbed(tr, budget) {
      A.UndisturbedIsExact(tr, budget);
    }
    if L.CleanStart(tr, budget) {
      L.CleanIsIsolated(tr, budget);
    }
  }

  /** Every run, from a fresh bot, keeps every promise at its end (and so at every point). */
  method Play(
    room: string, botName: string, configured: Option<int>, isSystem: string -> bool,
    isMortal: string -> bool, distills: bool, summarizes: bool, hasStore: bool, turns: seq<Turn>)
    returns (scene: RoomScene)
    ensures scene.Valid()
    ensures Promises(scene.log.trace, RpBudget(configured), scene.Items(), scene.LedgerEntries())
  {
    scene := new RoomScene(room, botName, configured, isSystem, isMortal, distills, summarizes, hasStore);
    for i := 0 to |turns|
      invariant scene.Valid() && scene.budget == RpBudget(configured)
      invariant fresh(scene) && fresh(scene.log) && fresh(scene.lists)
    {
      Take(scene, turns[i]);
    }
    scene.log.Accounts(|scene.log.trace|);
    assert scene.log.trace[..|scene.log.trace|] == scene.log.trace;
    KeepsPromises(scene.log.trace, scene.budget, scene.Items(), scene.LedgerEntries());
  }

  // ----- runs that show why the conditions are there

  /** Two overlapping poses that took the same list hand its newest block over twice. */
  method OverlapHandsOverTwice(scene: RoomScene, p: nat, q: nat)
    requires scene.Valid() && p != q && p in scene.poses.queues && q in scene.poses.queues
    requires scene.poses.queues[p] == scene.poses.queues[q] && scene.poses.queues[p].items != []
    modifies scene, scene.log
    ensures scene.Valid()
    ensures
      var block := old(scene.poses.queues[p].items[|scene.poses.queues[p].items| - 1]);
      scene.log.trace == old(scene.log.trace)
        + [Emitted(p)] + [LedgerBlock(block, scene.distills, Some(p))]
        + [Emitted(q)] + [LedgerBlock(block, scene.distills, Some(q))]
  {
    scene.ResumePose(p, true);
    scene.ResumePose(q, true);
  }

  /** The bot stands in the room, rp is on, nobody was claimed, nobody asked. */
  predicate Listening(scene: RoomScene)
    reads scene
  {
    && scene.currentRoom == Some(scene.room) && scene.queue != null
    && scene.here == NO_SCENE.(rpEnabled := true) && !scene.hasStore && scene.distills
  }

  /** A fresh bot in a room with rp on. */
  method Opened() returns (scene: RoomScene)
    ensures scene.Valid() && fresh(scene) && fresh(scene.log) && fresh(scene.lists)
    ensures Listening(scene) && scene.Items() == [] && scene.isSystem == (s => false) && scene.isMortal == (s => true)
    ensures scene.poses == Poses(map[], map[], 0) && scene.tasks == Distills([], map[], 0) && scene.ledger == null
    ensures scene.log.trace == [RpOn]
  {
    scene := new RoomScene("hall", "Cricket", None, s => false, s => true, true, false, false);
    scene.MoveTo("hall");
    scene.SetRpOn();
  }

  /** A fresh bot that heard one line. */
  method OneLine(line: ContextLine) returns (scene: RoomScene)
    ensures scene.Valid() && fresh(scene) && fresh(scene.log) && fresh(scene.lists)
    ensures Listening(scene) && scene.Items() == [line] && scene.isSystem == (s => false) && scene.isMortal == (s => true)
    ensures scene.poses == Poses(map[], map[], 0) && scene.tasks == Distills([], map[], 0) && scene.ledger == null
    ensures scene.log.trace == [RpOn, LineIn(line)]
  {
    scene := Opened();
    var _ := scene.HandleRoom(line, None);
  }

  /** A pose begins: nobody was claimed, so nobody needs asking. */
  method Begin(scene: RoomScene)
    requires scene.Valid() && Listening(scene)
    modifies scene, scene.log
    ensures scene.Valid() && Listening(scene) && scene.queue == old(scene.queue)
    ensures fresh(scene.lists - old(scene.lists))
    ensures scene.poses.queues == old(scene.poses).queues[old(scene.poses).begun := scene.queue]
    ensures scene.poses.begun == old(scene.poses).begun + 1
    ensures scene.tasks == old(scene.tasks) && scene.ledger == old(scene.ledger)
    ensures scene.log.trace == old(scene.log.trace) + [Passed(old(scene.poses).begun, None)]
  {
    var t := scene.TriggerRp("");
    assert t.Begun?;
  }

  /** One line, and two poses waiting over it. */
  method TwoWaiting(line: ContextLine) returns (scene: RoomScene)
    ensures scene.Valid() && fresh(scene) && fresh(scene.log) && fresh(scene.lists)
    ensures scene.poses.queues.Keys == {0, 1} && scene.distills
    ensures scene.poses.queues[0] == scene.poses.queues[1] && scene.poses.queues[0].items == [line]
    ensures scene.log.trace == [RpOn, LineIn(line), Passed(0, None), Passed(1, None)]
  {
    scene := OneLine(line);
    Begin(scene);
    Begin(scene);
  }

  /** A run from a fresh bot in which one block is handed over twice. */
  method OverlapRun(line: ContextLine) returns (scene: RoomScene)
    ensures scene.Valid()
    ensures scene.log.trace ==
      [RpOn, LineIn(line), Passed(0, None), Passed(1, None),
       Emitted(0), LedgerBlock(line, true, Some(0)), Emitted(1), LedgerBlock(line, true, Some(1))]
  {
    scene := TwoWaiting(line);
    OverlapHandsOverTwice(scene, 0, 1);
  }

  /** The oldest scheduled distillation runs to its end. */
  method Report(scene: RoomScene, entry: string, actors: seq<string>) returns (block: ContextLine)
    requires scene.Valid() && scene.tasks.scheduled != []
    modifies scene, scene.log, scene.lists
    ensures scene.Valid() && fresh(scene.lists - old(scene.lists)) && block == old(scene.tasks.scheduled[0])
    ensures scene.here == old(scene.here).(owners := old(scene.here).owners + L.Claimed(actors))
    ensures scene.currentRoom == old(scene.currentRoom) && scene.poses == old(scene.poses)
    ensures scene.LedgerEntries() == old(scene.LedgerEntries()) + if entry != "" then [entry] else []
    ensures scene.log.trace == old(scene.log.trace) +
      [Started(old(scene.tasks.begun))] + [Finished(old(scene.tasks.begun), entry, actors)]
  {
    var task := scene.tasks.begun;
    var prior: seq<string>;
    block, prior := scene.StartDistill();
    scene.FinishDistill(task, entry, actors);
  }

  /** A distillation scheduled before rp off but started after it writes in the next scene's ledger. */
  method LateStartLeaks(scene: RoomScene, entry: string) returns (block: ContextLine)
    requires scene.Valid() && scene.tasks.scheduled != [] && entry != ""
    requires scene.hasStore && scene.summarizes && scene.Items() != [] ==> scene.LedgerEntries() != []
    modifies scene, scene.log, scene.lists
    ensures scene.Valid() && block == old(scene.tasks.scheduled[0])
    ensures !scene.here.rpEnabled && scene.LedgerEntries() == [entry]
    ensures scene.log.trace == old(scene.log.trace) + [OffBegun] + [RpOff] +
      [Started(old(scene.tasks.begun))] + [Finished(old(scene.tasks.begun), entry, [])]
  {
    var _ := scene.SetRpOff();
    block := Report(scene, entry, []);
  }

  /** A block handed over, its distillation still to start. */
  method TwoLines(first: ContextLine, second: ContextLine) returns (scene: RoomScene)
    requires !SamePoser(first, second.speaker, second.dbref)
    ensures scene.Valid() && fresh(scene) && fresh(scene.log) && fresh(scene.lists)
    ensures Listening(scene) && scene.isMortal == (s => true) && scene.poses.begun == 0
    ensures scene.tasks.scheduled == [first] && scene.tasks.begun == 0
    ensures scene.log.trace == [RpOn, LineIn(first), LedgerBlock(first, true, None), LineIn(second)]
  {
    scene := OneLine(first);
    assert A.Completed([first], second) == [first];
    var _ := scene.HandleRoom(second, None);
    assert scene.log.trace == [RpOn, LineIn(first)] + [LedgerBlock(first, true, None)] + [LineIn(second)];
  }

  /** A run from a fresh bot whose ledger, after rp off, tells of a block of the scene before. */
  method LateRun(first: ContextLine, second: ContextLine, entry: string) returns (scene: RoomScene, block: ContextLine)
    requires !SamePoser(first, second.speaker, second.dbref) && entry != ""
    ensures scene.Valid() && block == first && scene.LedgerEntries() == [entry]
    ensures scene.log.trace ==
      [RpOn, LineIn(first), LedgerBlock(first, true, None), LineIn(second),
       OffBegun, RpOff, Started(0), Finished(0, entry, [])]
  {
    scene := TwoLines(first, second);
    block := LateStartLeaks(scene, entry);
  }

  /** A pose is waiting over one line as rp is switched off; nothing is scheduled. */
  method WaitsOver(line: ContextLine) returns (scene: RoomScene)
    ensures scene.Valid() && fresh(scene) && fresh(scene.log) && fresh(scene.lists)
    ensures 0 in scene.poses.queues && scene.poses.queues[0].items == [line] && scene.distills
    ensures scene.tasks.scheduled == [] && scene.tasks.begun == 0 && scene.ledger == null
    ensures scene.log.trace == [RpOn, LineIn(line), Passed(0, None), OffBegun, RpOff]
  {
    scene := OneLine(line);
    Begin(scene);
    var _ := scene.SetRpOff();
  }

  /** The pose goes out, and the block it hands over is distilled. */
  method PoseLeaks(scene: RoomScene, p: nat, entry: string)
    requires scene.Valid() && p in scene.poses.queues && scene.poses.queues[p].items != [] && scene.distills
    requires scene.tasks.scheduled == [] && scene.ledger == null && entry != ""
    modifies scene, scene.log, scene.lists
    ensures scene.Valid() && scene.LedgerEntries() == [entry]
    ensures
      var block, task := old(scene.poses.queues[p].items[|scene.poses.queues[p].items| - 1]), old(scene.tasks.begun);
      scene.log.trace == old(scene.log.trace) + [Emitted(p)] + [LedgerBlock(block, true, Some(p))] +
        [Started(task)] + [Finished(task, entry, [])]
  {
    scene.ResumePose(p, true);
    var _ := Report(scene, entry, []);
  }

  /** Another: nothing was still to start at the rp off, but a pose was waiting. It goes out in the
      next scene, and the ledger tells of the block it hands over. */
  method StaleRun(line: ContextLine, entry: string) returns (scene: RoomScene)
    requires entry != ""
    ensures scene.Valid() && scene.LedgerEntries() == [entry]
    ensures scene.log.trace ==
      [RpOn, LineIn(line), Passed(0, None), OffBegun, RpOff,
       Emitted(0), LedgerBlock(line, true, Some(0)), Started(0), Finished(0, entry, [])]
  {
    scene := WaitsOver(line);
    PoseLeaks(scene, 0, entry);
  }

  lemma TwoNames(x: string, y: string)
    requires Tidy(x) && Tidy(y)
    ensures {} + L.Claimed([x, y]) == {x, y}
  {
    StripTidy(x);
    StripTidy(y);
    assert [x, y][0] == x && [x, y][1] == y;
  }

  /** The bot stands in its room, rp is on, and these two were claimed. */
  ghost predicate Claimed(scene: RoomScene, x: string, y: string)
    reads scene
  {
    && scene.currentRoom == Some(scene.room) && scene.isMortal == (s => true) && !scene.hasStore
    && scene.poses.begun == 0
    && scene.here.owners == {x, y} && scene.here.suggestions == []
  }

  method TwoClaimed(first: ContextLine, second: ContextLine, x: string, y: string) returns (scene: RoomScene)
    requires !SamePoser(first, second.speaker, second.dbref) && Tidy(x) && Tidy(y)
    ensures scene.Valid() && fresh(scene) && fresh(scene.log) && fresh(scene.lists)
    ensures Claimed(scene, x, y) && scene.here.pending == None && scene.here.granted == None
  {
    scene := TwoLines(first, second);
    TwoNames(x, y);
    var _ := Report(scene, "", [x, y]);
  }

  predicate NamesBoth(seed: string, x: string, y: string) {
    seed != "" && Contains(Lower(seed), Lower(x)) && Contains(Lower(seed), Lower(y))
  }

  /** The pose is stopped and consent is asked for one of them. */
  method Ask(scene: RoomScene, x: string, y: string, seed: string) returns (asked: string)
    requires scene.Valid() && Claimed(scene, x, y) && NamesBoth(seed, x, y)
    requires scene.here.pending == None && scene.here.granted == None
    modifies scene, scene.log
    ensures scene.Valid() && Claimed(scene, x, y) && fresh(scene.lists - old(scene.lists))
    ensures scene.here.pending == Some(asked) && scene.FirstTarget({x, y}, seed, asked)
  {
    assert Blob([], seed) == seed && scene.IsTarget({x, y}, seed, x);
    var t := scene.TriggerRp(seed);
    assert t.Asked?;
    asked := t.target;
  }

  /** An admin consents. */
  method Consent(scene: RoomScene, ghost x: string, ghost y: string)
    requires scene.Valid() && Claimed(scene, x, y) && scene.here.pending.Some?
    modifies scene, scene.log
    ensures scene.Valid() && Claimed(scene, x, y) && scene.lists == old(scene.lists)
    ensures scene.here.granted == old(scene.here.pending) && scene.here.pending == None
  {
    var done := scene.ConsentOk(Invoker(true, ""));
    assert done;
  }

  /** The pose is tried again, and begins on that consent. */
  method Again(scene: RoomScene, x: string, y: string, seed: string, ghost asked: string)
    requires scene.Valid() && Claimed(scene, x, y) && NamesBoth(seed, x, y)
    requires scene.here.pending == None && scene.here.granted == Some(asked) && scene.FirstTarget({x, y}, seed, asked)
    modifies scene, scene.log
    ensures scene.Valid() && scene.here.owners == {x, y} && scene.here.granted == Some(asked)
    ensures 0 in scene.poses.gates && fresh(scene.lists - old(scene.lists))
    ensures scene.log.trace == old(scene.log.trace) + [Passed(0, Some(asked))]
  {
    assert Blob([], seed) == seed && scene.IsTarget({x, y}, seed, x);
    var t := scene.TriggerRp(seed);
    if t.Asked? {
      Antisymmetric(asked, t.target);
    } else if scene.poses.gates[0].Some? {
      Antisymmetric(asked, scene.poses.gates[0].value);
    }
  }

  /** A run from a fresh bot: a seed names two claimed characters, one consent is given, and the pose
      begins with one of the two not asked. */
  method OneAskedOfTwo(first: ContextLine, second: ContextLine, x: string, y: string, seed: string)
    returns (scene: RoomScene, asked: string)
    requires !SamePoser(first, second.speaker, second.dbref)
    requires Tidy(x) && Tidy(y) && Lower(x) != Lower(y) && NamesBoth(seed, x, y)
    ensures scene.Valid() && scene.here.owners == {x, y}
    ensures |scene.log.trace| > 0 && scene.log.trace[|scene.log.trace| - 1] == Passed(0, Some(asked))
    ensures scene.IsTarget({x, y}, seed, x) && scene.IsTarget({x, y}, seed, y)
    ensures !(G.Covers(scene.here.granted, x) && G.Covers(scene.here.granted, y))
  {
    scene := TwoClaimed(first, second, x, y);
    asked := Ask(scene, x, y, seed);
    Consent(scene, x, y);
    Again(scene, x, y, seed, asked);
  }

  /** A run from a fresh bot: a pose passes on a consent, rp off takes the grant while it waits, and
      the pose still goes out. */
  method EndedConsentRun(first: ContextLine, second: ContextLine, x: string)
    returns (scene: RoomScene, asked: string, ghost before: seq<Event>)
    requires !SamePoser(first, second.speaker, second.dbref) && Tidy(x)
    ensures scene.Valid() && |before| > 0 && before[|before| - 1] == Passed(0, Some(asked))
    ensures before + [OffBegun] + [RpOff] + [Emitted(0)] <= scene.log.trace
  {
    scene := TwoClaimed(first, second, x, x);
    assert OccursAt(Lower(x), Lower(x), 0);
    asked := Ask(scene, x, x, x);
    Consent(scene, x, x);
    Again(scene, x, x, x, asked);
    before := scene.log.trace;
    OffThenOut(scene, 0);
  }

  method OffThenOut(scene: RoomScene, p: nat)
    requires scene.Valid() && p in scene.poses.gates && !scene.hasStore
    modifies scene, scene.log
    ensures scene.Valid() && old(scene.log.trace) + [OffBegun] + [RpOff] + [Emitted(p)] <= scene.log.trace
  {
    var _ := scene.SetRpOff();
    scene.ResumePose(p, true);
  }
}
