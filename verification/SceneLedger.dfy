/** Which distillation entries belong to which scene of a room, from its events alone. */
module SceneLedger {
  import opened Wrappers
  import opened Text
  import opened SceneBlocks
  import opened SceneEvents
  import A = SceneAccount

  /** A running distillation: the scene it started in, and the scene its block was posed in. */
  datatype Task = Task(startedIn: nat, posedIn: nat)

  /** `scene` counts the finished scenes. `passedIn`: the scene each pose began in, which is the scene
      of the list it took. `waiting`: for each distillation scheduled and not yet started, oldest
      first, the scene its block was posed in. `begun`: those started so far. `ledger` holds the
      current scene's entries and `sources` the scenes their blocks were posed in; `owners` the
      claimed characters. */
  datatype Books = Books(
    scene: nat, passedIn: map<nat, nat>, waiting: seq<nat>, begun: nat, running: map<nat, Task>,
    ledger: seq<string>, sources: seq<nat>, owners: set<string>)

  /** The names a distillation reports, stripped, blank ones left out. */
  function Claimed(actors: seq<string>): (r: set<string>)
    ensures "" !in r
  {
    set a | a in actors && Strip(a) != "" :: Strip(a)
  }

  /** The entry goes to the current ledger: the distillation took it when it started. */
  predicate Writes(b: Books, t: nat, entry: string) {
    entry != "" && t in b.running && b.running[t].startedIn == b.scene
  }

  /** The scene a block handed over now was posed in: the current one if a line completed it, else
      that of the list the pose took. */
  function PosedIn(b: Books, giver: Option<nat>): nat {
    if giver.Some? && giver.value in b.passedIn then b.passedIn[giver.value] else b.scene
  }

  function Apply(b: Books, e: Event): Books {
    match e
    case Passed(p, _) => b.(passedIn := b.passedIn[p := b.scene])
    case LedgerBlock(_, scheduled, giver) =>
      if scheduled then b.(waiting := b.waiting + [PosedIn(b, giver)]) else b
    case Started(t) =>
      if b.waiting == [] then b
      else b.(waiting := b.waiting[1..], begun := b.begun + 1, running := b.running[t := Task(b.scene, b.waiting[0])])
    case Finished(t, entry, actors) =>
      b.(running := b.running - {t},
         ledger := if Writes(b, t, entry) then b.ledger + [entry] else b.ledger,
         sources := if Writes(b, t, entry) then b.sources + [b.running[t].posedIn] else b.sources,
         owners := b.owners + Claimed(actors))
    case RpOff => b.(scene := b.scene + 1, ledger := [], sources := [], owners := {})
    case _ => b
  }

  const NO_BOOKS := Books(0, map[], [], 0, map[], [], [], {})

  function BooksAfter(tr: seq<Event>): Books {
    if tr == [] then NO_BOOKS
    else Apply(BooksAfter(tr[..|tr| - 1]), tr[|tr| - 1])
  }

  /** What the handlers can do next, in a room whose lists are as `a` says: a pose that went out hands
      over the newest block of the list it took at once; a line hands over the newest block of the
      queue; distillations start in the order they were scheduled, and finish after they started. */
  predicate Feasible(b: Books, a: A.Account, e: Event) {
    match e
    case LedgerBlock(block, _, Some(p)) => a.owing == A.Owing(p, block)
    case LedgerBlock(block, _, None) => a.owing.Nothing? && A.Newest(a.queue) == [block]
    case Passed(p, _) => a.owing.Nothing? && p !in a.held
    case Silent(p) => a.owing.Nothing? && p in a.held
    case Emitted(p) => a.owing.Nothing? && p in a.held
    case Started(t) => a.owing.Nothing? && b.waiting != [] && t == b.begun
    case Finished(t, _, _) => a.owing.Nothing? && t in b.running
    case _ => a.owing.Nothing?
  }

  predicate Possible(tr: seq<Event>, budget: nat) {
    tr == [] ||
    (Possible(tr[..|tr| - 1], budget)
     && Feasible(BooksAfter(tr[..|tr| - 1]), A.AccountAfter(tr[..|tr| - 1], budget), tr[|tr| - 1]))
  }

  lemma Snoc(tr: seq<Event>, e: Event, budget: nat)
    ensures BooksAfter(tr + [e]) == Apply(BooksAfter(tr), e)
    ensures Possible(tr + [e], budget) <==> Possible(tr, budget) && Feasible(BooksAfter(tr), A.AccountAfter(tr, budget), e)
  {
    assert (tr + [e])[..|tr|] == tr;
  }

  ghost predicate SameScene(tr: seq<Event>, from: nat, to: nat)
    requires to <= |tr|
  {
    forall j :: from <= j < to ==> !tr[j].RpOff?
  }

  lemma {:induction false} StartOf(tr: seq<Event>, t: nat) returns (s: nat)
    requires t in BooksAfter(tr).running
    ensures s < |tr| && tr[s] == Started(t)
    ensures BooksAfter(tr).running[t].startedIn <= BooksAfter(tr).scene
    ensures BooksAfter(tr).running[t].startedIn == BooksAfter(tr).scene ==> SameScene(tr, s, |tr|)
  {
    var front := tr[..|tr| - 1];
    if tr[|tr| - 1] == Started(t) && BooksAfter(front).waiting != [] {
      s := |tr| - 1;
    } else {
      s := StartOf(front, t);
      assert forall j :: s <= j < |front| ==> tr[j] == front[j];
    }
  }

  /** Isolation: each entry of the current ledger was written by a distillation that started,
      and finished, after the last rp off. */
  lemma {:induction false} LedgerSource(tr: seq<Event>, m: nat) returns (s: nat, f: nat)
    requires m < |BooksAfter(tr).ledger|
    ensures s < f < |tr| && tr[f].Finished? && tr[s] == Started(tr[f].task)
    ensures tr[f].entry == BooksAfter(tr).ledger[m]
    ensures SameScene(tr, s, |tr|)
  {
    var front, e := tr[..|tr| - 1], tr[|tr| - 1];
    if m < |BooksAfter(front).ledger| {
      s, f := LedgerSource(front, m);
    } else {
      f := |tr| - 1;
      s := StartOf(front, e.task);
    }
    assert forall j :: s <= j < |front| ==> tr[j] == front[j];
  }

  // ----- late entries

  /** The books' part of what is possible: distillations start in order. */
  predicate InOrder(b: Books, e: Event) {
    e.Started? ==> b.waiting != [] && e.task == b.begun
  }

  predicate Ordered(tr: seq<Event>) {
    tr == [] || (Ordered(tr[..|tr| - 1]) && InOrder(BooksAfter(tr[..|tr| - 1]), tr[|tr| - 1]))
  }

  lemma {:induction false} PossibleIsOrdered(tr: seq<Event>, budget: nat)
    requires Possible(tr, budget)
    ensures Ordered(tr)
  {
    if tr != [] {
      PossibleIsOrdered(tr[..|tr| - 1], budget);
    }
  }

  lemma {:induction false} OrderAt(tr: seq<Event>, i: nat)
    requires Ordered(tr) && i < |tr|
    ensures InOrder(BooksAfter(tr[..i]), tr[i])
    ensures BooksAfter(tr[..i + 1]) == Apply(BooksAfter(tr[..i]), tr[i])
  {
    var front := tr[..|tr| - 1];
    if i < |front| {
      OrderAt(front, i);
      assert front[..i] == tr[..i] && front[..i + 1] == tr[..i + 1];
    } else {
      assert tr[..i] == front && tr[..i + 1] == tr;
    }
  }

  ghost predicate RunningKept(b: Books) {
    forall t :: t in b.running ==> t < b.begun && b.running[t].startedIn <= b.scene
  }

  lemma {:induction false} RunningBegun(tr: seq<Event>)
    requires Ordered(tr)
    ensures RunningKept(BooksAfter(tr))
  {
    if tr != [] {
      RunningBegun(tr[..|tr| - 1]);
    }
  }

  /** The distillation `t` started in the scene `n`, and is not started again. */
  predicate StartedIn(b: Books, t: nat, n: nat) {
    t < b.begun && n <= b.scene && (t in b.running ==> b.running[t].startedIn == n)
  }

  /** A distillation keeps the scene it started in. */
  lemma {:induction false} StartKept(tr: seq<Event>, s: nat, i: nat)
    requires Ordered(tr) && s < i <= |tr| && tr[s].Started?
    ensures StartedIn(BooksAfter(tr[..i]), tr[s].task, BooksAfter(tr[..s]).scene)
    decreases i
  {
    OrderAt(tr, i - 1);
    if s < i - 1 {
      StartKept(tr, s, i - 1);
    }
  }

  lemma {:induction false} SceneGrows(tr: seq<Event>, r: nat, i: nat)
    requires Ordered(tr) && r < i <= |tr| && tr[r].RpOff?
    ensures BooksAfter(tr[..i]).scene > BooksAfter(tr[..r]).scene
    decreases i
  {
    OrderAt(tr, i - 1);
    if r < i - 1 {
      SceneGrows(tr, r, i - 1);
    }
  }

  /** A distillation that started before an rp off and finishes after it leaves the ledger alone,
      whatever it returns and however many scenes lie between. */
  lemma LateEntryDropped(tr: seq<Event>, s: nat, r: nat, f: nat)
    requires Ordered(tr) && s < r < f < |tr|
    requires tr[s].Started? && tr[r].RpOff? && tr[f].Finished? && tr[f].task == tr[s].task
    ensures BooksAfter(tr[..f + 1]).ledger == BooksAfter(tr[..f]).ledger
  {
    OrderAt(tr, f);
    StartKept(tr, s, f);
    StartKept(tr, s, r);
    SceneGrows(tr, r, f);
  }

  function Starts(tr: seq<Event>): nat {
    if tr == [] then 0 else Starts(tr[..|tr| - 1]) + if tr[|tr| - 1].Started? then 1 else 0
  }

  /** Entries written to any scene's ledger. */
  function Written(tr: seq<Event>): nat {
    if tr == [] then 0
    else
      var e, front := tr[|tr| - 1], tr[..|tr| - 1];
      Written(front) +
      if e.Finished? && e.entry != "" && e.task in BooksAfter(front).running then 1 else 0
  }

  /** Each distillation that starts writes at most one entry. */
  lemma {:induction false} OneEntryEach(tr: seq<Event>)
    ensures Written(tr) + |BooksAfter(tr).running| <= Starts(tr)
  {
    if tr != [] {
      var front, e := tr[..|tr| - 1], tr[|tr| - 1];
      OneEntryEach(front);
      var b, b' := BooksAfter(front), BooksAfter(tr);
      if e.Started? && b.waiting != [] {
        assert b'.running.Keys == b.running.Keys + {e.task};
        assert |b'.running.Keys| <= |b.running.Keys| + 1;
      } else if e.Finished? {
        assert b'.running.Keys == b.running.Keys - {e.task};
      }
    }
  }

  // ----- blocks of one scene in the ledger of another

  /** Every entry of the current ledger is about a block posed in the current scene. */
  predicate Isolated(b: Books) {
    forall m :: 0 <= m < |b.sources| ==> b.sources[m] == b.scene
  }

  /** A waiting pose that can hand over no block of an earlier scene. */
  predicate Harmless(b: Books, a: A.Account, p: nat) {
    (p in b.passedIn && b.passedIn[p] == b.scene) || (p in a.held && a.held[p] == A.Kept([]))
  }

  /** Nothing of an earlier scene can reach the current ledger any more. */
  ghost predicate Settled(b: Books, a: A.Account) {
    && (forall m :: 0 <= m < |b.waiting| ==> b.waiting[m] == b.scene)
    && (forall t :: t in b.running && b.running[t].startedIn == b.scene ==> b.running[t].posedIn == b.scene)
    && Isolated(b)
    && (forall p :: p in a.held ==> Harmless(b, a, p))
    && (a.owing.Owing? ==> PosedIn(b, Some(a.owing.pose)) == b.scene)
  }

  lemma SettledStep(b: Books, a: A.Account, e: Event, budget: nat)
    requires Settled(b, a) && Feasible(b, a, e) && !e.RpOff?
    ensures Settled(Apply(b, e), A.Apply(a, e, budget))
  {
    var b', a' := Apply(b, e), A.Apply(a, e, budget);
    forall p | p in a'.held
      ensures Harmless(b', a', p)
    {
      if p in a.held {
        assert Harmless(b, a, p);
      }
    }
  }

  /** A run that goes on from `tr`, within the scene. */
  ghost predicate GoesOn(tr: seq<Event>, ops: seq<Event>, budget: nat) {
    SameScene(ops, 0, |ops|) && Possible(tr + ops, budget)
  }

  ghost predicate SettledAfter(tr: seq<Event>, budget: nat) {
    Settled(BooksAfter(tr), A.AccountAfter(tr, budget))
  }

  lemma {:induction false} SettledNext(tr: seq<Event>, e: Event, budget: nat)
    requires SettledAfter(tr, budget) && Possible(tr + [e], budget) && !e.RpOff?
    ensures SettledAfter(tr + [e], budget)
  {
    Snoc(tr, e, budget);
    A.Snoc(tr, e, budget);
    SettledStep(BooksAfter(tr), A.AccountAfter(tr, budget), e, budget);
  }

  lemma {:induction false} SettledOn(tr: seq<Event>, ops: seq<Event>, budget: nat)
    requires SettledAfter(tr, budget) && GoesOn(tr, ops, budget)
    ensures SettledAfter(tr + ops, budget)
    decreases |ops|
  {
    if ops == [] {
      assert tr + ops == tr;
    } else {
      var front, e := ops[..|ops| - 1], ops[|ops| - 1];
      assert (tr + front) + [e] == tr + ops;
      Snoc(tr + front, e, budget);
      SettledOn(tr, front, budget);
      SettledNext(tr + front, e, budget);
    }
  }

  /** What never exceeds the current scene's number. */
  ghost predicate Past(b: Books) {
    && (forall m :: 0 <= m < |b.waiting| ==> b.waiting[m] <= b.scene)
    && (forall p :: p in b.passedIn ==> b.passedIn[p] <= b.scene)
  }

  lemma {:induction false} AlwaysPast(tr: seq<Event>)
    ensures Past(BooksAfter(tr))
  {
    if tr != [] {
      AlwaysPast(tr[..|tr| - 1]);
    }
  }

  lemma {:induction false} HeldPassed(tr: seq<Event>, budget: nat)
    ensures A.AccountAfter(tr, budget).held.Keys <= BooksAfter(tr).passedIn.Keys
  {
    if tr != [] {
      HeldPassed(tr[..|tr| - 1], budget);
      HeldStep(BooksAfter(tr[..|tr| - 1]), A.AccountAfter(tr[..|tr| - 1], budget), tr[|tr| - 1], budget);
    }
  }

  lemma HeldStep(b: Books, a: A.Account, e: Event, budget: nat)
    requires a.held.Keys <= b.passedIn.Keys
    ensures A.Apply(a, e, budget).held.Keys <= Apply(b, e).passedIn.Keys
  {
  }

  /** The books and the lists right after an rp off. */
  ghost predicate JustOff(b: Books, a: A.Account) {
    && b.sources == [] && a.owing.Nothing? && a.queue == []
    && (forall t :: t in b.running ==> b.running[t].startedIn < b.scene)
    && (forall m :: 0 <= m < |b.waiting| ==> b.waiting[m] < b.scene)
    && (forall p :: p in a.held ==> a.held[p].Kept? && p in b.passedIn && b.passedIn[p] < b.scene)
  }

  lemma {:induction false} AfterOff(tr: seq<Event>, budget: nat)
    requires Possible(tr, budget) && tr != [] && tr[|tr| - 1].RpOff?
    ensures JustOff(BooksAfter(tr), A.AccountAfter(tr, budget))
  {
    PossibleIsOrdered(tr[..|tr| - 1], budget);
    RunningBegun(tr[..|tr| - 1]);
    AlwaysPast(tr[..|tr| - 1]);
    HeldPassed(tr[..|tr| - 1], budget);
  }

  /** Nothing scheduled is still to start, and no pose that waits holds a block. */
  ghost predicate NothingLeft(b: Books, a: A.Account) {
    b.waiting == [] && forall p :: p in a.held ==> A.Taken(a, p) == []
  }

  /** After an rp off, in every continuation of the next scene, the ledger holds only entries about
      blocks posed in that scene: exactly when at the rp off no scheduled distillation was still to
      start, and no pose awaiting the persona held a block. */
  lemma IsolationExactly(tr: seq<Event>, budget: nat)
    requires Possible(tr, budget) && tr != [] && tr[|tr| - 1].RpOff?
    ensures NothingLeft(BooksAfter(tr), A.AccountAfter(tr, budget)) <==>
      forall ops :: GoesOn(tr, ops, budget) ==> Isolated(BooksAfter(tr + ops))
  {
    var b, a := BooksAfter(tr), A.AccountAfter(tr, budget);
    AfterOff(tr, budget);
    if NothingLeft(b, a) {
      OffSettled(b, a);
      forall ops | GoesOn(tr, ops, budget)
        ensures Isolated(BooksAfter(tr + ops))
      {
        SettledOn(tr, ops, budget);
      }
    } else if b.waiting != [] {
      assert tr + [] == tr;
      StaleFrom(tr, [], budget);
    } else {
      var p :| p in a.held && A.Taken(a, p) != [];
      var block := A.Newest(A.Taken(a, p))[0];
      var ops := [Emitted(p), LedgerBlock(block, true, Some(p))];
      PoseHandsOver(tr, p, block, budget);
      assert tr + ops == tr + [Emitted(p)] + [LedgerBlock(block, true, Some(p))];
      StaleFrom(tr, ops, budget);
    }
  }

  lemma OffSettled(b: Books, a: A.Account)
    requires JustOff(b, a) && NothingLeft(b, a)
    ensures Settled(b, a)
  {
    forall p | p in a.held
      ensures Harmless(b, a, p)
    {
      assert A.Taken(a, p) == a.held[p].items;
    }
  }

  /** The next waiting distillation starts and writes. */
  lemma NextWrites(tr: seq<Event>, budget: nat)
    requires Possible(tr, budget) && BooksAfter(tr).waiting != [] && A.AccountAfter(tr, budget).owing.Nothing?
    ensures var b := BooksAfter(tr);
      var tr' := tr + [Started(b.begun)] + [Finished(b.begun, "x", [])];
      Possible(tr', budget) && BooksAfter(tr').scene == b.scene && BooksAfter(tr').sources == b.sources + [b.waiting[0]]
  {
    var b := BooksAfter(tr);
    var tr1 := tr + [Started(b.begun)];
    Snoc(tr, Started(b.begun), budget);
    A.Snoc(tr, Started(b.begun), budget);
    Snoc(tr1, Finished(b.begun, "x", []), budget);
  }

  /** Some way on from `tr` a block of an earlier scene waits to be distilled. */
  lemma StaleFrom(tr: seq<Event>, ops: seq<Event>, budget: nat)
    requires GoesOn(tr, ops, budget) && A.AccountAfter(tr + ops, budget).owing.Nothing?
    requires var b := BooksAfter(tr + ops); b.waiting != [] && b.waiting[0] < b.scene && b.sources == []
    ensures exists more :: GoesOn(tr, more, budget) && !Isolated(BooksAfter(tr + more))
  {
    var b := BooksAfter(tr + ops);
    var more := ops + [Started(b.begun), Finished(b.begun, "x", [])];
    NextWrites(tr + ops, budget);
    assert tr + more == (tr + ops) + [Started(b.begun)] + [Finished(b.begun, "x", [])];
    assert BooksAfter(tr + more).sources[0] < b.scene;
    assert GoesOn(tr, more, budget) && !Isolated(BooksAfter(tr + more));
  }

  /** The waiting pose can hand over that block. */
  predicate Holds(a: A.Account, p: nat, block: ContextLine) {
    a.owing.Nothing? && p in a.held && A.Newest(A.Taken(a, p)) == [block]
  }

  /** A waiting pose can go out and hand a block over exactly when it holds that block; the block then
      waits to be distilled. */
  lemma PoseHandsOver(tr: seq<Event>, p: nat, block: ContextLine, budget: nat)
    ensures var tr' := tr + [Emitted(p)] + [LedgerBlock(block, true, Some(p))];
      && (Possible(tr', budget) <==> Possible(tr, budget) && Holds(A.AccountAfter(tr, budget), p, block))
      && BooksAfter(tr') == Apply(BooksAfter(tr), LedgerBlock(block, true, Some(p)))
      && A.AccountAfter(tr', budget).owing.Nothing?
  {
    var tr1 := tr + [Emitted(p)];
    Snoc(tr, Emitted(p), budget);
    A.Snoc(tr, Emitted(p), budget);
    Snoc(tr1, LedgerBlock(block, true, Some(p)), budget);
    A.Snoc(tr1, LedgerBlock(block, true, Some(p)), budget);
  }

  /** The current scene is the first, or nothing was left over when the last one ended. */
  ghost predicate CleanStart(tr: seq<Event>, budget: nat) {
    tr == [] ||
    if tr[|tr| - 1].RpOff? then NothingLeft(BooksAfter(tr), A.AccountAfter(tr, budget))
    else CleanStart(tr[..|tr| - 1], budget)
  }

  lemma {:induction false} CleanIsIsolated(tr: seq<Event>, budget: nat)
    requires Possible(tr, budget) && CleanStart(tr, budget)
    ensures Settled(BooksAfter(tr), A.AccountAfter(tr, budget))
  {
    if tr != [] {
      var front, e := tr[..|tr| - 1], tr[|tr| - 1];
      if e.RpOff? {
        AfterOff(tr, budget);
        OffSettled(BooksAfter(tr), A.AccountAfter(tr, budget));
      } else {
        CleanIsIsolated(front, budget);
        SettledStep(BooksAfter(front), A.AccountAfter(front, budget), e, budget);
      }
    }
  }
}
