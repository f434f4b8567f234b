/** What a room's scene should hold and hand to the distiller, from its events alone:
    no shared lists and no suspended handlers. */
module SceneAccount {
  import opened Wrappers
  import opened Text
  import opened SceneBlocks
  import opened SceneEvents

  /** The list a pose awaiting the persona took: the room's present one, or one the room has let
      go of, which nobody adds to any more. */
  datatype Hold = Shared | Kept(items: seq<ContextLine>)

  /** What a pose that just went out hands over next, in the same stretch. */
  datatype Owing = Nothing | Owing(pose: nat, block: ContextLine)

  /** The current scene: its lines; the blocks that poses consumed (`done`); the lines since, their
      untrimmed blocks (`live`) and the trimmed ones (`queue`); the blocks that should have been
      handed to the distiller (`due`), those the handlers hand over (`handed`), and those the events
      record (`distilled`). `held`: the list of each pose awaiting the persona. `made`: the room has
      a queue. `exact`: every pose of the scene handed over what was due. `owing`: what the pose that
      just went out hands over next. */
  datatype Account = Account(
    lines: seq<ContextLine>, done: seq<ContextLine>, recent: seq<ContextLine>, live: seq<ContextLine>,
    queue: seq<ContextLine>, due: seq<ContextLine>, handed: seq<ContextLine>, distilled: seq<ContextLine>,
    held: map<nat, Hold>, made: bool, exact: bool, owing: Owing)

  function Newest(queue: seq<ContextLine>): seq<ContextLine> {
    if queue == [] then [] else [queue[|queue| - 1]]
  }

  /** The block a line completes. */
  function Completed(queue: seq<ContextLine>, line: ContextLine): seq<ContextLine> {
    if Continues(queue, line) then [] else Newest(queue)
  }

  function Empty(held: map<nat, Hold>, made: bool): Account {
    Account([], [], [], [], [], [], [], [], held, made, true, Nothing)
  }

  /** The room lets go of its list: whoever shares it keeps it as it is. */
  function LetGo(held: map<nat, Hold>, queue: seq<ContextLine>): map<nat, Hold> {
    map p | p in held :: if held[p].Shared? then Kept(queue) else held[p]
  }

  /** What is in the list a pose took. */
  function Taken(a: Account, p: nat): seq<ContextLine> {
    if p !in a.held then [] else if a.held[p].Shared? then a.queue else a.held[p].items
  }

  /** The list the pose took ends as the room's does: it hands over what is due. */
  predicate HandsOverDue(a: Account, p: nat) {
    Newest(Taken(a, p)) == Newest(a.queue)
  }

  function Apply(a: Account, e: Event, budget: nat): Account {
    match e
    case LineIn(line) =>
      a.(lines := a.lines + [line],
         recent := a.recent + [line],
         live := AddLine(a.live, line),
         queue := Tail(AddLine(a.queue, line), budget),
         due := a.due + Completed(a.queue, line),
         handed := a.handed + Completed(a.queue, line))
    case LedgerBlock(b, _, _) => a.(distilled := a.distilled + [b], owing := Nothing)
    case Passed(p, _) => a.(held := a.held[p := if a.made then Shared else Kept([])])
    case Silent(p) => a.(held := a.held - {p})
    case Emitted(p) =>
      a.(held := LetGo(a.held - {p}, a.queue), made := true,
         done := a.done + a.live, recent := [], live := [], queue := [],
         due := a.due + Newest(a.queue),
         handed := a.handed + Newest(Taken(a, p)),
         exact := a.exact && HandsOverDue(a, p),
         owing := if Taken(a, p) == [] then Nothing else Owing(p, Newest(Taken(a, p))[0]))
    case RpOn => a.(made := true)
    case OffBegun => a.(made := true)
    case RpOff => Empty(LetGo(a.held, a.queue), true)
    case _ => a
  }

  function AccountAfter(tr: seq<Event>, budget: nat): Account {
    if tr == [] then Empty(map[], false)
    else Apply(AccountAfter(tr[..|tr| - 1], budget), tr[|tr| - 1], budget)
  }

  lemma Snoc(tr: seq<Event>, e: Event, budget: nat)
    ensures AccountAfter(tr + [e], budget) == Apply(AccountAfter(tr, budget), e, budget)
  {
    assert (tr + [e])[..|tr|] == tr;
  }

  /** All blocks of the scene, in order, however trimming and poses cut it. */
  function Blocks(a: Account): seq<ContextLine> {
    a.done + a.live
  }

  /** `live` is the untrimmed grouping of the lines since the last pose; `queue` the online one. */
  predicate QueueKept(a: Account, budget: nat) {
    a.live == Grouping(a.recent) && a.queue == OnlineQueue(a.recent, budget)
  }

  lemma StepQueueKept(a: Account, e: Event, budget: nat)
    requires QueueKept(a, budget)
    ensures QueueKept(Apply(a, e, budget), budget)
  {
    match e
    case LineIn(line) =>
      GroupingSnoc(a.recent, line);
      OnlineQueueSnoc(a.recent, line, budget);
    case Emitted(_) => assert Grouping([]) == [] && OnlineQueue([], budget) == [];
    case RpOff => assert Grouping([]) == [] && OnlineQueue([], budget) == [];
    case _ =>
  }

  lemma {:induction false} QueueIsOnline(tr: seq<Event>, budget: nat)
    ensures QueueKept(AccountAfter(tr, budget), budget)
  {
    if tr != [] {
      QueueIsOnline(tr[..|tr| - 1], budget);
      StepQueueKept(AccountAfter(tr[..|tr| - 1], budget), tr[|tr| - 1], budget);
    }
  }

  /** Every block but the open one is due, once each and in order. */
  predicate ExactlyOnce(a: Account) {
    AllDue(a.due, a.done, a.live)
  }

  predicate AllDue(due: seq<ContextLine>, done: seq<ContextLine>, live: seq<ContextLine>) {
    due + Newest(live) == done + live
  }

  lemma NewestOfSuffix(q: seq<ContextLine>, blocks: seq<ContextLine>, line: ContextLine)
    requires IsSuffix(q, blocks) && (q == [] <==> blocks == [])
    ensures Newest(q) == Newest(blocks)
    ensures Completed(q, line) == Completed(blocks, line)
  {
    if q != [] {
      assert q[|q| - 1] == blocks[|blocks| - 1];
    }
  }

  lemma LineDue(due: seq<ContextLine>, done: seq<ContextLine>, live: seq<ContextLine>, line: ContextLine)
    requires due + Newest(live) == done + live
    ensures (due + Completed(live, line)) + Newest(AddLine(live, line)) == done + AddLine(live, line)
  {
    if Continues(live, line) {
      var last, last' := live[|live| - 1], Merge(live[|live| - 1], line.text);
      assert due == (due + [last])[..|due|];
      assert due == done + live[..|live| - 1];
      assert AddLine(live, line) == live[..|live| - 1] + [last'];
    } else {
      assert due + Completed(live, line) == done + live;
    }
  }

  lemma LineExact(a: Account, line: ContextLine, budget: nat)
    requires ExactlyOnce(a) && QueueKept(a, budget)
    ensures ExactlyOnce(Apply(a, LineIn(line), budget))
  {
    OnlineQueueIsSuffix(a.recent, budget);
    NewestOfSuffix(a.queue, a.live, line);
    LineDue(a.due, a.done, a.live, line);
  }

  lemma PoseDueStep(a: Account, p: nat, budget: nat)
    requires ExactlyOnce(a) && Newest(a.queue) == Newest(a.live)
    ensures ExactlyOnce(Apply(a, Emitted(p), budget))
  {
  }

  lemma PoseExact(a: Account, p: nat, budget: nat)
    requires ExactlyOnce(a) && QueueKept(a, budget)
    ensures ExactlyOnce(Apply(a, Emitted(p), budget))
  {
    OnlineQueueIsSuffix(a.recent, budget);
    NewestOfSuffix(a.queue, a.live, ContextLine("", "", "", ""));
    PoseDueStep(a, p, budget);
  }

  /** Exactly-once: in every run the blocks due so far are all the blocks but the open one,
      even those trimming dropped since. */
  lemma {:induction false} DueIsExact(tr: seq<Event>, budget: nat)
    ensures ExactlyOnce(AccountAfter(tr, budget))
  {
    if tr != [] {
      var a, e := AccountAfter(tr[..|tr| - 1], budget), tr[|tr| - 1];
      DueIsExact(tr[..|tr| - 1], budget);
      QueueIsOnline(tr[..|tr| - 1], budget);
      if e.LineIn? {
        LineExact(a, e.line, budget);
      } else if e.Emitted? {
        PoseExact(a, e.pose, budget);
      }
    }
  }

  // ----- when what is handed over is what is due

  lemma SameFront(x: seq<ContextLine>, y: seq<ContextLine>, z: seq<ContextLine>)
    ensures x + y == x + z <==> y == z
  {
    assert (x + y)[|x|..] == y && (x + z)[|x|..] == z;
  }

  /** A pose keeps the two equal exactly when the list it took ends as the room's does. */
  lemma PoseStep(a: Account, p: nat, budget: nat)
    requires a.handed == a.due
    ensures Apply(a, Emitted(p), budget).handed == Apply(a, Emitted(p), budget).due <==> HandsOverDue(a, p)
  {
    SameFront(a.due, Newest(Taken(a, p)), Newest(a.queue));
  }

  /** At every point since the scene began, what was handed over was what was due. */
  predicate ExactThroughout(tr: seq<Event>, budget: nat) {
    tr == [] || tr[|tr| - 1].RpOff? ||
    (ExactThroughout(tr[..|tr| - 1], budget) && AccountAfter(tr, budget).handed == AccountAfter(tr, budget).due)
  }

  /** That is so exactly when every pose of the scene, as it was emitted, held a list that ended as
      the room's did. */
  lemma {:induction false} ExactlyWhen(tr: seq<Event>, budget: nat)
    ensures AccountAfter(tr, budget).exact <==> ExactThroughout(tr, budget)
    ensures AccountAfter(tr, budget).exact ==> AccountAfter(tr, budget).handed == AccountAfter(tr, budget).due
  {
    if tr != [] {
      var a, e := AccountAfter(tr[..|tr| - 1], budget), tr[|tr| - 1];
      ExactlyWhen(tr[..|tr| - 1], budget);
      if e.Emitted? && a.exact {
        PoseStep(a, e.pose, budget);
      }
    }
  }

  /** A pose took the room's list at `s`, and nothing replaced the list up to `e`. */
  ghost predicate Undisturbed(tr: seq<Event>, s: nat, e: nat, budget: nat)
    requires s < e <= |tr|
  {
    && tr[s].Passed? && AccountAfter(tr[..s], budget).made
    && forall j :: s < j < e ==>
      !tr[j].Emitted? && !tr[j].RpOff? && tr[j] != Silent(tr[s].pose) && !(tr[j].Passed? && tr[j].pose == tr[s].pose)
  }

  lemma HoldKept(a: Account, e: Event, p: nat, budget: nat)
    requires p in a.held && a.held[p].Shared?
    requires !e.Emitted? && !e.RpOff? && e != Silent(p) && !(e.Passed? && e.pose == p)
    ensures p in Apply(a, e, budget).held && Apply(a, e, budget).held[p].Shared?
  {
  }

  lemma {:induction false} StillShared(tr: seq<Event>, s: nat, budget: nat)
    requires s < |tr| && Undisturbed(tr, s, |tr|, budget)
    ensures tr[s].pose in AccountAfter(tr, budget).held
    ensures AccountAfter(tr, budget).held[tr[s].pose].Shared?
  {
    var front := tr[..|tr| - 1];
    if s < |front| {
      UndisturbedFront(tr, s, |front|, budget);
      StillShared(front, s, budget);
      HoldKept(AccountAfter(front, budget), tr[|front|], tr[s].pose, budget);
    }
  }

  /** Where the current scene begins in the run. */
  function SceneStart(tr: seq<Event>): (n: nat)
    ensures n <= |tr|
  {
    if tr == [] then 0 else if tr[|tr| - 1].RpOff? then |tr| else SceneStart(tr[..|tr| - 1])
  }

  /** The scene's poses do not overlap: from each one's start, in a room with a queue, to its end, no
      other is emitted and no scene ends. */
  ghost predicate NoneDisturbed(tr: seq<Event>, budget: nat) {
    forall e :: SceneStart(tr) <= e < |tr| && tr[e].Emitted? ==>
      exists s :: 0 <= s < e && tr[s].Passed? && tr[s].pose == tr[e].pose && Undisturbed(tr, s, e, budget)
  }

  lemma NoneDisturbedFront(tr: seq<Event>, budget: nat)
    requires tr != [] && !tr[|tr| - 1].RpOff? && NoneDisturbed(tr, budget)
    ensures NoneDisturbed(tr[..|tr| - 1], budget)
  {
    var front := tr[..|tr| - 1];
    forall e | SceneStart(front) <= e < |front| && front[e].Emitted?
      ensures exists s ::
        0 <= s < e && front[s].Passed? && front[s].pose == front[e].pose && Undisturbed(front, s, e, budget)
    {
      assert tr[e] == front[e];
      var s :| 0 <= s < e && tr[s].Passed? && tr[s].pose == tr[e].pose && Undisturbed(tr, s, e, budget);
      UndisturbedFront(tr, s, e, budget);
      assert front[s] == tr[s];
    }
  }

  /** Then everything in the scene is handed over exactly once. */
  lemma {:induction false} UndisturbedIsExact(tr: seq<Event>, budget: nat)
    requires NoneDisturbed(tr, budget)
    ensures AccountAfter(tr, budget).exact
  {
    if tr != [] && !tr[|tr| - 1].RpOff? {
      var front, last := tr[..|tr| - 1], |tr| - 1;
      NoneDisturbedFront(tr, budget);
      UndisturbedIsExact(front, budget);
      if tr[last].Emitted? {
        var s :| 0 <= s < last && tr[s].Passed? && tr[s].pose == tr[last].pose && Undisturbed(tr, s, last, budget);
        UndisturbedFront(tr, s, last, budget);
        StillShared(front, s, budget);
      }
    }
  }

  lemma UndisturbedFront(tr: seq<Event>, s: nat, e: nat, budget: nat)
    requires s < e < |tr| && Undisturbed(tr, s, e, budget)
    ensures Undisturbed(tr[..|tr| - 1], s, e, budget)
  {
    assert tr[..|tr| - 1][..s] == tr[..s];
  }

  // ----- the text survives

  lemma TidySnoc(lines: seq<ContextLine>, line: ContextLine)
    requires TidyLines(lines + [line])
    ensures TidyLines(lines) && Tidy(line.text)
  {
    var all := lines + [line];
    assert all[|lines|] == line;
    assert forall i :: 0 <= i < |lines| ==> all[i] == lines[i];
  }

  /** The scene's lines and its blocks read the same, white space aside, and to the letter if the
      lines are tidy. */
  predicate SameText(a: Account) {
    && Squeeze(Transcript(Blocks(a))) == Squeeze(Transcript(a.lines))
    && SameLetters(a)
  }

  predicate SameLetters(a: Account) {
    TidyLines(a.lines) ==>
      && TidyLines(a.live)
      && (Blocks(a) == [] <==> a.lines == [])
      && Transcript(Blocks(a)) == Transcript(a.lines)
  }

  lemma LineSameInk(done: seq<ContextLine>, live: seq<ContextLine>, lines: seq<ContextLine>, line: ContextLine)
    requires Ink(done + live) == Ink(lines)
    ensures Ink(done + AddLine(live, line)) == Ink(lines + [line])
  {
    calc {
      Ink(done + AddLine(live, line));
      { InkAppend(done, AddLine(live, line)); }
      Ink(done) + Ink(AddLine(live, line));
      { AddLineKeepsInk(live, line); }
      Ink(done) + (Ink(live) + Squeeze(line.text));
      { Assoc(Ink(done), Ink(live), Squeeze(line.text)); }
      (Ink(done) + Ink(live)) + Squeeze(line.text);
      { InkAppend(done, live); }
      Ink(lines) + Squeeze(line.text);
      { InkSnoc(lines, line); }
      Ink(lines + [line]);
    }
  }

  predicate SameInk(a: Account) {
    Ink(Blocks(a)) == Ink(a.lines)
  }

  lemma PoseSameInk(a: Account, p: nat, budget: nat)
    requires SameInk(a)
    ensures SameInk(Apply(a, Emitted(p), budget))
  {
    assert Blocks(Apply(a, Emitted(p), budget)) == Blocks(a);
  }

  lemma {:induction false} InkKept(tr: seq<Event>, budget: nat)
    ensures SameInk(AccountAfter(tr, budget))
  {
    if tr != [] {
      var a, e := AccountAfter(tr[..|tr| - 1], budget), tr[|tr| - 1];
      InkKept(tr[..|tr| - 1], budget);
      if e.LineIn? {
        LineSameInk(a.done, a.live, a.lines, e.line);
      } else if e.Emitted? {
        PoseSameInk(a, e.pose, budget);
      }
    }
  }

  lemma LineSameText(a: Account, line: ContextLine, budget: nat)
    requires SameLetters(a)
    ensures SameLetters(Apply(a, LineIn(line), budget))
  {
    if TidyLines(a.lines + [line]) {
      TidySnoc(a.lines, line);
      LineKeepsText(a.done, a.live, a.lines, line);
    }
  }

  lemma PoseSameText(a: Account, p: nat, budget: nat)
    requires SameLetters(a)
    ensures SameLetters(Apply(a, Emitted(p), budget))
  {
    assert Blocks(Apply(a, Emitted(p), budget)) == Blocks(a);
  }

  lemma {:induction false} LettersKept(tr: seq<Event>, budget: nat)
    ensures SameLetters(AccountAfter(tr, budget))
  {
    if tr != [] {
      var a, e := AccountAfter(tr[..|tr| - 1], budget), tr[|tr| - 1];
      LettersKept(tr[..|tr| - 1], budget);
      if e.LineIn? {
        LineSameText(a, e.line, budget);
      } else if e.Emitted? {
        PoseSameText(a, e.pose, budget);
      }
    }
  }

  /** No accepted text is lost, repeated or reordered by grouping, trimming and posing. */
  lemma TextKept(tr: seq<Event>, budget: nat)
    ensures SameText(AccountAfter(tr, budget))
  {
    InkKept(tr, budget);
    InkOfTranscript(Blocks(AccountAfter(tr, budget)));
    InkOfTranscript(AccountAfter(tr, budget).lines);
    LettersKept(tr, budget);
  }

  lemma SameTail(front: seq<ContextLine>, x: seq<ContextLine>, y: seq<ContextLine>)
    requires x != [] && y != [] && Transcript(x) == Transcript(y)
    ensures Transcript(front + x) == Transcript(front + y)
  {
    if front == [] {
      assert front + x == x && front + y == y;
    } else {
      TranscriptAppend(front, x);
      TranscriptAppend(front, y);
    }
  }

  lemma LineKeepsText(
    done: seq<ContextLine>, live: seq<ContextLine>, lines: seq<ContextLine>, line: ContextLine)
    requires TidyLines(live) && Tidy(line.text)
    requires Transcript(done + live) == Transcript(lines) && (lines == [] <==> done + live == [])
    ensures TidyLines(AddLine(live, line))
    ensures Transcript(done + AddLine(live, line)) == Transcript(lines + [line])
  {
    calc {
      Transcript(done + AddLine(live, line));
      { AddLineKeepsText(live, line); SameTail(done, AddLine(live, line), live + [line]); }
      Transcript(done + (live + [line]));
      { assert done + (live + [line]) == (done + live) + [line]; }
      Transcript((done + live) + [line]);
      { SnocTranscripts(done + live, lines, line); }
      Transcript(lines + [line]);
    }
    AddLineKeepsText(live, line);
  }
}
