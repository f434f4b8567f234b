/** The foreground supervisor (cricket/supervisor.py): the main loop, the control socket's handler
    and the child processes, interleaved at every lock, poll and wait. */
module Supervisors {

  const RESTART_CODE := 42
  const MAX_BACKOFF := 30

  /** A thread inside `_terminate_child`: before the snapshot under the lock; before its poll; before
      the terminate; waiting out the grace period. */
  datatype Killer = Idle | ToSnap | ToPoll(target: nat) | ToSignal(target: nat) | Grace(target: nat)

  /** Where `run` is: at the loop test, before `_spawn`, in `wait`, before reading the flags
      under the lock, before acting on them, in the last `_terminate_child`, returned. */
  datatype Main =
    | Test | Spawning | Waiting | Collect(code: int)
    | Decide(code: int, restartReq: bool, stopReq: bool) | Final(killer: Killer) | Done

  datatype Outcome = Restarted | Crashed(delay: nat)

  /** A terminate or kill that reached a child, sent by the command of that number (0: by `run` itself). */
  datatype Signal = Signal(command: nat, child: nat)

  /** `child` is the number of the last spawned process, 0 for none; `running` holds those that
      have not exited. */
  datatype State = State(
    child: nat, stop: bool, restart: bool, restarts: nat,
    main: Main, backoff: nat, handler: Killer, commands: nat,
    running: set<nat>, codes: map<nat, int>,
    spawns: nat, outcomes: seq<Outcome>, signals: seq<Signal>)

  const START := State(0, false, false, 0, Test, 1, Idle, 0, {}, map[], 0, [], [])

  /** What may happen next. `deadline`: a thread waiting out a grace period gives up. */
  datatype Action =
    | MainTurn(deadline: bool)
    | HandlerTurn(deadline: bool)
    | RestartCmd
    | StopCmd
    | Exit(process: nat, code: int)

  function Min(a: nat, b: nat): nat {
    if a <= b then a else b
  }

  /** One step of `_terminate_child`: the next place, and the signal sent, if any. */
  function Kill(s: State, k: Killer, command: nat, deadline: bool): (Killer, seq<Signal>) {
    match k
    case Idle => (Idle, [])
    case ToSnap => (ToPoll(s.child), [])
    case ToPoll(c) => (if c == 0 || c !in s.running then Idle else ToSignal(c), [])
    case ToSignal(c) => (Grace(c), if c in s.running then [Signal(command, c)] else [])
    case Grace(c) =>
      if c !in s.running then (Idle, [])
      else if deadline then (Idle, [Signal(command, c)])
      else (k, [])
  }

  /** What `run` does with an exit code and the flags it read. */
  function Decided(s: State, code: int, restartReq: bool, stopReq: bool): State {
    if stopReq then s.(main := Final(ToSnap))
    else if restartReq || code == RESTART_CODE then
      s.(main := Test, restarts := s.restarts + 1, backoff := 1, outcomes := s.outcomes + [Restarted])
    else if code == 0 then s.(main := Final(ToSnap))
    else
      s.(main := Test, restarts := s.restarts + 1, backoff := Min(s.backoff * 2, MAX_BACKOFF),
         outcomes := s.outcomes + [Crashed(s.backoff)])
  }

  function MainStep(s: State, deadline: bool): State {
    match s.main
    case Test => s.(main := if s.stop then Final(ToSnap) else Spawning)
    case Spawning =>
      s.(main := Waiting, restart := false, child := s.spawns + 1, spawns := s.spawns + 1,
         running := s.running + {s.spawns + 1})
    case Waiting =>
      if s.child in s.running || s.child !in s.codes then s else s.(main := Collect(s.codes[s.child]))
    case Collect(code) => s.(main := Decide(code, s.restart, s.stop))
    case Decide(code, restartReq, stopReq) => Decided(s, code, restartReq, stopReq)
    case Final(k) =>
      var (k', sent) := Kill(s, k, 0, deadline);
      s.(main := if k'.Idle? then Done else Final(k'), signals := s.signals + sent)
    case Done => s
  }

  function Step(s: State, a: Action): State {
    match a
    case MainTurn(deadline) => MainStep(s, deadline)
    case HandlerTurn(deadline) =>
      var (k', sent) := Kill(s, s.handler, s.commands, deadline);
      s.(handler := k', signals := s.signals + sent)
    case RestartCmd =>
      if s.handler.Idle? then s.(handler := ToSnap, commands := s.commands + 1, restart := true) else s
    case StopCmd =>
      if s.handler.Idle? then s.(handler := ToSnap, commands := s.commands + 1, stop := true) else s
    case Exit(p, code) =>
      if p in s.running then s.(running := s.running - {p}, codes := s.codes[p := code]) else s
  }

  function Run(s: State, actions: seq<Action>): State {
    if actions == [] then s else Step(Run(s, actions[..|actions| - 1]), actions[|actions| - 1])
  }

  // ----- what every run keeps

  predicate Awaited(m: Main) {
    m.Waiting? || m.Collect? || m.Decide?
  }

  function Pow2(k: nat): nat {
    if k == 0 then 1 else 2 * Pow2(k - 1)
  }

  /** Consecutive crashes at the end of the log. */
  function Crashes(outcomes: seq<Outcome>): nat {
    if outcomes == [] || outcomes[|outcomes| - 1].Restarted? then 0
    else 1 + Crashes(outcomes[..|outcomes| - 1])
  }

  /** The delay of the next crash: doubled with each consecutive crash, up to thirty seconds. */
  function Delay(outcomes: seq<Outcome>): nat {
    Min(Pow2(Crashes(outcomes)), MAX_BACKOFF)
  }

  predicate DelaysKept(outcomes: seq<Outcome>) {
    forall i :: 0 <= i < |outcomes| && outcomes[i].Crashed? ==> outcomes[i].delay == Delay(outcomes[..i])
  }

  predicate KillerKept(s: State, k: Killer) {
    (k.ToSignal? ==> 0 < k.target) && (k.ToPoll? || k.ToSignal? || k.Grace? ==> k.target <= s.child)
  }

  /** Children, spawns and restarts. */
  predicate ChildrenKept(s: State) {
    && s.child == s.spawns
    && s.running <= {s.child}
    && (s.running != {} ==> s.main.Waiting?)
    && (Awaited(s.main) ==> s.spawns == s.restarts + 1)
    && (s.main.Test? || s.main.Spawning? ==> s.spawns == s.restarts)
    && (s.main.Waiting? ==> s.child in s.running || s.child in s.codes)
    && s.restarts == |s.outcomes|
  }

  /** No command signalled two children; the one at work signalled only the child it snapshotted. */
  predicate SignalsOk(signals: seq<Signal>, commands: nat, child: nat, handler: Killer) {
    && (forall g :: g in signals ==> 0 < g.command <= commands && 0 < g.child <= child)
    && (forall g, h :: g in signals && h in signals && g.command == h.command ==> g.child == h.child)
    && (forall g :: g in signals && g.command == commands ==>
         handler.Idle? || (handler.Grace? && handler.target == g.child))
  }

  predicate SignalsKept(s: State) {
    && KillerKept(s, s.handler)
    && (!s.handler.Idle? ==> s.commands > 0)
    && SignalsOk(s.signals, s.commands, s.child, s.handler)
  }

  predicate BackoffKept(s: State) {
    s.backoff == Delay(s.outcomes) && DelaysKept(s.outcomes)
  }

  predicate Inv(s: State) {
    ChildrenKept(s) && SignalsKept(s) && BackoffKept(s)
  }

  lemma ChildrenStep(s: State, a: Action)
    requires ChildrenKept(s)
    ensures ChildrenKept(Step(s, a))
  {
  }

  lemma HandlerSignals(s: State, deadline: bool)
    requires ChildrenKept(s) && SignalsKept(s)
    ensures SignalsKept(Step(s, HandlerTurn(deadline)))
  {
    var (k', sent) := Kill(s, s.handler, s.commands, deadline);
    if sent != [] {
      assert sent == [sent[0]];
    } else {
      assert s.signals + sent == s.signals;
    }
  }

  /** By the time `run` terminates the last child, that child has exited: it signals nobody. */
  lemma MainSignalsNobody(s: State, deadline: bool)
    requires ChildrenKept(s)
    ensures Step(s, MainTurn(deadline)).signals == s.signals
  {
    if s.main.Final? {
      var (_, sent) := Kill(s, s.main.killer, 0, deadline);
      assert sent == [] && s.signals + sent == s.signals;
    }
  }

  lemma SignalsStep(s: State, a: Action)
    requires ChildrenKept(s) && SignalsKept(s)
    ensures SignalsKept(Step(s, a))
  {
    if a.HandlerTurn? {
      HandlerSignals(s, a.deadline);
    } else {
      if a.MainTurn? {
        MainSignalsNobody(s, a.deadline);
      }
      var s' := Step(s, a);
      assert s'.signals == s.signals && s'.child >= s.child;
      assert s'.commands == s.commands ==> s'.handler == s.handler;
    }
  }

  lemma {:induction false} DelayDoubles(k: nat)
    ensures Min(Min(Pow2(k), MAX_BACKOFF) * 2, MAX_BACKOFF) == Min(Pow2(k + 1), MAX_BACKOFF)
    ensures Pow2(k) >= 1
  {
    if k > 0 {
      DelayDoubles(k - 1);
    }
  }

  lemma DelaysSnoc(outcomes: seq<Outcome>, o: Outcome)
    requires DelaysKept(outcomes) && (o.Crashed? ==> o.delay == Delay(outcomes))
    ensures DelaysKept(outcomes + [o])
    ensures Crashes(outcomes + [o]) == if o.Restarted? then 0 else 1 + Crashes(outcomes)
  {
    var all := outcomes + [o];
    assert all[..|outcomes|] == outcomes;
    forall i | 0 <= i < |all| && all[i].Crashed?
      ensures all[i].delay == Delay(all[..i])
    {
      if i < |outcomes| {
        assert all[..i] == outcomes[..i];
      }
    }
  }

  lemma CrashDoubles(outcomes: seq<Outcome>)
    requires DelaysKept(outcomes)
    ensures DelaysKept(outcomes + [Crashed(Delay(outcomes))])
    ensures Delay(outcomes + [Crashed(Delay(outcomes))]) == Min(Delay(outcomes) * 2, MAX_BACKOFF)
  {
    DelaysSnoc(outcomes, Crashed(Delay(outcomes)));
    DelayDoubles(Crashes(outcomes));
  }

  lemma RestartResets(outcomes: seq<Outcome>)
    requires DelaysKept(outcomes)
    ensures DelaysKept(outcomes + [Restarted]) && Delay(outcomes + [Restarted]) == 1
  {
    DelaysSnoc(outcomes, Restarted);
  }

  lemma DecidedBackoff(s: State, code: int, restartReq: bool, stopReq: bool)
    requires BackoffKept(s)
    ensures BackoffKept(Decided(s, code, restartReq, stopReq))
  {
    if !stopReq {
      if restartReq || code == RESTART_CODE {
        RestartResets(s.outcomes);
      } else if code != 0 {
        CrashDoubles(s.outcomes);
      }
    }
  }

  lemma BackoffStep(s: State, a: Action)
    requires BackoffKept(s)
    ensures BackoffKept(Step(s, a))
  {
    if a.MainTurn? && s.main.Decide? {
      DecidedBackoff(s, s.main.code, s.main.restartReq, s.main.stopReq);
    } else {
    }
  }

  /** In every interleaving: at most one child is alive, and only while it is awaited; the spawns
      count the restarts; each command signals at most one child; the delays double. */
  lemma {:induction false} Safety(actions: seq<Action>)
    ensures Inv(Run(START, actions))
  {
    if actions != [] {
      var s, a := Run(START, actions[..|actions| - 1]), actions[|actions| - 1];
      Safety(actions[..|actions| - 1]);
      ChildrenStep(s, a);
      SignalsStep(s, a);
      BackoffStep(s, a);
    }
  }

  // ----- after a stop

  lemma {:induction false} StopBounds(s: State, actions: seq<Action>)
    requires s.stop
    ensures Run(s, actions).stop
    ensures s.spawns <= Run(s, actions).spawns <= s.spawns + if s.main.Spawning? then 1 else 0
    ensures Run(s, actions).main.Spawning? ==> s.main.Spawning? && Run(s, actions).spawns == s.spawns
  {
    if actions != [] {
      StopBounds(s, actions[..|actions| - 1]);
    }
  }

  /** Once `_stop` is set, at most one more child is ever spawned, and one can be exactly when
      the main loop had already passed its test. */
  lemma StopAllowsOneMoreSpawn(s: State)
    requires s.stop
    ensures forall actions :: Run(s, actions).spawns <= s.spawns + 1
    ensures s.main.Spawning? <==> exists actions :: Run(s, actions).spawns > s.spawns
  {
    forall actions
      ensures Run(s, actions).spawns <= s.spawns + if s.main.Spawning? then 1 else 0
    {
      StopBounds(s, actions);
    }
    var one: seq<Action> := [MainTurn(false)];
    assert one[..0] == [] && Run(s, one) == Step(Run(s, []), one[0]);
    if s.main.Spawning? {
      assert Run(s, one).spawns > s.spawns;
    } else {
      assert forall actions :: Run(s, actions).spawns <= s.spawns;
    }
  }

  /** A stop command raises the flag and begins to terminate the child; no more than the child that is
      about to be spawned is spawned after it. */
  lemma StopTakes(s: State, actions: seq<Action>)
    requires s.handler.Idle?
    ensures var t := Step(s, StopCmd);
      && t.stop && t.handler == ToSnap && t.commands == s.commands + 1
      && Run(t, actions).spawns <= s.spawns + if s.main.Spawning? then 1 else 0
  {
    StopBounds(Step(s, StopCmd), actions);
  }

  /** A command's snapshot was of child `c`, which is the last one: while command `n` is at work it
      goes on to `c`, and once it is done no living child is without its signal. */
  predicate Reaching(s: State, n: nat, c: nat) {
    && Inv(s) && s.stop && !s.main.Spawning? && s.child == c && s.commands >= n
    && (s.commands == n ==>
         match s.handler
         case ToSnap => false
         case ToPoll(t) => t == c
         case ToSignal(t) => t == c
         case Grace(t) => t == c && Told(s, n)
         case Idle => Told(s, n))
  }

  /** Every living child was signalled by command `n`. */
  predicate Told(s: State, n: nat) {
    forall c :: c in s.running ==> Signal(n, c) in s.signals
  }

  lemma KeepsInv(s: State, a: Action)
    requires Inv(s)
    ensures Inv(Step(s, a))
  {
    ChildrenStep(s, a);
    SignalsStep(s, a);
    BackoffStep(s, a);
  }

  lemma ReachingHandler(s: State, n: nat, c: nat, deadline: bool)
    requires Reaching(s, n, c)
    ensures Reaching(Step(s, HandlerTurn(deadline)), n, c)
  {
    KeepsInv(s, HandlerTurn(deadline));
    var s' := Step(s, HandlerTurn(deadline));
    assert s'.running == s.running && s'.running <= {c};
    assert forall g :: g in s.signals ==> g in s'.signals;
  }

  /** What the other steps leave alone after a stop. */
  lemma OthersStopped(s: State, a: Action)
    requires ChildrenKept(s) && s.stop && !s.main.Spawning? && !a.HandlerTurn?
    ensures var s' := Step(s, a);
      && s'.stop && !s'.main.Spawning? && s'.child == s.child && s'.signals == s.signals
      && s'.running <= s.running
      && ((s'.commands == s.commands && s'.handler == s.handler) || s'.commands == s.commands + 1)
  {
    if a.MainTurn? {
      MainSignalsNobody(s, a.deadline);
    }
  }

  lemma ReachingOther(s: State, n: nat, c: nat, a: Action)
    requires Reaching(s, n, c) && !a.HandlerTurn?
    ensures Reaching(Step(s, a), n, c)
  {
    var s' := Step(s, a);
    assert Inv(s') by {
      KeepsInv(s, a);
    }
    OthersStopped(s, a);
  }

  lemma {:induction false} ReachingRun(s: State, n: nat, c: nat, actions: seq<Action>)
    requires Reaching(s, n, c)
    ensures Reaching(Run(s, actions), n, c)
  {
    if actions != [] {
      var front, a := actions[..|actions| - 1], actions[|actions| - 1];
      ReachingRun(s, n, c, front);
      if a.HandlerTurn? {
        ReachingHandler(Run(s, front), n, c, a.deadline);
      } else {
        ReachingOther(Run(s, front), n, c, a);
      }
    }
  }

  /** The command is over, and no other has begun. */
  predicate Served(s: State, n: nat) {
    s.commands == n && s.handler.Idle?
  }

  /** A stop takes its snapshot. Whatever happens then, once it is served it has signalled every
      living child: exactly when the main loop was not about to spawn at the snapshot. */
  lemma StopReachesExactly(s: State)
    requires Inv(s) && s.stop && s.handler.ToSnap?
    ensures !s.main.Spawning? <==>
      forall actions ::
        var t := Run(Step(s, HandlerTurn(false)), actions); Served(t, s.commands) ==> Told(t, s.commands)
  {
    var s' := Step(s, HandlerTurn(false));
    KeepsInv(s, HandlerTurn(false));
    if s.main.Spawning? {
      SnapshotTooEarly(s);
    } else {
      assert Reaching(s', s.commands, s.child);
      forall actions
        ensures var t := Run(s', actions); Served(t, s.commands) ==> Told(t, s.commands)
      {
        ReachingRun(s', s.commands, s.child, actions);
      }
    }
  }

  lemma SnapshotTooEarly(s: State)
    requires Inv(s) && s.handler.ToSnap? && s.main.Spawning?
    ensures exists actions ::
      var t := Run(Step(s, HandlerTurn(false)), actions); Served(t, s.commands) && !Told(t, s.commands)
  {
    var s1 := Step(s, HandlerTurn(false));
    var one := [] + [HandlerTurn(false)];
    RunSnoc(s1, [], HandlerTurn(false));
    RunSnoc(s1, one, MainTurn(false));
    var s2, s3 := Run(s1, one), Run(s1, one + [MainTurn(false)]);
    assert s2 == Step(s1, HandlerTurn(false)) && s3 == Step(s2, MainTurn(false));
    assert s2.handler.Idle? && s2.main.Spawning? && s2.signals == s.signals;
    assert s.child + 1 in s3.running && s3.signals == s.signals;
    assert Signal(s.commands, s.child + 1) !in s3.signals;
    assert Served(s3, s.commands) && !Told(s3, s.commands);
  }

  lemma RunSnoc(s: State, actions: seq<Action>, a: Action)
    ensures Run(s, actions + [a]) == Step(Run(s, actions), a)
  {
    assert (actions + [a])[..|actions|] == actions;
  }

  /** Such a run from the start: a stop that arrives in that gap is served in full and leaves a live
      child that nobody signalled. */
  lemma StopCanMissTheChild()
    ensures exists actions ::
      var s := Run(START, actions);
      s.stop && s.handler.Idle? && s.running == {s.child} && s.signals == []
  {
    var a1 := [MainTurn(false)];
    var a2 := a1 + [StopCmd];
    var a3 := a2 + [HandlerTurn(false)];
    var a4 := a3 + [HandlerTurn(false)];
    var a5 := a4 + [MainTurn(false)];
    assert a1[..0] == [];
    assert a2[..1] == a1 && a3[..2] == a2 && a4[..3] == a3 && a5[..4] == a4;
    var s1 := Run(START, a1);
    assert s1.main == Spawning;
    var s2 := Run(START, a2);
    assert s2.stop && s2.handler == ToSnap;
    var s3 := Run(START, a3);
    assert s3.handler == ToPoll(0);
    var s4 := Run(START, a4);
    assert s4.handler == Idle && s4.signals == [] && s4.main == Spawning;
    var s5 := Run(START, a5);
    assert s5.running == {1} && s5.child == 1;
  }

  // ----- the end of a child

  /** How an exit is recorded: not at all when the loop ends, as a restart when one was asked for or by
      exit code 42, else as a crash. */
  lemma ExitRecorded(s: State, deadline: bool)
    requires s.main.Decide?
    ensures var ends := s.main.stopReq || (s.main.code == 0 && !s.main.restartReq);
      Step(s, MainTurn(deadline)).outcomes ==
        if ends then s.outcomes
        else if s.main.restartReq || s.main.code == 42 then s.outcomes + [Restarted]
        else s.outcomes + [Crashed(s.backoff)]
  {
  }

  function MainTurns(actions: seq<Action>): nat {
    if actions == [] then 0 else MainTurns(actions[..|actions| - 1]) + if actions[|actions| - 1].MainTurn? then 1 else 0
  }

  /** After a stop, or a clean exit with no restart asked for, the main loop is done in three turns,
      and whatever happens nothing more is spawned or recorded. */
  lemma {:induction false} WindsDown(s: State, actions: seq<Action>)
    requires Inv(s) && s.main.Decide? && (s.main.stopReq || (s.main.code == 0 && !s.main.restartReq))
    ensures var t, n := Run(s, actions), MainTurns(actions);
      && t.spawns == s.spawns && t.restarts == s.restarts && t.outcomes == s.outcomes
      && t.child == s.child && t.running == {}
      && t.main == if n == 0 then s.main else if n == 1 then Final(ToSnap)
                   else if n == 2 then Final(ToPoll(s.child)) else Done
  {
    if actions != [] {
      WindsDown(s, actions[..|actions| - 1]);
    }
  }

  /** An exit is the last one, whatever happens then, exactly when a stop was read, or is up by now, or
      the child exited cleanly and no restart was asked for. */
  lemma LastExitExactly(s: State)
    requires Inv(s) && s.main.Decide?
    ensures (s.main.stopReq || s.stop || (s.main.code == 0 && !s.main.restartReq)) <==>
      forall actions :: Run(s, actions).spawns == s.spawns
  {
    if s.main.stopReq || (s.main.code == 0 && !s.main.restartReq) {
      forall actions
        ensures Run(s, actions).spawns == s.spawns
      {
        WindsDown(s, actions);
      }
    } else if s.stop {
      forall actions
        ensures Run(s, actions).spawns == s.spawns
      {
        StopBounds(s, actions);
      }
    } else {
      SpawnsAgain(s);
    }
  }

  lemma SpawnsAgain(s: State)
    requires s.main.Decide? && !s.main.stopReq && !s.stop && (s.main.code != 0 || s.main.restartReq)
    ensures exists actions :: Run(s, actions).spawns == s.spawns + 1
  {
    var m := MainTurn(false);
    var one := [] + [m];
    RunSnoc(s, [], m);
    RunSnoc(s, one, m);
    RunSnoc(s, one + [m], m);
    var s1 := Run(s, one);
    assert s1.main == Test && s1.spawns == s.spawns && !s1.stop;
    assert Run(s, one + [m] + [m]).spawns == s.spawns + 1;
  }

  /** The delays in seconds, in every run: one after a start or a restart, then doubled from crash to
      crash, thirty at most. */
  lemma DelaysDouble(actions: seq<Action>, i: nat)
    requires i < |Run(START, actions).outcomes| && Run(START, actions).outcomes[i].Crashed?
    ensures Doubled(Run(START, actions).outcomes, i)
  {
    Safety(actions);
    DelayAt(Run(START, actions).outcomes, i);
  }

  predicate Doubled(log: seq<Outcome>, i: nat)
    requires i < |log| && log[i].Crashed?
  {
    log[i].delay ==
      if i == 0 || log[i - 1].Restarted? then 1
      else if log[i - 1].delay * 2 <= 30 then log[i - 1].delay * 2 else 30
  }

  lemma DelayAt(log: seq<Outcome>, i: nat)
    requires DelaysKept(log) && i < |log| && log[i].Crashed?
    ensures Doubled(log, i)
  {
    if i > 0 {
      assert log[..i][..i - 1] == log[..i - 1] && log[..i][i - 1] == log[i - 1];
      DelayDoubles(Crashes(log[..i - 1]));
    }
  }

  function Times(signals: seq<Signal>, g: Signal): nat {
    if signals == [] then 0 else Times(signals[..|signals| - 1], g) + if signals[|signals| - 1] == g then 1 else 0
  }

  /** The signals of the command at work, and of one that is done, to a living child. */
  predicate KillsKept(s: State) {
    match s.handler
    case Idle => forall c :: c in s.running && Signal(s.commands, c) in s.signals ==> Times(s.signals, Signal(s.commands, c)) == 2
    case Grace(c) => c in s.running ==> Times(s.signals, Signal(s.commands, c)) == 1
    case _ => NoneOf(s.signals, s.commands)
  }

  lemma {:induction false} NeverSent(signals: seq<Signal>, g: Signal)
    requires g !in signals
    ensures Times(signals, g) == 0
  {
    if signals != [] {
      NeverSent(signals[..|signals| - 1], g);
    }
  }

  lemma TimesSnoc(signals: seq<Signal>, g: Signal)
    ensures Times(signals + [g], g) == Times(signals, g) + 1
    ensures g !in signals ==> Times(signals, g) == 0
  {
    assert (signals + [g])[..|signals|] == signals;
    if g !in signals {
      NeverSent(signals, g);
    }
  }

  lemma KillsHandler(s: State, deadline: bool)
    requires Inv(s) && KillsKept(s)
    ensures KillsKept(Step(s, HandlerTurn(deadline)))
  {
    var (_, sent) := Kill(s, s.handler, s.commands, deadline);
    if sent == [] {
      assert s.signals + sent == s.signals;
    } else {
      var g := sent[0];
      assert sent == [g] && g.command == s.commands && s.running == {g.child};
      TimesSnoc(s.signals, g);
    }
  }

  lemma KillsOther(s: State, a: Action)
    requires Inv(s) && KillsKept(s) && !a.HandlerTurn?
    ensures KillsKept(Step(s, a))
  {
    OthersLeave(s, a);
    var s' := Step(s, a);
    if s'.commands != s.commands {
      assert s'.handler == ToSnap;
    }
  }

  /** A child that outlives a command that signalled it was signalled twice: terminate, and kill when the
      grace period was over. */
  lemma {:induction false} SurvivorWasKilled(actions: seq<Action>)
    ensures KillsKept(Run(START, actions))
    ensures var s := Run(START, actions);
      forall c :: s.handler.Idle? && c in s.running && Signal(s.commands, c) in s.signals ==>
        Times(s.signals, Signal(s.commands, c)) == 2
  {
    if actions != [] {
      SurvivorWasKilled(actions[..|actions| - 1]);
      Safety(actions[..|actions| - 1]);
      var s, a := Run(START, actions[..|actions| - 1]), actions[|actions| - 1];
      if a.HandlerTurn? {
        KillsHandler(s, a.deadline);
      } else {
        KillsOther(s, a);
      }
    }
  }

  // ----- what a restart is recorded as

  /** While command `n` is the last one, it has signalled child `c`, and the exit after the first
      `k` outcomes was recorded as something else than a restart. */
  predicate Misrecorded(s: State, n: nat, c: nat, k: nat) {
    s.commands == n && Signal(n, c) in s.signals && |s.outcomes| > k && s.outcomes[k].Crashed?
  }

  /** The command's child is gone: it is never signalled. */
  predicate Gone(s: State, n: nat, c: nat) {
    && ChildrenKept(s) && s.child >= c && c !in s.running && s.commands >= n
    && (s.commands == n ==> (s.handler.Idle? || s.handler == ToPoll(c)) && NoneOf(s.signals, n))
  }

  predicate NoneOf(signals: seq<Signal>, n: nat) {
    forall g :: g in signals ==> g.command != n
  }

  /** The stop flag was up before the child's exit could be read. */
  predicate Stopping(s: State, k: nat) {
    && s.stop && |s.outcomes| == k
    && (s.main.Waiting? || s.main.Collect? || (s.main.Decide? && s.main.stopReq) || s.main.Final? || s.main.Done?)
  }

  /** The restart flag stays up until the child's exit is recorded. */
  predicate Restarting(s: State, k: nat) {
    || (|s.outcomes| == k && s.restart && (s.main.Waiting? || s.main.Collect? || (s.main.Decide? && s.main.restartReq)))
    || (|s.outcomes| == k && (s.main.Final? || s.main.Done?))
    || (|s.outcomes| > k && s.outcomes[k].Restarted?)
  }

  lemma GoneHandler(s: State, n: nat, c: nat, deadline: bool)
    requires Gone(s, n, c)
    ensures Gone(Step(s, HandlerTurn(deadline)), n, c)
  {
    ChildrenStep(s, HandlerTurn(deadline));
    var (_, sent) := Kill(s, s.handler, s.commands, deadline);
    if s.commands == n {
      assert sent == [] && s.signals + sent == s.signals;
    }
  }

  lemma OthersLeave(s: State, a: Action)
    requires ChildrenKept(s) && !a.HandlerTurn?
    ensures var s' := Step(s, a);
      && ChildrenKept(s') && s'.child >= s.child && s'.running <= s.running + {s.child + 1} && s'.signals == s.signals
      && ((s'.commands == s.commands && s'.handler == s.handler) || s'.commands == s.commands + 1)
  {
    ChildrenStep(s, a);
    if a.MainTurn? {
      MainSignalsNobody(s, a.deadline);
    }
  }

  lemma GoneStep(s: State, n: nat, c: nat, a: Action)
    requires Gone(s, n, c)
    ensures Gone(Step(s, a), n, c)
  {
    if a.HandlerTurn? {
      GoneHandler(s, n, c, a.deadline);
    } else {
      OthersLeave(s, a);
    }
  }

  /** What keeps a command's child from being misrecorded. */
  predicate Recordable(s: State, n: nat, c: nat, k: nat) {
    Gone(s, n, c) || Stopping(s, k) || Restarting(s, k)
  }

  lemma FlaggedStep(s: State, k: nat, a: Action)
    requires Stopping(s, k) || Restarting(s, k)
    ensures Stopping(Step(s, a), k) || Restarting(Step(s, a), k)
  {
  }

  lemma {:induction false} RecordableRun(s: State, n: nat, c: nat, k: nat, actions: seq<Action>)
    requires Recordable(s, n, c, k)
    ensures Recordable(Run(s, actions), n, c, k)
  {
    if actions != [] {
      var t, a := Run(s, actions[..|actions| - 1]), actions[|actions| - 1];
      RecordableRun(s, n, c, k, actions[..|actions| - 1]);
      if Gone(t, n, c) {
        GoneStep(t, n, c, a);
      } else {
        FlaggedStep(t, k, a);
      }
    }
  }

  /** The snapshot, then these actions. */
  predicate MisrecordedAfter(s: State, actions: seq<Action>) {
    Misrecorded(Run(Step(s, HandlerTurn(false)), actions), s.commands, s.child, |s.outcomes|)
  }

  /** A command takes its snapshot. Whatever happens before the next command, the exit of the child
      it signals is not recorded as a crash: exactly when a stop or the restart flag is still up
      then, or that child has exited already. `_spawn` takes the flag down. */
  lemma RestartRecordedExactly(s: State)
    requires Inv(s) && s.handler.ToSnap?
    ensures (s.stop || s.restart || s.child !in s.running) <==> forall actions :: !MisrecordedAfter(s, actions)
  {
    if s.stop || s.restart || s.child !in s.running {
      forall actions
        ensures !MisrecordedAfter(s, actions)
      {
        RecordableRun(Step(s, HandlerTurn(false)), s.commands, s.child, |s.outcomes|, actions);
      }
    } else {
      RestartAsCrash(s);
    }
  }

  /** The poll, the terminate, the exit, and the main loop's three steps. */
  function Restart(c: nat): seq<Action> {
    [HandlerTurn(false), HandlerTurn(false), Exit(c, 1), MainTurn(false), MainTurn(false), MainTurn(false)]
  }

  lemma SixSteps(s: State, before: seq<Action>, c: nat)
    ensures Run(s, before + Restart(c)) ==
      Step(Step(Step(Step(Step(Step(Run(s, before), HandlerTurn(false)), HandlerTurn(false)), Exit(c, 1)),
        MainTurn(false)), MainTurn(false)), MainTurn(false))
  {
    var m, h := MainTurn(false), HandlerTurn(false);
    var two := before + [h] + [h];
    var three := two + [Exit(c, 1)];
    RunSnoc(s, before, h);
    RunSnoc(s, before + [h], h);
    RunSnoc(s, two, Exit(c, 1));
    RunSnoc(s, three, m);
    RunSnoc(s, three + [m], m);
    RunSnoc(s, three + [m] + [m], m);
    assert before + Restart(c) == three + [m] + [m] + [m];
  }

  lemma RestartAsCrash(s: State)
    requires Inv(s) && s.handler.ToSnap? && s.child in s.running && !s.stop && !s.restart
    ensures MisrecordedAfter(s, Restart(s.child))
  {
    var s0 := Step(s, HandlerTurn(false));
    assert [] + Restart(s.child) == Restart(s.child);
    SixSteps(s0, [], s.child);
    var s2 := Step(Step(s0, HandlerTurn(false)), HandlerTurn(false));
    assert s2.signals == s.signals + [Signal(s.commands, s.child)] && s2.running == s.running && s2.main == s.main;
    var s3 := Step(s2, Exit(s.child, 1));
    assert s3.child !in s3.running && s3.codes[s.child] == 1;
    var s4 := Step(s3, MainTurn(false));
    assert s4.main == Collect(1);
    var s5 := Step(s4, MainTurn(false));
    assert s5.main == Decide(1, false, false);
  }

  lemma SpawnLowers(s: State)
    requires s.main == Spawning
    ensures var t := Step(s, MainTurn(false));
      && t.main == Waiting && t.child == s.spawns + 1 && t.running == s.running + {t.child} && !t.restart
      && t.stop == s.stop && t.handler == s.handler && t.commands == s.commands && t.outcomes == s.outcomes
  {
  }

  lemma LostFrom(before: seq<Action>, s: State)
    requires s == Run(START, before)
    requires Inv(s) && s.handler.ToSnap? && s.child in s.running && !s.stop && !s.restart
    ensures exists actions :: Misrecorded(Run(START, actions), s.commands, s.child, |s.outcomes|)
  {
    var taken := before + [HandlerTurn(false)];
    RestartAsCrash(s);
    RunSnoc(START, before, HandlerTurn(false));
    SixSteps(START, taken, s.child);
    SixSteps(Run(START, taken), [], s.child);
    assert [] + Restart(s.child) == Restart(s.child);
    assert Misrecorded(Run(START, taken + Restart(s.child)), s.commands, s.child, |s.outcomes|);
  }

  /** The next exit recorded, after `k` outcomes, is no crash. */
  predicate NoCrashNext(s: State, k: nat) {
    || (|s.outcomes| > k && s.outcomes[k].Restarted?)
    || (|s.outcomes| == k &&
         match s.main
         case Test => s.stop
         case Spawning => s.stop
         case Waiting => s.stop || s.restart
         case Collect(_) => s.stop || s.restart
         case Decide(code, restartReq, stopReq) => stopReq || restartReq || code == 42 || code == 0
         case _ => true)
  }

  lemma {:induction false} NoCrashRun(s: State, k: nat, actions: seq<Action>)
    requires NoCrashNext(s, k)
    ensures NoCrashNext(Run(s, actions), k)
  {
    if actions != [] {
      NoCrashRun(s, k, actions[..|actions| - 1]);
    }
  }

  predicate CrashesAt(s: State, k: nat) {
    |s.outcomes| > k && s.outcomes[k].Crashed?
  }

  /** A restart command raises the flag and begins to terminate the child. Whatever happens then, the
      next exit is not recorded as a crash: exactly when a child is awaited and its flags are unread, or
      what was read of it is no crash, or the main loop is on its way out. */
  lemma RestartTakesExactly(s: State)
    requires Inv(s) && s.handler.Idle?
    ensures Step(s, RestartCmd).handler == ToSnap && Step(s, RestartCmd).commands == s.commands + 1
    ensures
      (match s.main
       case Test => s.stop
       case Spawning => s.stop
       case Decide(code, restartReq, stopReq) => stopReq || restartReq || code == 42 || code == 0
       case _ => true)
      <==> forall actions :: !CrashesAt(Run(Step(s, RestartCmd), actions), |s.outcomes|)
  {
    var t, k := Step(s, RestartCmd), |s.outcomes|;
    if NoCrashNext(t, k) {
      forall actions
        ensures !CrashesAt(Run(t, actions), k)
      {
        NoCrashRun(t, k, actions);
      }
    } else if s.main.Decide? {
      CrashFromDecide(t);
    } else if s.main.Spawning? {
      CrashFromSpawning(t);
    } else {
      CrashFromTest(t);
    }
  }

  lemma CrashFromDecide(s: State)
    requires s.main.Decide? && !s.main.stopReq && !s.main.restartReq && s.main.code != 42 && s.main.code != 0
    ensures exists actions :: CrashesAt(Run(s, actions), |s.outcomes|)
  {
    RunSnoc(s, [], MainTurn(false));
    assert CrashesAt(Run(s, [] + [MainTurn(false)]), |s.outcomes|);
  }

  lemma CrashFromSpawning(s: State)
    requires ChildrenKept(s) && s.main.Spawning? && !s.stop
    ensures exists actions :: CrashesAt(Run(s, actions), |s.outcomes|)
  {
    SpawnsAndCrashes(s);
    assert CrashesAt(Run(s, SpawnThenCrash(s.spawns + 1)), |s.outcomes|);
  }

  lemma CrashFromTest(s: State)
    requires ChildrenKept(s) && s.main.Test? && !s.stop
    ensures exists actions :: CrashesAt(Run(s, actions), |s.outcomes|)
  {
    var t := Step(s, MainTurn(false));
    assert t.main == Spawning && t.outcomes == s.outcomes && t.spawns == s.spawns;
    ChildrenStep(s, MainTurn(false));
    SpawnsAndCrashes(t);
    RunAfter(s, MainTurn(false), SpawnThenCrash(t.spawns + 1));
    assert CrashesAt(Run(s, [MainTurn(false)] + SpawnThenCrash(t.spawns + 1)), |s.outcomes|);
  }

  function SpawnThenCrash(c: nat): seq<Action> {
    [MainTurn(false)] + [Exit(c, 1)] + [MainTurn(false)] + [MainTurn(false)] + [MainTurn(false)]
  }

  lemma SpawnsAndCrashes(s: State)
    requires ChildrenKept(s) && s.main.Spawning? && !s.stop
    ensures CrashesAt(Run(s, SpawnThenCrash(s.spawns + 1)), |s.outcomes|)
  {
    var m, c := MainTurn(false), s.spawns + 1;
    RunSnoc(s, [], m);
    RunSnoc(s, [m], Exit(c, 1));
    RunSnoc(s, [m] + [Exit(c, 1)], m);
    RunSnoc(s, [m] + [Exit(c, 1)] + [m], m);
    RunSnoc(s, [m] + [Exit(c, 1)] + [m] + [m], m);
    assert [] + [m] == [m];
    SpawnLowers(s);
    ExitCrashes(Step(s, m), c);
  }

  lemma ExitCrashes(s: State, c: nat)
    requires s.main == Waiting && s.child == c && c in s.running && !s.stop && !s.restart
    ensures var m := MainTurn(false);
      CrashesAt(Step(Step(Step(Step(s, Exit(c, 1)), m), m), m), |s.outcomes|)
  {
    var m := MainTurn(false);
    var s2 := Step(s, Exit(c, 1));
    assert c !in s2.running && s2.codes[c] == 1 && s2.main == Waiting && !s2.stop && !s2.restart;
    var s3 := Step(s2, m);
    assert s3.main == Collect(1) && !s3.stop && !s3.restart;
    var s4 := Step(s3, m);
    assert s4.main == Decide(1, false, false) && s4.outcomes == s.outcomes;
  }

  lemma {:induction false} RunAfter(s: State, a: Action, actions: seq<Action>)
    ensures Run(s, [a] + actions) == Run(Step(s, a), actions)
  {
    if actions == [] {
      assert [a] + actions == [] + [a];
      RunSnoc(s, [], a);
    } else {
      var front, last := actions[..|actions| - 1], actions[|actions| - 1];
      RunAfter(s, a, front);
      assert [a] + actions == ([a] + front) + [last];
      RunSnoc(s, [a] + front, last);
    }
  }

  /** Such a run from the start: a restart that comes just before the first spawn signals the first
      child, and its exit is recorded as a crash. */
  lemma RestartCanBeLost()
    ensures exists actions :: Misrecorded(Run(START, actions), 1, 1, 0)
  {
    var a1 := [] + [MainTurn(false)];
    var a2 := a1 + [RestartCmd];
    var a3 := a2 + [MainTurn(false)];
    RunSnoc(START, [], MainTurn(false));
    RunSnoc(START, a1, RestartCmd);
    RunSnoc(START, a2, MainTurn(false));
    Safety(a3);
    var s2 := Run(START, a2);
    assert s2.main == Spawning && s2.spawns == 0 && s2.handler == ToSnap && s2.commands == 1;
    assert !s2.stop && s2.outcomes == [] && s2.running == {};
    SpawnLowers(s2);
    LostFrom(a3, Run(START, a3));
  }

  // ----- the supervisor object

  class Supervisor {
    // shared by the two threads, under the lock
    var child: nat
    var stop: bool
    var restart: bool
    var restarts: nat
    // local to `run`, and to the command being handled
    var main: Main
    var backoff: nat
    var handler: Killer
    var commands: nat
    // the operating system's processes
    var running: set<nat>
    var codes: map<nat, int>
    // what happened so far
    var spawns: nat
    var outcomes: seq<Outcome>
    var signals: seq<Signal>

    function View(): State
      reads this
    {
      State(child, stop, restart, restarts, main, backoff, handler, commands,
            running, codes, spawns, outcomes, signals)
    }

    constructor ()
      ensures View() == START
    {
      child, stop, restart, restarts := 0, false, false, 0;
      main, backoff, handler, commands := Test, 1, Idle, 0;
      running, codes := {}, map[];
      spawns, outcomes, signals := 0, [], [];
    }

    /** `_spawn`, under the lock; processes are numbered as they are made. */
    method Spawn()
      requires main.Spawning? && child == spawns
      modifies `restart, `child, `spawns, `running, `main
      ensures View() == Step(old(View()), MainTurn(false))
    {
      restart := false;
      child := child + 1;
      running := running + {child};
      spawns := spawns + 1;
      main := Waiting;
    }

    /** The flags, read under the lock after the child exited. */
    method ReadFlags()
      requires main.Collect?
      modifies `main
      ensures View() == Step(old(View()), MainTurn(false))
    {
      main := Decide(main.code, restart, stop);
    }

    /** The branches of `run` after that. */
    method Act()
      requires main.Decide?
      modifies `main, `restarts, `backoff, `outcomes
      ensures View() == Step(old(View()), MainTurn(false))
    {
      if main.stopReq {
        main := Final(ToSnap);
      } else if main.restartReq || main.code == RESTART_CODE {
        restarts, backoff, main := restarts + 1, 1, Test;
        outcomes := outcomes + [Restarted];
      } else if main.code == 0 {
        main := Final(ToSnap);
      } else {
        outcomes := outcomes + [Crashed(backoff)];
        restarts, backoff, main := restarts + 1, Min(backoff * 2, MAX_BACKOFF), Test;
      }
    }

    /** One stretch of `run`: the loop test, the wait, or the last `_terminate_child`. */
    method Turn(deadline: bool)
      requires child == spawns
      modifies `restart, `child, `spawns, `running, `main, `restarts, `backoff, `outcomes, `signals
      ensures View() == Step(old(View()), MainTurn(deadline))
    {
      match main
      case Test => main := if stop then Final(ToSnap) else Spawning;
      case Spawning => Spawn();
      case Waiting =>
        if child !in running && child in codes {
          main := Collect(codes[child]);
        }
      case Collect(_) => ReadFlags();
      case Decide(_, _, _) => Act();
      case Final(k) =>
        var (k', sent) := Kill(View(), k, 0, deadline);
        main, signals := if k'.Idle? then Done else Final(k'), signals + sent;
      case Done =>
    }

    /** `_handle_cmd` for restart or stop: the flag is set under the lock, then the child is
        terminated step by step. */
    method Command(stopping: bool)
      requires handler.Idle?
      modifies `stop, `restart, `handler, `commands
      ensures View() == Step(old(View()), if stopping then StopCmd else RestartCmd)
    {
      if stopping {
        stop := true;
      } else {
        restart := true;
      }
      handler, commands := ToSnap, commands + 1;
    }

    /** One stretch of `_terminate_child` in the socket thread. */
    method Terminate(deadline: bool)
      requires !handler.Idle?
      modifies `handler, `signals
      ensures View() == Step(old(View()), HandlerTurn(deadline))
    {
      match handler
      case ToSnap => handler := ToPoll(child);
      case ToPoll(c) => handler := if c == 0 || c !in running then Idle else ToSignal(c);
      case ToSignal(c) =>
        if c in running {
          signals := signals + [Signal(commands, c)];
        }
        handler := Grace(c);
      case Grace(c) =>
        if c !in running {
          handler := Idle;
        } else if deadline {
          signals := signals + [Signal(commands, c)];
          handler := Idle;
        }
    }

    /** A process exits. */
    method ChildExits(p: nat, code: int)
      modifies `running, `codes
      ensures View() == Step(old(View()), Exit(p, code))
    {
      if p in running {
        running, codes := running - {p}, codes[p := code];
      }
    }

    /** Whatever happens next. */
    method Next(a: Action)
      requires Inv(View())
      modifies this
      ensures View() == Step(old(View()), a) && Inv(View())
    {
      KeepsInv(View(), a);
      match a
      case MainTurn(deadline) => Turn(deadline);
      case HandlerTurn(deadline) => if !handler.Idle? { Terminate(deadline); }
      case RestartCmd => if handler.Idle? { Command(false); }
      case StopCmd => if handler.Idle? { Command(true); }
      case Exit(p, code) => ChildExits(p, code);
    }
  }

  /** Every schedule of the two threads, the commands and the children, run on the object. */
  method Drive(actions: seq<Action>) returns (sup: Supervisor)
    ensures sup.View() == Run(START, actions) && Inv(sup.View())
  {
    sup := new Supervisor();
    assert actions[..0] == [];
    for i := 0 to |actions|
      invariant fresh(sup) && sup.View() == Run(START, actions[..i]) && Inv(sup.View())
    {
      assert actions[..i + 1][..i] == actions[..i];
      sup.Next(actions[i]);
    }
    assert actions[..|actions|] == actions;
  }
}
