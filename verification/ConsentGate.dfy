/** The consent gate as a machine over a room's events, and what it promises over every run
    (cricket/commands/builtins.py). */
module ConsentGate {
  import opened Wrappers
  import opened Text
  import opened SceneEvents

  /** The open request, the unused grant, and each pose awaiting the persona with its target. */
  datatype Gate = Gate(pending: Option<string>, granted: Option<string>, inFlight: map<nat, Option<string>>)

  function Apply(g: Gate, e: Event): Gate {
    match e
    case Requested(t) => g.(pending := Some(t))
    case Consented(t, _) => g.(pending := None, granted := Some(t))
    case Declined(_, _) => g.(pending := None)
    case Passed(p, t) => g.(inFlight := g.inFlight[p := t])
    case Silent(p) => g.(inFlight := g.inFlight - {p})
    case Emitted(p) => g.(inFlight := g.inFlight - {p}, granted := None)
    case RpOff => g.(pending := None, granted := None)
    case _ => g
  }

  function GateAfter(tr: seq<Event>): Gate {
    if tr == [] then Gate(None, None, map[])
    else Apply(GateAfter(tr[..|tr| - 1]), tr[|tr| - 1])
  }

  /** The grant in hand answers for the target. */
  predicate Covers(granted: Option<string>, target: string) {
    granted.Some? && Lower(granted.value) == Lower(target)
  }

  /** When the bot lets an event happen. */
  predicate Allowed(g: Gate, e: Event) {
    match e
    case Requested(t) => g.pending.None? && !Covers(g.granted, t)
    case Consented(t, who) => g.pending == Some(t) && ConsentAuthorized(who, t)
    case Declined(t, who) => g.pending == Some(t) && ConsentAuthorized(who, t)
    case Passed(p, t) => g.pending.None? && p !in g.inFlight && (t.Some? ==> Covers(g.granted, t.value))
    case Silent(p) => p in g.inFlight
    case Emitted(p) => p in g.inFlight
    case _ => true
  }

  predicate Legal(tr: seq<Event>) {
    tr == [] || (Legal(tr[..|tr| - 1]) && Allowed(GateAfter(tr[..|tr| - 1]), tr[|tr| - 1]))
  }

  lemma {:induction false} LegalAt(tr: seq<Event>, i: nat)
    requires Legal(tr) && i < |tr|
    ensures Legal(tr[..i]) && Allowed(GateAfter(tr[..i]), tr[i])
    ensures GateAfter(tr[..i + 1]) == Apply(GateAfter(tr[..i]), tr[i])
  {
    var front := tr[..|tr| - 1];
    if i < |front| {
      LegalAt(front, i);
      assert front[..i] == tr[..i] && front[..i + 1] == tr[..i + 1];
    } else {
      assert tr[..i] == front && tr[..i + 1] == tr;
    }
  }

  predicate EndsGrant(e: Event) {
    e.Consented? || e.Emitted? || e.RpOff?
  }

  /** No event in `[from, to)` replaces or removes a grant. */
  ghost predicate GrantStands(tr: seq<Event>, from: nat, to: nat)
    requires to <= |tr|
  {
    forall j :: from <= j < to ==> !EndsGrant(tr[j])
  }

  /** A grant in hand is the latest consent, with no pose emitted and no scene ended since. */
  lemma {:induction false} GrantSource(tr: seq<Event>) returns (k: nat)
    requires Legal(tr) && GateAfter(tr).granted.Some?
    ensures k < |tr| && tr[k].Consented? && tr[k].target == GateAfter(tr).granted.value
    ensures ConsentAuthorized(tr[k].who, tr[k].target)
    ensures GrantStands(tr, k + 1, |tr|)
  {
    var front := tr[..|tr| - 1];
    if tr[|tr| - 1].Consented? {
      k := |tr| - 1;
    } else {
      k := GrantSource(front);
      assert forall j :: k < j < |front| ==> tr[j] == front[j];
    }
  }

  lemma {:induction false} GrantKept(tr: seq<Event>, k: nat, i: nat)
    requires Legal(tr) && k < i <= |tr| && tr[k].Consented? && GrantStands(tr, k + 1, i)
    ensures GateAfter(tr[..i]).granted == Some(tr[k].target)
    decreases i
  {
    LegalAt(tr, i - 1);
    if i - 1 > k {
      GrantKept(tr, k, i - 1);
    }
  }

  /** Consent safety: a pose with a mortal target reaches the persona only on an authorized
      consent for that target, with no pose emitted and no scene ended in between. */
  lemma ConsentNeeded(tr: seq<Event>, i: nat) returns (k: nat)
    requires Legal(tr) && i < |tr| && tr[i].Passed? && tr[i].gate.Some?
    ensures k < i && tr[k].Consented? && Lower(tr[k].target) == Lower(tr[i].gate.value)
    ensures tr[k].who.admin || (Lower(Strip(tr[k].who.name)) != "" &&
      Lower(Strip(tr[k].who.name)) == Lower(Strip(tr[k].target)))
    ensures GrantStands(tr, k + 1, i)
  {
    LegalAt(tr, i);
    k := GrantSource(tr[..i]);
    assert forall j :: k < j < i ==> tr[..i][j] == tr[j];
  }

  /** The event answers or cancels the request for `t`. */
  predicate Resolves(e: Event, t: string) {
    e.RpOff? || ((e.Consented? || e.Declined?) && e.target == t)
  }

  lemma {:induction false} PendingKept(tr: seq<Event>, r: nat, i: nat)
    requires Legal(tr) && r < i <= |tr| && tr[r].Requested?
    requires forall k :: r < k < i ==> !Resolves(tr[k], tr[r].target)
    ensures GateAfter(tr[..i]).pending == Some(tr[r].target)
    decreases i
  {
    LegalAt(tr, i - 1);
    if i - 1 > r {
      PendingKept(tr, r, i - 1);
    }
  }

  /** While a request is open no pose at all passes: something resolves it first. */
  lemma NothingPassesWhilePending(tr: seq<Event>, r: nat, i: nat)
    requires Legal(tr) && r < i < |tr| && tr[r].Requested? && tr[i].Passed?
    ensures exists k :: r < k < i && Resolves(tr[k], tr[r].target)
  {
    LegalAt(tr, i);
    if forall k :: r < k < i ==> !Resolves(tr[k], tr[r].target) {
      PendingKept(tr, r, i);
    }
  }

  lemma {:induction false} PendingNotGranted(tr: seq<Event>)
    requires Legal(tr) && GateAfter(tr).pending.Some?
    ensures !Covers(GateAfter(tr).granted, GateAfter(tr).pending.value)
  {
    if !tr[|tr| - 1].Requested? {
      PendingNotGranted(tr[..|tr| - 1]);
    }
  }

  /** After a denial, the same target passes only on a later consent. */
  lemma DenialStands(tr: seq<Event>, d: nat, i: nat) returns (k: nat)
    requires Legal(tr) && d < i < |tr| && tr[d].Declined? && tr[i].Passed?
    requires tr[i].gate.Some? && Lower(tr[i].gate.value) == Lower(tr[d].target)
    ensures d < k < i && tr[k].Consented? && Lower(tr[k].target) == Lower(tr[d].target)
  {
    k := ConsentNeeded(tr, i);
    LegalAt(tr, d);
    PendingNotGranted(tr[..d]);
    if k < d {
      GrantKept(tr, k, d);
    }
  }

  // ----- how often one consent is used

  /** Each pose in the room waits until no other pose awaits the persona. */
  predicate NoOverlap(tr: seq<Event>) {
    tr == [] ||
    (NoOverlap(tr[..|tr| - 1]) && (tr[|tr| - 1].Passed? ==> GateAfter(tr[..|tr| - 1]).inFlight == map[]))
  }

  predicate Mortal(g: Gate, p: nat) {
    p in g.inFlight && g.inFlight[p].Some?
  }

  /** Poses with a mortal target that went out. */
  function MortalEmissions(tr: seq<Event>): nat {
    if tr == [] then 0
    else
      var e, front := tr[|tr| - 1], tr[..|tr| - 1];
      MortalEmissions(front) + if e.Emitted? && Mortal(GateAfter(front), e.pose) then 1 else 0
  }

  function Consents(tr: seq<Event>): nat {
    if tr == [] then 0
    else Consents(tr[..|tr| - 1]) + if tr[|tr| - 1].Consented? then 1 else 0
  }

  lemma {:induction false} OneInFlight(tr: seq<Event>)
    requires Legal(tr) && NoOverlap(tr)
    ensures |GateAfter(tr).inFlight| <= 1
    ensures forall p, q :: p in GateAfter(tr).inFlight && q in GateAfter(tr).inFlight ==> p == q
  {
    if tr != [] {
      OneInFlight(tr[..|tr| - 1]);
      var g, g' := GateAfter(tr[..|tr| - 1]), GateAfter(tr);
      if tr[|tr| - 1].Silent? || tr[|tr| - 1].Emitted? {
        assert g'.inFlight.Keys == g.inFlight.Keys - {tr[|tr| - 1].pose};
      }
    }
  }

  /** A grant in hand, or a mortal pose on its way, is worth one unused consent. */
  ghost predicate Owed(g: Gate) {
    g.granted.Some? || exists p :: Mortal(g, p)
  }

  /** Without overlapping poses, a consent serves at most one emission. */
  lemma {:induction false} ConsentsCoverEmissions(tr: seq<Event>)
    requires Legal(tr) && NoOverlap(tr)
    ensures MortalEmissions(tr) + (if Owed(GateAfter(tr)) then 1 else 0) <= Consents(tr)
  {
    if tr != [] {
      var front, e := tr[..|tr| - 1], tr[|tr| - 1];
      var g, g' := GateAfter(front), GateAfter(tr);
      ConsentsCoverEmissions(front);
      OneInFlight(front);
      if !e.Consented? && !e.Emitted? && exists p :: Mortal(g', p) {
        var p :| Mortal(g', p);
        if !(e.Passed? && e.pose == p) {
          assert Mortal(g, p);
        }
      }
    }
  }

  lemma {:induction false} StartedSince(tr: seq<Event>, from: nat, i: nat, p: nat) returns (s: nat)
    requires Legal(tr) && from <= i <= |tr|
    requires p !in GateAfter(tr[..from]).inFlight && Mortal(GateAfter(tr[..i]), p)
    ensures from <= s < i && tr[s].Passed? && tr[s].pose == p && tr[s].gate == GateAfter(tr[..i]).inFlight[p]
    decreases i
  {
    LegalAt(tr, i - 1);
    if tr[i - 1].Passed? && tr[i - 1].pose == p {
      s := i - 1;
    } else {
      s := StartedSince(tr, from, i - 1, p);
    }
  }

  lemma {:induction false} NoOverlapPrefix(tr: seq<Event>, i: nat)
    requires NoOverlap(tr) && i <= |tr|
    ensures NoOverlap(tr[..i])
  {
    if i == |tr| {
      assert tr[..i] == tr;
    } else {
      NoOverlapPrefix(tr[..|tr| - 1], i);
      assert tr[..|tr| - 1][..i] == tr[..i];
    }
  }

  /** A second mortal pose goes out only after a second consent, unless it was already awaiting the
      persona when the first went out. */
  lemma OneConsentOneEmission(tr: seq<Event>, i: nat, j: nat) returns (k: nat)
    requires Legal(tr) && i < j < |tr| && MortalOut(tr, i) && MortalOut(tr, j)
    requires tr[j].pose !in GateAfter(tr[..i + 1]).inFlight
    ensures i < k < j && tr[k].Consented?
    ensures Lower(tr[k].target) == Lower(GateAfter(tr[..j]).inFlight[tr[j].pose].value)
  {
    var s := StartedSince(tr, i + 1, j, tr[j].pose);
    k := ConsentNeeded(tr, s);
    assert EndsGrant(tr[i]);
  }

  /** Two mortal poses pass on the same consent exactly when nothing between them ended the grant:
      no consent, no pose emitted, no rp off. */
  lemma SharedConsentExactly(tr: seq<Event>, s: nat, s': nat)
    requires Legal(tr) && s < s' < |tr|
    requires tr[s].Passed? && tr[s].gate.Some? && tr[s'].Passed? && tr[s'].gate.Some?
    ensures GrantStands(tr, s, s') <==> exists k :: 0 <= k < s && tr[k].Consented? && GrantStands(tr, k + 1, s')
  {
    if GrantStands(tr, s, s') {
      var k := ConsentNeeded(tr, s);
      assert GrantStands(tr, k + 1, s');
    }
  }

  /** A consent for `t`, given since the event at `s`, still stands at `e`. */
  ghost predicate Renewed(tr: seq<Event>, t: string, s: nat, e: nat)
    requires e <= |tr|
  {
    exists k :: s < k < e && tr[k].Consented? && Lower(tr[k].target) == Lower(t) && GrantStands(tr, k + 1, e)
  }

  /** While a mortal pose waits, and as it goes out, the consent it passed on stands exactly when
      nothing since then ended the grant; and a grant for its target is in hand exactly when that
      consent stands or one for the same target was given since. */
  lemma RestsExactly(tr: seq<Event>, s: nat, e: nat)
    requires Legal(tr) && s < e <= |tr| && tr[s].Passed? && tr[s].gate.Some?
    ensures GrantStands(tr, s, e) <==> exists k :: 0 <= k < s && tr[k].Consented? && GrantStands(tr, k + 1, e)
    ensures Covers(GateAfter(tr[..e]).granted, tr[s].gate.value) <==>
      GrantStands(tr, s, e) || Renewed(tr, tr[s].gate.value, s, e)
  {
    var c := ConsentNeeded(tr, s);
    if GrantStands(tr, s, e) {
      assert GrantStands(tr, c + 1, e);
      GrantKept(tr, c, e);
    } else if Renewed(tr, tr[s].gate.value, s, e) {
      var k :| s < k < e && tr[k].Consented? && Lower(tr[k].target) == Lower(tr[s].gate.value) && GrantStands(tr, k + 1, e);
      GrantKept(tr, k, e);
    }
    if Covers(GateAfter(tr[..e]).granted, tr[s].gate.value) {
      GrantInHand(tr, s, e);
    }
  }

  lemma GrantInHand(tr: seq<Event>, s: nat, e: nat)
    requires Legal(tr) && s < e <= |tr| && tr[s].Passed? && tr[s].gate.Some?
    requires Covers(GateAfter(tr[..e]).granted, tr[s].gate.value)
    ensures GrantStands(tr, s, e) || Renewed(tr, tr[s].gate.value, s, e)
  {
    if e < |tr| {
      LegalAt(tr, e);
    }
    assert tr[..|tr|] == tr;
    var k := GrantSource(tr[..e]);
    assert forall j :: k <= j < e ==> tr[..e][j] == tr[j];
    assert GrantStands(tr, k + 1, e);
  }

  /** It can go out with no grant in hand: whenever a grant is, a pose for its target may pass, and rp
      off while it waits takes the grant, not the pose. */
  lemma OutWithoutConsent(tr: seq<Event>, t: string, p: nat)
    requires Legal(tr) && GateAfter(tr).pending.None? && Covers(GateAfter(tr).granted, t)
    requires p !in GateAfter(tr).inFlight
    ensures var tr' := tr + [Passed(p, Some(t))] + [RpOff];
      Legal(tr' + [Emitted(p)]) && Mortal(GateAfter(tr'), p) && GateAfter(tr').granted == None
  {
    var t1 := tr + [Passed(p, Some(t))];
    Extend(tr, Passed(p, Some(t)));
    Extend(t1, RpOff);
    Extend(t1 + [RpOff], Emitted(p));
  }

  /** A pose with a mortal target goes out at `i`. */
  predicate MortalOut(tr: seq<Event>, i: nat)
    requires i < |tr|
  {
    tr[i].Emitted? && Mortal(GateAfter(tr[..i]), tr[i].pose)
  }

  /** No mortal pose that goes out was awaiting the persona when an earlier one went out. Poses
      that stay silent, or have no mortal target, may overlap as they like. */
  ghost predicate Apart(tr: seq<Event>) {
    forall i, j :: 0 <= i < j < |tr| && MortalOut(tr, i) && MortalOut(tr, j) ==>
      tr[j].pose !in GateAfter(tr[..i + 1]).inFlight
  }

  lemma {:induction false} OverlapFreeIsApart(tr: seq<Event>)
    requires Legal(tr) && NoOverlap(tr)
    ensures Apart(tr)
  {
    forall i, j | 0 <= i < j < |tr| && MortalOut(tr, i) && MortalOut(tr, j)
      ensures tr[j].pose !in GateAfter(tr[..i + 1]).inFlight
    {
      LegalAt(tr, i);
      NoOverlapPrefix(tr, i);
      OneInFlight(tr[..i]);
    }
  }

  lemma {:induction false} LastOut(tr: seq<Event>, n: nat) returns (i: Option<nat>)
    requires n <= |tr|
    ensures i.None? ==> MortalEmissions(tr[..n]) == 0
    ensures i.Some? ==>
      i.value < n && MortalOut(tr, i.value) && MortalEmissions(tr[..n]) == MortalEmissions(tr[..i.value + 1])
    decreases n
  {
    if n == 0 {
      i := None;
    } else {
      assert tr[..n] == tr[..n - 1] + [tr[n - 1]];
      Extend(tr[..n - 1], tr[n - 1]);
      if MortalOut(tr, n - 1) {
        i := Some(n - 1);
      } else {
        i := LastOut(tr, n - 1);
      }
    }
  }

  lemma {:induction false} ConsentCounted(tr: seq<Event>, m: nat, k: nat, n: nat)
    requires m <= k < n <= |tr| && tr[k].Consented?
    ensures Consents(tr[..n]) > Consents(tr[..m])
    decreases n
  {
    assert tr[..n] == tr[..n - 1] + [tr[n - 1]];
    Extend(tr[..n - 1], tr[n - 1]);
    if k < n - 1 {
      ConsentCounted(tr, m, k, n - 1);
    } else {
      ConsentsGrow(tr, m, n - 1);
    }
  }

  lemma {:induction false} ConsentsGrow(tr: seq<Event>, m: nat, n: nat)
    requires m <= n <= |tr|
    ensures Consents(tr[..m]) <= Consents(tr[..n])
    decreases n
  {
    if m < n {
      assert tr[..n] == tr[..n - 1] + [tr[n - 1]];
      Extend(tr[..n - 1], tr[n - 1]);
      ConsentsGrow(tr, m, n - 1);
    }
  }

  /** The consent that an emission is on: after the last emission before it. */
  lemma FreshConsent(tr: seq<Event>, i: Option<nat>, j: nat)
    requires Legal(tr) && Apart(tr) && j < |tr| && MortalOut(tr, j)
    requires i.Some? ==> i.value < j && MortalOut(tr, i.value)
    ensures Consents(tr[..j]) > if i.Some? then Consents(tr[..i.value + 1]) else 0
  {
    if i.Some? {
      var k := OneConsentOneEmission(tr, i.value, j);
      ConsentCounted(tr, i.value + 1, k, j);
    } else {
      assert tr[..0] == [];
      var s := StartedSince(tr, 0, j, tr[j].pose);
      var k := ConsentNeeded(tr, s);
      ConsentCounted(tr, 0, k, j);
    }
  }

  /** One grant serves at most one emission: mortal poses that are apart never outnumber the consents. */
  lemma {:induction false} EmissionsCovered(tr: seq<Event>, n: nat)
    requires Legal(tr) && Apart(tr) && n <= |tr|
    ensures MortalEmissions(tr[..n]) <= Consents(tr[..n])
    decreases n
  {
    if n > 0 {
      assert tr[..n] == tr[..n - 1] + [tr[n - 1]];
      Extend(tr[..n - 1], tr[n - 1]);
      if MortalOut(tr, n - 1) {
        var i := LastOut(tr, n - 1);
        FreshConsent(tr, i, n - 1);
        if i.Some? {
          EmissionsCovered(tr, i.value + 1);
        }
      } else {
        EmissionsCovered(tr, n - 1);
      }
    }
  }

  lemma Extend(tr: seq<Event>, e: Event)
    ensures GateAfter(tr + [e]) == Apply(GateAfter(tr), e)
    ensures Legal(tr + [e]) <==> Legal(tr) && Allowed(GateAfter(tr), e)
    ensures MortalEmissions(tr + [e]) ==
      MortalEmissions(tr) + if e.Emitted? && Mortal(GateAfter(tr), e.pose) then 1 else 0
    ensures Consents(tr + [e]) == Consents(tr) + if e.Consented? then 1 else 0
  {
    assert (tr + [e])[..|tr|] == tr;
  }

  /** Overlapping poses do reuse a consent: whenever a grant is in hand, two poses for its target
      may both pass, and both go out. */
  lemma OverlapReusesConsent(tr: seq<Event>, t: string, p: nat, q: nat)
    requires Legal(tr) && GateAfter(tr).pending.None? && Covers(GateAfter(tr).granted, t)
    requires p != q && p !in GateAfter(tr).inFlight && q !in GateAfter(tr).inFlight
    ensures var tr' := tr + [Passed(p, Some(t))] + [Passed(q, Some(t))] + [Emitted(p)] + [Emitted(q)];
      Legal(tr') && MortalEmissions(tr') == MortalEmissions(tr) + 2 && Consents(tr') == Consents(tr)
  {
    var t1 := tr + [Passed(p, Some(t))];
    var t2 := t1 + [Passed(q, Some(t))];
    Extend(tr, Passed(p, Some(t)));
    Extend(t1, Passed(q, Some(t)));
    BothGoOut(t2, p, q);
  }

  lemma BothGoOut(tr: seq<Event>, p: nat, q: nat)
    requires Legal(tr) && p != q && Mortal(GateAfter(tr), p) && Mortal(GateAfter(tr), q)
    ensures var tr' := tr + [Emitted(p)] + [Emitted(q)];
      Legal(tr') && MortalEmissions(tr') == MortalEmissions(tr) + 2 && Consents(tr') == Consents(tr)
  {
    Extend(tr, Emitted(p));
    Extend(tr + [Emitted(p)], Emitted(q));
  }

  /** Such a run from the start: one request, one consent, two poses out. */
  lemma TwoOnOneConsent()
    ensures exists tr :: Legal(tr) && Consents(tr) == 1 && MortalEmissions(tr) == 2
  {
    var r := [Requested("Mara")];
    var tr := r + [Consented("Mara", Invoker(true, ""))];
    assert r == [] + [Requested("Mara")];
    Extend([], Requested("Mara"));
    Extend(r, Consented("Mara", Invoker(true, "")));
    OverlapReusesConsent(tr, "Mara", 0, 1);
  }
}
