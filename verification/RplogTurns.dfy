/** Grouping the labelled lines of a log into turns (tools/rplog_assemble.py). */
module RplogTurns {
  import opened Wrappers
  import opened Text

  /** One row of the attribution map. */
  datatype Label = Label(line: int, kind: string, actor: string, begin: bool)

  datatype Turn = Turn(kind: string, actor: string, nums: seq<nat>)

  datatype Error = Duplicate(line: int) | NotContent(line: int) | Uncovered(lines: seq<nat>) | RoundTrip | BadSeqs

  /** The page's lines, where its body starts, and which lines are noise. */
  datatype Page = Page(lines: seq<string>, start: nat, noise: string -> bool)

  predicate IsNoise(p: Page, n: int) {
    1 <= n <= |p.lines| && p.noise(p.lines[n - 1])
  }

  /** The content lines among the first `n`, numbered from 1. */
  function BodyNums(p: Page, n: nat): seq<nat>
    requires n <= |p.lines|
  {
    if n <= p.start then [] else BodyNums(p, n - 1) + if IsNoise(p, n) then [] else [n]
  }

  predicate IsContent(p: Page, n: int) {
    p.start < n <= |p.lines| && !IsNoise(p, n)
  }

  lemma {:induction false} BodyNumsAre(p: Page, n: nat)
    requires n <= |p.lines|
    ensures forall m :: m in BodyNums(p, n) <==> IsContent(p, m) && m <= n
    ensures forall i, j :: 0 <= i < j < |BodyNums(p, n)| ==> BodyNums(p, n)[i] < BodyNums(p, n)[j]
  {
    if n > p.start {
      var b := BodyNums(p, n - 1);
      BodyNumsAre(p, n - 1);
      forall i, j | 0 <= i < j < |BodyNums(p, n)|
        ensures BodyNums(p, n)[i] < BodyNums(p, n)[j]
      {
        assert b[i] in b;
      }
    }
  }

  /** Between neighbouring content lines there is only noise. */
  lemma NoiseBetweenContent(p: Page, i: nat)
    requires i + 1 < |BodyNums(p, |p.lines|)|
    ensures var b := BodyNums(p, |p.lines|);
      forall m :: b[i] < m < b[i + 1] ==> IsNoise(p, m)
  {
    var b := BodyNums(p, |p.lines|);
    BodyNumsAre(p, |p.lines|);
    assert b[i] in b && b[i + 1] in b;
    forall m | b[i] < m < b[i + 1]
      ensures IsNoise(p, m)
    {
      NotBetween(b, i, m);
    }
  }

  lemma NotBetween(b: seq<nat>, i: nat, m: int)
    requires forall j, k :: 0 <= j < k < |b| ==> b[j] < b[k]
    requires i + 1 < |b| && b[i] < m < b[i + 1]
    ensures m !in b
  {
    forall j | 0 <= j < |b|
      ensures b[j] != m
    {
      if j <= i {
        assert b[j] <= b[i];
      } else {
        assert b[i + 1] <= b[j];
      }
    }
  }

  // ----- labels

  /** A label on a noise line is dropped. */
  predicate Kept(p: Page, row: Label) {
    !IsNoise(p, row.line)
  }

  /** The last label kept for the line. */
  function LabelOf(p: Page, mp: seq<Label>, n: int): Option<Label> {
    if mp == [] then None
    else if Kept(p, mp[|mp| - 1]) && mp[|mp| - 1].line == n then Some(mp[|mp| - 1])
    else LabelOf(p, mp[..|mp| - 1], n)
  }

  predicate OnNoise(p: Page, n: int) {
    1 <= n <= |p.lines| && p.noise(p.lines[n - 1])
  }

  /** The labels that are not on noise lines are on lines of the body, one each. */
  ghost predicate OneEach(p: Page, mp: seq<Label>) {
    && (forall i :: 0 <= i < |mp| && !OnNoise(p, mp[i].line) ==> p.start < mp[i].line <= |p.lines|)
    && (forall i, j :: 0 <= i < j < |mp| && !OnNoise(p, mp[i].line) && !OnNoise(p, mp[j].line) ==> mp[i].line != mp[j].line)
  }

  lemma {:induction false} LabelFrom(p: Page, mp: seq<Label>, n: int)
    ensures LabelOf(p, mp, n).Some? <==> exists i :: 0 <= i < |mp| && Kept(p, mp[i]) && mp[i].line == n
    ensures LabelOf(p, mp, n).Some? ==> LabelOf(p, mp, n).value.line == n
  {
    if mp != [] {
      LabelFrom(p, mp[..|mp| - 1], n);
      if LabelOf(p, mp[..|mp| - 1], n).Some? {
        var i :| 0 <= i < |mp| - 1 && Kept(p, mp[..|mp| - 1][i]) && mp[..|mp| - 1][i].line == n;
        assert Kept(p, mp[i]) && mp[i].line == n;
      }
      if Kept(p, mp[|mp| - 1]) && mp[|mp| - 1].line == n {
        assert exists i :: 0 <= i < |mp| && Kept(p, mp[i]) && mp[i].line == n;
      }
      forall i | 0 <= i < |mp| && Kept(p, mp[i]) && mp[i].line == n
        ensures LabelOf(p, mp, n).Some?
      {
        if i < |mp| - 1 {
          assert mp[..|mp| - 1][i] == mp[i];
        }
      }
    }
  }

  /** The labels by line, a later label replacing an earlier one. */
  function LabelMap(p: Page, mp: seq<Label>): map<int, Label> {
    if mp == [] then map[]
    else
      var m, row := LabelMap(p, mp[..|mp| - 1]), mp[|mp| - 1];
      if Kept(p, row) then m[row.line := row] else m
  }

  lemma {:induction false} LabelMapHolds(p: Page, mp: seq<Label>, n: int)
    ensures LabelOf(p, mp, n) == if n in LabelMap(p, mp) then Some(LabelMap(p, mp)[n]) else None
  {
    if mp != [] {
      LabelMapHolds(p, mp[..|mp| - 1], n);
    }
  }

  /** One round of the first loop of `assemble`. */
  method LabelRow(p: Page, row: Label, byLine: map<int, Label>, errors: seq<Error>, ghost mp: seq<Label>)
    returns (byLine': map<int, Label>, errors': seq<Error>)
    requires byLine == LabelMap(p, mp) && (errors == [] <==> OneEach(p, mp))
    ensures byLine' == LabelMap(p, mp + [row]) && (errors' == [] <==> OneEach(p, mp + [row]))
  {
    byLine', errors' := byLine, errors;
    assert (mp + [row])[..|mp|] == mp;
    LabelMapHolds(p, mp, row.line);
    OneEachSnoc(p, mp, row);
    if !IsNoise(p, row.line) {
      if row.line in byLine {
        errors' := errors' + [Duplicate(row.line)];
      }
      byLine' := byLine[row.line := row];
      InBody(p, row.line);
      if row.line !in BodyNums(p, |p.lines|) {
        errors' := errors' + [NotContent(row.line)];
      }
    }
  }

  lemma InBody(p: Page, n: int)
    ensures n in BodyNums(p, |p.lines|) <==> IsContent(p, n)
  {
    BodyNumsAre(p, |p.lines|);
  }

  /** The first loop of `assemble`: the label of each line, and what is wrong with the labels. */
  method LabelLines(p: Page, mp: seq<Label>) returns (byLine: map<int, Label>, errors: seq<Error>)
    ensures byLine == LabelMap(p, mp)
    ensures errors == [] <==> OneEach(p, mp)
  {
    byLine, errors := map[], [];
    for i := 0 to |mp|
      invariant byLine == LabelMap(p, mp[..i]) && (errors == [] <==> OneEach(p, mp[..i]))
    {
      assert mp[..i + 1] == mp[..i] + [mp[i]];
      byLine, errors := LabelRow(p, mp[i], byLine, errors, mp[..i]);
    }
    assert mp[..|mp|] == mp;
  }

  lemma OneEachSnoc(p: Page, mp: seq<Label>, row: Label)
    ensures OneEach(p, mp + [row]) <==>
      OneEach(p, mp) && (Kept(p, row) ==> IsContent(p, row.line) && LabelOf(p, mp, row.line).None?)
  {
    LabelFrom(p, mp, row.line);
    var all := mp + [row];
    assert all[|mp|] == row;
    assert forall i :: 0 <= i < |mp| ==> all[i] == mp[i];
  }

  // ----- turns

  /** Line `m` continues the turn of line `n`. */
  predicate Joins(byLine: map<int, Label>, n: nat, m: nat) {
    && m == n + 1 && n in byLine && m in byLine
    && byLine[n].kind == byLine[m].kind
    && Strip(byLine[n].actor) == Strip(byLine[m].actor)
    && !byLine[m].begin
  }

  /** The labelled lines among the content lines. */
  function Covered(body: seq<nat>, byLine: map<int, Label>): seq<nat> {
    if body == [] then []
    else Covered(body[..|body| - 1], byLine) + if body[|body| - 1] in byLine then [body[|body| - 1]] else []
  }

  /** The turns of the labelled lines `c`: a line that joins the one before it stays in its turn,
      any other line begins a turn. */
  function TurnsOf(byLine: map<int, Label>, c: seq<nat>): (ts: seq<Turn>)
    ensures ts == [] <==> c == []
  {
    if c == [] then []
    else
      var front, n := c[..|c| - 1], c[|c| - 1];
      var ts := TurnsOf(byLine, front);
      if front != [] && Joins(byLine, front[|front| - 1], n) then Grow(ts, n)
      else ts + [NewTurn(byLine, n)]
  }

  function NewTurn(byLine: map<int, Label>, n: nat): Turn {
    if n in byLine then Turn(byLine[n].kind, Strip(byLine[n].actor), [n]) else Turn("", "", [n])
  }

  function Grow(ts: seq<Turn>, n: nat): seq<Turn>
    requires ts != []
  {
    ts[|ts| - 1 := ts[|ts| - 1].(nums := ts[|ts| - 1].nums + [n])]
  }

  /** One round of the grouping loop, on the lines covered so far. */
  lemma NextLine(byLine: map<int, Label>, c: seq<nat>, n: nat)
    ensures TurnsOf(byLine, c + [n]) ==
      if c != [] && Joins(byLine, c[|c| - 1], n) then Grow(TurnsOf(byLine, c), n)
      else TurnsOf(byLine, c) + [NewTurn(byLine, n)]
  {
    assert (c + [n])[..|c|] == c;
  }

  /** How many of the first lines up to `k` do not join the line before. */
  function Breaks(byLine: map<int, Label>, c: seq<nat>, k: nat): nat
    requires k < |c|
  {
    if k == 0 then 0 else Breaks(byLine, c, k - 1) + if Joins(byLine, c[k - 1], c[k]) then 0 else 1
  }

  lemma {:induction false} BreaksPrefix(byLine: map<int, Label>, c: seq<nat>, n: nat, k: nat)
    requires k < n <= |c|
    ensures Breaks(byLine, c[..n], k) == Breaks(byLine, c, k)
  {
    if k > 0 {
      BreaksPrefix(byLine, c, n, k - 1);
    }
  }

  /** What is known of the turns of `c`: their number, and that the last one is the last line's. */
  lemma {:induction false} LastTurn(byLine: map<int, Label>, c: seq<nat>)
    requires c != []
    ensures var ts := TurnsOf(byLine, c);
      var t, n := ts[|ts| - 1], c[|c| - 1];
      && |ts| == Breaks(byLine, c, |c| - 1) + 1
      && n in t.nums && t.kind == NewTurn(byLine, n).kind && t.actor == NewTurn(byLine, n).actor
  {
    var front, n := c[..|c| - 1], c[|c| - 1];
    if front != [] {
      LastTurn(byLine, front);
      BreaksPrefix(byLine, c, |c| - 1, |c| - 2);
    }
  }

  /** Exact grouping: a line sits in the turn numbered by the breaks before it, with its type and
      actor. So two neighbouring lines share a turn exactly when the second joins the first. */
  lemma {:induction false} TurnOfLine(byLine: map<int, Label>, c: seq<nat>, k: nat)
    requires k < |c|
    ensures var ts := TurnsOf(byLine, c);
      var b := Breaks(byLine, c, k);
      && b < |ts| && c[k] in ts[b].nums
      && ts[b].kind == NewTurn(byLine, c[k]).kind && ts[b].actor == NewTurn(byLine, c[k]).actor
      && (c[k] in byLine ==> ts[b].kind == byLine[c[k]].kind && ts[b].actor == Strip(byLine[c[k]].actor))
    decreases |c|
  {
    if k == |c| - 1 {
      LastTurn(byLine, c);
    } else {
      var front := c[..|c| - 1];
      var ts, b := TurnsOf(byLine, front), Breaks(byLine, c, k);
      TurnOfLine(byLine, front, k);
      BreaksPrefix(byLine, c, |c| - 1, k);
      assert front[k] == c[k] && c == front + [c[|c| - 1]];
      NextLine(byLine, front, c[|c| - 1]);
    }
  }

  function Flat(turns: seq<Turn>): seq<nat> {
    if turns == [] then [] else Flat(turns[..|turns| - 1]) + turns[|turns| - 1].nums
  }

  lemma FlatStep(byLine: map<int, Label>, c: seq<nat>, n: nat)
    ensures Flat(TurnsOf(byLine, c + [n])) == Flat(TurnsOf(byLine, c)) + [n]
  {
    NextLine(byLine, c, n);
    if c != [] && Joins(byLine, c[|c| - 1], n) {
      var ts := TurnsOf(byLine, c);
      assert Grow(ts, n)[..|ts| - 1] == ts[..|ts| - 1];
    } else {
      var ts, t := TurnsOf(byLine, c), NewTurn(byLine, n);
      assert (ts + [t])[..|ts|] == ts;
    }
  }

  /** The turns partition the labelled lines, in source order. */
  lemma {:induction false} TurnsPartition(byLine: map<int, Label>, c: seq<nat>)
    ensures Flat(TurnsOf(byLine, c)) == c
  {
    if c != [] {
      var front, n := c[..|c| - 1], c[|c| - 1];
      calc {
        Flat(TurnsOf(byLine, c));
        { assert c == front + [n]; }
        Flat(TurnsOf(byLine, front + [n]));
        { FlatStep(byLine, front, n); }
        Flat(TurnsOf(byLine, front)) + [n];
        { TurnsPartition(byLine, front); }
        front + [n];
        c;
      }
    }
  }

  lemma {:induction false} InFlat(ts: seq<Turn>, i: nat, x: nat)
    requires i < |ts| && x in ts[i].nums
    ensures x in Flat(ts)
    decreases |ts|
  {
    if i < |ts| - 1 {
      InFlat(ts[..|ts| - 1], i, x);
    }
  }

  predicate Distinct(c: seq<nat>) {
    forall i, j :: 0 <= i < j < |c| ==> c[i] != c[j]
  }

  lemma DistinctParts(a: seq<nat>, b: seq<nat>, x: nat)
    requires Distinct(a + b)
    ensures Distinct(a) && (x in a ==> x !in b)
  {
    var c := a + b;
    assert forall i :: 0 <= i < |a| ==> c[i] == a[i];
    assert forall i :: 0 <= i < |b| ==> c[|a| + i] == b[i];
  }

  /** No line is in two turns. */
  lemma {:induction false} OneTurn(ts: seq<Turn>, i: nat, j: nat, x: nat)
    requires Distinct(Flat(ts))
    requires i < j < |ts| && x in ts[j].nums
    ensures x !in ts[i].nums
    decreases |ts|
  {
    var front, last := ts[..|ts| - 1], ts[|ts| - 1];
    DistinctParts(Flat(front), last.nums, x);
    if j < |ts| - 1 {
      OneTurn(front, i, j, x);
    } else if x in front[i].nums {
      InFlat(front, i, x);
    }
  }

  /** Some turn holds both lines. */
  predicate Together(ts: seq<Turn>, x: nat, y: nat) {
    exists i :: 0 <= i < |ts| && x in ts[i].nums && y in ts[i].nums
  }

  /** Two consecutive labelled lines share a turn exactly when their numbers are adjacent, type and
      actor agree, and the second has no begin flag. */
  lemma ShareTurnExactly(byLine: map<int, Label>, c: seq<nat>, k: nat)
    requires Distinct(c) && k + 1 < |c|
    ensures Together(TurnsOf(byLine, c), c[k], c[k + 1]) <==> Joins(byLine, c[k], c[k + 1])
  {
    var ts := TurnsOf(byLine, c);
    TurnsPartition(byLine, c);
    var b, b' := Breaks(byLine, c, k), Breaks(byLine, c, k + 1);
    assert b' == if Joins(byLine, c[k], c[k + 1]) then b else b + 1;
    assert b < |ts| && c[k] in ts[b].nums && b' < |ts| && c[k + 1] in ts[b'].nums by {
      TurnOfLine(byLine, c, k);
      TurnOfLine(byLine, c, k + 1);
    }
    if b < b' {
      InTwoTurns(ts, b, b', c[k], c[k + 1]);
    }
  }

  lemma InTwoTurns(ts: seq<Turn>, a: nat, b: nat, x: nat, y: nat)
    requires Distinct(Flat(ts)) && a < b < |ts|
    requires x in ts[a].nums && y in ts[b].nums
    ensures !Together(ts, x, y)
  {
    forall i | 0 <= i < |ts| && x in ts[i].nums
      ensures y !in ts[i].nums
    {
      if i < b {
        OneTurn(ts, i, b, y);
      } else {
        OneTurn(ts, a, i, x);
      }
    }
  }

  /** `any(is_noise(lines[k]) for k in range(prev, n - 1))`. */
  method NoiseBetween(p: Page, prev: nat, n: nat) returns (found: bool)
    requires prev < n <= |p.lines|
    ensures found <==> exists k :: prev <= k < n - 1 && p.noise(p.lines[k])
  {
    found := false;
    var k := prev;
    while k < n - 1
      invariant prev <= k <= n - 1
      invariant forall j :: prev <= j < k ==> !p.noise(p.lines[j])
    {
      if p.noise(p.lines[k]) {
        return true;
      }
      k := k + 1;
    }
  }

  lemma {:induction false} CoveredAre(body: seq<nat>, byLine: map<int, Label>)
    ensures forall n :: n in Covered(body, byLine) <==> n in body && n in byLine
    ensures forall i :: 0 <= i < |Covered(body, byLine)| ==> Covered(body, byLine)[i] in byLine
  {
    if body != [] {
      CoveredAre(body[..|body| - 1], byLine);
    }
  }

  lemma CoveredPrefix(body: seq<nat>, i: nat, byLine: map<int, Label>)
    requires i < |body|
    ensures Covered(body[..i + 1], byLine) ==
      Covered(body[..i], byLine) + if body[i] in byLine then [body[i]] else []
  {
    assert body[..i + 1] == body[..i] + [body[i]];
  }

  /** The noise scan from one content line to the next tells whether they are adjacent. */
  ghost predicate Neighbours(p: Page, a: nat, b: nat) {
    a < b <= |p.lines| && ((exists k :: a <= k < b - 1 && p.noise(p.lines[k])) <==> b != a + 1)
  }

  ghost predicate Adjacency(p: Page, body: seq<nat>) {
    forall i :: 0 < i < |body| ==> Neighbours(p, body[i - 1], body[i])
  }

  /** The loop's cursor after the lines covered so far; `cur`: the line `prev` is in a turn. */
  ghost predicate Cursor(byLine: map<int, Label>, c: seq<nat>, cur: bool, prev: nat) {
    && (cur ==> c != [] && c[|c| - 1] == prev && prev in byLine)
    && (!cur && c != [] ==> c[|c| - 1] < prev)
  }

  /** The second loop of `assemble`, over the content lines. */
  method GroupTurns(p: Page, body: seq<nat>, byLine: map<int, Label>) returns (turns: seq<Turn>)
    requires Adjacency(p, body)
    ensures turns == TurnsOf(byLine, Covered(body, byLine))
  {
    turns := [];
    var cur := false;
    ghost var c: seq<nat> := [];
    for i := 0 to |body|
      invariant c == Covered(body[..i], byLine)
      invariant turns == TurnsOf(byLine, c)
      invariant i == 0 ==> !cur && c == []
      invariant i > 0 ==> Cursor(byLine, c, cur, body[i - 1])
    {
      CoveredPrefix(body, i, byLine);
      var blankBetween := false;
      if i > 0 {
        blankBetween := NoiseBetween(p, body[i - 1], body[i]);
      }
      turns := AddLine(byLine, turns, cur, body[i], blankBetween, c, if i > 0 then body[i - 1] else 0);
      cur := body[i] in byLine;
      c := c + if body[i] in byLine then [body[i]] else [];
    }
    assert body[..|body|] == body;
  }

  /** One round of that loop, with the `newturn` test. */
  method AddLine(
    byLine: map<int, Label>, turns: seq<Turn>, cur: bool, n: nat, blankBetween: bool,
    ghost c: seq<nat>, ghost prev: nat)
    returns (turns': seq<Turn>)
    requires turns == TurnsOf(byLine, c)
    requires Cursor(byLine, c, cur, prev)
    requires c != [] ==> prev < n && (blankBetween <==> n != prev + 1)
    ensures turns' == TurnsOf(byLine, c + if n in byLine then [n] else [])
  {
    if n !in byLine {
      assert c + [] == c;
      return turns;
    }
    NextLine(byLine, c, n);
    if cur {
      LastTurn(byLine, c);
    }
    var row := byLine[n];
    var actor := Strip(row.actor);
    if !cur || row.kind != turns[|turns| - 1].kind || actor != turns[|turns| - 1].actor
       || row.begin || blankBetween {
      turns' := turns + [Turn(row.kind, actor, [n])];
    } else {
      turns' := Grow(turns, n);
    }
  }

  lemma BodyNeighbours(p: Page)
    ensures Adjacency(p, BodyNums(p, |p.lines|))
  {
    var b := BodyNums(p, |p.lines|);
    BodyNumsAre(p, |p.lines|);
    forall i | 0 < i < |b|
      ensures Neighbours(p, b[i - 1], b[i])
    {
      NoiseBetweenContent(p, i - 1);
      assert b[i - 1] in b && b[i] in b;
      if b[i] != b[i - 1] + 1 {
        assert IsNoise(p, b[i - 1] + 1);
        assert p.noise(p.lines[b[i - 1]]);
      }
    }
  }
}
