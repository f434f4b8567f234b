/** The log assembler: from labelled lines to numbered rows, with its validators
    (tools/rplog_assemble.py). */
module RplogAssemble {
  import opened Wrappers
  import opened Text
  import opened RplogEncode
  import opened RplogMarkers
  import opened RplogTurns

  const DROP := {"blank", "sep"}

  datatype Row = Row(seqno: Option<nat>, kind: string, actor: Option<string>, text: string)

  function LineText(p: Page, n: nat): string {
    if 1 <= n <= |p.lines| then p.lines[n - 1] else ""
  }

  function Raw(p: Page, nums: seq<nat>): seq<string> {
    if nums == [] then [] else Raw(p, nums[..|nums| - 1]) + [LineText(p, nums[|nums| - 1])]
  }

  function TextOf(p: Page, mk: Markup, t: Turn): string {
    Encoded(mk, Raw(p, t.nums))
  }

  /** The texts of the turns that have any. */
  function Texts(p: Page, mk: Markup, turns: seq<Turn>): seq<string> {
    if turns == [] then []
    else
      var text := TextOf(p, mk, turns[|turns| - 1]);
      Texts(p, mk, turns[..|turns| - 1]) + if text == "" then [] else [text]
  }

  /** A turn whose text does not reach the text of the non-meta rows. */
  predicate Lost(t: Turn) {
    t.kind in DROP || t.kind == "meta"
  }

  function KeptTexts(p: Page, mk: Markup, turns: seq<Turn>): seq<string> {
    if turns == [] then []
    else
      var t := turns[|turns| - 1];
      var text := TextOf(p, mk, t);
      KeptTexts(p, mk, turns[..|turns| - 1]) + if text == "" || Lost(t) then [] else [text]
  }

  // ----- rows

  function OrNone(s: string): Option<string> {
    if s == "" then None else Some(s)
  }

  function BodyRow(p: Page, mk: Markup, t: Turn): seq<Row> {
    var text := TextOf(p, mk, t);
    if t.kind in DROP || text == "" then [] else [Row(None, t.kind, OrNone(t.actor), text)]
  }

  function BodyRows(p: Page, mk: Markup, turns: seq<Turn>): seq<Row> {
    if turns == [] then [] else BodyRows(p, mk, turns[..|turns| - 1]) + BodyRow(p, mk, turns[|turns| - 1])
  }

  function MetaRows(metas: seq<string>): (rows: seq<Row>)
    ensures |rows| == |metas|
    ensures forall i :: 0 <= i < |rows| ==> rows[i] == Row(None, "meta", None, metas[i])
  {
    if metas == [] then [] else MetaRows(metas[..|metas| - 1]) + [Row(None, "meta", None, metas[|metas| - 1])]
  }

  function PoseRows(mk: Markup, blocks: seq<seq<string>>): (rows: seq<Row>)
    ensures forall i :: 0 <= i < |rows| ==> rows[i].kind == "pose" && rows[i].seqno == None
  {
    if blocks == [] then []
    else
      var text := Encoded(mk, blocks[|blocks| - 1]);
      PoseRows(mk, blocks[..|blocks| - 1]) + if text == "" then [] else [Row(None, "pose", None, text)]
  }

  /** `{"seq": i}` updated with the row: a number the row already has wins. */
  function NumberedRow(i: nat, r: Row): Row {
    if r.seqno.None? then r.(seqno := Some(i)) else r
  }

  /** The numbering loop, which replaces the rows one by one. */
  method Number(rows: seq<Row>) returns (out: seq<Row>)
    ensures |out| == |rows|
    ensures forall i :: 0 <= i < |rows| ==>
      out[i] == NumberedRow(i, rows[i]) == rows[i].(seqno := if rows[i].seqno.Some? then rows[i].seqno else Some(i))
  {
    out := rows;
    for i := 0 to |rows|
      invariant |out| == |rows|
      invariant forall j :: 0 <= j < i ==> out[j] == NumberedRow(j, rows[j])
      invariant forall j :: i <= j < |rows| ==> out[j] == rows[j]
    {
      out := out[i := NumberedRow(i, out[i])];
    }
  }

  predicate SeqsOk(rows: seq<Row>) {
    forall i :: 0 <= i < |rows| ==> rows[i].seqno == Some(i)
  }

  /** The meta rows of a page, as they are picked out of it. */
  function MetasIn(page: seq<Row>): (metas: seq<Row>)
    ensures |metas| <= |page|
  {
    if page == [] then []
    else MetasIn(page[..|page| - 1]) + if page[|page| - 1].kind == "meta" then [page[|page| - 1]] else []
  }

  predicate MetasFirst(page: seq<Row>) {
    forall i, j :: 0 <= i < j < |page| && page[j].kind == "meta" ==> page[i].kind == "meta"
  }

  predicate AllMeta(page: seq<Row>) {
    forall i :: 0 <= i < |page| ==> page[i].kind == "meta"
  }

  lemma MetasFirstSnoc(page: seq<Row>, r: Row)
    ensures MetasFirst(page + [r]) <==> MetasFirst(page) && (r.kind == "meta" ==> AllMeta(page))
    ensures AllMeta(page + [r]) <==> AllMeta(page) && r.kind == "meta"
  {
    var all := page + [r];
    assert all[|page|] == r;
    assert forall i :: 0 <= i < |page| ==> all[i] == page[i];
  }

  lemma SeqsSnoc(rows: seq<Row>, r: Row)
    ensures SeqsOk(rows + [r]) <==> SeqsOk(rows) && r.seqno == Some(|rows|)
  {
    var all := rows + [r];
    assert all[|rows|] == r;
    assert forall i :: 0 <= i < |rows| ==> all[i] == rows[i];
  }

  /** The meta rows picked out of a numbered page keep numbers that are their new positions exactly
      when the page has them all before its other rows. */
  lemma {:induction false} MetasFirstExactly(page: seq<Row>)
    requires SeqsOk(page)
    ensures SeqsOk(MetasIn(page)) <==> MetasFirst(page)
    ensures |MetasIn(page)| == |page| <==> AllMeta(page)
  {
    if page != [] {
      var front, r := page[..|page| - 1], page[|page| - 1];
      MetasFirstExactly(front);
      assert page == front + [r];
      MetasFirstSnoc(front, r);
      SeqsSnoc(MetasIn(front), r);
    }
  }

  /** The rows of a page: its meta rows, then one pose row for each block with text. */
  method ParsePage(mk: Markup, metas: seq<string>, blocks: seq<seq<string>>) returns (rows: seq<Row>)
    ensures var all := MetaRows(metas) + PoseRows(mk, blocks);
      |rows| == |all| && forall i :: 0 <= i < |all| ==> rows[i] == all[i].(seqno := Some(i))
  {
    rows := MetaRows(metas);
    for i := 0 to |blocks|
      invariant rows == MetaRows(metas) + PoseRows(mk, blocks[..i])
    {
      assert blocks[..i + 1][..i] == blocks[..i];
      var encoded := EncodeBlock(mk, blocks[i]);
      Assoc(MetaRows(metas), PoseRows(mk, blocks[..i]), [Row(None, "pose", None, encoded)]);
      if encoded != "" {
        rows := rows + [Row(None, "pose", None, encoded)];
      }
    }
    assert blocks[..|blocks|] == blocks;
    rows := Number(rows);
  }

  /** The meta rows of the page keep the numbers they have there, which are their positions. */
  method MetasOf(mk: Markup, metas: seq<string>, blocks: seq<seq<string>>) returns (rows: seq<Row>)
    ensures |rows| == |metas|
    ensures forall i :: 0 <= i < |rows| ==> rows[i] == Row(Some(i), "meta", None, metas[i])
  {
    var all := ParsePage(mk, metas, blocks);
    rows := [];
    for i := 0 to |all|
      invariant |rows| == if i < |metas| then i else |metas|
      invariant forall j :: 0 <= j < |rows| ==> rows[j] == Row(Some(j), "meta", None, metas[j])
    {
      if all[i].kind == "meta" {
        rows := rows + [all[i]];
      }
    }
  }

  // ----- the text of the rows

  /** The texts of the rows that are not meta rows. */
  function OutTexts(rows: seq<Row>): seq<string> {
    if rows == [] then []
    else OutTexts(rows[..|rows| - 1]) + if rows[|rows| - 1].kind == "meta" then [] else [rows[|rows| - 1].text]
  }

  lemma {:induction false} OutTextsOfMetas(rows: seq<Row>)
    requires forall i :: 0 <= i < |rows| ==> rows[i].kind == "meta"
    ensures OutTexts(rows) == []
  {
    if rows != [] {
      OutTextsOfMetas(rows[..|rows| - 1]);
    }
  }

  lemma OutTextsSnoc(rows: seq<Row>, r: Row)
    ensures OutTexts(rows + [r]) == OutTexts(rows) + if r.kind == "meta" then [] else [r.text]
  {
    assert (rows + [r])[..|rows|] == rows;
  }

  lemma OutTextsTurn(p: Page, mk: Markup, rows: seq<Row>, t: Turn)
    ensures var text := TextOf(p, mk, t);
      OutTexts(rows + BodyRow(p, mk, t)) == OutTexts(rows) + if text == "" || Lost(t) then [] else [text]
  {
    var row := BodyRow(p, mk, t);
    if row == [] {
      assert rows + row == rows;
    } else {
      OutTextsSnoc(rows, row[0]);
    }
  }

  /** What the rows carry is the kept texts of the turns. */
  lemma {:induction false} RowsCarryKept(p: Page, mk: Markup, metas: seq<Row>, turns: seq<Turn>)
    requires forall i :: 0 <= i < |metas| ==> metas[i].kind == "meta"
    ensures OutTexts(metas + BodyRows(p, mk, turns)) == KeptTexts(p, mk, turns)
    decreases |turns|
  {
    if turns == [] {
      assert metas + [] == metas;
      OutTextsOfMetas(metas);
    } else {
      var front, t := turns[..|turns| - 1], turns[|turns| - 1];
      RowsCarryKept(p, mk, metas, front);
      Assoc(metas, BodyRows(p, mk, front), BodyRow(p, mk, t));
      OutTextsTurn(p, mk, metas + BodyRows(p, mk, front), t);
    }
  }

  lemma {:induction false} NumbersDoNotMatter(rows: seq<Row>, out: seq<Row>)
    requires |out| == |rows|
    requires forall i :: 0 <= i < |rows| ==> out[i] == NumberedRow(i, rows[i])
    ensures OutTexts(out) == OutTexts(rows)
  {
    if rows != [] {
      NumbersDoNotMatter(rows[..|rows| - 1], out[..|out| - 1]);
    }
  }

  /** `"".join(...)` over the rows that are not meta. */
  method Gather(rows: seq<Row>) returns (text: string)
    ensures text == Cat(OutTexts(rows))
  {
    var parts: seq<string> := [];
    for i := 0 to |rows|
      invariant parts == OutTexts(rows[..i])
    {
      assert rows[..i + 1] == rows[..i] + [rows[i]];
      OutTextsSnoc(rows[..i], rows[i]);
      if rows[i].kind != "meta" {
        parts := parts + [rows[i].text];
      }
    }
    assert rows[..|rows|] == rows;
    text := Cat(parts);
  }

  // ----- assembling

  function Content(p: Page): seq<nat> {
    BodyNums(p, |p.lines|)
  }

  function TurnsFor(p: Page, mp: seq<Label>): seq<Turn> {
    TurnsOf(LabelMap(p, mp), Covered(Content(p), LabelMap(p, mp)))
  }

  /** Every content line has a label. */
  predicate AllLabelled(p: Page, mp: seq<Label>) {
    forall n :: n in Content(p) ==> n in LabelMap(p, mp)
  }

  predicate RoundTrips(p: Page, mk: Markup, mp: seq<Label>) {
    Norm(Encoded(mk, Raw(p, Content(p)))) == Norm(Cat(KeptTexts(p, mk, TurnsFor(p, mp))))
  }

  lemma RawSnoc(p: Page, nums: seq<nat>, i: nat)
    requires i < |nums|
    ensures Raw(p, nums[..i + 1]) == Raw(p, nums[..i]) + [LineText(p, nums[i])]
  {
    assert nums[..i + 1][..i] == nums[..i];
  }

  /** `[lines[k - 1] for k in nums]`. */
  method Slice(p: Page, nums: seq<nat>) returns (raw: seq<string>)
    ensures raw == Raw(p, nums)
  {
    raw := [];
    for i := 0 to |nums|
      invariant raw == Raw(p, nums[..i])
    {
      RawSnoc(p, nums, i);
      raw := raw + [LineText(p, nums[i])];
    }
    assert nums[..|nums|] == nums;
  }

  method Missing(p: Page, byLine: map<int, Label>) returns (missing: seq<nat>)
    ensures missing == [] <==> forall n :: n in Content(p) ==> n in byLine
  {
    missing := [];
    var body := Content(p);
    for i := 0 to |body|
      invariant missing == [] <==> forall j :: 0 <= j < i ==> body[j] in byLine
    {
      if body[i] !in byLine {
        missing := missing + [body[i]];
      }
    }
  }

  /** The row of one turn, if it has any: none for a blank or a separator, none without text, no actor
      for a blank name. */
  lemma RowOfTurn(p: Page, mk: Markup, t: Turn)
    ensures var text := Encoded(mk, Raw(p, t.nums));
      BodyRows(p, mk, [t]) ==
        if t.kind == "blank" || t.kind == "sep" || text == "" then []
        else [Row(None, t.kind, if t.actor == "" then None else Some(t.actor), text)]
  {
    assert [t][..0] == [];
    assert BodyRows(p, mk, []) == [];
  }

  method AddBodyRows(p: Page, mk: Markup, metas: seq<Row>, turns: seq<Turn>) returns (rows: seq<Row>)
    ensures rows == metas + BodyRows(p, mk, turns)
  {
    rows := metas;
    for i := 0 to |turns|
      invariant rows == metas + BodyRows(p, mk, turns[..i])
    {
      assert turns[..i + 1][..i] == turns[..i];
      Assoc(metas, BodyRows(p, mk, turns[..i]), BodyRow(p, mk, turns[i]));
      if turns[i].kind !in DROP {
        var raw := Slice(p, turns[i].nums);
        var encoded := EncodeBlock(mk, raw);
        if encoded != "" {
          rows := rows + [Row(None, turns[i].kind, OrNone(turns[i].actor), encoded)];
        }
      }
    }
    assert turns[..|turns|] == turns;
  }

  lemma {:induction false} BodyRowsUnnumbered(p: Page, mk: Markup, turns: seq<Turn>)
    ensures forall i :: 0 <= i < |BodyRows(p, mk, turns)| ==> BodyRows(p, mk, turns)[i].seqno.None?
  {
    if turns != [] {
      BodyRowsUnnumbered(p, mk, turns[..|turns| - 1]);
    }
  }

  /** The metas of the page, then the given rows, numbered by position. */
  predicate InOrder(rows: seq<Row>, metas: seq<string>, body: seq<Row>) {
    && SeqsOk(rows) && |rows| == |metas| + |body|
    && (forall i :: 0 <= i < |metas| ==> rows[i] == Row(Some(i), "meta", None, metas[i]))
    && (forall i :: 0 <= i < |body| ==> rows[|metas| + i] == body[i].(seqno := Some(|metas| + i)))
  }

  lemma NumberedInOrder(metas: seq<string>, first: seq<Row>, body: seq<Row>, rows: seq<Row>)
    requires |first| == |metas| && |rows| == |first + body|
    requires forall i :: 0 <= i < |first| ==> first[i] == Row(Some(i), "meta", None, metas[i])
    requires forall i :: 0 <= i < |body| ==> body[i].seqno.None?
    requires forall i :: 0 <= i < |rows| ==> rows[i] == NumberedRow(i, (first + body)[i])
    ensures InOrder(rows, metas, body)
  {
    forall i | 0 <= i < |rows|
      ensures rows[i].seqno == Some(i)
    {
      if i >= |first| {
        assert (first + body)[i] == body[i - |first|];
      }
    }
    forall i | 0 <= i < |body|
      ensures rows[|metas| + i] == body[i].(seqno := Some(|metas| + i))
    {
      assert (first + body)[|metas| + i] == body[i];
    }
  }

  method MakeRows(p: Page, mk: Markup, metas: seq<string>, blocks: seq<seq<string>>, turns: seq<Turn>)
    returns (rows: seq<Row>)
    ensures InOrder(rows, metas, BodyRows(p, mk, turns))
    ensures OutTexts(rows) == KeptTexts(p, mk, turns)
  {
    var first := MetasOf(mk, metas, blocks);
    var all := AddBodyRows(p, mk, first, turns);
    BodyRowsUnnumbered(p, mk, turns);
    rows := Number(all);
    RowsCarryKept(p, mk, first, turns);
    NumbersDoNotMatter(all, rows);
    NumberedInOrder(metas, first, BodyRows(p, mk, turns), rows);
  }

  method RoundTripFails(p: Page, mk: Markup, rows: seq<Row>) returns (fails: bool)
    ensures fails <==> Norm(Encoded(mk, Raw(p, Content(p)))) != Norm(Cat(OutTexts(rows)))
  {
    var raw := Slice(p, Content(p));
    var source := EncodeBlock(mk, raw);
    var text := Gather(rows);
    fails := Norm(source) != Norm(text);
  }

  /** The rows in order, numbered from 0, and the errors. The numbering check never fails; the
      others pass exactly when each content line has one label and the text round-trips. */
  method Assemble(p: Page, mk: Markup, metas: seq<string>, blocks: seq<seq<string>>, mp: seq<Label>)
    returns (rows: seq<Row>, errors: seq<Error>)
    ensures InOrder(rows, metas, BodyRows(p, mk, TurnsFor(p, mp)))
    ensures errors == [] <==> OneEach(p, mp) && AllLabelled(p, mp) && RoundTrips(p, mk, mp)
  {
    var byLine, found := LabelLines(p, mp);
    errors := found;
    var missing := Missing(p, byLine);
    if missing != [] {
      errors := errors + [Uncovered(missing)];
    }
    BodyNeighbours(p);
    var turns := GroupTurns(p, Content(p), byLine);
    rows := MakeRows(p, mk, metas, blocks, turns);
    var fails := RoundTripFails(p, mk, rows);
    if fails {
      errors := errors + [RoundTrip];
    }
    if !SeqsOk(rows) {
      errors := errors + [BadSeqs];
    }
  }

  // ----- which maps pass

  lemma {:induction false} RawAppend(p: Page, a: seq<nat>, b: seq<nat>)
    ensures Raw(p, a + b) == Raw(p, a) + Raw(p, b)
    decreases |b|
  {
    if b == [] {
      assert a + b == a;
    } else {
      assert (a + b)[..|a + b| - 1] == a + b[..|b| - 1];
      RawAppend(p, a, b[..|b| - 1]);
    }
  }

  lemma {:induction false} TextsNonEmpty(p: Page, mk: Markup, turns: seq<Turn>)
    ensures NonEmpty(Texts(p, mk, turns))
  {
    if turns != [] {
      TextsNonEmpty(p, mk, turns[..|turns| - 1]);
    }
  }

  /** Encoding the lines of all turns at once gives the texts of the turns, joined by %r. */
  lemma {:induction false} EncodeIsByTurn(p: Page, mk: Markup, turns: seq<Turn>)
    ensures Encoded(mk, Raw(p, Flat(turns))) == Join("%r", Texts(p, mk, turns))
    decreases |turns|
  {
    if turns != [] {
      var front, t := turns[..|turns| - 1], turns[|turns| - 1];
      EncodeIsByTurn(p, mk, front);
      RawAppend(p, Flat(front), t.nums);
      EncodeDistributes(mk, Raw(p, Flat(front)), Raw(p, t.nums));
      TextsNonEmpty(p, mk, front);
      JoinGlue(Texts(p, mk, front), TextOf(p, mk, t));
    }
  }

  /** No lost turn has text other than markers and white space. */
  predicate NothingLost(p: Page, mk: Markup, turns: seq<Turn>) {
    forall i :: 0 <= i < |turns| && Lost(turns[i]) ==> Norm(TextOf(p, mk, turns[i])) == ""
  }

  lemma LostTextStep(all: seq<string>, kept: seq<string>, text: string, lost: bool)
    ensures var all', kept' := all + (if text == "" then [] else [text]), kept + (if text == "" || lost then [] else [text]);
      && Norms(all') == Norms(all) + Norm(text)
      && Norms(kept') == Norms(kept) + if lost then "" else Norm(text)
  {
    if text == "" {
      assert all + [] == all && kept + [] == kept;
    } else {
      NormsSnoc(all, text);
      NormsSnoc(kept, text);
      assert kept + [] == kept;
    }
  }

  lemma {:induction false} LostText(p: Page, mk: Markup, turns: seq<Turn>)
    ensures var all, kept := Norms(Texts(p, mk, turns)), Norms(KeptTexts(p, mk, turns));
      if NothingLost(p, mk, turns) then all == kept else |all| > |kept|
    decreases |turns|
  {
    if turns != [] {
      var front, t := turns[..|turns| - 1], turns[|turns| - 1];
      LostText(p, mk, front);
      LostTextStep(Texts(p, mk, front), KeptTexts(p, mk, front), TextOf(p, mk, t), Lost(t));
      NothingLostSnoc(p, mk, front, t);
      assert turns == front + [t];
    }
  }

  lemma NothingLostSnoc(p: Page, mk: Markup, turns: seq<Turn>, t: Turn)
    ensures NothingLost(p, mk, turns + [t]) <==>
      NothingLost(p, mk, turns) && (Lost(t) ==> Norm(TextOf(p, mk, t)) == "")
  {
    var all := turns + [t];
    assert all[|turns|] == t;
    assert forall i :: 0 <= i < |turns| ==> all[i] == turns[i];
  }

  lemma {:induction false} CoveredAll(body: seq<nat>, byLine: map<int, Label>)
    requires forall n :: n in body ==> n in byLine
    ensures Covered(body, byLine) == body
  {
    if body != [] {
      CoveredAll(body[..|body| - 1], byLine);
    }
  }

  /** When every content line is labelled, the round trip succeeds exactly when no dropped or meta
      turn had text and no turn's closing percent sign forms a marker with the next turn's start. */
  lemma RoundTripsExactly(p: Page, mk: Markup, mp: seq<Label>)
    requires AllLabelled(p, mp)
    ensures var turns := TurnsFor(p, mp);
      var kept := KeptTexts(p, mk, turns);
      RoundTrips(p, mk, mp) <==>
        && (forall i :: 0 <= i < |turns| && turns[i].kind in ["blank", "sep", "meta"] ==>
             Norm(TextOf(p, mk, turns[i])) == "")
        && Clean(kept, 't') && Clean(RemoveEach(kept, 't'), 'r')
  {
    var turns := TurnsFor(p, mp);
    CoveredAll(Content(p), LabelMap(p, mp));
    TurnsPartition(LabelMap(p, mp), Content(p));
    EncodeIsByTurn(p, mk, turns);
    LostText(p, mk, turns);
    RoundTripOfKept(Texts(p, mk, turns), KeptTexts(p, mk, turns));
  }

  /** No part of these lines holds a percent sign. */
  predicate PlainLines(p: Page, mk: Markup, nums: seq<nat>) {
    forall n :: n in nums ==> Plain(mk.parts(LineText(p, n)))
  }

  lemma {:induction false} RawPlain(p: Page, mk: Markup, nums: seq<nat>)
    requires PlainLines(p, mk, nums)
    ensures forall i :: 0 <= i < |Raw(p, nums)| ==> Plain(mk.parts(Raw(p, nums)[i]))
  {
    if nums != [] {
      RawPlain(p, mk, nums[..|nums| - 1]);
    }
  }

  lemma {:induction false} KeptMarked(p: Page, mk: Markup, turns: seq<Turn>)
    requires PlainLines(p, mk, Flat(turns))
    ensures AllMarked(KeptTexts(p, mk, turns))
  {
    if turns != [] {
      var t := turns[|turns| - 1];
      KeptMarked(p, mk, turns[..|turns| - 1]);
      RawPlain(p, mk, t.nums);
      EncodedMarked(mk, Raw(p, t.nums));
    }
  }

  /** On a page without percent signs the round trip fails only for text under a dropped or meta label. */
  lemma PlainPageRoundTrips(p: Page, mk: Markup, mp: seq<Label>)
    requires AllLabelled(p, mp) && PlainLines(p, mk, Content(p))
    ensures RoundTrips(p, mk, mp) <==> NothingLost(p, mk, TurnsFor(p, mp))
  {
    var kept := KeptTexts(p, mk, TurnsFor(p, mp));
    RoundTripsExactly(p, mk, mp);
    CoveredAll(Content(p), LabelMap(p, mp));
    TurnsPartition(LabelMap(p, mp), Content(p));
    KeptMarked(p, mk, TurnsFor(p, mp));
    MarkedIsClean(kept, 't');
    RemoveEachMarked(kept);
    MarkedIsClean(RemoveEach(kept, 't'), 'r');
  }

  /** Good logs that are rejected: two content lines "%" and "r", which the rules leave as they are,
      each labelled once with an actor of its own. */
  lemma GoodLogRejected(p: Page, mk: Markup, a: Label, b: Label)
    requires p.lines == ["%", "r"] && p.start == 0 && !p.noise("%") && !p.noise("r")
    requires !mk.indented("%") && !mk.indented("r") && mk.parts("%") == ["%"] && mk.parts("r") == ["r"]
    requires a == Label(1, "pose", "Ada", false) && b == Label(2, "pose", "Bo", false)
    ensures OneEach(p, [a, b]) && AllLabelled(p, [a, b]) && !RoundTrips(p, mk, [a, b])
  {
    TwoContent(p);
    TwoLabels(p, a, b);
    BothLabelled(p, a, b);
    TwoKept(p, mk, a, b);
    KeptNotClean(p, mk, [a, b]);
  }

  lemma BothLabelled(p: Page, a: Label, b: Label)
    requires |p.lines| == 2 && p.start == 0 && !p.noise(p.lines[0]) && !p.noise(p.lines[1])
    requires Content(p) == [1, 2] && a.line == 1 && b.line == 2
    requires LabelMap(p, [a, b]) == map[1 := a, 2 := b]
    ensures OneEach(p, [a, b]) && AllLabelled(p, [a, b])
  {
  }

  lemma KeptNotClean(p: Page, mk: Markup, mp: seq<Label>)
    requires AllLabelled(p, mp) && KeptTexts(p, mk, TurnsFor(p, mp)) == ["%", "r"]
    ensures !RoundTrips(p, mk, mp)
  {
    NotClean();
    RoundTripsExactly(p, mk, mp);
  }

  lemma TwoContent(p: Page)
    requires |p.lines| == 2 && p.start == 0 && !p.noise(p.lines[0]) && !p.noise(p.lines[1])
    ensures Content(p) == [1, 2]
  {
    assert BodyNums(p, 0) == [];
    assert BodyNums(p, 1) == [] + [1];
    assert BodyNums(p, 2) == [1] + [2];
  }

  lemma TwoKept(p: Page, mk: Markup, a: Label, b: Label)
    requires p.lines == ["%", "r"] && Content(p) == [1, 2] && LabelMap(p, [a, b]) == map[1 := a, 2 := b]
    requires !mk.indented("%") && !mk.indented("r") && mk.parts("%") == ["%"] && mk.parts("r") == ["r"]
    requires a == Label(1, "pose", "Ada", false) && b == Label(2, "pose", "Bo", false)
    ensures KeptTexts(p, mk, TurnsFor(p, [a, b])) == ["%", "r"]
  {
    var m := LabelMap(p, [a, b]);
    CoveredAll(Content(p), m);
    TwoTurns(m);
    var t, u := Turn("pose", "Ada", [1]), Turn("pose", "Bo", [2]);
    OneLineText(p, mk, t, 1);
    OneLineText(p, mk, u, 2);
    KeptSnoc(p, mk, [], t);
    KeptSnoc(p, mk, [t], u);
    assert [] + [t] == [t] && [t] + [u] == [t, u];
  }

  lemma TwoLabels(p: Page, a: Label, b: Label)
    requires Kept(p, a) && Kept(p, b) && a.line != b.line
    ensures LabelMap(p, [a, b]) == map[a.line := a, b.line := b]
  {
    assert [a, b][..1] == [a] && [a][..0] == [];
    assert LabelMap(p, [a]) == map[a.line := a];
  }

  lemma TwoTurns(m: map<int, Label>)
    requires m == map[1 := Label(1, "pose", "Ada", false), 2 := Label(2, "pose", "Bo", false)]
    ensures TurnsOf(m, [1, 2]) == [Turn("pose", "Ada", [1]), Turn("pose", "Bo", [2])]
  {
    StripTidy("Ada");
    StripTidy("Bo");
    assert [1, 2][..1] == [1] && [1][..0] == [];
    assert TurnsOf(m, [1]) == [] + [NewTurn(m, 1)];
    assert "Ada"[0] != "Bo"[0];
    assert !Joins(m, 1, 2);
  }

  lemma OneLineText(p: Page, mk: Markup, t: Turn, n: nat)
    requires t.nums == [n] && 1 <= n <= |p.lines| && Tidy(p.lines[n - 1])
    requires !mk.indented(p.lines[n - 1]) && mk.parts(p.lines[n - 1]) == [p.lines[n - 1]]
    ensures TextOf(p, mk, t) == p.lines[n - 1]
  {
    var line := p.lines[n - 1];
    assert [n][..0] == [] && [line][..0] == [];
    assert Raw(p, [n]) == [] + [line];
    StripTidy(line);
    assert "" + Strip(line) == line;
    assert Piece(false, line) == [line];
    assert LinePieces(false, [line]) == [] + Piece(false, line);
    assert Pieces(mk, [line]) == [] + [line];
  }

  lemma KeptSnoc(p: Page, mk: Markup, turns: seq<Turn>, t: Turn)
    requires !Lost(t) && TextOf(p, mk, t) != ""
    ensures KeptTexts(p, mk, turns + [t]) == KeptTexts(p, mk, turns) + [TextOf(p, mk, t)]
  {
    assert (turns + [t])[..|turns|] == turns;
  }

  /** Two consecutive content lines of a fully labelled page share a turn exactly when their numbers
      are adjacent, type and actor agree, and the second has no begin flag; likewise of the labelled
      lines, when some have no label. */
  lemma TurnsShareExactly(p: Page, mp: seq<Label>, k: nat)
    requires k + 1 < |Covered(Content(p), LabelMap(p, mp))|
    ensures var m := LabelMap(p, mp);
      var c := Covered(Content(p), m);
      c[k] in m && c[k + 1] in m &&
      var first, second := m[c[k]], m[c[k + 1]];
      Together(TurnsFor(p, mp), c[k], c[k + 1]) <==>
        c[k + 1] == c[k] + 1 && first.kind == second.kind && Strip(first.actor) == Strip(second.actor) && !second.begin
  {
    CoveredAre(Content(p), LabelMap(p, mp));
    BodyNumsAre(p, |p.lines|);
    CoveredDistinct(Content(p), LabelMap(p, mp));
    ShareTurnExactly(LabelMap(p, mp), Covered(Content(p), LabelMap(p, mp)), k);
  }

  lemma {:induction false} CoveredDistinct(body: seq<nat>, byLine: map<int, Label>)
    requires Distinct(body)
    ensures Distinct(Covered(body, byLine))
  {
    if body != [] {
      var front, n := body[..|body| - 1], body[|body| - 1];
      CoveredDistinct(front, byLine);
      CoveredAre(front, byLine);
      assert n !in front;
    }
  }
}
