/** Pose blocks: grouping room lines by poser and trimming the verbatim scene (cricket/router.py). */
module SceneBlocks {
  import opened Text

  const SCENE_QUEUE_CAP := 60

  /** One room line, or one block of lines by the same poser. `dbref` is "" when absent. */
  datatype ContextLine = ContextLine(speaker: string, dbref: string, kind: string, text: string)

  function PoserName(speaker: string): string {
    Lower(Strip(speaker))
  }

  /** Whether a line by `speaker` continues `block`. */
  predicate SamePoser(block: ContextLine, speaker: string, dbref: string) {
    if dbref != "" && block.dbref != "" then block.dbref == dbref
    else PoserName(speaker) != "" && PoserName(block.speaker) == PoserName(speaker)
  }

  predicate Continues(blocks: seq<ContextLine>, line: ContextLine) {
    blocks != [] && SamePoser(blocks[|blocks| - 1], line.speaker, line.dbref)
  }

  /** One text under another. */
  function Stack(upper: string, lower: string): string {
    upper + "\n" + lower
  }

  function Merge(block: ContextLine, text: string): ContextLine {
    block.(text := Strip(Stack(block.text, text)))
  }

  /** The scene after one more line, nothing trimmed. */
  function AddLine(blocks: seq<ContextLine>, line: ContextLine): (r: seq<ContextLine>)
    ensures r != []
  {
    if Continues(blocks, line)
    then blocks[|blocks| - 1 := Merge(blocks[|blocks| - 1], line.text)]
    else blocks + [line]
  }

  /** The never-trimmed grouping of a scene's lines. */
  function Grouping(lines: seq<ContextLine>): (r: seq<ContextLine>)
    ensures r == [] <==> lines == []
  {
    if lines == [] then []
    else AddLine(Grouping(lines[..|lines| - 1]), lines[|lines| - 1])
  }

  lemma GroupingSnoc(lines: seq<ContextLine>, line: ContextLine)
    ensures Grouping(lines + [line]) == AddLine(Grouping(lines), line)
  {
    assert (lines + [line])[..|lines|] == lines;
  }

  /** Two lines make one block exactly when they have one dbref or, where a dbref is missing, one name
      that is not blank. */
  lemma OneBlockExactly(x: ContextLine, y: ContextLine)
    ensures |Grouping([x, y])| == 1 <==>
      if x.dbref != "" && y.dbref != "" then x.dbref == y.dbref
      else Lower(Strip(y.speaker)) != "" && Lower(Strip(x.speaker)) == Lower(Strip(y.speaker))
  {
    GroupingSnoc([], x);
    GroupingSnoc([x], y);
    assert [] + [x] == [x] && [x] + [y] == [x, y];
    assert Grouping([]) == [] && AddLine([], x) == [x];
  }

  // ----- what grouping keeps

  predicate NoAdjacentSamePoser(blocks: seq<ContextLine>) {
    forall i :: 0 < i < |blocks| ==> !SamePoser(blocks[i - 1], blocks[i].speaker, blocks[i].dbref)
  }

  lemma {:induction false} GroupingSeparatesPosers(lines: seq<ContextLine>)
    ensures NoAdjacentSamePoser(Grouping(lines))
  {
    if lines != [] {
      GroupingSeparatesPosers(lines[..|lines| - 1]);
    }
  }

  predicate TidyLines(lines: seq<ContextLine>) {
    forall i :: 0 <= i < |lines| ==> Tidy(lines[i].text)
  }

  lemma StackAssociative(a: string, b: string, c: string)
    ensures Stack(Stack(a, b), c) == Stack(a, Stack(b, c))
  {
    assert (a + "\n") + (b + "\n" + c) == (a + "\n" + b) + "\n" + c;
  }

  /** The texts, each under the one before. */
  function Transcript(blocks: seq<ContextLine>): string {
    if blocks == [] then ""
    else if |blocks| == 1 then blocks[0].text
    else Stack(Transcript(blocks[..|blocks| - 1]), blocks[|blocks| - 1].text)
  }

  lemma TranscriptSnoc(blocks: seq<ContextLine>, b: ContextLine)
    ensures Transcript(blocks + [b]) == if blocks == [] then b.text else Stack(Transcript(blocks), b.text)
  {
    assert (blocks + [b])[..|blocks|] == blocks;
  }

  lemma {:induction false} TranscriptAppend(xs: seq<ContextLine>, ys: seq<ContextLine>)
    requires xs != [] && ys != []
    ensures Transcript(xs + ys) == Stack(Transcript(xs), Transcript(ys))
  {
    var init, last := ys[..|ys| - 1], ys[|ys| - 1];
    assert ys == init + [last];
    assert xs + ys == (xs + init) + [last];
    TranscriptSnoc(xs + init, last);
    TranscriptSnoc(init, last);
    if init == [] {
      assert xs + init == xs;
    } else {
      TranscriptAppend(xs, init);
      StackAssociative(Transcript(xs), Transcript(init), last.text);
    }
  }

  lemma MergeTidy(block: ContextLine, text: string)
    requires Tidy(block.text) && Tidy(text)
    ensures Merge(block, text).text == Stack(block.text, text)
    ensures Tidy(Merge(block, text).text)
  {
    var t := Stack(block.text, text);
    assert t[0] == block.text[0] && t[|t| - 1] == text[|text| - 1];
    StripTidy(t);
  }

  lemma SnocTranscripts(xs: seq<ContextLine>, ys: seq<ContextLine>, line: ContextLine)
    requires Transcript(xs) == Transcript(ys) && (xs == [] <==> ys == [])
    ensures Transcript(xs + [line]) == Transcript(ys + [line])
  {
    TranscriptSnoc(xs, line);
    TranscriptSnoc(ys, line);
  }

  lemma TextKeptStep(blocks: seq<ContextLine>, front: seq<ContextLine>, line: ContextLine)
    requires TidyLines(blocks) && Tidy(line.text)
    requires Transcript(blocks) == Transcript(front) && (blocks == [] <==> front == [])
    ensures TidyLines(AddLine(blocks, line))
    ensures Transcript(AddLine(blocks, line)) == Transcript(front + [line])
  {
    AddLineKeepsText(blocks, line);
    SnocTranscripts(blocks, front, line);
  }

  /** Grouping loses, reorders and invents no text. */
  lemma {:induction false} GroupingKeepsText(lines: seq<ContextLine>)
    requires TidyLines(lines)
    ensures TidyLines(Grouping(lines))
    ensures Transcript(Grouping(lines)) == Transcript(lines)
  {
    if lines != [] {
      var front, line := lines[..|lines| - 1], lines[|lines| - 1];
      GroupingKeepsText(front);
      TextKeptStep(Grouping(front), front, line);
      assert front + [line] == lines;
    }
  }

  lemma {:induction false} AddLineKeepsText(blocks: seq<ContextLine>, line: ContextLine)
    requires TidyLines(blocks) && Tidy(line.text)
    ensures TidyLines(AddLine(blocks, line))
    ensures Transcript(AddLine(blocks, line)) == Transcript(blocks + [line])
  {
    if Continues(blocks, line) {
      var init, last := blocks[..|blocks| - 1], blocks[|blocks| - 1];
      assert blocks == init + [last];
      assert AddLine(blocks, line) == init + [Merge(last, line.text)];
      MergeTidy(last, line.text);
    }
  }

  // ----- text with white space anywhere

  lemma StackSqueezed(upper: string, lower: string)
    ensures Squeeze(Stack(upper, lower)) == Squeeze(upper) + Squeeze(lower)
  {
    SqueezeAppend(upper, "\n");
    SqueezeAppend(upper + "\n", lower);
    assert "\n"[1..] == "";
    assert Squeeze(upper) + "" == Squeeze(upper);
  }

  /** The texts end to end, without their white space. */
  function Ink(blocks: seq<ContextLine>): string {
    if blocks == [] then "" else Ink(blocks[..|blocks| - 1]) + Squeeze(blocks[|blocks| - 1].text)
  }

  lemma InkSnoc(blocks: seq<ContextLine>, b: ContextLine)
    ensures Ink(blocks + [b]) == Ink(blocks) + Squeeze(b.text)
  {
    assert (blocks + [b])[..|blocks|] == blocks;
  }

  lemma {:induction false} InkAppend(xs: seq<ContextLine>, ys: seq<ContextLine>)
    ensures Ink(xs + ys) == Ink(xs) + Ink(ys)
    decreases |ys|
  {
    if ys == [] {
      assert xs + ys == xs;
    } else {
      var init, last := ys[..|ys| - 1], ys[|ys| - 1];
      InkAppend(xs, init);
      assert xs + ys == (xs + init) + [last];
      InkSnoc(xs + init, last);
      assert (Ink(xs) + Ink(init)) + Squeeze(last.text) == Ink(xs) + (Ink(init) + Squeeze(last.text));
    }
  }

  lemma {:induction false} InkOfTranscript(blocks: seq<ContextLine>)
    ensures Squeeze(Transcript(blocks)) == Ink(blocks)
  {
    if |blocks| == 1 {
      assert blocks[..0] == [];
      assert Ink(blocks) == "" + Squeeze(blocks[0].text);
    } else if |blocks| > 1 {
      InkOfTranscript(blocks[..|blocks| - 1]);
      StackSqueezed(Transcript(blocks[..|blocks| - 1]), blocks[|blocks| - 1].text);
    }
  }

  lemma AddLineKeepsInk(blocks: seq<ContextLine>, line: ContextLine)
    ensures Ink(AddLine(blocks, line)) == Ink(blocks) + Squeeze(line.text)
  {
    if Continues(blocks, line) {
      var init, last := blocks[..|blocks| - 1], blocks[|blocks| - 1];
      var merged := Merge(last, line.text);
      assert AddLine(blocks, line) == init + [merged];
      InkSnoc(init, merged);
      StripSqueezed(Stack(last.text, line.text));
      StackSqueezed(last.text, line.text);
      assert (Ink(init) + Squeeze(last.text)) + Squeeze(line.text)
        == Ink(init) + (Squeeze(last.text) + Squeeze(line.text));
    } else {
      InkSnoc(blocks, line);
    }
  }

  /** Whatever the lines, grouping loses, reorders and invents nothing but white space. */
  lemma {:induction false} GroupingKeepsInk(lines: seq<ContextLine>)
    ensures Ink(Grouping(lines)) == Ink(lines)
    ensures Squeeze(Transcript(Grouping(lines))) == Squeeze(Transcript(lines))
  {
    if lines != [] {
      GroupingKeepsInk(lines[..|lines| - 1]);
      AddLineKeepsInk(Grouping(lines[..|lines| - 1]), lines[|lines| - 1]);
    }
    InkOfTranscript(Grouping(lines));
    InkOfTranscript(lines);
  }

  // ----- the byte budget

  function Bytes(blocks: seq<ContextLine>): nat {
    if blocks == [] then 0 else |blocks[0].text| + Bytes(blocks[1..])
  }

  /** A verbatim tail the budget allows; the newest block is always allowed. */
  predicate Fits(blocks: seq<ContextLine>, budget: nat) {
    |blocks| <= 1 || (Bytes(blocks) <= budget && |blocks| <= SCENE_QUEUE_CAP)
  }

  predicate FitsFrom(blocks: seq<ContextLine>, k: nat, budget: nat)
    requires k <= |blocks|
  {
    Fits(blocks[k..], budget)
  }

  predicate IsSuffix(q: seq<ContextLine>, blocks: seq<ContextLine>) {
    |q| <= |blocks| && blocks[|blocks| - |q|..] == q
  }

  /** The scene trimmed as a whole: its longest suffix that fits. */
  function Tail(blocks: seq<ContextLine>, budget: nat): seq<ContextLine> {
    if Fits(blocks, budget) then blocks else Tail(blocks[1..], budget)
  }

  lemma {:induction false} TailIsLongest(blocks: seq<ContextLine>, budget: nat)
    ensures IsSuffix(Tail(blocks, budget), blocks)
    ensures Fits(Tail(blocks, budget), budget)
    ensures |Tail(blocks, budget)| <= 1 || (|Tail(blocks, budget)| <= 60 && Bytes(Tail(blocks, budget)) <= budget)
    ensures Tail(blocks, budget) == [] <==> blocks == []
    ensures forall k :: 0 <= k < |blocks| - |Tail(blocks, budget)| ==> !FitsFrom(blocks, k, budget)
  {
    if !Fits(blocks, budget) {
      var rest := blocks[1..];
      TailIsLongest(rest, budget);
      forall k | 0 <= k < |blocks| - |Tail(blocks, budget)|
        ensures !FitsFrom(blocks, k, budget)
      {
        if k == 0 {
          assert blocks[0..] == blocks;
        } else {
          assert rest[k - 1..] == blocks[k..];
          assert !FitsFrom(rest, k - 1, budget);
        }
      }
    }
  }

  /** Leading blocks with which the scene does not fit make no difference. */
  lemma {:induction false} TailSkips(blocks: seq<ContextLine>, s: nat, budget: nat)
    requires s <= |blocks| && forall k :: 0 <= k < s ==> !FitsFrom(blocks, k, budget)
    ensures Tail(blocks, budget) == Tail(blocks[s..], budget)
  {
    if s == 0 {
      assert blocks[0..] == blocks;
    } else {
      TailSkips(blocks, s - 1, budget);
      assert !FitsFrom(blocks, s - 1, budget);
      assert blocks[s - 1..][1..] == blocks[s..];
    }
  }

  lemma {:induction false} BytesSuffix(blocks: seq<ContextLine>, k: nat)
    requires k <= |blocks|
    ensures Bytes(blocks[k..]) <= Bytes(blocks)
    ensures k < |blocks| ==> Bytes(blocks[k..]) == |blocks[k].text| + Bytes(blocks[k + 1..])
  {
    if k == 0 {
      assert blocks[0..] == blocks;
    } else {
      BytesSuffix(blocks[1..], k - 1);
      assert blocks[1..][k - 1..] == blocks[k..];
      if k < |blocks| {
        assert blocks[1..][k..] == blocks[k + 1..];
      }
    }
  }

  lemma FitsSuffix(blocks: seq<ContextLine>, k: nat, budget: nat)
    requires k <= |blocks| && Fits(blocks, budget)
    ensures Fits(blocks[k..], budget)
  {
    BytesSuffix(blocks, k);
  }

  lemma {:induction false} BytesSnoc(blocks: seq<ContextLine>, b: ContextLine)
    ensures Bytes([]) == 0 && Bytes(blocks + [b]) == Bytes(blocks) + |b.text|
  {
    if blocks != [] {
      assert (blocks + [b])[1..] == blocks[1..] + [b];
      BytesSnoc(blocks[1..], b);
    }
  }

  /** The line opens a new block, or leaves the block it joins no shorter than it was. */
  predicate KeepsSize(blocks: seq<ContextLine>, line: ContextLine) {
    Continues(blocks, line) ==>
      |blocks[|blocks| - 1].text| <= |Merge(blocks[|blocks| - 1], line.text).text|
  }

  /** Adding the line to a suffix of the scene gives that suffix of the new scene. */
  lemma AddLineSuffix(q: seq<ContextLine>, blocks: seq<ContextLine>, line: ContextLine)
    requires IsSuffix(q, blocks) && (q == [] <==> blocks == [])
    ensures Continues(q, line) == Continues(blocks, line)
    ensures KeepsSize(q, line) == KeepsSize(blocks, line)
    ensures AddLine(q, line) == AddLine(blocks, line)[|blocks| - |q|..]
    ensures IsSuffix(AddLine(q, line), AddLine(blocks, line))
    ensures |blocks| <= |AddLine(blocks, line)|
  {
    if q != [] {
      assert q[|q| - 1] == blocks[|blocks| - 1];
    }
  }

  /** If the suffix from `k` does not fit, no longer suffix does. */
  lemma LongerUnfit(blocks: seq<ContextLine>, k: nat, j: nat, budget: nat)
    requires j <= k <= |blocks| && !FitsFrom(blocks, k, budget)
    ensures !FitsFrom(blocks, j, budget)
  {
    var t := blocks[j..];
    assert t[k - j..] == blocks[k..];
    if Fits(t, budget) {
      FitsSuffix(t, k - j, budget);
    }
  }

  /** A suffix trims like the whole exactly when the suffix one block longer does not fit. */
  lemma TailOfSuffix(all: seq<ContextLine>, s: nat, budget: nat)
    requires s < |all|
    ensures Tail(all[s..], budget) == Tail(all, budget) <==> (s == 0 || !FitsFrom(all, s - 1, budget))
  {
    if s == 0 {
      assert all[0..] == all;
    } else if FitsFrom(all, s - 1, budget) {
      TailIsLongest(all, budget);
      TailIsLongest(all[s..], budget);
    } else {
      forall k | 0 <= k < s
        ensures !FitsFrom(all, k, budget)
      {
        LongerUnfit(all, s - 1, k, budget);
      }
      TailSkips(all, s, budget);
    }
  }

  predicate UnfitFrom(blocks: seq<ContextLine>, k: nat, budget: nat) {
    k <= |blocks| && !FitsFrom(blocks, k, budget)
  }

  /** If a block was dropped already, the newest such block still does not fit with the line in. */
  predicate DroppedStaysUnfit(blocks: seq<ContextLine>, line: ContextLine, budget: nat) {
    |Tail(blocks, budget)| < |blocks| ==>
      UnfitFrom(AddLine(blocks, line), |blocks| - |Tail(blocks, budget)| - 1, budget)
  }

  /** Trimming as the lines arrive equals trimming the whole scene at the end, for one line:
      exactly when the newest block already dropped still does not fit. */
  lemma OnlineTrimStep(blocks: seq<ContextLine>, line: ContextLine, budget: nat)
    ensures Tail(AddLine(Tail(blocks, budget), line), budget) == Tail(AddLine(blocks, line), budget)
       <==> DroppedStaysUnfit(blocks, line, budget)
  {
    var q, all := Tail(blocks, budget), AddLine(blocks, line);
    TailIsLongest(blocks, budget);
    AddLineSuffix(q, blocks, line);
    var s := |blocks| - |q|;
    assert AddLine(q, line) == all[s..] && s < |all|;
    assert DroppedStaysUnfit(blocks, line, budget) <==> (s == 0 || !FitsFrom(all, s - 1, budget));
    TailOfSuffix(all, s, budget);
  }

  /** Online trimming equals offline trimming for a line that shrinks no block. */
  lemma OnlineTrim(blocks: seq<ContextLine>, line: ContextLine, budget: nat)
    requires KeepsSize(blocks, line)
    ensures Tail(AddLine(Tail(blocks, budget), line), budget) == Tail(AddLine(blocks, line), budget)
  {
    OnlineTrimStep(blocks, line, budget);
    TailIsLongest(blocks, budget);
    var s := |blocks| - |Tail(blocks, budget)|;
    if s > 0 {
      GrownSuffixUnfit(blocks, s - 1, line, budget);
    }
  }

  lemma BytesAddLine(blocks: seq<ContextLine>, line: ContextLine)
    requires KeepsSize(blocks, line)
    ensures Bytes(blocks) <= Bytes(AddLine(blocks, line)) && |blocks| <= |AddLine(blocks, line)|
  {
    if Continues(blocks, line) {
      var init, last := blocks[..|blocks| - 1], blocks[|blocks| - 1];
      assert blocks == init + [last];
      assert AddLine(blocks, line) == init + [Merge(last, line.text)];
      BytesSnoc(init, last);
      BytesSnoc(init, Merge(last, line.text));
    } else {
      BytesSnoc(blocks, line);
    }
  }

  /** A suffix that did not fit before a size-keeping line does not fit after it. */
  lemma GrownSuffixUnfit(blocks: seq<ContextLine>, k: nat, line: ContextLine, budget: nat)
    requires k < |blocks| && KeepsSize(blocks, line)
    requires !FitsFrom(blocks, k, budget)
    ensures |blocks| <= |AddLine(blocks, line)|
    ensures !FitsFrom(AddLine(blocks, line), k, budget)
  {
    AddLineSuffix(blocks[k..], blocks, line);
    BytesAddLine(blocks[k..], line);
  }

  /** No line of the scene shrank the block it joined. */
  predicate NeverShrinks(lines: seq<ContextLine>) {
    lines == [] ||
    (NeverShrinks(lines[..|lines| - 1]) && KeepsSize(Grouping(lines[..|lines| - 1]), lines[|lines| - 1]))
  }

  /** Tidy lines never shrink a block. */
  lemma {:induction false} TidyNeverShrinks(lines: seq<ContextLine>)
    requires TidyLines(lines)
    ensures NeverShrinks(lines)
  {
    if lines != [] {
      var front, line := lines[..|lines| - 1], lines[|lines| - 1];
      TidyNeverShrinks(front);
      GroupingKeepsText(front);
    }
  }

  /** The queue as the bot keeps it: grouped and trimmed line by line. */
  function OnlineQueue(lines: seq<ContextLine>, budget: nat): seq<ContextLine> {
    if lines == [] then []
    else Tail(AddLine(OnlineQueue(lines[..|lines| - 1], budget), lines[|lines| - 1]), budget)
  }

  lemma OnlineQueueSnoc(lines: seq<ContextLine>, line: ContextLine, budget: nat)
    ensures OnlineQueue(lines + [line], budget) == Tail(AddLine(OnlineQueue(lines, budget), line), budget)
  {
    assert (lines + [line])[..|lines|] == lines;
  }

  /** Whatever the lines, the queue is a suffix of the untrimmed scene, within budget and cap,
      that keeps the newest block and keeps posers apart. */
  lemma {:induction false} OnlineQueueIsSuffix(lines: seq<ContextLine>, budget: nat)
    ensures IsSuffix(OnlineQueue(lines, budget), Grouping(lines))
    ensures OnlineQueue(lines, budget) == [] <==> lines == []
    ensures Fits(OnlineQueue(lines, budget), budget)
    ensures NoAdjacentSamePoser(OnlineQueue(lines, budget))
  {
    if lines != [] {
      var front, line := lines[..|lines| - 1], lines[|lines| - 1];
      var q := OnlineQueue(front, budget);
      OnlineQueueIsSuffix(front, budget);
      AddLineSuffix(q, Grouping(front), line);
      TailIsLongest(AddLine(q, line), budget);
      SuffixOfSuffix(OnlineQueue(lines, budget), AddLine(q, line), Grouping(lines));
      GroupingSeparatesPosers(lines);
      SuffixSeparatesPosers(OnlineQueue(lines, budget), Grouping(lines));
    }
  }

  lemma SuffixOfSuffix(a: seq<ContextLine>, b: seq<ContextLine>, c: seq<ContextLine>)
    requires IsSuffix(a, b) && IsSuffix(b, c)
    ensures IsSuffix(a, c)
  {
    assert c[|c| - |b|..][|b| - |a|..] == c[|c| - |a|..];
  }

  lemma SuffixSeparatesPosers(q: seq<ContextLine>, blocks: seq<ContextLine>)
    requires IsSuffix(q, blocks) && NoAdjacentSamePoser(blocks)
    ensures NoAdjacentSamePoser(q)
  {
    var s := |blocks| - |q|;
    forall i | 0 < i < |q|
      ensures !SamePoser(q[i - 1], q[i].speaker, q[i].dbref)
    {
      assert q[i] == blocks[s + i] && q[i - 1] == blocks[s + i - 1];
    }
  }

  /** Trimming line by line equals trimming the never-trimmed scene once, when no line shrinks
      a block; tidy lines never do. */
  lemma {:induction false} OnlineEqualsOffline(lines: seq<ContextLine>, budget: nat)
    requires NeverShrinks(lines)
    ensures OnlineQueue(lines, budget) == Tail(Grouping(lines), budget)
  {
    if lines != [] {
      OnlineEqualsOffline(lines[..|lines| - 1], budget);
      OnlineTrim(Grouping(lines[..|lines| - 1]), lines[|lines| - 1], budget);
    }
  }

  /** That, at every line of the scene. */
  predicate StaysUnfit(lines: seq<ContextLine>, budget: nat) {
    lines == [] ||
    (StaysUnfit(lines[..|lines| - 1], budget)
     && DroppedStaysUnfit(Grouping(lines[..|lines| - 1]), lines[|lines| - 1], budget))
  }

  /** After every line of the scene so far the queue was the trimmed scene. */
  predicate InStep(lines: seq<ContextLine>, budget: nat) {
    lines == [] ||
    (InStep(lines[..|lines| - 1], budget) && OnlineQueue(lines, budget) == Tail(Grouping(lines), budget))
  }

  /** Exactly when that holds of a whole scene, whatever its lines. */
  lemma {:induction false} InStepExactly(lines: seq<ContextLine>, budget: nat)
    ensures InStep(lines, budget) <==> StaysUnfit(lines, budget)
    ensures InStep(lines, budget) ==> OnlineQueue(lines, budget) == Tail(Grouping(lines), budget)
  {
    if lines != [] {
      var front, line := lines[..|lines| - 1], lines[|lines| - 1];
      InStepExactly(front, budget);
      OnlineTrimStep(Grouping(front), line, budget);
    }
  }

  /** A white-space line can shrink a block, and then the queue lacks a block that fits again. */
  lemma ShrinkingLine()
    ensures exists lines, budget :: OnlineQueue(lines, budget) != Tail(Grouping(lines), budget)
  {
    var a := ContextLine("A", "#1", "say", "a");
    var b := ContextLine("B", "#2", "say", "x  ");
    var c := ContextLine("B", "#2", "say", "");
    var lines := [a, b, c];
    var b' := ContextLine("B", "#2", "say", "x");
    ShrinkingMerge(b, b');
    assert lines[..2] == [a, b] && lines[..2][..1] == [a] && [a][..0] == [];
    assert Grouping([a]) == [a] && Grouping([a, b]) == [a, b];
    assert Grouping(lines) == [a, b'];
    TwoBlocks(a, b');
    TwoBlocks(a, b);
    assert OnlineQueue([a], 2) == [a];
    assert Tail([a, b], 2) == Tail([b], 2);
    assert OnlineQueue([a, b], 2) == [b];
    assert OnlineQueue(lines, 2) == [b'];
  }

  lemma TwoBlocks(a: ContextLine, b: ContextLine)
    ensures Bytes([a, b]) == |a.text| + |b.text|
    ensures [a, b][1..] == [b]
  {
    assert [a, b][1..] == [b];
    assert Bytes([b]) == |b.text| + Bytes([b][1..]);
  }

  lemma ShrinkingMerge(b: ContextLine, b': ContextLine)
    requires b.text == "x  " && b' == b.(text := "x")
    ensures Merge(b, "") == b'
  {
    var t := "x" + "  \n";
    assert Stack(b.text, "") == t;
    StripAppendSpace("x", "  \n");
    StripTidy("x");
  }
}
