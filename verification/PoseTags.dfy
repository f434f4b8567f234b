/** The pose tags shared by prompts and generations: rendering, scanning, parsing
    (tools/pose_xml.py). */
module PoseTags {
  import opened Wrappers
  import opened Text

  /** The clean-up of leaked markup, and the form in which names are compared. */
  datatype Rules = Rules(html: string -> string, norm: string -> string)

  datatype Tag = Tag(name: string, len: nat)

  /** Without both brackets there is no markup to clean up. */
  ghost predicate Proper(ru: Rules) {
    forall s :: '<' !in s || '>' !in s ==> ru.html(s) == s
  }

  datatype Row = Row(kind: string, actor: string, text: string)

  datatype Verdict = Ok | Puppet | Recovered | Empty

  function Clean(ru: Rules, text: string): string {
    Strip(ru.html(text))
  }

  // ----- rendering

  function OpenTag(actor: string): string {
    "<pose char=\"" + actor + "\">"
  }

  const CLOSE := "</pose>"

  function Pose(actor: string, text: string): string {
    OpenTag(actor) + text + CLOSE
  }

  predicate IsPose(r: Row) {
    r.kind == "pose" && Strip(r.actor) != ""
  }

  function RenderRow(ru: Rules, r: Row): string {
    var text := Clean(ru, r.text);
    if text == "" then ""
    else if IsPose(r) then Pose(Strip(r.actor), text)
    else if r.kind == "ooc" then "<ooc>" + text + "</ooc>"
    else "<narration>" + text + "</narration>"
  }

  function RenderRows(ru: Rules, rows: seq<Row>): seq<string> {
    if rows == [] then []
    else (if RenderRow(ru, rows[0]) == "" then [] else [RenderRow(ru, rows[0])]) + RenderRows(ru, rows[1..])
  }

  function RenderTarget(ru: Rules, actor: string, text: string): string {
    Pose(actor, Clean(ru, text))
  }

  /** A target pose, and a scene after it, one line each. */
  function Generation(ru: Rules, actor: string, text: string, rows: seq<Row>): string {
    Join("\n", [RenderTarget(ru, actor, text)] + RenderRows(ru, rows))
  }

  // ----- scanning

  predicate StartsWith(s: string, p: string) {
    |p| <= |s| && s[..|p|] == p
  }

  /** The length of the white space `s` starts with. */
  function Spaces(s: string): (n: nat)
    ensures n <= |s|
  {
    if s != [] && IsSpace(s[0]) then 1 + Spaces(s[1..]) else 0
  }

  /** The characters of `s` before the first `c`. */
  function Until(s: string, c: char): (n: nat)
    ensures n <= |s|
  {
    if s != [] && s[0] != c then 1 + Until(s[1..], c) else 0
  }

  /** The rest of an opening tag from the name on, `used` characters into it. */
  function NameAt(b: string, used: nat): (t: Option<Tag>)
    ensures t.Some? ==> 0 < t.value.len <= used + |b|
  {
    var q := Until(b, '"');
    if q == |b| then None
    else
      var c := b[q + 1..];
      var m := Spaces(c);
      if m < |c| && c[m] == '>' then Some(Tag(b[..q], used + q + m + 2)) else None
  }

  /** The opening pose tag `s` starts with. */
  function OpenAt(s: string): (t: Option<Tag>)
    ensures t.Some? ==> 0 < t.value.len <= |s|
  {
    if !StartsWith(s, "<pose") then None
    else
      var a := s[5..];
      var n := Spaces(a);
      if n == 0 || !StartsWith(a[n..], "char=\"") then None
      else NameAt(a[n + 6..], n + 11)
  }

  /** The length of the opening tag `s` starts with, 0 if there is none. */
  function TagLen(s: string): (n: nat)
    ensures n <= |s|
  {
    var t := OpenAt(s);
    if t.Some? && t.value.len <= |s| then t.value.len else 0
  }

  function TagName(s: string): string {
    var t := OpenAt(s);
    if t.Some? then t.value.name else ""
  }

  /** Where the first opening tag of another character is; the length of `s` if there is none. */
  function ForeignAt(ru: Rules, s: string, expected: string): (n: nat)
    ensures n <= |s|
    decreases |s|
  {
    if s == [] then 0
    else if TagLen(s) == 0 then 1 + ForeignAt(ru, s[1..], expected)
    else if ru.norm(TagName(s)) != ru.norm(expected) then 0
    else TagLen(s) + ForeignAt(ru, s[TagLen(s)..], expected)
  }

  /** The rest of `s` after its first opening tag. */
  function AfterOpen(s: string): Option<string> {
    if s == [] then None
    else if TagLen(s) > 0 then Some(s[TagLen(s)..])
    else AfterOpen(s[1..])
  }

  /** `s` up to the first closing tag. */
  function BeforeClose(s: string): string {
    if s == [] || StartsWith(s, CLOSE) then [] else [s[0]] + BeforeClose(s[1..])
  }

  /** The length of the pose tag fragment `s` starts with, 0 if there is none. */
  function FragmentAt(s: string): (n: nat)
    ensures n <= |s|
  {
    var k := if StartsWith(s, "<pose") then 5 else if StartsWith(s, "</pose") then 6 else 0;
    if k > 0 && k + Until(s[k..], '>') < |s| then k + Until(s[k..], '>') + 1 else 0
  }

  function DropFragments(s: string): string
    decreases |s|
  {
    if s == [] then []
    else if FragmentAt(s) > 0 then DropFragments(s[FragmentAt(s)..])
    else [s[0]] + DropFragments(s[1..])
  }

  // ----- parsing

  /** The pose text and the verdict of a generation that was cut at `cut`. */
  function ParsedCut(ru: Rules, s: string, cut: nat): (string, Verdict)
    requires cut <= |s|
  {
    var rest := AfterOpen(s[..cut]);
    var inner := if rest.Some? then BeforeClose(rest.value) else s[..cut];
    var text := Clean(ru, DropFragments(inner));
    if text == "" then ("", Empty)
    else (text, if cut < |s| then Puppet else if rest.Some? then Ok else Recovered)
  }

  function Parsed(ru: Rules, raw: string, expected: string): (string, Verdict) {
    var s := Strip(raw);
    ParsedCut(ru, s, ForeignAt(ru, s, expected))
  }

  /** The loop over the opening tags, which stops at the first foreign one. */
  method FindForeign(ru: Rules, s: string, expected: string) returns (cut: nat)
    ensures cut == ForeignAt(ru, s, expected)
  {
    cut := 0;
    var rest := s;
    while rest != []
      invariant cut + |rest| == |s|
      invariant ForeignAt(ru, s, expected) == cut + ForeignAt(ru, rest, expected)
      decreases |rest|
    {
      var n := TagLen(rest);
      if n > 0 && ru.norm(TagName(rest)) != ru.norm(expected) {
        return;
      }
      n := if n == 0 then 1 else n;
      cut, rest := cut + n, rest[n..];
    }
  }

  method ParseGeneration(ru: Rules, raw: string, expected: string) returns (text: string, verdict: Verdict)
    ensures (text, verdict) == Parsed(ru, raw, expected)
  {
    var s := Strip(raw);
    var cut := FindForeign(ru, s, expected);
    var puppeted := cut < |s|;
    s := s[..cut];
    var m := AfterOpen(s);
    var inner := s;
    if m.Some? {
      inner := BeforeClose(m.value);
    }
    inner := Clean(ru, DropFragments(inner));
    if inner == "" {
      return "", Empty;
    }
    return inner, if puppeted then Puppet else if m.Some? then Ok else Recovered;
  }

  // ----- scanning what was rendered

  lemma {:induction false} UntilPlain(a: string, c: char, s: string)
    requires c !in a
    ensures Until(a + [c] + s, c) == |a|
  {
    var all := a + [c] + s;
    if a == [] {
      assert all[0] == c;
    } else {
      assert all[0] == a[0] && all[1..] == a[1..] + [c] + s;
      UntilPlain(a[1..], c, s);
    }
  }

  lemma OpenRendered(actor: string, s: string)
    requires '"' !in actor
    ensures OpenAt(OpenTag(actor) + s) == Some(Tag(actor, |OpenTag(actor)|))
  {
    var all := OpenTag(actor) + s;
    var a := all[5..];
    assert all[..5] == "<pose";
    assert a == " char=\"" + actor + "\">" + s;
    var a' := a[1..];
    assert a'[0] == 'c' && a'[..6] == "char=\"";
    assert Spaces(a') == 0 && Spaces(a) == 1;
    assert a[7..] == actor + ['"'] + (">" + s);
    NameRendered(actor, s);
  }

  lemma NameRendered(actor: string, s: string)
    requires '"' !in actor
    ensures NameAt(actor + ['"'] + (">" + s), 12) == Some(Tag(actor, |actor| + 14))
  {
    var b := actor + ['"'] + (">" + s);
    UntilPlain(actor, '"', ">" + s);
    var c := b[|actor| + 1..];
    assert c == ">" + s && Spaces(c) == 0;
    assert b[..|actor|] == actor;
  }

  predicate NoPoseTag(s: string) {
    s != [] && (s[0] == '<' ==> |s| == 1 || s[1] != 'p')
  }

  lemma NotOpen(s: string)
    requires NoPoseTag(s)
    ensures OpenAt(s).None? && TagLen(s) == 0
  {
    assert !StartsWith(s, "<pose");
  }

  lemma {:induction false} SkipPlain(ru: Rules, p: string, s: string, expected: string)
    requires '<' !in p
    ensures ForeignAt(ru, p + s, expected) == |p| + ForeignAt(ru, s, expected)
  {
    if p == [] {
      assert p + s == s;
    } else {
      assert (p + s)[0] == p[0] && (p + s)[1..] == p[1..] + s;
      NotOpen(p + s);
      SkipPlain(ru, p[1..], s, expected);
    }
  }

  /** A tag other than an opening pose tag is passed over. */
  lemma SkipTag(ru: Rules, tag: string, s: string, expected: string)
    requires |tag| > 1 && tag[0] == '<' && tag[1] != 'p' && '<' !in tag[1..]
    ensures ForeignAt(ru, tag + s, expected) == |tag| + ForeignAt(ru, s, expected)
  {
    NotOpen(tag + s);
    assert (tag + s)[1..] == tag[1..] + s;
    SkipPlain(ru, tag[1..], s, expected);
  }

  lemma SkipWrapped(ru: Rules, open: string, text: string, close: string, s: string, expected: string)
    requires |open| > 1 && open[0] == '<' && open[1] != 'p' && '<' !in open[1..]
    requires |close| > 1 && close[0] == '<' && close[1] != 'p' && '<' !in close[1..]
    requires '<' !in text
    ensures ForeignAt(ru, open + text + close + s, expected) == |open + text + close| + ForeignAt(ru, s, expected)
  {
    assert open + text + close + s == open + (text + (close + s));
    SkipTag(ru, open, text + (close + s), expected);
    SkipToClose(ru, text, close, s, expected);
  }

  lemma SkipOoc(ru: Rules, text: string, s: string, expected: string)
    requires '<' !in text
    ensures var line := "<ooc>" + text + "</ooc>"; ForeignAt(ru, line + s, expected) == |line| + ForeignAt(ru, s, expected)
  {
    SkipWrapped(ru, "<ooc>", text, "</ooc>", s, expected);
  }

  lemma SkipNarration(ru: Rules, text: string, s: string, expected: string)
    requires '<' !in text
    ensures var line := "<narration>" + text + "</narration>";
      ForeignAt(ru, line + s, expected) == |line| + ForeignAt(ru, s, expected)
  {
    SkipWrapped(ru, "<narration>", text, "</narration>", s, expected);
  }

  lemma SkipToClose(ru: Rules, text: string, close: string, s: string, expected: string)
    requires '<' !in text
    requires |close| > 1 && close[0] == '<' && close[1] != 'p' && '<' !in close[1..]
    ensures ForeignAt(ru, text + (close + s), expected) == |text| + |close| + ForeignAt(ru, s, expected)
  {
    SkipPlain(ru, text, close + s, expected);
    SkipTag(ru, close, s, expected);
  }

  lemma AtTag(ru: Rules, open: string, name: string, rest: string, expected: string)
    requires open != [] && TagLen(open + rest) == |open| && TagName(open + rest) == name
    ensures ForeignAt(ru, open + rest, expected) ==
      if ru.norm(name) != ru.norm(expected) then 0 else |open| + ForeignAt(ru, rest, expected)
  {
    assert (open + rest)[|open|..] == rest;
  }

  lemma SkipOpened(ru: Rules, open: string, name: string, text: string, close: string, s: string, expected: string)
    requires open != [] && '<' !in text
    requires |close| > 1 && close[0] == '<' && close[1] != 'p' && '<' !in close[1..]
    requires var rest := text + (close + s); TagLen(open + rest) == |open| && TagName(open + rest) == name
    ensures ForeignAt(ru, open + text + close + s, expected) ==
      if ru.norm(name) != ru.norm(expected) then 0 else |open + text + close| + ForeignAt(ru, s, expected)
  {
    assert open + text + close + s == open + (text + (close + s));
    AtTag(ru, open, name, text + (close + s), expected);
    SkipToClose(ru, text, close, s, expected);
  }

  /** A rendered pose is passed over, or found, by its character's name. */
  lemma SkipPose(ru: Rules, actor: string, text: string, s: string, expected: string)
    requires '"' !in actor && '<' !in text
    ensures ForeignAt(ru, Pose(actor, text) + s, expected) ==
      if ru.norm(actor) != ru.norm(expected) then 0 else |Pose(actor, text)| + ForeignAt(ru, s, expected)
  {
    RenderedTag(actor, text + (CLOSE + s));
    SkipOpened(ru, OpenTag(actor), actor, text, CLOSE, s, expected);
  }

  lemma RenderedTag(actor: string, s: string)
    requires '"' !in actor
    ensures TagLen(OpenTag(actor) + s) == |OpenTag(actor)| && TagName(OpenTag(actor) + s) == actor
  {
    OpenRendered(actor, s);
  }

  /** A row whose text holds no bracket and whose actor holds no quote. */
  predicate Good(ru: Rules, r: Row) {
    '<' !in Clean(ru, r.text) && '"' !in Strip(r.actor)
  }

  /** A row rendered as the pose of another character. */
  predicate Foreign(ru: Rules, r: Row, expected: string) {
    IsPose(r) && Clean(ru, r.text) != "" && ru.norm(Strip(r.actor)) != ru.norm(expected)
  }

  lemma SkipRow(ru: Rules, r: Row, s: string, expected: string)
    requires Good(ru, r)
    ensures ForeignAt(ru, RenderRow(ru, r) + s, expected) ==
      if Foreign(ru, r, expected) then 0 else |RenderRow(ru, r)| + ForeignAt(ru, s, expected)
  {
    var text := Clean(ru, r.text);
    if text == "" {
      assert "" + s == s;
    } else if IsPose(r) {
      SkipPose(ru, Strip(r.actor), text, s, expected);
    } else if r.kind == "ooc" {
      SkipOoc(ru, text, s, expected);
    } else {
      SkipNarration(ru, text, s, expected);
    }
  }

  // ----- a pose and a scene

  /** The lines after the first. */
  function Lines(xs: seq<string>): string {
    if xs == [] then "" else "\n" + xs[0] + Lines(xs[1..])
  }

  lemma {:induction false} JoinIsLines(x: string, xs: seq<string>)
    ensures Join("\n", [x] + xs) == x + Lines(xs)
    decreases |xs|
  {
    assert ([x] + xs)[1..] == xs;
    if xs == [] {
      assert [x] + xs == [x];
    } else {
      JoinIsLines(xs[0], xs[1..]);
      assert xs == [xs[0]] + xs[1..];
      assert x + "\n" + (xs[0] + Lines(xs[1..])) == x + ("\n" + xs[0] + Lines(xs[1..]));
    }
  }

  /** The scan finds the first foreign pose of a scene. */
  lemma {:induction false} ScanScene(ru: Rules, rows: seq<Row>, expected: string)
    requires forall i :: 0 <= i < |rows| ==> Good(ru, rows[i])
    ensures var scene := Lines(RenderRows(ru, rows));
      ForeignAt(ru, scene, expected) < |scene| <==> exists i :: 0 <= i < |rows| && Foreign(ru, rows[i], expected)
  {
    if rows != [] {
      var r, rest := rows[0], rows[1..];
      var line, after := RenderRow(ru, r), Lines(RenderRows(ru, rest));
      ScanScene(ru, rest, expected);
      assert Good(ru, r);
      if line == "" {
        assert RenderRows(ru, rows) == RenderRows(ru, rest);
      } else {
        LinesCons(line, RenderRows(ru, rest));
        SkipPlain(ru, "\n", line + after, expected);
        SkipRow(ru, r, after, expected);
      }
      ForeignSplit(ru, rows, expected);
    }
  }

  lemma LinesCons(line: string, xs: seq<string>)
    ensures Lines([line] + xs) == "\n" + (line + Lines(xs))
  {
    assert ([line] + xs)[1..] == xs;
    assert "\n" + line + Lines(xs) == "\n" + (line + Lines(xs));
  }

  lemma ForeignSplit(ru: Rules, rows: seq<Row>, expected: string)
    requires rows != []
    ensures (exists i :: 0 <= i < |rows| && Foreign(ru, rows[i], expected)) <==>
      Foreign(ru, rows[0], expected) || exists i :: 0 <= i < |rows[1..]| && Foreign(ru, rows[1..][i], expected)
  {
    forall i | 0 < i < |rows|
      ensures rows[i] == rows[1..][i - 1]
    {
    }
  }

  lemma {:induction false} LinesEnd(ru: Rules, rows: seq<Row>)
    ensures var scene := Lines(RenderRows(ru, rows)); scene == "" || scene[|scene| - 1] == '>'
  {
    if rows != [] {
      LinesEnd(ru, rows[1..]);
      var line, xs := RenderRow(ru, rows[0]), RenderRows(ru, rows[1..]);
      if line == "" {
        assert RenderRows(ru, rows) == xs;
      } else {
        LinesCons(line, xs);
        assert line[|line| - 1] == '>';
      }
    }
  }

  lemma {:induction false} BeforeCloseOf(text: string, s: string)
    requires '<' !in text
    ensures BeforeClose(text + (CLOSE + s)) == text
  {
    var all := text + (CLOSE + s);
    if text == [] {
      assert all[..|CLOSE|] == CLOSE;
    } else {
      assert all[0] == text[0] && all[1..] == text[1..] + (CLOSE + s);
      assert !StartsWith(all, CLOSE) by {
        assert all[..|CLOSE|][0] == text[0];
      }
      BeforeCloseOf(text[1..], s);
    }
  }

  lemma {:induction false} NothingToDrop(s: string)
    requires '<' !in s
    ensures DropFragments(s) == s
  {
    if s != [] {
      assert FragmentAt(s) == 0 by {
        assert s[0] != '<';
        assert !StartsWith(s, "<pose") && !StartsWith(s, "</pose");
      }
      NothingToDrop(s[1..]);
    }
  }

  /** What is parsed from a text that starts with a rendered pose. */
  lemma ParsedPose(ru: Rules, actor: string, text: string, s: string, cut: nat)
    requires ru.html(text) == text
    requires '"' !in actor && '<' !in text && Strip(text) == text
    requires |Pose(actor, text)| <= cut <= |Pose(actor, text) + s|
    ensures ParsedCut(ru, Pose(actor, text) + s, cut) ==
      if text == "" then ("", Empty) else (text, if cut < |Pose(actor, text) + s| then Puppet else Ok)
  {
    var open, head := OpenTag(actor), Pose(actor, text);
    var t := s[..cut - |head|];
    assert (head + s)[..cut] == head + t;
    var rest := text + (CLOSE + t);
    assert head + t == open + rest;
    RenderedTag(actor, rest);
    OpenFirst(open, rest);
    BeforeCloseOf(text, t);
    NothingToDrop(text);
  }

  /** Parsing a rendered pose followed by any rendered scene returns the pose's text; the verdict
      is puppet exactly when the scene holds a pose of a character with another normalized name. */
  lemma OwnPoseReadBack(ru: Rules, actor: string, text: string, rows: seq<Row>, expected: string)
    requires Proper(ru) && ru.norm(actor) == ru.norm(expected)
    requires '"' !in actor && '<' !in Clean(ru, text)
    requires forall i :: 0 <= i < |rows| ==> Good(ru, rows[i])
    ensures var own := Clean(ru, text);
      var puppet := exists i :: 0 <= i < |rows| && Foreign(ru, rows[i], expected);
      Parsed(ru, Generation(ru, actor, text, rows), expected) ==
        if own == "" then ("", Empty) else (own, if puppet then Puppet else Ok)
  {
    var own := Clean(ru, text);
    var head, scene := Pose(actor, own), Lines(RenderRows(ru, rows));
    var raw := Generation(ru, actor, text, rows);
    JoinIsLines(head, RenderRows(ru, rows));
    LinesEnd(ru, rows);
    assert head[0] == '<' && head[|head| - 1] == '>';
    assert raw == head + scene && raw[0] == '<' && raw[|raw| - 1] == '>';
    StripTidy(raw);
    SkipPose(ru, actor, own, scene, expected);
    ScanScene(ru, rows, expected);
    StripResult(ru.html(text));
    StripTidy(own);
    ParsedPose(ru, actor, own, scene, ForeignAt(ru, raw, expected));
  }

  /** No opening pose tag can start in the text. */
  predicate NoOpening(s: string) {
    forall i :: 0 <= i < |s| - 1 && s[i] == '<' ==> s[i + 1] != 'p'
  }

  lemma {:induction false} NothingOpens(ru: Rules, s: string, expected: string)
    requires NoOpening(s)
    ensures AfterOpen(s) == None && ForeignAt(ru, s, expected) == |s|
  {
    if s != [] {
      NotOpen(s);
      assert forall i :: 0 <= i < |s| - 1 ==> s[1..][i] == s[i + 1];
      NothingOpens(ru, s[1..], expected);
    }
  }

  /** A generation without any tag is salvaged as it is, or found empty. */
  lemma BareText(ru: Rules, raw: string, expected: string)
    requires Proper(ru) && '<' !in raw
    ensures Parsed(ru, raw, expected) == if Strip(raw) == "" then ("", Empty) else (Strip(raw), Recovered)
  {
    var s := Strip(raw);
    StripSubset(raw, '<');
    NothingOpens(ru, s, expected);
    NothingToDrop(s);
    assert s[..|s|] == s;
    StripResult(raw);
    StripTidy(s);
  }

  /** One with a stray closing tag in its text loses the tag alone. */
  lemma StrayClosing(ru: Rules, a: string, b: string, expected: string)
    requires Proper(ru) && Tidy(a) && Tidy(b) && '<' !in a + b
    ensures Parsed(ru, a + "</pose>" + b, expected) == (a + b, Recovered)
  {
    var s := a + "</pose>" + b;
    AroundClose(a, b);
    NothingOpens(ru, s, expected);
    CloseGone(a, b);
    StripTidy(a + b);
    Salvaged(ru, s, a + b);
  }

  lemma AroundClose(a: string, b: string)
    requires Tidy(a) && Tidy(b) && '<' !in a + b
    ensures var s := a + "</pose>" + b; Strip(s) == s && NoOpening(s)
  {
    var s := a + "</pose>" + b;
    assert s[0] == a[0] && s[|s| - 1] == b[|b| - 1];
    StripTidy(s);
  }

  lemma CloseGone(a: string, b: string)
    requires '<' !in a && '<' !in b
    ensures DropFragments(a + "</pose>" + b) == a + b
  {
    assert a + "</pose>" + b == a + ("</pose>" + b);
    PlainKept(a, "</pose>" + b);
    CloseDropped(b);
    NothingToDrop(b);
  }

  lemma Salvaged(ru: Rules, s: string, text: string)
    requires AfterOpen(s) == None && DropFragments(s) == text && Clean(ru, text) == text != ""
    ensures ParsedCut(ru, s, |s|) == (text, Recovered)
  {
    assert s[..|s|] == s;
  }

  lemma CloseDropped(b: string)
    ensures DropFragments("</pose>" + b) == DropFragments(b)
  {
    FragmentDropped("</pose", "", b);
    assert "</pose" + "" + ">" + b == "</pose>" + b;
  }

  /** What starts as a pose tag is dropped up to its bracket, whatever is in it. */
  lemma FragmentDropped(tag: string, junk: string, b: string)
    requires tag == "<pose" || tag == "</pose"
    requires '>' !in junk
    ensures DropFragments(tag + junk + ">" + b) == DropFragments(b)
  {
    var s := tag + junk + ">" + b;
    var k := |tag|;
    assert s[..5] == tag[..5] && "</pose"[..5] == "</pos";
    assert s[..k] == tag && s[k..] == junk + ['>'] + b;
    UntilPlain(junk, '>', b);
    assert FragmentAt(s) == k + |junk| + 1;
    assert s[k + |junk| + 1..] == b;
  }

  /** Any white space is good in an opening tag, after `pose` and before the bracket; without some after
      `pose` it is no tag. */
  lemma OpenAnySpacing(gap: string, name: string, end: string, s: string)
    requires '"' !in name
    requires (forall i :: 0 <= i < |gap| ==> IsSpace(gap[i])) && forall i :: 0 <= i < |end| ==> IsSpace(end[i])
    ensures OpenAt("<pose" + (gap + ("char=\"" + (name + ['"'] + (end + (">" + s)))))) ==
      if gap == "" then None else Some(Tag(name, |gap| + |name| + |end| + 13))
  {
    AfterGap(gap, name + ['"'] + (end + (">" + s)));
    NameSpaced(name, end, s, |gap| + 11);
  }

  lemma AfterGap(gap: string, rest: string)
    requires forall i :: 0 <= i < |gap| ==> IsSpace(gap[i])
    ensures OpenAt("<pose" + (gap + ("char=\"" + rest))) == if gap == "" then None else NameAt(rest, |gap| + 11)
  {
    var key := "char=\"" + rest;
    var a := gap + key;
    var all := "<pose" + a;
    assert all[..5] == "<pose" && all[5..] == a;
    SpacesOf(gap, key);
    assert a[|gap|..] == key && key[..6] == "char=\"";
    assert a[|gap| + 6..] == rest;
  }

  lemma NameSpaced(name: string, end: string, s: string, used: nat)
    requires '"' !in name && forall i :: 0 <= i < |end| ==> IsSpace(end[i])
    ensures NameAt(name + ['"'] + (end + (">" + s)), used) == Some(Tag(name, used + |name| + |end| + 2))
  {
    var rest, after := name + ['"'] + (end + (">" + s)), end + (">" + s);
    UntilPlain(name, '"', after);
    assert rest[|name| + 1..] == after && rest[..|name|] == name;
    SpacesOf(end, ">" + s);
    assert after[|end|] == '>';
  }

  lemma {:induction false} SpacesOf(gap: string, s: string)
    requires (forall i :: 0 <= i < |gap| ==> IsSpace(gap[i])) && s != "" && !IsSpace(s[0])
    ensures Spaces(gap + s) == |gap|
  {
    if gap == "" {
      assert gap + s == s;
    } else {
      assert (gap + s)[1..] == gap[1..] + s;
      SpacesOf(gap[1..], s);
    }
  }

  /** How a row is tagged. */
  lemma RowTags(ru: Rules, kind: string, actor: string, text: string)
    requires Proper(ru) && Tidy(text) && '<' !in text
    ensures RenderRow(ru, Row(kind, actor, text)) ==
      if kind == "pose" && Strip(actor) != "" then "<pose char=\"" + Strip(actor) + "\">" + text + "</pose>"
      else if kind == "ooc" then "<ooc>" + text + "</ooc>"
      else "<narration>" + text + "</narration>"
  {
    StripTidy(text);
  }

  /** A pose cut anywhere after its opening tag, as at the token cap. */
  function Truncated(actor: string, text: string, n: nat): string
    requires n <= |text + CLOSE|
  {
    OpenTag(actor) + (text + CLOSE)[..n]
  }

  /** No closing tag, no fragment of a pose tag, no opening pose tag. */
  predicate Untagged(ru: Rules, s: string, expected: string) {
    BeforeClose(s) == s && DropFragments(s) == s && ForeignAt(ru, s, expected) == |s|
  }

  lemma ConsPlain(c: char, s: string)
    requires c != '<'
    ensures BeforeClose([c] + s) == [c] + BeforeClose(s)
    ensures DropFragments([c] + s) == [c] + DropFragments(s)
  {
    var all := [c] + s;
    assert all[0] == c && all[1..] == s;
    assert !StartsWith(all, "<pose") && !StartsWith(all, "</pose") && !StartsWith(all, CLOSE);
  }

  lemma {:induction false} PlainKept(s: string, tail: string)
    requires '<' !in s
    ensures BeforeClose(s + tail) == s + BeforeClose(tail)
    ensures DropFragments(s + tail) == s + DropFragments(tail)
  {
    if s == [] {
      assert s + tail == tail && s + BeforeClose(tail) == BeforeClose(tail);
    } else {
      var c, rest := s[0], s[1..] + tail;
      assert s + tail == [c] + rest;
      calc {
        BeforeClose([c] + rest);
        { ConsPlain(c, rest); }
        [c] + BeforeClose(rest);
        { PlainKept(s[1..], tail); }
        [c] + (s[1..] + BeforeClose(tail));
        { Shift(s, BeforeClose(tail)); }
        s + BeforeClose(tail);
      }
      calc {
        DropFragments([c] + rest);
        { ConsPlain(c, rest); }
        [c] + DropFragments(rest);
        { PlainKept(s[1..], tail); }
        [c] + (s[1..] + DropFragments(tail));
        { Shift(s, DropFragments(tail)); }
        s + DropFragments(tail);
      }
    }
  }

  lemma Shift(s: string, t: string)
    requires s != []
    ensures [s[0]] + (s[1..] + t) == s + t
  {
  }

  lemma PlainUntagged(ru: Rules, s: string, tail: string, expected: string)
    requires '<' !in s && Untagged(ru, tail, expected)
    ensures Untagged(ru, s + tail, expected)
  {
    PlainKept(s, tail);
    SkipPlain(ru, s, tail, expected);
  }

  lemma PartialCloseUntagged(ru: Rules, m: nat, expected: string)
    requires m < |CLOSE|
    ensures Untagged(ru, CLOSE[..m], expected)
  {
    var s := CLOSE[..m];
    assert Untagged(ru, [], expected);
    if m > 0 {
      var t := s[1..];
      assert '<' !in t;
      PlainUntagged(ru, t, [], expected);
      assert t + [] == t && s == [s[0]] + t;
      NotOpen(s);
      assert FragmentAt(s) == 0 && !StartsWith(s, CLOSE) by {
        assert !StartsWith(s, "<pose");
        assert s[|s| - 1] != '>';
        assert m == 6 ==> Until(s[6..], '>') == 0;
      }
    }
  }

  /** What is parsed from an opening tag and untagged text. */
  lemma ParsedOpen(ru: Rules, actor: string, s: string, expected: string)
    requires ru.norm(actor) == ru.norm(expected)
    requires '"' !in actor && Untagged(ru, s, expected)
    ensures var all := OpenTag(actor) + s;
      ParsedCut(ru, all, ForeignAt(ru, all, expected)) ==
        if Clean(ru, s) == "" then ("", Empty) else (Clean(ru, s), Ok)
  {
    RenderedTag(actor, s);
    ParsedAfter(ru, OpenTag(actor), actor, s, expected);
  }

  lemma {:induction false} ParsedAfter(ru: Rules, open: string, name: string, s: string, expected: string)
    requires open != [] && TagLen(open + s) == |open| && TagName(open + s) == name
    requires ru.norm(name) == ru.norm(expected)
    ensures Untagged(ru, s, expected) ==>
      ParsedCut(ru, open + s, ForeignAt(ru, open + s, expected)) ==
        if Clean(ru, s) == "" then ("", Empty) else (Clean(ru, s), Ok)
  {
    AtTag(ru, open, name, s, expected);
    OpenFirst(open, s);
    if Untagged(ru, s, expected) {
      ParsedWhole(ru, open + s, s);
    }
  }

  lemma ParsedWhole(ru: Rules, all: string, s: string)
    requires AfterOpen(all) == Some(s) && BeforeClose(s) == s && DropFragments(s) == s
    ensures ParsedCut(ru, all, |all|) == if Clean(ru, s) == "" then ("", Empty) else (Clean(ru, s), Ok)
  {
    assert all[..|all|] == all;
  }

  lemma OpenFirst(open: string, rest: string)
    requires open != [] && TagLen(open + rest) == |open|
    ensures AfterOpen(open + rest) == Some(rest)
  {
    assert (open + rest)[|open|..] == rest;
  }

  lemma {:induction false} RStripAfter(x: string, p: string)
    requires x != [] && !IsSpace(x[|x| - 1])
    ensures RStrip(x + p) == x + RStrip(p)
  {
    if p == [] {
      assert x + p == x;
    } else if IsSpace(p[|p| - 1]) {
      assert (x + p)[..|x + p| - 1] == x + p[..|p| - 1];
      RStripAfter(x, p[..|p| - 1]);
    }
  }

  /** A generation cut in the pose's text gives the text so far. One cut inside the closing tag
      gives the text and the part of the tag: that part is not recognised as markup. */
  lemma TruncatedReadBack(ru: Rules, actor: string, text: string, n: nat, expected: string)
    requires Proper(ru) && ru.norm(actor) == ru.norm(expected)
    requires '"' !in actor && '<' !in text && '>' !in text && Tidy(text)
    requires 0 < n < |text + CLOSE|
    ensures Parsed(ru, Truncated(actor, text, n), expected) ==
      (if n <= |text| then Strip(text[..n]) else text + CLOSE[..n - |text|], Ok)
  {
    var body := (text + CLOSE)[..n];
    var s := RStrip(body);
    BodyUntagged(ru, text, n, expected);
    StripAfterTag(actor, body);
    ParsedOpen(ru, actor, s, expected);
    assert n <= |text| ==> LStrip(text[..n]) == text[..n];
  }

  lemma StripAfterTag(actor: string, s: string)
    ensures Strip(OpenTag(actor) + s) == OpenTag(actor) + RStrip(s)
  {
    RStripAfter(OpenTag(actor), s);
  }

  /** Untagged text that is stripped. */
  predicate Bare(ru: Rules, s: string, expected: string) {
    s != [] && Untagged(ru, s, expected) && '>' !in s && Strip(s) == s
  }

  lemma PrefixBare(ru: Rules, text: string, n: nat, expected: string)
    requires '<' !in text && '>' !in text && Tidy(text)
    requires 0 < n <= |text|
    ensures Bare(ru, RStrip(text[..n]), expected)
  {
    var s := RStrip(text[..n]);
    RStripEnd(text[..n]);
    KeepsFirst(text[..n]);
    assert s == text[..|s|];
    assert Untagged(ru, [], expected);
    PlainUntagged(ru, s, [], expected);
    assert s + [] == s;
    StripTidy(s);
  }

  lemma PartialTidy(text: string, m: nat)
    requires '>' !in text && Tidy(text) && 0 < m < |CLOSE|
    ensures var s := text + CLOSE[..m]; '>' !in s && RStrip(s) == s && Strip(s) == s
  {
    var tail := CLOSE[..m];
    assert '>' !in tail && !IsSpace(tail[m - 1]);
    var s := text + tail;
    assert s[|s| - 1] == tail[m - 1];
    StripTidy(s);
  }

  lemma PartialBare(ru: Rules, text: string, m: nat, expected: string)
    requires '<' !in text && '>' !in text && Tidy(text)
    requires 0 < m < |CLOSE|
    ensures var s := text + CLOSE[..m]; RStrip(s) == s && Bare(ru, s, expected)
  {
    PartialCloseUntagged(ru, m, expected);
    PlainUntagged(ru, text, CLOSE[..m], expected);
    PartialTidy(text, m);
  }

  lemma BodyUntagged(ru: Rules, text: string, n: nat, expected: string)
    requires '<' !in text && '>' !in text && Tidy(text)
    requires 0 < n < |text + CLOSE|
    ensures var body := (text + CLOSE)[..n];
      && Bare(ru, RStrip(body), expected)
      && RStrip(body) == if n <= |text| then RStrip(text[..n]) else text + CLOSE[..n - |text|]
  {
    if n <= |text| {
      assert (text + CLOSE)[..n] == text[..n];
      PrefixBare(ru, text, n, expected);
    } else {
      assert (text + CLOSE)[..n] == text + CLOSE[..n - |text|];
      PartialBare(ru, text, n - |text|, expected);
    }
  }

  lemma {:induction false} KeepsFirst(s: string)
    requires s != [] && !IsSpace(s[0])
    ensures RStrip(s) != []
  {
    if IsSpace(s[|s| - 1]) {
      KeepsFirst(s[..|s| - 1]);
    }
  }
}
