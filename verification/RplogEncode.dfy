/** Encoding the physical lines of a block with %t and %r (tools/rplog_to_jsonl.py), and what the
    assembler's round-trip check makes of it. */
module RplogEncode {
  import opened Wrappers
  import opened Text
  import opened RplogMarkers

  /** What the clean-up rules make of one line: whether it is indented, and its text without
      markup, split at interior line breaks. */
  datatype Markup = Markup(indented: string -> bool, parts: string -> seq<string>)

  /** One segment: trimmed, marked if it opens an indented line, dropped if nothing is left. */
  function Piece(indent: bool, seg: string): seq<string> {
    var t := (if indent then "%t" else "") + Strip(seg);
    if t == "" then [] else [t]
  }

  function LinePieces(indented: bool, segs: seq<string>): seq<string> {
    if segs == [] then []
    else LinePieces(indented, segs[..|segs| - 1]) + Piece(indented && |segs| == 1, segs[|segs| - 1])
  }

  function Pieces(mk: Markup, raw: seq<string>): seq<string> {
    if raw == [] then []
    else
      var line := raw[|raw| - 1];
      Pieces(mk, raw[..|raw| - 1]) + LinePieces(mk.indented(line), mk.parts(line))
  }

  function Encoded(mk: Markup, raw: seq<string>): string {
    Join("%r", Pieces(mk, raw))
  }

  lemma LineSnoc(indented: bool, segs: seq<string>, i: nat)
    requires i < |segs|
    ensures LinePieces(indented, segs[..i + 1]) == LinePieces(indented, segs[..i]) + Piece(indented && i == 0, segs[i])
  {
    assert segs[..i + 1][..i] == segs[..i];
  }

  lemma PiecesSnoc(mk: Markup, raw: seq<string>, i: nat)
    requires i < |raw|
    ensures Pieces(mk, raw[..i + 1]) ==
      Pieces(mk, raw[..i]) + LinePieces(mk.indented(raw[i]), mk.parts(raw[i]))
  {
    assert raw[..i + 1][..i] == raw[..i];
  }

  /** The inner loop: the pieces of one line, added to `encoded`. */
  method AddLine(mk: Markup, line: string, encoded: seq<string>) returns (out: seq<string>)
    ensures out == encoded + LinePieces(mk.indented(line), mk.parts(line))
  {
    out := encoded;
    var indented := mk.indented(line);
    var segs := mk.parts(line);
    for i := 0 to |segs|
      invariant out == encoded + LinePieces(indented, segs[..i])
    {
      LineSnoc(indented, segs, i);
      Assoc(encoded, LinePieces(indented, segs[..i]), Piece(indented && i == 0, segs[i]));
      var seg := Strip(segs[i]);
      var prefix := if i == 0 && indented then "%t" else "";
      assert prefix + seg == "" <==> seg == "" && prefix == "";
      if seg != "" || prefix != "" {
        out := out + [prefix + seg];
      }
    }
    assert segs[..|segs|] == segs;
  }

  method EncodeBlock(mk: Markup, raw: seq<string>) returns (text: string)
    ensures text == Encoded(mk, raw)
  {
    var encoded := [];
    for i := 0 to |raw|
      invariant encoded == Pieces(mk, raw[..i])
    {
      PiecesSnoc(mk, raw, i);
      encoded := AddLine(mk, raw[i], encoded);
    }
    assert raw[..|raw|] == raw;
    text := Join("%r", encoded);
  }

  /** One line, of segments without white space at their ends: its segments joined by %r, after %t if
      the line is indented. */
  lemma EncodedLine(mk: Markup, line: string)
    requires mk.parts(line) != [] && forall i :: 0 <= i < |mk.parts(line)| ==> Tidy(mk.parts(line)[i])
    ensures Encoded(mk, [line]) == (if mk.indented(line) then "%t" else "") + Join("%r", mk.parts(line))
  {
    var segs, indented := mk.parts(line), mk.indented(line);
    assert [line][..0] == [];
    assert Pieces(mk, [line]) == [] + LinePieces(indented, segs) == LinePieces(indented, segs);
    SegmentPieces(indented, segs);
    JoinHead("%r", if indented then "%t" else "", segs);
  }

  lemma {:induction false} SegmentPieces(indented: bool, segs: seq<string>)
    requires segs != [] && forall i :: 0 <= i < |segs| ==> Tidy(segs[i])
    ensures LinePieces(indented, segs) == [(if indented then "%t" else "") + segs[0]] + segs[1..]
  {
    var front, seg := segs[..|segs| - 1], segs[|segs| - 1];
    assert Tidy(seg);
    StripTidy(seg);
    if front == [] {
      assert LinePieces(indented, front) == [] && segs[1..] == [];
    } else {
      SegmentPieces(indented, front);
      assert "" + seg == seg && segs[1..] == front[1..] + [seg];
    }
  }

  // ----- encoding a block is encoding its parts and joining them

  lemma {:induction false} PiecesAppend(mk: Markup, a: seq<string>, b: seq<string>)
    ensures Pieces(mk, a + b) == Pieces(mk, a) + Pieces(mk, b)
    decreases |b|
  {
    if b == [] {
      assert a + b == a;
    } else {
      var front, line := b[..|b| - 1], b[|b| - 1];
      var last := LinePieces(mk.indented(line), mk.parts(line));
      calc {
        Pieces(mk, a + b);
        { assert (a + b)[..|a + b| - 1] == a + front; }
        Pieces(mk, a + front) + last;
        { PiecesAppend(mk, a, front); }
        Pieces(mk, a) + Pieces(mk, front) + last;
        { Assoc(Pieces(mk, a), Pieces(mk, front), last); }
        Pieces(mk, a) + (Pieces(mk, front) + last);
        Pieces(mk, a) + Pieces(mk, b);
      }
    }
  }

  predicate NonEmpty(ss: seq<string>) {
    forall i :: 0 <= i < |ss| ==> ss[i] != ""
  }

  lemma {:induction false} LinePiecesNonEmpty(indented: bool, segs: seq<string>)
    ensures NonEmpty(LinePieces(indented, segs))
  {
    if segs != [] {
      LinePiecesNonEmpty(indented, segs[..|segs| - 1]);
    }
  }

  lemma {:induction false} PiecesNonEmpty(mk: Markup, raw: seq<string>)
    ensures NonEmpty(Pieces(mk, raw))
  {
    if raw != [] {
      var line := raw[|raw| - 1];
      PiecesNonEmpty(mk, raw[..|raw| - 1]);
      LinePiecesNonEmpty(mk.indented(line), mk.parts(line));
    }
  }

  lemma EmptyOnlyWithoutPieces(mk: Markup, raw: seq<string>)
    ensures Encoded(mk, raw) == "" <==> Pieces(mk, raw) == []
  {
    PiecesNonEmpty(mk, raw);
    var ps := Pieces(mk, raw);
    if ps != [] {
      assert ps[0] != "";
    }
  }

  /** The encoded text of two blocks run together. */
  function Glue(a: string, b: string): string {
    if a == "" then b else if b == "" then a else a + "%r" + b
  }

  /** Encoding distributes over any cut of a block. */
  lemma EncodeDistributes(mk: Markup, a: seq<string>, b: seq<string>)
    ensures Encoded(mk, a + b) == Glue(Encoded(mk, a), Encoded(mk, b))
  {
    PiecesAppend(mk, a, b);
    EmptyOnlyWithoutPieces(mk, a);
    EmptyOnlyWithoutPieces(mk, b);
    var pa, pb := Pieces(mk, a), Pieces(mk, b);
    if pa == [] {
      assert pa + pb == pb;
    } else if pb == [] {
      assert pa + pb == pa;
    } else {
      JoinAppend("%r", pa, pb);
    }
  }

  /** Joining texts, leaving out the empty ones. */
  lemma JoinGlue(ts: seq<string>, t: string)
    requires NonEmpty(ts)
    ensures Join("%r", ts + if t == "" then [] else [t]) == Glue(Join("%r", ts), t)
  {
    if t == "" {
      assert ts + [] == ts;
    } else if ts == [] {
      assert ts + [t] == [t];
    } else {
      JoinAppend("%r", ts, [t]);
      assert ts[0] != "";
    }
  }

  // ----- text without percent signs

  /** Every percent sign is part of a %t or %r marker. */
  predicate Marked(s: string) {
    s == [] || (Marked(s[1..]) && (s[0] == '%' ==> |s| >= 2 && (s[1] == 't' || s[1] == 'r')))
  }

  lemma {:induction false} PlainIsMarked(s: string)
    requires '%' !in s
    ensures Marked(s)
  {
    if s != [] {
      PlainIsMarked(s[1..]);
      assert s[0] in s;
    }
  }

  lemma {:induction false} MarkedAppend(a: string, b: string)
    requires Marked(a) && Marked(b)
    ensures Marked(a + b)
  {
    if a == [] {
      assert a + b == b;
    } else {
      MarkedAppend(a[1..], b);
      assert (a + b)[1..] == a[1..] + b;
    }
  }

  lemma {:induction false} MarkedNeverEndsPercent(s: string)
    requires Marked(s)
    ensures !EndsPercent(s)
  {
    if |s| > 1 {
      MarkedNeverEndsPercent(s[1..]);
    }
  }

  lemma {:induction false} RemoveKeepsMarked(s: string)
    requires Marked(s)
    ensures Marked(Remove(s, 't'))
    decreases |s|
  {
    if |s| >= 2 && s[0] == '%' && s[1] == 't' {
      assert s[1..][1..] == s[2..];
      RemoveKeepsMarked(s[2..]);
    } else if s != [] {
      RemoveKeepsMarked(s[1..]);
      var r := Remove(s[1..], 't');
      assert ([s[0]] + r)[1..] == r;
    }
  }

  predicate AllMarked(ps: seq<string>) {
    forall i :: 0 <= i < |ps| ==> Marked(ps[i])
  }

  lemma {:induction false} JoinMarked(ps: seq<string>)
    requires AllMarked(ps)
    ensures Marked(Join("%r", ps))
  {
    if |ps| > 1 {
      JoinMarked(ps[1..]);
      assert "%r"[1..] == "r" && "r"[1..] == [];
      MarkedAppend(ps[0], "%r");
      MarkedAppend(ps[0] + "%r", Join("%r", ps[1..]));
    }
  }

  lemma {:induction false} StripsStayPlain(s: string)
    requires '%' !in s
    ensures '%' !in LStrip(s) && '%' !in RStrip(s)
    decreases |s|
  {
    if s != [] {
      StripsStayPlain(s[1..]);
      StripsStayPlain(s[..|s| - 1]);
    }
  }

  lemma PieceMarked(indent: bool, seg: string)
    requires '%' !in seg
    ensures AllMarked(Piece(indent, seg))
  {
    StripsStayPlain(seg);
    StripsStayPlain(LStrip(seg));
    PlainIsMarked(Strip(seg));
    assert "%t"[1..] == "t" && "t"[1..] == [];
    MarkedAppend(if indent then "%t" else "", Strip(seg));
  }

  predicate Plain(segs: seq<string>) {
    forall i :: 0 <= i < |segs| ==> '%' !in segs[i]
  }

  lemma {:induction false} LineMarked(indented: bool, segs: seq<string>)
    requires Plain(segs)
    ensures AllMarked(LinePieces(indented, segs))
  {
    if segs != [] {
      LineMarked(indented, segs[..|segs| - 1]);
      assert segs[|segs| - 1] in segs;
      PieceMarked(indented && |segs| == 1, segs[|segs| - 1]);
    }
  }

  lemma {:induction false} PiecesMarked(mk: Markup, raw: seq<string>)
    requires forall i :: 0 <= i < |raw| ==> Plain(mk.parts(raw[i]))
    ensures AllMarked(Pieces(mk, raw))
  {
    if raw != [] {
      var line := raw[|raw| - 1];
      PiecesMarked(mk, raw[..|raw| - 1]);
      LineMarked(mk.indented(line), mk.parts(line));
    }
  }

  /** Encoded text whose parts hold no percent sign holds none outside markers. */
  lemma EncodedMarked(mk: Markup, raw: seq<string>)
    requires forall i :: 0 <= i < |raw| ==> Plain(mk.parts(raw[i]))
    ensures Marked(Encoded(mk, raw))
  {
    PiecesMarked(mk, raw);
    JoinMarked(Pieces(mk, raw));
  }

  lemma {:induction false} MarkedIsClean(ts: seq<string>, c: char)
    requires AllMarked(ts)
    ensures Clean(ts, c)
  {
    if ts != [] {
      MarkedNeverEndsPercent(ts[0]);
      MarkedIsClean(ts[1..], c);
    }
  }

  lemma {:induction false} RemoveEachMarked(ts: seq<string>)
    requires AllMarked(ts)
    ensures AllMarked(RemoveEach(ts, 't'))
  {
    if ts != [] {
      RemoveKeepsMarked(ts[0]);
      RemoveEachMarked(ts[1..]);
    }
  }
}
