/** The telnet connection's reader and sender (cricket/mush/connection.py). */
module Connections {
  import opened Wrappers
  import T = Text
  import Telnet
  import opened Lines

  // ----- reading

  /** One read: the partial line and the chunk are stripped together, then split. */
  function ReadChunk(r: Reading, chunk: string): Reading {
    var more := Read(NOTHING, Telnet.Strip(r.rest + chunk));
    Reading(r.lines + more.lines, more.rest)
  }

  function ReadChunks(r: Reading, chunks: seq<string>): Reading {
    if chunks == [] then r
    else ReadChunk(ReadChunks(r, chunks[..|chunks| - 1]), chunks[|chunks| - 1])
  }

  function Concat(chunks: seq<string>): string {
    if chunks == [] then [] else Concat(chunks[..|chunks| - 1]) + chunks[|chunks| - 1]
  }

  /** Reading a stream in one go. */
  function ReadWhole(stream: string): Reading {
    Read(NOTHING, Telnet.Strip(stream))
  }

  /** `text.replace("\r", "\n")`. */
  function CrToLf(text: string): string {
    if text == [] then [] else [if text[0] == '\r' then '\n' else text[0]] + CrToLf(text[1..])
  }

  /** The collapsed command line that `send` writes. */
  function OneLine(text: string): string {
    T.Strip(T.Join(" ", Split(CrToLf(text))))
  }

  /** `encode("latin-1", "replace")`. */
  function Encode(text: string): string {
    if text == [] then [] else [if text[0] <= '\U{00FF}' then text[0] else '?'] + Encode(text[1..])
  }

  /** What one await of a read brings: the chunk, and whether `close()` ran meanwhile. */
  datatype Arrival = Arrival(chunk: string, closed: bool)

  function Chunks(arrivals: seq<Arrival>): seq<string> {
    if arrivals == [] then [] else Chunks(arrivals[..|arrivals| - 1]) + [arrivals[|arrivals| - 1].chunk]
  }

  /** Reading the first `n` of them. */
  function ReadUpTo(r: Reading, arrivals: seq<Arrival>, n: nat): Reading
    requires n <= |arrivals|
  {
    if n == 0 then r else ReadChunk(ReadUpTo(r, arrivals, n - 1), arrivals[n - 1].chunk)
  }

  lemma {:induction false} ReadsChunks(r: Reading, arrivals: seq<Arrival>, n: nat)
    requires n <= |arrivals|
    ensures ReadUpTo(r, arrivals, n) == ReadChunks(r, Chunks(arrivals[..n]))
  {
    if n > 0 {
      ReadsChunks(r, arrivals, n - 1);
      assert arrivals[..n][..n - 1] == arrivals[..n - 1];
    }
  }

  class Connection {
    var buffer: string
    var outq: Option<seq<string>>   // None while disconnected
    var closing: bool
    ghost var delivered: seq<string>   // the lines passed to on_line

    constructor ()
      ensures buffer == [] && delivered == [] && outq == None && !closing
    {
      buffer, outq, closing, delivered := [], None, false, [];
    }

    /** `on_line`, for each line. */
    method Deliver(lines: seq<string>)
      modifies `delivered
      ensures delivered == old(delivered) + lines
    {
      for i := 0 to |lines|
        invariant delivered == old(delivered) + lines[..i]
      {
        delivered := delivered + [lines[i]];
      }
      assert lines[..|lines|] == lines;
    }

    /** `_dispatch_lines`. */
    method DispatchLines(data: string) returns (remainder: string)
      modifies `delivered
      ensures Reading(delivered, remainder) ==
        Reading(old(delivered) + ReadWhole(data).lines, ReadWhole(data).rest)
    {
      var cleaned := Telnet.StripTelnet(data);
      SplitLines(cleaned);
      var parts := Split(ReplaceCrLf(cleaned));
      var complete := parts[..|parts| - 1];
      Deliver(complete);
      remainder := parts[|parts| - 1];
    }

    method ReadOne(chunk: string)
      modifies `buffer, `delivered
      ensures Reading(delivered, buffer) == ReadChunk(Reading(old(delivered), old(buffer)), chunk)
    {
      buffer := buffer + chunk;
      buffer := DispatchLines(buffer);
    }

    /** `_read_loop` over what the socket gives, up to an empty read. `close()` may run during any
        read; that read's chunk is still dispatched. A partial line left by an earlier connection is
        still there when it starts. `n` counts the chunks dispatched. */
    method ReadLoop(arrivals: seq<Arrival>) returns (n: nat)
      modifies `buffer, `delivered, `closing
      ensures n <= |arrivals| && (old(closing) ==> n == 0)
      ensures forall i :: 0 <= i < n ==> arrivals[i].chunk != []
      ensures forall i :: 0 <= i < n - 1 ==> !arrivals[i].closed
      ensures n < |arrivals| ==> arrivals[n].chunk == [] || if n == 0 then old(closing) else arrivals[n - 1].closed
      ensures closing <==>
        (if n == 0 then old(closing) else arrivals[n - 1].closed) || (n < |arrivals| && arrivals[n].closed)
      ensures Reading(delivered, buffer) == ReadChunks(Reading(old(delivered), old(buffer)), Chunks(arrivals[..n]))
    {
      ghost var start := Reading(delivered, buffer);
      n := 0;
      while !closing && n < |arrivals| && arrivals[n].chunk != []
        invariant n <= |arrivals|
        invariant forall i :: 0 <= i < n ==> arrivals[i].chunk != []
        invariant forall i :: 0 <= i < n - 1 ==> !arrivals[i].closed
        invariant closing == if n == 0 then old(closing) else arrivals[n - 1].closed
        invariant old(closing) ==> n == 0
        invariant Reading(delivered, buffer) == ReadUpTo(start, arrivals, n)
      {
        closing := arrivals[n].closed;
        ReadOne(arrivals[n].chunk);
        n := n + 1;
      }
      ReadsChunks(start, arrivals, n);
      if !closing && n < |arrivals| {
        closing := arrivals[n].closed;
      }
    }

    /** `send`: one queued command per call; dropped when there is no connection. */
    method Send(text: string)
      modifies `outq
      ensures outq ==
        if old(outq).None? || closing then old(outq)
        else Some(old(outq).value + [Wire(text) + ['\r', '\n']])
      ensures var line := T.Strip(Flatten(text));
        old(outq).Some? && !closing ==> outq == Some(old(outq).value + [Printed(line) + ['\r', '\n']])
    {
      WirePrinted(text);
      if outq.None? || closing {
        return;
      }
      outq := Some(outq.value + [Encode(OneLine(text)) + ['\r', '\n']]);
    }

    /** What a run of sends leaves in the queue, written out, is the wire form of the texts. */
    method SendAll(texts: seq<string>)
      requires outq == Some([]) && !closing
      modifies `outq
      ensures outq.Some? && Concat(outq.value) == Sent(Wires(texts))
    {
      assert texts[..0] == [];
      for i := 0 to |texts|
        invariant outq.Some? && Concat(outq.value) == Sent(Wires(texts[..i]))
      {
        ghost var queued := outq.value;
        Send(texts[i]);
        assert outq.value[..|queued|] == queued;
        SentSnoc(texts, i);
      }
      assert texts[..|texts|] == texts;
    }
  }

  // ----- chunking

  lemma {:induction false} RestOf(r: Reading, s: string, c: char)
    requires c !in r.rest && c !in s
    ensures c !in Read(r, s).rest
    decreases |s|
  {
    if s != [] {
      RestOf(Feed(r, s[0]), s[1..], c);
    }
  }

  /** No cut falls inside a telnet command, and no cut leaves an IAC in the partial line. */
  predicate SafeCuts(chunks: seq<string>) {
    chunks == [] ||
    (SafeCuts(chunks[..|chunks| - 1])
     && Telnet.Whole(Concat(chunks[..|chunks| - 1]))
     && Telnet.IAC !in ReadWhole(Concat(chunks[..|chunks| - 1])).rest)
  }

  lemma NextChunk(stream: string, chunk: string)
    requires Telnet.Whole(stream) && Telnet.IAC !in ReadWhole(stream).rest
    ensures ReadChunk(ReadWhole(stream), chunk) == ReadWhole(stream + chunk)
  {
    var r := ReadWhole(stream);
    Telnet.StripPlain(r.rest);
    Telnet.StripAppend(r.rest, chunk);
    Telnet.StripAppend(stream, chunk);
    Reread(Telnet.Strip(stream), Telnet.Strip(chunk));
  }

  /** Chunking independence: with safe cuts the reader delivers, and keeps, what it would from
      the whole stream read at once. */
  lemma {:induction false} ChunkingIndependent(chunks: seq<string>)
    requires SafeCuts(chunks)
    ensures ReadChunks(NOTHING, chunks) == ReadWhole(Concat(chunks))
  {
    if chunks != [] {
      ChunkingIndependent(chunks[..|chunks| - 1]);
      NextChunk(Concat(chunks[..|chunks| - 1]), chunks[|chunks| - 1]);
    }
  }

  predicate AllWhole(chunks: seq<string>) {
    forall i :: 0 <= i < |chunks| ==> Telnet.Whole(chunks[i])
  }

  lemma ConcatSnoc(chunks: seq<string>, last: string)
    ensures Concat(chunks + [last]) == Concat(chunks) + last
    ensures SafeCuts(chunks + [last]) <==>
      SafeCuts(chunks) && Telnet.Whole(Concat(chunks)) && Telnet.IAC !in ReadWhole(Concat(chunks)).rest
  {
    assert (chunks + [last])[..|chunks|] == chunks;
  }

  lemma {:induction false} ConcatWhole(chunks: seq<string>)
    requires AllWhole(chunks)
    ensures Telnet.Whole(Concat(chunks))
  {
    if chunks != [] {
      ConcatWhole(chunks[..|chunks| - 1]);
      Telnet.StripAppend(Concat(chunks[..|chunks| - 1]), chunks[|chunks| - 1]);
    }
  }

  /** The same, said of the chunks: each but the last ends at a command boundary, and there is
      no escaped IAC before the last. */
  lemma {:induction false} WholeChunksAreSafe(front: seq<string>, last: string)
    requires AllWhole(front) && Telnet.NoEscape(Concat(front))
    ensures SafeCuts(front + [last])
    decreases |front|
  {
    ConcatSnoc(front, last);
    ConcatWhole(front);
    Telnet.StripClean(Concat(front));
    RestOf(NOTHING, Telnet.Strip(Concat(front)), Telnet.IAC);
    if front != [] {
      var init, mid := front[..|front| - 1], front[|front| - 1];
      assert front == init + [mid];
      ConcatSnoc(init, mid);
      ConcatWhole(init);
      Telnet.StripAppend(Concat(init), mid);
      WholeChunksAreSafe(init, mid);
    }
  }

  predicate RightWith(r: Reading, stream: string, chunk: string) {
    ReadChunk(r, chunk) == ReadWhole(stream + chunk)
  }

  /** The next read is right, whatever it brings. */
  ghost predicate RightAfter(r: Reading, stream: string) {
    forall chunk :: RightWith(r, stream, chunk)
  }

  /** The next read is right, whatever it brings, exactly when the reads so far end at a command
      boundary and leave no IAC in the partial line. An escaped IAC left there is taken for a
      command, and the rest of a command that was cut for text. */
  lemma NextReadIsRight(stream: string)
    ensures Telnet.Whole(stream) && Telnet.IAC !in ReadWhole(stream).rest <==> RightAfter(ReadWhole(stream), stream)
  {
    if !Telnet.Whole(stream) {
      CommandCut(stream);
      assert !RightWith(ReadWhole(stream), stream, ['A']);
    } else if Telnet.IAC in ReadWhole(stream).rest {
      EscapeLost(stream);
      assert !RightWith(ReadWhole(stream), stream, ['A']);
    } else {
      forall chunk
        ensures RightWith(ReadWhole(stream), stream, chunk)
      {
        NextChunk(stream, chunk);
      }
    }
  }

  /** After a cut inside a command an ordinary character is text to the reader, not to the whole. */
  lemma CommandCut(stream: string)
    requires !Telnet.Whole(stream)
    ensures ReadChunk(ReadWhole(stream), ['A']) != ReadWhole(stream + ['A'])
  {
    Telnet.CutSwallows(stream, 'A');
    RestIsPlain(NOTHING, Telnet.Strip(stream));
    if Telnet.IAC in ReadWhole(stream).rest {
      EscapeReread(ReadWhole(stream));
    } else {
      PlainReread(ReadWhole(stream));
    }
  }

  lemma PlainReread(r: Reading)
    requires Telnet.IAC !in r.rest && '\n' !in r.rest
    ensures ReadChunk(r, ['A']) != r
  {
    var s := r.rest + ['A'];
    Telnet.StripPlain(s);
    assert [] + s == s;
    ReadPlain(NOTHING, s);
    assert |ReadChunk(r, ['A']).rest| == |r.rest| + 1;
  }

  lemma EscapeReread(r: Reading)
    requires Telnet.IAC in r.rest
    ensures ReadChunk(r, ['A']) != r
  {
    var s := r.rest + ['A'];
    var more := Read(NOTHING, Telnet.Strip(s));
    ReadCounts(Telnet.IAC, NOTHING, Telnet.Strip(s));
    StripHalves(s);
    CountAppend(Telnet.IAC, r.rest, ['A']);
    CountIn(Telnet.IAC, ['A']);
    CountIn(Telnet.IAC, r.rest);
    assert Count(Telnet.IAC, more.rest) < Count(Telnet.IAC, r.rest);
  }

  /** Each half is needed: a read that ends after an IAC, and one that ends after an escaped IAC. */
  lemma CutsThatFail()
    ensures !Telnet.Whole(['a', Telnet.IAC]) && Telnet.IAC !in ReadWhole(['a', Telnet.IAC]).rest
    ensures ReadChunk(ReadWhole(['a', Telnet.IAC]), ['A']) != ReadWhole(['a', Telnet.IAC] + ['A'])
    ensures Telnet.Whole([Telnet.IAC, Telnet.IAC]) && Telnet.IAC in ReadWhole([Telnet.IAC, Telnet.IAC]).rest
    ensures ReadChunk(ReadWhole([Telnet.IAC, Telnet.IAC]), ['A']) != ReadWhole([Telnet.IAC, Telnet.IAC] + ['A'])
  {
    var cut, escaped := ['a', Telnet.IAC], [Telnet.IAC, Telnet.IAC];
    assert cut[1..] == [Telnet.IAC] && [Telnet.IAC][1..] == [] && ['a'][1..] == [];
    assert Telnet.Strip([Telnet.IAC]) == [] + Telnet.Strip([]);
    assert Telnet.Strip(cut) == ['a'] + [];
    assert ReadWhole(cut) == Read(NOTHING, ['a']) == Reading([], [] + ['a']);
    CommandCut(cut);
    assert escaped[2..] == [];
    assert Telnet.Strip(escaped) == [Telnet.IAC] + [];
    assert ReadWhole(escaped) == Read(NOTHING, [Telnet.IAC]) == Reading([], [] + [Telnet.IAC]);
    EscapeLost(escaped);
  }

  /** At every cut, whatever the next read had brought, it would have been read right. */
  ghost predicate RobustCuts(chunks: seq<string>) {
    chunks == [] ||
    (RobustCuts(chunks[..|chunks| - 1])
     && RightAfter(ReadChunks(NOTHING, chunks[..|chunks| - 1]), Concat(chunks[..|chunks| - 1])))
  }

  /** The safe cuts are those. */
  lemma {:induction false} SafeCutsExactly(chunks: seq<string>)
    ensures RobustCuts(chunks) <==> SafeCuts(chunks)
  {
    if chunks != [] {
      var front := chunks[..|chunks| - 1];
      SafeCutsExactly(front);
      if SafeCuts(front) {
        ChunkingIndependent(front);
        NextReadIsRight(Concat(front));
      }
    }
  }

  lemma EscapeLost(stream: string)
    requires Telnet.Whole(stream) && Telnet.IAC in ReadWhole(stream).rest
    ensures Telnet.Whole(['A'])
    ensures ReadChunk(ReadWhole(stream), ['A']) != ReadWhole(stream + ['A'])
  {
    var r := ReadWhole(stream);
    Telnet.StripPlain(['A']);
    Telnet.StripAppend(stream, ['A']);
    ReadOn(NOTHING, Telnet.Strip(stream), ['A']);
    ReadPlain(r, ['A']);
    var again := Telnet.Strip(r.rest + ['A']);
    Telnet.StripShrinks(r.rest + ['A']);
    assert Telnet.IAC in r.rest + ['A'];
    RestLength(NOTHING, again);
  }

  lemma {:induction false} RestLength(r: Reading, s: string)
    ensures |Read(r, s).rest| <= |r.rest| + |s|
    decreases |s|
  {
    if s != [] {
      RestLength(Feed(r, s[0]), s[1..]);
    }
  }

  // ----- a partial line left by an earlier connection

  /** A new connection that finds this partial line delivers the lines it would if it found none. */
  predicate SameLines(lines: seq<string>, buffer: string, chunks: seq<string>) {
    ReadChunks(Reading(lines, buffer), chunks).lines == ReadChunks(Reading(lines, []), chunks).lines
  }

  /** What the read loop dispatches: it stops at an empty read. */
  predicate Arrived(chunks: seq<string>) {
    [] !in chunks
  }

  /** A new connection's lines are right, whatever arrives, exactly when the partial line it finds
      is telnet commands alone, each of them complete. */
  lemma LeftoverIsHarmless(lines: seq<string>, buffer: string)
    ensures Telnet.Whole(buffer) && Telnet.Strip(buffer) == [] <==>
      forall chunks :: Arrived(chunks) ==> SameLines(lines, buffer, chunks)
  {
    if Telnet.Whole(buffer) && Telnet.Strip(buffer) == [] {
      forall chunks | Arrived(chunks)
        ensures SameLines(lines, buffer, chunks)
      {
        SameReading(lines, buffer, chunks);
      }
    } else if ReadWhole(buffer).lines != [] {
      LinesAppear(lines, buffer);
    } else if Telnet.Whole(buffer) {
      LeftoverJoins(lines, buffer);
    } else {
      LineEndLost(lines, buffer);
    }
  }

  lemma {:induction false} SameReading(lines: seq<string>, buffer: string, chunks: seq<string>)
    requires Telnet.Whole(buffer) && Telnet.Strip(buffer) == []
    ensures SameLines(lines, buffer, chunks)
    ensures chunks != [] ==> ReadChunks(Reading(lines, buffer), chunks) == ReadChunks(Reading(lines, []), chunks)
  {
    if chunks != [] {
      var front, chunk := chunks[..|chunks| - 1], chunks[|chunks| - 1];
      SameReading(lines, buffer, front);
      if front == [] {
        Telnet.StripAppend(buffer, chunk);
        assert [] + Telnet.Strip(chunk) == Telnet.Strip(chunk);
        assert [] + chunk == chunk;
      }
    }
  }

  /** One chunk that makes a difference. */
  lemma Differs(lines: seq<string>, buffer: string, chunk: string)
    requires chunk != [] && ReadWhole(buffer + chunk).lines != ReadWhole(chunk).lines
    ensures Arrived([chunk]) && !SameLines(lines, buffer, [chunk])
  {
    assert [chunk][..0] == [] && [] + chunk == chunk;
    var more, anew := ReadWhole(buffer + chunk).lines, ReadWhole(chunk).lines;
    assert ReadChunks(Reading(lines, buffer), [chunk]).lines == lines + more;
    assert ReadChunks(Reading(lines, []), [chunk]).lines == lines + anew;
    assert (lines + more)[|lines|..] == more && (lines + anew)[|lines|..] == anew;
  }

  /** It holds whole lines. */
  lemma LinesAppear(lines: seq<string>, buffer: string)
    requires ReadWhole(buffer).lines != []
    ensures exists chunks :: Arrived(chunks) && !SameLines(lines, buffer, chunks)
  {
    Telnet.StripPlain(['A']);
    ReadPlain(NOTHING, ['A']);
    ReadPlain(ReadWhole(buffer), ['A']);
    if Telnet.Whole(buffer) {
      Telnet.StripAppend(buffer, ['A']);
      ReadOn(NOTHING, Telnet.Strip(buffer), ['A']);
    } else {
      Telnet.CutSwallows(buffer, 'A');
    }
    Differs(lines, buffer, ['A']);
  }

  /** It is stuck in front of the first line. */
  lemma LeftoverJoins(lines: seq<string>, buffer: string)
    requires Telnet.Whole(buffer) && Telnet.Strip(buffer) != [] && ReadWhole(buffer).lines == []
    ensures exists chunks :: Arrived(chunks) && !SameLines(lines, buffer, chunks)
  {
    var text, chunk := Telnet.Strip(buffer), ['A', '\n'];
    Telnet.StripPlain(chunk);
    Telnet.StripAppend(buffer, chunk);
    LineOf(text);
    LineOf([]);
    assert [] + chunk == chunk && [] + ['A'] == ['A'];
    assert [text + ['A']][0] != [['A']][0];
    Differs(lines, buffer, chunk);
  }

  lemma LineOf(text: string)
    requires Read(NOTHING, text).lines == []
    ensures Read(NOTHING, text + ['A', '\n']).lines == [text + ['A']]
  {
    var part := Reading([], text + ['A']);
    assert text + ['A', '\n'] == text + ['A'] + ['\n'];
    ReadOn(NOTHING, text + ['A'], ['\n']);
    ReadOn(NOTHING, text, ['A']);
    NoLinesYet(NOTHING, text);
    ReadPlain(Read(NOTHING, text), ['A']);
    assert [] + text == text;
    ReadEnd(part);
  }

  /** Without a complete line everything read is in the partial line. */
  lemma {:induction false} NoLinesYet(r: Reading, s: string)
    requires Read(r, s).lines == []
    ensures Read(r, s).rest == r.rest + s && r.lines == []
    decreases |s|
  {
    if s != [] {
      NoLinesYet(Feed(r, s[0]), s[1..]);
    }
  }

  /** It swallows the first line end. */
  lemma LineEndLost(lines: seq<string>, buffer: string)
    requires !Telnet.Whole(buffer) && ReadWhole(buffer).lines == []
    ensures exists chunks :: Arrived(chunks) && !SameLines(lines, buffer, chunks)
  {
    Telnet.CutSwallows(buffer, '\n');
    Telnet.StripPlain(['\n']);
    ReadEnd(NOTHING);
    Differs(lines, buffer, ['\n']);
  }

  // ----- sending and reading back

  /** Carriage returns and newlines become spaces. */
  function Flatten(text: string): string {
    if text == [] then [] else [if text[0] == '\r' || text[0] == '\n' then ' ' else text[0]] + Flatten(text[1..])
  }

  /** Splitting at line ends and joining with spaces replaces each line end by a space. */
  lemma {:induction false} JoinIsFlatten(text: string)
    ensures T.Join(" ", Split(CrToLf(text))) == Flatten(text)
  {
    if text != [] {
      JoinIsFlatten(text[1..]);
      var c, rest := CrToLf(text)[0], Split(CrToLf(text[1..]));
      assert CrToLf(text)[1..] == CrToLf(text[1..]);
      if c == '\n' {
        assert ([[]] + rest)[1..] == rest;
        assert [] + " " + T.Join(" ", rest) == [' '] + T.Join(" ", rest);
      } else {
        T.JoinHead(" ", [c], rest);
      }
    }
  }

  lemma {:induction false} FlattenHasNoLineEnd(text: string)
    ensures '\n' !in Flatten(text) && '\r' !in Flatten(text)
    ensures |Flatten(text)| == |text|
    ensures forall i :: 0 <= i < |text| ==> Flatten(text)[i] == if text[i] in "\r\n" then ' ' else text[i]
  {
    if text != [] {
      FlattenHasNoLineEnd(text[1..]);
    }
  }

  lemma {:induction false} EncodePlain(text: string, c: char)
    requires c !in text && c != '?'
    ensures c !in Encode(text)
  {
    if text != [] {
      EncodePlain(text[1..], c);
    }
  }

  /** What one `send` puts on the wire, its line ending aside. */
  function Wire(text: string): string {
    Encode(OneLine(text))
  }

  /** A line as the server gets it: "?" for what Latin-1 does not have. */
  function Printed(line: string): string {
    seq(|line|, i requires 0 <= i < |line| => if line[i] as int > 255 then '?' else line[i])
  }

  lemma {:induction false} EncodeIsPrinted(line: string)
    ensures Encode(line) == Printed(line)
    ensures Count(Telnet.IAC, Printed(line)) == Count(Telnet.IAC, line)
  {
    if line != [] {
      EncodeIsPrinted(line[1..]);
      assert Printed(line)[1..] == Printed(line[1..]);
    }
  }

  /** One command is the flattened, stripped text. */
  lemma WirePrinted(text: string)
    ensures Wire(text) == Printed(T.Strip(Flatten(text)))
    ensures var line := T.Strip(Flatten(text));
      |Wire(text)| == |line| &&
      forall i :: 0 <= i < |line| ==> Wire(text)[i] == if line[i] as int <= 255 then line[i] else '?'
  {
    JoinIsFlatten(text);
    EncodeIsPrinted(OneLine(text));
  }

  /** Each send is one command line. */
  lemma WireIsOneLine(text: string)
    ensures '\n' !in Wire(text) && '\r' !in Wire(text)
  {
    JoinIsFlatten(text);
    FlattenHasNoLineEnd(text);
    T.StripSubset(Flatten(text), '\n');
    T.StripSubset(Flatten(text), '\r');
    EncodePlain(OneLine(text), '\n');
    EncodePlain(OneLine(text), '\r');
  }

  function Wires(texts: seq<string>): seq<string> {
    seq(|texts|, i requires 0 <= i < |texts| => Wire(texts[i]))
  }

  lemma WiresAt(texts: seq<string>)
    ensures |Wires(texts)| == |texts|
    ensures forall i :: 0 <= i < |texts| ==> Wires(texts)[i] == Wire(texts[i])
  {
  }

  lemma SentSnoc(texts: seq<string>, i: nat)
    requires i < |texts|
    ensures Sent(Wires(texts[..i + 1])) == Sent(Wires(texts[..i])) + (Wire(texts[i]) + ['\r', '\n'])
  {
    var wires := Wires(texts[..i + 1]);
    assert wires[..i] == Wires(texts[..i]) && wires[i] == Wire(texts[i]);
  }

  lemma {:induction false} SentPlain(lines: seq<string>)
    requires forall i :: 0 <= i < |lines| ==> Telnet.IAC !in lines[i]
    ensures Telnet.IAC !in Sent(lines)
  {
    if lines != [] {
      SentPlain(lines[..|lines| - 1]);
    }
  }

  lemma {:induction false} PlainIsSafe(chunks: seq<string>)
    requires Telnet.IAC !in Concat(chunks)
    ensures SafeCuts(chunks)
  {
    if chunks != [] {
      var front := Concat(chunks[..|chunks| - 1]);
      assert Concat(chunks) == front + chunks[|chunks| - 1];
      assert Telnet.IAC !in front;
      PlainIsSafe(chunks[..|chunks| - 1]);
      Telnet.StripPlain(front);
      RestOf(NOTHING, front, Telnet.IAC);
    }
  }

  lemma {:induction false} LinesReadBack(lines: seq<string>, chunks: seq<string>)
    requires Concat(chunks) == Sent(lines)
    requires forall i :: 0 <= i < |lines| ==> '\n' !in lines[i]
    requires forall i :: 0 <= i < |lines| ==> Telnet.IAC !in lines[i]
    ensures ReadChunks(NOTHING, chunks) == Reading(lines, [])
  {
    SentPlain(lines);
    PlainIsSafe(chunks);
    ChunkingIndependent(chunks);
    Telnet.StripPlain(Sent(lines));
    SentIsRead(lines);
  }

  lemma WiresAreLines(texts: seq<string>)
    ensures forall i :: 0 <= i < |Wires(texts)| ==> '\n' !in Wires(texts)[i]
  {
    WiresAt(texts);
    forall i | 0 <= i < |Wires(texts)|
      ensures '\n' !in Wires(texts)[i]
    {
      WireIsOneLine(texts[i]);
    }
  }

  /** Round trip: what any sends queued, cut into chunks anywhere, is read back as exactly the
      collapsed lines, one per send, in order. */
  lemma {:induction false} SendReadBack(texts: seq<string>, chunks: seq<string>)
    requires Concat(chunks) == Sent(Wires(texts))
    requires forall i :: 0 <= i < |texts| ==> Telnet.IAC !in Wire(texts[i])
    ensures ReadChunks(NOTHING, chunks) == Reading(Wires(texts), [])
  {
    WiresAt(texts);
    WiresAreLines(texts);
    LinesReadBack(Wires(texts), chunks);
  }

  // ----- and only then

  function Count(c: char, s: string): nat {
    if s == [] then 0 else (if s[0] == c then 1 else 0) + Count(c, s[1..])
  }

  lemma {:induction false} CountAppend(c: char, a: string, b: string)
    ensures Count(c, a + b) == Count(c, a) + Count(c, b)
  {
    if a == [] {
      assert a + b == b;
    } else {
      assert (a + b)[1..] == a[1..] + b;
      CountAppend(c, a[1..], b);
    }
  }

  lemma {:induction false} CountIn(c: char, s: string)
    ensures Count(c, s) > 0 <==> c in s
  {
    if s != [] {
      CountIn(c, s[1..]);
    }
  }

  /** Stripping needs two IACs to leave one. */
  lemma {:induction false} StripHalves(d: string)
    ensures 2 * Count(Telnet.IAC, Telnet.Strip(d)) <= Count(Telnet.IAC, d)
    decreases |d|
  {
    if d != [] {
      var t, tail := Telnet.First(d), d[Telnet.First(d).len..];
      StripHalves(tail);
      CountAppend(Telnet.IAC, t.text, Telnet.Strip(tail));
      assert d == d[..t.len] + tail;
      CountAppend(Telnet.IAC, d[..t.len], tail);
      FirstHalves(d);
    }
  }

  lemma FirstHalves(d: string)
    requires d != []
    ensures 2 * Count(Telnet.IAC, Telnet.First(d).text) <= Count(Telnet.IAC, d[..Telnet.First(d).len])
  {
    var t := Telnet.First(d);
    if t.text == [Telnet.IAC] {
      assert d[..2] == [Telnet.IAC] + [Telnet.IAC];
      CountAppend(Telnet.IAC, [Telnet.IAC], [Telnet.IAC]);
    }
    assert t.text != [] ==> t.text[1..] == [];
  }

  function CountLines(c: char, lines: seq<string>): nat {
    if lines == [] then 0 else CountLines(c, lines[..|lines| - 1]) + Count(c, lines[|lines| - 1])
  }

  function CountReading(c: char, r: Reading): nat {
    CountLines(c, r.lines) + Count(c, r.rest)
  }

  lemma FeedCounts(c: char, r: Reading, b: char)
    requires c != '\r' && c != '\n'
    ensures CountReading(c, Feed(r, b)) == CountReading(c, r) + Count(c, [b])
  {
    assert [b][1..] == [];
    if b == '\n' {
      var line := DropCr(r.rest);
      assert (r.lines + [line])[..|r.lines|] == r.lines;
      if line != r.rest {
        assert r.rest == line + ['\r'];
        CountAppend(c, line, ['\r']);
        assert ['\r'][1..] == [];
      }
    } else {
      CountAppend(c, r.rest, [b]);
    }
  }

  lemma {:induction false} ReadCounts(c: char, r: Reading, s: string)
    requires c != '\r' && c != '\n'
    ensures CountReading(c, Read(r, s)) == CountReading(c, r) + Count(c, s)
    decreases |s|
  {
    if s != [] {
      FeedCounts(c, r, s[0]);
      ReadCounts(c, Feed(r, s[0]), s[1..]);
      assert s == [s[0]] + s[1..];
      CountAppend(c, [s[0]], s[1..]);
    }
  }

  lemma {:induction false} SentCounts(lines: seq<string>)
    ensures Count(Telnet.IAC, Sent(lines)) == CountLines(Telnet.IAC, lines)
  {
    if lines != [] {
      var line := lines[|lines| - 1];
      SentCounts(lines[..|lines| - 1]);
      CountAppend(Telnet.IAC, Sent(lines[..|lines| - 1]), line + ['\r', '\n']);
      CountAppend(Telnet.IAC, line, ['\r', '\n']);
      CountIn(Telnet.IAC, ['\r', '\n']);
    }
  }

  lemma {:induction false} LinesWithout(lines: seq<string>)
    requires CountLines(Telnet.IAC, lines) == 0
    ensures forall i :: 0 <= i < |lines| ==> Telnet.IAC !in lines[i]
  {
    if lines != [] {
      LinesWithout(lines[..|lines| - 1]);
      CountIn(Telnet.IAC, lines[|lines| - 1]);
    }
  }

  /** The round trip needs the texts to hold no code point 0xFF: `send` does not escape it. */
  lemma ReadBackOnlyPlain(texts: seq<string>)
    ensures (forall i :: 0 <= i < |texts| ==> Telnet.IAC !in Wire(texts[i])) <==>
      forall chunks :: Concat(chunks) == Sent(Wires(texts)) ==> ReadChunks(NOTHING, chunks) == Reading(Wires(texts), [])
  {
    if forall i :: 0 <= i < |texts| ==> Telnet.IAC !in Wire(texts[i]) {
      forall chunks | Concat(chunks) == Sent(Wires(texts))
        ensures ReadChunks(NOTHING, chunks) == Reading(Wires(texts), [])
      {
        SendReadBack(texts, chunks);
      }
    } else {
      var wire := Sent(Wires(texts));
      OneChunk(wire);
      if ReadChunks(NOTHING, [wire]) == Reading(Wires(texts), []) {
        LinesLost(Wires(texts), Wires(texts));
        WiresAt(texts);
      }
    }
  }

  function Shown(texts: seq<string>): seq<string> {
    seq(|texts|, i requires 0 <= i < |texts| => T.Strip(Flatten(texts[i])))
  }

  /** Only code points below 0xFF. */
  predicate Latin(line: string) {
    forall i :: 0 <= i < |line| ==> line[i] as int < 255
  }

  lemma {:induction false} SameCounts(a: seq<string>, b: seq<string>)
    requires |a| == |b| && forall i :: 0 <= i < |a| ==> Count(Telnet.IAC, a[i]) == Count(Telnet.IAC, b[i])
    ensures CountLines(Telnet.IAC, a) == CountLines(Telnet.IAC, b)
  {
    if a != [] {
      SameCounts(a[..|a| - 1], b[..|b| - 1]);
    }
  }

  lemma ShownCounts(texts: seq<string>)
    ensures CountLines(Telnet.IAC, Shown(texts)) == CountLines(Telnet.IAC, Wires(texts))
  {
    WiresAt(texts);
    forall i | 0 <= i < |texts|
      ensures Count(Telnet.IAC, Shown(texts)[i]) == Count(Telnet.IAC, Wires(texts)[i])
    {
      WirePrinted(texts[i]);
      EncodeIsPrinted(Shown(texts)[i]);
    }
    SameCounts(Shown(texts), Wires(texts));
  }

  lemma LatinIsPrinted(line: string)
    ensures Printed(line) == line <==> forall i :: 0 <= i < |line| ==> line[i] as int <= 255
  {
    if Printed(line) == line {
      assert forall i :: 0 <= i < |line| ==> Printed(line)[i] == line[i];
    }
  }

  /** What sends queued, cut anywhere, is read back as the texts, flattened and stripped, exactly when
      these hold only code points below 0xFF. */
  lemma SentIsShownExactly(texts: seq<string>)
    ensures (forall i :: 0 <= i < |texts| ==> Latin(Shown(texts)[i])) <==>
      forall chunks :: Concat(chunks) == Sent(Wires(texts)) ==> ReadChunks(NOTHING, chunks) == Reading(Shown(texts), [])
  {
    WiresAt(texts);
    forall i | 0 <= i < |texts|
      ensures Wires(texts)[i] == Printed(Shown(texts)[i])
      ensures Telnet.IAC in Wire(texts[i]) ==> !Latin(Shown(texts)[i])
    {
      WirePrinted(texts[i]);
      LatinIsPrinted(Shown(texts)[i]);
    }
    if forall i :: 0 <= i < |texts| ==> Latin(Shown(texts)[i]) {
      ShownReadBack(texts);
    } else {
      NotShown(texts);
    }
  }

  lemma ShownReadBack(texts: seq<string>)
    requires forall i :: 0 <= i < |texts| ==> Latin(Shown(texts)[i])
    ensures forall chunks :: Concat(chunks) == Sent(Wires(texts)) ==> ReadChunks(NOTHING, chunks) == Reading(Shown(texts), [])
  {
    WiresAt(texts);
    forall i | 0 <= i < |texts|
      ensures Wires(texts)[i] == Shown(texts)[i] && Telnet.IAC !in Wire(texts[i])
    {
      WirePrinted(texts[i]);
      assert Latin(Shown(texts)[i]);
      LatinIsPrinted(Shown(texts)[i]);
    }
    assert Wires(texts) == Shown(texts);
    forall chunks | Concat(chunks) == Sent(Wires(texts))
      ensures ReadChunks(NOTHING, chunks) == Reading(Shown(texts), [])
    {
      SendReadBack(texts, chunks);
    }
  }

  lemma NotShown(texts: seq<string>)
    requires exists i :: 0 <= i < |texts| && !Latin(Shown(texts)[i])
    ensures var wire := Sent(Wires(texts));
      exists chunks :: Concat(chunks) == wire && ReadChunks(NOTHING, chunks) != Reading(Shown(texts), [])
  {
    var wire := Sent(Wires(texts));
    OneChunk(wire);
    if ReadChunks(NOTHING, [wire]) == Reading(Shown(texts), []) {
      ShownCounts(texts);
      LinesLost(Wires(texts), Shown(texts));
      WiresAt(texts);
      SendReadBack(texts, [wire]);
      var i :| 0 <= i < |texts| && !Latin(Shown(texts)[i]);
      assert Wires(texts)[i] == Shown(texts)[i];
      PrintedIsLatin(texts[i]);
    }
  }

  /** Read in one go as these lines, the wire holds no 0xFF: two of them are read as one at most. */
  lemma LinesLost(wires: seq<string>, lines: seq<string>)
    requires ReadWhole(Sent(wires)) == Reading(lines, [])
    requires CountLines(Telnet.IAC, lines) == CountLines(Telnet.IAC, wires)
    ensures forall i :: 0 <= i < |wires| ==> Telnet.IAC !in wires[i]
  {
    ReadCounts(Telnet.IAC, NOTHING, Telnet.Strip(Sent(wires)));
    StripHalves(Sent(wires));
    SentCounts(wires);
    LinesWithout(wires);
  }

  lemma PrintedIsLatin(text: string)
    requires Wire(text) == T.Strip(Flatten(text)) && Telnet.IAC !in Wire(text)
    ensures Latin(T.Strip(Flatten(text)))
  {
    var line := T.Strip(Flatten(text));
    WirePrinted(text);
    LatinIsPrinted(line);
    assert forall i :: 0 <= i < |line| ==> line[i] != Telnet.IAC;
  }

  lemma OneChunk(wire: string)
    ensures Concat([wire]) == wire && ReadChunks(NOTHING, [wire]) == ReadWhole(wire)
  {
    assert [wire][..0] == [];
    assert Concat([]) + wire == wire;
    assert NOTHING.rest + wire == wire;
    assert NOTHING.lines + ReadWhole(wire).lines == ReadWhole(wire).lines;
  }
}
