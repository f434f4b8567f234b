/** Splitting a stream into lines: `replace("\r\n", "\n").split("\n")`, and what it yields. */
module Lines {

  /** `s.replace("\r\n", "\n")`. */
  function ReplaceCrLf(s: string): string {
    if s == [] then []
    else if |s| >= 2 && s[0] == '\r' && s[1] == '\n' then ['\n'] + ReplaceCrLf(s[2..])
    else [s[0]] + ReplaceCrLf(s[1..])
  }

  /** `s.split("\n")`, from the front. */
  function Split(s: string): (r: seq<string>)
    ensures r != []
  {
    if s == [] then [[]]
    else
      var rest := Split(s[1..]);
      if s[0] == '\n' then [[]] + rest else [[s[0]] + rest[0]] + rest[1..]
  }

  /** A line without its carriage return. */
  function DropCr(line: string): string {
    if line != [] && line[|line| - 1] == '\r' then line[..|line| - 1] else line
  }

  /** A reader of one character at a time: the lines so far, and the partial line. */
  datatype Reading = Reading(lines: seq<string>, rest: string)

  const NOTHING := Reading([], [])

  function Feed(r: Reading, c: char): Reading {
    if c == '\n' then Reading(r.lines + [DropCr(r.rest)], []) else Reading(r.lines, r.rest + [c])
  }

  function Read(r: Reading, s: string): Reading
    decreases |s|
  {
    if s == [] then r else Read(Feed(r, s[0]), s[1..])
  }

  /** Reading on from where a stream was cut. */
  lemma {:induction false} ReadOn(r: Reading, a: string, b: string)
    ensures Read(r, a + b) == Read(Read(r, a), b)
    decreases |a|
  {
    if a == [] {
      assert a + b == b;
    } else {
      assert (a + b)[1..] == a[1..] + b;
      ReadOn(Feed(r, a[0]), a[1..], b);
    }
  }

  /** Lines already complete stay in front. */
  lemma {:induction false} LinesInFront(lines: seq<string>, rest: string, s: string)
    ensures Read(Reading(lines, rest), s).lines == lines + Read(Reading([], rest), s).lines
    ensures Read(Reading(lines, rest), s).rest == Read(Reading([], rest), s).rest
    decreases |s|
  {
    if s != [] {
      if s[0] == '\n' {
        var line := [DropCr(rest)];
        LinesInFront(lines + line, [], s[1..]);
        LinesInFront(line, [], s[1..]);
        assert [] + line == line;
        assert (lines + line) + Read(NOTHING, s[1..]).lines == lines + (line + Read(NOTHING, s[1..]).lines);
      } else {
        LinesInFront(lines, rest + [s[0]], s[1..]);
      }
    }
  }

  lemma {:induction false} ReadPlain(r: Reading, s: string)
    requires '\n' !in s
    ensures Read(r, s) == Reading(r.lines, r.rest + s)
    decreases |s|
  {
    if s != [] {
      ReadPlain(Feed(r, s[0]), s[1..]);
      assert r.rest + [s[0]] + s[1..] == r.rest + s;
    }
  }

  lemma {:induction false} RestIsPlain(r: Reading, s: string)
    requires '\n' !in r.rest
    ensures '\n' !in Read(r, s).rest
    decreases |s|
  {
    if s != [] {
      RestIsPlain(Feed(r, s[0]), s[1..]);
    }
  }

  /** The partial line can be read again in front of what comes next. */
  lemma Reread(s: string, b: string)
    ensures
      var r := Read(NOTHING, s);
      var more := Read(NOTHING, r.rest + b);
      Read(NOTHING, s + b) == Reading(r.lines + more.lines, more.rest)
  {
    var r := Read(NOTHING, s);
    ReadOn(NOTHING, s, b);
    RestIsPlain(NOTHING, s);
    ReadOn(NOTHING, r.rest, b);
    ReadPlain(NOTHING, r.rest);
    assert [] + r.rest == r.rest;
    LinesInFront(r.lines, r.rest, b);
  }

  // ----- the code's replace-and-split computes exactly that

  lemma {:induction false} SplitCons(line: string, tail: string)
    requires '\n' !in line
    ensures Split(line + ['\n'] + tail) == [line] + Split(tail)
  {
    var s := line + ['\n'] + tail;
    if line == [] {
      assert s[1..] == tail;
    } else {
      assert s[1..] == line[1..] + ['\n'] + tail;
      SplitCons(line[1..], tail);
      assert [line[0]] + line[1..] == line;
    }
  }

  lemma {:induction false} SplitWhole(s: string)
    requires '\n' !in s
    ensures Split(s) == [s]
  {
    if s != [] {
      SplitWhole(s[1..]);
      assert [s[0]] + s[1..] == s;
    }
  }

  lemma {:induction false} ReplaceNone(s: string)
    requires '\n' !in s
    ensures ReplaceCrLf(s) == s
  {
    if s != [] {
      ReplaceNone(s[1..]);
      assert [s[0]] + s[1..] == s;
    }
  }

  lemma {:induction false} ReplaceCons(line: string, tail: string)
    requires '\n' !in line
    ensures ReplaceCrLf(line + ['\n'] + tail) == DropCr(line) + ['\n'] + ReplaceCrLf(tail)
  {
    var s := line + ['\n'] + tail;
    if line == [] {
      assert s[1..] == tail;
      assert s[0] == '\n';
    } else {
      assert s[1..] == line[1..] + ['\n'] + tail;
      if line == ['\r'] {
        assert s[2..] == tail;
      } else {
        assert s[1] == if |line| > 1 then line[1] else '\n';
        ReplaceCons(line[1..], tail);
      }
    }
  }

  /** Replacing and splitting gives the reader's lines, then its partial line. */
  lemma {:induction false} SplitLinesFrom(rest: string, s: string)
    requires '\n' !in rest
    ensures var r := Read(Reading([], rest), s); Split(ReplaceCrLf(rest + s)) == r.lines + [r.rest]
    decreases |s|
  {
    if s == [] {
      assert rest + s == rest;
      ReplaceNone(rest);
      SplitWhole(rest);
    } else if s[0] == '\n' {
      assert rest + s == rest + ['\n'] + s[1..];
      ReplaceCons(rest, s[1..]);
      SplitCons(DropCr(rest), ReplaceCrLf(s[1..]));
      assert [] + s[1..] == s[1..];
      SplitLinesFrom([], s[1..]);
      LinesInFront([DropCr(rest)], [], s[1..]);
      assert [] + [DropCr(rest)] == [DropCr(rest)];
      assert [DropCr(rest)] + (Read(NOTHING, s[1..]).lines + [Read(NOTHING, s[1..]).rest])
          == ([DropCr(rest)] + Read(NOTHING, s[1..]).lines) + [Read(NOTHING, s[1..]).rest];
    } else {
      assert rest + s == rest + [s[0]] + s[1..];
      SplitLinesFrom(rest + [s[0]], s[1..]);
    }
  }

  lemma SplitLines(s: string)
    ensures Split(ReplaceCrLf(s)) == Read(NOTHING, s).lines + [Read(NOTHING, s).rest]
  {
    assert [] + s == s;
    SplitLinesFrom([], s);
  }

  // ----- what a sender writes is read back line by line

  /** Lines as the connection sends them. */
  function Sent(lines: seq<string>): string {
    if lines == [] then [] else Sent(lines[..|lines| - 1]) + (lines[|lines| - 1] + ['\r', '\n'])
  }

  lemma ReadEnd(r: Reading)
    ensures Read(r, ['\n']) == Reading(r.lines + [DropCr(r.rest)], [])
  {
    assert ['\n'][1..] == [];
  }

  lemma ReadOneSent(r: Reading, line: string)
    requires '\n' !in line && r.rest == []
    ensures Read(r, line + ['\r', '\n']) == Reading(r.lines + [line], [])
  {
    assert line + ['\r', '\n'] == (line + ['\r']) + ['\n'];
    ReadOn(r, line + ['\r'], ['\n']);
    ReadPlain(r, line + ['\r']);
    assert [] + (line + ['\r']) == line + ['\r'];
    ReadEnd(Reading(r.lines, line + ['\r']));
  }

  lemma {:induction false} SentIsRead(lines: seq<string>)
    requires forall i :: 0 <= i < |lines| ==> '\n' !in lines[i]
    ensures Read(NOTHING, Sent(lines)) == Reading(lines, [])
  {
    if lines != [] {
      var front, line := lines[..|lines| - 1], lines[|lines| - 1];
      SentIsRead(front);
      ReadOn(NOTHING, Sent(front), line + ['\r', '\n']);
      ReadOneSent(Reading(front, []), line);
      assert front + [line] == lines;
    }
  }
}
