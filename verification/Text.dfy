/** The Python string operations the bot relies on, on sequences of code points. */
module Text {

  /** The code points `str.strip()` treats as white space. */
  predicate IsSpace(c: char) {
    || '\U{0009}' <= c <= '\U{000D}'
    || '\U{001C}' <= c <= '\U{0020}'
    || c == '\U{0085}' || c == '\U{00A0}' || c == '\U{1680}'
    || '\U{2000}' <= c <= '\U{200A}'
    || c == '\U{2028}' || c == '\U{2029}' || c == '\U{202F}' || c == '\U{205F}' || c == '\U{3000}'
  }

  function LStrip(s: string): string {
    if s != [] && IsSpace(s[0]) then LStrip(s[1..]) else s
  }

  function RStrip(s: string): string {
    if s != [] && IsSpace(s[|s| - 1]) then RStrip(s[..|s| - 1]) else s
  }

  /** `s.strip()`. */
  function Strip(s: string): string {
    RStrip(LStrip(s))
  }

  /** Non-empty, and no white space at either end. */
  predicate Tidy(s: string) {
    s != [] && !IsSpace(s[0]) && !IsSpace(s[|s| - 1])
  }

  lemma {:induction false} LStripFront(s: string)
    ensures LStrip(s) != [] ==> !IsSpace(LStrip(s)[0])
    ensures |LStrip(s)| <= |s|
  {
    if s != [] && IsSpace(s[0]) {
      LStripFront(s[1..]);
    }
  }

  lemma {:induction false} RStripEnd(s: string)
    ensures RStrip(s) != [] ==> !IsSpace(RStrip(s)[|RStrip(s)| - 1])
    ensures RStrip(s) <= s
  {
    if s != [] && IsSpace(s[|s| - 1]) {
      RStripEnd(s[..|s| - 1]);
    }
  }

  /** What stripping leaves is tidy, or nothing. */
  lemma StripResult(s: string)
    ensures Strip(s) == [] || Tidy(Strip(s))
    ensures |Strip(s)| <= |s|
  {
    LStripFront(s);
    RStripEnd(LStrip(s));
  }

  lemma StripTidy(s: string)
    requires s == [] || Tidy(s)
    ensures Strip(s) == s
  {
  }

  lemma StripSubset(text: string, c: char)
    requires c !in text
    ensures c !in Strip(text)
  {
    LStripSubset(text, c);
    RStripEnd(LStrip(text));
  }

  lemma {:induction false} LStripSubset(text: string, c: char)
    requires c !in text
    ensures c !in LStrip(text)
  {
    if text != [] && IsSpace(text[0]) {
      LStripSubset(text[1..], c);
    }
  }

  /** Stripping ignores white space added at the end. */
  lemma {:induction false} RStripAppendSpace(s: string, t: string)
    requires forall i :: 0 <= i < |t| ==> IsSpace(t[i])
    ensures RStrip(s + t) == RStrip(s)
  {
    if t == [] {
      assert s + t == s;
    } else {
      assert (s + t)[..|s + t| - 1] == s + t[..|t| - 1];
      RStripAppendSpace(s, t[..|t| - 1]);
    }
  }

  lemma {:induction false} LStripAllSpace(s: string)
    requires forall i :: 0 <= i < |s| ==> IsSpace(s[i])
    ensures LStrip(s) == []
  {
    if s != [] {
      LStripAllSpace(s[1..]);
    }
  }

  lemma {:induction false} LStripAppend(s: string, t: string)
    requires LStrip(s) != []
    ensures LStrip(s + t) == LStrip(s) + t
  {
    if IsSpace(s[0]) {
      assert (s + t)[1..] == s[1..] + t;
      LStripAppend(s[1..], t);
    }
  }

  lemma {:induction false} LStripEmpty(s: string)
    requires LStrip(s) == []
    ensures forall i :: 0 <= i < |s| ==> IsSpace(s[i])
  {
    if s != [] {
      LStripEmpty(s[1..]);
      assert forall i :: 0 < i < |s| ==> s[i] == s[1..][i - 1];
    }
  }

  lemma StripAppendSpace(s: string, t: string)
    requires forall i :: 0 <= i < |t| ==> IsSpace(t[i])
    ensures Strip(s + t) == Strip(s)
  {
    if LStrip(s) == [] {
      LStripEmpty(s);
      LStripAllSpace(s + t);
    } else {
      LStripAppend(s, t);
      RStripAppendSpace(LStrip(s), t);
    }
  }

  /** Blanks, tabs and line ends around a text go; its own characters stay. */
  lemma StripAround(a: string, s: string, b: string)
    requires forall i :: 0 <= i < |a| ==> a[i] in " \t\r\n"
    requires forall i :: 0 <= i < |b| ==> b[i] in " \t\r\n"
    requires s != [] && 33 <= s[0] as int <= 126 && 33 <= s[|s| - 1] as int <= 126
    ensures Strip(a + s + b) == s
  {
    StripAppendSpace(a + s, b);
    LStripAllSpace(a);
    LStripSkips(a, s);
    StripTidy(s);
  }

  lemma {:induction false} LStripSkips(a: string, s: string)
    requires forall i :: 0 <= i < |a| ==> IsSpace(a[i])
    ensures LStrip(a + s) == LStrip(s)
  {
    if a == [] {
      assert a + s == s;
    } else {
      assert (a + s)[1..] == a[1..] + s;
      LStripSkips(a[1..], s);
    }
  }

  /** `str.lower()` on ASCII letters. */
  function LowerChar(c: char): char {
    if 'A' <= c <= 'Z' then (c as int + 32) as char else c
  }

  function Lower(s: string): string {
    if s == [] then [] else [LowerChar(s[0])] + Lower(s[1..])
  }

  lemma {:induction false} LowerAt(s: string)
    ensures |Lower(s)| == |s|
    ensures forall i :: 0 <= i < |s| ==>
      Lower(s)[i] as int == s[i] as int + if 65 <= s[i] as int <= 90 then 32 else 0
  {
    if s != [] {
      LowerAt(s[1..]);
      assert forall i :: 0 < i < |s| ==> s[i] == s[1..][i - 1];
    }
  }

  predicate OccursAt(s: string, sub: string, i: nat) {
    i + |sub| <= |s| && s[i..i + |sub|] == sub
  }

  /** `sub in s`. */
  predicate Contains(s: string, sub: string) {
    exists i :: 0 <= i <= |s| && OccursAt(s, sub, i)
  }

  /** `sep.join(parts)`. */
  function Join(sep: string, parts: seq<string>): string {
    if parts == [] then ""
    else if |parts| == 1 then parts[0]
    else parts[0] + sep + Join(sep, parts[1..])
  }

  lemma {:induction false} JoinAppend(sep: string, xs: seq<string>, ys: seq<string>)
    requires xs != [] && ys != []
    ensures Join(sep, xs + ys) == Join(sep, xs) + sep + Join(sep, ys)
  {
    if |xs| == 1 {
      assert (xs + ys)[1..] == ys;
    } else {
      assert (xs + ys)[1..] == xs[1..] + ys;
      JoinAppend(sep, xs[1..], ys);
    }
  }

  lemma JoinHead(sep: string, head: string, parts: seq<string>)
    requires parts != []
    ensures Join(sep, [head + parts[0]] + parts[1..]) == head + Join(sep, parts)
  {
    var all := [head + parts[0]] + parts[1..];
    if |parts| > 1 {
      assert all[1..] == parts[1..];
      assert (head + parts[0]) + sep + Join(sep, parts[1..]) == head + (parts[0] + sep + Join(sep, parts[1..]));
    } else {
      assert all == [head + parts[0]];
    }
  }

  /** Each part stands in the joined text. */
  lemma {:induction false} JoinHolds(sep: string, parts: seq<string>, p: string) returns (a: string, b: string)
    requires p in parts
    ensures Join(sep, parts) == a + p + b
  {
    if p == parts[0] {
      a, b := "", if |parts| == 1 then "" else sep + Join(sep, parts[1..]);
      assert Join(sep, parts) == a + p + b;
    } else {
      var a', b' := JoinHolds(sep, parts[1..], p);
      a, b := parts[0] + sep + a', b';
      assert parts[0] + sep + (a' + p + b') == a + p + b;
    }
  }

  lemma {:induction false} LowerAppend(s: string, t: string)
    ensures Lower(s + t) == Lower(s) + Lower(t)
  {
    if s == [] {
      assert s + t == t;
    } else {
      assert (s + t)[1..] == s[1..] + t;
      LowerAppend(s[1..], t);
    }
  }

  lemma ContainsWider(a: string, s: string, b: string, sub: string)
    requires Contains(s, sub)
    ensures Contains(a + s + b, sub)
  {
    var i :| 0 <= i <= |s| && OccursAt(s, sub, i);
    assert (a + s + b)[|a| + i..|a| + i + |sub|] == s[i..i + |sub|];
    assert OccursAt(a + s + b, sub, |a| + i);
  }

  /** What a part holds, case aside, the joined text holds. */
  lemma JoinContains(sep: string, parts: seq<string>, p: string, sub: string)
    requires p in parts && Contains(Lower(p), sub)
    ensures Contains(Lower(Join(sep, parts)), sub)
  {
    var a, b := JoinHolds(sep, parts, p);
    LowerAppend(a + p, b);
    LowerAppend(a, p);
    ContainsWider(Lower(a), Lower(p), Lower(b), sub);
  }

  /** `"".join(s.split())`. */
  function Squeeze(s: string): string {
    if s == [] then [] else (if IsSpace(s[0]) then [] else [s[0]]) + Squeeze(s[1..])
  }

  /** Squeezing takes the white space and nothing else. */
  lemma {:induction false} SqueezeKeeps(s: string)
    ensures forall c :: c in Squeeze(s) <==> c in s && !IsSpace(c)
    ensures (forall c :: c in s ==> !IsSpace(c)) ==> Squeeze(s) == s
  {
    if s != [] {
      SqueezeKeeps(s[1..]);
      assert s == [s[0]] + s[1..];
      assert forall c :: c in s <==> c == s[0] || c in s[1..];
    }
  }

  lemma {:induction false} SqueezeAppend(x: string, y: string)
    ensures Squeeze(x + y) == Squeeze(x) + Squeeze(y)
    decreases |x|
  {
    if x == [] {
      assert x + y == y;
    } else {
      assert (x + y)[1..] == x[1..] + y;
      SqueezeAppend(x[1..], y);
    }
  }

  lemma {:induction false} LStripSqueezed(s: string)
    ensures Squeeze(LStrip(s)) == Squeeze(s)
  {
    if s != [] && IsSpace(s[0]) {
      LStripSqueezed(s[1..]);
    }
  }

  lemma {:induction false} RStripSqueezed(s: string)
    ensures Squeeze(RStrip(s)) == Squeeze(s)
  {
    if s != [] && IsSpace(s[|s| - 1]) {
      var front, last := s[..|s| - 1], [s[|s| - 1]];
      RStripSqueezed(front);
      assert s == front + last && last[1..] == [];
      SqueezeAppend(front, last);
    }
  }

  /** Stripping takes only white space. */
  lemma StripSqueezed(s: string)
    ensures Squeeze(Strip(s)) == Squeeze(s)
  {
    LStripSqueezed(s);
    RStripSqueezed(LStrip(s));
  }
}
