/** From character names to dossier file stems (cricket/lore/loader.py). */
module Kebabs {
  import opened Wrappers
  import opened Text

  /** Python's `str.lower`, of a whole text, and `str.isalnum` of a character. */
  datatype Alphabet = Alphabet(lower: string -> string, alnum: char -> bool)

  /** Lower-casing leaves the character alone. */
  predicate Stable(a: Alphabet, c: char) {
    a.lower([c]) == [c]
  }

  /** What the stems rely on: a letter or digit is neither white space nor a separator, lower case
      holds only letters that lower-casing leaves alone, and text of such characters stays as it is. */
  ghost predicate Proper(a: Alphabet) {
    && (forall c :: a.alnum(c) ==> !IsSpace(c) && c !in "-_.'")
    && (forall s, d :: d in a.lower(s) && a.alnum(d) ==> Stable(a, d))
    && (forall s :: (forall i :: 0 <= i < |s| ==> Stable(a, s[i])) ==> a.lower(s) == s)
    && Stable(a, '-')
  }

  function NoApostrophe(s: string): string {
    if s == [] then [] else (if s[0] == '\'' then [] else [s[0]]) + NoApostrophe(s[1..])
  }

  function MapChar(a: Alphabet, c: char): string {
    if a.alnum(c) then [c] else if c in " -_." then "-" else ""
  }

  /** Letters and digits kept, separators turned into hyphens, the rest dropped. */
  function Mapped(a: Alphabet, s: string): string {
    if s == [] then [] else Mapped(a, s[..|s| - 1]) + MapChar(a, s[|s| - 1])
  }

  /** The words between hyphens. */
  function Runs(s: string): (r: seq<string>)
    ensures s != [] && s[0] != '-' ==> r != []
  {
    if s == [] then []
    else if s[0] == '-' then Runs(s[1..])
    else if |s| == 1 || s[1] == '-' then [[s[0]]] + Runs(s[1..])
    else
      var r := Runs(s[1..]);
      [[s[0]] + r[0]] + r[1..]
  }

  /** The stem of a name: its words, joined by single hyphens. */
  function Kebab(a: Alphabet, name: string): string {
    Join("-", Runs(Mapped(a, NoApostrophe(a.lower(Strip(name))))))
  }

  // ----- collapsing hyphens

  predicate HasDouble(s: string) {
    |s| >= 2 && ((s[0] == '-' && s[1] == '-') || HasDouble(s[1..]))
  }

  /** `s.replace("--", "-")`. */
  function Halve(s: string): string {
    if s == [] then []
    else if |s| >= 2 && s[0] == '-' && s[1] == '-' then "-" + Halve(s[2..])
    else [s[0]] + Halve(s[1..])
  }

  lemma {:induction false} HalveShrinks(s: string)
    ensures |Halve(s)| <= |s|
    ensures HasDouble(s) ==> |Halve(s)| < |s|
  {
    if |s| >= 2 && s[0] == '-' && s[1] == '-' {
      HalveShrinks(s[2..]);
    } else if s != [] {
      HalveShrinks(s[1..]);
    }
  }

  lemma {:induction false} HalveKeepsRuns(s: string)
    ensures Runs(Halve(s)) == Runs(s)
    ensures Halve(s) == [] <==> s == []
    ensures s != [] ==> Halve(s)[0] == s[0]
  {
    if |s| >= 2 && s[0] == '-' && s[1] == '-' {
      HalveKeepsRuns(s[2..]);
      assert s[1..][1..] == s[2..];
      assert ("-" + Halve(s[2..]))[1..] == Halve(s[2..]);
    } else if s != [] {
      HalveKeepsRuns(s[1..]);
      assert ([s[0]] + Halve(s[1..]))[1..] == Halve(s[1..]);
    }
  }

  function LStripDash(s: string): string {
    if s != [] && s[0] == '-' then LStripDash(s[1..]) else s
  }

  function RStripDash(s: string): string {
    if s != [] && s[|s| - 1] == '-' then RStripDash(s[..|s| - 1]) else s
  }

  lemma {:induction false} RunsWithoutLastDash(s: string)
    ensures Runs(s + "-") == Runs(s)
  {
    if s == [] {
      assert s + "-" == "-" && "-"[1..] == [];
    } else {
      RunsWithoutLastDash(s[1..]);
      assert (s + "-")[1..] == s[1..] + "-";
    }
  }

  lemma {:induction false} HasDoubleAppend(s: string, c: char)
    requires HasDouble(s)
    ensures HasDouble(s + [c])
  {
    if !(s[0] == '-' && s[1] == '-') {
      HasDoubleAppend(s[1..], c);
      assert (s + [c])[1..] == s[1..] + [c];
    }
  }

  lemma {:induction false} LStripDashIs(s: string)
    requires !HasDouble(s)
    ensures var t := LStripDash(s);
      Runs(t) == Runs(s) && !HasDouble(t) && (t != [] ==> t[0] != '-')
  {
    if s != [] && s[0] == '-' {
      LStripDashIs(s[1..]);
    }
  }

  lemma {:induction false} RStripDashIs(s: string)
    requires !HasDouble(s) && (s != [] ==> s[0] != '-')
    ensures var t := RStripDash(s);
      && Runs(t) == Runs(s) && !HasDouble(t)
      && (t != [] ==> t[0] != '-' && t[|t| - 1] != '-')
  {
    if s != [] && s[|s| - 1] == '-' {
      var front := s[..|s| - 1];
      assert s == front + "-";
      RunsWithoutLastDash(front);
      if HasDouble(front) {
        HasDoubleAppend(front, '-');
      }
      RStripDashIs(front);
    }
  }

  /** Single hyphens, inside only. */
  predicate Hyphenated(s: string) {
    !HasDouble(s) && (s != [] ==> s[0] != '-' && s[|s| - 1] != '-')
  }

  lemma JoinFirst(c: char, rs: seq<string>)
    requires rs != []
    ensures Join("-", [[c]] + rs) == [c] + "-" + Join("-", rs)
  {
    assert ([[c]] + rs)[1..] == rs;
  }

  /** Such a text is its words joined by hyphens. */
  lemma {:induction false} JoinRuns(s: string)
    requires Hyphenated(s)
    ensures Join("-", Runs(s)) == s
  {
    if |s| == 1 {
      assert Runs(s[1..]) == [];
      assert Runs(s) == [[s[0]]];
    } else if |s| > 1 && s[1] == '-' {
      var rest := s[2..];
      assert s[1..][1..] == rest && |rest| > 0;
      assert !HasDouble(s[1..]) && rest[0] != '-';
      JoinRuns(rest);
      JoinFirst(s[0], Runs(rest));
      assert s == [s[0]] + "-" + rest;
    } else if |s| > 1 {
      JoinRuns(s[1..]);
      JoinHead("-", [s[0]], Runs(s[1..]));
      assert s == [s[0]] + s[1..];
    }
  }

  /** The hyphen-collapse loop, which ends because every round shortens the text. */
  method Collapse(s: string) returns (r: string)
    ensures Runs(r) == Runs(s) && !HasDouble(r)
  {
    r := s;
    while HasDouble(r)
      invariant Runs(r) == Runs(s)
      decreases |r|
    {
      HalveShrinks(r);
      HalveKeepsRuns(r);
      r := Halve(r);
    }
  }

  lemma MappedSnoc(a: Alphabet, s: string, i: nat)
    requires i < |s|
    ensures Mapped(a, s[..i + 1]) == Mapped(a, s[..i]) + MapChar(a, s[i])
  {
    assert s[..i + 1][..i] == s[..i];
  }

  /** `kebab`. */
  method MakeKebab(a: Alphabet, name: string) returns (stem: string)
    ensures stem == Kebab(a, name)
  {
    var s := NoApostrophe(a.lower(Strip(name)));
    var out := "";
    for i := 0 to |s|
      invariant out == Mapped(a, s[..i])
    {
      MappedSnoc(a, s, i);
      if a.alnum(s[i]) {
        out := out + [s[i]];
      } else if s[i] in " -_." {
        out := out + "-";
      }
    }
    assert s[..|s|] == s;
    var result := Collapse(out);
    LStripDashIs(result);
    RStripDashIs(LStripDash(result));
    stem := RStripDash(LStripDash(result));
    JoinRuns(stem);
  }

  // ----- the stems are the fixed points

  /** A hyphen, or a letter or digit in lower case. */
  predicate Plain(a: Alphabet, c: char) {
    c == '-' || (a.alnum(c) && Stable(a, c))
  }

  /** Lower-case letters and digits, with single hyphens between. */
  predicate IsStem(a: Alphabet, s: string) {
    && Hyphenated(s)
    && forall i :: 0 <= i < |s| ==> Plain(a, s[i])
  }

  lemma {:induction false} NoApostropheFixed(s: string)
    requires '\'' !in s
    ensures NoApostrophe(s) == s
  {
    if s != [] {
      NoApostropheFixed(s[1..]);
    }
  }

  lemma {:induction false} MappedFixed(a: Alphabet, s: string)
    requires forall i :: 0 <= i < |s| ==> MapChar(a, s[i]) == [s[i]]
    ensures Mapped(a, s) == s
  {
    if s != [] {
      MappedFixed(a, s[..|s| - 1]);
    }
  }

  lemma StemIsFixed(a: Alphabet, s: string)
    requires Proper(a) && IsStem(a, s)
    ensures Kebab(a, s) == s
  {
    StemChars(a, s);
    StripTidy(s);
    NoApostropheFixed(s);
    MappedFixed(a, s);
    JoinRuns(s);
  }

  lemma StemChars(a: Alphabet, s: string)
    requires Proper(a) && IsStem(a, s)
    ensures s == [] || Tidy(s)
    ensures '\'' !in s
    ensures forall i :: 0 <= i < |s| ==> Stable(a, s[i]) && MapChar(a, s[i]) == [s[i]]
  {
  }

  lemma {:induction false} FewerChars(s: string)
    ensures forall d :: d in NoApostrophe(s) ==> d in s
  {
    if s != [] {
      FewerChars(s[1..]);
    }
  }

  lemma {:induction false} MappedChars(a: Alphabet, s: string)
    requires forall d :: d in s && a.alnum(d) ==> Stable(a, d)
    ensures forall d :: d in Mapped(a, s) ==> Plain(a, d)
  {
    if s != [] {
      MappedChars(a, s[..|s| - 1]);
      assert s[|s| - 1] in s;
    }
  }

  /** A word: not empty, no hyphens, characters of `s`. */
  ghost predicate WordOf(w: string, s: string) {
    w != [] && (forall d :: d in w ==> d in s && d != '-')
  }

  lemma {:induction false} RunsAreWords(s: string)
    ensures forall i :: 0 <= i < |Runs(s)| ==> WordOf(Runs(s)[i], s)
  {
    if s != [] {
      var r := Runs(s[1..]);
      RunsAreWords(s[1..]);
      forall i | 0 <= i < |Runs(s)|
        ensures WordOf(Runs(s)[i], s)
      {
        if s[0] == '-' {
          assert WordOf(r[i], s[1..]);
        } else if |s| == 1 || s[1] == '-' {
          assert i > 0 ==> Runs(s)[i] == r[i - 1];
        } else {
          assert WordOf(r[i], s[1..]);
        }
      }
    }
  }

  lemma {:induction false} NoDoubleAppend(x: string, y: string)
    requires !HasDouble(x) && !HasDouble(y)
    requires x != [] ==> x[|x| - 1] != '-'
    ensures !HasDouble(x + y)
  {
    if x == [] {
      assert x + y == y;
    } else {
      NoDoubleAppend(x[1..], y);
      assert (x + y)[1..] == x[1..] + y;
    }
  }

  lemma {:induction false} WordHasNoDouble(w: string)
    requires '-' !in w
    ensures !HasDouble(w)
  {
    if |w| > 1 {
      WordHasNoDouble(w[1..]);
    }
  }

  lemma {:induction false} JoinHyphenated(rs: seq<string>, s: string)
    requires forall i :: 0 <= i < |rs| ==> WordOf(rs[i], s)
    ensures var j := Join("-", rs);
      Hyphenated(j) && (rs != [] ==> j != []) && forall d :: d in j ==> d == '-' || d in s
  {
    if rs != [] {
      var w := rs[0];
      assert WordOf(w, s) && w[0] in w && w[|w| - 1] in w;
      WordHasNoDouble(w);
      if |rs| > 1 {
        var rest := Join("-", rs[1..]);
        JoinHyphenated(rs[1..], s);
        var tail := "-" + rest;
        assert tail[1..] == rest;
        NoDoubleAppend(w, tail);
        assert w + "-" + rest == w + tail;
      }
    }
  }

  /** Every stem is a fixed point. */
  lemma KebabIsStem(a: Alphabet, name: string)
    requires Proper(a)
    ensures IsStem(a, Kebab(a, name))
  {
    var lowered := a.lower(Strip(name));
    var s := NoApostrophe(lowered);
    var m := Mapped(a, s);
    FewerChars(lowered);
    MappedChars(a, s);
    RunsAreWords(m);
    JoinHyphenated(Runs(m), m);
    var k := Kebab(a, name);
    forall i | 0 <= i < |k|
      ensures Plain(a, k[i])
    {
      assert k[i] in k;
    }
  }

  /** The texts `kebab` leaves alone are the stems. */
  lemma KebabFixesStems(a: Alphabet, name: string)
    requires Proper(a)
    ensures Kebab(a, name) == name <==> IsStem(a, name)
    ensures Kebab(a, Kebab(a, name)) == Kebab(a, name)
  {
    KebabIsStem(a, name);
    StemIsFixed(a, Kebab(a, name));
    if IsStem(a, name) {
      StemIsFixed(a, name);
    }
  }

  // ----- what the stem of a name is

  /** The words with a gap after each but the last. */
  function Spaced(words: seq<string>, gaps: seq<string>): string
    requires |words| == |gaps| + 1
  {
    if gaps == [] then words[0]
    else Spaced(words[..|gaps|], gaps[..|gaps| - 1]) + gaps[|gaps| - 1] + words[|gaps|]
  }

  /** The letters and digits of a word. */
  function Letters(a: Alphabet, word: string): string {
    if word == [] then []
    else Letters(a, word[..|word| - 1]) + if a.alnum(word[|word| - 1]) then [word[|word| - 1]] else []
  }

  function EachLetters(a: Alphabet, words: seq<string>): seq<string> {
    if words == [] then [] else EachLetters(a, words[..|words| - 1]) + [Letters(a, words[|words| - 1])]
  }

  /** A word with a letter or digit in it, and no separator. */
  predicate IsWord(a: Alphabet, word: string) {
    Letters(a, word) != "" && forall i :: 0 <= i < |word| ==> word[i] !in " -_."
  }

  predicate IsGap(gap: string) {
    gap != "" && forall i :: 0 <= i < |gap| ==> gap[i] in " -_."
  }

  lemma {:induction false} MappedAppend(a: Alphabet, s: string, t: string)
    ensures Mapped(a, s + t) == Mapped(a, s) + Mapped(a, t)
    decreases |t|
  {
    if t == [] {
      assert s + t == s;
    } else {
      assert (s + t)[..|s + t| - 1] == s + t[..|t| - 1];
      MappedAppend(a, s, t[..|t| - 1]);
    }
  }

  lemma {:induction false} NoApostropheAppend(s: string, t: string)
    ensures NoApostrophe(s + t) == NoApostrophe(s) + NoApostrophe(t)
  {
    if s == [] {
      assert s + t == t;
    } else {
      assert (s + t)[1..] == s[1..] + t;
      NoApostropheAppend(s[1..], t);
    }
  }

  function Cleaned(a: Alphabet, s: string): string {
    Mapped(a, NoApostrophe(s))
  }

  lemma CleanedAppend(a: Alphabet, s: string, t: string)
    ensures Cleaned(a, s + t) == Cleaned(a, s) + Cleaned(a, t)
  {
    NoApostropheAppend(s, t);
    MappedAppend(a, NoApostrophe(s), NoApostrophe(t));
  }

  /** No separator counts as a letter or digit. */
  predicate Marks(a: Alphabet) {
    !a.alnum('\'') && !a.alnum(' ') && !a.alnum('-') && !a.alnum('_') && !a.alnum('.')
  }

  predicate AllDashes(s: string) {
    forall i :: 0 <= i < |s| ==> s[i] == '-'
  }

  lemma CleanedChar(a: Alphabet, c: char)
    requires Marks(a)
    ensures Cleaned(a, [c]) == if a.alnum(c) then [c] else if c in " -_." then "-" else ""
  {
    assert [c][1..] == [] && [c][..0] == [];
    assert NoApostrophe([c]) == if c == '\'' then [] else [c];
    assert Mapped(a, [c]) == [] + MapChar(a, c);
  }

  lemma {:induction false} CleanedWord(a: Alphabet, word: string)
    requires Marks(a) && forall i :: 0 <= i < |word| ==> word[i] !in " -_."
    ensures Cleaned(a, word) == Letters(a, word) && '-' !in Letters(a, word)
  {
    if word != [] {
      var front, c := word[..|word| - 1], word[|word| - 1];
      CleanedWord(a, front);
      assert word == front + [c];
      CleanedAppend(a, front, [c]);
      CleanedChar(a, c);
    }
  }

  lemma {:induction false} CleanedGap(a: Alphabet, gap: string)
    requires Marks(a) && forall i :: 0 <= i < |gap| ==> gap[i] in " -_."
    ensures |Cleaned(a, gap)| == |gap| && AllDashes(Cleaned(a, gap))
  {
    if gap != [] {
      var front, c := gap[..|gap| - 1], gap[|gap| - 1];
      CleanedGap(a, front);
      assert gap == front + [c];
      CleanedAppend(a, front, [c]);
      CleanedChar(a, c);
    }
  }

  lemma {:induction false} RunsOfWord(word: string)
    requires word != [] && '-' !in word
    ensures Runs(word) == [word]
  {
    if |word| > 1 {
      RunsOfWord(word[1..]);
      assert [word[0]] + word[1..] == word;
    } else {
      assert word == [word[0]] && Runs(word[1..]) == [];
    }
  }

  lemma {:induction false} RunsOfGap(gap: string, word: string)
    requires AllDashes(gap) && word != [] && '-' !in word
    ensures Runs(gap + word) == [word]
  {
    if gap == [] {
      assert gap + word == word;
      RunsOfWord(word);
    } else {
      assert (gap + word)[1..] == gap[1..] + word;
      RunsOfGap(gap[1..], word);
    }
  }

  lemma {:induction false} RunsSnoc(s: string, gap: string, word: string)
    requires gap != [] && AllDashes(gap) && word != [] && '-' !in word
    ensures Runs(s + (gap + word)) == Runs(s) + [word]
  {
    var all := s + (gap + word);
    if s == [] {
      assert all == gap + word;
      RunsOfGap(gap, word);
    } else {
      assert all[1..] == s[1..] + (gap + word) && all[0] == s[0];
      RunsSnoc(s[1..], gap, word);
      assert |s| > 1 ==> all[1] == s[1];
      assert |s| == 1 ==> all[1] == gap[0];
    }
  }

  lemma OneMoreWord(a: Alphabet, front: string, gap: string, word: string)
    requires Marks(a) && IsGap(gap) && IsWord(a, word)
    ensures Runs(Cleaned(a, front + gap + word)) == Runs(Cleaned(a, front)) + [Letters(a, word)]
  {
    CleanedWord(a, word);
    CleanedGap(a, gap);
    CleanedAppend(a, front + gap, word);
    CleanedAppend(a, front, gap);
    Assoc(Cleaned(a, front), Cleaned(a, gap), Cleaned(a, word));
    RunsSnoc(Cleaned(a, front), Cleaned(a, gap), Letters(a, word));
  }

  lemma {:induction false} RunsOfSpaced(a: Alphabet, words: seq<string>, gaps: seq<string>)
    requires Marks(a) && |words| == |gaps| + 1
    requires (forall i :: 0 <= i < |words| ==> IsWord(a, words[i])) && forall i :: 0 <= i < |gaps| ==> IsGap(gaps[i])
    ensures Runs(Cleaned(a, Spaced(words, gaps))) == EachLetters(a, words)
    decreases |gaps|
  {
    var n := |gaps|;
    if n == 0 {
      CleanedWord(a, words[0]);
      RunsOfWord(Letters(a, words[0]));
      assert words[..0] == [];
    } else {
      RunsOfSpaced(a, words[..n], gaps[..n - 1]);
      OneMoreWord(a, Spaced(words[..n], gaps[..n - 1]), gaps[n - 1], words[n]);
    }
  }

  /** Words with runs of blanks, hyphens, underscores or dots between them give their letters and digits,
      in lower case, joined by single hyphens; anything else is dropped. */
  lemma KebabOfWords(a: Alphabet, name: string, words: seq<string>, gaps: seq<string>)
    requires Proper(a) && |words| == |gaps| + 1 && a.lower(Strip(name)) == Spaced(words, gaps)
    requires (forall i :: 0 <= i < |words| ==> IsWord(a, words[i])) && forall i :: 0 <= i < |gaps| ==> IsGap(gaps[i])
    ensures Kebab(a, name) == Join("-", EachLetters(a, words))
  {
    RunsOfSpaced(a, words, gaps);
  }
}
