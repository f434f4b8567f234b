/** The %t and %r markers of an encoded log, and the round-trip check that strips them
    (tools/rplog_assemble.py). */
module RplogMarkers {
  import opened Text

  /** `s.replace("%c", "")`. */
  function Remove(s: string, c: char): string
    decreases |s|
  {
    if |s| >= 2 && s[0] == '%' && s[1] == c then Remove(s[2..], c)
    else if s == [] then []
    else [s[0]] + Remove(s[1..], c)
  }

  /** The round-trip check's normal form. */
  function Norm(s: string): string {
    Squeeze(Remove(Remove(s, 't'), 'r'))
  }

  /** `"".join(ts)`. */
  function Cat(ts: seq<string>): string {
    if ts == [] then [] else ts[0] + Cat(ts[1..])
  }

  function RemoveEach(ts: seq<string>, c: char): seq<string> {
    if ts == [] then [] else [Remove(ts[0], c)] + RemoveEach(ts[1..], c)
  }

  predicate EndsPercent(s: string) {
    s != [] && s[|s| - 1] == '%'
  }

  predicate Starts(s: string, c: char) {
    s != [] && s[0] == c
  }

  /** No text ends with a percent sign that the text after it would complete to "%c". */
  predicate Clean(ts: seq<string>, c: char) {
    ts == [] || (!(EndsPercent(ts[0]) && Starts(Cat(ts[1..]), c)) && Clean(ts[1..], c))
  }

  lemma {:induction false} RemoveAppend(x: string, y: string, c: char)
    requires c != '%' && !(EndsPercent(x) && Starts(y, c))
    ensures Remove(x + y, c) == Remove(x, c) + Remove(y, c)
    decreases |x|
  {
    if x == [] {
      assert x + y == y;
    } else if |x| >= 2 && x[0] == '%' && x[1] == c {
      assert (x + y)[2..] == x[2..] + y;
      RemoveAppend(x[2..], y, c);
    } else {
      assert (x + y)[1..] == x[1..] + y;
      RemoveAppend(x[1..], y, c);
    }
  }

  // ----- counting

  /** Occurrences of "%c". */
  function Pairs(s: string, c: char): nat {
    if |s| < 2 then 0 else (if s[0] == '%' && s[1] == c then 1 else 0) + Pairs(s[1..], c)
  }

  lemma {:induction false} PairsAppend(x: string, y: string, c: char)
    ensures Pairs(x + y, c) == Pairs(x, c) + Pairs(y, c) + if EndsPercent(x) && Starts(y, c) then 1 else 0
    decreases |x|
  {
    if x == [] {
      assert x + y == y;
    } else if |x| == 1 {
      assert (x + y)[1..] == y;
    } else {
      assert (x + y)[1..] == x[1..] + y;
      PairsAppend(x[1..], y, c);
    }
  }

  /** Removing takes two characters per occurrence. */
  lemma {:induction false} RemoveTakes(s: string, c: char)
    requires c != '%' && !IsSpace(c)
    ensures |Squeeze(Remove(s, c))| + 2 * Pairs(s, c) == |Squeeze(s)|
    decreases |s|
  {
    if |s| >= 2 && s[0] == '%' && s[1] == c {
      RemoveTakes(s[2..], c);
      assert s[1..][1..] == s[2..];
      assert Pairs(s[1..], c) == Pairs(s[2..], c) by {
        assert s[1..][0] == c;
      }
      assert Squeeze(s[1..]) == [c] + Squeeze(s[2..]);
    } else if s != [] {
      RemoveTakes(s[1..], c);
      var r := Remove(s[1..], c);
      assert ([s[0]] + r)[1..] == r;
    }
  }

  function SumPairs(ts: seq<string>, c: char): nat {
    if ts == [] then 0 else Pairs(ts[0], c) + SumPairs(ts[1..], c)
  }

  /** Joining texts makes a new "%c" exactly when they are not clean. */
  lemma {:induction false} PairsCat(ts: seq<string>, c: char)
    ensures Pairs(Cat(ts), c) >= SumPairs(ts, c)
    ensures Pairs(Cat(ts), c) == SumPairs(ts, c) <==> Clean(ts, c)
  {
    if ts != [] {
      PairsCat(ts[1..], c);
      PairsAppend(ts[0], Cat(ts[1..]), c);
    }
  }

  /** A "%" at the end of a text is no pair, and neither is a "t" at the start of one. */
  lemma PairsEdges(u: string, v: string)
    ensures Pairs(u + "%", 'r') == Pairs(u, 'r') && Pairs("t" + v, 'r') == Pairs(v, 'r')
  {
    PairsAppend(u, "%", 'r');
    PairsAppend("t", v, 'r');
  }

  lemma RemoveEdges(x: string, y: string)
    ensures Remove(x + "%", 't') == Remove(x, 't') + "%" && Remove("t" + y, 't') == "t" + Remove(y, 't')
  {
    RemoveAppend(x, "%", 't');
    RemoveAppend("t", y, 't');
  }

  lemma RemoveStraddle(x: string, y: string)
    ensures Remove(x + "%" + ("t" + y), 't') == Remove(x, 't') + Remove(y, 't')
  {
    var z := "%t" + y;
    assert x + "%" + ("t" + y) == x + z;
    RemoveAppend(x, z, 't');
    assert z[2..] == y;
  }

  lemma StraddleCase(x: string, y: string)
    ensures Pairs(Remove(x + "%" + ("t" + y), 't'), 'r')
         >= Pairs(Remove(x + "%", 't'), 'r') + Pairs(Remove("t" + y, 't'), 'r')
  {
    var u, v := Remove(x, 't'), Remove(y, 't');
    RemoveStraddle(x, y);
    RemoveEdges(x, y);
    PairsEdges(u, v);
    PairsAppend(u, v, 'r');
  }

  /** Taking out a "%t" that straddles two texts loses no "%r". */
  lemma StraddleKeepsPairs(x: string, y: string)
    ensures Pairs(Remove(x + y, 't'), 'r') >= Pairs(Remove(x, 't'), 'r') + Pairs(Remove(y, 't'), 'r')
  {
    if EndsPercent(x) && Starts(y, 't') {
      var x', y' := x[..|x| - 1], y[1..];
      assert x == x' + "%" && y == "t" + y';
      StraddleCase(x', y');
    } else {
      RemoveAppend(x, y, 't');
      PairsAppend(Remove(x, 't'), Remove(y, 't'), 'r');
    }
  }

  lemma {:induction false} RemovedPairsCat(ts: seq<string>)
    ensures Pairs(Remove(Cat(ts), 't'), 'r') >= SumPairs(RemoveEach(ts, 't'), 'r')
  {
    if ts != [] {
      RemovedPairsCat(ts[1..]);
      StraddleKeepsPairs(ts[0], Cat(ts[1..]));
      assert RemoveEach(ts, 't')[1..] == RemoveEach(ts[1..], 't');
    }
  }

  lemma {:induction false} RemoveCat(ts: seq<string>, c: char)
    requires c != '%' && Clean(ts, c)
    ensures Remove(Cat(ts), c) == Cat(RemoveEach(ts, c))
  {
    if ts != [] {
      RemoveCat(ts[1..], c);
      RemoveAppend(ts[0], Cat(ts[1..]), c);
      assert RemoveEach(ts, c)[1..] == RemoveEach(ts[1..], c);
    }
  }

  // ----- the source side: texts joined by %r

  lemma {:induction false} JoinRemovesTabs(ts: seq<string>)
    ensures Remove(Join("%r", ts), 't') == Join("%r", RemoveEach(ts, 't'))
  {
    if |ts| > 1 {
      var rest := Join("%r", ts[1..]);
      JoinRemovesTabs(ts[1..]);
      assert RemoveEach(ts, 't')[1..] == RemoveEach(ts[1..], 't');
      assert Join("%r", ts) == ts[0] + ("%r" + rest);
      RemoveAppend(ts[0], "%r" + rest, 't');
    } else if |ts| == 1 {
      assert RemoveEach(ts, 't') == [Remove(ts[0], 't')];
    }
  }

  lemma {:induction false} JoinRemovesBreaks(us: seq<string>)
    ensures Remove(Join("%r", us), 'r') == Cat(RemoveEach(us, 'r'))
  {
    if |us| > 1 {
      var rest := Join("%r", us[1..]);
      JoinRemovesBreaks(us[1..]);
      assert RemoveEach(us, 'r')[1..] == RemoveEach(us[1..], 'r');
      assert Join("%r", us) == us[0] + ("%r" + rest);
      RemoveAppend(us[0], "%r" + rest, 'r');
      assert ("%r" + rest)[2..] == rest;
    } else if |us| == 1 {
      assert RemoveEach(us, 'r') == [Remove(us[0], 'r')];
      assert Cat([Remove(us[0], 'r')]) == Remove(us[0], 'r') + Cat([]);
      assert RemoveEach(us, 'r')[1..] == [];
    }
  }

  lemma JoinedNorm(ts: seq<string>)
    ensures Norm(Join("%r", ts)) == Squeeze(Cat(RemoveEach(RemoveEach(ts, 't'), 'r')))
  {
    JoinRemovesTabs(ts);
    JoinRemovesBreaks(RemoveEach(ts, 't'));
  }

  lemma {:induction false} EachTakes(ts: seq<string>, c: char)
    requires c != '%' && !IsSpace(c)
    ensures |Squeeze(Cat(RemoveEach(ts, c)))| + 2 * SumPairs(ts, c) == |Squeeze(Cat(ts))|
  {
    if ts != [] {
      var rest := RemoveEach(ts[1..], c);
      EachTakes(ts[1..], c);
      RemoveTakes(ts[0], c);
      assert RemoveEach(ts, c)[1..] == rest;
      SqueezeAppend(Remove(ts[0], c), Cat(rest));
      SqueezeAppend(ts[0], Cat(ts[1..]));
    }
  }

  // ----- the check, exactly

  lemma SumsAgree(ts: seq<string>)
    requires Norm(Join("%r", ts)) == Norm(Cat(ts))
    ensures Clean(ts, 't') && Clean(RemoveEach(ts, 't'), 'r')
  {
    var us := RemoveEach(ts, 't');
    JoinedNorm(ts);
    EachTakes(ts, 't');
    EachTakes(us, 'r');
    RemoveTakes(Cat(ts), 't');
    RemoveTakes(Remove(Cat(ts), 't'), 'r');
    PairsCat(ts, 't');
    RemovedPairsCat(ts);
    PairsCat(us, 'r');
    if Clean(ts, 't') {
      RemoveCat(ts, 't');
    }
  }

  /** The text of the source, all turns joined by %r, and the text of the rows, the turns put end
      to end, have the same normal form exactly when no turn ends with a percent sign that the
      next would complete to a marker, before or after the %t markers are taken out. */
  lemma RoundTripExact(ts: seq<string>)
    ensures Norm(Join("%r", ts)) == Norm(Cat(ts)) <==> Clean(ts, 't') && Clean(RemoveEach(ts, 't'), 'r')
  {
    var us := RemoveEach(ts, 't');
    if Clean(ts, 't') && Clean(us, 'r') {
      JoinedNorm(ts);
      RemoveCat(ts, 't');
      RemoveCat(us, 'r');
    } else if Norm(Join("%r", ts)) == Norm(Cat(ts)) {
      SumsAgree(ts);
    }
  }

  /** The normal forms of the texts, end to end. */
  function Norms(ts: seq<string>): string {
    if ts == [] then [] else Norm(ts[0]) + Norms(ts[1..])
  }

  lemma {:induction false} NormsTogether(ts: seq<string>)
    ensures Norms(ts) == Squeeze(Cat(RemoveEach(RemoveEach(ts, 't'), 'r')))
  {
    if ts != [] {
      var us := RemoveEach(ts[1..], 't');
      NormsTogether(ts[1..]);
      assert RemoveEach(ts, 't')[1..] == us;
      var vs := RemoveEach(us, 'r');
      assert RemoveEach(RemoveEach(ts, 't'), 'r')[1..] == vs;
      SqueezeAppend(Remove(Remove(ts[0], 't'), 'r'), Cat(vs));
    }
  }

  lemma {:induction false} NormsSnoc(ts: seq<string>, t: string)
    ensures Norms(ts + [t]) == Norms(ts) + Norm(t)
  {
    if ts == [] {
      assert [t][1..] == [];
    } else {
      assert (ts + [t])[1..] == ts[1..] + [t];
      NormsSnoc(ts[1..], t);
    }
  }

  /** Putting texts end to end can only complete more markers. */
  lemma CatLosesText(ts: seq<string>)
    ensures |Norm(Cat(ts))| <= |Norms(ts)|
  {
    NormsTogether(ts);
    EachTakes(ts, 't');
    EachTakes(RemoveEach(ts, 't'), 'r');
    RemoveTakes(Cat(ts), 't');
    RemoveTakes(Remove(Cat(ts), 't'), 'r');
    PairsCat(ts, 't');
    RemovedPairsCat(ts);
  }

  /** The same when the rows carry only the texts `kept` of the source's texts `ts`. */
  lemma RoundTripOfKept(ts: seq<string>, kept: seq<string>)
    requires Norms(ts) == Norms(kept) || |Norms(ts)| > |Norms(kept)|
    ensures Norm(Join("%r", ts)) == Norm(Cat(kept)) <==>
      Norms(ts) == Norms(kept) && Clean(kept, 't') && Clean(RemoveEach(kept, 't'), 'r')
  {
    JoinedNorm(ts);
    NormsTogether(ts);
    JoinedNorm(kept);
    NormsTogether(kept);
    CatLosesText(kept);
    RoundTripExact(kept);
  }

  lemma NotClean()
    ensures !Clean(["%", "r"], 't') || !Clean(RemoveEach(["%", "r"], 't'), 'r')
  {
    var ts := ["%", "r"];
    assert ts[1..] == ["r"] && ["r"][1..] == [];
    assert Cat(["r"]) == "r" + Cat([]);
    assert Starts(Cat(ts[1..]), 'r');
    assert Remove("%", 't') == "%" && Remove("r", 't') == "r";
    assert RemoveEach(["r"], 't') == ["r"];
    assert RemoveEach(ts, 't') == ts;
    assert !Clean(ts, 'r');
  }

  /** What the check compares of a text without percent signs is all but its white space. */
  lemma NormOfPlain(s: string)
    requires '%' !in s
    ensures Norm(s) == Squeeze(s)
  {
    NothingToRemove(s, 't');
    NothingToRemove(s, 'r');
  }

  /** Every %t goes first and then every %r, one pass each: a %t which the second pass makes stays. */
  lemma MarkersGoInTurn()
    ensures Norm("%%rt") == "%t" && Norm("%%tr") == ""
  {
    assert "%%rt"[1..] == "%rt" && "%rt"[1..] == "rt" && "%rt"[2..] == "t";
    NothingToRemove("rt", 't');
    NothingToRemove("t", 'r');
    assert Remove("%rt", 't') == "%rt" && Remove("%%rt", 't') == "%%rt";
    assert Remove("%rt", 'r') == "t" && Remove("%%rt", 'r') == "%t";
    assert "%t"[1..] == "t" && "t"[1..] == [] && Squeeze("t") == "t";
    assert "%%tr"[1..] == "%tr" && "%tr"[2..] == "r" && "%r"[2..] == [];
    NothingToRemove("r", 't');
    assert Remove("%tr", 't') == "r" && Remove("%%tr", 't') == "%r" && Remove("%r", 'r') == [];
  }

  lemma {:induction false} NothingToRemove(s: string, c: char)
    requires '%' !in s
    ensures Remove(s, c) == s
  {
    if s != [] {
      NothingToRemove(s[1..], c);
      assert s == [s[0]] + s[1..];
    }
  }

  predicate RoundTripped(ts: seq<string>) {
    Norm(Join("%r", ts)) == Norm(Cat(ts))
  }

  /** Two texts the check rejects: one ends in "%", the other starts with "r". */
  lemma PercentBreaksCheck()
    ensures exists ts :: [] !in ts && !RoundTripped(ts)
  {
    var ts: seq<string> := ["%", "r"];
    RoundTripExact(ts);
    NotClean();
    assert [] !in ts && !RoundTripped(ts);
  }
}
