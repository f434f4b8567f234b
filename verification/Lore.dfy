/** Budgeted retrieval of character dossiers (cricket/lore/loader.py). */
module Lore {
  import opened Wrappers
  import opened Text
  import Order
  import K = Kebabs

  /** What a store reads: the dossier files by stem (unreadable ones have no text) and the facet
      of a dossier that the scope asks for. */
  datatype Store = Store(alphabet: K.Alphabet, dossiers: map<string, Option<string>>, facet: string -> string)

  function Stem(st: Store, name: string): string {
    K.Kebab(st.alphabet, name)
  }

  predicate Known(st: Store, k: string) {
    k != "" && k in st.dossiers
  }

  /** One more name: its stem is taken if it is known and new. */
  function AddName(st: Store, m: map<string, string>, c: string): map<string, string> {
    if Known(st, Stem(st, c)) && Stem(st, c) !in m then m[Stem(st, c) := c] else m
  }

  /** For each known stem of the cast, the first name that has it. */
  function Firsts(st: Store, cast: seq<string>): map<string, string> {
    if cast == [] then map[] else AddName(st, Firsts(st, cast[..|cast| - 1]), cast[|cast| - 1])
  }

  lemma FirstsSnoc(st: Store, cast: seq<string>, c: string)
    ensures Firsts(st, cast + [c]) == AddName(st, Firsts(st, cast), c)
  {
    assert (cast + [c])[..|cast|] == cast;
  }

  /** The loop over the cast, with `seen` and `chosen` kept in one map. */
  method Choose(st: Store, cast: seq<string>) returns (chosen: map<string, string>)
    ensures chosen == Firsts(st, cast)
  {
    chosen := map[];
    for i := 0 to |cast|
      invariant chosen == Firsts(st, cast[..i])
    {
      assert cast[..i + 1][..i] == cast[..i];
      var k := K.MakeKebab(st.alphabet, cast[i]);
      if k != "" && k !in chosen && k in st.dossiers {
        chosen := chosen[k := cast[i]];
      }
    }
    assert cast[..|cast|] == cast;
  }

  /** A dossier's text in the scope, if there is any. */
  function Body(st: Store, k: string): string {
    if k in st.dossiers && st.dossiers[k].Some? && st.dossiers[k].value != "" then
      Strip(st.facet(st.dossiers[k].value))
    else ""
  }

  function PieceOf(name: string, body: string): string {
    "## " + name + "\n" + body
  }

  /** The pieces of these stems, skipping those without text. */
  function Pieces(st: Store, chosen: map<string, string>, order: seq<string>): seq<string> {
    if order == [] then []
    else
      var k := order[|order| - 1];
      Pieces(st, chosen, order[..|order| - 1]) +
      if Body(st, k) == "" || k !in chosen then [] else [PieceOf(chosen[k], Body(st, k))]
  }

  /** All pieces of a cast, in the order of their stems. */
  function AllPieces(st: Store, cast: seq<string>): seq<string> {
    Pieces(st, Firsts(st, cast), Order.Sorted(Firsts(st, cast).Keys))
  }

  const SEP := "\n\n"

  function Cut(s: string, max: int): string {
    if max < 0 then "" else if |s| <= max then s else s[..max]
  }

  /** The plain definition: join everything, cut at the budget, strip. */
  function Retrieved(st: Store, cast: seq<string>, max: int): string {
    Strip(Cut(Join(SEP, AllPieces(st, cast)), max))
  }

  // ----- the loop that joins within the budget

  lemma {:induction false} JoinGrows(ps: seq<string>, n: nat)
    requires n < |ps| && ps[0] != ""
    ensures Join(SEP, ps[..n + 1]) <= Join(SEP, ps)
    ensures Join(SEP, ps[..n + 1]) == if n == 0 then ps[0] else Join(SEP, ps[..n]) + SEP + ps[n]
    ensures Join(SEP, ps[..n + 1]) != ""
    decreases |ps| - n
  {
    var head := ps[..n + 1];
    if n > 0 {
      assert head == ps[..n] + [ps[n]];
      JoinAppend(SEP, ps[..n], [ps[n]]);
    }
    if n + 1 < |ps| {
      assert ps == head + ps[n + 1..];
      JoinAppend(SEP, head, ps[n + 1..]);
      var j := Join(SEP, head);
      assert j <= j + SEP + Join(SEP, ps[n + 1..]);
    } else {
      assert head == ps;
    }
    if n > 0 {
      assert |Join(SEP, head)| >= |SEP|;
    }
  }

  predicate NonEmpty(ps: seq<string>) {
    forall i :: 0 <= i < |ps| ==> ps[i] != ""
  }

  /** Once the pieces so far overflow the budget, the rest do not matter. */
  lemma StopIsCut(ps: seq<string>, n: nat, max: int)
    requires n < |ps| && NonEmpty(ps) && |Join(SEP, ps[..n + 1])| > max
    ensures Cut(Join(SEP, ps[..n + 1]), max) == Cut(Join(SEP, ps), max)
  {
    JoinGrows(ps, n);
  }

  lemma JoinSnoc(ps: seq<string>, p: string)
    ensures Join(SEP, ps + [p]) == if ps == [] then p else Join(SEP, ps) + SEP + p
  {
    if ps == [] {
      assert ps + [p] == [p];
    } else {
      JoinAppend(SEP, ps, [p]);
    }
  }

  /** Cutting a joined text inside its separator leaves what is before it, up to white space. */
  lemma CutInSeparator(base: string, piece: string, max: int)
    requires |base| <= max <= |base| + 2
    ensures Strip((base + SEP + piece)[..max]) == Strip(base)
  {
    var tail := SEP[..max - |base|];
    assert (base + SEP + piece)[..max] == base + tail;
    StripAppendSpace(base, tail);
  }

  lemma CutInPiece(base: string, piece: string, room: nat)
    requires room <= |piece|
    ensures (base + SEP + piece)[..|base| + 2 + room] == base + SEP + piece[..room]
  {
  }

  /** The budget test of one round: the piece is added if the join stays within the budget;
      otherwise `full` ends the loop, with a join that is, up to white space at its ends, the join
      with the piece cut at the budget. */
  method Fit(parts: seq<string>, piece: string, max: int) returns (parts': seq<string>, full: bool)
    requires NonEmpty(parts) && piece != "" && (parts != [] ==> |Join(SEP, parts)| <= max)
    ensures full <==> |Join(SEP, parts + [piece])| > max
    ensures !full ==> parts' == parts + [piece]
    ensures full ==> Strip(Join(SEP, parts')) == Strip(Cut(Join(SEP, parts + [piece]), max))
  {
    var base := Join(SEP, parts);
    var sep := if base == "" then 0 else 2;
    JoinSnoc(parts, piece);
    if |base| + sep + |piece| > max {
      var room := max - |base| - sep;
      if room > 0 {
        JoinSnoc(parts, piece[..room]);
        if parts != [] {
          CutInPiece(base, piece, room);
        }
        return parts + [piece[..room]], true;
      }
      if parts != [] {
        CutInSeparator(base, piece, max);
      }
      return parts, true;
    }
    return parts + [piece], false;
  }

  lemma {:induction false} PiecesNonEmpty(st: Store, chosen: map<string, string>, order: seq<string>)
    ensures NonEmpty(Pieces(st, chosen, order))
  {
    if order != [] {
      PiecesNonEmpty(st, chosen, order[..|order| - 1]);
    }
  }

  lemma {:induction false} PiecesPrefix(st: Store, chosen: map<string, string>, order: seq<string>, i: nat)
    requires i <= |order|
    ensures Pieces(st, chosen, order[..i]) <= Pieces(st, chosen, order)
    decreases |order|
  {
    if i < |order| {
      var front := order[..|order| - 1];
      PiecesPrefix(st, chosen, front, i);
      assert front[..i] == order[..i];
    } else {
      assert order[..i] == order;
    }
  }

  lemma PiecesStep(st: Store, chosen: map<string, string>, order: seq<string>, i: nat)
    requires i < |order| && order[i] in chosen
    ensures Pieces(st, chosen, order[..i + 1]) == Pieces(st, chosen, order[..i]) +
      if Body(st, order[i]) == "" then [] else [PieceOf(chosen[order[i]], Body(st, order[i]))]
  {
    assert order[..i + 1][..i] == order[..i];
  }

  /** The loop's stop, in terms of the stems still to come. */
  lemma StopEarly(st: Store, chosen: map<string, string>, order: seq<string>, i: nat, max: int)
    requires i < |order| && order[i] in chosen && Body(st, order[i]) != ""
    requires |Join(SEP, Pieces(st, chosen, order[..i + 1]))| > max
    ensures Cut(Join(SEP, Pieces(st, chosen, order[..i + 1])), max) == Cut(Join(SEP, Pieces(st, chosen, order)), max)
  {
    var ps, head := Pieces(st, chosen, order), Pieces(st, chosen, order[..i + 1]);
    assert head != [] by {
      PiecesStep(st, chosen, order, i);
    }
    PiecesPrefix(st, chosen, order, i + 1);
    PiecesNonEmpty(st, chosen, order);
    assert ps[..|head|] == head;
    StopIsCut(ps, |head| - 1, max);
  }

  /** `retrieve`: the join loop gives what joining all pieces, cutting at the budget and stripping
      gives. */
  method Retrieve(st: Store, cast: seq<string>, max: int) returns (text: string)
    ensures text == Retrieved(st, cast, max)
  {
    var chosen := Choose(st, cast);
    var order := Order.Sorted(chosen.Keys);
    var parts: seq<string> := [];
    for i := 0 to |order|
      invariant parts == Pieces(st, chosen, order[..i])
      invariant parts != [] ==> |Join(SEP, parts)| <= max
    {
      var k := order[i];
      assert k in order;
      var body := Body(st, k);
      PiecesStep(st, chosen, order, i);
      PiecesNonEmpty(st, chosen, order[..i]);
      if body != "" {
        var full;
        parts, full := Fit(parts, PieceOf(chosen[k], body), max);
        if full {
          StopEarly(st, chosen, order, i, max);
          return Strip(Join(SEP, parts));
        }
      }
    }
    assert order[..|order|] == order;
    text := Strip(Join(SEP, parts));
  }

  // ----- the cast's order

  predicate HasStem(st: Store, cast: seq<string>, k: string) {
    cast != [] && (HasStem(st, cast[..|cast| - 1], k) || Stem(st, cast[|cast| - 1]) == k)
  }

  lemma {:induction false} HasStemOf(st: Store, cast: seq<string>, n: string)
    requires n in cast
    ensures HasStem(st, cast, Stem(st, n))
  {
    if n != cast[|cast| - 1] {
      HasStemOf(st, cast[..|cast| - 1], n);
    }
  }

  lemma {:induction false} FirstsAre(st: Store, cast: seq<string>, k: string)
    ensures k in Firsts(st, cast) <==> Known(st, k) && HasStem(st, cast, k)
    ensures k in Firsts(st, cast) ==> Firsts(st, cast)[k] in cast && Stem(st, Firsts(st, cast)[k]) == k
  {
    if cast != [] {
      FirstsAre(st, cast[..|cast| - 1], k);
    }
  }

  /** Two different names of the cast share a stem whose dossier shows. */
  predicate Clash(st: Store, cast: seq<string>, n: string, m: string) {
    && n in cast && m in cast && n != m
    && Stem(st, n) == Stem(st, m) && Known(st, Stem(st, n)) && Body(st, Stem(st, n)) != ""
  }

  ghost predicate NoClash(st: Store, cast: seq<string>) {
    forall n, m :: !Clash(st, cast, n, m)
  }

  predicate SameNames(cast: seq<string>, other: seq<string>) {
    (forall n :: n in cast ==> n in other) && (forall n :: n in other ==> n in cast)
  }

  lemma SameStems(st: Store, cast: seq<string>, other: seq<string>, k: string)
    requires SameNames(cast, other) && k in Firsts(st, cast)
    ensures k in Firsts(st, other)
    ensures NoClash(st, cast) && Body(st, k) != "" ==> Firsts(st, other)[k] == Firsts(st, cast)[k]
  {
    FirstsAre(st, cast, k);
    HasStemOf(st, other, Firsts(st, cast)[k]);
    FirstsAre(st, other, k);
    if NoClash(st, cast) {
      assert !Clash(st, cast, Firsts(st, cast)[k], Firsts(st, other)[k]);
    }
  }

  lemma {:induction false} SamePieces(st: Store, a: map<string, string>, b: map<string, string>, order: seq<string>)
    requires forall k :: k in order ==> k in a && k in b && (Body(st, k) != "" ==> a[k] == b[k])
    ensures Pieces(st, a, order) == Pieces(st, b, order)
  {
    if order != [] {
      SamePieces(st, a, b, order[..|order| - 1]);
      assert order[|order| - 1] in order;
    }
  }

  /** The same names give the same block, in any order and however often repeated, unless two of
      them share a stem whose dossier shows. */
  lemma OrderDoesNotMatter(st: Store, cast: seq<string>, other: seq<string>, max: int)
    requires SameNames(cast, other) && NoClash(st, cast)
    ensures Retrieved(st, cast, max) == Retrieved(st, other, max)
  {
    var a, b := Firsts(st, cast), Firsts(st, other);
    forall k | k in a
      ensures k in b && (Body(st, k) != "" ==> a[k] == b[k])
    {
      SameStems(st, cast, other, k);
    }
    forall k | k in b
      ensures k in a
    {
      SameStems(st, other, cast, k);
    }
    assert a.Keys == b.Keys;
    SamePieces(st, a, b, Order.Sorted(a.Keys));
  }

  // ----- when it does

  lemma AddToFirst(st: Store, m: map<string, string>, n: string, c: string)
    requires Known(st, Stem(st, n))
    ensures AddName(st, m[Stem(st, n) := n], c) == AddName(st, m, c)[Stem(st, n) := n]
  {
  }

  lemma {:induction false} FirstsCons(st: Store, n: string, cast: seq<string>)
    requires Known(st, Stem(st, n))
    ensures Firsts(st, [n] + cast) == Firsts(st, cast)[Stem(st, n) := n]
    decreases |cast|
  {
    if cast == [] {
      assert [n] + cast == [] + [n];
      FirstsSnoc(st, [], n);
    } else {
      var front, c := cast[..|cast| - 1], cast[|cast| - 1];
      var k := Stem(st, n);
      calc {
        Firsts(st, [n] + cast);
        { assert [n] + cast == ([n] + front) + [c]; FirstsSnoc(st, [n] + front, c); }
        AddName(st, Firsts(st, [n] + front), c);
        { FirstsCons(st, n, front); }
        AddName(st, Firsts(st, front)[k := n], c);
        { AddToFirst(st, Firsts(st, front), n, c); }
        AddName(st, Firsts(st, front), c)[k := n];
      }
    }
  }

  /** Two lists of pieces that differ, if at all, in the piece of one stem. */
  ghost predicate OneApart(xs: seq<string>, ys: seq<string>, x: string, y: string) {
    exists i :: 0 <= i < |xs| == |ys| && xs[i] == x && ys[i] == y && ys == xs[i := y]
  }

  lemma {:induction false} PiecesApart(
    st: Store, a: map<string, string>, k: string, n: string, m: string, order: seq<string>)
    requires k in order && Body(st, k) != ""
    requires forall i, j :: 0 <= i < j < |order| ==> order[i] != order[j]
    ensures OneApart(Pieces(st, a[k := n], order), Pieces(st, a[k := m], order),
                     PieceOf(n, Body(st, k)), PieceOf(m, Body(st, k)))
  {
    var front, last := order[..|order| - 1], order[|order| - 1];
    var xs, ys := Pieces(st, a[k := n], front), Pieces(st, a[k := m], front);
    if last == k {
      forall j | j in front
        ensures j != k
      {
      }
      Elsewhere(st, a, k, n, m, front);
      var x, y := PieceOf(n, Body(st, k)), PieceOf(m, Body(st, k));
      assert (xs + [x])[|xs|] == x && (xs + [y])[|xs|] == y && (xs + [x])[|xs| := y] == xs + [y];
    } else {
      PiecesApart(st, a, k, n, m, front);
      var i :| 0 <= i < |xs| == |ys| && xs[i] == PieceOf(n, Body(st, k)) && ys[i] == PieceOf(m, Body(st, k))
        && ys == xs[i := PieceOf(m, Body(st, k))];
      var tail := if Body(st, last) == "" || last !in a[k := n] then [] else [PieceOf(a[last], Body(st, last))];
      assert Pieces(st, a[k := n], order) == xs + tail && Pieces(st, a[k := m], order) == ys + tail;
      assert (xs + tail)[i := PieceOf(m, Body(st, k))] == ys + tail;
      assert (xs + tail)[i] == PieceOf(n, Body(st, k)) && (ys + tail)[i] == PieceOf(m, Body(st, k));
    }
  }

  lemma {:induction false} Elsewhere(st: Store, a: map<string, string>, k: string, n: string, m: string, order: seq<string>)
    requires k !in order
    ensures Pieces(st, a[k := n], order) == Pieces(st, a[k := m], order)
  {
    if order != [] {
      Elsewhere(st, a, k, n, m, order[..|order| - 1]);
      assert order[|order| - 1] != k;
    }
  }

  function Before(xs: seq<string>): string {
    if xs == [] then "" else Join(SEP, xs) + SEP
  }

  function After(xs: seq<string>): string {
    if xs == [] then "" else SEP + Join(SEP, xs)
  }

  lemma JoinAround(xs: seq<string>, x: string, ys: seq<string>)
    ensures Join(SEP, xs + [x] + ys) == Before(xs) + x + After(ys)
  {
    if ys != [] {
      JoinAppend(SEP, xs + [x], ys);
      assert Join(SEP, xs + [x]) + SEP + Join(SEP, ys) == Join(SEP, xs + [x]) + (SEP + Join(SEP, ys));
    } else {
      assert xs + [x] + ys == xs + [x];
    }
    JoinSnoc(xs, x);
  }

  lemma Cancel(p: string, x: string, y: string, s: string)
    requires p + x + s == p + y + s
    ensures x == y
  {
    var all := p + x + s;
    assert |x| == |y|;
    assert all[|p|..|p| + |x|] == x;
    assert (p + y + s)[|p|..|p| + |y|] == y;
  }

  lemma ApartJoins(xs: seq<string>, ys: seq<string>, x: string, y: string)
    requires OneApart(xs, ys, x, y) && Join(SEP, xs) == Join(SEP, ys)
    ensures x == y
  {
    var i :| 0 <= i < |xs| == |ys| && xs[i] == x && ys[i] == y && ys == xs[i := y];
    var front, back := xs[..i], xs[i + 1..];
    assert xs == front + [x] + back && ys == front + [y] + back;
    JoinAround(front, x, back);
    JoinAround(front, y, back);
    Cancel(Before(front), x, y, After(back));
  }

  lemma {:induction false} TidyPieces(st: Store, chosen: map<string, string>, order: seq<string>)
    ensures forall i :: 0 <= i < |Pieces(st, chosen, order)| ==> Tidy(Pieces(st, chosen, order)[i])
  {
    if order != [] {
      var k := order[|order| - 1];
      TidyPieces(st, chosen, order[..|order| - 1]);
      if Body(st, k) != "" && k in chosen {
        StripResult(st.facet(st.dossiers[k].value));
      }
    }
  }

  lemma JoinEnds(ps: seq<string>)
    requires ps != [] && Tidy(ps[|ps| - 1])
    ensures Join(SEP, ps) != "" && !IsSpace(Join(SEP, ps)[|Join(SEP, ps)| - 1])
  {
    var front, last := ps[..|ps| - 1], ps[|ps| - 1];
    assert ps == front + [last];
    JoinSnoc(front, last);
  }

  lemma TidyJoin(ps: seq<string>)
    requires forall i :: 0 <= i < |ps| ==> Tidy(ps[i])
    ensures Strip(Join(SEP, ps)) == Join(SEP, ps)
  {
    if ps != [] {
      assert Tidy(ps[0]) && Tidy(ps[|ps| - 1]);
      JoinEnds(ps);
    }
    StripTidy(Join(SEP, ps));
  }

  /** With room for everything, the block is the join. */
  lemma WholeBlock(st: Store, cast: seq<string>, max: int)
    requires |Join(SEP, AllPieces(st, cast))| <= max
    ensures Retrieved(st, cast, max) == Join(SEP, AllPieces(st, cast))
  {
    TidyPieces(st, Firsts(st, cast), Order.Sorted(Firsts(st, cast).Keys));
    TidyJoin(AllPieces(st, cast));
  }

  /** Which of two clashing spellings comes first shows. */
  lemma FirstShows(st: Store, cast: seq<string>, n: string, m: string)
    requires Clash(st, cast, n, m)
    ensures Join(SEP, AllPieces(st, [n] + cast)) != Join(SEP, AllPieces(st, [m] + cast))
  {
    var k, a := Stem(st, n), Firsts(st, cast);
    FirstsCons(st, n, cast);
    FirstsCons(st, m, cast);
    var keys := a[k := n].Keys;
    assert keys == a[k := m].Keys && k in keys;
    var order := Order.Sorted(keys);
    PiecesApart(st, a, k, n, m, order);
    if Join(SEP, AllPieces(st, [n] + cast)) == Join(SEP, AllPieces(st, [m] + cast)) {
      ApartJoins(Pieces(st, a[k := n], order), Pieces(st, a[k := m], order), PieceOf(n, Body(st, k)), PieceOf(m, Body(st, k)));
      PieceName(n, Body(st, k));
      PieceName(m, Body(st, k));
    }
  }

  /** A piece shows its name. */
  lemma PieceName(n: string, body: string)
    ensures |PieceOf(n, body)| == 4 + |n| + |body|
    ensures PieceOf(n, body)[3..3 + |n|] == n
  {
    var head := "## " + n;
    assert PieceOf(n, body) == head + ("\n" + body);
    assert head[3..] == n;
  }

  /** A name whose stem is unknown, or was already there, adds nothing. */
  lemma LaterSpelling(st: Store, cast: seq<string>, m: string, max: int)
    requires Stem(st, m) == "" || Stem(st, m) !in st.dossiers || exists n :: n in cast && Stem(st, n) == Stem(st, m)
    ensures Retrieved(st, cast + [m], max) == Retrieved(st, cast, max)
  {
    FirstsSnoc(st, cast, m);
    FirstsAre(st, cast, Stem(st, m));
    if exists n :: n in cast && Stem(st, n) == Stem(st, m) {
      var n :| n in cast && Stem(st, n) == Stem(st, m);
      HasStemOf(st, cast, n);
    }
  }

  /** The scope's part of a dossier that was read. */
  predicate Shows(st: Store, k: string, body: string) {
    k != "" && k in st.dossiers && st.dossiers[k].Some? && st.dossiers[k].value != ""
    && body != "" && Strip(st.facet(st.dossiers[k].value)) == body
  }

  /** One name: its dossier under it, cut at the budget, or nothing. */
  lemma OneShown(st: Store, n: string, b: string, max: int)
    ensures Shows(st, Stem(st, n), b) && 0 <= max ==>
      var block := "## " + n + "\n" + b;
      Retrieved(st, [n], max) == if |block| <= max then block else Strip(block[..max])
    ensures (forall c :: !Shows(st, Stem(st, n), c)) || max < 0 ==> Retrieved(st, [n], max) == ""
  {
    var k := Stem(st, n);
    FirstsSnoc(st, [], n);
    assert [] + [n] == [n];
    if Known(st, k) {
      Order.SortedOne(k);
      assert Firsts(st, [n]) == map[k := n] && map[k := n].Keys == {k};
      OnePiece(st, map[k := n], k);
      if Body(st, k) != "" {
        assert Shows(st, k, Body(st, k));
        if |Join(SEP, AllPieces(st, [n]))| <= max {
          WholeBlock(st, [n], max);
        }
      }
    } else {
      assert AllPieces(st, [n]) == [];
    }
  }

  /** Two dossiers with room for both: each under its name as given, an empty line between, in the order
      of the stems and not of the names. */
  lemma TwoShown(st: Store, n: string, m: string, b: string, c: string, max: int)
    requires Shows(st, Stem(st, n), b) && Shows(st, Stem(st, m), c)
    requires Stem(st, n) != Stem(st, m) && Order.Leq(Stem(st, n), Stem(st, m))
    ensures var block := "## " + n + "\n" + b + "\n\n## " + m + "\n" + c;
      |block| <= max ==> Retrieved(st, [n, m], max) == block && Retrieved(st, [m, n], max) == block
  {
    TwoFirsts(st, n, m);
    TwoFirsts(st, m, n);
    PairShown(st, [n, m], n, m, b, c, max);
    PairShown(st, [m, n], n, m, b, c, max);
  }

  lemma TwoFirsts(st: Store, n: string, m: string)
    requires Known(st, Stem(st, n)) && Known(st, Stem(st, m)) && Stem(st, n) != Stem(st, m)
    ensures Firsts(st, [n, m]) == map[Stem(st, n) := n, Stem(st, m) := m]
  {
    FirstsSnoc(st, [], n);
    FirstsSnoc(st, [n], m);
    assert [] + [n] == [n] && [n] + [m] == [n, m];
  }

  lemma PairShown(st: Store, cast: seq<string>, n: string, m: string, b: string, c: string, max: int)
    requires Body(st, Stem(st, n)) == b != "" && Body(st, Stem(st, m)) == c != ""
    requires Stem(st, n) != Stem(st, m) && Order.Leq(Stem(st, n), Stem(st, m))
    requires Firsts(st, cast) == map[Stem(st, n) := n, Stem(st, m) := m]
    ensures var block := "## " + n + "\n" + b + "\n\n## " + m + "\n" + c;
      |block| <= max ==> Retrieved(st, cast, max) == block
  {
    var k, l := Stem(st, n), Stem(st, m);
    var chosen := map[k := n, l := m];
    assert chosen.Keys == {k, l};
    Order.SortedPair(k, l);
    PairPieces(st, chosen, k, l);
    PairJoined(n, m, b, c);
    if |Join(SEP, AllPieces(st, cast))| <= max {
      WholeBlock(st, cast, max);
    }
  }

  lemma PairJoined(n: string, m: string, b: string, c: string)
    ensures Join(SEP, [PieceOf(n, b), PieceOf(m, c)]) == "## " + n + "\n" + b + "\n\n## " + m + "\n" + c
  {
    JoinSnoc([PieceOf(n, b)], PieceOf(m, c));
    assert [PieceOf(n, b)] + [PieceOf(m, c)] == [PieceOf(n, b), PieceOf(m, c)];
    assert PieceOf(n, b) + SEP + PieceOf(m, c) == "## " + n + "\n" + b + "\n\n## " + m + "\n" + c;
  }

  lemma OnePiece(st: Store, chosen: map<string, string>, k: string)
    requires k in chosen
    ensures Pieces(st, chosen, [k]) == if Body(st, k) == "" then [] else [PieceOf(chosen[k], Body(st, k))]
  {
    assert [k][..0] == [];
    assert Pieces(st, chosen, []) == [];
  }

  lemma PairPieces(st: Store, chosen: map<string, string>, k: string, l: string)
    requires k in chosen && l in chosen && Body(st, k) != "" && Body(st, l) != ""
    ensures Pieces(st, chosen, [k, l]) == [PieceOf(chosen[k], Body(st, k)), PieceOf(chosen[l], Body(st, l))]
  {
    assert [k, l][..1] == [k] && [k][..0] == [];
    assert Pieces(st, chosen, [k]) == [] + [PieceOf(chosen[k], Body(st, k))];
  }

  /** For any cast, with room for its pieces whichever name comes first: the block is the same for
      every order and repetition of the names exactly when no two different names share a stem
      whose dossier shows. */
  lemma SpellingShows(st: Store, cast: seq<string>, max: int)
    requires forall n :: n in cast ==> |Join(SEP, AllPieces(st, [n] + cast))| <= max
    ensures NoClash(st, cast) <==>
      forall other :: SameNames(cast, other) ==> Retrieved(st, other, max) == Retrieved(st, cast, max)
  {
    if NoClash(st, cast) {
      forall other | SameNames(cast, other)
        ensures Retrieved(st, other, max) == Retrieved(st, cast, max)
      {
        OrderDoesNotMatter(st, cast, other, max);
      }
    } else {
      var n, m :| Clash(st, cast, n, m);
      OneDiffers(st, cast, n, m, max);
    }
  }

  lemma OneDiffers(st: Store, cast: seq<string>, n: string, m: string, max: int)
    requires Clash(st, cast, n, m)
    ensures |Join(SEP, AllPieces(st, [n] + cast))| <= max && |Join(SEP, AllPieces(st, [m] + cast))| <= max ==>
      exists other :: SameNames(cast, other) && Retrieved(st, other, max) != Retrieved(st, cast, max)
  {
    RepeatFirst(cast, n);
    RepeatFirst(cast, m);
    FirstShows(st, cast, n, m);
    if |Join(SEP, AllPieces(st, [n] + cast))| <= max && |Join(SEP, AllPieces(st, [m] + cast))| <= max {
      WholeBlock(st, [n] + cast, max);
      WholeBlock(st, [m] + cast, max);
      EitherDiffers(st, cast, [n] + cast, [m] + cast, max);
    }
  }

  lemma RepeatFirst(cast: seq<string>, n: string)
    requires n in cast
    ensures SameNames(cast, [n] + cast)
  {
  }

  lemma EitherDiffers(st: Store, cast: seq<string>, a: seq<string>, b: seq<string>, max: int)
    requires SameNames(cast, a) && SameNames(cast, b)
    ensures Retrieved(st, a, max) != Retrieved(st, b, max) ==>
      exists other :: SameNames(cast, other) && Retrieved(st, other, max) != Retrieved(st, cast, max)
  {
  }
}
