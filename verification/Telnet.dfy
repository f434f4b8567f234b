/** Removing telnet commands from a byte string (cricket/mush/connection.py, tools/mush_admin.py).
    A byte string is the string of its code points 0 to 255, so Latin-1 decoding is the identity. */
module Telnet {
  import opened Wrappers

  const IAC: char := '\U{00FF}'
  const SB: char := '\U{00FA}'
  const SE: char := '\U{00F0}'

  /** WILL, WONT, DO, DONT. */
  predicate IsNegotiation(c: char) {
    '\U{00FB}' <= c <= '\U{00FE}'
  }

  predicate SubEndsAt(d: string, j: nat) {
    j + 1 < |d| && d[j] == IAC && d[j + 1] == SE
  }

  /** Just past the first IAC SE from `j` on, or past the end of the data. */
  function SubEnd(d: string, j: nat): (e: nat)
    ensures e >= j + 2
    decreases |d| - j
  {
    if j + 1 < |d| && !SubEndsAt(d, j) then SubEnd(d, j + 1) else j + 2
  }

  /** The first telnet item of the data: its text, its length, and whether it is all there. */
  datatype Token = Token(text: string, len: nat, whole: bool)

  function First(d: string): (t: Token)
    requires d != []
    ensures 0 < t.len <= |d|
  {
    if d[0] != IAC then Token([d[0]], 1, true)
    else if |d| == 1 then Token([], 1, false)
    else if d[1] == IAC then Token([IAC], 2, true)
    else if d[1] == SB then
      if SubEnd(d, 2) <= |d| then Token([], SubEnd(d, 2), true) else Token([], |d|, false)
    else if IsNegotiation(d[1]) then
      if |d| >= 3 then Token([], 3, true) else Token([], |d|, false)
    else Token([], 2, true)
  }

  /** The text of the data, all telnet commands removed. */
  function Strip(d: string): string {
    if d == [] then [] else First(d).text + Strip(d[First(d).len..])
  }

  /** The data does not end inside a telnet command. */
  predicate Whole(d: string) {
    d == [] || (First(d).whole && Whole(d[First(d).len..]))
  }

  /** No escaped IAC among the data's items. */
  predicate NoEscape(d: string) {
    d == [] || (First(d).text != [IAC] && NoEscape(d[First(d).len..]))
  }

  lemma {:induction false} SubEndAppend(a: string, b: string, j: nat)
    requires SubEnd(a, j) <= |a|
    ensures SubEnd(a + b, j) == SubEnd(a, j)
    decreases |a| - j
  {
    if j + 1 < |a| && !SubEndsAt(a, j) {
      SubEndAppend(a, b, j + 1);
    }
  }

  lemma FirstAppend(a: string, b: string)
    requires a != [] && First(a).whole
    ensures First(a + b) == First(a)
    ensures (a + b)[First(a).len..] == a[First(a).len..] + b
  {
    assert (a + b)[0] == a[0];
    if a[0] == IAC {
      assert (a + b)[1] == a[1];
      if a[1] == SB {
        SubEndAppend(a, b, 2);
      }
    }
  }

  /** At a command boundary, stripping splits. */
  lemma {:induction false} StripAppend(a: string, b: string)
    requires Whole(a)
    ensures Strip(a + b) == Strip(a) + Strip(b)
    ensures Whole(a + b) <==> Whole(b)
    ensures NoEscape(a + b) <==> NoEscape(a) && NoEscape(b)
    decreases |a|
  {
    if a == [] {
      assert a + b == b;
    } else {
      var t, tail := First(a), a[First(a).len..];
      FirstAppend(a, b);
      StripAppend(tail, b);
      assert Strip(a + b) == t.text + Strip(tail + b);
      Assoc(t.text, Strip(tail), Strip(b));
    }
  }

  lemma {:induction false} SubEndOpen(a: string, c: char, j: nat)
    requires SubEnd(a, j) > |a| && c != SE
    ensures SubEnd(a + [c], j) > |a| + 1
    decreases |a| - j
  {
    if j + 1 < |a| && !SubEndsAt(a, j) {
      SubEndOpen(a, c, j + 1);
    } else if j + 1 < |a| + 1 {
      assert (a + [c])[|a|] == c;
    }
  }

  /** An ordinary character after a cut command is swallowed by it. */
  lemma {:induction false} CutSwallows(a: string, c: char)
    requires !Whole(a) && c != IAC && c != SE
    ensures Strip(a + [c]) == Strip(a)
    decreases |a|
  {
    var t := First(a);
    if t.whole {
      FirstAppend(a, [c]);
      CutSwallows(a[t.len..], c);
    } else {
      assert (a + [c])[0] == IAC;
      assert a[t.len..] == [];
      if |a| > 1 && a[1] == SB {
        SubEndOpen(a, c, 2);
      }
      assert First(a + [c]).len == |a| + 1;
      assert (a + [c])[|a| + 1..] == [];
    }
  }

  /** Stripping in two parts is right for whatever follows exactly at a command boundary. */
  lemma CutIsSafe(a: string)
    ensures Whole(a) <==> forall b :: Strip(a + b) == Strip(a) + Strip(b)
  {
    if Whole(a) {
      forall b
        ensures Strip(a + b) == Strip(a) + Strip(b)
      {
        StripAppend(a, b);
      }
    } else {
      CutSwallows(a, 'A');
      assert ['A'][1..] == [];
      assert Strip(['A']) == ['A'] + Strip([]);
      assert |Strip(a) + Strip(['A'])| == |Strip(a)| + 1;
    }
  }

  // ----- stripping twice

  lemma {:induction false} StripPlain(d: string)
    requires IAC !in d
    ensures Strip(d) == d && Whole(d) && NoEscape(d)
  {
    if d != [] {
      StripPlain(d[1..]);
      assert [d[0]] + d[1..] == d;
    }
  }

  lemma {:induction false} StripShrinks(d: string)
    ensures |Strip(d)| <= |d|
    ensures IAC in d ==> |Strip(d)| < |d|
    decreases |d|
  {
    if d != [] {
      StripShrinks(d[First(d).len..]);
      if d[0] != IAC {
        assert d == [d[0]] + d[1..];
      }
    }
  }

  lemma {:induction false} StripClean(d: string)
    requires NoEscape(d)
    ensures IAC !in Strip(d)
    decreases |d|
  {
    if d != [] {
      StripClean(d[First(d).len..]);
    }
  }

  /** Text left over can be stripped again, whatever whole data follows it, exactly when it
      holds no IAC. */
  lemma RestripIsSafe(r: string)
    ensures IAC !in r <==> forall c :: Whole(c) ==> Strip(r + c) == r + Strip(c)
  {
    if IAC !in r {
      StripPlain(r);
      forall c | Whole(c)
        ensures Strip(r + c) == r + Strip(c)
      {
        StripAppend(r, c);
      }
    } else {
      assert r + [] == r && Whole([]);
      StripShrinks(r);
      assert Strip(r + []) != r + Strip([]);
    }
  }

  // ----- what the wire means (RFC 854, "TELNET COMMAND STRUCTURE"; RFC 855 for SB ... SE)

  datatype Item =
    | Data(c: char)
    | Escaped
    | Command(cmd: char)
    | Negotiation(cmd: char, option: char)
    | Sub(payload: string)

  ghost predicate GoodItem(item: Item) {
    match item
    case Data(c) => c != IAC
    case Escaped => true
    case Command(cmd) => cmd != IAC && cmd != SB && !IsNegotiation(cmd)
    case Negotiation(cmd, _) => IsNegotiation(cmd)
    case Sub(payload) => forall j: nat :: !SubEndsAt(payload, j)
  }

  function ItemBytes(item: Item): string {
    match item
    case Data(c) => [c]
    case Escaped => [IAC, IAC]
    case Command(cmd) => [IAC, cmd]
    case Negotiation(cmd, option) => [IAC, cmd, option]
    case Sub(payload) => [IAC, SB] + payload + [IAC, SE]
  }

  function ItemText(item: Item): string {
    match item
    case Data(c) => [c]
    case Escaped => [IAC]
    case _ => []
  }

  function Bytes(items: seq<Item>): string {
    if items == [] then [] else ItemBytes(items[0]) + Bytes(items[1..])
  }

  function Text(items: seq<Item>): string {
    if items == [] then [] else ItemText(items[0]) + Text(items[1..])
  }

  ghost predicate Good(items: seq<Item>) {
    forall i :: 0 <= i < |items| ==> GoodItem(items[i])
  }

  lemma {:induction false} SubEndOfPayload(payload: string, j: nat)
    requires forall k: nat :: !SubEndsAt(payload, k)
    requires 2 <= j <= |payload| + 2
    ensures SubEnd([IAC, SB] + payload + [IAC, SE], j) == |payload| + 4
    decreases |payload| + 2 - j
  {
    var d := [IAC, SB] + payload + [IAC, SE];
    if j < |payload| + 2 {
      assert d[j] == payload[j - 2];
      assert d[j + 1] == if j - 1 < |payload| then payload[j - 1] else IAC;
      assert !SubEndsAt(payload, j - 2);
      SubEndOfPayload(payload, j + 1);
    } else {
      assert d[j] == IAC && d[j + 1] == SE;
    }
  }

  lemma FirstItem(item: Item)
    requires GoodItem(item)
    ensures First(ItemBytes(item)) == Token(ItemText(item), |ItemBytes(item)|, true)
  {
    if item.Sub? {
      SubEndOfPayload(item.payload, 2);
    }
  }

  lemma OneItem(item: Item)
    requires GoodItem(item)
    ensures Strip(ItemBytes(item)) == ItemText(item) && Whole(ItemBytes(item))
  {
    FirstItem(item);
    assert ItemBytes(item)[|ItemBytes(item)|..] == [];
  }

  /** Stripping the wire form of any telnet items gives their text. */
  lemma {:induction false} StripReadsItems(items: seq<Item>)
    requires Good(items)
    ensures Strip(Bytes(items)) == Text(items) && Whole(Bytes(items))
  {
    if items != [] {
      OneItem(items[0]);
      StripReadsItems(items[1..]);
      StripAppend(ItemBytes(items[0]), Bytes(items[1..]));
    }
  }

  /** The bytes of RFC 854 and RFC 855 by their numbers: 255 is IAC, 251 to 254 take an option byte, 250
      begins and 240 ends a subnegotiation. */
  lemma WireNumbers(c: char, option: char, payload: string, rest: string)
    ensures c as int != 255 ==> Strip([c] + rest) == [c] + Strip(rest)
    ensures Strip([255 as char, 255 as char] + rest) == [255 as char] + Strip(rest)
    ensures c as int < 250 ==> Strip([255 as char, c] + rest) == Strip(rest)
    ensures 251 <= c as int <= 254 ==> Strip([255 as char, c, option] + rest) == Strip(rest)
    ensures (forall j :: 0 <= j < |payload| - 1 && payload[j] as int == 255 ==> payload[j + 1] as int != 240) ==>
      Strip([255 as char, 250 as char] + payload + [255 as char, 240 as char] + rest) == Strip(rest)
  {
    ItemThen(Escaped, rest);
    if c as int != 255 {
      ItemThen(Data(c), rest);
    }
    if c as int < 250 {
      ItemThen(Command(c), rest);
    }
    if 251 <= c as int <= 254 {
      ItemThen(Negotiation(c, option), rest);
    }
    if forall j :: 0 <= j < |payload| - 1 && payload[j] as int == 255 ==> payload[j + 1] as int != 240 {
      assert forall j: nat :: !SubEndsAt(payload, j);
      ItemThen(Sub(payload), rest);
    }
  }

  lemma ItemThen(item: Item, rest: string)
    requires GoodItem(item)
    ensures Strip(ItemBytes(item) + rest) == ItemText(item) + Strip(rest)
  {
    OneItem(item);
    StripAppend(ItemBytes(item), rest);
  }

  lemma {:induction false} SubEndFound(d: string, j: nat)
    requires SubEnd(d, j) <= |d|
    ensures SubEndsAt(d, SubEnd(d, j) - 2)
    ensures forall k :: j <= k < SubEnd(d, j) - 2 ==> !SubEndsAt(d, k)
    decreases |d| - j
  {
    if j + 1 < |d| && !SubEndsAt(d, j) {
      SubEndFound(d, j + 1);
    }
  }

  lemma ItemAt(d: string) returns (item: Item)
    requires d != [] && First(d).whole
    ensures GoodItem(item) && d == ItemBytes(item) + d[First(d).len..]
  {
    var len := First(d).len;
    assert d == d[..len] + d[len..];
    if d[0] != IAC {
      item := Data(d[0]);
    } else if d[1] == IAC {
      item := Escaped;
    } else if d[1] == SB {
      SubEndFound(d, 2);
      var payload := d[2..len - 2];
      forall j: nat
        ensures !SubEndsAt(payload, j)
      {
        if j + 1 < |payload| {
          assert payload[j] == d[j + 2] && payload[j + 1] == d[j + 3];
          assert !SubEndsAt(d, j + 2);
        }
      }
      item := Sub(payload);
      assert d[..len] == [IAC, SB] + payload + [IAC, SE];
    } else if IsNegotiation(d[1]) {
      item := Negotiation(d[1], d[2]);
    } else {
      item := Command(d[1]);
    }
    assert d[..len] == ItemBytes(item);
  }

  /** Data that ends at a command boundary is the wire form of telnet items, and nothing else is. */
  lemma {:induction false} WholeIsItems(d: string) returns (items: seq<Item>)
    requires Whole(d)
    ensures Good(items) && Bytes(items) == d
    decreases |d|
  {
    if d == [] {
      items := [];
    } else {
      var item := ItemAt(d);
      var rest := WholeIsItems(d[First(d).len..]);
      items := [item] + rest;
      assert items[1..] == rest;
    }
  }

  // ----- the two strippers

  function Without(c: char, s: string): string {
    if s == [] then [] else (if s[0] == c then [] else [s[0]]) + Without(c, s[1..])
  }

  lemma {:induction false} WithoutAppend(c: char, a: string, b: string)
    ensures Without(c, a + b) == Without(c, a) + Without(c, b)
  {
    if a == [] {
      assert a + b == b;
    } else {
      assert (a + b)[1..] == a[1..] + b;
      WithoutAppend(c, a[1..], b);
    }
  }

  lemma SubEndDrop(d: string, i: nat, j: nat)
    requires i <= |d| && 2 <= j
    ensures SubEnd(d, i + j) == i + SubEnd(d[i..], j)
    decreases |d| - i - j
  {
    if i + j + 1 < |d| {
      assert d[i..][j] == d[i + j] && d[i..][j + 1] == d[i + j + 1];
      if !SubEndsAt(d, i + j) {
        SubEndDrop(d, i, j + 1);
      }
    }
  }

  /** Where the item at index `i` ends; a cut command may end past the data. */
  function ItemEnd(d: string, i: nat): (e: nat)
    requires i < |d|
    ensures e > i
  {
    if d[i] != IAC then i + 1
    else if i + 1 >= |d| then |d|
    else if d[i + 1] == SB then SubEnd(d, i + 2)
    else if IsNegotiation(d[i + 1]) then i + 3
    else i + 2
  }

  function ItemOut(d: string, i: nat): string
    requires i < |d|
  {
    if d[i] != IAC then [d[i]]
    else if i + 1 < |d| && d[i + 1] == IAC then [IAC]
    else []
  }

  /** The text of the items from index `i` on. */
  function StripFrom(d: string, i: nat): string
    decreases |d| - i
  {
    if i < |d| then ItemOut(d, i) + StripFrom(d, ItemEnd(d, i)) else []
  }

  lemma FirstAt(d: string, i: nat)
    requires i < |d|
    ensures First(d[i..]).text == ItemOut(d, i)
    ensures First(d[i..]).len == if ItemEnd(d, i) <= |d| then ItemEnd(d, i) - i else |d| - i
  {
    SubEndDrop(d, i, 2);
  }

  lemma StripFirst(d: string, text: string, len: nat)
    requires d != [] && First(d).text == text && First(d).len == len
    ensures Strip(d) == text + Strip(d[len..])
  {
  }

  lemma {:induction false} StripIndexed(d: string, i: nat)
    ensures StripFrom(d, i) == if i < |d| then Strip(d[i..]) else []
    decreases |d| - i
  {
    if i < |d| {
      var e := if ItemEnd(d, i) <= |d| then ItemEnd(d, i) else |d|;
      FirstAt(d, i);
      StripIndexed(d, ItemEnd(d, i));
      StripFirst(d[i..], ItemOut(d, i), e - i);
      assert d[i..][e - i..] == d[e..];
    }
  }

  lemma StepText(out: string, d: string, i: nat)
    requires i < |d|
    ensures out + StripFrom(d, i) == (out + ItemOut(d, i)) + StripFrom(d, ItemEnd(d, i))
  {
    Assoc(out, ItemOut(d, i), StripFrom(d, ItemEnd(d, i)));
  }

  /** `strip_telnet`. */
  method StripTelnet(data: string) returns (out: string)
    ensures out == Strip(data)
  {
    out := [];
    var i, n := 0, |data|;
    StripIndexed(data, 0);
    assert data[0..] == data;
    while i < n
      invariant Strip(data) == out + StripFrom(data, i)
      decreases n - i
    {
      StepText(out, data, i);
      var b := data[i];
      if b != IAC {
        out := out + [b];
        i := i + 1;
      } else if i + 1 >= n {
        i := n;
      } else {
        var out', i' := StripCommand(data, i, out);
        out, i := out', i';
      }
    }
  }

  /** The branch of `strip_telnet` on the byte after an IAC. */
  method StripCommand(data: string, i: nat, out: string) returns (out': string, i': nat)
    requires i + 1 < |data| && data[i] == IAC
    ensures out' == out + ItemOut(data, i) && i' == ItemEnd(data, i)
  {
    var cmd, n := data[i + 1], |data|;
    out' := out;
    if cmd == IAC {
      out' := out + [IAC];
      i' := i + 2;
    } else if cmd == SB {
      var j := i + 2;
      while j + 1 < n && !(data[j] == IAC && data[j + 1] == SE)
        invariant i + 2 <= j && SubEnd(data, j) == SubEnd(data, i + 2)
        decreases n - j
      {
        j := j + 1;
      }
      i' := j + 2;
    } else if IsNegotiation(cmd) {
      i' := i + 3;
    } else {
      i' := i + 2;
    }
  }

  /** `data.find(b"\xff\xf0", i)`, with the length of the data for -1. */
  method FindSubEnd(data: string, i: nat) returns (j: nat)
    requires i <= |data|
    ensures i <= j <= |data|
    ensures j < |data| ==> SubEndsAt(data, j)
    ensures forall k :: i <= k < j ==> !SubEndsAt(data, k)
  {
    j := i;
    while j < |data|
      invariant i <= j <= |data|
      invariant forall k :: i <= k < j ==> !SubEndsAt(data, k)
    {
      if j + 1 < |data| && data[j] == IAC && data[j + 1] == SE {
        return;
      }
      j := j + 1;
    }
  }

  lemma {:induction false} SubEndIs(d: string, j: nat, e: nat)
    requires j <= e
    requires forall k :: j <= k < e ==> !SubEndsAt(d, k)
    ensures e < |d| && SubEndsAt(d, e) ==> SubEnd(d, j) == e + 2
    ensures e >= |d| ==> SubEnd(d, j) > |d|
    decreases e - j
  {
    if j < e {
      assert !SubEndsAt(d, j);
      SubEndIs(d, j + 1, e);
    }
  }

  /** `strip_iac`: the other stripper drops an escaped IAC too, and differs in nothing else,
      unterminated and truncated commands included. */
  method StripIac(data: string) returns (out: string)
    ensures out == Without(IAC, Strip(data))
  {
    out := [];
    var i, n := 0, |data|;
    StripIndexed(data, 0);
    assert data[0..] == data;
    while i < n
      invariant Without(IAC, Strip(data)) == out + Without(IAC, StripFrom(data, i))
      decreases n - i
    {
      var b := data[i];
      if b == IAC {
        WithoutSkip(data, i);
        i := SkipIac(data, i);
      } else {
        WithoutKeep(out, data, i);
        out := out + [b];
        i := i + 1;
      }
    }
  }

  /** The branch of `strip_iac` on an IAC; an unterminated command skips all the data. */
  method SkipIac(data: string, i: nat) returns (i': nat)
    requires i < |data| && data[i] == IAC
    ensures StripFrom(data, i') == StripFrom(data, ItemEnd(data, i)) && i' > i
  {
    if i + 1 >= |data| {
      return |data|;
    }
    var cmd := data[i + 1];
    if IsNegotiation(cmd) {
      return i + 3;
    }
    if cmd == SB {
      var j := FindSubEnd(data, i);
      SubEndFoundAt(data, i, j);
      return if j == |data| then j else j + 2;
    }
    return i + 2;
  }

  lemma WithoutSkip(d: string, i: nat)
    requires i < |d| && d[i] == IAC
    ensures Without(IAC, StripFrom(d, i)) == Without(IAC, StripFrom(d, ItemEnd(d, i)))
  {
    WithoutAppend(IAC, ItemOut(d, i), StripFrom(d, ItemEnd(d, i)));
    WithoutItem(d, i);
  }

  lemma WithoutKeep(out: string, d: string, i: nat)
    requires i < |d| && d[i] != IAC
    ensures out + Without(IAC, StripFrom(d, i)) == (out + [d[i]]) + Without(IAC, StripFrom(d, i + 1))
  {
    WithoutAppend(IAC, ItemOut(d, i), StripFrom(d, i + 1));
    WithoutItem(d, i);
    Assoc(out, [d[i]], Without(IAC, StripFrom(d, i + 1)));
  }

  lemma WithoutItem(d: string, i: nat)
    requires i < |d|
    ensures Without(IAC, ItemOut(d, i)) == if d[i] == IAC then [] else [d[i]]
  {
    assert [d[i]][1..] == [] && [IAC][1..] == [];
  }

  /** Searching from the IAC of IAC SB finds what searching past it finds. */
  lemma SubEndFoundAt(data: string, i: nat, j: nat)
    requires i + 1 < |data| && data[i] == IAC && data[i + 1] == SB && i <= j <= |data|
    requires j < |data| ==> SubEndsAt(data, j)
    requires forall k :: i <= k < j ==> !SubEndsAt(data, k)
    ensures j < |data| ==> j >= i + 2 && SubEnd(data, i + 2) == j + 2
    ensures j == |data| ==> SubEnd(data, i + 2) > |data|
  {
    assert !SubEndsAt(data, i) && !SubEndsAt(data, i + 1);
    SubEndIs(data, i + 2, if j < i + 2 then i + 2 else j);
  }
}
