/** The nesting fence that runs over raw text before the recursive decoder sees it.

    The scan is specified twice, independently of its code: by what its depth is on any text at all
    (the largest surplus of openers over closers ending here), and by what its peak is on the text
    of a JSON value (that value's nesting). */
module JsonScan {
  import opened Arithmetic

  const MAX_NESTING_DEPTH := 128

  // ---------------------------------------------------------------- the scan

  datatype Scan = Scan(depth: nat, inString: bool, escaped: bool)

  const START := Scan(0, false, false)

  function Advance(s: Scan, c: char): Scan {
    if s.inString then
      if s.escaped then s.(escaped := false)
      else if c == '\\' then s.(escaped := true)
      else if c == '"' then s.(inString := false)
      else s
    else if c == '"' then s.(inString := true)
    else if c == '[' || c == '{' then s.(depth := s.depth + 1)
    else if (c == ']' || c == '}') && s.depth > 0 then s.(depth := s.depth - 1)
    else s
  }

  function RunScan(s: Scan, text: string): Scan
    decreases text
  {
    if text == "" then s else RunScan(Advance(s, text[0]), text[1..])
  }

  /** The greatest depth met. */
  function Peak(s: Scan, text: string): (p: nat)
    ensures p >= s.depth
    decreases text
  {
    if text == "" then s.depth else Max(s.depth, Peak(Advance(s, text[0]), text[1..]))
  }

  lemma OneCharacter(s: Scan, c: char)
    ensures RunScan(s, [c]) == Advance(s, c) && Peak(s, [c]) == Max(s.depth, Advance(s, c).depth)
  {
    assert [c][1..] == "";
  }

  /** On any text: outside strings only quotes and brackets matter, and a backslash is nothing
      special; inside them only an unescaped quote does, and a backslash hides whatever follows. */
  lemma StringsHide(d: nat, c: char)
    ensures c !in "\"[]{}" ==> RunScan(Scan(d, false, false), [c]) == Scan(d, false, false)
    ensures c !in "\"\\" ==> RunScan(Scan(d, true, false), [c]) == Scan(d, true, false)
    ensures RunScan(Scan(d, true, false), ['\\', c]) == Scan(d, true, false)
    ensures RunScan(Scan(d, false, false), "\"\"") == Scan(d, false, false)
  {
    assert ['\\', c][1..] == [c] && [c][1..] == "" && "\"\""[1..] == "\"" && "\""[1..] == "";
    OneCharacter(Scan(d, true, true), c);
  }

  lemma {:induction false} RunConcat(s: Scan, a: string, b: string)
    ensures RunScan(s, a + b) == RunScan(RunScan(s, a), b)
    ensures Peak(s, a + b) == Max(Peak(s, a), Peak(RunScan(s, a), b))
    decreases a
  {
    if a == "" {
      assert a + b == b;
    } else {
      assert (a + b)[1..] == a[1..] + b && (a + b)[0] == a[0];
      RunConcat(Advance(s, a[0]), a[1..], b);
    }
  }

  /** The fence accepts exactly the texts whose peak is within the limit. */
  method ValidateJsonNestingBeforeDecode(text: string) returns (ok: bool)
    ensures ok <==> Peak(START, text) <= MAX_NESTING_DEPTH
  {
    var depth, inString, escaped := 0, false, false;
    for i := 0 to |text|
      invariant 0 <= depth <= MAX_NESTING_DEPTH
      invariant RunScan(START, text[..i]) == Scan(depth, inString, escaped)
      invariant Peak(START, text[..i]) <= MAX_NESTING_DEPTH
    {
      var c := text[i];
      ghost var before := Scan(depth, inString, escaped);
      assert text[..i + 1] == text[..i] + [c];
      RunConcat(START, text[..i], [c]);
      OneCharacter(before, c);
      if inString {
        if escaped {
          escaped := false;
        } else if c == '\\' {
          escaped := true;
        } else if c == '"' {
          inString := false;
        }
        continue;
      }
      if c == '"' {
        inString := true;
      } else if c == '[' || c == '{' {
        depth := depth + 1;
        if depth > MAX_NESTING_DEPTH {
          assert text == text[..i + 1] + text[i + 1..];
          RunConcat(START, text[..i + 1], text[i + 1..]);
          return false;
        }
      } else if (c == ']' || c == '}') && depth > 0 {
        depth := depth - 1;
      }
    }
    assert text[..|text|] == text;
    return true;
  }

  // ------------------------------------- what the depth is, on any text at all

  /** Whether a prefix ends inside a string, and on a pending backslash: the quoting alone. */
  function Quoting(text: string): (r: (bool, bool))
  {
    if text == "" then (false, false)
    else
      var (inString, escaped) := Quoting(text[..|text| - 1]);
      var c := text[|text| - 1];
      if !inString then (c == '"', false)
      else if escaped then (true, false)
      else (c != '"', c == '\\')
  }

  /** +1 for an opener outside strings, -1 for a closer, 0 otherwise. */
  function Weight(text: string, i: nat): (w: int)
    requires i < |text|
  {
    var c := text[i];
    if Quoting(text[..i]).0 then 0
    else if c == '[' || c == '{' then 1
    else if c == ']' || c == '}' then -1
    else 0
  }

  /** Openers minus closers over the stretch `text[j..i]`. */
  function Net(text: string, j: nat, i: nat): (n: int)
    requires j <= i <= |text|
  {
    if j == i then 0 else Net(text, j, i - 1) + Weight(text, i - 1)
  }

  /** At every position the depth is the largest net count over any stretch ending there, so
      closers that come first cannot hide nesting that comes later. */
  lemma {:induction false} DepthIsLargestNet(text: string, i: nat) returns (from: nat)
    requires i <= |text|
    ensures var s := RunScan(START, text[..i]); (s.inString, s.escaped) == Quoting(text[..i])
    ensures forall j | 0 <= j <= i :: Net(text, j, i) <= RunScan(START, text[..i]).depth
    ensures from <= i && Net(text, from, i) == RunScan(START, text[..i]).depth
  {
    if i == 0 {
      from := 0;
      assert text[..0] == "";
    } else {
      var k := i - 1;
      from := DepthIsLargestNet(text, k);
      var c := text[k];
      assert text[..i] == text[..k] + [c] && text[..i][..k] == text[..k];
      RunConcat(START, text[..k], [c]);
      var s := RunScan(START, text[..k]);
      OneCharacter(s, c);
      forall j | 0 <= j <= i ensures Net(text, j, i) <= Advance(s, c).depth {
        if j < i { assert Net(text, j, k) <= s.depth; }
      }
      if Advance(s, c).depth != Net(text, from, i) {
        assert s.depth == 0;
        from := i;
      }
    }
  }

  /** Hence the fence accepts exactly the texts no stretch of which opens more than 128 containers
      more than it closes. */
  lemma PeakBoundsEveryStretch(text: string)
    ensures Peak(START, text) <= MAX_NESTING_DEPTH <==>
              forall j, i | 0 <= j <= i <= |text| :: Net(text, j, i) <= MAX_NESTING_DEPTH
  {
    if Peak(START, text) <= MAX_NESTING_DEPTH {
      forall j, i | 0 <= j <= i <= |text| ensures Net(text, j, i) <= MAX_NESTING_DEPTH {
        var _ := DepthIsLargestNet(text, i);
        PeakAbovePrefix(text, i);
      }
    } else {
      var i := PeakIsReached(START, text);
      var from := DepthIsLargestNet(text, i);
      assert Net(text, from, i) > MAX_NESTING_DEPTH;
    }
  }

  lemma PeakAbovePrefix(text: string, i: nat)
    requires i <= |text|
    ensures RunScan(START, text[..i]).depth <= Peak(START, text)
  {
    assert text == text[..i] + text[i..];
    RunConcat(START, text[..i], text[i..]);
  }

  lemma {:induction false} PeakIsReached(s: Scan, text: string) returns (i: nat)
    ensures i <= |text| && RunScan(s, text[..i]).depth == Peak(s, text)
    decreases text
  {
    if text == "" || Peak(s, text) == s.depth {
      i := 0;
      assert text[..0] == "";
    } else {
      var k := PeakIsReached(Advance(s, text[0]), text[1..]);
      i := k + 1;
      assert text[..i][1..] == text[1..][..k] && text[..i][0] == text[0];
    }
  }

  // ----------------------------------------------- the texts of JSON values

  /** One character of a string literal, as section 7 of RFC 8259 spells it. */
  datatype StringItem = Plain(c: char) | Escape(c: char) | Unicode(hex: string)

  predicate IsHex(c: char) {
    '0' <= c <= '9' || 'a' <= c <= 'f' || 'A' <= c <= 'F'
  }

  predicate ItemOk(i: StringItem) {
    match i
    case Plain(c) => c >= ' ' && c != '"' && c != '\\'
    case Escape(c) => c in "\"\\/bfnrt"
    case Unicode(hex) => |hex| == 4 && forall k :: 0 <= k < |hex| ==> IsHex(hex[k])
  }

  function ItemText(i: StringItem): string {
    match i
    case Plain(c) => [c]
    case Escape(c) => ['\\', c]
    case Unicode(hex) => "\\u" + hex
  }

  function ItemsText(items: seq<StringItem>): string {
    if items == [] then "" else ItemText(items[0]) + ItemsText(items[1..])
  }

  predicate ItemsOk(items: seq<StringItem>) {
    forall i :: 0 <= i < |items| ==> ItemOk(items[i])
  }

  /** A JSON text as a concrete syntax tree: numbers and literals by their characters, strings by
      their items, containers with all their white space. */
  datatype Json =
    | Atom(token: string)
    | Str(items: seq<StringItem>)
    | Arr(blank: string, elements: Elements)
    | Obj(blank: string, members: Members)
  datatype Elements = NoElement | Element(before: string, value: Json, after: string, rest: Elements)
  datatype Members =
    | NoMember
    | Member(before: string, key: seq<StringItem>, afterKey: string, beforeValue: string, value: Json, after: string, rest: Members)

  predicate Blank(s: string) {
    forall i :: 0 <= i < |s| ==> s[i] in " \t\r\n"
  }

  /** Numbers and literal names use none of the characters the scan reacts to. */
  predicate TokenOk(s: string) {
    forall i :: 0 <= i < |s| ==> s[i] !in "\"\\[]{}"
  }

  predicate JsonOk(j: Json) {
    match j
    case Atom(t) => TokenOk(t)
    case Str(items) => ItemsOk(items)
    case Arr(b, es) => Blank(b) && ElementsOk(es)
    case Obj(b, ms) => Blank(b) && MembersOk(ms)
  }
  predicate ElementsOk(es: Elements) {
    es.Element? ==> Blank(es.before) && JsonOk(es.value) && Blank(es.after) && ElementsOk(es.rest)
  }
  predicate MembersOk(ms: Members) {
    ms.Member? ==>
      Blank(ms.before) && ItemsOk(ms.key) && Blank(ms.afterKey) && Blank(ms.beforeValue) &&
      JsonOk(ms.value) && Blank(ms.after) && MembersOk(ms.rest)
  }

  function Quoted(items: seq<StringItem>): string {
    "\"" + (ItemsText(items) + "\"")
  }

  function Write(j: Json): string {
    match j
    case Atom(t) => t
    case Str(items) => Quoted(items)
    case Arr(b, es) => "[" + (b + (WriteElements(es) + "]"))
    case Obj(b, ms) => "{" + (b + (WriteMembers(ms) + "}"))
  }
  function WriteElements(es: Elements): string {
    match es
    case NoElement => ""
    case Element(b, v, a, rest) => b + (Write(v) + (a + ((if rest.Element? then "," else "") + WriteElements(rest))))
  }
  function WriteMembers(ms: Members): string {
    match ms
    case NoMember => ""
    case Member(b, k, ak, bv, v, a, rest) =>
      b + (Quoted(k) + (ak + (":" + (bv + (Write(v) + (a + ((if rest.Member? then "," else "") + WriteMembers(rest))))))))
  }

  /** Container nesting. */
  function Nesting(j: Json): (n: nat)
  {
    match j
    case Atom(_) => 0
    case Str(_) => 0
    case Arr(_, es) => 1 + ElementsNesting(es)
    case Obj(_, ms) => 1 + MembersNesting(ms)
  }
  function ElementsNesting(es: Elements): (n: nat)
  {
    if es.NoElement? then 0 else Max(Nesting(es.value), ElementsNesting(es.rest))
  }
  function MembersNesting(ms: Members): (n: nat)
  {
    if ms.NoMember? then 0 else Max(Nesting(ms.value), MembersNesting(ms.rest))
  }

  /** A text that outside strings returns to the same depth after reaching `extra` above it. */
  ghost predicate Climbs(text: string, extra: nat) {
    forall d: nat ::
      RunScan(Scan(d, false, false), text) == Scan(d, false, false) && Peak(Scan(d, false, false), text) == d + extra
  }

  lemma ClimbsConcat(a: string, m: nat, b: string, n: nat)
    requires Climbs(a, m) && Climbs(b, n)
    ensures Climbs(a + b, Max(m, n))
  {
    forall d: nat
      ensures RunScan(Scan(d, false, false), a + b) == Scan(d, false, false)
      ensures Peak(Scan(d, false, false), a + b) == d + Max(m, n)
    {
      RunConcat(Scan(d, false, false), a, b);
    }
  }

  lemma {:induction false} ClimbsNothing(s: string)
    requires forall i :: 0 <= i < |s| ==> s[i] !in "\"[]{}"
    ensures Climbs(s, 0)
  {
    if s != "" {
      ClimbsNothing(s[1..]);
      forall d: nat
        ensures RunScan(Scan(d, false, false), s) == Scan(d, false, false) && Peak(Scan(d, false, false), s) == d
      {
        assert Advance(Scan(d, false, false), s[0]) == Scan(d, false, false);
      }
    }
  }

  lemma ItemScan(d: nat, i: StringItem)
    requires ItemOk(i)
    ensures RunScan(Scan(d, true, false), ItemText(i)) == Scan(d, true, false)
    ensures Peak(Scan(d, true, false), ItemText(i)) == d
  {
    match i
    case Plain(c) =>
      OneCharacter(Scan(d, true, false), c);
    case Escape(c) =>
      EscapePair(d, c);
    case Unicode(hex) =>
      EscapePair(d, 'u');
      RunConcat(Scan(d, true, false), "\\u", hex);
      HexScan(d, hex);
  }

  /** Whatever character follows a backslash is passed over. */
  lemma EscapePair(d: nat, c: char)
    ensures RunScan(Scan(d, true, false), ['\\', c]) == Scan(d, true, false)
    ensures Peak(Scan(d, true, false), ['\\', c]) == d
  {
    assert ['\\', c] == ['\\'] + [c];
    RunConcat(Scan(d, true, false), ['\\'], [c]);
    OneCharacter(Scan(d, true, false), '\\');
    OneCharacter(Scan(d, true, true), c);
  }

  lemma {:induction false} HexScan(d: nat, hex: string)
    requires forall k :: 0 <= k < |hex| ==> IsHex(hex[k])
    ensures RunScan(Scan(d, true, false), hex) == Scan(d, true, false) && Peak(Scan(d, true, false), hex) == d
  {
    if hex != "" {
      HexScan(d, hex[1..]);
    }
  }

  lemma {:induction false} ItemsScan(d: nat, items: seq<StringItem>)
    requires ItemsOk(items)
    ensures RunScan(Scan(d, true, false), ItemsText(items)) == Scan(d, true, false)
    ensures Peak(Scan(d, true, false), ItemsText(items)) == d
  {
    if items != [] {
      ItemScan(d, items[0]);
      ItemsScan(d, items[1..]);
      RunConcat(Scan(d, true, false), ItemText(items[0]), ItemsText(items[1..]));
    }
  }

  /** A string literal hides every bracket and quote inside it, escaped or not. */
  lemma QuotedClimbsNothing(items: seq<StringItem>)
    requires ItemsOk(items)
    ensures Climbs(Quoted(items), 0)
  {
    forall d: nat
      ensures RunScan(Scan(d, false, false), Quoted(items)) == Scan(d, false, false)
      ensures Peak(Scan(d, false, false), Quoted(items)) == d
    {
      var body := ItemsText(items) + "\"";
      RunConcat(Scan(d, false, false), "\"", body);
      RunConcat(Scan(d, true, false), ItemsText(items), "\"");
      ItemsScan(d, items);
      OneCharacter(Scan(d, false, false), '"');
      OneCharacter(Scan(d, true, false), '"');
    }
  }

  lemma ContainerClimbs(open: char, inner: string, n: nat, close: char)
    requires (open == '[' && close == ']') || (open == '{' && close == '}')
    requires Climbs(inner, n)
    ensures Climbs([open] + (inner + [close]), n + 1)
  {
    forall d: nat
      ensures RunScan(Scan(d, false, false), [open] + (inner + [close])) == Scan(d, false, false)
      ensures Peak(Scan(d, false, false), [open] + (inner + [close])) == d + n + 1
    {
      var inside := Scan(d + 1, false, false);
      assert RunScan(inside, inner) == inside && Peak(inside, inner) == d + 1 + n;
      ContainerAt(d, open, inner, n, close);
    }
  }

  lemma ContainerAt(d: nat, open: char, inner: string, n: nat, close: char)
    requires (open == '[' && close == ']') || (open == '{' && close == '}')
    requires RunScan(Scan(d + 1, false, false), inner) == Scan(d + 1, false, false)
    requires Peak(Scan(d + 1, false, false), inner) == d + 1 + n
    ensures RunScan(Scan(d, false, false), [open] + (inner + [close])) == Scan(d, false, false)
    ensures Peak(Scan(d, false, false), [open] + (inner + [close])) == d + n + 1
  {
    var outside, inside := Scan(d, false, false), Scan(d + 1, false, false);
    RunConcat(outside, [open], inner + [close]);
    OneCharacter(outside, open);
    RunConcat(inside, inner, [close]);
    OneCharacter(inside, close);
  }

  lemma {:induction false} ValueClimbs(j: Json)
    requires JsonOk(j)
    ensures Climbs(Write(j), Nesting(j))
    decreases j
  {
    match j
    case Atom(t) => ClimbsNothing(t);
    case Str(items) => QuotedClimbsNothing(items);
    case Arr(b, es) =>
      ClimbsNothing(b);
      ElementsClimb(es);
      ClimbsConcat(b, 0, WriteElements(es), ElementsNesting(es));
      assert b + (WriteElements(es) + "]") == (b + WriteElements(es)) + "]";
      ContainerClimbs('[', b + WriteElements(es), ElementsNesting(es), ']');
    case Obj(b, ms) =>
      ClimbsNothing(b);
      MembersClimb(ms);
      ClimbsConcat(b, 0, WriteMembers(ms), MembersNesting(ms));
      assert b + (WriteMembers(ms) + "}") == (b + WriteMembers(ms)) + "}";
      ContainerClimbs('{', b + WriteMembers(ms), MembersNesting(ms), '}');
  }

  lemma {:induction false} ElementsClimb(es: Elements)
    requires ElementsOk(es)
    ensures Climbs(WriteElements(es), ElementsNesting(es))
    decreases es
  {
    match es
    case NoElement => ClimbsNothing("");
    case Element(b, v, a, rest) =>
      ValueClimbs(v);
      ElementsClimb(rest);
      var comma := if rest.Element? then "," else "";
      ClimbsNothing(b);
      ClimbsNothing(a);
      ClimbsNothing(comma);
      var n := ElementsNesting(rest);
      ClimbsConcat(comma, 0, WriteElements(rest), n);
      ClimbsConcat(a, 0, comma + WriteElements(rest), n);
      ClimbsConcat(Write(v), Nesting(v), a + (comma + WriteElements(rest)), n);
      ClimbsConcat(b, 0, Write(v) + (a + (comma + WriteElements(rest))), Max(Nesting(v), n));
  }

  lemma {:induction false} MembersClimb(ms: Members)
    requires MembersOk(ms)
    ensures Climbs(WriteMembers(ms), MembersNesting(ms))
    decreases ms
  {
    match ms
    case NoMember => ClimbsNothing("");
    case Member(b, k, ak, bv, v, a, rest) =>
      ValueClimbs(v);
      MembersClimb(rest);
      var comma := if rest.Member? then "," else "";
      var n := MembersNesting(rest);
      ClimbsNothing(a);
      ClimbsNothing(comma);
      var t1 := comma + WriteMembers(rest);
      ClimbsConcat(comma, 0, WriteMembers(rest), n);
      var t2 := a + t1;
      ClimbsConcat(a, 0, t1, n);
      ClimbsConcat(Write(v), Nesting(v), t2, n);
      KeyClimbsNothing(b, k, ak, bv, Write(v) + t2, Max(Nesting(v), n));
  }

  lemma KeyClimbsNothing(b: string, k: seq<StringItem>, ak: string, bv: string, rest: string, m: nat)
    requires Blank(b) && ItemsOk(k) && Blank(ak) && Blank(bv) && Climbs(rest, m)
    ensures Climbs(b + (Quoted(k) + (ak + (":" + (bv + rest)))), m)
  {
    QuotedClimbsNothing(k);
    ClimbsNothing(b);
    ClimbsNothing(ak);
    ClimbsNothing(":");
    ClimbsNothing(bv);
    var t4 := bv + rest;
    ClimbsConcat(bv, 0, rest, m);
    var t5 := ":" + t4;
    ClimbsConcat(":", 0, t4, m);
    var t6 := ak + t5;
    ClimbsConcat(ak, 0, t5, m);
    ClimbsConcat(Quoted(k), 0, t6, m);
    ClimbsConcat(b, 0, Quoted(k) + t6, m);
  }

  /** On the text of any JSON value, whatever its white space and escapes, the peak is exactly the
      nesting of its containers. */
  lemma PeakIsNesting(before: string, j: Json, after: string)
    requires Blank(before) && JsonOk(j) && Blank(after)
    ensures Peak(START, before + (Write(j) + after)) == Nesting(j)
  {
    ClimbsNothing(before);
    ClimbsNothing(after);
    ValueClimbs(j);
    ClimbsConcat(Write(j), Nesting(j), after, 0);
    ClimbsConcat(before, 0, Write(j) + after, Nesting(j));
  }
}
