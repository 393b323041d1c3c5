/** The canonical rendering of a payload: two spellings of one value give one string, and nothing else does. Text is
    its UTF-8 bytes; every byte that is treated specially is one that stands for itself there. */
module Rendering {
  import opened Words
  import opened Sorting

  // ---------------------------------------------------------------------------
  // Escaping
  // ---------------------------------------------------------------------------

  const TAB: u8 := 9
  const NEWLINE: u8 := 10
  const RETURN: u8 := 13
  const QUOTE: u8 := 34
  const COMMA: u8 := 44
  const COLON: u8 := 58
  const OPEN_BRACKET: u8 := 91
  const BACKSLASH: u8 := 92
  const CLOSE_BRACKET: u8 := 93
  const LOWER_N: u8 := 110
  const LOWER_R: u8 := 114
  const LOWER_T: u8 := 116
  const OPEN_BRACE: u8 := 123
  const CLOSE_BRACE: u8 := 125

  /** One character, escaped where it could act as a separator; quotes only inside quotes. */
  function EscapeOne(b: u8, quoting: bool): Bytes {
    if b == BACKSLASH then [BACKSLASH, BACKSLASH]
    else if b == NEWLINE then [BACKSLASH, LOWER_N]
    else if b == RETURN then [BACKSLASH, LOWER_R]
    else if b == TAB then [BACKSLASH, LOWER_T]
    else if b == QUOTE && quoting then [BACKSLASH, QUOTE]
    else [b]
  }

  function Escape(s: Bytes, quoting: bool): Bytes {
    if s == [] then [] else EscapeOne(s[0], quoting) + Escape(s[1..], quoting)
  }

  /** `escape_field`, and the loop of `quote`. */
  method EscapeInto(out: Bytes, s: Bytes, quoting: bool) returns (r: Bytes)
    ensures r == out + Escape(s, quoting)
  {
    r := out;
    assert s[0..] == s;
    for i := 0 to |s|
      invariant r + Escape(s[i..], quoting) == out + Escape(s, quoting)
    {
      hide EscapeOne;
      assert s[i..][0] == s[i] && s[i..][1..] == s[i + 1..];
      Associate(r, EscapeOne(s[i], quoting), Escape(s[i + 1..], quoting));
      r := r + EscapeOne(s[i], quoting);
    }
    assert s[|s|..] == [];
    assert r + [] == r;
  }

  /** What an escape stands for. */
  function Unescaped(b: u8): u8 {
    if b == LOWER_N then NEWLINE else if b == LOWER_R then RETURN else if b == LOWER_T then TAB else b
  }

  /** Read up to an unescaped `stop`: what was meant, and what follows. */
  function ReadUntil(text: Bytes, stop: u8): Option<(Bytes, Bytes)>
    decreases |text|
  {
    if text == [] then None
    else if text[0] == stop then Some(([], text[1..]))
    else if text[0] == BACKSLASH then
      if |text| < 2 then None
      else
        var more := ReadUntil(text[2..], stop);
        if more.None? then None else Some(([Unescaped(text[1])] + more.value.0, more.value.1))
    else
      var more := ReadUntil(text[1..], stop);
      if more.None? then None else Some(([text[0]] + more.value.0, more.value.1))
  }

  /** The bytes a field can end at: those that never occur in it. */
  predicate Stops(stop: u8, quoting: bool) {
    stop == TAB || stop == NEWLINE || (stop == QUOTE && quoting)
  }

  /** Reading takes one escaped character off. */
  lemma ReadOne(b: u8, quoting: bool, stop: u8, tail: Bytes)
    requires Stops(stop, quoting) && ReadUntil(tail, stop).Some?
    ensures var more := ReadUntil(tail, stop).value;
      ReadUntil(EscapeOne(b, quoting) + tail, stop) == Some(([b] + more.0, more.1))
  {
    var text := EscapeOne(b, quoting) + tail;
    assert text[|EscapeOne(b, quoting)|..] == tail;
  }

  /** Escaping is undone by reading, whatever comes after: no text can pretend to end early. */
  lemma {:induction false} EscapedReadsBack(s: Bytes, quoting: bool, stop: u8, rest: Bytes)
    requires Stops(stop, quoting)
    ensures ReadUntil(Escape(s, quoting) + ([stop] + rest), stop) == Some((s, rest))
    decreases |s|
  {
    hide EscapeOne;
    if s == [] {
      assert [] + ([stop] + rest) == [stop] + rest;
      assert ([stop] + rest)[1..] == rest;
    } else {
      EscapedReadsBack(s[1..], quoting, stop, rest);
      hide ReadUntil;
      ReadOne(s[0], quoting, stop, Escape(s[1..], quoting) + ([stop] + rest));
      Associate(EscapeOne(s[0], quoting), Escape(s[1..], quoting), [stop] + rest);
      assert s == [s[0]] + s[1..];
    }
  }

  // ---------------------------------------------------------------------------
  // Payload lines
  // ---------------------------------------------------------------------------

  datatype Line = Line(key: Bytes, value: Bytes)

  function LineText(l: Line): Bytes {
    Escape(l.key, false) + ([TAB] + (Escape(l.value, false) + [NEWLINE]))
  }

  function Lines(ls: seq<Line>): Bytes {
    if ls == [] then [] else LineText(ls[0]) + Lines(ls[1..])
  }

  /** `push_line`. */
  method PushLine(text: Bytes, l: Line) returns (r: Bytes)
    ensures r == text + LineText(l)
  {
    r := EscapeInto(text, l.key, false);
    r := r + [TAB];
    r := EscapeInto(r, l.value, false);
    r := r + [NEWLINE];
    assert r == text + LineText(l);
  }

  predicate LineLess(a: Line, b: Line) {
    Precedes(a.key, b.key)
  }

  function ChainLines(chain: seq<Bytes>): (r: seq<Line>)
    ensures |r| == |chain|
    ensures forall i :: 0 <= i < |r| ==> r[i] == Line(Ascii("on_behalf_of"), chain[i])
  {
    seq(|chain|, i requires 0 <= i < |chain| => Line(Ascii("on_behalf_of"), chain[i]))
  }

  lemma {:induction false} LinesAppend(a: seq<Line>, b: seq<Line>)
    ensures Lines(a + b) == Lines(a) + Lines(b)
  {
    hide LineText;
    if a == [] {
      assert a + b == b && [] + Lines(b) == Lines(b);
    } else {
      LinesAppend(a[1..], b);
      assert (a + b)[0] == a[0] && (a + b)[1..] == a[1..] + b;
      Associate(LineText(a[0]), Lines(a[1..]), Lines(b));
    }
  }

  /** Push every line. */
  method PushLines(text: Bytes, ls: seq<Line>) returns (r: Bytes)
    ensures r == text + Lines(ls)
  {
    r := text;
    assert ls[0..] == ls;
    for i := 0 to |ls|
      invariant r + Lines(ls[i..]) == text + Lines(ls)
    {
      hide LineText;
      assert ls[i..][0] == ls[i] && ls[i..][1..] == ls[i + 1..];
      Associate(r, LineText(ls[i]), Lines(ls[i + 1..]));
      r := PushLine(r, ls[i]);
    }
    assert ls[|ls|..] == [];
    assert r + [] == r;
  }

  /** `payload`: the members by name, then the chain when it was not kept elsewhere; nothing is no payload. */
  method Payload(rest: seq<Line>, chainKept: bool, onBehalfOf: seq<Bytes>) returns (text: Option<Bytes>)
    ensures var all := Sorted(LineLess, rest) + if chainKept then [] else ChainLines(onBehalfOf);
      text == if all == [] then None else Some(Lines(all))
  {
    hide LineText, Lines;
    var lines := Sorted(LineLess, rest);
    var out := PushLines([], lines);
    assert [] + Lines(lines) == Lines(lines);
    assert lines + [] == lines;
    if !chainKept {
      out := PushLines(out, ChainLines(onBehalfOf));
      LinesAppend(lines, ChainLines(onBehalfOf));
      LinesEmpty(lines + ChainLines(onBehalfOf));
    } else {
      LinesEmpty(lines);
    }
    return if out == [] then None else Some(out);
  }

  /** The lines of a payload ascend by their keys, and those with one key stand in the order they came. */
  lemma LinesInOrder(rest: seq<Line>, key: Bytes)
    ensures var ls := Sorted(LineLess, rest);
      && multiset(ls) == multiset(rest)
      && (forall i, j :: 0 <= i < j < |ls| ==> ls[i].key == ls[j].key || Precedes(ls[i].key, ls[j].key))
      && var keyed := (l: Line) => l.key == key; Picked(keyed, ls) == Picked(keyed, rest)
  {
    LinesAreWeak();
    SortedWeak(LineLess, rest);
    forall y: Line, z: Line | y.key == z.key
      ensures !LineLess(y, z)
    {
      PrecedesIrreflexive(y.key);
    }
    SortedIsStable(LineLess, rest, (l: Line) => l.key == key);
    var ls := Sorted(LineLess, rest);
    hide Sorted;
    forall i, j | 0 <= i < j < |ls|
      ensures ls[i].key == ls[j].key || Precedes(ls[i].key, ls[j].key)
    {
      assert !LineLess(ls[j], ls[i]);
      PrecedesTotal(ls[i].key, ls[j].key);
    }
  }

  lemma LinesAreWeak()
    ensures WeakOrder(LineLess)
  {
    PrecedesIsTotal();
    TotalIsWeak(Precedes);
    hide Precedes;
    forall x: Line, y: Line | LineLess(x, y)
      ensures !LineLess(y, x)
    {
    }
    forall x: Line, y: Line, z: Line | !LineLess(x, y) && !LineLess(y, z)
      ensures !LineLess(x, z)
    {
      assert !Precedes(x.key, y.key) && !Precedes(y.key, z.key);
    }
  }

  lemma LinesEmpty(ls: seq<Line>)
    ensures Lines(ls) == [] <==> ls == []
  {
  }

  /** Split a payload text into its lines. */
  function SplitLines(text: Bytes): Option<seq<Line>>
    decreases |text|
  {
    if text == [] then Some([])
    else
      var key := ReadUntil(text, TAB);
      if key.None? then None
      else
        var value := ReadUntil(key.value.1, NEWLINE);
        if value.None? || |value.value.1| >= |text| then None
        else
          var more := SplitLines(value.value.1);
          if more.None? then None else Some([Line(key.value.0, value.value.0)] + more.value)
  }

  /** The text splits back into exactly its pairs: no key and no value can forge a line. */
  lemma {:induction false} LinesSplitBack(ls: seq<Line>)
    ensures SplitLines(Lines(ls)) == Some(ls)
    decreases |ls|
  {
    hide ReadUntil, Escape;
    if ls != [] {
      var rest := Lines(ls[1..]);
      var key, value := Escape(ls[0].key, false), Escape(ls[0].value, false);
      assert Lines(ls) == key + ([TAB] + (value + ([NEWLINE] + rest)));
      EscapedReadsBack(ls[0].key, false, TAB, value + ([NEWLINE] + rest));
      EscapedReadsBack(ls[0].value, false, NEWLINE, rest);
      LinesSplitBack(ls[1..]);
      assert ls == [ls[0]] + ls[1..];
    }
  }

  // ---------------------------------------------------------------------------
  // Values
  // ---------------------------------------------------------------------------

  datatype Member = Member(name: Bytes, value: Value)

  datatype Value =
    | Null
    | Bool(b: bool)
    | Number(raw: Bytes)
    | Str(text: Bytes)
    | Array(elements: seq<Value>)
    | Object(members: seq<Member>)

  /** Digits, sign, point and exponent: what a number is spelled with. */
  predicate NumberByte(b: u8) {
    48 <= b <= 57 || b == 43 || b == 45 || b == 46 || b == 69 || b == 101
  }

  predicate RawNumber(raw: Bytes) {
    raw != [] && forall i :: 0 <= i < |raw| ==> NumberByte(raw[i])
  }

  predicate UniqueNames(ms: seq<Member>) {
    forall i, j :: 0 <= i < j < |ms| ==> ms[i].name != ms[j].name
  }

  /** Numbers are spelled as numbers and no object names a member twice. */
  predicate WellFormed(v: Value)
    decreases v
  {
    match v
    case Number(raw) => RawNumber(raw)
    case Array(es) => forall i :: 0 <= i < |es| ==> WellFormed(es[i])
    case Object(ms) => UniqueNames(ms) && forall i :: 0 <= i < |ms| ==> WellFormed(ms[i].value)
    case _ => true
  }

  /** Where a name is, or the length. */
  function Find(ms: seq<Member>, name: Bytes): (r: nat)
    ensures r <= |ms|
    ensures r < |ms| ==> ms[r].name == name
    ensures r == |ms| ==> forall i :: 0 <= i < |ms| ==> ms[i].name != name
  {
    if ms == [] then 0
    else
      var last := |ms| - 1;
      var r := Find(ms[..last], name);
      if r < last then r else if ms[last].name == name then last else |ms|
  }

  /** Equal up to the order of members, at every depth: the same names, and under each name the same value. Numbers
      are compared by their spelling. */
  ghost predicate Same(v: Value, w: Value)
    decreases v
  {
    match v
    case Array(es) =>
      w.Array? && |es| == |w.elements| && forall i :: 0 <= i < |es| ==> Same(es[i], w.elements[i])
    case Object(ms) =>
      w.Object?
      && (forall j :: 0 <= j < |w.members| ==> Find(ms, w.members[j].name) < |ms|)
      && (forall i :: 0 <= i < |ms| ==>
            var j := Find(w.members, ms[i].name);
            j < |w.members| && Same(ms[i].value, w.members[j].value))
    case _ => v == w
  }

  predicate MemberLess(a: Member, b: Member) {
    Precedes(a.name, b.name)
  }

  // ---------------------------------------------------------------------------
  // Rendering
  // ---------------------------------------------------------------------------

  function Quoted(s: Bytes): Bytes {
    [QUOTE] + (Escape(s, true) + [QUOTE])
  }

  /** The members of an object, in the order of their names, with their values normal. */
  function Normal(v: Value): (r: Value)
    decreases v
  {
    match v
    case Array(es) => Array(seq(|es|, i requires 0 <= i < |es| => Normal(es[i])))
    case Object(ms) =>
      Object(Sorted(MemberLess, seq(|ms|, i requires 0 <= i < |ms| => Member(ms[i].name, Normal(ms[i].value)))))
    case _ => v
  }

  /** A value as it stands. */
  function Print(v: Value): Bytes
    decreases v, 0
  {
    match v
    case Null => [110, 117, 108, 108]
    case Bool(b) => if b then [116, 114, 117, 101] else [102, 97, 108, 115, 101]
    case Number(raw) => raw
    case Str(s) => Quoted(s)
    case Array(es) => [OPEN_BRACKET] + PrintElements(v, 0)
    case Object(ms) => [OPEN_BRACE] + PrintMembers(v, 0)
  }

  /** The elements from i on, and the closing bracket. */
  function PrintElements(v: Value, i: nat): Bytes
    requires v.Array? && i <= |v.elements|
    decreases v, 0, |v.elements| - i
  {
    if i == |v.elements| then [CLOSE_BRACKET]
    else (if i == 0 then [] else [COMMA]) + (Print(v.elements[i]) + PrintElements(v, i + 1))
  }

  /** The members from i on, and the closing brace. */
  function PrintMembers(v: Value, i: nat): Bytes
    requires v.Object? && i <= |v.members|
    decreases v, 0, |v.members| - i
  {
    if i == |v.members| then [CLOSE_BRACE]
    else
      (if i == 0 then [] else [COMMA])
      + (Quoted(v.members[i].name) + ([COLON] + (Print(v.members[i].value) + PrintMembers(v, i + 1))))
  }

  /** What `render_into` writes. */
  function Render(v: Value): Bytes {
    Print(Normal(v))
  }

  /** The escapes, octet by octet: a backslash and itself, or a backslash and a letter. */
  lemma KnownEscapes(quoting: bool)
    ensures Escape([10, 13, 9, 92], quoting) == Ascii("\\n\\r\\t\\\\")
    ensures Escape([34], quoting) == if quoting then Ascii("\\\"") else Ascii("\"")
    ensures Quoted([34, 10]) == Ascii("\"\\\"\\n\"")
  {
    EscapeFour(quoting, 10, 13, 9, 92);
    assert [34][1..] == [] && [34, 10][1..] == [10] && [10][1..] == [];
    assert Escape([10], true) == [92, 110] && Escape([34, 10], true) == [92, 34] + [92, 110];
  }

  lemma EscapeFour(quoting: bool, a: u8, b: u8, c: u8, d: u8)
    ensures Escape([a, b, c, d], quoting)
         == EscapeOne(a, quoting) + EscapeOne(b, quoting) + EscapeOne(c, quoting) + EscapeOne(d, quoting)
  {
    hide EscapeOne;
    assert [a, b, c, d][1..] == [b, c, d] && [b, c, d][1..] == [c, d] && [c, d][1..] == [d] && [d][1..] == [];
    assert Escape([d], quoting) == EscapeOne(d, quoting);
    assert Escape([c, d], quoting) == EscapeOne(c, quoting) + Escape([d], quoting);
    assert Escape([b, c, d], quoting) == EscapeOne(b, quoting) + Escape([c, d], quoting);
    assert Escape([a, b, c, d], quoting) == EscapeOne(a, quoting) + Escape([b, c, d], quoting);
  }

  /** The words and brackets of a rendering. */
  lemma KnownWords(raw: Bytes, v: Value, w: Value)
    ensures Print(Null) == Ascii("null") && Print(Bool(true)) == Ascii("true") && Print(Bool(false)) == Ascii("false")
    ensures Print(Number(raw)) == raw && Print(Array([])) == Ascii("[]") && Print(Object([])) == Ascii("{}")
    ensures Print(Array([v, w])) == Ascii("[") + Print(v) + Ascii(",") + Print(w) + Ascii("]")
  {
    assert Print(Null) == Ascii("null");
    assert Print(Bool(true)) == Ascii("true") && Print(Bool(false)) == Ascii("false");
    NoElements();
    KnownLetters();
    hide Ascii;
    PrintPair(v, w);
  }

  lemma KnownLetters()
    ensures Ascii("[") == [91] && Ascii("]") == [93] && Ascii(",") == [44] && Ascii("[]") == [91, 93]
    ensures Ascii("{") == [123] && Ascii("}") == [125] && Ascii(":") == [58] && Ascii("{}") == [123, 125]
  {
  }

  lemma NoElements()
    ensures Print(Array([])) == [91, 93] && Print(Object([])) == [123, 125]
  {
    assert PrintElements(Array([]), 0) == [93] && PrintMembers(Object([]), 0) == [125];
  }

  lemma PrintPair(v: Value, w: Value)
    ensures Print(Array([v, w])) == [91] + Print(v) + [44] + Print(w) + [93]
  {
    var pair := Array([v, w]);
    hide Print;
    assert PrintElements(pair, 2) == [93];
    var last := PrintElements(pair, 1);
    assert last == [44] + (Print(w) + [93]);
    var all := PrintElements(pair, 0);
    assert all == [] + (Print(v) + last);
    PrintOpens(pair);
    hide PrintElements;
  }

  lemma PrintOpens(v: Value)
    requires v.Array?
    ensures Print(v) == [91] + PrintElements(v, 0)
  {
    hide PrintElements;
  }

  lemma PrintTwo(a: Member, b: Member)
    ensures Print(Object([a, b]))
         == [123] + (Quoted(a.name) + [58] + Print(a.value)) + [44] + (Quoted(b.name) + [58] + Print(b.value)) + [125]
  {
    var v := Object([a, b]);
    hide Quoted;
    assert PrintMembers(v, 2) == [125];
    var last := PrintMembers(v, 1);
    assert last == [44] + (Quoted(b.name) + ([58] + (Print(b.value) + [125])));
    assert PrintMembers(v, 0) == [] + (Quoted(a.name) + ([58] + (Print(a.value) + last)));
    assert Print(v) == [123] + PrintMembers(v, 0);
    hide Print, PrintMembers;
  }

  /** An object of two members: the lesser name first, whichever came first. */
  lemma KnownObject(a: Member, b: Member, v: Value)
    requires Precedes(a.name, b.name) && (v == Object([a, b]) || v == Object([b, a]))
    ensures Render(v) == Ascii("{") + (Quoted(a.name) + Ascii(":") + Render(a.value)) + Ascii(",")
                         + (Quoted(b.name) + Ascii(":") + Render(b.value)) + Ascii("}")
  {
    NormalOfTwo(a, b, v);
    KnownLetters();
    hide Ascii, Normal, Print, Quoted;
    PrintTwo(Member(a.name, Normal(a.value)), Member(b.name, Normal(b.value)));
  }

  lemma NormalOfTwo(a: Member, b: Member, v: Value)
    requires Precedes(a.name, b.name) && (v == Object([a, b]) || v == Object([b, a]))
    ensures Normal(v) == Object([Member(a.name, Normal(a.value)), Member(b.name, Normal(b.value))])
  {
    var x, y := Member(a.name, Normal(a.value)), Member(b.name, Normal(b.value));
    NormalOfObject(v);
    hide *;
    if v == Object([a, b]) {
      NormalPair(a, b);
    } else {
      NormalPair(b, a);
    }
    TwoMembers(x, y, NormalMembers(v));
  }

  lemma NormalPair(a: Member, b: Member)
    ensures NormalMembers(Object([a, b])) == [Member(a.name, Normal(a.value)), Member(b.name, Normal(b.value))]
  {
    hide Normal;
  }

  lemma TwoMembers(a: Member, b: Member, all: seq<Member>)
    requires Precedes(a.name, b.name) && (all == [a, b] || all == [b, a])
    ensures Sorted(MemberLess, all) == [a, b]
  {
    assert multiset([a, b]) == multiset([b, a]);
    MemberOrder();
    LineIsSorted(MemberLess, [a, b], all);
  }

  // ---------------------------------------------------------------------------
  // The rendering decides the value
  // ---------------------------------------------------------------------------

  /** Numbers are spelled as numbers. */
  predicate Legible(v: Value)
    decreases v
  {
    match v
    case Number(raw) => RawNumber(raw)
    case Array(es) => forall i :: 0 <= i < |es| ==> Legible(es[i])
    case Object(ms) => forall i :: 0 <= i < |ms| ==> Legible(ms[i].value)
    case _ => true
  }

  /** Where a value ends. */
  predicate Ends(s: Bytes) {
    s == [] || s[0] == COMMA || s[0] == CLOSE_BRACKET || s[0] == CLOSE_BRACE
  }

  /** The first byte says which kind of value it is. */
  lemma FirstByte(v: Value)
    requires Legible(v)
    ensures Print(v) != [] && var b := Print(v)[0];
      && (v.Null? <==> b == 110) && (v.Bool? <==> b == 116 || b == 102) && (v.Number? <==> NumberByte(b))
      && (v.Str? <==> b == QUOTE) && (v.Array? <==> b == OPEN_BRACKET) && (v.Object? <==> b == OPEN_BRACE)
  {
  }

  lemma NumberGoesOn(a: Bytes, b: Bytes, s: Bytes, t: Bytes)
    requires RawNumber(b) && a + s == b + t && |a| < |b|
    ensures s != [] && NumberByte(s[0])
  {
    assert (a + s)[|a|] == s[0] && (b + t)[|a|] == b[|a|];
  }

  lemma NumberDecides(a: Bytes, b: Bytes, s: Bytes, t: Bytes)
    requires RawNumber(a) && RawNumber(b) && Ends(s) && Ends(t) && a + s == b + t
    ensures a == b && s == t
  {
    if |a| < |b| {
      NumberGoesOn(a, b, s, t);
    } else if |b| < |a| {
      NumberGoesOn(b, a, t, s);
    } else {
      SplitEqual(a, b, s, t);
    }
  }

  lemma QuotedDecides(a: Bytes, b: Bytes, s: Bytes, t: Bytes)
    requires Quoted(a) + s == Quoted(b) + t
    ensures a == b && s == t
  {
    hide Escape, ReadUntil;
    var x, y := Escape(a, true), Escape(b, true);
    assert Quoted(a) + s == [QUOTE] + (x + ([QUOTE] + s));
    assert Quoted(b) + t == [QUOTE] + (y + ([QUOTE] + t));
    SplitEqual([QUOTE], [QUOTE], x + ([QUOTE] + s), y + ([QUOTE] + t));
    EscapedReadsBack(a, true, QUOTE, s);
    EscapedReadsBack(b, true, QUOTE, t);
  }

  lemma ElementsEnd(v: Value, i: nat, s: Bytes)
    requires v.Array? && 0 < i <= |v.elements|
    ensures Ends(PrintElements(v, i) + s)
  {
  }

  lemma MembersEnd(v: Value, i: nat, s: Bytes)
    requires v.Object? && 0 < i <= |v.members|
    ensures Ends(PrintMembers(v, i) + s)
  {
  }

  /** What is printed tells what was printed, and where it stops. */
  lemma {:induction false} PrintDecides(v: Value, w: Value, s: Bytes, t: Bytes)
    requires Legible(v) && Legible(w) && Ends(s) && Ends(t)
    requires Print(v) + s == Print(w) + t
    ensures v == w && s == t
    decreases v, 0
  {
    FirstByte(v);
    FirstByte(w);
    assert (Print(v) + s)[0] == Print(v)[0] && (Print(w) + t)[0] == Print(w)[0];
    match v
    case Null =>
      SplitEqual(Print(v), Print(w), s, t);
    case Bool(b) =>
      SplitEqual(Print(v), Print(w), s, t);
    case Number(raw) =>
      NumberDecides(raw, w.raw, s, t);
    case Str(text) =>
      QuotedDecides(text, w.text, s, t);
    case Array(es) =>
      Associate([OPEN_BRACKET], PrintElements(v, 0), s);
      Associate([OPEN_BRACKET], PrintElements(w, 0), t);
      SplitEqual([OPEN_BRACKET], [OPEN_BRACKET], PrintElements(v, 0) + s, PrintElements(w, 0) + t);
      ElementsDecide(v, w, 0, s, t);
    case Object(ms) =>
      Associate([OPEN_BRACE], PrintMembers(v, 0), s);
      Associate([OPEN_BRACE], PrintMembers(w, 0), t);
      SplitEqual([OPEN_BRACE], [OPEN_BRACE], PrintMembers(v, 0) + s, PrintMembers(w, 0) + t);
      MembersDecide(v, w, 0, s, t);
  }

  /** The first byte of the rest of an array says whether there is another element. */
  lemma MoreElements(v: Value, i: nat, s: Bytes)
    requires Legible(v) && v.Array? && i <= |v.elements|
    ensures PrintElements(v, i) + s != []
    ensures (PrintElements(v, i) + s)[0] == CLOSE_BRACKET <==> i == |v.elements|
  {
    if i < |v.elements| {
      FirstByte(v.elements[i]);
      if i == 0 {
        assert [] + (Print(v.elements[i]) + PrintElements(v, i + 1)) == Print(v.elements[i]) + PrintElements(v, i + 1);
      }
    }
  }

  lemma {:induction false} ElementsDecide(v: Value, w: Value, i: nat, s: Bytes, t: Bytes)
    requires Legible(v) && Legible(w) && v.Array? && w.Array?
    requires i <= |v.elements| && i <= |w.elements| && v.elements[..i] == w.elements[..i]
    requires PrintElements(v, i) + s == PrintElements(w, i) + t
    ensures v == w && s == t
    decreases v, 0, |v.elements| - i
  {
    MoreElements(v, i, s);
    MoreElements(w, i, t);
    if i == |v.elements| {
      SplitEqual([CLOSE_BRACKET], [CLOSE_BRACKET], s, t);
      assert v.elements == v.elements[..i] && w.elements == w.elements[..i];
    } else {
      var front := if i == 0 then [] else [COMMA];
      var x, y := v.elements[i], w.elements[i];
      var restX, restY := PrintElements(v, i + 1) + s, PrintElements(w, i + 1) + t;
      Regroup(front, Print(x), PrintElements(v, i + 1), s);
      Regroup(front, Print(y), PrintElements(w, i + 1), t);
      SplitEqual(front, front, Print(x) + restX, Print(y) + restY);
      ElementsEnd(v, i + 1, s);
      ElementsEnd(w, i + 1, t);
      PrintDecides(x, y, restX, restY);
      assert v.elements[..i + 1] == v.elements[..i] + [x] && w.elements[..i + 1] == w.elements[..i] + [y];
      ElementsDecide(v, w, i + 1, s, t);
    }
  }

  lemma Regroup(a: Bytes, b: Bytes, c: Bytes, d: Bytes)
    ensures a + (b + c) + d == a + (b + (c + d))
  {
  }

  lemma MoreMembers(v: Value, i: nat, s: Bytes)
    requires v.Object? && i <= |v.members|
    ensures PrintMembers(v, i) + s != []
    ensures (PrintMembers(v, i) + s)[0] == CLOSE_BRACE <==> i == |v.members|
  {
    if i < |v.members| && i == 0 {
      var m := v.members[0];
      var text := Quoted(m.name) + ([COLON] + (Print(m.value) + PrintMembers(v, 1)));
      assert [] + text == text;
    }
  }

  /** One member, its parts apart. */
  lemma MemberParts(v: Value, i: nat, s: Bytes)
    requires v.Object? && i < |v.members|
    ensures var front := if i == 0 then [] else [COMMA]; var m := v.members[i];
      PrintMembers(v, i) + s == front + (Quoted(m.name) + ([COLON] + (Print(m.value) + (PrintMembers(v, i + 1) + s))))
  {
    var front := if i == 0 then [] else [COMMA];
    var m := v.members[i];
    var q, p, rest := Quoted(m.name), Print(m.value), PrintMembers(v, i + 1);
    hide Quoted;
    assert PrintMembers(v, i) == front + (q + ([COLON] + (p + rest)));
    hide *;
    Regroup(front, q, [COLON] + (p + rest), s);
    Associate([COLON], p + rest, s);
    Associate(p, rest, s);
  }

  lemma MemberDecides(front: Bytes, x: Bytes, y: Bytes, afterX: Bytes, afterY: Bytes)
    requires front + (Quoted(x) + ([COLON] + afterX)) == front + (Quoted(y) + ([COLON] + afterY))
    ensures x == y && afterX == afterY
  {
    hide Quoted;
    SplitEqual(front, front, Quoted(x) + ([COLON] + afterX), Quoted(y) + ([COLON] + afterY));
    QuotedDecides(x, y, [COLON] + afterX, [COLON] + afterY);
    SplitEqual([COLON], [COLON], afterX, afterY);
  }

  lemma MembersDone(v: Value, w: Value, i: nat, s: Bytes, t: Bytes)
    requires v.Object? && w.Object? && i == |v.members| == |w.members| && v.members[..i] == w.members[..i]
    requires PrintMembers(v, i) + s == PrintMembers(w, i) + t
    ensures v == w && s == t
  {
    assert v.members == v.members[..i] && w.members == w.members[..i];
    SplitEqual([CLOSE_BRACE], [CLOSE_BRACE], s, t);
  }

  /** The next member of both: one name, and the values with what follows them. */
  lemma NextMember(v: Value, w: Value, i: nat, s: Bytes, t: Bytes)
    requires v.Object? && w.Object? && i < |v.members| && i < |w.members|
    requires PrintMembers(v, i) + s == PrintMembers(w, i) + t
    ensures v.members[i].name == w.members[i].name
    ensures Print(v.members[i].value) + (PrintMembers(v, i + 1) + s)
         == Print(w.members[i].value) + (PrintMembers(w, i + 1) + t)
  {
    hide *;
    var x, y := v.members[i], w.members[i];
    MemberParts(v, i, s);
    MemberParts(w, i, t);
    MemberDecides(if i == 0 then [] else [COMMA], x.name, y.name,
                  Print(x.value) + (PrintMembers(v, i + 1) + s), Print(y.value) + (PrintMembers(w, i + 1) + t));
  }

  lemma OneMoreMember(ms: seq<Member>, ns: seq<Member>, i: nat)
    requires i < |ms| && i < |ns| && ms[..i] == ns[..i] && ms[i] == ns[i]
    ensures ms[..i + 1] == ns[..i + 1]
  {
    assert ms[..i + 1] == ms[..i] + [ms[i]] && ns[..i + 1] == ns[..i] + [ns[i]];
  }

  lemma {:induction false} MembersDecide(v: Value, w: Value, i: nat, s: Bytes, t: Bytes)
    requires Legible(v) && Legible(w) && v.Object? && w.Object?
    requires i <= |v.members| && i <= |w.members| && v.members[..i] == w.members[..i]
    requires PrintMembers(v, i) + s == PrintMembers(w, i) + t
    ensures v == w && s == t
    decreases v, 0, |v.members| - i
  {
    MoreMembers(v, i, s);
    MoreMembers(w, i, t);
    if i == |v.members| {
      hide *;
      MembersDone(v, w, i, s, t);
    } else {
      var x, y := v.members[i], w.members[i];
      assert Legible(x.value) && Legible(y.value);
      hide *;
      NextMember(v, w, i, s, t);
      MembersEnd(v, i + 1, s);
      MembersEnd(w, i + 1, t);
      PrintDecides(x.value, y.value, PrintMembers(v, i + 1) + s, PrintMembers(w, i + 1) + t);
      OneMoreMember(v.members, w.members, i);
      MembersDecide(v, w, i + 1, s, t);
    }
  }

  // ---------------------------------------------------------------------------
  // Normal forms
  // ---------------------------------------------------------------------------

  function NormalMembers(v: Value): (r: seq<Member>)
    requires v.Object?
    ensures |r| == |v.members|
    ensures forall i :: 0 <= i < |r| ==> r[i] == Member(v.members[i].name, Normal(v.members[i].value))
  {
    seq(|v.members|, i requires 0 <= i < |v.members| => Member(v.members[i].name, Normal(v.members[i].value)))
  }

  lemma NormalOfObject(v: Value)
    requires v.Object?
    ensures Normal(v) == Object(Sorted(MemberLess, NormalMembers(v)))
  {
    var ms := v.members;
    assert seq(|ms|, i requires 0 <= i < |ms| => Member(ms[i].name, Normal(ms[i].value))) == NormalMembers(v);
  }

  lemma MemberOrder()
    ensures StrictOrder(MemberLess)
  {
    forall a: Member
      ensures !MemberLess(a, a)
    {
      PrecedesIrreflexive(a.name);
    }
    forall a: Member, b: Member, c: Member | MemberLess(a, b) && MemberLess(b, c)
      ensures MemberLess(a, c)
    {
      PrecedesTransitive(a.name, b.name, c.name);
    }
  }

  /** With unique names the sorted members ascend strictly. */
  lemma NormalAscends(v: Value)
    requires v.Object? && UniqueNames(v.members)
    ensures Ascending(MemberLess, Sorted(MemberLess, NormalMembers(v)))
  {
    var ms := NormalMembers(v);
    MemberOrder();
    forall i, j | 0 <= i < j < |ms|
      ensures MemberLess(ms[i], ms[j]) || MemberLess(ms[j], ms[i])
    {
      PrecedesTotal(ms[i].name, ms[j].name);
    }
    SortedAscends(MemberLess, ms);
  }

  lemma {:induction false} NormalIsLegible(v: Value)
    requires WellFormed(v)
    ensures Legible(Normal(v))
    decreases v
  {
    match v
    case Array(es) =>
      forall i | 0 <= i < |es|
        ensures Legible(Normal(es[i]))
      {
        NormalIsLegible(es[i]);
      }
    case Object(ms) =>
      NormalOfObject(v);
      var sorted := Sorted(MemberLess, NormalMembers(v));
      forall i | 0 <= i < |sorted|
        ensures Legible(sorted[i].value)
      {
        SameMembers(MemberLess, NormalMembers(v), sorted[i]);
        var j :| 0 <= j < |ms| && NormalMembers(v)[j] == sorted[i];
        NormalIsLegible(ms[j].value);
      }
    case _ =>
  }

  /** Equal up to order is equal normal form. */
  lemma {:induction false} SameIsNormal(v: Value, w: Value)
    requires WellFormed(v) && WellFormed(w)
    ensures Same(v, w) <==> Normal(v) == Normal(w)
    decreases v
  {
    if v.Array? && w.Array? && |v.elements| == |w.elements| {
      forall i | 0 <= i < |v.elements|
        ensures Same(v.elements[i], w.elements[i]) <==> Normal(v.elements[i]) == Normal(w.elements[i])
      {
        SameIsNormal(v.elements[i], w.elements[i]);
      }
      assert forall i :: 0 <= i < |v.elements| ==> Normal(v).elements[i] == Normal(v.elements[i]);
      assert forall i :: 0 <= i < |w.elements| ==> Normal(w).elements[i] == Normal(w.elements[i]);
    } else if v.Object? && w.Object? {
      forall i, j | 0 <= i < |v.members| && 0 <= j < |w.members|
        ensures Same(v.members[i].value, w.members[j].value)
           <==> Normal(v.members[i].value) == Normal(w.members[j].value)
      {
        SameIsNormal(v.members[i].value, w.members[j].value);
      }
      ObjectsNormal(v, w);
    } else if v.Array? && w.Array? {
      assert |Normal(v).elements| == |v.elements| && |Normal(w).elements| == |w.elements|;
    }
  }

  lemma ObjectsNormal(v: Value, w: Value)
    requires v.Object? && w.Object? && UniqueNames(v.members) && UniqueNames(w.members) && AlikeMembers(v, w)
    ensures Same(v, w) <==> Normal(v) == Normal(w)
  {
    var ms, ns := NormalMembers(v), NormalMembers(w);
    var a, b := Sorted(MemberLess, ms), Sorted(MemberLess, ns);
    NormalOfObject(v);
    NormalOfObject(w);
    hide Normal, Same, AlikeMembers, NormalMembers, Sorted;
    if Same(v, w) {
      NormalAscends(v);
      NormalAscends(w);
      MemberOrder();
      forall x
        ensures x in a <==> x in b
      {
        SameMembers(MemberLess, ms, x);
        SameMembers(MemberLess, ns, x);
        SameCovers(v, w, x);
      }
      SameMembersSameSequence(MemberLess, a, b);
    }
    if a == b {
      forall x
        ensures x in ms <==> x in ns
      {
        SameMembers(MemberLess, ms, x);
        SameMembers(MemberLess, ns, x);
      }
      NormalCovers(v, w);
    }
  }

  /** Values of members are the same when their normal forms are. */
  ghost predicate AlikeMembers(v: Value, w: Value)
    requires v.Object? && w.Object?
  {
    forall i, j :: 0 <= i < |v.members| && 0 <= j < |w.members| ==>
      (Same(v.members[i].value, w.members[j].value) <==> Normal(v.members[i].value) == Normal(w.members[j].value))
  }

  lemma FindUnique(ms: seq<Member>, i: nat)
    requires UniqueNames(ms) && i < |ms|
    ensures Find(ms, ms[i].name) == i
  {
  }

  lemma SameCovers(v: Value, w: Value, x: Member)
    requires v.Object? && w.Object? && UniqueNames(v.members) && UniqueNames(w.members)
    requires Same(v, w) && AlikeMembers(v, w)
    ensures x in NormalMembers(v) <==> x in NormalMembers(w)
  {
    hide Normal;
    if x in NormalMembers(v) {
      var i :| 0 <= i < |v.members| && NormalMembers(v)[i] == x;
      var j := Find(w.members, v.members[i].name);
      assert Same(v.members[i].value, w.members[j].value);
      assert NormalMembers(w)[j] == x;
    }
    if x in NormalMembers(w) {
      var j :| 0 <= j < |w.members| && NormalMembers(w)[j] == x;
      var i := Find(v.members, w.members[j].name);
      FindUnique(w.members, j);
      assert Same(v.members[i].value, w.members[j].value);
      assert NormalMembers(v)[i] == x;
    }
  }

  lemma NormalCovers(v: Value, w: Value)
    requires v.Object? && w.Object? && UniqueNames(w.members) && AlikeMembers(v, w)
    requires forall x :: x in NormalMembers(v) <==> x in NormalMembers(w)
    ensures Same(v, w)
  {
    var ms, ns := v.members, w.members;
    hide Normal, UniqueNames;
    forall i | 0 <= i < |ms|
      ensures var j := Find(ns, ms[i].name); j < |ns| && Same(ms[i].value, ns[j].value)
    {
      assert NormalMembers(v)[i] in NormalMembers(w);
      var j :| 0 <= j < |ns| && NormalMembers(w)[j] == NormalMembers(v)[i];
      FindUnique(ns, j);
    }
    forall j | 0 <= j < |ns|
      ensures Find(ms, ns[j].name) < |ms|
    {
      assert NormalMembers(w)[j] in NormalMembers(v);
      var i :| 0 <= i < |ms| && NormalMembers(v)[i] == NormalMembers(w)[j];
    }
  }

  /** The rendering is a complete invariant: two values render alike exactly when they are equal up to the order of
      members at every depth. */
  lemma RenderDecides(v: Value, w: Value)
    requires WellFormed(v) && WellFormed(w)
    ensures Render(v) == Render(w) <==> Same(v, w)
  {
    SameIsNormal(v, w);
    NormalIsLegible(v);
    NormalIsLegible(w);
    if Render(v) == Render(w) {
      PrintDecides(Normal(v), Normal(w), [], []);
    }
  }

  // ---------------------------------------------------------------------------
  // Writing
  // ---------------------------------------------------------------------------

  /** A member whose value is text already. */
  datatype Rendered = Rendered(name: Bytes, text: Bytes)

  predicate RenderedLess(a: Rendered, b: Rendered) {
    Precedes(a.name, b.name)
  }

  function Finish(m: Member): Rendered {
    Rendered(m.name, Print(m.value))
  }

  method QuoteInto(out: Bytes, s: Bytes) returns (r: Bytes)
    ensures r == out + Quoted(s)
  {
    r := out + [QUOTE];
    r := EscapeInto(r, s, true);
    r := r + [QUOTE];
    assert r == out + Quoted(s);
  }

  /** `render_into`, writing at the end of `out`. The members of an object are rendered first and sorted then. */
  method RenderInto(v: Value, out: Bytes) returns (r: Bytes)
    ensures r == out + Render(v)
    decreases v, 1
  {
    match v
    case Null =>
      r := out + [110, 117, 108, 108];
    case Bool(b) =>
      r := out + if b then [116, 114, 117, 101] else [102, 97, 108, 115, 101];
    case Number(raw) =>
      r := out + raw;
    case Str(text) =>
      r := QuoteInto(out, text);
    case Array(es) =>
      r := RenderArray(v, out + [OPEN_BRACKET]);
      Associate(out, [OPEN_BRACKET], PrintElements(Normal(v), 0));
    case Object(ms) =>
      var rendered := RenderMembers(v);
      NormalOfObject(v);
      SortedMapped(MemberLess, RenderedLess, Finish, NormalMembers(v));
      r := WriteMembers(Normal(v), Sorted(RenderedLess, rendered), out + [OPEN_BRACE]);
      Associate(out, [OPEN_BRACE], PrintMembers(Normal(v), 0));
  }

  method RenderArray(v: Value, out: Bytes) returns (r: Bytes)
    requires v.Array?
    ensures r == out + PrintElements(Normal(v), 0)
    decreases v, 0
  {
    ghost var n := Normal(v);
    r := out;
    for i := 0 to |v.elements|
      invariant r + PrintElements(n, i) == out + PrintElements(n, 0)
    {
      ghost var before := r;
      if i > 0 {
        r := r + [COMMA];
      }
      r := RenderInto(v.elements[i], r);
      ElementWritten(n, i, before, r);
    }
    r := r + [CLOSE_BRACKET];
  }

  lemma ElementWritten(n: Value, i: nat, before: Bytes, after: Bytes)
    requires n.Array? && i < |n.elements|
    requires after == (if i > 0 then before + [COMMA] else before) + Print(n.elements[i])
    ensures after + PrintElements(n, i + 1) == before + PrintElements(n, i)
  {
    var front := if i == 0 then [] else [COMMA];
    assert before + front == if i > 0 then before + [COMMA] else before;
    hide Print;
    assert PrintElements(n, i) == front + (Print(n.elements[i]) + PrintElements(n, i + 1));
    hide *;
    Associate(before, front, Print(n.elements[i]) + PrintElements(n, i + 1));
    Associate(before + front, Print(n.elements[i]), PrintElements(n, i + 1));
  }

  /** Every member into its own string. */
  method RenderMembers(v: Value) returns (rendered: seq<Rendered>)
    requires v.Object?
    ensures rendered == Mapped(Finish, NormalMembers(v))
    decreases v, 0
  {
    rendered := [];
    for i := 0 to |v.members|
      invariant |rendered| == i
      invariant forall j :: 0 <= j < i ==> rendered[j] == Finish(NormalMembers(v)[j])
    {
      var text := RenderInto(v.members[i].value, []);
      assert text == Print(Normal(v.members[i].value));
      rendered := rendered + [Rendered(v.members[i].name, text)];
    }
    assert rendered == Mapped(Finish, NormalMembers(v));
  }

  method WriteMembers(n: Value, rendered: seq<Rendered>, out: Bytes) returns (r: Bytes)
    requires n.Object? && rendered == Mapped(Finish, n.members)
    ensures r == out + PrintMembers(n, 0)
  {
    r := out;
    for i := 0 to |rendered|
      invariant r + PrintMembers(n, i) == out + PrintMembers(n, 0)
    {
      hide Quoted, PrintMembers;
      ghost var before := r;
      if i > 0 {
        r := r + [COMMA];
      }
      r := QuoteInto(r, rendered[i].name);
      r := r + [COLON];
      r := r + rendered[i].text;
      MemberWritten(n, i, before, r);
    }
    r := r + [CLOSE_BRACE];
  }

  lemma MemberWritten(n: Value, i: nat, before: Bytes, after: Bytes)
    requires n.Object? && i < |n.members|
    requires after == (if i > 0 then before + [COMMA] else before) + Quoted(n.members[i].name) + [COLON]
                      + Print(n.members[i].value)
    ensures after + PrintMembers(n, i + 1) == before + PrintMembers(n, i)
  {
    var m := n.members[i];
    var front := if i == 0 then [] else [COMMA];
    var q, p, rest := Quoted(m.name), Print(m.value), PrintMembers(n, i + 1);
    assert before + front == if i > 0 then before + [COMMA] else before;
    hide Print, Quoted;
    assert PrintMembers(n, i) == front + (q + ([COLON] + (p + rest)));
    hide *;
    Associate(before, front, q + ([COLON] + (p + rest)));
    Associate(before + front, q, [COLON] + (p + rest));
    Associate(before + front + q, [COLON], p + rest);
    Associate(before + front + q + [COLON], p, rest);
  }
}
