/** The canonical resource that a storage request is signed over, and the base64 the key and the signature travel in. */
module SharedKey {
  import opened Words
  import opened Sorting

  const NEWLINE: u8 := 10
  const COMMA: u8 := 44
  const SLASH: u8 := 47
  const COLON: u8 := 58

  /** `to_ascii_lowercase`, byte by byte. */
  function Lower(s: Bytes): (r: Bytes)
    ensures |r| == |s|
    ensures forall i :: 0 <= i < |r| ==> r[i] == if 65 <= s[i] <= 90 then s[i] + 32 else s[i]
  {
    if s == [] then [] else [if 65 <= s[0] <= 90 then s[0] + 32 else s[0]] + Lower(s[1..])
  }

  datatype Parameter = Parameter(name: Bytes, value: Bytes)

  // ---------------------------------------------------------------------------
  // The declarative form
  // ---------------------------------------------------------------------------

  /** The values given under a name, in order. */
  function Values(query: seq<Parameter>, name: Bytes): seq<Bytes> {
    if query == [] then []
    else
      var last := query[|query| - 1];
      Values(query[..|query| - 1], name) + if Lower(last.name) == name then [last.value] else []
  }

  predicate Named(query: seq<Parameter>, name: Bytes) {
    exists i :: 0 <= i < |query| && Lower(query[i].name) == name
  }

  /** These are the lowercased names, each once, in ascending order. */
  ghost predicate NamesOf(query: seq<Parameter>, names: seq<Bytes>) {
    Ascending(Precedes, names) && forall name :: name in names <==> Named(query, name)
  }

  /** Values joined by commas. */
  function Join(values: seq<Bytes>): Bytes {
    if values == [] then []
    else if |values| == 1 then values[0]
    else Join(values[..|values| - 1]) + [COMMA] + values[|values| - 1]
  }

  function LineOf(name: Bytes, values: seq<Bytes>): Bytes {
    [NEWLINE] + name + [COLON] + Join(Sorted(Precedes, values))
  }

  function LinesOf(query: seq<Parameter>, names: seq<Bytes>): Bytes {
    if names == [] then []
    else
      var last := names[|names| - 1];
      LinesOf(query, names[..|names| - 1]) + LineOf(last, Values(query, last))
  }

  /** `/account/path`, then one line for each name with its values in order. */
  function Resource(account: Bytes, path: Bytes, query: seq<Parameter>, names: seq<Bytes>): Bytes {
    [SLASH] + account + path + LinesOf(query, names)
  }

  /** The declarative form: the resource over the lowercased names, each once, in ascending order. */
  ghost predicate Canonical(account: Bytes, path: Bytes, query: seq<Parameter>, out: Bytes) {
    exists names :: NamesOf(query, names) && out == Resource(account, path, query, names)
  }

  /** There is only one such list of names. */
  lemma NamesAreUnique(query: seq<Parameter>, a: seq<Bytes>, b: seq<Bytes>)
    requires NamesOf(query, a) && NamesOf(query, b)
    ensures a == b
  {
    PrecedesIsTotal();
    SameMembersSameSequence(Precedes, a, b);
  }

  /** A query in full: three parameters of which the last two share a name up to its case and come before the first.
      The path, then a line a name, the values of a name in order and between commas. */
  lemma ThreeParameters(account: Bytes, path: Bytes, p: Parameter, q: Parameter, r: Parameter, out: Bytes)
    requires Lower(q.name) == Lower(r.name) && Precedes(Lower(q.name), Lower(p.name)) && Precedes(r.value, q.value)
    requires Canonical(account, path, [p, q, r], out)
    ensures out == [47] + account + path + ([10] + Lower(q.name) + [58] + (r.value + [44] + q.value))
                   + ([10] + Lower(p.name) + [58] + p.value)
  {
    var query, y, x := [p, q, r], Lower(q.name), Lower(p.name);
    var names := [y, x];
    hide Lower;
    PrecedesIrreflexive(x);
    assert query[0] == p && query[1] == q && query[2] == r;
    forall name
      ensures name in names <==> Named(query, name)
    {
    }
    assert NamesOf(query, names);
    var given :| NamesOf(query, given) && out == Resource(account, path, query, given);
    NamesAreUnique(query, given, names);
    ThreeValues(p, q, r);
    hide Values, Join, Sorted;
    TwoLines(query, y, x);
  }

  lemma ThreeValues(p: Parameter, q: Parameter, r: Parameter)
    requires Lower(q.name) == Lower(r.name) != Lower(p.name) && Precedes(r.value, q.value)
    ensures Join(Sorted(Precedes, Values([p, q, r], Lower(q.name)))) == r.value + [44] + q.value
    ensures Join(Sorted(Precedes, Values([p, q, r], Lower(p.name)))) == p.value
  {
    ValuesOfThree(p, q, r, Lower(q.name));
    ValuesOfThree(p, q, r, Lower(p.name));
    TwoSorted(q.value, r.value);
    hide Lower, Precedes, Sorted, Values;
    assert [r.value, q.value][..1] == [r.value];
  }

  lemma ValuesOfThree(p: Parameter, q: Parameter, r: Parameter, name: Bytes)
    ensures Values([p, q, r], name)
         == (if Lower(p.name) == name then [p.value] else []) + (if Lower(q.name) == name then [q.value] else [])
            + (if Lower(r.name) == name then [r.value] else [])
  {
    hide Lower, Values;
    NoValues(name);
    ValuesSnoc([], p, name);
    ValuesSnoc([p], q, name);
    ValuesSnoc([p, q], r, name);
    assert [] + [p] == [p] && [p] + [q] == [p, q] && [p, q] + [r] == [p, q, r];
  }

  lemma NoValues(name: Bytes)
    ensures Values([], name) == []
  {
  }

  lemma TwoSorted(a: Bytes, b: Bytes)
    requires Precedes(b, a)
    ensures Sorted(Precedes, [a, b]) == [b, a] && Sorted(Precedes, [a]) == [a]
  {
    PrecedesIsTotal();
    assert multiset([a, b]) == multiset([b, a]);
    PrecedesIrreflexive(a);
    SortedAscends(Precedes, [a, b]);
    OneArrangement(Precedes, Sorted(Precedes, [a, b]), [b, a]);
    assert multiset(Sorted(Precedes, [a])) == multiset([a]);
    OneArrangement(Precedes, Sorted(Precedes, [a]), [a]);
  }

  lemma TwoLines(query: seq<Parameter>, y: Bytes, x: Bytes)
    ensures LinesOf(query, [y, x]) == LineOf(y, Values(query, y)) + LineOf(x, Values(query, x))
  {
    assert [y, x][..1] == [y] && [y][..0] == [];
    hide LineOf, Values;
    assert LinesOf(query, [y]) == [] + LineOf(y, Values(query, y));
  }

  // ---------------------------------------------------------------------------
  // What it does not depend on
  // ---------------------------------------------------------------------------

  lemma {:induction false} ValuesJoin(a: seq<Parameter>, b: seq<Parameter>, name: Bytes)
    ensures Values(a + b, name) == Values(a, name) + Values(b, name)
  {
    hide Lower;
    if b == [] {
      assert a + b == a && Values(a, name) + [] == Values(a, name);
    } else {
      var last := |b| - 1;
      assert (a + b)[..|a + b| - 1] == a + b[..last];
      ValuesJoin(a, b[..last], name);
    }
  }

  lemma WithoutOne(b: seq<Parameter>, i: nat, name: Bytes)
    requires i < |b|
    ensures var rest := b[..i] + b[i + 1..];
      && |rest| == |b| - 1 && multiset(rest) == multiset(b) - multiset{b[i]}
      && multiset(Values(b, name)) == multiset(Values(rest, name)) + multiset(Values([b[i]], name))
  {
    var x, y, z := b[..i], [b[i]], b[i + 1..];
    assert b == x + (y + z);
    assert multiset(b) == multiset(x) + multiset(y) + multiset(z);
    hide Values;
    ValuesJoin(x, z, name);
    ValuesJoin(x, y + z, name);
    ValuesJoin(y, z, name);
  }

  lemma {:induction false} ValuesPermute(b: seq<Parameter>, c: seq<Parameter>, name: Bytes)
    requires multiset(b) == multiset(c)
    ensures multiset(Values(b, name)) == multiset(Values(c, name))
    decreases |c|
  {
    assert |multiset(b)| == |b| && |multiset(c)| == |c|;
    if c == [] {
      assert b == [];
    } else {
      var last := |c| - 1;
      assert c[last] in multiset(b);
      var i :| 0 <= i < |b| && b[i] == c[last];
      hide Values;
      WithoutOne(b, i, name);
      WithoutOne(c, last, name);
      assert c[..last] + c[last + 1..] == c[..last];
      ValuesPermute(b[..i] + b[i + 1..], c[..last], name);
    }
  }

  lemma {:induction false} LinesPermute(b: seq<Parameter>, c: seq<Parameter>, names: seq<Bytes>)
    requires multiset(b) == multiset(c)
    ensures LinesOf(b, names) == LinesOf(c, names)
    decreases |names|
  {
    if names != [] {
      var last := |names| - 1;
      LinesPermute(b, c, names[..last]);
      ValuesPermute(b, c, names[last]);
      PrecedesIsTotal();
      SortedPermute(Precedes, Values(b, names[last]), Values(c, names[last]));
    }
  }

  lemma NamedPermute(b: seq<Parameter>, c: seq<Parameter>, name: Bytes)
    requires multiset(b) == multiset(c) && Named(b, name)
    ensures Named(c, name)
  {
    var i :| 0 <= i < |b| && Lower(b[i].name) == name;
    assert b[i] in multiset(c);
    var j :| 0 <= j < |c| && c[j] == b[i];
  }

  /** The order of the parameters does not matter. */
  lemma ResourceIgnoresOrder(account: Bytes, path: Bytes, b: seq<Parameter>, c: seq<Parameter>, out: Bytes, out': Bytes)
    requires multiset(b) == multiset(c) && Canonical(account, path, b, out) && Canonical(account, path, c, out')
    ensures out == out'
  {
    var names :| NamesOf(b, names) && out == Resource(account, path, b, names);
    var names' :| NamesOf(c, names') && out' == Resource(account, path, c, names');
    forall name
      ensures Named(b, name) <==> Named(c, name)
    {
      if Named(b, name) {
        NamedPermute(b, c, name);
      }
      if Named(c, name) {
        NamedPermute(c, b, name);
      }
    }
    NamesAreUnique(c, names, names');
    LinesPermute(b, c, names);
  }

  /** Two queries that differ in the case of names only. */
  predicate SameButCase(b: seq<Parameter>, c: seq<Parameter>) {
    |b| == |c| && forall i :: 0 <= i < |b| ==> b[i].value == c[i].value && Lower(b[i].name) == Lower(c[i].name)
  }

  lemma {:induction false} ValuesIgnoreCase(b: seq<Parameter>, c: seq<Parameter>, name: Bytes)
    requires SameButCase(b, c)
    ensures Values(b, name) == Values(c, name)
    decreases |b|
  {
    if b != [] {
      ValuesIgnoreCase(b[..|b| - 1], c[..|c| - 1], name);
    }
  }

  lemma {:induction false} LinesIgnoreCase(b: seq<Parameter>, c: seq<Parameter>, names: seq<Bytes>)
    requires SameButCase(b, c)
    ensures LinesOf(b, names) == LinesOf(c, names)
    decreases |names|
  {
    if names != [] {
      LinesIgnoreCase(b, c, names[..|names| - 1]);
      ValuesIgnoreCase(b, c, names[|names| - 1]);
    }
  }

  /** Neither does the case of their names. */
  lemma ResourceIgnoresCase(account: Bytes, path: Bytes, b: seq<Parameter>, c: seq<Parameter>, out: Bytes, out': Bytes)
    requires SameButCase(b, c) && Canonical(account, path, b, out) && Canonical(account, path, c, out')
    ensures out == out'
  {
    var names :| NamesOf(b, names) && out == Resource(account, path, b, names);
    var names' :| NamesOf(c, names') && out' == Resource(account, path, c, names');
    forall name
      ensures Named(b, name) <==> Named(c, name)
    {
      if Named(b, name) {
        var i :| 0 <= i < |b| && Lower(b[i].name) == name;
        assert Lower(c[i].name) == name;
      }
      if Named(c, name) {
        var i :| 0 <= i < |c| && Lower(c[i].name) == name;
        assert Lower(b[i].name) == name;
      }
    }
    NamesAreUnique(c, names, names');
    LinesIgnoreCase(b, c, names);
  }

  // ---------------------------------------------------------------------------
  // The code
  // ---------------------------------------------------------------------------

  datatype Group = Group(name: Bytes, values: seq<Bytes>)

  predicate GroupLess(a: Group, b: Group) {
    Precedes(a.name, b.name)
  }

  /** The groups hold each name once, with its values. */
  ghost predicate Grouped(query: seq<Parameter>, groups: seq<Group>) {
    && (forall i, j :: 0 <= i < j < |groups| ==> groups[i].name != groups[j].name)
    && (forall i :: 0 <= i < |groups| ==> groups[i].values == Values(query, groups[i].name) && groups[i].values != [])
    && (forall name :: Values(query, name) != [] ==> exists i :: 0 <= i < |groups| && groups[i].name == name)
  }

  lemma ValuesSnoc(query: seq<Parameter>, p: Parameter, name: Bytes)
    ensures Values(query + [p], name) == Values(query, name) + if Lower(p.name) == name then [p.value] else []
  {
    assert (query + [p])[..|query|] == query;
  }

  lemma NamedSnoc(query: seq<Parameter>, p: Parameter, name: Bytes)
    ensures Named(query + [p], name) <==> Named(query, name) || Lower(p.name) == name
  {
    hide Lower;
    if Named(query, name) {
      var i :| 0 <= i < |query| && Lower(query[i].name) == name;
      assert (query + [p])[i] == query[i];
    }
    assert (query + [p])[|query|] == p;
  }

  lemma {:induction false} NamedHasValues(query: seq<Parameter>, name: Bytes)
    ensures Named(query, name) <==> Values(query, name) != []
  {
    hide Lower;
    if query != [] {
      var last := |query| - 1;
      NamedHasValues(query[..last], name);
      NamedSnoc(query[..last], query[last], name);
      assert query == query[..last] + [query[last]];
      hide Named;
    }
  }

  lemma GroupedFound(query: seq<Parameter>, p: Parameter, groups: seq<Group>, at: nat)
    requires Grouped(query, groups) && at < |groups| && groups[at].name == Lower(p.name)
    ensures Grouped(query + [p], groups[at := Group(groups[at].name, groups[at].values + [p.value])])
  {
    hide Lower, Values;
    var after := groups[at := Group(groups[at].name, groups[at].values + [p.value])];
    forall i | 0 <= i < |after|
      ensures after[i].values == Values(query + [p], after[i].name) && after[i].values != []
    {
      ValuesSnoc(query, p, after[i].name);
    }
    forall name | Values(query + [p], name) != []
      ensures exists i :: 0 <= i < |after| && after[i].name == name
    {
      ValuesSnoc(query, p, name);
      if name == Lower(p.name) {
        assert after[at].name == name;
      } else {
        var i :| 0 <= i < |groups| && groups[i].name == name;
        assert after[i].name == name;
      }
    }
  }

  lemma GroupedNew(query: seq<Parameter>, p: Parameter, groups: seq<Group>)
    requires Grouped(query, groups) && forall i :: 0 <= i < |groups| ==> groups[i].name != Lower(p.name)
    ensures Grouped(query + [p], groups + [Group(Lower(p.name), [p.value])])
  {
    hide Lower, Values;
    var after := groups + [Group(Lower(p.name), [p.value])];
    forall i | 0 <= i < |after|
      ensures after[i].values == Values(query + [p], after[i].name) && after[i].values != []
    {
      ValuesSnoc(query, p, after[i].name);
    }
    forall name | Values(query + [p], name) != []
      ensures exists i :: 0 <= i < |after| && after[i].name == name
    {
      ValuesSnoc(query, p, name);
      if name == Lower(p.name) {
        assert after[|groups|].name == name;
      } else {
        var i :| 0 <= i < |groups| && groups[i].name == name;
        assert after[i].name == name;
      }
    }
  }

  method FindGroup(groups: seq<Group>, name: Bytes) returns (at: nat)
    ensures at <= |groups| && (at < |groups| ==> groups[at].name == name)
    ensures at == |groups| ==> forall i :: 0 <= i < |groups| ==> groups[i].name != name
  {
    at := 0;
    while at < |groups| && groups[at].name != name
      invariant at <= |groups| && forall i :: 0 <= i < at ==> groups[i].name != name
    {
      at := at + 1;
    }
  }

  /** The first loop of `canonical_resource`. */
  method GroupByName(query: seq<Parameter>) returns (groups: seq<Group>)
    ensures Grouped(query, groups)
  {
    groups := [];
    for i := 0 to |query|
      invariant Grouped(query[..i], groups)
    {
      hide Grouped, Lower;
      var name := Lower(query[i].name);
      var at := FindGroup(groups, name);
      assert query[..i + 1] == query[..i] + [query[i]];
      if at < |groups| {
        GroupedFound(query[..i], query[i], groups, at);
        groups := groups[at := Group(groups[at].name, groups[at].values + [query[i].value])];
      } else {
        GroupedNew(query[..i], query[i], groups);
        groups := groups + [Group(name, [query[i].value])];
      }
    }
    assert query[..|query|] == query;
  }

  function NameOf(g: Group): Bytes {
    g.name
  }

  /** The names of the groups in order are the names of the query. */
  lemma GroupNames(query: seq<Parameter>, groups: seq<Group>)
    requires Grouped(query, groups)
    ensures NamesOf(query, Mapped(NameOf, Sorted(GroupLess, groups)))
  {
    var sorted := Sorted(GroupLess, groups);
    var names := Mapped(NameOf, sorted);
    hide Lower, Values;
    GroupOrder();
    forall i, j | 0 <= i < j < |groups|
      ensures GroupLess(groups[i], groups[j]) || GroupLess(groups[j], groups[i])
    {
      PrecedesTotal(groups[i].name, groups[j].name);
    }
    SortedAscends(GroupLess, groups);
    forall name
      ensures name in names <==> Named(query, name)
    {
      NamedHasValues(query, name);
      hide Sorted, Named, Ascending, StrictOrder;
      NamesOfSorted(groups, name);
    }
  }

  lemma GroupOrder()
    ensures StrictOrder(GroupLess)
  {
    forall a: Group
      ensures !GroupLess(a, a)
    {
      PrecedesIrreflexive(a.name);
    }
    forall a: Group, b: Group, c: Group | GroupLess(a, b) && GroupLess(b, c)
      ensures GroupLess(a, c)
    {
      PrecedesTransitive(a.name, b.name, c.name);
    }
  }

  lemma NamesOfSorted(groups: seq<Group>, name: Bytes)
    ensures name in Mapped(NameOf, Sorted(GroupLess, groups)) <==>
            exists i :: 0 <= i < |groups| && groups[i].name == name
  {
    var sorted := Sorted(GroupLess, groups);
    hide Sorted, GroupLess;
    if name in Mapped(NameOf, sorted) {
      var i :| 0 <= i < |sorted| && Mapped(NameOf, sorted)[i] == name;
      SameMembers(GroupLess, groups, sorted[i]);
      var j :| 0 <= j < |groups| && groups[j] == sorted[i];
    }
    if exists i :: 0 <= i < |groups| && groups[i].name == name {
      var i :| 0 <= i < |groups| && groups[i].name == name;
      SameMembers(GroupLess, groups, groups[i]);
      var j :| 0 <= j < |sorted| && sorted[j] == groups[i];
      assert Mapped(NameOf, sorted)[j] == name;
    }
  }

  method JoinValues(values: seq<Bytes>) returns (r: Bytes)
    ensures r == Join(values)
  {
    r := [];
    for i := 0 to |values|
      invariant r == Join(values[..i])
    {
      assert values[..i + 1][..i] == values[..i];
      if i > 0 {
        r := r + [COMMA];
      }
      r := r + values[i];
      assert i == 0 ==> [] + values[0] == values[0];
    }
    assert values[..|values|] == values;
  }

  /** `canonical_resource`. */
  method CanonicalResource(account: Bytes, path: Bytes, query: seq<Parameter>) returns (out: Bytes)
    ensures Canonical(account, path, query, out)
  {
    var groups := GroupByName(query);
    var sorted := Sorted(GroupLess, groups);
    GroupNames(query, groups);
    ghost var names := Mapped(NameOf, sorted);
    out := [SLASH] + account + path;
    ghost var start := out;
    assert start + [] == start;
    for i := 0 to |sorted|
      invariant out == start + LinesOf(query, names[..i])
    {
      SortedIsGrouped(query, groups, i);
      OneMoreLine(query, names, i);
      hide *;
      Associate(start, LinesOf(query, names[..i]), LineOf(sorted[i].name, sorted[i].values));
      assert names[i] == sorted[i].name;
      out := WriteLine(out, sorted[i]);
    }
    assert names[..|names|] == names;
    assert out == Resource(account, path, query, names);
  }

  lemma OneMoreLine(query: seq<Parameter>, names: seq<Bytes>, i: nat)
    requires i < |names|
    ensures LinesOf(query, names[..i + 1]) == LinesOf(query, names[..i]) + LineOf(names[i], Values(query, names[i]))
  {
    assert names[..i + 1][..i] == names[..i];
  }

  method WriteLine(out: Bytes, g: Group) returns (r: Bytes)
    ensures r == out + LineOf(g.name, g.values)
  {
    var joined := JoinValues(Sorted(Precedes, g.values));
    hide Sorted, Join;
    r := out + [NEWLINE];
    r := r + g.name;
    r := r + [COLON];
    r := r + joined;
    assert r == out + LineOf(g.name, g.values);
  }

  lemma SortedIsGrouped(query: seq<Parameter>, groups: seq<Group>, i: nat)
    requires Grouped(query, groups) && i < |groups|
    ensures var g := Sorted(GroupLess, groups)[i]; g.values == Values(query, g.name)
  {
    var sorted := Sorted(GroupLess, groups);
    SameMembers(GroupLess, groups, sorted[i]);
    var j :| 0 <= j < |groups| && groups[j] == sorted[i];
  }

  // ---------------------------------------------------------------------------
  // Base64
  // ---------------------------------------------------------------------------

  const PAD: u8 := 61

  /** The alphabet: A to Z, a to z, 0 to 9, plus and slash. */
  function Letter(v: nat): u8
    requires v < 64
  {
    if v < 26 then 65 + v else if v < 52 then 71 + v else if v < 62 then v - 4 else if v == 62 then 43 else 47
  }

  /** Where a letter stands in the alphabet. */
  function ValueOf(c: u8): Option<nat> {
    if 65 <= c <= 90 then Some(c - 65)
    else if 97 <= c <= 122 then Some(c - 71)
    else if 48 <= c <= 57 then Some(c + 4)
    else if c == 43 then Some(62)
    else if c == 47 then Some(63)
    else None
  }

  lemma LetterValue(v: nat)
    requires v < 64
    ensures ValueOf(Letter(v)) == Some(v) && Letter(v) != PAD
  {
  }

  /** Up to three bytes as a number of 24 bits. */
  function Group24(chunk: Bytes): nat
    requires 1 <= |chunk| <= 3
  {
    var x: nat, y: nat, z: nat := chunk[0], if |chunk| > 1 then chunk[1] else 0, if |chunk| > 2 then chunk[2] else 0;
    x * 0x1_0000 + y * 0x100 + z
  }

  function EncodeChunk(chunk: Bytes): (r: Bytes)
    requires 1 <= |chunk| <= 3
    ensures |r| == 4
  {
    var n := Group24(chunk);
    [Letter(n / 0x4_0000 % 64), Letter(n / 0x1000 % 64),
     if |chunk| > 1 then Letter(n / 64 % 64) else PAD, if |chunk| > 2 then Letter(n % 64) else PAD]
  }

  function Encode(bytes: Bytes): Bytes
    decreases |bytes|
  {
    if bytes == [] then []
    else if |bytes| <= 3 then EncodeChunk(bytes)
    else EncodeChunk(bytes[..3]) + Encode(bytes[3..])
  }

  /** A letter's six bits; padding counts as zero. */
  function Six(c: u8): Option<nat> {
    if c == PAD then Some(0) else ValueOf(c)
  }

  function Pads(chunk: Bytes): nat {
    if chunk == [] then 0 else Pads(chunk[..|chunk| - 1]) + if chunk[|chunk| - 1] == PAD then 1 else 0
  }

  function DecodeChunk(chunk: Bytes): Option<Bytes>
    requires |chunk| == 4
  {
    var pad := Pads(chunk);
    if pad > 2 || (pad > 0 && chunk[3] != PAD) then None
    else
      var a, b, c, d := Six(chunk[0]), Six(chunk[1]), Six(chunk[2]), Six(chunk[3]);
      if a.None? || b.None? || c.None? || d.None? then None
      else
        var n := a.value * 0x4_0000 + b.value * 0x1000 + c.value * 64 + d.value;
        Some([n / 0x1_0000 % 0x100] + (if pad < 2 then [n / 0x100 % 0x100] else [])
             + (if pad < 1 then [n % 0x100] else []))
  }

  function DecodeAll(text: Bytes): Option<Bytes>
    requires |text| % 4 == 0
    decreases |text|
  {
    if text == [] then Some([])
    else
      var first := DecodeChunk(text[..4]);
      var more := DecodeAll(text[4..]);
      if first.None? || more.None? then None else Some(first.value + more.value)
  }

  function Decode(text: Bytes): Option<Bytes> {
    if text == [] || |text| % 4 != 0 then None else DecodeAll(text)
  }

  /** The number that letters spell, the first the greatest. */
  function Spelled(text: Bytes): nat {
    if text == [] then 0
    else
      var last := ValueOf(text[|text| - 1]);
      64 * Spelled(text[..|text| - 1]) + if last.Some? then last.value else 0
  }

  lemma SpelledSnoc(s: Bytes, c: u8)
    ensures Spelled(s + [c]) == 64 * Spelled(s) + if ValueOf(c).Some? then ValueOf(c).value else 0
  {
    assert (s + [c])[..|s|] == s;
  }

  lemma SpelledFour(s: Bytes, a: nat, b: nat, c: nat, d: nat)
    requires a < 64 && b < 64 && c < 64 && d < 64
    ensures Spelled(s + [Letter(a), Letter(b), Letter(c), Letter(d)])
         == 0x100_0000 * Spelled(s) + a * 0x4_0000 + b * 0x1000 + c * 64 + d
  {
    LetterValue(a);
    LetterValue(b);
    LetterValue(c);
    LetterValue(d);
    var w, x, y, z := Letter(a), Letter(b), Letter(c), Letter(d);
    hide Letter, ValueOf, Spelled;
    SpelledSnoc(s, w);
    SpelledSnoc(s + [w], x);
    SpelledSnoc(s + [w] + [x], y);
    SpelledSnoc(s + [w] + [x] + [y], z);
    assert s + [w, x, y, z] == s + [w] + [x] + [y] + [z];
  }

  lemma ChunkSpells(s: Bytes, chunk: Bytes)
    requires |chunk| == 3
    ensures Full(EncodeChunk(chunk)) && Spelled(s + EncodeChunk(chunk)) == 0x100_0000 * Spelled(s) + BigEndian(chunk)
  {
    var n := Group24(chunk);
    var a, b, c, d := n / 0x4_0000 % 64, n / 0x1000 % 64, n / 64 % 64, n % 64;
    assert EncodeChunk(chunk) == [Letter(a), Letter(b), Letter(c), Letter(d)];
    LetterValue(a);
    LetterValue(b);
    LetterValue(c);
    LetterValue(d);
    SixBits(n);
    ThreeBytes(chunk);
    hide Letter, ValueOf, Group24, EncodeChunk, Spelled;
    SpelledFour(s, a, b, c, d);
  }

  lemma ThreeBytes(chunk: Bytes)
    requires |chunk| == 3
    ensures BigEndian(chunk) == Group24(chunk)
  {
    assert chunk == [] + [chunk[0]] + [chunk[1]] + [chunk[2]];
    BigEndianSnoc([], chunk[0]);
    BigEndianSnoc([] + [chunk[0]], chunk[1]);
    BigEndianSnoc([] + [chunk[0]] + [chunk[1]], chunk[2]);
  }

  lemma BigEndianSnoc(s: Bytes, b: u8)
    ensures BigEndian(s + [b]) == 0x100 * BigEndian(s) + b
  {
    assert (s + [b])[..|s|] == s;
  }

  /** Whole groups: four letters for every three bytes, no padding, and the letters spell the number of the bytes. */
  lemma {:induction false} EncodingSpells(bytes: Bytes)
    requires |bytes| % 3 == 0
    ensures 3 * |Encode(bytes)| == 4 * |bytes| && Full(Encode(bytes)) && Spelled(Encode(bytes)) == BigEndian(bytes)
    decreases |bytes|
  {
    if bytes != [] {
      var front, last := bytes[..|bytes| - 3], bytes[|bytes| - 3..];
      EncodingSpells(front);
      EncodeAppend(front, last);
      assert bytes == front + last;
      hide EncodeChunk, Encode;
      ChunkSpells(Encode(front), last);
      BigEndianAppend(front, last);
      assert BytePow(3) == 0x100_0000;
    }
  }

  lemma {:induction false} EncodeAppend(a: Bytes, b: Bytes)
    requires |a| % 3 == 0 && 1 <= |b| <= 3
    ensures Encode(a + b) == Encode(a) + EncodeChunk(b)
    decreases |a|
  {
    if a == [] {
      assert a + b == b;
    } else {
      EncodeAppend(a[3..], b);
      assert (a + b)[..3] == a[..3] && (a + b)[3..] == a[3..] + b;
      hide EncodeChunk;
      if |a| == 3 {
        assert a[3..] == [] && a[..3] == a && [] + b == b;
      }
    }
  }

  /** A last group that is not whole is that of the bytes with zeros behind them, and padding takes the place of the
      letters that have none of their bits. */
  lemma PaddedGroup(front: Bytes, last: Bytes)
    requires |front| % 3 == 0 && 1 <= |last| <= 2
    ensures var padded, whole := Encode(front + last), Encode(front + last + Fill(last));
      var n := |Encode(front)| + 1 + |last|;
      && |padded| == |whole| == |Encode(front)| + 4 && padded[..n] == whole[..n]
      && forall i :: n <= i < |padded| ==> padded[i] == PAD
  {
    EncodeAppend(front, last);
    EncodeAppend(front, last + Fill(last));
    assert front + last + Fill(last) == front + (last + Fill(last));
    hide Letter, Encode;
  }

  /** The zeros that make a group whole. */
  function Fill(last: Bytes): Bytes {
    if |last| == 1 then [0, 0] else [0]
  }

  /** Three of the test vectors of section 10 of RFC 4648. */
  lemma KnownEncodings()
    ensures Encode(Ascii("foobar")) == Ascii("Zm9vYmFy")
    ensures Encode(Ascii("fooba")) == Ascii("Zm9vYmE=")
    ensures Encode(Ascii("foob")) == Ascii("Zm9vYg==")
  {
    KnownGroups();
    var foo: Bytes := [102, 111, 111];
    assert Encode(foo) == EncodeChunk(foo);
    KnownTexts();
    hide EncodeChunk, Encode, Ascii;
    EncodeAppend(foo, [98, 97, 114]);
    EncodeAppend(foo, [98, 97]);
    EncodeAppend(foo, [98]);
  }

  /** The four numbers below 64 of a group decide its letters. */
  lemma GroupSpells(chunk: Bytes, a: nat, b: nat, c: nat, d: nat)
    requires 1 <= |chunk| <= 3 && a < 64 && b < 64 && c < 64 && d < 64
    requires Group24(chunk) == a * 0x4_0000 + b * 0x1000 + c * 64 + d
    ensures EncodeChunk(chunk) == [Letter(a), Letter(b), if |chunk| > 1 then Letter(c) else PAD,
                                   if |chunk| > 2 then Letter(d) else PAD]
  {
    Sextets(Group24(chunk), a, b, c, d);
    hide Letter, Group24;
  }

  lemma Sextets(n: nat, a: nat, b: nat, c: nat, d: nat)
    requires a < 64 && b < 64 && c < 64 && d < 64 && n == a * 0x4_0000 + b * 0x1000 + c * 64 + d
    ensures n / 0x4_0000 % 64 == a && n / 0x1000 % 64 == b && n / 64 % 64 == c && n % 64 == d
  {
    ModUnique(n, a * 0x1000 + b * 64 + c, d, 64);
    ModUnique(n, a * 64 + b, c * 64 + d, 0x1000);
    ModUnique(n, a, b * 0x1000 + c * 64 + d, 0x4_0000);
  }

  lemma KnownGroups()
    ensures EncodeChunk([102, 111, 111]) == [90, 109, 57, 118] && EncodeChunk([98, 97, 114]) == [89, 109, 70, 121]
    ensures EncodeChunk([98, 97]) == [89, 109, 69, 61] && EncodeChunk([98]) == [89, 103, 61, 61]
  {
    hide EncodeChunk;
    GroupSpells([102, 111, 111], 25, 38, 61, 47);
    GroupSpells([98, 97, 114], 24, 38, 5, 50);
    GroupSpells([98, 97], 24, 38, 4, 0);
    GroupSpells([98], 24, 32, 0, 0);
  }

  lemma KnownTexts()
    ensures Ascii("foobar") == [102, 111, 111] + [98, 97, 114]
    ensures Ascii("Zm9vYmFy") == [90, 109, 57, 118, 89, 109, 70, 121]
    ensures Ascii("fooba") == [102, 111, 111] + [98, 97] && Ascii("Zm9vYmE=") == [90, 109, 57, 118, 89, 109, 69, 61]
    ensures Ascii("foob") == [102, 111, 111] + [98] && Ascii("Zm9vYg==") == [90, 109, 57, 118, 89, 103, 61, 61]
  {
  }

  lemma SixBits(n: nat)
    requires n < 0x100_0000
    ensures n / 0x4_0000 % 64 * 0x4_0000 + n / 0x1000 % 64 * 0x1000 + n / 64 % 64 * 64 + n % 64 == n
  {
    var a, b, c := n / 0x4_0000, n / 0x1000, n / 64;
    assert n == 64 * c + n % 64;
    assert c == 64 * b + c % 64;
    assert b == 64 * a + b % 64;
  }

  lemma FourPads(w: u8, x: u8, y: u8, z: u8)
    ensures Pads([w, x, y, z]) == (if w == PAD then 1 else 0) + (if x == PAD then 1 else 0)
                                  + (if y == PAD then 1 else 0) + (if z == PAD then 1 else 0)
  {
    assert [w, x, y, z][..3] == [w, x, y] && [w, x, y][..2] == [w, x] && [w, x][..1] == [w] && [w][..0] == [];
    assert Pads([]) == 0;
    assert Pads([w]) == if w == PAD then 1 else 0;
    assert Pads([w, x]) == Pads([w]) + if x == PAD then 1 else 0;
    assert Pads([w, x, y]) == Pads([w, x]) + if y == PAD then 1 else 0;
  }

  lemma ChunkBits(chunk: Bytes)
    requires 1 <= |chunk| <= 3
    ensures var n := Group24(chunk);
      && n < 0x100_0000 && n / 0x1_0000 % 0x100 == chunk[0]
      && (|chunk| > 1 ==> n / 0x100 % 0x100 == chunk[1]) && (|chunk| > 2 ==> n % 0x100 == chunk[2])
      && (|chunk| < 3 ==> n % 64 == 0) && (|chunk| < 2 ==> n / 64 % 64 == 0)
  {
    var n := Group24(chunk);
    var x: nat, y: nat, z: nat := chunk[0], if |chunk| > 1 then chunk[1] else 0, if |chunk| > 2 then chunk[2] else 0;
    assert n == x * 0x1_0000 + y * 0x100 + z;
    assert n / 0x100 == x * 0x100 + y;
    assert n / 0x1_0000 == x;
    if |chunk| < 3 {
      assert n == 64 * (x * 1024 + y * 4);
    }
    if |chunk| < 2 {
      assert n / 64 == 64 * (x * 16);
    }
  }

  lemma ChunkRoundTrip(chunk: Bytes)
    requires 1 <= |chunk| <= 3
    ensures DecodeChunk(EncodeChunk(chunk)) == Some(chunk)
  {
    var n := Group24(chunk);
    var a, b, c, d := n / 0x4_0000 % 64, n / 0x1000 % 64, n / 64 % 64, n % 64;
    var text := EncodeChunk(chunk);
    LetterValue(a);
    LetterValue(b);
    LetterValue(c);
    LetterValue(d);
    ChunkBits(chunk);
    SixBits(n);
    FourPads(text[0], text[1], text[2], text[3]);
    assert text == [text[0], text[1], text[2], text[3]];
    assert Pads(text) == 3 - |chunk|;
    assert Six(text[0]) == Some(a) && Six(text[1]) == Some(b) && Six(text[2]) == Some(c) && Six(text[3]) == Some(d);
    hide Letter, ValueOf, Pads, Group24, Six, EncodeChunk;
    assert a * 0x4_0000 + b * 0x1000 + c * 64 + d == n;
    assert chunk == [n / 0x1_0000 % 0x100] + (if |chunk| > 1 then [n / 0x100 % 0x100] else [])
                    + (if |chunk| > 2 then [n % 0x100] else []);
  }

  /** Decoding undoes encoding, for every byte string but the empty one. */
  lemma {:induction false} RoundTrip(bytes: Bytes)
    ensures bytes != [] ==> Decode(Encode(bytes)) == Some(bytes)
    ensures bytes == [] ==> Decode(Encode(bytes)) == None
    decreases |bytes|
  {
    if bytes != [] {
      EncodedIsWhole(bytes);
      AllRoundTrip(bytes);
    }
  }

  lemma {:induction false} EncodedIsWhole(bytes: Bytes)
    ensures |Encode(bytes)| % 4 == 0 && (bytes != [] ==> Encode(bytes) != [])
    decreases |bytes|
  {
    hide EncodeChunk;
    if |bytes| > 3 {
      EncodedIsWhole(bytes[3..]);
    }
  }

  lemma {:induction false} AllRoundTrip(bytes: Bytes)
    ensures |Encode(bytes)| % 4 == 0 && DecodeAll(Encode(bytes)) == Some(bytes)
    decreases |bytes|
  {
    EncodedIsWhole(bytes);
    hide EncodeChunk, DecodeChunk;
    if bytes == [] {
    } else if |bytes| <= 3 {
      ChunkRoundTrip(bytes);
      assert EncodeChunk(bytes)[..4] == EncodeChunk(bytes) && EncodeChunk(bytes)[4..] == [];
      assert DecodeAll([]) == Some([]);
      assert bytes + [] == bytes;
    } else {
      ChunkRoundTrip(bytes[..3]);
      AllRoundTrip(bytes[3..]);
      var text := Encode(bytes);
      assert text[..4] == EncodeChunk(bytes[..3]) && text[4..] == Encode(bytes[3..]);
      assert bytes == bytes[..3] + bytes[3..];
    }
  }

  // ---------------------------------------------------------------------------
  // How many spellings there are
  // ---------------------------------------------------------------------------

  predicate Full(chunk: Bytes) {
    PAD !in chunk
  }

  /** Padding at the end only, and nothing in the bits it leaves unused. */
  predicate Tidy(chunk: Bytes)
    requires |chunk| == 4
  {
    && chunk[0] != PAD && chunk[1] != PAD
    && (chunk[2] == PAD ==> chunk[3] == PAD && SpareZero(chunk[1], 16))
    && (chunk[2] != PAD && chunk[3] == PAD ==> SpareZero(chunk[2], 4))
  }

  predicate SpareZero(c: u8, m: nat)
    requires m > 0
  {
    ValueOf(c).Some? && ValueOf(c).value % m == 0
  }

  /** Padding in the last group only, and tidy there. */
  predicate Strict(text: Bytes)
    decreases |text|
  {
    text == [] || (|text| == 4 && Tidy(text)) || (|text| > 4 && Full(text[..4]) && Strict(text[4..]))
  }

  lemma ValueLetter(c: u8)
    requires ValueOf(c).Some?
    ensures ValueOf(c).value < 64 && Letter(ValueOf(c).value) == c && c != PAD
  {
  }

  lemma EncodedChunkIsTidy(chunk: Bytes)
    requires 1 <= |chunk| <= 3
    ensures Tidy(EncodeChunk(chunk)) && (|chunk| == 3 ==> Full(EncodeChunk(chunk)))
  {
    var n := Group24(chunk);
    LetterValue(n / 0x4_0000 % 64);
    LetterValue(n / 0x1000 % 64);
    LetterValue(n / 64 % 64);
    LetterValue(n % 64);
    SpareOfChunk(chunk);
  }

  lemma SpareOfChunk(chunk: Bytes)
    requires 1 <= |chunk| <= 3
    ensures |chunk| == 1 ==> Group24(chunk) / 0x1000 % 64 % 16 == 0
    ensures |chunk| == 2 ==> Group24(chunk) / 64 % 64 % 4 == 0
  {
    var n := Group24(chunk);
    var x: nat, y: nat := chunk[0], if |chunk| > 1 then chunk[1] else 0;
    if |chunk| == 1 {
      SpareOfOne(n, x);
    } else if |chunk| == 2 {
      SpareOfTwo(n, x, y);
    }
  }

  lemma SpareOfOne(n: nat, x: nat)
    requires n == x * 0x1_0000
    ensures n / 0x1000 % 64 % 16 == 0
  {
    assert n / 0x1000 == 16 * x;
  }

  lemma SpareOfTwo(n: nat, x: nat, y: nat)
    requires n == x * 0x1_0000 + y * 0x100
    ensures n / 64 % 64 % 4 == 0
  {
    assert n / 64 == 4 * (256 * x + y);
  }

  lemma {:induction false} EncodedIsStrict(bytes: Bytes)
    ensures Strict(Encode(bytes))
    decreases |bytes|
  {
    hide EncodeChunk, Tidy;
    if bytes == [] {
    } else if |bytes| <= 3 {
      EncodedChunkIsTidy(bytes);
    } else {
      EncodedChunkIsTidy(bytes[..3]);
      EncodedIsStrict(bytes[3..]);
      EncodedIsWhole(bytes[3..]);
      var text := Encode(bytes);
      assert text[..4] == EncodeChunk(bytes[..3]) && text[4..] == Encode(bytes[3..]);
    }
  }

  /** The bytes a number of 24 bits spells, and the number they are. */
  lemma NumberOfBytes(n: nat, size: nat)
    requires n < 0x100_0000 && 1 <= size <= 3
    requires size == 2 ==> n % 0x100 == 0
    requires size == 1 ==> n % 0x1_0000 == 0
    ensures Group24([n / 0x1_0000 % 0x100] + (if size > 1 then [n / 0x100 % 0x100] else [])
                    + (if size > 2 then [n % 0x100] else [])) == n
  {
    assert n == 0x100 * (n / 0x100) + n % 0x100;
    assert n / 0x100 == 0x100 * (n / 0x1_0000) + n / 0x100 % 0x100;
  }

  lemma FourSixes(a: nat, b: nat, c: nat, d: nat)
    requires a < 64 && b < 64 && c < 64 && d < 64
    ensures var n := a * 0x4_0000 + b * 0x1000 + c * 64 + d;
      && n < 0x100_0000 && n / 0x4_0000 % 64 == a && n / 0x1000 % 64 == b && n / 64 % 64 == c && n % 64 == d
      && (d == 0 && c % 4 == 0 ==> n % 0x100 == 0)
      && (d == 0 && c == 0 && b % 16 == 0 ==> n % 0x1_0000 == 0)
  {
    var n := a * 0x4_0000 + b * 0x1000 + c * 64 + d;
    assert n / 64 == a * 0x1000 + b * 64 + c;
    assert n / 0x1000 == a * 64 + b;
    assert n / 0x4_0000 == a;
    if d == 0 && c % 4 == 0 {
      assert n == 0x100 * (a * 0x400 + b * 16 + c / 4);
    }
    if d == 0 && c == 0 && b % 16 == 0 {
      assert n == 0x1_0000 * (a * 4 + b / 16);
    }
  }

  lemma TidyReencodes(chunk: Bytes)
    requires |chunk| == 4 && Tidy(chunk) && DecodeChunk(chunk).Some?
    ensures var bytes := DecodeChunk(chunk).value;
      1 <= |bytes| <= 3 && EncodeChunk(bytes) == chunk && (Full(chunk) ==> |bytes| == 3)
  {
    FourPads(chunk[0], chunk[1], chunk[2], chunk[3]);
    assert chunk == [chunk[0], chunk[1], chunk[2], chunk[3]];
    var a, b, c, d := Six(chunk[0]).value, Six(chunk[1]).value, Six(chunk[2]).value, Six(chunk[3]).value;
    ValueLetter(chunk[0]);
    ValueLetter(chunk[1]);
    if chunk[2] != PAD {
      ValueLetter(chunk[2]);
    }
    if chunk[3] != PAD {
      ValueLetter(chunk[3]);
    }
    FourSixes(a, b, c, d);
    var n := a * 0x4_0000 + b * 0x1000 + c * 64 + d;
    hide Letter, ValueOf, Pads, Group24;
    NumberOfBytes(n, 3 - Pads(chunk));
  }

  lemma {:induction false} StrictReencodes(text: Bytes)
    requires |text| % 4 == 0 && Strict(text) && DecodeAll(text).Some?
    ensures Encode(DecodeAll(text).value) == text
    decreases |text|
  {
    hide EncodeChunk, DecodeChunk;
    if text == [] {
    } else {
      assert text == text[..4] + text[4..];
      assert Tidy(text[..4]) by {
        if |text| == 4 {
          assert text[..4] == text;
        }
      }
      TidyReencodes(text[..4]);
      StrictReencodes(text[4..]);
      var first, more := DecodeChunk(text[..4]).value, DecodeAll(text[4..]).value;
      if |text| == 4 {
        assert text[..4] == text && text[4..] == [];
        assert first + more == first;
      } else {
        EncodedJoins(first, more);
        assert Encode([]) == [];
      }
    }
  }

  lemma EncodedJoins(first: Bytes, more: Bytes)
    requires |first| == 3
    ensures Encode(first + more) == EncodeChunk(first) + Encode(more)
  {
    hide EncodeChunk;
    if more == [] {
      assert first + more == first && EncodeChunk(first) + [] == EncodeChunk(first);
    } else {
      assert (first + more)[..3] == first && (first + more)[3..] == more;
    }
  }

  /** Of the texts that decode to the same bytes, the one that the encoder writes is the strict one. */
  lemma OneStrictSpelling(text: Bytes, bytes: Bytes)
    requires Decode(text) == Some(bytes)
    ensures text == Encode(bytes) <==> Strict(text)
  {
    EncodedIsStrict(bytes);
    if Strict(text) {
      StrictReencodes(text);
    }
  }

  /** Other spellings are accepted too: padding inside the text, as in `QQ==QQ==` for the bytes of `QUE=`, and bits
      set where padding leaves them unused, as in `QR==` for the byte of `QQ==`. */
  lemma LooseSpellings()
    ensures Decode([81, 81, PAD, PAD, 81, 81, PAD, PAD]) == Decode([81, 85, 69, PAD]) == Some([65, 65])
    ensures Decode([81, 82, PAD, PAD]) == Decode([81, 81, PAD, PAD]) == Some([65])
  {
    var text := [81, 81, PAD, PAD, 81, 81, PAD, PAD];
    assert text[..4] == [81, 81, PAD, PAD] && text[4..] == [81, 81, PAD, PAD];
    OneGroup(81, 81, PAD, PAD);
    OneGroup(81, 82, PAD, PAD);
    OneGroup(81, 85, 69, PAD);
    assert Six(81) == Some(16) && Six(82) == Some(17) && Six(85) == Some(20) && Six(69) == Some(4);
    assert Six(PAD) == Some(0);
    var none: Bytes := [];
    assert [65] + none + none == [65] && [65] + [65] + none == [65, 65];
    assert DecodeChunk([81, 81, PAD, PAD]) == Some([65]);
    assert DecodeChunk([81, 82, PAD, PAD]) == Some([65]);
    assert DecodeChunk([81, 85, 69, PAD]) == Some([65, 65]);
    assert DecodeAll(text) == Some([65] + [65]) && [65] + [65] == [65, 65];
  }

  lemma OneGroup(w: u8, x: u8, y: u8, z: u8)
    ensures DecodeAll([w, x, y, z]) == DecodeChunk([w, x, y, z])
    ensures Pads([w, x, y, z]) == (if w == PAD then 1 else 0) + (if x == PAD then 1 else 0)
                                  + (if y == PAD then 1 else 0) + (if z == PAD then 1 else 0)
  {
    hide DecodeChunk;
    FourPads(w, x, y, z);
    var text := [w, x, y, z];
    assert text[..4] == text && text[4..] == [];
    assert DecodeAll([]) == Some([]);
    if DecodeChunk(text).Some? {
      assert DecodeChunk(text).value + [] == DecodeChunk(text).value;
    }
  }

  /** `base64_encode`, chunk by chunk. */
  method Base64Encode(bytes: Bytes) returns (out: Bytes)
    ensures out == Encode(bytes)
  {
    out := [];
    var rest := bytes;
    assert [] + Encode(bytes) == Encode(bytes);
    while rest != []
      invariant out + Encode(rest) == Encode(bytes)
      decreases |rest|
    {
      hide EncodeChunk;
      var size := if |rest| < 3 then |rest| else 3;
      assert |rest| <= 3 ==> rest[..size] == rest && rest[size..] == [] && EncodeChunk(rest) + [] == EncodeChunk(rest);
      assert Encode(rest) == EncodeChunk(rest[..size]) + Encode(rest[size..]);
      Associate(out, EncodeChunk(rest[..size]), Encode(rest[size..]));
      out := out + EncodeChunk(rest[..size]);
      rest := rest[size..];
    }
    assert out + [] == out;
  }

  /** What is left decodes to what is left of the bytes, or not at all. */
  predicate Decoding(text: Bytes, out: Bytes, rest: Bytes) {
    && |text| % 4 == |rest| % 4 == 0
    && (DecodeAll(text).Some? <==> DecodeAll(rest).Some?)
    && (DecodeAll(rest).Some? ==> DecodeAll(text).value == out + DecodeAll(rest).value)
  }

  lemma DecodingStep(text: Bytes, out: Bytes, rest: Bytes)
    requires Decoding(text, out, rest) && rest != []
    ensures var first := DecodeChunk(rest[..4]);
      if first.None? then DecodeAll(text) == None else Decoding(text, out + first.value, rest[4..])
  {
    hide DecodeChunk;
    var first, more := DecodeChunk(rest[..4]), DecodeAll(rest[4..]);
    if first.Some? && more.Some? {
      Associate(out, first.value, more.value);
    }
  }

  lemma DecodingEnds(text: Bytes, out: Bytes)
    requires Decoding(text, out, [])
    ensures DecodeAll(text) == Some(out)
  {
    hide DecodeChunk;
    assert DecodeAll([]) == Some([]) && out + [] == out;
  }

  /** `base64_decode`. */
  method Base64Decode(text: Bytes) returns (r: Option<Bytes>)
    ensures r == Decode(text)
  {
    if text == [] || |text| % 4 != 0 {
      return None;
    }
    var out, rest := [], text;
    while rest != []
      invariant Decoding(text, out, rest)
      decreases |rest|
    {
      DecodingStep(text, out, rest);
      hide DecodeChunk, DecodeAll;
      var first := DecodeChunk(rest[..4]);
      if first.None? {
        return None;
      }
      out := out + first.value;
      rest := rest[4..];
    }
    DecodingEnds(text, out);
    return Some(out);
  }
}
