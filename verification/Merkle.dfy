/** The hash tree of section 2.1 of RFC 6962, as a recursion and as the loop with a stack that computes it. */
module Merkle {
  import opened Words

  type Digest = b: Bytes | |b| == 48 witness seq(48, _ => 0)

  /** The hash function is a parameter: nothing below depends on which it is. */
  type Hash = Bytes -> Digest

  /** No two of these strings share a digest. */
  ghost predicate CollisionFree(h: Hash, s: set<Bytes>) {
    forall x, y :: x in s && y in s && h(x) == h(y) ==> x == y
  }

  // ---------------------------------------------------------------------------
  // The tree
  // ---------------------------------------------------------------------------

  function Doubled(n: nat, k: nat): (r: nat)
    requires 0 < k < n
    ensures k <= r < n <= 2 * r
    decreases n - k
  {
    if 2 * k < n then Doubled(n, 2 * k) else k
  }

  /** Where a tree of n leaves divides: the greatest power of two that is less than n. */
  function SplitPoint(n: nat): (r: nat)
    requires n >= 2
    ensures 0 < r < n <= 2 * r
  {
    Doubled(n, 1)
  }

  predicate PowerOfTwo(n: nat)
    decreases n
  {
    n == 1 || (n > 1 && n % 2 == 0 && PowerOfTwo(n / 2))
  }

  lemma {:induction false} DoubledIsPower(n: nat, k: nat)
    requires 0 < k < n && PowerOfTwo(k)
    ensures PowerOfTwo(Doubled(n, k))
    decreases n - k
  {
    if 2 * k < n {
      assert 2 * k / 2 == k;
      DoubledIsPower(n, 2 * k);
    }
  }

  lemma SplitPointIsPower(n: nat)
    requires n >= 2
    ensures PowerOfTwo(SplitPoint(n))
  {
    DoubledIsPower(n, 1);
  }

  function Leaf(data: Bytes): Bytes {
    [0] + data
  }

  function Node(left: Digest, right: Digest): Bytes {
    [1] + left + right
  }

  /** The strings of a tree by their octets: a leaf starts with zero and a node with one, left before right. */
  lemma TreeOctets(data: Bytes, left: Digest, right: Digest)
    ensures |Leaf(data)| == 1 + |data| && Leaf(data)[0] == 0 && Leaf(data)[1..] == data
    ensures |Node(left, right)| == 97 && Node(left, right)[0] == 1
    ensures Node(left, right)[1..49] == left && Node(left, right)[49..] == right
  {
  }

  /** MTH of RFC 6962 over the entries themselves. */
  function TreeHash(h: Hash, entries: seq<Bytes>): Digest
    decreases |entries|
  {
    if entries == [] then h([])
    else if |entries| == 1 then h(Leaf(entries[0]))
    else
      var k := SplitPoint(|entries|);
      h(Node(TreeHash(h, entries[..k]), TreeHash(h, entries[k..])))
  }

  /** Everything that is hashed on the way. */
  function Hashed(h: Hash, entries: seq<Bytes>): set<Bytes>
    decreases |entries|
  {
    if entries == [] then {[]}
    else if |entries| == 1 then {Leaf(entries[0])}
    else
      var k := SplitPoint(|entries|);
      {Node(TreeHash(h, entries[..k]), TreeHash(h, entries[k..]))}
      + Hashed(h, entries[..k]) + Hashed(h, entries[k..])
  }

  /** What is hashed last, and where it splits the entries. */
  lemma TopIsHashed(h: Hash, entries: seq<Bytes>) returns (top: Bytes, k: nat)
    ensures top in Hashed(h, entries) && TreeHash(h, entries) == h(top)
    ensures entries == [] ==> top == []
    ensures |entries| == 1 ==> top == Leaf(entries[0])
    ensures |entries| > 1 ==> 0 < k < |entries| && top == Node(TreeHash(h, entries[..k]), TreeHash(h, entries[k..]))
    ensures |entries| > 1 ==>
      Hashed(h, entries[..k]) <= Hashed(h, entries) && Hashed(h, entries[k..]) <= Hashed(h, entries)
  {
    k := 0;
    if entries == [] {
      top := [];
    } else if |entries| == 1 {
      top := Leaf(entries[0]);
    } else {
      k := SplitPoint(|entries|);
      top := Node(TreeHash(h, entries[..k]), TreeHash(h, entries[k..]));
    }
  }

  /** The first byte tells leaves, nodes and the empty string apart. */
  lemma TopKinds(d: Bytes, l: Digest, r: Digest)
    ensures Leaf(d) != [] && Node(l, r) != [] && Leaf(d) != Node(l, r)
  {
    assert Leaf(d)[0] == 0 && Node(l, r)[0] == 1;
  }

  lemma LeafInjective(a: Bytes, b: Bytes)
    requires Leaf(a) == Leaf(b)
    ensures a == b
  {
    assert a == Leaf(a)[1..] && b == Leaf(b)[1..];
  }

  lemma NoCollision(h: Hash, s: set<Bytes>, x: Bytes, y: Bytes)
    requires CollisionFree(h, s) && x in s && y in s && h(x) == h(y)
    ensures x == y
  {
  }

  lemma NodeInjective(a: Digest, b: Digest, c: Digest, d: Digest)
    requires Node(a, b) == Node(c, d)
    ensures a == c && b == d
  {
    assert a == Node(a, b)[1..49] && b == Node(a, b)[49..];
    assert c == Node(c, d)[1..49] && d == Node(c, d)[49..];
  }

  /** The root pins down the entries and how many there are, for any two lists of any two lengths. */
  lemma {:induction false} RootDecides(h: Hash, s: set<Bytes>, a: seq<Bytes>, b: seq<Bytes>)
    requires CollisionFree(h, s) && Hashed(h, a) <= s && Hashed(h, b) <= s
    requires TreeHash(h, a) == TreeHash(h, b)
    ensures a == b
    decreases |a|
  {
    hide *;
    var x, i := TopIsHashed(h, a);
    var y, j := TopIsHashed(h, b);
    NoCollision(h, s, x, y);
    var none: Digest := TreeHash(h, []);
    if |a| > 1 {
      var l, r := TreeHash(h, a[..i]), TreeHash(h, a[i..]);
      TopKinds(if b == [] then [] else b[0], l, r);
      assert |b| > 1;
      NodeInjective(l, r, TreeHash(h, b[..j]), TreeHash(h, b[j..]));
      RootDecides(h, s, a[..i], b[..j]);
      RootDecides(h, s, a[i..], b[j..]);
      assert a == a[..i] + a[i..] && b == b[..j] + b[j..];
    } else if |b| > 1 {
      TopKinds(if a == [] then [] else a[0], TreeHash(h, b[..j]), TreeHash(h, b[j..]));
      assert false;
    } else {
      TopKinds(if a == [] then [] else a[0], none, none);
      TopKinds(if b == [] then [] else b[0], none, none);
      assert |a| == |b|;
      if |a| == 1 {
        LeafInjective(a[0], b[0]);
      }
    }
  }

  // ---------------------------------------------------------------------------
  // The tree over leaf hashes, as the code has it
  // ---------------------------------------------------------------------------

  function LeafHashes(h: Hash, entries: seq<Bytes>): (r: seq<Digest>)
    ensures |r| == |entries|
    ensures forall i :: 0 <= i < |r| ==> r[i] == h(Leaf(entries[i]))
  {
    if entries == [] then [] else [h(Leaf(entries[0]))] + LeafHashes(h, entries[1..])
  }

  function Root(h: Hash, leaves: seq<Digest>): Digest
    decreases |leaves|
  {
    if leaves == [] then h([])
    else if |leaves| == 1 then leaves[0]
    else
      var k := SplitPoint(|leaves|);
      h(Node(Root(h, leaves[..k]), Root(h, leaves[k..])))
  }

  lemma {:induction false} RootIsTreeHash(h: Hash, entries: seq<Bytes>)
    ensures Root(h, LeafHashes(h, entries)) == TreeHash(h, entries)
    decreases |entries|
  {
    var leaves := LeafHashes(h, entries);
    if |entries| > 1 {
      var k := SplitPoint(|entries|);
      assert leaves[..k] == LeafHashes(h, entries[..k]);
      assert leaves[k..] == LeafHashes(h, entries[k..]);
      RootIsTreeHash(h, entries[..k]);
      RootIsTreeHash(h, entries[k..]);
    }
  }

  // ---------------------------------------------------------------------------
  // The loop
  // ---------------------------------------------------------------------------

  /** The leaves start to end, exclusive. */
  datatype Span = Span(start: nat, end: nat) {
    function Left(): Span
      requires start + 1 < end
    {
      Span(start, start + SplitPoint(end - start))
    }

    function Right(): Span
      requires start + 1 < end
    {
      Span(start + SplitPoint(end - start), end)
    }
  }

  predicate SpansOf(spans: seq<Span>, n: nat) {
    forall i :: 0 <= i < |spans| ==> spans[i].start < spans[i].end <= n
  }

  /** How many spans there are in the trees of these. */
  function Visits(spans: seq<Span>): int {
    if spans == [] then 0
    else Visits(spans[..|spans| - 1]) + 2 * (spans[|spans| - 1].end - spans[|spans| - 1].start) - 1
  }

  lemma VisitsSnoc(spans: seq<Span>, s: Span)
    ensures Visits(spans + [s]) == Visits(spans) + 2 * (s.end - s.start) - 1
  {
    assert (spans + [s])[..|spans|] == spans;
  }

  lemma {:induction false} VisitsNonneg(spans: seq<Span>, n: nat)
    requires SpansOf(spans, n)
    ensures Visits(spans) >= |spans|
  {
    if spans != [] {
      VisitsNonneg(spans[..|spans| - 1], n);
    }
  }

  /** The span is visited after position i. */
  predicate Later(order: seq<Span>, i: nat, s: Span) {
    exists a :: i < a < |order| && order[a] == s
  }

  /** The children of every visited span come after it, or are still waiting. */
  predicate ChildrenFollow(order: seq<Span>, stack: seq<Span>) {
    forall i :: 0 <= i < |order| && order[i].start + 1 < order[i].end ==>
      && (Later(order, i, order[i].Left()) || order[i].Left() in stack)
      && (Later(order, i, order[i].Right()) || order[i].Right() in stack)
  }

  lemma LaterOnceMore(order: seq<Span>, s: Span, i: nat, t: Span)
    requires i < |order|
    ensures Later(order, i, t) || t == s ==> Later(order + [s], i, t)
  {
    if Later(order, i, t) {
      var a :| i < a < |order| && order[a] == t;
      assert (order + [s])[a] == t;
    } else if t == s {
      assert (order + [s])[|order|] == t;
    }
  }

  lemma InStack(below: seq<Span>, s: Span, above: seq<Span>, t: Span)
    ensures t in below + [s] ==> t == s || t in below + above
  {
  }

  /** One visit keeps that so. */
  lemma VisitOne(order: seq<Span>, below: seq<Span>, s: Span, above: seq<Span>)
    requires ChildrenFollow(order, below + [s])
    requires above == if s.start + 1 < s.end then [s.Left(), s.Right()] else []
    ensures ChildrenFollow(order + [s], below + above)
  {
    hide Later;
    forall i | 0 <= i < |order + [s]| && (order + [s])[i].start + 1 < (order + [s])[i].end
      ensures var t := (order + [s])[i];
        && (Later(order + [s], i, t.Left()) || t.Left() in below + above)
        && (Later(order + [s], i, t.Right()) || t.Right() in below + above)
    {
      if i < |order| {
        var t := order[i];
        assert (order + [s])[i] == t;
        LaterOnceMore(order, s, i, t.Left());
        LaterOnceMore(order, s, i, t.Right());
        InStack(below, s, above, t.Left());
        InStack(below, s, above, t.Right());
      } else {
        assert above[0] == s.Left() && above[1] == s.Right();
      }
    }
  }

  /** `k = 1; while k << 1 < n: k <<= 1`. */
  method FindSplit(n: nat) returns (k: nat)
    requires n >= 2
    ensures k == SplitPoint(n)
  {
    k := 1;
    while 2 * k < n
      invariant 0 < k < n && Doubled(n, k) == SplitPoint(n)
      decreases n - k
    {
      k := 2 * k;
    }
  }

  /** The first loop, midway: the spans visited and those waiting. */
  ghost predicate Listing(n: nat, order: seq<Span>, stack: seq<Span>) {
    && SpansOf(order, n) && SpansOf(stack, n) && ChildrenFollow(order, stack)
    && |order| + Visits(stack) == 2 * n - 1
    && (if order == [] then stack == [Span(0, n)] else order[0] == Span(0, n))
  }

  lemma ListingStarts(n: nat)
    requires n >= 1
    ensures Listing(n, [], [Span(0, n)])
  {
    VisitsSnoc([], Span(0, n));
    assert [] + [Span(0, n)] == [Span(0, n)];
  }

  lemma ListingEnds(n: nat, order: seq<Span>)
    requires n >= 1 && Listing(n, order, [])
    ensures |order| == 2 * n - 1 && SpansOf(order, n) && order[0] == Span(0, n) && ChildrenFollow(order, [])
  {
  }

  lemma ListedOne(n: nat, order: seq<Span>, below: seq<Span>, s: Span) returns (k: nat)
    requires Listing(n, order, below + [s])
    ensures s.start < s.end <= n && |order| + 1 <= 2 * n - 1
    ensures s.start + 1 == s.end ==> Listing(n, order + [s], below)
    ensures s.start + 1 < s.end ==>
      && k == SplitPoint(s.end - s.start) && k <= s.end
      && Listing(n, order + [s], below + [Span(s.start, s.start + k)] + [Span(s.start + k, s.end)])
  {
    hide Visits, ChildrenFollow, SplitPoint;
    k := if s.start + 1 < s.end then SplitPoint(s.end - s.start) else 0;
    assert (below + [s])[|below|] == s && (below + [s])[..|below|] == below;
    assert s.start < s.end <= n;
    assert order == [] ==> below + [s] == [Span(0, n)] && s == [Span(0, n)][|below|];
    VisitsNonneg(below + [s], n);
    VisitsSnoc(below, s);
    if s.start + 1 == s.end {
      VisitOne(order, below, s, []);
      assert below + [] == below;
    } else {
      VisitOne(order, below, s, [s.Left(), s.Right()]);
      VisitsSnoc(below, s.Left());
      VisitsSnoc(below + [s.Left()], s.Right());
      assert below + [s.Left(), s.Right()] == below + [s.Left()] + [s.Right()];
    }
  }

  /** One pass of the first loop, once the span is off the stack. */
  method VisitSpan(n: nat, order: seq<Span>, below: seq<Span>, s: Span) returns (order': seq<Span>, stack: seq<Span>)
    requires Listing(n, order, below + [s])
    ensures Listing(n, order', stack) && |order'| == |order| + 1 <= 2 * n - 1
  {
    hide *;
    ghost var _ := ListedOne(n, order, below, s);
    order' := order + [s];
    stack := below;
    if s.end - s.start > 1 {
      var k := FindSplit(s.end - s.start);
      stack := stack + [Span(s.start, s.start + k)];
      stack := stack + [Span(s.start + k, s.end)];
    }
  }

  lemma LastOff(stack: seq<Span>)
    requires stack != []
    ensures stack == stack[..|stack| - 1] + [stack[|stack| - 1]]
  {
  }

  /** The first loop of `merkle_root`: list every span of the tree, each before its children. */
  method ListSpans(n: nat) returns (order: seq<Span>)
    requires n >= 1
    ensures |order| == 2 * n - 1 && SpansOf(order, n) && order[0] == Span(0, n)
    ensures ChildrenFollow(order, [])
  {
    var stack := [Span(0, n)];
    order := [];
    ListingStarts(n);
    hide *;
    while stack != []
      invariant Listing(n, order, stack)
      decreases 2 * n - 1 - |order|
    {
      var s, below := stack[|stack| - 1], stack[..|stack| - 1];
      LastOff(stack);
      order, stack := VisitSpan(n, order, below, s);
    }
    ListingEnds(n, order);
  }

  /** The root of the leaves of a span. */
  function RootOf(h: Hash, leaves: seq<Digest>, s: Span): Digest
    requires s.start <= s.end <= |leaves|
  {
    Root(h, leaves[s.start..s.end])
  }

  lemma RootOfSplits(h: Hash, leaves: seq<Digest>, s: Span)
    requires s.start < s.end <= |leaves|
    ensures s.start + 1 < s.end ==>
      RootOf(h, leaves, s) == h(Node(RootOf(h, leaves, s.Left()), RootOf(h, leaves, s.Right())))
    ensures s.start + 1 == s.end ==> RootOf(h, leaves, s) == leaves[s.start]
  {
    if s.start + 1 < s.end {
      var k := SplitPoint(s.end - s.start);
      hide SplitPoint;
      assert leaves[s.start..s.end][..k] == leaves[s.start..s.start + k];
      assert leaves[s.start..s.end][k..] == leaves[s.start + k..s.end];
    }
  }

  /** The dictionary holds roots, and those of the spans from position i on. */
  ghost predicate Solved(h: Hash, leaves: seq<Digest>, order: seq<Span>, i: nat, results: map<Span, Digest>) {
    (forall s :: s in results ==> s.start < s.end <= |leaves| && results[s] == RootOf(h, leaves, s)) &&
    (forall j :: i <= j < |order| ==> order[j] in results)
  }

  /** Both children of a visited span have been solved by the time it is. */
  lemma ChildrenSolved(h: Hash, leaves: seq<Digest>, order: seq<Span>, i: nat, results: map<Span, Digest>)
    requires i < |order| && ChildrenFollow(order, []) && Solved(h, leaves, order, i + 1, results)
    requires order[i].start + 1 < order[i].end
    ensures order[i].Left() in results && order[i].Right() in results
  {
    hide RootOf, SplitPoint;
    assert Later(order, i, order[i].Left()) && Later(order, i, order[i].Right());
  }

  lemma SolvedSpan(h: Hash, leaves: seq<Digest>, order: seq<Span>, results: map<Span, Digest>, i: nat, s: Span)
    requires s.start + 1 < s.end <= |leaves| && Solved(h, leaves, order, i, results)
    requires s.Left() in results && s.Right() in results
    ensures RootOf(h, leaves, s) == h(Node(results[s.Left()], results[s.Right()]))
  {
    RootOfSplits(h, leaves, s);
    hide RootOf, SplitPoint;
  }

  lemma SolvedOne(h: Hash, leaves: seq<Digest>, order: seq<Span>, i: nat, results: map<Span, Digest>, d: Digest)
    requires SpansOf(order, |leaves|) && i < |order| && Solved(h, leaves, order, i + 1, results)
    requires d == RootOf(h, leaves, order[i])
    ensures Solved(h, leaves, order, i, results[order[i] := d])
  {
    hide RootOf;
  }

  /** `merkle_root`. Its second pass always finds both children of a span already computed. */
  method MerkleRoot(h: Hash, leaves: seq<Digest>) returns (root: Digest, visited: nat)
    ensures root == Root(h, leaves)
    ensures visited == if leaves == [] then 0 else 2 * |leaves| - 1
  {
    if leaves == [] {
      return h([]), 0;
    }
    var order := ListSpans(|leaves|);
    visited := |order|;
    var results: map<Span, Digest> := map[];
    var i := |order|;
    while i > 0
      invariant 0 <= i <= |order|
      invariant Solved(h, leaves, order, i, results)
    {
      i := i - 1;
      if order[i].start + 1 < order[i].end {
        ChildrenSolved(h, leaves, order, i, results);
      }
      var d := SolveSpan(h, leaves, order, i + 1, order[i], results);
      SolvedOne(h, leaves, order, i, results, d);
      hide Solved, SpansOf, ChildrenFollow, RootOf;
      results := results[order[i] := d];
    }
    assert leaves[0..|leaves|] == leaves;
    root := results[Span(0, |leaves|)];
  }

  /** One pass of the second loop: a leaf, or the hash of two children, which are already there. */
  method SolveSpan(h: Hash, leaves: seq<Digest>, ghost order: seq<Span>, ghost i: nat, s: Span,
                   results: map<Span, Digest>)
    returns (d: Digest)
    requires s.start < s.end <= |leaves| && Solved(h, leaves, order, i, results)
    requires s.start + 1 < s.end ==> s.Left() in results && s.Right() in results
    ensures d == RootOf(h, leaves, s)
  {
    if s.end - s.start == 1 {
      RootOfSplits(h, leaves, s);
      d := leaves[s.start];
    } else {
      SolvedSpan(h, leaves, order, results, i, s);
      hide Solved, RootOf, SplitPoint;
      var k := FindSplit(s.end - s.start);
      d := h(Node(results[Span(s.start, s.start + k)], results[Span(s.start + k, s.end)]));
    }
  }

  /** The tree over three entries, written out: two on the left, one on the right. */
  lemma ThreeEntries(h: Hash, a: Bytes, b: Bytes, c: Bytes)
    ensures TreeHash(h, []) == h([]) && TreeHash(h, [a]) == h([0] + a)
    ensures TreeHash(h, [a, b]) == h([1] + h([0] + a) + h([0] + b))
    ensures TreeHash(h, [a, b, c]) == h([1] + h([1] + h([0] + a) + h([0] + b)) + h([0] + c))
  {
    assert SplitPoint(2) == 1 && SplitPoint(3) == 2;
    assert [a, b][..1] == [a] && [a, b][1..] == [b];
    assert [a, b, c][..2] == [a, b] && [a, b, c][2..] == [c];
  }
}
