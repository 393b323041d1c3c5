/** Stable sorting under an order given as a predicate, and sorted order on byte strings. */
module Sorting {
  import opened Words

  /** x goes after everything it is not less than. */
  function Insert<T>(less: (T, T) -> bool, s: seq<T>, x: T): (r: seq<T>)
    ensures |r| == |s| + 1
    ensures multiset(r) == multiset(s) + multiset{x}
  {
    if s == [] then [x]
    else
      var last := |s| - 1;
      assert s == s[..last] + [s[last]];
      if !less(x, s[last]) then s + [x] else Insert(less, s[..last], x) + [s[last]]
  }

  function Sorted<T>(less: (T, T) -> bool, s: seq<T>): (r: seq<T>)
    ensures |r| == |s|
    ensures multiset(r) == multiset(s)
  {
    if s == [] then []
    else
      var last := |s| - 1;
      assert s == s[..last] + [s[last]];
      Insert(less, Sorted(less, s[..last]), s[last])
  }

  /** Sorting keeps the members. */
  lemma SameMembers<T>(less: (T, T) -> bool, s: seq<T>, x: T)
    ensures x in Sorted(less, s) <==> x in s
  {
    assert x in Sorted(less, s) <==> x in multiset(Sorted(less, s));
  }

  ghost predicate StrictOrder<T(!new)>(less: (T, T) -> bool) {
    && (forall x :: !less(x, x))
    && (forall x, y, z :: less(x, y) && less(y, z) ==> less(x, z))
  }

  predicate Ascending<T>(less: (T, T) -> bool, s: seq<T>) {
    forall i, j :: 0 <= i < j < |s| ==> less(s[i], s[j])
  }

  /** The order decides between any two places. */
  predicate Apart<T>(less: (T, T) -> bool, s: seq<T>) {
    forall i, j :: 0 <= i < j < |s| ==> less(s[i], s[j]) || less(s[j], s[i])
  }

  lemma InsertMembers<T(!new)>(less: (T, T) -> bool, s: seq<T>, x: T, y: T)
    requires y in Insert(less, s, x)
    ensures y == x || y in s
  {
    assert y in multiset(s) + multiset{x};
  }

  lemma AscendsSnoc<T(!new)>(less: (T, T) -> bool, s: seq<T>, x: T)
    requires Ascending(less, s) && forall y :: y in s ==> less(y, x)
    ensures Ascending(less, s + [x])
  {
  }

  lemma {:induction false} InsertAscends<T(!new)>(less: (T, T) -> bool, s: seq<T>, x: T)
    requires StrictOrder(less) && Ascending(less, s) && forall y :: y in s ==> less(x, y) || less(y, x)
    ensures Ascending(less, Insert(less, s, x))
  {
    if s == [] {
    } else {
      var last := |s| - 1;
      if less(x, s[last]) {
        InsertAscends(less, s[..last], x);
        forall y | y in Insert(less, s[..last], x)
          ensures less(y, s[last])
        {
          InsertMembers(less, s[..last], x, y);
        }
        AscendsSnoc(less, Insert(less, s[..last], x), s[last]);
      } else {
        assert less(s[last], x);
        AscendsSnoc(less, s, x);
      }
    }
  }

  /** Sorting values the order decides between puts them in strictly ascending order. */
  lemma {:induction false} SortedAscends<T(!new)>(less: (T, T) -> bool, s: seq<T>)
    requires StrictOrder(less) && Apart(less, s)
    ensures Ascending(less, Sorted(less, s))
  {
    if s != [] {
      var last := |s| - 1;
      SortedAscends(less, s[..last]);
      var r := Sorted(less, s[..last]);
      forall y | y in r
        ensures less(s[last], y) || less(y, s[last])
      {
        assert y in multiset(r);
        assert y in s[..last];
      }
      InsertAscends(less, r, s[last]);
    }
  }

  lemma TwoPlaces<T>(s: seq<T>, i: nat, j: nat)
    requires i < j < |s|
    ensures s[i] == s[j] ==> multiset(s)[s[i]] >= 2
  {
    assert s == s[..i] + [s[i]] + s[i + 1..j] + [s[j]] + s[j + 1..];
  }

  lemma OnlyOnce<T(!new)>(less: (T, T) -> bool, s: seq<T>, i: nat)
    requires StrictOrder(less) && Ascending(less, s) && i < |s|
    ensures multiset(s)[s[i]] == 1
  {
    assert s == s[..i] + [s[i]] + s[i + 1..];
    assert s[i] !in s[..i] && s[i] !in s[i + 1..];
  }

  /** What can be lined up strictly ascending is apart, however it is arranged. */
  lemma AscendingIsApart<T(!new)>(less: (T, T) -> bool, line: seq<T>, all: seq<T>)
    requires StrictOrder(less) && Ascending(less, line) && multiset(line) == multiset(all)
    ensures Apart(less, all)
  {
    forall i, j | 0 <= i < j < |all|
      ensures less(all[i], all[j]) || less(all[j], all[i])
    {
      TwoPlaces(all, i, j);
      assert all[i] in multiset(line) && all[j] in multiset(line);
      var a :| 0 <= a < |line| && line[a] == all[i];
      var b :| 0 <= b < |line| && line[b] == all[j];
      OnlyOnce(less, line, a);
    }
  }

  /** Such a line is what sorting gives. */
  lemma LineIsSorted<T(!new)>(less: (T, T) -> bool, line: seq<T>, all: seq<T>)
    requires StrictOrder(less) && Ascending(less, line) && multiset(line) == multiset(all)
    ensures line == Sorted(less, all)
  {
    AscendingIsApart(less, line, all);
    SortedAscends(less, all);
    OneArrangement(less, line, Sorted(less, all));
  }

  lemma LastIsGreatest<T(!new)>(less: (T, T) -> bool, a: seq<T>, y: T)
    requires Ascending(less, a) && y in a
    ensures y == a[|a| - 1] || less(y, a[|a| - 1])
  {
  }

  lemma NotBothWays<T(!new)>(less: (T, T) -> bool, x: T, y: T)
    requires StrictOrder(less)
    ensures !(less(x, y) && less(y, x))
  {
  }

  lemma SameLast<T(!new)>(less: (T, T) -> bool, a: seq<T>, b: seq<T>)
    requires StrictOrder(less) && Ascending(less, a) && Ascending(less, b)
    requires multiset(a) == multiset(b) && a != [] && b != []
    ensures a[|a| - 1] == b[|b| - 1]
  {
    hide StrictOrder;
    var x, y := a[|a| - 1], b[|b| - 1];
    assert x in multiset(b) && y in multiset(a);
    LastIsGreatest(less, a, y);
    LastIsGreatest(less, b, x);
    NotBothWays(less, x, y);
  }

  lemma DropLast<T>(a: seq<T>)
    requires a != []
    ensures a == a[..|a| - 1] + [a[|a| - 1]]
    ensures multiset(a[..|a| - 1]) == multiset(a) - multiset{a[|a| - 1]}
  {
    assert a == a[..|a| - 1] + [a[|a| - 1]];
  }

  /** There is only one strictly ascending arrangement of the same values. */
  lemma {:induction false} OneArrangement<T(!new)>(less: (T, T) -> bool, a: seq<T>, b: seq<T>)
    requires StrictOrder(less) && Ascending(less, a) && Ascending(less, b)
    requires multiset(a) == multiset(b)
    ensures a == b
  {
    assert |multiset(a)| == |a| && |multiset(b)| == |b|;
    if a != [] {
      SameLast(less, a, b);
      DropLast(a);
      DropLast(b);
      hide StrictOrder;
      OneArrangement(less, a[..|a| - 1], b[..|b| - 1]);
    }
  }

  lemma FirstIsIn<T>(a: seq<T>)
    ensures a != [] ==> a[0] in a
  {
  }

  /** Two strictly ascending sequences with the same members are one. */
  lemma {:induction false} SameMembersSameSequence<T(!new)>(less: (T, T) -> bool, a: seq<T>, b: seq<T>)
    requires StrictOrder(less) && Ascending(less, a) && Ascending(less, b)
    requires forall x :: x in a <==> x in b
    ensures a == b
  {
    FirstIsIn(a);
    FirstIsIn(b);
    if a != [] && b != [] {
      var m, n := |a| - 1, |b| - 1;
      LastIsGreatest(less, a, b[n]);
      LastIsGreatest(less, b, a[m]);
      NotBothWays(less, a[m], b[n]);
      assert a[m] == b[n];
      WithoutLast(less, a);
      WithoutLast(less, b);
      forall x
        ensures x in a[..m] <==> x in b[..n]
      {
        WithoutLastMember(less, a, x);
        WithoutLastMember(less, b, x);
      }
      SameMembersSameSequence(less, a[..m], b[..n]);
      assert a == a[..m] + [a[m]] && b == b[..n] + [b[n]];
    }
  }

  lemma WithoutLast<T(!new)>(less: (T, T) -> bool, a: seq<T>)
    requires Ascending(less, a) && a != []
    ensures Ascending(less, a[..|a| - 1])
  {
  }

  lemma WithoutLastMember<T(!new)>(less: (T, T) -> bool, a: seq<T>, x: T)
    requires StrictOrder(less) && Ascending(less, a) && a != []
    ensures x in a[..|a| - 1] <==> x in a && x != a[|a| - 1]
  {
    var last := |a| - 1;
    assert a == a[..last] + [a[last]];
    if x in a[..last] {
      var i :| 0 <= i < last && a[..last][i] == x;
      assert less(a[i], a[last]);
    }
  }

  // Sorting with repeats

  /** Any two different values are ordered. */
  ghost predicate Total<T(!new)>(less: (T, T) -> bool) {
    StrictOrder(less) && forall x, y :: less(x, y) || less(y, x) || x == y
  }

  /** Nothing comes before anything it does not come before through a third; values may tie. */
  ghost predicate WeakOrder<T(!new)>(less: (T, T) -> bool) {
    && (forall x, y :: less(x, y) ==> !less(y, x))
    && (forall x, y, z :: !less(x, y) && !less(y, z) ==> !less(x, z))
  }

  lemma TotalIsWeak<T(!new)>(less: (T, T) -> bool)
    requires Total(less)
    ensures WeakOrder(less)
  {
    forall x, y, z | !less(x, y) && !less(y, z)
      ensures !less(x, z)
    {
      assert x == y || less(y, x);
      assert y == z || less(z, y);
    }
  }

  predicate WeaklyAscending<T>(less: (T, T) -> bool, s: seq<T>) {
    forall i, j :: 0 <= i < j < |s| ==> !less(s[j], s[i])
  }

  lemma WeakSnoc<T(!new)>(less: (T, T) -> bool, s: seq<T>, x: T)
    requires WeaklyAscending(less, s) && forall y :: y in s ==> !less(x, y)
    ensures WeaklyAscending(less, s + [x])
  {
  }

  lemma NotLessThanLast<T(!new)>(less: (T, T) -> bool, s: seq<T>, x: T, y: T)
    requires WeakOrder(less) && WeaklyAscending(less, s) && s != [] && y in s && !less(x, s[|s| - 1])
    ensures !less(x, y)
  {
    var last := s[|s| - 1];
    assert y == last || !less(last, y);
  }

  lemma {:induction false} InsertWeak<T(!new)>(less: (T, T) -> bool, s: seq<T>, x: T)
    requires WeakOrder(less) && WeaklyAscending(less, s)
    ensures WeaklyAscending(less, Insert(less, s, x))
  {
    if s == [] {
    } else {
      var last := |s| - 1;
      if less(x, s[last]) {
        InsertWeak(less, s[..last], x);
        forall y | y in Insert(less, s[..last], x)
          ensures !less(s[last], y)
        {
          InsertMembers(less, s[..last], x, y);
        }
        WeakSnoc(less, Insert(less, s[..last], x), s[last]);
      } else {
        forall y | y in s
          ensures !less(x, y)
        {
          NotLessThanLast(less, s, x, y);
        }
        WeakSnoc(less, s, x);
      }
    }
  }

  /** Values that tie are sorted too: none stands before a lesser one. */
  lemma {:induction false} SortedWeak<T(!new)>(less: (T, T) -> bool, s: seq<T>)
    requires WeakOrder(less)
    ensures WeaklyAscending(less, Sorted(less, s))
  {
    if s != [] {
      SortedWeak(less, s[..|s| - 1]);
      InsertWeak(less, Sorted(less, s[..|s| - 1]), s[|s| - 1]);
    }
  }

  lemma {:induction false} OneWeakArrangement<T(!new)>(less: (T, T) -> bool, a: seq<T>, b: seq<T>)
    requires Total(less) && WeaklyAscending(less, a) && WeaklyAscending(less, b)
    requires multiset(a) == multiset(b)
    ensures a == b
  {
    assert |multiset(a)| == |a| && |multiset(b)| == |b|;
    if a != [] {
      var x, y := a[|a| - 1], b[|b| - 1];
      assert x in multiset(b) && y in multiset(a);
      assert x in b && y in a;
      assert x == y || (!less(x, y) && !less(y, x));
      DropLast(a);
      DropLast(b);
      hide StrictOrder;
      OneWeakArrangement(less, a[..|a| - 1], b[..|b| - 1]);
    }
  }

  /** Sorting forgets the order it was given. */
  lemma SortedPermute<T(!new)>(less: (T, T) -> bool, a: seq<T>, b: seq<T>)
    requires Total(less) && multiset(a) == multiset(b)
    ensures Sorted(less, a) == Sorted(less, b)
  {
    TotalIsWeak(less);
    SortedWeak(less, a);
    SortedWeak(less, b);
    OneWeakArrangement(less, Sorted(less, a), Sorted(less, b));
  }

  /** The members of a class, in their order. */
  function Picked<T>(pick: T -> bool, s: seq<T>): seq<T> {
    if s == [] then []
    else
      var last := s[|s| - 1];
      Picked(pick, s[..|s| - 1]) + if pick(last) then [last] else []
  }

  lemma PickedSnoc<T>(pick: T -> bool, s: seq<T>, x: T)
    ensures Picked(pick, s + [x]) == Picked(pick, s) + if pick(x) then [x] else []
  {
    assert (s + [x])[..|s|] == s;
  }

  lemma Exchange<T>(a: seq<T>, b: seq<T>, c: seq<T>)
    requires b == [] || c == []
    ensures a + b + c == a + c + b
  {
    assert b == [] ==> a + b == a && a + c + b == a + c;
    assert c == [] ==> a + c == a && a + b + c == a + b;
  }

  lemma {:induction false} InsertPicked<T(!new)>(less: (T, T) -> bool, s: seq<T>, x: T, pick: T -> bool)
    requires forall y, z :: pick(y) && pick(z) ==> !less(y, z)
    ensures Picked(pick, Insert(less, s, x)) == Picked(pick, s + [x])
  {
    if s == [] {
      assert [] + [x] == [x];
    } else if less(x, s[|s| - 1]) {
      var last, front := s[|s| - 1], s[..|s| - 1];
      assert s == front + [last] && Insert(less, s, x) == Insert(less, front, x) + [last];
      assert !(pick(x) && pick(last));
      InsertPicked(less, front, x, pick);
      hide Picked, Insert;
      PickedSnoc(pick, Insert(less, front, x), last);
      PickedSnoc(pick, front, x);
      PickedSnoc(pick, front, last);
      PickedSnoc(pick, s, x);
      Exchange(Picked(pick, front), if pick(x) then [x] else [], if pick(last) then [last] else []);
    }
  }

  /** Sorting is stable: values of which none comes before another keep the order they came in. */
  lemma {:induction false} SortedIsStable<T(!new)>(less: (T, T) -> bool, s: seq<T>, pick: T -> bool)
    requires forall y, z :: pick(y) && pick(z) ==> !less(y, z)
    ensures Picked(pick, Sorted(less, s)) == Picked(pick, s)
  {
    if s != [] {
      var last := |s| - 1;
      SortedIsStable(less, s[..last], pick);
      InsertPicked(less, Sorted(less, s[..last]), s[last], pick);
      PickedSnoc(pick, Sorted(less, s[..last]), s[last]);
      PickedSnoc(pick, s[..last], s[last]);
      assert s == s[..last] + [s[last]];
    }
  }

  function Mapped<A, B>(f: A -> B, s: seq<A>): (r: seq<B>)
    ensures |r| == |s|
    ensures forall i :: 0 <= i < |r| ==> r[i] == f(s[i])
  {
    seq(|s|, i requires 0 <= i < |s| => f(s[i]))
  }

  lemma {:induction false} InsertMapped<A(!new), B>(la: (A, A) -> bool, lb: (B, B) -> bool, f: A -> B, s: seq<A>, x: A)
    requires forall p, q :: la(p, q) == lb(f(p), f(q))
    ensures Insert(lb, Mapped(f, s), f(x)) == Mapped(f, Insert(la, s, x))
  {
    if s != [] {
      var last := |s| - 1;
      assert Mapped(f, s)[..last] == Mapped(f, s[..last]);
      if la(x, s[last]) {
        InsertMapped(la, lb, f, s[..last], x);
        assert Mapped(f, Insert(la, s[..last], x) + [s[last]]) == Mapped(f, Insert(la, s[..last], x)) + [f(s[last])];
      } else {
        assert Mapped(f, s + [x]) == Mapped(f, s) + [f(x)];
      }
    }
  }

  /** Sorting does not care what else is done to the values, as long as the order sees the same. */
  lemma {:induction false} SortedMapped<A(!new), B>(la: (A, A) -> bool, lb: (B, B) -> bool, f: A -> B, s: seq<A>)
    requires forall p, q :: la(p, q) == lb(f(p), f(q))
    ensures Sorted(lb, Mapped(f, s)) == Mapped(f, Sorted(la, s))
  {
    if s != [] {
      var last := |s| - 1;
      assert Mapped(f, s)[..last] == Mapped(f, s[..last]);
      SortedMapped(la, lb, f, s[..last]);
      InsertMapped(la, lb, f, Sorted(la, s[..last]), s[last]);
    }
  }

  // ---------------------------------------------------------------------------
  // Byte strings
  // ---------------------------------------------------------------------------

  /** Byte by byte, and a proper prefix first. */
  predicate Precedes(a: Bytes, b: Bytes) {
    if b == [] then false
    else if a == [] then true
    else a[0] < b[0] || (a[0] == b[0] && Precedes(a[1..], b[1..]))
  }

  lemma {:induction false} PrecedesIrreflexive(a: Bytes)
    ensures !Precedes(a, a)
  {
    if a != [] {
      PrecedesIrreflexive(a[1..]);
    }
  }

  lemma {:induction false} PrecedesTotal(a: Bytes, b: Bytes)
    ensures Precedes(a, b) || Precedes(b, a) || a == b
  {
    if a != [] && b != [] {
      PrecedesTotal(a[1..], b[1..]);
      assert a == [a[0]] + a[1..] && b == [b[0]] + b[1..];
    }
  }

  lemma {:induction false} PrecedesTransitive(a: Bytes, b: Bytes, c: Bytes)
    requires Precedes(a, b) && Precedes(b, c)
    ensures Precedes(a, c)
  {
    if a != [] && a[0] == b[0] && b[0] == c[0] {
      PrecedesTransitive(a[1..], b[1..], c[1..]);
    }
  }

  lemma OneByte(x: u8)
    ensures BigEndian([x]) == x
  {
    assert [x][..0] == [];
    assert BigEndian([]) == 0;
  }

  lemma BigEndianFirst(a: Bytes)
    requires a != []
    ensures BigEndian(a) == a[0] * BytePow(|a| - 1) + BigEndian(a[1..])
    ensures BigEndian(a[1..]) < BytePow(|a| - 1)
  {
    OneByte(a[0]);
    assert a == [a[0]] + a[1..];
    hide BigEndian, BytePow;
    BigEndianAppend([a[0]], a[1..]);
    BigEndianBound(a[1..]);
  }

  lemma ScaledApart(x: int, y: int, p: int, r: int, t: int)
    requires x < y && 0 <= r < p && 0 <= t
    ensures x * p + r < y * p + t
  {
    assert (y - x) * p >= p by {
      MulMono(1, y - x, p);
    }
    assert y * p == x * p + (y - x) * p;
  }

  /** Among byte strings of one length this is the order of the numbers they write: a range of numbers is a range
      of keys. */
  lemma {:induction false} PrecedesIsNumeric(a: Bytes, b: Bytes)
    requires |a| == |b|
    ensures Precedes(a, b) <==> BigEndian(a) < BigEndian(b)
  {
    if a != [] {
      PrecedesIsNumeric(a[1..], b[1..]);
      BigEndianFirst(a);
      BigEndianFirst(b);
      var p := BytePow(|a| - 1);
      hide BigEndian, BytePow;
      if a[0] < b[0] {
        ScaledApart(a[0], b[0], p, BigEndian(a[1..]), BigEndian(b[1..]));
      } else if b[0] < a[0] {
        ScaledApart(b[0], a[0], p, BigEndian(b[1..]), BigEndian(a[1..]));
      }
    }
  }

  lemma PrecedesIsTotal()
    ensures Total(Precedes)
  {
    forall a: Bytes
      ensures !Precedes(a, a)
    {
      PrecedesIrreflexive(a);
    }
    forall a: Bytes, b: Bytes, c: Bytes | Precedes(a, b) && Precedes(b, c)
      ensures Precedes(a, c)
    {
      PrecedesTransitive(a, b, c);
    }
    forall a: Bytes, b: Bytes
      ensures Precedes(a, b) || Precedes(b, a) || a == b
    {
      PrecedesTotal(a, b);
    }
  }
}
