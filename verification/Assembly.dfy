/** Assembling records: identities that only go up, a bounded window of source names, and causal edges that do not
    depend on the order of a batch. */
module Assembly {
  import opened Words
  import opened Disk
  import opened Sorting

  // ---------------------------------------------------------------------------
  // Identities
  // ---------------------------------------------------------------------------

  const RANDOM_SPAN: int := 0x1_0000_0000_0000_0000_0000
  const MAX_MS: int := 0xFFFF_FFFF_FFFF
  const U128_MAX: int := 0xFFFF_FFFF_FFFF_FFFF_FFFF_FFFF_FFFF_FFFF
  /** Past the last identity a time of 64 bits of nanoseconds can ask for. */
  const TIME_LIMIT: int := 0x10C6_F7A0_B5EE * 0x1_0000_0000_0000_0000_0000

  class Ids {
    const rng: SimRng
    var last: u128
    /** How many were minted. */
    ghost var minted: nat

    ghost predicate Valid()
      reads this
    {
      last < TIME_LIMIT + minted
    }

    constructor (rng: SimRng)
      ensures Valid() && last == 0 && minted == 0 && this.rng == rng
    {
      this.rng := rng;
      last := 0;
      minted := 0;
    }

    /** Eighty bits, from two draws. */
    method Random() returns (r: nat)
      modifies rng
      ensures r < RANDOM_SPAN && rng.at == old(rng.at) + 2
      ensures r == rng.draw(old(rng.at)) * 0x1_0000 + rng.draw(old(rng.at) + 1) % 0x1_0000
    {
      var high: nat := rng.NextU64();
      var low: nat := rng.NextU64();
      r := high * 0x1_0000 + low % 0x1_0000;
    }

    /** The millisecond an id carries. */
    static function Millisecond(id: u128): nat {
      id / RANDOM_SPAN
    }

    /** `mint`: strictly above everything before it, whatever the clock does, and never before its own millisecond.
        It is in its own millisecond, with the eighty bits drawn, whenever that is past the last id's; and in the next
        place after the last id when it cannot be above it otherwise. The saturating addition saturates only after more
        identities than there is time to mint. */
    method Mint(recordedAt: u64) returns (id: u128)
      requires Valid()
      modifies this, rng
      ensures Valid() && id == last && minted == old(minted) + 1
      ensures old(last) < U128_MAX ==> id > old(last)
      ensures old(minted) < 0x1000_0000_0000_0000_0000_0000_0000_0000 ==> id > old(last)
      ensures Millisecond(id) >= recordedAt / 1_000_000 && rng.at == old(rng.at) + 2
      ensures recordedAt / 1_000_000 > Millisecond(old(last)) ==>
        && Millisecond(id) == recordedAt / 1_000_000
        && id % RANDOM_SPAN == rng.draw(old(rng.at)) * 0x1_0000 + rng.draw(old(rng.at) + 1) % 0x1_0000
      ensures recordedAt / 1_000_000 < Millisecond(old(last)) < MAX_MS ==> id == old(last) + 1
    {
      var ms := recordedAt / 1_000_000;
      if ms > MAX_MS {
        ms := MAX_MS;
      }
      var random := Random();
      var candidate: nat := ms * RANDOM_SPAN + random;
      assert candidate / RANDOM_SPAN == ms;
      if candidate <= last {
        candidate := if last == U128_MAX then U128_MAX else last + 1;
      }
      last := candidate;
      minted := minted + 1;
      return candidate;
    }
  }

  // ---------------------------------------------------------------------------
  // The window
  // ---------------------------------------------------------------------------

  type Key = Bytes

  datatype Window = Window(seen: map<Key, u128>, order: seq<Key>)

  predicate Distinct(s: seq<Key>) {
    forall i, j :: 0 <= i < j < |s| ==> s[i] != s[j]
  }

  /** Map and queue hold the same names, each once, and no more than fit. */
  ghost predicate Sound(w: Window, capacity: nat) {
    && (forall k :: k in w.seen <==> k in w.order)
    && Distinct(w.order) && |w.order| <= capacity
  }

  /** `remember`: the first to claim a name keeps it, and a full window lets its oldest name go. */
  function Remembered(w: Window, capacity: nat, key: Key, id: u128): Window {
    if key in w.seen then w
    else
      var order := w.order + [key];
      var seen := w.seen[key := id];
      if |order| > capacity then Window(seen - {order[0]}, order[1..]) else Window(seen, order)
  }

  lemma RememberSound(w: Window, capacity: nat, key: Key, id: u128)
    requires Sound(w, capacity) && capacity >= 1
    ensures Sound(Remembered(w, capacity, key, id), capacity)
    ensures Remembered(w, capacity, key, id).seen.Keys <= w.seen.Keys + {key}
    ensures forall k :: k in Remembered(w, capacity, key, id).seen ==>
      Remembered(w, capacity, key, id).seen[k] == if k in w.seen then w.seen[k] else id
  {
    if key !in w.seen {
      var order := w.order + [key];
      assert Distinct(order);
      if |order| > capacity {
        assert forall k :: k in order[1..] <==> k in order && k != order[0];
      }
    }
  }

  class Correlation {
    var seen: map<Key, u128>
    var order: seq<Key>
    const capacity: nat

    ghost function State(): Window
      reads this
    {
      Window(seen, order)
    }

    ghost predicate Valid()
      reads this
    {
      capacity >= 1 && Sound(State(), capacity)
    }

    constructor (capacity: nat)
      ensures Valid() && State() == Window(map[], [])
      ensures this.capacity == if capacity == 0 then 1 else capacity
    {
      seen, order := map[], [];
      this.capacity := if capacity == 0 then 1 else capacity;
    }

    method Resolve(key: Key) returns (id: Option<u128>)
      ensures id == if key in seen then Some(seen[key]) else None
    {
      id := if key in seen then Some(seen[key]) else None;
    }

    method Remember(key: Key, id: u128)
      requires Valid()
      modifies this`seen, this`order
      ensures Valid() && State() == Remembered(old(State()), capacity, key, id)
    {
      RememberSound(State(), capacity, key, id);
      if key in seen {
        return;
      }
      seen := seen[key := id];
      order := order + [key];
      if |order| > capacity {
        var oldest := order[0];
        order := order[1..];
        seen := seen - {oldest};
      }
    }
  }

  // ---------------------------------------------------------------------------
  // A batch
  // ---------------------------------------------------------------------------

  /** What assembling needs of an event: its own name, its parent's, and its run. */
  datatype Unit = Unit(name: Option<Key>, parent: Option<Key>, run: Bytes)

  datatype Assembled = Assembled(id: u128, causedBy: seq<u128>)

  /** The names of a batch, in order. */
  function Names(batch: seq<Unit>): seq<Key> {
    if batch == [] then []
    else
      var last := batch[|batch| - 1];
      Names(batch[..|batch| - 1]) + if last.name.Some? then [last.name.value] else []
  }

  /** The window after a batch was named. */
  function RememberAll(w: Window, capacity: nat, batch: seq<Unit>, ids: seq<u128>): Window
    requires |batch| == |ids|
  {
    if batch == [] then w
    else
      var last := |batch| - 1;
      var before := RememberAll(w, capacity, batch[..last], ids[..last]);
      if batch[last].name.None? then before else Remembered(before, capacity, batch[last].name.value, ids[last])
  }

  /** What `finish` makes of a unit once every unit is named. */
  function EdgeOf(w: Window, u: Unit, id: u128): Option<u128> {
    if u.parent.None? || u.parent.value !in w.seen || w.seen[u.parent.value] == id then None
    else Some(w.seen[u.parent.value])
  }

  /** Did the unit name a parent and get no edge? */
  predicate LosesEdge(w: Window, u: Unit, id: u128) {
    u.parent.Some? && EdgeOf(w, u, id).None?
  }

  /** How many of the first n units lose their edge. */
  function LostCount(w: Window, batch: seq<Unit>, ids: seq<u128>, n: nat): nat
    requires n <= |batch| == |ids|
  {
    if n == 0 then 0
    else LostCount(w, batch, ids, n - 1) + if LosesEdge(w, batch[n - 1], ids[n - 1]) then 1 else 0
  }

  function EdgeCount(out: seq<Assembled>): nat {
    if out == [] then 0 else EdgeCount(out[..|out| - 1]) + |out[|out| - 1].causedBy|
  }

  function ParentCount(batch: seq<Unit>): nat {
    if batch == [] then 0
    else ParentCount(batch[..|batch| - 1]) + if batch[|batch| - 1].parent.Some? then 1 else 0
  }

  /** What the records of a batch are. */
  ghost predicate Finished(w: Window, batch: seq<Unit>, ids: seq<u128>, out: seq<Assembled>) {
    |batch| == |ids| == |out| &&
    forall i :: 0 <= i < |out| ==>
      out[i] == Assembled(ids[i], if EdgeOf(w, batch[i], ids[i]).Some? then [EdgeOf(w, batch[i], ids[i]).value] else [])
  }

  /** Nothing is lost in silence: every unit that names a parent gets an edge or is counted. And no record causes
      itself. */
  lemma {:induction false} EdgesAndLosses(w: Window, batch: seq<Unit>, ids: seq<u128>, out: seq<Assembled>)
    requires Finished(w, batch, ids, out)
    ensures EdgeCount(out) + LostCount(w, batch, ids, |batch|) == ParentCount(batch)
    ensures forall i :: 0 <= i < |out| ==> out[i].id !in out[i].causedBy
  {
    if batch != [] {
      var last := |batch| - 1;
      EdgesAndLosses(w, batch[..last], ids[..last], out[..last]);
      LostPrefix(w, batch, ids, last, last);
    }
  }

  lemma {:induction false} LostPrefix(w: Window, batch: seq<Unit>, ids: seq<u128>, m: nat, n: nat)
    requires n <= m <= |batch| == |ids|
    ensures LostCount(w, batch[..m], ids[..m], n) == LostCount(w, batch, ids, n)
  {
    if n > 0 {
      LostPrefix(w, batch, ids, m, n - 1);
    }
  }

  // ---------------------------------------------------------------------------
  // The order of a batch does not matter
  // ---------------------------------------------------------------------------

  /** The batch names each name once, none that the window holds, and no more than the window holds. */
  ghost predicate FreshBatch(w: Window, capacity: nat, batch: seq<Unit>) {
    && Distinct(Names(batch)) && |Names(batch)| <= capacity
    && forall k :: k in Names(batch) ==> k !in w.seen
  }

  /** How many of the oldest names a batch pushes out. */
  function Pushed(w: Window, capacity: nat, count: nat): nat
    requires |w.order| <= capacity
  {
    if |w.order| + count > capacity then |w.order| + count - capacity else 0
  }

  /** Dropping from the front and adding at the back. */
  lemma DropSnoc(s: seq<Key>, n: nat, k: Key)
    requires n <= |s|
    ensures s[n..] + [k] == (s + [k])[n..]
    ensures ((s + [k])[n..])[1..] == (s + [k])[n + 1..]
  {
  }

  lemma OneMoreName(batch: seq<Unit>)
    requires batch != []
    ensures var last := |batch| - 1;
      Names(batch) == Names(batch[..last]) + if batch[last].name.Some? then [batch[last].name.value] else []
  {
  }

  lemma FewerDistinct(s: seq<Key>, k: Key)
    requires Distinct(s + [k])
    ensures Distinct(s) && k !in s
  {
    assert (s + [k])[|s|] == k;
    assert forall i :: 0 <= i < |s| ==> (s + [k])[i] == s[i];
  }

  lemma FewerFresh(w: Window, capacity: nat, batch: seq<Unit>)
    requires FreshBatch(w, capacity, batch) && batch != []
    ensures FreshBatch(w, capacity, batch[..|batch| - 1])
    ensures batch[|batch| - 1].name.Some? ==>
      batch[|batch| - 1].name.value !in Names(batch[..|batch| - 1]) && batch[|batch| - 1].name.value !in w.seen
  {
    OneMoreName(batch);
    var names := Names(batch[..|batch| - 1]);
    hide Names;
    if batch[|batch| - 1].name.Some? {
      var key := batch[|batch| - 1].name.value;
      FewerDistinct(names, key);
      assert (names + [key])[|names|] == key;
    } else {
      assert names + [] == names;
    }
    assert forall k :: k in names ==> k in Names(batch);
  }

  lemma {:induction false} NameIsListed(batch: seq<Unit>, i: nat)
    requires i < |batch| && batch[i].name.Some?
    ensures batch[i].name.value in Names(batch)
  {
    if i < |batch| - 1 {
      NameIsListed(batch[..|batch| - 1], i);
    }
  }

  /** What is remembered of a batch. */
  ghost predicate Holding(w: Window, capacity: nat, batch: seq<Unit>, ids: seq<u128>, after: Window)
    requires |batch| == |ids| && |w.order| <= capacity
  {
    && Sound(after, capacity)
    && Pushed(w, capacity, |Names(batch)|) <= |w.order|
    && after.order == (w.order + Names(batch))[Pushed(w, capacity, |Names(batch)|)..]
    && (forall k :: k in after.seen && k in w.seen ==> after.seen[k] == w.seen[k])
    && (forall i :: 0 <= i < |batch| && batch[i].name.Some? && batch[i].name.value in after.seen ==>
          after.seen[batch[i].name.value] == ids[i])
  }

  /** After a fresh batch the window holds its names and the youngest of the old ones. */
  lemma {:induction false} FreshBatchWindow(w: Window, capacity: nat, batch: seq<Unit>, ids: seq<u128>)
    requires Sound(w, capacity) && capacity >= 1 && |batch| == |ids| && FreshBatch(w, capacity, batch)
    ensures Holding(w, capacity, batch, ids, RememberAll(w, capacity, batch, ids))
  {
    if batch == [] {
      assert w.order + [] == w.order && w.order[0..] == w.order;
    } else {
      var last := |batch| - 1;
      FewerFresh(w, capacity, batch);
      FreshBatchWindow(w, capacity, batch[..last], ids[..last]);
      var before := RememberAll(w, capacity, batch[..last], ids[..last]);
      OneMoreName(batch);
      if batch[last].name.None? {
        assert Names(batch) == Names(batch[..last]);
        assert forall i :: 0 <= i < last ==> batch[..last][i] == batch[i] && ids[..last][i] == ids[i];
      } else {
        HoldingOneMore(w, capacity, batch, ids, before);
      }
    }
  }

  lemma OrderOneMore(w: Window, names: seq<Key>, key: Key, capacity: nat, before: Window, id: u128)
    requires |w.order| <= capacity && |names| + 1 <= capacity && key !in before.seen
    requires Pushed(w, capacity, |names|) <= |w.order|
    requires before.order == (w.order + names)[Pushed(w, capacity, |names|)..]
    ensures Pushed(w, capacity, |names + [key]|) <= |w.order|
    ensures Remembered(before, capacity, key, id).order
         == (w.order + (names + [key]))[Pushed(w, capacity, |names + [key]|)..]
  {
    assert w.order + (names + [key]) == w.order + names + [key];
    DropSnoc(w.order + names, Pushed(w, capacity, |names|), key);
  }

  lemma HoldingOneMore(w: Window, capacity: nat, batch: seq<Unit>, ids: seq<u128>, before: Window)
    requires Sound(w, capacity) && capacity >= 1 && |batch| == |ids| && batch != []
    requires FreshBatch(w, capacity, batch) && batch[|batch| - 1].name.Some?
    requires Holding(w, capacity, batch[..|batch| - 1], ids[..|batch| - 1], before)
    ensures Holding(w, capacity, batch, ids,
                    Remembered(before, capacity, batch[|batch| - 1].name.value, ids[|batch| - 1]))
  {
    var last := |batch| - 1;
    var key, id := batch[last].name.value, ids[last];
    var names := Names(batch[..last]);
    FewerFresh(w, capacity, batch);
    OneMoreName(batch);
    assert key !in before.order by {
      assert forall k :: k in before.order ==> k in w.order + names;
    }
    RememberSound(before, capacity, key, id);
    var after := Remembered(before, capacity, key, id);
    OrderOneMore(w, names, key, capacity, before, id);
    assert Names(batch) == names + [key];
    hide Names, Remembered, FreshBatch, Distinct;
    forall i | 0 <= i < |batch| && batch[i].name.Some? && batch[i].name.value in after.seen
      ensures after.seen[batch[i].name.value] == ids[i]
    {
      HeldName(w, capacity, batch, ids, before, after, i);
    }
  }

  lemma HeldName(w: Window, capacity: nat, batch: seq<Unit>, ids: seq<u128>, before: Window, after: Window, i: nat)
    requires |w.order| <= capacity && |batch| == |ids| && i < |batch| && batch[|batch| - 1].name.Some?
    requires Holding(w, capacity, batch[..|batch| - 1], ids[..|batch| - 1], before)
    requires batch[|batch| - 1].name.value !in Names(batch[..|batch| - 1])
    requires batch[|batch| - 1].name.value !in before.seen
    requires forall k :: k in after.seen ==> k in before.seen || k == batch[|batch| - 1].name.value
    requires forall k :: k in after.seen ==>
      after.seen[k] == if k in before.seen then before.seen[k] else ids[|batch| - 1]
    requires batch[i].name.Some? && batch[i].name.value in after.seen
    ensures after.seen[batch[i].name.value] == ids[i]
  {
    hide Sound, Pushed, Names;
    var last := |batch| - 1;
    if i < last {
      NameIsListed(batch[..last], i);
      assert batch[..last][i] == batch[i] && ids[..last][i] == ids[i];
    }
  }

  /** Where a unit's edge goes, in terms that do not mention any order: to the unit of the batch with the parent's
      name, to an older record the window still knows, or nowhere. */
  datatype Target = Nowhere | Within(name: Key) | Earlier(id: u128)

  function TargetOf(w: Window, capacity: nat, batch: seq<Unit>, u: Unit): Target
    requires |w.order| <= capacity && (forall k :: k in w.order ==> k in w.seen)
  {
    if u.parent.None? || u.parent == u.name then Nowhere
    else if u.parent.value in Names(batch) then Within(u.parent.value)
    else
      var pushed := Pushed(w, capacity, |Names(batch)|);
      if pushed <= |w.order| && u.parent.value in w.order[pushed..] then Earlier(w.seen[u.parent.value])
      else Nowhere
  }

  /** Identities of a batch: each above the one before it, and all above those the window holds. */
  ghost predicate Rising(w: Window, ids: seq<u128>) {
    && (forall i, j :: 0 <= i < j < |ids| ==> ids[i] < ids[j])
    && (forall k, i :: k in w.seen && 0 <= i < |ids| ==> w.seen[k] < ids[i])
  }

  /** The edge of a unit is the one its target says, whichever order the batch came in. */
  lemma EdgeIsTarget(w: Window, capacity: nat, batch: seq<Unit>, ids: seq<u128>, after: Window, i: nat)
    requires |batch| == |ids| && Sound(w, capacity) && FreshBatch(w, capacity, batch) && Rising(w, ids)
    requires Holding(w, capacity, batch, ids, after) && i < |batch|
    ensures match TargetOf(w, capacity, batch, batch[i])
      case Nowhere => EdgeOf(after, batch[i], ids[i]) == None
      case Earlier(id) => EdgeOf(after, batch[i], ids[i]) == Some(id)
      case Within(name) =>
        forall j :: 0 <= j < |batch| && batch[j].name == Some(name) ==> EdgeOf(after, batch[i], ids[i]) == Some(ids[j])
  {
    var u := batch[i];
    var pushed := Pushed(w, capacity, |Names(batch)|);
    assert after.order == w.order[pushed..] + Names(batch);
    if u.name.Some? {
      NameIsListed(batch, i);
    }
    match TargetOf(w, capacity, batch, u)
    case Nowhere =>
      if u.parent.Some? && u.parent == u.name {
        assert after.seen[u.name.value] == ids[i];
      }
    case Earlier(id) =>
    case Within(name) =>
      forall j | 0 <= j < |batch| && batch[j].name == Some(name)
        ensures EdgeOf(after, u, ids[i]) == Some(ids[j])
      {
        assert name in after.order;
        assert after.seen[name] == ids[j];
        assert i != j;
      }
  }

  lemma {:induction false} NamesJoin(a: seq<Unit>, b: seq<Unit>)
    ensures Names(a + b) == Names(a) + Names(b)
  {
    if b == [] {
      assert a + b == a && Names(a) + [] == Names(a);
    } else {
      var last := |b| - 1;
      assert (a + b)[..|a + b| - 1] == a + b[..last];
      NamesJoin(a, b[..last]);
    }
  }

  /** Taking one unit out. */
  lemma WithoutOne(b: seq<Unit>, i: nat)
    requires i < |b|
    ensures var rest := b[..i] + b[i + 1..];
      && |rest| == |b| - 1 && multiset(rest) == multiset(b) - multiset{b[i]}
      && multiset(Names(b)) == multiset(Names(rest)) + multiset(Names([b[i]]))
  {
    var x, y, z := b[..i], [b[i]], b[i + 1..];
    assert b == x + (y + z);
    assert multiset(b) == multiset(x) + multiset(y) + multiset(z);
    hide Names;
    NamesJoin(x, z);
    NamesJoin(x, y + z);
    NamesJoin(y, z);
  }

  /** Reordering a batch reorders its names. */
  lemma {:induction false} NamesPermute(b: seq<Unit>, c: seq<Unit>)
    requires multiset(b) == multiset(c)
    ensures multiset(Names(b)) == multiset(Names(c))
    decreases |c|
  {
    assert |multiset(b)| == |b| && |multiset(c)| == |c|;
    if c == [] {
      assert b == [];
    } else {
      var last := |c| - 1;
      assert c[last] in multiset(b);
      var i :| 0 <= i < |b| && b[i] == c[last];
      hide Names;
      WithoutOne(b, i);
      WithoutOne(c, last);
      assert c[..last] + c[last + 1..] == c[..last];
      NamesPermute(b[..i] + b[i + 1..], c[..last]);
    }
  }

  /** Every ordering of a batch gives each unit the same target. */
  lemma TargetsDoNotDependOnOrder(w: Window, capacity: nat, b: seq<Unit>, c: seq<Unit>, u: Unit)
    requires |w.order| <= capacity && (forall k :: k in w.order ==> k in w.seen)
    requires multiset(b) == multiset(c)
    ensures TargetOf(w, capacity, b, u) == TargetOf(w, capacity, c, u)
  {
    NamesPermute(b, c);
    assert |Names(b)| == |multiset(Names(b))| && |Names(c)| == |multiset(Names(c))|;
    if u.parent.Some? {
      assert u.parent.value in Names(b) <==> u.parent.value in multiset(Names(b));
      assert u.parent.value in Names(c) <==> u.parent.value in multiset(Names(c));
    }
  }

  // ---------------------------------------------------------------------------
  // The assembler
  // ---------------------------------------------------------------------------

  /** A 32-bit tally stays at its greatest value. */
  function Saturated(x: nat): u32 {
    if x < 0x1_0000_0000 then x else 0xFFFF_FFFF
  }

  /** Runs are reported in the order of their names. */
  lemma LeastRun(runs: set<Bytes>) returns (least: Bytes)
    requires runs != {}
    ensures least in runs && forall other :: other in runs && other != least ==> Precedes(least, other)
    decreases runs
  {
    var first :| first in runs;
    if runs == {first} {
      least := first;
    } else {
      var rest := LeastRun(runs - {first});
      PrecedesTotal(first, rest);
      least := if Precedes(first, rest) then first else rest;
      forall other | other in runs && other != least
        ensures Precedes(least, other)
      {
        if least == first && other != rest {
          PrecedesTransitive(first, rest, other);
        }
      }
    }
  }

  /** The keys of a map, in order. */
  method InOrder(keys: set<Bytes>) returns (r: seq<Bytes>)
    ensures Ascending(Precedes, r) && |r| == |keys|
    ensures forall key :: key in r <==> key in keys
  {
    r := [];
    var left := keys;
    while left != {}
      invariant left <= keys && |r| + |left| == |keys| && Ascending(Precedes, r)
      invariant forall key :: key in keys <==> key in r || key in left
      invariant forall key, other :: key in r && other in left ==> Precedes(key, other)
      decreases |left|
    {
      ghost var least := LeastRun(left);
      var next :| next in left && forall other :: other in left && other != next ==> Precedes(next, other);
      AscendsSnoc(Precedes, r, next);
      r := r + [next];
      left := left - {next};
    }
  }

  function IdsOf(out: seq<Assembled>): (r: seq<u128>)
    ensures |r| == |out|
    ensures forall i :: 0 <= i < |r| ==> r[i] == out[i].id
  {
    seq(|out|, i requires 0 <= i < |out| => out[i].id)
  }

  class Assembler {
    const ids: Ids
    const correlation: Correlation
    var unresolvedParents: nat
    /** How many edges each run lost since it was last reported. */
    var lostEdges: map<Bytes, u32>

    ghost predicate Valid()
      reads this, ids, correlation
    {
      && ids.Valid() && correlation.Valid() && |lostEdges| <= correlation.capacity
      && forall k :: k in correlation.seen ==> correlation.seen[k] <= ids.last
    }

    constructor (ids: Ids, correlation: Correlation)
      requires ids.Valid() && correlation.Valid() && correlation.seen == map[]
      ensures Valid() && this.ids == ids && this.correlation == correlation
      ensures unresolvedParents == 0 && lostEdges == map[]
    {
      this.ids, this.correlation, unresolvedParents, lostEdges := ids, correlation, 0, map[];
    }

    /** The loss is always counted, and noted against its run while there is room for the run. */
    method NoteLoss(run: Bytes)
      requires |lostEdges| <= correlation.capacity
      modifies this`unresolvedParents, this`lostEdges
      ensures unresolvedParents == old(unresolvedParents) + 1
      ensures |lostEdges| <= correlation.capacity
      ensures var had: nat := if run in old(lostEdges) then old(lostEdges)[run] else 0;
        lostEdges == if run in old(lostEdges) || |old(lostEdges)| < correlation.capacity
                     then old(lostEdges)[run := Saturated(had + 1)] else old(lostEdges)
    {
      unresolvedParents := unresolvedParents + 1;
      if |lostEdges| < correlation.capacity {
        var had: nat := if run in lostEdges then lostEdges[run] else 0;
        assert lostEdges[run := Saturated(had + 1)].Keys == lostEdges.Keys + {run};
        lostEdges := lostEdges[run := Saturated(had + 1)];
      } else if run in lostEdges {
        var had: nat := lostEdges[run];
        assert lostEdges[run := Saturated(had + 1)].Keys == lostEdges.Keys;
        lostEdges := lostEdges[run := Saturated(had + 1)];
      }
    }

    /** `finish`: resolve the edge, now that the id is minted and the own name remembered. */
    method Finish(u: Unit, id: u128) returns (r: Assembled)
      requires |lostEdges| <= correlation.capacity
      modifies this`unresolvedParents, this`lostEdges
      ensures |lostEdges| <= correlation.capacity
      ensures var edge := EdgeOf(correlation.State(), u, id);
        r == Assembled(id, if edge.Some? then [edge.value] else [])
      ensures unresolvedParents == old(unresolvedParents) + if LosesEdge(correlation.State(), u, id) then 1 else 0
    {
      var causedBy := [];
      var lost := false;
      if u.parent.Some? {
        var found := correlation.Resolve(u.parent.value);
        if found.None? || found.value == id {
          lost := true;
        } else {
          causedBy := [found.value];
        }
      }
      if lost {
        NoteLoss(u.run);
      }
      r := Assembled(id, causedBy);
    }

    /** An id for a unit, and its name remembered. */
    method NameOne(u: Unit, recordedAt: u64) returns (id: u128)
      requires Valid() && ids.minted < 0x1000_0000_0000_0000_0000_0000_0000_0000
      modifies ids, ids.rng, correlation`seen, correlation`order
      ensures Valid() && ids.minted == old(ids.minted) + 1 && old(ids.last) < id == ids.last
      ensures correlation.State() == if u.name.None? then old(correlation.State())
                                     else Remembered(old(correlation.State()), correlation.capacity, u.name.value, id)
    {
      ghost var was := correlation.State();
      id := ids.Mint(recordedAt);
      if u.name.Some? {
        RememberSound(was, correlation.capacity, u.name.value, id);
        correlation.Remember(u.name.value, id);
      }
    }

    /** The first half of `adopt_batch`: an id for every unit, and every name remembered, before anything is
        resolved. */
    method NameAll(batch: seq<Unit>, recordedAt: u64) returns (minted: seq<u128>)
      requires Valid() && ids.minted + |batch| < 0x1000_0000_0000_0000_0000_0000_0000_0000
      modifies ids, ids.rng, correlation`seen, correlation`order
      ensures Valid() && |minted| == |batch|
      ensures Rising(old(correlation.State()), minted)
      ensures correlation.State() == RememberAll(old(correlation.State()), correlation.capacity, batch, minted)
    {
      minted := [];
      ghost var w := correlation.State();
      for i := 0 to |batch|
        invariant Valid() && |minted| == i
        invariant ids.minted == old(ids.minted) + i
        invariant Rising(w, minted) && (forall j :: 0 <= j < i ==> minted[j] <= ids.last)
        invariant forall k :: k in w.seen ==> w.seen[k] <= ids.last
        invariant correlation.State() == RememberAll(w, correlation.capacity, batch[..i], minted)
      {
        hide Remembered, Sound;
        ghost var before := minted;
        var id := NameOne(batch[i], recordedAt);
        minted := minted + [id];
        assert batch[..i + 1][..i] == batch[..i] && minted[..i] == before;
      }
      assert batch[..|batch|] == batch;
    }

    /** The second half. */
    method FinishAll(batch: seq<Unit>, minted: seq<u128>) returns (out: seq<Assembled>)
      requires |lostEdges| <= correlation.capacity && |batch| == |minted|
      modifies this`unresolvedParents, this`lostEdges
      ensures |lostEdges| <= correlation.capacity
      ensures Finished(correlation.State(), batch, minted, out)
      ensures unresolvedParents == old(unresolvedParents) + LostCount(correlation.State(), batch, minted, |batch|)
    {
      hide EdgeOf, LosesEdge;
      out := [];
      for i := 0 to |batch|
        invariant |lostEdges| <= correlation.capacity
        invariant Finished(correlation.State(), batch[..i], minted[..i], out)
        invariant unresolvedParents == old(unresolvedParents) + LostCount(correlation.State(), batch, minted, i)
      {
        var r := Finish(batch[i], minted[i]);
        FinishedOneMore(correlation.State(), batch, minted, out, r, i);
        out := out + [r];
      }
      assert batch[..|batch|] == batch && minted[..|batch|] == minted;
    }

    /** `adopt_batch`. The records are numbered upwards in batch order; a unit that names a parent gets an edge or is
        counted; and for a fresh batch every edge goes where `TargetOf` says. */
    method AdoptBatch(batch: seq<Unit>, recordedAt: u64) returns (out: seq<Assembled>)
      requires Valid() && ids.minted + |batch| < 0x1000_0000_0000_0000_0000_0000_0000_0000
      modifies this`unresolvedParents, this`lostEdges, ids, ids.rng, correlation`seen, correlation`order
      ensures Valid() && |out| == |batch|
      ensures forall i, j :: 0 <= i < j < |out| ==> out[i].id < out[j].id
      ensures EdgeCount(out) + (unresolvedParents - old(unresolvedParents)) == ParentCount(batch)
      ensures forall i :: 0 <= i < |out| ==> out[i].id !in out[i].causedBy
      ensures Rising(old(correlation.State()), IdsOf(out))
      ensures FreshBatch(old(correlation.State()), correlation.capacity, batch) ==>
        Linked(old(correlation.State()), correlation.capacity, batch, out)
    {
      ghost var w := correlation.State();
      var minted := NameAll(batch, recordedAt);
      out := FinishAll(batch, minted);
      EdgesAndLosses(correlation.State(), batch, minted, out);
      assert IdsOf(out) == minted;
      if FreshBatch(w, correlation.capacity, batch) {
        FreshBatchWindow(w, correlation.capacity, batch, minted);
        FreshIsLinked(w, correlation.capacity, batch, minted, correlation.State(), out);
      }
    }

    /** `adopt`: a batch of one. */
    method Adopt(u: Unit, recordedAt: u64) returns (r: Assembled)
      requires Valid() && ids.minted < 0x1000_0000_0000_0000_0000_0000_0000_0000
      modifies this`unresolvedParents, this`lostEdges, ids, ids.rng, correlation`seen, correlation`order
      ensures Valid() && r.id == ids.last > old(ids.last)
      ensures |r.causedBy| + (unresolvedParents - old(unresolvedParents)) == if u.parent.Some? then 1 else 0
      ensures r.id !in r.causedBy
    {
      var id := NameOne(u, recordedAt);
      r := Finish(u, id);
    }

    /** `lost_edge_events`: one record per run that lost edges, with how many, in the order of the runs, and the slate
        is clean. */
    method LostEdgeEvents(recordedAt: u64) returns (out: seq<(u128, Bytes, u32)>)
      requires Valid() && ids.minted + |lostEdges| < 0x1000_0000_0000_0000_0000_0000_0000_0000
      modifies this`lostEdges, ids, ids.rng
      ensures Valid() && lostEdges == map[]
      ensures Reports(old(lostEdges), out)
    {
      hide Precedes, Sound, Reports;
      var lost := lostEdges;
      var runs := InOrder(lost.Keys);
      lostEdges := map[];
      out := [];
      for n := 0 to |runs|
        invariant Valid() && lostEdges == map[] && ids.minted == old(ids.minted) + n
        invariant Reporting(lost, runs[..n], out, ids.last)
      {
        assert runs[n] in runs && runs[..n + 1] == runs[..n] + [runs[n]];
        ghost var last := ids.last;
        var id := ids.Mint(recordedAt);
        ReportedOneMore(lost, runs[..n], out, last, runs[n], id);
        hide Reporting, Ascending, Precedes, Sound;
        out := out + [(id, runs[n], lost[runs[n]])];
      }
      assert runs[..|runs|] == runs;
      AllReported(lost, runs, out, ids.last);
    }
  }

  /** One record for each run that lost edges, with its tally; the identities and the runs both ascend. */
  predicate Reports(lost: map<Bytes, u32>, out: seq<(u128, Bytes, u32)>) {
    && |out| == |lost|
    && (forall run :: run in lost ==> exists i :: 0 <= i < |out| && out[i].1 == run)
    && (forall i :: 0 <= i < |out| ==> out[i].1 in lost && out[i].2 == lost[out[i].1])
    && (forall i, j :: 0 <= i < j < |out| ==> out[i].0 < out[j].0 && Precedes(out[i].1, out[j].1))
  }

  ghost predicate Reporting(lost: map<Bytes, u32>, runs: seq<Bytes>, out: seq<(u128, Bytes, u32)>, last: u128) {
    && |out| == |runs|
    && (forall i :: 0 <= i < |out| ==>
          out[i].1 == runs[i] && runs[i] in lost && out[i].2 == lost[runs[i]] && out[i].0 <= last)
    && (forall i, j :: 0 <= i < j < |out| ==> out[i].0 < out[j].0)
  }

  lemma ReportedOneMore(lost: map<Bytes, u32>, runs: seq<Bytes>, out: seq<(u128, Bytes, u32)>, last: u128, run: Bytes,
                        id: u128)
    requires Reporting(lost, runs, out, last) && run in lost && last < id
    ensures Reporting(lost, runs + [run], out + [(id, run, lost[run])], id)
  {
  }

  lemma AllReported(lost: map<Bytes, u32>, runs: seq<Bytes>, out: seq<(u128, Bytes, u32)>, last: u128)
    requires Reporting(lost, runs, out, last) && Ascending(Precedes, runs) && |runs| == |lost.Keys|
    requires forall run :: run in runs <==> run in lost
    ensures Reports(lost, out)
  {
    assert |lost.Keys| == |lost|;
    forall run | run in lost
      ensures exists i :: 0 <= i < |out| && out[i].1 == run
    {
      var i :| 0 <= i < |runs| && runs[i] == run;
      assert out[i].1 == run;
    }
  }

  lemma FinishedOneMore(w: Window, batch: seq<Unit>, ids: seq<u128>, out: seq<Assembled>, r: Assembled, i: nat)
    requires i < |batch| == |ids| && Finished(w, batch[..i], ids[..i], out)
    requires var edge := EdgeOf(w, batch[i], ids[i]); r == Assembled(ids[i], if edge.Some? then [edge.value] else [])
    ensures Finished(w, batch[..i + 1], ids[..i + 1], out + [r])
  {
    hide EdgeOf;
    assert forall j :: 0 <= j < i ==> batch[..i][j] == batch[..i + 1][j] && ids[..i][j] == ids[..i + 1][j];
  }

  /** Every record's edges are what its unit's target says. */
  ghost predicate Linked(w: Window, capacity: nat, batch: seq<Unit>, out: seq<Assembled>)
    requires |w.order| <= capacity && (forall k :: k in w.order ==> k in w.seen)
  {
    |out| == |batch| &&
    forall i :: 0 <= i < |batch| ==>
      match TargetOf(w, capacity, batch, batch[i])
      case Nowhere => out[i].causedBy == []
      case Earlier(id) => out[i].causedBy == [id]
      case Within(name) =>
        forall j :: 0 <= j < |batch| && batch[j].name == Some(name) ==> out[i].causedBy == [out[j].id]
  }

  lemma FreshIsLinked(w: Window, capacity: nat, batch: seq<Unit>, ids: seq<u128>, after: Window, out: seq<Assembled>)
    requires |batch| == |ids| && Sound(w, capacity) && FreshBatch(w, capacity, batch) && Rising(w, ids)
    requires Holding(w, capacity, batch, ids, after) && Finished(after, batch, ids, out)
    ensures Linked(w, capacity, batch, out)
  {
    forall i | 0 <= i < |batch|
      ensures match TargetOf(w, capacity, batch, batch[i])
        case Nowhere => out[i].causedBy == []
        case Earlier(id) => out[i].causedBy == [id]
        case Within(name) =>
          forall j :: 0 <= j < |batch| && batch[j].name == Some(name) ==> out[i].causedBy == [out[j].id]
    {
      EdgeIsTarget(w, capacity, batch, ids, after, i);
      hide TargetOf, EdgeOf, Holding, FreshBatch, Sound, Rising;
    }
  }

  // ---------------------------------------------------------------------------
  // The same edges for every ordering
  // ---------------------------------------------------------------------------

  /** The record of unit u is caused by the record of unit v of the same batch. */
  ghost predicate Causes(batch: seq<Unit>, out: seq<Assembled>, v: Unit, u: Unit)
    requires |batch| == |out|
  {
    exists i, j :: 0 <= i < |batch| && 0 <= j < |batch| && batch[i] == u && batch[j] == v && EdgeFrom(out, i, out[j].id)
  }

  /** The record of unit u is caused by this older record. */
  ghost predicate OlderCauses(batch: seq<Unit>, out: seq<Assembled>, id: u128, u: Unit)
    requires |batch| == |out|
  {
    exists i :: 0 <= i < |batch| && batch[i] == u && EdgeFrom(out, i, id)
  }

  /** The record of unit u has no cause. */
  ghost predicate Uncaused(batch: seq<Unit>, out: seq<Assembled>, u: Unit)
    requires |batch| == |out|
  {
    exists i :: 0 <= i < |batch| && batch[i] == u && out[i].causedBy == []
  }

  predicate EdgeFrom(out: seq<Assembled>, i: nat, id: u128)
    requires i < |out|
  {
    out[i].causedBy == [id]
  }

  /** A batch that was adopted: linked, with identities above all the window holds. */
  ghost predicate Adopted(w: Window, capacity: nat, batch: seq<Unit>, out: seq<Assembled>) {
    Sound(w, capacity) && |batch| == |out| && Linked(w, capacity, batch, out) && Rising(w, IdsOf(out))
  }

  lemma {:induction false} NamedUnit(batch: seq<Unit>, name: Key) returns (i: nat)
    requires name in Names(batch)
    ensures i < |batch| && batch[i].name == Some(name)
  {
    var last := |batch| - 1;
    if batch[last].name == Some(name) {
      i := last;
    } else {
      i := NamedUnit(batch[..last], name);
    }
  }

  /** The three ways the record at one place can be caused, told apart by its unit's target. */
  lemma CauseAt(w: Window, capacity: nat, batch: seq<Unit>, out: seq<Assembled>, i: nat)
    requires Adopted(w, capacity, batch, out) && i < |batch|
    ensures match TargetOf(w, capacity, batch, batch[i])
      case Nowhere => out[i].causedBy == []
      case Earlier(id) => out[i].causedBy == [id] && forall j :: 0 <= j < |out| ==> id < out[j].id
      case Within(name) =>
        exists k :: 0 <= k < |batch| && batch[k].name == Some(name) && out[i].causedBy == [out[k].id]
  {
    var u := batch[i];
    assert forall j :: 0 <= j < |out| ==> IdsOf(out)[j] == out[j].id;
    match TargetOf(w, capacity, batch, u)
    case Nowhere =>
    case Earlier(id) =>
      assert u.parent.value in w.seen && w.seen[u.parent.value] == id;
    case Within(name) =>
      var k := NamedUnit(batch, name);
      assert batch[k].name == Some(name) && out[i].causedBy == [out[k].id];
  }

  /** Whether one record causes another is in the units alone. */
  lemma CausesExactly(w: Window, capacity: nat, batch: seq<Unit>, out: seq<Assembled>, v: Unit, u: Unit)
    requires Adopted(w, capacity, batch, out)
    ensures Causes(batch, out, v, u)
       <==> u in batch && v in batch && v.name.Some? && TargetOf(w, capacity, batch, u) == Within(v.name.value)
  {
    if Causes(batch, out, v, u) {
      var i, j :| 0 <= i < |batch| && 0 <= j < |batch| && batch[i] == u && batch[j] == v && EdgeFrom(out, i, out[j].id);
      CauseAt(w, capacity, batch, out, i);
      if TargetOf(w, capacity, batch, u).Within? {
        var name := TargetOf(w, capacity, batch, u).name;
        var k :| 0 <= k < |batch| && batch[k].name == Some(name) && out[i].causedBy == [out[k].id];
        SamePlace(w, out, j, k);
      }
    }
    if u in batch && v in batch && v.name.Some? && TargetOf(w, capacity, batch, u) == Within(v.name.value) {
      var i :| 0 <= i < |batch| && batch[i] == u;
      var j :| 0 <= j < |batch| && batch[j] == v;
      assert EdgeFrom(out, i, out[j].id);
    }
  }

  lemma SamePlace(w: Window, out: seq<Assembled>, j: nat, k: nat)
    requires Rising(w, IdsOf(out)) && j < |out| && k < |out| && out[j].id == out[k].id
    ensures j == k
  {
    assert IdsOf(out)[j] == IdsOf(out)[k];
  }

  lemma OlderCausesExactly(w: Window, capacity: nat, batch: seq<Unit>, out: seq<Assembled>, id: u128, u: Unit)
    requires Adopted(w, capacity, batch, out) && forall j :: 0 <= j < |out| ==> out[j].id != id
    ensures OlderCauses(batch, out, id, u) <==> u in batch && TargetOf(w, capacity, batch, u) == Earlier(id)
  {
    if OlderCauses(batch, out, id, u) {
      var i :| 0 <= i < |batch| && batch[i] == u && EdgeFrom(out, i, id);
      CauseAt(w, capacity, batch, out, i);
    }
    if u in batch && TargetOf(w, capacity, batch, u) == Earlier(id) {
      var i :| 0 <= i < |batch| && batch[i] == u;
      CauseAt(w, capacity, batch, out, i);
      assert EdgeFrom(out, i, id);
    }
  }

  lemma UncausedExactly(w: Window, capacity: nat, batch: seq<Unit>, out: seq<Assembled>, u: Unit)
    requires Adopted(w, capacity, batch, out)
    ensures Uncaused(batch, out, u) <==> u in batch && TargetOf(w, capacity, batch, u) == Nowhere
  {
    if Uncaused(batch, out, u) {
      var i :| 0 <= i < |batch| && batch[i] == u && out[i].causedBy == [];
      CauseAt(w, capacity, batch, out, i);
    }
    if u in batch && TargetOf(w, capacity, batch, u) == Nowhere {
      var i :| 0 <= i < |batch| && batch[i] == u;
      CauseAt(w, capacity, batch, out, i);
    }
  }

  /** Two orderings of one fresh batch give the same edges: between the same units, from the same older records, and
      to the same units none. The identities of the records may differ. */
  lemma SameEdges(w: Window, capacity: nat, b: seq<Unit>, x: seq<Assembled>, c: seq<Unit>, y: seq<Assembled>)
    requires Adopted(w, capacity, b, x) && Adopted(w, capacity, c, y) && multiset(b) == multiset(c)
    ensures forall v, u :: Causes(b, x, v, u) <==> Causes(c, y, v, u)
    ensures forall k, u :: k in w.seen ==> (OlderCauses(b, x, w.seen[k], u) <==> OlderCauses(c, y, w.seen[k], u))
    ensures forall u :: Uncaused(b, x, u) <==> Uncaused(c, y, u)
  {
    forall u
      ensures (u in b <==> u in c) && TargetOf(w, capacity, b, u) == TargetOf(w, capacity, c, u)
    {
      TargetsDoNotDependOnOrder(w, capacity, b, c, u);
      assert u in b <==> u in multiset(b);
      assert u in c <==> u in multiset(c);
    }
    hide TargetOf, Linked, Rising, Causes, OlderCauses, Uncaused;
    forall v, u
      ensures Causes(b, x, v, u) <==> Causes(c, y, v, u)
    {
      CausesExactly(w, capacity, b, x, v, u);
      CausesExactly(w, capacity, c, y, v, u);
    }
    forall k, u | k in w.seen
      ensures OlderCauses(b, x, w.seen[k], u) <==> OlderCauses(c, y, w.seen[k], u)
    {
      OlderIsNotNew(w, x, k);
      OlderIsNotNew(w, y, k);
      OlderCausesExactly(w, capacity, b, x, w.seen[k], u);
      OlderCausesExactly(w, capacity, c, y, w.seen[k], u);
    }
    forall u
      ensures Uncaused(b, x, u) <==> Uncaused(c, y, u)
    {
      UncausedExactly(w, capacity, b, x, u);
      UncausedExactly(w, capacity, c, y, u);
    }
  }

  lemma OlderIsNotNew(w: Window, out: seq<Assembled>, k: Key)
    requires Rising(w, IdsOf(out)) && k in w.seen
    ensures forall j :: 0 <= j < |out| ==> out[j].id != w.seen[k]
  {
    assert forall j :: 0 <= j < |out| ==> IdsOf(out)[j] == out[j].id;
  }
}
