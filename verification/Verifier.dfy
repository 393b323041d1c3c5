/** The checks of the verifier, as it runs them: a report without a broken finding is a pack that satisfies
    `PackOk`, and the other way round. */
module Verifier {
  import opened Words
  import opened Merkle
  import opened Sorting
  import opened Evidence

  datatype Level = Note | Weak | Broken

  datatype Finding = Finding(level: Level, check: string)

  predicate NoneBroken(findings: seq<Finding>) {
    forall i :: 0 <= i < |findings| ==> findings[i].level != Broken
  }

  lemma NoneBrokenSnoc(findings: seq<Finding>, f: Finding)
    ensures NoneBroken(findings + [f]) <==> NoneBroken(findings) && f.level != Broken
  {
    assert (findings + [f])[|findings|] == f;
    assert forall i :: 0 <= i < |findings| ==> (findings + [f])[i] == findings[i];
  }

  class Report {
    var findings: seq<Finding>
    var recordsChecked: nat
    var segmentsChecked: nat

    constructor ()
      ensures findings == [] && recordsChecked == segmentsChecked == 0 && Verified()
    {
      findings, recordsChecked, segmentsChecked := [], 0, 0;
    }

    predicate Verified()
      reads this
    {
      NoneBroken(findings)
    }

    method Add(level: Level, check: string)
      modifies this`findings
      ensures findings == old(findings) + [Finding(level, check)]
      ensures Verified() <==> old(Verified()) && level != Broken
    {
      NoneBrokenSnoc(findings, Finding(level, check));
      findings := findings + [Finding(level, check)];
    }
  }

  // ---------------------------------------------------------------------------
  // One segment
  // ---------------------------------------------------------------------------

  function AllFields(decode: Decoder, bodies: seq<Bytes>): (r: seq<Fields>)
    ensures |r| == |bodies|
    ensures forall i :: 0 <= i < |r| ==> r[i] == FieldsOf(decode, bodies[i])
  {
    seq(|bodies|, i requires 0 <= i < |bodies| => FieldsOf(decode, bodies[i]))
  }

  lemma OneMoreRecord(h: Hash, decode: Decoder, before: Digest, bodies: seq<Bytes>, i: nat)
    requires i < |bodies| && decode(bodies[i]).Some?
    ensures AllDecode(decode, bodies[..i]) ==> AllDecode(decode, bodies[..i + 1])
    ensures var f := decode(bodies[i]).value;
      && Head(h, decode, before, bodies[..i + 1])
         == h(ChainPreimage(Head(h, decode, before, bodies[..i]), f.seqno, bodies[i]))
      && Links(h, decode, before, bodies[..i + 1])
         == Links(h, decode, before, bodies[..i]) + [Head(h, decode, before, bodies[..i + 1])]
      && AllFields(decode, bodies[..i + 1]) == AllFields(decode, bodies[..i]) + [f]
  {
    assert bodies[..i + 1][..i] == bodies[..i];
  }

  /** The first loop of `check_segment`: decode every record and extend the chain over it. */
  method ChainRecords(h: Hash, decode: Decoder, before: Digest, bodies: seq<Bytes>, report: Report)
    returns (ok: bool, links: seq<Digest>, fields: seq<Fields>, link: Digest)
    modifies report
    ensures ok <==> AllDecode(decode, bodies)
    ensures ok ==> links == Links(h, decode, before, bodies) && link == Head(h, decode, before, bodies)
    ensures ok ==> fields == AllFields(decode, bodies)
    ensures report.segmentsChecked == old(report.segmentsChecked)
    ensures ok ==> report.recordsChecked == old(report.recordsChecked) + |bodies|
    ensures report.Verified() <==> old(report.Verified()) && ok
  {
    link, links, fields := before, [], [];
    for i := 0 to |bodies|
      invariant AllDecode(decode, bodies[..i])
      invariant links == Links(h, decode, before, bodies[..i]) && link == Head(h, decode, before, bodies[..i])
      invariant fields == AllFields(decode, bodies[..i])
      invariant report.findings == old(report.findings) && report.segmentsChecked == old(report.segmentsChecked)
      invariant report.recordsChecked == old(report.recordsChecked) + i
    {
      var f := decode(bodies[i]);
      if f.None? {
        assert !AllDecode(decode, bodies);
        hide AllDecode, NoneBroken, Links, Head, AllFields;
        report.Add(Broken, "record-decodes");
        return false, links, fields, link;
      }
      OneMoreRecord(h, decode, before, bodies, i);
      hide Links, Head, AllFields, ChainPreimage, AllDecode, NoneBroken;
      link := h(ChainPreimage(link, f.value.seqno, bodies[i]));
      links := links + [link];
      fields := fields + [f.value];
      report.recordsChecked := report.recordsChecked + 1;
    }
    assert bodies[..|bodies|] == bodies;
    return true, links, fields, link;
  }

  /** Leaf hashes of byte strings, in a loop. */
  method HashLeaves(h: Hash, entries: seq<Bytes>) returns (leaves: seq<Digest>)
    ensures leaves == LeafHashes(h, entries)
  {
    leaves := [];
    for i := 0 to |entries|
      invariant |leaves| == i
      invariant forall j :: 0 <= j < i ==> leaves[j] == h(Leaf(entries[j]))
    {
      leaves := leaves + [h(Leaf(entries[i]))];
    }
    assert leaves == LeafHashes(h, entries);
  }

  method RootOfEntries(h: Hash, entries: seq<Bytes>) returns (root: Digest)
    ensures root == TreeHash(h, entries)
  {
    var leaves := HashLeaves(h, entries);
    RootIsTreeHash(h, entries);
    var visited;
    root, visited := MerkleRoot(h, leaves);
  }

  /** The numbers have to be one to n; the first that is not is reported. */
  method CheckSequence(decode: Decoder, bodies: seq<Bytes>, fields: seq<Fields>, report: Report)
    requires fields == AllFields(decode, bodies) && AllDecode(decode, bodies)
    modifies report`findings
    ensures report.Verified() <==> old(report.Verified()) && Contiguous(decode, bodies)
  {
    for position := 0 to |fields|
      invariant forall i :: 0 <= i < position ==> Seqno(decode, bodies[i]) == i + 1
      invariant report.findings == old(report.findings)
    {
      assert fields[position].seqno == Seqno(decode, bodies[position]);
      if fields[position].seqno != position + 1 {
        report.Add(Broken, "sequence-contiguous");
        return;
      }
    }
  }

  /** The entries of one index: none when the dimension is not one this verifier can key. */
  method BuildEntries(h: Hash, decode: Decoder, before: Digest, bodies: seq<Bytes>, fields: seq<Fields>,
                      links: seq<Digest>, name: string)
    returns (entries: Option<seq<Entry>>)
    requires fields == AllFields(decode, bodies) && links == Links(h, decode, before, bodies)
    ensures Known(name) ==> entries == Some(Entries(h, decode, before, bodies, name))
    ensures !Known(name) ==> entries == if bodies == [] then Some([]) else None
  {
    var es := [];
    for i := 0 to |bodies|
      invariant if Known(name) then es == Entries(h, decode, before, bodies[..i], name) else i == 0 && es == []
    {
      var key := IndexKey(name, fields[i]);
      if key.None? {
        return None;
      }
      LinkAt(h, decode, before, bodies, i);
      assert bodies[..i + 1][..i] == bodies[..i];
      hide Links, Head, Known, IndexKey;
      es := es + [Entry(key.value, fields[i].seqno, links[i])];
    }
    assert bodies[..|bodies|] == bodies;
    return Some(es);
  }

  lemma {:induction false} LinkAt(h: Hash, decode: Decoder, before: Digest, bodies: seq<Bytes>, i: nat)
    requires i < |bodies|
    ensures Links(h, decode, before, bodies)[i] == Head(h, decode, before, bodies[..i + 1])
  {
    var last := |bodies| - 1;
    if i < last {
      LinkAt(h, decode, before, bodies[..last], i);
      assert bodies[..last][..i + 1] == bodies[..i + 1];
    } else {
      assert bodies[..i + 1] == bodies;
    }
  }

  /** A key and sequence number twice, side by side. */
  predicate Repeats(entries: seq<Entry>) {
    exists i :: 0 < i < |entries| && SamePlace(entries[i - 1], entries[i])
  }

  predicate SamePlace(a: Entry, b: Entry) {
    a.key == b.key && a.seqno == b.seqno
  }

  /** Entries that ascend strictly have no repeat. */
  lemma AscendingNeverRepeats(entries: seq<Entry>)
    requires Ascending(EntryLess, entries)
    ensures !Repeats(entries)
  {
    if Repeats(entries) {
      var i :| 0 < i < |entries| && SamePlace(entries[i - 1], entries[i]);
      assert EntryLess(entries[i - 1], entries[i]);
      PrecedesIrreflexive(entries[i].key);
    }
  }

  method HasRepeat(entries: seq<Entry>) returns (yes: bool)
    ensures yes <==> Repeats(entries)
  {
    var i := 1;
    while i < |entries|
      invariant 1 <= i && (i <= |entries| || |entries| == 0)
      invariant forall j :: 0 < j < i && j < |entries| ==> !SamePlace(entries[j - 1], entries[j])
    {
      if entries[i - 1].key == entries[i].key && entries[i - 1].seqno == entries[i].seqno {
        assert SamePlace(entries[i - 1], entries[i]);
        return true;
      }
      i := i + 1;
    }
    return false;
  }

  /** The index root has to be the root of the entries in order. */
  method CheckIndex(h: Hash, decode: Decoder, before: Digest, bodies: seq<Bytes>, fields: seq<Fields>,
                    links: seq<Digest>, r: IndexRoot, report: Report)
    requires AllDecode(decode, bodies) && fields == AllFields(decode, bodies)
    requires links == Links(h, decode, before, bodies)
    requires report.Verified() ==> Contiguous(decode, bodies)
    modifies report`findings
    ensures report.Verified() <==> old(report.Verified()) && IndexOk(h, decode, before, bodies, r)
  {
    var entries := BuildEntries(h, decode, before, bodies, fields, links, r.name);
    if entries.None? {
      report.Add(Weak, "index-dimension");
      return;
    }
    var sorted := Sorted(EntryLess, entries.value);
    if report.Verified() && Known(r.name) {
      EntriesApart(h, decode, before, bodies, r.name);
      EntryOrder();
      SortedAscends(EntryLess, entries.value);
      AscendingNeverRepeats(sorted);
    }
    var repeated := HasRepeat(sorted);
    if repeated {
      assert report.Verified() ==> !Known(r.name) && sorted == [];
      report.Add(Broken, "index-strictly-sorted");
    }
    assert sorted == [] ==> EntryDatas(sorted) == [];
    hide Known, Entries, TreeHash, EntryDatas, Sorted, Ascending;
    var derived := RootOfEntries(h, EntryDatas(sorted));
    if derived != r.root {
      report.Add(Broken, "index-root");
    }
  }

  method CheckIndexes(h: Hash, decode: Decoder, s: Segment, bodies: seq<Bytes>, fields: seq<Fields>,
                      links: seq<Digest>, report: Report)
    requires AllDecode(decode, bodies) && fields == AllFields(decode, bodies)
    requires links == Links(h, decode, s.chainBefore, bodies)
    requires report.Verified() ==> Contiguous(decode, bodies)
    modifies report`findings
    ensures report.Verified() <==> old(report.Verified()) && IndexesOk(h, decode, s, bodies, |s.indexRoots|)
  {
    hide AllDecode, AllFields, Links, Contiguous, IndexOk, NoneBroken;
    for i := 0 to |s.indexRoots|
      invariant report.Verified() <==> old(report.Verified()) && IndexesOk(h, decode, s, bodies, i)
    {
      CheckIndex(h, decode, s.chainBefore, bodies, fields, links, s.indexRoots[i], report);
    }
  }

  predicate Indexed(s: Segment, dimension: string) {
    exists j :: 0 <= j < |s.indexRoots| && s.indexRoots[j].name == dimension
  }

  /** One warning for each of these dimensions that is not indexed. */
  function Missing(s: Segment, dimensions: seq<string>): seq<Finding> {
    if dimensions == [] then []
    else
      var last := |dimensions| - 1;
      Missing(s, dimensions[..last])
      + if Indexed(s, dimensions[last]) then [] else [Finding(Weak, "index-dimension")]
  }

  lemma {:induction false} MissingBreaksNothing(findings: seq<Finding>, s: Segment, dimensions: seq<string>)
    ensures NoneBroken(findings + Missing(s, dimensions)) <==> NoneBroken(findings)
  {
    hide NoneBroken, Indexed;
    if dimensions == [] {
      assert findings + [] == findings;
    } else {
      var front := Missing(s, dimensions[..|dimensions| - 1]);
      MissingBreaksNothing(findings, s, dimensions[..|dimensions| - 1]);
      NoneBrokenSnoc(findings + front, Finding(Weak, "index-dimension"));
      assert findings + (front + [Finding(Weak, "index-dimension")])
          == findings + front + [Finding(Weak, "index-dimension")];
      assert front + [] == front;
    }
  }

  /** The dimensions a completeness proof could be asked about: a missing one is worth a warning. */
  method WarnMissing(s: Segment, report: Report)
    modifies report`findings
    ensures report.findings
         == old(report.findings) + Missing(s, ["id", "recorded_at", "agent_id", "run_id", "event_type"])
    ensures report.Verified() <==> old(report.Verified())
  {
    var dimensions := [ID, RECORDED_AT, AGENT_ID, RUN_ID, EVENT_TYPE];
    MissingBreaksNothing(report.findings, s, dimensions);
    hide NoneBroken;
    for i := 0 to |dimensions|
      invariant report.findings == old(report.findings) + Missing(s, dimensions[..i])
    {
      assert dimensions[..i + 1][..i] == dimensions[..i];
      var found := false;
      for j := 0 to |s.indexRoots|
        invariant found <==> exists k :: 0 <= k < j && s.indexRoots[k].name == dimensions[i]
      {
        found := found || s.indexRoots[j].name == dimensions[i];
      }
      if !found {
        report.Add(Weak, "index-dimension");
      }
    }
    assert dimensions[..5] == dimensions;
  }

  /** The chain has to end where the manifest says. */
  method CheckChain(s: Segment, links: seq<Digest>, link: Digest, report: Report)
    requires links == [] ==> link == s.chainBefore
    modifies report`findings
    ensures report.Verified() <==> old(report.Verified()) && link == s.chainAfter
  {
    if links != [] && link != s.chainAfter {
      report.Add(Broken, "chain-within-segment");
    } else if links == [] && s.chainBefore != s.chainAfter {
      report.Add(Broken, "chain-within-segment");
    }
  }

  /** `check_segment`. */
  method CheckSegment(h: Hash, decode: Decoder, s: Segment, bodies: seq<Bytes>, report: Report)
    modifies report
    ensures report.segmentsChecked == old(report.segmentsChecked)
    ensures SegmentOk(h, decode, s, bodies) ==> report.recordsChecked == old(report.recordsChecked) + |bodies|
    ensures report.Verified() <==> old(report.Verified()) && SegmentOk(h, decode, s, bodies)
  {
    hide AllDecode, AllFields, Contiguous, IndexOk, NoneBroken, TreeHash;
    if |bodies| != s.records {
      report.Add(Broken, "record-count");
    }
    var ok, links, fields, link := ChainRecords(h, decode, s.chainBefore, bodies, report);
    if !ok {
      return;
    }
    CheckChain(s, links, link, report);
    hide Links, Head;
    var root := RootOfEntries(h, links);
    if root != s.historyRoot {
      report.Add(Broken, "history-root");
    }
    CheckSequence(decode, bodies, fields, report);
    CheckIndexes(h, decode, s, bodies, fields, links, report);
    WarnMissing(s, report);
  }

  // ---------------------------------------------------------------------------
  // One shard
  // ---------------------------------------------------------------------------

  method HashManifests(h: Hash, segments: seq<Segment>) returns (r: seq<Bytes>)
    ensures r == Manifests(h, segments)
  {
    hide ManifestPreimage;
    r := [];
    for i := 0 to |segments|
      invariant |r| == i && forall j :: 0 <= j < i ==> r[j] == h(ManifestPreimage(segments[j]))
    {
      r := r + [h(ManifestPreimage(segments[i]))];
    }
    assert r == Manifests(h, segments);
  }

  /** The loop over the segments of a shard: each with its records, and each continuing the one before. */
  method CheckSegments(h: Hash, decode: Decoder, segments: seq<Segment>, records: map<(u16, u64), seq<Bytes>>,
                       report: Report)
    modifies report
    ensures report.segmentsChecked == old(report.segmentsChecked) + |segments|
    ensures report.Verified() <==>
      old(report.Verified()) && Continues(segments, |segments|)
      && AllRecordsOk(h, decode, records, segments, |segments|)
  {
    hide SegmentOk, NoneBroken;
    for i := 0 to |segments|
      invariant report.segmentsChecked == old(report.segmentsChecked) + i
      invariant report.Verified()
        <==> old(report.Verified()) && Continues(segments, i) && AllRecordsOk(h, decode, records, segments, i)
    {
      var s := segments[i];
      report.segmentsChecked := report.segmentsChecked + 1;
      if (s.shard, s.segment) !in records {
        report.Add(Weak, "records-present");
      } else {
        CheckSegment(h, decode, s, records[(s.shard, s.segment)], report);
      }
      if i > 0 && segments[i - 1].chainAfter != s.chainBefore {
        report.Add(Broken, "chain-across-segments");
      }
    }
  }

  method CheckShard(h: Hash, decode: Decoder, p: Pack, info: ShardInfo, segments: seq<Segment>,
                    records: map<(u16, u64), seq<Bytes>>, report: Report)
    requires segments == SegmentsOf(p, info.shard) && records == RecordMap(p.recordSets)
    modifies report
    ensures report.segmentsChecked == old(report.segmentsChecked) + |segments|
    ensures report.Verified() <==> old(report.Verified()) && ShardOk(h, decode, p, info)
  {
    hide SegmentsOf, RecordMap, Continues, RecordsOk, TreeHash, NoneBroken;
    if |segments| != info.segmentCount {
      report.Add(Broken, "segment-count");
    }
    CheckSegments(h, decode, segments, records, report);
    var manifests := HashManifests(h, segments);
    var derived := RootOfEntries(h, manifests);
    if derived != info.root {
      report.Add(Broken, "shard-root");
    }
  }

  // ---------------------------------------------------------------------------
  // A whole evidence pack
  // ---------------------------------------------------------------------------

  /** What grouping by shard leaves under one key. */
  predicate Grouped(groups: map<u16, seq<Segment>>, segments: seq<Segment>) {
    forall shard: u16 :: (if shard in groups then groups[shard] else []) == OfShard(segments, shard)
  }

  lemma GroupedSnoc(groups: map<u16, seq<Segment>>, segments: seq<Segment>, i: nat)
    requires i < |segments| && Grouped(groups, segments[..i])
    ensures var s := segments[i];
      Grouped(groups[s.shard := (if s.shard in groups then groups[s.shard] else []) + [s]], segments[..i + 1])
  {
    assert segments[..i + 1][..i] == segments[..i];
  }

  method GroupByShard(segments: seq<Segment>) returns (groups: map<u16, seq<Segment>>)
    ensures Grouped(groups, segments)
  {
    groups := map[];
    for i := 0 to |segments|
      invariant Grouped(groups, segments[..i])
    {
      GroupedSnoc(groups, segments, i);
      hide Grouped;
      var s := segments[i];
      groups := groups[s.shard := (if s.shard in groups then groups[s.shard] else []) + [s]];
    }
    assert segments[..|segments|] == segments;
  }

  lemma {:induction false} MapSize(sets: seq<RecordSet>)
    ensures |RecordMap(sets)| <= |sets|
    ensures |RecordMap(sets)| == |sets| <==> SetsDiffer(sets)
  {
    if sets == [] {
    } else {
      var last := |sets| - 1;
      var key := (sets[last].shard, sets[last].segment);
      MapSize(sets[..last]);
      RecordMapKeys(sets[..last], key);
      var before := RecordMap(sets[..last]);
      assert before[key := sets[last].records].Keys == before.Keys + {key};
      assert forall i, j :: 0 <= i < j < last ==> sets[..last][i] == sets[i] && sets[..last][j] == sets[j];
      if key in before {
        var i :| 0 <= i < last && (sets[..last][i].shard, sets[..last][i].segment) == key;
        assert (sets[i].shard, sets[i].segment) == (sets[last].shard, sets[last].segment);
      }
    }
  }

  method MapRecords(sets: seq<RecordSet>) returns (records: map<(u16, u64), seq<Bytes>>)
    ensures records == RecordMap(sets)
  {
    records := map[];
    for i := 0 to |sets|
      invariant records == RecordMap(sets[..i])
    {
      assert sets[..i + 1][..i] == sets[..i];
      records := records[(sets[i].shard, sets[i].segment) := sets[i].records];
    }
    assert sets[..|sets|] == sets;
  }

  /** Every segment has to be under a listed shard. */
  method CheckListed(p: Pack, report: Report)
    modifies report`findings
    ensures report.Verified() <==> old(report.Verified()) && AllListed(p, |p.segments|)
  {
    hide NoneBroken;
    var listed := set s | s in p.shards :: s.shard;
    for i := 0 to |p.segments|
      invariant report.Verified() <==> old(report.Verified()) && AllListed(p, i)
    {
      if p.segments[i].shard !in listed {
        assert !Listed(p, p.segments[i]);
        report.Add(Broken, "orphan-segment");
      }
    }
  }

  method CheckAnchors(p: Pack, report: Report)
    modifies report`findings
    ensures report.Verified() <==> old(report.Verified()) && AnchorsAgree(p, |p.anchors|)
  {
    hide NoneBroken;
    for i := 0 to |p.anchors|
      invariant report.Verified() <==> old(report.Verified()) && AnchorsAgree(p, i)
    {
      if p.anchors[i] != p.storeRoot {
        report.Add(Broken, "anchor");
      } else {
        report.Add(Weak, "anchor");
      }
    }
  }

  method SegmentsIn(p: Pack, groups: map<u16, seq<Segment>>, shard: u16) returns (segments: seq<Segment>)
    requires Grouped(groups, p.segments)
    ensures segments == SegmentsOf(p, shard)
  {
    segments := Sorted(BySegment, if shard in groups then groups[shard] else []);
  }

  /** One pass of the loop over the shards: its checks, and its leaf. */
  method NextShard(h: Hash, decode: Decoder, p: Pack, groups: map<u16, seq<Segment>>,
                   records: map<(u16, u64), seq<Bytes>>, info: ShardInfo, report: Report)
    returns (leaf: Bytes)
    requires Grouped(groups, p.segments) && records == RecordMap(p.recordSets)
    modifies report
    ensures report.segmentsChecked == old(report.segmentsChecked) + |SegmentsOf(p, info.shard)|
    ensures leaf == ShardEntry(h, p, info)
    ensures report.Verified() <==> old(report.Verified()) && ShardOk(h, decode, p, info)
  {
    hide ShardOk, RecordMap, NoneBroken, ShardPreimage, Grouped, SegmentsOf;
    var segments := SegmentsIn(p, groups, info.shard);
    CheckShard(h, decode, p, info, segments, records, report);
    leaf := h(ShardPreimage(info.shard, |segments|, info.root));
  }

  lemma OneMoreShard(h: Hash, decode: Decoder, p: Pack, i: nat)
    requires i < |p.shards|
    ensures StoreEntries(h, p)[..i + 1] == StoreEntries(h, p)[..i] + [ShardEntry(h, p, Sorted(ByShard, p.shards)[i])]
    ensures AllShardsOk(h, decode, p, i + 1)
       <==> AllShardsOk(h, decode, p, i) && ShardOk(h, decode, p, Sorted(ByShard, p.shards)[i])
  {
    hide ShardOk, ShardEntry;
  }

  /** How many segments these shards have together. */
  function SegmentsUnder(p: Pack, shards: seq<ShardInfo>): nat {
    if shards == [] then 0
    else SegmentsUnder(p, shards[..|shards| - 1]) + |SegmentsOf(p, shards[|shards| - 1].shard)|
  }

  lemma NoneUnder(p: Pack, shards: seq<ShardInfo>)
    ensures SegmentsUnder(p, shards[..0]) == 0 && shards[..|shards|] == shards
  {
  }

  lemma OneMoreUnder(p: Pack, shards: seq<ShardInfo>, i: nat)
    requires i < |shards|
    ensures SegmentsUnder(p, shards[..i + 1]) == SegmentsUnder(p, shards[..i]) + |SegmentsOf(p, shards[i].shard)|
  {
    assert shards[..i + 1][..i] == shards[..i];
  }

  lemma NoShardYet(h: Hash, decode: Decoder, p: Pack)
    ensures AllShardsOk(h, decode, p, 0)
  {
    hide ShardOk;
  }

  /** The loop over the shards in order. */
  method CheckShards(h: Hash, decode: Decoder, p: Pack, groups: map<u16, seq<Segment>>,
                     records: map<(u16, u64), seq<Bytes>>, report: Report)
    returns (leaves: seq<Bytes>)
    requires Grouped(groups, p.segments) && records == RecordMap(p.recordSets)
    modifies report
    ensures report.segmentsChecked == old(report.segmentsChecked) + SegmentsUnder(p, Sorted(ByShard, p.shards))
    ensures leaves == StoreEntries(h, p)
    ensures report.Verified() <==> old(report.Verified()) && AllShardsOk(h, decode, p, |p.shards|)
  {
    hide *;
    leaves := [];
    var shards := Sorted(ByShard, p.shards);
    NoShardYet(h, decode, p);
    NoneUnder(p, shards);
    for i := 0 to |shards|
      invariant leaves == StoreEntries(h, p)[..i]
      invariant report.segmentsChecked == old(report.segmentsChecked) + SegmentsUnder(p, shards[..i])
      invariant report.Verified() <==> old(report.Verified()) && AllShardsOk(h, decode, p, i)
    {
      OneMoreShard(h, decode, p, i);
      OneMoreUnder(p, shards, i);
      var leaf := NextShard(h, decode, p, groups, records, shards[i], report);
      leaves := leaves + [leaf];
    }
    assert leaves == StoreEntries(h, p)[..|StoreEntries(h, p)|];
  }

  /** What this verifier does not check: the signature, and every witness. */
  method WarnUnchecked(p: Pack, report: Report)
    modifies report`findings
    ensures report.findings
         == old(report.findings) + [Finding(Weak, "root-signature")] + seq(p.witnesses, _ => Finding(Weak, "witness"))
    ensures report.Verified() <==> old(report.Verified())
  {
    hide NoneBroken;
    report.Add(Weak, "root-signature");
    ghost var before := report.findings;
    for i := 0 to p.witnesses
      invariant report.findings == before + seq(i, _ => Finding(Weak, "witness"))
      invariant report.Verified() <==> old(report.Verified())
    {
      assert seq(i + 1, _ => Finding(Weak, "witness"))
          == seq(i, _ => Finding(Weak, "witness")) + [Finding(Weak, "witness")];
      report.Add(Weak, "witness");
    }
  }

  /** `verify`: the report has no broken finding exactly when every check holds. */
  method Verify(h: Hash, decode: Decoder, p: Pack) returns (report: Report)
    ensures fresh(report) && report.segmentsChecked == SegmentsUnder(p, Sorted(ByShard, p.shards))
    ensures report.Verified() <==> PackOk(h, decode, p)
  {
    hide NoneBroken, AllShardsOk, RecordMap, Grouped, SetsDiffer, AllListed, AnchorsAgree, TreeHash, StoreEntries,
         SegmentsUnder, Report.Verified, Sorted;
    report := new Report();
    var groups := GroupByShard(p.segments);
    var records := MapRecords(p.recordSets);
    MapSize(p.recordSets);
    if |records| != |p.recordSets| {
      report.Add(Broken, "duplicate");
    }
    CheckListed(p, report);
    if |p.shards| != p.shardCount {
      report.Add(Broken, "shard-count");
    }
    var leaves := CheckShards(h, decode, p, groups, records, report);
    var root := RootOfEntries(h, leaves);
    if root != p.storeRoot {
      report.Add(Broken, "store-root");
    } else {
      report.Add(Note, "store-root");
    }
    WarnUnchecked(p, report);
    CheckAnchors(p, report);
  }
}
