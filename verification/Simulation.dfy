/** The whole-system run: shards on one simulated disk, power cuts, and the check that no promise was lost. */
module Simulation {
  import opened Words
  import opened Limbs
  import opened Record
  import opened Disk
  import opened Shards

  datatype SimConfig = SimConfig(
    shards: u16, steps: u64, syncEvery: u64, ioFaults: IoFaults, crashPpm: u32, crashAt: Option<u64>)

  datatype Report = Report(crashes: nat, durabilityViolations: nat, ackedTotal: nat, writtenTotal: nat)

  function Sum(s: seq<nat>): nat {
    if s == [] then 0 else Sum(s[..|s| - 1]) + s[|s| - 1]
  }

  lemma {:induction false} SumUpdate(s: seq<nat>, i: nat, x: nat)
    requires i < |s|
    ensures Sum(s[i := x]) == Sum(s) - s[i] + x
  {
    var last := |s| - 1;
    if i < last {
      assert s[i := x][..last] == s[..last][i := x];
      SumUpdate(s[..last], i, x);
    } else {
      assert s[i := x][..last] == s[..last];
    }
  }

  lemma {:induction false} SumMonotone(s: seq<nat>, t: seq<nat>)
    requires |s| == |t| && forall i :: 0 <= i < |s| ==> s[i] <= t[i]
    ensures Sum(s) <= Sum(t)
  {
    if s != [] {
      SumMonotone(s[..|s| - 1], t[..|t| - 1]);
    }
  }

  lemma {:induction false} SumOfZeros(s: seq<nat>)
    requires forall i :: 0 <= i < |s| ==> s[i] == 0
    ensures Sum(s) == 0
  {
    if s != [] {
      SumOfZeros(s[..|s| - 1]);
    }
  }

  lemma {:induction false} SumBounds(s: seq<nat>, i: nat)
    requires i < |s|
    ensures s[i] <= Sum(s)
  {
    if i < |s| - 1 {
      SumBounds(s[..|s| - 1], i);
    }
  }

  // ---------------------------------------------------------------------------
  // The invariant of a run
  // ---------------------------------------------------------------------------

  /** Every shard owns the file of its number, and that file is what the shard thinks it is. */
  ghost predicate Running(shards: seq<Shard>, files: seq<SimFile>)
    reads shards
  {
    |files| == |shards| &&
    forall i :: 0 <= i < |shards| ==> shards[i].file == i && shards[i].Tracks(files[i])
  }

  // ---------------------------------------------------------------------------
  // Opening
  // ---------------------------------------------------------------------------

  lemma EmptyIsCut(f: SimFile)
    requires f.durable == [] && f.dirty == []
    ensures f.Content() == [] && CutJournal(f.Content())
  {
    hide Journal;
    assert Journal(0 / 13 + 1)[..0] == [];
  }

  /** `Shard::open`: create the file and recover what it holds, which is nothing. */
  method Open(id: u16, syncEvery: u64, io: SimIo) returns (r: Result<Shard, IoError>)
    requires io.Valid() && id !in io.byName
    modifies io
    ensures io.Valid()
    ensures |old(io.files)| >= 0x1_0000_0000 ==> r.Err?
    ensures |old(io.files)| < 0x1_0000_0000 ==> r.Ok?
    ensures r.Ok? ==> var s := r.value;
      && fresh(s) && s.file == |old(io.files)| && s.syncEvery == syncEvery
      && io.files == old(io.files) + [SimFile(id, [], [])]
      && io.byName == old(io.byName)[id := s.file]
      && s.Tracks(io.files[s.file]) && s.written == s.acked == s.sinceSync == 0
  {
    var created := io.Create(id);
    if created.Err? {
      return Err(created.error);
    }
    ghost var files := io.files;
    var s := new Shard(id, created.value, syncEvery);
    EmptyIsCut(io.files[s.file]);
    hide CutJournal, Journal, Encode, Shard.Tracks;
    var _ := s.Recover(io);
    assert io.files[s.file].durable == [] && io.files[s.file].dirty == [];
    assert io.files == files;
    return Ok(s);
  }

  ghost predicate Unused(shards: seq<Shard>, syncEvery: u64)
    reads shards
  {
    forall i :: 0 <= i < |shards| ==>
      shards[i].written == shards[i].acked == shards[i].sinceSync == 0 && shards[i].syncEvery == syncEvery
  }

  /** The shards opened so far. */
  ghost predicate Opening(shards: seq<Shard>, files: seq<SimFile>, byName: map<u16, nat>, syncEvery: u64)
    reads shards
  {
    Running(shards, files) && Unused(shards, syncEvery) && (forall name :: name in byName ==> name < |shards|) &&
    forall i :: 0 <= i < |files| ==> files[i].durable == []
  }

  lemma OneMore(shards: seq<Shard>, s: Shard, files: seq<SimFile>, f: SimFile, byName: map<u16, nat>)
    requires Opening(shards, files, byName, s.syncEvery) && |shards| < 0x1_0000
    requires s.file == |shards| && s.Tracks(f) && s.written == s.acked == s.sinceSync == 0 && f.durable == []
    ensures Opening(shards + [s], files + [f], byName[|shards| := s.file], s.syncEvery)
  {
    hide Journal, Encode;
  }

  method OpenNext(shards: seq<Shard>, syncEvery: u64, io: SimIo) returns (s: Shard)
    requires io.Valid() && |shards| < 0x1_0000 && Opening(shards, io.files, io.byName, syncEvery)
    modifies io
    ensures fresh(s) && io.Valid() && Opening(shards + [s], io.files, io.byName, syncEvery)
  {
    hide Journal, Encode, Shard.Tracks, SimIo.Valid;
    ghost var files, byName := io.files, io.byName;
    var r := Open(|shards|, syncEvery, io);
    s := r.value;
    OneMore(shards, s, files, SimFile(|shards|, [], []), byName);
  }

  method OpenAll(n: u16, syncEvery: u64, io: SimIo) returns (shards: seq<Shard>)
    requires io.Valid() && io.files == [] && io.byName == map[]
    modifies io
    ensures |shards| == n && fresh(set s | s in shards)
    ensures io.Valid() && Opening(shards, io.files, io.byName, syncEvery)
  {
    shards := [];
    assert Opening(shards, io.files, io.byName, syncEvery);
    hide *;
    for id := 0 to n
      invariant |shards| == id && fresh(set s | s in shards)
      invariant io.Valid()
      invariant Opening(shards, io.files, io.byName, syncEvery)
    {
      var s := OpenNext(shards, syncEvery, io);
      shards := shards + [s];
    }
  }

  // ---------------------------------------------------------------------------
  // A power cut
  // ---------------------------------------------------------------------------

  /** A shard at a power cut: its file, how many bytes of it were kept, and where the shard stood. */
  datatype Cut = Cut(before: SimFile, kept: nat, written: nat, promised: nat)

  /** How many of the first n shards had promised more than the surviving bytes cover. */
  function Lost(cuts: seq<Cut>, n: nat): nat
    requires n <= |cuts|
  {
    if n == 0 then 0 else Lost(cuts, n - 1) + if cuts[n - 1].kept < 13 * cuts[n - 1].promised then 1 else 0
  }

  /** Nothing is lost exactly when every promise is covered, and no shard is counted twice. */
  lemma {:induction false} NothingLost(cuts: seq<Cut>, n: nat)
    requires n <= |cuts|
    ensures Lost(cuts, n) <= n
    ensures Lost(cuts, n) == 0 <==> forall i :: 0 <= i < n ==> 13 * cuts[i].promised <= cuts[i].kept
  {
    if n > 0 {
      NothingLost(cuts, n - 1);
    }
  }

  /** What a power cut leaves of a tracked file recovers to no more than was written. */
  lemma CrashLeavesCut(s: Shard, f: SimFile, g: SimFile)
    requires s.Tracks(f)
    requires g.dirty == [] && g.durable <= f.Content()
    ensures CutJournal(g.Content()) && g.Content() == g.durable
    ensures |g.durable| / 13 <= s.written && s.acked <= s.written
  {
    var journal, rec := Journal(s.written), Encode(s.written + 1);
    assert Journal(s.written + 1) == journal + rec;
    assert f.Content() == journal + rec[..s.pendingDone] && g.Content() == g.durable + [];
    hide *;
    CutOfAppend(journal, rec, s.pendingDone, g.durable);
    assert g.durable + [] == g.durable;
    PrefixOfPrefix(g.durable, s.written + 1);
  }

  lemma CutOfAppend(a: Bytes, b: Bytes, n: nat, s: Bytes)
    requires n <= |b| && s <= a + b[..n]
    ensures |s| <= |a| + n && s == (a + b)[..|s|]
  {
  }

  /** One shard after a power cut, with its recovery: the durable bytes that were kept decide what is left. */
  method RecoverShard(s: Shard, io: SimIo, ghost f: SimFile) returns (r: Recovered)
    requires io.Valid() && s.file < |io.files| && s.Tracks(f) && s.written < W
    requires io.files[s.file].dirty == [] && io.files[s.file].durable <= f.Content()
    modifies s, io`files
    ensures io.Valid() && |io.files| == |old(io.files)|
    ensures forall i :: 0 <= i < |io.files| && i != s.file ==> io.files[i] == old(io.files)[i]
    ensures r.maxSeq == |old(io.files)[s.file].durable| / 13
    ensures s.written == r.maxSeq <= old(s.written)
    ensures s.acked == (if old(s.acked) < r.maxSeq then old(s.acked) else r.maxSeq)
    ensures s.Tracks(io.files[s.file]) && s.Promised(io.files[s.file])
    ensures s.recoveries == old(s.recoveries) + 1
    ensures io.files[s.file].durable <= old(io.files)[s.file].durable
  {
    hide Journal, Encode, CutJournal, SimIo.Valid;
    CrashLeavesCut(s, f, io.files[s.file]);
    r := s.Recover(io);
    s.NoteRecovery();
    assert io.files[s.file].dirty == [];
    RecoveredIsDurable(s, io.files[s.file]);
  }

  lemma RecoveredIsDurable(s: Shard, f: SimFile)
    requires s.Tracks(f) && f.dirty == []
    ensures s.Promised(f)
  {
  }

  function Acked(shards: seq<Shard>): (r: seq<nat>)
    reads shards
    ensures |r| == |shards|
    ensures forall i :: 0 <= i < |r| ==> r[i] == shards[i].acked
  {
    seq(|shards|, i requires 0 <= i < |shards| reads shards => shards[i].acked)
  }

  function Written(shards: seq<Shard>): (r: seq<nat>)
    reads shards
    ensures |r| == |shards|
    ensures forall i :: 0 <= i < |r| ==> r[i] == shards[i].written
  {
    seq(|shards|, i requires 0 <= i < |shards| reads shards => shards[i].written)
  }

  /** A shard that has to recover: of its file the durable bytes and some prefix of the rest are left. */
  ghost predicate Down(s: Shard, f: SimFile, c: Cut)
    reads s
  {
    && s.Tracks(c.before) && s.written == c.written < W && s.acked == c.promised
    && f.dirty == [] && c.before.durable <= f.durable <= c.before.Content() && |f.durable| == c.kept
  }

  /** A shard that has recovered: it holds the whole records that were kept, and promises no more than those. */
  ghost predicate Back(s: Shard, f: SimFile, c: Cut)
    reads s
  {
    && s.Tracks(f) && s.Promised(f) && |f.durable| <= c.kept
    && s.written == c.kept / 13 <= c.written
    && s.acked == if c.promised < c.kept / 13 then c.promised else c.kept / 13
  }

  /** One pass of the recovery loop. */
  method BringBack(s: Shard, io: SimIo, promised: nat, ghost c: Cut) returns (violated: bool)
    requires io.Valid() && s.file < |io.files| && Down(s, io.files[s.file], c) && promised == c.promised
    modifies s, io`files
    ensures io.Valid() && |io.files| == |old(io.files)|
    ensures io.files == old(io.files)[s.file := io.files[s.file]]
    ensures Back(s, io.files[s.file], c)
    ensures violated <==> c.kept < 13 * c.promised
    ensures s.recoveries == old(s.recoveries) + 1
  {
    assert s.Tracks(c.before) && s.written < W;
    hide Shard.Tracks, Shard.Promised;
    var r := RecoverShard(s, io, c.before);
    violated := r.maxSeq < promised;
  }

  /** The recovery loop: the first n shards are back, and the promises they broke are counted. */
  ghost predicate Recovering(shards: seq<Shard>, files: seq<SimFile>, cuts: seq<Cut>, n: nat, violations: nat)
    reads shards
  {
    n <= |shards| == |files| == |cuts| && violations == Lost(cuts, n) &&
    (forall j :: 0 <= j < |shards| ==> shards[j].file == j) &&
    (forall j :: 0 <= j < n ==> Back(shards[j], files[j], cuts[j])) &&
    (forall j :: n <= j < |shards| ==> Down(shards[j], files[j], cuts[j]))
  }

  predicate Matches(promised: seq<nat>, cuts: seq<Cut>) {
    |promised| == |cuts| && forall i :: 0 <= i < |cuts| ==> promised[i] == cuts[i].promised
  }

  method BringNext(shards: seq<Shard>, io: SimIo, n: nat, promised: seq<nat>, violations: nat, ghost cuts: seq<Cut>)
    returns (total: nat)
    requires io.Valid() && n < |shards| && Matches(promised, cuts)
    requires Recovering(shards, io.files, cuts, n, violations)
    modifies shards[n], io`files
    ensures io.Valid()
    ensures Recovering(shards, io.files, cuts, n + 1, total)
  {
    hide Back, Down, Shard.Tracks, Shard.Promised, SimIo.Valid;
    var violated := BringBack(shards[n], io, promised[n], cuts[n]);
    total := if violated then violations + 1 else violations;
  }

  method RecoverAll(shards: seq<Shard>, io: SimIo, promised: seq<nat>, ghost cuts: seq<Cut>)
    returns (violations: nat)
    requires io.Valid() && Matches(promised, cuts)
    requires Recovering(shards, io.files, cuts, 0, 0)
    modifies (set s | s in shards), io`files
    ensures io.Valid()
    ensures Recovering(shards, io.files, cuts, |shards|, violations)
  {
    violations := 0;
    hide *;
    var i := 0;
    while i < |shards|
      invariant 0 <= i <= |shards|
      invariant io.Valid()
      invariant Recovering(shards, io.files, cuts, i, violations)
    {
      violations := BringNext(shards, io, i, promised, violations, cuts);
      i := i + 1;
    }
  }

  /** How many bytes of a file a power cut keeps: the words drawn say. */
  function Kept(files: seq<SimFile>, i: nat, draw: nat -> u64, at: nat): nat
    requires i < |files|
  {
    |SimIo.Left(files[i], draw(at + SimIo.DirtyAmong(files, i))).durable|
  }

  /** A power cut that finds these files, with so many records acked and written, and the generator standing at
      `at`. */
  ghost predicate TheCuts(cuts: seq<Cut>, before: seq<SimFile>, acked: seq<nat>, written: seq<nat>,
                          draw: nat -> u64, at: nat)
  {
    |cuts| == |before| == |acked| == |written| &&
    forall i :: 0 <= i < |cuts| ==> cuts[i] == Cut(before[i], Kept(before, i, draw, at), written[i], acked[i])
  }

  /** The crash branch of `run`: cut the power, recover every shard, and count the broken promises. It counts one
      exactly where fewer bytes survived than the promised records take. */
  method CrashAll(shards: seq<Shard>, io: SimIo) returns (violations: nat, ghost cuts: seq<Cut>)
    requires io.Valid() && Running(shards, io.files)
    requires forall i :: 0 <= i < |shards| ==> shards[i].written < W
    modifies (set s | s in shards), io`files, io`crashes, io.rng
    ensures io.Valid() && |io.files| == |shards|
    ensures TheCuts(cuts, old(io.files), old(Acked(shards)), old(Written(shards)), io.rng.draw, old(io.rng.at))
    ensures Recovering(shards, io.files, cuts, |shards|, violations)
  {
    hide Shard.Tracks, SimIo.Valid, Back, SimIo.Left, SimIo.DirtyAmong;
    var promised := Acked(shards);
    ghost var before := io.files;
    io.Crash();
    cuts := CutsOf(shards, before, io.files);
    violations := RecoverAll(shards, io, promised, cuts);
  }

  ghost function CutsOf(shards: seq<Shard>, before: seq<SimFile>, after: seq<SimFile>): (r: seq<Cut>)
    requires |before| == |after| == |shards|
    reads shards
    ensures |r| == |shards|
    ensures forall i :: 0 <= i < |r| ==>
      r[i] == Cut(before[i], |after[i].durable|, shards[i].written, shards[i].acked)
  {
    seq(|shards|, i requires 0 <= i < |shards| reads shards =>
      Cut(before[i], |after[i].durable|, shards[i].written, shards[i].acked))
  }

  // ---------------------------------------------------------------------------
  // What the words drawn say
  // ---------------------------------------------------------------------------

  /** Words drawn in a step for its power cut: one, unless the step is the configured one or no rate is set. */
  function CrashDraws(cfg: SimConfig, step: nat): nat {
    if cfg.crashAt == Some(step) || cfg.crashPpm == 0 then 0 else 1
  }

  /** Words drawn in the first n steps: one a step for the shard, and those for the power cuts. */
  function Drawn(cfg: SimConfig, n: nat): nat {
    if n == 0 then 0 else Drawn(cfg, n - 1) + 1 + CrashDraws(cfg, n)
  }

  /** The shard whose turn a step is. Steps are numbered from one. */
  function Chosen(cfg: SimConfig, draw: nat -> u64, step: nat): (which: nat)
    requires cfg.shards > 0 && step > 0
    ensures which < cfg.shards
  {
    draw(Drawn(cfg, step - 1)) % cfg.shards
  }

  /** Whether a step ends in a power cut: the configured one does, and any whose word is a hit. */
  predicate CrashesAt(cfg: SimConfig, draw: nat -> u64, step: nat)
    requires step > 0
  {
    cfg.crashAt == Some(step) || Hits(draw(Drawn(cfg, step - 1) + 1), cfg.crashPpm)
  }

  function CrashCount(cfg: SimConfig, draw: nat -> u64, n: nat): nat {
    if n == 0 then 0 else CrashCount(cfg, draw, n - 1) + if CrashesAt(cfg, draw, n) then 1 else 0
  }

  /** How many turns each shard had in the first n steps. */
  function Turns(cfg: SimConfig, draw: nat -> u64, n: nat): (r: seq<nat>)
    ensures |r| == cfg.shards
  {
    if n == 0 || cfg.shards == 0 then seq(cfg.shards, _ => 0)
    else
      var before, which := Turns(cfg, draw, n - 1), Chosen(cfg, draw, n);
      before[which := before[which] + 1]
  }

  /** What a flush every so many records covers of this many. */
  function Every(syncEvery: nat): (e: nat)
    ensures e > 0
  {
    if syncEvery == 0 then 1 else syncEvery
  }

  function Flushed(count: nat, syncEvery: nat): (r: nat)
    ensures r <= count
  {
    DivIdentity(count, Every(syncEvery));
    count - count % Every(syncEvery)
  }

  function AllFlushed(counts: seq<nat>, syncEvery: nat): (r: seq<nat>)
    ensures |r| == |counts|
    ensures forall i :: 0 <= i < |r| ==> r[i] == Flushed(counts[i], syncEvery)
  {
    seq(|counts|, i requires 0 <= i < |counts| => Flushed(counts[i], syncEvery))
  }

  /** One record more is covered by a flush when it makes `syncEvery` of them, and waits when it does not. */
  lemma NextFlush(count: nat, syncEvery: nat)
    ensures var e, waiting := Every(syncEvery), count % Every(syncEvery) + 1;
      && (waiting >= syncEvery ==> Flushed(count + 1, syncEvery) == count + 1 && (count + 1) % e == 0)
      && (waiting < syncEvery ==> Flushed(count + 1, syncEvery) == Flushed(count, syncEvery)
                                  && (count + 1) % e == waiting)
  {
    var e := Every(syncEvery);
    DivIdentity(count, e);
    if count % e + 1 >= syncEvery {
      ModUnique(count + 1, count / e + 1, 0, e);
    } else {
      ModUnique(count + 1, count / e, count % e + 1, e);
    }
  }

  // ---------------------------------------------------------------------------
  // The run
  // ---------------------------------------------------------------------------

  /** What is known of a run from its configuration. An honest disk never lies about a flush. In a healthy run nothing
      ever fails. On a doomed disk every flush lies and a power cut keeps no byte that is not durable. */
  datatype Mode = Mode(honest: bool, healthy: bool, doomed: bool)

  predicate NoFaults(f: IoFaults) {
    f.shortWritePpm == f.lyingFsyncPpm == f.fsyncErrorPpm == f.noSpacePpm == 0
  }

  ghost predicate AlwaysLies(f: IoFaults, draw: nat -> u64) {
    f.shortWritePpm == f.fsyncErrorPpm == f.noSpacePpm == 0 && f.lyingFsyncPpm >= 1_000_000 && forall n :: draw(n) == 0
  }

  ghost predicate Fits(mode: Mode, io: SimIo)
  {
    && (mode.honest ==> io.Honest()) && (mode.healthy ==> NoFaults(io.faults))
    && (mode.doomed ==> AlwaysLies(io.faults, io.rng.draw))
  }

  /** One shard between steps. On an honest disk everything acked is durable. While nothing ever fails, what is acked
      is what the flushes cover. On a doomed disk nothing is durable and everything is acked. */
  ghost predicate Good(s: Shard, f: SimFile, count: nat, mode: Mode)
    reads s
  {
    && s.Tracks(f) && s.written == count && s.acked <= s.written
    && (mode.honest ==> s.Promised(f))
    && (mode.healthy ==> s.acked == Flushed(count, s.syncEvery) && s.sinceSync == count % Every(s.syncEvery))
    && (mode.doomed ==> f.durable == [] && s.acked == s.written && s.syncEvery <= 1)
  }

  /** All shards between steps. */
  ghost predicate Fleet(shards: seq<Shard>, files: seq<SimFile>, counts: seq<nat>, mode: Mode)
    reads shards
  {
    && |files| == |counts| == |shards|
    && (forall i :: 0 <= i < |shards| ==> shards[i].file == i)
    && (forall i :: 0 <= i < |shards| ==> Good(shards[i], files[i], counts[i], mode))
  }

  /** A shard takes its turn. */
  method Turn(s: Shard, io: SimIo, ghost count: nat, ghost mode: Mode)
    requires io.Valid() && s.file < |io.files| && Good(s, io.files[s.file], count, mode)
    requires count + 1 < W && Fits(mode, io)
    modifies s, io`files, io`fsyncs, io`fsyncErrors, io.rng
    ensures io.Valid() && |io.files| == |old(io.files)|
    ensures io.files == old(io.files)[s.file := io.files[s.file]]
    ensures s.written == count || s.written == count + 1
    ensures mode.healthy || mode.doomed ==> s.written == count + 1
    ensures mode.doomed ==> s.acked == s.written
    ensures Good(s, io.files[s.file], s.written, mode)
  {
    assert mode.honest ==> 13 * s.acked <= |io.files[s.file].durable|;
    NextFlush(count, s.syncEvery);
    hide Shard.Tracks, Shard.Promised, SimIo.Valid, Flushed, Every;
    var _ := s.Tick(io);
  }

  /** A power cut between steps, and what it broke: on an honest disk nothing, on a doomed one some promise. */
  method Outage(shards: seq<Shard>, io: SimIo, ghost counts: seq<nat>, ghost mode: Mode, ghost which: nat)
    returns (violations: nat, ghost now: seq<nat>, ghost cuts: seq<Cut>)
    requires io.Valid() && Fleet(shards, io.files, counts, mode) && !mode.healthy && Fits(mode, io)
    requires Sum(counts) < W && which < |shards| && (mode.doomed ==> shards[which].acked > 0)
    modifies (set s | s in shards), io, io.rng
    ensures io.Valid() && Fleet(shards, io.files, now, mode)
    ensures |now| == |counts| && Sum(now) <= Sum(counts)
    ensures violations == Lost(cuts, |cuts|)
    ensures TheCuts(cuts, old(io.files), old(Acked(shards)), counts, io.rng.draw, old(io.rng.at))
    ensures OneOutage(cuts, |shards|)
    ensures mode.honest ==> violations == 0
    ensures mode.doomed ==> violations > 0
  {
    ghost var files, acked := io.files, Acked(shards);
    FleetRuns(shards, files, counts, mode);
    assert mode.doomed ==> forall n :: io.rng.draw(n) == 0;
    hide *;
    violations, cuts := CrashAll(shards, io);
    Broken(cuts, files, acked, counts, io.rng.draw, old(io.rng.at), mode, which);
    now := FleetBack(shards, io.files, cuts, violations, mode);
    CutsShrink(cuts, files, acked, counts, io.rng.draw, old(io.rng.at), now);
  }

  /** What is known of one power cut: every shard's file is there, and what was kept of it is within bounds. */
  ghost predicate OneOutage(cuts: seq<Cut>, shards: nat) {
    |cuts| == shards &&
    forall i :: 0 <= i < |cuts| ==> |cuts[i].before.durable| <= cuts[i].kept <= |cuts[i].before.Content()|
  }

  /** What a power cut breaks: nothing when everything acked is durable, and every promise when nothing is durable
      and the words keep nothing more. */
  lemma Broken(cuts: seq<Cut>, before: seq<SimFile>, acked: seq<nat>, written: seq<nat>,
               draw: nat -> u64, at: nat, mode: Mode, which: nat)
    requires TheCuts(cuts, before, acked, written, draw, at)
    requires mode.honest ==> Covered(before, acked)
    requires mode.doomed ==> NothingDurable(before) && (forall n :: draw(n) == 0)
    requires which < |acked| && (mode.doomed ==> acked[which] > 0)
    ensures OneOutage(cuts, |before|)
    ensures mode.honest ==> Lost(cuts, |cuts|) == 0
    ensures mode.doomed ==> Lost(cuts, |cuts|) > 0 && AllGone(cuts)
  {
    forall i | 0 <= i < |cuts|
      ensures |cuts[i].before.durable| <= cuts[i].kept <= |cuts[i].before.Content()|
      ensures mode.doomed ==> cuts[i].kept == 0
    {
      KeptBounds(before, i, draw, at);
    }
    hide Kept, Lost, SimFile.Content;
    NothingLost(cuts, |cuts|);
  }

  lemma KeptBounds(files: seq<SimFile>, i: nat, draw: nat -> u64, at: nat)
    requires i < |files|
    ensures |files[i].durable| <= Kept(files, i, draw, at) <= |files[i].Content()|
    ensures files[i].durable == [] && (forall n :: draw(n) == 0) ==> Kept(files, i, draw, at) == 0
  {
    var word := draw(at + SimIo.DirtyAmong(files, i));
    SimIo.LeftIsPrefix(files[i], word);
    assert 0 % SimIo.KeepBound(files[i].dirty) == 0;
  }

  ghost predicate Covered(files: seq<SimFile>, acked: seq<nat>) {
    |files| == |acked| && forall i :: 0 <= i < |files| ==> 13 * acked[i] <= |files[i].durable|
  }

  ghost predicate NothingDurable(files: seq<SimFile>) {
    forall i :: 0 <= i < |files| ==> files[i].durable == []
  }

  ghost predicate AllGone(cuts: seq<Cut>) {
    forall i :: 0 <= i < |cuts| ==> cuts[i].kept == 0
  }

  /** Shards that flush after every record. */
  ghost predicate Prompt(shards: seq<Shard>) {
    forall i :: 0 <= i < |shards| ==> shards[i].syncEvery <= 1
  }

  lemma FleetRuns(shards: seq<Shard>, files: seq<SimFile>, counts: seq<nat>, mode: Mode)
    requires Fleet(shards, files, counts, mode) && Sum(counts) < W
    ensures Running(shards, files) && |files| == |counts| == |shards|
    ensures Written(shards) == counts && forall i :: 0 <= i < |shards| ==> shards[i].written < W
    ensures mode.honest ==> Covered(files, Acked(shards))
    ensures mode.doomed ==> NothingDurable(files) && Prompt(shards)
  {
    hide Shard.Tracks, Sum, Flushed, Every;
    forall i | 0 <= i < |counts|
      ensures counts[i] <= Sum(counts)
    {
      SumBounds(counts, i);
    }
  }

  lemma FleetBack(shards: seq<Shard>, files: seq<SimFile>, cuts: seq<Cut>, violations: nat, mode: Mode)
    returns (now: seq<nat>)
    requires Recovering(shards, files, cuts, |shards|, violations) && !mode.healthy
    requires mode.doomed ==> AllGone(cuts) && Prompt(shards)
    ensures Fleet(shards, files, now, mode) && violations == Lost(cuts, |cuts|)
    ensures |cuts| == |now| == |shards| && forall i :: 0 <= i < |now| ==> now[i] == cuts[i].kept / 13 <= cuts[i].written
  {
    now := seq(|cuts|, i requires 0 <= i < |cuts| => cuts[i].kept / 13);
    forall i | 0 <= i < |shards|
      ensures Good(shards[i], files[i], now[i], mode)
      ensures now[i] <= cuts[i].written
    {
      BackIsGood(shards[i], files[i], cuts[i], mode);
    }
    hide Back, Good, Lost;
  }

  lemma BackIsGood(s: Shard, f: SimFile, c: Cut, mode: Mode)
    requires Back(s, f, c) && !mode.healthy && (mode.doomed ==> c.kept == 0 && s.syncEvery <= 1)
    ensures Good(s, f, c.kept / 13, mode) && c.kept / 13 <= c.written
  {
    hide Shard.Tracks, Shard.Promised, Flushed, Every;
  }

  lemma CutsShrink(cuts: seq<Cut>, before: seq<SimFile>, acked: seq<nat>, written: seq<nat>,
                   draw: nat -> u64, at: nat, now: seq<nat>)
    requires TheCuts(cuts, before, acked, written, draw, at) && |now| == |cuts|
    requires forall i :: 0 <= i < |now| ==> now[i] <= cuts[i].written
    ensures |now| == |written| && Sum(now) <= Sum(written)
  {
    SumMonotone(now, written);
  }

  /** Broken promises over all power cuts of a run. */
  function AllLost(outages: seq<seq<Cut>>): nat {
    if outages == [] then 0
    else
      var last := |outages| - 1;
      AllLost(outages[..last]) + Lost(outages[last], |outages[last]|)
  }

  lemma {:induction false} AllLostBound(outages: seq<seq<Cut>>, shards: nat)
    requires forall k :: 0 <= k < |outages| ==> OneOutage(outages[k], shards)
    ensures AllLost(outages) <= |outages| * shards
  {
    if outages != [] {
      var last := |outages| - 1;
      var cuts := outages[last];
      assert |cuts| == shards;
      AllLostBound(outages[..last], shards);
      NothingLost(cuts, shards);
      assert AllLost(outages) == AllLost(outages[..last]) + Lost(cuts, shards);
      hide *;
      assert |outages| * shards == last * shards + shards;
    }
  }

  lemma AllLostNext(outages: seq<seq<Cut>>, cuts: seq<Cut>)
    ensures AllLost(outages + [cuts]) == AllLost(outages) + Lost(cuts, |cuts|)
  {
    assert (outages + [cuts])[..|outages|] == outages;
  }

  /** One shard's turn as part of the fleet. */
  method FleetTurn(shards: seq<Shard>, io: SimIo, which: nat, ghost counts: seq<nat>, ghost mode: Mode)
    requires io.Valid() && Fleet(shards, io.files, counts, mode)
    requires which < |shards| == |counts| && counts[which] + 1 < W && Fits(mode, io)
    modifies shards[which], io`files, io`fsyncs, io`fsyncErrors, io.rng
    ensures io.Valid()
    ensures Fleet(shards, io.files, counts[which := shards[which].written], mode)
    ensures shards[which].written == counts[which] || shards[which].written == counts[which] + 1
    ensures mode.healthy || mode.doomed ==> shards[which].written == counts[which] + 1
    ensures mode.doomed ==> shards[which].acked == shards[which].written
  {
    hide Good, NoFaults, AlwaysLies, SimIo.Valid, SimIo.Honest;
    Turn(shards[which], io, counts[which], mode);
  }

  /** The pass of the loop of `run` that has a shard take its turn. */
  method RunShard(shards: seq<Shard>, io: SimIo, which: nat, ghost counts: seq<nat>, ghost mode: Mode)
    returns (ghost now: seq<nat>)
    requires io.Valid() && Fleet(shards, io.files, counts, mode)
    requires which < |shards| == |counts| && Sum(counts) + 1 < W && Fits(mode, io)
    modifies (set s | s in shards), io, io.rng
    ensures io.Valid() && |now| == |shards|
    ensures Fleet(shards, io.files, now, mode)
    ensures now == counts || now == counts[which := counts[which] + 1]
    ensures Sum(now) <= Sum(counts) + 1
    ensures mode.healthy || mode.doomed ==>
      now == counts[which := counts[which] + 1] && Sum(now) == Sum(counts) + 1
    ensures mode.doomed ==> shards[which].acked > 0
  {
    hide *;
    SumBounds(counts, which);
    FleetTurn(shards, io, which, counts, mode);
    SumUpdate(counts, which, shards[which].written);
    now := counts[which := shards[which].written];
  }

  /** Is there a power cut at the end of this step? */
  method CrashNow(cfg: SimConfig, step: nat, rng: SimRng) returns (now: bool)
    requires 1 <= step <= cfg.steps
    modifies rng
    ensures now <==> cfg.crashAt == Some(step) || Hits(rng.draw(old(rng.at)), cfg.crashPpm)
    ensures rng.at == old(rng.at) + if cfg.crashAt == Some(step) || cfg.crashPpm == 0 then 0 else 1
  {
    now := cfg.crashAt == Some(step);
    if !now && cfg.crashPpm > 0 {
      now := rng.ChancePpm(cfg.crashPpm);
    }
  }

  predicate CrashFree(cfg: SimConfig) {
    cfg.crashPpm == 0 && (cfg.crashAt == None || cfg.crashAt == Some(0) || cfg.crashAt.value > cfg.steps)
  }

  lemma NoCrash(cfg: SimConfig, draw: nat -> u64, step: nat)
    requires 0 < step <= cfg.steps
    ensures CrashFree(cfg) ==> !CrashesAt(cfg, draw, step)
  {
  }

  lemma {:induction false} NoCrashes(cfg: SimConfig, draw: nat -> u64, n: nat)
    requires CrashFree(cfg) && n <= cfg.steps
    ensures CrashCount(cfg, draw, n) == 0
  {
    if n > 0 {
      NoCrashes(cfg, draw, n - 1);
    }
  }

  lemma {:induction false} CrashCountBound(cfg: SimConfig, draw: nat -> u64, n: nat)
    ensures CrashCount(cfg, draw, n) <= n
  {
    if n > 0 {
      CrashCountBound(cfg, draw, n - 1);
    }
  }

  /** The counters of a run after some steps, and what each power cut left. */
  datatype Tally = Tally(step: nat, crashes: nat, violations: nat, outages: seq<seq<Cut>>)

  /** What the counters say: a power cut in every step that calls for one, and as many violations as promises were
      broken by those. */
  ghost predicate Books(cfg: SimConfig, draw: nat -> u64, t: Tally, mode: Mode) {
    && t.crashes == |t.outages| == CrashCount(cfg, draw, t.step)
    && t.violations == AllLost(t.outages)
    && (forall k :: 0 <= k < |t.outages| ==> OneOutage(t.outages[k], cfg.shards))
    && (mode.honest ==> t.violations == 0)
    && (mode.doomed ==> t.crashes <= t.violations)
  }

  /** How many records each shard wrote in so many steps. */
  ghost predicate Counted(cfg: SimConfig, draw: nat -> u64, counts: seq<nat>, step: nat, mode: Mode) {
    && |counts| == cfg.shards && Sum(counts) <= step
    && (mode.healthy ==> Sum(counts) == step && counts == Turns(cfg, draw, step))
  }

  /** What `run` knows after some steps. */
  ghost predicate OnTrack(cfg: SimConfig, draw: nat -> u64, shards: seq<Shard>, files: seq<SimFile>,
                          counts: seq<nat>, t: Tally, mode: Mode)
    reads shards
  {
    Fleet(shards, files, counts, mode) && Counted(cfg, draw, counts, t.step, mode) && Books(cfg, draw, t, mode)
  }

  /** The clean start. */
  lemma FleetStarts(cfg: SimConfig, draw: nat -> u64, shards: seq<Shard>, files: seq<SimFile>, byName: map<u16, nat>,
                    mode: Mode)
    returns (counts: seq<nat>)
    requires Opening(shards, files, byName, cfg.syncEvery) && |shards| == cfg.shards
    requires mode.doomed ==> cfg.syncEvery <= 1
    ensures OnTrack(cfg, draw, shards, files, counts, Tally(0, 0, 0, []), mode)
    ensures forall i :: 0 <= i < |shards| ==> shards[i].syncEvery == cfg.syncEvery
  {
    hide Shard.Tracks;
    counts := seq(|shards|, i requires 0 <= i < |shards| => 0);
    SumOfZeros(counts);
  }

  /** The pass that ends with a power cut. */
  lemma AfterOutage(cfg: SimConfig, draw: nat -> u64, t: Tally, lost: nat, cuts: seq<Cut>, mode: Mode)
    requires Books(cfg, draw, t, mode) && CrashesAt(cfg, draw, t.step + 1)
    requires lost == Lost(cuts, |cuts|) && OneOutage(cuts, cfg.shards)
    requires (mode.honest ==> lost == 0) && (mode.doomed ==> lost > 0)
    ensures Books(cfg, draw, Tally(t.step + 1, t.crashes + 1, t.violations + lost, t.outages + [cuts]), mode)
  {
    hide CrashesAt, OneOutage, Lost, AllLost;
    AllLostNext(t.outages, cuts);
  }

  /** The pass that does not. */
  lemma AfterTurn(cfg: SimConfig, draw: nat -> u64, t: Tally, mode: Mode)
    requires Books(cfg, draw, t, mode) && !CrashesAt(cfg, draw, t.step + 1)
    ensures Books(cfg, draw, t.(step := t.step + 1), mode)
  {
    hide CrashesAt, OneOutage, AllLost;
  }

  /** The turn of the shard the word says, for the counts. */
  lemma CountedTurn(cfg: SimConfig, draw: nat -> u64, before: seq<nat>, counts: seq<nat>, step: nat, mode: Mode)
    requires Counted(cfg, draw, before, step, mode) && |counts| == cfg.shards > 0 && Sum(counts) <= Sum(before) + 1
    requires mode.healthy ==>
      var which := Chosen(cfg, draw, step + 1);
      counts == before[which := before[which] + 1] && Sum(counts) == Sum(before) + 1
    ensures Counted(cfg, draw, counts, step + 1, mode)
  {
    hide Sum, Chosen;
  }

  lemma CountsFall(cfg: SimConfig, draw: nat -> u64, before: seq<nat>, counts: seq<nat>, step: nat, mode: Mode)
    requires Counted(cfg, draw, before, step, mode) && |counts| == |before| && Sum(counts) <= Sum(before)
    requires !mode.healthy
    ensures Counted(cfg, draw, counts, step, mode)
  {
    hide Sum, Turns;
  }

  /** The turn of a pass: the shard the word says. */
  method TakeTurn(cfg: SimConfig, shards: seq<Shard>, io: SimIo, rng: SimRng, ghost counts: seq<nat>,
                  ghost step: nat, ghost mode: Mode)
    returns (ghost now: seq<nat>, ghost which: nat)
    requires io.Valid() && rng != io.rng && |shards| == cfg.shards > 0 && step < cfg.steps
    requires Fleet(shards, io.files, counts, mode) && Counted(cfg, rng.draw, counts, step, mode)
    requires rng.at == Drawn(cfg, step) && Fits(mode, io)
    modifies (set s | s in shards), io, io.rng, rng
    ensures io.Valid() && rng.at == Drawn(cfg, step) + 1
    ensures Fleet(shards, io.files, now, mode) && Counted(cfg, rng.draw, now, step + 1, mode)
    ensures which < |shards| && (mode.doomed ==> shards[which].acked > 0)
  {
    hide *;
    NoOverflow(cfg, rng.draw, counts, step, mode);
    ChosenIs(cfg, rng.draw, step);
    var w := rng.Below(cfg.shards);
    which := w;
    now := RunShard(shards, io, w, counts, mode);
    CountedTurn(cfg, rng.draw, counts, now, step, mode);
  }

  lemma Together(cfg: SimConfig, draw: nat -> u64, shards: seq<Shard>, files: seq<SimFile>, counts: seq<nat>,
                 t: Tally, mode: Mode)
    requires Fleet(shards, files, counts, mode) && Counted(cfg, draw, counts, t.step, mode) && Books(cfg, draw, t, mode)
    ensures OnTrack(cfg, draw, shards, files, counts, t, mode)
  {
  }

  lemma Apart(cfg: SimConfig, draw: nat -> u64, shards: seq<Shard>, files: seq<SimFile>, counts: seq<nat>,
              t: Tally, mode: Mode)
    requires OnTrack(cfg, draw, shards, files, counts, t, mode)
    ensures Fleet(shards, files, counts, mode) && Counted(cfg, draw, counts, t.step, mode) && Books(cfg, draw, t, mode)
  {
  }

  lemma NoOverflow(cfg: SimConfig, draw: nat -> u64, counts: seq<nat>, step: nat, mode: Mode)
    requires Counted(cfg, draw, counts, step, mode) && step <= cfg.steps
    ensures |counts| == cfg.shards && Sum(counts) < W && (step < cfg.steps ==> Sum(counts) + 1 < W)
  {
  }

  lemma ChosenIs(cfg: SimConfig, draw: nat -> u64, step: nat)
    requires cfg.shards > 0
    ensures Chosen(cfg, draw, step + 1) == draw(Drawn(cfg, step)) % cfg.shards
  {
  }

  lemma CrashesIs(cfg: SimConfig, draw: nat -> u64, step: nat)
    ensures CrashesAt(cfg, draw, step + 1) <==>
      cfg.crashAt == Some(step + 1) || Hits(draw(Drawn(cfg, step) + 1), cfg.crashPpm)
    ensures Drawn(cfg, step + 1)
         == Drawn(cfg, step) + 1 + if cfg.crashAt == Some(step + 1) || cfg.crashPpm == 0 then 0 else 1
  {
  }

  /** One pass of the loop: the shard the word says takes its turn, and the power is cut when the step or the next
      word says so; then what was lost is added. */
  method Step(cfg: SimConfig, shards: seq<Shard>, io: SimIo, rng: SimRng, step: nat, crashes: nat, violations: nat,
              ghost counts: seq<nat>, ghost t: Tally, ghost mode: Mode)
    returns (crashes': nat, violations': nat, ghost counts': seq<nat>, ghost t': Tally)
    requires io.Valid() && rng != io.rng && |shards| == cfg.shards > 0 && step < cfg.steps
    requires t.step == step && t.crashes == crashes && t.violations == violations
    requires OnTrack(cfg, rng.draw, shards, io.files, counts, t, mode) && rng.at == Drawn(cfg, step)
    requires Fits(mode, io) && (mode.healthy ==> CrashFree(cfg))
    modifies (set s | s in shards), io, io.rng, rng
    ensures t'.step == step + 1 && t'.crashes == crashes' && t'.violations == violations'
    ensures io.Valid() && rng.at == Drawn(cfg, step + 1)
    ensures OnTrack(cfg, rng.draw, shards, io.files, counts', t', mode)
  {
    hide *;
    Apart(cfg, rng.draw, shards, io.files, counts, t, mode);
    CrashesIs(cfg, rng.draw, step);
    NoCrash(cfg, rng.draw, step + 1);
    ghost var now, which := TakeTurn(cfg, shards, io, rng, counts, step, mode);
    var crashNow := CrashNow(cfg, step + 1, rng);
    if crashNow {
      NoOverflow(cfg, rng.draw, now, step + 1, mode);
      var lost;
      ghost var left, cuts;
      lost, left, cuts := Outage(shards, io, now, mode, which);
      AfterOutage(cfg, rng.draw, t, lost, cuts, mode);
      CountsFall(cfg, rng.draw, now, left, step + 1, mode);
      crashes', violations', counts' := crashes + 1, violations + lost, left;
      t' := Tally(step + 1, crashes', violations', t.outages + [cuts]);
    } else {
      AfterTurn(cfg, rng.draw, t, mode);
      crashes', violations', counts', t' := crashes, violations, now, t.(step := step + 1);
    }
    Together(cfg, rng.draw, shards, io.files, counts', t', mode);
  }

  lemma NothingDrawn(cfg: SimConfig)
    ensures Drawn(cfg, 0) == 0
  {
  }

  /** The loop of `run`, for any words the generators draw. */
  method Steps(cfg: SimConfig, shards: seq<Shard>, io: SimIo, rng: SimRng, ghost start: seq<nat>, ghost mode: Mode)
    returns (crashes: nat, violations: nat, ghost counts: seq<nat>, ghost t: Tally)
    requires io.Valid() && rng != io.rng && rng.at == Drawn(cfg, 0)
    requires |shards| == cfg.shards && (cfg.shards > 0 || cfg.steps == 0)
    requires OnTrack(cfg, rng.draw, shards, io.files, start, Tally(0, 0, 0, []), mode)
    requires Fits(mode, io) && (mode.healthy ==> CrashFree(cfg))
    modifies (set s | s in shards), io, io.rng, rng
    ensures io.Valid() && t.step == cfg.steps && t.crashes == crashes && t.violations == violations
    ensures OnTrack(cfg, rng.draw, shards, io.files, counts, t, mode)
  {
    hide *;
    crashes, violations, counts, t := 0, 0, start, Tally(0, 0, 0, []);
    var step := 0;
    while step < cfg.steps
      invariant 0 <= step <= cfg.steps && t.step == step && t.crashes == crashes && t.violations == violations
      invariant io.Valid() && rng.at == Drawn(cfg, step)
      invariant OnTrack(cfg, rng.draw, shards, io.files, counts, t, mode)
    {
      crashes, violations, counts, t := Step(cfg, shards, io, rng, step, crashes, violations, counts, t, mode);
      step := step + 1;
    }
  }

  function Lag(syncEvery: nat): nat {
    if syncEvery == 0 then 0 else syncEvery - 1
  }

  lemma {:induction false} SumLag(s: seq<nat>, t: seq<nat>, lag: nat)
    requires |s| == |t| && forall i :: 0 <= i < |s| ==> t[i] <= s[i] + lag
    ensures Sum(t) <= Sum(s) + |s| * lag
  {
    if s != [] {
      SumLag(s[..|s| - 1], t[..|t| - 1], lag);
    }
  }

  /** What the totals of a run come to. While nothing fails, the shards wrote a record at each of their turns, and
      acked what a flush every `syncEvery` records covers: all but less than `syncEvery` of a shard. */
  lemma FleetTotals(cfg: SimConfig, draw: nat -> u64, shards: seq<Shard>, files: seq<SimFile>, counts: seq<nat>,
                    mode: Mode, written: seq<nat>, acked: seq<nat>)
    requires Fleet(shards, files, counts, mode) && Counted(cfg, draw, counts, cfg.steps, mode)
    requires forall i :: 0 <= i < |shards| ==> shards[i].syncEvery == cfg.syncEvery
    requires |written| == |acked| == |shards|
    requires forall i :: 0 <= i < |shards| ==> written[i] == shards[i].written && acked[i] == shards[i].acked
    ensures Sum(acked) <= Sum(written) <= cfg.steps
    ensures mode.healthy ==>
      && Sum(written) == cfg.steps
      && Sum(acked) == Sum(AllFlushed(Turns(cfg, draw, cfg.steps), cfg.syncEvery))
      && Sum(written) <= Sum(acked) + cfg.shards * Lag(cfg.syncEvery)
  {
    hide Shard.Tracks, Shard.Promised, Sum, Turns;
    assert forall i :: 0 <= i < |shards| ==> Good(shards[i], files[i], counts[i], mode);
    assert written == counts;
    SumMonotone(acked, written);
    if mode.healthy {
      assert acked == AllFlushed(counts, cfg.syncEvery);
      SumLag(acked, written, Lag(cfg.syncEvery));
    }
  }

  /** `shards.iter().map(…).sum()`. */
  method Total(s: seq<nat>) returns (sum: nat)
    ensures sum == Sum(s)
  {
    sum := 0;
    for i := 0 to |s|
      invariant sum == Sum(s[..i])
    {
      assert s[..i + 1][..i] == s[..i];
      sum := sum + s[i];
    }
    assert s[..|s|] == s;
  }

  /** What a report says of a run: one power cut in every step that the configuration or the word drawn says, and as
      many violations as those cuts broke promises. While no flush lies there are none. While nothing fails and no
      power is cut, the totals are those of the turns the words gave each shard. On a disk whose every flush lies and
      whose power cuts keep nothing, every power cut breaks a promise. */
  ghost predicate Accounts(cfg: SimConfig, draw: nat -> u64, ioDraw: nat -> u64, report: Report,
                           outages: seq<seq<Cut>>)
  {
    && report.crashes == |outages| == CrashCount(cfg, draw, cfg.steps)
    && report.durabilityViolations == AllLost(outages)
    && (forall k :: 0 <= k < |outages| ==> OneOutage(outages[k], cfg.shards))
    && (cfg.ioFaults.lyingFsyncPpm == 0 ==> report.durabilityViolations == 0)
    && (AlwaysLies(cfg.ioFaults, ioDraw) && cfg.syncEvery <= 1 ==> report.crashes <= report.durabilityViolations)
    && (NoFaults(cfg.ioFaults) && CrashFree(cfg) ==>
      && report.writtenTotal == cfg.steps
      && report.ackedTotal == Sum(AllFlushed(Turns(cfg, draw, cfg.steps), cfg.syncEvery)))
  }

  /** `run`, short of messages and traces: for every configuration and all the words the generators draw. */
  method Run(cfg: SimConfig, draw: nat -> u64, ioDraw: nat -> u64)
    returns (report: Report, ghost outages: seq<seq<Cut>>)
    requires cfg.shards > 0 || cfg.steps == 0
    ensures Accounts(cfg, draw, ioDraw, report, outages)
    ensures report.durabilityViolations <= report.crashes * cfg.shards && report.crashes <= cfg.steps
    ensures CrashFree(cfg) ==> report.crashes == 0
    ensures report.ackedTotal <= report.writtenTotal <= cfg.steps
    ensures NoFaults(cfg.ioFaults) && CrashFree(cfg) ==>
      report.writtenTotal <= report.ackedTotal + cfg.shards * Lag(cfg.syncEvery)
  {
    var rng := new SimRng(draw);
    var ioRng := new SimRng(ioDraw);
    var io := new SimIo(ioRng, cfg.ioFaults);
    ghost var mode := ModeOf(cfg, ioDraw);
    FitsItsDisk(cfg, ioDraw, io);
    hide *;
    var shards := OpenAll(cfg.shards, cfg.syncEvery, io);
    ghost var counts := FleetStarts(cfg, draw, shards, io.files, io.byName, mode);
    var crashes, violations;
    ghost var t;
    NothingDrawn(cfg);
    crashes, violations, counts, t := Steps(cfg, shards, io, rng, counts, mode);
    outages := t.outages;
    Apart(cfg, draw, shards, io.files, counts, t, mode);
    var acked, written := Acked(shards), Written(shards);
    FleetTotals(cfg, draw, shards, io.files, counts, mode, written, acked);
    var ackedTotal := Total(acked);
    var writtenTotal := Total(written);
    report := Report(crashes, violations, ackedTotal, writtenTotal);
    AccountsOf(cfg, draw, ioDraw, report, outages);
  }

  lemma AccountsOf(cfg: SimConfig, draw: nat -> u64, ioDraw: nat -> u64, report: Report, outages: seq<seq<Cut>>)
    requires Books(cfg, draw, Tally(cfg.steps, report.crashes, report.durabilityViolations, outages),
                   ModeOf(cfg, ioDraw))
    requires ModeOf(cfg, ioDraw).healthy ==>
      && report.writtenTotal == cfg.steps
      && report.ackedTotal == Sum(AllFlushed(Turns(cfg, draw, cfg.steps), cfg.syncEvery))
    ensures Accounts(cfg, draw, ioDraw, report, outages)
    ensures report.durabilityViolations <= report.crashes * cfg.shards && report.crashes <= cfg.steps
    ensures CrashFree(cfg) ==> report.crashes == 0
  {
    hide AllLost, OneOutage, Sum, Turns, AllFlushed, AlwaysLies, NoFaults, CrashFree, CrashCount;
    AllLostBound(outages, cfg.shards);
    CrashCountBound(cfg, draw, cfg.steps);
    if CrashFree(cfg) {
      NoCrashes(cfg, draw, cfg.steps);
    }
  }

  lemma FitsItsDisk(cfg: SimConfig, ioDraw: nat -> u64, io: SimIo)
    requires io.faults == cfg.ioFaults && io.rng.draw == ioDraw
    ensures Fits(ModeOf(cfg, ioDraw), io)
    ensures ModeOf(cfg, ioDraw).healthy <==> NoFaults(cfg.ioFaults) && CrashFree(cfg)
    ensures ModeOf(cfg, ioDraw).doomed ==> cfg.syncEvery <= 1
  {
  }

  ghost function ModeOf(cfg: SimConfig, ioDraw: nat -> u64): Mode {
    Mode(cfg.ioFaults.lyingFsyncPpm == 0, NoFaults(cfg.ioFaults) && CrashFree(cfg),
         AlwaysLies(cfg.ioFaults, ioDraw) && cfg.syncEvery <= 1)
  }

  /** A lying disk is caught: the one record is acked, the power is cut at the end of the step, and none of its bytes
      is left. */
  method LyingDisk() returns (report: Report)
    ensures report.crashes == 1 && report.durabilityViolations == 1
  {
    var cfg := SimConfig(1, 1, 1, IoFaults(0, 1_000_000, 0, 0), 0, Some(1));
    ghost var outages;
    report, outages := Run(cfg, _ => 0, _ => 0);
    assert CrashCount(cfg, _ => 0, 0) == 0;
  }
}
