/** The simulated disk: durable bytes, dirty bytes, and every fault a write or a flush can meet. */
module Disk {
  import opened Words

  /** A seeded generator. Which numbers a seed stands for is left open: a run is any stream of words. */
  class SimRng {
    const draw: nat -> u64
    var at: nat

    constructor (draw: nat -> u64)
      ensures this.draw == draw && at == 0
    {
      this.draw := draw;
      at := 0;
    }

    method NextU64() returns (x: u64)
      modifies this
      ensures x == draw(old(at)) && at == old(at) + 1
    {
      x := draw(at);
      at := at + 1;
    }

    /** A value in 0..n, and zero without a draw when there is none. */
    method Below(n: u64) returns (x: u64)
      modifies this
      ensures n > 0 ==> x == draw(old(at)) % n && x < n && at == old(at) + 1
      ensures n == 0 ==> x == 0 && at == old(at)
    {
      if n == 0 {
        return 0;
      }
      var raw := NextU64();
      return raw % n;
    }

    /** True with a chance of `ppm` in a million; a chance of zero draws nothing. */
    method ChancePpm(ppm: u32) returns (hit: bool)
      modifies this
      ensures hit <==> Hits(draw(old(at)), ppm)
      ensures at == old(at) + if ppm == 0 then 0 else 1
    {
      if ppm == 0 {
        return false;
      }
      var x := Below(1_000_000);
      return x < ppm;
    }
  }

  /** Whether a word drawn for a chance of `ppm` in a million is a hit. */
  predicate Hits(word: u64, ppm: u32) {
    ppm > 0 && word % 1_000_000 < ppm
  }

  /** The words below n that are hits. */
  function HitsBelow(ppm: u32, n: u64): nat {
    if n == 0 then 0 else HitsBelow(ppm, n - 1) + if Hits(n - 1, ppm) then 1 else 0
  }

  /** A chance of `ppm` is that many words in every million: a word hits as its remainder does, and of the remainders
      as many as the rate says. */
  lemma {:induction false} HitRate(ppm: u32, word: u64)
    ensures Hits(word, ppm) <==> Hits(word % 1_000_000, ppm)
    ensures HitsBelow(ppm, 1_000_000) == if ppm < 1_000_000 then ppm else 1_000_000
  {
    HitsUpTo(ppm, 1_000_000);
  }

  lemma {:induction false} HitsUpTo(ppm: u32, n: u64)
    requires n <= 1_000_000
    ensures HitsBelow(ppm, n) == if ppm < n then ppm else n
  {
    if n > 0 {
      HitsUpTo(ppm, n - 1);
    }
  }

  datatype IoError = NotFound | NoSpace | SyncFailed

  datatype IoFaults = IoFaults(shortWritePpm: u32, lyingFsyncPpm: u32, fsyncErrorPpm: u32, noSpacePpm: u32)

  /** Bytes that survived a flush, and bytes that a crash may still take. */
  datatype SimFile = SimFile(name: u16, durable: Bytes, dirty: Bytes) {
    function Content(): Bytes {
      durable + dirty
    }
  }

  class SimIo {
    var files: seq<SimFile>
    var byName: map<u16, nat>
    const rng: SimRng
    const faults: IoFaults
    var fsyncs: nat
    var fsyncErrors: nat
    var crashes: nat

    ghost predicate Valid()
      reads this
    {
      && fsyncErrors <= fsyncs
      && (forall name :: name in byName ==> byName[name] < |files| && files[byName[name]].name == name)
      && (forall i :: 0 <= i < |files| ==> files[i].name in byName && byName[files[i].name] == i)
    }

    /** No flush reports a success that did not happen. */
    predicate Honest() {
      faults.lyingFsyncPpm == 0
    }

    constructor (rng: SimRng, faults: IoFaults)
      ensures Valid() && files == [] && this.rng == rng && this.faults == faults
      ensures byName == map[]
    {
      files := [];
      byName := map[];
      this.rng := rng;
      this.faults := faults;
      fsyncs, fsyncErrors, crashes := 0, 0, 0;
    }

    method Create(name: u16) returns (r: Result<nat, IoError>)
      requires Valid()
      modifies this
      ensures Valid()
      ensures name in old(byName) ==> r == Ok(old(byName)[name]) && files == old(files) && byName == old(byName)
      ensures name !in old(byName) && |old(files)| < 0x1_0000_0000 ==>
        r == Ok(|old(files)|) && files == old(files) + [SimFile(name, [], [])]
        && byName == old(byName)[name := |old(files)|]
      ensures name !in old(byName) && |old(files)| >= 0x1_0000_0000 ==> r == Err(NoSpace) && files == old(files)
    {
      if name in byName {
        return Ok(byName[name]);
      }
      var id := |files|;
      if id >= 0x1_0000_0000 {
        return Err(NoSpace);
      }
      files := files + [SimFile(name, [], [])];
      byName := byName[name := id];
      return Ok(id);
    }

    /** The word a chance of `ppm` draws when the generator stands at `at`, and where it stands afterwards. */
    predicate HitsAt(at: nat, ppm: u32) {
      Hits(rng.draw(at), ppm)
    }

    static function Drawn(at: nat, ppm: u32): nat {
      if ppm == 0 then at else at + 1
    }

    /** How much of `len` bytes an append takes: all, or a part that the third word says. */
    function Taken(at: nat, len: u64): (n: u64)
      ensures n <= len
    {
      var second := Drawn(at, faults.noSpacePpm);
      var third := Drawn(second, faults.shortWritePpm);
      if HitsAt(second, faults.shortWritePpm) && len > 1 then rng.draw(third) % len else len
    }

    /** An append is short exactly when the second chance hits and there is more than one byte; then it may be of any
        length below, nothing included. */
    lemma ShortExactly(at: nat, len: u64)
      ensures Taken(at, len) < len <==>
        len > 1 && HitsAt(if faults.noSpacePpm == 0 then at else at + 1, faults.shortWritePpm)
    {
    }

    /** Append a prefix of `data`, or refuse: which of them, and how much, the words drawn say. */
    method Append(file: nat, data: Bytes) returns (r: Result<nat, IoError>)
      requires Valid() && |data| < 0x1_0000_0000_0000_0000
      modifies this`files, rng
      ensures Valid()
      ensures r == if HitsAt(old(rng.at), faults.noSpacePpm) then Err(NoSpace)
                   else if file >= |old(files)| then Err(NotFound)
                   else Ok(Taken(old(rng.at), |data|))
      ensures r.Ok? ==>
        files == old(files)[file := old(files)[file].(dirty := old(files)[file].dirty + data[..r.value])]
      ensures r.Err? ==> files == old(files)
      ensures faults.noSpacePpm == 0 && faults.shortWritePpm == 0 && file < |old(files)| ==> r == Ok(|data|)
    {
      var noSpace := rng.ChancePpm(faults.noSpacePpm);
      var short := rng.ChancePpm(faults.shortWritePpm);
      var cut := |data|;
      if short && |data| > 1 {
        cut := rng.Below(|data|);
      }
      if noSpace {
        return Err(NoSpace);
      }
      if file >= |files| {
        return Err(NotFound);
      }
      var f := files[file];
      files := files[file := f.(dirty := f.dirty + data[..cut])];
      return Ok(cut);
    }

    /** Flush: on an honest disk a success means that every byte so far is durable. A file that does not exist is
        looked for only when the flush neither fails nor lies. */
    method Fsync(file: nat) returns (r: Result<(), IoError>)
      requires Valid()
      modifies this`files, this`fsyncs, this`fsyncErrors, rng
      ensures Valid()
      ensures fsyncs == old(fsyncs) + 1
      ensures fsyncErrors == old(fsyncErrors) + if r == Err(SyncFailed) then 1 else 0
      ensures var lies := HitsAt(old(rng.at), faults.lyingFsyncPpm);
        var fails := HitsAt(Drawn(old(rng.at), faults.lyingFsyncPpm), faults.fsyncErrorPpm);
        && r == (if fails then Err(SyncFailed) else if lies || file < |old(files)| then Ok(()) else Err(NotFound))
        && files == if fails || lies || file >= |old(files)| then old(files)
                    else old(files)[file := SimFile(old(files)[file].name, old(files)[file].Content(), [])]
      ensures r.Ok? && Honest() ==> file < |old(files)| && files[file].dirty == []
      ensures faults.lyingFsyncPpm >= 1_000_000 ==> files == old(files)
      ensures faults.fsyncErrorPpm == 0 && file < |old(files)| ==> r.Ok?
    {
      var lying := rng.ChancePpm(faults.lyingFsyncPpm);
      var failing := rng.ChancePpm(faults.fsyncErrorPpm);
      fsyncs := fsyncs + 1;
      if failing {
        fsyncErrors := fsyncErrors + 1;
        return Err(SyncFailed);
      }
      if lying {
        return Ok(());
      }
      if file >= |files| {
        return Err(NotFound);
      }
      var f := files[file];
      files := files[file := SimFile(f.name, f.durable + f.dirty, [])];
      return Ok(());
    }

    /** Cut a file back to `len` bytes. */
    method Truncate(file: nat, len: nat) returns (r: Result<(), IoError>)
      requires Valid()
      modifies this`files
      ensures Valid()
      ensures |files| == |old(files)|
      ensures r == if file < |files| then Ok(()) else Err(NotFound)
      ensures forall i :: 0 <= i < |files| && i != file ==> files[i] == old(files)[i]
      ensures file < |files| ==> var f, f0 := files[file], old(files)[file];
        && f.name == f0.name
        && f.Content() == (if len < |f0.Content()| then f0.Content()[..len] else f0.Content())
        && f.durable <= f0.durable
        && (len <= |f0.durable| ==> f.dirty == [] && |f.durable| == len)
        && (len > |f0.durable| ==> f.durable == f0.durable)
        && (f0.dirty == [] ==> f.dirty == [])
    {
      if file >= |files| {
        return Err(NotFound);
      }
      var f := files[file];
      if len <= |f.durable| {
        files := files[file := f.(durable := f.durable[..len], dirty := [])];
        assert f.durable[..len] == (f.durable + f.dirty)[..len];
        assert len == |f.durable + f.dirty| ==> f.durable[..len] + [] == f.durable + f.dirty;
      } else {
        var keep := len - |f.durable|;
        if keep < |f.dirty| {
          files := files[file := f.(dirty := f.dirty[..keep])];
          assert f.durable + f.dirty[..keep] == (f.durable + f.dirty)[..len];
        }
      }
      return Ok(());
    }

    method ReadAll(file: nat) returns (r: Result<Bytes, IoError>)
      ensures r == if file < |files| then Ok(files[file].Content()) else Err(NotFound)
    {
      if file >= |files| {
        return Err(NotFound);
      }
      r := Ok(files[file].durable + files[file].dirty);
    }

    /** How many of the first n files have bytes that are not durable; each of them draws one word at a power cut. */
    static function DirtyAmong(files: seq<SimFile>, n: nat): nat
      requires n <= |files|
    {
      if n == 0 then 0 else DirtyAmong(files, n - 1) + if files[n - 1].dirty != [] then 1 else 0
    }

    /** That count is of the files themselves, whichever they are. */
    static lemma {:induction false} DirtyCounted(files: seq<SimFile>, n: nat)
      requires n <= |files|
      ensures DirtyAmong(files, n) == |set i | 0 <= i < n && files[i].dirty != []|
    {
      var all := set i | 0 <= i < n && files[i].dirty != [];
      if n == 0 {
        assert all == {};
      } else {
        DirtyCounted(files, n - 1);
        var before := set i | 0 <= i < n - 1 && files[i].dirty != [];
        assert all == before + if files[n - 1].dirty != [] then {n - 1} else {};
      }
    }

    /** The bound a power cut draws below: one more than the dirty bytes, in 64 bits that stay at their greatest
        value. */
    static function KeepBound(dirty: Bytes): u64 {
      if |dirty| + 1 < 0x1_0000_0000_0000_0000 then |dirty| + 1 else 0xFFFF_FFFF_FFFF_FFFF
    }

    /** What a power cut leaves of a file: the durable bytes and as many of the others as the word says. */
    static function Left(f: SimFile, word: u64): SimFile {
      if f.dirty == [] then f else f.(durable := f.durable + f.dirty[..word % KeepBound(f.dirty)], dirty := [])
    }

    static lemma LeftIsPrefix(f: SimFile, word: u64)
      ensures var g := Left(f, word); g.name == f.name && g.dirty == [] && f.durable <= g.durable <= f.Content()
    {
    }

    /** Any number of the bytes that are not durable can be left, and the word says which. */
    static lemma EveryCut(f: SimFile, kept: nat)
      requires kept <= |f.dirty| && |f.dirty| + 1 < 0x1_0000_0000_0000_0000
      ensures Left(f, kept).durable == f.durable + f.dirty[..kept]
    {
      if f.dirty == [] {
        assert f.durable + f.dirty[..0] == f.durable;
      } else {
        assert KeepBound(f.dirty) == |f.dirty| + 1 && kept % KeepBound(f.dirty) == kept;
      }
    }

    /** What a power cut does to one file. */
    method CutFile(f: SimFile) returns (g: SimFile)
      modifies rng
      ensures g == Left(f, rng.draw(old(rng.at)))
      ensures rng.at == old(rng.at) + if f.dirty != [] then 1 else 0
    {
      if f.dirty == [] {
        return f;
      }
      var keep := rng.Below(KeepBound(f.dirty));
      g := f.(durable := f.durable + f.dirty[..keep], dirty := []);
    }

    /** The first n files cut, the others as they were. */
    static ghost predicate CutUpTo(before: seq<SimFile>, files: seq<SimFile>, n: nat, draw: nat -> u64, at: nat) {
      n <= |files| == |before| &&
      (forall j :: 0 <= j < n ==> files[j] == Left(before[j], draw(at + DirtyAmong(before, j)))) &&
      (forall j :: n <= j < |files| ==> files[j] == before[j])
    }

    static lemma CutOneMore(before: seq<SimFile>, files: seq<SimFile>, n: nat, draw: nat -> u64, at: nat, g: SimFile)
      requires CutUpTo(before, files, n, draw, at) && n < |files|
      requires g == Left(files[n], draw(at + DirtyAmong(before, n)))
      ensures CutUpTo(before, files[n := g], n + 1, draw, at)
    {
      hide Left, DirtyAmong;
    }

    static lemma AllCut(before: seq<SimFile>, files: seq<SimFile>, draw: nat -> u64, at: nat)
      requires CutUpTo(before, files, |files|, draw, at)
      ensures forall i :: 0 <= i < |files| ==>
        && files[i].name == before[i].name
        && files[i].dirty == []
        && before[i].durable <= files[i].durable <= before[i].Content()
    {
      forall i | 0 <= i < |files|
        ensures files[i].name == before[i].name && files[i].dirty == []
        ensures before[i].durable <= files[i].durable <= before[i].Content()
      {
        LeftIsPrefix(before[i], draw(at + DirtyAmong(before, i)));
        hide Left, DirtyAmong;
      }
    }

    /** A power cut: of every file the durable bytes and some prefix of the dirty ones stay. */
    method Crash()
      requires Valid()
      modifies this`files, this`crashes, rng
      ensures Valid() && crashes == old(crashes) + 1
      ensures |files| == |old(files)|
      ensures forall i :: 0 <= i < |files| ==>
        files[i] == Left(old(files)[i], rng.draw(old(rng.at) + DirtyAmong(old(files), i)))
      ensures forall i :: 0 <= i < |files| ==>
        && files[i].name == old(files)[i].name
        && files[i].dirty == []
        && old(files)[i].durable <= files[i].durable <= old(files)[i].Content()
    {
      hide Left, KeepBound, SimFile.Content, DirtyAmong;
      crashes := crashes + 1;
      CutEach();
      AllCut(old(files), files, rng.draw, old(rng.at));
    }

    /** The loop of `crash`. */
    method CutEach()
      modifies this`files, rng
      ensures CutUpTo(old(files), files, |files|, rng.draw, old(rng.at))
    {
      hide Left, KeepBound, SimFile.Content, CutUpTo;
      ghost var before := files;
      CutNone(before, rng.draw, rng.at);
      var i := 0;
      while i < |files|
        invariant 0 <= i <= |files| == |before| && rng.at == old(rng.at) + DirtyAmong(before, i)
        invariant CutUpTo(before, files, i, rng.draw, old(rng.at))
      {
        NotCutYet(before, files, i, rng.draw, old(rng.at));
        var g := CutFile(files[i]);
        CutOneMore(before, files, i, rng.draw, old(rng.at), g);
        files := files[i := g];
        i := i + 1;
      }
    }

    static lemma CutNone(files: seq<SimFile>, draw: nat -> u64, at: nat)
      ensures CutUpTo(files, files, 0, draw, at)
    {
    }

    static lemma NotCutYet(before: seq<SimFile>, files: seq<SimFile>, n: nat, draw: nat -> u64, at: nat)
      requires CutUpTo(before, files, n, draw, at) && n < |files|
      ensures |before| == |files| && files[n] == before[n]
    {
    }
  }
}
