/** One shard: it owns a journal file, and every sequence number it reports as acked survives any crash. */
module Shards {
  import opened Words
  import opened Limbs
  import opened Record
  import opened Disk

  /** The start of a journal, cut anywhere: what a crash can leave behind. */
  predicate CutJournal(s: Bytes) {
    s == Journal(|s| / 13 + 1)[..|s|]
  }

  lemma TakeTake(s: Bytes, m: nat, n: nat)
    requires n <= m <= |s|
    ensures s[..m][..n] == s[..n]
  {
  }

  lemma PrefixOfPrefix(s: Bytes, n: nat)
    requires |s| <= 13 * n && s == Journal(n)[..|s|]
    ensures CutJournal(s)
  {
    hide Journal;
    var m := |s| / 13 + 1;
    if m <= n {
      JournalPrefix(m, n);
      TakeTake(Journal(n), 13 * m, |s|);
    } else {
      JournalPrefix(n, m);
      TakeTake(Journal(m), 13 * n, |s|);
    }
  }

  lemma CutOfJournal(s: Bytes)
    requires CutJournal(s)
    ensures |s| <= 13 * (|s| / 13 + 1) && s == Journal(|s| / 13 + 1)[..|s|]
  {
    hide Journal;
  }

  lemma CutJournalRecovers(s: Bytes)
    requires CutJournal(s)
    ensures Walk(s, 0) == Recovered(|s| / 13, |s| / 13, |s| % 13, false)
    ensures s[..13 * (|s| / 13)] == Journal(|s| / 13)
  {
    hide *;
    CutOfJournal(s);
    var whole := |s| / 13;
    PrefixRecovers(whole + 1, |s|);
    JournalPrefix(whole, whole + 1);
    TakeTake(Journal(whole + 1), |s|, 13 * whole);
  }

  /** Nothing but one file changed, and of that file no durable byte. */
  ghost predicate OnlyGrew(before: seq<SimFile>, after: seq<SimFile>, file: nat)
    requires file < |before|
  {
    |after| == |before| &&
    (forall i :: 0 <= i < |before| && i != file ==> after[i] == before[i]) &&
    after[file].durable == before[file].durable
  }

  lemma OnlyGrewTransitive(a: seq<SimFile>, b: seq<SimFile>, c: seq<SimFile>, file: nat)
    requires file < |a| && OnlyGrew(a, b, file) && OnlyGrew(b, c, file)
    ensures OnlyGrew(a, c, file)
  {
  }

  lemma OnlyGrewReflexive(a: seq<SimFile>, file: nat)
    requires file < |a|
    ensures OnlyGrew(a, a, file)
  {
  }

  class Shard {
    const id: u16
    const file: nat
    const syncEvery: u64
    /** How many records landed in the file whole; a crash may still take some of them. */
    var written: nat
    /** How many of them a successful flush covered. */
    var acked: nat
    /** A sync failed: writing goes on, promising stops. */
    var degraded: bool
    var sinceSync: nat
    var recoveries: nat
    /** The record on its way into the file, of which `pendingDone` bytes landed; number zero when there is none. */
    var pendingSeq: nat
    var pendingBuf: Bytes
    var pendingDone: nat

    /** The file holds the records written so far, and then the part of the outstanding one that landed. */
    ghost predicate Tracks(f: SimFile)
      reads this
    {
      && acked <= written
      && pendingDone < 13
      && (pendingSeq == 0 ==> pendingDone == 0)
      && (pendingSeq != 0 ==> pendingSeq == written + 1 && pendingBuf == Encode(pendingSeq))
      && f.Content() == Journal(written) + Encode(written + 1)[..pendingDone]
    }

    /** The promise: everything acked is among the durable bytes. */
    ghost predicate Promised(f: SimFile)
      reads this
    {
      13 * acked <= |f.durable|
    }

    constructor (id: u16, file: nat, syncEvery: u64)
      ensures this.id == id && this.file == file && this.syncEvery == syncEvery
      ensures written == acked == sinceSync == 0 && pendingSeq == 0 && pendingDone == 0
    {
      this.id := id;
      this.file := file;
      this.syncEvery := syncEvery;
      written, acked, degraded, sinceSync, recoveries := 0, 0, false, 0, 0;
      pendingSeq, pendingBuf, pendingDone := 0, [], 0;
    }

    /** The fields `recover` sets. */
    method Adopt(good: nat, f: SimFile)
      requires f.Content() == Journal(good)
      requires acked <= written
      modifies this`written, this`acked, this`degraded, this`sinceSync, this`pendingSeq, this`pendingDone
      ensures written == good && acked == (if old(acked) < good then old(acked) else good)
      ensures sinceSync == 0 && !degraded && pendingSeq == 0 && pendingDone == 0
      ensures Tracks(f)
    {
      written := good;
      acked := if acked < good then acked else good;
      sinceSync := 0;
      degraded := false;
      pendingSeq := 0;
      pendingDone := 0;
      FreshlyTracked(f);
    }

    /** `recover`: adopt the longest valid prefix and cut off the rest. What it finds is exactly the whole
        records that are there; the sequence gap it guards against cannot occur. */
    method Recover(io: SimIo) returns (r: Recovered)
      requires io.Valid() && file < |io.files|
      requires CutJournal(io.files[file].Content()) && |io.files[file].Content()| < 13 * W
      requires acked <= written
      modifies this`written, this`acked, this`degraded, this`sinceSync, this`pendingSeq, this`pendingDone
      modifies io`files
      ensures io.Valid() && |io.files| == |old(io.files)|
      ensures forall i :: 0 <= i < |io.files| && i != file ==> io.files[i] == old(io.files)[i]
      ensures var size := |old(io.files)[file].Content()|;
        r == Recovered(size / 13, size / 13, size % 13, false)
      ensures written == r.maxSeq && acked == (if old(acked) < r.maxSeq then old(acked) else r.maxSeq)
      ensures sinceSync == 0 && !degraded && pendingSeq == 0 && pendingDone == 0
      ensures Tracks(io.files[file])
      ensures io.files[file].durable <= old(io.files)[file].durable
      ensures old(io.files)[file].dirty == [] ==> io.files[file].dirty == []
    {
      var read := io.ReadAll(file);
      var bytes := read.value;
      r := Record.Recover(bytes);
      CutJournalRecovers(bytes);
      // The source's invariant: a record that verifies and breaks the order.
      assert !r.outOfOrder;
      var good, discarded := r.count, r.discardedBytes;
      hide *;
      if discarded > 0 {
        var cut := io.Truncate(file, 13 * good);
      }
      assert io.files[file].Content() == bytes[..13 * good];
      Adopt(good, io.files[file]);
    }

    method NoteRecovery()
      modifies this`recoveries
      ensures recoveries == old(recoveries) + 1
    {
      recoveries := recoveries + 1;
    }

    /** Between records a shard is on track when its file is the journal of what it wrote. */
    lemma FreshlyTracked(f: SimFile)
      requires acked <= written && pendingSeq == 0 && pendingDone == 0
      requires f.Content() == Journal(written)
      ensures Tracks(f)
    {
      assert Encode(written + 1)[..0] == [];
    }

    /** In the middle of writing a record. */
    ghost predicate Pushing(f: SimFile)
      reads this
    {
      && acked <= written
      && pendingSeq == written + 1 && pendingBuf == Encode(pendingSeq) && pendingDone <= 13
      && f.Content() == Journal(written) + pendingBuf[..pendingDone]
    }

    /** One pass of the loop of `push_pending`: one write, taken in part, in full or not at all. */
    method PushOnce(io: SimIo) returns (stalled: bool)
      requires io.Valid() && file < |io.files|
      requires Pushing(io.files[file]) && pendingDone < 13
      modifies this`degraded, this`pendingDone, io`files, io.rng
      ensures io.Valid() && |io.files| == |old(io.files)| && OnlyGrew(old(io.files), io.files, file)
      ensures Pushing(io.files[file]) && pendingDone <= 13
      ensures pendingDone >= old(pendingDone) && (pendingDone > old(pendingDone) || stalled)
      ensures stalled ==> pendingDone == old(pendingDone)
      ensures degraded <==> old(degraded) || io.HitsAt(old(io.rng.at), io.faults.noSpacePpm)
      ensures io.faults.noSpacePpm == 0 && io.faults.shortWritePpm == 0 ==> !stalled
    {
      hide Journal, Encode, SimFile.Content, SimIo.HitsAt, SimIo.Taken, Hits;
      ghost var f := io.files[file];
      var rest := pendingBuf[pendingDone..];
      var r := io.Append(file, rest);
      match r {
        case Ok(n) =>
          GoesOnWriting(f, Journal(written), pendingBuf, pendingDone, n);
          // Nothing accepted is no progress and no error: come back next tick.
          stalled := n == 0;
          pendingDone := pendingDone + n;
        case Err(_) =>
          // A refusal; the record stays outstanding exactly where it stopped.
          degraded := true;
          stalled := true;
      }
    }

    lemma GoesOnWriting(f: SimFile, journal: Bytes, rec: Bytes, done: nat, n: nat)
      requires done + n <= |rec| && f.Content() == journal + rec[..done]
      ensures f.(dirty := f.dirty + rec[done..][..n]).Content() == journal + rec[..done + n]
    {
      var x := rec[done..][..n];
      assert rec[..done] + x == rec[..done + n];
      assert f.durable + (f.dirty + x) == f.durable + f.dirty + x;
      assert journal + rec[..done] + x == journal + (rec[..done] + x);
    }

    /** `push_pending`: append the rest of the outstanding record; true when all thirteen bytes are in the file. */
    method PushPending(io: SimIo) returns (landed: bool)
      requires io.Valid() && file < |io.files|
      requires Pushing(io.files[file]) && pendingDone < 13
      modifies this`written, this`degraded, this`sinceSync, this`pendingSeq, this`pendingDone
      modifies io`files, io.rng
      ensures io.Valid() && |io.files| == |old(io.files)| && OnlyGrew(old(io.files), io.files, file)
      ensures Tracks(io.files[file])
      ensures landed ==> written == old(written) + 1 && sinceSync == old(sinceSync) + 1 && pendingSeq == 0
      ensures !landed ==> written == old(written) && sinceSync == old(sinceSync) && pendingSeq == old(pendingSeq)
      ensures !landed ==> pendingDone >= old(pendingDone)
      ensures if landed then !degraded else old(degraded) ==> degraded
      ensures !landed && io.faults.noSpacePpm == 0 ==> degraded == old(degraded)
      ensures io.faults.noSpacePpm == 0 && io.faults.shortWritePpm == 0 ==> landed
    {
      var stalled := false;
      OnlyGrewReflexive(io.files, file);
      hide *;
      while pendingDone < 13 && !stalled
        invariant io.Valid() && |io.files| == |old(io.files)| && OnlyGrew(old(io.files), io.files, file)
        invariant Pushing(io.files[file]) && old(pendingDone) <= pendingDone <= 13
        invariant written == old(written) && sinceSync == old(sinceSync) && pendingSeq == old(pendingSeq)
        invariant old(degraded) ==> degraded
        invariant io.faults.noSpacePpm == 0 ==> degraded == old(degraded)
        invariant io.faults.noSpacePpm == 0 && io.faults.shortWritePpm == 0 ==> !stalled
        decreases 13 - pendingDone, !stalled
      {
        ghost var before := io.files;
        NeverHits(io.rng.draw(io.rng.at));
        stalled := PushOnce(io);
        OnlyGrewTransitive(old(io.files), before, io.files, file);
      }
      if pendingDone < 13 {
        StillPending(io.files[file]);
        return false;
      }
      FinishRecord(io.files[file]);
      return true;
    }

    lemma NeverHits(word: u64)
      ensures !Hits(word, 0)
    {
    }

    lemma StillPending(f: SimFile)
      requires Pushing(f) && pendingDone < 13
      ensures Tracks(f)
    {
    }

    /** The last lines of `push_pending`. */
    method FinishRecord(f: SimFile)
      requires Pushing(f) && pendingDone == 13
      modifies this`written, this`degraded, this`sinceSync, this`pendingSeq, this`pendingDone
      ensures written == old(written) + 1 && sinceSync == old(sinceSync) + 1 && pendingSeq == 0 && !degraded
      ensures Tracks(f)
    {
      RecordLanded(f);
      hide Journal, Encode;
      written := pendingSeq;
      sinceSync := sinceSync + 1;
      degraded := false;
      pendingSeq := 0;
      pendingDone := 0;
      FreshlyTracked(f);
    }

    lemma RecordLanded(f: SimFile)
      requires Pushing(f) && pendingDone == 13
      ensures f.Content() == Journal(pendingSeq)
    {
      assert pendingBuf[..13] == Encode(written + 1);
    }

    /** The first lines of `tick`: with nothing outstanding, the next record becomes it. */
    method StartRecord(io: SimIo)
      requires file < |io.files| && Tracks(io.files[file])
      requires written + 1 < W
      modifies this`pendingSeq, this`pendingBuf, this`pendingDone
      ensures Pushing(io.files[file]) && pendingDone == old(pendingDone) < 13
    {
      hide Journal, Encode, SimFile.Content;
      if pendingSeq == 0 {
        var s := written + 1;
        pendingSeq := s;
        pendingBuf := EncodeRecord(s);
        pendingDone := 0;
      }
    }

    /** A flush leaves a file as it is or makes it all durable. */
    lemma FlushedFile(f: SimFile, g: SimFile)
      requires g == f || g == SimFile(f.name, f.Content(), [])
      requires Tracks(f)
      ensures f.durable <= g.durable && Tracks(g)
      ensures g.dirty == [] ==> 13 * written <= |g.durable|
    {
      assert g.Content() == f.Content();
      hide Journal, Encode;
    }

    /** A flush reported success: the watermark moves to everything written. */
    method Acknowledge(f: SimFile)
      requires Tracks(f)
      modifies this`acked, this`degraded, this`sinceSync
      ensures acked == written && sinceSync == 0 && !degraded && Tracks(f)
    {
      hide Journal, Encode, SimFile.Content;
      // The source's invariant: the acked watermark never goes backwards.
      assert written >= acked;
      acked := written;
      sinceSync := 0;
      degraded := false;
    }

    /** It failed: writing goes on, promising stops. */
    method Degrade(f: SimFile)
      requires Tracks(f)
      modifies this`degraded
      ensures degraded && Tracks(f)
    {
      hide Journal, Encode, SimFile.Content;
      degraded := true;
    }

    /** The rest of `tick`: flush when enough was written. Only a flush that reported success moves the promise,
        and then it moves to everything written. */
    method SyncIfDue(io: SimIo) returns (synced: bool)
      requires io.Valid() && file < |io.files|
      requires Tracks(io.files[file])
      modifies this`acked, this`degraded, this`sinceSync
      modifies io`files, io`fsyncs, io`fsyncErrors, io.rng
      ensures io.Valid() && |io.files| == |old(io.files)|
      ensures forall i :: 0 <= i < |io.files| && i != file ==> io.files[i] == old(io.files)[i]
      ensures old(io.files)[file].durable <= io.files[file].durable
      ensures acked == if synced then written else old(acked)
      ensures sinceSync == if synced then 0 else old(sinceSync)
      ensures synced ==> old(sinceSync) >= syncEvery
      ensures degraded == if synced then false else if old(sinceSync) >= syncEvery then true else old(degraded)
      ensures io.faults.lyingFsyncPpm >= 1_000_000 ==> io.files == old(io.files)
      ensures io.faults.fsyncErrorPpm == 0 ==> (synced <==> old(sinceSync) >= syncEvery)
      ensures io.fsyncs == old(io.fsyncs) + if old(sinceSync) >= syncEvery then 1 else 0
      ensures io.fsyncs - io.fsyncErrors == old(io.fsyncs) - old(io.fsyncErrors) + if synced then 1 else 0
      ensures Tracks(io.files[file])
      ensures io.Honest() && synced ==> Promised(io.files[file])
    {
      hide Tracks, SimFile.Content, SimIo.HitsAt, SimIo.Drawn;
      synced := false;
      if sinceSync >= syncEvery {
        ghost var f := io.files[file];
        var r := io.Fsync(file);
        FlushedFile(f, io.files[file]);
        match r {
          case Ok(_) =>
            Acknowledge(io.files[file]);
            synced := true;
          case Err(_) =>
            Degrade(io.files[file]);
        }
      }
    }

    /** `tick`, without the messages: write a record, sync if due. Only a flush that reported success moves the
        promise, and then it moves to everything written. */
    method Tick(io: SimIo) returns (synced: bool)
      requires io.Valid() && file < |io.files|
      requires Tracks(io.files[file])
      requires written + 1 < W
      modifies this`written, this`acked, this`degraded, this`sinceSync
      modifies this`pendingSeq, this`pendingBuf, this`pendingDone
      modifies io`files, io`fsyncs, io`fsyncErrors, io.rng
      ensures io.Valid() && |io.files| == |old(io.files)|
      ensures forall i :: 0 <= i < |io.files| && i != file ==> io.files[i] == old(io.files)[i]
      ensures Tracks(io.files[file])
      ensures old(io.files)[file].durable <= io.files[file].durable
      ensures written == old(written) || written == old(written) + 1
      ensures io.faults.noSpacePpm == 0 && io.faults.shortWritePpm == 0 ==> written == old(written) + 1
      ensures acked == if synced then written else old(acked)
      ensures written == old(written) + 1 ==> pendingSeq == 0
      ensures synced ==> sinceSync == 0 && !degraded
      ensures synced ==> old(sinceSync) + (written - old(written)) >= syncEvery
      ensures !synced && old(sinceSync) + (written - old(written)) >= syncEvery ==> degraded
      ensures io.faults.lyingFsyncPpm >= 1_000_000 ==> io.files[file].durable == old(io.files)[file].durable
      ensures io.faults.fsyncErrorPpm == 0 ==> (synced <==> old(sinceSync) + (written - old(written)) >= syncEvery)
      ensures synced ==> io.fsyncs - io.fsyncErrors == old(io.fsyncs) - old(io.fsyncErrors) + 1
      ensures !synced ==> io.fsyncs - io.fsyncErrors == old(io.fsyncs) - old(io.fsyncErrors)
      ensures !synced ==> sinceSync == old(sinceSync) + (written - old(written))
      ensures io.fsyncs == old(io.fsyncs) +
        if old(sinceSync) + (written - old(written)) >= syncEvery then 1 else 0
      ensures io.Honest() && 13 * old(acked) <= |old(io.files)[file].durable| ==> Promised(io.files[file])
    {
      hide *;
      StartRecord(io);
      ghost var before := io.files;
      var landed := PushPending(io);
      OthersUntouched(before, io.files, file);
      ghost var middle := io.files[file];
      synced := SyncIfDue(io);
      StillPromised(before[file], middle, io.files[file]);
    }

    lemma OthersUntouched(before: seq<SimFile>, after: seq<SimFile>, file: nat)
      requires file < |before| && OnlyGrew(before, after, file)
      ensures |after| == |before| && after[file].durable == before[file].durable
      ensures forall i :: 0 <= i < |before| && i != file ==> after[i] == before[i]
    {
    }

    /** What is promised stays promised while durable bytes only grow. */
    lemma StillPromised(f: SimFile, g: SimFile, h: SimFile)
      requires g.durable == f.durable && g.durable <= h.durable
      ensures 13 * acked <= |f.durable| ==> Promised(h)
    {
    }
  }
}
