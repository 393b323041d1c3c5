/** Key custody in a directory: one sealed file per key id, a tombstone renamed over the key it destroys, and what a
    power cut can make of it. */
module Persisted {
  import opened Words
  import opened Hybrid
  import opened Custody

  // ---------------------------------------------------------------------------
  // Key files
  // ---------------------------------------------------------------------------

  const FILE_MAGIC: seq<char> := "trlx-kek"
  const FILE_VERSION: u8 := 1
  const KIND_LIVE: u8 := 1
  const KIND_TOMBSTONE: u8 := 2
  // The header is magic, version and nonce: 8 + 1 + 12 bytes.

  /** The associated data of a key file: a label and the id. */
  function FileAad(kek: KeyId): Bytes {
    Ascii("trailryx.custody.file.v1") + kek
  }

  /** A key file: magic, version and nonce in the clear, the kind and the body under the key of this id. */
  function Encode(p: Primitives, kek: KeyId, kind: u8, body: Bytes, nonce: Option<Nonce>): Option<Bytes> {
    var key := p.derive("trailryx.custody.file-key.v1", FileAad(kek));
    if key.None? || nonce.None? then None
    else
      var sealed := p.seal(key.value, nonce.value, FileAad(kek), [kind] + body);
      Some(Ascii(FILE_MAGIC) + [FILE_VERSION] + nonce.value + sealed)
  }

  function Decode(p: Primitives, kek: KeyId, bytes: Bytes): Option<(u8, Bytes)> {
    if |bytes| <= 21 || bytes[..8] != Ascii(FILE_MAGIC) || bytes[8] != FILE_VERSION then None
    else
      var key := p.derive("trailryx.custody.file-key.v1", FileAad(kek));
      if key.None? then None
      else
        var plaintext := p.open(key.value, bytes[9..21], FileAad(kek), bytes[21..]);
        if plaintext.None? || plaintext.value == [] then None
        else Some((plaintext.value[0], plaintext.value[1..]))
  }

  lemma DecodeEncode(p: Primitives, kek: KeyId, kind: u8, body: Bytes, nonce: Option<Nonce>)
    requires Ideal(p) && Encode(p, kek, kind, body, nonce).Some?
    ensures Decode(p, kek, Encode(p, kek, kind, body, nonce).value) == Some((kind, body))
  {
    var bytes := Encode(p, kek, kind, body, nonce).value;
    var key := p.derive("trailryx.custody.file-key.v1", FileAad(kek)).value;
    var sealed := p.seal(key, nonce.value, FileAad(kek), [kind] + body);
    hide Ascii, FileAad;
    assert bytes == Ascii(FILE_MAGIC) + [FILE_VERSION] + nonce.value + sealed;
    assert bytes[..8] == Ascii(FILE_MAGIC) && bytes[9..21] == nonce.value && bytes[21..] == sealed;
    assert ([kind] + body)[1..] == body;
  }

  /** A key file by the places of its bytes: "trlx-kek", the version, the nonce, and the kind with the body sealed for
      this id. It is made whenever a key can be derived and a nonce was drawn. */
  lemma FileLayout(p: Primitives, kek: KeyId, kind: u8, body: Bytes, nonce: Option<Nonce>)
    ensures var aad := Ascii("trailryx.custody.file.v1") + kek;
      var key, file := p.derive("trailryx.custody.file-key.v1", aad), Encode(p, kek, kind, body, nonce);
      && (file.Some? <==> key.Some? && nonce.Some?)
      && (file.Some? ==>
        && |file.value| >= 21
        && file.value[..9] == [0x74, 0x72, 0x6C, 0x78, 0x2D, 0x6B, 0x65, 0x6B, 1]
        && file.value[9..21] == nonce.value
        && file.value[21..] == p.seal(key.value, nonce.value, aad, [kind] + body))
  {
    var bytes := Encode(p, kek, kind, body, nonce);
    if bytes.Some? {
      assert Ascii(FILE_MAGIC) == [0x74, 0x72, 0x6C, 0x78, 0x2D, 0x6B, 0x65, 0x6B];
      var key := p.derive("trailryx.custody.file-key.v1", FileAad(kek)).value;
      var sealed := p.seal(key, nonce.value, FileAad(kek), [kind] + body);
      assert bytes.value == Ascii(FILE_MAGIC) + [FILE_VERSION] + nonce.value + sealed;
    }
  }

  /** A key file is of its own id: renamed onto another one it is unusable there, and never absent, live or
      destroyed. */
  lemma FileIsOfItsId(p: Primitives, kek: KeyId, kind: u8, body: Bytes, nonce: Option<Nonce>, other: KeyId)
    requires Bound(p) && Encode(p, kek, kind, body, nonce).Some? && other != kek
    ensures Contents(p, other, Encode(p, kek, kind, body, nonce).value) == Unusable
  {
    FileLayout(p, kek, kind, body, nonce);
    hide Ascii;
    var bytes, tag := Encode(p, kek, kind, body, nonce).value, Ascii("trailryx.custody.file.v1");
    if FileAad(other) == FileAad(kek) {
      SplitEqual(tag, tag, other, kek);
    }
    var mine := p.derive("trailryx.custody.file-key.v1", FileAad(kek)).value;
    var theirs := p.derive("trailryx.custody.file-key.v1", FileAad(other));
    if |bytes| > 21 && theirs.Some? {
      assert p.open(theirs.value, bytes[9..21], FileAad(other),
                    p.seal(mine, nonce.value, FileAad(kek), [kind] + body)).None?;
    }
  }

  /** A file that is there is never taken for one that is not, whatever its bytes: only an absent one lets an id be
      minted. */
  lemma ThereIsNotAbsent(p: Primitives, kek: KeyId, files: map<KeyId, Bytes>)
    ensures StateIn(p, files, kek) == Absent <==> kek !in files
  {
    hide Decode, FromSecret;
  }

  /** The kinds on disk: one for a live key, two for a tombstone, and no other byte. */
  lemma KindsOnDisk(p: Primitives, kek: KeyId, kind: u8, body: Bytes, nonce: Option<Nonce>)
    requires Ideal(p) && Encode(p, kek, kind, body, nonce).Some?
    ensures var s := Contents(p, kek, Encode(p, kek, kind, body, nonce).value);
      && (s == Destroyed <==> kind == 2)
      && (s.Live? <==> kind == 1 && FromSecret(p, body).Some?)
      && (s.Live? ==> Some(s.recipient) == FromSecret(p, body))
      && (s == Unusable <==> kind != 2 && (kind == 1 ==> FromSecret(p, body).None?))
  {
    DecodeEncode(p, kek, kind, body, nonce);
    hide Encode, Decode, FromSecret;
  }

  datatype OnDisk = Absent | Live(recipient: Recipient) | Destroyed | Unusable

  /** What a key file's bytes say. */
  function Contents(p: Primitives, kek: KeyId, bytes: Bytes): OnDisk {
    var frame := Decode(p, kek, bytes);
    if frame.None? then Unusable
    else if frame.value.0 == KIND_TOMBSTONE then Destroyed
    else if frame.value.0 == KIND_LIVE then
      var r := FromSecret(p, frame.value.1);
      if r.None? then Unusable else Live(r.value)
    else Unusable
  }

  // ---------------------------------------------------------------------------
  // The directory
  // ---------------------------------------------------------------------------

  /** The key files a reader sees now, and those a power cut would leave. */
  datatype Disk = Disk(current: map<KeyId, Bytes>, durable: map<KeyId, Bytes>)

  /** How far a commit got: not to the rename, to the rename, or through the directory's flush. */
  datatype Landing = Nothing | Renamed | Synced

  function Commit(d: Disk, kek: KeyId, bytes: Bytes, landing: Landing): Disk {
    match landing
    case Nothing => d
    case Renamed => d.(current := d.current[kek := bytes])
    case Synced => Disk(d.current[kek := bytes], d.current[kek := bytes])
  }

  /** A power cut: of each entry that was not flushed the old or the new one stays. */
  function Crash(d: Disk, kept: set<KeyId>): Disk {
    var left := map kek | kek in d.current.Keys + d.durable.Keys
                  && (if kek in kept then kek in d.current else kek in d.durable)
                  :: if kek in kept then d.current[kek] else d.durable[kek];
    Disk(left, left)
  }

  function StateIn(p: Primitives, files: map<KeyId, Bytes>, kek: KeyId): OnDisk {
    if kek in files then Contents(p, kek, files[kek]) else Absent
  }

  /** `state`: a read that fails for any reason but absence says `Unusable`. */
  function State(p: Primitives, d: Disk, kek: KeyId, readable: bool): OnDisk {
    if readable then StateIn(p, d.current, kek) else Unusable
  }

  // ---------------------------------------------------------------------------
  // The custodian
  // ---------------------------------------------------------------------------

  /** A call with everything the system does to it, or a power cut and the restart after it. */
  datatype Event =
    | Called(call: Call, readable: bool, landing: Landing)
    | PowerCut(kept: set<KeyId>)

  /** `put`. */
  function Put(p: Primitives, d: Disk, kek: KeyId, kind: u8, body: Bytes, nonce: Option<Nonce>, landing: Landing)
    : (Disk, bool)
  {
    var bytes := Encode(p, kek, kind, body, nonce);
    if bytes.None? then (d, false) else (Commit(d, kek, bytes.value, landing), landing == Synced)
  }

  function Step(p: Primitives, d: Disk, e: Event): (Disk, Answer) {
    match e
    case PowerCut(kept) => (Crash(d, kept), Restarted)
    case Called(call, readable, landing) =>
      var state := State(p, d, call.kek, readable);
      match call
      case Wrap(kek, dek, luck) =>
        if state.Destroyed? || state.Unusable? then (d, Failed(Rejected))
        else if state.Live? then (d, WrapFor(p, kek, state.recipient, dek, luck))
        else if luck.recipient.None? || Secret(luck.recipient.value).None? then (d, Failed(Unavailable))
        else
          var r := luck.recipient.value;
          var (after, done) := Put(p, d, kek, KIND_LIVE, Secret(r).value, luck.fileNonce, landing);
          (after, if done then WrapFor(p, kek, r, dek, luck) else Failed(Unavailable))
      case Unwrap(kek, wrapped) =>
        (d, if state.Live? then OpenFor(p, kek, state.recipient, wrapped) else Failed(Rejected))
      case Destroy(kek, luck) =>
        if state.Destroyed? then (d, Gone(Already))
        else
          var (after, done) := Put(p, d, kek, KIND_TOMBSTONE, [], luck.fileNonce, landing);
          (after, if !done then Failed(Unavailable) else Gone(if state.Live? then Now else Already))
  }

  /** Where a run ends, and what it answers on the way. */
  function Run(p: Primitives, d: Disk, es: seq<Event>): Disk
    decreases |es|
  {
    if es == [] then d else Run(p, Step(p, d, es[0]).0, es[1..])
  }

  /** What the i-th event of a run is answered. */
  function AnswerAt(p: Primitives, d: Disk, es: seq<Event>, i: nat): Answer
    requires i < |es|
  {
    Step(p, Run(p, d, es[..i]), es[i]).1
  }

  lemma {:induction false} RunSplit(p: Primitives, d: Disk, es: seq<Event>, i: nat)
    requires i <= |es|
    ensures Run(p, d, es) == Run(p, Run(p, d, es[..i]), es[i..])
    decreases i
  {
    hide Step;
    if i == 0 {
      assert es[..0] == [] && es[0..] == es;
    } else {
      RunSplit(p, Step(p, d, es[0]).0, es[1..], i - 1);
      assert es[..i][0] == es[0] && es[..i][1..] == es[1..][..i - 1] && es[i..] == es[1..][i - 1..];
    }
  }

  // ---------------------------------------------------------------------------
  // Destruction
  // ---------------------------------------------------------------------------

  predicate Shut(s: OnDisk) {
    s.Destroyed? || s.Unusable?
  }

  /** Nothing under this id opens, before a power cut or after it. */
  predicate Barred(p: Primitives, d: Disk, kek: KeyId) {
    Shut(StateIn(p, d.current, kek)) && Shut(StateIn(p, d.durable, kek))
  }

  predicate Opens(a: Answer) {
    a.Wrapped? || a.Opened?
  }

  predicate About(e: Event, kek: KeyId) {
    e.Called? && e.call.kek == kek
  }

  predicate IsDestroy(e: Event, kek: KeyId) {
    About(e, kek) && e.call.Destroy?
  }

  lemma EncodedState(p: Primitives, kek: KeyId, kind: u8, body: Bytes, nonce: Option<Nonce>)
    requires Ideal(p) && Encode(p, kek, kind, body, nonce).Some?
    ensures var s := Contents(p, kek, Encode(p, kek, kind, body, nonce).value);
      && (kind == KIND_TOMBSTONE ==> s == Destroyed)
      && (kind == KIND_LIVE ==> s == match FromSecret(p, body) case Some(r) => Live(r) case None => Unusable)
  {
    DecodeEncode(p, kek, kind, body, nonce);
  }

  /** What `put` does to the files: this id's is the new one or the old one, every other id's the old one. */
  lemma PutStates(p: Primitives, d: Disk, kek: KeyId, kind: u8, body: Bytes, nonce: Option<Nonce>, landing: Landing,
                  other: KeyId)
    requires Ideal(p)
    ensures var after := Put(p, d, kek, kind, body, nonce, landing).0;
      var c0, c1 := StateIn(p, d.current, other), StateIn(p, after.current, other);
      && (StateIn(p, after.durable, other) == StateIn(p, d.durable, other) || StateIn(p, after.durable, other) == c1)
      && (c1 == c0 || (other == kek && Encode(p, kek, kind, body, nonce).Some?
                       && c1 == Contents(p, kek, Encode(p, kek, kind, body, nonce).value)))
  {
    hide Encode, Contents, Ideal;
  }

  /** A directory is flushed as a whole: a file that is put with success leaves no rename of any id waiting, and one
      that got no further than its own rename leaves them all as they were. */
  lemma FlushReachesAll(p: Primitives, d: Disk, kek: KeyId, kind: u8, body: Bytes, nonce: Option<Nonce>,
                        landing: Landing)
    ensures var (after, done) := Put(p, d, kek, kind, body, nonce, landing);
      && (done ==> after.durable == after.current)
      && (!done ==> after.durable == d.durable)
      && after.current - {kek} == d.current - {kek}
  {
    hide Encode;
  }

  /** What a call does to the files. Another id's are as they were. This id's is as it was, or destroyed by a
      `Destroy`, or minted by a `Wrap` that found none. What is durable afterwards is what was or what is current. */
  lemma CallStates(p: Primitives, d: Disk, e: Event, kek: KeyId)
    requires Ideal(p) && e.Called?
    ensures var after := Step(p, d, e).0;
      var c0, c1 := StateIn(p, d.current, kek), StateIn(p, after.current, kek);
      && (StateIn(p, after.durable, kek) == StateIn(p, d.durable, kek) || StateIn(p, after.durable, kek) == c1)
      && (c1 == c0 || (e.call.kek == kek && ((e.call.Destroy? && c1 == Destroyed) || (e.call.Wrap? && c0 == Absent))))
      && (c1 != c0 && e.call.Wrap? && c1.Live? ==> e.call.luck.recipient == Some(c1.recipient))
  {
    var id, nonce := e.call.kek, if e.call.Unwrap? then None else e.call.luck.fileNonce;
    if e.call.Destroy? {
      PutStates(p, d, id, KIND_TOMBSTONE, [], nonce, e.landing, kek);
      if Encode(p, id, KIND_TOMBSTONE, [], nonce).Some? {
        EncodedState(p, id, KIND_TOMBSTONE, [], nonce);
      }
    } else if e.call.Wrap? && e.call.luck.recipient.Some? && Secret(e.call.luck.recipient.value).Some? {
      var r := e.call.luck.recipient.value;
      PutStates(p, d, id, KIND_LIVE, Secret(r).value, nonce, e.landing, kek);
      if Encode(p, id, KIND_LIVE, Secret(r).value, nonce).Some? {
        EncodedState(p, id, KIND_LIVE, Secret(r).value, nonce);
        SecretReadsBack(p, r);
      }
    }
    hide Put, Encode, Contents, Secret, WrapFor, OpenFor, Ideal, FromSecret;
    assert e.readable || State(p, d, id, e.readable) == Unusable;
  }

  lemma CrashStates(p: Primitives, d: Disk, kept: set<KeyId>, kek: KeyId)
    ensures var left := Crash(d, kept);
      && left.current == left.durable
      && StateIn(p, left.current, kek) == StateIn(p, if kek in kept then d.current else d.durable, kek)
  {
    hide Contents;
  }

  lemma StepBarred(p: Primitives, d: Disk, e: Event, kek: KeyId)
    requires Ideal(p) && Barred(p, d, kek)
    ensures Barred(p, Step(p, d, e).0, kek)
    ensures About(e, kek) ==> !Opens(Step(p, d, e).1)
  {
    if e.Called? {
      CallStates(p, d, e, kek);
      hide StateIn, Put, Ideal;
    } else {
      CrashStates(p, d, e.kept, kek);
    }
  }

  /** What is barred stays barred: in every run, whatever fails and whenever the power goes, no call under that id
      wraps or opens anything again. */
  lemma {:induction false} BarredForever(p: Primitives, d: Disk, es: seq<Event>, kek: KeyId, i: nat)
    requires Ideal(p) && Barred(p, d, kek) && i <= |es|
    ensures Barred(p, Run(p, d, es[..i]), kek)
    ensures i < |es| && About(es[i], kek) ==> !Opens(AnswerAt(p, d, es, i))
    decreases i
  {
    hide Step, Barred, Ideal;
    if i == 0 {
      assert es[..0] == [];
    } else {
      StepBarred(p, d, es[0], kek);
      BarredForever(p, Step(p, d, es[0]).0, es[1..], kek, i - 1);
      assert es[..i][0] == es[0] && es[..i][1..] == es[1..][..i - 1];
    }
    if i < |es| {
      StepBarred(p, Run(p, d, es[..i]), es[i], kek);
    }
  }

  /** What `destroy` answers is final exactly when it is not the answer about a tombstone that never became durable:
      that one is given without a flush, and a power cut can take it back. */
  lemma DestroyIsFinal(p: Primitives, d: Disk, kek: KeyId, luck: Luck, readable: bool, landing: Landing)
    requires Ideal(p) && Step(p, d, Called(Destroy(kek, luck), readable, landing)).1.Gone?
    ensures Barred(p, Step(p, d, Called(Destroy(kek, luck), readable, landing)).0, kek)
       <==> !(State(p, d, kek, readable) == Destroyed && !Shut(StateIn(p, d.durable, kek)))
  {
    hide Encode, Contents;
    if State(p, d, kek, readable) != Destroyed {
      EncodedState(p, kek, KIND_TOMBSTONE, [], luck.fileNonce);
    }
  }

  /** The draws let a wrap under this id through, given what is on the disk. */
  predicate Lucky(p: Primitives, kek: KeyId, s: OnDisk, luck: Luck) {
    match s
    case Absent =>
      luck.recipient.Some? && Secret(luck.recipient.value).Some? &&
      Encode(p, kek, KIND_LIVE, Secret(luck.recipient.value).value, luck.fileNonce).Some? &&
      WrapFor(p, kek, luck.recipient.value, [], luck).Wrapped?
    case Live(r) => WrapFor(p, kek, r, [], luck).Wrapped?
    case _ => false
  }

  /** The other half of `BarredForever`: an id that is not barred wraps again in some run, at the latest after a
      power cut that keeps nothing pending. */
  lemma UnbarredReopens(p: Primitives, d: Disk, kek: KeyId, luck: Luck)
    requires !Barred(p, d, kek)
    requires Lucky(p, kek, StateIn(p, if Shut(StateIn(p, d.current, kek)) then d.durable else d.current, kek), luck)
    ensures var wrap := Called(Wrap(kek, [], luck), true, Synced);
      if Shut(StateIn(p, d.current, kek)) then Opens(AnswerAt(p, d, [PowerCut({}), wrap], 1))
      else Opens(AnswerAt(p, d, [wrap], 0))
  {
    hide Encode, Contents, Secret, WrapFor;
    CrashStates(p, d, {}, kek);
    var wrap := Called(Wrap(kek, [], luck), true, Synced);
    assert [PowerCut({}), wrap][..1] == [PowerCut({})];
    assert Run(p, d, [PowerCut({})]) == Crash(d, {}) by {
      assert [PowerCut({})][1..] == [];
    }
    assert [wrap][..0] == [];
  }

  // ---------------------------------------------------------------------------
  // Wrapping
  // ---------------------------------------------------------------------------

  /** The key pair of this id is on the disk and stays there through a power cut. */
  predicate Kept(p: Primitives, d: Disk, kek: KeyId, r: Recipient) {
    StateIn(p, d.current, kek) == Live(r) && StateIn(p, d.durable, kek) == Live(r)
  }

  lemma StepKept(p: Primitives, d: Disk, e: Event, kek: KeyId, r: Recipient)
    requires Ideal(p) && Kept(p, d, kek, r) && !IsDestroy(e, kek)
    ensures Kept(p, Step(p, d, e).0, kek, r)
    ensures About(e, kek) && e.call.Unwrap? && e.readable ==> Step(p, d, e).1 == OpenFor(p, kek, r, e.call.wrapped)
  {
    if e.Called? {
      CallStates(p, d, e, kek);
      hide StateIn, Put, Ideal, OpenFor;
    } else {
      CrashStates(p, d, e.kept, kek);
    }
  }

  /** A kept key pair goes on opening what was wrapped under it until a destruction of that id begins, whatever
      happens to other ids and whenever the power goes. */
  lemma {:induction false} KeptUntilDestroy(p: Primitives, d: Disk, es: seq<Event>, kek: KeyId, r: Recipient, i: nat)
    requires Ideal(p) && Kept(p, d, kek, r) && i <= |es|
    requires forall j :: 0 <= j < i ==> !IsDestroy(es[j], kek)
    ensures Kept(p, Run(p, d, es[..i]), kek, r)
    ensures i < |es| && About(es[i], kek) && es[i].call.Unwrap? && es[i].readable ==>
      AnswerAt(p, d, es, i) == OpenFor(p, kek, r, es[i].call.wrapped)
    decreases i
  {
    hide Step, Kept, Ideal, OpenFor;
    if i == 0 {
      assert es[..0] == [];
    } else {
      StepKept(p, d, es[0], kek, r);
      KeptUntilDestroy(p, Step(p, d, es[0]).0, es[1..], kek, r, i - 1);
      assert es[..i][0] == es[0] && es[..i][1..] == es[1..][..i - 1];
    }
    if i < |es| && !IsDestroy(es[i], kek) {
      StepKept(p, Run(p, d, es[..i]), es[i], kek, r);
    }
  }

  /** Key pairs are drawn whole. */
  ghost predicate Genuine(p: Primitives, e: Event) {
    e.Called? && e.call.Wrap? && e.call.luck.recipient.Some? ==> Matched(p, e.call.luck.recipient.value)
  }

  /** A wrap that answers leaves its recipient on the disk, and the blob opens under it. The key pair is kept exactly
      when it is durable, which it is unless it was there already and never flushed. */
  lemma WrapIsKept(p: Primitives, d: Disk, kek: KeyId, dek: Bytes, luck: Luck, readable: bool, landing: Landing)
    returns (r: Recipient)
    requires Ideal(p) && Step(p, d, Called(Wrap(kek, dek, luck), readable, landing)).1.Wrapped?
    requires Genuine(p, Called(Wrap(kek, dek, luck), readable, landing))
    ensures var (after, answer) := Step(p, d, Called(Wrap(kek, dek, luck), readable, landing));
      && answer == WrapFor(p, kek, r, dek, luck)
      && StateIn(p, after.current, kek) == Live(r)
      && (Matched(p, r) || StateIn(p, d.current, kek) == Live(r))
      && (Kept(p, after, kek, r) <==>
            !(StateIn(p, d.current, kek) == Live(r) && StateIn(p, d.durable, kek) != Live(r)))
  {
    var state := StateIn(p, d.current, kek);
    r := if state.Live? then state.recipient else luck.recipient.value;
    if state.Absent? {
      SecretRoundTrip(p, r, Secret(r).value);
      EncodedState(p, kek, KIND_LIVE, Secret(r).value, luck.fileNonce);
    }
    hide Encode, Contents, Secret, WrapFor, Ideal;
  }

  // ---------------------------------------------------------------------------
  // Whole runs
  // ---------------------------------------------------------------------------

  /** The entry of this id is on the disk as it is seen: no rename of it waits for a flush. */
  predicate Flushed(d: Disk, kek: KeyId) {
    && (kek in d.current <==> kek in d.durable)
    && (kek in d.current ==> d.current[kek] == d.durable[kek])
  }

  lemma FlushedState(p: Primitives, d: Disk, kek: KeyId)
    requires Flushed(d, kek)
    ensures StateIn(p, d.current, kek) == StateIn(p, d.durable, kek)
  {
  }

  /** A call that renamed a file, could not flush the directory, and said that it failed. */
  predicate FlushFailed(e: Event, answer: Answer) {
    e.Called? && e.landing == Renamed && answer == Failed(Unavailable)
  }

  /** The process dies with a failed flush of the directory: what follows is a power cut and a restart, no call. */
  predicate Disciplined(p: Primitives, d: Disk, es: seq<Event>) {
    forall i :: 0 <= i < |es| - 1 && FlushFailed(es[i], AnswerAt(p, d, es, i)) ==> es[i + 1].PowerCut?
  }

  /** On a directory that is flushed, an event leaves it flushed or is a call whose flush failed; a power cut leaves
      any directory flushed. */
  lemma StepFlushes(p: Primitives, d: Disk, e: Event)
    requires d.current == d.durable || e.PowerCut?
    ensures var (after, answer) := Step(p, d, e); after.current == after.durable || FlushFailed(e, answer)
  {
    hide Encode, Contents, Secret, WrapFor, OpenFor;
    if e.PowerCut? {
      assert Crash(d, e.kept).current == Crash(d, e.kept).durable;
    }
  }

  lemma {:induction false} RunFlushes(p: Primitives, d: Disk, es: seq<Event>, i: nat)
    requires d.current == d.durable && Disciplined(p, d, es) && i <= |es|
    ensures var now := Run(p, d, es[..i]);
      now.current == now.durable || (i > 0 && FlushFailed(es[i - 1], AnswerAt(p, d, es, i - 1)))
  {
    hide Step, FlushFailed;
    if i == 0 {
      assert es[..0] == [];
    } else {
      RunFlushes(p, d, es, i - 1);
      RunSnoc(p, d, es, i - 1);
      StepFlushes(p, Run(p, d, es[..i - 1]), es[i - 1]);
    }
  }

  /** In a run with that discipline, from a flushed directory, every call finds every id flushed. */
  lemma DisciplineFlushes(p: Primitives, d: Disk, es: seq<Event>, i: nat, kek: KeyId)
    requires d.current == d.durable && Disciplined(p, d, es) && i < |es| && es[i].Called?
    ensures Flushed(Run(p, d, es[..i]), kek)
  {
    hide Run, FlushFailed, Step;
    RunFlushes(p, d, es, i);
    if i > 0 && FlushFailed(es[i - 1], AnswerAt(p, d, es, i - 1)) {
      assert es[i - 1 + 1].PowerCut?;
    }
  }

  /** What a later event of a run is answered is what it is answered in the run that starts after event i. */
  lemma LaterAnswer(p: Primitives, d: Disk, es: seq<Event>, i: nat, j: nat)
    requires i < j < |es|
    ensures var after := Step(p, Run(p, d, es[..i]), es[i]).0;
      AnswerAt(p, d, es, j) == AnswerAt(p, after, es[i + 1..], j - i - 1)
  {
    hide Step;
    RunSplit(p, d, es[..j], i);
    assert es[..j][..i] == es[..i];
    var rest := es[..j][i..];
    assert rest[0] == es[i] && rest[1..] == es[i + 1..][..j - i - 1];
  }

  /** A destruction that was reported is never undone: no later call under that id wraps or opens. For `Already` the
      tombstone it found has to be on the disk; nothing is asked of other ids, or of the run after it. */
  lemma DestructionHolds(p: Primitives, d: Disk, es: seq<Event>, i: nat, j: nat, kek: KeyId)
    requires Ideal(p) && i < j < |es| && IsDestroy(es[i], kek) && About(es[j], kek)
    requires AnswerAt(p, d, es, i).Gone?
    requires AnswerAt(p, d, es, i) == Gone(Now) || Flushed(Run(p, d, es[..i]), kek)
    ensures !Opens(AnswerAt(p, d, es, j))
  {
    var before := Run(p, d, es[..i]);
    DestroyIsFinal(p, before, kek, es[i].call.luck, es[i].readable, es[i].landing);
    if Flushed(before, kek) {
      FlushedState(p, before, kek);
    }
    assert Barred(p, Step(p, before, es[i]).0, kek);
    hide Step, Barred, Ideal, AnswerAt, Run;
    BarredForever(p, Step(p, before, es[i]).0, es[i + 1..], kek, j - i - 1);
    LaterAnswer(p, d, es, i, j);
  }

  /** So in a run where the process dies with a failed flush, a destruction that was reported is final, whatever the
      report said. */
  lemma DisciplinedDestruction(p: Primitives, d: Disk, es: seq<Event>, i: nat, j: nat, kek: KeyId)
    requires Ideal(p) && d.current == d.durable && Disciplined(p, d, es)
    requires i < j < |es| && IsDestroy(es[i], kek) && About(es[j], kek) && AnswerAt(p, d, es, i).Gone?
    ensures !Opens(AnswerAt(p, d, es, j))
  {
    hide Ideal, Disciplined, AnswerAt, Flushed, Opens;
    DisciplineFlushes(p, d, es, i, kek);
    DestructionHolds(p, d, es, i, j, kek);
  }

  /** Every key pair on the disk was drawn whole. */
  ghost predicate GenuineDisk(p: Primitives, d: Disk) {
    && (forall kek :: StateIn(p, d.current, kek).Live? ==> Matched(p, StateIn(p, d.current, kek).recipient))
    && (forall kek :: StateIn(p, d.durable, kek).Live? ==> Matched(p, StateIn(p, d.durable, kek).recipient))
  }

  lemma StepGenuine(p: Primitives, d: Disk, e: Event)
    requires Ideal(p) && GenuineDisk(p, d) && Genuine(p, e)
    ensures GenuineDisk(p, Step(p, d, e).0)
  {
    var after := Step(p, d, e).0;
    forall kek
      ensures StateIn(p, after.current, kek).Live? ==> Matched(p, StateIn(p, after.current, kek).recipient)
      ensures StateIn(p, after.durable, kek).Live? ==> Matched(p, StateIn(p, after.durable, kek).recipient)
    {
      if e.Called? {
        CallStates(p, d, e, kek);
      } else {
        CrashStates(p, d, e.kept, kek);
      }
      hide Step, StateIn, Ideal, Matched;
    }
  }

  lemma {:induction false} RunGenuine(p: Primitives, d: Disk, es: seq<Event>)
    requires Ideal(p) && GenuineDisk(p, d) && forall i :: 0 <= i < |es| ==> Genuine(p, es[i])
    ensures GenuineDisk(p, Run(p, d, es))
    decreases |es|
  {
    hide GenuineDisk, Genuine, Step, Ideal;
    if es != [] {
      StepGenuine(p, d, es[0]);
      RunGenuine(p, Step(p, d, es[0]).0, es[1..]);
    }
  }

  /** At a wrap that answers and found its id flushed, the key pair is on the disk for good. */
  lemma WrapEstablishes(p: Primitives, d: Disk, es: seq<Event>, i: nat, kek: KeyId) returns (r: Recipient)
    requires Ideal(p) && GenuineDisk(p, d) && i < |es| && Flushed(Run(p, d, es[..i]), kek)
    requires forall n :: 0 <= n <= i ==> Genuine(p, es[n])
    requires About(es[i], kek) && es[i].call.Wrap? && AnswerAt(p, d, es, i).Wrapped?
    ensures Matched(p, r) && Kept(p, Step(p, Run(p, d, es[..i]), es[i]).0, kek, r)
    ensures AnswerAt(p, d, es, i) == WrapFor(p, kek, r, es[i].call.dek, es[i].call.luck)
  {
    var before := Run(p, d, es[..i]);
    RunGenuine(p, d, es[..i]);
    FlushedState(p, before, kek);
    assert Genuine(p, es[i]);
    hide Step, Ideal, Run, Flushed, Matched, WrapFor;
    r := WrapIsKept(p, before, kek, es[i].call.dek, es[i].call.luck, es[i].readable, es[i].landing);
  }

  /** A blob that was returned opens to its key until some destruction of that id begins, when the wrap found no
      rename of its id waiting for a flush. */
  lemma WrapHolds(p: Primitives, d: Disk, es: seq<Event>, i: nat, j: nat, kek: KeyId)
    requires Ideal(p) && GenuineDisk(p, d) && i < j < |es| && Flushed(Run(p, d, es[..i]), kek)
    requires forall n :: 0 <= n <= i ==> Genuine(p, es[n])
    requires About(es[i], kek) && es[i].call.Wrap? && AnswerAt(p, d, es, i).Wrapped?
    requires forall n :: i < n < j ==> !IsDestroy(es[n], kek)
    requires About(es[j], kek) && es[j].readable && es[j].call == Unwrap(kek, AnswerAt(p, d, es, i).blob)
    ensures AnswerAt(p, d, es, j) == Opened(es[i].call.dek)
  {
    hide Step, Run, Ideal, Flushed, GenuineDisk, Genuine, Matched, WrapFor, OpenFor, Kept, AnswerAt, IsDestroy;
    var r := WrapEstablishes(p, d, es, i, kek);
    BlobOpens(p, kek, r, es[i].call.dek, es[i].call.luck);
    LaterAnswer(p, d, es, i, j);
    var rest := es[i + 1..];
    forall n | 0 <= n < j - i - 1
      ensures !IsDestroy(rest[n], kek)
    {
      assert rest[n] == es[i + 1 + n];
    }
    KeptUntilDestroy(p, Step(p, Run(p, d, es[..i]), es[i]).0, rest, kek, r, j - i - 1);
  }

  /** And in such a run every blob that was handed out opens until a destruction of its id begins. */
  lemma DisciplinedWrap(p: Primitives, d: Disk, es: seq<Event>, i: nat, j: nat, kek: KeyId)
    requires Ideal(p) && d.current == d.durable && Disciplined(p, d, es)
    requires GenuineDisk(p, d) && forall n :: 0 <= n < |es| ==> Genuine(p, es[n])
    requires i < j < |es| && About(es[i], kek) && es[i].call.Wrap? && AnswerAt(p, d, es, i).Wrapped?
    requires forall n :: i < n < j ==> !IsDestroy(es[n], kek)
    requires About(es[j], kek) && es[j].readable && es[j].call == Unwrap(kek, AnswerAt(p, d, es, i).blob)
    ensures AnswerAt(p, d, es, j) == Opened(es[i].call.dek)
  {
    hide Ideal, Disciplined, AnswerAt, Flushed, GenuineDisk, Genuine, IsDestroy;
    DisciplineFlushes(p, d, es, i, kek);
    WrapHolds(p, d, es, i, j, kek);
  }

  /** Without that discipline the promise fails: a destruction whose directory flush fails is refused, a second one
      is answered from the tombstone that is merely visible, and a power cut brings the key back. */
  lemma RetriedDestroyComesBack(p: Primitives, kek: KeyId, dek: Bytes, luck: Luck)
    returns (es: seq<Event>)
    requires Ideal(p) && luck.recipient.Some? && Matched(p, luck.recipient.value)
    requires Step(p, Disk(map[], map[]), Called(Wrap(kek, dek, luck), true, Synced)).1.Wrapped?
    requires Encode(p, kek, KIND_TOMBSTONE, [], luck.fileNonce).Some?
    ensures |es| == 5 && var d := Disk(map[], map[]);
      && IsDestroy(es[1], kek) && AnswerAt(p, d, es, 1) == Failed(Unavailable)
      && IsDestroy(es[2], kek) && AnswerAt(p, d, es, 2) == Gone(Already)
      && About(es[4], kek) && AnswerAt(p, d, es, 4) == Opened(dek)
  {
    var d := Disk(map[], map[]);
    var wrap, destroy := Called(Wrap(kek, dek, luck), true, Synced), Called(Destroy(kek, luck), true, Renamed);
    var d1, d2, d3, blob := TombstoneTakenBack(p, kek, dek, luck);
    es := [wrap, destroy, destroy, PowerCut({}), Called(Unwrap(kek, blob), true, Nothing)];
    var ds := [d, d1, d2, d2, d3];
    hide Step, Encode, Ideal, Matched;
    RunThrough(p, es, ds, 1);
    RunThrough(p, es, ds, 2);
    RunThrough(p, es, ds, 4);
  }

  /** The disks of that run. */
  lemma TombstoneTakenBack(p: Primitives, kek: KeyId, dek: Bytes, luck: Luck)
    returns (d1: Disk, d2: Disk, d3: Disk, blob: Bytes)
    requires Ideal(p) && luck.recipient.Some? && Matched(p, luck.recipient.value)
    requires Step(p, Disk(map[], map[]), Called(Wrap(kek, dek, luck), true, Synced)).1.Wrapped?
    requires Encode(p, kek, KIND_TOMBSTONE, [], luck.fileNonce).Some?
    ensures Step(p, Disk(map[], map[]), Called(Wrap(kek, dek, luck), true, Synced)) == (d1, Wrapped(blob))
    ensures Step(p, d1, Called(Destroy(kek, luck), true, Renamed)) == (d2, Failed(Unavailable))
    ensures Step(p, d2, Called(Destroy(kek, luck), true, Renamed)) == (d2, Gone(Already))
    ensures Step(p, d2, PowerCut({})).0 == d3
    ensures Step(p, d3, Called(Unwrap(kek, blob), true, Nothing)).1 == Opened(dek)
  {
    var d := Disk(map[], map[]);
    var first := Step(p, d, Called(Wrap(kek, dek, luck), true, Synced));
    d1, blob := first.0, first.1.blob;
    var r := WrapIsKept(p, d, kek, dek, luck, true, Synced);
    BlobOpens(p, kek, r, dek, luck);
    EncodedState(p, kek, KIND_TOMBSTONE, [], luck.fileNonce);
    d2 := Step(p, d1, Called(Destroy(kek, luck), true, Renamed)).0;
    assert Kept(p, d1, kek, r) && d2.durable == d1.durable && StateIn(p, d2.current, kek) == Destroyed;
    CrashStates(p, d2, {}, kek);
    d3 := Crash(d2, {});
    hide Encode, Contents, WrapFor, OpenFor, Ideal, Matched;
  }

  /** The disks a run goes through, one before each event. */
  predicate Through(p: Primitives, es: seq<Event>, ds: seq<Disk>) {
    |ds| == |es| && forall i :: 0 < i < |es| ==> ds[i] == Step(p, ds[i - 1], es[i - 1]).0
  }

  lemma {:induction false} RunThrough(p: Primitives, es: seq<Event>, ds: seq<Disk>, i: nat)
    requires Through(p, es, ds) && i < |es|
    ensures Run(p, ds[0], es[..i]) == ds[i]
    ensures AnswerAt(p, ds[0], es, i) == Step(p, ds[i], es[i]).1
  {
    hide Step;
    if i == 0 {
      assert es[..0] == [];
    } else {
      RunThrough(p, es, ds, i - 1);
      RunSnoc(p, ds[0], es, i - 1);
    }
  }

  lemma RunSnoc(p: Primitives, d: Disk, es: seq<Event>, i: nat)
    requires i < |es|
    ensures Run(p, d, es[..i + 1]) == Step(p, Run(p, d, es[..i]), es[i]).0
  {
    hide Step;
    RunSplit(p, d, es[..i + 1], i);
    assert es[..i + 1][..i] == es[..i] && es[..i + 1][i..] == [es[i]];
    assert [es[i]][1..] == [];
  }

  /** The mirror image for `wrap`: a key pair that was never flushed wraps a key, and a power cut takes the pair. */
  lemma RetriedWrapIsLost(p: Primitives, kek: KeyId, dek: Bytes, luck: Luck)
    returns (es: seq<Event>)
    requires Ideal(p) && luck.recipient.Some? && Matched(p, luck.recipient.value)
    requires Step(p, Disk(map[], map[]), Called(Wrap(kek, dek, luck), true, Synced)).1.Wrapped?
    ensures |es| == 4 && var d := Disk(map[], map[]);
      && AnswerAt(p, d, es, 0) == Failed(Unavailable)
      && About(es[1], kek) && AnswerAt(p, d, es, 1) == WrapFor(p, kek, luck.recipient.value, dek, luck)
      && AnswerAt(p, d, es, 1).Wrapped?
      && es[3] == Called(Unwrap(kek, AnswerAt(p, d, es, 1).blob), true, Nothing)
      && AnswerAt(p, d, es, 3) == Failed(Rejected)
  {
    var d := Disk(map[], map[]);
    var r := luck.recipient.value;
    var blob := WrapFor(p, kek, r, dek, luck).blob;
    var minted := Called(Wrap(kek, dek, luck), true, Renamed);
    es := [minted, minted, PowerCut({}), Called(Unwrap(kek, blob), true, Nothing)];
    EncodedState(p, kek, KIND_LIVE, Secret(r).value, luck.fileNonce);
    SecretReadsBack(p, r);
    var d1 := Step(p, d, minted).0;
    assert d1.durable == map[] && StateIn(p, d1.current, kek) == Live(r);
    CrashStates(p, d1, {}, kek);
    var d2 := Crash(d1, {});
    var ds := [d, d1, d1, d2];
    hide Encode, Contents, WrapFor, OpenFor, Ideal, Matched, Secret;
    assert Step(p, d1, minted).0 == d1 && Step(p, d1, PowerCut({})).0 == d2;
    assert Through(p, es, ds);
    RunThrough(p, es, ds, 0);
    RunThrough(p, es, ds, 1);
    RunThrough(p, es, ds, 3);
  }

  // ---------------------------------------------------------------------------
  // The same machine as the custodian in memory
  // ---------------------------------------------------------------------------

  /** The directory and the memory say the same of every id. A file nothing can be made of counts as destroyed. */
  ghost predicate Mirrors(p: Primitives, d: Disk, m: Memory) {
    forall kek ::
      var s := StateIn(p, d.current, kek);
      && (kek in m.live <==> s.Live?) && (kek in m.tombstones <==> Shut(s))
      && (s.Live? ==> m.live[kek] == s.recipient)
  }

  /** Nothing in the system fails this call. */
  predicate Untroubled(p: Primitives, c: Call) {
    c.Unwrap? ||
    (&& (c.Wrap? && c.luck.recipient.Some? ==>
           Secret(c.luck.recipient.value).Some? && p.pqKeyParses(c.luck.recipient.value.pq))
     && c.luck.fileNonce.Some? && p.derive("trailryx.custody.file-key.v1", FileAad(c.kek)).Some?)
  }

  function Serve(p: Primitives, d: Disk, c: Call): (Disk, Answer) {
    Step(p, d, Called(c, true, Synced))
  }

  /** What a call leaves of the state of one id. */
  lemma ServeStates(p: Primitives, d: Disk, c: Call, kek: KeyId)
    requires Ideal(p) && Untroubled(p, c)
    ensures var s, t := StateIn(p, d.current, c.kek), StateIn(p, Serve(p, d, c).0.current, kek);
      if kek == c.kek && c.Destroy? then t == if s.Destroyed? then s else Destroyed
      else if kek == c.kek && c.Wrap? && s.Absent? && c.luck.recipient.Some? then t == Live(c.luck.recipient.value)
      else t == StateIn(p, d.current, kek)
  {
    if c.Destroy? {
      EncodedState(p, c.kek, KIND_TOMBSTONE, [], c.luck.fileNonce);
    } else if c.Wrap? && c.luck.recipient.Some? {
      EncodedState(p, c.kek, KIND_LIVE, Secret(c.luck.recipient.value).value, c.luck.fileNonce);
      SecretReadsBack(p, c.luck.recipient.value);
    }
    hide Contents, WrapFor, OpenFor, Ideal, FromSecret, Decode, FileAad;
  }

  /** One call is answered alike by both custodians and leaves them alike. */
  lemma ServeMirrors(p: Primitives, d: Disk, m: Memory, c: Call)
    requires Ideal(p) && Mirrors(p, d, m) && Untroubled(p, c)
    ensures Serve(p, d, c).1 == Respond(p, m, c).1
    ensures Mirrors(p, Serve(p, d, c).0, Respond(p, m, c).0)
  {
    var after, m' := Serve(p, d, c).0, Respond(p, m, c).0;
    assert Serve(p, d, c).1 == Respond(p, m, c).1 by {
      assert c.kek in m.live <==> StateIn(p, d.current, c.kek).Live?;
      hide Contents, Secret, WrapFor, OpenFor, Ideal, FileAad;
    }
    forall kek
      ensures var s := StateIn(p, after.current, kek);
        && (kek in m'.live <==> s.Live?) && (kek in m'.tombstones <==> Shut(s))
        && (s.Live? ==> m'.live[kek] == s.recipient)
    {
      ServeStates(p, d, c, kek);
      assert kek in m.live <==> StateIn(p, d.current, kek).Live?;
      assert c.kek in m.live <==> StateIn(p, d.current, c.kek).Live?;
      hide Serve, StateIn, WrapFor, OpenFor, Ideal, Untroubled;
    }
  }

  function ServeAll(p: Primitives, d: Disk, cs: seq<Call>): seq<Answer>
    decreases |cs|
  {
    if cs == [] then [] else [Serve(p, d, cs[0]).1] + ServeAll(p, Serve(p, d, cs[0]).0, cs[1..])
  }

  function RespondAll(p: Primitives, m: Memory, cs: seq<Call>): seq<Answer>
    decreases |cs|
  {
    if cs == [] then [] else [Respond(p, m, cs[0]).1] + RespondAll(p, Respond(p, m, cs[0]).0, cs[1..])
  }

  /** While nothing fails, the custodian in a directory cannot be told from the one in memory. */
  lemma {:induction false} SameMachine(p: Primitives, d: Disk, m: Memory, cs: seq<Call>)
    requires Ideal(p) && Mirrors(p, d, m) && forall i :: 0 <= i < |cs| ==> Untroubled(p, cs[i])
    ensures ServeAll(p, d, cs) == RespondAll(p, m, cs)
    decreases |cs|
  {
    hide Serve, Respond, Mirrors, Untroubled, Ideal;
    if cs != [] {
      ServeMirrors(p, d, m, cs[0]);
      SameMachine(p, Serve(p, d, cs[0]).0, Respond(p, m, cs[0]).0, cs[1..]);
    }
  }

  /** So from the start: an empty directory and no keys answer any untroubled calls alike. */
  lemma SameFromTheStart(p: Primitives, cs: seq<Call>)
    requires Ideal(p) && forall i :: 0 <= i < |cs| ==> Untroubled(p, cs[i])
    ensures ServeAll(p, Disk(map[], map[]), cs) == RespondAll(p, Memory(map[], {}), cs)
  {
    assert Mirrors(p, Disk(map[], map[]), Memory(map[], {}));
    hide *;
    SameMachine(p, Disk(map[], map[]), Memory(map[], {}), cs);
  }

  // ---------------------------------------------------------------------------
  // The calls, step by step
  // ---------------------------------------------------------------------------

  /** A file being written beside its target. */
  datatype Temp = Temp(bytes: Bytes, synced: bool)

  /** How far a commit gets, its operations failing as `fails` says from one place on: the file beside its target is
      created, written and flushed, renamed, and the directory flushed, which is tried twice. */
  function LandingAt(fails: nat -> bool, at: nat): Landing {
    if fails(at) || fails(at + 1) || fails(at + 2) || fails(at + 3) then Nothing
    else if fails(at + 4) && fails(at + 5) then Renamed
    else Synced
  }

  /** A directory of key files. Any operation may fail, as `fails` says. */
  class Directory {
    var current: map<KeyId, Bytes>
    var durable: map<KeyId, Bytes>
    var temp: map<KeyId, Temp>
    /** Entries that were renamed into place before their bytes were flushed: a power cut may tear them. */
    ghost var torn: set<KeyId>
    const fails: nat -> bool
    var at: nat

    ghost function Files(): Disk
      reads this
    {
      Disk(current, durable)
    }

    constructor (fails: nat -> bool)
      ensures Files() == Disk(map[], map[]) && torn == {} && this.fails == fails && at == 0
    {
      this.fails := fails;
      current, durable, temp, torn, at := map[], map[], map[], {}, 0;
    }

    method Fails() returns (yes: bool)
      modifies this`at
      ensures yes == fails(old(at)) && at == old(at) + 1
    {
      yes := fails(at);
      at := at + 1;
    }

    /** `std::fs::read`: the bytes, nothing, or a failure. */
    method Read(kek: KeyId) returns (bytes: Option<Bytes>, readable: bool)
      modifies this`at
      ensures readable == !fails(old(at)) && at == old(at) + 1
      ensures readable ==> bytes == if kek in current then Some(current[kek]) else None
    {
      var failed := Fails();
      readable := !failed;
      bytes := if kek in current then Some(current[kek]) else None;
    }

    method CreateTemp(kek: KeyId) returns (ok: bool)
      modifies this`temp, this`at
      ensures ok == !fails(old(at)) && at == old(at) + 1
      ensures ok ==> kek in temp
    {
      var failed := Fails();
      if failed {
        return false;
      }
      temp := temp[kek := Temp([], false)];
      return true;
    }

    method WriteTemp(kek: KeyId, bytes: Bytes) returns (ok: bool)
      requires kek in temp
      modifies this`temp, this`at
      ensures ok == !fails(old(at)) && at == old(at) + 1
      ensures kek in temp && (ok ==> temp[kek] == Temp(bytes, false))
    {
      var failed := Fails();
      temp := temp[kek := Temp(if failed then [] else bytes, false)];
      return !failed;
    }

    method SyncTemp(kek: KeyId) returns (ok: bool)
      requires kek in temp
      modifies this`temp, this`at
      ensures ok == !fails(old(at)) && at == old(at) + 1
      ensures kek in temp && temp[kek].bytes == old(temp[kek].bytes) && (ok ==> temp[kek].synced)
    {
      var failed := Fails();
      temp := temp[kek := Temp(temp[kek].bytes, !failed)];
      return !failed;
    }

    method RenameTemp(kek: KeyId) returns (ok: bool)
      requires kek in temp
      modifies this`current, this`temp, this`torn, this`at
      ensures ok == !fails(old(at)) && at == old(at) + 1
      ensures current == if ok then old(current)[kek := old(temp[kek].bytes)] else old(current)
      ensures torn == if ok && !old(temp[kek].synced) then old(torn) + {kek} else old(torn)
    {
      var failed := Fails();
      if failed {
        return false;
      }
      if !temp[kek].synced {
        torn := torn + {kek};
      }
      current := current[kek := temp[kek].bytes];
      temp := temp - {kek};
      return true;
    }

    method SyncDir() returns (ok: bool)
      modifies this`durable, this`at
      ensures ok == !fails(old(at)) && at == old(at) + 1
      ensures durable == if ok then current else old(durable)
    {
      var failed := Fails();
      if !failed {
        durable := current;
      }
      return !failed;
    }

    /** `commit`: write beside the file, flush, rename over it, flush the directory. It answers only when all of that
        happened, it leaves the entry old or new and never mixed, and it renames nothing a power cut could tear. */
    method CommitFile(kek: KeyId, bytes: Bytes) returns (ok: bool, ghost landing: Landing)
      requires torn == {}
      modifies this
      ensures Files() == Commit(old(Files()), kek, bytes, landing)
      ensures landing == LandingAt(fails, old(at)) && (ok <==> landing == Synced)
      ensures torn == {}
    {
      landing := Nothing;
      ok := CreateTemp(kek);
      if !ok {
        return;
      }
      ok := WriteTemp(kek, bytes);
      if !ok {
        return;
      }
      ok := SyncTemp(kek);
      if !ok {
        return;
      }
      ok := RenameTemp(kek);
      if !ok {
        return;
      }
      landing := Renamed;
      ok := SyncDir();
      if !ok {
        ok := SyncDir();
      }
      if ok {
        landing := Synced;
      }
    }

    /** The power goes: the entries not flushed fall to the old or the new side, whole. */
    method PowerCut(kept: set<KeyId>)
      requires torn == {}
      modifies this
      ensures Files() == Crash(old(Files()), kept)
      ensures torn == {}
    {
      var left := map kek | kek in current.Keys + durable.Keys
                    && (if kek in kept then kek in current else kek in durable)
                    :: if kek in kept then current[kek] else durable[kek];
      current, durable, temp := left, left, map[];
    }
  }

  /** `PersistedKeyProvider`. Each method reports the event it was, and does to the files and answers what the
      specification says of that event. */
  class PersistedKeyProvider {
    const p: Primitives
    const dir: Directory

    constructor (p: Primitives, dir: Directory)
      ensures this.p == p && this.dir == dir
    {
      this.p := p;
      this.dir := dir;
    }

    /** `state`. Only a file that is not there says `Absent`. */
    method Look(kek: KeyId) returns (s: OnDisk, ghost readable: bool)
      modifies dir`at
      ensures s == State(p, dir.Files(), kek, readable)
      ensures readable == !dir.fails(old(dir.at)) && dir.at == old(dir.at) + 1
    {
      var bytes, read := dir.Read(kek);
      readable := read;
      if !read {
        return Unusable, readable;
      }
      if bytes.None? {
        return Absent, readable;
      }
      s := Contents(p, kek, bytes.value);
    }

    method PutFile(kek: KeyId, kind: u8, body: Bytes, nonce: Option<Nonce>) returns (ok: bool, ghost landing: Landing)
      requires dir.torn == {}
      modifies dir
      ensures (dir.Files(), ok) == Put(p, old(dir.Files()), kek, kind, body, nonce, landing)
      ensures landing == LandingAt(dir.fails, old(dir.at))
      ensures dir.torn == {}
    {
      landing := LandingAt(dir.fails, dir.at);
      var bytes := Encode(p, kek, kind, body, nonce);
      if bytes.None? {
        return false, landing;
      }
      ok, landing := dir.CommitFile(kek, bytes.value);
    }

    /** The key pair is on the disk before the blob is handed out. */
    method Wrap(kek: KeyId, dek: Bytes, luck: Luck) returns (r: Answer, ghost e: Event)
      requires dir.torn == {}
      modifies dir
      ensures e == Called(Call.Wrap(kek, dek, luck), !dir.fails(old(dir.at)), LandingAt(dir.fails, old(dir.at) + 1))
      ensures (dir.Files(), r) == Step(p, old(dir.Files()), e)
      ensures dir.torn == {}
    {
      hide Encode, Contents, WrapFor;
      var state;
      ghost var readable;
      state, readable := Look(kek);
      e := Called(Call.Wrap(kek, dek, luck), readable, LandingAt(dir.fails, dir.at));
      match state
      case Live(recipient) =>
        r := WrapFor(p, kek, recipient, dek, luck);
      case Destroyed =>
        r := Failed(Rejected);
      case Unusable =>
        r := Failed(Rejected);
      case Absent =>
        if luck.recipient.None? {
          return Failed(Unavailable), e;
        }
        var secret := FillSecret(luck.recipient.value);
        if secret.None? {
          return Failed(Unavailable), e;
        }
        var ok;
        ghost var landing;
        ok, landing := PutFile(kek, KIND_LIVE, secret.value, luck.fileNonce);
        r := if ok then WrapFor(p, kek, luck.recipient.value, dek, luck) else Failed(Unavailable);
    }

    method Unwrap(kek: KeyId, wrapped: Bytes) returns (r: Answer, ghost e: Event)
      modifies dir`at
      ensures e == Called(Call.Unwrap(kek, wrapped), !dir.fails(old(dir.at)), Nothing)
      ensures (dir.Files(), r) == Step(p, old(dir.Files()), e)
    {
      var state;
      ghost var readable;
      state, readable := Look(kek);
      e := Called(Call.Unwrap(kek, wrapped), readable, Nothing);
      r := if state.Live? then OpenFor(p, kek, state.recipient, wrapped) else Failed(Rejected);
    }

    /** A key that was live is reported destroyed when the tombstone has replaced it and the directory is flushed. */
    method Destroy(kek: KeyId, luck: Luck) returns (r: Answer, ghost e: Event)
      requires dir.torn == {}
      modifies dir
      ensures e == Called(Call.Destroy(kek, luck), !dir.fails(old(dir.at)), LandingAt(dir.fails, old(dir.at) + 1))
      ensures (dir.Files(), r) == Step(p, old(dir.Files()), e)
      ensures dir.torn == {}
    {
      hide Encode, Contents;
      var state;
      ghost var readable;
      state, readable := Look(kek);
      e := Called(Call.Destroy(kek, luck), readable, LandingAt(dir.fails, dir.at));
      if state.Destroyed? {
        return Gone(Already), e;
      }
      var ok;
      ghost var landing;
      ok, landing := PutFile(kek, KIND_TOMBSTONE, [], luck.fileNonce);
      r := if !ok then Failed(Unavailable) else Gone(if state.Live? then Now else Already);
    }
  }
}
