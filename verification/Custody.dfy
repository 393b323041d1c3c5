/** Key custody: what a wrapped key is, and what both custodians answer. */
module Custody {
  import opened Words
  import opened Hybrid

  type KeyId = b: Bytes | |b| == 48 witness seq(48, _ => 0)

  /** Refusals keep their kind and lose their text. */
  datatype AdapterError = Unavailable | Rejected

  datatype Destruction = Now | Already

  /** What a call draws from the system: a key pair, the sender's randomness, a nonce for the blob and one for the
      key file. `None` is a failed draw. */
  datatype Luck = Luck(recipient: Option<Recipient>, coins: Bytes, ephemeral: Bytes32,
                       nonce: Option<Nonce>, fileNonce: Option<Nonce>)

  datatype Answer =
    | Wrapped(blob: Bytes)
    | Opened(dek: Bytes)
    | Gone(how: Destruction)
    | Failed(error: AdapterError)
    | Restarted

  // ---------------------------------------------------------------------------
  // The wrapped key
  // ---------------------------------------------------------------------------

  const WRAP_VERSION: u8 := 1
  // The header is version, both ciphertexts and nonce: 1 + 1120 + 12 bytes.

  function WrapAad(kek: KeyId): Bytes {
    Ascii("trailryx.kek.wrap.v1") + kek
  }

  /** What `wrap` does once it has a recipient. */
  function WrapFor(p: Primitives, kek: KeyId, r: Recipient, dek: Bytes, luck: Luck): Answer {
    var public := PublicKey(p, r);
    if public.None? then Failed(Unavailable)
    else
      var sent := Encapsulate(p, public.value, luck.coins, luck.ephemeral);
      if sent.None? || luck.nonce.None? then Failed(Unavailable)
      else
        var nonce := luck.nonce.value;
        var sealed := p.seal(sent.value.sharedSecret, nonce, WrapAad(kek), dek);
        Wrapped([WRAP_VERSION] + sent.value.ciphertext + nonce + sealed)
  }

  /** What `unwrap` does once it has a recipient. */
  function OpenFor(p: Primitives, kek: KeyId, r: Recipient, wrapped: Bytes): Answer {
    if |wrapped| <= 1133 || wrapped[0] != WRAP_VERSION then Failed(Rejected)
    else
      var secret := Decapsulate(p, r, wrapped[1..1121]);
      if secret.None? then Failed(Rejected)
      else
        var dek := p.open(secret.value, wrapped[1121..1133], WrapAad(kek), wrapped[1133..]);
        if dek.None? then Failed(Rejected) else Opened(dek.value)
  }

  /** A blob opens to the key it was made from, for every recipient and every randomness. */
  lemma BlobOpens(p: Primitives, kek: KeyId, r: Recipient, dek: Bytes, luck: Luck)
    requires Ideal(p) && Matched(p, r) && WrapFor(p, kek, r, dek, luck).Wrapped?
    ensures OpenFor(p, kek, r, WrapFor(p, kek, r, dek, luck).blob) == Opened(dek)
  {
    SidesAgree(p, r, luck.coins, luck.ephemeral);
    hide Encapsulate, Decapsulate, PublicKey, Matched, WrapAad;
    var sent := Encapsulate(p, PublicKey(p, r).value, luck.coins, luck.ephemeral).value;
    var blob := WrapFor(p, kek, r, dek, luck).blob;
    var sealed := p.seal(sent.sharedSecret, luck.nonce.value, WrapAad(kek), dek);
    assert blob == [WRAP_VERSION] + sent.ciphertext + luck.nonce.value + sealed;
    assert blob[1..1121] == sent.ciphertext && blob[1121..1133] == luck.nonce.value && blob[1133..] == sealed;
  }

  /** A wrapped key by the places of its bytes: the version, the ciphertext, the nonce, and the key sealed under the
      shared secret for this id. It is made whenever the primitives answer. */
  lemma BlobLayout(p: Primitives, kek: KeyId, r: Recipient, dek: Bytes, luck: Luck)
    requires SendsInFull(p)
    ensures PublicKey(p, r).None? ==> WrapFor(p, kek, r, dek, luck) == Failed(Unavailable)
    ensures PublicKey(p, r).Some? ==> var sent := Encapsulate(p, PublicKey(p, r).value, luck.coins, luck.ephemeral);
      if sent.None? || luck.nonce.None? then WrapFor(p, kek, r, dek, luck) == Failed(Unavailable)
      else
        var answer := WrapFor(p, kek, r, dek, luck);
        && answer.Wrapped? && |answer.blob| >= 1133
        && answer.blob[0] == 1
        && answer.blob[1..1121] == sent.value.ciphertext
        && answer.blob[1121..1133] == luck.nonce.value
        && answer.blob[1133..]
           == p.seal(sent.value.sharedSecret, luck.nonce.value, Ascii("trailryx.kek.wrap.v1") + kek, dek)
  {
    hide Encapsulate, Ascii;
    if PublicKey(p, r).None? {
      return;
    }
    var key := PublicKey(p, r).value;
    var sent := Encapsulate(p, key, luck.coins, luck.ephemeral);
    if sent.Some? && luck.nonce.Some? {
      var x := SentSecret(p, key, luck.coins, luck.ephemeral);
      assert |sent.value.ciphertext| == 1120;
      var sealed := p.seal(sent.value.sharedSecret, luck.nonce.value, WrapAad(kek), dek);
      assert WrapFor(p, kek, r, dek, luck).blob
          == [WRAP_VERSION] + sent.value.ciphertext + luck.nonce.value + sealed;
    }
  }

  /** What opens is a blob of version one that is long enough, whose ciphertext gives a secret under which the rest
      opens for this id; everything else is rejected, and nothing says why. */
  lemma OpensExactly(p: Primitives, kek: KeyId, r: Recipient, wrapped: Bytes)
    ensures var answer := OpenFor(p, kek, r, wrapped);
      if |wrapped| > 1133 && wrapped[0] == 1 && Decapsulate(p, r, wrapped[1..1121]).Some?
      then
        var dek := p.open(Decapsulate(p, r, wrapped[1..1121]).value, wrapped[1121..1133],
                          Ascii("trailryx.kek.wrap.v1") + kek, wrapped[1133..]);
        answer == if dek.Some? then Opened(dek.value) else Failed(Rejected)
      else answer == Failed(Rejected)
  {
    hide Decapsulate, Ascii;
  }

  /** A cipher that opens what was sealed with the same associated data only. */
  ghost predicate Bound(p: Primitives) {
    forall key, nonce, aad, text, key', nonce', aad' ::
      p.open(key', nonce', aad', p.seal(key, nonce, aad, text)).Some? ==> aad' == aad
  }

  /** A key wrapped under one id does not open under another, whoever holds it. */
  lemma BlobIsOfItsId(p: Primitives, kek: KeyId, r: Recipient, dek: Bytes, luck: Luck, other: KeyId, s: Recipient)
    requires Bound(p) && SendsInFull(p) && WrapFor(p, kek, r, dek, luck).Wrapped? && other != kek
    ensures OpenFor(p, other, s, WrapFor(p, kek, r, dek, luck).blob) == Failed(Rejected)
  {
    BlobLayout(p, kek, r, dek, luck);
    hide Encapsulate, Decapsulate, PublicKey, Ascii;
    var tag := Ascii("trailryx.kek.wrap.v1");
    var blob := WrapFor(p, kek, r, dek, luck).blob;
    if WrapAad(other) == WrapAad(kek) {
      SplitEqual(tag, tag, other, kek);
    }
    var secret := Decapsulate(p, s, blob[1..1121]);
    var sent := Encapsulate(p, PublicKey(p, r).value, luck.coins, luck.ephemeral).value;
    if |blob| > 1133 && secret.Some? {
      assert p.open(secret.value, blob[1121..1133], WrapAad(other),
                    p.seal(sent.sharedSecret, luck.nonce.value, WrapAad(kek), dek)).None?;
    }
  }

  // ---------------------------------------------------------------------------
  // The custodian in memory
  // ---------------------------------------------------------------------------

  datatype Memory = Memory(live: map<KeyId, Recipient>, tombstones: set<KeyId>)

  datatype Call =
    | Wrap(kek: KeyId, dek: Bytes, luck: Luck)
    | Unwrap(kek: KeyId, wrapped: Bytes)
    | Destroy(kek: KeyId, luck: Luck)

  /** The machine a custodian is: an id is absent, then live, then destroyed, and never comes back. */
  function Respond(p: Primitives, m: Memory, c: Call): (Memory, Answer) {
    match c
    case Wrap(kek, dek, luck) =>
      if kek in m.tombstones then (m, Failed(Rejected))
      else if kek in m.live then (m, WrapFor(p, kek, m.live[kek], dek, luck))
      else if luck.recipient.None? then (m, Failed(Unavailable))
      else
        var r := luck.recipient.value;
        (m.(live := m.live[kek := r]), WrapFor(p, kek, r, dek, luck))
    case Unwrap(kek, wrapped) =>
      (m, if kek in m.live then OpenFor(p, kek, m.live[kek], wrapped) else Failed(Rejected))
    case Destroy(kek, _) =>
      (Memory(m.live - {kek}, m.tombstones + {kek}), Gone(if kek in m.live then Now else Already))
  }

  /** The machine after some calls. */
  function After(p: Primitives, m: Memory, cs: seq<Call>): Memory {
    if cs == [] then m else Respond(p, After(p, m, cs[..|cs| - 1]), cs[|cs| - 1]).0
  }

  /** A call that can mint a key pair under this id. */
  predicate Mints(c: Call, kek: KeyId) {
    c.Wrap? && c.kek == kek && c.luck.recipient.Some?
  }

  predicate Destroys(c: Call, kek: KeyId) {
    c.Destroy? && c.kek == kek
  }

  /** An id exists after some calls if and only if one of them wrapped under it and could draw a key pair, and none of
      them destroyed it, before or after. */
  lemma {:induction false} ExistsExactly(p: Primitives, cs: seq<Call>, kek: KeyId)
    ensures kek in After(p, Memory(map[], {}), cs).live
       <==> (exists i :: 0 <= i < |cs| && Mints(cs[i], kek)) && forall i :: 0 <= i < |cs| ==> !Destroys(cs[i], kek)
    ensures kek in After(p, Memory(map[], {}), cs).tombstones <==> exists i :: 0 <= i < |cs| && Destroys(cs[i], kek)
    decreases |cs|
  {
    if cs != [] {
      var last := |cs| - 1;
      var front, c := cs[..last], cs[last];
      ExistsExactly(p, front, kek);
      hide WrapFor, OpenFor, After;
      assert forall i :: 0 <= i < last ==> front[i] == cs[i];
      if Mints(c, kek) || Destroys(c, kek) {
        assert Mints(cs[last], kek) || Destroys(cs[last], kek);
      }
      AfterSnoc(p, cs);
      assert (exists i :: 0 <= i < |cs| && Mints(cs[i], kek))
        <==> Mints(c, kek) || exists i :: 0 <= i < |front| && Mints(front[i], kek);
      assert (exists i :: 0 <= i < |cs| && Destroys(cs[i], kek))
        <==> Destroys(c, kek) || exists i :: 0 <= i < |front| && Destroys(front[i], kek);
    }
  }

  lemma AfterSnoc(p: Primitives, cs: seq<Call>)
    requires cs != []
    ensures var last := |cs| - 1;
      After(p, Memory(map[], {}), cs) == Respond(p, After(p, Memory(map[], {}), cs[..last]), cs[last]).0
  {
  }

  /** `HybridKeyProvider`. */
  class HybridKeyProvider {
    const p: Primitives
    var live: map<KeyId, Recipient>
    var tombstones: set<KeyId>

    ghost function State(): Memory
      reads this
    {
      Memory(live, tombstones)
    }

    constructor (p: Primitives)
      ensures this.p == p && State() == Memory(map[], {})
    {
      this.p := p;
      live, tombstones := map[], {};
    }

    method Wrap(kek: KeyId, dek: Bytes, luck: Luck) returns (r: Answer)
      modifies this`live
      ensures (State(), r) == Respond(p, old(State()), Call.Wrap(kek, dek, luck))
    {
      if kek in tombstones {
        return Failed(Rejected);
      }
      if kek !in live {
        if luck.recipient.None? {
          return Failed(Unavailable);
        }
        live := live[kek := luck.recipient.value];
      }
      r := WrapFor(p, kek, live[kek], dek, luck);
    }

    method Unwrap(kek: KeyId, wrapped: Bytes) returns (r: Answer)
      ensures (State(), r) == Respond(p, State(), Call.Unwrap(kek, wrapped))
    {
      if kek !in live {
        return Failed(Rejected);
      }
      r := OpenFor(p, kek, live[kek], wrapped);
    }

    method Destroy(kek: KeyId, ghost luck: Luck) returns (r: Answer)
      modifies this
      ensures (State(), r) == Respond(p, old(State()), Call.Destroy(kek, luck))
    {
      var existed := kek in live;
      live := live - {kek};
      tombstones := tombstones + {kek};
      r := Gone(if existed then Now else Already);
    }

    method Exists(kek: KeyId) returns (yes: bool)
      ensures yes <==> kek in State().live
    {
      yes := kek in live;
    }
  }
}
