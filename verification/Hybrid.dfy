/** The hybrid key encapsulation: ML-KEM-768 and X25519 side by side, combined over everything both saw. */
module Hybrid {
  import opened Words

  type Bytes32 = b: Bytes | |b| == 32 witness seq(32, _ => 0)
  type Nonce = b: Bytes | |b| == 12 witness seq(12, _ => 0)

  const LABEL: seq<char> := "trailryx.kem.x25519-ml-kem-768.v1"

  /** The primitives the library supplies. `None` is a refusal. */
  datatype Primitives = Primitives(
    pqKeyParses: Bytes -> bool,
    pqEncapsulate: (Bytes, Bytes) -> Option<(Bytes, Bytes32)>,  // encapsulation key, randomness
    pqDecapsulate: (Bytes, Bytes) -> Option<Bytes32>,           // decapsulation key, ciphertext
    publicOf: Bytes32 -> Option<Bytes32>,
    agree: (Bytes32, Bytes32) -> Option<Bytes32>,               // own scalar, peer's public key
    kdf: Bytes -> Option<Bytes32>,
    derive: (seq<char>, Bytes) -> Option<Bytes32>,              // label, context; under the root key
    seal: (Bytes32, Nonce, Bytes, Bytes) -> Bytes,
    open: (Bytes32, Nonce, Bytes, Bytes) -> Option<Bytes>)

  /** What is assumed of the primitives: that each undoes its partner. Nothing is assumed about secrecy. */
  ghost predicate Ideal(p: Primitives) {
    && (forall a, b :: p.publicOf(a).Some? && p.publicOf(b).Some? ==>
          p.agree(a, p.publicOf(b).value) == p.agree(b, p.publicOf(a).value))
    && (forall key, nonce, aad, text :: p.open(key, nonce, aad, p.seal(key, nonce, aad, text)) == Some(text))
    && (forall key, nonce, aad, text :: |p.seal(key, nonce, aad, text)| == |text| + 16)
  }

  datatype Recipient = Recipient(pq: Bytes, pqPublic: Bytes, classicalPrivate: Bytes32)

  /** Both halves of the post-quantum pair belong together and have their lengths. */
  ghost predicate Matched(p: Primitives, r: Recipient) {
    && |r.pq| == 2400 && |r.pqPublic| == 1184 && p.pqKeyParses(r.pq)
    && forall coins :: var sent := p.pqEncapsulate(r.pqPublic, coins);
         sent.Some? ==> |sent.value.0| == 1088 && p.pqDecapsulate(r.pq, sent.value.0) == Some(sent.value.1)
  }

  // ---------------------------------------------------------------------------
  // The combiner
  // ---------------------------------------------------------------------------

  /** The six inputs in the order of the universal combiner, and the label. */
  function Preimage(ssPq: Bytes, ssT: Bytes, ctPq: Bytes, ctT: Bytes, ekPq: Bytes, ekT: Bytes): Bytes {
    ssPq + ssT + ctPq + ctT + ekPq + ekT + Ascii(LABEL)
  }

  /** No length prefix is needed: with these lengths the six inputs can be read back, so no exchange of two of them
      derives the same key by design. */
  lemma PreimageDecides(s: Bytes32, t: Bytes32, c: Bytes, d: Bytes32, e: Bytes, f: Bytes32,
                        s': Bytes32, t': Bytes32, c': Bytes, d': Bytes32, e': Bytes, f': Bytes32)
    requires |c| == |c'| == 1088 && |e| == |e'| == 1184
    requires Preimage(s, t, c, d, e, f) == Preimage(s', t', c', d', e', f')
    ensures s == s' && t == t' && c == c' && d == d' && e == e' && f == f'
  {
    var l := Ascii(LABEL);
    hide Ascii;
    SplitEqual(s + t + c + d + e + f, s' + t' + c' + d' + e' + f', l, l);
    SplitEqual(s + t + c + d + e, s' + t' + c' + d' + e', f, f');
    SplitEqual(s + t + c + d, s' + t' + c' + d', e, e');
    SplitEqual(s + t + c, s' + t' + c', d, d');
    SplitEqual(s + t, s' + t', c, c');
    SplitEqual(s, s', t, t');
  }

  function Combine(p: Primitives, ssPq: Bytes32, ssT: Bytes32, ctPq: Bytes, ctT: Bytes32, ekPq: Bytes, ekT: Bytes32)
    : Option<Bytes32>
  {
    p.kdf(Preimage(ssPq, ssT, ctPq, ctT, ekPq, ekT))
  }

  /** What a shared secret is derived from, by the places of its bytes: the ML-KEM secret, the X25519 secret, both
      parts of the ciphertext and both parts of the public key, then the label. */
  ghost predicate DerivedFrom(x: Bytes, ssPq: Bytes, ssT: Bytes, ciphertext: Bytes, publicKey: Bytes) {
    && |x| == 2433
    && x[..32] == ssPq && x[32..64] == ssT && x[64..1184] == ciphertext && x[1184..2400] == publicKey
    && x[2400..] == Ascii("trailryx.kem.x25519-ml-kem-768.v1")
  }

  lemma CombineLayout(p: Primitives, ssPq: Bytes32, ssT: Bytes32, ctPq: Bytes, ctT: Bytes32, ekPq: Bytes,
                      ekT: Bytes32)
    returns (x: Bytes)
    requires |ctPq| == 1088 && |ekPq| == 1184
    ensures Combine(p, ssPq, ssT, ctPq, ctT, ekPq, ekT) == p.kdf(x)
    ensures DerivedFrom(x, ssPq, ssT, ctPq + ctT, ekPq + ekT)
  {
    x := Preimage(ssPq, ssT, ctPq, ctT, ekPq, ekT);
  }

  /** A derivation whose answers can be told apart. */
  ghost predicate Injective(kdf: Bytes -> Option<Bytes32>) {
    forall a, b :: kdf(a).Some? && kdf(a) == kdf(b) ==> a == b
  }

  /** Under such a derivation one key comes from one set of inputs: all six of them are bound. */
  lemma CombineDecides(p: Primitives, s: Bytes32, t: Bytes32, c: Bytes, d: Bytes32, e: Bytes, f: Bytes32,
                       s': Bytes32, t': Bytes32, c': Bytes, d': Bytes32, e': Bytes, f': Bytes32)
    requires |c| == |c'| == 1088 && |e| == |e'| == 1184 && Injective(p.kdf)
    requires Combine(p, s, t, c, d, e, f).Some?
    requires Combine(p, s, t, c, d, e, f) == Combine(p, s', t', c', d', e', f')
    ensures s == s' && t == t' && c == c' && d == d' && e == e' && f == f'
  {
    var x, y := Preimage(s, t, c, d, e, f), Preimage(s', t', c', d', e', f');
    assert x == y;
    PreimageDecides(s, t, c, d, e, f, s', t', c', d', e', f');
  }

  // ---------------------------------------------------------------------------
  // Recipients
  // ---------------------------------------------------------------------------

  function PublicHalves(p: Primitives, r: Recipient): Option<(Bytes, Bytes32)> {
    if |r.pqPublic| != 1184 || p.publicOf(r.classicalPrivate).None? then None
    else Some((r.pqPublic, p.publicOf(r.classicalPrivate).value))
  }

  function PublicKey(p: Primitives, r: Recipient): Option<Bytes> {
    var halves := PublicHalves(p, r);
    if halves.None? then None else Some(halves.value.0 + halves.value.1)
  }

  /** What a custodian writes down: `dk_PQ || sk_T || ek_PQ`. */
  function Secret(r: Recipient): Option<Bytes> {
    if |r.pq| != 2400 || |r.pqPublic| != 1184 then None else Some(r.pq + r.classicalPrivate + r.pqPublic)
  }

  /** `secret`, filling its buffer part by part. */
  method FillSecret(r: Recipient) returns (secret: Option<Bytes>)
    ensures secret == Secret(r)
  {
    if |r.pq| != 2400 || |r.pqPublic| != 1184 {
      return None;
    }
    var out := new u8[3616](_ => 0);
    forall i | 0 <= i < 2400 {
      out[i] := r.pq[i];
    }
    forall i | 0 <= i < 32 {
      out[2400 + i] := r.classicalPrivate[i];
    }
    forall i | 0 <= i < 1184 {
      out[2432 + i] := r.pqPublic[i];
    }
    assert out[..] == r.pq + r.classicalPrivate + r.pqPublic;
    return Some(out[..]);
  }

  /** `RecipientSecret::from_bytes` and `from_secret`. */
  function FromSecret(p: Primitives, bytes: Bytes): Option<Recipient> {
    if |bytes| != 3616 || !p.pqKeyParses(bytes[..2400]) then None
    else Some(Recipient(bytes[..2400], bytes[2432..], bytes[2400..2432]))
  }

  /** What was written down is read back as the same recipient, and only what was written down is read as one. */
  lemma SecretRoundTrip(p: Primitives, r: Recipient, bytes: Bytes)
    ensures FromSecret(p, bytes) == Some(r) <==> Secret(r) == Some(bytes) && p.pqKeyParses(r.pq)
  {
    if Secret(r) == Some(bytes) {
      assert bytes[..2400] == r.pq && bytes[2400..2432] == r.classicalPrivate && bytes[2432..] == r.pqPublic;
    }
    if FromSecret(p, bytes) == Some(r) {
      assert bytes == bytes[..2400] + bytes[2400..2432] + bytes[2432..];
    }
  }

  lemma SecretReadsBack(p: Primitives, r: Recipient)
    requires Secret(r).Some?
    ensures FromSecret(p, Secret(r).value) == if p.pqKeyParses(r.pq) then Some(r) else None
  {
    SecretRoundTrip(p, r, Secret(r).value);
    assert Secret(r).value[..2400] == r.pq;
  }

  // ---------------------------------------------------------------------------
  // Encapsulation
  // ---------------------------------------------------------------------------

  datatype Encapsulated = Encapsulated(ciphertext: Bytes, sharedSecret: Bytes32)

  /** `encapsulate`, with the randomness of both halves as arguments. */
  function Encapsulate(p: Primitives, publicKey: Bytes, coins: Bytes, ephemeral: Bytes32): Option<Encapsulated> {
    if |publicKey| != 1216 then None
    else
      var ekPq, ekT := publicKey[..1184], publicKey[1184..];
      var sent, ctT := p.pqEncapsulate(ekPq, coins), p.publicOf(ephemeral);
      if sent.None? || ctT.None? then None
      else
        var ssT := p.agree(ephemeral, ekT);
        if ssT.None? then None
        else
          var key := Combine(p, sent.value.1, ssT.value, sent.value.0, ctT.value, ekPq, ekT);
          if key.None? then None else Some(Encapsulated(sent.value.0 + ctT.value, key.value))
  }

  function Decapsulate(p: Primitives, r: Recipient, ciphertext: Bytes): Option<Bytes32> {
    if |ciphertext| != 1120 then None
    else
      var ctPq, ctT := ciphertext[..1088], ciphertext[1088..];
      var ssPq, ssT, halves := p.pqDecapsulate(r.pq, ctPq), p.agree(r.classicalPrivate, ctT), PublicHalves(p, r);
      if ssPq.None? || ssT.None? || halves.None? then None
      else Combine(p, ssPq.value, ssT.value, ctPq, ctT, halves.value.0, halves.value.1)
  }

  /** Both sides end up with the same secret, for every randomness of the sender. */
  lemma SidesAgree(p: Primitives, r: Recipient, coins: Bytes, ephemeral: Bytes32)
    requires Ideal(p) && Matched(p, r) && PublicKey(p, r).Some?
    ensures var sent := Encapsulate(p, PublicKey(p, r).value, coins, ephemeral);
      sent.Some? ==>
        |sent.value.ciphertext| == 1120 && Decapsulate(p, r, sent.value.ciphertext) == Some(sent.value.sharedSecret)
  {
    var key := PublicKey(p, r).value;
    assert key[..1184] == r.pqPublic && key[1184..] == PublicHalves(p, r).value.1;
    var sent := Encapsulate(p, key, coins, ephemeral);
    if sent.Some? {
      var c := sent.value.ciphertext;
      var pq := p.pqEncapsulate(r.pqPublic, coins).value;
      assert c[..1088] == pq.0 && c[1088..] == p.publicOf(ephemeral).value;
    }
  }

  /** What the sender's secret is derived from: the post-quantum secret its encapsulation made, what it agreed with
      the recipient's classical key, everything sent and the public key it was sent to. */
  lemma SentSecret(p: Primitives, publicKey: Bytes, coins: Bytes, ephemeral: Bytes32) returns (x: Bytes)
    requires Encapsulate(p, publicKey, coins, ephemeral).Some? && SendsInFull(p)
    ensures var sent := Encapsulate(p, publicKey, coins, ephemeral).value;
      var pq, ssT := p.pqEncapsulate(publicKey[..1184], coins), p.agree(ephemeral, publicKey[1184..]);
      && pq.Some? && ssT.Some? && p.kdf(x) == Some(sent.sharedSecret)
      && DerivedFrom(x, pq.value.1, ssT.value, sent.ciphertext, publicKey)
      && sent.ciphertext[..1088] == pq.value.0 && Some(sent.ciphertext[1088..]) == p.publicOf(ephemeral)
  {
    var ekPq, ekT := publicKey[..1184], publicKey[1184..];
    var pq, ssT, ctT := p.pqEncapsulate(ekPq, coins).value, p.agree(ephemeral, ekT).value, p.publicOf(ephemeral).value;
    x := CombineLayout(p, pq.1, ssT, pq.0, ctT, ekPq, ekT);
    assert ekPq + ekT == publicKey;
  }

  /** Every ciphertext of the post-quantum half has its length. */
  ghost predicate SendsInFull(p: Primitives) {
    forall key, coins :: p.pqEncapsulate(key, coins).Some? ==> |p.pqEncapsulate(key, coins).value.0| == 1088
  }

  /** What the recipient's secret is derived from: what both of its private halves make of the ciphertext, the
      ciphertext, and its own public key. */
  lemma ReceivedSecret(p: Primitives, r: Recipient, ciphertext: Bytes) returns (x: Bytes)
    requires Decapsulate(p, r, ciphertext).Some?
    ensures |ciphertext| == 1120 && PublicKey(p, r).Some?
    ensures var ssPq, ssT := p.pqDecapsulate(r.pq, ciphertext[..1088]), p.agree(r.classicalPrivate, ciphertext[1088..]);
      && ssPq.Some? && ssT.Some? && p.kdf(x) == Decapsulate(p, r, ciphertext)
      && DerivedFrom(x, ssPq.value, ssT.value, ciphertext, PublicKey(p, r).value)
  {
    var ctPq, ctT, halves := ciphertext[..1088], ciphertext[1088..], PublicHalves(p, r).value;
    var ssPq, ssT := p.pqDecapsulate(r.pq, ctPq).value, p.agree(r.classicalPrivate, ctT).value;
    x := CombineLayout(p, ssPq, ssT, ctPq, ctT, halves.0, halves.1);
    assert ctPq + ctT == ciphertext;
  }

  /** A derivation that refuses nothing. */
  ghost predicate AnswersAll(kdf: Bytes -> Option<Bytes32>) {
    forall x :: kdf(x).Some?
  }

  /** Nothing but a wrong length and the refusal of a primitive keeps either side from its secret. */
  lemma RefusalsAreNamed(p: Primitives, publicKey: Bytes, coins: Bytes, ephemeral: Bytes32, r: Recipient,
                         ciphertext: Bytes)
    requires AnswersAll(p.kdf)
    ensures Encapsulate(p, publicKey, coins, ephemeral).Some? <==>
      && |publicKey| == 1216 && p.pqEncapsulate(publicKey[..1184], coins).Some? && p.publicOf(ephemeral).Some?
      && p.agree(ephemeral, publicKey[1184..]).Some?
    ensures Decapsulate(p, r, ciphertext).Some? <==>
      && |ciphertext| == 1120 && p.pqDecapsulate(r.pq, ciphertext[..1088]).Some?
      && p.agree(r.classicalPrivate, ciphertext[1088..]).Some?
      && |r.pqPublic| == 1184 && p.publicOf(r.classicalPrivate).Some?
  {
    if |publicKey| == 1216 {
      var ekPq, ekT := publicKey[..1184], publicKey[1184..];
      var sent, ctT, ssT := p.pqEncapsulate(ekPq, coins), p.publicOf(ephemeral), p.agree(ephemeral, ekT);
      if sent.Some? && ctT.Some? && ssT.Some? {
        assert Combine(p, sent.value.1, ssT.value, sent.value.0, ctT.value, ekPq, ekT).Some?;
      }
    }
    if |ciphertext| == 1120 {
      var ctPq, ctT := ciphertext[..1088], ciphertext[1088..];
      var ssPq, ssT, halves := p.pqDecapsulate(r.pq, ctPq), p.agree(r.classicalPrivate, ctT), PublicHalves(p, r);
      if ssPq.Some? && ssT.Some? && halves.Some? {
        assert Combine(p, ssPq.value, ssT.value, ctPq, ctT, halves.value.0, halves.value.1).Some?;
      }
    }
  }

  /** A published key is the ML-KEM key and then the X25519 one. */
  lemma PublicKeyLayout(p: Primitives, r: Recipient)
    ensures PublicKey(p, r).Some? <==> |r.pqPublic| == 1184 && p.publicOf(r.classicalPrivate).Some?
    ensures PublicKey(p, r).Some? ==> var key := PublicKey(p, r).value;
      |key| == 1216 && key[..1184] == r.pqPublic && Some(key[1184..]) == p.publicOf(r.classicalPrivate)
  {
  }

  /** A secret is the decapsulation key, the X25519 private key and the encapsulation key. */
  lemma SecretLayout(r: Recipient)
    ensures Secret(r).Some? <==> |r.pq| == 2400 && |r.pqPublic| == 1184
    ensures Secret(r).Some? ==> var bytes := Secret(r).value;
      && |bytes| == 3616 && bytes[..2400] == r.pq && bytes[2400..2432] == r.classicalPrivate
      && bytes[2432..] == r.pqPublic
  {
  }

  /** A sender and a recipient that hold one secret agree on everything it is derived from: both shared secrets, the
      whole ciphertext and the whole public key. */
  lemma SharedSecretDecides(p: Primitives, publicKey: Bytes, coins: Bytes, ephemeral: Bytes32, r: Recipient,
                            ciphertext: Bytes)
    requires Injective(p.kdf) && SendsInFull(p) && Encapsulate(p, publicKey, coins, ephemeral).Some?
    requires Decapsulate(p, r, ciphertext) == Some(Encapsulate(p, publicKey, coins, ephemeral).value.sharedSecret)
    ensures ciphertext == Encapsulate(p, publicKey, coins, ephemeral).value.ciphertext
    ensures PublicKey(p, r) == Some(publicKey)
    ensures var pq, ssPq := p.pqEncapsulate(publicKey[..1184], coins), p.pqDecapsulate(r.pq, ciphertext[..1088]);
      pq.Some? && ssPq == Some(pq.value.1)
    ensures p.agree(r.classicalPrivate, ciphertext[1088..]) == p.agree(ephemeral, publicKey[1184..])
  {
    hide Encapsulate, Decapsulate, PublicKey, Ascii;
    var x := SentSecret(p, publicKey, coins, ephemeral);
    var y := ReceivedSecret(p, r, ciphertext);
    assert x == y;
  }

  /** Two ciphertexts that give secrets at two recipients give the same one only when they are one ciphertext to one
      public key. */
  lemma ReceivedSecretDecides(p: Primitives, r: Recipient, ciphertext: Bytes, r': Recipient, ciphertext': Bytes)
    requires Injective(p.kdf) && Decapsulate(p, r, ciphertext).Some?
    requires Decapsulate(p, r, ciphertext) == Decapsulate(p, r', ciphertext')
    ensures ciphertext == ciphertext' && PublicKey(p, r) == PublicKey(p, r')
    ensures p.pqDecapsulate(r.pq, ciphertext[..1088]) == p.pqDecapsulate(r'.pq, ciphertext'[..1088])
    ensures p.agree(r.classicalPrivate, ciphertext[1088..]) == p.agree(r'.classicalPrivate, ciphertext'[1088..])
  {
    hide Decapsulate, PublicKey, Ascii;
    var x := ReceivedSecret(p, r, ciphertext);
    var y := ReceivedSecret(p, r', ciphertext');
    assert x == y;
  }
}
