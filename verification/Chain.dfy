/** The hash chain as the writer extends it. */
module Chain {
  import opened Words
  import opened Merkle
  import opened Evidence

  /** `chain_step` of the writer: the same preimage as the verifier's. */
  function ChainStep(h: Hash, prev: Digest, seqno: u64, record: Bytes): Digest {
    h(ChainPreimage(prev, seqno, record))
  }

  class ChainState {
    const h: Hash
    var head: Digest
    var length: nat

    /** `resume`; `genesis` is the same with an all-zero head and nothing written. */
    constructor (h: Hash, head: Digest, length: u64)
      ensures this.h == h && this.head == head && this.length == length
    {
      this.h, this.head, this.length := h, head, length;
    }

    /** Numbers go up by one, and the link binds the number. */
    method Append(record: Bytes) returns (link: Digest)
      requires length + 1 < 0x1_0000_0000_0000_0000
      modifies this
      ensures length == old(length) + 1
      ensures link == head == ChainStep(h, old(head), length, record)
    {
      var seqno := length + 1;
      head := ChainStep(h, head, seqno, record);
      length := seqno;
      return head;
    }
  }

  /** The head after appending these records to a chain of some length. */
  function Written(h: Hash, head: Digest, length: nat, bodies: seq<Bytes>): Digest
    requires length + |bodies| < 0x1_0000_0000_0000_0000
  {
    if bodies == [] then head
    else
      var last := |bodies| - 1;
      ChainStep(h, Written(h, head, length, bodies[..last]), length + |bodies|, bodies[last])
  }

  /** What a writer that starts a segment chains is what the verifier recomputes from the records, exactly because
      the records carry the numbers the writer counted. */
  lemma {:induction false} WriterAgrees(h: Hash, decode: Decoder, before: Digest, bodies: seq<Bytes>)
    requires |bodies| < 0x1_0000_0000_0000_0000
    requires AllDecode(decode, bodies) && Contiguous(decode, bodies)
    ensures Written(h, before, 0, bodies) == Head(h, decode, before, bodies)
  {
    hide ChainPreimage;
    if bodies != [] {
      var last := |bodies| - 1;
      assert forall i :: 0 <= i < last ==> bodies[..last][i] == bodies[i];
      assert Seqno(decode, bodies[last]) == last + 1;
      WriterAgrees(h, decode, before, bodies[..last]);
    }
  }

  /** `verify_step`. */
  predicate VerifyStep(h: Hash, prev: Digest, seqno: u64, record: Bytes, claimed: Digest) {
    ChainStep(h, prev, seqno, record) == claimed
  }

  /** A link vouches for one predecessor, one number and one record, or for a collision. */
  lemma LinkVouchesForOne(h: Hash, claimed: Digest, p: Digest, n: u64, r: Bytes, p': Digest, n': u64, r': Bytes)
    requires VerifyStep(h, p, n, r, claimed) && VerifyStep(h, p', n', r', claimed)
    ensures (p == p' && n == n' && r == r') || !CollisionFree(h, {ChainPreimage(p, n, r), ChainPreimage(p', n', r')})
  {
    var x, y := ChainPreimage(p, n, r), ChainPreimage(p', n', r');
    if CollisionFree(h, {x, y}) {
      NoCollision(h, {x, y}, x, y);
      ChainPreimageDecides(p, n, r, p', n', r');
    }
  }
}
