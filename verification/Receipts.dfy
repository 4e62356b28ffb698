// Receipts and signed tree heads (hatls/receipt.py), and the comparison of a witnessed head with a
// later one (hatls/federation.py).
module Receipts {
  import opened Octets
  import opened MerkleTree
  import opened MerkleTheorems
  import opened Primitives

  /** What a relying party keeps of one decision. */
  datatype Receipt = Receipt(entry: Bytes, index: int, proof: seq<Bytes>, sth: Sth)

  predicate VerifySth(c: Crypto, key: Bytes, sth: Sth) {
    c.signedBy(key, c.sthBytes(sth.size, sth.root, sth.at), sth.sig)
  }

  datatype ReceiptFinding = HeadUnsigned | EntryNotInLog | ReceiptVerifies

  function VerifyReceipt(c: Crypto, key: Bytes, r: Receipt): ReceiptFinding {
    if !VerifySth(c, key, r.sth) then HeadUnsigned
    else if !InclusionAccepts(c.sha256, r.entry, r.index, r.sth.size, r.proof, r.sth.root) then EntryNotInLog
    else ReceiptVerifies
  }

  /** `sth` is a head of the log `leaves`, signed by `key`. */
  ghost predicate HeadOf(c: Crypto, key: Bytes, sth: Sth, leaves: seq<Bytes>) {
    VerifySth(c, key, sth) && sth.size == |leaves| && sth.root == Root(c.sha256, leaves)
  }

  /** A consistency proof as a peer may offer it: not at all, with unreadable hex, or as bytes. */
  datatype Offer = Withheld | Unreadable | Offered(proof: seq<Bytes>)

  /** What `is_equivocation` and `divergence` may answer; `BadHead` stands for their exception. */
  datatype Finding =
    | BadHead | SameHead | Extends
    | Equivocation | SameSizeFork | Shrunk | NoProof | CannotShow

  predicate Cleared(f: Finding) { f == SameHead || f == Extends }

  function ProofIn(offer: Offer): seq<Bytes> { if offer.Offered? then offer.proof else [] }

  predicate OfferAccepted(c: Crypto, oldRoot: Bytes, m: int, newRoot: Bytes, n: int, offer: Offer) {
    offer.Offered? && ConsistencyAccepts(c.sha256, oldRoot, m, newRoot, n, offer.proof)
  }

  function IsEquivocation(c: Crypto, key: Bytes, a: Sth, b: Sth, aToB: Offer, bToA: Offer): Finding {
    if !VerifySth(c, key, a) || !VerifySth(c, key, b) then BadHead
    else if a.root == b.root && a.size == b.size then SameHead
    else
      var (lo, hi, offer) := if a.size <= b.size then (a, b, aToB) else (b, a, bToA);
      if OfferAccepted(c, lo.root, lo.size, hi.root, hi.size, offer) then Extends else Equivocation
  }

  function Divergence(c: Crypto, key: Bytes, claimedSize: int, claimedRoot: Bytes, later: Sth, offer: Offer): Finding {
    if !VerifySth(c, key, later) then BadHead
    else if claimedSize == later.size then (if claimedRoot == later.root then SameHead else SameSizeFork)
    else if claimedSize > later.size then Shrunk
    else if offer.Withheld? then NoProof
    else if OfferAccepted(c, claimedRoot, claimedSize, later.root, later.size, offer) then Extends
    else CannotShow
  }

  // ---------- receipts ----------

  /** The receipt the mandate issues for any leaf of its log verifies under its own key. */
  lemma HonestReceiptVerifies(c: Crypto, key: Bytes, leaves: seq<Bytes>, i: nat, sth: Sth)
    requires i < |leaves| && HeadOf(c, key, sth, leaves)
    ensures VerifyReceipt(c, key, Receipt(leaves[i], i, InclusionProof(c.sha256, leaves, i), sth)) == ReceiptVerifies
  {
    InclusionAcceptsHonest(c.sha256, leaves, i);
  }

  /** A receipt that verifies under a head of `leaves` names the entry really logged at that index. */
  lemma ReceiptIsBinding(c: Crypto, key: Bytes, leaves: seq<Bytes>, r: Receipt)
    requires VerifyReceipt(c, key, r) == ReceiptVerifies && HeadOf(c, key, r.sth, leaves)
    ensures 0 <= r.index < |leaves|
    ensures (r.entry == leaves[r.index] && r.proof == InclusionProof(c.sha256, leaves, r.index))
         || Collides(c.sha256, InclusionInputs(c.sha256, leaves, r.entry, r.index, r.proof))
  {
    InclusionAcceptsOnlyHonest(c.sha256, leaves, r.entry, r.index, r.proof);
  }

  /** Exactly what a receipt is answered with: the signature over its head comes first. */
  lemma ReceiptExactly(c: Crypto, key: Bytes, r: Receipt)
    ensures var why, signed := VerifyReceipt(c, key, r),
        c.signedBy(key, c.sthBytes(r.sth.size, r.sth.root, r.sth.at), r.sth.sig);
            var included := InclusionAccepts(c.sha256, r.entry, r.index, r.sth.size, r.proof, r.sth.root);
            && (why == HeadUnsigned <==> !signed)
            && (why == EntryNotInLog <==> signed && !included)
            && (why == ReceiptVerifies <==> signed && included)
  {
  }

  /** The key signs nothing but sizes and roots of prefixes of this log. */
  ghost predicate SignsOnly(c: Crypto, key: Bytes, leaves: seq<Bytes>) {
    forall size, root, at, sig :: c.signedBy(key, c.sthBytes(size, root, at), sig) ==>
      0 <= size <= |leaves| && root == Root(c.sha256, leaves[..size])
  }

  /** Under an honest key nothing is asked of a receipt but that it verifies: it names the entry really
      logged at its index. */
  lemma VerifyingReceiptBinds(c: Crypto, key: Bytes, leaves: seq<Bytes>, r: Receipt)
    requires SignsOnly(c, key, leaves) && VerifyReceipt(c, key, r) == ReceiptVerifies
    ensures 0 <= r.index < r.sth.size <= |leaves|
    ensures r.entry == leaves[r.index]
         || Collides(c.sha256, InclusionInputs(c.sha256, leaves[..r.sth.size], r.entry, r.index, r.proof))
  {
    ReceiptIsBinding(c, key, leaves[..r.sth.size], r);
  }

  // ---------- two heads: exactly when they are cleared ----------

  /** One head can be shown to extend the other: the smaller log is a prefix of the larger, and it
      is not the empty log beside a longer one. */
  ghost predicate Showable(a: seq<Bytes>, b: seq<Bytes>) {
    a <= b && (a == [] ==> b == [])
  }

  function HonestOffer(h: Hash, leaves: seq<Bytes>, m: nat): Offer {
    if 0 < m <= |leaves| then Offered(ConsistencyProof(h, leaves, m)) else Withheld
  }

  /** A peer whose log really grew from the claimed head is cleared by the proof it can give. */
  lemma DivergenceClearsHonest(c: Crypto, key: Bytes, a: seq<Bytes>, b: seq<Bytes>, later: Sth)
    requires HeadOf(c, key, later, b) && Showable(a, b)
    ensures Cleared(Divergence(c, key, |a|, Root(c.sha256, a), later, HonestOffer(c.sha256, b, |a|)))
  {
    assert b[..|a|] == a;
    if |a| == |b| {
      assert a == b;
    } else {
      ConsistencyAcceptsHonest(c.sha256, b, |a|);
    }
  }

  lemma SameSizeInputs(h: Hash, a: seq<Bytes>, b: seq<Bytes>, proof: seq<Bytes>)
    ensures RootInputs(h, a) + RootInputs(h, b) <= ConsistencyInputs(h, a, b, proof)
  {
    hide RootInputs;
  }

  /** No offer clears a pair of logs that cannot be shown to extend one another. */
  lemma DivergenceClearsOnlyHonest(c: Crypto, key: Bytes, a: seq<Bytes>, b: seq<Bytes>, later: Sth, offer: Offer)
    requires HeadOf(c, key, later, b)
    requires Cleared(Divergence(c, key, |a|, Root(c.sha256, a), later, offer))
    ensures Showable(a, b)
         || Collides(c.sha256, ConsistencyInputs(c.sha256, a, b, ProofIn(offer)))
  {
    hide ConsistencyAccepts, Root, RootInputs, ConsistencyInputs, HonestProof, Collides;
    var proof := ProofIn(offer);
    if |a| == |b| {
      if !Collides(c.sha256, ConsistencyInputs(c.sha256, a, b, proof)) {
        SameSizeInputs(c.sha256, a, b, proof);
        RootInjective(c.sha256, ConsistencyInputs(c.sha256, a, b, proof), a, b);
      }
    } else {
      ConsistencyAcceptsOnlyHonest(c.sha256, a, b, proof);
    }
  }

  lemma EquivocationClearsHonest(c: Crypto, key: Bytes, a: seq<Bytes>, b: seq<Bytes>, ha: Sth, hb: Sth)
    requires HeadOf(c, key, ha, a) && HeadOf(c, key, hb, b)
    requires Showable(a, b) || Showable(b, a)
    ensures Cleared(IsEquivocation(c, key, ha, hb, HonestOffer(c.sha256, b, |a|), HonestOffer(c.sha256, a, |b|)))
  {
    if Showable(a, b) {
      assert b[..|a|] == a;
      if a != b { ConsistencyAcceptsHonest(c.sha256, b, |a|); }
    } else {
      assert a[..|b|] == b;
      ConsistencyAcceptsHonest(c.sha256, a, |b|);
    }
  }

  lemma EquivocationClearsOnlyHonest(c: Crypto, key: Bytes, a: seq<Bytes>, b: seq<Bytes>, ha: Sth, hb: Sth,
                                     aToB: Offer, bToA: Offer)
    requires HeadOf(c, key, ha, a) && HeadOf(c, key, hb, b)
    requires Cleared(IsEquivocation(c, key, ha, hb, aToB, bToA))
    ensures var (lo, hi, offer) := if |a| <= |b| then (a, b, aToB) else (b, a, bToA);
            Showable(lo, hi)
            || Collides(c.sha256, ConsistencyInputs(c.sha256, lo, hi, ProofIn(offer)))
  {
    hide ConsistencyAccepts, Root, RootInputs, ConsistencyInputs, HonestProof, Collides;
    var (lo, hi, offer) := if |a| <= |b| then (a, b, aToB) else (b, a, bToA);
    var proof := ProofIn(offer);
    if ha.root == hb.root && |a| == |b| {
      if !Collides(c.sha256, ConsistencyInputs(c.sha256, lo, hi, proof)) {
        SameSizeInputs(c.sha256, lo, hi, proof);
        RootInjective(c.sha256, ConsistencyInputs(c.sha256, lo, hi, proof), lo, hi);
      }
    } else {
      ConsistencyAcceptsOnlyHonest(c.sha256, lo, hi, proof);
    }
  }

  /** None stands for the exception on a head that is not this mandate's. */
  function VerifyExtension(c: Crypto, key: Bytes, old_: Sth, new_: Sth, proof: seq<Bytes>): Option<bool> {
    if !VerifySth(c, key, old_) || !VerifySth(c, key, new_) then None
    else Some(ConsistencyAccepts(c.sha256, old_.root, old_.size, new_.root, new_.size, proof))
  }

  /** Between heads of two logs, the one proof that can be accepted is the honest one, and it is
      accepted exactly if the first log can be shown to be a prefix of the second. */
  lemma ExtensionIsExact(c: Crypto, key: Bytes, a: seq<Bytes>, b: seq<Bytes>, ha: Sth, hb: Sth, proof: seq<Bytes>)
    requires HeadOf(c, key, ha, a) && HeadOf(c, key, hb, b)
    ensures VerifyExtension(c, key, ha, hb, proof) == Some(true)
         <== Showable(a, b) && proof == HonestProof(c.sha256, b, |a|)
    ensures VerifyExtension(c, key, ha, hb, proof) == Some(true)
        ==> (Showable(a, b) && proof == HonestProof(c.sha256, b, |a|))
            || Collides(c.sha256, ConsistencyInputs(c.sha256, a, b, proof))
  {
    hide ConsistencyAccepts, Root;
    if Showable(a, b) {
      assert b[..|a|] == a;
      ConsistencyAcceptsHonest(c.sha256, b, |a|);
    }
    if VerifyExtension(c, key, ha, hb, proof) == Some(true) { ConsistencyAcceptsOnlyHonest(c.sha256, a, b, proof); }
  }

  /** Exactly what two heads are answered with; an accusation needs two signed heads. */
  lemma EquivocationExactly(c: Crypto, key: Bytes, a: Sth, b: Sth, aToB: Offer, bToA: Offer)
    ensures var why := IsEquivocation(c, key, a, b, aToB, bToA);
            var signed := && c.signedBy(key, c.sthBytes(a.size, a.root, a.at), a.sig)
                          && c.signedBy(key, c.sthBytes(b.size, b.root, b.at), b.sig);
            var same := a.root == b.root && a.size == b.size;
            var shown := if a.size <= b.size then aToB.Offered?
                && ConsistencyAccepts(c.sha256, a.root, a.size, b.root, b.size, aToB.proof)
                         else bToA.Offered? && ConsistencyAccepts(c.sha256, b.root, b.size, a.root, a.size, bToA.proof);
            && (why == BadHead <==> !signed)
            && (why == SameHead <==> signed && same)
            && (why == Extends <==> signed && !same && shown)
            && (why == Equivocation <==> signed && !same && !shown)
  {
    hide ConsistencyAccepts;
  }

  lemma DivergenceExactly(c: Crypto, key: Bytes, size: int, root: Bytes, later: Sth, offer: Offer)
    ensures var why := Divergence(c, key, size, root, later, offer);
            var signed := c.signedBy(key, c.sthBytes(later.size, later.root, later.at), later.sig);
            var shown := offer.Offered? && ConsistencyAccepts(c.sha256, root, size, later.root, later.size,
                offer.proof);
            && (why == BadHead <==> !signed)
            && (why == SameHead <==> signed && size == later.size && root == later.root)
            && (why == SameSizeFork <==> signed && size == later.size && root != later.root)
            && (why == Shrunk <==> signed && size > later.size)
            && (why == NoProof <==> signed && size < later.size && offer.Withheld?)
            && (why == Extends <==> signed && size < later.size && shown)
            && (why == CannotShow <==> signed && size < later.size && !offer.Withheld? && !shown)
  {
    hide ConsistencyAccepts;
  }

  lemma ExtensionNeedsSignatures(c: Crypto, key: Bytes, a: Sth, b: Sth, proof: seq<Bytes>)
    ensures VerifyExtension(c, key, a, b, proof).Some? <==>
              && c.signedBy(key, c.sthBytes(a.size, a.root, a.at), a.sig)
              && c.signedBy(key, c.sthBytes(b.size, b.root, b.at), b.sig)
    ensures VerifyExtension(c, key, a, b, proof).Some? ==>
              VerifyExtension(c, key, a, b, proof).value
              == ConsistencyAccepts(c.sha256, a.root, a.size, b.root, b.size, proof)
  {
    hide ConsistencyAccepts;
  }

  /** The clause about the empty log in `Showable` is needed: an honest log is flagged against its
      own first, empty head, whatever proof is offered. */
  lemma EmptyHeadIsFlagged(c: Crypto, key: Bytes, leaves: seq<Bytes>, h0: Sth, h1: Sth, aToB: Offer, bToA: Offer)
    requires HeadOf(c, key, h0, []) && HeadOf(c, key, h1, leaves) && leaves != []
    ensures IsEquivocation(c, key, h0, h1, aToB, bToA) == Equivocation
    ensures Divergence(c, key, 0, Root(c.sha256, []), h1, aToB) in {NoProof, CannotShow}
  {
  }
}
