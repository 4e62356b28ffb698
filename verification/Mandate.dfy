// The mandate itself (hatls/protocol.py): a class whose methods update its fields in the source's
// order. Each is proved against the functions of Ledger.dfy.
module MandateService {
  import opened Octets
  import opened Primitives
  import opened MerkleTree
  import opened Receipts
  import opened Federation
  import opened Hkdf
  import opened Ledger

  class MerkleLog {
    var entries: seq<Bytes>

    constructor (initial: seq<Bytes>)
      ensures entries == initial
    {
      entries := initial;
    }

    method Append(h: Hash, entry: Bytes) returns (index: nat, head: Digest)
      modifies this
      ensures entries == old(entries) + [entry]
      ensures index == |old(entries)| && head == Root(h, entries)
    {
      entries := entries + [entry];
      return |entries| - 1, Root(h, entries);
    }

    /** None stands for the IndexError on an index out of range. */
    method ProveInclusion(h: Hash, m: int) returns (proof: Option<seq<Bytes>>)
      ensures proof.Some? <==> 0 <= m < |entries|
      ensures proof.Some? ==> forall e ::
        InclusionAccepts(h, e, m, |entries|, proof.value, Root(h, entries)) <== e == entries[m]
    {
      if !(0 <= m < |entries|) { return None; }
      T.InclusionAcceptsHonest(h, entries, m);
      return Some(InclusionProof(h, entries, m));
    }

    method ProveConsistency(h: Hash, m: int) returns (proof: Option<seq<Bytes>>)
      ensures proof.Some? <==> 0 < m <= |entries|
      ensures proof.Some? ==>
        ConsistencyAccepts(h, Root(h, entries[..m]), m, Root(h, entries), |entries|, proof.value)
    {
      if !(0 < m <= |entries|) { return None; }
      T.ConsistencyAcceptsHonest(h, entries, m);
      return Some(ConsistencyProof(h, entries, m));
    }
  }

  import T = MerkleTheorems

  /** The signing key really signs for the public key: verification accepts its signatures. */
  ghost predicate SignsFor(g: Config, sign: Bytes -> Bytes) {
    forall m :: g.c.signedBy(g.publicKey, m, sign(m))
  }

  class Mandate {
    const g: Config
    const sign: Bytes -> Bytes
    const merkle: MerkleLog
    var store: map<Bytes, Record>
    var sessions: map<(Bytes, Bytes), Session>
    var challenges: map<Bytes, real>
    var roots: map<Bytes, nat>
    var lastReceipt: Option<Receipt>
    ghost var log: seq<Entry>

    ghost predicate Valid()
      reads this, merkle
    {
      merkle.entries == Leaves(g.c, log)
    }

    ghost function View(): State
      reads this
    {
      State(store, sessions, challenges, log, roots)
    }

    /** `store` may be the ledger an earlier mandate left. */
    constructor (g: Config, sign: Bytes -> Bytes, store: map<Bytes, Record>)
      ensures Valid() && View() == Begin(g.c, store)
      ensures this.g == g && this.sign == sign && fresh(merkle)
    {
      this.g, this.sign, this.store := g, sign, store;
      merkle := new MerkleLog([]);
      sessions, challenges := map[], map[];
      roots := map[Root(g.c.sha256, []) := 0];
      lastReceipt, log := None, [];
    }

    // ---------- the log ----------

    predicate KnowsHead(head: Bytes)
      reads this
    {
      head in roots
    }

    method SignedHead(now: real) returns (sth: Sth)
      requires Valid()
      ensures sth.size == |log| && sth.root == Root(g.c.sha256, Leaves(g.c, log)) && sth.at == Seconds(now)
      ensures SignsFor(g, sign) ==> HeadOf(g.c, g.publicKey, sth, Leaves(g.c, log))
    {
      var size, root, at := |merkle.entries|, Root(g.c.sha256, merkle.entries), Seconds(now);
      sth := Sth(size, root, at, sign(g.c.sthBytes(size, root, at)));
    }

    /** A receipt for any entry; with a working signing key it verifies. */
    method IssueReceipt(index: nat, now: real) returns (r: Receipt)
      requires Valid() && index < |log|
      ensures r.entry == g.c.entryBytes(log[index]) && r.index == index
      ensures r.proof == InclusionProof(g.c.sha256, Leaves(g.c, log), index)
      ensures r.sth.size == |log| && r.sth.root == Root(g.c.sha256, Leaves(g.c, log)) && r.sth.at == Seconds(now)
      ensures SignsFor(g, sign) ==> VerifyReceipt(g.c, g.publicKey, r) == ReceiptVerifies
    {
      var sth := SignedHead(now);
      r := Receipt(merkle.entries[index], index, InclusionProof(g.c.sha256, merkle.entries, index), sth);
      if SignsFor(g, sign) {
        HonestReceiptVerifies(g.c, g.publicKey, Leaves(g.c, log), index, sth);
      }
    }

    method ProveExtension(oldSize: int) returns (proof: Option<seq<Bytes>>)
      requires Valid()
      ensures proof.Some? <==> 0 < oldSize <= |log|
      ensures proof.Some? ==> ConsistencyAccepts(g.c.sha256, Root(g.c.sha256, Leaves(g.c, log[..oldSize])), oldSize,
                                                 Root(g.c.sha256, Leaves(g.c, log)), |log|, proof.value)
    {
      proof := merkle.ProveConsistency(g.c.sha256, oldSize);
      if proof.Some? {
        assert Leaves(g.c, log[..oldSize]) == Leaves(g.c, log)[..oldSize];
      }
    }

    /** `_record`: one decision, one leaf, one receipt. */
    method LogDecision(kind: Kind, tik: Bytes, accepted: bool, why: Reason, instance: Option<Bytes>, now: real)
      requires Valid()
      modifies this`roots, this`lastReceipt, this`log, merkle
      ensures Valid() && View() == Logged(g, old(View()), kind, tik, accepted, why, instance, now)
      ensures lastReceipt.Some? && lastReceipt.value.index == |old(log)| && |log| == |old(log)| + 1
      ensures lastReceipt.value.entry == g.c.entryBytes(log[|old(log)|])
      ensures lastReceipt.value.sth.size == |log| && lastReceipt.value.sth.root == Root(g.c.sha256, Leaves(g.c, log))
      ensures SignsFor(g, sign) ==> VerifyReceipt(g.c, g.publicKey, lastReceipt.value) == ReceiptVerifies
    {
      var entry := Entry(|merkle.entries|, Seconds(now), kind, g.c.sha256(tik), Truthy(instance), accepted, why);
      var index, newRoot := merkle.Append(g.c.sha256, g.c.entryBytes(entry));
      log := log + [entry];
      assert merkle.entries == Leaves(g.c, log);
      roots := roots[newRoot := |merkle.entries|];
      var r := IssueReceipt(index, now);
      lastReceipt := Some(r);
    }

    // ---------- challenge and enroll ----------

    /** `nonce` is the fresh random value. */
    method Challenge(nonce: Bytes, now: real)
      requires Valid()
      modifies this`challenges
      ensures Valid() && View() == AfterChallenge(g, old(View()), nonce, now)
    {
      challenges := map x | x in challenges && challenges[x] > now :: challenges[x];
      challenges := challenges[nonce := now + g.challengeTtl];
    }

    /** The checks of `_enroll` in its order. */
    method CheckEnrolment(e: Enrolment, now: real) returns (why: Reason)
      ensures why == EnrolVerdict(g, View(), e, now)
    {
      hide AuthorisationProblem;
      if e.nonce !in challenges { return NonceUnknown; }
      if challenges[e.nonce] <= now { return NonceExpired; }
      if g.enrolmentAuthority.Some? {
        if e.authorisation.None? || e.authorisationSig.None? { return NoAuthorisation; }
        var problem := AuthorisationProblem(g.c, g.enrolmentAuthority.value, e.authorisation.value,
                                            e.authorisationSig.value, e.tik, e.nonce, Seconds(now));
        if problem.Some? { return problem.value; }
      }
      if Rec(store, e.tik).enrolledInstance.Some? { return AlreadyEnrolled; }
      var csrKey := g.c.csrKey(e.csr);
      if csrKey.None? { return CsrUnusable; }
      if csrKey.value != e.tik { return CsrOtherKey; }
      var a := g.c.verifyReport(e.evidence, g.c.sha512(EnrolInput(e.nonce, e.csr)));
      if a.Refused? { return EnrolmentEvidenceInvalid; }
      if a.anchor.None? { return EnrolmentNoInstance; }
      if g.requirePlace && a.anchor.value.place.None? { return EnrolmentNoPlace; }
      return Enrolled;
    }

    method EnrollInner(e: Enrolment, now: real) returns (ok: bool, why: Reason)
      requires Valid()
      modifies this`challenges, this`store
      ensures Valid() && View() == AfterEnrolInner(g, old(View()), e, now)
      ensures why == EnrolVerdict(g, old(View()), e, now) && (ok <==> why == Enrolled)
    {
      hide EnrolVerdict, EnrolAnchor, Truthy;
      why := CheckEnrolment(e, now);
      ok := why == Enrolled;
      if ok || why == NonceExpired { challenges := challenges - {e.nonce}; }
      if ok {
        var rec, anchor := Rec(store, e.tik), EnrolAnchor(g, e).value;
        rec := rec.(enrolledInstance := Some(anchor.instance), enrolledPlace := Truthy(anchor.place));
        if e.transferAuthority.Some? { rec := rec.(transferAuthority := e.transferAuthority); }
        store := store[e.tik := rec];
      }
    }

    method Enroll(e: Enrolment, now: real) returns (ok: bool, why: Reason)
      requires Valid()
      modifies this, merkle
      ensures Valid() && View() == AfterEnrol(g, old(View()), e, now)
      ensures why == EnrolVerdict(g, old(View()), e, now) && (ok <==> why == Enrolled)
    {
      hide AfterEnrolInner, EnrolVerdict, Logged;
      ok, why := EnrollInner(e, now);
      var instance := if ok then Rec(store, e.tik).enrolledInstance else None;
      LogDecision(EnrollEntry, e.tik, ok, why, instance, now);
    }

    method Revoke(tik: Bytes, text: string, now: real)
      requires Valid()
      modifies this, merkle
      ensures Valid() && View() == AfterRevoke(g, old(View()), tik, text, now)
    {
      hide Logged;
      var rec := Rec(store, tik);
      rec := rec.(revoked := true, reason := Some(text));
      store := store[tik := rec];
      LogDecision(RevokeEntry, tik, true, Operator(text), None, now);
    }

    // ---------- transfer ----------

    method Refuse(tik: Bytes, why: Reason, now: real)
      requires Valid()
      modifies this`roots, this`lastReceipt, this`log, merkle
      ensures Valid() && View() == Logged(g, old(View()), TransferEntry, tik, false, why, None, now)
    {
      LogDecision(TransferEntry, tik, false, why, None, now);
    }

    /** The checks of `accept_transfer` in its order. */
    method CheckMove(m: Move, now: real) returns (why: Reason)
      ensures why == MoveVerdict(g, View(), m, now)
    {
      hide GrantVerdict;
      var rec := Rec(store, m.tik);
      if rec.revoked { return IdentityRevoked; }
      if rec.enrolledInstance.None? { return NothingToTransfer; }
      if rec.transferAuthority.None? { return NotTransferable; }
      if m.grant.None? || m.grant.value.version != GRANT_VERSION { return GrantUnsupported; }
      why := CheckGrant(rec, m.tik, m.grant.value, m.signature, Seconds(now));
    }

    method CheckGrant(rec: Record, tik: Bytes, grant: Grant, signature: Bytes, at: int) returns (why: Reason)
      requires rec.transferAuthority.Some?
      ensures why == GrantVerdict(g, rec, tik, grant, signature, at)
    {
      hide FreshWitness, AllZero;
      if grant.tik != tik { return GrantOtherIdentity; }
      if !g.c.signedBy(rec.transferAuthority.value, g.c.grantBytes(grant), signature) { return GrantUnsigned; }
      if !(grant.notBefore <= at <= grant.notAfter) { return GrantOutsideWindow; }
      if grant.nonce in rec.consumedGrants { return GrantReplayed; }
      if grant.from_.None? && !grant.anyOrigin { return GrantNoOrigin; }
      if grant.from_.Some? && grant.from_ != rec.enrolledInstance { return GrantOtherOrigin; }
      if grant.to.None? { return GrantUnreadable; }
      if AllZero(grant.to.value) { return GrantNoInstance; }
      if FreshWitness(rec.witnessed, grant.to.value, at, g.witnessTtl).None? { return GrantUnwitnessed; }
      return Transferred;
    }

    method AcceptTransfer(m: Move, now: real) returns (ok: bool, why: Reason)
      requires Valid()
      modifies this, merkle
      ensures Valid() && View() == AfterMove(g, old(View()), m, now)
      ensures why == MoveVerdict(g, old(View()), m, now) && (ok <==> why == Transferred)
    {
      hide Logged;
      why := CheckMove(m, now);
      if why != Transferred {
        Refuse(m.tik, why, now);
        return false, why;
      }
      hide FreshWitness, LastN;
      MovableRecord(g, View(), m, now);
      var rec, grant, at := Rec(store, m.tik), m.grant.value, Seconds(now);
      var seen := FreshWitness(rec.witnessed, grant.to.value, at, g.witnessTtl);
      var previous := rec.enrolledInstance.value;
      rec := rec.(enrolledInstance := grant.to,
                  enrolledPlace := seen.value.place,
                  observedInstance := None,
                  observedPlace := None);
      var move := Transfer(at, previous, grant.to.value, grant.nonce, grant.anyOrigin);
      rec := rec.(transfers := LastN(rec.transfers + [move], 64));
      rec := rec.(consumedGrants := LastN(rec.consumedGrants + [grant.nonce], 256));
      store := store[m.tik := rec];
      sessions := map x | x in sessions && x.0 != m.tik :: sessions[x];
      LogDecision(TransferEntry, m.tik, true, Transferred, grant.to, now);
      return true, Transferred;
    }

    // ---------- present ----------

    method CheckHead(p: Presentation) returns (problem: Option<Reason>)
      ensures problem == HeadProblem(g, roots, p)
    {
      if p.head.Some? && p.bundle.Some? {
        if !VerifyBundle(g.c, p.head.value, p.bundle.value) { return Some(BundleMismatch); }
        var mine := EntryFor(g.c, p.bundle.value, g.publicKey);
        if mine.None? { return Some(BundleAbsent); }
        if !KnowsHead(mine.value.root) { return Some(BundleHeadUnknown); }
      } else if p.head.Some? && !KnowsHead(p.head.value) {
        return Some(HeadUnknown);
      }
      return None;
    }

    /** The checks up to and with step 1a. */
    method Screen(p: Presentation) returns (problem: Option<Reason>)
      ensures problem == Screening(g, View(), p)
    {
      hide HeadProblem, ReportData;
      if Rec(store, p.tik).revoked { return Some(IdentityRevoked); }
      problem := CheckHead(p);
      if problem.Some? { return; }
      var a := g.c.verifyReport(p.msg.evidence, ReportData(g.c, p.msg.postLink, p.head));
      if a.Refused? { return Some(EvidenceInvalid); }
      if a.anchor.None? && g.requireAnchor { return Some(NoInstance); }
    }

    /** `_appraise`; the instance returned is the one that goes into the log. */
    method Appraise(p: Presentation, now: real) returns (ok: bool, why: Reason, instance: Option<Bytes>)
      requires Valid()
      modifies this`store, this`sessions
      ensures Valid() && View() == AfterAppraise(g, old(View()), p, now)
      ensures why == PresentVerdict(g, old(View()), p) && (ok <==> why == Accepted)
      ensures instance == PresentedInstance(g, old(View()), p)
    {
      hide Screening, Admission, Evidence, PresentedRecord, InstanceOf, SessionOf;
      var problem := Screen(p);
      if problem.Some? { return false, problem.value, None; }
      var a := Evidence(g, p);
      instance := InstanceOf(a);
      ok, why := Admit(p, a, now);
    }

    /** Steps 1b to 2 of `_appraise`, once the evidence is known to be genuine: the ledger. */
    method CheckLedger(rec: Record, instance: Option<Bytes>, place: Option<Bytes>) returns (problem: Option<Reason>)
      ensures problem == LedgerProblem(g, rec, instance, place)
    {
      var enrolled := Truthy(rec.enrolledInstance);
      if enrolled.None? && g.requireEnrolment { return Some(NotEnrolled); }
      if enrolled.Some? && instance.Some? && instance != enrolled { return Some(Impostor); }
      if g.requirePlace && place.None? { return Some(NoPlace); }
      if g.requirePlace && Truthy(rec.enrolledPlace).Some? && place != rec.enrolledPlace { return Some(PlaceChanged); }
      var observed := Truthy(rec.observedInstance);
      if observed.Some? && instance.Some? && instance != observed { return Some(SecondInstance); }
      return None;
    }

    /** The mark a refusal by the ledger leaves in the record. */
    method NoteRefusal(p: Presentation, a: Appraisal, why: Reason, now: real)
      requires why in {NotEnrolled, Impostor, NoPlace, PlaceChanged, SecondInstance}
      requires why in {Impostor, SecondInstance} ==> InstanceOf(a).Some?
      modifies this`store
      ensures View() == Applied(g, old(View()), p, a, why, now)
    {
      hide WithWitness, WithDispute;
      var rec, at := Rec(store, p.tik), Seconds(now);
      if why in {Impostor, SecondInstance} {
        rec := WithWitness(g, rec, InstanceOf(a).value, PlaceOf(a), at);
      }
      if why in {Impostor, SecondInstance, PlaceChanged} {
        rec := WithDispute(rec, why, at);
        store := store[p.tik := rec];
      }
    }

    method Admit(p: Presentation, a: Appraisal, now: real) returns (ok: bool, why: Reason)
      modifies this`store, this`sessions
      ensures why == Admission(g, old(View()), p, a) && (ok <==> why == Accepted)
      ensures View() == Applied(g, old(View()), p, a, why, now)
    {
      hide ChainVerdict, Applied, Truthy;
      var problem := CheckLedger(Rec(store, p.tik), InstanceOf(a), PlaceOf(a));
      if problem.Some? {
        NoteRefusal(p, a, problem.value, now);
        return false, problem.value;
      }
      ok, why := Advance(p, a, now);
    }

    /** Steps 3 and 4: does the step continue the chain of this connection? */
    method CheckChain(p: Presentation) returns (why: Reason)
      ensures why == ChainVerdict(g, sessions, p)
    {
      hide SessionName, IntraLink, PostLink, SessionOf;
      var key := SessionOf(g, p);
      var base: Link;
      if key !in sessions {
        if p.msg.counter != 0 { return FirstCounterNotZero; }
        base := IntraLink(g.c, p.context, p.tik);
      } else {
        if p.msg.counter != sessions[key].counter + 1 { return CounterNotNext; }
        base := sessions[key].prev;
      }
      if PostLink(g.c, p.exporter, base, p.msg.counter) != p.msg.postLink { return LinkMismatch; }
      return Accepted;
    }

    /** The dispute two of the refusals leave, and the acceptance. */
    method Advance(p: Presentation, a: Appraisal, now: real) returns (ok: bool, why: Reason)
      modifies this`store, this`sessions
      ensures why == ChainVerdict(g, old(sessions), p) && (ok <==> why == Accepted)
      ensures View() == Applied(g, old(View()), p, a, why, now)
    {
      hide ChainVerdict, Applied, WithDispute, SessionOf, InstanceOf, PlaceOf, Truthy;
      ghost var s := View();
      var rec, at := Rec(store, p.tik), Seconds(now);
      why := CheckChain(p);
      ok := why == Accepted;
      if why in {CounterNotNext, LinkMismatch} {
        store := store[p.tik := WithDispute(rec, why, at)];
        AppliedDispute(g, s, p, a, why, now);
      } else if ok {
        sessions := sessions[SessionOf(g, p) := Session(p.msg.postLink, p.msg.counter)];
        if InstanceOf(a).Some? {
          rec := rec.(observedInstance := InstanceOf(a), observedPlace := Truthy(PlaceOf(a)));
          store := store[p.tik := rec];
        }
        AppliedAcceptance(g, s, p, a, now);
      } else {
        AppliedElsewhere(g, s, p, a, now);
      }
    }

    method Present(p: Presentation, now: real) returns (ok: bool, why: Reason)
      requires Valid()
      modifies this, merkle
      ensures Valid() && View() == AfterPresent(g, old(View()), p, now)
      ensures why == PresentVerdict(g, old(View()), p) && (ok <==> why == Accepted)
    {
      hide AfterAppraise, PresentVerdict, PresentedInstance, Logged;
      var instance;
      ok, why, instance := Appraise(p, now);
      LogDecision(PresentEntry, p.tik, ok, why, instance, now);
    }
  }

  // What `Applied` comes to at each exit of `Advance`.

  lemma AppliedElsewhere(g: Config, s: State, p: Presentation, a: Appraisal, now: real)
    ensures Applied(g, s, p, a, FirstCounterNotZero, now) == s
  {
  }

  lemma AppliedDispute(g: Config, s: State, p: Presentation, a: Appraisal, why: Reason, now: real)
    requires why in {CounterNotNext, LinkMismatch}
    ensures Applied(g, s, p, a, why, now)
         == s.(store := s.store[p.tik := WithDispute(Rec(s.store, p.tik), why, Seconds(now))])
  {
    hide WithDispute;
  }

  lemma AppliedAcceptance(g: Config, s: State, p: Presentation, a: Appraisal, now: real)
    requires p.msg.counter >= 0 && |p.msg.postLink| == 32
    ensures var rec := Rec(s.store, p.tik).(observedInstance := InstanceOf(a), observedPlace := Truthy(PlaceOf(a)));
            Applied(g, s, p, a, Accepted, now)
            == s.(store := if InstanceOf(a).Some? then s.store[p.tik := rec] else s.store,
                  sessions := s.sessions[SessionOf(g, p) := Session(p.msg.postLink, p.msg.counter)])
  {
    hide InstanceOf, PlaceOf, Truthy, SessionOf;
  }

  /** What a transfer that passes its checks may rely on. */
  lemma MovableRecord(g: Config, s: State, m: Move, now: real)
    requires MoveVerdict(g, s, m, now) == Transferred
    ensures var rec := Rec(s.store, m.tik);
            && rec.enrolledInstance.Some? && m.grant.Some? && m.grant.value.to.Some?
            && FreshWitness(rec.witnessed, m.grant.value.to.value, Seconds(now), g.witnessTtl).Some?
  {
  }
}
