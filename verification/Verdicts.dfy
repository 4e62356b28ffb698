// When the mandate gives which answer, over the fields of its arguments and its records and over the
// bytes that are hashed (hatls/protocol.py, hatls/transfer.py).
module Verdicts {
  import opened Octets
  import opened Primitives
  import opened Federation
  import opened Hkdf
  import opened Ledger

  // ---------- a presentation: the checks, one by one ----------

  /** The session of a connection: the identity key, and the first 16 bytes of the context's SHA-256. */
  function Connection(g: Config, p: Presentation): (Bytes, Bytes) {
    (p.tik, g.c.sha256(p.context)[..16])
  }

  /** What the evidence is worth: it must be over this very link and head. */
  function Appraised(g: Config, p: Presentation): Appraisal {
    g.c.verifyReport(p.msg.evidence, g.c.sha512(
      if p.head.None? then Ascii("HATLS-continuity-v0") + p.msg.postLink
      else Ascii("HATLS-continuity-v1") + p.msg.postLink + p.head.value))
  }

  predicate FirstOwn(g: Config, entries: seq<BundleEntry>, i: int) {
    && 0 <= i < |entries| && entries[i].id == g.c.sha256(g.publicKey)[..16]
    && forall j :: 0 <= j < i ==> entries[j].id != g.c.sha256(g.publicKey)[..16]
  }

  predicate Committed(g: Config, p: Presentation)
    requires p.head.Some? && p.bundle.Some?
  {
    g.c.sha256(g.c.bundleBytes(p.bundle.value)) == p.head.value
  }

  predicate Named(g: Config, entries: seq<BundleEntry>) {
    exists i :: 0 <= i < |entries| && entries[i].id == g.c.sha256(g.publicKey)[..16]
  }

  ghost predicate HeadPasses(g: Config, roots: map<Bytes, nat>, p: Presentation) {
    || p.head.None?
    || (p.bundle.None? && p.head.value in roots)
    || (p.bundle.Some? && Committed(g, p)
        && exists i :: FirstOwn(g, p.bundle.value, i) && p.bundle.value[i].root in roots)
  }

  function NonEmpty(o: Option<Bytes>): Option<Bytes> { if o == Some([]) then None else o }

  /** Something non-empty is on record. */
  predicate OnFile(o: Option<Bytes>) { o.Some? && o.value != [] }

  /** Nothing else is. */
  predicate Agrees(o: Option<Bytes>, shown: Option<Bytes>) { OnFile(o) ==> o == shown }

  predicate PlacePasses(g: Config, rec: Record, anchor: Option<Anchor>) {
    g.requirePlace ==> anchor.Some? && anchor.value.place.Some? && Agrees(rec.enrolledPlace, anchor.value.place)
  }

  predicate EnrolledPasses(g: Config, rec: Record, anchor: Option<Anchor>) {
    && (g.requireEnrolment ==> OnFile(rec.enrolledInstance))
    && (anchor.Some? ==> Agrees(rec.enrolledInstance, Some(anchor.value.instance)))
  }

  predicate ObservedPasses(rec: Record, anchor: Option<Anchor>) {
    anchor.Some? ==> Agrees(rec.observedInstance, Some(anchor.value.instance))
  }

  /** The counter is the next one of this connection: 0 on a new one. */
  predicate CounterPasses(g: Config, s: State, p: Presentation) {
    var key := Connection(g, p);
    p.msg.counter == if key in s.sessions then s.sessions[key].counter + 1 else 0
  }

  /** The link continues from the connection's last one, or is the first of its context. */
  predicate LinkPasses(g: Config, s: State, p: Presentation)
    requires CounterPasses(g, s, p)
  {
    var key := Connection(g, p);
    var base := if key in s.sessions then s.sessions[key].prev else IntraLink(g.c, p.context, p.tik);
    p.msg.postLink == PostLink(g.c, p.exporter, base, p.msg.counter)
  }

  // ---------- a presentation: the verdict ----------

  /** Not revoked, and the head let through. */
  ghost predicate Considered(g: Config, s: State, p: Presentation) {
    !Rec(s.store, p.tik).revoked && HeadPasses(g, s.roots, p)
  }

  /** ... the evidence genuine, and an instance named if one must be. */
  ghost predicate Believed(g: Config, s: State, p: Presentation) {
    Considered(g, s, p) && Appraised(g, p).Genuine? && (g.requireAnchor ==> Appraised(g, p).anchor.Some?)
  }

  /** ... and the ledger has nothing against it. */
  ghost predicate LedgerPasses(g: Config, s: State, p: Presentation) {
    var rec, anchor := Rec(s.store, p.tik), Appraised(g, p);
    && Believed(g, s, p)
    && EnrolledPasses(g, rec, anchor.anchor) && PlacePasses(g, rec, anchor.anchor) && ObservedPasses(rec, anchor.anchor)
  }

  lemma AppraisedIsEvidence(g: Config, p: Presentation)
    ensures Evidence(g, p) == Appraised(g, p)
  {
  }

  lemma {:induction false} EntryForExactly(g: Config, entries: seq<BundleEntry>)
    ensures EntryFor(g.c, entries, g.publicKey).Some? <==> Named(g, entries)
    ensures forall i :: FirstOwn(g, entries, i) ==> EntryFor(g.c, entries, g.publicKey) == Some(entries[i])
    ensures Named(g, entries) ==> exists i :: FirstOwn(g, entries, i)
    decreases |entries|
  {
    if entries != [] {
      var rest := entries[1..];
      if entries[0].id == g.c.sha256(g.publicKey)[..16] {
        assert FirstOwn(g, entries, 0);
      } else {
        EntryForExactly(g, rest);
        OwnShifts(g, entries);
      }
    }
  }

  lemma OwnShifts(g: Config, entries: seq<BundleEntry>)
    requires entries != [] && entries[0].id != g.c.sha256(g.publicKey)[..16]
    ensures Named(g, entries) <==> Named(g, entries[1..])
    ensures forall i :: FirstOwn(g, entries, i) ==> i > 0 && FirstOwn(g, entries[1..], i - 1)
    ensures (exists i :: FirstOwn(g, entries[1..], i)) ==> exists i :: FirstOwn(g, entries, i)
  {
    var rest := entries[1..];
    assert forall j | 0 < j < |entries| :: entries[j] == rest[j - 1];
    assert forall j | 0 <= j < |rest| :: rest[j] == entries[j + 1];
    if i :| FirstOwn(g, rest, i) {
      assert FirstOwn(g, entries, i + 1);
    }
  }

  lemma HeadReasons(g: Config, roots: map<Bytes, nat>, p: Presentation)
    ensures var why := HeadProblem(g, roots, p);
            && (why == None <==> HeadPasses(g, roots, p))
            && (why == Some(BundleMismatch) <==> p.head.Some? && p.bundle.Some? && !Committed(g, p))
            && (why == Some(BundleAbsent) <==>
                  p.head.Some? && p.bundle.Some? && Committed(g, p) && !Named(g, p.bundle.value))
            && (why == Some(BundleHeadUnknown) <==>
                  && p.head.Some? && p.bundle.Some? && Committed(g, p)
                  && exists i :: FirstOwn(g, p.bundle.value, i) && p.bundle.value[i].root !in roots)
            && (why == Some(HeadUnknown) <==> p.head.Some? && p.bundle.None? && p.head.value !in roots)
  {
    if p.bundle.Some? { EntryForExactly(g, p.bundle.value); }
    hide FirstOwn, Named, EntryFor;
  }

  lemma LedgerReasons(g: Config, rec: Record, a: Appraisal)
    requires a.Genuine?
    ensures var why, anchor := LedgerProblem(g, rec, InstanceOf(a), PlaceOf(a)), a.anchor;
            && (why == None <==>
                  EnrolledPasses(g, rec, anchor) && PlacePasses(g, rec, anchor) && ObservedPasses(rec, anchor))
            && (why == Some(NotEnrolled) <==> g.requireEnrolment && !OnFile(rec.enrolledInstance))
            && (why == Some(Impostor) <==>
                  anchor.Some? && OnFile(rec.enrolledInstance) && rec.enrolledInstance != Some(anchor.value.instance))
            && (why == Some(NoPlace) <==>
                  EnrolledPasses(g, rec, anchor) && g.requirePlace && (anchor.None? || anchor.value.place.None?))
            && (why == Some(PlaceChanged) <==>
                  && EnrolledPasses(g, rec, anchor) && g.requirePlace && anchor.Some? && anchor.value.place.Some?
                  && OnFile(rec.enrolledPlace) && rec.enrolledPlace != anchor.value.place)
            && (why == Some(SecondInstance) <==>
                  && EnrolledPasses(g, rec, anchor) && PlacePasses(g, rec, anchor) && anchor.Some?
                  && OnFile(rec.observedInstance) && rec.observedInstance != Some(anchor.value.instance))
  {
  }

  lemma ChainReasons(g: Config, s: State, p: Presentation)
    ensures var why, known := ChainVerdict(g, s.sessions, p), Connection(g, p) in s.sessions;
            && (why == Accepted <==> CounterPasses(g, s, p) && LinkPasses(g, s, p))
            && (why == FirstCounterNotZero <==> !known && !CounterPasses(g, s, p))
            && (why == CounterNotNext <==> known && !CounterPasses(g, s, p))
            && (why == LinkMismatch <==> CounterPasses(g, s, p) && !LinkPasses(g, s, p))
  {
    hide PostLink, IntraLink;
  }

  /** Exactly when a step is accepted. */
  lemma PresentExactly(g: Config, s: State, p: Presentation)
    ensures PresentVerdict(g, s, p) == Accepted <==>
              && !Rec(s.store, p.tik).revoked && HeadPasses(g, s.roots, p)
              && Appraised(g, p).Genuine? && (g.requireAnchor ==> Appraised(g, p).anchor.Some?)
              && EnrolledPasses(g, Rec(s.store, p.tik), Appraised(g, p).anchor)
              && PlacePasses(g, Rec(s.store, p.tik), Appraised(g, p).anchor)
              && ObservedPasses(Rec(s.store, p.tik), Appraised(g, p).anchor)
              && CounterPasses(g, s, p) && LinkPasses(g, s, p)
  {
    PresentReasons(g, s, p);
  }

  /** Exactly when it is refused for which reason: the first check that fails. */
  lemma PresentReasons(g: Config, s: State, p: Presentation)
    ensures var why, rec, a := PresentVerdict(g, s, p), Rec(s.store, p.tik), Appraised(g, p);
            && (why == IdentityRevoked <==> rec.revoked)
            && (why == BundleMismatch <==> !rec.revoked && p.head.Some? && p.bundle.Some? && !Committed(g, p))
            && (why == BundleAbsent <==>
                  !rec.revoked && p.head.Some? && p.bundle.Some? && Committed(g, p) && !Named(g, p.bundle.value))
            && (why == BundleHeadUnknown <==>
                  && !rec.revoked && p.head.Some? && p.bundle.Some? && Committed(g, p)
                  && exists i :: FirstOwn(g, p.bundle.value, i) && p.bundle.value[i].root !in s.roots)
            && (why == HeadUnknown <==> !rec.revoked && p.head.Some? && p.bundle.None? && p.head.value !in s.roots)
            && (why == EvidenceInvalid <==> Considered(g, s, p) && a.Refused?)
            && (why == NoInstance <==> Considered(g, s, p) && a.Genuine? && a.anchor.None? && g.requireAnchor)
            && (why == NotEnrolled <==> Believed(g, s, p) && g.requireEnrolment && !OnFile(rec.enrolledInstance))
            && (why == Impostor <==>
                  && Believed(g, s, p) && a.anchor.Some?
                  && OnFile(rec.enrolledInstance) && rec.enrolledInstance != Some(a.anchor.value.instance))
            && (why == NoPlace <==>
                  && Believed(g, s, p) && EnrolledPasses(g, rec, a.anchor)
                  && g.requirePlace && (a.anchor.None? || a.anchor.value.place.None?))
            && (why == PlaceChanged <==>
                  && Believed(g, s, p) && EnrolledPasses(g, rec, a.anchor)
                  && g.requirePlace && a.anchor.Some? && a.anchor.value.place.Some?
                  && OnFile(rec.enrolledPlace) && rec.enrolledPlace != a.anchor.value.place)
            && (why == SecondInstance <==>
                  && Believed(g, s, p) && EnrolledPasses(g, rec, a.anchor) && PlacePasses(g, rec, a.anchor)
                  && a.anchor.Some? && OnFile(rec.observedInstance)
                      && rec.observedInstance != Some(a.anchor.value.instance))
            && (why == FirstCounterNotZero <==>
                  LedgerPasses(g, s, p) && Connection(g, p) !in s.sessions && p.msg.counter != 0)
            && (why == CounterNotNext <==>
                  && LedgerPasses(g, s, p) && Connection(g, p) in s.sessions
                  && p.msg.counter != s.sessions[Connection(g, p)].counter + 1)
            && (why == LinkMismatch <==> LedgerPasses(g, s, p) && CounterPasses(g, s, p) && !LinkPasses(g, s, p))
            && (why == Accepted <==> LedgerPasses(g, s, p) && CounterPasses(g, s, p) && LinkPasses(g, s, p))
  {
    AppraisedIsEvidence(g, p);
    HeadReasons(g, s.roots, p);
    ScreeningReasons(g, s, p);
    if Believed(g, s, p) { AdmissionReasons(g, s, p); }
    hide Screening, Admission, HeadProblem, HeadPasses, FirstOwn, Named, Committed, Evidence, Appraised, LinkPasses,
         CounterPasses, Connection, EnrolledPasses, PlacePasses, ObservedPasses, OnFile;
  }

  lemma ScreeningReasons(g: Config, s: State, p: Presentation)
    ensures var why, head, a := Screening(g, s, p), HeadProblem(g, s.roots, p), Appraised(g, p);
            && (why == None <==> Believed(g, s, p))
            && (why == Some(IdentityRevoked) <==> Rec(s.store, p.tik).revoked)
            && (why == Some(EvidenceInvalid) <==> Considered(g, s, p) && a.Refused?)
            && (why == Some(NoInstance) <==> Considered(g, s, p) && a.Genuine? && a.anchor.None? && g.requireAnchor)
            && forall r :: r in {BundleMismatch, BundleAbsent, BundleHeadUnknown, HeadUnknown} ==>
                 (why == Some(r) <==> !Rec(s.store, p.tik).revoked && head == Some(r))
  {
    AppraisedIsEvidence(g, p);
    HeadReasons(g, s.roots, p);
    hide HeadProblem, HeadPasses, Evidence, Appraised;
  }

  lemma AdmissionReasons(g: Config, s: State, p: Presentation)
    requires Appraised(g, p).Genuine?
    ensures var why, rec, anchor := Admission(g, s, p, Appraised(g, p)), Rec(s.store, p.tik), Appraised(g, p).anchor;
            var cleared := EnrolledPasses(g, rec, anchor) && PlacePasses(g, rec, anchor) && ObservedPasses(rec, anchor);
            && (why == NotEnrolled <==> g.requireEnrolment && !OnFile(rec.enrolledInstance))
            && (why == Impostor <==>
                  anchor.Some? && OnFile(rec.enrolledInstance) && rec.enrolledInstance != Some(anchor.value.instance))
            && (why == NoPlace <==>
                  EnrolledPasses(g, rec, anchor) && g.requirePlace && (anchor.None? || anchor.value.place.None?))
            && (why == PlaceChanged <==>
                  && EnrolledPasses(g, rec, anchor) && g.requirePlace && anchor.Some? && anchor.value.place.Some?
                  && OnFile(rec.enrolledPlace) && rec.enrolledPlace != anchor.value.place)
            && (why == SecondInstance <==>
                  && EnrolledPasses(g, rec, anchor) && PlacePasses(g, rec, anchor) && anchor.Some?
                  && OnFile(rec.observedInstance) && rec.observedInstance != Some(anchor.value.instance))
            && (why == FirstCounterNotZero <==> cleared && Connection(g, p) !in s.sessions && p.msg.counter != 0)
            && (why == CounterNotNext <==>
                  && cleared && Connection(g, p) in s.sessions
                  && p.msg.counter != s.sessions[Connection(g, p)].counter + 1)
            && (why == LinkMismatch <==> cleared && CounterPasses(g, s, p) && !LinkPasses(g, s, p))
            && (why == Accepted <==> cleared && CounterPasses(g, s, p) && LinkPasses(g, s, p))
  {
    LedgerReasons(g, Rec(s.store, p.tik), Appraised(g, p));
    ChainReasons(g, s, p);
    hide LedgerProblem, ChainVerdict, Appraised, LinkPasses, EnrolledPasses, PlacePasses, ObservedPasses, OnFile,
         InstanceOf, PlaceOf, Connection;
  }

  // ---------- an enrolment ----------

  predicate NonceOpen(s: State, e: Enrolment, now: real) {
    e.nonce in s.challenges && now < s.challenges[e.nonce]
  }

  predicate AuthorisationOffered(g: Config, e: Enrolment) {
    g.enrolmentAuthority.Some? ==> e.authorisation.Some? && e.authorisationSig.Some?
  }

  /** What the enrolment authority has to have signed: this kind, this key, this challenge, now. */
  predicate Authorised(g: Config, e: Enrolment, now: real) {
    g.enrolmentAuthority.Some? ==>
      && e.authorisation.Some? && e.authorisationSig.Some?
      && var body := e.authorisation.value;
      && body.version == 1 && body.kindIsEnrol && body.tik == e.tik && body.nonce == e.nonce
      && body.notBefore <= now.Floor <= body.notAfter
      && g.c.signedBy(g.enrolmentAuthority.value, g.c.authorisationBytes(body), e.authorisationSig.value)
  }

  function EnrolAppraised(g: Config, e: Enrolment): Appraisal {
    g.c.verifyReport(e.evidence, g.c.sha512(e.nonce + e.csr))
  }

  /** Exactly when an enrolment succeeds. */
  lemma EnrolExactly(g: Config, s: State, e: Enrolment, now: real)
    ensures EnrolVerdict(g, s, e, now) == Enrolled <==>
              && NonceOpen(s, e, now) && Authorised(g, e, now)
              && Rec(s.store, e.tik).enrolledInstance.None? && g.c.csrKey(e.csr) == Some(e.tik)
              && EnrolAppraised(g, e).Genuine? && EnrolAppraised(g, e).anchor.Some?
              && (g.requirePlace ==> EnrolAppraised(g, e).anchor.value.place.Some?)
  {
  }

  lemma AuthorisationReasons(g: Config, e: Enrolment, now: real)
    requires g.enrolmentAuthority.Some? && e.authorisation.Some? && e.authorisationSig.Some?
    ensures var body := e.authorisation.value;
            var why := AuthorisationProblem(g.c, g.enrolmentAuthority.value, body, e.authorisationSig.value,
                                            e.tik, e.nonce, Seconds(now));
            var kind := body.version == 1 && body.kindIsEnrol;
            var window := body.notBefore <= now.Floor <= body.notAfter;
            && (why == None <==> Authorised(g, e, now))
            && (why == Some(AuthorisationUnsupported) <==> !kind)
            && (why == Some(AuthorisationOtherIdentity) <==> kind && body.tik != e.tik)
            && (why == Some(AuthorisationOtherChallenge) <==> kind && body.tik == e.tik && body.nonce != e.nonce)
            && (why == Some(AuthorisationExpired) <==>
                  kind && body.tik == e.tik && body.nonce == e.nonce && !window)
            && (why == Some(AuthorisationUnsigned) <==>
                  && kind && body.tik == e.tik && body.nonce == e.nonce && window
                  && !g.c.signedBy(g.enrolmentAuthority.value, g.c.authorisationBytes(body), e.authorisationSig.value))
  {
  }

  /** Exactly when it is refused for which reason. */
  lemma EnrolReasons(g: Config, s: State, e: Enrolment, now: real)
    ensures var why, a, rec := EnrolVerdict(g, s, e, now), EnrolAppraised(g, e), Rec(s.store, e.tik);
            var open_ := NonceOpen(s, e, now);
            var allowed := open_ && Authorised(g, e, now);
            var fits := allowed && rec.enrolledInstance.None? && g.c.csrKey(e.csr) == Some(e.tik);
            && (why == NonceUnknown <==> e.nonce !in s.challenges)
            && (why == NonceExpired <==> e.nonce in s.challenges && s.challenges[e.nonce] <= now)
            && (why == NoAuthorisation <==> open_ && !AuthorisationOffered(g, e))
            && (why in {AuthorisationUnsupported, AuthorisationOtherIdentity, AuthorisationOtherChallenge,
                        AuthorisationExpired, AuthorisationUnsigned} <==>
                  open_ && AuthorisationOffered(g, e) && !Authorised(g, e, now))
            && (why == AlreadyEnrolled <==> allowed && rec.enrolledInstance.Some?)
            && (why == CsrUnusable <==> allowed && rec.enrolledInstance.None? && g.c.csrKey(e.csr).None?)
            && (why == CsrOtherKey <==>
                  && allowed && rec.enrolledInstance.None?
                  && g.c.csrKey(e.csr).Some? && g.c.csrKey(e.csr).value != e.tik)
            && (why == EnrolmentEvidenceInvalid <==> fits && a.Refused?)
            && (why == EnrolmentNoInstance <==> fits && a.Genuine? && a.anchor.None?)
            && (why == EnrolmentNoPlace <==>
                  fits && a.Genuine? && a.anchor.Some? && g.requirePlace && a.anchor.value.place.None?)
  {
    if g.enrolmentAuthority.Some? && e.authorisation.Some? && e.authorisationSig.Some? {
      AuthorisationReasons(g, e, now);
    }
    hide AuthorisationProblem;
  }

  /** Which of the five defects of an authorisation is reported, once one is. */
  lemma EnrolReportsTheDefect(g: Config, s: State, e: Enrolment, now: real)
    requires NonceOpen(s, e, now) && g.enrolmentAuthority.Some? && AuthorisationOffered(g, e) && !Authorised(g, e, now)
    ensures var why, body := EnrolVerdict(g, s, e, now), e.authorisation.value;
            var kind := body.version == 1 && body.kindIsEnrol;
            && (why == AuthorisationUnsupported <==> !kind)
            && (why == AuthorisationOtherIdentity <==> kind && body.tik != e.tik)
            && (why == AuthorisationOtherChallenge <==> kind && body.tik == e.tik && body.nonce != e.nonce)
            && (why == AuthorisationExpired <==>
                  && kind && body.tik == e.tik && body.nonce == e.nonce
                  && !(body.notBefore <= now.Floor <= body.notAfter))
  {
    AuthorisationReasons(g, e, now);
    hide AuthorisationProblem;
  }
}
