// What the mandate decides and how its state changes (hatls/protocol.py, hatls/transfer.py),
// as functions of the state before. The class in Mandate.dfy is proved against them.
module Ledger {
  import opened Octets
  import opened Primitives
  import opened MerkleTree
  import opened Federation
  import opened Hkdf

  // ---------- the state ----------

  datatype Witness = Witness(instance: Bytes, place: Option<Bytes>, at: int)
  datatype Dispute = Dispute(at: int, why: Reason)
  datatype Transfer = Transfer(at: int, from_: Bytes, to: Bytes, nonce: Bytes, anyOrigin: bool)

  datatype Record = Record(
    enrolledInstance: Option<Bytes>, enrolledPlace: Option<Bytes>,
    observedInstance: Option<Bytes>, observedPlace: Option<Bytes>,
    revoked: bool, reason: Option<string>, contention: seq<Dispute>,
    transferAuthority: Option<Bytes>, transfers: seq<Transfer>, consumedGrants: seq<Bytes>,
    witnessed: seq<Witness>)

  const BLANK := Record(None, None, None, None, false, None, [], None, [], [], [])

  datatype Session = Session(prev: Link, counter: Counter)

  datatype Config = Config(
    c: Crypto, publicKey: Bytes,
    requireAnchor: bool, requireEnrolment: bool, requirePlace: bool,
    challengeTtl: real, witnessTtl: int, enrolmentAuthority: Option<Bytes>)

  /** Identity keys and session keys; the log is kept as entries here and as bytes in the class. */
  datatype State = State(
    store: map<Bytes, Record>,
    sessions: map<(Bytes, Bytes), Session>,
    challenges: map<Bytes, real>,
    log: seq<Entry>,
    roots: map<Bytes, nat>)

  function Rec(store: map<Bytes, Record>, tik: Bytes): Record {
    if tik in store then store[tik] else BLANK
  }

  function Leaves(c: Crypto, log: seq<Entry>): (r: seq<Bytes>)
    ensures |r| == |log| && forall i :: 0 <= i < |r| ==> r[i] == c.entryBytes(log[i])
  {
    seq(|log|, i requires 0 <= i < |log| => c.entryBytes(log[i]))
  }

  /** A mandate starts on the ledger it is given; sessions, challenges and the log start empty. */
  function Begin(c: Crypto, store: map<Bytes, Record>): State {
    State(store, map[], map[], [], map[Root(c.sha256, []) := 0])
  }

  function Init(c: Crypto): State { Begin(c, map[]) }

  /** An empty hex string counts as absent in the source's truth tests. */
  function Truthy(o: Option<Bytes>): Option<Bytes> {
    if o.Some? && o.value != [] then o else None
  }

  /** s[-n:] */
  function LastN<T>(s: seq<T>, n: nat): seq<T> {
    if |s| <= n then s else s[|s| - n..]
  }

  function Seconds(now: real): int { now.Floor }

  // ---------- records ----------

  function WithDispute(rec: Record, why: Reason, at: int): Record {
    rec.(contention := LastN(rec.contention + [Dispute(at, why)], 64))
  }

  function StillSeen(ws: seq<Witness>, inst: Bytes, at: int, ttl: int): (r: seq<Witness>)
    ensures forall w :: w in r <==> w in ws && w.instance != inst && at - w.at < ttl
    ensures |r| <= |ws|
  {
    if ws == [] then []
    else if ws[0].instance != inst && at - ws[0].at < ttl then [ws[0]] + StillSeen(ws[1..], inst, at, ttl)
    else StillSeen(ws[1..], inst, at, ttl)
  }

  function WithWitness(g: Config, rec: Record, inst: Bytes, place: Option<Bytes>, at: int): Record {
    rec.(witnessed := LastN(StillSeen(rec.witnessed, inst, at, g.witnessTtl)
                            + [Witness(inst, Truthy(place), at)], 32))
  }

  // ---------- the log ----------

  function NewEntry(g: Config, log: seq<Entry>, kind: Kind, tik: Bytes, accepted: bool, why: Reason,
                    instance: Option<Bytes>, now: real): Entry {
    Entry(|log|, Seconds(now), kind, g.c.sha256(tik), Truthy(instance), accepted, why)
  }

  function Logged(g: Config, s: State, kind: Kind, tik: Bytes, accepted: bool, why: Reason,
                  instance: Option<Bytes>, now: real): State {
    var log := s.log + [NewEntry(g, s.log, kind, tik, accepted, why, instance, now)];
    s.(log := log, roots := s.roots[Root(g.c.sha256, Leaves(g.c, log)) := |log|])
  }

  // ---------- present ----------

  type WireCounter = n: int | n < 0x1_0000_0000_0000_0000

  datatype Message = Message(counter: WireCounter, postLink: Bytes, evidence: Bytes)

  /** One call of `present`; context and exporter are the relying party's own. */
  datatype Presentation = Presentation(
    tik: Bytes, context: SessionContext, exporter: Bytes, msg: Message,
    head: Option<Bytes>, bundle: Option<seq<BundleEntry>>)

  function SessionName(c: Crypto, context: SessionContext): Bytes {
    c.sha256(context)[..16]
  }

  function SessionOf(g: Config, p: Presentation): (Bytes, Bytes) {
    (p.tik, SessionName(g.c, p.context))
  }

  /** What the TEE signs over, before SHA-512. */
  function ReportInput(link: Bytes, head: Option<Bytes>): Bytes {
    match head
    case None => Ascii("HATLS-continuity-v0") + link
    case Some(h) => Ascii("HATLS-continuity-v1") + link + h
  }

  function EnrolInput(nonce: Bytes, csr: Bytes): Bytes { nonce + csr }

  function ReportData(c: Crypto, link: Bytes, head: Option<Bytes>): Digest64 {
    c.sha512(ReportInput(link, head))
  }

  function Evidence(g: Config, p: Presentation): Appraisal {
    g.c.verifyReport(p.msg.evidence, ReportData(g.c, p.msg.postLink, p.head))
  }

  function InstanceOf(a: Appraisal): Option<Bytes> {
    if a.Genuine? && a.anchor.Some? then Some(a.anchor.value.instance) else None
  }

  function PlaceOf(a: Appraisal): Option<Bytes> {
    if a.Genuine? && a.anchor.Some? then a.anchor.value.place else None
  }

  /** Why the head or bundle offered with a step is refused, if it is. */
  function HeadProblem(g: Config, roots: map<Bytes, nat>, p: Presentation): (r: Option<Reason>)
    ensures r.Some? ==> r.value in {BundleMismatch, BundleAbsent, BundleHeadUnknown, HeadUnknown}
  {
    if p.head.Some? && p.bundle.Some? then
      if !VerifyBundle(g.c, p.head.value, p.bundle.value) then Some(BundleMismatch)
      else
        var mine := EntryFor(g.c, p.bundle.value, g.publicKey);
        if mine.None? then Some(BundleAbsent)
        else if mine.value.root !in roots then Some(BundleHeadUnknown)
        else None
    else if p.head.Some? && p.head.value !in roots then Some(HeadUnknown)
    else None
  }

  /** Steps 1b to 2 of `_appraise`: what the ledger says of the instance that signed. */
  function LedgerProblem(g: Config, rec: Record, instance: Option<Bytes>, place: Option<Bytes>): (r: Option<Reason>)
    ensures r.Some? ==> r.value in {NotEnrolled, Impostor, NoPlace, PlaceChanged, SecondInstance}
  {
    var enrolled, observed := Truthy(rec.enrolledInstance), Truthy(rec.observedInstance);
    if enrolled.None? && g.requireEnrolment then Some(NotEnrolled)
    else if enrolled.Some? && instance.Some? && instance != enrolled then Some(Impostor)
    else if g.requirePlace && place.None? then Some(NoPlace)
    else if g.requirePlace && Truthy(rec.enrolledPlace).Some? && place != rec.enrolledPlace then Some(PlaceChanged)
    else if observed.Some? && instance.Some? && instance != observed then Some(SecondInstance)
    else None
  }

  /** Steps 3 and 4: the chain of this connection. */
  function ChainVerdict(g: Config, sessions: map<(Bytes, Bytes), Session>, p: Presentation): (r: Reason)
    ensures r == Accepted ==> p.msg.counter >= 0 && |p.msg.postLink| == 32
    ensures r in {FirstCounterNotZero, CounterNotNext, LinkMismatch, Accepted}
  {
    var key := SessionOf(g, p);
    if key !in sessions then
      if p.msg.counter != 0 then FirstCounterNotZero
      else if PostLink(g.c, p.exporter, IntraLink(g.c, p.context, p.tik), 0) != p.msg.postLink then LinkMismatch
      else Accepted
    else
      if p.msg.counter != sessions[key].counter + 1 then CounterNotNext
      else if PostLink(g.c, p.exporter, sessions[key].prev, p.msg.counter) != p.msg.postLink then LinkMismatch
      else Accepted
  }

  /** What becomes of a step whose evidence is genuine. */
  function Admission(g: Config, s: State, p: Presentation, a: Appraisal): (r: Reason)
    ensures r == Accepted ==> p.msg.counter >= 0 && |p.msg.postLink| == 32
    ensures r in {Impostor, SecondInstance} ==> InstanceOf(a).Some?
    ensures !BeforeInstance(r)
  {
    var ledger := LedgerProblem(g, Rec(s.store, p.tik), InstanceOf(a), PlaceOf(a));
    if ledger.Some? then ledger.value else ChainVerdict(g, s.sessions, p)
  }

  /** Refusals taken before the evidence has named an instance. */
  predicate BeforeInstance(why: Reason) {
    why in {IdentityRevoked, BundleMismatch, BundleAbsent, BundleHeadUnknown, HeadUnknown, EvidenceInvalid, NoInstance}
  }

  /** The refusals before the ledger is asked about an instance. */
  function Screening(g: Config, s: State, p: Presentation): (r: Option<Reason>)
    ensures r.Some? ==> BeforeInstance(r.value)
  {
    var head, a := HeadProblem(g, s.roots, p), Evidence(g, p);
    if Rec(s.store, p.tik).revoked then Some(IdentityRevoked)
    else if head.Some? then head
    else if a.Refused? then Some(EvidenceInvalid)
    else if a.anchor.None? && g.requireAnchor then Some(NoInstance)
    else None
  }

  function PresentVerdict(g: Config, s: State, p: Presentation): (r: Reason)
    ensures r == Accepted ==> p.msg.counter >= 0 && |p.msg.postLink| == 32
    ensures r in {Impostor, SecondInstance} ==> InstanceOf(Evidence(g, p)).Some?
  {
    var early := Screening(g, s, p);
    if early.Some? then early.value else Admission(g, s, p, Evidence(g, p))
  }

  function PresentedInstance(g: Config, s: State, p: Presentation): Option<Bytes> {
    if BeforeInstance(PresentVerdict(g, s, p)) then None else InstanceOf(Evidence(g, p))
  }

  /** The record as a presentation leaves it. */
  function PresentedRecord(g: Config, rec: Record, a: Appraisal, why: Reason, at: int): (r: Record)
    requires why in {Impostor, SecondInstance} ==> InstanceOf(a).Some?
    ensures r.enrolledInstance == rec.enrolledInstance && r.enrolledPlace == rec.enrolledPlace
    ensures r.revoked == rec.revoked && r.transferAuthority == rec.transferAuthority
    ensures r.transfers == rec.transfers && r.consumedGrants == rec.consumedGrants
    ensures r.observedInstance == if why == Accepted && InstanceOf(a).Some? then InstanceOf(a) else rec.observedInstance
  {
    var instance, place := InstanceOf(a), PlaceOf(a);
    if why in {Impostor, SecondInstance} then
      WithDispute(WithWitness(g, rec, instance.value, place, at), why, at)
    else if why in {PlaceChanged, CounterNotNext, LinkMismatch} then WithDispute(rec, why, at)
    else if why == Accepted && instance.Some? then
      rec.(observedInstance := instance, observedPlace := Truthy(place))
    else rec
  }

  predicate SavesRecord(why: Reason, instance: Option<Bytes>) {
    why in {Impostor, SecondInstance, PlaceChanged, CounterNotNext, LinkMismatch}
    || (why == Accepted && instance.Some?)
  }

  /** The state as a presentation with this outcome leaves it, before the decision is logged. */
  function Applied(g: Config, s: State, p: Presentation, a: Appraisal, why: Reason, now: real): State
    requires why in {Impostor, SecondInstance} ==> InstanceOf(a).Some?
    requires why == Accepted ==> p.msg.counter >= 0 && |p.msg.postLink| == 32
  {
    var rec := PresentedRecord(g, Rec(s.store, p.tik), a, why, Seconds(now));
    s.(store := if SavesRecord(why, InstanceOf(a)) then s.store[p.tik := rec] else s.store,
       sessions := if why == Accepted
                   then s.sessions[SessionOf(g, p) := Session(p.msg.postLink, p.msg.counter)]
                   else s.sessions)
  }

  function AfterAppraise(g: Config, s: State, p: Presentation, now: real): State {
    Applied(g, s, p, Evidence(g, p), PresentVerdict(g, s, p), now)
  }

  function AfterPresent(g: Config, s: State, p: Presentation, now: real): State {
    var why := PresentVerdict(g, s, p);
    Logged(g, AfterAppraise(g, s, p, now), PresentEntry, p.tik, why == Accepted, why, PresentedInstance(g, s, p), now)
  }

  // ---------- challenge and enroll ----------

  function AfterChallenge(g: Config, s: State, nonce: Bytes, now: real): State {
    var open_ := map x | x in s.challenges && s.challenges[x] > now :: s.challenges[x];
    s.(challenges := open_[nonce := now + g.challengeTtl])
  }

  datatype Enrolment = Enrolment(
    tik: Bytes, evidence: Bytes, nonce: Bytes, csr: Bytes, transferAuthority: Option<Bytes>,
    authorisation: Option<Authorisation>, authorisationSig: Option<Bytes>)

  function AuthorisationProblem(c: Crypto, authority: Bytes, body: Authorisation, sig: Bytes,
                                tik: Bytes, nonce: Bytes, at: int): Option<Reason> {
    if body.version != GRANT_VERSION || !body.kindIsEnrol then Some(AuthorisationUnsupported)
    else if body.tik != tik then Some(AuthorisationOtherIdentity)
    else if body.nonce != nonce then Some(AuthorisationOtherChallenge)
    else if !(body.notBefore <= at <= body.notAfter) then Some(AuthorisationExpired)
    else if !c.signedBy(authority, c.authorisationBytes(body), sig) then Some(AuthorisationUnsigned)
    else None
  }

  function EnrolVerdict(g: Config, s: State, e: Enrolment, now: real): (r: Reason)
    ensures r == Enrolled ==> EnrolAnchor(g, e).Some?
  {
    if e.nonce !in s.challenges then NonceUnknown
    else if s.challenges[e.nonce] <= now then NonceExpired
    else if g.enrolmentAuthority.Some? && (e.authorisation.None? || e.authorisationSig.None?) then NoAuthorisation
    else
      var auth := if g.enrolmentAuthority.None? then None
                  else AuthorisationProblem(g.c, g.enrolmentAuthority.value, e.authorisation.value,
                                            e.authorisationSig.value, e.tik, e.nonce, Seconds(now));
      if auth.Some? then auth.value
      else if Rec(s.store, e.tik).enrolledInstance.Some? then AlreadyEnrolled
      else if g.c.csrKey(e.csr).None? then CsrUnusable
      else if g.c.csrKey(e.csr).value != e.tik then CsrOtherKey
      else
        var a := g.c.verifyReport(e.evidence, g.c.sha512(EnrolInput(e.nonce, e.csr)));
        if a.Refused? then EnrolmentEvidenceInvalid
        else if a.anchor.None? then EnrolmentNoInstance
        else if g.requirePlace && a.anchor.value.place.None? then EnrolmentNoPlace
        else Enrolled
  }

  function EnrolAnchor(g: Config, e: Enrolment): Option<Anchor> {
    var a := g.c.verifyReport(e.evidence, g.c.sha512(EnrolInput(e.nonce, e.csr)));
    if a.Genuine? then a.anchor else None
  }

  function EnrolledRecord(rec: Record, anchor: Anchor, authority: Option<Bytes>): Record {
    var r := rec.(enrolledInstance := Some(anchor.instance), enrolledPlace := Truthy(anchor.place));
    if authority.Some? then r.(transferAuthority := authority) else r
  }

  function AfterEnrolInner(g: Config, s: State, e: Enrolment, now: real): State {
    var why, anchor := EnrolVerdict(g, s, e, now), EnrolAnchor(g, e);
    if why == NonceExpired then s.(challenges := s.challenges - {e.nonce})
    else if why == Enrolled then
      s.(challenges := s.challenges - {e.nonce},
         store := s.store[e.tik := EnrolledRecord(Rec(s.store, e.tik), anchor.value, e.transferAuthority)])
    else s
  }

  function AfterEnrol(g: Config, s: State, e: Enrolment, now: real): State {
    var why, s' := EnrolVerdict(g, s, e, now), AfterEnrolInner(g, s, e, now);
    var instance := if why == Enrolled then Rec(s'.store, e.tik).enrolledInstance else None;
    Logged(g, s', EnrollEntry, e.tik, why == Enrolled, why, instance, now)
  }

  // ---------- revoke ----------

  function AfterRevoke(g: Config, s: State, tik: Bytes, text: string, now: real): State {
    var rec := Rec(s.store, tik).(revoked := true, reason := Some(text));
    Logged(g, s.(store := s.store[tik := rec]), RevokeEntry, tik, true, Operator(text), None, now)
  }

  // ---------- transfer ----------

  /** A grant that is not a dictionary is None. */
  datatype Move = Move(tik: Bytes, grant: Option<Grant>, signature: Bytes)

  predicate AllZero(b: Bytes) { forall i :: 0 <= i < |b| ==> b[i] == 0 }

  function FreshWitness(ws: seq<Witness>, to: Bytes, at: int, ttl: int): (r: Option<Witness>)
    ensures r.Some? ==> r.value in ws && r.value.instance == to && at - r.value.at < ttl
    ensures r.None? ==> forall w | w in ws :: !(w.instance == to && at - w.at < ttl)
  {
    if ws == [] then None
    else if ws[0].instance == to && at - ws[0].at < ttl then Some(ws[0])
    else FreshWitness(ws[1..], to, at, ttl)
  }

  function MoveVerdict(g: Config, s: State, m: Move, now: real): (r: Reason)
    ensures r == Transferred ==> m.grant.Some? && m.grant.value.to.Some? && Rec(s.store, m.tik).enrolledInstance.Some?
  {
    var rec := Rec(s.store, m.tik);
    if rec.revoked then IdentityRevoked
    else if rec.enrolledInstance.None? then NothingToTransfer
    else if rec.transferAuthority.None? then NotTransferable
    else if m.grant.None? || m.grant.value.version != GRANT_VERSION then GrantUnsupported
    else GrantVerdict(g, rec, m.tik, m.grant.value, m.signature, Seconds(now))
  }

  function GrantVerdict(g: Config, rec: Record, tik: Bytes, grant: Grant, signature: Bytes, at: int): (r: Reason)
    requires rec.transferAuthority.Some?
    ensures r == Transferred ==> grant.to.Some?
  {
    if grant.tik != tik then GrantOtherIdentity
    else if !g.c.signedBy(rec.transferAuthority.value, g.c.grantBytes(grant), signature) then GrantUnsigned
    else if !(grant.notBefore <= at <= grant.notAfter) then GrantOutsideWindow
    else if grant.nonce in rec.consumedGrants then GrantReplayed
    else if grant.from_.None? && !grant.anyOrigin then GrantNoOrigin
    else if grant.from_.Some? && grant.from_ != rec.enrolledInstance then GrantOtherOrigin
    else if grant.to.None? then GrantUnreadable
    else if AllZero(grant.to.value) then GrantNoInstance
    else if FreshWitness(rec.witnessed, grant.to.value, at, g.witnessTtl).None? then GrantUnwitnessed
    else Transferred
  }

  function MovedRecord(g: Config, rec: Record, grant: Grant, at: int): Record
    requires grant.to.Some? && rec.enrolledInstance.Some?
  {
    var to := grant.to.value;
    var seen := FreshWitness(rec.witnessed, to, at, g.witnessTtl);
    var move := Transfer(at, rec.enrolledInstance.value, to, grant.nonce, grant.anyOrigin);
    rec.(enrolledInstance := Some(to),
         enrolledPlace := if seen.Some? then seen.value.place else None,
         observedInstance := None, observedPlace := None,
         transfers := LastN(rec.transfers + [move], 64),
         consumedGrants := LastN(rec.consumedGrants + [grant.nonce], 256))
  }

  function AfterMove(g: Config, s: State, m: Move, now: real): State {
    var why := MoveVerdict(g, s, m, now);
    if why == Transferred then
      var rec := MovedRecord(g, Rec(s.store, m.tik), m.grant.value, Seconds(now));
      var s' := s.(store := s.store[m.tik := rec],
                   sessions := map x | x in s.sessions && x.0 != m.tik :: s.sessions[x]);
      Logged(g, s', TransferEntry, m.tik, true, why, m.grant.value.to, now)
    else Logged(g, s, TransferEntry, m.tik, false, why, None, now)
  }
}
