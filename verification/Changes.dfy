// What every operation changes, field by field, and what that comes to over whole runs: the disputes
// on record and the challenges that are open (hatls/protocol.py).
module Changes {
  import opened Octets
  import opened Primitives
  import opened Hkdf
  import opened Ledger
  import opened Verdicts
  import opened Runs
  import opened Identities

  /** The last n. */
  predicate IsTail<T(==)>(r: seq<T>, s: seq<T>, n: nat) {
    |r| == (if |s| <= n then |s| else n) && r == s[|s| - |r|..]
  }

  // ---------- one operation ----------

  /** An identity nobody has heard of. */
  lemma UnknownIdentity(store: map<Bytes, Record>, tik: Bytes)
    requires tik !in store
    ensures Rec(store, tik) == Record(None, None, None, None, false, None, [], None, [], [], [])
  {
  }

  predicate Disputed(why: Reason) {
    why in {Impostor, SecondInstance, PlaceChanged, CounterNotNext, LinkMismatch}
  }

  /** What a presentation leaves in the record: five refusals a dispute, two of them a witness, and an
      acceptance the observed instance and place. Nothing else changes. */
  ghost predicate Marked(g: Config, rec: Record, rec': Record, a: Appraisal, why: Reason, at: int) {
    var known := a.Genuine? && a.anchor.Some?;
    && (Disputed(why) ==> IsTail(rec'.contention, rec.contention + [Dispute(at, why)], 64))
    && (if why in {Impostor, SecondInstance} then
          && known && rec' == rec.(contention := rec'.contention, witnessed := rec'.witnessed)
          && NewlyWitnessed(rec.witnessed, rec'.witnessed, a.anchor.value, at, g.witnessTtl)
        else if Disputed(why) then rec' == rec.(contention := rec'.contention)
        else if why == Accepted && known then
          rec' == rec.(observedInstance := Some(a.anchor.value.instance),
              observedPlace := NonEmpty(a.anchor.value.place))
        else rec' == rec)
  }

  lemma LastIsTail<T>(s: seq<T>, n: nat)
    ensures IsTail(LastN(s, n), s, n)
  {
  }

  lemma WitnessIsNew(g: Config, rec: Record, anchor: Anchor, at: int)
    ensures var rec' := WithWitness(g, rec, anchor.instance, anchor.place, at);
            && NewlyWitnessed(rec.witnessed, rec'.witnessed, anchor, at, g.witnessTtl)
            && rec' == rec.(witnessed := rec'.witnessed)
  {
    hide LastN, StillSeen, IsTail;
    var seen := StillSeen(rec.witnessed, anchor.instance, at, g.witnessTtl);
    var w := Witness(anchor.instance, Truthy(anchor.place), at);
    LastIsTail(seen + [w], 32);
    TailOfAppended(LastN(seen + [w], 32), seen, w, 32);
  }

  lemma TailOfAppended<T>(r: seq<T>, s: seq<T>, x: T, n: nat)
    requires IsTail(r, s + [x], n) && n > 0
    ensures 0 < |r| <= n && r[|r| - 1] == x && forall y :: y in r[..|r| - 1] ==> y in s
  {
    var skipped := |s| + 1 - |r|;
    assert forall i | 0 <= i < |r| :: r[i] == (s + [x])[skipped + i];
  }

  lemma RecordIsMarked(g: Config, rec: Record, a: Appraisal, why: Reason, at: int)
    requires why in {Impostor, SecondInstance} ==> a.Genuine? && a.anchor.Some?
    ensures Marked(g, rec, PresentedRecord(g, rec, a, why, at), a, why, at)
  {
    hide WithWitness, NewlyWitnessed, LastN, IsTail;
    LastIsTail(rec.contention + [Dispute(at, why)], 64);
    if a.Genuine? && a.anchor.Some? { WitnessIsNew(g, rec, a.anchor.value, at); }
  }

  /** A presentation changes this record so, and on acceptance the end of its connection's chain. */
  lemma PresentChanges(g: Config, s: State, p: Presentation, now: real)
    ensures var s', why, a := Apply(g, s, Present(p, now)), PresentVerdict(g, s, p), Appraised(g, p);
            var rec, rec' := Rec(s.store, p.tik), Rec(s'.store, p.tik);
            && s'.challenges == s.challenges
            && (why == Accepted ==>
                  && p.msg.counter >= 0 && |p.msg.postLink| == 32
                  && s'.sessions == s.sessions[Connection(g, p) := Session(p.msg.postLink, p.msg.counter)])
            && (why != Accepted ==> s'.sessions == s.sessions)
            && (s'.store == s.store || s'.store == s.store[p.tik := rec'])
            && (p.tik in s'.store <==>
                  p.tik in s.store || Disputed(why) || (why == Accepted && a.Genuine? && a.anchor.Some?))
            && Marked(g, rec, rec', a, why, now.Floor)
  {
    AppraisedIsEvidence(g, p);
    hide PresentVerdict, Evidence, Appraised, PresentedRecord, Marked;
    RecordIsMarked(g, Rec(s.store, p.tik), Appraised(g, p), PresentVerdict(g, s, p), now.Floor);
    RecordStep(g, s, Present(p, now), p.tik);
  }

  /** The newest witness is this one; the others are old ones of other instances, still fresh. */
  predicate NewlyWitnessed(before: seq<Witness>, after: seq<Witness>, anchor: Anchor, at: int, ttl: int) {
    && 0 < |after| <= 32 && after[|after| - 1] == Witness(anchor.instance, NonEmpty(anchor.place), at)
    && forall w :: w in after[..|after| - 1] ==> w in before && w.instance != anchor.instance && at - w.at < ttl
  }

  /** An enrolment spends its nonce and fixes instance, place and authority; if the nonce has expired it
      is forgotten. */
  lemma EnrolChanges(g: Config, s: State, e: Enrolment, now: real)
    ensures var s', why, a := Apply(g, s, Enroll(e, now)), EnrolVerdict(g, s, e, now), EnrolAppraised(g, e);
            var rec := Rec(s.store, e.tik);
            && s'.sessions == s.sessions
            && s'.challenges == (if why in {Enrolled, NonceExpired} then s.challenges - {e.nonce} else s.challenges)
            && (why != Enrolled ==> s'.store == s.store)
            && (why == Enrolled ==>
                  && a.Genuine? && a.anchor.Some?
                  && s'.store == s.store[e.tik := rec.(
                       enrolledInstance := Some(a.anchor.value.instance),
                       enrolledPlace := NonEmpty(a.anchor.value.place),
                       transferAuthority := if e.transferAuthority.Some? then e.transferAuthority
                           else rec.transferAuthority)])
  {
    EnrolExactly(g, s, e, now);
    hide EnrolVerdict, Authorised, NonceOpen;
  }

  lemma RevokeChanges(g: Config, s: State, tik: Bytes, text: string, now: real)
    ensures var s' := Apply(g, s, Revoke(tik, text, now));
            && s'.sessions == s.sessions && s'.challenges == s.challenges
            && s'.store == s.store[tik := Rec(s.store, tik).(revoked := true, reason := Some(text))]
  {
  }

  predicate FirstFresh(ws: seq<Witness>, i: int, to: Bytes, at: int, ttl: int) {
    && 0 <= i < |ws| && ws[i].instance == to && at - ws[i].at < ttl
    && forall j :: 0 <= j < i ==> ws[j].instance != to || at - ws[j].at >= ttl
  }

  lemma {:induction false} FreshWitnessIsFirst(ws: seq<Witness>, to: Bytes, at: int, ttl: int)
    requires FreshWitness(ws, to, at, ttl).Some?
    ensures exists i :: FirstFresh(ws, i, to, at, ttl) && FreshWitness(ws, to, at, ttl).value == ws[i]
    decreases |ws|
  {
    if ws[0].instance == to && at - ws[0].at < ttl {
      assert FirstFresh(ws, 0, to, at, ttl);
    } else {
      FreshWitnessIsFirst(ws[1..], to, at, ttl);
      var i :| FirstFresh(ws[1..], i, to, at, ttl) && FreshWitness(ws[1..], to, at, ttl).value == ws[1..][i];
      assert forall j | 0 < j < |ws| :: ws[j] == ws[1..][j - 1];
      assert FirstFresh(ws, i + 1, to, at, ttl);
    }
  }

  /** A transfer moves the record to where the first fresh witness was, forgets what was observed,
      records itself and its nonce, and ends the identity's chains. */
  lemma MoveChanges(g: Config, s: State, m: Move, now: real)
    ensures var s', why := Apply(g, s, AcceptTransfer(m, now)), MoveVerdict(g, s, m, now);
            var rec, rec' := Rec(s.store, m.tik), Rec(s'.store, m.tik);
            && s'.challenges == s.challenges
            && (why != Transferred ==> s'.store == s.store && s'.sessions == s.sessions)
            && (why == Transferred ==>
                  && m.grant.Some? && m.grant.value.to.Some? && rec.enrolledInstance.Some?
                  && var grant, to := m.grant.value, m.grant.value.to.value;
                  && (forall key :: key in s'.sessions <==> key in s.sessions && key.0 != m.tik)
                  && (forall key :: key in s'.sessions ==> s'.sessions[key] == s.sessions[key])
                  && s'.store == s.store[m.tik := rec']
                  && (exists i :: FirstFresh(rec.witnessed, i, to, now.Floor, g.witnessTtl)
                                  && rec'.enrolledPlace == rec.witnessed[i].place)
                  && IsTail(rec'.transfers,
                            rec.transfers + [Transfer(now.Floor, rec.enrolledInstance.value, to, grant.nonce,
                                grant.anyOrigin)], 64)
                  && IsTail(rec'.consumedGrants, rec.consumedGrants + [grant.nonce], 256)
                  && rec' == rec.(enrolledInstance := Some(to), enrolledPlace := rec'.enrolledPlace,
                                  observedInstance := None, observedPlace := None,
                                  transfers := rec'.transfers, consumedGrants := rec'.consumedGrants))
  {
    if MoveVerdict(g, s, m, now) == Transferred {
      MovedWhere(g, s, m, now);
      FreshWitnessIsFirst(Rec(s.store, m.tik).witnessed, m.grant.value.to.value, now.Floor, g.witnessTtl);
    }
    hide MoveVerdict, FreshWitness, FirstFresh;
  }

  lemma MovedWhere(g: Config, s: State, m: Move, now: real)
    requires MoveVerdict(g, s, m, now) == Transferred
    ensures FreshWitness(Rec(s.store, m.tik).witnessed, m.grant.value.to.value, now.Floor, g.witnessTtl).Some?
  {
    hide AllZero;
  }

  /** A challenge drops what has expired and opens one; a restart keeps the ledger and nothing else. */
  lemma ChallengeChanges(g: Config, s: State, nonce: Bytes, now: real)
    ensures var s' := Apply(g, s, Challenge(nonce, now));
            && s'.store == s.store && s'.sessions == s.sessions
            && (forall x :: x in s'.challenges <==> x == nonce || (x in s.challenges && s.challenges[x] > now))
            && s'.challenges[nonce] == now + g.challengeTtl
            && forall x :: x in s'.challenges && x != nonce ==> s'.challenges[x] == s.challenges[x]
    ensures Apply(g, s, Restart).store == s.store && Apply(g, s, Restart).sessions == map[]
    ensures Apply(g, s, Restart).challenges == map[]
  {
  }

  // ---------- disputes over a run ----------

  /** The dispute an operation leaves on this identity. */
  function DisputeOf(g: Config, s: State, op: Op, tik: Bytes): seq<Dispute> {
    if op.Present? && op.p.tik == tik && Disputed(PresentVerdict(g, s, op.p))
    then [Dispute(op.now.Floor, PresentVerdict(g, s, op.p))] else []
  }

  function Disputes(g: Config, ops: seq<Op>, tik: Bytes): seq<Dispute> {
    if ops == [] then []
    else Disputes(g, Front(ops), tik) + DisputeOf(g, After(g, Front(ops)), Final(ops), tik)
  }

  lemma ContentionStep(g: Config, s: State, op: Op, tik: Bytes)
    ensures var old_, new_ := Rec(s.store, tik).contention, Rec(Apply(g, s, op).store, tik).contention;
            var d := DisputeOf(g, s, op, tik);
            if d == [] then new_ == old_ else IsTail(new_, old_ + d, 64)
  {
    hide Apply, PresentVerdict, Appraised, IsTail, NewlyWitnessed;
    if op.Present? && op.p.tik == tik {
      PresentChanges(g, s, op.p, op.now);
    } else {
      NoDisputeElsewhere(g, s, op, tik);
    }
  }

  lemma NoDisputeElsewhere(g: Config, s: State, op: Op, tik: Bytes)
    requires !(op.Present? && op.p.tik == tik)
    ensures Rec(Apply(g, s, op).store, tik).contention == Rec(s.store, tik).contention
  {
    hide Apply, PresentVerdict, PresentedRecord, EnrolVerdict, MoveVerdict, FreshWitness, LastN;
    RecordStep(g, s, op, tik);
  }

  lemma TailOfTail<T>(r: seq<T>, s: seq<T>, t: seq<T>, x: T, n: nat)
    requires IsTail(s, t, n) && IsTail(r, s + [x], n) && n > 0
    ensures IsTail(r, t + [x], n)
  {
    var u, v, d := s + [x], t + [x], |t| - |s|;
    assert u == v[d..] by { Appended(s, t, x, d); }
    DropTwice(v, d, |u| - |r|);
  }

  lemma Appended<T>(s: seq<T>, t: seq<T>, x: T, d: nat)
    requires d <= |t| && s == t[d..]
    ensures s + [x] == (t + [x])[d..]
  {
  }

  lemma DropTwice<T>(v: seq<T>, d: nat, e: nat)
    requires d + e <= |v|
    ensures v[d..][e..] == v[d + e..]
  {
  }

  /** Over every run, what is on record as contention is the last 64 disputes. */
  lemma {:induction false} ContentionExactly(g: Config, ops: seq<Op>, tik: Bytes)
    ensures IsTail(RecordAfter(g, ops, tik).contention, Disputes(g, ops, tik), 64)
    decreases |ops|
  {
    if ops != [] {
      hide After, Apply, DisputeOf, IsTail;
      var s, op := After(g, Front(ops)), Final(ops);
      ContentionExactly(g, Front(ops), tik);
      LastOp(g, ops);
      DisputesGrow(g, s, op, tik, Disputes(g, Front(ops), tik));
    }
  }

  lemma DisputesGrow(g: Config, s: State, op: Op, tik: Bytes, before: seq<Dispute>)
    requires IsTail(Rec(s.store, tik).contention, before, 64)
    ensures IsTail(Rec(Apply(g, s, op).store, tik).contention, before + DisputeOf(g, s, op, tik), 64)
  {
    hide Apply, DisputeOf, IsTail;
    ContentionStep(g, s, op, tik);
    AtMostOne(g, s, op, tik);
    var d := DisputeOf(g, s, op, tik);
    if d == [] {
      assert before + d == before;
    } else {
      assert d == [d[0]];
      TailOfTail(Rec(Apply(g, s, op).store, tik).contention, Rec(s.store, tik).contention, before, d[0], 64);
    }
  }

  lemma AtMostOne(g: Config, s: State, op: Op, tik: Bytes)
    ensures |DisputeOf(g, s, op, tik)| <= 1
  {
  }

  // ---------- open challenges over a run ----------

  /** A challenge closes when a new challenge finds it expired or has its nonce, when an enrolment uses
      it or finds it expired, and with the process. */
  predicate Closes(g: Config, s: State, op: Op, nonce: Bytes, expiry: real) {
    match op
    case Challenge(x, now) => x == nonce || expiry <= now
    case Enroll(e, now) => e.nonce == nonce && (expiry <= now || EnrolVerdict(g, s, e, now) == Enrolled)
    case Restart => true
    case _ => false
  }

  predicate Issues(g: Config, op: Op, nonce: Bytes, expiry: real) {
    op.Challenge? && op.nonce == nonce && expiry == op.now + g.challengeTtl
  }

  predicate IsOpen(s: State, nonce: Bytes, expiry: real) {
    nonce in s.challenges && s.challenges[nonce] == expiry
  }

  lemma OpenStep(g: Config, s: State, op: Op, nonce: Bytes, expiry: real)
    ensures IsOpen(Apply(g, s, op), nonce, expiry) <==>
              Issues(g, op, nonce, expiry) || (IsOpen(s, nonce, expiry) && !Closes(g, s, op, nonce, expiry))
  {
    match op {
      case Challenge(x, now) => ChallengeChanges(g, s, x, now);
      case Enroll(e, now) =>
        EnrolChanges(g, s, e, now);
        EnrolReasons(g, s, e, now);
        hide Authorised, AuthorisationOffered, EnrolAppraised;
      case Present(p, now) =>
        PresentChanges(g, s, p, now);
        hide Marked;
      case AcceptTransfer(m, now) => MoveChanges(g, s, m, now);
      case Revoke(tik, text, now) => RevokeChanges(g, s, tik, text, now);
      case Restart => ChallengeChanges(g, s, [], 0.0);
    }
    hide Apply, EnrolVerdict, PresentVerdict, MoveVerdict;
  }

  /** The challenge was issued by operation i, and nothing since has closed it. */
  ghost predicate OpenSince(g: Config, ops: seq<Op>, i: int, nonce: Bytes, expiry: real) {
    && 0 <= i < |ops| && Issues(g, ops[i], nonce, expiry)
    && forall j :: i < j < |ops| ==> !Closes(g, After(g, ops[..j]), ops[j], nonce, expiry)
  }

  lemma OpenStays(g: Config, ops: seq<Op>, i: int, nonce: Bytes, expiry: real)
    requires ops != []
    ensures OpenSince(g, ops, i, nonce, expiry) <==>
              if i == |ops| - 1 then Issues(g, ops[i], nonce, expiry)
              else && OpenSince(g, Front(ops), i, nonce, expiry)
                   && !Closes(g, After(g, Front(ops)), Final(ops), nonce, expiry)
  {
    hide Closes, Issues, Run;
    var front := Front(ops);
    assert forall j | 0 <= j < |front| :: front[..j] == ops[..j] && front[j] == ops[j];
    assert ops[..|ops| - 1] == front;
  }

  lemma SomeStaysOpen(g: Config, ops: seq<Op>, nonce: Bytes, expiry: real)
    requires ops != []
    ensures (exists i :: OpenSince(g, ops, i, nonce, expiry)) <==>
              || Issues(g, Final(ops), nonce, expiry)
              || ((exists i :: OpenSince(g, Front(ops), i, nonce, expiry))
                  && !Closes(g, After(g, Front(ops)), Final(ops), nonce, expiry))
  {
    hide After, Closes, Issues, OpenSince;
    if i :| OpenSince(g, ops, i, nonce, expiry) { OpenStays(g, ops, i, nonce, expiry); }
    OpenStays(g, ops, |ops| - 1, nonce, expiry);
    if i :| OpenSince(g, Front(ops), i, nonce, expiry) {
      OpenIndex(g, Front(ops), i, nonce, expiry);
      OpenStays(g, ops, i, nonce, expiry);
    }
  }

  lemma NoneOpenYet(g: Config, nonce: Bytes, expiry: real)
    ensures !IsOpen(After(g, []), nonce, expiry) && !exists i :: OpenSince(g, [], i, nonce, expiry)
  {
  }

  /** Over every run, exactly these challenges are open, each until its own expiry. */
  lemma {:induction false} OpenExactly(g: Config, ops: seq<Op>, nonce: Bytes, expiry: real)
    ensures IsOpen(After(g, ops), nonce, expiry) <==> exists i :: OpenSince(g, ops, i, nonce, expiry)
    decreases |ops|
  {
    hide After, Apply, Closes, Issues, IsOpen, OpenSince;
    if ops == [] {
      NoneOpenYet(g, nonce, expiry);
    } else {
      OpenExactly(g, Front(ops), nonce, expiry);
      OpenStep(g, After(g, Front(ops)), Final(ops), nonce, expiry);
      LastOp(g, ops);
      SomeStaysOpen(g, ops, nonce, expiry);
    }
  }

  lemma OpenIndex(g: Config, ops: seq<Op>, i: int, nonce: Bytes, expiry: real)
    requires OpenSince(g, ops, i, nonce, expiry)
    ensures 0 <= i < |ops|
  {
  }
}
