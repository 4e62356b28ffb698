// Whole runs of one mandate: any finite sequence of operations, by anyone, with any evidence.
module Runs {
  import opened Octets
  import opened Primitives
  import opened MerkleTree
  import opened MerkleTheorems
  import opened Receipts
  import opened Ledger

  datatype Op =
    | Challenge(nonce: Bytes, now: real)
    | Enroll(e: Enrolment, now: real)
    | Present(p: Presentation, now: real)
    | Revoke(tik: Bytes, text: string, now: real)
    | AcceptTransfer(m: Move, now: real)
    | Restart       // of the process, with the same ledger, policy and signing key

  function Apply(g: Config, s: State, op: Op): State {
    match op
    case Challenge(nonce, now) => AfterChallenge(g, s, nonce, now)
    case Enroll(e, now) => AfterEnrol(g, s, e, now)
    case Present(p, now) => AfterPresent(g, s, p, now)
    case Revoke(tik, text, now) => AfterRevoke(g, s, tik, text, now)
    case AcceptTransfer(m, now) => AfterMove(g, s, m, now)
    case Restart => Begin(g.c, s.store)
  }

  function Run(g: Config, s: State, ops: seq<Op>): State {
    if ops == [] then s
    else Apply(g, Run(g, s, ops[..|ops| - 1]), ops[|ops| - 1])
  }

  /** The state of a mandate that started empty and has served `ops`. */
  function After(g: Config, ops: seq<Op>): State { Run(g, Init(g.c), ops) }

  predicate EnrolAccepted(g: Config, s: State, op: Op) {
    op.Enroll? && EnrolVerdict(g, s, op.e, op.now) == Enrolled
  }

  predicate PresentAccepted(g: Config, s: State, op: Op) {
    op.Present? && PresentVerdict(g, s, op.p) == Accepted
  }

  predicate MoveAccepted(g: Config, s: State, op: Op) {
    op.AcceptTransfer? && MoveVerdict(g, s, op.m, op.now) == Transferred
  }

  /** The identity an operation is about. */
  function Subject(op: Op): Option<Bytes> {
    match op
    case Challenge(_, _) => None
    case Enroll(e, _) => Some(e.tik)
    case Present(p, _) => Some(p.tik)
    case Revoke(tik, _, _) => Some(tik)
    case AcceptTransfer(m, _) => Some(m.tik)
    case Restart => None
  }

  // ---------- what one operation does to one record ----------

  /** The record of `tik` after one operation, in terms of its record before. */
  function NextRecord(g: Config, s: State, op: Op, tik: Bytes): Record {
    var rec := Rec(s.store, tik);
    if Subject(op) != Some(tik) then rec
    else if EnrolAccepted(g, s, op) then EnrolledRecord(rec, EnrolAnchor(g, op.e).value, op.e.transferAuthority)
    else if op.Present? then PresentedRecord(g, rec, Evidence(g, op.p), PresentVerdict(g, s, op.p), Seconds(op.now))
    else if op.Revoke? then rec.(revoked := true, reason := Some(op.text))
    else if MoveAccepted(g, s, op) then MovedRecord(g, rec, op.m.grant.value, Seconds(op.now))
    else rec
  }

  lemma RecordStep(g: Config, s: State, op: Op, tik: Bytes)
    ensures Rec(Apply(g, s, op).store, tik) == NextRecord(g, s, op, tik)
  {
    match op {
      case Challenge(_, _) =>
      case Enroll(e, now) => EnrolRecordStep(g, s, e, now, tik);
      case Present(p, now) => PresentRecordStep(g, s, p, now, tik);
      case Revoke(_, _, _) => hide Leaves, Root;
      case AcceptTransfer(m, now) => MoveRecordStep(g, s, m, now, tik);
      case Restart =>
    }
  }

  lemma EnrolRecordStep(g: Config, s: State, e: Enrolment, now: real, tik: Bytes)
    ensures Rec(AfterEnrol(g, s, e, now).store, tik) == NextRecord(g, s, Enroll(e, now), tik)
  {
    hide EnrolVerdict, EnrolAnchor, Leaves, Root;
  }

  lemma PresentRecordStep(g: Config, s: State, p: Presentation, now: real, tik: Bytes)
    ensures Rec(AfterPresent(g, s, p, now).store, tik) == NextRecord(g, s, Present(p, now), tik)
  {
    hide PresentVerdict, Evidence, WithWitness, WithDispute, Leaves, Root;
  }

  lemma MoveRecordStep(g: Config, s: State, m: Move, now: real, tik: Bytes)
    ensures Rec(AfterMove(g, s, m, now).store, tik) == NextRecord(g, s, AcceptTransfer(m, now), tik)
  {
    hide Leaves, Root, FreshWitness, LastN;
  }

  // ---------- the log over whole runs ----------

  /** The entry an operation other than a challenge or a restart adds. */
  function DecisionOf(g: Config, s: State, op: Op): Option<Entry> {
    match op
    case Challenge(_, _) => None
    case Enroll(e, now) =>
      var why := EnrolVerdict(g, s, e, now);
      var instance := if why == Enrolled then Some(EnrolAnchor(g, e).value.instance) else None;
      Some(NewEntry(g, s.log, EnrollEntry, e.tik, why == Enrolled, why, instance, now))
    case Present(p, now) =>
      var why := PresentVerdict(g, s, p);
      Some(NewEntry(g, s.log, PresentEntry, p.tik, why == Accepted, why, PresentedInstance(g, s, p), now))
    case Revoke(tik, text, now) => Some(NewEntry(g, s.log, RevokeEntry, tik, true, Operator(text), None, now))
    case AcceptTransfer(m, now) =>
      var why := MoveVerdict(g, s, m, now);
      Some(NewEntry(g, s.log, TransferEntry, m.tik, why == Transferred, why,
                    if why == Transferred then m.grant.value.to else None, now))
    case Restart => None
  }

  function AsLog(d: Option<Entry>): seq<Entry> { if d.Some? then [d.value] else [] }

  /** One operation logs its decision, and keeps the new head; a restart forgets the log. */
  ghost predicate Logs(g: Config, s: State, op: Op, s': State) {
    if op.Restart? then s'.log == [] && s'.roots == map[Root(g.c.sha256, []) := 0]
    else
      && s'.log == s.log + AsLog(DecisionOf(g, s, op))
      && s'.roots == if op.Challenge? then s.roots
                     else s.roots[Root(g.c.sha256, Leaves(g.c, s'.log)) := |s'.log|]
  }

  /** The live chains after one operation. */
  function SessionsAfter(g: Config, s: State, op: Op): map<(Bytes, Bytes), Session> {
    if PresentAccepted(g, s, op) then s.sessions[SessionOf(g, op.p) := Session(op.p.msg.postLink, op.p.msg.counter)]
    else if MoveAccepted(g, s, op) then map x | x in s.sessions && x.0 != op.m.tik :: s.sessions[x]
    else if op.Restart? then map[]
    else s.sessions
  }

  lemma LogStep(g: Config, s: State, op: Op)
    ensures Logs(g, s, op, Apply(g, s, op))
  {
    hide SessionsAfter;
    Effect(g, s, op);
    hide Apply, Logs;
  }

  lemma SessionsStep(g: Config, s: State, op: Op)
    ensures Apply(g, s, op).sessions == SessionsAfter(g, s, op)
  {
    hide SessionsAfter;
    Effect(g, s, op);
    hide Apply, Logs;
  }

  lemma Effect(g: Config, s: State, op: Op)
    ensures Logs(g, s, op, Apply(g, s, op)) && Apply(g, s, op).sessions == SessionsAfter(g, s, op)
  {
    hide AfterEnrol, AfterPresent, AfterMove, DecisionOf, SessionsAfter, PresentVerdict, MoveVerdict, EnrolVerdict,
         Logs;
    match op {
      case Challenge(nonce, now) => ChallengeEffect(g, s, nonce, now);
      case Enroll(e, now) => EnrolEffect(g, s, e, now);
      case Present(p, now) => PresentEffect(g, s, p, now);
      case Revoke(tik, text, now) => RevokeEffect(g, s, tik, text, now);
      case AcceptTransfer(m, now) => MoveEffect(g, s, m, now);
      case Restart => RestartEffect(g, s);
    }
  }

  lemma RestartEffect(g: Config, s: State)
    ensures Logs(g, s, Restart, Begin(g.c, s.store)) && Begin(g.c, s.store).sessions == SessionsAfter(g, s, Restart)
  {
  }

  lemma ChallengeEffect(g: Config, s: State, nonce: Bytes, now: real)
    ensures var op, s' := Challenge(nonce, now), AfterChallenge(g, s, nonce, now);
            Logs(g, s, op, s') && s'.sessions == SessionsAfter(g, s, op)
  {
  }

  lemma EnrolEffect(g: Config, s: State, e: Enrolment, now: real)
    ensures var op, s' := Enroll(e, now), AfterEnrol(g, s, e, now);
            Logs(g, s, op, s') && s'.sessions == SessionsAfter(g, s, op)
  {
    hide EnrolVerdict, EnrolAnchor, Leaves, Root;
  }

  lemma PresentEffect(g: Config, s: State, p: Presentation, now: real)
    ensures var op, s' := Present(p, now), AfterPresent(g, s, p, now);
            Logs(g, s, op, s') && s'.sessions == SessionsAfter(g, s, op)
  {
    hide PresentVerdict, PresentedInstance, PresentedRecord, Evidence, SessionOf, Leaves, Root;
  }

  lemma RevokeEffect(g: Config, s: State, tik: Bytes, text: string, now: real)
    ensures var op, s' := Revoke(tik, text, now), AfterRevoke(g, s, tik, text, now);
            Logs(g, s, op, s') && s'.sessions == SessionsAfter(g, s, op)
  {
    hide Leaves, Root;
  }

  lemma MoveEffect(g: Config, s: State, m: Move, now: real)
    ensures var op, s' := AcceptTransfer(m, now), AfterMove(g, s, m, now);
            Logs(g, s, op, s') && s'.sessions == SessionsAfter(g, s, op)
  {
    hide MoveVerdict, MovedRecord, Leaves, Root;
  }

  /** Every decision the run has taken since its last restart, in order: the log it must have. */
  function Decisions(g: Config, ops: seq<Op>): seq<Entry> {
    if ops == [] || ops[|ops| - 1].Restart? then []
    else
      var before := ops[..|ops| - 1];
      Decisions(g, before) + AsLog(DecisionOf(g, After(g, before), ops[|ops| - 1]))
  }

  function HeadAt(g: Config, log: seq<Entry>, n: nat): Digest
    requires n <= |log|
  {
    Root(g.c.sha256, Leaves(g.c, log[..n]))
  }

  /** The heads known are exactly the roots of the prefixes of the log. */
  ghost predicate HeadsAreExact(g: Config, s: State) {
    forall head :: head in s.roots <==> exists n: nat :: n <= |s.log| && head == HeadAt(g, s.log, n)
  }

  ghost predicate Numbered(log: seq<Entry>) {
    forall i :: 0 <= i < |log| ==> log[i].seqNo == i
  }

  lemma {:induction false} LogInvariant(g: Config, ops: seq<Op>)
    ensures var s := After(g, ops);
            s.log == Decisions(g, ops) && Numbered(s.log) && HeadsAreExact(g, s)
  {
    if ops == [] {
      InitialHeads(g, map[]);
    } else {
      var before, op := ops[..|ops| - 1], ops[|ops| - 1];
      LogInvariant(g, before);
      LogStep(g, After(g, before), op);
      HeadsStep(g, After(g, before), op);
      hide HeadsAreExact, Apply;
      var d := DecisionOf(g, After(g, before), op);
      assert d.Some? ==> d.value.seqNo == |After(g, before).log|;
    }
  }

  lemma InitialHeads(g: Config, store: map<Bytes, Record>)
    ensures HeadsAreExact(g, Begin(g.c, store))
  {
    var s := Begin(g.c, store);
    assert Leaves(g.c, s.log[..0]) == [];
    assert s.log[..0] == s.log;
    assert HeadAt(g, s.log, 0) == Root(g.c.sha256, []);
  }

  lemma HeadStays(g: Config, log: seq<Entry>, later: seq<Entry>, n: nat)
    requires log <= later && n <= |log|
    ensures HeadAt(g, later, n) == HeadAt(g, log, n)
  {
    assert later[..n] == log[..n];
  }

  lemma HeadsGrow(g: Config, s: State, s': State)
    requires HeadsAreExact(g, s) && s.log <= s'.log && |s'.log| == |s.log| + 1
    requires s'.roots == s.roots[HeadAt(g, s'.log, |s'.log|) := |s'.log|]
    ensures HeadsAreExact(g, s')
  {
    hide HeadAt;
    forall head ensures head in s'.roots <==> exists n: nat :: n <= |s'.log| && head == HeadAt(g, s'.log, n) {
      if head in s.roots {
        var n: nat :| n <= |s.log| && head == HeadAt(g, s.log, n);
        HeadStays(g, s.log, s'.log, n);
      }
      if n: nat :| n <= |s.log| && head == HeadAt(g, s'.log, n) { HeadStays(g, s.log, s'.log, n); }
    }
  }

  lemma HeadsStep(g: Config, s: State, op: Op)
    requires HeadsAreExact(g, s)
    ensures HeadsAreExact(g, Apply(g, s, op))
  {
    hide HeadsAreExact;
    assert op.Restart? ==> Apply(g, s, op) == Begin(g.c, s.store);
    hide Apply;
    LogStep(g, s, op);
    var s' := Apply(g, s, op);
    if op.Restart? {
      InitialHeads(g, s.store);
    } else if op.Challenge? {
      SameHeads(g, s, s');
    } else {
      assert s'.log[..|s'.log|] == s'.log;
      HeadsGrow(g, s, s');
    }
  }

  lemma SameHeads(g: Config, s: State, s': State)
    requires HeadsAreExact(g, s) && s'.log == s.log && s'.roots == s.roots
    ensures HeadsAreExact(g, s')
  {
    hide HeadAt;
  }

  predicate NoRestart(ops: seq<Op>, i: nat) {
    forall k :: i <= k < |ops| ==> !ops[k].Restart?
  }

  /** The log of a run extends the log of every earlier moment since its last restart, by one entry
      per operation other than a challenge. */
  lemma {:induction false} LogOnlyGrows(g: Config, ops: seq<Op>, i: nat)
    requires i <= |ops| && NoRestart(ops, i)
    ensures After(g, ops[..i]).log <= After(g, ops).log
    ensures |After(g, ops).log| == |After(g, ops[..i]).log| + Recorded(ops[i..])
    decreases |ops|
  {
    if i == |ops| {
      assert ops[..i] == ops;
    } else {
      var n := |ops| - 1;
      hide Apply, Recorded;
      LogOnlyGrows(g, ops[..n], i);
      assert ops[..n][..i] == ops[..i];
      GrowsByOne(g, After(g, ops[..n]), ops[n]);
      RecordedLast(ops, i);
    }
  }

  lemma GrowsByOne(g: Config, s: State, op: Op)
    requires !op.Restart?
    ensures s.log <= Apply(g, s, op).log
    ensures |Apply(g, s, op).log| == |s.log| + if op.Challenge? then 0 else 1
  {
    LogStep(g, s, op);
    hide Apply, Root, Leaves;
  }

  lemma RecordedLast(ops: seq<Op>, i: nat)
    requires i < |ops|
    ensures var n := |ops| - 1; Recorded(ops[i..]) == Recorded(ops[..n][i..]) + if ops[n].Challenge? then 0 else 1
  {
    var n := |ops| - 1;
    assert ops[i..][..n - i] == ops[..n][i..] && ops[i..][n - i] == ops[n];
  }

  function Recorded(ops: seq<Op>): nat {
    if ops == [] then 0
    else Recorded(ops[..|ops| - 1]) + if ops[|ops| - 1].Challenge? then 0 else 1
  }

  // ---------- receipts and heads of a run ----------

  /** No two places of a run's log hold the same bytes, unless the encoding of entries collides on
      two decisions that were really logged: a dropped decision cannot be hidden behind a twin. */
  lemma LeavesAreDistinct(g: Config, ops: seq<Op>, i: nat, j: nat)
    requires i < j < |After(g, ops).log|
    ensures var log := After(g, ops).log;
            Leaves(g.c, log)[i] != Leaves(g.c, log)[j]
            || (log[i] != log[j] && g.c.entryBytes(log[i]) == g.c.entryBytes(log[j]))
  {
    LogInvariant(g, ops);
  }

  /** A mandate that really served `ops` can clear any head it signed after its first decision, short
      of a restart. */
  lemma HonestHistoryIsCleared(g: Config, ops: seq<Op>, i: nat, old_: Sth, now: Sth)
    requires i <= |ops| && NoRestart(ops, i) && After(g, ops[..i]).log != []
    requires HeadOf(g.c, g.publicKey, old_, Leaves(g.c, After(g, ops[..i]).log))
    requires HeadOf(g.c, g.publicKey, now, Leaves(g.c, After(g, ops).log))
    ensures var b := Leaves(g.c, After(g, ops).log);
            var offer := HonestOffer(g.c.sha256, b, old_.size);
            && Cleared(Divergence(g.c, g.publicKey, old_.size, old_.root, now, offer))
            && Cleared(IsEquivocation(g.c, g.publicKey, old_, now, offer, Withheld))
  {
    hide Run, Root, ConsistencyAccepts, ConsistencyProof;
    LogOnlyGrows(g, ops, i);
    var a, b := Leaves(g.c, After(g, ops[..i]).log), Leaves(g.c, After(g, ops).log);
    assert a <= b && b[..|a|] == a;
    DivergenceClearsHonest(g.c, g.publicKey, a, b, now);
    if a != b { ConsistencyAcceptsHonest(g.c.sha256, b, |a|); }
  }

  /** A restart forgets the log but may keep the signing key. Heads signed before and after it are
      cleared exactly if the shorter of the two logs happens to be a prefix of the longer; once the
      first decisions differ, say in their second, every pair of non-empty heads is flagged. */
  lemma RestartIsSeen(g: Config, before: seq<Op>, after: seq<Op>, ha: Sth, hb: Sth, aToB: Offer, bToA: Offer)
    requires HeadOf(g.c, g.publicKey, ha, Leaves(g.c, After(g, before).log))
    requires HeadOf(g.c, g.publicKey, hb, Leaves(g.c, After(g, before + [Restart] + after).log))
    ensures var a, b := Leaves(g.c, After(g, before).log), Leaves(g.c, After(g, before + [Restart] + after).log);
            var (lo, hi, offer) := if |a| <= |b| then (a, b, aToB) else (b, a, bToA);
            && (Showable(lo, hi) ==>
                  Cleared(IsEquivocation(g.c, g.publicKey, ha, hb,
                                         HonestOffer(g.c.sha256, b, |a|), HonestOffer(g.c.sha256, a, |b|))))
            && (!Showable(lo, hi) ==>
                  || IsEquivocation(g.c, g.publicKey, ha, hb, aToB, bToA) == Equivocation
                  || Collides(g.c.sha256, ConsistencyInputs(g.c.sha256, lo, hi, ProofIn(offer))))
            && (a != [] && b != [] && a[0] != b[0] ==> !Showable(lo, hi))
  {
    hide Run, Root, ConsistencyInputs, ConsistencyAccepts, OfferAccepted, HonestOffer;
    var a, b := Leaves(g.c, After(g, before).log), Leaves(g.c, After(g, before + [Restart] + after).log);
    var (lo, hi) := if |a| <= |b| then (a, b) else (b, a);
    if Showable(lo, hi) {
      EquivocationClearsHonest(g.c, g.publicKey, a, b, ha, hb);
    } else if Cleared(IsEquivocation(g.c, g.publicKey, ha, hb, aToB, bToA)) {
      EquivocationClearsOnlyHonest(g.c, g.publicKey, a, b, ha, hb, aToB, bToA);
    }
  }
}
