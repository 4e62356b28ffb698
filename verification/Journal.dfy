// What the log says of every decision, field by field, and what a receipt therefore proves.
module Journal {
  import opened Octets
  import opened Primitives
  import opened MerkleTree
  import opened MerkleTheorems
  import opened Receipts
  import opened Ledger
  import opened Verdicts
  import opened Runs

  // ---------- one entry ----------

  predicate Recorded(op: Op) { !op.Challenge? && !op.Restart? }

  function KindOf(op: Op): Kind
    requires Recorded(op)
  {
    match op
    case Enroll(_, _) => EnrollEntry
    case Present(_, _) => PresentEntry
    case Revoke(_, _, _) => RevokeEntry
    case AcceptTransfer(_, _) => TransferEntry
  }

  function TikOf(op: Op): Bytes
    requires Recorded(op)
  {
    match op
    case Enroll(e, _) => e.tik
    case Present(p, _) => p.tik
    case Revoke(tik, _, _) => tik
    case AcceptTransfer(m, _) => m.tik
  }

  /** The answer the caller of the operation got. */
  function AnswerTo(g: Config, s: State, op: Op): Reason
    requires Recorded(op)
  {
    match op
    case Enroll(e, now) => EnrolVerdict(g, s, e, now)
    case Present(p, _) => PresentVerdict(g, s, p)
    case Revoke(_, text, _) => Operator(text)
    case AcceptTransfer(m, now) => MoveVerdict(g, s, m, now)
  }

  /** The instance a decision is about: the one genuine evidence named by then, or the one moved to. */
  ghost function InstanceIn(g: Config, s: State, op: Op): Option<Bytes>
    requires Recorded(op)
  {
    match op
    case Enroll(e, now) =>
      if EnrolVerdict(g, s, e, now) == Enrolled && EnrolAppraised(g, e).Genuine? && EnrolAppraised(g, e).anchor.Some?
      then NonEmpty(Some(EnrolAppraised(g, e).anchor.value.instance)) else None
    case Present(p, _) =>
      if Believed(g, s, p) && Appraised(g, p).anchor.Some?
      then NonEmpty(Some(Appraised(g, p).anchor.value.instance)) else None
    case Revoke(_, _, _) => None
    case AcceptTransfer(m, now) =>
      if MoveVerdict(g, s, m, now) == Transferred && m.grant.Some? then NonEmpty(m.grant.value.to) else None
  }

  /** The entry tells the decision this operation met in this state. */
  ghost predicate Tells(g: Config, s: State, op: Op, e: Entry) {
    && Recorded(op)
    && e.kind == KindOf(op) && e.seqNo == |s.log| && e.at == op.now.Floor
    && e.id == g.c.sha256(TikOf(op))
    && e.reason == AnswerTo(g, s, op)
    && (e.accepted <==> op.Revoke? || e.reason in {Enrolled, Accepted, Transferred})
    && e.instance == InstanceIn(g, s, op)
  }

  lemma EntryTells(g: Config, s: State, op: Op)
    requires Recorded(op)
    ensures DecisionOf(g, s, op).Some? && Tells(g, s, op, DecisionOf(g, s, op).value)
  {
    match op {
      case Enroll(e, now) => EnrolEntryTells(g, s, e, now);
      case Present(p, now) => PresentEntryTells(g, s, p, now);
      case Revoke(_, _, _) =>
      case AcceptTransfer(m, now) => MoveEntryTells(g, s, m, now);
    }
  }

  lemma EnrolEntryTells(g: Config, s: State, e: Enrolment, now: real)
    ensures Tells(g, s, Enroll(e, now), DecisionOf(g, s, Enroll(e, now)).value)
  {
    EnrolExactly(g, s, e, now);
    hide Authorised;
    EnrolReasonsOnly(g, s, e, now);
    hide EnrolVerdict;
  }

  /** No answer is shared between the kinds of operation where it would be read as a success. */
  lemma EnrolReasonsOnly(g: Config, s: State, e: Enrolment, now: real)
    ensures EnrolVerdict(g, s, e, now) !in {Accepted, Transferred}
  {
  }

  lemma PresentEntryTells(g: Config, s: State, p: Presentation, now: real)
    ensures Tells(g, s, Present(p, now), DecisionOf(g, s, Present(p, now)).value)
  {
    AppraisedIsEvidence(g, p);
    ScreeningReasons(g, s, p);
    PresentReasonsOnly(g, s, p);
    hide HeadProblem, Evidence, Appraised, Admission, Screening, Considered;
  }

  lemma PresentReasonsOnly(g: Config, s: State, p: Presentation)
    ensures PresentVerdict(g, s, p) !in {Enrolled, Transferred}
  {
    hide HeadProblem, Evidence, LedgerProblem, ChainVerdict;
  }

  lemma MoveEntryTells(g: Config, s: State, m: Move, now: real)
    ensures Tells(g, s, AcceptTransfer(m, now), DecisionOf(g, s, AcceptTransfer(m, now)).value)
  {
    MoveReasonsOnly(g, s, m, now);
    hide MoveVerdict;
  }

  lemma MoveReasonsOnly(g: Config, s: State, m: Move, now: real)
    ensures MoveVerdict(g, s, m, now) !in {Accepted, Enrolled}
  {
    hide FreshWitness, AllZero;
  }

  // ---------- the log of a run ----------

  /** Every operation other than a challenge or a restart adds one entry that tells its decision, and
      leaves the others as they are. */
  lemma OperationTells(g: Config, s: State, op: Op)
    requires Recorded(op)
    ensures var s' := Apply(g, s, op);
            |s'.log| == |s.log| + 1 && s.log <= s'.log && Tells(g, s, op, s'.log[|s.log|])
  {
    EntryTells(g, s, op);
    LogStep(g, s, op);
    hide Apply, Tells, DecisionOf;
  }

  /** The decision that operation j of the run met. */
  ghost predicate ToldAt(g: Config, ops: seq<Op>, j: int, e: Entry) {
    0 <= j < |ops| && Tells(g, After(g, ops[..j]), ops[j], e)
  }

  /** Every entry of a run's log tells the decision of one of its operations. */
  lemma {:induction false} EveryEntryTells(g: Config, ops: seq<Op>, i: nat)
    requires i < |After(g, ops).log|
    ensures exists j :: ToldAt(g, ops, j, After(g, ops).log[i])
    decreases |ops|
  {
    hide After, ToldAt;
    if ops == [] {
      NoEntriesYet(g);
    } else {
      var n := |ops| - 1;
      var log := After(g, ops[..n]).log;
      LastEntries(g, ops);
      if i < |log| {
        EveryEntryTells(g, ops[..n], i);
        var j :| ToldAt(g, ops[..n], j, log[i]);
        ToldLater(g, ops, n, j, log[i]);
      }
    }
  }

  lemma NoEntriesYet(g: Config)
    ensures After(g, []).log == []
  {
  }

  lemma ToldLater(g: Config, ops: seq<Op>, n: nat, j: int, e: Entry)
    requires n <= |ops| && ToldAt(g, ops[..n], j, e)
    ensures ToldAt(g, ops, j, e)
  {
    hide Tells, Run;
    assert ops[..n][..j] == ops[..j] && ops[..n][j] == ops[j];
  }

  /** The last operation keeps the log and tells its own decision, adds nothing, or empties it. */
  lemma LastEntries(g: Config, ops: seq<Op>)
    requires ops != []
    ensures var n := |ops| - 1; var log, log' := After(g, ops[..n]).log, After(g, ops).log;
            || log' == [] || log' == log
            || (|log'| == |log| + 1 && log <= log' && ToldAt(g, ops, n, log'[|log|]))
  {
    var n := |ops| - 1;
    assert After(g, ops) == Apply(g, After(g, ops[..n]), ops[n]);
    hide After, Apply, Tells, Run;
    LogStep(g, After(g, ops[..n]), ops[n]);
    if Recorded(ops[n]) { OperationTells(g, After(g, ops[..n]), ops[n]); }
  }

  // ---------- receipts ----------

  /** The receipt is for an entry of the log, and that entry tells a decision of the run. */
  ghost predicate NamesDecision(g: Config, ops: seq<Op>, r: Receipt) {
    var log := After(g, ops).log;
    && 0 <= r.index < |log| && r.entry == g.c.entryBytes(log[r.index]) && log[r.index].seqNo == r.index
    && exists j :: ToldAt(g, ops, j, log[r.index])
  }

  /** The decision stands for a receipt that verifies under a head this run's log has had, or the
      collision it rests on. */
  lemma ReceiptNamesDecision(g: Config, ops: seq<Op>, r: Receipt, n: nat)
    requires VerifyReceipt(g.c, g.publicKey, r) == ReceiptVerifies && n <= |After(g, ops).log|
    requires r.sth.size == n && r.sth.root == HeadAt(g, After(g, ops).log, n)
    ensures NamesDecision(g, ops, r)
         || Collides(g.c.sha256, InclusionInputs(g.c.sha256, Leaves(g.c, After(g, ops).log[..n]), r.entry, r.index,
             r.proof))
  {
    var log := After(g, ops).log;
    ReceiptExactly(g.c, g.publicKey, r);
    ReceiptIsBinding(g.c, g.publicKey, Leaves(g.c, log[..n]), r);
    LogInvariant(g, ops);
    EveryEntryTells(g, ops, r.index);
    hide ToldAt, Run, Root, Leaves, InclusionInputs, Collides;
  }

  /** If the mandate's key signs nothing but heads of this log, every receipt that verifies names a
      decision, or inputs that were hashed collide. */
  lemma VerifiedReceiptNamesDecision(g: Config, ops: seq<Op>, r: Receipt)
    requires VerifyReceipt(g.c, g.publicKey, r) == ReceiptVerifies
    requires SignsOnly(g.c, g.publicKey, Leaves(g.c, After(g, ops).log))
    ensures NamesDecision(g, ops, r)
         || (0 <= r.sth.size <= |After(g, ops).log|
             && Collides(g.c.sha256, InclusionInputs(g.c.sha256, Leaves(g.c, After(g, ops).log[..r.sth.size]),
                                                     r.entry, r.index, r.proof)))
  {
    var log := After(g, ops).log;
    ReceiptExactly(g.c, g.publicKey, r);
    assert Leaves(g.c, log)[..r.sth.size] == Leaves(g.c, log[..r.sth.size]);
    ReceiptNamesDecision(g, ops, r, r.sth.size);
    hide NamesDecision, InclusionInputs, Collides;
  }

  /** In particular, a receipt for an accepted step says that it was accepted. */
  lemma ReceiptOfAcceptance(g: Config, ops: seq<Op>, p: Presentation, now: real)
    requires PresentVerdict(g, After(g, ops), p) == Accepted
    ensures var log := After(g, ops + [Present(p, now)]).log;
            && |log| == |After(g, ops).log| + 1
            && log[|log| - 1].accepted && log[|log| - 1].reason == Accepted && log[|log| - 1].kind == PresentEntry
            && log[|log| - 1].id == g.c.sha256(p.tik) && log[|log| - 1].at == now.Floor
  {
    var op := Present(p, now);
    assert (ops + [op])[..|ops|] == ops;
    assert After(g, ops + [op]) == Apply(g, After(g, ops), op);
    OperationTells(g, After(g, ops), op);
    hide Run, Apply, InstanceIn;
  }
}
