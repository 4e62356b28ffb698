// Runs that exist: the honest protocol completes for every length, and the two limits of transfers
// (32 witnesses, 256 nonces) are met by real runs.
module Scenario {
  import opened Octets
  import opened Primitives
  import opened Ledger
  import opened Runs
  import opened Identities
  import opened Continuity
  import opened Recovery

  /** A mandate, what TEEs report for an instance, an identity with its request and challenge, and its
      owner. */
  datatype Setting = Setting(g: Config, tee: (Bytes, Bytes) -> Bytes, tik: Bytes, csr: Bytes,
                             nonce: Bytes, authority: Bytes, sign: Bytes -> Bytes)

  /** Reports verify over what they were made for, requests and grants are in order. Nothing is asked of
      the hashes. */
  ghost predicate Works(st: Setting) {
    && (forall i, d: Digest64, e :: ReportVerifies(st, i, d, e)) && (forall m :: GrantSigned(st, m))
    && st.g.c.csrKey(st.csr) == Some(st.tik) && |st.csr| > 83
    && !st.g.requirePlace && st.g.enrolmentAuthority.None?
    && st.g.challengeTtl > 0.0 && st.g.witnessTtl > 0
  }

  predicate ReportVerifies(st: Setting, instance: Bytes, data: Digest64, expected: Bytes) {
    st.g.c.verifyReport(st.tee(instance, data), expected)
    == if data == expected then Genuine(Some(Anchor(instance, None))) else Refused
  }

  predicate GrantSigned(st: Setting, m: Bytes) {
    st.g.c.signedBy(st.authority, m, st.sign(m))
  }

  /** Such settings exist around every choice of hashes: let a report show its data and instance. */
  lemma SomeSettingWorks(c: Crypto, tik: Bytes) returns (st: Setting)
    ensures Works(st) && st.tik == tik
    ensures st.g.c.sha256 == c.sha256 && st.g.c.sha384 == c.sha384 && st.g.c.sha512 == c.sha512
        && st.g.c.hmac384 == c.hmac384
  {
    var read: (Bytes, Bytes) -> Appraisal := (report, data) =>
      if |data| == 64 && |report| >= 64 && report[..64] == data then Genuine(Some(Anchor(report[64..], None)))
          else Refused;
    var c' := c.(verifyReport := read, signedBy := (key, message, sig) => true, csrKey := csr => Some(tik));
    var g := Config(c', [], true, true, false, 300.0, 3600, None);
    st := Setting(g, (instance, data) => data + instance, tik, seq(84, i => 0), [], [], message => []);
    forall i, d: Digest64, e ensures ReportVerifies(st, i, d, e) {
      assert st.tee(i, d)[..64] == d && st.tee(i, d)[64..] == i;
    }
  }

  function EnrolmentOf(st: Setting, home: Bytes): Enrolment {
    Enrolment(st.tik, st.tee(home, st.g.c.sha512(EnrolInput(st.nonce, st.csr))), st.nonce, st.csr, Some(st.authority),
        None, None)
  }

  function Enrolling(st: Setting, home: Bytes): seq<Op> {
    [Challenge(st.nonce, 0.0), Enroll(EnrolmentOf(st, home), 0.0)]
  }

  lemma EnrolmentSucceeds(st: Setting, home: Bytes)
    requires Works(st)
    ensures var s1 := After(st.g, [Challenge(st.nonce, 0.0)]);
            && EnrolVerdict(st.g, s1, EnrolmentOf(st, home), 0.0) == Enrolled
            && EnrolAnchor(st.g, EnrolmentOf(st, home)) == Some(Anchor(home, None))
            && s1.store == map[] && s1.sessions == map[]
  {
    var s1 := After(st.g, [Challenge(st.nonce, 0.0)]);
    assert s1 == AfterChallenge(st.g, Init(st.g.c), st.nonce, 0.0) by {
      LastOp(st.g, [Challenge(st.nonce, 0.0)]);
      NoOps(st.g, Init(st.g.c));
      hide AfterChallenge;
    }
    hide Run;
    assert s1.challenges[st.nonce] == st.g.challengeTtl;
    var data := st.g.c.sha512(EnrolInput(st.nonce, st.csr));
    assert ReportVerifies(st, home, data, data);
  }

  function HomeRecord(st: Setting, home: Bytes): Record {
    BLANK.(enrolledInstance := Some(home), transferAuthority := Some(st.authority))
  }

  lemma EnrolledState(st: Setting, home: Bytes)
    requires Works(st)
    ensures var s := After(st.g, Enrolling(st, home));
            && s == Apply(st.g, After(st.g, [Challenge(st.nonce, 0.0)]), Enroll(EnrolmentOf(st, home), 0.0))
            && Rec(s.store, st.tik) == HomeRecord(st, home) && s.sessions == map[]
  {
    var ops, before := Enrolling(st, home), [Challenge(st.nonce, 0.0)];
    assert ops[..1] == before;
    hide Run, Apply, EnrolVerdict, EnrolAnchor;
    EnrolmentSucceeds(st, home);
    assert After(st.g, ops) == Apply(st.g, After(st.g, before), ops[1]) by { LastOp(st.g, ops); }
    RecordStep(st.g, After(st.g, before), ops[1], st.tik);
    SessionsStep(st.g, After(st.g, before), ops[1]);
  }

  // ---------- presentations that are refused but witnessed ----------

  function Visit(st: Setting, instance: Bytes): Presentation {
    Presentation(st.tik, [], [], Message(0, [], st.tee(instance, ReportData(st.g.c, [], None))), None, None)
  }

  lemma VisitEvidence(st: Setting, instance: Bytes)
    requires Works(st)
    ensures Evidence(st.g, Visit(st, instance)) == Genuine(Some(Anchor(instance, None)))
    ensures Visit(st, instance).tik == st.tik && Visit(st, instance).head.None?
  {
    hide ReportData;
    var data := ReportData(st.g.c, [], None);
    assert ReportVerifies(st, instance, data, data);
  }

  ghost predicate LivesOn(st: Setting, s: State, home: Bytes) {
    !Rec(s.store, st.tik).revoked && Rec(s.store, st.tik).enrolledInstance == Some(home) && home != []
  }

  lemma ImpostorOf(g: Config, s: State, p: Presentation, home: Bytes, instance: Bytes)
    requires Evidence(g, p) == Genuine(Some(Anchor(instance, None))) && p.head.None? && instance != home && home != []
    requires !Rec(s.store, p.tik).revoked && Rec(s.store, p.tik).enrolledInstance == Some(home)
    ensures PresentVerdict(g, s, p) == Impostor
  {
    hide Evidence, ChainVerdict;
  }

  lemma VisitIsRefused(st: Setting, s: State, home: Bytes, instance: Bytes)
    requires Works(st) && instance != home && LivesOn(st, s, home)
    ensures PresentVerdict(st.g, s, Visit(st, instance)) == Impostor
    ensures LivesOn(st, Apply(st.g, s, Present(Visit(st, instance), 0.0)), home)
  {
    hide Works, Visit, Evidence, Apply, PresentVerdict;
    VisitEvidence(st, instance);
    ImpostorOf(st.g, s, Visit(st, instance), home, instance);
    RecordStep(st.g, s, Present(Visit(st, instance), 0.0), st.tik);
  }

  // ---------- the limit on witnesses ----------

  const HOME: Bytes := [1]
  const NEW: Bytes := [2]

  /** The k-th of a row of further instances. */
  function Other(k: nat): Bytes
    requires k < 32
  {
    [k + 3]
  }

  function Crowd(st: Setting, n: nat): (ops: seq<Op>)
    requires n <= 32
    ensures |ops| == n
  {
    if n == 0 then [] else Crowd(st, n - 1) + [Present(Visit(st, Other(n - 1)), 0.0)]
  }

  /** The first n of the row. */
  ghost predicate Row(others: set<Bytes>, n: nat) {
    |others| == n && forall x :: x in others ==> |x| == 1 && 3 <= x[0] < n + 3
  }

  lemma RowGrows(others: set<Bytes>, n: nat)
    requires Row(others, n) && n < 32
    ensures Row(others + {Other(n)}, n + 1)
  {
    SizeOfAdded(others, Other(n));
  }

  ghost predicate CrowdHasPassed(st: Setting, s: State, ops: seq<Op>, n: nat) {
    && AllPass(st.g, s, ops, st.tik, 0) && AllHarmless(st.g, s, ops)
    && LivesOn(st, Run(st.g, s, ops), HOME) && Row(OthersSince(st.g, s, ops, st.tik, NEW), n)
  }

  lemma {:induction false} CrowdPasses(st: Setting, s: State, n: nat)
    requires Works(st) && n <= 32 && LivesOn(st, s, HOME)
    ensures CrowdHasPassed(st, s, Crowd(st, n), n)
  {
    if n == 0 {
      hide LivesOn;
      NoOps(st.g, s);
    } else {
      hide CrowdHasPassed, Works, LivesOn;
      CrowdPasses(st, s, n - 1);
      CrowdStep(st, s, Crowd(st, n - 1), n - 1);
    }
  }

  /** One more refused visitor. */
  lemma CrowdStep(st: Setting, s: State, before: seq<Op>, n: nat)
    requires Works(st) && n < 32 && CrowdHasPassed(st, s, before, n)
    ensures CrowdHasPassed(st, s, before + [Present(Visit(st, Other(n)), 0.0)], n + 1)
  {
    hide Apply, Works, Visit, PresentVerdict, Evidence, Row, Harmless, LivesOn, AllHarmless;
    var op := Present(Visit(st, Other(n)), 0.0);
    FrontAndFinal(before, op);
    TtlIsPositive(st);
    VisitEvidence(st, Other(n));
    VisitIsRefused(st, Run(st.g, s, before), HOME, Other(n));
    RowGrows(OthersSince(st.g, s, before, st.tik, NEW), n);
    AllHarmlessStep(st.g, s, before, op);
  }

  lemma TtlIsPositive(st: Setting)
    requires Works(st)
    ensures st.g.witnessTtl > 0
  {
  }

  lemma FrontAndFinal(ops: seq<Op>, op: Op)
    ensures Front(ops + [op]) == ops && Final(ops + [op]) == op
  {
  }

  lemma AllHarmlessStep(g: Config, s: State, before: seq<Op>, op: Op)
    requires AllHarmless(g, s, before) && op.Present? && PresentVerdict(g, Run(g, s, before), op.p) != Accepted
    ensures AllHarmless(g, s, before + [op])
  {
    hide PresentVerdict;
    assert Harmless(g, Run(g, s, before), op);
    var ops := before + [op];
    hide Run, Harmless;
    forall i | 0 <= i < |ops| ensures Harmless(g, Run(g, s, ops[..i]), ops[i]) {
      assert ops[..i] == if i < |before| then before[..i] else before;
    }
  }

  function GrantTo(st: Setting, to: Bytes, nonce: Bytes): Move {
    var grant := Grant(GRANT_VERSION, st.tik, Some(to), None, true, 0, 0, nonce);
    Move(st.tik, Some(grant), st.sign(st.g.c.grantBytes(grant)))
  }

  lemma GrantFitsHome(st: Setting, to: Bytes, nonce: Bytes, rec: Record)
    requires Works(st) && rec == HomeRecord(st, HOME) && to != [] && to[0] != 0
    ensures GrantFits(st.g, rec, GrantTo(st, to, nonce), to, 0) && GrantTo(st, to, nonce).tik == st.tik
  {
    assert GrantSigned(st, st.g.c.grantBytes(GrantTo(st, to, nonce).grant.value));
  }

  lemma HomeLives(st: Setting, s: State)
    requires Rec(s.store, st.tik) == HomeRecord(st, HOME)
    ensures LivesOn(st, s, HOME)
  {
  }

  /** The owner's grant for an instance the mandate has just seen would be accepted; after 32 refused
      presentations by others it is not. */
  lemma RefusalsEvict(st: Setting)
    requires Works(st)
    ensures var s1 := Apply(st.g, After(st.g, Enrolling(st, HOME)), Present(Visit(st, NEW), 0.0));
            && MoveVerdict(st.g, s1, GrantTo(st, NEW, []), 0.0) == Transferred
            && AllHarmless(st.g, s1, Crowd(st, 32))
            && MoveVerdict(st.g, Run(st.g, s1, Crowd(st, 32)), GrantTo(st, NEW, []), 0.0) == GrantUnwitnessed
  {
    var s := After(st.g, Enrolling(st, HOME));
    EnrolledState(st, HOME);
    hide Enrolling, Run, After, Apply;
    EvictionFrom(st, s);
  }

  lemma EvictionFrom(st: Setting, s: State)
    requires Works(st) && Rec(s.store, st.tik) == HomeRecord(st, HOME)
    ensures var s1 := Apply(st.g, s, Present(Visit(st, NEW), 0.0));
            && MoveVerdict(st.g, s1, GrantTo(st, NEW, []), 0.0) == Transferred
            && AllHarmless(st.g, s1, Crowd(st, 32))
            && MoveVerdict(st.g, Run(st.g, s1, Crowd(st, 32)), GrantTo(st, NEW, []), 0.0) == GrantUnwitnessed
  {
    hide Works, Apply, Run, MoveVerdict, Crowd, Visit, GrantTo, AllPass, AllHarmless, OthersSince, LivesOn, HomeRecord;
    var s1 := Apply(st.g, s, Present(Visit(st, NEW), 0.0));
    HomeLives(st, s);
    VisitIsRefused(st, s, HOME, NEW);
    CrowdPasses(st, s1, 32);
    NewMoves(st, s, Crowd(st, 32));
    NothingServed(st.g, s1, st.tik, NEW, 0);
    NewMoves(st, s, []);
  }

  lemma NewMoves(st: Setting, s: State, ops: seq<Op>)
    requires Works(st) && Rec(s.store, st.tik) == HomeRecord(st, HOME)
    requires AllPass(st.g, Apply(st.g, s, Present(Visit(st, NEW), 0.0)), ops, st.tik, 0)
    ensures var s1 := Apply(st.g, s, Present(Visit(st, NEW), 0.0));
            MoveVerdict(st.g, Run(st.g, s1, ops), GrantTo(st, NEW, []), 0.0)
            == if |OthersSince(st.g, s1, ops, st.tik, NEW)| < 32 then Transferred else GrantUnwitnessed
  {
    hide Works, Apply, Run, PresentVerdict, MoveVerdict, Evidence, Visit, GrantTo, GrantFits, AllPass, OthersSince,
         LivesOn,
         HomeRecord;
    var p, m := Visit(st, NEW), GrantTo(st, NEW, []);
    TtlIsPositive(st);
    HomeLives(st, s);
    GrantFitsHome(st, NEW, [], Rec(s.store, st.tik));
    VisitEvidence(st, NEW);
    VisitIsRefused(st, s, HOME, NEW);
    RecoveryWorks(st.g, s, p, 0.0, ops, m, 0.0);
  }

  lemma NothingServed(g: Config, s: State, tik: Bytes, to: Bytes, at: int)
    ensures Run(g, s, []) == s && AllPass(g, s, [], tik, at) && OthersSince(g, s, [], tik, to) == {}
  {
  }

  // ---------- the limit on spent grants ----------

  const THIRD: Bytes := [3]

  /** Where the k-th transfer goes. */
  function Stop(k: nat): Bytes { if k % 2 == 0 then NEW else THIRD }

  function Ferry(st: Setting, k: nat): Move
    requires k < 0x1_0000
  {
    GrantTo(st, Stop(k), U16(k))
  }

  /** Two instances are seen, and then the identity is moved n times between them. */
  function Ferries(st: Setting, n: nat): (ops: seq<Op>)
    requires n < 0x1_0000
    ensures n > 0 ==> ops == Ferries(st, n - 1) + [AcceptTransfer(Ferry(st, n - 1), 0.0)]
    ensures |ops| == |Ferries(st, 0)| + n
  {
    if n == 0 then Enrolling(st, HOME) + [Present(Visit(st, NEW), 0.0)] + [Present(Visit(st, THIRD), 0.0)]
    else Ferries(st, n - 1) + [AcceptTransfer(Ferry(st, n - 1), 0.0)]
  }

  ghost predicate Roams(st: Setting, rec: Record) {
    && !rec.revoked && rec.enrolledInstance.Some? && rec.transferAuthority == Some(st.authority)
    && Seen(st.g, rec, NEW, 0) && Seen(st.g, rec, THIRD, 0)
  }

  ghost predicate Numbers(moves: seq<Transfer>, n: nat)
    requires n < 0x1_0000
  {
    |moves| == n && forall k :: 0 <= k < n ==> moves[k].nonce == U16(k)
  }

  /** A visit is seen, and seeing THIRD does not forget NEW. */
  lemma VisitsAreSeen(st: Setting, s: State)
    requires Works(st) && Rec(s.store, st.tik) == HomeRecord(st, HOME)
    ensures var s1 := Apply(st.g, s, Present(Visit(st, NEW), 0.0));
            Roams(st, Rec(Apply(st.g, s1, Present(Visit(st, THIRD), 0.0)).store, st.tik))
  {
    hide Works, Apply, PresentVerdict, Evidence, Visit, LivesOn, Holds, Seen;
    var g, p, q := st.g, Visit(st, NEW), Visit(st, THIRD);
    var s1 := Apply(g, s, Present(p, 0.0));
    var s2 := Apply(g, s1, Present(q, 0.0));
    TtlIsPositive(st);
    HomeLives(st, s);
    VisitEvidence(st, NEW);
    VisitEvidence(st, THIRD);
    VisitIsRefused(st, s, HOME, NEW);
    VisitIsRefused(st, s1, HOME, THIRD);
    ImpostorIsWitnessed(g, s, p, 0.0, 0);
    ImpostorIsWitnessed(g, s1, q, 0.0, 0);
    WitnessedStep(g, s1, Present(q, 0.0), st.tik, NEW, 0, {});
    SeenWhileHeld(g, Rec(s2.store, st.tik), NEW, {THIRD}, 0);
    SeenWhileHeld(g, Rec(s2.store, st.tik), THIRD, {}, 0);
  }

  lemma NoMovesYet(st: Setting)
    requires Works(st)
    ensures Roams(st, RecordAfter(st.g, Ferries(st, 0), st.tik)) && Moves(st.g, Ferries(st, 0), st.tik) == []
  {
    var a, p, q := Enrolling(st, HOME), Present(Visit(st, NEW), 0.0), Present(Visit(st, THIRD), 0.0);
    hide Works, Visit, Apply, Run, Roams, HomeRecord;
    EnrolledState(st, HOME);
    hide After;
    FrontAndFinal(a, p);
    FrontAndFinal(a + [p], q);
    LastOp(st.g, a + [p]);
    LastOp(st.g, a + [p] + [q]);
    VisitsAreSeen(st, After(st.g, a));
    assert Moves(st.g, a, st.tik) == [] by {
      assert Front(a) == [a[0]] && Front([a[0]]) == [];
      assert Moves(st.g, [a[0]], st.tik) == [];
    }
    assert Moves(st.g, a + [p], st.tik) == [];
  }

  lemma FerryFits(st: Setting, rec: Record, k: nat)
    requires Works(st) && Roams(st, rec) && k < 0x1_0000
    ensures GrantStands(st.g, rec, Ferry(st, k), 0) && GrantLeads(rec, Ferry(st, k).grant.value)
    ensures Seen(st.g, rec, Ferry(st, k).grant.value.to.value, 0)
    ensures Ferry(st, k).grant.value.nonce == U16(k) && Ferry(st, k).tik == st.tik
  {
    hide Seen;
    assert GrantSigned(st, st.g.c.grantBytes(Ferry(st, k).grant.value));
  }

  lemma FreshNumber(moves: seq<Transfer>, n: nat, k: nat)
    requires n < 0x1_0000 && k < 0x1_0000 && Numbers(moves, n)
    ensures U16(k) !in LastN(Nonces(moves), 256) <==> !(n - 256 <= k < n)
  {
    hide LastN;
    InLast(Nonces(moves), U16(k), 256);
    assert forall i | 0 <= i < n :: Nonces(moves)[i] == U16(i) && (U16(i) == U16(k) <==> i == k);
  }

  /** Exactly when ferry k would be accepted after n of them. */
  lemma FerryVerdict(st: Setting, n: nat, k: nat)
    requires Works(st) && n < 0x1_0000 && k < 0x1_0000
    requires Roams(st, RecordAfter(st.g, Ferries(st, n), st.tik)) && Numbers(Moves(st.g, Ferries(st, n), st.tik), n)
    ensures MoveVerdict(st.g, After(st.g, Ferries(st, n)), Ferry(st, k), 0.0)
         == if n - 256 <= k < n then GrantReplayed else Transferred
  {
    hide Works, Roams, Numbers, Ferries, Run, Moves, MoveVerdict, Ferry, GrantStands, GrantLeads, Seen;
    FerryFits(st, RecordAfter(st.g, Ferries(st, n), st.tik), k);
    FreshNumber(Moves(st.g, Ferries(st, n), st.tik), n, k);
    GrantSingleUse(st.g, Ferries(st, n), Ferry(st, k), 0.0);
  }

  lemma FerryRoams(st: Setting, s: State, m: Move)
    requires Roams(st, Rec(s.store, m.tik)) && MoveVerdict(st.g, s, m, 0.0) == Transferred
    ensures Roams(st, Rec(Apply(st.g, s, AcceptTransfer(m, 0.0)).store, m.tik))
  {
    RecordStep(st.g, s, AcceptTransfer(m, 0.0), m.tik);
    hide Apply, MoveVerdict, FreshWitness, LastN;
  }

  ghost predicate Ferried(st: Setting, n: nat)
    requires n < 0x1_0000
  {
    Roams(st, RecordAfter(st.g, Ferries(st, n), st.tik)) && Numbers(Moves(st.g, Ferries(st, n), st.tik), n)
  }

  lemma {:induction false} FerriesRun(st: Setting, n: nat)
    requires Works(st) && n < 0x1_0000
    ensures Ferried(st, n)
  {
    hide Works, Ferries;
    if n == 0 {
      NoMovesYet(st);
    } else {
      hide Ferried;
      FerriesRun(st, n - 1);
      FerriesStep(st, n - 1);
    }
  }

  lemma FerriesStep(st: Setting, n: nat)
    requires Works(st) && n + 1 < 0x1_0000 && Ferried(st, n)
    ensures Ferried(st, n + 1)
  {
    hide Works, Roams, Numbers, Ferries, MoveVerdict, Apply, Run, After, Ferry, GrantStands, GrantLeads, Seen, Moves,
         MoveOf;
    var g, before, m := st.g, Ferries(st, n), Ferry(st, n);
    var op := AcceptTransfer(m, 0.0);
    FerryVerdict(st, n, n);
    FerryFits(st, RecordAfter(g, before, st.tik), n);
    FerryRoams(st, After(g, before), m);
    LastOp(g, Ferries(st, n + 1));
    FrontAndFinal(before, op);
    MovesLast(g, Ferries(st, n + 1), st.tik);
    NumbersGrow(g, After(g, before), m, Moves(g, before, st.tik), n);
  }

  lemma MovesLast(g: Config, ops: seq<Op>, tik: Bytes)
    requires ops != []
    ensures Moves(g, ops, tik) == Moves(g, Front(ops), tik) + MoveOf(g, After(g, Front(ops)), Final(ops), tik)
  {
  }

  lemma NumbersGrow(g: Config, s: State, m: Move, moves: seq<Transfer>, n: nat)
    requires n + 1 < 0x1_0000 && Numbers(moves, n)
    requires MoveVerdict(g, s, m, 0.0) == Transferred && m.grant.value.nonce == U16(n)
    ensures Numbers(moves + MoveOf(g, s, AcceptTransfer(m, 0.0), m.tik), n + 1)
  {
    hide MoveVerdict;
  }

  /** One and the same grant, for every number of transfers: accepted first, refused as a replay after
      up to 255 further transfers, and accepted again after any larger number of them. */
  lemma GrantIsAcceptedTwice(st: Setting, n: nat)
    requires Works(st) && n < 0x1_0000
    ensures n > 0 ==> Ferries(st, n)[|Ferries(st, 0)|] == AcceptTransfer(Ferry(st, 0), 0.0)
    ensures MoveVerdict(st.g, After(st.g, Ferries(st, n)), Ferry(st, 0), 0.0)
         == if 1 <= n <= 256 then GrantReplayed else Transferred
  {
    hide Works, Roams, Numbers, Run, After, Moves, MoveVerdict, Ferry, Ferries;
    FerriesRun(st, n);
    FerryVerdict(st, n, 0);
    if n > 0 { FirstFerry(st, n); }
  }

  lemma {:induction false} FirstFerry(st: Setting, n: nat)
    requires 0 < n < 0x1_0000
    ensures Ferries(st, n)[|Ferries(st, 0)|] == AcceptTransfer(Ferry(st, 0), 0.0)
  {
    hide Ferries, Ferry, Enrolling, Visit;
    if n > 1 { FirstFerry(st, n - 1); }
  }

  lemma NoOps(g: Config, s: State)
    ensures Run(g, s, []) == s
  {
  }
}
