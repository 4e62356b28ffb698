// What an acceptance means, what refused operations cannot do, and why honest runs never break.
module Continuity {
  import opened Octets
  import opened Primitives
  import opened Federation
  import opened Hkdf
  import opened Ledger
  import opened Runs
  import opened Identities
  import opened Chain
  import opened Verdicts

  /** An operation that was refused, or only issued a challenge. */
  predicate Harmless(g: Config, s: State, op: Op) {
    !op.Revoke? && !op.Restart? && !EnrolAccepted(g, s, op) && !PresentAccepted(g, s, op) && !MoveAccepted(g, s, op)
  }

  /** The part of a record that decides presentations. */
  predicate SameStanding(r: Record, r': Record) {
    && r'.revoked == r.revoked
    && r'.enrolledInstance == r.enrolledInstance && r'.enrolledPlace == r.enrolledPlace
    && r'.observedInstance == r.observedInstance
  }

  /** `later` stands as `s` did, with a log that may have grown. */
  ghost predicate Stands(s: State, later: State) {
    && later.sessions == s.sessions
    && (forall head :: head in s.roots ==> head in later.roots)
    && forall tik :: SameStanding(Rec(s.store, tik), Rec(later.store, tik))
  }

  lemma HarmlessStep(g: Config, s: State, op: Op)
    requires Harmless(g, s, op)
    ensures Stands(s, Apply(g, s, op))
  {
    SessionsStep(g, s, op);
    LogStep(g, s, op);
    hide Apply;
    forall tik ensures SameStanding(Rec(s.store, tik), Rec(Apply(g, s, op).store, tik)) {
      hide PresentedRecord, PresentVerdict, MoveVerdict, EnrolVerdict, Evidence, MovedRecord;
      RecordStep(g, s, op, tik);
    }
  }

  lemma StandingDecides(g: Config, s: State, later: State, p: Presentation)
    requires Stands(s, later) && PresentVerdict(g, s, p) == Accepted
    ensures PresentVerdict(g, later, p) == Accepted
  {
    hide VerifyBundle, EntryFor, ChainVerdict, Evidence;
    assert SameStanding(Rec(s.store, p.tik), Rec(later.store, p.tik));
  }

  ghost predicate AllHarmless(g: Config, s: State, ops: seq<Op>) {
    forall i :: 0 <= i < |ops| ==> Harmless(g, Run(g, s, ops[..i]), ops[i])
  }

  lemma StandsOn(s: State, middle: State, later: State)
    requires Stands(s, middle) && Stands(middle, later)
    ensures Stands(s, later)
  {
    forall tik ensures SameStanding(Rec(s.store, tik), Rec(later.store, tik)) {
      assert SameStanding(Rec(s.store, tik), Rec(middle.store, tik))
          && SameStanding(Rec(middle.store, tik), Rec(later.store, tik));
    }
  }

  lemma HarmlessFront(g: Config, s: State, ops: seq<Op>)
    requires AllHarmless(g, s, ops) && ops != []
    ensures AllHarmless(g, s, ops[..|ops| - 1]) && Harmless(g, Run(g, s, ops[..|ops| - 1]), ops[|ops| - 1])
  {
    hide Run, Harmless;
    var n := |ops| - 1;
    assert forall i | 0 <= i < n :: ops[..n][..i] == ops[..i] && ops[..n][i] == ops[i];
  }

  lemma StandsStart(g: Config, s: State)
    ensures Stands(s, Run(g, s, []))
  {
  }

  lemma {:induction false} HarmlessRun(g: Config, s: State, ops: seq<Op>)
    requires AllHarmless(g, s, ops)
    ensures Stands(s, Run(g, s, ops))
    decreases |ops|
  {
    hide Apply, Harmless, AllHarmless, Stands;
    if ops == [] {
      StandsStart(g, s);
    } else {
      var n := |ops| - 1;
      HarmlessFront(g, s, ops);
      HarmlessRun(g, s, ops[..n]);
      HarmlessStep(g, Run(g, s, ops[..n]), ops[n]);
      StandsOn(s, Run(g, s, ops[..n]), Run(g, s, ops));
    }
  }

  /** A step that would be accepted is still accepted after any number of refused operations by
      anyone, on any identity and any session. */
  lemma RefusalsAreHarmless(g: Config, s: State, ops: seq<Op>, p: Presentation)
    requires AllHarmless(g, s, ops) && PresentVerdict(g, s, p) == Accepted
    ensures PresentVerdict(g, Run(g, s, ops), p) == Accepted
  {
    HarmlessRun(g, s, ops);
    StandingDecides(g, s, Run(g, s, ops), p);
  }

  // ---------- no replay while the chain is alive ----------

  /** The chains of an identity end with an accepted transfer of it, and with the process. */
  predicate KeepsChains(g: Config, s: State, op: Op, tik: Bytes) {
    !op.Restart? && !(MoveAccepted(g, s, op) && op.m.tik == tik)
  }

  predicate ChainsKept(g: Config, s: State, ops: seq<Op>, tik: Bytes) {
    ops == [] || (ChainsKept(g, s, Front(ops), tik) && KeepsChains(g, Run(g, s, Front(ops)), Final(ops), tik))
  }

  /** Until then a live chain stays alive and its counter never goes back. */
  lemma {:induction false} ChainAdvances(g: Config, s: State, ops: seq<Op>, key: (Bytes, Bytes))
    requires key in s.sessions && ChainsKept(g, s, ops, key.0)
    ensures key in Run(g, s, ops).sessions && Run(g, s, ops).sessions[key].counter >= s.sessions[key].counter
    decreases |ops|
  {
    if ops != [] {
      ChainAdvances(g, s, Front(ops), key);
      ChainStays(g, Run(g, s, Front(ops)), Final(ops), key);
      hide Apply;
    }
  }

  lemma ChainStays(g: Config, s: State, op: Op, key: (Bytes, Bytes))
    requires key in s.sessions && KeepsChains(g, s, op, key.0)
    ensures key in Apply(g, s, op).sessions && Apply(g, s, op).sessions[key].counter >= s.sessions[key].counter
  {
    hide Apply, PresentVerdict, MoveVerdict, SessionOf;
    SessionsStep(g, s, op);
    if PresentAccepted(g, s, op) { CounterAdvances(g, s, op); }
  }

  lemma CounterAdvances(g: Config, s: State, op: Op)
    requires PresentAccepted(g, s, op)
    ensures SessionOf(g, op.p) in s.sessions ==> op.p.msg.counter == s.sessions[SessionOf(g, op.p)].counter + 1
    ensures SessionOf(g, op.p) !in s.sessions ==> op.p.msg.counter == 0
  {
    hide HeadProblem, LedgerProblem, Evidence, PostLink, IntraLink, SessionOf;
  }

  /** After an acceptance at counter n, nothing at counter n or below is accepted again on that
      session, whatever is served in between short of a transfer of the identity or a restart. */
  lemma NoReplayWhileAlive(g: Config, s: State, p: Presentation, now: real, ops: seq<Op>, again: Presentation)
    requires PresentVerdict(g, s, p) == Accepted
    requires var s' := Apply(g, s, Present(p, now)); ChainsKept(g, s', ops, p.tik)
    requires SessionOf(g, again) == SessionOf(g, p) && again.msg.counter <= p.msg.counter
    ensures PresentVerdict(g, Run(g, Apply(g, s, Present(p, now)), ops), again) != Accepted
  {
    var s' := Apply(g, s, Present(p, now));
    assert SessionOf(g, p).0 == p.tik;
    hide Apply, Run, ChainsKept, SessionOf, PresentVerdict;
    SessionsStep(g, s, Present(p, now));
    assert PresentAccepted(g, s, Present(p, now));
    ChainAdvances(g, s', ops, SessionOf(g, p));
    var end := Run(g, s', ops);
    if PresentVerdict(g, end, again) == Accepted {
      CounterAdvances(g, end, Present(again, now));
    }
  }

  // ---------- honest runs ----------

  /** An honest attester's session: who, where, and how far it has been accepted. */
  datatype Honest = Honest(tik: Bytes, instance: Bytes, place: Option<Bytes>, context: SessionContext,
                           exporters: seq<Bytes>)

  /** The mandate is ready for the next step of this session. */
  ghost predicate Ready(g: Config, s: State, a: Honest) {
    InGoodStanding(g, Rec(s.store, a.tik), a) && InStep(g, s.sessions, a)
  }

  ghost predicate InStep(g: Config, sessions: map<(Bytes, Bytes), Session>, a: Honest) {
    var key := (a.tik, g.c.sha256(a.context)[..16]);
    && |a.exporters| <= COUNTERS
    && (a.exporters == [] <==> key !in sessions)
    && (a.exporters != [] ==>
          sessions[key] == Session(ChainLink(g.c, a.context, a.tik, a.exporters), |a.exporters| - 1))
  }

  predicate InGoodStanding(g: Config, rec: Record, a: Honest) {
    && !rec.revoked && a.instance != [] && rec.enrolledInstance == Some(a.instance)
    && Truthy(rec.observedInstance) in {None, Some(a.instance)}
    && (g.requirePlace ==> a.place.Some? && (Truthy(rec.enrolledPlace).Some? ==> a.place == rec.enrolledPlace))
  }

  /** `p` is what the attester sends next, over genuine evidence of its instance and a head this log
      has had (or none). */
  ghost predicate NextOf(g: Config, s: State, a: Honest, exporter: Bytes, p: Presentation) {
    && |a.exporters| < COUNTERS
    && p.tik == a.tik && p.context == a.context && p.exporter == exporter
    && p.msg.counter == |a.exporters|
    && p.msg.postLink == ChainLink(g.c, a.context, a.tik, a.exporters + [exporter])
    && Evidence(g, p) == Genuine(Some(Anchor(a.instance, a.place)))
    && HeadProblem(g, s.roots, p) == None
  }

  lemma ReadyChain(g: Config, s: State, a: Honest, exporter: Bytes, p: Presentation)
    requires InStep(g, s.sessions, a) && NextOf(g, s, a, exporter, p)
    ensures ChainVerdict(g, s.sessions, p) == Accepted
  {
    hide PostLink, IntraLink, ChainLink, HeadProblem, Evidence;
    ChainStep(g.c, a.context, a.tik, a.exporters, exporter);
    ChainStart(g.c, a.context, a.tik);
  }

  lemma ReadyAccepts(g: Config, s: State, a: Honest, exporter: Bytes, p: Presentation)
    requires Ready(g, s, a) && NextOf(g, s, a, exporter, p)
    ensures PresentVerdict(g, s, p) == Accepted
  {
    hide ChainVerdict, HeadProblem, Evidence, InStep, ChainLink;
    ReadyChain(g, s, a, exporter, p);
    assert LedgerProblem(g, Rec(s.store, a.tik), Some(a.instance), a.place) == None;
    hide LedgerProblem, InGoodStanding;
  }

  lemma ReadyStep(g: Config, s: State, a: Honest, exporter: Bytes, p: Presentation, now: real)
    requires Ready(g, s, a) && NextOf(g, s, a, exporter, p)
    ensures PresentVerdict(g, s, p) == Accepted
    ensures Ready(g, Apply(g, s, Present(p, now)), a.(exporters := a.exporters + [exporter]))
  {
    hide Apply, PresentVerdict, Evidence, ChainLink, HeadProblem, InStep;
    ReadyAccepts(g, s, a, exporter, p);
    StandingAfterAcceptance(g, s, a, p, now);
    InStepAfterAcceptance(g, s, a, exporter, p, now);
  }

  lemma InStepAfterAcceptance(g: Config, s: State, a: Honest, exporter: Bytes, p: Presentation, now: real)
    requires PresentVerdict(g, s, p) == Accepted && NextOf(g, s, a, exporter, p)
    ensures InStep(g, Apply(g, s, Present(p, now)).sessions, a.(exporters := a.exporters + [exporter]))
  {
    hide Apply, PresentVerdict, Evidence, ChainLink, HeadProblem;
    SessionsStep(g, s, Present(p, now));
  }

  lemma StandingAfterAcceptance(g: Config, s: State, a: Honest, p: Presentation, now: real)
    requires InGoodStanding(g, Rec(s.store, a.tik), a) && p.tik == a.tik
    requires PresentVerdict(g, s, p) == Accepted && Evidence(g, p) == Genuine(Some(Anchor(a.instance, a.place)))
    ensures InGoodStanding(g, Rec(Apply(g, s, Present(p, now)).store, a.tik), a)
  {
    hide Apply, PresentVerdict, Evidence, PresentedRecord;
    RecordStep(g, s, Present(p, now), a.tik);
  }

  /** Anything by anyone, except: an accepted step on this very session, a revocation or an accepted
      transfer of this identity, and a restart, which ends every connection. */
  predicate Noise(g: Config, s: State, a: Honest, op: Op) {
    && !op.Restart?
    && !(PresentAccepted(g, s, op) && (op.p.tik, g.c.sha256(op.p.context)[..16])
        == (a.tik, g.c.sha256(a.context)[..16]))
    && !(op.Revoke? && op.tik == a.tik)
    && !(MoveAccepted(g, s, op) && op.m.tik == a.tik)
  }

  lemma NoiseKeepsStanding(g: Config, s: State, a: Honest, op: Op)
    requires InGoodStanding(g, Rec(s.store, a.tik), a) && Noise(g, s, a, op)
    ensures InGoodStanding(g, Rec(Apply(g, s, op).store, a.tik), a)
  {
    hide Apply, HeadProblem, Evidence, ChainVerdict, MoveVerdict, MovedRecord, PresentedRecord, SessionName;
    RecordStep(g, s, op, a.tik);
  }

  lemma NoiseKeepsReady(g: Config, s: State, a: Honest, op: Op)
    requires Ready(g, s, a) && Noise(g, s, a, op)
    ensures Ready(g, Apply(g, s, op), a)
  {
    NoiseKeepsStanding(g, s, a, op);
    hide Apply, InGoodStanding, PresentVerdict, MoveVerdict, ChainLink;
    SessionsStep(g, s, op);
  }

  /** A schedule interleaves the session's own steps, in order and once each, with noise. */
  datatype Item = Deliver(exporter: Bytes, p: Presentation, now: real) | Other(op: Op)

  function ItemOp(item: Item): Op {
    if item.Deliver? then Present(item.p, item.now) else item.op
  }

  function Advance(a: Honest, item: Item): Honest {
    if item.Deliver? then a.(exporters := a.exporters + [item.exporter]) else a
  }

  ghost predicate Scheduled(g: Config, s: State, a: Honest, items: seq<Item>)
    decreases |items|
  {
    if items == [] then true
    else
      var item := items[0];
      && (if item.Deliver? then NextOf(g, s, a, item.exporter, item.p) else Noise(g, s, a, item.op))
      && Scheduled(g, Apply(g, s, ItemOp(item)), Advance(a, item), items[1..])
  }

  ghost predicate EveryDeliveryAccepted(g: Config, s: State, items: seq<Item>)
    decreases |items|
  {
    if items == [] then true
    else
      && (items[0].Deliver? ==> PresentVerdict(g, s, items[0].p) == Accepted)
      && EveryDeliveryAccepted(g, Apply(g, s, ItemOp(items[0])), items[1..])
  }

  /** Every step of an honest attester on the enrolled instance is accepted, for every length and
      every interleaving. */
  lemma {:induction false} HonestRunsNeverBreak(g: Config, s: State, a: Honest, items: seq<Item>)
    requires Ready(g, s, a) && Scheduled(g, s, a, items)
    ensures EveryDeliveryAccepted(g, s, items)
    decreases |items|
  {
    if items != [] {
      var item := items[0];
      hide Apply, Ready, NextOf, Noise, PresentVerdict;
      if item.Deliver? {
        ReadyStep(g, s, a, item.exporter, item.p, item.now);
      } else {
        NoiseKeepsReady(g, s, a, item.op);
      }
      HonestRunsNeverBreak(g, Apply(g, s, ItemOp(item)), Advance(a, item), items[1..]);
    }
  }

  // ---------- what an accepted bundle binds ----------

  lemma ReportInputInjective(link: Bytes, head: Option<Bytes>, link': Bytes, head': Option<Bytes>)
    requires |link| == |link'| == 32 && ReportInput(link, head) == ReportInput(link', head')
    ensures link == link' && head == head'
  {
    var x, y := ReportInput(link, head), ReportInput(link', head');
    var v0, v1 := Ascii("HATLS-continuity-v0"), Ascii("HATLS-continuity-v1");
    assert v0[18] == '0' as int && v1[18] == '1' as int;
    assert x[18] == if head.None? then v0[18] else v1[18];
    assert y[18] == if head'.None? then v0[18] else v1[18];
    assert link == x[19..51] && link' == y[19..51];
    if head.Some? { assert head.value == x[51..] && head'.value == y[51..]; }
  }

  ghost predicate WasHead(g: Config, log: seq<Entry>, head: Bytes) {
    exists n: nat :: n <= |log| && head == HeadAt(g, log, n)
  }

  /** Exactly which heads a run lets through: none, a root some prefix of its log had, or the
      commitment of a bundle in which the first entry under its own name shows such a root. */
  lemma HeadExactly(g: Config, ops: seq<Op>, p: Presentation)
    ensures var log := After(g, ops).log;
            HeadProblem(g, After(g, ops).roots, p).None? <==>
              || p.head.None?
              || (p.bundle.None? && WasHead(g, log, p.head.value))
              || (p.bundle.Some? && Committed(g, p)
                  && exists i :: FirstOwn(g, p.bundle.value, i) && WasHead(g, log, p.bundle.value[i].root))
  {
    LogInvariant(g, ops);
    HeadReasons(g, After(g, ops).roots, p);
    hide Run, HeadAt, HeadProblem, FirstOwn, Committed;
  }

  /** An accepted step that offered a bundle: the mandate found its own name in it beside the root of
      some prefix of its own log, and the evidence is genuine over exactly this link and commitment:
      report data of any other pair is different, or exhibits a collision of SHA-512. */
  lemma AcceptedBundleBinds(g: Config, ops: seq<Op>, p: Presentation)
    requires PresentVerdict(g, After(g, ops), p) == Accepted && p.head.Some? && p.bundle.Some?
    ensures Committed(g, p)
    ensures exists i :: FirstOwn(g, p.bundle.value, i) && WasHead(g, After(g, ops).log, p.bundle.value[i].root)
    ensures Evidence(g, p).Genuine?
    ensures forall link, head |
              |link| == 32 && ReportData(g.c, link, head) == ReportData(g.c, p.msg.postLink, p.head) ::
              || (link == p.msg.postLink && head == p.head)
              || (ReportInput(link, head) != ReportInput(p.msg.postLink, p.head)
                  && g.c.sha512(ReportInput(link, head)) == g.c.sha512(ReportInput(p.msg.postLink, p.head)))
  {
    HeadExactly(g, ops, p);
    hide Run, Admission, ReportInput, FirstOwn, WasHead, Committed;
    forall link, head | |link| == 32 && ReportInput(link, head) == ReportInput(p.msg.postLink, p.head)
      ensures link == p.msg.postLink && head == p.head
    {
      ReportInputInjective(link, head, p.msg.postLink, p.head);
    }
  }
}
