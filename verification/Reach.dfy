// The runs of which Order.dfy speaks exist: for every length, an honest guest attests and the mandate
// accepts (the Reachable query of formal/hatls-chain.pv, for any number of links).
module Reach {
  import opened Octets
  import opened Primitives
  import opened Hkdf
  import opened Chain
  import opened Ledger
  import opened Runs
  import opened Identities
  import opened Continuity
  import opened World
  import opened Scenario

  /** An honest instance in a setting, and the session its guest will serve. */
  datatype Stage = Stage(st: Setting, instance: Bytes, context: SessionContext, exporters: seq<Bytes>)

  ghost predicate Playable(z: Stage, honest: set<Bytes>) {
    Works(z.st) && z.instance in honest && z.instance != [] && |z.exporters| <= COUNTERS
  }

  function LinkAt(z: Stage, k: nat): Link
    requires k < |z.exporters| <= COUNTERS
  {
    ChainLink(z.st.g.c, z.context, z.st.tik, z.exporters[..k + 1])
  }

  /** What the guest sends at its k-th call, and the relying party presents. */
  function StepAt(z: Stage, k: nat): Presentation
    requires k < |z.exporters| <= COUNTERS
  {
    var evidence := z.st.tee(z.instance, ReportData(z.st.g.c, LinkAt(z, k), None));
    Presentation(z.st.tik, z.context, z.exporters[k], Message(k, LinkAt(z, k), evidence), None, None)
  }

  predicate IsGuest(z: Stage, u: GuestState, n: nat)
    requires n <= |z.exporters|
  {
    && u.instance == z.instance && u.tik == z.st.tik && (n > 0 ==> u.context == z.context)
    && u.exporters == z.exporters[..n] && |u.heads| == n && forall k :: 0 <= k < n ==> u.heads[k] == None
  }

  function HonestAt(z: Stage, n: nat): Honest
    requires n <= |z.exporters|
  {
    Honest(z.st.tik, z.instance, None, z.context, z.exporters[..n])
  }

  /** Where the stage stands after n rounds. */
  ghost predicate OnStage(z: Stage, w: World, n: nat)
    requires n <= |z.exporters|
  {
    |w.guests| == 1 && IsGuest(z, w.guests[0], n) && Ready(z.st.g, w.m, HonestAt(z, n))
  }

  /** What an honest instance has signed may be shown to the mandate. */
  lemma ReportMayBeServed(st: Setting, honest: set<Bytes>, signed: set<(Bytes, Bytes)>, instance: Bytes, input: Bytes)
    requires Works(st) && (instance, input) in signed
    ensures Unforged(st.g, honest, signed, st.tee(instance, st.g.c.sha512(input)))
  {
    var d := st.g.c.sha512(input);
    forall data ensures InstanceOf(st.g.c.verifyReport(st.tee(instance, d), data)).Some? ==>
                          HasSigned(st.g, signed, instance, data)
    {
      assert ReportVerifies(st, instance, d, data);
      assert (instance, input).0 == instance;
    }
    forall data ensures InstanceOf(st.g.c.verifyReport(st.tee(instance, d), data)) in {None, Some(instance)} {
      assert ReportVerifies(st, instance, d, data);
    }
  }

  // ---------- setting the stage ----------

  function Overture(z: Stage): seq<Action> {
    [Boot(z.instance, z.st.tik), Serve(Challenge(z.st.nonce, 0.0)), SignRequest(z.instance, z.st.nonce, z.st.csr),
     Serve(Enroll(EnrolmentOf(z.st, z.instance), 0.0))]
  }

  lemma ReadyToStart(z: Stage, honest: set<Bytes>)
    requires Playable(z, honest)
    ensures Ready(z.st.g, After(z.st.g, Enrolling(z.st, z.instance)), HonestAt(z, 0))
  {
    hide Works, Run, SessionName, ChainLink;
    EnrolledState(z.st, z.instance);
    NoPlaces(z.st);
    hide After;
  }

  lemma NoPlaces(st: Setting)
    requires Works(st)
    ensures !st.g.requirePlace && |st.csr| > 83
  {
  }

  lemma RunExtends(g: Config, honest: set<Bytes>, ws: seq<World>, acts: seq<Action>, a: Action)
    returns (ws': seq<World>)
    requires IsRun(g, honest, ws, acts) && Enabled(g, honest, ws[|acts|], a)
    ensures |ws'| == |ws| + 1 && ws <= ws' && IsRun(g, honest, ws', acts + [a])
    ensures ws'[|acts| + 1] == Next(g, ws[|acts|], a)
  {
    ws' := ws + [Next(g, ws[|acts|], a)];
    assert StepsTo(g, honest, ws[|acts|], a, ws'[|acts| + 1]);
    hide StepsTo, Next, Enabled, Start;
    forall i | 0 <= i < |acts| + 1 ensures StepsTo(g, honest, ws'[i], (acts + [a])[i], ws'[i + 1]) {
      if i < |acts| { assert StepsTo(g, honest, ws[i], acts[i], ws[i + 1]); }
    }
  }

  lemma Opens(z: Stage, honest: set<Bytes>) returns (ws: seq<World>)
    requires Playable(z, honest)
    ensures IsRun(z.st.g, honest, ws, Overture(z)) && OnStage(z, ws[4], 0)
  {
    hide Works, Unforged, PresentAccepted, EnrolAccepted, EnrolmentOf, Ready, Apply, Run, IsRun, Overture;
    var g, c, e := z.st.g, Challenge(z.st.nonce, 0.0), Enroll(EnrolmentOf(z.st, z.instance), 0.0);
    var boot, request := Boot(z.instance, z.st.tik), SignRequest(z.instance, z.st.nonce, z.st.csr);
    OvertureInParts(z);
    NoPlaces(z.st);
    hide Next, StepsTo;
    ws := StartsRun(g, honest);
    BootOnly(g, ws[0], boot);
    ws := RunExtends(g, honest, ws, [], boot);
    ServeOnly(g, ws[1], c);
    ws := RunExtends(g, honest, ws, [] + [boot], Serve(c));
    RequestOnly(g, ws[2], request);
    ws := RunExtends(g, honest, ws, [] + [boot] + [Serve(c)], request);
    EnrolmentMayBeServed(z, honest, ws[3].signed);
    ServeOnly(g, ws[3], e);
    ws := RunExtends(g, honest, ws, [] + [boot] + [Serve(c)] + [request], Serve(e));
    MandateAfterOverture(z);
    ReadyToStart(z, honest);
  }

  lemma BootOnly(g: Config, w: World, a: Action)
    requires a.Boot?
    ensures var w' := Next(g, w, a); w'.m == w.m && w'.guests == w.guests + [GuestState(a.instance, a.tik, [], [], [])]
  {
  }

  lemma RequestOnly(g: Config, w: World, a: Action)
    requires a.SignRequest?
    ensures var w' := Next(g, w, a);
            w'.m == w.m && w'.guests == w.guests && (a.instance, EnrolInput(a.nonce, a.csr)) in w'.signed
  {
    assert (a.instance, EnrolInput(a.nonce, a.csr)) in {(a.instance, EnrolInput(a.nonce, a.csr))};
  }

  lemma StartsRun(g: Config, honest: set<Bytes>) returns (ws: seq<World>)
    ensures ws == [Start(g)] && IsRun(g, honest, ws, [])
  {
    ws := [Start(g)];
  }

  lemma OvertureInParts(z: Stage)
    ensures Overture(z) == [] + [Boot(z.instance, z.st.tik)] + [Serve(Challenge(z.st.nonce, 0.0))]
                           + [SignRequest(z.instance, z.st.nonce, z.st.csr)]
                           + [Serve(Enroll(EnrolmentOf(z.st, z.instance), 0.0))]
  {
  }

  lemma EnrolmentMayBeServed(z: Stage, honest: set<Bytes>, signed: set<(Bytes, Bytes)>)
    requires Works(z.st) && (z.instance, EnrolInput(z.st.nonce, z.st.csr)) in signed
    ensures Unforged(z.st.g, honest, signed, EnrolmentOf(z.st, z.instance).evidence)
  {
    ReportMayBeServed(z.st, honest, signed, z.instance, EnrolInput(z.st.nonce, z.st.csr));
  }

  lemma MandateAfterOverture(z: Stage)
    ensures var g := z.st.g;
            After(g, Enrolling(z.st, z.instance))
            == Apply(g, Apply(g, Init(g.c), Challenge(z.st.nonce, 0.0)), Enroll(EnrolmentOf(z.st, z.instance), 0.0))
  {
    var g, c, e := z.st.g, Challenge(z.st.nonce, 0.0), Enroll(EnrolmentOf(z.st, z.instance), 0.0);
    assert Enrolling(z.st, z.instance) == [c] + [e] && [c] == [] + [c];
    hide Enrolling, Apply, Run, EnrolmentOf;
    FrontAndFinal([c], e);
    LastOp(g, [c] + [e]);
    FrontAndFinal([], c);
    LastOp(g, [] + [c]);
    NoOps(g, Init(g.c));
  }

  // ---------- one round ----------

  function CallAt(z: Stage, n: nat): Action
    requires n < |z.exporters|
  {
    Attest(0, z.context, z.exporters[n], None)
  }

  lemma GuestCalled(z: Stage, u: Guest, n: nat)
    requires n < |z.exporters| <= COUNTERS && IsGuest(z, u, n)
    ensures var u' := Called(u, z.context, z.exporters[n], None);
            IsGuest(z, u', n + 1) && SignedBy(z.st.g, u', n) == ReportInput(LinkAt(z, n), None)
  {
    hide ChainLink;
    assert z.exporters[..n] + [z.exporters[n]] == z.exporters[..n + 1];
    assert z.exporters[..n + 1][..n + 1] == z.exporters[..n + 1];
  }

  /** The guest's call leaves the mandate alone and may be served at once. */
  lemma CallIsServable(z: Stage, honest: set<Bytes>, w: World, n: nat)
    requires Playable(z, honest) && n < |z.exporters| && OnStage(z, w, n)
    ensures Enabled(z.st.g, honest, w, CallAt(z, n))
    ensures var w' := Next(z.st.g, w, CallAt(z, n));
            && w'.m == w.m && |w'.guests| == 1 && IsGuest(z, w'.guests[0], n + 1)
            && Enabled(z.st.g, honest, w', Serve(Present(StepAt(z, n), 0.0)))
  {
    hide Works, Unforged, Ready, SignedBy, ChainInputs, LinkAt, ReportInput;
    GuestCalled(z, w.guests[0], n);
    var w' := Next(z.st.g, w, CallAt(z, n));
    hide IsGuest;
    assert (z.instance, ReportInput(LinkAt(z, n), None)) in w'.signed;
    ReportMayBeServed(z.st, honest, w'.signed, z.instance, ReportInput(LinkAt(z, n), None));
  }

  lemma StepIsNext(z: Stage, honest: set<Bytes>, s: State, n: nat)
    requires Playable(z, honest) && n < |z.exporters|
    ensures NextOf(z.st.g, s, HonestAt(z, n), z.exporters[n], StepAt(z, n))
  {
    hide ChainLink, ReportInput;
    assert z.exporters[..n] + [z.exporters[n]] == z.exporters[..n + 1];
    var d := ReportData(z.st.g.c, LinkAt(z, n), None);
    assert ReportVerifies(z.st, z.instance, d, d);
  }

  lemma StepIsAccepted(z: Stage, honest: set<Bytes>, w: World, n: nat)
    requires Playable(z, honest) && n < |z.exporters|
    requires |w.guests| == 1 && IsGuest(z, w.guests[0], n + 1) && Ready(z.st.g, w.m, HonestAt(z, n))
    ensures PresentVerdict(z.st.g, w.m, StepAt(z, n)) == Accepted
    ensures OnStage(z, Next(z.st.g, w, Serve(Present(StepAt(z, n), 0.0))), n + 1)
  {
    hide Works, Apply, PresentVerdict, Ready, NextOf, StepAt, HonestAt, IsGuest, Next;
    StepIsNext(z, honest, w.m, n);
    OneFurther(z, n);
    ReadyStep(z.st.g, w.m, HonestAt(z, n), z.exporters[n], StepAt(z, n), 0.0);
    ServeOnly(z.st.g, w, Present(StepAt(z, n), 0.0));
  }

  lemma OneFurther(z: Stage, n: nat)
    requires n < |z.exporters|
    ensures HonestAt(z, n).(exporters := HonestAt(z, n).exporters + [z.exporters[n]]) == HonestAt(z, n + 1)
  {
    assert z.exporters[..n] + [z.exporters[n]] == z.exporters[..n + 1];
  }

  lemma ServeOnly(g: Config, w: World, op: Op)
    ensures Next(g, w, Serve(op)).m == Apply(g, w.m, op) && Next(g, w, Serve(op)).guests == w.guests
    ensures Next(g, w, Serve(op)).signed == w.signed
  {
    hide Apply, PresentVerdict, EnrolVerdict, Extended, InputsOf, ReportInput;
  }

  // ---------- the whole run ----------

  /** Round k of the run: attested, then served, and accepted. */
  ghost predicate Played(z: Stage, ws: seq<World>, acts: seq<Action>, k: nat)
    requires |z.exporters| <= COUNTERS
  {
    && k < |z.exporters| && 5 + 2 * k < |acts| && 5 + 2 * k < |ws|
    && acts[4 + 2 * k] == CallAt(z, k) && acts[5 + 2 * k] == Serve(Present(StepAt(z, k), 0.0))
    && PresentVerdict(z.st.g, ws[5 + 2 * k].m, StepAt(z, k)) == Accepted
  }

  /** For every setting that works and any session and exporters, there is a run in which an honest
      guest makes n calls in order and the mandate accepts each. */
  lemma {:induction false} HonestRunsExist(z: Stage, honest: set<Bytes>, n: nat)
    returns (ws: seq<World>, acts: seq<Action>)
    requires Playable(z, honest) && n <= |z.exporters|
    ensures |acts| == 4 + 2 * n && IsRun(z.st.g, honest, ws, acts) && OnStage(z, ws[4 + 2 * n], n)
    ensures forall k :: 0 <= k < n ==> Played(z, ws, acts, k)
  {
    hide OnStage, IsRun, Works, Overture, StepsTo, PresentVerdict, StepAt;
    if n == 0 {
      ws := Opens(z, honest);
      acts := Overture(z);
      OvertureLength(z);
    } else {
      ws, acts := HonestRunsExist(z, honest, n - 1);
      ws, acts := OneRound(z, honest, ws, acts, n - 1);
    }
  }

  lemma OvertureLength(z: Stage)
    ensures |Overture(z)| == 4
  {
  }

  lemma OneRound(z: Stage, honest: set<Bytes>, ws: seq<World>, acts: seq<Action>, n: nat)
    returns (ws': seq<World>, acts': seq<Action>)
    requires Playable(z, honest) && n < |z.exporters| && |acts| == 4 + 2 * n
    requires IsRun(z.st.g, honest, ws, acts) && OnStage(z, ws[4 + 2 * n], n)
    requires forall k :: 0 <= k < n ==> Played(z, ws, acts, k)
    ensures |acts'| == 6 + 2 * n && IsRun(z.st.g, honest, ws', acts') && OnStage(z, ws'[6 + 2 * n], n + 1)
    ensures forall k :: 0 <= k < n + 1 ==> Played(z, ws', acts', k)
  {
    hide Works, Ready, Next, Enabled, StepsTo, IsGuest, StepAt, CallAt, PresentVerdict;
    var g, serve := z.st.g, Serve(Present(StepAt(z, n), 0.0));
    CallIsServable(z, honest, ws[|acts|], n);
    ws' := RunExtends(g, honest, ws, acts, CallAt(z, n));
    StepIsAccepted(z, honest, ws'[|acts| + 1], n);
    hide OnStage;
    acts' := acts + [CallAt(z, n)];
    ws' := RunExtends(g, honest, ws', acts', serve);
    acts' := acts' + [serve];
    hide IsRun;
    forall k | 0 <= k < n ensures Played(z, ws', acts', k) {
      assert Played(z, ws, acts, k);
    }
  }
}
