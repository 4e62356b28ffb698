// The mandate among its attesters: guests on honest instances sign only what the attester and
// enrolment code sign; everybody else may submit any message built from evidence that exists.
module World {
  import opened Octets
  import opened Primitives
  import opened Hkdf
  import opened Ledger
  import opened Chain
  import opened Runs

  /** One attester on an honest instance: the session context of its first call, and the exporter
      and head of every call. */
  datatype GuestState = GuestState(instance: Bytes, tik: Bytes, context: SessionContext,
                                   exporters: seq<Bytes>, heads: seq<Option<Bytes>>)

  type Guest = u: GuestState | |u.heads| == |u.exporters| <= COUNTERS witness GuestState([], [], [], [], [])

  /** The context and the exporters of the steps accepted on one session since it began. */
  datatype Accepts = Accepts(context: SessionContext, exporters: seq<Bytes>)

  /** The mandate, the guests, what honest instances have signed, and the history: accepted chains,
      and the inputs that guests, accepted steps and accepted enrolments have fed to the key derivation,
      to SHA-512 and to the session name. */
  datatype World = World(
    m: State, guests: seq<Guest>, signed: set<(Bytes, Bytes)>,
    chains: map<(Bytes, Bytes), Accepts>,
    links: set<LinkInput>, reports: set<Bytes>, contexts: set<SessionContext>)

  datatype Action =
    | Boot(instance: Bytes, tik: Bytes)
    | Attest(i: nat, context: SessionContext, exporter: Bytes, head: Option<Bytes>)
    | SignRequest(instance: Bytes, nonce: Bytes, csr: Bytes)
    | Serve(op: Op)

  function Start(g: Config): World {
    World(Init(g.c), [], {}, map[], {}, {}, {})
  }

  /** The TEE of an instance has signed this report data. */
  ghost predicate HasSigned(g: Config, signed: set<(Bytes, Bytes)>, instance: Bytes, data: Bytes) {
    exists x :: x in signed && x.0 == instance && g.c.sha512(x.1) == data
  }

  /** Evidence of an honest instance verifies only over what that instance signed. */
  ghost predicate Unforged(g: Config, honest: set<Bytes>, signed: set<(Bytes, Bytes)>, evidence: Bytes) {
    forall data ::
      var i := InstanceOf(g.c.verifyReport(evidence, data));
      i.Some? && i.value in honest ==> HasSigned(g, signed, i.value, data)
  }

  ghost predicate Enabled(g: Config, honest: set<Bytes>, w: World, a: Action) {
    match a
    case Boot(instance, _) => instance in honest
    case Attest(i, _, _, _) => i < |w.guests| && |w.guests[i].exporters| < COUNTERS
    case SignRequest(instance, _, csr) => instance in honest && |csr| > 83
    case Serve(op) =>
      && (op.Present? ==> Unforged(g, honest, w.signed, op.p.msg.evidence))
      && (op.Enroll? ==> Unforged(g, honest, w.signed, op.e.evidence))
  }

  function Called(u: Guest, context: SessionContext, exporter: Bytes, head: Option<Bytes>): Guest
    requires |u.exporters| < COUNTERS
  {
    u.(context := if u.exporters == [] then context else u.context,
       exporters := u.exporters + [exporter], heads := u.heads + [head])
  }

  function Extended(w: World, key: (Bytes, Bytes), p: Presentation): Accepts {
    if key in w.m.sessions && key in w.chains
    then w.chains[key].(exporters := w.chains[key].exporters + [p.exporter])
    else Accepts(p.context, [p.exporter])
  }

  /** No chain outgrows its counter, so the test on the length always holds. */
  ghost function InputsOf(g: Config, context: SessionContext, tik: Bytes, exporters: seq<Bytes>): set<LinkInput> {
    if |exporters| <= COUNTERS then ChainInputs(g.c, context, tik, exporters) else {}
  }

  /** What a guest's call j signs. */
  function SignedBy(g: Config, u: Guest, j: nat): Bytes
    requires j < |u.exporters|
  {
    ReportInput(ChainLink(g.c, u.context, u.tik, u.exporters[..j + 1]), u.heads[j])
  }

  ghost function AfterAttest(g: Config, w: World, i: nat, u: Guest): World
    requires i < |w.guests| && u.exporters != []
  {
    var input := SignedBy(g, u, |u.exporters| - 1);
    w.(guests := w.guests[i := u], signed := w.signed + {(u.instance, input)},
       reports := w.reports + {input}, links := w.links + ChainInputs(g.c, u.context, u.tik, u.exporters))
  }

  ghost function AfterServe(g: Config, w: World, op: Op): World {
    var w' := w.(m := Apply(g, w.m, op));
    if PresentAccepted(g, w.m, op) then
      var key := SessionOf(g, op.p);
      var chain := Extended(w, key, op.p);
      w'.(chains := w.chains[key := chain],
          links := w.links + InputsOf(g, chain.context, op.p.tik, chain.exporters),
          reports := w.reports + {ReportInput(op.p.msg.postLink, op.p.head)},
          contexts := w.contexts + {op.p.context})
    else if EnrolAccepted(g, w.m, op) then w'.(reports := w.reports + {EnrolInput(op.e.nonce, op.e.csr)})
    else w'
  }

  ghost predicate GuestOk(g: Config, w: World, u: Guest) {
    u.exporters != [] ==> ChainInputs(g.c, u.context, u.tik, u.exporters) <= w.links
  }

  ghost function Next(g: Config, w: World, a: Action): World
    requires a.Attest? ==> a.i < |w.guests| && |w.guests[a.i].exporters| < COUNTERS
  {
    match a
    case Boot(instance, tik) => w.(guests := w.guests + [GuestState(instance, tik, [], [], [])])
    case Attest(i, context, exporter, head) => AfterAttest(g, w, i, Called(w.guests[i], context, exporter, head))
    case SignRequest(instance, nonce, csr) =>
      w.(signed := w.signed + {(instance, EnrolInput(nonce, csr))}, reports := w.reports + {EnrolInput(nonce, csr)})
    case Serve(op) => AfterServe(g, w, op)
  }

  /** The world is not empty: what a guest has just signed may be served at once. */
  lemma HonestStepMayBeServed(g: Config, honest: set<Bytes>, w: World, a: Action, p: Presentation, now: real)
    requires a.Attest? && Enabled(g, honest, w, a)
    requires var u := Called(w.guests[a.i], a.context, a.exporter, a.head);
             forall data :: InstanceOf(g.c.verifyReport(p.msg.evidence, data)).Some? ==>
               && InstanceOf(g.c.verifyReport(p.msg.evidence, data)).value == u.instance
               && data == g.c.sha512(SignedBy(g, u, |u.exporters| - 1))
    ensures Enabled(g, honest, Next(g, w, a), Serve(Present(p, now)))
  {
    hide SignedBy, ChainInputs;
    var u, w' := Called(w.guests[a.i], a.context, a.exporter, a.head), Next(g, w, a);
    var x := (u.instance, SignedBy(g, u, |u.exporters| - 1));
    assert x in w'.signed;
  }

  // ---------- the invariant ----------

  /** A live session stands at the end of its accepted chain. */
  ghost predicate AtEndOf(g: Config, chain: Accepts, key: (Bytes, Bytes), session: Session,
                          links: set<LinkInput>, contexts: set<SessionContext>) {
    && 0 < |chain.exporters| <= COUNTERS
    && key.1 == SessionName(g.c, chain.context) && chain.context in contexts
    && session == Session(ChainLink(g.c, chain.context, key.0, chain.exporters), |chain.exporters| - 1)
    && ChainInputs(g.c, chain.context, key.0, chain.exporters) <= links
  }

  ghost predicate ChainOk(g: Config, w: World, key: (Bytes, Bytes))
    requires key in w.m.sessions
  {
    key in w.chains && AtEndOf(g, w.chains[key], key, w.m.sessions[key], w.links, w.contexts)
  }

  /** An honest signature is over an enrolment request, or is some call of some guest. */
  ghost predicate SignatureOk(g: Config, w: World, x: (Bytes, Bytes)) {
    && x.1 in w.reports
    && (|x.1| > 83 || exists i, j: nat :: CallOf(g, w.guests, x, i, j))
  }

  ghost predicate CallOf(g: Config, guests: seq<Guest>, x: (Bytes, Bytes), i: int, j: nat) {
    && 0 <= i < |guests| && guests[i].instance == x.0
    && j < |guests[i].exporters| && x.1 == SignedBy(g, guests[i], j)
  }

  ghost predicate Inv(g: Config, w: World) {
    && (forall key :: key in w.m.sessions ==> ChainOk(g, w, key))
    && (forall i :: 0 <= i < |w.guests| ==> GuestOk(g, w, w.guests[i]))
    && (forall x :: x in w.signed ==> SignatureOk(g, w, x))
    && (forall head :: head in w.m.roots ==> |head| == 32)
  }

  // ---------- every action keeps it ----------

  lemma BootKeeps(g: Config, w: World, u: Guest)
    requires Inv(g, w) && u.exporters == []
    ensures Inv(g, w.(guests := w.guests + [u]))
  {
    hide SignedBy, ChainInputs, ChainLink, SessionName;
    var w' := w.(guests := w.guests + [u]);
    forall x | x in w'.signed ensures SignatureOk(g, w', x) {
      if |x.1| <= 83 {
        var i, j: nat :| CallOf(g, w.guests, x, i, j);
        assert CallOf(g, w'.guests, x, i, j);
      }
    }
    forall key | key in w'.m.sessions ensures ChainOk(g, w', key) { assert ChainOk(g, w, key); }
  }

  lemma RequestKeeps(g: Config, w: World, instance: Bytes, input: Bytes)
    requires Inv(g, w) && |input| > 83
    ensures Inv(g, w.(signed := w.signed + {(instance, input)}, reports := w.reports + {input}))
  {
    hide SignedBy, ChainInputs, ChainLink, SessionName, CallOf;
    var w' := w.(signed := w.signed + {(instance, input)}, reports := w.reports + {input});
    forall x | x in w'.signed ensures SignatureOk(g, w', x) {
      if x in w.signed { assert SignatureOk(g, w, x); }
    }
    forall key | key in w'.m.sessions ensures ChainOk(g, w', key) { assert ChainOk(g, w, key); }
  }

  /** A further call does not change what the earlier calls of a guest signed. */
  lemma EarlierCalls(g: Config, u: Guest, context: SessionContext, exporter: Bytes, head: Option<Bytes>, j: nat)
    requires j < |u.exporters| < COUNTERS
    ensures SignedBy(g, Called(u, context, exporter, head), j) == SignedBy(g, u, j)
  {
    assert (u.exporters + [exporter])[..j + 1] == u.exporters[..j + 1];
  }

  lemma AttestKeeps(g: Config, w: World, i: nat, context: SessionContext, exporter: Bytes, head: Option<Bytes>)
    requires Inv(g, w) && i < |w.guests| && |w.guests[i].exporters| < COUNTERS
    ensures Inv(g, AfterAttest(g, w, i, Called(w.guests[i], context, exporter, head)))
  {
    hide SignedBy, ChainInputs, ChainLink, SessionName;
    var u := w.guests[i];
    assert GuestOk(g, w, u);
    var u' := Called(u, context, exporter, head);
    var w' := AfterAttest(g, w, i, u');
    forall key | key in w'.m.sessions ensures ChainOk(g, w', key) { assert ChainOk(g, w, key); }
    forall x | x in w'.signed ensures SignatureOk(g, w', x) {
      if x in w.signed {
        assert SignatureOk(g, w, x);
        if |x.1| <= 83 {
          var k, j: nat :| CallOf(g, w.guests, x, k, j);
          if k == i { EarlierCalls(g, u, context, exporter, head, j); }
          assert CallOf(g, w'.guests, x, k, j);
        }
      } else {
        assert CallOf(g, w'.guests, x, i, |u.exporters|);
      }
    }
  }

  /** Histories only grow. */
  ghost predicate Extends(w: World, w': World) {
    w.links <= w'.links && w.reports <= w'.reports && w.contexts <= w'.contexts
  }

  lemma OthersKeep(g: Config, w: World, w': World)
    requires Inv(g, w) && Extends(w, w') && w'.guests == w.guests && w'.signed == w.signed
    ensures forall x :: x in w'.signed ==> SignatureOk(g, w', x)
    ensures forall i :: 0 <= i < |w'.guests| ==> GuestOk(g, w', w'.guests[i])
  {
    hide ChainOk, ChainInputs, CallOf;
    forall x | x in w'.signed ensures SignatureOk(g, w', x) { assert SignatureOk(g, w, x); }
    forall i | 0 <= i < |w'.guests| ensures GuestOk(g, w', w'.guests[i]) { assert GuestOk(g, w, w.guests[i]); }
  }

  lemma ChainKeeps(g: Config, w: World, w': World, key: (Bytes, Bytes))
    requires Inv(g, w) && Extends(w, w') && key in w.m.sessions && key in w'.m.sessions
    requires w'.m.sessions[key] == w.m.sessions[key] && key in w'.chains
        && (key in w.chains ==> w'.chains[key] == w.chains[key])
    ensures ChainOk(g, w', key)
  {
    hide ChainInputs, ChainLink, SessionName, SignatureOk, GuestOk;
    assert ChainOk(g, w, key);
  }

  lemma ServeKeeps(g: Config, w: World, op: Op)
    requires Inv(g, w)
    ensures Inv(g, AfterServe(g, w, op))
  {
    hide Apply, PresentVerdict, MoveVerdict, SessionOf, ChainInputs, ChainLink, InputsOf, ReportInput, GuestOk,
         SignatureOk, ChainOk, Extended;
    var w' := AfterServe(g, w, op);
    OthersKeep(g, w, w');
    RootsStay32(g, w.m, op);
    forall key | key in w'.m.sessions ensures ChainOk(g, w', key) {
      ServedChain(g, w, op, key);
    }
  }

  lemma ServedChain(g: Config, w: World, op: Op, key: (Bytes, Bytes))
    requires Inv(g, w) && key in AfterServe(g, w, op).m.sessions
    ensures ChainOk(g, AfterServe(g, w, op), key)
  {
    hide Apply, PresentVerdict, MoveVerdict, SessionOf, ChainInputs, ChainLink, InputsOf, ReportInput, GuestOk,
         SignatureOk, Extended, AtEndOf;
    if PresentAccepted(g, w.m, op) && key == SessionOf(g, op.p) {
      AcceptedChain(g, w, op.p, op.now);
    } else {
      SessionsStep(g, w.m, op);
      assert ChainOk(g, w, key);
      ChainKeeps(g, w, AfterServe(g, w, op), key);
    }
  }

  lemma RootsStay32(g: Config, s: State, op: Op)
    requires forall head :: head in s.roots ==> |head| == 32
    ensures forall head :: head in Apply(g, s, op).roots ==> |head| == 32
  {
    LogStep(g, s, op);
    hide Apply;
  }

  /** What acceptance says of the link presented. */
  lemma AcceptedLink(g: Config, s: State, p: Presentation)
    requires PresentVerdict(g, s, p) == Accepted
    ensures var key := SessionOf(g, p);
            if key in s.sessions then
              && p.msg.counter == s.sessions[key].counter + 1
              && p.msg.postLink == PostLink(g.c, p.exporter, s.sessions[key].prev, p.msg.counter)
            else
              && p.msg.counter == 0
              && p.msg.postLink == PostLink(g.c, p.exporter, IntraLink(g.c, p.context, p.tik), 0)
  {
    hide HeadProblem, LedgerProblem, Evidence, PostLink, IntraLink, SessionOf;
  }

  /** `p` is the next step of `chain`: its link is the one the chain reaches with its exporter. */
  ghost predicate EndsWith(g: Config, chain: Accepts, p: Presentation) {
    && 0 <= p.msg.counter && |chain.exporters| == p.msg.counter + 1 <= COUNTERS
    && chain.exporters[p.msg.counter] == p.exporter
    && p.msg.postLink == ChainLink(g.c, chain.context, p.tik, chain.exporters)
    && SessionName(g.c, chain.context) == SessionName(g.c, p.context)
  }

  /** The link accepted is the end of the session's extended chain. */
  lemma ExtendedLink(g: Config, w: World, p: Presentation)
    requires Inv(g, w) && PresentVerdict(g, w.m, p) == Accepted
    ensures EndsWith(g, Extended(w, SessionOf(g, p), p), p) && |Extended(w, SessionOf(g, p), p).exporters| <= COUNTERS
    ensures Extended(w, SessionOf(g, p), p).context in w.contexts + {p.context}
  {
    hide PresentVerdict, PostLink, IntraLink, ChainLink, ChainInputs, SessionName, GuestOk, SignatureOk, EndsWith;
    AcceptedLink(g, w.m, p);
    var key := SessionOf(g, p);
    if key in w.m.sessions {
      assert ChainOk(g, w, key);
      ContinuedLink(g, w.chains[key], w.m.sessions[key], p);
    } else {
      FirstLink(g, p);
    }
  }

  lemma FirstLink(g: Config, p: Presentation)
    requires p.msg.counter == 0 && p.msg.postLink == PostLink(g.c, p.exporter, IntraLink(g.c, p.context, p.tik), 0)
    ensures EndsWith(g, Accepts(p.context, [p.exporter]), p)
  {
    hide PostLink, IntraLink, ChainLink, SessionName;
    ChainStart(g.c, p.context, p.tik);
    ChainStep(g.c, p.context, p.tik, [], p.exporter);
    assert [] + [p.exporter] == [p.exporter];
  }

  lemma ContinuedLink(g: Config, chain: Accepts, session: Session, p: Presentation)
    requires 0 < |chain.exporters| <= COUNTERS && p.msg.counter == |chain.exporters|
    requires session.prev == ChainLink(g.c, chain.context, p.tik, chain.exporters)
    requires p.msg.postLink == PostLink(g.c, p.exporter, session.prev, p.msg.counter)
    requires SessionName(g.c, chain.context) == SessionName(g.c, p.context)
    ensures EndsWith(g, chain.(exporters := chain.exporters + [p.exporter]), p)
  {
    hide PostLink, ChainLink, SessionName;
    ChainStep(g.c, chain.context, p.tik, chain.exporters, p.exporter);
  }

  /** A session that has just taken such a step stands at the end of its chain. */
  lemma NowAtEnd(g: Config, chain: Accepts, p: Presentation, links: set<LinkInput>, contexts: set<SessionContext>)
    requires EndsWith(g, chain, p) && chain.context in contexts
    requires InputsOf(g, chain.context, p.tik, chain.exporters) <= links
    ensures |p.msg.postLink| == 32
    ensures AtEndOf(g, chain, SessionOf(g, p), Session(p.msg.postLink, p.msg.counter), links, contexts)
  {
    hide ChainInputs, ChainInput, SessionName;
  }

  lemma AcceptedChain(g: Config, w: World, p: Presentation, now: real)
    requires Inv(g, w) && PresentVerdict(g, w.m, p) == Accepted
    ensures SessionOf(g, p) in AfterServe(g, w, Present(p, now)).m.sessions
    ensures ChainOk(g, AfterServe(g, w, Present(p, now)), SessionOf(g, p))
  {
    hide Apply, PresentVerdict, ReportInput, Extended, Inv, AtEndOf, EndsWith, InputsOf, SessionOf;
    ExtendedLink(g, w, p);
    SessionsStep(g, w.m, Present(p, now));
    var w' := AfterServe(g, w, Present(p, now));
    NowAtEnd(g, w'.chains[SessionOf(g, p)], p, w'.links, w'.contexts);
  }

  lemma NextKeeps(g: Config, honest: set<Bytes>, w: World, a: Action)
    requires Inv(g, w) && Enabled(g, honest, w, a)
    ensures Inv(g, Next(g, w, a))
  {
    match a {
      case Boot(instance, tik) => BootKeeps(g, w, GuestState(instance, tik, [], [], []));
      case Attest(i, context, exporter, head) => AttestKeeps(g, w, i, context, exporter, head);
      case SignRequest(instance, nonce, csr) => RequestKeeps(g, w, instance, EnrolInput(nonce, csr));
      case Serve(op) => ServeKeeps(g, w, op);
    }
  }

  // ---------- runs ----------

  /** Some two different inputs that mandate and guests really used have the same image: under the
      key derivation, under SHA-512, or as a session name. */
  ghost predicate Collision(g: Config, w: World) {
    LinksCollide(g.c, w.links) || ReportsCollide(g.c, w.reports) || NamesCollide(g.c, w.contexts)
  }

  ghost predicate ReportsCollide(c: Crypto, reports: set<Bytes>) {
    exists x, y :: x in reports && y in reports && x != y && c.sha512(x) == c.sha512(y)
  }

  ghost predicate NamesCollide(c: Crypto, contexts: set<SessionContext>) {
    exists x, y :: x in contexts && y in contexts && x != y && c.sha256(x)[..16] == c.sha256(y)[..16]
  }

  /** `ws` is a run: it starts empty and every step is an enabled action. */
  ghost predicate IsRun(g: Config, honest: set<Bytes>, ws: seq<World>, acts: seq<Action>) {
    && |ws| == |acts| + 1 && ws[0] == Start(g)
    && forall i :: 0 <= i < |acts| ==> StepsTo(g, honest, ws[i], acts[i], ws[i + 1])
  }

  ghost predicate StepsTo(g: Config, honest: set<Bytes>, w: World, a: Action, w': World) {
    Enabled(g, honest, w, a) && w' == Next(g, w, a)
  }

  lemma StartInv(g: Config)
    ensures Inv(g, Start(g))
  {
  }

  lemma StepKeeps(g: Config, honest: set<Bytes>, w: World, a: Action, w': World)
    requires Inv(g, w) && StepsTo(g, honest, w, a, w')
    ensures Inv(g, w')
  {
    hide Next, Inv;
    NextKeeps(g, honest, w, a);
  }

  lemma {:induction false} InvHolds(g: Config, honest: set<Bytes>, ws: seq<World>, acts: seq<Action>, n: nat)
    requires IsRun(g, honest, ws, acts) && n < |ws|
    ensures Inv(g, ws[n])
  {
    hide Inv, StepsTo;
    if n == 0 {
      StartInv(g);
    } else {
      InvHolds(g, honest, ws, acts, n - 1);
      assert StepsTo(g, honest, ws[n - 1], acts[n - 1], ws[n]);
      StepKeeps(g, honest, ws[n - 1], acts[n - 1], ws[n]);
    }
  }
}
