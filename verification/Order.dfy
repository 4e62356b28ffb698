// The continuity guarantee: what is accepted was attested, in that order, by the guest it names.
module Order {
  import opened Octets
  import opened Primitives
  import opened Hkdf
  import opened Ledger
  import opened Chain
  import opened Runs
  import opened Continuity
  import opened World

  /** Guest `i`, on this instance and for this identity, has made the call at the step's counter: over
      the relying party's own exporter, context and head, after calls over exactly the exporters of
      the session's earlier accepted steps, in their order. */
  ghost predicate AttestedBy(g: Config, w: World, p: Presentation, instance: Bytes, i: nat) {
    i < |w.guests| &&
    var u := w.guests[i];
    && u.instance == instance && u.tik == p.tik && u.context == p.context
    && 0 <= p.msg.counter < |u.exporters|
    && u.exporters[p.msg.counter] == p.exporter && u.heads[p.msg.counter] == p.head
    && u.exporters[..p.msg.counter + 1] == Extended(w, SessionOf(g, p), p).exporters
  }

  lemma HeadIsShort(g: Config, w: World, p: Presentation)
    requires Inv(g, w) && PresentVerdict(g, w.m, p) == Accepted
    ensures |ReportInput(p.msg.postLink, p.head)| <= 83
  {
    hide Evidence, Admission, ChainOk, GuestOk, SignatureOk;
  }

  /** Honest evidence for a link report exists only if some guest's call signed that very report. */
  lemma SignedByGuest(g: Config, w: World, x: Bytes, instance: Bytes, reports: set<Bytes>)
    returns (i: nat, j: nat)
    requires Inv(g, w) && HasSigned(g, w.signed, instance, g.c.sha512(x)) && |x| <= 83
    requires x in reports && w.reports <= reports
    requires !ReportsCollide(g.c, reports)
    ensures CallOf(g, w.guests, (instance, x), i, j)
  {
    hide ChainOk, GuestOk, SignedBy;
    var y :| y in w.signed && y.0 == instance && g.c.sha512(y.1) == g.c.sha512(x);
    assert SignatureOk(g, w, y);
    assert y == (instance, x);
    i, j :| CallOf(g, w.guests, y, i, j);
  }

  /** A guest's call and an accepted step over the same report are the same step of the same chain. */
  lemma SameChain(g: Config, u: Guest, j: nat, chain: Accepts, p: Presentation, links: set<LinkInput>)
    requires j < |u.exporters| && SignedBy(g, u, j) == ReportInput(p.msg.postLink, p.head)
    requires EndsWith(g, chain, p) && !LinksCollide(g.c, links)
    requires ChainInputs(g.c, u.context, u.tik, u.exporters) <= links
    requires ChainInputs(g.c, chain.context, p.tik, chain.exporters) <= links
    ensures u.context == chain.context && u.tik == p.tik
    ensures j == p.msg.counter && u.exporters[..j + 1] == chain.exporters && u.heads[j] == p.head
  {
    hide ChainLink, ChainInputs, LinksCollide, ReportInput;
    ReportInputInjective(ChainLink(g.c, u.context, u.tik, u.exporters[..j + 1]), u.heads[j], p.msg.postLink, p.head);
    ChainInputsPrefix(g.c, u.context, u.tik, u.exporters, j + 1);
    LinkCommits(g.c, links, u.context, u.tik, u.exporters[..j + 1], chain.context, p.tik, chain.exporters);
  }

  lemma ThatCall(g: Config, w: World, p: Presentation, instance: Bytes, i: nat, contexts: set<SessionContext>)
    requires i < |w.guests| && w.guests[i].instance == instance
    requires var u, chain := w.guests[i], Extended(w, SessionOf(g, p), p);
             && EndsWith(g, chain, p) && chain.context in contexts && p.context in contexts
             && u.context == chain.context && u.tik == p.tik && p.msg.counter < |u.exporters|
             && u.exporters[..p.msg.counter + 1] == chain.exporters && u.heads[p.msg.counter] == p.head
    requires !NamesCollide(g.c, contexts)
    ensures AttestedBy(g, w, p, instance, i)
  {
    hide Extended, ChainLink;
    var u := w.guests[i];
    assert u.exporters[p.msg.counter] == u.exporters[..p.msg.counter + 1][p.msg.counter];
  }

  lemma AcceptedMatches(g: Config, w: World, p: Presentation, now: real, instance: Bytes) returns (i: nat)
    requires Inv(g, w) && PresentVerdict(g, w.m, p) == Accepted
    requires HasSigned(g, w.signed, instance, ReportData(g.c, p.msg.postLink, p.head))
    requires !Collision(g, AfterServe(g, w, Present(p, now)))
    ensures AttestedBy(g, w, p, instance, i)
  {
    hide Apply, PresentVerdict, ReportInput, Extended, ChainInputs, LinksCollide, SignedBy, HasSigned, SessionOf,
         ChainOk,
         SignatureOk, AttestedBy, SessionName, NamesCollide, ReportsCollide, EndsWith;
    var w', chain := AfterServe(g, w, Present(p, now)), Extended(w, SessionOf(g, p), p);
    HeadIsShort(g, w, p);
    var j: nat;
    i, j := SignedByGuest(g, w, ReportInput(p.msg.postLink, p.head), instance, w'.reports);
    ExtendedLink(g, w, p);
    assert GuestOk(g, w, w.guests[i]);
    SameChain(g, w.guests[i], j, chain, p, w'.links);
    ThatCall(g, w, p, instance, i, w'.contexts);
  }

  // ---------- guests over a run ----------

  /** Guests stay what they are: their calls only grow, and the context of the first call remains. */
  ghost predicate Continues(u: Guest, later: Guest) {
    && later.instance == u.instance && later.tik == u.tik
    && u.exporters <= later.exporters && u.heads <= later.heads
    && (u.exporters != [] ==> later.context == u.context)
  }

  lemma GuestStep(g: Config, honest: set<Bytes>, w: World, a: Action, w': World, i: nat)
    requires i < |w.guests| && StepsTo(g, honest, w, a, w')
    ensures a.Attest? && a.i == i ==> |w.guests[i].exporters| < COUNTERS
    ensures && i < |w'.guests|
            && w'.guests[i] == if a.Attest? && a.i == i then Called(w.guests[i], a.context, a.exporter, a.head)
                else w.guests[i]
  {
    hide AfterServe, SignedBy, Unforged;
    if a.Serve? { AfterServeKeepsGuests(g, w, a.op); }
  }

  lemma AfterServeKeepsGuests(g: Config, w: World, op: Op)
    ensures AfterServe(g, w, op).guests == w.guests
  {
    hide Apply, PresentAccepted;
  }

  lemma GuestContinues(g: Config, honest: set<Bytes>, w: World, a: Action, w': World, u: Guest, i: nat)
    requires StepsTo(g, honest, w, a, w') && i < |w.guests| && Continues(u, w.guests[i])
    ensures i < |w'.guests| && Continues(u, w'.guests[i])
  {
    hide StepsTo;
    GuestStep(g, honest, w, a, w', i);
  }

  lemma {:induction false} GuestsContinue(g: Config, honest: set<Bytes>, ws: seq<World>, acts: seq<Action>, n: nat,
                                          m: nat, i: nat)
    requires IsRun(g, honest, ws, acts) && n <= m < |ws| && i < |ws[n].guests|
    ensures i < |ws[m].guests| && Continues(ws[n].guests[i], ws[m].guests[i])
  {
    hide StepsTo;
    if n < m {
      GuestsContinue(g, honest, ws, acts, n, m - 1, i);
      assert StepsTo(g, honest, ws[m - 1], acts[m - 1], ws[m]);
      GuestContinues(g, honest, ws[m - 1], acts[m - 1], ws[m], ws[n].guests[i], i);
      hide Continues;
    }
  }

  /** The moments before `n` at which guest `i` was called. */
  function Calls(acts: seq<Action>, n: nat, i: nat): (times: seq<nat>)
    requires n <= |acts|
    ensures forall k :: 0 <= k < |times| ==> times[k] < n && acts[times[k]].Attest? && acts[times[k]].i == i
    ensures forall j, k :: 0 <= j < k < |times| ==> times[j] < times[k]
  {
    if n == 0 then []
    else Calls(acts, n - 1, i) + if acts[n - 1].Attest? && acts[n - 1].i == i then [n - 1] else []
  }

  /** A guest's history is exactly what it was called with, in order. */
  ghost predicate Recalls(u: Guest, acts: seq<Action>, times: seq<nat>)
    requires forall k :: 0 <= k < |times| ==> times[k] < |acts| && acts[times[k]].Attest?
  {
    && |times| == |u.exporters|
    && (forall k :: 0 <= k < |times| ==> acts[times[k]].exporter == u.exporters[k] && acts[times[k]].head == u.heads[k])
    && (times != [] ==> u.context == acts[times[0]].context)
  }

  ghost predicate Recalled(w: World, acts: seq<Action>, n: nat, i: nat)
    requires n <= |acts|
  {
    if i < |w.guests| then Recalls(w.guests[i], acts, Calls(acts, n, i)) else Calls(acts, n, i) == []
  }

  lemma {:induction false} CallsAreRecalled(g: Config, honest: set<Bytes>, ws: seq<World>, acts: seq<Action>, n: nat,
                                            i: nat)
    requires IsRun(g, honest, ws, acts) && n < |ws|
    ensures Recalled(ws[n], acts, n, i)
  {
    hide StepsTo, Recalled;
    if n == 0 {
      StartRecalled(g, acts, i);
    } else {
      CallsAreRecalled(g, honest, ws, acts, n - 1, i);
      assert StepsTo(g, honest, ws[n - 1], acts[n - 1], ws[n]);
      RecalledStep(g, honest, ws[n - 1], acts, n - 1, ws[n], i);
    }
  }

  lemma StartRecalled(g: Config, acts: seq<Action>, i: nat)
    ensures Recalled(Start(g), acts, 0, i)
  {
  }

  lemma RecalledStep(g: Config, honest: set<Bytes>, w: World, acts: seq<Action>, n: nat, w': World, i: nat)
    requires n < |acts| && StepsTo(g, honest, w, acts[n], w') && Recalled(w, acts, n, i)
    ensures Recalled(w', acts, n + 1, i)
  {
    var a := acts[n];
    hide Next, Unforged, Called, Recalls;
    if i < |w.guests| {
      GuestStep(g, honest, w, a, w', i);
      CallRecalled(w.guests[i], w'.guests[i], acts, n, i);
    } else if i < |w'.guests| {
      NewGuest(g, honest, w, a, i);
      NoCalls(w'.guests[i], acts);
    }
  }

  lemma NoCalls(u: Guest, acts: seq<Action>)
    requires u.exporters == []
    ensures Recalls(u, acts, [])
  {
  }

  lemma NewGuest(g: Config, honest: set<Bytes>, w: World, a: Action, i: nat)
    requires Enabled(g, honest, w, a) && |w.guests| <= i < |Next(g, w, a).guests|
    ensures Next(g, w, a).guests[i].exporters == []
  {
    hide SignedBy;
    if a.Serve? {
      AfterServeKeepsGuests(g, w, a.op);
      hide AfterServe;
    }
  }

  lemma CallRecalled(u: Guest, u': Guest, acts: seq<Action>, n: nat, i: nat)
    requires n < |acts| && Recalls(u, acts, Calls(acts, n, i))
    requires var a := acts[n];
             if a.Attest? && a.i == i then |u.exporters| < COUNTERS && u' == Called(u, a.context, a.exporter, a.head)
                 else u' == u
    ensures Recalls(u', acts, Calls(acts, n + 1, i))
  {
  }

  // ---------- order ----------

  /** Each exporter of the session's accepted chain, up to and with this step's, was attested by guest
      `i`, one call after the other and all of them before moment `n`; the last call was for this
      step's head, and the first fixed this session's context. */
  ghost predicate AttestedInOrder(g: Config, ws: seq<World>, acts: seq<Action>, n: nat, p: Presentation,
                                  i: nat, times: seq<nat>)
    requires n < |acts| && n < |ws|
  {
    var accepted := Extended(ws[n], SessionOf(g, p), p).exporters;
    && 0 <= p.msg.counter && |times| == |accepted| == p.msg.counter + 1
    && accepted[p.msg.counter] == p.exporter
    && (forall k :: 0 <= k < |times| ==> times[k] < n && acts[times[k]].Attest? && acts[times[k]].i == i
                                         && acts[times[k]].exporter == accepted[k])
    && (forall j, k :: 0 <= j < k < |times| ==> times[j] < times[k])
    && acts[times[p.msg.counter]].head == p.head && acts[times[0]].context == p.context
  }

  lemma CallsBeforeAcceptance(g: Config, honest: set<Bytes>, ws: seq<World>, acts: seq<Action>, n: nat,
                              p: Presentation, instance: Bytes, i: nat) returns (times: seq<nat>)
    requires IsRun(g, honest, ws, acts) && n < |acts| && AttestedBy(g, ws[n], p, instance, i)
    ensures AttestedInOrder(g, ws, acts, n, p, i, times)
  {
    hide StepsTo, Extended, SessionOf;
    CallsAreRecalled(g, honest, ws, acts, n, i);
    times := Calls(acts, n, i)[..p.msg.counter + 1];
    var u := ws[n].guests[i];
    assert forall k | 0 <= k < |times| :: u.exporters[k] == u.exporters[..p.msg.counter + 1][k];
    hide Calls;
  }

  /** Honest evidence accepted at counter n proves that a guest of that very instance and identity
      attested at counter n, and at every counter before it in turn, for the relying party's own
      exporters and context. The only other case is a collision among inputs that were really used. */
  lemma AcceptedWasAttested(g: Config, honest: set<Bytes>, ws: seq<World>, acts: seq<Action>, n: nat,
                            p: Presentation, now: real, instance: Bytes)
    requires IsRun(g, honest, ws, acts) && n < |acts| && acts[n] == Serve(Present(p, now))
    requires PresentVerdict(g, ws[n].m, p) == Accepted
    requires InstanceOf(Evidence(g, p)) == Some(instance) && instance in honest
    ensures Collision(g, ws[n + 1])
         || exists i, times :: AttestedBy(g, ws[n], p, instance, i) && AttestedInOrder(g, ws, acts, n, p, i, times)
  {
    hide Inv, Apply, PresentVerdict, Collision, AttestedBy, AttestedInOrder, HasSigned, ReportData;
    InvHolds(g, honest, ws, acts, n);
    assert StepsTo(g, honest, ws[n], acts[n], ws[n + 1]);
    assert HasSigned(g, ws[n].signed, instance, ReportData(g.c, p.msg.postLink, p.head));
    if !Collision(g, ws[n + 1]) {
      var i := AcceptedMatches(g, ws[n], p, now, instance);
      var times := CallsBeforeAcceptance(g, honest, ws, acts, n, p, instance, i);
    }
  }

  /** Requiring an anchor, only the enrolled instance of an enrolled identity is ever accepted. */
  lemma OnlyTheEnrolledInstance(g: Config, s: State, p: Presentation, instance: Bytes)
    requires g.requireAnchor && instance != [] && Rec(s.store, p.tik).enrolledInstance == Some(instance)
    requires PresentVerdict(g, s, p) == Accepted
    ensures InstanceOf(Evidence(g, p)) == Some(instance)
  {
    hide HeadProblem, Evidence, ChainVerdict;
  }

  /** The ordered chain: requiring an anchor, whatever is accepted for an identity that is enrolled on
      an honest instance was attested in order by that instance. */
  lemma OrderedChain(g: Config, honest: set<Bytes>, ws: seq<World>, acts: seq<Action>, n: nat,
                     p: Presentation, now: real, instance: Bytes)
    requires IsRun(g, honest, ws, acts) && n < |acts| && acts[n] == Serve(Present(p, now))
    requires PresentVerdict(g, ws[n].m, p) == Accepted && g.requireAnchor
    requires Rec(ws[n].m.store, p.tik).enrolledInstance == Some(instance) && instance != [] && instance in honest
    ensures Collision(g, ws[n + 1])
         || exists i, times :: AttestedBy(g, ws[n], p, instance, i) && AttestedInOrder(g, ws, acts, n, p, i, times)
  {
    hide PresentVerdict, Evidence, StepsTo, Collision, AttestedBy, AttestedInOrder;
    OnlyTheEnrolledInstance(g, ws[n].m, p, instance);
    AcceptedWasAttested(g, honest, ws, acts, n, p, now, instance);
  }

  // ---------- the mandate in the world ----------

  lemma MandateStep(g: Config, honest: set<Bytes>, w: World, a: Action, w': World)
    requires StepsTo(g, honest, w, a, w')
    ensures w'.m == if a.Serve? then Apply(g, w.m, a.op) else w.m
    ensures Extends(w, w')
  {
    hide Apply, SignedBy, Unforged, PresentAccepted;
  }

  function Served(acts: seq<Action>, n: nat): seq<Op>
    requires n <= |acts|
  {
    if n == 0 then [] else Served(acts, n - 1) + if acts[n - 1].Serve? then [acts[n - 1].op] else []
  }

  /** The mandate of any world is the mandate after the run of operations it has served: what is
      proved of all runs holds of it. */
  lemma {:induction false} MandateRuns(g: Config, honest: set<Bytes>, ws: seq<World>, acts: seq<Action>, n: nat)
    requires IsRun(g, honest, ws, acts) && n < |ws|
    ensures ws[n].m == After(g, Served(acts, n))
  {
    hide StepsTo, Apply;
    if n > 0 {
      MandateRuns(g, honest, ws, acts, n - 1);
      assert StepsTo(g, honest, ws[n - 1], acts[n - 1], ws[n]);
      MandateStep(g, honest, ws[n - 1], acts[n - 1], ws[n]);
      var before := Served(acts, n - 1);
      if acts[n - 1].Serve? {
        assert (before + [acts[n - 1].op])[..|before|] == before;
      } else {
        assert before + [] == before;
      }
    }
  }

  // ---------- no attestation backs two acceptances ----------

  /** Nothing ends the chains of the identity from moment `n` up to moment `m`. */
  ghost predicate ChainsLast(g: Config, ws: seq<World>, acts: seq<Action>, n: nat, m: nat, tik: Bytes)
    requires m <= |acts| && m <= |ws|
  {
    forall t :: n <= t < m && acts[t].Serve? ==> KeepsChains(g, ws[t].m, acts[t].op, tik)
  }

  lemma ChainLivesStep(g: Config, honest: set<Bytes>, w: World, a: Action, w': World, key: (Bytes, Bytes))
    requires StepsTo(g, honest, w, a, w') && key in w.m.sessions && (a.Serve? ==> KeepsChains(g, w.m, a.op, key.0))
    ensures key in w'.m.sessions && w'.m.sessions[key].counter >= w.m.sessions[key].counter
  {
    hide StepsTo, Apply, KeepsChains;
    MandateStep(g, honest, w, a, w');
    if a.Serve? { ChainStays(g, w.m, a.op, key); }
  }

  lemma {:induction false} ChainLives(g: Config, honest: set<Bytes>, ws: seq<World>, acts: seq<Action>, n: nat, m: nat,
                                      key: (Bytes, Bytes))
    requires IsRun(g, honest, ws, acts) && n <= m < |ws| && key in ws[n].m.sessions
        && ChainsLast(g, ws, acts, n, m, key.0)
    ensures key in ws[m].m.sessions && ws[m].m.sessions[key].counter >= ws[n].m.sessions[key].counter
  {
    hide StepsTo, KeepsChains;
    if n < m {
      ChainLives(g, honest, ws, acts, n, m - 1, key);
      assert StepsTo(g, honest, ws[m - 1], acts[m - 1], ws[m]);
      ChainLivesStep(g, honest, ws[m - 1], acts[m - 1], ws[m], key);
    }
  }

  lemma {:induction false} HistoriesGrow(g: Config, honest: set<Bytes>, ws: seq<World>, acts: seq<Action>, n: nat,
                                         m: nat)
    requires IsRun(g, honest, ws, acts) && n <= m < |ws|
    ensures Extends(ws[n], ws[m])
  {
    hide StepsTo;
    if n < m {
      HistoriesGrow(g, honest, ws, acts, n, m - 1);
      assert StepsTo(g, honest, ws[m - 1], acts[m - 1], ws[m]);
      MandateStep(g, honest, ws[m - 1], acts[m - 1], ws[m]);
    }
  }

  /** Two steps of a run, both accepted, on a chain that lives in between. */
  ghost predicate BothAccepted(g: Config, honest: set<Bytes>, ws: seq<World>, acts: seq<Action>,
                               n: nat, p: Presentation, now: real, m: nat, q: Presentation, then_: real) {
    && IsRun(g, honest, ws, acts) && n < m < |acts|
    && acts[n] == Serve(Present(p, now)) && PresentVerdict(g, ws[n].m, p) == Accepted
    && acts[m] == Serve(Present(q, then_)) && PresentVerdict(g, ws[m].m, q) == Accepted
    && ChainsLast(g, ws, acts, n + 1, m, p.tik)
  }

  /** On one session, accepted counters strictly grow. */
  lemma CountersGrow(g: Config, honest: set<Bytes>, ws: seq<World>, acts: seq<Action>,
                     n: nat, p: Presentation, now: real, m: nat, q: Presentation, then_: real)
    requires BothAccepted(g, honest, ws, acts, n, p, now, m, q, then_) && SessionOf(g, p) == SessionOf(g, q)
    ensures p.msg.counter < q.msg.counter
  {
    hide StepsTo, Apply, PresentVerdict, KeepsChains, ChainsLast;
    assert StepsTo(g, honest, ws[n], acts[n], ws[n + 1]);
    MandateStep(g, honest, ws[n], acts[n], ws[n + 1]);
    SessionsStep(g, ws[n].m, Present(p, now));
    ChainLives(g, honest, ws, acts, n + 1, m, SessionOf(g, p));
    CounterAdvances(g, ws[m].m, Present(q, then_));
  }

  /** Two acceptances never rest on the same call of the same guest: the later is for a later call. */
  lemma NoAttestationBacksTwo(g: Config, honest: set<Bytes>, ws: seq<World>, acts: seq<Action>, n: nat,
                              p: Presentation, now: real,
                              m: nat, q: Presentation, then_: real, instance: Bytes, instance': Bytes, i: nat)
    requires BothAccepted(g, honest, ws, acts, n, p, now, m, q, then_)
    requires AttestedBy(g, ws[n], p, instance, i) && AttestedBy(g, ws[m], q, instance', i)
    ensures p.msg.counter < q.msg.counter
  {
    hide StepsTo, Apply, PresentVerdict, ChainsLast, Extended;
    GuestsContinue(g, honest, ws, acts, n, m, i);
    CountersGrow(g, honest, ws, acts, n, p, now, m, q, then_);
  }

  /** Honest or not: no link is accepted twice while its chain is alive, or links or session names
      collide. */
  lemma NoLinkAcceptedTwice(g: Config, honest: set<Bytes>, ws: seq<World>, acts: seq<Action>,
                            n: nat, p: Presentation, now: real, m: nat, q: Presentation, then_: real)
    requires BothAccepted(g, honest, ws, acts, n, p, now, m, q, then_) && p.msg.postLink == q.msg.postLink
    ensures Collision(g, ws[m + 1])
  {
    hide StepsTo, Apply, PresentVerdict, ChainsLast, Inv, EndsWith, ChainInputs, LinksCollide, ReportInput;
    var chain := AcceptedChainOf(g, honest, ws, acts, n, p, now);
    var chain' := AcceptedChainOf(g, honest, ws, acts, m, q, then_);
    HistoriesGrow(g, honest, ws, acts, n + 1, m + 1);
    if !LinksCollide(g.c, ws[m + 1].links) {
      SameEnd(g, chain, chain', p, q, ws[m + 1].links);
      CountersGrow(g, honest, ws, acts, n, p, now, m, q, then_);
    }
  }

  lemma AcceptedChainOf(g: Config, honest: set<Bytes>, ws: seq<World>, acts: seq<Action>, n: nat, p: Presentation,
                        now: real)
    returns (chain: Accepts)
    requires IsRun(g, honest, ws, acts) && n < |acts| && acts[n] == Serve(Present(p, now))
    requires PresentVerdict(g, ws[n].m, p) == Accepted
    ensures EndsWith(g, chain, p) && ChainInputs(g.c, chain.context, p.tik, chain.exporters) <= ws[n + 1].links
  {
    hide Apply, PresentVerdict, Inv, ChainInputs, Extended;
    InvHolds(g, honest, ws, acts, n);
    ExtendedLink(g, ws[n], p);
    chain := Extended(ws[n], SessionOf(g, p), p);
    assert StepsTo(g, honest, ws[n], acts[n], ws[n + 1]);
  }

  lemma SameEnd(g: Config, chain: Accepts, chain': Accepts, p: Presentation, q: Presentation, links: set<LinkInput>)
    requires EndsWith(g, chain, p) && EndsWith(g, chain', q) && p.msg.postLink == q.msg.postLink
    requires !LinksCollide(g.c, links)
    requires ChainInputs(g.c, chain.context, p.tik, chain.exporters) <= links
    requires ChainInputs(g.c, chain'.context, q.tik, chain'.exporters) <= links
    ensures SessionOf(g, p) == SessionOf(g, q) && p.msg.counter == q.msg.counter
  {
    hide ChainLink, ChainInputs, LinksCollide, SessionName;
    LinkCommits(g.c, links, chain.context, p.tik, chain.exporters, chain'.context, q.tik, chain'.exporters);
  }
}
