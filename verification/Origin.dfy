// Where an honest enrolment comes from: the instance was asked to sign that very request.
module Origin {
  import opened Octets
  import opened Primitives
  import opened Chain
  import opened Ledger
  import opened Runs
  import opened World

  /** Before moment `n` the instance was asked to sign a nonce and a request that together are `input`. */
  ghost predicate Requested(acts: seq<Action>, n: nat, instance: Bytes, input: Bytes) {
    exists t :: 0 <= t < n && t < |acts| && IsRequest(acts[t], instance, input)
  }

  predicate IsRequest(a: Action, instance: Bytes, input: Bytes) {
    a.SignRequest? && a.instance == instance && EnrolInput(a.nonce, a.csr) == input
  }

  /** The bytes begin like those behind the report data of a link. */
  predicate LooksLikeLink(input: Bytes) {
    |input| >= 19 && input[..19] in {Ascii("HATLS-continuity-v0"), Ascii("HATLS-continuity-v1")}
  }

  lemma CallLooksLikeLink(g: Config, u: Guest, j: nat)
    requires j < |u.exporters|
    ensures LooksLikeLink(SignedBy(g, u, j))
  {
    hide ChainLink;
    var input := SignedBy(g, u, j);
    assert input[..19] == if u.heads[j].None? then Ascii("HATLS-continuity-v0") else Ascii("HATLS-continuity-v1");
  }

  lemma RequestedStays(acts: seq<Action>, n: nat, m: nat, instance: Bytes, input: Bytes)
    requires Requested(acts, n, instance, input) && n <= m
    ensures Requested(acts, m, instance, input)
  {
  }

  lemma SignedStep(g: Config, honest: set<Bytes>, w: World, a: Action, w': World, x: (Bytes, Bytes))
    requires StepsTo(g, honest, w, a, w') && x in w'.signed && x !in w.signed
    ensures IsRequest(a, x.0, x.1) || LooksLikeLink(x.1)
  {
    hide Apply, SignedBy, Unforged, LooksLikeLink, AfterServe;
    match a {
      case Boot(_, _) => assert false;
      case Attest(i, context, exporter, head) =>
        var u := Called(w.guests[i], context, exporter, head);
        CallLooksLikeLink(g, u, |u.exporters| - 1);
      case SignRequest(_, _, _) =>
      case Serve(op) => AfterServeSigns(g, w, op);
    }
  }

  lemma AfterServeSigns(g: Config, w: World, op: Op)
    ensures AfterServe(g, w, op).signed == w.signed
  {
    hide Apply, PresentAccepted, EnrolAccepted;
  }

  /** All that honest instances ever sign is requests they were given and links of their guests. */
  lemma {:induction false} SignedOrigin(g: Config, honest: set<Bytes>, ws: seq<World>, acts: seq<Action>, n: nat,
                                        x: (Bytes, Bytes))
    requires IsRun(g, honest, ws, acts) && n < |ws| && x in ws[n].signed
    ensures Requested(acts, n, x.0, x.1) || LooksLikeLink(x.1)
  {
    hide StepsTo, LooksLikeLink, IsRequest;
    if n > 0 {
      assert StepsTo(g, honest, ws[n - 1], acts[n - 1], ws[n]);
      if x in ws[n - 1].signed {
        SignedOrigin(g, honest, ws, acts, n - 1, x);
        if Requested(acts, n - 1, x.0, x.1) { RequestedStays(acts, n - 1, n, x.0, x.1); }
      } else {
        SignedStep(g, honest, ws[n - 1], acts[n - 1], ws[n], x);
      }
    }
  }

  /** An accepted enrolment that names an honest instance rests on a request that instance was asked to
      sign: the same challenge and the same CSR, if that challenge was as long. Otherwise SHA-512
      inputs really used collide, or the mandate's random challenge begins like a link. */
  lemma EnrolmentWasRequested(g: Config, honest: set<Bytes>, ws: seq<World>, acts: seq<Action>, n: nat,
                              e: Enrolment, now: real)
    requires IsRun(g, honest, ws, acts) && n < |acts| && acts[n] == Serve(Enroll(e, now))
    requires EnrolVerdict(g, ws[n].m, e, now) == Enrolled && EnrolAnchor(g, e).value.instance in honest
    requires |e.nonce| >= 19
    ensures || ReportsCollide(g.c, ws[n + 1].reports)
            || LooksLikeLink(e.nonce)
            || exists t ::
                 && 0 <= t < n && IsRequest(acts[t], EnrolAnchor(g, e).value.instance, EnrolInput(e.nonce, e.csr))
                 && (|acts[t].nonce| == |e.nonce| ==> acts[t].nonce == e.nonce && acts[t].csr == e.csr)
  {
    var instance, input := EnrolAnchor(g, e).value.instance, EnrolInput(e.nonce, e.csr);
    assert StepsTo(g, honest, ws[n], acts[n], ws[n + 1]);
    assert HasSigned(g, ws[n].signed, instance, g.c.sha512(input)) by {
      GenuineEnrolment(g, ws[n].m, e, now);
      hide EnrolVerdict, HasSigned;
    }
    hide EnrolVerdict, EnrolAnchor, Inv, Unforged, StepsTo;
    InvHolds(g, honest, ws, acts, n);
    var x :| x in ws[n].signed && x.0 == instance && g.c.sha512(x.1) == g.c.sha512(input);
    EnrolmentReports(g, honest, ws[n], e, now, ws[n + 1], x);
    if !ReportsCollide(g.c, ws[n + 1].reports) && !LooksLikeLink(e.nonce) {
      assert x.1 == input;
      assert input[..19] == e.nonce[..19];
      SignedOrigin(g, honest, ws, acts, n, x);
      var t :| 0 <= t < n && IsRequest(acts[t], instance, input);
      if |acts[t].nonce| == |e.nonce| { SameSplit(acts[t].nonce, acts[t].csr, e.nonce, e.csr); }
    }
  }

  lemma GenuineEnrolment(g: Config, s: State, e: Enrolment, now: real)
    requires EnrolVerdict(g, s, e, now) == Enrolled
    ensures g.c.verifyReport(e.evidence, g.c.sha512(EnrolInput(e.nonce, e.csr))) == Genuine(EnrolAnchor(g, e))
    ensures EnrolAnchor(g, e).Some?
  {
  }

  /** What the mandate has hashed for it, and what the instance has, are both on record. */
  lemma EnrolmentReports(g: Config, honest: set<Bytes>, w: World, e: Enrolment, now: real, w': World, x: (Bytes, Bytes))
    requires Inv(g, w) && StepsTo(g, honest, w, Serve(Enroll(e, now)), w')
    requires EnrolVerdict(g, w.m, e, now) == Enrolled && x in w.signed
    ensures x.1 in w'.reports && EnrolInput(e.nonce, e.csr) in w'.reports
  {
    hide Apply, EnrolVerdict, ChainOk, GuestOk, Unforged, CallOf;
    assert SignatureOk(g, w, x);
  }

  lemma SameSplit(a: Bytes, b: Bytes, a': Bytes, b': Bytes)
    requires a + b == a' + b' && |a| == |a'|
    ensures a == a' && b == b'
  {
    assert a == (a + b)[..|a|] && a' == (a' + b')[..|a|];
    assert b == (a + b)[|a|..] && b' == (a' + b')[|a|..];
  }
}
