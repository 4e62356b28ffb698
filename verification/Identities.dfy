// What whole runs keep of one identity: its grants, its instance, its revocation, its nonces.
module Identities {
  import opened Octets
  import opened Primitives
  import opened MerkleTree
  import opened Ledger
  import opened Runs

  function RecordAfter(g: Config, ops: seq<Op>, tik: Bytes): Record { Rec(After(g, ops).store, tik) }

  /** The last operation of a non-empty run, and the run before it. */
  function Front(ops: seq<Op>): seq<Op> requires ops != [] { ops[..|ops| - 1] }
  function Final(ops: seq<Op>): Op requires ops != [] { ops[|ops| - 1] }

  lemma LastOp(g: Config, ops: seq<Op>)
    requires ops != []
    ensures After(g, ops) == Apply(g, After(g, Front(ops)), Final(ops))
  {
    hide Apply;
  }

  // ---------- grants ----------

  /** Every transfer of `tik` the run has accepted, in order. */
  function Moves(g: Config, ops: seq<Op>, tik: Bytes): seq<Transfer> {
    if ops == [] then []
    else Moves(g, Front(ops), tik) + MoveOf(g, After(g, Front(ops)), Final(ops), tik)
  }

  function MoveOf(g: Config, s: State, op: Op, tik: Bytes): seq<Transfer> {
    if MoveAccepted(g, s, op) && op.m.tik == tik then
      [Transfer(Seconds(op.now), Rec(s.store, tik).enrolledInstance.value, op.m.grant.value.to.value,
                op.m.grant.value.nonce, op.m.grant.value.anyOrigin)]
    else []
  }

  function Nonces(ts: seq<Transfer>): (r: seq<Bytes>)
    ensures |r| == |ts| && forall i :: 0 <= i < |r| ==> r[i] == ts[i].nonce
  {
    seq(|ts|, i requires 0 <= i < |ts| => ts[i].nonce)
  }

  ghost predicate Distinct<T>(s: seq<T>) {
    forall i, j :: 0 <= i < j < |s| ==> s[i] != s[j]
  }

  lemma LastNAppend<T>(s: seq<T>, x: T, n: nat)
    requires n > 0
    ensures LastN(LastN(s, n) + [x], n) == LastN(s + [x], n)
  {
  }

  lemma LastNDistinct<T>(s: seq<T>, x: T, n: nat)
    requires Distinct(s) && x !in s
    ensures Distinct(LastN(s + [x], n))
  {
  }

  /** A record moved by a grant spends exactly its nonce; any other operation spends none. */
  lemma MoveStep(g: Config, s: State, op: Op, tik: Bytes)
    ensures var rec, rec', moves := Rec(s.store, tik), Rec(Apply(g, s, op).store, tik), MoveOf(g, s, op, tik);
            if moves == [] then rec'.transfers == rec.transfers && rec'.consumedGrants == rec.consumedGrants
            else Moved(rec, rec', moves[0])
  {
    hide Apply, Moved, MoveVerdict;
    if MoveAccepted(g, s, op) && op.m.tik == tik {
      AcceptedMoveStep(g, s, op);
    } else {
      OtherStep(g, s, op, tik);
    }
  }

  lemma OtherStep(g: Config, s: State, op: Op, tik: Bytes)
    requires !(MoveAccepted(g, s, op) && op.m.tik == tik)
    ensures var rec, rec' := Rec(s.store, tik), Rec(Apply(g, s, op).store, tik);
            rec'.transfers == rec.transfers && rec'.consumedGrants == rec.consumedGrants
  {
    hide Apply, MoveVerdict, PresentedRecord, MovedRecord, EnrolVerdict, PresentVerdict, Evidence;
    RecordStep(g, s, op, tik);
  }

  ghost predicate Moved(rec: Record, rec': Record, move: Transfer) {
    && rec'.transfers == LastN(rec.transfers + [move], 64)
    && rec'.consumedGrants == LastN(rec.consumedGrants + [move.nonce], 256)
    && move.nonce !in rec.consumedGrants
    && rec.enrolledInstance == Some(move.from_) && rec'.enrolledInstance == Some(move.to)
  }

  lemma AcceptedMoveStep(g: Config, s: State, op: Op)
    requires MoveAccepted(g, s, op)
    ensures Moved(Rec(s.store, op.m.tik), Rec(Apply(g, s, op).store, op.m.tik), MoveOf(g, s, op, op.m.tik)[0])
  {
    hide Apply, LastN, FreshWitness;
    RecordStep(g, s, op, op.m.tik);
  }

  /** The record keeps the last 64 transfers and the last 256 spent nonces, the latter without
      repetition. */
  ghost predicate Windows(rec: Record, moves: seq<Transfer>) {
    && rec.transfers == LastN(moves, 64)
    && rec.consumedGrants == LastN(Nonces(moves), 256)
    && Distinct(rec.consumedGrants)
  }

  lemma WindowsMove(rec: Record, rec': Record, moves: seq<Transfer>, move: Transfer)
    requires Windows(rec, moves) && Moved(rec, rec', move)
    ensures Windows(rec', moves + [move])
  {
    LastNAppend(moves, move, 64);
    LastNAppend(Nonces(moves), move.nonce, 256);
    LastNDistinct(rec.consumedGrants, move.nonce, 256);
    assert Nonces(moves + [move]) == Nonces(moves) + [move.nonce];
    hide LastN, Distinct;
  }

  lemma WindowsStep(g: Config, s: State, op: Op, tik: Bytes, moves: seq<Transfer>)
    requires Windows(Rec(s.store, tik), moves)
    ensures Windows(Rec(Apply(g, s, op).store, tik), moves + MoveOf(g, s, op, tik))
  {
    hide Apply, MoveOf, LastN, Distinct, Moved, Nonces;
    MoveStep(g, s, op, tik);
    OneMove(g, s, op, tik);
    var moved := MoveOf(g, s, op, tik);
    if moved == [] {
      assert moves + moved == moves;
    } else {
      assert moved == [moved[0]];
      WindowsMove(Rec(s.store, tik), Rec(Apply(g, s, op).store, tik), moves, moved[0]);
    }
  }

  /** `transfers` and `consumed_grants` are windows on the true history of every run. */
  lemma {:induction false} GrantWindows(g: Config, ops: seq<Op>, tik: Bytes)
    ensures Windows(RecordAfter(g, ops, tik), Moves(g, ops, tik))
    decreases |ops|
  {
    if ops != [] {
      hide Windows, Apply, MoveOf;
      GrantWindows(g, Front(ops), tik);
      WindowsStep(g, After(g, Front(ops)), Final(ops), tik, Moves(g, Front(ops), tik));
    }
  }

  lemma OneMove(g: Config, s: State, op: Op, tik: Bytes)
    ensures |MoveOf(g, s, op, tik)| <= 1
  {
  }

  /** The retained transfers name the most recently spent nonces. */
  lemma TransfersAreSpent(g: Config, ops: seq<Op>, tik: Bytes)
    ensures var rec := RecordAfter(g, ops, tik);
            && |rec.transfers| <= |rec.consumedGrants|
            && Nonces(rec.transfers) == rec.consumedGrants[|rec.consumedGrants| - |rec.transfers|..]
  {
    GrantWindows(g, ops, tik);
  }

  /** All a transfer asks before it looks at the grant's nonce: who signed it, for whom, and when. */
  predicate GrantStands(g: Config, rec: Record, m: Move, at: int) {
    && !rec.revoked && rec.enrolledInstance.Some? && rec.transferAuthority.Some?
    && m.grant.Some? && m.grant.value.version == 1 && m.grant.value.tik == m.tik
    && g.c.signedBy(rec.transferAuthority.value, g.c.grantBytes(m.grant.value), m.signature)
    && m.grant.value.notBefore <= at <= m.grant.value.notAfter
  }

  /** The grant leaves from where the identity is, or from anywhere, for a usable instance. */
  predicate GrantLeads(rec: Record, grant: Grant) {
    && (grant.from_ == rec.enrolledInstance || (grant.from_.None? && grant.anyOrigin))
    && grant.to.Some? && exists i :: 0 <= i < |grant.to.value| && grant.to.value[i] != 0
  }

  ghost predicate Seen(g: Config, rec: Record, to: Bytes, at: int) {
    exists w :: w in rec.witnessed && w.instance == to && at - w.at < g.witnessTtl
  }

  /** The record may be moved at all, and the grant is of a known kind. */
  predicate GrantReadable(rec: Record, m: Move) {
    && !rec.revoked && rec.enrolledInstance.Some? && rec.transferAuthority.Some?
    && m.grant.Some? && m.grant.value.version == 1
  }

  predicate GrantSound(g: Config, rec: Record, m: Move) {
    && GrantReadable(rec, m) && m.grant.value.tik == m.tik
    && g.c.signedBy(rec.transferAuthority.value, g.c.grantBytes(m.grant.value), m.signature)
  }

  predicate OriginFits(rec: Record, grant: Grant) {
    if grant.from_.None? then grant.anyOrigin else grant.from_ == rec.enrolledInstance
  }

  /** Exactly which answer a transfer gets: accepted if it stands, is unused, leads and the destination
      was seen; otherwise the first check that fails. */
  lemma MoveExactly(g: Config, s: State, m: Move, now: real)
    ensures var rec, at, why := Rec(s.store, m.tik), now.Floor, MoveVerdict(g, s, m, now);
            && (why == IdentityRevoked <==> rec.revoked)
            && (why == NothingToTransfer <==> !rec.revoked && rec.enrolledInstance.None?)
            && (why == NotTransferable <==>
                  !rec.revoked && rec.enrolledInstance.Some? && rec.transferAuthority.None?)
            && (why == GrantUnsupported <==>
                  && !rec.revoked && rec.enrolledInstance.Some? && rec.transferAuthority.Some?
                  && (m.grant.None? || m.grant.value.version != 1))
            && (why == GrantOtherIdentity <==> GrantReadable(rec, m) && m.grant.value.tik != m.tik)
            && (why == GrantUnsigned <==>
                  && GrantReadable(rec, m) && m.grant.value.tik == m.tik
                  && !g.c.signedBy(rec.transferAuthority.value, g.c.grantBytes(m.grant.value), m.signature))
            && (why == GrantOutsideWindow <==>
                  GrantSound(g, rec, m) && !(m.grant.value.notBefore <= at <= m.grant.value.notAfter))
    ensures var rec, at, why := Rec(s.store, m.tik), now.Floor, MoveVerdict(g, s, m, now);
            && (why == GrantReplayed <==> GrantStands(g, rec, m, at) && m.grant.value.nonce in rec.consumedGrants)
            && (GrantUnused(g, rec, m, at) ==>
                  var grant := m.grant.value;
                  && (why == GrantNoOrigin <==> grant.from_.None? && !grant.anyOrigin)
                  && (why == GrantOtherOrigin <==> grant.from_.Some? && grant.from_ != rec.enrolledInstance)
                  && (why == GrantUnreadable <==> OriginFits(rec, grant) && grant.to.None?)
                  && (why == GrantNoInstance <==>
                        && OriginFits(rec, grant) && grant.to.Some?
                        && forall i :: 0 <= i < |grant.to.value| ==> grant.to.value[i] == 0))
            && (why == GrantUnwitnessed <==>
                  && GrantUnused(g, rec, m, at)
                  && GrantLeads(rec, m.grant.value) && !Seen(g, rec, m.grant.value.to.value, at))
            && (why == Transferred <==>
                  && GrantUnused(g, rec, m, at)
                  && GrantLeads(rec, m.grant.value) && Seen(g, rec, m.grant.value.to.value, at))
            && (why in {GrantNoOrigin, GrantOtherOrigin, GrantUnreadable, GrantNoInstance}
                ==> GrantUnused(g, rec, m, at))
  {
    hide FreshWitness;
    if m.grant.Some? && m.grant.value.to.Some? {
      SeenExactly(g, Rec(s.store, m.tik), m.grant.value.to.value, Seconds(now));
    }
  }

  /** It stands, and its nonce is not on record as spent. */
  predicate GrantUnused(g: Config, rec: Record, m: Move, at: int) {
    GrantStands(g, rec, m, at) && m.grant.value.nonce !in rec.consumedGrants
  }

  lemma SeenExactly(g: Config, rec: Record, to: Bytes, at: int)
    ensures FreshWitness(rec.witnessed, to, at, g.witnessTtl).Some? <==> Seen(g, rec, to, at)
  {
    hide FreshWitness;
  }

  /** Exactly when a transfer is accepted in a run, and exactly when it is refused as a replay: a
      grant's nonce counts as spent for the 256 latest transfers of its identity. */
  lemma GrantSingleUse(g: Config, ops: seq<Op>, m: Move, now: real)
    ensures var rec, at, why := RecordAfter(g, ops, m.tik), Seconds(now), MoveVerdict(g, After(g, ops), m, now);
            var spent := LastN(Nonces(Moves(g, ops, m.tik)), 256);
            && (why == GrantReplayed <==> GrantStands(g, rec, m, at) && m.grant.value.nonce in spent)
            && (why == Transferred <==>
                  && GrantStands(g, rec, m, at) && m.grant.value.nonce !in spent
                  && GrantLeads(rec, m.grant.value) && Seen(g, rec, m.grant.value.to.value, at))
  {
    hide Run, Moves, LastN, Nonces, MoveVerdict, GrantStands, GrantLeads, Seen;
    GrantWindows(g, ops, m.tik);
    MoveExactly(g, After(g, ops), m, now);
  }

  /** A grant is single use only for so long: accepted at operation i, it is accepted again once 256
      further transfers of the identity have been accepted without it and it fits once more. */
  lemma GrantOutlivesItsWindow(g: Config, ops: seq<Op>, i: nat, now: real)
    requires i < |ops| && MoveAccepted(g, After(g, ops[..i]), ops[i])
    requires var m := ops[i].m; var rec := RecordAfter(g, ops, m.tik);
             && GrantStands(g, rec, m, Seconds(now)) && GrantLeads(rec, m.grant.value)
             && Seen(g, rec, m.grant.value.to.value, Seconds(now))
    ensures var m := ops[i].m; var used, moves := |Moves(g, ops[..i], m.tik)|, Moves(g, ops, m.tik);
            && used < |moves| && moves[used].nonce == m.grant.value.nonce
            && (MoveVerdict(g, After(g, ops), m, now) == Transferred <==>
                  forall k :: used <= k < |moves| && moves[k].nonce == m.grant.value.nonce ==> |moves| - k > 256)
  {
    var m := ops[i].m;
    hide Run, Moves, MoveVerdict, GrantStands, GrantLeads, Seen;
    MovesGrow(g, ops, i, m.tik);
    GrantSingleUse(g, ops, m, now);
    var moves, nonce := Moves(g, ops, m.tik), m.grant.value.nonce;
    InLast(Nonces(moves), nonce, 256);
    assert forall k | 0 <= k < |moves| :: Nonces(moves)[k] == moves[k].nonce;
    LateUses(moves, |Moves(g, ops[..i], m.tik)|, nonce);
  }

  lemma LateUses(moves: seq<Transfer>, used: nat, nonce: Bytes)
    requires used < |moves| && moves[used].nonce == nonce
    ensures (forall k :: used <= k < |moves| && moves[k].nonce == nonce ==> |moves| - k > 256)
       <==> (forall k :: 0 <= k < |moves| && moves[k].nonce == nonce ==> |moves| - k > 256)
  {
  }

  lemma InLast<T>(s: seq<T>, x: T, n: nat)
    ensures x !in LastN(s, n) <==> forall k :: 0 <= k < |s| && s[k] == x ==> |s| - k > n
  {
    var t := LastN(s, n);
    assert forall k | 0 <= k < |t| :: t[k] == s[|s| - |t| + k];
    if x in t {
      var k :| 0 <= k < |t| && t[k] == x;
      assert s[|s| - |t| + k] == x;
    } else {
      assert forall k | |s| - |t| <= k < |s| :: s[k] == t[k - (|s| - |t|)];
    }
  }

  /** The transfer of operation i stands where it was added. */
  lemma {:induction false} MovesGrow(g: Config, ops: seq<Op>, i: nat, tik: Bytes)
    requires i < |ops|
    ensures Moves(g, ops[..i], tik) + MoveOf(g, After(g, ops[..i]), ops[i], tik) <= Moves(g, ops, tik)
    decreases |ops|
  {
    hide Run, MoveOf;
    if i == |ops| - 1 {
      assert Front(ops) == ops[..i];
    } else {
      assert Front(ops)[..i] == ops[..i] && Front(ops)[i] == ops[i];
      MovesGrow(g, Front(ops), i, tik);
    }
  }

  // ---------- the path of the enrolled instance ----------

  /** The instance named by the enrolment of `tik` that the run accepted. */
  function EnrolledAt(g: Config, ops: seq<Op>, tik: Bytes): Option<Bytes> {
    if ops == [] then None
    else if EnrolAccepted(g, After(g, Front(ops)), Final(ops)) && Final(ops).e.tik == tik then
      Some(EnrolAnchor(g, Final(ops).e).value.instance)
    else EnrolledAt(g, Front(ops), tik)
  }

  /** Each transfer leaves the instance the one before it reached. */
  ghost predicate IsPath(start: Bytes, moves: seq<Transfer>, end: Bytes) {
    if moves == [] then start == end
    else
      var n := |moves| - 1;
      moves[n].to == end && IsPath(start, moves[..n], moves[n].from_)
  }

  lemma EnrolStep(g: Config, s: State, op: Op, tik: Bytes)
    ensures var rec, rec' := Rec(s.store, tik), Rec(Apply(g, s, op).store, tik);
            if EnrolAccepted(g, s, op) && op.e.tik == tik then
              && rec.enrolledInstance.None? && rec'.enrolledInstance == Some(EnrolAnchor(g, op.e).value.instance)
              && MoveOf(g, s, op, tik) == []
            else MoveOf(g, s, op, tik) == [] ==> rec'.enrolledInstance == rec.enrolledInstance
  {
    hide Apply, LastN, PresentedRecord, PresentVerdict, Evidence, MoveVerdict, EnrolAnchor;
    RecordStep(g, s, op, tik);
  }

  ghost predicate OnPath(start: Option<Bytes>, moves: seq<Transfer>, end: Option<Bytes>) {
    && (end.None? <==> start.None?)
    && (start.None? ==> moves == [])
    && (start.Some? ==> IsPath(start.value, moves, end.value))
  }

  /** The enrolled instance is set once, by the enrolment; from there the accepted transfers form an
      unbroken path that ends at the instance enrolled now. */
  lemma {:induction false} InstanceIsOnPath(g: Config, ops: seq<Op>, tik: Bytes)
    ensures OnPath(EnrolledAt(g, ops, tik), Moves(g, ops, tik), RecordAfter(g, ops, tik).enrolledInstance)
    decreases |ops|
  {
    if ops != [] {
      hide OnPath, Apply;
      InstanceIsOnPath(g, Front(ops), tik);
      PathStep(g, After(g, Front(ops)), Final(ops), tik, EnrolledAt(g, Front(ops), tik), Moves(g, Front(ops), tik));
    }
  }

  lemma PathStep(g: Config, s: State, op: Op, tik: Bytes, start: Option<Bytes>, moves: seq<Transfer>)
    requires OnPath(start, moves, Rec(s.store, tik).enrolledInstance)
    ensures OnPath(if EnrolAccepted(g, s, op) && op.e.tik == tik
                   then Some(EnrolAnchor(g, op.e).value.instance) else start,
                   moves + MoveOf(g, s, op, tik), Rec(Apply(g, s, op).store, tik).enrolledInstance)
  {
    hide Apply, MoveOf, EnrolAccepted, LastN;
    EnrolStep(g, s, op, tik);
    MoveStep(g, s, op, tik);
    OneMove(g, s, op, tik);
    var moved := MoveOf(g, s, op, tik);
    assert moved == [] ==> moves + moved == moves;
    assert moved != [] ==> (moves + moved)[..|moves|] == moves;
  }

  /** Some presentation of `tik` earlier in the run carried genuine evidence of this instance and this
      place, at that second. */
  ghost predicate Verified(g: Config, ops: seq<Op>, tik: Bytes, w: Witness) {
    exists i :: 0 <= i < |ops| && Shows(g, ops[i], tik, w)
  }

  predicate Shows(g: Config, op: Op, tik: Bytes, w: Witness) {
    && op.Present? && op.p.tik == tik && Seconds(op.now) == w.at
    && InstanceOf(Evidence(g, op.p)) == Some(w.instance) && Truthy(PlaceOf(Evidence(g, op.p))) == w.place
  }

  lemma WitnessStep(g: Config, s: State, op: Op, tik: Bytes)
    ensures forall w :: w in Rec(Apply(g, s, op).store, tik).witnessed
              ==> w in Rec(s.store, tik).witnessed || Shows(g, op, tik, w)
  {
    hide Apply, PresentVerdict, EnrolVerdict, MoveVerdict, Evidence, Truthy;
    RecordStep(g, s, op, tik);
  }

  lemma {:induction false} WitnessesWereVerified(g: Config, ops: seq<Op>, tik: Bytes)
    ensures forall w | w in RecordAfter(g, ops, tik).witnessed :: Verified(g, ops, tik, w)
    decreases |ops|
  {
    if ops != [] {
      WitnessesWereVerified(g, Front(ops), tik);
      WitnessStep(g, After(g, Front(ops)), Final(ops), tik);
      hide Apply, Shows;
      forall w | w in RecordAfter(g, ops, tik).witnessed ensures Verified(g, ops, tik, w) {
        if w in RecordAfter(g, Front(ops), tik).witnessed {
          var i :| 0 <= i < |Front(ops)| && Shows(g, Front(ops)[i], tik, w);
          assert Shows(g, ops[i], tik, w);
        }
      }
    }
  }

  /** A transfer is accepted only on the identity's own authority, inside the grant's window, away
      from the instance enrolled now (or any, if the grant says so), and to an instance whose genuine
      evidence this mandate has seen for this identity within the witness time; the identity is then
      enrolled on that instance, at the place the evidence showed. */
  lemma MoveIsAuthorised(g: Config, ops: seq<Op>, m: Move, now: real)
    requires MoveVerdict(g, After(g, ops), m, now) == Transferred
    ensures var rec, grant := RecordAfter(g, ops, m.tik), m.grant.value;
            && !rec.revoked && rec.transferAuthority.Some?
            && g.c.signedBy(rec.transferAuthority.value, g.c.grantBytes(grant), m.signature)
            && grant.tik == m.tik && grant.notBefore <= Seconds(now) <= grant.notAfter
            && (grant.from_ == rec.enrolledInstance || (grant.from_.None? && grant.anyOrigin))
    ensures var rec' := Rec(Apply(g, After(g, ops), AcceptTransfer(m, now)).store, m.tik);
            exists w :: Verified(g, ops, m.tik, w) && Seconds(now) - w.at < g.witnessTtl
              && m.grant.value.to == Some(w.instance) == rec'.enrolledInstance && rec'.enrolledPlace == w.place
  {
    WitnessesWereVerified(g, ops, m.tik);
    RecordStep(g, After(g, ops), AcceptTransfer(m, now), m.tik);
    hide Run, Verified, Apply;
    var rec := RecordAfter(g, ops, m.tik);
    var w := FreshWitness(rec.witnessed, m.grant.value.to.value, Seconds(now), g.witnessTtl).value;
    assert Verified(g, ops, m.tik, w);
  }

  /** Nothing but an accepted enrolment or transfer of the identity itself changes its instance, and
      the authority over it is the one that enrolment names: none before, never another after. */
  lemma OnlyEnrolmentAndTransferMove(g: Config, ops: seq<Op>, op: Op, tik: Bytes)
    ensures var s := After(g, ops);
            var rec, rec' := Rec(s.store, tik), Rec(Apply(g, s, op).store, tik);
            && (rec'.enrolledInstance != rec.enrolledInstance ==>
                  || (rec.enrolledInstance.None? && EnrolAccepted(g, s, op) && op.e.tik == tik)
                  || (rec.enrolledInstance.Some? && MoveAccepted(g, s, op) && op.m.tik == tik))
            && (rec.enrolledInstance.None? ==>
                  && rec.transferAuthority.None?
                  && rec'.transferAuthority
                     == if EnrolAccepted(g, s, op) && op.e.tik == tik then op.e.transferAuthority else None)
            && (rec.enrolledInstance.Some? ==>
                  rec'.enrolledInstance.Some? && rec'.transferAuthority == rec.transferAuthority)
  {
    AuthorityNeedsEnrolment(g, ops, tik);
    EnrolStep(g, After(g, ops), op, tik);
    MoveStep(g, After(g, ops), op, tik);
    AuthorityStep(g, After(g, ops), op, tik);
    hide Apply, Run, EnrolAccepted, MoveAccepted, LastN;
  }

  lemma AuthorityStep(g: Config, s: State, op: Op, tik: Bytes)
    ensures var rec, rec' := Rec(s.store, tik), Rec(Apply(g, s, op).store, tik);
            if EnrolAccepted(g, s, op) && op.e.tik == tik then
              && rec.enrolledInstance.None? && rec'.enrolledInstance.Some?
              && (rec.transferAuthority.None? ==> rec'.transferAuthority == op.e.transferAuthority)
            else rec'.transferAuthority == rec.transferAuthority
  {
    hide Apply, LastN, PresentedRecord, PresentVerdict, Evidence, MoveVerdict, EnrolAnchor;
    RecordStep(g, s, op, tik);
  }

  lemma {:induction false} AuthorityNeedsEnrolment(g: Config, ops: seq<Op>, tik: Bytes)
    ensures var rec := RecordAfter(g, ops, tik);
            rec.enrolledInstance.None? ==> rec.transferAuthority.None?
    decreases |ops|
  {
    if ops != [] {
      var s, op := After(g, Front(ops)), Final(ops);
      AuthorityNeedsEnrolment(g, Front(ops), tik);
      EnrolStep(g, s, op, tik);
      MoveStep(g, s, op, tik);
      AuthorityStep(g, s, op, tik);
      hide Apply, EnrolAccepted, LastN;
    }
  }

  // ---------- revocation ----------

  /** Once revoked, an identity stays revoked through any run, and no presentation or transfer of it
      is ever accepted again. */
  lemma {:induction false} RevokedForever(g: Config, s: State, ops: seq<Op>, tik: Bytes)
    requires Rec(s.store, tik).revoked
    ensures var s' := Run(g, s, ops);
            && Rec(s'.store, tik).revoked
            && (forall p: Presentation | p.tik == tik :: PresentVerdict(g, s', p) == IdentityRevoked)
            && (forall m: Move, now | m.tik == tik :: MoveVerdict(g, s', m, now) == IdentityRevoked)
    decreases |ops|
  {
    if ops != [] {
      RevokedForever(g, s, Front(ops), tik);
      StaysRevoked(g, Run(g, s, Front(ops)), Final(ops), tik);
      hide Apply;
    }
  }

  lemma StaysRevoked(g: Config, s: State, op: Op, tik: Bytes)
    requires Rec(s.store, tik).revoked
    ensures Rec(Apply(g, s, op).store, tik).revoked
  {
    hide Apply, EnrolVerdict, PresentVerdict, PresentedRecord, Evidence, LastN;
    RecordStep(g, s, op, tik);
  }

  // ---------- the second-instance branch ----------

  /** No instance was observed, or the one observed is the one enrolled. */
  predicate Settled(rec: Record) {
    rec.observedInstance.None? || rec.observedInstance == rec.enrolledInstance
  }

  /** One operation keeps an enrolled, settled record so, under any policy. */
  lemma SettledStep(g: Config, s: State, op: Op, tik: Bytes)
    requires Settled(Rec(s.store, tik)) && Truthy(Rec(s.store, tik).enrolledInstance).Some?
    ensures Settled(Rec(Apply(g, s, op).store, tik))
  {
    hide Apply, HeadProblem, Evidence, MoveVerdict, ChainVerdict, PresentedRecord, LastN;
    RecordStep(g, s, op, tik);
  }

  /** A transfer never goes to the empty instance, so an identity once enrolled on a usable instance
      stays on usable ones. */
  lemma StaysEnrolled(g: Config, s: State, op: Op, tik: Bytes)
    requires Truthy(Rec(s.store, tik).enrolledInstance).Some?
    ensures Truthy(Rec(Apply(g, s, op).store, tik).enrolledInstance).Some?
  {
    hide Apply, PresentVerdict, PresentedRecord, Evidence, FreshWitness, LastN;
    RecordStep(g, s, op, tik);
  }

  /** ... and while nothing is enrolled, nothing is observed, if enrolment is required. */
  lemma UnobservedStep(g: Config, s: State, op: Op, tik: Bytes)
    requires g.requireEnrolment && Truthy(Rec(s.store, tik).enrolledInstance).None?
    requires Rec(s.store, tik).observedInstance.None?
    ensures Rec(Apply(g, s, op).store, tik).observedInstance.None?
  {
    hide Apply, HeadProblem, Evidence, EnrolVerdict, MoveVerdict, ChainVerdict, PresentedRecord, LastN;
    RecordStep(g, s, op, tik);
  }

  /** With enrolment required, the branch that reports a second instance under one identity can never
      be taken. */
  lemma {:induction false} NoContention(g: Config, ops: seq<Op>, tik: Bytes)
    requires g.requireEnrolment
    ensures var rec := RecordAfter(g, ops, tik);
            Settled(rec) && (Truthy(rec.enrolledInstance).None? ==> rec.observedInstance.None?)
    ensures forall p: Presentation | p.tik == tik :: PresentVerdict(g, After(g, ops), p) != SecondInstance
    decreases |ops|
  {
    if ops != [] {
      var s, op := After(g, Front(ops)), Final(ops);
      NoContention(g, Front(ops), tik);
      if Truthy(RecordAfter(g, Front(ops), tik).enrolledInstance).Some? {
        SettledStep(g, s, op, tik);
        StaysEnrolled(g, s, op, tik);
      } else {
        UnobservedStep(g, s, op, tik);
      }
    }
    hide Apply, PresentVerdict, Truthy;
    forall p: Presentation | p.tik == tik ensures PresentVerdict(g, After(g, ops), p) != SecondInstance {
      NoSecondInstance(g, After(g, ops), p);
    }
  }

  /** Exactly when the second-instance branch is taken: evidence of an instance that passed every check
      before, over a record that observed another one. */
  lemma SecondInstanceExactly(g: Config, s: State, p: Presentation)
    ensures var rec, i, place := Rec(s.store, p.tik), InstanceOf(Evidence(g, p)), PlaceOf(Evidence(g, p));
            PresentVerdict(g, s, p) == SecondInstance <==>
              && Screening(g, s, p).None?
              && i.Some? && Truthy(rec.observedInstance).Some? && i != Truthy(rec.observedInstance)
              && (if Truthy(rec.enrolledInstance).None? then !g.requireEnrolment else i == Truthy(rec.enrolledInstance))
              && (g.requirePlace ==> place.Some? && (Truthy(rec.enrolledPlace).Some? ==> place == rec.enrolledPlace))
  {
    hide Screening, Evidence, InstanceOf, PlaceOf, Truthy;
  }

  lemma NoSecondInstance(g: Config, s: State, p: Presentation)
    requires Settled(Rec(s.store, p.tik))
    requires g.requireEnrolment || Truthy(Rec(s.store, p.tik).enrolledInstance).Some?
    ensures PresentVerdict(g, s, p) != SecondInstance
  {
    hide PresentVerdict, Screening, Evidence;
    SecondInstanceExactly(g, s, p);
  }

  /** Under any policy, an identity that is enrolled and settled stays so, and the branch is never
      taken for it again. */
  lemma {:induction false} StaysSettled(g: Config, s: State, ops: seq<Op>, tik: Bytes)
    requires Settled(Rec(s.store, tik)) && Truthy(Rec(s.store, tik).enrolledInstance).Some?
    ensures var rec := Rec(Run(g, s, ops).store, tik); Settled(rec) && Truthy(rec.enrolledInstance).Some?
    ensures forall p: Presentation | p.tik == tik :: PresentVerdict(g, Run(g, s, ops), p) != SecondInstance
    decreases |ops|
  {
    hide Apply, PresentVerdict, Truthy, Settled;
    if ops != [] {
      StaysSettled(g, s, Front(ops), tik);
      SettledStep(g, Run(g, s, Front(ops)), Final(ops), tik);
      StaysEnrolled(g, Run(g, s, Front(ops)), Final(ops), tik);
    }
    forall p: Presentation | p.tik == tik ensures PresentVerdict(g, Run(g, s, ops), p) != SecondInstance {
      NoSecondInstance(g, Run(g, s, ops), p);
    }
  }

  /** Without the requirement the branch is live: after an acceptance from one instance of an identity
      that is not enrolled, the same step's successor from another instance takes it. */
  lemma SecondInstanceReached(g: Config, s: State, first: Op, q: Presentation)
    requires !g.requireEnrolment && !g.requirePlace && PresentAccepted(g, s, first) && q.tik == first.p.tik
    requires Truthy(Rec(s.store, q.tik).enrolledInstance).None?
    requires Truthy(InstanceOf(Evidence(g, first.p))).Some?
    requires InstanceOf(Evidence(g, q)).Some? && InstanceOf(Evidence(g, q)) != InstanceOf(Evidence(g, first.p))
    requires HeadProblem(g, Apply(g, s, first).roots, q).None?
    ensures PresentVerdict(g, Apply(g, s, first), q) == SecondInstance
  {
    AcceptedNotRevoked(g, s, first.p);
    RecordStep(g, s, first, q.tik);
    hide Apply, PresentVerdict, Evidence, HeadProblem;
    SecondInstanceExactly(g, Apply(g, s, first), q);
  }

  lemma AcceptedNotRevoked(g: Config, s: State, p: Presentation)
    requires PresentVerdict(g, s, p) == Accepted
    ensures !Rec(s.store, p.tik).revoked
  {
    hide Admission, HeadProblem, Evidence;
  }

  /** The enrolment settles the record exactly when no other instance was observed before it. */
  lemma EnrolmentSettles(g: Config, s: State, op: Op)
    requires EnrolAccepted(g, s, op)
    ensures var rec, rec' := Rec(s.store, op.e.tik), Rec(Apply(g, s, op).store, op.e.tik);
            Settled(rec') <==>
              rec.observedInstance.None? || rec.observedInstance == Some(EnrolAnchor(g, op.e).value.instance)
  {
    hide Apply, EnrolVerdict;
    RecordStep(g, s, op, op.e.tik);
  }

  /** Otherwise the identity is locked out: observed on one instance, enrolled on another. */
  predicate LockedOut(rec: Record) {
    && Truthy(rec.observedInstance).Some? && Truthy(rec.enrolledInstance).Some?
    && rec.observedInstance != rec.enrolledInstance
  }

  lemma LockedOutStep(g: Config, s: State, op: Op, tik: Bytes)
    requires LockedOut(Rec(s.store, tik)) && !(MoveAccepted(g, s, op) && op.m.tik == tik)
    ensures LockedOut(Rec(Apply(g, s, op).store, tik))
  {
    hide Apply, HeadProblem, Evidence, ChainVerdict, MoveVerdict, PresentedRecord, LastN;
    RecordStep(g, s, op, tik);
  }

  predicate NoMove(g: Config, s: State, ops: seq<Op>, tik: Bytes) {
    ops == [] || (NoMove(g, s, Front(ops), tik) && MoveOf(g, Run(g, s, Front(ops)), Final(ops), tik) == [])
  }

  /** A locked-out identity stays so until a transfer: no evidence that names an instance is accepted,
      not even the enrolled instance's own. This is what requiring enrolment excludes. */
  lemma {:induction false} LockedOutUntilMoved(g: Config, s: State, ops: seq<Op>, tik: Bytes)
    requires LockedOut(Rec(s.store, tik)) && NoMove(g, s, ops, tik)
    ensures var s' := Run(g, s, ops);
            && LockedOut(Rec(s'.store, tik))
            && forall p: Presentation | p.tik == tik && InstanceOf(Evidence(g, p)).Some?
                :: PresentVerdict(g, s', p) != Accepted
    decreases |ops|
  {
    if ops != [] {
      LockedOutUntilMoved(g, s, Front(ops), tik);
      LockedOutStep(g, Run(g, s, Front(ops)), Final(ops), tik);
    }
    hide Apply, LockedOut, PresentVerdict, Evidence, InstanceOf;
    var s' := Run(g, s, ops);
    forall p: Presentation | p.tik == tik && InstanceOf(Evidence(g, p)).Some?
      ensures PresentVerdict(g, s', p) != Accepted
    {
      LockedOutRefuses(g, s', p);
    }
  }

  lemma LockedOutRefuses(g: Config, s: State, p: Presentation)
    requires LockedOut(Rec(s.store, p.tik)) && InstanceOf(Evidence(g, p)).Some?
    ensures PresentVerdict(g, s, p) != Accepted
  {
    hide HeadProblem, ChainVerdict, Evidence;
  }

  /** What its own enrolled instance meets is the second-instance branch. */
  lemma LockedOutMeetsTheBranch(g: Config, s: State, p: Presentation)
    requires LockedOut(Rec(s.store, p.tik)) && !Rec(s.store, p.tik).revoked && HeadProblem(g, s.roots, p).None?
    requires InstanceOf(Evidence(g, p)) == Rec(s.store, p.tik).enrolledInstance
    requires g.requirePlace ==>
      PlaceOf(Evidence(g, p)).Some? && PlaceOf(Evidence(g, p)) == Rec(s.store, p.tik).enrolledPlace
    ensures PresentVerdict(g, s, p) == SecondInstance
  {
    hide PresentVerdict, Evidence, HeadProblem;
    SecondInstanceExactly(g, s, p);
  }

  /** Under a policy that does not require enrolment, an unenrolled identity accepted from one
      instance and then enrolled on another is locked out. */
  lemma EarlyAcceptanceLocksOut(g: Config, s: State, accepted: Op, enrol: Op)
    requires PresentAccepted(g, s, accepted) && Truthy(InstanceOf(Evidence(g, accepted.p))).Some?
    requires EnrolAccepted(g, Apply(g, s, accepted), enrol) && enrol.e.tik == accepted.p.tik
    requires Truthy(Some(EnrolAnchor(g, enrol.e).value.instance)).Some?
    requires InstanceOf(Evidence(g, accepted.p)) != Some(EnrolAnchor(g, enrol.e).value.instance)
    ensures LockedOut(Rec(Apply(g, Apply(g, s, accepted), enrol).store, enrol.e.tik))
  {
    hide Apply, EnrolVerdict, PresentVerdict, Evidence;
    RecordStep(g, s, accepted, enrol.e.tik);
    RecordStep(g, Apply(g, s, accepted), enrol, enrol.e.tik);
  }

  // ---------- enrolment nonces ----------

  /** The nonces issued, and the nonces spent by successful enrolments, in order. */
  function Issued(ops: seq<Op>): seq<Bytes> {
    if ops == [] then []
    else Issued(Front(ops)) + if Final(ops).Challenge? then [Final(ops).nonce] else []
  }

  function Spent(g: Config, ops: seq<Op>): seq<Bytes> {
    if ops == [] then []
    else Spent(g, Front(ops))
         + if EnrolAccepted(g, After(g, Front(ops)), Final(ops)) then [Final(ops).e.nonce] else []
  }

  /** Every nonce still open was issued, expires its time to live after that, and is not spent. */
  ghost predicate OpenNonces(g: Config, ops: seq<Op>) {
    forall x :: x in After(g, ops).challenges ==>
      && x in Issued(ops) && x !in Spent(g, ops)
      && exists i :: 0 <= i < |ops| && IssuedBy(g, ops[i], x, After(g, ops).challenges[x])
  }

  predicate IssuedBy(g: Config, op: Op, nonce: Bytes, expiry: real) {
    op.Challenge? && op.nonce == nonce && expiry == op.now + g.challengeTtl
  }

  ghost predicate SpentWereIssued(g: Config, ops: seq<Op>) {
    Distinct(Spent(g, ops)) && forall x :: x in Spent(g, ops) ==> x in Issued(ops)
  }

  lemma ChallengesStep(g: Config, s: State, op: Op)
    ensures var s' := Apply(g, s, op);
            forall x :: x in s'.challenges ==>
              || (x in s.challenges && s'.challenges[x] == s.challenges[x]
                  && !(EnrolAccepted(g, s, op) && op.e.nonce == x))
              || IssuedBy(g, op, x, s'.challenges[x])
    ensures EnrolAccepted(g, s, op) ==> op.e.nonce in s.challenges && s.challenges[op.e.nonce] > op.now
  {
    hide PresentVerdict, PresentedRecord, PresentedInstance, Evidence, MoveVerdict, MovedRecord, Leaves, Root,
         EnrolAnchor, EnrolledRecord;
  }

  /** With fresh challenges, every nonce backs at most one successful enrolment. */
  lemma {:induction false} NoncesAreConserved(g: Config, ops: seq<Op>)
    requires Distinct(Issued(ops))
    ensures OpenNonces(g, ops) && SpentWereIssued(g, ops)
    decreases |ops|
  {
    if ops != [] {
      DistinctFront(Issued(Front(ops)), Issued(ops));
      NoncesAreConserved(g, Front(ops));
      OpenNoncesStep(g, ops);
      SpentStep(g, ops);
    }
  }

  lemma SpentStep(g: Config, ops: seq<Op>)
    requires ops != [] && OpenNonces(g, Front(ops)) && SpentWereIssued(g, Front(ops))
    ensures SpentWereIssued(g, ops)
  {
    hide Run, Apply, EnrolAccepted, IssuedBy;
    ChallengesStep(g, After(g, Front(ops)), Final(ops));
  }

  lemma OpenNoncesStep(g: Config, ops: seq<Op>)
    requires ops != [] && Distinct(Issued(ops)) && OpenNonces(g, Front(ops)) && SpentWereIssued(g, Front(ops))
    ensures OpenNonces(g, ops)
  {
    var before, op, now := Front(ops), Final(ops), After(g, ops).challenges;
    ChallengesStep(g, After(g, before), op);
    assert After(g, ops) == Apply(g, After(g, before), op);
    hide Run, Apply, EnrolAccepted;
    forall x | x in now
      ensures x in Issued(ops) && x !in Spent(g, ops)
      ensures exists i :: 0 <= i < |ops| && IssuedBy(g, ops[i], x, now[x])
    {
      if IssuedBy(g, op, x, now[x]) {
        assert IssuedBy(g, ops[|ops| - 1], x, now[x]);
        NewestIsNew(Issued(before), x);
      } else {
        var i :| 0 <= i < |before| && IssuedBy(g, before[i], x, now[x]);
        assert IssuedBy(g, ops[i], x, now[x]);
      }
    }
  }

  lemma NewestIsNew<T>(s: seq<T>, x: T)
    requires Distinct(s + [x])
    ensures x !in s
  {
    assert forall i | 0 <= i < |s| :: s[i] == (s + [x])[i];
    assert (s + [x])[|s|] == x;
  }

  lemma DistinctFront<T>(s: seq<T>, t: seq<T>)
    requires s <= t && Distinct(t)
    ensures Distinct(s)
  {
  }

  lemma {:induction false} SubsetCount<T>(s: seq<T>, t: seq<T>)
    requires Distinct(s) && forall x :: x in s ==> x in t
    ensures |s| <= |t|
    decreases |s|
  {
    if s != [] {
      var n := |s| - 1;
      assert s[n] in s;
      var i :| 0 <= i < |t| && t[i] == s[n];
      var s', t' := s[..n], t[..i] + t[i + 1..];
      forall y | y in s' ensures y in t' {
        assert y in s && y != s[n];
        var j :| 0 <= j < |t| && t[j] == y;
        assert y == t'[if j < i then j else j - 1];
      }
      SubsetCount(s', t');
    }
  }

  /** Successful enrolments never outnumber the challenges issued. */
  lemma EnrolmentsNeedChallenges(g: Config, ops: seq<Op>)
    requires Distinct(Issued(ops))
    ensures |Spent(g, ops)| <= |Issued(ops)|
  {
    NoncesAreConserved(g, ops);
    SubsetCount(Spent(g, ops), Issued(ops));
  }

  /** A successful enrolment rests on an unexpired challenge of this mandate, on a request that carries
      the key being enrolled, and on genuine evidence over exactly that challenge and that request. */
  lemma EnrolmentIsGrounded(g: Config, ops: seq<Op>, e: Enrolment, now: real)
    requires Distinct(Issued(ops)) && EnrolVerdict(g, After(g, ops), e, now) == Enrolled
    ensures e.nonce !in Spent(g, ops)
    ensures exists i ::
      0 <= i < |ops| && ops[i].Challenge? && ops[i].nonce == e.nonce && now < ops[i].now + g.challengeTtl
    ensures g.c.csrKey(e.csr) == Some(e.tik)
    ensures g.c.verifyReport(e.evidence, g.c.sha512(e.nonce + e.csr)) == Genuine(EnrolAnchor(g, e))
    ensures g.enrolmentAuthority.Some? ==>
              && e.authorisation.Some? && e.authorisationSig.Some?
              && e.authorisation.value.tik == e.tik && e.authorisation.value.nonce == e.nonce
              && e.authorisation.value.notBefore <= Seconds(now) <= e.authorisation.value.notAfter
              && g.c.signedBy(g.enrolmentAuthority.value, g.c.authorisationBytes(e.authorisation.value),
                  e.authorisationSig.value)
  {
    NoncesAreConserved(g, ops);
    hide Run;
    var expiry := After(g, ops).challenges[e.nonce];
    var i :| 0 <= i < |ops| && IssuedBy(g, ops[i], e.nonce, expiry);
    assert ops[i].nonce == e.nonce;
  }
}
