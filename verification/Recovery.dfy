// Moving an identity off a machine that is gone: the new instance is refused but witnessed, the
// owner signs a grant, and the new instance takes over (hatls/protocol.py, hatls/transfer.py).
module Recovery {
  import opened Octets
  import opened Primitives
  import opened Ledger
  import opened Runs
  import opened Identities
  import opened Continuity

  // ---------- how long a witness lasts ----------

  /** One witness of each instance in `others`, all fresh at second `at`. */
  ghost predicate Roll(ws: seq<Witness>, others: set<Bytes>, at: int, ttl: int) {
    if ws == [] then others == {}
    else
      && ws[0].instance in others && at - ws[0].at < ttl
      && Roll(ws[1..], others - {ws[0].instance}, at, ttl)
  }

  lemma {:induction false} RollSize(ws: seq<Witness>, others: set<Bytes>, at: int, ttl: int)
    requires Roll(ws, others, at, ttl)
    ensures |ws| == |others| && forall w :: w in ws ==> w.instance in others
    decreases |ws|
  {
    if ws != [] { RollSize(ws[1..], others - {ws[0].instance}, at, ttl); }
  }

  /** A new witness of x, no later than `at`, makes the record forget the old one of x and no other. */
  lemma {:induction false} RollStays(ws: seq<Witness>, others: set<Bytes>, x: Bytes, now: int, at: int, ttl: int)
    requires Roll(ws, others, at, ttl) && now <= at
    ensures Roll(StillSeen(ws, x, now, ttl), others - {x}, at, ttl)
    decreases |ws|
  {
    if ws == [] {
      assert others - {x} == {};
    } else {
      var h, rest := ws[0].instance, StillSeen(ws[1..], x, now, ttl);
      RollStays(ws[1..], others - {h}, x, now, at, ttl);
      if h == x {
        assert others - {h} - {x} == others - {x};
      } else {
        assert others - {h} - {x} == others - {x} - {h};
        RollPrepend(ws[0], rest, others - {x}, at, ttl);
      }
    }
  }

  lemma RollPrepend(w: Witness, ws: seq<Witness>, others: set<Bytes>, at: int, ttl: int)
    requires w.instance in others && at - w.at < ttl && Roll(ws, others - {w.instance}, at, ttl)
    ensures Roll([w] + ws, others, at, ttl)
  {
    assert ([w] + ws)[1..] == ws;
  }

  lemma {:induction false} RollAppend(ws: seq<Witness>, others: set<Bytes>, w: Witness, at: int, ttl: int)
    requires Roll(ws, others, at, ttl) && w.instance !in others && at - w.at < ttl
    ensures Roll(ws + [w], others + {w.instance}, at, ttl)
    decreases |ws|
  {
    if ws == [] {
      assert ws + [w] == [w] + [] && others + {w.instance} - {w.instance} == {};
      RollPrepend(w, [], others + {w.instance}, at, ttl);
    } else {
      var h := ws[0].instance;
      RollAppend(ws[1..], others - {h}, w, at, ttl);
      assert ws + [w] == [ws[0]] + (ws[1..] + [w]) && others - {h} + {w.instance} == others + {w.instance} - {h};
      RollPrepend(ws[0], ws[1..] + [w], others + {w.instance}, at, ttl);
    }
  }

  lemma {:induction false} StillSeenSplit(a: seq<Witness>, b: seq<Witness>, x: Bytes, now: int, ttl: int)
    ensures StillSeen(a + b, x, now, ttl) == StillSeen(a, x, now, ttl) + StillSeen(b, x, now, ttl)
    decreases |a|
  {
    if a == [] {
      assert a + b == b;
    } else {
      var ab := a + b;
      assert ab[0] == a[0] && ab[1..] == a[1..] + b;
      hide StillSeen;
      StillSeenHead(ab, x, now, ttl);
      StillSeenHead(a, x, now, ttl);
      StillSeenSplit(a[1..], b, x, now, ttl);
      Regroup(a[0], StillSeen(a[1..], x, now, ttl), StillSeen(b, x, now, ttl));
    }
  }

  lemma StillSeenHead(ws: seq<Witness>, x: Bytes, now: int, ttl: int)
    requires ws != []
    ensures var rest := StillSeen(ws[1..], x, now, ttl);
            StillSeen(ws, x, now, ttl) == if ws[0].instance != x && now - ws[0].at < ttl then [ws[0]] + rest else rest
  {
  }

  lemma Regroup<T>(x: T, s: seq<T>, t: seq<T>)
    ensures [x] + (s + t) == ([x] + s) + t
  {
  }

  lemma StillSeenFirst(w: Witness, ws: seq<Witness>, x: Bytes, now: int, ttl: int)
    ensures StillSeen([w] + ws, x, now, ttl)
         == if w.instance != x && now - w.at < ttl then [w] + StillSeen(ws, x, now, ttl) else StillSeen(ws, x, now, ttl)
  {
    assert ([w] + ws)[1..] == ws;
  }

  /** The list ends with a fresh witness of `to` and a roll of `others`. */
  ghost predicate EndsAt(ws: seq<Witness>, i: int, to: Bytes, others: set<Bytes>, at: int, ttl: int) {
    0 <= i < |ws| && ws[i].instance == to && at - ws[i].at < ttl && Roll(ws[i + 1..], others, at, ttl)
  }

  /** `others` are the instances witnessed since `to` was. Room is for 32 in all. */
  ghost predicate Holds(ws: seq<Witness>, to: Bytes, others: set<Bytes>, at: int, ttl: int) {
    && to !in others
    && if |others| < 32 then exists i :: EndsAt(ws, i, to, others, at, ttl)
       else forall w :: w in ws ==> w.instance != to
  }

  lemma HoldsAgain(seen: seq<Witness>, w: Witness, at: int, ttl: int)
    requires at - w.at < ttl
    ensures Holds(LastN(seen + [w], 32), w.instance, {}, at, ttl)
  {
    var next := LastN(seen + [w], 32);
    assert next[|next| - 1] == w && next[|next|..] == [];
    assert EndsAt(next, |next| - 1, w.instance, {}, at, ttl);
  }

  /** The end of the list after a witness of another instance. */
  lemma EndMoves(ws: seq<Witness>, i: int, to: Bytes, others: set<Bytes>, w: Witness, at: int, ttl: int)
    returns (before: seq<Witness>, after: seq<Witness>)
    requires EndsAt(ws, i, to, others, at, ttl) && w.instance != to && w.at <= at < w.at + ttl
    ensures StillSeen(ws, w.instance, w.at, ttl) + [w] == before + [ws[i]] + after
    ensures Roll(after, others + {w.instance}, at, ttl)
  {
    hide StillSeen, Roll;
    var x, now, tail := w.instance, w.at, ws[i + 1..];
    var kept := StillSeen(tail, x, now, ttl);
    before, after := StillSeen(ws[..i], x, now, ttl), kept + [w];
    RollStays(tail, others, x, now, at, ttl);
    RollAppend(kept, others - {x}, w, at, ttl);
    assert others - {x} + {x} == others + {x};
    StillSeenSplit(ws[..i], [ws[i]] + tail, x, now, ttl);
    assert ws == ws[..i] + ([ws[i]] + tail);
    StillSeenFirst(ws[i], tail, x, now, ttl);
    RegroupFour(before, ws[i], kept, w);
  }

  lemma RegroupFour<T>(a: seq<T>, x: T, b: seq<T>, y: T)
    ensures (a + ([x] + b)) + [y] == a + [x] + (b + [y])
  {
  }

  lemma LastOfParts<T>(before: seq<T>, x: T, after: seq<T>, n: nat)
    requires |after| <= n
    ensures var r := LastN(before + [x] + after, n);
            if |after| == n then r == after
            else |r| > |after| && r[|r| - |after| - 1] == x && r[|r| - |after|..] == after
  {
  }

  lemma HoldsStep(ws: seq<Witness>, to: Bytes, others: set<Bytes>, w: Witness, at: int, ttl: int)
    requires Holds(ws, to, others, at, ttl) && w.instance != to && w.at <= at < w.at + ttl
    ensures Holds(LastN(StillSeen(ws, w.instance, w.at, ttl) + [w], 32), to, others + {w.instance}, at, ttl)
  {
    hide StillSeen, LastN, Roll;
    SizeOfAdded(others, w.instance);
    if |others| < 32 {
      var i :| EndsAt(ws, i, to, others, at, ttl);
      var before, after := EndMoves(ws, i, to, others, w, at, ttl);
      HoldsEnd(before, ws[i], after, to, others + {w.instance}, at, ttl);
    } else {
      InLastN(StillSeen(ws, w.instance, w.at, ttl) + [w], 32);
    }
  }

  lemma HoldsEnd(before: seq<Witness>, w: Witness, after: seq<Witness>, to: Bytes, others: set<Bytes>, at: int,
                 ttl: int)
    requires w.instance == to && at - w.at < ttl && Roll(after, others, at, ttl) && to !in others && |others| <= 32
    ensures Holds(LastN(before + [w] + after, 32), to, others, at, ttl)
  {
    hide Roll, LastN;
    var next := LastN(before + [w] + after, 32);
    RollSize(after, others, at, ttl);
    LastOfParts(before, w, after, 32);
    if |others| < 32 {
      assert next[|next| - |after| - 1 + 1..] == after;
      assert EndsAt(next, |next| - |after| - 1, to, others, at, ttl);
    }
  }

  lemma SizeOfAdded(s: set<Bytes>, x: Bytes)
    ensures |s + {x}| == if x in s then |s| else |s| + 1
  {
    if x in s { assert s + {x} == s; }
  }

  lemma InLastN<T>(s: seq<T>, n: nat)
    ensures forall x :: x in LastN(s, n) ==> x in s
  {
  }

  // ---------- over a run ----------

  /** The operation adds a witness to the record of `tik`. */
  predicate Witnesses(g: Config, s: State, op: Op, tik: Bytes) {
    op.Present? && op.p.tik == tik && PresentVerdict(g, s, op.p) in {Impostor, SecondInstance}
  }

  /** Nothing that would end or move the identity; new witnesses come within the witness time. */
  predicate Passes(g: Config, s: State, op: Op, tik: Bytes, at: int) {
    && !(op.Revoke? && op.tik == tik) && !(MoveAccepted(g, s, op) && op.m.tik == tik)
    && (Witnesses(g, s, op, tik) ==> Seconds(op.now) <= at < Seconds(op.now) + g.witnessTtl)
  }

  ghost predicate AllPass(g: Config, s: State, ops: seq<Op>, tik: Bytes, at: int) {
    ops == [] || (AllPass(g, s, Front(ops), tik, at) && Passes(g, Run(g, s, Front(ops)), Final(ops), tik, at))
  }

  /** The other instances witnessed for `tik` since `to` last was. */
  function OthersSince(g: Config, s: State, ops: seq<Op>, tik: Bytes, to: Bytes): set<Bytes> {
    if ops == [] then {}
    else OthersAfter(g, Run(g, s, Front(ops)), Final(ops), tik, to, OthersSince(g, s, Front(ops), tik, to))
  }

  function OthersAfter(g: Config, s: State, op: Op, tik: Bytes, to: Bytes, others: set<Bytes>): set<Bytes> {
    if !Witnesses(g, s, op, tik) then others
    else
      var x := InstanceOf(Evidence(g, op.p)).value;
      if x == to then {} else others + {x}
  }

  /** What a transfer will look at, beside the witnesses. */
  predicate SameOwnership(r: Record, r': Record) {
    && r'.revoked == r.revoked && r'.enrolledInstance == r.enrolledInstance
    && r'.transferAuthority == r.transferAuthority && r'.consumedGrants == r.consumedGrants
  }

  lemma OwnershipStep(g: Config, s: State, op: Op, tik: Bytes, at: int)
    requires Passes(g, s, op, tik, at) && Rec(s.store, tik).enrolledInstance.Some?
    ensures SameOwnership(Rec(s.store, tik), Rec(Apply(g, s, op).store, tik))
  {
    hide Apply, PresentVerdict, PresentedRecord, Evidence, MoveVerdict, MovedRecord;
    RecordStep(g, s, op, tik);
  }

  lemma WitnessedStep(g: Config, s: State, op: Op, tik: Bytes, to: Bytes, at: int, others: set<Bytes>)
    requires Passes(g, s, op, tik, at) && Holds(Rec(s.store, tik).witnessed, to, others, at, g.witnessTtl)
    ensures Holds(Rec(Apply(g, s, op).store, tik).witnessed, to, OthersAfter(g, s, op, tik, to, others), at,
        g.witnessTtl)
  {
    hide Apply, PresentVerdict, Evidence, MoveVerdict, MovedRecord, EnrolVerdict, Holds, LastN, StillSeen;
    if Witnesses(g, s, op, tik) {
      RecordStep(g, s, op, tik);
      var a, rec := Evidence(g, op.p), Rec(s.store, tik);
      WitnessFirst(g, rec, a, PresentVerdict(g, s, op.p), Seconds(op.now));
      var w := Witness(InstanceOf(a).value, Truthy(PlaceOf(a)), Seconds(op.now));
      if w.instance == to {
        HoldsAgain(StillSeen(rec.witnessed, to, w.at, g.witnessTtl), w, at, g.witnessTtl);
      } else {
        HoldsStep(rec.witnessed, to, others, w, at, g.witnessTtl);
      }
    } else {
      WitnessedElsewhere(g, s, op, tik);
    }
  }

  lemma WitnessFirst(g: Config, rec: Record, a: Appraisal, why: Reason, at: int)
    requires why in {Impostor, SecondInstance} && InstanceOf(a).Some?
    ensures PresentedRecord(g, rec, a, why, at).witnessed
         == WithWitness(g, rec, InstanceOf(a).value, PlaceOf(a), at).witnessed
  {
    hide WithWitness;
  }

  lemma WitnessedElsewhere(g: Config, s: State, op: Op, tik: Bytes)
    requires !Witnesses(g, s, op, tik)
    ensures Rec(Apply(g, s, op).store, tik).witnessed == Rec(s.store, tik).witnessed
  {
    hide Apply, PresentVerdict, Evidence, MoveVerdict, EnrolVerdict, WithWitness;
    RecordStep(g, s, op, tik);
  }

  /** A witness lasts exactly until 32 other instances have been witnessed after it. */
  lemma {:induction false} WitnessLasts(g: Config, s: State, ops: seq<Op>, tik: Bytes, to: Bytes, at: int)
    requires Holds(Rec(s.store, tik).witnessed, to, {}, at, g.witnessTtl) && Rec(s.store, tik).enrolledInstance.Some?
    requires AllPass(g, s, ops, tik, at)
    ensures var rec, rec' := Rec(s.store, tik), Rec(Run(g, s, ops).store, tik);
            && SameOwnership(rec, rec')
            && Holds(rec'.witnessed, to, OthersSince(g, s, ops, tik, to), at, g.witnessTtl)
    decreases |ops|
  {
    if ops != [] {
      hide Passes, OthersAfter, Holds, Apply;
      WitnessLasts(g, s, Front(ops), tik, to, at);
      var before, op := Run(g, s, Front(ops)), Final(ops);
      OwnershipStep(g, before, op, tik, at);
      WitnessedStep(g, before, op, tik, to, at, OthersSince(g, s, Front(ops), tik, to));
    }
  }

  // ---------- the way over ----------

  /** A refused impostor is on record at once, as the newest witness. */
  lemma ImpostorIsWitnessed(g: Config, s: State, p: Presentation, now: real, at: int)
    requires PresentVerdict(g, s, p) == Impostor && Seconds(now) <= at < Seconds(now) + g.witnessTtl
    ensures var rec, rec' := Rec(s.store, p.tik), Rec(Apply(g, s, Present(p, now)).store, p.tik);
            SameOwnership(rec, rec') && Holds(rec'.witnessed, InstanceOf(Evidence(g, p)).value, {}, at, g.witnessTtl)
  {
    hide Apply, PresentVerdict, Evidence, Holds, StillSeen, LastN;
    RecordStep(g, s, Present(p, now), p.tik);
    var a, rec := Evidence(g, p), Rec(s.store, p.tik);
    WitnessFirst(g, rec, a, Impostor, Seconds(now));
    var w := Witness(InstanceOf(a).value, Truthy(PlaceOf(a)), Seconds(now));
    HoldsAgain(StillSeen(rec.witnessed, w.instance, w.at, g.witnessTtl), w, at, g.witnessTtl);
  }

  /** A grant that fits the identity as `rec` has it, and leads to this instance. */
  predicate GrantFits(g: Config, rec: Record, m: Move, to: Bytes, at: int) {
    && GrantStands(g, rec, m, at) && m.grant.value.nonce !in rec.consumedGrants
    && GrantLeads(rec, m.grant.value) && m.grant.value.to.value == to
  }

  lemma SeenWhileHeld(g: Config, rec: Record, to: Bytes, others: set<Bytes>, at: int)
    requires Holds(rec.witnessed, to, others, at, g.witnessTtl)
    ensures Seen(g, rec, to, at) <==> |others| < 32
  {
    if |others| < 32 {
      var i :| EndsAt(rec.witnessed, i, to, others, at, g.witnessTtl);
      assert rec.witnessed[i] in rec.witnessed;
    }
  }

  lemma GrantStillFits(g: Config, rec: Record, rec': Record, m: Move, to: Bytes, at: int)
    requires GrantFits(g, rec, m, to, at) && SameOwnership(rec, rec')
    ensures GrantFits(g, rec', m, to, at)
  {
  }

  lemma FittingGrantMoves(g: Config, rec: Record, s: State, m: Move, now: real, to: Bytes, others: set<Bytes>)
    requires GrantFits(g, rec, m, to, Seconds(now)) && SameOwnership(rec, Rec(s.store, m.tik))
    requires Holds(Rec(s.store, m.tik).witnessed, to, others, Seconds(now), g.witnessTtl)
    ensures MoveVerdict(g, s, m, now) == if |others| < 32 then Transferred else GrantUnwitnessed
  {
    GrantStillFits(g, rec, Rec(s.store, m.tik), m, to, Seconds(now));
    hide MoveVerdict, Holds, Seen, SameOwnership, GrantStands, GrantLeads, GrantReadable, GrantSound, OriginFits;
    MoveExactly(g, s, m, now);
    SeenWhileHeld(g, Rec(s.store, m.tik), to, others, Seconds(now));
  }

  /** The recovery of an identity whose instance is gone: a new instance that presents genuine
      evidence is refused, and within the witness time the owner's grant for it is accepted, whatever
      else was served meanwhile, exactly if fewer than 32 other instances were witnessed for this
      identity since the new one last was. */
  lemma RecoveryWorks(g: Config, s: State, p: Presentation, now: real, ops: seq<Op>, m: Move, later: real)
    requires PresentVerdict(g, s, p) == Impostor && m.tik == p.tik
    requires Seconds(now) <= Seconds(later) < Seconds(now) + g.witnessTtl
    requires GrantFits(g, Rec(s.store, p.tik), m, InstanceOf(Evidence(g, p)).value, Seconds(later))
    requires AllPass(g, Apply(g, s, Present(p, now)), ops, p.tik, Seconds(later))
    ensures var s1, to := Apply(g, s, Present(p, now)), InstanceOf(Evidence(g, p)).value;
            MoveVerdict(g, Run(g, s1, ops), m, later)
            == if |OthersSince(g, s1, ops, p.tik, to)| < 32 then Transferred else GrantUnwitnessed
  {
    assert GrantStands(g, Rec(s.store, p.tik), m, Seconds(later));
    hide Apply, PresentVerdict, Evidence, Holds, Run, MoveVerdict, GrantFits, AllPass, OthersSince, InstanceOf;
    var s1, to := Apply(g, s, Present(p, now)), InstanceOf(Evidence(g, p)).value;
    ImpostorIsWitnessed(g, s, p, now, Seconds(later));
    WitnessLasts(g, s1, ops, p.tik, to, Seconds(later));
    FittingGrantMoves(g, Rec(s.store, p.tik), Run(g, s1, ops), m, later, to, OthersSince(g, s1, ops, p.tik, to));
  }

  /** After any accepted transfer the identity lives on the new instance and nowhere else: no chain of
      it is left, an attester there can start a new one, and evidence of any other instance is refused. */
  lemma TransferHandsOver(g: Config, s: State, m: Move, now: real)
    requires MoveVerdict(g, s, m, now) == Transferred
    ensures var s', to := Apply(g, s, AcceptTransfer(m, now)), m.grant.value.to;
            && (forall key :: key in s'.sessions ==> key.0 != m.tik)
            && (forall a: Honest | a.tik == m.tik && a.exporters == [] && to == Some(a.instance)
                  && (g.requirePlace ==> a.place.Some? && (Truthy(Rec(s'.store, m.tik).enrolledPlace).Some? ==>
                                                             a.place == Rec(s'.store, m.tik).enrolledPlace))
                  :: Ready(g, s', a))
            && (forall q: Presentation | q.tik == m.tik && InstanceOf(Evidence(g, q)).Some?
                && InstanceOf(Evidence(g, q)) != to
                  :: PresentVerdict(g, s', q) != Accepted)
  {
    MovedStanding(g, s, m, now);
    SessionsStep(g, s, AcceptTransfer(m, now));
    hide Apply, MoveVerdict, PresentVerdict, Evidence;
    var s', to := Apply(g, s, AcceptTransfer(m, now)), m.grant.value.to;
    forall q: Presentation | q.tik == m.tik && InstanceOf(Evidence(g, q)).Some? && InstanceOf(Evidence(g, q)) != to
      ensures PresentVerdict(g, s', q) != Accepted
    {
      OthersRefused(g, s', q, to.value);
    }
  }

  lemma MovedStanding(g: Config, s: State, m: Move, now: real)
    requires MoveVerdict(g, s, m, now) == Transferred
    ensures var rec' := Rec(Apply(g, s, AcceptTransfer(m, now)).store, m.tik);
            && !rec'.revoked && rec'.observedInstance.None?
            && rec'.enrolledInstance == m.grant.value.to && m.grant.value.to.Some? && m.grant.value.to.value != []
  {
    RecordStep(g, s, AcceptTransfer(m, now), m.tik);
    hide Apply, LastN, FreshWitness;
  }

  lemma OthersRefused(g: Config, s: State, q: Presentation, to: Bytes)
    requires Rec(s.store, q.tik).enrolledInstance == Some(to) && to != []
    requires InstanceOf(Evidence(g, q)).Some? && InstanceOf(Evidence(g, q)) != Some(to)
    ensures PresentVerdict(g, s, q) != Accepted
  {
    hide HeadProblem, Evidence, ChainVerdict;
  }
}
