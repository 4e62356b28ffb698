// What the two verifiers of MerkleTree are worth: they accept exactly the honest proofs, up to
// an explicit collision among the byte strings hashed on the way.
module MerkleTheorems {
  import opened Octets
  import opened MerkleTree

  // ---------- the inputs a computation hashes ----------

  /** Everything hashed by `Root`. */
  ghost function RootInputs(h: Hash, leaves: seq<Bytes>): set<Bytes>
    decreases |leaves|
  {
    var n := |leaves|;
    if n == 0 then {[]}
    else if n == 1 then {LeafInput(leaves[0])}
    else
      var l, r := leaves[..K(n)], leaves[K(n)..];
      {NodeInput(Root(h, l), Root(h, r))} + RootInputs(h, l) + RootInputs(h, r)
  }

  ghost function StepInput(side: Side, sibling: Bytes, below: Bytes): Bytes {
    if side == OnLeft then NodeInput(sibling, below) else NodeInput(below, sibling)
  }

  /** Everything hashed by `RootFrom`. */
  ghost function FoldInputs(h: Hash, node: Bytes, turns: seq<Side>, proof: seq<Bytes>): set<Bytes>
    requires |turns| == |proof|
  {
    if turns == [] then {}
    else
      var i := |turns| - 1;
      {StepInput(turns[i], proof[i], RootFrom(h, node, turns[..i], proof[..i]))}
      + FoldInputs(h, node, turns[..i], proof[..i])
  }

  /** Everything hashed by `OldRootFrom`. */
  ghost function OldFoldInputs(h: Hash, node: Bytes, turns: seq<Side>, proof: seq<Bytes>): set<Bytes>
    requires |turns| == |proof|
  {
    if turns == [] then {}
    else
      var i := |turns| - 1;
      (if turns[i] == OnLeft then {NodeInput(proof[i], OldRootFrom(h, node, turns[..i], proof[..i]))} else {})
      + OldFoldInputs(h, node, turns[..i], proof[..i])
  }

  /** The inputs of one run of the inclusion verifier and of the root it is held against. */
  ghost function InclusionInputs(h: Hash, leaves: seq<Bytes>, entry: Bytes, m: int, proof: seq<Bytes>): set<Bytes> {
    RootInputs(h, leaves) + {LeafInput(entry)}
    + if 0 <= m < |leaves| && |proof| == |Turns(m, |leaves|)|
      then FoldInputs(h, LeafHash(h, entry), Turns(m, |leaves|), proof) else {}
  }

  /** The inputs of one run of the consistency verifier and of the two roots. */
  ghost function ConsistencyInputs(h: Hash, a: seq<Bytes>, b: seq<Bytes>, proof: seq<Bytes>): set<Bytes> {
    var m, n := |a|, |b|;
    var p := if IsPow2(m) then [Root(h, a)] + proof else proof;
    RootInputs(h, a) + RootInputs(h, b)
    + if 0 < m < n && p != [] && |p| - 1 == |PrefixTurns(m, n)|
      then FoldInputs(h, p[0], PrefixTurns(m, n), p[1..]) + OldFoldInputs(h, p[0], PrefixTurns(m, n), p[1..])
      else {}
  }

  // ---------- injectivity of the encodings and of the tree hash ----------

  lemma NodeInputInjective(l: Bytes, r: Bytes, l': Bytes, r': Bytes)
    requires NodeInput(l, r) == NodeInput(l', r')
    requires |l| == |l'| || |r| == |r'|
    ensures l == l' && r == r'
  {
    var x, y := NodeInput(l, r), NodeInput(l', r');
    assert |l| == |l'|;
    assert l == x[1..1 + |l|] && l' == y[1..1 + |l|];
    assert r == x[1 + |l|..] && r' == y[1 + |l|..];
  }

  lemma LeafInputInjective(e: Bytes, e': Bytes)
    requires LeafInput(e) == LeafInput(e')
    ensures e == e'
  {
    assert e == LeafInput(e)[1..] && e' == LeafInput(e')[1..];
  }

  /** Without a collision, equal node hashes have equal children, provided one pair of children
      has the same length. */
  lemma NodeHashInjective(h: Hash, inputs: set<Bytes>, l: Bytes, r: Bytes, l': Bytes, r': Bytes)
    requires !Collides(h, inputs) && NodeInput(l, r) in inputs && NodeInput(l', r') in inputs
    requires |l| == |l'| || |r| == |r'|
    requires NodeHash(h, l, r) == NodeHash(h, l', r')
    ensures l == l' && r == r'
  {
    NoCollision(h, inputs, NodeInput(l, r), NodeInput(l', r'));
    NodeInputInjective(l, r, l', r');
  }

  /** What the root is the hash of. */
  function RootInput(h: Hash, a: seq<Bytes>): Bytes {
    if |a| == 0 then []
    else if |a| == 1 then LeafInput(a[0])
    else NodeInput(Root(h, a[..K(|a|)]), Root(h, a[K(|a|)..]))
  }

  lemma RootHashes(h: Hash, a: seq<Bytes>)
    ensures Root(h, a) == h(RootInput(h, a)) && RootInput(h, a) in RootInputs(h, a)
    ensures |a| > 1 ==> RootInputs(h, a[..K(|a|)]) + RootInputs(h, a[K(|a|)..]) <= RootInputs(h, a)
  {
  }

  /** Leaves and nodes are hashed apart, and neither like the empty log. */
  lemma RootInputInjective(h: Hash, a: seq<Bytes>, b: seq<Bytes>)
    requires RootInput(h, a) == RootInput(h, b)
    ensures |a| <= 1 ==> a == b
    ensures |a| > 1 ==> |b| > 1 && Root(h, a[..K(|a|)]) == Root(h, b[..K(|b|)])
                        && Root(h, a[K(|a|)..]) == Root(h, b[K(|b|)..])
  {
    hide Root, K;
    var x, y := RootInput(h, a), RootInput(h, b);
    assert |a| == 1 ==> x[0] == 0;
    assert |a| > 1 ==> x[0] == 1;
    assert |b| == 1 ==> y[0] == 0;
    assert |b| > 1 ==> y[0] == 1;
    if |a| == 1 { LeafInputInjective(a[0], b[0]); }
    if |a| > 1 {
      NodeInputInjective(Root(h, a[..K(|a|)]), Root(h, a[K(|a|)..]), Root(h, b[..K(|b|)]), Root(h, b[K(|b|)..]));
    }
  }

  /** The root commits to the whole log, its size included. */
  lemma {:induction false} RootInjective(h: Hash, inputs: set<Bytes>, a: seq<Bytes>, b: seq<Bytes>)
    requires !Collides(h, inputs) && RootInputs(h, a) <= inputs && RootInputs(h, b) <= inputs
    requires Root(h, a) == Root(h, b)
    ensures a == b
    decreases |a|
  {
    hide Root, RootInputs, RootInput, Collides;
    RootHashes(h, a);
    RootHashes(h, b);
    NoCollision(h, inputs, RootInput(h, a), RootInput(h, b));
    RootInputInjective(h, a, b);
    if |a| > 1 {
      var k, l := K(|a|), K(|b|);
      RootInjective(h, inputs, a[..k], b[..l]);
      RootInjective(h, inputs, a[k..], b[l..]);
      assert a == a[..k] + a[k..] && b == b[..l] + b[l..];
    }
  }

  /** Both folds, with the last sibling split off. */
  lemma FoldLast(h: Hash, node: Bytes, turns: seq<Side>, cs: seq<Bytes>, side: Side, c: Bytes)
    requires |turns| == |cs|
    ensures RootFrom(h, node, turns + [side], cs + [c]) == Step(h, side, c, RootFrom(h, node, turns, cs))
    ensures OldRootFrom(h, node, turns + [side], cs + [c]) == OldStep(h, side, c, OldRootFrom(h, node, turns, cs))
    ensures FoldInputs(h, node, turns + [side], cs + [c])
         == {StepInput(side, c, RootFrom(h, node, turns, cs))} + FoldInputs(h, node, turns, cs)
    ensures OldFoldInputs(h, node, turns + [side], cs + [c])
         == (if side == OnLeft then {NodeInput(c, OldRootFrom(h, node, turns, cs))} else {})
            + OldFoldInputs(h, node, turns, cs)
  {
    assert (turns + [side])[..|turns|] == turns && (cs + [c])[..|cs|] == cs;
  }

  // ---------- inclusion ----------

  ghost predicate RebuildsRoot(h: Hash, leaves: seq<Bytes>, m: nat)
    requires m < |leaves|
  {
    var turns, proof := Turns(m, |leaves|), InclusionProof(h, leaves, m);
    |proof| == |turns| && RootFrom(h, LeafHash(h, leaves[m]), turns, proof) == Root(h, leaves)
  }

  lemma {:induction false} InclusionComplete(h: Hash, leaves: seq<Bytes>, m: nat)
    requires m < |leaves|
    ensures RebuildsRoot(h, leaves, m)
    decreases |leaves|
  {
    var k := K(|leaves|);
    if |leaves| > 1 {
      hide RebuildsRoot;
      if m < k {
        InclusionComplete(h, leaves[..k], m);
        InclusionCompleteLeft(h, leaves, m);
      } else {
        InclusionComplete(h, leaves[k..], m - k);
        InclusionCompleteRight(h, leaves, m);
      }
    }
  }

  // One level of each recursion, to be used where the functions themselves are hidden.

  lemma RootSplit(h: Hash, leaves: seq<Bytes>)
    requires |leaves| > 1
    ensures Root(h, leaves) == NodeHash(h, Root(h, leaves[..K(|leaves|)]), Root(h, leaves[K(|leaves|)..]))
  {
  }

  lemma RootInputsSplit(h: Hash, leaves: seq<Bytes>)
    requires |leaves| > 1
    ensures RootInputs(h, leaves[..K(|leaves|)]) + RootInputs(h, leaves[K(|leaves|)..]) <= RootInputs(h, leaves)
  {
    hide Root, NodeInput;
  }

  lemma LeftSplit(h: Hash, leaves: seq<Bytes>, m: nat)
    requires m < K(|leaves|) < |leaves|
    ensures var k := K(|leaves|);
            && Turns(m, |leaves|) == Turns(m, k) + [OnRight]
            && InclusionProof(h, leaves, m) == InclusionProof(h, leaves[..k], m) + [Root(h, leaves[k..])]
  {
    hide Root;
  }

  lemma RightSplit(h: Hash, leaves: seq<Bytes>, m: nat)
    requires K(|leaves|) <= m < |leaves| && |leaves| > 1
    ensures var k := K(|leaves|);
            && Turns(m, |leaves|) == Turns(m - k, |leaves| - k) + [OnLeft]
            && InclusionProof(h, leaves, m) == InclusionProof(h, leaves[k..], m - k) + [Root(h, leaves[..k])]
  {
    hide Root;
  }

  lemma InclusionCompleteLeft(h: Hash, leaves: seq<Bytes>, m: nat)
    requires m < K(|leaves|) < |leaves| && RebuildsRoot(h, leaves[..K(|leaves|)], m)
    ensures RebuildsRoot(h, leaves, m)
  {
    hide Turns, InclusionProof, Root, RootFrom, OldRootFrom, FoldInputs, OldFoldInputs, NodeHash, LeafHash, StepInput,
         K;
    LeftSplit(h, leaves, m);
    RootSplit(h, leaves);
    var k, leaf := K(|leaves|), LeafHash(h, leaves[m]);
    FoldLast(h, leaf, Turns(m, k), InclusionProof(h, leaves[..k], m), OnRight, Root(h, leaves[k..]));
  }

  lemma InclusionCompleteRight(h: Hash, leaves: seq<Bytes>, m: nat)
    requires K(|leaves|) <= m < |leaves| && |leaves| > 1 && RebuildsRoot(h, leaves[K(|leaves|)..], m - K(|leaves|))
    ensures RebuildsRoot(h, leaves, m)
  {
    hide Turns, InclusionProof, Root, RootFrom, OldRootFrom, FoldInputs, OldFoldInputs, NodeHash, LeafHash, StepInput,
         K;
    RightSplit(h, leaves, m);
    RootSplit(h, leaves);
    var k, leaf := K(|leaves|), LeafHash(h, leaves[m]);
    FoldLast(h, leaf, Turns(m - k, |leaves| - k), InclusionProof(h, leaves[k..], m - k), OnLeft, Root(h, leaves[..k]));
  }

  /** A node and siblings that rebuild the root of `leaves` from leaf m on, with every input hashed on
      the way among `inputs`. */
  ghost predicate Opens(h: Hash, inputs: set<Bytes>, leaves: seq<Bytes>, m: nat, node: Digest, proof: seq<Bytes>) {
    && m < |leaves| && |proof| == |Turns(m, |leaves|)|
    && RootInputs(h, leaves) <= inputs && FoldInputs(h, node, Turns(m, |leaves|), proof) <= inputs
    && RootFrom(h, node, Turns(m, |leaves|), proof) == Root(h, leaves)
  }

  lemma OpensLeft(h: Hash, inputs: set<Bytes>, leaves: seq<Bytes>, m: nat, node: Digest, proof: seq<Bytes>)
    requires !Collides(h, inputs) && Opens(h, inputs, leaves, m, node, proof)
    requires |leaves| > 1 && m < K(|leaves|)
    ensures proof != [] && proof[|proof| - 1] == Root(h, leaves[K(|leaves|)..])
    ensures Opens(h, inputs, leaves[..K(|leaves|)], m, node, proof[..|proof| - 1])
  {
    hide RootFrom, OldRootFrom, FoldInputs, OldFoldInputs, NodeHash;
    var k, i := K(|leaves|), |proof| - 1;
    var turns := Turns(m, k);
    FoldLast(h, node, turns, proof[..i], OnRight, proof[i]);
    assert proof == proof[..i] + [proof[i]];
    NodeHashInjective(h, inputs, RootFrom(h, node, turns, proof[..i]), proof[i], Root(h, leaves[..k]),
        Root(h, leaves[k..])) by {
      RootFromLength(h, node, turns, proof[..i]);
    }
  }

  lemma OpensRight(h: Hash, inputs: set<Bytes>, leaves: seq<Bytes>, m: nat, node: Digest, proof: seq<Bytes>)
    requires !Collides(h, inputs) && Opens(h, inputs, leaves, m, node, proof)
    requires |leaves| > 1 && m >= K(|leaves|)
    ensures proof != [] && proof[|proof| - 1] == Root(h, leaves[..K(|leaves|)])
    ensures Opens(h, inputs, leaves[K(|leaves|)..], m - K(|leaves|), node, proof[..|proof| - 1])
  {
    hide RootFrom, OldRootFrom, FoldInputs, OldFoldInputs, NodeHash;
    var k, i := K(|leaves|), |proof| - 1;
    var turns := Turns(m - k, |leaves| - k);
    FoldLast(h, node, turns, proof[..i], OnLeft, proof[i]);
    assert proof == proof[..i] + [proof[i]];
    NodeHashInjective(h, inputs, proof[i], RootFrom(h, node, turns, proof[..i]), Root(h, leaves[..k]),
        Root(h, leaves[k..])) by {
      RootFromLength(h, node, turns, proof[..i]);
    }
  }

  lemma RootFromLength(h: Hash, node: Digest, turns: seq<Side>, proof: seq<Bytes>)
    requires |turns| == |proof|
    ensures |RootFrom(h, node, turns, proof)| == 32
  {
  }

  /** The node is leaf m's hash and the siblings are its audit path. */
  ghost predicate HonestPath(h: Hash, leaves: seq<Bytes>, m: nat, node: Digest, proof: seq<Bytes>) {
    && m < |leaves| && node == LeafHash(h, leaves[m]) && proof == InclusionProof(h, leaves, m)
    && LeafInput(leaves[m]) in RootInputs(h, leaves)
  }

  lemma HonestPathLeft(h: Hash, leaves: seq<Bytes>, m: nat, node: Digest, proof: seq<Bytes>)
    requires m < K(|leaves|) < |leaves| && proof != [] && proof[|proof| - 1] == Root(h, leaves[K(|leaves|)..])
    requires HonestPath(h, leaves[..K(|leaves|)], m, node, proof[..|proof| - 1])
    ensures HonestPath(h, leaves, m, node, proof)
  {
    hide Turns, InclusionProof, Root, RootInputs, LeafHash, LeafInput, NodeHash, K;
    RootInputsSplit(h, leaves);
    LeftSplit(h, leaves, m);
    assert proof == proof[..|proof| - 1] + [proof[|proof| - 1]];
  }

  lemma HonestPathRight(h: Hash, leaves: seq<Bytes>, m: nat, node: Digest, proof: seq<Bytes>)
    requires K(|leaves|) <= m < |leaves| && |leaves| > 1
    requires proof != [] && proof[|proof| - 1] == Root(h, leaves[..K(|leaves|)])
    requires HonestPath(h, leaves[K(|leaves|)..], m - K(|leaves|), node, proof[..|proof| - 1])
    ensures HonestPath(h, leaves, m, node, proof)
  {
    hide Turns, InclusionProof, Root, RootInputs, LeafHash, LeafInput, NodeHash, K;
    RootInputsSplit(h, leaves);
    RightSplit(h, leaves, m);
    assert proof == proof[..|proof| - 1] + [proof[|proof| - 1]];
  }

  lemma {:induction false} InclusionUnique(h: Hash, inputs: set<Bytes>, leaves: seq<Bytes>, m: nat, node: Digest,
                                           proof: seq<Bytes>)
    requires !Collides(h, inputs) && Opens(h, inputs, leaves, m, node, proof)
    ensures HonestPath(h, leaves, m, node, proof)
    decreases |leaves|
  {
    hide Collides, FoldInputs;
    var k, i := K(|leaves|), |proof| - 1;
    if |leaves| > 1 {
      hide HonestPath;
      if m < k {
        OpensLeft(h, inputs, leaves, m, node, proof);
        hide Opens;
        InclusionUnique(h, inputs, leaves[..k], m, node, proof[..i]);
        HonestPathLeft(h, leaves, m, node, proof);
      } else {
        OpensRight(h, inputs, leaves, m, node, proof);
        hide Opens;
        InclusionUnique(h, inputs, leaves[k..], m - k, node, proof[..i]);
        HonestPathRight(h, leaves, m, node, proof);
      }
    }
  }

  /** The inclusion verifier accepts the honest proof of the honest entry. */
  lemma InclusionAcceptsHonest(h: Hash, leaves: seq<Bytes>, m: nat)
    requires m < |leaves|
    ensures InclusionAccepts(h, leaves[m], m, |leaves|, InclusionProof(h, leaves, m), Root(h, leaves))
  {
    InclusionComplete(h, leaves, m);
  }

  /** ... and nothing else: whatever it accepts against the root of `leaves` is the entry at that
      index with the one honest proof, or the run has hashed a collision. */
  lemma InclusionAcceptsOnlyHonest(h: Hash, leaves: seq<Bytes>, entry: Bytes, m: int, proof: seq<Bytes>)
    requires InclusionAccepts(h, entry, m, |leaves|, proof, Root(h, leaves))
    ensures |proof| == |InclusionProof(h, leaves, m)|
    ensures (entry == leaves[m] && proof == InclusionProof(h, leaves, m))
         || Collides(h, InclusionInputs(h, leaves, entry, m, proof))
  {
    InclusionComplete(h, leaves, m);
    var inputs := InclusionInputs(h, leaves, entry, m, proof);
    if !Collides(h, inputs) {
      InclusionUnique(h, inputs, leaves, m, LeafHash(h, entry), proof);
      NoCollision(h, inputs, LeafInput(entry), LeafInput(leaves[m]));
      LeafInputInjective(entry, leaves[m]);
    }
  }

  // ---------- consistency ----------

  /** The root of the last complete subtree of the first m leaves: where the proof starts. */
  function BaseRoot(h: Hash, leaves: seq<Bytes>, m: nat): Digest
    requires 0 < m <= |leaves|
    decreases |leaves|
  {
    if m == |leaves| then Root(h, leaves)
    else
      var k := K(|leaves|);
      if m <= k then BaseRoot(h, leaves[..k], m) else BaseRoot(h, leaves[k..], m - k)
  }

  /** The roots of the siblings met from there up. */
  function Siblings(h: Hash, leaves: seq<Bytes>, m: nat): (s: seq<Bytes>)
    requires 0 < m <= |leaves|
    ensures |s| == |PrefixTurns(m, |leaves|)|
    decreases |leaves|
  {
    if m == |leaves| then []
    else
      var k := K(|leaves|);
      if m <= k then Siblings(h, leaves[..k], m) + [Root(h, leaves[k..])]
      else Siblings(h, leaves[k..], m - k) + [Root(h, leaves[..k])]
  }

  lemma {:induction false} SubproofShape(h: Hash, leaves: seq<Bytes>, m: nat)
    requires 0 < m <= |leaves|
    ensures Subproof(h, leaves, m, false) == [BaseRoot(h, leaves, m)] + Siblings(h, leaves, m)
    ensures Subproof(h, leaves, m, true)
         == if m == |leaves| || IsPow2(m) then Siblings(h, leaves, m)
             else [BaseRoot(h, leaves, m)] + Siblings(h, leaves, m)
    decreases |leaves|
  {
    hide IsPow2;
    var n := |leaves|;
    if m < n {
      KSpec(n);
      if m <= K(n) { SubproofShape(h, leaves[..K(n)], m); } else { SubproofShape(h, leaves[K(n)..], m - K(n)); }
    }
  }

  /** When m is a power of two, the first m leaves are a complete subtree by themselves. */
  lemma {:induction false} BaseOfPow2(h: Hash, leaves: seq<Bytes>, m: nat)
    requires 0 < m <= |leaves| && (m == |leaves| || IsPow2(m))
    ensures BaseRoot(h, leaves, m) == Root(h, leaves[..m])
    decreases |leaves|
  {
    hide IsPow2;
    var n := |leaves|;
    if m == n {
      assert leaves[..m] == leaves;
    } else {
      KSpec(n);
      BaseOfPow2(h, leaves[..K(n)], m);
      assert leaves[..K(n)][..m] == leaves[..m];
    }
  }

  lemma KOfPrefix(m: int, n: int)
    requires K(n) < m <= n
    ensures K(m) == K(n)
  {
    KSpec(n);
    KUnique(K(n), m);
  }

  ghost predicate RebuildsBoth(h: Hash, leaves: seq<Bytes>, m: nat)
    requires 0 < m <= |leaves|
  {
    var turns, base, siblings := PrefixTurns(m, |leaves|), BaseRoot(h, leaves, m), Siblings(h, leaves, m);
    && OldRootFrom(h, base, turns, siblings) == Root(h, leaves[..m])
    && RootFrom(h, base, turns, siblings) == Root(h, leaves)
  }

  lemma {:induction false} ConsistencyComplete(h: Hash, leaves: seq<Bytes>, m: nat)
    requires 0 < m <= |leaves|
    ensures RebuildsBoth(h, leaves, m)
    decreases |leaves|
  {
    var k := K(|leaves|);
    if m == |leaves| {
      assert leaves[..m] == leaves;
    } else if m <= k {
      ConsistencyComplete(h, leaves[..k], m);
      ConsistencyCompleteLeft(h, leaves, m);
    } else {
      ConsistencyComplete(h, leaves[k..], m - k);
      ConsistencyCompleteRight(h, leaves, m);
    }
  }

  lemma ConsistencyCompleteLeft(h: Hash, leaves: seq<Bytes>, m: nat)
    requires 0 < m < |leaves| && m <= K(|leaves|) && RebuildsBoth(h, leaves[..K(|leaves|)], m)
    ensures RebuildsBoth(h, leaves, m)
  {
    hide RootFrom, OldRootFrom, NodeHash;
    var k := K(|leaves|);
    var l, r := leaves[..k], leaves[k..];
    FoldLast(h, BaseRoot(h, l, m), PrefixTurns(m, k), Siblings(h, l, m), OnRight, Root(h, r));
    assert l[..m] == leaves[..m];
  }

  lemma ConsistencyCompleteRight(h: Hash, leaves: seq<Bytes>, m: nat)
    requires K(|leaves|) < m < |leaves| && RebuildsBoth(h, leaves[K(|leaves|)..], m - K(|leaves|))
    ensures RebuildsBoth(h, leaves, m)
  {
    hide RootFrom, OldRootFrom, NodeHash;
    var n, k := |leaves|, K(|leaves|);
    var l, r := leaves[..k], leaves[k..];
    var turns, base, siblings := PrefixTurns(m - k, n - k), BaseRoot(h, r, m - k), Siblings(h, r, m - k);
    assert Root(h, leaves[..m]) == NodeHash(h, Root(h, l), Root(h, r[..m - k])) by {
      KOfPrefix(m, n);
      assert leaves[..m][..k] == l && leaves[..m][k..] == r[..m - k];
    }
    assert Root(h, leaves) == NodeHash(h, Root(h, l), Root(h, r));
    assert PrefixTurns(m, n) == turns + [OnLeft];
    assert Siblings(h, leaves, m) == siblings + [Root(h, l)];
    assert BaseRoot(h, leaves, m) == base;
    hide K, Root, PrefixTurns, Siblings, BaseRoot;
    FoldLast(h, base, turns, siblings, OnLeft, Root(h, l));
  }

  /** A start and a list of siblings that rebuild the roots of both logs, with every input hashed
      on the way among `inputs`. */
  ghost predicate Explains(h: Hash, inputs: set<Bytes>, a: seq<Bytes>, b: seq<Bytes>, start: Bytes, cs: seq<Bytes>) {
    && 0 < |a| <= |b| && |cs| == |PrefixTurns(|a|, |b|)|
    && RootInputs(h, a) <= inputs && RootInputs(h, b) <= inputs
    && FoldInputs(h, start, PrefixTurns(|a|, |b|), cs) <= inputs
    && OldFoldInputs(h, start, PrefixTurns(|a|, |b|), cs) <= inputs
    && OldRootFrom(h, start, PrefixTurns(|a|, |b|), cs) == Root(h, a)
    && RootFrom(h, start, PrefixTurns(|a|, |b|), cs) == Root(h, b)
  }

  lemma ExplainsLeft(h: Hash, inputs: set<Bytes>, a: seq<Bytes>, b: seq<Bytes>, start: Bytes, cs: seq<Bytes>)
    requires !Collides(h, inputs) && Explains(h, inputs, a, b, start, cs)
    requires |a| < |b| && |a| <= K(|b|)
    ensures cs != [] && cs[|cs| - 1] == Root(h, b[K(|b|)..])
    ensures Explains(h, inputs, a, b[..K(|b|)], start, cs[..|cs| - 1])
  {
    hide RootFrom, OldRootFrom, FoldInputs, OldFoldInputs, NodeHash;
    var k, i := K(|b|), |cs| - 1;
    var turns := PrefixTurns(|a|, k);
    FoldLast(h, start, turns, cs[..i], OnRight, cs[i]);
    assert cs == cs[..i] + [cs[i]];
    var below := RootFrom(h, start, turns, cs[..i]);
    assert |below| == 32 by {
      if turns == [] { RebuiltStart(h, start, turns, cs[..i]); RebuiltAll(h, start, turns, cs[..i], start); }
    }
    NodeHashInjective(h, inputs, below, cs[i], Root(h, b[..k]), Root(h, b[k..]));
  }

  lemma ExplainsRight(h: Hash, inputs: set<Bytes>, a: seq<Bytes>, b: seq<Bytes>, start: Bytes, cs: seq<Bytes>)
    requires !Collides(h, inputs) && Explains(h, inputs, a, b, start, cs)
    requires K(|b|) < |a| < |b|
    ensures cs != [] && cs[|cs| - 1] == Root(h, b[..K(|b|)])
    ensures a[..K(|b|)] == b[..K(|b|)]
    ensures Explains(h, inputs, a[K(|b|)..], b[K(|b|)..], start, cs[..|cs| - 1])
  {
    hide RootFrom, OldRootFrom, FoldInputs, OldFoldInputs, NodeHash;
    var m, n, k, i := |a|, |b|, K(|b|), |cs| - 1;
    var turns := PrefixTurns(m - k, n - k);
    FoldLast(h, start, turns, cs[..i], OnLeft, cs[i]);
    assert cs == cs[..i] + [cs[i]];
    KOfPrefix(m, n);
    var below, oldBelow := RootFrom(h, start, turns, cs[..i]), OldRootFrom(h, start, turns, cs[..i]);
    NodeHashInjective(h, inputs, cs[i], below, Root(h, b[..k]), Root(h, b[k..]));
    NodeHashInjective(h, inputs, cs[i], oldBelow, Root(h, a[..k]), Root(h, a[k..]));
    RootInjective(h, inputs, a[..k], b[..k]);
  }

  /** The smaller log is a prefix of the larger; start and siblings are the honest ones. */
  ghost predicate HonestPrefix(h: Hash, a: seq<Bytes>, b: seq<Bytes>, start: Bytes, cs: seq<Bytes>) {
    && 0 < |a| <= |b| && a == b[..|a|]
    && start == BaseRoot(h, b, |a|) && cs == Siblings(h, b, |a|)
  }

  lemma HonestPrefixLeft(h: Hash, a: seq<Bytes>, b: seq<Bytes>, start: Bytes, cs: seq<Bytes>)
    requires |a| <= K(|b|) && |b| > 1 && cs != [] && cs[|cs| - 1] == Root(h, b[K(|b|)..])
    requires HonestPrefix(h, a, b[..K(|b|)], start, cs[..|cs| - 1])
    ensures HonestPrefix(h, a, b, start, cs)
  {
    hide Root;
    assert b[..K(|b|)][..|a|] == b[..|a|] && cs == cs[..|cs| - 1] + [cs[|cs| - 1]];
  }

  lemma HonestPrefixRight(h: Hash, a: seq<Bytes>, b: seq<Bytes>, start: Bytes, cs: seq<Bytes>)
    requires K(|b|) < |a| < |b| && cs != [] && cs[|cs| - 1] == Root(h, b[..K(|b|)]) && a[..K(|b|)] == b[..K(|b|)]
    requires HonestPrefix(h, a[K(|b|)..], b[K(|b|)..], start, cs[..|cs| - 1])
    ensures HonestPrefix(h, a, b, start, cs)
  {
    hide Root;
    PrefixInParts(a, b, K(|b|));
    assert cs == cs[..|cs| - 1] + [cs[|cs| - 1]];
  }

  /** If one start and one list of siblings rebuild both roots, the smaller log is a prefix of the
      larger and the siblings are the honest ones. No length is asked of the siblings. */
  lemma {:induction false} ConsistencyUnique(h: Hash, inputs: set<Bytes>, a: seq<Bytes>, b: seq<Bytes>, start: Bytes,
                                             cs: seq<Bytes>)
    requires !Collides(h, inputs) && Explains(h, inputs, a, b, start, cs)
    ensures HonestPrefix(h, a, b, start, cs)
    decreases |b|
  {
    var m, k, i := |a|, K(|b|), |cs| - 1;
    if m == |b| {
      hide Collides, FoldInputs, OldFoldInputs, RootInputs, NodeHash;
      RootInjective(h, inputs, a, b);
      assert b[..m] == b;
    } else if m <= k {
      hide Collides, HonestPrefix;
      ExplainsLeft(h, inputs, a, b, start, cs);
      hide Explains;
      ConsistencyUnique(h, inputs, a, b[..k], start, cs[..i]);
      HonestPrefixLeft(h, a, b, start, cs);
    } else {
      hide Collides, HonestPrefix;
      ExplainsRight(h, inputs, a, b, start, cs);
      hide Explains;
      ConsistencyUnique(h, inputs, a[k..], b[k..], start, cs[..i]);
      HonestPrefixRight(h, a, b, start, cs);
    }
  }

  lemma PrefixInParts(a: seq<Bytes>, b: seq<Bytes>, k: nat)
    requires k <= |a| <= |b| && a[..k] == b[..k] && a[k..] == b[k..][..|a| - k]
    ensures a == b[..|a|]
  {
    assert a == a[..k] + a[k..] && b[..|a|] == b[..k] + b[k..][..|a| - k];
  }

  /** The proof a log would give that its first m entries were once the whole log; the empty log
      has none to give, and the verifier accepts [] for it against itself only. */
  function HonestProof(h: Hash, leaves: seq<Bytes>, m: nat): seq<Bytes>
    requires m <= |leaves|
  {
    if m == 0 then [] else ConsistencyProof(h, leaves, m)
  }

  lemma HonestProofShape(h: Hash, leaves: seq<Bytes>, m: nat)
    requires 0 < m < |leaves|
    ensures var proof := ConsistencyProof(h, leaves, m);
            (if IsPow2(m) then [Root(h, leaves[..m])] + proof else proof)
            == [BaseRoot(h, leaves, m)] + Siblings(h, leaves, m)
  {
    hide Root, BaseRoot, Siblings, Subproof, IsPow2, K;
    SubproofShape(h, leaves, m);
    assert ConsistencyProof(h, leaves, m) == Subproof(h, leaves, m, true);
    hide ConsistencyProof;
    if IsPow2(m) { BaseOfPow2(h, leaves, m); }
  }

  /** The consistency verifier accepts the honest proof for every prefix but the empty one. */
  lemma ConsistencyAcceptsHonest(h: Hash, leaves: seq<Bytes>, m: nat)
    requires m <= |leaves| && (m > 0 || leaves == [])
    ensures ConsistencyAccepts(h, Root(h, leaves[..m]), m, Root(h, leaves), |leaves|, HonestProof(h, leaves, m))
  {
    hide IsPow2, Root, PrefixTurns, RootFrom, OldRootFrom, BaseRoot, Siblings, Subproof;
    if m == |leaves| {
      assert leaves[..m] == leaves;
    } else {
      ConsistencyComplete(h, leaves, m);
      HonestProofShape(h, leaves, m);
      var base, siblings := BaseRoot(h, leaves, m), Siblings(h, leaves, m);
      assert ([base] + siblings)[1..] == siblings;
      assert siblings != [];
      hide ConsistencyProof;
    }
  }

  /** ... and nothing else: if it accepts any proof between the roots of two logs, the first is a
      prefix of the second (and not the empty prefix of a longer log) and the proof is the honest
      one, or the run has hashed a collision. */
  lemma ConsistencyAcceptsOnlyHonest(h: Hash, a: seq<Bytes>, b: seq<Bytes>, proof: seq<Bytes>)
    requires ConsistencyAccepts(h, Root(h, a), |a|, Root(h, b), |b|, proof)
    ensures (a <= b && (a == [] ==> b == []) && proof == HonestProof(h, b, |a|))
         || Collides(h, ConsistencyInputs(h, a, b, proof))
  {
    var inputs := ConsistencyInputs(h, a, b, proof);
    if !Collides(h, inputs) {
      if |a| == |b| {
        RootInjective(h, inputs, a, b);
      } else {
        var p := if IsPow2(|a|) then [Root(h, a)] + proof else proof;
        hide IsPow2, Root, PrefixTurns, RootFrom, OldRootFrom, BaseRoot, Siblings, ConsistencyProof,
             RootInputs, FoldInputs, OldFoldInputs;
        ConsistencyUnique(h, inputs, a, b, p[0], p[1..]);
        HonestProofShape(h, b, |a|);
        assert p == [p[0]] + p[1..];
      }
    }
  }

  // ---------- how long the proofs are ----------

  function Exp2(e: nat): nat { if e == 0 then 1 else 2 * Exp2(e - 1) }

  function CeilLog2(n: nat): (r: nat)
    ensures n >= 1 ==> n <= Exp2(r) && (r > 0 ==> Exp2(r - 1) < n)
  {
    if n <= 1 then 0 else 1 + CeilLog2((n + 1) / 2)
  }

  lemma {:induction false} TurnsLength(m: nat, n: nat)
    requires m < n
    ensures |Turns(m, n)| <= CeilLog2(n)
    decreases n
  {
    if n >= 2 {
      TurnsHalve(m, n);
      TurnsLength(m / 2, (n + 1) / 2);
    }
  }

  lemma {:induction false} PrefixTurnsLength(m: nat, n: nat)
    requires 0 < m <= n
    ensures |PrefixTurns(m, n)| <= CeilLog2(n)
    decreases n
  {
    if m < n {
      if m % 2 == 0 {
        PrefixTurnsHalve(m, n);
        PrefixTurnsLength(m / 2, (n + 1) / 2);
      } else {
        PrefixTurnsOdd(m, n);
        TurnsLength(m - 1, n);
      }
    }
  }

  lemma ProofLengths(h: Hash, leaves: seq<Bytes>, m: nat)
    ensures m < |leaves| ==> |InclusionProof(h, leaves, m)| <= CeilLog2(|leaves|)
    ensures 0 < m <= |leaves| ==> |ConsistencyProof(h, leaves, m)| <= CeilLog2(|leaves|) + 1
  {
    if m < |leaves| {
      InclusionComplete(h, leaves, m);
      TurnsLength(m, |leaves|);
    }
    if 0 < m <= |leaves| {
      SubproofShape(h, leaves, m);
      PrefixTurnsLength(m, |leaves|);
    }
  }
}
