// The Merkle tree hash, its proofs, and the two verifiers (hatls/log.py).
//
// Roots and proofs are built top-down, splitting at the largest power of two below n. The
// verifiers work bottom-up, shifting the pair (fn, sn). What connects the two is the list of
// sides on which the siblings of a leaf stand: `Turns` reads it off the top-down split, and
// `TurnsHalve` shows that one shift of (fn, sn) removes exactly its first element.
module MerkleTree {
  import opened Octets

  // ---------- powers of two ----------

  predicate IsPow2(k: int) {
    k == 1 || (k > 1 && k % 2 == 0 && IsPow2(k / 2))
  }

  /** The doubling search of `_k`, started at k. */
  function KFrom(k: nat, n: int): (r: nat)
    requires k > 0
    ensures r > 0 && (k < n ==> r < n)
    decreases n - k
  {
    if 2 * k < n then KFrom(2 * k, n) else k
  }

  /** The largest power of two strictly below n (1 when n <= 1), see `KSpec`. */
  function K(n: int): (k: nat)
    ensures k > 0 && (n >= 2 ==> k < n)
  {
    KFrom(1, n)
  }

  lemma {:induction false} KFromSpec(k: nat, n: int)
    requires IsPow2(k)
    ensures IsPow2(KFrom(k, n)) && n <= 2 * KFrom(k, n)
    decreases n - k
  {
    if 2 * k < n { KFromSpec(2 * k, n); }
  }

  lemma KSpec(n: int)
    ensures IsPow2(K(n)) && n <= 2 * K(n)
    ensures forall j | K(n) < j < n :: !IsPow2(j)
  {
    KFromSpec(1, n);
    forall j | K(n) < j < n ensures !IsPow2(j) {
      if IsPow2(j) { Pow2Gap(K(n), j); }
    }
  }

  method LargestPow2Below(n: int) returns (k: nat)
    ensures k == K(n)
    ensures IsPow2(k)
    ensures n >= 2 ==> k < n && forall j | k < j < n :: !IsPow2(j)
  {
    k := 1;
    while k * 2 < n
      invariant k > 0 && KFrom(k, n) == K(n)
      decreases n - k
    {
      k := k * 2;
    }
    KSpec(n);
  }

  lemma {:induction false} Pow2Gap(a: int, b: int)
    requires IsPow2(a) && IsPow2(b) && a < b
    ensures 2 * a <= b
  {
    if a > 1 { Pow2Gap(a / 2, b / 2); }
  }

  lemma KUnique(k: int, n: int)
    requires IsPow2(k) && k < n <= 2 * k
    ensures k == K(n)
  {
    KSpec(n);
    if k < K(n) { Pow2Gap(k, K(n)); }
    if K(n) < k { Pow2Gap(K(n), k); }
  }

  lemma KHalve(n: int)
    requires n > 2
    ensures K(n) % 2 == 0 && K(n) >= 2
    ensures IsPow2(K(n)) && n <= 2 * K(n)
    ensures IsPow2(K(n) / 2) && K((n + 1) / 2) == K(n) / 2
  {
    KSpec(n);
    KUnique(K(n) / 2, (n + 1) / 2);
  }

  /** Bitwise and of two naturals, bit by bit from the bottom. */
  function BitAnd(a: nat, b: nat): (r: nat)
    decreases a + b
  {
    if a == 0 || b == 0 then 0 else (a % 2) * (b % 2) + 2 * BitAnd(a / 2, b / 2)
  }

  lemma {:induction false} BitAndSelf(a: nat)
    ensures BitAnd(a, a) == a
  {
    if a > 0 { BitAndSelf(a / 2); }
  }

  /** The test `m & (m - 1) == 0` recognises exactly the powers of two. */
  lemma {:induction false} Pow2Test(m: nat)
    requires m > 0
    ensures BitAnd(m, m - 1) == 0 <==> IsPow2(m)
  {
    if m > 1 {
      if m % 2 == 0 {
        assert (m - 1) / 2 == m / 2 - 1;
        Pow2Test(m / 2);
      } else {
        assert (m - 1) / 2 == m / 2;
        BitAndSelf(m / 2);
      }
    }
  }

  // ---------- tree hash and proofs, top-down ----------

  function LeafInput(entry: Bytes): Bytes { [0] + entry }
  function NodeInput(l: Bytes, r: Bytes): Bytes { [1] + l + r }
  function LeafHash(h: Hash, entry: Bytes): Digest { h(LeafInput(entry)) }
  function NodeHash(h: Hash, l: Bytes, r: Bytes): Digest { h(NodeInput(l, r)) }

  /** MTH of RFC 6962, section 2.1. */
  function Root(h: Hash, leaves: seq<Bytes>): Digest
    decreases |leaves|
  {
    var n := |leaves|;
    if n == 0 then h([])
    else if n == 1 then LeafHash(h, leaves[0])
    else NodeHash(h, Root(h, leaves[..K(n)]), Root(h, leaves[K(n)..]))
  }

  /** PATH of RFC 6962, section 2.1.1. */
  function InclusionProof(h: Hash, leaves: seq<Bytes>, m: nat): seq<Bytes>
    requires m < |leaves|
    decreases |leaves|
  {
    var n := |leaves|;
    if n == 1 then []
    else
      var k := K(n);
      if m < k then InclusionProof(h, leaves[..k], m) + [Root(h, leaves[k..])]
      else InclusionProof(h, leaves[k..], m - k) + [Root(h, leaves[..k])]
  }

  function Subproof(h: Hash, leaves: seq<Bytes>, m: nat, whole: bool): seq<Bytes>
    requires 0 < m <= |leaves|
    decreases |leaves|
  {
    var n := |leaves|;
    if m == n then (if whole then [] else [Root(h, leaves)])
    else
      var k := K(n);
      if m <= k then Subproof(h, leaves[..k], m, whole) + [Root(h, leaves[k..])]
      else Subproof(h, leaves[k..], m - k, false) + [Root(h, leaves[..k])]
  }

  /** PROOF of RFC 6962, section 2.1.2. The source raises outside 0 < m <= n. */
  function ConsistencyProof(h: Hash, leaves: seq<Bytes>, m: nat): seq<Bytes>
    requires 0 < m <= |leaves|
  {
    if m == |leaves| then [] else Subproof(h, leaves, m, true)
  }

  // ---------- the sides of the siblings ----------

  datatype Side = OnLeft | OnRight

  /** The sides of the siblings of leaf m in a tree of n leaves, leaf level first. */
  function Turns(m: nat, n: nat): (t: seq<Side>)
    requires m < n
    ensures t == [] <==> n == 1
    decreases n
  {
    if n == 1 then []
    else
      var k := K(n);
      if m < k then Turns(m, k) + [OnRight] else Turns(m - k, n - k) + [OnLeft]
  }

  /** The sides met from the last complete subtree of the first m leaves up to the root of n. */
  function PrefixTurns(m: nat, n: nat): (t: seq<Side>)
    requires 0 < m <= n
    ensures t == [] <==> m == n
    decreases n
  {
    if m == n then []
    else
      var k := K(n);
      if m <= k then PrefixTurns(m, k) + [OnRight] else PrefixTurns(m - k, n - k) + [OnLeft]
  }

  /** The turn one shift of (fn, sn) = (m, n - 1) consumes: none when the leaf is the last of an
      odd level. */
  function FirstTurn(m: nat, n: nat): seq<Side> {
    if m % 2 == 1 then [OnLeft] else if m == n - 1 then [] else [OnRight]
  }

  lemma TurnsSplit(m: nat, n: nat, k: nat)
    requires m < n && IsPow2(k) && k < n <= 2 * k
    ensures m < k ==> Turns(m, n) == Turns(m, k) + [OnRight]
    ensures m >= k ==> Turns(m, n) == Turns(m - k, n - k) + [OnLeft]
  {
    KUnique(k, n);
  }

  lemma TurnsTwo(m: nat)
    requires m < 2
    ensures Turns(m, 2) == FirstTurn(m, 2) + Turns(0, 1)
  {
  }

  lemma {:induction false} TurnsHalve(m: nat, n: nat)
    requires m < n && n >= 2
    ensures Turns(m, n) == FirstTurn(m, n) + Turns(m / 2, (n + 1) / 2)
    decreases n
  {
    hide IsPow2, K, Turns;
    if n == 2 {
      TurnsTwo(m);
    } else {
      KHalve(n);
      var j := K(n) / 2;
      if m < 2 * j {
        TurnsHalve(m, 2 * j);
        assert (2 * j + 1) / 2 == j;
        TurnsHalveLeft(m, n, j);
      } else {
        if n - 2 * j >= 2 { TurnsHalve(m - 2 * j, n - 2 * j); }
        TurnsHalveRight(m, n, j);
      }
    }
  }

  lemma TurnsHalveLeft(m: nat, n: nat, j: nat)
    requires IsPow2(j) && IsPow2(2 * j) && 2 * j < n <= 4 * j && m < 2 * j
    requires Turns(m, 2 * j) == FirstTurn(m, 2 * j) + Turns(m / 2, j)
    ensures Turns(m, n) == FirstTurn(m, n) + Turns(m / 2, (n + 1) / 2)
  {
    hide IsPow2, K, Turns;
    var f := FirstTurn(m, n);
    TurnsSplit(m, n, 2 * j);
    TurnsSplit(m / 2, (n + 1) / 2, j);
    assert (f + Turns(m / 2, j)) + [OnRight] == f + (Turns(m / 2, j) + [OnRight]);
  }

  lemma TurnsHalveRight(m: nat, n: nat, j: nat)
    requires IsPow2(j) && IsPow2(2 * j) && 2 * j < n <= 4 * j && 2 * j <= m < n
    requires n - 2 * j >= 2 ==>
      Turns(m - 2 * j, n - 2 * j)
      == FirstTurn(m - 2 * j, n - 2 * j) + Turns((m - 2 * j) / 2, (n - 2 * j + 1) / 2)
    ensures Turns(m, n) == FirstTurn(m, n) + Turns(m / 2, (n + 1) / 2)
  {
    hide IsPow2, K, Turns;
    var f, m', n' := FirstTurn(m, n), m / 2 - j, (n + 1) / 2 - j;
    TurnsSplit(m, n, 2 * j);
    TurnsSplit(m / 2, (n + 1) / 2, j);
    assert (m - 2 * j) / 2 == m' && (n - 2 * j + 1) / 2 == n';
    assert (f + Turns(m', n')) + [OnLeft] == f + (Turns(m', n') + [OnLeft]);
  }

  lemma PrefixTurnsSplit(m: nat, n: nat, k: nat)
    requires 0 < m < n && IsPow2(k) && k < n <= 2 * k
    ensures m <= k ==> PrefixTurns(m, n) == PrefixTurns(m, k) + [OnRight]
    ensures m > k ==> PrefixTurns(m, n) == PrefixTurns(m - k, n - k) + [OnLeft]
  {
    KUnique(k, n);
  }

  lemma {:induction false} PrefixTurnsHalve(m: nat, n: nat)
    requires 0 < m < n && m % 2 == 0
    ensures PrefixTurns(m, n) == PrefixTurns(m / 2, (n + 1) / 2)
    decreases n
  {
    hide IsPow2, K, PrefixTurns;
    KHalve(n);
    var j, m', n' := K(n) / 2, m / 2, (n + 1) / 2;
    PrefixTurnsSplit(m, n, 2 * j);
    PrefixTurnsSplit(m', n', j);
    if m < 2 * j {
      PrefixTurnsHalve(m, 2 * j);
      assert (2 * j + 1) / 2 == j;
    } else if m == 2 * j {
      assert PrefixTurns(m, m) == [] == PrefixTurns(j, j);
    } else {
      PrefixTurnsHalve(m - 2 * j, n - 2 * j);
      assert (m - 2 * j) / 2 == m' - j && (n - 2 * j + 1) / 2 == n' - j;
    }
  }

  lemma {:induction false} PrefixTurnsOdd(m: nat, n: nat)
    requires 0 < m < n && m % 2 == 1
    ensures PrefixTurns(m, n) == Turns(m - 1, n)
    decreases n
  {
    var k := K(n);
    if n > 2 { KHalve(n); }
    if m < k {
      PrefixTurnsOdd(m, k);
    } else if m > k {
      PrefixTurnsOdd(m - k, n - k);
    }
  }

  // ---------- folding a proof along its turns ----------

  /** Rebuild the root from `node` and its siblings. */
  function RootFrom(h: Hash, node: Bytes, turns: seq<Side>, proof: seq<Bytes>): (r: Bytes)
    requires |turns| == |proof|
    ensures turns != [] ==> |r| == 32
  {
    if turns == [] then node
    else
      var i := |turns| - 1;
      var below := RootFrom(h, node, turns[..i], proof[..i]);
      if turns[i] == OnLeft then NodeHash(h, proof[i], below) else NodeHash(h, below, proof[i])
  }

  /** Rebuild the root of the older tree: only siblings on the left belong to it. */
  function OldRootFrom(h: Hash, node: Bytes, turns: seq<Side>, proof: seq<Bytes>): (r: Bytes)
    requires |turns| == |proof|
  {
    if turns == [] then node
    else
      var i := |turns| - 1;
      var below := OldRootFrom(h, node, turns[..i], proof[..i]);
      if turns[i] == OnLeft then NodeHash(h, proof[i], below) else below
  }

  // ---------- what the verifiers decide ----------

  predicate InclusionAccepts(h: Hash, entry: Bytes, m: int, n: int, proof: seq<Bytes>, root: Bytes) {
    && 0 <= m < n
    && |proof| == |Turns(m, n)|
    && RootFrom(h, LeafHash(h, entry), Turns(m, n), proof) == root
  }

  predicate ConsistencyAccepts(h: Hash, old_: Bytes, m: int, new_: Bytes, n: int, proof: seq<Bytes>) {
    if m == n then old_ == new_ && proof == []
    else
      && 0 < m < n && proof != []
      && var p := if IsPow2(m) then [old_] + proof else proof;
      && |p| - 1 == |PrefixTurns(m, n)|
      && OldRootFrom(h, p[0], PrefixTurns(m, n), p[1..]) == old_
      && RootFrom(h, p[0], PrefixTurns(m, n), p[1..]) == new_
  }

  // ---------- the state of a verifier's loop ----------

  /** After i siblings, (fn, sn) stands where the turns from i on are the ones still to come. */
  ghost predicate At(turns: seq<Side>, i: nat, fn: int, sn: int) {
    0 <= fn <= sn && i <= |turns| && turns[i..] == Turns(fn, sn + 1)
  }

  lemma AtEnd(turns: seq<Side>, i: nat, fn: int, sn: int)
    requires At(turns, i, fn, sn)
    ensures 0 <= fn <= sn && i <= |turns| && (sn == 0 <==> i == |turns|)
  {
    assert turns[i..] == [] <==> i == |turns|;
  }

  /** One shift moves on to the next turn, unless fn is the last, even node of its level. */
  lemma AtNext(turns: seq<Side>, i: nat, fn: int, sn: int)
    requires At(turns, i, fn, sn) && (fn % 2 == 1 || fn < sn)
    ensures i < |turns| && turns[i] == if fn % 2 == 1 then OnLeft else OnRight
    ensures At(turns, i + 1, fn / 2, sn / 2)
  {
    TurnsHalve(fn, sn + 1);
    assert (sn + 2) / 2 == sn / 2 + 1;
    assert turns[i] == turns[i..][0] && turns[i + 1..] == turns[i..][1..];
  }

  lemma AtLone(turns: seq<Side>, i: nat, fn: int, sn: int)
    requires At(turns, i, fn, sn) && fn % 2 == 0 && fn == sn > 0
    ensures At(turns, i, fn / 2, sn / 2) && fn / 2 == sn / 2 > 0
  {
    TurnsHalve(fn, sn + 1);
    assert (sn + 2) / 2 == sn / 2 + 1;
  }

  function Step(h: Hash, side: Side, sibling: Bytes, below: Bytes): Digest {
    if side == OnLeft then NodeHash(h, sibling, below) else NodeHash(h, below, sibling)
  }

  function OldStep(h: Hash, side: Side, sibling: Bytes, below: Bytes): Bytes {
    if side == OnLeft then NodeHash(h, sibling, below) else below
  }

  /** The node rebuilt from the first i siblings, and what it is of the older tree. */
  ghost predicate Rebuilt(h: Hash, start: Bytes, turns: seq<Side>, proof: seq<Bytes>, i: nat, node: Bytes) {
    i <= |turns| && i <= |proof| && node == RootFrom(h, start, turns[..i], proof[..i])
  }

  ghost predicate OldRebuilt(h: Hash, start: Bytes, turns: seq<Side>, proof: seq<Bytes>, i: nat, node: Bytes) {
    i <= |turns| && i <= |proof| && node == OldRootFrom(h, start, turns[..i], proof[..i])
  }

  lemma RebuiltStart(h: Hash, start: Bytes, turns: seq<Side>, proof: seq<Bytes>)
    ensures Rebuilt(h, start, turns, proof, 0, start)
    ensures OldRebuilt(h, start, turns, proof, 0, start)
  {
  }

  lemma RebuiltNext(h: Hash, start: Bytes, turns: seq<Side>, proof: seq<Bytes>, i: nat, node: Bytes)
    requires i < |turns| && i < |proof| && Rebuilt(h, start, turns, proof, i, node)
    ensures Rebuilt(h, start, turns, proof, i + 1, Step(h, turns[i], proof[i], node))
  {
    assert turns[..i + 1][..i] == turns[..i] && proof[..i + 1][..i] == proof[..i];
  }

  lemma OldRebuiltNext(h: Hash, start: Bytes, turns: seq<Side>, proof: seq<Bytes>, i: nat, node: Bytes)
    requires i < |turns| && i < |proof| && OldRebuilt(h, start, turns, proof, i, node)
    ensures OldRebuilt(h, start, turns, proof, i + 1, OldStep(h, turns[i], proof[i], node))
  {
    assert turns[..i + 1][..i] == turns[..i] && proof[..i + 1][..i] == proof[..i];
  }

  lemma RebuiltAll(h: Hash, start: Bytes, turns: seq<Side>, proof: seq<Bytes>, node: Bytes)
    requires |turns| == |proof|
    ensures Rebuilt(h, start, turns, proof, |proof|, node) <==> node == RootFrom(h, start, turns, proof)
    ensures OldRebuilt(h, start, turns, proof, |proof|, node) <==> node == OldRootFrom(h, start, turns, proof)
  {
    assert turns[..|proof|] == turns && proof[..|proof|] == proof;
  }

  // ---------- the verifiers ----------

  /** The inner loop of both verifiers: skip the levels on which a last node has no sibling. */
  method SkipLoneLevels(fn0: nat, sn0: nat, ghost turns: seq<Side>, ghost i: nat) returns (fn: nat, sn: nat)
    requires At(turns, i, fn0, sn0)
    requires sn0 > 0 && (fn0 % 2 == 1 || fn0 == sn0)
    ensures fn % 2 == 1
    ensures At(turns, i, fn, sn)
  {
    hide At;
    fn, sn := fn0, sn0;
    while !(fn == 0 || fn % 2 == 1)
      invariant fn > 0 && (fn % 2 == 0 ==> fn == sn)
      invariant At(turns, i, fn, sn)
      decreases fn
    {
      AtLone(turns, i, fn, sn);
      fn, sn := fn / 2, sn / 2;
    }
  }

  /** The first loop of the consistency verifier: up to the root of the last complete subtree. */
  method SkipOddLevels(fn0: nat, sn0: nat) returns (fn: nat, sn: nat)
    requires fn0 < sn0
    ensures At(PrefixTurns(fn0 + 1, sn0 + 1), 0, fn, sn)
  {
    hide PrefixTurns;
    fn, sn := fn0, sn0;
    while fn % 2 == 1
      invariant fn < sn
      invariant PrefixTurns(fn0 + 1, sn0 + 1) == PrefixTurns(fn + 1, sn + 1)
      decreases fn
    {
      PrefixTurnsHalve(fn + 1, sn + 1);
      assert (fn + 1) / 2 == fn / 2 + 1 && (sn + 2) / 2 == sn / 2 + 1;
      fn, sn := fn / 2, sn / 2;
    }
    AtStart(PrefixTurns(fn0 + 1, sn0 + 1), fn, sn);
  }

  method VerifyInclusion(h: Hash, entry: Bytes, m: int, n: int, proof: seq<Bytes>, expectedRoot: Bytes)
    returns (ok: bool)
    ensures ok <==> InclusionAccepts(h, entry, m, n, proof, expectedRoot)
  {
    if !(0 <= m < n) { return false; }
    ghost var start, turns := LeafHash(h, entry), Turns(m, n);
    var node: Bytes := LeafHash(h, entry);
    var fn, sn := m, n - 1;
    assert turns[0..] == turns;
    RebuiltStart(h, start, turns, proof);
    hide At, Rebuilt, Turns, RootFrom, NodeHash, LeafHash;
    for i := 0 to |proof|
      invariant At(turns, i, fn, sn)
      invariant Rebuilt(h, start, turns, proof, i, node)
    {
      AtEnd(turns, i, fn, sn);
      if sn == 0 { return false; }
      ghost var node0 := node;
      if fn % 2 == 1 || fn == sn {
        node := NodeHash(h, proof[i], node);
        fn, sn := SkipLoneLevels(fn, sn, turns, i);
      } else {
        node := NodeHash(h, node, proof[i]);
      }
      AtNext(turns, i, fn, sn);
      RebuiltNext(h, start, turns, proof, i, node0);
      fn, sn := fn / 2, sn / 2;
    }
    AtEnd(turns, |proof|, fn, sn);
    if sn == 0 { RebuiltAll(h, start, turns, proof, node); }
    ok := sn == 0 && node == expectedRoot;
  }

  method VerifyConsistency(h: Hash, oldRoot: Bytes, m: int, newRoot: Bytes, n: int, proof: seq<Bytes>)
    returns (ok: bool)
    ensures ok <==> ConsistencyAccepts(h, oldRoot, m, newRoot, n, proof)
  {
    if m == n { return oldRoot == newRoot && proof == []; }
    if !(0 < m < n) || proof == [] { return false; }
    var p := proof;
    Pow2Test(m);
    if BitAnd(m, m - 1) == 0 {
      p := [oldRoot] + p;
    }
    hide IsPow2, BitAnd, At, Rebuilt, OldRebuilt, Turns, PrefixTurns, RootFrom, OldRootFrom, NodeHash;
    ghost var start, turns := p[0], PrefixTurns(m, n);
    var fn, sn := SkipOddLevels(m - 1, n - 1);
    var fr, sr, cs := p[0], p[0], p[1..];
    RebuiltStart(h, start, turns, cs);
    for i := 0 to |cs|
      invariant At(turns, i, fn, sn)
      invariant OldRebuilt(h, start, turns, cs, i, fr) && Rebuilt(h, start, turns, cs, i, sr)
    {
      AtEnd(turns, i, fn, sn);
      if sn == 0 { return false; }
      ghost var fr0, sr0 := fr, sr;
      if fn % 2 == 1 || fn == sn {
        fr, sr := NodeHash(h, cs[i], fr), NodeHash(h, cs[i], sr);
        fn, sn := SkipLoneLevels(fn, sn, turns, i);
      } else {
        sr := NodeHash(h, sr, cs[i]);
      }
      AtNext(turns, i, fn, sn);
      OldRebuiltNext(h, start, turns, cs, i, fr0);
      RebuiltNext(h, start, turns, cs, i, sr0);
      fn, sn := fn / 2, sn / 2;
    }
    AtEnd(turns, |cs|, fn, sn);
    if sn == 0 {
      RebuiltAll(h, start, turns, cs, fr);
      RebuiltAll(h, start, turns, cs, sr);
    }
    ok := fr == oldRoot && sr == newRoot && sn == 0;
  }

  lemma AtStart(turns: seq<Side>, fn: int, sn: int)
    requires 0 <= fn < sn && fn % 2 == 0 && turns == PrefixTurns(fn + 1, sn + 1)
    ensures At(turns, 0, fn, sn)
  {
    PrefixTurnsOdd(fn + 1, sn + 1);
    assert turns[0..] == turns;
  }
}
