// The root computed from the bottom: level by level, over the very bytes that are hashed.
module MerkleLevels {
  import opened Octets
  import opened MerkleTree

  /** The next level up: neighbours are hashed in pairs, left before right, and a last one without a
      neighbour moves up as it is. */
  function Level(h: Hash, nodes: seq<Bytes>): (r: seq<Bytes>)
    ensures |r| == (|nodes| + 1) / 2
  {
    if |nodes| <= 1 then nodes
    else [h([1] + nodes[0] + nodes[1])] + Level(h, nodes[2..])
  }

  /** What is left after climbing all levels. */
  function Climb(h: Hash, nodes: seq<Bytes>): Bytes
    requires nodes != []
    decreases |nodes|
  {
    if |nodes| == 1 then nodes[0] else Climb(h, Level(h, nodes))
  }

  function Bottom(h: Hash, leaves: seq<Bytes>): (r: seq<Bytes>)
    ensures |r| == |leaves| && forall i :: 0 <= i < |r| ==> r[i] == h([0] + leaves[i])
  {
    seq(|leaves|, i requires 0 <= i < |leaves| => h([0] + leaves[i]))
  }

  /** The recursive split over the hashes of the leaves. */
  function Split(h: Hash, nodes: seq<Bytes>): Bytes
    requires nodes != []
    decreases |nodes|
  {
    if |nodes| == 1 then nodes[0]
    else h([1] + Split(h, nodes[..K(|nodes|)]) + Split(h, nodes[K(|nodes|)..]))
  }

  lemma {:induction false} RootIsSplit(h: Hash, leaves: seq<Bytes>)
    requires leaves != []
    ensures Root(h, leaves) == Split(h, Bottom(h, leaves))
    decreases |leaves|
  {
    if |leaves| > 1 {
      var k, nodes := K(|leaves|), Bottom(h, leaves);
      assert nodes[..k] == Bottom(h, leaves[..k]) && nodes[k..] == Bottom(h, leaves[k..]);
      RootIsSplit(h, leaves[..k]);
      RootIsSplit(h, leaves[k..]);
    }
  }

  lemma LevelPair(h: Hash, nodes: seq<Bytes>)
    requires |nodes| >= 2
    ensures Level(h, nodes) == [h([1] + nodes[0] + nodes[1])] + Level(h, nodes[2..])
  {
  }

  lemma {:induction false} LevelSplit(h: Hash, nodes: seq<Bytes>, k: nat)
    requires k <= |nodes| && k % 2 == 0
    ensures Level(h, nodes) == Level(h, nodes[..k]) + Level(h, nodes[k..])
    decreases k
  {
    assert Level(h, []) == [];
    hide Level;
    var left, right := nodes[..k], nodes[k..];
    if k == 0 {
      assert left == [] && right == nodes;
      assert [] + Level(h, nodes) == Level(h, nodes);
    } else {
      var rest := nodes[2..];
      assert rest[..k - 2] == left[2..] && rest[k - 2..] == right;
      LevelPair(h, nodes);
      LevelPair(h, left);
      LevelSplit(h, rest, k - 2);
      Regroup(h([1] + nodes[0] + nodes[1]), Level(h, left[2..]), Level(h, right));
    }
  }

  lemma Regroup(x: Bytes, s: seq<Bytes>, t: seq<Bytes>)
    ensures [x] + (s + t) == ([x] + s) + t
  {
  }

  lemma SplitNode(h: Hash, nodes: seq<Bytes>, k: nat)
    requires |nodes| >= 2 && k == K(|nodes|)
    ensures Split(h, nodes) == h([1] + Split(h, nodes[..k]) + Split(h, nodes[k..]))
  {
  }

  lemma SplitPair(h: Hash, nodes: seq<Bytes>)
    requires |nodes| == 2
    ensures Split(h, Level(h, nodes)) == Split(h, nodes)
  {
    KSpec(2);
    assert Level(h, nodes[2..]) == [];
  }

  /** One level up does not change the root. */
  lemma {:induction false} SplitOfLevel(h: Hash, nodes: seq<Bytes>)
    requires nodes != []
    ensures Split(h, Level(h, nodes)) == Split(h, nodes)
    decreases |nodes|
  {
    var n, k := |nodes|, K(|nodes|);
    if n == 2 {
      SplitPair(h, nodes);
    } else if n > 2 {
      KHalve(n);
      hide IsPow2, K, Level, Split;
      var left, right, up := nodes[..k], nodes[k..], Level(h, nodes);
      LevelSplit(h, nodes, k);
      assert up[..k / 2] == Level(h, left) && up[k / 2..] == Level(h, right);
      SplitOfLevel(h, left);
      SplitOfLevel(h, right);
      SplitNode(h, nodes, k);
      SplitNode(h, up, k / 2);
    }
  }

  lemma {:induction false} ClimbIsSplit(h: Hash, nodes: seq<Bytes>)
    requires nodes != []
    ensures Climb(h, nodes) == Split(h, nodes)
    decreases |nodes|
  {
    if |nodes| > 1 {
      ClimbIsSplit(h, Level(h, nodes));
      SplitOfLevel(h, nodes);
    }
  }

  /** For every log, the recursive root is what pairing neighbours up, level by level, comes to. */
  lemma RootByLevels(h: Hash, leaves: seq<Bytes>)
    ensures Root(h, leaves) == if leaves == [] then h([]) else Climb(h, Bottom(h, leaves))
  {
    if leaves != [] {
      RootIsSplit(h, leaves);
      ClimbIsSplit(h, Bottom(h, leaves));
    }
  }
}
