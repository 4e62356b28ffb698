// Bundles of several mandates' heads (hatls/federation.py).
module Federation {
  import opened Octets
  import opened Primitives
  import opened Receipts

  /** A mandate's short name: the first 32 hex digits of the hash of its key. */
  function MandateId(c: Crypto, key: Bytes): Bytes {
    c.sha256(key)[..16]
  }

  // ---------- the order of entries: by name, then size, then root ----------

  predicate BytesLeq(a: Bytes, b: Bytes) {
    a == [] || (b != [] && (a[0] < b[0] || (a[0] == b[0] && BytesLeq(a[1..], b[1..]))))
  }

  lemma {:induction false} BytesLeqTotal(a: Bytes, b: Bytes)
    ensures BytesLeq(a, b) || BytesLeq(b, a)
    ensures BytesLeq(a, b) && BytesLeq(b, a) ==> a == b
  {
    if a != [] && b != [] {
      BytesLeqTotal(a[1..], b[1..]);
      assert a == [a[0]] + a[1..] && b == [b[0]] + b[1..];
    }
  }

  lemma {:induction false} BytesLeqTransitive(a: Bytes, b: Bytes, d: Bytes)
    requires BytesLeq(a, b) && BytesLeq(b, d)
    ensures BytesLeq(a, d)
  {
    if a != [] && a[0] == b[0] == d[0] { BytesLeqTransitive(a[1..], b[1..], d[1..]); }
  }

  /** Bytes are compared as a dictionary orders words. */
  lemma {:induction false} BytesLeqExactly(a: Bytes, b: Bytes)
    ensures BytesLeq(a, b) <==> a <= b || exists i :: FirstDifference(a, b, i) && a[i] < b[i]
  {
    if a != [] && b != [] {
      BytesLeqExactly(a[1..], b[1..]);
      assert a == [a[0]] + a[1..] && b == [b[0]] + b[1..];
      if a[0] == b[0] {
        if i :| FirstDifference(a[1..], b[1..], i) && a[1..][i] < b[1..][i] {
          assert a[..i + 1] == [a[0]] + a[1..][..i] && b[..i + 1] == [b[0]] + b[1..][..i];
          assert FirstDifference(a, b, i + 1);
        }
        if i :| FirstDifference(a, b, i) && a[i] < b[i] {
          assert a[1..][..i - 1] == a[..i][1..] && b[1..][..i - 1] == b[..i][1..];
          assert FirstDifference(a[1..], b[1..], i - 1);
        }
      } else {
        assert FirstDifference(a, b, 0);
      }
    }
  }

  predicate FirstDifference(a: Bytes, b: Bytes, i: int) {
    0 <= i < |a| && i < |b| && a[i] != b[i] && a[..i] == b[..i]
  }

  predicate EntryLeq(e: BundleEntry, f: BundleEntry) {
    if e.id != f.id then BytesLeq(e.id, f.id)
    else if e.size != f.size then e.size < f.size
    else BytesLeq(e.root, f.root)
  }

  lemma EntryLeqTotal(e: BundleEntry, f: BundleEntry)
    ensures EntryLeq(e, f) || EntryLeq(f, e)
    ensures EntryLeq(e, f) && EntryLeq(f, e) ==> e == f
  {
    BytesLeqTotal(e.id, f.id);
    BytesLeqTotal(e.root, f.root);
  }

  lemma EntryLeqTransitive(e: BundleEntry, f: BundleEntry, g: BundleEntry)
    requires EntryLeq(e, f) && EntryLeq(f, g)
    ensures EntryLeq(e, g)
  {
    BytesLeqTotal(e.id, f.id);
    BytesLeqTotal(f.id, g.id);
    if e.id != f.id && f.id != g.id { BytesLeqTransitive(e.id, f.id, g.id); }
    if e.id == f.id == g.id && e.size == f.size == g.size { BytesLeqTransitive(e.root, f.root, g.root); }
  }

  // ---------- sorting ----------

  ghost predicate Sorted(s: seq<BundleEntry>) {
    forall i, j :: 0 <= i < j < |s| ==> EntryLeq(s[i], s[j])
  }

  function Insert(e: BundleEntry, s: seq<BundleEntry>): (r: seq<BundleEntry>)
    ensures multiset(r) == multiset(s) + multiset{e}
  {
    if s == [] then [e]
    else if EntryLeq(e, s[0]) then [e] + s
    else
      assert s == [s[0]] + s[1..];
      [s[0]] + Insert(e, s[1..])
  }

  /** Python's sorted: some ordered rearrangement; `SortedUnique` says there is only one. */
  function Sort(s: seq<BundleEntry>): (r: seq<BundleEntry>)
    ensures multiset(r) == multiset(s)
  {
    if s == [] then []
    else
      assert s == [s[0]] + s[1..];
      Insert(s[0], Sort(s[1..]))
  }

  lemma {:induction false} InsertSorted(e: BundleEntry, s: seq<BundleEntry>)
    requires Sorted(s)
    ensures Sorted(Insert(e, s))
  {
    if s != [] {
      if EntryLeq(e, s[0]) {
        forall j | 0 <= j < |s| ensures EntryLeq(e, s[j]) {
          if j > 0 { EntryLeqTransitive(e, s[0], s[j]); }
        }
      } else {
        EntryLeqTotal(e, s[0]);
        InsertSorted(e, s[1..]);
        var t := Insert(e, s[1..]);
        forall j | 0 <= j < |t| ensures EntryLeq(s[0], t[j]) {
          assert t[j] in multiset(t);
          assert t[j] == e || t[j] in s[1..];
        }
      }
    }
  }

  lemma {:induction false} SortSorted(s: seq<BundleEntry>)
    ensures Sorted(Sort(s))
  {
    if s != [] {
      SortSorted(s[1..]);
      InsertSorted(s[0], Sort(s[1..]));
    }
  }

  lemma SameLeast(s: seq<BundleEntry>, t: seq<BundleEntry>)
    requires s != [] && t != [] && Sorted(s) && Sorted(t) && multiset(s) == multiset(t)
    ensures s[0] == t[0]
  {
    hide EntryLeq;
    assert s[0] in multiset(t) && t[0] in multiset(s);
    EntryLeqTotal(s[0], t[0]);
  }

  lemma {:induction false} SortedUnique(s: seq<BundleEntry>, t: seq<BundleEntry>)
    requires Sorted(s) && Sorted(t) && multiset(s) == multiset(t)
    ensures s == t
  {
    assert |s| == |multiset(s)| == |multiset(t)| == |t|;
    if s != [] {
      hide EntryLeq;
      SameLeast(s, t);
      assert s == [s[0]] + s[1..] && t == [t[0]] + t[1..];
      assert multiset(s[1..]) == multiset(s) - multiset{s[0]};
      assert multiset(t[1..]) == multiset(t) - multiset{t[0]};
      SortedUnique(s[1..], t[1..]);
    }
  }

  // ---------- bundles ----------

  /** A mandate's key and the head it signed. */
  datatype Claim = Claim(key: Bytes, sth: Sth)

  function EntryOf(c: Crypto, p: Claim): BundleEntry {
    BundleEntry(MandateId(c, p.key), p.sth.size, p.sth.root)
  }

  function Entries(c: Crypto, pairs: seq<Claim>): (r: seq<BundleEntry>)
    ensures |r| == |pairs| && forall i :: 0 <= i < |r| ==> r[i] == EntryOf(c, pairs[i])
  {
    if pairs == [] then [] else [EntryOf(c, pairs[0])] + Entries(c, pairs[1..])
  }

  function BundleEntries(c: Crypto, pairs: seq<Claim>): seq<BundleEntry> {
    Sort(Entries(c, pairs))
  }

  function BundleCommitment(c: Crypto, entries: seq<BundleEntry>): Digest {
    c.sha256(c.bundleBytes(entries))
  }

  /** None stands for the exception on a head its mandate did not sign. */
  function MakeBundle(c: Crypto, pairs: seq<Claim>): Option<(Digest, seq<BundleEntry>)> {
    if forall p | p in pairs :: VerifySth(c, p.key, p.sth)
    then var entries := BundleEntries(c, pairs); Some((BundleCommitment(c, entries), entries))
    else None
  }

  predicate VerifyBundle(c: Crypto, commitment: Bytes, entries: seq<BundleEntry>) {
    BundleCommitment(c, entries) == commitment
  }

  function EntryFor(c: Crypto, entries: seq<BundleEntry>, key: Bytes): Option<BundleEntry> {
    if entries == [] then None
    else if entries[0].id == MandateId(c, key) then Some(entries[0])
    else EntryFor(c, entries[1..], key)
  }

  function Without<T>(s: seq<T>, i: nat): (r: seq<T>)
    requires i < |s|
    ensures |r| == |s| - 1
    ensures multiset(s) == multiset(r) + multiset{s[i]}
  {
    assert s == s[..i] + ([s[i]] + s[i + 1..]);
    s[..i] + s[i + 1..]
  }

  lemma EntriesWithout(c: Crypto, q: seq<Claim>, i: nat)
    requires i < |q|
    ensures Entries(c, Without(q, i)) == Without(Entries(c, q), i)
  {
  }

  lemma {:induction false} EntriesOfSamePairs(c: Crypto, p: seq<Claim>, q: seq<Claim>)
    requires multiset(p) == multiset(q)
    ensures multiset(Entries(c, p)) == multiset(Entries(c, q))
    decreases |p|
  {
    hide Without, Entries;
    if p == [] {
      assert |multiset(q)| == 0;
    } else {
      assert p[0] in multiset(q);
      var i :| 0 <= i < |q| && q[i] == p[0];
      EntriesWithout(c, p, 0);
      EntriesWithout(c, q, i);
      assert multiset(Without(p, 0)) == multiset(p) - multiset{p[0]} == multiset(Without(q, i));
      EntriesOfSamePairs(c, Without(p, 0), Without(q, i));
    }
  }

  /** In the order of a dictionary, or equal. */
  ghost predicate Before(a: Bytes, b: Bytes) {
    a <= b || exists i :: FirstDifference(a, b, i) && a[i] < b[i]
  }

  /** By name, then by size, then by root. */
  ghost predicate InOrder(e: BundleEntry, f: BundleEntry) {
    Before(e.id, f.id) && (e.id == f.id ==> e.size <= f.size && (e.size == f.size ==> Before(e.root, f.root)))
  }

  lemma EntryOrder(e: BundleEntry, f: BundleEntry)
    ensures EntryLeq(e, f) <==> InOrder(e, f)
  {
    hide BytesLeq;
    BytesLeqExactly(e.id, f.id);
    BytesLeqExactly(e.root, f.root);
  }

  /** A bundle is made exactly if every head in it is signed by its mandate; it holds one entry per
      head, with its mandate's short name and its own size and root, in order, and its commitment is
      the hash of all of them. */
  lemma MakeBundleExactly(c: Crypto, pairs: seq<Claim>)
    ensures var signed := forall p | p in pairs ::
              c.signedBy(p.key, c.sthBytes(p.sth.size, p.sth.root, p.sth.at), p.sth.sig);
            && (MakeBundle(c, pairs).Some? <==> signed)
            && (signed ==>
                  var (commitment, entries) := MakeBundle(c, pairs).value;
                  && commitment == c.sha256(c.bundleBytes(entries))
                  && multiset(entries) == multiset(Claims(c, pairs))
                  && forall i, j :: 0 <= i < j < |entries| ==> InOrder(entries[i], entries[j]))
  {
    hide Sort, Entries, Claims, EntryLeq, InOrder;
    SortSorted(Entries(c, pairs));
    ClaimsAreEntries(c, pairs);
    var entries := BundleEntries(c, pairs);
    forall i, j | 0 <= i < j < |entries| ensures InOrder(entries[i], entries[j]) { EntryOrder(entries[i], entries[j]); }
  }

  lemma ClaimsAreEntries(c: Crypto, pairs: seq<Claim>)
    ensures Entries(c, pairs) == Claims(c, pairs)
  {
  }

  function Claims(c: Crypto, pairs: seq<Claim>): seq<BundleEntry> {
    seq(|pairs|, i requires 0 <= i < |pairs| =>
      BundleEntry(c.sha256(pairs[i].key)[..16], pairs[i].sth.size, pairs[i].sth.root))
  }

  /** Whoever rebuilds a bundle from the same heads, in any order, gets the same entries and the
      same commitment. */
  lemma BundleIsCanonical(c: Crypto, p: seq<Claim>, q: seq<Claim>)
    requires multiset(p) == multiset(q)
    ensures MakeBundle(c, p) == MakeBundle(c, q)
  {
    EntriesOfSamePairs(c, p, q);
    SortSorted(Entries(c, p));
    SortSorted(Entries(c, q));
    SortedUnique(BundleEntries(c, p), BundleEntries(c, q));
    assert forall x :: x in p <==> x in multiset(p);
    assert forall x :: x in q <==> x in multiset(q);
  }

  /** The entry a mandate checks in a bundle is there exactly when some entry carries its name; it
      is the one of least size among those, and it is the claim of a head its bearer signed. */
  lemma {:induction false} EntryForLeast(c: Crypto, entries: seq<BundleEntry>, key: Bytes)
    requires Sorted(entries)
    ensures EntryFor(c, entries, key).None? <==> forall e | e in entries :: e.id != MandateId(c, key)
    ensures EntryFor(c, entries, key).Some? ==>
              var mine := EntryFor(c, entries, key).value;
              && mine in entries && mine.id == MandateId(c, key)
              && forall e | e in entries && e.id == MandateId(c, key) :: mine.size <= e.size
  {
    if entries != [] {
      assert entries == [entries[0]] + entries[1..];
      if entries[0].id != MandateId(c, key) { EntryForLeast(c, entries[1..], key); }
    }
  }

  /** Every mandate whose signed head went into a bundle finds itself in it. */
  lemma EveryMandateIsNamed(c: Crypto, pairs: seq<Claim>, p: Claim)
    requires MakeBundle(c, pairs).Some? && p in pairs
    ensures var (commitment, entries) := MakeBundle(c, pairs).value;
            && VerifyBundle(c, commitment, entries)
            && EntryFor(c, entries, p.key).Some?
            && exists q :: q in pairs && c.sha256(q.key)[..16] == c.sha256(p.key)[..16]
                 && VerifySth(c, q.key, q.sth)
                     && EntryFor(c, entries, p.key).value == BundleEntry(c.sha256(p.key)[..16], q.sth.size, q.sth.root)
  {
    var entries := BundleEntries(c, pairs);
    SortSorted(Entries(c, pairs));
    EntryForLeast(c, entries, p.key);
    var i :| 0 <= i < |pairs| && pairs[i] == p;
    assert Entries(c, pairs)[i] in multiset(entries);
    var mine := EntryFor(c, entries, p.key).value;
    assert mine in multiset(entries);
    assert mine in multiset(Entries(c, pairs));
    var j :| 0 <= j < |pairs| && Entries(c, pairs)[j] == mine;
    assert pairs[j] in pairs;
  }
}
