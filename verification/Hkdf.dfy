// The HKDF expansion of hatls/transcript.py and hatls/protocol.py, and the chain's links.
module Hkdf {
  import opened Octets
  import opened Primitives

  type Hmac = (Bytes, Bytes) -> Bytes

  ghost predicate OutputLength(hmac: Hmac, size: nat) {
    size > 0 && forall key, message :: |hmac(key, message)| == size
  }

  // ---------- section 2.3 of RFC 5869 ----------

  /** T(i). */
  function Block(hmac: Hmac, prk: Bytes, info: Bytes, i: nat): Bytes
    requires i <= 255
  {
    if i == 0 then [] else hmac(prk, Block(hmac, prk, info, i - 1) + info + [i])
  }

  /** T(1) || T(2) || ... || T(count). */
  function Blocks(hmac: Hmac, prk: Bytes, info: Bytes, count: nat): Bytes
    requires count <= 255
  {
    if count == 0 then []
    else Blocks(hmac, prk, info, count - 1) + Block(hmac, prk, info, count)
  }

  lemma {:induction false} BlocksPrefix(hmac: Hmac, prk: Bytes, info: Bytes, i: nat, j: nat)
    requires i <= j <= 255
    ensures Blocks(hmac, prk, info, i) <= Blocks(hmac, prk, info, j)
    decreases j
  {
    if i < j { BlocksPrefix(hmac, prk, info, i, j - 1); }
  }

  lemma {:induction false} BlocksLength(hmac: Hmac, size: nat, prk: Bytes, info: Bytes, count: nat)
    requires OutputLength(hmac, size) && count <= 255
    ensures |Blocks(hmac, prk, info, count)| == count * size
  {
    if count > 0 { BlocksLength(hmac, size, prk, info, count - 1); }
  }

  /** The expansion loop: n bytes, and a prefix of every run of blocks that has n bytes. */
  method Expand(hmac: Hmac, ghost size: nat, prk: Bytes, info: Bytes, n: nat) returns (okm: Bytes)
    requires OutputLength(hmac, size) && n <= 255 * size
    ensures |okm| == n
    ensures forall count: nat | n <= count * size && count <= 255 :: okm <= Blocks(hmac, prk, info, count)
  {
    hide OutputLength;
    var out, t: Bytes, i := [], [], 1;
    BlocksLength(hmac, size, prk, info, 0);
    while |out| < n
      invariant 1 <= i <= 256
      invariant t == Block(hmac, prk, info, i - 1) && out == Blocks(hmac, prk, info, i - 1)
      invariant |out| == (i - 1) * size
      decreases 256 - i
    {
      StillRoom(i - 1, size, n);
      t := hmac(prk, t + info + [i]);
      out := out + t;
      i := i + 1;
      BlocksLength(hmac, size, prk, info, i - 1);
    }
    okm := out[..n];
    forall count: nat | n <= count * size && count <= 255 ensures okm <= Blocks(hmac, prk, info, count) {
      AnyBlocksDo(hmac, size, prk, info, n, i - 1, count);
    }
  }

  /** The blocks of section 2.3 of RFC 5869, as the equations that define them. */
  ghost predicate IsExpansion(hmac: Hmac, prk: Bytes, info: Bytes, ts: seq<Bytes>) {
    && |ts| <= 255
    && (ts != [] ==> ts[0] == hmac(prk, info + [1]))
    && forall i: byte :: 1 <= i < |ts| ==> ts[i] == hmac(prk, ts[i - 1] + info + [i + 1])
  }

  function Joined(ts: seq<Bytes>): Bytes {
    if ts == [] then [] else Joined(ts[..|ts| - 1]) + ts[|ts| - 1]
  }

  /** Whatever meets those equations is what the loop produces. */
  lemma {:induction false} ExpansionIsBlocks(hmac: Hmac, prk: Bytes, info: Bytes, ts: seq<Bytes>)
    requires IsExpansion(hmac, prk, info, ts)
    ensures Joined(ts) == Blocks(hmac, prk, info, |ts|)
    ensures ts != [] ==> ts[|ts| - 1] == Block(hmac, prk, info, |ts|)
    decreases |ts|
  {
    if ts != [] {
      var n := |ts| - 1;
      ExpansionIsBlocks(hmac, prk, info, ts[..n]);
      if n == 0 {
        assert [] + info + [1] == info + [1];
      } else {
        var i: byte := n;
        assert ts[i] == hmac(prk, ts[..n][n - 1] + info + [i + 1]);
      }
    }
  }

  /** Any two runs of blocks that are long enough agree on their first n bytes. */
  lemma AnyBlocksDo(hmac: Hmac, size: nat, prk: Bytes, info: Bytes, n: nat, i: nat, j: nat)
    requires OutputLength(hmac, size) && i <= 255 && j <= 255 && n <= i * size && n <= j * size
    ensures n <= |Blocks(hmac, prk, info, i)| && Blocks(hmac, prk, info, i)[..n] <= Blocks(hmac, prk, info, j)
  {
    BlocksLength(hmac, size, prk, info, i);
    BlocksLength(hmac, size, prk, info, j);
    hide Blocks, OutputLength;
    if i <= j { BlocksPrefix(hmac, prk, info, i, j); } else { BlocksPrefix(hmac, prk, info, j, i); }
  }

  lemma StillRoom(done: nat, size: nat, n: nat)
    requires done <= 255 && done * size < n <= 255 * size
    ensures done < 255
  {
  }

  // ---------- labels: the shape of section 7.1 of RFC 8446 ----------

  /** The info string; `bytes([...])` refuses a label or context of more than 255 bytes. */
  function LabelInfo(full: Bytes, context: Bytes, n: nat): Bytes
    requires |full| <= 255 && |context| <= 255 && n < 0x1_0000
  {
    U16(n) + [|full|] + full + [|context|] + context
  }

  /** Where the parts stand in it. */
  lemma LabelInfoParts(full: Bytes, context: Bytes, n: nat)
    requires |full| <= 255 && |context| <= 255 && n < 0x1_0000
    ensures var x := LabelInfo(full, context, n);
            && |x| == 4 + |full| + |context| && n == FromU16(x[0], x[1]) && x[2] == |full|
            && x[3..3 + |full|] == full && x[3 + |full|] == |context| && x[4 + |full|..] == context
  {
  }

  lemma LabelInfoInjective(full: Bytes, context: Bytes, n: nat, full': Bytes, context': Bytes, n': nat)
    requires |full| <= 255 && |context| <= 255 && n < 0x1_0000
    requires |full'| <= 255 && |context'| <= 255 && n' < 0x1_0000
    requires LabelInfo(full, context, n) == LabelInfo(full', context', n')
    ensures full == full' && context == context' && n == n'
  {
    hide LabelInfo;
    LabelInfoParts(full, context, n);
    LabelInfoParts(full', context', n');
  }

  function HatlsLabel(name: Bytes): Bytes { Ascii("EXPERIMENTAL-hatls ") + name }
  function Tls13Label(name: Bytes): Bytes { Ascii("tls13 ") + name }

  /** In each label space the info string determines length, label and context; and no info string
      belongs to both spaces. */
  lemma LabelSpaces(name: Bytes, context: Bytes, n: nat, name': Bytes, context': Bytes, n': nat)
    requires |name| <= 249 && |context| <= 255 && n < 0x1_0000
    requires |name'| <= 249 && |context'| <= 255 && n' < 0x1_0000
    ensures |name| <= 236 && |name'| <= 236
         && LabelInfo(HatlsLabel(name), context, n) == LabelInfo(HatlsLabel(name'), context', n')
       ==> (name == name' && context == context' && n == n')
    ensures LabelInfo(Tls13Label(name), context, n) == LabelInfo(Tls13Label(name'), context', n')
       ==> (name == name' && context == context' && n == n')
    ensures |name| <= 236 ==> LabelInfo(HatlsLabel(name), context, n) != LabelInfo(Tls13Label(name'), context', n')
  {
    var a, a', b, b' := HatlsLabel(name), HatlsLabel(name'), Tls13Label(name), Tls13Label(name');
    assert a[19..] == name && a'[19..] == name' && b[6..] == name && b'[6..] == name';
    assert a[0] == 'E' as int && b'[0] == 't' as int;
    if |name| <= 236 && |name'| <= 236 && LabelInfo(a, context, n) == LabelInfo(a', context', n') {
      LabelInfoInjective(a, context, n, a', context', n');
    }
    if LabelInfo(b, context, n) == LabelInfo(b', context', n') {
      LabelInfoInjective(b, context, n, b', context', n');
    }
    if |name| <= 236 && LabelInfo(a, context, n) == LabelInfo(b', context', n') {
      LabelInfoInjective(a, context, n, b', context', n');
    }
  }

  /** What it comes to for an output that one HMAC-SHA-384 block covers, as all links are. */
  function ExpandLabel(c: Crypto, secret: Bytes, name: Bytes, context: Bytes, n: nat): (r: Bytes)
    requires |name| <= 236 && |context| <= 255 && n <= 48
    ensures |r| == n
  {
    c.hmac384(secret, LabelInfo(HatlsLabel(name), context, n) + [1])[..n]
  }

  /** `_hkdf_expand_label`: the first n bytes of the blocks for the label's info string. */
  method HkdfExpandLabel(c: Crypto, secret: Bytes, name: Bytes, context: Bytes, n: nat) returns (okm: Bytes)
    requires |name| <= 236 && |context| <= 255 && n <= 255 * 48
    ensures |okm| == n
    ensures forall count: nat | n <= count * 48 && count <= 255 ::
      okm <= Blocks(Hmac384(c), secret, LabelInfo(HatlsLabel(name), context, n), count)
    ensures n <= 48 ==> okm == ExpandLabel(c, secret, name, context, n)
  {
    var info := LabelInfo(HatlsLabel(name), context, n);
    okm := Expand(Hmac384(c), 48, secret, info, n);
    if n <= 48 { OneBlock(c, secret, info, n, okm); }
  }

  /** `tls13_hkdf_expand_label`, for the hash of the cipher suite. */
  method Tls13HkdfExpandLabel(hmac: Hmac, ghost size: nat, secret: Bytes, name: Bytes, context: Bytes, n: nat)
    returns (okm: Bytes)
    requires OutputLength(hmac, size) && |name| <= 249 && |context| <= 255 && n <= 255 * size && n < 0x1_0000
    ensures |okm| == n
    ensures forall count: nat | n <= count * size && count <= 255 ::
      okm <= Blocks(hmac, secret, LabelInfo(Tls13Label(name), context, n), count)
  {
    okm := Expand(hmac, size, secret, LabelInfo(Tls13Label(name), context, n), n);
  }

  function Hmac384(c: Crypto): Hmac {
    (key, message) => c.hmac384(key, message)
  }

  lemma FirstBlock(hmac: Hmac, prk: Bytes, info: Bytes)
    ensures Blocks(hmac, prk, info, 1) == hmac(prk, info + [1])
  {
    assert Block(hmac, prk, info, 0) == [] && [] + info + [1] == info + [1];
    assert Blocks(hmac, prk, info, 0) == [];
  }

  lemma OneBlock(c: Crypto, secret: Bytes, info: Bytes, n: nat, okm: Bytes)
    requires |okm| == n <= 48 && okm <= Blocks(Hmac384(c), secret, info, 1)
    ensures okm == c.hmac384(secret, info + [1])[..n]
  {
    FirstBlock(Hmac384(c), secret, info);
    hide Blocks;
  }

  // ---------- links ----------

  type Link = b: Bytes | |b| == 32 witness seq(32, _ => 0)

  /** bytes([len]) in the label encoding refuses a longer context. */
  type SessionContext = b: Bytes | |b| <= 255

  /** counter.to_bytes(8) refuses a larger counter. */
  type Counter = n: nat | n < 0x1_0000_0000_0000_0000

  function LinkBase(c: Crypto, context: SessionContext): Bytes {
    ExpandLabel(c, seq(48, _ => 0), Ascii("attestation base"), context, 48)
  }

  function IntraLink(c: Crypto, context: SessionContext, tik: Bytes): Link {
    ExpandLabel(c, LinkBase(c, context), Ascii("attestation"), c.sha384(tik), 32)
  }

  function PostLink(c: Crypto, exporter: Bytes, prev: Link, counter: Counter): Link {
    ExpandLabel(c, exporter, Ascii("continuity"), prev + BigEndian(counter, 8), 32)
  }

  /** What a link is derived from. */
  datatype LinkInput =
    | Intra(context: SessionContext, tik: Bytes)
    | Post(exporter: Bytes, prev: Link, counter: Counter)

  function LinkOf(c: Crypto, q: LinkInput): Link {
    match q
    case Intra(context, tik) => IntraLink(c, context, tik)
    case Post(exporter, prev, counter) => PostLink(c, exporter, prev, counter)
  }

  /** The final HMAC call behind a link. */
  function LinkCall(c: Crypto, q: LinkInput): (Bytes, Bytes) {
    match q
    case Intra(context, tik) =>
      (LinkBase(c, context), LabelInfo(HatlsLabel(Ascii("attestation")), c.sha384(tik), 32) + [1])
    case Post(exporter, prev, counter) =>
      (exporter, LabelInfo(HatlsLabel(Ascii("continuity")), prev + BigEndian(counter, 8), 32) + [1])
  }

  /** Two different inputs with the same link exhibit a collision of HMAC-SHA-384 (in its first 32
      bytes, or in full on two session contexts under the zero key) or of SHA-384 on the two keys. */
  lemma LinkCollision(c: Crypto, p: LinkInput, q: LinkInput)
    requires p != q && LinkOf(c, p) == LinkOf(c, q)
    ensures var (x, y) := (LinkCall(c, p), LinkCall(c, q));
            || (x != y && c.hmac384(x.0, x.1)[..32] == c.hmac384(y.0, y.1)[..32])
            || (p.Intra? && q.Intra? && p.context != q.context && LinkBase(c, p.context) == LinkBase(c, q.context))
            || (p.Intra? && q.Intra? && p.tik != q.tik && c.sha384(p.tik) == c.sha384(q.tik))
  {
    var x, y := LinkCall(c, p), LinkCall(c, q);
    if x == y {
      var i, j := x.1[..|x.1| - 1], y.1[..|y.1| - 1];
      if p.Intra? && q.Intra? {
        assert i == LabelInfo(HatlsLabel(Ascii("attestation")), c.sha384(p.tik), 32);
        assert j == LabelInfo(HatlsLabel(Ascii("attestation")), c.sha384(q.tik), 32);
        LabelSpaces(Ascii("attestation"), c.sha384(p.tik), 32, Ascii("attestation"), c.sha384(q.tik), 32);
      } else if p.Post? && q.Post? {
        var k, l := p.prev + BigEndian(p.counter, 8), q.prev + BigEndian(q.counter, 8);
        assert i == LabelInfo(HatlsLabel(Ascii("continuity")), k, 32);
        assert j == LabelInfo(HatlsLabel(Ascii("continuity")), l, 32);
        LabelSpaces(Ascii("continuity"), k, 32, Ascii("continuity"), l, 32);
        assert p.prev == k[..32] && q.prev == l[..32] && k[32..] == BigEndian(p.counter, 8)
            && l[32..] == BigEndian(q.counter, 8);
        CounterBytes(p.counter);
        CounterBytes(q.counter);
      } else {
        OtherLabel(c, if p.Intra? then p else q, if p.Post? then p else q);
      }
    }
  }

  lemma CounterBytes(counter: Counter)
    ensures FromBigEndian(BigEndian(counter, 8)) == counter
  {
    assert Pow256(8) == 0x1_0000_0000_0000_0000 by {
      assert Pow256(4) == 0x1_0000_0000;
    }
    BigEndianRoundTrip(counter, 8);
  }

  lemma OtherLabel(c: Crypto, p: LinkInput, q: LinkInput)
    requires p.Intra? && q.Post?
    ensures LinkCall(c, p).1 != LinkCall(c, q).1
  {
    var k := q.prev + BigEndian(q.counter, 8);
    var i := LabelInfo(HatlsLabel(Ascii("attestation")), c.sha384(p.tik), 32);
    var j := LabelInfo(HatlsLabel(Ascii("continuity")), k, 32);
    assert i[2] == 30 && j[2] == 29;
    assert (i + [1])[2] == 30 && (j + [1])[2] == 29;
  }

  /** The links spelled out: HMAC-SHA-384 over output length, label, context and block number. */
  lemma LinksSpelledOut(c: Crypto, context: SessionContext, tik: Bytes, exporter: Bytes, prev: Link, counter: Counter,
                        zeros: Bytes)
    requires |zeros| == 48 && forall i :: 0 <= i < 48 ==> zeros[i] == 0
    ensures IntraLink(c, context, tik) ==
              var base := c.hmac384(zeros, Spelled(48, "attestation base", context));
              c.hmac384(base, Spelled(32, "attestation", c.sha384(tik)))[..32]
    ensures PostLink(c, exporter, prev, counter) ==
              c.hmac384(exporter, Spelled(32, "continuity", prev + BigEndian(counter, 8)))[..32]
  {
    SpelledIsLabel(48, "attestation base", context);
    SpelledIsLabel(32, "attestation", c.sha384(tik));
    SpelledIsLabel(32, "continuity", prev + BigEndian(counter, 8));
    BaseSpelledOut(c, context, zeros);
    hide LabelInfo, HatlsLabel, Spelled;
  }

  lemma BaseSpelledOut(c: Crypto, context: SessionContext, zeros: Bytes)
    requires |zeros| == 48 && forall i :: 0 <= i < 48 ==> zeros[i] == 0
    ensures LinkBase(c, context) == c.hmac384(zeros, Spelled(48, "attestation base", context))
  {
    SpelledIsLabel(48, "attestation base", context);
    hide LabelInfo, HatlsLabel, Spelled;
    var key: Bytes := seq(48, _ => 0);
    assert zeros == key;
  }

  /** The bytes that go into the one block of such an output. */
  function Spelled(n: nat, name: string, context: Bytes): Bytes
    requires (forall i :: 0 <= i < |name| ==> name[i] as int < 256) && |name| <= 236 && |context| <= 255 && n < 256
  {
    [0, n, 19 + |name|] + (Ascii("EXPERIMENTAL-hatls ") + Ascii(name)) + [|context|] + context + [1]
  }

  lemma SpelledIsLabel(n: nat, name: string, context: Bytes)
    requires (forall i :: 0 <= i < |name| ==> name[i] as int < 256) && |name| <= 236 && |context| <= 255 && n < 256
    ensures Spelled(n, name, context) == LabelInfo(HatlsLabel(Ascii(name)), context, n) + [1]
  {
    assert U16(n) == [0, n];
  }
}
