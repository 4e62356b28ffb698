// The chain of links of one attester, and the attester itself (hatls/protocol.py).
module Chain {
  import opened Octets
  import opened Primitives
  import opened Hkdf
  import opened Ledger

  const COUNTERS: nat := 0x1_0000_0000_0000_0000

  /** The link reached from the first link of `context` by one step per exporter, counted from 0. */
  function ChainLink(c: Crypto, context: SessionContext, tik: Bytes, exporters: seq<Bytes>): Link
    requires |exporters| <= COUNTERS
  {
    LinkOf(c, ChainInput(c, context, tik, exporters))
  }

  /** What that link is derived from. */
  function ChainInput(c: Crypto, context: SessionContext, tik: Bytes, exporters: seq<Bytes>): LinkInput
    requires |exporters| <= COUNTERS
    decreases |exporters|
  {
    if exporters == [] then Intra(context, tik)
    else
      var n := |exporters| - 1;
      Post(exporters[n], LinkOf(c, ChainInput(c, context, tik, exporters[..n])), n)
  }

  /** The inputs of every link of the chain. */
  ghost function ChainInputs(c: Crypto, context: SessionContext, tik: Bytes, exporters: seq<Bytes>): set<LinkInput>
    requires |exporters| <= COUNTERS
    decreases |exporters|
  {
    {ChainInput(c, context, tik, exporters)}
    + if exporters == [] then {} else ChainInputs(c, context, tik, exporters[..|exporters| - 1])
  }

  ghost predicate LinksCollide(c: Crypto, inputs: set<LinkInput>) {
    exists p, q :: p in inputs && q in inputs && p != q && LinkOf(c, p) == LinkOf(c, q)
  }

  lemma NoLinkCollision(c: Crypto, inputs: set<LinkInput>, p: LinkInput, q: LinkInput)
    requires !LinksCollide(c, inputs) && p in inputs && q in inputs && LinkOf(c, p) == LinkOf(c, q)
    ensures p == q
  {
  }

  /** A link commits to the whole chain behind it: its session, its identity, and every exporter in
      order. */
  lemma {:induction false} LinkCommits(c: Crypto, inputs: set<LinkInput>, context: SessionContext, tik: Bytes,
                                       es: seq<Bytes>,
                                       context': SessionContext, tik': Bytes, es': seq<Bytes>)
    requires |es| <= COUNTERS && |es'| <= COUNTERS && !LinksCollide(c, inputs)
    requires ChainInputs(c, context, tik, es) <= inputs && ChainInputs(c, context', tik', es') <= inputs
    requires ChainLink(c, context, tik, es) == ChainLink(c, context', tik', es')
    ensures context == context' && tik == tik' && es == es'
    decreases |es|
  {
    hide IntraLink, PostLink;
    NoLinkCollision(c, inputs, ChainInput(c, context, tik, es), ChainInput(c, context', tik', es'));
    if es != [] {
      var n := |es| - 1;
      LinkCommits(c, inputs, context, tik, es[..n], context', tik', es'[..n]);
      assert es == es[..n] + [es[n]] && es' == es'[..n] + [es'[n]];
    }
  }

  lemma {:induction false} ChainInputsPrefix(c: Crypto, context: SessionContext, tik: Bytes, es: seq<Bytes>, n: nat)
    requires n <= |es| <= COUNTERS
    ensures ChainInputs(c, context, tik, es[..n]) <= ChainInputs(c, context, tik, es)
    decreases |es|
  {
    if n == |es| {
      assert es[..n] == es;
    } else {
      ChainInputsPrefix(c, context, tik, es[..|es| - 1], n);
      assert es[..|es| - 1][..n] == es[..n];
    }
  }

  lemma ChainStep(c: Crypto, context: SessionContext, tik: Bytes, es: seq<Bytes>, e: Bytes)
    requires |es| < COUNTERS
    ensures ChainLink(c, context, tik, es + [e]) == PostLink(c, e, ChainLink(c, context, tik, es), |es|)
    ensures ChainInputs(c, context, tik, es + [e])
         == {ChainInput(c, context, tik, es + [e])} + ChainInputs(c, context, tik, es)
  {
    assert (es + [e])[..|es|] == es;
  }

  lemma ChainStart(c: Crypto, context: SessionContext, tik: Bytes)
    ensures ChainLink(c, context, tik, []) == IntraLink(c, context, tik)
  {
  }

  datatype Attestation = Attestation(counter: Counter, firstOfChain: bool, postLink: Link, evidence: Bytes,
                                     head: Option<Bytes>)

  /** Runs inside the guest; `report` is what its TEE signs. */
  class Attester {
    const c: Crypto
    const report: Bytes -> Bytes
    const tik: Bytes
    var prev: Option<Link>
    var counter: nat
    ghost var context: SessionContext      // of the first call
    ghost var exporters: seq<Bytes>        // of every call, in order

    ghost predicate Valid()
      reads this
    {
      && counter == |exporters| <= COUNTERS
      && (prev.None? <==> exporters == [])
      && (prev.Some? ==> prev.value == ChainLink(c, context, tik, exporters))
    }

    constructor (c: Crypto, report: Bytes -> Bytes, tik: Bytes)
      ensures Valid() && exporters == []
      ensures this.c == c && this.report == report && this.tik == tik
    {
      this.c, this.report, this.tik := c, report, tik;
      prev, counter := None, 0;
      context, exporters := [], [];
    }

    /** Each call signs the next link of the one chain this attester is on. */
    method Attest(transcript: SessionContext, exporter: Bytes, head: Option<Bytes>) returns (msg: Attestation)
      requires Valid() && counter < COUNTERS
      modifies this
      ensures Valid() && exporters == old(exporters) + [exporter]
      ensures context == if old(exporters) == [] then transcript else old(context)
      ensures msg.counter == old(counter) && (msg.firstOfChain <==> old(exporters) == []) && msg.head == head
      ensures msg.postLink == ChainLink(c, context, tik, exporters)
      ensures msg.evidence == report(ReportData(c, msg.postLink, head))
    {
      hide ChainLink, IntraLink, PostLink, ReportData;
      var il := IntraLink(c, transcript, tik);
      var base := if prev.Some? then prev.value else il;
      var pl := PostLink(c, exporter, base, counter);
      var evidence := report(ReportData(c, pl, head));
      msg := Attestation(counter, prev.None?, pl, evidence, head);
      if exporters == [] {
        context := transcript;
        ChainStart(c, transcript, tik);
      }
      ChainStep(c, context, tik, exporters, exporter);
      exporters := exporters + [exporter];
      prev := Some(pl);
      counter := counter + 1;
    }
  }
}
