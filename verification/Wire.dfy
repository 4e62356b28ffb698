// Handshake messages out of raw TLS records (hatls/transcript.py, examples/hrr_binder.py).
module Wire {
  import opened Octets

  const HANDSHAKE: byte := 0x16
  const CHANGE_CIPHER_SPEC: byte := 0x14
  const CLIENT_HELLO: byte := 0x01
  const SERVER_HELLO: byte := 0x02

  function Min(a: int, b: int): int { if a < b then a else b }

  /** A slice that, as in Python, stops at the end. */
  function Slice(s: Bytes, from: nat, to: nat): Bytes
    requires from <= |s| && from <= to
  {
    s[from..Min(to, |s|)]
  }

  // ---------- records and messages as the sender writes them ----------

  datatype TlsRecord = TlsRecord(ctype: byte, versionHi: byte, versionLo: byte, body: Bytes)

  type WireRecord = r: TlsRecord | |r.body| < 0x1_0000 witness TlsRecord(0, 0, 0, [])

  function EncodeRecord(r: WireRecord): Bytes {
    [r.ctype, r.versionHi, r.versionLo] + U16(|r.body|) + r.body
  }

  function Encode(rs: seq<WireRecord>): Bytes {
    if rs == [] then [] else EncodeRecord(rs[0]) + Encode(rs[1..])
  }

  /** The handshake bytes carried by a list of records. */
  function HandshakeBytes(rs: seq<WireRecord>): Bytes {
    if rs == [] then []
    else (if rs[0].ctype == HANDSHAKE then rs[0].body else []) + HandshakeBytes(rs[1..])
  }

  /** The handshake bytes that follow `hs` in a list of records, up to the first record of another
      type that stands after a handshake byte. */
  function RunFrom(rs: seq<WireRecord>, hs: Bytes): (r: Bytes)
    ensures hs <= r
  {
    if rs == [] then hs
    else if rs[0].ctype == HANDSHAKE then RunFrom(rs[1..], hs + rs[0].body)
    else if hs == [] then RunFrom(rs[1..], hs)
    else hs
  }

  /** There is such a record. */
  predicate StopsIn(rs: seq<WireRecord>, hs: Bytes) {
    if rs == [] then false
    else if rs[0].ctype == HANDSHAKE then StopsIn(rs[1..], hs + rs[0].body)
    else hs != [] || StopsIn(rs[1..], hs)
  }

  function RunOf(rs: seq<WireRecord>): Bytes { RunFrom(rs, []) }

  function LengthField(hs: Bytes): nat
    requires |hs| >= 4
  {
    0x1_0000 * hs[1] as int + 0x100 * hs[2] as int + hs[3] as int
  }

  predicate Complete(hs: Bytes) {
    |hs| >= 4 && |hs| >= 4 + LengthField(hs)
  }

  /** A handshake message with its four-byte header. */
  predicate IsMessage(m: Bytes) {
    |m| >= 4 && |m| == 4 + LengthField(m)
  }

  lemma LengthFieldValue(hs: Bytes)
    requires |hs| >= 4
    ensures LengthField(hs) == ValueOf(hs[1..4])
  {
    var x, y, z := hs[1], hs[2], hs[3];
    assert hs[1..4] == [] + [x] + [y] + [z];
    assert ValueOf([]) == 0;
    hide ValueOf;
    ValueOfAppended([], x);
    ValueOfAppended([] + [x], y);
    ValueOfAppended([] + [x] + [y], z);
  }

  /** A message is a type, the length of its body in three bytes, and its body. */
  lemma MessageExactly(m: Bytes)
    ensures IsMessage(m) <==> 4 <= |m| < 4 + 0x100_0000 && m == [m[0]] + BigEndian(|m| - 4, 3) + m[4..]
  {
    if 4 <= |m| {
      LengthFieldValue(m);
      LengthBytes(m[1..4], |m| - 4);
      ThreeParts(m, BigEndian(|m| - 4, 3));
      hide LengthField, BigEndian, ValueOf;
    }
  }

  lemma LengthBytes(b: Bytes, n: nat)
    requires |b| == 3
    ensures ValueOf(b) == n <==> n < 0x100_0000 && b == BigEndian(n, 3)
  {
    assert Pow256(1) == 256 && Pow256(2) == 0x1_0000 && Pow256(3) == 0x100_0000;
    ValueRoundTrip(b);
    if n < 0x100_0000 { BigEndianValue(n, 3); }
    BelowPow(b);
    hide BigEndian, ValueOf;
  }

  lemma {:induction false} BelowPow(b: Bytes)
    ensures ValueOf(b) < Pow256(|b|)
    decreases |b|
  {
    if b != [] {
      var front, x := b[..|b| - 1], b[|b| - 1];
      assert b == front + [x];
      BelowPow(front);
      ValueOfAppended(front, x);
      hide ValueOf;
    }
  }

  lemma ThreeParts(m: Bytes, b: Bytes)
    requires |m| >= 4 && |b| == 3
    ensures m == [m[0]] + b + m[4..] <==> m[1..4] == b
  {
    assert m == [m[0]] + m[1..4] + m[4..];
    assert ([m[0]] + b + m[4..])[1..4] == b;
  }

  /** A record is a type, a version, the length of its body in two bytes, and its body. */
  lemma RecordSpelledOut(r: WireRecord)
    ensures EncodeRecord(r) == [r.ctype, r.versionHi, r.versionLo] + BigEndian(|r.body|, 2) + r.body
  {
    var n := |r.body|;
    assert BigEndian(n, 2) == [n / 256, n % 256] by {
      assert BigEndian(n / 256, 1) == [n / 256];
    }
  }

  function Join(ms: seq<Bytes>): Bytes {
    if ms == [] then [] else ms[0] + Join(ms[1..])
  }

  // ---------- what the readers extract ----------

  /** The first message of `hs` if it is complete and of the wanted type. */
  function FirstMessage(hs: Bytes, msgType: byte): Option<Bytes> {
    if Complete(hs) && hs[0] == msgType then Some(hs[..4 + LengthField(hs)]) else None
  }

  /** The first record of a stream: its body (cut short at the end of the stream) and what follows. */
  function Body(stream: Bytes): Bytes
    requires |stream| >= 5
  {
    stream[5..Min(5 + FromU16(stream[3], stream[4]), |stream|)]
  }

  function After(stream: Bytes): (r: Bytes)
    requires |stream| >= 5
    ensures |r| < |stream|
  {
    stream[Min(5 + FromU16(stream[3], stream[4]), |stream|)..]
  }

  /** `hs` and the handshake bytes that follow in the stream: other records are skipped before the
      first handshake byte and end the handshake after it. */
  function Gather(stream: Bytes, hs: Bytes): (r: Bytes)
    ensures hs <= r
    decreases |stream|
  {
    if |stream| < 5 then hs
    else if stream[0] == HANDSHAKE then Gather(After(stream), hs + Body(stream))
    else if hs == [] then Gather(After(stream), hs)
    else hs
  }

  /** The handshake bytes of the stream; only ChangeCipherSpec records are skipped. */
  function GatherPlaintext(stream: Bytes): Bytes
    decreases |stream|
  {
    if |stream| < 5 then []
    else if stream[0] == HANDSHAKE then Body(stream) + GatherPlaintext(After(stream))
    else if stream[0] == CHANGE_CIPHER_SPEC then GatherPlaintext(After(stream))
    else []
  }

  /** The complete messages at the front of `hs`. */
  function Messages(hs: Bytes): seq<Bytes>
    decreases |hs|
  {
    if !Complete(hs) then []
    else [hs[..4 + LengthField(hs)]] + Messages(hs[4 + LengthField(hs)..])
  }

  lemma FirstMessageStable(hs: Bytes, more: Bytes, msgType: byte)
    requires Complete(hs) && hs <= more
    ensures FirstMessage(more, msgType) == FirstMessage(hs, msgType)
  {
    assert more[..|hs|] == hs;
    var n := 4 + LengthField(hs);
    assert more[..n] == hs[..n];
  }

  function From(stream: Bytes, i: nat): Bytes { stream[Min(i, |stream|)..] }

  /** What a reader standing at position i sees. */
  lemma FromRecord(stream: Bytes, i: nat)
    requires i + 5 <= |stream|
    ensures var s, len := From(stream, i), FromU16(stream[i + 3], stream[i + 4]);
            && |s| >= 5 && s[0] == stream[i]
            && Body(s) == Slice(stream, i + 5, i + 5 + len) && After(s) == From(stream, i + 5 + len)
  {
    var s := From(stream, i);
    assert s == stream[i..];
    hide From;
    assert s[3] == stream[i + 3] && s[4] == stream[i + 4];
    RecordEnds(stream, i, s, 5 + FromU16(s[3], s[4]));
  }

  lemma RecordEnds(stream: Bytes, i: nat, s: Bytes, end: nat)
    requires i + 5 <= |stream| && s == stream[i..] && end >= 5
    ensures s[5..Min(end, |s|)] == Slice(stream, i + 5, i + end) && s[Min(end, |s|)..] == From(stream, i + end)
  {
  }

  method FirstHandshakeMessage(stream: Bytes, msgType: byte) returns (r: Option<Bytes>)
    ensures r == FirstMessage(Gather(stream, []), msgType)
  {
    hide Slice, Body, After, From;
    var i, hs: Bytes := 0, [];
    assert From(stream, 0) == stream by { FromStart(stream); }
    while i + 5 <= |stream|
      invariant Gather(stream, []) == Gather(From(stream, i), hs)
      invariant !Complete(hs)
    {
      FromRecord(stream, i);
      var ctype, rlen := stream[i], FromU16(stream[i + 3], stream[i + 4]);
      var body := Slice(stream, i + 5, i + 5 + rlen);
      i := i + 5 + rlen;
      if ctype != HANDSHAKE {
        if hs != [] { return None; }
        continue;
      }
      hs := hs + body;
      if |hs| >= 4 {
        var t, len := hs[0], LengthField(hs);
        if |hs| >= 4 + len {
          FirstMessageStable(hs, Gather(stream, []), msgType);
          return if t == msgType then Some(hs[..4 + len]) else None;
        }
      }
    }
    FromEnd(stream, i);
    return None;
  }

  lemma FromStart(stream: Bytes)
    ensures From(stream, 0) == stream
  {
  }

  lemma FromEnd(stream: Bytes, i: nat)
    requires i + 5 > |stream|
    ensures |From(stream, i)| < 5
  {
  }

  method PlaintextHandshakeMessages(stream: Bytes) returns (out: seq<Bytes>)
    ensures out == Messages(GatherPlaintext(stream))
  {
    hide Slice, Body, After, From;
    var i, hs: Bytes := 0, [];
    FromStart(stream);
    while i + 5 <= |stream|
      invariant GatherPlaintext(stream) == hs + GatherPlaintext(From(stream, i))
    {
      FromRecord(stream, i);
      var ct, len := stream[i], FromU16(stream[i + 3], stream[i + 4]);
      var body := Slice(stream, i + 5, i + 5 + len);
      ghost var rest := GatherPlaintext(From(stream, i + 5 + len));
      assert (hs + body) + rest == hs + (body + rest);
      i := i + 5 + len;
      if ct == HANDSHAKE { hs := hs + body; }
      else if ct == CHANGE_CIPHER_SPEC { continue; }
      else {
        assert hs + [] == hs;
        break;
      }
    }
    if i + 5 > |stream| { FromEnd(stream, i); }
    assert hs + [] == hs;
    out := SplitMessages(hs);
  }

  method SplitMessages(handshake: Bytes) returns (out: seq<Bytes>)
    ensures out == Messages(handshake)
  {
    var hs := handshake;
    out := [];
    while |hs| >= 4
      invariant Messages(handshake) == out + Messages(hs)
      decreases |hs|
    {
      var len := LengthField(hs);
      if |hs| < 4 + len { break; }
      out, hs := out + [hs[..4 + len]], hs[4 + len..];
    }
    assert out + Messages(hs) == out;
  }

  // ---------- independence of fragmentation ----------

  ghost predicate AllOfType(rs: seq<WireRecord>, types: set<byte>) {
    forall r | r in rs :: r.ctype in types
  }

  /** The reader sees the fields of the first record as the sender wrote them. */
  lemma ReadRecord(r: WireRecord, rest: Bytes)
    ensures var s := EncodeRecord(r) + rest;
            |s| >= 5 && s[0] == r.ctype && Body(s) == r.body && After(s) == rest
  {
    var s := EncodeRecord(r) + rest;
    assert [s[3], s[4]] == U16(|r.body|);
    assert s[5..5 + |r.body|] == r.body && s[5 + |r.body|..] == rest;
  }

  /** A last record cut short by the end of the stream is read as far as it goes. */
  lemma ReadTruncated(ctype: byte, hi: byte, lo: byte, length: nat, part: Bytes, hs: Bytes)
    requires |part| < length < 0x1_0000
    ensures var s := [ctype, hi, lo] + BigEndian(length, 2) + part;
            && Gather(s, hs) == (if ctype == HANDSHAKE then hs + part else hs)
            && GatherPlaintext(s) == (if ctype == HANDSHAKE then part else [])
  {
    var s := [ctype, hi, lo] + BigEndian(length, 2) + part;
    assert BigEndian(length, 2) == [length / 256, length % 256] by {
      assert BigEndian(length / 256, 1) == [length / 256];
    }
    assert s[5..] == part;
    assert Body(s) == part && After(s) == [];
    assert part + [] == part;
  }

  lemma EncodeFirst(rs: seq<WireRecord>, tail: Bytes)
    requires rs != []
    ensures Encode(rs) + tail == EncodeRecord(rs[0]) + (Encode(rs[1..]) + tail)
  {
  }

  lemma GatherOneRecord(r: WireRecord, rest: Bytes, hs: Bytes)
    ensures Gather(EncodeRecord(r) + rest, hs)
         == if r.ctype == HANDSHAKE then Gather(rest, hs + r.body) else if hs == [] then Gather(rest, hs) else hs
  {
    ReadRecord(r, rest);
    hide EncodeRecord, Body, After;
  }

  /** The reader gathers the run of handshake bytes, and reads on if nothing stops it. */
  lemma {:induction false} GatherRun(rs: seq<WireRecord>, tail: Bytes, hs: Bytes)
    ensures Gather(Encode(rs) + tail, hs) == if StopsIn(rs, hs) then RunFrom(rs, hs) else Gather(tail, RunFrom(rs, hs))
    decreases |rs|
  {
    if rs == [] {
      assert Encode(rs) + tail == tail;
    } else {
      EncodeFirst(rs, tail);
      hide Encode, EncodeRecord, Gather;
      GatherOneRecord(rs[0], Encode(rs[1..]) + tail, hs);
      GatherRun(rs[1..], tail, if rs[0].ctype == HANDSHAKE then hs + rs[0].body else hs);
    }
  }

  /** The run is what all the records carry, cut off where it stops. */
  lemma {:induction false} RunIsPrefix(rs: seq<WireRecord>, hs: Bytes)
    ensures RunFrom(rs, hs) <= hs + HandshakeBytes(rs)
    ensures !StopsIn(rs, hs) ==> RunFrom(rs, hs) == hs + HandshakeBytes(rs)
    decreases |rs|
  {
    if rs != [] {
      if rs[0].ctype == HANDSHAKE {
        RunIsPrefix(rs[1..], hs + rs[0].body);
        JoinAssociative(hs, rs[0].body, HandshakeBytes(rs[1..]));
      } else if hs == [] {
        RunIsPrefix(rs[1..], hs);
      }
    }
  }

  lemma PlaintextOneRecord(r: WireRecord, rest: Bytes)
    requires r.ctype in {HANDSHAKE, CHANGE_CIPHER_SPEC}
    ensures GatherPlaintext(EncodeRecord(r) + rest) == HandshakeBytes([r]) + GatherPlaintext(rest)
  {
    ReadRecord(r, rest);
    hide EncodeRecord, Body, After;
    assert HandshakeBytes([r]) == if r.ctype == HANDSHAKE then r.body else [];
  }

  lemma {:induction false} GatherPlaintextRecords(rs: seq<WireRecord>, tail: Bytes)
    requires AllOfType(rs, {HANDSHAKE, CHANGE_CIPHER_SPEC})
    ensures GatherPlaintext(Encode(rs) + tail) == HandshakeBytes(rs) + GatherPlaintext(tail)
    decreases |rs|
  {
    if rs == [] {
      assert Encode(rs) + tail == tail;
    } else {
      EncodeFirst(rs, tail);
      assert HandshakeBytes(rs) == HandshakeBytes([rs[0]]) + HandshakeBytes(rs[1..]);
      hide Encode, EncodeRecord, HandshakeBytes, GatherPlaintext;
      PlaintextOneRecord(rs[0], Encode(rs[1..]) + tail);
      GatherPlaintextRecords(rs[1..], tail);
      JoinAssociative(HandshakeBytes([rs[0]]), HandshakeBytes(rs[1..]), GatherPlaintext(tail));
    }
  }

  lemma JoinAssociative(a: Bytes, b: Bytes, c: Bytes)
    ensures a + (b + c) == (a + b) + c
  {
  }

  lemma MessageInFront(message: Bytes, more: Bytes)
    requires IsMessage(message)
    ensures var hs := message + more;
            Complete(hs) && hs[0] == message[0]
            && hs[..4 + LengthField(hs)] == message && hs[4 + LengthField(hs)..] == more
  {
  }

  /** What a reader of the first message decides depends on its first complete message only. */
  lemma FirstOfPrefix(hs: Bytes, message: Bytes, more: Bytes, msgType: byte)
    requires IsMessage(message) && hs <= message + more
    ensures FirstMessage(hs, msgType) == if Complete(hs) && message[0] == msgType then Some(message) else None
  {
    MessageInFront(message, more);
    if Complete(hs) {
      assert hs == (message + more)[..|hs|];
      assert LengthField(hs) == LengthField(message);
      assert hs[..|message|] == (message + more)[..|message|];
    }
  }

  /** For every list of records whose handshake bytes begin with a message, and any bytes after it: the
      message is returned exactly if its type is wanted and no record of another type stands inside
      it, that is, after its first byte and before its last. */
  lemma FirstMessageExactly(rs: seq<WireRecord>, tail: Bytes, message: Bytes, more: Bytes, msgType: byte)
    requires IsMessage(message) && HandshakeBytes(rs) == message + more
    ensures FirstMessage(Gather(Encode(rs) + tail, []), msgType)
         == if Complete(RunOf(rs)) && message[0] == msgType then Some(message) else None
  {
    GatherRun(rs, tail, []);
    RunIsPrefix(rs, []);
    assert [] + HandshakeBytes(rs) == message + more;
    FirstOfPrefix(RunOf(rs), message, more, msgType);
    if !StopsIn(rs, []) {
      MessageInFront(message, more);
      FirstMessageStable(RunOf(rs), Gather(tail, RunOf(rs)), msgType);
    }
  }

  /** Other records in front, then handshake records only: nothing stands inside the message. */
  lemma {:induction false} RunSkips(pre: seq<WireRecord>, rs: seq<WireRecord>)
    requires forall r | r in pre :: r.ctype != HANDSHAKE
    ensures RunFrom(pre + rs, []) == RunFrom(rs, []) && StopsIn(pre + rs, []) == StopsIn(rs, [])
    ensures HandshakeBytes(pre + rs) == HandshakeBytes(rs)
    ensures Encode(pre + rs) == Encode(pre) + Encode(rs)
    decreases |pre|
  {
    if pre == [] {
      assert pre + rs == rs && Encode(pre) + Encode(rs) == Encode(rs);
    } else {
      assert (pre + rs)[0] == pre[0] && (pre + rs)[1..] == pre[1..] + rs;
      RunSkips(pre[1..], rs);
      JoinAssociative(EncodeRecord(pre[0]), Encode(pre[1..]), Encode(rs));
    }
  }

  lemma {:induction false} RunOfHandshake(rs: seq<WireRecord>, hs: Bytes)
    requires AllOfType(rs, {HANDSHAKE})
    ensures !StopsIn(rs, hs)
    decreases |rs|
  {
    if rs != [] { RunOfHandshake(rs[1..], hs + rs[0].body); }
  }

  /** However the first handshake message is cut into records, after whatever other records and
      before whatever bytes, the reader returns exactly it, provided its type is the wanted one. */
  lemma FragmentationFirst(pre: seq<WireRecord>, rs: seq<WireRecord>, tail: Bytes, message: Bytes, more: Bytes,
                           msgType: byte)
    requires (forall r | r in pre :: r.ctype != HANDSHAKE) && AllOfType(rs, {HANDSHAKE})
    requires IsMessage(message) && HandshakeBytes(rs) == message + more
    ensures FirstMessage(Gather(Encode(pre) + (Encode(rs) + tail), []), msgType)
         == if message[0] == msgType then Some(message) else None
  {
    hide Encode, Gather, RunFrom, StopsIn, HandshakeBytes;
    RunSkips(pre, rs);
    JoinAssociative(Encode(pre), Encode(rs), tail);
    FirstMessageExactly(pre + rs, tail, message, more, msgType);
    RunOfHandshake(rs, []);
    RunIsPrefix(rs, []);
    MessageInFront(message, more);
    assert [] + HandshakeBytes(rs) == message + more;
  }

  /** A record of another type inside the first message ends the search: nothing is returned,
      whatever stands in front and whatever follows. */
  lemma InterleavingStopsFirst(pre: seq<WireRecord>, rs: seq<WireRecord>, other: WireRecord, tail: Bytes, msgType: byte)
    requires (forall r | r in pre :: r.ctype != HANDSHAKE) && AllOfType(rs, {HANDSHAKE}) && other.ctype != HANDSHAKE
    requires HandshakeBytes(rs) != [] && !Complete(HandshakeBytes(rs))
    ensures FirstMessage(Gather(Encode(pre) + (Encode(rs) + (EncodeRecord(other) + tail)), []), msgType) == None
  {
    RunSkips(pre, rs);
    JoinAssociative(Encode(pre), Encode(rs), EncodeRecord(other) + tail);
    GatherRun(pre + rs, EncodeRecord(other) + tail, []);
    hide Encode, EncodeRecord, Gather, RunFrom, StopsIn, HandshakeBytes;
    RunOfHandshake(rs, []);
    RunIsPrefix(rs, []);
    assert [] + HandshakeBytes(rs) == HandshakeBytes(rs);
    GatherOneRecord(other, tail, HandshakeBytes(rs));
  }

  lemma {:induction false} MessagesOfJoin(ms: seq<Bytes>, partial: Bytes)
    requires (forall m | m in ms :: IsMessage(m)) && !Complete(partial)
    ensures Messages(Join(ms) + partial) == ms
    decreases |ms|
  {
    if ms == [] {
      assert Join(ms) + partial == partial;
    } else {
      var rest := Join(ms[1..]) + partial;
      assert Join(ms) + partial == ms[0] + rest;
      MessageInFront(ms[0], rest);
      hide Complete, LengthField, IsMessage;
      MessagesOfJoin(ms[1..], partial);
    }
  }

  /** However the messages are cut into records, with ChangeCipherSpec records anywhere among them,
      the reader returns exactly the complete messages up to the first record of another type. */
  lemma FragmentationAll(rs: seq<WireRecord>, tail: Bytes, ms: seq<Bytes>, partial: Bytes)
    requires AllOfType(rs, {HANDSHAKE, CHANGE_CIPHER_SPEC})
    requires |tail| < 5 || tail[0] !in {HANDSHAKE, CHANGE_CIPHER_SPEC}
    requires (forall m | m in ms :: IsMessage(m)) && !Complete(partial)
    requires HandshakeBytes(rs) == Join(ms) + partial
    ensures Messages(GatherPlaintext(Encode(rs) + tail)) == ms
  {
    GatherPlaintextRecords(rs, tail);
    MessagesOfJoin(ms, partial);
    assert HandshakeBytes(rs) + [] == HandshakeBytes(rs);
  }

  // For instance: a five-byte ClientHello with a ChangeCipherSpec after its second byte.

  const HELLO: Bytes := [0x01, 0, 0, 1, 7]
  const CCS: WireRecord := TlsRecord(0x14, 3, 3, [1])
  const HELLO_START: WireRecord := TlsRecord(0x16, 3, 3, [0x01, 0])
  const HELLO_END: WireRecord := TlsRecord(0x16, 3, 3, [0, 1, 7])

  lemma CutHelloBytes()
    ensures HandshakeBytes([CCS, HELLO_START, CCS, HELLO_END]) == HELLO + []
  {
    assert HandshakeBytes([HELLO_END]) == [0, 1, 7];
    assert [CCS, HELLO_END][1..] == [HELLO_END];
    assert HandshakeBytes([CCS, HELLO_END]) == [0, 1, 7];
    assert [HELLO_START, CCS, HELLO_END][1..] == [CCS, HELLO_END];
    assert HandshakeBytes([HELLO_START, CCS, HELLO_END]) == [CLIENT_HELLO, 0] + [0, 1, 7] == HELLO;
    assert [CCS, HELLO_START, CCS, HELLO_END][1..] == [HELLO_START, CCS, HELLO_END];
  }

  lemma CutHelloRun()
    ensures RunOf([CCS, HELLO_START, CCS, HELLO_END]) == [CLIENT_HELLO, 0]
  {
    assert [HELLO_START, CCS, HELLO_END][1..] == [CCS, HELLO_END] && [] + HELLO_START.body == [CLIENT_HELLO, 0];
    assert RunFrom([CCS, HELLO_END], HELLO_START.body) == HELLO_START.body;
    assert RunFrom([HELLO_START, CCS, HELLO_END], []) == HELLO_START.body;
    assert [CCS, HELLO_START, CCS, HELLO_END][1..] == [HELLO_START, CCS, HELLO_END];
  }

  /** The reader of the first message does not find it; the other reader does. */
  lemma InterleavedHelloIsLost()
    ensures FirstMessage(Gather(Encode([CCS, HELLO_START, CCS, HELLO_END]) + [], []), CLIENT_HELLO) == None
    ensures Messages(GatherPlaintext(Encode([CCS, HELLO_START, CCS, HELLO_END]) + [])) == [HELLO]
  {
    hide Encode, Gather, GatherPlaintext, HandshakeBytes, RunOf;
    CutHelloBytes();
    CutHelloRun();
    FirstMessageExactly([CCS, HELLO_START, CCS, HELLO_END], [], HELLO, [], CLIENT_HELLO);
    assert Join([HELLO][1..]) == [];
    assert Join([HELLO]) + [] == HELLO + [];
    FragmentationAll([CCS, HELLO_START, CCS, HELLO_END], [], [HELLO], []);
  }

  // ---------- the two Hello messages ----------

  const HRR_RANDOM: Bytes := [
    0xcf, 0x21, 0xad, 0x74, 0xe5, 0x9a, 0x61, 0x11, 0xbe, 0x1d, 0x8c, 0x02, 0x1e, 0x65, 0xb8, 0x91,
    0xc2, 0xa2, 0x11, 0x16, 0x7a, 0xbb, 0x8c, 0x5e, 0x07, 0x9e, 0x09, 0xe2, 0xc8, 0xa8, 0x33, 0x9c]

  datatype Hellos = Hellos(client: Bytes, server: Bytes) | HelloMissing | RetryRequested

  predicate IsRetry(serverHello: Bytes) {
    serverHello[Min(6, |serverHello|)..Min(38, |serverHello|)] == HRR_RANDOM
  }

  /** A ServerHello is a retry exactly by its random, which stands after header and version. */
  lemma RetryExactly(start: Bytes, random: Bytes, rest: Bytes)
    requires |start| == 4 + 2 && |random| == 32
    ensures IsRetry(start + random + rest) <==> random == HRR_RANDOM
  {
    assert (start + random + rest)[6..38] == random;
  }

  function HellosOf(clientToServer: Bytes, serverToClient: Bytes): Hellos {
    var ch := FirstMessage(Gather(clientToServer, []), CLIENT_HELLO);
    var sh := FirstMessage(Gather(serverToClient, []), SERVER_HELLO);
    if ch == None || sh == None then HelloMissing
    else if IsRetry(sh.value) then RetryRequested
    else Hellos(ch.value, sh.value)
  }

  method TranscriptChSh(clientToServer: Bytes, serverToClient: Bytes) returns (r: Hellos)
    ensures r == HellosOf(clientToServer, serverToClient)
  {
    var ch := FirstHandshakeMessage(clientToServer, CLIENT_HELLO);
    var sh := FirstHandshakeMessage(serverToClient, SERVER_HELLO);
    if ch == None || sh == None { return HelloMissing; }
    if IsRetry(sh.value) { return RetryRequested; }
    return Hellos(ch.value, sh.value);
  }

  /** Both Hello messages are found in any cutting of the two streams, and a HelloRetryRequest is
      always refused. */
  lemma HellosFound(crs: seq<WireRecord>, srs: seq<WireRecord>, ctail: Bytes, stail: Bytes,
                    ch: Bytes, sh: Bytes, cmore: Bytes, smore: Bytes)
    requires AllOfType(crs, {HANDSHAKE}) && AllOfType(srs, {HANDSHAKE})
    requires IsMessage(ch) && ch[0] == CLIENT_HELLO && HandshakeBytes(crs) == ch + cmore
    requires IsMessage(sh) && sh[0] == SERVER_HELLO && HandshakeBytes(srs) == sh + smore
    ensures HellosOf(Encode(crs) + ctail, Encode(srs) + stail)
         == if IsRetry(sh) then RetryRequested else Hellos(ch, sh)
  {
    FragmentationFirst([], crs, ctail, ch, cmore, CLIENT_HELLO);
    FragmentationFirst([], srs, stail, sh, smore, SERVER_HELLO);
    assert Encode([]) + (Encode(crs) + ctail) == Encode(crs) + ctail;
    assert Encode([]) + (Encode(srs) + stail) == Encode(srs) + stail;
  }
}
