/** The other end of the connection: how a client frames its messages, written from sections 5.2 and
    5.3 of RFC 6455, and what the server makes of a stream of such frames.
 */
module WebSocketSender {
  import opened Sequences
  import opened WebSocketInput

  type Key = k: Bytes | |k| == 4 witness [0, 0, 0, 0]

  datatype Message = Message(payload: Bytes, key: Key)

  // A number below 256 as a byte.
  function Octet(n: nat): (b: bv8)
    requires n < 256
    ensures b as nat == n
  {
    if n == 0 then 0
    else
      var b := Octet(n - 1);
      NextOctet(b);
      b + 1
  }

  lemma NextOctet(b: bv8)
    requires b != 255
    ensures (b + 1) as nat == b as nat + 1
  {
  }

  // The second byte and the extended length: the mask bit, and the length in 7 bits or, behind the
  // code 126, in 16 bits in network byte order.
  function LengthBytes(n: nat): (b: Bytes)
    requires n < 0x1_0000
    ensures |b| == if n <= 125 then 1 else 3
  {
    if n <= 125 then [128 | Octet(n)] else [128 | 126, Octet(n / 256), Octet(n % 256)]
  }

  // Octet i of the payload is combined with octet i modulo 4 of the key.
  function Masked(payload: Bytes, key: Key): (b: Bytes)
    ensures |b| == |payload|
  {
    seq(|payload|, i requires 0 <= i < |payload| => payload[i] ^ key[i % 4])
  }

  function MaskedFrame(payload: Bytes, key: Key): Bytes
    requires |payload| < 0x1_0000
  {
    [TEXT_FRAME] + LengthBytes(|payload|) + key + Masked(payload, key)
  }

  lemma LowBits(b: bv8)
    requires b < 128
    ensures (128 | b) & 127 == b && (128 | b) & 128 == 128
  {
  }

  lemma ShortCode(n: nat)
    requires n <= 125
    ensures ((128 | Octet(n)) & 127) as nat == n && (128 | Octet(n)) & 128 == 128
    ensures (128 | Octet(n)) & 127 != 127
  {
    LowBits(Octet(n));
  }

  lemma HeaderOf(payload: Bytes, key: Key, rest: Bytes)
    requires |payload| < 0x1_0000
    ensures var x := MaskedFrame(payload, key) + rest;
            && HeaderKnown(x) && PayloadSize(x) == |payload| && LengthCode(x) != 127
            && 6 <= FrameSize(x) == |MaskedFrame(payload, key)|
            && x[0] == TEXT_FRAME && x[1] & 128 == 128 && x[1] & 127 != 127
  {
    var n := |payload|;
    var x := MaskedFrame(payload, key) + rest;
    assert x[1] == LengthBytes(n)[0];
    if n <= 125 {
      ShortCode(n);
    } else {
      assert x[2] == Octet(n / 256) && x[3] == Octet(n % 256);
      assert (128 | 126) & 127 == 126 as bv8;
    }
  }

  // Where the key and the masked payload stand.
  lemma PartsOf(payload: Bytes, key: Key, rest: Bytes)
    requires |payload| < 0x1_0000
    ensures var frame := MaskedFrame(payload, key);
            var x, h := frame + rest, |frame| - |payload|;
            && x[h - 4..h] == key && x[h..h + |payload|] == Masked(payload, key) && x[|frame|..] == rest
  {
    var frame := MaskedFrame(payload, key);
    var front := [TEXT_FRAME] + LengthBytes(|payload|);
    assert frame == front + key + Masked(payload, key);
    assert frame + rest == front + (key + (Masked(payload, key) + rest));
  }

  // Whatever the key, and whatever stands behind it, the server takes off exactly this frame and
  // gets the payload back.
  lemma FrameIsRead(payload: Bytes, key: Key, rest: Bytes)
    requires |payload| < 0x1_0000
    ensures var x := MaskedFrame(payload, key) + rest;
            && FrameComplete(x) && FrameSize(x) == |MaskedFrame(payload, key)|
            && Payload(x) == payload && x[FrameSize(x)..] == rest
  {
    hide MaskedFrame, LengthCode;
    var x := MaskedFrame(payload, key) + rest;
    HeaderOf(payload, key, rest);
    PartsOf(payload, key, rest);
    Unmasks(x, HeaderSize(x), payload, key);
  }

  lemma Unmasks(x: Bytes, h: nat, payload: Bytes, key: Key)
    requires FrameComplete(x) && PayloadSize(x) == |payload| && HeaderSize(x) == h >= 4
    requires h + |payload| <= |x| && x[h - 4..h] == key && x[h..h + |payload|] == Masked(payload, key)
    ensures Payload(x) == payload
  {
    hide FrameComplete, PayloadSize, HeaderSize;
    forall i | 0 <= i < |payload|
      ensures Payload(x)[i] == payload[i]
    {
      assert x[h + i] == x[h..h + |payload|][i] && x[h - 4 + i % 4] == x[h - 4..h][i % 4];
      XorTwice(payload[i], key[i % 4]);
    }
  }

  lemma XorTwice(a: bv8, b: bv8)
    ensures (a ^ b) ^ b == a
  {
  }

  // ----- streams of messages -----

  predicate Sendable(messages: seq<Message>) {
    forall i :: 0 <= i < |messages| ==> |messages[i].payload| < 0x1_0000
  }

  function Stream(messages: seq<Message>): Bytes
    requires Sendable(messages)
  {
    if messages == [] then [] else MaskedFrame(messages[0].payload, messages[0].key) + Stream(messages[1..])
  }

  function Payloads(messages: seq<Message>): (payloads: seq<Bytes>)
    ensures |payloads| == |messages|
  {
    seq(|messages|, i requires 0 <= i < |messages| => messages[i].payload)
  }

  // The handler keeps the connection open after each of the first `n` payloads.
  ghost predicate Accepts(payloads: seq<Bytes>, n: nat, handler: Handler)
    requires n <= |payloads|
  {
    forall k | 0 < k <= n :: handler(payloads[..k], [])
  }

  // What the first of the remaining messages looks like to the server.
  lemma StreamStep(messages: seq<Message>, i: nat)
    requires Sendable(messages) && i < |messages|
    ensures var x := Stream(messages[i..]);
            && FrameComplete(x) && 0 < FrameSize(x) <= |x| && Payload(x) == messages[i].payload
            && x[FrameSize(x)..] == Stream(messages[i + 1..])
            && (TextStream(Stream(messages[i + 1..])) ==> TextStream(x))
  {
    hide MaskedFrame, Payload, FrameComplete, HeaderSize, PayloadSize;
    var m, rest := messages[i], Stream(messages[i + 1..]);
    assert messages[i..][1..] == messages[i + 1..];
    FrameIsRead(m.payload, m.key, rest);
    HeaderOf(m.payload, m.key, rest);
  }

  lemma {:induction false} StreamIsText(messages: seq<Message>, i: nat)
    requires Sendable(messages) && i <= |messages|
    ensures TextStream(Stream(messages[i..]))
    decreases |messages| - i
  {
    if i < |messages| {
      StreamStep(messages, i);
      StreamIsText(messages, i + 1);
    }
  }

  // `d` has read all payloads, or those up to the first that the handler refuses.
  ghost predicate ReadOf(d: Reading, payloads: seq<Bytes>, handler: Handler) {
    var n := |d.log|;
    && n <= |payloads| && d.log == payloads[..n]
    && (d.rejected ==> n > 0 && !handler(d.log, []) && Accepts(payloads, n - 1, handler))
    && (!d.rejected ==> n == |payloads| && d.rest == [] && Accepts(payloads, n, handler))
  }

  lemma OneMoreAccepted(payloads: seq<Bytes>, i: nat, handler: Handler)
    requires i < |payloads| && Accepts(payloads, i, handler) && handler(payloads[..i + 1], [])
    ensures Accepts(payloads, i + 1, handler)
  {
    forall k | 0 < k <= i + 1
      ensures handler(payloads[..k], [])
    {
    }
  }

  // Decoding from message `i` on, when the payloads before it have been dispatched.
  lemma {:induction false} StreamDecoded(messages: seq<Message>, i: nat, handler: Handler)
    requires Sendable(messages) && i <= |messages| && Accepts(Payloads(messages), i, handler)
    ensures ReadOf(Decode(Stream(messages[i..]), Payloads(messages)[..i], handler), Payloads(messages), handler)
    decreases |messages| - i
  {
    var all := Payloads(messages);
    if i == |messages| {
      assert messages[i..] == [] && Stream([]) == [] && all[..i] == all;
    } else {
      hide Accepts, MaskedFrame, Payload, FrameComplete, HeaderSize, PayloadSize, Stream, ReadOf;
      StreamStep(messages, i);
      var x := Stream(messages[i..]);
      var log := all[..i];
      assert log + [Payload(x)] == all[..i + 1];
      if handler(all[..i + 1], []) {
        OneMoreAccepted(all, i, handler);
        StreamDecoded(messages, i + 1, handler);
      } else {
        assert Decode(x, log, handler) == Reading(all[..i + 1], true, x[FrameSize(x)..]);
        RejectedHere(all, i, x[FrameSize(x)..], handler);
      }
    }
  }

  lemma RejectedHere(payloads: seq<Bytes>, i: nat, rest: Bytes, handler: Handler)
    requires i < |payloads| && Accepts(payloads, i, handler) && !handler(payloads[..i + 1], [])
    ensures ReadOf(Reading(payloads[..i + 1], true, rest), payloads, handler)
  {
  }

  // However the frames of a client are cut into reads, the payloads that are dispatched are its
  // messages, in order: all of them, or those up to the first that closes the connection.
  lemma MessagesAreDispatched(messages: seq<Message>, chunks: seq<Bytes>, limit: nat, handler: Handler)
    requires Sendable(messages) && Cuts(chunks, Stream(messages)) && Indifferent(Stream(messages), [], handler)
    requires Fits(Reading([], false, []), chunks, limit, handler)
    ensures var end := Serve(FRESH, chunks, limit, handler);
            var n := |end.log|;
            && n <= |messages| && end.log == Payloads(messages)[..n]
            && (end.Closed? ==> n > 0 && !handler(end.log, []) && Accepts(Payloads(messages), n - 1, handler))
            && (end.Open? ==> end == Open(Payloads(messages), false, []) && Accepts(Payloads(messages), n, handler))
  {
    hide Decode, TextStream, Indifferent, Fits, Serve, Stream;
    assert messages[0..] == messages && Payloads(messages)[..0] == [];
    StreamDecoded(messages, 0, handler);
    StreamIsText(messages, 0);
    ReadsDecodeTheStream(chunks, limit, handler);
    ServeShape(FRESH, chunks, limit, handler);
    assert Payloads(messages)[..|messages|] == Payloads(messages);
  }

  // In particular, for a handler that accepts them all and looks at nothing behind its payload.
  lemma AllMessagesArrive(messages: seq<Message>, chunks: seq<Bytes>, limit: nat, handler: Handler)
    requires Sendable(messages) && Cuts(chunks, Stream(messages)) && |Stream(messages)| < limit
    requires StopsAtZero(handler) && Accepts(Payloads(messages), |messages|, handler)
    ensures Serve(FRESH, chunks, limit, handler) == Open(Payloads(messages), false, [])
  {
    hide Decode, TextStream, Indifferent, Fits, Serve, Stream, StopsAtZero;
    StopsIndifferent(Stream(messages), [], handler);
    assert [] + Concat(chunks) == Stream(messages);
    FitsShort(Reading([], false, []), chunks, limit, handler);
    MessagesAreDispatched(messages, chunks, limit, handler);
  }

  // "hi" under the key 01 02 03 04.
  lemma HelloFrame()
    ensures MaskedFrame([0x68, 0x69], [1, 2, 3, 4]) == [0x81, 0x82, 1, 2, 3, 4, 0x69, 0x6b]
    ensures Payload([0x81, 0x82, 1, 2, 3, 4, 0x69, 0x6b]) == [0x68, 0x69]
  {
    var frame: Bytes := [0x81, 0x82, 1, 2, 3, 4, 0x69, 0x6b];
    var payload: Bytes := [0x68, 0x69];
    assert MaskedFrame(payload, [1, 2, 3, 4]) == frame by {
      assert Masked(payload, [1, 2, 3, 4]) == [0x69, 0x6b];
      assert 128 | Octet(2) == 0x82;
    }
    FrameIsRead(payload, [1, 2, 3, 4], []);
    assert frame + [] == frame;
  }

  // ----- single frames -----

  // A read that brings exactly one frame.
  lemma ReadAlone(f: Bytes, log: seq<Bytes>, limit: nat, handler: Handler)
    requires TextStream(f) && FrameComplete(f) && FrameSize(f) == |f|
    ensures var log' := log + [Payload(f)];
            OnRead(Open(log, false, []), f, limit, handler)
            == if handler(log', []) then Open(log', false, []) else Closed(log')
  {
    hide Receive, Payload, FrameComplete, TextStream;
    assert f[..|f|] == f && f[|f|..] == [];
    FirstFrame(f, f, 0, log, handler);
  }

  lemma OneFrame(payload: Bytes, key: Key)
    requires |payload| < 0x1_0000
    ensures var f := MaskedFrame(payload, key);
            TextStream(f) && FrameComplete(f) && 6 <= FrameSize(f) == |f| && Payload(f) == payload
  {
    hide MaskedFrame, Payload, FrameComplete, HeaderSize, PayloadSize;
    var f := MaskedFrame(payload, key);
    FrameIsRead(payload, key, []);
    HeaderOf(payload, key, []);
    assert f + [] == f && TextStream([]);
  }

  // What has arrived of a frame is kept when it is not complete.
  lemma ReadPart(f: Bytes, k: nat, log: seq<Bytes>, limit: nat, handler: Handler)
    requires TextStream(f) && FrameComplete(f) && FrameSize(f) == |f| && 0 < k < |f|
    ensures OnRead(Open(log, false, []), f[..k], limit, handler) == Open(log, true, f[..k])
  {
    var part := f[..k];
    assert part + f[k..] == f;
    TextStreamPrefix(part, f[k..]);
    if FrameComplete(part) {
      SamePrefix(part, f[k..]);
    }
    TextFrame(part, part);
  }

  // A frame that comes in two reads is dispatched exactly when it is shorter than the limit; at the
  // limit the connection is closed, and nothing has been dispatched.
  lemma FrameInTwoReads(payload: Bytes, key: Key, k: nat, limit: nat, handler: Handler)
    requires |payload| < 0x1_0000 && 0 < k < |MaskedFrame(payload, key)| && handler([payload], [])
    ensures var f := MaskedFrame(payload, key);
            Serve(FRESH, [f[..k], f[k..]], limit, handler)
            == if |f| < limit then Open([payload], false, []) else Closed([])
  {
    var f := MaskedFrame(payload, key);
    OneFrame(payload, key);
    ReadPart(f, k, [], limit, handler);
    ReadAlone(f, [], limit, handler);
    assert f[..k] + f[k..] == f && [] + [payload] == [payload];
    hide MaskedFrame, Receive, Payload, FrameComplete, TextStream;
    ServeTwo(FRESH, f[..k], f[k..], limit, handler);
  }

  // A frame of another kind, or one whose length is given in 64 bits, closes the connection.
  lemma OtherFramesClose(x: Bytes, log: seq<Bytes>, limit: nat, handler: Handler)
    requires x != []
    requires || (x[0] != TEXT_FRAME && x[0] != BINARY_FRAME && x[0] != PONG_FRAME && x[0] != 0)
             || ((x[0] == TEXT_FRAME || x[0] == BINARY_FRAME) && |x| >= 2 && x[1] & 127 == 127)
    ensures OnRead(Open(log, false, []), x, limit, handler) == Closed(log)
  {
    if |x| >= 2 && x[1] & 127 == 127 {
      LongCode(x[1]);
      assert LengthCode(x) == 127;
    }
  }

  lemma LongCode(b: bv8)
    requires b & 127 == 127
    ensures b != 0 && (b & 127) as nat == 127
  {
  }

  // ----- binary frames -----

  function BinaryFrame(payload: Bytes, key: Key): Bytes
    requires |payload| < 0x1_0000
  {
    MaskedFrame(payload, key)[0 := BINARY_FRAME]
  }

  // What a binary frame is run as, together with what is glued to it.
  lemma BinaryIsRun(payload: Bytes, key: Key, rest: Bytes, log: seq<Bytes>, handler: Handler)
    requires |payload| < 0x1_0000
    ensures var x := BinaryFrame(payload, key) + rest;
            var log' := log + [payload];
            Receive(x, log, handler)
            == if !handler(log', Behind(rest)) || At(rest, 0) != BINARY_FRAME then Outcome(log', Close)
               else Receive(rest[0 := 0], log', handler)
  {
    var f := MaskedFrame(payload, key);
    var x, y := BinaryFrame(payload, key) + rest, f + rest;
    FrameIsRead(payload, key, rest);
    HeaderOf(payload, key, rest);
    assert x == y[0 := BINARY_FRAME];
    SamePayloadAfterFirst(x, y);
    MaskedByte(y[1]);
    assert At(x, 1) == y[1] && HeaderKnown(x) && LengthCode(x) == LengthCode(y);
    hide MaskedFrame, Payload;
    assert Classify(x) == Complete;
    assert At(x, FrameSize(x)) == At(rest, 0) by {
      if rest != [] {
        assert x[FrameSize(x)..][0] == rest[0];
      }
    }
  }

  lemma ZeroedAlone(payload: Bytes, key: Key, log: seq<Bytes>, handler: Handler)
    requires |payload| < 0x1_0000 && handler(log + [payload], [])
    ensures Receive(MaskedFrame(payload, key)[0 := 0], log, handler) == Outcome(log + [payload], Idle)
  {
    var f := MaskedFrame(payload, key);
    OneFrame(payload, key);
    hide MaskedFrame, Payload, FrameComplete, TextStream, Receive;
    assert f[..|f|] == f && f[|f|..] == [];
    FirstFrame(f[0 := 0], f, 0, log, handler);
  }

  lemma BinaryAlone(payload: Bytes, key: Key, limit: nat, handler: Handler)
    requires |payload| < 0x1_0000
    ensures OnRead(FRESH, BinaryFrame(payload, key), limit, handler) == Closed([payload])
  {
    var f := BinaryFrame(payload, key);
    BinaryIsRun(payload, key, [], [], handler);
    hide BinaryFrame, Receive;
    assert f + [] == f && [] + [payload] == [payload];
  }

  lemma BinaryPair(one: Bytes, other: Bytes, key: Key, key': Key, limit: nat, handler: Handler)
    requires |one| < 0x1_0000 && |other| < 0x1_0000
    requires handler([one], Behind(BinaryFrame(other, key'))) && handler([one, other], [])
    ensures OnRead(FRESH, BinaryFrame(one, key) + BinaryFrame(other, key'), limit, handler)
            == Open([one, other], false, [])
  {
    var g := BinaryFrame(other, key');
    assert g[0] == BINARY_FRAME && g[0 := 0] == MaskedFrame(other, key')[0 := 0];
    hide MaskedFrame, BinaryFrame, Receive, Behind;
    assert [] + [one] == [one] && [one] + [other] == [one, other];
    BinaryIsRun(one, key, g, [], handler);
    ZeroedAlone(other, key', [one], handler);
  }

  // A binary frame that comes alone is dispatched, and the connection closed, whatever its handler
  // answers; two of them in one read are both dispatched, and the connection stays open.
  lemma BinaryFrames(one: Bytes, other: Bytes, key: Key, key': Key, limit: nat, handler: Handler)
    requires |one| < 0x1_0000 && |other| < 0x1_0000
    requires handler([one], Behind(BinaryFrame(other, key'))) && handler([one, other], [])
    ensures var f, g := BinaryFrame(one, key), BinaryFrame(other, key');
            && Serve(FRESH, [f, g], limit, handler) == Closed([one])
            && Serve(FRESH, [f + g], limit, handler) == Open([one, other], false, [])
  {
    var f, g := BinaryFrame(one, key), BinaryFrame(other, key');
    assert f != [] && g != [];
    hide MaskedFrame, Receive, Behind;
    hide BinaryFrame, OnRead, Serve;
    BinaryAlone(one, key, limit, handler);
    BinaryPair(one, other, key, key', limit, handler);
    ServeTwo(FRESH, f, g, limit, handler);
    ServeOne(FRESH, f + g, limit, handler);
    ClosedStays([one], g, limit, handler);
  }

  lemma ClosedStays(log: seq<Bytes>, r: Bytes, limit: nat, handler: Handler)
    requires r != []
    ensures OnRead(Closed(log), r, limit, handler) == Closed(log)
  {
  }
}
