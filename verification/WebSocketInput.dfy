/** The decoder of incoming WebSocket frames of `Client_connection`.

    A client sends a stream of masked text frames (sections 5.2 and 5.3 of RFC 6455); the socket
    hands that stream to the server in arbitrary pieces.  `web_socket_request_message` keeps an
    unfinished frame in `fragment_buf`, unmasks each payload where it lies, overwrites the byte
    after the payload with 0 (which is the first byte of the next frame when two frames arrived
    together) and calls itself for the frames that follow.

    `Decode` reads a whole stream as the standard does.  `Receive` follows the branches of the
    source on a value, `ClientConnection` does the same in place on the buffer.  The handler of a
    command gets a pointer into that buffer and may look behind the end of its payload; no way of
    cutting a stream into reads can be told from any other exactly when its answers do not depend
    on what stands there.
 */
module WebSocketInput {
  import opened Sequences

  type Bytes = seq<bv8>

  // Decides, from all payloads dispatched so far (the last one is the current command) and from the
  // bytes in the buffer behind the 0 that ends the last one, whether the handler of the current
  // command keeps the connection open.
  type Handler = (seq<Bytes>, Bytes) -> bool

  const TEXT_FRAME: bv8 := 0x81
  const BINARY_FRAME: bv8 := 0x82
  const CLOSE_FRAME: bv8 := 0x88
  const PONG_FRAME: bv8 := 0x8a

  // ----- the frame format -----

  // The buffer is cleared before a read, so what lies past the received bytes reads as 0.
  function At(x: Bytes, i: nat): bv8 {
    if i < |x| then x[i] else 0
  }

  function LengthCode(x: Bytes): nat {
    (At(x, 1) & 127) as nat
  }

  // Whether the length of the frame can be read off the bytes received so far.
  predicate HeaderKnown(x: Bytes) {
    |x| >= 2 && (LengthCode(x) == 126 ==> |x| >= 4)
  }

  function HeaderSize(x: Bytes): nat {
    if LengthCode(x) == 126 then 8 else 6
  }

  function PayloadSize(x: Bytes): nat {
    if LengthCode(x) == 126 then At(x, 2) as nat * 256 + At(x, 3) as nat else LengthCode(x)
  }

  function FrameSize(x: Bytes): nat {
    HeaderSize(x) + PayloadSize(x)
  }

  predicate FrameComplete(x: Bytes) {
    HeaderKnown(x) && FrameSize(x) <= |x|
  }

  // The payload of the frame `x` starts with, unmasked with the four bytes before it.
  function Payload(x: Bytes): (payload: Bytes)
    requires FrameComplete(x)
    ensures |payload| == PayloadSize(x)
  {
    var h := HeaderSize(x);
    seq(PayloadSize(x), i requires 0 <= i < PayloadSize(x) => x[h + i] ^ x[h - 4 + i % 4])
  }

  // ----- a whole stream, read as the standard does -----

  datatype Reading = Reading(log: seq<Bytes>, rejected: bool, rest: Bytes)

  // Dispatches the frames of `s` one after another, each by itself, until a command is rejected or
  // only an unfinished frame is left.
  function Decode(s: Bytes, log: seq<Bytes>, handler: Handler): Reading
    decreases |s|
  {
    if !FrameComplete(s) then Reading(log, false, s)
    else
      var log' := log + [Payload(s)];
      if !handler(log', []) then Reading(log', true, s[FrameSize(s)..])
      else Decode(s[FrameSize(s)..], log', handler)
  }

  // A stream of masked text frames with 7-bit or 16-bit lengths, the last one possibly unfinished.
  predicate TextStream(s: Bytes)
    decreases |s|
  {
    s == [] ||
    (&& s[0] == TEXT_FRAME
     && (|s| >= 2 ==> s[1] & 128 == 128 && s[1] & 127 != 127)
     && (FrameComplete(s) ==> TextStream(s[FrameSize(s)..])))
  }

  // ----- what the server does with the bytes it holds -----

  datatype Verdict =
    | Idle                    // returns 0, nothing is kept
    | Wait(fragment: Bytes)   // returns 0, the unfinished frame is kept
    | Close                   // returns -1

  datatype Outcome = Outcome(log: seq<Bytes>, verdict: Verdict)

  predicate UnexpectedFirstByte(x: Bytes)
    requires |x| > 0
  {
    && x[0] != BINARY_FRAME
    && x[0] != TEXT_FRAME
    && !(x[0] == 0 && At(x, 1) != 0)
    && !(x[0] == 0 && |x| == 1)
  }

  datatype Kind = Refused | Pong | Unfinished | Complete

  // The tests of the source up to the point where the payload is touched, in their order.
  function Classify(x: Bytes): (kind: Kind)
    requires |x| > 0
    ensures kind.Complete? ==> FrameComplete(x)
  {
    if x[0] == CLOSE_FRAME then Refused
    else if x[0] == PONG_FRAME then Pong
    else if UnexpectedFirstByte(x) then Refused
    else if At(x, 1) == 0 then Unfinished
    else if LengthCode(x) == 126 && |x| < 4 then Unfinished
    else if LengthCode(x) == 127 then Refused
    else if PayloadSize(x) > |x| - HeaderSize(x) then Unfinished
    else Complete
  }

  function Receive(x: Bytes, log: seq<Bytes>, handler: Handler): Outcome
    requires |x| > 0
    decreases |x|
  {
    match Classify(x)
    case Refused => Outcome(log, Close)
    case Pong => Outcome(log, Idle)
    case Unfinished => Outcome(log, Wait(x))
    case Complete => Run(x, log, handler)
  }

  predicate NextCommandIsEof(x: Bytes)
    requires |x| > 0
  {
    At(x, FrameSize(x)) != BINARY_FRAME && x[0] != TEXT_FRAME && x[0] != 0
  }

  // What stands in the buffer behind the 0 that was put in place of the first byte of `glued`.
  function Behind(glued: Bytes): Bytes {
    if glued == [] then [] else glued[1..]
  }

  // The bytes start with a complete frame.
  function Run(x: Bytes, log: seq<Bytes>, handler: Handler): Outcome
    requires FrameComplete(x)
    decreases |x|, 0
  {
    var log' := log + [Payload(x)];
    if !handler(log', Behind(x[FrameSize(x)..])) || NextCommandIsEof(x) then Outcome(log', Close)
    else if |x| > FrameSize(x) then Receive(x[FrameSize(x)..][0 := 0], log', handler)
    else Outcome(log', Idle)
  }

  // A connection as the server sees it between two reads.
  datatype Connection =
    | Open(log: seq<Bytes>, hasFragment: bool, fragment: Bytes)
    | Closed(log: seq<Bytes>)

  function AfterVerdict(o: Outcome): Connection {
    match o.verdict
    case Idle => Open(o.log, false, [])
    case Wait(fragment) => Open(o.log, true, fragment)
    case Close => Closed(o.log)
  }

  // One read of the socket; `limit` is the setting fragment_buf_max_size.
  function OnRead(c: Connection, r: Bytes, limit: nat, handler: Handler): Connection
    requires |r| > 0
  {
    if c.Closed? then c
    else if !c.hasFragment then AfterVerdict(Receive(r, c.log, handler))
    else if |c.fragment| + |r| >= limit then Closed(c.log)
    else AfterVerdict(Receive(c.fragment + r, c.log, handler))
  }

  predicate NonEmptyChunks(chunks: seq<Bytes>) {
    forall i :: 0 <= i < |chunks| ==> |chunks[i]| > 0
  }

  function Serve(c: Connection, chunks: seq<Bytes>, limit: nat, handler: Handler): Connection
    requires NonEmptyChunks(chunks)
    decreases |chunks|
  {
    if chunks == [] then c else Serve(OnRead(c, chunks[0], limit, handler), chunks[1..], limit, handler)
  }

  const FRESH := Open([], false, [])

  // ----- the invariant between reads -----

  // `x` is `s` except that the first byte may have been zeroed.
  predicate SameButFirst(x: Bytes, s: Bytes) {
    && |x| == |s| > 0
    && (x[0] == s[0] || x[0] == 0)
    && x[1..] == s[1..]
  }

  // The connection holds exactly what the standard's reading of the stream so far has reached.
  predicate Agrees(c: Connection, d: Reading) {
    && c.log == d.log
    && (c.Closed? <==> d.rejected)
    && (c.Open? && !d.rejected ==>
          if c.hasFragment then SameButFirst(c.fragment, d.rest) else d.rest == [])
  }

  lemma SameBytes(x: Bytes, s: Bytes)
    requires SameButFirst(x, s)
    ensures forall i | 0 < i < |s| :: x[i] == s[i]
    ensures forall k | 0 < k <= |s| :: x[k..] == s[k..]
  {
    forall i | 0 < i < |s|
      ensures x[i] == s[i]
    {
      assert x[i] == x[1..][i - 1] && s[i] == s[1..][i - 1];
    }
  }

  lemma SamePayload(x: Bytes, s: Bytes)
    requires |x| == |s| && (forall i | 0 < i < |s| :: x[i] == s[i])
    requires FrameComplete(x) && FrameComplete(s)
    requires HeaderSize(x) == HeaderSize(s) && PayloadSize(x) == PayloadSize(s)
    ensures Payload(x) == Payload(s)
  {
    var h := HeaderSize(s);
    forall i | 0 <= i < PayloadSize(s)
      ensures Payload(x)[i] == Payload(s)[i]
    {
      assert x[h + i] == s[h + i] && x[h - 4 + i % 4] == s[h - 4 + i % 4];
    }
  }

  lemma SameHeader(x: Bytes, s: Bytes)
    requires SameButFirst(x, s)
    ensures forall i: nat | i > 0 :: At(x, i) == At(s, i)
    ensures HeaderKnown(x) == HeaderKnown(s) && FrameComplete(x) == FrameComplete(s)
    ensures HeaderSize(x) == HeaderSize(s) && PayloadSize(x) == PayloadSize(s)
    ensures FrameComplete(s) ==> Payload(x) == Payload(s)
    ensures FrameComplete(s) ==> x[FrameSize(x)..] == s[FrameSize(s)..]
  {
    SameBytes(x, s);
    if FrameComplete(s) {
      SamePayload(x, s);
    }
  }

  lemma MaskedByte(b: bv8)
    requires b & 128 == 128 && b & 127 != 127
    ensures b != 0 && (b & 127) as nat != 127
  {
  }

  // ----- handlers and what stands behind their payloads -----

  // However much of `rest` has arrived with the frame before it, the answer is the same.
  ghost predicate Unmoved(log: seq<Bytes>, rest: Bytes, handler: Handler) {
    forall k | 0 <= k <= |rest| :: handler(log, Behind(rest[..k])) == handler(log, [])
  }

  // So it is for every command of `s` that is reached.
  ghost predicate Indifferent(s: Bytes, log: seq<Bytes>, handler: Handler)
    decreases |s|
  {
    FrameComplete(s) ==>
      var log' := log + [Payload(s)];
      var rest := s[FrameSize(s)..];
      Unmoved(log', rest, handler) && (handler(log', []) ==> Indifferent(rest, log', handler))
  }

  // Handlers that look at nothing behind their payload.
  ghost predicate StopsAtZero(handler: Handler) {
    forall log, behind :: handler(log, behind) == handler(log, [])
  }

  lemma {:induction false} StopsIndifferent(s: Bytes, log: seq<Bytes>, handler: Handler)
    requires StopsAtZero(handler)
    ensures Indifferent(s, log, handler)
    decreases |s|
  {
    if FrameComplete(s) {
      StopsIndifferent(s[FrameSize(s)..], log + [Payload(s)], handler);
    }
  }

  lemma UnmovedWhole(log: seq<Bytes>, rest: Bytes, handler: Handler)
    requires Unmoved(log, rest, handler)
    ensures handler(log, Behind(rest)) == handler(log, [])
  {
    assert rest[..|rest|] == rest;
  }

  // Nothing stands behind a frame that is alone.
  lemma AloneIndifferent(s: Bytes, log: seq<Bytes>, handler: Handler)
    requires FrameComplete(s) ==> FrameSize(s) == |s|
    ensures Indifferent(s, log, handler)
  {
    if FrameComplete(s) {
      var rest := s[FrameSize(s)..];
      assert rest == [] && rest[..0] == [];
      assert !FrameComplete(rest);
    }
  }

  // Zeroing the first byte of a glued frame does not change how a text stream is understood.
  lemma {:induction false} ReceiveIsDecode(x: Bytes, s: Bytes, log: seq<Bytes>, handler: Handler)
    requires SameButFirst(x, s) && TextStream(s) && Indifferent(s, log, handler)
    ensures Agrees(AfterVerdict(Receive(x, log, handler)), Decode(s, log, handler))
    decreases |s|
  {
    hide Unmoved, Behind;
    SameHeader(x, s);
    if |s| >= 2 {
      MaskedByte(s[1]);
      assert At(x, 1) == s[1];
    }
    if FrameComplete(s) {
      var log' := log + [Payload(s)];
      var rest := s[FrameSize(s)..];
      UnmovedWhole(log', rest, handler);
      if handler(log', []) && rest != [] {
        ReceiveIsDecode(rest[0 := 0], rest, log', handler);
      }
    }
  }

  // ----- cutting a stream in two -----

  lemma SamePrefix(s: Bytes, t: Bytes)
    requires FrameComplete(s)
    ensures FrameComplete(s + t) && FrameSize(s + t) == FrameSize(s)
    ensures Payload(s + t) == Payload(s)
    ensures (s + t)[FrameSize(s)..] == s[FrameSize(s)..] + t
  {
    assert forall i: nat | i < |s| :: At(s + t, i) == At(s, i);
  }

  lemma {:induction false} TextStreamPrefix(s: Bytes, t: Bytes)
    requires TextStream(s + t)
    ensures TextStream(s)
    decreases |s|
  {
    if s != [] {
      assert (s + t)[0] == s[0];
      if |s| >= 2 {
        assert (s + t)[1] == s[1];
      }
      if FrameComplete(s) {
        SamePrefix(s, t);
        TextStreamPrefix(s[FrameSize(s)..], t);
      }
    }
  }

  lemma {:induction false} DecodeSplit(s: Bytes, t: Bytes, log: seq<Bytes>, handler: Handler)
    requires TextStream(s + t)
    ensures var d := Decode(s, log, handler);
            if d.rejected
            then Decode(s + t, log, handler) == d.(rest := d.rest + t)
            else Decode(s + t, log, handler) == Decode(d.rest + t, d.log, handler) && TextStream(d.rest + t)
    decreases |s|
  {
    if FrameComplete(s) {
      SamePrefix(s, t);
      var log' := log + [Payload(s)];
      if handler(log', []) {
        DecodeSplit(s[FrameSize(s)..], t, log', handler);
      }
    }
  }

  lemma UnmovedPrefix(log: seq<Bytes>, rest: Bytes, t: Bytes, handler: Handler)
    requires Unmoved(log, rest + t, handler)
    ensures Unmoved(log, rest, handler)
  {
    forall k | 0 <= k <= |rest|
      ensures handler(log, Behind(rest[..k])) == handler(log, [])
    {
      assert (rest + t)[..k] == rest[..k];
    }
  }

  lemma {:induction false} IndifferentPrefix(s: Bytes, t: Bytes, log: seq<Bytes>, handler: Handler)
    requires Indifferent(s + t, log, handler)
    ensures Indifferent(s, log, handler)
    decreases |s|
  {
    hide Unmoved;
    if FrameComplete(s) {
      SamePrefix(s, t);
      var log' := log + [Payload(s)];
      UnmovedPrefix(log', s[FrameSize(s)..], t, handler);
      if handler(log', []) {
        IndifferentPrefix(s[FrameSize(s)..], t, log', handler);
      }
    }
  }

  lemma {:induction false} IndifferentRest(s: Bytes, t: Bytes, log: seq<Bytes>, handler: Handler)
    requires Indifferent(s + t, log, handler)
    ensures var d := Decode(s, log, handler); !d.rejected ==> Indifferent(d.rest + t, d.log, handler)
    decreases |s|
  {
    hide Unmoved;
    if FrameComplete(s) {
      SamePrefix(s, t);
      var log' := log + [Payload(s)];
      if handler(log', []) {
        IndifferentRest(s[FrameSize(s)..], t, log', handler);
      }
    }
  }

  // ----- main results -----

  // At every read the bytes kept from before and the bytes read stay below the limit.
  predicate Fits(d: Reading, chunks: seq<Bytes>, limit: nat, handler: Handler)
    decreases |chunks|
  {
    chunks == [] || d.rejected ||
    (&& (d.rest != [] ==> |d.rest| + |chunks[0]| < limit)
     && Fits(Decode(d.rest + chunks[0], d.log, handler), chunks[1..], limit, handler))
  }

  // One read keeps the agreement.
  lemma OnReadAgrees(c: Connection, d: Reading, r: Bytes, limit: nat, handler: Handler)
    requires |r| > 0 && Agrees(c, d) && !d.rejected && TextStream(d.rest + r) && Indifferent(d.rest + r, d.log, handler)
    requires d.rest != [] ==> |d.rest| + |r| < limit
    ensures Agrees(OnRead(c, r, limit, handler), Decode(d.rest + r, d.log, handler))
  {
    hide Decode, Receive, TextStream, Indifferent;
    var s := d.rest + r;
    if c.hasFragment {
      var x := c.fragment + r;
      assert x[1..] == c.fragment[1..] + r;
      assert s[1..] == d.rest[1..] + r;
      ReceiveIsDecode(x, s, d.log, handler);
    } else {
      assert s == r;
      ReceiveIsDecode(r, s, d.log, handler);
    }
  }

  // What the standard's reading of the whole stream gives.
  function Whole(d: Reading, chunks: seq<Bytes>, handler: Handler): Reading {
    if d.rejected then d else Decode(d.rest + Concat(chunks), d.log, handler)
  }

  lemma {:induction false} ServeFrom(c: Connection, d: Reading, chunks: seq<Bytes>, limit: nat, handler: Handler)
    requires NonEmptyChunks(chunks) && Agrees(c, d)
    requires !d.rejected ==> Decode(d.rest, d.log, handler) == d
    requires !d.rejected ==> var s := d.rest + Concat(chunks); TextStream(s) && Indifferent(s, d.log, handler)
    requires Fits(d, chunks, limit, handler)
    ensures var all := Whole(d, chunks, handler);
            var end := Serve(c, chunks, limit, handler);
            && end.log == all.log && (end.Closed? <==> all.rejected)
            && (end.Open? ==> if end.hasFragment then SameButFirst(end.fragment, all.rest) else all.rest == [])
    decreases |chunks|
  {
    hide Indifferent;
    if d.rejected {
      RejectedStays(c, chunks, limit, handler);
    } else if chunks == [] {
      assert d.rest + Concat(chunks) == d.rest;
    } else {
      var s := d.rest + chunks[0];
      var t := Concat(chunks[1..]);
      assert d.rest + Concat(chunks) == s + t;
      TextStreamPrefix(s, t);
      DecodeSplit(s, t, d.log, handler);
      IndifferentPrefix(s, t, d.log, handler);
      IndifferentRest(s, t, d.log, handler);
      OnReadAgrees(c, d, chunks[0], limit, handler);
      DecodeRest(s, d.log, handler);
      var c' := OnRead(c, chunks[0], limit, handler);
      var d' := Decode(s, d.log, handler);
      if d'.rejected {
        RejectedStays(c', chunks[1..], limit, handler);
      } else {
        ServeFrom(c', d', chunks[1..], limit, handler);
      }
    }
  }

  lemma {:induction false} RejectedStays(c: Connection, chunks: seq<Bytes>, limit: nat, handler: Handler)
    requires NonEmptyChunks(chunks) && c.Closed?
    ensures Serve(c, chunks, limit, handler) == c
    decreases |chunks|
  {
    if chunks != [] {
      RejectedStays(c, chunks[1..], limit, handler);
    }
  }

  // What is left over after decoding does not hold another complete frame.
  lemma {:induction false} DecodeRest(s: Bytes, log: seq<Bytes>, handler: Handler)
    ensures var d := Decode(s, log, handler);
            !d.rejected ==> Decode(d.rest, d.log, handler) == d
    decreases |s|
  {
    if FrameComplete(s) && handler(log + [Payload(s)], []) {
      DecodeRest(s[FrameSize(s)..], log + [Payload(s)], handler);
    }
  }

  lemma DecodeEmpty(log: seq<Bytes>, handler: Handler)
    ensures Decode([], log, handler) == Reading(log, false, [])
  {
  }

  // However a stream of text frames is cut into chunks, exactly the payloads that the standard's
  // reading of the whole stream gives are dispatched, in order, up to the same rejected command,
  // when no answer of the handler depends on what stands behind a payload.
  lemma {:induction false} ReadsDecodeTheStream(chunks: seq<Bytes>, limit: nat, handler: Handler)
    requires NonEmptyChunks(chunks) && TextStream(Concat(chunks)) && Indifferent(Concat(chunks), [], handler)
    requires Fits(Reading([], false, []), chunks, limit, handler)
    ensures var all := Decode(Concat(chunks), [], handler);
            var end := Serve(FRESH, chunks, limit, handler);
            && end.log == all.log && (end.Closed? <==> all.rejected)
            && (end.Open? ==> if end.hasFragment then SameButFirst(end.fragment, all.rest) else all.rest == [])
  {
    hide Decode, TextStream, Concat, Fits, Serve, Indifferent;
    assert [] + Concat(chunks) == Concat(chunks);
    DecodeEmpty([], handler);
    ServeFrom(FRESH, Reading([], false, []), chunks, limit, handler);
  }

  // Two ways of cutting the same stream cannot be told apart; `one` may be the single read [s].
  lemma SplitInvariance(one: seq<Bytes>, other: seq<Bytes>, limit: nat, handler: Handler)
    requires NonEmptyChunks(one) && NonEmptyChunks(other)
    requires Concat(one) == Concat(other) && TextStream(Concat(one)) && Indifferent(Concat(one), [], handler)
    requires Fits(Reading([], false, []), one, limit, handler)
    requires Fits(Reading([], false, []), other, limit, handler)
    ensures var a := Serve(FRESH, one, limit, handler);
            var b := Serve(FRESH, other, limit, handler);
            && a.log == b.log && (a.Closed? <==> b.Closed?)
            && (a.Open? ==> a.hasFragment == b.hasFragment && |a.fragment| == |b.fragment|)
            && (a.Open? && a.hasFragment ==> a.fragment != [] && a.fragment[1..] == b.fragment[1..])
  {
    hide Decode, TextStream, Concat, Fits, Serve, Indifferent;
    ReadsDecodeTheStream(one, limit, handler);
    ReadsDecodeTheStream(other, limit, handler);
    ServeShape(FRESH, one, limit, handler);
    ServeShape(FRESH, other, limit, handler);
  }

  // A connection without an unfinished frame holds no bytes.
  lemma {:induction false} ServeShape(c: Connection, chunks: seq<Bytes>, limit: nat, handler: Handler)
    requires NonEmptyChunks(chunks) && (c.Open? && !c.hasFragment ==> c.fragment == [])
    ensures var end := Serve(c, chunks, limit, handler); end.Open? && !end.hasFragment ==> end.fragment == []
    decreases |chunks|
  {
    if chunks != [] {
      ServeShape(OnRead(c, chunks[0], limit, handler), chunks[1..], limit, handler);
    }
  }

  // ----- when every cutting dispatches the same -----

  // What the frames of `s` leave over, whatever becomes of their commands.
  function Left(s: Bytes): Bytes
    decreases |s|
  {
    if FrameComplete(s) then Left(s[FrameSize(s)..]) else s
  }

  lemma {:induction false} LeftText(s: Bytes, t: Bytes)
    requires TextStream(s + t)
    ensures TextStream(Left(s) + t) && |Left(s)| <= |s|
    decreases |s|
  {
    if FrameComplete(s) {
      SamePrefix(s, t);
      LeftText(s[FrameSize(s)..], t);
    }
  }

  // A connection that has read `s` holds nothing but what is left over.
  predicate Keeps(c: Connection, s: Bytes) {
    c.Open? ==> if c.hasFragment then SameButFirst(c.fragment, Left(s)) else Left(s) == []
  }

  // What the server sees at the start of a text stream.
  lemma TextFrame(x: Bytes, s: Bytes)
    requires SameButFirst(x, s) && TextStream(s)
    ensures Classify(x) == if FrameComplete(s) then Complete else Unfinished
    ensures FrameComplete(s) ==>
              && FrameComplete(x) && FrameSize(x) == FrameSize(s) <= |s| && Payload(x) == Payload(s)
              && x[FrameSize(s)..] == s[FrameSize(s)..] && TextStream(s[FrameSize(s)..]) && !NextCommandIsEof(x)
  {
    SameHeader(x, s);
    if |s| >= 2 {
      MaskedByte(s[1]);
      assert At(x, 1) == s[1];
    }
  }

  // Whatever the answers: a read of text that closes the connection has dispatched a payload.
  lemma {:induction false} ReceiveGrows(x: Bytes, s: Bytes, log: seq<Bytes>, handler: Handler)
    requires SameButFirst(x, s) && TextStream(s)
    ensures var c := AfterVerdict(Receive(x, log, handler));
            |c.log| >= |log| && (c.Closed? ==> |c.log| > |log|) && Keeps(c, s)
    decreases |s|
  {
    TextFrame(x, s);
    assert Left([]) == [];
    hide Behind, Payload, Classify, FrameComplete, HeaderSize, PayloadSize, TextStream;
    if FrameComplete(s) {
      var log' := log + [Payload(s)];
      var rest := s[FrameSize(s)..];
      if handler(log', Behind(rest)) && rest != [] {
        ReceiveGrows(rest[0 := 0], rest, log', handler);
      }
    }
  }

  lemma {:induction false} DecodeGrows(s: Bytes, log: seq<Bytes>, handler: Handler)
    ensures var d := Decode(s, log, handler);
            |d.log| >= |log| && (d.rejected ==> |d.log| > |log|) && |d.rest| <= |s|
    decreases |s|
  {
    if FrameComplete(s) {
      DecodeGrows(s[FrameSize(s)..], log + [Payload(s)], handler);
    }
  }

  // The connection was closed where the standard's reading goes on, or is open and has come as far
  // as the command that this reading rejects.
  predicate Differs(c: Connection, d: Reading) {
    if c.Closed? then !(d.rejected && c.log == d.log) else d.rejected && |c.log| >= |d.log|
  }

  lemma PrefixComplete(s: Bytes, n: nat)
    requires FrameComplete(s) && FrameSize(s) <= n <= |s|
    ensures FrameComplete(s[..n]) && FrameSize(s[..n]) == FrameSize(s) && Payload(s[..n]) == Payload(s)
    ensures s[..n][FrameSize(s)..] == s[FrameSize(s)..][..n - FrameSize(s)]
  {
    assert forall i: nat | i < n :: At(s[..n], i) == At(s, i);
    var h := HeaderSize(s);
    forall i | 0 <= i < PayloadSize(s)
      ensures Payload(s[..n])[i] == Payload(s)[i]
    {
      assert s[..n][h + i] == s[h + i] && s[..n][h - 4 + i % 4] == s[h - 4 + i % 4];
    }
  }

  // The first frame of a stream, when it is read together with `k` of the bytes behind it.
  lemma FirstFrame(x: Bytes, s: Bytes, k: nat, log: seq<Bytes>, handler: Handler)
    requires TextStream(s) && FrameComplete(s) && FrameSize(s) + k <= |s| && SameButFirst(x, s[..FrameSize(s) + k])
    ensures var log' := log + [Payload(s)];
            var glued := s[FrameSize(s)..][..k];
            && TextStream(glued)
            && Receive(x, log, handler)
               == if !handler(log', Behind(glued)) then Outcome(log', Close)
                  else if k > 0 then Receive(glued[0 := 0], log', handler)
                  else Outcome(log', Idle)
  {
    hide Behind, Payload, Classify, HeaderSize, PayloadSize, TextStream, NextCommandIsEof;
    var n := FrameSize(s) + k;
    var p := s[..n];
    PrefixComplete(s, n);
    assert p + s[n..] == s;
    TextStreamPrefix(p, s[n..]);
    TextFrame(x, p);
  }

  // A handler whose answer depends on what is behind the first payload.
  lemma DiffersHere(x: Bytes, s: Bytes, k: nat, log: seq<Bytes>, handler: Handler)
    requires TextStream(s) && FrameComplete(s) && FrameSize(s) + k <= |s| && SameButFirst(x, s[..FrameSize(s) + k])
    requires var log' := log + [Payload(s)];
             handler(log', Behind(s[FrameSize(s)..][..k])) != handler(log', [])
    ensures Differs(AfterVerdict(Receive(x, log, handler)), Decode(s, log, handler))
  {
    hide Receive, Behind, TextStream, Payload;
    FirstFrame(x, s, k, log, handler);
    var log' := log + [Payload(s)];
    var rest := s[FrameSize(s)..];
    if handler(log', []) {
      DecodeGrows(rest, log', handler);
    } else if k > 0 {
      ReceiveGrows(rest[..k][0 := 0], rest[..k], log', handler);
    }
  }

  // After `n` bytes of the stream, read at once, the two differ.
  ghost predicate DiffersAfter(s: Bytes, n: nat, log: seq<Bytes>, handler: Handler) {
    && 0 < n <= |s|
    && forall x | SameButFirst(x, s[..n]) :: Differs(AfterVerdict(Receive(x, log, handler)), Decode(s, log, handler))
  }

  lemma DiffersLater(x: Bytes, s: Bytes, m: nat, log: seq<Bytes>, handler: Handler)
    requires TextStream(s) && FrameComplete(s)
    requires var log' := log + [Payload(s)];
             var rest := s[FrameSize(s)..];
             Unmoved(log', rest, handler) && handler(log', []) && DiffersAfter(rest, m, log', handler)
    requires FrameSize(s) + m <= |s| && SameButFirst(x, s[..FrameSize(s) + m])
    ensures Differs(AfterVerdict(Receive(x, log, handler)), Decode(s, log, handler))
  {
    hide Receive, Behind, TextStream, Payload, Differs;
    FirstFrame(x, s, m, log, handler);
    var rest := s[FrameSize(s)..];
    assert SameButFirst(rest[..m][0 := 0], rest[..m]);
  }

  lemma {:induction false} CutDiffers(s: Bytes, log: seq<Bytes>, handler: Handler) returns (n: nat)
    requires TextStream(s) && !Indifferent(s, log, handler)
    ensures DiffersAfter(s, n, log, handler)
    decreases |s|
  {
    hide Receive, Decode, Behind, Payload, Differs;
    var log' := log + [Payload(s)];
    var rest := s[FrameSize(s)..];
    if !Unmoved(log', rest, handler) {
      var k :| 0 <= k <= |rest| && handler(log', Behind(rest[..k])) != handler(log', []);
      n := FrameSize(s) + k;
      forall x | SameButFirst(x, s[..n])
        ensures Differs(AfterVerdict(Receive(x, log, handler)), Decode(s, log, handler))
      {
        DiffersHere(x, s, k, log, handler);
      }
    } else {
      var m := CutDiffers(rest, log', handler);
      n := FrameSize(s) + m;
      forall x | SameButFirst(x, s[..n])
        ensures Differs(AfterVerdict(Receive(x, log, handler)), Decode(s, log, handler))
      {
        DiffersLater(x, s, m, log, handler);
      }
    }
  }

  // A read that follows cannot bring the two together again.
  lemma SecondRead(c: Connection, s: Bytes, r: Bytes, d: Reading, limit: nat, handler: Handler)
    requires r != [] && TextStream(s + r) && |s + r| < limit && Keeps(c, s) && Differs(c, d)
    ensures Differs(OnRead(c, r, limit, handler), d)
  {
    hide Receive, TextStream, Left;
    if c.Open? {
      LeftText(s, r);
      var u := Left(s) + r;
      if c.hasFragment {
        var x := c.fragment + r;
        assert x[1..] == c.fragment[1..] + r && u[1..] == Left(s)[1..] + r;
        ReceiveGrows(x, u, c.log, handler);
      } else {
        assert u == r;
        ReceiveGrows(r, r, c.log, handler);
      }
    }
  }

  predicate Cuts(chunks: seq<Bytes>, s: Bytes) {
    NonEmptyChunks(chunks) && Concat(chunks) == s
  }

  // The reads leave what the standard's reading of the whole stream gives.
  predicate AsDecoded(chunks: seq<Bytes>, s: Bytes, limit: nat, handler: Handler)
    requires NonEmptyChunks(chunks)
  {
    Agrees(Serve(FRESH, chunks, limit, handler), Decode(s, [], handler))
  }

  lemma ServeOne(c: Connection, a: Bytes, limit: nat, handler: Handler)
    requires a != []
    ensures Serve(c, [a], limit, handler) == OnRead(c, a, limit, handler) && Concat([a]) == a
  {
    hide OnRead;
    assert [a][1..] == [] && a + [] == a;
  }

  lemma ServeTwo(c: Connection, a: Bytes, b: Bytes, limit: nat, handler: Handler)
    requires a != [] && b != []
    ensures Serve(c, [a, b], limit, handler) == OnRead(OnRead(c, a, limit, handler), b, limit, handler)
    ensures Concat([a, b]) == a + b
  {
    hide OnRead;
    assert [a, b][1..] == [b];
    ServeOne(OnRead(c, a, limit, handler), b, limit, handler);
  }

  lemma TwoReadsDiffer(s: Bytes, n: nat, limit: nat, handler: Handler) returns (chunks: seq<Bytes>)
    requires TextStream(s) && |s| < limit && DiffersAfter(s, n, [], handler)
    ensures Cuts(chunks, s) && !AsDecoded(chunks, s, limit, handler)
  {
    hide Receive, Decode, TextStream, Left;
    var d := Decode(s, [], handler);
    var p, r := s[..n], s[n..];
    assert p + r == s;
    var c := OnRead(FRESH, p, limit, handler);
    assert SameButFirst(p, p);
    assert Differs(c, d);
    if r == [] {
      chunks := [p];
      ServeOne(FRESH, p, limit, handler);
    } else {
      chunks := [p, r];
      TextStreamPrefix(p, r);
      ReceiveGrows(p, p, [], handler);
      SecondRead(c, p, r, d, limit, handler);
      ServeTwo(FRESH, p, r, limit, handler);
    }
  }

  lemma {:induction false} FitsShort(d: Reading, chunks: seq<Bytes>, limit: nat, handler: Handler)
    requires |d.rest + Concat(chunks)| < limit
    ensures Fits(d, chunks, limit, handler)
    decreases |chunks|
  {
    if chunks != [] && !d.rejected {
      DecodeGrows(d.rest + chunks[0], d.log, handler);
      FitsShort(Decode(d.rest + chunks[0], d.log, handler), chunks[1..], limit, handler);
    }
  }

  // All ways of cutting a stream of text frames into reads leave what the standard's reading of the
  // whole stream gives if and only if no answer of the handler depends on what stands behind its
  // payload.
  lemma EveryCuttingIff(s: Bytes, limit: nat, handler: Handler)
    requires TextStream(s) && |s| < limit
    ensures (forall chunks | Cuts(chunks, s) :: AsDecoded(chunks, s, limit, handler)) <==> Indifferent(s, [], handler)
  {
    hide TextStream, Indifferent, Decode, Fits, Serve;
    if Indifferent(s, [], handler) {
      forall chunks | Cuts(chunks, s)
        ensures AsDecoded(chunks, s, limit, handler)
      {
        var d := Reading([], false, []);
        assert d.rest + Concat(chunks) == s;
        FitsShort(d, chunks, limit, handler);
        ReadsDecodeTheStream(chunks, limit, handler);
      }
    } else {
      var n := CutDiffers(s, [], handler);
      var chunks := TwoReadsDiffer(s, n, limit, handler);
    }
  }

  // ----- a control frame behind the text -----

  // subscription, user_status, pipe_count, statistics, web_pipe2,
  // pipe_log, track_pipe_users, user_data, cgi_call, CometQL_call
  const COMMANDS: seq<Bytes> := [
    [0x73, 0x75, 0x62, 0x73, 0x63, 0x72, 0x69, 0x70, 0x74, 0x69, 0x6f, 0x6e],
    [0x75, 0x73, 0x65, 0x72, 0x5f, 0x73, 0x74, 0x61, 0x74, 0x75, 0x73],
    [0x70, 0x69, 0x70, 0x65, 0x5f, 0x63, 0x6f, 0x75, 0x6e, 0x74],
    [0x73, 0x74, 0x61, 0x74, 0x69, 0x73, 0x74, 0x69, 0x63, 0x73],
    [0x77, 0x65, 0x62, 0x5f, 0x70, 0x69, 0x70, 0x65, 0x32],
    [0x70, 0x69, 0x70, 0x65, 0x5f, 0x6c, 0x6f, 0x67],
    [0x74, 0x72, 0x61, 0x63, 0x6b, 0x5f, 0x70, 0x69, 0x70, 0x65, 0x5f, 0x75, 0x73, 0x65, 0x72, 0x73],
    [0x75, 0x73, 0x65, 0x72, 0x5f, 0x64, 0x61, 0x74, 0x61],
    [0x63, 0x67, 0x69, 0x5f, 0x63, 0x61, 0x6c, 0x6c],
    [0x43, 0x6f, 0x6d, 0x65, 0x74, 0x51, 0x4c, 0x5f, 0x63, 0x61, 0x6c, 0x6c]]

  // A payload that runs a command starts with the name of one.
  predicate IsCommand(payload: Bytes) {
    exists i :: 0 <= i < |COMMANDS| && COMMANDS[i] <= payload
  }

  // Any payload that is no command is refused.
  ghost predicate RunsCommandsOnly(handler: Handler) {
    forall log, payload, behind :: handler(log + [payload], behind) ==> IsCommand(payload)
  }

  // A masked close or pong frame; control frames carry at most 125 bytes.
  predicate ControlFrame(c: Bytes) {
    && |c| >= 6 && (c[0] == CLOSE_FRAME || c[0] == PONG_FRAME)
    && c[1] & 128 == 128 && LengthCode(c) <= 125 && |c| == FrameSize(c)
  }

  // The text frames of `s` are complete, and the commands in them are accepted.
  predicate Settled(s: Bytes, handler: Handler) {
    s != [] && TextStream(s) && !Decode(s, [], handler).rejected && Decode(s, [], handler).rest == []
  }

  // A read ends behind exactly `n` bytes.
  predicate CutAt(chunks: seq<Bytes>, n: nat)
    decreases |chunks|
  {
    n == 0 || (chunks != [] && |chunks[0]| <= n && CutAt(chunks[1..], n - |chunks[0]|))
  }

  // If a read starts behind exactly `n` bytes, it brings at least `size` bytes.
  predicate Undivided(chunks: seq<Bytes>, n: nat, size: nat)
    decreases |chunks|
  {
    if chunks == [] then true
    else if n == 0 then |chunks[0]| >= size
    else |chunks[0]| <= n ==> Undivided(chunks[1..], n - |chunks[0]|, size)
  }

  lemma SamePayloadAfterFirst(x: Bytes, y: Bytes)
    requires |x| == |y| > 0 && x[1..] == y[1..]
    ensures FrameComplete(x) == FrameComplete(y)
    ensures FrameComplete(x) ==> FrameSize(x) == FrameSize(y) && Payload(x) == Payload(y)
    ensures FrameComplete(x) ==> x[FrameSize(x)..] == y[FrameSize(x)..]
  {
    forall i | 0 < i < |x|
      ensures x[i] == y[i]
    {
      assert x[i] == x[1..][i - 1] && y[i] == y[1..][i - 1];
    }
    if FrameComplete(x) {
      SamePayload(x, y);
    }
  }

  // Readings that differ in no more than the first byte that is left over.
  predicate Alike(d: Reading, e: Reading) {
    && d.log == e.log && d.rejected == e.rejected && |d.rest| == |e.rest|
    && (d.rest != [] ==> d.rest[1..] == e.rest[1..])
  }

  lemma DecodeAlike(x: Bytes, y: Bytes, log: seq<Bytes>, handler: Handler)
    requires |x| == |y| && (x != [] ==> x[1..] == y[1..])
    ensures Alike(Decode(x, log, handler), Decode(y, log, handler))
  {
    if x != [] {
      SamePayloadAfterFirst(x, y);
    }
  }

  lemma {:induction false} FitsAlike(d: Reading, e: Reading, chunks: seq<Bytes>, limit: nat, handler: Handler)
    requires NonEmptyChunks(chunks) && Alike(d, e) && Fits(d, chunks, limit, handler)
    ensures Fits(e, chunks, limit, handler)
    decreases |chunks|
  {
    hide Decode;
    if chunks != [] && !d.rejected {
      var x, y := d.rest + chunks[0], e.rest + chunks[0];
      if d.rest != [] {
        assert x[1..] == d.rest[1..] + chunks[0] && y[1..] == e.rest[1..] + chunks[0];
      }
      DecodeAlike(x, y, d.log, handler);
      FitsAlike(Decode(x, d.log, handler), Decode(y, d.log, handler), chunks[1..], limit, handler);
    }
  }

  // One complete frame is run, and what follows is received with its first byte zeroed.
  lemma ReceiveOne(x: Bytes, s: Bytes, u: Bytes, log: seq<Bytes>, handler: Handler)
    requires SameButFirst(x, s) && TextStream(s) && FrameComplete(s) && u != []
    requires handler(log + [Payload(s)], Behind(s[FrameSize(s)..] + u))
    ensures Receive(x + u, log, handler)
            == Receive((s[FrameSize(s)..] + u)[0 := 0], log + [Payload(s)], handler)
  {
    SameHeader(x, s);
    SamePrefix(x, u);
    assert (x + u)[0] == x[0];
    MaskedByte(s[1]);
    assert At(x + u, 1) == s[1];
    assert Classify(x + u) == Complete;
  }

  // The first of complete text frames is accepted, with whatever is glued to them.
  lemma FirstSettled(s: Bytes, u: Bytes, log: seq<Bytes>, handler: Handler)
    requires s != [] && TextStream(s) && Indifferent(s + u, log, handler)
    requires !Decode(s, log, handler).rejected && Decode(s, log, handler).rest == []
    ensures FrameComplete(s) && 6 <= FrameSize(s) <= |s|
    ensures var log' := log + [Payload(s)];
            var rest := s[FrameSize(s)..];
            && TextStream(rest) && handler(log', Behind(rest + u)) && Indifferent(rest + u, log', handler)
            && Decode(s, log, handler) == Decode(rest, log', handler)
  {
    assert FrameComplete(s);
    SamePrefix(s, u);
    hide Unmoved, Behind, Payload, HeaderSize, PayloadSize;
    UnmovedWhole(log + [Payload(s)], s[FrameSize(s)..] + u, handler);
  }

  // What is glued to complete text frames is received with its first byte zeroed.
  lemma {:induction false} ReceiveThenGlued(x: Bytes, s: Bytes, u: Bytes, log: seq<Bytes>, handler: Handler)
    requires SameButFirst(x, s) && TextStream(s) && u != []
    requires !Decode(s, log, handler).rejected && Decode(s, log, handler).rest == []
    requires Indifferent(s + u, log, handler)
    ensures Receive(x + u, log, handler) == Receive(u[0 := 0], Decode(s, log, handler).log, handler)
    decreases |s|
  {
    hide Receive, Payload, Indifferent, Behind, TextStream, FrameComplete, HeaderSize, PayloadSize, Decode;
    FirstSettled(s, u, log, handler);
    ReceiveOne(x, s, u, log, handler);
    var rest := s[FrameSize(s)..];
    if rest == [] {
      assert rest + u == u;
      DecodeEmpty(log + [Payload(s)], handler);
    } else {
      assert (rest + u)[0 := 0] == rest[0 := 0] + u;
      ReceiveThenGlued(rest[0 := 0], rest, u, log + [Payload(s)], handler);
    }
  }

  // The control frame taken for a text frame.
  function AsText(u: Bytes): Bytes {
    if u == [] then [] else u[0 := TEXT_FRAME]
  }

  lemma AsTextFrame(c: Bytes, log: seq<Bytes>, handler: Handler)
    requires ControlFrame(c)
    ensures TextStream(AsText(c)) && FrameComplete(c)
    ensures Decode(AsText(c), log, handler) == Reading(log + [Payload(c)], !handler(log + [Payload(c)], []), [])
    ensures Indifferent(AsText(c), log, handler)
  {
    var t := AsText(c);
    SamePayloadAfterFirst(t, c);
    AloneIndifferent(t, log, handler);
    assert t[FrameSize(t)..] == [];
    MaskedShort(c);
  }

  lemma MaskedShort(c: Bytes)
    requires ControlFrame(c)
    ensures c[1] & 127 != 127
  {
  }

  // A connection that agrees with a reading and keeps nothing besides a fragment.
  predicate InStep(conn: Connection, d: Reading) {
    Agrees(conn, d) && !d.rejected && (conn.Open? && !conn.hasFragment ==> conn.fragment == [])
  }

  // One read that ends inside the text, or at its end.
  lemma ReadText(conn: Connection, d: Reading, r: Bytes, t: Bytes, limit: nat, handler: Handler)
    requires r != [] && InStep(conn, d) && TextStream(d.rest + r + t)
    requires d.rest != [] ==> |d.rest| + |r| < limit
    requires !Decode(d.rest + r + t, d.log, handler).rejected && Indifferent(d.rest + r, d.log, handler)
    ensures var e := Decode(d.rest + r, d.log, handler);
            && InStep(OnRead(conn, r, limit, handler), e) && TextStream(e.rest + t)
            && Decode(e.rest + t, e.log, handler) == Decode(d.rest + r + t, d.log, handler)
  {
    hide Decode, Receive, TextStream, Indifferent;
    TextStreamPrefix(d.rest + r, t);
    DecodeSplit(d.rest + r, t, d.log, handler);
    OnReadAgrees(conn, d, r, limit, handler);
  }

  // One read that goes beyond the text.
  lemma ReadBeyond(conn: Connection, d: Reading, t: Bytes, u: Bytes, limit: nat, handler: Handler)
    requires t != [] && u != [] && InStep(conn, d) && TextStream(d.rest + t)
    requires d.rest != [] ==> |d.rest| + |t + u| < limit
    requires !Decode(d.rest + t, d.log, handler).rejected && Decode(d.rest + t, d.log, handler).rest == []
    requires Indifferent(d.rest + t + u, d.log, handler)
    ensures OnRead(conn, t + u, limit, handler)
            == AfterVerdict(Receive(u[0 := 0], Decode(d.rest + t, d.log, handler).log, handler))
  {
    hide Decode, Receive, TextStream, Indifferent;
    var s := d.rest + t;
    if conn.hasFragment {
      var x := conn.fragment + t;
      assert x[1..] == conn.fragment[1..] + t && s[1..] == d.rest[1..] + t;
      assert conn.fragment + (t + u) == x + u;
      ReceiveThenGlued(x, s, u, d.log, handler);
    } else {
      assert s == t;
      ReceiveThenGlued(t, s, u, d.log, handler);
    }
  }

  // The reads from one that goes beyond the text on: the control frame is served as a text frame.
  lemma ServeGlued(conn: Connection, d: Reading, t: Bytes, u: Bytes, chunks: seq<Bytes>, c: Bytes, limit: nat,
                   handler: Handler)
    requires t != [] && u != [] && NonEmptyChunks(chunks) && InStep(conn, d) && TextStream(d.rest + t)
    requires ControlFrame(c) && u + Concat(chunks) == c
    requires !Decode(d.rest + t, d.log, handler).rejected && Decode(d.rest + t, d.log, handler).rest == []
    requires Fits(d, [t + u] + chunks, limit, handler) && Indifferent(d.rest + t + u, d.log, handler)
    ensures var log := Decode(d.rest + t, d.log, handler).log + [Payload(c)];
            Serve(conn, [t + u] + chunks, limit, handler)
            == if handler(log, []) then Open(log, false, []) else Closed(log)
  {
    hide Decode, Receive, TextStream, Indifferent;
    var s := d.rest + t;
    var log := Decode(s, d.log, handler).log;
    ReadBeyond(conn, d, t, u, limit, handler);
    AsTextFrame(c, log, handler);
    var v := AsText(u);
    assert AsText(c) == v + Concat(chunks);
    TextStreamPrefix(v, Concat(chunks));
    IndifferentPrefix(v, Concat(chunks), log, handler);
    IndifferentRest(v, Concat(chunks), log, handler);
    ReceiveIsDecode(u[0 := 0], v, log, handler);
    GluedFits(s, u, d.log, handler);
    assert ([t + u] + chunks)[1..] == chunks && d.rest + (t + u) == s + u;
    var e := Decode(v, log, handler);
    FitsAlike(Decode(s + u, d.log, handler), e, chunks, limit, handler);
    DecodeRest(v, log, handler);
    DecodeSplit(v, Concat(chunks), log, handler);
    var conn' := OnRead(conn, t + u, limit, handler);
    ServeFrom(conn', e, chunks, limit, handler);
    ReceiveShape(u[0 := 0], log, handler);
    ServeShape(conn', chunks, limit, handler);
  }

  lemma ReceiveShape(x: Bytes, log: seq<Bytes>, handler: Handler)
    requires x != []
    ensures var end := AfterVerdict(Receive(x, log, handler)); end.Open? && !end.hasFragment ==> end.fragment == []
  {
    hide Receive;
  }

  // Reading complete text frames and what follows is reading what follows.
  lemma {:induction false} GluedFits(s: Bytes, u: Bytes, log: seq<Bytes>, handler: Handler)
    requires u != [] && !Decode(s, log, handler).rejected && Decode(s, log, handler).rest == []
    ensures Alike(Decode(s + u, log, handler), Decode(AsText(u), Decode(s, log, handler).log, handler))
    decreases |s|
  {
    if s == [] {
      assert s + u == u;
      DecodeAlike(u, AsText(u), log, handler);
    } else {
      SamePrefix(s, u);
      GluedFits(s[FrameSize(s)..], u, log + [Payload(s)], handler);
    }
  }

  // What the control frame comes to: glued to text it is run as a command; read by itself a close
  // frame closes the connection, and a pong frame is dropped.
  function AfterControl(log: seq<Bytes>, c: Bytes, glued: bool, handler: Handler): Connection
    requires ControlFrame(c)
  {
    AsTextFrame(c, log, handler);
    var log' := log + [Payload(c)];
    if glued then (if handler(log', []) then Open(log', false, []) else Closed(log'))
    else if c[0] == CLOSE_FRAME then Closed(log)
    else Open(log, false, [])
  }

  lemma AtBoundary(log: seq<Bytes>, chunks: seq<Bytes>, c: Bytes, limit: nat, handler: Handler)
    requires NonEmptyChunks(chunks) && ControlFrame(c) && Concat(chunks) == c
    requires c[0] == PONG_FRAME ==> |chunks[0]| >= |c|
    ensures Serve(Open(log, false, []), chunks, limit, handler) == AfterControl(log, c, false, handler)
  {
    var conn, r := Open(log, false, []), chunks[0];
    assert r[0] == c[0];
    var next := OnRead(conn, r, limit, handler);
    if c[0] == CLOSE_FRAME {
      assert next == Closed(log);
      RejectedStays(next, chunks[1..], limit, handler);
    } else {
      assert next == conn;
      assert Concat(chunks[1..]) == [];
      NothingToRead(chunks[1..]);
    }
  }

  lemma NothingToRead(chunks: seq<Bytes>)
    requires NonEmptyChunks(chunks)
    ensures Concat(chunks) == [] ==> chunks == []
  {
  }

  lemma {:induction false} ServeControl(conn: Connection, d: Reading, chunks: seq<Bytes>, t: Bytes, c: Bytes,
                                        limit: nat, handler: Handler)
    requires NonEmptyChunks(chunks) && InStep(conn, d) && TextStream(d.rest + t) && Decode(d.rest, d.log, handler) == d
    requires ControlFrame(c) && Concat(chunks) == t + c && Fits(d, chunks, limit, handler)
    requires !Decode(d.rest + t, d.log, handler).rejected && Decode(d.rest + t, d.log, handler).rest == []
    requires c[0] == PONG_FRAME ==> Undivided(chunks, |t|, |c|)
    requires Indifferent(d.rest + t + c, d.log, handler)
    ensures Serve(conn, chunks, limit, handler)
            == AfterControl(Decode(d.rest + t, d.log, handler).log, c, !CutAt(chunks, |t|), handler)
    decreases |chunks|
  {
    hide Decode, Receive, TextStream, OnRead, AfterControl, Indifferent;
    var r := chunks[0];
    if t == [] {
      assert d.rest + t == d.rest && t + c == c;
      assert conn == Open(d.log, false, []);
      AtBoundary(d.log, chunks, c, limit, handler);
    } else if |r| <= |t| {
      var t' := t[|r|..];
      assert r == Concat(chunks)[..|r|] == t[..|r|];
      assert d.rest + r + t' == d.rest + t;
      assert Concat(chunks[1..]) == t' + c;
      assert d.rest + r + (t' + c) == d.rest + t + c;
      IndifferentPrefix(d.rest + r, t' + c, d.log, handler);
      IndifferentRest(d.rest + r, t' + c, d.log, handler);
      ReadText(conn, d, r, t', limit, handler);
      DecodeRest(d.rest + r, d.log, handler);
      var e := Decode(d.rest + r, d.log, handler);
      assert e.rest + t' + c == e.rest + (t' + c);
      ServeControl(OnRead(conn, r, limit, handler), e, chunks[1..], t', c, limit, handler);
    } else {
      var u := r[|t|..];
      assert t == Concat(chunks)[..|t|] == r[..|t|];
      assert r == t + u && chunks == [t + u] + chunks[1..];
      assert u + Concat(chunks[1..]) == c;
      assert d.rest + t + u + Concat(chunks[1..]) == d.rest + t + c;
      IndifferentPrefix(d.rest + t + u, Concat(chunks[1..]), d.log, handler);
      ServeGlued(conn, d, t, u, chunks[1..], c, limit, handler);
      GluedResult(Decode(d.rest + t, d.log, handler).log, c, handler);
    }
  }

  lemma GluedResult(log: seq<Bytes>, c: Bytes, handler: Handler)
    requires ControlFrame(c)
    ensures FrameComplete(c)
    ensures var log' := log + [Payload(c)];
            AfterControl(log, c, true, handler) == if handler(log', []) then Open(log', false, []) else Closed(log')
  {
    AsTextFrame(c, log, handler);
  }

  // `chunks` brings the text `s` and the control frame `c`.  A pong frame that starts a read comes
  // whole: what is dropped is the read.
  predicate Brings(chunks: seq<Bytes>, s: Bytes, c: Bytes, limit: nat, handler: Handler) {
    && NonEmptyChunks(chunks) && Concat(chunks) == s + c && Fits(Reading([], false, []), chunks, limit, handler)
    && (c != [] && c[0] == PONG_FRAME ==> Undivided(chunks, |s|, |c|))
  }

  // For every way of cutting text and control frame into reads: what it comes to depends on nothing
  // but whether a read starts with the control frame.
  lemma ReadsAndControl(chunks: seq<Bytes>, s: Bytes, c: Bytes, limit: nat, handler: Handler)
    requires Settled(s, handler) && ControlFrame(c) && Brings(chunks, s, c, limit, handler)
    requires Indifferent(s + c, [], handler)
    ensures Serve(FRESH, chunks, limit, handler)
            == AfterControl(Decode(s, [], handler).log, c, !CutAt(chunks, |s|), handler)
  {
    hide Decode, TextStream, Indifferent, Serve, AfterControl, CutAt, Undivided, Fits, Concat;
    assert [] + s == s;
    DecodeEmpty([], handler);
    ServeControl(FRESH, Reading([], false, []), chunks, s, c, limit, handler);
  }

  // No two ways of cutting leave one connection open and the other closed.
  ghost predicate EndAlike(s: Bytes, c: Bytes, limit: nat, handler: Handler) {
    forall a, b | Brings(a, s, c, limit, handler) && Brings(b, s, c, limit, handler) ::
      Serve(FRESH, a, limit, handler).Closed? == Serve(FRESH, b, limit, handler).Closed?
  }

  lemma TwoChunks(s: Bytes, c: Bytes)
    requires s != []
    ensures Concat([s, c]) == s + c && CutAt([s, c], |s|) && Undivided([s, c], |s|, |c|)
  {
    assert [s, c][1..] == [c] && [c][1..] == [];
    assert Concat([c]) == c + [] == c;
    assert CutAt([c], 0) && Undivided([c], 0, |c|);
  }

  lemma SeparateReads(s: Bytes, c: Bytes, limit: nat, handler: Handler)
    requires Settled(s, handler) && ControlFrame(c)
    ensures Brings([s, c], s, c, limit, handler) && CutAt([s, c], |s|)
  {
    assert c != [];
    hide Decode, TextStream, ControlFrame, Concat, CutAt, Undivided, Fits;
    TwoChunks(s, c);
    FitsNothingKept(Decode(s, [], handler), c, limit, handler);
    FitsFresh(s, [c], limit, handler);
    assert [s] + [c] == [s, c];
  }

  lemma OneRead(s: Bytes, c: Bytes, limit: nat, handler: Handler)
    requires Settled(s, handler) && ControlFrame(c)
    ensures Brings([s + c], s, c, limit, handler) && !CutAt([s + c], |s|)
  {
    assert c != [];
    hide Decode, TextStream, ControlFrame;
    assert [s + c][1..] == [];
    assert Concat([s + c]) == s + c + [] == s + c;
    FitsFresh(s + c, [], limit, handler);
  }

  lemma FitsFresh(r: Bytes, chunks: seq<Bytes>, limit: nat, handler: Handler)
    requires Fits(Decode(r, [], handler), chunks, limit, handler)
    ensures Fits(Reading([], false, []), [r] + chunks, limit, handler)
  {
    hide Decode;
    assert ([r] + chunks)[1..] == chunks && [] + r == r;
  }

  lemma FitsNothingKept(d: Reading, r: Bytes, limit: nat, handler: Handler)
    requires d.rest == []
    ensures Fits(d, [r], limit, handler)
  {
    hide Decode;
    assert [r][1..] == [];
  }

  // All ways of cutting end alike exactly when the handler does with the payload, as a command, what
  // the frame does: refuse that of a close frame, accept that of a pong frame.
  lemma ControlEndsAlikeIff(s: Bytes, c: Bytes, limit: nat, handler: Handler)
    requires Settled(s, handler) && ControlFrame(c) && Indifferent(s + c, [], handler)
    ensures FrameComplete(c)
    ensures EndAlike(s, c, limit, handler) <==>
            handler(Decode(s, [], handler).log + [Payload(c)], []) == (c[0] == PONG_FRAME)
  {
    hide Decode, TextStream, Serve, Indifferent;
    var log := Decode(s, [], handler).log;
    GluedResult(log, c, handler);
    SeparateReads(s, c, limit, handler);
    OneRead(s, c, limit, handler);
    ReadsAndControl([s, c], s, c, limit, handler);
    ReadsAndControl([s + c], s, c, limit, handler);
    if handler(log + [Payload(c)], []) == (c[0] == PONG_FRAME) {
      forall chunks | Brings(chunks, s, c, limit, handler)
        ensures Serve(FRESH, chunks, limit, handler).Closed? == (c[0] == CLOSE_FRAME)
      {
        ReadsAndControl(chunks, s, c, limit, handler);
      }
    }
  }

  lemma CommandStarts(payload: Bytes)
    requires IsCommand(payload)
    ensures payload != [] && payload[0] >= 0x43
  {
    var i :| 0 <= i < |COMMANDS| && COMMANDS[i] <= payload;
    assert |COMMANDS[i]| > 0 && COMMANDS[i][0] >= 0x43;
  }

  // A close frame has no payload or one that starts with a status code, below 5000 (section 7.4 of
  // RFC 6455).  That is never a command: close frames end alike, however they arrive.
  lemma CloseEndsAlike(s: Bytes, c: Bytes, limit: nat, handler: Handler)
    requires Settled(s, handler) && ControlFrame(c) && c[0] == CLOSE_FRAME && RunsCommandsOnly(handler)
    requires FrameComplete(c) && (Payload(c) == [] || Payload(c)[0] < 0x14) && Indifferent(s + c, [], handler)
    ensures EndAlike(s, c, limit, handler)
  {
    hide Decode, TextStream, Payload, Indifferent;
    if IsCommand(Payload(c)) {
      CommandStarts(Payload(c));
    }
    ControlEndsAlikeIff(s, c, limit, handler);
  }

  // A pong frame without payload does not: glued it closes the connection it should leave open.
  lemma PongEndsUnlike(s: Bytes, c: Bytes, limit: nat, handler: Handler)
    requires Settled(s, handler) && ControlFrame(c) && c[0] == PONG_FRAME && RunsCommandsOnly(handler)
    requires FrameComplete(c) && Payload(c) == [] && Indifferent(s + c, [], handler)
    ensures !EndAlike(s, c, limit, handler)
    ensures Serve(FRESH, [s, c], limit, handler) == Open(Decode(s, [], handler).log, false, [])
    ensures Serve(FRESH, [s + c], limit, handler) == Closed(Decode(s, [], handler).log + [[]])
  {
    hide Decode, TextStream, Payload, Serve, Indifferent;
    var log := Decode(s, [], handler).log;
    ControlEndsAlikeIff(s, c, limit, handler);
    SeparateReads(s, c, limit, handler);
    OneRead(s, c, limit, handler);
    ReadsAndControl([s, c], s, c, limit, handler);
    ReadsAndControl([s + c], s, c, limit, handler);
    GluedResult(log, c, handler);
  }

  const PIPE_LOG: Bytes := [0x70, 0x69, 0x70, 0x65, 0x5f, 0x6c, 0x6f, 0x67]

  predicate AcceptCommands(log: seq<Bytes>, behind: Bytes) {
    log != [] && IsCommand(log[|log| - 1])
  }

  lemma AcceptsCommandsOnly()
    ensures RunsCommandsOnly(AcceptCommands) && AcceptCommands([PIPE_LOG], [])
  {
    hide IsCommand;
    forall log, payload, behind | AcceptCommands(log + [payload], behind)
      ensures IsCommand(payload)
    {
      assert (log + [payload])[|log|] == payload;
    }
    PipeLogIsCommand();
  }

  lemma PipeLogIsCommand()
    ensures IsCommand(PIPE_LOG)
  {
    assert COMMANDS[5] == PIPE_LOG;
  }

  // The command "pipe_log" and a pong frame, with a handler that accepts every command.
  lemma GluedPongFrame(limit: nat)
    ensures var text := [TEXT_FRAME, 0x88, 0, 0, 0, 0] + PIPE_LOG;
            var pong := [PONG_FRAME, 0x80, 0, 0, 0, 0];
            && RunsCommandsOnly(AcceptCommands)
            && Serve(FRESH, [text, pong], limit, AcceptCommands) == Open([PIPE_LOG], false, [])
            && Serve(FRESH, [text + pong], limit, AcceptCommands) == Closed([PIPE_LOG, []])
  {
    assert StopsAtZero(AcceptCommands);
    hide IsCommand, AcceptCommands, Decode, TextStream, Serve, RunsCommandsOnly, StopsAtZero, Indifferent;
    var text: Bytes := [TEXT_FRAME, 0x88, 0, 0, 0, 0] + PIPE_LOG;
    var pong: Bytes := [PONG_FRAME, 0x80, 0, 0, 0, 0];
    AcceptsCommandsOnly();
    PipeLogFrame(text, AcceptCommands);
    assert Payload(pong) == [];
    StopsIndifferent(text + pong, [], AcceptCommands);
    PongEndsUnlike(text, pong, limit, AcceptCommands);
    assert [PIPE_LOG] + [[]] == [PIPE_LOG, []];
  }

  lemma PipeLogFrame(text: Bytes, accept: Handler)
    requires text == [TEXT_FRAME, 0x88, 0, 0, 0, 0] + PIPE_LOG && accept([PIPE_LOG], [])
    ensures Settled(text, accept) && Decode(text, [], accept).log == [PIPE_LOG]
  {
    assert FrameSize(text) == 14;
    assert Payload(text) == PIPE_LOG;
    assert text[14..] == [] && [] + [PIPE_LOG] == [PIPE_LOG];
  }

  // A pong frame that starts a read but does not come whole: its first byte is dropped, and the
  // rest is taken for a frame that is refused, unless its length is that of a known frame type.
  lemma PongCutInTwo(s: Bytes, c: Bytes, limit: nat, handler: Handler)
    requires Settled(s, handler) && ControlFrame(c) && c[0] == PONG_FRAME
    requires c[1] != TEXT_FRAME && c[1] != BINARY_FRAME && c[1] != PONG_FRAME && Indifferent(s, [], handler)
    ensures Serve(FRESH, [s, c[..1], c[1..]], limit, handler) == Closed(Decode(s, [], handler).log)
  {
    hide Decode, TextStream, Indifferent;
    var log := Decode(s, [], handler).log;
    var d := Reading([], false, []);
    assert [] + s + [] == s && [] + s == s;
    assert Decode([], [], handler) == d by { DecodeEmpty([], handler); }
    ReadText(FRESH, d, s, [], limit, handler);
    var conn := OnRead(FRESH, s, limit, handler);
    assert conn == Open(log, false, []);
    assert OnRead(conn, c[..1], limit, handler) == conn;
    assert c[1] != 0;
    assert OnRead(conn, c[1..], limit, handler) == Closed(log);
    ServeThree(FRESH, s, c[..1], c[1..], limit, handler);
  }

  lemma ServeThree(conn: Connection, a: Bytes, b: Bytes, c: Bytes, limit: nat, handler: Handler)
    requires a != [] && b != [] && c != []
    ensures Serve(conn, [a, b, c], limit, handler)
            == OnRead(OnRead(OnRead(conn, a, limit, handler), b, limit, handler), c, limit, handler)
  {
    hide OnRead;
    assert [a, b, c][1..] == [b, c];
    ServeTwo(OnRead(conn, a, limit, handler), b, c, limit, handler);
  }

  // ----- the connection object -----

  // In the buffer `all`, a complete frame with these sizes starts at `start`.
  predicate IsFrameAt(all: Bytes, start: nat, n: nat, deltaLen: nat, msgDataLen: nat) {
    && 0 < n && start + n < |all|
    && FrameComplete(all[start..start + n])
    && HeaderSize(all[start..start + n]) == deltaLen
    && PayloadSize(all[start..start + n]) == msgDataLen
  }

  // `all'` is the buffer `all` after `count` bytes from `data` on were unmasked.
  predicate Unmasked(all: Bytes, all': Bytes, data: nat, count: nat) {
    && 4 <= data && data + count <= |all| == |all'|
    && (forall k :: 0 <= k < count ==> all'[data + k] == all[data + k] ^ all[data - 4 + k % 4])
    && all'[..data] == all[..data]
    && all'[data + count..] == all[data + count..]
  }

  lemma UnmaskedPayload(all: Bytes, all': Bytes, start: nat, n: nat, deltaLen: nat, msgDataLen: nat)
    requires IsFrameAt(all, start, n, deltaLen, msgDataLen)
    requires Unmasked(all, all', start + deltaLen, msgDataLen)
    ensures all'[start + deltaLen..start + deltaLen + msgDataLen] == Payload(all[start..start + n])
    ensures all'[start] == all[start]
  {
    var x := all[start..start + n];
    var data := start + deltaLen;
    forall k | 0 <= k < msgDataLen
      ensures all'[data..data + msgDataLen][k] == Payload(x)[k]
    {
      assert x[deltaLen + k] == all[data + k] && x[deltaLen - 4 + k % 4] == all[data - 4 + k % 4];
    }
    assert all'[start] == all'[..data][start] && all[start] == all[..data][start];
  }

  // The bytes behind the payload are those that were read, the first one zeroed.
  lemma UnmaskedTail(all: Bytes, all': Bytes, start: nat, n: nat, next: nat)
    requires start <= next <= start + n < |all| == |all'|
    requires all'[next..] == all[next..]
    requires forall k :: start + n <= k < |all| ==> all[k] == 0
    ensures all'[next] == At(all[start..start + n], next - start)
    ensures next < start + n ==>
              all'[next := 0][next..start + n] == all[start..start + n][next - start..][0 := 0]
    ensures forall k :: start + n <= k < |all| ==> all'[k] == 0
  {
    forall k | next <= k < |all|
      ensures all'[k] == all[k]
    {
      assert all'[k] == all'[next..][k - next];
    }
  }

  lemma RunCases(x: Bytes, log: seq<Bytes>, handler: Handler, deltaLen: nat, msgDataLen: nat)
    requires FrameComplete(x) && HeaderSize(x) == deltaLen && PayloadSize(x) == msgDataLen
    ensures 0 < deltaLen && deltaLen + msgDataLen <= |x|
    ensures var log' := log + [Payload(x)];
            var glued := x[deltaLen + msgDataLen..];
            Run(x, log, handler)
            == if !handler(log', Behind(glued)) || NextCommandIsEof(x) then Outcome(log', Close)
               else if glued != [] then Receive(glued[0 := 0], log', handler)
               else Outcome(log', Idle)
  {
    hide Receive, Payload, NextCommandIsEof;
  }

  lemma BehindZeroed(glued: Bytes, s: Bytes)
    requires |glued| == |s| && (s != [] ==> glued == s[0 := 0])
    ensures Behind(glued) == Behind(s)
  {
  }

  class ClientConnection {
    var hasFragmentInBuffer: bool
    var fragmentBuf: Bytes
    var log: seq<Bytes>         // the payloads handed to command handlers
    const handler: Handler
    const limit: nat

    ghost function State(): Connection
      reads this
    {
      Open(log, hasFragmentInBuffer, if hasFragmentInBuffer then fragmentBuf else [])
    }

    constructor (limit: nat, handler: Handler)
      ensures State() == FRESH && this.limit == limit && this.handler == handler
    {
      hasFragmentInBuffer, fragmentBuf, log := false, [], [];
      this.limit, this.handler := limit, handler;
    }

    // Puts the frame kept from earlier reads in front of the `len` bytes just read.
    method Assemble(buf: array<bv8>, len: nat) returns (b: array<bv8>)
      requires len < buf.Length
      ensures fresh(b) && b.Length == |fragmentBuf| + len + 100
      ensures b[..|fragmentBuf| + len] == fragmentBuf + buf[..len]
      ensures forall k :: |fragmentBuf| + len <= k < b.Length ==> b[k] == 0
    {
      b := new bv8[|fragmentBuf| + len + 100](_ => 0);
      for i := 0 to |fragmentBuf|
        invariant b[..i] == fragmentBuf[..i]
        invariant forall k :: i <= k < b.Length ==> b[k] == 0
      {
        b[i] := fragmentBuf[i];
      }
      var f := |fragmentBuf|;
      for i := 0 to len
        invariant b[..f] == fragmentBuf
        invariant b[f..f + i] == buf[..i]
        invariant forall k :: f + i <= k < b.Length ==> b[k] == 0
      {
        b[f + i] := buf[i];
      }
    }

    // The header of the frame at `start`, of which `n` bytes have arrived.
    method ReadHeader(b: array<bv8>, n: nat, start: nat) returns (kind: Kind, deltaLen: nat, msgDataLen: nat)
      requires 0 < n && start + n < b.Length && b[start + n] == 0
      ensures kind == Classify(b[start..start + n])
      ensures kind.Complete? ==> deltaLen == HeaderSize(b[start..start + n])
      ensures kind.Complete? ==> msgDataLen == PayloadSize(b[start..start + n])
    {
      ghost var x := b[start..start + n];
      assert b[start] == x[0] && b[start + 1] == At(x, 1);
      deltaLen, msgDataLen := 6, 0;
      if b[start] == CLOSE_FRAME {
        return Refused, deltaLen, msgDataLen;
      }
      if b[start] == PONG_FRAME {
        return Pong, deltaLen, msgDataLen;
      }
      if b[start] != BINARY_FRAME && b[start] != TEXT_FRAME
         && !(b[start] == 0 && b[start + 1] != 0) && !(b[start] == 0 && n == 1) {
        return Refused, deltaLen, msgDataLen;
      }
      if b[start + 1] == 0 {
        return Unfinished, deltaLen, msgDataLen;
      }
      msgDataLen := (b[start + 1] & 127) as nat;
      assert msgDataLen == LengthCode(x);
      if msgDataLen == 126 {
        if n < 4 {
          return Unfinished, deltaLen, msgDataLen;
        }
        deltaLen := 8;
        msgDataLen := b[start + 2] as nat * 256 + b[start + 3] as nat;
        assert msgDataLen == PayloadSize(x);
      } else if msgDataLen == 127 {
        return Refused, deltaLen, msgDataLen;
      }
      kind := if msgDataLen > n - deltaLen then Unfinished else Complete;
    }

    // Unmasks `count` bytes from `data` on with the four bytes before them.
    method XorWithMask(b: array<bv8>, data: nat, count: nat)
      requires 4 <= data && data + count <= b.Length
      modifies b
      ensures Unmasked(old(b[..]), b[..], data, count)
    {
      for i := 0 to count
        invariant forall k :: 0 <= k < i ==> b[data + k] == old(b[data + k]) ^ old(b[data - 4 + k % 4])
        invariant forall k :: 0 <= k < data || data + i <= k < b.Length ==> b[k] == old(b[k])
      {
        b[data + i] := b[data + i] ^ b[data - 4 + i % 4];
      }
    }

    // Unmasks the payload of the frame at `start` and ends it with a 0.
    method UnmaskInPlace(b: array<bv8>, start: nat, n: nat, deltaLen: nat, msgDataLen: nat)
      returns (payload: Bytes, nextCommandIsEof: bool)
      requires 0 < n && start + n < b.Length
      requires forall k :: start + n <= k < b.Length ==> b[k] == 0
      requires IsFrameAt(b[..], start, n, deltaLen, msgDataLen)
      modifies b
      ensures payload == Payload(old(b[start..start + n]))
      ensures nextCommandIsEof == NextCommandIsEof(old(b[start..start + n]))
      ensures n > deltaLen + msgDataLen ==>
                b[start + deltaLen + msgDataLen..start + n]
                == old(b[start..start + n])[deltaLen + msgDataLen..][0 := 0]
      ensures forall k :: start + n <= k < b.Length ==> b[k] == 0
    {
      var data := start + deltaLen;
      var next := data + msgDataLen;
      ghost var all := b[..];
      assert b[start..start + n] == all[start..start + n];
      XorWithMask(b, data, msgDataLen);
      UnmaskedPayload(all, b[..], start, n, deltaLen, msgDataLen);
      UnmaskedTail(all, b[..], start, n, next);
      payload := b[data..next];
      assert payload == b[..][data..next];
      nextCommandIsEof := b[next] != BINARY_FRAME && b[start] != TEXT_FRAME && b[start] != 0;
      ghost var unmasked := b[..];
      b[next] := 0;
      assert b[..] == unmasked[next := 0];
      assert b[next..start + n] == b[..][next..start + n];
    }

    method WebSocketRequestMessage(buf: array<bv8>, len: nat, start: nat) returns (res: int)
      requires 0 < len && start + len < buf.Length
      requires forall k :: start + len <= k < buf.Length ==> buf[k] == 0
      requires hasFragmentInBuffer ==> start == 0
      modifies this, buf
      ensures res == 0 || res == -1
      ensures (if res == 0 then State() else Closed(log))
              == OnRead(old(State()), old(buf[start..start + len]), limit, handler)
    {
      if hasFragmentInBuffer {
        if |fragmentBuf| + len >= limit {
          return -1;
        }
        var b := Assemble(buf, len);
        hasFragmentInBuffer := false;
        assert b[0..|fragmentBuf| + len] == fragmentBuf + buf[start..start + len];
        res := RouteFrames(b, |fragmentBuf| + len, 0);
      } else {
        res := RouteFrames(buf, len, start);
      }
    }

    // The frames in b[start..start + n]; those after the first are handled by a recursive call.
    method RouteFrames(b: array<bv8>, n: nat, start: nat) returns (res: int)
      requires 0 < n && start + n < b.Length && !hasFragmentInBuffer
      requires forall k :: start + n <= k < b.Length ==> b[k] == 0
      modifies this, b
      ensures res == 0 || res == -1
      ensures (if res == 0 then State() else Closed(log))
              == AfterVerdict(Receive(old(b[start..start + n]), old(log), handler))
      decreases n
    {
      var kind, deltaLen, msgDataLen := ReadHeader(b, n, start);
      match kind {
        case Refused =>
          res := -1;
        case Pong =>
          res := 0;
        case Unfinished =>
          hasFragmentInBuffer, fragmentBuf := true, b[start..start + n];
          res := 0;
        case Complete =>
          assert b[start..start + n] == b[..][start..start + n];
          res := Dispatch(b, n, start, deltaLen, msgDataLen);
      }
    }

    method BytesBehind(b: array<bv8>, next: nat, end: nat) returns (behind: Bytes)
      requires next <= end <= b.Length
      ensures behind == Behind(b[next..end])
    {
      behind := if next < end then b[next + 1..end] else [];
      assert next < end ==> b[next..end][1..] == b[next + 1..end];
    }

    // Unmasks a complete frame and runs its command; `open` says whether the connection stays open.
    method RunCommand(b: array<bv8>, n: nat, start: nat, deltaLen: nat, msgDataLen: nat) returns (open: bool)
      requires 0 < n && start + n < b.Length
      requires forall k :: start + n <= k < b.Length ==> b[k] == 0
      requires IsFrameAt(b[..], start, n, deltaLen, msgDataLen) && deltaLen + msgDataLen <= n
      modifies this`log, b
      ensures var x := old(b[start..start + n]);
              var glued := x[deltaLen + msgDataLen..];
              && FrameComplete(x) && log == old(log) + [Payload(x)]
              && open == (handler(log, Behind(glued)) && !NextCommandIsEof(x))
              && (glued != [] ==> b[start + deltaLen + msgDataLen..start + n] == glued[0 := 0])
      ensures forall k :: start + n <= k < b.Length ==> b[k] == 0
    {
      ghost var x := b[start..start + n];
      assert x == b[..][start..start + n] && FrameComplete(x);
      hide Payload, NextCommandIsEof, Behind, IsFrameAt, FrameComplete, HeaderSize, PayloadSize;
      var payload, nextCommandIsEof := UnmaskInPlace(b, start, n, deltaLen, msgDataLen);
      var next := start + deltaLen + msgDataLen;
      ghost var glued := x[deltaLen + msgDataLen..];
      ghost var tail := b[next..start + n];
      assert glued != [] ==> tail == glued[0 := 0];
      var behind := BytesBehind(b, next, start + n);
      BehindZeroed(tail, glued);
      log := log + [payload];
      if !handler(log, behind) {
        return false;
      }
      open := !nextCommandIsEof;
    }

    // A complete frame: unmask it, run its command, then go on with the bytes behind it.
    method Dispatch(b: array<bv8>, n: nat, start: nat, deltaLen: nat, msgDataLen: nat) returns (res: int)
      requires 0 < n && start + n < b.Length && !hasFragmentInBuffer
      requires forall k :: start + n <= k < b.Length ==> b[k] == 0
      requires IsFrameAt(b[..], start, n, deltaLen, msgDataLen)
      modifies this, b
      ensures res == 0 || res == -1
      ensures (if res == 0 then State() else Closed(log))
              == AfterVerdict(Run(old(b[start..start + n]), old(log), handler))
      decreases n, 0
    {
      ghost var x := b[start..start + n];
      assert x == b[..][start..start + n];
      RunCases(x, log, handler, deltaLen, msgDataLen);
      hide Run, Receive, Payload, NextCommandIsEof, Behind, IsFrameAt, FrameComplete, HeaderSize, PayloadSize;
      var open := RunCommand(b, n, start, deltaLen, msgDataLen);
      if !open {
        return -1;
      }
      if n > msgDataLen + deltaLen {
        var rest, next := n - deltaLen - msgDataLen, start + msgDataLen + deltaLen;
        assert b[next..next + rest] == x[deltaLen + msgDataLen..][0 := 0];
        res := RouteFrames(b, rest, next);
        return res;
      }
      return 0;
    }

    // The reads of one connection, each into a cleared buffer of `bufSize` bytes, until one fails.
    method ServeReads(chunks: seq<Bytes>, bufSize: nat) returns (open: bool)
      requires NonEmptyChunks(chunks)
      requires forall i :: 0 <= i < |chunks| ==> |chunks[i]| < bufSize
      modifies this
      ensures (if open then State() else Closed(log)) == Serve(old(State()), chunks, limit, handler)
    {
      open := true;
      var i := 0;
      while i < |chunks| && open
        invariant 0 <= i <= |chunks|
        invariant Serve(if open then State() else Closed(log), chunks[i..], limit, handler)
                  == Serve(old(State()), chunks, limit, handler)
      {
        ghost var c := State();
        assert Serve(c, chunks[i..], limit, handler) == Serve(old(State()), chunks, limit, handler);
        var buf := new bv8[bufSize](_ => 0);
        var r := chunks[i];
        for j := 0 to |r|
          invariant buf[..j] == r[..j]
          invariant forall k :: j <= k < buf.Length ==> buf[k] == 0
          invariant State() == c
        {
          buf[j] := r[j];
        }
        assert buf[0..|r|] == r;
        hide Receive, TextStream, Decode;
        var res := WebSocketRequestMessage(buf, |r|, 0);
        assert chunks[i..][1..] == chunks[i + 1..];
        assert Serve(c, chunks[i..], limit, handler)
               == Serve(OnRead(c, r, limit, handler), chunks[i + 1..], limit, handler);
        assert (if res == 0 then State() else Closed(log)) == OnRead(c, r, limit, handler);
        open := res == 0;
        i := i + 1;
      }
      if !open {
        RejectedStays(Closed(log), chunks[i..], limit, handler);
      }
    }
  }
}
