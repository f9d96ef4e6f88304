/** Putting MySQL packets together from reads: `MySql_connection::request`.

    An unfinished packet waits in `fragment_buf`; each complete one is handed to `one_query`.  The
    code hands over the start of the buffer, so it is made for clients with one packet in flight,
    as in the command phase of the protocol ("MySQL Packets").
 */
module MySqlRequest {
  import opened Bytes
  import opened Sequences
  import opened MySqlProtocol
  import MySqlClient

  // Whether the query handler goes on after the queries so far, the last one included.
  type Handler = seq<seq<Byte>> -> bool

  // `log` holds what `one_query` was called with; `fragment` is the content of a locked `fragment_buf`.
  datatype Connection = Open(log: seq<seq<Byte>>, locked: bool, fragment: seq<Byte>) | Closed(log: seq<seq<Byte>>)

  // Behind the bytes of a read the buffer is zero.
  function At(data: seq<Byte>, i: nat): Byte {
    if i < |data| then data[i] else 0
  }

  // The length in the packet header at `p`.
  function PacketLen(data: seq<Byte>, p: nat): nat {
    At(data, p) as int + 256 * At(data, p + 1) as int + 65536 * At(data, p + 2) as int
  }

  // The do-while loop over the packets in `data`, at `delta`.
  function Queries(data: seq<Byte>, delta: nat, log: seq<seq<Byte>>, handler: Handler): Connection
    requires delta < |data|
    decreases |data| - delta
  {
    var n := PacketLen(data, delta) + 4;
    if n > |data| then Open(log, true, data)
    else if !handler(log + [data]) then Closed(log + [data])
    else if |data| > delta + n then Queries(data, delta + n, log + [data], handler)
    else Open(log + [data], false, [])
  }

  function OnRead(c: Connection, chunk: seq<Byte>, handler: Handler): Connection
    requires chunk != []
  {
    match c
    case Closed(_) => c
    case Open(log, locked, fragment) => Queries(if locked then fragment + chunk else chunk, 0, log, handler)
  }

  predicate NonEmpty(chunks: seq<seq<Byte>>) {
    forall i :: 0 <= i < |chunks| ==> chunks[i] != []
  }

  function Serve(c: Connection, chunks: seq<seq<Byte>>, handler: Handler): Connection
    requires NonEmpty(chunks)
    decreases |chunks|
  {
    if chunks == [] then c else Serve(OnRead(c, chunks[0], handler), chunks[1..], handler)
  }

  predicate IsPacket(packet: seq<Byte>) {
    |packet| >= 4 && |packet| == PacketLen(packet, 0) + 4
  }

  // ----- one packet in flight -----

  // What has arrived of a packet is recognised as unfinished, even inside its length.
  lemma PrefixIsUnfinished(packet: seq<Byte>, k: nat)
    requires IsPacket(packet) && k < |packet|
    ensures PacketLen(packet[..k], 0) + 4 > k
  {
    if k >= 4 {
      assert PacketLen(packet[..k], 0) == PacketLen(packet, 0);
    }
  }

  // A connection that waits for the rest of a packet of which `got` has arrived.
  function Waiting(log: seq<seq<Byte>>, got: seq<Byte>): Connection {
    if got == [] then Open(log, false, []) else Open(log, true, got)
  }

  function Answered(log: seq<seq<Byte>>, packet: seq<Byte>, handler: Handler): Connection {
    if handler(log + [packet]) then Open(log + [packet], false, []) else Closed(log + [packet])
  }

  lemma ChunkArrives(packet: seq<Byte>, got: nat, chunk: seq<Byte>, rest: seq<Byte>)
    requires got + |chunk| + |rest| <= |packet| && chunk + rest == packet[got..got + |chunk + rest|]
    ensures packet[..got] + chunk == packet[..got + |chunk|]
    ensures rest == packet[got + |chunk|..got + |chunk| + |rest|]
  {
    assert chunk == (chunk + rest)[..|chunk|] && rest == (chunk + rest)[|chunk|..];
  }

  lemma ReadsPacket(packet: seq<Byte>, now: nat, log: seq<seq<Byte>>, handler: Handler)
    requires IsPacket(packet) && 0 < now <= |packet|
    ensures Queries(packet[..now], 0, log, handler)
            == if now < |packet| then Open(log, true, packet[..now]) else Answered(log, packet, handler)
  {
    if now < |packet| {
      PrefixIsUnfinished(packet, now);
    } else {
      assert packet[..now] == packet;
    }
  }

  // Reads that end inside the packet call nothing; the read with its last byte calls `one_query`
  // once, with exactly the bytes of the packet.
  lemma {:induction false} PacketReassembled(packet: seq<Byte>, got: nat, chunks: seq<seq<Byte>>, log: seq<seq<Byte>>,
                                             handler: Handler)
    requires IsPacket(packet) && NonEmpty(chunks) && got < |packet|
    requires got + |Concat(chunks)| <= |packet| && Concat(chunks) == packet[got..got + |Concat(chunks)|]
    ensures var all := got + |Concat(chunks)|;
            Serve(Waiting(log, packet[..got]), chunks, handler)
            == if all < |packet| then Waiting(log, packet[..all]) else Answered(log, packet, handler)
    decreases |chunks|
  {
    if chunks != [] {
      var chunk, rest := chunks[0], Concat(chunks[1..]);
      var now := got + |chunk|;
      ChunkArrives(packet, got, chunk, rest);
      ReadsPacket(packet, now, log, handler);
      hide IsPacket, Queries, Answered;
      assert OnRead(Waiting(log, packet[..got]), chunk, handler) == Queries(packet[..now], 0, log, handler);
      if now < |packet| {
        PacketReassembled(packet, now, chunks[1..], log, handler);
      } else {
        NothingLeft(chunks[1..]);
      }
    }
  }

  lemma NothingLeft(chunks: seq<seq<Byte>>)
    requires NonEmpty(chunks)
    ensures Concat(chunks) == [] ==> chunks == []
  {
  }

  // The reads of each packet, cut in any way.
  predicate CutInto(packets: seq<seq<Byte>>, cuts: seq<seq<seq<Byte>>>) {
    && |packets| == |cuts|
    && forall i :: 0 <= i < |packets| ==> IsPacket(packets[i]) && NonEmpty(cuts[i]) && Concat(cuts[i]) == packets[i]
  }

  function Converse(c: Connection, cuts: seq<seq<seq<Byte>>>, handler: Handler): Connection
    requires forall i :: 0 <= i < |cuts| ==> NonEmpty(cuts[i])
    decreases |cuts|
  {
    if cuts == [] then c else Converse(Serve(c, cuts[0], handler), cuts[1..], handler)
  }

  // The queries of a conversation, up to the first one after which the handler gives up.
  function Asked(log: seq<seq<Byte>>, packets: seq<seq<Byte>>, handler: Handler): Connection
    decreases |packets|
  {
    if packets == [] then Open(log, false, [])
    else if !handler(log + [packets[0]]) then Closed(log + [packets[0]])
    else Asked(log + [packets[0]], packets[1..], handler)
  }

  lemma {:induction false} ClosedStays(log: seq<seq<Byte>>, chunks: seq<seq<Byte>>, handler: Handler)
    requires NonEmpty(chunks)
    ensures Serve(Closed(log), chunks, handler) == Closed(log)
    decreases |chunks|
  {
    if chunks != [] {
      ClosedStays(log, chunks[1..], handler);
    }
  }

  lemma {:induction false} ClosedForGood(log: seq<seq<Byte>>, cuts: seq<seq<seq<Byte>>>, handler: Handler)
    requires forall i :: 0 <= i < |cuts| ==> NonEmpty(cuts[i])
    ensures Converse(Closed(log), cuts, handler) == Closed(log)
    decreases |cuts|
  {
    if cuts != [] {
      ClosedStays(log, cuts[0], handler);
      ClosedForGood(log, cuts[1..], handler);
    }
  }

  // A client that sends its next packet only after the last one has been read is served packet by
  // packet, however the packets are cut into reads.
  lemma {:induction false} EveryPacketOnce(packets: seq<seq<Byte>>, cuts: seq<seq<seq<Byte>>>, log: seq<seq<Byte>>,
                                           handler: Handler)
    requires CutInto(packets, cuts)
    ensures Converse(Open(log, false, []), cuts, handler) == Asked(log, packets, handler)
    decreases |packets|
  {
    if packets != [] {
      var packet := packets[0];
      assert packet[0..|packet|] == packet && packet[..0] == [];
      PacketReassembled(packet, 0, cuts[0], log, handler);
      if handler(log + [packet]) {
        EveryPacketOnce(packets[1..], cuts[1..], log + [packet], handler);
      } else {
        ClosedForGood(log + [packet], cuts[1..], handler);
      }
    }
  }

  // ----- packets as the protocol has them -----

  // A packet that is written with its length in three bytes and a number is a packet here, and what
  // a reader of the protocol takes off is what is put together.
  lemma WrittenIsPacket(payload: seq<Byte>, number: nat, rest: seq<Byte>)
    requires |payload| < 0x100_0000
    ensures IsPacket(PacketBytes(payload, number))
    ensures var packet := PacketBytes(payload, number);
            MySqlClient.ReadPacket(packet + rest) == MySqlClient.Packet(payload, number % 256, rest)
  {
    assert |PacketBytes(payload, number)| == |payload| + 4;
    MySqlClient.ThreeBytes(|payload|);
    MySqlClient.ReadPacketBytes(payload, number, rest);
  }

  // The length that is looked at is the one that a reader of the protocol takes off.
  lemma PacketLenIsRead(data: seq<Byte>)
    requires |data| >= 4
    ensures MySqlClient.ReadPacket(data).Packet? <==> PacketLen(data, 0) + 4 <= |data|
    ensures PacketLen(data, 0) + 4 <= |data| ==>
              MySqlClient.ReadPacket(data).payload == data[4..PacketLen(data, 0) + 4]
              && MySqlClient.ReadPacket(data).rest == data[PacketLen(data, 0) + 4..]
  {
  }

  function Written(payloads: seq<seq<Byte>>, numbers: seq<nat>): (packets: seq<seq<Byte>>)
    requires |numbers| == |payloads|
    ensures |packets| == |payloads|
  {
    seq(|payloads|, i requires 0 <= i < |payloads| => PacketBytes(payloads[i], numbers[i]))
  }

  // The handler goes on after each of the first `n` packets.
  ghost predicate GoesOn(log: seq<seq<Byte>>, packets: seq<seq<Byte>>, n: nat, handler: Handler)
    requires n <= |packets|
  {
    forall k | 0 < k <= n :: handler(log + packets[..k])
  }

  // What was asked is `packets`, or those up to the first after which the handler gives up.
  ghost predicate Asks(end: Connection, log: seq<seq<Byte>>, packets: seq<seq<Byte>>, handler: Handler) {
    match end
    case Open(all, locked, fragment) =>
      !locked && fragment == [] && all == log + packets && GoesOn(log, packets, |packets|, handler)
    case Closed(all) =>
      exists n :: 0 < n <= |packets| && all == log + packets[..n] && !handler(all)
                  && GoesOn(log, packets, n - 1, handler)
  }

  lemma {:induction false} AskedIs(log: seq<seq<Byte>>, packets: seq<seq<Byte>>, i: nat, handler: Handler)
    requires i <= |packets| && GoesOn(log, packets, i, handler)
    ensures Asks(Asked(log + packets[..i], packets[i..], handler), log, packets, handler)
    decreases |packets| - i
  {
    if i == |packets| {
      assert packets[..i] == packets;
    } else {
      assert log + packets[..i] + [packets[i]] == log + packets[..i + 1];
      assert packets[i..][1..] == packets[i + 1..];
      if handler(log + packets[..i + 1]) {
        forall k | 0 < k <= i + 1
          ensures handler(log + packets[..k])
        {
        }
        AskedIs(log, packets, i + 1, handler);
      } else {
        var all := log + packets[..i + 1];
        assert 0 < i + 1 <= |packets| && all == log + packets[..i + 1];
      }
    }
  }

  // A client that writes packets and waits for each answer: however each packet is cut into reads,
  // `one_query` is called with exactly the packets it wrote, in order, from which a reader of the
  // protocol gets the payloads (`WrittenIsPacket`).
  lemma WrittenPacketsOnce(payloads: seq<seq<Byte>>, numbers: seq<nat>, cuts: seq<seq<seq<Byte>>>,
                           log: seq<seq<Byte>>, handler: Handler)
    requires |numbers| == |payloads| == |cuts| && (forall i :: 0 <= i < |payloads| ==> |payloads[i]| < 0x100_0000)
    requires forall i :: 0 <= i < |cuts| ==> NonEmpty(cuts[i]) && Concat(cuts[i]) == Written(payloads, numbers)[i]
    ensures Asks(Converse(Open(log, false, []), cuts, handler), log, Written(payloads, numbers), handler)
  {
    hide Asks, GoesOn, PacketBytes;
    var packets := Written(payloads, numbers);
    forall i | 0 <= i < |packets|
      ensures IsPacket(packets[i])
    {
      WrittenIsPacket(payloads[i], numbers[i], []);
    }
    EveryPacketOnce(packets, cuts, log, handler);
    assert log + packets[..0] == log && packets[0..] == packets;
    NothingAsked(log, packets, handler);
    AskedIs(log, packets, 0, handler);
  }

  lemma NothingAsked(log: seq<seq<Byte>>, packets: seq<seq<Byte>>, handler: Handler)
    ensures GoesOn(log, packets, 0, handler)
  {
  }

  // ----- several packets in one read -----

  // What a read should come to: every packet in it handed over by itself.
  function Intended(data: seq<Byte>, log: seq<seq<Byte>>, handler: Handler): Connection
    requires data != []
    decreases |data|
  {
    var n := PacketLen(data, 0) + 4;
    if n > |data| then Open(log, true, data)
    else if !handler(log + [data[..n]]) then Closed(log + [data[..n]])
    else if |data| > n then Intended(data[n..], log + [data[..n]], handler)
    else Open(log + [data[..n]], false, [])
  }

  lemma {:induction false} LogGrows(data: seq<Byte>, delta: nat, log: seq<seq<Byte>>, handler: Handler)
    requires delta < |data|
    ensures log <= Queries(data, delta, log, handler).log
    decreases |data| - delta
  {
    var n := PacketLen(data, delta) + 4;
    if n <= |data| && handler(log + [data]) && |data| > delta + n {
      LogGrows(data, delta + n, log + [data], handler);
    }
  }

  lemma {:induction false} IntendedLogGrows(data: seq<Byte>, log: seq<seq<Byte>>, handler: Handler)
    requires data != []
    ensures log <= Intended(data, log, handler).log
    decreases |data|
  {
    var n := PacketLen(data, 0) + 4;
    if n <= |data| && handler(log + [data[..n]]) && |data| > n {
      IntendedLogGrows(data[n..], log + [data[..n]], handler);
    }
  }

  // The code meets the intention exactly when nothing follows the first packet.
  lemma MeetsIntentionIff(data: seq<Byte>, log: seq<seq<Byte>>, handler: Handler)
    requires data != []
    ensures Queries(data, 0, log, handler) == Intended(data, log, handler) <==> |data| <= PacketLen(data, 0) + 4
  {
    var n := PacketLen(data, 0) + 4;
    if |data| == n {
      assert data[..n] == data;
    } else if |data| > n {
      var ours, theirs := Queries(data, 0, log, handler).log, Intended(data, log, handler).log;
      if handler(log + [data]) {
        LogGrows(data, n, log + [data], handler);
      }
      if handler(log + [data[..n]]) {
        IntendedLogGrows(data[n..], log + [data[..n]], handler);
      }
      assert ours[|log|] == data && theirs[|log|] == data[..n];
    }
  }

  // ----- the connection object -----

  class MySqlConnection {
    var locked: bool
    var fragmentBuf: seq<Byte>
    var log: seq<seq<Byte>>
    const handler: Handler

    ghost function State(): Connection
      reads this
    {
      Open(log, locked, if locked then fragmentBuf else [])
    }

    constructor (handler: Handler)
      ensures State() == Open([], false, []) && this.handler == handler
    {
      locked, fragmentBuf, log := false, [], [];
      this.handler := handler;
    }

    // The fragment and the `len` bytes just read, in a cleared buffer.
    method Assemble(buf: array<Byte>, len: nat) returns (b: array<Byte>)
      requires len <= buf.Length
      ensures fresh(b) && b.Length == |fragmentBuf| + len + 100
      ensures b[..|fragmentBuf| + len] == fragmentBuf + buf[..len]
      ensures forall k :: |fragmentBuf| + len <= k < b.Length ==> b[k] == 0
    {
      var f := |fragmentBuf|;
      b := new Byte[f + len + 100](_ => 0);
      for i := 0 to f
        invariant b[..i] == fragmentBuf[..i]
        invariant forall k :: i <= k < b.Length ==> b[k] == 0
      {
        b[i] := fragmentBuf[i];
      }
      for i := 0 to len
        invariant b[..f] == fragmentBuf && b[f..f + i] == buf[..i]
        invariant forall k :: f + i <= k < b.Length ==> b[k] == 0
      {
        b[f + i] := buf[i];
      }
    }

    method OneQuery(data: array<Byte>, len: nat) returns (res: int)
      requires len <= data.Length
      modifies this`log
      ensures log == old(log) + [data[..len]]
      ensures res == if handler(log) then 0 else -1
    {
      log := log + [data[..len]];
      res := if handler(log) then 0 else -1;
    }

    method Request(buf: array<Byte>, len: nat) returns (res: int)
      requires 0 < len && len + 3 <= buf.Length
      requires forall k :: len <= k < buf.Length ==> buf[k] == 0
      modifies this
      ensures res == 0 || res == -1
      ensures (if res == 0 then State() else Closed(log)) == OnRead(old(State()), buf[..len], handler)
    {
      if locked {
        var b := Assemble(buf, len);
        locked := false;
        res := RunQueries(b, |fragmentBuf| + len);
      } else {
        res := RunQueries(buf, len);
      }
    }

    method RunQueries(buf: array<Byte>, len: nat) returns (res: int)
      requires 0 < len && len + 3 <= buf.Length && !locked
      requires forall k :: len <= k < buf.Length ==> buf[k] == 0
      modifies this
      ensures res == 0 || res == -1
      ensures (if res == 0 then State() else Closed(log)) == Queries(buf[..len], 0, old(log), handler)
    {
      ghost var data := buf[..len];
      var delta := 0;
      while true
        invariant delta < len && !locked && buf[..len] == data
        invariant Queries(data, delta, log, handler) == Queries(data, 0, old(log), handler)
        decreases len - delta
      {
        var n := buf[delta] as int + 256 * buf[delta + 1] as int + 65536 * buf[delta + 2] as int;
        assert n == PacketLen(data, delta);
        if n + 4 > len {
          locked, fragmentBuf := true, buf[..len];
          return 0;
        }
        res := OneQuery(buf, len);
        if res < 0 {
          return;
        }
        delta := delta + n + 4;
        if len <= delta {
          return 0;
        }
      }
    }
  }
}
