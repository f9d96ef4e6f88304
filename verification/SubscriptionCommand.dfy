/** The subscription command between the frames and the registry.

    The handler of "subscription" reads its list from the thirteenth byte of the payload on.  For a
    payload that ends with the name of the command this is the byte behind the terminating 0, so
    that the list is whatever stands there in the buffer: the frame glued to the command, from its
    second byte on.  Its length decides whether the connection stays open.
 */
module SubscriptionCommand {
  import opened WebSocketInput
  import WebSocketSender
  import Subscription

  const SUBSCRIPTION: Bytes := COMMANDS[0]

  // The C string that `b` starts with; a 0 follows it.
  function Text(b: Bytes): string {
    if b == [] || b[0] == 0 then [] else [b[0] as int as char] + Text(b[1..])
  }

  // The list that a subscription command gets.
  function EventData(payload: Bytes, behind: Bytes): string {
    if |payload| > |SUBSCRIPTION| then Text(payload[|SUBSCRIPTION| + 1..]) else Text(behind)
  }

  // Whether the list is answered with 0, which depends neither on the slots nor on the old text.
  predicate ListAccepted(event: string, anonymous: bool) {
    var r := Subscription.Subscribe(event, anonymous, seq(Subscription.MAX_PIPES, _ => Subscription.Empty),
                                    seq(Subscription.DATA_LEN, _ => Subscription.NUL));
    r.Done? && r.code == 0
  }

  // The handlers of the server: those of other commands answer by their payloads.
  function Server(others: seq<Bytes> -> bool, anonymous: bool): Handler {
    (log: seq<Bytes>, behind: Bytes) =>
      if log != [] && SUBSCRIPTION <= log[|log| - 1]
      then ListAccepted(EventData(log[|log| - 1], behind), anonymous)
      else others(log)
  }

  // ----- the length of what stands behind -----

  lemma {:induction false} TextPrefix(b: Bytes, k: nat)
    requires k <= |b|
    ensures |Text(b[..k])| <= |Text(b)| <= |b|
  {
    if b != [] && b[0] != 0 {
      if k > 0 {
        assert b[..k][1..] == b[1..][..k - 1];
        TextPrefix(b[1..], k - 1);
      } else {
        TextPrefix(b[1..], 0);
      }
    }
  }

  lemma {:induction false} TextWhole(b: Bytes)
    requires forall i | 0 <= i < |b| :: b[i] != 0
    ensures |Text(b)| == |b|
  {
    if b != [] {
      TextWhole(b[1..]);
    }
  }

  lemma MaskedIsNoLetter(b: bv8)
    requires b & 128 == 128
    ensures b != 0 && !Subscription.AZ09(b as int as char)
  {
  }

  // A list whose first character is no letter is accepted unless it is too long.
  lemma NoLetterFirst(event: string, anonymous: bool)
    requires event == [] || !Subscription.AZ09(event[0])
    ensures ListAccepted(event, anonymous) <==> |event| <= Subscription.DATA_LEN
  {
  }

  // The bare command is accepted unless more than 2176 bytes up to the next 0 stand behind it.
  lemma BareCommand(behind: Bytes, anonymous: bool)
    requires behind != [] ==> behind[0] & 128 == 128
    ensures ListAccepted(EventData(SUBSCRIPTION, behind), anonymous) <==> |Text(behind)| <= Subscription.DATA_LEN
  {
    hide ListAccepted;
    if behind != [] {
      MaskedIsNoLetter(behind[0]);
    }
    NoLetterFirst(Text(behind), anonymous);
  }

  // The answer is that of the command on any connection, whatever its slots and its text hold.
  lemma {:induction false} ScanAnswer(data: Subscription.Text, len: nat, anonymous: bool, q: nat, start: nat,
                                      one: Subscription.Slots, other: Subscription.Slots, names: seq<string>)
    ensures var a := Subscription.Scan(data, len, anonymous, q, start, one, names);
            var b := Subscription.Scan(data, len, anonymous, q, start, other, names);
            a.Done? == b.Done? && (a.Done? ==> a.code == b.code)
    decreases if q < Subscription.DATA_LEN then Subscription.DATA_LEN - q else 0
  {
    hide Subscription.CStr, Subscription.IsPrivate, Subscription.AZ09;
    if q <= start + len && q < Subscription.DATA_LEN {
      if Subscription.AZ09(data[q]) {
        if q - start < Subscription.NAME_LEN {
          ScanAnswer(data, len, anonymous, q + 1, start, one, other, names);
        }
      } else if q - start >= 2 && |names| < Subscription.MAX_PIPES {
        var data' := data[q := Subscription.NUL];
        var one', other' := one[|names| := Subscription.Name(start)], other[|names| := Subscription.Name(start)];
        var name := Subscription.CStr(data', start);
        if Subscription.IsPrivate(name) && anonymous {
          ScanAnswer(data', len, anonymous, q + 1, start, one', other', names);
        } else {
          ScanAnswer(data', len, anonymous, q + 2, q + 1, one', other', names + [name]);
        }
      }
    }
  }

  lemma ListAcceptedIff(event: string, anonymous: bool, slots: Subscription.Slots, data: Subscription.Text)
    ensures var r := Subscription.Subscribe(event, anonymous, slots, data);
            ListAccepted(event, anonymous) <==> r.Done? && r.code == 0
  {
    hide Subscription.Scan;
    if |event| <= Subscription.DATA_LEN {
      ScanAnswer(Subscription.Padded(event), |event|, anonymous, 0, 0, slots,
                 seq(Subscription.MAX_PIPES, _ => Subscription.Empty), []);
    }
  }

  // ----- the list of a client -----

  predicate Ascii(text: string) {
    forall i :: 0 <= i < |text| ==> 0 < text[i] as int < 128
  }

  function AsciiBytes(text: string): (b: Bytes)
    requires Ascii(text)
    ensures |b| == |text|
  {
    if text == [] then [] else [WebSocketSender.Octet(text[0] as int)] + AsciiBytes(text[1..])
  }

  lemma {:induction false} TextOfBytes(text: string)
    requires Ascii(text)
    ensures Text(AsciiBytes(text)) == text
  {
    if text != [] {
      TextOfBytes(text[1..]);
      assert [text[0]] + text[1..] == text;
    }
  }

  lemma {:induction false} JoinedIsAscii(names: seq<string>, anonymous: bool)
    requires Subscription.ValidNames(names, anonymous)
    ensures Ascii(Subscription.Join(names))
  {
    if names != [] {
      var name := names[0];
      assert Subscription.ValidName(name, anonymous);
      assert Ascii(name) by {
        forall i | 0 <= i < |name|
          ensures 0 < name[i] as int < 128
        {
          assert name[i] in name;
        }
      }
      if |names| > 1 {
        JoinedIsAscii(names[1..], anonymous);
      }
    }
  }

  lemma OwnList(name: Bytes, list: Bytes)
    ensures (name + [0x0a] + list)[|name| + 1..] == list
  {
  }

  // What the client sends for a list of names, the name of the command, a newline and the list,
  // gives the handler that list, whatever stands behind it ...
  lemma ListArrives(names: seq<string>, behind: Bytes, anonymous: bool)
    requires Subscription.ValidNames(names, anonymous)
    ensures var list := Subscription.Join(names);
            Ascii(list) && EventData(SUBSCRIPTION + [0x0a] + AsciiBytes(list), behind) == list
  {
    hide Subscription.Join, Subscription.ValidNames, Ascii, Text, SUBSCRIPTION;
    var list := Subscription.Join(names);
    JoinedIsAscii(names, anonymous);
    TextOfBytes(list);
    OwnList(SUBSCRIPTION, AsciiBytes(list));
  }

  // ... which is accepted.
  lemma ValidListAccepted(names: seq<string>, anonymous: bool)
    requires names != [] && |names| <= Subscription.MAX_PIPES && Subscription.ValidNames(names, anonymous)
    ensures ListAccepted(Subscription.Join(names), anonymous)
  {
    hide Subscription.Join, Subscription.Subscribe, Subscription.ValidNames, Subscription.Visited, ListAccepted;
    var slots := seq(Subscription.MAX_PIPES, _ => Subscription.Empty);
    var data := seq(Subscription.DATA_LEN, _ => Subscription.NUL);
    Subscription.SubscribeRoundTrip(names, anonymous, slots, data);
    ListAcceptedIff(Subscription.Join(names), anonymous, slots, data);
  }

  // ----- when every cutting dispatches the same -----

  // Behind every bare command that is reached stand at most 2176 bytes up to the next 0.
  ghost predicate ShortBehind(s: Bytes, log: seq<Bytes>, handler: Handler)
    decreases |s|
  {
    FrameComplete(s) ==>
      var log' := log + [Payload(s)];
      var rest := s[FrameSize(s)..];
      && (Payload(s) == SUBSCRIPTION ==> |Text(Behind(rest))| <= Subscription.DATA_LEN)
      && (handler(log', []) ==> ShortBehind(rest, log', handler))
  }

  lemma BareUnmoved(log: seq<Bytes>, rest: Bytes, others: seq<Bytes> -> bool, anonymous: bool)
    requires TextStream(rest) && log != [] && log[|log| - 1] == SUBSCRIPTION
    ensures Unmoved(log, rest, Server(others, anonymous)) <==> |Text(Behind(rest))| <= Subscription.DATA_LEN
  {
    hide ListAccepted, TextStream, EventData;
    var handler := Server(others, anonymous);
    forall k | 0 <= k <= |rest|
      ensures handler(log, Behind(rest[..k])) <==> |Text(Behind(rest[..k]))| <= Subscription.DATA_LEN
      ensures |Text(Behind(rest[..k]))| <= |Text(Behind(rest))|
    {
      BehindPrefix(rest, k);
      BareCommand(Behind(rest[..k]), anonymous);
    }
    assert rest[..|rest|] == rest;
    BareCommand([], anonymous);
    if Unmoved(log, rest, handler) {
      UnmovedWhole(log, rest, handler);
    }
  }

  lemma BehindPrefix(rest: Bytes, k: nat)
    requires TextStream(rest) && k <= |rest|
    ensures |Text(Behind(rest[..k]))| <= |Text(Behind(rest))|
    ensures Behind(rest[..k]) != [] ==> Behind(rest[..k])[0] & 128 == 128
  {
    hide Text;
    if k > 0 {
      assert rest[..k][1..] == rest[1..][..k - 1];
      TextPrefix(rest[1..], k - 1);
    } else {
      TextPrefix(Behind(rest), 0);
      assert Behind(rest)[..0] == [];
    }
  }

  lemma OtherUnmoved(log: seq<Bytes>, rest: Bytes, others: seq<Bytes> -> bool, anonymous: bool)
    requires log != [] && log[|log| - 1] != SUBSCRIPTION
    ensures Unmoved(log, rest, Server(others, anonymous))
  {
    hide ListAccepted;
    var payload := log[|log| - 1];
    assert SUBSCRIPTION <= payload ==> |payload| > |SUBSCRIPTION|;
    forall k | 0 <= k <= |rest|
      ensures Server(others, anonymous)(log, Behind(rest[..k])) == Server(others, anonymous)(log, [])
    {
      assert SUBSCRIPTION <= payload ==> EventData(payload, Behind(rest[..k])) == EventData(payload, []);
    }
  }

  // The exact proviso under which the answers of the server do not depend on what is behind a
  // payload: that of a subscription is longer than the name of the command, or at most 2176 bytes
  // without a 0 stand from the second byte of the next frame on.
  lemma {:induction false} ServerIndifferentIff(s: Bytes, log: seq<Bytes>, others: seq<Bytes> -> bool, anonymous: bool)
    requires TextStream(s)
    ensures Indifferent(s, log, Server(others, anonymous)) <==> ShortBehind(s, log, Server(others, anonymous))
    decreases |s|
  {
    hide Unmoved, Text, Payload, Behind, Server;
    if FrameComplete(s) {
      var log' := log + [Payload(s)];
      var rest := s[FrameSize(s)..];
      if Payload(s) == SUBSCRIPTION {
        BareUnmoved(log', rest, others, anonymous);
      } else {
        OtherUnmoved(log', rest, others, anonymous);
      }
      ServerIndifferentIff(rest, log', others, anonymous);
    }
  }

  // Hence all ways of cutting a stream leave the same exactly under that proviso.
  lemma ServerCuttingIff(s: Bytes, limit: nat, others: seq<Bytes> -> bool, anonymous: bool)
    requires TextStream(s) && |s| < limit
    ensures (forall chunks | Cuts(chunks, s) :: AsDecoded(chunks, s, limit, Server(others, anonymous))) <==>
            ShortBehind(s, [], Server(others, anonymous))
  {
    hide Indifferent, ShortBehind, TextStream, Cuts, AsDecoded, Server;
    EveryCuttingIff(s, limit, Server(others, anonymous));
    ServerIndifferentIff(s, [], others, anonymous);
  }

  // ----- a bare command and a long frame -----

  // "statistics" in 3000 bytes, under a mask that leaves no byte 0.
  const STATISTICS: Bytes := COMMANDS[3] + [0x0a] + seq(2989, _ => 0x61)
  const COMMAND_FRAME: Bytes := [TEXT_FRAME, 0x8c, 0, 0, 0, 0] + SUBSCRIPTION
  const LONG_FRAME: Bytes :=
    [TEXT_FRAME, 0xfe, 0x0b, 0xb8, 0x80, 0x80, 0x80, 0x80]
    + seq(3000, i requires 0 <= i < 3000 => STATISTICS[i] ^ 0x80)

  predicate AcceptOthers(log: seq<Bytes>) {
    AcceptCommands(log, [])
  }

  lemma CommandFrameIs()
    ensures FrameComplete(COMMAND_FRAME) && FrameSize(COMMAND_FRAME) == |COMMAND_FRAME|
    ensures Payload(COMMAND_FRAME) == SUBSCRIPTION && TextStream(COMMAND_FRAME)
  {
    assert |SUBSCRIPTION| == 12;
    assert Payload(COMMAND_FRAME) == SUBSCRIPTION;
    assert COMMAND_FRAME[18..] == [];
  }

  lemma LongFrameIs()
    ensures FrameComplete(LONG_FRAME) && FrameSize(LONG_FRAME) == |LONG_FRAME| == 3008
    ensures Payload(LONG_FRAME) == STATISTICS && TextStream(LONG_FRAME)
    ensures forall i | 0 <= i < |LONG_FRAME| :: LONG_FRAME[i] != 0
  {
  }

  lemma StatisticsIsCommand()
    ensures IsCommand(STATISTICS) && !(SUBSCRIPTION <= STATISTICS)
  {
    assert COMMANDS[3] <= STATISTICS;
    assert STATISTICS[1] == 0x74 && SUBSCRIPTION[1] == 0x75;
  }

  // A read that brings a frame that is refused with what is glued to it.
  lemma ReadGlued(f: Bytes, g: Bytes, log: seq<Bytes>, limit: nat, handler: Handler)
    requires TextStream(f) && FrameComplete(f) && FrameSize(f) == |f| && TextStream(g)
    requires !handler(log + [Payload(f)], Behind(g))
    ensures OnRead(Open(log, false, []), f + g, limit, handler) == Closed(log + [Payload(f)])
  {
    var s := f + g;
    SamePrefix(f, g);
    assert f[|f|..] + g == g;
    assert s[..|s|] == s && g[..|g|] == g;
    assert TextStream(s) by {
      assert |f| >= 2 && s[0] == f[0] && s[1] == f[1];
    }
    hide Receive, Payload, FrameComplete, TextStream, Behind;
    FirstFrame(s, s, |g|, log, handler);
  }

  // What one and two reads of the two frames come to, with handlers that accept every other command:
  // glued, the long frame is the list of the bare command, which is too long.
  lemma BareCommandAndLongFrame(limit: nat, anonymous: bool)
    ensures var handler := Server(AcceptOthers, anonymous);
            && Serve(FRESH, [COMMAND_FRAME + LONG_FRAME], limit, handler) == Closed([SUBSCRIPTION])
            && Serve(FRESH, [COMMAND_FRAME, LONG_FRAME], limit, handler)
               == Open([SUBSCRIPTION, STATISTICS], false, [])
  {
    var handler := Server(AcceptOthers, anonymous);
    CommandFrameIs();
    LongFrameIs();
    InstanceAnswers(anonymous);
    hide COMMAND_FRAME, LONG_FRAME, SUBSCRIPTION, STATISTICS, Server, OnRead, Receive, TextStream, Payload;
    hide FrameComplete, Serve;
    assert [] + [SUBSCRIPTION] == [SUBSCRIPTION] && [SUBSCRIPTION] + [STATISTICS] == [SUBSCRIPTION, STATISTICS];
    ReadGlued(COMMAND_FRAME, LONG_FRAME, [], limit, handler);
    ServeOne(FRESH, COMMAND_FRAME + LONG_FRAME, limit, handler);
    WebSocketSender.ReadAlone(COMMAND_FRAME, [], limit, handler);
    WebSocketSender.ReadAlone(LONG_FRAME, [SUBSCRIPTION], limit, handler);
    ServeTwo(FRESH, COMMAND_FRAME, LONG_FRAME, limit, handler);
  }

  lemma InstanceAnswers(anonymous: bool)
    ensures var handler := Server(AcceptOthers, anonymous);
            && handler([SUBSCRIPTION], []) && !handler([SUBSCRIPTION], Behind(LONG_FRAME))
            && handler([SUBSCRIPTION, STATISTICS], [])
  {
    LongFrameIs();
    StatisticsIsCommand();
    TextWhole(LONG_FRAME[1..]);
    assert LONG_FRAME[1] & 128 == 128;
    hide LONG_FRAME, SUBSCRIPTION, STATISTICS, ListAccepted, EventData, Payload, TextStream, FrameComplete, IsCommand;
    BareCommand([], anonymous);
    BareCommand(LONG_FRAME[1..], anonymous);
    assert [SUBSCRIPTION, STATISTICS][1] == STATISTICS;
    assert AcceptOthers([SUBSCRIPTION, STATISTICS]);
  }
}
