/** The frames `Client_connection` sends to a browser: `message` and `short_ws_message`.

    Messages of 126 to 65535 bytes get a 16-bit length; shorter ones are printed into a local
    array of 125 bytes by `snprintf`, which stops at a NUL byte and after 122 characters.  The
    partner of the writer is the reader of section 5.2 of RFC 6455.
 */
module WebSocketOutput {
  import opened Bytes

  const SHORT_BUFFER := 125
  const SHORT_TEXT := SHORT_BUFFER - 3    // what snprintf has room for behind the header and before its NUL

  function Min(a: nat, b: nat): nat {
    if a < b then a else b
  }

  // A length of 0 asks for the length of the C string.
  function MessageLength(memory: seq<Byte>, msgLength: nat): nat
    requires 0 in memory && msgLength <= |memory|
  {
    if msgLength == 0 then StrLen(memory) else msgLength
  }

  // The bytes handed to the socket for a message of fewer than 126 bytes.  `stack` is what the
  // local array, and the memory behind it, held before.
  function ShortFrame(memory: seq<Byte>, length: nat, messageType: Byte, stack: seq<Byte>): (frame: seq<Byte>)
    requires 0 in memory && length <= |memory| && length < 126 <= |stack|
    ensures |frame| == length + 2
  {
    var printed := Min(SHORT_TEXT, StrLen(memory));
    [messageType, length % 128]
    + seq(length, i requires 0 <= i < length =>
            if i < printed then memory[i] else if i == printed then 0 else stack[i])
  }

  function LongFrame(payload: seq<Byte>, messageType: Byte): seq<Byte>
    requires |payload| < 65536
  {
    [messageType, 126, (|payload| / 256), (|payload| % 256)] + payload
  }

  datatype Written = Written(bytes: seq<Byte>) | Refused

  function Message(memory: seq<Byte>, msgLength: nat, messageType: Byte, stack: seq<Byte>): Written
    requires 0 in memory && msgLength <= |memory| && 126 <= |stack|
  {
    var length := MessageLength(memory, msgLength);
    if length < 126 then Written(ShortFrame(memory, length, messageType, stack))
    else if length > 65535 then Refused
    else Written(LongFrame(memory[..length], messageType))
  }

  // ----- the writers, in place -----

  // `messge` is the local array of 125 bytes together with the memory behind it.
  method ShortWsMessage(memory: seq<Byte>, length: nat, messageType: Byte, messge: array<Byte>)
    returns (written: Written)
    requires 0 in memory && length <= |memory|
    requires messge.Length >= SHORT_BUFFER + 3
    modifies messge
    ensures written == if length >= 126 then Refused
                       else Written(ShortFrame(memory, length, messageType, old(messge[2..])))
    ensures messge[SHORT_BUFFER..] == old(messge[SHORT_BUFFER..])
  {
    if length >= 126 {
      return Refused;
    }
    ghost var stack := messge[2..];
    messge[0] := messageType;
    messge[1] := length % 128;
    var i := 0;
    while i < SHORT_TEXT && memory[i] != 0
      invariant i <= Min(SHORT_TEXT, StrLen(memory))
      invariant messge[0] == messageType && messge[1] == length % 128
      invariant forall k :: 0 <= k < i ==> messge[2 + k] == memory[k]
      invariant forall k :: i <= k < |stack| ==> messge[2 + k] == stack[k]
      decreases SHORT_TEXT - i
    {
      messge[2 + i] := memory[i];
      i := i + 1;
    }
    messge[2 + i] := 0;
    assert i == Min(SHORT_TEXT, StrLen(memory));
    assert messge[..length + 2] == ShortFrame(memory, length, messageType, stack);
    assert forall k :: SHORT_BUFFER <= k < messge.Length ==> messge[k] == stack[k - 2];
    written := Written(messge[..length + 2]);
  }

  // `messge` is the message buffer of the thread.
  method SendMessage(memory: seq<Byte>, msgLength: nat, messageType: Byte, messge: array<Byte>, stack: array<Byte>)
    returns (written: Written)
    requires 0 in memory && msgLength <= |memory|
    requires messge.Length >= 65536 + 4 && stack.Length >= SHORT_BUFFER + 3
    modifies messge, stack
    ensures written == Message(memory, msgLength, messageType, old(stack[2..]))
  {
    var length := msgLength;
    if length == 0 {
      while memory[length] != 0
        invariant length <= StrLen(memory)
        decreases |memory| - length
      {
        length := length + 1;
      }
    }
    if length < 126 {
      written := ShortWsMessage(memory, length, messageType, stack);
      return;
    }
    if length > 65535 {
      return Refused;
    }
    messge[0] := messageType;
    messge[1] := 126;
    // The length is stored as the machine does, low byte first, and its two bytes are exchanged.
    messge[2], messge[3] := length % 256, length / 256;
    messge[2], messge[3] := messge[3], messge[2];
    var i := 0;
    while i < length
      invariant i <= length
      invariant messge[..4] == [messageType, 126, length / 256, length % 256]
      invariant messge[4..4 + i] == memory[..i]
    {
      messge[4 + i] := memory[i];
      i := i + 1;
    }
    assert messge[..4 + length] == messge[..4] + messge[4..4 + length];
    written := Written(messge[..4 + length]);
  }

  // ----- the reader at the other end -----

  datatype Frame = Frame(opcode: Byte, payload: seq<Byte>)
  datatype Read = Got(frame: Frame, rest: seq<Byte>) | Stuck

  // One unmasked frame with a 7-bit or 16-bit length.
  function ReadFrame(s: seq<Byte>): Read {
    if |s| < 2 || s[1] >= 127 then Stuck
    else
      var extended := s[1] == 126;
      if extended && |s| < 4 then Stuck
      else
        var start := if extended then 4 else 2;
        var length: int := if extended then s[2] as int * 256 + s[3] as int else s[1] as int;
        if |s| < start + length then Stuck
        else Got(Frame(s[0], s[start..start + length]), s[start + length..])
  }

  // ----- main results -----

  // Every payload byte is printed, or is the NUL that snprintf appends.
  predicate PrintedExactly(memory: seq<Byte>, length: nat)
    requires 0 in memory
  {
    length <= Min(SHORT_TEXT, StrLen(memory)) || length == StrLen(memory) + 1 <= SHORT_TEXT + 1
  }

  lemma ReadShortFrame(memory: seq<Byte>, length: nat, messageType: Byte, stack: seq<Byte>, rest: seq<Byte>)
    requires 0 in memory && length <= |memory| && length < 126 <= |stack|
    ensures ReadFrame(ShortFrame(memory, length, messageType, stack) + rest)
            == Got(Frame(messageType, ShortFrame(memory, length, messageType, stack)[2..]), rest)
  {
    var f := ShortFrame(memory, length, messageType, stack);
    assert (f + rest)[1] == f[1];
    assert (f + rest)[2..2 + length] == f[2..];
    assert (f + rest)[2 + length..] == rest;
  }

  // A short message reaches the browser unchanged, whatever the stack held, exactly when all of
  // it is printed.
  lemma ShortMessageExact(memory: seq<Byte>, length: nat, messageType: Byte)
    requires 0 in memory && length <= |memory| && length < 126
    ensures (forall stack: seq<Byte> | |stack| == 126 ::
              ReadFrame(ShortFrame(memory, length, messageType, stack))
              == Got(Frame(messageType, memory[..length]), []))
            <==> PrintedExactly(memory, length)
  {
    forall stack: seq<Byte> | |stack| == 126
      ensures ReadFrame(ShortFrame(memory, length, messageType, stack))
              == Got(Frame(messageType, ShortFrame(memory, length, messageType, stack)[2..]), [])
    {
      ReadShortFrame(memory, length, messageType, stack, []);
      assert ShortFrame(memory, length, messageType, stack) + [] == ShortFrame(memory, length, messageType, stack);
    }
    var printed := Min(SHORT_TEXT, StrLen(memory));
    if PrintedExactly(memory, length) {
      forall stack: seq<Byte> | |stack| == 126
        ensures ShortFrame(memory, length, messageType, stack)[2..] == memory[..length]
      {
      }
    } else {
      // The last byte comes from the stack, or is the NUL in the place of the 123rd character.
      var last := length - 1;
      var other: Byte := if memory[last] == 0 then 1 else 0;
      var stack: seq<Byte> := seq(126, _ => other);
      assert ShortFrame(memory, length, messageType, stack)[2..][last] != memory[..length][last];
    }
  }

  // A message the protocol side sends: NUL-free and 1 to 122 bytes, or anything of 126 to 65535 bytes.
  predicate Sendable(payload: seq<Byte>) {
    (1 <= |payload| <= SHORT_TEXT && NulFree(payload)) || 126 <= |payload| < 65536
  }

  function StreamOf(payloads: seq<seq<Byte>>, messageType: Byte, stacks: seq<seq<Byte>>): seq<Byte>
    requires forall i :: 0 <= i < |payloads| ==> Sendable(payloads[i])
    requires |stacks| == |payloads| && forall i :: 0 <= i < |stacks| ==> 126 <= |stacks[i]|
    decreases |payloads|
  {
    if payloads == [] then []
    else
      match Message(payloads[0] + [0], |payloads[0]|, messageType, stacks[0])
      case Written(bytes) => bytes + StreamOf(payloads[1..], messageType, stacks[1..])
      case Refused => []
  }

  function ReadAll(s: seq<Byte>): (frames: seq<Frame>)
    decreases |s|
  {
    match ReadFrame(s)
    case Stuck => []
    case Got(frame, rest) => [frame] + ReadAll(rest)
  }

  lemma ReadLongFrame(payload: seq<Byte>, messageType: Byte, rest: seq<Byte>)
    requires |payload| < 65536
    ensures ReadFrame(LongFrame(payload, messageType) + rest) == Got(Frame(messageType, payload), rest)
  {
    var f := LongFrame(payload, messageType);
    var s := f + rest;
    assert s[0] == messageType && s[1] == 126;
    assert s[2] == (|payload| / 256) && s[3] == (|payload| % 256);
    assert s[4..4 + |payload|] == payload;
    assert s[4 + |payload|..] == rest;
  }

  lemma MessageRoundTrip(payload: seq<Byte>, messageType: Byte, stack: seq<Byte>, rest: seq<Byte>)
    requires Sendable(payload) && 126 <= |stack|
    ensures var m := Message(payload + [0], |payload|, messageType, stack);
            m.Written? && ReadFrame(m.bytes + rest) == Got(Frame(messageType, payload), rest)
  {
    assert (payload + [0])[|payload|] == 0;
    assert (payload + [0])[..|payload|] == payload;
    if |payload| < 126 {
      CStringOfPadded(payload, [0]);
      ReadShortFrame(payload + [0], |payload|, messageType, stack, rest);
      assert ShortFrame(payload + [0], |payload|, messageType, stack)[2..] == payload;
    } else {
      ReadLongFrame(payload, messageType, rest);
    }
  }

  // A message of length 0 is the C string in the buffer, whatever stands behind its NUL.
  lemma CStringRoundTrip(text: seq<Byte>, behind: seq<Byte>, messageType: Byte, stack: seq<Byte>, rest: seq<Byte>)
    requires NulFree(text) && (|text| <= SHORT_TEXT || 126 <= |text| < 65536) && 126 <= |stack|
    ensures var m := Message(text + [0] + behind, 0, messageType, stack);
            m.Written? && ReadFrame(m.bytes + rest) == Got(Frame(messageType, text), rest)
  {
    var memory := text + [0] + behind;
    assert memory == text + ([0] + behind);
    assert memory[|text|] == 0 && memory[..|text|] == text;
    CStringOfPadded(text, [0] + behind);
    if |text| < 126 {
      ReadShortFrame(memory, |text|, messageType, stack, rest);
      assert ShortFrame(memory, |text|, messageType, stack)[2..] == text;
    } else {
      ReadLongFrame(text, messageType, rest);
    }
  }

  // The browser reads back exactly the messages of the server, each frame taking exactly the
  // bytes written for it.
  lemma {:induction false} ReadBackAll(payloads: seq<seq<Byte>>, messageType: Byte, stacks: seq<seq<Byte>>)
    requires forall i :: 0 <= i < |payloads| ==> Sendable(payloads[i])
    requires |stacks| == |payloads| && forall i :: 0 <= i < |stacks| ==> 126 <= |stacks[i]|
    ensures ReadAll(StreamOf(payloads, messageType, stacks))
            == seq(|payloads|, i requires 0 <= i < |payloads| => Frame(messageType, payloads[i]))
    decreases |payloads|
  {
    if payloads != [] {
      var rest := StreamOf(payloads[1..], messageType, stacks[1..]);
      ReadBackAll(payloads[1..], messageType, stacks[1..]);
      MessageRoundTrip(payloads[0], messageType, stacks[0], rest);
    }
  }
}
