/** The Base64 object of the JavaScript client: UTF-8 and Base64 in one step.

    Texts are sequences of UTF-16 code units.  Encoding turns "\r\n" into "\n", writes every unit in
    one to three bytes (RFC 3629, section 3; surrogates one by one) and these in Base64 (RFC 4648,
    section 4).  Reading behind the end of a text gives NaN, which counts as 0 in bit operations.
 */
module JsBase64 {
  import opened Bytes
  import opened Base64

  type Unit = x: int | 0 <= x < 0x1_0000

  const CR: Unit := 13
  const LF: Unit := 10

  function At(s: seq<Unit>, i: nat): Unit {
    if i < |s| then s[i] else 0
  }

  // replace(/\r\n/g, "\n")
  function ReplaceCrLf(s: seq<Unit>): seq<Unit> {
    if s == [] then []
    else if |s| >= 2 && s[0] == CR && s[1] == LF then [LF] + ReplaceCrLf(s[2..])
    else [s[0]] + ReplaceCrLf(s[1..])
  }

  predicate HasCrLf(s: seq<Unit>) {
    |s| >= 2 && ((s[0] == CR && s[1] == LF) || HasCrLf(s[1..]))
  }

  lemma {:induction false} ReplaceShortens(s: seq<Unit>)
    ensures |ReplaceCrLf(s)| <= |s|
    ensures |ReplaceCrLf(s)| == |s| <==> !HasCrLf(s)
    ensures !HasCrLf(s) ==> ReplaceCrLf(s) == s
  {
    if s == [] {
    } else if |s| >= 2 && s[0] == CR && s[1] == LF {
      ReplaceShortens(s[2..]);
    } else {
      ReplaceShortens(s[1..]);
    }
  }

  // Lines joined by a separator.
  function JoinLines(lines: seq<seq<Unit>>, separator: seq<Unit>): seq<Unit> {
    if lines == [] then [] else if |lines| == 1 then lines[0]
    else lines[0] + separator + JoinLines(lines[1..], separator)
  }

  lemma {:induction false} ReplaceFirst(line: seq<Unit>, rest: seq<Unit>)
    requires !HasCrLf(line)
    ensures ReplaceCrLf(line + [CR, LF] + rest) == line + [LF] + ReplaceCrLf(rest)
  {
    var s := line + [CR, LF] + rest;
    if line == [] {
      assert s[2..] == rest;
    } else {
      assert s[1..] == line[1..] + [CR, LF] + rest;
      assert !(s[0] == CR && s[1] == LF);
      ReplaceFirst(line[1..], rest);
    }
  }

  // Lines that end with "\r\n" end with "\n", and are otherwise unchanged.
  lemma {:induction false} LineEndsReplaced(lines: seq<seq<Unit>>)
    requires forall i :: 0 <= i < |lines| ==> !HasCrLf(lines[i])
    ensures ReplaceCrLf(JoinLines(lines, [CR, LF])) == JoinLines(lines, [LF])
  {
    if |lines| == 1 {
      ReplaceShortens(lines[0]);
    } else if |lines| > 1 {
      ReplaceFirst(lines[0], JoinLines(lines[1..], [CR, LF]));
      LineEndsReplaced(lines[1..]);
    }
  }

  // ----- UTF-8 -----

  function Utf8(c: Unit): (r: seq<Byte>)
    ensures 1 <= |r| <= 3
  {
    if c < 128 then [c]
    else if c < 2048 then [192 + c / 64, 128 + c % 64]
    else [224 + c / 4096, 128 + c / 64 % 64, 128 + c % 64]
  }

  function Utf8All(s: seq<Unit>): seq<Byte> {
    if s == [] then [] else Utf8(s[0]) + Utf8All(s[1..])
  }

  // The unit that `s` starts with, and how many units of `s` it takes.
  function ReadUnit(s: seq<Unit>): (r: (Unit, nat))
    requires s != []
    ensures 1 <= r.1 <= 3
  {
    if s[0] < 128 then (s[0], 1)
    else if 191 < s[0] < 224 then (s[0] % 32 * 64 + At(s, 1) % 64, 2)
    else (s[0] % 16 * 4096 + At(s, 1) % 64 * 64 + At(s, 2) % 64, 3)
  }

  function Drop(s: seq<Unit>, n: nat): seq<Unit> {
    if n < |s| then s[n..] else []
  }

  function FromUtf8(s: seq<Unit>): seq<Unit>
    decreases |s|
  {
    if s == [] then []
    else
      var (c, n) := ReadUnit(s);
      [c] + FromUtf8(Drop(s, n))
  }

  lemma ReadUtf8(c: Unit, rest: seq<Unit>)
    ensures ReadUnit(Utf8(c) + rest) == (c, |Utf8(c)|)
  {
    var s := Utf8(c) + rest;
    if c < 128 {
      assert s[0] == c;
    } else if c < 2048 {
      TwoParts(c);
      assert s[0] == 192 + c / 64 && s[1] == 128 + c % 64;
    } else {
      ThreeParts(c);
      assert s[0] == 224 + c / 4096 && s[1] == 128 + c / 64 % 64 && s[2] == 128 + c % 64;
    }
  }

  lemma TwoParts(c: nat)
    requires c < 2048
    ensures (192 + c / 64) % 32 * 64 + (128 + c % 64) % 64 == c
  {
    assert (192 + c / 64) % 32 == c / 64;
  }

  lemma ThreeParts(c: nat)
    requires c < 0x1_0000
    ensures (224 + c / 4096) % 16 * 4096 + (128 + c / 64 % 64) % 64 * 64 + (128 + c % 64) % 64 == c
  {
    assert (224 + c / 4096) % 16 == c / 4096;
    assert (128 + c / 64 % 64) % 64 == c / 64 % 64;
    assert c / 64 / 64 == c / 4096;
  }

  // A reader that takes only what section 3 of RFC 3629 allows for up to 16 bits: the marker bits of
  // first and following octets, and the shortest form.

  datatype Scalar = Scalar(c: Unit, rest: seq<Byte>) | Malformed

  predicate Following(b: Byte) {
    0x80 <= b < 0xc0
  }

  function ReadScalar(s: seq<Byte>): Scalar {
    if s == [] then Malformed
    else if s[0] < 0x80 then Scalar(s[0], s[1..])
    else if 0xc2 <= s[0] < 0xe0 then
      if |s| < 2 || !Following(s[1]) then Malformed
      else Scalar((s[0] as int - 0xc0) * 64 + (s[1] as int - 0x80), s[2..])
    else if 0xe0 <= s[0] < 0xf0 then
      if |s| < 3 || !Following(s[1]) || !Following(s[2]) || (s[0] == 0xe0 && s[1] < 0xa0) then Malformed
      else Scalar((s[0] as int - 0xe0) * 4096 + (s[1] as int - 0x80) * 64 + (s[2] as int - 0x80), s[3..])
    else Malformed
  }

  lemma Utf8IsScalar(c: Unit, rest: seq<Byte>)
    ensures ReadScalar(Utf8(c) + rest) == Scalar(c, rest)
  {
    var s := Utf8(c) + rest;
    assert s[|Utf8(c)|..] == rest;
    if 128 <= c < 2048 {
      assert s[0] == 192 + c / 64 && s[1] == 128 + c % 64;
    } else if c >= 2048 {
      assert s[0] == 224 + c / 4096 && s[1] == 128 + c / 64 % 64 && s[2] == 128 + c % 64;
      ScalarParts(c);
    }
  }

  lemma ScalarParts(c: nat)
    requires 2048 <= c < 0x1_0000
    ensures c == c / 4096 * 4096 + c / 64 % 64 * 64 + c % 64
    ensures c / 4096 == 0 ==> c / 64 % 64 >= 32
  {
    assert c / 64 / 64 == c / 4096;
  }

  datatype Scalars = Scalars(units: seq<Unit>) | NotUtf8

  function ReadScalars(s: seq<Byte>): Scalars
    decreases |s|
  {
    if s == [] then Scalars([])
    else
      match ReadScalar(s)
      case Malformed => NotUtf8
      case Scalar(c, rest) =>
        match ReadScalars(rest)
        case NotUtf8 => NotUtf8
        case Scalars(units) => Scalars([c] + units)
  }

  // The bytes of a text are well-formed, and the text is what they stand for.
  lemma {:induction false} Utf8IsWellFormed(s: seq<Unit>)
    ensures ReadScalars(Utf8All(s)) == Scalars(s)
  {
    hide Utf8, ReadScalar;
    if s != [] {
      Utf8IsScalar(s[0], Utf8All(s[1..]));
      Utf8IsWellFormed(s[1..]);
      assert [s[0]] + s[1..] == s;
    }
  }

  lemma {:induction false} Utf8RoundTrip(s: seq<Unit>)
    ensures FromUtf8(Utf8All(s)) == s
  {
    hide Utf8, ReadUnit;
    if s != [] {
      ReadUtf8(s[0], Utf8All(s[1..]));
      Utf8RoundTrip(s[1..]);
      assert Drop(Utf8All(s), |Utf8(s[0])|) == Utf8All(s[1..]);
    }
  }

  // ----- Base64 -----

  type Key = x: int | 0 <= x <= 64

  predicate IsKey(c: Unit) {
    c < 256 && (IsBase64(c) || c == PAD)
  }

  // replace(/[^A-Za-z0-9\+\/\=]/g, "")
  function KeysOnly(s: seq<Unit>): (r: seq<Byte>)
    ensures forall i :: 0 <= i < |r| ==> IsKey(r[i])
  {
    if s == [] then [] else (if IsKey(s[0]) then [s[0] as Byte] else []) + KeysOnly(s[1..])
  }

  // `_keyStr.indexOf`; behind the end of the text it looks for "", which is found at 0.
  function KeyAt(s: seq<Byte>, i: nat): Key
    requires i < |s| ==> IsKey(s[i])
  {
    if i >= |s| then 0 else if s[i] == PAD then 64 else Find(s[i])
  }

  // (enc1 << 2) | (enc2 >> 4), where only a padding character makes the two overlap
  function FirstUnit(enc1: Key, enc2: Key): Unit {
    if enc2 < 64 then enc1 as int * 4 + enc2 / 16 else if enc1 % 2 == 1 then enc1 as int * 4 else enc1 as int * 4 + 4
  }

  // Bit number `k` of a number.
  function Bit(x: nat, k: nat): nat {
    if k == 0 then x % 2 else Bit(x / 2, k - 1)
  }

  lemma {:induction false} NoBit(k: nat)
    ensures Bit(0, k) == 0
  {
    if k > 0 {
      NoBit(k - 1);
    }
  }

  // Above the two lowest bits of 4 * high + low stand the bits of `high`.
  lemma ShiftedBit(high: nat, low: nat, k: nat)
    requires low < 4
    ensures Bit(4 * high + low, k) == if k < 2 then Bit(low, k) else Bit(high, k - 2)
  {
    var x := 4 * high + low;
    assert x / 2 == 2 * high + low / 2 && x / 2 / 2 == high;
  }

  // The first unit has the bits of both shifted numbers.
  lemma FirstUnitIsOr(enc1: Key, enc2: Key, k: nat)
    ensures Bit(FirstUnit(enc1, enc2), k) == 1 <==> Bit(enc1 as int * 4, k) == 1 || Bit(enc2 as int / 16, k) == 1
  {
    var low := enc2 as int / 16;
    ShiftedBit(enc1, 0, k);
    if enc2 < 64 {
      ShiftedBit(enc1, low, k);
      ShiftedBit(0, low, k);
      NoBit(if k < 2 then k else k - 2);
    } else {
      var high := if enc1 % 2 == 1 then enc1 as int else enc1 as int + 1;
      assert low == 4 && FirstUnit(enc1, enc2) == 4 * high && high / 2 == enc1 / 2;
      ShiftedBit(high, 0, k);
      ShiftedBit(1, 0, k);
      NoBit(if k < 3 then k else k - 3);
    }
  }

  // The units of four characters; a padding character in third or fourth place drops a unit.
  function Block(enc1: Key, enc2: Key, enc3: Key, enc4: Key): seq<Unit> {
    [FirstUnit(enc1, enc2)]
    + (if enc3 != 64 then [enc2 as int % 16 * 16 + enc3 / 4] else [])
    + (if enc4 != 64 then [enc3 as int % 4 * 64 + enc4] else [])
  }

  function Blocks(s: seq<Byte>): seq<Unit>
    requires forall i :: 0 <= i < |s| ==> IsKey(s[i])
    decreases |s|
  {
    if s == [] then []
    else Block(KeyAt(s, 0), KeyAt(s, 1), KeyAt(s, 2), KeyAt(s, 3)) + Blocks(if |s| < 4 then [] else s[4..])
  }

  // Characters that are missing in the last group count as 'A', not as padding.
  lemma {:induction false} MissingIsA(s: seq<Byte>, n: nat)
    requires (forall i :: 0 <= i < |s| ==> IsKey(s[i])) && |s| % 4 != 0 && n == 4 - |s| % 4
    ensures IsKey('A' as int) && Blocks(s + seq(n, _ => 'A' as int)) == Blocks(s)
    decreases |s|
  {
    hide Block;
    var full := s + seq(n, _ => 'A' as int);
    if |s| < 4 {
      assert Find('A' as int) == 0;
      assert full[4..] == [];
    } else {
      assert full[4..] == s[4..] + seq(n, _ => 'A' as int);
      MissingIsA(s[4..], n);
    }
  }

  function JsEncode(s: seq<Unit>): seq<Byte> {
    Encode(Utf8All(ReplaceCrLf(s)))
  }

  function JsDecode(s: seq<Unit>): seq<Unit> {
    FromUtf8(Blocks(KeysOnly(s)))
  }

  lemma {:induction false} KeysKept(s: seq<Byte>)
    requires forall i :: 0 <= i < |s| ==> IsKey(s[i])
    ensures KeysOnly(s) == s
  {
    if s != [] {
      KeysKept(s[1..]);
    }
  }

  lemma {:induction false} EncodeGivesKeys(bytes: seq<Byte>)
    ensures forall i :: 0 <= i < |Encode(bytes)| ==> IsKey(Encode(bytes)[i])
  {
    hide Digits, IsBase64;
    CharsAreKeys();
    if |bytes| >= 3 {
      EncodeGivesKeys(bytes[3..]);
    }
  }

  lemma CharsAreKeys()
    ensures forall k: Sextet :: IsKey(Char(k)) && IsBase64(Char(k))
    ensures IsKey(PAD)
  {
    forall k: Sextet
      ensures IsKey(Char(k)) && IsBase64(Char(k))
    {
      FindChar(k);
    }
  }

  lemma KeyOfChar(s: seq<Byte>, i: nat, k: Sextet)
    requires i < |s| && s[i] == Char(k)
    ensures IsKey(s[i]) && KeyAt(s, i) == k
  {
    FindChar(k);
  }

  lemma FourKeys(d: seq<Sextet>, rest: seq<Byte>)
    requires |d| == 4 && (forall i :: 0 <= i < |rest| ==> IsKey(rest[i]))
    ensures var s := Chars(d) + rest;
            && (forall i :: 0 <= i < |s| ==> IsKey(s[i]))
            && Blocks(s) == Block(d[0], d[1], d[2], d[3]) + Blocks(rest)
  {
    hide Find, IsBase64;
    var s := Chars(d) + rest;
    CharsAreKeys();
    KeyOfChar(s, 0, d[0]);
    KeyOfChar(s, 1, d[1]);
    KeyOfChar(s, 2, d[2]);
    KeyOfChar(s, 3, d[3]);
    assert s[4..] == rest;
  }

  // The last characters, one or two of them padding.
  lemma PaddedKeys(d: seq<Sextet>, n: nat)
    requires |d| == 4 && (n == 1 || n == 2)
    ensures var s := Chars(d)[..n + 1] + (if n == 1 then [PAD, PAD] else [PAD]);
            && (forall i :: 0 <= i < |s| ==> IsKey(s[i]))
            && Blocks(s) == Block(d[0], d[1], if n == 1 then 64 else d[2], 64)
  {
    hide Find, IsBase64, Block;
    var s := Chars(d)[..n + 1] + (if n == 1 then [PAD, PAD] else [PAD]);
    CharsAreKeys();
    KeyOfChar(s, 0, d[0]);
    KeyOfChar(s, 1, d[1]);
    if n == 2 {
      KeyOfChar(s, 2, d[2]);
    }
    assert s[4..] == [];
    assert Blocks([]) == [];
  }

  lemma BlockOfDigits(a: Byte, b: Byte, c: Byte)
    ensures var d := Digits(a, b, c);
            && Block(d[0], d[1], d[2], d[3]) == [a, b, c]
            && Block(d[0], d[1], d[2], 64) == [a, b]
            && Block(d[0], d[1], 64, 64) == [a]
  {
    hide Digits, Group;
    var d := Digits(a, b, c);
    GroupOfDigits(a, b, c);
    GroupByMasks(d);
  }

  lemma {:induction false} BlocksRoundTrip(bytes: seq<Byte>)
    ensures forall i :: 0 <= i < |Encode(bytes)| ==> IsKey(Encode(bytes)[i])
    ensures Blocks(Encode(bytes)) == bytes
  {
    hide Digits, Chars, Block, IsKey;
    EncodeGivesKeys(bytes);
    if bytes == [] {
    } else if |bytes| == 1 {
      BlockOfDigits(bytes[0], 0, 0);
      PaddedKeys(Digits(bytes[0], 0, 0), 1);
    } else if |bytes| == 2 {
      BlockOfDigits(bytes[0], bytes[1], 0);
      PaddedKeys(Digits(bytes[0], bytes[1], 0), 2);
    } else {
      BlocksRoundTrip(bytes[3..]);
      BlockOfDigits(bytes[0], bytes[1], bytes[2]);
      FourKeys(Digits(bytes[0], bytes[1], bytes[2]), Encode(bytes[3..]));
      assert bytes == [bytes[0], bytes[1], bytes[2]] + bytes[3..];
    }
  }

  // Decoding what was encoded gives the text back, with "\n" for every "\r\n".
  lemma JsRoundTrip(s: seq<Unit>)
    ensures JsDecode(JsEncode(s)) == ReplaceCrLf(s)
  {
    var bytes := Utf8All(ReplaceCrLf(s));
    BlocksRoundTrip(bytes);
    KeysKept(Encode(bytes));
    Utf8RoundTrip(ReplaceCrLf(s));
  }

  // It gives back the very text exactly when there is no "\r\n" in it.
  lemma SameTextIff(s: seq<Unit>)
    ensures JsDecode(JsEncode(s)) == s <==> !HasCrLf(s)
  {
    JsRoundTrip(s);
    ReplaceShortens(s);
  }

  // The server decodes what the client encodes to the UTF-8 bytes of the text.
  lemma ServerReadsClient(s: seq<Unit>)
    ensures Decode(JsEncode(s)) == Utf8All(ReplaceCrLf(s))
  {
    RoundTrip(Utf8All(ReplaceCrLf(s)));
  }

  // ----- the loops -----

  // `_keyStr.charAt`
  function KeyChar(enc: Key): Byte {
    if enc == 64 then PAD else Char(enc)
  }

  method ToUtf8(input: seq<Unit>) returns (utftext: seq<Byte>)
    ensures utftext == Utf8All(input)
  {
    hide Utf8;
    utftext := [];
    assert input[0..] == input;
    for n := 0 to |input|
      invariant utftext + Utf8All(input[n..]) == Utf8All(input)
    {
      assert input[n..][1..] == input[n + 1..];
      utftext := AppendUnit(utftext, input[n]);
    }
  }

  method AppendUnit(utftext: seq<Byte>, c: Unit) returns (r: seq<Byte>)
    ensures r == utftext + Utf8(c)
  {
    r := utftext;
    if c < 128 {
      r := r + [c];
    } else if c > 127 && c < 2048 {
      r := r + [c / 64 + 192];
      r := r + [c % 64 + 128];
    } else {
      r := r + [c / 4096 + 224];
      r := r + [c / 64 % 64 + 128];
      r := r + [c % 64 + 128];
    }
  }

  // The four characters for up to three bytes.
  method EncodeGroup(utftext: seq<Byte>, i: nat) returns (chars: seq<Byte>)
    requires i < |utftext|
    ensures chars + Encode(if i + 3 < |utftext| then utftext[i + 3..] else []) == Encode(utftext[i..])
  {
    hide Digits;
    var rest := utftext[i..];
    var chr1 := utftext[i];
    var chr2: Byte := if i + 1 < |utftext| then utftext[i + 1] else 0;
    var chr3: Byte := if i + 2 < |utftext| then utftext[i + 2] else 0;
    DigitsByMasks(chr1, chr2, chr3);
    var enc1: Key := chr1 / 4;
    var enc2: Key := chr1 % 4 * 16 + chr2 / 16;
    var enc3: Key := chr2 % 16 * 4 + chr3 / 64;
    var enc4: Key := chr3 % 64;
    ghost var d := Digits(chr1, chr2, chr3);
    assert d == [enc1, enc2, enc3, enc4];
    assert Chars(d) == [Char(enc1), Char(enc2), Char(enc3), Char(enc4)];
    if i + 1 >= |utftext| {
      enc3, enc4 := 64, 64;
    } else if i + 2 >= |utftext| {
      enc4 := 64;
    } else {
      assert rest[3..] == utftext[i + 3..];
    }
    chars := [KeyChar(enc1), KeyChar(enc2), KeyChar(enc3), KeyChar(enc4)];
  }

  method EncodeText(input: seq<Unit>) returns (output: seq<Byte>)
    ensures output == JsEncode(input)
  {
    hide Encode;
    var utftext := ToUtf8(ReplaceCrLf(input));
    output := [];
    var i := 0;
    assert utftext[0..] == utftext;
    while i < |utftext|
      invariant output + Encode(if i < |utftext| then utftext[i..] else []) == Encode(utftext)
    {
      var chars := EncodeGroup(utftext, i);
      output := output + chars;
      i := i + 3;
    }
    EncodeNothing([]);
  }

  method DecodeText(input: seq<Unit>) returns (text: seq<Unit>)
    ensures text == JsDecode(input)
  {
    hide FromUtf8, Blocks;
    var output := DecodeBlocks(KeysOnly(input));
    text := ReadUnits(output);
  }

  lemma Regrouped(a: seq<Unit>, b: seq<Unit>, c: seq<Unit>)
    ensures (a + b) + c == a + (b + c)
  {
  }

  method DecodeBlocks(keys: seq<Byte>) returns (output: seq<Unit>)
    requires forall k :: 0 <= k < |keys| ==> IsKey(keys[k])
    ensures output == Blocks(keys)
  {
    assert Blocks([]) == [];
    hide IsKey, Blocks;
    output := [];
    var i := 0;
    assert keys[0..] == keys;
    while i < |keys|
      invariant output + Blocks(if i < |keys| then keys[i..] else []) == Blocks(keys)
    {
      var units := DecodeBlock(keys, i);
      Regrouped(output, units, Blocks(if i + 4 < |keys| then keys[i + 4..] else []));
      output := output + units;
      i := i + 4;
    }
  }

  method ReadUnits(output: seq<Unit>) returns (text: seq<Unit>)
    ensures text == FromUtf8(output)
  {
    hide FromUtf8;
    text := [];
    var i := 0;
    assert Drop(output, 0) == output;
    while i < |output|
      invariant text + FromUtf8(Drop(output, i)) == FromUtf8(output)
    {
      text, i := ReadOne(text, output, i);
    }
    NoUnits();
  }

  lemma NoUnits()
    ensures FromUtf8([]) == []
  {
  }

  lemma BlocksStep(keys: seq<Byte>, i: nat)
    requires i < |keys| && (forall k :: 0 <= k < |keys| ==> IsKey(keys[k]))
    ensures Blocks(keys[i..])
            == Block(KeyAt(keys, i), KeyAt(keys, i + 1), KeyAt(keys, i + 2), KeyAt(keys, i + 3))
               + Blocks(if i + 4 < |keys| then keys[i + 4..] else [])
  {
    hide IsKey, Block, Find;
    var s := keys[i..];
    assert KeyAt(s, 0) == KeyAt(keys, i) && KeyAt(s, 1) == KeyAt(keys, i + 1);
    assert KeyAt(s, 2) == KeyAt(keys, i + 2) && KeyAt(s, 3) == KeyAt(keys, i + 3);
    if |s| >= 4 {
      assert s[4..] == keys[i + 4..];
    }
  }

  method DecodeBlock(keys: seq<Byte>, i: nat) returns (units: seq<Unit>)
    requires i < |keys| && (forall k :: 0 <= k < |keys| ==> IsKey(keys[k]))
    ensures units + Blocks(if i + 4 < |keys| then keys[i + 4..] else []) == Blocks(keys[i..])
  {
    hide FirstUnit, KeyAt, Blocks;
    var enc1, enc2, enc3, enc4 := KeyAt(keys, i), KeyAt(keys, i + 1), KeyAt(keys, i + 2), KeyAt(keys, i + 3);
    units := [FirstUnit(enc1, enc2)];
    if enc3 != 64 {
      units := units + [enc2 as int % 16 * 16 + enc3 / 4];
    }
    if enc4 != 64 {
      units := units + [enc3 as int % 4 * 64 + enc4];
    }
    BlocksStep(keys, i);
  }

  method NextUnit(output: seq<Unit>, i: nat) returns (c: Unit, n: nat)
    requires i < |output|
    ensures (c, n) == ReadUnit(Drop(output, i))
  {
    hide FromUtf8;
    ghost var s := Drop(output, i);
    assert At(s, 1) == At(output, i + 1) && At(s, 2) == At(output, i + 2);
    c := output[i];
    if c < 128 {
      n := 1;
    } else if c > 191 && c < 224 {
      c := c % 32 * 64 + At(output, i + 1) % 64;
      n := 2;
    } else {
      c := c % 16 * 4096 + At(output, i + 1) % 64 * 64 + At(output, i + 2) % 64;
      n := 3;
    }
  }

  lemma UnitStep(output: seq<Unit>, i: nat)
    requires i < |output|
    ensures var (c, n) := ReadUnit(Drop(output, i));
            FromUtf8(Drop(output, i)) == [c] + FromUtf8(Drop(output, i + n))
  {
    hide ReadUnit;
    var n := ReadUnit(Drop(output, i)).1;
    assert Drop(Drop(output, i), n) == Drop(output, i + n);
  }

  // Reads the unit at `i`; what follows is read from `i'` on.
  method ReadOne(text: seq<Unit>, output: seq<Unit>, i: nat) returns (text': seq<Unit>, i': nat)
    requires i < |output|
    ensures i < i'
    ensures text' + FromUtf8(Drop(output, i')) == text + FromUtf8(Drop(output, i))
  {
    hide FromUtf8, ReadUnit;
    var c, n := NextUnit(output, i);
    UnitStep(output, i);
    text' := text + [c];
    i' := i + n;
  }
}
