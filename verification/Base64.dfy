/** Base64 as the server computes it: `base64.cpp`.

    RFC 4648, section 4, reads three bytes as one 24-bit number and writes it as four 6-bit digits.
    `Encode` and `Decode` say this with numbers; the methods do it with masks and shifts on small
    arrays, as the source does (a mask of the low bits is a remainder, a shift a quotient).
 */
module Base64 {
  import opened Bytes

  type Sextet = x: int | 0 <= x < 64

  function Range(first: Byte, n: nat): (r: seq<Byte>)
    requires first + n <= 256
    ensures |r| == n && (forall i :: 0 <= i < n ==> r[i] == first + i)
  {
    seq(n, i requires 0 <= i < n => first + i)
  }

  // A-Z, a-z, 0-9, + and /.
  const CHARS: seq<Byte> := Range(0x41, 26) + Range(0x61, 26) + Range(0x30, 10) + [0x2b, 0x2f]
  const PAD: Byte := 0x3d

  function Char(k: Sextet): Byte {
    assert |CHARS| == 64;
    CHARS[k]
  }

  predicate IsBase64(c: Byte) {
    || 0x41 <= c <= 0x5a || 0x61 <= c <= 0x7a || 0x30 <= c <= 0x39 || c == 0x2b || c == 0x2f
  }

  // `base64_chars.find(c)`, stored in a byte: 255 when there is no such character.
  function Find(c: Byte): (k: Byte)
    ensures IsBase64(c) <==> k < 64
    ensures IsBase64(c) ==> Char(k) == c
  {
    if 0x41 <= c <= 0x5a then c - 0x41
    else if 0x61 <= c <= 0x7a then c - 0x61 + 26
    else if 0x30 <= c <= 0x39 then c - 0x30 + 52
    else if c == 0x2b then 62
    else if c == 0x2f then 63
    else 255
  }

  // Table 1 of RFC 4648.
  lemma Alphabet(k: Sextet)
    ensures k < 26 ==> Char(k) == 'A' as int + k
    ensures 26 <= k < 52 ==> Char(k) == 'a' as int + (k - 26)
    ensures 52 <= k < 62 ==> Char(k) == '0' as int + (k - 52)
    ensures k == 62 ==> Char(k) == '+' as int
    ensures k == 63 ==> Char(k) == '/' as int
  {
  }

  // Every digit has a character of its own, and it is found again.
  lemma FindChar(k: Sextet)
    ensures IsBase64(Char(k)) && Find(Char(k)) == k && Char(k) != PAD
  {
  }

  // ----- groups -----

  function Digits(a: Byte, b: Byte, c: Byte): (d: seq<Sextet>)
    ensures |d| == 4
  {
    var group := 0x1_0000 * a + 0x100 * b + c;
    [group / 64 / 64 / 64, group / 64 / 64 % 64, group / 64 % 64, group % 64]
  }

  function Group(d: seq<Sextet>): (r: seq<Byte>)
    requires |d| == 4
    ensures |r| == 3
  {
    var group := 0x4_0000 * d[0] as int + 0x1000 * d[1] as int + 64 * d[2] as int + d[3];
    [group / 256 / 256, group / 256 % 256, group % 256]
  }

  lemma GroupOfDigits(a: Byte, b: Byte, c: Byte)
    ensures Group(Digits(a, b, c)) == [a, b, c]
  {
    hide Digits;
    var g := 0x1_0000 * a + 0x100 * b + c;
    DigitsValue(g, Digits(a, b, c), a, b, c);
    ThreeBytes(a, b, c);
  }

  lemma DigitsValue(g: nat, d: seq<Sextet>, a: Byte, b: Byte, c: Byte)
    requires g == 0x1_0000 * a + 0x100 * b + c && d == Digits(a, b, c)
    ensures 0x4_0000 * d[0] as int + 0x1000 * d[1] as int + 64 * d[2] as int + d[3] == g
  {
    SameGroup(g);
  }

  lemma ThreeBytes(a: Byte, b: Byte, c: Byte)
    ensures var g := 0x1_0000 * a + 0x100 * b + c;
            g % 256 == c && g / 256 == 256 * a + b && g / 256 % 256 == b && g / 256 / 256 == a
  {
    TwoBytes(256 * a + b, c);
    TwoBytes(a, b);
  }

  lemma TwoBytes(high: nat, low: Byte)
    ensures (256 * high + low) % 256 == low && (256 * high + low) / 256 == high
  {
  }

  lemma SameGroup(g: nat)
    ensures g == 0x4_0000 * (g / 64 / 64 / 64) + 0x1000 * (g / 64 / 64 % 64) + 64 * (g / 64 % 64) + g % 64
  {
    var q := g / 64;
    assert g == 64 * q + g % 64;
    assert q == 64 * (q / 64) + q % 64;
  }

  function Chars(d: seq<Sextet>): (r: seq<Byte>)
    ensures |r| == |d|
  {
    seq(|d|, i requires 0 <= i < |d| => Char(d[i]))
  }

  function Encode(bytes: seq<Byte>): (r: seq<Byte>)
    ensures |r| == 4 * ((|bytes| + 2) / 3)
  {
    if bytes == [] then []
    else if |bytes| == 1 then Chars(Digits(bytes[0], 0, 0))[..2] + [PAD, PAD]
    else if |bytes| == 2 then Chars(Digits(bytes[0], bytes[1], 0))[..3] + [PAD]
    else Chars(Digits(bytes[0], bytes[1], bytes[2])) + Encode(bytes[3..])
  }

  // The digits in front of the first byte that is not in the alphabet.
  function ReadDigits(text: seq<Byte>): seq<Sextet> {
    if text == [] || !IsBase64(text[0]) then [] else [Find(text[0])] + ReadDigits(text[1..])
  }

  // The bytes of a sequence of digits; `n` left over digits give `n` - 1 bytes.
  function FromDigits(d: seq<Sextet>): seq<Byte> {
    if |d| >= 4 then Group(d[..4]) + FromDigits(d[4..])
    else if |d| < 2 then []
    else if |d| == 2 then Group(d + [0, 0])[..1]
    else Group(d + [0])[..2]
  }

  function Decode(text: seq<Byte>): seq<Byte> {
    FromDigits(ReadDigits(text))
  }

  // ----- round trip -----

  lemma {:induction false} ReadChars(d: seq<Sextet>, rest: seq<Byte>)
    ensures ReadDigits(Chars(d) + rest) == d + ReadDigits(rest)
  {
    if d == [] {
      assert Chars(d) + rest == rest;
    } else {
      FindChar(d[0]);
      assert Chars(d)[1..] == Chars(d[1..]);
      assert (Chars(d) + rest)[1..] == Chars(d[1..]) + rest;
      ReadChars(d[1..], rest);
    }
  }

  lemma {:induction false} RoundTrip(bytes: seq<Byte>)
    ensures Decode(Encode(bytes)) == bytes
  {
    hide Digits, Group, Find;
    if bytes == [] {
    } else if |bytes| == 1 {
      ShortGroup(bytes[0], 0, 1);
    } else if |bytes| == 2 {
      ShortGroup(bytes[0], bytes[1], 2);
    } else {
      var d := Digits(bytes[0], bytes[1], bytes[2]);
      ReadChars(d, Encode(bytes[3..]));
      GroupOfDigits(bytes[0], bytes[1], bytes[2]);
      RoundTrip(bytes[3..]);
      var all := d + ReadDigits(Encode(bytes[3..]));
      assert all[..4] == d && all[4..] == ReadDigits(Encode(bytes[3..]));
      assert bytes == bytes[..3] + bytes[3..];
    }
  }

  // One or two bytes, and the padding behind their digits.
  lemma ShortGroup(a: Byte, b: Byte, n: nat)
    requires n == 1 || n == 2
    requires n == 1 ==> b == 0
    ensures var text := Chars(Digits(a, b, 0))[..n + 1] + (if n == 1 then [PAD, PAD] else [PAD]);
            Decode(text) == [a, b][..n]
  {
    hide Group, Find, Chars, Digits, FromDigits;
    var d := Digits(a, b, 0);
    var pad := if n == 1 then [PAD, PAD] else [PAD];
    CharsTake(d, n + 1);
    ReadChars(d[..n + 1], pad);
    assert d[..n + 1] + [] == d[..n + 1];
    ShortDigits(a, b, n);
  }

  lemma CharsTake(d: seq<Sextet>, n: nat)
    requires n <= |d|
    ensures Chars(d)[..n] == Chars(d[..n])
  {
  }

  lemma LowDigits(a: Byte, b: Byte)
    ensures Digits(a, b, 0)[3] == 0 && (b == 0 ==> Digits(a, b, 0)[2] == 0)
  {
    Mod64(1024 * a + 4 * b);
    Mod64(16 * a);
  }

  lemma Mod64(x: nat)
    ensures 64 * x % 64 == 0 && 64 * x / 64 == x
  {
  }

  lemma ShortDigits(a: Byte, b: Byte, n: nat)
    requires n == 1 || n == 2
    requires n == 1 ==> b == 0
    ensures FromDigits(Digits(a, b, 0)[..n + 1]) == [a, b][..n]
  {
    hide Group, Digits;
    var d := Digits(a, b, 0);
    GroupOfDigits(a, b, 0);
    LowDigits(a, b);
    assert d == [d[0], d[1], d[2], d[3]];
    assert d[..n + 1] + (if n == 1 then [0, 0] else [0]) == d;
  }

  // Decoding stops at the first character outside the alphabet.
  lemma {:induction false} StopsOutside(text: seq<Byte>, c: Byte, behind: seq<Byte>)
    requires (forall i :: 0 <= i < |text| ==> IsBase64(text[i])) && !IsBase64(c)
    ensures Decode(text + [c] + behind) == Decode(text)
  {
    DigitsUpTo(text, c, behind);
  }

  lemma {:induction false} DigitsUpTo(text: seq<Byte>, c: Byte, behind: seq<Byte>)
    requires (forall i :: 0 <= i < |text| ==> IsBase64(text[i])) && !IsBase64(c)
    ensures ReadDigits(text + [c] + behind) == ReadDigits(text)
  {
    hide IsBase64;
    if text != [] {
      DigitsUpTo(text[1..], c, behind);
      assert (text + [c] + behind)[1..] == text[1..] + [c] + behind;
    }
  }

  // The characters of the digits of three bytes.
  lemma CharsOf(a: Byte, b: Byte, c: Byte)
    ensures Chars(Digits(a, b, c)) == [Char(a / 4), Char(a % 4 * 16 + b / 16), Char(b % 16 * 4 + c / 64), Char(c % 64)]
  {
    DigitsByMasks(a, b, c);
  }

  lemma EncodeGroup(a: Byte, b: Byte, c: Byte)
    ensures Encode([a, b, c]) == Chars(Digits(a, b, c))
    ensures Encode([a, b]) == Chars(Digits(a, b, 0))[..3] + [PAD]
    ensures Encode([a]) == Chars(Digits(a, 0, 0))[..2] + [PAD, PAD]
  {
    hide Digits, Chars;
    assert [a, b, c][3..] == [] && Encode([]) == [];
  }

  // "Zm9v", "YmFy", "Zg==" and "Zm8=", of the test vectors in section 10 of RFC 4648.
  lemma TestVectors()
    ensures Encode([0x66, 0x6f, 0x6f]) == [0x5a, 0x6d, 0x39, 0x76]
    ensures Encode([0x62, 0x61, 0x72]) == [0x59, 0x6d, 0x46, 0x79]
    ensures Encode([0x66]) == [0x5a, 0x67, 0x3d, 0x3d]
    ensures Encode([0x66, 0x6f]) == [0x5a, 0x6d, 0x38, 0x3d]
  {
    hide *;
    FullVector(0x66, 0x6f, 0x6f);
    FullVector(0x62, 0x61, 0x72);
    PaddedVector(0x66, 0x6f);
    TestCharacters();
  }

  lemma FullVector(a: Byte, b: Byte, c: Byte)
    ensures Encode([a, b, c]) == [Char(a / 4), Char(a % 4 * 16 + b / 16), Char(b % 16 * 4 + c / 64), Char(c % 64)]
  {
    EncodeGroup(a, b, c);
    CharsOf(a, b, c);
  }

  lemma PaddedVector(a: Byte, b: Byte)
    ensures Encode([a]) == [Char(a / 4), Char(a % 4 * 16), 0x3d, 0x3d]
    ensures Encode([a, b]) == [Char(a / 4), Char(a % 4 * 16 + b / 16), Char(b % 16 * 4), 0x3d]
  {
    EncodeGroup(a, b, 0);
    CharsOf(a, 0, 0);
    CharsOf(a, b, 0);
    hide Encode, Digits, Chars, Char;
  }

  lemma TestCharacters()
    ensures Char(25) == 0x5a && Char(38) == 0x6d && Char(61) == 0x39 && Char(47) == 0x76
    ensures Char(24) == 0x59 && Char(5) == 0x46 && Char(50) == 0x79 && Char(32) == 0x67 && Char(60) == 0x38
  {
    Alphabet(25);
    Alphabet(38);
    Alphabet(61);
    Alphabet(47);
    Alphabet(24);
    Alphabet(5);
    Alphabet(50);
    Alphabet(32);
    Alphabet(60);
  }

  // ----- the loops -----

  lemma DigitsByMasks(a: Byte, b: Byte, c: Byte)
    ensures Digits(a, b, c) == [a / 4, a % 4 * 16 + b / 16, b % 16 * 4 + c / 64, c % 64]
  {
    var g := 0x1_0000 * a + 0x100 * b + c;
    assert g / 64 == 1024 * a + 4 * b + c / 64;
    assert g / 64 / 64 == 16 * a + b / 16;
    assert g / 64 / 64 / 64 == a / 4;
  }

  lemma GroupByMasks(d: seq<Sextet>)
    requires |d| == 4
    ensures Group(d) == [d[0] as int * 4 + d[1] / 16, d[1] as int % 16 * 16 + d[2] / 4, d[2] as int % 4 * 64 + d[3]]
  {
    var group := 0x4_0000 * d[0] as int + 0x1000 * d[1] as int + 64 * d[2] as int + d[3];
    assert group / 256 == 1024 * d[0] as int + 16 * d[1] as int + d[2] / 4;
    assert group / 256 / 256 == d[0] as int * 4 + d[1] / 16;
  }

  method ToDigits(charArray3: array<Byte>, charArray4: array<Sextet>)
    requires charArray3.Length == 3 && charArray4.Length == 4
    modifies charArray4
    ensures charArray4[..] == Digits(charArray3[0], charArray3[1], charArray3[2])
  {
    charArray4[0] := charArray3[0] / 4;
    charArray4[1] := charArray3[0] % 4 * 16 + charArray3[1] / 16;
    charArray4[2] := charArray3[1] % 16 * 4 + charArray3[2] / 64;
    charArray4[3] := charArray3[2] % 64;
    DigitsByMasks(charArray3[0], charArray3[1], charArray3[2]);
  }

  // The characters of the first `n` digits.
  method AppendChars(ret: seq<Byte>, charArray4: array<Sextet>, n: nat) returns (r: seq<Byte>)
    requires n <= charArray4.Length
    ensures r == ret + Chars(charArray4[..n])
  {
    r := ret;
    for j := 0 to n
      invariant r == ret + Chars(charArray4[..j])
    {
      r := r + [Char(charArray4[j])];
    }
  }

  // `base64_encode`
  method Base64Encode(bytes: seq<Byte>) returns (ret: seq<Byte>)
    ensures ret == Encode(bytes)
  {
    hide Encode;
    var charArray3, charArray4 := new Byte[3], new Sextet[4];
    ret := [];
    var i := 0;
    var k := 0;
    assert charArray3[..0] + bytes[0..] == bytes;
    while k < |bytes|
      invariant k <= |bytes| && 0 <= i < 3
      invariant ret + Encode(charArray3[..i] + bytes[k..]) == Encode(bytes)
    {
      assert charArray3[..i] + bytes[k..] == charArray3[..i] + [bytes[k]] + bytes[k + 1..];
      ret, i := EncodeByte(ret, bytes[k], i, charArray3, charArray4, bytes[k + 1..]);
      k := k + 1;
    }
    assert charArray3[..i] + bytes[k..] == charArray3[..i];
    if i > 0 {
      ret := EncodeTail(ret, charArray3, charArray4, i);
    } else {
      EncodeNothing(charArray3[..i]);
    }
  }

  lemma EncodeNothing(bytes: seq<Byte>)
    requires bytes == []
    ensures Encode(bytes) == []
  {
  }

  // One byte, and four characters after every third one.
  method EncodeByte(ret: seq<Byte>, byte: Byte, i: nat, charArray3: array<Byte>, charArray4: array<Sextet>,
                    ghost rest: seq<Byte>)
    returns (r: seq<Byte>, i': nat)
    requires i < 3 && charArray3.Length == 3 && charArray4.Length == 4
    modifies charArray3, charArray4
    ensures i' < 3
    ensures r + Encode(charArray3[..i'] + rest) == ret + Encode(old(charArray3[..i]) + [byte] + rest)
  {
    hide Digits, Chars;
    ghost var before := charArray3[..i] + [byte] + rest;
    r, i' := ret, i + 1;
    charArray3[i] := byte;
    assert before == charArray3[..i'] + rest;
    if i' == 3 {
      ToDigits(charArray3, charArray4);
      assert charArray4[..4] == charArray4[..];
      assert before[3..] == rest && before[..3] == charArray3[..3];
      r := AppendChars(ret, charArray4, 4);
      i' := 0;
      assert charArray3[..i'] + rest == rest;
    }
  }

  // The last one or two bytes.
  method EncodeTail(ret: seq<Byte>, charArray3: array<Byte>, charArray4: array<Sextet>, i: nat) returns (r: seq<Byte>)
    requires charArray3.Length == 3 && charArray4.Length == 4 && (i == 1 || i == 2)
    modifies charArray3, charArray4
    ensures r == ret + Encode(old(charArray3[..i]))
  {
    hide Digits, Chars, Encode;
    ghost var rest := charArray3[..i];
    for j := i to 3
      invariant charArray3[..i] == rest && (forall l :: i <= l < j ==> charArray3[l] == 0)
    {
      charArray3[j] := 0;
    }
    ToDigits(charArray3, charArray4);
    r := AppendChars(ret, charArray4, i + 1);
    assert rest[0] == charArray3[0] && (i == 2 ==> rest[1] == charArray3[1]);
    Padded(rest, charArray4[..], i);
    assert charArray4[..][..i + 1] == charArray4[..i + 1];
    var k := i;
    while k < 3
      invariant i <= k <= 3
      invariant r == ret + (Chars(charArray4[..i + 1]) + Pads(k - i))
    {
      r := r + [PAD];
      k := k + 1;
    }
  }

  function Pads(n: nat): (r: seq<Byte>)
    ensures |r| == n
  {
    seq(n, _ => PAD)
  }

  lemma Padded(rest: seq<Byte>, d: seq<Sextet>, n: nat)
    requires |rest| == n && (n == 1 || n == 2)
    requires d == Digits(rest[0], if n == 1 then 0 else rest[1], 0)
    ensures Encode(rest) == Chars(d[..n + 1]) + Pads(3 - n)
  {
    CharsTake(d, n + 1);
  }

  // ----- decoding -----

  method LookUp(charArray4: array<Byte>)
    requires charArray4.Length == 4
    modifies charArray4
    ensures charArray4[..] == Found(old(charArray4[..]))
  {
    hide Find;
    ghost var text := charArray4[..];
    for i := 0 to 4
      invariant forall k :: 0 <= k < 4 ==> charArray4[k] == if k < i then Find(text[k]) else text[k]
    {
      charArray4[i] := Find(charArray4[i]);
    }
  }

  // Looks up four characters and makes three bytes of them; a character outside the alphabet
  // counts as 255, and sums are cut to a byte.
  method ToBytes(charArray4: array<Byte>, charArray3: array<Byte>)
    requires charArray3.Length == 3 && charArray4.Length == 4
    modifies charArray3, charArray4
    ensures charArray4[..] == Found(old(charArray4[..]))
    ensures charArray3[..] == BytesOf(charArray4[..])
  {
    LookUp(charArray4);
    charArray3[0] := (charArray4[0] as int * 4 + charArray4[1] / 16 % 4) % 256;
    charArray3[1] := charArray4[1] as int % 16 * 16 + charArray4[2] / 4 % 16;
    charArray3[2] := (charArray4[2] as int % 4 * 64 + charArray4[3]) % 256;
  }

  function Found(text: seq<Byte>): (r: seq<Byte>)
    ensures |r| == |text|
  {
    seq(|text|, i requires 0 <= i < |text| => Find(text[i]))
  }

  function BytesOf(d: seq<Byte>): seq<Byte>
    requires |d| == 4
  {
    [(d[0] as int * 4 + d[1] / 16 % 4) % 256, d[1] as int % 16 * 16 + d[2] / 4 % 16,
     (d[2] as int % 4 * 64 + d[3]) % 256]
  }

  // For digits the bytes are those of the group, and the first `n` - 1 of them need `n` digits.
  lemma BytesOfDigits(d: seq<Byte>, n: nat)
    requires |d| == 4 && 1 <= n <= 4 && (forall i :: 0 <= i < n ==> d[i] < 64)
    ensures BytesOf(d)[..n - 1] == FromDigits(d[..n])
  {
    hide Group;
    if n == 4 {
      GroupByMasks(d);
      assert d[..4] == d && FromDigits(d[4..]) == [];
    } else if n == 3 {
      var padded: seq<Sextet> := d[..n] + [0];
      GroupByMasks(padded);
      assert BytesOf(d)[..2] == Group(padded)[..2];
    } else if n == 2 {
      var padded: seq<Sextet> := d[..n] + [0, 0];
      GroupByMasks(padded);
      assert BytesOf(d)[..1] == Group(padded)[..1];
    }
  }

  // `base64_decode`: reads up to the first byte that is not in the alphabet, '=' included.
  method Base64Decode(text: seq<Byte>) returns (ret: seq<Byte>)
    ensures ret == Decode(text)
  {
    hide FromDigits;
    var charArray4, charArray3 := new Byte[4], new Byte[3];
    ret := [];
    var i := 0;
    var k := 0;
    assert text[0..] == text && Digitised(charArray4[..0]) + ReadDigits(text) == ReadDigits(text);
    while k < |text| && text[k] != PAD && IsBase64(text[k])
      invariant k <= |text| && 0 <= i < 4 && (forall j :: 0 <= j < i ==> IsBase64(charArray4[j]))
      invariant ret + FromDigits(Digitised(charArray4[..i]) + ReadDigits(text[k..])) == Decode(text)
    {
      DigitRead(charArray4[..i], text, k);
      ret, i := DecodeChar(ret, text[k], i, charArray4, charArray3, ReadDigits(text[k + 1..]));
      k := k + 1;
    }
    assert ReadDigits(text[k..]) == [];
    assert Digitised(charArray4[..i]) + [] == Digitised(charArray4[..i]);
    if i > 0 {
      ret := DecodeTail(ret, i, charArray4, charArray3);
    } else {
      assert Digitised(charArray4[..i]) == [];
      NoDigits();
    }
  }

  lemma NoDigits()
    ensures FromDigits([]) == []
  {
  }

  function Digitised(text: seq<Byte>): (r: seq<Sextet>)
    requires forall i :: 0 <= i < |text| ==> IsBase64(text[i])
    ensures |r| == |text|
  {
    seq(|text|, i requires 0 <= i < |text| => Find(text[i]))
  }

  lemma DigitRead(kept: seq<Byte>, text: seq<Byte>, k: nat)
    requires k < |text| && IsBase64(text[k]) && (forall i :: 0 <= i < |kept| ==> IsBase64(kept[i]))
    ensures Digitised(kept) + ReadDigits(text[k..]) == Digitised(kept + [text[k]]) + ReadDigits(text[k + 1..])
  {
    hide Find;
    assert text[k..][1..] == text[k + 1..];
  }

  method DecodeChar(ret: seq<Byte>, c: Byte, i: nat, charArray4: array<Byte>, charArray3: array<Byte>,
                    ghost rest: seq<Sextet>)
    returns (r: seq<Byte>, i': nat)
    requires i < 4 && charArray4.Length == 4 && charArray3.Length == 3
    requires IsBase64(c) && (forall j :: 0 <= j < i ==> IsBase64(charArray4[j]))
    modifies charArray4, charArray3
    ensures i' < 4 && (forall j :: 0 <= j < i' ==> IsBase64(charArray4[j]))
    ensures r + FromDigits(Digitised(charArray4[..i']) + rest)
            == ret + FromDigits(Digitised(old(charArray4[..i]) + [c]) + rest)
  {
    hide FromDigits, Find, BytesOf;
    ghost var kept := charArray4[..i] + [c];
    r, i' := ret, i + 1;
    charArray4[i] := c;
    assert charArray4[..i'] == kept;
    if i' == 4 {
      assert charArray4[..] == kept;
      ToBytes(charArray4, charArray3);
      assert charArray4[..] == Digitised(kept);
      BytesOfDigits(charArray4[..], 4);
      r := AppendBytes(ret, charArray3, 3);
      i' := 0;
      FullGroup(Digitised(kept), rest);
      assert charArray4[..][..4] == Digitised(kept);
      assert Digitised(charArray4[..i']) + rest == rest;
    }
  }

  lemma FullGroup(d: seq<Sextet>, rest: seq<Sextet>)
    requires |d| == 4
    ensures FromDigits(d + rest) == FromDigits(d) + FromDigits(rest)
  {
    hide Group;
    assert (d + rest)[..4] == d && (d + rest)[4..] == rest;
    assert d[..4] == d && d[4..] == [];
  }

  method AppendBytes(ret: seq<Byte>, charArray3: array<Byte>, n: nat) returns (r: seq<Byte>)
    requires n <= charArray3.Length
    ensures r == ret + charArray3[..n]
  {
    r := ret;
    for j := 0 to n
      invariant r == ret + charArray3[..j]
    {
      r := r + [charArray3[j]];
    }
  }

  // Up to three characters that are left over.
  method DecodeTail(ret: seq<Byte>, i: nat, charArray4: array<Byte>, charArray3: array<Byte>) returns (r: seq<Byte>)
    requires 0 < i < 4 && charArray4.Length == 4 && charArray3.Length == 3
    requires forall j :: 0 <= j < i ==> IsBase64(charArray4[j])
    modifies charArray4, charArray3
    ensures r == ret + FromDigits(Digitised(old(charArray4[..i])))
  {
    hide FromDigits, Find, BytesOf;
    ghost var kept := charArray4[..i];
    for j := i to 4
      invariant charArray4[..i] == kept
    {
      charArray4[j] := 0;
    }
    ghost var all := charArray4[..];
    assert all[..i] == kept;
    ToBytes(charArray4, charArray3);
    assert charArray4[..][..i] == Digitised(kept);
    BytesOfDigits(charArray4[..], i);
    r := AppendBytes(ret, charArray3, i - 1);
    assert charArray3[..][..i - 1] == charArray3[..i - 1];
  }
}
