/** Reading decimal numbers: `strToInt` for the numbers of a query, `read_int` for numbers in
    commands and configuration, and the "%d" that prints a number into a cell.

    `int` is 32 bits wide.  A number that does not fit is computed modulo 2^32, as the server's
    platform does it.
 */
module DecimalReaders {
  import opened Bytes

  const MINUS: Byte := 0x2d
  const ZERO: Byte := 0x30

  predicate IsDigit(c: Byte) {
    0x30 <= c <= 0x39
  }

  // Two's complement.
  function Wrap(x: int): int {
    (x + 0x8000_0000) % 0x1_0000_0000 - 0x8000_0000
  }

  // ----- meaning and printed form -----

  predicate AllDigits(s: seq<Byte>) {
    forall i :: 0 <= i < |s| ==> IsDigit(s[i])
  }

  // The number that a sequence of digits stands for.
  function Value(s: seq<Byte>): nat
    requires AllDigits(s)
  {
    if s == [] then 0 else 10 * Value(s[..|s| - 1]) + (s[|s| - 1] - ZERO)
  }

  function PrintNat(n: nat): (s: seq<Byte>)
    ensures s != [] && AllDigits(s) && Value(s) == n
    ensures n > 0 ==> s[0] != ZERO
  {
    if n < 10 then
      var s: seq<Byte> := [ZERO + n];
      assert s[..0] == [];
      s
    else
      var front := PrintNat(n / 10);
      var s := front + [ZERO + n % 10];
      assert s[..|s| - 1] == front;
      s
  }

  // printf("%d")
  function Print(n: int): seq<Byte> {
    if n < 0 then [MINUS] + PrintNat(-n) else PrintNat(n)
  }

  // The digits that `s` starts with.
  function Digits(s: seq<Byte>): (d: seq<Byte>)
    ensures |d| <= |s| && d == s[..|d|] && AllDigits(d)
    ensures |d| < |s| ==> !IsDigit(s[|d|])
  {
    if s == [] || !IsDigit(s[0]) then [] else [s[0]] + Digits(s[1..])
  }

  // The number a token starts with, behind an optional minus sign.
  function TokenValue(s: seq<Byte>): int {
    if s != [] && s[0] == MINUS then -(Value(Digits(s[1..])) as int) else Value(Digits(s))
  }

  // ----- laws -----

  lemma {:induction false} DigitsOfAll(d: seq<Byte>, rest: seq<Byte>)
    requires AllDigits(d) && (rest != [] ==> !IsDigit(rest[0]))
    ensures Digits(d + rest) == d
  {
    if d == [] {
      assert d + rest == rest;
    } else {
      assert (d + rest)[1..] == d[1..] + rest;
      DigitsOfAll(d[1..], rest);
    }
  }

  // The number that was printed is read back.
  lemma PrintedIsRead(n: int)
    ensures TokenValue(Print(n)) == n
  {
    var d := PrintNat(if n < 0 then -n else n);
    DigitsOfAll(d, []);
    assert d + [] == d;
    if n < 0 {
      assert Print(n)[1..] == d;
    }
  }

  lemma WrapKeeps(n: int)
    requires -0x8000_0000 <= n < 0x8000_0000
    ensures Wrap(n) == n
  {
  }

  lemma {:induction false} ValueOfConcat(z: seq<Byte>, d: seq<Byte>)
    requires AllDigits(z) && AllDigits(d) && Value(z) == 0
    ensures AllDigits(z + d) && Value(z + d) == Value(d)
    decreases |d|
  {
    if d == [] {
      assert z + d == z;
    } else {
      var front := d[..|d| - 1];
      ValueOfConcat(z, front);
      assert (z + d)[..|z + d| - 1] == z + front;
    }
  }

  lemma {:induction false} ZerosAreNothing(z: seq<Byte>)
    requires forall i :: 0 <= i < |z| ==> z[i] == ZERO
    ensures AllDigits(z) && Value(z) == 0
    decreases |z|
  {
    if z != [] {
      ZerosAreNothing(z[..|z| - 1]);
    }
  }

  lemma {:induction false} DigitsBehind(z: seq<Byte>, s: seq<Byte>)
    requires AllDigits(z)
    ensures Digits(z + s) == z + Digits(s)
  {
    if z == [] {
      assert z + s == s;
    } else {
      assert (z + s)[1..] == z[1..] + s;
      DigitsBehind(z[1..], s);
    }
  }

  // Zeros in front of the digits change nothing, with or without a sign.
  lemma LeadingZeros(z: seq<Byte>, s: seq<Byte>)
    requires forall i :: 0 <= i < |z| ==> z[i] == ZERO
    requires s != [] && IsDigit(s[0])
    ensures TokenValue(z + s) == TokenValue(s)
    ensures TokenValue([MINUS] + z + s) == TokenValue([MINUS] + s)
  {
    hide Value, Digits;
    ZerosAreNothing(z);
    DigitsBehind(z, s);
    ValueOfConcat(z, Digits(s));
    assert ([MINUS] + z + s)[1..] == z + s && ([MINUS] + s)[1..] == s;
    assert (z + s)[0] != MINUS;
  }

  // ----- strToInt -----

  lemma WrapStep(x: int, d: int)
    ensures Wrap(10 * Wrap(x) + d) == Wrap(10 * x + d)
  {
    var k := (x + 0x8000_0000) / 0x1_0000_0000;
    assert Wrap(x) == x - 0x1_0000_0000 * k;
    WrapShift(10 * x + d, -10 * k);
  }

  lemma WrapShift(x: int, k: int)
    ensures Wrap(x + 0x1_0000_0000 * k) == Wrap(x)
  {
    var y := x + 0x8000_0000;
    assert (y + 0x1_0000_0000 * k) % 0x1_0000_0000 == y % 0x1_0000_0000;
  }

  lemma WrapNegative(x: int)
    ensures Wrap(-Wrap(x)) == Wrap(-x)
  {
    var k := (x + 0x8000_0000) / 0x1_0000_0000;
    assert Wrap(x) == x - 0x1_0000_0000 * k;
    WrapShift(-x, k);
  }

  lemma WrapTwice(x: int)
    ensures Wrap(Wrap(x)) == Wrap(x)
  {
  }

  // A token of length 0 is read like one of length 1.
  function TokenOf(buffer: seq<Byte>, len: nat): seq<Byte>
    requires len <= |buffer| && buffer != []
  {
    buffer[..if len == 0 then 1 else len]
  }

  lemma DigitsEnd(t: seq<Byte>, k: nat)
    requires k <= |t| && AllDigits(t[..k]) && (k < |t| ==> !IsDigit(t[k]))
    ensures Digits(t) == t[..k]
  {
    DigitsOfAll(t[..k], t[k..]);
    assert t[..k] + t[k..] == t;
  }

  lemma OneMoreDigit(t: seq<Byte>, k: nat)
    requires k < |t| && AllDigits(t[..k]) && IsDigit(t[k])
    ensures AllDigits(t[..k + 1]) && Value(t[..k + 1]) == 10 * Value(t[..k]) + (t[k] - ZERO)
  {
    assert t[..k + 1][..k] == t[..k];
  }

  lemma NoDigits()
    ensures Value([]) == 0 && Wrap(0) == 0
  {
  }

  // Both loops of `strToInt`, over the `left` characters behind the sign, or over one.
  method UnsignedValue(buffer: seq<Byte>, start: nat, len: int) returns (value: int)
    requires start + (if len <= 0 then 1 else len) <= |buffer|
    ensures value == Wrap(Value(Digits(buffer[start..start + if len <= 0 then 1 else len])))
  {
    hide Wrap, Value, Digits;
    ghost var t := buffer[start..start + if len <= 0 then 1 else len];
    var p := start;
    var left := len;
    NoDigits();
    value := 0;
    while buffer[p] == ZERO
      invariant start <= p < start + |t| && left == len - (p - start) && (p > start ==> left > 0)
      invariant AllDigits(t[..p - start]) && Value(t[..p - start]) == 0
      decreases |buffer| - p
    {
      OneMoreDigit(t, p - start);
      p := p + 1;
      left := left - 1;
      if left <= 0 {
        DigitsEnd(t, |t|);
        return 0;
      }
    }
    while true
      invariant start <= p < start + |t| && left == len - (p - start) && (p > start ==> left > 0)
      invariant AllDigits(t[..p - start]) && value == Wrap(Value(t[..p - start]))
      decreases |buffer| - p
    {
      assert t[p - start] == buffer[p];
      if buffer[p] > 0x39 || buffer[p] < 0x30 {
        DigitsEnd(t, p - start);
        return;
      }
      OneMoreDigit(t, p - start);
      WrapStep(Value(t[..p - start]), buffer[p] - ZERO);
      value := Wrap(value * 10 + (buffer[p] - ZERO));
      p := p + 1;
      left := left - 1;
      if left <= 0 {
        DigitsEnd(t, |t|);
        return;
      }
    }
  }

  method StrToInt(buffer: seq<Byte>, len: nat) returns (r: int)
    requires len <= |buffer| && buffer != []
    ensures r == Wrap(TokenValue(TokenOf(buffer, len)))
  {
    hide Wrap, Value, Digits;
    ghost var token := TokenOf(buffer, len);
    var p := 0;
    var left: int := len;
    var positiv := 1;
    if buffer[p] == MINUS {
      positiv := -1;
      p := p + 1;
      left := left - 1;
      if left <= 0 {
        assert token[1..] == [];
        NoDigits();
        DigitsEnd([], 0);
        return 0;
      }
    }
    var value := UnsignedValue(buffer, p, left);
    assert buffer[p..p + if left <= 0 then 1 else left] == token[p..];
    ghost var x := Value(Digits(token[p..]));
    WrapNegative(x);
    WrapTwice(x);
    assert token[0..] == token;
    r := Wrap(positiv * value);
  }

  // What `strToInt` makes of the printed form of an `int` is that `int`.
  lemma IntRoundTrip(n: int, rest: seq<Byte>)
    requires -0x8000_0000 <= n < 0x8000_0000
    ensures var s := Print(n);
            && TokenOf(s + rest, |s|) == s
            && Wrap(TokenValue(TokenOf(s + rest, |s|))) == n
  {
    var s := Print(n);
    assert (s + rest)[..|s|] == s;
    PrintedIsRead(n);
    WrapKeeps(n);
  }

  // ----- read_int -----

  function StripZeros(s: seq<Byte>): (r: seq<Byte>)
    ensures r != [] ==> r[0] != ZERO
    ensures |r| <= |s| && r == s[|s| - |r|..] && (forall i :: 0 <= i < |s| - |r| ==> s[i] == ZERO)
  {
    if s != [] && s[0] == ZERO then StripZeros(s[1..]) else s
  }

  // The digits in front of the delimiter.
  function DigitsUpTo(s: seq<Byte>, delimiter: Byte): (d: seq<Byte>)
    ensures |d| <= |s| && d == s[..|d|] && AllDigits(d) && delimiter !in d
    ensures |d| < |s| ==> s[|d|] == delimiter || !IsDigit(s[|d|])
  {
    if s == [] || s[0] == delimiter || !IsDigit(s[0]) then [] else [s[0]] + DigitsUpTo(s[1..], delimiter)
  }

  // -1 unless at most nine significant digits and the delimiter come first.
  function IntBefore(s: seq<Byte>, delimiter: Byte): int {
    var t := StripZeros(s);
    var d := DigitsUpTo(t, delimiter);
    if |d| <= 9 && |d| < |t| && t[|d|] == delimiter then Value(d) else -1
  }

  lemma {:induction false} DigitsUpToIs(s: seq<Byte>, delimiter: Byte, k: nat)
    requires k <= |s| && AllDigits(s[..k]) && delimiter !in s[..k]
    ensures |DigitsUpTo(s, delimiter)| >= k
    ensures k < |s| && (s[k] == delimiter || !IsDigit(s[k])) ==> DigitsUpTo(s, delimiter) == s[..k]
  {
    if k > 0 {
      assert s[0] == s[..k][0] && s[1..][..k - 1] == s[..k][1..];
      DigitsUpToIs(s[1..], delimiter, k - 1);
    }
  }

  method SkipZeros(buffer: seq<Byte>) returns (p: nat)
    requires buffer != [] && buffer[|buffer| - 1] == 0
    ensures p < |buffer| && buffer[p..] == StripZeros(buffer)
  {
    p := 0;
    assert buffer[0..] == buffer;
    while buffer[p] == ZERO
      invariant p < |buffer| && StripZeros(buffer[p..]) == StripZeros(buffer)
      decreases |buffer| - p
    {
      assert buffer[p..][1..] == buffer[p + 1..];
      p := p + 1;
    }
  }

  // The first `delta` characters are digits in front of the delimiter, and stand for `len`.
  predicate Taken(t: seq<Byte>, delta: nat, delimiter: Byte, len: int) {
    delta <= |t| && AllDigits(t[..delta]) && delimiter !in t[..delta] && len == Value(t[..delta])
  }

  lemma TakeDigit(t: seq<Byte>, delta: nat, delimiter: Byte, len: int)
    requires Taken(t, delta, delimiter, len) && delta < |t| && IsDigit(t[delta]) && t[delta] != delimiter
    ensures Taken(t, delta + 1, delimiter, len * 10 + (t[delta] - ZERO))
  {
    hide Value;
    OneMoreDigit(t, delta);
    assert t[..delta + 1] == t[..delta] + [t[delta]];
  }

  lemma TakenIsRefused(s: seq<Byte>, delta: nat, delimiter: Byte, len: int)
    requires Taken(StripZeros(s), delta, delimiter, len)
    requires delta > 9 || (delta < |StripZeros(s)| && StripZeros(s)[delta] != delimiter
                           && !IsDigit(StripZeros(s)[delta]))
    ensures IntBefore(s, delimiter) == -1
  {
    hide StripZeros, Value, DigitsUpTo;
    DigitsUpToIs(StripZeros(s), delimiter, delta);
  }

  lemma TakenIsRead(s: seq<Byte>, delta: nat, delimiter: Byte, len: int)
    requires Taken(StripZeros(s), delta, delimiter, len) && delta <= 9
    requires delta < |StripZeros(s)| && StripZeros(s)[delta] == delimiter
    ensures IntBefore(s, delimiter) == len
  {
    hide StripZeros, Value, DigitsUpTo;
    DigitsUpToIs(StripZeros(s), delimiter, delta);
  }

  lemma NothingTaken(t: seq<Byte>, delimiter: Byte)
    ensures Taken(t, 0, delimiter, 0)
  {
  }

  method ReadInt(buffer: seq<Byte>, delimiter: Byte) returns (len: int)
    requires buffer != [] && buffer[|buffer| - 1] == 0
    ensures len == IntBefore(buffer, delimiter)
  {
    hide StripZeros, Taken, IntBefore;
    var p := SkipZeros(buffer);
    ghost var t := StripZeros(buffer);
    var delta := 0;
    len := 0;
    NothingTaken(t, delimiter);
    while buffer[p] != delimiter
      invariant delta <= p < |buffer| && delta <= 9 && t == buffer[p - delta..]
      invariant Taken(t, delta, delimiter, len)
      decreases |buffer| - p
    {
      assert t[delta] == buffer[p];
      if buffer[p] > 0x39 || buffer[p] < 0x30 {
        TakenIsRefused(buffer, delta, delimiter, len);
        return -1;
      }
      TakeDigit(t, delta, delimiter, len);
      len := len * 10 + (buffer[p] - ZERO);
      p := p + 1;
      delta := delta + 1;
      if delta > 9 {
        TakenIsRefused(buffer, delta, delimiter, len);
        return -1;
      }
    }
    TakenIsRead(buffer, delta, delimiter, len);
  }

  lemma DigitsThenDelimiter(t: seq<Byte>, delimiter: Byte, rest: seq<Byte>)
    requires AllDigits(t) && !IsDigit(delimiter)
    ensures var all := t + ([delimiter] + rest);
            |t| < |all| && all[|t|] == delimiter && DigitsUpTo(all, delimiter) == t
  {
    hide DigitsUpTo;
    var all := t + ([delimiter] + rest);
    assert all[..|t|] == t && all[|t|] == delimiter;
    DigitsUpToIs(all, delimiter, |t|);
  }

  lemma IntBeforeLiteral(s: seq<Byte>, delimiter: Byte, rest: seq<Byte>)
    requires AllDigits(s) && s != [] && !IsDigit(delimiter)
    ensures AllDigits(StripZeros(s))
    ensures IntBefore(s + [delimiter] + rest, delimiter) == if |StripZeros(s)| <= 9 then Value(StripZeros(s)) else -1
  {
    hide Value, StripZeros, DigitsUpTo;
    var t := StripZeros(s);
    StripBefore(s, [delimiter] + rest);
    assert s + [delimiter] + rest == s + ([delimiter] + rest);
    DigitsThenDelimiter(t, delimiter, rest);
  }

  lemma StrippedValue(s: seq<Byte>)
    requires AllDigits(s) && s != []
    ensures AllDigits(StripZeros(s)) && TokenValue(s) == Value(s) == Value(StripZeros(s))
  {
    hide Value, Digits, StripZeros;
    var t := StripZeros(s);
    DigitsOfAll(s, []);
    assert s + [] == s;
    var z := s[..|s| - |t|];
    ZerosAreNothing(z);
    ValueOfConcat(z, t);
    assert z + t == s;
  }

  lemma WrapsToMinusOne(x: int)
    ensures Wrap(x) == -1 <==> x % 0x1_0000_0000 == 0xffff_ffff
  {
    var k := x / 0x1_0000_0000;
    WrapShift(x % 0x1_0000_0000, k);
    assert x == x % 0x1_0000_0000 + 0x1_0000_0000 * k;
  }

  // On a literal before a delimiter that is no digit the two readers give the same `int` exactly
  // when it has at most nine significant digits, or when `strToInt` wraps around to the -1 with
  // which `read_int` refuses it.
  lemma ReadersAgreeIff(s: seq<Byte>, delimiter: Byte, rest: seq<Byte>)
    requires AllDigits(s) && s != [] && !IsDigit(delimiter)
    ensures IntBefore(s + [delimiter] + rest, delimiter) == Wrap(TokenValue(s)) <==>
            |StripZeros(s)| <= 9 || Value(s) % 0x1_0000_0000 == 0xffff_ffff
    ensures |StripZeros(s)| <= 9 ==> Wrap(TokenValue(s)) == Value(s)
  {
    hide Value, Wrap, IntBefore, TokenValue, StripZeros;
    IntBeforeLiteral(s, delimiter, rest);
    StrippedValue(s);
    if |StripZeros(s)| <= 9 {
      NineDigits(StripZeros(s));
    } else {
      WrapsToMinusOne(Value(s));
    }
  }

  // "4294967295" has ten digits, and both readers make -1 of it.
  lemma TenDigitsAgree(delimiter: Byte, rest: seq<Byte>)
    requires !IsDigit(delimiter)
    ensures var s: seq<Byte> := [0x34, 0x32, 0x39, 0x34, 0x39, 0x36, 0x37, 0x32, 0x39, 0x35];
            && AllDigits(s) && Value(s) == 4294967295 && |StripZeros(s)| == 10
            && IntBefore(s + [delimiter] + rest, delimiter) == Wrap(TokenValue(s)) == -1
  {
    var s: seq<Byte> := [0x34, 0x32, 0x39, 0x34, 0x39, 0x36, 0x37, 0x32, 0x39, 0x35];
    hide Value, TokenValue, IntBefore, DigitsUpTo;
    assert StripZeros(s) == s;
    TenDigits(s);
    IntBeforeLiteral(s, delimiter, rest);
    StrippedValue(s);
    WrapsToMinusOne(4294967295);
  }

  lemma TenDigits(s: seq<Byte>)
    requires s == [0x34, 0x32, 0x39, 0x34, 0x39, 0x36, 0x37, 0x32, 0x39, 0x35]
    ensures AllDigits(s) && Value(s) == 4294967295
  {
    hide Value;
    NoDigits();
    assert s[..0] == [];
    FiveDigits(s, 0, 0);
    FiveDigits(s, 5, 42949);
    assert s[..10] == s;
  }

  lemma FiveDigits(s: seq<Byte>, k: nat, before: nat)
    requires k + 5 <= |s| && AllDigits(s) && Value(s[..k]) == before
    ensures Value(s[..k + 5]) == before * 100000 + (s[k] - ZERO) * 10000 + (s[k + 1] - ZERO) * 1000
                                 + (s[k + 2] - ZERO) * 100 + (s[k + 3] - ZERO) * 10 + (s[k + 4] - ZERO)
  {
    hide Value;
    OneMoreDigit(s, k);
    OneMoreDigit(s, k + 1);
    OneMoreDigit(s, k + 2);
    OneMoreDigit(s, k + 3);
    OneMoreDigit(s, k + 4);
  }

  lemma {:induction false} StripBefore(s: seq<Byte>, rest: seq<Byte>)
    requires AllDigits(s) && rest != [] && rest[0] != ZERO
    ensures StripZeros(s + rest) == StripZeros(s) + rest
  {
    if s == [] {
      assert s + rest == rest;
    } else {
      assert (s + rest)[1..] == s[1..] + rest;
      StripBefore(s[1..], rest);
    }
  }

  lemma {:induction false} ValueBelow(d: seq<Byte>, bound: nat)
    requires AllDigits(d) && |d| <= 9 && bound == Power10(|d|)
    ensures Value(d) < bound
    decreases |d|
  {
    if d != [] {
      ValueBelow(d[..|d| - 1], Power10(|d| - 1));
    }
  }

  function Power10(k: nat): nat {
    if k == 0 then 1 else 10 * Power10(k - 1)
  }

  lemma NineDigits(t: seq<Byte>)
    requires AllDigits(t) && |t| <= 9
    ensures Wrap(Value(t)) == Value(t)
  {
    ValueBelow(t, Power10(|t|));
    PowerSmall(|t|);
    WrapKeeps(Value(t));
  }

  lemma PowerSmall(k: nat)
    requires k <= 9
    ensures Power10(k) <= 1_000_000_000
  {
    assert Power10(3) == 1000;
    assert Power10(6) == 1_000_000;
    assert Power10(9) == 1_000_000_000;
  }
}
