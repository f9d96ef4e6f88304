/** The packets of the MySQL protocol as `MySqlProtocol.cpp` writes them into the answer buffer.

    Every writer puts its bytes at an offset of a buffer and returns how far it got; each is proved
    to write exactly the bytes that a function gives and nothing else.  The column packets skip
    three bytes, which keep whatever the buffer held.
 */
module MySqlProtocol {
  import opened Bytes

  // ----- the bytes of the packets -----

  function Le3(n: nat): seq<Byte> {
    [n % 256, n / 256 % 256, n / 65536 % 256]
  }

  function Le8(n: nat): seq<Byte> {
    Le3(n) + [n / 0x100_0000 % 256, n / 0x1_0000_0000 % 256, n / 0x100_0000_0000 % 256,
              n / 0x1_0000_0000_0000 % 256, n / 0x100_0000_0000_0000 % 256]
  }

  // `LengthEncodedInteger::setToBuff`.  A 3-byte number takes five bytes, one more than the
  // protocol gives it.
  function LengthEncoded(value: nat): (r: seq<Byte>)
    ensures 1 <= |r| <= 9
    ensures value < 251 ==> |r| == 1
    ensures 251 <= value < 0x1_0000 ==> |r| == 3
  {
    if value < 251 then [value]
    else if value < 0x1_0000 then [0xfc, value % 256, value / 256]
    else if value < 0x100_0000 then [0xfd] + Le3(value) + [0]
    else [0xfe] + Le8(value)
  }

  const INLINE_DATA := 255
  const INLINE_TEXT := 250

  datatype LongData = NoLongData | LongData(text: seq<Byte>)

  // A cell: up to 250 bytes in place, longer texts in storage of their own.
  datatype ResulValue = ResulValue(data: seq<Byte>, longData: LongData)

  function Zeros(n: nat): seq<Byte> {
    seq(n, _ => 0)
  }

  const CLEAR := ResulValue(Zeros(INLINE_DATA), NoLongData)

  predicate CellOk(v: ResulValue) {
    && |v.data| == INLINE_DATA && StrLen(v.data) <= INLINE_TEXT
    && (v.longData.LongData? ==> |v.longData.text| > INLINE_TEXT)
  }

  type Cell = v: ResulValue | CellOk(v) witness CLEAR

  // `setValue` on any cell: it is cleared before it is filled.
  function SetValue(text: seq<Byte>): Cell {
    if |text| == 0 then CLEAR
    else if |text| > INLINE_TEXT then CLEAR.(longData := LongData(text))
    else
      var data := text + Zeros(INLINE_DATA - |text|);
      assert data[|text|] == 0;
      ResulValue(data, NoLongData)
  }

  function CellBytes(v: Cell): (r: seq<Byte>)
    ensures |r| >= 1
  {
    match v.longData
    case LongData(text) => LengthEncoded(|text|) + text
    case NoLongData => [StrLen(v.data)] + CString(v.data)
  }

  function CellsBytes(row: seq<Cell>): seq<Byte> {
    if row == [] then [] else CellBytes(row[0]) + CellsBytes(row[1..])
  }

  // A packet: its length in three bytes, its number, its payload.
  function PacketBytes(payload: seq<Byte>, number: nat): seq<Byte> {
    Le3(|payload|) + [number % 256] + payload
  }

  function RowBytes(row: seq<Cell>, number: nat): seq<Byte> {
    PacketBytes(CellsBytes(row), number)
  }

  const EOF_PAYLOAD: seq<Byte> := [0xfe, 0x00, 0x00, 0x02, 0x00]

  function EofBytes(number: nat): seq<Byte> {
    PacketBytes(EOF_PAYLOAD, number)
  }

  function CountBytes(columns: Byte, number: nat): seq<Byte> {
    PacketBytes([columns], number)
  }

  // An error as `setError` keeps it: a 16-bit code and a text that fits with its NUL.
  type ErrorCode = x: int | 0 <= x < 0x1_0000
  type ErrorText = s: seq<Byte> | |s| < 250 && NulFree(s) witness []

  datatype Failure = Failure(code: ErrorCode, text: ErrorText)

  const SQL_STATE: seq<Byte> := [0x48, 0x59, 0x30, 0x30, 0x30]     // HY000

  function ErrPayload(failure: Failure): seq<Byte> {
    [0xff, failure.code % 256, failure.code / 256, 0x23] + SQL_STATE + failure.text
  }

  function ErrBytes(failure: Failure, number: nat): seq<Byte> {
    PacketBytes(ErrPayload(failure), number)
  }

  const MAX_ERROR := 13 + 249

  // What a column can keep as its name.
  type Name = s: seq<Byte> | |s| <= 250 && NulFree(s) witness []

  // The name a column keeps: at most 250 bytes, up to the first NUL.
  function ColumnName(text: seq<Byte>): Name {
    CString(if |text| > 250 then text[..250] else text)
  }

  function ColumnNames(texts: seq<seq<Byte>>): (r: seq<Name>)
    ensures |r| == |texts|
  {
    seq(|texts|, i requires 0 <= i < |texts| => ColumnName(texts[i]))
  }

  // `flags` and the filler are the bytes that were in the buffer.
  function ColumnPayload(name: Name, flags: Byte, filler: seq<Byte>): (r: seq<Byte>)
    requires |filler| == 2
    ensures |r| == 22 + |name|
  {
    [3, 0x64, 0x65, 0x66, 0, 0, 0, |name|] + name
    + [0, 0x0c, 0x21, 0x00, 0x4d, 0x00, 0x00, 0x00, 0xfd, 0x01, flags, 0x1f] + filler
  }

  function ColumnSize(name: Name): nat {
    26 + |name|
  }

  // The packet of one column when it is written at `off` into the buffer `before`.
  function ColumnBytes(name: Name, number: nat, before: seq<Byte>, off: nat): (r: seq<Byte>)
    requires off + ColumnSize(name) <= |before|
    ensures |r| == ColumnSize(name)
  {
    var end := off + ColumnSize(name);
    PacketBytes(ColumnPayload(name, before[end - 4], before[end - 2..end]), number)
  }

  function ColumnsSize(names: seq<Name>): nat {
    if names == [] then 0 else ColumnSize(names[0]) + ColumnsSize(names[1..])
  }

  function ColumnsBytes(names: seq<Name>, number: nat, before: seq<Byte>, off: nat): (r: seq<Byte>)
    requires off + ColumnsSize(names) <= |before|
    ensures |r| == ColumnsSize(names)
    decreases |names|
  {
    if names == [] then []
    else ColumnBytes(names[0], number, before, off)
         + ColumnsBytes(names[1..], number + 1, before, off + ColumnSize(names[0]))
  }

  function HeadSize(names: seq<Name>): nat {
    5 + ColumnsSize(names) + 9
  }

  lemma {:induction false} SmallHead(names: seq<Name>)
    ensures HeadSize(names) <= 14 + |names| * 276
  {
    if names != [] {
      SmallHead(names[1..]);
    }
  }

  // The head of an answer: the number of columns, the columns, EOF; `number` is that of the first packet.
  function HeadBytes(names: seq<Name>, number: nat, before: seq<Byte>, off: nat): (r: seq<Byte>)
    requires |names| < 256 && off + HeadSize(names) <= |before|
    ensures |r| == HeadSize(names)
  {
    CountBytes(|names|, number) + ColumnsBytes(names, number + 1, before, off + 5) + EofBytes(number + 1 + |names|)
  }

  // ----- writing into a buffer -----

  // `after` is `before` with `bytes` at `off`.
  predicate Wrote(before: seq<Byte>, after: seq<Byte>, off: nat, bytes: seq<Byte>) {
    && off + |bytes| <= |before| == |after|
    && after[..off] == before[..off]
    && after[off..off + |bytes|] == bytes
    && after[off + |bytes|..] == before[off + |bytes|..]
  }

  lemma WroteThen(a: seq<Byte>, b: seq<Byte>, c: seq<Byte>, off: nat, x: seq<Byte>, y: seq<Byte>)
    requires Wrote(a, b, off, x) && Wrote(b, c, off + |x|, y)
    ensures Wrote(a, c, off, x + y)
  {
    assert c[..off] == c[..off + |x|][..off] == b[..off];
    assert c[off..off + |x|] == c[..off + |x|][off..] == b[off..off + |x|];
    assert b[off + |x|..][|y|..] == b[off + |x| + |y|..];
    assert a[off + |x|..][|y|..] == a[off + |x| + |y|..];
    assert c[off..off + |x + y|] == c[off..off + |x|] + c[off + |x|..off + |x| + |y|];
  }

  // memcpy
  method Put(buff: array<Byte>, off: nat, bytes: seq<Byte>)
    requires off + |bytes| <= buff.Length
    modifies buff
    ensures Wrote(old(buff[..]), buff[..], off, bytes)
  {
    for i := 0 to |bytes|
      invariant forall k :: 0 <= k < i ==> buff[off + k] == bytes[k]
      invariant forall k :: 0 <= k < buff.Length && !(off <= k < off + i) ==> buff[k] == old(buff[k])
    {
      buff[off + i] := bytes[i];
    }
  }

  lemma PutByte(a: seq<Byte>, off: nat, byte: Byte)
    requires off < |a|
    ensures Wrote(a, a[off := byte], off, [byte])
  {
  }

  lemma WroteBeyond(a: seq<Byte>, b: seq<Byte>, off: nat, bytes: seq<Byte>, k: nat)
    requires Wrote(a, b, off, bytes) && off + |bytes| <= k <= |a|
    ensures b[k..] == a[k..]
  {
    var end := off + |bytes|;
    assert b[k..] == b[end..][k - end..] && a[k..] == a[end..][k - end..];
  }

  // A prefix byte and the bytes behind it.
  method PutTagged(buff: array<Byte>, off: nat, tag: Byte, bytes: seq<Byte>)
    requires off + 1 + |bytes| <= buff.Length
    modifies buff
    ensures Wrote(old(buff[..]), buff[..], off, [tag] + bytes)
  {
    ghost var before := buff[..];
    PutByte(before, off, tag);
    buff[off] := tag;
    ghost var b := buff[..];
    assert b == before[off := tag];
    Put(buff, off + 1, bytes);
    WroteThen(before, b, buff[..], off, [tag], bytes);
  }

  // Writes up to four bytes although a number below 65536 takes only three of them.
  method SetToBuff(value: nat, buff: array<Byte>, off: nat) returns (n: nat)
    requires off + 9 <= buff.Length
    modifies buff
    ensures n == |LengthEncoded(value)|
    ensures Begins(old(buff[..]), buff[..], off, LengthEncoded(value))
  {
    ghost var before := buff[..];
    if value < 251 {
      Put(buff, off, [value]);
      WroteBegins(before, buff[..], off, [value], 1);
      return 1;
    }
    if value < 0x1_0000 {
      PutTagged(buff, off, 0xfc, Le3(value));
      WroteBegins(before, buff[..], off, [0xfc] + Le3(value), 3);
      assert ([0xfc] + Le3(value))[..3] == LengthEncoded(value);
      return 3;
    }
    if value < 0x100_0000 {
      PutTagged(buff, off, 0xfd, Le3(value) + [0]);
      WroteBegins(before, buff[..], off, [0xfd] + (Le3(value) + [0]), 5);
      assert [0xfd] + (Le3(value) + [0]) == LengthEncoded(value);
      return 5;
    }
    PutTagged(buff, off, 0xfe, Le8(value));
    WroteBegins(before, buff[..], off, [0xfe] + Le8(value), 9);
    return 9;
  }

  // `after` starts with `bytes` at `off`, and is changed in no more than nine places from there.
  predicate Begins(before: seq<Byte>, after: seq<Byte>, off: nat, bytes: seq<Byte>) {
    && off + 9 <= |before| == |after| && |bytes| <= 9
    && after[..off] == before[..off]
    && after[off..off + |bytes|] == bytes
    && after[off + 9..] == before[off + 9..]
  }

  lemma WroteBegins(a: seq<Byte>, b: seq<Byte>, off: nat, bytes: seq<Byte>, n: nat)
    requires Wrote(a, b, off, bytes) && n <= |bytes| <= 9 && off + 9 <= |a|
    ensures Begins(a, b, off, bytes[..n])
  {
    WroteBeyond(a, b, off, bytes, off + 9);
    assert b[off..off + n] == b[off..off + |bytes|][..n];
  }

  // `MySqlResulValue::toPackage`
  method ToPackage(v: Cell, buff: array<Byte>, off: nat) returns (n: nat)
    requires off + |CellBytes(v)| <= buff.Length
    modifies buff
    ensures n == |CellBytes(v)| && Wrote(old(buff[..]), buff[..], off, CellBytes(v))
  {
    hide LengthEncoded, Wrote;
    ghost var before := buff[..];
    match v.longData {
      case LongData(text) =>
        var delta := SetToBuff(|text|, buff, off);
        ghost var b := buff[..];
        Put(buff, off + delta, text);
        LongCellWritten(before, b, buff[..], off, LengthEncoded(|text|), text);
        n := |text| + delta;
      case NoLongData =>
        var len := StrLen(v.data);
        Put(buff, off, [len]);
        ghost var b := buff[..];
        Put(buff, off + 1, v.data[..len]);
        WroteThen(before, b, buff[..], off, [len], v.data[..len]);
        n := len + 1;
    }
  }

  lemma TakeLess(a: seq<Byte>, b: seq<Byte>, k: nat, i: nat)
    requires i <= k <= |a| && k <= |b| && a[..k] == b[..k]
    ensures a[..i] == b[..i] && a[i..k] == b[i..k]
  {
    assert a[..i] == a[..k][..i] && b[..i] == b[..k][..i];
    assert a[i..k] == a[..k][i..] && b[i..k] == b[..k][i..];
  }

  lemma DropMore(a: seq<Byte>, b: seq<Byte>, k: nat, i: nat)
    requires k <= i <= |a| && i <= |b| && a[k..] == b[k..]
    ensures a[i..] == b[i..]
  {
    assert a[i..] == a[k..][i - k..] && b[i..] == b[k..][i - k..];
  }

  // The text covers the byte that the length wrote too much.
  lemma LongCellWritten(a: seq<Byte>, b: seq<Byte>, c: seq<Byte>, off: nat, len: seq<Byte>, text: seq<Byte>)
    requires Begins(a, b, off, len) && off + |len| + |text| <= |a| && |text| > 9
    requires Wrote(b, c, off + |len|, text)
    ensures Wrote(a, c, off, len + text)
  {
    var k := off + |len|;
    TakeLess(c, b, k, off);
    DropMore(b, a, off + 9, k + |text|);
    assert c[off..k + |text|] == c[off..k] + c[k..k + |text|];
  }

  // Writes `bytes` at `p`, behind what was written so far.
  method Append(buff: array<Byte>, p: nat, bytes: seq<Byte>, ghost a: seq<Byte>, ghost off: nat, ghost done: seq<Byte>)
    requires p == off + |done| && p + |bytes| <= buff.Length && Wrote(a, buff[..], off, done)
    modifies buff
    ensures Wrote(a, buff[..], off, done + bytes)
  {
    hide Wrote;
    ghost var b := buff[..];
    Put(buff, p, bytes);
    WroteThen(a, b, buff[..], off, done, bytes);
  }

  method AppendCell(buff: array<Byte>, p: nat, v: Cell, ghost a: seq<Byte>, ghost off: nat, ghost done: seq<Byte>)
    returns (n: nat)
    requires p == off + |done| && p + |CellBytes(v)| <= buff.Length && Wrote(a, buff[..], off, done)
    modifies buff
    ensures n == |CellBytes(v)| && Wrote(a, buff[..], off, done + CellBytes(v))
  {
    hide Wrote, CellBytes;
    ghost var b := buff[..];
    n := ToPackage(v, buff, p);
    WroteThen(a, b, buff[..], off, done, CellBytes(v));
  }

  // The three length bytes, in front of what was written.
  method PutLength(buff: array<Byte>, off: nat, n: nat, ghost a: seq<Byte>, ghost done: seq<Byte>)
    requires off + 3 + |done| <= buff.Length && Wrote(a, buff[..], off + 3, done)
    modifies buff
    ensures Wrote(a, buff[..], off, Le3(n) + done)
  {
    hide Wrote;
    ghost var b := buff[..];
    Put(buff, off, Le3(n));
    WroteInFront(a, b, buff[..], off, Le3(n), done);
  }

  // The three length bytes are written last, in front of the rest.
  lemma WroteInFront(a: seq<Byte>, b: seq<Byte>, c: seq<Byte>, off: nat, x: seq<Byte>, y: seq<Byte>)
    requires Wrote(a, b, off + |x|, y) && Wrote(b, c, off, x)
    ensures Wrote(a, c, off, x + y)
  {
    var k := off + |x|;
    WroteBeyond(b, c, off, x, k);
    WroteBeyond(b, c, off, x, k + |y|);
    assert c[k..k + |y|] == c[k..][..|y|] == b[k..][..|y|] == b[k..k + |y|];
    assert c[off..off + |x + y|] == c[off..k] + c[k..k + |y|];
    assert c[..off] == b[..k][..off] == a[..k][..off] == a[..off];
  }

  // Bytes that are stepped over keep what was there.
  lemma StepOver(a: seq<Byte>, b: seq<Byte>, off: nat, x: seq<Byte>, n: nat)
    requires Wrote(a, b, off, x) && off + |x| + n <= |a|
    ensures Wrote(a, b, off, x + a[off + |x|..off + |x| + n])
  {
    var k := off + |x|;
    assert b[k..k + n] == b[k..][..n] == a[k..][..n] == a[k..k + n];
    assert b[off..k + n] == b[off..k] + b[k..k + n];
    WroteBeyond(a, b, off, x, k + n);
  }

  // `RowPackage` for the first `columns` cells of a row.
  method RowPackage(columns: nat, values: array<Cell>, number: nat, buff: array<Byte>, off: nat)
    returns (n: nat)
    requires columns <= values.Length
    requires off + |RowBytes(values[..columns], number)| <= buff.Length
    modifies buff
    ensures n == |RowBytes(values[..columns], number)|
    ensures Wrote(old(buff[..]), buff[..], off, RowBytes(values[..columns], number))
  {
    hide Wrote, CellBytes;
    ghost var before := buff[..];
    ghost var row: seq<Cell> := values[..columns];
    ghost var done: seq<Byte> := [number % 256];
    ghost var whole: seq<Byte> := done + CellsBytes(row);
    Put(buff, off + 3, [number % 256]);
    var answer := off + 4;
    assert row[0..] == row;
    for i := 0 to columns
      invariant answer == off + 3 + |done|
      invariant whole == done + CellsBytes(row[i..])
      invariant Wrote(before, buff[..], off + 3, done)
    {
      CellsStep(row, i, done);
      var delta := AppendCell(buff, answer, values[i], before, off + 3, done);
      done := done + CellBytes(row[i]);
      answer := answer + delta;
    }
    assert done == whole;
    PutLength(buff, off, answer - off - 4, before, done);
    assert Le3(answer - off - 4) + done == RowBytes(row, number);
    n := answer - off;
  }

  lemma CellsStep(row: seq<Cell>, i: nat, done: seq<Byte>)
    requires i < |row|
    ensures done + CellsBytes(row[i..]) == done + CellBytes(row[i]) + CellsBytes(row[i + 1..])
  {
    hide CellBytes;
    assert row[i..][1..] == row[i + 1..];
  }

  // `EOF_Package`
  method EofPackage(number: nat, buff: array<Byte>, off: nat) returns (n: nat)
    requires off + 9 <= buff.Length
    modifies buff
    ensures n == 9 && Wrote(old(buff[..]), buff[..], off, EofBytes(number))
  {
    Put(buff, off, Le3(5) + [number % 256] + EOF_PAYLOAD);
    n := 9;
  }

  // `Send_EOF_Package`: the buffer is used afresh.
  method SendEofPackage(number: nat, buff: array<Byte>) returns (wire: seq<Byte>)
    requires 9 <= buff.Length
    modifies buff
    ensures wire == EofBytes(number)
  {
    var n := EofPackage(number, buff, 0);
    wire := buff[..n];
  }

  // `Err_Package`; the length is written last.
  method ErrPackage(failure: Failure, number: nat, buff: array<Byte>, off: nat) returns (n: nat)
    requires off + 13 + |failure.text| <= buff.Length
    modifies buff
    ensures n == 13 + |failure.text|
    ensures Wrote(old(buff[..]), buff[..], off, ErrBytes(failure, number))
  {
    hide Wrote;
    ghost var a := buff[..];
    var head: seq<Byte> := [number % 256, 0xff, failure.code % 256, failure.code / 256, 0x23] + SQL_STATE;
    Put(buff, off + 3, head);
    Append(buff, off + 13, failure.text, a, off + 3, head);
    n := 13 + |failure.text|;
    PutLength(buff, off, n - 4, a, head + failure.text);
    assert head == [number % 256] + ([0xff, failure.code % 256, failure.code / 256, 0x23] + SQL_STATE);
    assert head + failure.text == [number % 256] + ErrPayload(failure);
    assert Le3(n - 4) + (head + failure.text) == ErrBytes(failure, number);
  }

  // `Send_Err_Package`
  method SendErrPackage(failure: Failure, number: nat, buff: array<Byte>) returns (wire: seq<Byte>)
    requires MAX_ERROR <= buff.Length
    modifies buff
    ensures wire == ErrBytes(failure, number)
  {
    var n := ErrPackage(failure, number, buff, 0);
    wire := buff[..n];
  }

  // `CountColumPackage`
  method CountColumPackage(columns: Byte, number: nat, buff: array<Byte>, off: nat) returns (n: nat)
    requires off + 5 <= buff.Length
    modifies buff
    ensures n == 5 && Wrote(old(buff[..]), buff[..], off, CountBytes(columns, number))
  {
    Put(buff, off, Le3(1) + [number % 256] + [columns]);
    n := 5;
  }

  // `MySqlResultset_ColumDef::toPackage`; the high byte of the flags and the filler are stepped over.
  method ColumnToPackage(name: Name, number: nat, buff: array<Byte>, off: nat) returns (n: nat)
    requires off + ColumnSize(name) <= buff.Length
    modifies buff
    ensures n == ColumnSize(name)
    ensures Wrote(old(buff[..]), buff[..], off, ColumnBytes(name, number, old(buff[..]), off))
  {
    hide Wrote, ColumnBytes;
    ghost var a := buff[..];
    var head: seq<Byte> := [number % 256, 3, 0x64, 0x65, 0x66, 0, 0, 0, |name|];
    var tail: seq<Byte> := [0, 0x0c, 0x21, 0x00, 0x4d, 0x00, 0x00, 0x00, 0xfd, 0x01];
    var k := off + 22 + |name|;
    Put(buff, off + 3, head);
    Append(buff, off + 12, name, a, off + 3, head);
    ghost var done: seq<Byte> := head + name;
    Append(buff, off + 12 + |name|, tail, a, off + 3, done);
    done := done + tail;
    StepOver(a, buff[..], off + 3, done, 1);
    done := done + a[k..k + 1];
    Append(buff, k + 1, [0x1f], a, off + 3, done);
    done := done + [0x1f];
    StepOver(a, buff[..], off + 3, done, 2);
    done := done + a[k + 2..k + 4];
    n := ColumnSize(name);
    PutLength(buff, off, n - 4, a, done);
    ColumnParts(name, number, a, off, head, tail, done);
  }

  lemma ColumnPieces(name: Name, number: nat, head: seq<Byte>, tail: seq<Byte>, flags: Byte, filler: seq<Byte>)
    requires |filler| == 2 && head == [number % 256, 3, 0x64, 0x65, 0x66, 0, 0, 0, |name|]
    requires tail == [0, 0x0c, 0x21, 0x00, 0x4d, 0x00, 0x00, 0x00, 0xfd, 0x01]
    ensures head + name + tail + [flags] + [0x1f] + filler == [number % 256] + ColumnPayload(name, flags, filler)
  {
    var front: seq<Byte> := [3, 0x64, 0x65, 0x66, 0, 0, 0, |name|];
    var fixed: seq<Byte> := [0, 0x0c, 0x21, 0x00, 0x4d, 0x00, 0x00, 0x00, 0xfd, 0x01, flags, 0x1f];
    assert head == [number % 256] + front;
    assert tail + [flags] + [0x1f] == fixed;
    assert ColumnPayload(name, flags, filler) == front + name + fixed + filler;
    assert head + name + tail + [flags] + [0x1f] + filler == head + name + (tail + [flags] + [0x1f]) + filler;
  }

  lemma ColumnParts(name: Name, number: nat, a: seq<Byte>, off: nat, head: seq<Byte>, tail: seq<Byte>, rest: seq<Byte>)
    requires off + ColumnSize(name) <= |a|
    requires head == [number % 256, 3, 0x64, 0x65, 0x66, 0, 0, 0, |name|]
    requires tail == [0, 0x0c, 0x21, 0x00, 0x4d, 0x00, 0x00, 0x00, 0xfd, 0x01]
    requires var k := off + 22 + |name|; rest == head + name + tail + a[k..k + 1] + [0x1f] + a[k + 2..k + 4]
    ensures Le3(ColumnSize(name) - 4) + rest == ColumnBytes(name, number, a, off)
  {
    var k := off + 22 + |name|;
    assert a[k..k + 1] == [a[k]];
    ColumnPieces(name, number, head, tail, a[k], a[k + 2..k + 4]);
  }

  // `HeadAnswer`; `last` is the number of its last packet.
  method HeadAnswer(names: seq<Name>, number: nat, buff: array<Byte>, off: nat) returns (n: nat, last: nat)
    requires |names| < 256 && off + HeadSize(names) <= buff.Length
    modifies buff
    ensures n == HeadSize(names) && last == number + 2 + |names|
    ensures Wrote(old(buff[..]), buff[..], off, HeadBytes(names, number + 1, old(buff[..]), off))
  {
    hide Wrote, ColumnsBytes, HeadBytes, HeadSize, CountBytes, EofBytes;
    HeadParts(names, number + 1, buff[..], off);
    ghost var a := buff[..];
    last := number + 1;
    var delta := CountColumPackage(|names|, last, buff, off);
    var p;
    p, last := AppendColumns(names, last, buff, off + delta, a, off, CountBytes(|names|, last));
    last := last + 1;
    ghost var b := buff[..];
    ghost var done := CountBytes(|names|, number + 1) + ColumnsBytes(names, number + 2, a, off + 5);
    delta := EofPackage(last, buff, p);
    WroteThen(a, b, buff[..], off, done, EofBytes(last));
    n := p + delta - off;
  }

  lemma HeadParts(names: seq<Name>, number: nat, before: seq<Byte>, off: nat)
    requires |names| < 256 && off + HeadSize(names) <= |before|
    ensures HeadSize(names) == 5 + ColumnsSize(names) + 9
    ensures |CountBytes(|names|, number)| == 5 && |EofBytes(number + 1 + |names|)| == 9
    ensures HeadBytes(names, number, before, off)
            == CountBytes(|names|, number) + ColumnsBytes(names, number + 1, before, off + 5)
               + EofBytes(number + 1 + |names|)
  {
  }

  // The packets of all columns, behind what was written so far.
  method AppendColumns(names: seq<Name>, number: nat, buff: array<Byte>, p: nat, ghost a: seq<Byte>, ghost off: nat,
                       ghost before: seq<Byte>)
    returns (p': nat, last: nat)
    requires p == off + |before| && p + ColumnsSize(names) <= buff.Length == |a| && Wrote(a, buff[..], off, before)
    modifies buff
    ensures p' == p + ColumnsSize(names) && last == number + |names|
    ensures Wrote(a, buff[..], off, before + ColumnsBytes(names, number + 1, a, p))
  {
    hide Wrote, ColumnBytes;
    last, p' := number, p;
    ghost var done: seq<Byte> := before;
    ghost var whole: seq<Byte> := done + ColumnsBytes(names, number + 1, a, p);
    assert names[0..] == names;
    for i := 0 to |names|
      invariant p' == off + |done| && last == number + i
      invariant p' + ColumnsSize(names[i..]) == p + ColumnsSize(names)
      invariant whole == done + ColumnsBytes(names[i..], last + 1, a, p')
      invariant Wrote(a, buff[..], off, done)
    {
      ColumnsStep(names, i, last + 1, a, p', done);
      last := last + 1;
      var delta := AppendColumn(buff, p', names[i], last, a, off, done);
      done := done + ColumnBytes(names[i], last, a, p');
      p' := p' + delta;
    }
    assert done == whole;
  }

  lemma ColumnsStep(names: seq<Name>, i: nat, number: nat, a: seq<Byte>, p: nat, done: seq<Byte>)
    requires i < |names| && p + ColumnsSize(names[i..]) <= |a|
    ensures ColumnsSize(names[i..]) == ColumnSize(names[i]) + ColumnsSize(names[i + 1..])
    ensures done + ColumnsBytes(names[i..], number, a, p)
            == done + ColumnBytes(names[i], number, a, p)
               + ColumnsBytes(names[i + 1..], number + 1, a, p + ColumnSize(names[i]))
  {
    hide ColumnBytes;
    assert names[i..][1..] == names[i + 1..];
  }

  method AppendColumn(buff: array<Byte>, p: nat, name: Name, number: nat, ghost a: seq<Byte>, ghost off: nat,
                      ghost done: seq<Byte>)
    returns (n: nat)
    requires p == off + |done| && p + ColumnSize(name) <= buff.Length == |a| && Wrote(a, buff[..], off, done)
    modifies buff
    ensures n == ColumnSize(name) && Wrote(a, buff[..], off, done + ColumnBytes(name, number, a, p))
  {
    hide Wrote, ColumnBytes;
    ghost var b := buff[..];
    n := ColumnToPackage(name, number, buff, p);
    SameColumn(name, number, a, b, off, done);
    WroteThen(a, b, buff[..], off, done, ColumnBytes(name, number, a, p));
  }

  // The bytes a column steps over are those of the original buffer.
  lemma SameColumn(name: Name, number: nat, a: seq<Byte>, b: seq<Byte>, off: nat, x: seq<Byte>)
    requires Wrote(a, b, off, x) && off + |x| + ColumnSize(name) <= |a|
    ensures |b| == |a| && ColumnBytes(name, number, b, off + |x|) == ColumnBytes(name, number, a, off + |x|)
  {
    var p := off + |x|;
    var end := p + ColumnSize(name);
    assert forall k | p <= k < |a| :: b[k] == b[p..][k - p] == a[p..][k - p] == a[k];
    assert b[end - 2..end] == a[end - 2..end];
  }
}
