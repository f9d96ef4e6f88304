/** The other end of the MySQL connection: how a client reads the answer of a query.

    Written from the protocol manual ("Protocol::LengthEncodedInteger", "MySQL Packets",
    "ProtocolText::Resultset"), independently of the writers; packet numbers have to be
    consecutive modulo 256.  The lemmas say that it reads back what `MySqlProtocol` writes.
 */
module MySqlClient {
  import opened Bytes
  import opened MySqlProtocol

  datatype Packet = Packet(payload: seq<Byte>, number: Byte, rest: seq<Byte>) | NoPacket

  function ReadPacket(s: seq<Byte>): Packet {
    if |s| < 4 then NoPacket
    else
      var n: int := s[0] as int + 256 * s[1] as int + 65536 * s[2] as int;
      if |s| < 4 + n then NoPacket else Packet(s[4..4 + n], s[3], s[4 + n..])
  }

  datatype Number = Number(value: nat, rest: seq<Byte>) | NoNumber

  function LittleEndian(s: seq<Byte>): nat {
    if s == [] then 0 else s[0] + 256 * LittleEndian(s[1..])
  }

  // 0xfb stands for NULL and 0xff for an error; neither is a number.
  function ReadNumber(s: seq<Byte>): Number {
    if s == [] || s[0] == 0xfb || s[0] == 0xff then NoNumber
    else if s[0] < 251 then Number(s[0], s[1..])
    else
      var size := if s[0] == 0xfc then 2 else if s[0] == 0xfd then 3 else 8;
      if |s| < 1 + size then NoNumber else Number(LittleEndian(s[1..1 + size]), s[1 + size..])
  }

  datatype Text = Text(text: seq<Byte>, rest: seq<Byte>) | NoText

  function ReadText(s: seq<Byte>): Text {
    match ReadNumber(s)
    case NoNumber => NoText
    case Number(n, rest) => if |rest| < n then NoText else Text(rest[..n], rest[n..])
  }

  datatype Row = Row(cells: seq<seq<Byte>>) | NoRow

  // The `n` texts of a row, which fill the payload exactly.
  function ReadRow(payload: seq<Byte>, n: nat): Row
    decreases n
  {
    if n == 0 then (if payload == [] then Row([]) else NoRow)
    else
      match ReadText(payload)
      case NoText => NoRow
      case Text(text, rest) =>
        match ReadRow(rest, n - 1)
        case NoRow => NoRow
        case Row(cells) => Row([text] + cells)
  }

  predicate IsEof(payload: seq<Byte>) {
    0 < |payload| < 9 && payload[0] == 0xfe
  }

  // What is left of a payload after `n` texts.
  function SkipTexts(s: seq<Byte>, n: nat): Text
    decreases n
  {
    if n == 0 then Text([], s)
    else match ReadText(s) case NoText => NoText case Text(_, rest) => SkipTexts(rest, n - 1)
  }

  // The name in a column packet: the fifth of its six texts, before 13 bytes of fixed fields.
  function ReadColumn(payload: seq<Byte>): (r: Text)
    ensures r.Text? ==> |r.rest| == 13
  {
    match SkipTexts(payload, 4)
    case NoText => NoText
    case Text(_, rest) =>
      match ReadText(rest)
      case NoText => NoText
      case Text(name, rest') =>
        match ReadText(rest')
        case NoText => NoText
        case Text(_, fixed) => if |fixed| == 13 && fixed[0] == 0x0c then Text(name, fixed) else NoText
  }

  // What the fixed fields say of a column: its character set, the display length, the type and the
  // number of decimals.
  datatype Fixed = Fixed(charset: nat, length: nat, columnType: Byte, decimals: Byte)

  const CHARSET_UTF8 := 33
  const TYPE_STRING: Byte := 253

  function ReadFixed(fixed: seq<Byte>): Fixed
    requires |fixed| == 13
  {
    Fixed(LittleEndian(fixed[1..3]), LittleEndian(fixed[3..7]), fixed[7], fixed[10])
  }

  datatype Columns = Columns(names: seq<seq<Byte>>, rest: seq<Byte>) | NoColumns

  function ReadColumns(s: seq<Byte>, n: nat, number: nat): Columns
    decreases n
  {
    if n == 0 then Columns([], s)
    else
      match ReadPacket(s)
      case NoPacket => NoColumns
      case Packet(payload, k, rest) =>
        match ReadColumn(payload)
        case NoText => NoColumns
        case Text(name, _) =>
          if k != number % 256 then NoColumns
          else
            match ReadColumns(rest, n - 1, number + 1)
            case NoColumns => NoColumns
            case Columns(names, rest') => Columns([name] + names, rest')
  }

  datatype Rows = Rows(rows: seq<seq<seq<Byte>>>, rest: seq<Byte>) | NoRows

  // Rows of `n` cells up to an EOF packet.
  function ReadRows(s: seq<Byte>, n: nat, number: nat): Rows
    decreases |s|
  {
    match ReadPacket(s)
    case NoPacket => NoRows
    case Packet(payload, k, rest) =>
      if k != number % 256 then NoRows
      else if IsEof(payload) then Rows([], rest)
      else
        match ReadRow(payload, n)
        case NoRow => NoRows
        case Row(cells) =>
          match ReadRows(rest, n, number + 1)
          case NoRows => NoRows
          case Rows(rows, rest') => Rows([cells] + rows, rest')
  }

  datatype ResultSet = ResultSet(names: seq<seq<Byte>>, rows: seq<seq<seq<Byte>>>) | NoResultSet

  // The head of an answer, up to its EOF packet.
  function ReadHead(s: seq<Byte>, number: nat): Columns {
    match ReadPacket(s)
    case NoPacket => NoColumns
    case Packet(payload, k, rest) =>
      if |payload| != 1 || k != number % 256 then NoColumns
      else
        match ReadColumns(rest, payload[0], number + 1)
        case NoColumns => NoColumns
        case Columns(names, rest') =>
          match ReadPacket(rest')
          case NoPacket => NoColumns
          case Packet(eof, k', rest'') =>
            if IsEof(eof) && k' == (number + 1 + payload[0]) % 256 then Columns(names, rest'') else NoColumns
  }

  // A whole answer whose first packet has the number `number`.
  function ReadResultSet(s: seq<Byte>, number: nat): ResultSet {
    match ReadHead(s, number)
    case NoColumns => NoResultSet
    case Columns(names, rest) =>
      match ReadRows(rest, |names|, number + 2 + |names|)
      case NoRows => NoResultSet
      case Rows(rows, rest') => if rest' == [] then ResultSet(names, rows) else NoResultSet
  }

  datatype Error = GotError(failure: Failure, sqlState: seq<Byte>) | NoError

  // An error packet in place of an answer, under the number `number`.
  function ReadError(s: seq<Byte>, number: nat): Error {
    match ReadPacket(s)
    case NoPacket => NoError
    case Packet(payload, k, rest) =>
      if k != number % 256 || rest != [] || |payload| < 9 || payload[0] != 0xff || payload[3] != 0x23 then NoError
      else if |payload[9..]| >= 250 || !NulFree(payload[9..]) then NoError
      else GotError(Failure(payload[1] as int + 256 * payload[2] as int, payload[9..]), payload[4..9])
  }

  // ----- packets -----

  lemma ThreeBytes(n: nat)
    requires n < 0x100_0000
    ensures n == n % 256 + 256 * (n / 256 % 256) + 65536 * (n / 65536 % 256)
  {
  }

  lemma ReadPacketBytes(payload: seq<Byte>, number: nat, rest: seq<Byte>)
    requires |payload| < 0x100_0000
    ensures ReadPacket(PacketBytes(payload, number) + rest) == Packet(payload, number % 256, rest)
  {
    var s := PacketBytes(payload, number) + rest;
    var n := |payload|;
    assert s[0] == n % 256 && s[1] == n / 256 % 256 && s[2] == n / 65536 % 256;
    assert s[3] == number % 256;
    ThreeBytes(n);
    assert s[4..4 + n] == payload;
    assert s[4 + n..] == rest;
  }

  // ----- cells -----

  // A cell that a client reads as it was given: short texts without NUL, or long ones whose length
  // is not written with the 3-byte form.
  predicate Readable(text: seq<Byte>) {
    if |text| <= INLINE_TEXT then NulFree(text) else |text| < 0x1_0000 || |text| >= 0x100_0000
  }

  lemma LittleEndian3(a: Byte, b: Byte, c: Byte, rest: seq<Byte>)
    ensures LittleEndian([a, b, c] + rest) == a + 256 * (b + 256 * (c + 256 * LittleEndian(rest)))
  {
    assert ([a, b, c] + rest)[1..] == [b, c] + rest;
    assert ([b, c] + rest)[1..] == [c] + rest;
    assert ([c] + rest)[1..] == rest;
    assert LittleEndian([c] + rest) == c + 256 * LittleEndian(rest);
    assert LittleEndian([b, c] + rest) == b + 256 * LittleEndian([c] + rest);
  }

  lemma LittleEndianLe3(n: nat)
    requires n < 0x100_0000
    ensures LittleEndian(Le3(n)) == n
  {
    LittleEndian3(n % 256, n / 256 % 256, n / 65536 % 256, []);
    assert Le3(n) + [] == Le3(n);
  }

  lemma {:induction false} LittleEndianZeros(s: seq<Byte>)
    requires forall i :: 0 <= i < |s| ==> s[i] == 0
    ensures LittleEndian(s) == 0
  {
    if s != [] {
      LittleEndianZeros(s[1..]);
    }
  }

  lemma LittleEndianLe8(n: nat)
    requires n < 0x8000_0000
    ensures LittleEndian(Le8(n)) == n
  {
    var top := n / 0x100_0000;
    assert n / 0x1_0000_0000 == n / 0x100_0000_0000 == n / 0x1_0000_0000_0000 == n / 0x100_0000_0000_0000 == 0;
    var zeros: seq<Byte> := [0, 0, 0, 0];
    assert Le8(n) == Le3(n) + ([top] + zeros);
    LittleEndian3(n % 256, n / 256 % 256, n / 65536 % 256, [top] + zeros);
    assert ([top] + zeros)[1..] == zeros;
    LittleEndianZeros(zeros);
    SplitNumber(n);
  }

  lemma SplitNumber(n: nat)
    ensures n == n % 256 + 256 * (n / 256 % 256 + 256 * (n / 65536 % 256 + 256 * (n / 0x100_0000)))
  {
    var q := n / 256;
    var r := q / 256;
    assert r == n / 65536;
    assert r / 256 == n / 0x100_0000;
    assert r == r % 256 + 256 * (r / 256);
    assert q == q % 256 + 256 * r;
  }

  lemma ReadLength(n: nat, rest: seq<Byte>)
    requires n < 0x1_0000 || 0x100_0000 <= n < 0x8000_0000
    ensures ReadNumber(LengthEncoded(n) + rest) == Number(n, rest)
  {
    var b := LengthEncoded(n);
    var s := b + rest;
    if n < 251 {
      assert s[1..] == rest;
    } else if n < 0x1_0000 {
      assert s[1..3] == [n % 256, n / 256];
      assert s[3..] == rest;
      assert [n % 256, n / 256][1..] == [n / 256] && [n / 256][1..] == [];
      assert LittleEndian([n / 256]) == n / 256;
    } else {
      assert s[1..9] == Le8(n);
      assert s[9..] == rest;
      LittleEndianLe8(n);
    }
  }

  // The 3-byte form is one byte too long: the reader stops before its last byte.
  lemma ReadLengthTooLong(n: nat, rest: seq<Byte>)
    requires 0x1_0000 <= n < 0x100_0000
    ensures ReadNumber(LengthEncoded(n) + rest) == Number(n, [0] + rest)
  {
    var s := LengthEncoded(n) + rest;
    assert s[1..4] == Le3(n);
    assert s[4..] == [0] + rest;
    LittleEndianLe3(n);
  }

  lemma InlineIsCString(text: seq<Byte>)
    requires |text| <= INLINE_TEXT
    ensures SetValue(text).longData.NoLongData? && CString(SetValue(text).data) == CString(text)
  {
    var v := SetValue(text);
    if text == [] {
      assert v.data == [] + v.data;
      CStringOfPadded([], v.data);
    } else {
      StrLenUnique(v.data, StrLen(text));
      assert v.data[..StrLen(text)] == text[..StrLen(text)];
    }
  }

  lemma ReadInline(text: seq<Byte>, rest: seq<Byte>)
    requires |text| <= INLINE_TEXT
    ensures ReadText(CellBytes(SetValue(text)) + rest) == Text(CString(text), rest)
  {
    var v := SetValue(text);
    var shown := CString(v.data);
    InlineIsCString(text);
    var s := CellBytes(v) + rest;
    assert s[0] == |shown|;
    assert s[1..] == shown + rest;
  }

  lemma ReadLong(text: seq<Byte>, rest: seq<Byte>)
    requires INLINE_TEXT < |text| < 0x8000_0000
    ensures ReadText(CellBytes(SetValue(text)) + rest)
            == if Readable(text) then Text(text, rest)
               else Text([0] + text[..|text| - 1], text[|text| - 1..] + rest)
  {
    var n := |text|;
    assert CellBytes(SetValue(text)) + rest == LengthEncoded(n) + (text + rest);
    if Readable(text) {
      ReadLength(n, text + rest);
      assert (text + rest)[..n] == text && (text + rest)[n..] == rest;
    } else {
      ReadLengthTooLong(n, text + rest);
      var t := [0] + (text + rest);
      assert t[..n] == [0] + text[..n - 1];
      assert t[n..] == text[n - 1..] + rest;
    }
  }

  // A cell of any length an `int` holds is read back, with what follows it, exactly when it is readable.
  lemma CellRoundTrip(text: seq<Byte>, rest: seq<Byte>)
    requires |text| < 0x8000_0000
    ensures ReadText(CellBytes(SetValue(text)) + rest) == Text(text, rest) <==> Readable(text)
  {
    if |text| <= INLINE_TEXT {
      ReadInline(text, rest);
      if NulFree(text) {
        StrLenUnique(text, |text|);
      } else {
        assert |CString(text)| != |text|;
      }
    } else {
      ReadLong(text, rest);
      if !Readable(text) {
        assert |text[|text| - 1..] + rest| != |rest|;
      }
    }
  }

  // ----- rows -----

  function Stored(texts: seq<seq<Byte>>): (row: seq<Cell>)
    ensures |row| == |texts|
    ensures forall i :: 0 <= i < |texts| ==> row[i] == SetValue(texts[i])
  {
    if texts == [] then [] else [SetValue(texts[0])] + Stored(texts[1..])
  }

  // What the result sets are read back for: every cell readable and below 64 KiB.
  predicate PlainTexts(texts: seq<seq<Byte>>) {
    forall i :: 0 <= i < |texts| ==> |texts[i]| < 0x1_0000 && Readable(texts[i])
  }

  lemma {:induction false} ReadRowBack(texts: seq<seq<Byte>>)
    requires PlainTexts(texts)
    ensures ReadRow(CellsBytes(Stored(texts)), |texts|) == Row(texts)
  {
    hide CellBytes, SetValue, ReadText, Readable, ReadRow;
    if texts == [] {
      EmptyRow();
    } else {
      var rest := CellsBytes(Stored(texts)[1..]);
      assert Stored(texts)[1..] == Stored(texts[1..]);
      CellRoundTrip(texts[0], rest);
      ReadRowBack(texts[1..]);
      OneMoreCell(CellBytes(SetValue(texts[0])) + rest, |texts|, texts[0], rest, texts[1..]);
      assert [texts[0]] + texts[1..] == texts;
    }
  }

  lemma EmptyRow()
    ensures ReadRow([], 0) == Row([])
  {
  }

  lemma OneMoreCell(payload: seq<Byte>, n: nat, text: seq<Byte>, rest: seq<Byte>, cells: seq<seq<Byte>>)
    requires n > 0 && ReadText(payload) == Text(text, rest) && ReadRow(rest, n - 1) == Row(cells)
    ensures ReadRow(payload, n) == Row([text] + cells)
  {
    hide ReadText;
  }

  lemma {:induction false} RowSize(texts: seq<seq<Byte>>, most: nat)
    requires most < 0x1_0000 && (forall i :: 0 <= i < |texts| ==> |texts[i]| <= most)
    ensures |CellsBytes(Stored(texts))| <= |texts| * (most + 3)
  {
    hide CellBytes, SetValue;
    if texts != [] {
      assert Stored(texts)[1..] == Stored(texts[1..]);
      RowSize(texts[1..], most);
      CellSize(texts[0]);
      OneMore(|texts| - 1, most + 3);
    }
  }

  lemma OneMore(n: nat, k: nat)
    ensures (n + 1) * k == n * k + k
  {
  }

  lemma CellSize(text: seq<Byte>)
    requires |text| < 0x1_0000
    ensures |CellBytes(SetValue(text))| <= |text| + 3
  {
    if |text| <= INLINE_TEXT {
      InlineIsCString(text);
    }
  }

  // No such row can be taken for the EOF packet.
  lemma RowIsNotEof(texts: seq<seq<Byte>>)
    requires PlainTexts(texts)
    ensures !IsEof(CellsBytes(Stored(texts)))
  {
    if texts != [] {
      var b := CellBytes(Stored(texts)[0]);
      assert CellsBytes(Stored(texts))[0] == b[0];
    }
  }

  // A row packet of up to 255 cells, more than a table has, gives back every cell.
  lemma RowRoundTrip(texts: seq<seq<Byte>>, number: nat, rest: seq<Byte>)
    requires PlainTexts(texts) && |texts| <= 255
    ensures var p := ReadPacket(RowBytes(Stored(texts), number) + rest);
            && p.Packet? && p.number == number % 256 && p.rest == rest
            && !IsEof(p.payload) && ReadRow(p.payload, |texts|) == Row(texts)
  {
    hide CellsBytes, ReadPacket, ReadRow, Stored, Readable, IsEof;
    RowSize(texts, 65535);
    assert |texts| * 65538 <= 255 * 65538;
    ReadPacketBytes(CellsBytes(Stored(texts)), number, rest);
    ReadRowBack(texts);
    RowIsNotEof(texts);
  }

  // ----- columns -----

  lemma ReadShortText(text: seq<Byte>, rest: seq<Byte>)
    requires |text| <= 250
    ensures ReadText([|text|] + text + rest) == Text(text, rest)
  {
    var s := [|text|] + text + rest;
    assert s[1..] == text + rest;
  }

  lemma ReadColumnBack(name: Name, flags: Byte, filler: seq<Byte>)
    requires |filler| == 2
    ensures var r := ReadColumn(ColumnPayload(name, flags, filler));
            r.Text? && r.text == name && ReadFixed(r.rest) == Fixed(CHARSET_UTF8, 77, TYPE_STRING, 0x1f)
  {
    hide ReadText, SkipTexts, ReadFixed;
    var fixed := [0x0c, 0x21, 0x00, 0x4d, 0x00, 0x00, 0x00, 0xfd, 0x01, flags, 0x1f] + filler;
    var s5 := [0] + [] + fixed;
    var s4 := [|name|] + name + s5;
    var s3 := [0] + [] + s4;
    var s2 := [0] + [] + s3;
    var s1 := [0] + [] + s2;
    var s0 := [3] + [0x64, 0x65, 0x66] + s1;
    assert ColumnPayload(name, flags, filler) == s0;
    ReadShortText([0x64, 0x65, 0x66], s1);
    ReadShortText([], s2);
    ReadShortText([], s3);
    ReadShortText([], s4);
    SkipFour(s0, s1, s2, s3, s4);
    ReadShortText(name, s5);
    ReadShortText([], fixed);
    FixedIsRead(fixed, flags, filler);
  }

  lemma FixedIsRead(fixed: seq<Byte>, flags: Byte, filler: seq<Byte>)
    requires |filler| == 2
    requires fixed == [0x0c, 0x21, 0x00, 0x4d, 0x00, 0x00, 0x00, 0xfd, 0x01, flags, 0x1f] + filler
    ensures ReadFixed(fixed) == Fixed(CHARSET_UTF8, 77, TYPE_STRING, 0x1f)
  {
    assert fixed[1..3] == [0x21, 0] && fixed[3..7] == [0x4d, 0, 0, 0];
    assert [0x21, 0][1..] == [0] && [0][1..] == [];
    LittleEndian3(0x4d, 0, 0, [0]);
    assert [0x4d, 0, 0] + [0] == [0x4d, 0, 0, 0];
  }

  lemma SkipFour(s0: seq<Byte>, s1: seq<Byte>, s2: seq<Byte>, s3: seq<Byte>, s4: seq<Byte>)
    requires ReadText(s0).Text? && ReadText(s0).rest == s1
    requires ReadText(s1).Text? && ReadText(s1).rest == s2
    requires ReadText(s2).Text? && ReadText(s2).rest == s3
    requires ReadText(s3).Text? && ReadText(s3).rest == s4
    ensures SkipTexts(s0, 4) == Text([], s4)
  {
    assert SkipTexts(s3, 1) == SkipTexts(s4, 0);
    assert SkipTexts(s2, 2) == SkipTexts(s3, 1);
    assert SkipTexts(s1, 3) == SkipTexts(s2, 2);
  }

  lemma SmallColumn(name: Name, flags: Byte, filler: seq<Byte>)
    requires |filler| == 2
    ensures |ColumnPayload(name, flags, filler)| < 0x100_0000
  {
  }

  lemma {:induction false} ReadColumnsBack(names: seq<Name>, number: nat, before: seq<Byte>, off: nat, rest: seq<Byte>)
    requires off + ColumnsSize(names) <= |before|
    ensures ReadColumns(ColumnsBytes(names, number, before, off) + rest, |names|, number) == Columns(names, rest)
    decreases |names|
  {
    hide PacketBytes, ReadPacket, ColumnPayload, ReadColumn;
    if names == [] {
      assert [] + rest == rest;
    } else {
      var name := names[0];
      var end := off + ColumnSize(name);
      var payload := ColumnPayload(name, before[end - 4], before[end - 2..end]);
      SmallColumn(name, before[end - 4], before[end - 2..end]);
      var tail := ColumnsBytes(names[1..], number + 1, before, end) + rest;
      assert ColumnsBytes(names, number, before, off) + rest == PacketBytes(payload, number) + tail;
      ReadPacketBytes(payload, number, tail);
      ReadColumnBack(name, before[end - 4], before[end - 2..end]);
      ReadColumnsBack(names[1..], number + 1, before, end, rest);
      assert [names[0]] + names[1..] == names;
    }
  }

  datatype Eof = Eof(warnings: nat, status: nat) | NoEof

  // An EOF packet of protocol 4.1: the number of warnings and the flags of the server.
  function ReadEof(payload: seq<Byte>): Eof {
    if IsEof(payload) && |payload| == 5 then Eof(LittleEndian(payload[1..3]), LittleEndian(payload[3..5])) else NoEof
  }

  const SERVER_STATUS_AUTOCOMMIT := 2

  // No warning, and no further result set or cursor behind the rows.
  lemma EofRoundTrip(number: nat, rest: seq<Byte>)
    ensures var packet := ReadPacket(EofBytes(number) + rest);
            && packet.Packet? && packet.number == number % 256 && packet.rest == rest
            && ReadEof(packet.payload) == Eof(0, SERVER_STATUS_AUTOCOMMIT)
  {
    EofIsRead(number, rest);
    assert EOF_PAYLOAD[1..3] == [0, 0] && EOF_PAYLOAD[3..5] == [2, 0];
    assert LittleEndian([0, 0]) == 0 && LittleEndian([2, 0]) == 2 by {
      assert [0, 0][1..] == [0] && [2, 0][1..] == [0] && [0][1..] == [];
    }
  }

  lemma EofIsRead(number: nat, rest: seq<Byte>)
    ensures ReadPacket(EofBytes(number) + rest) == Packet(EOF_PAYLOAD, number % 256, rest) && IsEof(EOF_PAYLOAD)
  {
    ReadPacketBytes(EOF_PAYLOAD, number, rest);
  }

  // The head of an answer gives back the names, whatever the buffer held.
  lemma HeadRoundTrip(names: seq<Name>, number: nat, before: seq<Byte>, off: nat, rest: seq<Byte>)
    requires |names| < 256 && off + HeadSize(names) <= |before|
    ensures ReadHead(HeadBytes(names, number, before, off) + rest, number) == Columns(names, rest)
  {
    hide PacketBytes, ReadPacket, ReadColumns, ColumnsBytes, EofBytes;
    var eof := EofBytes(number + 1 + |names|);
    var columns := ColumnsBytes(names, number + 1, before, off + 5);
    assert HeadBytes(names, number, before, off) + rest
           == PacketBytes([|names|], number) + (columns + (eof + rest));
    ReadPacketBytes([|names|], number, columns + (eof + rest));
    ReadColumnsBack(names, number + 1, before, off + 5, eof + rest);
    EofIsRead(number + 1 + |names|, rest);
  }

  // An error packet is read back exactly under the number it carries, modulo 256.
  // "HY000", the SQLSTATE of an error that has none of its own.
  const GENERAL_ERROR: seq<Byte> := [0x48, 0x59, 0x30, 0x30, 0x30]

  lemma ErrorRoundTrip(failure: Failure, number: nat, expected: nat)
    ensures ReadError(ErrBytes(failure, number), expected)
            == if number % 256 == expected % 256 then GotError(failure, GENERAL_ERROR) else NoError
  {
    hide PacketBytes, ReadPacket;
    var payload := ErrPayload(failure);
    ReadPacketBytes(payload, number, []);
    assert PacketBytes(payload, number) + [] == PacketBytes(payload, number);
    assert payload[9..] == failure.text && payload[4..9] == GENERAL_ERROR;
    assert failure.code == failure.code % 256 + 256 * (failure.code / 256);
  }

  // ----- whole answers -----

  function RowsBytes(rows: seq<seq<seq<Byte>>>, number: nat): seq<Byte>
    decreases |rows|
  {
    if rows == [] then [] else RowBytes(Stored(rows[0]), number) + RowsBytes(rows[1..], number + 1)
  }

  // The bytes that rows take up, whatever their numbers.
  function RowsSize(rows: seq<seq<seq<Byte>>>): nat {
    if rows == [] then 0 else 4 + |CellsBytes(Stored(rows[0]))| + RowsSize(rows[1..])
  }

  lemma {:induction false} RowsTakeUp(rows: seq<seq<seq<Byte>>>, number: nat)
    ensures |RowsBytes(rows, number)| == RowsSize(rows)
    decreases |rows|
  {
    hide CellsBytes;
    if rows != [] {
      RowsTakeUp(rows[1..], number + 1);
    }
  }

  predicate CellsAtMost(rows: seq<seq<seq<Byte>>>, n: nat, most: nat) {
    forall r :: 0 <= r < |rows| ==> |rows[r]| == n && forall i :: 0 <= i < n ==> |rows[r][i]| <= most
  }

  lemma {:induction false} RowsWithin(rows: seq<seq<seq<Byte>>>, n: nat, most: nat)
    requires most < 0x1_0000 && CellsAtMost(rows, n, most)
    ensures RowsSize(rows) <= |rows| * (4 + n * (most + 3))
  {
    hide CellsBytes;
    if rows != [] {
      RowSize(rows[0], most);
      RowsWithin(rows[1..], n, most);
      OneMore(|rows| - 1, 4 + n * (most + 3));
    }
  }

  predicate PlainRows(rows: seq<seq<seq<Byte>>>, n: nat) {
    forall i :: 0 <= i < |rows| ==> |rows[i]| == n && PlainTexts(rows[i])
  }

  lemma {:induction false} ReadRowsBack(rows: seq<seq<seq<Byte>>>, n: nat, number: nat)
    requires n < 256 && PlainRows(rows, n)
    ensures ReadRows(RowsBytes(rows, number) + EofBytes(number + |rows|), n, number) == Rows(rows, [])
    decreases |rows|
  {
    hide RowBytes, ReadPacket, ReadRow, EofBytes, Stored, PlainTexts, IsEof;
    if rows == [] {
      EofIsRead(number, []);
      assert [] + EofBytes(number) == EofBytes(number) + [];
    } else {
      var tail := RowsBytes(rows[1..], number + 1) + EofBytes(number + |rows|);
      assert RowsBytes(rows, number) + EofBytes(number + |rows|) == RowBytes(Stored(rows[0]), number) + tail;
      RowRoundTrip(rows[0], number, tail);
      ReadRowsBack(rows[1..], n, number + 1);
      assert [rows[0]] + rows[1..] == rows;
    }
  }

  // Head, rows and EOF are read as the result set they were made from, with consecutive numbers.
  lemma AnswerRoundTrip(names: seq<Name>, rows: seq<seq<seq<Byte>>>, number: nat, before: seq<Byte>, off: nat)
    requires |names| < 256 && off + HeadSize(names) <= |before| && PlainRows(rows, |names|)
    ensures var first := number + 2 + |names|;
            ReadResultSet(HeadBytes(names, number, before, off)
                          + (RowsBytes(rows, first) + EofBytes(first + |rows|)), number)
            == ResultSet(names, rows)
  {
    hide HeadBytes, ReadHead, ReadRows, RowsBytes, EofBytes, PlainRows, ColumnsSize;
    var first := number + 2 + |names|;
    HeadRoundTrip(names, number, before, off, RowsBytes(rows, first) + EofBytes(first + |rows|));
    ReadRowsBack(rows, |names|, first);
  }
}
