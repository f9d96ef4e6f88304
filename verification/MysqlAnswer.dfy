/** The answer of a SELECT: `mysqlAnswer`.

    A query resolves its columns into a position table, writes cells through that table into row
    storage that later queries reuse, and packs the rows into numbered packets.  The client reads
    back the projection it asked for, whatever earlier queries left behind.
 */
module MysqlAnswer {
  import opened Bytes
  import opened ColumnMapping
  import opened MySqlProtocol
  import opened MySqlClient
  import opened SqlLimit

  const MAX_COLUMN_SIZE := 2000

  // ----- what a query asks for -----

  // A tokenised SELECT: the requested columns, whether there is an ORDER BY, the columns of the
  // conditions with the operators that are refused (OR), and the LIMIT clause.
  datatype Query = Query(selected: seq<Token>, ordered: bool, conditions: seq<Token>, refused: seq<bool>,
                         limit: LimitClause)

  // A table has distinct columns, and no more than the table of condition positions has entries.
  type Definition = def: seq<Name> | Distinct(def) && |def| <= MAX_EXPRESSIONS witness []

  type Request = q: Query |
    |q.selected| <= MAX_COLUMNS && |q.conditions| == |q.refused| <= MAX_EXPRESSIONS
    witness Query([], false, [], [], NoLimit)

  function Requested(def: Definition, q: Request): seq<Token> {
    if q.selected == [] then def else q.selected
  }

  predicate ColumnsAccepted(def: Definition, q: Request) {
    q.selected == [] || (Distinct(q.selected) && AllDefined(def, q.selected))
  }

  predicate ConditionsAccepted(def: Definition, q: Request) {
    && !q.ordered && Distinct(q.conditions) && AllDefined(def, q.conditions)
    && (forall i :: 0 <= i < |q.refused| ==> !q.refused[i])
  }

  function ConditionsError(def: Definition, q: Request): int {
    if q.ordered then SQL_ERR_NOT_IMPLEMENTED else FirstError(def, q.conditions, q.refused, 0)
  }

  function ColumnsError(def: Definition, q: Request): int {
    if q.selected == [] then SQL_OK else FirstError(def, q.selected, NoneRefused(|q.selected|), 0)
  }

  function SelectError(def: Definition, q: Request): int {
    if ColumnsError(def, q) != SQL_OK then ColumnsError(def, q) else ConditionsError(def, q)
  }

  // A query is accepted exactly when the requested columns are distinct and defined (none at all
  // asks for all of them), and so are those of its conditions, without OR and ORDER BY.
  lemma SelectAcceptedIff(def: Definition, q: Request)
    ensures ColumnsError(def, q) == SQL_OK <==> ColumnsAccepted(def, q)
    ensures SelectError(def, q) == SQL_OK <==> ColumnsAccepted(def, q) && ConditionsAccepted(def, q)
  {
    ResolvedIff(def, q.selected);
    FirstErrorIff(def, q.conditions, q.refused, 0);
    DistinctIff(q.conditions);
  }

  // What an INSERT names, and how many values it gives for a row.
  function InsertError(def: Definition, names: seq<Token>, valuesCount: nat): int {
    if |names| != valuesCount && names != [] then SQL_ERR_COLUMNS_LIST
    else if names != [] then FirstError(def, names, NoneRefused(|names|), 0)
    else if |def| != valuesCount then SQL_ERR_COLUMNS_LIST
    else SQL_OK
  }

  // An INSERT is accepted exactly when its columns, or all of them if it names none, are distinct,
  // defined and as many as its values.
  lemma InsertAcceptedIff(def: Definition, names: seq<Token>, valuesCount: nat)
    ensures InsertError(def, names, valuesCount) == SQL_OK <==>
            var columns := if names == [] then def else names;
            Distinct(columns) && AllDefined(def, columns) && |columns| == valuesCount
  {
    ResolvedIff(def, names);
  }

  // Which error it is where no column is at fault: ORDER BY is not implemented, and a list of columns
  // that is not as long as that of the values is an error in the list.
  lemma OtherErrors(def: Definition, q: Request, names: seq<Token>, valuesCount: nat)
    ensures ColumnsAccepted(def, q) && q.ordered ==> SelectError(def, q) == 2
    ensures |if names == [] then def else names| != valuesCount ==> InsertError(def, names, valuesCount) == 14
  {
    SelectAcceptedIff(def, q);
  }

  // ----- rows of packets -----

  function RowsPackages(rows: seq<seq<Cell>>, number: nat): seq<Byte>
    decreases |rows|
  {
    if rows == [] then [] else RowBytes(rows[0], number) + RowsPackages(rows[1..], number + 1)
  }

  lemma {:induction false} OneMoreRow(rows: seq<seq<Cell>>, row: seq<Cell>, number: nat)
    ensures RowsPackages(rows + [row], number) == RowsPackages(rows, number) + RowBytes(row, number + |rows|)
    decreases |rows|
  {
    hide RowBytes;
    if rows == [] {
      assert [row][1..] == [];
      assert RowsPackages([row], number) == RowBytes(row, number) + [];
    } else {
      assert (rows + [row])[1..] == rows[1..] + [row];
      OneMoreRow(rows[1..], row, number + 1);
    }
  }

  // `k` rows from number `start` on, which may lie behind the last row when there are none.
  function From(rows: seq<seq<Cell>>, start: nat, k: nat): seq<seq<Cell>>
    requires k == 0 || start + k <= |rows|
  {
    if k == 0 then [] else rows[start..start + k]
  }

  lemma FromOneMore(rows: seq<seq<Cell>>, start: nat, k: nat, number: nat)
    requires start + k < |rows|
    ensures RowsPackages(From(rows, start, k + 1), number)
            == RowsPackages(From(rows, start, k), number) + RowBytes(rows[start + k], number + k)
  {
    hide RowBytes;
    assert From(rows, start, k + 1) == From(rows, start, k) + [rows[start + k]];
    OneMoreRow(From(rows, start, k), rows[start + k], number);
  }

  // The bytes of the packets of `k` rows from number `start` on.
  function PackedSize(rows: seq<seq<Cell>>, start: nat, k: nat): nat
    requires k == 0 || start + k <= |rows|
  {
    if k == 0 then 0 else PackedSize(rows, start, k - 1) + 4 + |CellsBytes(rows[start + k - 1])|
  }

  // Not enough room is left for one more row of `n` columns.
  predicate OutOfSpace(n: nat, written: nat, buffSize: int) {
    n * MAX_COLUMN_SIZE >= buffSize - written
  }

  // `sent` rows of the window are packed: all of it unless space ran out, and never one for which
  // no room was left.
  predicate Packed(rows: seq<seq<Cell>>, limit: Limit, n: nat, buffSize: int, sent: nat) {
    && sent <= Window(limit, |rows|)
    && (forall k :: 0 <= k < sent ==> !OutOfSpace(n, PackedSize(rows, limit.start, k), buffSize))
    && (sent < Window(limit, |rows|) ==> OutOfSpace(n, PackedSize(rows, limit.start, sent), buffSize))
  }

  // Rows of `n` cells, none of which goes further than `slack` beyond the room kept for it.
  predicate AllWithinSlack(rows: seq<seq<Cell>>, n: nat, slack: nat) {
    forall i :: 0 <= i < |rows| ==> |rows[i]| == n && 4 + |CellsBytes(rows[i])| <= n * MAX_COLUMN_SIZE + slack
  }

  // ----- projections -----

  // The texts of a table row in the order in which the columns were asked for.
  function Project(def: Definition, names: seq<Token>, texts: seq<seq<Byte>>): (r: seq<seq<Byte>>)
    requires AllDefined(def, names) && |texts| == |def|
    ensures |r| == |names|
  {
    seq(|names|, i requires 0 <= i < |names| => texts[IndexOf(def, names[i])])
  }

  // The projected and stored first `n` cells of a row.
  predicate Holds(row: seq<Cell>, def: Definition, names: seq<Token>, texts: seq<seq<Byte>>) {
    && |names| <= |row| && AllDefined(def, names) && |texts| == |def|
    && row[..|names|] == Stored(Project(def, names, texts))
  }

  type Row = r: seq<Cell> | |r| == MAX_COLUMNS witness Blank()

  function Blank(): seq<Cell> {
    seq(MAX_COLUMNS, _ => CLEAR)
  }

  class MysqlAnswer {
    const columPositions: array<int>
    const expressionsPositions: array<int>
    const columns: array<Name>
    var mapValues: map<nat, array<Cell>>

    ghost predicate Valid()
      reads this
    {
      && columPositions.Length == MAX_COLUMNS && expressionsPositions.Length == MAX_EXPRESSIONS
      && columPositions != expressionsPositions && columns.Length == MAX_COLUMNS
      && (forall k :: k in mapValues ==> mapValues[k].Length == MAX_COLUMNS)
      && (forall j, k :: j in mapValues && k in mapValues && j != k ==> mapValues[j] != mapValues[k])
    }

    // The cells of a line; a line that has no row yet reads as blank.
    ghost function RowOf(line: nat): Row
      requires Valid()
      reads this, mapValues.Values
    {
      if line in mapValues then mapValues[line][..] else Blank()
    }

    constructor ()
      ensures Valid() && mapValues == map[]
      ensures fresh(columPositions) && fresh(expressionsPositions) && fresh(columns)
    {
      columPositions := new int[MAX_COLUMNS](_ => 0);
      expressionsPositions := new int[MAX_EXPRESSIONS](_ => 0);
      columns := new Name[MAX_COLUMNS](_ => []);
      mapValues := map[];
    }

    // ----- resolving the columns -----

    // The accepted names have a place each, and the answer shows them in that order.
    ghost predicate Prepared(def: Definition, names: seq<Token>)
      reads this, columPositions, columns
    {
      && Valid() && |names| <= MAX_COLUMNS && AllDefined(def, names)
      && Mapped(columPositions[..], def, names) && CountUsed(columPositions[..]) == |names|
      && columns[..|names|] == names
    }

    method PrepareColumnsForSelect(def: Definition, q: Request) returns (code: int, selectedColumnsCount: nat)
      requires Valid()
      modifies columPositions, expressionsPositions, columns
      ensures code == SelectError(def, q)
      ensures code == SQL_OK ==> Prepared(def, Requested(def, q)) && selectedColumnsCount == |Requested(def, q)|
      ensures code == SQL_OK ==> Mapped(expressionsPositions[..], def, q.conditions)
    {
      Forget(columPositions);
      selectedColumnsCount := |q.selected|;
      if selectedColumnsCount > 0 {
        code := PlaceSelected(def, q.selected);
        if code != SQL_OK {
          return;
        }
      } else {
        selectedColumnsCount := PlaceAll(def);
      }
      code := PrepareWhereExpressions(def, q);
    }

    method PrepareColumnsForInsert(def: Definition, names: seq<Token>, valuesCount: nat)
      returns (code: int, namesCount: nat)
      requires Valid() && |names| <= MAX_COLUMNS
      modifies columPositions, columns
      ensures code == InsertError(def, names, valuesCount)
      ensures code == SQL_OK ==> Prepared(def, if names == [] then def else names) && namesCount == valuesCount
    {
      Forget(columPositions);
      namesCount := |names|;
      if namesCount != valuesCount && namesCount != 0 {
        return SQL_ERR_COLUMNS_LIST, namesCount;
      }
      if namesCount > 0 {
        code := PlaceSelected(def, names);
        return;
      }
      namesCount := PlaceAll(def);
      code := if namesCount != valuesCount then SQL_ERR_COLUMNS_LIST else SQL_OK;
    }

    method PlaceSelected(def: Definition, selected: seq<Token>) returns (code: int)
      requires Valid() && |selected| <= MAX_COLUMNS
      requires Mapped(columPositions[..], def, []) && CountUsed(columPositions[..]) == 0
      modifies columPositions, columns
      ensures code == FirstError(def, selected, NoneRefused(|selected|), 0)
      ensures code == SQL_OK ==> Prepared(def, selected)
    {
      hide Mapped;
      assert selected[..0] == [];
      for i := 0 to |selected|
        invariant Mapped(columPositions[..], def, selected[..i]) && CountUsed(columPositions[..]) == i
        invariant AllDefined(def, selected[..i]) && columns[..i] == selected[..i]
        invariant FirstError(def, selected, NoneRefused(|selected|), 0)
                  == FirstError(def, selected, NoneRefused(|selected|), i)
      {
        columns[i] := ColumnName(selected[i]);
        code := Place(columPositions, def, selected, i);
        if code != SQL_OK {
          return;
        }
        NameIsKept(def, selected[i]);
        assert selected[..i + 1] == selected[..i] + [selected[i]];
        assert columns[..i + 1] == columns[..i] + [selected[i]];
      }
      assert selected[..|selected|] == selected;
      code := SQL_OK;
    }

    method PlaceAll(def: Definition) returns (selectedColumnsCount: nat)
      requires Valid()
      requires forall k :: 0 <= k < MAX_COLUMNS ==> columPositions[k] == -1
      requires Mapped(columPositions[..], def, []) && CountUsed(columPositions[..]) == 0
      modifies columPositions, columns
      ensures Prepared(def, def) && selectedColumnsCount == |def|
    {
      hide Mapped, CountUsed, ColumnName;
      selectedColumnsCount := 0;
      var i := 0;
      assert def[..0] == [];
      while i < |def|
        invariant selectedColumnsCount == i <= |def|
        invariant Mapped(columPositions[..], def, def[..i]) && CountUsed(columPositions[..]) == i
        invariant forall k :: i <= k < |def| ==> columPositions[k] == -1
        invariant columns[..i] == def[..i]
      {
        ghost var pos := columPositions[..];
        assert IndexOf(def, def[i]) == i;
        NextMapped(pos, def, def[..i], def[i]);
        CountUsedUpdate(pos, i, i);
        assert def[..i] + [def[i]] == def[..i + 1];
        columns[i] := ColumnName(def[i]);
        NameIsKept(def, def[i]);
        columPositions[i] := i;
        assert columPositions[..] == pos[i := i];
        selectedColumnsCount := i + 1;
        i := i + 1;
      }
      assert def[..|def|] == def;
    }

    method PrepareWhereExpressions(def: Definition, q: Request) returns (code: int)
      requires Valid()
      modifies expressionsPositions
      ensures code == ConditionsError(def, q)
      ensures code == SQL_OK ==> Mapped(expressionsPositions[..], def, q.conditions)
    {
      hide Mapped;
      Forget(expressionsPositions);
      if q.ordered {
        return SQL_ERR_NOT_IMPLEMENTED;
      }
      assert q.conditions[..0] == [];
      for i := 0 to |q.conditions|
        invariant Mapped(expressionsPositions[..], def, q.conditions[..i])
        invariant CountUsed(expressionsPositions[..]) == i
        invariant FirstError(def, q.conditions, q.refused, 0) == FirstError(def, q.conditions, q.refused, i)
      {
        code := Place(expressionsPositions, def, q.conditions, i);
        if code != SQL_OK {
          return;
        }
        if q.refused[i] {
          return SQL_ERR_NOT_IMPLEMENTED;
        }
      }
      assert q.conditions[..|q.conditions|] == q.conditions;
      code := SQL_OK;
    }

    // The number of columns in the answer, which is the number in its head.
    method CountColumns() returns (count: nat)
      requires Valid()
      ensures count == CountUsed(columPositions[..])
    {
      count := 0;
      assert columPositions[0..] == columPositions[..];
      for i := 0 to MAX_COLUMNS
        invariant count + CountUsed(columPositions[i..]) == CountUsed(columPositions[..])
      {
        assert columPositions[i..][1..] == columPositions[i + 1..];
        if columPositions[i] >= 0 {
          count := count + 1;
        }
      }
    }

    // ----- cells -----

    method GetMapRow(line: nat) returns (row: array<Cell>)
      requires Valid()
      modifies this`mapValues
      ensures Valid() && line in mapValues && row == mapValues[line]
      ensures forall l: nat :: RowOf(l) == old(RowOf(l))
      ensures fresh(mapValues.Values - old(mapValues.Values))
    {
      if line in mapValues {
        return mapValues[line];
      }
      row := new Cell[MAX_COLUMNS](_ => CLEAR);
      mapValues := mapValues[line := row];
      assert row[..] == Blank();
    }

    predicate UseColumn(column: nat)
      requires columPositions.Length == MAX_COLUMNS
      reads columPositions
    {
      column < MAX_COLUMNS && columPositions[column] != -1
    }

    // `getValue(line, column) = text` for a column in use: sets one cell of one line.
    method SetCell(line: nat, column: nat, text: seq<Byte>)
      requires Valid() && UseColumn(column) && 0 <= columPositions[column] < MAX_COLUMNS
      modifies this`mapValues, mapValues.Values
      ensures Valid()
      ensures RowOf(line) == old(RowOf(line))[columPositions[column] := SetValue(text)]
      ensures forall l: nat :: l != line ==> RowOf(l) == old(RowOf(l))
      ensures fresh(mapValues.Values - old(mapValues.Values))
    {
      var row := GetMapRow(line);
      row[columPositions[column]] := SetValue(text);
    }

    // ----- the loops of the SELECT handlers -----

    // Sets the cell of a column of the table if the answer shows that column.
    method FillCell(line: nat, ghost def: Definition, ghost names: seq<Token>, column: nat, text: seq<Byte>)
      requires Prepared(def, names) && column < |def|
      modifies this`mapValues, mapValues.Values
      ensures Valid()
      ensures RowOf(line) == Shown(old(RowOf(line)), columPositions[column], text)
      ensures forall l: nat :: l != line ==> RowOf(l) == old(RowOf(l))
      ensures fresh(mapValues.Values - old(mapValues.Values))
    {
      if UseColumn(column) {
        SetCell(line, column, text);
      }
    }

    // One row of the table: a cell for every column in use.
    method FillRow(line: nat, def: Definition, ghost names: seq<Token>, texts: seq<seq<Byte>>)
      requires Prepared(def, names) && |texts| == |def|
      modifies this`mapValues, mapValues.Values
      ensures Valid() && Holds(RowOf(line), def, names, texts)
      ensures forall l: nat :: l != line ==> RowOf(l) == old(RowOf(l))
      ensures fresh(mapValues.Values - old(mapValues.Values))
    {
      hide Holds, Shown, FilledTo, Mapped, RowOf;
      ghost var pos := columPositions[..];
      StartsUnfilled(RowOf(line), pos, texts);
      for c := 0 to |def|
        invariant Valid() && FilledTo(RowOf(line), pos, texts, c)
        invariant forall l: nat :: l != line ==> RowOf(l) == old(RowOf(l))
        invariant fresh(mapValues.Values - old(mapValues.Values))
      {
        ghost var row := RowOf(line);
        FillCell(line, def, names, c, texts[c]);
        FilledOneMore(row, pos, def, names, texts, c);
      }
      RowIsFilled(RowOf(line), pos, def, names, texts);
    }

    // Writes a table of rows from line 0 on, over whatever the lines held before.
    method FillRows(def: Definition, ghost names: seq<Token>, table: seq<seq<seq<Byte>>>) returns (countRows: nat)
      requires Prepared(def, names) && (forall r :: 0 <= r < |table| ==> |table[r]| == |def|)
      modifies this`mapValues, mapValues.Values
      ensures Valid() && countRows == |table|
      ensures forall r :: 0 <= r < |table| ==> Holds(RowOf(r), def, names, table[r])
      ensures forall l: nat :: |table| <= l ==> RowOf(l) == old(RowOf(l))
      ensures fresh(mapValues.Values - old(mapValues.Values))
    {
      hide Holds;
      countRows := 0;
      while countRows < |table|
        invariant countRows <= |table| && Valid()
        invariant forall r :: 0 <= r < countRows ==> Holds(RowOf(r), def, names, table[r])
        invariant forall l: nat :: countRows <= l ==> RowOf(l) == old(RowOf(l))
        invariant fresh(mapValues.Values - old(mapValues.Values))
      {
        FillRow(countRows, def, names, table[countRows]);
        countRows := countRows + 1;
      }
    }

    // ----- packing the rows -----

    // The first `n` cells of the lines.
    ghost predicate Lines(rows: seq<seq<Cell>>, n: nat)
      requires Valid() && n <= MAX_COLUMNS
      reads this, mapValues.Values
    {
      forall l :: 0 <= l < |rows| ==> RowOf(l)[..n] == rows[l]
    }

    // Packs the line behind the `k` that were packed.
    method PackRow(number: nat, buff: array<Byte>, off: nat, start: nat, k: nat, size: nat, numColumns: nat,
                   ghost before: seq<Byte>, ghost rows: seq<seq<Cell>>)
      returns (size': nat)
      requires Valid() && numColumns <= MAX_COLUMNS && start + k < |rows| && Lines(rows, numColumns)
      requires size == PackedSize(rows, start, k) && size + 4 + |CellsBytes(rows[start + k])| <= buff.Length - off
      requires PackedInto(before, buff[..], off, rows, start, k, number)
      modifies this`mapValues, buff
      ensures Valid() && Lines(rows, numColumns)
      ensures size' == PackedSize(rows, start, k + 1)
      ensures PackedInto(before, buff[..], off, rows, start, k + 1, number)
    {
      hide PackedInto, CellsBytes, PackedSize, Lines;
      var row := LineOf(start + k, numColumns, rows);
      size' := PackLine(row, number, buff, off, start, k, size, numColumns, before, rows);
    }

    method LineOf(line: nat, ghost n: nat, ghost rows: seq<seq<Cell>>) returns (row: array<Cell>)
      requires Valid() && n <= MAX_COLUMNS && Lines(rows, n) && line < |rows|
      modifies this`mapValues
      ensures Valid() && Lines(rows, n) && row.Length == MAX_COLUMNS && row[..n] == rows[line]
      ensures fresh(mapValues.Values - old(mapValues.Values))
    {
      row := GetMapRow(line);
      assert RowOf(line) == row[..];
    }

    // Packs lines from `limit.start` on, with numbers from `number` + 1.  `rows` is what the lines
    // hold; nothing is written beyond the room by more than `slack`.
    method RowsToBuff(number: nat, buff: array<Byte>, off: nat, count: nat, limit: Limit, buffSize: int,
                      ghost rows: seq<seq<Cell>>, ghost slack: nat)
      returns (size: nat, realSendPackage: nat)
      requires Valid() && |rows| == count && CountUsed(columPositions[..]) <= MAX_COLUMNS
      requires Lines(rows, CountUsed(columPositions[..]))
      requires AllWithinSlack(rows, CountUsed(columPositions[..]), slack)
      requires off <= buff.Length && off + buffSize + slack <= buff.Length
      modifies this`mapValues, buff
      ensures Valid() && Packed(rows, limit, CountUsed(columPositions[..]), buffSize, realSendPackage)
      ensures size == PackedSize(rows, limit.start, realSendPackage)
      ensures size > 0 ==> size <= buffSize + slack
      ensures PackedInto(old(buff[..]), buff[..], off, rows, limit.start, realSendPackage, number)
    {
      hide CellsBytes, PackedInto, Lines, AllWithinSlack, PackedSize, OutOfSpace, CountUsed;
      var numColumns := CountColumns();
      ghost var before := buff[..];
      realSendPackage := 0;
      size := 0;
      NothingPacked(before, off, rows, limit.start, number);
      var i := limit.start;
      while i < count && (i < limit.rows || limit.rows == 0)
        invariant Valid() && Lines(rows, numColumns)
        invariant i == limit.start + realSendPackage && realSendPackage <= Window(limit, count)
        invariant size == PackedSize(rows, limit.start, realSendPackage)
        invariant forall k :: 0 <= k < realSendPackage ==>
                  !OutOfSpace(numColumns, PackedSize(rows, limit.start, k), buffSize)
        invariant size > 0 ==> size <= buffSize + slack
        invariant PackedInto(before, buff[..], off, rows, limit.start, realSendPackage, number)
      {
        if OutOfSpace(numColumns, size, buffSize) {
          return;
        }
        RoomForOne(rows, i, numColumns, slack, size, buffSize);
        StepSize(rows, limit.start, realSendPackage);
        size := PackRow(number, buff, off, limit.start, realSendPackage, size, numColumns, before, rows);
        realSendPackage := realSendPackage + 1;
        i := i + 1;
      }
    }

    // Head, rows and EOF; `wire` is what is handed to the socket, in two writes.
    method SendAllRowsAndHeaders(selectedColumnsCount: nat, number: nat, countRows: nat, limit: Limit,
                                 answerBuf: array<Byte>, bufSize: nat, ghost rows: seq<seq<Cell>>, ghost slack: nat)
      returns (wire: seq<Byte>, realSendPackage: nat)
      requires Valid() && selectedColumnsCount == CountUsed(columPositions[..]) <= MAX_COLUMNS
      requires |rows| == countRows && Lines(rows, selectedColumnsCount)
      requires AllWithinSlack(rows, selectedColumnsCount, slack)
      requires HeadSize(columns[..selectedColumnsCount]) <= answerBuf.Length && bufSize + slack <= answerBuf.Length
      modifies this`mapValues, answerBuf
      ensures Valid()
      ensures Packed(rows, limit, selectedColumnsCount, bufSize - HeadSize(columns[..selectedColumnsCount]),
                     realSendPackage)
      ensures wire == AnswerBytes(columns[..selectedColumnsCount], From(rows, limit.start, realSendPackage), number,
                                  old(answerBuf[..]))
    {
      hide Lines, AllWithinSlack, Wrote, Packed, HeadBytes, RowsPackages, CountUsed, From, PackedSize;
      ghost var before := answerBuf[..];
      ghost var head := HeadBytes(columns[..selectedColumnsCount], number + 1, before, 0);
      var answer, last := HeadAnswer(columns[..selectedColumnsCount], number, answerBuf, 0);
      ghost var b := answerBuf[..];
      var size;
      size, realSendPackage := RowsToBuff(last, answerBuf, answer, countRows, limit, bufSize - answer, rows, slack);
      PackedBounds(rows, limit, selectedColumnsCount, bufSize - answer, realSendPackage);
      ghost var packets := RowsPackages(From(rows, limit.start, realSendPackage), last + 1);
      WroteThen(before, b, answerBuf[..], 0, head, packets);
      WroteFront(before, answerBuf[..], head + packets);
      wire := answerBuf[..answer + size];
      var eof := SendEofPackage(last + realSendPackage + 1, answerBuf);
      wire := wire + eof;
    }

    // A SELECT handler: resolve the columns, fill the lines, answer.  Whatever `mapValues` and the
    // buffer held before, the client reads the emitted rows projected to the requested columns.
    method SelectFrom(def: Definition, q: Request, table: seq<seq<seq<Byte>>>, number: nat, answerBuf: array<Byte>,
                      bufSize: nat, ghost slack: nat)
      returns (code: int, wire: seq<Byte>, sent: nat)
      requires Valid() && IsTable(def, table)
      requires ColumnsAccepted(def, q) ==> TableFits(def, Requested(def, q), table, slack)
      requires MAX_HEAD <= answerBuf.Length && bufSize + slack <= answerBuf.Length
      modifies this`mapValues, mapValues.Values, columPositions, expressionsPositions, columns, answerBuf
      ensures Valid() && code == SelectError(def, q)
      ensures code == SQL_OK ==> ColumnsAccepted(def, q) && ConditionsAccepted(def, q)
      ensures code == SQL_OK ==> IsSent(def, Requested(def, q), table, Parsed(q.limit), bufSize, sent)
      ensures code == SQL_OK ==> SendsSelected(def, Requested(def, q), table, Parsed(q.limit), bufSize, sent)
      ensures code == SQL_OK ==>
                ReadResultSet(wire, number + 1)
                == ResultSet(Requested(def, q), Projected(def, Requested(def, q), table, Parsed(q.limit).start, sent))
      ensures code == SQL_OK ==>
                AnswersWith(ReadResultSet(wire, number + 1), def, q, table, Parsed(q.limit).start, sent)
    {
      hide Prepared, FirstError, ColumnsAccepted, ConditionsAccepted, IsSent, SendsSelected, Parsed, ReadResultSet,
           Projected, TableFits, HeadSize, AnswersWith;
      var selectedColumnsCount;
      SelectAcceptedIff(def, q);
      code, selectedColumnsCount := PrepareColumnsForSelect(def, q);
      wire, sent := [], 0;
      if code == SQL_OK {
        wire, sent := AnswerSelect(def, Requested(def, q), selectedColumnsCount, table, Parsed(q.limit), number,
                                   answerBuf, bufSize, slack);
        SentIsSelected(def, Requested(def, q), table, Parsed(q.limit), bufSize, sent);
        SelectedInTable(def, Requested(def, q), table, Parsed(q.limit), bufSize, sent);
        ProjectedAnswers(def, q, table, Parsed(q.limit).start, sent);
      }
    }

    // The handler of an accepted query.
    method AnswerSelect(def: Definition, ghost names: seq<Token>, selectedColumnsCount: nat,
                        table: seq<seq<seq<Byte>>>, limit: Limit, number: nat, answerBuf: array<Byte>, bufSize: nat,
                        ghost slack: nat)
      returns (wire: seq<Byte>, sent: nat)
      requires Prepared(def, names) && selectedColumnsCount == |names| && IsTable(def, table)
      requires TableFits(def, names, table, slack)
      requires MAX_HEAD <= answerBuf.Length && bufSize + slack <= answerBuf.Length
      modifies this`mapValues, mapValues.Values, answerBuf
      ensures Valid() && IsSent(def, names, table, limit, bufSize, sent)
      ensures ReadResultSet(wire, number + 1) == ResultSet(names, Projected(def, names, table, limit.start, sent))
    {
      hide Mapped, Lines, AllWithinSlack, Packed, AnswerBytes, Holds, CountUsed, HeadSize, ColumnNames, IsSent,
           ReadResultSet, Projected, From;
      var countRows := FillRows(def, names, table);
      ghost var rows := StoredRows(def, names, table);
      LinesHold(def, names, table, rows);
      SmallHead(columns[..selectedColumnsCount]);
      ghost var before := answerBuf[..];
      wire, sent := SendAllRowsAndHeaders(selectedColumnsCount, number, countRows, limit, answerBuf, bufSize, rows,
                                          slack);
      AnswerGiven(def, columns[..selectedColumnsCount], table, limit, number, before, bufSize, sent);
    }

    lemma LinesHold(def: Definition, names: seq<Token>, table: seq<seq<seq<Byte>>>, rows: seq<seq<Cell>>)
      requires Valid() && AllDefined(def, names) && |names| <= MAX_COLUMNS && IsTable(def, table)
      requires rows == StoredRows(def, names, table)
      requires forall r :: 0 <= r < |table| ==> Holds(RowOf(r), def, names, table[r])
      ensures Lines(rows, |names|)
    {
    }
  }

  // ----- the end-to-end statement -----

  // Rows of one text a column, none of them longer than 65535 bytes, short ones without NUL.
  predicate IsTable(def: Definition, table: seq<seq<seq<Byte>>>) {
    forall r :: 0 <= r < |table| ==> |table[r]| == |def| && PlainTexts(table[r])
  }

  function StoredRows(def: Definition, names: seq<Token>, table: seq<seq<seq<Byte>>>): (rows: seq<seq<Cell>>)
    requires AllDefined(def, names) && (forall r :: 0 <= r < |table| ==> |table[r]| == |def|)
    ensures |rows| == |table|
    ensures forall r :: 0 <= r < |table| ==> rows[r] == Stored(Project(def, names, table[r]))
  {
    seq(|table|, r requires 0 <= r < |table| => Stored(Project(def, names, table[r])))
  }

  predicate TableFits(def: Definition, names: seq<Token>, table: seq<seq<seq<Byte>>>, slack: nat)
    requires AllDefined(def, names) && (forall r :: 0 <= r < |table| ==> |table[r]| == |def|)
  {
    AllWithinSlack(StoredRows(def, names, table), |names|, slack)
  }

  lemma ColumnNamesKept(def: Definition, names: seq<Name>)
    requires AllDefined(def, names)
    ensures ColumnNames(names) == names
  {
    forall i | 0 <= i < |names|
      ensures ColumnName(names[i]) == names[i]
    {
      NameIsKept(def, names[i]);
    }
  }

  // `sent` rows of the window are what the buffer takes behind the head: all of them unless space
  // runs out, and never one for which no room is left.
  predicate IsSent(def: Definition, names: seq<Token>, table: seq<seq<seq<Byte>>>, limit: Limit, bufSize: nat,
                   sent: nat)
    requires AllDefined(def, names) && (forall r :: 0 <= r < |table| ==> |table[r]| == |def|)
  {
    Packed(StoredRows(def, names, table), limit, |names|, bufSize - HeadSize(ColumnNames(names)), sent)
  }

  // The rows that are sent are the first of those that the clause selects, each while more than 2000
  // bytes a column are left behind the head and the rows before it, and all of them unless one finds
  // no more than that.
  ghost predicate SendsSelected(def: Definition, names: seq<Token>, table: seq<seq<seq<Byte>>>, limit: Limit,
                                bufSize: nat, sent: nat)
    requires AllDefined(def, names) && (forall r :: 0 <= r < |table| ==> |table[r]| == |def|)
  {
    var rows := StoredRows(def, names, table);
    var room := bufSize - HeadSize(ColumnNames(names));
    var emitted := SqlLimit.Rows(limit.start, limit.start + sent);
    && emitted <= SentRows(limit, |table|)
    && (sent == 0 || limit.start + sent <= |table|)
    && (forall k :: 0 <= k < sent ==> room - PackedSize(rows, limit.start, k) > |names| * 2000)
    && (emitted == SentRows(limit, |table|) || room - PackedSize(rows, limit.start, sent) <= |names| * 2000)
  }

  lemma SentIsSelected(def: Definition, names: seq<Token>, table: seq<seq<seq<Byte>>>, limit: Limit, bufSize: nat,
                       sent: nat)
    requires AllDefined(def, names) && (forall r :: 0 <= r < |table| ==> |table[r]| == |def|)
    requires IsSent(def, names, table, limit, bufSize, sent)
    ensures SendsSelected(def, names, table, limit, bufSize, sent)
  {
    hide HeadSize, ColumnNames, PackedSize;
    FirstOfWindow(limit, |table|, sent);
  }

  lemma SelectedInTable(def: Definition, names: seq<Token>, table: seq<seq<seq<Byte>>>, limit: Limit, bufSize: nat,
                        sent: nat)
    requires AllDefined(def, names) && (forall r :: 0 <= r < |table| ==> |table[r]| == |def|)
    requires SendsSelected(def, names, table, limit, bufSize, sent)
    ensures sent == 0 || limit.start + sent <= |table|
  {
  }

  // The cell under each name is that of its column.
  predicate RowAnswers(cells: seq<seq<Byte>>, names: seq<Token>, def: Definition, texts: seq<seq<Byte>>)
    requires |texts| == |def|
  {
    && |cells| == |names|
    && (forall i, j :: 0 <= i < |names| && 0 <= j < |def| && def[j] == names[i] ==> cells[i] == texts[j])
  }

  lemma ProjectAnswers(def: Definition, names: seq<Token>, texts: seq<seq<Byte>>)
    requires AllDefined(def, names) && |texts| == |def|
    ensures RowAnswers(Project(def, names, texts), names, def, texts)
  {
    forall i, j | 0 <= i < |names| && 0 <= j < |def| && def[j] == names[i]
      ensures Project(def, names, texts)[i] == texts[j]
    {
      assert IndexOf(def, names[i]) == j;
    }
  }

  // What a client should read: the columns that were asked for, or all of the table, and `sent` rows
  // from number `start` on, each with the cell of its row under each name.
  ghost predicate AnswersWith(read: ResultSet, def: Definition, q: Request, table: seq<seq<seq<Byte>>>, start: nat,
                              sent: nat)
    requires forall r :: 0 <= r < |table| ==> |table[r]| == |def|
  {
    && read.ResultSet? && read.names == (if q.selected == [] then def else q.selected)
    && |read.rows| == sent && (sent == 0 || start + sent <= |table|)
    && (forall r :: 0 <= r < sent ==> RowAnswers(read.rows[r], read.names, def, table[start + r]))
  }

  lemma ProjectedAnswers(def: Definition, q: Request, table: seq<seq<seq<Byte>>>, start: nat, sent: nat)
    requires ColumnsAccepted(def, q) && IsTable(def, table) && (sent == 0 || start + sent <= |table|)
    ensures AllDefined(def, Requested(def, q))
    ensures AnswersWith(ResultSet(Requested(def, q), Projected(def, Requested(def, q), table, start, sent)), def, q,
                        table, start, sent)
  {
    hide PlainTexts, RowAnswers, Project;
    var names := Requested(def, q);
    assert AllDefined(def, names);
    var rows := Projected(def, names, table, start, sent);
    forall r | 0 <= r < sent
      ensures RowAnswers(rows[r], names, def, table[start + r])
    {
      assert rows[r] == Project(def, names, table[start + r]);
      ProjectAnswers(def, names, table[start + r]);
    }
  }

  // A SELECT without LIMIT, with cells of at most 1993 bytes and a buffer that takes 2000 bytes a
  // cell behind the head, is answered with all rows of the table.
  lemma UnlimitedSendsAll(def: Definition, names: seq<Token>, table: seq<seq<seq<Byte>>>, bufSize: nat, sent: nat)
    requires AllDefined(def, names) && names != []
    requires forall r :: 0 <= r < |table| ==>
               |table[r]| == |def| && (forall j :: 0 <= j < |def| ==> |table[r][j]| <= 1993)
    requires IsSent(def, names, table, Parsed(NoLimit), bufSize, sent)
    requires bufSize - HeadSize(ColumnNames(names)) > |table| * (|names| * MAX_COLUMN_SIZE)
    ensures sent == |table| && Parsed(NoLimit).start == 0
  {
    hide HeadSize, ColumnNames, IsSent;
    assert Window(Parsed(NoLimit), |table|) == |table|;
    WholeWindowIsSent(def, names, table, Parsed(NoLimit), bufSize, sent);
  }

  lemma {:induction false} SmallSizes(rows: seq<seq<Cell>>, n: nat, start: nat, k: nat)
    requires AllWithinSlack(rows, n, 0) && (k == 0 || start + k <= |rows|)
    ensures PackedSize(rows, start, k) <= k * (n * MAX_COLUMN_SIZE)
  {
    hide CellsBytes;
    if k > 0 {
      SmallSizes(rows, n, start, k - 1);
      OneMore(k - 1, n * MAX_COLUMN_SIZE);
    }
  }

  // With cells of at most 1993 bytes and a buffer that takes 2000 bytes a cell behind the head, the
  // whole window is sent.
  lemma WholeWindowIsSent(def: Definition, names: seq<Token>, table: seq<seq<seq<Byte>>>, limit: Limit, bufSize: nat,
                          sent: nat)
    requires AllDefined(def, names) && names != []
    requires forall r :: 0 <= r < |table| ==>
               |table[r]| == |def| && (forall j :: 0 <= j < |def| ==> |table[r][j]| <= 1993)
    requires IsSent(def, names, table, limit, bufSize, sent)
    requires bufSize - HeadSize(ColumnNames(names)) > Window(limit, |table|) * (|names| * MAX_COLUMN_SIZE)
    ensures sent == Window(limit, |table|)
  {
    hide HeadSize, ColumnNames, CellsBytes, AllWithinSlack;
    var rows := StoredRows(def, names, table);
    SmallCellsFit(def, names, table);
    if sent < Window(limit, |table|) {
      RoomIsLeft(rows, |names|, limit, bufSize - HeadSize(ColumnNames(names)), sent);
    }
  }

  lemma RoomIsLeft(rows: seq<seq<Cell>>, n: nat, limit: Limit, buffSize: int, sent: nat)
    requires AllWithinSlack(rows, n, 0) && sent < Window(limit, |rows|)
    requires buffSize > Window(limit, |rows|) * (n * MAX_COLUMN_SIZE)
    ensures !OutOfSpace(n, PackedSize(rows, limit.start, sent), buffSize)
  {
    hide AllWithinSlack;
    var room := n * MAX_COLUMN_SIZE;
    SmallSizes(rows, n, limit.start, sent);
    OneMore(sent, room);
    MoreRoom(sent + 1, Window(limit, |rows|), room);
  }

  lemma MoreRoom(k: nat, window: nat, room: nat)
    requires k <= window
    ensures k * room <= window * room
  {
  }

  // Cells of at most 1993 bytes never need more than the room that is kept for a row ...
  lemma SmallCellsFit(def: Definition, names: seq<Token>, table: seq<seq<seq<Byte>>>)
    requires AllDefined(def, names) && names != []
    requires forall r :: 0 <= r < |table| ==>
               |table[r]| == |def| && (forall j :: 0 <= j < |def| ==> |table[r][j]| <= 1993)
    ensures TableFits(def, names, table, 0)
  {
    hide CellsBytes;
    forall r | 0 <= r < |table|
      ensures 4 + |CellsBytes(Stored(Project(def, names, table[r])))| <= |names| * MAX_COLUMN_SIZE
    {
      RowSize(Project(def, names, table[r]), 1993);
    }
  }

  // ... while long ones go beyond it by less than 64 KiB for each column.
  lemma PlainTableFits(def: Definition, names: seq<Token>, table: seq<seq<seq<Byte>>>)
    requires AllDefined(def, names) && IsTable(def, table)
    ensures TableFits(def, names, table, 4 + |names| * 65538)
  {
    hide CellsBytes, Readable;
    forall r | 0 <= r < |table|
      ensures 4 + |CellsBytes(Stored(Project(def, names, table[r])))| <= 4 + |names| * 65538
    {
      RowSize(Project(def, names, table[r]), 65535);
    }
  }

  // The rows of the answer: `sent` rows from number `start` on, each projected to `names`.
  function Projected(def: Definition, names: seq<Token>, table: seq<seq<seq<Byte>>>, start: nat, sent: nat):
    (rows: seq<seq<seq<Byte>>>)
    requires AllDefined(def, names) && (forall r :: 0 <= r < |table| ==> |table[r]| == |def|)
    requires sent == 0 || start + sent <= |table|
    ensures |rows| == sent
  {
    seq(sent, k requires 0 <= k < sent => Project(def, names, table[start + k]))
  }

  lemma {:induction false} SameBytes(rows: seq<seq<Cell>>, texts: seq<seq<seq<Byte>>>, number: nat)
    requires |rows| == |texts| && (forall k :: 0 <= k < |rows| ==> rows[k] == Stored(texts[k]))
    ensures RowsPackages(rows, number) == RowsBytes(texts, number)
    decreases |rows|
  {
    hide RowBytes, Stored;
    if rows != [] {
      SameBytes(rows[1..], texts[1..], number + 1);
    }
  }

  lemma ProjectedIsPlain(def: Definition, names: seq<Token>, table: seq<seq<seq<Byte>>>, start: nat, sent: nat)
    requires AllDefined(def, names) && IsTable(def, table) && (sent == 0 || start + sent <= |table|)
    ensures PlainRows(Projected(def, names, table, start, sent), |names|)
  {
    var rows := Projected(def, names, table, start, sent);
    forall k | 0 <= k < sent
      ensures |rows[k]| == |names| && PlainTexts(rows[k])
    {
      assert rows[k] == Project(def, names, table[start + k]);
      ProjectIsPlain(def, names, table[start + k]);
    }
  }

  lemma ProjectIsPlain(def: Definition, names: seq<Token>, texts: seq<seq<Byte>>)
    requires AllDefined(def, names) && |texts| == |def| && PlainTexts(texts)
    ensures PlainTexts(Project(def, names, texts))
  {
    hide Readable;
    forall i | 0 <= i < |names|
      ensures Readable(Project(def, names, texts)[i]) && |Project(def, names, texts)[i]| < 0x1_0000
    {
      assert texts[IndexOf(def, names[i])] == Project(def, names, texts)[i];
    }
  }

  lemma SentIsProjected(def: Definition, names: seq<Name>, table: seq<seq<seq<Byte>>>, start: nat, sent: nat,
                        number: nat)
    requires AllDefined(def, names) && IsTable(def, table) && (sent == 0 || start + sent <= |table|)
    ensures RowsPackages(From(StoredRows(def, names, table), start, sent), number)
            == RowsBytes(Projected(def, names, table, start, sent), number)
  {
    hide PlainTexts, Stored, RowsPackages, RowsBytes;
    SameBytes(From(StoredRows(def, names, table), start, sent), Projected(def, names, table, start, sent), number);
  }

  lemma AnswerIsRead(def: Definition, names: seq<Name>, table: seq<seq<seq<Byte>>>, limit: Limit, number: nat,
                     before: seq<Byte>, buffSize: int, sent: nat)
    requires AllDefined(def, names) && IsTable(def, table) && |names| < 256 && HeadSize(names) <= |before|
    requires Packed(StoredRows(def, names, table), limit, |names|, buffSize, sent)
    ensures sent <= Window(limit, |table|)
    ensures ReadResultSet(AnswerBytes(names, From(StoredRows(def, names, table), limit.start, sent), number, before),
                          number + 1)
            == ResultSet(names, Projected(def, names, table, limit.start, sent))
  {
    hide PlainTexts, Stored, ReadResultSet, HeadBytes, RowsPackages, RowsBytes, EofBytes, HeadSize, PlainRows,
         Projected, StoredRows, From, PackedSize, AllDefined;
    var rows := StoredRows(def, names, table);
    var texts := Projected(def, names, table, limit.start, sent);
    PackedBounds(rows, limit, |names|, buffSize, sent);
    SentIsProjected(def, names, table, limit.start, sent, number + 3 + |names|);
    ProjectedIsPlain(def, names, table, limit.start, sent);
    AnswerRoundTrip(names, texts, number + 1, before, 0);
    var head := HeadBytes(names, number + 1, before, 0);
    var packets := RowsBytes(texts, number + 3 + |names|);
    var eof := EofBytes(number + 3 + |names| + sent);
    assert head + packets + eof == head + (packets + eof);
  }

  lemma AnswerGiven(def: Definition, names: seq<Name>, table: seq<seq<seq<Byte>>>, limit: Limit, number: nat,
                    before: seq<Byte>, bufSize: nat, sent: nat)
    requires AllDefined(def, names) && IsTable(def, table) && |names| < 256 && HeadSize(names) <= |before|
    requires Packed(StoredRows(def, names, table), limit, |names|, bufSize - HeadSize(names), sent)
    ensures IsSent(def, names, table, limit, bufSize, sent)
    ensures ReadResultSet(AnswerBytes(names, From(StoredRows(def, names, table), limit.start, sent), number, before),
                          number + 1)
            == ResultSet(names, Projected(def, names, table, limit.start, sent))
  {
    hide Packed, HeadSize, ColumnNames, ReadResultSet, AnswerBytes, From, StoredRows, Projected;
    AnswerIsRead(def, names, table, limit, number, before, bufSize - HeadSize(names), sent);
    ColumnNamesKept(def, names);
  }

  // The head of at most 20 columns, each of at most 276 bytes.
  const MAX_HEAD := 14 + MAX_COLUMNS * 276

  lemma PackedBounds(rows: seq<seq<Cell>>, limit: Limit, n: nat, buffSize: int, sent: nat)
    requires Packed(rows, limit, n, buffSize, sent)
    ensures sent == 0 || limit.start + sent <= |rows|
    ensures |From(rows, limit.start, sent)| == sent
  {
  }

  function AnswerBytes(names: seq<Name>, rows: seq<seq<Cell>>, number: nat, before: seq<Byte>): seq<Byte>
    requires |names| < 256 && HeadSize(names) <= |before|
  {
    HeadBytes(names, number + 1, before, 0) + RowsPackages(rows, number + 3 + |names|)
    + EofBytes(number + 3 + |names| + |rows|)
  }

  lemma WroteFront(before: seq<Byte>, after: seq<Byte>, bytes: seq<Byte>)
    requires Wrote(before, after, 0, bytes)
    ensures after[..|bytes|] == bytes
  {
  }

  method PackLine(row: array<Cell>, number: nat, buff: array<Byte>, off: nat, start: nat, k: nat, size: nat,
                  numColumns: nat, ghost before: seq<Byte>, ghost rows: seq<seq<Cell>>)
    returns (size': nat)
    requires numColumns <= row.Length && start + k < |rows| && row[..numColumns] == rows[start + k]
    requires size == PackedSize(rows, start, k) && size + 4 + |CellsBytes(rows[start + k])| <= buff.Length - off
    requires PackedInto(before, buff[..], off, rows, start, k, number)
    modifies buff
    ensures size' == PackedSize(rows, start, k + 1)
    ensures PackedInto(before, buff[..], off, rows, start, k + 1, number)
  {
    hide Wrote, RowsPackages, CellsBytes, From;
    ghost var b := buff[..];
    ghost var done := RowsPackages(From(rows, start, k), number + 1);
    var delta := RowPackage(numColumns, row, number + 1 + k, buff, off + size);
    WroteThen(before, b, buff[..], off, done, RowBytes(rows[start + k], number + 1 + k));
    FromOneMore(rows, start, k, number + 1);
    size' := size + delta;
  }

  // The buffer holds the packets of `k` rows at `off`, and is otherwise unchanged.
  predicate PackedInto(before: seq<Byte>, after: seq<Byte>, off: nat, rows: seq<seq<Cell>>, start: nat, k: nat,
                       number: nat)
    requires k == 0 || start + k <= |rows|
  {
    var bytes := RowsPackages(From(rows, start, k), number + 1);
    Wrote(before, after, off, bytes) && |bytes| == PackedSize(rows, start, k)
  }

  lemma NothingPacked(before: seq<Byte>, off: nat, rows: seq<seq<Cell>>, start: nat, number: nat)
    requires off <= |before|
    ensures PackedSize(rows, start, 0) == 0
    ensures PackedInto(before, before, off, rows, start, 0, number)
  {
  }

  lemma StepSize(rows: seq<seq<Cell>>, start: nat, k: nat)
    requires start + k < |rows|
    ensures PackedSize(rows, start, k + 1) == PackedSize(rows, start, k) + 4 + |CellsBytes(rows[start + k])|
  {
  }

  lemma RoomForOne(rows: seq<seq<Cell>>, i: nat, n: nat, slack: nat, size: nat, buffSize: int)
    requires i < |rows| && AllWithinSlack(rows, n, slack) && !OutOfSpace(n, size, buffSize)
    ensures size + 4 + |CellsBytes(rows[i])| <= buffSize + slack
  {
  }

  // A row after the cell of a column at `place` is set; no place, no cell.
  function Shown(row: Row, place: int, text: seq<Byte>): Row {
    if 0 <= place < MAX_COLUMNS then row[place := SetValue(text)] else row
  }

  // The first `c` columns of the table have their cells.
  predicate FilledTo(row: Row, pos: seq<int>, texts: seq<seq<Byte>>, c: nat) {
    && c <= |texts| && c <= |pos|
    && (forall j :: 0 <= j < c && 0 <= pos[j] < MAX_COLUMNS ==> row[pos[j]] == SetValue(texts[j]))
  }

  lemma StartsUnfilled(row: Row, pos: seq<int>, texts: seq<seq<Byte>>)
    ensures FilledTo(row, pos, texts, 0)
  {
  }

  lemma FilledOneMore(row: Row, pos: seq<int>, def: Definition, names: seq<Token>, texts: seq<seq<Byte>>, c: nat)
    requires Mapped(pos, def, names) && c < |def| == |texts| && FilledTo(row, pos, texts, c)
    ensures FilledTo(Shown(row, pos[c], texts[c]), pos, texts, c + 1)
  {
    hide SetValue;
    MappedIsBijection(pos, def, names);
  }

  lemma RowIsFilled(row: Row, pos: seq<int>, def: Definition, names: seq<Token>, texts: seq<seq<Byte>>)
    requires Mapped(pos, def, names) && AllDefined(def, names) && |names| <= MAX_COLUMNS
    requires FilledTo(row, pos, texts, |def|) && |texts| == |def|
    ensures Holds(row, def, names, texts)
  {
    hide SetValue;
    var projected := Project(def, names, texts);
    forall i | 0 <= i < |names|
      ensures row[i] == Stored(projected)[i]
    {
      assert pos[IndexOf(def, names[i])] == i;
    }
    assert row[..|names|] == Stored(projected);
  }

  lemma NameIsKept(def: Definition, name: Token)
    requires name in def
    ensures ColumnName(name) == name
  {
    var j := IndexOf(def, name);
    var kept: Name := def[j];
    StrLenUnique(kept, |kept|);
    assert kept[..|kept|] == name;
  }
}
