/** The proxy's union of a SELECT over all nodes: the all-nodes branch of `proxy_union_select`.

    Every node of the cluster is asked in turn.  A node that fails is skipped; the first one that
    answers gives the head; the rows of all of them follow each other under one numbering.
 */
module ProxyUnion {
  import opened Bytes
  import opened Sequences
  import opened ColumnMapping
  import opened MySqlProtocol
  import opened MySqlClient

  // A fetched cell.
  datatype Value = Null | Value(text: seq<Byte>)

  // What asking a node comes to: no success, success without a result set, or a result set.
  // `failure` is the error that the connection to the node reports.
  datatype Node =
    | Fails(failure: Failure)
    | NoResult(failure: Failure)
    | Answers(fields: seq<seq<Byte>>, rows: seq<seq<Value>>)

  // What the client gets: an answer, or an error packet.
  datatype Outcome = Answer(wire: seq<Byte>) | Refused(wire: seq<Byte>)

  // ----- what the answer should be -----

  // Cells are taken as C strings, NULL as the empty text.
  function Shown(v: Value): seq<Byte> {
    match v case Null => [] case Value(text) => CString(text)
  }

  function Texts(row: seq<Value>, n: nat): (r: seq<seq<Byte>>)
    requires n <= |row|
    ensures |r| == n
  {
    seq(n, i requires 0 <= i < n => Shown(row[i]))
  }

  // The head of the first node that answers, at most 20 columns of it.
  function UnionNames(nodes: seq<Node>): (r: seq<Name>)
    ensures |r| <= MAX_COLUMNS
  {
    if nodes == [] then []
    else
      match nodes[0]
      case Answers(fields, _) => ColumnNames(if |fields| > MAX_COLUMNS then fields[..MAX_COLUMNS] else fields)
      case _ => UnionNames(nodes[1..])
  }

  // The rows of a node have a cell for each of the first `n` columns.
  predicate Wide(node: Node, n: nat) {
    node.Answers? ==> forall r :: 0 <= r < |node.rows| ==> n <= |node.rows[r]|
  }

  predicate AllWide(nodes: seq<Node>, n: nat) {
    forall k :: 0 <= k < |nodes| ==> Wide(nodes[k], n)
  }

  function NodeRows(rows: seq<seq<Value>>, n: nat): (r: seq<seq<seq<Byte>>>)
    requires forall r :: 0 <= r < |rows| ==> n <= |rows[r]|
    ensures |r| == |rows|
  {
    if rows == [] then [] else [Texts(rows[0], n)] + NodeRows(rows[1..], n)
  }

  // The rows of all answering nodes, in the order of the cluster.
  function UnionRows(nodes: seq<Node>, n: nat): seq<seq<seq<Byte>>>
    requires AllWide(nodes, n)
  {
    if nodes == [] then []
    else
      assert Wide(nodes[0], n);
      (if nodes[0].Answers? then NodeRows(nodes[0].rows, n) else []) + UnionRows(nodes[1..], n)
  }

  predicate SomeAnswer(nodes: seq<Node>) {
    exists k :: 0 <= k < |nodes| && nodes[k].Answers?
  }

  predicate NoneWithoutResult(nodes: seq<Node>) {
    forall k :: 0 <= k < |nodes| ==> !nodes[k].NoResult?
  }

  // The nodes before the first one that succeeds without a result set.
  function Before(nodes: seq<Node>): (r: seq<Node>)
    ensures |r| <= |nodes| && r == nodes[..|r|] && NoneWithoutResult(r)
    ensures |r| < |nodes| ==> nodes[|r|].NoResult?
  {
    if nodes == [] || nodes[0].NoResult? then [] else [nodes[0]] + Before(nodes[1..])
  }

  // The number of the last packet put into the buffer for `nodes`.
  function LastNumber(nodes: seq<Node>, n: nat, number: nat): nat
    requires AllWide(nodes, n)
  {
    if SomeAnswer(nodes) then number + 2 + n + |UnionRows(nodes, n)| else number
  }

  // ----- the union -----

  method FillValues(value: array<Cell>, row: seq<Value>, n: nat)
    requires n <= value.Length && n <= |row|
    modifies value
    ensures value[..n] == Stored(Texts(row, n))
  {
    for i := 0 to n
      invariant value[..i] == Stored(Texts(row, n))[..i]
    {
      value[i] := SetValue(Shown(row[i]));
    }
  }

  // `mysql_fetch_field` until the columns are used up.
  method FetchFields(columns: array<Name>, fields: seq<seq<Byte>>) returns (n: nat)
    requires columns.Length == MAX_COLUMNS
    modifies columns
    ensures n == if |fields| > MAX_COLUMNS then MAX_COLUMNS else |fields|
    ensures columns[..n] == ColumnNames(fields[..n])
  {
    n := 0;
    while n < |fields|
      invariant n <= |fields| && n < MAX_COLUMNS
      invariant columns[..n] == ColumnNames(fields)[..n]
    {
      columns[n] := ColumnName(fields[n]);
      n := n + 1;
      if n >= MAX_COLUMNS {
        break;
      }
    }
    assert ColumnNames(fields[..n]) == ColumnNames(fields)[..n];
  }

  // `whole` is what the buffer should start with in the end: `done` is there, and the packets of
  // `rows` are still to come.
  predicate Progress(before: seq<Byte>, after: seq<Byte>, done: seq<Byte>, whole: seq<Byte>, rows: seq<seq<seq<Byte>>>,
                     number: nat) {
    && Wrote(before, after, 0, done) && |whole| <= |before|
    && whole == done + RowsBytes(rows, number + 1)
  }

  method AppendRow(row: seq<Value>, n: nat, value: array<Cell>, number: nat, buff: array<Byte>, p: nat,
                   ghost before: seq<Byte>, ghost done: seq<Byte>, ghost whole: seq<Byte>,
                   ghost rest: seq<seq<seq<Byte>>>)
    returns (p': nat, ghost done': seq<Byte>)
    requires n <= value.Length && n <= |row| && p == |done|
    requires Progress(before, buff[..], done, whole, [Texts(row, n)] + rest, number)
    modifies value, buff
    ensures p' == |done'| && Progress(before, buff[..], done', whole, rest, number + 1)
  {
    hide Stored, RowBytes;
    FillValues(value, row, n);
    ghost var packet := RowBytes(Stored(Texts(row, n)), number + 1);
    assert ([Texts(row, n)] + rest)[1..] == rest;
    assert whole == done + packet + RowsBytes(rest, number + 2);
    ghost var b := buff[..];
    assert value[..n] == Stored(Texts(row, n));
    var delta := RowPackage(n, value, number + 1, buff, p);
    WroteThen(before, b, buff[..], 0, done, packet);
    done' := done + packet;
    p' := p + delta;
  }

  lemma NextRow(rows: seq<seq<Value>>, j: nat, n: nat, rest: seq<seq<seq<Byte>>>)
    requires j < |rows| && (forall r :: 0 <= r < |rows| ==> n <= |rows[r]|)
    ensures NodeRows(rows[j..], n) + rest == [Texts(rows[j], n)] + (NodeRows(rows[j + 1..], n) + rest)
  {
    assert rows[j..][1..] == rows[j + 1..];
  }

  // The rows of one node.
  method AppendRows(rows: seq<seq<Value>>, n: nat, value: array<Cell>, number: nat, buff: array<Byte>, p: nat,
                    ghost before: seq<Byte>, ghost done: seq<Byte>, ghost whole: seq<Byte>,
                    ghost rest: seq<seq<seq<Byte>>>)
    returns (last: nat, p': nat, ghost done': seq<Byte>)
    requires n <= value.Length && p == |done| && (forall r :: 0 <= r < |rows| ==> n <= |rows[r]|)
    requires Progress(before, buff[..], done, whole, NodeRows(rows, n) + rest, number)
    modifies value, buff
    ensures last == number + |rows| && p' == |done'|
    ensures Progress(before, buff[..], done', whole, rest, last)
  {
    hide Progress, NodeRows, Texts;
    last, p', done' := number, p, done;
    assert rows[0..] == rows;
    for j := 0 to |rows|
      invariant last == number + j && p' == |done'|
      invariant Progress(before, buff[..], done', whole, NodeRows(rows[j..], n) + rest, last)
    {
      NextRow(rows, j, n, rest);
      p', done' := AppendRow(rows[j], n, value, last, buff, p', before, done', whole,
                             NodeRows(rows[j + 1..], n) + rest);
      last := last + 1;
    }
    assert NodeRows(rows[|rows|..], n) + rest == rest;
  }

  // What the buffer is to start with: the head and the rows.
  function UnionBytes(nodes: seq<Node>, number: nat, before: seq<Byte>): seq<Byte>
    requires AllWide(nodes, |UnionNames(nodes)|) && HeadSize(UnionNames(nodes)) <= |before|
  {
    var names := UnionNames(nodes);
    HeadBytes(names, number + 1, before, 0) + RowsBytes(UnionRows(nodes, |names|), number + 3 + |names|)
  }

  function UnionWire(nodes: seq<Node>, number: nat, before: seq<Byte>): seq<Byte>
    requires AllWide(nodes, |UnionNames(nodes)|) && HeadSize(UnionNames(nodes)) <= |before|
  {
    var n := |UnionNames(nodes)|;
    UnionBytes(nodes, number, before) + EofBytes(number + 3 + n + |UnionRows(nodes, n)|)
  }

  // The code does not bound what it writes: the caller's buffer has to be large enough.
  predicate UnionFits(nodes: seq<Node>, number: nat, before: seq<Byte>) {
    var names := UnionNames(nodes);
    && AllWide(nodes, |names|) && HeadSize(names) <= |before|
    && |UnionBytes(nodes, number, before)| <= |before|
  }

  // What is written stays inside exactly when the head and the rows of the answering nodes do,
  // whatever the buffer holds and the numbers are.
  lemma UnionFitsIff(nodes: seq<Node>, number: nat, before: seq<Byte>)
    ensures UnionFits(nodes, number, before) <==>
            && AllWide(nodes, |UnionNames(nodes)|)
            && HeadSize(UnionNames(nodes)) + RowsSize(UnionRows(nodes, |UnionNames(nodes)|)) <= |before|
  {
    hide HeadBytes, RowsBytes, RowsSize, HeadSize, UnionRows, AllWide, UnionNames;
    var names := UnionNames(nodes);
    if AllWide(nodes, |names|) && HeadSize(names) <= |before| {
      RowsTakeUp(UnionRows(nodes, |names|), number + 3 + |names|);
    }
  }

  predicate CellsWithin(row: seq<Value>, most: nat) {
    forall i :: 0 <= i < |row| ==> |Shown(row[i])| <= most
  }

  predicate NodeWithin(node: Node, most: nat) {
    node.Answers? ==> forall r :: 0 <= r < |node.rows| ==> CellsWithin(node.rows[r], most)
  }

  lemma {:induction false} NodeRowsWithin(rows: seq<seq<Value>>, n: nat, most: nat)
    requires forall r :: 0 <= r < |rows| ==> n <= |rows[r]| && CellsWithin(rows[r], most)
    ensures CellsAtMost(NodeRows(rows, n), n, most)
  {
    if rows != [] {
      NodeRowsWithin(rows[1..], n, most);
    }
  }

  lemma {:induction false} UnionRowsWithin(nodes: seq<Node>, n: nat, most: nat)
    requires AllWide(nodes, n) && (forall k :: 0 <= k < |nodes| ==> NodeWithin(nodes[k], most))
    ensures CellsAtMost(UnionRows(nodes, n), n, most)
  {
    hide Texts, CellsWithin, NodeRows;
    if nodes != [] {
      UnionRowsWithin(nodes[1..], n, most);
      if nodes[0].Answers? {
        assert Wide(nodes[0], n) && NodeWithin(nodes[0], most);
        NodeRowsWithin(nodes[0].rows, n, most);
      }
    }
  }

  // It does when every cell has at most `most` bytes and the buffer takes the head and that much for
  // every cell of every row.
  lemma UnionFitsWithin(nodes: seq<Node>, number: nat, before: seq<Byte>, most: nat)
    requires most < 0x1_0000 && AllWide(nodes, |UnionNames(nodes)|)
    requires forall k :: 0 <= k < |nodes| ==> NodeWithin(nodes[k], most)
    requires var n := |UnionNames(nodes)|;
             14 + n * 276 + |UnionRows(nodes, n)| * (4 + n * (most + 3)) <= |before|
    ensures UnionFits(nodes, number, before)
  {
    hide RowsSize, HeadSize, UnionRows, UnionNames, NodeWithin, AllWide, UnionFits;
    var n := |UnionNames(nodes)|;
    SmallHead(UnionNames(nodes));
    UnionRowsWithin(nodes, n, most);
    RowsWithin(UnionRows(nodes, n), n, most);
    UnionFitsIff(nodes, number, before);
  }

  // The head, from the first node that answers.
  method StartAnswer(fields: seq<seq<Byte>>, number: nat, columns: array<Name>, buff: array<Byte>,
                     ghost nodes: seq<Node>)
    returns (n: nat, p: nat, last: nat, ghost done: seq<Byte>)
    requires columns.Length == MAX_COLUMNS && UnionFits(nodes, number, buff[..])
    requires UnionNames(nodes) == ColumnNames(if |fields| > MAX_COLUMNS then fields[..MAX_COLUMNS] else fields)
    modifies columns, buff
    ensures n == |UnionNames(nodes)| && last == number + 2 + n && p == |done|
    ensures Progress(old(buff[..]), buff[..], done, UnionBytes(nodes, number, old(buff[..])), UnionRows(nodes, n), last)
  {
    hide HeadBytes, RowsBytes, HeadSize, UnionRows, AllWide, UnionNames;
    n := FetchFields(columns, fields);
    assert fields[..|fields|] == fields;
    ghost var before := buff[..];
    done := HeadBytes(columns[..n], number + 1, before, 0);
    p, last := HeadAnswer(columns[..n], number, buff, 0);
  }

  lemma {:induction false} UnionRowsSplit(nodes: seq<Node>, k: nat, n: nat)
    requires k <= |nodes| && AllWide(nodes, n)
    ensures AllWide(nodes[..k], n) && AllWide(nodes[k..], n)
    ensures UnionRows(nodes, n) == UnionRows(nodes[..k], n) + UnionRows(nodes[k..], n)
  {
    hide NodeRows;
    if k == 0 {
      assert nodes[..0] == [] && nodes[0..] == nodes;
    } else {
      UnionRowsSplit(nodes[1..], k - 1, n);
      assert nodes[..k][1..] == nodes[1..][..k - 1];
      assert nodes[k..] == nodes[1..][k - 1..];
    }
  }

  lemma UnionRowsStep(nodes: seq<Node>, k: nat, n: nat)
    requires k < |nodes| && AllWide(nodes, n)
    ensures AllWide(nodes[k..], n) && AllWide(nodes[k + 1..], n) && Wide(nodes[k], n)
    ensures nodes[k].Answers? ==> UnionRows(nodes[k..], n) == NodeRows(nodes[k].rows, n) + UnionRows(nodes[k + 1..], n)
    ensures !nodes[k].Answers? ==> UnionRows(nodes[k..], n) == UnionRows(nodes[k + 1..], n)
  {
    hide NodeRows;
    UnionRowsSplit(nodes, k, n);
    UnionRowsSplit(nodes, k + 1, n);
    assert nodes[k..][1..] == nodes[k + 1..];
  }

  lemma {:induction false} NamesSkip(nodes: seq<Node>, k: nat)
    requires k < |nodes| && !SomeAnswer(nodes[..k])
    ensures UnionNames(nodes) == UnionNames(nodes[k..])
  {
    if k == 0 {
      assert nodes[0..] == nodes;
    } else {
      assert nodes[..k][0] == nodes[0];
      var tail := nodes[1..][..k - 1];
      forall i | 0 <= i < |tail|
        ensures !tail[i].Answers?
      {
        assert nodes[..k][i + 1] == tail[i];
      }
      NamesSkip(nodes[1..], k - 1);
      assert nodes[1..][k - 1..] == nodes[k..];
    }
  }

  lemma {:induction false} BeforeIs(nodes: seq<Node>, k: nat)
    requires k <= |nodes| && NoneWithoutResult(nodes[..k]) && (k < |nodes| ==> nodes[k].NoResult?)
    ensures Before(nodes) == nodes[..k]
  {
    if k > 0 {
      assert nodes[..k][0] == nodes[0];
      assert nodes[..k][1..] == nodes[1..][..k - 1];
      BeforeIs(nodes[1..], k - 1);
    }
  }

  // Where the union stands before node number `k`, once the head is in the buffer.
  ghost predicate Headed(nodes: seq<Node>, k: nat, n: nat, number: nat, last: nat, p: nat, done: seq<Byte>,
                         before: seq<Byte>, after: seq<Byte>)
    requires k <= |nodes|
  {
    && UnionFits(nodes, number, before) && n == |UnionNames(nodes)| && p == |done| && AllWide(nodes[k..], n)
    && Progress(before, after, done, UnionBytes(nodes, number, before), UnionRows(nodes[k..], n), last)
    && last + |UnionRows(nodes[k..], n)| == number + 2 + n + |UnionRows(nodes, n)|
  }

  lemma HeadedFromStart(nodes: seq<Node>, k: nat, n: nat, number: nat, last: nat, p: nat, done: seq<Byte>,
                        before: seq<Byte>, after: seq<Byte>)
    requires k < |nodes| && !SomeAnswer(nodes[..k]) && UnionFits(nodes, number, before) && n == |UnionNames(nodes)|
    requires p == |done| && last == number + 2 + n
    requires Progress(before, after, done, UnionBytes(nodes, number, before), UnionRows(nodes, n), last)
    ensures Headed(nodes, k, n, number, last, p, done, before, after)
  {
    hide Progress, UnionBytes;
    UnionRowsSplit(nodes, k, n);
    NoRows(nodes[..k], n);
    assert UnionRows(nodes, n) == UnionRows(nodes[k..], n);
  }

  lemma {:induction false} NoRows(nodes: seq<Node>, n: nat)
    requires AllWide(nodes, n) && !SomeAnswer(nodes)
    ensures UnionRows(nodes, n) == []
  {
    if nodes != [] {
      forall i | 0 <= i < |nodes[1..]|
        ensures !nodes[1..][i].Answers?
      {
        assert !nodes[i + 1].Answers?;
      }
      NoRows(nodes[1..], n);
    }
  }

  // The rows of node number `k`.
  method AppendNode(nodes: seq<Node>, k: nat, n: nat, value: array<Cell>, last: nat, buff: array<Byte>, p: nat,
                    ghost number: nat, ghost before: seq<Byte>, ghost done: seq<Byte>)
    returns (last': nat, p': nat, ghost done': seq<Byte>)
    requires k < |nodes| && nodes[k].Answers? && n <= value.Length
    requires Headed(nodes, k, n, number, last, p, done, before, buff[..])
    modifies value, buff
    ensures Headed(nodes, k + 1, n, number, last', p', done', before, buff[..])
  {
    hide UnionRows, NodeRows, Progress, UnionBytes, UnionNames, AllWide;
    UnionRowsStep(nodes, k, n);
    last', p', done' := AppendRows(nodes[k].rows, n, value, last, buff, p, before, done,
                                   UnionBytes(nodes, number, before), UnionRows(nodes[k + 1..], n));
  }

  lemma HeadedSkip(nodes: seq<Node>, k: nat, n: nat, number: nat, last: nat, p: nat, done: seq<Byte>, before: seq<Byte>,
                   after: seq<Byte>)
    requires k < |nodes| && !nodes[k].Answers? && Headed(nodes, k, n, number, last, p, done, before, after)
    ensures Headed(nodes, k + 1, n, number, last, p, done, before, after)
  {
    hide UnionRows, Progress, UnionBytes, UnionNames;
    UnionRowsStep(nodes, k, n);
  }

  predicate Refuses(nodes: seq<Node>) {
    nodes != [] && !(NoneWithoutResult(nodes) && SomeAnswer(nodes))
  }

  // The error that is reported: that of the node without a result set, or of the last one.
  function RefusalFailure(nodes: seq<Node>): Failure
    requires Refuses(nodes)
  {
    var k := |Before(nodes)|;
    if k < |nodes| then nodes[k].failure
    else
      assert Before(nodes) == nodes;
      assert !nodes[|nodes| - 1].Answers?;
      nodes[|nodes| - 1].failure
  }

  // The number its packet is made with.
  function RefusalNumber(nodes: seq<Node>, number: nat): nat
    requires AllWide(nodes, |UnionNames(nodes)|)
  {
    UnionRowsSplit(nodes, |Before(nodes)|, |UnionNames(nodes)|);
    LastNumber(Before(nodes), |UnionNames(nodes)|, number) + 1
  }

  function RefusalWire(nodes: seq<Node>, number: nat): seq<Byte>
    requires AllWide(nodes, |UnionNames(nodes)|) && Refuses(nodes)
  {
    ErrBytes(RefusalFailure(nodes), RefusalNumber(nodes, number))
  }

  lemma FailureAt(nodes: seq<Node>, k: nat)
    requires nodes != [] && k <= |nodes| && NoneWithoutResult(nodes[..k])
    requires if k < |nodes| then nodes[k].NoResult? else !SomeAnswer(nodes)
    ensures Refuses(nodes)
    ensures RefusalFailure(nodes) == if k < |nodes| then nodes[k].failure else nodes[|nodes| - 1].failure
  {
    BeforeIs(nodes, k);
  }

  lemma SomeAnswerStep(nodes: seq<Node>, k: nat)
    requires k < |nodes|
    ensures SomeAnswer(nodes[..k + 1]) <==> SomeAnswer(nodes[..k]) || nodes[k].Answers?
  {
    var a, b := nodes[..k], nodes[..k + 1];
    if nodes[k].Answers? {
      assert b[k].Answers?;
    } else if SomeAnswer(b) {
      var i :| 0 <= i < |b| && b[i].Answers?;
      assert a[i].Answers?;
    } else {
      forall i | 0 <= i < |a|
        ensures !a[i].Answers?
      {
        assert !b[i].Answers?;
      }
    }
  }

  lemma FirstNames(nodes: seq<Node>, k: nat)
    requires k < |nodes| && nodes[k].Answers?
    ensures var fields := nodes[k].fields;
            UnionNames(nodes[k..]) == ColumnNames(if |fields| > MAX_COLUMNS then fields[..MAX_COLUMNS] else fields)
  {
  }

  lemma RefusedAt(nodes: seq<Node>, k: nat, number: nat, n: nat, last: nat, p: nat, done: seq<Byte>, before: seq<Byte>,
                  after: seq<Byte>)
    requires k <= |nodes| && UnionFits(nodes, number, before) && NoneWithoutResult(nodes[..k])
    requires k < |nodes| ==> nodes[k].NoResult?
    requires !SomeAnswer(nodes[..k]) ==> last == number
    requires SomeAnswer(nodes[..k]) ==> Headed(nodes, k, n, number, last, p, done, before, after)
    ensures RefusalNumber(nodes, number) == last + 1
  {
    hide UnionRows, Progress, UnionBytes, UnionNames;
    BeforeIs(nodes, k);
    UnionRowsSplit(nodes, k, |UnionNames(nodes)|);
  }

  lemma AllDone(nodes: seq<Node>, n: nat, number: nat, last: nat, p: nat, done: seq<Byte>, before: seq<Byte>,
                after: seq<Byte>)
    requires Headed(nodes, |nodes|, n, number, last, p, done, before, after)
    ensures p <= |after| && after[..p] == UnionBytes(nodes, number, before)
    ensures n == |UnionNames(nodes)| && last == number + 2 + n + |UnionRows(nodes, n)| && 9 <= |after|
  {
    hide UnionBytes, UnionNames;
    assert UnionRows(nodes[|nodes|..], n) == [];
    assert done + [] == done;
    assert after[0..|done|] == after[..p];
  }

  // Asks all nodes and answers with the union of their rows.
  method ProxyUnionSelect(nodes: seq<Node>, number: nat, columns: array<Name>, buff: array<Byte>)
    returns (outcome: Outcome)
    requires nodes != [] && columns.Length == MAX_COLUMNS && MAX_ERROR <= buff.Length
    requires UnionFits(nodes, number, buff[..])
    modifies columns, buff
    ensures outcome.Answer? <==> NoneWithoutResult(nodes) && SomeAnswer(nodes)
    ensures outcome.Answer? ==> outcome.wire == UnionWire(nodes, number, old(buff[..]))
    ensures outcome.Refused? ==> Refuses(nodes) && outcome.wire == RefusalWire(nodes, number)
  {
    hide UnionRows, Headed, UnionBytes, UnionNames, HeadSize, Before, EofBytes, AllWide, Wrote;
    ghost var before := buff[..];
    ghost var done: seq<Byte> := [];
    var value := new Cell[MAX_COLUMNS](_ => CLEAR);
    var last: nat, answer: nat, numFields: nat := number, 0, 0;
    var isSendHeader := false;
    var it := 0;
    while it < |nodes|
      invariant it <= |nodes| && NoneWithoutResult(nodes[..it]) && isSendHeader == SomeAnswer(nodes[..it])
      invariant !isSendHeader ==> buff[..] == before && last == number && answer == 0
      invariant isSendHeader ==> numFields <= MAX_COLUMNS
      invariant isSendHeader ==> Headed(nodes, it, numFields, number, last, answer, done, before, buff[..])
    {
      match nodes[it] {
        case Fails(_) =>
          SomeAnswerStep(nodes, it);
          if isSendHeader {
            HeadedSkip(nodes, it, numFields, number, last, answer, done, before, buff[..]);
          }
        case NoResult(failure) =>
          RefusedAt(nodes, it, number, numFields, last, answer, done, before, buff[..]);
          FailureAt(nodes, it);
          var wire := SendErrPackage(failure, last + 1, buff);
          return Refused(wire);
        case Answers(fields, _) =>
          SomeAnswerStep(nodes, it);
          if !isSendHeader {
            NamesSkip(nodes, it);
            FirstNames(nodes, it);
            numFields, answer, last, done := StartAnswer(fields, number, columns, buff, nodes);
            HeadedFromStart(nodes, it, numFields, number, last, answer, done, before, buff[..]);
            isSendHeader := true;
          }
          last, answer, done := AppendNode(nodes, it, numFields, value, last, buff, answer, number, before, done);
      }
      it := it + 1;
    }
    assert nodes[..|nodes|] == nodes;
    if !isSendHeader {
      RefusedAt(nodes, it, number, numFields, last, answer, done, before, buff[..]);
      FailureAt(nodes, it);
      var wire := SendErrPackage(nodes[|nodes| - 1].failure, last + 1, buff);
      return Refused(wire);
    }
    AllDone(nodes, numFields, number, last, answer, done, before, buff[..]);
    var wire := buff[..answer];
    var eof := SendEofPackage(last + 1, buff);
    outcome := Answer(wire + eof);
  }

  // ----- what the client reads -----

  predicate ShortRow(row: seq<Value>) {
    forall i :: 0 <= i < |row| ==> |Shown(row[i])| < 0x1_0000
  }

  predicate ShortNode(node: Node) {
    node.Answers? ==> forall r :: 0 <= r < |node.rows| ==> ShortRow(node.rows[r])
  }

  lemma {:induction false} NodeRowsArePlain(rows: seq<seq<Value>>, n: nat)
    requires forall r :: 0 <= r < |rows| ==> n <= |rows[r]| && ShortRow(rows[r])
    ensures PlainRows(NodeRows(rows, n), n)
  {
    if rows != [] {
      NodeRowsArePlain(rows[1..], n);
      var texts := Texts(rows[0], n);
      forall i | 0 <= i < n
        ensures |texts[i]| < 0x1_0000 && Readable(texts[i])
      {
        assert texts[i] == Shown(rows[0][i]);
      }
    }
  }

  lemma {:induction false} UnionRowsArePlain(nodes: seq<Node>, n: nat)
    requires AllWide(nodes, n) && (forall k :: 0 <= k < |nodes| ==> ShortNode(nodes[k]))
    ensures PlainRows(UnionRows(nodes, n), n)
  {
    hide PlainTexts, Texts, ShortRow, NodeRows;
    if nodes != [] {
      UnionRowsArePlain(nodes[1..], n);
      if nodes[0].Answers? {
        assert Wide(nodes[0], n) && ShortNode(nodes[0]);
        NodeRowsArePlain(nodes[0].rows, n);
      }
    }
  }

  // One head, from the first answering node, then the rows of all of them in the order of the
  // cluster, numbered consecutively.
  lemma UnionIsRead(nodes: seq<Node>, number: nat, before: seq<Byte>)
    requires UnionFits(nodes, number, before) && (forall k :: 0 <= k < |nodes| ==> ShortNode(nodes[k]))
    ensures ReadResultSet(UnionWire(nodes, number, before), number + 1)
            == ResultSet(UnionNames(nodes), UnionRows(nodes, |UnionNames(nodes)|))
  {
    hide ReadResultSet, HeadBytes, RowsBytes, EofBytes, HeadSize, PlainRows, UnionNames, UnionRows;
    var names := UnionNames(nodes);
    var rows := UnionRows(nodes, |names|);
    UnionRowsArePlain(nodes, |names|);
    AnswerRoundTrip(names, rows, number + 1, before, 0);
    var head := HeadBytes(names, number + 1, before, 0);
    var packets := RowsBytes(rows, number + 3 + |names|);
    var eof := EofBytes(number + 3 + |names| + |rows|);
    assert head + packets + eof == head + (packets + eof);
  }

  // ----- the same, from the texts of the nodes -----

  // `text` is what the node stored in a cell, or empty for NULL.
  predicate Carries(v: Value, text: seq<Byte>) {
    match v
    case Null => text == []
    case Value(bytes) => text == bytes && NulFree(bytes) && |bytes| < 0x1_0000
  }

  predicate RowCarries(row: seq<Value>, texts: seq<seq<Byte>>) {
    |row| == |texts| && forall i :: 0 <= i < |row| ==> Carries(row[i], texts[i])
  }

  // The rows of texts that a node answers with; a node that fails has none.
  predicate NodeCarries(node: Node, rows: seq<seq<seq<Byte>>>) {
    if node.Answers?
    then |node.rows| == |rows| && forall r :: 0 <= r < |rows| ==> RowCarries(node.rows[r], rows[r])
    else rows == []
  }

  predicate AllCarry(nodes: seq<Node>, tables: seq<seq<seq<seq<Byte>>>>) {
    |nodes| == |tables| && forall k :: 0 <= k < |nodes| ==> NodeCarries(nodes[k], tables[k])
  }

  // `cut` is `rows`, each cut to its first `n` texts.
  predicate IsCut(cut: seq<seq<seq<Byte>>>, rows: seq<seq<seq<Byte>>>, n: nat) {
    |cut| == |rows| && forall r :: 0 <= r < |rows| ==> n <= |rows[r]| && cut[r] == rows[r][..n]
  }

  lemma TextsCarried(row: seq<Value>, texts: seq<seq<Byte>>, n: nat)
    requires RowCarries(row, texts) && n <= |row|
    ensures Texts(row, n) == texts[..n]
  {
    forall i | 0 <= i < n
      ensures Shown(row[i]) == texts[i]
    {
      assert Carries(row[i], texts[i]);
      if row[i].Value? {
        NulFreeIsWhole(texts[i]);
      }
    }
  }

  lemma NulFreeIsWhole(text: seq<Byte>)
    requires NulFree(text)
    ensures CString(text) == text
  {
    StrLenUnique(text, |text|);
  }

  lemma {:induction false} NodeRowsCarried(rows: seq<seq<Value>>, texts: seq<seq<seq<Byte>>>, n: nat)
    requires |rows| == |texts|
    requires forall r :: 0 <= r < |rows| ==> RowCarries(rows[r], texts[r]) && n <= |rows[r]|
    ensures IsCut(NodeRows(rows, n), texts, n)
  {
    hide RowCarries;
    if rows != [] {
      TextsCarried(rows[0], texts[0], n);
      NodeRowsCarried(rows[1..], texts[1..], n);
      var cut := NodeRows(rows[1..], n);
      RowLength(rows[0], texts[0]);
      assert NodeRows(rows, n) == [texts[0][..n]] + cut;
      forall r | 0 <= r < |rows|
        ensures n <= |texts[r]| && NodeRows(rows, n)[r] == texts[r][..n]
      {
        if r > 0 {
          assert NodeRows(rows, n)[r] == cut[r - 1] && texts[r] == texts[1..][r - 1];
        }
      }
    }
  }

  lemma RowLength(row: seq<Value>, texts: seq<seq<Byte>>)
    requires RowCarries(row, texts)
    ensures |row| == |texts|
  {
  }

  lemma CutConcat(a: seq<seq<seq<Byte>>>, b: seq<seq<seq<Byte>>>, c: seq<seq<seq<Byte>>>, d: seq<seq<seq<Byte>>>,
                  n: nat)
    requires IsCut(a, c, n) && IsCut(b, d, n)
    ensures IsCut(a + b, c + d, n)
  {
  }

  lemma {:induction false} UnionRowsCarried(nodes: seq<Node>, tables: seq<seq<seq<seq<Byte>>>>, n: nat)
    requires AllWide(nodes, n) && AllCarry(nodes, tables)
    ensures IsCut(UnionRows(nodes, n), Concat(tables), n)
  {
    hide NodeRows, RowCarries, IsCut;
    if nodes == [] {
      assert IsCut([], [], n) by {
        NothingCut(n);
      }
    } else {
      assert Wide(nodes[0], n) && NodeCarries(nodes[0], tables[0]);
      forall k | 0 <= k < |nodes[1..]|
        ensures NodeCarries(nodes[1..][k], tables[1..][k])
      {
        assert NodeCarries(nodes[k + 1], tables[k + 1]);
      }
      UnionRowsCarried(nodes[1..], tables[1..], n);
      NothingCut(n);
      if nodes[0].Answers? {
        NodeRowsCarried(nodes[0].rows, tables[0], n);
        CutConcat(NodeRows(nodes[0].rows, n), UnionRows(nodes[1..], n), tables[0], Concat(tables[1..]), n);
      } else {
        CutConcat([], UnionRows(nodes[1..], n), [], Concat(tables[1..]), n);
      }
    }
  }

  lemma NothingCut(n: nat)
    ensures IsCut([], [], n)
  {
  }

  lemma CarriedIsShort(node: Node, rows: seq<seq<seq<Byte>>>)
    requires NodeCarries(node, rows)
    ensures ShortNode(node)
  {
    if node.Answers? {
      forall r | 0 <= r < |node.rows|
        ensures ShortRow(node.rows[r])
      {
        assert RowCarries(node.rows[r], rows[r]);
        TextsCarried(node.rows[r], rows[r], |node.rows[r]|);
        forall i | 0 <= i < |node.rows[r]|
          ensures |Shown(node.rows[r][i])| < 0x1_0000
        {
          assert Carries(node.rows[r][i], rows[r][i]);
          assert Texts(node.rows[r], |node.rows[r]|)[i] == rows[r][i];
        }
      }
    }
  }

  // The client reads the very texts of the nodes, the empty text for NULL: all rows of the first
  // node, then those of the second and so on, cut to the columns of the head.
  lemma TextsAreRead(nodes: seq<Node>, tables: seq<seq<seq<seq<Byte>>>>, number: nat, before: seq<Byte>)
    requires UnionFits(nodes, number, before) && AllCarry(nodes, tables)
    ensures var read := ReadResultSet(UnionWire(nodes, number, before), number + 1);
            read.ResultSet? && IsCut(read.rows, Concat(tables), |read.names|)
  {
    hide NodeCarries, UnionWire, ReadResultSet, UnionNames, UnionRows, IsCut, AllWide;
    forall k | 0 <= k < |nodes|
      ensures ShortNode(nodes[k])
    {
      CarriedIsShort(nodes[k], tables[k]);
    }
    UnionIsRead(nodes, number, before);
    UnionRowsCarried(nodes, tables, |UnionNames(nodes)|);
  }

  // The columns of that head are the fields of the first node that answers, at most 20 of them.
  lemma {:induction false} NamesAreFields(nodes: seq<Node>, k: nat)
    requires k < |nodes| && nodes[k].Answers? && !SomeAnswer(nodes[..k])
    requires forall i :: 0 <= i < |nodes[k].fields| ==> NulFree(nodes[k].fields[i]) && |nodes[k].fields[i]| <= 250
    ensures var fields := nodes[k].fields;
            UnionNames(nodes) == if |fields| > 20 then fields[..20] else fields
  {
    NamesSkip(nodes, k);
    FirstNames(nodes, k);
    var fields := nodes[k].fields;
    forall i | 0 <= i < |fields|
      ensures ColumnName(fields[i]) == fields[i]
    {
      NulFreeIsWhole(fields[i]);
    }
  }

  // How many packets of the answer were made before the node without a result set.
  function Dropped(nodes: seq<Node>): nat
    requires AllWide(nodes, |UnionNames(nodes)|)
  {
    var n := |UnionNames(nodes)|;
    UnionRowsSplit(nodes, |Before(nodes)|, n);
    if SomeAnswer(Before(nodes)) then 2 + n + |UnionRows(Before(nodes), n)| else 0
  }

  // The client, which expects the packet after `number`, reads the error exactly when no packet of
  // the answer was made before, or a multiple of 256 of them: those that are dropped have used up
  // numbers.
  lemma RefusalIsReadIff(nodes: seq<Node>, number: nat)
    requires AllWide(nodes, |UnionNames(nodes)|) && Refuses(nodes)
    ensures ReadError(RefusalWire(nodes, number), number + 1) == GotError(RefusalFailure(nodes), GENERAL_ERROR) <==>
            !SomeAnswer(Before(nodes)) || Dropped(nodes) % 256 == 0
    ensures Dropped(nodes) % 256 != 0 ==> ReadError(RefusalWire(nodes, number), number + 1) == NoError
  {
    hide UnionRows, UnionNames, Before, RefusalFailure;
    var failure := RefusalFailure(nodes);
    var last := RefusalNumber(nodes, number);
    assert last == number + 1 + Dropped(nodes);
    ErrorRoundTrip(failure, last, number + 1);
    SameNumberIff(number + 1, Dropped(nodes));
  }

  lemma SameNumberIff(number: nat, dropped: nat)
    ensures (number + dropped) % 256 == number % 256 <==> dropped % 256 == 0
  {
    var q, r := dropped / 256, dropped % 256;
    assert number + dropped == number + r + 256 * q;
    assert (number + r + 256 * q) % 256 == (number + r) % 256;
  }

  lemma OneThenNone(nodes: seq<Node>, failure: Failure)
    requires nodes == [Answers([[0x61]], []), NoResult(failure)]
    ensures AllWide(nodes, |UnionNames(nodes)|) && Refuses(nodes) && RefusalFailure(nodes) == failure
    ensures Dropped(nodes) == 3
  {
    hide ColumnNames, ColumnName;
    assert nodes[1].NoResult? && nodes[1..] == [NoResult(failure)];
    assert Before(nodes) == [nodes[0]] && SomeAnswer(Before(nodes)) by {
      assert Before(nodes)[0].Answers?;
    }
    assert |UnionNames(nodes)| == 1;
    assert nodes[..1] == [nodes[0]] && [nodes[0]][1..] == [];
    assert UnionRows([nodes[0]], 1) == [];
  }

  // A node with one column and no row, then one without a result set: the error is sent under a
  // number the client does not expect.
  lemma RefusalOutOfSequence(failure: Failure, number: nat)
    ensures var nodes := [Answers([[0x61]], []), NoResult(failure)];
            && AllWide(nodes, |UnionNames(nodes)|) && Refuses(nodes) && RefusalFailure(nodes) == failure
            && ReadError(RefusalWire(nodes, number), number + 1) == NoError
  {
    var nodes := [Answers([[0x61]], []), NoResult(failure)];
    hide AllWide, UnionNames, Refuses, RefusalFailure, RefusalWire, ReadError, Dropped;
    OneThenNone(nodes, failure);
    RefusalIsReadIff(nodes, number);
  }
}
