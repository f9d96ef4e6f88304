/** The LIMIT clause of a SELECT, from the numbers the client wrote to the rows that are sent.

    The parser hands the two numbers of "LIMIT a, b" over exchanged, the setters of `sqlLimit`
    ignore what is not positive, and the answer takes the number of rows for the index of the last
    one.  The lemmas say when the rows that are sent are nevertheless those that the clause names.
 */
module SqlLimit {
  import DecimalReaders

  const INT_MAX := 0x7fff_ffff

  datatype Limit = Limit(start: nat, rows: nat)

  // No clause, "LIMIT count", or "LIMIT offset, count".
  datatype LimitClause = NoLimit | LimitCount(count: nat) | LimitPair(offset: nat, count: nat)

  function Positive(n: int): nat {
    if n > 0 then n else 0
  }

  // What the parse actions make of a clause.  The single number is stored as it is into an
  // unsigned field, the two numbers of a pair go through the setters.
  function Parsed(clause: LimitClause): Limit {
    match clause
    case NoLimit => Limit(0, 0)
    case LimitCount(count) => Limit(0, DecimalReaders.Wrap(count) % 0x1_0000_0000)
    case LimitPair(offset, count) => Limit(Positive(DecimalReaders.Wrap(count)), Positive(DecimalReaders.Wrap(offset)))
  }

  // ----- which rows -----

  predicate Between(from: nat, i: nat, end: nat) {
    from <= i < end
  }

  function Rows(from: nat, end: nat): set<nat> {
    set i: nat | i < end && Between(from, i, end)
  }

  lemma RowsEqualIff(a: nat, b: nat, c: nat, d: nat)
    ensures Rows(a, b) == Rows(c, d) <==> (a >= b && c >= d) || (a == c && b == d)
  {
    if Rows(a, b) == Rows(c, d) {
      if a < b {
        assert a in Rows(c, d) && b - 1 in Rows(c, d);
        assert c in Rows(a, b) && d - 1 in Rows(a, b);
      } else {
        assert c in Rows(a, b) <==> c < d;
      }
    }
  }

  // The row index at which an answer of `count` rows ends.
  function WindowEnd(limit: Limit, count: nat): nat {
    if limit.rows == 0 || count < limit.rows then count else limit.rows
  }

  // The rows that the loop over the answer comes to.
  function SentRows(limit: Limit, count: nat): set<nat> {
    Rows(limit.start, WindowEnd(limit, count))
  }

  // How many they are.
  function Window(limit: Limit, count: nat): (w: nat)
    ensures SentRows(limit, count) == Rows(limit.start, limit.start + w)
    ensures |SentRows(limit, count)| == w
  {
    var w := if limit.start < WindowEnd(limit, count) then WindowEnd(limit, count) - limit.start else 0;
    RowsEqualIff(limit.start, WindowEnd(limit, count), limit.start, limit.start + w);
    RowsCount(limit.start, w);
    w
  }

  lemma {:induction false} RowsCount(from: nat, n: nat)
    ensures |Rows(from, from + n)| == n
  {
    if n == 0 {
      assert Rows(from, from) == {};
    } else {
      RowsCount(from, n - 1);
      assert Rows(from, from + n) == Rows(from, from + (n - 1)) + {from + (n - 1)};
    }
  }

  // The first `sent` of them, and all of them.
  lemma FirstOfWindow(limit: Limit, count: nat, sent: nat)
    requires sent <= Window(limit, count)
    ensures Rows(limit.start, limit.start + sent) <= SentRows(limit, count)
    ensures Rows(limit.start, limit.start + sent) == SentRows(limit, count) <==> sent == Window(limit, count)
  {
    RowsEqualIff(limit.start, limit.start + sent, limit.start, limit.start + Window(limit, count));
  }

  function Min(a: nat, b: nat): nat {
    if a < b then a else b
  }

  // The rows, of `count` there are, that the clause names.
  function NamedRows(clause: LimitClause, count: nat): set<nat> {
    match clause
    case NoLimit => Rows(0, count)
    case LimitCount(n) => Rows(0, Min(n, count))
    case LimitPair(offset, n) => Rows(offset, Min(offset + n, count))
  }

  // A clause that names what is sent.  A single number fails when it is 0, which the answer takes
  // for no limit, or when it is cut to 32 bits.  A pair fails unless there is no row at all; or
  // the offset is 0 and the count is one that wraps around to nothing; or the offset lies behind
  // the rows and, exchanged with the count, still names nothing.
  predicate SendsWhatItNames(clause: LimitClause, count: nat) {
    match clause
    case NoLimit => true
    case LimitCount(n) =>
      var rows := n % 0x1_0000_0000;
      if rows == 0 then count <= n else n == rows || count <= rows
    case LimitPair(offset, n) =>
      var start, rows := DecimalReaders.Wrap(n), DecimalReaders.Wrap(offset);
      || count == 0
      || (offset == 0 < n && start <= 0)
      || (count <= offset && (count <= start || 0 < rows <= start))
  }

  lemma UnsignedOf(n: nat)
    ensures DecimalReaders.Wrap(n) % 0x1_0000_0000 == n % 0x1_0000_0000
    ensures n <= INT_MAX ==> DecimalReaders.Wrap(n) == n
  {
    var k := (n + 0x8000_0000) / 0x1_0000_0000;
    assert DecimalReaders.Wrap(n) == n - 0x1_0000_0000 * k;
  }

  // The rows that are sent are those that the clause names exactly in those cases.
  lemma SentIsNamedIff(clause: LimitClause, count: nat)
    requires count <= INT_MAX
    ensures SentRows(Parsed(clause), count) == NamedRows(clause, count) <==> SendsWhatItNames(clause, count)
  {
    hide Rows;
    var limit := Parsed(clause);
    match clause {
      case NoLimit =>
      case LimitCount(n) =>
        UnsignedOf(n);
        RowsEqualIff(0, WindowEnd(limit, count), 0, Min(n, count));
      case LimitPair(offset, n) =>
        UnsignedOf(n);
        UnsignedOf(offset);
        RowsEqualIff(limit.start, WindowEnd(limit, count), offset, Min(offset + n, count));
    }
  }

  // A pair of `int`s names what is sent only when both numbers lie behind the last row.
  lemma PairOfIntsIff(offset: nat, n: nat, count: nat)
    requires count <= INT_MAX && offset <= INT_MAX && n <= INT_MAX
    ensures var clause := LimitPair(offset, n);
            SentRows(Parsed(clause), count) == NamedRows(clause, count) <==>
            count == 0 || (count <= offset && count <= n)
  {
    SentIsNamedIff(LimitPair(offset, n), count);
    UnsignedOf(n);
    UnsignedOf(offset);
  }

  // Of ten rows "LIMIT 0, 2" names the first two; the other eight are sent.
  lemma FirstTwoOfTen()
    ensures NamedRows(LimitPair(0, 2), 10) == Rows(0, 2)
    ensures SentRows(Parsed(LimitPair(0, 2)), 10) == Rows(2, 10)
    ensures Rows(0, 2) != Rows(2, 10)
  {
    UnsignedOf(2);
    UnsignedOf(0);
    RowsEqualIff(0, 2, 2, 10);
  }

  // ----- the object -----

  // `sqlLimit`
  class QueryLimit {
    var start: nat
    var rows: nat

    function Value(): Limit
      reads this
    {
      Limit(start, rows)
    }

    constructor ()
      ensures Value() == Limit(0, 0)
    {
      start, rows := 0, 0;
    }

    method SetStart(n: int)
      modifies this`start
      ensures start == if n > 0 then n else old(start)
    {
      if n > 0 {
        start := n;
      }
    }

    method SetRows(n: int)
      modifies this`rows
      ensures rows == if n > 0 then n else old(rows)
    {
      if n > 0 {
        rows := n;
      }
    }

    // The actions of the rule `opt_for_limit`, on a cleared query.
    method ParseLimit(clause: LimitClause)
      requires Value() == Limit(0, 0)
      modifies this
      ensures Value() == Parsed(clause)
    {
      match clause {
        case NoLimit =>
        case LimitCount(count) =>
          rows := DecimalReaders.Wrap(count) % 0x1_0000_0000;
        case LimitPair(first, second) =>
          SetStart(DecimalReaders.Wrap(second));
          SetRows(DecimalReaders.Wrap(first));
      }
    }
  }
}
