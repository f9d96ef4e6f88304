/** The quote rewriter that runs over a query before it is parsed: `strReplaceQuote`.

    SQL lets a literal hold its quote twice; the lexer only knows a quote behind a backslash.  The
    rewriter turns the first quote of every such pair into a backslash, in place, so that no offset
    changes.  It looks four characters ahead for the end of the query.
 */
module QuoteRewrite {
  import opened Bytes

  const SINGLE: Byte := 0x27
  const DOUBLE: Byte := 0x22
  const BACKSLASH: Byte := 0x5c

  predicate IsQuote(c: Byte) {
    c == SINGLE || c == DOUBLE
  }

  // ----- what the code does -----

  // The loop is over before position `i`.
  predicate Stopped(q: seq<Byte>, i: nat) {
    i > 0 && i + 3 >= |q|
  }

  // The rewritten query from `i` on; `quote` is that of the literal around `i`, or 0.
  function RewriteFrom(q: seq<Byte>, i: nat, quote: Byte): (r: seq<Byte>)
    requires i <= |q| && (quote != 0 ==> i > 0)
    ensures |r| == |q| - i
    decreases |q| - i
  {
    if i == |q| || Stopped(q, i) then q[i..]
    else if quote == 0 then [q[i]] + RewriteFrom(q, i + 1, if IsQuote(q[i]) then q[i] else 0)
    else if q[i] != quote || q[i - 1] == BACKSLASH then [q[i]] + RewriteFrom(q, i + 1, quote)
    else if q[i + 1] == quote then [BACKSLASH, quote] + RewriteFrom(q, i + 2, quote)
    else [q[i]] + RewriteFrom(q, i + 1, 0)
  }

  function Rewrite(q: seq<Byte>): (r: seq<Byte>)
    ensures |r| == |q|
  {
    RewriteFrom(q, 0, 0)
  }

  // ----- how a query is read -----

  // A literal from its opening to its closing quote, or one that is never closed.
  datatype Literal = Literal(start: nat, end: nat, quote: Byte, value: seq<Byte>)
                   | Open(start: nat, quote: Byte, value: seq<Byte>)

  datatype Mode = Outside | Inside(start: nat, quote: Byte, value: seq<Byte>)

  // The literals of a query.  A quote behind a backslash belongs to the literal; with `doubled`,
  // so does a quote that is written twice.
  function Read(q: seq<Byte>, i: nat, m: Mode, doubled: bool): seq<Literal>
    requires i <= |q|
    decreases |q| - i
  {
    match m
    case Outside =>
      if i == |q| then []
      else Read(q, i + 1, if IsQuote(q[i]) then Inside(i, q[i], []) else Outside, doubled)
    case Inside(start, c, value) =>
      if i == |q| then [Open(start, c, value)]
      else if q[i] == BACKSLASH && i + 1 < |q| && q[i + 1] == c then
        Read(q, i + 2, Inside(start, c, value + [c]), doubled)
      else if q[i] != c then Read(q, i + 1, Inside(start, c, value + [q[i]]), doubled)
      else if doubled && i + 1 < |q| && q[i + 1] == c then Read(q, i + 2, Inside(start, c, value + [c]), doubled)
      else [Literal(start, i, c, value)] + Read(q, i + 1, Outside, doubled)
  }

  // A doubled quote starts where the loop has already stopped: within the last three characters.
  predicate HasLatePair(q: seq<Byte>, i: nat, m: Mode)
    requires i <= |q|
    decreases |q| - i
  {
    match m
    case Outside => i < |q| && HasLatePair(q, i + 1, if IsQuote(q[i]) then Inside(i, q[i], []) else Outside)
    case Inside(start, c, value) =>
      if i == |q| then false
      else if q[i] == BACKSLASH && i + 1 < |q| && q[i + 1] == c then HasLatePair(q, i + 2, m)
      else if q[i] != c then HasLatePair(q, i + 1, m)
      else if i + 1 < |q| && q[i + 1] == c then i + 3 >= |q| || HasLatePair(q, i + 2, m)
      else HasLatePair(q, i + 1, Outside)
  }

  function QuoteOf(m: Mode): Byte {
    if m.Inside? then m.quote else 0
  }

  // The reader does not stand behind a backslash it should have read together with its quote.
  predicate Aligned(q: seq<Byte>, i: nat, m: Mode) {
    m.Inside? ==> 0 < i <= |q| && IsQuote(m.quote) && (i < |q| && q[i] == m.quote ==> q[i - 1] != BACKSLASH)
  }

  // What is being read inside a literal comes out first, and ends no earlier than here.
  lemma {:induction false} FirstLiteral(q: seq<Byte>, i: nat, m: Mode, doubled: bool)
    requires i <= |q| && m.Inside?
    ensures var l := Read(q, i, m, doubled); l != [] && l[0].start == m.start && (l[0].Literal? ==> l[0].end >= i)
    decreases |q| - i
  {
    if i < |q| {
      var c := m.quote;
      if q[i] == BACKSLASH && i + 1 < |q| && q[i + 1] == c {
        FirstLiteral(q, i + 2, Inside(m.start, c, m.value + [c]), doubled);
      } else if q[i] != c {
        FirstLiteral(q, i + 1, Inside(m.start, c, m.value + [q[i]]), doubled);
      } else if doubled && i + 1 < |q| && q[i + 1] == c {
        FirstLiteral(q, i + 2, Inside(m.start, c, m.value + [c]), doubled);
      }
    }
  }

  // HasLatePair looks at the quote of the literal only.
  lemma {:induction false} LatePairValue(q: seq<Byte>, i: nat, s: nat, c: Byte, v: seq<Byte>, w: seq<Byte>)
    requires i <= |q|
    ensures HasLatePair(q, i, Inside(s, c, v)) == HasLatePair(q, i, Inside(s, c, w))
    decreases |q| - i
  {
    if i < |q| {
      if q[i] == BACKSLASH && i + 1 < |q| && q[i + 1] == c {
        LatePairValue(q, i + 2, s, c, v, w);
      } else if q[i] != c {
        LatePairValue(q, i + 1, s, c, v, w);
      } else if i + 1 < |q| && q[i + 1] == c {
        LatePairValue(q, i + 2, s, c, v, w);
      }
    }
  }

  lemma {:induction false} ReadsTheSameFrom(q: seq<Byte>, r: seq<Byte>, i: nat, m: Mode)
    requires i <= |q| == |r| && Aligned(q, i, m)
    requires r[i..] == RewriteFrom(q, i, QuoteOf(m))
    ensures Read(r, i, m, false) == Read(q, i, m, true) <==> !HasLatePair(q, i, m)
    decreases |q| - i
  {
    if i < |q| {
      match m {
        case Outside => ReadOutside(q, r, i);
        case Inside(s, c, v) => ReadInside(q, r, i, s, c, v);
      }
    }
  }

  // One step of the code, away from its end.
  lemma Step(q: seq<Byte>, r: seq<Byte>, i: nat, quote: Byte, next: Byte)
    requires i < |q| == |r| && (quote != 0 ==> i > 0)
    requires r[i..] == RewriteFrom(q, i, quote)
    requires Stopped(q, i)
             || (quote == 0 && next == if IsQuote(q[i]) then q[i] else 0)
             || (quote != 0 && (q[i] != quote || q[i - 1] == BACKSLASH) && next == quote)
             || (quote != 0 && q[i] == quote && q[i - 1] != BACKSLASH && q[i + 1] != quote && next == 0)
    ensures r[i] == q[i] && r[i + 1..] == RewriteFrom(q, i + 1, next)
  {
    assert r[i..][1..] == r[i + 1..];
    assert r[i] == r[i..][0];
    assert Stopped(q, i) ==> q[i..][1..] == q[i + 1..];
  }

  lemma ReadOutside(q: seq<Byte>, r: seq<Byte>, i: nat)
    requires i < |q| == |r| && r[i..] == RewriteFrom(q, i, 0)
    ensures Read(r, i, Outside, false) == Read(q, i, Outside, true) <==> !HasLatePair(q, i, Outside)
    decreases |q| - i, 0
  {
    var m := if IsQuote(q[i]) then Inside(i, q[i], []) else Outside;
    Step(q, r, i, 0, QuoteOf(m));
    ReadsTheSameFrom(q, r, i + 1, m);
  }

  lemma ReadInside(q: seq<Byte>, r: seq<Byte>, i: nat, s: nat, c: Byte, v: seq<Byte>)
    requires i < |q| == |r| && Aligned(q, i, Inside(s, c, v)) && r[i..] == RewriteFrom(q, i, c)
    ensures var m := Inside(s, c, v); Read(r, i, m, false) == Read(q, i, m, true) <==> !HasLatePair(q, i, m)
    decreases |q| - i, 1
  {
    if q[i] == BACKSLASH && i + 1 < |q| && q[i + 1] == c {
      Step(q, r, i, c, c);
      Step(q, r, i + 1, c, c);
      ReadsTheSameFrom(q, r, i + 2, Inside(s, c, v + [c]));
      LatePairValue(q, i + 2, s, c, v, v + [c]);
    } else if q[i] != c {
      ReadPlain(q, r, i, s, c, v);
    } else if i + 1 < |q| && q[i + 1] == c {
      ReadPair(q, r, i, s, c, v);
    } else {
      Step(q, r, i, c, 0);
      ReadsTheSameFrom(q, r, i + 1, Outside);
      var ours, theirs := Read(r, i + 1, Outside, false), Read(q, i + 1, Outside, true);
      assert ([Literal(s, i, c, v)] + ours)[1..] == ours;
      assert ([Literal(s, i, c, v)] + theirs)[1..] == theirs;
    }
  }

  lemma ReadPlain(q: seq<Byte>, r: seq<Byte>, i: nat, s: nat, c: Byte, v: seq<Byte>)
    requires i < |q| == |r| && Aligned(q, i, Inside(s, c, v)) && r[i..] == RewriteFrom(q, i, c)
    requires q[i] != c && !(q[i] == BACKSLASH && i + 1 < |q| && q[i + 1] == c)
    ensures var m := Inside(s, c, v); Read(r, i, m, false) == Read(q, i, m, true) <==> !HasLatePair(q, i, m)
    decreases |q| - i, 0
  {
    Step(q, r, i, c, c);
    if i + 1 < |q| && q[i + 1] != c {
      Step(q, r, i + 1, c, c);
    }
    ReadsTheSameFrom(q, r, i + 1, Inside(s, c, v + [q[i]]));
    LatePairValue(q, i + 1, s, c, v, v + [q[i]]);
  }

  lemma PairRewritten(q: seq<Byte>, r: seq<Byte>, i: nat, c: Byte)
    requires 0 < i && i + 1 < |q| == |r| && r[i..] == RewriteFrom(q, i, c) && IsQuote(c)
    requires q[i] == c && q[i - 1] != BACKSLASH && q[i + 1] == c && !Stopped(q, i)
    ensures r[i] == BACKSLASH && r[i + 1] == c && r[i + 2..] == RewriteFrom(q, i + 2, c)
  {
    assert r[i..][2..] == r[i + 2..];
    assert r[i] == r[i..][0] && r[i + 1] == r[i..][1];
  }

  lemma ReadPair(q: seq<Byte>, r: seq<Byte>, i: nat, s: nat, c: Byte, v: seq<Byte>)
    requires i + 1 < |q| == |r| && Aligned(q, i, Inside(s, c, v)) && r[i..] == RewriteFrom(q, i, c)
    requires q[i] == c && q[i + 1] == c
    ensures var m := Inside(s, c, v); Read(r, i, m, false) == Read(q, i, m, true) <==> !HasLatePair(q, i, m)
    decreases |q| - i, 0
  {
    var next := Inside(s, c, v + [c]);
    if Stopped(q, i) {
      assert r[i] == r[i..][0] == q[i];
      assert Read(r, i, Inside(s, c, v), false)[0] == Literal(s, i, c, v);
      FirstLiteral(q, i + 2, next, true);
    } else {
      PairRewritten(q, r, i, c);
      ReadsTheSameFrom(q, r, i + 2, next);
      LatePairValue(q, i + 2, s, c, v, v + [c]);
    }
  }

  // The literals of the rewritten query, read with backslashes, are those of the original, read
  // with doubled quotes, exactly when no doubled quote starts in the last three characters.
  lemma KeepsMeaningIff(q: seq<Byte>)
    ensures Read(Rewrite(q), 0, Outside, false) == Read(q, 0, Outside, true) <==> !HasLatePair(q, 0, Outside)
  {
    ReadsTheSameFrom(q, Rewrite(q), 0, Outside);
  }

  // ----- when literals are followed by something -----

  // The last literal is closed, with something behind it.
  predicate ClosedBefore(l: seq<Literal>, n: nat) {
    l != [] ==> l[|l| - 1].Literal? && l[|l| - 1].end + 1 < n
  }

  lemma {:induction false} ClosedHasNoLatePair(q: seq<Byte>, i: nat, m: Mode)
    requires i <= |q| && (m.Inside? ==> i > 0) && ClosedBefore(Read(q, i, m, true), |q|)
    ensures !HasLatePair(q, i, m)
    decreases |q| - i
  {
    if i < |q| {
      match m {
        case Outside => ClosedHasNoLatePair(q, i + 1, if IsQuote(q[i]) then Inside(i, q[i], []) else Outside);
        case Inside(s, c, v) =>
          if q[i] == BACKSLASH && i + 1 < |q| && q[i + 1] == c {
            ClosedHasNoLatePair(q, i + 2, Inside(s, c, v + [c]));
            LatePairValue(q, i + 2, s, c, v, v + [c]);
          } else if q[i] != c {
            ClosedHasNoLatePair(q, i + 1, Inside(s, c, v + [q[i]]));
            LatePairValue(q, i + 1, s, c, v, v + [q[i]]);
          } else if i + 1 < |q| && q[i + 1] == c {
            var next := Inside(s, c, v + [c]);
            ClosedHasNoLatePair(q, i + 2, next);
            LatePairValue(q, i + 2, s, c, v, v + [c]);
            FirstLiteral(q, i + 2, next, true);
            LastAfter(q, i + 2, next);
          } else {
            var rest := Read(q, i + 1, Outside, true);
            var all := [Literal(s, i, c, v)] + rest;
            assert rest != [] ==> all[|all| - 1] == rest[|rest| - 1];
            ClosedHasNoLatePair(q, i + 1, Outside);
          }
      }
    }
  }

  // Literals end where they are read or later.
  lemma {:induction false} LastAfter(q: seq<Byte>, i: nat, m: Mode)
    requires i <= |q|
    ensures AllFrom(Read(q, i, m, true), i)
    decreases |q| - i
  {
    if i < |q| {
      match m {
        case Outside => LastAfter(q, i + 1, if IsQuote(q[i]) then Inside(i, q[i], []) else Outside);
        case Inside(s, c, v) =>
          if q[i] == BACKSLASH && i + 1 < |q| && q[i + 1] == c {
            LastAfter(q, i + 2, Inside(s, c, v + [c]));
          } else if q[i] != c {
            LastAfter(q, i + 1, Inside(s, c, v + [q[i]]));
          } else if i + 1 < |q| && q[i + 1] == c {
            LastAfter(q, i + 2, Inside(s, c, v + [c]));
          } else {
            LastAfter(q, i + 1, Outside);
          }
      }
    }
  }

  predicate AllFrom(l: seq<Literal>, i: nat) {
    forall k :: 0 <= k < |l| && l[k].Literal? ==> l[k].end >= i
  }

  // A query that does not end in a literal keeps its meaning.
  lemma KeepsMeaning(q: seq<Byte>)
    requires ClosedBefore(Read(q, 0, Outside, true), |q|)
    ensures Read(Rewrite(q), 0, Outside, false) == Read(q, 0, Outside, true)
  {
    ClosedHasNoLatePair(q, 0, Outside);
    KeepsMeaningIff(q);
  }

  // ----- a text as a literal -----

  // A character of a literal between two of `quote`.
  function Written(b: Byte, quote: Byte): (w: seq<Byte>)
    ensures 1 <= |w| <= 2
  {
    if b == quote then [quote, quote] else [b]
  }

  // What a client makes of a text: every quote of the literal is written twice.
  function Doubled(text: seq<Byte>, quote: Byte): seq<Byte> {
    if text == [] then []
    else Written(text[0], quote) + Doubled(text[1..], quote)
  }

  lemma SplitFirst(q: seq<Byte>, i: nat, first: seq<Byte>, rest: seq<Byte>)
    requires i <= |q| && q[i..] == first + rest
    ensures i + |first| <= |q| && q[i + |first|..] == rest
    ensures forall k | 0 <= k < |first| :: q[i + k] == first[k]
  {
    var tail := q[i..];
    assert tail[|first|..] == rest;
    forall k | 0 <= k < |first|
      ensures q[i + k] == first[k]
    {
      assert tail[k] == q[i + k];
    }
  }

  // One character of the text, written once or twice.
  lemma OneDoubled(q: seq<Byte>, i: nat, start: nat, c: Byte, value: seq<Byte>, b: Byte, rest: seq<Byte>)
    requires i <= |q| && q[i..] == Written(b, c) + rest && IsQuote(c) && b != BACKSLASH
    ensures var n := |Written(b, c)|;
            && i + n <= |q| && q[i + n..] == rest
            && Read(q, i, Inside(start, c, value), true) == Read(q, i + n, Inside(start, c, value + [b]), true)
  {
    SplitFirst(q, i, Written(b, c), rest);
    var n := |Written(b, c)|;
    assert q[i] == Written(b, c)[0];
    assert b == c ==> q[i + 1] == Written(b, c)[1];
  }

  lemma ClosingRead(q: seq<Byte>, i: nat, start: nat, c: Byte, value: seq<Byte>, behind: seq<Byte>)
    requires i <= |q| && q[i..] == [c] + behind && IsQuote(c) && (behind != [] ==> behind[0] != c)
    ensures i < |q|
    ensures Read(q, i, Inside(start, c, value), true) == [Literal(start, i, c, value)] + Read(q, i + 1, Outside, true)
  {
    var tail := q[i..];
    assert q[i] == tail[0];
    assert i + 1 < |q| ==> q[i + 1] == tail[1];
  }

  lemma DoubledSplit(text: seq<Byte>, c: Byte, behind: seq<Byte>)
    requires text != []
    ensures var rest := Doubled(text[1..], c);
            && Doubled(text, c) + [c] + behind == Written(text[0], c) + (rest + [c] + behind)
            && |Doubled(text, c)| == |Written(text[0], c)| + |rest|
  {
    hide Written;
  }

  lemma Appended(value: seq<Byte>, text: seq<Byte>)
    requires text != []
    ensures value + text == value + [text[0]] + text[1..]
  {
  }

  lemma {:induction false} DoubledIsRead(q: seq<Byte>, i: nat, start: nat, c: Byte, value: seq<Byte>, text: seq<Byte>,
                                         behind: seq<Byte>)
    requires i <= |q| && q[i..] == Doubled(text, c) + [c] + behind
    requires IsQuote(c) && BACKSLASH !in text && (behind != [] ==> behind[0] != c)
    ensures var end := i + |Doubled(text, c)|;
            end < |q| && Read(q, i, Inside(start, c, value), true)
                         == [Literal(start, end, c, value + text)] + Read(q, end + 1, Outside, true)
    decreases |text|
  {
    if text == [] {
      assert value + text == value && [] + [c] + behind == [c] + behind;
      ClosingRead(q, i, start, c, value, behind);
    } else {
      hide Read, Doubled, IsQuote, Written;
      DoubledSplit(text, c, behind);
      OneDoubled(q, i, start, c, value, text[0], Doubled(text[1..], c) + [c] + behind);
      Appended(value, text);
      DoubledIsRead(q, i + |Written(text[0], c)|, start, c, value + [text[0]], text[1..], behind);
    }
  }

  predicate NoQuotes(q: seq<Byte>, i: nat, n: nat) {
    forall k :: i <= k < n && k < |q| ==> !IsQuote(q[k])
  }

  lemma {:induction false} OutsideSkipped(q: seq<Byte>, i: nat, n: nat, doubled: bool)
    requires i <= n <= |q| && NoQuotes(q, i, n)
    ensures Read(q, i, Outside, doubled) == Read(q, n, Outside, doubled)
    decreases n - i
  {
    if i < n {
      OutsideSkipped(q, i + 1, n, doubled);
    }
  }

  // Between texts without quotes the literal is read as the text it was made from; so does the
  // lexer, which knows no doubled quotes, read the rewritten query.
  lemma TextIsRead(front: seq<Byte>, text: seq<Byte>, c: Byte, behind: seq<Byte>)
    requires IsQuote(c) && BACKSLASH !in text && behind != []
    requires NoQuotes(front, 0, |front|) && NoQuotes(behind, 0, |behind|)
    ensures var q := front + [c] + Doubled(text, c) + [c] + behind;
            var literals := [Literal(|front|, |front| + 1 + |Doubled(text, c)|, c, text)];
            Read(q, 0, Outside, true) == literals && Read(Rewrite(q), 0, Outside, false) == literals
  {
    hide Rewrite;
    var d := Doubled(text, c);
    var q := front + [c] + d + [c] + behind;
    var start, end := |front|, |front| + 1 + |d|;
    assert q[start + 1..] == d + [c] + behind;
    assert q[start] == c;
    OutsideSkipped(q, 0, start, true);
    DoubledIsRead(q, start + 1, start, c, [], text, behind);
    assert [] + text == text;
    forall k | end + 1 <= k < |q|
      ensures !IsQuote(q[k])
    {
      assert q[k] == behind[k - (end + 1)];
    }
    OutsideSkipped(q, end + 1, |q|, true);
    assert Read(q, |q|, Outside, true) == [];
    KeepsMeaning(q);
  }

  // ----- what stays -----

  // A second pass changes nothing.
  lemma {:induction false} RewriteAgain(q: seq<Byte>, r: seq<Byte>, i: nat, quote: Byte)
    requires i <= |q| == |r| && (quote != 0 ==> i > 0 && IsQuote(quote) && r[i - 1] == q[i - 1])
    requires r[i..] == RewriteFrom(q, i, quote)
    ensures RewriteFrom(r, i, quote) == r[i..]
    decreases |q| - i
  {
    if i < |q| && !Stopped(q, i) {
      if quote != 0 && q[i] == quote && q[i - 1] != BACKSLASH && q[i + 1] == quote {
        PairRewritten(q, r, i, quote);
        RewriteAgain(q, r, i + 2, quote);
        AfterBackslash(r, i, quote);
      } else {
        var next := if quote == 0 then (if IsQuote(q[i]) then q[i] else 0)
                    else if q[i] != quote || q[i - 1] == BACKSLASH then quote else 0;
        Step(q, r, i, quote, next);
        RewriteAgain(q, r, i + 1, next);
        SameStep(q, r, i, quote, next);
      }
    }
  }

  // A quote behind a backslash is passed over.
  lemma AfterBackslash(r: seq<Byte>, i: nat, quote: Byte)
    requires 0 < i && i + 1 < |r| && IsQuote(quote) && r[i] == BACKSLASH && r[i + 1] == quote
    requires RewriteFrom(r, i + 2, quote) == r[i + 2..]
    ensures RewriteFrom(r, i, quote) == r[i..]
  {
    assert r[i..] == [r[i], r[i + 1]] + r[i + 2..];
    assert r[i + 1..] == [r[i + 1]] + r[i + 2..];
    assert RewriteFrom(r, i + 1, quote) == r[i + 1..];
  }

  lemma SameStep(q: seq<Byte>, r: seq<Byte>, i: nat, quote: Byte, next: Byte)
    requires i < |q| == |r| && !Stopped(q, i) && (quote != 0 ==> i > 0 && IsQuote(quote) && r[i - 1] == q[i - 1])
    requires r[i] == q[i] && r[i + 1..] == RewriteFrom(q, i + 1, next) == RewriteFrom(r, i + 1, next)
    requires || (quote == 0 && next == if IsQuote(q[i]) then q[i] else 0)
             || (quote != 0 && (q[i] != quote || q[i - 1] == BACKSLASH) && next == quote)
             || (quote != 0 && q[i] == quote && q[i - 1] != BACKSLASH && q[i + 1] != quote && next == 0)
    ensures RewriteFrom(r, i, quote) == r[i..]
  {
    assert r[i..] == [r[i]] + r[i + 1..];
    if quote != 0 && q[i] == quote && q[i - 1] != BACKSLASH {
      FirstOutside(q, i + 1);
      assert r[i + 1] == r[i + 1..][0] == q[i + 1];
    }
  }

  lemma FirstOutside(q: seq<Byte>, i: nat)
    requires i < |q|
    ensures RewriteFrom(q, i, 0)[0] == q[i]
  {
  }

  lemma RewriteTwice(q: seq<Byte>)
    ensures Rewrite(Rewrite(q)) == Rewrite(q)
  {
    RewriteAgain(q, Rewrite(q), 0, 0);
  }

  // Position `k` lies between the quotes of one of the literals.
  predicate Within(l: seq<Literal>, k: nat) {
    exists j :: 0 <= j < |l| && l[j].start < k && (l[j].Literal? ==> k < l[j].end)
  }

  predicate OnlyQuotesChanged(q: seq<Byte>, r: seq<Byte>, i: nat, l: seq<Literal>)
    requires |q| == |r|
  {
    forall k :: i <= k < |q| && r[k] != q[k] ==> r[k] == BACKSLASH && IsQuote(q[k]) && Within(l, k)
  }

  lemma {:induction false} ChangedFrom(q: seq<Byte>, r: seq<Byte>, i: nat, m: Mode)
    requires i <= |q| == |r| && Aligned(q, i, m) && (m.Inside? ==> m.start < i)
    requires r[i..] == RewriteFrom(q, i, QuoteOf(m))
    ensures OnlyQuotesChanged(q, r, i, Read(q, i, m, true))
    decreases |q| - i
  {
    if i < |q| {
      match m {
        case Outside =>
          var next := if IsQuote(q[i]) then Inside(i, q[i], []) else Outside;
          Step(q, r, i, 0, QuoteOf(next));
          ChangedFrom(q, r, i + 1, next);
        case Inside(s, c, v) => ChangedInside(q, r, i, s, c, v);
      }
    }
  }

  lemma OneKept(q: seq<Byte>, r: seq<Byte>, i: nat, l: seq<Literal>)
    requires i < |q| == |r| && r[i] == q[i] && OnlyQuotesChanged(q, r, i + 1, l)
    ensures OnlyQuotesChanged(q, r, i, l)
  {
  }

  lemma PairChanged(q: seq<Byte>, r: seq<Byte>, i: nat, l: seq<Literal>)
    requires i + 1 < |q| == |r| && IsQuote(q[i]) && (r[i] == BACKSLASH || r[i] == q[i]) && r[i + 1] == q[i + 1]
    requires l != [] && l[0].start < i && (l[0].Literal? ==> l[0].end >= i + 2)
    requires OnlyQuotesChanged(q, r, i + 2, l)
    ensures OnlyQuotesChanged(q, r, i, l)
  {
    assert Within(l, i);
  }

  lemma ChangedInside(q: seq<Byte>, r: seq<Byte>, i: nat, s: nat, c: Byte, v: seq<Byte>)
    requires s < i < |q| == |r| && Aligned(q, i, Inside(s, c, v)) && r[i..] == RewriteFrom(q, i, c)
    ensures OnlyQuotesChanged(q, r, i, Read(q, i, Inside(s, c, v), true))
    decreases |q| - i, 1
  {
    hide OnlyQuotesChanged, RewriteFrom;
    if q[i] == BACKSLASH && i + 1 < |q| && q[i + 1] == c {
      ChangedEscape(q, r, i, s, c, v);
    } else if q[i] != c {
      Step(q, r, i, c, c);
      ChangedFrom(q, r, i + 1, Inside(s, c, v + [q[i]]));
      OneKept(q, r, i, Read(q, i + 1, Inside(s, c, v + [q[i]]), true));
    } else if i + 1 < |q| && q[i + 1] == c {
      ChangedPair(q, r, i, s, c, v);
    } else {
      Step(q, r, i, c, 0);
      ChangedFrom(q, r, i + 1, Outside);
      WithinMore(q, r, i + 1, Literal(s, i, c, v), Read(q, i + 1, Outside, true));
      OneKept(q, r, i, [Literal(s, i, c, v)] + Read(q, i + 1, Outside, true));
    }
  }

  lemma ChangedEscape(q: seq<Byte>, r: seq<Byte>, i: nat, s: nat, c: Byte, v: seq<Byte>)
    requires s < i < |q| == |r| && Aligned(q, i, Inside(s, c, v)) && r[i..] == RewriteFrom(q, i, c)
    requires q[i] == BACKSLASH && i + 1 < |q| && q[i + 1] == c
    ensures OnlyQuotesChanged(q, r, i, Read(q, i, Inside(s, c, v), true))
    decreases |q| - i, 0
  {
    hide OnlyQuotesChanged, RewriteFrom;
    Step(q, r, i, c, c);
    Step(q, r, i + 1, c, c);
    var l := Read(q, i + 2, Inside(s, c, v + [c]), true);
    ChangedFrom(q, r, i + 2, Inside(s, c, v + [c]));
    OneKept(q, r, i + 1, l);
    OneKept(q, r, i, l);
  }

  lemma ChangedPair(q: seq<Byte>, r: seq<Byte>, i: nat, s: nat, c: Byte, v: seq<Byte>)
    requires s < i && i + 1 < |q| == |r| && Aligned(q, i, Inside(s, c, v)) && r[i..] == RewriteFrom(q, i, c)
    requires q[i] == c && q[i + 1] == c && c != BACKSLASH
    ensures OnlyQuotesChanged(q, r, i, Read(q, i, Inside(s, c, v), true))
    decreases |q| - i, 0
  {
    hide OnlyQuotesChanged, RewriteFrom;
    var next := Inside(s, c, v + [c]);
    PairKept(q, r, i, c);
    ChangedFrom(q, r, i + 2, next);
    FirstLiteral(q, i + 2, next, true);
    PairChanged(q, r, i, Read(q, i + 2, next, true));
  }

  lemma PairKept(q: seq<Byte>, r: seq<Byte>, i: nat, c: Byte)
    requires 0 < i && i + 1 < |q| == |r| && r[i..] == RewriteFrom(q, i, c) && IsQuote(c)
    requires q[i] == c && q[i - 1] != BACKSLASH && q[i + 1] == c
    ensures (r[i] == BACKSLASH || r[i] == c) && r[i + 1] == c && r[i + 2..] == RewriteFrom(q, i + 2, c)
  {
    if Stopped(q, i) {
      assert r[i] == r[i..][0] && r[i + 1] == r[i..][1] && r[i..][2..] == r[i + 2..] && q[i..][2..] == q[i + 2..];
    } else {
      PairRewritten(q, r, i, c);
    }
  }

  lemma WithinMore(q: seq<Byte>, r: seq<Byte>, i: nat, first: Literal, l: seq<Literal>)
    requires |q| == |r| && OnlyQuotesChanged(q, r, i, l)
    ensures OnlyQuotesChanged(q, r, i, [first] + l)
  {
    forall k | i <= k < |q| && r[k] != q[k]
      ensures Within([first] + l, k)
    {
      var j :| 0 <= j < |l| && l[j].start < k && (l[j].Literal? ==> k < l[j].end);
      assert ([first] + l)[j + 1] == l[j];
    }
  }

  // Text outside the literals is unchanged, and inside them only quotes become backslashes; the
  // length stays, so that offsets into the rewritten query fit the original.
  lemma OutsideIsKept(q: seq<Byte>)
    ensures |Rewrite(q)| == |q| && OnlyQuotesChanged(q, Rewrite(q), 0, Read(q, 0, Outside, true))
  {
    ChangedFrom(q, Rewrite(q), 0, Outside);
  }

  // ----- the loop, in place -----

  function QuoteNow(inStringQ: bool, inStringQQ: bool): Byte {
    if inStringQ then SINGLE else if inStringQQ then DOUBLE else 0
  }

  // Four zero bytes behind the `n` bytes of the query.
  predicate Terminated(query: seq<Byte>, n: nat) {
    && n + 4 <= |query| && NulFree(query[..n])
    && query[n] == query[n + 1] == query[n + 2] == query[n + 3] == 0
  }

  // From `i` on the buffer still holds the query `q`.
  predicate Untouched(query: seq<Byte>, q: seq<Byte>, i: nat) {
    Terminated(query, |q|) && i <= |q| && query[i..|q|] == q[i..] && (i > 0 ==> query[i - 1] == q[i - 1])
  }

  // One turn of the loop.
  method Turn(query: array<Byte>, i: nat, inStringQ: bool, inStringQQ: bool, ghost q: seq<Byte>)
    returns (i': nat, q': bool, qq': bool, replaced: bool)
    requires i < |q| && !Stopped(q, i) && Untouched(query[..], q, i)
    requires !(inStringQ && inStringQQ) && (inStringQ || inStringQQ ==> i > 0)
    modifies query
    ensures i < i' <= |q| && Untouched(query[..], q, i') && !(q' && qq')
    ensures query[..i] == old(query[..i]) && query[|q|..] == old(query[|q|..])
    ensures RewriteFrom(q, i, QuoteNow(inStringQ, inStringQQ)) == query[i..i'] + RewriteFrom(q, i', QuoteNow(q', qq'))
    ensures replaced <==> query[i..i'] != q[i..i']
  {
    ghost var before := query[..];
    assert forall k :: i <= k < |q| ==> query[k] == before[i..|q|][k - i] == q[k];
    i', q', qq', replaced := i, inStringQ, inStringQQ, false;
    if !qq' && !q' && query[i'] == SINGLE {
      q' := true;
    } else if !qq' && q' && query[i'] == SINGLE && query[i' - 1] != BACKSLASH {
      if query[i' + 1] == SINGLE {
        query[i'] := BACKSLASH;
        replaced := true;
        i' := i' + 1;
      } else {
        q' := false;
      }
    }
    if !q' && !qq' && query[i'] == DOUBLE {
      qq' := true;
    } else if !q' && qq' && query[i'] == DOUBLE && query[i' - 1] != BACKSLASH {
      if query[i' + 1] == DOUBLE {
        query[i'] := BACKSLASH;
        replaced := true;
        i' := i' + 1;
      } else {
        qq' := false;
      }
    }
    i' := i' + 1;
    TurnDone(before, query[..], q, i, i', QuoteNow(inStringQ, inStringQQ), QuoteNow(q', qq'), replaced);
  }

  lemma TurnDone(before: seq<Byte>, after: seq<Byte>, q: seq<Byte>, i: nat, i': nat, quote: Byte, quote': Byte,
                 replaced: bool)
    requires i < |q| && !Stopped(q, i) && Untouched(before, q, i) && (quote == 0 || IsQuote(quote))
    requires quote != 0 ==> i > 0
    requires replaced ==> quote != 0 && q[i] == quote && q[i - 1] != BACKSLASH && q[i + 1] == quote && quote' == quote
                          && i' == i + 2 && after == before[i := BACKSLASH]
    requires !replaced ==> i' == i + 1 && after == before
    requires !replaced ==>
               || (quote == 0 && quote' == if IsQuote(q[i]) then q[i] else 0)
               || (quote != 0 && (q[i] != quote || q[i - 1] == BACKSLASH) && quote' == quote)
               || (quote != 0 && q[i] == quote && q[i - 1] != BACKSLASH && q[i + 1] != quote && quote' == 0)
    ensures i' <= |q| && Untouched(after, q, i') && after[..i] == before[..i] && after[|q|..] == before[|q|..]
    ensures RewriteFrom(q, i, quote) == after[i..i'] + RewriteFrom(q, i', quote')
    ensures replaced <==> after[i..i'] != q[i..i']
  {
    SameTail(before, after, q, i, i');
    if replaced {
      assert after[i..i'] == [BACKSLASH, quote];
      NulFreeUpdate(before, after, |q|, i);
    } else {
      assert after[i..i'] == [q[i]];
    }
  }

  lemma SameTail(before: seq<Byte>, after: seq<Byte>, q: seq<Byte>, i: nat, i': nat)
    requires i < i' <= |q| <= |before| && before[i..|q|] == q[i..]
    requires after == before || after == before[i := BACKSLASH]
    ensures after[i'..|q|] == q[i'..] && (forall k :: i <= k < |q| ==> before[k] == q[k])
  {
    forall k | i <= k < |q|
      ensures before[k] == q[k]
    {
      assert before[i..|q|][k - i] == q[i..][k - i];
    }
  }

  lemma NulFreeUpdate(before: seq<Byte>, after: seq<Byte>, n: nat, i: nat)
    requires i < n && Terminated(before, n) && after == before[i := BACKSLASH]
    ensures Terminated(after, n)
  {
    forall k | 0 <= k < n
      ensures after[..n][k] != 0
    {
      assert before[..n][k] != 0;
    }
  }

  // Rewrites the query of `n` bytes in the buffer; the result says whether anything was replaced.
  method StrReplaceQuote(query: array<Byte>, ghost n: nat) returns (isReplace: bool)
    requires Terminated(query[..], n)
    modifies query
    ensures query[..n] == Rewrite(old(query[..n])) && query[n..] == old(query[n..])
    ensures isReplace <==> query[..n] != old(query[..n])
  {
    hide RewriteFrom;
    ghost var q := query[..n];
    isReplace := false;
    var inStringQQ, inStringQ := false, false;
    var i := 0;
    // The first turn over an empty query changes nothing, and the loop ends behind it.
    EmptyQuery(query[..], n);
    if query[0] == 0 {
      return;
    }
    while true
      invariant i < |q| && !Stopped(q, i) && Untouched(query[..], q, i) && query[n..] == old(query[n..])
      invariant !(inStringQ && inStringQQ) && (inStringQ || inStringQQ ==> i > 0)
      invariant query[..i] + RewriteFrom(q, i, QuoteNow(inStringQ, inStringQQ)) == Rewrite(q)
      invariant isReplace <==> query[..i] != q[..i]
      decreases n - i
    {
      ghost var done := query[..i];
      var next, replaced;
      next, inStringQ, inStringQQ, replaced := Turn(query, i, inStringQ, inStringQQ, q);
      isReplace := isReplace || replaced;
      assert query[..next] == done + query[i..next];
      Regrouped(done, query[i..next], RewriteFrom(q, next, QuoteNow(inStringQ, inStringQQ)));
      assert q[..next] == q[..i] + q[i..next];
      i := next;
      LoopTest(query[..], q, i);
      if !(query[i] != 0 && query[i + 1] != 0 && query[i + 2] != 0 && query[i + 3] != 0) {
        StoppedTail(query[..], q, i, QuoteNow(inStringQ, inStringQQ));
        return;
      }
    }
  }

  lemma Regrouped(a: seq<Byte>, b: seq<Byte>, c: seq<Byte>)
    ensures (a + b) + c == a + (b + c)
  {
  }

  lemma EmptyQuery(query: seq<Byte>, n: nat)
    requires Terminated(query, n)
    ensures query[0] == 0 <==> n == 0
    ensures n == 0 ==> Rewrite(query[..n]) == query[..n]
  {
    if n > 0 {
      assert query[..n][0] == query[0];
    }
  }

  // The loop test looks four bytes ahead.
  lemma LoopTest(query: seq<Byte>, q: seq<Byte>, i: nat)
    requires 0 < i && Untouched(query, q, i)
    ensures query[i] != 0 && query[i + 1] != 0 && query[i + 2] != 0 && query[i + 3] != 0 <==> !Stopped(q, i)
  {
    forall k | i <= k < |q|
      ensures query[k] != 0
    {
      assert query[..|q|][k] == query[k];
    }
  }

  lemma StoppedTail(query: seq<Byte>, q: seq<Byte>, i: nat, quote: Byte)
    requires 0 < i && Untouched(query, q, i) && Stopped(q, i)
    ensures query[..i] + RewriteFrom(q, i, quote) == query[..|q|]
    ensures query[..i] == q[..i] <==> query[..|q|] == q
  {
    assert RewriteFrom(q, i, quote) == q[i..] == query[i..|q|];
    assert query[..|q|] == query[..i] + query[i..|q|];
    assert q == q[..i] + q[i..];
    assert query[..|q|][..i] == query[..i];
  }
}
