/** From requested column names to positions: `prepare_columns_for_select` and
    `prepare_where_expressions`.

    A table defines its columns in an order of its own; the position table says, for each defined
    column, at which place of the answer it was asked for, or -1.  Both functions fill such a
    table with the same two nested loops.
 */
module ColumnMapping {
  import opened Bytes

  const MAX_COLUMNS := 20
  const MAX_EXPRESSIONS := 10

  const SQL_OK := 0
  const SQL_ERR_NOT_IMPLEMENTED := 2
  const SQL_ERR_WHERE_EXPRESSIONS := 13
  const SQL_ERR_COLUMNS_LIST := 14

  type Token = seq<Byte>

  function IndexOf(def: seq<Token>, name: Token): (j: nat)
    ensures j <= |def| && (j < |def| ==> def[j] == name)
    ensures j == |def| <==> name !in def
    ensures forall k :: 0 <= k < j ==> def[k] != name
  {
    if def == [] || def[0] == name then 0
    else
      assert def == [def[0]] + def[1..];
      1 + IndexOf(def[1..], name)
  }

  predicate Distinct(names: seq<Token>) {
    forall i, j :: 0 <= i < j < |names| ==> names[i] != names[j]
  }

  predicate AllDefined(def: seq<Token>, names: seq<Token>) {
    forall i :: 0 <= i < |names| ==> names[i] in def
  }

  // What looking up name number `i` finds wrong.
  function PlaceError(def: seq<Token>, names: seq<Token>, i: nat): int
    requires i < |names|
  {
    if names[i] !in def then SQL_ERR_COLUMNS_LIST
    else if names[i] in names[..i] then SQL_ERR_WHERE_EXPRESSIONS
    else SQL_OK
  }

  // The error of the first name, from number `i` on, that is not defined, was named before, or
  // comes with a refused operator.
  function FirstError(def: seq<Token>, names: seq<Token>, refused: seq<bool>, i: nat): int
    requires i <= |names| == |refused|
    decreases |names| - i
  {
    if i == |names| then SQL_OK
    else if PlaceError(def, names, i) != SQL_OK then PlaceError(def, names, i)
    else if refused[i] then SQL_ERR_NOT_IMPLEMENTED
    else FirstError(def, names, refused, i + 1)
  }

  // There is no error exactly when the names are distinct and all defined, and no operator is refused.
  lemma {:induction false} FirstErrorIff(def: seq<Token>, names: seq<Token>, refused: seq<bool>, i: nat)
    requires i <= |names| == |refused|
    ensures FirstError(def, names, refused, i) == SQL_OK <==>
            forall k :: i <= k < |names| ==> names[k] in def && names[k] !in names[..k] && !refused[k]
    decreases |names| - i
  {
    if i < |names| && names[i] in def && names[i] !in names[..i] && !refused[i] {
      FirstErrorIff(def, names, refused, i + 1);
    }
  }

  // Names before number `k` are new, defined and not refused.
  predicate FineBefore(def: seq<Token>, names: seq<Token>, refused: seq<bool>, i: nat, k: nat)
    requires k <= |names| == |refused|
  {
    forall m :: i <= m < k ==> names[m] in def && names[m] !in names[..m] && !refused[m]
  }

  // Which error it is: that of the first name that is not fine, first of all whether it is defined,
  // then whether it was named before, then whether its operator is refused.
  lemma {:induction false} FirstErrorIs(def: seq<Token>, names: seq<Token>, refused: seq<bool>, i: nat, k: nat)
    requires i <= k < |names| == |refused| && FineBefore(def, names, refused, i, k)
    ensures names[k] !in def ==> FirstError(def, names, refused, i) == SQL_ERR_COLUMNS_LIST
    ensures names[k] in def && names[k] in names[..k] ==>
              FirstError(def, names, refused, i) == SQL_ERR_WHERE_EXPRESSIONS
    ensures names[k] in def && names[k] !in names[..k] && refused[k] ==>
              FirstError(def, names, refused, i) == SQL_ERR_NOT_IMPLEMENTED
    decreases k - i
  {
    if i < k {
      FirstErrorIs(def, names, refused, i + 1, k);
    }
  }

  lemma DistinctIff(names: seq<Token>)
    ensures Distinct(names) <==> forall k :: 0 <= k < |names| ==> names[k] !in names[..k]
  {
    if forall k :: 0 <= k < |names| ==> names[k] !in names[..k] {
      forall i, j | 0 <= i < j < |names|
        ensures names[i] != names[j]
      {
        assert names[..j][i] == names[i];
      }
    }
  }

  function NoneRefused(n: nat): seq<bool> {
    seq(n, _ => false)
  }

  lemma ResolvedIff(def: seq<Token>, names: seq<Token>)
    ensures FirstError(def, names, NoneRefused(|names|), 0) == SQL_OK <==> Distinct(names) && AllDefined(def, names)
  {
    FirstErrorIff(def, names, NoneRefused(|names|), 0);
    DistinctIff(names);
  }

  // ----- the position table -----

  // Column `j` of the table stands at place `pos[j]` of the answer, in both directions.
  predicate Mapped(pos: seq<int>, def: seq<Token>, names: seq<Token>) {
    && |def| <= |pos|
    && (forall j :: 0 <= j < |pos| ==> pos[j] == -1 || (0 <= pos[j] < |names| && j < |def| && def[j] == names[pos[j]]))
    && (forall i :: 0 <= i < |names| ==> names[i] in def && pos[IndexOf(def, names[i])] == i)
  }

  function CountUsed(pos: seq<int>): nat {
    if pos == [] then 0 else (if pos[0] >= 0 then 1 else 0) + CountUsed(pos[1..])
  }

  lemma {:induction false} CountUsedUpdate(pos: seq<int>, j: nat, v: nat)
    requires j < |pos| && pos[j] < 0
    ensures CountUsed(pos[j := v]) == CountUsed(pos) + 1
  {
    if j == 0 {
      assert pos[0 := v][1..] == pos[1..];
    } else {
      assert pos[j := v][1..] == pos[1..][j - 1 := v];
      CountUsedUpdate(pos[1..], j - 1, v);
    }
  }

  lemma {:induction false} CountUsedNone(pos: seq<int>)
    requires forall j :: 0 <= j < |pos| ==> pos[j] == -1
    ensures CountUsed(pos) == 0
  {
    if pos != [] {
      CountUsedNone(pos[1..]);
    }
  }

  predicate HasPlace(pos: seq<int>, i: nat) {
    exists j :: 0 <= j < |pos| && pos[j] == i
  }

  // The non-negative positions of a mapping hit every place of the answer exactly once.
  lemma MappedIsBijection(pos: seq<int>, def: seq<Token>, names: seq<Token>)
    requires Mapped(pos, def, names)
    ensures forall i :: 0 <= i < |names| ==> HasPlace(pos, i)
    ensures forall j :: 0 <= j < |pos| && pos[j] >= 0 ==> pos[j] < |names| && j < |def| && def[j] == names[pos[j]]
    ensures Distinct(def) ==> forall j, j' :: 0 <= j < j' < |pos| && pos[j] >= 0 ==> pos[j] != pos[j']
  {
    forall i | 0 <= i < |names|
      ensures HasPlace(pos, i)
    {
      assert pos[IndexOf(def, names[i])] == i;
    }
  }

  lemma NotNamedBefore(pos: seq<int>, def: seq<Token>, names: seq<Token>, name: Token)
    requires Mapped(pos, def, names) && name in def && pos[IndexOf(def, name)] == -1
    ensures name !in names
  {
    forall k | 0 <= k < |names|
      ensures names[k] != name
    {
      assert pos[IndexOf(def, names[k])] == k;
    }
  }

  lemma NamedBefore(pos: seq<int>, def: seq<Token>, names: seq<Token>, name: Token)
    requires Mapped(pos, def, names) && name in def && pos[IndexOf(def, name)] != -1
    ensures name in names
  {
    var j := IndexOf(def, name);
    assert def[j] == names[pos[j]];
  }

  lemma NextMapped(pos: seq<int>, def: seq<Token>, names: seq<Token>, name: Token)
    requires Mapped(pos, def, names) && name in def && pos[IndexOf(def, name)] == -1
    ensures Mapped(pos[IndexOf(def, name) := |names|], def, names + [name])
  {
    var j := IndexOf(def, name);
    var pos' := pos[j := |names|];
    var names' := names + [name];
    NotNamedBefore(pos, def, names, name);
    forall k | 0 <= k < |names'|
      ensures names'[k] in def && pos'[IndexOf(def, names'[k])] == k
    {
      if k < |names| {
        assert pos[IndexOf(def, names[k])] == k;
      }
    }
  }

  // memset(-1)
  method Forget(positions: array<int>)
    modifies positions
    ensures CountUsed(positions[..]) == 0 && (forall k :: 0 <= k < positions.Length ==> positions[k] == -1)
    ensures forall def: seq<Token> | |def| <= positions.Length :: Mapped(positions[..], def, [])
  {
    for j := 0 to positions.Length
      invariant forall k :: 0 <= k < j ==> positions[k] == -1
    {
      positions[j] := -1;
    }
    CountUsedNone(positions[..]);
  }

  // The inner loop of both functions: looks up name number `i` and gives its column the place `i`.
  method Place(positions: array<int>, def: seq<Token>, names: seq<Token>, i: nat) returns (code: int)
    requires i < |names| && |def| <= positions.Length
    requires Mapped(positions[..], def, names[..i]) && CountUsed(positions[..]) == i
    modifies positions
    ensures code == PlaceError(def, names, i)
    ensures code == SQL_OK ==> Mapped(positions[..], def, names[..i + 1]) && CountUsed(positions[..]) == i + 1
  {
    hide Mapped;
    ghost var pos := positions[..];
    var j := 0;
    while j < |def|
      invariant j <= IndexOf(def, names[i])
      invariant positions[..] == pos
    {
      if def[j] == names[i] {
        assert j == IndexOf(def, names[i]) && def[j] in def;
        if positions[j] != -1 {
          NamedBefore(pos, def, names[..i], names[i]);
          return SQL_ERR_WHERE_EXPRESSIONS;
        }
        NotNamedBefore(pos, def, names[..i], names[i]);
        NextMapped(pos, def, names[..i], names[i]);
        CountUsedUpdate(pos, j, i);
        positions[j] := i;
        assert positions[..] == pos[j := i];
        assert names[..i] + [names[i]] == names[..i + 1];
        return SQL_OK;
      }
      j := j + 1;
    }
    code := SQL_ERR_COLUMNS_LIST;
  }
}
