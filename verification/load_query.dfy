/** The column mapping of the bulk-load statement: CSV field `i` (counting
    from 1) is read into the user variable `@col{i}`, and the `i`-th catalog
    column is assigned from that variable, an empty string becoming NULL. */
module LoadQuery {
  import opened Wrappers
  import opened Strings

  /** The user variable that receives CSV field `i`. */
  function VarName(i: nat): string
  {
    "@col" + Decimal(i)
  }

  /** Reading a variable reference back: `@col` followed by decimal digits,
      possibly after leading blanks. */
  function ParseVarName(p: string): Option<nat>
  {
    var q := DropBlanks(p);
    if |q| > 4 && q[..4] == "@col" && AllDigits(q[4..]) then Some(DecimalValue(q[4..])) else None
  }

  function DropBlanks(p: string): (q: string)
    ensures |q| <= |p| && q == p[|p| - |q|..]
  {
    if |p| > 0 && p[0] == ' ' then DropBlanks(p[1..]) else p
  }

  /** Each variable name names its position, so distinct positions get
      distinct variables. */
  lemma VarNameRoundTrip(i: nat)
    ensures ParseVarName(VarName(i)) == Some(i)
    ensures ParseVarName(" " + VarName(i)) == Some(i)
  {
    var v := VarName(i);
    assert v[..4] == "@col" && v[4..] == Decimal(i);
    DecimalRoundTrip(i);
    assert (" " + v)[1..] == v;
  }

  lemma VarNameInjective(i: nat, j: nat)
    ensures VarName(i) == VarName(j) ==> i == j
  {
    VarNameRoundTrip(i);
    VarNameRoundTrip(j);
  }

  // ---------------------------------------------------------------------------
  // user_vars

  /** `@col1` .. `@col{n}`, in order. */
  function UserVarNames(n: nat): (r: seq<string>)
    ensures |r| == n
    ensures forall i :: 0 <= i < n ==> r[i] == VarName(i + 1)
  {
    if n == 0 then [] else UserVarNames(n - 1) + [VarName(n)]
  }

  /** The `user_vars` text: the variable names joined by `, `. */
  function UserVars(n: nat): string
  {
    Join(UserVarNames(n), ", ")
  }

  /** Positions 1..n. */
  function Positions(n: nat): (r: seq<nat>)
    ensures |r| == n
    ensures forall i :: 0 <= i < n ==> r[i] == i + 1
  {
    if n == 0 then [] else Positions(n - 1) + [n]
  }

  /** Reading a `user_vars` text back into the field positions it binds. */
  function ParseUserVars(s: string): Option<seq<nat>>
  {
    ParseEach(ParseVarName, Split(s, ','))
  }

  /** Reading every piece with `parse`: the positions, in order, or `None` when
      some piece does not read. */
  function ParseEach(parse: string -> Option<nat>, ps: seq<string>): (r: Option<seq<nat>>)
    ensures r.Some? ==> |r.value| == |ps| && forall k :: 0 <= k < |ps| ==> parse(ps[k]) == Some(r.value[k])
    ensures r.None? ==> exists k :: 0 <= k < |ps| && parse(ps[k]).None?
  {
    if |ps| == 0 then Some([])
    else match (parse(ps[0]), ParseEach(parse, ps[1..]))
      case (Some(i), Some(rest)) =>
        assert forall k :: 1 <= k < |ps| ==> ps[k] == ps[1..][k - 1];
        Some([i] + rest)
      case (None, _) => None
      case (_, None) =>
        var k :| 0 <= k < |ps| - 1 && parse(ps[1..][k]).None?;
        assert parse(ps[k + 1]).None?;
        None
  }

  /** When every piece reads, the result is exactly the positions they read. */
  lemma {:induction false} ParseEachUnique(parse: string -> Option<nat>, ps: seq<string>, ns: seq<nat>)
    requires |ns| == |ps|
    requires forall k :: 0 <= k < |ps| ==> parse(ps[k]) == Some(ns[k])
    ensures ParseEach(parse, ps) == Some(ns)
  {
    var r := ParseEach(parse, ps);
    assert forall k :: 0 <= k < |ps| ==> parse(ps[k]).Some?;
    assert r.Some?;
    assert forall k :: 0 <= k < |ps| ==> r.value[k] == ns[k];
    assert r.value == ns;
  }

  lemma NoCommaInVarName(i: nat)
    ensures ',' !in VarName(i)
  {
    var d := Decimal(i);
    assert !IsDigit(',');
    assert ',' !in d;
  }

  /** The pieces `Split` finds in a `user_vars` text. */
  lemma UserVarsPieces(n: nat)
    requires n >= 1
    ensures Split(UserVars(n), ',') == [UserVarNames(n)[0]] + PrefixEach(" ", UserVarNames(n)[1..])
  {
    var names := UserVarNames(n);
    forall k | 0 <= k < n
      ensures ',' !in names[k]
    {
      NoCommaInVarName(k + 1);
    }
    assert [','] + " " == ", ";
    SplitOfJoinLongSep(names, ',', " ");
  }

  /** For at least one column, the `user_vars` text binds exactly the field
      positions 1..n, in order. */
  lemma UserVarsRoundTrip(n: nat)
    requires n >= 1
    ensures ParseUserVars(UserVars(n)) == Some(Positions(n))
  {
    var names := UserVarNames(n);
    UserVarsPieces(n);
    var pieces := [names[0]] + PrefixEach(" ", names[1..]);
    forall k | 0 <= k < n
      ensures ParseVarName(pieces[k]) == Some(Positions(n)[k])
    {
      VarNameRoundTrip(k + 1);
      if k > 0 {
        assert pieces[k] == " " + names[1..][k - 1];
      }
    }
    ParseEachUnique(ParseVarName, pieces, Positions(n));
  }

  // ---------------------------------------------------------------------------
  // set_statements

  /** The clause assigning `column` from the variable of field `i`. */
  function SetClause(column: string, i: nat): string
  {
    column + " = NULLIF(" + VarName(i) + ", '')"
  }

  /** One clause per column, the `i`-th column (from 0) read from `@col{i+1}`. */
  function SetClauses(columns: seq<string>): (r: seq<string>)
    ensures |r| == |columns|
    ensures forall i :: 0 <= i < |columns| ==> r[i] == SetClause(columns[i], i + 1)
  {
    if |columns| == 0 then []
    else SetClauses(columns[..|columns| - 1]) + [SetClause(columns[|columns| - 1], |columns|)]
  }

  /** The `set_statements` text. */
  function SetStatements(columns: seq<string>): string
  {
    Join(SetClauses(columns), ",\n  ")
  }

  const ClauseInfix: string := " = NULLIF(@col"
  const ClauseSuffix: string := ", '')"

  /** Start of the run of decimal digits that ends just before index `j`. */
  function DigitsStart(s: string, j: nat): (m: nat)
    requires j <= |s|
    ensures m <= j && (m == 0 || !IsDigit(s[m - 1]))
    ensures forall t :: m <= t < j ==> IsDigit(s[t])
  {
    if j > 0 && IsDigit(s[j - 1]) then DigitsStart(s, j - 1) else j
  }

  /** Length of the run of decimal digits at the end of `s`. */
  function TrailingDigits(s: string): (k: nat)
    ensures k <= |s|
    ensures AllDigits(s[|s| - k..])
    ensures k == |s| || !IsDigit(s[|s| - k - 1])
  {
    |s| - DigitsStart(s, |s|)
  }

  /** Reading a SET clause back, from the right: the fixed suffix, the digits
      of the field position, the fixed infix, and the column name before it. */
  function ParseSetClause(c: string): Option<(string, nat)>
  {
    if |c| < |ClauseSuffix| || c[|c| - |ClauseSuffix|..] != ClauseSuffix then None
    else
      var body := c[..|c| - |ClauseSuffix|];
      var k := TrailingDigits(body);
      var head := body[..|body| - k];
      if k == 0 || |head| < |ClauseInfix| || head[|head| - |ClauseInfix|..] != ClauseInfix then None
      else Some((head[..|head| - |ClauseInfix|], DecimalValue(body[|body| - k..])))
  }

  /** The digits after a non-digit are exactly the trailing run. */
  lemma TrailingDigitsAfter(head: string, d: string)
    requires |head| > 0 && !IsDigit(head[|head| - 1]) && AllDigits(d)
    ensures TrailingDigits(head + d) == |d|
  {
    var body := head + d;
    assert body[|head| - 1] == head[|head| - 1];
    assert forall t :: |head| <= t < |body| ==> IsDigit(body[t]) by {
      assert forall t :: |head| <= t < |body| ==> body[t] == d[t - |head|];
    }
    assert DigitsStart(body, |body|) == |head|;
  }

  /** A column name, the fixed infix, a run of digits and the fixed suffix
      read back as that column and the value of the digits. */
  lemma ParseSetClauseParts(column: string, d: string)
    requires |d| >= 1 && AllDigits(d)
    ensures ParseSetClause(column + ClauseInfix + d + ClauseSuffix) == Some((column, DecimalValue(d)))
  {
    var head := column + ClauseInfix;
    var body := head + d;
    var c := body + ClauseSuffix;
    assert c[..|c| - |ClauseSuffix|] == body;
    assert c[|c| - |ClauseSuffix|..] == ClauseSuffix;
    assert head[|head| - 1] == 'l';
    TrailingDigitsAfter(head, d);
    assert body[..|body| - |d|] == head;
    assert body[|body| - |d|..] == d;
    assert head[|head| - |ClauseInfix|..] == ClauseInfix;
    assert head[..|head| - |ClauseInfix|] == column;
  }

  /** Whatever the column name, its clause reads back as that column and that
      field position. */
  lemma SetClauseRoundTrip(column: string, i: nat)
    ensures ParseSetClause(SetClause(column, i)) == Some((column, i))
  {
    var d := Decimal(i);
    assert SetClause(column, i) == column + ClauseInfix + d + ClauseSuffix;
    ParseSetClauseParts(column, d);
    DecimalRoundTrip(i);
  }

  /** The positional invariant of the load statement: for every column index
      `i`, the `i`-th SET clause assigns the `i`-th catalog column, and the
      variable it reads is the one bound to the `i`-th CSV field. */
  lemma SetClauseAt(clauses: seq<string>, columns: seq<string>, i: nat)
    requires i < |columns| == |clauses|
    requires clauses[i] == SetClause(columns[i], i + 1)
    ensures ParseSetClause(clauses[i]) == Some((columns[i], (i + 1) as nat))
  {
    SetClauseRoundTrip(columns[i], i + 1);
  }

  lemma VarAt(n: nat, i: nat)
    requires i < n
    ensures ParseVarName(UserVarNames(n)[i]) == Some(i + 1)
  {
    var v := UserVarNames(n)[i];
    assert v == VarName(i + 1);
    VarNameRoundTrip(i + 1);
  }

  lemma ColumnMappingAligned(columns: seq<string>)
    ensures forall i :: 0 <= i < |columns| ==>
              ParseSetClause(SetClauses(columns)[i]) == Some((columns[i], (i + 1) as nat))
              && ParseVarName(UserVarNames(|columns|)[i]) == Some(i + 1)
  {
    forall i | 0 <= i < |columns|
      ensures ParseSetClause(SetClauses(columns)[i]) == Some((columns[i], (i + 1) as nat))
      ensures ParseVarName(UserVarNames(|columns|)[i]) == Some(i + 1)
    {
      SetClauseAt(SetClauses(columns), columns, i);
      VarAt(|columns|, i);
    }
  }
}
