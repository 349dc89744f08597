/** `run_sql_file`: the schema script is split on `;`, each piece is stripped
    of surrounding white space, and every non-empty piece is executed in
    order; a failing statement is logged and the loop goes on. */
module SqlScript {
  import opened Wrappers
  import opened Strings

  /** Every statement `run_sql_file` would hand to the server: non-empty, free
      of `;`, and with no white space at either end. */
  predicate IsCleanStatement(s: string)
  {
    s != [] && ';' !in s && IsStripped(s)
  }

  /** The stripped, non-empty pieces of `pieces`, in order. */
  function KeepStatements(pieces: seq<string>): (r: seq<string>)
    requires forall j :: 0 <= j < |pieces| ==> ';' !in pieces[j]
    ensures |r| <= |pieces|
    ensures forall k :: 0 <= k < |r| ==> IsCleanStatement(r[k])
  {
    if |pieces| == 0 then []
    else
      var last := Strip(pieces[|pieces| - 1]);
      KeepStatements(pieces[..|pieces| - 1]) + (if last == [] then [] else [last])
  }

  /** Every piece, stripped. */
  function StripEach(pieces: seq<string>): (r: seq<string>)
    ensures |r| == |pieces|
    ensures forall k :: 0 <= k < |r| ==> r[k] == Strip(pieces[k])
  {
    if |pieces| == 0 then [] else StripEach(pieces[..|pieces| - 1]) + [Strip(pieces[|pieces| - 1])]
  }

  /** Reference definition of the filter: the non-empty strings of `ss`, in order. */
  function NonEmpty(ss: seq<string>): seq<string>
  {
    if |ss| == 0 then [] else NonEmpty(ss[..|ss| - 1]) + (if ss[|ss| - 1] == [] then [] else [ss[|ss| - 1]])
  }

  /** Where each element of `NonEmpty(ss)` comes from: the `j`-th is `ss[idx[j]]`,
      the positions increase, and every non-empty element has its position in
      `idx`. So the filter keeps exactly the non-empty elements, in order. */
  function NonEmptyPositions(ss: seq<string>): (idx: seq<nat>)
    ensures |idx| == |NonEmpty(ss)|
    ensures forall j :: 0 <= j < |idx| ==> idx[j] < |ss| && NonEmpty(ss)[j] == ss[idx[j]]
    ensures forall j, l :: 0 <= j < l < |idx| ==> idx[j] < idx[l]
    ensures forall k :: 0 <= k < |ss| && ss[k] != [] ==> k in idx
  {
    if |ss| == 0 then []
    else
      var n := |ss| - 1;
      var before := NonEmptyPositions(ss[..n]);
      assert forall k :: 0 <= k < n ==> ss[..n][k] == ss[k];
      before + (if ss[n] == [] then [] else [n])
  }

  /** The statement filter is the non-empty filter over the stripped pieces. */
  lemma {:induction false} KeepIsNonEmptyOfStripped(pieces: seq<string>)
    requires forall j :: 0 <= j < |pieces| ==> ';' !in pieces[j]
    ensures KeepStatements(pieces) == NonEmpty(StripEach(pieces))
  {
    if |pieces| > 0 {
      var n := |pieces| - 1;
      KeepIsNonEmptyOfStripped(pieces[..n]);
      assert StripEach(pieces)[..n] == StripEach(pieces[..n]);
    }
  }

  lemma KeepStatementsStep(pieces: seq<string>, i: nat)
    requires i < |pieces|
    requires forall j :: 0 <= j < |pieces| ==> ';' !in pieces[j]
    ensures KeepStatements(pieces[..i + 1])
            == KeepStatements(pieces[..i]) + (if Strip(pieces[i]) == [] then [] else [Strip(pieces[i])])
  {
    assert pieces[..i + 1][..i] == pieces[..i];
  }

  /** The statements of a script. */
  function Statements(script: string): (r: seq<string>)
    ensures |r| <= Count(script, ';') + 1
    ensures forall k :: 0 <= k < |r| ==> IsCleanStatement(r[k])
  {
    KeepStatements(Split(script, ';'))
  }

  /** The kept statements are exactly the pieces that are not blank once
      stripped, stripped, in their order: with `ss` the stripped pieces,
      statement `j` is `ss[idx[j]]`, the positions increase, and no non-blank
      stripped piece is left out. */
  lemma KeepStatementsSelects(pieces: seq<string>)
    requires forall j :: 0 <= j < |pieces| ==> ';' !in pieces[j]
    ensures var ss, idx := StripEach(pieces), NonEmptyPositions(StripEach(pieces));
            && |idx| == |KeepStatements(pieces)|
            && (forall j :: 0 <= j < |idx| ==> idx[j] < |ss| && KeepStatements(pieces)[j] == ss[idx[j]])
            && (forall j, l :: 0 <= j < l < |idx| ==> idx[j] < idx[l])
            && (forall k :: 0 <= k < |ss| && ss[k] != [] ==> k in idx)
  {
    KeepIsNonEmptyOfStripped(pieces);
  }

  /** The same for a whole script: its statements are exactly its `;`-pieces
      that are not blank once stripped, stripped, in the order of the script. */
  lemma StatementsArePieces(script: string)
    ensures var ss := StripEach(Split(script, ';'));
            var idx := NonEmptyPositions(ss);
            && |idx| == |Statements(script)|
            && (forall j :: 0 <= j < |idx| ==> idx[j] < |ss| && Statements(script)[j] == ss[idx[j]])
            && (forall j, l :: 0 <= j < l < |idx| ==> idx[j] < idx[l])
            && (forall k :: 0 <= k < |ss| && ss[k] != [] ==> k in idx)
  {
    var pieces := Split(script, ';');
    KeepStatementsSelects(pieces);
    assert Statements(script) == KeepStatements(pieces);
  }

  /** A script without `;` is at most one statement: the stripped script. */
  lemma SingleStatement(script: string)
    requires ';' !in script
    ensures Strip(script) == [] ==> Statements(script) == []
    ensures Strip(script) != [] ==> Statements(script) == [Strip(script)]
  {
    SplitOfPiece(script, ';');
    assert Split(script, ';')[..0] == [];
  }

  lemma {:induction false} KeepClean(stmts: seq<string>)
    requires forall k :: 0 <= k < |stmts| ==> IsCleanStatement(stmts[k])
    requires forall k :: 0 <= k < |stmts| ==> ';' !in stmts[k]
    ensures KeepStatements(stmts) == stmts
  {
    if |stmts| > 0 {
      var init := stmts[..|stmts| - 1];
      KeepClean(init);
      StripStripped(stmts[|stmts| - 1]);
      assert stmts == init + [stmts[|stmts| - 1]];
    }
  }

  /** Clean statements joined with `;` split back into exactly themselves. */
  lemma StatementsOfJoin(stmts: seq<string>)
    requires forall k :: 0 <= k < |stmts| ==> IsCleanStatement(stmts[k])
    ensures Statements(Join(stmts, ";")) == stmts
  {
    if |stmts| > 0 {
      SplitOfJoin(stmts, ';');
      KeepClean(stmts);
    } else {
      assert Split([], ';') == [[]];
    }
  }

  /** What executing one statement gave back: an error message, if any. */
  datatype Executed = Executed(command: string, error: Option<string>)

  /** The log of executing `stmts` in order, each with the server's reply. */
  function ExecuteEach(stmts: seq<string>, execute: string -> Option<string>): (log: seq<Executed>)
    ensures |log| == |stmts|
    ensures forall k :: 0 <= k < |log| ==> log[k] == Executed(stmts[k], execute(stmts[k]))
  {
    if |stmts| == 0 then []
    else ExecuteEach(stmts[..|stmts| - 1], execute) + [Executed(stmts[|stmts| - 1], execute(stmts[|stmts| - 1]))]
  }

  /** The statement loop of `run_sql_file` over the pieces of the script,
      with the server's reply to each statement given as `execute`: every
      non-empty stripped piece is tried in order, and an error is recorded
      without stopping the loop. */
  method RunPieces(pieces: seq<string>, execute: string -> Option<string>) returns (log: seq<Executed>)
    requires forall j :: 0 <= j < |pieces| ==> ';' !in pieces[j]
    ensures log == ExecuteEach(KeepStatements(pieces), execute)
  {
    log := [];
    ghost var kept: seq<string> := [];
    var i := 0;
    while i < |pieces|
      invariant 0 <= i <= |pieces|
      invariant kept == KeepStatements(pieces[..i])
      invariant log == ExecuteEach(kept, execute)
    {
      var cmd := Strip(pieces[i]);
      KeepStatementsStep(pieces, i);
      if cmd != [] {
        assert (kept + [cmd])[..|kept|] == kept;
        log := log + [Executed(cmd, execute(cmd))];
        kept := kept + [cmd];
      }
      i := i + 1;
    }
    assert pieces[..i] == pieces;
  }

  /** `run_sql_file`: split the script on `;` and run the pieces. */
  method RunSqlFile(script: string, execute: string -> Option<string>) returns (log: seq<Executed>)
    ensures |log| == |Statements(script)|
    ensures forall k :: 0 <= k < |log| ==>
              log[k].command == Statements(script)[k] && log[k].error == execute(log[k].command)
  {
    log := RunPieces(Split(script, ';'), execute);
  }
}
