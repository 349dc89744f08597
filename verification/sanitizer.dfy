/** The field sanitiser of the ingestion script: every CSV field is escaped,
    classified as a number or as text, text is wrapped in backticks, and an
    empty quoted token becomes a true empty field. */
module Sanitizer {
  import opened Wrappers
  import opened Strings

  const Backslash: char := '\\'
  const Backtick: char := '`'

  /** The characters the escape step protects. */
  predicate NoSpecials(s: string)
  {
    Backslash !in s && Backtick !in s
  }

  // ---------------------------------------------------------------------------
  // Escaping

  /** `escape_backticks_and_backslashes`: two successive `str.replace` passes,
      backslashes first, then backticks. */
  function Escape(s: string): string
  {
    ReplaceChar(ReplaceChar(s, Backslash, [Backslash, Backslash]), Backtick, [Backslash, Backtick])
  }

  /** What escaping does to one character. */
  function EscapeChar(c: char): string
  {
    if c == Backslash then [Backslash, Backslash]
    else if c == Backtick then [Backslash, Backtick]
    else [c]
  }

  /** Reference definition: a single left-to-right pass that escapes each
      character on its own. */
  function EscapeEach(s: string): string
  {
    if |s| == 0 then [] else EscapeChar(s[0]) + EscapeEach(s[1..])
  }

  /** The two-pass escape is the one-pass, character-wise escape: every
      backslash is doubled, every backtick gets one backslash in front, and
      nothing else changes. This holds because backslashes are replaced first,
      so the backslash inserted before a backtick is never doubled. */
  lemma {:induction false} EscapeIsCharwise(s: string)
    ensures Escape(s) == EscapeEach(s)
  {
    if |s| > 0 {
      var c, t := s[0], s[1..];
      var first := ReplaceChar([c], Backslash, [Backslash, Backslash]);
      assert s == [c] + t;
      ReplaceCharConcat([c], t, Backslash, [Backslash, Backslash]);
      ReplaceCharConcat(first, ReplaceChar(t, Backslash, [Backslash, Backslash]), Backtick, [Backslash, Backtick]);
      EscapeIsCharwise(t);
      assert ReplaceChar(first, Backtick, [Backslash, Backtick]) == EscapeChar(c);
    }
  }

  /** Had the backtick pass run first, its backslash would be doubled. */
  lemma ReversedPassesDoubleEscape()
    ensures ReplaceChar(ReplaceChar([Backtick], Backtick, [Backslash, Backtick]), Backslash, [Backslash, Backslash])
            == [Backslash, Backslash, Backtick]
    ensures Escape([Backtick]) == [Backslash, Backtick]
  {
    assert ReplaceChar([Backtick], Backtick, [Backslash, Backtick]) == [Backslash, Backtick];
    assert ReplaceChar([Backslash, Backtick], Backslash, [Backslash, Backslash])
        == [Backslash, Backslash] + ReplaceChar([Backtick], Backslash, [Backslash, Backslash]);
    assert ReplaceChar([Backtick], Backslash, [Backslash, Backslash]) == [Backtick];
  }

  lemma {:induction false} EscapeEachConcat(a: string, b: string)
    ensures EscapeEach(a + b) == EscapeEach(a) + EscapeEach(b)
  {
    if |a| == 0 {
      assert a + b == b;
    } else {
      assert (a + b)[0] == a[0];
      assert (a + b)[1..] == a[1..] + b;
      EscapeEachConcat(a[1..], b);
    }
  }

  /** Escaping adds exactly one character per backslash and per backtick. */
  lemma {:induction false} EscapeLength(s: string)
    ensures |Escape(s)| == |s| + Count(s, Backslash) + Count(s, Backtick)
  {
    EscapeIsCharwise(s);
    EscapeEachLength(s);
  }

  lemma {:induction false} EscapeEachLength(s: string)
    ensures |EscapeEach(s)| == |s| + Count(s, Backslash) + Count(s, Backtick)
  {
    if |s| > 0 {
      EscapeEachLength(s[1..]);
    }
  }

  /** Escaping leaves a string unchanged exactly when it has nothing to escape. */
  lemma EscapeIdentityIff(s: string)
    ensures Escape(s) == s <==> NoSpecials(s)
  {
    EscapeLength(s);
    CountZeroIffAbsent(s, Backslash);
    CountZeroIffAbsent(s, Backtick);
  }

  /** A string with a backslash or a backtick still has one after escaping. */
  lemma {:induction false} EscapeKeepsSpecials(s: string)
    ensures NoSpecials(Escape(s)) ==> NoSpecials(s)
  {
    EscapeIsCharwise(s);
    EscapeEachKeepsSpecials(s);
  }

  lemma {:induction false} EscapeEachKeepsSpecials(s: string)
    ensures NoSpecials(EscapeEach(s)) ==> NoSpecials(s)
  {
    if |s| > 0 {
      EscapeEachKeepsSpecials(s[1..]);
      assert EscapeEach(s) == EscapeChar(s[0]) + EscapeEach(s[1..]);
      assert s == [s[0]] + s[1..];
    }
  }

  /** Only the empty string escapes to the empty string. */
  lemma EscapeEmptyIff(s: string)
    ensures Escape(s) == [] <==> s == []
  {
    EscapeLength(s);
  }

  // ---------------------------------------------------------------------------
  // Unescaping

  /** Left-to-right unescape: a backslash takes the next character literally
      (only a backslash or a backtick may follow it); a bare backtick or a
      dangling backslash means the input was not produced by `Escape`. */
  function Unescape(t: string): Option<string>
  {
    if |t| == 0 then Some([])
    else if t[0] == Backslash then
      if |t| >= 2 && (t[1] == Backslash || t[1] == Backtick) then
        match Unescape(t[2..])
        case Some(rest) => Some([t[1]] + rest)
        case None => None
      else None
    else if t[0] == Backtick then None
    else
      match Unescape(t[1..])
      case Some(rest) => Some([t[0]] + rest)
      case None => None
  }

  /** Unescaping recovers the original string exactly. */
  lemma {:induction false} UnescapeEscape(s: string)
    ensures Unescape(Escape(s)) == Some(s)
  {
    EscapeIsCharwise(s);
    UnescapeEscapeEach(s);
  }

  lemma {:induction false} UnescapeEscapeEach(s: string)
    ensures Unescape(EscapeEach(s)) == Some(s)
  {
    if |s| > 0 {
      var c, t := s[0], s[1..];
      var e := EscapeEach(s);
      UnescapeEscapeEach(t);
      assert e == EscapeChar(c) + EscapeEach(t);
      if c == Backslash || c == Backtick {
        assert e[2..] == EscapeEach(t);
      } else {
        assert e[1..] == EscapeEach(t);
      }
      assert s == [c] + t;
    }
  }

  /** Conversely, whatever unescapes successfully is the escape of its result,
      so `Escape` is a bijection onto the strings `Unescape` accepts. */
  lemma {:induction false} EscapeUnescape(t: string, s: string)
    requires Unescape(t) == Some(s)
    ensures Escape(s) == t
  {
    EscapeIsCharwise(s);
    EscapeEachUnescape(t, s);
  }

  lemma {:induction false} EscapeEachUnescape(t: string, s: string)
    requires Unescape(t) == Some(s)
    ensures EscapeEach(s) == t
    decreases |t|
  {
    if |t| > 0 {
      if t[0] == Backslash {
        var rest := Unescape(t[2..]).value;
        EscapeEachUnescape(t[2..], rest);
        assert s == [t[1]] + rest;
        assert s[1..] == rest;
        assert t == [t[0], t[1]] + t[2..];
      } else {
        var rest := Unescape(t[1..]).value;
        EscapeEachUnescape(t[1..], rest);
        assert s == [t[0]] + rest;
        assert s[1..] == rest;
        assert t == [t[0]] + t[1..];
      }
    }
  }

  /** An escaped string never has a bare backtick, so in particular it is never
      the quoted-empty token. */
  lemma EscapeNotQuotedEmpty(s: string)
    ensures Escape(s) != [Backtick, Backtick]
  {
    UnescapeEscape(s);
  }

  // ---------------------------------------------------------------------------
  // Classifying and quoting one field

  /** The number test (`is_number`, which asks Python's `float()`), taken as
      a parameter. */
  type NumberTest = string -> bool

  /** The one fact assumed of the number test: a string it accepts contains
      neither a backslash nor a backtick. */
  ghost predicate NumbersArePlain(isNumber: NumberTest)
  {
    forall s :: isNumber(s) ==> NoSpecials(s)
  }

  /** The body of the field loop of `preprocess_csv_for_db`: escape, then pass
      a number through bare or wrap text in backticks, then turn the
      quoted-empty token into an empty field. */
  function SanitizeField(isNumber: NumberTest, field: string): (r: string)
    ensures field == [] ==> r == []
    ensures field != [] && isNumber(Escape(field)) ==> r == Escape(field)
    ensures field != [] && !isNumber(Escape(field)) ==> r == [Backtick] + Escape(field) + [Backtick]
    ensures r != [Backtick, Backtick]
  {
    EscapeEmptyIff(field);
    EscapeNotQuotedEmpty(field);
    var escaped := Escape(field);
    var quoted := if isNumber(escaped) then escaped else [Backtick] + escaped + [Backtick];
    if quoted == [Backtick, Backtick] then [] else quoted
  }

  /** A field the number test accepts is emitted exactly as it came in, and
      sanitising that output again changes nothing. */
  lemma NumericFieldUnchanged(isNumber: NumberTest, field: string)
    requires NumbersArePlain(isNumber)
    requires isNumber(Escape(field))
    ensures SanitizeField(isNumber, field) == field
    ensures SanitizeField(isNumber, SanitizeField(isNumber, field)) == SanitizeField(isNumber, field)
  {
    assert NoSpecials(Escape(field));
    EscapeKeepsSpecials(field);
    EscapeIdentityIff(field);
  }

  /** Reading a sanitised field back: a backtick-quoted token is unescaped,
      anything else (a bare number or the empty field) is taken as it is. */
  function UnquoteField(r: string): Option<string>
  {
    if |r| >= 2 && r[0] == Backtick && r[|r| - 1] == Backtick then Unescape(r[1..|r| - 1])
    else Some(r)
  }

  /** Every field, numeric, text or empty, can be read back from its
      sanitised form. */
  lemma FieldRoundTrip(isNumber: NumberTest, field: string)
    requires NumbersArePlain(isNumber)
    ensures UnquoteField(SanitizeField(isNumber, field)) == Some(field)
  {
    var r := SanitizeField(isNumber, field);
    if field == [] {
    } else if isNumber(Escape(field)) {
      NumericFieldUnchanged(isNumber, field);
      assert NoSpecials(Escape(field));
      assert r == field && Backtick !in r;
      assert r[0] != Backtick;
    } else {
      assert r == [Backtick] + Escape(field) + [Backtick];
      assert r[1..|r| - 1] == Escape(field);
      UnescapeEscape(field);
    }
  }

  // ---------------------------------------------------------------------------
  // Rows and files

  /** The field loop: one output field per input field, in order. */
  function SanitizeRow(isNumber: NumberTest, row: seq<string>): (r: seq<string>)
    ensures |r| == |row|
    ensures forall j :: 0 <= j < |row| ==> r[j] == SanitizeField(isNumber, row[j])
  {
    if |row| == 0 then [] else [SanitizeField(isNumber, row[0])] + SanitizeRow(isNumber, row[1..])
  }

  /** The row loop: one output row per input row, header included. */
  function SanitizeRecords(isNumber: NumberTest, records: seq<seq<string>>): (r: seq<seq<string>>)
    ensures |r| == |records|
    ensures forall i :: 0 <= i < |records| ==> r[i] == SanitizeRow(isNumber, records[i])
  {
    if |records| == 0 then [] else [SanitizeRow(isNumber, records[0])] + SanitizeRecords(isNumber, records[1..])
  }

  /** The field loop of `preprocess_csv_for_db`: the row handed to the
      writer holds the sanitised fields, in order. */
  method PreprocessRow(isNumber: NumberTest, row: seq<string>) returns (newRow: seq<string>)
    ensures |newRow| == |row|
    ensures forall j :: 0 <= j < |row| ==> newRow[j] == SanitizeField(isNumber, row[j])
  {
    newRow := [];
    var j := 0;
    while j < |row|
      invariant 0 <= j <= |row|
      invariant |newRow| == j
      invariant forall m :: 0 <= m < j ==> newRow[m] == SanitizeField(isNumber, row[m])
    {
      newRow := newRow + [SanitizeField(isNumber, row[j])];
      j := j + 1;
    }
  }

  /** `preprocess_csv_for_db` with the CSV reader and writer abstracted away:
      the row loop hands the writer one sanitised row per input row. */
  method PreprocessCsv(isNumber: NumberTest, records: seq<seq<string>>) returns (written: seq<seq<string>>)
    ensures |written| == |records|
    ensures forall i :: 0 <= i < |records| ==> written[i] == SanitizeRow(isNumber, records[i])
    ensures written == SanitizeRecords(isNumber, records)
  {
    written := [];
    var i := 0;
    while i < |records|
      invariant 0 <= i <= |records|
      invariant |written| == i
      invariant forall k :: 0 <= k < i ==> written[k] == SanitizeRow(isNumber, records[k])
    {
      var newRow := PreprocessRow(isNumber, records[i]);
      assert newRow == SanitizeRow(isNumber, records[i]);
      written := written + [newRow];
      i := i + 1;
    }
  }

  /** Reading a sanitised row back field by field; fails if any field fails. */
  function UnquoteRow(row: seq<string>): Option<seq<string>>
  {
    if |row| == 0 then Some([])
    else match (UnquoteField(row[0]), UnquoteRow(row[1..]))
      case (Some(f), Some(rest)) => Some([f] + rest)
      case _ => None
  }

  /** A whole row can be read back from its sanitised form. */
  lemma {:induction false} RowRoundTrip(isNumber: NumberTest, row: seq<string>)
    requires NumbersArePlain(isNumber)
    ensures UnquoteRow(SanitizeRow(isNumber, row)) == Some(row)
  {
    if |row| > 0 {
      var r := SanitizeRow(isNumber, row);
      assert r == [SanitizeField(isNumber, row[0])] + SanitizeRow(isNumber, row[1..]);
      assert r[0] == SanitizeField(isNumber, row[0]);
      assert r[1..] == SanitizeRow(isNumber, row[1..]);
      FieldRoundTrip(isNumber, row[0]);
      RowRoundTrip(isNumber, row[1..]);
      assert UnquoteRow(r) == Some([row[0]] + row[1..]);
      assert row == [row[0]] + row[1..];
    }
  }
}
