/** The two hand-written CSV line parsers of the lakehouse UI, and the quoting that they undo. */
module CsvLine {
  import opened Prelude

  /** One pass over a line: the fields to come, given the field read so far and whether a quote is open. */
  function Scan(s: string, cur: string, inQ: bool): (fields: seq<string>)
    ensures fields != []
    decreases |s|
  {
    if s == "" then [cur]
    else if s[0] == '"' then
      if inQ && |s| > 1 && s[1] == '"' then Scan(s[2..], cur + "\"", inQ)
      else Scan(s[1..], cur, !inQ)
    else if s[0] == ',' && !inQ then [cur] + Scan(s[1..], "", false)
    else Scan(s[1..], cur + [s[0]], inQ)
  }

  function Fields(line: string): seq<string> { Scan(line, "", false) }

  function EmptyToNull(fields: seq<string>): (r: seq<Option<string>>)
    ensures |r| == |fields|
  {
    seq(|fields|, i requires 0 <= i < |fields| => if fields[i] == "" then None else Some(fields[i]))
  }

  /** The parser of the query page. */
  method ParseCsvLine(line: string) returns (result: seq<string>)
    ensures result == Fields(line)
  {
    result := [];
    var cur, inQ, i := "", false, 0;
    while i < |line|
      invariant 0 <= i <= |line|
      invariant Fields(line) == result + Scan(line[i..], cur, inQ)
    {
      var ch := line[i];
      assert line[i..][1..] == line[i + 1..];
      if ch == '"' && !inQ {
        inQ := true;
      } else if ch == '"' && inQ {
        if i + 1 < |line| && line[i + 1] == '"' {
          assert line[i..][2..] == line[i + 2..];
          cur := cur + "\"";
          i := i + 1;
        } else {
          inQ := false;
        }
      } else if ch == ',' && !inQ {
        assert result + ([cur] + Scan(line[i + 1..], "", false)) == result + [cur] + Scan(line[i + 1..], "", false);
        result := result + [cur];
        cur := "";
      } else {
        cur := cur + [ch];
      }
      i := i + 1;
    }
    result := result + [cur];
  }

  /** The parser of compare, which toggles on a quote and turns empty fields into null. */
  method ParsePgCsvRow(line: string) returns (row: seq<Option<string>>)
    ensures row == EmptyToNull(Fields(line))
  {
    var vals: seq<string> := [];
    var cur, inQ, i := "", false, 0;
    while i < |line|
      invariant 0 <= i <= |line|
      invariant Fields(line) == vals + Scan(line[i..], cur, inQ)
    {
      var c := line[i];
      assert line[i..][1..] == line[i + 1..];
      if c == '"' {
        if inQ && i + 1 < |line| && line[i + 1] == '"' {
          assert line[i..][2..] == line[i + 2..];
          cur := cur + "\"";
          i := i + 1;
        } else {
          inQ := !inQ;
        }
      } else if c == ',' && !inQ {
        assert vals + ([cur] + Scan(line[i + 1..], "", false)) == vals + [cur] + Scan(line[i + 1..], "", false);
        vals := vals + [cur];
        cur := "";
      } else {
        cur := cur + [c];
      }
      i := i + 1;
    }
    vals := vals + [cur];
    row := EmptyToNull(vals);
  }

  // ---- Quoting, as in section 2 of RFC 4180 ----

  function Escape(field: string): string {
    if field == "" then ""
    else (if field[0] == '"' then "\"\"" else [field[0]]) + Escape(field[1..])
  }

  /** A field holding a comma or a quote must be quoted; any other may be. */
  predicate NeedsQuotes(field: string) { ',' in field || '"' in field }

  function Quoted(field: string, quote: bool): string {
    if quote then "\"" + Escape(field) + "\"" else field
  }

  predicate ValidQuoting(fields: seq<string>, quotes: seq<bool>) {
    |quotes| == |fields| && forall i :: 0 <= i < |fields| && NeedsQuotes(fields[i]) ==> quotes[i]
  }

  function Line(fields: seq<string>, quotes: seq<bool>): string
    requires fields != [] && |quotes| == |fields|
  {
    if |fields| == 1 then Quoted(fields[0], quotes[0])
    else Quoted(fields[0], quotes[0]) + "," + Line(fields[1..], quotes[1..])
  }

  /** Inside quotes, an escaped text reads as itself up to the closing quote. */
  lemma {:induction false} ScanEscaped(field: string, rest: string, cur: string)
    requires rest == "" || rest[0] != '"'
    ensures Scan(Escape(field) + "\"" + rest, cur, true) == Scan(rest, cur + field, false)
  {
    var s := Escape(field) + "\"" + rest;
    if field == "" {
      assert s == "\"" + rest && s[1..] == rest && cur + field == cur;
    } else {
      var tail := Escape(field[1..]) + "\"" + rest;
      ScanEscaped(field[1..], rest, cur + [field[0]]);
      assert cur + [field[0]] + field[1..] == cur + field by { assert field == [field[0]] + field[1..]; }
      if field[0] == '"' {
        assert s == "\"\"" + tail && s[2..] == tail;
      } else {
        assert s == [field[0]] + tail && s[1..] == tail;
      }
    }
  }

  lemma {:induction false} ScanPlain(field: string, rest: string, cur: string)
    requires !NeedsQuotes(field)
    ensures Scan(field + rest, cur, false) == Scan(rest, cur + field, false)
  {
    if field == "" {
      assert field + rest == rest && cur + field == cur;
    } else {
      assert field[0] in field;
      assert !NeedsQuotes(field[1..]) by {
        assert forall c :: c in field[1..] ==> c in field;
      }
      assert (field + rest)[1..] == field[1..] + rest;
      ScanPlain(field[1..], rest, cur + [field[0]]);
      assert cur + [field[0]] + field[1..] == cur + field by { assert field == [field[0]] + field[1..]; }
    }
  }

  lemma {:induction false} ScanField(field: string, quote: bool, rest: string)
    requires NeedsQuotes(field) ==> quote
    requires rest == "" || rest[0] != '"'
    ensures Scan(Quoted(field, quote) + rest, "", false) == Scan(rest, field, false)
  {
    assert "" + field == field;
    if quote {
      var s := Quoted(field, quote) + rest;
      assert s == "\"" + (Escape(field) + "\"" + rest);
      assert s[1..] == Escape(field) + "\"" + rest;
      ScanEscaped(field, rest, "");
    } else {
      ScanPlain(field, rest, "");
    }
  }

  lemma {:induction false} CommaEnds(cur: string, rest: string)
    ensures Scan("," + rest, cur, false) == [cur] + Fields(rest)
  {
    assert ("," + rest)[1..] == rest;
  }

  lemma {:induction false} FirstField(field: string, quote: bool, rest: string)
    requires NeedsQuotes(field) ==> quote
    ensures Fields(Quoted(field, quote) + "," + rest) == [field] + Fields(rest)
  {
    var tail := "," + rest;
    assert Quoted(field, quote) + "," + rest == Quoted(field, quote) + tail;
    ScanField(field, quote, tail);
    CommaEnds(field, rest);
  }

  lemma {:induction false} OnlyField(field: string, quote: bool)
    requires NeedsQuotes(field) ==> quote
    ensures Fields(Quoted(field, quote)) == [field]
  {
    ScanField(field, quote, "");
    assert Quoted(field, quote) + "" == Quoted(field, quote);
  }

  /** Writing any non-empty list of fields, quoted where they must and wherever else one likes, and parsing it back. */
  lemma {:induction false} RoundTrip(fields: seq<string>, quotes: seq<bool>)
    requires fields != [] && ValidQuoting(fields, quotes)
    ensures Fields(Line(fields, quotes)) == fields
  {
    if |fields| == 1 {
      OnlyField(fields[0], quotes[0]);
    } else {
      RoundTrip(fields[1..], quotes[1..]);
      FirstField(fields[0], quotes[0], Line(fields[1..], quotes[1..]));
      assert fields == [fields[0]] + fields[1..];
    }
  }

  /** So a row is read back up to empty fields, which come out as null. */
  lemma {:induction false} RowRoundTrip(fields: seq<string>, quotes: seq<bool>, i: nat)
    requires fields != [] && ValidQuoting(fields, quotes) && i < |fields|
    ensures |EmptyToNull(Fields(Line(fields, quotes)))| == |fields|
    ensures EmptyToNull(Fields(Line(fields, quotes)))[i] == if fields[i] == "" then None else Some(fields[i])
  {
    RoundTrip(fields, quotes);
  }

  /** The quoted form determines the fields, whichever quoting was chosen. */
  lemma {:induction false} QuotingIsInjective(a: seq<string>, qa: seq<bool>, b: seq<string>, qb: seq<bool>)
    requires a != [] && b != [] && ValidQuoting(a, qa) && ValidQuoting(b, qb)
    requires Line(a, qa) == Line(b, qb)
    ensures a == b
  {
    RoundTrip(a, qa);
    RoundTrip(b, qb);
  }

  // ---- On every line, well formed or not ----

  /** The line cut at the commas that have an even number of quotes before them. */
  function Pieces(line: string, odd: bool): (parts: seq<string>)
    ensures parts != []
  {
    if line == "" then [""]
    else if line[0] == ',' && !odd then [""] + Pieces(line[1..], false)
    else Push(line[0], Pieces(line[1..], if line[0] == '"' then !odd else odd))
  }

  /** A piece without its quotes, but for the second of each two that stand together behind an open one. */
  function Unquoted(piece: string, open: bool): string {
    if piece == "" then ""
    else if piece[0] != '"' then [piece[0]] + Unquoted(piece[1..], open)
    else if open && |piece| >= 2 && piece[1] == '"' then "\"" + Unquoted(piece[2..], true)
    else Unquoted(piece[1..], !open)
  }

  /** The pieces, the first of them read with a quote open or not and put behind cur. */
  function UnquotedAll(parts: seq<string>, cur: string, open: bool): (r: seq<string>)
    requires parts != []
    ensures |r| == |parts|
  {
    [cur + Unquoted(parts[0], open)] +
    seq(|parts| - 1, i requires 0 <= i < |parts| - 1 => Unquoted(parts[i + 1], false))
  }

  lemma {:induction false} UnquotedPush(c: char, parts: seq<string>, cur: string, open: bool)
    requires parts != [] && c != '"'
    ensures UnquotedAll(Push(c, parts), cur, open) == UnquotedAll(parts, cur + [c], open)
  {
    var first := [c] + parts[0];
    assert first[0] == c && first[1..] == parts[0];
    assert cur + ([c] + Unquoted(parts[0], open)) == (cur + [c]) + Unquoted(parts[0], open);
  }

  /** A quote that opens, or closes with none behind it. */
  lemma {:induction false} UnquotedToggle(parts: seq<string>, cur: string, open: bool)
    requires parts != [] && !(open && parts[0] != "" && parts[0][0] == '"')
    ensures UnquotedAll(Push('"', parts), cur, open) == UnquotedAll(parts, cur, !open)
  {
    var first := ['"'] + parts[0];
    assert first[0] == '"' && first[1..] == parts[0] && (parts[0] != "" ==> first[1] == parts[0][0]);
  }

  lemma {:induction false} UnquotedPair(parts: seq<string>, cur: string)
    requires parts != []
    ensures UnquotedAll(Push('"', Push('"', parts)), cur, true) == UnquotedAll(parts, cur + "\"", true)
  {
    var first := ['"'] + (['"'] + parts[0]);
    assert first[0] == '"' && first[1] == '"' && first[2..] == parts[0];
    assert cur + ("\"" + Unquoted(parts[0], true)) == (cur + "\"") + Unquoted(parts[0], true);
  }

  lemma {:induction false} UnquotedComma(parts: seq<string>, cur: string)
    requires parts != []
    ensures UnquotedAll([""] + parts, cur, false) == [cur] + UnquotedAll(parts, "", false)
  {
    assert cur + Unquoted("", false) == cur;
    assert "" + Unquoted(parts[0], false) == Unquoted(parts[0], false);
  }

  lemma {:induction false} FirstOfPieces(line: string, odd: bool)
    ensures Pieces(line, odd)[0] <= line
    ensures line != "" && line[0] == '"' ==> Pieces(line, odd)[0] != ""
  {
    if line != "" {
      FirstOfPieces(line[1..], if line[0] == '"' then !odd else odd);
    }
  }

  lemma {:induction false} ScanIsUnquoted(s: string, cur: string, inQ: bool)
    ensures Scan(s, cur, inQ) == UnquotedAll(Pieces(s, inQ), cur, inQ)
    decreases |s|
  {
    if s == "" {
      assert cur + Unquoted("", inQ) == cur;
    } else if s[0] == '"' {
      if inQ && |s| > 1 && s[1] == '"' {
        ScanIsUnquoted(s[2..], cur + "\"", true);
        assert s[1..][1..] == s[2..] && s[1..][0] == '"';
        UnquotedPair(Pieces(s[2..], true), cur);
      } else {
        ScanIsUnquoted(s[1..], cur, !inQ);
        FirstOfPieces(s[1..], !inQ);
        UnquotedToggle(Pieces(s[1..], !inQ), cur, inQ);
      }
    } else if s[0] == ',' && !inQ {
      ScanIsUnquoted(s[1..], "", false);
      UnquotedComma(Pieces(s[1..], false), cur);
    } else {
      ScanIsUnquoted(s[1..], cur + [s[0]], inQ);
      UnquotedPush(s[0], Pieces(s[1..], inQ), cur, inQ);
    }
  }

  /** On every line the fields are its pieces between commas outside quotes, each unquoted on its own. */
  lemma {:induction false} FieldsAreUnquotedPieces(line: string)
    ensures |Fields(line)| == |Pieces(line, false)|
    ensures forall i :: 0 <= i < |Fields(line)| ==> Fields(line)[i] == Unquoted(Pieces(line, false)[i], false)
  {
    ScanIsUnquoted(line, "", false);
    assert "" + Unquoted(Pieces(line, false)[0], false) == Unquoted(Pieces(line, false)[0], false);
  }
}
