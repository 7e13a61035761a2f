/**
  The inline properties of a Cypher pattern, {key: 'value', ...}: how they are written, and the parser that cuts
  the text at every comma.
 */
module InlineProps {
  import opened Prelude

  predicate IsWord(c: char) {
    'a' <= c <= 'z' || 'A' <= c <= 'Z' || '0' <= c <= '9' || c == '_'
  }

  /** Letters, digits and the underscore are word characters, and what separates words is none. */
  lemma {:induction false} WordCharacters(n: nat)
    ensures n < 26 ==> IsWord(('a' as int + n) as char) && IsWord(('A' as int + n) as char)
    ensures n < 10 ==> IsWord(('0' as int + n) as char)
    ensures IsWord('_') && !IsWord('.') && !IsWord(' ') && !IsWord('\'') && !IsWord('-') && !IsWord('@') && !IsWord(',')
  {
  }

  /** The names that a pattern may use: not the columns that the translator filters on itself, nor the JSON column. */
  predicate IsName(k: string) {
    k != "" && (forall c :: c in k ==> IsWord(c)) && k != "node_type" && k != "is_deleted" && k != "properties"
  }

  /** A literal that stands between apostrophes as it is. */
  predicate IsLiteral(v: string) { '\'' !in v && '\\' !in v }

  /** key = 'val', inline or in a WHERE text. */
  datatype Equality = Equality(key: string, val: string)

  type Property = q: Equality | IsName(q.key) && IsLiteral(q.val) witness Equality("node_id", "")

  function Item(q: Property): string { q.key + ": '" + q.val + "'" }

  function Written(props: seq<Property>): string {
    if props == [] then ""
    else if |props| == 1 then Item(props[0])
    else Item(props[0]) + ", " + Written(props[1..])
  }

  // ---- Trimming ----

  predicate IsSpace(c: char) { c == ' ' || '\t' <= c <= '\r' || 28 <= c as int <= 31 }

  predicate IsQuote(c: char) { c == '\'' }

  lemma {:induction false} SpacesAre(c: char)
    ensures IsSpace(c) <==> c as int in {9, 10, 11, 12, 13, 28, 29, 30, 31, 32}
  {
  }

  function TrimLeft(s: string, drop: char -> bool): (r: string)
    ensures forall c :: c in r ==> c in s
    ensures r != "" ==> !drop(r[0])
  {
    if s != "" && drop(s[0]) then TrimLeft(s[1..], drop) else s
  }

  function TrimRight(s: string, drop: char -> bool): (r: string)
    ensures r <= s
    ensures r != "" ==> !drop(r[|r| - 1])
  {
    if s != "" && drop(s[|s| - 1]) then TrimRight(s[..|s| - 1], drop) else s
  }

  function Strip(s: string): (r: string)
    ensures forall c :: c in r ==> c in s
  {
    TrimRight(TrimLeft(s, IsSpace), IsSpace)
  }

  function Unquote(s: string): (r: string)
    ensures forall c :: c in r ==> c in s
  {
    TrimRight(TrimLeft(s, IsQuote), IsQuote)
  }

  // ---- The parser ----

  /** One piece; without a colon it is dropped. */
  function ReadItem(piece: string): Option<Equality> {
    var item := Strip(piece);
    if ':' !in item then None
    else
      var key := Split(':', item)[0];
      SplitFirst(':', item);
      Some(Equality(Strip(key), Unquote(Strip(item[|key| + 1..]))))
  }

  function Read(piece: string): seq<Equality> {
    match ReadItem(piece)
    case Some(q) => [q]
    case None => []
  }

  function Parsed(text: string): seq<Equality> { Collect(Split(',', text), Read) }

  method ParseInlineProps(text: string) returns (filters: seq<Equality>)
    ensures filters == Parsed(text)
  {
    filters := [];
    var pieces := Split(',', text);
    for i := 0 to |pieces|
      invariant filters == Collect(pieces[..i], Read)
    {
      assert Init(pieces[..i + 1]) == pieces[..i];
      var item := Strip(pieces[i]);
      if ':' in item {
        var key := Split(':', item)[0];
        SplitFirst(':', item);
        filters := filters + [Equality(Strip(key), Unquote(Strip(item[|key| + 1..])))];
      }
    }
    assert pieces[..|pieces|] == pieces;
  }

  lemma {:induction false} ParsedAround(a: string, b: string)
    ensures Parsed(a + "," + b) == Parsed(a) + Parsed(b)
  {
    SplitAround(',', a, b);
    CollectConcat(Split(',', a), Split(',', b), Read);
  }

  /** No comma gets through the parser. */
  lemma {:induction false} ReadHasNoComma(pieces: seq<string>, q: Equality)
    requires (forall p :: p in pieces ==> ',' !in p) && q in Collect(pieces, Read)
    ensures ',' !in q.val
  {
    if q !in Collect(Init(pieces), Read) {
      assert ReadItem(Last(pieces)) == Some(q);
      assert Last(pieces) in pieces;
    } else {
      ReadHasNoComma(Init(pieces), q);
    }
  }

  // ---- One written item ----

  /** Trimming on the right does not reach what stands before a character that stays. */
  lemma {:induction false} TrimRightBehind(a: string, b: string, drop: char -> bool)
    requires a != "" && !drop(a[|a| - 1])
    ensures TrimRight(a + b, drop) == a + TrimRight(b, drop)
  {
    var s := a + b;
    if b == "" {
      assert s == a;
    } else {
      assert s[|s| - 1] == b[|b| - 1];
      if drop(b[|b| - 1]) {
        TrimRightBehind(a, b[..|b| - 1], drop);
        assert s[..|s| - 1] == a + b[..|b| - 1];
      }
    }
  }

  lemma {:induction false} StripName(k: string)
    requires IsName(k)
    ensures Strip(k) == k
  {
    assert k[0] in k && k[|k| - 1] in k;
  }

  lemma {:induction false} TrimLeftPast(c: char, s: string, drop: char -> bool)
    requires drop(c)
    ensures TrimLeft([c] + s, drop) == TrimLeft(s, drop)
  {
    assert ([c] + s)[0] == c && ([c] + s)[1..] == s;
  }

  lemma {:induction false} StripNamed(lead: string, k: string, y: string)
    requires (lead == "" || lead == " ") && IsName(k)
    ensures Strip(lead + (k + ":" + y)) == k + ":" + TrimRight(y, IsSpace)
  {
    var text := k + ":" + y;
    assert text[0] == k[0] && k[0] in k && TrimLeft(text, IsSpace) == text;
    if lead == " " {
      TrimLeftPast(' ', text, IsSpace);
    } else {
      assert lead + text == text;
    }
    TrimRightBehind(k + ":", y, IsSpace);
  }

  lemma {:induction false} NameIsFirst(k: string, z: string)
    requires IsName(k)
    ensures Split(':', k + ":" + z)[0] == k && (k + ":" + z)[|k| + 1..] == z && ':' in k + ":" + z
  {
    forall c | c in k ensures c != ':' {
      assert IsWord(c);
    }
    SplitPieces(':', k);
    SplitAround(':', k, z);
    assert (k + ":" + z)[|k|] == ':';
  }

  /** A name and a colon, with text behind them and at most a space before: the item has that name. */
  lemma {:induction false} ReadNamed(lead: string, k: string, y: string)
    requires (lead == "" || lead == " ") && IsName(k)
    ensures ReadItem(lead + (k + ":" + y)) == Some(Equality(k, Unquote(Strip(TrimRight(y, IsSpace)))))
  {
    StripNamed(lead, k, y);
    NameIsFirst(k, TrimRight(y, IsSpace));
    StripName(k);
  }

  /** Text between apostrophes, as it stands behind the colon. */
  function Quoted(v: string): string { " '" + v + "'" }

  lemma {:induction false} StripQuoted(v: string)
    ensures TrimRight(Quoted(v), IsSpace) == Quoted(v) && Strip(Quoted(v)) == "'" + v + "'"
  {
    var s := "'" + v + "'";
    assert Quoted(v) == [' '] + s;
    TrimLeftPast(' ', s, IsSpace);
  }

  lemma {:induction false} UnquoteQuoted(v: string)
    requires IsLiteral(v)
    ensures Unquote("'" + v + "'") == v
  {
    var t := v + "'";
    assert "'" + v + "'" == ['\''] + t;
    TrimLeftPast('\'', t, IsQuote);
    if v == "" {
      assert t[1..] == "" && TrimLeft(t, IsQuote) == "";
    } else {
      assert t[0] == v[0] && v[0] in v && v[|v| - 1] in v;
      assert t[..|t| - 1] == v && !IsQuote(v[|v| - 1]);
      assert TrimLeft(t, IsQuote) == t && TrimRight(v, IsQuote) == v;
    }
  }

  lemma {:induction false} ReadQuoted(lead: string, q: Property)
    requires lead == "" || lead == " "
    ensures ReadItem(lead + Item(q)) == Some(q)
  {
    assert Item(q) == q.key + ":" + Quoted(q.val);
    ReadNamed(lead, q.key, Quoted(q.val));
    StripQuoted(q.val);
    UnquoteQuoted(q.val);
  }

  /** Text without a comma is one piece. */
  lemma {:induction false} ReadOne(text: string)
    requires ',' !in text
    ensures Parsed(text) == Read(text)
  {
    SplitPieces(',', text);
    CollectOne(text, Read);
  }

  lemma {:induction false} NameHasNoComma(k: string)
    requires IsName(k)
    ensures ',' !in k
  {
    forall c | c in k ensures c != ',' {
      assert IsWord(c);
    }
  }

  lemma {:induction false} ReadWhole(lead: string, q: Property)
    requires (lead == "" || lead == " ") && ',' !in q.val
    ensures Parsed(lead + Item(q)) == [q]
  {
    NameHasNoComma(q.key);
    ReadOne(lead + Item(q));
    ReadQuoted(lead, q);
  }

  lemma {:induction false} FirstComma(v: string) returns (i: nat)
    requires ',' in v
    ensures i < |v| && v[i] == ',' && ',' !in v[..i]
  {
    SplitFirst(',', v);
    SplitPieces(',', v);
    i := |Split(',', v)[0]|;
    assert v[..i] == Split(',', v)[0];
  }

  lemma {:induction false} StripOpen(a: string)
    ensures Strip(TrimRight(" '" + a, IsSpace)) == "'" + TrimRight(a, IsSpace)
  {
    var r := TrimRight(a, IsSpace);
    TrimRightBehind(" '", a, IsSpace);
    TrimRightBehind("'", r, IsSpace);
    TrimRightTwice(a, IsSpace);
    assert " '" + r == [' '] + ("'" + r);
    TrimLeftPast(' ', "'" + r, IsSpace);
  }

  /** What is left of an opening apostrophe and text. */
  lemma {:induction false} UnquoteOpen(a: string)
    requires IsLiteral(a)
    ensures Unquote(Strip(TrimRight(" '" + a, IsSpace))) == TrimRight(a, IsSpace)
  {
    var r := TrimRight(a, IsSpace);
    StripOpen(a);
    TrimLeftPast('\'', r, IsQuote);
    if r != "" {
      assert r[0] in a && r[|r| - 1] in a;
    }
  }

  lemma {:induction false} TrimRightTwice(s: string, drop: char -> bool)
    ensures TrimRight(TrimRight(s, drop), drop) == TrimRight(s, drop)
  {
    var r := TrimRight(s, drop);
    assert r == "" || !drop(r[|r| - 1]);
  }

  /** A piece with an opening apostrophe only is one condition. */
  lemma {:induction false} ReadOpen(lead: string, k: string, a: string)
    requires (lead == "" || lead == " ") && IsName(k) && IsLiteral(a) && ',' !in a
    ensures Parsed(lead + (k + ":" + (" '" + a))) == [Equality(k, TrimRight(a, IsSpace))]
  {
    var piece := lead + (k + ":" + (" '" + a));
    assert ',' !in piece by {
      NameHasNoComma(k);
    }
    ReadOne(piece);
    assert Read(piece) == [Equality(k, TrimRight(a, IsSpace))] by {
      ReadNamed(lead, k, " '" + a);
      UnquoteOpen(a);
    }
  }

  lemma {:induction false} ItemBreaks(lead: string, k: string, a: string, b: string)
    ensures lead + (k + ": '" + (a + [','] + b) + "'") == (lead + (k + ":" + (" '" + a))) + "," + (b + "'")
  {
    assert k + ": '" == k + ":" + " '";
    assert (a + [','] + b) + "'" == a + "," + (b + "'");
  }

  /** Of a literal with commas the first condition keeps what stands before the first one, blanks at its end off. */
  lemma {:induction false} ReadCut(lead: string, q: Property, i: nat)
    requires (lead == "" || lead == " ") && i < |q.val| && q.val[i] == ',' && ',' !in q.val[..i]
    ensures Parsed(lead + Item(q)) != []
    ensures Parsed(lead + Item(q))[0] == Equality(q.key, TrimRight(q.val[..i], IsSpace))
  {
    var piece, behind := lead + (q.key + ":" + (" '" + q.val[..i])), q.val[i + 1..] + "'";
    assert q.val == q.val[..i] + [','] + q.val[i + 1..];
    ReadOpen(lead, q.key, q.val[..i]);
    ItemBreaks(lead, q.key, q.val[..i], q.val[i + 1..]);
    ParsedAround(piece, behind);
  }

  /** A piece without a colon leaves nothing. */
  lemma {:induction false} NoColonNothing(text: string)
    requires ',' !in text && ':' !in text
    ensures Parsed(text) == []
  {
    ReadOne(text);
  }

  /** So a literal with one comma and no colon is cut there, and its second half is dropped. */
  lemma {:induction false} ReadCutOnce(lead: string, q: Property, i: nat)
    requires (lead == "" || lead == " ") && i < |q.val| && q.val[i] == ',' && ',' !in q.val[..i]
    requires ',' !in q.val[i + 1..] && ':' !in q.val[i + 1..]
    ensures Parsed(lead + Item(q)) == [Equality(q.key, TrimRight(q.val[..i], IsSpace))]
  {
    var piece, behind := lead + (q.key + ":" + (" '" + q.val[..i])), q.val[i + 1..] + "'";
    assert q.val == q.val[..i] + [','] + q.val[i + 1..];
    ItemBreaks(lead, q.key, q.val[..i], q.val[i + 1..]);
    ReadOpen(lead, q.key, q.val[..i]);
    NoColonNothing(behind);
    ParsedAround(piece, behind);
  }

  /** Whatever the literal, the item leaves a condition on its own name. */
  lemma {:induction false} ReadKeepsKey(lead: string, q: Property) returns (f: Equality)
    requires lead == "" || lead == " "
    ensures f in Parsed(lead + Item(q)) && f.key == q.key
  {
    if ',' !in q.val {
      ReadWhole(lead, q);
      f := q;
    } else {
      var i := FirstComma(q.val);
      ReadCut(lead, q, i);
      f := Parsed(lead + Item(q))[0];
    }
  }

  lemma {:induction false} WrittenSplits(lead: string, props: seq<Property>)
    requires |props| > 1
    ensures Parsed(lead + Written(props)) == Parsed(lead + Item(props[0])) + Parsed(" " + Written(props[1..]))
  {
    var text := lead + Item(props[0]);
    assert lead + Written(props) == text + "," + (" " + Written(props[1..]));
    ParsedAround(text, " " + Written(props[1..]));
  }

  // ---- The whole text ----

  predicate NoComma(props: seq<Property>) {
    forall q :: q in props ==> ',' !in q.val
  }

  lemma {:induction false} ParsedWritten(lead: string, props: seq<Property>)
    requires (lead == "" || lead == " ") && NoComma(props)
    ensures Parsed(lead + Written(props)) == props
    decreases |props|
  {
    if props == [] {
      ReadOne(lead);
      assert lead + Written(props) == lead;
    } else {
      ReadWhole(lead, props[0]);
      if |props| > 1 {
        ParsedWritten(" ", props[1..]);
        WrittenSplits(lead, props);
        assert [props[0]] + props[1..] == props;
      }
    }
  }

  lemma {:induction false} KeyIsKept(lead: string, props: seq<Property>, q: Property) returns (f: Equality)
    requires (lead == "" || lead == " ") && q in props
    ensures f in Parsed(lead + Written(props)) && f.key == q.key
    decreases |props|
  {
    if |props| == 1 {
      f := ReadKeepsKey(lead, q);
    } else {
      WrittenSplits(lead, props);
      if q == props[0] {
        f := ReadKeepsKey(lead, q);
      } else {
        f := KeyIsKept(" ", props[1..], q);
      }
    }
  }

  /** Every name that is written comes back with a value, and a value that held a comma comes back as another. */
  lemma {:induction false} WrittenKeyIsRead(props: seq<Property>, q: Property) returns (f: Equality)
    requires q in props
    ensures f in Parsed(Written(props)) && f.key == q.key && (',' in q.val ==> f.val != q.val)
  {
    assert "" + Written(props) == Written(props);
    f := KeyIsKept("", props, q);
    SplitPieces(',', Written(props));
    ReadHasNoComma(Split(',', Written(props)), f);
  }

  /** The parser gives the properties back exactly when no literal holds a comma. */
  lemma {:induction false} InlineRoundTrip(props: seq<Property>)
    ensures Parsed(Written(props)) == props <==> NoComma(props)
  {
    assert "" + Written(props) == Written(props);
    if NoComma(props) {
      ParsedWritten("", props);
    } else if Parsed(Written(props)) == props {
      var q :| q in props && ',' in q.val;
      SplitPieces(',', Written(props));
      ReadHasNoComma(Split(',', Written(props)), q);
      assert false;
    }
  }
}
