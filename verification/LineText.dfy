/**
  The lines that a console consumer prints: the JSON text of a message's key, a separator and its value.  The full
  scan asks for the two characters backslash and t as the separator and cuts a line where they first stand; the
  targeted reader asks for a TAB.
 */
module LineText {
  import opened Prelude
  import opened KeyCodec

  // ---- JSON text ----

  function HexDigit(n: nat): char
    requires n < 16
  {
    if n < 10 then ('0' as int + n) as char else ('a' as int + (n - 10)) as char
  }

  /** One character inside a JSON string. */
  function EscapeChar(c: char): (r: string)
    ensures r != []
  {
    if c == '"' then "\\\""
    else if c == '\\' then "\\\\"
    else if c == '\t' then "\\t"
    else if c == '\n' then "\\n"
    else if c == '\r' then "\\r"
    else if c as int == 8 then "\\b"
    else if c as int == 12 then "\\f"
    else if c as int < 32 then "\\u00" + [HexDigit(c as int / 16), HexDigit(c as int % 16)]
    else [c]
  }

  function Escape(s: string): string {
    if s == "" then "" else EscapeChar(s[0]) + Escape(s[1..])
  }

  function Quote(s: string): string { "\"" + Escape(s) + "\"" }

  /** A key component as JSON text; a number that is not finite is written as null. */
  function ValueText(rt: Runtime, v: Json): string {
    match v
    case Num(n) => Show(n)
    case Str(s) => Quote(s)
    case Approx(text) => if rt.reprint(text).Some? then rt.reprint(text).value else "null"
    case _ => "null"
  }

  function FieldText(rt: Runtime, key: Payload, c: string): string
    requires c in key
  {
    Quote(c) + ":" + ValueText(rt, key[c])
  }

  /** The fields of a key in the order of its columns. */
  function FieldsText(rt: Runtime, key: Payload, cols: seq<string>): string
    requires forall c :: c in cols ==> c in key
    decreases |cols|, 0
  {
    if cols == [] then "" else FieldText(rt, key, cols[0]) + MoreFields(rt, key, cols[1..])
  }

  function MoreFields(rt: Runtime, key: Payload, cols: seq<string>): string
    requires forall c :: c in cols ==> c in key
    decreases |cols|, 1
  {
    if cols == [] then "" else "," + FieldsText(rt, key, cols)
  }

  function KeyText(rt: Runtime, key: Payload, cols: seq<string>): string
    requires forall c :: c in cols ==> c in key
  {
    "{" + FieldsText(rt, key, cols) + "}"
  }

  // ---- Reading JSON strings ----

  function HexValue(c: char): Option<nat> {
    if '0' <= c <= '9' then Some(c as int - '0' as int)
    else if 'a' <= c <= 'f' then Some(10 + (c as int - 'a' as int))
    else if 'A' <= c <= 'F' then Some(10 + (c as int - 'A' as int))
    else None
  }

  /** The character behind a backslash, other than u, as section 7 of RFC 8259 has it. */
  function Unescaped(c: char): Option<char> {
    match c
    case '"' => Some('"')
    case '\\' => Some('\\')
    case '/' => Some('/')
    case 'b' => Some(8 as char)
    case 'f' => Some(12 as char)
    case 'n' => Some('\n')
    case 'r' => Some('\r')
    case 't' => Some('\t')
    case _ => None
  }

  /** The four digits of a \u escape; surrogates are left out. */
  function CodeUnit(digits: string): Option<char>
    requires |digits| == 4
  {
    match (HexValue(digits[0]), HexValue(digits[1]), HexValue(digits[2]), HexValue(digits[3]))
    case (Some(a), Some(b), Some(c), Some(d)) =>
      var n := ((a * 16 + b) * 16 + c) * 16 + d;
      if n < 0xD800 || 0xE000 <= n < 0x10000 then Some(n as char) else None
    case _ => None
  }

  /** What stands between the quotes of a JSON string, by section 7 of RFC 8259. */
  function Unescape(s: string): Option<string>
    decreases |s|
  {
    if s == "" then Some("")
    else if s[0] == '"' || s[0] as int < 0x20 then None
    else if s[0] != '\\' then Put(Some(s[0]), Unescape(s[1..]))
    else if |s| >= 6 && s[1] == 'u' then Put(CodeUnit(s[2..6]), Unescape(s[6..]))
    else if |s| >= 2 then Put(Unescaped(s[1]), Unescape(s[2..]))
    else None
  }

  function Put(c: Option<char>, rest: Option<string>): Option<string> {
    if c.Some? && rest.Some? then Some([c.value] + rest.value) else None
  }

  lemma {:induction false} HexReads(n: nat)
    requires n < 16
    ensures HexValue(HexDigit(n)) == Some(n)
  {
  }

  lemma {:induction false} ControlReads(c: char, rest: string)
    requires c as int < 32
    ensures Unescape("\\u00" + [HexDigit(c as int / 16), HexDigit(c as int % 16)] + rest) ==
            Put(Some(c), Unescape(rest))
  {
    var a, b := HexDigit(c as int / 16), HexDigit(c as int % 16);
    var s := "\\u00" + [a, b] + rest;
    assert s[2..6] == ['0', '0', a, b] && s[6..] == rest;
    HexReads(0);
    HexReads(c as int / 16);
    HexReads(c as int % 16);
    assert CodeUnit(['0', '0', a, b]) == Some(c);
  }

  lemma {:induction false} EscapedCharReads(c: char, rest: string)
    ensures Unescape(EscapeChar(c) + rest) == Put(Some(c), Unescape(rest))
  {
    var s := EscapeChar(c) + rest;
    if |EscapeChar(c)| == 1 {
      assert s[1..] == rest;
    } else if |EscapeChar(c)| == 2 {
      assert s[2..] == rest;
    } else {
      ControlReads(c, rest);
    }
  }

  /** Every string comes back from its JSON text. */
  lemma {:induction false} EscapeRoundTrip(s: string)
    ensures Unescape(Escape(s)) == Some(s)
  {
    if s != "" {
      EscapeRoundTrip(s[1..]);
      EscapedCharReads(s[0], Escape(s[1..]));
      assert [s[0]] + s[1..] == s;
    }
  }

  /** A key is its fields between braces with commas between them, and a field is its name and value with a colon. */
  lemma {:induction false} KeyTextMeans(rt: Runtime, key: Payload, c: string, cols: seq<string>)
    requires c in key && forall d :: d in cols ==> d in key
    ensures FieldsText(rt, key, [c]) == "\"" + Escape(c) + "\"" + ":" + ValueText(rt, key[c])
    ensures cols != [] ==> FieldsText(rt, key, [c] + cols) == FieldsText(rt, key, [c]) + "," + FieldsText(rt, key, cols)
    ensures KeyText(rt, key, cols) == "{" + FieldsText(rt, key, cols) + "}"
  {
    assert [c][1..] == [] && ([c] + cols)[1..] == cols;
    assert FieldText(rt, key, c) + "" == FieldText(rt, key, c);
  }

  /** Numbers stand bare, text in quotes, and what JSON has no number for is null. */
  lemma {:induction false} ValueTextMeans(rt: Runtime, n: int, s: string)
    ensures ValueText(rt, Num(n)) == Show(n) && ValueText(rt, Null) == "null"
    ensures ValueText(rt, Str(s)) == "\"" + Escape(s) + "\""
    ensures rt.reprint(s) == None ==> ValueText(rt, Approx(s)) == "null"
    ensures rt.reprint(s).Some? ==> ValueText(rt, Approx(s)) == rt.reprint(s).value
  {
  }

  // ---- Where a line is cut ----

  /** The first position of the pair backslash, t. */
  function FirstPair(s: string): Option<nat> {
    if |s| < 2 then None
    else if s[0] == '\\' && s[1] == 't' then Some(0)
    else match FirstPair(s[1..])
      case None => None
      case Some(i) => Some(i + 1)
  }

  function FirstTab(s: string): Option<nat> {
    if s == "" then None
    else if s[0] == '\t' then Some(0)
    else match FirstTab(s[1..])
      case None => None
      case Some(i) => Some(i + 1)
  }

  lemma {:induction false} FirstPairAt(s: string)
    ensures FirstPair(s).Some? ==> FirstPair(s).value + 1 < |s|
  {
    if |s| >= 2 {
      FirstPairAt(s[1..]);
    }
  }

  lemma {:induction false} FirstTabAt(s: string)
    ensures FirstTab(s).Some? ==> FirstTab(s).value < |s|
  {
    if s != "" {
      FirstTabAt(s[1..]);
    }
  }

  /** The full scan prefers the pair, falls back to a TAB, and else takes the whole line as the value. */
  function FullSplit(line: string): (string, string) {
    FirstPairAt(line);
    FirstTabAt(line);
    match FirstPair(line)
    case Some(i) => (line[..i], line[i + 2..])
    case None =>
      match FirstTab(line)
      case Some(i) => (line[..i], line[i + 1..])
      case None => ("", line)
  }

  function TargetedSplit(line: string): (string, string) {
    FirstTabAt(line);
    match FirstTab(line)
    case Some(i) => (line[..i], line[i + 1..])
    case None => ("", line)
  }

  /** The first pair of a key followed by the pair is one inside the key, or else the separator. */
  lemma {:induction false} PairAfter(key: string, rest: string)
    requires key != "" && key[|key| - 1] != '\\'
    ensures FirstPair(key + "\\t" + rest) == if FirstPair(key).Some? then FirstPair(key) else Some(|key|)
  {
    var line := key + "\\t" + rest;
    if |key| == 1 {
      assert line[1..] == "\\t" + rest;
    } else {
      PairAfter(key[1..], rest);
      assert line[1..] == key[1..] + "\\t" + rest && line[0] == key[0] && line[1] == key[1];
    }
  }

  lemma {:induction false} TabAfter(key: string, rest: string)
    ensures FirstTab(key + "\t" + rest) == if FirstTab(key).Some? then FirstTab(key) else Some(|key|)
  {
    var line := key + "\t" + rest;
    if key == "" {
      assert line[0] == '\t';
    } else {
      TabAfter(key[1..], rest);
      assert line[1..] == key[1..] + "\t" + rest && line[0] == key[0];
    }
  }

  // ---- What the text of a key holds ----

  /** A text that JSON writes with a backslash before a t. */
  predicate Awkward(s: string) {
    s != "" && (s[0] == '\t' || (s[0] == '\\' && |s| > 1 && s[1] == 't') || Awkward(s[1..]))
  }

  lemma {:induction false} AwkwardAt(s: string)
    ensures Awkward(s) <==>
            exists i :: 0 <= i < |s| && (s[i] == '\t' || (s[i] == '\\' && i + 1 < |s| && s[i + 1] == 't'))
  {
    if s != "" {
      AwkwardAt(s[1..]);
      assert forall i :: 1 <= i < |s| ==> s[i] == s[1..][i - 1];
      if i :| 1 <= i < |s| && (s[i] == '\t' || (s[i] == '\\' && i + 1 < |s| && s[i + 1] == 't')) {
        assert s[1..][i - 1] == s[i] && (i + 1 < |s| ==> s[1..][i] == s[i + 1]);
      }
    }
  }

  predicate HoldsPair(s: string) { FirstPair(s).Some? }

  lemma {:induction false} PairCons(c: char, s: string)
    ensures HoldsPair([c] + s) <==> (c == '\\' && s != "" && s[0] == 't') || HoldsPair(s)
  {
    assert ([c] + s)[1..] == s;
  }

  /** Two texts side by side hold a pair where one of them does, or across the seam. */
  lemma {:induction false} PairConcat(a: string, b: string)
    ensures HoldsPair(a + b) <==>
            HoldsPair(a) || HoldsPair(b) || (a != "" && b != "" && a[|a| - 1] == '\\' && b[0] == 't')
  {
    if a == "" {
      assert a + b == b;
    } else {
      PairConcat(a[1..], b);
      assert a + b == [a[0]] + (a[1..] + b) && a == [a[0]] + a[1..];
      PairCons(a[0], a[1..] + b);
      PairCons(a[0], a[1..]);
    }
  }

  predicate NoBackslash(s: string) { forall i :: 0 <= i < |s| ==> s[i] != '\\' }

  lemma {:induction false} NoBackslashNoPair(s: string)
    requires NoBackslash(s)
    ensures !HoldsPair(s)
  {
    if |s| >= 2 {
      NoBackslashNoPair(s[1..]);
    }
  }

  lemma {:induction false} EscapeCharPair(c: char)
    ensures HoldsPair(EscapeChar(c)) <==> c == '\t'
    ensures EscapeChar(c)[0] == 't' <==> c == 't'
    ensures var r := EscapeChar(c); r[|r| - 1] == '\\' <==> c == '\\'
  {
    var r := EscapeChar(c);
    if |r| == 2 {
      assert r == [r[0]] + r[1..];
      PairCons(r[0], r[1..]);
    } else if |r| == 6 {
      assert r == ['\\'] + r[1..] && r[1] == 'u';
      NoBackslashNoPair(r[1..]);
      PairCons('\\', r[1..]);
    }
  }

  /** The JSON text of a string holds the pair exactly when the string has a TAB, or a backslash before a t. */
  lemma {:induction false} EscapePair(s: string)
    ensures HoldsPair(Escape(s)) <==> Awkward(s)
    ensures (s == "" <==> Escape(s) == "") && (s != "" ==> (Escape(s)[0] == 't' <==> s[0] == 't'))
  {
    if s != "" {
      EscapePair(s[1..]);
      EscapeCharPair(s[0]);
      PairConcat(EscapeChar(s[0]), Escape(s[1..]));
    }
  }

  lemma {:induction false} QuotePair(s: string)
    ensures HoldsPair(Quote(s)) <==> Awkward(s)
    ensures Quote(s)[0] == '"' && Quote(s)[|Quote(s)| - 1] == '"'
  {
    EscapePair(s);
    PairConcat("\"", Escape(s));
    PairConcat("\"" + Escape(s), "\"");
  }

  predicate NoTab(s: string) { forall i :: 0 <= i < |s| ==> s[i] != '\t' }

  /** A printed number has neither a backslash nor a TAB in it. */
  ghost predicate PlainNumbers(rt: Runtime) {
    forall s :: rt.reprint(s).Some? ==> NoBackslash(rt.reprint(s).value) && NoTab(rt.reprint(s).value)
  }

  lemma {:induction false} DigitsNoBackslash(n: int)
    ensures NoBackslash(Show(n))
  {
  }

  lemma {:induction false} ValuePair(rt: Runtime, v: Json)
    requires PlainNumbers(rt)
    ensures HoldsPair(ValueText(rt, v)) <==> v.Str? && Awkward(v.s)
    ensures ValueText(rt, v) != "" ==> ValueText(rt, v)[|ValueText(rt, v)| - 1] != '\\'
  {
    match v
    case Num(n) =>
      DigitsNoBackslash(n);
      NoBackslashNoPair(Show(n));
    case Str(s) => QuotePair(s);
    case Approx(text) =>
      assert NoBackslash("null");
      NoBackslashNoPair(ValueText(rt, v));
    case _ =>
      assert NoBackslash("null");
      NoBackslashNoPair("null");
  }

  predicate CutAt(key: Payload, c: string)
    requires c in key
  {
    Awkward(c) || (key[c].Str? && Awkward(key[c].s))
  }

  /** Does the text of this key hold the pair?  Only a column name or a text component can bring it in. */
  predicate IsCut(key: Payload) {
    exists c :: c in key && CutAt(key, c)
  }

  predicate SomeCut(key: Payload, cols: seq<string>)
    requires forall c :: c in cols ==> c in key
  {
    cols != [] && (CutAt(key, cols[0]) || SomeCut(key, cols[1..]))
  }

  lemma {:induction false} SomeCutIs(key: Payload, cols: seq<string>)
    requires forall c :: c in cols ==> c in key
    ensures SomeCut(key, cols) <==> exists c :: c in cols && CutAt(key, c)
  {
    if cols != [] {
      SomeCutIs(key, cols[1..]);
      assert forall c :: c in cols <==> c == cols[0] || c in cols[1..];
    }
  }

  lemma {:induction false} FieldPair(rt: Runtime, key: Payload, c: string)
    requires PlainNumbers(rt) && c in key
    ensures var text := FieldText(rt, key, c);
            && (HoldsPair(text) <==> CutAt(key, c)) && text != "" && text[0] == '"' && text[|text| - 1] != '\\'
  {
    QuotePair(c);
    ValuePair(rt, key[c]);
    PairConcat(Quote(c), ":");
    PairConcat(Quote(c) + ":", ValueText(rt, key[c]));
  }

  lemma {:induction false} FieldsPair(rt: Runtime, key: Payload, cols: seq<string>)
    requires PlainNumbers(rt) && forall c :: c in cols ==> c in key
    ensures HoldsPair(FieldsText(rt, key, cols)) <==> SomeCut(key, cols)
    ensures cols != [] ==> FieldsText(rt, key, cols) != "" && FieldsText(rt, key, cols)[0] == '"'
    decreases |cols|, 1
  {
    if cols != [] {
      FieldPair(rt, key, cols[0]);
      MoreFieldsPair(rt, key, cols[1..]);
      PairConcat(FieldText(rt, key, cols[0]), MoreFields(rt, key, cols[1..]));
    }
  }

  lemma {:induction false} MoreFieldsPair(rt: Runtime, key: Payload, cols: seq<string>)
    requires PlainNumbers(rt) && forall c :: c in cols ==> c in key
    ensures HoldsPair(MoreFields(rt, key, cols)) <==> SomeCut(key, cols)
    decreases |cols|, 2
  {
    FieldsPair(rt, key, cols);
    if cols != [] {
      PairConcat(",", FieldsText(rt, key, cols));
    }
  }

  /** The text of a key holds the pair exactly when a column or a text component has a TAB or a backslash before a t. */
  lemma {:induction false} KeyPair(rt: Runtime, key: Payload, cols: seq<string>)
    requires PlainNumbers(rt) && key.Keys == set c | c in cols
    ensures HoldsPair(KeyText(rt, key, cols)) <==> IsCut(key)
    ensures var text := KeyText(rt, key, cols); text != "" && text[|text| - 1] == '}'
  {
    var fields := FieldsText(rt, key, cols);
    FieldsPair(rt, key, cols);
    PairConcat("{", fields);
    PairConcat("{" + fields, "}");
    SomeCutIs(key, cols);
  }

  // ---- What the readers make of a line ----

  /** The full scan gets key and value apart exactly when the key's text does not hold the pair itself. */
  lemma {:induction false} FullSplitExact(rt: Runtime, key: Payload, cols: seq<string>, value: string)
    requires PlainNumbers(rt) && key.Keys == set c | c in cols
    ensures var text := KeyText(rt, key, cols);
            FullSplit(text + "\\t" + value) == (text, value) <==> !IsCut(key)
  {
    var text := KeyText(rt, key, cols);
    KeyPair(rt, key, cols);
    PairAfter(text, value);
    var line := text + "\\t" + value;
    FirstPairAt(text);
    if HoldsPair(text) {
      assert |FullSplit(line).0| < |text|;
    } else {
      assert line[..|text|] == text && line[|text| + 2..] == value;
    }
  }

  lemma {:induction false} EscapeNoTab(s: string)
    ensures NoTab(Escape(s))
  {
    if s != "" {
      EscapeNoTab(s[1..]);
      assert NoTab(EscapeChar(s[0]));
    }
  }

  lemma {:induction false} NoTabFound(s: string)
    requires NoTab(s)
    ensures FirstTab(s).None?
  {
    if s != "" {
      NoTabFound(s[1..]);
    }
  }

  lemma {:induction false} FieldNoTab(rt: Runtime, key: Payload, c: string)
    requires PlainNumbers(rt) && c in key
    ensures NoTab(FieldText(rt, key, c))
  {
    EscapeNoTab(c);
    assert NoTab(Quote(c));
    assert NoTab(ValueText(rt, key[c])) by {
      if key[c].Str? {
        EscapeNoTab(key[c].s);
      }
    }
  }

  lemma {:induction false} FieldsNoTab(rt: Runtime, key: Payload, cols: seq<string>)
    requires PlainNumbers(rt) && forall c :: c in cols ==> c in key
    ensures NoTab(FieldsText(rt, key, cols))
  {
    if cols != [] {
      FieldsNoTab(rt, key, cols[1..]);
      FieldNoTab(rt, key, cols[0]);
      assert NoTab(MoreFields(rt, key, cols[1..]));
    }
  }

  /** The targeted reader always does: JSON text never has a TAB in it. */
  lemma {:induction false} TargetedSplitExact(rt: Runtime, key: Payload, cols: seq<string>, value: string)
    requires PlainNumbers(rt) && forall c :: c in cols ==> c in key
    ensures var text := KeyText(rt, key, cols); TargetedSplit(text + "\t" + value) == (text, value)
  {
    var text := KeyText(rt, key, cols);
    FieldsNoTab(rt, key, cols);
    NoTabFound(text);
    TabAfter(text, value);
    var line := text + "\t" + value;
    assert line[..|text|] == text && line[|text| + 1..] == value;
  }
}
