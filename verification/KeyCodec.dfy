/**
  How the lakehouse UI writes a primary key into a Kafka message and reads it back.  The writer casts
  numeric-looking text to JSON numbers; the reader turns every JSON value into text again.
 */
module KeyCodec {
  import opened Prelude

  /** Approx stands for a number that a double may not hold exactly, written as text. */
  datatype Json =
    | Null
    | Num(n: int)
    | Approx(text: string)
    | Str(s: string)
    | Obj(fields: map<string, Json>)

  /**
    The parts of the JavaScript runtime that stay abstract: JSON.parse, and how a number that a double may not hold
    exactly comes back as text, which it does not if it is not finite.
   */
  datatype Runtime = Runtime(parse: string -> Option<Json>, reprint: string -> Option<string>)

  const MAX_SAFE_INTEGER := 0x1F_FFFF_FFFF_FFFF

  // ---- Decimal text ----

  predicate IsDigit(c: char) { '0' <= c <= '9' }

  predicate AllDigits(s: string) {
    s != [] && forall i :: 0 <= i < |s| ==> IsDigit(s[i])
  }

  function Unsigned(s: string): string {
    if s != [] && s[0] == '-' then s[1..] else s
  }

  predicate IsInteger(s: string) { AllDigits(Unsigned(s)) }

  predicate IsFraction(s: string) {
    var t := Unsigned(s);
    exists i :: 0 <= i < |t| && t[i] == '.' && AllDigits(t[..i]) && AllDigits(t[i + 1..])
  }

  function DigitValue(c: char): nat
    requires IsDigit(c)
  {
    c as int - '0' as int
  }

  function ParseNat(s: string): nat
    requires forall i :: 0 <= i < |s| ==> IsDigit(s[i])
  {
    if s == [] then 0
    else 10 * ParseNat(s[..|s| - 1]) + DigitValue(s[|s| - 1])
  }

  function ParseInt(s: string): int
    requires IsInteger(s)
  {
    if s[0] == '-' then 0 - ParseNat(s[1..]) else ParseNat(s)
  }

  function ShowNat(n: nat): (s: string)
    ensures AllDigits(s)
    ensures s[0] == '0' <==> n == 0
    ensures n == 0 ==> |s| == 1
  {
    var digit := ('0' as int + n % 10) as char;
    if n < 10 then [digit] else ShowNat(n / 10) + [digit]
  }

  function Show(n: int): string {
    if n < 0 then "-" + ShowNat(-n) else ShowNat(n)
  }

  /** The way JavaScript prints an integer: no leading zero, no minus zero. */
  predicate IsCanonical(s: string) {
    IsInteger(s) && (s == "0" || Unsigned(s)[0] != '0')
  }

  lemma {:induction false} ParsePositive(s: string)
    requires AllDigits(s) && s[0] != '0'
    ensures ParseNat(s) > 0
  {
    if |s| > 1 {
      ParsePositive(s[..|s| - 1]);
    } else {
      assert s[..0] == [];
    }
  }

  lemma {:induction false} ShowParse(s: string)
    requires AllDigits(s) && (|s| == 1 || s[0] != '0')
    ensures ShowNat(ParseNat(s)) == s
  {
    var init := s[..|s| - 1];
    if init == [] {
      assert ParseNat(init) == 0;
    } else {
      ParsePositive(init);
      ShowParse(init);
      assert ParseNat(s) / 10 == ParseNat(init);
    }
  }

  lemma {:induction false} PrintedIsCanonical(s: string)
    requires IsInteger(s)
    ensures Show(ParseInt(s)) == s <==> IsCanonical(s)
  {
    if IsCanonical(s) {
      CanonicalIsPrinted(s);
    } else {
      ShowIsCanonical(ParseInt(s));
    }
  }

  lemma {:induction false} ShowIsCanonical(n: int)
    ensures IsCanonical(Show(n))
  {
    if n < 0 {
      assert Show(n)[1..] == ShowNat(-n);
    } else if n == 0 {
      assert ShowNat(0) == "0";
    }
  }

  lemma {:induction false} CanonicalIsPrinted(s: string)
    requires IsCanonical(s)
    ensures Show(ParseInt(s)) == s
  {
    ShowParse(Unsigned(s));
    if s[0] == '-' {
      ParsePositive(s[1..]);
      assert s == "-" + s[1..];
    }
  }

  predicate IsSign(s: string) { s == "" || s == "-" }

  /** Both kinds of number are what their regular expressions say: an optional minus before digits, ... */
  lemma {:induction false} IntegerTexts(s: string)
    ensures IsInteger(s) <==> exists sign, d :: IsSign(sign) && AllDigits(d) && s == sign + d
  {
    var sign := if s != [] && s[0] == '-' then "-" else "";
    assert s == sign + Unsigned(s) && IsSign(sign);
    if other, d :| IsSign(other) && AllDigits(d) && s == other + d {
      UnsignedIs(s, other, d);
    }
  }

  lemma {:induction false} UnsignedIs(s: string, sign: string, rest: string)
    requires IsSign(sign) && s == sign + rest && rest != "" && rest[0] != '-'
    ensures Unsigned(s) == rest
  {
  }

  /** ... and an optional minus before digits, a dot and digits. */
  lemma {:induction false} FractionTexts(s: string)
    ensures IsFraction(s) <==> exists sign, t :: IsSign(sign) && IsDecimal(t) && s == sign + t
  {
    var sign := if s != [] && s[0] == '-' then "-" else "";
    assert s == sign + Unsigned(s) && IsSign(sign);
    DecimalHasDot(Unsigned(s));
    if other, t :| IsSign(other) && IsDecimal(t) && s == other + t {
      DecimalStarts(t);
      UnsignedIs(s, other, t);
    }
  }

  ghost predicate IsDecimal(t: string) {
    exists a, b :: AllDigits(a) && AllDigits(b) && t == a + "." + b
  }

  lemma {:induction false} DecimalStarts(t: string)
    requires IsDecimal(t)
    ensures t != "" && t[0] != '-'
  {
    var a, b :| AllDigits(a) && AllDigits(b) && t == a + "." + b;
    assert t[0] == a[0] && IsDigit(a[0]);
  }

  lemma {:induction false} DecimalHasDot(t: string)
    ensures IsDecimal(t) <==> exists i :: 0 <= i < |t| && t[i] == '.' && AllDigits(t[..i]) && AllDigits(t[i + 1..])
  {
    if a, b :| AllDigits(a) && AllDigits(b) && t == a + "." + b {
      assert t[|a|] == '.' && t[..|a|] == a && t[|a| + 1..] == b;
    }
    if i :| 0 <= i < |t| && t[i] == '.' && AllDigits(t[..i]) && AllDigits(t[i + 1..]) {
      assert t == t[..i] + "." + t[i + 1..];
    }
  }

  lemma {:induction false} DigitsAre(n: nat)
    requires n < 10
    ensures AllDigits([('0' as int + n) as char]) && ParseNat([('0' as int + n) as char]) == n
    ensures !AllDigits("") && !IsDigit('+') && !IsDigit('.') && !IsDigit('-') && !IsDigit(' ') && !IsDigit('a')
  {
    assert [('0' as int + n) as char][..0] == [];
  }

  // ---- One key component ----

  function CastVal(v: Option<string>): Json {
    match v
    case None => Null
    case Some(s) =>
      if s == "" then Null
      else if IsInteger(s) then
        if -MAX_SAFE_INTEGER <= ParseInt(s) <= MAX_SAFE_INTEGER then Num(ParseInt(s)) else Approx(s)
      else if IsFraction(s) then Approx(s)
      else Str(s)
  }

  predicate IsSpace(c: char) {
    var u := c as int;
    0x09 <= u <= 0x0D || u == 0x20 || u == 0xA0 || u == 0x1680 || 0x2000 <= u <= 0x200A ||
    u == 0x2028 || u == 0x2029 || u == 0x202F || u == 0x205F || u == 0x3000 || u == 0xFEFF
  }

  /** Of the characters of ASCII the blank and those from tab to carriage return are spaces. */
  lemma {:induction false} AsciiSpaces(c: char)
    requires c as int < 128
    ensures IsSpace(c) <==> c == ' ' || c as int in {9, 10, 11, 12, 13}
  {
  }

  function Trim(s: string): string {
    if s == [] then []
    else if IsSpace(s[0]) then Trim(s[1..])
    else if IsSpace(s[|s| - 1]) then Trim(s[..|s| - 1])
    else s
  }

  /** Trimming takes spaces off both ends and nothing else. */
  lemma {:induction false} TrimMeans(s: string) returns (a: string, b: string)
    ensures s == a + Trim(s) + b
    ensures (forall c :: c in a ==> IsSpace(c)) && (forall c :: c in b ==> IsSpace(c))
    ensures Trim(s) != "" ==> !IsSpace(Trim(s)[0]) && !IsSpace(Trim(s)[|Trim(s)| - 1])
    decreases |s|
  {
    if s == "" {
      a, b := "", "";
    } else if IsSpace(s[0]) {
      var a', b' := TrimMeans(s[1..]);
      a, b := [s[0]] + a', b';
      assert s == [s[0]] + (a' + Trim(s) + b');
    } else if IsSpace(s[|s| - 1]) {
      var a', b' := TrimMeans(s[..|s| - 1]);
      a, b := a', b' + [s[|s| - 1]];
      assert s == (a' + Trim(s) + b') + [s[|s| - 1]];
    } else {
      a, b := "", "";
      assert s == "" + s + "";
    }
  }

  /** The hex text of an extended-JSON ObjectId, if j is one. */
  function OidOf(j: Json): Option<string> {
    if j.Obj? && "$oid" in j.fields && j.fields["$oid"].Str? then Some(j.fields["$oid"].s) else None
  }

  /** The ObjectId that a text spells out, if it does. */
  function OidInText(rt: Runtime, s: string): Option<string> {
    var trimmed := Trim(s);
    if trimmed != [] && trimmed[0] == '{' && rt.parse(trimmed).Some? then OidOf(rt.parse(trimmed).value) else None
  }

  function NormalisePkVal(rt: Runtime, v: Json): Option<string> {
    var v := if v.Obj? && "value" in v.fields then v.fields["value"] else v;
    match v
    case Null => None
    case Num(n) => Some(Show(n))
    case Approx(text) => rt.reprint(text)
    case Str(s) => if OidInText(rt, s).Some? then OidInText(rt, s) else Some(s)
    case Obj(_) => if OidOf(v).Some? then OidOf(v) else Some("[object Object]")
  }

  /** Is s one of the values that survive the trip?  Stated on the text alone, and exact. */
  predicate Survives(rt: Runtime, s: string) {
    if s == "" then false
    else if IsInteger(s) && -MAX_SAFE_INTEGER <= ParseInt(s) <= MAX_SAFE_INTEGER then IsCanonical(s)
    else if IsInteger(s) || IsFraction(s) then rt.reprint(s) == Some(s)
    else var oid := OidInText(rt, s); oid.None? || oid == Some(s)
  }

  /** Casting a component and reading it back gives the same text exactly when it survives. */
  lemma {:induction false} ComponentRoundTrip(rt: Runtime, s: string)
    ensures NormalisePkVal(rt, CastVal(Some(s))) == Some(s) <==> Survives(rt, s)
  {
    if IsInteger(s) {
      PrintedIsCanonical(s);
    }
  }

  /** A value in Debezium's wrapper reads like the value itself, and an object that is no ObjectId like any other. */
  lemma {:induction false} WrapperIsUnwrapped(rt: Runtime, v: Json, fields: map<string, Json>)
    ensures !(v.Obj? && "value" in v.fields) ==>
              NormalisePkVal(rt, Obj(map["value" := v])) == NormalisePkVal(rt, v)
    ensures "value" !in fields && "$oid" !in fields ==> NormalisePkVal(rt, Obj(fields)) == Some("[object Object]")
    ensures NormalisePkVal(rt, Null) == None
  {
  }

  /** The two families of keys that tables use always survive. */
  lemma {:induction false} UsualKeysSurvive(rt: Runtime, s: string)
    requires
      || (IsCanonical(s) && -MAX_SAFE_INTEGER <= ParseInt(s) <= MAX_SAFE_INTEGER)
      || (s != "" && !IsInteger(s) && !IsFraction(s) && (Trim(s) == "" || Trim(s)[0] != '{'))
    ensures NormalisePkVal(rt, CastVal(Some(s))) == Some(s)
  {
    ComponentRoundTrip(rt, s);
  }

  /** A zero-padded number never does. */
  lemma {:induction false} PaddedNumberIsLost(rt: Runtime, digits: string)
    requires AllDigits(digits) && ParseNat("0" + digits) <= MAX_SAFE_INTEGER
    ensures NormalisePkVal(rt, CastVal(Some("0" + digits))) != Some("0" + digits)
  {
    var s := "0" + digits;
    assert forall i :: 1 <= i < |s| ==> s[i] == digits[i - 1];
    assert IsInteger(s) && !IsCanonical(s);
    ComponentRoundTrip(rt, s);
  }

  // ---- How far a component can drift ----

  /** A component as it is read back. */
  function ReadBack(rt: Runtime, s: string): Option<string> {
    NormalisePkVal(rt, CastVal(Some(s)))
  }

  /**
    What JavaScript promises: a printed number prints the same again, and a string is shorter than the JSON around
    it.
   */
  ghost predicate ValidRuntime(rt: Runtime) {
    && (forall s :: (IsInteger(s) || IsFraction(s)) && rt.reprint(s).Some? ==> Survives(rt, rt.reprint(s).value))
    && (forall s :: OidInText(rt, s).Some? ==> |OidInText(rt, s).value| < |s|)
  }

  lemma {:induction false} ParseShowNat(n: nat)
    ensures ParseNat(ShowNat(n)) == n
  {
    if n < 10 {
      assert ShowNat(n)[..0] == [];
    } else {
      ParseShowNat(n / 10);
      var digit := ('0' as int + n % 10) as char;
      assert (ShowNat(n / 10) + [digit])[..|ShowNat(n / 10)|] == ShowNat(n / 10);
    }
  }

  lemma {:induction false} ParseShow(n: int)
    ensures IsInteger(Show(n)) && ParseInt(Show(n)) == n
  {
    ParseShowNat(if n < 0 then -n else n);
    if n < 0 {
      assert Show(n)[1..] == ShowNat(-n);
    }
  }

  /** Reading back either keeps a component or takes it closer to one that survives. */
  function Drift(rt: Runtime, s: string): nat {
    if Survives(rt, s) then 0 else 1 + |s|
  }

  lemma {:induction false} ReadBackDrifts(rt: Runtime, s: string)
    requires ValidRuntime(rt) && ReadBack(rt, s).Some?
    ensures ReadBack(rt, s).value == s || Drift(rt, ReadBack(rt, s).value) < Drift(rt, s)
  {
    ComponentRoundTrip(rt, s);
    if IsInteger(s) && -MAX_SAFE_INTEGER <= ParseInt(s) <= MAX_SAFE_INTEGER {
      ParseShow(ParseInt(s));
      ShowIsCanonical(ParseInt(s));
    }
  }

  // ---- Whole keys ----

  type Payload = map<string, Json>

  /** MongoDB keys carry "id"; the reader renames it to "_id", whatever the source is. */
  function NormaliseMongoPkPayload(p: Payload): Payload {
    if "id" in p && "_id" !in p then p["_id" := p["id"]] - {"id"} else p
  }

  function Field(rt: Runtime, p: Payload, col: string): Option<string> {
    if col in p then NormalisePkVal(rt, p[col]) else None
  }

  /** The key columns of a payload, when none of them is null. */
  function PkOf(rt: Runtime, p: Payload, cols: seq<string>): (r: Option<seq<string>>)
    ensures r.Some? ==> |r.value| == |cols|
  {
    if cols == [] then Some([])
    else
      match (Field(rt, p, cols[0]), PkOf(rt, p, cols[1..]))
      case (Some(v), Some(vs)) => Some([v] + vs)
      case _ => None
  }

  /** What a reader makes of a message: its key, or failing that the row in its value. */
  function ReadPk(rt: Runtime, key: Payload, row: Payload, cols: seq<string>): Option<seq<string>> {
    var fromKey := PkOf(rt, NormaliseMongoPkPayload(key), cols);
    if fromKey.Some? then fromKey else PkOf(rt, NormaliseMongoPkPayload(row), cols)
  }

  /** The message key decides where it can be read, and the row in the value where it cannot. */
  lemma {:induction false} KeyBeforeRow(rt: Runtime, col: string, n: int, m: int)
    requires col != "id"
    ensures ReadPk(rt, map[col := Num(n)], map[col := Num(m)], [col]) == Some([Show(n)])
    ensures ReadPk(rt, map[], map[col := Num(m)], [col]) == Some([Show(m)])
    ensures ReadPk(rt, map[col := Null], map[], [col]) == None
  {
    PkOfExactly(rt, map[col := Num(n)], [col], [Show(n)]);
    PkOfExactly(rt, map[col := Num(m)], [col], [Show(m)]);
  }

  type Row = map<string, Option<string>>

  /** The key and the after image that the fix writes for a source row. */
  function KeyFor(row: Row, cols: seq<string>): Payload {
    map c | c in cols :: CastVal(if c in row then row[c] else None)
  }

  function AfterFor(row: Row): Payload {
    map c | c in row :: CastVal(row[c])
  }

  /** The key that the fix writes for a ghost: the texts as they were read, not cast. */
  function GhostKeyFor(pk: seq<string>, cols: seq<string>): Payload
    requires |pk| == |cols|
  {
    if cols == [] then map[] else GhostKeyFor(pk[..|pk| - 1], cols[..|cols| - 1])[cols[|cols| - 1] := Str(pk[|pk| - 1])]
  }

  predicate HasKey(row: Row, cols: seq<string>, pk: seq<string>) {
    |pk| == |cols| && forall i :: 0 <= i < |cols| ==> cols[i] in row && row[cols[i]] == Some(pk[i])
  }

  predicate AllSurvive(rt: Runtime, pk: seq<string>) {
    forall i :: 0 <= i < |pk| ==> Survives(rt, pk[i])
  }

  /** The renaming hits a relational key whose column is called id. */
  predicate LosesId(cols: seq<string>, available: set<string>) {
    "id" in cols && "_id" !in available
  }

  lemma {:induction false} PkOfExactly(rt: Runtime, p: Payload, cols: seq<string>, pk: seq<string>)
    requires |pk| == |cols|
    ensures PkOf(rt, p, cols) == Some(pk) <==> forall i :: 0 <= i < |cols| ==> Field(rt, p, cols[i]) == Some(pk[i])
  {
    if cols != [] {
      PkOfExactly(rt, p, cols[1..], pk[1..]);
      assert pk == [pk[0]] + pk[1..];
      assert forall i :: 1 <= i < |cols| ==> cols[i] == cols[1..][i - 1] && pk[i] == pk[1..][i - 1];
      if PkOf(rt, p, cols) == Some(pk) {
        var vs := PkOf(rt, p, cols[1..]).value;
        assert ([pk[0]] + vs)[1..] == vs;
      }
    }
  }

  lemma {:induction false} FieldAfterRename(rt: Runtime, p: Payload, cols: seq<string>, c: string)
    requires c in cols && (forall k :: k in cols ==> k in p)
    ensures Field(rt, NormaliseMongoPkPayload(p), c) ==
              if c == "id" && LosesId(cols, p.Keys) then None else NormalisePkVal(rt, p[c])
  {
  }

  /**
    A row that the fix writes is read back under its own key exactly when every component survives and
    the row is not one whose id column the reader renames away.
   */
  lemma {:induction false} FixKeyRoundTrip(rt: Runtime, row: Row, cols: seq<string>, pk: seq<string>)
    requires HasKey(row, cols, pk)
    ensures ReadPk(rt, KeyFor(row, cols), AfterFor(row), cols) == Some(pk) <==>
            AllSurvive(rt, pk) && !LosesId(cols, row.Keys)
  {
    var key, after := KeyFor(row, cols), AfterFor(row);
    PkOfExactly(rt, NormaliseMongoPkPayload(key), cols, pk);
    PkOfExactly(rt, NormaliseMongoPkPayload(after), cols, pk);
    forall i | 0 <= i < |cols|
      ensures NormalisePkVal(rt, key[cols[i]]) == Some(pk[i]) <==> Survives(rt, pk[i])
      ensures NormalisePkVal(rt, after[cols[i]]) == Some(pk[i]) <==> Survives(rt, pk[i])
    {
      ComponentRoundTrip(rt, pk[i]);
    }
    forall i | 0 <= i < |cols|
      ensures Field(rt, NormaliseMongoPkPayload(after), cols[i]) ==
                if cols[i] == "id" && LosesId(cols, row.Keys) then None else NormalisePkVal(rt, after[cols[i]])
    {
      FieldAfterRename(rt, after, cols, cols[i]);
    }
    KeyAndRowAgree(rt, key, after, row, cols);
  }

  /** Whatever a written row is read back as, each component is what its own text is read back as. */
  lemma {:induction false} FixKeyReadsComponents(rt: Runtime, row: Row, cols: seq<string>, pk: seq<string>,
          read: seq<string>)
    requires HasKey(row, cols, pk) && ReadPk(rt, KeyFor(row, cols), AfterFor(row), cols) == Some(read)
    ensures |read| == |pk| && forall i :: 0 <= i < |pk| ==> ReadBack(rt, pk[i]) == Some(read[i])
  {
    var key, after := KeyFor(row, cols), AfterFor(row);
    var p := if PkOf(rt, NormaliseMongoPkPayload(key), cols).Some? then key else after;
    PkOfExactly(rt, NormaliseMongoPkPayload(p), cols, read);
    forall i | 0 <= i < |cols| ensures ReadBack(rt, pk[i]) == Some(read[i]) {
      FieldAfterRename(rt, p, cols, cols[i]);
    }
  }

  /** When the key can be read at all, the row in the value would have given the same. */
  lemma {:induction false} KeyAndRowAgree(rt: Runtime, key: Payload, after: Payload, row: Row, cols: seq<string>)
    requires key == KeyFor(row, cols) && after == AfterFor(row)
    requires forall c :: c in cols ==> c in row
    ensures PkOf(rt, NormaliseMongoPkPayload(key), cols).Some? ==>
              PkOf(rt, NormaliseMongoPkPayload(after), cols) == PkOf(rt, NormaliseMongoPkPayload(key), cols)
  {
    var k, a := NormaliseMongoPkPayload(key), NormaliseMongoPkPayload(after);
    if PkOf(rt, k, cols).Some? {
      var pk := PkOf(rt, k, cols).value;
      PkOfExactly(rt, k, cols, pk);
      PkOfExactly(rt, a, cols, pk);
      forall i | 0 <= i < |cols| ensures Field(rt, a, cols[i]) == Some(pk[i]) {
        FieldAfterRename(rt, key, cols, cols[i]);
        FieldAfterRename(rt, after, cols, cols[i]);
      }
    }
  }

  /** An ObjectId is read back as its hex, from the key Debezium writes and from the one the fix writes. */
  lemma {:induction false} ObjectIdRoundTrip(rt: Runtime, hex: string, text: string)
    requires text != [] && text[0] == '{' && !IsSpace(text[|text| - 1])
    requires rt.parse(text) == Some(Obj(map["$oid" := Str(hex)]))
    ensures ReadPk(rt, map["id" := Str(text)], map[], ["_id"]) == Some([hex])
    ensures ReadPk(rt, map["_id" := Str(text)], map[], ["_id"]) == Some([hex])
    ensures ReadPk(rt, map["_id" := Obj(map["$oid" := Str(hex)])], map[], ["_id"]) == Some([hex])
  {
    assert Trim(text) == text;
    var cols := ["_id"];
    assert cols[1..] == [];
    forall p: Payload | "_id" in p && NormalisePkVal(rt, p["_id"]) == Some(hex)
      ensures PkOf(rt, p, cols) == Some([hex])
    {
      PkOfExactly(rt, p, cols, [hex]);
    }
  }
}
