/**
  The Cypher-to-SQL translator, from the parts of a pattern on: a labelled node with the text of its inline
  properties and a WHERE of equalities, and a labelled one-hop relationship with inline properties.
 */
module CypherTranslation {
  import opened Prelude
  import opened InlineProps

  // ---- Graphs and the tables that hold them ----

  datatype Node = Node(tag: string, id: string, props: map<string, string>, deleted: Option<bool>)

  datatype Edge = Edge(src: string, srcTag: string, rel: string, tgt: string, tgtTag: string, deleted: Option<bool>)

  datatype Graph = Graph(nodes: set<Node>, edges: set<Edge>)

  datatype TableName = Customers | Nodes

  /** The table that holds the properties of a label as columns, if it has columns for them. */
  function TableOf(tag: string): TableName {
    if tag == "Customer" then Customers else Nodes
  }

  const CUSTOMER_COLUMNS := {"customer_id", "first_name", "last_name", "email", "city", "country", "tier",
                             "credit_limit", "deleted_at", "snap_timestamp"}
  const NODE_COLUMNS := {"node_id", "node_type", "created_at", "updated_at", "snap_timestamp"}

  /** The columns that hold text: properties of their name, and the label of a node. */
  function ColumnsOf(t: TableName): set<string> {
    match t
    case Customers => CUSTOMER_COLUMNS
    case Nodes => NODE_COLUMNS
  }

  function IdColumn(t: TableName): string {
    match t
    case Customers => "customer_id"
    case Nodes => "node_id"
  }

  /** The properties of a node, its id among them. */
  function Props(n: Node): map<string, string> {
    n.props[IdColumn(TableOf(n.tag)) := n.id]
  }

  datatype Row = Row(cols: map<string, string>, payload: map<string, string>, isDeleted: Option<bool>)

  /** The nodes table has a row for every node, the customers table one more for each customer. */
  predicate HasRow(t: TableName, n: Node) { t == Nodes || n.tag == "Customer" }

  /** What a table has as columns. */
  function Stored(t: TableName, n: Node): map<string, string> {
    var props := n.props[IdColumn(t) := n.id];
    if t == Nodes then props["node_type" := n.tag] else props
  }

  /** What has no column goes into the JSON payload of the nodes table; the customers table has none. */
  function RowIn(t: TableName, n: Node): Row {
    var stored := Stored(t, n);
    Row(map k | k in stored && k in ColumnsOf(t) :: stored[k],
        if t == Nodes then map k | k in n.props && (k !in NODE_COLUMNS || k == "node_type") :: n.props[k] else map[],
        n.deleted)
  }

  function Rows(g: Graph, t: TableName): set<Row> {
    set n | n in g.nodes && HasRow(t, n) :: RowIn(t, n)
  }

  /** A customer with a first name, in both tables. */
  lemma {:induction false} CustomerRows(id: string, name: string, deleted: Option<bool>)
    ensures var n := Node("Customer", id, map["first_name" := name], deleted);
            && RowIn(Customers, n) == Row(map["customer_id" := id, "first_name" := name], map[], deleted)
            && RowIn(Nodes, n) ==
               Row(map["node_id" := id, "node_type" := "Customer"], map["first_name" := name], deleted)
  {
    var n := Node("Customer", id, map["first_name" := name], deleted);
    assert RowIn(Customers, n).cols == map["customer_id" := id, "first_name" := name];
    assert RowIn(Nodes, n).cols == map["node_id" := id, "node_type" := "Customer"];
    assert RowIn(Nodes, n).payload == map["first_name" := name];
  }

  // ---- Names ----

  function LowerChar(c: char): char {
    if 'A' <= c <= 'Z' then (c as int + 32) as char else c
  }

  function UpperChar(c: char): char {
    if 'a' <= c <= 'z' then (c as int - 32) as char else c
  }

  function Lower(s: string): string {
    seq(|s|, i requires 0 <= i < |s| => LowerChar(s[i]))
  }

  function Upper(s: string): string {
    seq(|s|, i requires 0 <= i < |s| => UpperChar(s[i]))
  }

  function Capitalize(s: string): string {
    if s == "" then "" else [UpperChar(s[0])] + Lower(s[1..])
  }

  /** The table that the translator picks for a label. */
  function PickTable(tag: string): TableName {
    if Lower(tag) == "customer" then Customers else Nodes
  }

  /** The type that the translator compares with. */
  function TypeName(tag: string): string { Capitalize(Lower(tag)) }

  predicate IsCanonical(tag: string) { TypeName(tag) == tag }

  lemma {:induction false} CanonicalTable(tag: string)
    requires IsCanonical(tag)
    ensures PickTable(tag) == TableOf(tag)
  {
    LowerCustomer();
    if Lower(tag) == "customer" {
      assert Lower("customer"[1..]) == "ustomer";
      assert TypeName(tag) == "Customer";
    }
  }

  lemma {:induction false} LowerCustomer()
    ensures Lower("Customer") == "customer"
  {
    var s := Lower("Customer");
    assert s[0] == 'c' && s[1] == 'u' && s[2] == 's' && s[3] == 't' && s[4] == 'o' && s[5] == 'm' && s[6] == 'e';
    assert s[7] == 'r' && |s| == 8;
  }

  /** Letter n of the alphabet, small and capital. */
  function Small(n: nat): char
    requires n < 26
  {
    ('a' as int + n) as char
  }

  function Capital(n: nat): char
    requires n < 26
  {
    ('A' as int + n) as char
  }

  predicate IsSmall(c: char) { 'a' <= c <= 'z' }

  predicate IsCapital(c: char) { 'A' <= c <= 'Z' }

  predicate NoneIs(s: string, letter: char -> bool) {
    forall i :: 0 <= i < |s| ==> !letter(s[i])
  }

  /** Each letter has its counterpart, and text without letters of the other kind stays as it is. */
  lemma {:induction false} LettersConvert(s: string, n: nat)
    requires n < 26
    ensures Upper([Small(n)]) == [Capital(n)] && Lower([Capital(n)]) == [Small(n)]
    ensures Upper(s) == s <==> NoneIs(s, IsSmall)
    ensures Lower(s) == s <==> NoneIs(s, IsCapital)
  {
    assert forall i :: 0 <= i < |s| ==> (Upper(s)[i] == s[i] <==> !IsSmall(s[i]));
    assert forall i :: 0 <= i < |s| ==> (Lower(s)[i] == s[i] <==> !IsCapital(s[i]));
  }

  /** Both work letter by letter. */
  lemma {:induction false} ConvertEach(a: string, b: string)
    ensures Upper(a + b) == Upper(a) + Upper(b) && Lower(a + b) == Lower(a) + Lower(b)
  {
  }

  /** A label is spelled as the translator spells it when no small letter begins it and no capital follows. */
  lemma {:induction false} CanonicalMeans(tag: string)
    ensures IsCanonical(tag) <==> tag == "" || (!IsSmall(tag[0]) && NoneIs(tag[1..], IsCapital))
  {
    if tag != "" {
      LettersConvert(tag[1..], 0);
      CapitalizeLower(tag[0], tag[1..]);
      assert tag == [tag[0]] + tag[1..];
    }
  }

  lemma {:induction false} CapitalizeLower(c: char, rest: string)
    ensures TypeName([c] + rest) == [UpperChar(LowerChar(c))] + Lower(rest)
    ensures UpperChar(LowerChar(c)) == c <==> !IsSmall(c)
  {
    var low := Lower([c] + rest);
    assert low[0] == LowerChar(c) && low[1..] == Lower(rest);
    assert Lower(Lower(rest)) == Lower(rest);
  }

  // ---- Property references in a WHERE text ----

  /** The length of the run of word characters at the start of s. */
  function WordRun(s: string): (n: nat)
    ensures n <= |s|
  {
    if s != "" && IsWord(s[0]) then 1 + WordRun(s[1..]) else 0
  }

  /** Every word that is followed by a dot and a word is dropped together with the dot, inside literals too. */
  function StripRefs(s: string): string
    decreases |s|
  {
    var n := WordRun(s);
    if s == "" then ""
    else if n == 0 then [s[0]] + StripRefs(s[1..])
    else
      var rest := s[n..];
      var m := if rest != "" && rest[0] == '.' then WordRun(rest[1..]) else 0;
      if m > 0 then rest[1..1 + m] + StripRefs(rest[1 + m..])
      else s[..n] + StripRefs(rest)
  }

  lemma {:induction false} WordRunStops(s: string)
    ensures forall i :: 0 <= i < WordRun(s) ==> IsWord(s[i])
    ensures WordRun(s) < |s| ==> !IsWord(s[WordRun(s)])
  {
    if s != "" && IsWord(s[0]) {
      WordRunStops(s[1..]);
    }
  }

  lemma {:induction false} WordRunIs(word: string, rest: string)
    requires (forall c :: c in word ==> IsWord(c)) && (rest != "" ==> !IsWord(rest[0]))
    ensures WordRun(word + rest) == |word|
  {
    if word == "" {
      assert word + rest == rest;
    } else {
      assert (word + rest)[0] == word[0] && word[0] in word && (word + rest)[1..] == word[1..] + rest;
      WordRunIs(word[1..], rest);
    }
  }

  /** Text of words only: at least one character, all of them word characters. */
  predicate IsWords(s: string) { s != "" && forall c :: c in s ==> IsWord(c) }

  lemma {:induction false} StripAt(s: string, n: nat, m: nat)
    requires 0 < n == WordRun(s) < |s| && s[n] == '.' && 0 < m == WordRun(s[n..][1..])
    ensures StripRefs(s) == s[n..][1..1 + m] + StripRefs(s[n..][1 + m..])
  {
  }

  /** A reference loses what stands before its dot, and what follows it is stripped on. */
  lemma {:induction false} StripReference(alias: string, name: string, rest: string)
    requires IsWords(alias) && IsWords(name) && (rest != "" ==> !IsWord(rest[0]))
    ensures StripRefs(alias + "." + name + rest) == name + StripRefs(rest)
  {
    ReferenceParts(alias, name, rest);
    WordRunIs(alias, "." + (name + rest));
    WordRunIs(name, rest);
    StripAt(alias + "." + name + rest, |alias|, |name|);
  }

  lemma {:induction false} ReferenceParts(alias: string, name: string, rest: string)
    ensures var s, behind := alias + "." + name + rest, "." + (name + rest);
            && s == alias + behind && s[|alias|..] == behind && s[|alias|] == '.'
            && behind[1..] == name + rest && behind[1..1 + |name|] == name && behind[1 + |name|..] == rest
  {
    var s, behind := alias + "." + name + rest, "." + (name + rest);
    assert s == alias + behind;
  }

  /** A character that is in no word stays. */
  lemma {:induction false} StripOther(c: char, rest: string)
    requires !IsWord(c)
    ensures StripRefs([c] + rest) == [c] + StripRefs(rest)
  {
    assert ([c] + rest)[1..] == rest && WordRun([c] + rest) == 0;
  }

  /** And so does a word without a dot and a word character behind it. */
  lemma {:induction false} StripWord(word: string, rest: string)
    requires IsWords(word) && (rest != "" ==> !IsWord(rest[0]))
    requires rest != "" && rest[0] == '.' ==> |rest| == 1 || !IsWord(rest[1])
    ensures StripRefs(word + rest) == word + StripRefs(rest)
  {
    WordRunIs(word, rest);
    assert (word + rest)[..|word|] == word && (word + rest)[|word|..] == rest;
  }

  /** Does a dot stand between two word characters? */
  predicate HasDottedWord(s: string) {
    exists i :: 0 < i < |s| - 1 && IsDottedAt(s, i)
  }

  predicate IsDottedAt(s: string, i: int)
    requires 0 < i < |s| - 1
  {
    s[i] == '.' && IsWord(s[i - 1]) && IsWord(s[i + 1])
  }

  lemma {:induction false} StripShortens(s: string)
    ensures |StripRefs(s)| <= |s|
    decreases |s|
  {
    var n := WordRun(s);
    if s != "" {
      if n == 0 {
        StripShortens(s[1..]);
      } else {
        var rest := s[n..];
        var m := if rest != "" && rest[0] == '.' then WordRun(rest[1..]) else 0;
        if m > 0 {
          StripShortens(rest[1 + m..]);
        } else {
          StripShortens(rest);
        }
      }
    }
  }

  /** In the tail of a text behind its first k characters. */
  lemma {:induction false} DottedInTail(s: string, k: nat)
    requires k < |s| && forall i :: 0 < i <= k && i < |s| - 1 ==> !IsDottedAt(s, i)
    ensures HasDottedWord(s) <==> HasDottedWord(s[k..])
  {
    var t := s[k..];
    if i :| 0 < i < |s| - 1 && IsDottedAt(s, i) {
      assert IsDottedAt(t, i - k);
    }
    if i :| 0 < i < |t| - 1 && IsDottedAt(t, i) {
      assert IsDottedAt(s, i + k);
    }
  }

  /** Stripping leaves exactly those texts alone that have no dot between two word characters. */
  lemma {:induction false} PlainMeans(s: string)
    ensures StripRefs(s) == s <==> !HasDottedWord(s)
    decreases |s|
  {
    var n := WordRun(s);
    WordRunStops(s);
    if s == "" {
    } else if n == 0 {
      PlainMeans(s[1..]);
      PlainWithout(s);
    } else {
      var rest := s[n..];
      var m := if rest != "" && rest[0] == '.' then WordRun(rest[1..]) else 0;
      if m > 0 {
        StripShortens(rest[1 + m..]);
        WordRunStops(rest[1..]);
        assert rest[1..][0] == s[n + 1];
        assert IsDottedAt(s, n);
      } else {
        PlainMeans(rest);
        PlainBehindWord(s, n);
      }
    }
  }

  /** The step over a character outside words. */
  lemma {:induction false} PlainWithout(s: string)
    requires s != "" && !IsWord(s[0])
    ensures HasDottedWord(s) <==> HasDottedWord(s[1..])
    ensures StripRefs(s) == s <==> StripRefs(s[1..]) == s[1..]
  {
    if |s| > 1 {
      DottedInTail(s, 1);
    }
    assert StripRefs(s) == [s[0]] + StripRefs(s[1..]) && s == [s[0]] + s[1..];
    assert ([s[0]] + StripRefs(s[1..]))[1..] == StripRefs(s[1..]);
  }

  /** And the one over a word with no name behind it. */
  lemma {:induction false} PlainBehindWord(s: string, n: nat)
    requires 0 < n == WordRun(s) && (n < |s| && s[n] == '.' ==> WordRun(s[n..][1..]) == 0)
    ensures HasDottedWord(s) <==> HasDottedWord(s[n..])
    ensures StripRefs(s) == s <==> StripRefs(s[n..]) == s[n..]
  {
    WordRunStops(s);
    if n < |s| {
      WordRunStops(s[n..][1..]);
      assert n + 1 < |s| ==> s[n..][1..][0] == s[n + 1];
      DottedInTail(s, n);
    }
    assert StripRefs(s) == s[..n] + StripRefs(s[n..]) && s == s[..n] + s[n..];
    assert (s[..n] + StripRefs(s[n..]))[n..] == StripRefs(s[n..]);
  }

  // ---- Node patterns ----

  /** An unparenthesised WHERE text: ORs of ANDs. */
  type Text = seq<seq<Property>>

  datatype NodePattern = NodePattern(tag: string, props: seq<Property>, where_: Text)

  predicate Has(props: map<string, string>, eqs: seq<Equality>) {
    forall q :: q in eqs ==> q.key in props && props[q.key] == q.val
  }

  predicate HasSome(props: map<string, string>, text: Text) {
    text == [] || exists i :: 0 <= i < |text| && Has(props, text[i])
  }

  predicate IsLive(n: Node) { n.deleted != Some(true) }

  /** What the pattern means, on nodes that are not deleted. */
  predicate Matches(p: NodePattern, n: Node) {
    n.tag == p.tag && Has(Props(n), p.props) && HasSome(Props(n), p.where_) && IsLive(n)
  }

  // ---- The SQL ----

  datatype Cond = ColIs(key: string, val: string) | NotDeleted

  predicate Holds(r: Row, c: Cond) {
    match c
    case ColIs(key, val) => key in r.cols && r.cols[key] == val
    case NotDeleted => r.isDeleted != Some(true)
  }

  predicate AllHold(r: Row, cs: seq<Cond>) {
    forall c :: c in cs ==> Holds(r, c)
  }

  /** A condition text, as SQL reads it: AND binds tighter than OR. */
  type CondText = seq<seq<Cond>>

  predicate TextHolds(r: Row, t: CondText) {
    exists i :: 0 <= i < |t| && AllHold(r, t[i])
  }

  /** Writing " AND " between two texts joins only the neighbouring conjunctions. */
  function JoinAnd(a: CondText, b: CondText): CondText
    requires a != [] && b != []
  {
    a[..|a| - 1] + [a[|a| - 1] + b[0]] + b[1..]
  }

  function ColConds(eqs: seq<Equality>): seq<Cond> {
    seq(|eqs|, i requires 0 <= i < |eqs| => ColIs(eqs[i].key, eqs[i].val))
  }

  /** The inline properties, as they are written and parsed. */
  function InlineConds(props: seq<Property>): seq<Cond> { ColConds(Parsed(Written(props))) }

  /** The WHERE text as it is spliced in, with references stripped from the literals as well. */
  function SplicedConds(eqs: seq<Property>): seq<Cond> {
    seq(|eqs|, i requires 0 <= i < |eqs| => ColIs(eqs[i].key, StripRefs(eqs[i].val)))
  }

  function SplicedText(t: Text): CondText {
    seq(|t|, i requires 0 <= i < |t| => SplicedConds(t[i]))
  }

  function TypeConds(tag: string): seq<Cond> {
    if PickTable(tag) == Nodes then [ColIs("node_type", TypeName(tag))] else []
  }

  /** The conditions before the WHERE text. */
  function Prefix(p: NodePattern): seq<Cond> { TypeConds(p.tag) + InlineConds(p.props) }

  /** The condition of the generated SELECT; an empty prefix adds nothing before the text. */
  function Translate(p: NodePattern): (t: CondText)
    ensures t != []
  {
    var upToWhere := if p.where_ == [] then [Prefix(p)] else JoinAnd([Prefix(p)], SplicedText(p.where_));
    JoinAnd(upToWhere, [[NotDeleted]])
  }

  /** Does every name stand for a column of the table? */
  predicate Resolves(t: TableName, eqs: seq<Equality>) {
    forall q :: q in eqs ==> q.key in ColumnsOf(t)
  }

  predicate TextResolves(t: TableName, text: Text) {
    forall i :: 0 <= i < |text| ==> Resolves(t, text[i])
  }

  /** Are the names in the pattern columns of the table that is picked for it? */
  predicate NodeResolves(p: NodePattern) {
    Resolves(PickTable(p.tag), p.props) && TextResolves(PickTable(p.tag), p.where_)
  }

  /** Are the names in the generated query? The database refuses one that names a missing column. */
  predicate IsAnswered(p: NodePattern) {
    Resolves(PickTable(p.tag), Parsed(Written(p.props))) && TextResolves(PickTable(p.tag), p.where_)
  }

  /** The answer of the generated query. */
  function Selected(g: Graph, p: NodePattern): Option<set<Row>> {
    if IsAnswered(p) then Some(set r | r in Rows(g, PickTable(p.tag)) && TextHolds(r, Translate(p))) else None
  }

  /** The nodes that match, as rows of the table that is picked. */
  function Matched(g: Graph, p: NodePattern): set<Row> {
    set n | n in g.nodes && Matches(p, n) :: RowIn(PickTable(p.tag), n)
  }

  ghost predicate PreservesMeaning(p: NodePattern) {
    forall g :: Selected(g, p) == Some(Matched(g, p))
  }

  /** A literal without dotted words stays as it is. */
  predicate IsPlain(q: Property) { !HasDottedWord(q.val) }

  predicate AllPlain(eqs: seq<Property>) {
    forall q :: q in eqs ==> IsPlain(q)
  }

  predicate IsStable(t: Text) {
    forall i :: 0 <= i < |t| ==> AllPlain(t[i])
  }

  // ---- Conditions and nodes ----

  lemma {:induction false} ColCondsHold(n: Node, t: TableName, eqs: seq<Equality>)
    requires TableOf(n.tag) == t && Resolves(t, eqs) && forall q :: q in eqs ==> q.key != "node_type"
    ensures AllHold(RowIn(t, n), ColConds(eqs)) <==> Has(Props(n), eqs)
  {
    var r := RowIn(t, n);
    if AllHold(r, ColConds(eqs)) {
      forall q | q in eqs ensures q.key in r.cols && r.cols[q.key] == q.val {
        var i :| 0 <= i < |eqs| && eqs[i] == q;
        assert ColConds(eqs)[i] in ColConds(eqs);
      }
    }
  }

  lemma {:induction false} InlineCondsHold(n: Node, t: TableName, props: seq<Property>)
    requires TableOf(n.tag) == t && Resolves(t, props) && NoComma(props)
    ensures Parsed(Written(props)) == props
    ensures AllHold(RowIn(t, n), InlineConds(props)) <==> Has(Props(n), props)
  {
    InlineRoundTrip(props);
    ColCondsHold(n, t, props);
  }

  lemma {:induction false} SplicedStable(eqs: seq<Property>)
    requires AllPlain(eqs)
    ensures SplicedConds(eqs) == ColConds(eqs)
  {
    forall i | 0 <= i < |eqs| ensures SplicedConds(eqs)[i] == ColConds(eqs)[i] {
      assert IsPlain(eqs[i]);
      PlainMeans(eqs[i].val);
    }
  }

  lemma {:induction false} AllHoldConcat(r: Row, a: seq<Cond>, b: seq<Cond>)
    ensures AllHold(r, a + b) <==> AllHold(r, a) && AllHold(r, b)
  {
    assert forall c :: c in a + b <==> c in a || c in b;
  }

  lemma {:induction false} TypeCondsHold(n: Node, tag: string)
    requires HasRow(PickTable(tag), n)
    ensures AllHold(RowIn(PickTable(tag), n), TypeConds(tag)) <==> PickTable(tag) == Nodes ==> n.tag == TypeName(tag)
  {
    if PickTable(tag) == Nodes {
      assert TypeConds(tag)[0] in TypeConds(tag);
    }
  }

  /** With at most one conjunction, the condition is what a reader expects. */
  lemma {:induction false} ConjunctiveMeaning(p: NodePattern, r: Row)
    requires |p.where_| <= 1
    ensures TextHolds(r, Translate(p)) <==>
            && AllHold(r, TypeConds(p.tag)) && AllHold(r, InlineConds(p.props)) && Holds(r, NotDeleted)
            && (p.where_ != [] ==> AllHold(r, SplicedConds(p.where_[0])))
  {
    var w := if p.where_ == [] then [] else SplicedConds(p.where_[0]);
    assert Translate(p) == [Prefix(p) + w + [NotDeleted]] by {
      if p.where_ == [] { assert Prefix(p) + w == Prefix(p); }
    }
    AllHoldConcat(r, Prefix(p) + w, [NotDeleted]);
    AllHoldConcat(r, Prefix(p), w);
    AllHoldConcat(r, TypeConds(p.tag), InlineConds(p.props));
    assert AllHold(r, [NotDeleted]) <==> Holds(r, NotDeleted);
    assert TextHolds(r, Translate(p)) <==> AllHold(r, Translate(p)[0]);
  }

  /** In a table that has a row for n, is the label the one that is asked for? */
  lemma {:induction false} LabelMeaning(tag: string, n: Node)
    requires IsCanonical(tag) && HasRow(PickTable(tag), n)
    ensures AllHold(RowIn(PickTable(tag), n), TypeConds(tag)) <==> n.tag == tag
  {
    CanonicalTable(tag);
    TypeCondsHold(n, tag);
  }

  lemma {:induction false} WhereMeaning(t: Text, n: Node)
    requires IsStable(t) && |t| <= 1 && TextResolves(TableOf(n.tag), t)
    ensures HasSome(Props(n), t) <==> t == [] || AllHold(RowIn(TableOf(n.tag), n), SplicedConds(t[0]))
  {
    if t != [] {
      SplicedStable(t[0]);
      ColCondsHold(n, TableOf(n.tag), t[0]);
      assert HasSome(Props(n), t) <==> Has(Props(n), t[0]);
    }
  }

  /** What leaves a node pattern as it is: columns only, a canonical label, no OR, no dotted words, no commas. */
  predicate IsFaithful(p: NodePattern) {
    NodeResolves(p) && IsCanonical(p.tag) && |p.where_| <= 1 && IsStable(p.where_) && NoComma(p.props)
  }

  /** One node: selected exactly when matched. */
  lemma {:induction false} NodeAgrees(p: NodePattern, n: Node)
    requires IsFaithful(p) && HasRow(PickTable(p.tag), n)
    ensures TextHolds(RowIn(PickTable(p.tag), n), Translate(p)) <==> Matches(p, n)
  {
    ConjunctiveMeaning(p, RowIn(PickTable(p.tag), n));
    LabelMeaning(p.tag, n);
    if n.tag == p.tag {
      CanonicalTable(p.tag);
      InlineCondsHold(n, PickTable(p.tag), p.props);
      WhereMeaning(p.where_, n);
    }
  }

  lemma {:induction false} ConjunctivePreserves(p: NodePattern)
    requires IsFaithful(p)
    ensures PreservesMeaning(p)
  {
    var t := PickTable(p.tag);
    InlineRoundTrip(p.props);
    CanonicalTable(p.tag);
    forall g ensures Selected(g, p).value == Matched(g, p) {
      forall r ensures r in Selected(g, p).value <==> r in Matched(g, p) {
        if r in Selected(g, p).value {
          var n :| n in g.nodes && HasRow(t, n) && RowIn(t, n) == r;
          NodeAgrees(p, n);
        }
        if r in Matched(g, p) {
          var n :| n in g.nodes && Matches(p, n) && RowIn(t, n) == r;
          NodeAgrees(p, n);
        }
      }
    }
  }

  // ---- What breaks it ----

  function Only(n: Node): Graph { Graph({n}, {}) }

  /** A graph of one node on which SQL and Cypher disagree. */
  lemma {:induction false} Disagree(p: NodePattern, n: Node)
    requires IsAnswered(p)
    requires (HasRow(PickTable(p.tag), n) && TextHolds(RowIn(PickTable(p.tag), n), Translate(p))) != Matches(p, n)
    ensures !PreservesMeaning(p)
  {
    var selected, matched := Selected(Only(n), p).value, Matched(Only(n), p);
    var r := RowIn(PickTable(p.tag), n);
    assert n in Only(n).nodes;
    assert r in selected <==> HasRow(PickTable(p.tag), n) && TextHolds(r, Translate(p));
    assert r in matched <==> Matches(p, n);
    assert selected != matched;
  }

  /** A query that names a missing column fails on every graph. */
  lemma {:induction false} UnansweredFails(p: NodePattern)
    requires !IsAnswered(p)
    ensures !PreservesMeaning(p)
  {
    assert Selected(Graph({}, {}), p).None?;
  }

  /** A name without a column stays in the generated query. */
  lemma {:induction false} AnsweredResolves(t: TableName, props: seq<Property>)
    requires Resolves(t, Parsed(Written(props)))
    ensures Resolves(t, props)
  {
    forall q | q in props ensures q.key in ColumnsOf(t) {
      var f := WrittenKeyIsRead(props, q);
    }
  }

  lemma {:induction false} OneResolves(t: TableName, q: Property)
    requires ',' !in q.val
    ensures Resolves(t, Parsed(Written([q]))) <==> q.key in ColumnsOf(t)
  {
    var props: seq<Property> := [q];
    assert Parsed(Written(props)) == props by {
      InlineRoundTrip(props);
    }
    assert props[0] in props;
  }

  /** What one inline property can ask for, by the columns of the two tables. */
  lemma {:induction false} OnePropertyResolves(q: Property)
    requires ',' !in q.val
    ensures Resolves(Customers, Parsed(Written([q]))) <==>
            q.key in {"customer_id", "first_name", "last_name", "email", "city", "country", "tier", "credit_limit",
                      "deleted_at", "snap_timestamp"}
    ensures Resolves(Nodes, Parsed(Written([q]))) <==>
            q.key in {"node_id", "created_at", "updated_at", "snap_timestamp"}
  {
    OneResolves(Customers, q);
    OneResolves(Nodes, q);
  }

  /** A node with at least the given properties. */
  function NodeWith(tag: string, props: map<string, string>, deleted: Option<bool>): (n: Node)
    ensures forall k :: k in props ==> k in Props(n) && Props(n)[k] == props[k]
  {
    var id := IdColumn(TableOf(tag));
    Node(tag, if id in props then props[id] else "x", props, deleted)
  }

  /** Does some row meet what the query asks before the first OR? */
  ghost predicate FirstIsMet(p: NodePattern)
    requires p.where_ != []
  {
    exists n :: HasRow(PickTable(p.tag), n) && AllHold(RowIn(PickTable(p.tag), n), Prefix(p)) &&
                AllHold(RowIn(PickTable(p.tag), n), SplicedConds(p.where_[0]))
  }

  /** The first disjunct of a disjunctive WHERE escapes the deletion filter. */
  lemma {:induction false} DisjunctionLeaksDeleted(p: NodePattern)
    requires |p.where_| >= 2 && FirstIsMet(p)
    ensures !PreservesMeaning(p)
  {
    if IsAnswered(p) {
      var t := PickTable(p.tag);
      var n :| HasRow(t, n) && AllHold(RowIn(t, n), Prefix(p)) && AllHold(RowIn(t, n), SplicedConds(p.where_[0]));
      var dead := n.(deleted := Some(true));
      SameButDeleted(t, n, p);
      AllHoldConcat(RowIn(t, dead), Prefix(p), SplicedConds(p.where_[0]));
      assert Translate(p)[0] == Prefix(p) + SplicedConds(p.where_[0]);
      assert TextHolds(RowIn(t, dead), Translate(p));
      Disagree(p, dead);
    } else {
      UnansweredFails(p);
    }
  }

  lemma {:induction false} SameButDeleted(t: TableName, n: Node, p: NodePattern)
    requires p.where_ != []
    ensures var r, dead := RowIn(t, n), RowIn(t, n.(deleted := Some(true)));
            (AllHold(r, Prefix(p)) ==> AllHold(dead, Prefix(p))) &&
            (AllHold(r, SplicedConds(p.where_[0])) ==> AllHold(dead, SplicedConds(p.where_[0])))
  {
    assert RowIn(t, n.(deleted := Some(true))).cols == RowIn(t, n).cols;
  }

  /** Where commas and dotted words do not interfere, the first disjunct is met if it can be met as written. */
  lemma {:induction false} WrittenIsMet(p: NodePattern, props: map<string, string>)
    requires NodeResolves(p) && p.where_ != [] && AllPlain(p.where_[0]) && NoComma(p.props)
    requires Has(props, p.props) && Has(props, p.where_[0])
    ensures FirstIsMet(p)
  {
    var t := PickTable(p.tag);
    var tag := if t == Customers then "Customer" else TypeName(p.tag);
    var n := NodeWith(tag, props, None);
    TypeNameTable(p.tag);
    TypeCondsHold(n, p.tag);
    InlineCondsHold(n, t, p.props);
    SplicedStable(p.where_[0]);
    ColCondsHold(n, t, p.where_[0]);
    AllHoldConcat(RowIn(t, n), TypeConds(p.tag), InlineConds(p.props));
  }

  lemma {:induction false} TypeNameTable(tag: string)
    ensures PickTable(tag) == Nodes ==> TableOf(TypeName(tag)) == Nodes
  {
    if TypeName(tag) == "Customer" {
      CapitalizedLower(tag);
      SpellsCustomer(Lower(tag));
    }
  }

  lemma {:induction false} SpellsCustomer(low: string)
    requires |low| > 0 && UpperChar(low[0]) == 'C' && LowerChar(low[0]) == low[0] && low[1..] == "Customer"[1..]
    ensures low == "customer"
  {
    assert low[0] == 'c';
    assert low == [low[0]] + low[1..];
    assert "Customer"[1..] == "ustomer";
  }

  lemma {:induction false} CapitalizedLower(tag: string)
    requires TypeName(tag) != ""
    ensures var low := Lower(tag);
            |low| > 0 && TypeName(tag)[0] == UpperChar(low[0]) && LowerChar(low[0]) == low[0] &&
            TypeName(tag)[1..] == low[1..]
  {
    var low := Lower(tag);
    assert Lower(low[1..]) == low[1..];
  }

  function FirstDisjunct(t: Text): seq<Property> {
    if t == [] then [] else t[0]
  }

  /** Property values that meet the inline properties together with the first disjunct. */
  predicate MeetsWritten(p: NodePattern, props: map<string, string>) {
    Has(props, p.props) && Has(props, FirstDisjunct(p.where_))
  }

  /** A live node with such properties matches. */
  lemma {:induction false} NodeWithMatches(p: NodePattern, props: map<string, string>)
    requires MeetsWritten(p, props)
    ensures Matches(p, NodeWith(p.tag, props, None))
  {
    var n := NodeWith(p.tag, props, None);
    if p.where_ != [] {
      assert Has(Props(n), p.where_[0]);
    }
  }

  /** A label that is not spelled as the translator spells it is never found. */
  lemma {:induction false} OddLabelIsMissed(p: NodePattern, props: map<string, string>)
    requires !IsCanonical(p.tag) && |p.where_| <= 1 && MeetsWritten(p, props)
    ensures !PreservesMeaning(p)
  {
    if IsAnswered(p) {
      var n := NodeWith(p.tag, props, None);
      NodeWithMatches(p, props);
      ConjunctiveMeaning(p, RowIn(PickTable(p.tag), n));
      CanonicalCustomer();
      if HasRow(PickTable(p.tag), n) {
        TypeCondsHold(n, p.tag);
      }
      Disagree(p, n);
    } else {
      UnansweredFails(p);
    }
  }

  lemma {:induction false} CanonicalCustomer()
    ensures IsCanonical("Customer")
  {
    LowerCustomer();
    assert Lower("customer"[1..]) == "ustomer";
  }

  /** A row that has a literal as it was does not meet the condition with the literal stripped. */
  lemma {:induction false} StrippedMisses(n: Node, t: TableName, eqs: seq<Property>)
    requires TableOf(n.tag) == t && Has(Props(n), eqs) && !AllPlain(eqs)
    ensures !AllHold(RowIn(t, n), SplicedConds(eqs))
  {
    var q :| q in eqs && !IsPlain(q);
    PlainMeans(q.val);
    var j :| 0 <= j < |eqs| && eqs[j] == q;
    assert SplicedConds(eqs)[j] in SplicedConds(eqs);
    assert !Holds(RowIn(t, n), SplicedConds(eqs)[j]);
  }

  /** Nor does it meet the condition with the literal cut at a comma. */
  lemma {:induction false} CutMisses(n: Node, t: TableName, props: seq<Property>)
    requires TableOf(n.tag) == t && Has(Props(n), props) && !NoComma(props)
    ensures !AllHold(RowIn(t, n), InlineConds(props))
  {
    var q :| q in props && ',' in q.val;
    var f := WrittenKeyIsRead(props, q);
    var eqs := Parsed(Written(props));
    var j :| 0 <= j < |eqs| && eqs[j] == f;
    assert ColConds(eqs)[j] in ColConds(eqs);
    assert !Holds(RowIn(t, n), ColConds(eqs)[j]);
  }

  /** A node that matches is not selected if a literal changes. */
  lemma {:induction false} ChangedMisses(p: NodePattern, n: Node)
    requires |p.where_| <= 1 && Matches(p, n) && TableOf(n.tag) == PickTable(p.tag)
    requires !IsStable(p.where_) || !NoComma(p.props)
    ensures !TextHolds(RowIn(PickTable(p.tag), n), Translate(p))
  {
    var t := PickTable(p.tag);
    if NoComma(p.props) {
      assert p.where_ != [] && Has(Props(n), p.where_[0]);
      StrippedMisses(n, t, p.where_[0]);
    } else {
      CutMisses(n, t, p.props);
    }
    ConjunctiveMeaning(p, RowIn(t, n));
  }

  lemma {:induction false} ChangedLiteralIsMissed(p: NodePattern, props: map<string, string>)
    requires IsCanonical(p.tag) && |p.where_| <= 1 && MeetsWritten(p, props)
    requires !IsStable(p.where_) || !NoComma(p.props)
    ensures !PreservesMeaning(p)
  {
    if IsAnswered(p) {
      var n := NodeWith(p.tag, props, None);
      CanonicalTable(p.tag);
      NodeWithMatches(p, props);
      ChangedMisses(p, n);
      Disagree(p, n);
    } else {
      UnansweredFails(p);
    }
  }

  /**
    The translation of a labelled node pattern preserves meaning on every graph exactly when its names are columns
    of the table, its label is spelled as the translator spells it, its WHERE has no OR and no dotted words in its
    literals, and its inline literals have no commas.  The pattern is one that can match, and with an OR one whose
    first disjunct some row can meet after the translation.
   */
  lemma {:induction false} PreservesIff(p: NodePattern)
    requires exists props :: MeetsWritten(p, props)
    requires |p.where_| >= 2 ==> FirstIsMet(p)
    ensures PreservesMeaning(p) <==>
            NodeResolves(p) && IsCanonical(p.tag) && |p.where_| <= 1 && IsStable(p.where_) && NoComma(p.props)
  {
    var props :| MeetsWritten(p, props);
    if |p.where_| >= 2 {
      DisjunctionLeaksDeleted(p);
    } else if !IsCanonical(p.tag) {
      OddLabelIsMissed(p, props);
    } else if !IsStable(p.where_) || !NoComma(p.props) {
      ChangedLiteralIsMissed(p, props);
    } else if !NodeResolves(p) {
      InlineRoundTrip(p.props);
      UnansweredFails(p);
    } else {
      ConjunctivePreserves(p);
    }
  }

  /** Dotted words: for instance an e-mail address in a WHERE. */
  lemma {:induction false} DottedLiteralIsChanged()
    ensures StripRefs("a@b.c") == "a@c"
  {
    AtTail();
    assert "a@b.c"[..1] == "a" && "a@b.c"[1..] == "@b.c";
    assert WordRun("@b.c") == 0 && WordRun("a@b.c") == 1;
  }

  lemma {:induction false} AtTail()
    ensures StripRefs("@b.c") == "@c"
  {
    DottedTail();
    assert "@b.c"[1..] == "b.c" && WordRun("@b.c") == 0;
  }

  lemma {:induction false} DottedTail()
    ensures StripRefs("b.c") == "c"
  {
    assert "b.c"[1..] == ".c" && ".c"[1..] == "c" && "c"[1..] == "";
    assert WordRun(".c") == 0 && WordRun("b.c") == 1 && WordRun("c") == 1;
    assert ".c"[1..2] == "c" && ".c"[2..] == "";
  }

  // ---- Relationship patterns ----

  /** (a:A {..})-[r:REL]->(b:B {..}), the type of the relationship being optional. */
  datatype RelPattern = RelPattern(aTag: string, aProps: seq<Property>, rel: Option<string>,
                                   bTag: string, bProps: seq<Property>)

  predicate IsLiveEdge(e: Edge) { e.deleted != Some(true) }

  /** What the pattern means, on nodes and relationships that are not deleted. */
  predicate RelMatches(p: RelPattern, a: Node, e: Edge, b: Node) {
    && a.tag == p.aTag && Has(Props(a), p.aProps) && IsLive(a)
    && b.tag == p.bTag && Has(Props(b), p.bProps) && IsLive(b)
    && e.srcTag == a.tag && e.src == a.id && e.tgtTag == b.tag && e.tgt == b.id && IsLiveEdge(e)
    && (p.rel.Some? ==> e.rel == p.rel.value)
  }

  predicate HasId(r: Row, id: string) { "node_id" in r.cols && r.cols["node_id"] == id }

  /** What the generated join asks of one end. */
  predicate EndHolds(r: Row, id: string, props: seq<Property>) {
    HasId(r, id) && Holds(r, NotDeleted) && AllHold(r, InlineConds(props))
  }

  /** The generated join: endpoints by node_id alone, labels only on the edge, and no look at the edge's own flag. */
  predicate Joined(p: RelPattern, a: Row, e: Edge, b: Row) {
    && EndHolds(a, e.src, p.aProps) && EndHolds(b, e.tgt, p.bProps)
    && e.srcTag == TypeName(p.aTag) && e.tgtTag == TypeName(p.bTag)
    && (p.rel.Some? ==> e.rel == Upper(p.rel.value))
  }

  /** The join compares node_id at both ends, which the customers table lacks. */
  predicate RelIsAnswered(p: RelPattern) {
    && PickTable(p.aTag) == Nodes && PickTable(p.bTag) == Nodes
    && Resolves(Nodes, Parsed(Written(p.aProps))) && Resolves(Nodes, Parsed(Written(p.bProps)))
  }

  function JoinedRows(g: Graph, p: RelPattern): Option<set<(Row, Edge, Row)>> {
    if RelIsAnswered(p) then
      Some(set a, e, b | a in Rows(g, Nodes) && e in g.edges && b in Rows(g, Nodes) && Joined(p, a, e, b) :: (a, e, b))
    else None
  }

  function Triple(a: Node, e: Edge, b: Node): (Row, Edge, Row) { (RowIn(Nodes, a), e, RowIn(Nodes, b)) }

  function RelMatched(g: Graph, p: RelPattern): set<(Row, Edge, Row)> {
    set a, e, b | a in g.nodes && e in g.edges && b in g.nodes && RelMatches(p, a, e, b) :: Triple(a, e, b)
  }

  ghost predicate RightFor(g: Graph, p: RelPattern) { JoinedRows(g, p) == Some(RelMatched(g, p)) }

  /** An end that is not a customer, spelled as the translator spells it, with columns only and no commas. */
  predicate EndIsFaithful(tag: string, props: seq<Property>) {
    tag != "Customer" && IsCanonical(tag) && Resolves(Nodes, props) && NoComma(props)
  }

  predicate RelIsFaithful(p: RelPattern) {
    EndIsFaithful(p.aTag, p.aProps) && EndIsFaithful(p.bTag, p.bProps) &&
    (p.rel.Some? ==> Upper(p.rel.value) == p.rel.value)
  }

  /** A label that a pattern can ask for at an end of a relationship. */
  predicate CanBeAsked(tag: string) { IsCanonical(tag) && tag != "Customer" }

  /** Could a and b stand, by their ids, at the ends of e in an answer? All nodes have a row in the nodes table. */
  predicate Joinable(a: Node, e: Edge, b: Node) {
    && IsLive(a) && a.id == e.src && CanBeAsked(e.srcTag)
    && IsLive(b) && b.id == e.tgt && CanBeAsked(e.tgtTag)
  }

  /** Is e live, and do a and b carry the labels that it gives its ends? */
  predicate Faithful(a: Node, e: Edge, b: Node) {
    a.tag == e.srcTag && b.tag == e.tgtTag && IsLiveEdge(e)
  }

  /** Wherever both ends of an edge can be joined, the edge is live and its labels are those of the joined nodes. */
  ghost predicate EdgesAreFaithful(g: Graph) {
    forall a, e, b :: a in g.nodes && e in g.edges && b in g.nodes && Joinable(a, e, b) ==> Faithful(a, e, b)
  }

  lemma {:induction false} EndMeaning(n: Node, id: string, props: seq<Property>)
    requires EndIsFaithful(n.tag, props)
    ensures EndHolds(RowIn(Nodes, n), id, props) <==> n.id == id && IsLive(n) && Has(Props(n), props)
  {
    InlineCondsHold(n, Nodes, props);
  }

  lemma {:induction false} FaithfulIsAnswered(p: RelPattern)
    requires RelIsFaithful(p)
    ensures RelIsAnswered(p)
  {
    CanonicalTable(p.aTag);
    CanonicalTable(p.bTag);
    InlineRoundTrip(p.aProps);
    InlineRoundTrip(p.bProps);
  }

  lemma {:induction false} JoinAgrees(p: RelPattern, a: Node, e: Edge, b: Node)
    requires Joinable(a, e, b) ==> Faithful(a, e, b)
    requires RelIsFaithful(p)
    ensures RelMatches(p, a, e, b) <==> Joined(p, RowIn(Nodes, a), e, RowIn(Nodes, b))
  {
    if a.tag == p.aTag && b.tag == p.bTag {
      EndMeaning(a, e.src, p.aProps);
      EndMeaning(b, e.tgt, p.bProps);
    }
  }

  lemma {:induction false} RelPreserves(g: Graph, p: RelPattern)
    requires EdgesAreFaithful(g) && RelIsFaithful(p)
    ensures RightFor(g, p)
  {
    FaithfulIsAnswered(p);
    forall t | t in JoinedRows(g, p).value ensures t in RelMatched(g, p) {
      var (ra, e, rb) := t;
      var a :| a in g.nodes && RowIn(Nodes, a) == ra;
      var b :| b in g.nodes && RowIn(Nodes, b) == rb;
      JoinAgrees(p, a, e, b);
      assert t == Triple(a, e, b);
    }
    forall t | t in RelMatched(g, p) ensures t in JoinedRows(g, p).value {
      var a, e, b :| a in g.nodes && e in g.edges && b in g.nodes && RelMatches(p, a, e, b) && t == Triple(a, e, b);
      JoinAgrees(p, a, e, b);
    }
    assert JoinedRows(g, p).value == RelMatched(g, p);
  }

  /** Asking for the labels of an edge, and nothing else. */
  function ByLabels(e: Edge): RelPattern { RelPattern(e.srcTag, [], None, e.tgtTag, []) }

  /** Every edge that can be joined comes back, whatever else the graph holds. */
  lemma {:induction false} JoinableIsReturned(g: Graph, a: Node, e: Edge, b: Node)
    requires a in g.nodes && e in g.edges && b in g.nodes && Joinable(a, e, b)
    ensures RelIsFaithful(ByLabels(e))
    ensures JoinedRows(g, ByLabels(e)).Some? && Triple(a, e, b) in JoinedRows(g, ByLabels(e)).value
  {
    var p := ByLabels(e);
    FaithfulIsAnswered(p);
    InlineRoundTrip([]);
    assert RowIn(Nodes, a) in Rows(g, Nodes) && RowIn(Nodes, b) in Rows(g, Nodes);
    assert Joined(p, RowIn(Nodes, a), e, RowIn(Nodes, b));
  }

  /** One that can be joined without being faithful is a wrong answer to the pattern made of its own labels. */
  lemma {:induction false} UnfaithfulIsWrong(g: Graph, a: Node, e: Edge, b: Node)
    requires a in g.nodes && e in g.edges && b in g.nodes && Joinable(a, e, b) && !Faithful(a, e, b)
    ensures RelIsFaithful(ByLabels(e)) && !RightFor(g, ByLabels(e))
  {
    JoinableIsReturned(g, a, e, b);
    if Triple(a, e, b) in RelMatched(g, ByLabels(e)) {
      var c, f, d :| c in g.nodes && f in g.edges && d in g.nodes && RelMatches(ByLabels(e), c, f, d) &&
                     Triple(c, f, d) == Triple(a, e, b);
      SameLabel(a, c);
      SameLabel(b, d);
      assert false;
    }
  }

  /** The nodes table tells labels. */
  lemma {:induction false} SameLabel(a: Node, b: Node)
    requires RowIn(Nodes, a) == RowIn(Nodes, b)
    ensures a.tag == b.tag
  {
    assert RowIn(Nodes, a).cols["node_type"] == a.tag && RowIn(Nodes, b).cols["node_type"] == b.tag;
  }

  /**
    For patterns that the translation leaves as they are, the join returns exactly the live matches on a graph
    exactly when no edge of the graph that can be joined is deleted or meets, by a shared id, a node of another
    label.
   */
  lemma {:induction false} RelPreservesIffFaithful(g: Graph)
    ensures EdgesAreFaithful(g) <==> forall p :: RelIsFaithful(p) ==> RightFor(g, p)
  {
    if EdgesAreFaithful(g) {
      forall p | RelIsFaithful(p) ensures RightFor(g, p) {
        RelPreserves(g, p);
      }
    } else {
      var a, e, b :| a in g.nodes && e in g.edges && b in g.nodes && Joinable(a, e, b) && !Faithful(a, e, b);
      UnfaithfulIsWrong(g, a, e, b);
    }
  }

  function Between(a: Node, e: Edge, b: Node): Graph { Graph({a, b}, {e}) }

  /** A match that the join misses. */
  lemma {:induction false} MissedMatch(p: RelPattern, a: Node, e: Edge, b: Node)
    requires RelMatches(p, a, e, b) && !Joined(p, RowIn(Nodes, a), e, RowIn(Nodes, b))
    ensures !RightFor(Between(a, e, b), p)
  {
    var g := Between(a, e, b);
    assert a in g.nodes && e in g.edges && b in g.nodes;
    assert Triple(a, e, b) in RelMatched(g, p);
  }

  /** An answered pattern that the translation changes misses what it matches. */
  lemma {:induction false} ChangedIsMissed(p: RelPattern, a: Node, e: Edge, b: Node)
    requires RelMatches(p, a, e, b) && RelIsAnswered(p) && !RelIsFaithful(p)
    ensures !Joined(p, RowIn(Nodes, a), e, RowIn(Nodes, b))
  {
    AnsweredResolves(Nodes, p.aProps);
    AnsweredResolves(Nodes, p.bProps);
    CustomerIsPicked();
    if !NoComma(p.aProps) {
      CutMisses(a, Nodes, p.aProps);
    }
    if !NoComma(p.bProps) {
      CutMisses(b, Nodes, p.bProps);
    }
  }

  lemma {:induction false} CustomerIsPicked()
    ensures PickTable("Customer") == Customers
  {
    CanonicalCustomer();
    CanonicalTable("Customer");
  }

  /**
    A pattern that matches something on a faithful graph is right on all of them exactly when neither end is a
    customer, its labels and type are spelled as the translator spells them, and its inline properties are columns
    with literals that have no commas.
   */
  lemma {:induction false} RelPatternPreservesIff(p: RelPattern)
    requires exists a, e, b :: RelMatches(p, a, e, b) && EdgesAreFaithful(Between(a, e, b))
    ensures (forall g :: EdgesAreFaithful(g) ==> RightFor(g, p)) <==> RelIsFaithful(p)
  {
    if RelIsFaithful(p) {
      forall g | EdgesAreFaithful(g) ensures RightFor(g, p) {
        RelPreserves(g, p);
      }
    } else if RelIsAnswered(p) {
      var a, e, b :| RelMatches(p, a, e, b) && EdgesAreFaithful(Between(a, e, b));
      ChangedIsMissed(p, a, e, b);
      MissedMatch(p, a, e, b);
    } else {
      assert EdgesAreFaithful(Graph({}, {})) && !RightFor(Graph({}, {}), p);
    }
  }

  /** A deleted relationship between two live nodes is returned, whatever the rest of the graph. */
  lemma {:induction false} DeletedEdgeIsReturned(g: Graph, a: Node, e: Edge, b: Node)
    requires a in g.nodes && e in g.edges && b in g.nodes && Joinable(a, e, b) && e.deleted == Some(true)
    ensures !RightFor(g, ByLabels(e))
    ensures JoinedRows(g, ByLabels(e)).Some? && Triple(a, e, b) in JoinedRows(g, ByLabels(e)).value
  {
    JoinableIsReturned(g, a, e, b);
    UnfaithfulIsWrong(g, a, e, b);
  }
}
