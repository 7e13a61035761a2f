/**
  Columns of nested types: a column builds one child column per component of its type, and two separate
  recursions serialise the tree, one for Thrift and one for protobuf.
 */
module ColumnTree {
  import opened Prelude

  datatype Type =
    | Scalar(primitive: string)
    | Array(item: Type, itemNull: bool)
    | Map(key: Type, value: Type, keyNull: bool, valueNull: bool)
    | Struct(fields: seq<Field>)

  datatype Field = Field(name: string, typ: Type, containsNull: bool)

  const ARRAY_CHILD := "item"
  const MAP_KEY := "key"
  const MAP_VALUE := "value"

  /** Marks the columns of a schema change in progress. */
  const SHADOW_NAME_PREFIX := "__doris_shadow_"

  function RemoveNamePrefix(name: string): string {
    if SHADOW_NAME_PREFIX <= name then name[|SHADOW_NAME_PREFIX|..] else name
  }

  /** The value of a column: the list of children stays null until a child is added. */
  datatype Tree = Tree(name: string, typ: Type, nullable: bool, children: Children)

  datatype Children = NullList | List(cols: seq<Tree>)

  // ---- Building ----

  function Built(name: string, typ: Type, nullable: bool): Tree
    decreases typ, 1
  {
    Tree(name, typ, nullable, BuiltChildren(typ))
  }

  function BuiltChildren(typ: Type): Children
    decreases typ, 0
  {
    match typ
    case Scalar(_) => NullList
    case Array(item, itemNull) => List([Built(ARRAY_CHILD, item, itemNull)])
    case Map(key, value, keyNull, valueNull) => List([Built(MAP_KEY, key, keyNull), Built(MAP_VALUE, value, valueNull)])
    case Struct(fields) => if fields == [] then NullList else List(BuiltFields(fields))
  }

  function BuiltFields(fields: seq<Field>): (r: seq<Tree>)
    ensures |r| == |fields|
    ensures forall i :: 0 <= i < |fields| ==> r[i] == Built(fields[i].name, fields[i].typ, fields[i].containsNull)
    decreases fields, 2
  {
    if fields == [] then []
    else [Built(fields[0].name, fields[0].typ, fields[0].containsNull)] + BuiltFields(fields[1..])
  }

  // ---- What is written out ----

  const NO_AGGREGATION := "NONE"

  /** A serialised column; a list of children that was never set counts as empty. */
  datatype Out = Out(name: string, tag: string, nullable: bool, aggregation: string, children: seq<Out>)

  function Tag(typ: Type): string {
    match typ
    case Scalar(p) => p
    case Array(_, _) => "ARRAY"
    case Map(_, _, _, _) => "MAP"
    case Struct(_) => "STRUCT"
  }

  function Cons(first: Option<Out>, rest: Option<seq<Out>>): Option<seq<Out>> {
    if first.Some? && rest.Some? then Some([first.value] + rest.value) else None
  }

  function Single(only: Option<Out>): Option<seq<Out>> {
    if only.Some? then Some([only.value]) else None
  }

  function Both(first: Option<Out>, second: Option<Out>): Option<seq<Out>> {
    if first.Some? && second.Some? then Some([first.value, second.value]) else None
  }

  /** None stands for the exception that a missing list of children causes. */
  function ThriftChildren(t: Tree, aggregation: string): Option<seq<Out>>
    decreases t, 0
  {
    match t.typ
    case Scalar(_) => Some([])
    case Array(_, _) =>
      if t.children.List? && |t.children.cols| >= 1 then Single(ThriftChild(t.children.cols[0], aggregation)) else None
    case Map(_, _, _, _) =>
      if t.children.List? && |t.children.cols| >= 2 then
        Both(ThriftChild(t.children.cols[0], aggregation), ThriftChild(t.children.cols[1], aggregation))
      else None
    case Struct(_) => if t.children.List? then ThriftAll(t.children.cols, aggregation) else None
  }

  function ThriftAll(cols: seq<Tree>, aggregation: string): Option<seq<Out>>
    decreases cols, 2
  {
    if cols == [] then Some([]) else Cons(ThriftChild(cols[0], aggregation), ThriftAll(cols[1..], aggregation))
  }

  /** A Thrift child keeps its name as it is and takes over the aggregation of its parent. */
  function ThriftChild(t: Tree, aggregation: string): Option<Out>
    decreases t, 1
  {
    var outs := ThriftChildren(t, aggregation);
    if outs.None? then None else Some(Out(t.name, Tag(t.typ), t.nullable, aggregation, outs.value))
  }

  function ThriftRoot(t: Tree, aggregation: string): Option<Out> {
    var outs := ThriftChildren(t, aggregation);
    if outs.None? then None
    else Some(Out(RemoveNamePrefix(t.name), Tag(t.typ), t.nullable, aggregation, outs.value))
  }

  /** A protobuf column drops the prefix at every level, and only the root has an aggregation. */
  function Pb(t: Tree, aggregation: string): Option<Out>
    decreases t, 1
  {
    var outs := PbChildren(t);
    if outs.None? then None
    else Some(Out(RemoveNamePrefix(t.name), Tag(t.typ), t.nullable, aggregation, outs.value))
  }

  function PbChildren(t: Tree): Option<seq<Out>>
    decreases t, 0
  {
    match t.typ
    case Scalar(_) => Some([])
    case Array(_, _) =>
      if t.children.List? && |t.children.cols| >= 1 then Single(Pb(t.children.cols[0], NO_AGGREGATION)) else None
    case Map(_, _, _, _) =>
      if t.children.List? && |t.children.cols| >= 2 then
        Both(Pb(t.children.cols[0], NO_AGGREGATION), Pb(t.children.cols[1], NO_AGGREGATION))
      else None
    case Struct(_) => if t.children.List? then PbAll(t.children.cols) else None
  }

  function PbAll(cols: seq<Tree>): Option<seq<Out>>
    decreases cols, 2
  {
    if cols == [] then Some([]) else Cons(Pb(cols[0], NO_AGGREGATION), PbAll(cols[1..]))
  }

  // ---- The column objects ----

  /** What a loop over columns has so far, followed by what is still to come. */
  function Prepend(outs: seq<Out>, rest: Option<seq<Out>>): Option<seq<Out>> {
    if rest.Some? then Some(outs + rest.value) else None
  }

  lemma {:induction false} PrependStep(done: seq<Out>, first: Option<Out>, rest: Option<seq<Out>>)
    ensures Prepend(done, Cons(first, rest)) == if first.Some? then Prepend(done + [first.value], rest) else None
    ensures Prepend([], rest) == rest
  {
    if first.Some? && rest.Some? {
      assert done + ([first.value] + rest.value) == done + [first.value] + rest.value;
    }
    if rest.Some? {
      assert [] + rest.value == rest.value;
    }
  }

  lemma {:induction false} ThriftAllStep(cols: seq<Tree>, i: nat, aggregation: string)
    requires i < |cols|
    ensures ThriftAll(cols[i..], aggregation) ==
            Cons(ThriftChild(cols[i], aggregation), ThriftAll(cols[i + 1..], aggregation))
  {
    assert cols[i..][1..] == cols[i + 1..];
  }

  lemma {:induction false} PbAllStep(cols: seq<Tree>, i: nat)
    requires i < |cols|
    ensures PbAll(cols[i..]) == Cons(Pb(cols[i], NO_AGGREGATION), PbAll(cols[i + 1..]))
  {
    assert cols[i..][1..] == cols[i + 1..];
  }

  class Column {
    var name: string
    var typ: Type
    var isAllowNull: bool
    var aggregationType: Option<string>
    var children: seq<Column>
    var hasChildren: bool
    ghost var Repr: set<object>
    ghost var shape: Tree

    ghost predicate Valid()
      reads this, Repr
      ensures Valid() ==> this in Repr
      decreases Repr
    {
      && this in Repr
      && (forall c :: c in children ==>
            c in Repr && c.Repr < Repr && this !in c.Repr && c.Valid() && c.aggregationType.None?)
      && shape.name == name && shape.typ == typ && shape.nullable == isAllowNull
      && (if hasChildren then
            shape.children.List? && |shape.children.cols| == |children| &&
            forall i :: 0 <= i < |children| ==> children[i].shape == shape.children.cols[i]
          else shape.children == NullList && children == [])
    }

    constructor (name: string, typ: Type, aggregationType: Option<string>, isAllowNull: bool)
      ensures Valid() && fresh(Repr)
      ensures shape == Built(name, typ, isAllowNull) && this.aggregationType == aggregationType
      decreases typ, 1
    {
      this.name, this.typ, this.aggregationType, this.isAllowNull := name, typ, aggregationType, isAllowNull;
      children, hasChildren := [], false;
      Repr := {this};
      shape := Tree(name, typ, isAllowNull, NullList);
      new;
      CreateChildrenColumn(typ);
    }

    method SetIsAllowNull(b: bool)
      requires Valid()
      modifies this`isAllowNull, this`shape
      ensures Valid() && shape == old(shape).(nullable := b)
      ensures Repr == old(Repr)
    {
      isAllowNull := b;
      shape := shape.(nullable := b);
    }

    method AddChildrenColumn(c: Column)
      requires Valid() && c.Valid() && this !in c.Repr && c.aggregationType.None?
      modifies this`children, this`hasChildren, this`Repr, this`shape
      ensures Valid() && hasChildren && Repr == old(Repr) + c.Repr
      ensures shape ==
              old(shape).(children := List((if old(hasChildren) then old(shape).children.cols else []) + [c.shape]))
    {
      if !hasChildren {
        hasChildren, children := true, [];
        shape := shape.(children := List([]));
      }
      children := children + [c];
      Repr := Repr + c.Repr;
      shape := shape.(children := List(shape.children.cols + [c.shape]));
    }

    method CreateChildrenColumn(t: Type)
      requires Valid() && !hasChildren
      modifies this`children, this`hasChildren, this`Repr, this`shape
      ensures Valid() && fresh(Repr - old(Repr))
      ensures shape == old(shape).(children := BuiltChildren(t))
      decreases t, 0
    {
      match t
      case Scalar(_) =>
      case Array(item, itemNull) =>
        var c := NewChild(ARRAY_CHILD, item, itemNull);
        AddChildrenColumn(c);
      case Map(key, value, keyNull, valueNull) =>
        var k := NewChild(MAP_KEY, key, keyNull);
        var v := NewChild(MAP_VALUE, value, valueNull);
        AddChildrenColumn(k);
        AddChildrenColumn(v);
      case Struct(fields) =>
        CreateFieldColumns(fields);
    }

    static method NewChild(name: string, typ: Type, nullable: bool) returns (c: Column)
      ensures c.Valid() && fresh(c.Repr) && c.aggregationType.None?
      ensures c.shape == Built(name, typ, nullable)
      decreases typ, 2
    {
      c := new Column(name, typ, None, false);
      c.SetIsAllowNull(nullable);
    }

    method CreateFieldColumns(fields: seq<Field>)
      requires Valid() && !hasChildren
      modifies this`children, this`hasChildren, this`Repr, this`shape
      ensures Valid() && fresh(Repr - old(Repr))
      ensures shape == old(shape).(children := if fields == [] then NullList else List(BuiltFields(fields)))
      decreases fields, 2
    {
      ghost var built := BuiltFields(fields);
      for i := 0 to |fields|
        invariant Valid() && fresh(Repr - old(Repr))
        invariant hasChildren <==> i > 0
        invariant shape == old(shape).(children := if i == 0 then NullList else List(built[..i]))
      {
        var c := NewChild(fields[i].name, fields[i].typ, fields[i].containsNull);
        AddChildrenColumn(c);
        assert built[..i + 1] == built[..i] + [built[i]];
      }
      assert built[..|fields|] == built;
    }

    function Aggregation(): string
      reads this
    {
      if aggregationType.Some? then aggregationType.value else NO_AGGREGATION
    }

    method ToThrift() returns (out: Option<Out>)
      requires Valid()
      ensures out == ThriftRoot(shape, if aggregationType.Some? then aggregationType.value else "NONE")
    {
      var outs := ToChildrenThrift(Aggregation());
      if outs.None? {
        return None;
      }
      out := Some(Out(RemoveNamePrefix(name), Tag(typ), isAllowNull, Aggregation(), outs.value));
    }

    /** This column as a child of a Thrift column with the given aggregation. */
    method SetChildrenTColumn(aggregation: string) returns (out: Option<Out>)
      requires Valid()
      ensures out == ThriftChild(shape, aggregation)
      decreases Repr, 1
    {
      var outs := ToChildrenThrift(aggregation);
      if outs.None? {
        return None;
      }
      out := Some(Out(name, Tag(typ), isAllowNull, aggregation, outs.value));
    }

    method ToChildrenThrift(aggregation: string) returns (outs: Option<seq<Out>>)
      requires Valid()
      ensures outs == ThriftChildren(shape, aggregation)
      decreases Repr, 0
    {
      match typ
      case Scalar(_) => outs := Some([]);
      case Array(_, _) =>
        if !hasChildren || |children| < 1 { return None; }
        var item := children[0].SetChildrenTColumn(aggregation);
        outs := Single(item);
      case Map(_, _, _, _) =>
        if !hasChildren || |children| < 2 { return None; }
        var k := children[0].SetChildrenTColumn(aggregation);
        var v := children[1].SetChildrenTColumn(aggregation);
        outs := Both(k, v);
      case Struct(_) =>
        if !hasChildren { return None; }
        ghost var cols := shape.children.cols;
        var done: seq<Out> := [];
        assert cols[0..] == cols;
        PrependStep([], None, ThriftAll(cols, aggregation));
        for i := 0 to |children|
          invariant ThriftAll(cols, aggregation) == Prepend(done, ThriftAll(cols[i..], aggregation))
        {
          var out := children[i].SetChildrenTColumn(aggregation);
          ThriftAllStep(cols, i, aggregation);
          PrependStep(done, out, ThriftAll(cols[i + 1..], aggregation));
          if out.None? { return None; }
          done := done + [out.value];
        }
        assert cols[|children|..] == [] && done + [] == done;
        outs := Some(done);
    }

    method ToPb() returns (out: Option<Out>)
      requires Valid()
      ensures out == Pb(shape, if aggregationType.Some? then aggregationType.value else "NONE")
      decreases Repr, 1
    {
      var outs := ChildrenToPb();
      if outs.None? {
        return None;
      }
      out := Some(Out(RemoveNamePrefix(name), Tag(typ), isAllowNull, Aggregation(), outs.value));
    }

    method ChildrenToPb() returns (outs: Option<seq<Out>>)
      requires Valid()
      ensures outs == PbChildren(shape)
      decreases Repr, 0
    {
      match typ
      case Scalar(_) => outs := Some([]);
      case Array(_, _) =>
        if !hasChildren || |children| < 1 { return None; }
        var item := children[0].ToPb();
        outs := Single(item);
      case Map(_, _, _, _) =>
        if !hasChildren || |children| < 2 { return None; }
        var k := children[0].ToPb();
        var v := children[1].ToPb();
        outs := Both(k, v);
      case Struct(_) =>
        if !hasChildren { return None; }
        ghost var cols := shape.children.cols;
        var done: seq<Out> := [];
        assert cols[0..] == cols;
        PrependStep([], None, PbAll(cols));
        for i := 0 to |children|
          invariant PbAll(cols) == Prepend(done, PbAll(cols[i..]))
        {
          var out := children[i].ToPb();
          PbAllStep(cols, i);
          PrependStep(done, out, PbAll(cols[i + 1..]));
          if out.None? { return None; }
          done := done + [out.value];
        }
        assert cols[|children|..] == [] && done + [] == done;
        outs := Some(done);
    }
  }

  // ---- What a type says should be written ----

  /** Every struct, at any depth, has a field. */
  predicate NoEmptyStruct(typ: Type)
    decreases typ, 1
  {
    match typ
    case Scalar(_) => true
    case Array(item, _) => NoEmptyStruct(item)
    case Map(key, value, _, _) => NoEmptyStruct(key) && NoEmptyStruct(value)
    case Struct(fields) => fields != [] && NoEmptyStructIn(fields)
  }

  predicate NoEmptyStructIn(fields: seq<Field>)
    decreases fields, 2
  {
    fields == [] || (NoEmptyStruct(fields[0].typ) && NoEmptyStructIn(fields[1..]))
  }

  /** No struct field, at any depth, has a shadow name. */
  predicate NoShadowName(typ: Type)
    decreases typ, 1
  {
    match typ
    case Scalar(_) => true
    case Array(item, _) => NoShadowName(item)
    case Map(key, value, _, _) => NoShadowName(key) && NoShadowName(value)
    case Struct(fields) => NoShadowNameIn(fields)
  }

  predicate NoShadowNameIn(fields: seq<Field>)
    decreases fields, 2
  {
    fields == [] ||
    (!(SHADOW_NAME_PREFIX <= fields[0].name) && NoShadowName(fields[0].typ) && NoShadowNameIn(fields[1..]))
  }

  /** The tree that a type describes, read off the type alone; strip says whether field names lose the prefix. */
  function Described(name: string, typ: Type, nullable: bool, strip: bool, aggregation: string): Out
    decreases typ, 1
  {
    Out(if strip then RemoveNamePrefix(name) else name, Tag(typ), nullable, aggregation,
        DescribedChildren(typ, strip, aggregation))
  }

  function DescribedChildren(typ: Type, strip: bool, aggregation: string): seq<Out>
    decreases typ, 0
  {
    match typ
    case Scalar(_) => []
    case Array(item, itemNull) => [Described(ARRAY_CHILD, item, itemNull, strip, aggregation)]
    case Map(key, value, keyNull, valueNull) =>
      [Described(MAP_KEY, key, keyNull, strip, aggregation), Described(MAP_VALUE, value, valueNull, strip, aggregation)]
    case Struct(fields) => DescribedFields(fields, strip, aggregation)
  }

  function DescribedFields(fields: seq<Field>, strip: bool, aggregation: string): seq<Out>
    decreases fields, 2
  {
    if fields == [] then []
    else [Described(fields[0].name, fields[0].typ, fields[0].containsNull, strip, aggregation)] +
         DescribedFields(fields[1..], strip, aggregation)
  }

  lemma {:induction false} ThriftChildIsDescribed(name: string, typ: Type, nullable: bool, aggregation: string)
    ensures ThriftChild(Built(name, typ, nullable), aggregation) ==
              if NoEmptyStruct(typ) then Some(Described(name, typ, nullable, false, aggregation)) else None
    decreases typ, 1
  {
    ThriftIsDescribed(typ, Built(name, typ, nullable), aggregation);
  }

  lemma {:induction false} ThriftIsDescribed(typ: Type, t: Tree, aggregation: string)
    requires t.typ == typ && t.children == BuiltChildren(typ)
    ensures ThriftChildren(t, aggregation) ==
              if NoEmptyStruct(typ) then Some(DescribedChildren(typ, false, aggregation)) else None
    decreases typ, 0
  {
    match typ
    case Scalar(_) =>
    case Array(item, itemNull) => ThriftChildIsDescribed(ARRAY_CHILD, item, itemNull, aggregation);
    case Map(key, value, keyNull, valueNull) =>
      ThriftChildIsDescribed(MAP_KEY, key, keyNull, aggregation);
      ThriftChildIsDescribed(MAP_VALUE, value, valueNull, aggregation);
    case Struct(fields) => ThriftFieldsAreDescribed(fields, aggregation);
  }

  lemma {:induction false} ThriftFieldsAreDescribed(fields: seq<Field>, aggregation: string)
    ensures ThriftAll(BuiltFields(fields), aggregation) ==
              if NoEmptyStructIn(fields) then Some(DescribedFields(fields, false, aggregation)) else None
    decreases fields, 2
  {
    if fields != [] {
      assert BuiltFields(fields)[1..] == BuiltFields(fields[1..]);
      ThriftChildIsDescribed(fields[0].name, fields[0].typ, fields[0].containsNull, aggregation);
      ThriftFieldsAreDescribed(fields[1..], aggregation);
    }
  }

  lemma {:induction false} PbColumnIsDescribed(name: string, typ: Type, nullable: bool)
    ensures Pb(Built(name, typ, nullable), NO_AGGREGATION) ==
              if NoEmptyStruct(typ) then Some(Described(name, typ, nullable, true, NO_AGGREGATION)) else None
    decreases typ, 1
  {
    PbIsDescribed(typ, Built(name, typ, nullable));
  }

  lemma {:induction false} PbIsDescribed(typ: Type, t: Tree)
    requires t.typ == typ && t.children == BuiltChildren(typ)
    ensures PbChildren(t) == if NoEmptyStruct(typ) then Some(DescribedChildren(typ, true, NO_AGGREGATION)) else None
    decreases typ, 0
  {
    match typ
    case Scalar(_) =>
    case Array(item, itemNull) => PbColumnIsDescribed(ARRAY_CHILD, item, itemNull);
    case Map(key, value, keyNull, valueNull) =>
      PbColumnIsDescribed(MAP_KEY, key, keyNull);
      PbColumnIsDescribed(MAP_VALUE, value, valueNull);
    case Struct(fields) => PbFieldsAreDescribed(fields);
  }

  lemma {:induction false} PbFieldsAreDescribed(fields: seq<Field>)
    ensures PbAll(BuiltFields(fields)) ==
              if NoEmptyStructIn(fields) then Some(DescribedFields(fields, true, NO_AGGREGATION)) else None
    decreases fields, 2
  {
    if fields != [] {
      assert BuiltFields(fields)[1..] == BuiltFields(fields[1..]);
      PbColumnIsDescribed(fields[0].name, fields[0].typ, fields[0].containsNull);
      PbFieldsAreDescribed(fields[1..]);
    }
  }

  /**
    For every type, each serialiser of the column built from it either writes exactly the tree that the type
    describes or, exactly when some struct has no fields, fails on a missing list; they fail together.
   */
  lemma {:induction false} SerialisersDescribeType(name: string, typ: Type, nullable: bool, aggregation: string)
    ensures ThriftRoot(Built(name, typ, nullable), aggregation) ==
              if NoEmptyStruct(typ) then
                Some(Described(name, typ, nullable, false, aggregation).(name := RemoveNamePrefix(name)))
              else None
    ensures Pb(Built(name, typ, nullable), aggregation) ==
              if NoEmptyStruct(typ) then
                Some(Described(name, typ, nullable, true, NO_AGGREGATION).(aggregation := aggregation))
              else None
  {
    ThriftIsDescribed(typ, Built(name, typ, nullable), aggregation);
    PbIsDescribed(typ, Built(name, typ, nullable));
  }

  // ---- Reading the type back ----

  /** The type that a serialised column describes. */
  function TypeOf(o: Out): Type
    decreases o, 1
  {
    if o.tag == "ARRAY" && |o.children| == 1 && o.children[0].name == "item" then
      Array(TypeOf(o.children[0]), o.children[0].nullable)
    else if o.tag == "MAP" && |o.children| == 2 && o.children[0].name == "key" && o.children[1].name == "value" then
      Map(TypeOf(o.children[0]), TypeOf(o.children[1]), o.children[0].nullable, o.children[1].nullable)
    else if o.tag == "STRUCT" then Struct(FieldsOf(o.children))
    else Scalar(o.tag)
  }

  function FieldsOf(os: seq<Out>): seq<Field>
    decreases os, 2
  {
    if os == [] then [] else [Field(os[0].name, TypeOf(os[0]), os[0].nullable)] + FieldsOf(os[1..])
  }

  /** No scalar, at any depth, is called as the nested types are. */
  predicate ScalarsAreScalars(typ: Type)
    decreases typ, 1
  {
    match typ
    case Scalar(p) => p != "ARRAY" && p != "MAP" && p != "STRUCT"
    case Array(item, _) => ScalarsAreScalars(item)
    case Map(key, value, _, _) => ScalarsAreScalars(key) && ScalarsAreScalars(value)
    case Struct(fields) => ScalarsAreScalarsIn(fields)
  }

  predicate ScalarsAreScalarsIn(fields: seq<Field>)
    decreases fields, 2
  {
    fields == [] || (ScalarsAreScalars(fields[0].typ) && ScalarsAreScalarsIn(fields[1..]))
  }

  lemma {:induction false} DescribedReadsBack(name: string, typ: Type, nullable: bool, strip: bool, aggregation: string)
    requires ScalarsAreScalars(typ) && (strip ==> NoShadowName(typ))
    ensures TypeOf(Described(name, typ, nullable, strip, aggregation)) == typ
    decreases typ, 1
  {
    ConstantNames();
    match typ
    case Scalar(_) =>
    case Array(item, itemNull) => DescribedReadsBack(ARRAY_CHILD, item, itemNull, strip, aggregation);
    case Map(key, value, keyNull, valueNull) =>
      DescribedReadsBack(MAP_KEY, key, keyNull, strip, aggregation);
      DescribedReadsBack(MAP_VALUE, value, valueNull, strip, aggregation);
    case Struct(fields) => FieldsReadBack(fields, strip, aggregation);
  }

  lemma {:induction false} FieldsReadBack(fields: seq<Field>, strip: bool, aggregation: string)
    requires ScalarsAreScalarsIn(fields) && (strip ==> NoShadowNameIn(fields))
    ensures FieldsOf(DescribedFields(fields, strip, aggregation)) == fields
    decreases fields, 2
  {
    if fields != [] {
      var f, rest := fields[0], DescribedFields(fields[1..], strip, aggregation);
      DescribedReadsBack(f.name, f.typ, f.containsNull, strip, aggregation);
      FieldsReadBack(fields[1..], strip, aggregation);
      StripChanges(f.name);
      assert ([Described(f.name, f.typ, f.containsNull, strip, aggregation)] + rest)[1..] == rest;
      assert f == Field(f.name, f.typ, f.containsNull);
    }
  }

  /** The children's names do not begin with the prefix. */
  lemma {:induction false} ConstantNames()
    ensures RemoveNamePrefix("item") == "item" && RemoveNamePrefix("key") == "key"
    ensures RemoveNamePrefix("value") == "value"
  {
    assert SHADOW_NAME_PREFIX[0] == '_';
  }

  /** The prefix goes, and only the prefix. */
  lemma {:induction false} PrefixGoes(name: string)
    ensures RemoveNamePrefix(SHADOW_NAME_PREFIX + name) == name
    ensures !(SHADOW_NAME_PREFIX <= name) ==> RemoveNamePrefix(name) == name
  {
    assert (SHADOW_NAME_PREFIX + name)[|SHADOW_NAME_PREFIX|..] == name;
  }

  /**
    Nothing of a type is lost in Thrift: it can be read back off the output, nullability included.  In protobuf it
    can exactly when no nested field has the shadow prefix.
   */
  lemma {:induction false} TypeReadsBack(name: string, typ: Type, nullable: bool, aggregation: string)
    requires NoEmptyStruct(typ) && ScalarsAreScalars(typ)
    ensures var thrift := ThriftRoot(Built(name, typ, nullable), aggregation);
            thrift.Some? && TypeOf(thrift.value) == typ && thrift.value.nullable == nullable
    ensures var pb := Pb(Built(name, typ, nullable), aggregation);
            pb.Some? && pb.value.nullable == nullable && (TypeOf(pb.value) == typ <==> NoShadowName(typ))
  {
    SerialisersDescribeType(name, typ, nullable, aggregation);
    DescribedReadsBack(name, typ, nullable, false, aggregation);
    if NoShadowName(typ) {
      DescribedReadsBack(name, typ, nullable, true, NO_AGGREGATION);
    } else {
      StrippedReadsOther(name, typ, nullable, NO_AGGREGATION);
    }
    TypeOfRoot(Described(name, typ, nullable, false, aggregation), RemoveNamePrefix(name), aggregation);
    TypeOfRoot(Described(name, typ, nullable, true, NO_AGGREGATION), RemoveNamePrefix(name), aggregation);
  }

  /** The name and the aggregation of the root do not matter. */
  lemma {:induction false} TypeOfRoot(o: Out, name: string, aggregation: string)
    ensures TypeOf(o.(name := name)) == TypeOf(o) && TypeOf(o.(aggregation := aggregation)) == TypeOf(o)
  {
  }

  lemma {:induction false} StrippedReadsOther(name: string, typ: Type, nullable: bool, aggregation: string)
    requires ScalarsAreScalars(typ) && !NoShadowName(typ)
    ensures TypeOf(Described(name, typ, nullable, true, aggregation)) != typ
    decreases typ, 1
  {
    ConstantNames();
    match typ
    case Array(item, itemNull) => StrippedReadsOther(ARRAY_CHILD, item, itemNull, aggregation);
    case Map(key, value, keyNull, valueNull) =>
      if !NoShadowName(key) {
        StrippedReadsOther(MAP_KEY, key, keyNull, aggregation);
      } else {
        StrippedReadsOther(MAP_VALUE, value, valueNull, aggregation);
      }
    case Struct(fields) => StrippedFieldsReadOther(fields, aggregation);
  }

  lemma {:induction false} StrippedFieldsReadOther(fields: seq<Field>, aggregation: string)
    requires ScalarsAreScalarsIn(fields) && !NoShadowNameIn(fields)
    ensures FieldsOf(DescribedFields(fields, true, aggregation)) != fields
    decreases fields, 2
  {
    var f, rest := fields[0], DescribedFields(fields[1..], true, aggregation);
    var first := Described(f.name, f.typ, f.containsNull, true, aggregation);
    assert ([first] + rest)[1..] == rest;
    StripChanges(f.name);
    if !NoShadowName(f.typ) {
      StrippedReadsOther(f.name, f.typ, f.containsNull, aggregation);
    } else if !NoShadowNameIn(fields[1..]) {
      StrippedFieldsReadOther(fields[1..], aggregation);
    }
    assert FieldsOf([first] + rest) == [Field(first.name, TypeOf(first), first.nullable)] + FieldsOf(rest);
  }

  // ---- Where the two agree ----

  /** A serialised tree without its aggregations: shape, order, names, types and nullability. */
  function Skeleton(o: Out): Out
    decreases o, 1
  {
    Out(o.name, o.tag, o.nullable, "", Skeletons(o.children))
  }

  function Skeletons(os: seq<Out>): (r: seq<Out>)
    ensures |r| == |os|
    decreases os, 2
  {
    if os == [] then [] else [Skeleton(os[0])] + Skeletons(os[1..])
  }

  lemma {:induction false} StripChanges(name: string)
    ensures RemoveNamePrefix(name) == name <==> !(SHADOW_NAME_PREFIX <= name)
  {
    if SHADOW_NAME_PREFIX <= name {
      assert |RemoveNamePrefix(name)| < |name|;
    }
  }

  lemma {:induction false} SkeletonsAgree(typ: Type, a: string, b: string)
    ensures Skeletons(DescribedChildren(typ, false, a)) == Skeletons(DescribedChildren(typ, true, b)) <==>
            NoShadowName(typ)
    decreases typ, 1
  {
    match typ
    case Scalar(_) =>
    case Array(item, itemNull) =>
      SkeletonsAgree(item, a, b);
      One(Described(ARRAY_CHILD, item, itemNull, false, a));
      One(Described(ARRAY_CHILD, item, itemNull, true, b));
    case Map(key, value, keyNull, valueNull) =>
      SkeletonsAgree(key, a, b);
      SkeletonsAgree(value, a, b);
      Two(Described(MAP_KEY, key, keyNull, false, a), Described(MAP_VALUE, value, valueNull, false, a));
      Two(Described(MAP_KEY, key, keyNull, true, b), Described(MAP_VALUE, value, valueNull, true, b));
    case Struct(fields) => FieldSkeletonsAgree(fields, a, b);
  }

  lemma {:induction false} One(o: Out)
    ensures Skeletons([o]) == [Skeleton(o)]
  {
    assert [o][1..] == [];
  }

  lemma {:induction false} Two(o: Out, p: Out)
    ensures Skeletons([o, p]) == [Skeleton(o), Skeleton(p)]
  {
    assert [o, p][1..] == [p];
    One(p);
  }

  lemma {:induction false} FieldSkeletonsAgree(fields: seq<Field>, a: string, b: string)
    ensures Skeletons(DescribedFields(fields, false, a)) == Skeletons(DescribedFields(fields, true, b)) <==>
            NoShadowNameIn(fields)
    decreases fields, 2
  {
    if fields != [] {
      var f := fields[0];
      SkeletonsAgree(f.typ, a, b);
      FieldSkeletonsAgree(fields[1..], a, b);
      StripChanges(f.name);
      var x, xs := Described(f.name, f.typ, f.containsNull, false, a), DescribedFields(fields[1..], false, a);
      var y, ys := Described(f.name, f.typ, f.containsNull, true, b), DescribedFields(fields[1..], true, b);
      assert ([x] + xs)[1..] == xs && ([y] + ys)[1..] == ys;
      ConsInjective(Skeleton(x), Skeletons(xs), Skeleton(y), Skeletons(ys));
    }
  }

  lemma {:induction false} ConsInjective(x: Out, xs: seq<Out>, y: Out, ys: seq<Out>)
    ensures [x] + xs == [y] + ys <==> x == y && xs == ys
  {
    if [x] + xs == [y] + ys {
      assert x == ([x] + xs)[0] && xs == ([x] + xs)[1..];
      assert y == ([y] + ys)[0] && ys == ([y] + ys)[1..];
    }
  }

  /**
    Where both succeed, the two trees have the same shape, order, names, types and nullability at every depth
    exactly when no nested field has a shadow name.
   */
  lemma {:induction false} SerialisersAgree(name: string, typ: Type, nullable: bool, aggregation: string)
    requires NoEmptyStruct(typ)
    ensures var column := Built(name, typ, nullable);
            var thrift, pb := ThriftRoot(column, aggregation), Pb(column, aggregation);
            thrift.Some? && pb.Some? && (Skeleton(thrift.value) == Skeleton(pb.value) <==> NoShadowName(typ))
  {
    SerialisersDescribeType(name, typ, nullable, aggregation);
    SkeletonsAgree(typ, aggregation, NO_AGGREGATION);
  }

  lemma {:induction false} StripIrrelevant(typ: Type, aggregation: string)
    requires NoShadowName(typ)
    ensures DescribedChildren(typ, false, aggregation) == DescribedChildren(typ, true, aggregation)
    decreases typ, 1
  {
    match typ
    case Scalar(_) =>
    case Array(item, _) => StripIrrelevant(item, aggregation);
    case Map(key, value, _, _) =>
      StripIrrelevant(key, aggregation);
      StripIrrelevant(value, aggregation);
    case Struct(fields) => StripIrrelevantIn(fields, aggregation);
  }

  lemma {:induction false} StripIrrelevantIn(fields: seq<Field>, aggregation: string)
    requires NoShadowNameIn(fields)
    ensures DescribedFields(fields, false, aggregation) == DescribedFields(fields, true, aggregation)
    decreases fields, 2
  {
    if fields != [] {
      StripChanges(fields[0].name);
      StripIrrelevant(fields[0].typ, aggregation);
      StripIrrelevantIn(fields[1..], aggregation);
    }
  }

  lemma {:induction false} FirstChild(typ: Type, strip: bool, aggregation: string)
    requires NoEmptyStruct(typ) && !typ.Scalar?
    ensures var cs := DescribedChildren(typ, strip, aggregation);
            cs != [] && cs[0].aggregation == aggregation
  {
    match typ
    case Array(_, _) =>
    case Map(_, _, _, _) =>
    case Struct(fields) =>
      assert DescribedFields(fields, strip, aggregation)[0].aggregation == aggregation;
  }

  /**
    Aggregations apart, that is: a Thrift child takes over its parent's and a protobuf child has none, so the two
    outputs are identical exactly when, besides, the type is a scalar or the column has no aggregation.
   */
  lemma {:induction false} SerialisersIdentical(name: string, typ: Type, nullable: bool, aggregation: string)
    requires NoEmptyStruct(typ)
    ensures ThriftRoot(Built(name, typ, nullable), aggregation) == Pb(Built(name, typ, nullable), aggregation) <==>
            NoShadowName(typ) && (typ.Scalar? || aggregation == "NONE")
  {
    SerialisersDescribeType(name, typ, nullable, aggregation);
    SkeletonsAgree(typ, aggregation, NO_AGGREGATION);
    var thrift, pb := DescribedChildren(typ, false, aggregation), DescribedChildren(typ, true, NO_AGGREGATION);
    if !typ.Scalar? {
      FirstChild(typ, false, aggregation);
      FirstChild(typ, true, NO_AGGREGATION);
    }
    if NoShadowName(typ) && aggregation == NO_AGGREGATION {
      StripIrrelevant(typ, aggregation);
    }
  }
}
