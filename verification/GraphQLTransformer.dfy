/** The GraphQL front end: a parsed GraphQL document is rewritten into the
    JSON query the evaluator reads. A field with sub-selections becomes a
    nested object under its name; a leaf field's name is appended to its
    parent's `fields` array; the arguments of a field with sub-selections
    become `where`, `pagination` and plain entries. The GraphQL parser is
    not part of this model: the transformation starts from the parsed
    document. */
module GraphQLTransformer {
  import opened Wrappers
  import opened Assoc
  import opened Int32
  import opened JsonTree

  // ---------------------------------------------------------------------
  // The parsed document

  /** A GraphQL input value. Integers are arbitrary-precision, as the
      parser delivers them (`BigInteger`). */
  datatype GValue =
    | StringValue(s: string)
    | IntValue(i: int)
    | FloatValue(f: real)
    | BooleanValue(b: bool)
    | NullValue
    | EnumValue(name: string)
    | ListValue(items: seq<GValue>)
    | ObjectValue(fields: seq<(string, GValue)>)
    | VariableReference(name: string)

  datatype Argument = Argument(name: string, value: GValue)

  datatype Selection =
    | Field(name: string, arguments: seq<Argument>, selections: seq<Selection>)
    | FragmentSpread(name: string)
    | InlineFragment(selections: seq<Selection>)

  datatype Definition =
    | OperationDefinition(selections: seq<Selection>)
    | FragmentDefinition(name: string, selections: seq<Selection>)

  type Document = seq<Definition>

  // ---------------------------------------------------------------------
  // Errors

  /** The prefix every transformation error carries. */
  const ErrorPrefix: string := "Error transforming GraphQL query: "

  const NoOperationMessage: string := "No query operation found"

  /** The Jackson class name of a node. */
  function NodeClass(n: Node): string {
    match n
    case NNull => "NullNode"
    case NBool(_) => "BooleanNode"
    case NInt(_) => "IntNode"
    case NDouble(_) => "DoubleNode"
    case NText(_) => "TextNode"
    case NArray(_) => "ArrayNode"
    case NObject(_) => "ObjectNode"
  }

  /** The message of the `ClassCastException` a cast of `n` to the class
      `target` raises. */
  function CastMessage(n: Node, target: string): string {
    "class " + NodeClass(n) + " cannot be cast to class " + target
  }

  // ---------------------------------------------------------------------
  // Helpers on object nodes

  /** `ensureFieldsArray(node).add(name)`: the existing `fields` array is
      reused and extended; a missing one is created at the end; any other
      node under `fields` fails the cast. */
  function AppendField(node: Entries<string, Node>, name: string): (r: Result<Entries<string, Node>>)
    ensures !HasKey(node, "fields") ==> r == Ok(node + [("fields", NArray([NText(name)]))])
    ensures HasKey(node, "fields") && Get(node, "fields").value.NArray? ==>
      r.Ok? && Keys(r.value) == Keys(node) &&
      Get(r.value, "fields") == Some(NArray(Get(node, "fields").value.items + [NText(name)]))
    ensures r.Err? <==> HasKey(node, "fields") && !Get(node, "fields").value.NArray?
  {
    var existing: Option<Node> := Get(node, "fields");
    match existing
    case None => Ok(Put(node, "fields", NArray([NText(name)])))
    case Some(NArray(items)) => Ok(Put(node, "fields", NArray(items + [NText(name)])))
    case Some(other) => Err(CastMessage(other, "ArrayNode"))
  }

  /** `ensurePaginationNode(node).put(key, value)`: the existing
      `pagination` object is reused; a missing one is created at the end;
      any other node under `pagination` fails the cast. */
  function SetPagination(node: Entries<string, Node>, key: string, value: int): (r: Result<Entries<string, Node>>)
    ensures !HasKey(node, "pagination") ==> r == Ok(node + [("pagination", NObject([(key, NInt(value))]))])
    ensures HasKey(node, "pagination") && Get(node, "pagination").value.NObject? ==>
      r.Ok? && Keys(r.value) == Keys(node) &&
      Get(r.value, "pagination") == Some(NObject(Put(Get(node, "pagination").value.fields, key, NInt(value))))
    ensures r.Err? <==> HasKey(node, "pagination") && !Get(node, "pagination").value.NObject?
  {
    var existing: Option<Node> := Get(node, "pagination");
    match existing
    case None => Ok(Put(node, "pagination", NObject([(key, NInt(value))])))
    case Some(NObject(fields)) => Ok(Put(node, "pagination", NObject(Put(fields, key, NInt(value)))))
    case Some(other) => Err(CastMessage(other, "ObjectNode"))
  }

  // ---------------------------------------------------------------------
  // WHERE conditions

  /** Which value the operator loop tests: as written it tests the
      enclosing object value, which is never a number or a text, so no
      operator is ever copied; the evident intent is to test each
      operator's own value. */
  datatype OperatorTest = TestsEnclosingValue | TestsOperatorValue

  /** One operator entry: an integer (as `int`), a float or a text is
      copied; anything else is skipped. */
  function OperatorValue(v: GValue): (r: Option<Node>)
    ensures v.IntValue? ==> r == Some(NInt(Wrap32(v.i)))
    ensures v.FloatValue? ==> r == Some(NDouble(v.f))
    ensures v.StringValue? ==> r == Some(NText(v.s))
    ensures !v.IntValue? && !v.FloatValue? && !v.StringValue? ==> r.None?
  {
    match v
    case IntValue(i) => Some(NInt(Wrap32(i)))
    case FloatValue(f) => Some(NDouble(f))
    case StringValue(s) => Some(NText(s))
    case _ => None
  }

  /** The operator object of a nested condition. */
  function Operators(ops: seq<(string, GValue)>, test: OperatorTest): (r: Entries<string, Node>)
    ensures test == TestsEnclosingValue ==> r == []
    ensures forall k :: HasKey(r, k) ==> HasKey(ops, k)
  {
    if |ops| == 0 || test == TestsEnclosingValue then []
    else
      var init := Operators(ops[..|ops| - 1], test);
      var (op, v) := ops[|ops| - 1];
      PutHasKey(init, op, NNull);
      assert forall k :: HasKey(ops[..|ops| - 1], k) ==> HasKey(ops, k) by {
        forall k | HasKey(ops[..|ops| - 1], k) ensures HasKey(ops, k) {
          var i :| 0 <= i < |ops| - 1 && ops[..|ops| - 1][i].0 == k;
          assert ops[i].0 == k;
        }
      }
      match OperatorValue(v)
      case Some(n) => PutHasKey(init, op, n); Put(init, op, n)
      case None => init
  }

  /** The node one WHERE entry becomes: a text, an `int`, a boolean, a null
      or an operator object; floats, enums, lists and variables are
      dropped. */
  function WhereValue(v: GValue, test: OperatorTest): (r: Option<Node>)
    ensures v.StringValue? ==> r == Some(NText(v.s))
    ensures v.IntValue? ==> r == Some(NInt(Wrap32(v.i)))
    ensures v.BooleanValue? ==> r == Some(NBool(v.b))
    ensures v.NullValue? ==> r == Some(NNull)
    ensures v.ObjectValue? ==> r.Some? && r.value.NObject?
    ensures v.FloatValue? || v.EnumValue? || v.ListValue? || v.VariableReference? ==> r.None?
  {
    match v
    case StringValue(s) => Some(NText(s))
    case IntValue(i) => Some(NInt(Wrap32(i)))
    case BooleanValue(b) => Some(NBool(b))
    case NullValue => Some(NNull)
    case ObjectValue(ops) => Some(NObject(Operators(ops, test)))
    case _ => None
  }

  /** `processWhereConditions`: the entries put into the WHERE object in
      order. */
  function WhereEntries(fields: seq<(string, GValue)>, test: OperatorTest): (r: Entries<string, Node>)
    ensures UniqueKeys(r)
  {
    if |fields| == 0 then []
    else
      var init := WhereEntries(fields[..|fields| - 1], test);
      var (name, v) := fields[|fields| - 1];
      match WhereValue(v, test)
      case Some(n) => PutUnique(init, name, n); Put(init, name, n)
      case None => init
  }

  /** With distinct names, every kept entry is found under its name with
      its node, and a dropped one is absent. */
  lemma {:induction false} WhereEntriesGet(fields: seq<(string, GValue)>, test: OperatorTest, i: nat)
    requires UniqueKeys(fields) && i < |fields|
    ensures Get(WhereEntries(fields, test), fields[i].0) == WhereValue(fields[i].1, test)
  {
    var init := fields[..|fields| - 1];
    var (name, v) := fields[|fields| - 1];
    assert UniqueKeys(init);
    if i == |fields| - 1 {
      assert !HasKey(init, name);
      WhereEntriesAbsent(init, test, name);
    } else {
      assert init[i] == fields[i];
      assert fields[i].0 != name;
      WhereEntriesGet(init, test, i);
      if WhereValue(v, test).Some? {
        PutGetOther(WhereEntries(init, test), name, WhereValue(v, test).value, fields[i].0);
      }
    }
  }

  /** A name the conditions do not mention is not in the WHERE object. */
  lemma {:induction false} WhereEntriesAbsent(fields: seq<(string, GValue)>, test: OperatorTest, name: string)
    requires !HasKey(fields, name)
    ensures Get(WhereEntries(fields, test), name) == None
  {
    if |fields| > 0 {
      var init := fields[..|fields| - 1];
      assert !HasKey(init, name);
      WhereEntriesAbsent(init, test, name);
      var (n, v) := fields[|fields| - 1];
      assert n != name;
      if WhereValue(v, test).Some? {
        PutGetOther(WhereEntries(init, test), n, WhereValue(v, test).value, name);
      }
    }
  }

  /** As written, every operator object comes out empty: the condition
      `age: {gt: 30}` becomes `"age": {}`. Testing the operator's own
      value keeps `"age": {"gt": 30}`. */
  lemma OperatorExample()
    ensures WhereEntries([("age", ObjectValue([("gt", IntValue(30))]))], TestsEnclosingValue) ==
      [("age", NObject([]))]
    ensures WhereEntries([("age", ObjectValue([("gt", IntValue(30))]))], TestsOperatorValue) ==
      [("age", NObject([("gt", NInt(30))]))]
  {
    var ops := [("gt", IntValue(30))];
    assert ops[..0] == [];
    assert Wrap32(30) == 30;
    var fields := [("age", ObjectValue(ops))];
    assert fields[..0] == [];
  }

  /** Testing the operator's own value copies every integer, float and text
      operator of distinct names. */
  lemma {:induction false} OperatorsKept(ops: seq<(string, GValue)>, i: nat)
    requires UniqueKeys(ops) && i < |ops|
    ensures Get(Operators(ops, TestsOperatorValue), ops[i].0) == OperatorValue(ops[i].1)
  {
    var init := ops[..|ops| - 1];
    var (op, v) := ops[|ops| - 1];
    assert UniqueKeys(init);
    if i == |ops| - 1 {
      assert !HasKey(init, op);
    } else {
      assert init[i] == ops[i];
      assert ops[i].0 != op;
      OperatorsKept(init, i);
      if OperatorValue(v).Some? {
        PutGetOther(Operators(init, TestsOperatorValue), op, OperatorValue(v).value, ops[i].0);
      }
    }
  }

  // ---------------------------------------------------------------------
  // Arguments

  /** One argument of `processArguments`. The operator test decides which
      value an operator of a `where` condition is read from: the program
      tests the enclosing value (`TestsEnclosingValue`). */
  function ArgumentStep(node: Entries<string, Node>, arg: Argument, test: OperatorTest): (r: Result<Entries<string, Node>>)
    ensures arg.name == "where" && arg.value.ObjectValue? ==>
      r == Ok(Put(node, "where", NObject(WhereEntries(arg.value.fields, test))))
    ensures (arg.name == "limit" || arg.name == "offset") && arg.value.IntValue? ==>
      r == SetPagination(node, arg.name, Wrap32(arg.value.i))
    ensures ((arg.name == "where" && !arg.value.ObjectValue?) ||
             ((arg.name == "limit" || arg.name == "offset") && !arg.value.IntValue?)) ==> r == Ok(node)
    ensures r.Err? ==> arg.name == "limit" || arg.name == "offset"
  {
    var name := arg.name;
    var v := arg.value;
    if name == "where" then
      if v.ObjectValue? then Ok(Put(node, "where", NObject(WhereEntries(v.fields, test)))) else Ok(node)
    else if name == "limit" || name == "offset" then
      if v.IntValue? then SetPagination(node, name, Wrap32(v.i)) else Ok(node)
    else if v.StringValue? then Ok(Put(node, name, NText(v.s)))
    else if v.IntValue? then Ok(Put(node, name, NInt(Wrap32(v.i))))
    else if v.BooleanValue? then Ok(Put(node, name, NBool(v.b)))
    else Ok(node)
  }

  /** Any other argument holding a text, an integer or a boolean is copied
      under its own name; other values are dropped. */
  lemma OtherArguments(node: Entries<string, Node>, arg: Argument, test: OperatorTest)
    requires arg.name != "where" && arg.name != "limit" && arg.name != "offset"
    ensures var r := ArgumentStep(node, arg, test);
      r.Ok? &&
      (arg.value.StringValue? ==> Get(r.value, arg.name) == Some(NText(arg.value.s))) &&
      (arg.value.IntValue? ==> Get(r.value, arg.name) == Some(NInt(Wrap32(arg.value.i)))) &&
      (arg.value.BooleanValue? ==> Get(r.value, arg.name) == Some(NBool(arg.value.b))) &&
      (!arg.value.StringValue? && !arg.value.IntValue? && !arg.value.BooleanValue? ==> r.value == node)
  {
  }

  /** `processArguments`: the arguments in order; the first failure ends
      the transformation. */
  function ProcessArguments(args: seq<Argument>, node: Entries<string, Node>, test: OperatorTest): (r: Result<Entries<string, Node>>)
    decreases |args|
  {
    if |args| == 0 then Ok(node)
    else match ArgumentStep(node, args[0], test)
      case Err(msg) => Err(msg)
      case Ok(next) => ProcessArguments(args[1..], next, test)
  }

  // ---------------------------------------------------------------------
  // Selections

  /** `processQueryField`: a field with sub-selections becomes a nested
      object under its name, built from its arguments and then its
      sub-fields; a leaf field is appended to the parent's `fields`. */
  function ProcessQueryField(f: Selection, parent: Entries<string, Node>, test: OperatorTest): (r: Result<Entries<string, Node>>)
    requires f.Field?
    ensures |f.selections| > 0 && r.Ok? ==> Get(r.value, f.name).Some? && Get(r.value, f.name).value.NObject?
    ensures |f.selections| == 0 ==> r == AppendField(parent, f.name)
    decreases f
  {
    if |f.selections| > 0 then
      match ProcessArguments(f.arguments, [], test)
      case Err(msg) => Err(msg)
      case Ok(withArguments) =>
        match ProcessSelections(f.selections, withArguments, test)
        case Err(msg) => Err(msg)
        case Ok(child) => Ok(Put(parent, f.name, NObject(child)))
    else AppendField(parent, f.name)
  }

  /** The selections of one level in order; fragments are skipped. */
  function ProcessSelections(sels: seq<Selection>, node: Entries<string, Node>, test: OperatorTest): (r: Result<Entries<string, Node>>)
    decreases sels
  {
    if |sels| == 0 then Ok(node)
    else if sels[0].Field? then
      match ProcessQueryField(sels[0], node, test)
      case Err(msg) => Err(msg)
      case Ok(next) => ProcessSelections(sels[1..], next, test)
    else ProcessSelections(sels[1..], node, test)
  }

  /** The fields among the selections. */
  function FieldsOnly(sels: seq<Selection>): (r: seq<Selection>)
    ensures |r| <= |sels|
    ensures forall s | s in r :: s.Field? && s in sels
  {
    if |sels| == 0 then []
    else if sels[0].Field? then [sels[0]] + FieldsOnly(sels[1..])
    else FieldsOnly(sels[1..])
  }

  /** Fragments contribute nothing: processing the selections is processing
      their fields alone. */
  lemma {:induction false} FragmentsSkipped(sels: seq<Selection>, node: Entries<string, Node>, test: OperatorTest)
    ensures ProcessSelections(sels, node, test) == ProcessSelections(FieldsOnly(sels), node, test)
    decreases |sels|
  {
    if |sels| > 0 {
      if sels[0].Field? {
        var fs := FieldsOnly(sels);
        assert fs[0] == sels[0] && fs[1..] == FieldsOnly(sels[1..]);
        match ProcessQueryField(sels[0], node, test)
        case Err(_) =>
        case Ok(next) => FragmentsSkipped(sels[1..], next, test);
      } else {
        FragmentsSkipped(sels[1..], node, test);
      }
    }
  }

  /** Leaf fields with the given names (their arguments, if any, are
      ignored). */
  function Leaves(names: seq<string>): (r: seq<Selection>)
    ensures |r| == |names|
    ensures forall i | 0 <= i < |names| :: r[i] == Field(names[i], [], [])
  {
    seq(|names|, i requires 0 <= i < |names| => Field(names[i], [], []))
  }

  /** A leaf's arguments are never read. */
  lemma LeafArgumentsIgnored(name: string, args: seq<Argument>, parent: Entries<string, Node>, test: OperatorTest)
    ensures ProcessQueryField(Field(name, args, []), parent, test) == ProcessQueryField(Field(name, [], []), parent, test)
  {
  }

  /** Leaf fields extend an existing `fields` array by their names, in
      order, and leave every other entry alone. */
  lemma {:induction false} LeavesAppend(names: seq<string>, node: Entries<string, Node>, items: seq<Node>, test: OperatorTest)
    requires Get(node, "fields") == Some(NArray(items))
    ensures var r := ProcessSelections(Leaves(names), node, test);
      r.Ok? && Keys(r.value) == Keys(node) && Get(r.value, "fields") == Some(NArray(items + TextNodes(names)))
    decreases |names|
  {
    if |names| > 0 {
      var more := items + [NText(names[0])];
      LeafStep(names, node, items, test);
      LeavesAppend(names[1..], Put(node, "fields", NArray(more)), more, test);
      TextNodesCons(items, names);
    } else {
      assert items + TextNodes(names) == items;
    }
  }

  /** The first leaf appends its name and hands the node on. */
  lemma LeafStep(names: seq<string>, node: Entries<string, Node>, items: seq<Node>, test: OperatorTest)
    requires |names| > 0
    requires Get(node, "fields") == Some(NArray(items)) || (!HasKey(node, "fields") && items == [])
    ensures ProcessSelections(Leaves(names), node, test) ==
      ProcessSelections(Leaves(names[1..]), Put(node, "fields", NArray(items + [NText(names[0])])), test)
  {
    assert items + [NText(names[0])] == [NText(names[0])] || HasKey(node, "fields");
    assert ProcessQueryField(Leaves(names)[0], node, test) == Ok(Put(node, "fields", NArray(items + [NText(names[0])])));
    assert Leaves(names)[1..] == Leaves(names[1..]);
  }

  lemma TextNodesCons(items: seq<Node>, names: seq<string>)
    requires |names| > 0
    ensures items + [NText(names[0])] + TextNodes(names[1..]) == items + TextNodes(names)
  {
  }

  /** Leaf fields leave every entry but `fields` alone. */
  lemma {:induction false} LeavesKeepOthers(names: seq<string>, node: Entries<string, Node>, items: seq<Node>, k: string, test: OperatorTest)
    requires Get(node, "fields") == Some(NArray(items)) && k != "fields"
    ensures var r := ProcessSelections(Leaves(names), node, test);
      r.Ok? && Get(r.value, k) == Get(node, k)
    decreases |names|
  {
    LeavesAppend(names, node, items, test);
    if |names| > 0 {
      var more := items + [NText(names[0])];
      LeafStep(names, node, items, test);
      PutGetOther(node, "fields", NArray(more), k);
      LeavesKeepOthers(names[1..], Put(node, "fields", NArray(more)), more, k, test);
    }
  }

  /** Leaf fields under a new node give a `fields` array of exactly their
      names. */
  lemma LeavesFromEmpty(names: seq<string>, test: OperatorTest)
    requires |names| > 0
    ensures ProcessSelections(Leaves(names), [], test) == Ok([("fields", NArray(TextNodes(names)))])
  {
    var first := [("fields", NArray([NText(names[0])]))];
    assert ProcessQueryField(Leaves(names)[0], [], test) == Ok(first);
    assert Leaves(names)[1..] == Leaves(names[1..]);
    LeavesAppend(names[1..], first, [NText(names[0])], test);
    assert ProcessSelections(Leaves(names), [], test) == ProcessSelections(Leaves(names[1..]), first, test);
    var r := ProcessSelections(Leaves(names[1..]), first, test);
    assert |Keys(r.value)| == 1 && Keys(r.value)[0] == "fields";
    assert r.value[0].0 == "fields";
    assert Get(r.value, "fields") == Some(r.value[0].1);
    assert [NText(names[0])] + TextNodes(names[1..]) == TextNodes(names);
    assert r.value == [("fields", NArray(TextNodes(names)))];
  }

  /** Leaf fields under a node without `fields` add a `fields` array of
      exactly their names and leave every other entry alone. */
  lemma LeavesCreate(names: seq<string>, node: Entries<string, Node>, test: OperatorTest)
    requires |names| > 0 && !HasKey(node, "fields")
    ensures var r := ProcessSelections(Leaves(names), node, test);
      r.Ok? && Get(r.value, "fields") == Some(NArray(TextNodes(names))) &&
      forall k | k != "fields" :: Get(r.value, k) == Get(node, k)
  {
    var head := [NText(names[0])];
    var first := Put(node, "fields", NArray(head));
    LeafStep(names, node, [], test);
    assert [] + head == head;
    LeavesAppend(names[1..], first, head, test);
    forall k | k != "fields"
      ensures Get(ProcessSelections(Leaves(names[1..]), first, test).value, k) == Get(node, k)
    {
      PutGetOther(node, "fields", NArray(head), k);
      LeavesKeepOthers(names[1..], first, head, k, test);
    }
    TextNodesCons([], names);
    assert [] + TextNodes(names) == TextNodes(names);
  }

  // ---------------------------------------------------------------------
  // The document

  /** The selections of the document's first operation. */
  function FirstOperation(doc: Document): (r: Option<seq<Selection>>)
    ensures r.Some? <==> exists i | 0 <= i < |doc| :: doc[i].OperationDefinition?
  {
    if |doc| == 0 then None
    else if doc[0].OperationDefinition? then Some(doc[0].selections)
    else
      assert forall i | 1 <= i < |doc| :: doc[i] == doc[1..][i - 1];
      FirstOperation(doc[1..])
  }

  /** `transformGraphQLQuery`: the root object holds the single key `query`,
      built from the first operation's fields. */
  function Transform(doc: Document, test: OperatorTest): (r: Result<Node>)
    ensures r.Ok? ==> (r.value.NObject? && |r.value.fields| == 1 && r.value.fields[0].0 == "query" &&
                       r.value.fields[0].1.NObject?)
    ensures (forall i | 0 <= i < |doc| :: !doc[i].OperationDefinition?) ==> r == Err(ErrorPrefix + NoOperationMessage)
  {
    match FirstOperation(doc)
    case None => Err(ErrorPrefix + NoOperationMessage)
    case Some(sels) =>
      match ProcessSelections(sels, [], test)
      case Err(msg) => Err(ErrorPrefix + msg)
      case Ok(query) => Ok(NObject([("query", NObject(query))]))
  }

  /** Only the first operation counts: definitions before it that are not
      operations, and everything after it, change nothing. */
  lemma {:induction false} OnlyFirstOperation(pre: Document, sels: seq<Selection>, post: Document, test: OperatorTest)
    requires forall i | 0 <= i < |pre| :: !pre[i].OperationDefinition?
    ensures Transform(pre + [OperationDefinition(sels)] + post, test) == Transform([OperationDefinition(sels)], test)
    decreases |pre|
  {
    var doc := pre + [OperationDefinition(sels)] + post;
    if |pre| > 0 {
      assert doc[1..] == pre[1..] + [OperationDefinition(sels)] + post;
      OnlyFirstOperation(pre[1..], sels, post, test);
    }
  }
}
