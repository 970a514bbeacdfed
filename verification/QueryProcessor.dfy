/** The query evaluator: WHERE matching, field projection, the reading of
    `fields` and `where` out of a query node, the namespace type maps built
    from the schema, the resolution of `namespace.entity` names to schema
    types, and the evaluation of a whole query against the data loader. */
module QueryProcessor {
  import opened Wrappers
  import opened Strings
  import opened Assoc
  import opened SchemaModel
  import opened DomainConfig
  import opened JsonTree
  import opened DataLoader

  // ---------------------------------------------------------------------
  // Conditions

  /** WHERE conditions: field name to the value the field must hold. */
  type Conditions = map<string, Value>

  /** A record satisfies the conditions when it holds every condition's
      field with an equal value (`Objects.equals`). */
  predicate Satisfies(record: Record, conditions: Conditions) {
    forall f | f in conditions :: f in record && record[f] == conditions[f]
  }

  /** `matchesConditions`: the conditions are checked one at a time, in
      whatever order the map yields them, stopping at the first that
      fails. */
  method MatchesConditions(record: Record, conditions: Conditions) returns (ok: bool)
    ensures ok <==> Satisfies(record, conditions)
    ensures |conditions| == 0 ==> ok
  {
    var todo := conditions.Keys;
    while todo != {}
      invariant todo <= conditions.Keys
      invariant forall f | f in conditions && f !in todo :: f in record && record[f] == conditions[f]
      decreases todo
    {
      var f :| f in todo;
      if f !in record || record[f] != conditions[f] {
        return false;
      }
      todo := todo - {f};
    }
    return true;
  }

  // ---------------------------------------------------------------------
  // Projection

  /** `selectFields`: the requested fields are copied one by one, those the
      record lacks being skipped. */
  function SelectFields(record: Record, fields: seq<string>): (r: Record)
    ensures forall f :: f in r <==> f in fields && f in record
    ensures forall f | f in r :: r[f] == record[f]
  {
    if |fields| == 0 then map[]
    else
      var init := SelectFields(record, fields[..|fields| - 1]);
      var f := fields[|fields| - 1];
      assert fields == fields[..|fields| - 1] + [f];
      if f in record then init[f := record[f]] else init
  }

  /** Projection is idempotent, and a record that satisfies conditions on
      selected fields still satisfies them after projection. */
  lemma SelectFieldsKeepsConditions(record: Record, fields: seq<string>, conditions: Conditions)
    ensures SelectFields(SelectFields(record, fields), fields) == SelectFields(record, fields)
    ensures (forall f | f in conditions :: f in fields) && Satisfies(record, conditions) ==>
      Satisfies(SelectFields(record, fields), conditions)
  {
    var p := SelectFields(record, fields);
    assert SelectFields(p, fields).Keys == p.Keys;
  }

  // ---------------------------------------------------------------------
  // Filtering

  /** The records that satisfy the conditions, in their original order. */
  function Filter(data: seq<Record>, conditions: Conditions): (r: seq<Record>)
    ensures |r| <= |data|
  {
    if |data| == 0 then []
    else
      var init := data[..|data| - 1];
      var last := data[|data| - 1];
      assert data == init + [last];
      if Satisfies(last, conditions) then Filter(init, conditions) + [last] else Filter(init, conditions)
  }

  /** The filter keeps every satisfying record as often as the data holds
      it, and nothing else. */
  lemma {:induction false} FilterCounts(data: seq<Record>, conditions: Conditions)
    ensures forall x :: x in Filter(data, conditions) <==> x in data && Satisfies(x, conditions)
    ensures forall x :: multiset(Filter(data, conditions))[x] == if Satisfies(x, conditions) then multiset(data)[x] else 0
  {
    if |data| > 0 {
      var init := data[..|data| - 1];
      var last := data[|data| - 1];
      assert data == init + [last];
      FilterCounts(init, conditions);
      assert multiset(data) == multiset(init) + multiset{last};
    }
  }

  /** Filtering a concatenation filters each part: the filter keeps the
      relative order of the records it keeps. */
  lemma {:induction false} FilterAppend(a: seq<Record>, b: seq<Record>, conditions: Conditions)
    ensures Filter(a + b, conditions) == Filter(a, conditions) + Filter(b, conditions)
    decreases |b|
  {
    if |b| > 0 {
      var init := b[..|b| - 1];
      assert (a + b)[..|a + b| - 1] == a + init;
      assert (a + b)[|a + b| - 1] == b[|b| - 1];
      FilterAppend(a, init, conditions);
      var last := b[|b| - 1];
      assert b == init + [last];
      if Satisfies(last, conditions) {
        assert Filter(a + b, conditions) == Filter(a + init, conditions) + [last];
        assert Filter(b, conditions) == Filter(init, conditions) + [last];
      } else {
        assert Filter(a + b, conditions) == Filter(a + init, conditions);
        assert Filter(b, conditions) == Filter(init, conditions);
      }
    } else {
      assert a + b == a;
    }
  }

  /** What a kept record looks like after projection: itself under `*`,
      else only its selected fields. */
  function Shown(record: Record, fields: seq<string>): Record {
    if "*" in fields then record else SelectFields(record, fields)
  }

  /** Every record projected onto the fields, in order. */
  function Project(data: seq<Record>, fields: seq<string>): (r: seq<Record>)
    ensures |r| == |data|
    ensures forall i | 0 <= i < |data| :: r[i] == SelectFields(data[i], fields)
  {
    seq(|data|, i requires 0 <= i < |data| => SelectFields(data[i], fields))
  }

  /** `applyFilters`: filter when there are conditions, then project unless
      `*` is among the fields. */
  function ApplyFilters(data: seq<Record>, conditions: Conditions, fields: seq<string>): (r: seq<Record>)
    ensures |r| <= |data|
    ensures |conditions| == 0 && "*" in fields ==> r == data
  {
    var filtered := if |conditions| == 0 then data else Filter(data, conditions);
    if "*" in fields then filtered else Project(filtered, fields)
  }

  /** The shown form of each record, in order. */
  function ShowAll(data: seq<Record>, fields: seq<string>): (r: seq<Record>)
    ensures |r| == |data|
  {
    if "*" in fields then data else Project(data, fields)
  }

  /** A record is shown exactly when it is the shown form of a record of
      the data. */
  lemma ShowAllMembers(data: seq<Record>, fields: seq<string>, x: Record)
    ensures x in ShowAll(data, fields) <==> exists d | d in data :: x == Shown(d, fields)
  {
    var r := ShowAll(data, fields);
    if x in r {
      var i :| 0 <= i < |r| && r[i] == x;
      assert x == Shown(data[i], fields);
    }
    if exists d | d in data :: x == Shown(d, fields) {
      var d :| d in data && x == Shown(d, fields);
      var i :| 0 <= i < |data| && data[i] == d;
      assert r[i] == x;
    }
  }

  /** The output holds exactly the shown forms of the records that satisfy
      the conditions, and the kept records keep their order. */
  lemma ApplyFiltersIsFilterThenProject(data: seq<Record>, conditions: Conditions, fields: seq<string>, x: Record)
    ensures x in ApplyFilters(data, conditions, fields) <==>
      exists d | d in data && Satisfies(d, conditions) :: x == Shown(d, fields)
    ensures ApplyFilters(data, conditions, fields) == ShowAll(Filter(data, conditions), fields)
  {
    if |conditions| == 0 {
      FilterNothing(data, conditions);
    }
    var filtered := Filter(data, conditions);
    assert ApplyFilters(data, conditions, fields) == ShowAll(filtered, fields);
    FilterCounts(data, conditions);
    ShowAllMembers(filtered, fields, x);
    if exists d | d in data && Satisfies(d, conditions) :: x == Shown(d, fields) {
      var d :| d in data && Satisfies(d, conditions) && x == Shown(d, fields);
      assert d in filtered;
    }
  }

  /** With no conditions every record passes. */
  lemma FilterNothing(data: seq<Record>, conditions: Conditions)
    requires |conditions| == 0
    ensures Filter(data, conditions) == data
  {
    if |data| > 0 {
      assert data == data[..|data| - 1] + [data[|data| - 1]];
      FilterNothing(data[..|data| - 1], conditions);
    }
  }

  // ---------------------------------------------------------------------
  // Reading a type query

  /** `isDirectTypeQuery`: a node that asks for fields or gives conditions
      queries a type; any other node names a namespace. */
  predicate IsDirectTypeQuery(n: Node) {
    Has(n, "fields") || Has(n, "where")
  }

  /** `asText()` of every element. */
  function Texts(items: seq<Node>): (r: seq<string>)
    ensures |r| == |items|
    ensures forall i | 0 <= i < |items| :: r[i] == AsText(items[i])
  {
    seq(|items|, i requires 0 <= i < |items| => AsText(items[i]))
  }

  /** `extractFields`: the texts of a `fields` array, a single `fields`
      text, or the texts of the query itself when it is an array; `*`
      when that leaves nothing. */
  function ExtractFields(query: Node): (r: seq<string>)
    ensures |r| > 0
    ensures !Has(query, "fields") && !query.NArray? ==> r == ["*"]
  {
    var fields :=
      if Has(query, "fields") then
        match GetField(query, "fields").value
        case NArray(items) => Texts(items)
        case NText(s) => [s]
        case _ => []
      else if query.NArray? then Texts(query.items)
      else [];
    if |fields| == 0 then ["*"] else fields
  }

  /** Field names written as a `fields` array, or as the query array itself,
      read back as the same names; an empty list reads as `*`. */
  lemma FieldsRoundTrip(names: seq<string>, rest: Entries<string, Node>)
    ensures |names| > 0 ==> ExtractFields(NObject([("fields", NArray(TextNodes(names)))] + rest)) == names
    ensures |names| > 0 ==> ExtractFields(NArray(TextNodes(names))) == names
    ensures ExtractFields(NArray([])) == ["*"]
  {
    var q := NObject([("fields", NArray(TextNodes(names)))] + rest);
    assert q.fields[0].0 == "fields";
    assert Texts(TextNodes(names)) == names;
  }

  // ---------------------------------------------------------------------
  // Reading conditions

  /** How a number in a WHERE clause is read: as written, every number
      becomes a `Double` (`asDouble()`); the corrected reading keeps an
      integral number integral. */
  datatype NumberReading = NumbersAsDouble | NumbersAsParsed

  /** A condition value a WHERE entry can hold. */
  predicate IsScalarNode(n: Node) {
    !n.NArray? && !n.NObject?
  }

  /** The value one WHERE entry contributes: text, number, boolean and null
      are kept; objects and arrays are dropped. */
  function WhereValue(n: Node, reading: NumberReading): (r: Option<Value>)
    ensures r.Some? <==> IsScalarNode(n)
    ensures reading == NumbersAsDouble && r.Some? ==> !r.value.VInt?
  {
    match n
    case NText(s) => Some(VText(s))
    case NInt(i) => if reading == NumbersAsDouble then Some(VDouble(AsDouble(n))) else Some(VInt(i))
    case NDouble(d) => Some(VDouble(d))
    case NBool(b) => Some(VBool(b))
    case NNull => Some(VNull)
    case NArray(_) => None
    case NObject(_) => None
  }

  /** The WHERE entries put into a map one at a time. */
  function CollectWhere(entries: Entries<string, Node>, reading: NumberReading): (r: Conditions)
    ensures forall f :: f in r <==> exists i | 0 <= i < |entries| :: entries[i].0 == f && IsScalarNode(entries[i].1)
    ensures reading == NumbersAsDouble ==> forall f | f in r :: !r[f].VInt?
  {
    if |entries| == 0 then map[]
    else
      var init := CollectWhere(entries[..|entries| - 1], reading);
      var (f, n) := entries[|entries| - 1];
      assert forall i | 0 <= i < |entries| - 1 :: entries[..|entries| - 1][i] == entries[i];
      match WhereValue(n, reading)
      case Some(v) => init[f := v]
      case None => init
  }

  /** With unique field names, each kept entry's value is the condition on
      its field. */
  lemma {:induction false} CollectWhereValue(entries: Entries<string, Node>, reading: NumberReading, i: nat)
    requires UniqueKeys(entries)
    requires i < |entries| && IsScalarNode(entries[i].1)
    ensures entries[i].0 in CollectWhere(entries, reading)
    ensures CollectWhere(entries, reading)[entries[i].0] == WhereValue(entries[i].1, reading).value
  {
    var init := entries[..|entries| - 1];
    if i < |entries| - 1 {
      assert init[i] == entries[i];
      assert entries[i].0 != entries[|entries| - 1].0;
      CollectWhereValue(init, reading, i);
    }
  }

  /** A single scalar entry gives a single condition. */
  lemma CollectWhereSingle(f: string, n: Node, reading: NumberReading)
    requires IsScalarNode(n)
    ensures CollectWhere([(f, n)], reading) == map[f := WhereValue(n, reading).value]
  {
    assert [(f, n)][..0] == [];
  }

  /** `extractWhere` with a given number reading. */
  function ExtractWhereWith(query: Node, reading: NumberReading): (r: Conditions)
    ensures !Has(query, "where") ==> r == map[]
  {
    if Has(query, "where") then CollectWhere(FieldsOf(GetField(query, "where").value), reading) else map[]
  }

  /** `extractWhere` as the source writes it: numbers read as doubles. */
  function ExtractWhereAsWritten(query: Node): (r: Conditions)
    ensures forall f | f in r :: !r[f].VInt?
  {
    ExtractWhereWith(query, NumbersAsDouble)
  }

  /** `extractWhere` as evidently intended: integral numbers stay integral,
      so that they can equal the integral values of the records. */
  function ExtractWhere(query: Node): (r: Conditions)
    ensures !Has(query, "where") ==> r == map[]
  {
    ExtractWhereWith(query, NumbersAsParsed)
  }

  /** The condition node of a plain value. */
  function ScalarNode(v: Value): (r: Node)
    ensures IsScalarNode(r)
  {
    match v
    case VNull => NNull
    case VBool(b) => NBool(b)
    case VInt(i) => NInt(i)
    case VDouble(d) => NDouble(d)
    case VText(s) => NText(s)
    case VList(_) => NNull
    case VMap(_) => NNull
  }

  predicate IsPlain(v: Value) {
    !v.VList? && !v.VMap?
  }

  /** Conditions written as a WHERE object. */
  function WhereNode(conditions: Entries<string, Value>): (r: Entries<string, Node>)
    ensures Keys(r) == Keys(conditions)
    ensures forall i | 0 <= i < |conditions| :: r[i] == (conditions[i].0, ScalarNode(conditions[i].1))
  {
    seq(|conditions|, i requires 0 <= i < |conditions| => (conditions[i].0, ScalarNode(conditions[i].1)))
  }

  lemma WhereNodeUnique(conditions: Entries<string, Value>)
    requires UniqueKeys(conditions)
    ensures UniqueKeys(WhereNode(conditions))
  {
    var entries := WhereNode(conditions);
    forall a, b | 0 <= a < b < |entries|
      ensures entries[a].0 != entries[b].0
    {
      assert entries[a].0 == conditions[a].0;
      assert entries[b].0 == conditions[b].0;
    }
  }

  /** Plain conditions written into a query's WHERE object are read back
      unchanged by the corrected reading. As written, an integral condition
      comes back as a double, which no integral record value equals. */
  lemma WhereRoundTrip(conditions: Entries<string, Value>, i: nat)
    requires UniqueKeys(conditions)
    requires i < |conditions| && IsPlain(conditions[i].1)
    ensures var query := NObject([("where", NObject(WhereNode(conditions)))]);
      conditions[i].0 in ExtractWhere(query) && ExtractWhere(query)[conditions[i].0] == conditions[i].1 &&
      conditions[i].0 in ExtractWhereAsWritten(query) &&
      (conditions[i].1.VInt? ==> ExtractWhereAsWritten(query)[conditions[i].0] == VDouble(conditions[i].1.i as real))
  {
    var entries := WhereNode(conditions);
    WhereNodeUnique(conditions);
    var query := NObject([("where", NObject(entries))]);
    assert query.fields[0].0 == "where";
    CollectWhereValue(entries, NumbersAsParsed, i);
    CollectWhereValue(entries, NumbersAsDouble, i);
  }

  /** As written, a record whose field holds an integral number fails every
      query with a condition on that field, whatever number it asks for. */
  lemma IntegralFieldNeverMatchesAsWritten(record: Record, query: Node, f: string)
    requires f in ExtractWhereAsWritten(query)
    requires f in record && record[f].VInt?
    ensures !Satisfies(record, ExtractWhereAsWritten(query))
  {
  }

  /** The smallest instance: `{"where": {"age": 30}}` against the record
      `{"age": 30}` finds nothing as written and finds the record once
      integral numbers stay integral. */
  lemma NumericWhereExample()
    ensures var query := NObject([("where", NObject([("age", NInt(30))]))]);
      var record: Record := map["age" := VInt(30)];
      ApplyFilters([record], ExtractWhereAsWritten(query), ExtractFields(query)) == [] &&
      ApplyFilters([record], ExtractWhere(query), ExtractFields(query)) == [record]
  {
    var query := NObject([("where", NObject([("age", NInt(30))]))]);
    var record: Record := map["age" := VInt(30)];
    assert query.fields[0].0 == "where";
    var entries := [("age", NInt(30))];
    assert CollectWhere(entries, NumbersAsDouble) == map["age" := VDouble(30 as real)] by {
      assert entries[..0] == [];
    }
    assert CollectWhere(entries, NumbersAsParsed) == map["age" := VInt(30)] by {
      assert entries[..0] == [];
    }
    assert ExtractFields(query) == ["*"];
    var rs := [record];
    assert rs[..0] == [];
    assert record["age"] != VDouble(30 as real);
    assert !Satisfies(record, map["age" := VDouble(30 as real)]);
    assert Satisfies(record, map["age" := VInt(30)]);
  }

  // ---------------------------------------------------------------------
  // Namespace type maps

  /** The namespace prefixes recognised at the start of type names. */
  const NamespacePrefixes: seq<string> := ["Marketing", "Finance", "External"]

  /** The namespaces that always have a map. */
  const StandardNamespaces: set<string> := {"marketing", "finance", "external"}

  /** Entity names that every namespace maps once some type ends with them. */
  const CommonEntities: seq<string> := ["Customer", "Order", "Campaign", "Lead", "Event"]

  /** The types the explicit capitalised entries point at. */
  const SpecialTypes: set<string> := {"MarketingCustomer", "MarketingOrder", "MarketingCampaign",
    "MarketingLead", "MarketingEvent", "FinanceCustomer", "ExternalCustomer"}

  /** Per namespace, a lookup name to the type it stands for. */
  type TypeMap = map<string, string>
  type NamespaceMap = map<string, TypeMap>

  /** A type name without the first namespace prefix it starts with. */
  function EntityPart(typeName: string): (r: string)
    ensures r == typeName || exists p | p in NamespacePrefixes :: typeName == p + r
  {
    match FirstPrefix(NamespacePrefixes, typeName)
    case None => typeName
    case Some(i) =>
      var p := NamespacePrefixes[i];
      assert typeName == p + typeName[|p|..];
      typeName[|p|..]
  }

  /** The names a type is entered under: its lower-cased name and, when it
      starts with a namespace prefix, its entity part lower-cased, with the
      first letter lower-cased, and as it is. */
  function NameKeys(typeName: string): set<string> {
    var e := EntityPart(typeName);
    {Lower(typeName)} + (if e != typeName then {Lower(e), LowerFirst(e), e} else {})
  }

  /** The type map of a namespace, empty when there is none yet. */
  function MapOf(m: NamespaceMap, ns: string): TypeMap {
    if ns in m then m[ns] else map[]
  }

  /** `addTypeToNamespace` on one namespace's map: the entries are put one
      after the other, the entity forms only for a prefixed name. */
  function AddTypeToMap(tm: TypeMap, typeName: string): (r: TypeMap)
    ensures r.Keys == tm.Keys + NameKeys(typeName)
    ensures forall k | k in NameKeys(typeName) :: r[k] == typeName
    ensures forall k | k in tm && k !in NameKeys(typeName) :: r[k] == tm[k]
  {
    var e := EntityPart(typeName);
    var full := tm[Lower(typeName) := typeName];
    if e == typeName then full
    else
      var entity := full[Lower(e) := typeName];
      var first := if |e| > 0 then entity[LowerFirst(e) := typeName] else entity;
      first[e := typeName]
  }

  /** `addTypeToNamespace`: the namespace's map is created when missing,
      and the lower-cased type name always leads to the type. */
  function AddTypeToNamespace(m: NamespaceMap, ns: string, typeName: string): (r: NamespaceMap)
    ensures r.Keys == m.Keys + {ns}
    ensures forall n | n in m && n != ns :: r[n] == m[n]
    ensures Lower(typeName) in r[ns] && r[ns][Lower(typeName)] == typeName
    ensures ns in m ==> m[ns].Keys <= r[ns].Keys
  {
    m[ns := AddTypeToMap(MapOf(m, ns), typeName)]
  }

  /** The namespace a schema entry is filed under: its own namespace
      lower-cased, else the lower-cased prefix of its name, else none. */
  function NamespaceOf(key: string, t: SchemaType): (r: Option<string>)
    ensures r.Some? ==> NoUpper(r.value) && r.value != ""
    ensures HasNamespace(t) ==> r.Some?
  {
    if HasNamespace(t) then
      LowerHasNoUpper(t.namespace.value);
      Some(Lower(t.namespace.value))
    else match FirstPrefix(NamespacePrefixes, key)
      case None => None
      case Some(i) =>
        LowerHasNoUpper(NamespacePrefixes[i]);
        Some(Lower(NamespacePrefixes[i]))
  }

  /** The namespaces of the schema's entries. */
  function SchemaNamespaces(schema: Schema): set<string> {
    set i | 0 <= i < |schema| && NamespaceOf(schema[i].0, schema[i].1).Some? :: NamespaceOf(schema[i].0, schema[i].1).value
  }

  /** The known namespaces: the standard three and those of the schema. */
  function KnownNamespaces(schema: Schema): (r: set<string>)
    ensures StandardNamespaces <= r
    ensures forall n | n in r :: NoUpper(n) && n != ""
  {
    assert NoUpper("marketing") && NoUpper("finance") && NoUpper("external");
    StandardNamespaces + SchemaNamespaces(schema)
  }

  /** The type names of the schema. */
  function TypeNames(schema: Schema): set<string> {
    set i | 0 <= i < |schema| :: schema[i].0
  }

  /** The second pass: each entry is added to its namespace, or to every
      known namespace when it has none. */
  function PlaceTypes(m: NamespaceMap, known: set<string>, schema: Schema): (r: NamespaceMap)
    ensures m.Keys <= r.Keys <= m.Keys + known + SchemaNamespaces(schema)
  {
    if |schema| == 0 then m
    else
      var init := schema[..|schema| - 1];
      var m' := PlaceTypes(m, known, init);
      var (key, t) := schema[|schema| - 1];
      assert SchemaNamespaces(init) <= SchemaNamespaces(schema) by {
        forall i | 0 <= i < |init| ensures init[i] == schema[i] { }
      }
      match NamespaceOf(key, t)
      case Some(ns) => AddTypeToNamespace(m', ns, key)
      case None => AddToAll(m', known, key)
  }

  /** Adds a type to every known namespace. */
  function AddToAll(m: NamespaceMap, known: set<string>, typeName: string): (r: NamespaceMap)
    ensures r.Keys == m.Keys + known
    ensures forall n | n in known :: r[n] == AddTypeToMap(MapOf(m, n), typeName)
    ensures forall n | n in m && n !in known :: r[n] == m[n]
  {
    map n | n in m.Keys + known :: if n in known then AddTypeToMap(MapOf(m, n), typeName) else m[n]
  }

  /** `putIfAbsent` on a type map. */
  function PutIfAbsentMap(tm: TypeMap, k: string, v: string): (r: TypeMap)
    ensures r.Keys == tm.Keys + {k}
    ensures forall j | j in tm :: r[j] == tm[j]
    ensures k !in tm ==> r[k] == v
  {
    if k in tm then tm else tm[k := v]
  }

  /** The third pass for one type and one namespace: each common entity the
      type name ends with is entered, lower-cased and with a lower-cased
      first letter, unless the name is taken. */
  function AddCommonEntities(tm: TypeMap, typeName: string, entities: seq<string>): (r: TypeMap)
    ensures tm.Keys <= r.Keys
    ensures forall k | k in tm :: r[k] == tm[k]
    ensures forall k | k in r && k !in tm :: r[k] == typeName
    ensures forall j | 0 <= j < |entities| && EndsWith(typeName, entities[j]) ::
      Lower(entities[j]) in r && LowerFirst(entities[j]) in r
  {
    if |entities| == 0 then tm
    else
      var init := entities[..|entities| - 1];
      var e := entities[|entities| - 1];
      var tm' := AddCommonEntities(tm, typeName, init);
      assert forall j | 0 <= j < |init| :: init[j] == entities[j];
      if EndsWith(typeName, e) then PutIfAbsentMap(PutIfAbsentMap(tm', Lower(e), typeName), LowerFirst(e), typeName)
      else tm'
  }

  /** The third pass over all type names for one namespace: it never
      changes an existing entry. */
  function CommonPass(tm: TypeMap, typeNames: seq<string>): (r: TypeMap)
    ensures tm.Keys <= r.Keys
    ensures forall k | k in tm :: r[k] == tm[k]
    ensures forall k | k in r && k !in tm :: r[k] in typeNames
  {
    if |typeNames| == 0 then tm
    else
      var init := typeNames[..|typeNames| - 1];
      AddCommonEntities(CommonPass(tm, init), typeNames[|typeNames| - 1], CommonEntities)
  }

  /** `addSpecialCaseMappings`: fixed capitalised entries in the three
      standard namespaces, where they exist. */
  function AddSpecialCaseMappings(m: NamespaceMap): (r: NamespaceMap)
    ensures r.Keys == m.Keys
    ensures forall n | n in m :: m[n].Keys <= r[n].Keys
    ensures forall n, k | n in r && k in r[n] :: r[n][k] in SpecialTypes || (k in m[n] && r[n][k] == m[n][k])
  {
    var m1 :=
      if "marketing" in m then
        m["marketing" := m["marketing"]["Customer" := "MarketingCustomer"]["Order" := "MarketingOrder"]
          ["Campaign" := "MarketingCampaign"]["Lead" := "MarketingLead"]["Event" := "MarketingEvent"]]
      else m;
    var m2 := if "finance" in m1 then m1["finance" := m1["finance"]["Customer" := "FinanceCustomer"]] else m1;
    if "external" in m2 then m2["external" := m2["external"]["Customer" := "ExternalCustomer"]] else m2
  }

  /** `buildNamespaceTypeMap`: a map per known namespace, the second pass,
      the third pass, then the special entries. */
  function BuildNamespaceTypeMap(schema: Schema): (r: NamespaceMap)
    ensures r.Keys == KnownNamespaces(schema)
  {
    var known := KnownNamespaces(schema);
    var init: NamespaceMap := map n | n in known :: map[];
    var placed := PlaceTypes(init, known, schema);
    // After the second pass the known namespaces are exactly the map's keys.
    var common := map n | n in placed :: CommonPass(placed[n], Keys(schema));
    AddSpecialCaseMappings(common)
  }

  /** After construction the three standard namespaces have maps, and the
      explicit capitalised entries win over everything the passes put. */
  lemma StandardMapsAndSpecialEntries(schema: Schema)
    ensures var r := BuildNamespaceTypeMap(schema);
      StandardNamespaces <= r.Keys &&
      r["marketing"]["Customer"] == "MarketingCustomer" && r["marketing"]["Order"] == "MarketingOrder" &&
      r["marketing"]["Campaign"] == "MarketingCampaign" && r["marketing"]["Lead"] == "MarketingLead" &&
      r["marketing"]["Event"] == "MarketingEvent" &&
      r["finance"]["Customer"] == "FinanceCustomer" && r["external"]["Customer"] == "ExternalCustomer"
  {
    var known := KnownNamespaces(schema);
    var init: NamespaceMap := map n | n in known :: map[];
    var placed := PlaceTypes(init, known, schema);
    var common := map n | n in placed :: CommonPass(placed[n], Keys(schema));
    assert common.Keys == known;
    SpecialEntries(common);
  }

  lemma SpecialEntries(m: NamespaceMap)
    requires StandardNamespaces <= m.Keys
    ensures var r := AddSpecialCaseMappings(m);
      r["marketing"]["Customer"] == "MarketingCustomer" && r["marketing"]["Order"] == "MarketingOrder" &&
      r["marketing"]["Campaign"] == "MarketingCampaign" && r["marketing"]["Lead"] == "MarketingLead" &&
      r["marketing"]["Event"] == "MarketingEvent" &&
      r["finance"]["Customer"] == "FinanceCustomer" && r["external"]["Customer"] == "ExternalCustomer"
  {
    assert "marketing" in m && "finance" in m && "external" in m;
  }

  /** Every namespace map of `a` is still in `b`, with at least its names. */
  predicate Grows(a: NamespaceMap, b: NamespaceMap) {
    forall n | n in a :: n in b && a[n].Keys <= b[n].Keys
  }

  /** Where the second pass files a schema entry's lower-cased name. */
  predicate Placed(m: NamespaceMap, known: set<string>, key: string, t: SchemaType) {
    match NamespaceOf(key, t)
    case Some(ns) => ns in m && Lower(key) in m[ns]
    case None => forall n | n in known :: n in m && Lower(key) in m[n]
  }

  lemma PlacedGrows(a: NamespaceMap, b: NamespaceMap, known: set<string>, key: string, t: SchemaType)
    requires Placed(a, known, key, t) && Grows(a, b)
    ensures Placed(b, known, key, t)
  {
  }

  /** The second pass only adds names, and files every entry's
      lower-cased name where it belongs. */
  lemma {:induction false} PlaceTypesPlaces(m: NamespaceMap, known: set<string>, schema: Schema)
    ensures Grows(m, PlaceTypes(m, known, schema))
    ensures forall i | 0 <= i < |schema| :: Placed(PlaceTypes(m, known, schema), known, schema[i].0, schema[i].1)
  {
    if |schema| > 0 {
      var init := schema[..|schema| - 1];
      PlaceTypesPlaces(m, known, init);
      var m' := PlaceTypes(m, known, init);
      var r := PlaceTypes(m, known, schema);
      assert Grows(m', r);
      forall i | 0 <= i < |schema|
        ensures Placed(r, known, schema[i].0, schema[i].1)
      {
        if i < |schema| - 1 {
          assert init[i] == schema[i];
          PlacedGrows(m', r, known, schema[i].0, schema[i].1);
        }
      }
    }
  }

  /** Every name of every map leads to one of the given types. */
  predicate ValuesIn(m: NamespaceMap, names: set<string>) {
    forall n, k | n in m && k in m[n] :: m[n][k] in names
  }

  /** The second pass only enters schema type names. */
  lemma {:induction false} PlaceTypesValues(m: NamespaceMap, known: set<string>, schema: Schema, names: set<string>)
    requires ValuesIn(m, names) && TypeNames(schema) <= names
    ensures ValuesIn(PlaceTypes(m, known, schema), names)
  {
    if |schema| > 0 {
      var init := schema[..|schema| - 1];
      assert TypeNames(init) <= TypeNames(schema) by {
        forall i | 0 <= i < |init| ensures init[i] == schema[i] { }
      }
      PlaceTypesValues(m, known, init, names);
      var m' := PlaceTypes(m, known, init);
      var (key, t) := schema[|schema| - 1];
      assert key in TypeNames(schema);
      match NamespaceOf(key, t)
      case Some(ns) =>
        AddTypeKeepsValues(m', ns, key, names);
      case None =>
        AddToAllKeepsValues(m', known, key, names);
    }
  }

  lemma AddTypeToMapKeepsValues(tm: TypeMap, key: string, names: set<string>)
    requires (forall k | k in tm :: tm[k] in names) && key in names
    ensures forall k | k in AddTypeToMap(tm, key) :: AddTypeToMap(tm, key)[k] in names
  {
  }

  lemma AddTypeKeepsValues(m: NamespaceMap, ns: string, key: string, names: set<string>)
    requires ValuesIn(m, names) && key in names
    ensures ValuesIn(AddTypeToNamespace(m, ns, key), names)
  {
    AddTypeToMapKeepsValues(MapOf(m, ns), key, names);
  }

  lemma AddToAllKeepsValues(m: NamespaceMap, known: set<string>, key: string, names: set<string>)
    requires ValuesIn(m, names) && key in names
    ensures ValuesIn(AddToAll(m, known, key), names)
  {
    var r := AddToAll(m, known, key);
    forall n | n in known
      ensures forall k | k in r[n] :: r[n][k] in names
    {
      AddTypeToMapKeepsValues(MapOf(m, n), key, names);
    }
  }

  /** Every type of the schema can be found under its lower-cased name:
      in its own namespace, or in every namespace when it has none. */
  lemma BuildPlacesEveryType(schema: Schema, i: nat)
    requires i < |schema|
    ensures Placed(BuildNamespaceTypeMap(schema), KnownNamespaces(schema), schema[i].0, schema[i].1)
  {
    var known := KnownNamespaces(schema);
    var init: NamespaceMap := map n | n in known :: map[];
    var placed := PlaceTypes(init, known, schema);
    PlaceTypesPlaces(init, known, schema);
    var common := map n | n in placed :: CommonPass(placed[n], Keys(schema));
    assert Grows(placed, common);
    assert BuildNamespaceTypeMap(schema) == AddSpecialCaseMappings(common);
    PlacedGrows(placed, AddSpecialCaseMappings(common), known, schema[i].0, schema[i].1);
  }

  /** Every name of every namespace map leads to a schema type or to one of
      the fixed special types. */
  lemma BuildValuesAreTypes(schema: Schema)
    ensures ValuesIn(BuildNamespaceTypeMap(schema), TypeNames(schema) + SpecialTypes)
  {
    var names := TypeNames(schema) + SpecialTypes;
    var known := KnownNamespaces(schema);
    var init: NamespaceMap := map n | n in known :: map[];
    var placed := PlaceTypes(init, known, schema);
    PlaceTypesValues(init, known, schema, names);
    var common := map n | n in placed :: CommonPass(placed[n], Keys(schema));
    assert forall x | x in Keys(schema) :: x in TypeNames(schema);
    assert ValuesIn(common, names);
  }

  /** All namespace names are lower-case, so a case-insensitive search for
      a namespace finds nothing the exact lower-cased lookup missed. */
  lemma CaseVariantIsExact(schema: Schema, name: string)
    ensures var m := BuildNamespaceTypeMap(schema);
      (exists k | k in m :: Lower(k) == Lower(name)) ==> Lower(name) in m
  {
    var m := BuildNamespaceTypeMap(schema);
    if exists k | k in m :: Lower(k) == Lower(name) {
      var k :| k in m && Lower(k) == Lower(name);
      LowerOfNoUpper(k);
    }
  }

  // ---------------------------------------------------------------------
  // Type-name resolution

  /** The message of the exception `substring(0, 1)` raises on an empty
      text. */
  const EmptyTextMessage: string := "begin 0, end 1, length 0"

  /** The prefix scan: the first name, in the map's iteration order, whose
      lower-cased form starts with the prefix. */
  function FirstKeyWithPrefix(order: seq<string>, tm: TypeMap, prefix: string): (r: Option<string>)
    ensures r.Some? ==> r.value in tm && r.value in order && StartsWith(Lower(r.value), prefix)
    ensures r.None? ==> forall k | k in order && k in tm :: !StartsWith(Lower(k), prefix)
  {
    if |order| == 0 then None
    else if order[0] in tm && StartsWith(Lower(order[0]), prefix) then Some(order[0])
    else FirstKeyWithPrefix(order[1..], tm, prefix)
  }

  /** `resolveTypeName`: in the namespace's map, the entity as given, then
      lower-cased, then with a capital first letter; then the type
      `Namespace` + `Entity` of the schema; then the first name starting
      with namespace + entity; then, for an entity ending in `s`, the
      singular lower-cased and capitalised; then `Namespace` + `Entity`
      once more. `order` is the iteration order of the namespace's map.
      An empty entity (or a one-letter plural) reaches `substring(0, 1)`
      of an empty text, which throws. */
  function ResolveTypeName(m: NamespaceMap, schema: Schema, order: seq<string>, namespaceName: string, entityName: string): (r: Result<Option<string>>)
    ensures Lower(namespaceName) !in m ==> r == Ok(None)
    ensures r.Ok? && r.value.Some? ==> r.value.value in m[Lower(namespaceName)].Values || HasKey(schema, r.value.value)
    ensures r.Err? ==> |entityName| <= 1 || namespaceName == ""
  {
    var nsKey := Lower(namespaceName);
    if nsKey !in m then Ok(None)
    else
      var tm := m[nsKey];
      var lower := Lower(entityName);
      if entityName in tm then Ok(Some(tm[entityName]))
      else if lower in tm then Ok(Some(tm[lower]))
      else if |entityName| == 0 then Err(EmptyTextMessage)
      else
        var capitalized := Capitalize(entityName);
        if capitalized in tm then Ok(Some(tm[capitalized]))
        else if |namespaceName| == 0 then Err(EmptyTextMessage)
        else
          var expected := Capitalize(namespaceName) + capitalized;
          if HasKey(schema, expected) then Ok(Some(expected))
          else match FirstKeyWithPrefix(order, tm, Lower(namespaceName + entityName))
            case Some(k) => Ok(Some(tm[k]))
            case None =>
              var lastResort := if HasKey(schema, expected) then Ok(Some(expected)) else Ok(None);
              if EndsWith(lower, "s") then
                var singular := lower[..|lower| - 1];
                if singular in tm then Ok(Some(tm[singular]))
                else if |singular| == 0 then Err(EmptyTextMessage)
                else
                  var capitalizedSingular := Capitalize(singular);
                  if capitalizedSingular in tm then Ok(Some(tm[capitalizedSingular])) else lastResort
              else lastResort
  }

  /** The first steps of the priority order: an exact name wins, then the
      lower-cased one, then the capitalised one, then `Namespace` +
      `Entity` from the schema. */
  lemma ResolvePriority(m: NamespaceMap, schema: Schema, order: seq<string>, namespaceName: string, entityName: string)
    requires Lower(namespaceName) in m
    ensures var tm := m[Lower(namespaceName)];
      var r := ResolveTypeName(m, schema, order, namespaceName, entityName);
      (entityName in tm ==> r == Ok(Some(tm[entityName]))) &&
      (entityName !in tm && Lower(entityName) in tm ==> r == Ok(Some(tm[Lower(entityName)]))) &&
      (entityName !in tm && Lower(entityName) !in tm && |entityName| > 0 && Capitalize(entityName) in tm ==>
        r == Ok(Some(tm[Capitalize(entityName)]))) &&
      (entityName !in tm && Lower(entityName) !in tm && |entityName| > 0 && Capitalize(entityName) !in tm &&
        |namespaceName| > 0 && HasKey(schema, Capitalize(namespaceName) + Capitalize(entityName)) ==>
        r == Ok(Some(Capitalize(namespaceName) + Capitalize(entityName))))
  {
  }

  /** The later steps: when no name of the map matches directly, the
      prefix scan finds a name that starts with namespace + entity whenever
      the map has one, and otherwise a plural entity falls back to its
      singular. */
  lemma ResolveFallbacks(m: NamespaceMap, schema: Schema, order: seq<string>, namespaceName: string, entityName: string)
    requires Lower(namespaceName) in m
    requires var tm := m[Lower(namespaceName)];
      entityName !in tm && Lower(entityName) !in tm && |entityName| > 0 && Capitalize(entityName) !in tm &&
      |namespaceName| > 0 && !HasKey(schema, Capitalize(namespaceName) + Capitalize(entityName))
    requires forall k | k in m[Lower(namespaceName)] :: k in order
    ensures var tm := m[Lower(namespaceName)];
      var r := ResolveTypeName(m, schema, order, namespaceName, entityName);
      ((exists k | k in tm :: StartsWith(Lower(k), Lower(namespaceName + entityName))) ==>
        r.Ok? && r.value.Some? && exists k | k in tm :: StartsWith(Lower(k), Lower(namespaceName + entityName)) && r.value.value == tm[k]) &&
      ((forall k | k in tm :: !StartsWith(Lower(k), Lower(namespaceName + entityName))) && |entityName| > 1 &&
        EndsWith(Lower(entityName), "s") && Lower(entityName)[..|entityName| - 1] in tm ==>
        r == Ok(Some(tm[Lower(entityName)[..|entityName| - 1]]))) &&
      ((forall k | k in tm :: !StartsWith(Lower(k), Lower(namespaceName + entityName))) && !EndsWith(Lower(entityName), "s") ==>
        r == Ok(None))
    ensures var tm := m[Lower(namespaceName)];
      var r := ResolveTypeName(m, schema, order, namespaceName, entityName);
      var singular := Lower(entityName)[..|entityName| - 1];
      (forall k | k in tm :: !StartsWith(Lower(k), Lower(namespaceName + entityName))) && |entityName| > 1 &&
        EndsWith(Lower(entityName), "s") && singular !in tm ==>
        r == (if Capitalize(singular) in tm then Ok(Some(tm[Capitalize(singular)])) else Ok(None))
  {
  }

  /** Every type of the schema is found in its namespace under its own name
      in any letter case. */
  lemma ResolvesEveryType(schema: Schema, order: seq<string>, i: nat, ns: string, entityName: string)
    requires i < |schema| && NamespaceOf(schema[i].0, schema[i].1) == Some(ns)
    requires Lower(entityName) == Lower(schema[i].0)
    ensures var r := ResolveTypeName(BuildNamespaceTypeMap(schema), schema, order, ns, entityName);
      r.Ok? && r.value.Some? && (r.value.value in TypeNames(schema) + SpecialTypes)
  {
    var m := BuildNamespaceTypeMap(schema);
    BuildPlacesEveryType(schema, i);
    BuildValuesAreTypes(schema);
    LowerOfNoUpper(ns);
    assert Lower(entityName) in m[ns];
  }

  // ---------------------------------------------------------------------
  // Query evaluation

  /** The evaluator's state: the schema, the loaded data, the namespace
      maps, and the iteration order of each namespace map, which the
      program does not choose. */
  datatype Processor = Processor(schema: Schema, loader: Loader, namespaces: NamespaceMap, keyOrders: map<string, seq<string>>)

  function KeyOrder(p: Processor, ns: string): seq<string> {
    if ns in p.keyOrders then p.keyOrders[ns] else []
  }

  /** Each namespace map's iteration order visits every name of the map. */
  predicate OrdersCover(p: Processor) {
    forall ns | ns in p.namespaces :: forall k | k in p.namespaces[ns] :: k in KeyOrder(p, ns)
  }

  /** Some iteration order of a map's names: every name once. */
  method SomeOrder(tm: TypeMap) returns (order: seq<string>)
    ensures forall k :: k in order <==> k in tm
    ensures forall i, j | 0 <= i < j < |order| :: order[i] != order[j]
  {
    order := [];
    var left := tm.Keys;
    while left != {}
      invariant left <= tm.Keys
      invariant forall k :: k in order <==> k in tm.Keys - left
      invariant forall i, j | 0 <= i < j < |order| :: order[i] != order[j]
      decreases left
    {
      var k :| k in left;
      order := order + [k];
      left := left - {k};
    }
  }

  /** The constructor: the namespace maps are built from the schema, and
      each map is given an iteration order that visits all of its names. */
  method NewProcessor(schema: Schema, loader: Loader) returns (r: Processor)
    ensures r.schema == schema && r.loader == loader && r.namespaces == BuildNamespaceTypeMap(schema)
    ensures StandardNamespaces <= r.namespaces.Keys
    ensures OrdersCover(r)
  {
    var m := BuildNamespaceTypeMap(schema);
    var orders: map<string, seq<string>> := map[];
    var left := m.Keys;
    while left != {}
      invariant left <= m.Keys
      invariant forall ns | ns in m.Keys - left :: ns in orders && forall k | k in m[ns] :: k in orders[ns]
      decreases left
    {
      var ns :| ns in left;
      var order := SomeOrder(m[ns]);
      orders := orders[ns := order];
      left := left - {ns};
    }
    r := Processor(schema, loader, m, orders);
  }

  /** On the processor's path the namespace name is lower-cased before it
      is resolved, so the order the resolver scans is the one of the very
      map it reads, and the prefix scan sees every name of that map. */
  lemma ProcessorScansEveryName(p: Processor, namespaceName: string)
    requires OrdersCover(p)
    ensures var ns := Lower(namespaceName);
      Lower(ns) in p.namespaces ==> forall k | k in p.namespaces[Lower(ns)] :: k in KeyOrder(p, ns)
  {
    LowerHasNoUpper(namespaceName);
    LowerOfNoUpper(Lower(namespaceName));
  }

  /** `i` is the first position of `names` holding `name` in some letter
      case. */
  predicate FirstCaseMatchAt(names: seq<string>, name: string, i: nat) {
    i < |names| && Lower(names[i]) == Lower(name) &&
    forall j | 0 <= j < i :: Lower(names[j]) != Lower(name)
  }

  /** The first name that equals the given one ignoring letter case. */
  function FirstIgnoringCase(names: seq<string>, name: string): (r: Option<string>)
    ensures r.Some? ==> r.value in names && Lower(r.value) == Lower(name)
    ensures r.Some? ==> exists i: nat :: FirstCaseMatchAt(names, name, i) && names[i] == r.value
    ensures r.None? ==> forall n | n in names :: Lower(n) != Lower(name)
  {
    if |names| == 0 then None
    else if Lower(names[0]) == Lower(name) then
      assert FirstCaseMatchAt(names, name, 0);
      Some(names[0])
    else
      var rest := FirstIgnoringCase(names[1..], name);
      if rest.Some? then
        var i: nat :| FirstCaseMatchAt(names[1..], name, i) && names[1..][i] == rest.value;
        assert FirstCaseMatchAt(names, name, i + 1);
        rest
      else rest
  }

  /** There is at most one first case-equal position. */
  lemma FirstCaseMatchUnique(names: seq<string>, name: string, i: nat, j: nat)
    requires FirstCaseMatchAt(names, name, i) && FirstCaseMatchAt(names, name, j)
    ensures i == j
  {
  }

  /** The records a type query reads: the type's own, or, when it has
      none, those of the first schema type whose name matches ignoring
      case. */
  function TypeData(p: Processor, typeName: string): (r: seq<Record>)
    ensures |GetData(p.loader, typeName)| > 0 ==> r == GetData(p.loader, typeName)
    ensures |r| > 0 && r != GetData(p.loader, typeName) ==>
      exists k | k in Keys(p.schema) :: Lower(k) == Lower(typeName) && r == GetData(p.loader, k)
    ensures |GetData(p.loader, typeName)| == 0 ==> forall i: nat | FirstCaseMatchAt(Keys(p.schema), typeName, i) ::
      r == GetData(p.loader, Keys(p.schema)[i])
    ensures |GetData(p.loader, typeName)| == 0 && (forall k | k in Keys(p.schema) :: Lower(k) != Lower(typeName)) ==>
      r == []
  {
    var data := GetData(p.loader, typeName);
    if |data| > 0 then data
    else match FirstIgnoringCase(Keys(p.schema), typeName)
      case Some(k) =>
        assert forall i: nat | FirstCaseMatchAt(Keys(p.schema), typeName, i) :: Keys(p.schema)[i] == k by {
          forall i: nat | FirstCaseMatchAt(Keys(p.schema), typeName, i)
            ensures Keys(p.schema)[i] == k
          {
            var j: nat :| FirstCaseMatchAt(Keys(p.schema), typeName, j) && Keys(p.schema)[j] == k;
            FirstCaseMatchUnique(Keys(p.schema), typeName, i, j);
          }
        }
        GetData(p.loader, k)
      case None =>
        assert forall i | 0 <= i < |Keys(p.schema)| :: Lower(Keys(p.schema)[i]) != Lower(typeName);
        data
  }

  /** `processTypeQuery`: the type's records filtered by the query's
      conditions and projected onto its fields; nothing when the type has
      no records. The conditions are read with the given number reading:
      the program reads them with `NumbersAsDouble`. */
  function ProcessTypeQuery(p: Processor, typeName: string, query: Node, reading: NumberReading): (r: seq<Record>)
    ensures |r| <= |TypeData(p, typeName)|
  {
    var data := TypeData(p, typeName);
    if |data| == 0 then [] else ApplyFilters(data, ExtractWhereWith(query, reading), ExtractFields(query))
  }

  /** A type query answers exactly the shown forms of the type's records
      that satisfy its conditions, as the reading reads them. */
  lemma TypeQueryAnswers(p: Processor, typeName: string, query: Node, reading: NumberReading, x: Record)
    ensures x in ProcessTypeQuery(p, typeName, query, reading) <==>
      exists d | d in TypeData(p, typeName) && Satisfies(d, ExtractWhereWith(query, reading)) ::
        x == Shown(d, ExtractFields(query))
  {
    ApplyFiltersIsFilterThenProject(TypeData(p, typeName), ExtractWhereWith(query, reading), ExtractFields(query), x);
  }

  /** A type with a single record answers that record's projection when it
      satisfies the conditions, and nothing otherwise. */
  lemma OneRecordTypeQuery(p: Processor, typeName: string, query: Node, reading: NumberReading, d: Record)
    requires TypeData(p, typeName) == [d] && "*" !in ExtractFields(query)
    ensures ProcessTypeQuery(p, typeName, query, reading) ==
      if Satisfies(d, ExtractWhereWith(query, reading)) then [SelectFields(d, ExtractFields(query))] else []
  {
    var conditions := ExtractWhereWith(query, reading);
    ApplyFiltersIsFilterThenProject([d], conditions, ExtractFields(query), d);
    FilterCounts([d], conditions);
    if |conditions| == 0 {
      FilterNothing([d], conditions);
    }
  }

  /** As written, a record whose field holds an integer is never answered
      by a type query that puts a condition on that field. */
  lemma TypeQueryDropsIntegralAsWritten(p: Processor, typeName: string, query: Node, f: string, d: Record)
    requires d in TypeData(p, typeName) && f in ExtractWhereAsWritten(query) && f in d && d[f].VInt?
    ensures forall x | x in ProcessTypeQuery(p, typeName, query, NumbersAsDouble) ::
      exists d' | d' in TypeData(p, typeName) && d' != d :: x == Shown(d', ExtractFields(query))
  {
    IntegralFieldNeverMatchesAsWritten(d, query, f);
    forall x | x in ProcessTypeQuery(p, typeName, query, NumbersAsDouble)
      ensures exists d' | d' in TypeData(p, typeName) && d' != d :: x == Shown(d', ExtractFields(query))
    {
      TypeQueryAnswers(p, typeName, query, NumbersAsDouble, x);
    }
  }

  /** A query result: the records of a type, a namespace's group of
      entity results, or the metadata answer. */
  datatype Answer = Rows(records: seq<Record>) | Group(entries: Entries<string, Answer>) | MetadataAnswer

  /** The entity loop of `processNamespaceQuery`: each entity is resolved
      in the namespace and answered, an unresolved one with no rows. */
  function ProcessEntities(p: Processor, ns: string, entities: Entries<string, Node>, acc: Entries<string, Answer>, reading: NumberReading): (r: Result<Entries<string, Answer>>)
    ensures r.Ok? ==> forall k :: HasKey(r.value, k) <==> HasKey(acc, k) || HasKey(entities, k)
    decreases |entities|
  {
    if |entities| == 0 then Ok(acc)
    else
      var (e, query) := entities[0];
      assert forall k :: HasKey(entities, k) <==> k == e || HasKey(entities[1..], k);
      match ResolveTypeName(p.namespaces, p.schema, KeyOrder(p, ns), ns, e)
      case Err(msg) => Err(msg)
      case Ok(None) =>
        PutHasKey(acc, e, Rows([]));
        ProcessEntities(p, ns, entities[1..], Put(acc, e, Rows([])), reading)
      case Ok(Some(t)) =>
        PutHasKey(acc, e, Rows(ProcessTypeQuery(p, t, query, reading)));
        ProcessEntities(p, ns, entities[1..], Put(acc, e, Rows(ProcessTypeQuery(p, t, query, reading))), reading)
  }

  /** `processNamespaceQuery`: an unknown namespace answers an empty group;
      otherwise every entity of the node is answered. */
  function ProcessNamespaceQuery(p: Processor, namespaceName: string, node: Node, reading: NumberReading): (r: Result<Entries<string, Answer>>)
    ensures r.Ok? && (Lower(namespaceName) in p.namespaces || exists k | k in p.namespaces :: Lower(k) == Lower(namespaceName)) ==>
      forall k :: HasKey(r.value, k) <==> HasKey(FieldsOf(node), k)
    ensures !(Lower(namespaceName) in p.namespaces || exists k | k in p.namespaces :: Lower(k) == Lower(namespaceName)) ==> r == Ok([])
  {
    var nsKey := Lower(namespaceName);
    if nsKey in p.namespaces || exists k | k in p.namespaces :: Lower(k) == nsKey then
      ProcessEntities(p, nsKey, FieldsOf(node), [], reading)
    else Ok([])
  }

  /** An entity that cannot be resolved is answered with no rows. */
  lemma {:induction false} UnresolvedEntityIsEmpty(p: Processor, ns: string, entities: Entries<string, Node>, acc: Entries<string, Answer>, reading: NumberReading, i: nat)
    requires UniqueKeys(entities) && i < |entities|
    requires ResolveTypeName(p.namespaces, p.schema, KeyOrder(p, ns), ns, entities[i].0) == Ok(None)
    ensures var r := ProcessEntities(p, ns, entities, acc, reading);
      r.Ok? ==> Get(r.value, entities[i].0) == Some(Rows([]))
    decreases |entities|
  {
    var e := entities[0].0;
    var rest := entities[1..];
    var r := ProcessEntities(p, ns, entities, acc, reading);
    if i == 0 {
      if r.Ok? {
        EntityKept(p, ns, rest, Put(acc, e, Rows([])), reading, e);
      }
    } else {
      assert rest[i - 1] == entities[i];
      assert UniqueKeys(rest);
      match ResolveTypeName(p.namespaces, p.schema, KeyOrder(p, ns), ns, e)
      case Err(_) =>
      case Ok(None) =>
        UnresolvedEntityIsEmpty(p, ns, rest, Put(acc, e, Rows([])), reading, i - 1);
      case Ok(Some(t)) =>
        UnresolvedEntityIsEmpty(p, ns, rest, Put(acc, e, Rows(ProcessTypeQuery(p, t, entities[0].1, reading))), reading, i - 1);
    }
  }

  /** Later entities with other names leave an answer in place. */
  lemma {:induction false} EntityKept(p: Processor, ns: string, entities: Entries<string, Node>, acc: Entries<string, Answer>, reading: NumberReading, e: string)
    requires !HasKey(entities, e)
    ensures var r := ProcessEntities(p, ns, entities, acc, reading);
      r.Ok? ==> Get(r.value, e) == Get(acc, e)
    decreases |entities|
  {
    if |entities| > 0 {
      var (e', query) := entities[0];
      assert e' != e;
      match ResolveTypeName(p.namespaces, p.schema, KeyOrder(p, ns), ns, e')
      case Err(_) =>
      case Ok(None) =>
        PutGetOther(acc, e', Rows([]), e);
        EntityKept(p, ns, entities[1..], Put(acc, e', Rows([])), reading, e);
      case Ok(Some(t)) =>
        PutGetOther(acc, e', Rows(ProcessTypeQuery(p, t, query, reading)), e);
        EntityKept(p, ns, entities[1..], Put(acc, e', Rows(ProcessTypeQuery(p, t, query, reading))), reading, e);
    }
  }

  /** The entries of the query object, each answered in turn: `metadata`
      by the metadata answer, a type query by its rows, anything else as a
      namespace. */
  function ProcessQueryEntries(p: Processor, entries: Entries<string, Node>, acc: Entries<string, Answer>, reading: NumberReading): (r: Result<Entries<string, Answer>>)
    ensures r.Ok? ==> forall k :: HasKey(r.value, k) <==> HasKey(acc, k) || HasKey(entries, k)
    decreases |entries|
  {
    if |entries| == 0 then Ok(acc)
    else
      var (name, node) := entries[0];
      assert forall k :: HasKey(entries, k) <==> k == name || HasKey(entries[1..], k);
      if name == "metadata" then
        PutHasKey(acc, name, MetadataAnswer);
        ProcessQueryEntries(p, entries[1..], Put(acc, name, MetadataAnswer), reading)
      else if IsDirectTypeQuery(node) then
        PutHasKey(acc, name, Rows(ProcessTypeQuery(p, name, node, reading)));
        ProcessQueryEntries(p, entries[1..], Put(acc, name, Rows(ProcessTypeQuery(p, name, node, reading))), reading)
      else match ProcessNamespaceQuery(p, name, node, reading)
        case Err(msg) => Err(msg)
        case Ok(group) =>
          PutHasKey(acc, name, Group(group));
          ProcessQueryEntries(p, entries[1..], Put(acc, name, Group(group)), reading)
  }

  /** `processQuery`: a `query` object is answered entry by entry; a bare
      text names a namespace and answers an empty group under it; anything
      else answers nothing. */
  function ProcessQuery(p: Processor, query: Node, reading: NumberReading): (r: Result<Entries<string, Answer>>)
    ensures Has(query, "query") && r.Ok? ==>
      forall k :: HasKey(r.value, k) <==> HasKey(FieldsOf(GetField(query, "query").value), k)
    ensures query.NText? ==> r == Ok([(query.s, Group([]))])
  {
    if Has(query, "query") then ProcessQueryEntries(p, FieldsOf(GetField(query, "query").value), [], reading)
    else if query.NText? then Ok([(query.s, Group([]))])
    else Ok([])
  }
}
