/** The application class `GQL`: the start-up steps that group the schema's
    types by namespace and detect the relationships between types, and the
    `/graphql` endpoint that turns GraphQL text into an internal query,
    answers it, and reports failures as `{"error": ...}` objects. */
module Gql {
  import opened Wrappers
  import opened Strings
  import opened Assoc
  import opened Int32
  import opened SchemaModel
  import opened Relationships
  import opened JsonTree
  import DL = DataLoader
  import QP = QueryProcessor
  import GT = GraphQLTransformer

  // ---------------------------------------------------------------------
  // Relationships

  /** A non-scalar field whose cleaned type names a type of the schema
      refers to that type. */
  predicate Relates(schema: Schema, f: SchemaField) {
    !f.isScalar && HasKey(schema, CleanType(f.fieldType))
  }

  /** The relationship a referring field stands for. */
  function RelationshipOf(source: SchemaType, f: SchemaField): RelationshipInfo {
    RelationshipInfo(source.name, f.name, CleanType(f.fieldType), f.isList)
  }

  /** The inner loop of `detectRelationships` over one type's fields:
      scalar fields are skipped, the type text is cleaned by chained
      replacements, and a field is kept when the schema holds its target. */
  function FieldRelationships(schema: Schema, source: SchemaType, fields: seq<SchemaField>): (r: seq<RelationshipInfo>)
    ensures |r| <= |fields|
    ensures forall x | x in r :: x.sourceType == source.name && HasKey(schema, x.targetType)
  {
    if |fields| == 0 then []
    else
      var init := FieldRelationships(schema, source, fields[..|fields| - 1]);
      var f := fields[|fields| - 1];
      if f.isScalar then init
      else
        var target := ChainedReplace(f.fieldType);
        if HasKey(schema, target) then init + [RelationshipInfo(source.name, f.name, target, f.isList)] else init
  }

  /** Field `j` of `fields` yields relationship `x`. */
  predicate FieldYields(schema: Schema, source: SchemaType, fields: seq<SchemaField>, j: int, x: RelationshipInfo) {
    0 <= j < |fields| && Relates(schema, fields[j]) && x == RelationshipOf(source, fields[j])
  }

  /** A type's relationships are exactly those of its referring fields. */
  lemma {:induction false} FieldRelationshipsMembers(schema: Schema, source: SchemaType, fields: seq<SchemaField>, x: RelationshipInfo)
    ensures x in FieldRelationships(schema, source, fields) <==> exists j :: FieldYields(schema, source, fields, j, x)
  {
    if |fields| > 0 {
      var init := fields[..|fields| - 1];
      var f := fields[|fields| - 1];
      FieldRelationshipsMembers(schema, source, init, x);
      ChainedReplaceIsCleanType(f.fieldType);
      if exists j :: FieldYields(schema, source, init, j, x) {
        var j :| FieldYields(schema, source, init, j, x);
        assert FieldYields(schema, source, fields, j, x);
      }
      if exists j :: FieldYields(schema, source, fields, j, x) {
        var j :| FieldYields(schema, source, fields, j, x);
        if j < |fields| - 1 {
          assert FieldYields(schema, source, init, j, x);
        } else {
          assert FieldRelationships(schema, source, fields) == FieldRelationships(schema, source, init) + [x];
        }
      }
      if x in FieldRelationships(schema, source, fields) && x !in FieldRelationships(schema, source, init) {
        assert FieldYields(schema, source, fields, |fields| - 1, x);
      }
    }
  }

  /** The referring fields of a type, in field order. */
  function ReferringFields(schema: Schema, fields: seq<SchemaField>): (r: seq<SchemaField>)
    ensures forall f | f in r :: f in fields && Relates(schema, f)
  {
    if |fields| == 0 then []
    else
      var f := fields[|fields| - 1];
      ReferringFields(schema, fields[..|fields| - 1]) + (if Relates(schema, f) then [f] else [])
  }

  /** A type's relationships are its referring fields, one entry each, in
      field order. */
  lemma {:induction false} FieldRelationshipsAreReferring(schema: Schema, source: SchemaType, fields: seq<SchemaField>)
    ensures var rf := ReferringFields(schema, fields);
      FieldRelationships(schema, source, fields) ==
        seq(|rf|, p requires 0 <= p < |rf| => RelationshipOf(source, rf[p]))
  {
    if |fields| > 0 {
      var init := fields[..|fields| - 1];
      var f := fields[|fields| - 1];
      FieldRelationshipsAreReferring(schema, source, init);
      ChainedReplaceIsCleanType(f.fieldType);
    }
  }

  /** How many referring fields the listed types hold together. */
  function ReferringCount(schema: Schema, entries: Schema): nat {
    if |entries| == 0 then 0
    else ReferringCount(schema, entries[..|entries| - 1]) + |ReferringFields(schema, entries[|entries| - 1].1.fields)|
  }

  /** The outer loop over the schema's types, in the map's order. */
  function Detect(schema: Schema, entries: Schema): (r: seq<RelationshipInfo>)
    ensures forall x | x in r :: HasKey(schema, x.targetType)
  {
    if |entries| == 0 then []
    else
      var t := entries[|entries| - 1].1;
      Detect(schema, entries[..|entries| - 1]) + FieldRelationships(schema, t, t.fields)
  }

  /** `detectRelationships`: the relationships of every type of the
      schema. */
  function DetectRelationships(schema: Schema): (r: seq<RelationshipInfo>)
    ensures forall x | x in r :: HasKey(schema, x.targetType)
  {
    Detect(schema, schema)
  }

  /** Type `t` has a field that yields `x`. */
  predicate TypeYields(schema: Schema, t: SchemaType, x: RelationshipInfo) {
    exists j | 0 <= j < |t.fields| :: FieldYields(schema, t, t.fields, j, x)
  }

  /** Entry `i` of `entries` holds a type that yields `x`. */
  predicate EntryYields(schema: Schema, entries: Schema, i: int, x: RelationshipInfo) {
    0 <= i < |entries| && TypeYields(schema, entries[i].1, x)
  }

  lemma {:induction false} DetectMembers(schema: Schema, entries: Schema, x: RelationshipInfo)
    ensures x in Detect(schema, entries) <==> exists i :: EntryYields(schema, entries, i, x)
  {
    if |entries| > 0 {
      var init := entries[..|entries| - 1];
      var t := entries[|entries| - 1].1;
      DetectMembers(schema, init, x);
      FieldRelationshipsMembers(schema, t, t.fields, x);
      if exists i :: EntryYields(schema, init, i, x) {
        var i :| EntryYields(schema, init, i, x);
        assert EntryYields(schema, entries, i, x);
      }
      if exists i :: EntryYields(schema, entries, i, x) {
        var i :| EntryYields(schema, entries, i, x);
        if i < |entries| - 1 {
          assert EntryYields(schema, init, i, x);
        } else {
          var j :| 0 <= j < |t.fields| && FieldYields(schema, t, t.fields, j, x);
          assert x in FieldRelationships(schema, t, t.fields);
        }
      }
      if x in FieldRelationships(schema, t, t.fields) {
        var j :| FieldYields(schema, t, t.fields, j, x);
        assert EntryYields(schema, entries, |entries| - 1, x);
      }
    }
  }

  /** The outer loop yields one relationship per referring field of the
      listed types. */
  lemma {:induction false} DetectCount(schema: Schema, entries: Schema)
    ensures |Detect(schema, entries)| == ReferringCount(schema, entries)
  {
    if |entries| > 0 {
      var t := entries[|entries| - 1].1;
      DetectCount(schema, entries[..|entries| - 1]);
      FieldRelationshipsAreReferring(schema, t, t.fields);
    }
  }

  /** The detected relationships are exactly those of a referring field of
      some type, and in a schema that stores every type under its own name
      both ends of each are types of the schema. */
  lemma RelationshipsAreReferringFields(schema: Schema, x: RelationshipInfo)
    ensures x in DetectRelationships(schema) <==> exists i :: EntryYields(schema, schema, i, x)
    ensures |DetectRelationships(schema)| == ReferringCount(schema, schema)
    ensures WellKeyed(schema) && x in DetectRelationships(schema) ==>
      HasKey(schema, x.sourceType) && HasKey(schema, x.targetType)
  {
    DetectMembers(schema, schema, x);
    DetectCount(schema, schema);
    if WellKeyed(schema) && x in DetectRelationships(schema) {
      var i :| EntryYields(schema, schema, i, x);
      var j :| FieldYields(schema, schema[i].1, schema[i].1.fields, j, x);
      assert schema[i].0 == x.sourceType;
    }
  }

  /** The types are visited in order: the relationships of a longer schema
      listing extend those of its prefix. */
  lemma DetectAppend(schema: Schema, a: Schema, b: Schema)
    ensures Detect(schema, a + b) == Detect(schema, a) + Detect(schema, b)
    decreases |b|
  {
    if |b| > 0 {
      var t := b[|b| - 1].1;
      assert (a + b)[..|a + b| - 1] == a + b[..|b| - 1];
      DetectAppend(schema, a, b[..|b| - 1]);
    } else {
      assert a + b == a;
    }
  }

  // ---------------------------------------------------------------------
  // Namespaces

  /** `buildNamespaceTypeMap` of the application: each type with a
      non-empty namespace is added to the set of its namespace, keyed by
      the namespace exactly as the schema writes it. */
  function GroupByNamespace(entries: Schema): (r: map<string, set<string>>)
    ensures forall ns | ns in r :: ns != "" && r[ns] != {}
  {
    if |entries| == 0 then map[]
    else
      var init := GroupByNamespace(entries[..|entries| - 1]);
      var t := entries[|entries| - 1].1;
      if HasNamespace(t) then
        var ns := t.namespace.value;
        init[ns := (if ns in init then init[ns] else {}) + {t.name}]
      else init
  }

  /** Entry `i` declares the type `name` in the namespace `ns`. */
  predicate Declares(entries: Schema, i: int, ns: string, name: string) {
    0 <= i < |entries| && HasNamespace(entries[i].1) && entries[i].1.namespace.value == ns && entries[i].1.name == name
  }

  /** A namespace's set holds exactly the names of the types declared in
      it. */
  lemma {:induction false} GroupMembers(entries: Schema, ns: string, name: string)
    ensures (ns in GroupByNamespace(entries) && name in GroupByNamespace(entries)[ns]) <==>
      exists i :: Declares(entries, i, ns, name)
  {
    if |entries| > 0 {
      var init := entries[..|entries| - 1];
      GroupMembers(init, ns, name);
      if exists i :: Declares(init, i, ns, name) {
        var i :| Declares(init, i, ns, name);
        assert Declares(entries, i, ns, name);
      }
      var t := entries[|entries| - 1].1;
      if exists i :: Declares(entries, i, ns, name) {
        var i :| Declares(entries, i, ns, name);
        if i < |entries| - 1 {
          assert Declares(init, i, ns, name);
        } else {
          assert t.namespace.value == ns && t.name == name;
        }
      }
      if HasNamespace(t) && t.namespace.value == ns && t.name == name {
        assert Declares(entries, |entries| - 1, ns, name);
      }
    }
  }

  /** In a schema that stores every type under its own name, a type is
      listed under one namespace at most. */
  lemma ExactlyItsNamespace(schema: Schema, ns1: string, ns2: string, name: string)
    requires WellKeyed(schema)
    requires ns1 in GroupByNamespace(schema) && name in GroupByNamespace(schema)[ns1]
    requires ns2 in GroupByNamespace(schema) && name in GroupByNamespace(schema)[ns2]
    ensures ns1 == ns2
  {
    GroupMembers(schema, ns1, name);
    GroupMembers(schema, ns2, name);
    var i :| Declares(schema, i, ns1, name);
    var k :| Declares(schema, k, ns2, name);
    assert schema[i].0 == name == schema[k].0;
  }

  /** Every namespace the application lists is one the query processor
      answers, under its lower-case name. */
  lemma ListedNamespacesAreKnown(schema: Schema, ns: string)
    requires ns in GroupByNamespace(schema)
    ensures Lower(ns) in QP.KnownNamespaces(schema)
  {
    var name :| name in GroupByNamespace(schema)[ns];
    GroupMembers(schema, ns, name);
    var i :| Declares(schema, i, ns, name);
    assert QP.NamespaceOf(schema[i].0, schema[i].1) == Some(Lower(ns));
  }

  // ---------------------------------------------------------------------
  // Endpoint helpers

  /** `isDevelopmentMode`: the active profile mentions `dev`, or no profile
      is set (the property defaults to the empty text). */
  predicate IsDevelopmentMode(profile: string) {
    ContainsText(profile, "dev") || profile == ""
  }

  /** The unset profile and any profile list naming `dev` are development
      mode; `prod` is not. */
  lemma DevelopmentModeExamples(a: string, b: string)
    ensures IsDevelopmentMode("")
    ensures IsDevelopmentMode(a + "dev" + b)
    ensures !IsDevelopmentMode("prod")
  {
    assert OccursAt(a + "dev" + b, "dev", |a|) by {
      assert (a + "dev" + b)[|a|..|a| + 3] == "dev";
    }
    forall i | 0 <= i <= 1 ensures !OccursAt("prod", "dev", i) {
      assert "prod"[i..i + 3][0] == "prod"[i] != 'd';
    }
  }

  /** `createErrorResponse`: an object whose only field is `error`. */
  function CreateErrorResponse(message: string): (r: Node)
    ensures r.NObject? && Keys(r.fields) == ["error"]
    ensures GetField(r, "error") == Some(NText(message))
  {
    NObject([("error", NText(message))])
  }

  /** The message is read back from the error object unchanged. */
  lemma ErrorMessageRoundTrip(message: string)
    ensures AsText(GetField(CreateErrorResponse(message), "error").value) == message
  {
  }

  /** `String.trim()`: the characters up to `' '` are removed from both
      ends. */
  function Trim(s: string): (r: string)
    ensures |r| <= |s|
    ensures |r| > 0 ==> r[0] > ' ' && r[|r| - 1] > ' '
  {
    if |s| == 0 then s
    else if s[0] <= ' ' then Trim(s[1..])
    else if s[|s| - 1] <= ' ' then Trim(s[..|s| - 1])
    else s
  }

  /** Every character is a control character or a space. */
  predicate IsBlank(s: string) {
    forall i | 0 <= i < |s| :: s[i] <= ' '
  }

  /** A text trims to nothing exactly when it is blank. */
  lemma {:induction false} TrimEmpty(s: string)
    ensures Trim(s) == "" <==> IsBlank(s)
    decreases |s|
  {
    if |s| > 0 {
      if s[0] <= ' ' {
        TrimEmpty(s[1..]);
        assert IsBlank(s) <==> IsBlank(s[1..]) by {
          assert forall i | 1 <= i < |s| :: s[i] == s[1..][i - 1];
        }
      } else if s[|s| - 1] <= ' ' {
        TrimEmpty(s[..|s| - 1]);
        assert !IsBlank(s[..|s| - 1]) by {
          assert s[..|s| - 1][0] == s[0];
        }
      }
    }
  }

  // ---------------------------------------------------------------------
  // The /graphql endpoint

  /** What the endpoint answers with: an error object, the result, or in
      development mode the transformed query next to the result. */
  datatype Body =
    | ErrorBody(error: Node)
    | ResultBody(result: Entries<string, QP.Answer>)
    | DebugBody(transformedQuery: Node, result: Entries<string, QP.Answer>)

  datatype Response = Response(status: int, body: Body)

  const ProcessingErrorPrefix: string := "Error processing GraphQL query: "
  const NotInitializedMessage: string := "Query processor not initialized"
  const EmptyQueryMessage: string := "GraphQL query cannot be empty"

  /** The 500 answer for a failure message. */
  function ServerError(message: string): (r: Response)
    ensures r.status == 500 && r.body.ErrorBody?
  {
    Response(500, ErrorBody(CreateErrorResponse(message)))
  }

  /** `graphqlQuery`. The processor is absent when start-up failed; the
      request's `query` text is absent when the request has none; `parsed`
      is what the GraphQL parser makes of that text. A failure to parse or
      transform, and a failure while answering, become a 500 answer whose
      message carries the failure's own message. The transformer and the
      evaluator run as the program has them: operators are tested on the
      enclosing value and WHERE numbers are read as doubles. */
  function GraphqlQuery(processor: Option<QP.Processor>, query: Option<string>, parsed: Result<GT.Document>,
                        profile: string): (r: Response)
    ensures processor.None? ==> r == ServerError(NotInitializedMessage)
    ensures processor.Some? && (query.None? || IsBlank(query.value)) ==>
      r == Response(400, ErrorBody(CreateErrorResponse(EmptyQueryMessage)))
    ensures r.status == 200 || r.status == 400 || r.status == 500
    ensures r.status == 200 ==> (processor.Some? && query.Some? && !IsBlank(query.value) && parsed.Ok? &&
                                 GT.Transform(parsed.value, GT.TestsEnclosingValue).Ok? && !r.body.ErrorBody? &&
                                 Ok(r.body.result) == QP.ProcessQuery(processor.value, GT.Transform(parsed.value, GT.TestsEnclosingValue).value, QP.NumbersAsDouble) &&
                                 (r.body.DebugBody? <==> IsDevelopmentMode(profile)))
    ensures r.status != 200 ==> r.body.ErrorBody?
    ensures parsed.Err? && r.status == 500 && processor.Some? ==>
      r == ServerError(ProcessingErrorPrefix + GT.ErrorPrefix + parsed.message)
  {
    match processor
    case None => ServerError(NotInitializedMessage)
    case Some(p) =>
      TrimEmpty(query.GetOr(""));
      if query.None? || Trim(query.value) == "" then
        Response(400, ErrorBody(CreateErrorResponse(EmptyQueryMessage)))
      else match parsed
        case Err(msg) => ServerError(ProcessingErrorPrefix + GT.ErrorPrefix + msg)
        case Ok(doc) =>
          match GT.Transform(doc, GT.TestsEnclosingValue)
          case Err(msg) => ServerError(ProcessingErrorPrefix + msg)
          case Ok(internalQuery) =>
            match QP.ProcessQuery(p, internalQuery, QP.NumbersAsDouble)
            case Err(msg) => ServerError(ProcessingErrorPrefix + msg)
            case Ok(result) =>
              if IsDevelopmentMode(profile) then Response(200, DebugBody(internalQuery, result))
              else Response(200, ResultBody(result))
  }

  /** A blank query is refused before it is parsed: what the parser would
      have made of it does not matter. */
  lemma BlankQueryNeverParsed(p: QP.Processor, q: string, parsed1: Result<GT.Document>, parsed2: Result<GT.Document>, profile: string)
    requires IsBlank(q)
    ensures GraphqlQuery(Some(p), Some(q), parsed1, profile) == GraphqlQuery(Some(p), Some(q), parsed2, profile)
    ensures GraphqlQuery(Some(p), Some(q), parsed1, profile).status == 400
  {
  }

  /** A query that parses, transforms and is answered is a 200 answer
      carrying exactly the processor's answer to the transformed query. */
  lemma AnsweredQuery(p: QP.Processor, q: string, doc: GT.Document, profile: string)
    requires !IsBlank(q)
    requires var t := GT.Transform(doc, GT.TestsEnclosingValue);
      t.Ok? && QP.ProcessQuery(p, t.value, QP.NumbersAsDouble).Ok?
    ensures var t := GT.Transform(doc, GT.TestsEnclosingValue);
      var r := GraphqlQuery(Some(p), Some(q), Ok(doc), profile);
      r.status == 200 && r.body.result == QP.ProcessQuery(p, t.value, QP.NumbersAsDouble).value &&
      (IsDevelopmentMode(profile) ==> r.body.transformedQuery == t.value)
  {
    TrimEmpty(q);
  }

  // ---------------------------------------------------------------------
  // From GraphQL text to a type query

  /** The condition a GraphQL WHERE literal is meant to compare with: a
      text, an `int`, a boolean or null. */
  function ConditionValue(v: GT.GValue): (r: Option<Value>)
    ensures r.Some? <==> v.StringValue? || v.IntValue? || v.BooleanValue? || v.NullValue?
  {
    match v
    case StringValue(s) => Some(VText(s))
    case IntValue(i) => Some(VInt(Wrap32(i)))
    case BooleanValue(b) => Some(VBool(b))
    case NullValue => Some(VNull)
    case _ => None
  }

  /** The GraphQL query `{ name(where: {...}) { f1 f2 ... } }`. */
  function TypeQueryDocument(name: string, conditions: seq<(string, GT.GValue)>, fieldNames: seq<string>): GT.Document {
    [GT.OperationDefinition([GT.Field(name, [GT.Argument("where", GT.ObjectValue(conditions))], GT.Leaves(fieldNames))])]
  }

  /** The entity node the transformer builds for a type query: the WHERE
      object, then the `fields` array. */
  lemma TransformedEntity(name: string, conditions: seq<(string, GT.GValue)>, fieldNames: seq<string>, test: GT.OperatorTest)
    returns (e: Node)
    requires |fieldNames| > 0
    ensures GT.Transform(TypeQueryDocument(name, conditions, fieldNames), test) == Ok(NObject([("query", NObject([(name, e)]))]))
    ensures GetField(e, "fields") == Some(NArray(TextNodes(fieldNames)))
    ensures GetField(e, "where") == Some(NObject(GT.WhereEntries(conditions, test)))
  {
    var whereEntries := GT.WhereEntries(conditions, test);
    var arg := GT.Argument("where", GT.ObjectValue(conditions));
    var withArguments := [("where", NObject(whereEntries))];
    assert GT.ArgumentStep([], arg, test) == Ok(withArguments);
    assert GT.ProcessArguments([arg], [], test) == Ok(withArguments) by {
      assert [arg][1..] == [];
    }
    assert !HasKey(withArguments, "fields");
    GT.LeavesCreate(fieldNames, withArguments, test);
    var child := GT.ProcessSelections(GT.Leaves(fieldNames), withArguments, test).value;
    var f := GT.Field(name, [arg], GT.Leaves(fieldNames));
    assert GT.ProcessQueryField(f, [], test) == Ok([(name, NObject(child))]);
    assert GT.ProcessSelections([f], [], test) == Ok([(name, NObject(child))]) by {
      assert [f][1..] == [];
    }
    e := NObject(child);
  }

  /** The WHERE entries of GraphQL literals of distinct names, read with
      either number reading and either operator test, give each scalar
      literal under its name. */
  lemma WhereEntriesRead(conditions: seq<(string, GT.GValue)>, i: nat, reading: QP.NumberReading, test: GT.OperatorTest)
    requires UniqueKeys(conditions) && i < |conditions| && ConditionValue(conditions[i].1).Some?
    ensures var n := GT.WhereValue(conditions[i].1, test).value;
      var read := QP.CollectWhere(GT.WhereEntries(conditions, test), reading);
      QP.IsScalarNode(n) && conditions[i].0 in read && read[conditions[i].0] == QP.WhereValue(n, reading).value
  {
    var whereEntries := GT.WhereEntries(conditions, test);
    var c := conditions[i].0;
    GT.WhereEntriesGet(conditions, test, i);
    var n := GT.WhereValue(conditions[i].1, test).value;
    GetFound(whereEntries, c);
    var j :| 0 <= j < |whereEntries| && whereEntries[j] == (c, n);
    QP.CollectWhereValue(whereEntries, reading, j);
  }

  /** A WHERE object built from GraphQL literals of distinct names is read
      back as the literals' values; as written, an integer comes back as a
      double. */
  lemma WhereLiteralsRead(e: Node, conditions: seq<(string, GT.GValue)>, i: nat, test: GT.OperatorTest)
    requires GetField(e, "where") == Some(NObject(GT.WhereEntries(conditions, test)))
    requires UniqueKeys(conditions) && i < |conditions| && ConditionValue(conditions[i].1).Some?
    ensures var c := conditions[i].0;
      c in QP.ExtractWhere(e) && QP.ExtractWhere(e)[c] == ConditionValue(conditions[i].1).value &&
      c in QP.ExtractWhereAsWritten(e) &&
      (conditions[i].1.IntValue? ==> QP.ExtractWhereAsWritten(e)[c] == VDouble(Wrap32(conditions[i].1.i) as real))
  {
    var whereEntries := GT.WhereEntries(conditions, test);
    assert QP.ExtractWhere(e) == QP.CollectWhere(whereEntries, QP.NumbersAsParsed);
    assert QP.ExtractWhereAsWritten(e) == QP.CollectWhere(whereEntries, QP.NumbersAsDouble);
    WhereEntriesRead(conditions, i, QP.NumbersAsParsed, test);
    WhereEntriesRead(conditions, i, QP.NumbersAsDouble, test);
    LiteralRead(conditions[i].1, test);
  }

  /** The node of a scalar literal reads back as the literal's value; as
      written, an integer reads back as a double. */
  lemma LiteralRead(v: GT.GValue, test: GT.OperatorTest)
    requires ConditionValue(v).Some?
    ensures var n := GT.WhereValue(v, test).value;
      QP.IsScalarNode(n) && QP.WhereValue(n, QP.NumbersAsParsed) == ConditionValue(v) &&
      (v.IntValue? ==> QP.WhereValue(n, QP.NumbersAsDouble) == Some(VDouble(Wrap32(v.i) as real)))
  {
    match v
    case StringValue(s) =>
    case IntValue(k) =>
    case BooleanValue(b) =>
    case NullValue =>
  }

  /** A GraphQL query on one type with a WHERE argument and leaf fields
      becomes an internal query whose only entry is a direct type query on
      that type: its fields are the leaf names, its conditions are the
      literals' values, and a type query is answered under the type's
      name. As written, an integer literal is read back as a double. */
  lemma TransformedTypeQuery(p: QP.Processor, name: string, conditions: seq<(string, GT.GValue)>,
                             fieldNames: seq<string>, i: nat, test: GT.OperatorTest, reading: QP.NumberReading)
    returns (e: Node)
    requires |fieldNames| > 0 && name != "metadata"
    requires UniqueKeys(conditions) && i < |conditions| && ConditionValue(conditions[i].1).Some?
    ensures GT.Transform(TypeQueryDocument(name, conditions, fieldNames), test) == Ok(NObject([("query", NObject([(name, e)]))]))
    ensures QP.IsDirectTypeQuery(e) && QP.ExtractFields(e) == fieldNames
    ensures GetField(e, "where") == Some(NObject(GT.WhereEntries(conditions, test)))
    ensures var c := conditions[i].0;
      c in QP.ExtractWhere(e) && QP.ExtractWhere(e)[c] == ConditionValue(conditions[i].1).value &&
      c in QP.ExtractWhereAsWritten(e) &&
      (conditions[i].1.IntValue? ==> QP.ExtractWhereAsWritten(e)[c] == VDouble(Wrap32(conditions[i].1.i) as real))
    ensures QP.ProcessQuery(p, NObject([("query", NObject([(name, e)]))]), reading) ==
      Ok([(name, QP.Rows(QP.ProcessTypeQuery(p, name, e, reading)))])
  {
    e := TransformedEntity(name, conditions, fieldNames, test);
    var t := NObject([("query", NObject([(name, e)]))]);
    assert GetField(t, "query") == Some(NObject([(name, e)]));
    assert GetField(NObject([(name, e)]), name) == Some(e);
    assert QP.Texts(TextNodes(fieldNames)) == fieldNames;
    WhereLiteralsRead(e, conditions, i, test);
    var entries := FieldsOf(GetField(t, "query").value);
    assert entries == [(name, e)];
    assert QP.ProcessQueryEntries(p, entries[1..], [(name, QP.Rows(QP.ProcessTypeQuery(p, name, e, reading)))], reading) ==
      Ok([(name, QP.Rows(QP.ProcessTypeQuery(p, name, e, reading)))]);
  }

  /** End to end, the endpoint answers a GraphQL type query with exactly
      the shown forms of the type's records that satisfy its conditions as
      the program reads them (numbers as doubles). */
  lemma EndpointTypeQuery(p: QP.Processor, q: string, profile: string, name: string,
                          conditions: seq<(string, GT.GValue)>, fieldNames: seq<string>, x: Record)
    returns (e: Node)
    requires !IsBlank(q) && |fieldNames| > 0 && name != "metadata"
    requires UniqueKeys(conditions) && |conditions| > 0 && ConditionValue(conditions[0].1).Some?
    ensures var r := GraphqlQuery(Some(p), Some(q), Ok(TypeQueryDocument(name, conditions, fieldNames)), profile);
      r.status == 200 && |r.body.result| == 1 && r.body.result[0].0 == name && r.body.result[0].1.Rows? &&
      (x in r.body.result[0].1.records <==>
        exists d | d in QP.TypeData(p, name) && QP.Satisfies(d, QP.ExtractWhereAsWritten(e)) :: x == QP.Shown(d, fieldNames))
  {
    e := TransformedTypeQuery(p, name, conditions, fieldNames, 0, GT.TestsEnclosingValue, QP.NumbersAsDouble);
    AnsweredQuery(p, q, TypeQueryDocument(name, conditions, fieldNames), profile);
    QP.TypeQueryAnswers(p, name, e, QP.NumbersAsDouble, x);
  }

  /** The query `{ people(where: {age: 30}) { age } }` over one stored
      person of age 30: the endpoint answers no rows, because the condition
      is read as the double 30.0 and the stored age is the integer 30;
      reading numbers as parsed answers the person. */
  lemma NumericQueryExample(q: string, profile: string)
    requires !IsBlank(q)
    ensures var person: Record := map["age" := VInt(30)];
      var p := QP.Processor([], DL.Loader(map["people" := [person]], map[]), map[], map[]);
      var doc := TypeQueryDocument("people", [("age", GT.IntValue(30))], ["age"]);
      var t := GT.Transform(doc, GT.TestsEnclosingValue);
      var r := GraphqlQuery(Some(p), Some(q), Ok(doc), profile);
      t.Ok? && r.status == 200 && r.body.result == [("people", QP.Rows([]))] &&
      QP.ProcessQuery(p, t.value, QP.NumbersAsParsed) == Ok([("people", QP.Rows([person]))])
  {
    var person: Record := map["age" := VInt(30)];
    var p := QP.Processor([], DL.Loader(map["people" := [person]], map[]), map[], map[]);
    var doc := TypeQueryDocument("people", [("age", GT.IntValue(30))], ["age"]);
    var t := NumericInternalQuery(p, person);
    AnsweredQuery(p, q, doc, profile);
  }

  /** The internal query of the numeric example and its two readings. */
  lemma NumericInternalQuery(p: QP.Processor, person: Record) returns (t: Node)
    requires person == map["age" := VInt(30)] && QP.TypeData(p, "people") == [person]
    ensures GT.Transform(TypeQueryDocument("people", [("age", GT.IntValue(30))], ["age"]), GT.TestsEnclosingValue) == Ok(t)
    ensures QP.ProcessQuery(p, t, QP.NumbersAsDouble) == Ok([("people", QP.Rows([]))])
    ensures QP.ProcessQuery(p, t, QP.NumbersAsParsed) == Ok([("people", QP.Rows([person]))])
  {
    var conditions := [("age", GT.IntValue(30))];
    var e := TransformedTypeQuery(p, "people", conditions, ["age"], 0, GT.TestsEnclosingValue, QP.NumbersAsDouble);
    var e' := TransformedTypeQuery(p, "people", conditions, ["age"], 0, GT.TestsEnclosingValue, QP.NumbersAsParsed);
    assert e' == e;
    t := NObject([("query", NObject([("people", e)]))]);
    assert "*" !in QP.ExtractFields(e) by {
      assert QP.ExtractFields(e) == ["age"];
    }
    NumericConditions(e, conditions);
    QP.OneRecordTypeQuery(p, "people", e, QP.NumbersAsDouble, person);
    QP.OneRecordTypeQuery(p, "people", e, QP.NumbersAsParsed, person);
    assert !QP.Satisfies(person, QP.ExtractWhereAsWritten(e)) by {
      assert person["age"] != VDouble(30.0);
    }
    assert QP.Satisfies(person, QP.ExtractWhere(e));
    assert QP.SelectFields(person, ["age"]) == person;
  }

  /** The single condition `age: 30` is read as the double 30.0 as
      written and as the integer 30 when numbers are read as parsed. */
  lemma NumericConditions(e: Node, conditions: seq<(string, GT.GValue)>)
    requires conditions == [("age", GT.IntValue(30))]
    requires GetField(e, "where") == Some(NObject(GT.WhereEntries(conditions, GT.TestsEnclosingValue)))
    ensures QP.ExtractWhereAsWritten(e) == map["age" := VDouble(30.0)]
    ensures QP.ExtractWhere(e) == map["age" := VInt(30)]
  {
    var entries := [("age", NInt(30))];
    AgeEntries(conditions);
    assert QP.ExtractWhereAsWritten(e) == QP.CollectWhere(entries, QP.NumbersAsDouble);
    assert QP.ExtractWhere(e) == QP.CollectWhere(entries, QP.NumbersAsParsed);
    QP.CollectWhereSingle("age", NInt(30), QP.NumbersAsDouble);
    QP.CollectWhereSingle("age", NInt(30), QP.NumbersAsParsed);
  }

  lemma AgeEntries(conditions: seq<(string, GT.GValue)>)
    requires conditions == [("age", GT.IntValue(30))]
    ensures GT.WhereEntries(conditions, GT.TestsEnclosingValue) == [("age", NInt(30))]
  {
    assert conditions[..0] == [];
    assert Wrap32(30) == 30;
  }

  /** The query `{ people(where: {age: {gt: 30}}) { name } }`: as written
      the transformer keeps the field but none of its operators; testing the
      operator's own value keeps `gt: 30`. */
  lemma OperatorQueryExample() returns (asWritten: Node, corrected: Node)
    ensures var doc := TypeQueryDocument("people", [("age", GT.ObjectValue([("gt", GT.IntValue(30))]))], ["name"]);
      GT.Transform(doc, GT.TestsEnclosingValue) == Ok(NObject([("query", NObject([("people", asWritten)]))])) &&
      GT.Transform(doc, GT.TestsOperatorValue) == Ok(NObject([("query", NObject([("people", corrected)]))]))
    ensures GetField(asWritten, "where") == Some(NObject([("age", NObject([]))]))
    ensures GetField(corrected, "where") == Some(NObject([("age", NObject([("gt", NInt(30))]))]))
    ensures GetField(asWritten, "fields") == GetField(corrected, "fields") == Some(NArray([NText("name")]))
  {
    var conditions := [("age", GT.ObjectValue([("gt", GT.IntValue(30))]))];
    GT.OperatorExample();
    asWritten := TransformedEntity("people", conditions, ["name"], GT.TestsEnclosingValue);
    corrected := TransformedEntity("people", conditions, ["name"], GT.TestsOperatorValue);
    assert TextNodes(["name"]) == [NText("name")];
  }
}
