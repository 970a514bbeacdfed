/** `SchemaParser` after its regular expressions have matched: the model
    starts from the captured groups (type name and body fields, directive
    arguments) and builds the schema the way the parser does: comments
    stripped, fields classified, the first definition of a name kept, then
    the directives applied and namespaces inferred. */
module SchemaParser {
  import opened Wrappers
  import opened Strings
  import opened Assoc
  import opened SchemaModel
  import opened DomainConfig

  // ---------------------------------------------------------------------
  // Comments

  /** `replaceAll("#[^\\n]*", "")`, scanning left to right; `inComment` is
      true inside a comment, which ends before the next newline. */
  function StripFrom(s: string, inComment: bool): (r: string)
    ensures '#' !in r
    ensures |r| <= |s|
  {
    if |s| == 0 then ""
    else if inComment && s[0] != '\n' then StripFrom(s[1..], true)
    else if !inComment && s[0] == '#' then StripFrom(s[1..], true)
    else [s[0]] + StripFrom(s[1..], false)
  }

  /** `removeComments`. */
  function RemoveComments(content: string): (r: string)
    ensures '#' !in r
  {
    StripFrom(content, false)
  }

  /** Inside a comment, a line without a newline vanishes. */
  lemma {:induction false} StripCommentLine(s: string)
    requires '\n' !in s
    ensures StripFrom(s, true) == ""
  {
    if |s| > 0 {
      StripCommentLine(s[1..]);
    }
  }

  /** One line loses everything from its first `#` on. */
  lemma {:induction false} RemoveCommentsLine(line: string)
    requires '\n' !in line
    ensures RemoveComments(line) == SplitFirst(line, "#")
  {
    if |line| > 0 {
      if line[0] == '#' {
        StripCommentLine(line[1..]);
        assert line[..1] == "#";
      } else {
        RemoveCommentsLine(line[1..]);
        assert line[..1] != "#" by { assert line[..1][0] == line[0]; }
      }
    }
  }

  /** A newline ends any comment and survives: the text is cleaned line by
      line. */
  lemma {:induction false} RemoveCommentsLines(line: string, rest: string, inComment: bool)
    requires '\n' !in line
    ensures StripFrom(line + "\n" + rest, inComment) == StripFrom(line, inComment) + "\n" + RemoveComments(rest)
  {
    var s := line + "\n" + rest;
    if |line| == 0 {
      assert s == "\n" + rest;
      assert s[1..] == rest;
    } else {
      assert s[0] == line[0];
      assert s[1..] == line[1..] + "\n" + rest;
      if inComment && s[0] != '\n' {
        RemoveCommentsLines(line[1..], rest, true);
      } else if !inComment && s[0] == '#' {
        RemoveCommentsLines(line[1..], rest, true);
      } else {
        RemoveCommentsLines(line[1..], rest, false);
      }
    }
  }

  /** Text without `#` is left alone, so removing comments twice is
      removing them once. */
  lemma {:induction false} RemoveCommentsNoHash(s: string)
    requires '#' !in s
    ensures RemoveComments(s) == s
  {
    if |s| > 0 {
      assert s[0] in s;
      assert forall c | c in s[1..] :: c in s;
      RemoveCommentsNoHash(s[1..]);
    }
  }

  lemma RemoveCommentsIdempotent(content: string)
    ensures RemoveComments(RemoveComments(content)) == RemoveComments(content)
  {
    RemoveCommentsNoHash(RemoveComments(content));
  }

  // ---------------------------------------------------------------------
  // Fields

  /** `parseFields` on one match: name and raw type text, classified. */
  function ClassifyField(name: string, rawType: string): (f: SchemaField)
    ensures f.name == name && f.fieldType == rawType
  {
    SchemaField(name, rawType, EndsWith(rawType, "!"),
                StartsWith(rawType, "[") && ']' in rawType,
                ChainedReplace(rawType) in Scalars)
  }

  /** A field type as GraphQL writes it: a named type, or a list of one,
      either of which may be marked non-null. */
  datatype TypeRef = TypeRef(base: string, list: bool, itemRequired: bool, required: bool)

  function Notation(t: TypeRef): string {
    var bang := if t.required then "!" else "";
    if t.list then "[" + t.base + (if t.itemRequired then "!" else "") + "]" + bang
    else t.base + bang
  }

  /** A base name as `\w+` matches it: no brackets, no marks. */
  predicate PlainName(s: string) {
    |s| > 0 && forall i | 0 <= i < |s| :: s[i] !in TypeDecoration
  }

  /** Classification reads the notation back: required is the outer mark,
      list is the brackets, and the cleaned type is the base name. */
  lemma ClassifyNotation(name: string, t: TypeRef)
    requires PlainName(t.base)
    ensures ClassifyField(name, Notation(t)) == SchemaField(name, Notation(t), t.required, t.list, t.base in Scalars)
    ensures CleanType(Notation(t)) == t.base
  {
    assert CleanType(t.base) == t.base;
    ChainedReplaceIsCleanType(Notation(t));
    if t.list {
      ListNotation(t);
    } else {
      NamedNotation(t);
    }
  }

  /** The brackets and marks of a list type. */
  lemma ListNotation(t: TypeRef)
    requires PlainName(t.base) && CleanType(t.base) == t.base && t.list
    ensures var n := Notation(t);
      EndsWith(n, "!") == t.required && StartsWith(n, "[") && ']' in n && CleanType(n) == t.base
  {
    var n := Notation(t);
    var inner := if t.itemRequired then "!" else "";
    var bang := if t.required then "!" else "";
    assert n == "[" + t.base + inner + "]" + bang;
    CleanTypeByCharacter("[", t.base, '[');
    CleanTypeByCharacter("[" + t.base, inner, '!');
    CleanTypeByCharacter("[" + t.base + inner, "]", ']');
    CleanTypeByCharacter("[" + t.base + inner + "]", bang, '!');
    assert n[..1] == "[";
    assert n[|t.base| + |inner| + 1] == ']';
    if t.required {
      assert n[|n| - 1..] == "!";
    } else {
      assert n[|n| - 1..] == "]";
    }
  }

  /** The mark of a named type. */
  lemma NamedNotation(t: TypeRef)
    requires PlainName(t.base) && CleanType(t.base) == t.base && !t.list
    ensures var n := Notation(t);
      EndsWith(n, "!") == t.required && !StartsWith(n, "[") && CleanType(n) == t.base
  {
    var n := Notation(t);
    var bang := if t.required then "!" else "";
    assert n == t.base + bang;
    CleanTypeByCharacter(t.base, bang, '!');
    assert n[..1] != "[" by { assert n[..1][0] == t.base[0]; }
    if t.required {
      assert n[|n| - 1..] == "!";
    } else {
      assert n[|n| - 1..] != "!" by { assert n[|n| - 1..][0] == t.base[|t.base| - 1]; }
    }
  }

  /** `parseFields`: every match becomes a field, in order. */
  function ParseFields(captures: seq<(string, string)>): (r: seq<SchemaField>)
    ensures |r| == |captures|
    ensures forall i | 0 <= i < |r| :: r[i] == ClassifyField(captures[i].0, captures[i].1)
  {
    seq(|captures|, i requires 0 <= i < |captures| => ClassifyField(captures[i].0, captures[i].1))
  }

  // ---------------------------------------------------------------------
  // Type definitions

  /** One `type Name { body }` match: the name and the body's field
      matches. */
  datatype TypeMatch = TypeMatch(name: string, fields: seq<(string, string)>)

  /** The type a match defines. */
  function BuildType(m: TypeMatch): (t: SchemaType)
    ensures t.name == m.name && t.fields == ParseFields(m.fields)
    ensures t.namespace.None? && t.sourceFile.None? && t.apiUrl.None?
  {
    AddFields(NewSchemaType(m.name), ParseFields(m.fields))
  }

  /** Some match defines the name `k`. */
  predicate Defines(matches: seq<TypeMatch>, k: string) {
    exists i | 0 <= i < |matches| :: matches[i].name == k
  }

  lemma DefinesTail(matches: seq<TypeMatch>, k: string)
    requires |matches| > 0
    ensures Defines(matches, k) <==> matches[0].name == k || Defines(matches[1..], k)
  {
    if Defines(matches, k) && matches[0].name != k {
      var i :| 0 <= i < |matches| && matches[i].name == k;
      assert matches[1..][i - 1].name == k;
    }
    if Defines(matches[1..], k) {
      var i :| 0 <= i < |matches[1..]| && matches[1..][i].name == k;
      assert matches[i + 1].name == k;
    }
  }

  /** One step of the loop: a name already present is skipped, a new one
      goes at the end. */
  function DefineOne(acc: Schema, m: TypeMatch): (r: Schema)
    requires WellKeyed(acc)
    ensures WellKeyed(r)
    ensures |r| >= |acc| && r[..|acc|] == acc
    ensures forall k :: HasKey(r, k) <==> HasKey(acc, k) || k == m.name
    ensures !HasKey(acc, m.name) ==> r == acc + [(m.name, BuildType(m))]
    ensures HasKey(acc, m.name) ==> r == acc
  {
    if HasKey(acc, m.name) then acc
    else
      var r := acc + [(m.name, BuildType(m))];
      assert forall i | 0 <= i < |acc| :: acc[i].0 != m.name;
      assert r[|acc|].0 == m.name;
      assert forall k | HasKey(acc, k) :: HasKey(r, k) by {
        forall k | HasKey(acc, k)
          ensures HasKey(r, k)
        {
          var i :| 0 <= i < |acc| && acc[i].0 == k;
          assert r[i].0 == k;
        }
      }
      r
  }

  /** The loop of `parseTypeDefinitions` from a given map on. */
  function DefineAll(acc: Schema, matches: seq<TypeMatch>): (r: Schema)
    requires WellKeyed(acc)
    ensures WellKeyed(r)
    ensures |r| >= |acc| && r[..|acc|] == acc
    ensures forall k :: HasKey(r, k) <==> HasKey(acc, k) || Defines(matches, k)
    decreases |matches|
  {
    if |matches| == 0 then acc
    else
      var next := DefineOne(acc, matches[0]);
      var r := DefineAll(next, matches[1..]);
      assert r[..|acc|] == acc by { assert r[..|next|][..|acc|] == r[..|acc|]; }
      assert forall k :: Defines(matches, k) <==> matches[0].name == k || Defines(matches[1..], k) by {
        forall k
          ensures Defines(matches, k) <==> matches[0].name == k || Defines(matches[1..], k)
        {
          DefinesTail(matches, k);
        }
      }
      r
  }

  /** `parseTypeDefinitions` on a cleared map. */
  function ParseTypeDefinitions(matches: seq<TypeMatch>): (r: Schema)
    ensures WellKeyed(r)
    ensures forall k :: HasKey(r, k) <==> Defines(matches, k)
  {
    DefineAll([], matches)
  }

  /** No match before the `i`-th defines its name. */
  predicate FirstOfName(matches: seq<TypeMatch>, i: nat)
    requires i < |matches|
  {
    forall j | 0 <= j < i :: matches[j].name != matches[i].name
  }

  lemma FirstOfNameTail(matches: seq<TypeMatch>, i: nat)
    requires 0 < i < |matches| && FirstOfName(matches, i)
    ensures FirstOfName(matches[1..], i - 1)
  {
    forall j | 0 <= j < i - 1
      ensures matches[1..][j].name != matches[1..][i - 1].name
    {
      assert matches[1..][j] == matches[j + 1];
    }
  }

  /** A name's first definition is the one kept; later ones are ignored. */
  lemma {:induction false} FirstDefinitionWins(acc: Schema, matches: seq<TypeMatch>, i: nat)
    requires WellKeyed(acc) && i < |matches| && !HasKey(acc, matches[i].name)
    requires FirstOfName(matches, i)
    ensures Get(DefineAll(acc, matches), matches[i].name) == Some(BuildType(matches[i]))
    decreases |matches|
  {
    if i == 0 {
      DefinedFirst(acc, matches);
    } else {
      var next := DefineOne(acc, matches[0]);
      var rest := matches[1..];
      assert DefineAll(acc, matches) == DefineAll(next, rest);
      assert rest[i - 1] == matches[i];
      assert matches[0].name != matches[i].name;
      FirstOfNameTail(matches, i);
      assert !HasKey(next, rest[i - 1].name);
      assert |rest| < |matches|;
      FirstDefinitionWins(next, rest, i - 1);
    }
  }

  /** A name not yet present is stored with the type its match builds. */
  lemma DefinedFirst(acc: Schema, matches: seq<TypeMatch>)
    requires WellKeyed(acc) && |matches| > 0 && !HasKey(acc, matches[0].name)
    ensures Get(DefineAll(acc, matches), matches[0].name) == Some(BuildType(matches[0]))
  {
    var next := DefineOne(acc, matches[0]);
    var r := DefineAll(acc, matches);
    assert r == DefineAll(next, matches[1..]);
    assert next[|acc|] == (matches[0].name, BuildType(matches[0]));
    assert r[|acc|] == r[..|next|][|acc|];
    GetUnique(r, |acc|);
  }

  // ---------------------------------------------------------------------
  // Directives

  /** What a directive sets on a type. */
  datatype Setting = SourceFile(file: string) | ApiUrl(url: string) | Namespace(ns: string)

  function Apply(t: SchemaType, s: Setting): SchemaType {
    match s
    case SourceFile(file) => SetSourceFile(t, file)
    case ApiUrl(url) => SetApiUrl(t, url)
    case Namespace(ns) => SetNamespace(t, ns)
  }

  /** `schemaTypes.get(name).setX(...)` when the name is present. */
  function ApplyTo(schema: Schema, name: string, s: Setting): (r: Schema)
    ensures |r| == |schema|
    ensures forall i | 0 <= i < |schema| :: r[i] == if schema[i].0 == name then (name, Apply(schema[i].1, s)) else schema[i]
  {
    seq(|schema|, i requires 0 <= i < |schema| => if schema[i].0 == name then (name, Apply(schema[i].1, s)) else schema[i])
  }

  /** The types keep their names, their fields and their order. */
  predicate SameShape(a: Schema, b: Schema) {
    |a| == |b| && forall i | 0 <= i < |a| ::
      a[i].0 == b[i].0 && a[i].1.name == b[i].1.name && a[i].1.fields == b[i].1.fields
  }

  /** `@source(file: ...)` or `@api(url: ...)` captures, applied in match
      order: the last one for a type wins. */
  function ApplyAll(schema: Schema, captures: seq<(string, Setting)>): (r: Schema)
    ensures SameShape(schema, r)
    decreases |captures|
  {
    if |captures| == 0 then schema
    else ApplyAll(ApplyTo(schema, captures[0].0, captures[0].1), captures[1..])
  }

  /** `@params` on a type present in the schema: that type and every type
      whose name starts with its name get the lower-cased name as
      namespace. */
  function ParamsDirective(schema: Schema, typeName: string): (r: Schema)
    ensures SameShape(schema, r)
    ensures HasKey(schema, typeName) ==> forall i | 0 <= i < |schema| ::
      r[i].1 == if StartsWith(schema[i].0, typeName) then SetNamespace(schema[i].1, Lower(typeName)) else schema[i].1
    ensures !HasKey(schema, typeName) ==> r == schema
  {
    if !HasKey(schema, typeName) then schema
    else
      seq(|schema|, i requires 0 <= i < |schema| =>
        if StartsWith(schema[i].0, typeName) then (schema[i].0, SetNamespace(schema[i].1, Lower(typeName))) else schema[i])
  }

  function ParamsAll(schema: Schema, typeNames: seq<string>): (r: Schema)
    ensures SameShape(schema, r)
    decreases |typeNames|
  {
    if |typeNames| == 0 then schema else ParamsAll(ParamsDirective(schema, typeNames[0]), typeNames[1..])
  }

  // ---------------------------------------------------------------------
  // Namespace inference

  /** A namespace once set is never replaced. */
  predicate KeepsNamespaces(a: Schema, b: Schema)
    requires |a| == |b|
  {
    forall i | 0 <= i < |a| :: HasNamespace(a[i].1) ==> b[i].1.namespace == a[i].1.namespace
  }

  /** The first pass: a type without a namespace whose name starts with a
      capitalised namespace takes the first such namespace, lower-cased. */
  function InferFromName(schema: Schema, prefixes: seq<string>): (r: Schema)
    ensures SameShape(schema, r) && KeepsNamespaces(schema, r)
    ensures forall i | 0 <= i < |schema| && !HasNamespace(schema[i].1) ::
      match FirstPrefix(prefixes, schema[i].1.name)
      case Some(p) => r[i].1.namespace == Some(Lower(prefixes[p]))
      case None => r[i] == schema[i]
  {
    seq(|schema|, i requires 0 <= i < |schema| =>
      if HasNamespace(schema[i].1) then schema[i]
      else match FirstPrefix(prefixes, schema[i].1.name)
        case Some(p) => (schema[i].0, SetNamespace(schema[i].1, Lower(prefixes[p])))
        case None => schema[i])
  }

  /** The first namespace `ns` for which `Ns` + `entity` is a type of the
      schema. */
  function FirstNamespaceWith(schema: Schema, namespaces: seq<string>, entity: string): (r: Option<string>)
    ensures r.Some? ==> r.value in namespaces && HasKey(schema, Capitalize(r.value) + entity)
    ensures r.None? ==> forall ns | ns in namespaces :: !HasKey(schema, Capitalize(ns) + entity)
  {
    if |namespaces| == 0 then None
    else if HasKey(schema, Capitalize(namespaces[0]) + entity) then Some(namespaces[0])
    else FirstNamespaceWith(schema, namespaces[1..], entity)
  }

  /** The second pass: a type still without a namespace whose name is one
      of the entity suffixes joins the first namespace that has its own
      version of the entity (`Customer` joins `marketing` when
      `MarketingCustomer` exists). */
  function InferCommonTypes(schema: Schema, namespaces: seq<string>, suffixes: seq<string>): (r: Schema)
    ensures SameShape(schema, r) && KeepsNamespaces(schema, r)
    ensures forall i | 0 <= i < |schema| && !HasNamespace(schema[i].1) ::
      if schema[i].0 in suffixes && FirstNamespaceWith(schema, namespaces, schema[i].0).Some? then
        r[i].1.namespace == FirstNamespaceWith(schema, namespaces, schema[i].0)
      else r[i] == schema[i]
  {
    seq(|schema|, i requires 0 <= i < |schema| =>
      if !HasNamespace(schema[i].1) && schema[i].0 in suffixes then
        match FirstNamespaceWith(schema, namespaces, schema[i].0)
        case Some(ns) => (schema[i].0, SetNamespace(schema[i].1, ns))
        case None => schema[i]
      else schema[i])
  }

  /** The namespaces the fields of `t` point at: one entry per field whose
      cleaned type is a type with a namespace. */
  function References(schema: Schema, fields: seq<SchemaField>): (r: seq<string>)
    ensures forall x | x in r :: x != ""
  {
    if |fields| == 0 then []
    else
      var target := Get(schema, CleanType(fields[0].fieldType));
      var here := if target.Some? && HasNamespace(target.value) then [target.value.namespace.value] else [];
      here + References(schema, fields[1..])
  }

  function Count(xs: seq<string>, x: string): nat {
    if |xs| == 0 then 0 else (if xs[0] == x then 1 else 0) + Count(xs[1..], x)
  }

  /** A namespace of maximal count among the references. Java takes the
      maximum over a `HashMap`, whose order among ties is not specified;
      the model takes the first in field order. */
  function MostCommon(xs: seq<string>): (r: string)
    requires |xs| > 0
    ensures r in xs
    ensures forall x | x in xs :: Count(xs, x) <= Count(xs, r)
  {
    MostCommonFrom(xs, 1, xs[0])
  }

  function MostCommonFrom(xs: seq<string>, i: nat, best: string): (r: string)
    requires i <= |xs| && best in xs[..i]
    requires forall j | 0 <= j < i :: Count(xs, xs[j]) <= Count(xs, best)
    ensures r in xs
    ensures forall x | x in xs :: Count(xs, x) <= Count(xs, r)
    decreases |xs| - i
  {
    if i == |xs| then
      assert xs[..i] == xs;
      assert forall x | x in xs :: Count(xs, x) <= Count(xs, best) by {
        forall x | x in xs
          ensures Count(xs, x) <= Count(xs, best)
        {
          var j :| 0 <= j < |xs| && xs[j] == x;
        }
      }
      best
    else
      var next := if Count(xs, xs[i]) > Count(xs, best) then xs[i] else best;
      assert best in xs[..i + 1] by { assert xs[..i] <= xs[..i + 1]; }
      assert xs[..i + 1][i] == xs[i];
      MostCommonFrom(xs, i + 1, next)
  }

  /** The third pass, from type `i` on: a type still without a namespace
      takes the most common namespace among the types its fields refer to,
      as those types stand at that moment (earlier types of this pass may
      already have been given one). */
  function InferFromReferences(schema: Schema, i: nat): (r: Schema)
    requires i <= |schema|
    ensures SameShape(schema, r) && KeepsNamespaces(schema, r)
    ensures r[..i] == schema[..i]
    decreases |schema| - i
  {
    if i == |schema| then schema
    else
      var refs := References(schema, schema[i].1.fields);
      var next := if !HasNamespace(schema[i].1) && |refs| > 0
        then schema[i := (schema[i].0, SetNamespace(schema[i].1, MostCommon(refs)))]
        else schema;
      var r := InferFromReferences(next, i + 1);
      assert r[..i] == schema[..i] by {
        assert r[..i + 1][..i] == r[..i];
        assert next[..i] == schema[..i];
      }
      r
  }

  /** The step the third pass takes at type `i`: the namespace it chooses
      is referenced by a field and no namespace is referenced more often. */
  lemma ReferenceStep(schema: Schema, i: nat)
    requires i < |schema| && !HasNamespace(schema[i].1)
    requires |References(schema, schema[i].1.fields)| > 0
    ensures InferFromReferences(schema, i)[i].1.namespace.Some?
    ensures var refs := References(schema, schema[i].1.fields);
      var ns := InferFromReferences(schema, i)[i].1.namespace.value;
      ns in refs && forall x | x in refs :: Count(refs, x) <= Count(refs, ns)
  {
    var refs := References(schema, schema[i].1.fields);
    var next := schema[i := (schema[i].0, SetNamespace(schema[i].1, MostCommon(refs)))];
    var r := InferFromReferences(next, i + 1);
    assert r[..i + 1] == next[..i + 1];
    assert r[i] == r[..i + 1][i];
  }

  /** `inferNamespacesFromRelationships` with the configuration's
      namespaces and suffixes. */
  function InferNamespaces(schema: Schema, config: Config): (r: Schema)
    ensures SameShape(schema, r) && KeepsNamespaces(schema, r)
  {
    var first := InferFromName(schema, CapitalizeAll(config.namespaces));
    var second := InferCommonTypes(first, config.namespaces, config.suffixes);
    InferFromReferences(second, 0)
  }

  /** The first pass names a type exactly as `extractNamespaceFromTypeName`
      would, for a configuration without empty namespaces. */
  lemma NameInferenceAgreesWithConfig(schema: Schema, c: Config, i: nat)
    requires Valid(c) && NoEmptyNamespace(c.namespaces)
    requires i < |schema| && !HasNamespace(schema[i].1)
    ensures ExtractNamespaceFromTypeName(c, schema[i].1.name).Ok?
    ensures var found := ExtractNamespaceFromTypeName(c, schema[i].1.name).value.0;
      InferFromName(schema, CapitalizeAll(c.namespaces))[i].1.namespace ==
        if found.Some? then found else schema[i].1.namespace
  {
    var prefixes := CapitalizeAll(c.namespaces);
    var name := schema[i].1.name;
    var r := InferFromName(schema, prefixes);
    var found := ExtractNamespaceFromTypeName(c, name).value.0;
    match FirstPrefix(prefixes, name)
    case Some(p) =>
      LowerCapitalize(c.namespaces[p]);
      assert StartsWith(name, Capitalize(c.namespaces[p]));
    case None =>
  }

  /** A namespace given by `@params` outlives the inference: every type
      whose name starts with the directive's type keeps it. */
  lemma ParamsSurvivesInference(schema: Schema, typeName: string, c: Config)
    requires HasKey(schema, typeName) && typeName != ""
    ensures var r := InferNamespaces(ParamsDirective(schema, typeName), c);
      forall i | 0 <= i < |schema| && StartsWith(schema[i].0, typeName) ::
        r[i].1.namespace == Some(Lower(typeName))
  {
    var p := ParamsDirective(schema, typeName);
    var r := InferNamespaces(p, c);
    forall i | 0 <= i < |schema| && StartsWith(schema[i].0, typeName)
      ensures r[i].1.namespace == Some(Lower(typeName))
    {
      assert p[i].1.namespace == Some(Lower(typeName));
      assert HasNamespace(p[i].1);
    }
  }

  /** Shape and kept namespaces carry over a chain of passes. */
  lemma ShapeChain(a: Schema, b: Schema, c: Schema)
    requires SameShape(a, b) && SameShape(b, c)
    requires KeepsNamespaces(a, b) && KeepsNamespaces(b, c)
    ensures SameShape(a, c) && KeepsNamespaces(a, c)
  {
  }

  // ---------------------------------------------------------------------
  // The whole parse

  /** What the regular expressions capture from a cleaned schema text. */
  datatype Captures = Captures(
    types: seq<TypeMatch>,
    sources: seq<(string, string)>,
    apis: seq<(string, string)>,
    params: seq<string>)

  function SourceSettings(cs: seq<(string, string)>): (r: seq<(string, Setting)>)
    ensures |r| == |cs|
  {
    seq(|cs|, i requires 0 <= i < |cs| => (cs[i].0, SourceFile(cs[i].1)))
  }

  function ApiSettings(cs: seq<(string, string)>): (r: seq<(string, Setting)>)
    ensures |r| == |cs|
  {
    seq(|cs|, i requires 0 <= i < |cs| => (cs[i].0, ApiUrl(cs[i].1)))
  }

  /** `parseSchema`: the map is cleared, the types defined, then the
      `@source`, `@api` and `@params` directives applied and namespaces
      inferred. */
  function ParseSchema(caps: Captures, config: Config): (r: Schema)
    ensures WellKeyed(r)
    ensures forall k :: HasKey(r, k) <==> Defines(caps.types, k)
    ensures SameShape(ParseTypeDefinitions(caps.types), r)
  {
    var defined := ParseTypeDefinitions(caps.types);
    var sourced := ApplyAll(defined, SourceSettings(caps.sources));
    var withApi := ApplyAll(sourced, ApiSettings(caps.apis));
    var withParams := ParamsAll(withApi, caps.params);
    var r := InferNamespaces(withParams, config);
    SameShapeTrans(defined, sourced, withApi);
    SameShapeTrans(defined, withApi, withParams);
    SameShapeTrans(defined, withParams, r);
    SameShapeKeys(defined, r);
    r
  }

  lemma SameShapeTrans(a: Schema, b: Schema, c: Schema)
    requires SameShape(a, b) && SameShape(b, c)
    ensures SameShape(a, c)
  {
  }

  /** Types of the same shape hold the same keys. */
  lemma SameShapeKeys(a: Schema, b: Schema)
    requires SameShape(a, b)
    ensures WellKeyed(a) ==> WellKeyed(b)
    ensures forall k :: HasKey(a, k) <==> HasKey(b, k)
  {
    forall k | HasKey(b, k)
      ensures HasKey(a, k)
    {
      var i :| 0 <= i < |b| && b[i].0 == k;
      assert a[i].0 == k;
    }
    forall k | HasKey(a, k)
      ensures HasKey(b, k)
    {
      var i :| 0 <= i < |a| && a[i].0 == k;
      assert b[i].0 == k;
    }
  }

  /** Every parsed type holds the fields of its first definition, in source
      order: the directives and the inference never touch fields. */
  lemma ParsedFields(caps: Captures, config: Config, i: nat)
    requires i < |caps.types|
    requires FirstOfName(caps.types, i)
    ensures Get(ParseSchema(caps, config), caps.types[i].name).Some?
    ensures Get(ParseSchema(caps, config), caps.types[i].name).value.fields == ParseFields(caps.types[i].fields)
  {
    var defined := ParseTypeDefinitions(caps.types);
    var r := ParseSchema(caps, config);
    var name := caps.types[i].name;
    FirstDefinitionWins([], caps.types, i);
    assert HasKey(defined, name);
    var p :| 0 <= p < |defined| && defined[p].0 == name;
    GetUnique(defined, p);
    assert r[p].0 == name;
    GetUnique(r, p);
  }
}
