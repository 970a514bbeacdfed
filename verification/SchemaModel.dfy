/** The schema's value classes: `SchemaField`, a field as the parser
    classified it, and `SchemaType`, a named type with its fields and the
    optional settings its directives give it. Java's `null` for an unset
    attribute is `None`. A schema is the parser's insertion-ordered map from
    type name to type. */
module SchemaModel {
  import opened Wrappers
  import opened Strings
  import opened Assoc

  /** The characters `getCleanType` strips from a field's type text. */
  const TypeDecoration: set<char> := {'[', ']', '!'}

  /** The built-in scalar type names. */
  const Scalars: set<string> := {"ID", "String", "Int", "Float", "Boolean"}

  /** A field of a type. It has no setters: the getters return exactly the
      constructor's arguments. */
  datatype SchemaField = SchemaField(name: string, fieldType: string, required: bool, isList: bool, isScalar: bool)

  /** `getCleanType()`: the type text without list brackets and non-null
      marks. */
  function CleanType(fieldType: string): (r: string)
    ensures forall i :: 0 <= i < |r| ==> r[i] !in TypeDecoration
    ensures |r| <= |fieldType|
  {
    RemoveChars(fieldType, TypeDecoration)
  }

  /** Cleaning acts character by character: it keeps every other character,
      in order, and drops the decoration. */
  lemma CleanTypeByCharacter(a: string, b: string, c: char)
    ensures CleanType(a + b) == CleanType(a) + CleanType(b)
    ensures CleanType([c]) == if c in TypeDecoration then "" else [c]
  {
    RemoveCharsConcat(a, b, TypeDecoration);
  }

  /** Cleaning a cleaned type changes nothing. */
  lemma CleanTypeIdempotent(fieldType: string)
    ensures CleanType(CleanType(fieldType)) == CleanType(fieldType)
  {
    RemoveCharsIdempotent(fieldType, TypeDecoration);
  }

  /** The inline cleaning the parser and the relationship detector repeat:
      `.replace("[", "").replace("]", "").replace("!", "")`. */
  function ChainedReplace(fieldType: string): string {
    RemoveChars(RemoveChars(RemoveChars(fieldType, {'['}), {']'}), {'!'})
  }

  /** The chained replacements and `getCleanType` agree on every text. */
  lemma ChainedReplaceIsCleanType(fieldType: string)
    ensures ChainedReplace(fieldType) == CleanType(fieldType)
  {
    RemoveCharsTwice(fieldType, {'['}, {']'});
    RemoveCharsTwice(fieldType, {'[', ']'}, {'!'});
    assert {'['} + {']'} == {'[', ']'};
    assert {'[', ']'} + {'!'} == TypeDecoration;
  }

  // ---------------------------------------------------------------------
  // Types

  /** A type of the schema. Only the name has no setter. */
  datatype SchemaType = SchemaType(
    name: string,
    fields: seq<SchemaField>,
    namespace: Option<string>,
    sourceFile: Option<string>,
    apiUrl: Option<string>)

  /** `new SchemaType(name)`. */
  function NewSchemaType(name: string): (r: SchemaType)
    ensures r.name == name && |r.fields| == 0
    ensures r.namespace.None? && r.sourceFile.None? && r.apiUrl.None?
  {
    SchemaType(name, [], None, None, None)
  }

  /** `addField(field)`: the field goes at the end; nothing else changes. */
  function AddField(t: SchemaType, f: SchemaField): (r: SchemaType)
    ensures |r.fields| == |t.fields| + 1 && r.fields[|t.fields|] == f
    ensures r.fields[..|t.fields|] == t.fields
    ensures r.(fields := t.fields) == t
  {
    t.(fields := t.fields + [f])
  }

  function SetNamespace(t: SchemaType, ns: string): (r: SchemaType)
    ensures r.namespace == Some(ns) && r.(namespace := t.namespace) == t
  {
    t.(namespace := Some(ns))
  }

  function SetSourceFile(t: SchemaType, file: string): (r: SchemaType)
    ensures r.sourceFile == Some(file) && r.(sourceFile := t.sourceFile) == t
  {
    t.(sourceFile := Some(file))
  }

  function SetApiUrl(t: SchemaType, url: string): (r: SchemaType)
    ensures r.apiUrl == Some(url) && r.(apiUrl := t.apiUrl) == t
  {
    t.(apiUrl := Some(url))
  }

  /** Adding fields one by one keeps them in the order they were added. */
  function AddFields(t: SchemaType, fs: seq<SchemaField>): (r: SchemaType)
    ensures r.fields == t.fields + fs
    ensures r.(fields := t.fields) == t
    decreases |fs|
  {
    if |fs| == 0 then t else AddFields(AddField(t, fs[0]), fs[1..])
  }

  /** The setters touch separate attributes: applied in either order they
      give the same type, and no sequence of them renames the type. */
  lemma SettersIndependent(t: SchemaType, ns: string, file: string, url: string)
    ensures SetNamespace(SetSourceFile(t, file), ns) == SetSourceFile(SetNamespace(t, ns), file)
    ensures SetNamespace(SetApiUrl(t, url), ns) == SetApiUrl(SetNamespace(t, ns), url)
    ensures SetSourceFile(SetApiUrl(t, url), file) == SetApiUrl(SetSourceFile(t, file), url)
    ensures SetApiUrl(SetSourceFile(SetNamespace(t, ns), file), url).name == t.name
  {
  }

  /** A namespace counts as set when it is present and not empty. */
  predicate HasNamespace(t: SchemaType) {
    t.namespace.Some? && t.namespace.value != ""
  }

  // ---------------------------------------------------------------------
  // Schemas

  /** The parser's map from type name to type, in insertion order. */
  type Schema = Entries<string, SchemaType>

  /** Every type is stored under its own name, once. */
  predicate WellKeyed(schema: Schema) {
    UniqueKeys(schema) && forall i | 0 <= i < |schema| :: schema[i].0 == schema[i].1.name
  }

  /** `schema.containsKey(name)`. */
  predicate InSchema(schema: Schema, name: string) {
    HasKey(schema, name)
  }
}
