# GQL: a Dafny model of its two cores

The repository holds two independent programs, and this project models the
pure core of each.

**Rule-similarity analyser (Python).**
- `flatten_rule` turns a rule's JSON into a text. It decodes strings with
  `json.loads` first and falls back to the raw text when decoding fails.
- `compute_similarity_report` lists each rule's `top_k` most similar
  other rules.
- `cluster_rules` names each cluster by its three most frequent tokens.
- The dashboard (`app.py`) applies a cluster picker and a
  duplicate-threshold filter.

The embedding model, cosine similarity, DBSCAN, the tokenizer and UMAP are
not modelled. Their outputs enter the model as inputs: a real matrix,
cluster ids, and a token-count matrix with its vocabulary.

**GraphQL-like query engine (Java).**
- The schema value classes `SchemaField`, `SchemaType` and
  `RelationshipInfo`.
- `DomainConfig`, which holds the naming rules between namespaces
  (`marketing`) and type names (`MarketingCustomer`).
- `SchemaParser`, from the regular-expression captures on:
  - field classification;
  - first definition wins;
  - comment removal;
  - the `@source`, `@api` and `@params` directives;
  - the three namespace-inference passes.
- `DataLoader`'s in-memory store with its per-field indexes.
- `QueryProcessor`:
  - WHERE matching, projection, and field and WHERE extraction;
  - the per-namespace lookup maps;
  - the priority-ordered type-name resolution;
  - namespace and type queries.
- `GraphQLQueryTransformer`, which rewrites a GraphQL document (an abstract
  syntax tree) into the internal JSON query.
- From `GQL`:
  - relationship detection;
  - namespace grouping;
  - development mode;
  - error responses;
  - the decisions of the `/graphql` endpoint.

**How the model represents them.**
- Java objects become immutable datatypes. Mutators become functions that
  return the new state.
- `LinkedHashMap` and Jackson objects keep insertion order: they are
  modelled as association lists (`Assoc`), where a put replaces in place or
  appends.
- Hash-map iteration orders are not fixed by the source. They appear as an
  order the caller supplies, or are stated existentially.
- Java exceptions the core can raise become `Result` errors:
  - `substring(0, 1)` on an empty text;
  - the `ClassCastException` of a wrongly typed `fields` or `pagination`
    node;
  - a document without an operation.
- Java `int` wrap-around is modelled explicitly (`Int32.Wrap32`), for
  `String.hashCode` and for `intValue()` on GraphQL integers.

Module layout:
- Shared helpers: `Wrappers` (Option, Result), `Strings` (ASCII case
  mapping, prefixes, join, decimal text), `Assoc`, `Int32`, `JsonTree`
  (Jackson nodes and the `Object` values Jackson reads records into).
- Python half: `PyJson`, `RuleText`, `Ranking`, `SimilarityReport`,
  `ClusterLabels`, `ReportFilters`.
- Java half: `SchemaModel`, `Relationships`, `DomainConfig`, `SchemaParser`,
  `DataLoader`, `QueryProcessor`, `GraphQLTransformer`, `Gql`.

`PyJson` is the model's own `json.loads` for the subset of JSON the rules
use, with an encoder. It carries a round-trip proof, so that "a rule stored
as its JSON text flattens like the rule itself" can be stated.

## Model

| member | source | states |
|---|---|---|
| RuleText.FlattenRule | rule_similarity_core.py:10-23 | a text that does not decode is returned unchanged; a text that decodes is flattened as the decoded value; a non-text value is flattened directly, and the function is total (it never raises) |
| RuleText.MemberText | rule_similarity_core.py:18 | one object member renders as its key, a colon, then the member's own rendering |
| RuleText.RenderEmpty | rule_similarity_core.py:17-20 | an empty object and an empty list both flatten to the empty text |
| RuleText.NestedTextVerbatim | rule_similarity_core.py:13-22 | a string at any position of a list occurs verbatim in the list's text, and a list of that string alone renders as the string: nested strings are never decoded again, only the top level goes through `json.loads` |
| RuleText.NestedMemberVerbatim | rule_similarity_core.py:13-19 | a string held by any member of an object occurs verbatim after its `key:` in the object's text, and a one-member object renders as exactly `key:` and the string |
| RuleText.FloatMemberExample | rule_similarity_core.py:17-22 | a structured rule holding a float, `{"threshold": 0.5}`, flattens to `threshold:0.5` |
| RuleText.MemberInText | rule_similarity_core.py:17-18 | every `key:value` piece of an object occurs in the object's text |
| RuleText.RenderObjectSnoc | rule_similarity_core.py:18 | one more member at the end of an object adds exactly one space and its `key:value` piece at the end, so members appear in the object's own key order |
| RuleText.RenderArraySnoc | rule_similarity_core.py:20 | one more item at the end of a list adds exactly one space and its rendering at the end, so items appear in list order |
| RuleText.FlattenEncoded | rule_similarity_core.py:11-23 | a rule stored as the JSON text of a value flattens exactly as the value itself |
| RuleText.TextColumn | rule_similarity_core.py:27 | the `text_rule` column has one entry per row, in row order, each the flattening of that row's `rule_json` |
| PyJson.StringRoundTrip | rule_similarity_core.py:13 | the body of an encoded string literal decodes back to the string, whatever characters it holds |
| PyJson.IntRoundTrip | rule_similarity_core.py:13 | the decimal text of any integer decodes back to that integer when followed by a delimiter |
| PyJson.ValueRoundTrip | rule_similarity_core.py:13 | the encoding of a well-formed value decodes back to that value and leaves the following text untouched |
| PyJson.LoadsEncode | rule_similarity_core.py:13 | decoding the encoding of a well-formed value gives the value back |
| Ranking.SortByScore | rule_similarity_core.py:36 | `sort_values(ascending=False)`: the result is a permutation of the indices, in non-increasing score |
| Ranking.Head | rule_similarity_core.py:36 | `head(k)` is a prefix of length `min(k, n)` for `k >= 0`, and drops the last `-k` entries for negative `k` |
| Ranking.TopK | rule_similarity_core.py:36 | the chosen indices come from the input, in non-increasing score; they are distinct when the input is; there are `min(k, n)` of them |
| Ranking.TopKIsTop | rule_similarity_core.py:36 | every index left out scores no higher than any index chosen |
| SimilarityReport.Others | rule_similarity_core.py:36 | `drop(rule)` keeps every column but the rule's own, in increasing order, so `n - 1` of them |
| SimilarityReport.Block | rule_similarity_core.py:36 | a rule's chosen columns are distinct, never the rule itself, in non-increasing similarity, and there are `min(k, n - 1)` of them |
| SimilarityReport.BlockIsTop | rule_similarity_core.py:36 | no other rule passed over is more similar than a chosen one |
| SimilarityReport.Report | rule_similarity_core.py:31-39 | the report exists exactly when the rule names are distinct; with repeated names `loc[rule]` does not select one row |
| SimilarityReport.ReportSize | rule_similarity_core.py:35-38 | with `n` rules and `k >= 0`, the report has `n * min(k, n - 1)` rows, so a single rule gives none |
| SimilarityReport.ReportLayout | rule_similarity_core.py:35-38 | row `i * m + p` is the `p`-th choice of rule `i`: blocks follow the matrix's index order, and each row carries both names and their similarity |
| SimilarityReport.ReportRowsValid | rule_similarity_core.py:35-38 | no row pairs a rule with itself; each row carries two distinct rules and the matrix entry between them |
| ClusterLabels.ColumnSumZero | rule_similarity_core.py:54 | a token's summed count over a cluster is zero exactly when no row of the cluster holds the token |
| ClusterLabels.ClusterCounts | rule_similarity_core.py:51-55 | the cluster's count vector has one entry per vocabulary token, each the token's count summed over the cluster's rows |
| ClusterLabels.TopIndices | rule_similarity_core.py:56 | `argsort()[::-1][:3]` picks `min(3, vocabulary)` distinct tokens, in non-increasing count |
| ClusterLabels.TopIndicesAreTop | rule_similarity_core.py:56 | a token left out of the label occurs in the cluster no more often than any chosen token |
| ClusterLabels.TopTokens | rule_similarity_core.py:50-57 | a cluster without rows is labelled with the empty text |
| ClusterLabels.LabelNamesTopTokens | rule_similarity_core.py:57 | the label of a non-empty cluster contains the name of each chosen token |
| ClusterLabels.SortedIds | rule_similarity_core.py:59 | `sorted(unique())`: strictly increasing, and holding exactly the ids that occur |
| ClusterLabels.LabelTable | rule_similarity_core.py:59 | the label table's keys are exactly the sorted distinct cluster ids, each with its cluster's `top_tokens` |
| ClusterLabels.RowLabels | rule_similarity_core.py:60 | every row's label is the table's entry for the row's cluster id, in row order |
| ClusterLabels.ClusterRules | rule_similarity_core.py:41-61 | labelling fails exactly when the vocabulary is empty, where the vectorizer raises |
| ClusterLabels.RowsGetClusterLabel | rule_similarity_core.py:59-60 | every row is labelled, and with the `top_tokens` of its own cluster |
| ReportFilters.OptionText | app.py:50 | no cluster option can be mistaken for `"All"` |
| ReportFilters.Options | app.py:48-51 | the picker offers `"All"` first, then one `"{cid} - {label}"` per label-table entry, in table order |
| ReportFilters.SelectedCluster | app.py:65-66 | `"All"` selects no cluster |
| ReportFilters.OptionRoundTrip | app.py:50-66 | `split(" - ")[0]` of an option reads back the cluster id it was made from, whatever the label holds |
| ReportFilters.RowsOfCluster | app.py:67 | the filtered table holds exactly the rows whose cluster id is the selected one |
| ReportFilters.RowsOfClusterOrder | app.py:67 | the filter keeps each row of the cluster as often as the table holds it, and adds nothing |
| ReportFilters.RowsOfClusterAppend | app.py:67 | the filter keeps table order: the cluster's rows of a table made of two parts are those of the first part followed by those of the second |
| ReportFilters.FilterBySelection | app.py:65-67 | `"All"` leaves the table unchanged |
| ReportFilters.PickOption | app.py:50-67 | picking a cluster's option keeps exactly the rows `RowsOfCluster` keeps: that cluster's rows, each as often as the table holds it, in table order (`ReportFilters.RowsOfClusterAppend`) |
| ReportFilters.KeepAtLeast | app.py:70 | on a report frame with a `similarity` column, every kept row has similarity at least the threshold, every row at or above it is kept as often as the report holds it, and rows below it are dropped |
| ReportFilters.AtLeast | app.py:70 | fails (`KeyError: 'similarity'`) exactly when the report has no rows, because `pd.DataFrame([])` has no columns (rule_similarity_core.py:34-39); otherwise every kept row has similarity at least the threshold, every row at or above it is kept as often as the report holds it, and rows below it are dropped |
| ReportFilters.SortBySimilarity | app.py:71 | sorting is a permutation in non-increasing similarity |
| ReportFilters.Duplicates | app.py:70-71 | fails exactly when the report has no rows; otherwise the duplicates are exactly the rows at or above the threshold, as a multiset, in non-increasing similarity |
| ReportFilters.DuplicatesCount | app.py:70-74 | the app stops before the count exactly when the report has no rows; otherwise the count shown as possible duplicates is the number of report rows at or above the threshold |
| ReportFilters.AtLeastCount | app.py:70 | the threshold filter keeps exactly as many rows as lie at or above the threshold, whenever it does not fail |
| ReportFilters.ThresholdMonotone | app.py:70-71 | raising the threshold never adds a duplicate and never changes whether the app stops |
| ReportFilters.SingleRuleUploadStops | app.py:70 | a single-rule upload gives a report with no rows, and the duplicate table then fails with `KeyError: 'similarity'` |
| ReportFilters.ShownDuplicates | app.py:70-74 | the corrected table never fails: the rows at or above the threshold, as a multiset, in non-increasing similarity, as many as the count, and none for an empty report |
| ReportFilters.ShownDuplicatesAgrees | app.py:70-104 | wherever the app does not stop, its duplicate table is the corrected one, and an empty report gives the empty table that app.py:101-102 reports as "No duplicates found" |
| SchemaModel.CleanType | src/main/java/org/example/schema/SchemaField.java:53-58 | the cleaned type holds no `[`, `]` or `!` and is no longer than the type text |
| SchemaModel.CleanTypeByCharacter | src/main/java/org/example/schema/SchemaField.java:53-58 | cleaning works character by character: it removes every `[`, `]` and `!` and keeps every other character, in order |
| SchemaModel.CleanTypeIdempotent | src/main/java/org/example/schema/SchemaField.java:53-58 | cleaning a cleaned type changes nothing |
| SchemaModel.ChainedReplaceIsCleanType | src/main/java/org/example/schema/SchemaParser.java:247-250 | the inline `replace` chain of the parser and of the relationship detector agrees with `getCleanType` on every text |
| SchemaModel.NewSchemaType | src/main/java/org/example/schema/SchemaType.java:13-15 | a new type has the given name, no fields, and no namespace, source file or API URL |
| SchemaModel.AddField | src/main/java/org/example/schema/SchemaType.java:17-19 | `addField` appends exactly one field at the end; the earlier fields and every other attribute are unchanged |
| SchemaModel.SetNamespace | src/main/java/org/example/schema/SchemaType.java:25-27 | the namespace is set and nothing else changes |
| SchemaModel.SetSourceFile | src/main/java/org/example/schema/SchemaType.java:33-35 | the source file is set and nothing else changes |
| SchemaModel.SetApiUrl | src/main/java/org/example/schema/SchemaType.java:41-43 | the API URL is set and nothing else changes |
| SchemaModel.AddFields | src/main/java/org/example/schema/SchemaType.java:17-19 | fields added one by one are kept in the order added, after the existing ones |
| SchemaModel.SettersIndependent | src/main/java/org/example/schema/SchemaType.java:13-47 | the setters commute pairwise, and the name survives every setter |
| Relationships.SettersBuildConstructor | src/main/java/org/example/RelationshipInfo.java:18-56 | setting all four attributes rebuilds what the four-argument constructor builds; each setter leaves the other attributes alone |
| Relationships.Equals | src/main/java/org/example/RelationshipInfo.java:69-79 | `equals` holds exactly when the four attributes are equal |
| Relationships.StringHash | src/main/java/org/example/RelationshipInfo.java:83-85 | `String.hashCode` is a 32-bit `int` |
| Relationships.StringHashIsPolynomial | src/main/java/org/example/RelationshipInfo.java:83-85 | `String.hashCode`, wrapping at every step, equals the polynomial `sum c_i * 31^(n-1-i)` wrapped once to 32 bits |
| Relationships.HashCode | src/main/java/org/example/RelationshipInfo.java:82-88 | `hashCode` is a 32-bit `int` |
| Relationships.HashCodeIsPolynomial | src/main/java/org/example/RelationshipInfo.java:82-88 | `hashCode` is `31^3 h(s) + 31^2 h(f) + 31 h(t) + (isList ? 1 : 0)` wrapped once to 32 bits |
| Relationships.HashConsistentWithEquals | src/main/java/org/example/RelationshipInfo.java:69-88 | equal objects hash equally, and flipping `isList` on shifts the hash by exactly one |
| Relationships.TextRoundTrip | src/main/java/org/example/RelationshipInfo.java:59-66 | when no name holds a quote, the `toString` text determines the object: it parses back to all four attributes |
| DomainConfig.Default | src/main/java/org/example/config/DomainConfig.java:28-49 | the defaults are the five namespaces and nine entity suffixes, in the listed order, with no cache |
| DomainConfig.CapitalizeAll | src/main/java/org/example/config/DomainConfig.java:77-79 | one entry per namespace, each with its first character upper-cased |
| DomainConfig.SetNamespaces | src/main/java/org/example/config/DomainConfig.java:55-59 | the namespaces are replaced and the cached prefixes dropped, so the cache is never stale |
| DomainConfig.SetEntityTypeSuffixes | src/main/java/org/example/config/DomainConfig.java:65-67 | the suffixes are replaced and nothing else changes |
| DomainConfig.CapitalizedPrefixes | src/main/java/org/example/config/DomainConfig.java:75-82 | fails exactly when a namespace is empty; otherwise element `i` is namespace `i` with its first character upper-cased, and the cache is kept consistent |
| DomainConfig.FirstPrefix | src/main/java/org/example/config/DomainConfig.java:91-96 | the index of the first prefix the text starts with; no earlier prefix matches, and none at all when nothing is returned |
| DomainConfig.ExtractNamespaceFromTypeName | src/main/java/org/example/config/DomainConfig.java:90-97 | the lower-cased namespace of the first capitalised prefix the type name starts with, or nothing when no prefix matches |
| DomainConfig.TypeNameBelongsToNamespace | src/main/java/org/example/config/DomainConfig.java:106-109 | fails exactly on an empty namespace; otherwise holds exactly when the name starts with the capitalised namespace |
| DomainConfig.DeriveTypeName | src/main/java/org/example/config/DomainConfig.java:118-121 | fails exactly on an empty namespace; otherwise the entity follows a prefix exactly as long as the namespace (that prefix is the capitalised namespace, see `DomainConfig.DerivedBelongs`) |
| DomainConfig.DerivedBelongs | src/main/java/org/example/config/DomainConfig.java:106-121 | a derived type name always belongs to the namespace it was derived from |
| DomainConfig.DerivedNamespaceExtracted | src/main/java/org/example/config/DomainConfig.java:90-121 | a type name derived from a lower-case configured namespace gives that namespace back, unless an earlier namespace's prefix also matches it |
| DomainConfig.FirstUpperFrom | src/main/java/org/example/config/DomainConfig.java:143-149 | the first upper-case position at or after the start index, or none |
| DomainConfig.CamelCaseNamespace | src/main/java/org/example/config/DomainConfig.java:142-157 | a result is a configured namespace, and it is the lower-cased text before the first upper-case letter at index 1 or later; with no result, that text is not configured |
| DomainConfig.ExtractNamespacePrefix | src/main/java/org/example/config/DomainConfig.java:129-160 | the empty name gives nothing and reads no prefix; otherwise it fails exactly when a namespace is empty |
| DomainConfig.ExtractNamespacePrefixOrder | src/main/java/org/example/config/DomainConfig.java:134-157 | a configured prefix wins; only when none matches is the camelCase reading used |
| DomainConfig.CamelCaseExample | src/main/java/org/example/config/DomainConfig.java:141-155 | with the defaults, `marketingCustomer` gives `marketing` |
| Strings.Capitalize | src/main/java/org/example/schema/SchemaParser.java:503-508 | `capitalizeFirstLetter`: the empty text is unchanged; otherwise only the first character changes, to its upper case |
| SchemaParser.StripFrom | src/main/java/org/example/schema/SchemaParser.java:513-515 | the scan leaves no `#` and never lengthens the text |
| SchemaParser.RemoveComments | src/main/java/org/example/schema/SchemaParser.java:513-515 | the cleaned text holds no `#` |
| SchemaParser.RemoveCommentsLine | src/main/java/org/example/schema/SchemaParser.java:513-515 | a line loses everything from its first `#` on |
| SchemaParser.RemoveCommentsLines | src/main/java/org/example/schema/SchemaParser.java:513-515 | a comment ends at the newline, the newline survives, and the rest is cleaned independently |
| SchemaParser.RemoveCommentsNoHash | src/main/java/org/example/schema/SchemaParser.java:513-515 | a text without `#` is left alone |
| SchemaParser.RemoveCommentsIdempotent | src/main/java/org/example/schema/SchemaParser.java:513-515 | removing comments twice is removing them once |
| SchemaParser.ClassifyField | src/main/java/org/example/schema/SchemaParser.java:239-262 | a classified field keeps the captured name and the raw type text |
| SchemaParser.ClassifyNotation | src/main/java/org/example/schema/SchemaParser.java:243-252 | for every well-formed type notation, a name or a list of a name, each with an optional `!`: required is the outer `!`, list is the brackets, scalar means the cleaned base is a built-in scalar, and cleaning gives the base back |
| SchemaParser.ListNotation | src/main/java/org/example/schema/SchemaParser.java:243-244 | a list notation ends with `!` exactly when it is required, starts with `[` and contains `]` |
| SchemaParser.NamedNotation | src/main/java/org/example/schema/SchemaParser.java:243-244 | a named notation ends with `!` exactly when it is required and does not start with `[` |
| SchemaParser.ParseFields | src/main/java/org/example/schema/SchemaParser.java:237-263 | every field match becomes one field, in source order |
| SchemaParser.BuildType | src/main/java/org/example/schema/SchemaParser.java:220-221 | a matched type has the matched name, its parsed fields, and nothing else set |
| SchemaParser.DefineOne | src/main/java/org/example/schema/SchemaParser.java:215-222 | a name already present is skipped; a new one is appended with its built type; the names stay unique |
| SchemaParser.DefineAll | src/main/java/org/example/schema/SchemaParser.java:211-223 | the loop only appends, keeps names unique, and ends holding exactly the names present before or defined by some match |
| SchemaParser.ParseTypeDefinitions | src/main/java/org/example/schema/SchemaParser.java:201-224 | from a cleared map, the names are exactly those some match defines, each once |
| SchemaParser.FirstDefinitionWins | src/main/java/org/example/schema/SchemaParser.java:215-222 | the type stored under a name is the one built from that name's first definition; later ones are ignored |
| SchemaParser.DefinedFirst | src/main/java/org/example/schema/SchemaParser.java:215-222 | the first match's type is stored when its name is new |
| SchemaParser.ApplyTo | src/main/java/org/example/schema/SchemaParser.java:306-308 | a directive sets its attribute on the named type only, when present, and touches nothing else |
| SchemaParser.ApplyAll | src/main/java/org/example/schema/SchemaParser.java:289-351 | the `@source` and `@api` directives keep every type's name, fields and position |
| SchemaParser.ParamsDirective | src/main/java/org/example/schema/SchemaParser.java:369-385 | `@params` on a present type `T` gives `T` and every type whose name starts with `T` the namespace `lowercase(T)`; other types and an absent `T` change nothing |
| SchemaParser.ParamsAll | src/main/java/org/example/schema/SchemaParser.java:363-389 | the `@params` directives keep every type's name, fields and position |
| SchemaParser.InferFromName | src/main/java/org/example/schema/SchemaParser.java:422-437 | first pass: a type without a namespace takes the lower-cased first configured prefix its name starts with; a set namespace is never replaced |
| SchemaParser.FirstNamespaceWith | src/main/java/org/example/schema/SchemaParser.java:447-453 | the first configured namespace `ns` for which `Ns` plus the entity is a schema type, or none |
| SchemaParser.InferCommonTypes | src/main/java/org/example/schema/SchemaParser.java:441-458 | second pass: a bare entity type with no namespace takes the first namespace whose prefixed type exists, written as configured; otherwise nothing changes |
| SchemaParser.References | src/main/java/org/example/schema/SchemaParser.java:470-483 | the referenced namespaces are never empty |
| SchemaParser.MostCommon | src/main/java/org/example/schema/SchemaParser.java:486-490 | the chosen namespace is one of the references, with maximal count |
| SchemaParser.InferFromReferences | src/main/java/org/example/schema/SchemaParser.java:461-496 | third pass: keeps every type's shape, never replaces a set namespace, and leaves earlier types as they were |
| SchemaParser.ReferenceStep | src/main/java/org/example/schema/SchemaParser.java:470-494 | a type without a namespace that refers to namespaced types takes a namespace of maximal reference count among those references |
| SchemaParser.InferNamespaces | src/main/java/org/example/schema/SchemaParser.java:415-498 | the three passes keep every type's name, fields and position and never replace a namespace already set |
| SchemaParser.NameInferenceAgreesWithConfig | src/main/java/org/example/schema/SchemaParser.java:417-437 | the first pass names a type exactly as `DomainConfig.extractNamespaceFromTypeName` would |
| SchemaParser.ParamsSurvivesInference | src/main/java/org/example/schema/SchemaParser.java:369-463 | a namespace given by `@params` survives the inference passes |
| SchemaParser.ParseSchema | src/main/java/org/example/schema/SchemaParser.java:48-62 | the previous state is cleared; the result holds exactly the defined names, once each; the directives and inference change no type's shape |
| SchemaParser.ParsedFields | src/main/java/org/example/schema/SchemaParser.java:48-62 | every parsed type holds the fields of its first definition, in source order |
| DataLoader.Matching | src/main/java/org/example/data/DataLoader.java:262-264 | the linear filter keeps exactly the records whose field equals the value |
| DataLoader.FirstMatching | src/main/java/org/example/data/DataLoader.java:236-240 | the linear search finds the first record whose field equals the value, or none exactly when no record matches |
| DataLoader.FirstMatchingIsHead | src/main/java/org/example/data/DataLoader.java:236-240 | the first match is the head of the linear filter |
| DataLoader.IndexIsScan | src/main/java/org/example/data/DataLoader.java:190-207 | a field index holds exactly the non-null values some record has, each with the records holding it, in record order |
| DataLoader.IndexSize | src/main/java/org/example/data/DataLoader.java:190-207 | an index has no more values than records |
| DataLoader.IndexedFields | src/main/java/org/example/data/DataLoader.java:172-181 | `id` is indexed, plus exactly the first record's keys whose lower case ends in `id` |
| DataLoader.TypeIndexes | src/main/java/org/example/data/DataLoader.java:168-181 | a non-empty type is indexed on exactly those fields |
| DataLoader.BuildIndexes | src/main/java/org/example/data/DataLoader.java:161-182 | a missing or empty type is left alone; otherwise its indexes are replaced by fresh ones; the store never changes |
| DataLoader.LoadType | src/main/java/org/example/data/DataLoader.java:64-69 | the type's records are stored, replacing earlier ones |
| DataLoader.LoadTypeValid | src/main/java/org/example/data/DataLoader.java:64-69 | loading keeps store and indexes in step, unless an indexed type is reloaded empty |
| DataLoader.StaleIndexAfterEmptyReload | src/main/java/org/example/data/DataLoader.java:161-165 | reloading an indexed type with no records leaves its old index behind while `getData` answers nothing |
| DataLoader.LoadOne | src/main/java/org/example/data/DataLoader.java:60-73 | a type without a source file is skipped |
| DataLoader.LoadOneValid | src/main/java/org/example/data/DataLoader.java:60-73 | loading a new type keeps the loader consistent and adds the type exactly when it has a source file |
| DataLoader.LoadDataValid | src/main/java/org/example/data/DataLoader.java:57-80 | loading distinct types keeps the loader consistent and adds exactly the types with a source file |
| DataLoader.GetData | src/main/java/org/example/data/DataLoader.java:215-217 | the stored records of a known type, and the empty list otherwise |
| DataLoader.GetRecordById | src/main/java/org/example/data/DataLoader.java:226-241 | without an index hit, the answer is a record of the type whose `id` equals the argument |
| DataLoader.GetRecordsByField | src/main/java/org/example/data/DataLoader.java:251-265 | without an index hit, the answer is the linear filter |
| DataLoader.RecordsByFieldIsScan | src/main/java/org/example/data/DataLoader.java:251-265 | in a consistent loader the lookup equals the linear filter, whether the index is used or not |
| DataLoader.RecordByIdIsFirst | src/main/java/org/example/data/DataLoader.java:226-241 | in a consistent loader the lookup by id is the first record whose `id` equals the argument, or none |
| DataLoader.GetDataTypes | src/main/java/org/example/data/DataLoader.java:272-274 | exactly the stored types |
| DataLoader.LoadedTypes | src/main/java/org/example/data/DataLoader.java:57-80 | after loading a schema, the data types are exactly the types with a source file |
| DataLoader.GetDebugInfo | src/main/java/org/example/data/DataLoader.java:281-315 | `dataSize[t]` is the record count of every stored type; `samples` holds the first record of exactly the non-empty types; `indexSizes` covers exactly the indexed types and fields, and `indexSizes[t][f]` is the number of distinct values in the index of field `f` of type `t` |
| DataLoader.DebugInfoConsistent | src/main/java/org/example/data/DataLoader.java:281-315 | in a consistent loader the sampled types are the indexed ones, and no index has more values than its type has records |
| QueryProcessor.MatchesConditions | src/main/java/org/example/query/QueryProcessor.java:672-683 | true exactly when every condition's field is present in the record with an equal value; empty conditions match every record |
| QueryProcessor.SelectFields | src/main/java/org/example/query/QueryProcessor.java:688-698 | exactly the requested fields present in the record, each with the record's value |
| QueryProcessor.SelectFieldsKeepsConditions | src/main/java/org/example/query/QueryProcessor.java:688-698 | projection is idempotent, and keeps satisfied conditions on projected fields satisfied |
| QueryProcessor.FilterCounts | src/main/java/org/example/query/QueryProcessor.java:653-657 | the filter keeps every satisfying record as often as the data holds it, and nothing else |
| QueryProcessor.FilterAppend | src/main/java/org/example/query/QueryProcessor.java:653-657 | the filter preserves order: filtering a concatenation concatenates the filtered parts |
| QueryProcessor.Project | src/main/java/org/example/query/QueryProcessor.java:660-664 | each record is projected, in order |
| QueryProcessor.ApplyFilters | src/main/java/org/example/query/QueryProcessor.java:649-667 | never longer than its input; no conditions and `*` among the fields return the data unchanged |
| QueryProcessor.ShowAllMembers | src/main/java/org/example/query/QueryProcessor.java:660-664 | a shown record is the shown form of some input record, and conversely |
| QueryProcessor.ApplyFiltersIsFilterThenProject | src/main/java/org/example/query/QueryProcessor.java:649-667 | the output is the order-preserving filter followed by projection, and holds exactly the shown forms of the satisfying records |
| QueryProcessor.FilterNothing | src/main/java/org/example/query/QueryProcessor.java:653 | no conditions keep every record |
| QueryProcessor.ExtractFields | src/main/java/org/example/query/QueryProcessor.java:590-615 | never empty; `["*"]` when the query neither has `fields` nor is an array |
| QueryProcessor.FieldsRoundTrip | src/main/java/org/example/query/QueryProcessor.java:590-615 | names written as a `fields` array, or as the query array itself, are read back in order; an empty array gives `["*"]` |
| QueryProcessor.WhereValue | src/main/java/org/example/query/QueryProcessor.java:631-639 | only text, number, boolean and null entries give a condition; as written a number never gives an integral condition |
| QueryProcessor.CollectWhere | src/main/java/org/example/query/QueryProcessor.java:625-640 | the conditions are exactly the fields of the scalar entries; object and array entries are dropped |
| QueryProcessor.CollectWhereValue | src/main/java/org/example/query/QueryProcessor.java:625-640 | with unique field names, each scalar entry's value is its field's condition |
| QueryProcessor.CollectWhereSingle | src/main/java/org/example/query/QueryProcessor.java:620-644 | a WHERE object with one scalar entry gives exactly one condition, that entry's value as the reading reads it |
| QueryProcessor.ExtractWhereAsWritten | src/main/java/org/example/query/QueryProcessor.java:620-644 | as written, no condition is ever an integer |
| QueryProcessor.ExtractWhere | src/main/java/org/example/query/QueryProcessor.java:620-644 | a query without `where` has no conditions |
| QueryProcessor.WhereRoundTrip | src/main/java/org/example/query/QueryProcessor.java:620-644 | conditions written into a WHERE object are read back: exactly with the intended reading, and with an integer turned into a double as written |
| QueryProcessor.IntegralFieldNeverMatchesAsWritten | src/main/java/org/example/query/QueryProcessor.java:633-634 | as written, a record whose field holds an integer fails every numeric WHERE on that field |
| QueryProcessor.NumericWhereExample | src/main/java/org/example/query/QueryProcessor.java:633-634 | `{"where": {"age": 30}}` drops the record `{age: 30}` as written and keeps it as intended |
| QueryProcessor.EntityPart | src/main/java/org/example/query/QueryProcessor.java:180-186 | the type name, or the type name without its first namespace prefix |
| QueryProcessor.AddTypeToMap | src/main/java/org/example/query/QueryProcessor.java:176-201 | the lower-cased type name, and for a prefixed type its entity name lower-cased, with a lower-cased first letter and as is, all map to the type; other entries are kept |
| QueryProcessor.AddTypeToNamespace | src/main/java/org/example/query/QueryProcessor.java:169-202 | a missing namespace map is created; the lower-cased type name always maps to the type; other namespaces are untouched |
| QueryProcessor.NamespaceOf | src/main/java/org/example/query/QueryProcessor.java:75-91 | an explicit namespace always places the type; every namespace a type is filed under is lower-case and not empty |
| QueryProcessor.KnownNamespaces | src/main/java/org/example/query/QueryProcessor.java:39-64 | the known namespaces include marketing, finance and external, and are all lower-case and not empty |
| QueryProcessor.PlaceTypes | src/main/java/org/example/query/QueryProcessor.java:72-100 | the second pass only adds maps for known or schema namespaces |
| QueryProcessor.AddToAll | src/main/java/org/example/query/QueryProcessor.java:94-97 | the fallback adds the type to every known namespace and to no other |
| QueryProcessor.PutIfAbsentMap | src/main/java/org/example/query/QueryProcessor.java:119-122 | an existing entry is never replaced |
| QueryProcessor.AddCommonEntities | src/main/java/org/example/query/QueryProcessor.java:114-124 | every common entity the type name ends with is entered, lower-cased and with a lower-cased first letter; existing entries are kept; new ones map to the type |
| QueryProcessor.CommonPass | src/main/java/org/example/query/QueryProcessor.java:103-126 | the third pass never replaces an entry and only enters schema type names |
| QueryProcessor.AddSpecialCaseMappings | src/main/java/org/example/query/QueryProcessor.java:143-164 | no namespace is added or loses a name; every changed entry points at one of the fixed capitalised types |
| QueryProcessor.BuildNamespaceTypeMap | src/main/java/org/example/query/QueryProcessor.java:37-138 | the namespaces with maps are exactly the known namespaces |
| QueryProcessor.StandardMapsAndSpecialEntries | src/main/java/org/example/query/QueryProcessor.java:42-44 | after construction marketing, finance and external have maps, and the special capitalised entries (marketing `Customer` to `MarketingCustomer`, ...) are present |
| QueryProcessor.SpecialEntries | src/main/java/org/example/query/QueryProcessor.java:143-164 | with the three standard maps present, all seven special entries are set |
| QueryProcessor.PlaceTypesPlaces | src/main/java/org/example/query/QueryProcessor.java:72-100 | the second pass only adds names and files every entry's lower-cased name in its namespace, or in every known one |
| QueryProcessor.PlaceTypesValues | src/main/java/org/example/query/QueryProcessor.java:72-100 | the second pass only enters schema type names |
| QueryProcessor.BuildPlacesEveryType | src/main/java/org/example/query/QueryProcessor.java:37-138 | every schema type can be found under its lower-cased name, in its namespace or in every known namespace |
| QueryProcessor.BuildValuesAreTypes | src/main/java/org/example/query/QueryProcessor.java:37-164 | every name in every namespace map leads to a schema type or to a fixed special type |
| QueryProcessor.CaseVariantIsExact | src/main/java/org/example/query/QueryProcessor.java:410-420 | every namespace name is lower-case, so the case-insensitive fallback finds nothing the direct lookup misses |
| QueryProcessor.FirstKeyWithPrefix | src/main/java/org/example/query/QueryProcessor.java:490-494 | the prefix scan finds a name of the map, in the given iteration order, whose lower case starts with the prefix, or proves that none does |
| QueryProcessor.ResolveTypeName | src/main/java/org/example/query/QueryProcessor.java:451-520 | an unknown namespace gives nothing; a found name comes from the namespace map or the schema; it fails only when the namespace is empty or the entity name has at most one character, where a `substring` throws |
| QueryProcessor.ResolvePriority | src/main/java/org/example/query/QueryProcessor.java:460-484 | the first hit wins in order: the exact key, the lower-cased key, the capitalised key, then `Namespace` plus `Entity` in the schema |
| QueryProcessor.ResolveFallbacks | src/main/java/org/example/query/QueryProcessor.java:486-520 | after those, the prefix scan; then, for an entity ending in `s`, the lower-cased singular, then the capitalised singular, then nothing; an entity not ending in `s` finds nothing |
| QueryProcessor.ResolvesEveryType | src/main/java/org/example/query/QueryProcessor.java:451-520 | every schema type is resolved in its namespace under any case variant of its own name, to a schema type or a fixed special type |
| QueryProcessor.NewProcessor | src/main/java/org/example/query/QueryProcessor.java:27-32 | the constructor builds the namespace maps from the schema, leaving the three standard namespaces mapped, and each map's iteration order visits every name of that map |
| QueryProcessor.SomeOrder | src/main/java/org/example/query/QueryProcessor.java:490-494 | an iteration order of a map's names visits every name exactly once |
| QueryProcessor.ProcessorScansEveryName | src/main/java/org/example/query/QueryProcessor.java:490-494 | for a constructed processor, the prefix scan of `resolveTypeName` runs over every name of the namespace map it reads, which is what `QueryProcessor.ResolveFallbacks` needs |
| QueryProcessor.FirstIgnoringCase | src/main/java/org/example/query/QueryProcessor.java:554-561 | the name at the first position equal to the given one ignoring case (no earlier name matches), or none when no name matches |
| QueryProcessor.TypeData | src/main/java/org/example/query/QueryProcessor.java:549-562 | a type's own non-empty records are used; when it has none, the records of the first schema name equal to it ignoring case, even if that type has none either; with no such name, no records |
| QueryProcessor.ProcessTypeQuery | src/main/java/org/example/query/QueryProcessor.java:545-585 | under either number reading of the WHERE, a type query returns no more rows than the type holds; the program reads numbers as doubles (`NumbersAsDouble`) |
| QueryProcessor.TypeQueryAnswers | src/main/java/org/example/query/QueryProcessor.java:545-585 | a type query answers exactly the shown forms of the type's records that satisfy its WHERE as the given number reading reads it; the program's reading is `NumbersAsDouble` |
| QueryProcessor.OneRecordTypeQuery | src/main/java/org/example/query/QueryProcessor.java:545-585 | a type with a single record answers that record's projection when it satisfies the conditions, and nothing otherwise |
| QueryProcessor.TypeQueryDropsIntegralAsWritten | src/main/java/org/example/query/QueryProcessor.java:620-644 | as written, a record whose conditioned field holds an integer contributes nothing to a type query's answer |
| QueryProcessor.ProcessEntities | src/main/java/org/example/query/QueryProcessor.java:429-445 | every entity of the namespace query gets an answer under its own name, under the number reading passed down to every type query |
| QueryProcessor.ProcessNamespaceQuery | src/main/java/org/example/query/QueryProcessor.java:406-446 | an unknown namespace answers an empty group; a known one answers exactly the entities asked for, under the number reading passed down to every type query |
| QueryProcessor.UnresolvedEntityIsEmpty | src/main/java/org/example/query/QueryProcessor.java:441-444 | an entity that cannot be resolved is answered with an empty array, under the number reading passed down to every type query |
| QueryProcessor.EntityKept | src/main/java/org/example/query/QueryProcessor.java:429-445 | later entities with other names leave an answer in place, under the number reading passed down to every type query |
| QueryProcessor.ProcessQueryEntries | src/main/java/org/example/query/QueryProcessor.java:216-239 | every entry of the query object gets an answer under its own name, under the number reading passed down to every type query |
| QueryProcessor.ProcessQuery | src/main/java/org/example/query/QueryProcessor.java:207-247 | a `query` object is answered on exactly its own keys; a bare text answers an empty group under that name, under the number reading passed down to every type query |
| GraphQLTransformer.AppendField | src/main/java/org/example/graphql/GraphQLQueryTransformer.java:170-175 | an existing `fields` array is extended in place rather than replaced; a missing one is created at the end; a non-array `fields` fails with a cast error |
| GraphQLTransformer.SetPagination | src/main/java/org/example/graphql/GraphQLQueryTransformer.java:180-185 | an existing `pagination` object is reused and the key put into it; a missing one is created; a non-object fails with a cast error |
| GraphQLTransformer.OperatorValue | src/main/java/org/example/graphql/GraphQLQueryTransformer.java:155-160 | an operator's integer (wrapped to `int`), float or text is copied; other values give nothing |
| GraphQLTransformer.Operators | src/main/java/org/example/graphql/GraphQLQueryTransformer.java:147-162 | as written the operator object is always empty; otherwise it only holds operators that were given |
| GraphQLTransformer.WhereValue | src/main/java/org/example/graphql/GraphQLQueryTransformer.java:139-163 | text, `int`-wrapped integer, boolean and null are copied as they are; an object becomes an operator object; floats, enums, lists and variables are dropped |
| GraphQLTransformer.WhereEntries | src/main/java/org/example/graphql/GraphQLQueryTransformer.java:134-165 | the WHERE object never holds a name twice |
| GraphQLTransformer.WhereEntriesGet | src/main/java/org/example/graphql/GraphQLQueryTransformer.java:134-165 | with distinct names, each condition is found under its name with its converted value |
| GraphQLTransformer.WhereEntriesAbsent | src/main/java/org/example/graphql/GraphQLQueryTransformer.java:134-165 | a name the conditions do not mention is not in the WHERE object |
| GraphQLTransformer.OperatorExample | src/main/java/org/example/graphql/GraphQLQueryTransformer.java:155-160 | `{age: {gt: 30}}` gives an empty operator object as written, and `{gt: 30}` as intended |
| GraphQLTransformer.OperatorsKept | src/main/java/org/example/graphql/GraphQLQueryTransformer.java:150-161 | testing each operator's own value copies every integer, float and text operator |
| GraphQLTransformer.ArgumentStep | src/main/java/org/example/graphql/GraphQLQueryTransformer.java:90-128 | a `where` object replaces the WHERE node, its operators read with the given operator test (the program tests the enclosing value, `TestsEnclosingValue`); an integer `limit` or `offset` goes under `pagination`; a wrongly typed `where`, `limit` or `offset` is ignored; only pagination can fail |
| GraphQLTransformer.OtherArguments | src/main/java/org/example/graphql/GraphQLQueryTransformer.java:117-126 | any other text, integer or boolean argument is copied onto the node; other values are ignored |
| GraphQLTransformer.ProcessQueryField | src/main/java/org/example/graphql/GraphQLQueryTransformer.java:59-84 | a field with sub-selections becomes a nested object under its name, its arguments read with the operator test passed down; a leaf field is appended to the parent's `fields` |
| GraphQLTransformer.FieldsOnly | src/main/java/org/example/graphql/GraphQLQueryTransformer.java:74-79 | only field selections are kept |
| GraphQLTransformer.FragmentsSkipped | src/main/java/org/example/graphql/GraphQLQueryTransformer.java:74-79 | fragments contribute nothing to the result |
| GraphQLTransformer.Leaves | src/main/java/org/example/graphql/GraphQLQueryTransformer.java:80-83 | leaf fields of the given names, in order |
| GraphQLTransformer.LeafArgumentsIgnored | src/main/java/org/example/graphql/GraphQLQueryTransformer.java:64-83 | a leaf field's arguments are never read |
| GraphQLTransformer.LeavesAppend | src/main/java/org/example/graphql/GraphQLQueryTransformer.java:80-83 | leaf fields extend an existing `fields` array by their names, in order, without changing the node's keys |
| GraphQLTransformer.LeavesKeepOthers | src/main/java/org/example/graphql/GraphQLQueryTransformer.java:80-83 | leaf fields leave every entry but `fields` alone |
| GraphQLTransformer.LeavesFromEmpty | src/main/java/org/example/graphql/GraphQLQueryTransformer.java:80-83 | leaf fields under a new node give a `fields` array of exactly their names |
| GraphQLTransformer.LeavesCreate | src/main/java/org/example/graphql/GraphQLQueryTransformer.java:80-83 | leaf fields under a node without `fields` add one holding exactly their names and change nothing else |
| GraphQLTransformer.FirstOperation | src/main/java/org/example/graphql/GraphQLQueryTransformer.java:31-35 | an operation is found exactly when the document holds one |
| GraphQLTransformer.Transform | src/main/java/org/example/graphql/GraphQLQueryTransformer.java:25-54 | under either operator test, the root has the single key `query`, holding an object; a document without an operation fails with the prefixed message |
| GraphQLTransformer.OnlyFirstOperation | src/main/java/org/example/graphql/GraphQLQueryTransformer.java:31-35 | only the first operation counts: non-operations before it and anything after it are ignored |
| Gql.FieldRelationships | src/main/java/org/example/GQL.java:165-189 | every relationship of a type has it as source and a schema type as target |
| Gql.FieldRelationshipsMembers | src/main/java/org/example/GQL.java:165-189 | a type's relationships are exactly those of its non-scalar fields whose cleaned type is a schema key |
| Gql.Detect | src/main/java/org/example/GQL.java:165-189 | every target is a schema type |
| Gql.DetectRelationships | src/main/java/org/example/GQL.java:162-192 | the list is rebuilt from empty, and every target is a schema type |
| Gql.DetectMembers | src/main/java/org/example/GQL.java:165-189 | a relationship is detected exactly when some type in the visited entries has a field yielding it |
| Gql.FieldRelationshipsAreReferring | src/main/java/org/example/GQL.java:165-189 | a type's relationships are its referring fields (non-scalar, cleaned type a schema key), one entry each, in field order, carrying the source, field name, cleaned target and list flag |
| Gql.DetectCount | src/main/java/org/example/GQL.java:162-189 | the detected list holds exactly as many entries as the visited types have referring fields |
| Gql.RelationshipsAreReferringFields | src/main/java/org/example/GQL.java:162-192 | a relationship is detected exactly when some type has a referring field yielding it, and there are exactly as many entries as referring (type, field) pairs; in a well-keyed schema both ends are schema types |
| Gql.DetectAppend | src/main/java/org/example/GQL.java:165-189 | types are visited in schema order, then fields in field order |
| Gql.GroupByNamespace | src/main/java/org/example/GQL.java:142-157 | no set is empty and no namespace is empty |
| Gql.GroupMembers | src/main/java/org/example/GQL.java:142-157 | a namespace's set holds exactly the types declared with that namespace; namespace-less types appear nowhere |
| Gql.ExactlyItsNamespace | src/main/java/org/example/GQL.java:142-157 | a type appears in exactly one namespace's set, its own |
| Gql.ListedNamespacesAreKnown | src/main/java/org/example/GQL.java:142-157 | every namespace the application lists is known to the query processor, in lower case |
| Gql.DevelopmentModeExamples | src/main/java/org/example/GQL.java:293-300 | the unset profile and any profile containing `dev` mean development mode; `prod` does not |
| Gql.CreateErrorResponse | src/main/java/org/example/GQL.java:576-580 | an object whose single key is `error`, holding the message |
| Gql.ErrorMessageRoundTrip | src/main/java/org/example/GQL.java:576-580 | the message reads back from the error object unchanged |
| Gql.Trim | src/main/java/org/example/GQL.java:264 | `trim()` leaves no character up to a space at either end |
| Gql.TrimEmpty | src/main/java/org/example/GQL.java:264 | a text trims to nothing exactly when every character is a space or a control character |
| Gql.ServerError | src/main/java/org/example/GQL.java:257-259 | a 500 answer with an error object |
| Gql.GraphqlQuery | src/main/java/org/example/GQL.java:252-288 | no processor gives 500; a missing or blank query gives 400; a 200 answer is the program's own transformation (operators tested on the enclosing value) processed with WHERE numbers read as doubles, with the transformed query exactly in development mode; every non-200 answer is an error object; a transformation failure carries both message prefixes |
| Gql.BlankQueryNeverParsed | src/main/java/org/example/GQL.java:263-267 | a blank query is refused with 400 before the parser's outcome matters |
| Gql.AnsweredQuery | src/main/java/org/example/GQL.java:268-285 | a query that transforms and is processed as the program does it gives 200 with the processor's result, and the transformed query in development mode |
| Gql.ConditionValue | src/main/java/org/example/graphql/GraphQLQueryTransformer.java:139-146 | exactly text, integer, boolean and null literals stand for a plain condition |
| Gql.TransformedEntity | src/main/java/org/example/graphql/GraphQLQueryTransformer.java:38-83 | under either operator test, a one-type GraphQL query transforms to `{query: {name: e}}`, where `e` holds the leaf names as `fields` and the WHERE converted with that test |
| Gql.WhereEntriesRead | src/main/java/org/example/query/QueryProcessor.java:620-644 | under either operator test and number reading, each scalar literal of a transformed WHERE is read back by `extractWhere` as its entry's value |
| Gql.WhereLiteralsRead | src/main/java/org/example/query/QueryProcessor.java:620-644 | under either operator test, a transformed WHERE literal is read back exactly when numbers are read as parsed, and an integer as a double as written |
| Gql.LiteralRead | src/main/java/org/example/query/QueryProcessor.java:631-638 | under either operator test, a scalar literal's node reads back as the literal's value; as written an integer comes back as a double |
| Gql.TransformedTypeQuery | src/main/java/org/example/query/QueryProcessor.java:207-247 | end to end, under either operator test and number reading: a transformed one-type query is a direct type query whose fields are the leaf names and whose WHERE holds the literals, answered as that type's query |
| Gql.EndpointTypeQuery | src/main/java/org/example/GQL.java:252-288 | end to end through the endpoint: a one-type GraphQL query gets 200 and exactly the shown forms of the type's records that satisfy its WHERE with numbers read as doubles |
| Gql.NumericInternalQuery | src/main/java/org/example/query/QueryProcessor.java:633-634 | the internal query of `{ people(where: {age: 30}) { age } }` answers no rows as written and the stored person when numbers are read as parsed |
| Gql.NumericConditions | src/main/java/org/example/query/QueryProcessor.java:633-634 | the condition `age: 30` is read as the double 30.0 as written and as the integer 30 as parsed |
| Gql.AgeEntries | src/main/java/org/example/graphql/GraphQLQueryTransformer.java:134-146 | the GraphQL literal `age: 30` converts to the single WHERE entry `age: 30` |
| Gql.NumericQueryExample | src/main/java/org/example/GQL.java:268-285 | the endpoint answers `{ people(where: {age: 30}) { age } }` over a stored person of age 30 with no rows; reading numbers as parsed answers the person |
| Gql.OperatorQueryExample | src/main/java/org/example/graphql/GraphQLQueryTransformer.java:155-160 | `{ people(where: {age: {gt: 30}}) { name } }` transforms with an empty operator object for `age` as written, and with `gt: 30` when each operator's own value is tested |

## Left out

- I/O and start-up are not modelled:
  - reading schema and data files and `loadFromFile`'s path probing (a loaded type's records are a parameter; a missing file gives no records);
  - `parseSchema(Path)`;
  - `GQL.init`, which wires the parts in the order `loadData`, `buildNamespaceTypeMap`, `detectRelationships`, `QueryProcessor`.
- The regular-expression engine is not modelled. `SchemaParser` is modelled from the captures on: type name and body, field name and type text, and the directive arguments. So is the GraphQL parser: the document is an abstract syntax tree, and a parse failure is a parameter of `Gql.GraphqlQuery`.
- The Python numerics are inputs: embeddings, `cosine_similarity`, DBSCAN, `CountVectorizer` tokenisation and stop words, and UMAP. `round(score, 3)` is not modelled, and the score is kept as given.
- The Streamlit UI is not modelled: uploads, heatmap, scatter plot and CSV downloads.
- `processMetadataQuery` (QueryProcessor.java:252-395) is not modelled. A `metadata` entry is answered by an opaque placeholder. It builds JSON descriptions of the schema and relationships, with no logic the query path depends on.
- `valueToTree` of the result rows is not modelled. Answers are the record maps themselves.
- The metadata endpoints are not modelled: `/query`, `/query-at`, `/nl-query`, `/schema`, `/data-info`, `/namespaces`, `/relationships`, `/history`, `/health`, the WebSocket handler, the request-rate metrics and the OS MXBean calls. They are plumbing over the modelled parts, or depend on time, concurrency or the AI and time-travel components.
- `SchemaParser.getSchemaForAIPrompt` and `getDebugInfo` are not modelled. They only format text and JSON for a prompt and for debugging.
- `QueryProcessor.findTypeByPrefix` and `capitalizeFirstLetter` are never called by the query path; `resolveTypeName` inlines its own capitalisation.
- `isDevelopmentMode` reads a system property. The profile is a parameter, and the `SecurityException` branch is not modelled.
- Exception messages are not modelled in detail. A cast failure is an error naming the node class, and `substring` failures carry one fixed message. The model asserts no exact Java exception text beyond the application's own prefixes.
- Case mapping covers ASCII letters only, as the naming rules use them. `toLowerCase`, `toUpperCase` and `Character.isUpperCase` on other Unicode letters are not modelled.
- Jackson numbers are modelled as integers and reals. Integer versus Long width and BigInteger are not modelled.
- JsonTree.AsText: a double is written as `Double.toString` writes it only when it is integral and below 10^7 in magnitude (`5.0`). Every other double gives the empty text, where Java writes `0.5` or `1.0E7`. So a `fields` entry `0.5` selects the field `""` in the model and the field `"0.5"` in the program (QueryProcessor.java:597).
- `PyJson` parses the JSON subset that `json.dumps` of rules produces: null, booleans, integers, strings with the standard escapes, arrays and objects. Floats, `NaN`, `Infinity` and surrogate-pair escapes make the model's parse fail, where Python would succeed. For such texts, `RuleText.FlattenRule` returns the text itself.
- RuleText.FlattenRule: a float is a value (`PyJson.JFloat`), held as the text Python writes for it. Python's float formatting is not modelled, so the text is taken as given.
- PyJson.ValueRoundTrip: floats are outside `PyJson.WellFormed`, because the parser does not read a float's text; the round trip is stated for float-free values only.
- SchemaParser.ClassifyNotation: the field pattern also accepts unbalanced notations such as `[Foo`, `Foo]` and `Foo!!`. `SchemaParser.ClassifyField` classifies them as the code does, but no lemma states their reading.
- Relationships.StringHash: Java strings are sequences of UTF-16 code units, and `String.hashCode` sums over code units. The model treats each `char` as one unit, so a character outside the Basic Multilingual Plane hashes differently.
- The no-argument `RelationshipInfo()` constructor (RelationshipInfo.java:14) is not modelled. It leaves the names `null`, so `equals` and `hashCode` (lines 76-85) would throw `NullPointerException`. The application only uses the four-argument constructor.
- Hash-map iteration orders are not modelled. The model fixes no order for Java `HashMap`s or `HashSet`s, or for the order of ties in pandas and numpy sorts:
  - the prefix scan in `resolveTypeName` takes the order as a parameter;
  - the most-common namespace is any one of maximal count;
  - condition maps are Dafny maps.
- ClusterLabels.TopTokens: states the empty-cluster case and, through `ClusterLabels.LabelNamesTopTokens`, that the label names each chosen token. It does not spell out the `", "` join character by character.
- QueryProcessor.ProcessTypeQuery: only bounds the row count; `QueryProcessor.TypeQueryAnswers` gives the full characterisation.
- DataLoader.GetRecordById: states the fallback path only; the index path is characterised by `DataLoader.RecordByIdIsFirst` for consistent loaders.

Where the program's documentation and its code disagree, the model follows the code:
- `GQL.init` calls the `QueryProcessor` constructor with four arguments. The class defines three, and the model uses the three-argument form.
- `parseLogDirective` calls `SchemaType.setLog`, which does not exist. The `@log` directive is left out.
- The second inference pass sets the namespace as configured, not lower-cased (SchemaParser.java:450).
- The last resort of `resolveTypeName` (lines 511-517) repeats the `Namespace` plus `Entity` check of lines 479-484. It can never succeed where that check failed, and the model says so by returning nothing there.
- Reloading an indexed type with no records leaves its old index in place. See `DataLoader.StaleIndexAfterEmptyReload`.

## Findings

Both readings are parameters of the query pipeline: `QueryProcessor.NumberReading` for WHERE numbers and `GraphQLTransformer.OperatorTest` for operators. The endpoint `Gql.GraphqlQuery` uses the code as written (`NumbersAsDouble`, `TestsEnclosingValue`). The corrected readings (`NumbersAsParsed`, `TestsOperatorValue`) are stated by the corrected members and by the lemmas that hold under either reading. The dashboard's duplicate table is modelled as written by `ReportFilters.Duplicates`, which fails on a report with no rows; `ReportFilters.ShownDuplicates` is the table the app's own empty-table message expects.

| source | as written | input that shows it | evidently intended | confidence | as-written member | corrected member |
|---|---|---|---|---|---|---|
| src/main/java/org/example/query/QueryProcessor.java:633-634 | every number in a WHERE clause becomes a `Double`, and `Objects.equals(Integer, Double)` is false | query `{"where": {"age": 30}}` against the record `{"age": 30}`, whose value Jackson reads as an `Integer`: the record is dropped | an integral condition matches an integral field of the same value | high (not executed) | Gql.NumericQueryExample | QueryProcessor.WhereRoundTrip |
| app.py:70 | the threshold filter reads `report_df["similarity"]`, but a report with no rows is `pd.DataFrame([])`, which has no columns | an upload with a single rule: every rule's block is empty, and the app stops with `KeyError: 'similarity'` | an empty report gives an empty duplicate table, which app.py:101-102 reports as "No duplicates found" | medium (not executed) | ReportFilters.SingleRuleUploadStops | ReportFilters.ShownDuplicates |
| src/main/java/org/example/graphql/GraphQLQueryTransformer.java:155-160 | the operator loop tests the enclosing `value`, which is an `ObjectValue`, instead of `opValue`, so no branch is ever taken | `where: {age: {gt: 30}}` gives `{"age": {}}` | each operator's integer, float or text value is copied | high (not executed) | Gql.OperatorQueryExample | GraphQLTransformer.OperatorsKept |
