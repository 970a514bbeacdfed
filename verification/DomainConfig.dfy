/** `DomainConfig`: the configured namespaces (`marketing`, ...), the entity
    type suffixes (`Customer`, ...), and the naming rules that relate them to
    type names such as `MarketingCustomer`. The capitalised namespace list is
    computed lazily and cached; the cache is part of the state, so every
    reading operation returns the configuration it leaves behind. Java's
    `substring(0, 1)` on an empty namespace throws, modelled as an error. */
module DomainConfig {
  import opened Wrappers
  import opened Strings

  datatype Config = Config(namespaces: seq<string>, suffixes: seq<string>, cache: Option<seq<string>>)

  /** The constructor's defaults. */
  function Default(): (c: Config)
    ensures c.namespaces == ["marketing", "finance", "external", "analytics", "product"]
    ensures c.suffixes == ["Customer", "Order", "Campaign", "Lead", "Event", "Invoice", "Transaction", "User", "Product"]
    ensures Valid(c)
  {
    Config(["marketing", "finance", "external", "analytics", "product"],
           ["Customer", "Order", "Campaign", "Lead", "Event", "Invoice", "Transaction", "User", "Product"],
           None)
  }

  /** The namespaces with their first character upper-cased. */
  function CapitalizeAll(ns: seq<string>): (r: seq<string>)
    ensures |r| == |ns|
    ensures forall i | 0 <= i < |ns| :: r[i] == Capitalize(ns[i])
  {
    seq(|ns|, i requires 0 <= i < |ns| => Capitalize(ns[i]))
  }

  predicate NoEmptyNamespace(ns: seq<string>) {
    forall i | 0 <= i < |ns| :: ns[i] != ""
  }

  /** The cache is either unset or holds the capitalised namespaces. */
  predicate Valid(c: Config) {
    c.cache.Some? ==> NoEmptyNamespace(c.namespaces) && c.cache.value == CapitalizeAll(c.namespaces)
  }

  /** `setNamespaces`: the cache is dropped. */
  function SetNamespaces(c: Config, ns: seq<string>): (r: Config)
    ensures r.namespaces == ns && r.suffixes == c.suffixes
    ensures Valid(r)
  {
    c.(namespaces := ns, cache := None)
  }

  /** `setEntityTypeSuffixes`. */
  function SetEntityTypeSuffixes(c: Config, suffixes: seq<string>): (r: Config)
    requires Valid(c)
    ensures r.suffixes == suffixes && r.namespaces == c.namespaces
    ensures Valid(r)
  {
    c.(suffixes := suffixes)
  }

  /** `getCapitalizedNamespacePrefixes`: element `i` is namespace `i` with an
      upper-case first character, the rest unchanged. */
  function CapitalizedPrefixes(c: Config): (r: Result<(seq<string>, Config)>)
    requires Valid(c)
    ensures r.Err? <==> !NoEmptyNamespace(c.namespaces)
    ensures r.Ok? ==> Valid(r.value.1) && r.value.1.namespaces == c.namespaces && r.value.1.suffixes == c.suffixes
    ensures r.Ok? ==> (|r.value.0| == |c.namespaces| &&
      forall i | 0 <= i < |c.namespaces| ::
        |r.value.0[i]| == |c.namespaces[i]| && r.value.0[i][0] == UpperChar(c.namespaces[i][0]) &&
        r.value.0[i][1..] == c.namespaces[i][1..])
  {
    match c.cache
    case Some(prefixes) => Ok((prefixes, c))
    case None =>
      if NoEmptyNamespace(c.namespaces) then
        var prefixes := CapitalizeAll(c.namespaces);
        Ok((prefixes, c.(cache := Some(prefixes))))
      else Err("String index out of range: 1")
  }

  /** The index of the first prefix that `s` starts with. */
  function FirstPrefix(prefixes: seq<string>, s: string): (r: Option<nat>)
    ensures r.Some? ==> (r.value < |prefixes| && StartsWith(s, prefixes[r.value]) &&
      forall j | 0 <= j < r.value :: !StartsWith(s, prefixes[j]))
    ensures r.None? ==> forall j | 0 <= j < |prefixes| :: !StartsWith(s, prefixes[j])
  {
    if |prefixes| == 0 then None
    else if StartsWith(s, prefixes[0]) then Some(0)
    else match FirstPrefix(prefixes[1..], s)
      case None => None
      case Some(k) => Some(k + 1)
  }

  /** `extractNamespaceFromTypeName`: the lower-cased first prefix the type
      name starts with, or none. */
  function ExtractNamespaceFromTypeName(c: Config, typeName: string): (r: Result<(Option<string>, Config)>)
    requires Valid(c)
    ensures r.Err? <==> !NoEmptyNamespace(c.namespaces)
    ensures r.Ok? ==> Valid(r.value.1) && r.value.1.namespaces == c.namespaces
    ensures r.Ok? && r.value.0.Some? ==> exists i | 0 <= i < |c.namespaces| ::
      StartsWith(typeName, Capitalize(c.namespaces[i])) && r.value.0.value == Lower(c.namespaces[i]) &&
      forall j | 0 <= j < i :: !StartsWith(typeName, Capitalize(c.namespaces[j]))
    ensures r.Ok? && r.value.0.None? ==> forall i | 0 <= i < |c.namespaces| ::
      !StartsWith(typeName, Capitalize(c.namespaces[i]))
  {
    var (prefixes, c') :- CapitalizedPrefixes(c);
    match FirstPrefix(prefixes, typeName)
    case None => Ok((None, c'))
    case Some(i) =>
      LowerCapitalize(c.namespaces[i]);
      Ok((Some(Lower(prefixes[i])), c'))
  }

  /** Lower-casing undoes capitalisation. */
  lemma LowerCapitalize(s: string)
    ensures Lower(Capitalize(s)) == Lower(s)
  {
  }

  /** `typeNameBelongsToNamespace`. */
  function TypeNameBelongsToNamespace(typeName: string, namespace: string): (r: Result<bool>)
    ensures r.Err? <==> namespace == ""
    ensures r.Ok? ==> (r.value <==> (|namespace| <= |typeName| &&
      typeName[0] == UpperChar(namespace[0]) && typeName[1..|namespace|] == namespace[1..]))
  {
    if namespace == "" then Err("String index out of range: 1")
    else
      var cap := Capitalize(namespace);
      assert StartsWith(typeName, cap) <==> (|namespace| <= |typeName| &&
        typeName[0] == UpperChar(namespace[0]) && typeName[1..|namespace|] == namespace[1..]) by {
        if |namespace| <= |typeName| {
          assert typeName[..|namespace|] == [typeName[0]] + typeName[1..|namespace|];
          assert cap == [cap[0]] + cap[1..];
        }
      }
      Ok(StartsWith(typeName, cap))
  }

  /** `deriveTypeName`: the capitalised namespace followed by the entity. */
  function DeriveTypeName(namespace: string, entityType: string): (r: Result<string>)
    ensures r.Err? <==> namespace == ""
    ensures r.Ok? ==> |r.value| == |namespace| + |entityType| && r.value[|namespace|..] == entityType
  {
    if namespace == "" then Err("String index out of range: 1")
    else Ok(Capitalize(namespace) + entityType)
  }

  /** A derived type name belongs to the namespace it was derived from. */
  lemma DerivedBelongs(namespace: string, entityType: string)
    requires namespace != ""
    ensures TypeNameBelongsToNamespace(DeriveTypeName(namespace, entityType).value, namespace) == Ok(true)
  {
    var t := DeriveTypeName(namespace, entityType).value;
    assert t[..|namespace|] == Capitalize(namespace);
  }

  /** A derived type name gives its namespace back, provided the namespace
      is written in lower case (the extraction lower-cases the whole prefix)
      and no earlier namespace's prefix also fits. */
  lemma DerivedNamespaceExtracted(c: Config, i: nat, entityType: string)
    requires Valid(c) && NoEmptyNamespace(c.namespaces)
    requires i < |c.namespaces| && NoUpper(c.namespaces[i])
    requires forall j | 0 <= j < i :: !StartsWith(Capitalize(c.namespaces[i]) + entityType, Capitalize(c.namespaces[j]))
    ensures ExtractNamespaceFromTypeName(c, DeriveTypeName(c.namespaces[i], entityType).value).value.0 == Some(c.namespaces[i])
  {
    var t := DeriveTypeName(c.namespaces[i], entityType).value;
    var prefixes := CapitalizedPrefixes(c).value.0;
    StartsWithConcat(Capitalize(c.namespaces[i]), entityType);
    assert prefixes[i] == Capitalize(c.namespaces[i]);
    var k := FirstPrefix(prefixes, t);
    assert k == Some(i);
    LowerCapitalize(c.namespaces[i]);
    LowerOfNoUpper(c.namespaces[i]);
  }

  // ---------------------------------------------------------------------
  // extractNamespacePrefix

  /** The first index at or after `from` holding an upper-case letter. */
  function FirstUpperFrom(s: string, from: nat): (r: Option<nat>)
    ensures r.Some? ==> (from <= r.value < |s| && IsUpper(s[r.value]) &&
      forall j | from <= j < r.value :: !IsUpper(s[j]))
    ensures r.None? ==> forall j | from <= j < |s| :: !IsUpper(s[j])
    decreases |s| - from
  {
    if from >= |s| then None
    else if IsUpper(s[from]) then Some(from)
    else FirstUpperFrom(s, from + 1)
  }

  /** The camelCase reading: the lower-cased text before the first
      upper-case letter after the first character, if that is a configured
      namespace. */
  function CamelCaseNamespace(namespaces: seq<string>, typeName: string): (r: Option<string>)
    ensures r.Some? ==> r.value in namespaces
    ensures r.Some? ==> exists k | 1 <= k < |typeName| ::
      IsUpper(typeName[k]) && (forall j | 1 <= j < k :: !IsUpper(typeName[j])) && r.value == Lower(typeName[..k])
    ensures r.None? && |typeName| > 1 ==> forall k | 1 <= k < |typeName| ::
      IsUpper(typeName[k]) && (forall j | 1 <= j < k :: !IsUpper(typeName[j])) ==> Lower(typeName[..k]) !in namespaces
  {
    if |typeName| <= 1 then None
    else match FirstUpperFrom(typeName, 1)
      case None => None
      case Some(k) =>
        var candidate := Lower(typeName[..k]);
        if candidate in namespaces then Some(candidate) else None
  }

  /** `extractNamespacePrefix`: the empty name has none (and reads no
      configuration); otherwise a configured prefix is tried first, then the
      camelCase reading. */
  function ExtractNamespacePrefix(c: Config, typeName: string): (r: Result<(Option<string>, Config)>)
    requires Valid(c)
    ensures typeName == "" ==> r == Ok((None, c))
    ensures r.Err? <==> typeName != "" && !NoEmptyNamespace(c.namespaces)
    ensures r.Ok? ==> Valid(r.value.1) && r.value.1.namespaces == c.namespaces
  {
    if typeName == "" then Ok((None, c))
    else
      var (prefixes, c') :- CapitalizedPrefixes(c);
      match FirstPrefix(prefixes, typeName)
      case Some(i) => Ok((Some(Lower(prefixes[i])), c'))
      case None => Ok((CamelCaseNamespace(c.namespaces, typeName), c'))
  }

  /** The two readings in their order: a configured prefix wins; only when
      none fits does the camelCase reading decide. */
  lemma ExtractNamespacePrefixOrder(c: Config, typeName: string)
    requires Valid(c) && NoEmptyNamespace(c.namespaces) && typeName != ""
    ensures ExtractNamespaceFromTypeName(c, typeName).value.0.Some? ==>
      ExtractNamespacePrefix(c, typeName).value.0 == ExtractNamespaceFromTypeName(c, typeName).value.0
    ensures ExtractNamespaceFromTypeName(c, typeName).value.0.None? ==>
      ExtractNamespacePrefix(c, typeName).value.0 == CamelCaseNamespace(c.namespaces, typeName)
  {
  }

  /** A camelCase name such as `marketingCustomer` gives its lower-case
      namespace when no capitalised prefix fits. */
  lemma CamelCaseExample()
    ensures ExtractNamespacePrefix(Default(), "marketingCustomer").value.0 == Some("marketing")
  {
    var s := "marketingCustomer";
    assert FirstUpperFrom(s, 1) == Some(9) by {
      assert forall j | 1 <= j < 9 :: !IsUpper(s[j]);
      assert IsUpper(s[9]);
    }
    assert Lower(s[..9]) == "marketing";
    var prefixes := CapitalizeAll(Default().namespaces);
    assert forall j | 0 <= j < |prefixes| :: !StartsWith(s, prefixes[j]) by {
      forall j | 0 <= j < |prefixes|
        ensures !StartsWith(s, prefixes[j])
      {
        assert prefixes[j][0] != s[0];
      }
    }
  }
}
