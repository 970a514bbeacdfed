/** `RelationshipInfo`: one field of one type that refers to another type of
    the schema, with Java's value-object `equals`, `hashCode` (32-bit `int`
    arithmetic that wraps around) and `toString`. Java characters are UTF-16
    code units; the model treats each `char` as one unit. */
module Relationships {
  import opened Wrappers
  import opened Strings
  import opened Int32

  datatype RelationshipInfo = RelationshipInfo(sourceType: string, fieldName: string, targetType: string, isList: bool)

  // Each setter changes its own attribute and nothing else.
  function SetSourceType(r: RelationshipInfo, s: string): RelationshipInfo { r.(sourceType := s) }
  function SetFieldName(r: RelationshipInfo, s: string): RelationshipInfo { r.(fieldName := s) }
  function SetTargetType(r: RelationshipInfo, s: string): RelationshipInfo { r.(targetType := s) }
  function SetIsList(r: RelationshipInfo, b: bool): RelationshipInfo { r.(isList := b) }

  /** Setting every attribute in turn rebuilds the object the four-argument
      constructor makes, from any starting object: no attribute is shared. */
  lemma SettersBuildConstructor(r: RelationshipInfo, s: string, f: string, t: string, l: bool)
    ensures SetIsList(SetTargetType(SetFieldName(SetSourceType(r, s), f), t), l) == RelationshipInfo(s, f, t, l)
    ensures SetFieldName(SetSourceType(r, s), f).targetType == r.targetType
  {
  }

  /** `equals`: the list flag, then the three names. */
  function Equals(a: RelationshipInfo, b: RelationshipInfo): (r: bool)
    ensures r <==> a == b
  {
    if a.isList != b.isList then false
    else if a.sourceType != b.sourceType then false
    else if a.fieldName != b.fieldName then false
    else a.targetType == b.targetType
  }

  // ---------------------------------------------------------------------
  // 32-bit hashing

  /** `String.hashCode()`, computed as Java does: `h = 31 * h + c` in `int`
      arithmetic, one character at a time. */
  function StringHash(s: string): (r: int)
    ensures -TwoTo31 <= r < TwoTo31
  {
    if |s| == 0 then 0 else Wrap32(31 * StringHash(s[..|s| - 1]) + s[|s| - 1] as int)
  }

  /** The hash polynomial without wrap-around:
      `s[0]*31^(n-1) + ... + s[n-1]`. */
  function Polynomial(s: string): int {
    if |s| == 0 then 0 else 31 * Polynomial(s[..|s| - 1]) + s[|s| - 1] as int
  }

  /** Wrapping at every step equals wrapping once at the end, which is the
      documented value of `String.hashCode()`. */
  lemma {:induction false} StringHashIsPolynomial(s: string)
    ensures StringHash(s) == Wrap32(Polynomial(s))
  {
    if |s| > 0 {
      var init := s[..|s| - 1];
      StringHashIsPolynomial(init);
      WrapStep(Polynomial(init), s[|s| - 1] as int);
    }
  }

  /** `hashCode()`. */
  function HashCode(r: RelationshipInfo): (h: int)
    ensures -TwoTo31 <= h < TwoTo31
  {
    var h1 := StringHash(r.sourceType);
    var h2 := Wrap32(31 * h1 + StringHash(r.fieldName));
    var h3 := Wrap32(31 * h2 + StringHash(r.targetType));
    Wrap32(31 * h3 + (if r.isList then 1 else 0))
  }

  /** The hash is one polynomial in the four attributes, wrapped once. */
  lemma HashCodeIsPolynomial(r: RelationshipInfo)
    ensures HashCode(r) == Wrap32(29791 * StringHash(r.sourceType) + 961 * StringHash(r.fieldName)
                                  + 31 * StringHash(r.targetType) + (if r.isList then 1 else 0))
  {
    var a, b, c := StringHash(r.sourceType), StringHash(r.fieldName), StringHash(r.targetType);
    var d := if r.isList then 1 else 0;
    WrapStep(31 * a + b, c);
    WrapStep(31 * (31 * a + b) + c, d);
    assert 31 * (31 * (31 * a + b) + c) + d == 29791 * a + 961 * b + 31 * c + d;
  }

  /** Objects that are `equals` have the same hash, and objects differing
      only in the list flag hash one apart (modulo 2^32). */
  lemma HashConsistentWithEquals(a: RelationshipInfo, b: RelationshipInfo)
    ensures Equals(a, b) ==> HashCode(a) == HashCode(b)
    ensures a.(isList := true) == b.(isList := true) && a.isList && !b.isList ==>
      HashCode(a) == Wrap32(HashCode(b) + 1)
  {
    if a.(isList := true) == b.(isList := true) && a.isList && !b.isList {
      HashCodeIsPolynomial(a);
      HashCodeIsPolynomial(b);
      var p := 29791 * StringHash(a.sourceType) + 961 * StringHash(a.fieldName) + 31 * StringHash(a.targetType);
      var w := Wrap32(p);
      var k := (p - w) / TwoTo32;
      assert p == w + k * TwoTo32;
      WrapShift(w + 1, k);
      assert p + 1 == (w + 1) + k * TwoTo32;
    }
  }

  // ---------------------------------------------------------------------
  // Text form

  const Head: string := "RelationshipInfo{sourceType='"
  const AfterSource: string := "', fieldName='"
  const AfterField: string := "', targetType='"
  const AfterTarget: string := "', isList="

  function BoolText(b: bool): string {
    if b then "true" else "false"
  }

  /** `toString()`. */
  function ToText(r: RelationshipInfo): string {
    Head + (r.sourceType + AfterSource + (r.fieldName + AfterField + (r.targetType + AfterTarget + (BoolText(r.isList) + "}"))))
  }

  /** The text after a fixed prefix, if the text starts with it. */
  function After(s: string, prefix: string): (r: Option<string>)
    ensures r.Some? <==> StartsWith(s, prefix)
    ensures r.Some? ==> s == prefix + r.value
  {
    if StartsWith(s, prefix) then
      assert s == s[..|prefix|] + s[|prefix|..];
      Some(s[|prefix|..])
    else None
  }

  /** Reads a name up to the next quote, then the given separator. */
  function ReadName(s: string, sep: string): (r: Option<(string, string)>)
    requires |sep| > 0 && sep[0] == '\''
  {
    var name := SplitFirst(s, "'");
    match After(s[|name|..], sep)
    case None => None
    case Some(rest) => Some((name, rest))
  }

  /** Reading a quote-free name followed by the separator. */
  lemma ReadNameBack(name: string, sep: string, rest: string)
    requires |sep| > 0 && sep[0] == '\''
    requires '\'' !in name
    ensures ReadName(name + sep + rest, sep) == Some((name, rest))
  {
    var s := name + sep + rest;
    SplitFirstAtSeparator(name, "'", sep[1..] + rest);
    assert name + "'" + (sep[1..] + rest) == s;
    assert s[|name|..] == sep + rest;
  }

  /** Reads a `toString()` text back into the object. */
  function FromText(s: string): Option<RelationshipInfo> {
    match After(s, Head)
    case None => None
    case Some(s1) =>
      match ReadName(s1, AfterSource)
      case None => None
      case Some(p1) =>
        match ReadName(p1.1, AfterField)
        case None => None
        case Some(p2) =>
          match ReadName(p2.1, AfterTarget)
          case None => None
          case Some(p3) =>
            if p3.1 == "true}" then Some(RelationshipInfo(p1.0, p2.0, p3.0, true))
            else if p3.1 == "false}" then Some(RelationshipInfo(p1.0, p2.0, p3.0, false))
            else None
  }

  /** The text after a prefix is what follows it. */
  lemma AfterConcat(prefix: string, rest: string)
    ensures After(prefix + rest, prefix) == Some(rest)
  {
    assert (prefix + rest)[..|prefix|] == prefix;
  }

  /** The text form loses nothing when no name holds a quote: it reads back
      as the same object, so two such objects with one text are equal. */
  lemma TextRoundTrip(r: RelationshipInfo)
    requires '\'' !in r.sourceType && '\'' !in r.fieldName && '\'' !in r.targetType
    ensures FromText(ToText(r)) == Some(r)
  {
    var tail := BoolText(r.isList) + "}";
    var s3 := r.targetType + AfterTarget + tail;
    var s2 := r.fieldName + AfterField + s3;
    var s1 := r.sourceType + AfterSource + s2;
    AfterConcat(Head, s1);
    ReadNameBack(r.sourceType, AfterSource, s2);
    ReadNameBack(r.fieldName, AfterField, s3);
    ReadNameBack(r.targetType, AfterTarget, tail);
    assert ToText(r) == Head + s1;
    assert tail == "true}" || tail == "false}";
  }
}
