/** The text form of a rule: `flatten_rule` turns a rule's JSON into the
    space-separated `key:value` text the embedding model and the token
    counter read, and the `text_rule` column holds it for every row. */
module RuleText {
  import opened Wrappers
  import opened Strings
  import opened PyJson

  /** The inner `rec`: an object becomes its `key:value` pieces, a list its
      items, both joined by single spaces; a scalar becomes Python's `str`
      (for a float, the same text `repr` gives). */
  function Render(v: Json): (r: string)
    decreases v
  {
    match v
    case JObj(fields) =>
      Join(" ", seq(|fields|, i requires 0 <= i < |fields| => MemberText(fields[i].0, Render(fields[i].1))))
    case JArr(items) =>
      Join(" ", seq(|items|, i requires 0 <= i < |items| => Render(items[i])))
    case JNull => "None"
    case JBool(b) => if b then "True" else "False"
    case JInt(i) => IntToString(i)
    case JFloat(text) => text
    case JStr(s) => s
  }

  /** One member of an object as `rec` writes it. */
  function MemberText(key: string, rendered: string): (r: string)
    ensures |r| == |key| + 1 + |rendered|
    ensures StartsWith(r, key) && r[|key|] == ':' && r[|key| + 1..] == rendered
  {
    key + ":" + rendered
  }

  /** `flatten_rule(rule)`: text is decoded as JSON first and, when it does
      not decode, returned as it is; anything else is rendered directly. */
  function FlattenRule(rule: Json): (r: string)
    ensures rule.JStr? && Loads(rule.s).None? ==> r == rule.s
    ensures rule.JStr? && Loads(rule.s).Some? ==> r == Render(Loads(rule.s).value)
    ensures !rule.JStr? ==> r == Render(rule)
  {
    if rule.JStr? then
      match Loads(rule.s)
      case None => rule.s
      case Some(decoded) => Render(decoded)
    else Render(rule)
  }

  // ---------------------------------------------------------------------
  // Properties

  /** A rule stored as its own `json.dumps` text flattens exactly as the
      decoded rule does. */
  lemma FlattenEncoded(v: Json)
    requires WellFormed(v)
    ensures FlattenRule(JStr(Encode(v))) == Render(v)
  {
    LoadsEncode(v);
  }

  /** An empty object and an empty list flatten to the empty text. */
  lemma RenderEmpty()
    ensures Render(JObj([])) == "" && Render(JArr([])) == ""
  {
  }

  /** A string nested anywhere in a list is not decoded again: it occurs
      verbatim in the list's text, and a list of that string alone is just
      the string. */
  lemma NestedTextVerbatim(items: seq<Json>, i: nat)
    requires i < |items| && items[i].JStr?
    ensures ContainsText(Render(JArr(items)), items[i].s)
    ensures |items| == 1 ==> Render(JArr(items)) == items[i].s
  {
    var pieces := seq(|items|, j requires 0 <= j < |items| => Render(items[j]));
    assert pieces[i] == items[i].s;
    JoinContains(" ", pieces, i);
  }

  /** A string held by any member of an object is not decoded again: its
      `key:` and the string itself occur in the object's text, and an
      object of that member alone is just `key:` and the string. */
  lemma NestedMemberVerbatim(fields: seq<(string, Json)>, i: nat)
    requires i < |fields| && fields[i].1.JStr?
    ensures ContainsText(Render(JObj(fields)), fields[i].0 + ":" + fields[i].1.s)
    ensures |fields| == 1 ==> Render(JObj(fields)) == fields[i].0 + ":" + fields[i].1.s
  {
    MemberInText(fields, i);
    var pieces := seq(|fields|, j requires 0 <= j < |fields| => MemberText(fields[j].0, Render(fields[j].1)));
    assert pieces[i] == fields[i].0 + ":" + fields[i].1.s;
  }

  /** A float in a structured rule is written as Python writes it:
      `{"threshold": 0.5}` flattens to `threshold:0.5`. */
  lemma FloatMemberExample()
    ensures FlattenRule(JObj([("threshold", JFloat("0.5"))])) == "threshold:0.5"
  {
    NestedFloatSingle("threshold", "0.5");
  }

  lemma NestedFloatSingle(key: string, text: string)
    ensures Render(JObj([(key, JFloat(text))])) == key + ":" + text
  {
    var fields := [(key, JFloat(text))];
    var pieces := seq(1, j requires 0 <= j < 1 => MemberText(fields[j].0, Render(fields[j].1)));
    assert pieces == [key + ":" + text];
  }

  /** Every `key:value` of an object occurs in its text. */
  lemma MemberInText(fields: seq<(string, Json)>, i: nat)
    requires i < |fields|
    ensures ContainsText(Render(JObj(fields)), fields[i].0 + ":" + Render(fields[i].1))
  {
    var pieces := seq(|fields|, j requires 0 <= j < |fields| => MemberText(fields[j].0, Render(fields[j].1)));
    JoinContains(" ", pieces, i);
  }

  /** Adding a member at the end of a non-empty object appends one space and
      its `key:value` to the text. */
  lemma RenderObjectSnoc(fields: seq<(string, Json)>, k: string, v: Json)
    requires |fields| > 0
    ensures Render(JObj(fields + [(k, v)])) == Render(JObj(fields)) + " " + k + ":" + Render(v)
  {
    var all := fields + [(k, v)];
    var pieces := seq(|fields|, j requires 0 <= j < |fields| => MemberText(fields[j].0, Render(fields[j].1)));
    var allPieces := seq(|all|, j requires 0 <= j < |all| => MemberText(all[j].0, Render(all[j].1)));
    assert allPieces == pieces + [k + ":" + Render(v)];
    JoinSnoc(" ", pieces, k + ":" + Render(v));
  }

  /** Adding an item at the end of a non-empty list appends one space and
      its text. */
  lemma RenderArraySnoc(items: seq<Json>, v: Json)
    requires |items| > 0
    ensures Render(JArr(items + [v])) == Render(JArr(items)) + " " + Render(v)
  {
    var all := items + [v];
    var pieces := seq(|items|, j requires 0 <= j < |items| => Render(items[j]));
    var allPieces := seq(|all|, j requires 0 <= j < |all| => Render(all[j]));
    assert allPieces == pieces + [Render(v)];
    JoinSnoc(" ", pieces, Render(v));
  }

  /** `df["rule_json"].apply(flatten_rule)`: the `text_rule` column. */
  method TextColumn(cells: seq<Json>) returns (texts: seq<string>)
    ensures |texts| == |cells|
    ensures forall i :: 0 <= i < |cells| ==> texts[i] == FlattenRule(cells[i])
  {
    texts := [];
    var n := 0;
    while n < |cells|
      invariant n <= |cells| && |texts| == n
      invariant forall i :: 0 <= i < n ==> texts[i] == FlattenRule(cells[i])
    {
      texts := texts + [FlattenRule(cells[n])];
      n := n + 1;
    }
  }
}
