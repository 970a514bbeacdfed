/** JSON values as Python's `json` module produces them, an encoder in the
    style of `json.dumps(v, ensure_ascii=False)`, and a model of `json.loads`
    restricted to the JSON the model represents (no floating-point numbers).
    The decoder's object semantics are those of `dict`: a repeated key keeps
    the position of its first occurrence and the value of its last. */
module PyJson {
  import opened Wrappers
  import opened Strings
  import opened Assoc

  /** A decoded JSON value: `None`, `bool`, `int`, `float`, `str`, `list`
      or `dict`. A float is held as the text Python writes for it (its
      `repr`, which `str` and `json.dumps` share); floating-point values and
      their formatting are not modelled. */
  datatype Json =
    | JNull
    | JBool(b: bool)
    | JInt(i: int)
    | JFloat(text: string)
    | JStr(s: string)
    | JArr(items: seq<Json>)
    | JObj(fields: seq<(string, Json)>)

  /** A value the parser here reads back: every object, at every depth, has
      distinct keys (as a `dict` does), and no float occurs (the parser
      does not read floats). */
  predicate WellFormed(v: Json)
    decreases v
  {
    match v
    case JArr(items) => forall i | 0 <= i < |items| :: WellFormed(items[i])
    case JObj(fields) =>
      UniqueKeys(fields) && forall i | 0 <= i < |fields| :: WellFormed(fields[i].1)
    case JFloat(_) => false
    case _ => true
  }

  // ---------------------------------------------------------------------
  // Characters of the JSON grammar

  predicate IsWs(c: char) {
    c == ' ' || c == '\t' || c == '\n' || c == '\r'
  }

  function HexDigit(d: nat): char
    requires d < 16
  {
    if d < 10 then DigitChar(d) else ('a' as int + d - 10) as char
  }

  predicate IsHex(c: char) {
    IsDigit(c) || 'a' <= c <= 'f' || 'A' <= c <= 'F'
  }

  function HexValue(c: char): (r: nat)
    requires IsHex(c)
    ensures r < 16
  {
    if IsDigit(c) then DigitValue(c)
    else if 'a' <= c <= 'f' then c as int - 'a' as int + 10
    else c as int - 'A' as int + 10
  }

  lemma HexDigitValue(d: nat)
    requires d < 16
    ensures IsHex(HexDigit(d)) && HexValue(HexDigit(d)) == d
  {
  }

  // ---------------------------------------------------------------------
  // Encoding

  /** The escape sequence `json.dumps` writes for one character of a string. */
  function EscapeChar(c: char): string {
    if c == '"' then "\\\""
    else if c == '\\' then "\\\\"
    else if c == '\n' then "\\n"
    else if c == '\r' then "\\r"
    else if c == '\t' then "\\t"
    else if c == '\U{8}' then "\\b"
    else if c == '\U{C}' then "\\f"
    else if (c as int) < 0x20 then
      "\\u00" + [HexDigit(c as int / 16), HexDigit(c as int % 16)]
    else [c]
  }

  function EscapeString(s: string): string {
    if |s| == 0 then "" else EscapeChar(s[0]) + EscapeString(s[1..])
  }

  function Quote(s: string): string {
    "\"" + EscapeString(s) + "\""
  }

  /** `json.dumps(v, ensure_ascii=False)` with its default separators. */
  function Encode(v: Json): string
    decreases v, 1
  {
    match v
    case JNull => "null"
    case JBool(b) => if b then "true" else "false"
    case JInt(i) => IntToString(i)
    case JFloat(text) => text
    case JStr(s) => Quote(s)
    case JArr(items) => "[" + EncodeItems(items) + "]"
    case JObj(fields) => "{" + EncodeMembers(fields) + "}"
  }

  function EncodeItems(items: seq<Json>): string
    decreases items, 0
  {
    if |items| == 0 then ""
    else if |items| == 1 then Encode(items[0])
    else Encode(items[0]) + ", " + EncodeItems(items[1..])
  }

  function EncodeMember(m: (string, Json)): string
    decreases m, 2
  {
    Quote(m.0) + ": " + Encode(m.1)
  }

  function EncodeMembers(fields: seq<(string, Json)>): string
    decreases fields, 0
  {
    if |fields| == 0 then ""
    else if |fields| == 1 then EncodeMember(fields[0])
    else EncodeMember(fields[0]) + ", " + EncodeMembers(fields[1..])
  }

  // ---------------------------------------------------------------------
  // Decoding (the model of json.loads)

  /** `s` with leading JSON whitespace removed. */
  function SkipWs(s: string): (r: string)
    ensures |r| <= |s|
    ensures |r| == 0 || !IsWs(r[0])
  {
    if |s| > 0 && IsWs(s[0]) then SkipWs(s[1..]) else s
  }

  /** The length of the run of decimal digits at the start of `s`. */
  function DigitRun(s: string): (n: nat)
    ensures n <= |s| && AllDigits(s[..n])
    ensures n < |s| ==> !IsDigit(s[n])
  {
    if |s| > 0 && IsDigit(s[0]) then
      var n := 1 + DigitRun(s[1..]);
      assert s[..n] == [s[0]] + s[1..][..n - 1];
      n
    else 0
  }

  /** Characters that would continue a number as a float. */
  predicate FloatContinues(s: string) {
    |s| > 0 && (s[0] == '.' || s[0] == 'e' || s[0] == 'E')
  }

  /** An integer literal `-?(0|[1-9][0-9]*)`. A literal followed by a
      fraction or an exponent is a float, which the model does not decode. */
  function ParseNumber(s: string): (r: Option<(Json, string)>)
    ensures r.Some? ==> |r.value.1| < |s|
  {
    var neg := |s| > 0 && s[0] == '-';
    var t := if neg then s[1..] else s;
    if |t| == 0 || !IsDigit(t[0]) then None
    else
      var n := if t[0] == '0' then 1 else DigitRun(t);
      var magnitude: int := DigitsValue(t[..n]);
      if FloatContinues(t[n..]) then None
      else Some((JInt(if neg then -magnitude else magnitude), t[n..]))
  }

  /** The character an escape letter stands for. */
  function EscapedChar(c: char): Option<char> {
    if c == '"' then Some('"')
    else if c == '\\' then Some('\\')
    else if c == '/' then Some('/')
    else if c == 'b' then Some('\U{8}')
    else if c == 'f' then Some('\U{C}')
    else if c == 'n' then Some('\n')
    else if c == 'r' then Some('\r')
    else if c == 't' then Some('\t')
    else None
  }

  /** The body of a string literal after its opening quote: the decoded text
      and what follows the closing quote. */
  function ParseStringBody(s: string): (r: Option<(string, string)>)
    ensures r.Some? ==> |r.value.1| < |s|
  {
    if |s| == 0 then None
    else if s[0] == '"' then Some(("", s[1..]))
    else if s[0] == '\\' then
      if |s| < 2 then None
      else if s[1] == 'u' then
        if |s| < 6 || !IsHex(s[2]) || !IsHex(s[3]) || !IsHex(s[4]) || !IsHex(s[5]) then None
        else
          var code := ((HexValue(s[2]) * 16 + HexValue(s[3])) * 16 + HexValue(s[4])) * 16 + HexValue(s[5]);
          if 0xD800 <= code <= 0xDFFF then None
          else match ParseStringBody(s[6..])
            case Some((t, rest)) => Some(([code as char] + t, rest))
            case None => None
      else match EscapedChar(s[1])
        case None => None
        case Some(c) =>
          match ParseStringBody(s[2..])
          case Some((t, rest)) => Some(([c] + t, rest))
          case None => None
    else if (s[0] as int) < 0x20 then None
    else match ParseStringBody(s[1..])
      case Some((t, rest)) => Some(([s[0]] + t, rest))
      case None => None
  }

  /** One JSON value starting exactly at the beginning of `s`. */
  function ParseValue(s: string): (r: Option<(Json, string)>)
    ensures r.Some? ==> |r.value.1| < |s|
    decreases |s|, 0
  {
    if |s| == 0 then None
    else if s[0] == '"' then
      match ParseStringBody(s[1..])
      case Some((t, rest)) => Some((JStr(t), rest))
      case None => None
    else if s[0] == '[' then ParseArray(s[1..])
    else if s[0] == '{' then ParseObject(s[1..])
    else ParseScalar(s)
  }

  /** A literal `null`, `true` or `false`, or else an integer. */
  function ParseScalar(s: string): (r: Option<(Json, string)>)
    ensures r.Some? ==> |r.value.1| < |s|
  {
    if StartsWith(s, "null") then Some((JNull, s[4..]))
    else if StartsWith(s, "true") then Some((JBool(true), s[4..]))
    else if StartsWith(s, "false") then Some((JBool(false), s[5..]))
    else ParseNumber(s)
  }

  /** An array after its opening bracket. */
  function ParseArray(s: string): (r: Option<(Json, string)>)
    ensures r.Some? ==> |r.value.1| < |s|
    decreases |s|, 2
  {
    var t := SkipWs(s);
    if |t| > 0 && t[0] == ']' then Some((JArr([]), t[1..]))
    else ParseItems(t, [])
  }

  /** Array elements from the first one not yet read; `acc` holds the ones read. */
  function ParseItems(s: string, acc: seq<Json>): (r: Option<(Json, string)>)
    ensures r.Some? ==> |r.value.1| < |s|
    decreases |s|, 1
  {
    match ParseValue(s)
    case None => None
    case Some((v, rest)) =>
      var u := SkipWs(rest);
      if |u| == 0 then None
      else if u[0] == ',' then ParseItems(SkipWs(u[1..]), acc + [v])
      else if u[0] == ']' then Some((JArr(acc + [v]), u[1..]))
      else None
  }

  /** An object after its opening brace. */
  function ParseObject(s: string): (r: Option<(Json, string)>)
    ensures r.Some? ==> |r.value.1| < |s|
    decreases |s|, 2
  {
    var t := SkipWs(s);
    if |t| > 0 && t[0] == '}' then Some((JObj([]), t[1..]))
    else ParseMembers(t, [])
  }

  /** Object members from the first one not yet read; `acc` holds the
      members read so far, built the way `dict` builds them. */
  function ParseMembers(s: string, acc: seq<(string, Json)>): (r: Option<(Json, string)>)
    ensures r.Some? ==> |r.value.1| < |s|
    decreases |s|, 1
  {
    if |s| == 0 || s[0] != '"' then None
    else match ParseStringBody(s[1..])
      case None => None
      case Some((key, afterKey)) =>
        var u := SkipWs(afterKey);
        if |u| == 0 || u[0] != ':' then None
        else match ParseValue(SkipWs(u[1..]))
          case None => None
          case Some((v, rest)) =>
            var w := SkipWs(rest);
            if |w| == 0 then None
            else if w[0] == ',' then ParseMembers(SkipWs(w[1..]), Put(acc, key, v))
            else if w[0] == '}' then Some((JObj(Put(acc, key, v)), w[1..]))
            else None
  }

  /** `json.loads(s)`: one value surrounded by optional whitespace; `None`
      where Python raises `JSONDecodeError` (and, in this model, for floats). */
  function Loads(s: string): Option<Json> {
    match ParseValue(SkipWs(s))
    case Some((v, rest)) => if SkipWs(rest) == "" then Some(v) else None
    case None => None
  }

  // ---------------------------------------------------------------------
  // Round trip: decoding an encoding gives the value back

  /** What may follow a value without changing how it is read. */
  predicate Terminates(rest: string) {
    |rest| == 0 || rest[0] == ',' || rest[0] == ']' || rest[0] == '}'
  }

  /** Reading the escape of one character gives the character back. */
  lemma EscapeCharRead(c: char, tail: string)
    ensures ParseStringBody(EscapeChar(c) + tail) ==
      match ParseStringBody(tail)
      case Some((t, rest)) => Some(([c] + t, rest))
      case None => None
  {
    var input := EscapeChar(c) + tail;
    if c == '"' || c == '\\' || c == '\n' || c == '\r' || c == '\t' || c == '\U{8}' || c == '\U{C}' {
      assert input[0] == '\\';
      assert input[2..] == tail;
    } else if (c as int) < 0x20 {
      ControlCharRead(c, tail);
    } else {
      assert input[0] == c;
      assert input[1..] == tail;
    }
  }

  lemma ControlCharRead(c: char, tail: string)
    requires (c as int) < 0x20
    requires c != '\n' && c != '\r' && c != '\t' && c != '\U{8}' && c != '\U{C}'
    ensures ParseStringBody(EscapeChar(c) + tail) ==
      match ParseStringBody(tail)
      case Some((t, rest)) => Some(([c] + t, rest))
      case None => None
  {
    var hi, lo := c as int / 16, c as int % 16;
    HexDigitValue(hi);
    HexDigitValue(lo);
    HexDigitValue(0);
    var input := EscapeChar(c) + tail;
    assert EscapeChar(c) == "\\u00" + [HexDigit(hi), HexDigit(lo)];
    assert input[6..] == tail;
    assert input[0] == '\\' && input[1] == 'u' && input[2] == '0' && input[3] == '0';
    assert input[4] == HexDigit(hi) && input[5] == HexDigit(lo);
    var code := ((HexValue(input[2]) * 16 + HexValue(input[3])) * 16 + HexValue(input[4])) * 16 + HexValue(input[5]);
    assert code == hi * 16 + lo;
    assert code == c as int;
    assert code as char == c;
  }

  lemma {:induction false} StringRoundTrip(s: string, rest: string)
    ensures ParseStringBody(EscapeString(s) + "\"" + rest) == Some((s, rest))
  {
    if |s| == 0 {
      assert EscapeString(s) + "\"" + rest == "\"" + rest;
    } else {
      var tail := EscapeString(s[1..]) + "\"" + rest;
      StringRoundTrip(s[1..], rest);
      assert EscapeString(s) + "\"" + rest == EscapeChar(s[0]) + tail;
      EscapeCharRead(s[0], tail);
      assert [s[0]] + s[1..] == s;
    }
  }

  /** The first character of the encoding of anything but a float, which
      is never whitespace nor a closing bracket. */
  lemma EncodeStart(v: Json)
    requires !v.JFloat?
    ensures |Encode(v)| > 0
    ensures var c := Encode(v)[0];
      c == 'n' || c == 't' || c == 'f' || c == '-' || IsDigit(c) || c == '"' || c == '[' || c == '{'
  {
    match v
    case JInt(i) =>
      assert IntToString(i)[0] == '-' || IsDigit(IntToString(i)[0]);
    case _ =>
  }

  lemma IntRoundTrip(i: int, rest: string)
    requires Terminates(rest)
    ensures ParseNumber(IntToString(i) + rest) == Some((JInt(i), rest))
  {
    var n: nat := if i < 0 then -i else i;
    var d := NatToString(n);
    var s := IntToString(i) + rest;
    var t := if i < 0 then s[1..] else s;
    assert t == d + rest by {
      if i < 0 {
        assert s == "-" + d + rest;
      }
    }
    assert t[..|d|] == d;
    assert t[|d|..] == rest;
    if t[0] == '0' {
      assert d == "0";
    } else {
      DigitRunOfDigits(d, rest);
    }
    NatToStringValue(n);
  }

  lemma {:induction false} DigitRunOfDigits(d: string, rest: string)
    requires AllDigits(d)
    requires |rest| == 0 || !IsDigit(rest[0])
    ensures DigitRun(d + rest) == |d|
  {
    if |d| > 0 {
      assert (d + rest)[1..] == d[1..] + rest;
      DigitRunOfDigits(d[1..], rest);
    } else {
      assert d + rest == rest;
    }
  }

  // Unfolding steps of the decoder, one per shape of input.

  lemma ParseValueOpen(s: string)
    requires |s| > 0 && (s[0] == '[' || s[0] == '{')
    ensures s[0] == '[' ==> ParseValue(s) == ParseArray(s[1..])
    ensures s[0] == '{' ==> ParseValue(s) == ParseObject(s[1..])
  {
  }

  lemma ParseValueQuote(s: string, t: string, rest: string)
    requires |s| > 0 && s[0] == '"'
    requires ParseStringBody(s[1..]) == Some((t, rest))
    ensures ParseValue(s) == Some((JStr(t), rest))
  {
  }

  lemma ParseValueNumber(s: string)
    requires |s| > 0 && (s[0] == '-' || IsDigit(s[0]))
    ensures ParseValue(s) == ParseNumber(s)
  {
    assert ParseValue(s) == ParseScalar(s);
    FirstCharDiffers(s, "null");
    FirstCharDiffers(s, "true");
    FirstCharDiffers(s, "false");
  }

  /** A text does not start with a word whose first character differs from
      its own. */
  lemma FirstCharDiffers(s: string, word: string)
    requires |s| > 0 && |word| > 0 && s[0] != word[0]
    ensures !StartsWith(s, word)
  {
    if |word| <= |s| {
      assert s[..|word|][0] == s[0];
    }
  }

  lemma ParseArrayStart(s: string)
    requires |s| > 0 && !IsWs(s[0]) && s[0] != ']'
    ensures ParseArray(s) == ParseItems(s, [])
  {
  }

  lemma ParseObjectStart(s: string)
    requires |s| > 0 && s[0] == '"'
    ensures ParseObject(s) == ParseMembers(s, [])
  {
  }

  lemma ParseItemsLast(s: string, acc: seq<Json>, v: Json, rest: string)
    requires ParseValue(s) == Some((v, "]" + rest))
    ensures ParseItems(s, acc) == Some((JArr(acc + [v]), rest))
  {
    assert SkipWs("]" + rest) == "]" + rest;
    assert ("]" + rest)[1..] == rest;
  }

  /** `", "` followed by text that does not start with whitespace is skipped
      up to that text. */
  lemma SkipComma(tail: string)
    requires |tail| > 0 && !IsWs(tail[0])
    ensures SkipWs(", " + tail) == ", " + tail
    ensures SkipWs((", " + tail)[1..]) == tail
  {
    SkipOne(',', tail);
  }

  /** A character that is not whitespace, a space, then text that does not
      start with whitespace: skipping stops at the character, and skipping
      after it stops at the text. */
  lemma SkipOne(c: char, tail: string)
    requires !IsWs(c) && |tail| > 0 && !IsWs(tail[0])
    ensures SkipWs([c, ' '] + tail) == [c, ' '] + tail
    ensures SkipWs(([c, ' '] + tail)[1..]) == tail
  {
    var u := [c, ' '] + tail;
    assert u[0] == c;
    var spaced := u[1..];
    assert spaced[0] == ' ' && spaced[1..] == tail;
    assert SkipWs(tail) == tail;
  }

  lemma ParseItemsNext(s: string, acc: seq<Json>, v: Json, tail: string)
    requires ParseValue(s) == Some((v, ", " + tail))
    requires |tail| > 0 && !IsWs(tail[0])
    ensures ParseItems(s, acc) == ParseItems(tail, acc + [v])
  {
    SkipComma(tail);
  }

  /** Reading the key and the colon of an encoded member. */
  lemma ParseMemberHead(s: string, k: string, body: string)
    requires s == Quote(k) + (": " + body)
    requires |body| > 0 && !IsWs(body[0])
    ensures |s| > 0 && s[0] == '"'
    ensures ParseStringBody(s[1..]) == Some((k, ": " + body))
    ensures SkipWs(": " + body) == ": " + body
    ensures SkipWs((": " + body)[1..]) == body
  {
    QuotedKey(s, k, ": " + body);
    StringRoundTrip(k, ": " + body);
    ColonSpace(body);
  }

  lemma QuotedKey(s: string, k: string, u: string)
    requires s == Quote(k) + u
    ensures |s| > 0 && s[0] == '"'
    ensures s[1..] == EscapeString(k) + "\"" + u
  {
    assert s == "\"" + (EscapeString(k) + "\"" + u);
  }

  lemma ColonSpace(body: string)
    requires |body| > 0 && !IsWs(body[0])
    ensures SkipWs(": " + body) == ": " + body
    ensures SkipWs((": " + body)[1..]) == body
  {
    SkipOne(':', body);
  }

  lemma ParseMembersLast(s: string, acc: seq<(string, Json)>, k: string, v: Json, body: string, rest: string)
    requires s == Quote(k) + (": " + body)
    requires |body| > 0 && !IsWs(body[0])
    requires ParseValue(body) == Some((v, "}" + rest))
    ensures ParseMembers(s, acc) == Some((JObj(Put(acc, k, v)), rest))
  {
    ParseMemberHead(s, k, body);
    assert SkipWs("}" + rest) == "}" + rest;
    assert ("}" + rest)[1..] == rest;
  }

  lemma ParseMembersNext(s: string, acc: seq<(string, Json)>, k: string, v: Json, body: string, tail: string)
    requires s == Quote(k) + (": " + body)
    requires |body| > 0 && !IsWs(body[0])
    requires ParseValue(body) == Some((v, ", " + tail))
    requires |tail| > 0 && !IsWs(tail[0])
    ensures ParseMembers(s, acc) == ParseMembers(tail, Put(acc, k, v))
  {
    ParseMemberHead(s, k, body);
    SkipComma(tail);
  }

  // Round trips of the scalar encodings.

  lemma LiteralRoundTrip(v: Json, rest: string)
    requires v.JNull? || v.JBool?
    ensures ParseValue(Encode(v) + rest) == Some((v, rest))
  {
    var s := Encode(v) + rest;
    if v.JNull? {
      assert s[..4] == "null";
      assert s[4..] == rest;
    } else if v.b {
      assert s[..4] == "true";
      assert s[4..] == rest;
    } else {
      assert s[..4] != "null" && s[..4] != "true";
      assert s[..5] == "false";
      assert s[5..] == rest;
    }
  }

  lemma IntValueRoundTrip(i: int, rest: string)
    requires Terminates(rest)
    ensures ParseValue(Encode(JInt(i)) + rest) == Some((JInt(i), rest))
  {
    var s := IntToString(i) + rest;
    assert s[0] == IntToString(i)[0];
    ParseValueNumber(s);
    IntRoundTrip(i, rest);
  }

  lemma StrValueRoundTrip(t: string, rest: string)
    ensures ParseValue(Encode(JStr(t)) + rest) == Some((JStr(t), rest))
  {
    var s := Encode(JStr(t)) + rest;
    assert s[1..] == EscapeString(t) + "\"" + rest;
    StringRoundTrip(t, rest);
    ParseValueQuote(s, t, rest);
  }

  // Round trips of the structured encodings, by induction on the value.

  lemma {:induction false} ValueRoundTrip(v: Json, rest: string)
    requires WellFormed(v)
    requires Terminates(rest)
    ensures ParseValue(Encode(v) + rest) == Some((v, rest))
    decreases v, 2
  {
    match v
    case JNull => LiteralRoundTrip(v, rest);
    case JBool(_) => LiteralRoundTrip(v, rest);
    case JInt(i) => IntValueRoundTrip(i, rest);
    case JStr(t) => StrValueRoundTrip(t, rest);
    case JArr(items) =>
      var s := Encode(v) + rest;
      assert s[1..] == EncodeItems(items) + "]" + rest;
      ParseValueOpen(s);
      ArrayRoundTrip(items, rest);
    case JObj(fields) =>
      var s := Encode(v) + rest;
      assert s[1..] == EncodeMembers(fields) + "}" + rest;
      ParseValueOpen(s);
      ObjectRoundTrip(fields, rest);
  }

  lemma {:induction false} ArrayRoundTrip(items: seq<Json>, rest: string)
    requires forall i | 0 <= i < |items| :: WellFormed(items[i])
    requires Terminates(rest)
    ensures ParseArray(EncodeItems(items) + "]" + rest) == Some((JArr(items), rest))
    decreases items, 1
  {
    var s := EncodeItems(items) + "]" + rest;
    if |items| == 0 {
      assert s == "]" + rest;
      assert s[1..] == rest;
    } else {
      ItemsStart(items);
      assert s[0] == EncodeItems(items)[0];
      ParseArrayStart(s);
      ItemsRoundTrip(items, [], rest);
      assert [] + items == items;
    }
  }

  /** A non-empty list of items starts like the encoding of its first item. */
  lemma ItemsStart(items: seq<Json>)
    requires |items| > 0 && !items[0].JFloat?
    ensures |EncodeItems(items)| > 0
    ensures var c := EncodeItems(items)[0];
      !IsWs(c) && c != ']' && c != '}'
  {
    EncodeStart(items[0]);
    if |items| > 1 {
      assert EncodeItems(items)[0] == Encode(items[0])[0];
    }
  }

  lemma EncodeItemsCons(items: seq<Json>, rest: string)
    requires |items| > 1
    ensures EncodeItems(items) + "]" + rest == Encode(items[0]) + (", " + (EncodeItems(items[1..]) + "]" + rest))
  {
    var a, b := Encode(items[0]), EncodeItems(items[1..]);
    assert EncodeItems(items) == a + ", " + b;
    Regroup(a, ", ", b, "]", rest);
  }

  /** The last item of an array, read on top of `acc`. */
  lemma {:induction false} ItemLastRoundTrip(v: Json, acc: seq<Json>, rest: string)
    requires WellFormed(v)
    ensures ParseItems(Encode(v) + ("]" + rest), acc) == Some((JArr(acc + [v]), rest))
    decreases v, 3
  {
    ValueRoundTrip(v, "]" + rest);
    ParseItemsLast(Encode(v) + ("]" + rest), acc, v, rest);
  }

  /** An item followed by a comma, read on top of `acc`. */
  lemma {:induction false} ItemNextRoundTrip(v: Json, acc: seq<Json>, tail: string)
    requires WellFormed(v)
    requires |tail| > 0 && !IsWs(tail[0])
    ensures ParseItems(Encode(v) + (", " + tail), acc) == ParseItems(tail, acc + [v])
    decreases v, 3
  {
    ValueRoundTrip(v, ", " + tail);
    ParseItemsNext(Encode(v) + (", " + tail), acc, v, tail);
  }

  lemma {:induction false} ItemsRoundTrip(items: seq<Json>, acc: seq<Json>, rest: string)
    requires |items| > 0
    requires forall i | 0 <= i < |items| :: WellFormed(items[i])
    requires Terminates(rest)
    ensures ParseItems(EncodeItems(items) + "]" + rest, acc) == Some((JArr(acc + items), rest))
    decreases items, 0
  {
    if |items| == 1 {
      assert EncodeItems(items) + "]" + rest == Encode(items[0]) + ("]" + rest);
      ItemLastRoundTrip(items[0], acc, rest);
      assert acc + [items[0]] == acc + items;
    } else {
      var tail := EncodeItems(items[1..]) + "]" + rest;
      EncodeItemsCons(items, rest);
      ItemsStart(items[1..]);
      assert tail[0] == EncodeItems(items[1..])[0];
      ItemNextRoundTrip(items[0], acc, tail);
      ItemsRoundTrip(items[1..], acc + [items[0]], rest);
      assert acc + [items[0]] + items[1..] == acc + items;
    }
  }

  /** Putting the entries of `fields` one by one after `acc`. */
  function PutAll(acc: seq<(string, Json)>, fields: seq<(string, Json)>): seq<(string, Json)>
    decreases |fields|
  {
    if |fields| == 0 then acc else PutAll(Put(acc, fields[0].0, fields[0].1), fields[1..])
  }

  /** When no key repeats, building a `dict` keeps the entries as they are. */
  lemma {:induction false} PutAllFresh(acc: seq<(string, Json)>, fields: seq<(string, Json)>)
    requires UniqueKeys(acc + fields)
    ensures PutAll(acc, fields) == acc + fields
    decreases |fields|
  {
    if |fields| > 0 {
      var all := acc + fields;
      var k := fields[0].0;
      assert all[|acc|] == fields[0];
      forall j | 0 <= j < |acc|
        ensures acc[j].0 != k
      {
        assert all[j] == acc[j];
      }
      assert Put(acc, k, fields[0].1) == acc + [fields[0]];
      assert acc + [fields[0]] + fields[1..] == all;
      PutAllFresh(acc + [fields[0]], fields[1..]);
    }
  }

  lemma EncodeMembersOne(fields: seq<(string, Json)>, rest: string)
    requires |fields| == 1
    ensures EncodeMembers(fields) + "}" + rest == EncodeMember(fields[0]) + ("}" + rest)
  {
  }

  lemma EncodeMembersCons(fields: seq<(string, Json)>, rest: string)
    requires |fields| > 1
    ensures EncodeMembers(fields) + "}" + rest == EncodeMember(fields[0]) + (", " + (EncodeMembers(fields[1..]) + "}" + rest))
  {
    var a, b := EncodeMember(fields[0]), EncodeMembers(fields[1..]);
    assert EncodeMembers(fields) == a + ", " + b;
    Regroup(a, ", ", b, "}", rest);
  }

  /** Regrouping the pieces of a separated list followed by a closing
      character. */
  lemma Regroup(a: string, sep: string, b: string, close: string, rest: string)
    ensures a + sep + b + close + rest == a + (sep + (b + close + rest))
  {
  }

  /** A non-empty member list starts with the quote of its first key. */
  lemma MembersStart(fields: seq<(string, Json)>)
    requires |fields| > 0
    ensures |EncodeMembers(fields)| > 0 && EncodeMembers(fields)[0] == '"'
  {
    assert EncodeMember(fields[0])[0] == '"';
  }

  lemma {:induction false} ObjectRoundTrip(fields: seq<(string, Json)>, rest: string)
    requires UniqueKeys(fields)
    requires forall i | 0 <= i < |fields| :: WellFormed(fields[i].1)
    requires Terminates(rest)
    ensures ParseObject(EncodeMembers(fields) + "}" + rest) == Some((JObj(fields), rest))
    decreases fields, 1
  {
    var s := EncodeMembers(fields) + "}" + rest;
    if |fields| == 0 {
      assert s == "}" + rest;
      ParseObjectEmpty(rest);
    } else {
      assert ParseObject(s) == ParseMembers(s, []) by {
        MembersStart(fields);
        assert s[0] == EncodeMembers(fields)[0];
        ParseObjectStart(s);
      }
      assert ParseMembers(s, []) == Some((JObj(PutAll([], fields)), rest)) by {
        MembersRoundTrip(fields, [], rest);
      }
      assert PutAll([], fields) == fields by {
        assert [] + fields == fields;
        PutAllFresh([], fields);
      }
    }
  }

  lemma ParseObjectEmpty(rest: string)
    ensures ParseObject("}" + rest) == Some((JObj([]), rest))
  {
    var s := "}" + rest;
    assert s[0] == '}';
    assert SkipWs(s) == s;
    assert s[1..] == rest;
  }

  /** One member followed by `after`, read on top of `acc`. */
  lemma {:induction false} MemberRoundTrip(m: (string, Json), acc: seq<(string, Json)>, after: string, tail: string)
    requires WellFormed(m.1)
    requires after == "}" + tail || (after == ", " + tail && |tail| > 0 && !IsWs(tail[0]))
    ensures after == "}" + tail ==>
      ParseMembers(EncodeMember(m) + after, acc) == Some((JObj(Put(acc, m.0, m.1)), tail))
    ensures after == ", " + tail && |tail| > 0 && !IsWs(tail[0]) ==>
      ParseMembers(EncodeMember(m) + after, acc) == ParseMembers(tail, Put(acc, m.0, m.1))
    decreases m, 0
  {
    var body := Encode(m.1) + after;
    var s := EncodeMember(m) + after;
    assert s == Quote(m.0) + (": " + body);
    EncodeStart(m.1);
    assert body[0] == Encode(m.1)[0];
    ValueRoundTrip(m.1, after);
    if after == "}" + tail {
      ParseMembersLast(s, acc, m.0, m.1, body, tail);
    } else {
      ParseMembersNext(s, acc, m.0, m.1, body, tail);
    }
  }

  lemma {:induction false} MembersRoundTrip(fields: seq<(string, Json)>, acc: seq<(string, Json)>, rest: string)
    requires |fields| > 0
    requires forall i | 0 <= i < |fields| :: WellFormed(fields[i].1)
    requires Terminates(rest)
    ensures ParseMembers(EncodeMembers(fields) + "}" + rest, acc) == Some((JObj(PutAll(acc, fields)), rest))
    decreases fields, 0
  {
    var m := fields[0];
    if |fields| == 1 {
      EncodeMembersOne(fields, rest);
      MemberRoundTrip(m, acc, "}" + rest, rest);
    } else {
      var tail := EncodeMembers(fields[1..]) + "}" + rest;
      EncodeMembersCons(fields, rest);
      MembersStart(fields[1..]);
      assert tail[0] == '"';
      MemberRoundTrip(m, acc, ", " + tail, tail);
      MembersRoundTrip(fields[1..], Put(acc, m.0, m.1), rest);
    }
  }

  /** Decoding the encoding of a well-formed value gives the value back. */
  lemma LoadsEncode(v: Json)
    requires WellFormed(v)
    ensures Loads(Encode(v)) == Some(v)
  {
    var e := Encode(v);
    EncodeStart(v);
    assert !IsWs(e[0]);
    assert SkipWs(e) == e;
    ValueRoundTrip(v, "");
    assert e + "" == e;
    assert ParseValue(e) == Some((v, ""));
  }
}
