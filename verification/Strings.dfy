/** Text helpers shared by both halves of the model: ASCII case mapping
    (Java's `toLowerCase`/`toUpperCase` and Python's `str` methods restricted
    to ASCII), prefix and suffix tests, joining, and the decimal rendering of
    integers together with its inverse. */
module Strings {
  import opened Wrappers

  // ---------------------------------------------------------------------
  // Characters

  predicate IsUpper(c: char) {
    'A' <= c <= 'Z'
  }

  predicate IsLower(c: char) {
    'a' <= c <= 'z'
  }

  predicate IsDigit(c: char) {
    '0' <= c <= '9'
  }

  function UpperChar(c: char): char {
    if IsLower(c) then (c as int - 32) as char else c
  }

  function LowerChar(c: char): char {
    if IsUpper(c) then (c as int + 32) as char else c
  }

  /** Upper-cases every character (ASCII letters only). */
  function Upper(s: string): (r: string)
    ensures |r| == |s|
    ensures forall i :: 0 <= i < |s| ==> r[i] == UpperChar(s[i])
  {
    seq(|s|, i requires 0 <= i < |s| => UpperChar(s[i]))
  }

  /** Lower-cases every character (ASCII letters only). */
  function Lower(s: string): (r: string)
    ensures |r| == |s|
    ensures forall i :: 0 <= i < |s| ==> r[i] == LowerChar(s[i])
  {
    seq(|s|, i requires 0 <= i < |s| => LowerChar(s[i]))
  }

  predicate NoUpper(s: string) {
    forall i :: 0 <= i < |s| ==> !IsUpper(s[i])
  }

  lemma LowerHasNoUpper(s: string)
    ensures NoUpper(Lower(s))
  {
  }

  lemma LowerOfNoUpper(s: string)
    requires NoUpper(s)
    ensures Lower(s) == s
  {
  }

  lemma LowerConcat(a: string, b: string)
    ensures Lower(a + b) == Lower(a) + Lower(b)
  {
  }

  /** `s.substring(0, 1).toUpperCase() + s.substring(1)` for a non-empty `s`;
      the empty string is returned unchanged. */
  function Capitalize(s: string): (r: string)
    ensures |r| == |s|
    ensures |s| > 0 ==> r[0] == UpperChar(s[0]) && r[1..] == s[1..]
    ensures |s| == 0 ==> r == s
  {
    if |s| == 0 then s else [UpperChar(s[0])] + s[1..]
  }

  /** The first character lower-cased, the rest unchanged. */
  function LowerFirst(s: string): (r: string)
    ensures |r| == |s|
    ensures |s| > 0 ==> r[0] == LowerChar(s[0]) && r[1..] == s[1..]
  {
    if |s| == 0 then s else [LowerChar(s[0])] + s[1..]
  }

  // ---------------------------------------------------------------------
  // Prefixes, suffixes, containment

  predicate StartsWith(s: string, prefix: string) {
    |prefix| <= |s| && s[..|prefix|] == prefix
  }

  predicate EndsWith(s: string, suffix: string) {
    |suffix| <= |s| && s[|s| - |suffix|..] == suffix
  }

  lemma StartsWithConcat(p: string, rest: string)
    ensures StartsWith(p + rest, p)
  {
    assert (p + rest)[..|p|] == p;
  }

  /** True iff `t` occurs in `s` starting at index `i`. */
  predicate OccursAt(s: string, t: string, i: int) {
    0 <= i <= |s| - |t| && s[i..i + |t|] == t
  }

  /** True iff `t` occurs in `s` as a contiguous substring. */
  predicate ContainsText(s: string, t: string) {
    exists i | 0 <= i <= |s| - |t| :: OccursAt(s, t, i)
  }

  /** Every character of `s` that is not in `drop`, in order: the effect of
      chained `replace("x", "")` calls on single characters. */
  function RemoveChars(s: string, drop: set<char>): (r: string)
    ensures forall i :: 0 <= i < |r| ==> r[i] !in drop
    ensures |r| <= |s|
    ensures (forall i :: 0 <= i < |s| ==> s[i] !in drop) ==> r == s
  {
    if |s| == 0 then ""
    else if s[0] in drop then RemoveChars(s[1..], drop)
    else [s[0]] + RemoveChars(s[1..], drop)
  }

  lemma {:induction false} RemoveCharsConcat(a: string, b: string, drop: set<char>)
    ensures RemoveChars(a + b, drop) == RemoveChars(a, drop) + RemoveChars(b, drop)
  {
    if |a| == 0 {
      assert a + b == b;
    } else {
      assert (a + b)[1..] == a[1..] + b;
      RemoveCharsConcat(a[1..], b, drop);
    }
  }

  /** Removing the same characters twice is removing them once. */
  lemma RemoveCharsIdempotent(s: string, drop: set<char>)
    ensures RemoveChars(RemoveChars(s, drop), drop) == RemoveChars(s, drop)
  {
  }

  /** Removing characters one set at a time is removing their union, which
      is why three chained `replace` calls equal one removal. */
  lemma {:induction false} RemoveCharsTwice(s: string, a: set<char>, b: set<char>)
    ensures RemoveChars(RemoveChars(s, a), b) == RemoveChars(s, a + b)
  {
    if |s| > 0 {
      RemoveCharsTwice(s[1..], a, b);
      if s[0] !in a {
        assert ([s[0]] + RemoveChars(s[1..], a))[1..] == RemoveChars(s[1..], a);
      }
    }
  }

  // ---------------------------------------------------------------------
  // Joining and splitting

  /** Python's `sep.join(xs)` and Java's `String.join(sep, xs)`. */
  function Join(sep: string, xs: seq<string>): (r: string)
    ensures |xs| == 0 ==> r == ""
    ensures |xs| == 1 ==> r == xs[0]
  {
    if |xs| == 0 then ""
    else if |xs| == 1 then xs[0]
    else xs[0] + sep + Join(sep, xs[1..])
  }

  /** Joining with one more piece at the end. */
  lemma {:induction false} JoinSnoc(sep: string, xs: seq<string>, x: string)
    requires |xs| > 0
    ensures Join(sep, xs + [x]) == Join(sep, xs) + sep + x
  {
    if |xs| == 1 {
      assert (xs + [x])[1..] == [x];
    } else {
      assert (xs + [x])[1..] == xs[1..] + [x];
      JoinSnoc(sep, xs[1..], x);
    }
  }

  /** Every piece occurs in the joined text, at a known offset. */
  lemma {:induction false} JoinContains(sep: string, xs: seq<string>, i: nat)
    requires i < |xs|
    ensures ContainsText(Join(sep, xs), xs[i])
  {
    var j := Join(sep, xs);
    if |xs| == 1 {
      assert OccursAt(j, xs[0], 0);
    } else if i == 0 {
      assert j == xs[0] + (sep + Join(sep, xs[1..]));
      assert OccursAt(j, xs[0], 0);
    } else {
      JoinContains(sep, xs[1..], i - 1);
      var rest := Join(sep, xs[1..]);
      var p :| 0 <= p <= |rest| - |xs[i]| && OccursAt(rest, xs[i], p);
      assert j == (xs[0] + sep) + rest;
      OccursAfter(xs[0] + sep, rest, xs[i], p);
    }
  }

  /** An occurrence in `rest` is an occurrence in `pre + rest`, shifted by
      the length of `pre`. */
  lemma OccursAfter(pre: string, rest: string, t: string, p: int)
    requires OccursAt(rest, t, p)
    ensures OccursAt(pre + rest, t, |pre| + p)
  {
    var s := pre + rest;
    forall k | 0 <= k < |t| ensures s[|pre| + p..|pre| + p + |t|][k] == t[k] {
      assert s[|pre| + p + k] == rest[p + k];
      assert rest[p..p + |t|][k] == rest[p + k];
    }
  }

  /** The text before the first occurrence of `sep` (all of `s` when `sep`
      does not occur): element 0 of Python's `s.split(sep)`. */
  function SplitFirst(s: string, sep: string): (r: string)
    requires |sep| > 0
    ensures StartsWith(s, r)
    decreases |s|
  {
    if |s| < |sep| then s
    else if s[..|sep|] == sep then ""
    else [s[0]] + SplitFirst(s[1..], sep)
  }

  /** If `a` does not contain the first character of `sep`, the first piece
      of `a + sep + b` is `a`. */
  lemma {:induction false} SplitFirstAtSeparator(a: string, sep: string, b: string)
    requires |sep| > 0
    requires sep[0] !in a
    ensures SplitFirst(a + sep + b, sep) == a
    decreases |a|
  {
    var s := a + sep + b;
    if |a| == 0 {
      assert s == sep + b;
      assert s[..|sep|] == sep;
    } else {
      assert s[0] == a[0];
      assert s[..|sep|][0] == s[0];
      assert s[1..] == a[1..] + sep + b;
      SplitFirstAtSeparator(a[1..], sep, b);
    }
  }

  // ---------------------------------------------------------------------
  // Decimal integers

  function DigitChar(d: nat): char
    requires d < 10
  {
    ('0' as int + d) as char
  }

  function DigitValue(c: char): nat
    requires IsDigit(c)
  {
    c as int - '0' as int
  }

  predicate AllDigits(s: string) {
    forall i :: 0 <= i < |s| ==> IsDigit(s[i])
  }

  /** Decimal text of a natural number, without leading zeros. */
  function NatToString(n: nat): (r: string)
    ensures |r| > 0 && AllDigits(r)
    ensures r[0] == '0' ==> n == 0 && r == "0"
  {
    if n < 10 then [DigitChar(n)] else NatToString(n / 10) + [DigitChar(n % 10)]
  }

  /** The value of a run of decimal digits, most significant first. */
  function DigitsValue(s: string): nat
    requires AllDigits(s)
  {
    if |s| == 0 then 0 else 10 * DigitsValue(s[..|s| - 1]) + DigitValue(s[|s| - 1])
  }

  lemma {:induction false} NatToStringValue(n: nat)
    ensures DigitsValue(NatToString(n)) == n
  {
    if n >= 10 {
      var s := NatToString(n / 10) + [DigitChar(n % 10)];
      assert s[..|s| - 1] == NatToString(n / 10);
      NatToStringValue(n / 10);
    }
  }

  /** Python's `str(i)` / Java's `Integer.toString(i)` on unbounded integers. */
  function IntToString(i: int): (r: string)
    ensures |r| > 0
    ensures r[0] == '-' <==> i < 0
    ensures forall k :: 0 < k < |r| ==> IsDigit(r[k])
  {
    if i < 0 then "-" + NatToString(-i) else NatToString(i)
  }

  /** Python's `int(s)` on an optional sign followed by decimal digits;
      anything else raises `ValueError`, modelled as `None`. */
  function ParseInt(s: string): (r: Option<int>)
  {
    if |s| > 0 && (s[0] == '-' || s[0] == '+') then
      if |s| > 1 && AllDigits(s[1..]) then
        var magnitude: int := DigitsValue(s[1..]);
        Some(if s[0] == '-' then -magnitude else magnitude)
      else None
    else if |s| > 0 && AllDigits(s) then Some(DigitsValue(s))
    else None
  }

  /** Parsing the decimal rendering of an integer gives the integer back. */
  lemma IntToStringRoundTrip(i: int)
    ensures ParseInt(IntToString(i)) == Some(i)
  {
    if i < 0 {
      var d := NatToString(-i);
      assert ("-" + d)[1..] == d;
      NatToStringValue(-i);
    } else {
      NatToStringValue(i);
    }
  }

  /** The decimal rendering of an integer contains no space. */
  lemma IntToStringHasNoSpace(i: int)
    ensures ' ' !in IntToString(i)
  {
  }
}
