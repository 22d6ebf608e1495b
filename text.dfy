/**
 * The string operations the services rely on: .NET's notion of white space
 * (Char.IsWhiteSpace), string.IsNullOrWhiteSpace, string.Trim, the decimal
 * rendering of an integer in an interpolated string, and substring search.
 */
module Text {
  import opened Dates

  /** Char.IsWhiteSpace: the Unicode space, line and paragraph separators
      and the control characters U+0009 to U+000D and U+0085. */
  predicate IsWhiteSpace(c: char) {
    c == ' ' || ('\t' <= c <= '\r') || c == '\U{0085}' || c == '\U{00A0}' || c == '\U{1680}'
    || ('\U{2000}' <= c <= '\U{200A}') || c == '\U{2028}' || c == '\U{2029}'
    || c == '\U{202F}' || c == '\U{205F}' || c == '\U{3000}'
  }

  /** string.IsNullOrWhiteSpace on a string that is not null. */
  predicate IsBlank(s: string) {
    forall i :: 0 <= i < |s| ==> IsWhiteSpace(s[i])
  }

  /** The first index at or after i that does not hold white space. */
  function SkipLeading(s: string, i: nat): (r: nat)
    requires i <= |s|
    ensures i <= r <= |s|
    ensures forall k :: i <= k < r ==> IsWhiteSpace(s[k])
    ensures r < |s| ==> !IsWhiteSpace(s[r])
    decreases |s| - i
  {
    if i < |s| && IsWhiteSpace(s[i]) then SkipLeading(s, i + 1) else i
  }

  /** The end of s[lo..j] once trailing white space is dropped. */
  function SkipTrailing(s: string, lo: nat, j: nat): (r: nat)
    requires lo <= j <= |s|
    ensures lo <= r <= j
    ensures forall k :: r <= k < j ==> IsWhiteSpace(s[k])
    ensures r > lo ==> !IsWhiteSpace(s[r - 1])
    decreases j - lo
  {
    if j > lo && IsWhiteSpace(s[j - 1]) then SkipTrailing(s, lo, j - 1) else j
  }

  /** string.Trim. */
  function Trim(s: string): string {
    var start := SkipLeading(s, 0);
    s[start..SkipTrailing(s, start, |s|)]
  }

  /** Trim keeps the longest infix that neither starts nor ends with white
      space: everything cut away on either side is white space. */
  lemma TrimSpec(s: string)
    ensures exists k :: OccursAt(s, Trim(s), k)
                        && (forall i :: 0 <= i < k ==> IsWhiteSpace(s[i]))
                        && (forall i :: k + |Trim(s)| <= i < |s| ==> IsWhiteSpace(s[i]))
    ensures Trim(s) != [] ==> !IsWhiteSpace(Trim(s)[0]) && !IsWhiteSpace(Trim(s)[|Trim(s)| - 1])
  {
    var a := SkipLeading(s, 0);
    var b := SkipTrailing(s, a, |s|);
    assert OccursAt(s, Trim(s), a);
  }

  /** Only a blank string trims to the empty string. */
  lemma TrimBlank(s: string)
    ensures Trim(s) == [] <==> IsBlank(s)
  {
    var a := SkipLeading(s, 0);
    var b := SkipTrailing(s, a, |s|);
    if Trim(s) == [] {
      assert a == b == |s|;
    }
  }

  /** Trimming is idempotent. */
  lemma TrimIdempotent(s: string)
    ensures Trim(Trim(s)) == Trim(s)
  {
    var r := Trim(s);
    TrimSpec(s);
    if r != [] {
      assert SkipLeading(r, 0) == 0;
      assert SkipTrailing(r, 0, |r|) == |r|;
    }
  }

  /** The decimal digits of a natural number, most significant first. */
  function NatToString(n: nat): (s: string)
    ensures s != [] && AllDigits(s)
    ensures n > 0 ==> s[0] != '0'
    decreases n
  {
    if n < 10 then [DigitChar(n)] else NatToString(n / 10) + [DigitChar(n % 10)]
  }

  lemma {:induction false} NatToStringRoundTrip(n: nat)
    ensures DecimalValue(NatToString(n)) == n
    decreases n
  {
    if n >= 10 {
      NatToStringRoundTrip(n / 10);
      var s := NatToString(n);
      assert s[..|s| - 1] == NatToString(n / 10);
    }
  }

  /** How a C# interpolated string renders a long: a minus sign for negative values. */
  function IntToString(i: int): string {
    if i >= 0 then NatToString(i) else "-" + NatToString(-i)
  }

  /** The rendering reads back as the number. */
  lemma IntToStringRoundTrip(i: int)
    ensures IntToString(i) != []
    ensures i >= 0 ==> AllDigits(IntToString(i)) && DecimalValue(IntToString(i)) == i
    ensures i < 0 ==> IntToString(i)[0] == '-' && AllDigits(IntToString(i)[1..]) && DecimalValue(IntToString(i)[1..]) == -i
  {
    if i >= 0 {
      NatToStringRoundTrip(i);
    } else {
      NatToStringRoundTrip(-i);
      assert IntToString(i)[1..] == NatToString(-i);
    }
  }

  predicate OccursAt(s: string, sub: string, k: int) {
    0 <= k <= |s| - |sub| && s[k..k + |sub|] == sub
  }

  /** string.Contains. */
  predicate Contains(s: string, sub: string) {
    exists k | 0 <= k <= |s| - |sub| :: OccursAt(s, sub, k)
  }

  /** A string ends with its last part. */
  lemma ContainsSuffix(s: string, sub: string)
    ensures Contains(s + sub, sub)
  {
    assert (s + sub)[|s|..|s| + |sub|] == sub;
    assert OccursAt(s + sub, sub, |s|);
  }

  /** Appending keeps an occurrence. */
  lemma ContainsPrefix(s: string, t: string, sub: string)
    requires Contains(s, sub)
    ensures Contains(s + t, sub)
  {
    var k :| 0 <= k <= |s| - |sub| && OccursAt(s, sub, k);
    assert (s + t)[k..k + |sub|] == s[k..k + |sub|];
    assert OccursAt(s + t, sub, k);
  }

  /** A text pieced together from seven parts, fixed text alternating with
      fields, contains its opening phrase and each of its fields. */
  lemma FieldsOfMessage(a: string, b: string, c: string, d: string, e: string, f: string, g: string)
    ensures var m := a + b + c + d + e + f + g;
            && Contains(m, a + b) && Contains(m, b) && Contains(m, d) && Contains(m, f) && Contains(m, g)
  {
    ContainsSuffix([], a + b);
    assert [] + (a + b) == a + b;
    ContainsSuffix(a, b);
    ContainsSuffix(a + b + c, d);
    ContainsSuffix(a + b + c + d + e, f);
    ContainsSuffix(a + b + c + d + e + f, g);
    ContainsPrefix(a + b, c, a + b);
    ContainsPrefix(a + b, c, b);
    ContainsPrefix(a + b + c, d, a + b);
    ContainsPrefix(a + b + c, d, b);
    ContainsPrefix(a + b + c + d, e, a + b);
    ContainsPrefix(a + b + c + d, e, b);
    ContainsPrefix(a + b + c + d, e, d);
    ContainsPrefix(a + b + c + d + e, f, a + b);
    ContainsPrefix(a + b + c + d + e, f, b);
    ContainsPrefix(a + b + c + d + e, f, d);
    ContainsPrefix(a + b + c + d + e + f, g, a + b);
    ContainsPrefix(a + b + c + d + e + f, g, b);
    ContainsPrefix(a + b + c + d + e + f, g, d);
    ContainsPrefix(a + b + c + d + e + f, g, f);
  }
}
