/**
 * The pieces of the JavaScript string library that the client code relies on:
 * the character classes of regular expressions (`\s`, `\w`, line terminators),
 * `toLowerCase`, `includes`, `trim`, and the decimal rendering of a number
 * inside a template string. Strings are sequences of Unicode scalar values.
 */
module Text {

  /** LineTerminator of ECMAScript: where `$` holds in a multiline regular expression. */
  predicate IsLineTerminator(c: char)
  {
    c == '\n' || c == '\r' || c == '\U{2028}' || c == '\U{2029}'
  }

  /** The `\s` class, which is also the set of characters `trim` strips. */
  predicate IsWhitespace(c: char)
  {
    || IsLineTerminator(c)
    || c == '\t' || c == '\U{000B}' || c == '\U{000C}' || c == ' '
    || c == '\U{00A0}' || c == '\U{1680}' || ('\U{2000}' <= c <= '\U{200A}')
    || c == '\U{202F}' || c == '\U{205F}' || c == '\U{3000}' || c == '\U{FEFF}'
  }

  /** The `\w` class: ASCII letters, digits and underscore. */
  predicate IsWordChar(c: char)
  {
    ('a' <= c <= 'z') || ('A' <= c <= 'Z') || ('0' <= c <= '9') || c == '_'
  }

  /** `toLowerCase` on one character, restricted to the ASCII letters. */
  function LowerChar(c: char): (r: char)
    ensures 'A' <= c <= 'Z' ==> 'a' <= r <= 'z' && r as int == c as int + 32
    ensures !('A' <= c <= 'Z') ==> r == c
  {
    if 'A' <= c <= 'Z' then (c as int + 32) as char else c
  }

  /** `toLowerCase` on a string, character by character. */
  function Lower(s: string): (r: string)
    ensures |r| == |s|
    ensures forall i :: 0 <= i < |s| ==> r[i] == LowerChar(s[i])
  {
    seq(|s|, i requires 0 <= i < |s| => LowerChar(s[i]))
  }

  lemma LowerSlice(s: string, a: nat, b: nat)
    requires a <= b <= |s|
    ensures Lower(s[a..b]) == Lower(s)[a..b]
  {
  }

  lemma LowerAppend(x: string, y: string)
    ensures Lower(x + y) == Lower(x) + Lower(y)
  {
  }

  /** `w[j..]` occurs in `s` starting at index `k + j`. */
  predicate MatchFrom(s: string, w: string, k: nat, j: nat)
    requires k + |w| <= |s| && j <= |w|
    decreases |w| - j
  {
    j == |w| || (s[k + j] == w[j] && MatchFrom(s, w, k, j + 1))
  }

  /** `w` occurs in `s` at index `k`. */
  predicate OccursAt(s: string, w: string, k: nat)
  {
    k + |w| <= |s| && MatchFrom(s, w, k, 0)
  }

  lemma {:induction false} MatchFromIff(s: string, w: string, k: nat, j: nat)
    requires k + |w| <= |s| && j <= |w|
    ensures MatchFrom(s, w, k, j) <==> forall i :: j <= i < |w| ==> s[k + i] == w[i]
    decreases |w| - j
  {
    if j < |w| {
      MatchFromIff(s, w, k, j + 1);
    }
  }

  /** An occurrence is the same thing as a slice equal to `w`. */
  lemma OccursAtIff(s: string, w: string, k: nat)
    ensures OccursAt(s, w, k) <==> k + |w| <= |s| && s[k..k + |w|] == w
  {
    if k + |w| <= |s| {
      MatchFromIff(s, w, k, 0);
    }
  }

  /** `w` occurs in `s` at some index `k' >= k`. */
  predicate ContainsFrom(s: string, w: string, k: nat)
    decreases |s| - k
  {
    k + |w| <= |s| && (MatchFrom(s, w, k, 0) || ContainsFrom(s, w, k + 1))
  }

  /** JavaScript `s.includes(w)`. */
  predicate Contains(s: string, w: string)
  {
    ContainsFrom(s, w, 0)
  }

  lemma {:induction false} ContainsFromIff(s: string, w: string, k: nat)
    ensures ContainsFrom(s, w, k) <==> exists k': nat :: k <= k' && OccursAt(s, w, k')
    decreases |s| - k
  {
    if k + |w| <= |s| {
      ContainsFromIff(s, w, k + 1);
      if MatchFrom(s, w, k, 0) {
        assert OccursAt(s, w, k);
      }
      if exists k': nat :: k <= k' && OccursAt(s, w, k') {
        var k': nat :| k <= k' && OccursAt(s, w, k');
        assert k' == k || (k + 1 <= k' && OccursAt(s, w, k'));
      }
    } else {
      assert forall k': nat :: k <= k' ==> !OccursAt(s, w, k');
    }
  }

  /** `includes` is true exactly when there is an index of an occurrence. */
  lemma ContainsIff(s: string, w: string)
    ensures Contains(s, w) <==> exists k: nat :: OccursAt(s, w, k)
  {
    ContainsFromIff(s, w, 0);
  }

  /** Witness form: an occurrence at `k` makes `includes` true. */
  lemma ContainsAt(s: string, w: string, k: nat)
    requires k + |w| <= |s| && s[k..k + |w|] == w
    ensures Contains(s, w)
  {
    OccursAtIff(s, w, k);
    ContainsIff(s, w);
  }

  /** A string occurs in any text built around it. */
  lemma ContainsMiddle(x: string, w: string, y: string)
    ensures Contains(x + w + y, w)
  {
    assert (x + w + y)[|x|..|x| + |w|] == w;
    ContainsAt(x + w + y, w, |x|);
  }

  /** A word whose first character is nowhere in `s` does not occur in `s`. */
  lemma AbsentFirstChar(s: string, w: string)
    requires |w| > 0 && forall i :: 0 <= i < |s| ==> s[i] != w[0]
    ensures !Contains(s, w)
  {
    ContainsIff(s, w);
    forall k: nat
      ensures !OccursAt(s, w, k)
    {
      OccursAtIff(s, w, k);
      if k + |w| <= |s| {
        assert s[k..k + |w|][0] == s[k];
      }
    }
  }

  /** An occurrence of `x` in `s` and of `w` in `x` give an occurrence of `w` in `s`. */
  lemma ContainsTransitive(s: string, x: string, w: string)
    requires Contains(s, x) && Contains(x, w)
    ensures Contains(s, w)
  {
    ContainsIff(s, x);
    ContainsIff(x, w);
    var a: nat :| OccursAt(s, x, a);
    var b: nat :| OccursAt(x, w, b);
    OccursAtIff(s, x, a);
    OccursAtIff(x, w, b);
    var piece := s[a + b..a + b + |w|];
    forall i | 0 <= i < |w|
      ensures piece[i] == w[i]
    {
      assert piece[i] == s[a..a + |x|][b + i];
    }
    ContainsAt(s, w, a + b);
  }

  /** Lower-casing preserves an occurrence of an already lower-case word. */
  lemma ContainsLower(s: string, w: string)
    requires Contains(s, w) && Lower(w) == w
    ensures Contains(Lower(s), w)
  {
    ContainsIff(s, w);
    var k: nat :| OccursAt(s, w, k);
    OccursAtIff(s, w, k);
    LowerSlice(s, k, k + |w|);
    ContainsAt(Lower(s), w, k);
  }

  /** Every character of `s` is whitespace. */
  predicate AllWhitespace(s: string)
  {
    forall i :: 0 <= i < |s| ==> IsWhitespace(s[i])
  }

  /** The end of the whitespace run that starts at index `i`. */
  function SpaceRunEnd(s: string, i: nat): (j: nat)
    requires i <= |s|
    ensures i <= j <= |s|
    ensures forall q :: i <= q < j ==> IsWhitespace(s[q])
    ensures j == |s| || !IsWhitespace(s[j])
    decreases |s| - i
  {
    if i < |s| && IsWhitespace(s[i]) then SpaceRunEnd(s, i + 1) else i
  }

  /** The start of the whitespace run that ends at index `j`. */
  function SpaceRunStart(s: string, j: nat): (i: nat)
    requires j <= |s|
    ensures i <= j
    ensures forall q :: i <= q < j ==> IsWhitespace(s[q])
    ensures i == 0 || !IsWhitespace(s[i - 1])
  {
    if j > 0 && IsWhitespace(s[j - 1]) then SpaceRunStart(s, j - 1) else j
  }

  /** Strips leading whitespace: the result is a suffix of `s`. */
  function TrimStart(s: string): (r: string)
    ensures |r| <= |s| && r == s[|s| - |r|..]
    ensures AllWhitespace(s[..|s| - |r|])
    ensures r == [] || !IsWhitespace(r[0])
  {
    s[SpaceRunEnd(s, 0)..]
  }

  /** Strips trailing whitespace: the result is a prefix of `s`. */
  function TrimEnd(s: string): (r: string)
    ensures |r| <= |s| && r == s[..|r|]
    ensures AllWhitespace(s[|r|..])
    ensures r == [] || !IsWhitespace(r[|r| - 1])
  {
    s[..SpaceRunStart(s, |s|)]
  }

  /** JavaScript `s.trim()`. */
  function Trim(s: string): (r: string)
  {
    TrimEnd(TrimStart(s))
  }

  /** The trimmed string is a slice of `s` with only whitespace cut off on either side. */
  lemma TrimSlice(s: string) returns (a: nat)
    ensures a + |Trim(s)| <= |s| && Trim(s) == s[a..a + |Trim(s)|]
    ensures AllWhitespace(s[..a]) && AllWhitespace(s[a + |Trim(s)|..])
  {
    var t := TrimStart(s);
    var r := TrimEnd(t);
    a := |s| - |t|;
    assert s[a..a + |r|] == t[..|r|];
    assert s[a + |r|..] == t[|r|..];
  }

  /** The trimmed string neither begins nor ends with whitespace. */
  lemma TrimEnds(s: string)
    ensures Trim(s) == [] || (!IsWhitespace(Trim(s)[0]) && !IsWhitespace(Trim(s)[|Trim(s)| - 1]))
  {
    var t := TrimStart(s);
    var r := TrimEnd(t);
    if r != [] {
      assert r[0] == t[0];
    }
  }

  /** `trim()` gives the empty string exactly when all of `s` is whitespace. */
  lemma TrimEmptyIff(s: string)
    ensures Trim(s) == [] <==> AllWhitespace(s)
  {
    var t := TrimStart(s);
    assert s == s[..|s| - |t|] + t;
    if Trim(s) == [] {
      assert AllWhitespace(t[|TrimEnd(t)|..]);
    } else {
      TrimEnds(s);
    }
  }

  /** Trimming twice is trimming once. */
  lemma TrimIdempotent(s: string)
    ensures Trim(Trim(s)) == Trim(s)
  {
    var r := Trim(s);
    TrimEnds(s);
    assert TrimStart(r) == r;
    assert TrimEnd(r) == r;
  }

  /** The decimal digit of a value below ten. */
  function Digit(d: nat): (c: char)
    requires d < 10
    ensures '0' <= c <= '9' && c as int - '0' as int == d
  {
    (d + '0' as int) as char
  }

  /** A number in a template string (`${n}`) for a natural number below 10^21: its
      shortest decimal form. Larger numbers are shown in exponential form by JavaScript. */
  function NatToString(n: nat): (r: string)
    ensures |r| > 0 && forall i :: 0 <= i < |r| ==> '0' <= r[i] <= '9'
    ensures r[0] == '0' ==> n == 0
  {
    if n < 10 then [Digit(n)] else NatToString(n / 10) + [Digit(n % 10)]
  }

  /** Reads a string of decimal digits back as a number. */
  function DecimalValue(s: string): nat
    requires forall i :: 0 <= i < |s| ==> '0' <= s[i] <= '9'
  {
    if s == [] then 0
    else DecimalValue(s[..|s| - 1]) * 10 + (s[|s| - 1] as int - '0' as int)
  }

  /** The decimal rendering reads back as the number it renders. */
  lemma {:induction false} DecimalRoundTrip(n: nat)
    ensures DecimalValue(NatToString(n)) == n
  {
    if n >= 10 {
      DecimalRoundTrip(n / 10);
      var s := NatToString(n);
      assert s[..|s| - 1] == NatToString(n / 10);
    }
  }

  /** Different numbers render differently. */
  lemma NatToStringInjective(a: nat, b: nat)
    requires NatToString(a) == NatToString(b)
    ensures a == b
  {
    DecimalRoundTrip(a);
    DecimalRoundTrip(b);
  }
  predicate IsDigitChar(c: char)
  {
    '0' <= c <= '9'
  }

  /** The length of the run of decimal digits that `s` starts with. */
  function LeadingDigits(s: string): (n: nat)
    ensures n <= |s| && forall i :: 0 <= i < n ==> IsDigitChar(s[i])
    ensures n < |s| ==> !IsDigitChar(s[n])
  {
    if s != [] && IsDigitChar(s[0]) then 1 + LeadingDigits(s[1..]) else 0
  }

  /** Digits followed by a non-digit: the run of digits is exactly the first part. */
  lemma {:induction false} LeadingDigitsAppend(a: string, x: string)
    requires forall i :: 0 <= i < |a| ==> IsDigitChar(a[i])
    requires x == [] || !IsDigitChar(x[0])
    ensures LeadingDigits(a + x) == |a|
  {
    if a != [] {
      assert (a + x)[1..] == a[1..] + x;
      LeadingDigitsAppend(a[1..], x);
    }
  }

  /** A common prefix cancels. */
  lemma PrefixCancel(x: string, u: string, y: string, v: string, z: string)
    requires x + u + y == x + v + z
    ensures u + y == v + z
  {
    assert u + y == (x + u + y)[|x|..];
    assert v + z == (x + v + z)[|x|..];
  }

  /** A run of digits followed by a text that does not start with a digit splits in
      only one way. */
  lemma DigitsSplit(u: string, y: string, v: string, z: string)
    requires forall i :: 0 <= i < |u| ==> IsDigitChar(u[i])
    requires forall i :: 0 <= i < |v| ==> IsDigitChar(v[i])
    requires y == [] || !IsDigitChar(y[0])
    requires z == [] || !IsDigitChar(z[0])
    requires u + y == v + z
    ensures u == v && y == z
  {
    LeadingDigitsAppend(u, y);
    LeadingDigitsAppend(v, z);
    assert u == (u + y)[..|u|];
    assert v == (v + z)[..|v|];
    assert y == (u + y)[|u|..];
    assert z == (v + z)[|v|..];
  }

  /** A number rendered between a fixed text and a text that does not start with a
      digit can be read back: equal renderings come from equal numbers. */
  lemma NumberFieldCancel(x: string, a: nat, y: string, b: nat, z: string)
    requires y == [] || !IsDigitChar(y[0])
    requires z == [] || !IsDigitChar(z[0])
    requires x + NatToString(a) + y == x + NatToString(b) + z
    ensures a == b && y == z
  {
    PrefixCancel(x, NatToString(a), y, NatToString(b), z);
    DigitsSplit(NatToString(a), y, NatToString(b), z);
    NatToStringInjective(a, b);
  }

  lemma Regroup(p: string, m: string, v: string, z: string)
    ensures p + m + v + z == p + (m + v + z)
  {
    assert (p + m) + v == p + (m + v);
    assert (p + (m + v)) + z == p + ((m + v) + z);
  }

  /** Two numbers rendered in a fixed frame whose middle part starts with a character
      other than a digit can both be read back. */
  lemma TwoNumberFieldsCancel(x: string, a: nat, m: string, b: nat, z: string, a': nat, b': nat)
    requires |m| > 0 && !IsDigitChar(m[0])
    requires z == [] || !IsDigitChar(z[0])
    requires x + NatToString(a) + m + NatToString(b) + z == x + NatToString(a') + m + NatToString(b') + z
    ensures a == a' && b == b'
  {
    var y := m + NatToString(b) + z;
    var y' := m + NatToString(b') + z;
    Regroup(x + NatToString(a), m, NatToString(b), z);
    Regroup(x + NatToString(a'), m, NatToString(b'), z);
    assert y[0] == m[0] && y'[0] == m[0];
    NumberFieldCancel(x, a, y, a', y');
    NumberFieldCancel(m, b, z, b', z);
  }

}
