/** Character and string operations the touchpoint tool relies on from Python's `str`:
    `strip()`, the `<` order used by `list.sort()`, counting line breaks and `str(int)`. */
module Text {

  datatype Option<T> = None | Some(value: T)

  // ---------------------------------------------------------------------------
  // Whitespace and strip()
  // ---------------------------------------------------------------------------

  /** The characters Python's `str.strip()` removes when called without an argument. */
  predicate IsSpace(c: char) {
    ('\U{0009}' <= c <= '\U{000D}') || ('\U{001C}' <= c <= '\U{0020}')
    || c == '\U{0085}' || c == '\U{00A0}' || c == '\U{1680}'
    || ('\U{2000}' <= c <= '\U{200A}') || c == '\U{2028}' || c == '\U{2029}'
    || c == '\U{202F}' || c == '\U{205F}' || c == '\U{3000}'
  }

  ghost predicate AllSpace(s: string) {
    forall i :: 0 <= i < |s| ==> IsSpace(s[i])
  }

  /** A string that neither starts nor ends with whitespace. */
  ghost predicate Trimmed(s: string) {
    s == [] || (!IsSpace(s[0]) && !IsSpace(s[|s| - 1]))
  }

  /** Drops the leading whitespace. */
  function StripLeading(s: string): string {
    if |s| > 0 && IsSpace(s[0]) then StripLeading(s[1..]) else s
  }

  /** Drops the trailing whitespace. */
  function StripTrailing(s: string): string {
    if |s| > 0 && IsSpace(s[|s| - 1]) then StripTrailing(s[..|s| - 1]) else s
  }

  /** Python's `s.strip()`. */
  function Strip(s: string): string {
    StripTrailing(StripLeading(s))
  }

  /** What `StripLeading` removes is whitespace and what it keeps is a suffix of `s`. */
  lemma {:induction false} StripLeadingFacts(s: string)
    ensures var r := StripLeading(s);
            |r| <= |s| && r == s[|s| - |r|..] && AllSpace(s[..|s| - |r|])
            && (r == [] || !IsSpace(r[0]))
  {
    if |s| > 0 && IsSpace(s[0]) {
      var t := s[1..];
      StripLeadingFacts(t);
      var r := StripLeading(t);
      assert t[|t| - |r|..] == s[|s| - |r|..];
      assert s[..|s| - |r|] == [s[0]] + t[..|t| - |r|];
    }
  }

  /** What `StripTrailing` removes is whitespace and what it keeps is a prefix of `s`. */
  lemma {:induction false} StripTrailingFacts(s: string)
    ensures var r := StripTrailing(s);
            |r| <= |s| && r == s[..|r|] && AllSpace(s[|r|..])
            && (r == [] || !IsSpace(r[|r| - 1]))
  {
    if |s| > 0 && IsSpace(s[|s| - 1]) {
      var t := s[..|s| - 1];
      StripTrailingFacts(t);
      var r := StripTrailing(t);
      assert t[..|r|] == s[..|r|];
      assert s[|r|..] == t[|r|..] + [s[|s| - 1]];
    }
  }

  /** `s.strip()` neither starts nor ends with whitespace. */
  lemma StripTrimmed(s: string)
    ensures |Strip(s)| <= |s| && Trimmed(Strip(s))
  {
    StripLeadingFacts(s);
    StripTrailingFacts(StripLeading(s));
  }

  lemma {:induction false} StripLeadingOf(a: string, r: string)
    requires AllSpace(a) && (r == [] || !IsSpace(r[0]))
    ensures StripLeading(a + r) == r
  {
    if a != [] {
      assert (a + r)[1..] == a[1..] + r;
      StripLeadingOf(a[1..], r);
    }
  }

  lemma {:induction false} StripTrailingOf(r: string, b: string)
    requires AllSpace(b) && (r == [] || !IsSpace(r[|r| - 1]))
    ensures StripTrailing(r + b) == r
  {
    if b != [] {
      assert (r + b)[..|r + b| - 1] == r + b[..|b| - 1];
      StripTrailingOf(r, b[..|b| - 1]);
    }
  }

  /** `strip()` is characterised independently of how it is computed: whenever `s` is
      whitespace, then a trimmed `r`, then whitespace, `s.strip()` is exactly `r`. */
  lemma StripCharacterized(a: string, r: string, b: string)
    requires AllSpace(a) && AllSpace(b) && Trimmed(r)
    ensures Strip(a + r + b) == r
  {
    if r == [] {
      assert a + r + b == a + b;
      StripLeadingOf(a + b, []);
      assert a + b + [] == a + b;
    } else {
      assert a + r + b == a + (r + b);
      StripLeadingOf(a, r + b);
      StripTrailingOf(r, b);
    }
  }

  /** `s.strip()` is `s` with whitespace cut from both ends. */
  lemma StripIsSlice(s: string)
    ensures var k := |s| - |StripLeading(s)|;
            0 <= k && k + |Strip(s)| <= |s| && Strip(s) == s[k..k + |Strip(s)|]
            && AllSpace(s[..k]) && AllSpace(s[k + |Strip(s)|..])
  {
    StripLeadingFacts(s);
    StripTrailingFacts(StripLeading(s));
    var k := |s| - |StripLeading(s)|;
    var l := StripLeading(s);
    var r := Strip(s);
    assert l == s[k..];
    assert r == l[..|r|];
    assert l[|r|..] == s[k + |r|..];
  }

  lemma StripIdempotent(s: string)
    ensures Strip(Strip(s)) == Strip(s)
  {
    var r := Strip(s);
    StripTrimmed(s);
    assert [] + r + [] == r;
    StripCharacterized([], r, []);
  }

  // ---------------------------------------------------------------------------
  // Python's ordering of str
  // ---------------------------------------------------------------------------

  /** Python's `a < b` on strings: lexicographic by code point, a proper prefix first. */
  predicate Less(a: string, b: string) {
    |b| > 0 && (|a| == 0 || a[0] < b[0] || (a[0] == b[0] && Less(a[1..], b[1..])))
  }

  lemma {:induction false} LessIrreflexive(a: string)
    ensures !Less(a, a)
  {
    if |a| > 0 {
      LessIrreflexive(a[1..]);
    }
  }

  lemma {:induction false} LessTransitive(a: string, b: string, c: string)
    requires Less(a, b) && Less(b, c)
    ensures Less(a, c)
  {
    if |a| > 0 && a[0] == b[0] && b[0] == c[0] {
      LessTransitive(a[1..], b[1..], c[1..]);
    }
  }

  lemma {:induction false} LessTotal(a: string, b: string)
    requires a != b
    ensures Less(a, b) || Less(b, a)
  {
    if |a| > 0 && |b| > 0 && a[0] == b[0] {
      assert a == [a[0]] + a[1..] && b == [b[0]] + b[1..];
      LessTotal(a[1..], b[1..]);
    }
  }

  lemma LessAsymmetric(a: string, b: string)
    requires Less(a, b)
    ensures !Less(b, a)
  {
    if Less(b, a) {
      LessTransitive(a, b, a);
      LessIrreflexive(a);
    }
  }

  // ---------------------------------------------------------------------------
  // Line breaks
  // ---------------------------------------------------------------------------

  /** The number of '\n' characters among the first `n` characters of `s`. */
  function NewlinesBefore(s: string, n: nat): (r: nat)
    requires n <= |s|
    ensures r <= n
  {
    if n == 0 then 0 else NewlinesBefore(s, n - 1) + (if s[n - 1] == '\n' then 1 else 0)
  }

  /** Counting further never lowers the count; it rises exactly when a '\n' is passed. */
  lemma {:induction false} NewlinesBetween(s: string, i: nat, j: nat)
    requires i <= j <= |s|
    decreases j
    ensures NewlinesBefore(s, i) <= NewlinesBefore(s, j)
    ensures NewlinesBefore(s, i) == NewlinesBefore(s, j)
            <==> forall k :: i <= k < j ==> s[k] != '\n'
  {
    if i < j {
      NewlinesBetween(s, i, j - 1);
    }
  }

  // ---------------------------------------------------------------------------
  // str(n) for a non-negative integer
  // ---------------------------------------------------------------------------

  predicate IsDigit(c: char) {
    '0' <= c <= '9'
  }

  function DigitChar(d: nat): (c: char)
    requires d < 10
    ensures IsDigit(c) && c as int - '0' as int == d
  {
    ('0' as int + d) as char
  }

  /** Python's `str(n)`: decimal digits, no sign, no leading zero. */
  function Decimal(n: nat): (r: string)
    ensures |r| > 0 && forall i :: 0 <= i < |r| ==> IsDigit(r[i])
    ensures |r| > 1 ==> r[0] != '0'
  {
    if n < 10 then [DigitChar(n)] else Decimal(n / 10) + [DigitChar(n % 10)]
  }

  /** The value of a string of decimal digits. */
  function DecimalValue(s: string): nat
    requires forall i :: 0 <= i < |s| ==> IsDigit(s[i])
  {
    if s == [] then 0
    else
      assert IsDigit(s[|s| - 1]);
      DecimalValue(s[..|s| - 1]) * 10 + (s[|s| - 1] as int - '0' as int)
  }

  /** Reading back the digits of `str(n)` gives `n`. */
  lemma {:induction false} DecimalRoundTrip(n: nat)
    ensures DecimalValue(Decimal(n)) == n
  {
    if n >= 10 {
      var r := Decimal(n);
      assert r[..|r| - 1] == Decimal(n / 10);
      DecimalRoundTrip(n / 10);
    }
  }
}
