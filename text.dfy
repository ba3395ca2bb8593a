/** Python string behaviour the core relies on: `str(n)` of a non-negative
    integer, the `:04d` zero padding of an f-string, `str.strip()` and the
    code-point lexicographic order that `sort_values` uses on text columns. */
module Text {

  // ---------------------------------------------------------------------
  // Decimal digits
  // ---------------------------------------------------------------------

  predicate IsDigit(c: char) {
    '0' <= c <= '9'
  }

  predicate AllDigits(s: string) {
    forall i | 0 <= i < |s| :: IsDigit(s[i])
  }

  function DigitChar(d: nat): (c: char)
    requires d < 10
    ensures IsDigit(c)
  {
    ('0' as int + d) as char
  }

  function DigitValue(c: char): (d: nat)
    requires IsDigit(c)
    ensures d < 10
  {
    c as int - '0' as int
  }

  /** The number a string of decimal digits denotes (leading zeros allowed). */
  function DigitsValue(s: string): nat
    requires AllDigits(s)
  {
    if s == [] then 0 else DigitsValue(s[..|s| - 1]) * 10 + DigitValue(s[|s| - 1])
  }

  /** `str(n)` for a non-negative integer: the shortest decimal spelling. */
  function Decimal(n: nat): (s: string)
    ensures |s| >= 1 && AllDigits(s)
    ensures s[0] == '0' ==> s == "0"
    ensures DigitsValue(s) == n
  {
    if n < 10 then [DigitChar(n)]
    else
      var s := Decimal(n / 10) + [DigitChar(n % 10)];
      assert s[..|s| - 1] == Decimal(n / 10);
      s
  }

  /** The `0` flag with a minimum width in a format specification such as
      `{serial:04d}`: zeros are added on the left up to `width` characters. */
  function ZeroPad(s: string, width: nat): string
    decreases width - |s|
  {
    if |s| >= width then s else ZeroPad("0" + s, width)
  }

  function Zeros(k: nat): (z: string)
    ensures |z| == k && forall i | 0 <= i < k :: z[i] == '0'
  {
    if k == 0 then [] else Zeros(k - 1) + "0"
  }

  /** Padding puts exactly as many zeros in front of `s` as it takes to
      reach `width` characters, and none when `s` is long enough. */
  lemma {:induction false} ZeroPadZeros(s: string, width: nat)
    ensures ZeroPad(s, width) == Zeros(if |s| >= width then 0 else width - |s|) + s
    decreases width - |s|
  {
    if |s| >= width {
      assert Zeros(0) + s == s;
    } else {
      ZeroPadZeros("0" + s, width);
      var k := width - |s|;
      assert Zeros(k - 1) + ("0" + s) == (Zeros(k - 1) + "0") + s;
    }
  }

  /** A leading zero does not change the number a digit string denotes. */
  lemma {:induction false} LeadingZeroValue(s: string)
    requires AllDigits(s)
    ensures AllDigits("0" + s) && DigitsValue("0" + s) == DigitsValue(s)
  {
    var t := "0" + s;
    assert AllDigits(t) by {
      forall i | 0 <= i < |t| ensures IsDigit(t[i]) {
        if i > 0 { assert t[i] == s[i - 1]; }
      }
    }
    if s != [] {
      var s' := s[..|s| - 1];
      assert t[..|t| - 1] == "0" + s';
      assert t[|t| - 1] == s[|s| - 1];
      LeadingZeroValue(s');
    } else {
      assert t[..|t| - 1] == [];
    }
  }

  lemma {:induction false} ZeroPadValue(s: string, width: nat)
    requires AllDigits(s)
    ensures AllDigits(ZeroPad(s, width)) && DigitsValue(ZeroPad(s, width)) == DigitsValue(s)
    decreases width - |s|
  {
    if |s| < width {
      LeadingZeroValue(s);
      ZeroPadValue("0" + s, width);
    }
  }

  /** Formatting a number with `:0<width>d` and reading the digits back
      gives the number again, whatever the width. */
  lemma PaddedDecimalValue(n: nat, width: nat)
    ensures AllDigits(ZeroPad(Decimal(n), width))
    ensures DigitsValue(ZeroPad(Decimal(n), width)) == n
    ensures |ZeroPad(Decimal(n), width)| == if |Decimal(n)| >= width then |Decimal(n)| else width
  {
    ZeroPadValue(Decimal(n), width);
    ZeroPadZeros(Decimal(n), width);
  }

  // ---------------------------------------------------------------------
  // str.strip()
  // ---------------------------------------------------------------------

  /** The characters Python's `str.isspace` accepts, which are the ones
      `str.strip()` removes when called without arguments. */
  predicate IsSpace(c: char) {
    var n := c as int;
    (9 <= n <= 13) || (28 <= n <= 32) || n == 0x85 || n == 0xA0 || n == 0x1680 ||
    (0x2000 <= n <= 0x200A) || n == 0x2028 || n == 0x2029 || n == 0x202F ||
    n == 0x205F || n == 0x3000
  }

  /** The index of the first non-whitespace character at or after `i`. */
  function SkipSpaces(s: string, i: nat): (j: nat)
    requires i <= |s|
    ensures i <= j <= |s|
    ensures forall k | i <= k < j :: IsSpace(s[k])
    ensures j < |s| ==> !IsSpace(s[j])
    decreases |s| - i
  {
    if i < |s| && IsSpace(s[i]) then SkipSpaces(s, i + 1) else i
  }

  /** The end of `s[lo..j]` once its trailing whitespace is dropped. */
  function SkipSpacesBack(s: string, lo: nat, j: nat): (e: nat)
    requires lo <= j <= |s|
    ensures lo <= e <= j
    ensures forall k | e <= k < j :: IsSpace(s[k])
    ensures e > lo ==> !IsSpace(s[e - 1])
  {
    if j > lo && IsSpace(s[j - 1]) then SkipSpacesBack(s, lo, j - 1) else j
  }

  /** `r` is the slice of `s` starting at `lo`, and everything of `s` on
      either side of it is whitespace. */
  predicate TrimmedAt(s: string, lo: int, r: string) {
    0 <= lo <= |s| - |r| && r == s[lo..lo + |r|] &&
    (forall i | 0 <= i < lo :: IsSpace(s[i])) &&
    (forall i | lo + |r| <= i < |s| :: IsSpace(s[i]))
  }

  /** `str.strip()`: the slice of `s` that neither starts nor ends with
      whitespace, everything cut off on either side being whitespace. */
  function Strip(s: string): (r: string)
    ensures r == [] || (!IsSpace(r[0]) && !IsSpace(r[|r| - 1]))
    ensures exists lo :: TrimmedAt(s, lo, r)
  {
    var lo := SkipSpaces(s, 0);
    var hi := SkipSpacesBack(s, lo, |s|);
    assert TrimmedAt(s, lo, s[lo..hi]);
    s[lo..hi]
  }

  /** Stripping twice is the same as stripping once. */
  lemma StripIdempotent(s: string)
    ensures Strip(Strip(s)) == Strip(s)
  {
    var r := Strip(s);
    assert SkipSpaces(r, 0) == 0;
    assert SkipSpacesBack(r, 0, |r|) == |r|;
    assert r[0..|r|] == r;
  }

  // ---------------------------------------------------------------------
  // Python's order on str
  // ---------------------------------------------------------------------

  /** `a <= b` on Python strings: code-point lexicographic order, a proper
      prefix coming first. */
  predicate StrLe(a: string, b: string)
  {
    if a == [] then true
    else if b == [] then false
    else if a[0] != b[0] then a[0] < b[0]
    else StrLe(a[1..], b[1..])
  }

  /** `a` is a prefix of `b`. */
  predicate IsPrefix(a: string, b: string) {
    |a| <= |b| && a == b[..|a|]
  }

  /** `a` and `b` agree before position `k`, where `a` has the smaller character. */
  predicate FirstLessAt(a: string, b: string, k: int) {
    0 <= k < |a| && k < |b| && a[..k] == b[..k] && a[k] < b[k]
  }

  /** `StrLe` is the usual lexicographic order: `a` is a prefix of `b`, or
      at the first position where they differ `a` has the smaller character. */
  lemma {:induction false} StrLeFirstDifference(a: string, b: string)
    ensures StrLe(a, b) <==> IsPrefix(a, b) || exists k :: FirstLessAt(a, b, k)
  {
    if a == [] {
      assert IsPrefix(a, b);
    } else if b != [] {
      if a[0] != b[0] {
        assert a[0] < b[0] ==> FirstLessAt(a, b, 0) by { assert a[..0] == b[..0]; }
        forall k | 0 < k <= |a| && k <= |b| ensures a[..k] != b[..k] {
          assert a[..k][0] == a[0] && b[..k][0] == b[0];
        }
      } else {
        StrLeFirstDifference(a[1..], b[1..]);
        ShiftPrefix(a, b);
        forall k | FirstLessAt(a[1..], b[1..], k) ensures FirstLessAt(a, b, k + 1) {
          ShiftFirstLess(a, b, k + 1);
        }
        forall k | FirstLessAt(a, b, k) ensures FirstLessAt(a[1..], b[1..], k - 1) {
          ShiftFirstLess(a, b, k);
        }
      }
    }
  }

  lemma ShiftPrefix(a: string, b: string)
    requires a != [] && b != [] && a[0] == b[0]
    ensures IsPrefix(a, b) <==> IsPrefix(a[1..], b[1..])
  {
    if IsPrefix(a[1..], b[1..]) {
      assert a == [a[0]] + a[1..] && b[..|a|] == [b[0]] + b[1..][..|a| - 1];
    }
    if IsPrefix(a, b) {
      assert a[1..] == b[..|a|][1..];
    }
  }

  lemma ShiftFirstLess(a: string, b: string, k: int)
    requires a != [] && b != [] && a[0] == b[0] && k >= 0
    ensures FirstLessAt(a, b, k) <==> k > 0 && FirstLessAt(a[1..], b[1..], k - 1)
  {
    if k > 0 && k < |a| && k < |b| {
      assert a[..k] == [a[0]] + a[1..][..k - 1] && b[..k] == [b[0]] + b[1..][..k - 1];
      assert a[1..][..k - 1] == a[..k][1..] && b[1..][..k - 1] == b[..k][1..];
      assert a[1..][k - 1] == a[k] && b[1..][k - 1] == b[k];
    }
  }

  lemma {:induction false} StrLeReflexive(a: string)
    ensures StrLe(a, a)
  {
    if a != [] { StrLeReflexive(a[1..]); }
  }

  lemma {:induction false} StrLeTotal(a: string, b: string)
    ensures StrLe(a, b) || StrLe(b, a)
  {
    if a != [] && b != [] && a[0] == b[0] { StrLeTotal(a[1..], b[1..]); }
  }

  lemma {:induction false} StrLeAntisymmetric(a: string, b: string)
    requires StrLe(a, b) && StrLe(b, a)
    ensures a == b
  {
    if a != [] && b != [] {
      StrLeAntisymmetric(a[1..], b[1..]);
      assert a == [a[0]] + a[1..] && b == [b[0]] + b[1..];
    }
  }

  lemma {:induction false} StrLeTransitive(a: string, b: string, c: string)
    requires StrLe(a, b) && StrLe(b, c)
    ensures StrLe(a, c)
  {
    if a != [] && b != [] && c != [] && a[0] == b[0] && b[0] == c[0] {
      StrLeTransitive(a[1..], b[1..], c[1..]);
    }
  }
}
