/**
 * The Python string and number primitives that the backend's rules are built
 * from: `str.isspace`/`str.strip`, `str.lower`, `in` on strings, decimal digits,
 * `int()` applied to a header value, and the leftmost-position scan that
 * `re.search` performs.
 */
module PyText {
  import opened Wrappers

  /** The characters `str.isspace()` accepts; `\s` in a str regex and
      `str.strip()` use the same set. */
  predicate IsSpace(c: char) {
    ('\t' <= c <= '\r') || ('\U{1c}' <= c <= '\U{1f}') || c == ' ' ||
    c == '\U{85}' || c == '\U{a0}' || c == '\U{1680}' ||
    ('\U{2000}' <= c <= '\U{200a}') || c == '\U{2028}' || c == '\U{2029}' ||
    c == '\U{202f}' || c == '\U{205f}' || c == '\U{3000}'
  }

  /** Lower-casing of one character (ASCII letters only). */
  function LowerChar(c: char): char {
    if 'A' <= c <= 'Z' then (c as int + 32) as char else c
  }

  /** `s.lower()`, and the case folding of a regex compiled with IGNORECASE. */
  function Lower(s: string): (r: string)
    ensures |r| == |s|
    ensures forall i :: 0 <= i < |s| ==> r[i] == LowerChar(s[i])
  {
    seq(|s|, i requires 0 <= i < |s| => LowerChar(s[i]))
  }

  /** `p` occurs in `s` starting at index `i`. */
  predicate OccursAt(s: string, p: string, i: nat) {
    i + |p| <= |s| && s[i..i + |p|] == p
  }

  /** Python's `p in s` on strings. */
  predicate Contains(s: string, p: string) {
    exists i :: 0 <= i <= |s| - |p| && OccursAt(s, p, i)
  }

  // ---------------------------------------------------------------------
  // str.strip()

  function StripLeft(s: string): (r: string)
    ensures |r| <= |s| && r == s[|s| - |r|..]
    ensures r == [] || !IsSpace(r[0])
    ensures forall k :: 0 <= k < |s| - |r| ==> IsSpace(s[k])
  {
    if |s| > 0 && IsSpace(s[0]) then StripLeft(s[1..]) else s
  }

  function StripRight(s: string): (r: string)
    ensures |r| <= |s| && r == s[..|r|]
    ensures r == [] || !IsSpace(r[|r| - 1])
    ensures forall k :: |r| <= k < |s| ==> IsSpace(s[k])
  {
    if |s| > 0 && IsSpace(s[|s| - 1]) then StripRight(s[..|s| - 1]) else s
  }

  /** `s.strip()`: the result is empty exactly when `s` is all whitespace, and
      otherwise neither starts nor ends with whitespace (StripSlice says
      which part of `s` it is). */
  function Strip(s: string): (r: string)
    ensures r == [] <==> forall k :: 0 <= k < |s| ==> IsSpace(s[k])
    ensures r == [] || (!IsSpace(r[0]) && !IsSpace(r[|r| - 1]))
    ensures |r| <= |s|
  {
    var t := StripLeft(s);
    var r := StripRight(t);
    assert r == [] ==> t == [];
    r
  }

  /** How many whitespace characters `s` starts with. */
  function LeadingSpace(s: string): (n: nat)
    ensures n <= |s| && forall k :: 0 <= k < n ==> IsSpace(s[k])
  {
    |s| - |StripLeft(s)|
  }

  /** The stripped string is the slice of `s` that starts after the leading
      whitespace, and only whitespace follows it. */
  lemma StripSlice(s: string)
    ensures LeadingSpace(s) + |Strip(s)| <= |s|
    ensures Strip(s) == s[LeadingSpace(s)..LeadingSpace(s) + |Strip(s)|]
    ensures forall k :: LeadingSpace(s) + |Strip(s)| <= k < |s| ==> IsSpace(s[k])
  {
    var t := StripLeft(s);
    var r := StripRight(t);
    PrefixOfSuffix(s, |s| - |t|, t, r);
  }

  /** A prefix `r` of the suffix `t` of `s` that starts at `a` is the slice
      of `s` from `a`; whitespace after `r` in `t` is whitespace in `s`. */
  lemma PrefixOfSuffix(s: string, a: nat, t: string, r: string)
    requires a <= |s| && t == s[a..]
    requires |r| <= |t| && r == t[..|r|]
    requires forall k :: |r| <= k < |t| ==> IsSpace(t[k])
    ensures a + |r| <= |s| && r == s[a..a + |r|]
    ensures forall k :: a + |r| <= k < |s| ==> IsSpace(s[k])
  {
    forall k | a + |r| <= k < |s| ensures IsSpace(s[k]) {
      assert s[k] == t[k - a];
    }
  }

  /** Any split of `s` into whitespace, a part that neither starts nor ends
      with whitespace, and whitespace strips to that part. */
  lemma StripMiddle(s: string, a: nat, b: nat)
    requires a <= b <= |s|
    requires forall k :: 0 <= k < a ==> IsSpace(s[k])
    requires forall k :: b <= k < |s| ==> IsSpace(s[k])
    requires a < b ==> !IsSpace(s[a]) && !IsSpace(s[b - 1])
    ensures Strip(s) == s[a..b]
  {
    if a == b {
      forall k | 0 <= k < |s| ensures IsSpace(s[k]) {
        if k >= a {
          assert b <= k;
        }
      }
    } else {
      StripInner(s, a, b);
    }
  }

  /** The case of StripMiddle where the middle part is not empty. */
  lemma StripInner(s: string, a: nat, b: nat)
    requires a < b <= |s|
    requires forall k :: 0 <= k < a ==> IsSpace(s[k])
    requires forall k :: b <= k < |s| ==> IsSpace(s[k])
    requires !IsSpace(s[a]) && !IsSpace(s[b - 1])
    ensures Strip(s) == s[a..b]
  {
    var r := Strip(s);
    StripSlice(s);
    assert LeadingSpace(s) == a;
    assert a + |r| == b;
  }

  lemma StripUnpadded(s: string)
    requires s != [] && !IsSpace(s[0]) && !IsSpace(s[|s| - 1])
    ensures Strip(s) == s
  {
  }

  // ---------------------------------------------------------------------
  // Decimal digits

  predicate IsDigit(c: char) {
    '0' <= c <= '9'
  }

  predicate AllDigits(s: string) {
    forall k :: 0 <= k < |s| ==> IsDigit(s[k])
  }

  /** The number a run of decimal digits denotes (leading zeros allowed). */
  function DigitsValue(ds: string): nat
    requires AllDigits(ds)
  {
    if ds == [] then 0 else DigitsValue(ds[..|ds| - 1]) * 10 + (ds[|ds| - 1] as int - '0' as int)
  }

  function DigitChar(d: nat): (c: char)
    requires d < 10
    ensures IsDigit(c) && c as int - '0' as int == d
  {
    ('0' as int + d) as char
  }

  /** The decimal form of `n` without leading zeros: how a server writes a
      byte count into a header. */
  function Decimal(n: nat): (r: string)
    ensures r != [] && AllDigits(r)
  {
    if n < 10 then [DigitChar(n)] else Decimal(n / 10) + [DigitChar(n % 10)]
  }

  lemma {:induction false} DecimalValue(n: nat)
    ensures DigitsValue(Decimal(n)) == n
  {
    if n >= 10 {
      var r := Decimal(n);
      assert r[..|r| - 1] == Decimal(n / 10);
      DecimalValue(n / 10);
    }
  }

  /** Underscore-separated digit groups, as `int()` accepts them: starts and
      ends with a digit and every underscore is followed by a digit. */
  predicate IsDigitGroups(t: string) {
    |t| > 0 && IsDigit(t[0]) && IsDigit(t[|t| - 1]) &&
    forall k :: 0 <= k < |t| ==> GroupCharAt(t, k)
  }

  /** `t[k]` is a digit, or an underscore with a digit after it. */
  predicate GroupCharAt(t: string, k: nat)
    requires k < |t|
  {
    IsDigit(t[k]) || (t[k] == '_' && k + 1 < |t| && IsDigit(t[k + 1]))
  }

  predicate DigitsOrUnderscores(t: string) {
    forall k :: 0 <= k < |t| ==> IsDigit(t[k]) || t[k] == '_'
  }

  function WithoutUnderscores(t: string): (r: string)
    requires DigitsOrUnderscores(t)
    ensures AllDigits(r)
    ensures AllDigits(t) ==> r == t
  {
    if t == [] then []
    else (if t[0] == '_' then [] else [t[0]]) + WithoutUnderscores(t[1..])
  }

  /** What `int()` reads after stripping: the text after an optional sign. */
  function UnsignedPart(t: string): string {
    if |t| > 0 && (t[0] == '+' || t[0] == '-') then t[1..] else t
  }

  /** The ASCII information separators U+001C to U+001F: `str.isspace()`
      accepts them, but `int()` neither skips nor reads them. */
  predicate IsInfoSeparator(c: char) {
    '\U{1c}' <= c <= '\U{1f}'
  }

  /** The whitespace `int()` skips around a number: ASCII space, tab and
      line breaks, and every non-ASCII character `str.isspace()` accepts. */
  predicate IsIntSpace(c: char) {
    IsSpace(c) && !IsInfoSeparator(c)
  }

  /** Everything of `s` outside `[a, b)` is whitespace `int()` skips. */
  predicate IntPadding(s: string, a: nat, b: nat) {
    forall k :: 0 <= k < |s| && !(a <= k < b) ==> IsIntSpace(s[k])
  }

  /** The most digits `int()` converts from a str, the default of
      `sys.int_info.default_max_str_digits` (CPython 3.11, and 3.7.14, 3.8.14,
      3.9.14 and 3.10.7 onward; older releases have no limit). Leading
      zeros count; underscores do not. */
  const MaxStrDigits: nat := 4300

  /** `int(s)` for a str: surrounding whitespace, an optional sign and
      underscore-separated decimal digits, at most `MaxStrDigits` of them;
      `None` is the ValueError. The part `str.strip()` keeps is the only
      candidate for the number, and what it drops must be whitespace that
      `int()` skips as well. */
  function ParseInt(s: string): Option<int> {
    var t := Strip(s);
    var body := UnsignedPart(t);
    if !IsDigitGroups(body) then None
    else if !IntPadding(s, LeadingSpace(s), LeadingSpace(s) + |t|) then None
    else
      assert DigitsOrUnderscores(body) by {
        forall k | 0 <= k < |body| ensures IsDigit(body[k]) || body[k] == '_' {
          assert GroupCharAt(body, k);
        }
      }
      var digits := WithoutUnderscores(body);
      if |digits| > MaxStrDigits then None
      else
        var magnitude: int := DigitsValue(digits);
        Some(if |t| > 0 && t[0] == '-' then -magnitude else magnitude)
  }

  /** A run of digits with whitespace that `int()` skips on either side
      reads as the run's value, unless it has more than `MaxStrDigits`
      digits, which is a ValueError. */
  lemma ParsePadded(w1: string, d: string, w2: string)
    requires forall k :: 0 <= k < |w1| ==> IsIntSpace(w1[k])
    requires forall k :: 0 <= k < |w2| ==> IsIntSpace(w2[k])
    requires d != [] && AllDigits(d)
    ensures ParseInt(w1 + d + w2) == if |d| <= MaxStrDigits then Some(DigitsValue(d)) else None
  {
    Padded(w1, d, w2);
    ParseDigitsAt(w1 + d + w2, |w1|, d);
  }

  /** `int()` of a string holding the digits `d` at `a`, with only
      whitespace `int()` skips around them. */
  lemma ParseDigitsAt(s: string, a: nat, d: string)
    requires d != [] && AllDigits(d)
    requires a + |d| <= |s| && s[a..a + |d|] == d
    requires IntPadding(s, a, a + |d|)
    ensures ParseInt(s) == if |d| <= MaxStrDigits then Some(DigitsValue(d)) else None
  {
    DigitsStrip(s, a, d);
    ParseStripped(s, d);
  }

  /** Digits at `a` with only whitespace `int()` skips around them are what
      `str.strip()` keeps. */
  lemma DigitsStrip(s: string, a: nat, d: string)
    requires d != [] && AllDigits(d)
    requires a + |d| <= |s| && s[a..a + |d|] == d
    requires IntPadding(s, a, a + |d|)
    ensures Strip(s) == d && IntPadding(s, LeadingSpace(s), LeadingSpace(s) + |d|)
  {
    var b := a + |d|;
    assert s[a] == s[a..b][0] == d[0];
    assert s[b - 1] == s[a..b][|d| - 1] == d[|d| - 1];
    StripAround(s, a, b);
  }

  /** `int()` of a string whose stripped part is a run of digits, with
      only whitespace `int()` skips around it. */
  lemma ParseStripped(s: string, d: string)
    requires d != [] && AllDigits(d) && Strip(s) == d
    requires IntPadding(s, LeadingSpace(s), LeadingSpace(s) + |d|)
    ensures ParseInt(s) == if |d| <= MaxStrDigits then Some(DigitsValue(d)) else None
  {
    assert d[0] != '+' && d[0] != '-';
    assert UnsignedPart(d) == d;
    assert IsDigitGroups(d) by {
      forall k | 0 <= k < |d| ensures GroupCharAt(d, k) {
        assert IsDigit(d[k]);
      }
    }
    assert DigitsOrUnderscores(d);
    assert WithoutUnderscores(d) == d;
  }

  /** The parts of `w1 + d + w2` lie where their lengths say. */
  lemma Padded(w1: string, d: string, w2: string)
    requires forall k :: 0 <= k < |w1| ==> IsIntSpace(w1[k])
    requires forall k :: 0 <= k < |w2| ==> IsIntSpace(w2[k])
    ensures var s := w1 + d + w2;
            s[|w1|..|w1| + |d|] == d &&
            IntPadding(s, |w1|, |w1| + |d|)
  {
    var s := w1 + d + w2;
    var b := |w1| + |d|;
    forall k | 0 <= k < |s| && !(|w1| <= k < b) ensures IsIntSpace(s[k]) {
      if k < |w1| {
        assert s[k] == w1[k];
      } else {
        assert s[k] == w2[k - b];
      }
    }
  }

  /** A part of `s` that neither starts nor ends with whitespace, with only
      whitespace `int()` skips around it, is what `str.strip()` keeps, and
      it starts after the leading whitespace. */
  lemma StripAround(s: string, a: nat, b: nat)
    requires a < b <= |s| && !IsSpace(s[a]) && !IsSpace(s[b - 1])
    requires IntPadding(s, a, b)
    ensures Strip(s) == s[a..b] && LeadingSpace(s) == a
  {
    StripMiddle(s, a, b);
    StripSlice(s);
  }

  /** A plain run of digits reads as its decimal value, unless it has more
      than `MaxStrDigits` digits. */
  lemma ParseDigits(s: string)
    requires s != [] && AllDigits(s)
    ensures ParseInt(s) == if |s| <= MaxStrDigits then Some(DigitsValue(s)) else None
  {
    assert s[0..|s|] == s;
    ParseDigitsAt(s, 0, s);
  }

  /** An information separator anywhere in `s` is a ValueError, although
      `str.strip()` would remove one at either end. */
  lemma ParseRejectsSeparator(s: string, i: nat)
    requires i < |s| && IsInfoSeparator(s[i])
    ensures ParseInt(s) == None
  {
    var t := Strip(s);
    var lead := LeadingSpace(s);
    var body := UnsignedPart(t);
    StripSlice(s);
    if lead <= i < lead + |t| {
      var j := i - lead;
      assert t[j] == s[i];
      if |body| < |t| {
        if j > 0 {
          assert body == t[1..];
          assert body[j - 1] == t[j];
          var k := j - 1;
          assert body[k] == s[i];
          assert !GroupCharAt(body, k);
        }
      } else {
        assert body[j] == t[j];
        assert !GroupCharAt(body, j);
      }
    }
  }

  /** An empty or all-whitespace value is a ValueError. */
  lemma ParseBlank(s: string)
    requires forall k :: 0 <= k < |s| ==> IsSpace(s[k])
    ensures ParseInt(s) == None
  {
  }

  function Pow10(k: nat): (p: nat)
    ensures p >= 1
  {
    if k == 0 then 1 else 10 * Pow10(k - 1)
  }

  lemma {:induction false} Pow10Add(a: nat, b: nat)
    decreases b
    ensures Pow10(a + b) == Pow10(a) * Pow10(b)
  {
    if b > 0 {
      Pow10Add(a, b - 1);
    }
  }

  lemma Pow10Square(k: nat, p: nat)
    requires Pow10(k) == p
    ensures Pow10(2 * k) == p * p
  {
    Pow10Add(k, k);
  }

  lemma {:induction false} Pow10Monotone(a: nat, b: nat)
    requires a <= b
    decreases b
    ensures Pow10(a) <= Pow10(b)
  {
    if a < b {
      Pow10Monotone(a, b - 1);
    }
  }

  /** The decimal form of `n` has at most `k` digits exactly when `n < 10^k`. */
  lemma {:induction false} DecimalLength(n: nat, k: nat)
    requires k >= 1
    decreases n
    ensures |Decimal(n)| <= k <==> n < Pow10(k)
  {
    if n >= 10 {
      assert |Decimal(n)| == |Decimal(n / 10)| + 1;
      if k == 1 {
        assert Pow10(1) == 10;
      } else {
        DecimalLength(n / 10, k - 1);
        assert Pow10(k) == 10 * Pow10(k - 1);
      }
    }
  }

  /** A byte count written in decimal reads back as itself, unless it is
      `10^MaxStrDigits` or more, which is a ValueError. */
  lemma ParseDecimal(n: nat)
    ensures ParseInt(Decimal(n)) == if n < Pow10(MaxStrDigits) then Some(n) else None
  {
    DecimalValue(n);
    ParseDigits(Decimal(n));
    DecimalLength(n, MaxStrDigits);
  }

  // ---------------------------------------------------------------------
  // Leftmost match

  /** The least position in [from, to) where `p` holds, as `re.search` tries
      start positions from left to right. */
  function FirstMatch(from: nat, to: nat, p: nat -> bool): (r: Option<nat>)
    decreases to - from
    ensures r.Some? ==> from <= r.value < to && p(r.value)
    ensures r.Some? ==> forall j :: from <= j < r.value ==> !p(j)
    ensures r.None? ==> forall j :: from <= j < to ==> !p(j)
  {
    if from >= to then None
    else if p(from) then Some(from)
    else FirstMatch(from + 1, to, p)
  }

  /** End of the run of digits that starts at `i`. */
  function DigitRunEnd(s: string, i: nat): (e: nat)
    requires i <= |s|
    decreases |s| - i
    ensures i <= e <= |s|
    ensures forall k :: i <= k < e ==> IsDigit(s[k])
    ensures e == |s| || !IsDigit(s[e])
  {
    if i < |s| && IsDigit(s[i]) then DigitRunEnd(s, i + 1) else i
  }
}
