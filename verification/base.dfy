/** Positional digit strings in bases 2 to 36 and the conversion between two
    bases, as digits -> natural number -> digits. This is the model of the
    `BaseConvert(s, from, to)` helper the entry identifiers are built with:
    magnitude is preserved exactly, input digits may be either case, output
    digits are lower-case with no leading zero. */
module Base {
  import opened Results

  type Radix = b: nat | 2 <= b <= 36 witness 2

  /** The value of a digit character in either case, or -1 for a non-digit. */
  function DigitValue(c: char): (v: int)
    ensures -1 <= v < 36
    ensures v == 0 <==> c == '0'
  {
    if '0' <= c <= '9' then c as int - '0' as int
    else if 'a' <= c <= 'z' then c as int - 'a' as int + 10
    else if 'A' <= c <= 'Z' then c as int - 'A' as int + 10
    else -1
  }

  predicate IsLowerDigit(c: char) {
    '0' <= c <= '9' || 'a' <= c <= 'z'
  }

  /** The lower-case digit character of a value below 36. */
  function Digit(v: nat): (c: char)
    requires v < 36
    ensures DigitValue(c) == v
    ensures IsLowerDigit(c)
  {
    if v < 10 then ('0' as int + v) as char else ('a' as int + v - 10) as char
  }

  lemma DigitOfValue(c: char)
    requires IsLowerDigit(c)
    ensures 0 <= DigitValue(c) && Digit(DigitValue(c)) == c
  {
  }

  predicate AllDigits(s: string, base: Radix) {
    forall i :: 0 <= i < |s| ==> 0 <= DigitValue(s[i]) < base
  }

  /** A digit string the conversion accepts in base `base`. */
  predicate Valid(s: string, base: Radix) {
    |s| > 0 && AllDigits(s, base)
  }

  /** The only spelling the conversion ever produces: lower-case, no leading zero. */
  predicate Canonical(s: string, base: Radix) {
    && Valid(s, base)
    && (forall i :: 0 <= i < |s| ==> IsLowerDigit(s[i]))
    && (|s| == 1 || s[0] != '0')
  }

  /** The number a digit string denotes, most significant digit first. */
  function Value(s: string, base: Radix): nat
    requires AllDigits(s, base)
  {
    if |s| == 0 then 0
    else
      var p := s[..|s| - 1];
      assert AllDigits(p, base) by {
        forall i | 0 <= i < |p| ensures 0 <= DigitValue(p[i]) < base {
          assert p[i] == s[i];
        }
      }
      var v := Value(p, base);
      MulAtLeast(base, v);
      v * base + DigitValue(s[|s| - 1])
  }

  /** Appending a digit multiplies by the base and adds the digit. */
  lemma ValueSnoc(p: string, c: char, base: Radix)
    requires AllDigits(p, base) && 0 <= DigitValue(c) < base
    ensures AllDigits(p + [c], base)
    ensures Value(p + [c], base) == Value(p, base) * base + DigitValue(c)
  {
    assert (p + [c])[..|p|] == p;
  }

  /** The canonical digit string of `n`. */
  function Format(n: nat, base: Radix): string
    decreases n
  {
    if n < base then [Digit(n)]
    else
      QuotientPositive(n, base);
      Format(n / base, base) + [Digit(n % base)]
  }

  lemma MulDistrib(a: int, k: int, b: int)
    ensures (a + k) * b == a * b + k * b
  {
  }

  lemma MulAtLeast(k: int, b: int)
    requires k >= 1 && b >= 0
    ensures k * b >= b
  {
    assert k * b == (k - 1) * b + b;
    assert (k - 1) * b >= 0;
  }

  /** Euclidean division undoes `q * b + d` for a digit `d`. */
  lemma DivModOfSum(q: nat, b: nat, d: nat)
    requires 0 <= d < b
    ensures (q * b + d) / b == q && (q * b + d) % b == d
  {
    var v := q * b + d;
    var q', d' := v / b, v % b;
    assert q' * b + d' == v;
    if q' > q {
      MulDistrib(q, q' - q, b);
      MulAtLeast(q' - q, b);
      assert false;
    } else if q' < q {
      MulDistrib(q', q - q', b);
      MulAtLeast(q - q', b);
      assert false;
    }
  }

  /** For `n >= base`, the quotient Format recurses on is positive and smaller. */
  lemma QuotientPositive(n: nat, base: Radix)
    requires n >= base
    ensures 1 <= n / base < n
    ensures 0 <= n % base < base
    ensures (n / base) * base + n % base == n
  {
    var q, d := n / base, n % base;
    assert q * base + d == n;
    assert q * base >= q * 2 by {
      MulDistrib(q, q, base - 2);
      assert q * (base - 2) >= 0;
    }
  }

  /** Format yields a canonical string, whose first digit is not zero for positive `n`. */
  lemma {:induction false} FormatCanonical(n: nat, base: Radix)
    ensures Canonical(Format(n, base), base)
    ensures n > 0 ==> Format(n, base)[0] != '0'
    decreases n
  {
    if n >= base {
      var q := n / base;
      QuotientPositive(n, base);
      FormatCanonical(q, base);
      var p := Format(q, base);
      var d := Digit(n % base);
      assert Format(n, base) == p + [d];
    }
  }

  /** Format yields a string denoting `n`. */
  lemma {:induction false} FormatValue(n: nat, base: Radix)
    ensures AllDigits(Format(n, base), base)
    ensures Value(Format(n, base), base) == n
    decreases n
  {
    FormatCanonical(n, base);
    if n < base {
      assert Format(n, base)[..0] == [];
    } else {
      var q, d := n / base, n % base;
      QuotientPositive(n, base);
      FormatCanonical(q, base);
      FormatValue(q, base);
      var p := Format(q, base);
      assert Format(n, base) == p + [Digit(d)];
      ValueSnoc(p, Digit(d), base);
    }
  }

  /** A valid string without a leading zero denotes a positive number. */
  lemma {:induction false} ValuePositive(s: string, base: Radix)
    requires Valid(s, base) && s[0] != '0'
    ensures Value(s, base) >= 1
  {
    if |s| > 1 {
      var p := s[..|s| - 1];
      ValuePositive(p, base);
      MulAtLeast(base, Value(p, base));
    } else {
      assert s[..0] == [];
    }
  }

  /** Formatting the value of a canonical string gives the string back. */
  lemma {:induction false} FormatOfValue(s: string, base: Radix)
    requires Canonical(s, base)
    ensures Format(Value(s, base), base) == s
  {
    var last := s[|s| - 1];
    DigitOfValue(last);
    if |s| == 1 {
      assert s[..0] == [];
    } else {
      var p := s[..|s| - 1];
      var d := DigitValue(last);
      assert p[0] == s[0];
      ValuePositive(p, base);
      FormatOfValue(p, base);
      var v := Value(s, base);
      DivModOfSum(Value(p, base), base, d);
      MulAtLeast(Value(p, base), base);
      assert v >= base;
      assert Format(v, base) == p + [last];
      assert s == p + [last];
    }
  }

  /** `BaseConvert(s, from, to)`: re-spells the number `s` denotes in base
      `from` as a canonical base-`to` string, or fails on a digit outside the
      `from` alphabet (or an empty string). */
  function BaseConvert(s: string, from: Radix, to: Radix): (r: Result<string>)
    ensures r.Ok? <==> Valid(s, from)
    ensures r.Ok? ==> Canonical(r.value, to) && Value(r.value, to) == Value(s, from)
    ensures r.Err? ==> r.error == InvalidDigits(s)
  {
    if Valid(s, from) then
      var n := Value(s, from);
      FormatCanonical(n, to);
      FormatValue(n, to);
      Ok(Format(n, to))
    else
      Err(InvalidDigits(s))
  }

  /** The canonical spelling of a number is unique: the conversion is fully
      determined by its contract. */
  lemma {:induction false} CanonicalUnique(s: string, t: string, base: Radix)
    requires Canonical(s, base) && Canonical(t, base)
    requires Value(s, base) == Value(t, base)
    ensures s == t
  {
    FormatOfValue(s, base);
    FormatOfValue(t, base);
  }

  /** Converting a canonical string to another base and back returns it. */
  lemma RoundTrip(s: string, from: Radix, to: Radix)
    requires Canonical(s, from)
    ensures BaseConvert(s, from, to).Ok?
    ensures BaseConvert(BaseConvert(s, from, to).value, to, from) == Ok(s)
  {
    var t := BaseConvert(s, from, to).value;
    CanonicalUnique(BaseConvert(t, to, from).value, s, from);
  }

  /** A string with a leading zero digit never survives a round trip: the
      way back yields its canonical spelling instead. */
  lemma LeadingZeroLost(s: string, from: Radix, to: Radix)
    requires Valid(s, from) && |s| >= 2 && s[0] == '0'
    ensures BaseConvert(s, from, to).Ok?
    ensures BaseConvert(BaseConvert(s, from, to).value, to, from) != Ok(s)
  {
  }
}
