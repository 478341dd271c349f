/** Character classes of the Rust `regex` crate and the text helpers shared by
    the anchors: maximal runs of one class, decimal rendering and `i32` parsing. */
module Text {
  import opened Wrappers

  const I32Min: int := -0x8000_0000
  const I32Max: int := 0x7FFF_FFFF

  predicate IsI32(n: int) {
    I32Min <= n <= I32Max
  }

  /** ASCII digits (the model reads `\d` as these only). */
  predicate IsDigit(c: char) {
    '0' <= c <= '9'
  }

  /** `\s`: the Unicode White_Space characters. */
  predicate IsSpace(c: char) {
    c == ' ' || ('\t' <= c <= '\r') || c == '\U{85}' || c == '\U{A0}' || c == '\U{1680}'
    || ('\U{2000}' <= c <= '\U{200A}') || c == '\U{2028}' || c == '\U{2029}'
    || c == '\U{202F}' || c == '\U{205F}' || c == '\U{3000}'
  }

  /** The character classes whose maximal runs the anchors consume. */
  datatype Class =
    | Digit      // `\d`
    | NumChar    // `[\d\.]`
    | Space      // `\s`
    | NotNewline // `.` without the `s` flag
    | NotColon
  {
    predicate Has(c: char) {
      match this
      case Digit => IsDigit(c)
      case NumChar => IsDigit(c) || c == '.'
      case Space => IsSpace(c)
      case NotNewline => c != '\n'
      case NotColon => c != ':'
    }
  }

  predicate AllIn(s: string, k: Class) {
    forall j :: 0 <= j < |s| ==> k.Has(s[j])
  }

  /** Every character of s[a..b] is of class k. */
  predicate Run(s: string, a: nat, b: nat, k: Class)
    requires a <= b <= |s|
  {
    forall j :: a <= j < b ==> k.Has(s[j])
  }

  /** True when the text t occurs in s at position i. */
  predicate StartsAt(s: string, i: nat, t: string) {
    i + |t| <= |s| && forall k :: 0 <= k < |t| ==> s[i + k] == t[k]
  }


  /** The end of the maximal run of class k that starts at p. */
  function RunEnd(s: string, p: nat, k: Class): (q: nat)
    requires p <= |s|
    ensures p <= q <= |s|
    ensures forall j {:trigger k.Has(s[j])} :: p <= j < q ==> k.Has(s[j])
    ensures q == |s| || !k.Has(s[q])
    decreases |s| - p
  {
    if p == |s| || !k.Has(s[p]) then p else RunEnd(s, p + 1, k)
  }

  /** A text is what comes before position k, the one-character separator
      there and what comes after it. */
  lemma CutAt(s: string, k: nat, sep: string)
    requires k < |s| && |sep| == 1 && s[k] == sep[0]
    ensures s[..k] + sep + s[k + 1..] == s
  {
    assert s[k..] == sep + s[k + 1..];
    assert s == s[..k] + s[k..];
  }

  /** The characters RunEnd passes over are all of class k. */
  lemma RunEndIsRun(s: string, p: nat, k: Class)
    requires p <= |s|
    ensures Run(s, p, RunEnd(s, p, k), k)
  {
  }

  /** A run of class k from p to q that is not followed by class k is the maximal one. */
  lemma {:induction false} RunEndExact(s: string, p: nat, q: nat, k: Class)
    requires p <= q <= |s| && Run(s, p, q, k)
    requires q == |s| || !k.Has(s[q])
    ensures RunEnd(s, p, k) == q
    decreases q - p
  {
    if p < q {
      RunEndExact(s, p + 1, q, k);
    }
  }

  /** The maximal run reaches at least as far as any run of class k from p. */
  lemma {:induction false} RunEndBeyond(s: string, p: nat, q: nat, k: Class)
    requires p <= q <= |s| && Run(s, p, q, k)
    ensures q <= RunEnd(s, p, k)
    decreases q - p
  {
    if p < q {
      RunEndBeyond(s, p + 1, q, k);
    }
  }

  function DigitChar(d: nat): (c: char)
    requires d < 10
    ensures IsDigit(c) && c as int - '0' as int == d
  {
    ('0' as int + d) as char
  }

  /** Value of a string of ASCII digits. */
  function DigitsValue(s: string): (n: nat)
    requires AllIn(s, Digit)
  {
    if s == [] then 0 else DigitsValue(s[..|s| - 1]) * 10 + (s[|s| - 1] as int - '0' as int)
  }

  /** Decimal rendering of a natural number, as Rust's `Display` writes it. */
  function NatToString(n: nat): (s: string)
    ensures |s| > 0 && AllIn(s, Digit)
  {
    if n < 10 then [DigitChar(n)] else NatToString(n / 10) + [DigitChar(n % 10)]
  }

  /** Decimal rendering of an integer: a minus sign, then the digits of its magnitude. */
  function IntToString(n: int): (s: string)
    ensures n >= 0 ==> |s| > 0 && AllIn(s, Digit)
    ensures n < 0 ==> |s| > 1 && s[0] == '-' && AllIn(s[1..], Digit)
  {
    if n < 0 then "-" + NatToString(-n) else NatToString(n)
  }

  /** The value of a draw, rendered as Rust's `Display` writes an `i32`. */
  function IntText(v: Option<int>): (t: Option<string>)
    ensures t.None? <==> v.None?
  {
    match v
    case None => None
    case Some(n) => Some(IntToString(n))
  }

  lemma DigitsAreNumChars(t: string)
    requires AllIn(t, Digit)
    ensures AllIn(t, NumChar)
  {
  }

  lemma {:induction false} DigitsOfNat(n: nat)
    ensures DigitsValue(NatToString(n)) == n
  {
    var s := NatToString(n);
    if n >= 10 {
      DigitsOfNat(n / 10);
      assert s[..|s| - 1] == NatToString(n / 10);
    }
  }

  /** Rust's `str::parse::<i32>`: an optional `+` or `-`, at least one ASCII digit,
      and a value inside the `i32` range. */
  function ParseI32(s: string): (r: Option<int>)
    ensures r.Some? ==> IsI32(r.value)
    ensures r.Some? ==> |s| > 0
  {
    if |s| == 0 then None
    else
      var neg := s[0] == '-';
      var digits := if s[0] == '-' || s[0] == '+' then s[1..] else s;
      if |digits| == 0 || !AllIn(digits, Digit) then None
      else
        var m: int := DigitsValue(digits);
        var v := if neg then 0 - m else m;
        if IsI32(v) then Some(v) else None
  }

  /** Every `i32` survives rendering and parsing back. */
  lemma ParseRendered(n: int)
    requires IsI32(n)
    ensures ParseI32(IntToString(n)) == Some(n)
  {
    var s := IntToString(n);
    if n < 0 {
      DigitsOfNat(-n);
      assert s[1..] == NatToString(-n);
    } else {
      DigitsOfNat(n);
    }
  }

  /** A string with no digit in it never parses. */
  lemma NoDigitsNoParse(s: string)
    requires forall j :: 0 <= j < |s| ==> !IsDigit(s[j])
    ensures ParseI32(s).None?
  {
    if |s| > 0 {
      var digits := if s[0] == '-' || s[0] == '+' then s[1..] else s;
      if |digits| > 0 {
        assert !IsDigit(digits[0]);
      }
    }
  }

  /** Rust's `{:.2}` for a value held as a whole number of hundredths. */
  function Fixed2(n: int): (s: string)
    ensures |s| >= 4 && s[|s| - 3] == '.'
    ensures n >= 0 ==> AllIn(s, NumChar)
    ensures n < 0 ==> s[0] == '-'
  {
    var a := if n < 0 then -n else n;
    var sign := if n < 0 then "-" else "";
    sign + NatToString(a / 100) + "." + [DigitChar(a % 100 / 10), DigitChar(a % 10)]
  }

  /** Reads a `[-]digits.dd` text back as a number of hundredths. */
  function ParseHundredths(s: string): Option<int> {
    if |s| < 4 || s[|s| - 3] != '.' then None
    else
      var neg := s[0] == '-';
      var whole := if neg then s[1..|s| - 3] else s[..|s| - 3];
      var frac := s[|s| - 2..];
      if |whole| == 0 || !AllIn(whole, Digit) || !AllIn(frac, Digit) then None
      else
        var v := DigitsValue(whole) * 100 + DigitsValue(frac);
        Some(if neg then -v else v)
  }

  lemma TwoDigitsValue(a: nat)
    requires a < 100
    ensures DigitsValue([DigitChar(a / 10), DigitChar(a % 10)]) == a
  {
    var t := [DigitChar(a / 10), DigitChar(a % 10)];
    assert t[..1][..0] == [];
    assert DigitsValue(t[..1]) == a / 10;
  }

  /** ParseHundredths reads the sign, the whole part w and the two digits f. */
  lemma ParseParts(s: string, neg: bool, w: string, f: string, v: int)
    requires |w| > 0 && AllIn(w, Digit) && |f| == 2 && AllIn(f, Digit)
    requires |s| >= 4 && s[|s| - 3] == '.' && s[|s| - 2..] == f
    requires (s[0] == '-') == neg
    requires (if neg then s[1..|s| - 3] else s[..|s| - 3]) == w
    requires v == DigitsValue(w) * 100 + DigitsValue(f)
    ensures ParseHundredths(s) == Some(if neg then -v else v)
  {
  }

  /** Where the parts of a `{:.2}` text sit. */
  lemma Fixed2Parts(n: int)
    ensures var a := if n < 0 then -n else n;
      var s := Fixed2(n);
      var w := NatToString(a / 100);
      (s[0] == '-') == (n < 0)
      && (if n < 0 then s[1..|s| - 3] else s[..|s| - 3]) == w
      && s[|s| - 2..] == [DigitChar(a % 100 / 10), DigitChar(a % 10)]
  {
    var a := if n < 0 then -n else n;
    var sign := if n < 0 then "-" else "";
    var w := NatToString(a / 100);
    var s := Fixed2(n);
    assert s == sign + w + "." + [DigitChar(a % 100 / 10), DigitChar(a % 10)];
    if n < 0 {
      assert s[1..|s| - 3] == w;
    } else {
      assert s[..|s| - 3] == w;
      assert s[0] == w[0];
    }
  }

  /** Every number of hundredths survives `{:.2}` and reading back. */
  lemma ParseFixed2(n: int)
    ensures ParseHundredths(Fixed2(n)) == Some(n)
  {
    var a := if n < 0 then -n else n;
    var w := NatToString(a / 100);
    var f := [DigitChar(a % 100 / 10), DigitChar(a % 10)];
    DigitsOfNat(a / 100);
    TwoDigitsValue(a % 100);
    Fixed2Parts(n);
    assert AllIn(f, Digit);
    HundredsSplit(a, DigitsValue(w), DigitsValue(f));
    ParseParts(Fixed2(n), n < 0, w, f, a);
  }

  lemma HundredsSplit(a: nat, x: int, y: int)
    requires x == a / 100 && y == a % 100
    ensures x * 100 + y == a
  {
  }

  /** Rust's `Display` for an `f64` that is a whole number of hundredths: the
      shortest decimal form, with no fractional part for whole numbers. */
  function Shortest(n: int): (s: string)
    ensures |s| > 0
  {
    var a := if n < 0 then -n else n;
    var sign := if n < 0 then "-" else "";
    var frac := a % 100;
    sign + NatToString(a / 100)
    + (if frac == 0 then ""
       else if frac % 10 == 0 then "." + [DigitChar(frac / 10)]
       else "." + [DigitChar(frac / 10), DigitChar(frac % 10)])
  }

  /** Whole speeds lose their fraction, a trailing zero of the hundredths is
      not written, and the sign stays in front of the whole part. */
  lemma ShortestExamples()
    ensures Shortest(500) == "5" && Shortest(550) == "5.5" && Shortest(-25) == "-0.25"
  {
    assert NatToString(5) == "5" && NatToString(0) == "0";
  }

  /** `Display` writes the `{:.2}` text without its trailing zeros: the
      fraction loses a final 0, and a fraction of 00 goes with its dot. So
      the shortest text, padded back, reads as the same hundredths; it holds
      a dot exactly when the value is not whole, and a fraction it writes
      never ends in 0. */
  lemma ShortestTrimsFixed2(n: int)
    ensures var a := if n < 0 then -n else n;
      var pad := if a % 100 == 0 then ".00" else if a % 10 == 0 then "0" else "";
      Fixed2(n) == Shortest(n) + pad && ParseHundredths(Shortest(n) + pad) == Some(n)
    ensures '.' in Shortest(n) <==> n % 100 != 0
    ensures '.' in Shortest(n) ==> Shortest(n)[|Shortest(n)| - 1] != '0'
  {
    var a := if n < 0 then -n else n;
    var pad := if a % 100 == 0 then ".00" else if a % 10 == 0 then "0" else "";
    WholePartDotFree(n);
    if a % 100 == 0 {
      ShortestWhole(n);
    } else if a % 10 == 0 {
      ShortestTenths(n);
    } else {
      ShortestHundredths(n);
    }
    assert Shortest(n) + pad == Fixed2(n);
    ParseFixed2(n);
  }

  /** The sign and the whole part hold no dot. */
  lemma WholePartDotFree(n: int)
    ensures var a := if n < 0 then -n else n;
      '.' !in (if n < 0 then "-" else "") + NatToString(a / 100)
  {
    var a := if n < 0 then -n else n;
    var w := NatToString(a / 100);
    assert forall j :: 0 <= j < |w| ==> Digit.Has(w[j]);
  }

  /** The last digit of the hundredths is the last digit of the value, and
      a value is whole exactly when its magnitude is. */
  lemma FracArith(n: int)
    ensures var a := if n < 0 then -n else n;
      a % 100 % 10 == a % 10 && (a % 10 != 0 ==> a % 100 != 0) && (n % 100 == 0 <==> a % 100 == 0)
  {
    var a := if n < 0 then -n else n;
    var q, r := a / 100, a % 100;
    assert a == 10 * (10 * q) + r;
    LastDigitAfter(10 * q, r);
    if n < 0 && a % 100 == 0 {
      assert n == 100 * (-q);
    }
    if n < 0 && n % 100 == 0 {
      assert a == 100 * (-(n / 100));
    }
  }

  lemma LastDigitAfter(k: int, r: nat)
    ensures (10 * k + r) % 10 == r % 10
  {
  }

  lemma ShortestWhole(n: int)
    requires var a := if n < 0 then -n else n; a % 100 == 0
    requires var a := if n < 0 then -n else n; '.' !in (if n < 0 then "-" else "") + NatToString(a / 100)
    ensures Fixed2(n) == Shortest(n) + ".00" && '.' !in Shortest(n) && n % 100 == 0
  {
  }

  lemma ShortestTenths(n: int)
    requires var a := if n < 0 then -n else n; a % 100 != 0 && a % 10 == 0
    ensures Fixed2(n) == Shortest(n) + "0" && '.' in Shortest(n) && n % 100 != 0
    ensures Shortest(n)[|Shortest(n)| - 1] != '0'
  {
    var a := if n < 0 then -n else n;
    var P := (if n < 0 then "-" else "") + NatToString(a / 100);
    var d := DigitChar(a % 100 / 10);
    FracArith(n);
    assert DigitChar(a % 10) == '0';
    assert Shortest(n) == P + "." + [d];
    assert Fixed2(n) == P + "." + [d, '0'];
    assert (P + "." + [d]) + "0" == P + "." + [d, '0'];
    assert Shortest(n)[|P|] == '.';
    assert Shortest(n)[|Shortest(n)| - 1] == d;
  }

  lemma ShortestHundredths(n: int)
    requires var a := if n < 0 then -n else n; a % 10 != 0
    ensures Fixed2(n) == Shortest(n) && '.' in Shortest(n) && n % 100 != 0
    ensures Shortest(n)[|Shortest(n)| - 1] != '0'
  {
    var a := if n < 0 then -n else n;
    var P := (if n < 0 then "-" else "") + NatToString(a / 100);
    var d := DigitChar(a % 10);
    FracArith(n);
    assert Shortest(n) == P + "." + [DigitChar(a % 100 / 10), d];
    assert Shortest(n)[|P|] == '.';
    assert Shortest(n)[|Shortest(n)| - 1] == d;
  }

  /** Rust's `/` on integers, which truncates toward zero, for a positive divisor. */
  function TDiv(a: int, b: int): int
    requires b > 0
  {
    if a >= 0 then a / b else -((-a) / b)
  }

  /** Rust's `%` on integers: the remainder takes the sign of the dividend. */
  function TRem(a: int, b: int): (r: int)
    requires b > 0
    ensures a == b * TDiv(a, b) + r
    ensures a >= 0 ==> 0 <= r < b
    ensures a < 0 ==> -b < r <= 0
  {
    a - b * TDiv(a, b)
  }
}
