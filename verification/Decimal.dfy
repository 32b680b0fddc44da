/** Decimal printing as the program uses it: `strconv.Itoa` for integers of either sign, and fixed-width,
    zero-padded fields laid out with separators, as in a printed time. */
module Decimal {

  function Digit(d: nat): char
    requires d < 10
  {
    "0123456789"[d]
  }

  predicate IsDigit(c: char) {
    '0' <= c <= '9'
  }

  predicate AllDigits(s: string) {
    forall i :: 0 <= i < |s| ==> IsDigit(s[i])
  }

  lemma Assoc(a: string, b: string, c: string)
    ensures a + b + c == a + (b + c)
  {
  }

  // ----- Unbounded integers -----

  function Digits(n: nat): string {
    if n < 10 then [Digit(n)] else Digits(n / 10) + [Digit(n % 10)]
  }

  function Itoa(n: int): string {
    if n < 0 then "-" + Digits(-n) else Digits(n)
  }

  /** The number a digit string denotes: the inverse of printing. */
  function Value(s: string): nat
    requires AllDigits(s)
  {
    if s == [] then 0 else 10 * Value(s[..|s| - 1]) + (s[|s| - 1] as int - '0' as int)
  }

  lemma {:induction false} DigitsForm(n: nat)
    ensures Digits(n) != [] && AllDigits(Digits(n))
    ensures Digits(n)[0] == '0' ==> n == 0
  {
    if n >= 10 {
      DigitsForm(n / 10);
    }
  }

  lemma {:induction false} DigitsDenote(n: nat)
    ensures AllDigits(Digits(n)) && Value(Digits(n)) == n
  {
    DigitsForm(n);
    if n >= 10 {
      DigitsDenote(n / 10);
      assert Digits(n)[..|Digits(n)| - 1] == Digits(n / 10);
    }
  }

  lemma ItoaForm(n: int)
    ensures Itoa(n) != [] && (Itoa(n)[0] == '-' <==> n < 0)
  {
    DigitsForm(if n < 0 then -n else n);
  }

  /** Printing is injective: two integers of any sign print the same only if they are equal. */
  lemma ItoaInjective(m: int, n: int)
    requires Itoa(m) == Itoa(n)
    ensures m == n
  {
    ItoaForm(m);
    ItoaForm(n);
    DigitsDenote(if m < 0 then -m else m);
    DigitsDenote(if n < 0 then -n else n);
    if m < 0 {
      assert Itoa(m)[1..] == Digits(-m) && Itoa(n)[1..] == Digits(-n);
    }
  }

  /** Positions `i` to `j` of the text hold decimal digits that denote `n`. */
  predicate Reads(s: string, i: nat, j: nat, n: int) {
    i < j <= |s| && AllDigits(s[i..j]) && Value(s[i..j]) == n
  }

  /** The text is `n` in decimal: a minus sign if it is negative, and no leading zero. */
  predicate Denotes(s: string, n: int) {
    if n < 0 then |s| > 1 && s[0] == '-' && s[1] != '0' && Reads(s, 1, |s|, -n)
    else |s| > 0 && (s[0] == '0' ==> n == 0 && |s| == 1) && Reads(s, 0, |s|, n)
  }

  lemma {:induction false} NoLeadingZero(n: nat)
    ensures Digits(n) != [] && (Digits(n)[0] == '0' ==> n == 0 && |Digits(n)| == 1)
  {
    DigitsForm(n);
    if n < 10 {
      assert |Digits(n)| == 1;
    }
  }

  lemma ItoaDenotes(n: int)
    ensures Denotes(Itoa(n), n)
  {
    var m := if n < 0 then -n else n;
    DigitsDenote(m);
    NoLeadingZero(m);
    if n < 0 {
      assert Itoa(n)[1..|Itoa(n)|] == Digits(m);
    } else {
      assert Itoa(n)[0..|Itoa(n)|] == Digits(m);
    }
  }

  /** For example. */
  lemma ItoaExamples()
    ensures Itoa(0) == "0" && Itoa(7) == "7" && Itoa(1205) == "1205" && Itoa(-34) == "-34"
  {
    assert Digits(12) == Digits(1) + [Digit(2)] == "12";
    assert Digits(120) == Digits(12) + [Digit(0)] == "120";
    assert Digits(1205) == Digits(120) + [Digit(5)] == "1205";
    assert Digits(34) == Digits(3) + [Digit(4)] == "34";
  }

  function PowerOfTen(k: nat): nat {
    if k == 0 then 1 else 10 * PowerOfTen(k - 1)
  }

  function Zeros(k: nat): string {
    seq(k, i => '0')
  }

  lemma {:induction false} PowerOfTenPrints(k: nat)
    ensures PowerOfTen(k) >= 1 && Itoa(PowerOfTen(k)) == "1" + Zeros(k)
  {
    if k > 0 {
      PowerOfTenPrints(k - 1);
      assert Zeros(k) == Zeros(k - 1) + "0";
    }
  }

  // ----- Padded fields -----

  predicate Fits(n: nat, width: nat) {
    if width == 0 then n == 0 else Fits(n / 10, width - 1)
  }

  function Pad(n: nat, width: nat): (s: string)
    ensures |s| == width
  {
    if width == 0 then "" else Pad(n / 10, width - 1) + [Digit(n % 10)]
  }

  datatype Field = Field(value: nat, width: nat, separator: string)

  function Print(fields: seq<Field>): string {
    if fields == [] then ""
    else Pad(fields[0].value, fields[0].width) + fields[0].separator + Print(fields[1..])
  }

  predicate SameLayout(f: seq<Field>, g: seq<Field>) {
    && |f| == |g|
    && forall i :: 0 <= i < |f| ==> f[i].width == g[i].width && f[i].separator == g[i].separator
  }

  predicate AllFit(f: seq<Field>) {
    forall i :: 0 <= i < |f| ==> Fits(f[i].value, f[i].width)
  }

  lemma {:induction false} PadForm(n: nat, width: nat)
    ensures AllDigits(Pad(n, width))
  {
    if width > 0 {
      PadForm(n / 10, width - 1);
    }
  }

  /** A padded field denotes its number. */
  lemma {:induction false} PadDenotes(n: nat, width: nat)
    requires Fits(n, width)
    ensures AllDigits(Pad(n, width)) && Value(Pad(n, width)) == n
  {
    PadForm(n, width);
    if width > 0 {
      PadDenotes(n / 10, width - 1);
      assert Pad(n, width)[..width - 1] == Pad(n / 10, width - 1);
    }
  }

  lemma PadInjective(m: nat, n: nat, width: nat)
    requires Fits(m, width) && Fits(n, width) && Pad(m, width) == Pad(n, width)
    ensures m == n
  {
    PadDenotes(m, width);
    PadDenotes(n, width);
  }

  /** Fields of one layout form a prefix code: whatever text follows, they can be read off the front. */
  lemma {:induction false} PrintIsPrefixCode(f: seq<Field>, rest: string, g: seq<Field>, rest': string)
    requires SameLayout(f, g) && AllFit(f) && AllFit(g)
    requires Print(f) + rest == Print(g) + rest'
    ensures f == g && rest == rest'
  {
    if f == [] {
      assert rest == Print(f) + rest == Print(g) + rest' == rest';
    } else {
      var w, sep := f[0].width, f[0].separator;
      var p, q := Pad(f[0].value, w), Pad(g[0].value, w);
      var s, r := Print(f[1..]) + rest, Print(g[1..]) + rest';
      assert Print(f) + rest == p + (sep + s) && Print(g) + rest' == q + (sep + r);
      assert p == (p + (sep + s))[..w] == (q + (sep + r))[..w] == q;
      assert s == (p + (sep + s))[w + |sep|..] == (q + (sep + r))[w + |sep|..] == r;
      PadInjective(f[0].value, g[0].value, w);
      PrintIsPrefixCode(f[1..], rest, g[1..], rest');
      assert f == [f[0]] + f[1..] && g == [g[0]] + g[1..];
    }
  }
}
