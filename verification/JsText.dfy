/** Text as JavaScript writes and compares it: decimal numbers, padStart, trim and the string order. */
module JsText {

  datatype Option<+T> = None | Some(value: T)

  predicate IsDigit(c: char) {
    '0' <= c <= '9'
  }

  function DigitChar(d: nat): char
    requires d < 10
  {
    ('0' as int + d) as char
  }

  function DigitValue(c: char): nat
    requires IsDigit(c)
  {
    c as int - '0' as int
  }

  /** String(n) for a whole number. */
  function Decimal(n: nat): string {
    if n < 10 then [DigitChar(n)] else Decimal(n / 10) + [DigitChar(n % 10)]
  }

  function NumberText(n: int): string {
    if n < 0 then "-" + Decimal(-n) else Decimal(n)
  }

  function Zeros(n: nat): string {
    seq(n, _ => '0')
  }

  /** text.padStart(width, '0') */
  function PadStart(text: string, width: nat): string {
    if |text| >= width then text else Zeros(width - |text|) + text
  }

  /** Number(text) for a run of ASCII digits. */
  function DigitsValue(text: string): nat
    requires forall c <- text :: IsDigit(c)
  {
    if text == "" then 0
    else DigitsValue(text[..|text| - 1]) * 10 + DigitValue(text[|text| - 1])
  }

  /** The operator `<` on strings: the first differing code unit decides, a proper prefix is smaller. */
  predicate Less(a: string, b: string) {
    b != "" && (a == "" || a[0] < b[0] || (a[0] == b[0] && Less(a[1..], b[1..])))
  }

  /** White space and line terminators, as String.prototype.trim removes them. */
  predicate IsSpace(c: char) {
    var u := c as int;
    9 <= u <= 13 || u == 0x20 || u == 0xA0 || u == 0x1680 || 0x2000 <= u <= 0x200A
    || u == 0x2028 || u == 0x2029 || u == 0x202F || u == 0x205F || u == 0x3000 || u == 0xFEFF
  }

  function Trim(text: string): string
    decreases |text|
  {
    if text == "" then ""
    else if IsSpace(text[0]) then Trim(text[1..])
    else if IsSpace(text[|text| - 1]) then Trim(text[..|text| - 1])
    else text
  }

  // ---- Fixed-width digits -------------------------------------------------------------------

  function Pow10(w: nat): nat {
    if w == 0 then 1 else 10 * Pow10(w - 1)
  }

  /** The last w decimal digits of n. */
  function Digits(n: nat, w: nat): (r: string)
    ensures |r| == w
    ensures forall c <- r :: IsDigit(c)
  {
    if w == 0 then "" else Digits(n / 10, w - 1) + [DigitChar(n % 10)]
  }

  lemma {:induction false} ZeroDigits(w: nat)
    ensures Digits(0, w) == Zeros(w)
  {
    if w > 0 {
      ZeroDigits(w - 1);
      assert Zeros(w) == Zeros(w - 1) + ['0'];
    }
  }

  /** padStart of a number that fits writes exactly its digits. */
  lemma {:induction false} PadStartIsDigits(n: nat, w: nat)
    requires w > 0 && n < Pow10(w)
    ensures PadStart(Decimal(n), w) == Digits(n, w)
  {
    if n < 10 {
      ZeroDigits(w - 1);
      assert PadStart(Decimal(n), w) == Zeros(w - 1) + [DigitChar(n)];
    } else {
      assert Pow10(1) == 10;
      PadStartIsDigits(n / 10, w - 1);
      var front := Decimal(n / 10);
      assert PadStart(front + [DigitChar(n % 10)], w) == PadStart(front, w - 1) + [DigitChar(n % 10)];
    }
  }

  lemma {:induction false} DigitsValueInverse(n: nat, w: nat)
    requires n < Pow10(w)
    ensures DigitsValue(Digits(n, w)) == n
  {
    if w > 0 {
      DigitsValueInverse(n / 10, w - 1);
      assert Digits(n, w)[..w - 1] == Digits(n / 10, w - 1);
    }
  }

  // ---- String order ---------------------------------------------------------------------------

  /** Behind equal-length heads the order is that of the heads first, the tails next. */
  lemma {:induction false} LessSplit(a: string, b: string, c: string, d: string)
    requires |a| == |c|
    ensures Less(a + b, c + d) <==> Less(a, c) || (a == c && Less(b, d))
  {
    if a == "" {
      assert a + b == b && c + d == d;
    } else {
      LessSplit(a[1..], b, c[1..], d);
      assert (a + b)[1..] == a[1..] + b;
      assert (c + d)[1..] == c[1..] + d;
    }
  }

  lemma LessSingle(x: char, y: char)
    ensures Less([x], [y]) <==> x < y
  {
  }

  lemma {:induction false} LessIrreflexive(a: string)
    ensures !Less(a, a)
  {
    if a != "" { LessIrreflexive(a[1..]); }
  }

  /** On digits of one width string order is number order. */
  lemma {:induction false} DigitsOrder(m: nat, n: nat, w: nat)
    requires m < Pow10(w) && n < Pow10(w)
    ensures Less(Digits(m, w), Digits(n, w)) <==> m < n
    ensures Digits(m, w) == Digits(n, w) ==> m == n
  {
    DigitsValueInverse(m, w);
    DigitsValueInverse(n, w);
    if w > 0 {
      hide Less, DigitsValue;
      DigitsOrder(m / 10, n / 10, w - 1);
      LessSplit(Digits(m / 10, w - 1), [DigitChar(m % 10)], Digits(n / 10, w - 1), [DigitChar(n % 10)]);
      LessSingle(DigitChar(m % 10), DigitChar(n % 10));
    }
  }
}
