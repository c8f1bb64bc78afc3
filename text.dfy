/** Decimal digit strings: how the script's `%d` / `str()` formatting writes a
    non-negative integer, how `strptime` reads a fixed-width digit field, and
    the zero-padded fields of `str(datetime)`. */
module Text {

  predicate IsDigit(c: char) { '0' <= c <= '9' }

  predicate AllDigits(s: string) { forall i :: 0 <= i < |s| ==> IsDigit(s[i]) }

  function DigitChar(d: nat): (c: char)
    requires d < 10
    ensures IsDigit(c)
  {
    ('0' as int + d) as char
  }

  function DigitValue(c: char): (d: nat)
    requires IsDigit(c)
    ensures d < 10 && DigitChar(d) == c
  {
    c as int - '0' as int
  }

  function Pow10(w: nat): (p: nat)
    ensures p >= 1
  {
    if w == 0 then 1 else 10 * Pow10(w - 1)
  }

  lemma Pow10Widths()
    ensures Pow10(2) == 100 && Pow10(4) == 10000
  {
  }

  /** The number a string of decimal digits denotes (leading zeros allowed). */
  function Value(s: string): (n: nat)
    requires AllDigits(s)
    ensures n < Pow10(|s|)
    decreases |s|
  {
    if s == [] then 0
    else
      var front := s[..|s| - 1];
      assert AllDigits(front) by {
        forall i | 0 <= i < |front| ensures IsDigit(front[i]) { assert front[i] == s[i]; }
      }
      Value(front) * 10 + DigitValue(s[|s| - 1])
  }

  lemma {:induction false} ValueSnoc(s: string, c: char)
    requires AllDigits(s) && IsDigit(c)
    ensures AllDigits(s + [c]) && Value(s + [c]) == Value(s) * 10 + DigitValue(c)
  {
    assert (s + [c])[..|s|] == s;
  }

  /** The shortest decimal text of `n`, as `%d` and `str()` write a non-negative int. */
  function Decimal(n: nat): (s: string)
    ensures 1 <= |s| && AllDigits(s) && Value(s) == n
    ensures s[0] == '0' ==> s == "0"
    decreases n
  {
    if n < 10 then
      var r := [DigitChar(n)];
      ValueSnoc([], DigitChar(n));
      r
    else
      var front := Decimal(n / 10);
      ValueSnoc(front, DigitChar(n % 10));
      front + [DigitChar(n % 10)]
  }

  /** `n` written with exactly `width` digits, zero-padded on the left (`%02d`, `%04d`). */
  function Padded(n: nat, width: nat): (s: string)
    requires n < Pow10(width)
    ensures |s| == width && AllDigits(s) && Value(s) == n
    decreases width
  {
    if width == 0 then ""
    else
      var front := Padded(n / 10, width - 1);
      ValueSnoc(front, DigitChar(n % 10));
      front + [DigitChar(n % 10)]
  }

  /** Appending digit `d` to the number `a` can be undone by `/ 10` and `% 10`. */
  lemma LastDigit(a: nat, d: nat)
    requires d < 10
    ensures (a * 10 + d) / 10 == a && (a * 10 + d) % 10 == d
  {
  }

  /** Re-padding the value of a digit field gives the field back. */
  lemma {:induction false} PaddedValue(s: string)
    requires AllDigits(s)
    ensures Padded(Value(s), |s|) == s
  {
    if s != [] {
      var front := s[..|s| - 1];
      assert AllDigits(front) by {
        forall i | 0 <= i < |front| ensures IsDigit(front[i]) { assert front[i] == s[i]; }
      }
      PaddedValue(front);
      LastDigit(Value(front), DigitValue(s[|s| - 1]));
      assert s == front + [s[|s| - 1]];
    }
  }
}
