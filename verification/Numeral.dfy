/** Numbers in bases 1 to 36: the reader that stops before it would overflow, and the writer
  * of the BASE fingerprint. */
module Numerals {

  const FUNGECELL_MAX := 0x7FFF_FFFF_FFFF_FFFF

  const DIGITS := "0123456789abcdefghijklmnopqrstuvwxyz"

  /** strchr over the digits: the terminating zero, and what is not found, come after them. */
  function DigitIndex(c: char): (d: nat)
    ensures d <= 36 && (d < 36 ==> DIGITS[d] == c)
  {
    if '0' <= c <= '9' then c as int - '0' as int
    else if 'a' <= c <= 'z' then c as int - 'a' as int + 10
    else 36
  }

  lemma DigitAt(d: nat)
    requires d < 36
    ensures DigitIndex(DIGITS[d]) == d
  {
  }

  /** A C string read up to its terminating zero. */
  function CharAt(s: string, i: nat): char
    requires i <= |s|
  {
    if i < |s| then s[i] else '\0'
  }

  predicate AllDigits(s: string, base: nat) {
    forall k | 0 <= k < |s| :: DigitIndex(s[k]) < base
  }

  /** The value of a string of digits. */
  function Number(s: string, base: nat): nat {
    if s == [] then 0 else Number(s[..|s| - 1], base) * base + DigitIndex(s[|s| - 1])
  }

  /** Prefixes have smaller values. */
  lemma {:induction false} PrefixIsSmaller(s: string, k: nat, base: nat)
    requires k <= |s| && base >= 1
    ensures Number(s[..k], base) <= Number(s, base)
  {
    if k == |s| {
      assert s[..k] == s;
    } else {
      var t := s[..|s| - 1];
      PrefixIsSmaller(t, k, base);
      assert t[..k] == s[..k];
      AtLeast(Number(t, base), base);
    }
  }

  lemma AtLeast(n: nat, base: nat)
    requires base >= 1
    ensures n <= n * base
  {
    if n > 0 { assert n * base >= n * 1; }
  }

  lemma NumberStep(s: string, i: nat, base: nat)
    requires i < |s|
    ensures Number(s[..i + 1], base) == Number(s[..i], base) * base + DigitIndex(s[i])
  {
    assert s[..i + 1][..i] == s[..i];
  }

  /** The guard before the multiplication: above the quotient, any digit would overflow, and
    * up to it the product does not. */
  lemma Guard(n: nat, base: nat)
    requires base >= 1
    ensures n > FUNGECELL_MAX / base <==> n * base > FUNGECELL_MAX
  {
    var q, r := FUNGECELL_MAX / base, FUNGECELL_MAX % base;
    assert FUNGECELL_MAX == q * base + r;
    if n > q {
      assert n * base >= (q + 1) * base == q * base + base;
    } else {
      assert n * base <= q * base;
    }
  }

  /** parse_int: the longest prefix, of at most length + 1 characters, that is a number in the
    * base and fits a cell. */
  method ParseInt(s: string, base: nat, length: nat) returns (value: nat, i: nat)
    requires 1 <= base <= 36
    ensures i <= |s| && i <= length + 1
    ensures AllDigits(s[..i], base) && value == Number(s[..i], base) <= FUNGECELL_MAX
    ensures forall k | i < k <= |s| && k <= length + 1 ::
      !(AllDigits(s[..k], base) && Number(s[..k], base) <= FUNGECELL_MAX)
  {
    var result: nat := 0;
    i := 0;
    while i <= length
      invariant i <= |s| && i <= length + 1
      invariant AllDigits(s[..i], base) && result == Number(s[..i], base) <= FUNGECELL_MAX
    {
      Guard(result, base);
      if result > FUNGECELL_MAX / base {
        TooLong(s, i, base);
        break;
      }
      var d := DigitIndex(CharAt(s, i));
      if d >= base {
        NotADigit(s, i, base);
        break;
      }
      NumberStep(s, i, base);
      if result * base > FUNGECELL_MAX - d {
        TooLong(s, i, base);
        break;
      }
      result := result * base + d;
      i := i + 1;
    }
    value := result;
  }

  lemma TooLong(s: string, i: nat, base: nat)
    requires i <= |s| && base >= 1
    requires i < |s| ==> Number(s[..i], base) * base + DigitIndex(s[i]) > FUNGECELL_MAX
    ensures forall k | i < k <= |s| :: Number(s[..k], base) > FUNGECELL_MAX
  {
    forall k | i < k <= |s|
      ensures Number(s[..k], base) > FUNGECELL_MAX
    {
      NumberStep(s, i, base);
      PrefixIsSmaller(s[..k], i + 1, base);
      assert s[..k][..i + 1] == s[..i + 1];
    }
  }

  lemma NotADigit(s: string, i: nat, base: nat)
    requires i <= |s| && base <= 36 && DigitIndex(CharAt(s, i)) >= base
    ensures forall k | i < k <= |s| :: !AllDigits(s[..k], base)
  {
    forall k | i < k <= |s|
      ensures !AllDigits(s[..k], base)
    {
      assert s[..k][i] == s[i];
    }
  }

  // ----- writing

  /** The digits of n, without leading zeros; none for zero. */
  function DigitsOf(n: nat, base: nat): string
    requires 2 <= base <= 36
    decreases n
  {
    if n == 0 then ""
    else
      Shrinks(n, base);
      DigitsOf(n / base, base) + [DIGITS[n % base]]
  }

  lemma Shrinks(n: nat, base: nat)
    requires n > 0 && base >= 2
    ensures 0 <= n / base < n && 0 <= n % base < base && n / base * base + n % base == n
  {
    var q := n / base;
    assert n == q * base + n % base;
    if q >= 1 {
      assert q * base >= q * 2;
    }
  }

  function Zeros(n: nat): (z: string)
    ensures |z| == n && forall k | 0 <= k < n :: z[k] == '0'
  {
    seq(n, _ => '0')
  }

  /** What BASE's N prints. Zero comes out without the space after it. */
  function Printed(n: nat, base: nat): string
    requires 1 <= base <= 36
  {
    if base == 1 then Zeros(n) + " " else if n == 0 then "0" else DigitsOf(n, base) + " "
  }

  function Reversed(s: string): (r: string)
    ensures |r| == |s|
  {
    if s == [] then [] else Reversed(s[1..]) + [s[0]]
  }

  /** finger_BASE_output_base: refused, with the IP reversed, for a base out of range or a
    * negative number. The digits are made last first and printed backwards. */
  method OutputBase(base: int, val: int) returns (reverse: bool, out: string)
    ensures reverse <==> base < 1 || base > 36 || val < 0
    ensures out == if reverse then "" else Printed(val, base)
  {
    reverse, out := false, "";
    if base < 1 || base > 36 || val < 0 { return true, ""; }
    var v: nat := val;
    if base == 1 {
      while v > 0
        invariant |out| == val - v && forall k | 0 <= k < |out| :: out[k] == '0'
      {
        out, v := out + "0", v - 1;
      }
      out := out + " ";
      assert out == Zeros(val) + " ";
    } else if v == 0 {
      out := "0";
    } else {
      var result := "";
      while v > 0
        invariant DigitsOf(v, base) + Reversed(result) == DigitsOf(val, base)
        decreases v
      {
        Shrinks(v, base);
        DigitMoves(v, base, result);
        result := result + [DIGITS[v % base]];
        v := v / base;
      }
      assert DigitsOf(0, base) + Reversed(result) == Reversed(result);
      var i: nat := |result|;
      assert result[i..] == "";
      while i > 0
        invariant i <= |result| && out == Reversed(result[i..])
      {
        i := i - 1;
        assert result[i..][1..] == result[i + 1..];
        out := out + [result[i]];
      }
      assert result[0..] == result;
      out := out + " ";
    }
  }

  lemma DigitMoves(v: nat, base: nat, result: string)
    requires v > 0 && 2 <= base <= 36
    ensures 0 <= v % base < base && v / base >= 0
    ensures DigitsOf(v, base) + Reversed(result) == DigitsOf(v / base, base) + Reversed(result + [DIGITS[v % base]])
  {
    Shrinks(v, base);
    ReversedAppend(result, DIGITS[v % base]);
  }

  lemma {:induction false} ReversedAppend(s: string, c: char)
    ensures Reversed(s + [c]) == [c] + Reversed(s)
  {
    if s == [] {
      assert s + [c] == [c];
    } else {
      ReversedAppend(s[1..], c);
      assert (s + [c])[1..] == s[1..] + [c];
    }
  }

  /** The digits of C: ten decimal ones, then the letters. */
  lemma DigitsInOrder(d: nat)
    requires d < 36
    ensures DIGITS[d] as int == (if d < 10 then '0' as int + d else 'a' as int + d - 10)
    ensures DigitIndex(DIGITS[d]) == d && DigitIndex(' ') == 36
  {
    DigitAt(d);
  }

  /** The form of what N prints: in base 1 as many zeros as the number says, and else the
    * digits without leading zeros, both with a space behind; but for zero, which comes out
    * without one in any base but 1. */
  lemma {:induction false} PrintedForm(n: nat, base: nat)
    requires 1 <= base <= 36
    ensures var p := Printed(n, base);
      && (base == 1 ==> |p| == n + 1 && p[n] == ' ' && forall k | 0 <= k < n :: p[k] == '0')
      && (base >= 2 && n == 0 ==> p == "0")
      && (base >= 2 && n > 0 ==> |p| >= 2 && p[|p| - 1] == ' ' && p[0] != '0' && ' ' !in p[..|p| - 1])
  {
    if base >= 2 && n > 0 {
      NoLeadingZero(n, base);
      NumberOfDigits(n, base);
      var t := DigitsOf(n, base);
      assert Printed(n, base)[..|t|] == t;
      forall k | 0 <= k < |t|
        ensures t[k] != ' '
      {
        assert DigitIndex(t[k]) < base;
      }
    }
  }

  lemma {:induction false} NoLeadingZero(n: nat, base: nat)
    requires 2 <= base <= 36 && n > 0
    ensures DigitsOf(n, base) != "" && DigitsOf(n, base)[0] != '0'
    decreases n
  {
    Shrinks(n, base);
    if n / base > 0 {
      NoLeadingZero(n / base, base);
    } else {
      DigitsInOrder(n % base);
      assert DigitsOf(n, base) == [DIGITS[n % base]];
    }
  }

  // ----- reading back

  lemma NumberAppended(s: string, c: char, base: nat)
    ensures Number(s + [c], base) == Number(s, base) * base + DigitIndex(c)
    ensures AllDigits(s, base) && DigitIndex(c) < base ==> AllDigits(s + [c], base)
  {
    assert (s + [c])[..|s|] == s;
  }

  lemma {:induction false} NumberOfDigits(n: nat, base: nat)
    requires 2 <= base <= 36
    ensures AllDigits(DigitsOf(n, base), base) && Number(DigitsOf(n, base), base) == n
    decreases n
  {
    hide AllDigits, Number, DigitIndex;
    if n == 0 {
      EmptyNumber(base);
    } else {
      Shrinks(n, base);
      NumberOfDigits(n / base, base);
      DigitAt(n % base);
      NumberAppended(DigitsOf(n / base, base), DIGITS[n % base], base);
    }
  }

  lemma EmptyNumber(base: nat)
    ensures AllDigits("", base) && Number("", base) == 0
  {
  }

  lemma {:induction false} ReadsZeros(s: string)
    requires AllDigits(s, 1)
    ensures Number(s, 1) == 0
  {
    if s != [] {
      ReadsZeros(s[..|s| - 1]);
    }
  }

  /** The number stands at the front of what is printed, and no digit follows it. */
  lemma PrintedNumber(val: nat, base: nat) returns (n: nat)
    requires 2 <= base <= 36
    ensures var out := Printed(val, base);
      && n <= |out| && AllDigits(out[..n], base) && Number(out[..n], base) == val
      && (n < |out| ==> DigitIndex(out[n]) == 36)
  {
    hide AllDigits, Number;
    if val == 0 {
      n := 1;
      EmptyNumber(base);
      NumberAppended("", '0', base);
      assert "" + ['0'] == "0" == Printed(val, base)[..1];
    } else {
      NumberOfDigits(val, base);
      n := |DigitsOf(val, base)|;
      assert Printed(val, base)[..n] == DigitsOf(val, base);
    }
  }

  lemma DigitBefore(out: string, i: nat, n: nat, base: nat)
    requires n < i <= |out| && AllDigits(out[..i], base)
    ensures DigitIndex(out[n]) < base
  {
    assert out[..i][n] == out[n];
  }

  /** The reader gives back what N printed for any cell that is not negative, in every base
    * but 1; in base 1 it gives back zero only. */
  method PrintThenParse(val: nat, base: nat) returns (value: nat)
    requires 1 <= base <= 36 && val <= FUNGECELL_MAX
    ensures value == val <==> base >= 2 || val == 0
  {
    hide AllDigits, Number, DigitIndex, Printed;
    var reverse, out := OutputBase(base, val);
    var i;
    value, i := ParseInt(out, base, |out|);
    if base >= 2 {
      ghost var n := PrintedNumber(val, base);
      assert i >= n;
      if i > n {
        DigitBefore(out, i, n, base);
      }
    } else {
      ReadsZeros(out[..i]);
    }
  }
}
