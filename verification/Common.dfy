/** Optional values. */
module Options {
  datatype Option<+T> = None | Some(value: T)
}

/** Bytes, and the digits that they and characters are written with. */
module Bytes {

  type Byte = b: int | 0 <= b < 0x100

  predicate IsOctDigit(c: char) { '0' <= c <= '7' }

  predicate IsHexDigit(c: char) { '0' <= c <= '9' || 'a' <= c <= 'f' || 'A' <= c <= 'F' }

  function DigitValue(c: char): (v: nat)
    requires IsHexDigit(c)
    ensures v < 16 && (IsOctDigit(c) ==> v < 8)
  {
    if c <= '9' then c as int - '0' as int
    else if c <= 'F' then c as int - 'A' as int + 10
    else c as int - 'a' as int + 10
  }

  /** The number written by the first `n` digits of `t`. */
  function Number(t: string, n: nat, base: nat): nat
    requires n <= |t| && forall i :: 0 <= i < n ==> IsHexDigit(t[i])
  {
    if n == 0 then 0 else Number(t, n - 1, base) * base + DigitValue(t[n - 1])
  }

  /** Upper case. */
  function HexDigit(n: nat): (c: char)
    requires n < 16
    ensures IsHexDigit(c) && DigitValue(c) == n
  {
    if n < 10 then ('0' as int + n) as char else ('A' as int + n - 10) as char
  }

  /** Hexadecimal, upper case, without leading zeros. */
  function FormatHexInt(value: nat): string {
    if value < 16 then [HexDigit(value)] else FormatHexInt(value / 16) + [HexDigit(value % 16)]
  }

  lemma {:induction false} NumberIgnoresRest(t: string, u: string, n: nat, base: nat)
    requires n <= |t| && n <= |u| && forall i :: 0 <= i < n ==> IsHexDigit(t[i]) && t[i] == u[i]
    ensures Number(t, n, base) == Number(u, n, base)
    decreases n
  {
    if n > 0 {
      NumberIgnoresRest(t, u, n - 1, base);
    }
  }

  /** The digits are upper case, without leading zeros, and denote the number. */
  lemma {:induction false} HexDigitsAreExact(value: nat)
    ensures var digits := FormatHexInt(value);
            && digits != "" && (value > 0 ==> digits[0] != '0')
            && (forall i :: 0 <= i < |digits| ==> '0' <= digits[i] <= '9' || 'A' <= digits[i] <= 'F')
            && Number(digits, |digits|, 16) == value
    decreases value
  {
    var digits := FormatHexInt(value);
    if value < 16 {
      assert digits == [HexDigit(value)] && Number(digits, 0, 16) == 0;
    } else {
      HexDigitsAreExact(value / 16);
      var front, last := FormatHexInt(value / 16), HexDigit(value % 16);
      assert digits == front + [last] && digits[|digits| - 1] == last;
      hide FormatHexInt;
      NumberIgnoresRest(digits, front, |front|, 16);
    }
  }

  /** Two hexadecimal digits. */
  function FormatByte(value: Byte): string {
    [HexDigit(value / 16), HexDigit(value % 16)]
  }
}

/** Division with remainder. */
module Division {

  lemma DivModStep(n: nat, d: nat)
    requires d > 0
    ensures if n % d + 1 < d then (n + 1) / d == n / d && (n + 1) % d == n % d + 1
            else (n + 1) / d == n / d + 1 && (n + 1) % d == 0
  {
    var q, r := n / d, n % d;
    assert n == q * d + r;
    if r + 1 < d {
      assert n + 1 == q * d + (r + 1);
      DivModUnique(n + 1, d, q, r + 1);
    } else {
      assert n + 1 == (q + 1) * d;
      DivModUnique(n + 1, d, q + 1, 0);
    }
  }

  lemma DivModUnique(n: nat, d: nat, q: nat, r: nat)
    requires r < d && n == q * d + r
    ensures n / d == q && n % d == r
  {
    SameQuotient(d, q, r, n / d, n % d);
  }

  lemma {:induction false} SameQuotient(d: nat, q: nat, r: nat, q': nat, r': nat)
    requires r < d && r' < d && q * d + r == q' * d + r'
    ensures q == q' && r == r'
    decreases q
  {
    MulAtLeast(q, d);
    MulAtLeast(q', d);
    if q > 0 && q' > 0 {
      assert (q - 1) * d + r == (q' - 1) * d + r';
      SameQuotient(d, q - 1, r, q' - 1, r');
    }
  }

  lemma MulAtLeast(k: nat, d: nat)
    ensures k > 0 ==> k * d >= d
  {
    if k > 0 {
      assert k * d == (k - 1) * d + d;
    }
  }

  lemma MultipleModulo(d: nat, q: nat)
    requires d > 0
    ensures q * d % d == 0
  {
    DivModUnique(q * d, d, q, 0);
  }

  /** Numbers a multiple of `d` apart have the same remainder. */
  lemma SameModulo(n: nat, d: nat, q: nat)
    requires d > 0
    ensures (n + q * d) % d == n % d
  {
    assert n + q * d == (n / d + q) * d + n % d;
    DivModUnique(n + q * d, d, n / d + q, n % d);
  }
}
