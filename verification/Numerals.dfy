/** Numbers as text: the canonical numeral of a number in a base, and what kernel/core/string.c writes and
    reads in base ten with 32-bit signed arithmetic. */
module Numerals {
  const HEX_DIGITS: string := "0123456789abcdef"

  function DigitChar(d: nat): (c: char)
    requires d < 16
  {
    HEX_DIGITS[d]
  }

  /** The number a digit stands for, or 16 for any other character. */
  function DigitValue(c: char): nat {
    if '0' <= c <= '9' then c as nat - '0' as nat
    else if 'a' <= c <= 'f' then c as nat - 'a' as nat + 10
    else 16
  }

  lemma DigitRoundTrip(d: nat)
    requires d < 16
    ensures DigitValue(DigitChar(d)) == d && (d < 10 ==> DigitChar(d) as int == d + '0' as int)
  {
    assert HEX_DIGITS == ['0', '1', '2', '3', '4', '5', '6', '7', '8', '9', 'a', 'b', 'c', 'd', 'e', 'f'];
  }

  lemma ZeroDigit()
    ensures DigitValue('0') == 0 && DigitChar(0) == '0'
  {
  }

  /** A non-empty string of base-`b` digits without a leading zero, except for "0" itself. */
  predicate Canonical(s: string, b: nat) {
    s != [] && (forall c :: c in s ==> DigitValue(c) < b) && (s[0] == '0' ==> |s| == 1)
  }

  function Value(s: string, b: nat): nat {
    if s == [] then 0 else Value(s[..|s| - 1], b) * b + DigitValue(s[|s| - 1])
  }

  /** All that the proofs need of division. */
  lemma DivMod(n: nat, b: nat)
    requires b >= 2
    ensures n == n / b * b + n % b && n % b < b
    ensures n > 0 ==> n / b < n
    ensures n >= b <==> n / b > 0
    ensures n < b ==> n % b == n
  {
    QuotientFacts(n, b, n / b, n % b);
  }

  lemma QuotientFacts(n: nat, b: nat, q: nat, r: nat)
    requires b >= 2 && n == q * b + r && r < b
    ensures n > 0 ==> q < n
    ensures n >= b <==> q > 0
    ensures n < b ==> r == n
  {
    TimesOrder(1, q, b);
    TimesOrder(2, b, q);
    if q == 0 {
      assert q * b == 0;
    }
  }

  function Quo(n: nat, b: nat): (q: nat)
    requires b >= 2
    ensures n > 0 ==> q < n
    ensures n >= b <==> q > 0
  {
    DivMod(n, b);
    n / b
  }

  function Low(n: nat, b: nat): (r: nat)
    requires b >= 2
    ensures r < b && n == Quo(n, b) * b + r
    ensures n < b ==> r == n
  {
    DivMod(n, b);
    n % b
  }

  /** The numeral of `n`, most significant digit first. */
  function Numeral(n: nat, b: nat): string
    requires 2 <= b <= 16
  {
    if n < b then [DigitChar(n)] else Numeral(Quo(n, b), b) + [DigitChar(Low(n, b))]
  }

  /** Every number has a canonical numeral with that value... */
  lemma {:induction false} NumeralIsCanonical(n: nat, b: nat)
    requires 2 <= b <= 16
    ensures Canonical(Numeral(n, b), b) && Value(Numeral(n, b), b) == n
    ensures n > 0 ==> Numeral(n, b)[0] != '0'
  {
    hide Quo, Low, DigitChar, DigitValue;
    DigitRoundTrip(Low(n, b));
    DigitRoundTrip(0);
    ZeroDigit();
    var s := Numeral(n, b);
    if n >= b {
      NumeralIsCanonical(Quo(n, b), b);
      assert s[..|s| - 1] == Numeral(Quo(n, b), b);
    } else {
      assert s[..0] == [];
    }
  }

  /** ... and only one. */
  lemma {:induction false} NumeralIsUnique(s: string, b: nat)
    requires 2 <= b <= 16 && Canonical(s, b)
    ensures s == Numeral(Value(s, b), b)
    decreases |s|
  {
    hide Quo, Low, DigitChar, DigitValue;
    var d, t := DigitValue(s[|s| - 1]), s[..|s| - 1];
    assert s == t + [s[|s| - 1]] && s[|s| - 1] in s;
    DigitCharOf(s[|s| - 1]);
    if t == [] {
      assert Value(s, b) == d;
    } else {
      assert forall c :: c in t ==> c in s;
      assert t[0] == s[0];
      NumeralIsUnique(t, b);
      var v := Value(t, b);
      assert v > 0 by {
        if v == 0 {
          ZeroDigit();
          assert false;
        }
      }
      SplitDigit(v, d, b);
    }
  }

  lemma DigitCharOf(c: char)
    requires DigitValue(c) < 16
    ensures DigitChar(DigitValue(c)) == c
  {
    assert HEX_DIGITS == ['0', '1', '2', '3', '4', '5', '6', '7', '8', '9', 'a', 'b', 'c', 'd', 'e', 'f'];
    DigitRoundTrip(DigitValue(c));
  }

  lemma SplitDigit(v: nat, d: nat, b: nat)
    requires d < b
    requires b >= 2
    ensures Quo(v * b + d, b) == v && Low(v * b + d, b) == d && (v > 0 ==> v * b + d >= b)
  {
    hide Quo, Low;
    var n := v * b + d;
    SameQuotient(v, d, Quo(n, b), Low(n, b), b);
  }

  lemma SameQuotient(v: nat, d: nat, w: nat, e: nat, b: nat)
    requires d < b && e < b && v * b + d == w * b + e
    ensures v == w && d == e
  {
    TimesOrder(v + 1, w, b);
    TimesOrder(w + 1, v, b);
    assert (v + 1) * b == v * b + b && (w + 1) * b == w * b + b;
  }

  lemma TimesOrder(a: nat, b: nat, m: nat)
    ensures a <= b ==> a * m <= b * m
  {
    if a <= b {
      assert b * m == a * m + (b - a) * m;
    }
  }

  /** One more digit. */
  lemma AppendDigit(v: nat, d: nat, b: nat)
    requires 2 <= b <= 16 && d < b && v > 0
    ensures Numeral(v * b + d, b) == Numeral(v, b) + [DigitChar(d)]
  {
    hide Quo, Low, DigitChar;
    SplitDigit(v, d, b);
  }

  // ---------------------------------------------------------------- least significant digit first

  function Reversed(s: string): (r: string)
    ensures |r| == |s|
  {
    seq(|s|, i requires 0 <= i < |s| => s[|s| - 1 - i])
  }

  /** The digits of a positive number as the division loops produce them. */
  function Backwards(n: nat, b: nat): string
    requires 2 <= b <= 16
  {
    if n == 0 then [] else [DigitChar(Low(n, b))] + Backwards(Quo(n, b), b)
  }

  lemma {:induction false} BackwardsReversed(n: nat, b: nat)
    requires 2 <= b <= 16 && n > 0
    ensures Reversed(Backwards(n, b)) == Numeral(n, b)
  {
    hide Quo, Low, DigitChar;
    var s, t := Backwards(n, b), Backwards(Quo(n, b), b);
    assert Reversed(s) == Reversed(t) + [DigitChar(Low(n, b))];
    if n >= b {
      BackwardsReversed(Quo(n, b), b);
    }
  }

  // ---------------------------------------------------------------- signed 32-bit decimal

  const INT32_MIN: int := -0x8000_0000

  predicate InInt32(x: int) { -0x8000_0000 <= x < 0x8000_0000 }

  /** What a 32-bit register holds when an operation gives `x`. */
  function Wrap32(x: int): (r: int)
    ensures InInt32(r) && (InInt32(x) ==> r == x)
  {
    (x + 0x8000_0000) % 0x1_0000_0000 - 0x8000_0000
  }

  /** C's `/ 10` and `% 10` truncate toward zero. */
  function Quot10(x: int): (r: int)
    ensures x < 0 ==> x < r <= 0
    ensures x > 0 ==> 0 <= r < x
    ensures x == 0 ==> r == 0
  {
    if x >= 0 then x / 10 else -(-x / 10)
  }

  function Rem10(x: int): (r: int)
    ensures (if x >= 0 then 0 <= r <= 9 else -9 <= r <= 0) && x == 10 * Quot10(x) + r
  {
    if x >= 0 then x % 10 else -(-x % 10)
  }

  function CharAt(rem: int): char
    requires -9 <= rem <= 9
  {
    (rem + '0' as int) as char
  }

  /** The digits that int_to_str's loop writes for a register value, negative ones included. */
  function DigitsOf(x: int): string
    decreases if x < 0 then -x else x
  {
    if x == 0 then [] else [CharAt(Rem10(x))] + DigitsOf(Quot10(x))
  }

  /** The text int_to_str leaves. */
  function IntText(n: int): string {
    if n == 0 then "0" else if n < 0 then "-" + Reversed(DigitsOf(Wrap32(-n))) else Reversed(DigitsOf(n))
  }

  /** The decimal numeral of an integer. */
  function SignedNumeral(n: int): string {
    if n < 0 then "-" + Numeral(-n, 10) else Numeral(n, 10)
  }

  lemma {:induction false} DigitsOfPositive(n: nat)
    ensures DigitsOf(n) == Backwards(n, 10)
  {
    if n > 0 {
      DigitRoundTrip(n % 10);
      assert Quot10(n) == Quo(n, 10) && Rem10(n) == Low(n, 10);
      DigitsOfPositive(n / 10);
    }
  }

  lemma LowestLastDigit(n: int)
    requires n == INT32_MIN
    ensures Wrap32(-n) == n && DigitsOf(n) != [] && DigitsOf(n)[0] == CharAt(-8)
  {
    hide Quot10;
    assert Rem10(n) == -8;
  }

  /** The last character written for -2^31 is the one eight places before '0'. */
  lemma LowestText(n: int)
    requires n == INT32_MIN
    ensures IntText(n) != SignedNumeral(n)
  {
    hide DigitChar, Numeral, Reversed, DigitsOf, Wrap32;
    var s := DigitsOf(n);
    LowestLastDigit(n);
    LastOf(s);
    NumeralIsCanonical(-n, 10);
    var t, u := IntText(n), Numeral(-n, 10);
    assert t == "-" + Reversed(s);
    assert t[|t| - 1] == CharAt(-8);
    assert SignedNumeral(n)[|u|] == u[|u| - 1];
    assert u[|u| - 1] in u;
  }

  lemma LastOf(s: string)
    requires s != []
    ensures Reversed(s)[|s| - 1] == s[0]
  {
  }

  /** int_to_str writes the decimal numeral of exactly the values other than -2^31. */
  lemma IntTextIsNumeral(n: int)
    requires InInt32(n)
    ensures IntText(n) == SignedNumeral(n) <==> n != INT32_MIN
  {
    if n == INT32_MIN {
      LowestText(n);
    } else if n == 0 {
      assert Numeral(0, 10) == "0";
    } else {
      var m := if n < 0 then -n else n;
      DigitsOfPositive(m);
      BackwardsReversed(m, 10);
    }
  }

  // ---------------------------------------------------------------- atoi

  /** A character of the source is a byte, and as a `char` it is negative from 128 on. */
  function SignedChar(c: char): int {
    if c as int < 128 then c as int else c as int - 256
  }

  /** The sum that atoi's loop computes, on unbounded integers. */
  function Accumulated(s: string): int {
    if s == [] then 0 else Accumulated(s[..|s| - 1]) * 10 + (SignedChar(s[|s| - 1]) - '0' as int)
  }

  function SignLength(s: string): nat { if s != [] && (s[0] == '-' || s[0] == '+') then 1 else 0 }

  function Signed(s: string): int {
    if s != [] && s[0] == '-' then -Accumulated(s[SignLength(s)..]) else Accumulated(s[SignLength(s)..])
  }

  predicate IsDigit(c: char) { '0' <= c <= '9' }

  predicate IsDigits(t: string) { forall i :: 0 <= i < |t| ==> IsDigit(t[i]) }

  lemma {:induction false} AccumulatedIsValue(t: string)
    requires IsDigits(t)
    ensures Accumulated(t) == Value(t, 10)
  {
    if t != [] {
      AccumulatedIsValue(t[..|t| - 1]);
    }
  }

  /** Digits with or without a sign mean what they should. */
  lemma SignedDigits(t: string)
    requires IsDigits(t)
    ensures Signed(t) == Value(t, 10) && Signed("+" + t) == Value(t, 10) && Signed("-" + t) == 0 - Value(t, 10)
  {
    hide Accumulated, Value;
    AccumulatedIsValue(t);
    assert t[0..] == t && ("+" + t)[1..] == t && ("-" + t)[1..] == t;
    assert t != [] ==> IsDigit(t[0]);
  }

  lemma {:induction false} AccumulatedDigits(x: int)
    ensures Accumulated(Reversed(DigitsOf(x))) == x
    ensures forall c :: c in Reversed(DigitsOf(x)) ==> c != '\0' && c as int < 128 && (x > 0 ==> '0' <= c <= '9')
    decreases if x < 0 then -x else x
  {
    hide Quot10, Rem10;
    if x != 0 {
      AccumulatedDigits(Quot10(x));
      var s, t := Reversed(DigitsOf(x)), Reversed(DigitsOf(Quot10(x)));
      assert s == t + [CharAt(Rem10(x))];
      assert s[..|s| - 1] == t;
    }
  }

  lemma NegateTwice(n: int)
    requires InInt32(n)
    ensures Wrap32(-Wrap32(-n)) == n
  {
  }

  lemma AccumulatedZero(s: string)
    requires s == ['0']
    ensures Accumulated(s) == 0
  {
    assert s[..0] == [];
  }

  /** atoi undoes int_to_str on every 32-bit value. At -2^31 two wrap-arounds cancel. */
  lemma AtoiUndoesIntText(n: int)
    requires InInt32(n)
    ensures Wrap32(Signed(IntText(n))) == n && '\0' !in IntText(n) && forall c :: c in IntText(n) ==> c as int < 128
  {
    hide DigitsOf, Reversed, Accumulated, Wrap32;
    var s := IntText(n);
    if n == 0 {
      AccumulatedZero(s);
      assert s[0..] == s;
    } else if n < 0 {
      AccumulatedDigits(Wrap32(-n));
      NegateTwice(n);
      assert s[1..] == Reversed(DigitsOf(Wrap32(-n)));
    } else {
      AccumulatedDigits(n);
      assert s != [] by {
        if s == [] { EmptySum(s); }
      }
      assert s[0] in s;
      assert s[0..] == s;
    }
  }

  lemma EmptySum(s: string)
    requires s == []
    ensures Accumulated(s) == 0
  {
  }

  /** No step of int_to_str followed by atoi leaves the 32-bit range: the negation, the running sum after
      every digit, and the final product with the sign. */
  ghost predicate NoOverflow(n: int) {
    var s := IntText(n);
    && InInt32(-n)
    && (forall k :: SignLength(s) <= k <= |s| ==> InInt32(Accumulated(s[SignLength(s)..k])))
    && InInt32(Signed(s))
  }

  lemma {:induction false} PrefixBound(n: nat, k: nat)
    requires k <= |Numeral(n, 10)|
    ensures 0 <= Accumulated(Numeral(n, 10)[..k]) <= n
    ensures k == |Numeral(n, 10)| ==> Accumulated(Numeral(n, 10)[..k]) == n
    decreases n, k
  {
    var s := Numeral(n, 10);
    DigitRoundTrip(Low(n, 10));
    if n < 10 {
      assert k == 0 || s[..1][..0] == [];
    } else if k < |s| {
      assert s[..k] == Numeral(Quo(n, 10), 10)[..k];
      PrefixBound(Quo(n, 10), k);
    } else {
      assert s[..k] == s && s[..k - 1] == Numeral(Quo(n, 10), 10);
      assert Numeral(Quo(n, 10), 10)[..k - 1] == Numeral(Quo(n, 10), 10);
      PrefixBound(Quo(n, 10), k - 1);
    }
  }

  lemma NoOverflowIff(n: int)
    requires InInt32(n)
    ensures NoOverflow(n) <==> n != INT32_MIN
  {
    hide IntText, Accumulated, Wrap32, Numeral, DigitChar;
    if n != INT32_MIN {
      IntTextIsNumeral(n);
      var m := if n < 0 then -n else n;
      var s, d := IntText(n), Numeral(m, 10);
      NumeralIsCanonical(m, 10);
      assert d[0] in d;
      var j := SignLength(s);
      assert s[j..] == d;
      forall k | j <= k <= |s| ensures 0 <= Accumulated(s[j..k]) <= m {
        assert s[j..k] == d[..k - j];
        PrefixBound(m, k - j);
      }
      assert s[j..|s|] == s[j..];
    }
  }
}
