/** The digit loops of kernel/core/string.c and arch/x86/kernel/multiboot.c, working in the caller's buffer. */
module Conversions {
  import opened Blocks
  import opened Numerals

  /** The buffer holds `s` as a terminated string. */
  predicate Holds(buffer: seq<char>, s: string) {
    |s| < |buffer| && buffer[..|s|] == s && buffer[|s|] == '\0'
  }

  // ---------------------------------------------------------------- 64-bit division

  const WORD64: nat := 0x1_0000_0000_0000_0000

  /** `x | (1 << k)`. */
  function SetBit(x: nat, k: nat): nat
    decreases k
  {
    if k > 0 then 2 * SetBit(x / 2, k - 1) + x % 2 else if x % 2 == 0 then x + 1 else x
  }

  lemma {:induction false} ShiftStep(x: nat, k: nat)
    ensures ShiftRight(x, k) == 2 * ShiftRight(x, k + 1) + ShiftRight(x, k) % 2
    decreases k
  {
    if k > 0 { ShiftStep(x / 2, k - 1); }
  }

  lemma {:induction false} ShiftBound(x: nat, k: nat)
    ensures ShiftRight(x, k) <= x
    ensures x < Size(k) ==> ShiftRight(x, k) == 0
    decreases k
  {
    if k > 0 { ShiftBound(x / 2, k - 1); }
  }

  /** Setting a bit below all those that are set. */
  lemma {:induction false} BitBelow(x: nat, k: nat)
    requires Aligned(x, k + 1)
    ensures Aligned(x, k) && ShiftRight(x, k) == 2 * ShiftRight(x, k + 1)
    ensures Aligned(SetBit(x, k), k) && ShiftRight(SetBit(x, k), k) == 2 * ShiftRight(x, k + 1) + 1
    decreases k
  {
    if k > 0 { BitBelow(x / 2, k - 1); }
  }

  lemma Size64()
    ensures Size(64) == WORD64
  {
    Size32();
    SizeSum(32, 32);
  }

  lemma Size32()
    ensures Size(32) == 0x1_0000_0000
  {
    assert Size(4) == 16;
    SizeSum(4, 4);
    SizeSum(8, 8);
    SizeSum(16, 16);
  }

  lemma {:induction false} SizeSum(j: nat, k: nat)
    ensures Size(j + k) == Size(j) * Size(k)
  {
    if j > 0 {
      SizeSum(j - 1, k);
    }
  }

  /** After the top bits down to bit `i`: `q` and `r` divide the number that those bits make up. */
  ghost predicate Divides(dividend: nat, divisor: nat, q: nat, r: nat, i: nat) {
    && i <= 64 && Aligned(q, i)
    && ShiftRight(dividend, i) == ShiftRight(q, i) * divisor + r
    && (if divisor > 0 then r < divisor else ShiftRight(q, i) == Size(64 - i) - 1)
  }

  lemma DivideStart(dividend: nat, divisor: nat)
    requires dividend < WORD64
    ensures Divides(dividend, divisor, 0, 0, 64)
  {
    Size64();
    ShiftBound(dividend, 64);
    ShiftBound(0, 64);
    DownBounds(0, 64);
  }

  /** One round: shifting in the next bit loses none, and the division is right for one bit more. */
  lemma DivideRound(dividend: nat, divisor: nat, q: nat, r: nat, i: nat)
    requires Divides(dividend, divisor, q, r, i + 1) && dividend < WORD64
    ensures 2 * r + 1 < WORD64
    ensures var s := 2 * r + ShiftRight(dividend, i) % 2;
      if s >= divisor then Divides(dividend, divisor, SetBit(q, i), s - divisor, i) else Divides(dividend, divisor, q, s, i)
  {
    hide ShiftRight, SetBit;
    var high := ShiftRight(q, i + 1);
    assert r <= ShiftRight(dividend, i + 1) by { assert high * divisor >= 0; }
    ShiftBound(dividend, i);
    ShiftStep(dividend, i);
    BitBelow(q, i);
    Doubled(high, divisor);
    assert Size(64 - i) == 2 * Size(63 - i);
  }

  lemma LowBit(x: nat)
    ensures SetBit(2 * x, 0) == 2 * x + 1
  {
  }

  lemma DivideEnd(dividend: nat, divisor: nat, q: nat, r: nat)
    requires Divides(dividend, divisor, q, r, 0)
    ensures if divisor > 0 then dividend == q * divisor + r && r < divisor else q == WORD64 - 1 && r == dividend
  {
    Size64();
  }

  /** udivmod64: the true quotient and remainder, for every dividend and divisor; no bit is lost in the
      64-bit shift, even for divisors above 2^63. Division by zero gives all ones and the dividend. */
  method Udivmod64(dividend: nat, divisor: nat) returns (q: nat, r: nat)
    requires dividend < WORD64 && divisor < WORD64
    ensures divisor > 0 ==> dividend == q * divisor + r && r < divisor
    ensures divisor == 0 ==> q == WORD64 - 1 && r == dividend
  {
    hide Divides, ShiftRight, SetBit;
    q, r := 0, 0;
    var i := 63;
    DivideStart(dividend, divisor);
    while i >= 0
      invariant -1 <= i <= 63 && Divides(dividend, divisor, q, r, i + 1)
    {
      DivideRound(dividend, divisor, q, r, i);
      LowBit(r);
      var bit := ShiftRight(dividend, i) % 2;
      r := 2 * r % WORD64;
      r := if bit == 1 then SetBit(r, 0) else r;
      if r >= divisor {
        r := r - divisor;
        q := SetBit(q, i);
      }
      i := i - 1;
    }
    DivideEnd(dividend, divisor, q, r);
  }

  lemma Doubled(high: nat, divisor: nat)
    ensures 2 * (high * divisor) == (2 * high) * divisor
    ensures (2 * high + 1) * divisor == 2 * (high * divisor) + divisor
  {
  }

  // ---------------------------------------------------------------- reversing in place

  method Reverse(str: array<char>, length: nat)
    requires length <= str.Length
    modifies str
    ensures str[..length] == Reversed(old(str[..length]))
    ensures str[length..] == old(str[length..])
  {
    ghost var was := str[..];
    var start, end := 0, length - 1;
    while start < end
      invariant 0 <= start <= length && end == length - 1 - start && start <= end + 1
      invariant forall k :: 0 <= k < start ==> str[k] == was[length - 1 - k]
      invariant forall k :: start <= k <= end ==> str[k] == was[k]
      invariant forall k :: end < k < length ==> str[k] == was[length - 1 - k]
      invariant str[length..] == was[length..]
    {
      str[start], str[end] := str[end], str[start];
      start, end := start + 1, end - 1;
    }
  }

  lemma TailOf(s: seq<char>, i: nat, n: nat)
    requires i <= n < |s|
    ensures s[n + 1..] == s[i + 1..][n - i..]
  {
  }

  /** Write one more character after the first `i`. */
  method Put(str: array<char>, i: nat, c: char)
    requires i < str.Length
    modifies str
    ensures str[..i + 1] == old(str[..i]) + [c] && str[i + 1..] == old(str[i + 1..])
  {
    str[i] := c;
  }

  /** Terminate the first `length` characters and reverse them. */
  method Finish(str: array<char>, length: nat)
    requires length < str.Length
    modifies str
    ensures Holds(str[..], Reversed(old(str[..length])))
    ensures str[length + 1..] == old(str[length + 1..])
  {
    ghost var was := str[..];
    str[length] := '\0';
    assert str[..length] == was[..length];
    Reverse(str, length);
    assert str[length] == str[length..][0];
    assert str[length + 1..] == str[length..][1..];
  }

  // ---------------------------------------------------------------- base 2 to 16

  /** The digits that the do-while loop of uint64_to_str writes: at least one. */
  function Written(n: nat, b: nat): string
    requires 2 <= b <= 16
  {
    [DigitChar(Low(n, b))] + Backwards(Quo(n, b), b)
  }

  lemma WrittenReversed(n: nat, b: nat)
    requires 2 <= b <= 16
    ensures Reversed(Written(n, b)) == Numeral(n, b)
    ensures |Written(n, b)| == |Numeral(n, b)|
  {
    if n == 0 {
      assert Backwards(0, b) == [];
    } else {
      BackwardsReversed(n, b);
    }
  }

  /** uint64_to_str: the canonical numeral in any base from 2 to 16. */
  method Uint64ToStr(value: nat, str: array<char>, base: nat)
    requires value < WORD64 && 2 <= base <= 16 && str.Length > |Numeral(value, base)|
    modifies str
    ensures Holds(str[..], Numeral(value, base))
    ensures var n := |Numeral(value, base)|; str[n + 1..] == old(str[n + 1..])
  {
    WrittenReversed(value, base);
    ghost var n := |Numeral(value, base)|;
    var ptr, v, q, r := 0, value, 0, 0;
    q, r := Udivmod64(v, base);
    SameQuotient(q, r, Quo(v, base), Low(v, base), base);
    v := q;
    str[ptr] := HEX_DIGITS[r];
    ptr := ptr + 1;
    while v != 0
      invariant 0 <= v < WORD64 && 1 <= ptr <= n
      invariant str[..ptr] + Backwards(v, base) == Written(value, base)
      invariant str[n + 1..] == old(str[n + 1..])
      decreases v
    {
      q, r := Udivmod64(v, base);
      SameQuotient(q, r, Quo(v, base), Low(v, base), base);
      TailOf(str[..], ptr, n);
      Put(str, ptr, HEX_DIGITS[r]);
      TailOf(str[..], ptr, n);
      v := q;
      ptr := ptr + 1;
    }
    assert str[..ptr] == Written(value, base);
    Finish(str, ptr);
  }

  // ---------------------------------------------------------------- hexadecimal

  lemma {:induction false} ShiftTwice(x: nat, j: nat, k: nat)
    ensures ShiftRight(x, j + k) == ShiftRight(ShiftRight(x, j), k)
    decreases j
  {
    if j > 0 { ShiftTwice(x / 2, j - 1, k); }
  }

  /** The digits of `v`, none for zero. */
  function Leading(v: nat, b: nat): string
    requires 2 <= b <= 16
  {
    if v == 0 then [] else Numeral(v, b)
  }

  lemma NoDigits()
    ensures Leading(0, 16) == []
  {
  }

  lemma ShiftNone(x: nat)
    ensures ShiftRight(x, 0) == x
  {
  }

  lemma LeadingOfPositive(v: nat, b: nat)
    requires v > 0 && 2 <= b <= 16
    ensures Leading(v, b) == Numeral(v, b)
  {
  }

  lemma LeadingStep(v: nat, d: nat, b: nat)
    requires 2 <= b <= 16 && d < b
    ensures Leading(v * b + d, b) == if v == 0 && d == 0 then [] else Leading(v, b) + [DigitChar(d)]
  {
    if v > 0 {
      AppendDigit(v, d, b);
      SplitDigit(v, d, b);
    }
  }

  /** int_to_hex_str: skips leading zeros from the top instead of reversing, with the same result in base
      sixteen as uint64_to_str. */
  method IntToHexStr(num: nat, dest: array<char>)
    requires num < 0x1_0000_0000 && dest.Length > |Numeral(num, 16)|
    modifies dest
    ensures Holds(dest[..], Numeral(num, 16))
    ensures var n := |Numeral(num, 16)|; dest[n + 1..] == old(dest[n + 1..])
  {
    if num == 0 {
      dest[0], dest[1] := '0', '\0';
      return;
    }
    var temp := new char[9];
    var i := HexDigits(num, temp);
    temp[i] := '\0';
    assert temp[..i] == Numeral(num, 16);
    NoTerminator(num, 16);
    forall k | 0 <= k < i ensures temp[k] != '\0' {
      assert temp[..i][k] in Numeral(num, 16);
    }
    StrCpy(dest, temp, i);
  }

  /** The loop of int_to_hex_str, from the top digit down; at most eight digits are written. */
  method HexDigits(num: nat, temp: array<char>) returns (i: nat)
    requires 0 < num < 0x1_0000_0000 && temp.Length == 9
    modifies temp
    ensures i <= 8 && temp[..i] == Numeral(num, 16)
  {
    hide Numeral, DigitValue, ShiftRight, Leading;
    NoDigits();
    NoBitsAbove(num);
    var leading, j := true, 7;
    i := 0;
    while j >= 0
      invariant -1 <= j <= 7 && i <= 7 - j
      invariant temp[..i] == Leading(ShiftRight(num, 4 * (j + 1)), 16)
      invariant leading <==> ShiftRight(num, 4 * (j + 1)) == 0
    {
      HexRound(num, j);
      var digit := HEX_DIGITS[ShiftRight(num, 4 * j) % 16];
      if digit != '0' || !leading {
        Put(temp, i, digit);
        i := i + 1;
        leading := false;
      }
      j := j - 1;
    }
    ShiftNone(num);
    LeadingOfPositive(num, 16);
  }

  lemma NoBitsAbove(num: nat)
    requires num < 0x1_0000_0000
    ensures ShiftRight(num, 32) == 0
  {
    Size32();
    ShiftBound(num, 32);
  }

  /** One round: the digit extends the numeral, unless it is a leading zero. */
  lemma HexRound(num: nat, j: nat)
    ensures var v, w := ShiftRight(num, 4 * (j + 1)), ShiftRight(num, 4 * j);
      && (HEX_DIGITS[w % 16] == '0' <==> w % 16 == 0)
      && (w == 0 <==> v == 0 && w % 16 == 0)
      && Leading(w, 16) == if v == 0 && w % 16 == 0 then [] else Leading(v, 16) + [HEX_DIGITS[w % 16]]
  {
    hide ShiftRight, Leading;
    var v, w := ShiftRight(num, 4 * (j + 1)), ShiftRight(num, 4 * j);
    HexStep(num, j);
    LeadingStep(v, w % 16, 16);
    OnlyZero(w % 16);
  }

  lemma HexStep(num: nat, j: nat)
    ensures ShiftRight(num, 4 * j) == ShiftRight(num, 4 * (j + 1)) * 16 + ShiftRight(num, 4 * j) % 16
  {
    ShiftTwice(num, 4 * j, 4);
    var v := ShiftRight(num, 4 * j);
    assert ShiftRight(v, 4) == ShiftRight(v / 2, 3) == ShiftRight(v / 2 / 2, 2) == ShiftRight(v / 2 / 2 / 2, 1) == v / 2 / 2 / 2 / 2;
  }

  lemma OnlyZero(d: nat)
    requires d < 16
    ensures DigitChar(d) == '0' <==> d == 0
  {
    DigitRoundTrip(d);
    ZeroDigit();
  }

  lemma NoTerminator(n: nat, b: nat)
    requires 2 <= b <= 16
    ensures forall c :: c in Numeral(n, b) ==> c != '\0'
  {
    NumeralIsCanonical(n, b);
  }

  /** strcpy of a string of length `n`. */
  method StrCpy(dest: array<char>, src: array<char>, ghost n: nat)
    requires n < src.Length && n < dest.Length && dest != src
    requires src[n] == '\0' && forall i :: 0 <= i < n ==> src[i] != '\0'
    modifies dest
    ensures Holds(dest[..], src[..n]) && dest[n + 1..] == old(dest[n + 1..])
  {
    var i := 0;
    while src[i] != '\0'
      invariant i <= n && dest[..i] == src[..i] && dest[n + 1..] == old(dest[n + 1..])
      decreases n - i
    {
      dest[i] := src[i];
      i := i + 1;
    }
    dest[i] := '\0';
  }

  // ---------------------------------------------------------------- decimal

  /** uint_to_str: digits from the least significant, then reversed. */
  method UintToStr(num: nat, dest: array<char>)
    requires dest.Length > |Numeral(num, 10)|
    modifies dest
    ensures Holds(dest[..], Numeral(num, 10))
    ensures var n := |Numeral(num, 10)|; dest[n + 1..] == old(dest[n + 1..])
  {
    if num == 0 {
      dest[0], dest[1] := '0', '\0';
      return;
    }
    BackwardsReversed(num, 10);
    DigitsOfPositive(num);
    var i := WriteDigits(num, dest);
    Finish(dest, i);
  }

  /** The digit loop of int_to_str and uint_to_str. */
  method WriteDigits(num: int, dest: array<char>) returns (i: nat)
    requires dest.Length >= |DigitsOf(num)|
    modifies dest
    ensures i == |DigitsOf(num)| && dest[..i] == DigitsOf(num) && dest[i..] == old(dest[i..])
  {
    i := 0;
    var v := num;
    ghost var n := |DigitsOf(num)|;
    while v != 0
      invariant i <= n && dest[..i] + DigitsOf(v) == DigitsOf(num) && dest[n..] == old(dest[n..])
      decreases if v < 0 then -v else v
    {
      var rem := Rem10(v);
      TailOf(dest[..], i, n - 1);
      Put(dest, i, CharAt(rem));
      TailOf(dest[..], i, n - 1);
      i := i + 1;
      v := Quot10(v);
    }
    assert dest[..i] == DigitsOf(num);
  }

  /** int_to_str, the negation of the lowest value wrapping round. */
  method IntToStr(num: int, dest: array<char>)
    requires InInt32(num) && dest.Length > |IntText(num)|
    modifies dest
    ensures Holds(dest[..], IntText(num))
    ensures num != INT32_MIN ==> Holds(dest[..], SignedNumeral(num))
    ensures var n := |IntText(num)|; dest[n + 1..] == old(dest[n + 1..])
  {
    hide SignedNumeral;
    IntTextIsNumeral(num);
    if num == 0 {
      dest[0], dest[1] := '0', '\0';
      return;
    }
    hide *;
    var i := WriteBackwards(num, dest);
    Finish(dest, i);
  }

  /** What int_to_str has in the buffer before it reverses: the digits, then the sign. */
  method WriteBackwards(num: int, dest: array<char>) returns (i: nat)
    requires num != 0 && InInt32(num) && dest.Length > |IntText(num)|
    modifies dest
    ensures i == |IntText(num)| && Reversed(dest[..i]) == IntText(num)
    ensures dest[i + 1..] == old(dest[i + 1..])
  {
    var v := if num < 0 then Wrap32(-num) else num;
    SignLast(num);
    hide *;
    i := WriteDigits(v, dest);
    ghost var was := old(dest[..]);
    assert dest[i + 1..] == dest[i..][1..] && was[i + 1..] == was[i..][1..];
    if num < 0 {
      assert dest[i + 2..] == dest[i + 1..][1..] && was[i + 2..] == was[i + 1..][1..];
      Put(dest, i, '-');
      i := i + 1;
      assert dest[i + 1..] == dest[i..][1..];
    }
  }

  /** The digits of the magnitude and then the sign, read backwards, are the text. */
  lemma SignLast(num: int)
    requires num != 0 && InInt32(num)
    ensures var v := if num < 0 then Wrap32(-num) else num;
            var s := DigitsOf(v) + if num < 0 then ['-'] else [];
            Reversed(s) == IntText(num) && |s| == |IntText(num)|
  {
    if num < 0 {
      ReversedSign(DigitsOf(Wrap32(-num)));
    } else {
      assert DigitsOf(num) + [] == DigitsOf(num);
    }
  }

  lemma ReversedSign(s: string)
    ensures Reversed(s + ['-']) == "-" + Reversed(s)
  {
  }

  /** itoa: digits from the most significant, by ever smaller divisors, leaves the same text as uint_to_str. */
  method Itoa(num: nat, dest: array<char>)
    requires num < 0x1_0000_0000 && dest.Length > |Numeral(num, 10)|
    modifies dest
    ensures Holds(dest[..], Numeral(num, 10))
    ensures var n := |Numeral(num, 10)|; dest[n + 1..] == old(dest[n + 1..])
  {
    if num == 0 {
      dest[0], dest[1] := '0', '\0';
      return;
    }
    var i := DecimalDigits(num, dest);
    dest[i] := '\0';
  }

  /** The loop of itoa. */
  method DecimalDigits(num: nat, dest: array<char>) returns (i: nat)
    requires 0 < num < 0x1_0000_0000 && dest.Length > |Numeral(num, 10)|
    modifies dest
    ensures i == |Numeral(num, 10)| && dest[..i] == Numeral(num, 10) && dest[i + 1..] == old(dest[i + 1..])
  {
    hide Power10, Leading, Numeral, Split, Over, Left;
    ghost var n := |Numeral(num, 10)|;
    i := 0;
    var v, divisor := num, 1000000000;
    ghost var k, high := 10, 0;   // what is left of the number is below 10^k
    Billion(num);
    while divisor > 0
      invariant 0 <= k <= 10 && divisor == (if k > 0 then Power10(k - 1) else 0)
      invariant v >= 0 && Split(num, high, k, v)
      invariant i <= n && dest[..i] == Leading(high, 10) && (i == 0 <==> high == 0)
      invariant dest[n + 1..] == old(dest[n + 1..])
      decreases k
    {
      NextPower(k - 1);
      var digit, rest := Over(v, divisor), Left(v, divisor);
      ItoaStep(num, high, k, v, divisor, digit, rest);
      if digit != 0 || i > 0 {
        TailOf(dest[..], i, n);
        Put(dest, i, CharAt(digit));
        TailOf(dest[..], i, n);
        i := i + 1;
      }
      v := rest;
      divisor := divisor / 10;
      high := high * 10 + digit;
      k := k - 1;
    }
    AllWritten(num, high, v);
  }

  /** Unsigned `/` and `%`. */
  function Over(v: nat, m: nat): (q: nat)
    requires m > 0
  {
    Divided(v, m);
    v / m
  }

  function Left(v: nat, m: nat): (r: nat)
    requires m > 0
    ensures v == Over(v, m) * m + r && r < m
  {
    Divided(v, m);
    v % m
  }

  /** `high` is the number without its last `k` digits, and `v` those digits. */
  predicate Split(num: nat, high: nat, k: nat, v: nat) {
    num == high * Power10(k) + v && v < Power10(k)
  }

  lemma Billion(num: nat)
    ensures Power10(9) == 1_000_000_000 && Power10(10) == 10_000_000_000 && Leading(0, 10) == []
    ensures num < Power10(10) ==> Split(num, 0, 10, num)
  {
    assert Power10(3) == 1000;
    assert Power10(6) == 1_000_000;
  }

  lemma AllWritten(num: nat, high: nat, v: nat)
    requires Split(num, high, 0, v) && num > 0
    ensures high == num && Leading(high, 10) == Numeral(num, 10)
  {
  }

  /** One round of itoa: `d` is the next digit and `r` what is left after it. */
  lemma ItoaStep(num: nat, high: nat, k: nat, v: nat, m: nat, d: nat, r: nat)
    requires k > 0 && Split(num, high, k, v) && m == Power10(k - 1) && v == d * m + r && r < m
    ensures d < 10 && Split(num, high * 10 + d, k - 1, r)
    ensures Leading(high * 10 + d, 10) == if high == 0 && d == 0 then [] else Leading(high, 10) + [CharAt(d)]
    ensures high > 0 || d > 0 ==> |Leading(high * 10 + d, 10)| <= |Numeral(num, 10)|
  {
    hide Leading, Numeral, DigitChar;
    DigitStep(high, v, m, d, r);
    DigitRoundTrip(d);
    LeadingStep(high, d, 10);
    if high > 0 || d > 0 {
      LengthAt(num, high * 10 + d, k - 1, r);
      LeadingOfPositive(high * 10 + d, 10);
    }
  }

  lemma NextPower(k: nat)
    ensures Power10(k) / 10 == if k > 0 then Power10(k - 1) else 0
  {
  }

  function Power10(k: nat): (r: nat)
    ensures r > 0
  {
    if k == 0 then 1 else 10 * Power10(k - 1)
  }

  /** Splitting the top digit off what is left. */
  lemma DigitStep(high: nat, v: nat, m: nat, d: nat, r: nat)
    requires v == d * m + r && r < m && v < 10 * m
    ensures d < 10 && high * (10 * m) + v == (high * 10 + d) * m + r
  {
    TimesOrder(10, d, m);
    assert (high * 10 + d) * m == high * (10 * m) + d * m;
  }

  /** Division by a positive number, for all that the loop needs. */
  lemma Divided(v: nat, m: nat)
    requires m > 0
    ensures v / m >= 0 && v % m >= 0 && v == v / m * m + v % m && v % m < m
  {
  }

  /** A number of which `k` digits are left to write. */
  lemma {:induction false} LengthAt(n: nat, high: nat, k: nat, v: nat)
    requires high > 0 && Split(n, high, k, v)
    ensures |Numeral(n, 10)| == |Numeral(high, 10)| + k
    decreases k
  {
    hide Numeral, DigitChar;
    if k > 0 {
      var m := Power10(k - 1);
      Divided(v, m);
      var d, r := v / m, v % m;
      DigitStep(high, v, m, d, r);
      AppendDigit(high, d, 10);
      LengthAt(n, high * 10 + d, k - 1, r);
    }
  }

  // ---------------------------------------------------------------- atoi

  /** atoi of a terminated string: the exact signed value, wrapped once to 32 bits, although the code wraps
      after every digit. */
  method Atoi(str: seq<char>, ghost text: string) returns (result: int)
    requires Holds(str, text) && '\0' !in text && forall c :: c in text ==> c as int < 256
    ensures result == Wrap32(Signed(text))
  {
    hide Accumulated, Wrap32;
    EmptySum(text[SignLength(text)..SignLength(text)]);
    WrapZero();
    var res, sign, i := 0, 1, 0;
    if str[i] == '-' {
      sign := -1;
      i := i + 1;
    } else if str[i] == '+' {
      i := i + 1;
    }
    ghost var from := SignLength(text);
    while str[i] != '\0'
      invariant from <= i <= |text| && res == Wrap32(Accumulated(text[from..i]))
      decreases |text| - i
    {
      assert str[i] == text[i];
      AccumulatedNext(text, from, i);
      WrapStep(Accumulated(text[from..i]), SignedChar(str[i]) - '0' as int);
      res := Wrap32(res * 10 + (SignedChar(str[i]) - '0' as int));
      i := i + 1;
    }
    assert text[from..i] == text[from..];
    WrapNegate(Accumulated(text[from..]));
    result := Wrap32(sign * res);
  }

  lemma WrapZero()
    ensures Wrap32(0) == 0
  {
  }

  lemma AccumulatedNext(text: string, from: nat, i: nat)
    requires from <= i < |text|
    ensures Accumulated(text[from..i + 1]) == Accumulated(text[from..i]) * 10 + (SignedChar(text[i]) - '0' as int)
  {
    var next := text[from..i + 1];
    assert next[|next| - 1] == text[i];
    assert next[..|next| - 1] == text[from..i];
  }

  lemma WrapStep(x: int, d: int)
    ensures Wrap32(Wrap32(x) * 10 + d) == Wrap32(x * 10 + d)
  {
    var k := (x + 0x8000_0000) / 0x1_0000_0000;
    assert Wrap32(x) == x - 0x1_0000_0000 * k;
  }

  lemma WrapNegate(x: int)
    ensures Wrap32(-Wrap32(x)) == Wrap32(-x) && Wrap32(Wrap32(x)) == Wrap32(x)
  {
    var k := (x + 0x8000_0000) / 0x1_0000_0000;
    assert Wrap32(x) == x - 0x1_0000_0000 * k;
  }

  /** int_to_str followed by atoi. */
  method DecimalRoundTrip(num: int) returns (result: int)
    requires InInt32(num)
    ensures result == num
  {
    AtoiUndoesIntText(num);
    var buffer := new char[13];
    TextFits(num);
    IntToStr(num, buffer);
    result := Atoi(buffer[..], IntText(num));
  }

  lemma TextFits(n: int)
    requires InInt32(n)
    ensures |IntText(n)| <= 11
  {
    Billion(0);
    AbsTextFits(if n < 0 then Wrap32(-n) else n, 10);
  }

  lemma {:induction false} AbsTextFits(x: int, k: nat)
    requires 0 - Power10(k) < x < Power10(k)
    ensures |DigitsOf(x)| <= k
    decreases k
  {
    if x != 0 {
      AbsTextFits(Quot10(x), k - 1);
    }
  }
}
