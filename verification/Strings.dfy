/** Strrev and Itoa of the kernel (Common/Kernel/Libraries/String.c). */
module Strings {
  import opened Limits
  import opened Bits

  const REFERENCE := "0123456789ABCDEFGHIJKLMNOPQRSTUVWXYZ"

  // What a numeral is, and what it stands for

  function Digit(c: char): int {
    if '0' <= c <= '9' then c as int - '0' as int
    else if 'A' <= c <= 'Z' then c as int - 'A' as int + 10
    else -1
  }

  predicate IsDigit(c: char, base: nat) { 0 <= Digit(c) < base }

  function Value(s: string, base: nat): int {
    if s == [] then 0 else Value(s[..|s| - 1], base) * base + Digit(s[|s| - 1])
  }

  /** Digits of that base, and no zero in front of others. */
  predicate IsNumeral(s: string, base: nat) {
    && s != [] && (forall i | 0 <= i < |s| :: IsDigit(s[i], base))
    && (|s| > 1 ==> s[0] != '0')
  }

  lemma ZeroIsOnlyZero(c: char)
    ensures Digit(c) == 0 <==> c == '0'
  {
  }

  lemma SameDigit(c: char, d: char)
    requires Digit(c) == Digit(d) >= 0
    ensures c == d
  {
  }

  lemma PrefixIsNumeral(s: string, base: nat)
    requires |s| > 1 && IsNumeral(s, base)
    ensures IsNumeral(s[..|s| - 1], base)
  {
    var t := s[..|s| - 1];
    forall i | 0 <= i < |t|
      ensures IsDigit(t[i], base)
    {
      assert t[i] == s[i] && IsDigit(s[i], base);
    }
  }

  lemma TimesBase(x: nat, base: nat)
    requires x >= 1
    ensures x * base >= base
  {
  }

  lemma {:induction false} ValueBounds(s: string, base: nat)
    requires IsNumeral(s, base)
    ensures Value(s, base) >= 0
    ensures |s| > 1 || s[0] != '0' ==> Value(s, base) >= 1
    ensures |s| > 1 ==> Value(s, base) >= base
    decreases |s|
  {
    var last := s[|s| - 1];
    assert IsDigit(last, base);
    if |s| > 1 {
      var front := s[..|s| - 1];
      PrefixIsNumeral(s, base);
      ValueBounds(front, base);
      assert front[0] == s[0] != '0';
      TimesBase(Value(front, base), base);
    } else {
      assert Value([], base) == 0 && s[..0] == [];
      ZeroIsOnlyZero(s[0]);
    }
  }

  /** Every number has one numeral only. */
  lemma {:induction false} NumeralsAreUnique(s: string, t: string, base: nat)
    requires IsNumeral(s, base) && IsNumeral(t, base) && Value(s, base) == Value(t, base)
    ensures s == t
    decreases |s| + |t|
  {
    var front, rest := s[..|s| - 1], t[..|t| - 1];
    var x, y := s[|s| - 1], t[|t| - 1];
    assert IsDigit(x, base) && IsDigit(y, base);
    assert s == front + [x] && t == rest + [y];
    ValueBounds(s, base);
    ValueBounds(t, base);
    if |s| > 1 && |t| > 1 {
      PrefixIsNumeral(s, base);
      PrefixIsNumeral(t, base);
      ValueBounds(front, base);
      ValueBounds(rest, base);
      SameQuotient(Value(front, base), Digit(x), Value(rest, base), Digit(y), base);
      SameDigit(x, y);
      NumeralsAreUnique(front, rest, base);
    } else {
      OneDigit(s, base);
      OneDigit(t, base);
      SameDigit(x, y);
    }
  }

  lemma OneDigit(s: string, base: nat)
    requires IsNumeral(s, base)
    ensures |s| == 1 ==> Value(s, base) == Digit(s[0]) < base
  {
    assert IsDigit(s[0], base);
    if |s| == 1 {
      assert s[..0] == [] && Value([], base) == 0;
    }
  }

  lemma SameQuotient(p: nat, q: nat, p': nat, q': nat, base: nat)
    requires q < base && q' < base && p * base + q == p' * base + q'
    ensures p == p' && q == q'
  {
    DivModUnique(p * base + q, base, p, q);
    DivModUnique(p' * base + q', base, p', q');
  }

  // What the code writes

  function Reverse(s: string): (r: string)
    ensures |r| == |s|
  {
    if s == [] then [] else Reverse(s[1..]) + [s[0]]
  }

  lemma {:induction false} ReverseAt(s: string, k: nat)
    requires k < |s|
    ensures Reverse(s)[k] == s[|s| - 1 - k]
  {
    if k < |s| - 1 {
      ReverseAt(s[1..], k);
    }
  }

  function Quotient(n: nat, base: nat): (q: nat)
    requires base >= 2
    ensures n > 0 ==> q < n
  {
    if n > 0 then Smaller(n, base); n / base else 0
  }

  lemma Smaller(n: nat, base: nat)
    requires base >= 2 && n > 0
    ensures 0 <= n / base < n && n == base * (n / base) + n % base
  {
    assert n == base * (n / base) + n % base;
  }

  lemma QuotientIs(n: nat, base: nat)
    requires base >= 2 && n > 0
    ensures var q := Quotient(n, base);
      n == q * base + n % base && n % base < base && 2 * q <= n && (q == 0 ==> n % base == n)
  {
    var q, r := n / base, n % base;
    Smaller(n, base);
    AtLeastTwice(q, base);
  }

  lemma AtLeastTwice(q: nat, base: nat)
    requires base >= 2
    ensures base * q >= 2 * q && base * q == q * base
  {
  }

  function DigitChar(i: nat): char
    requires i < 36
  {
    REFERENCE[i]
  }

  /** The digits, lowest first. */
  function Digits(n: nat, base: nat): string
    requires 2 <= base <= 36
    decreases n
  {
    if n == 0 then [] else [DigitChar(n % base)] + Digits(Quotient(n, base), base)
  }

  /** What Itoa is for: the numeral of a number. */
  function Numeral(n: nat, base: nat): string
    requires 2 <= base <= 36
  {
    if n == 0 then "0" else Reverse(Digits(n, base))
  }

  lemma ReferenceDigit(i: nat)
    requires i < 36
    ensures Digit(DigitChar(i)) == i
  {
  }

  /** A digit after a numeral makes a numeral. */
  lemma AppendDigit(front: string, c: char, base: nat)
    requires IsDigit(c, base) && (if front == [] then c != '0' else IsNumeral(front, base) && front[0] != '0')
    ensures IsNumeral(front + [c], base) && (front + [c])[0] != '0'
    ensures Value(front + [c], base) == Value(front, base) * base + Digit(c)
  {
    var s := front + [c];
    assert s[..|s| - 1] == front;
    forall i | 0 <= i < |s|
      ensures IsDigit(s[i], base)
    {
      if i < |front| {
        assert IsDigit(front[i], base);
      }
    }
  }

  lemma {:induction false} DigitsAreNumeral(n: nat, base: nat)
    requires 2 <= base <= 36 && n > 0
    ensures IsNumeral(Reverse(Digits(n, base)), base) && Reverse(Digits(n, base))[0] != '0'
    ensures Value(Reverse(Digits(n, base)), base) == n
    decreases n
  {
    hide IsNumeral, Digit, Value, Quotient, DigitChar;
    var q, r := Quotient(n, base), n % base;
    QuotientIs(n, base);
    DigitParts(n, base, q, r);
    if q > 0 {
      DigitsAreNumeral(q, base);
    } else {
      NothingIsZero(base);
    }
    AppendDigit(Reverse(Digits(q, base)), DigitChar(r), base);
  }

  lemma NothingIsZero(base: nat)
    ensures Value([], base) == 0
  {
  }

  lemma DigitParts(n: nat, base: nat, q: nat, r: nat)
    requires 2 <= base <= 36 && n > 0 && q == Quotient(n, base) && r == n % base
    ensures Reverse(Digits(n, base)) == Reverse(Digits(q, base)) + [DigitChar(r)]
    ensures IsDigit(DigitChar(r), base) && Digit(DigitChar(r)) == r
    ensures n == q * base + r && (q == 0 ==> Reverse(Digits(q, base)) == [] && DigitChar(r) != '0')
    ensures q > 0 ==> Reverse(Digits(q, base)) != []
  {
    hide Quotient, DigitChar, Digit;
    QuotientIs(n, base);
    ReferenceDigit(r);
    ZeroIsOnlyZero(DigitChar(r));
    assert Digits(n, base)[1..] == Digits(q, base);
  }

  /** The numeral parses back to the number, and is the only one that does. */
  lemma NumeralExactly(n: nat, base: nat, s: string)
    requires 2 <= base <= 36 && IsNumeral(s, base)
    ensures Value(s, base) == n <==> s == Numeral(n, base)
  {
    if n == 0 {
      assert "0"[..0] == [] && Value([], base) == 0;
    } else {
      DigitsAreNumeral(n, base);
    }
    if Value(s, base) == n {
      NumeralsAreUnique(s, Numeral(n, base), base);
    }
  }

  lemma NumeralIsNumeral(n: nat, base: nat)
    requires 2 <= base <= 36
    ensures IsNumeral(Numeral(n, base), base) && Value(Numeral(n, base), base) == n
  {
    if n == 0 {
      assert "0"[..0] == [] && Value([], base) == 0;
    } else {
      DigitsAreNumeral(n, base);
    }
  }

  /** For example, letters stand for the digits from ten on. */
  lemma DigitsOfTheirOwn()
    ensures Numeral(0xBEEF, 16) == "BEEF" && Numeral(35, 36) == "Z" && Numeral(5, 2) == "101"
      && Numeral(907, 10) == "907"
  {
    assert IsNumeral("BEEF", 16) && IsNumeral("Z", 36) && IsNumeral("101", 2) && IsNumeral("907", 10);
    ThreeOrFour();
    NumeralExactly(0xBEEF, 16, "BEEF");
    NumeralExactly(35, 36, "Z");
    NumeralExactly(5, 2, "101");
    NumeralExactly(907, 10, "907");
  }

  lemma ThreeOrFour()
    ensures Value("BEEF", 16) == 0xBEEF && Value("Z", 36) == 35 && Value("101", 2) == 5 && Value("907", 10) == 907
  {
    assert "BEEF"[..3] == "BEE" && "BEE"[..2] == "BE" && "BE"[..1] == "B" && "B"[..0] == "";
    assert "101"[..2] == "10" && "10"[..1] == "1" && "1"[..0] == "" && "Z"[..0] == "";
    assert "907"[..2] == "90" && "90"[..1] == "9" && "9"[..0] == "";
    assert Value("", 16) == Value("", 36) == Value("", 2) == Value("", 10) == 0;
    assert Value("B", 16) == 11 && Value("BE", 16) == 190 && Value("BEE", 16) == 3054;
    assert Value("1", 2) == 1 && Value("10", 2) == 2 && Value("9", 10) == 9 && Value("90", 10) == 90;
  }

  lemma {:induction false} DigitCount(n: nat, base: nat, k: nat)
    requires 2 <= base <= 36 && n < Pow2(k)
    ensures |Digits(n, base)| <= k
    decreases k
  {
    hide Quotient, DigitChar;
    if n > 0 {
      QuotientIs(n, base);
      DigitCount(Quotient(n, base), base, k - 1);
    }
  }

  lemma Pow2Of64()
    ensures Pow2(64) == LIMIT_64
  {
    assert Pow2(8) == 256;
    assert Pow2(16) == 65536;
    assert Pow2(24) == 0x100_0000;
    assert Pow2(32) == 0x1_0000_0000;
    assert Pow2(40) == 0x100_0000_0000;
    assert Pow2(48) == 0x1_0000_0000_0000;
    assert Pow2(56) == 0x100_0000_0000_0000;
  }

  ghost predicate EndsAt(s: string, n: nat) {
    n < |s| && s[n] == '\0' && forall i | 0 <= i < n :: s[i] != '\0'
  }

  method Strlen(str: array<char>, ghost end: nat) returns (length: nat)
    requires EndsAt(str[..], end)
    ensures length == end
  {
    length := 0;
    while str[length] != '\0'
      invariant length <= end
      decreases end - length
    {
      length := length + 1;
    }
  }

  /** Reverses a string in place. */
  method Strrev(str: array<char>, ghost n: nat)
    requires EndsAt(str[..], n)
    modifies str
    ensures str[..n] == Reverse(old(str[..n])) && str[n..] == old(str[n..])
  {
    hide Reverse;
    var length := Strlen(str, n);
    var start, end := 0, length as int - 1;
    while start < end
      invariant start + end == n - 1 && 0 <= start <= end + 2
      invariant forall k | 0 <= k < start :: str[k] == old(str[n - 1 - k]) && str[n - 1 - k] == old(str[k])
      invariant forall k | start <= k <= end :: str[k] == old(str[k])
      invariant forall k | n <= k < str.Length :: str[k] == old(str[k])
    {
      var save := str[start];
      str[start] := str[end];
      str[end] := save;
      start := start + 1;
      end := end - 1;
    }
    IsReversed(str[..n], old(str[..n]));
  }

  lemma IsReversed(s: string, was: string)
    requires |s| == |was| && forall k | 0 <= k < |s| :: s[k] == was[|s| - 1 - k]
    ensures s == Reverse(was)
  {
    forall k | 0 <= k < |s|
      ensures s[k] == Reverse(was)[k]
    {
      ReverseAt(was, k);
    }
  }

  lemma {:induction false} DigitsHaveNoEnd(n: nat, base: nat, i: nat)
    requires 2 <= base <= 36 && i < |Digits(n, base)|
    ensures Digits(n, base)[i] != '\0'
    decreases n
  {
    ReferenceDigit(n % base);
    if i > 0 {
      DigitsHaveNoEnd(Quotient(n, base), base, i - 1);
    }
  }

  lemma NextDigit(before: string, rest: nat, base: nat)
    requires 2 <= base <= 36 && rest > 0
    ensures before + Digits(rest, base) == before + [DigitChar(rest % base)] + Digits(Quotient(rest, base), base)
    ensures |Digits(rest, base)| == 1 + |Digits(Quotient(rest, base), base)|
  {
    hide Quotient, DigitChar;
  }

  lemma NumeralOf(n: nat, base: nat)
    requires 2 <= base <= 36
    ensures Numeral(n, base) == if n == 0 then "0" else Reverse(Digits(n, base))
    ensures Digits(0, base) == []
  {
  }

  lemma DigitsDoNotEnd(s: string, n: nat, number: nat, base: nat)
    requires 2 <= base <= 36 && n < |s| && s[n] == '\0' && s[..n] == Digits(number, base)
    ensures EndsAt(s, n)
  {
    hide Digits;
    forall i | 0 <= i < n
      ensures s[i] != '\0'
    {
      assert s[..n][i] == s[i];
      DigitsHaveNoEnd(number, base, i);
    }
  }

  /** Writes the digits, lowest first. */
  method WriteDigits(number: nat, buffer: array<char>, base: nat) returns (index: nat)
    requires number < LIMIT_64 && buffer.Length >= 65 && 2 <= base <= 36
    modifies buffer
    ensures index == |Digits(number, base)| <= 64 && buffer[..index] == Digits(number, base)
    ensures forall k | index <= k < buffer.Length :: buffer[k] == old(buffer[k])
  {
    hide Digits, Pow2, DigitChar, Quotient;
    NumeralOf(number, base);
    Pow2Of64();
    DigitCount(number, base, 64);
    var rest: nat := number;
    index := 0;
    while rest != 0
      invariant index + |Digits(rest, base)| == |Digits(number, base)|
      invariant Digits(number, base) == buffer[..index] + Digits(rest, base)
      invariant forall k | index <= k < buffer.Length :: buffer[k] == old(buffer[k])
      decreases rest
    {
      var remainder := rest % base;
      ghost var before := buffer[..index];
      NextDigit(before, rest, base);
      rest := Quotient(rest, base);
      buffer[index] := DigitChar(remainder);
      index := index + 1;
      assert buffer[..index] == before + [DigitChar(remainder)];
    }
  }

  /** The numeral of a number, as a string in the buffer, of which no more than 65 characters are written. */
  method Itoa(number: nat, buffer: array<char>, base: nat)
    requires number < LIMIT_64 && buffer.Length >= 65
    modifies buffer
    ensures base < 2 || base > 36 ==> buffer[0] == '\0' && buffer[1..] == old(buffer[1..])
    ensures 2 <= base <= 36 ==>
              var s := Numeral(number, base);
              && IsNumeral(s, base) && Value(s, base) == number
              && |s| <= 64 && buffer[..|s|] == s && buffer[|s|] == '\0' && buffer[|s| + 1..] == old(buffer[|s| + 1..])
  {
    hide Digits, Numeral, EndsAt, IsNumeral, Value;
    if base < 2 || base > 36 {
      buffer[0] := '\0';
      return;
    }
    NumeralOf(number, base);
    NumeralIsNumeral(number, base);
    if number == 0 {
      buffer[0] := '0';
      buffer[1] := '\0';
      return;
    }
    var index := WriteDigits(number, buffer, base);
    buffer[index] := '\0';
    DigitsDoNotEnd(buffer[..], index, number, base);
    Strrev(buffer, index);
  }
}
