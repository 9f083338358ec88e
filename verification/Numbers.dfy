/**
 Number printing: `itoa` and `uitoa` of kernel/lib/string.cpp, which fill a buffer with digits in
 reverse and then turn them round in place, and the zero-padded `%x` of kernel/debug.cpp.
 */
module Numbers {

  /** The digit table of 71 characters, in four pieces: digits 35..18, 17..1, 0..17 and 18..35. */
  const TABLE: string := "zyxwvutsrqponmlkji" + "hgfedcba987654321" + "0123456789abcdefgh" + "ijklmnopqrstuvwxyz"

  const U64: nat := 0x1_0000_0000_0000_0000
  const I64: nat := 0x8000_0000_0000_0000

  function Abs(v: int): nat { if v < 0 then -v else v }

  /** Division and remainder of the source language, which truncate toward zero. */
  function TruncDiv(v: int, base: nat): int
    requires base > 0
  {
    if v < 0 then -(-v / base) else v / base
  }

  function TruncMod(v: int, base: nat): int
    requires base > 0
  {
    if v < 0 then -(-v % base) else v % base
  }

  function DigitChar(d: nat): char
    requires d < 36
  {
    if d < 10 then '0' + d as char else 'a' + (d - 10) as char
  }

  function DigitValue(c: char): int {
    if '0' <= c <= '9' then (c - '0') as int
    else if 'a' <= c <= 'z' then (c - 'a') as int + 10
    else -1
  }

  lemma DigitRoundTrip(d: nat)
    requires d < 36
    ensures DigitValue(DigitChar(d)) == d
    ensures DigitChar(d) != '\0' && DigitChar(d) != '-' && (DigitChar(d) == '0' <==> d == 0)
  {
  }

  /** The table is symmetric about its middle: a negative remainder finds the digit of its magnitude. */
  lemma TableDigit(m: int)
    requires -36 < m < 36
    ensures |TABLE| == 71 && TABLE[35 + m] == DigitChar(Abs(m))
  {
    Piece0("zyxwvutsrqponmlkji", 35 + m);
    Piece1("hgfedcba987654321", 17 + m);
    Piece2("0123456789abcdefgh", m);
    Piece3("ijklmnopqrstuvwxyz", m - 18);
  }

  lemma Piece0(t: string, i: int)
    requires t == "zyxwvutsrqponmlkji"
    ensures |t| == 18 && (0 <= i < 18 ==> t[i] == DigitChar(35 - i))
  {
  }

  lemma Piece1(t: string, i: int)
    requires t == "hgfedcba987654321"
    ensures |t| == 17 && (0 <= i < 17 ==> t[i] == DigitChar(17 - i))
  {
  }

  lemma Piece2(t: string, i: int)
    requires t == "0123456789abcdefgh"
    ensures |t| == 18 && (0 <= i < 18 ==> t[i] == DigitChar(i))
  {
  }

  lemma Piece3(t: string, i: int)
    requires t == "ijklmnopqrstuvwxyz"
    ensures |t| == 18 && (0 <= i < 18 ==> t[i] == DigitChar(18 + i))
  {
  }

  // ---------- numerals ----------

  predicate GoodBase(base: int) { 2 <= base <= 36 }

  function Quot(v: nat, base: nat): (q: nat)
    requires GoodBase(base)
    ensures q <= v && (v > 0 ==> q < v)
  {
    v / base
  }

  function Rem(v: nat, base: nat): (m: nat)
    requires GoodBase(base)
    ensures m < base && m <= v
  {
    v % base
  }

  /** The numeral of v, most significant digit first. */
  function Digits(v: nat, base: nat): (s: string)
    requires GoodBase(base)
    ensures |s| >= 1
    decreases v
  {
    (if Quot(v, base) == 0 then [] else Digits(Quot(v, base), base)) + [DigitChar(Rem(v, base))]
  }

  /** The digits in the order in which the loop produces them. */
  function Reversed(s: string): string {
    if s == [] then [] else Reversed(s[1..]) + [s[0]]
  }

  lemma {:induction false} ReversedAt(s: string, k: nat)
    requires k < |s|
    ensures |Reversed(s)| == |s| && Reversed(s)[k] == s[|s| - 1 - k]
  {
    if |s| > 1 {
      ReversedAt(s[1..], if k < |s| - 1 then k else 0);
    }
  }

  lemma {:induction false} ReversedLength(s: string)
    ensures |Reversed(s)| == |s|
  {
    if s != [] {
      ReversedLength(s[1..]);
    }
  }

  lemma {:induction false} ReversedSnoc(s: string, c: char)
    ensures Reversed(s + [c]) == [c] + Reversed(s)
  {
    if s == [] {
      assert [c][1..] == [];
    } else {
      assert (s + [c])[1..] == s[1..] + [c];
      ReversedSnoc(s[1..], c);
    }
  }

  lemma ReversedTwice(s: string)
    ensures Reversed(Reversed(s)) == s
  {
    ReversedLength(s);
    ReversedLength(Reversed(s));
    forall k | 0 <= k < |s|
      ensures Reversed(Reversed(s))[k] == s[k]
    {
      ReversedAt(Reversed(s), k);
      ReversedAt(s, |s| - 1 - k);
    }
  }

  /** Reading a numeral back. */
  function Parse(s: string, base: nat): int {
    if s == [] then 0 else Parse(s[..|s| - 1], base) * base + DigitValue(s[|s| - 1])
  }

  lemma ParseSnoc(s: string, c: char, base: nat)
    ensures Parse(s + [c], base) == Parse(s, base) * base + DigitValue(c)
  {
    assert (s + [c])[..|s|] == s;
  }

  lemma DivMod(v: nat, base: nat)
    requires GoodBase(base)
    ensures Quot(v, base) * base + Rem(v, base) == v
  {
  }

  /** The numeral denotes the number: for every base from 2 to 36 it reads back to the value. */
  lemma {:induction false} ParseDigits(v: nat, base: nat)
    requires GoodBase(base)
    ensures Parse(Digits(v, base), base) == v
    decreases v
  {
    hide Parse, DigitChar, DigitValue, Quot, Rem;
    DivMod(v, base);
    var q, m := Quot(v, base), Rem(v, base);
    var front := if q == 0 then [] else Digits(q, base);
    if q != 0 {
      ParseDigits(q, base);
    } else {
      ParseEmpty(base);
    }
    ParseSnoc(front, DigitChar(m), base);
    DigitRoundTrip(m);
    assert Parse(front, base) == q;
  }

  lemma ParseEmpty(base: nat)
    ensures Parse("", base) == 0
  {
  }

  /** No leading zero, except for zero itself, and nothing but digits. */
  lemma {:induction false} DigitsCanonical(v: nat, base: nat)
    requires GoodBase(base)
    ensures v > 0 ==> Digits(v, base)[0] != '0'
    ensures v == 0 ==> Digits(v, base) == "0"
    ensures forall k :: 0 <= k < |Digits(v, base)| ==> 0 <= DigitValue(Digits(v, base)[k]) < base
    ensures '\0' !in Digits(v, base) && '-' !in Digits(v, base)
    decreases v
  {
    hide DigitChar, DigitValue, Quot, Rem;
    DivMod(v, base);
    var q, m := Quot(v, base), Rem(v, base);
    DigitRoundTrip(m);
    if q != 0 {
      DigitsCanonical(q, base);
    }
  }

  function Pow(b: nat, k: nat): nat { if k == 0 then 1 else b * Pow(b, k - 1) }

  lemma {:induction false} PowAdd(b: nat, j: nat, k: nat)
    ensures Pow(b, j + k) == Pow(b, j) * Pow(b, k)
  {
    if j > 0 {
      PowAdd(b, j - 1, k);
      assert j - 1 + k == j + k - 1;
      MulAssociates(b, Pow(b, j - 1), Pow(b, k));
    }
  }

  lemma MulAssociates(x: nat, y: nat, z: nat)
    ensures x * (y * z) == (x * y) * z
  {
  }

  lemma PowDouble(b: nat, j: nat, p: nat)
    requires Pow(b, j) == p
    ensures Pow(b, 2 * j) == p * p
  {
    PowAdd(b, j, j);
  }

  lemma PowersReach64Bits()
    ensures Pow(8, 22) >= U64 && Pow(10, 20) >= U64 && Pow(16, 16) == U64
  {
    PowDouble(16, 2, 0x100);
    PowDouble(16, 4, 0x1_0000);
    PowDouble(16, 8, 0x1_0000_0000);
    PowDouble(10, 2, 100);
    PowDouble(10, 4, 10_000);
    PowDouble(10, 8, 100_000_000);
    PowAdd(10, 16, 4);
    PowDouble(8, 2, 64);
    PowDouble(8, 4, 4096);
    PowDouble(8, 8, 0x100_0000);
    PowAdd(8, 16, 4);
    PowAdd(8, 20, 2);
  }

  lemma {:induction false} DigitsLength(v: nat, base: nat, k: nat)
    requires GoodBase(base) && k > 0 && v < Pow(base, k)
    ensures |Digits(v, base)| <= k
    decreases v
  {
    hide Quot, Rem, DigitChar;
    var q := Quot(v, base);
    if q != 0 {
      QuotientBelow(v, base, Pow(base, k - 1));
      DigitsLength(q, base, k - 1);
    }
  }

  lemma QuotientBelow(v: nat, base: nat, p: nat)
    requires GoodBase(base) && v < base * p
    ensures Quot(v, base) < p
  {
    DivMod(v, base);
    var q := Quot(v, base);
    hide Quot, Rem;
    assert q * base <= v;
    MulMonotone(p, q, base);
  }

  lemma MulMonotone(p: nat, q: nat, base: nat)
    ensures p <= q ==> base * p <= q * base
  {
  }

  // ---------- itoa and uitoa ----------

  /** What `itoa` prints: a sign only for negative decimals, and the digits of the magnitude. */
  function SignedText(v: int, base: nat): string
    requires GoodBase(base)
  {
    (if v < 0 && base == 10 then "-" else "") + Digits(Abs(v), base)
  }

  function ParseSigned(s: string): int {
    if |s| > 0 && s[0] == '-' then -Parse(s[1..], 10) else Parse(s, 10)
  }

  /** Decimal `itoa` is faithful on every integer; other bases keep the magnitude only. */
  lemma SignedRoundTrip(v: int, base: nat)
    requires GoodBase(base)
    ensures base == 10 ==> ParseSigned(SignedText(v, 10)) == v
    ensures base != 10 ==> Parse(SignedText(v, base), base) == Abs(v) && SignedText(v, base) == SignedText(-v, base)
  {
    ParseDigits(Abs(v), base);
    DigitsCanonical(Abs(v), base);
    var s := SignedText(v, base);
    if base == 10 && v < 0 {
      assert s[1..] == Digits(Abs(v), base);
    } else {
      assert s == Digits(Abs(v), base);
      assert s[0] in s;
    }
  }

  /** A text of digits of the base, with no leading zero unless it is just "0". */
  predicate Numeral(s: string, base: nat) {
    && |s| > 0 && (s[0] == '0' ==> s == "0")
    && forall k :: 0 <= k < |s| ==> 0 <= DigitValue(s[k]) < base
  }

  lemma DigitsAreNumeral(v: nat, base: nat)
    requires GoodBase(base)
    ensures Numeral(Digits(v, base), base) && Digits(v, base)[0] != '-'
    ensures Digits(v, base) == "0" <==> v == 0
  {
    hide Digits, DigitValue;
    DigitsCanonical(v, base);
    assert Digits(v, base)[0] in Digits(v, base);
  }

  lemma CharOfDigit(c: char, base: nat)
    requires GoodBase(base) && 0 <= DigitValue(c) < base
    ensures DigitChar(DigitValue(c)) == c
  {
  }

  lemma QuotRem(q: nat, d: nat, base: nat)
    requires GoodBase(base) && d < base
    ensures Quot(q * base + d, base) == q && Rem(q * base + d, base) == d
  {
    var v := q * base + d;
    DivMod(v, base);
    var q', d' := Quot(v, base), Rem(v, base);
    hide Quot, Rem;
    assert (q' - q) * base == d - d';
    SmallMultiple(q' - q, base);
  }

  lemma SmallMultiple(x: int, base: int)
    requires base > 0 && -base < x * base < base
    ensures x == 0
  {
  }

  /** A number has one numeral only: every numeral is the one that the digits of its value make up. */
  lemma {:induction false} NumeralIsUnique(s: string, base: nat)
    requires GoodBase(base) && Numeral(s, base)
    ensures Parse(s, base) >= 0 && s == Digits(Parse(s, base), base)
    decreases |s|
  {
    hide DigitValue, DigitChar, Quot, Rem, Digits, Parse;
    var front, c := s[..|s| - 1], s[|s| - 1];
    assert s == front + [c];
    ParseSnoc(front, c, base);
    CharOfDigit(c, base);
    var d := DigitValue(c);
    if front == [] {
      ParseEmpty(base);
      QuotRem(0, d, base);
      DigitsStep(0, d, base);
    } else {
      assert front[0] == s[0];
      NumeralIsUnique(front, base);
      DigitsAreNumeral(Parse(front, base), base);
      QuotRem(Parse(front, base), d, base);
      DigitsStep(Parse(front, base), d, base);
    }
  }

  lemma DigitsStep(q: nat, d: nat, base: nat)
    requires GoodBase(base) && d < base
    requires Quot(q * base + d, base) == q && Rem(q * base + d, base) == d
    ensures Digits(q * base + d, base) == (if q == 0 then [] else Digits(q, base)) + [DigitChar(d)]
  {
    hide Quot, Rem, DigitChar;
  }

  /** The shape of the printed text: a minus sign exactly for negative decimals, and then a numeral. */
  lemma SignedTextShape(v: int, base: nat)
    requires GoodBase(base)
    ensures var s := SignedText(v, base);
            && |s| > 0 && (s[0] == '-' <==> v < 0 && base == 10)
            && Numeral(if s[0] == '-' then s[1..] else s, base)
  {
    hide Digits, Numeral;
    DigitsAreNumeral(Abs(v), base);
    var digits := Digits(Abs(v), base);
    if v < 0 && base == 10 {
      assert SignedText(v, base)[1..] == digits;
    } else {
      assert SignedText(v, base) == digits;
    }
  }

  /** With a sign in front of anything but zero, that shape leaves one text for a value. */
  lemma SignedTextIsUnique(s: string)
    requires |s| > 0
    ensures Numeral(s, 10) ==> s == SignedText(ParseSigned(s), 10)
    ensures s[0] == '-' && Numeral(s[1..], 10) && s[1..] != "0" ==> s == SignedText(ParseSigned(s), 10)
  {
    hide Digits, Parse;
    if Numeral(s, 10) {
      NumeralIsUnique(s, 10);
    }
    if s[0] == '-' && Numeral(s[1..], 10) && s[1..] != "0" {
      NumeralIsUnique(s[1..], 10);
      DigitsAreNumeral(Parse(s[1..], 10), 10);
      assert s == "-" + s[1..];
    }
  }

  /** The numerals of the conversions that `kprintf` offers fit its 32-byte buffer, terminator included. */
  lemma BufferSuffices(v: int, base: nat)
    requires base == 8 || base == 10 || base == 16
    requires -(I64 as int) <= v < U64
    ensures |SignedText(v, base)| + 1 <= 32
    ensures base == 16 ==> |Digits(Abs(v), 16)| <= 16
  {
    PowersReach64Bits();
    DigitsLength(Abs(v), base, if base == 8 then 22 else if base == 10 then 20 else 16);
  }

  /** The conversion loop: the digits of |value| from `low` on, least significant first. */
  method WriteDigits(value: int, str: array<char>, low: nat, base: nat) returns (ptr: nat)
    requires GoodBase(base) && low + |Digits(Abs(value), base)| <= str.Length
    modifies str
    ensures ptr == low + |Digits(Abs(value), base)|
    ensures str[low..ptr] == Reversed(Digits(Abs(value), base))
    ensures forall k :: 0 <= k < str.Length && !(low <= k < ptr) ==> str[k] == old(str[k])
  {
    hide *;
    var v := value;
    ptr := low;
    var again := true;
    ghost var all := Reversed(Digits(Abs(value), base));
    ReversedLength(Digits(Abs(value), base));
    ghost var n := 0;
    while again
      invariant n <= |all| && ptr == low + n && low + |all| <= str.Length
      invariant all[n..] == if again then Reversed(Digits(Abs(v), base)) else []
      invariant forall k :: 0 <= k < n ==> str[low + k] == all[k]
      invariant forall k :: 0 <= k < str.Length && !(low <= k < ptr) ==> str[k] == old(str[k])
      decreases again, Abs(v)
    {
      var c;
      c, v := NextChar(v, base);
      assert all[n] == all[n..][0] == c && all[n + 1..] == all[n..][1..];
      str[ptr] := c;
      ptr := ptr + 1;
      n := n + 1;
      again := v != 0;
    }
    assert str[low..ptr] == all;
  }

  /** The two statements of the loop: the character for the last digit, and the value without it. */
  method NextChar(v: int, base: nat) returns (c: char, rest: int)
    requires GoodBase(base)
    ensures v != 0 ==> Abs(rest) < Abs(v)
    ensures v == 0 ==> rest == 0
    ensures Reversed(Digits(Abs(v), base)) == [c] + if rest == 0 then [] else Reversed(Digits(Abs(rest), base))
  {
    hide Digits, Reversed, DigitChar, Quot, Rem, TruncMod, TruncDiv;
    TruncMagnitude(v, base);
    LastDigitFirst(Abs(v), base);
    TableDigit(TruncMod(v, base));
    c := TABLE[35 + TruncMod(v, base)];
    rest := TruncDiv(v, base);
  }

  /** The last digit comes first in the reversed numeral. */
  lemma LastDigitFirst(v: nat, base: nat)
    requires GoodBase(base)
    ensures Reversed(Digits(v, base))
            == [DigitChar(Rem(v, base))]
               + if Quot(v, base) == 0 then [] else Reversed(Digits(Quot(v, base), base))
  {
    hide Reversed, DigitChar, Quot, Rem;
    var q, m := Quot(v, base), Rem(v, base);
    ReversedSnoc(if q == 0 then [] else Digits(q, base), DigitChar(m));
    ReversedEmpty();
  }

  lemma ReversedEmpty()
    ensures Reversed("") == ""
  {
  }

  /** Truncating division acts on the magnitude. */
  lemma TruncMagnitude(v: int, base: nat)
    requires GoodBase(base)
    ensures Abs(TruncMod(v, base)) == Rem(Abs(v), base) && Abs(TruncDiv(v, base)) == Quot(Abs(v), base)
  {
  }

  /** The in-place reversal of the characters from `low` up to and including `high`. */
  method ReverseBetween(str: array<char>, low: nat, high: nat)
    requires low <= high < str.Length
    modifies str
    ensures str[low..high + 1] == Reversed(old(str[low..high + 1]))
    ensures forall k :: 0 <= k < str.Length && !(low <= k <= high) ==> str[k] == old(str[k])
  {
    var l, p := low, high;
    while l < p
      invariant low <= l <= p + 1 && p <= high && l - low == high - p
      invariant forall k :: low <= k < l ==> str[k] == old(str[low + high - k])
      invariant forall k :: p < k <= high ==> str[k] == old(str[low + high - k])
      invariant forall k :: l <= k <= p ==> str[k] == old(str[k])
      invariant forall k :: 0 <= k < str.Length && !(low <= k <= high) ==> str[k] == old(str[k])
    {
      var tmp := str[l];
      str[l] := str[p];
      str[p] := tmp;
      l := l + 1;
      p := p - 1;
    }
    ghost var was, now := old(str[low..high + 1]), str[low..high + 1];
    forall k | 0 <= k < |was|
      ensures now[k] == was[|was| - 1 - k]
    {
      assert str[low + k] == old(str[high - k]);
    }
    MirroredIsReversed(was, now);
  }

  lemma MirroredIsReversed(was: string, now: string)
    requires |now| == |was| && forall k :: 0 <= k < |was| ==> now[k] == was[|was| - 1 - k]
    ensures now == Reversed(was)
  {
    ReversedLength(was);
    forall k | 0 <= k < |was|
      ensures now[k] == Reversed(was)[k]
    {
      ReversedAt(was, k);
    }
  }

  /** Digits, terminator, reversal: the part that `itoa` and `uitoa` have in common. */
  method PrintFrom(value: int, str: array<char>, low: nat, base: nat)
    requires GoodBase(base) && low + |Digits(Abs(value), base)| < str.Length
    modifies str
    ensures var n := low + |Digits(Abs(value), base)|;
            && str[low..n] == Digits(Abs(value), base) && str[n] == '\0'
            && forall k :: 0 <= k < str.Length && !(low <= k <= n) ==> str[k] == old(str[k])
  {
    var ptr := WriteDigits(value, str, low, base);
    ghost var digits := Digits(Abs(value), base);
    str[ptr] := '\0';
    assert str[low..ptr] == Reversed(digits);
    ReverseBetween(str, low, ptr - 1);
    ReversedTwice(digits);
  }

  /** `uitoa`: an unsupported base leaves the empty string. */
  method Uitoa(value: nat, str: array<char>, base: nat)
    requires str.Length > if GoodBase(base) then |Digits(value, base)| else 0
    modifies str
    ensures !GoodBase(base) ==> str[0] == '\0' && forall k :: 1 <= k < str.Length ==> str[k] == old(str[k])
    ensures GoodBase(base) ==>
              var n := |Digits(value, base)|;
              && str[..n] == Digits(value, base) && str[n] == '\0'
              && forall k :: n < k < str.Length ==> str[k] == old(str[k])
  {
    if base < 2 || base > 36 {
      str[0] := '\0';
      return;
    }
    PrintFrom(value, str, 0, base);
  }

  /** `itoa`, for any integer and any base. */
  method Itoa(value: int, str: array<char>, base: int)
    requires str.Length > if GoodBase(base) then |SignedText(value, base)| else 0
    modifies str
    ensures !GoodBase(base) ==> str[0] == '\0' && forall k :: 1 <= k < str.Length ==> str[k] == old(str[k])
    ensures GoodBase(base) ==>
              var n := |SignedText(value, base)|;
              && str[..n] == SignedText(value, base) && str[n] == '\0'
              && forall k :: n < k < str.Length ==> str[k] == old(str[k])
  {
    if base < 2 || base > 36 {
      str[0] := '\0';
      return;
    }
    var ptr := 0;
    if value < 0 && base == 10 {
      str[ptr] := '-';
      ptr := ptr + 1;
    }
    PrintFrom(value, str, ptr, base);
    ghost var n := |SignedText(value, base)|;
    assert str[..n] == str[..ptr] + str[ptr..n];
  }

  /** `%d`, `%i` (base 10) and `%o` (base 8): the text fits the buffer for every 64-bit signed value. */
  method FormatSigned(value: int, base: nat) returns (buf: array<char>)
    requires -(I64 as int) <= value < I64 && (base == 8 || base == 10)
    ensures fresh(buf) && buf.Length == 32
    ensures var n := |SignedText(value, base)|;
            n < 32 && buf[..n] == SignedText(value, base) && buf[n] == '\0'
  {
    BufferSuffices(value, base);
    buf := new char[32];
    Itoa(value, buf, base);
  }

  // ---------- %x ----------

  method Strlen(str: array<char>) returns (len: nat)
    requires exists k :: 0 <= k < str.Length && str[k] == '\0'
    ensures len < str.Length && str[len] == '\0' && '\0' !in str[..len]
  {
    len := 0;
    while str[len] != '\0'
      invariant len < str.Length && '\0' !in str[..len]
      invariant exists k :: len <= k < str.Length && str[k] == '\0'
      decreases str.Length - len
    {
      len := len + 1;
    }
  }

  function Zeros(n: nat): (s: string)
    ensures |s| == n && forall k :: 0 <= k < n ==> s[k] == '0'
  {
    if n == 0 then [] else Zeros(n - 1) + ['0']
  }

  /** Leading zeros do not change the value. */
  lemma {:induction false} ParsePadded(n: nat, s: string, base: nat)
    ensures Parse(Zeros(n) + s, base) == Parse(s, base)
    decreases |s|, n
  {
    var t := Zeros(n) + s;
    if s != [] {
      assert t[..|t| - 1] == Zeros(n) + s[..|s| - 1];
      ParsePadded(n, s[..|s| - 1], base);
    } else if n > 0 {
      assert t[..|t| - 1] == Zeros(n - 1) + [];
      ParsePadded(n - 1, [], base);
    }
  }

  method CopyTo(dest: array<char>, off: nat, src: array<char>, n: nat)
    requires off + n <= dest.Length && n <= src.Length && dest != src
    modifies dest
    ensures dest[..] == old(dest[..off]) + src[..n] + old(dest[off + n..])
  {
    for i := 0 to n
      invariant dest[..] == old(dest[..off]) + src[..i] + old(dest[off + i..])
    {
      dest[off + i] := src[i];
    }
  }

  /** The terminator ends the text: scanning for it finds the length. */
  lemma TextLength(buf: string, text: string, len: nat)
    requires |text| < |buf| && buf[..|text|] == text && buf[|text|] == '\0' && '\0' !in text
    requires len < |buf| && buf[len] == '\0' && '\0' !in buf[..len]
    ensures len == |text|
  {
    forall k | 0 <= k < len
      ensures buf[k] != '\0'
    {
      assert buf[..len][k] in buf[..len];
    }
    forall k | 0 <= k < |text|
      ensures buf[k] != '\0'
    {
      assert buf[..|text|][k] in text;
    }
  }

  lemma PaddedText(text: string, digits: string, value: nat)
    requires digits == Digits(value, 16) && |digits| <= 16 && text == Zeros(16 - |digits|) + digits
    ensures Parse(text, 16) == value
    ensures forall k :: 0 <= k < 16 ==> 0 <= DigitValue(text[k]) < 16
  {
    hide Parse, Digits;
    ParsePadded(16 - |digits|, digits, 16);
    ParseDigits(value, 16);
    DigitsCanonical(value, 16);
    forall k | 0 <= k < 16
      ensures 0 <= DigitValue(text[k]) < 16
    {
      if k >= 16 - |digits| {
        assert text[k] == digits[k - (16 - |digits|)];
      }
    }
  }

  /** `%x`: always sixteen characters, all hexadecimal digits, denoting the value. */
  method FormatHex(value: nat) returns (newBuf: array<char>)
    requires value < U64
    ensures fresh(newBuf) && newBuf.Length == 17 && newBuf[16] == '\0'
    ensures Parse(newBuf[..16], 16) == value
    ensures forall k :: 0 <= k < 16 ==> 0 <= DigitValue(newBuf[k]) < 16
  {
    hide Parse, Digits, Zeros, DigitValue;
    BufferSuffices(value, 16);
    DigitsCanonical(value, 16);
    ghost var digits := Digits(value, 16);
    var buf := new char[32];
    Uitoa(value, buf, 16);
    var len := Strlen(buf);
    TextLength(buf[..], digits, len);
    newBuf := new char[17](i => if i < 16 then '0' else '\0');
    assert newBuf[..16 - len] == Zeros(16 - len);
    CopyTo(newBuf, 16 - len, buf, len);
    assert newBuf[..16] == Zeros(16 - len) + digits;
    PaddedText(newBuf[..16], digits, value);
  }
}
