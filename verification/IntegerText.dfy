/** Printing integers into a 36-character buffer.

    Digits are produced from the least significant one into a work buffer of '0's, and copied out in reverse
    from the first digit that is significant or that the width asks for.
 */
module IntegerText {
  import opened Bytes

  const BUF_SIZE: nat := 36
  const NUL: char := '\0'

  predicate Base(b: nat) { 2 <= b <= 36 }

  /** Htoc and htoc. */
  function DigitChar(d: nat, upper: bool): char
    requires d < 36
  {
    if d < 10 then '0' + d as char else if upper then 'A' + (d - 10) as char else 'a' + (d - 10) as char
  }

  function DigitValue(c: char): int {
    if '0' <= c <= '9' then (c - '0') as int
    else if 'A' <= c <= 'Z' then (c - 'A') as int + 10
    else if 'a' <= c <= 'z' then (c - 'a') as int + 10
    else 0
  }

  /** The number a text stands for, most significant digit first. */
  function Read(text: string, base: nat): int {
    if text == "" then 0 else Read(text[..|text| - 1], base) * base + DigitValue(text[|text| - 1])
  }

  function ReadSigned(text: string): int {
    if text != "" && text[0] == '-' then -Read(text[1..], 10) else Read(text, 10)
  }

  /** What is left of num after n digits have been taken off. */
  function Rest(num: nat, base: nat, n: nat): nat
    requires Base(base)
  {
    if n == 0 then num else Rest(num, base, n - 1) / base
  }

  /** The character of digit i, counted from the least significant. */
  function DigitAt(num: nat, base: nat, upper: bool, i: nat): char
    requires Base(base)
  {
    DigitChar(Rest(num, base, i) % base, upper)
  }

  /** The n lowest digits of num, most significant first. */
  function Digits(num: nat, base: nat, upper: bool, n: nat): (t: string)
    requires Base(base)
    ensures |t| == n
  {
    if n == 0 then "" else Digits(num / base, base, upper, n - 1) + [DigitChar(num % base, upper)]
  }

  /** The number of significant digits; none for zero. */
  function Significant(num: nat, base: nat): nat
    requires Base(base)
  {
    if num == 0 then 0 else (Smaller(num, base); 1 + Significant(num / base, base))
  }

  lemma Smaller(num: nat, base: nat)
    requires num > 0 && Base(base)
    ensures 0 <= num / base < num
  {
  }

  /** How many digits are printed. */
  function Shown(num: nat, base: nat, width: int): nat
    requires Base(base)
  {
    Max(Significant(num, base), Max(width, 0))
  }

  /** The text of an unsigned number: the digits shown, or a single zero. */
  function Printed(num: nat, base: nat, upper: bool, width: int): string
    requires Base(base)
  {
    if Shown(num, base, width) == 0 then "0" else Digits(num, base, upper, Shown(num, base, width))
  }

  // ---------------------------------------------------------------- reading back

  lemma DigitRoundTrip(d: nat, upper: bool)
    requires d < 36
    ensures DigitValue(DigitChar(d, upper)) == d && (DigitChar(d, upper) == '0' <==> d == 0)
    ensures DigitChar(d, upper) != '-' && DigitChar(d, upper) != NUL
  {
  }

  lemma ReadAppend(text: string, c: char, base: nat)
    ensures Read(text + [c], base) == Read(text, base) * base + DigitValue(c)
  {
    assert (text + [c])[..|text|] == text;
  }

  lemma DivMod(num: nat, base: nat)
    requires Base(base)
    ensures num == (num / base) * base + num % base && 0 <= num / base && 0 <= num % base < base
  {
  }

  lemma {:induction false} DigitsReadBack(num: nat, base: nat, upper: bool, n: nat)
    requires Base(base) && Significant(num, base) <= n
    ensures Read(Digits(num, base, upper, n), base) == num
    decreases n
  {
    if n > 0 {
      DivMod(num, base);
      var q, r := num / base, num % base;
      var t := Digits(q, base, upper, n - 1);
      FewerSignificant(num, base);
      DigitsReadBack(q, base, upper, n - 1);
      ReadAppend(t, DigitChar(r, upper), base);
      DigitRoundTrip(r, upper);
    }
  }

  lemma FewerSignificant(num: nat, base: nat)
    requires Base(base)
    ensures Significant(num / base, base) == (if num == 0 then 0 else Significant(num, base) - 1)
  {
    if num == 0 {
      ZeroQuotient(base);
    }
  }

  lemma ZeroQuotient(base: nat)
    requires Base(base)
    ensures 0 / base == 0 && 0 % base == 0
  {
  }

  /** The printed text reads back to the number, in every base and width. */
  lemma PrintedReadsBack(num: nat, base: nat, upper: bool, width: int)
    requires Base(base)
    ensures Read(Printed(num, base, upper, width), base) == num
    ensures |Printed(num, base, upper, width)| == Max(Shown(num, base, width), 1)
  {
    if Shown(num, base, width) == 0 {
      assert "0"[..0] == "";
      assert Read("0", base) == Read("0"[..0], base) * base + DigitValue('0');
    } else {
      DigitsReadBack(num, base, upper, Shown(num, base, width));
    }
  }

  lemma {:induction false} NoSignInDigits(num: nat, base: nat, upper: bool, n: nat, k: nat)
    requires Base(base) && k < n
    ensures Digits(num, base, upper, n)[k] != '-'
    decreases n
  {
    DivMod(num, base);
    var q, r := num / base, num % base;
    var t := Digits(q, base, upper, n - 1);
    assert Digits(num, base, upper, n) == t + [DigitChar(r, upper)];
    DigitRoundTrip(r, upper);
    if k < n - 1 {
      NoSignInDigits(q, base, upper, n - 1, k);
    }
  }

  lemma Quotient(num: nat, base: nat) returns (q: nat)
    requires Base(base)
    ensures q == num / base
  {
    DivMod(num, base);
    q := num / base;
  }

  lemma {:induction false} RestShift(num: nat, base: nat, n: nat)
    requires Base(base)
    ensures Rest(num / base, base, n) == Rest(num, base, n + 1)
  {
    if n > 0 {
      RestShift(num, base, n - 1);
    }
  }

  /** Position k of the n lowest digits is digit n - 1 - k from the least significant end. */
  lemma {:induction false} DigitsAt(num: nat, base: nat, upper: bool, n: nat, k: nat)
    requires Base(base) && k < n
    ensures Digits(num, base, upper, n)[k] == DigitAt(num, base, upper, n - 1 - k)
    decreases n
  {
    if k < n - 1 {
      var q := Quotient(num, base);
      assert Digits(num, base, upper, n)[k] == Digits(q, base, upper, n - 1)[k];
      DigitsAt(q, base, upper, n - 1, k);
      RestShift(num, base, n - 2 - k);
    }
  }

  /** Digits from the significant ones up are zero, and the highest significant one is not. */
  lemma {:induction false} SignificantRest(num: nat, base: nat, i: nat)
    requires Base(base)
    ensures Rest(num, base, i) == 0 <==> Significant(num, base) <= i
    decreases i
  {
    if i > 0 {
      var q := Quotient(num, base);
      FewerSignificant(num, base);
      RestShift(num, base, i - 1);
      SignificantRest(q, base, i - 1);
    }
  }

  lemma {:induction false} LastSignificant(num: nat, base: nat, i: nat)
    requires Base(base) && i + 1 == Significant(num, base)
    ensures 0 < Rest(num, base, i) < base
    decreases i
  {
    FewerSignificant(num, base);
    if i > 0 {
      var q := Quotient(num, base);
      RestShift(num, base, i - 1);
      LastSignificant(q, base, i - 1);
    } else {
      QuotientZero(num, base);
    }
  }

  lemma QuotientZero(num: nat, base: nat)
    requires Base(base)
    ensures num / base == 0 <==> num < base
  {
  }

  lemma {:induction false} SignificantBound(num: nat, base: nat, k: nat)
    requires Base(base) && num < Power2(k)
    ensures Significant(num, base) <= k
    decreases k
  {
    if num > 0 {
      HalvedAtLeast(num, base);
      SignificantBound(num / base, base, k - 1);
    }
  }

  lemma HalvedAtLeast(num: nat, base: nat)
    requires Base(base)
    ensures 2 * (num / base) <= num
  {
    assert num == base * (num / base) + num % base;
    assert 2 * (num / base) <= base * (num / base);
  }

  /** A 32-bit number has at most 32 digits in any base. */
  lemma Fits32(num: nat, base: nat)
    requires Base(base) && num < 0x1_0000_0000
    ensures Significant(num, base) <= 32
  {
    assert Power2(8) == 0x100;
    assert Power2(16) == 0x1_0000;
    assert Power2(24) == 0x100_0000;
    assert Power2(32) == 0x1_0000_0000;
    SignificantBound(num, base, 32);
  }

  lemma SmallRemainder(r: nat, base: nat)
    requires Base(base)
    ensures r < base ==> r % base == r
  {
  }

  /** A digit above the significant ones is '0', and the highest significant one is not. */
  lemma SignificantChar(num: nat, base: nat, upper: bool, i: nat)
    requires Base(base)
    ensures Significant(num, base) <= i ==> DigitAt(num, base, upper, i) == '0'
    ensures i + 1 == Significant(num, base) ==> DigitAt(num, base, upper, i) != '0'
  {
    var r := Rest(num, base, i);
    SignificantRest(num, base, i);
    if i + 1 == Significant(num, base) {
      LastSignificant(num, base, i);
    }
    SmallRemainder(r, base);
    DivMod(r, base);
    DigitRoundTrip(r % base, upper);
  }

  /** The character at i belongs to the digits shown exactly when the copy loop takes it. */
  lemma TakenIffShown(num: nat, base: nat, upper: bool, width: int, i: nat)
    requires Base(base)
    ensures i < Shown(num, base, width) <==>
      DigitAt(num, base, upper, i) != '0' || i + 1 < Shown(num, base, width) || i < width
  {
    SignificantChar(num, base, upper, i);
    TakenBy(Significant(num, base), width, i, DigitAt(num, base, upper, i) != '0');
  }

  lemma TakenBy(significant: nat, width: int, i: nat, nonzero: bool)
    requires significant <= i ==> !nonzero
    requires i + 1 == significant ==> nonzero
    ensures var shown := Max(significant, Max(width, 0)); i < shown <==> nonzero || i + 1 < shown || i < width
  {
  }

  // ---------------------------------------------------------------- the source's operations

  /** The work buffer holds the digits of num, least significant first. */
  ghost predicate HoldsDigits(buf: array<char>, num: nat, base: nat, upper: bool)
    requires Base(base)
    reads buf
  {
    buf.Length == BUF_SIZE && forall i :: 0 <= i < BUF_SIZE ==> buf[i] == DigitAt(num, base, upper, i)
  }

  /** The digit loop. */
  method FillDigits(num: nat, base: nat, upper: bool) returns (buf: array<char>)
    requires Base(base) && Significant(num, base) <= BUF_SIZE
    ensures fresh(buf) && HoldsDigits(buf, num, base, upper)
  {
    buf := new char[BUF_SIZE](_ => '0');
    var j, n := 0, num;
    while n > 0 && j < BUF_SIZE
      invariant 0 <= j <= BUF_SIZE && n == Rest(num, base, j)
      invariant forall i :: 0 <= i < j ==> buf[i] == DigitAt(num, base, upper, i)
      invariant forall i :: j <= i < BUF_SIZE ==> buf[i] == '0'
      decreases BUF_SIZE - j
    {
      buf[j] := DigitChar(n % base, upper);
      j := j + 1;
      n := n / base;
    }
    SignificantRest(num, base, j);
    forall i | j <= i < BUF_SIZE
      ensures DigitAt(num, base, upper, i) == '0'
    {
      SignificantChar(num, base, upper, i);
    }
  }

  /** The copy loop, from position at of the destination. */
  method CopyDigits(dest: array<char>, at: nat, buf: array<char>, ghost num: nat, ghost base: nat, ghost upper: bool, width: int)
      returns (j: nat)
    requires Base(base) && HoldsDigits(buf, num, base, upper) && dest != buf
    requires Shown(num, base, width) <= BUF_SIZE && at + Shown(num, base, width) <= dest.Length
    modifies dest
    ensures j == at + Shown(num, base, width)
    ensures dest[..j] == old(dest[..at]) + Digits(num, base, upper, Shown(num, base, width))
  {
    ghost var shown := Shown(num, base, width);
    ghost var digits := Digits(num, base, upper, shown);
    var i, started := BUF_SIZE - 1, false;
    j := at;
    while i >= 0
      invariant -1 <= i < BUF_SIZE && j == at + Max(shown - (i + 1), 0) && started == (i + 1 < shown)
      invariant dest[..j] == old(dest[..at]) + digits[..j - at]
    {
      TakenIffShown(num, base, upper, width, i);
      if buf[i] != '0' || started || i < width {
        started := true;
        DigitsAt(num, base, upper, shown, shown - 1 - i);
        dest[j] := buf[i];
        j := j + 1;
      }
      i := i - 1;
    }
    assert digits[..shown] == digits;
  }

  /** What utoa and itoa have in common: the digits from position at, a single '0' if there are none, and
      the terminator. (itoa's digit loop runs at least once, and for zero writes '0' over '0'.) */
  method PrintFrom(dest: array<char>, at: nat, num: nat, base: nat, upper: bool, width: int) returns (length: nat)
    requires Base(base) && num < 0x1_0000_0000 && dest.Length == BUF_SIZE && at + Max(width, 32) < BUF_SIZE
    modifies dest
    ensures length == at + Max(Shown(num, base, width), 1) < BUF_SIZE && dest[length] == NUL
    ensures dest[..length] == old(dest[..at]) + Printed(num, base, upper, width)
  {
    Fits32(num, base);
    var buf := FillDigits(num, base, upper);
    length := CopyDigits(dest, at, buf, num, base, upper, width);
    if length == at {
      dest[length] := '0';
      length := length + 1;
    }
    dest[length] := NUL;
  }

  /** StringUtil::utoa. The text reads back to the number and has as many digits as are significant or asked
      for, at least one; the terminator lies inside the buffer. */
  method Utoa(dest: array<char>, num: nat, base: nat, upper: bool, width: int) returns (length: nat)
    requires dest.Length == BUF_SIZE && Base(base) && num < 0x1_0000_0000 && width < BUF_SIZE
    modifies dest
    ensures length == Max(Max(Significant(num, base), width), 1) && length < BUF_SIZE
    ensures dest[..length] == Printed(num, base, upper, width) && dest[length] == NUL
    ensures Read(dest[..length], base) == num
  {
    length := PrintFrom(dest, 0, num, base, upper, width);
    assert dest[..length] == Printed(num, base, upper, width);
    PrintedReadsBack(num, base, upper, width);
  }

  /** StringUtil::itoa for numbers whose negation is a 32-bit number too. */
  method Itoa(dest: array<char>, num: int, width: int) returns (length: nat)
    requires dest.Length == BUF_SIZE && -0x8000_0000 < num < 0x8000_0000
    requires width < if num < 0 then BUF_SIZE - 1 else BUF_SIZE
    modifies dest
    ensures length < BUF_SIZE && dest[length] == NUL
    ensures dest[..length] == Signed(num, width)
    ensures ReadSigned(dest[..length]) == num
  {
    SignedReadsBack(num, width);
    var j, magnitude := 0, num;
    if num < 0 {
      magnitude := num * -1;
      dest[j] := '-';
      j := j + 1;
    }
    assert dest[..j] == if num < 0 then "-" else "";
    length := PrintFrom(dest, j, magnitude, 10, false, width);
  }

  /** The text of a signed number in base ten. */
  function Signed(num: int, width: int): string {
    if num < 0 then "-" + Printed(-num, 10, false, width) else "" + Printed(num, 10, false, width)
  }

  lemma SignedReadsBack(num: int, width: int)
    ensures ReadSigned(Signed(num, width)) == num
  {
    var magnitude := if num < 0 then -num else num;
    PrintedReadsBack(magnitude, 10, false, width);
    var text := Printed(magnitude, 10, false, width);
    if num < 0 {
      assert ("-" + text)[1..] == text;
    } else {
      if Shown(magnitude, 10, width) > 0 {
        NoSignInDigits(magnitude, 10, false, Shown(magnitude, 10, width), 0);
      }
      assert "" + text == text;
    }
  }

  datatype Mode = Binary | Octal | LowerHex | UpperHex | Decimal

  function ModeBase(mode: Mode): (b: nat)
    ensures Base(b)
  {
    match mode
    case Binary => 2
    case Octal => 8
    case LowerHex => 16
    case UpperHex => 16
    case Decimal => 10
  }

  /** The digits of all bases, by value. */
  const LOWER_DIGITS: string := "0123456789" + "abcdefghijklmnopqrstuvwxyz"
  const UPPER_DIGITS: string := "0123456789" + "ABCDEFGHIJKLMNOPQRSTUVWXYZ"

  lemma DigitByTable(d: nat, upper: bool)
    requires d < 36
    ensures DigitChar(d, upper) == (if upper then UPPER_DIGITS else LOWER_DIGITS)[d]
  {
    if d < 10 {
      assert LOWER_DIGITS[d] == UPPER_DIGITS[d] == "0123456789"[d];
    } else {
      assert LOWER_DIGITS[d] == "abcdefghijklmnopqrstuvwxyz"[d - 10];
      assert UPPER_DIGITS[d] == "ABCDEFGHIJKLMNOPQRSTUVWXYZ"[d - 10];
    }
  }

  /** Every character is the table's digit for a value below the base. */
  ghost predicate InDigits(text: string, digits: string, base: nat)
    requires base <= |digits|
  {
    forall k :: 0 <= k < |text| ==> IsDigit(text[k], digits, base)
  }

  ghost predicate IsDigit(c: char, digits: string, base: nat)
    requires base <= |digits|
  {
    exists d :: 0 <= d < base && c == digits[d]
  }

  /** A printed text is written in the digits of its base, in the case that was asked for. */
  lemma PrintedInDigits(num: nat, base: nat, upper: bool, width: int)
    requires Base(base)
    ensures InDigits(Printed(num, base, upper, width), if upper then UPPER_DIGITS else LOWER_DIGITS, base)
  {
    var text, shown := Printed(num, base, upper, width), Shown(num, base, width);
    forall k | 0 <= k < |text|
      ensures IsDigit(text[k], if upper then UPPER_DIGITS else LOWER_DIGITS, base)
    {
      var d: nat := 0;
      if shown > 0 {
        DigitsAt(num, base, upper, shown, k);
        var rest := Rest(num, base, shown - 1 - k);
        DivMod(rest, base);
        d := rest % base;
      }
      assert text[k] == DigitChar(d, upper);
      DigitByTable(d, upper);
    }
  }

  /** StringUtil::utoa_mode: the base of each mode, and the case of its digits. */
  method UtoaMode(mode: Mode, dest: array<char>, num: nat, width: int) returns (length: nat)
    requires dest.Length == BUF_SIZE && num < 0x1_0000_0000 && width < BUF_SIZE
    modifies dest
    ensures length < BUF_SIZE && dest[..length] == Printed(num, ModeBase(mode), mode == UpperHex, width)
    ensures mode == Binary ==> Read(dest[..length], 2) == num && InDigits(dest[..length], LOWER_DIGITS, 2)
    ensures mode == Octal ==> Read(dest[..length], 8) == num && InDigits(dest[..length], LOWER_DIGITS, 8)
    ensures mode == LowerHex ==> Read(dest[..length], 16) == num && InDigits(dest[..length], LOWER_DIGITS, 16)
    ensures mode == UpperHex ==> Read(dest[..length], 16) == num && InDigits(dest[..length], UPPER_DIGITS, 16)
    ensures mode == Decimal ==> Read(dest[..length], 10) == num && InDigits(dest[..length], LOWER_DIGITS, 10)
  {
    var len := Utoa(dest, num, ModeBase(mode), mode == UpperHex, width);
    PrintedInDigits(num, ModeBase(mode), mode == UpperHex, width);
    length := Min(len, BUF_SIZE);
  }
}
