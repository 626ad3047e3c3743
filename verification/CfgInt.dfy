// Integer values: AM_CFG_StoreDec, StoreOct and StoreHex write them with printf, AM_CFG_Value2Int scans them.

module CfgInt {
  import opened CfgText
  import opened CfgParse
  import opened CfgPrint
  import CfgRoundTrip
  import opened Wrappers

  const TWO_32 := 0x1_0000_0000
  const TWO_31 := 0x8000_0000

  predicate IsInt32(v: int) {
    -TWO_31 <= v < TWO_31
  }

  /** The bits of an int as an unsigned number, and back. */
  function Unsigned(v: int): nat
    requires IsInt32(v)
  {
    if v < 0 then v + TWO_32 else v
  }

  function Signed(u: int): int {
    var w := u % TWO_32;
    if w < TWO_31 then w else w - TWO_32
  }

  predicate IsBase(base: nat) {
    base == 8 || base == 10 || base == 16
  }

  function DigitChar(d: nat): char
    requires d < 16
  {
    if d < 10 then ('0' as int + d) as char else ('a' as int + d - 10) as char
  }

  /** The value of a digit in a base, if it is one. */
  function DigitValue(c: char, base: nat): Option<nat> {
    var v := if '0' <= c <= '9' then c as int - '0' as int
             else if 'a' <= c <= 'f' then c as int - 'a' as int + 10
             else if 'A' <= c <= 'F' then c as int - 'A' as int + 10
             else base;
    if v < base then Some(v) else None
  }

  /** %d, %o and %x of a number that is not negative. */
  function Digits(n: nat, base: nat): (s: string)
    requires IsBase(base)
    ensures s != ""
    decreases n
  {
    if n < base then [DigitChar(n)] else Digits(n / base, base) + [DigitChar(n % base)]
  }

  function Dec(v: int): string
    requires IsInt32(v)
  {
    if v < 0 then "-" + Digits(-v, 10) else Digits(v, 10)
  }

  function Oct(v: int): string
    requires IsInt32(v)
  {
    "0" + Digits(Unsigned(v), 8)
  }

  function Hex(v: int): string
    requires IsInt32(v)
  {
    "0x" + Digits(Unsigned(v), 16)
  }

  /** How many digits a string starts with. */
  function DigitRun(s: string, base: nat): (n: nat)
    ensures n <= |s|
  {
    if s != "" && DigitValue(s[0], base).Some? then 1 + DigitRun(s[1..], base) else 0
  }

  function ValueOf(s: string, base: nat): nat
    decreases |s|
  {
    if s == "" then 0 else
      var last := DigitValue(s[|s| - 1], base);
      ValueOf(s[..|s| - 1], base) * base + if last.Some? then last.value else 0
  }

  /** sscanf of one integer: white space, a sign, digits; None without a digit. */
  function ScanInt(s: string, base: nat): Option<int>
    decreases |s|
  {
    if s == "" then None
    else if IsSpace(s[0]) then ScanInt(s[1..], base)
    else
      var signed := s[0] == '-' || s[0] == '+';
      var digits := if signed then s[1..] else s;
      var n := DigitRun(digits, base);
      var value: int := ValueOf(digits[..n], base);
      if n == 0 then None else Some(Signed(if s[0] == '-' then -value else value))
  }

  /** AM_CFG_Value2Int: the first characters choose the base. */
  function Value2Int(value: string): Option<int> {
    if value != "" && value[0] == '0' then
      if |value| > 1 && (value[1] == 'x' || value[1] == 'X') then ScanInt(value[2..], 16) else ScanInt(value, 8)
    else ScanInt(value, 10)
  }

  predicate AllDigits(s: string, base: nat) {
    forall i :: 0 <= i < |s| ==> DigitValue(s[i], base).Some?
  }

  lemma DigitReadsBack(d: nat, base: nat)
    requires IsBase(base) && d < base
    ensures DigitValue(DigitChar(d), base) == Some(d) && (d > 0 ==> DigitChar(d) != '0')
  {
  }

  /** One more digit behind the others. */
  lemma DigitAdded(s: string, d: nat, base: nat)
    requires IsBase(base) && d < base && AllDigits(s, base)
    ensures AllDigits(s + [DigitChar(d)], base)
    ensures ValueOf(s + [DigitChar(d)], base) == ValueOf(s, base) * base + d
  {
    DigitReadsBack(d, base);
    assert (s + [DigitChar(d)])[..|s|] == s;
  }

  lemma {:induction false} DigitsAreDigits(n: nat, base: nat)
    requires IsBase(base)
    ensures AllDigits(Digits(n, base), base) && ValueOf(Digits(n, base), base) == n
    decreases n
  {
    if n < base {
      DigitsNext("", Digits(n, base), 0, n, n, base);
    } else {
      var q, d := n / base, n % base;
      DigitsAreDigits(q, base);
      Division(n, base, q, d);
      DigitsNext(Digits(q, base), Digits(n, base), q, d, n, base);
    }
  }

  lemma DigitsNext(s: string, t: string, q: nat, d: nat, n: nat, base: nat)
    requires IsBase(base) && d < base && t == s + [DigitChar(d)]
    requires AllDigits(s, base) && ValueOf(s, base) == q && q * base + d == n
    ensures AllDigits(t, base) && ValueOf(t, base) == n
  {
    DigitAdded(s, d, base);
  }

  lemma Division(n: nat, base: nat, q: nat, d: nat)
    requires base > 0 && q == n / base && d == n % base
    ensures q * base + d == n
  {
  }

  /** No leading zero. */
  lemma {:induction false} FirstDigit(n: nat, base: nat)
    requires IsBase(base) && n > 0
    ensures Digits(n, base)[0] != '0'
    decreases n
  {
    if n < base {
      DigitReadsBack(n, base);
    } else {
      FirstDigit(n / base, base);
    }
  }

  lemma {:induction false} RunOfDigits(s: string, base: nat)
    requires AllDigits(s, base)
    ensures DigitRun(s, base) == |s|
  {
    if s != "" {
      RunOfDigits(s[1..], base);
    }
  }

  lemma ScansRun(s: string, base: nat)
    requires s != "" && AllDigits(s, base)
    ensures ScanInt(s, base) == Some(Signed(ValueOf(s, base)))
  {
    RunOfDigits(s, base);
    assert DigitValue(s[0], base).Some? && s[..|s|] == s;
  }

  lemma ScansNegative(s: string, base: nat)
    requires s != "" && AllDigits(s, base)
    ensures ScanInt("-" + s, base) == Some(Signed(0 - ValueOf(s, base)))
  {
    RunOfDigits(s, base);
    var t := "-" + s;
    assert t[0] == '-' && t[1..] == s && s[..|s|] == s;
  }

  lemma ScansDigits(n: nat, base: nat)
    requires IsBase(base)
    ensures ScanInt(Digits(n, base), base) == Some(Signed(n))
    ensures ScanInt("-" + Digits(n, base), base) == Some(Signed(0 - n))
  {
    DigitsAreDigits(n, base);
    ScansRun(Digits(n, base), base);
    ScansNegative(Digits(n, base), base);
  }

  predicate OfBase(c: char, base: nat) {
    if base == 8 then '0' <= c <= '7' else if base == 10 then '0' <= c <= '9' else '0' <= c <= '9' || 'a' <= c <= 'f'
  }

  /** The text of a number in a base, without a leading zero but for zero itself. */
  ghost predicate Spells(s: string, n: int, base: nat) {
    && s != "" && ValueOf(s, base) == n && (s[0] == '0' ==> n == 0)
    && forall i :: 0 <= i < |s| ==> OfBase(s[i], base)
  }

  lemma {:induction false} DigitsOfBase(n: nat, base: nat)
    requires IsBase(base)
    ensures forall i :: 0 <= i < |Digits(n, base)| ==> OfBase(Digits(n, base)[i], base)
    decreases n
  {
    if n >= base {
      DigitsOfBase(n / base, base);
    }
  }

  lemma DigitsSpell(n: nat, base: nat)
    requires IsBase(base)
    ensures Spells(Digits(n, base), n, base)
  {
    DigitsAreDigits(n, base);
    DigitsOfBase(n, base);
    if n > 0 {
      FirstDigit(n, base);
    }
  }

  /**
   * What the three calls write: a decimal number with its sign, or the bits of the int as an octal or hexadecimal
   * number behind the prefix of the base.
   */
  lemma TextsAre(v: int)
    requires IsInt32(v)
    ensures if v < 0 then Dec(v)[0] == '-' && Spells(Dec(v)[1..], -v, 10) else Spells(Dec(v), v, 10)
    ensures Oct(v)[0] == '0' && Spells(Oct(v)[1..], if v < 0 then v + 0x1_0000_0000 else v, 8)
    ensures |Hex(v)| > 2 && Hex(v)[..2] == "0x" && Spells(Hex(v)[2..], if v < 0 then v + 0x1_0000_0000 else v, 16)
  {
    DigitsSpell(if v < 0 then -v else v, 10);
    DigitsSpell(Unsigned(v), 8);
    DigitsSpell(Unsigned(v), 16);
    assert v < 0 ==> Dec(v)[1..] == Digits(-v, 10);
    assert Oct(v)[1..] == Digits(Unsigned(v), 8) && Hex(v)[2..] == Digits(Unsigned(v), 16);
  }

  /**
   * White space, a sign and digits, with anything that is no digit behind them, scan as their value; without a digit
   * nothing is scanned.
   */
  lemma {:induction false} TextScans(blank: string, sign: string, digits: string, tail: string, base: nat)
    requires IsBase(base) && (forall i :: 0 <= i < |blank| ==> IsSpace(blank[i])) && sign in {"", "-", "+"}
    requires AllDigits(digits, base) && (tail != "" ==> DigitValue(tail[0], base).None?)
    requires sign == "" && digits == "" && tail != "" ==> !IsSpace(tail[0]) && tail[0] != '-' && tail[0] != '+'
    ensures ScanInt(blank + sign + digits + tail, base) ==
            if digits == "" then None
            else Some(Signed(if sign == "-" then -(ValueOf(digits, base) as int) else ValueOf(digits, base)))
    decreases |blank|
  {
    if blank != "" {
      assert (blank + sign + digits + tail)[1..] == blank[1..] + sign + digits + tail;
      TextScans(blank[1..], sign, digits, tail, base);
    } else if sign == "" {
      assert blank + sign + digits + tail == digits + tail;
      PlainTextScans(digits, tail, base);
    } else {
      var s := blank + sign + digits + tail;
      assert s[0] == sign[0] && s[1..] == digits + tail;
      SignedScans(s, digits, tail, base);
    }
  }

  lemma PlainTextScans(digits: string, tail: string, base: nat)
    requires IsBase(base) && AllDigits(digits, base) && (tail != "" ==> DigitValue(tail[0], base).None?)
    requires digits == "" && tail != "" ==> !IsSpace(tail[0]) && tail[0] != '-' && tail[0] != '+'
    ensures ScanInt(digits + tail, base) == if digits == "" then None else Some(Signed(ValueOf(digits, base)))
  {
    RunBefore(digits, tail, base);
    assert digits != "" ==> (digits + tail)[0] == digits[0] && DigitValue(digits[0], base).Some?;
    assert (digits + tail)[..|digits|] == digits;
  }

  lemma SignedScans(s: string, digits: string, tail: string, base: nat)
    requires IsBase(base) && AllDigits(digits, base) && (tail != "" ==> DigitValue(tail[0], base).None?)
    requires s != "" && (s[0] == '-' || s[0] == '+') && s[1..] == digits + tail
    ensures var n: int := ValueOf(digits, base);
            ScanInt(s, base) == if digits == "" then None else Some(Signed(if s[0] == '-' then -n else n))
  {
    RunBefore(digits, tail, base);
    assert (digits + tail)[..|digits|] == digits;
    ScansSigned(s, digits + tail, |digits|, ValueOf(digits, base), base);
  }

  lemma ScansSigned(s: string, t: string, n: nat, value: int, base: nat)
    requires s != "" && (s[0] == '-' || s[0] == '+') && s[1..] == t && n == DigitRun(t, base)
    requires value == ValueOf(t[..n], base)
    ensures ScanInt(s, base) == if n == 0 then None else Some(Signed(if s[0] == '-' then -value else value))
  {
  }

  lemma {:induction false} RunBefore(digits: string, tail: string, base: nat)
    requires AllDigits(digits, base) && (tail != "" ==> DigitValue(tail[0], base).None?)
    ensures DigitRun(digits + tail, base) == |digits|
  {
    if digits == "" {
      assert digits + tail == tail;
    } else {
      assert (digits + tail)[1..] == digits[1..] + tail && DigitValue(digits[0], base).Some?;
      RunBefore(digits[1..], tail, base);
    }
  }

  /** Every int reads back from its decimal, octal and hexadecimal text. */
  lemma IntRoundTrip(v: int)
    requires IsInt32(v)
    ensures Value2Int(Dec(v)) == Some(v)
    ensures Value2Int(Oct(v)) == Some(v)
    ensures Value2Int(Hex(v)) == Some(v)
  {
    DecReadsBack(v);
    OctReadsBack(Unsigned(v));
    HexReadsBack(Unsigned(v));
    SignedUnsigned(v);
  }

  lemma SignedUnsigned(v: int)
    requires IsInt32(v)
    ensures Signed(Unsigned(v)) == v && Signed(v) == v
  {
  }

  lemma DecReadsBack(v: int)
    requires IsInt32(v)
    ensures Value2Int(Dec(v)) == Some(v)
  {
    SignedUnsigned(v);
    if v == 0 {
      ZeroReadsBack();
    } else if v > 0 {
      PositiveReadsBack(v);
    } else {
      NegativeReadsBack(-v);
    }
  }

  lemma ZeroReadsBack()
    ensures Value2Int(Digits(0, 10)) == Some(0)
  {
    ScansDigits(0, 8);
    assert Digits(0, 10) == Digits(0, 8) == "0";
  }

  lemma PositiveReadsBack(n: nat)
    requires n > 0
    ensures Value2Int(Digits(n, 10)) == Some(Signed(n))
  {
    ScansDigits(n, 10);
    FirstDigit(n, 10);
  }

  lemma NegativeReadsBack(n: nat)
    ensures Value2Int("-" + Digits(n, 10)) == Some(Signed(0 - n))
  {
    ScansDigits(n, 10);
    assert ("-" + Digits(n, 10))[0] == '-';
  }

  lemma OctReadsBack(u: nat)
    ensures Value2Int("0" + Digits(u, 8)) == Some(Signed(u))
  {
    var oct := Digits(u, 8);
    DigitsAreDigits(u, 8);
    LeadingZero(oct, 8);
    assert ("0" + oct)[0] == '0' && ("0" + oct)[1] == oct[0] && DigitValue(oct[0], 8).Some?;
  }

  lemma HexReadsBack(u: nat)
    ensures Value2Int("0x" + Digits(u, 16)) == Some(Signed(u))
  {
    ScansDigits(u, 16);
    assert ("0x" + Digits(u, 16))[2..] == Digits(u, 16);
  }

  lemma LeadingZero(s: string, base: nat)
    requires AllDigits(s, base) && s != "" && IsBase(base)
    ensures ScanInt("0" + s, base) == Some(Signed(ValueOf(s, base)))
  {
    assert AllDigits("0" + s, base);
    RunOfDigits("0" + s, base);
    ZeroAddsNothing(s, base);
    assert ("0" + s)[..|s| + 1] == "0" + s;
  }

  lemma {:induction false} ZeroAddsNothing(s: string, base: nat)
    requires IsBase(base)
    ensures ValueOf("0" + s, base) == ValueOf(s, base)
    decreases |s|
  {
    if s == "" {
      assert "0" + s == "0" && "0"[..0] == "";
    } else {
      assert ("0" + s)[..|s|] == "0" + s[..|s| - 1];
      ZeroAddsNothing(s[..|s| - 1], base);
    }
  }

  lemma {:induction false} DigitsNulFree(n: nat, base: nat)
    requires IsBase(base)
    ensures NulFree(Digits(n, base))
    decreases n
  {
    if n >= base {
      DigitsNulFree(n / base, base);
    }
  }

  /**
   * An int that is stored under a legal key is what the key's callback can convert its value to, and it arrives
   * there if and only if no growth behind the key moves the buffer.
   */
  lemma StoredIntReadsBack(moves: nat -> bool, key: CString, v: int, text: CString)
    requires KeyName(key) && IsInt32(v) && (text == Dec(v) || text == Oct(v) || text == Hex(v))
    ensures Value2Int(text) == Some(v)
    ensures ParseIn(NoBuffer(moves), [], Text(0, [Store(key, text)])) == Outcome(Ok, [Key(key, text)], []) <==>
            CfgRoundTrip.CallsStay(NoBuffer(moves), [Store(key, text)])
  {
    IntRoundTrip(v);
    var calls := [Store(key, text)];
    CfgRoundTrip.ProgramRoundTrip(NoBuffer(moves), [], calls);
    assert calls[1..] == [];
  }
}
