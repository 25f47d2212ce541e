/** Checked number conversion: the CPRT_ATOI macro of cprt.h over strtoll and strtoull, which follow
    section 7.22.1.4 of ISO/IEC 9899:2011.  Strings hold no NUL characters. */
module SafeAtoi {
  import opened Machine

  const TWO_63 := 0x8000_0000_0000_0000

  /** The type of the variable converted into. */
  datatype IntType = IntType(bits: nat, signed: bool) {
    predicate Valid() {
      bits == 8 || bits == 16 || bits == 32 || bits == 64
    }

    function Modulus(): int {
      if bits == 8 then 0x100 else if bits == 16 then 0x1_0000 else if bits == 32 then TWO_32 else TWO_64
    }

    predicate InRange(v: int) {
      if signed then -Modulus() / 2 <= v < Modulus() / 2 else 0 <= v < Modulus()
    }

    /** Assignment to a variable of this type: the low bits, read as the type does. */
    function Assigned(v: int): int {
      var low := v % Modulus();
      if signed && low >= Modulus() / 2 then low - Modulus() else low
    }
  }

  /** errno after the macro. */
  datatype Result = Ok(value: int) | Invalid | OutOfRange

  predicate IsSpace(c: char) {
    c == ' ' || '\t' <= c <= '\r'
  }

  predicate IsDigit(c: char, base: int) {
    '0' <= c <= '9' || (base == 16 && ('a' <= c <= 'f' || 'A' <= c <= 'F'))
  }

  function DigitValue(c: char): nat {
    if '0' <= c <= '9' then c as int - '0' as int
    else if 'a' <= c <= 'f' then 10 + (c as int - 'a' as int)
    else if 'A' <= c <= 'F' then 10 + (c as int - 'A' as int)
    else 0
  }

  /** Positions lo .. hi-1 hold white space, or digits. */
  ghost predicate Spaces(s: string, lo: nat, hi: nat)
    requires hi <= |s|
  {
    forall i :: lo <= i < hi ==> IsSpace(s[i])
  }

  ghost predicate AreDigits(s: string, lo: nat, hi: nat, base: int)
    requires hi <= |s|
  {
    forall i :: lo <= i < hi ==> IsDigit(s[i], base)
  }

  function Value(s: string, base: nat): nat {
    if s == "" then 0 else Value(s[..|s| - 1], base) * base + DigitValue(s[|s| - 1])
  }

  /** How far white space, or digits, reach from position i. */
  function SpacesEnd(s: string, i: nat): (j: nat)
    requires i <= |s|
    ensures i <= j <= |s| && Spaces(s, i, j) && (j < |s| ==> !IsSpace(s[j]))
    decreases |s| - i
  {
    if i < |s| && IsSpace(s[i]) then SpacesEnd(s, i + 1) else i
  }

  function DigitsEnd(s: string, i: nat, base: int): (j: nat)
    requires i <= |s|
    ensures i <= j <= |s| && AreDigits(s, i, j, base) && (j < |s| ==> !IsDigit(s[j], base))
    decreases |s| - i
  {
    if i < |s| && IsDigit(s[i], base) then DigitsEnd(s, i + 1, base) else i
  }

  predicate PrefixAt(s: string, i: nat) {
    i + 2 < |s| && s[i] == '0' && (s[i + 1] == 'x' || s[i + 1] == 'X') && IsDigit(s[i + 2], 16)
  }

  /** Where a sign, and where digits, begin, as the library finds them. */
  function SignEnd(s: string, i: nat): (j: nat)
    requires i <= |s|
    ensures i <= j <= |s|
  {
    if i < |s| && (s[i] == '-' || s[i] == '+') then i + 1 else i
  }

  function PrefixEnd(s: string, j: nat, base: nat): (k: nat)
    requires j <= |s|
    ensures j <= k <= |s|
  {
    if base == 16 && PrefixAt(s, j) then j + 2 else j
  }

  /** The number at the start of a text, and the position after it; 0 when there is none. */
  datatype Numeral = Numeral(negative: bool, magnitude: nat, end: nat)

  function Scan(s: string, base: nat): Numeral {
    var i := SpacesEnd(s, 0);
    var k := PrefixEnd(s, SignEnd(s, i), base);
    var end := DigitsEnd(s, k, base);
    if end == k then Numeral(false, 0, 0)
    else Numeral(s[i] == '-', Value(s[k..end], base), end)
  }

  function Signed(n: Numeral): int {
    var m: int := n.magnitude;
    if n.negative then -m else m
  }

  /** strtoll: value, end position, whether errno becomes ERANGE. */
  function Strtoll(s: string, base: nat): (int, nat, bool) {
    var n := Scan(s, base);
    if Signed(n) >= TWO_63 then (TWO_63 - 1, n.end, true)
    else if Signed(n) < -TWO_63 then (-TWO_63, n.end, true)
    else (Signed(n), n.end, false)
  }

  /** strtoull: a minus sign negates modulo 2^64. */
  function Strtoull(s: string, base: nat): (int, nat, bool) {
    var n := Scan(s, base);
    if n.magnitude >= TWO_64 then (TWO_64 - 1, n.end, true)
    else (Signed(n) % TWO_64, n.end, false)
  }

  predicate HexPrefixed(a: string) {
    |a| > 2 && a[0] == '0' && (a[1] == 'x' || a[1] == 'X')
  }

  /** The part of the text handed to the library, and in which base. */
  function Body(a: string): string {
    if HexPrefixed(a) then a[2..] else a
  }

  function Base(a: string): nat {
    if HexPrefixed(a) then 16 else 10
  }

  /** What the macro does for a target type: Atoi is the code, SignedConversionIff and
      UnsignedConversionIff give the meaning. */
  function Convert(a: string, t: IntType): Result {
    var (v, end, erange) := if t.signed then Strtoll(Body(a), Base(a)) else Strtoull(Body(a), Base(a));
    if erange then OutOfRange
    else if end == 0 || end != |Body(a)| then Invalid
    else if t.Assigned(v) != v then OutOfRange
    else Ok(t.Assigned(v))
  }

  lemma AllOnes(t: IntType)
    requires t.Valid()
    ensures t.Assigned(t.Modulus() - 1) < 0 <==> t.signed
  {
  }

  /** CPRT_ATOI */
  method Atoi(a: string, t: IntType) returns (r: Result)
    requires t.Valid()
    ensures r == Convert(a, t)
  {
    AllOnes(t);
    var inA, base := a, 10;
    if |inA| > 2 && inA[0] == '0' && (inA[1] == 'x' || inA[1] == 'X') {
      inA, base := inA[2..], 16;
    }
    var newErrno := Ok(0);
    var llresult, temp, erange;
    if t.Assigned(t.Modulus() - 1) < 0 {  // all ones: is the result a signed value?
      var (v, e, over) := Strtoll(inA, base);
      llresult, temp, erange := v, e, over;
    } else {
      var (v, e, over) := Strtoull(inA, base);
      llresult, temp, erange := v, e, over;
    }
    if erange {
      newErrno := OutOfRange;
    }
    if newErrno != Ok(0) || temp == 0 || temp != |inA| {
      r := if newErrno == Ok(0) then Invalid else newErrno;
    } else {
      r := Ok(t.Assigned(llresult));
      if r.value != llresult {
        r := OutOfRange;
      }
    }
  }

  /** The text of an integer: white space up to i, a sign up to j, for base 16 a prefix up to k, and then
      at least one digit and nothing else. */
  ghost predicate Spelled(s: string, base: nat, i: nat, j: nat, k: nat) {
    && i <= j <= k < |s|
    && Spaces(s, 0, i) && AreDigits(s, k, |s|, base)
    && (j == i || (j == i + 1 && (s[i] == '-' || s[i] == '+')))
    && (k == j || (base == 16 && k == j + 2 && s[j] == '0' && (s[j + 1] == 'x' || s[j + 1] == 'X')))
  }

  function SpelledValue(s: string, base: nat, i: nat, k: nat): int
    requires i <= k < |s|
  {
    var m: int := Value(s[k..], base);
    if s[i] == '-' then -m else m
  }

  /** s spells the integer v. */
  ghost predicate Denotes(s: string, base: nat, v: int) {
    exists i, j, k :: Spelled(s, base, i, j, k) && v == SpelledValue(s, base, i, k)
  }

  lemma SpelledPositions(s: string, base: nat, i: nat, j: nat, k: nat)
    requires (base == 10 || base == 16) && Spelled(s, base, i, j, k)
    ensures SpacesEnd(s, 0) == i && SignEnd(s, i) == j && PrefixEnd(s, j, base) == k
    ensures DigitsEnd(s, k, base) == |s|
  {
  }

  /** Reading a spelled number takes it all in. */
  lemma ScanSpelled(s: string, base: nat, i: nat, j: nat, k: nat)
    requires (base == 10 || base == 16) && Spelled(s, base, i, j, k)
    ensures Scan(s, base).end == |s| && Signed(Scan(s, base)) == SpelledValue(s, base, i, k)
  {
    SpelledPositions(s, base, i, j, k);
    assert IsDigit(s[k], base);
    assert s[k..|s|] == s[k..];
  }

  /** A number that takes in the whole text was spelled by it. */
  lemma ScanMeansSpelled(s: string, base: nat)
    requires (base == 10 || base == 16) && Scan(s, base).end == |s| > 0
    ensures Denotes(s, base, Signed(Scan(s, base)))
  {
    var i := SpacesEnd(s, 0);
    var j := SignEnd(s, i);
    var k := PrefixEnd(s, j, base);
    assert Spelled(s, base, i, j, k);
    ScanSpelled(s, base, i, j, k);
  }

  /** The whole text is a number, and which one. */
  lemma WholeTextIff(s: string, base: nat, v: int)
    requires base == 10 || base == 16
    ensures Denotes(s, base, v) <==> Scan(s, base).end == |s| > 0 && Signed(Scan(s, base)) == v
  {
    if Denotes(s, base, v) {
      var i, j, k :| Spelled(s, base, i, j, k) && v == SpelledValue(s, base, i, k);
      ScanSpelled(s, base, i, j, k);
    }
    if Scan(s, base).end == |s| > 0 {
      ScanMeansSpelled(s, base);
    }
  }

  /** The ranges, in figures. */
  lemma Ranges(v: int)
    ensures IntType(8, true).InRange(v) <==> -128 <= v <= 127
    ensures IntType(16, true).InRange(v) <==> -32_768 <= v <= 32_767
    ensures IntType(32, true).InRange(v) <==> -2_147_483_648 <= v <= 2_147_483_647
    ensures IntType(64, true).InRange(v) <==> -9_223_372_036_854_775_808 <= v <= 9_223_372_036_854_775_807
    ensures IntType(8, false).InRange(v) <==> 0 <= v <= 0xff
    ensures IntType(16, false).InRange(v) <==> 0 <= v <= 0xffff
    ensures IntType(32, false).InRange(v) <==> 0 <= v <= 0xffff_ffff
    ensures IntType(64, false).InRange(v) <==> 0 <= v <= 0xffff_ffff_ffff_ffff
  {
  }

  /** The characters the library takes for white space and digits. */
  lemma CharacterClasses(c: char)
    ensures IsSpace(c) <==> c as int in {9, 10, 11, 12, 13, 32}
    ensures IsDigit(c, 10) <==> c in "0123456789"
    ensures IsDigit(c, 16) <==> c in "0123456789abcdefABCDEF"
  {
    Consecutive(c, '0', "0123456789");
    Consecutive(c, 'a', "abcdef");
    Consecutive(c, 'A', "ABCDEF");
    assert "0123456789abcdefABCDEF" == "0123456789" + "abcdef" + "ABCDEF";
  }

  lemma Consecutive(c: char, first: char, s: string)
    requires first as int + |s| <= 128 && forall k :: 0 <= k < |s| ==> s[k] as int == first as int + k
    ensures c in s <==> first as int <= c as int < first as int + |s|
  {
    if first as int <= c as int < first as int + |s| {
      assert s[c as int - first as int] == c;
    }
  }

  lemma AssignedIff(t: IntType, v: int)
    requires t.Valid()
    ensures t.Assigned(v) == v <==> t.InRange(v)
  {
  }

  /** Into a signed variable the conversion succeeds exactly for texts that spell a value of its type, and
      gives that value: neither trailing characters nor a value too wide get through. */
  lemma SignedConversionIff(a: string, t: IntType, v: int)
    requires t.Valid() && t.signed
    ensures Convert(a, t) == Ok(v) <==> Denotes(Body(a), Base(a), v) && t.InRange(v)
  {
    WholeTextIff(Body(a), Base(a), v);
    AssignedIff(t, v);
    AssignedIff(t, Signed(Scan(Body(a), Base(a))));
  }

  /** Into an unsigned one a minus sign is not refused: strtoull has already wrapped the value. */
  lemma UnsignedConversionIff(a: string, t: IntType, v: int)
    requires t.Valid() && !t.signed
    ensures Convert(a, t) == Ok(v) <==>
      (exists w :: Denotes(Body(a), Base(a), w) && -TWO_64 < w < TWO_64 && v == w % TWO_64) && t.InRange(v)
  {
    var s, b := Body(a), Base(a);
    var w := Signed(Scan(s, b));
    AssignedIff(t, v);
    AssignedIff(t, w % TWO_64);
    WholeTextIff(s, b, w);
    if w' :| Denotes(s, b, w') && -TWO_64 < w' < TWO_64 && v == w' % TWO_64 {
      WholeTextIff(s, b, w');
    }
  }

  /** What was read is the longest number the text starts with. */
  lemma ScanPrefix(s: string, base: nat)
    requires (base == 10 || base == 16) && Scan(s, base).end > 0
    ensures var end := Scan(s, base).end;
      end <= |s| && Denotes(s[..end], base, Signed(Scan(s, base))) && (end < |s| ==> !IsDigit(s[end], base))
  {
    var i := SpacesEnd(s, 0);
    var j := SignEnd(s, i);
    var k := PrefixEnd(s, j, base);
    var end := Scan(s, base).end;
    assert Spelled(s[..end], base, i, j, k);
    assert s[..end][k..] == s[k..end];
    assert Signed(Scan(s, base)) == SpelledValue(s[..end], base, i, k);
  }

  /** Why a conversion fails: out of range if the text, or the number it starts with, is too large (for the
      type, or for 64 bits); invalid otherwise. */
  lemma FailureKind(a: string, t: IntType)
    requires t.Valid()
    ensures var n := Scan(Body(a), Base(a));
      Convert(a, t) == OutOfRange <==>
        if t.signed then
          || !(-0x8000_0000_0000_0000 <= Signed(n) < 0x8000_0000_0000_0000)
          || (Denotes(Body(a), Base(a), Signed(n)) && !t.InRange(Signed(n)))
        else
          || n.magnitude > 0xffff_ffff_ffff_ffff
          || (Denotes(Body(a), Base(a), Signed(n)) && !t.InRange(Signed(n) % 0x1_0000_0000_0000_0000))
  {
    var n := Scan(Body(a), Base(a));
    AssignedIff(t, Signed(n));
    AssignedIff(t, Signed(n) % TWO_64);
    WholeTextIff(Body(a), Base(a), Signed(n));
  }

  /** The character of a digit, in one case or the other. */
  function DigitChar(d: nat, upper: bool): (c: char)
    requires d < 16
    ensures IsDigit(c, 16) && DigitValue(c) == d && (d < 10 ==> IsDigit(c, 10))
    ensures c == if upper then "0123456789ABCDEF"[d] else "0123456789abcdef"[d]
  {
    if d < 10 then ('0' as int + d) as char
    else if upper then ('A' as int + (d - 10)) as char
    else ('a' as int + (d - 10)) as char
  }

  /** The usual digits of n. */
  function Digits(n: nat, base: nat, upper: bool): (s: string)
    requires base == 10 || base == 16
    ensures s != "" && AreDigits(s, 0, |s|, base)
  {
    if n < base then [DigitChar(n, upper)] else Digits(n / base, base, upper) + [DigitChar(n % base, upper)]
  }

  lemma {:induction false} DigitsValue(n: nat, base: nat, upper: bool)
    requires base == 10 || base == 16
    ensures Value(Digits(n, base, upper), base) == n
  {
    if n < base {
      var c := DigitChar(n, upper);
      assert Value([c], base) == Value("", base) * base + DigitValue(c) by {
        assert [c][..0] == "";
      }
    } else {
      DigitsValue(n / base, base, upper);
      var high, low := Digits(n / base, base, upper), DigitChar(n % base, upper);
      assert (high + [low])[..|high|] == high;
    }
  }

  /** And zeros in front of it change nothing. */
  lemma {:induction false} LeadingZero(s: string, base: nat)
    ensures Value("0" + s, base) == Value(s, base)
  {
    if s == "" {
      assert "0" + s == "0" && "0"[..0] == "";
    } else {
      var last := |s| - 1;
      LeadingZero(s[..last], base);
      assert ("0" + s)[..last + 1] == "0" + s[..last];
    }
  }

  function Decimal(v: int): string {
    if v < 0 then "-" + Digits(-v, 10, false) else Digits(v, 10, false)
  }

  function Hexadecimal(v: nat, upper: bool): string {
    (if upper then "0X" else "0x") + Digits(v, 16, upper)
  }

  lemma DecimalDenotes(v: int)
    ensures !HexPrefixed(Decimal(v)) && Denotes(Decimal(v), 10, v)
  {
    var s, k := Decimal(v), if v < 0 then 1 else 0;
    var digits := Digits(if v < 0 then -v else v, 10, false);
    DigitsValue(if v < 0 then -v else v, 10, false);
    assert s[k..] == digits;
    assert forall i :: k <= i < |s| ==> s[i] == digits[i - k];
    assert IsDigit(digits[0], 10);
    assert Spelled(s, 10, 0, k, k);
    assert v == SpelledValue(s, 10, 0, k);
  }

  lemma HexadecimalDenotes(v: nat, upper: bool)
    ensures HexPrefixed(Hexadecimal(v, upper)) && Body(Hexadecimal(v, upper)) == Digits(v, 16, upper)
    ensures Denotes(Digits(v, 16, upper), 16, v)
  {
    var s := Digits(v, 16, upper);
    DigitsValue(v, 16, upper);
    assert s[0..] == s;
    assert IsDigit(s[0], 16);
    assert Spelled(s, 16, 0, 0, 0);
    assert v == SpelledValue(s, 16, 0, 0);
  }

  /** Printing and converting: every value of the target type survives decimal text, and every one that is
      not negative survives hexadecimal text of either case. */
  lemma PrintThenConvert(v: int, t: IntType, upper: bool)
    requires t.Valid() && t.InRange(v)
    ensures Convert(Decimal(v), t) == Ok(v)
    ensures v >= 0 ==> Convert(Hexadecimal(v, upper), t) == Ok(v)
  {
    DecimalDenotes(v);
    TextConverts(Decimal(v), v, t);
    if v >= 0 {
      HexadecimalDenotes(v, upper);
      TextConverts(Hexadecimal(v, upper), v, t);
    }
  }

  lemma TextConverts(a: string, v: int, t: IntType)
    requires t.Valid() && t.InRange(v) && Denotes(Body(a), Base(a), v)
    ensures Convert(a, t) == Ok(v)
  {
    if t.signed {
      SignedConversionIff(a, t, v);
    } else {
      assert v == v % TWO_64 && -TWO_64 < v < TWO_64;
      UnsignedConversionIff(a, t, v);
    }
  }

  /** What the macro lets through that its name does not suggest: -1 into an unsigned 64-bit variable. */
  lemma MinusOneIsAccepted()
    ensures Convert(Decimal(-1), IntType(64, false)) == Ok(TWO_64 - 1)
  {
  }

  lemma DecoratedSpells(spaces: string, sign: char, digits: string)
    requires forall i :: 0 <= i < |spaces| ==> spaces[i] as int in {9, 10, 11, 12, 13, 32}
    requires (sign == '+' || sign == '-') && digits != "" && AreDigits(digits, 0, |digits|, 10)
    ensures var s, i := spaces + [sign] + digits, |spaces|;
      Spelled(s, 10, i, i + 1, i + 1) && s[i] == sign && s[i + 1..] == digits && !HexPrefixed(s)
  {
    var s, i := spaces + [sign] + digits, |spaces|;
    assert s[i + 1..] == digits && s[i] == sign;
    assert forall k :: 0 <= k < i ==> s[k] == spaces[k];
    assert forall k :: i + 1 <= k < |s| ==> s[k] == digits[k - i - 1];
  }

  /** White space and a sign may stand in front of decimal digits. */
  lemma SpaceAndSign(spaces: string, minus: bool, m: nat, v: int, t: IntType)
    requires v == (if minus then 0 - m else m) && t.Valid() && t.InRange(v)
    requires forall i :: 0 <= i < |spaces| ==> spaces[i] as int in {9, 10, 11, 12, 13, 32}
    ensures Convert(spaces + [if minus then '-' else '+'] + Digits(m, 10, false), t) == Ok(v)
  {
    var s, i := spaces + [if minus then '-' else '+'] + Digits(m, 10, false), |spaces|;
    DecoratedSpells(spaces, if minus then '-' else '+', Digits(m, 10, false));
    DigitsValue(m, 10, false);
    assert v == SpelledValue(s, 10, i, i + 1);
    TextConverts(s, v, t);
  }

  /** The library takes a prefix too, so one more is let through. */
  lemma SecondPrefix(v: nat, t: IntType, upper: bool)
    requires t.Valid() && t.InRange(v)
    ensures Convert("0x" + Hexadecimal(v, upper), t) == Ok(v)
  {
    var s, digits := Hexadecimal(v, upper), Digits(v, 16, upper);
    DigitsValue(v, 16, upper);
    assert s[2..] == digits && forall k :: 2 <= k < |s| ==> s[k] == digits[k - 2];
    assert Spelled(s, 16, 0, 0, 2) && SpelledValue(s, 16, 0, 2) == v;
    assert ("0x" + s)[2..] == s;
    TextConverts("0x" + s, v, t);
  }
}
