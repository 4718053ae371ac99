/** YANG integer and decimal64 values and their text. */
module Numbers {
  import opened Common
  import opened DecimalText

  /** A magnitude, the number of fraction digits (0 for an integer), and a sign. */
  datatype Number = Number(value: nat, fractionDigits: nat, negative: bool)

  const MAX_FRACTION_DIGITS: nat := 18

  /** What the Go fields can hold. */
  predicate Representable(n: Number) { n.value <= MAX_UINT64 && n.fractionDigits < 256 }

  /** The value in units of the last fraction digit. */
  function Units(n: Number): int { Negate(n.negative, n.value) }

  function Negate(negative: bool, v: int): int { if negative then -v else v }

  // ---- Text

  function ToString(n: Number): string {
    var digits := Numeral(n.value);
    var fd := n.fractionDigits;
    var unsigned :=
      if fd == 0 then digits
      else
        var padded := if |digits| <= fd then Zeros(fd - |digits| + 1) + digits else digits;
        padded[..|padded| - fd] + "." + padded[|padded| - fd..];
    if n.negative then "-" + unsigned else unsigned
  }

  predicate IsSpace(c: char) {
    c == ' ' || c == '\t' || c == '\n' || c == '\r' || c as int == 11 || c as int == 12
  }

  function TrimSpace(s: string): string
    decreases |s|
  {
    if s != "" && IsSpace(s[0]) then TrimSpace(s[1..])
    else if s != "" && IsSpace(s[|s| - 1]) then TrimSpace(s[..|s| - 1])
    else s
  }

  /** The index of the first c in s, or the length of s. */
  function IndexOf(s: string, c: char): (i: nat)
    ensures i <= |s| && (i < |s| ==> s[i] == c) && forall j :: 0 <= j < i ==> s[j] != c
  {
    if s == "" || s[0] == c then 0 else 1 + IndexOf(s[1..], c)
  }

  /** strconv.ParseInt with base 10 and 64 bits. */
  function ParseSigned(s: string): Option<int> {
    var negative := s != "" && s[0] == '-';
    var digits := if s != "" && (s[0] == '+' || s[0] == '-') then s[1..] else s;
    if digits == "" || !AllDigits(digits) then None
    else if !negative && Value(digits) > MAX_INT64 then None
    else if negative && Value(digits) > MAX_INT64 + 1 then None
    else Some(Negate(negative, Value(digits)))
  }

  function ParseDecimal(s: string, fd: nat): Option<Number> {
    var t := TrimSpace(s);
    if t == "" || t == "+" || t == "-" then None else DecimalValueFromString(t, fd)
  }

  function DecimalValueFromString(s: string, fd: nat): Option<Number> {
    if fd > MAX_FRACTION_DIGITS || fd < 1 then None
    else
      var dot := IndexOf(s, '.');
      var fraction := if dot == |s| then 0 else |s| - 1 - dot;
      var digits := if dot == |s| then s else s[..dot] + s[dot + 1..];
      if fraction > MAX_FRACTION_DIGITS || fraction > fd then None
      else match ParseSigned(digits + Zeros(fd - fraction))
        case None => None
        case Some(v) => Some(Number(if v < 0 then -v else v, fd, v < 0))
  }

  lemma {:induction false} NoDot(s: string)
    requires '.' !in s
    ensures IndexOf(s, '.') == |s|
  {
  }

  lemma DotAt(a: string, b: string)
    requires '.' !in a
    ensures IndexOf(a + "." + b, '.') == |a|
  {
    var s := a + "." + b;
    assert s[|a|] == '.';
    assert forall i :: 0 <= i < |a| ==> s[i] == a[i] && s[i] != '.';
  }

  lemma NoSpaceTrims(s: string)
    requires s != "" && !IsSpace(s[0]) && !IsSpace(s[|s| - 1])
    ensures TrimSpace(s) == s
  {
  }

  /** The digits of a number's text without dot and sign, and how many follow the dot. */
  function PaddedDigits(n: Number): (s: string)
    ensures |s| > n.fractionDigits && AllDigits(s)
  {
    var digits := Numeral(n.value);
    if |digits| <= n.fractionDigits then Zeros(n.fractionDigits - |digits| + 1) + digits else digits
  }

  lemma PaddedValue(n: Number)
    ensures Value(PaddedDigits(n)) == n.value
  {
    var digits := Numeral(n.value);
    NumeralValue(n.value);
    if |digits| <= n.fractionDigits {
      LeadingZeros(n.fractionDigits - |digits| + 1, digits);
    }
  }

  function Signed(negative: bool, s: string): string { if negative then "-" + s else s }

  lemma SignedParses(negative: bool, s: string)
    requires AllDigits(s) && s != ""
    ensures ParseSigned(Signed(negative, s)) ==
              if (if negative then Value(s) > MAX_INT64 + 1 else Value(s) > MAX_INT64) then None
              else Some(Negate(negative, Value(s)))
  {
    assert IsDigit(s[0]);
    if negative {
      assert ("-" + s)[1..] == s;
    }
  }

  /** The text of a number with fraction digits: its digits with a dot, after the sign. */
  lemma FractionText(n: Number)
    requires n.fractionDigits > 0
    ensures var p := PaddedDigits(n);
            ToString(n) == Signed(n.negative, p[..|p| - n.fractionDigits]) + "." + p[|p| - n.fractionDigits..]
  {
  }

  /** A sign and digits, a dot, and more digits: the dot is where it should be and nothing is trimmed. */
  lemma DottedText(negative: bool, whole: string, frac: string)
    requires AllDigits(whole) && AllDigits(frac) && whole != "" && frac != ""
    ensures var a, s := Signed(negative, whole), Signed(negative, whole) + "." + frac;
            && TrimSpace(s) == s && IndexOf(s, '.') == |a|
            && s[..|a|] == a && s[|a| + 1..] == frac
  {
    hide TrimSpace, IndexOf;
    var a := Signed(negative, whole);
    var s := a + "." + frac;
    assert forall i :: 0 <= i < |a| ==> a[i] == '-' || IsDigit(a[i]);
    assert '.' !in a;
    DotAt(a, frac);
    assert s[0] == a[0] && s[|s| - 1] == frac[|frac| - 1];
    NoSpaceTrims(s);
  }

  lemma SplitDigits(p: string, k: nat)
    requires AllDigits(p) && k <= |p|
    ensures AllDigits(p[..k]) && AllDigits(p[k..]) && p == p[..k] + p[k..]
  {
  }

  lemma SignedJoin(negative: bool, a: string, b: string)
    ensures Signed(negative, a) + b == Signed(negative, a + b)
  {
    assert "-" + a + b == "-" + (a + b);
  }

  /** How the parser takes the text of a number apart. */
  lemma OwnFractionText(n: Number)
    requires n.fractionDigits > 0
    ensures var s, p := ToString(n), PaddedDigits(n);
            var dot := IndexOf(s, '.');
            && TrimSpace(s) == s && |s| > 1
            && dot < |s| && |s| - 1 - dot == n.fractionDigits && s[..dot] + s[dot + 1..] == Signed(n.negative, p)
  {
    hide ToString, PaddedDigits, TrimSpace, IndexOf, Signed, AllDigits;
    var p, fd := PaddedDigits(n), n.fractionDigits;
    FractionText(n);
    SplitDigits(p, |p| - fd);
    DottedText(n.negative, p[..|p| - fd], p[|p| - fd..]);
    SignedJoin(n.negative, p[..|p| - fd], p[|p| - fd..]);
  }

  lemma OwnIntegerText(n: Number)
    requires n.fractionDigits == 0
    ensures var s := ToString(n);
            && TrimSpace(s) == s && s != "" && s != "+" && s != "-"
            && IndexOf(s, '.') == |s| && s == Signed(n.negative, PaddedDigits(n)) && PaddedDigits(n) == Numeral(n.value)
  {
    hide TrimSpace, Numeral;
    var s := ToString(n);
    assert forall i :: 0 <= i < |s| ==> s[i] != '.';
    NoDot(s);
    assert IsDigit(s[|s| - 1]);
    NoSpaceTrims(s);
  }

  /**
   Reading a number's text with enough fraction digits gives the same value, written with
   those digits, if it fits; minus zero becomes zero.
   */
  lemma DecimalReadBack(n: Number, fd: nat)
    requires n.fractionDigits <= fd && 1 <= fd <= MAX_FRACTION_DIGITS
    ensures var scaled := n.value * Pow10(fd - n.fractionDigits);
            ParseDecimal(ToString(n), fd) ==
              if scaled <= (if n.negative then MAX_INT64 + 1 else MAX_INT64)
              then Some(Number(scaled, fd, n.negative && scaled > 0)) else None
  {
    hide ToString, TrimSpace, IndexOf, ParseSigned, PaddedDigits, Numeral, Value, Pow10;
    var p, k := PaddedDigits(n), fd - n.fractionDigits;
    PaddedShape(n);
    PaddedValue(n);
    TrailingZeros(p, k);
    SignedParses(n.negative, p + Zeros(k));
    assert Signed(n.negative, p) + Zeros(k) == Signed(n.negative, p + Zeros(k));
    if n.fractionDigits == 0 {
      OwnIntegerText(n);
    } else {
      OwnFractionText(n);
    }
  }

  /** The condition under which a number survives being written and read back as a decimal64 of fd fraction digits. */
  predicate SurvivesDecimal(n: Number, fd: nat) {
    && n.fractionDigits == fd && 1 <= fd <= MAX_FRACTION_DIGITS
    && !(n.negative && n.value == 0)
    && n.value <= (if n.negative then MAX_INT64 + 1 else MAX_INT64)
  }

  /** Reading back a number's text gives the number exactly when it is a decimal64 value other than minus zero. */
  lemma DecimalRoundTrip(n: Number, fd: nat)
    ensures ParseDecimal(ToString(n), fd) == Some(n) <==> SurvivesDecimal(n, fd)
  {
    hide ToString, TrimSpace, IndexOf, ParseSigned;
    if n.fractionDigits == fd && 1 <= fd <= MAX_FRACTION_DIGITS {
      DecimalReadBack(n, fd);
    }
  }

  lemma PaddedShape(n: Number)
    ensures PaddedDigits(n) != "" && AllDigits(PaddedDigits(n))
  {
  }

  // ---- Integer text

  /** A digit in bases up to 16. */
  function AnyDigit(c: char): (d: nat) {
    if '0' <= c <= '9' then c as int - '0' as int
    else if 'a' <= c <= 'f' then c as int - 'a' as int + 10
    else if 'A' <= c <= 'F' then c as int - 'A' as int + 10
    else 16
  }

  predicate AllInBase(s: string, base: nat) { forall i :: 0 <= i < |s| ==> AnyDigit(s[i]) < base }

  function ValueInBase(s: string, base: nat): nat
    requires AllInBase(s, base)
  {
    if s == "" then 0 else ValueInBase(s[..|s| - 1], base) * base + AnyDigit(s[|s| - 1])
  }

  /** strconv.ParseUint with base 0 and 64 bits, for text without underscores: the prefix chooses the base. */
  function ParseUnsignedAnyBase(s: string): Option<nat> {
    if s == "" then None
    else
      var prefixed := s[0] == '0' && |s| >= 3;
      var base, digits :=
        if prefixed && (s[1] == 'b' || s[1] == 'B') then 2 else if prefixed && (s[1] == 'o' || s[1] == 'O') then 8
        else if prefixed && (s[1] == 'x' || s[1] == 'X') then 16 else if s[0] == '0' then 8 else 10,
        if prefixed && (s[1] in {'b', 'B', 'o', 'O', 'x', 'X'}) then s[2..] else if s[0] == '0' then s[1..] else s;
      if AllInBase(digits, base) && ValueInBase(digits, base) <= MAX_UINT64 then Some(ValueInBase(digits, base))
      else None
  }

  function ParseInt(s: string): Option<Number> {
    var t := TrimSpace(s);
    if t == "" || t == "+" || t == "-" then None
    else match ParseUnsignedAnyBase(if t[0] == '+' || t[0] == '-' then t[1..] else t)
      case None => None
      case Some(v) => Some(Number(v, 0, t[0] == '-'))
  }

  lemma {:induction false} DecimalInBase(s: string)
    requires AllDigits(s)
    ensures AllInBase(s, 10) && ValueInBase(s, 10) == Value(s)
  {
    if s != "" {
      assert IsDigit(s[|s| - 1]);
      DecimalInBase(s[..|s| - 1]);
    }
  }

  /** Every integer number, minus zero included, is read back from its text. */
  lemma IntegerRoundTrip(n: Number)
    requires Representable(n) && n.fractionDigits == 0
    ensures ParseInt(ToString(n)) == Some(n)
  {
    hide TrimSpace, IndexOf;
    OwnIntegerText(n);
    var digits := Numeral(n.value);
    NumeralValue(n.value);
    DecimalInBase(digits);
    assert IsDigit(digits[0]);
    assert PaddedDigits(n) == digits;
    assert n.negative ==> ToString(n)[1..] == digits;
    if n.value == 0 {
      assert digits[1..] == "";
    }
  }

  /** Octal digits stand for less than the same decimal digits, unless there is but one that counts. */
  lemma {:induction false} OctalIsLess(s: string)
    requires AllDigits(s)
    ensures AllInBase(s, 8) ==> ValueInBase(s, 8) <= Value(s) && (ValueInBase(s, 8) == Value(s) <==> Value(s) < 8)
    ensures !AllInBase(s, 8) ==> Value(s) >= 8
  {
    if s != "" {
      var init := s[..|s| - 1];
      assert IsDigit(s[|s| - 1]);
      OctalIsLess(init);
    }
  }

  /** How ParseInt reads text that is digits only: as decimal, or as octal after a leading zero. */
  lemma DigitsParsed(s: string)
    requires s != "" && AllDigits(s)
    ensures ParseInt(s) ==
              if s[0] != '0' then if Value(s) <= MAX_UINT64 then Some(Number(Value(s), 0, false)) else None
              else if AllInBase(s[1..], 8) && ValueInBase(s[1..], 8) <= MAX_UINT64 then
                Some(Number(ValueInBase(s[1..], 8), 0, false))
              else None
  {
    hide TrimSpace;
    assert IsDigit(s[0]) && IsDigit(s[|s| - 1]);
    NoSpaceTrims(s);
    if s[0] != '0' {
      DecimalInBase(s);
    } else if |s| >= 3 {
      assert IsDigit(s[1]);
    }
  }

  /**
   Digits are read as the decimal number they write exactly when it fits and no zero comes
   before a number of eight or more.
   */
  lemma DigitsReadAsDecimal(s: string)
    requires s != "" && AllDigits(s)
    ensures ParseInt(s) == Some(Number(Value(s), 0, false)) <==> Value(s) <= MAX_UINT64 && (s[0] != '0' || Value(s) < 8)
  {
    hide ParseInt, AllInBase;
    DigitsParsed(s);
    if s[0] == '0' {
      var rest := s[1..];
      assert AllDigits(rest);
      assert Zeros(1) == "0" && s == Zeros(1) + rest;
      LeadingZeros(1, rest);
      OctalIsLess(rest);
    }
  }

  /** Integer text with a leading zero is read as octal, although decimal text is not. */
  lemma LeadingZeroIsOctal()
    ensures ParseInt("010") == Some(Number(8, 0, false))
    ensures ParseDecimal("010", 1) == Some(Number(100, 1, false))
  {
    hide TrimSpace, DecimalValueFromString, AllInBase, ValueInBase;
    NoSpaceTrims("010");
    OctalTen();
    DecimalTen();
  }

  lemma OctalTen()
    ensures AllInBase("10", 8) && ValueInBase("10", 8) == 8 && "010"[1..] == "10"
  {
    assert "10"[..1] == "1" && "1"[..0] == "";
    assert ValueInBase("1", 8) == 1;
  }

  lemma DecimalTen()
    ensures DecimalValueFromString("010", 1) == Some(Number(100, 1, false))
  {
    hide Value, TrimSpace;
    NoDot("010");
    assert Zeros(1) == "0" && "010" + "0" == "0100";
    OneHundred();
  }

  lemma OneHundred()
    ensures AllDigits("0100") && Value("0100") == 100
  {
    assert "0100"[..3] == "010" && "010"[..2] == "01" && "01"[..1] == "0" && "0"[..0] == "";
    assert Value("0") == 0;
    assert Value("01") == 1;
    assert Value("010") == 10;
  }
}
