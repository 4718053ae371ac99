/** Exactly which texts are read as numbers: digits in positional notation, prefixes, signs and dots. */
module NumberTexts {
  import opened Common
  import opened DecimalText
  import opened Numbers

  // ---- Positional notation

  const LOWER: string := "0123456789abcdef"
  const UPPER: string := "0123456789ABCDEF"

  /** A digit, by its place among the hexadecimal digits; 16 for other characters. */
  function Digit(c: char): nat { if c in LOWER then IndexOf(LOWER, c) else IndexOf(UPPER, c) }

  function Power(base: nat, n: nat): int { if n == 0 then 1 else base * Power(base, n - 1) }

  /** Each digit times the power of the base that belongs to its place. */
  function Positional(s: string, base: nat): int {
    if s == "" then 0 else Digit(s[0]) * Power(base, |s| - 1) + Positional(s[1..], base)
  }

  ghost predicate DigitsOf(s: string, base: nat) { forall c :: c in s ==> Digit(c) < base }

  lemma DigitIsAnyDigit(c: char)
    ensures AnyDigit(c) == Digit(c)
  {
    var d := AnyDigit(c);
    if d < 16 {
      DigitAtPlace(c, d);
    } else if c in LOWER {
      var k :| 0 <= k < 16 && LOWER[k] == c;
      PlaceOfDigit(k);
    } else if c in UPPER {
      var k :| 0 <= k < 16 && UPPER[k] == c;
      PlaceOfDigit(k);
    } else {
      NotFound(UPPER, c);
    }
  }

  lemma NotFound(s: string, c: char)
    requires c !in s
    ensures IndexOf(s, c) == |s|
  {
  }

  lemma PlaceOfDigit(k: nat)
    requires k < 16
    ensures AnyDigit(LOWER[k]) == k && AnyDigit(UPPER[k]) == k
  {
    if k < 10 {
      assert LOWER[k] == UPPER[k] == ('0' as int + k) as char;
    } else {
      assert LOWER[k] == ('a' as int + (k - 10)) as char && UPPER[k] == ('A' as int + (k - 10)) as char;
    }
  }

  lemma DigitAtPlace(c: char, d: nat)
    requires d < 16 && AnyDigit(c) == d
    ensures Digit(c) == d
  {
    hide AnyDigit;
    if c in LOWER {
      var k := IndexOf(LOWER, c);
      Found(LOWER, c);
      PlaceOfDigit(k);
    } else {
      UpperDigit(c, d);
      var k := IndexOf(UPPER, c);
      Found(UPPER, c);
      PlaceOfDigit(k);
    }
  }

  lemma Found(s: string, c: char)
    requires c in s
    ensures IndexOf(s, c) < |s|
  {
    var k :| 0 <= k < |s| && s[k] == c;
    assert IndexOf(s, c) <= k;
  }

  lemma UpperDigit(c: char, d: nat)
    requires d < 16 && AnyDigit(c) == d
    ensures c in LOWER || c in UPPER
  {
    if 'A' <= c <= 'F' {
      assert UPPER[d] == c;
    } else {
      assert LOWER[d] == c;
    }
  }

  lemma {:induction false} PositionalAppend(s: string, c: char, base: nat)
    ensures Positional(s + [c], base) == Positional(s, base) * base + Digit(c)
  {
    hide Digit;
    if s == "" {
      assert s + [c] == [c] && [c][1..] == "";
    } else {
      assert (s + [c])[1..] == s[1..] + [c];
      PositionalAppend(s[1..], c, base);
      var d, p := Digit(s[0]), Power(base, |s| - 1);
      assert Power(base, |s|) == base * p;
      Regroup(d, base, p);
      Distribute(d * p, Positional(s[1..], base), base);
    }
  }

  lemma Regroup(a: int, b: int, c: int)
    ensures a * (b * c) == a * c * b
  {
  }

  lemma Distribute(a: int, b: int, c: int)
    ensures (a + b) * c == a * c + b * c
  {
  }

  lemma {:induction false} ValueIsPositional(s: string, base: nat)
    ensures AllInBase(s, base) <==> DigitsOf(s, base)
    ensures AllInBase(s, base) ==> ValueInBase(s, base) == Positional(s, base)
  {
    forall c
      ensures AnyDigit(c) == Digit(c)
    {
      DigitIsAnyDigit(c);
    }
    if s != "" {
      var init, last := s[..|s| - 1], s[|s| - 1];
      assert s == init + [last];
      ValueIsPositional(init, base);
      PositionalAppend(init, last, base);
    }
  }

  lemma {:induction false} DecimalIsPositional(s: string)
    ensures AllDigits(s) <==> DigitsOf(s, 10)
    ensures AllDigits(s) ==> Value(s) == Positional(s, 10)
  {
    forall c
      ensures AnyDigit(c) == Digit(c)
    {
      DigitIsAnyDigit(c);
    }
    if AllDigits(s) {
      DecimalInBase(s);
      ValueIsPositional(s, 10);
    }
    if DigitsOf(s, 10) {
      forall i | 0 <= i < |s|
        ensures IsDigit(s[i])
      {
        assert s[i] in s && AnyDigit(s[i]) < 10;
      }
    }
  }

  // ---- White space around

  ghost predicate AllSpace(s: string) { forall c :: c in s ==> IsSpace(c) }

  /** t is s without the white space around it. */
  ghost predicate Inside(s: string, t: string) {
    && (exists left, right :: s == left + t + right && AllSpace(left) && AllSpace(right))
    && (t != "" ==> !IsSpace(t[0]) && !IsSpace(t[|t| - 1]))
  }

  lemma {:induction false} Trimming(s: string) returns (left: string, right: string)
    ensures s == left + TrimSpace(s) + right && AllSpace(left) && AllSpace(right)
    decreases |s|
  {
    hide IsSpace;
    left, right := "", "";
    if s != "" && IsSpace(s[0]) {
      left, right := Trimming(s[1..]);
      assert s == [s[0]] + s[1..];
      left := [s[0]] + left;
    } else if s != "" && IsSpace(s[|s| - 1]) {
      left, right := Trimming(s[..|s| - 1]);
      assert s == s[..|s| - 1] + [s[|s| - 1]];
      right := right + [s[|s| - 1]];
    } else {
      assert s == "" + s + "";
    }
  }

  lemma {:induction false} TrimmedEnds(s: string)
    ensures var t := TrimSpace(s); t != "" ==> !IsSpace(t[0]) && !IsSpace(t[|t| - 1])
    decreases |s|
  {
    hide IsSpace;
    if s != "" && IsSpace(s[0]) {
      TrimmedEnds(s[1..]);
    } else if s != "" && IsSpace(s[|s| - 1]) {
      TrimmedEnds(s[..|s| - 1]);
    }
  }

  lemma TrimmedInside(s: string)
    ensures Inside(s, TrimSpace(s))
  {
    hide IsSpace, TrimSpace, AllSpace;
    var left, right := Trimming(s);
    TrimmedEnds(s);
  }

  lemma {:induction false} InsideIsTrimmed(s: string, left: string, t: string, right: string)
    requires s == left + t + right && AllSpace(left) && AllSpace(right)
    requires t != "" ==> !IsSpace(t[0]) && !IsSpace(t[|t| - 1])
    ensures t == TrimSpace(s)
    decreases |s|
  {
    hide IsSpace;
    if left != "" {
      assert left[0] in left && s[1..] == left[1..] + t + right;
      assert forall c :: c in left[1..] ==> c in left;
      InsideIsTrimmed(s[1..], left[1..], t, right);
    } else if right != "" {
      var init := right[..|right| - 1];
      assert right[|right| - 1] in right && s[..|s| - 1] == left + t + init;
      assert forall c :: c in init ==> c in right;
      if t == "" {
        assert s[0] in right && s[1..] == left + t + right[1..];
        assert forall c :: c in right[1..] ==> c in right;
        InsideIsTrimmed(s[1..], left, t, right[1..]);
      } else {
        InsideIsTrimmed(s[..|s| - 1], left, t, init);
      }
    } else {
      assert s == t;
    }
  }

  lemma InsideOnly(s: string, t: string)
    ensures Inside(s, t) <==> t == TrimSpace(s)
  {
    hide IsSpace, TrimSpace, AllSpace;
    TrimmedInside(s);
    if Inside(s, t) {
      var left, right :| s == left + t + right && AllSpace(left) && AllSpace(right);
      InsideIsTrimmed(s, left, t, right);
    }
  }

  // ---- Integers

  /** The prefixes and the bases they stand for. */
  ghost predicate Notation(prefix: string, base: nat) {
    || (prefix == "" && base == 10)
    || (prefix in {"0", "0o", "0O"} && base == 8)
    || (prefix in {"0b", "0B"} && base == 2)
    || (prefix in {"0x", "0X"} && base == 16)
  }

  /** u writes v: a prefix and digits of its base; decimal digits do not start with a zero. */
  ghost predicate Unsigned(u: string, v: nat) { exists prefix, base :: UnsignedIn(u, v, prefix, base) }

  ghost predicate UnsignedIn(u: string, v: nat, prefix: string, base: nat) {
    && Notation(prefix, base) && |prefix| <= |u| && prefix == u[..|prefix|]
    && var digits := u[|prefix|..];
       && DigitsOf(digits, base) && v == Positional(digits, base)
       && (prefix != "0" ==> digits != "") && (prefix == "" ==> digits[0] != '0')
  }

  lemma UnsignedExactly(u: string, v: nat)
    ensures ParseUnsignedAnyBase(u) == Some(v) <==> Unsigned(u, v) && v <= MAX_UINT64
  {
    hide AllInBase, ValueInBase, Positional, DigitsOf, AnyDigit;
    forall s: string, base: nat
      ensures AllInBase(s, base) <==> DigitsOf(s, base)
      ensures AllInBase(s, base) ==> ValueInBase(s, base) == Positional(s, base)
    {
      ValueIsPositional(s, base);
    }
    if ParseUnsignedAnyBase(u) == Some(v) {
      ParsedIsUnsigned(u, v);
    }
    if Unsigned(u, v) && v <= MAX_UINT64 {
      var prefix, base :| UnsignedIn(u, v, prefix, base);
      UnsignedIsParsed(u, v, prefix, base);
    }
  }

  lemma ParsedIsUnsigned(u: string, v: nat)
    requires forall s: string, base: nat :: AllInBase(s, base) <==> DigitsOf(s, base)
    requires forall s: string, base: nat :: AllInBase(s, base) ==> ValueInBase(s, base) == Positional(s, base)
    requires ParseUnsignedAnyBase(u) == Some(v)
    ensures Unsigned(u, v)
  {
    hide AllInBase, ValueInBase, Positional, DigitsOf, AnyDigit;
    var prefixed := u[0] == '0' && |u| >= 3 && u[1] in {'b', 'B', 'o', 'O', 'x', 'X'};
    var prefix := if prefixed then u[..2] else if u[0] == '0' then "0" else "";
    var base := if !prefixed then if u[0] == '0' then 8 else 10
                else if u[1] in {'b', 'B'} then 2 else if u[1] in {'o', 'O'} then 8 else 16;
    assert prefixed ==> prefix == ['0', u[1]];
    assert u[..1] == [u[0]] && u[..0] == "" && u[0..] == u;
    assert UnsignedIn(u, v, prefix, base);
  }

  lemma UnsignedIsParsed(u: string, v: nat, prefix: string, base: nat)
    requires forall s: string, base: nat :: AllInBase(s, base) <==> DigitsOf(s, base)
    requires forall s: string, base: nat :: AllInBase(s, base) ==> ValueInBase(s, base) == Positional(s, base)
    requires UnsignedIn(u, v, prefix, base) && v <= MAX_UINT64
    ensures ParseUnsignedAnyBase(u) == Some(v)
  {
    hide AllInBase, ValueInBase, Positional, AnyDigit;
    if prefix == "" {
      assert u[0..] == u;
    } else if prefix == "0" {
      assert u[0] == prefix[0];
      if |u| >= 2 {
        assert u[1..][0] in u[1..] && u[1..][0] == u[1];
        LettersAreNoOctal();
      }
    } else {
      assert u[0] == prefix[0] && u[1] == prefix[1];
      assert u[2..] != "";
    }
  }

  lemma LettersAreNoOctal()
    ensures forall c :: c in {'b', 'B', 'o', 'O', 'x', 'X'} ==> Digit(c) >= 8
  {
    forall c | c in {'b', 'B', 'o', 'O', 'x', 'X'}
      ensures Digit(c) >= 8
    {
      DigitIsAnyDigit(c);
    }
  }

  ghost predicate Sign(sign: string, negative: bool) { if negative then sign == "-" else sign == "" || sign == "+" }

  /** A sign, if any, and an unsigned integer, with white space around. */
  ghost predicate IntegerText(s: string, n: Number) {
    n.fractionDigits == 0 && exists t, sign ::
      Inside(s, t) && |sign| <= |t| && sign == t[..|sign|] && Sign(sign, n.negative) && Unsigned(t[|sign|..], n.value)
  }

  /** ParseInt reads exactly the integer texts whose value fits. */
  lemma IntegerExactly(s: string, n: Number)
    ensures ParseInt(s) == Some(n) <==> IntegerText(s, n) && n.value <= MAX_UINT64
  {
    hide ParseInt, IntegerText;
    if ParseInt(s) == Some(n) {
      ParsedIsIntegerText(s, n);
    }
    if IntegerText(s, n) && n.value <= MAX_UINT64 {
      IntegerTextIsParsed(s, n);
    }
  }

  lemma ParsedIsIntegerText(s: string, n: Number)
    requires ParseInt(s) == Some(n)
    ensures IntegerText(s, n) && n.value <= MAX_UINT64
  {
    hide ParseUnsignedAnyBase, Unsigned, TrimSpace, Inside;
    var t := TrimSpace(s);
    InsideOnly(s, t);
    var sign := if t[0] == '+' || t[0] == '-' then t[..1] else "";
    assert t[..1] == [t[0]] && t[..0] == "" && t[0..] == t;
    UnsignedExactly(t[|sign|..], n.value);
    assert Sign(sign, n.negative);
  }

  lemma IntegerTextIsParsed(s: string, n: Number)
    requires IntegerText(s, n) && n.value <= MAX_UINT64
    ensures ParseInt(s) == Some(n)
  {
    hide ParseUnsignedAnyBase, Unsigned, TrimSpace, Inside, Sign;
    var t, sign :| Inside(s, t) && |sign| <= |t| && sign == t[..|sign|] && Sign(sign, n.negative)
                   && Unsigned(t[|sign|..], n.value);
    InsideOnly(s, t);
    var u := t[|sign|..];
    assert t == sign + u;
    UnsignedExactly(u, n.value);
    UnsignedStart(u, n.value);
    SignThenRest(t, sign, u, n.negative);
  }

  lemma SignThenRest(t: string, sign: string, u: string, negative: bool)
    requires t == sign + u && Sign(sign, negative) && u != "" && u[0] != '+' && u[0] != '-'
    ensures t != "" && t != "+" && t != "-" && negative == (t[0] == '-')
    ensures (if t[0] == '+' || t[0] == '-' then t[1..] else t) == u
  {
    if sign == "" {
      assert t == u;
    } else {
      assert t[0] == sign[0] && t[1..] == u && |t| > 1;
    }
  }

  lemma UnsignedStart(u: string, v: nat)
    requires Unsigned(u, v)
    ensures u != "" && u[0] != '+' && u[0] != '-'
  {
    hide Digit, Positional;
    var prefix, base :| UnsignedIn(u, v, prefix, base);
    if prefix == "" {
      assert u[0..] == u && u[0] in u;
      SignsAreNoDigits();
    } else {
      assert u[0] == prefix[0] == '0';
    }
  }

  lemma SignsAreNoDigits()
    ensures Digit('+') >= 16 && Digit('-') >= 16
  {
    DigitIsAnyDigit('+');
    DigitIsAnyDigit('-');
  }

  // ---- Decimals

  /** a is t without its first dot, and k characters follow the dot. */
  ghost predicate WithoutDot(t: string, a: string, k: nat) {
    || ('.' !in t && a == t && k == 0)
    || exists whole, frac :: FirstDot(t, whole, frac) && a == whole + frac && k == |frac|
  }

  ghost predicate FirstDot(t: string, whole: string, frac: string) { t == whole + "." + frac && '.' !in whole }

  /**
   A sign, if any, and digits, with a dot somewhere: even before the sign or next to no digit
   at all.  The digits count in units of the last required fraction digit.
   */
  ghost predicate DecimalWritten(s: string, fd: nat, n: Number) {
    exists t, a, k, sign, negative ::
      Inside(s, t) && WithoutDot(t, a, k) && Decimal(t, a, k, sign, negative, fd, n)
  }

  ghost predicate Decimal(t: string, a: string, k: nat, sign: string, negative: bool, fd: nat, n: Number) {
    && t !in {"", "+", "-"} && k <= fd && |sign| <= |a| && sign == a[..|sign|] && Sign(sign, negative)
    && DigitsOf(a[|sign|..], 10) && (a[|sign|..] != "" || k < fd)
    && n.value == Positional(a[|sign|..] + Zeros(fd - k), 10)
    && n.fractionDigits == fd && n.negative == (negative && n.value > 0)
    && n.value <= if negative then MAX_INT64 + 1 else MAX_INT64
  }

  lemma DotExactly(t: string, a: string, k: nat)
    ensures WithoutDot(t, a, k) <==>
            var dot := IndexOf(t, '.');
            a == (if dot == |t| then t else t[..dot] + t[dot + 1..]) && k == if dot == |t| then 0 else |t| - 1 - dot
  {
    hide FirstDot, IndexOf;
    var dot := IndexOf(t, '.');
    assert '.' in t <==> dot < |t|;
    if WithoutDot(t, a, k) && dot < |t| {
      var whole, frac :| FirstDot(t, whole, frac) && a == whole + frac && k == |frac|;
      FirstDotIsFirst(t, whole, frac);
    }
    if dot < |t| {
      SplitAtDot(t);
    } else if whole, frac :| FirstDot(t, whole, frac) {
      FirstDotIsFirst(t, whole, frac);
    }
  }

  lemma FirstDotIsFirst(t: string, whole: string, frac: string)
    requires FirstDot(t, whole, frac)
    ensures var dot := IndexOf(t, '.'); dot < |t| && whole == t[..dot] && frac == t[dot + 1..]
  {
    hide IndexOf;
    DotAt(whole, frac);
    assert t[..|whole|] == whole;
    assert t[|whole| + 1..] == frac;
  }

  lemma SplitAtDot(t: string)
    requires IndexOf(t, '.') < |t|
    ensures var dot := IndexOf(t, '.'); FirstDot(t, t[..dot], t[dot + 1..])
  {
    hide IndexOf;
    var dot := IndexOf(t, '.');
    var whole := t[..dot];
    forall i | 0 <= i < |whole|
      ensures whole[i] != '.'
    {
      assert whole[i] == t[i];
    }
    AroundPosition(t, dot);
  }

  lemma AroundPosition(t: string, k: nat)
    requires k < |t|
    ensures t == t[..k] + [t[k]] + t[k + 1..]
  {
  }

  /** Signed digits: what the 64-bit parser reads. */
  lemma SignedExactly(s: string, v: int)
    ensures ParseSigned(s) == Some(v) <==>
            exists sign, negative ::
              && |sign| <= |s| && sign == s[..|sign|] && Sign(sign, negative) && s[|sign|..] != ""
              && DigitsOf(s[|sign|..], 10) && v == Negate(negative, Positional(s[|sign|..], 10))
              && Positional(s[|sign|..], 10) <= if negative then MAX_INT64 + 1 else MAX_INT64
  {
    hide DigitsOf, Positional, AllDigits, Value;
    forall u: string
      ensures AllDigits(u) <==> DigitsOf(u, 10)
      ensures AllDigits(u) ==> Value(u) == Positional(u, 10)
    {
      DecimalIsPositional(u);
    }
    assert s[0..] == s && s[..0] == "" && (s != "" ==> s[..1] == [s[0]]);
    if ParseSigned(s) == Some(v) {
      var sign := if s != "" && (s[0] == '+' || s[0] == '-') then s[..1] else "";
      assert Sign(sign, s != "" && s[0] == '-');
    }
    if sign, negative :| |sign| <= |s| && sign == s[..|sign|] && Sign(sign, negative) && s[|sign|..] != ""
                         && DigitsOf(s[|sign|..], 10) && v == Negate(negative, Positional(s[|sign|..], 10))
                         && Positional(s[|sign|..], 10) <= if negative then MAX_INT64 + 1 else MAX_INT64 {
      assert s == sign + s[|sign|..];
      DigitsHaveNoSign(s[|sign|..]);
      SignThenRest(s, sign, s[|sign|..], negative);
    }
  }

  lemma DigitsHaveNoSign(u: string)
    requires DigitsOf(u, 10) && u != ""
    ensures u[0] != '+' && u[0] != '-'
  {
    hide Digit;
    SignsAreNoDigits();
    assert u[0] in u;
  }

  /** ParseDecimal reads exactly the decimal texts whose value fits int64. */
  lemma DecimalExactly(s: string, fd: nat, n: Number)
    ensures ParseDecimal(s, fd) == Some(n) <==> 1 <= fd <= MAX_FRACTION_DIGITS && DecimalWritten(s, fd, n)
  {
    hide ParseDecimal, DecimalWritten;
    if ParseDecimal(s, fd) == Some(n) {
      ParsedIsDecimal(s, fd, n);
    }
    if 1 <= fd <= MAX_FRACTION_DIGITS && DecimalWritten(s, fd, n) {
      DecimalIsParsed(s, fd, n);
    }
  }

  lemma ParsedIsDecimal(s: string, fd: nat, n: Number)
    requires ParseDecimal(s, fd) == Some(n)
    ensures 1 <= fd <= MAX_FRACTION_DIGITS && DecimalWritten(s, fd, n)
  {
    hide Inside, TrimSpace, IndexOf, ParseSigned, DigitsOf, Positional, Zeros, WithoutDot, Sign;
    var t := TrimSpace(s);
    InsideOnly(s, t);
    var dot := IndexOf(t, '.');
    var k := if dot == |t| then 0 else |t| - 1 - dot;
    var a := if dot == |t| then t else t[..dot] + t[dot + 1..];
    DotExactly(t, a, k);
    var zeros := Zeros(fd - k);
    var v := ParseSigned(a + zeros).value;
    SignedExactly(a + zeros, v);
    var sign, negative :|
      && |sign| <= |a + zeros| && sign == (a + zeros)[..|sign|] && Sign(sign, negative) && (a + zeros)[|sign|..] != ""
      && DigitsOf((a + zeros)[|sign|..], 10) && v == Negate(negative, Positional((a + zeros)[|sign|..], 10))
      && Positional((a + zeros)[|sign|..], 10) <= if negative then MAX_INT64 + 1 else MAX_INT64;
    SignBeforeZeros(a, zeros, sign, negative);
    assert (a + zeros)[|sign|..] == a[|sign|..] + zeros;
    DigitsOfBoth(a[|sign|..], zeros, 10);
    PositionalNatural(a[|sign|..] + zeros, 10);
    assert Decimal(t, a, k, sign, negative, fd, n);
  }

  lemma SignBeforeZeros(a: string, zeros: string, sign: string, negative: bool)
    requires |sign| <= |a + zeros| && sign == (a + zeros)[..|sign|] && Sign(sign, negative) && AllDigits(zeros)
    ensures |sign| <= |a| && sign == a[..|sign|]
  {
    assert zeros != "" ==> IsDigit(zeros[0]);
    assert a == "" ==> a + zeros == zeros;
  }

  lemma DigitsOfBoth(a: string, b: string, base: nat)
    ensures DigitsOf(a + b, base) <==> DigitsOf(a, base) && DigitsOf(b, base)
  {
    hide Digit;
    assert forall c :: c in a + b <==> c in a || c in b;
  }

  lemma {:induction false} PositionalNatural(s: string, base: nat)
    ensures Positional(s, base) >= 0
  {
    hide Digit, Power;
    if s != "" {
      PowerNatural(base, |s| - 1);
      PositionalNatural(s[1..], base);
      ProductNatural(Digit(s[0]), Power(base, |s| - 1));
    }
  }

  lemma ProductNatural(a: int, b: int)
    requires a >= 0 && b >= 0
    ensures a * b >= 0
  {
  }

  lemma {:induction false} PowerNatural(base: nat, n: nat)
    ensures Power(base, n) >= 0
  {
    if n > 0 {
      PowerNatural(base, n - 1);
    }
  }

  lemma DecimalIsParsed(s: string, fd: nat, n: Number)
    requires 1 <= fd <= MAX_FRACTION_DIGITS && DecimalWritten(s, fd, n)
    ensures ParseDecimal(s, fd) == Some(n)
  {
    hide Inside, TrimSpace, IndexOf, ParseSigned, Decimal, WithoutDot, Zeros;
    var t, a, k, sign, negative :| Inside(s, t) && WithoutDot(t, a, k) && Decimal(t, a, k, sign, negative, fd, n);
    InsideOnly(s, t);
    DotExactly(t, a, k);
    DecimalIsSigned(t, a, k, sign, negative, fd, n);
  }

  lemma DecimalIsSigned(t: string, a: string, k: nat, sign: string, negative: bool, fd: nat, n: Number)
    requires Decimal(t, a, k, sign, negative, fd, n)
    ensures t !in {"", "+", "-"} && k <= fd && n.fractionDigits == fd
    ensures var v := Negate(negative, n.value);
            ParseSigned(a + Zeros(fd - k)) == Some(v) && n.value == (if v < 0 then -v else v) && n.negative == (v < 0)
  {
    hide ParseSigned, DigitsOf, Positional, Sign, Zeros;
    var zeros := Zeros(fd - k);
    assert (a + zeros)[|sign|..] == a[|sign|..] + zeros && sign == (a + zeros)[..|sign|];
    ZerosAreDigits(zeros);
    DigitsOfBoth(a[|sign|..], zeros, 10);
    SignedExactly(a + zeros, Negate(negative, n.value));
  }

  lemma ZerosAreDigits(zeros: string)
    requires AllDigits(zeros)
    ensures DigitsOf(zeros, 10)
  {
    DecimalIsPositional(zeros);
  }

  /** The dot is taken out before the rest is read: a lone dot is zero, and the dot may come before the sign. */
  lemma DotQuirks()
    ensures ParseDecimal(".", 1) == Some(Number(0, 1, false))
    ensures ParseDecimal(".-5", 2) == Some(Number(5, 2, true))
  {
    hide IndexOf, TrimSpace, ParseSigned, Zeros;
    NoSpaceTrims(".");
    NoSpaceTrims(".-5");
    LeadingDot("");
    LeadingDot("-5");
    assert "." + "" == ".";
    SmallZeros();
    SmallSigned();
  }

  lemma LeadingDot(rest: string)
    ensures var t := "." + rest; IndexOf(t, '.') == 0 && t[..0] + t[1..] == rest
  {
    DotAt("", rest);
    assert "" + "." + rest == "." + rest;
  }

  lemma SmallZeros()
    ensures "" + Zeros(1) == "0" && "-5" + Zeros(0) == "-5"
  {
  }

  lemma SmallSigned()
    ensures ParseSigned("0") == Some(0) && ParseSigned("-5") == Some(-5)
  {
    assert "-5"[1..] == "5" && "0"[..0] == "" && "5"[..0] == "";
    assert Value("0") == 0 && Value("5") == 5;
  }
}
