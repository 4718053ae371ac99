/** Lists of inclusive ranges of numbers: merging adjacent ones, and inclusion. */
module YangRanges {
  import opened Common
  import opened DecimalText
  import opened Numbers

  datatype YRange = YRange(min: Number, max: Number)

  /** The value in units of the 18th fraction digit. */
  function Scaled(n: Number): int {
    if n.fractionDigits < 18 then Units(n) * Pow10(18 - n.fractionDigits) else Units(n)
  }

  predicate Less(a: Number, b: Number) { Scaled(a) < Scaled(b) }

  predicate EqualNumbers(a: Number, b: Number) { Scaled(a) == Scaled(b) }

  /** i quanta more than n, in 64-bit arithmetic. */
  function AddQuantum(n: Number, i: nat): Number {
    if n.negative then
      if n.value <= i then Number(i - n.value, n.fractionDigits, false) else n.(value := n.value - i)
    else n.(value := (n.value + i) % (MAX_UINT64 + 1))
  }

  /** The largest magnitude that fits; one quantum more wraps around to zero. */
  predicate IsTop(n: Number) { !n.negative && n.value == MAX_UINT64 }

  /** All bounds are numbers of fd fraction digits, and no range is empty. */
  ghost predicate Wellformed(rs: seq<YRange>, fd: nat) {
    forall r :: r in rs ==> Wellformed1(r, fd)
  }

  ghost predicate Wellformed1(r: YRange, fd: nat) {
    && Representable(r.min) && Representable(r.max) && r.min.fractionDigits == fd && r.max.fractionDigits == fd
    && Units(r.min) <= Units(r.max)
  }

  ghost predicate InRange(r: YRange, v: int) { Units(r.min) <= v <= Units(r.max) }

  /** v, in units of the last fraction digit, lies in one of the ranges. */
  ghost predicate Denotes(rs: seq<YRange>, v: int) { exists i :: 0 <= i < |rs| && InRange(rs[i], v) }

  ghost predicate SortedByMin(rs: seq<YRange>) {
    forall i, j :: 0 <= i < j < |rs| ==> Units(rs[i].min) <= Units(rs[j].min)
  }

  /** Between any two consecutive ranges at least one value is missing. */
  ghost predicate TrueGaps(rs: seq<YRange>) {
    forall i :: 0 <= i < |rs| - 1 ==> Units(rs[i].max) + 1 < Units(rs[i + 1].min)
  }

  /** Some range reaches the largest magnitude and a later one starts above zero. */
  ghost predicate Wraps(rs: seq<YRange>) {
    exists i, k :: 0 <= i < k < |rs| && IsTop(rs[i].max) && Units(rs[k].min) > 0
  }

  lemma LessIsUnits(a: Number, b: Number)
    requires a.fractionDigits == b.fractionDigits
    ensures Less(a, b) <==> Units(a) < Units(b)
    ensures EqualNumbers(a, b) <==> Units(a) == Units(b)
  {
    if a.fractionDigits < 18 {
      MulOrder(Units(a), Units(b), Pow10(18 - a.fractionDigits));
    }
  }

  lemma MulOrder(x: int, y: int, p: nat)
    requires p > 0
    ensures x * p < y * p <==> x < y
    ensures x * p == y * p <==> x == y
  {
    MulAbove(x, y, p);
    MulAbove(y, x, p);
  }

  lemma MulAbove(x: int, y: int, p: nat)
    requires p > 0
    ensures x < y ==> x * p < y * p
  {
    if x < y {
      var d := y - x;
      assert d * p >= p;
      assert y * p == x * p + d * p;
    }
  }

  lemma QuantumIsOneMore(n: Number)
    requires Representable(n)
    ensures AddQuantum(n, 1).fractionDigits == n.fractionDigits
    ensures Units(AddQuantum(n, 1)) == if IsTop(n) then 0 else Units(n) + 1
  {
  }

  // ---- Coalescing

  /** out stands for the first j ranges of r. */
  ghost predicate Merged(r: seq<YRange>, j: nat, out: seq<YRange>, fd: nat)
    requires 1 <= j <= |r|
  {
    && |out| > 0 && Wellformed(out, fd) && SortedByMin(out)
    && Units(out[|out| - 1].min) <= Units(r[j - 1].min)
    && (forall v :: Denotes(out, v) <==> Denotes(r[..j], v))
  }

  /** Where the arithmetic wrapped among the first j ranges, and whether the last merged range can make it wrap. */
  ghost predicate WrapState(r: seq<YRange>, j: nat, out: seq<YRange>)
    requires 1 <= j <= |r| && |out| > 0
  {
    var last := out[|out| - 1];
    && (IsTop(last.max) ==> exists i :: 0 <= i < j && IsTop(r[i].max))
    && ((exists i :: 0 <= i < j && IsTop(r[i].max)) && Units(r[j - 1].min) <= 0 ==> IsTop(last.max))
    && (IsTop(r[j - 1].max) ==> IsTop(last.max))
    && (Wraps(r[..j]) ==> exists m :: 0 <= m < |out| - 1 && IsTop(out[m].max))
    && (!Wraps(r[..j]) ==> TrueGaps(out))
  }

  lemma DenotesAppend(rs: seq<YRange>, r: YRange, v: int)
    ensures Denotes(rs + [r], v) <==> Denotes(rs, v) || InRange(r, v)
  {
    var t := rs + [r];
    if Denotes(rs, v) {
      var i :| 0 <= i < |rs| && InRange(rs[i], v);
      assert InRange(t[i], v);
    }
    if InRange(r, v) {
      assert InRange(t[|rs|], v);
    }
  }

  lemma DenotesWidened(rs: seq<YRange>, max: Number, v: int)
    requires |rs| > 0
    ensures var last := rs[|rs| - 1];
            Denotes(rs[|rs| - 1 := YRange(last.min, max)], v) <==>
              Denotes(rs[..|rs| - 1], v) || InRange(YRange(last.min, max), v)
    ensures Denotes(rs, v) <==> Denotes(rs[..|rs| - 1], v) || InRange(rs[|rs| - 1], v)
  {
    var init, last := rs[..|rs| - 1], rs[|rs| - 1];
    assert rs == init + [last] && rs[|rs| - 1 := YRange(last.min, max)] == init + [YRange(last.min, max)];
    DenotesAppend(init, last, v);
    DenotesAppend(init, YRange(last.min, max), v);
  }

  /** The next range starts a new one. */
  lemma AppendNext(r: seq<YRange>, j: nat, out: seq<YRange>, fd: nat)
    requires 1 <= j < |r| && Wellformed(r, fd) && SortedByMin(r) && Merged(r, j, out, fd)
    ensures Merged(r, j + 1, out + [r[j]], fd)
  {
    hide Denotes, Units;
    assert r[..j + 1] == r[..j] + [r[j]] && r[j] in r;
    forall v
      ensures Denotes(out + [r[j]], v) <==> Denotes(r[..j + 1], v)
    {
      DenotesAppend(out, r[j], v);
      DenotesAppend(r[..j], r[j], v);
    }
  }

  /** The next range is absorbed by the last one. */
  lemma AbsorbNext(r: seq<YRange>, j: nat, out: seq<YRange>, fd: nat, max: Number)
    requires 1 <= j < |r| && Wellformed(r, fd) && SortedByMin(r) && Merged(r, j, out, fd)
    requires var last := out[|out| - 1];
             && Units(r[j].min) <= Units(last.max) + 1
             && max == if Units(last.max) < Units(r[j].max) then r[j].max else last.max
    ensures Merged(r, j + 1, out[|out| - 1 := out[|out| - 1].(max := max)], fd)
  {
    hide Denotes, Units;
    var last := out[|out| - 1];
    var wide := out[|out| - 1 := YRange(last.min, max)];
    assert r[..j + 1] == r[..j] + [r[j]] && r[j] in r && r[j - 1] in r && last in out;
    forall v
      ensures Denotes(wide, v) <==> Denotes(r[..j + 1], v)
    {
      DenotesWidened(out, max, v);
      DenotesAppend(r[..j], r[j], v);
      assert InRange(YRange(last.min, max), v) <==> InRange(last, v) || InRange(r[j], v);
    }
    forall x | x in wide
      ensures Wellformed1(x, fd)
    {
      assert x in out || x == YRange(last.min, max);
    }
  }

  lemma WrapsNext(r: seq<YRange>, j: nat)
    requires 1 <= j < |r|
    ensures Wraps(r[..j + 1]) <==> Wraps(r[..j]) || (Units(r[j].min) > 0 && exists i :: 0 <= i < j && IsTop(r[i].max))
  {
    hide IsTop, Units;
    var a, b := r[..j], r[..j + 1];
    if Wraps(a) {
      var i, k :| 0 <= i < k < |a| && IsTop(a[i].max) && Units(a[k].min) > 0;
      assert IsTop(b[i].max) && Units(b[k].min) > 0;
    }
    if Units(r[j].min) > 0 && exists i :: 0 <= i < j && IsTop(r[i].max) {
      var i :| 0 <= i < j && IsTop(r[i].max);
      assert IsTop(b[i].max) && Units(b[j].min) > 0;
    }
    if Wraps(b) {
      var i, k :| 0 <= i < k < |b| && IsTop(b[i].max) && Units(b[k].min) > 0;
      if k < j {
        assert IsTop(a[i].max) && Units(a[k].min) > 0;
      } else {
        assert IsTop(r[i].max);
      }
    }
  }

  lemma AppendWrap(r: seq<YRange>, j: nat, out: seq<YRange>, fd: nat)
    requires 1 <= j < |r| && |out| > 0 && Wellformed(r, fd) && SortedByMin(r) && Merged(r, j, out, fd)
             && WrapState(r, j, out)
    requires var last := out[|out| - 1];
             (if IsTop(last.max) then 0 else Units(last.max) + 1) < Units(r[j].min)
    ensures WrapState(r, j + 1, out + [r[j]])
  {
    hide Wraps, Merged;
    WrapsNext(r, j);
    var last := out[|out| - 1];
    var longer := out + [r[j]];
    assert longer[|longer| - 1] == r[j];
    if Wraps(r[..j + 1]) {
      if Wraps(r[..j]) {
        var m :| 0 <= m < |out| - 1 && IsTop(out[m].max);
        assert IsTop(longer[m].max);
      } else if IsTop(last.max) {
        assert IsTop(longer[|out| - 1].max);
      } else {
        NotTopNoWrap(r, j, out, fd);
      }
    }
    if !Wraps(r[..j + 1]) {
      assert !IsTop(last.max);
      forall i | 0 <= i < |longer| - 1
        ensures Units(longer[i].max) + 1 < Units(longer[i + 1].min)
      {
        if i < |out| - 1 {
          assert longer[i] == out[i] && longer[i + 1] == out[i + 1];
        }
      }
    }
  }

  /** If the last merged range is below the top, so is every range the next one lies strictly above. */
  lemma NotTopNoWrap(r: seq<YRange>, j: nat, out: seq<YRange>, fd: nat)
    requires 1 <= j < |r| && Wellformed(r, fd) && SortedByMin(r) && Merged(r, j, out, fd)
    requires !Wraps(r[..j]) && TrueGaps(out) && !IsTop(out[|out| - 1].max)
    ensures forall i :: 0 <= i < j ==> !IsTop(r[i].max)
  {
    forall i | 0 <= i < j
      ensures !IsTop(r[i].max)
    {
      assert r[i] in r && out[|out| - 1] in out;
      assert InRange(r[..j][i], Units(r[i].max));
      assert Denotes(out, Units(r[i].max));
      DenotedBelowLast(out, fd, Units(r[i].max));
    }
  }

  lemma DenotedBelowLast(rs: seq<YRange>, fd: nat, v: int)
    requires |rs| > 0 && Wellformed(rs, fd) && TrueGaps(rs) && Denotes(rs, v)
    ensures v <= Units(rs[|rs| - 1].max)
  {
    var i :| 0 <= i < |rs| && InRange(rs[i], v);
    if i < |rs| - 1 {
      CanonicalSorted(rs, fd, i, |rs| - 1);
      assert rs[|rs| - 1] in rs;
    }
  }

  lemma AbsorbWrap(r: seq<YRange>, j: nat, out: seq<YRange>, fd: nat, max: Number)
    requires 1 <= j < |r| && |out| > 0 && Wellformed(r, fd) && SortedByMin(r) && Merged(r, j, out, fd)
             && WrapState(r, j, out)
    requires var last := out[|out| - 1];
             && Units(r[j].min) <= (if IsTop(last.max) then 0 else Units(last.max) + 1)
             && max == if Units(last.max) < Units(r[j].max) then r[j].max else last.max
    ensures WrapState(r, j + 1, out[|out| - 1 := out[|out| - 1].(max := max)])
  {
    hide Wraps, Merged;
    WrapsNext(r, j);
    var last := out[|out| - 1];
    var wide := out[|out| - 1 := YRange(last.min, max)];
    assert r[j] in r && r[j - 1] in r;
    assert Representable(last.max) by {
      LastRepresentable(r, j, out, fd);
    }
    if Wraps(r[..j + 1]) {
      if !Wraps(r[..j]) && !IsTop(last.max) {
        NotTopNoWrap(r, j, out, fd);
      }
      assert Wraps(r[..j]);
      var m :| 0 <= m < |out| - 1 && IsTop(out[m].max);
      assert IsTop(wide[m].max);
    }
  }

  lemma LastRepresentable(r: seq<YRange>, j: nat, out: seq<YRange>, fd: nat)
    requires 1 <= j <= |r| && Merged(r, j, out, fd)
    ensures Wellformed1(out[|out| - 1], fd)
  {
  }

  /**
   Merges ranges that overlap or follow each other without a gap.  The values denoted stay
   the same; the result has true gaps exactly when the 64-bit successor did not wrap.
   */
  method CoalesceRanges(r: seq<YRange>, ghost fd: nat) returns (out: seq<YRange>)
    requires Wellformed(r, fd) && SortedByMin(r)
    ensures Wellformed(out, fd) && SortedByMin(out)
    ensures forall v :: Denotes(out, v) <==> Denotes(r, v)
    ensures TrueGaps(out) <==> !Wraps(r)
  {
    hide Denotes, Wraps, Less, Units, IsTop, Merged, WrapState;
    if |r| < 2 {
      TooShort(r);
      return r;
    }
    out := [r[0]];
    var j := 1;
    Begin(r, fd);
    while j < |r|
      invariant 1 <= j <= |r| && |out| > 0
      invariant Merged(r, j, out, fd) && WrapState(r, j, out)
    {
      var next := r[j];
      assert next in r;
      var last := out[|out| - 1];
      LastRepresentable(r, j, out, fd);
      QuantumIsOneMore(last.max);
      LessIsUnits(AddQuantum(last.max, 1), next.min);
      LessIsUnits(last.max, next.max);
      if Less(AddQuantum(last.max, 1), next.min) {
        AppendNext(r, j, out, fd);
        AppendWrap(r, j, out, fd);
        out := out + [next];
      } else {
        var max := if Less(last.max, next.max) then next.max else last.max;
        TopIsMost(last.max, next.min);
        AbsorbNext(r, j, out, fd, max);
        AbsorbWrap(r, j, out, fd, max);
        out := out[|out| - 1 := YRange(last.min, max)];
      }
      j := j + 1;
    }
    Finished(r, out, fd);
  }

  lemma TopIsMost(max: Number, n: Number)
    requires Representable(n) && Representable(max)
    ensures IsTop(max) ==> Units(n) <= Units(max) + 1
  {
  }

  lemma TooShort(r: seq<YRange>)
    requires |r| < 2
    ensures TrueGaps(r) && !Wraps(r)
  {
  }

  lemma Begin(r: seq<YRange>, fd: nat)
    requires |r| > 0 && Wellformed(r, fd)
    ensures Merged(r, 1, [r[0]], fd) && WrapState(r, 1, [r[0]])
  {
    assert r[..1] == [r[0]];
    assert r[0] in r;
  }

  lemma Finished(r: seq<YRange>, out: seq<YRange>, fd: nat)
    requires |r| > 0 && Merged(r, |r|, out, fd) && WrapState(r, |r|, out)
    ensures Wellformed(out, fd) && SortedByMin(out)
    ensures forall v :: Denotes(out, v) <==> Denotes(r, v)
    ensures TrueGaps(out) <==> !Wraps(r)
  {
    hide Denotes, Wraps;
    assert r[..|r|] == r;
    if Wraps(r) {
      var m :| 0 <= m < |out| - 1 && IsTop(out[m].max);
      assert out[m + 1] in out;
      assert Units(out[m + 1].min) <= MAX_UINT64;
    }
  }

  // ---- Canonical form

  /** What coalescing produces when nothing wraps. */
  ghost predicate Canonical(rs: seq<YRange>, fd: nat) { Wellformed(rs, fd) && TrueGaps(rs) }

  ghost predicate EqualRanges(a: seq<YRange>, b: seq<YRange>) {
    |a| == |b| && forall i :: 0 <= i < |a| ==> EqualNumbers(a[i].min, b[i].min) && EqualNumbers(a[i].max, b[i].max)
  }

  lemma {:induction false} CanonicalSorted(rs: seq<YRange>, fd: nat, i: nat, j: nat)
    requires Canonical(rs, fd) && i < j < |rs|
    ensures Units(rs[i].max) + 1 < Units(rs[j].min)
  {
    if i < j - 1 {
      CanonicalSorted(rs, fd, i, j - 1);
      assert rs[j - 1] in rs;
    }
  }

  /** The value just above a canonical range is missing. */
  lemma MissingAbove(rs: seq<YRange>, fd: nat, i: nat)
    requires Canonical(rs, fd) && i < |rs|
    ensures !Denotes(rs, Units(rs[i].max) + 1)
  {
    var v := Units(rs[i].max) + 1;
    forall j | 0 <= j < |rs|
      ensures !InRange(rs[j], v)
    {
      if i < j {
        CanonicalSorted(rs, fd, i, j);
      } else if j < i {
        CanonicalSorted(rs, fd, j, i);
        assert rs[i] in rs;
      }
    }
  }

  /** Every value of an interval whose values are all denoted lies in one canonical range. */
  lemma IntervalInOneRange(rs: seq<YRange>, fd: nat, lo: int, hi: int) returns (i: nat)
    requires Canonical(rs, fd) && lo <= hi && forall v :: lo <= v <= hi ==> Denotes(rs, v)
    ensures i < |rs| && Units(rs[i].min) <= lo && hi <= Units(rs[i].max)
  {
    assert Denotes(rs, lo);
    i :| 0 <= i < |rs| && InRange(rs[i], lo);
    MissingAbove(rs, fd, i);
  }

  lemma HeadIsLeast(rs: seq<YRange>, fd: nat, v: int)
    requires Canonical(rs, fd) && Denotes(rs, v)
    ensures Units(rs[0].min) <= v
  {
    var i :| 0 <= i < |rs| && InRange(rs[i], v);
    if i > 0 {
      CanonicalSorted(rs, fd, 0, i);
      assert rs[0] in rs;
    }
  }

  lemma HeadDenoted(rs: seq<YRange>, fd: nat, v: int)
    requires Canonical(rs, fd) && rs != [] && InRange(rs[0], v)
    ensures Denotes(rs, v) && Denotes(rs, Units(rs[0].min))
  {
    assert InRange(rs[0], Units(rs[0].min));
  }

  /** Lists with the same values have the same first range. */
  lemma SameHead(a: seq<YRange>, b: seq<YRange>, fd: nat)
    requires Canonical(a, fd) && Canonical(b, fd) && (forall v :: Denotes(a, v) ==> Denotes(b, v)) && a != [] && b != []
    ensures Units(b[0].min) <= Units(a[0].min)
    ensures Units(b[0].min) == Units(a[0].min) ==> Units(a[0].max) <= Units(b[0].max)
  {
    assert a[0] in a && b[0] in b;
    HeadDenoted(a, fd, Units(a[0].min));
    HeadIsLeast(b, fd, Units(a[0].min));
    forall v | Units(a[0].min) <= v <= Units(a[0].max)
      ensures Denotes(b, v)
    {
      HeadDenoted(a, fd, v);
    }
    var k := IntervalInOneRange(b, fd, Units(a[0].min), Units(a[0].max));
    if k > 0 {
      CanonicalSorted(b, fd, 0, k);
    }
  }

  lemma TailDenotes(rs: seq<YRange>, fd: nat, v: int)
    requires Canonical(rs, fd) && rs != []
    ensures Canonical(rs[1..], fd)
    ensures Denotes(rs[1..], v) <==> Denotes(rs, v) && v > Units(rs[0].max)
  {
    if Denotes(rs, v) && v > Units(rs[0].max) {
      var i :| 0 <= i < |rs| && InRange(rs[i], v);
      assert InRange(rs[1..][i - 1], v);
    }
    if Denotes(rs[1..], v) {
      var i :| 0 <= i < |rs[1..]| && InRange(rs[1..][i], v);
      assert InRange(rs[i + 1], v);
      CanonicalSorted(rs, fd, 0, i + 1);
    }
  }

  /** Two canonical lists are equal exactly when they denote the same values. */
  lemma CanonicalUnique(a: seq<YRange>, b: seq<YRange>, fd: nat)
    requires Canonical(a, fd) && Canonical(b, fd)
    ensures EqualRanges(a, b) <==> forall v :: Denotes(a, v) <==> Denotes(b, v)
  {
    hide Denotes, EqualNumbers, Units;
    if forall v :: Denotes(a, v) <==> Denotes(b, v) {
      SameDenotationEqual(a, b, fd);
    }
    if EqualRanges(a, b) {
      EqualDenote(a, b, fd);
      forall i | 0 <= i < |a|
        ensures EqualNumbers(b[i].min, a[i].min) && EqualNumbers(b[i].max, a[i].max)
      {
        assert a[i] in a && b[i] in b;
        LessIsUnits(a[i].min, b[i].min);
        LessIsUnits(b[i].min, a[i].min);
        LessIsUnits(a[i].max, b[i].max);
        LessIsUnits(b[i].max, a[i].max);
      }
      EqualDenote(b, a, fd);
    }
  }

  lemma EqualDenote(a: seq<YRange>, b: seq<YRange>, fd: nat)
    requires Wellformed(a, fd) && Wellformed(b, fd) && EqualRanges(a, b)
    ensures forall v :: Denotes(a, v) ==> Denotes(b, v)
  {
    hide EqualNumbers, Units;
    forall v | Denotes(a, v)
      ensures Denotes(b, v)
    {
      var i :| 0 <= i < |a| && InRange(a[i], v);
      assert a[i] in a && b[i] in b;
      LessIsUnits(a[i].min, b[i].min);
      LessIsUnits(a[i].max, b[i].max);
      assert InRange(b[i], v);
    }
  }

  lemma {:induction false} SameDenotationEqual(a: seq<YRange>, b: seq<YRange>, fd: nat)
    requires Canonical(a, fd) && Canonical(b, fd) && (forall v :: Denotes(a, v) <==> Denotes(b, v))
    ensures EqualRanges(a, b)
  {
    hide Denotes, EqualNumbers, Units, TrueGaps;
    if a == [] && b != [] {
      NonEmptyDenotes(b, fd);
      EmptyDenotes();
    } else if a != [] && b == [] {
      NonEmptyDenotes(a, fd);
      EmptyDenotes();
    } else if a != [] {
      SameHead(a, b, fd);
      SameHead(b, a, fd);
      assert a[0] in a && b[0] in b;
      LessIsUnits(a[0].min, b[0].min);
      LessIsUnits(a[0].max, b[0].max);
      forall v
        ensures Denotes(a[1..], v) <==> Denotes(b[1..], v)
      {
        TailDenotes(a, fd, v);
        TailDenotes(b, fd, v);
      }
      TailDenotes(a, fd, 0);
      TailDenotes(b, fd, 0);
      SameDenotationEqual(a[1..], b[1..], fd);
      forall i | 0 <= i < |a|
        ensures EqualNumbers(a[i].min, b[i].min) && EqualNumbers(a[i].max, b[i].max)
      {
        if i > 0 {
          assert a[i] == a[1..][i - 1] && b[i] == b[1..][i - 1];
        }
      }
    }
  }

  lemma EmptyDenotes()
    ensures forall v :: !Denotes([], v)
  {
  }

  lemma NonEmptyDenotes(rs: seq<YRange>, fd: nat)
    requires rs != [] && Canonical(rs, fd)
    ensures Denotes(rs, Units(rs[0].min))
  {
    assert rs[0] in rs;
    assert InRange(rs[0], Units(rs[0].min));
  }

  // ---- Inclusion

  ghost predicate Included(s: seq<YRange>, r: seq<YRange>) {
    forall v :: Denotes(s, v) ==> Denotes(r, v)
  }

  /** Whether range ss lies within range i of r, the ranges before i being below it, decides whether it is included. */
  lemma PartIncluded(r: seq<YRange>, i: nat, ss: YRange, fd: nat)
    requires Canonical(r, fd) && Wellformed1(ss, fd) && i < |r|
    requires forall k :: 0 <= k < i ==> Units(r[k].max) < Units(ss.min)
    requires Units(ss.min) <= Units(r[i].max)
    ensures (forall v :: InRange(ss, v) ==> Denotes(r, v)) <==>
            Units(r[i].min) <= Units(ss.min) && Units(ss.max) <= Units(r[i].max)
  {
    if forall v :: InRange(ss, v) ==> Denotes(r, v) {
      var k := IntervalInOneRange(r, fd, Units(ss.min), Units(ss.max));
      if k > i {
        CanonicalSorted(r, fd, i, k);
      }
      assert k == i;
    }
    if Units(r[i].min) <= Units(ss.min) && Units(ss.max) <= Units(r[i].max) {
      forall v | InRange(ss, v)
        ensures Denotes(r, v)
      {
        assert InRange(r[i], v);
      }
    }
  }

  lemma PartExcluded(r: seq<YRange>, s: seq<YRange>, j: nat, fd: nat, v: int)
    requires j < |s| && InRange(s[j], v) && !Denotes(r, v)
    ensures !Included(s, r)
  {
    assert Denotes(s, v);
  }

  /**
   Whether every value of s is one of r, in one pass over both.  An empty list stands for
   no restriction.
   */
  method Contains(r: seq<YRange>, s: seq<YRange>, ghost fd: nat) returns (contained: bool)
    requires Canonical(r, fd) && Wellformed(s, fd) && SortedByMin(s)
    ensures r == [] || s == [] ==> contained
    ensures r != [] && s != [] ==> (contained <==> Included(s, r))
  {
    hide Less, Units, Denotes, TrueGaps;
    if |r| == 0 || |s| == 0 {
      return true;
    }
    var ri, j := 0, 0;
    while j < |s|
      invariant 0 <= j <= |s| && 0 <= ri < |r|
      invariant j > 0 ==> forall k :: 0 <= k < ri ==> Units(r[k].max) < Units(s[j - 1].min)
      invariant j == 0 ==> ri == 0
      invariant forall k, v :: 0 <= k < j && InRange(s[k], v) ==> Denotes(r, v)
    {
      var ss := s[j];
      assert ss in s && (j > 0 ==> Units(s[j - 1].min) <= Units(ss.min));
      while Less(r[ri].max, ss.min)
        invariant 0 <= ri < |r|
        invariant forall k :: 0 <= k < ri ==> Units(r[k].max) < Units(ss.min)
        decreases |r| - ri
      {
        assert r[ri] in r;
        LessIsUnits(r[ri].max, ss.min);
        ri := ri + 1;
        if ri == |r| {
          NothingReaches(r, s, j, fd);
          return false;
        }
      }
      assert r[ri] in r;
      LessIsUnits(r[ri].max, ss.min);
      LessIsUnits(ss.min, r[ri].min);
      LessIsUnits(r[ri].max, ss.max);
      PartIncluded(r, ri, ss, fd);
      if Less(ss.min, r[ri].min) || Less(r[ri].max, ss.max) {
        ghost var v: int :| InRange(ss, v) && !Denotes(r, v);
        PartExcluded(r, s, j, fd, v);
        return false;
      }
      j := j + 1;
    }
    AllIncluded(r, s);
    contained := true;
  }

  lemma AllIncluded(r: seq<YRange>, s: seq<YRange>)
    requires forall k, v :: 0 <= k < |s| && InRange(s[k], v) ==> Denotes(r, v)
    ensures Included(s, r)
  {
    hide Units;
  }

  lemma NothingReaches(r: seq<YRange>, s: seq<YRange>, j: nat, fd: nat)
    requires j < |s| && Wellformed1(s[j], fd) && forall k :: 0 <= k < |r| ==> Units(r[k].max) < Units(s[j].min)
    ensures !Included(s, r)
  {
    var v := Units(s[j].min);
    assert InRange(s[j], v);
    assert Denotes(s, v) && !Denotes(r, v);
  }
}
