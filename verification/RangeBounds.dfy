/**
 The range and length restrictions of types: reading a list of segments against the
 restriction being narrowed, and checking that the result is a subset of it.
 */
module RangeBounds {
  import opened Common
  import opened Numbers
  import opened YangRanges

  /** A published bound: a literal in units of the last fraction digit, or a keyword kept in its lexical form. */
  datatype Bound = Lit(value: int) | MinWord | MaxWord

  /** A bound as written. */
  datatype BoundText = Written(bound: Bound) | Unreadable

  /** One segment; a single value is written as both of its bounds. */
  datatype Segment = Segment(lo: BoundText, hi: BoundText)

  datatype RangeBound = RangeBound(min: Bound, max: Bound, minValue: Number, maxValue: Number)

  /**
   The limits of a built-in type, and whether the keywords min and max stay lexical (length, decimal64) or become
   literals (integers).
   */
  datatype Base = Base(min: int, max: int, fractionDigits: nat, keepsWords: bool)

  datatype RangeError = EmptyExpression | InvalidBound | LowerAboveUpper | OverlappingOrUnordered | NotWithinBase

  predicate ValidBase(base: Base) {
    -(MAX_INT64 + 1) <= base.min < base.max <= MAX_UINT64 && base.fractionDigits <= MAX_FRACTION_DIGITS
  }

  function ValueOf(b: Bound, base: Base): int {
    match b
    case Lit(v) => v
    case MinWord => base.min
    case MaxWord => base.max
  }

  function NumberOf(v: int, fd: nat): Number { if v < 0 then Number(-v, fd, true) else Number(v, fd, false) }

  /** A keyword stands for the matching end of the restriction being narrowed. */
  function InheritedBound(b: Bound, parent: seq<RangeBound>): Bound {
    if parent == [] then b
    else match b
      case MinWord => parent[0].min
      case MaxWord => parent[|parent| - 1].max
      case Lit(_) => b
  }

  function NormalizeBound(text: BoundText, base: Base, parent: seq<RangeBound>): Option<Bound> {
    match text
    case Unreadable => None
    case Written(written) =>
      var b := InheritedBound(written, parent);
      if base.keepsWords && !b.Lit? then Some(b)
      else if base.min <= ValueOf(b, base) <= base.max then Some(Lit(ValueOf(b, base)))
      else None
  }

  function CompareBounds(left: Bound, right: Bound): int {
    if left == right then 0
    else if left == MinWord || right == MaxWord then -1
    else if left == MaxWord || right == MinWord then 1
    else if left.value < right.value then -1
    else if left.value == right.value then 0
    else 1
  }

  // ---- What bounds mean

  /** A keyword and a literal name the same limit of the base, and the comparison places left below right. */
  predicate FalselyBelow(left: Bound, right: Bound, base: Base) {
    || (left == MinWord && right == Lit(base.min))
    || (left == Lit(base.max) && right == MaxWord)
  }

  /** The comparison is that of the values, except between a keyword and the literal for the same limit. */
  lemma CompareIsByValue(left: Bound, right: Bound, base: Base)
    requires ValidBase(base) && base.min <= ValueOf(left, base) <= base.max
             && base.min <= ValueOf(right, base) <= base.max
    ensures CompareBounds(left, right) < 0 <==>
            ValueOf(left, base) < ValueOf(right, base) || FalselyBelow(left, right, base)
    ensures CompareBounds(left, right) <= 0 <==>
            ValueOf(left, base) <= ValueOf(right, base) && !FalselyBelow(right, left, base)
  {
  }

  ghost predicate ProperBound(b: RangeBound, base: Base) {
    && base.min <= ValueOf(b.min, base) <= ValueOf(b.max, base) <= base.max
    && b.minValue == NumberOf(ValueOf(b.min, base), base.fractionDigits)
    && b.maxValue == NumberOf(ValueOf(b.max, base), base.fractionDigits)
    && (!base.keepsWords ==> b.min.Lit? && b.max.Lit?)
  }

  ghost predicate Proper(bs: seq<RangeBound>, base: Base) {
    forall b :: b in bs ==> ProperBound(b, base)
  }

  /** Every segment lies above the one before. */
  ghost predicate Increasing(bs: seq<RangeBound>, base: Base) {
    forall i :: 0 <= i < |bs| - 1 ==> ValueOf(bs[i].max, base) < ValueOf(bs[i + 1].min, base)
  }

  /** The segments as ranges of numbers. */
  function Ranges(bs: seq<RangeBound>): (rs: seq<YRange>)
    ensures |rs| == |bs| && forall i :: 0 <= i < |bs| ==> rs[i] == YRange(bs[i].minValue, bs[i].maxValue)
  {
    seq(|bs|, i requires 0 <= i < |bs| => YRange(bs[i].minValue, bs[i].maxValue))
  }

  /** v is one of the values of a type so restricted; no segments means no restriction. */
  ghost predicate Admits(bs: seq<RangeBound>, base: Base, v: int) {
    if bs == [] then base.min <= v <= base.max
    else exists i :: 0 <= i < |bs| && ValueOf(bs[i].min, base) <= v <= ValueOf(bs[i].max, base)
  }

  lemma NumberOfUnits(v: int, fd: nat)
    requires -(MAX_INT64 + 1) <= v <= MAX_UINT64 && fd <= MAX_FRACTION_DIGITS
    ensures Units(NumberOf(v, fd)) == v && Representable(NumberOf(v, fd))
  {
  }

  lemma ProperIsWellformed(bs: seq<RangeBound>, base: Base)
    requires ValidBase(base) && Proper(bs, base)
    ensures Wellformed(Ranges(bs), base.fractionDigits)
    ensures forall i :: 0 <= i < |bs| ==>
            Units(bs[i].minValue) == ValueOf(bs[i].min, base) && Units(bs[i].maxValue) == ValueOf(bs[i].max, base)
  {
    hide Units, ValueOf;
    forall i | 0 <= i < |bs|
      ensures Units(bs[i].minValue) == ValueOf(bs[i].min, base) && Units(bs[i].maxValue) == ValueOf(bs[i].max, base)
      ensures Wellformed1(Ranges(bs)[i], base.fractionDigits)
    {
      assert ProperBound(bs[i], base);
      NumberOfUnits(ValueOf(bs[i].min, base), base.fractionDigits);
      NumberOfUnits(ValueOf(bs[i].max, base), base.fractionDigits);
    }
  }

  lemma AdmitsIsDenotes(bs: seq<RangeBound>, base: Base, v: int)
    requires ValidBase(base) && Proper(bs, base) && bs != []
    ensures Admits(bs, base, v) <==> Denotes(Ranges(bs), v)
  {
    hide Units, ValueOf;
    ProperIsWellformed(bs, base);
    if Admits(bs, base, v) {
      var i :| 0 <= i < |bs| && ValueOf(bs[i].min, base) <= v <= ValueOf(bs[i].max, base);
      assert InRange(Ranges(bs)[i], v);
    }
    if Denotes(Ranges(bs), v) {
      var i :| 0 <= i < |Ranges(bs)| && InRange(Ranges(bs)[i], v);
      assert ValueOf(bs[i].min, base) <= v;
    }
  }

  // ---- Reading a restriction

  /** Both bounds of a segment can be read. */
  ghost predicate SegmentReadable(s: Segment, base: Base, parent: seq<RangeBound>) {
    NormalizeBound(s.lo, base, parent).Some? && NormalizeBound(s.hi, base, parent).Some?
  }

  ghost predicate AllReadable(parts: seq<Segment>, base: Base, parent: seq<RangeBound>) {
    forall i :: 0 <= i < |parts| ==> SegmentReadable(parts[i], base, parent)
  }

  function Lower(s: Segment, base: Base, parent: seq<RangeBound>): Bound
    requires SegmentReadable(s, base, parent)
  {
    NormalizeBound(s.lo, base, parent).value
  }

  function Upper(s: Segment, base: Base, parent: seq<RangeBound>): Bound
    requires SegmentReadable(s, base, parent)
  {
    NormalizeBound(s.hi, base, parent).value
  }

  /** The list one would expect to be accepted: readable, no empty segment, each segment above the one before. */
  ghost predicate InOrder(parts: seq<Segment>, base: Base, parent: seq<RangeBound>)
    requires AllReadable(parts, base, parent)
  {
    && (forall i :: 0 <= i < |parts| ==>
          ValueOf(Lower(parts[i], base, parent), base) <= ValueOf(Upper(parts[i], base, parent), base))
    && (forall i :: 0 <= i < |parts| - 1 ==>
          ValueOf(Upper(parts[i], base, parent), base) < ValueOf(Lower(parts[i + 1], base, parent), base))
  }

  /** Some segment runs from a limit to the same limit, spelt the other way and in the wrong order. */
  ghost predicate MisspeltSegment(parts: seq<Segment>, base: Base, parent: seq<RangeBound>)
    requires AllReadable(parts, base, parent)
  {
    exists i :: 0 <= i < |parts| && FalselyBelow(Upper(parts[i], base, parent), Lower(parts[i], base, parent), base)
  }

  /** Two consecutive segments share a limit, spelt in two ways. */
  ghost predicate MisspeltNeighbours(parts: seq<Segment>, base: Base, parent: seq<RangeBound>)
    requires AllReadable(parts, base, parent)
  {
    exists i :: 0 <= i < |parts| - 1
      && FalselyBelow(Upper(parts[i], base, parent), Lower(parts[i + 1], base, parent), base)
  }

  /** The list that is accepted: in order, but for keywords and literals that spell the same limit. */
  ghost predicate Accepted(parts: seq<Segment>, base: Base, parent: seq<RangeBound>) {
    && parts != [] && AllReadable(parts, base, parent)
    && (forall i :: 0 <= i < |parts| ==> SegmentAccepted(parts[i], base, parent))
    && (forall i :: 0 <= i < |parts| - 1 ==> NeighboursAccepted(parts[i], parts[i + 1], base, parent))
  }

  ghost predicate SegmentAccepted(s: Segment, base: Base, parent: seq<RangeBound>)
    requires SegmentReadable(s, base, parent)
  {
    var lo, hi := Lower(s, base, parent), Upper(s, base, parent);
    ValueOf(lo, base) <= ValueOf(hi, base) && !FalselyBelow(hi, lo, base)
  }

  ghost predicate NeighboursAccepted(s: Segment, t: Segment, base: Base, parent: seq<RangeBound>)
    requires SegmentReadable(s, base, parent) && SegmentReadable(t, base, parent)
  {
    var hi, lo := Upper(s, base, parent), Lower(t, base, parent);
    ValueOf(hi, base) < ValueOf(lo, base) || FalselyBelow(hi, lo, base)
  }

  lemma FalselyBelowIsEqual(left: Bound, right: Bound, base: Base)
    ensures FalselyBelow(left, right, base) ==> ValueOf(left, base) == ValueOf(right, base)
    ensures FalselyBelow(left, right, base) ==> !(left.Lit? && right.Lit?)
  {
  }

  /** Exactly when being accepted means being in order; for integers, always. */
  lemma AcceptedIsInOrder(parts: seq<Segment>, base: Base, parent: seq<RangeBound>)
    requires ValidBase(base) && Proper(parent, base) && parts != [] && AllReadable(parts, base, parent)
    ensures Accepted(parts, base, parent) ==>
            (InOrder(parts, base, parent) <==> !MisspeltNeighbours(parts, base, parent))
    ensures InOrder(parts, base, parent) ==> (Accepted(parts, base, parent) <==> !MisspeltSegment(parts, base, parent))
    ensures !base.keepsWords ==> (Accepted(parts, base, parent) <==> InOrder(parts, base, parent))
  {
    hide ValueOf, FalselyBelow, NormalizeBound;
    forall i | 0 <= i < |parts| - 1
      ensures FalselyBelow(Upper(parts[i], base, parent), Lower(parts[i + 1], base, parent), base) ==>
                base.keepsWords &&
                ValueOf(Upper(parts[i], base, parent), base) >= ValueOf(Lower(parts[i + 1], base, parent), base)
    {
      FalselyBelowIsEqual(Upper(parts[i], base, parent), Lower(parts[i + 1], base, parent), base);
      NormalizedInBase(parts[i].hi, base, parent);
      NormalizedInBase(parts[i + 1].lo, base, parent);
    }
    forall i | 0 <= i < |parts|
      ensures FalselyBelow(Upper(parts[i], base, parent), Lower(parts[i], base, parent), base) ==> base.keepsWords
    {
      FalselyBelowIsEqual(Upper(parts[i], base, parent), Lower(parts[i], base, parent), base);
      NormalizedInBase(parts[i].hi, base, parent);
      NormalizedInBase(parts[i].lo, base, parent);
    }
    if Accepted(parts, base, parent) && !MisspeltNeighbours(parts, base, parent) {
      forall i | 0 <= i < |parts| - 1
        ensures ValueOf(Upper(parts[i], base, parent), base) < ValueOf(Lower(parts[i + 1], base, parent), base)
      {
        assert NeighboursAccepted(parts[i], parts[i + 1], base, parent);
      }
    }
  }

  /** A length or decimal64 restriction that lists its greatest value twice, once by keyword, is accepted. */
  lemma KeywordOverlapAccepted(base: Base)
    requires ValidBase(base) && base.keepsWords
    ensures var top := Segment(Written(Lit(base.max)), Written(Lit(base.max)));
            var again := Segment(Written(MaxWord), Written(MaxWord));
            Accepted([top, again], base, []) && !InOrder([top, again], base, [])
  {
    var top := Segment(Written(Lit(base.max)), Written(Lit(base.max)));
    var again := Segment(Written(MaxWord), Written(MaxWord));
    var parts := [top, again];
    assert AllReadable(parts, base, []);
    assert ValueOf(Upper(parts[0], base, []), base) == ValueOf(Lower(parts[0 + 1], base, []), base);
  }

  lemma NormalizedInBase(text: BoundText, base: Base, parent: seq<RangeBound>)
    requires ValidBase(base) && Proper(parent, base) && NormalizeBound(text, base, parent).Some?
    ensures base.min <= ValueOf(NormalizeBound(text, base, parent).value, base) <= base.max
    ensures !base.keepsWords ==> NormalizeBound(text, base, parent).value.Lit?
  {
  }

  /**
   A keyword reads as the value at the matching end of the restriction being narrowed, or as
   the limit of the type.
   */
  lemma KeywordsAreEnds(base: Base, parent: seq<RangeBound>)
    requires ValidBase(base) && Proper(parent, base) && Increasing(parent, base)
    ensures var min := NormalizeBound(Written(MinWord), base, parent);
            min.Some? && Admits(parent, base, ValueOf(min.value, base))
            && forall v :: Admits(parent, base, v) ==> ValueOf(min.value, base) <= v
    ensures var max := NormalizeBound(Written(MaxWord), base, parent);
            max.Some? && Admits(parent, base, ValueOf(max.value, base))
            && forall v :: Admits(parent, base, v) ==> v <= ValueOf(max.value, base)
  {
    if parent != [] {
      assert ProperBound(parent[0], base) && ProperBound(parent[|parent| - 1], base);
      assert ValueOf(parent[0].min, base) <= ValueOf(parent[0].min, base) <= ValueOf(parent[0].max, base);
      var last := |parent| - 1;
      assert ValueOf(parent[last].min, base) <= ValueOf(parent[last].max, base) <= ValueOf(parent[last].max, base);
      forall v | Admits(parent, base, v)
        ensures ValueOf(parent[0].min, base) <= v <= ValueOf(parent[last].max, base)
      {
        var i :| 0 <= i < |parent| && ValueOf(parent[i].min, base) <= v <= ValueOf(parent[i].max, base);
        EndsEnclose(parent, base, 0, i);
        EndsEnclose(parent, base, i, last);
      }
    }
  }

  lemma {:induction false} EndsEnclose(bs: seq<RangeBound>, base: Base, i: nat, j: nat)
    requires Proper(bs, base) && Increasing(bs, base) && i <= j < |bs|
    ensures ValueOf(bs[i].min, base) <= ValueOf(bs[j].min, base) && ValueOf(bs[i].max, base) <= ValueOf(bs[j].max, base)
    decreases j - i
  {
    hide ValueOf;
    if i < j {
      assert ProperBound(bs[i], base) && ProperBound(bs[i + 1], base);
      EndsEnclose(bs, base, i + 1, j);
    }
  }

  function ReadSegment(s: Segment, base: Base, parent: seq<RangeBound>): RangeBound
    requires SegmentReadable(s, base, parent)
  {
    var lo, hi := Lower(s, base, parent), Upper(s, base, parent);
    RangeBound(lo, hi, NumberOf(ValueOf(lo, base), base.fractionDigits),
               NumberOf(ValueOf(hi, base), base.fractionDigits))
  }

  /** The segments as published bounds. */
  function ReadAll(parts: seq<Segment>, base: Base, parent: seq<RangeBound>): (out: seq<RangeBound>)
    requires AllReadable(parts, base, parent)
    ensures |out| == |parts| && forall i :: 0 <= i < |parts| ==> out[i] == ReadSegment(parts[i], base, parent)
  {
    seq(|parts|, i requires 0 <= i < |parts| => ReadSegment(parts[i], base, parent))
  }

  /** Reads the segments of a restriction, each against the one before. */
  method ParseRanges(parts: seq<Segment>, base: Base, parent: seq<RangeBound>)
    returns (r: Result<seq<RangeBound>, RangeError>)
    requires ValidBase(base) && Proper(parent, base)
    ensures r.Ok? <==> Accepted(parts, base, parent)
    ensures r.Ok? ==> r.value == ReadAll(parts, base, parent)
    ensures r.Err? ==>
              && r.error != NotWithinBase && (r.error == EmptyExpression <==> parts == [])
              && (r.error == InvalidBound ==> !AllReadable(parts, base, parent))
  {
    hide ValueOf, CompareBounds, FalselyBelow, NormalizeBound, NumberOf;
    if |parts| == 0 {
      return Err(EmptyExpression);
    }
    var out: seq<RangeBound> := [];
    var i := 0;
    while i < |parts|
      invariant 0 <= i <= |parts| && |out| == i
      invariant forall k :: 0 <= k < i ==>
                SegmentReadable(parts[k], base, parent) && SegmentAccepted(parts[k], base, parent)
      invariant forall k :: 0 <= k < i ==> out[k] == ReadSegment(parts[k], base, parent)
      invariant forall k :: 0 <= k < i - 1 ==> NeighboursAccepted(parts[k], parts[k + 1], base, parent)
    {
      var part := parts[i];
      var lower := NormalizeBound(part.lo, base, parent);
      if lower.None? {
        assert !SegmentReadable(parts[i], base, parent);
        return Err(InvalidBound);
      }
      var upper := NormalizeBound(part.hi, base, parent);
      if upper.None? {
        assert !SegmentReadable(parts[i], base, parent);
        return Err(InvalidBound);
      }
      NormalizedInBase(part.lo, base, parent);
      NormalizedInBase(part.hi, base, parent);
      var lo, hi := lower.value, upper.value;
      CompareIsByValue(lo, hi, base);
      if CompareBounds(lo, hi) > 0 {
        assert !SegmentAccepted(parts[i], base, parent);
        return Err(LowerAboveUpper);
      }
      if i > 0 {
        NormalizedInBase(parts[i - 1].hi, base, parent);
        CompareIsByValue(out[i - 1].max, lo, base);
        if CompareBounds(out[i - 1].max, lo) >= 0 {
          ghost var k := i - 1;
          assert !NeighboursAccepted(parts[k], parts[k + 1], base, parent);
          return Err(OverlappingOrUnordered);
        }
      }
      out := out + [RangeBound(lo, hi, NumberOf(ValueOf(lo, base), base.fractionDigits),
                               NumberOf(ValueOf(hi, base), base.fractionDigits))];
      i := i + 1;
    }
    r := Ok(out);
  }

  /** What an accepted list holds; if it repeats no limit, its values increase. */
  lemma ReadIsProper(parts: seq<Segment>, base: Base, parent: seq<RangeBound>)
    requires ValidBase(base) && Proper(parent, base) && Accepted(parts, base, parent)
    ensures Proper(ReadAll(parts, base, parent), base)
    ensures Increasing(ReadAll(parts, base, parent), base) <==> !MisspeltNeighbours(parts, base, parent)
    ensures !base.keepsWords ==> Increasing(ReadAll(parts, base, parent), base)
  {
    hide ValueOf, FalselyBelow, NormalizeBound, NumberOf;
    AcceptedIsInOrder(parts, base, parent);
    var out := ReadAll(parts, base, parent);
    forall i | 0 <= i < |parts|
      ensures ProperBound(out[i], base)
    {
      assert SegmentAccepted(parts[i], base, parent);
      NormalizedInBase(parts[i].lo, base, parent);
      NormalizedInBase(parts[i].hi, base, parent);
    }
    assert Increasing(out, base) <==> InOrder(parts, base, parent) by {
      assert forall i :: 0 <= i < |parts| ==> SegmentAccepted(parts[i], base, parent);
    }
  }

  // ---- Being within the restriction below

  /** next starts one quantum above the end of last. */
  predicate Adjacent(last: RangeBound, next: RangeBound) {
    Less(last.maxValue, next.minValue) && EqualNumbers(AddQuantum(last.maxValue, 1), next.minValue)
  }

  /** The restriction with adjacent segments joined. */
  function Coalesced(bs: seq<RangeBound>): (r: seq<RangeBound>)
    ensures |bs| > 0 ==> |r| > 0
  {
    if |bs| < 2 then bs
    else
      var init, next := Coalesced(bs[..|bs| - 1]), bs[|bs| - 1];
      var last := init[|init| - 1];
      if Adjacent(last, next) then init[|init| - 1 := last.(max := next.max, maxValue := next.maxValue)]
      else init + [next]
  }

  /** The successor is taken only of numbers below another one, so that it never wraps around. */
  lemma QuantumNeverOverflows(last: RangeBound, next: RangeBound, base: Base)
    requires ValidBase(base) && ProperBound(last, base) && ProperBound(next, base) && Less(last.maxValue, next.minValue)
    ensures !IsTop(last.maxValue) && Representable(AddQuantum(last.maxValue, 1))
    ensures Units(AddQuantum(last.maxValue, 1)) == ValueOf(last.max, base) + 1
    ensures Adjacent(last, next) <==> ValueOf(next.min, base) == ValueOf(last.max, base) + 1
  {
    hide ValueOf, Less, EqualNumbers;
    NumberOfUnits(ValueOf(last.max, base), base.fractionDigits);
    NumberOfUnits(ValueOf(next.min, base), base.fractionDigits);
    LessIsUnits(last.maxValue, next.minValue);
    TopIsMost(last.maxValue, next.minValue);
    QuantumIsOneMore(last.maxValue);
    LessIsUnits(AddQuantum(last.maxValue, 1), next.minValue);
  }

  lemma AdjacentByValue(last: RangeBound, next: RangeBound, base: Base)
    requires ValidBase(base) && ProperBound(last, base) && ProperBound(next, base)
    ensures Adjacent(last, next) <==> ValueOf(next.min, base) == ValueOf(last.max, base) + 1
  {
    hide ValueOf, Units, AddQuantum, EqualNumbers, Less;
    NumberOfUnits(ValueOf(last.max, base), base.fractionDigits);
    NumberOfUnits(ValueOf(next.min, base), base.fractionDigits);
    LessIsUnits(last.maxValue, next.minValue);
    if Less(last.maxValue, next.minValue) {
      QuantumNeverOverflows(last, next, base);
    }
  }

  method CoalesceAdjacentBounds(bounds: seq<RangeBound>) returns (out: seq<RangeBound>)
    ensures out == Coalesced(bounds)
  {
    if |bounds| < 2 {
      return bounds;
    }
    out := [bounds[0]];
    var i := 1;
    assert bounds[..1] == [bounds[0]];
    while i < |bounds|
      invariant 1 <= i <= |bounds|
      invariant out == Coalesced(bounds[..i])
    {
      var next := bounds[i];
      var last := out[|out| - 1];
      assert bounds[..i + 1][..|bounds[..i + 1]| - 1] == bounds[..i];
      if Less(last.maxValue, next.minValue) && EqualNumbers(AddQuantum(last.maxValue, 1), next.minValue) {
        out := out[|out| - 1 := last.(max := next.max, maxValue := next.maxValue)];
      } else {
        out := out + [next];
      }
      i := i + 1;
    }
    assert bounds[..|bounds|] == bounds;
  }

  /** Joining keeps the values; a restriction in increasing order comes out with true gaps. */
  lemma {:induction false} CoalescedMeans(bs: seq<RangeBound>, base: Base)
    requires ValidBase(base) && Proper(bs, base) && bs != []
    ensures Proper(Coalesced(bs), base)
    ensures forall v :: Admits(Coalesced(bs), base, v) <==> Admits(bs, base, v)
    ensures Coalesced(bs)[|Coalesced(bs)| - 1].max == bs[|bs| - 1].max
    ensures Increasing(bs, base) ==> GapsIn(Coalesced(bs), base)
  {
    hide ValueOf, NumberOf, Less, AddQuantum, EqualNumbers, Units, Adjacent, Admits;
    if |bs| >= 2 {
      var prefix, next := bs[..|bs| - 1], bs[|bs| - 1];
      CoalescedMeans(prefix, base);
      var init := Coalesced(prefix);
      var last := init[|init| - 1];
      assert ProperBound(next, base) && ProperBound(last, base);
      AdjacentByValue(last, next, base);
      var out := Coalesced(bs);
      assert bs == prefix + [next];
      forall v
        ensures Admits(out, base, v) <==> Admits(bs, base, v)
      {
        AdmitsAppend(prefix, next, base, v);
        if Adjacent(last, next) {
          AdmitsJoined(init, next, base, v);
        } else {
          AdmitsAppend(init, next, base, v);
        }
      }
      forall b | b in out
        ensures ProperBound(b, base)
      {
        assert b in init || b == next || b == last.(max := next.max, maxValue := next.maxValue);
      }
      if Increasing(bs, base) {
        assert ValueOf(bs[|bs| - 2].max, base) < ValueOf(bs[|bs| - 2 + 1].min, base);
        assert Increasing(prefix, base);
      }
    }
  }

  ghost predicate GapsIn(bs: seq<RangeBound>, base: Base) {
    forall i :: 0 <= i < |bs| - 1 ==> ValueOf(bs[i].max, base) + 1 < ValueOf(bs[i + 1].min, base)
  }

  ghost predicate Covers(b: RangeBound, base: Base, v: int) { ValueOf(b.min, base) <= v <= ValueOf(b.max, base) }

  lemma AdmitsAppend(bs: seq<RangeBound>, b: RangeBound, base: Base, v: int)
    requires bs != []
    ensures Admits(bs + [b], base, v) <==> Admits(bs, base, v) || Covers(b, base, v)
  {
    hide ValueOf;
    var t := bs + [b];
    if Admits(bs, base, v) {
      var i :| 0 <= i < |bs| && ValueOf(bs[i].min, base) <= v <= ValueOf(bs[i].max, base);
      assert t[i] == bs[i];
    }
    if Covers(b, base, v) {
      assert t[|bs|] == b;
    }
  }

  lemma AdmitsJoined(init: seq<RangeBound>, next: RangeBound, base: Base, v: int)
    requires init != [] && ProperBound(init[|init| - 1], base) && ProperBound(next, base)
    requires ValueOf(next.min, base) == ValueOf(init[|init| - 1].max, base) + 1
    ensures var joined := init[|init| - 1].(max := next.max, maxValue := next.maxValue);
            Admits(init[|init| - 1 := joined], base, v) <==> Admits(init, base, v) || Covers(next, base, v)
  {
    hide ValueOf, NumberOf;
    var n := |init| - 1;
    var out := init[n := init[n].(max := next.max, maxValue := next.maxValue)];
    if Admits(init, base, v) {
      var i :| 0 <= i < |init| && ValueOf(init[i].min, base) <= v <= ValueOf(init[i].max, base);
      assert Covers(out[i], base, v);
    }
    if Covers(next, base, v) {
      assert Covers(out[n], base, v);
    }
    if Admits(out, base, v) {
      var i :| 0 <= i < |out| && ValueOf(out[i].min, base) <= v <= ValueOf(out[i].max, base);
      if i < n {
        assert Covers(init[i], base, v);
      } else if v <= ValueOf(init[n].max, base) {
        assert Covers(init[n], base, v);
      }
    }
  }

  /** A limit of the base is spelt differently in the two segments, so that one seems to reach beyond the other. */
  ghost predicate Misspelt(parent: RangeBound, child: RangeBound, base: Base) {
    FalselyBelow(child.min, parent.min, base) || FalselyBelow(parent.max, child.max, base)
  }

  ghost predicate AnyMisspelt(parents: seq<RangeBound>, children: seq<RangeBound>, base: Base) {
    exists p, c :: p in parents && c in children && Misspelt(p, c, base)
  }

  ghost predicate Subset(children: seq<RangeBound>, parents: seq<RangeBound>, base: Base) {
    forall v :: Admits(children, base, v) ==> Admits(parents, base, v)
  }

  /** child lies within the segment parent, by value. */
  ghost predicate Inside(child: RangeBound, parent: RangeBound, base: Base) {
    ValueOf(parent.min, base) <= ValueOf(child.min, base) && ValueOf(child.max, base) <= ValueOf(parent.max, base)
  }

  predicate Within(child: RangeBound, parent: RangeBound) {
    CompareBounds(parent.min, child.min) <= 0 && CompareBounds(child.max, parent.max) <= 0
  }

  lemma WithinByValue(child: RangeBound, parent: RangeBound, base: Base)
    requires ValidBase(base) && ProperBound(child, base) && ProperBound(parent, base)
    ensures Within(child, parent) <==> Inside(child, parent, base) && !Misspelt(parent, child, base)
  {
    hide ValueOf, CompareBounds, FalselyBelow;
    CompareIsByValue(parent.min, child.min, base);
    CompareIsByValue(child.max, parent.max, base);
  }

  lemma GapsAreCanonical(bs: seq<RangeBound>, base: Base)
    requires ValidBase(base) && Proper(bs, base) && GapsIn(bs, base)
    ensures Canonical(Ranges(bs), base.fractionDigits)
  {
    hide Units, ValueOf, NumberOf;
    ProperIsWellformed(bs, base);
    forall i | 0 <= i < |bs| - 1
      ensures Units(Ranges(bs)[i].max) + 1 < Units(Ranges(bs)[i + 1].min)
    {
      assert ValueOf(bs[i].max, base) + 1 < ValueOf(bs[i + 1].min, base);
    }
  }

  /** Two segments of a list with gaps that share a value are the same. */
  lemma OneSegment(bs: seq<RangeBound>, base: Base, i: nat, j: nat, v: int)
    requires ValidBase(base) && Proper(bs, base) && GapsIn(bs, base) && i < |bs| && j < |bs|
    requires Covers(bs[i], base, v) && Covers(bs[j], base, v)
    ensures i == j
  {
    hide Units, ValueOf, NumberOf, TrueGaps;
    GapsAreCanonical(bs, base);
    ProperIsWellformed(bs, base);
    if i < j {
      CanonicalSorted(Ranges(bs), base.fractionDigits, i, j);
    } else if j < i {
      CanonicalSorted(Ranges(bs), base.fractionDigits, j, i);
    }
  }

  /** All values of child being admitted, one segment holds them. */
  lemma HeldByOne(bs: seq<RangeBound>, base: Base, child: RangeBound) returns (i: nat)
    requires ValidBase(base) && Proper(bs, base) && GapsIn(bs, base) && ProperBound(child, base) && bs != []
    requires forall v :: Covers(child, base, v) ==> Admits(bs, base, v)
    ensures i < |bs| && Inside(child, bs[i], base)
  {
    hide Units, ValueOf, NumberOf, TrueGaps, Denotes, Admits;
    GapsAreCanonical(bs, base);
    ProperIsWellformed(bs, base);
    var lo, hi := ValueOf(child.min, base), ValueOf(child.max, base);
    forall v | lo <= v <= hi
      ensures Denotes(Ranges(bs), v)
    {
      assert Covers(child, base, v);
      AdmitsIsDenotes(bs, base, v);
    }
    i := IntervalInOneRange(Ranges(bs), base.fractionDigits, lo, hi);
  }

  lemma AdmitsCovered(bs: seq<RangeBound>, base: Base, b: RangeBound, v: int)
    requires b in bs && Covers(b, base, v)
    ensures Admits(bs, base, v)
  {
    hide ValueOf;
    var i :| 0 <= i < |bs| && bs[i] == b;
    assert ValueOf(bs[i].min, base) <= v <= ValueOf(bs[i].max, base);
  }

  /** Some segment of parents, each child within it in the given spelling. */
  ghost predicate EachWithin(parents: seq<RangeBound>, children: seq<RangeBound>) {
    forall c :: c in children ==> exists p :: p in parents && Within(c, p)
  }

  lemma EachWithinIsSubset(parents: seq<RangeBound>, children: seq<RangeBound>, base: Base)
    requires ValidBase(base) && Proper(parents, base) && Proper(children, base) && children != []
    requires EachWithin(parents, children)
    ensures Subset(children, parents, base)
  {
    hide ValueOf, NumberOf, Within;
    forall v | Admits(children, base, v)
      ensures Admits(parents, base, v)
    {
      var i :| 0 <= i < |children| && ValueOf(children[i].min, base) <= v <= ValueOf(children[i].max, base);
      var c := children[i];
      assert c in children;
      var p :| p in parents && Within(c, p);
      WithinByValue(c, p, base);
      assert Covers(p, base, v);
      AdmitsCovered(parents, base, p, v);
    }
  }

  /** The check on segments is the inclusion of values, but for limits spelt in two ways. */
  lemma EachWithinExactly(parents: seq<RangeBound>, children: seq<RangeBound>, base: Base)
    requires ValidBase(base) && Proper(parents, base) && Proper(children, base) && children != [] && parents != []
    requires GapsIn(parents, base)
    ensures EachWithin(parents, children) <==> Subset(children, parents, base) && !AnyMisspelt(parents, children, base)
  {
    hide ValueOf, NumberOf, Within, Misspelt, Admits, FalselyBelow;
    if EachWithin(parents, children) {
      EachWithinIsSubset(parents, children, base);
      forall p, c | p in parents && c in children
        ensures !Misspelt(p, c, base)
      {
        var q :| q in parents && Within(c, q);
        WithinByValue(c, q, base);
        if Misspelt(p, c, base) {
          MisspeltAreSame(parents, base, p, q, c);
        }
      }
    }
    if Subset(children, parents, base) && !AnyMisspelt(parents, children, base) {
      forall c | c in children
        ensures exists p :: p in parents && Within(c, p)
      {
        forall v | Covers(c, base, v)
          ensures Admits(parents, base, v)
        {
          AdmitsCovered(children, base, c, v);
        }
        var i := HeldByOne(parents, base, c);
        WithinByValue(c, parents[i], base);
        assert parents[i] in parents;
      }
    }
  }

  /** A misspelt pair shares a value, so the misspelt segment is the one that holds the child. */
  lemma MisspeltAreSame(parents: seq<RangeBound>, base: Base, p: RangeBound, q: RangeBound, c: RangeBound)
    requires ValidBase(base) && Proper(parents, base) && GapsIn(parents, base) && p in parents && q in parents
             && ProperBound(c, base)
    requires Misspelt(p, c, base) && Inside(c, q, base)
    ensures p == q
  {
    hide ValueOf, NumberOf, FalselyBelow, GapsIn;
    var i :| 0 <= i < |parents| && parents[i] == p;
    var j :| 0 <= j < |parents| && parents[j] == q;
    FalselyBelowIsEqual(c.min, p.min, base);
    FalselyBelowIsEqual(p.max, c.max, base);
    assert ProperBound(p, base);
    if FalselyBelow(c.min, p.min, base) {
      OneSegment(parents, base, i, j, ValueOf(p.min, base));
    } else {
      OneSegment(parents, base, i, j, ValueOf(p.max, base));
    }
  }

  lemma NoWordsNotMisspelt(parents: seq<RangeBound>, children: seq<RangeBound>, base: Base)
    requires !base.keepsWords && Proper(parents, base) && Proper(children, base)
    ensures !AnyMisspelt(parents, children, base)
  {
    hide ValueOf, NumberOf, FalselyBelow;
    forall p, c | p in parents && c in children
      ensures !Misspelt(p, c, base)
    {
      FalselyBelowIsEqual(c.min, p.min, base);
      FalselyBelowIsEqual(p.max, c.max, base);
    }
  }

  /**
   Whether every derived segment lies within a segment of the base restriction.  A yes is always
   right; for integers, and for keywords spelt alike, so is a no.
   */
  method RangesWithin(baseRanges: seq<RangeBound>, derived: seq<RangeBound>, ghost base: Base) returns (within: bool)
    requires ValidBase(base) && Proper(baseRanges, base) && Proper(derived, base) && baseRanges != [] && derived != []
    ensures within <==> EachWithin(Coalesced(baseRanges), derived)
    ensures within ==> Subset(derived, baseRanges, base)
    ensures Increasing(baseRanges, base) ==>
              (within <==> Subset(derived, baseRanges, base) && !AnyMisspelt(Coalesced(baseRanges), derived, base))
    ensures Increasing(baseRanges, base) && !base.keepsWords ==> (within <==> Subset(derived, baseRanges, base))
  {
    hide ValueOf, NumberOf, CompareBounds, Coalesced, Admits, Misspelt, Within;
    var parents := CoalesceAdjacentBounds(baseRanges);
    CoalescedMeans(baseRanges, base);
    DecideByEach(baseRanges, parents, derived, base);
    var i := 0;
    while i < |derived|
      invariant 0 <= i <= |derived|
      invariant forall k :: 0 <= k < i ==> exists p :: p in parents && Within(derived[k], p)
    {
      var child := derived[i];
      var found := false;
      var j := 0;
      while j < |parents| && !found
        invariant 0 <= j <= |parents|
        invariant found ==> exists p :: p in parents && Within(child, p)
        invariant !found ==> forall k :: 0 <= k < j ==> !Within(child, parents[k])
      {
        found := Within(child, parents[j]);
        j := j + 1;
      }
      if !found {
        assert child in derived && forall p :: p in parents ==> !Within(child, p);
        return false;
      }
      i := i + 1;
    }
    within := true;
  }

  lemma {:induction false} DecideByEach(baseRanges: seq<RangeBound>, parents: seq<RangeBound>, derived: seq<RangeBound>,
                                        base: Base)
    requires ValidBase(base) && Proper(baseRanges, base) && Proper(parents, base) && Proper(derived, base)
             && parents != [] && derived != []
    requires parents == Coalesced(baseRanges) && (forall v :: Admits(parents, base, v) <==> Admits(baseRanges, base, v))
    requires Increasing(baseRanges, base) ==> GapsIn(parents, base)
    ensures EachWithin(parents, derived) ==> Subset(derived, baseRanges, base)
    ensures Increasing(baseRanges, base) ==>
              (EachWithin(parents, derived) <==>
               Subset(derived, baseRanges, base) && !AnyMisspelt(Coalesced(baseRanges), derived, base))
    ensures !base.keepsWords ==> !AnyMisspelt(Coalesced(baseRanges), derived, base)
  {
    hide ValueOf, NumberOf, Coalesced, Admits, AnyMisspelt, EachWithin;
    if EachWithin(parents, derived) {
      EachWithinIsSubset(parents, derived, base);
    }
    if Increasing(baseRanges, base) {
      EachWithinExactly(parents, derived, base);
    }
    if !base.keepsWords {
      NoWordsNotMisspelt(parents, derived, base);
    }
  }

  /** A length restriction to one value, by keyword, refuses the same value written as a number. */
  lemma KeywordRefusesItsNumber(base: Base)
    requires ValidBase(base) && base.keepsWords
    ensures var zero := NumberOf(base.min, base.fractionDigits);
            var parents, children := [RangeBound(MinWord, MinWord, zero, zero)],
                [RangeBound(Lit(base.min), Lit(base.min), zero, zero)];
            && Proper(parents, base) && Proper(children, base) && Increasing(parents, base)
            && Subset(children, parents, base) && !EachWithin(Coalesced(parents), children)
  {
    var zero := NumberOf(base.min, base.fractionDigits);
    var parents, children := [RangeBound(MinWord, MinWord, zero, zero)],
        [RangeBound(Lit(base.min), Lit(base.min), zero, zero)];
    forall v | Admits(children, base, v)
      ensures Admits(parents, base, v)
    {
      assert Covers(parents[0], base, v);
    }
    assert children[0] in children;
    assert Coalesced(parents) == parents;
    assert !Within(children[0], parents[0]);
  }

  // ---- Narrowing a type

  /** A restriction statement, if there is one. */
  type Restriction = Option<seq<Segment>>

  /** What is left of a type with effective restriction parent; None if the restriction is refused. */
  ghost function Narrowed(restriction: Restriction, base: Base, parent: seq<RangeBound>): Option<seq<RangeBound>> {
    match restriction
    case None => Some(parent)
    case Some(parts) =>
      if !Accepted(parts, base, parent) then None
      else if parent != [] && !EachWithin(Coalesced(parent), ReadAll(parts, base, parent)) then None
      else Some(ReadAll(parts, base, parent))
  }

  /** Narrowing leaves only values that were there before; integer restrictions stay in increasing order. */
  lemma NarrowedNarrows(restriction: Restriction, base: Base, parent: seq<RangeBound>)
    requires ValidBase(base) && Proper(parent, base) && Narrowed(restriction, base, parent).Some?
    ensures var r := Narrowed(restriction, base, parent).value;
            Proper(r, base) && Subset(r, parent, base)
              && (!base.keepsWords && Increasing(parent, base) ==> Increasing(r, base))
  {
    hide ValueOf, NumberOf, Accepted, Coalesced, Admits, EachWithin, ReadAll, Increasing;
    if restriction.Some? {
      AcceptedNonempty(restriction.value, base, parent);
      var r := ReadAll(restriction.value, base, parent);
      ReadIsProper(restriction.value, base, parent);
      if parent == [] {
        InsideBase(r, base);
      } else {
        CoalescedMeans(parent, base);
        EachWithinIsSubset(Coalesced(parent), r, base);
      }
    }
  }

  lemma AcceptedNonempty(parts: seq<Segment>, base: Base, parent: seq<RangeBound>)
    requires Accepted(parts, base, parent)
    ensures parts != [] && AllReadable(parts, base, parent)
  {
  }

  lemma InsideBase(bs: seq<RangeBound>, base: Base)
    requires Proper(bs, base)
    ensures Subset(bs, [], base)
  {
    hide ValueOf, NumberOf;
    forall v | Admits(bs, base, v)
      ensures Admits([], base, v)
    {
      if bs != [] {
        var i :| 0 <= i < |bs| && ValueOf(bs[i].min, base) <= v <= ValueOf(bs[i].max, base);
        assert ProperBound(bs[i], base);
      }
    }
  }

  /**
   An integer restriction goes through exactly when it can be read, is in order, and allows
   no value the type below refuses.
   */
  lemma IntegerRestrictionExact(parts: seq<Segment>, base: Base, parent: seq<RangeBound>)
    requires ValidBase(base) && Proper(parent, base) && Increasing(parent, base) && !base.keepsWords
    ensures Narrowed(Some(parts), base, parent).Some? <==>
              parts != [] && AllReadable(parts, base, parent) && InOrder(parts, base, parent)
              && Subset(ReadAll(parts, base, parent), parent, base)
  {
    hide ValueOf, NumberOf, Accepted, Coalesced, Admits, EachWithin, AllReadable, Increasing, InOrder, Subset,
         AnyMisspelt, NormalizeBound;
    if Accepted(parts, base, parent) {
      AcceptedNonempty(parts, base, parent);
    }
    if parts != [] && AllReadable(parts, base, parent) {
      AcceptedIsInOrder(parts, base, parent);
      var r := ReadAll(parts, base, parent);
      if Accepted(parts, base, parent) {
        ReadIsProper(parts, base, parent);
        if parent == [] {
          InsideBase(r, base);
        } else {
          CoalescedMeans(parent, base);
          DecideByEach(parent, Coalesced(parent), r, base);
        }
      }
    }
  }

  /** Applies a restriction to a type whose effective restriction is parent. */
  method Restrict(restriction: Restriction, base: Base, parent: seq<RangeBound>)
    returns (r: Result<seq<RangeBound>, RangeError>)
    requires ValidBase(base) && Proper(parent, base)
    ensures (if r.Ok? then Some(r.value) else None) == Narrowed(restriction, base, parent)
    ensures r.Ok? ==> Proper(r.value, base) && Subset(r.value, parent, base)
    ensures r == Err(NotWithinBase) <==>
              restriction.Some? && parent != [] && Accepted(restriction.value, base, parent)
              && !EachWithin(Coalesced(parent), ReadAll(restriction.value, base, parent))
  {
    hide ValueOf, NumberOf, Accepted, Admits, Coalesced, AnyMisspelt, Increasing, AllReadable, InOrder, NormalizeBound,
         EachWithin;
    if restriction.None? {
      return Ok(parent);
    }
    var rs := ParseRanges(restriction.value, base, parent);
    if rs.Err? {
      return rs;
    }
    ReadIsProper(restriction.value, base, parent);
    AcceptedNonempty(restriction.value, base, parent);
    if |parent| > 0 {
      var within := RangesWithin(parent, rs.value, base);
      if !within {
        return Err(NotWithinBase);
      }
    }
    NarrowedNarrows(restriction, base, parent);
    r := rs;
  }
}
