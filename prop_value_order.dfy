/** The order the tests use to compare change events as a multiset:
    `PropValueCmp`, lexicographic over (prop, value, areaId), where the
    payload order is the member-wise order of the payload record and each
    vector is ordered lexicographically. */
module PropValueOrder {
  import opened VehicleTypes

  ghost predicate Irreflexive<T(!new)>(less: (T, T) -> bool)
  {
    forall x :: !less(x, x)
  }

  ghost predicate Transitive<T(!new)>(less: (T, T) -> bool)
  {
    forall x, y, z :: less(x, y) && less(y, z) ==> less(x, z)
  }

  ghost predicate Connected<T(!new)>(less: (T, T) -> bool)
  {
    forall x, y :: x != y ==> less(x, y) || less(y, x)
  }

  ghost predicate StrictTotalOrder<T(!new)>(less: (T, T) -> bool)
  {
    Irreflexive(less) && Transitive(less) && Connected(less)
  }

  function IntLess(x: int, y: int): bool { x < y }
  function RealLess(x: real, y: real): bool { x < y }
  function CharLess(x: char, y: char): bool { x < y }

  lemma ElementOrdersAreStrictTotal()
    ensures StrictTotalOrder(IntLess)
    ensures StrictTotalOrder(RealLess)
    ensures StrictTotalOrder(CharLess)
  {
  }

  /** Lexicographic comparison of two vectors (`operator<` on std::vector):
      the first position where one element is less decides, and a proper
      prefix is less than the longer vector. */
  function LexLess<T>(a: seq<T>, b: seq<T>, less: (T, T) -> bool): bool
    decreases |a|
  {
    if |b| == 0 then false
    else if |a| == 0 then true
    else if less(a[0], b[0]) then true
    else if less(b[0], a[0]) then false
    else LexLess(a[1..], b[1..], less)
  }

  lemma {:induction false} LexLessIrreflexive<T(!new)>(a: seq<T>, less: (T, T) -> bool)
    requires StrictTotalOrder(less)
    ensures !LexLess(a, a, less)
    decreases |a|
  {
    if |a| > 0 {
      LexLessIrreflexive(a[1..], less);
    }
  }

  lemma {:induction false} LexLessTransitive<T(!new)>(a: seq<T>, b: seq<T>, c: seq<T>, less: (T, T) -> bool)
    requires StrictTotalOrder(less)
    requires LexLess(a, b, less) && LexLess(b, c, less)
    ensures LexLess(a, c, less)
    decreases |a|
  {
    if |a| > 0 && !less(a[0], c[0]) && !less(c[0], a[0]) {
      // the first elements of a and c are equal, so those of b equal them too
      if !less(a[0], b[0]) && !less(b[0], a[0]) {
        LexLessTransitive(a[1..], b[1..], c[1..], less);
      }
    }
  }

  lemma {:induction false} LexLessTrichotomy<T(!new)>(a: seq<T>, b: seq<T>, less: (T, T) -> bool)
    requires StrictTotalOrder(less)
    ensures a == b || LexLess(a, b, less) || LexLess(b, a, less)
    decreases |a|
  {
    if |a| > 0 && |b| > 0 && !less(a[0], b[0]) && !less(b[0], a[0]) {
      LexLessTrichotomy(a[1..], b[1..], less);
      if a[1..] == b[1..] {
        assert a == [a[0]] + a[1..] && b == [b[0]] + b[1..];
      }
    }
  }

  /** Asymmetry follows from the two lemmas above. */
  lemma LexLessAsymmetric<T(!new)>(a: seq<T>, b: seq<T>, less: (T, T) -> bool)
    requires StrictTotalOrder(less)
    ensures !(LexLess(a, b, less) && LexLess(b, a, less))
  {
    if LexLess(a, b, less) && LexLess(b, a, less) {
      LexLessTransitive(a, b, a, less);
      LexLessIrreflexive(a, less);
    }
  }

  /** One step of the member-wise comparison of two records (`operator<` on
      std::tuple): this member is less, or it is not greater and the rest
      of the record is less. */
  function TieLess(lt: bool, gt: bool, rest: bool): bool
  {
    lt || (!gt && rest)
  }

  /** `operator<` on RawPropValues: member-wise in declaration order. */
  function RawLess(a: RawPropValues, b: RawPropValues): bool
  {
    TieLess(LexLess(a.int32Values, b.int32Values, IntLess), LexLess(b.int32Values, a.int32Values, IntLess),
    TieLess(LexLess(a.floatValues, b.floatValues, RealLess), LexLess(b.floatValues, a.floatValues, RealLess),
    TieLess(LexLess(a.int64Values, b.int64Values, IntLess), LexLess(b.int64Values, a.int64Values, IntLess),
    TieLess(LexLess(a.byteValues, b.byteValues, IntLess), LexLess(b.byteValues, a.byteValues, IntLess),
            LexLess(a.stringValue, b.stringValue, CharLess)))))
  }

  /** What the vector lemmas give for one pair of vectors under one order. */
  ghost predicate LexFacts<T>(a: seq<T>, b: seq<T>, c: seq<T>, less: (T, T) -> bool)
  {
    && !LexLess(a, a, less)
    && (a == b || LexLess(a, b, less) || LexLess(b, a, less))
    && (b == c || LexLess(b, c, less) || LexLess(c, b, less))
    && (a == c || LexLess(a, c, less) || LexLess(c, a, less))
    && !(LexLess(a, b, less) && LexLess(b, a, less))
    && !(LexLess(b, c, less) && LexLess(c, b, less))
    && !(LexLess(a, c, less) && LexLess(c, a, less))
    && (LexLess(a, b, less) && LexLess(b, c, less) ==> LexLess(a, c, less))
  }

  lemma LexFactsHold<T(!new)>(a: seq<T>, b: seq<T>, c: seq<T>, less: (T, T) -> bool)
    requires StrictTotalOrder(less)
    ensures LexFacts(a, b, c, less)
  {
    LexLessIrreflexive(a, less);
    LexLessTrichotomy(a, b, less);
    LexLessTrichotomy(b, c, less);
    LexLessTrichotomy(a, c, less);
    LexLessAsymmetric(a, b, less);
    LexLessAsymmetric(b, c, less);
    LexLessAsymmetric(a, c, less);
    if LexLess(a, b, less) && LexLess(b, c, less) {
      LexLessTransitive(a, b, c, less);
    }
  }

  lemma RawFacts(a: RawPropValues, b: RawPropValues, c: RawPropValues)
    ensures LexFacts(a.int32Values, b.int32Values, c.int32Values, IntLess)
    ensures LexFacts(a.floatValues, b.floatValues, c.floatValues, RealLess)
    ensures LexFacts(a.int64Values, b.int64Values, c.int64Values, IntLess)
    ensures LexFacts(a.byteValues, b.byteValues, c.byteValues, IntLess)
    ensures LexFacts(a.stringValue, b.stringValue, c.stringValue, CharLess)
  {
    ElementOrdersAreStrictTotal();
    LexFactsHold(a.int32Values, b.int32Values, c.int32Values, IntLess);
    LexFactsHold(a.floatValues, b.floatValues, c.floatValues, RealLess);
    LexFactsHold(a.int64Values, b.int64Values, c.int64Values, IntLess);
    LexFactsHold(a.byteValues, b.byteValues, c.byteValues, IntLess);
    LexFactsHold(a.stringValue, b.stringValue, c.stringValue, CharLess);
  }

  /** The payload order is a strict total order: irreflexive, transitive,
      and any two different payloads are comparable. */
  lemma RawLessIsStrictTotal(a: RawPropValues, b: RawPropValues, c: RawPropValues)
    ensures !RawLess(a, a)
    ensures RawLess(a, b) && RawLess(b, c) ==> RawLess(a, c)
    ensures a == b || RawLess(a, b) || RawLess(b, a)
  {
    RawFacts(a, b, c);
  }

  /** PropValueCmp: by prop, then by payload, then by area id. Timestamp and
      status do not take part. */
  predicate PropValueCmp(a: VehiclePropValue, b: VehiclePropValue)
  {
    (a.prop < b.prop)
    || (a.prop == b.prop && RawLess(a.value, b.value))
    || (a.prop == b.prop && a.value == b.value && a.areaId < b.areaId)
  }

  lemma PropValueCmpIrreflexive(a: VehiclePropValue)
    ensures !PropValueCmp(a, a)
  {
    RawLessIsStrictTotal(a.value, a.value, a.value);
  }

  lemma PropValueCmpTransitive(a: VehiclePropValue, b: VehiclePropValue, c: VehiclePropValue)
    requires PropValueCmp(a, b) && PropValueCmp(b, c)
    ensures PropValueCmp(a, c)
  {
    RawLessIsStrictTotal(a.value, b.value, c.value);
    RawLessIsStrictTotal(b.value, c.value, a.value);
    RawLessIsStrictTotal(c.value, a.value, b.value);
  }

  /** Two values neither of which is less than the other agree on prop,
      payload and area id: they can differ only in timestamp and status. */
  lemma PropValueCmpEquivalence(a: VehiclePropValue, b: VehiclePropValue)
    ensures !PropValueCmp(a, b) && !PropValueCmp(b, a)
        <==> a.prop == b.prop && a.value == b.value && a.areaId == b.areaId
  {
    RawLessIsStrictTotal(a.value, b.value, b.value);
  }

  /** A sequence in the order `std::sort` with PropValueCmp leaves it:
      no later element is less than an earlier one. */
  ghost predicate SortedByCmp(s: seq<VehiclePropValue>)
  {
    forall i, j :: 0 <= i < j < |s| ==> !PropValueCmp(s[j], s[i])
  }

  /** All elements share timestamp and status, the fields PropValueCmp ignores. */
  ghost predicate SameMetadata(s: seq<VehiclePropValue>)
  {
    forall i, j :: 0 <= i < |s| && 0 <= j < |s| ==> s[i].timestamp == s[j].timestamp && s[i].status == s[j].status
  }

  /** The first elements of two sorted permutations coincide. */
  lemma SortedHeadsEqual(a: seq<VehiclePropValue>, b: seq<VehiclePropValue>)
    requires SortedByCmp(a) && SortedByCmp(b)
    requires multiset(a) == multiset(b)
    requires SameMetadata(a)
    requires |a| > 0
    ensures |b| > 0 && a[0] == b[0]
  {
    assert b[0] in multiset(a) by {
      assert |b| == |multiset(b)| == |multiset(a)| == |a|;
    }
    var k :| 0 <= k < |a| && a[k] == b[0];
    assert a[0] in multiset(b);
    var m :| 0 <= m < |b| && b[m] == a[0];
    if k != 0 && m != 0 {
      assert !PropValueCmp(b[0], a[0]);
      assert !PropValueCmp(a[0], b[0]);
      PropValueCmpEquivalence(a[0], b[0]);
      assert a[0].timestamp == a[k].timestamp && a[0].status == a[k].status;
    }
  }

  /** Sorting by PropValueCmp determines the result: two sorted
      permutations of the same values are equal, provided the values
      PropValueCmp cannot tell apart are equal. */
  lemma {:induction false} SortedPermutationUnique(a: seq<VehiclePropValue>, b: seq<VehiclePropValue>)
    requires SortedByCmp(a) && SortedByCmp(b)
    requires multiset(a) == multiset(b)
    requires SameMetadata(a)
    ensures a == b
    decreases |a|
  {
    if |a| == 0 {
      assert |multiset(b)| == 0;
    } else {
      SortedHeadsEqual(a, b);
      TailFacts(a);
      TailFacts(b);
      SortedPermutationUnique(a[1..], b[1..]);
      assert a == [a[0]] + a[1..] && b == [b[0]] + b[1..];
    }
  }

  /** Dropping the first element keeps a sequence sorted and its metadata
      shared, and removes one copy of that element from its multiset. */
  lemma TailFacts(s: seq<VehiclePropValue>)
    requires |s| > 0 && SortedByCmp(s)
    ensures SortedByCmp(s[1..])
    ensures SameMetadata(s) ==> SameMetadata(s[1..])
    ensures multiset(s[1..]) == multiset(s) - multiset{s[0]}
  {
    assert s == [s[0]] + s[1..];
  }
}
