/**
 * The tensor module's customisation points for plain C++ objects: arithmetic
 * scalars, types with `tensor_traits`, nested ranges (C arrays, `std::array`,
 * spans, vectors) and types with an `extents()` member and a multidimensional
 * subscript. `ObjExtents` is `ttl::tensor::extents`, `ObjEval` is
 * `ttl::tensor::evaluate` and `TyRank` is `ttl::tensor::rank`.
 */
module Containers {
  import opened Wrappers
  import opened Extents

  /** The range types the module knows; the first three carry their length in the type. */
  datatype RangeKind = CArray | StdArray | FixedSpan | DynamicSpan | Vector

  /** `_extent<R>`: the static length of a range type, or `dynamic_extent`. */
  function LeadingStatic(k: RangeKind, n: nat): (r: Option<nat>)
    ensures r.Some? <==> (k.CArray? || k.StdArray? || k.FixedSpan?)
    ensures r.Some? ==> r.value == n
  {
    if k == DynamicSpan || k == Vector then None else Some(n)
  }

  /** An object handed to `extents` or `evaluate`, by the branch that handles it. */
  datatype Obj =
    | Num(value: int)                               // integral or floating point
    | Traited(shape: Extents, at: seq<nat> -> int)  // tensor_traits<T> supplies extents and evaluate
    | Range(kind: RangeKind, elems: seq<Obj>)       // a range without traits
    | Custom(shape: Extents, at: seq<nat> -> int)   // an extents() member and t[i...]

  // ---------------------------------------------------------------------
  // extents
  // ---------------------------------------------------------------------

  /** The range branch reads the extents of the first element: every range on that path is non-empty. */
  predicate HasExtents(o: Obj) {
    match o
    case Range(_, es) => |es| > 0 && HasExtents(es[0])
    case _ => true
  }

  /**
   * `extents(t)`: none for a scalar, the trait's or the member's for those
   * kinds, and for a range its length prepended to the extents of its first
   * element.
   */
  function ObjExtents(o: Obj): (r: Extents)
    requires HasExtents(o)
    ensures o.Num? ==> r == []
    ensures o.Range? ==> |r| == 1 + |ObjExtents(o.elems[0])| && r[0].runtime == |o.elems|
  {
    match o
    case Num(_) => []
    case Traited(e, _) => e
    case Range(k, es) => Prepend(LeadingStatic(k, |es|), |es|, ObjExtents(es[0]))
    case Custom(e, _) => e
  }

  // ---------------------------------------------------------------------
  // evaluate
  // ---------------------------------------------------------------------

  /**
   * `evaluate(t, i...)` is well defined: a scalar takes no index, a trait or
   * member type takes one per axis, and a range takes one inside its length
   * and passes the rest to that element.
   */
  predicate Evaluable(o: Obj, idx: seq<nat>) {
    match o
    case Num(_) => idx == []
    case Traited(e, _) => |idx| == |e|
    case Range(_, es) => |idx| >= 1 && idx[0] < |es| && Evaluable(es[idx[0]], idx[1..])
    case Custom(e, _) => |idx| == |e|
  }

  /** `evaluate(t, i...)`: the element of t at the indices. */
  function ObjEval(o: Obj, idx: seq<nat>): int
    requires Evaluable(o, idx)
  {
    match o
    case Num(v) => v
    case Traited(_, at) => at(idx)
    case Range(_, es) => ObjEval(es[idx[0]], idx[1..])
    case Custom(_, at) => at(idx)
  }

  /**
   * Writing through the reference `evaluate(t, i...)` returns: the object
   * after `evaluate(t, i...) = v`.
   */
  function Update(o: Obj, idx: seq<nat>, v: int): (r: Obj)
    requires Evaluable(o, idx)
    ensures r.Num? == o.Num? && r.Range? == o.Range?
    ensures r.Range? ==> r.kind == o.kind && |r.elems| == |o.elems|
    ensures (r.Traited? || r.Custom?) ==> r.shape == o.shape
  {
    match o
    case Num(_) => Num(v)
    case Traited(e, at) => Traited(e, x => if x == idx then v else at(x))
    case Range(k, es) => Range(k, es[idx[0] := Update(es[idx[0]], idx[1..], v)])
    case Custom(e, at) => Custom(e, x => if x == idx then v else at(x))
  }

  /** A write changes no extents and leaves every index evaluable that was before. */
  lemma {:induction false} UpdateKeepsShape(o: Obj, idx: seq<nat>, v: int, other: seq<nat>)
    requires Evaluable(o, idx)
    ensures HasExtents(Update(o, idx, v)) == HasExtents(o)
    ensures HasExtents(o) ==> ObjExtents(Update(o, idx, v)) == ObjExtents(o)
    ensures Evaluable(Update(o, idx, v), other) == Evaluable(o, other)
    decreases o
  {
    match o
    case Range(k, es) =>
      var es' := es[idx[0] := Update(es[idx[0]], idx[1..], v)];
      if idx[0] == 0 {
        UpdateKeepsShape(es[0], idx[1..], v, other);
      }
      if |other| >= 1 && other[0] < |es| && other[0] == idx[0] {
        UpdateKeepsShape(es[idx[0]], idx[1..], v, other[1..]);
      }
    case _ =>
  }

  /** Reading back the index just written gives the written value. */
  lemma {:induction false} UpdateReadBack(o: Obj, idx: seq<nat>, v: int)
    requires Evaluable(o, idx)
    ensures Evaluable(Update(o, idx, v), idx) && ObjEval(Update(o, idx, v), idx) == v
    decreases o
  {
    UpdateKeepsShape(o, idx, v, idx);
    match o
    case Range(k, es) =>
      UpdateReadBack(es[idx[0]], idx[1..], v);
    case _ =>
  }

  /** A write through one index leaves the element at every other index as it was. */
  lemma {:induction false} UpdateFrame(o: Obj, idx: seq<nat>, v: int, other: seq<nat>)
    requires Evaluable(o, idx) && Evaluable(o, other) && other != idx
    ensures Evaluable(Update(o, idx, v), other) && ObjEval(Update(o, idx, v), other) == ObjEval(o, other)
    decreases o
  {
    UpdateKeepsShape(o, idx, v, other);
    match o
    case Range(k, es) =>
      if other[0] == idx[0] {
        assert other == [other[0]] + other[1..] && idx == [idx[0]] + idx[1..];
        UpdateFrame(es[idx[0]], idx[1..], v, other[1..]);
      }
    case _ =>
  }

  /** The number of range levels `evaluate` passes through before a scalar, trait or subscript branch answers. */
  function RangeSteps(o: Obj, idx: seq<nat>): nat
    requires Evaluable(o, idx)
  {
    match o
    case Range(_, es) => 1 + RangeSteps(es[idx[0]], idx[1..])
    case _ => 0
  }

  /** Each range level consumes exactly one index, and a scalar none. */
  lemma {:induction false} RangeStepsConsumeIndices(o: Obj, idx: seq<nat>)
    requires Evaluable(o, idx)
    ensures RangeSteps(o, idx) <= |idx|
    ensures Evaluable(Leftover(o, idx), idx[RangeSteps(o, idx)..])
    ensures ObjEval(o, idx) == ObjEval(Leftover(o, idx), idx[RangeSteps(o, idx)..])
    decreases o
  {
    match o
    case Range(_, es) =>
      RangeStepsConsumeIndices(es[idx[0]], idx[1..]);
      assert idx[1..][RangeSteps(es[idx[0]], idx[1..])..] == idx[RangeSteps(o, idx)..];
    case _ =>
  }

  /** The object reached after the range levels: the one that answers `evaluate`. */
  function Leftover(o: Obj, idx: seq<nat>): (r: Obj)
    requires Evaluable(o, idx)
    ensures !r.Range?
  {
    match o
    case Range(_, es) => Leftover(es[idx[0]], idx[1..])
    case _ => o
  }

  // ---------------------------------------------------------------------
  // Nested ranges
  // ---------------------------------------------------------------------

  /**
   * A full nested range: kinds[0] of length dims[0] of kinds[1] of length
   * dims[1] ... of numbers, holding f(idx) at idx.
   */
  function Nested(kinds: seq<RangeKind>, dims: seq<nat>, f: seq<nat> -> int): (r: Obj)
    requires |kinds| == |dims|
    ensures dims == [] <==> r.Num?
    ensures dims != [] ==> r.Range? && r.kind == kinds[0] && |r.elems| == dims[0]
    decreases |dims|
  {
    if dims == [] then Num(f([]))
    else Range(kinds[0], seq(dims[0], i requires 0 <= i => Nested(kinds[1..], dims[1..], x => f([i as nat] + x))))
  }

  /** Static size and runtime size of each axis of a nested range of kinds and lengths. */
  function KindAxes(kinds: seq<RangeKind>, dims: seq<nat>): (r: Extents)
    requires |kinds| == |dims|
    ensures |r| == |dims|
    ensures forall k :: 0 <= k < |dims| ==> r[k] == Axis(LeadingStatic(kinds[k], dims[k]), dims[k])
  {
    seq(|dims|, k requires 0 <= k < |dims| => Axis(LeadingStatic(kinds[k], dims[k]), dims[k]))
  }

  /**
   * The extents of a nested range are its lengths, outermost first, with a
   * static size exactly on the axes whose range type fixes the length.
   */
  lemma {:induction false} NestedExtents(kinds: seq<RangeKind>, dims: seq<nat>, f: seq<nat> -> int)
    requires |kinds| == |dims| && forall k :: 0 <= k < |dims| ==> dims[k] > 0
    ensures HasExtents(Nested(kinds, dims, f))
    ensures ObjExtents(Nested(kinds, dims, f)) == KindAxes(kinds, dims)
    ensures WellFormed(ObjExtents(Nested(kinds, dims, f)))
    decreases |dims|
  {
    if dims != [] {
      var g := x => f([0] + x);
      NestedExtents(kinds[1..], dims[1..], g);
      var o := Nested(kinds, dims, f);
      assert o.elems[0] == Nested(kinds[1..], dims[1..], g);
      assert ObjExtents(o) == [Axis(LeadingStatic(kinds[0], dims[0]), dims[0])] + KindAxes(kinds[1..], dims[1..]);
    }
  }

  /** Indices inside the lengths, one per level. */
  predicate Within(dims: seq<nat>, idx: seq<nat>) {
    |idx| == |dims| && forall k :: 0 <= k < |dims| ==> idx[k] < dims[k]
  }

  /** `evaluate` of a nested range, one index per level, finds the element f describes. */
  lemma {:induction false} NestedEval(kinds: seq<RangeKind>, dims: seq<nat>, f: seq<nat> -> int, idx: seq<nat>)
    requires |kinds| == |dims| && Within(dims, idx)
    ensures Evaluable(Nested(kinds, dims, f), idx) && ObjEval(Nested(kinds, dims, f), idx) == f(idx)
    decreases |dims|
  {
    if dims != [] {
      var i := idx[0];
      var g := x => f([i] + x);
      assert Within(dims[1..], idx[1..]);
      NestedEval(kinds[1..], dims[1..], g, idx[1..]);
      assert Nested(kinds, dims, f).elems[i] == Nested(kinds[1..], dims[1..], g);
      assert [i] + idx[1..] == idx;
    }
  }

  /** A `std::vector` of three `std::array<int, 3>`: extents with a dynamic then a static axis, both of size 3. */
  lemma VectorOfArrays(kinds: seq<RangeKind>, f: seq<nat> -> int)
    requires kinds == [Vector, StdArray]
    ensures HasExtents(Nested(kinds, [3, 3], f))
    ensures ObjExtents(Nested(kinds, [3, 3], f)) == [Axis(None, 3), Axis(Some(3), 3)]
  {
    NestedExtents(kinds, [3, 3], f);
  }

  /** A nested range of numbers takes one range step per index: the recursion depth is the number of indices. */
  lemma {:induction false} NestedSteps(kinds: seq<RangeKind>, dims: seq<nat>, f: seq<nat> -> int, idx: seq<nat>)
    requires |kinds| == |dims| && Within(dims, idx)
    ensures Evaluable(Nested(kinds, dims, f), idx) && RangeSteps(Nested(kinds, dims, f), idx) == |idx|
    decreases |dims|
  {
    NestedEval(kinds, dims, f, idx);
    if dims != [] {
      var i := idx[0];
      var g := x => f([i] + x);
      assert Within(dims[1..], idx[1..]);
      NestedSteps(kinds[1..], dims[1..], g, idx[1..]);
      assert Nested(kinds, dims, f).elems[i] == Nested(kinds[1..], dims[1..], g);
    }
  }

  /**
   * `evaluate(c, 1, 0) = 7` on `int c[2][2]` stores 7 at c[1][0] and keeps
   * c[0][0] and c[1][1].
   */
  lemma CArrayWrite(kinds: seq<RangeKind>, f: seq<nat> -> int, c: Obj)
    requires kinds == [CArray, CArray] && c == Nested(kinds, [2, 2], f)
    ensures Evaluable(c, [1, 0]) && Evaluable(Update(c, [1, 0], 7), [1, 0])
    ensures ObjEval(Update(c, [1, 0], 7), [1, 0]) == 7
    ensures Evaluable(Update(c, [1, 0], 7), [0, 0]) && ObjEval(Update(c, [1, 0], 7), [0, 0]) == f([0, 0])
    ensures Evaluable(Update(c, [1, 0], 7), [1, 1]) && ObjEval(Update(c, [1, 0], 7), [1, 1]) == f([1, 1])
  {
    NestedEval(kinds, [2, 2], f, [1, 0]);
    NestedEval(kinds, [2, 2], f, [0, 0]);
    NestedEval(kinds, [2, 2], f, [1, 1]);
    UpdateReadBack(c, [1, 0], 7);
    UpdateFrame(c, [1, 0], 7, [0, 0]);
    UpdateFrame(c, [1, 0], 7, [1, 1]);
  }

  // ---------------------------------------------------------------------
  // rank
  // ---------------------------------------------------------------------

  /**
   * A C++ type as `rank` sees it: const, volatile or reference wrappers
   * around a type with the capabilities the branches test.
   */
  datatype Ty =
    | Qualified(base: Ty)
    | Type(arithmetic: bool, rankTrait: Option<nat>, rangeOf: Option<Ty>, mdspanOf: Option<MdspanTy>, extentsRank: Option<nat>)

  /** An `mdspan` over elements of type elem with an extents type of the given rank. */
  datatype MdspanTy = MdspanTy(elem: Ty, rank: nat)

  /** `std::remove_cvref_t<T>`. */
  function Unqualified(t: Ty): (r: Ty)
    ensures r.Type?
  {
    match t
    case Qualified(b) => Unqualified(b)
    case Type(_, _, _, _, _) => t
  }

  /**
   * `rank<T>`: 0 for arithmetic types, the trait's rank, one more than the
   * element's for a range, the element's plus the extents' rank for an
   * mdspan, and otherwise the rank of what `extents(t)` returns; None when
   * no branch applies and the program does not compile.
   */
  function TyRank(t: Ty): Option<nat>
    decreases t
  {
    match t
    case Qualified(b) => TyRank(b)
    case Type(arith, rt, rangeOf, mdspanOf, extentsRank) =>
      if arith then Some(0)
      else if rt.Some? then rt
      else if rangeOf.Some? then
        (match TyRank(rangeOf.value) case Some(n) => Some(n + 1) case None => None)
      else if mdspanOf.Some? then
        (match TyRank(mdspanOf.value.elem) case Some(n) => Some(n + mdspanOf.value.rank) case None => None)
      else extentsRank
  }

  /** Any number of const, volatile or reference qualifiers around t. */
  function Qualify(t: Ty, n: nat): Ty {
    if n == 0 then t else Qualified(Qualify(t, n - 1))
  }

  /** Qualifiers never change the rank. */
  lemma {:induction false} QualifiersKeepRank(t: Ty, n: nat)
    ensures TyRank(Qualify(t, n)) == TyRank(t)
    ensures Unqualified(Qualify(t, n)) == Unqualified(t)
  {
    if n > 0 {
      QualifiersKeepRank(t, n - 1);
    }
  }

  function IntTy(): Ty { Type(true, None, None, None, None) }

  /** A range type without traits. */
  function RangeTy(elem: Ty): Ty { Type(false, None, Some(elem), None, None) }

  /** A range of ranges ... of int, depth levels deep, has rank depth. */
  function NestedTy(depth: nat): Ty {
    if depth == 0 then IntTy() else RangeTy(NestedTy(depth - 1))
  }

  lemma {:induction false} NestedTyRank(depth: nat)
    ensures TyRank(NestedTy(depth)) == Some(depth)
  {
    if depth > 0 {
      NestedTyRank(depth - 1);
    }
  }

  /**
   * `mdspan<std::array<int, 3>, extents<1, dynamic_extent, 1>>` has rank 4
   * and `int const (&)[1][1]` has rank 2.
   */
  lemma RankExamples(arrays: Ty, md: Ty, ref2: Ty)
    requires arrays == RangeTy(IntTy()) && md == Type(false, None, None, Some(MdspanTy(arrays, 3)), None)
    requires ref2 == Qualified(Qualified(RangeTy(RangeTy(IntTy()))))
    ensures TyRank(md) == Some(4) && TyRank(ref2) == Some(2)
  {
  }

  /**
   * The axes `rank` counts that `extents` does not list: an mdspan's
   * `.extents()` has only the mdspan's own axes, while `rank` adds the
   * element type's rank; a range passes on its element's.
   */
  function UncountedAxes(t: Ty): nat
    decreases t
  {
    match t
    case Qualified(b) => UncountedAxes(b)
    case Type(arith, rt, rangeOf, mdspanOf, _) =>
      if arith || rt.Some? then 0
      else if rangeOf.Some? then UncountedAxes(rangeOf.value)
      else if mdspanOf.Some? then (match TyRank(mdspanOf.value.elem) case Some(n) => n case None => 0)
      else 0
  }

  /**
   * An object handled by the branch its type selects: the same priority
   * (arithmetic, trait, range, member) in `rank` and in `extents`. An
   * mdspan is a member type whose `.extents()` has the mdspan's rank, over
   * an element type that has a rank.
   */
  predicate Conforms(o: Obj, t: Ty)
    decreases o
  {
    var u := Unqualified(t);
    match o
    case Num(_) => u.arithmetic
    case Traited(e, _) => !u.arithmetic && u.rankTrait == Some(|e|)
    case Range(_, es) =>
      !u.arithmetic && u.rankTrait.None? && u.rangeOf.Some?
      && forall i :: 0 <= i < |es| ==> Conforms(es[i], u.rangeOf.value)
    case Custom(e, _) =>
      !u.arithmetic && u.rankTrait.None? && u.rangeOf.None? &&
      if u.mdspanOf.Some? then u.mdspanOf.value.rank == |e| && TyRank(u.mdspanOf.value.elem).Some?
      else u.extentsRank == Some(|e|)
  }

  lemma {:induction false} UnqualifiedRank(t: Ty)
    ensures TyRank(Unqualified(t)) == TyRank(t)
    ensures UncountedAxes(Unqualified(t)) == UncountedAxes(t)
  {
    match t
    case Qualified(b) => UnqualifiedRank(b);
    case Type(_, _, _, _, _) =>
  }

  /**
   * `rank<T>` is the number of axes `extents(t)` returns, plus the axes of
   * the element type of any mdspan in T, which `extents` does not list; the
   * two agree exactly when there are none.
   */
  lemma {:induction false} RankIsExtentsLength(o: Obj, t: Ty)
    requires Conforms(o, t) && HasExtents(o)
    ensures TyRank(t) == Some(|ObjExtents(o)| + UncountedAxes(t))
    ensures TyRank(t) == Some(|ObjExtents(o)|) <==> UncountedAxes(t) == 0
    decreases o
  {
    UnqualifiedRank(t);
    var u := Unqualified(t);
    match o
    case Range(_, es) =>
      RankIsExtentsLength(es[0], u.rangeOf.value);
    case _ =>
  }

  /**
   * `mdspan<std::array<int, 3>, extents<1, dynamic_extent, 1>>`: `rank`
   * is 4, but `extents` of such an object, from its `.extents()` member,
   * has 3 axes, and `evaluate` takes the 3 indices its subscript does.
   */
  lemma MdspanOfArrays(o: Obj, md: Ty, idx: seq<nat>)
    requires md == Type(false, None, None, Some(MdspanTy(RangeTy(IntTy()), 3)), None)
    requires Conforms(o, md)
    ensures o.Custom? && |ObjExtents(o)| == 3 && TyRank(md) == Some(4)
    ensures Evaluable(o, idx) <==> |idx| == 3
  {
    RankIsExtentsLength(o, md);
  }
}
