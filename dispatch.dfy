/**
 * The library's customisation-point dispatch: `ttl::extents` picks the
 * trait's extents over a member `extents()`, and `ttl::evaluate` picks,
 * for a given number of indices, the trait's evaluate, then a member
 * evaluate, then a multidimensional subscript. The result types
 * `evaluate_type`, `scalar_type` and `accumulator_type` follow.
 */
module Dispatch {
  import opened Wrappers
  import opened Extents

  // ---------------------------------------------------------------------
  // extents
  // ---------------------------------------------------------------------

  /** What a type offers `extents`: `tensor_traits<T>::extents(t)` and a member `t.extents()`. */
  datatype ShapeOffer = ShapeOffer(byTrait: Option<Extents>, member: Option<Extents>)

  /** `ttl::extents(t)`: the trait's extents when it has them, the member's otherwise; None when neither exists. */
  function ExtentsOf(t: ShapeOffer): (r: Option<Extents>)
    ensures t.byTrait.Some? ==> r == t.byTrait
    ensures t.byTrait.None? ==> r == t.member
  {
    if t.byTrait.Some? then t.byTrait else t.member
  }

  /** `rank<T>`: the number of axes of `extents(t)`. */
  function RankOf(t: ShapeOffer): (r: nat)
    requires ExtentsOf(t).Some?
    ensures r == |Runtimes(ExtentsOf(t).value)|
  {
    |ExtentsOf(t).value|
  }

  /** `extent(t, i)`: the runtime size of axis i of `extents(t)`. */
  function ExtentOf(t: ShapeOffer, i: nat): (r: nat)
    requires ExtentsOf(t).Some? && i < RankOf(t)
    ensures r == Runtimes(ExtentsOf(t).value)[i]
  {
    Extent(ExtentsOf(t).value, i)
  }

  // ---------------------------------------------------------------------
  // evaluate
  // ---------------------------------------------------------------------

  /** A result type: a base scalar type with its const and reference qualifiers. */
  datatype QualType = QualType(base: nat, isConst: bool, isRef: bool)

  /** One way of reading an element: the index counts it accepts, what it reads and the type it returns. */
  datatype Accessor = Accessor(arities: set<nat>, read: seq<nat> -> int, result: QualType)

  /**
   * What a type offers `evaluate`: `tensor_traits<T>::evaluate(t, i...)`,
   * a member `t.evaluate(i...)` and a subscript `t[i...]`.
   */
  datatype Offer = Offer(byTrait: Option<Accessor>, member: Option<Accessor>, subscript: Option<Accessor>)

  /** The accessor exists and takes n indices. */
  predicate Accepts(a: Option<Accessor>, n: nat) {
    a.Some? && n in a.value.arities
  }

  datatype Strategy = UseTrait | UseMember | UseSubscript

  /** The accessor a strategy calls. */
  function Accessed(t: Offer, s: Strategy): Option<Accessor> {
    match s
    case UseTrait => t.byTrait
    case UseMember => t.member
    case UseSubscript => t.subscript
  }

  /** The branch `evaluate` takes for n indices: the first of trait, member and subscript that accepts them. */
  function Choose(t: Offer, n: nat): (r: Option<Strategy>)
    ensures r.Some? ==> Accepts(Accessed(t, r.value), n)
    ensures r == None <==> !Accepts(t.byTrait, n) && !Accepts(t.member, n) && !Accepts(t.subscript, n)
  {
    if Accepts(t.byTrait, n) then Some(UseTrait)
    else if Accepts(t.member, n) then Some(UseMember)
    else if Accepts(t.subscript, n) then Some(UseSubscript)
    else None
  }

  /** Each branch is taken exactly when it accepts n indices and no earlier branch does. */
  lemma ChoosePriority(t: Offer, n: nat)
    ensures Choose(t, n) == Some(UseTrait) <==> Accepts(t.byTrait, n)
    ensures Choose(t, n) == Some(UseMember) <==> !Accepts(t.byTrait, n) && Accepts(t.member, n)
    ensures Choose(t, n) == Some(UseSubscript) <==> !Accepts(t.byTrait, n) && !Accepts(t.member, n) && Accepts(t.subscript, n)
  {
  }

  /** `evaluate(t, i...)`: the chosen accessor applied to the indices as given. */
  function Evaluate(t: Offer, idx: seq<nat>): (v: int)
    requires Choose(t, |idx|).Some?
    ensures exists s: Strategy :: Accepts(Accessed(t, s), |idx|) && v == Accessed(t, s).value.read(idx)
  {
    var s := Choose(t, |idx|).value;
    Accessed(t, s).value.read(idx)
  }

  /** Whenever the trait takes the indices, `evaluate` is the trait's evaluate at those same indices. */
  lemma EvaluateUsesTrait(t: Offer, idx: seq<nat>)
    requires Accepts(t.byTrait, |idx|)
    ensures Choose(t, |idx|).Some? && Evaluate(t, idx) == t.byTrait.value.read(idx)
  {
  }

  /** The subscript answers only when neither the trait nor a member evaluate takes the indices. */
  lemma EvaluateUsesSubscript(t: Offer, idx: seq<nat>)
    requires Choose(t, |idx|) == Some(UseSubscript)
    ensures !Accepts(t.byTrait, |idx|) && !Accepts(t.member, |idx|)
    ensures Evaluate(t, idx) == t.subscript.value.read(idx)
  {
  }

  /** `evaluate_type<T>`: the type `evaluate` returns for `rank<T>` zero indices. */
  function EvaluateType(t: Offer, rank: nat): (r: QualType)
    requires Choose(t, rank).Some?
    ensures exists s: Strategy :: Accepts(Accessed(t, s), rank) && r == Accessed(t, s).value.result
  {
    Accessed(t, Choose(t, rank).value).value.result
  }

  /** `scalar_type<T>`: the evaluate type without its reference. */
  function ScalarType(t: Offer, rank: nat): (r: QualType)
    requires Choose(t, rank).Some?
    ensures !r.isRef && r.base == EvaluateType(t, rank).base && r.isConst == EvaluateType(t, rank).isConst
  {
    var e := EvaluateType(t, rank);
    QualType(e.base, e.isConst, false)
  }

  /** `accumulator_type<T>`: the scalar type without const, so an accumulator can be updated. */
  function AccumulatorType(t: Offer, rank: nat): (r: QualType)
    requires Choose(t, rank).Some?
    ensures !r.isRef && !r.isConst && r.base == EvaluateType(t, rank).base
  {
    var s := ScalarType(t, rank);
    QualType(s.base, false, s.isRef)
  }

  // ---------------------------------------------------------------------
  // The member test as written
  // ---------------------------------------------------------------------

  /** `_has_member_fn<T, N>` as written: the trait test a second time. */
  predicate HasMemberAsWritten(t: Offer, n: nat) {
    Accepts(t.byTrait, n)
  }

  /** The branch `evaluate` takes with `_use_member_fn` built on the test as written. */
  function ChooseAsWritten(t: Offer, n: nat): Option<Strategy> {
    var useTrait := Accepts(t.byTrait, n);
    var useMember := !useTrait && HasMemberAsWritten(t, n);
    var useSubscript := !useTrait && !useMember && Accepts(t.subscript, n);
    if useTrait then Some(UseTrait)
    else if useMember then Some(UseMember)
    else if useSubscript then Some(UseSubscript)
    else None
  }

  /** As written, the member branch is never taken. */
  lemma MemberNeverChosenAsWritten(t: Offer, n: nat)
    ensures ChooseAsWritten(t, n) != Some(UseMember)
  {
  }

  /** The two dispatches differ exactly for types whose member evaluate takes the indices and whose trait does not. */
  lemma AsWrittenDiffers(t: Offer, n: nat)
    ensures ChooseAsWritten(t, n) != Choose(t, n) <==> !Accepts(t.byTrait, n) && Accepts(t.member, n)
  {
  }

  /** A type with only a member `evaluate(i)`: as written, `evaluate(t, 0)` does not compile. */
  lemma MemberOnlyType(f: seq<nat> -> int, q: QualType, t: Offer)
    requires t == Offer(None, Some(Accessor({1}, f, q)), None)
    ensures ChooseAsWritten(t, 1) == None
    ensures Choose(t, 1) == Some(UseMember) && Evaluate(t, [0]) == f([0])
  {
  }

  // ---------------------------------------------------------------------
  // scalar_type in the tensor module
  // ---------------------------------------------------------------------

  /**
   * `scalar_type<T>` in the tensor module: the trait's declared scalar type,
   * else the type's own member `scalar_type`, else the evaluate type with
   * const, volatile and reference removed.
   */
  function ModuleScalarType(traitScalar: Option<nat>, memberScalar: Option<nat>, evaluated: QualType): (r: QualType)
    ensures !r.isRef && !r.isConst
    ensures traitScalar.Some? ==> r.base == traitScalar.value
    ensures traitScalar.None? && memberScalar.Some? ==> r.base == memberScalar.value
    ensures traitScalar.None? && memberScalar.None? ==> r.base == evaluated.base
  {
    if traitScalar.Some? then QualType(traitScalar.value, false, false)
    else if memberScalar.Some? then QualType(memberScalar.value, false, false)
    else QualType(evaluated.base, false, false)
  }
}
