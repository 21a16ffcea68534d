/**
 * Extents: the shape of a tensor, axis by axis a static size (absent for
 * `dynamic_extent`) and a runtime size, and the operations the expression
 * tree performs on them.
 */
module Extents {
  import opened Wrappers

  datatype Axis = Axis(staticSize: Option<nat>, runtime: nat)

  type Extents = seq<Axis>

  /** A static size, when there is one, is the runtime size (`std::extents`' invariant). */
  predicate AxisOk(x: Axis) {
    x.staticSize.Some? ==> x.staticSize.value == x.runtime
  }

  predicate WellFormed(e: Extents) {
    forall k :: 0 <= k < |e| ==> AxisOk(e[k])
  }

  function Statics(e: Extents): seq<Option<nat>> {
    seq(|e|, k requires 0 <= k < |e| => e[k].staticSize)
  }

  function Runtimes(e: Extents): seq<nat> {
    seq(|e|, k requires 0 <= k < |e| => e[k].runtime)
  }

  /** `std::extents<T, statics...>{runtimes...}`. */
  function Make(statics: seq<Option<nat>>, runtimes: seq<nat>): (e: Extents)
    requires |statics| == |runtimes|
    ensures Statics(e) == statics && Runtimes(e) == runtimes
  {
    seq(|statics|, k requires 0 <= k < |statics| => Axis(statics[k], runtimes[k]))
  }

  /** `extent(e, i)`: the runtime size of axis i. */
  function Extent(e: Extents, i: nat): nat
    requires i < |e|
  {
    e[i].runtime
  }

  /** `concat_extents(a, b)`: the static sizes of a then b, filled with the runtime sizes of a then b. */
  function Concat(a: Extents, b: Extents): (r: Extents)
    ensures r == a + b
  {
    Make(Statics(a) + Statics(b), Runtimes(a) + Runtimes(b))
  }

  /** `prepend_extent<n>(b, x)` and the module's `_prepend<n>(x, b)`: a new leading axis. */
  function Prepend(n: Option<nat>, x: nat, b: Extents): (r: Extents)
    ensures r == [Axis(n, x)] + b
  {
    Concat(Make([n], [x]), b)
  }

  /** `select_extents<i...>(t)`: axis k of the result is axis `pos[k]` of t, static and runtime size alike. */
  function Select(pos: seq<nat>, t: Extents): (r: Extents)
    requires forall k :: 0 <= k < |pos| ==> pos[k] < |t|
    ensures |r| == |pos|
    ensures forall k :: 0 <= k < |pos| ==> r[k] == t[pos[k]]
  {
    Make(seq(|pos|, k requires 0 <= k < |pos| => t[pos[k]].staticSize),
         seq(|pos|, k requires 0 <= k < |pos| => t[pos[k]].runtime))
  }

  lemma ConcatWellFormed(a: Extents, b: Extents)
    requires WellFormed(a) && WellFormed(b)
    ensures WellFormed(Concat(a, b))
  {
  }

  lemma SelectWellFormed(pos: seq<nat>, t: Extents)
    requires forall k :: 0 <= k < |pos| ==> pos[k] < |t|
    requires WellFormed(t)
    ensures WellFormed(Select(pos, t))
  {
  }

  /**
   * The `static_assert` of `compatible_extents`: the same rank, and on each
   * axis equal static sizes or at least one dynamic.
   */
  predicate StaticallyCompatible(a: Extents, b: Extents) {
    |a| == |b| &&
    forall k :: 0 <= k < |a| ==> a[k].staticSize == b[k].staticSize || a[k].staticSize.None? || b[k].staticSize.None?
  }

  /** The fold of `compatible_extents` from axis k on. */
  function CompatibleFrom(a: Extents, b: Extents, k: nat): bool
    requires StaticallyCompatible(a, b) && k <= |a|
    decreases |a| - k
  {
    k == |a| || (a[k].runtime == b[k].runtime && CompatibleFrom(a, b, k + 1))
  }

  /** `compatible_extents(a, b)`: every runtime size agrees. */
  function Compatible(a: Extents, b: Extents): bool
    requires StaticallyCompatible(a, b)
  {
    CompatibleFrom(a, b, 0)
  }

  lemma {:induction false} CompatibleFromMeaning(a: Extents, b: Extents, k: nat)
    requires StaticallyCompatible(a, b) && k <= |a|
    ensures CompatibleFrom(a, b, k) <==> forall i :: k <= i < |a| ==> a[i].runtime == b[i].runtime
    decreases |a| - k
  {
    if k < |a| {
      CompatibleFromMeaning(a, b, k + 1);
    }
  }

  /** Compatible extents are those with the same runtime sizes. */
  lemma CompatibleMeaning(a: Extents, b: Extents)
    requires StaticallyCompatible(a, b)
    ensures Compatible(a, b) <==> Runtimes(a) == Runtimes(b)
  {
    CompatibleFromMeaning(a, b, 0);
    if Compatible(a, b) {
      assert forall i :: 0 <= i < |a| ==> Runtimes(a)[i] == Runtimes(b)[i];
    }
    if Runtimes(a) == Runtimes(b) {
      assert forall i :: 0 <= i < |a| ==> a[i].runtime == Runtimes(a)[i] && b[i].runtime == Runtimes(b)[i];
    }
  }

  lemma CompatibleSymmetric(a: Extents, b: Extents)
    requires StaticallyCompatible(a, b)
    ensures StaticallyCompatible(b, a) && (Compatible(a, b) <==> Compatible(b, a))
  {
    CompatibleMeaning(a, b);
    CompatibleMeaning(b, a);
  }

  /** `std::min` of two static sizes, `dynamic_extent` being the largest size_t. */
  function MinStatic(x: Option<nat>, y: Option<nat>): Option<nat> {
    match (x, y)
    case (None, None) => None
    case (Some(m), None) => Some(m)
    case (None, Some(n)) => Some(n)
    case (Some(m), Some(n)) => Some(if m <= n then m else n)
  }

  /**
   * `merge_extents(a, b)`: asserts compatibility; each static size is the
   * smaller of the two (so a static side wins over a dynamic one), and the
   * runtime sizes are taken from a.
   */
  function Merge(a: Extents, b: Extents): (r: Extents)
    requires StaticallyCompatible(a, b) && Compatible(a, b)
  {
    Make(seq(|a|, k requires 0 <= k < |a| => MinStatic(a[k].staticSize, b[k].staticSize)), Runtimes(a))
  }

  /** A merged axis knows its static size whenever either side does, and has the common runtime size. */
  lemma MergeMeaning(a: Extents, b: Extents)
    requires StaticallyCompatible(a, b) && Compatible(a, b)
    ensures |Merge(a, b)| == |a|
    ensures forall k :: 0 <= k < |a| ==>
              Merge(a, b)[k].runtime == a[k].runtime == b[k].runtime &&
              Merge(a, b)[k].staticSize == (if a[k].staticSize.Some? then a[k].staticSize else b[k].staticSize)
  {
    CompatibleMeaning(a, b);
    assert forall k :: 0 <= k < |a| ==> Runtimes(a)[k] == Runtimes(b)[k];
  }

  /** Merging is symmetric on compatible extents. */
  lemma MergeCommutes(a: Extents, b: Extents)
    requires StaticallyCompatible(a, b) && Compatible(a, b)
    ensures StaticallyCompatible(b, a) && Compatible(b, a)
    ensures Merge(a, b) == Merge(b, a)
  {
    CompatibleSymmetric(a, b);
    MergeMeaning(a, b);
    MergeMeaning(b, a);
  }

  /** The merge of well-formed compatible extents is well formed and compatible with both inputs. */
  lemma MergeKeepsCompatibility(a: Extents, b: Extents)
    requires WellFormed(a) && WellFormed(b)
    requires StaticallyCompatible(a, b) && Compatible(a, b)
    ensures WellFormed(Merge(a, b))
    ensures StaticallyCompatible(Merge(a, b), a) && Compatible(Merge(a, b), a)
    ensures StaticallyCompatible(Merge(a, b), b) && Compatible(Merge(a, b), b)
  {
    MergeMeaning(a, b);
    CompatibleMeaning(Merge(a, b), a);
    CompatibleMeaning(Merge(a, b), b);
    assert Runtimes(Merge(a, b)) == Runtimes(a);
    assert forall k :: 0 <= k < |a| ==> Runtimes(a)[k] == Runtimes(b)[k];
  }
}
