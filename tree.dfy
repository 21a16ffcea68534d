/**
 * The expression tree: `bind`, `sum`, `product` and the unary prefix nodes,
 * the checks their constructors make, their outer labels and extents, and
 * the value of each element.
 *
 * A tensor that is not an expression is a `Leaf`: its extents and a total
 * function from index tuples to values. Every other node is an expression.
 */
module Tree {
  import opened IndexString
  import opened Extents
  import IString

  datatype SumOp = Add | Subtract

  datatype UnaryOp = Negate | Identity

  /**
   * A tensor expression. `Bind` labels its operand with an index string and
   * carries the slots of the bound index, one per character; only the slots
   * at '*' positions are ever read.
   */
  datatype Node =
    | Leaf(shape: Extents, at: seq<nat> -> int)
    | Bind(a: Node, str: seq<char>, id: seq<nat>)
    | Sum(op: SumOp, a: Node, b: Node)
    | Product(a: Node, b: Node)
    | Unary(uop: UnaryOp, a: Node)

  predicate IsExpression(n: Node) {
    !n.Leaf?
  }

  /** Entry k of the result is entry `m[k]` of t: how an index pack is permuted by an index map. */
  function Gather(t: seq<nat>, m: seq<nat>): (w: seq<nat>)
    requires forall k :: 0 <= k < |m| ==> m[k] < |t|
    ensures |w| == |m|
  {
    seq(|m|, k requires 0 <= k < |m| => t[m[k]])
  }

  // ---------------------------------------------------------------------
  // The contracted-extent check shared by every node
  // ---------------------------------------------------------------------

  /**
   * The two halves of `_check_contracted_extents`: the `static_assert` that
   * two static sizes agree or one is dynamic, and the runtime comparison.
   */
  datatype Half = StaticHalf | RuntimeHalf

  predicate AxesAgree(h: Half, x: Axis, y: Axis) {
    match h
    case StaticHalf => x.staticSize.None? || y.staticSize.None? || x.staticSize == y.staticSize
    case RuntimeHalf => x.runtime == y.runtime
  }

  /** The two axes that a contracted character labels agree. */
  predicate PairAgrees(h: Half, s: seq<char>, e: Extents, c: char)
    requires |e| == |s| && IsContractedChar(s, c)
  {
    OffsetsMeaning(s, c);
    AxesAgree(h, e[Offsets(s, c).0], e[Offsets(s, c).1])
  }

  /** The fold over the contracted characters still to check. */
  function ContractedFold(h: Half, s: seq<char>, cs: seq<char>, e: Extents): bool
    requires |e| == |s|
    requires forall c :: c in cs ==> IsContractedChar(s, c)
    decreases |cs|
  {
    cs == [] || (PairAgrees(h, s, e, cs[0]) && ContractedFold(h, s, cs[1..], e))
  }

  /** `_check_contracted_extents<s>(e)`: one comparison per character of `s.contracted()`, at its `find_offsets`. */
  function ContractedCheck(h: Half, s: seq<char>, e: Extents): bool
    requires |e| == |s|
  {
    ContractedMembers(s);
    ContractedFold(h, s, Contracted(s), e)
  }

  lemma {:induction false} ContractedFoldMeaning(h: Half, s: seq<char>, cs: seq<char>, e: Extents)
    requires |e| == |s|
    requires forall c :: c in cs ==> IsContractedChar(s, c)
    ensures ContractedFold(h, s, cs, e) <==> forall c :: c in cs ==> PairAgrees(h, s, e, c)
    decreases |cs|
  {
    if cs != [] {
      ContractedFoldMeaning(h, s, cs[1..], e);
      assert forall c :: c in cs <==> c == cs[0] || c in cs[1..];
    }
  }

  /**
   * The check holds exactly when every two axes labelled by the same
   * contracted character agree; with no contracted character it holds.
   */
  lemma ContractedCheckMeaning(h: Half, s: seq<char>, e: Extents)
    requires |e| == |s|
    ensures ContractedCheck(h, s, e) <==>
              forall i, j :: 0 <= i < j < |s| && s[i] == s[j] && IsContractedChar(s, s[i]) ==> AxesAgree(h, e[i], e[j])
    ensures Contracted(s) == [] ==> ContractedCheck(h, s, e)
  {
    ContractedMembers(s);
    ContractedFoldMeaning(h, s, Contracted(s), e);
    if ContractedCheck(h, s, e) {
      forall i, j | 0 <= i < j < |s| && s[i] == s[j] && IsContractedChar(s, s[i])
        ensures AxesAgree(h, e[i], e[j])
      {
        OffsetsMeaning(s, s[i]);
        assert PairAgrees(h, s, e, s[i]);
      }
    }
    if forall i, j :: 0 <= i < j < |s| && s[i] == s[j] && IsContractedChar(s, s[i]) ==> AxesAgree(h, e[i], e[j]) {
      forall c | c in Contracted(s)
        ensures PairAgrees(h, s, e, c)
      {
        OffsetsMeaning(s, c);
        var (p, q) := Offsets(s, c);
        assert s[p] == s[q];
      }
    }
  }

  /** One instance of the check: two positions holding the same contracted character. */
  lemma ContractedPairAgrees(h: Half, s: seq<char>, e: Extents, i: nat, j: nat)
    requires |e| == |s| && ContractedCheck(h, s, e)
    requires i < j < |s| && s[i] == s[j] && IsContractedChar(s, s[i])
    ensures AxesAgree(h, e[i], e[j])
  {
    ContractedCheckMeaning(h, s, e);
  }

  /**
   * `_check_contracted_extents_static` and `_check_contracted_extents_dynamic`
   * of the module draft: a loop over `contracted()` that looks both offsets
   * up with `index_of_2` and returns false at the first pair that disagrees.
   */
  method CheckContractedExtents(h: Half, s: seq<char>, e: Extents) returns (ok: bool)
    requires |e| == |s|
    ensures ok == ContractedCheck(h, s, e)
  {
    ContractedMembers(s);
    var cs := Contracted(s);
    var i := 0;
    while i < |cs|
      invariant 0 <= i <= |cs|
      invariant ContractedFold(h, s, cs, e) == ContractedFold(h, s, cs[i..], e)
    {
      FoldStep(h, s, cs, e, i);
      var j, k := IString.IndexOf2(s, cs[i]);
      if !AxesAgree(h, e[j], e[k]) {
        return false;
      }
      i := i + 1;
    }
    return true;
  }

  /** The fold over `cs[i..]` checks `cs[i]`, then folds over the rest. */
  lemma FoldStep(h: Half, s: seq<char>, cs: seq<char>, e: Extents, i: nat)
    requires |e| == |s| && i < |cs|
    requires forall c :: c in cs ==> IsContractedChar(s, c)
    ensures IsContractedChar(s, cs[i]) && cs[i] != Star && Count(s, cs[i]) == 2
    ensures ContractedFold(h, s, cs[i..], e) == (PairAgrees(h, s, e, cs[i]) && ContractedFold(h, s, cs[i + 1..], e))
  {
    assert cs[i] in cs;
    assert cs[i..][1..] == cs[i + 1..];
  }

  // ---------------------------------------------------------------------
  // Well-formed trees, their outer labels and their extents
  // ---------------------------------------------------------------------

  /**
   * The conditions under which each node exists: the `static_assert`s on
   * ranks and labels (index maps need their target inside their source)
   * and the assertions the constructors make on extents.
   */
  predicate Valid(n: Node)
    decreases n, 1
  {
    match n
    case Leaf(shape, _) => WellFormed(shape)
    case Bind(a, s, id) =>
      Valid(a) && |NodeExtents(a)| == |s| && |id| == |s| &&
      IndexMapGuard(All(s), s) &&
      ContractedCheck(StaticHalf, s, NodeExtents(a)) && ContractedCheck(RuntimeHalf, s, NodeExtents(a))
    case Sum(_, a, b) =>
      Valid(a) && Valid(b) && IsExpression(a) && IsExpression(b) &&
      IsPermutation(NodeOuter(a), NodeOuter(b)) &&
      IndexMapGuard(NodeOuter(a), NodeOuter(a)) && IndexMapGuard(NodeOuter(a), NodeOuter(b)) &&
      IndexMapGuard(NodeOuter(b), NodeOuter(a)) &&
      StaticallyCompatible(SumSides(n).0, SumSides(n).1) && Compatible(SumSides(n).0, SumSides(n).1)
    case Product(a, b) =>
      Valid(a) && Valid(b) && IsExpression(a) && IsExpression(b) &&
      Projected(NodeOuter(a) + NodeOuter(b)) == [] &&
      IndexMapGuard(Inner(NodeOuter(a) + NodeOuter(b)), NodeOuter(a)) &&
      IndexMapGuard(Inner(NodeOuter(a) + NodeOuter(b)), NodeOuter(b)) &&
      ContractedCheck(StaticHalf, NodeOuter(a) + NodeOuter(b), Concat(NodeExtents(a), NodeExtents(b))) &&
      ContractedCheck(RuntimeHalf, NodeOuter(a) + NodeOuter(b), Concat(NodeExtents(a), NodeExtents(b)))
    case Unary(_, a) => Valid(a) && IsExpression(a)
  }

  /** `outer()` of an expression: its free index letters, in the order its elements are addressed. */
  function NodeOuter(n: Node): seq<char>
    requires Valid(n) && IsExpression(n)
    decreases n, 2
  {
    match n
    case Leaf(_, _) => []
    case Bind(_, s, _) => Outer(s)
    case Sum(_, a, _) => NodeOuter(a)
    case Product(a, b) => Outer(NodeOuter(a) + NodeOuter(b))
    case Unary(_, a) => NodeOuter(a)
  }

  /**
   * The operands' extents in the sum's outer order:
   * `select_extents(_map_aa, extents(a))` and `select_extents(_map_ba, extents(b))`.
   */
  function SumSides(n: Node): (r: (Extents, Extents))
    requires n.Sum? && Valid(n.a) && Valid(n.b) && IsExpression(n.a) && IsExpression(n.b)
    requires IndexMapGuard(NodeOuter(n.a), NodeOuter(n.a)) && IndexMapGuard(NodeOuter(n.b), NodeOuter(n.a))
    ensures |r.0| == |r.1| == |NodeOuter(n.a)|
    ensures WellFormed(r.0) && WellFormed(r.1)
    decreases n, 0
  {
    var oa, ob := NodeOuter(n.a), NodeOuter(n.b);
    IndexMapSound(oa, oa);
    IndexMapSound(ob, oa);
    SelectWellFormed(IndexMap(oa, oa), NodeExtents(n.a));
    SelectWellFormed(IndexMap(ob, oa), NodeExtents(n.b));
    (Select(IndexMap(oa, oa), NodeExtents(n.a)), Select(IndexMap(ob, oa), NodeExtents(n.b)))
  }

  /** `extents(n)`: a leaf's own; for an expression, one axis per outer letter. */
  function NodeExtents(n: Node): (r: Extents)
    requires Valid(n)
    ensures WellFormed(r)
    ensures IsExpression(n) ==> |r| == |NodeOuter(n)|
    decreases n, 3
  {
    match n
    case Leaf(shape, _) => shape
    case Bind(a, s, _) =>
      DerivedGuards(s);
      IndexMapSound(s, Outer(s));
      SelectWellFormed(IndexMap(s, Outer(s)), NodeExtents(a));
      Select(IndexMap(s, Outer(s)), NodeExtents(a))
    case Sum(_, _, _) =>
      MergeKeepsCompatibility(SumSides(n).0, SumSides(n).1);
      MergeMeaning(SumSides(n).0, SumSides(n).1);
      Merge(SumSides(n).0, SumSides(n).1)
    case Product(a, b) =>
      var ab := NodeOuter(a) + NodeOuter(b);
      DerivedGuards(ab);
      IndexMapSound(ab, Outer(ab));
      ConcatWellFormed(NodeExtents(a), NodeExtents(b));
      SelectWellFormed(IndexMap(ab, Outer(ab)), Concat(NodeExtents(a), NodeExtents(b)));
      Select(IndexMap(ab, Outer(ab)), Concat(NodeExtents(a), NodeExtents(b)))
    case Unary(_, a) => NodeExtents(a)
  }

  /** `rank<T>`: the number of axes of `extents(n)`. */
  function NodeRank(n: Node): nat
    requires Valid(n)
  {
    |NodeExtents(n)|
  }

  /** How many indices `_evaluate` collects before it reads operands: `inner().size()` for a bind or a product. */
  function Depth(n: Node): (d: nat)
    requires Valid(n)
    ensures d >= NodeRank(n)
  {
    match n
    case Bind(_, s, _) => AllLength(s); |Inner(s)|
    case Product(a, b) => AllLength(NodeOuter(a) + NodeOuter(b)); |Inner(NodeOuter(a) + NodeOuter(b))|
    case _ => NodeRank(n)
  }

  /** The extents in inner order, whose trailing axes bound the contraction loops. */
  function InnerExtents(n: Node): (r: Extents)
    requires Valid(n) && (n.Bind? || n.Product?)
    ensures |r| == Depth(n)
  {
    match n
    case Bind(a, s, _) =>
      DerivedGuards(s);
      IndexMapSound(s, Inner(s));
      Select(IndexMap(s, Inner(s)), NodeExtents(a))
    case Product(a, b) =>
      var ab := NodeOuter(a) + NodeOuter(b);
      DerivedGuards(ab);
      IndexMapSound(ab, Inner(ab));
      Select(IndexMap(ab, Inner(ab)), Concat(NodeExtents(a), NodeExtents(b)))
  }

  // ---------------------------------------------------------------------
  // Element values
  // ---------------------------------------------------------------------

  /**
   * The operand's index tuple at full depth: `_append_projection` appends the
   * slots at the '*' positions (the projection map) to the inner indices,
   * and `_remap_indices` permutes the result by `index_map<all, s>`.
   */
  function Remap(s: seq<char>, id: seq<nat>, idx: seq<nat>): (w: seq<nat>)
    requires |id| == |s| && |idx| == |Inner(s)| && IndexMapGuard(All(s), s)
    ensures |w| == |s|
  {
    var p := Positions(s, Star);
    PositionsMeaning(s, Star);
    AllLength(s);
    IndexMapSound(All(s), s);
    Gather(idx + seq(|p|, k requires 0 <= k < |p| => id[p[k]]), IndexMap(All(s), s))
  }

  /** `std::plus` for `add`, `std::minus` for `sub`. */
  function Combine(op: SumOp, x: int, y: int): int {
    match op
    case Add => x + y
    case Subtract => x - y
  }

  /** `std::negate` for `negate`, `std::identity` for `identity`. */
  function Apply(op: UnaryOp, x: int): int {
    match op
    case Negate => -x
    case Identity => x
  }

  /**
   * The value at an index tuple of exactly `rank` entries, as `operator[]`
   * computes it once its bounds assertion has passed.
   */
  function Eval(n: Node, idx: seq<nat>): int
    requires Valid(n) && |idx| == NodeRank(n)
    decreases n, 1, 0, 0, 0
  {
    match n
    case Leaf(_, at) => at(idx)
    case Bind(_, _, _) => Deep(n, idx)
    case Product(_, _) => Deep(n, idx)
    case Sum(op, a, b) =>
      var oa, ob := NodeOuter(a), NodeOuter(b);
      IndexMapSound(oa, oa);
      IndexMapSound(oa, ob);
      Combine(op, Eval(a, Gather(idx, IndexMap(oa, oa))), Eval(b, Gather(idx, IndexMap(oa, ob))))
    case Unary(op, a) => Apply(op, Eval(a, idx))
  }

  /**
   * `_evaluate(i...)` of a bind or a product with between `rank` and
   * `inner().size()` indices: at full depth the operands are read, below it
   * the next contracted axis is summed over.
   */
  function Deep(n: Node, idx: seq<nat>): int
    requires Valid(n) && (n.Bind? || n.Product?)
    requires NodeRank(n) <= |idx| <= Depth(n)
    decreases n, 0, Depth(n) - |idx|, 1, 0
  {
    if |idx| < Depth(n) then
      Sigma(n, idx, 0, InnerExtents(n)[|idx|].runtime)
    else
      match n
      case Bind(a, s, id) => Eval(a, Remap(s, id, idx))
      case Product(a, b) =>
        var oa, ob := NodeOuter(a), NodeOuter(b);
        var inner := Inner(oa + ob);
        IndexMapSound(inner, oa);
        IndexMapSound(inner, ob);
        Eval(a, Gather(idx, IndexMap(inner, oa))) * Eval(b, Gather(idx, IndexMap(inner, ob)))
  }

  /** The accumulation loop from j on: the sum of `_evaluate(i..., j')` for j <= j' < e. */
  function Sigma(n: Node, idx: seq<nat>, j: nat, e: nat): int
    requires Valid(n) && (n.Bind? || n.Product?)
    requires NodeRank(n) <= |idx| < Depth(n) && j <= e
    decreases n, 0, Depth(n) - |idx|, 0, e - j
  {
    if j == e then 0 else Deep(n, idx + [j]) + Sigma(n, idx, j + 1, e)
  }

  /**
   * The nodes' `operator[]`/`_evaluate` as they run: a sum or a unary node
   * evaluates its operands and combines them; a bind or a product collects
   * indices up to its inner depth, accumulating over each contracted axis.
   */
  method Evaluate(n: Node, idx: seq<nat>) returns (v: int)
    requires Valid(n) && |idx| == NodeRank(n)
    ensures v == Eval(n, idx)
    decreases n, 1, 0
  {
    match n
    case Leaf(_, at) =>
      v := at(idx);
    case Bind(_, _, _) =>
      v := EvaluateDeep(n, idx);
    case Product(_, _) =>
      v := EvaluateDeep(n, idx);
    case Sum(op, a, b) =>
      var oa, ob := NodeOuter(a), NodeOuter(b);
      IndexMapSound(oa, oa);
      IndexMapSound(oa, ob);
      var x := Evaluate(a, Gather(idx, IndexMap(oa, oa)));
      var y := Evaluate(b, Gather(idx, IndexMap(oa, ob)));
      v := Combine(op, x, y);
    case Unary(op, a) =>
      var x := Evaluate(a, idx);
      v := Apply(op, x);
  }

  /**
   * `_evaluate(i...)` of a bind or a product: below full depth a counted loop
   * accumulates, from zero, the evaluation with one more index; at full depth
   * the operands are read.
   */
  method EvaluateDeep(n: Node, idx: seq<nat>) returns (v: int)
    requires Valid(n) && (n.Bind? || n.Product?)
    requires NodeRank(n) <= |idx| <= Depth(n)
    ensures v == Deep(n, idx)
    decreases n, 0, Depth(n) - |idx|
  {
    if |idx| < Depth(n) {
      var e := InnerExtents(n)[|idx|].runtime;
      var accum := 0;
      var j := 0;
      while j != e
        invariant 0 <= j <= e
        invariant accum + Sigma(n, idx, j, e) == Sigma(n, idx, 0, e)
      {
        var x := EvaluateDeep(n, idx + [j]);
        accum := accum + x;
        j := j + 1;
      }
      v := accum;
    } else {
      match n
      case Bind(a, s, id) =>
        v := Evaluate(a, Remap(s, id, idx));
      case Product(a, b) =>
        var oa, ob := NodeOuter(a), NodeOuter(b);
        var inner := Inner(oa + ob);
        IndexMapSound(inner, oa);
        IndexMapSound(inner, ob);
        var x := Evaluate(a, Gather(idx, IndexMap(inner, oa)));
        var y := Evaluate(b, Gather(idx, IndexMap(inner, ob)));
        v := x * y;
    }
  }

  /** `_check_bounds`: one index per axis of `extents()`, each below that axis' runtime size. */
  predicate CheckBounds(n: Node, idx: seq<nat>)
    requires Valid(n)
  {
    |idx| == NodeRank(n) && forall k :: 0 <= k < |idx| ==> idx[k] < NodeExtents(n)[k].runtime
  }

  /** `operator[]`: the bounds assertion, then the element value. */
  function Subscript(n: Node, idx: seq<nat>): int
    requires Valid(n) && CheckBounds(n, idx)
  {
    Eval(n, idx)
  }

  /**
   * A tuple addressed by the letters of `from`, read back in the order of the
   * letters of `to`: entry t is the index at the position of `to[t]` in `from`.
   */
  function Realign(from: seq<char>, to: seq<char>, idx: seq<nat>): (w: seq<nat>)
    requires forall t :: 0 <= t < |to| ==> IndexOf(from, to[t]) < |idx|
    ensures |w| == |to|
  {
    seq(|to|, t requires 0 <= t < |to| => idx[IndexOf(from, to[t])])
  }

  // ---------------------------------------------------------------------
  // What the nodes compute
  // ---------------------------------------------------------------------

  /** Every expression's `outer()` lists distinct letters and no '*'. */
  lemma {:induction false} NodeOuterDistinct(n: Node)
    requires Valid(n) && IsExpression(n)
    ensures Distinct(NodeOuter(n)) && Star !in NodeOuter(n)
  {
    match n
    case Leaf(_, _) =>
    case Bind(_, s, _) => DerivedAreDistinct(s);
    case Sum(_, a, _) => NodeOuterDistinct(a);
    case Product(a, b) => DerivedAreDistinct(NodeOuter(a) + NodeOuter(b));
    case Unary(_, a) => NodeOuterDistinct(a);
  }

  /** Permuting by an index map between star-free labels is reading back by letter. */
  lemma GatherIsRealign(from: seq<char>, to: seq<char>, idx: seq<nat>)
    requires IsSubsetOf(to, from) && Star !in to && |idx| == |from|
    ensures forall t :: 0 <= t < |to| ==> IndexOf(from, to[t]) < |idx|
    ensures forall k :: 0 <= k < |to| ==> IndexMap(from, to)[k] < |idx|
    ensures Gather(idx, IndexMap(from, to)) == Realign(from, to, idx)
  {
    SubsetMeaning(to, from);
    forall t | 0 <= t < |to|
      ensures IndexOf(from, to[t]) < |idx| && IndexMap(from, to)[t] == IndexOf(from, to[t])
    {
      assert to[t] in to;
      assert MapEntry(from, to, t) == IndexOf(from, to[t]);
    }
  }

  /**
   * `_append_projection` then `_remap_indices`: axis k of the wrapped tensor
   * receives the bound slot when `s[k]` is '*', and otherwise the incoming
   * index at the position of `s[k]` in `inner()`. Both occurrences of a
   * contracted letter therefore receive the same index.
   */
  lemma RemapMeaning(s: seq<char>, id: seq<nat>, idx: seq<nat>)
    requires |id| == |s| && |idx| == |Inner(s)| && IndexMapGuard(All(s), s)
    ensures forall k :: 0 <= k < |s| && s[k] != Star ==> IndexOf(Inner(s), s[k]) < |idx|
    ensures forall k :: 0 <= k < |s| ==>
              Remap(s, id, idx)[k] == if s[k] == Star then id[k] else idx[IndexOf(Inner(s), s[k])]
  {
    forall k | 0 <= k < |s|
      ensures s[k] != Star ==> IndexOf(Inner(s), s[k]) < |idx|
      ensures Remap(s, id, idx)[k] == if s[k] == Star then id[k] else idx[IndexOf(Inner(s), s[k])]
    {
      if s[k] == Star {
        RemapStar(s, id, idx, k);
      } else {
        RemapLetter(s, id, idx, k);
      }
    }
  }

  lemma RemapStar(s: seq<char>, id: seq<nat>, idx: seq<nat>, k: nat)
    requires |id| == |s| && |idx| == |Inner(s)| && IndexMapGuard(All(s), s)
    requires k < |s| && s[k] == Star
    ensures Remap(s, id, idx)[k] == id[k]
  {
    var p := Positions(s, Star);
    PositionsMeaning(s, Star);
    AllLength(s);
    IndexMapSound(All(s), s);
    var tuple := idx + seq(|p|, j requires 0 <= j < |p| => id[p[j]]);
    assert Remap(s, id, idx)[k] == tuple[IndexMap(All(s), s)[k]];
    assert IndexMap(All(s), s)[k] == MapEntry(All(s), s, k);
    var n := Count(s[..k], Star);
    CountSnoc(s, k, Star);
    CountPrefixMonotone(s, k + 1, |s|, Star);
    assert s[..|s|] == s;
    AllStarPosition(s, n);
    NthIndexOfAt(s, Star, k);
    PositionsAreNthIndexOf(s, Star, n);
  }

  lemma RemapLetter(s: seq<char>, id: seq<nat>, idx: seq<nat>, k: nat)
    requires |id| == |s| && |idx| == |Inner(s)| && IndexMapGuard(All(s), s)
    requires k < |s| && s[k] != Star
    ensures IndexOf(Inner(s), s[k]) < |idx|
    ensures Remap(s, id, idx)[k] == idx[IndexOf(Inner(s), s[k])]
  {
    var p := Positions(s, Star);
    PositionsMeaning(s, Star);
    AllLength(s);
    IndexMapSound(All(s), s);
    var tuple := idx + seq(|p|, j requires 0 <= j < |p| => id[p[j]]);
    assert Remap(s, id, idx)[k] == tuple[IndexMap(All(s), s)[k]];
    assert IndexMap(All(s), s)[k] == MapEntry(All(s), s, k);
    LabelWithinAll(s);
    SubsetMeaning(s, All(s));
    assert s[k] in s;
    AllLetterPosition(s, s[k]);
    IndexOfPresent(Inner(s), s[k]);
  }

  /**
   * Binding distinct letters without '*' only names the axes: the bind is
   * well formed whatever the slots, keeps the operand's extents, and reads
   * the operand at the very indices it is given.
   */
  lemma BindPlainLabel(a: Node, s: seq<char>, id: seq<nat>)
    requires Valid(a) && |NodeExtents(a)| == |s| && |id| == |s|
    requires Distinct(s) && Star !in s
    ensures Valid(Bind(a, s, id)) && NodeOuter(Bind(a, s, id)) == s
    ensures NodeExtents(Bind(a, s, id)) == NodeExtents(a) && Depth(Bind(a, s, id)) == |s|
    ensures forall idx :: |idx| == |s| ==> Eval(Bind(a, s, id), idx) == Eval(a, idx)
  {
    PlainLabel(s);
    IndexMapIdentity(s);
    forall idx | |idx| == |s|
      ensures Remap(s, id, idx) == idx
    {
      PlainRemap(s, id, idx);
    }
  }

  /** A label of distinct letters without '*' passes the indices through unchanged. */
  lemma PlainRemap(s: seq<char>, id: seq<nat>, idx: seq<nat>)
    requires Distinct(s) && Star !in s && |id| == |s| && |idx| == |s|
    ensures Inner(s) == s && IndexMapGuard(All(s), s) && Remap(s, id, idx) == idx
  {
    PlainLabel(s);
    IndexMapIdentity(s);
    CountPositive(s, Star);
    PositionsMeaning(s, Star);
    assert Positions(s, Star) == [];
  }

  /** `bind::extents()`: axis k is the wrapped tensor's axis labelled by the k-th outer letter. */
  lemma BindExtentsMeaning(n: Node)
    requires n.Bind? && Valid(n)
    ensures |NodeExtents(n)| == |Outer(n.str)|
    ensures forall k, p :: 0 <= k < |Outer(n.str)| && 0 <= p < |n.str| && n.str[p] == Outer(n.str)[k] ==>
              NodeExtents(n)[k] == NodeExtents(n.a)[p]
  {
    var s := n.str;
    DerivedGuards(s);
    IndexMapSound(s, Outer(s));
    forall k, p | 0 <= k < |Outer(s)| && 0 <= p < |s| && s[p] == Outer(s)[k]
      ensures NodeExtents(n)[k] == NodeExtents(n.a)[p]
    {
      var m := IndexMap(s, Outer(s))[k];
      OuterCount(s, Outer(s)[k]);
      CountAt(Outer(s), k);
      if m < p {
        CountTwoPositions(s, m, p);
      } else if p < m {
        CountTwoPositions(s, p, m);
      }
    }
  }

  /** `product::extents()`: axis k is the axis of the concatenated extents labelled by the k-th outer letter. */
  lemma ProductExtentsMeaning(n: Node)
    requires n.Product? && Valid(n)
    ensures |NodeExtents(n)| == |Outer(NodeOuter(n.a) + NodeOuter(n.b))|
    ensures forall k, p :: 0 <= k < |NodeExtents(n)| && 0 <= p < |NodeOuter(n.a) + NodeOuter(n.b)| &&
                           (NodeOuter(n.a) + NodeOuter(n.b))[p] == Outer(NodeOuter(n.a) + NodeOuter(n.b))[k] ==>
              NodeExtents(n)[k] == Concat(NodeExtents(n.a), NodeExtents(n.b))[p]
  {
    var s := NodeOuter(n.a) + NodeOuter(n.b);
    DerivedGuards(s);
    IndexMapSound(s, Outer(s));
    forall k, p | 0 <= k < |Outer(s)| && 0 <= p < |s| && s[p] == Outer(s)[k]
      ensures NodeExtents(n)[k] == Concat(NodeExtents(n.a), NodeExtents(n.b))[p]
    {
      var m := IndexMap(s, Outer(s))[k];
      OuterCount(s, Outer(s)[k]);
      CountAt(Outer(s), k);
      if m < p {
        CountTwoPositions(s, m, p);
      } else if p < m {
        CountTwoPositions(s, p, m);
      }
    }
  }

  /**
   * `sum::extents()`: the runtime sizes are A's; B's axis carrying the same
   * letter has the same runtime size; the static size is A's when known and
   * B's otherwise.
   */
  lemma SumExtentsMeaning(n: Node)
    requires n.Sum? && Valid(n)
    ensures |NodeExtents(n)| == |NodeExtents(n.a)| == |NodeOuter(n.a)|
    ensures |NodeExtents(n.b)| == |NodeOuter(n.b)|
    ensures forall k :: 0 <= k < |NodeExtents(n)| ==> NodeExtents(n)[k].runtime == NodeExtents(n.a)[k].runtime
    ensures forall k, t :: 0 <= k < |NodeExtents(n)| && 0 <= t < |NodeOuter(n.b)| && NodeOuter(n.b)[t] == NodeOuter(n.a)[k] ==>
              NodeExtents(n)[k].runtime == NodeExtents(n.b)[t].runtime &&
              NodeExtents(n)[k].staticSize ==
                (if NodeExtents(n.a)[k].staticSize.Some? then NodeExtents(n.a)[k].staticSize else NodeExtents(n.b)[t].staticSize)
  {
    var oa, ob := NodeOuter(n.a), NodeOuter(n.b);
    NodeOuterDistinct(n.a);
    NodeOuterDistinct(n.b);
    IndexMapIdentity(oa);
    IndexMapSound(ob, oa);
    MergeMeaning(SumSides(n).0, SumSides(n).1);
    forall k, t | 0 <= k < |oa| && 0 <= t < |ob| && ob[t] == oa[k]
      ensures IndexMap(ob, oa)[k] == t
    {
      IndexOfDistinct(ob, t);
      assert MapEntry(ob, oa, k) == IndexOf(ob, oa[k]);
    }
  }

  /**
   * `sum::operator[]`: A is read at the incoming indices (`_map_aa` is the
   * identity) and B by letter, through `_map_ab`; the two values are combined
   * by the node's operator.
   */
  lemma SumElement(n: Node, idx: seq<nat>)
    requires n.Sum? && Valid(n) && |idx| == NodeRank(n)
    ensures |idx| == |NodeOuter(n.a)| == NodeRank(n.a)
    ensures forall t :: 0 <= t < |NodeOuter(n.b)| ==> IndexOf(NodeOuter(n.a), NodeOuter(n.b)[t]) < |idx|
    ensures |NodeOuter(n.b)| == NodeRank(n.b)
    ensures Eval(n, idx) == Combine(n.op, Eval(n.a, idx), Eval(n.b, Realign(NodeOuter(n.a), NodeOuter(n.b), idx)))
  {
    var oa, ob := NodeOuter(n.a), NodeOuter(n.b);
    NodeOuterDistinct(n.a);
    NodeOuterDistinct(n.b);
    IndexMapIdentity(oa);
    assert Gather(idx, IndexMap(oa, oa)) == idx;
    GatherIsRealign(oa, ob, idx);
  }

  /**
   * Reads of a sum stay in bounds: an in-bounds index for the sum is an
   * in-bounds index for A, and its realignment is one for B. This is what the
   * constructor's compatibility assertion buys.
   */
  lemma SumReadsInBounds(n: Node, idx: seq<nat>)
    requires n.Sum? && Valid(n) && CheckBounds(n, idx)
    ensures forall t :: 0 <= t < |NodeOuter(n.b)| ==> IndexOf(NodeOuter(n.a), NodeOuter(n.b)[t]) < |idx|
    ensures CheckBounds(n.a, idx)
    ensures CheckBounds(n.b, Realign(NodeOuter(n.a), NodeOuter(n.b), idx))
  {
    var oa, ob := NodeOuter(n.a), NodeOuter(n.b);
    SumElement(n, idx);
    SumExtentsMeaning(n);
    PermutationMeaning(oa, ob);
    forall t | 0 <= t < |ob|
      ensures Realign(oa, ob, idx)[t] < NodeExtents(n.b)[t].runtime
    {
      assert ob[t] in ob;
      var k := IndexOf(oa, ob[t]);
      assert oa[k] == ob[t];
    }
  }

  /**
   * Reads of a bind stay in bounds on every labelled axis: when the inner
   * indices are within the inner extents, each axis of the wrapped tensor
   * that carries a letter receives an index below its size. For the second
   * occurrence of a contracted letter this is the constructor's
   * `_check_contracted_extents`. Axes labelled '*' receive the bound slot,
   * which nothing checks.
   */
  lemma BindReadsInBounds(n: Node, idx: seq<nat>)
    requires n.Bind? && Valid(n) && |idx| == Depth(n)
    requires forall q :: 0 <= q < |idx| ==> idx[q] < InnerExtents(n)[q].runtime
    ensures forall p :: 0 <= p < |n.str| && n.str[p] != Star ==>
              Remap(n.str, n.id, idx)[p] < NodeExtents(n.a)[p].runtime
  {
    forall p | 0 <= p < |n.str| && n.str[p] != Star
      ensures Remap(n.str, n.id, idx)[p] < NodeExtents(n.a)[p].runtime
    {
      BindReadInBounds(n, idx, p);
    }
  }

  lemma BindReadInBounds(n: Node, idx: seq<nat>, p: nat)
    requires n.Bind? && Valid(n) && |idx| == Depth(n)
    requires forall q :: 0 <= q < |idx| ==> idx[q] < InnerExtents(n)[q].runtime
    requires p < |n.str| && n.str[p] != Star
    ensures Remap(n.str, n.id, idx)[p] < NodeExtents(n.a)[p].runtime
  {
    BindFacts(n);
    LabelReadInBounds(n.str, NodeExtents(n.a), n.id, idx, p);
  }

  /** What a valid bind knows about its operand, label and inner extents. */
  lemma BindFacts(n: Node)
    requires n.Bind? && Valid(n)
    ensures Valid(n.a) && |NodeExtents(n.a)| == |n.str| && |n.id| == |n.str|
    ensures IndexMapGuard(All(n.str), n.str) && IndexMapGuard(n.str, Inner(n.str)) && IndexMapGuard(n.str, Outer(n.str))
    ensures ContractedCheck(StaticHalf, n.str, NodeExtents(n.a)) && ContractedCheck(RuntimeHalf, n.str, NodeExtents(n.a))
    ensures Depth(n) == |Inner(n.str)|
    ensures forall q :: 0 <= q < Depth(n) ==>
              IndexMap(n.str, Inner(n.str))[q] < |n.str| &&
              InnerExtents(n)[q] == NodeExtents(n.a)[IndexMap(n.str, Inner(n.str))[q]]
  {
    DerivedGuards(n.str);
    IndexMapSound(n.str, Inner(n.str));
  }

  lemma LabelReadInBounds(s: seq<char>, ea: Extents, id: seq<nat>, idx: seq<nat>, p: nat)
    requires |ea| == |s| && |id| == |s| && |idx| == |Inner(s)| && IndexMapGuard(All(s), s)
    requires ContractedCheck(RuntimeHalf, s, ea)
    requires IndexMapGuard(s, Inner(s))
    requires forall q :: 0 <= q < |idx| ==> IndexMap(s, Inner(s))[q] < |ea| && idx[q] < ea[IndexMap(s, Inner(s))[q]].runtime
    requires p < |s| && s[p] != Star
    ensures Remap(s, id, idx)[p] < ea[p].runtime
  {
    var c := s[p];
    RemapLetter(s, id, idx, p);
    var q := IndexOf(Inner(s), c);
    assert IndexMap(s, Inner(s))[q] == MapEntry(s, Inner(s), q) == IndexOf(s, c);
    var r := IndexOf(s, c);
    if r < p {
      CountTwoPositions(s, r, p);
      LabelWithinAll(s);
      SubsetMeaning(s, All(s));
      assert c in s;
      ContractedPairAgrees(RuntimeHalf, s, ea, r, p);
    }
  }

  /**
   * `product::_evaluate` at full depth: A and B are each read by letter from
   * the inner tuple, and the values multiplied.
   */
  lemma ProductElement(n: Node, idx: seq<nat>)
    requires n.Product? && Valid(n) && |idx| == Depth(n)
    ensures forall t :: 0 <= t < |NodeOuter(n.a)| ==>
              IndexOf(Inner(NodeOuter(n.a) + NodeOuter(n.b)), NodeOuter(n.a)[t]) < |idx|
    ensures forall t :: 0 <= t < |NodeOuter(n.b)| ==>
              IndexOf(Inner(NodeOuter(n.a) + NodeOuter(n.b)), NodeOuter(n.b)[t]) < |idx|
    ensures |NodeOuter(n.a)| == NodeRank(n.a) && |NodeOuter(n.b)| == NodeRank(n.b)
    ensures Deep(n, idx) ==
              Eval(n.a, Realign(Inner(NodeOuter(n.a) + NodeOuter(n.b)), NodeOuter(n.a), idx)) *
              Eval(n.b, Realign(Inner(NodeOuter(n.a) + NodeOuter(n.b)), NodeOuter(n.b), idx))
  {
    var oa, ob := NodeOuter(n.a), NodeOuter(n.b);
    NodeOuterDistinct(n.a);
    NodeOuterDistinct(n.b);
    GatherIsRealign(Inner(oa + ob), oa, idx);
    GatherIsRealign(Inner(oa + ob), ob, idx);
  }

  /**
   * Reads of a product stay in bounds: at full depth, inner indices within
   * the inner extents give in-bounds reads of A and of B. For a letter B
   * shares with A this is the constructor's contracted-extent assertion.
   */
  lemma ProductReadsInBounds(n: Node, idx: seq<nat>)
    requires n.Product? && Valid(n) && |idx| == Depth(n)
    requires forall q :: 0 <= q < |idx| ==> idx[q] < InnerExtents(n)[q].runtime
    ensures forall t :: 0 <= t < |NodeOuter(n.a)| ==>
              IndexOf(Inner(NodeOuter(n.a) + NodeOuter(n.b)), NodeOuter(n.a)[t]) < |idx|
    ensures forall t :: 0 <= t < |NodeOuter(n.b)| ==>
              IndexOf(Inner(NodeOuter(n.a) + NodeOuter(n.b)), NodeOuter(n.b)[t]) < |idx|
    ensures CheckBounds(n.a, Realign(Inner(NodeOuter(n.a) + NodeOuter(n.b)), NodeOuter(n.a), idx))
    ensures CheckBounds(n.b, Realign(Inner(NodeOuter(n.a) + NodeOuter(n.b)), NodeOuter(n.b), idx))
  {
    var oa, ob := NodeOuter(n.a), NodeOuter(n.b);
    ProductElement(n, idx);
    forall t | 0 <= t < |oa|
      ensures Realign(Inner(oa + ob), oa, idx)[t] < NodeExtents(n.a)[t].runtime
    {
      ProductReadInBoundsA(n, idx, t);
    }
    forall t | 0 <= t < |ob|
      ensures Realign(Inner(oa + ob), ob, idx)[t] < NodeExtents(n.b)[t].runtime
    {
      ProductReadInBoundsB(n, idx, t);
    }
  }

  /** The inner extent on the axis of a letter is the concatenated extent at that letter's first position. */
  lemma InnerExtentOfLetter(n: Node, c: char)
    requires n.Product? && Valid(n)
    requires c in Inner(NodeOuter(n.a) + NodeOuter(n.b))
    ensures IndexOf(Inner(NodeOuter(n.a) + NodeOuter(n.b)), c) < Depth(n)
    ensures IndexOf(NodeOuter(n.a) + NodeOuter(n.b), c) < |NodeOuter(n.a) + NodeOuter(n.b)|
    ensures InnerExtents(n)[IndexOf(Inner(NodeOuter(n.a) + NodeOuter(n.b)), c)]
         == Concat(NodeExtents(n.a), NodeExtents(n.b))[IndexOf(NodeOuter(n.a) + NodeOuter(n.b), c)]
  {
    var ab := NodeOuter(n.a) + NodeOuter(n.b);
    DerivedGuards(ab);
    IndexMapSound(ab, Inner(ab));
    IndexOfPresent(Inner(ab), c);
    var q := IndexOf(Inner(ab), c);
    assert IndexMap(ab, Inner(ab))[q] == MapEntry(ab, Inner(ab), q);
    DerivedAreDistinct(ab);
  }

  lemma ProductReadInBoundsA(n: Node, idx: seq<nat>, t: nat)
    requires n.Product? && Valid(n) && |idx| == Depth(n)
    requires forall q :: 0 <= q < |idx| ==> idx[q] < InnerExtents(n)[q].runtime
    requires t < |NodeOuter(n.a)|
    ensures IndexOf(Inner(NodeOuter(n.a) + NodeOuter(n.b)), NodeOuter(n.a)[t]) < |idx|
    ensures idx[IndexOf(Inner(NodeOuter(n.a) + NodeOuter(n.b)), NodeOuter(n.a)[t])] < NodeExtents(n.a)[t].runtime
  {
    var oa, ob := NodeOuter(n.a), NodeOuter(n.b);
    var c := oa[t];
    NodeOuterDistinct(n.a);
    SubsetMeaning(oa, Inner(oa + ob));
    assert c in oa;
    InnerExtentOfLetter(n, c);
    IndexOfConcat(oa, ob, c);
    IndexOfDistinct(oa, t);
  }

  lemma ProductReadInBoundsB(n: Node, idx: seq<nat>, t: nat)
    requires n.Product? && Valid(n) && |idx| == Depth(n)
    requires forall q :: 0 <= q < |idx| ==> idx[q] < InnerExtents(n)[q].runtime
    requires t < |NodeOuter(n.b)|
    ensures IndexOf(Inner(NodeOuter(n.a) + NodeOuter(n.b)), NodeOuter(n.b)[t]) < |idx|
    ensures idx[IndexOf(Inner(NodeOuter(n.a) + NodeOuter(n.b)), NodeOuter(n.b)[t])] < NodeExtents(n.b)[t].runtime
  {
    ProductFacts(n);
    var oa, ob := NodeOuter(n.a), NodeOuter(n.b);
    var ab := oa + ob;
    var c := ob[t];
    SubsetMeaning(ob, Inner(ab));
    assert c in ob;
    InnerExtentOfLetter(n, c);
    SecondOperandLetter(oa, ob, Concat(NodeExtents(n.a), NodeExtents(n.b)), t);
  }

  /** What a valid product knows about its operands and their labels. */
  lemma ProductFacts(n: Node)
    requires n.Product? && Valid(n)
    ensures Valid(n.a) && Valid(n.b) && IsExpression(n.a) && IsExpression(n.b)
    ensures |NodeExtents(n.a)| == |NodeOuter(n.a)| && |NodeExtents(n.b)| == |NodeOuter(n.b)|
    ensures Distinct(NodeOuter(n.a)) && Star !in NodeOuter(n.a)
    ensures Distinct(NodeOuter(n.b)) && Star !in NodeOuter(n.b)
    ensures IndexMapGuard(Inner(NodeOuter(n.a) + NodeOuter(n.b)), NodeOuter(n.b))
    ensures ContractedCheck(RuntimeHalf, NodeOuter(n.a) + NodeOuter(n.b), Concat(NodeExtents(n.a), NodeExtents(n.b)))
  {
    NodeOuterDistinct(n.a);
    NodeOuterDistinct(n.b);
  }

  /**
   * In the concatenated labels of a product, the first occurrence of one of
   * B's letters labels an axis with the runtime size of B's own axis.
   */
  lemma SecondOperandLetter(oa: seq<char>, ob: seq<char>, e: Extents, t: nat)
    requires Distinct(oa) && Distinct(ob) && Star !in ob
    requires |e| == |oa| + |ob| && ContractedCheck(RuntimeHalf, oa + ob, e)
    requires t < |ob|
    ensures IndexOf(oa + ob, ob[t]) < |e|
    ensures e[IndexOf(oa + ob, ob[t])].runtime == e[|oa| + t].runtime
  {
    var ab := oa + ob;
    var c := ob[t];
    var p := |oa| + t;
    assert ab[p] == c;
    var r := IndexOf(ab, c);
    if r < p {
      CountTwoPositions(ab, r, p);
      CountAppend(oa, ob, c);
      ContractedPairAgrees(RuntimeHalf, ab, e, r, p);
    }
  }

  /**
   * `unary_prefix::operator[]`: the operand's labels, extents and bounds,
   * and the operand's element passed through the operator; `-a` negates it
   * and `+a` returns it unchanged.
   */
  lemma UnaryElement(n: Node, idx: seq<nat>)
    requires n.Unary? && Valid(n) && CheckBounds(n, idx)
    ensures NodeOuter(n) == NodeOuter(n.a) && NodeExtents(n) == NodeExtents(n.a)
    ensures CheckBounds(n.a, idx)
    ensures n.uop == Negate ==> Subscript(n, idx) == -Subscript(n.a, idx)
    ensures n.uop == Identity ==> Subscript(n, idx) == Subscript(n.a, idx)
  {
  }

  /** `-(-a)` and `+a` have a's elements. */
  lemma UnaryRoundTrip(a: Node, idx: seq<nat>)
    requires Valid(a) && IsExpression(a) && |idx| == NodeRank(a)
    ensures Valid(Unary(Negate, Unary(Negate, a))) && Eval(Unary(Negate, Unary(Negate, a)), idx) == Eval(a, idx)
    ensures Valid(Unary(Identity, a)) && Eval(Unary(Identity, a), idx) == Eval(a, idx)
  {
  }
}
