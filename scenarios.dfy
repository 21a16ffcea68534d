/**
 * Concrete expressions from the library's usage: a trace, a dot product,
 * a matrix-vector product, an outer product, a scaled matrix-vector product
 * plus a vector, and a sum of a matrix with a transposed one,
 * each evaluated through the tree model and shown to be the textbook formula.
 */
module Scenarios {
  import opened Wrappers
  import opened IndexString
  import opened Extents
  import opened Tree
  import Binding

  /** Σ_{lo <= j < hi} f(j). */
  function SumRange(lo: nat, hi: nat, f: nat -> int): int
    requires lo <= hi
    decreases hi - lo
  {
    if lo == hi then 0 else f(lo) + SumRange(lo + 1, hi, f)
  }

  /** A sum built step by step, g(k) == f(k) + g(k + 1) down from g(e) == 0, is the plain sum of f. */
  lemma {:induction false} SumOfSteps(g: nat -> int, f: nat -> int, j: nat, e: nat)
    requires j <= e && g(e) == 0
    requires forall k: nat :: j <= k < e ==> g(k) == f(k) + g(k + 1)
    ensures g(j) == SumRange(j, e, f)
    decreases e - j
  {
    if j < e {
      SumOfSteps(g, f, j + 1, e);
    }
  }

  /** A well-formed bind or product: the nodes that accumulate over contracted axes. */
  predicate Accumulates(n: Node) {
    Valid(n) && (n.Bind? || n.Product?)
  }

  /** The accumulation of a bind or a product from k up to e, and 0 outside its domain. */
  function Partial(n: Node, idx: seq<nat>, e: nat, k: nat): int {
    if Accumulates(n) && NodeRank(n) <= |idx| < Depth(n) && k <= e then Sigma(n, idx, k, e) else 0
  }

  /**
   * The accumulation loop of a bind or a product over one contracted axis is
   * a plain sum of the values with that index appended.
   */
  lemma SigmaIsSumRange(n: Node, idx: seq<nat>, j: nat, e: nat, f: nat -> int)
    requires Accumulates(n)
    requires NodeRank(n) <= |idx| < Depth(n) && j <= e
    requires forall k: nat :: j <= k < e ==> Deep(n, idx + [k]) == f(k)
    ensures Sigma(n, idx, j, e) == SumRange(j, e, f)
  {
    SigmaSteps(n, idx, j, e, f);
    SumOfSteps((k: nat) => Partial(n, idx, e, k), f, j, e);
  }

  /** Every step of the accumulation from j up to e, as a sum built step by step. */
  lemma SigmaSteps(n: Node, idx: seq<nat>, j: nat, e: nat, f: nat -> int)
    requires Accumulates(n)
    requires NodeRank(n) <= |idx| < Depth(n) && j <= e
    requires forall k: nat :: j <= k < e ==> Deep(n, idx + [k]) == f(k)
    ensures forall k: nat :: j <= k < e ==> Partial(n, idx, e, k) == f(k) + Partial(n, idx, e, k + 1)
    ensures Partial(n, idx, e, e) == 0 && Partial(n, idx, e, j) == Sigma(n, idx, j, e)
  {
    forall k: nat | j <= k < e
      ensures Partial(n, idx, e, k) == f(k) + Partial(n, idx, e, k + 1)
    {
      SigmaStep(n, idx, k, e, f);
    }
    SigmaStep(n, idx, e, e, f);
    SigmaStep(n, idx, j, e, f);
  }

  /** One step of the accumulation: the value at j, then the rest; nothing past e. */
  lemma SigmaStep(n: Node, idx: seq<nat>, j: nat, e: nat, f: nat -> int)
    requires Accumulates(n)
    requires NodeRank(n) <= |idx| < Depth(n) && j <= e
    requires j < e ==> Deep(n, idx + [j]) == f(j)
    ensures j < e ==> Partial(n, idx, e, j) == f(j) + Partial(n, idx, e, j + 1)
    ensures j == e ==> Partial(n, idx, e, j) == 0
    ensures Partial(n, idx, e, j) == Sigma(n, idx, j, e)
  {
  }

  /**
   * An element of a bind or a product with one contracted axis left to sum
   * over, of extent e, is the plain sum over that axis.
   */
  lemma ContractionIsSum(n: Node, idx: seq<nat>, e: nat, f: nat -> int)
    requires Accumulates(n)
    requires NodeRank(n) == |idx| < Depth(n) && InnerExtents(n)[|idx|].runtime == e
    requires forall k: nat :: k < e ==> Deep(n, idx + [k]) == f(k)
    ensures Eval(n, idx) == SumRange(0, e, f)
  {
    SigmaIsSumRange(n, idx, 0, e, f);
    assert Eval(n, idx) == Sigma(n, idx, 0, e);
  }

  /** A bind whose label fits its operand: its rank, depth and inner extents. */
  lemma BindShape(a: Node, s: seq<char>, id: seq<nat>)
    requires Valid(a) && |NodeExtents(a)| == |s| && |id| == |s| && IndexMapGuard(All(s), s)
    requires ContractedCheck(StaticHalf, s, NodeExtents(a)) && ContractedCheck(RuntimeHalf, s, NodeExtents(a))
    ensures Valid(Bind(a, s, id))
    ensures NodeRank(Bind(a, s, id)) == |Outer(s)| && Depth(Bind(a, s, id)) == |Inner(s)|
    ensures (DerivedGuards(s); IndexMapSound(s, Inner(s));
      InnerExtents(Bind(a, s, id)) == Select(IndexMap(s, Inner(s)), NodeExtents(a)))
  {
  }

  // ---------------------------------------------------------------------
  // Trace: bind(m, "ii")
  // ---------------------------------------------------------------------

  lemma TraceLabel()
    ensures Outer("ii") == [] && Inner("ii") == "i" && All("ii") == "i" && Contracted("ii") == "i"
    ensures IndexMapGuard(All("ii"), "ii") && IndexMap(All("ii"), "ii") == [0, 0]
  {
    assert Count("ii", 'i') == 2;
  }

  lemma TraceChecks(e: nat, s: seq<char>, shape: Extents)
    requires s == "ii" && shape == [Axis(None, e), Axis(None, e)]
    ensures IndexMapGuard(All(s), s)
    ensures ContractedCheck(StaticHalf, s, shape) && ContractedCheck(RuntimeHalf, s, shape)
  {
    TraceLabel();
    ContractedCheckMeaning(StaticHalf, s, shape);
    ContractedCheckMeaning(RuntimeHalf, s, shape);
  }

  /**
   * `bind(m, i, i)` of a square matrix of side e: the label "ii" contracts
   * both axes, so the expression has rank 0 and its one element is the sum
   * of the diagonal (3 for the matrix {{1, 0}, {0, 2}}).
   */
  lemma TraceIsDiagonalSum(e: nat, at: seq<nat> -> int)
    ensures var m := Bind(Leaf([Axis(None, e), Axis(None, e)], at), "ii", [0, 0]);
      Accumulates(m) && NodeRank(m) == 0 && Eval(m, []) == SumRange(0, e, (j: nat) => at([j, j]))
  {
    var m := Bind(Leaf([Axis(None, e), Axis(None, e)], at), "ii", [0, 0]);
    TraceShape(e, at, "ii", [Axis(None, e), Axis(None, e)]);
    TraceDiagonal(e, at, m);
    ContractionIsSum(m, [], e, (j: nat) => at([j, j]));
  }

  lemma TraceShape(e: nat, at: seq<nat> -> int, s: seq<char>, shape: Extents)
    requires s == "ii" && shape == [Axis(None, e), Axis(None, e)]
    ensures var m := Bind(Leaf(shape, at), s, [0, 0]);
      Accumulates(m) && NodeRank(m) == 0 && Depth(m) == 1 && InnerExtents(m)[0].runtime == e
  {
    TraceChecks(e, s, shape);
    BindShape(Leaf(shape, at), s, [0, 0]);
    TraceLabel();
    assert IndexMap(s, Inner(s)) == [0];
  }

  /** At full depth the trace reads the matrix at the index repeated for both axes. */
  lemma TraceDiagonal(e: nat, at: seq<nat> -> int, m: Node)
    requires m == Bind(Leaf([Axis(None, e), Axis(None, e)], at), "ii", [0, 0])
    requires Accumulates(m) && NodeRank(m) == 0 && Depth(m) == 1
    ensures forall k: nat :: Deep(m, [] + [k]) == at([k, k])
  {
    forall k: nat
      ensures Deep(m, [] + [k]) == at([k, k])
    {
      assert [] + [k] == [k];
      TraceElement(e, at, m, k);
    }
  }

  /** The trace's value at contracted index k is the matrix element (k, k). */
  lemma TraceElement(e: nat, at: seq<nat> -> int, m: Node, k: nat)
    requires m == Bind(Leaf([Axis(None, e), Axis(None, e)], at), "ii", [0, 0])
    requires Accumulates(m) && NodeRank(m) == 0 && Depth(m) == 1
    ensures Deep(m, [k]) == at([k, k])
  {
    TraceRemap("ii", k);
  }

  /** The operand's tuple for the trace's contracted index k repeats k for both axes. */
  lemma TraceRemap(s: seq<char>, k: nat)
    requires s == "ii"
    ensures |Inner(s)| == 1 && IndexMapGuard(All(s), s) && Remap(s, [0, 0], [k]) == [k, k]
  {
    TraceLabel();
  }

  // ---------------------------------------------------------------------
  // Dot product: x(i) * y(i)
  // ---------------------------------------------------------------------

  /** A vector of e elements bound to the single letter of s. */
  lemma VectorBind(e: nat, at: seq<nat> -> int, s: seq<char>)
    requires s == "i" || s == "j"
    ensures var b := Bind(Leaf([Axis(None, e)], at), s, [0]);
      Valid(b) && IsExpression(b) && NodeOuter(b) == s && NodeExtents(b) == [Axis(None, e)] &&
      forall k: nat :: Eval(b, [k]) == at([k])
  {
    BindPlainLabel(Leaf([Axis(None, e)], at), s, [0]);
  }

  /** A product whose operands' labels fit together: its rank, depth and inner extents. */
  lemma ProductShape(a: Node, b: Node)
    requires Valid(a) && Valid(b) && IsExpression(a) && IsExpression(b)
    requires Projected(NodeOuter(a) + NodeOuter(b)) == []
    requires IndexMapGuard(Inner(NodeOuter(a) + NodeOuter(b)), NodeOuter(a))
    requires IndexMapGuard(Inner(NodeOuter(a) + NodeOuter(b)), NodeOuter(b))
    requires ContractedCheck(StaticHalf, NodeOuter(a) + NodeOuter(b), Concat(NodeExtents(a), NodeExtents(b)))
    requires ContractedCheck(RuntimeHalf, NodeOuter(a) + NodeOuter(b), Concat(NodeExtents(a), NodeExtents(b)))
    ensures Valid(Product(a, b))
    ensures NodeRank(Product(a, b)) == |Outer(NodeOuter(a) + NodeOuter(b))|
    ensures Depth(Product(a, b)) == |Inner(NodeOuter(a) + NodeOuter(b))|
    ensures (DerivedGuards(NodeOuter(a) + NodeOuter(b)); IndexMapSound(NodeOuter(a) + NodeOuter(b), Inner(NodeOuter(a) + NodeOuter(b)));
      InnerExtents(Product(a, b)) == Select(IndexMap(NodeOuter(a) + NodeOuter(b), Inner(NodeOuter(a) + NodeOuter(b))), Concat(NodeExtents(a), NodeExtents(b))))
  {
  }

  lemma DotShape(e: nat, x: seq<nat> -> int, y: seq<nat> -> int, s: seq<char>, m: Node)
    requires s == "i" && m == Product(Bind(Leaf([Axis(None, e)], x), s, [0]), Bind(Leaf([Axis(None, e)], y), s, [0]))
    ensures Valid(m) && NodeRank(m) == 0 && Depth(m) == 1 && InnerExtents(m)[0].runtime == e
  {
    VectorBind(e, x, s);
    VectorBind(e, y, s);
    DotLabel(e, s, s + s);
    assert Concat([Axis(None, e)], [Axis(None, e)]) == [Axis(None, e), Axis(None, e)];
    ProductShape(m.a, m.b);
  }

  lemma DotLabel(e: nat, s: seq<char>, ab: seq<char>)
    requires s == "i" && ab == s + s
    ensures Projected(ab) == [] && Outer(ab) == [] && Inner(ab) == s && IndexMapGuard(Inner(ab), s)
    ensures IndexMap(ab, Inner(ab)) == [0] && IndexMap(Inner(ab), s) == [0]
    ensures ContractedCheck(StaticHalf, ab, [Axis(None, e), Axis(None, e)])
    ensures ContractedCheck(RuntimeHalf, ab, [Axis(None, e), Axis(None, e)])
  {
    TraceLabel();
    assert ab == "ii";
    TraceChecks(e, ab, [Axis(None, e), Axis(None, e)]);
    IndexMapIdentity(s);
  }

  lemma DotValues(s: seq<char>, m: Node, k: nat)
    requires s == "i" && m.Product? && Valid(m) && Depth(m) == 1
    requires NodeOuter(m.a) == s && NodeOuter(m.b) == s
    ensures NodeRank(m.a) == 1 && NodeRank(m.b) == 1
    ensures Deep(m, [] + [k]) == Eval(m.a, [k]) * Eval(m.b, [k])
  {
    assert [] + [k] == [k];
    ProductElement(m, [k]);
    RepeatedLetter(s, k);
  }

  lemma RepeatedLetter(s: seq<char>, k: nat)
    requires s == "i"
    ensures Inner(s + s) == s && Realign(s, s, [k]) == [k]
  {
    TraceLabel();
    assert s + s == "ii";
  }

  /** `x(i) * y(i)` of two vectors of e elements is their dot product (the library's dot-product test). */
  lemma DotProduct(e: nat, x: seq<nat> -> int, y: seq<nat> -> int)
    ensures var m := Product(Bind(Leaf([Axis(None, e)], x), "i", [0]), Bind(Leaf([Axis(None, e)], y), "i", [0]));
      Valid(m) && NodeRank(m) == 0 && Eval(m, []) == SumRange(0, e, (k: nat) => x([k]) * y([k]))
  {
    var m := Product(Bind(Leaf([Axis(None, e)], x), "i", [0]), Bind(Leaf([Axis(None, e)], y), "i", [0]));
    DotShape(e, x, y, "i", m);
    forall k: nat
      ensures Deep(m, [] + [k]) == x([k]) * y([k])
    {
      VectorBind(e, x, "i");
      VectorBind(e, y, "i");
      DotValues("i", m, k);
    }
    ContractionIsSum(m, [], e, (k: nat) => x([k]) * y([k]));
  }

  // ---------------------------------------------------------------------
  // Matrix-vector product: A(i, j) * x(j)
  // ---------------------------------------------------------------------

  lemma MatVecClasses()
    ensures Count("ijj", 'j') == 2 && Count("ijj", 'i') == 1
    ensures Projected("ijj") == [] && Outer("ijj") == "i" && Inner("ijj") == "ij" && Contracted("ijj") == "j"
  {
    assert Count("ijj", 'j') == 2 && Count("ijj", 'i') == 1;
  }

  lemma MatVecLetters()
    ensures Distinct("ij") && Star !in "ij" && Distinct("j") && Star !in "j"
  {
    assert forall c :: Count("ij", c) == (if c == 'i' || c == 'j' then 1 else 0);
  }

  lemma PlainIJ(s: seq<char>)
    requires s == "ij"
    ensures Distinct(s) && Star !in s
  {
    MatVecLetters();
  }

  lemma MatVecMaps()
    ensures IndexMapGuard("ij", "ij") && IndexMapGuard("ij", "j")
    ensures IndexMapGuard("ijj", "ij") && IndexMap("ijj", "ij") == [0, 1]
  {
    assert "ijj"[1..] == "jj";
    assert IndexOf("ijj", 'j') == 1;
    assert MapEntry("ijj", "ij", 0) == 0 && MapEntry("ijj", "ij", 1) == 1;
  }

  lemma MatVecChecks(r: nat, c: nat, ab: seq<char>, e: Extents)
    requires ab == "ijj" && e == [Axis(None, r), Axis(None, c), Axis(None, c)]
    ensures ContractedCheck(StaticHalf, ab, e) && ContractedCheck(RuntimeHalf, ab, e)
  {
    MatVecCheck(StaticHalf, r, c, ab, e);
    MatVecCheck(RuntimeHalf, r, c, ab, e);
  }

  /** The one contracted letter 'j' sits at positions 1 and 2, whose axes are both c. */
  lemma MatVecCheck(h: Half, r: nat, c: nat, ab: seq<char>, e: Extents)
    requires ab == "ijj" && e == [Axis(None, r), Axis(None, c), Axis(None, c)]
    ensures ContractedCheck(h, ab, e)
  {
    MatVecClasses();
    MatVecOffsets(ab);
    assert PairAgrees(h, ab, e, 'j');
    assert ContractedFold(h, ab, Contracted(ab)[1..], e);
  }

  lemma MatVecOffsets(ab: seq<char>)
    requires ab == "ijj"
    ensures IsContractedChar(ab, 'j') && Offsets(ab, 'j') == (1, 2)
  {
    IndexString.CountsAreMultiplicities();
    assert multiset(ab) == multiset{'i', 'j', 'j'};
    assert ab[..2] == "ij" && ab[..2][..1] == "i" && ab[..2][..1][..0] == [];
    assert Positions(ab[..2][..1], 'j') == [];
    assert Positions(ab[..2], 'j') == [1];
  }

  lemma MatrixBind(r: nat, c: nat, a: seq<nat> -> int, s: seq<char>)
    requires s == "ij"
    ensures var b := Bind(Leaf([Axis(None, r), Axis(None, c)], a), s, [0, 0]);
      Valid(b) && IsExpression(b) && NodeOuter(b) == s && NodeExtents(b) == [Axis(None, r), Axis(None, c)] &&
      forall i: nat, k: nat :: Eval(b, [i, k]) == a([i, k])
  {
    PlainIJ(s);
    BindPlainLabel(Leaf([Axis(None, r), Axis(None, c)], a), s, [0, 0]);
  }

  lemma MatVecShape(r: nat, c: nat, s: seq<char>, t: seq<char>, m: Node)
    requires s == "ij" && t == "j" && m.Product?
    requires Valid(m.a) && Valid(m.b) && IsExpression(m.a) && IsExpression(m.b)
    requires NodeOuter(m.a) == s && NodeOuter(m.b) == t
    requires NodeExtents(m.a) == [Axis(None, r), Axis(None, c)] && NodeExtents(m.b) == [Axis(None, c)]
    ensures Valid(m) && NodeRank(m) == 1 && Depth(m) == 2 && InnerExtents(m)[1].runtime == c
  {
    MatVecFits(r, c, s, t, s + t, Concat(NodeExtents(m.a), NodeExtents(m.b)));
    ProductShape(m.a, m.b);
  }

  lemma MatVecFits(r: nat, c: nat, s: seq<char>, t: seq<char>, ab: seq<char>, e: Extents)
    requires s == "ij" && t == "j" && ab == s + t && e == Concat([Axis(None, r), Axis(None, c)], [Axis(None, c)])
    ensures Projected(ab) == [] && |Outer(ab)| == 1 && |Inner(ab)| == 2
    ensures IndexMapGuard(Inner(ab), s) && IndexMapGuard(Inner(ab), t)
    ensures ContractedCheck(StaticHalf, ab, e) && ContractedCheck(RuntimeHalf, ab, e)
    ensures IndexMapGuard(ab, Inner(ab)) && IndexMap(ab, Inner(ab)) == [0, 1] && e[1].runtime == c
  {
    MatVecLabelFacts(s, t, ab);
    assert e == [Axis(None, r), Axis(None, c), Axis(None, c)];
    MatVecChecks(r, c, ab, e);
  }

  lemma MatVecLabelFacts(s: seq<char>, t: seq<char>, ab: seq<char>)
    requires s == "ij" && t == "j" && ab == s + t
    ensures ab == "ijj"
    ensures Projected(ab) == [] && |Outer(ab)| == 1 && |Inner(ab)| == 2
    ensures IndexMapGuard(Inner(ab), s) && IndexMapGuard(Inner(ab), t)
    ensures IndexMapGuard(ab, Inner(ab)) && IndexMap(ab, Inner(ab)) == [0, 1]
  {
    MatVecMaps();
    MatVecClasses();
    assert ab == "ijj";
  }

  lemma MatVecValues(s: seq<char>, t: seq<char>, m: Node, i: nat, k: nat)
    requires s == "ij" && t == "j" && m.Product? && Valid(m) && Depth(m) == 2 && NodeRank(m) == 1
    requires NodeOuter(m.a) == s && NodeOuter(m.b) == t
    ensures NodeRank(m.a) == 2 && NodeRank(m.b) == 1
    ensures Deep(m, [i] + [k]) == Eval(m.a, [i, k]) * Eval(m.b, [k])
  {
    assert [i] + [k] == [i, k];
    ProductElement(m, [i, k]);
    MatVecRealign(s, t, i, k);
  }

  lemma MatVecRealign(s: seq<char>, t: seq<char>, i: nat, k: nat)
    requires s == "ij" && t == "j"
    ensures Inner(s + t) == s && Realign(s, s, [i, k]) == [i, k] && Realign(s, t, [i, k]) == [k]
  {
    MatVecInner(s, t);
    assert IndexOf(s, 'i') == 0 && IndexOf(s, 'j') == 1;
  }

  lemma MatVecInner(s: seq<char>, t: seq<char>)
    requires s == "ij" && t == "j"
    ensures Inner(s + t) == s
  {
    assert s + t == "ijj";
    MatVecClasses();
  }

  /**
   * `A(i, j) * x(j)`: a rank-1 expression whose element i is the inner
   * product of row i of A with x (the library's matrix-vector test).
   */
  lemma MatrixVector(r: nat, c: nat, a: seq<nat> -> int, x: seq<nat> -> int)
    ensures var m := Product(Bind(Leaf([Axis(None, r), Axis(None, c)], a), "ij", [0, 0]), Bind(Leaf([Axis(None, c)], x), "j", [0]));
      Valid(m) && NodeRank(m) == 1 &&
      forall i: nat :: Eval(m, [i]) == SumRange(0, c, (k: nat) => a([i, k]) * x([k]))
  {
    var m := Product(Bind(Leaf([Axis(None, r), Axis(None, c)], a), "ij", [0, 0]), Bind(Leaf([Axis(None, c)], x), "j", [0]));
    MatrixBind(r, c, a, "ij");
    VectorBind(c, x, "j");
    MatVecShape(r, c, "ij", "j", m);
    forall i: nat
      ensures Eval(m, [i]) == SumRange(0, c, (k: nat) => a([i, k]) * x([k]))
    {
      forall k: nat
        ensures Deep(m, [i] + [k]) == a([i, k]) * x([k])
      {
        MatVecValues("ij", "j", m, i, k);
      }
      ContractionIsSum(m, [i], c, (k: nat) => a([i, k]) * x([k]));
    }
  }

  // ---------------------------------------------------------------------
  // Outer product: x(i) * y(j)
  // ---------------------------------------------------------------------

  /** "i" followed by "j": two outer letters and nothing to contract. */
  lemma OuterLabel(s: seq<char>, t: seq<char>, ab: seq<char>)
    requires s == "i" && t == "j" && ab == s + t
    ensures ab == "ij" && Contracted(ab) == [] && Projected(ab) == []
    ensures Outer(ab) == ab && Inner(ab) == ab
    ensures IndexMapGuard(Inner(ab), s) && IndexMapGuard(Inner(ab), t)
  {
    assert ab == "ij";
    MatVecLetters();
    MatVecMaps();
    PlainLabel(ab);
    assert Count("i", Star) == 0 && Count("ij", 'i') == 1;
  }

  lemma OuterShape(e: nat, f: nat, s: seq<char>, t: seq<char>, m: Node)
    requires s == "i" && t == "j" && m.Product?
    requires Valid(m.a) && Valid(m.b) && IsExpression(m.a) && IsExpression(m.b)
    requires NodeOuter(m.a) == s && NodeOuter(m.b) == t
    requires NodeExtents(m.a) == [Axis(None, e)] && NodeExtents(m.b) == [Axis(None, f)]
    ensures Valid(m) && NodeRank(m) == 2 && Depth(m) == 2
  {
    var ab, ext := s + t, Concat(NodeExtents(m.a), NodeExtents(m.b));
    OuterLabel(s, t, ab);
    assert |ext| == |ab|;
    ContractedCheckMeaning(StaticHalf, ab, ext);
    ContractedCheckMeaning(RuntimeHalf, ab, ext);
    ProductShape(m.a, m.b);
  }

  lemma OuterRealign(s: seq<char>, t: seq<char>, i: nat, k: nat)
    requires s == "i" && t == "j"
    ensures Inner(s + t) == s + t && Realign(s + t, s, [i, k]) == [i] && Realign(s + t, t, [i, k]) == [k]
  {
    OuterLabel(s, t, s + t);
    assert IndexOf(s + t, 'i') == 0 && IndexOf(s + t, 'j') == 1;
  }

  lemma OuterValues(s: seq<char>, t: seq<char>, m: Node, i: nat, k: nat)
    requires s == "i" && t == "j" && m.Product? && Valid(m) && Depth(m) == 2 && NodeRank(m) == 2
    requires NodeOuter(m.a) == s && NodeOuter(m.b) == t
    ensures NodeRank(m.a) == 1 && NodeRank(m.b) == 1
    ensures Eval(m, [i, k]) == Eval(m.a, [i]) * Eval(m.b, [k])
  {
    ProductElement(m, [i, k]);
    OuterRealign(s, t, i, k);
  }

  /**
   * `x(i) * y(j)`: a rank-2 expression whose element (i, k) is x(i) y(k),
   * with nothing summed (the library's outer-product test).
   */
  lemma OuterProduct(e: nat, f: nat, x: seq<nat> -> int, y: seq<nat> -> int)
    ensures var m := Product(Bind(Leaf([Axis(None, e)], x), "i", [0]), Bind(Leaf([Axis(None, f)], y), "j", [0]));
      Valid(m) && NodeRank(m) == 2 && Depth(m) == 2 &&
      forall i: nat, k: nat :: Eval(m, [i, k]) == x([i]) * y([k])
  {
    var m := Product(Bind(Leaf([Axis(None, e)], x), "i", [0]), Bind(Leaf([Axis(None, f)], y), "j", [0]));
    VectorBind(e, x, "i");
    VectorBind(f, y, "j");
    OuterShape(e, f, "i", "j", m);
    forall i: nat, k: nat
      ensures Eval(m, [i, k]) == x([i]) * y([k])
    {
      OuterValues("i", "j", m, i, k);
    }
  }

  // ---------------------------------------------------------------------
  // A scalar operand: 2 * A(i, j) * x(j) + y(i)
  // ---------------------------------------------------------------------

  /** A sum of terms each scaled by w is w times the sum. */
  lemma {:induction false} SumRangeScale(lo: nat, hi: nat, w: int, f: nat -> int, g: nat -> int)
    requires lo <= hi
    requires forall k: nat :: lo <= k < hi ==> g(k) == w * f(k)
    ensures SumRange(lo, hi, g) == w * SumRange(lo, hi, f)
    decreases hi - lo
  {
    if lo < hi {
      SumRangeScale(lo + 1, hi, w, f, g);
    }
  }

  /**
   * `w * n` with a scalar w: a rank-0 operand, whose outer label is empty
   * and whose one element is w, exactly as `bind(w)`. The product keeps n's
   * label and extents, contracts nothing, and scales each element of n by w.
   */
  lemma ScalarTimes(w: int, n: Node)
    requires Valid(n) && IsExpression(n)
    ensures var p := Product(Binding.BindScalar(w), n);
      Valid(p) && NodeOuter(p) == NodeOuter(n) && NodeExtents(p) == NodeExtents(n) &&
      forall idx :: |idx| == NodeRank(n) ==> Eval(p, idx) == w * Eval(n, idx)
  {
    var p := Product(Binding.BindScalar(w), n);
    ScalarOperandShape(w, n);
    forall idx | |idx| == NodeRank(n)
      ensures Eval(p, idx) == w * Eval(n, idx)
    {
      ScalarElement(w, n, idx);
    }
  }

  /** One element of `w * n`: the scalar's one element times n's element at the same index. */
  lemma ScalarElement(w: int, n: Node, idx: seq<nat>)
    requires Valid(n) && IsExpression(n) && |idx| == NodeRank(n)
    requires var p := Product(Binding.BindScalar(w), n);
      Valid(p) && NodeOuter(Binding.BindScalar(w)) == [] &&
      Inner(NodeOuter(Binding.BindScalar(w)) + NodeOuter(n)) == NodeOuter(n) && Depth(p) == NodeRank(p) == NodeRank(n)
    ensures Eval(Product(Binding.BindScalar(w), n), idx) == w * Eval(n, idx)
  {
    var p := Product(Binding.BindScalar(w), n);
    assert Eval(p, idx) == Deep(p, idx);
    ProductElement(p, idx);
    NodeOuterDistinct(n);
    Binding.RealignSame(NodeOuter(n), idx);
  }

  /** The shape half of `ScalarTimes`: the product is well formed and as deep as n's rank. */
  lemma ScalarOperandShape(w: int, n: Node)
    requires Valid(n) && IsExpression(n)
    ensures var p := Product(Binding.BindScalar(w), n);
      Valid(p) && NodeOuter(Binding.BindScalar(w)) == [] && NodeOuter(p) == NodeOuter(n) &&
      Inner(NodeOuter(Binding.BindScalar(w)) + NodeOuter(n)) == NodeOuter(n) && Depth(p) == NodeRank(p) == NodeRank(n) && NodeExtents(p) == NodeExtents(n)
  {
    var s, o, e := Binding.BindScalar(w), NodeOuter(n), NodeExtents(n);
    NodeOuterDistinct(n);
    PlainLabel(o);
    PlainLabel([]);
    assert NodeOuter(s) + o == o;
    assert Concat(NodeExtents(s), e) == e;
    SubsetMeaning([], o);
    IndexMapIdentity(o);
    ContractedCheckMeaning(StaticHalf, o, e);
    ContractedCheckMeaning(RuntimeHalf, o, e);
    ProductShape(s, n);
    Binding.SelectIdentity(IndexMap(o, o), e);
  }

  /** The label and extents of `(w * A(i, j)) * x(j)`: one outer letter of extent r. */
  lemma MatVecExtents(r: nat, c: nat, m: Node)
    requires m.Product? && Valid(m) && Valid(m.a) && Valid(m.b) && IsExpression(m.a) && IsExpression(m.b)
    requires NodeOuter(m.a) == "ij" && NodeOuter(m.b) == "j"
    requires NodeExtents(m.a) == [Axis(None, r), Axis(None, c)] && NodeExtents(m.b) == [Axis(None, c)]
    ensures NodeOuter(m) == "i" && NodeExtents(m) == [Axis(None, r)]
  {
    assert "ij" + "j" == "ijj";
    MatVecClasses();
    assert MapEntry("ijj", "i", 0) == 0;
    assert IndexMap("ijj", "i") == [0];
  }

  /**
   * `2 * A(i, j) * x(j) + y(i)`, with any scalar w in place of 2 (the
   * library's scaled matrix-vector test): element i is w times row i of A
   * dotted with x, plus element i of y.
   */
  lemma ScaledMatrixVectorPlus(r: nat, c: nat, w: int, a: seq<nat> -> int, x: seq<nat> -> int, y: seq<nat> -> int)
    ensures var m := Sum(Add, Product(Product(Binding.BindScalar(w), Bind(Leaf([Axis(None, r), Axis(None, c)], a), "ij", [0, 0])),
                                      Bind(Leaf([Axis(None, c)], x), "j", [0])),
                              Bind(Leaf([Axis(None, r)], y), "i", [0]));
      Valid(m) && NodeRank(m) == 1 &&
      forall i: nat :: Eval(m, [i]) == w * SumRange(0, c, (k: nat) => a([i, k]) * x([k])) + y([i])
  {
    var m := Sum(Add, Product(Product(Binding.BindScalar(w), Bind(Leaf([Axis(None, r), Axis(None, c)], a), "ij", [0, 0])),
                              Bind(Leaf([Axis(None, c)], x), "j", [0])),
                      Bind(Leaf([Axis(None, r)], y), "i", [0]));
    ScaledMatVecTree(r, c, w, a, x, y, m);
    forall i: nat
      ensures Eval(m, [i]) == w * SumRange(0, c, (k: nat) => a([i, k]) * x([k])) + y([i])
    {
      ScaledMatVecElement(c, w, a, x, y, m, i);
    }
  }

  /** The operands of `w * A(i, j) * x(j) + y(i)` and the sum itself are well formed, with their elements. */
  lemma ScaledMatVecTree(r: nat, c: nat, w: int, a: seq<nat> -> int, x: seq<nat> -> int, y: seq<nat> -> int, m: Node)
    requires m == Sum(Add, Product(Product(Binding.BindScalar(w), Bind(Leaf([Axis(None, r), Axis(None, c)], a), "ij", [0, 0])),
                                   Bind(Leaf([Axis(None, c)], x), "j", [0])),
                           Bind(Leaf([Axis(None, r)], y), "i", [0]))
    ensures Valid(m) && NodeRank(m) == 1 && Valid(m.a) && m.a.Product? && NodeRank(m.a) == 1 && Depth(m.a) == 2
    ensures InnerExtents(m.a)[1].runtime == c && NodeOuter(m.a) == NodeOuter(m.b) == "i"
    ensures NodeOuter(m.a.a) == "ij" && NodeOuter(m.a.b) == "j"
    ensures forall i: nat, k: nat :: Eval(m.a.a, [i, k]) == w * a([i, k])
    ensures forall k: nat :: Eval(m.a.b, [k]) == x([k])
    ensures forall i: nat :: Eval(m.b, [i]) == y([i])
  {
    ScaledMatVecProduct(r, c, w, a, x, m.a);
    VectorBind(r, y, "i");
    SameLabelSum(r, m);
  }

  /** `(w * A(i, j)) * x(j)` is well formed, keeps the letter i of extent r, and sums over j of extent c. */
  lemma ScaledMatVecProduct(r: nat, c: nat, w: int, a: seq<nat> -> int, x: seq<nat> -> int, mv: Node)
    requires mv == Product(Product(Binding.BindScalar(w), Bind(Leaf([Axis(None, r), Axis(None, c)], a), "ij", [0, 0])),
                           Bind(Leaf([Axis(None, c)], x), "j", [0]))
    ensures Valid(mv) && IsExpression(mv) && NodeRank(mv) == 1 && Depth(mv) == 2 && InnerExtents(mv)[1].runtime == c
    ensures NodeOuter(mv) == "i" && NodeExtents(mv) == [Axis(None, r)]
    ensures NodeOuter(mv.a) == "ij" && NodeOuter(mv.b) == "j"
    ensures forall i: nat, k: nat :: Eval(mv.a, [i, k]) == w * a([i, k])
    ensures forall k: nat :: Eval(mv.b, [k]) == x([k])
  {
    ScaledMatrix(r, c, w, a, mv.a);
    VectorBind(c, x, "j");
    MatVecShape(r, c, "ij", "j", mv);
    MatVecExtents(r, c, mv);
  }

  /** `w * A(i, j)`: an r-by-c expression labelled "ij" whose element (i, k) is w times A's. */
  lemma ScaledMatrix(r: nat, c: nat, w: int, a: seq<nat> -> int, sa: Node)
    requires sa == Product(Binding.BindScalar(w), Bind(Leaf([Axis(None, r), Axis(None, c)], a), "ij", [0, 0]))
    ensures Valid(sa) && IsExpression(sa) && NodeOuter(sa) == "ij" && NodeExtents(sa) == [Axis(None, r), Axis(None, c)]
    ensures forall i: nat, k: nat :: Eval(sa, [i, k]) == w * a([i, k])
  {
    MatrixBind(r, c, a, "ij");
    ScalarTimes(w, sa.b);
    forall i: nat, k: nat
      ensures Eval(sa, [i, k]) == w * a([i, k])
    {
      assert |[i, k]| == NodeRank(sa.b);
    }
  }

  /** A sum of two expressions labelled "i" with the same extent r is a well-formed rank-1 sum. */
  lemma SameLabelSum(r: nat, m: Node)
    requires m.Sum? && Valid(m.a) && Valid(m.b) && IsExpression(m.a) && IsExpression(m.b)
    requires NodeOuter(m.a) == NodeOuter(m.b) == "i"
    requires NodeExtents(m.a) == NodeExtents(m.b) == [Axis(None, r)]
    ensures Valid(m) && NodeRank(m) == 1
  {
    Binding.SameLabelSides(m.op, m.a, m.b);
    CompatibleMeaning([Axis(None, r)], [Axis(None, r)]);
    SumShape(m.op, m.a, m.b);
  }

  /** Element i of `w * A(i, j) * x(j) + y(i)`: the scaled sum over j, plus y's element i. */
  lemma ScaledMatVecElement(c: nat, w: int, a: seq<nat> -> int, x: seq<nat> -> int, y: seq<nat> -> int, m: Node, i: nat)
    requires m.Sum? && m.op == Add && Valid(m) && NodeRank(m) == 1 && Valid(m.a) && m.a.Product?
    requires NodeRank(m.a) == 1 && Depth(m.a) == 2
    requires InnerExtents(m.a)[1].runtime == c && NodeOuter(m.a) == NodeOuter(m.b) == "i"
    requires NodeOuter(m.a.a) == "ij" && NodeOuter(m.a.b) == "j"
    requires forall i: nat, k: nat :: Eval(m.a.a, [i, k]) == w * a([i, k])
    requires forall k: nat :: Eval(m.a.b, [k]) == x([k])
    requires forall i: nat :: Eval(m.b, [i]) == y([i])
    ensures Eval(m, [i]) == w * SumRange(0, c, (k: nat) => a([i, k]) * x([k])) + y([i])
  {
    ScaledRow(c, w, a, x, m.a, i);
    Binding.SameLabelElement(m, [i]);
  }

  /** Row i of `(w * A(i, j)) * x(j)` is w times the dot product of row i of A with x. */
  lemma ScaledRow(c: nat, w: int, a: seq<nat> -> int, x: seq<nat> -> int, mv: Node, i: nat)
    requires mv.Product? && Valid(mv) && NodeRank(mv) == 1 && Depth(mv) == 2 && InnerExtents(mv)[1].runtime == c
    requires NodeOuter(mv.a) == "ij" && NodeOuter(mv.b) == "j"
    requires forall i: nat, k: nat :: Eval(mv.a, [i, k]) == w * a([i, k])
    requires forall k: nat :: Eval(mv.b, [k]) == x([k])
    ensures Eval(mv, [i]) == w * SumRange(0, c, (k: nat) => a([i, k]) * x([k]))
  {
    forall k: nat
      ensures Deep(mv, [i] + [k]) == w * (a([i, k]) * x([k]))
    {
      MatVecValues("ij", "j", mv, i, k);
      ScaledFactor(Eval(mv.a, [i, k]), Eval(mv.b, [k]), w, a([i, k]), x([k]));
    }
    ContractionIsSum(mv, [i], c, (k: nat) => w * (a([i, k]) * x([k])));
    SumRangeScale(0, c, w, (k: nat) => a([i, k]) * x([k]), (k: nat) => w * (a([i, k]) * x([k])));
  }

  /** A product whose first factor is scaled by w is w times the unscaled product. */
  lemma ScaledFactor(p: int, q: int, w: int, u: int, v: int)
    requires p == w * u && q == v
    ensures p * q == w * (u * v)
  {
  }

  // ---------------------------------------------------------------------
  // Sum with a transposed operand: V(i, j) + W(j, i)
  // ---------------------------------------------------------------------

  /** A sum whose operands' labels are permutations of each other and whose extents fit. */
  lemma SumShape(op: SumOp, a: Node, b: Node)
    requires Valid(a) && Valid(b) && IsExpression(a) && IsExpression(b)
    requires IsPermutation(NodeOuter(a), NodeOuter(b))
    requires IndexMapGuard(NodeOuter(a), NodeOuter(a)) && IndexMapGuard(NodeOuter(a), NodeOuter(b))
    requires IndexMapGuard(NodeOuter(b), NodeOuter(a))
    requires StaticallyCompatible(SumSides(Sum(op, a, b)).0, SumSides(Sum(op, a, b)).1)
    requires Compatible(SumSides(Sum(op, a, b)).0, SumSides(Sum(op, a, b)).1)
    ensures Valid(Sum(op, a, b)) && NodeRank(Sum(op, a, b)) == |NodeOuter(a)|
  {
  }

  lemma PlainJI(s: seq<char>)
    requires s == "ji"
    ensures Distinct(s) && Star !in s
  {
    assert forall c :: Count("ji", c) == (if c == 'i' || c == 'j' then 1 else 0);
  }

  lemma TransposeMaps(s: seq<char>, t: seq<char>)
    requires s == "ij" && t == "ji"
    ensures IsPermutation(s, t) && IndexMapGuard(s, s) && IndexMapGuard(s, t) && IndexMapGuard(t, s)
    ensures IndexMap(s, s) == [0, 1] && IndexMap(t, s) == [1, 0]
  {
    assert MapEntry(t, s, 0) == 1;
    assert MapEntry(s, s, 1) == 1;
  }

  lemma TransposeShape(r: nat, c: nat, s: seq<char>, t: seq<char>, m: Node)
    requires s == "ij" && t == "ji" && m.Sum?
    requires Valid(m.a) && Valid(m.b) && IsExpression(m.a) && IsExpression(m.b)
    requires NodeOuter(m.a) == s && NodeOuter(m.b) == t
    requires NodeExtents(m.a) == [Axis(None, r), Axis(None, c)] && NodeExtents(m.b) == [Axis(None, c), Axis(None, r)]
    ensures Valid(m) && NodeRank(m) == 2
  {
    TransposeMaps(s, t);
    var sides := SumSides(m);
    assert sides.0 == [Axis(None, r), Axis(None, c)] && sides.1 == [Axis(None, r), Axis(None, c)];
    SumShape(m.op, m.a, m.b);
  }

  lemma TransposeValues(s: seq<char>, t: seq<char>, m: Node)
    requires s == "ij" && t == "ji" && m.Sum? && Valid(m) && NodeRank(m) == 2
    requires NodeOuter(m.a) == s && NodeOuter(m.b) == t
    ensures NodeRank(m.a) == 2 && NodeRank(m.b) == 2
    ensures forall i: nat, k: nat :: Eval(m, [i, k]) == Combine(m.op, Eval(m.a, [i, k]), Eval(m.b, [k, i]))
  {
    forall i: nat, k: nat
      ensures Eval(m, [i, k]) == Combine(m.op, Eval(m.a, [i, k]), Eval(m.b, [k, i]))
    {
      SumElement(m, [i, k]);
      assert Realign(s, t, [i, k]) == [k, i];
    }
  }

  /**
   * `V(i, j) + W(j, i)` of an r-by-c and a c-by-r matrix: an r-by-c
   * expression whose element (i, k) adds V's element (i, k) to W's element
   * (k, i); the sum reads its second operand by letter, not by position.
   */
  lemma SumWithTranspose(r: nat, c: nat, v: seq<nat> -> int, w: seq<nat> -> int)
    ensures var m := Sum(Add, Bind(Leaf([Axis(None, r), Axis(None, c)], v), "ij", [0, 0]),
                              Bind(Leaf([Axis(None, c), Axis(None, r)], w), "ji", [0, 0]));
      Valid(m) && NodeRank(m) == 2 &&
      forall i: nat, k: nat :: Eval(m, [i, k]) == v([i, k]) + w([k, i])
  {
    var m := Sum(Add, Bind(Leaf([Axis(None, r), Axis(None, c)], v), "ij", [0, 0]),
                      Bind(Leaf([Axis(None, c), Axis(None, r)], w), "ji", [0, 0]));
    TransposeSum(r, c, v, w, m);
    TransposeValues("ij", "ji", m);
  }

  /** The operands of `V(i, j) + W(j, i)` and the sum itself are well formed. */
  lemma TransposeSum(r: nat, c: nat, v: seq<nat> -> int, w: seq<nat> -> int, m: Node)
    requires m == Sum(Add, Bind(Leaf([Axis(None, r), Axis(None, c)], v), "ij", [0, 0]),
                           Bind(Leaf([Axis(None, c), Axis(None, r)], w), "ji", [0, 0]))
    ensures Valid(m) && NodeRank(m) == 2 && NodeOuter(m.a) == "ij" && NodeOuter(m.b) == "ji"
    ensures forall i: nat, k: nat :: Eval(m.a, [i, k]) == v([i, k]) && Eval(m.b, [k, i]) == w([k, i])
  {
    MatrixBind(r, c, v, "ij");
    TransposedBind(c, r, w, "ji");
    TransposeShape(r, c, "ij", "ji", m);
  }

  lemma TransposedBind(r: nat, c: nat, a: seq<nat> -> int, s: seq<char>)
    requires s == "ji"
    ensures var b := Bind(Leaf([Axis(None, r), Axis(None, c)], a), s, [0, 0]);
      Valid(b) && IsExpression(b) && NodeOuter(b) == s && NodeExtents(b) == [Axis(None, r), Axis(None, c)] &&
      forall i: nat, k: nat :: Eval(b, [i, k]) == a([i, k])
  {
    PlainJI(s);
    BindPlainLabel(Leaf([Axis(None, r), Axis(None, c)], a), s, [0, 0]);
  }
}
