/**
 * The bind factories: `ttl::bind` over a scalar or over a tensor and a list
 * of index values and integers, the rebinding call operators of a node,
 * `autobind`, and the mixed tensor/expression `+` and `-`.
 */
module Binding {
  import opened IndexString
  import opened Extents
  import Ix = Index
  import opened Tree

  /** Every index-valued argument has one slot per label character. */
  predicate ArgsValid(args: seq<Ix.Arg>) {
    forall k :: 0 <= k < |args| ==> (args[k].Id? ==> Ix.Valid(args[k].index))
  }

  /** The concatenated label of the arguments (`(_index + ...)`, an integer giving "*"). */
  function Labels(args: seq<Ix.Arg>): seq<char>
    decreases |args|
  {
    if args == [] then [] else Labels(args[..|args| - 1]) + Ix.ArgLabel(args[|args| - 1])
  }

  /** The concatenated slots of the arguments, an integer giving its own value. */
  function Slots(args: seq<Ix.Arg>): seq<nat>
    requires ArgsValid(args)
    decreases |args|
  {
    if args == [] then [] else Slots(args[..|args| - 1]) + Ix.ToIndex(args[|args| - 1]).slots
  }

  lemma {:induction false} SlotsLength(args: seq<Ix.Arg>)
    requires ArgsValid(args)
    ensures |Slots(args)| == |Labels(args)|
    decreases |args|
  {
    if args != [] {
      SlotsLength(args[..|args| - 1]);
    }
  }

  lemma ArgsValidCons(a: Ix.Arg, args: seq<Ix.Arg>)
    requires ArgsValid([a] + args)
    ensures ArgsValid(args) && (a.Id? ==> Ix.Valid(a.index))
  {
    assert ([a] + args)[0] == a;
    forall k | 0 <= k < |args|
      ensures args[k].Id? ==> Ix.Valid(args[k].index)
    {
      assert args[k] == ([a] + args)[k + 1];
    }
  }

  lemma {:induction false} LabelsCons(a: Ix.Arg, args: seq<Ix.Arg>)
    ensures Labels([a] + args) == Ix.ArgLabel(a) + Labels(args)
    decreases |args|
  {
    if args != [] {
      var init := args[..|args| - 1];
      assert ([a] + args)[..|[a] + args| - 1] == [a] + init;
      assert ([a] + args)[|[a] + args| - 1] == args[|args| - 1];
      LabelsCons(a, init);
    } else {
      assert ([a] + args)[..0] == [];
    }
  }

  lemma {:induction false} SlotsCons(a: Ix.Arg, args: seq<Ix.Arg>)
    requires ArgsValid([a] + args)
    ensures ArgsValid(args) && (a.Id? ==> Ix.Valid(a.index))
    ensures Slots([a] + args) == Ix.ToIndex(a).slots + Slots(args)
    decreases |args|
  {
    ArgsValidCons(a, args);
    if args != [] {
      var init, whole := args[..|args| - 1], [a] + args;
      assert whole[..|whole| - 1] == [a] + init;
      assert whole[|whole| - 1] == args[|args| - 1];
      ArgsValidPrefix(whole, |whole| - 1);
      SlotsCons(a, init);
    } else {
      assert ([a] + args)[..0] == [];
    }
  }

  lemma ArgsValidPrefix(args: seq<Ix.Arg>, n: nat)
    requires ArgsValid(args) && n <= |args|
    ensures ArgsValid(args[..n])
  {
    forall k | 0 <= k < n
      ensures args[..n][k].Id? ==> Ix.Valid(args[..n][k].index)
    {
      assert args[..n][k] == args[k];
    }
  }

  /** The draft constructor's `(index<"">{} + ... + is)`: a left fold of `operator+` from the empty index. */
  function FoldLeft(args: seq<Ix.Arg>): (i: Ix.Index)
    requires ArgsValid(args)
    ensures Ix.Valid(i) && i.str == Labels(args) && i.slots == Slots(args)
    decreases |args|
  {
    if args == [] then Ix.Default([])
    else Ix.Plus(FoldLeft(args[..|args| - 1]), Ix.ToIndex(args[|args| - 1]))
  }

  /** `(ids + ...)`: the right fold of `operator+` over one argument or more. */
  function FoldRight(args: seq<Ix.Arg>): (i: Ix.Index)
    requires args != [] && ArgsValid(args)
    ensures Ix.Valid(i)
    decreases |args|
  {
    if |args| == 1 then Ix.ToIndex(args[0])
    else Ix.Plus(Ix.ToIndex(args[0]), FoldRight(args[1..]))
  }

  /** Both folds build the same index: the concatenated labels carrying the concatenated slots. */
  lemma {:induction false} FoldsAgree(args: seq<Ix.Arg>)
    requires args != [] && ArgsValid(args)
    ensures FoldRight(args) == FoldLeft(args) == Ix.Index(Labels(args), Slots(args))
    decreases |args|
  {
    assert args == [args[0]] + args[1..];
    LabelsCons(args[0], args[1..]);
    SlotsCons(args[0], args[1..]);
    if |args| == 1 {
      assert args[1..] == [];
    } else {
      FoldsAgree(args[1..]);
    }
  }

  /**
   * Each integer argument becomes a '*' of the label whose slot holds that
   * integer, at the position where its argument's label starts.
   */
  lemma {:induction false} IntegralOffsets(args: seq<Ix.Arg>, k: nat)
    requires ArgsValid(args) && k < |args| && args[k].Integral?
    ensures |Labels(args[..k])| < |Labels(args)| && |Slots(args)| == |Labels(args)|
    ensures Labels(args)[|Labels(args[..k])|] == Star
    ensures Slots(args)[|Labels(args[..k])|] == args[k].offset
    decreases |args|
  {
    SlotsLength(args);
    var init := args[..|args| - 1];
    SlotsLength(init);
    if k == |args| - 1 {
      assert args[..k] == init;
    } else {
      assert args[..k] == init[..k];
      IntegralOffsets(init, k);
    }
  }

  /** `bind(a)` of a scalar: a bind of a rank-0 tensor with the empty label, whose one element is the scalar. */
  function BindScalar(x: int): (r: Node)
    ensures Valid(r) && NodeRank(r) == 0 && Eval(r, []) == x
  {
    PlainLabel([]);
    Bind(Leaf([], _ => x), [], [])
  }

  /**
   * `bind(a, ids...)`, the integral overload that turns integers into
   * `index(p)`, and a node's `operator()(index...)`: a bind labelled by the
   * concatenated labels and carrying the concatenated slots.
   */
  function BindArgs(a: Node, args: seq<Ix.Arg>): (r: Node)
    requires args != [] && ArgsValid(args)
    ensures r.Bind? && r.a == a && r.str == Labels(args) && r.id == Slots(args)
  {
    FoldsAgree(args);
    var i := FoldRight(args);
    Bind(a, i.str, i.slots)
  }

  /** The arguments of a call with integers only. */
  function Integers(ks: seq<nat>): (args: seq<Ix.Arg>)
    ensures |args| == |ks| && ArgsValid(args)
    ensures forall k :: 0 <= k < |ks| ==> args[k] == Ix.Integral(ks[k])
  {
    seq(|ks|, k requires 0 <= k < |ks| => Ix.Integral(ks[k]))
  }

  lemma {:induction false} IntegersLabels(ks: seq<nat>)
    ensures |Labels(Integers(ks))| == |ks|
    ensures forall k :: 0 <= k < |ks| ==> Labels(Integers(ks))[k] == Star
    ensures Slots(Integers(ks)) == ks
    decreases |ks|
  {
    if ks != [] {
      var init := ks[..|ks| - 1];
      assert Integers(ks)[..|ks| - 1] == Integers(init);
      IntegersLabels(init);
      assert ks == init + [ks[|ks| - 1]];
    }
  }

  /**
   * Binding every axis of a node to an integer projects them all: the bind is
   * well formed, has rank 0, and its one element is the node's element at
   * those integers.
   */
  lemma BindIntegers(n: Node, ks: seq<nat>)
    requires Valid(n) && NodeRank(n) == |ks| && ks != []
    ensures Valid(BindArgs(n, Integers(ks))) && NodeRank(BindArgs(n, Integers(ks))) == 0
    ensures Eval(BindArgs(n, Integers(ks)), []) == Eval(n, ks)
  {
    IntegersLabels(ks);
    StarBindValid(n, BindArgs(n, Integers(ks)).str, ks);
    StarBindElement(n, BindArgs(n, Integers(ks)).str, ks);
  }

  lemma StarBindValid(n: Node, s: seq<char>, ks: seq<nat>)
    requires Valid(n) && NodeRank(n) == |ks| == |s|
    requires forall k :: 0 <= k < |s| ==> s[k] == Star
    ensures Valid(Bind(n, s, ks)) && NodeRank(Bind(n, s, ks)) == 0 && Depth(Bind(n, s, ks)) == 0
  {
    StarLabel(s);
    assert IndexMapGuard(All(s), s) by {
      SubsetMeaning(s, s);
    }
    ContractedCheckMeaning(StaticHalf, s, NodeExtents(n));
    ContractedCheckMeaning(RuntimeHalf, s, NodeExtents(n));
  }

  lemma StarBindElement(n: Node, s: seq<char>, ks: seq<nat>)
    requires Valid(n) && NodeRank(n) == |ks| == |s|
    requires forall k :: 0 <= k < |s| ==> s[k] == Star
    requires Valid(Bind(n, s, ks)) && NodeRank(Bind(n, s, ks)) == 0 && Depth(Bind(n, s, ks)) == 0
    ensures Eval(Bind(n, s, ks), []) == Eval(n, ks)
  {
    StarRemap(s, ks);
  }

  /** With only `*` letters, the operand's tuple is the bound integers themselves. */
  lemma StarRemap(s: seq<char>, ks: seq<nat>)
    requires |ks| == |s| && IndexMapGuard(All(s), s)
    requires forall k :: 0 <= k < |s| ==> s[k] == Star
    ensures Inner(s) == [] && Remap(s, ks, []) == ks
  {
    StarLabel(s);
    RemapMeaning(s, ks, []);
  }

  /**
   * node.hpp's `operator()(this self, i...)` over integers: it forwards to
   * `self[index(i)...]`, but `index(i)` of an integer is an `index<"*">` and
   * every `operator[]` takes only integers, so the overload forms only with
   * no argument. Its static assertion then asks for a rank-0 node, and `n()`
   * is the node's one element.
   */
  function Call(n: Node): (v: int)
    requires Valid(n) && NodeRank(n) == 0
    ensures CheckBounds(n, []) && v == Eval(n, [])
  {
    Subscript(n, [])
  }

  /** `autobind<ind>(a)`: `bind(a, index<ind>())`, the label ind with every slot zero. */
  function AutoBind(a: Node, s: seq<char>): (r: Node)
    ensures r.Bind? && r.a == a && r.str == s && |r.id| == |s|
    ensures forall k :: 0 <= k < |s| ==> r.id[k] == 0
  {
    var args := [Ix.Id(Ix.Default(s))];
    assert Labels(args) == s by {
      assert args[..0] == [];
    }
    assert Slots(args) == Ix.Default(s).slots by {
      assert args[..0] == [];
    }
    BindArgs(a, args)
  }

  /** The mixed operators: `tensor op expression` and `expression op tensor`. */
  function TensorOp(op: SumOp, t: Node, e: Node): (r: Node)
    requires Valid(e) && IsExpression(e)
    ensures r.Sum? && r.op == op && r.b == e && r.a == AutoBind(t, NodeOuter(e))
  {
    Sum(op, AutoBind(t, NodeOuter(e)), e)
  }

  function ExpressionOp(op: SumOp, e: Node, t: Node): (r: Node)
    requires Valid(e) && IsExpression(e)
    ensures r.Sum? && r.op == op && r.a == e && r.b == AutoBind(t, NodeOuter(e))
  {
    Sum(op, e, AutoBind(t, NodeOuter(e)))
  }

  /** A tensor bound to an expression's outer label is a relabelling of the tensor. */
  lemma AutoBindFacts(t: Node, e: Node)
    requires Valid(t) && !IsExpression(t) && Valid(e) && IsExpression(e) && |NodeExtents(t)| == |NodeOuter(e)|
    ensures Valid(AutoBind(t, NodeOuter(e))) && IsExpression(AutoBind(t, NodeOuter(e)))
    ensures NodeOuter(AutoBind(t, NodeOuter(e))) == NodeOuter(e)
    ensures NodeExtents(AutoBind(t, NodeOuter(e))) == NodeExtents(t)
    ensures forall idx :: |idx| == |NodeOuter(e)| ==> Eval(AutoBind(t, NodeOuter(e)), idx) == Eval(t, idx)
  {
    NodeOuterDistinct(e);
    BindPlainLabel(t, NodeOuter(e), AutoBind(t, NodeOuter(e)).id);
  }

  lemma SelectIdentity(pos: seq<nat>, t: Extents)
    requires |pos| == |t| && forall k :: 0 <= k < |pos| ==> pos[k] == k
    ensures Select(pos, t) == t
  {
  }

  /** A sum of two expressions with the same outer label: its sides are the operands' own extents. */
  lemma SameLabelSides(op: SumOp, a: Node, b: Node)
    requires Valid(a) && Valid(b) && IsExpression(a) && IsExpression(b) && NodeOuter(a) == NodeOuter(b)
    ensures IsPermutation(NodeOuter(a), NodeOuter(b))
    ensures IndexMapGuard(NodeOuter(a), NodeOuter(a))
    ensures SumSides(Sum(op, a, b)) == (NodeExtents(a), NodeExtents(b))
  {
    var o := NodeOuter(a);
    NodeOuterDistinct(a);
    PermutationIsEquivalence(o, o, o);
    IndexMapIdentity(o);
    SelectIdentity(IndexMap(o, o), NodeExtents(a));
    SelectIdentity(IndexMap(o, o), NodeExtents(b));
  }

  /**
   * `tensor + expression` and `expression + tensor` (and their `-` forms)
   * exist exactly when the tensor's extents are compatible with the
   * expression's, the condition of the sum's constructor.
   */
  lemma MixedValid(op: SumOp, t: Node, e: Node)
    requires Valid(t) && !IsExpression(t) && Valid(e) && IsExpression(e) && |NodeExtents(t)| == |NodeOuter(e)|
    ensures Valid(TensorOp(op, t, e)) <==>
              StaticallyCompatible(NodeExtents(t), NodeExtents(e)) && Compatible(NodeExtents(t), NodeExtents(e))
    ensures Valid(ExpressionOp(op, e, t)) <==>
              StaticallyCompatible(NodeExtents(e), NodeExtents(t)) && Compatible(NodeExtents(e), NodeExtents(t))
  {
    AutoBindFacts(t, e);
    var b := AutoBind(t, NodeOuter(e));
    SameLabelSides(op, b, e);
    SameLabelSides(op, e, b);
  }

  /** A sum of two expressions with the same outer label combines their elements at the same index. */
  lemma SameLabelElement(n: Node, idx: seq<nat>)
    requires n.Sum? && Valid(n) && NodeOuter(n.a) == NodeOuter(n.b) && |idx| == NodeRank(n)
    ensures |idx| == NodeRank(n.a) == NodeRank(n.b)
    ensures Eval(n, idx) == Combine(n.op, Eval(n.a, idx), Eval(n.b, idx))
  {
    SumElement(n, idx);
    NodeOuterDistinct(n.a);
    RealignSame(NodeOuter(n.a), idx);
  }

  /** Element i of `tensor op expression` combines the tensor's element i with the expression's. */
  lemma TensorOpElement(op: SumOp, t: Node, e: Node, idx: seq<nat>)
    requires Valid(t) && !IsExpression(t) && Valid(e) && IsExpression(e) && |NodeExtents(t)| == |NodeOuter(e)|
    requires Valid(TensorOp(op, t, e)) && |idx| == NodeRank(TensorOp(op, t, e))
    ensures |idx| == NodeRank(t) == NodeRank(e)
    ensures Eval(TensorOp(op, t, e), idx) == Combine(op, Eval(t, idx), Eval(e, idx))
  {
    AutoBindFacts(t, e);
    SameLabelElement(TensorOp(op, t, e), idx);
  }

  /** Element i of `expression op tensor` combines the expression's element i with the tensor's. */
  lemma ExpressionOpElement(op: SumOp, e: Node, t: Node, idx: seq<nat>)
    requires Valid(t) && !IsExpression(t) && Valid(e) && IsExpression(e) && |NodeExtents(t)| == |NodeOuter(e)|
    requires Valid(ExpressionOp(op, e, t)) && |idx| == NodeRank(ExpressionOp(op, e, t))
    ensures |idx| == NodeRank(t) == NodeRank(e)
    ensures Eval(ExpressionOp(op, e, t), idx) == Combine(op, Eval(e, idx), Eval(t, idx))
  {
    AutoBindFacts(t, e);
    SameLabelElement(ExpressionOp(op, e, t), idx);
  }

  lemma RealignSame(o: seq<char>, idx: seq<nat>)
    requires Distinct(o) && |idx| == |o|
    ensures forall t :: 0 <= t < |o| ==> IndexOf(o, o[t]) == t
    ensures Realign(o, o, idx) == idx
  {
    forall t | 0 <= t < |o|
      ensures IndexOf(o, o[t]) == t
    {
      IndexOfDistinct(o, t);
    }
  }
}
