/**
 * `execution_traits::assign` and the assignment operators built on it.
 *
 * The left-hand side A is a tensor held in row-major storage (axis 0
 * outermost) with the runtime sizes of its extents, written either directly
 * or through a bind with a plain label (distinct letters, no '*'). The
 * right-hand side B is any tree. The loop nest visits every index tuple of A
 * in lexicographic order and writes B's element at that tuple, permuted by
 * `index_map<outer_a, outer_b>` when both sides are expressions.
 */
module Assignment {
  import opened Wrappers
  import opened IndexString
  import opened Extents
  import opened Tree
  import Binding

  // ---------------------------------------------------------------------
  // Row-major storage
  // ---------------------------------------------------------------------

  /** The number of elements of a tensor with these extents. */
  function Size(e: Extents): nat {
    if e == [] then 1 else e[0].runtime * Size(e[1..])
  }

  /** One index per axis, each below that axis' runtime size. */
  predicate InBounds(e: Extents, idx: seq<nat>) {
    |idx| == |e| && forall k :: 0 <= k < |idx| ==> idx[k] < e[k].runtime
  }

  lemma MulLeft(a: nat, b: nat, c: nat)
    requires a <= b
    ensures a * c <= b * c
  {
  }

  lemma MulSucc(a: nat, c: nat)
    ensures (a + 1) * c == a * c + c
  {
  }

  /** The row-major position of an element: every position lies inside the storage. */
  function Offset(e: Extents, idx: seq<nat>): (r: nat)
    requires InBounds(e, idx)
    ensures r < Size(e)
  {
    if e == [] then 0
    else
      var rest := Offset(e[1..], idx[1..]);
      MulLeft(idx[0] + 1, e[0].runtime, Size(e[1..]));
      MulSucc(idx[0], Size(e[1..]));
      idx[0] * Size(e[1..]) + rest
  }

  /** A position splits uniquely into a block number and an offset inside the block. */
  lemma DigitUnique(a: nat, b: nat, s: nat, x: nat, y: nat)
    requires x < s && y < s && a * s + x == b * s + y
    ensures a == b && x == y
  {
    if a < b {
      MulLeft(a + 1, b, s);
    } else if b < a {
      MulLeft(b + 1, a, s);
    }
  }

  /** Distinct index tuples occupy distinct positions: no element is written twice. */
  lemma {:induction false} OffsetInjective(e: Extents, x: seq<nat>, y: seq<nat>)
    requires InBounds(e, x) && InBounds(e, y) && Offset(e, x) == Offset(e, y)
    ensures x == y
  {
    if e != [] {
      assert InBounds(e[1..], x[1..]) && InBounds(e[1..], y[1..]);
      DigitUnique(x[0], y[0], Size(e[1..]), Offset(e[1..], x[1..]), Offset(e[1..], y[1..]));
      OffsetInjective(e[1..], x[1..], y[1..]);
      assert x == [x[0]] + x[1..];
      assert y == [y[0]] + y[1..];
    }
  }

  // ---------------------------------------------------------------------
  // One assignment
  // ---------------------------------------------------------------------

  /**
   * `a = b`: A's extents, the label A is bound with (None when A is a plain
   * tensor), and the tree B.
   */
  datatype Job = Job(shape: Extents, la: Option<seq<char>>, src: Node)

  /** Both sides are expressions, so B's indices are permuted into A's order. */
  predicate Remaps(j: Job) {
    j.la.Some? && IsExpression(j.src)
  }

  /**
   * The compile-time conditions: equal ranks (`static_assert(rank<A> == rank<B>)`),
   * a plain label on A, and outer labels that are permutations of each other
   * when both sides are expressions.
   */
  predicate Typed(j: Job) {
    WellFormed(j.shape) && Valid(j.src) && |j.shape| == NodeRank(j.src) &&
    (j.la.Some? ==> |j.la.value| == |j.shape| && Distinct(j.la.value) && Star !in j.la.value) &&
    (Remaps(j) ==> IsPermutation(j.la.value, NodeOuter(j.src)))
  }

  /** Every letter of B's outer label has a position in A's label, and the other way round. */
  lemma PermutedPositions(j: Job)
    requires Typed(j) && Remaps(j)
    ensures forall t :: 0 <= t < |NodeOuter(j.src)| ==> IndexOf(j.la.value, NodeOuter(j.src)[t]) < |j.shape|
    ensures forall t :: 0 <= t < |j.la.value| ==> IndexOf(NodeOuter(j.src), j.la.value[t]) < |NodeOuter(j.src)|
    ensures IsSubsetOf(j.la.value, NodeOuter(j.src))
  {
    var la, ob := j.la.value, NodeOuter(j.src);
    PermutationMeaning(la, ob);
    SubsetMeaning(la, ob);
    forall t | 0 <= t < |ob|
      ensures IndexOf(la, ob[t]) < |j.shape|
    {
      assert ob[t] in ob;
    }
    forall t | 0 <= t < |la|
      ensures IndexOf(ob, la[t]) < |ob|
    {
      assert la[t] in la;
    }
  }

  /**
   * The tuple B is read at for A's tuple `idx`: `ks[j]...` for j in
   * `index_map<outer_a, outer_b>` when both sides are expressions, `idx`
   * itself otherwise.
   */
  function SourceIndex(j: Job, idx: seq<nat>): (w: seq<nat>)
    requires Typed(j) && |idx| == |j.shape|
    ensures |w| == NodeRank(j.src)
  {
    if Remaps(j) then
      PermutedPositions(j);
      Realign(j.la.value, NodeOuter(j.src), idx)
    else idx
  }

  /** B's extents listed in A's axis order. */
  function SourceExtents(j: Job): (r: Extents)
    requires Typed(j)
    ensures |r| == |j.shape|
  {
    if Remaps(j) then
      PermutedPositions(j);
      IndexMapGuardOfPermutation(NodeOuter(j.src), j.la.value);
      IndexMapSound(NodeOuter(j.src), j.la.value);
      Select(IndexMap(NodeOuter(j.src), j.la.value), NodeExtents(j.src))
    else NodeExtents(j.src)
  }

  lemma IndexMapGuardOfPermutation(from: seq<char>, to: seq<char>)
    requires IsSubsetOf(to, from) && Star !in to
    ensures IndexMapGuard(from, to)
  {
    IndexString.CountsAreMultiplicities();
    assert Count(to, Star) == 0;
  }

  /**
   * The extent check of a correct assignment: A's extents against B's,
   * taken in A's axis order.
   */
  predicate Checked(j: Job)
    requires Typed(j)
  {
    StaticallyCompatible(j.shape, SourceExtents(j)) && Compatible(j.shape, SourceExtents(j))
  }

  /**
   * The check makes every read of B land inside B: for each tuple of A the
   * tuple it reads passes B's `_check_bounds`.
   */
  lemma CheckedReadsInBounds(j: Job, idx: seq<nat>)
    requires Typed(j) && Checked(j) && InBounds(j.shape, idx)
    ensures CheckBounds(j.src, SourceIndex(j, idx))
  {
    var eb := NodeExtents(j.src);
    CompatibleFromMeaning(j.shape, SourceExtents(j), 0);
    if Remaps(j) {
      var la, ob := j.la.value, NodeOuter(j.src);
      PermutedPositions(j);
      IndexMapGuardOfPermutation(ob, la);
      IndexMapSound(ob, la);
      NodeOuterDistinct(j.src);
      assert SourceExtents(j) == Select(IndexMap(ob, la), eb);
      assert SourceIndex(j, idx) == Realign(la, ob, idx);
      forall u | 0 <= u < |ob|
        ensures Realign(la, ob, idx)[u] < eb[u].runtime
      {
        var t := IndexOf(la, ob[u]);
        assert la[t] == ob[u];
        assert IndexMap(ob, la)[t] == MapEntry(ob, la, t) == IndexOf(ob, la[t]);
        IndexOfDistinct(ob, u);
        assert SourceExtents(j)[t] == eb[u];
        assert Realign(la, ob, idx)[u] == idx[t];
      }
    }
  }

  /** The value written at A's tuple `idx`: `evaluate(b, ...)`, bounds checked. */
  function Element(j: Job, idx: seq<nat>): int
    requires Typed(j) && Checked(j) && InBounds(j.shape, idx)
  {
    CheckedReadsInBounds(j, idx);
    Subscript(j.src, SourceIndex(j, idx))
  }

  /** Every tuple extending `p` is inside A. */
  predicate Prefix(j: Job, p: seq<nat>) {
    |p| <= |j.shape| && forall k :: 0 <= k < |p| ==> p[k] < j.shape[k].runtime
  }

  lemma SizeCons(e: Extents)
    requires e != []
    ensures Size(e) == e[0].runtime * Size(e[1..])
  {
  }

  /**
   * What the loop nest writes below prefix `p`, in the order it writes it:
   * the values at every tuple that extends `p`, lexicographically.
   */
  function Block(j: Job, p: seq<nat>): (r: seq<int>)
    requires Typed(j) && Checked(j) && Prefix(j, p)
    ensures |r| == Size(j.shape[|p|..])
    decreases |j.shape| - |p|, 1
  {
    if |p| == |j.shape| then
      assert InBounds(j.shape, p);
      [Element(j, p)]
    else
      assert j.shape[|p|..][1..] == j.shape[|p| + 1..];
      Blocks(j, p, j.shape[|p|].runtime)
  }

  /** The blocks of the first `n` values of axis |p| after prefix `p`. */
  function Blocks(j: Job, p: seq<nat>, n: nat): (r: seq<int>)
    requires Typed(j) && Checked(j) && Prefix(j, p) && |p| < |j.shape| && n <= j.shape[|p|].runtime
    ensures |r| == n * Size(j.shape[|p| + 1..])
    decreases |j.shape| - |p|, 0, n
  {
    if n == 0 then []
    else
      assert Prefix(j, p + [n - 1]);
      Blocks(j, p, n - 1) + Block(j, p + [n - 1])
  }

  /**
   * The recursive `_assign(a, b, i...)`: at full rank one element write,
   * otherwise a loop over the next axis of A. The storage below the prefix
   * receives exactly `Block(j, p)`; nothing before or after it changes.
   */
  method AssignFrom(dst: array<int>, j: Job, p: seq<nat>, lo: nat)
    requires Typed(j) && Checked(j) && Prefix(j, p)
    requires lo + Size(j.shape[|p|..]) <= dst.Length
    modifies dst
    ensures dst[..] == old(dst[..])[..lo] + Block(j, p) + old(dst[..])[lo + Size(j.shape[|p|..])..]
    decreases |j.shape| - |p|, 2
  {
    if |p| == |j.shape| {
      WriteElement(dst, j, p, lo);
    } else {
      AssignAxis(dst, j, p, lo);
      assert j.shape[|p|..][1..] == j.shape[|p| + 1..];
      assert Block(j, p) == Blocks(j, p, j.shape[|p|].runtime);
    }
  }

  /** The loop over axis |p| of A: one recursive `_assign` per value of that axis, block after block. */
  method AssignAxis(dst: array<int>, j: Job, p: seq<nat>, lo: nat)
    requires Typed(j) && Checked(j) && Prefix(j, p) && |p| < |j.shape|
    requires lo + |Blocks(j, p, j.shape[|p|].runtime)| <= dst.Length
    modifies dst
    ensures dst[..] == old(dst[..])[..lo] + Blocks(j, p, j.shape[|p|].runtime)
      + old(dst[..])[lo + |Blocks(j, p, j.shape[|p|].runtime)|..]
    decreases |j.shape| - |p|, 1
  {
    ghost var start := dst[..];
    var n, inner := j.shape[|p|].runtime, Size(j.shape[|p| + 1..]);
    var k: int, at: int := 0, lo;
    assert Blocks(j, p, 0) == [] && start == start[..lo] + [] + start[lo..];
    while k != n
      invariant 0 <= k <= n && |start| == dst.Length && lo <= at == lo + k * inner
      invariant Written(j, p, k, lo, start, dst[..])
    {
      AssignRow(dst, j, p, k, lo, at, start);
      MulSucc(k, inner);
      k, at := k + 1, at + inner;
    }
  }

  /** The first k blocks of axis |p| are in place from `lo`, and the rest of the storage is as it was. */
  predicate Written(j: Job, p: seq<nat>, k: nat, lo: nat, start: seq<int>, cur: seq<int>) {
    Typed(j) && Checked(j) && Prefix(j, p) && |p| < |j.shape| && k <= j.shape[|p|].runtime &&
    lo + |Blocks(j, p, j.shape[|p|].runtime)| <= |start| &&
    cur == start[..lo] + Blocks(j, p, k) + start[lo + |Blocks(j, p, k)|..]
  }

  /** One iteration of the axis loop: the block of value k lands at `at`, right after the blocks before it. */
  method AssignRow(dst: array<int>, j: Job, p: seq<nat>, k: nat, lo: nat, at: nat, ghost start: seq<int>)
    requires Written(j, p, k, lo, start, dst[..]) && k < j.shape[|p|].runtime
    requires at == lo + k * Size(j.shape[|p| + 1..]) && dst.Length == |start|
    modifies dst
    ensures Written(j, p, k + 1, lo, start, dst[..])
    decreases |j.shape| - |p|, 0
  {
    ghost var done, blk := NextBlock(j, p, k);
    ghost var before := dst[..];
    AssignFrom(dst, j, p + [k], at);
    assert dst[..] == before[..lo + |done|] + blk + before[lo + |done| + |blk|..];
    Splice(start, before, dst[..], done, blk, lo);
  }

  /** The blocks up to value k + 1 of axis |p| are those up to k followed by the block of k. */
  lemma NextBlock(j: Job, p: seq<nat>, k: nat) returns (done: seq<int>, blk: seq<int>)
    requires Typed(j) && Checked(j) && Prefix(j, p) && |p| < |j.shape| && k < j.shape[|p|].runtime
    ensures Prefix(j, p + [k]) && |p + [k]| == |p| + 1 && j.shape[|p + [k]|..] == j.shape[|p| + 1..]
    ensures done == Blocks(j, p, k) && blk == Block(j, p + [k]) && Blocks(j, p, k + 1) == done + blk
    ensures |Blocks(j, p, k + 1)| <= |Blocks(j, p, j.shape[|p|].runtime)|
  {
    assert Prefix(j, p + [k]) && |p + [k]| == |p| + 1;
    done, blk := Blocks(j, p, k), Block(j, p + [k]);
    BlocksGrow(j, p, k + 1, j.shape[|p|].runtime);
  }

  /** Fewer blocks take less room. */
  lemma BlocksGrow(j: Job, p: seq<nat>, k: nat, n: nat)
    requires Typed(j) && Checked(j) && Prefix(j, p) && |p| < |j.shape| && k <= n <= j.shape[|p|].runtime
    ensures |Blocks(j, p, k)| <= |Blocks(j, p, n)|
  {
    MulLeft(k, n, Size(j.shape[|p| + 1..]));
  }

  /** The innermost statement of the loop nest: one element of B written into A's storage. */
  method WriteElement(dst: array<int>, j: Job, p: seq<nat>, lo: nat)
    requires Typed(j) && Checked(j) && Prefix(j, p) && |p| == |j.shape| && lo < dst.Length
    modifies dst
    ensures InBounds(j.shape, p)
    ensures dst[..] == old(dst[..])[..lo] + [Element(j, p)] + old(dst[..])[lo + 1..]
  {
    assert InBounds(j.shape, p);
    CheckedReadsInBounds(j, p);
    var v := Evaluate(j.src, SourceIndex(j, p));
    dst[lo] := v;
  }

  /** Writing the next block right after the blocks already written extends them. */
  lemma Splice(start: seq<int>, before: seq<int>, after: seq<int>, done: seq<int>, blk: seq<int>, lo: nat)
    requires lo + |done| + |blk| <= |start|
    requires before == start[..lo] + done + start[lo + |done|..]
    requires after == before[..lo + |done|] + blk + before[lo + |done| + |blk|..]
    ensures after == start[..lo] + (done + blk) + start[lo + |done| + |blk|..]
  {
  }

  /**
   * `execution_traits::assign(a, b)`: the extent check, then the loop nest
   * from the empty prefix. The storage afterwards holds B's value for every
   * tuple of A, in row-major order.
   */
  method Assign(dst: array<int>, j: Job)
    requires Typed(j) && Checked(j) && dst.Length == Size(j.shape)
    modifies dst
    ensures dst[..] == Block(j, [])
  {
    assert j.shape[0..] == j.shape;
    AssignFrom(dst, j, [], 0);
    assert dst[..] == old(dst[..])[..0] + Block(j, []) + old(dst[..])[dst.Length..];
  }

  /** The element at tuple `rest` of a block is B's value at the prefix followed by `rest`. */
  lemma PrefixThenRest(e: Extents, p: seq<nat>, rest: seq<nat>)
    requires |p| <= |e| && (forall k :: 0 <= k < |p| ==> p[k] < e[k].runtime) && InBounds(e[|p|..], rest)
    ensures InBounds(e, p + rest)
  {
    forall k | 0 <= k < |p + rest|
      ensures (p + rest)[k] < e[k].runtime
    {
      if k >= |p| {
        assert (p + rest)[k] == rest[k - |p|];
        assert e[|p|..][k - |p|] == e[k];
      }
    }
  }

  lemma {:induction false} BlockAt(j: Job, p: seq<nat>, rest: seq<nat>)
    requires Typed(j) && Checked(j) && Prefix(j, p) && InBounds(j.shape[|p|..], rest)
    ensures InBounds(j.shape, p + rest)
    ensures Offset(j.shape[|p|..], rest) < |Block(j, p)|
    ensures Block(j, p)[Offset(j.shape[|p|..], rest)] == Element(j, p + rest)
    decreases |j.shape| - |p|
  {
    PrefixThenRest(j.shape, p, rest);
    if |p| == |j.shape| {
      assert rest == [];
      assert p + rest == p;
    } else {
      var p' := p + [rest[0]];
      assert j.shape[|p|..][1..] == j.shape[|p'|..];
      assert Prefix(j, p') && InBounds(j.shape[|p'|..], rest[1..]);
      BlockAt(j, p', rest[1..]);
      assert p' + rest[1..] == p + rest;
      BlockOfBlocks(j, p, rest);
    }
  }

  /** The element at tuple `rest` of a block sits in the sub-block of its first index. */
  lemma BlockOfBlocks(j: Job, p: seq<nat>, rest: seq<nat>)
    requires Typed(j) && Checked(j) && Prefix(j, p) && |p| < |j.shape| && InBounds(j.shape[|p|..], rest)
    requires Prefix(j, p + [rest[0]]) && InBounds(j.shape[|p| + 1..], rest[1..])
    ensures Offset(j.shape[|p|..], rest) < |Block(j, p)|
    ensures Block(j, p)[Offset(j.shape[|p|..], rest)] == Block(j, p + [rest[0]])[Offset(j.shape[|p| + 1..], rest[1..])]
  {
    var e := j.shape[|p|..];
    var o := Offset(j.shape[|p| + 1..], rest[1..]);
    assert Offset(e, rest) == rest[0] * Size(j.shape[|p| + 1..]) + o by {
      assert e[1..] == j.shape[|p| + 1..];
    }
    assert Block(j, p) == Blocks(j, p, j.shape[|p|].runtime);
    BlocksAt(j, p, j.shape[|p|].runtime, rest[0], o);
  }

  /** Within the first `n` blocks, block `k` starts at `k` times the block size. */
  lemma {:induction false} BlocksAt(j: Job, p: seq<nat>, n: nat, k: nat, o: nat)
    requires Typed(j) && Checked(j) && Prefix(j, p) && |p| < |j.shape| && n <= j.shape[|p|].runtime
    requires k < n && o < Size(j.shape[|p| + 1..])
    ensures Prefix(j, p + [k])
    ensures k * Size(j.shape[|p| + 1..]) + o < |Blocks(j, p, n)|
    ensures Blocks(j, p, n)[k * Size(j.shape[|p| + 1..]) + o] == Block(j, p + [k])[o]
    decreases n
  {
    var s := Size(j.shape[|p| + 1..]);
    assert Prefix(j, p + [k]);
    MulLeft(k + 1, n, s);
    if k < n - 1 {
      BlocksAt(j, p, n - 1, k, o);
      MulLeft(k + 1, n - 1, s);
    } else {
      assert |Blocks(j, p, n - 1)| == k * s;
    }
  }

  /**
   * After `Assign`, A's element at every tuple of its extents is the value
   * B supplies for it.
   */
  lemma AssignedElement(j: Job, idx: seq<nat>)
    requires Typed(j) && Checked(j) && InBounds(j.shape, idx)
    ensures Offset(j.shape, idx) < |Block(j, [])| && CheckBounds(j.src, SourceIndex(j, idx))
    ensures Block(j, [])[Offset(j.shape, idx)] == Subscript(j.src, SourceIndex(j, idx))
  {
    CheckedReadsInBounds(j, idx);
    assert j.shape[0..] == j.shape;
    assert [] + idx == idx;
    BlockAt(j, [], idx);
  }

  // ---------------------------------------------------------------------
  // The extent check as the source writes it
  // ---------------------------------------------------------------------

  /**
   * `assert(compatible_extents(extents(a), extents(b)))`: A's extents
   * against B's axis by axis, in B's own order even when the loop nest
   * permutes B's indices.
   */
  predicate PositionalChecked(j: Job)
    requires Typed(j)
  {
    StaticallyCompatible(j.shape, NodeExtents(j.src)) && Compatible(j.shape, NodeExtents(j.src))
  }

  /** Without a permutation the positional check is the check. */
  lemma PositionalCheckWithoutRemap(j: Job)
    requires Typed(j) && !Remaps(j)
    ensures PositionalChecked(j) <==> Checked(j)
  {
  }

  // ---------------------------------------------------------------------
  // Compound assignment
  // ---------------------------------------------------------------------

  /** A's current contents as a tensor: each tuple reads its row-major position. */
  function Snapshot(shape: Extents, s: seq<int>): (n: Node)
    requires WellFormed(shape) && |s| == Size(shape)
    ensures n.Leaf? && Valid(n) && NodeExtents(n) == shape
    ensures forall idx :: InBounds(shape, idx) ==> Eval(n, idx) == s[Offset(shape, idx)]
  {
    Leaf(shape, (idx: seq<nat>) => if InBounds(shape, idx) then s[Offset(shape, idx)] else 0)
  }

  function Zeros(n: nat): (r: seq<nat>)
    ensures |r| == n
  {
    seq(n, _ => 0)
  }

  /**
   * The left-hand side as the operand of `a + b`: the tensor itself, or
   * the bind A is. `a = a + b` on a bind needs the bind's only assignment,
   * from its scalar type, so a bound left-hand side has rank 0.
   */
  function Lhs(shape: Extents, la: Option<seq<char>>, s: seq<int>): (n: Node)
    requires WellFormed(shape) && |s| == Size(shape)
    requires la.Some? ==> |la.value| == |shape| == 0
    ensures Valid(n) && NodeExtents(n) == shape && (IsExpression(n) <==> la.Some?)
    ensures la.Some? ==> NodeOuter(n) == la.value
    ensures forall idx :: InBounds(shape, idx) ==> Eval(n, idx) == s[Offset(shape, idx)]
  {
    match la
    case None => Snapshot(shape, s)
    case Some(l) =>
      BindPlainLabel(Snapshot(shape, s), l, Zeros(|l|));
      Bind(Snapshot(shape, s), l, Zeros(|l|))
  }

  /**
   * `a op b` for `a += b` and `a -= b`: two expressions make a `sum`; a
   * tensor on either side is bound to the expression's outer label first.
   */
  function CompoundSource(op: SumOp, shape: Extents, la: Option<seq<char>>, s: seq<int>, b: Node): Node
    requires WellFormed(shape) && |s| == Size(shape) && Valid(b)
    requires la.Some? ==> |la.value| == |shape| == 0
    requires la.Some? || IsExpression(b)
  {
    var a := Lhs(shape, la, s);
    if la.None? then Binding.TensorOp(op, a, b)
    else if IsExpression(b) then Sum(op, a, b)
    else Binding.ExpressionOp(op, a, b)
  }

  function CompoundJob(op: SumOp, shape: Extents, la: Option<seq<char>>, s: seq<int>, b: Node): Job
    requires WellFormed(shape) && |s| == Size(shape) && Valid(b)
    requires la.Some? ==> |la.value| == |shape| == 0
    requires la.Some? || IsExpression(b)
  {
    Job(shape, la, CompoundSource(op, shape, la, s, b))
  }

  /**
   * `a += b` (op Add) and `a -= b` (op Subtract): `a = a op b`, assigned
   * back into A's storage. Element (i...) of the sum reads only element
   * (i...) of A, so writing A while the sum is read gives the same result
   * as assigning from a snapshot of A.
   */
  method CompoundAssign(dst: array<int>, op: SumOp, shape: Extents, la: Option<seq<char>>, b: Node)
    requires WellFormed(shape) && dst.Length == Size(shape) && Valid(b)
    requires la.Some? ==> |la.value| == |shape| == 0
    requires la.Some? || IsExpression(b)
    requires Typed(CompoundJob(op, shape, la, dst[..], b)) && Checked(CompoundJob(op, shape, la, dst[..], b))
    modifies dst
    ensures dst[..] == Block(CompoundJob(op, shape, la, old(dst[..]), b), [])
  {
    Assign(dst, CompoundJob(op, shape, la, dst[..], b));
  }

  /**
   * After `a op= b`, A's element at each tuple is its old element combined
   * with the value that `a = b` would have written there.
   */
  lemma CompoundElement(op: SumOp, shape: Extents, la: Option<seq<char>>, s: seq<int>, b: Node, idx: seq<nat>)
    requires WellFormed(shape) && |s| == Size(shape) && Valid(b)
    requires la.Some? ==> |la.value| == |shape| == 0
    requires la.Some? || IsExpression(b)
    requires Typed(CompoundJob(op, shape, la, s, b)) && Checked(CompoundJob(op, shape, la, s, b))
    requires Typed(Job(shape, la, b)) && InBounds(shape, idx)
    ensures Offset(shape, idx) < |Block(CompoundJob(op, shape, la, s, b), [])|
    ensures Block(CompoundJob(op, shape, la, s, b), [])[Offset(shape, idx)] ==
            Combine(op, s[Offset(shape, idx)], Eval(b, SourceIndex(Job(shape, la, b), idx)))
  {
    var j := CompoundJob(op, shape, la, s, b);
    var a := Lhs(shape, la, s);
    AssignedElement(j, idx);
    if la.None? {
      Binding.TensorOpElement(op, a, b, idx);
    } else if IsExpression(b) {
      SumElement(j.src, idx);
      Binding.RealignSame(la.value, idx);
    } else {
      Binding.ExpressionOpElement(op, a, b, idx);
      Binding.RealignSame(la.value, idx);
    }
  }

  // ---------------------------------------------------------------------
  // Scalars
  // ---------------------------------------------------------------------

  /** The scalar specialisation: a single write `evaluate(a) = evaluate(b)`. */
  method ScalarAssign(dst: array<int>, v: int)
    requires dst.Length == 1
    modifies dst
    ensures dst[..] == [v]
  {
    dst[0] := v;
  }

  /** `a *= b`, which exists only for scalars: `a = a * b`. */
  method MulAssign(dst: array<int>, v: int)
    requires dst.Length == 1
    modifies dst
    ensures dst[..] == [old(dst[0]) * v]
  {
    dst[0] := dst[0] * v;
  }
}
