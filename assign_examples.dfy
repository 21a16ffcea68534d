/**
 * Assignments from the library's usage: the scalar sequence of its
 * assignment tests, and a matrix bound "ij" assigned from a matrix bound
 * "ji", where the extent check compares the wrong axes.
 */
module AssignExamples {
  import opened Wrappers
  import opened IndexString
  import opened Extents
  import opened Tree
  import opened Assignment
  import opened Scenarios

  // ---------------------------------------------------------------------
  // Rank 0
  // ---------------------------------------------------------------------

  /** A scalar bound with the empty label, assigned from a rank-0 expression, needs no permutation and no extents. */
  lemma ScalarJobs(b: Node, op: SumOp, s: seq<int>)
    requires Valid(b) && IsExpression(b) && NodeRank(b) == 0 && |s| == 1
    ensures Typed(Job([], Some([]), b)) && Checked(Job([], Some([]), b))
    ensures SourceIndex(Job([], Some([]), b), []) == []
    ensures Typed(CompoundJob(op, [], Some([]), s, b)) && Checked(CompoundJob(op, [], Some([]), s, b))
  {
    assert NodeOuter(b) == [];
    var a := Lhs([], Some([]), s);
    assert NodeOuter(a) == [];
    SumShape(op, a, b);
    assert NodeOuter(Sum(op, a, b)) == [];
  }

  /** `n = b` for a rank-0 expression b stores b's one element. */
  lemma ScalarAssignment(b: Node)
    requires Valid(b) && IsExpression(b) && NodeRank(b) == 0
    ensures Typed(Job([], Some([]), b)) && Checked(Job([], Some([]), b))
    ensures Block(Job([], Some([]), b), []) == [Eval(b, [])]
  {
    ScalarJobs(b, Add, [0]);
    AssignedElement(Job([], Some([]), b), []);
  }

  /** `n op= b` for a rank-0 expression b combines the stored value with b's one element. */
  lemma ScalarCompound(op: SumOp, s: seq<int>, b: Node)
    requires Valid(b) && IsExpression(b) && NodeRank(b) == 0 && |s| == 1
    ensures Typed(CompoundJob(op, [], Some([]), s, b)) && Checked(CompoundJob(op, [], Some([]), s, b))
    ensures Block(CompoundJob(op, [], Some([]), s, b), []) == [Combine(op, s[0], Eval(b, []))]
  {
    ScalarJobs(b, op, s);
    CompoundElement(op, [], Some([]), s, b, []);
  }

  /** The matrix {{1, 0}, {0, 1}}. */
  function UnitMatrix(idx: seq<nat>): int {
    if idx == [0, 0] || idx == [1, 1] then 1 else 0
  }

  /** `B(i, i)` for the 2×2 identity B: its trace. */
  function UnitTrace(): Node {
    Bind(Leaf([Axis(None, 2), Axis(None, 2)], UnitMatrix), "ii", [0, 0])
  }

  lemma UnitTraceIsTwo()
    ensures Valid(UnitTrace()) && IsExpression(UnitTrace()) && NodeRank(UnitTrace()) == 0
    ensures Eval(UnitTrace(), []) == 2
  {
    TraceIsDiagonalSum(2, UnitMatrix);
    var f := (j: nat) => UnitMatrix([j, j]);
    assert SumRange(0, 2, f) == f(0) + f(1) + SumRange(2, 2, f);
  }

  /**
   * The scalar sequence of the assignment tests: `n = trace(I)` gives 2,
   * `n += trace(I)` gives 4, `n -= trace(I)` gives 2 and `n *= 42` gives 84.
   */
  method ScalarSequence() returns (n: int)
    ensures n == 84
  {
    var m := new int[1];
    StoreTrace(m);
    CompoundTrace(m, Add);
    CompoundTrace(m, Subtract);
    MulAssign(m, 42);
    n := m[0];
  }

  /** `n = trace(I)`. */
  method StoreTrace(m: array<int>)
    requires m.Length == 1
    modifies m
    ensures m[..] == [2]
  {
    var t := UnitTrace();
    UnitTraceIsTwo();
    ScalarAssignment(t);
    Assign(m, Job([], Some([]), t));
  }

  /** `n op= trace(I)`. */
  method CompoundTrace(m: array<int>, op: SumOp)
    requires m.Length == 1
    modifies m
    ensures m[..] == [Combine(op, old(m[0]), 2)]
  {
    var t := UnitTrace();
    UnitTraceIsTwo();
    ScalarCompound(op, m[..], t);
    CompoundAssign(m, op, [], Some([]), t);
  }

  // ---------------------------------------------------------------------
  // A permuted assignment
  // ---------------------------------------------------------------------

  /** A's shape r0×c0 bound "ij", assigned from an r1×c1 tensor bound "ji". */
  lemma TransposeJob(s: seq<char>, t: seq<char>, r0: nat, c0: nat, r1: nat, c1: nat, f: seq<nat> -> int, j: Job)
    requires s == "ij" && t == "ji"
    requires j == Job([Axis(None, r0), Axis(None, c0)], Some(s), Bind(Leaf([Axis(None, r1), Axis(None, c1)], f), t, [0, 0]))
    ensures Typed(j) && Remaps(j) && NodeExtents(j.src) == [Axis(None, r1), Axis(None, c1)]
    ensures SourceExtents(j) == [Axis(None, c1), Axis(None, r1)]
    ensures forall x: nat, y: nat :: SourceIndex(j, [x, y]) == [y, x]
  {
    TransposedBind(r1, c1, f, t);
    TransposeMaps(s, t);
    PlainIJ(s);
    assert s[1..] == "j";
    assert IndexOf(s, 'j') == 1 && IndexOf(s, 'i') == 0;
  }

  /**
   * The positional check passes for a 2×3 A bound "ij" and a 2×3 B bound
   * "ji", yet the loop nest reads B at (2, 0) for A's (0, 2), outside B's
   * first axis of size 2. The check on B's extents in A's order rejects it.
   */
  lemma PositionalCheckAdmitsOutOfBounds(s: seq<char>, t: seq<char>, f: seq<nat> -> int, j: Job)
    requires s == "ij" && t == "ji"
    requires j == Job([Axis(None, 2), Axis(None, 3)], Some(s), Bind(Leaf([Axis(None, 2), Axis(None, 3)], f), t, [0, 0]))
    ensures Typed(j) && PositionalChecked(j) && !Checked(j)
    ensures InBounds(j.shape, [0, 2]) && SourceIndex(j, [0, 2]) == [2, 0] && !CheckBounds(j.src, [2, 0])
  {
    TransposeJob(s, t, 2, 3, 2, 3, f, j);
    TwoAxesCompatible(2, 3, 2, 3);
    TwoAxesCompatible(2, 3, 3, 2);
    assert SourceIndex(j, [0, 2]) == [2, 0];
  }

  /**
   * The positional check rejects a 2×3 A bound "ij" assigned from a 3×2 B
   * bound "ji", an assignment whose every read is inside B; the check on
   * B's extents in A's order accepts it.
   */
  lemma PositionalCheckRejectsTranspose(s: seq<char>, t: seq<char>, f: seq<nat> -> int, j: Job)
    requires s == "ij" && t == "ji"
    requires j == Job([Axis(None, 2), Axis(None, 3)], Some(s), Bind(Leaf([Axis(None, 3), Axis(None, 2)], f), t, [0, 0]))
    ensures Typed(j) && !PositionalChecked(j) && Checked(j)
  {
    TransposeJob(s, t, 2, 3, 3, 2, f, j);
    TwoAxesCompatible(2, 3, 3, 2);
    TwoAxesCompatible(2, 3, 2, 3);
  }

  /** Two plain axes against two plain axes: compatible exactly when the sizes agree in order. */
  lemma TwoAxesCompatible(x0: nat, x1: nat, y0: nat, y1: nat)
    ensures var a, b := [Axis(None, x0), Axis(None, x1)], [Axis(None, y0), Axis(None, y1)];
      StaticallyCompatible(a, b) && (Compatible(a, b) <==> x0 == y0 && x1 == y1)
  {
    var a, b := [Axis(None, x0), Axis(None, x1)], [Axis(None, y0), Axis(None, y1)];
    CompatibleFromMeaning(a, b, 0);
  }
}
