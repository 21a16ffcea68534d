/**
 * Index values (`index<str>`): a str together with one slot per str
 * character. The slots under '*' carry the offsets of projected axes; the
 * other slots stay zero.
 */
module Index {
  import opened IndexString
  import IString

  datatype Index = Index(str: seq<char>, slots: seq<nat>)

  /** One slot per character of the str (`_projected[_str.size()]`). */
  predicate Valid(i: Index) {
    |i.slots| == |i.str|
  }

  /** The default constructor: every slot zero-initialised. */
  function Default(str: seq<char>): (i: Index)
    ensures Valid(i) && i.str == str
    ensures forall k :: 0 <= k < |str| ==> Get(i, k) == 0
  {
    Index(str, seq(|str|, _ => 0))
  }

  /** `index(p)`: the integral constructor, whose str the deduction guide makes "*". */
  function Projection(p: nat): (i: Index)
    ensures Valid(i) && i.str == [Star] && Get(i, 0) == p
  {
    Index([Star], [p])
  }

  /** `operator[]`: the slot at k, which must lie inside the str. */
  function Get(i: Index, k: nat): nat
    requires Valid(i) && k < |i.str|
  {
    i.slots[k]
  }

  /** `operator==` between indices of the same str: equal slot by slot. */
  predicate Equal(a: Index, b: Index)
    requires Valid(a) && Valid(b) && a.str == b.str
  {
    forall k :: 0 <= k < |a.str| ==> Get(a, k) == Get(b, k)
  }

  /** Equal indices of one str are the same value. */
  lemma EqualIsIdentity(a: Index, b: Index)
    requires Valid(a) && Valid(b) && a.str == b.str
    ensures Equal(a, b) <==> a == b
  {
    if Equal(a, b) {
      forall k | 0 <= k < |a.slots|
        ensures a.slots[k] == b.slots[k]
      {
        assert Get(a, k) == Get(b, k);
      }
    }
  }

  /** `operator+`: the labels concatenate and the slots of a are copied before those of b. */
  function Plus(a: Index, b: Index): (r: Index)
    requires Valid(a) && Valid(b)
    ensures Valid(r) && r.str == a.str + b.str
    ensures forall k :: 0 <= k < |r.str| ==>
              Get(r, k) == if k < |a.str| then Get(a, k) else Get(b, k - |a.str|)
  {
    Index(a.str + b.str, a.slots + b.slots)
  }

  /** Concatenation of indices is associative. */
  lemma PlusAssociative(a: Index, b: Index, c: Index)
    requires Valid(a) && Valid(b) && Valid(c)
    ensures Plus(Plus(a, b), c) == Plus(a, Plus(b, c))
  {
    assert (a.str + b.str) + c.str == a.str + (b.str + c.str);
    assert (a.slots + b.slots) + c.slots == a.slots + (b.slots + c.slots);
  }

  /**
   * `projection_map()`: one cursor call `index_of('*', p)` per star of the
   * str, giving the positions of the projected slots in order.
   */
  method ProjectionMap(i: Index) returns (m: seq<nat>)
    ensures m == Positions(i.str, Star)
  {
    var n := Count(i.str, Star);
    PositionsMeaning(i.str, Star);
    var out := new nat[n];
    var p := 0;
    var k := 0;
    while k < n
      invariant 0 <= k <= n
      invariant p == k
      invariant out[..k] == Positions(i.str, Star)[..k]
    {
      var pos, next := IndexOfCursor(i.str, Star, p);
      PositionsAreNthIndexOf(i.str, Star, k);
      out[k] := pos;
      p := next;
      k := k + 1;
    }
    m := out[..];
  }

  /** The draft's `projection_map()`: the right-sized `index_of<str, '*'>`. */
  method DraftProjectionMap(i: Index) returns (m: seq<nat>)
    ensures m == Positions(i.str, Star)
  {
    var n := Count(i.str, Star);
    var out := IString.IndexOfSized(i.str, Star, n);
    m := out[..];
    PositionsMeaning(i.str, Star);
    assert out[..] == out[..n];
  }

  /** The projected slots of a concatenation are those of a, then those of b shifted past a. */
  lemma {:induction false} ProjectionsOfPlus(a: seq<char>, b: seq<char>)
    ensures Positions(a + b, Star)
         == Positions(a, Star) + seq(|Positions(b, Star)|, k requires 0 <= k < |Positions(b, Star)| => |a| + Positions(b, Star)[k])
    decreases |b|
  {
    if b == [] {
      assert a + b == a;
    } else {
      var b' := b[..|b| - 1];
      ProjectionsOfPlus(a, b');
      assert (a + b)[..|a + b| - 1] == a + b';
      assert (a + b)[|a + b| - 1] == b[|b| - 1];
    }
  }

  /** A bind argument: an integer (a projected offset) or an index value. */
  datatype Arg = Integral(offset: nat) | Id(index: Index)

  /** `to_istring`: an integer contributes "*", an index its own str. */
  function ArgLabel(a: Arg): seq<char> {
    match a
    case Integral(_) => [Star]
    case Id(i) => i.str
  }

  /** Integers become `index(p)`; indices stay as they are. */
  function ToIndex(a: Arg): (i: Index)
    requires a.Id? ==> Valid(a.index)
    ensures Valid(i) && i.str == ArgLabel(a)
    ensures a.Integral? ==> Get(i, 0) == a.offset
  {
    match a
    case Integral(p) => Projection(p)
    case Id(i) => i
  }

  /** The test suite's concatenations: the projected slot carries 1 and the map finds it. */
  lemma ConcatenationExamples()
    ensures var i, j, p := Default("i"), Default("j"), Projection(1);
            Plus(Plus(i, j), p).slots == [0, 0, 1] && Positions("ij*", Star) == [2]
            && Plus(Plus(i, p), j).slots == [0, 1, 0] && Positions("i*j", Star) == [1]
            && Plus(Plus(p, i), j).slots == [1, 0, 0] && Positions("*ij", Star) == [0]
  {
    assert "ij*"[..2] == "ij" && "ij"[..1] == "i" && "i"[..0] == [];
    assert "i*j"[..2] == "i*" && "i*"[..1] == "i";
    assert "*ij"[..2] == "*i" && "*i"[..1] == "*" && "*"[..0] == [];
  }
}
