/**
 * The index-string algebra: the text of a tensor-expression label and the
 * queries the expression tree is built from. A character that occurs once
 * (and is not '*') names an outer axis, one that occurs exactly twice a
 * contracted pair, and every '*' a projected axis whose fixed offset travels
 * in the index value. A character that occurs three or more times belongs
 * to none of the three classes.
 */
module IndexString {
  /** The label of a projected axis (`projected_index`). */
  const Star: char := '*'

  /** `count(c)`: the number of occurrences of c. */
  function Count(s: seq<char>, c: char): (r: nat)
    ensures r <= |s|
  {
    if s == [] then 0 else (if s[0] == c then 1 else 0) + Count(s[1..], c)
  }

  /** The count is the multiplicity of c in the multiset of s's characters. */
  lemma {:induction false} CountIsMultiplicity(s: seq<char>, c: char)
    ensures Count(s, c) == multiset(s)[c]
  {
    if s != [] {
      CountIsMultiplicity(s[1..], c);
      assert s == [s[0]] + s[1..];
    }
  }

  /** Every count, seen as a multiplicity: the bridge to Dafny's multiset reasoning. */
  lemma CountsAreMultiplicities()
    ensures forall s: seq<char>, c: char {:trigger Count(s, c)} :: Count(s, c) == multiset(s)[c]
  {
    forall s: seq<char>, c: char ensures Count(s, c) == multiset(s)[c] {
      CountIsMultiplicity(s, c);
    }
  }

  lemma CountCons(s: seq<char>, c: char)
    requires s != []
    ensures Count(s, c) == (if s[0] == c then 1 else 0) + Count(s[1..], c)
  {
  }

  /** A character at some position occurs at least once. */
  lemma CountAt(s: seq<char>, i: nat)
    requires i < |s|
    ensures Count(s, s[i]) >= 1
  {
    CountIsMultiplicity(s, s[i]);
    assert s[i] in multiset(s);
  }

  /** A character occurs in s exactly when its count is positive. */
  lemma CountPositive(s: seq<char>, c: char)
    ensures Count(s, c) > 0 <==> c in s
  {
    CountIsMultiplicity(s, c);
  }

  /** Counts add up over a concatenation. */
  lemma CountAppend(a: seq<char>, b: seq<char>, c: char)
    ensures Count(a + b, c) == Count(a, c) + Count(b, c)
  {
    CountIsMultiplicity(a + b, c);
    CountIsMultiplicity(a, c);
    CountIsMultiplicity(b, c);
  }

  lemma CountSnoc(s: seq<char>, k: nat, c: char)
    requires k < |s|
    ensures Count(s[..k + 1], c) == Count(s[..k], c) + (if s[k] == c then 1 else 0)
  {
    CountIsMultiplicity(s[..k + 1], c);
    CountIsMultiplicity(s[..k], c);
    assert s[..k + 1] == s[..k] + [s[k]];
  }

  lemma CountPrefixMonotone(s: seq<char>, i: nat, j: nat, c: char)
    requires i <= j <= |s|
    ensures Count(s[..i], c) <= Count(s[..j], c)
  {
    CountIsMultiplicity(s[..i], c);
    CountIsMultiplicity(s[..j], c);
    assert s[..j] == s[..i] + s[i..j];
  }

  /** Two distinct positions holding the same character make it occur at least twice. */
  lemma CountTwoPositions(s: seq<char>, i: nat, j: nat)
    requires i < j < |s| && s[i] == s[j]
    ensures Count(s, s[i]) >= 2
  {
    CountIsMultiplicity(s, s[i]);
    assert s == s[..i] + [s[i]] + s[i + 1..j] + [s[j]] + s[j + 1..];
  }

  // ---------------------------------------------------------------------
  // Classification of the characters of a label
  // ---------------------------------------------------------------------

  predicate IsOuterChar(s: seq<char>, c: char) {
    c != Star && Count(s, c) == 1
  }

  predicate IsContractedChar(s: seq<char>, c: char) {
    c != Star && Count(s, c) == 2
  }

  /** The two classes copied by a plain `copy_if` over the label. */
  datatype Kind = OuterKind | ProjectedKind

  predicate Keeps(s: seq<char>, k: Kind, c: char) {
    match k
    case OuterKind => IsOuterChar(s, c)
    case ProjectedKind => c == Star
  }

  /** `copy_if` over `rest`, keeping the characters of class k in the label s. */
  function Keep(s: seq<char>, k: Kind, rest: seq<char>): seq<char>
    decreases |rest|
  {
    if rest == [] then []
    else (if Keeps(s, k, rest[0]) then [rest[0]] else []) + Keep(s, k, rest[1..])
  }

  /** `outer()` (`_outer`, the draft's `_unique`): the characters that occur once, in order. */
  function Outer(s: seq<char>): seq<char> {
    Keep(s, OuterKind, s)
  }

  /** `projected()`: every '*', in order. */
  function Projected(s: seq<char>): seq<char> {
    Keep(s, ProjectedKind, s)
  }

  /** `count_if` over `rest` of the outer characters of s. */
  function CountOuter(s: seq<char>, rest: seq<char>): nat
    decreases |rest|
  {
    if rest == [] then 0
    else (if IsOuterChar(s, rest[0]) then 1 else 0) + CountOuter(s, rest[1..])
  }

  /** `rank()`: the number of outer characters. */
  function Rank(s: seq<char>): nat {
    CountOuter(s, s)
  }

  /**
   * One step of the header's `_contracted(str, out)`: a contracted character
   * is appended unless the output built so far already holds it.
   */
  function ContractStep(s: seq<char>, out: seq<char>, c: char): seq<char> {
    if IsContractedChar(s, c) && Count(out, c) == 0 then out + [c] else out
  }

  /** `copy_if` of `rest` onto `out`, consulting the whole output for duplicates. */
  function CopyContracted(s: seq<char>, rest: seq<char>, out: seq<char>): seq<char>
    decreases |rest|
  {
    if rest == [] then out
    else CopyContracted(s, rest[1..], ContractStep(s, out, rest[0]))
  }

  /** `contracted()`: each contracted character once. */
  function Contracted(s: seq<char>): seq<char> {
    CopyContracted(s, s, [])
  }

  /** `inner()`: the contracted characters copied after the outer ones into the same buffer. */
  function Inner(s: seq<char>): seq<char> {
    CopyContracted(s, s, Outer(s))
  }

  /** `all()`: the projected characters copied after the inner ones. */
  function All(s: seq<char>): seq<char> {
    Inner(s) + Projected(s)
  }

  // ---------------------------------------------------------------------
  // Facts about the classification
  // ---------------------------------------------------------------------

  lemma {:induction false} KeepCount(s: seq<char>, k: Kind, rest: seq<char>, c: char)
    ensures Count(Keep(s, k, rest), c) == if Keeps(s, k, c) then Count(rest, c) else 0
    decreases |rest|
  {
    CountsAreMultiplicities();
    if rest != [] {
      KeepCount(s, k, rest[1..], c);
      CountCons(rest, c);
    }
  }

  lemma {:induction false} KeepLength(s: seq<char>, rest: seq<char>)
    ensures |Keep(s, ProjectedKind, rest)| == Count(rest, Star)
    ensures |Keep(s, OuterKind, rest)| == CountOuter(s, rest)
    decreases |rest|
  {
    if rest != [] {
      KeepLength(s, rest[1..]);
      CountCons(rest, Star);
    }
  }

  /** Each outer character appears in `outer()` exactly once and nothing else does. */
  lemma OuterCount(s: seq<char>, c: char)
    ensures Count(Outer(s), c) == if IsOuterChar(s, c) then 1 else 0
  {
    KeepCount(s, OuterKind, s, c);
  }

  /** `projected()` holds every '*' of the label and nothing else. */
  lemma ProjectedCount(s: seq<char>, c: char)
    ensures Count(Projected(s), c) == if c == Star then Count(s, Star) else 0
    ensures |Projected(s)| == Count(s, Star)
  {
    KeepCount(s, ProjectedKind, s, c);
    KeepLength(s, s);
  }

  /** `rank()` counts exactly the characters `outer()` lists. */
  lemma RankIsOuterLength(s: seq<char>)
    ensures Rank(s) == |Outer(s)|
  {
    KeepLength(s, s);
  }

  /** Prefixing the output with characters that are not contracted does not change what is appended. */
  lemma {:induction false} CopyContractedPrefix(s: seq<char>, rest: seq<char>, pre: seq<char>, out: seq<char>)
    requires forall c :: IsContractedChar(s, c) ==> Count(pre, c) == 0
    ensures CopyContracted(s, rest, pre + out) == pre + CopyContracted(s, rest, out)
    decreases |rest|
  {
    CountsAreMultiplicities();
    if rest != [] {
      var c := rest[0];
      if IsContractedChar(s, c) && Count(out, c) == 0 {
        assert (pre + out) + [c] == pre + (out + [c]);
      }
      assert ContractStep(s, pre + out, c) == pre + ContractStep(s, out, c);
      CopyContractedPrefix(s, rest[1..], pre, ContractStep(s, out, c));
    }
  }

  /** `inner()` is `outer()` followed by `contracted()`. */
  lemma InnerIsOuterThenContracted(s: seq<char>)
    ensures Inner(s) == Outer(s) + Contracted(s)
  {
    forall c | IsContractedChar(s, c)
      ensures Count(Outer(s), c) == 0
    {
      OuterCount(s, c);
    }
    CopyContractedPrefix(s, s, Outer(s), []);
    assert Outer(s) + [] == Outer(s);
  }

  lemma {:induction false} CopyContractedCount(s: seq<char>, rest: seq<char>, out: seq<char>, c: char)
    ensures Count(CopyContracted(s, rest, out), c)
         == if IsContractedChar(s, c) && Count(out, c) == 0 && c in rest then 1 else Count(out, c)
    decreases |rest|
  {
    CountsAreMultiplicities();
    if rest != [] {
      CopyContractedCount(s, rest[1..], ContractStep(s, out, rest[0]), c);
      assert rest == [rest[0]] + rest[1..];
    }
  }

  /** Each contracted character appears in `contracted()` exactly once and nothing else does. */
  lemma ContractedCount(s: seq<char>, c: char)
    ensures Count(Contracted(s), c) == if IsContractedChar(s, c) then 1 else 0
  {
    CountsAreMultiplicities();
    CopyContractedCount(s, s, [], c);
  }

  /** How often a character appears in `all()`, by class. */
  lemma AllCount(s: seq<char>, c: char)
    ensures Count(All(s), c)
         == if c == Star then Count(s, Star)
            else if Count(s, c) == 1 || Count(s, c) == 2 then 1
            else 0
  {
    CountsAreMultiplicities();
    InnerIsOuterThenContracted(s);
    OuterCount(s, c);
    ContractedCount(s, c);
    ProjectedCount(s, c);
  }

  /** The three classes partition `all()` by length. */
  lemma AllLength(s: seq<char>)
    ensures |All(s)| == |Outer(s)| + |Contracted(s)| + Count(s, Star)
    ensures |Inner(s)| == |Outer(s)| + |Contracted(s)|
  {
    InnerIsOuterThenContracted(s);
    ProjectedCount(s, Star);
  }

  /** A character occurs at most once in s. */
  predicate Distinct(s: seq<char>) {
    forall c :: Count(s, c) <= 1
  }

  /** `outer()`, `contracted()` and `inner()` never repeat a character and never hold '*'. */
  lemma DerivedAreDistinct(s: seq<char>)
    ensures Distinct(Outer(s)) && Star !in Outer(s)
    ensures Distinct(Contracted(s)) && Star !in Contracted(s)
    ensures Distinct(Inner(s)) && Star !in Inner(s)
  {
    CountsAreMultiplicities();
    InnerIsOuterThenContracted(s);
    forall c
      ensures Count(Outer(s), c) <= 1 && Count(Contracted(s), c) <= 1 && Count(Inner(s), c) <= 1
    {
      OuterCount(s, c);
      ContractedCount(s, c);
    }
    OuterCount(s, Star);
    ContractedCount(s, Star);
  }

  // ---------------------------------------------------------------------
  // Lookups
  // ---------------------------------------------------------------------

  /** `index_of(c)` (the draft's `index_of_1`): the first position of c, or the size when absent. */
  function IndexOf(s: seq<char>, c: char): (r: nat)
    ensures r <= |s|
    ensures r < |s| ==> s[r] == c
    ensures forall i :: 0 <= i < r ==> s[i] != c
  {
    if s == [] then 0
    else if s[0] == c then 0
    else 1 + IndexOf(s[1..], c)
  }

  lemma IndexOfPresent(s: seq<char>, c: char)
    ensures IndexOf(s, c) < |s| <==> c in s
  {
  }

  /** The first occurrence in a concatenation lies in the left part when the character is there. */
  lemma IndexOfConcat(a: seq<char>, b: seq<char>, c: char)
    requires c in a
    ensures IndexOf(a + b, c) == IndexOf(a, c)
  {
    var r := IndexOf(a, c);
    var q := IndexOf(a + b, c);
    assert (a + b)[r] == c;
    if q < r {
      assert a[q] == (a + b)[q];
    }
  }

  /**
   * The draft's `index_of_1_nth(c, n)` and the `'*'` branch of the header's
   * `index_of(c, p)`: the position of the n-th (from 0) occurrence of c, or
   * the size when there are not that many.
   */
  function NthIndexOf(s: seq<char>, c: char, n: nat): (r: nat)
    ensures r <= |s|
  {
    if s == [] then 0
    else if s[0] == c && n == 0 then 0
    else 1 + NthIndexOf(s[1..], c, if s[0] == c then n - 1 else n)
  }

  /** The n-th occurrence is found exactly when there are more than n, and it has n before it. */
  lemma {:induction false} NthIndexOfMeaning(s: seq<char>, c: char, n: nat)
    ensures NthIndexOf(s, c, n) < |s| <==> n < Count(s, c)
    ensures NthIndexOf(s, c, n) < |s| ==> s[NthIndexOf(s, c, n)] == c && Count(s[..NthIndexOf(s, c, n)], c) == n
    decreases |s|
  {
    if s != [] {
      CountCons(s, c);
      if !(s[0] == c && n == 0) {
        var n' := if s[0] == c then n - 1 else n;
        NthIndexOfMeaning(s[1..], c, n');
        var r' := NthIndexOf(s[1..], c, n');
        if r' < |s[1..]| {
          assert s[..1 + r'] == [s[0]] + s[1..][..r'];
          CountCons(s[..1 + r'], c);
        }
      }
    }
  }

  /** A position holding c is the n-th occurrence of c, where n counts the c's before it. */
  lemma {:induction false} NthIndexOfAt(s: seq<char>, c: char, k: nat)
    requires k < |s| && s[k] == c
    ensures NthIndexOf(s, c, Count(s[..k], c)) == k
    decreases |s|
  {
    if k > 0 {
      assert s[..k] == [s[0]] + s[1..][..k - 1];
      CountCons(s[..k], c);
      NthIndexOfAt(s[1..], c, k - 1);
    }
  }

  /** The positions of every occurrence of c, in increasing order (the draft's `index_of(c, out)`). */
  function Positions(s: seq<char>, c: char): (r: seq<nat>)
    decreases |s|
  {
    if s == [] then []
    else Positions(s[..|s| - 1], c) + (if s[|s| - 1] == c then [|s| - 1] else [])
  }

  /** Entry n of the positions is the n-th occurrence, and there is one entry per occurrence. */
  lemma {:induction false} PositionsMeaning(s: seq<char>, c: char)
    ensures |Positions(s, c)| == Count(s, c)
    ensures forall n :: 0 <= n < |Positions(s, c)| ==>
              Positions(s, c)[n] < |s| && s[Positions(s, c)[n]] == c && Count(s[..Positions(s, c)[n]], c) == n
    decreases |s|
  {
    CountsAreMultiplicities();
    if s != [] {
      var t := s[..|s| - 1];
      PositionsMeaning(t, c);
      assert s == t + [s[|s| - 1]];
      forall n | 0 <= n < |Positions(t, c)|
        ensures s[..Positions(t, c)[n]] == t[..Positions(t, c)[n]]
      {
      }
    }
  }

  /** The positions agree with the n-th-occurrence search. */
  lemma PositionsAreNthIndexOf(s: seq<char>, c: char, n: nat)
    requires n < Count(s, c)
    ensures n < |Positions(s, c)| && Positions(s, c)[n] == NthIndexOf(s, c, n)
  {
    PositionsMeaning(s, c);
    NthIndexOfAt(s, c, Positions(s, c)[n]);
  }

  /** The positions strictly increase. */
  lemma PositionsIncrease(s: seq<char>, c: char, i: nat, j: nat)
    requires i < j < |Positions(s, c)|
    ensures Positions(s, c)[i] < Positions(s, c)[j]
  {
    PositionsMeaning(s, c);
    var pi, pj := Positions(s, c)[i], Positions(s, c)[j];
    if pj <= pi {
      CountPrefixMonotone(s, pj, pi, c);
    }
  }

  // ---------------------------------------------------------------------
  // Subsets and permutations
  // ---------------------------------------------------------------------

  /** `is_subset_of(b)`: every character of a occurs in b. */
  function IsSubsetOf(a: seq<char>, b: seq<char>): bool
    decreases |a|
  {
    a == [] || (Count(b, a[0]) != 0 && IsSubsetOf(a[1..], b))
  }

  lemma {:induction false} SubsetMeaning(a: seq<char>, b: seq<char>)
    ensures IsSubsetOf(a, b) <==> forall c :: c in a ==> c in b
    decreases |a|
  {
    CountsAreMultiplicities();
    if a != [] {
      SubsetMeaning(a[1..], b);
      assert forall c :: c in a <==> c == a[0] || c in a[1..];
      assert Count(b, a[0]) != 0 <==> a[0] in b;
    }
  }

  /** `is_subset_of` holds exactly when every character counted in a is counted in b. */
  lemma SubsetByCount(a: seq<char>, b: seq<char>)
    ensures IsSubsetOf(a, b) <==> forall c :: Count(a, c) > 0 ==> Count(b, c) > 0
  {
    SubsetMeaning(a, b);
    if IsSubsetOf(a, b) {
      forall c | Count(a, c) > 0
        ensures Count(b, c) > 0
      {
        CountPositive(a, c);
        CountPositive(b, c);
      }
    }
    else {
      var c :| c in a && c !in b;
      CountPositive(a, c);
      CountPositive(b, c);
    }
  }

  /** `is_permutation(a, b)`: each is a subset of the other. */
  function IsPermutation(a: seq<char>, b: seq<char>): bool {
    IsSubsetOf(a, b) && IsSubsetOf(b, a)
  }

  /** Two labels are permutations of each other exactly when they use the same characters. */
  lemma PermutationMeaning(a: seq<char>, b: seq<char>)
    ensures IsPermutation(a, b) <==> forall c :: c in a <==> c in b
  {
    SubsetMeaning(a, b);
    SubsetMeaning(b, a);
  }

  /** The test-suite case `is_permutation("i", "ii")` holds: the relation compares character sets, not multisets. */
  lemma PermutationIgnoresMultiplicity()
    ensures IsPermutation("i", "ii") && multiset("i") != multiset("ii")
  {
    PermutationMeaning("i", "ii");
    assert Count("ii", 'i') == 2;
  }

  lemma PermutationIsEquivalence(a: seq<char>, b: seq<char>, c: seq<char>)
    ensures IsPermutation(a, a)
    ensures IsPermutation(a, b) ==> IsPermutation(b, a)
    ensures IsPermutation(a, b) && IsPermutation(b, c) ==> IsPermutation(a, c)
  {
    PermutationMeaning(a, a);
    PermutationMeaning(a, b);
    PermutationMeaning(b, c);
    PermutationMeaning(a, c);
  }

  /** A label is a subset of its `all()` exactly when no character other than '*' occurs three or more times. */
  lemma LabelWithinAll(s: seq<char>)
    ensures IsSubsetOf(s, All(s)) <==> forall c :: c in s && c != Star ==> Count(s, c) <= 2
  {
    CountsAreMultiplicities();
    SubsetMeaning(s, All(s));
    forall c
      ensures c in All(s) <==> (c in s && (c == Star || Count(s, c) <= 2))
    {
      AllCount(s, c);
    }
  }

  /** The derived labels draw only on the characters of the label. */
  lemma DerivedAreSubsets(s: seq<char>)
    ensures IsSubsetOf(Outer(s), s) && IsSubsetOf(Contracted(s), s) && IsSubsetOf(Inner(s), s)
    ensures IsSubsetOf(All(s), s)
  {
    CountsAreMultiplicities();
    forall c
      ensures Count(Outer(s), c) > 0 ==> Count(s, c) > 0
      ensures Count(Contracted(s), c) > 0 ==> Count(s, c) > 0
      ensures Count(Inner(s), c) > 0 ==> Count(s, c) > 0
      ensures Count(All(s), c) > 0 ==> Count(s, c) > 0
    {
      InnerIsOuterThenContracted(s);
      OuterCount(s, c);
      ContractedCount(s, c);
      AllCount(s, c);
    }
    SubsetByCount(Outer(s), s);
    SubsetByCount(Contracted(s), s);
    SubsetByCount(Inner(s), s);
    SubsetByCount(All(s), s);
  }

  // ---------------------------------------------------------------------
  // Order of the contracted characters
  // ---------------------------------------------------------------------

  /** The characters of `out` are listed in the order of their first occurrence in s. */
  predicate OrderedByFirstOccurrence(s: seq<char>, out: seq<char>) {
    forall i, j :: 0 <= i < j < |out| ==> IndexOf(s, out[i]) < IndexOf(s, out[j])
  }

  /** What the copy has gathered after scanning the first k characters of s. */
  predicate GatheredUpTo(s: seq<char>, k: nat, out: seq<char>) {
    OrderedByFirstOccurrence(s, out) &&
    (forall i :: 0 <= i < |out| ==> IndexOf(s, out[i]) < k) &&
    (forall c :: IsContractedChar(s, c) && IndexOf(s, c) < k ==> c in out)
  }

  /** One step of the copy keeps the output ordered and complete up to the next position. */
  lemma ContractStepGathers(s: seq<char>, k: nat, out: seq<char>)
    requires k < |s| && GatheredUpTo(s, k, out)
    ensures GatheredUpTo(s, k + 1, ContractStep(s, out, s[k]))
  {
    var c := s[k];
    var out' := ContractStep(s, out, c);
    CountPositive(out, c);
    if IsContractedChar(s, c) && Count(out, c) == 0 {
      assert IndexOf(s, c) == k;
    }
    forall d | IsContractedChar(s, d) && IndexOf(s, d) < k + 1
      ensures d in out'
    {
      if IndexOf(s, d) == k {
        assert d == c;
      }
    }
  }

  lemma {:induction false} CopyContractedOrder(s: seq<char>, k: nat, out: seq<char>)
    requires k <= |s| && GatheredUpTo(s, k, out)
    ensures OrderedByFirstOccurrence(s, CopyContracted(s, s[k..], out))
    decreases |s| - k
  {
    if k < |s| {
      assert s[k..][0] == s[k] && s[k..][1..] == s[k + 1..];
      ContractStepGathers(s, k, out);
      CopyContractedOrder(s, k + 1, ContractStep(s, out, s[k]));
    } else {
      assert s[k..] == [];
    }
  }

  /** `contracted()` lists its characters in the order in which they first occur in the label. */
  lemma ContractedInFirstOccurrenceOrder(s: seq<char>)
    ensures OrderedByFirstOccurrence(s, Contracted(s))
  {
    assert s[0..] == s;
    CopyContractedOrder(s, 0, []);
  }

  // ---------------------------------------------------------------------
  // The two offsets of a contracted character
  // ---------------------------------------------------------------------

  /** The two positions of a contracted character: `index_of_2` of the draft, `find_offsets` of the header. */
  function Offsets(s: seq<char>, c: char): (nat, nat)
    requires IsContractedChar(s, c)
  {
    PositionsMeaning(s, c);
    (Positions(s, c)[0], Positions(s, c)[1])
  }

  /** The offsets are the first and the second occurrence and there is no other. */
  lemma OffsetsMeaning(s: seq<char>, c: char)
    requires IsContractedChar(s, c)
    ensures Offsets(s, c).0 < Offsets(s, c).1 < |s|
    ensures s[Offsets(s, c).0] == c && s[Offsets(s, c).1] == c
    ensures forall i :: 0 <= i < |s| && s[i] == c ==> i == Offsets(s, c).0 || i == Offsets(s, c).1
  {
    PositionsMeaning(s, c);
    PositionsIncrease(s, c, 0, 1);
    forall i | 0 <= i < |s| && s[i] == c
      ensures i == Offsets(s, c).0 || i == Offsets(s, c).1
    {
      var n := Count(s[..i], c);
      CountSnoc(s, i, c);
      CountPrefixMonotone(s, i + 1, |s|, c);
      assert s[..|s|] == s;
      NthIndexOfAt(s, c, i);
      PositionsAreNthIndexOf(s, c, n);
    }
  }

  /**
   * `find_offsets(c)`: walk the label with a position counter and an output
   * counter, recording each position that holds c. The label must contain c
   * exactly twice (the source asserts c is not '*', and writes past its
   * two-element output otherwise).
   */
  method FindOffsets(s: seq<char>, c: char) returns (first: nat, second: nat)
    requires IsContractedChar(s, c)
    ensures (first, second) == Offsets(s, c)
    ensures first != second
  {
    PositionsMeaning(s, c);
    var out := new nat[2];
    var i := 0;
    var j := 0;
    while i < |s|
      invariant 0 <= i <= |s|
      invariant j == Count(s[..i], c) && j <= 2
      invariant j >= 1 ==> out[0] == Positions(s, c)[0]
      invariant j >= 2 ==> out[1] == Positions(s, c)[1]
    {
      CountSnoc(s, i, c);
      CountPrefixMonotone(s, i + 1, |s|, c);
      assert s[..|s|] == s;
      if s[i] == c {
        NthIndexOfAt(s, c, i);
        PositionsAreNthIndexOf(s, c, j);
        out[j] := i;
        j := j + 1;
      }
      i := i + 1;
    }
    assert s[..i] == s;
    first, second := out[0], out[1];
    OffsetsMeaning(s, c);
  }

  // ---------------------------------------------------------------------
  // Index maps
  // ---------------------------------------------------------------------

  /**
   * The header's `index_of(c, p)`: for a character other than '*' the first
   * position (p unchanged); for '*' the p-th star, found by a `find_if` whose
   * predicate counts down a copy of p, and p advances by one.
   */
  method IndexOfCursor(s: seq<char>, c: char, p: nat) returns (pos: nat, next: nat)
    ensures c != Star ==> pos == IndexOf(s, c) && next == p
    ensures c == Star ==> pos == NthIndexOf(s, c, p) && next == p + 1
  {
    if c != Star {
      return IndexOf(s, c), p;
    }
    next := p + 1;
    var n := p;
    pos := 0;
    while pos < |s| && !(s[pos] == c && n == 0)
      invariant 0 <= pos <= |s|
      invariant pos + NthIndexOf(s[pos..], c, n) == NthIndexOf(s, c, p)
    {
      assert s[pos..][0] == s[pos] && s[pos..][1..] == s[pos + 1..];
      if s[pos] == c {
        n := n - 1;
      }
      pos := pos + 1;
    }
  }

  /** Entry k of an index map: where `to[k]` sits in `from`, counting stars in order. */
  function MapEntry(from: seq<char>, to: seq<char>, k: nat): nat
    requires k < |to|
  {
    if to[k] == Star then NthIndexOf(from, Star, Count(to[..k], Star))
    else IndexOf(from, to[k])
  }

  /**
   * `index_map<from, to>`: for each character of `to`, its position in
   * `from`; the k-th '*' of `to` maps to the k-th '*' of `from`. The source
   * only requires (by `static_assert`) that `to` is a subset of `from`.
   */
  function IndexMap(from: seq<char>, to: seq<char>): (m: seq<nat>)
    requires IsSubsetOf(to, from)
    ensures |m| == |to|
  {
    seq(|to|, k requires 0 <= k < |to| => MapEntry(from, to, k))
  }

  /**
   * The loop of `index_map`: one cursor call per character of `to`,
   * written into an output array of `to.size()` entries.
   */
  method ComputeIndexMap(from: seq<char>, to: seq<char>) returns (m: seq<nat>)
    requires IsSubsetOf(to, from)
    ensures m == IndexMap(from, to)
  {
    var out := new nat[|to|];
    var p := 0;
    var i := 0;
    while i < |to|
      invariant 0 <= i <= |to|
      invariant p == Count(to[..i], Star)
      invariant out[..i] == IndexMap(from, to)[..i]
    {
      var pos, next := IndexOfCursor(from, to[i], p);
      CountSnoc(to, i, Star);
      out[i] := pos;
      p := next;
      i := i + 1;
    }
    m := out[..];
  }

  /**
   * What an index map needs to stay inside `from`: besides the subset test
   * the source makes, `to` may not hold more stars than `from`.
   */
  predicate IndexMapGuard(from: seq<char>, to: seq<char>) {
    IsSubsetOf(to, from) && Count(to, Star) <= Count(from, Star)
  }

  /** Under the guard every entry is a position of `from` holding the same character, and stars keep their order. */
  lemma IndexMapSound(from: seq<char>, to: seq<char>)
    requires IndexMapGuard(from, to)
    ensures forall k :: 0 <= k < |to| ==>
              IndexMap(from, to)[k] < |from| && from[IndexMap(from, to)[k]] == to[k]
    ensures forall k :: 0 <= k < |to| && to[k] == Star ==>
              Count(from[..IndexMap(from, to)[k]], Star) == Count(to[..k], Star)
  {
    SubsetMeaning(to, from);
    forall k | 0 <= k < |to|
      ensures IndexMap(from, to)[k] < |from| && from[IndexMap(from, to)[k]] == to[k]
      ensures to[k] == Star ==> Count(from[..IndexMap(from, to)[k]], Star) == Count(to[..k], Star)
    {
      if to[k] == Star {
        var n := Count(to[..k], Star);
        CountSnoc(to, k, Star);
        CountPrefixMonotone(to, k + 1, |to|, Star);
        assert to[..|to|] == to;
        NthIndexOfMeaning(from, Star, n);
      } else {
        assert to[k] in to;
      }
    }
  }

  /** The subset test alone admits `to = "**"`, `from = "*"`, whose second entry is one past the end of `from`. */
  lemma IndexMapSubsetGuardAdmitsOverflow()
    ensures IsSubsetOf("**", "*")
    ensures IndexMap("*", "**")[1] == |"*"|
    ensures !IndexMapGuard("*", "**")
  {
    assert Count("*", Star) == 1;
    assert Count("**", Star) == 2;
    assert "**"[..1] == "*";
    assert MapEntry("*", "**", 1) == NthIndexOf("*", Star, 1);
    assert "*"[1..] == [];
  }

  /** A label in which no character other than '*' repeats maps onto itself by the identity. */
  lemma IndexMapIdentity(s: seq<char>)
    requires forall c :: c != Star ==> Count(s, c) <= 1
    ensures IsSubsetOf(s, s)
    ensures forall k :: 0 <= k < |s| ==> IndexMap(s, s)[k] == k
  {
    SubsetMeaning(s, s);
    forall k | 0 <= k < |s|
      ensures IndexMap(s, s)[k] == k
    {
      if s[k] == Star {
        NthIndexOfAt(s, Star, k);
      } else {
        var r := IndexOf(s, s[k]);
        if r < k {
          CountTwoPositions(s, r, k);
        }
      }
    }
  }

  // ---------------------------------------------------------------------
  // Facts the expression tree relies on
  // ---------------------------------------------------------------------

  /** A character is listed by `contracted()` exactly when it is contracted. */
  lemma ContractedMembers(s: seq<char>)
    ensures forall c :: c in Contracted(s) <==> IsContractedChar(s, c)
  {
    CountsAreMultiplicities();
    forall c
      ensures c in Contracted(s) <==> IsContractedChar(s, c)
    {
      ContractedCount(s, c);
    }
  }

  /** The index maps from a label onto its own `outer()` and `inner()` stay inside the label. */
  lemma DerivedGuards(s: seq<char>)
    ensures IndexMapGuard(s, Outer(s)) && IndexMapGuard(s, Inner(s))
  {
    CountsAreMultiplicities();
    DerivedAreSubsets(s);
    DerivedAreDistinct(s);
  }

  /** In a label without repeats, the first position of a character is its only one. */
  lemma IndexOfDistinct(s: seq<char>, i: nat)
    requires Distinct(s) && i < |s|
    ensures IndexOf(s, s[i]) == i
  {
    var r := IndexOf(s, s[i]);
    if r < i {
      CountTwoPositions(s, r, i);
    }
  }

  lemma {:induction false} NthIndexOfAfter(a: seq<char>, b: seq<char>, c: char, n: nat)
    requires c !in a
    ensures NthIndexOf(a + b, c, n) == |a| + NthIndexOf(b, c, n)
    decreases |a|
  {
    if a == [] {
      assert a + b == b;
    } else {
      assert (a + b)[0] == a[0];
      assert (a + b)[1..] == a[1..] + b;
      NthIndexOfAfter(a[1..], b, c, n);
    }
  }

  lemma {:induction false} NthIndexOfStars(b: seq<char>, n: nat)
    requires forall k :: 0 <= k < |b| ==> b[k] == Star
    requires n < |b|
    ensures NthIndexOf(b, Star, n) == n
    decreases |b|
  {
    if n > 0 {
      NthIndexOfStars(b[1..], n - 1);
    }
  }

  /** `all()` ends with its stars: the n-th '*' of `all()` sits n places after `inner()`. */
  lemma AllStarPosition(s: seq<char>, n: nat)
    requires n < Count(s, Star)
    ensures NthIndexOf(All(s), Star, n) == |Inner(s)| + n
  {
    CountsAreMultiplicities();
    DerivedAreDistinct(s);
    ProjectedCount(s, Star);
    forall k | 0 <= k < |Projected(s)|
      ensures Projected(s)[k] == Star
    {
      var c := Projected(s)[k];
      ProjectedCount(s, c);
      assert c in multiset(Projected(s));
    }
    NthIndexOfAfter(Inner(s), Projected(s), Star, n);
    NthIndexOfStars(Projected(s), n);
  }

  /** A letter other than '*' is found in `all()` where it is found in `inner()`. */
  lemma AllLetterPosition(s: seq<char>, c: char)
    requires c != Star && c in s && Count(s, c) <= 2
    ensures c in Inner(s) && IndexOf(All(s), c) == IndexOf(Inner(s), c)
  {
    CountsAreMultiplicities();
    InnerIsOuterThenContracted(s);
    OuterCount(s, c);
    ContractedCount(s, c);
    assert c in multiset(s);
    if Count(s, c) == 1 {
      assert c in multiset(Outer(s));
      assert c in Outer(s);
    } else {
      assert c in multiset(Contracted(s));
      assert c in Contracted(s);
    }
    IndexOfConcat(Inner(s), Projected(s), c);
  }

  lemma {:induction false} KeepEvery(s: seq<char>, k: Kind, rest: seq<char>)
    requires forall c :: c in rest ==> Keeps(s, k, c)
    ensures Keep(s, k, rest) == rest
    decreases |rest|
  {
    if rest != [] {
      KeepEvery(s, k, rest[1..]);
      assert rest == [rest[0]] + rest[1..];
    }
  }

  /** A label of distinct letters and no '*' is its own `outer()`, `inner()` and `all()`. */
  lemma PlainLabel(s: seq<char>)
    requires Distinct(s) && Star !in s
    ensures Outer(s) == s && Contracted(s) == [] && Projected(s) == []
    ensures Inner(s) == s && All(s) == s
  {
    CountsAreMultiplicities();
    KeepEvery(s, OuterKind, s);
    forall c
      ensures multiset(Contracted(s))[c] == multiset{}[c]
    {
      ContractedCount(s, c);
    }
    assert multiset(Contracted(s)) == multiset{};
    ProjectedCount(s, Star);
    InnerIsOuterThenContracted(s);
  }

  /** A label of stars only (the label of integer arguments) is all projected. */
  lemma StarLabel(s: seq<char>)
    requires forall k :: 0 <= k < |s| ==> s[k] == Star
    ensures Outer(s) == [] && Contracted(s) == [] && Inner(s) == []
    ensures Projected(s) == s && All(s) == s
  {
    CountsAreMultiplicities();
    KeepEvery(s, ProjectedKind, s);
    forall c
      ensures multiset(Outer(s))[c] == multiset{}[c]
      ensures multiset(Contracted(s))[c] == multiset{}[c]
    {
      OuterCount(s, c);
      ContractedCount(s, c);
    }
    assert multiset(Outer(s)) == multiset{};
    assert multiset(Contracted(s)) == multiset{};
    InnerIsOuterThenContracted(s);
  }
}
