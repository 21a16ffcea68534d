/**
 * The C++20-module drafts of the index strings (`cstring`, `istring` and
 * `imap` under modules/index): the same algebra written with explicit loops
 * and output iterators. Each operation here is proved to agree with the
 * header's definition in IndexString.
 */
module IString {
  import opened IndexString
  import CString

  /** The draft's `size()` is `index_of_1('\0')`: the first NUL. */
  lemma SizeIsIndexOfNul(buf: seq<char>)
    requires CString.Terminated(buf)
    ensures CString.Size(buf) == IndexOf(buf, CString.Nul)
  {
  }

  /**
   * `index_of_1_nth(c, n)`: a `find_if` whose predicate bumps a counter on
   * every c and accepts the c at which the counter (before the bump) equals n.
   */
  method IndexOf1Nth(s: seq<char>, c: char, n: nat) returns (pos: nat)
    ensures pos == NthIndexOf(s, c, n)
    ensures pos < |s| <==> n < Count(s, c)
  {
    var i := 0;
    pos := 0;
    while pos < |s| && !(s[pos] == c && i == n)
      invariant 0 <= pos <= |s|
      invariant i <= n
      invariant pos + NthIndexOf(s[pos..], c, n - i) == NthIndexOf(s, c, n)
    {
      assert s[pos..][0] == s[pos] && s[pos..][1..] == s[pos + 1..];
      if s[pos] == c {
        i := i + 1;
      }
      pos := pos + 1;
    }
    NthIndexOfMeaning(s, c, n);
  }

  /**
   * `index_of(c, o)`: walk the string and write the position of every c
   * through the output iterator, here an array written from `at` on.
   */
  method WritePositions(s: seq<char>, c: char, out: array<nat>, at: nat) returns (end: nat)
    requires at + Count(s, c) <= out.Length
    modifies out
    ensures end == at + Count(s, c)
    ensures out[..at] == old(out[..at])
    ensures out[at..end] == Positions(s, c)
    ensures out[end..] == old(out[end..])
  {
    end := at;
    var i: nat := 0;
    ghost var start := out[..];
    while i < |s|
      invariant 0 <= i <= |s|
      invariant end == at + Count(s[..i], c) <= at + Count(s, c)
      invariant |Positions(s[..i], c)| == end - at
      invariant out[..] == start[..at] + Positions(s[..i], c) + start[end..]
    {
      CountSnoc(s, i, c);
      CountPrefixMonotone(s, i + 1, |s|, c);
      assert s[..|s|] == s;
      PositionsSnoc(s, i, c);
      if s[i] == c {
        ghost var before := out[..];
        out[end] := i;
        assert out[..] == before[end := i];
        WriteAt(start, before, at, end, Positions(s[..i], c), i);
        end := end + 1;
      }
      i := i + 1;
    }
    assert s[..i] == s;
    Slices(start, out[..], at, end, Positions(s, c));
  }

  /** Writing x at `end` just after the part `p` already written extends that part. */
  lemma WriteAt(o: seq<nat>, b: seq<nat>, at: nat, end: nat, p: seq<nat>, x: nat)
    requires at <= end < |o| && |p| == end - at
    requires b == o[..at] + p + o[end..]
    ensures b[end := x] == o[..at] + (p + [x]) + o[end + 1..]
  {
    assert b[end := x] == o[..at] + (p + [x]) + o[end + 1..] by {
      assert |b| == |o|;
    }
  }

  /** A written part framed by the untouched head and tail splits back into its three slices. */
  lemma Slices(o: seq<nat>, b: seq<nat>, at: nat, end: nat, p: seq<nat>)
    requires at <= end <= |o| && |p| == end - at
    requires b == o[..at] + p + o[end..]
    ensures b[..at] == o[..at] && b[at..end] == p && b[end..] == o[end..]
  {
  }

  lemma PositionsSnoc(s: seq<char>, i: nat, c: char)
    requires i < |s|
    ensures Positions(s[..i + 1], c) == Positions(s[..i], c) + (if s[i] == c then [i] else [])
  {
    assert s[..i + 1][..i] == s[..i];
  }

  /**
   * `index_of<M>(c)`: an array of M entries receives the positions of c;
   * the entries after them are left as they were (uninitialised in the
   * source). The string must not hold more than M c's.
   */
  method IndexOfSized(s: seq<char>, c: char, m: nat) returns (out: array<nat>)
    requires Count(s, c) <= m
    ensures out.Length == m
    ensures out[..Count(s, c)] == Positions(s, c)
  {
    out := new nat[m];
    var end := WritePositions(s, c, out, 0);
  }

  /** The newer `index_of_2(c)`: asserts that c occurs twice and returns both positions. */
  method IndexOf2(s: seq<char>, c: char) returns (first: nat, second: nat)
    requires Count(s, c) == 2
    ensures Positions(s, c) == [first, second]
    ensures first < second < |s| && s[first] == c && s[second] == c
    ensures IsContractedChar(s, c) ==> (first, second) == Offsets(s, c)
  {
    var out := IndexOfSized(s, c, 2);
    assert out[..2] == [out[0], out[1]];
    first, second := out[0], out[1];
    PositionsMeaning(s, c);
    PositionsIncrease(s, c, 0, 1);
  }

  /**
   * The older `index_of_2(c)`: the first c, then the next c searched from
   * the position after it, each reported as a distance from the start (the
   * size when not found). The first search must succeed: the second starts
   * one past it.
   */
  function IndexOf2Legacy(s: seq<char>, c: char): (r: (nat, nat))
    requires c in s
  {
    var i := IndexOf(s, c);
    (i, i + 1 + IndexOf(s[i + 1..], c))
  }

  /**
   * For a character that occurs at least twice the older search finds its
   * first and second occurrences, which for a contracted letter are its two
   * offsets.
   */
  lemma IndexOf2LegacyFindsOffsets(s: seq<char>, c: char)
    requires Count(s, c) >= 2
    ensures c in s && IndexOf2Legacy(s, c) == (NthIndexOf(s, c, 0), NthIndexOf(s, c, 1))
    ensures IsContractedChar(s, c) ==> IndexOf2Legacy(s, c) == Offsets(s, c)
  {
    CountPositive(s, c);
    FirstIsNthIndexOf(s, c);
    SecondIsNthIndexOf(s, c);
    if IsContractedChar(s, c) {
      PositionsAreNthIndexOf(s, c, 0);
      PositionsAreNthIndexOf(s, c, 1);
    }
  }

  /** The second search of the older `index_of_2` finds the first occurrence after the zeroth. */
  lemma SecondIsNthIndexOf(s: seq<char>, c: char)
    requires Count(s, c) >= 2
    ensures c in s && IndexOf2Legacy(s, c).1 == NthIndexOf(s, c, 1)
  {
    CountPositive(s, c);
    var i := IndexOf(s, c);
    var k := NthIndexOf(s, c, 1);
    NthIndexOfMeaning(s, c, 1);
    SecondAfterFirst(s, c, i, k);
    SecondSearch(s, c, i, k);
  }

  /** The first search finds the zeroth occurrence. */
  lemma FirstIsNthIndexOf(s: seq<char>, c: char)
    requires c in s
    ensures IndexOf(s, c) < |s| && IndexOf(s, c) == NthIndexOf(s, c, 0)
  {
    var i := IndexOf(s, c);
    NthIndexOfAt(s, c, i);
    CountPositive(s[..i], c);
  }

  /** A c at k with exactly one c before it comes after the first c. */
  lemma SecondAfterFirst(s: seq<char>, c: char, i: nat, k: nat)
    requires i == IndexOf(s, c) && k < |s| && Count(s[..k], c) == 1
    ensures i < k
  {
    CountPositive(s[..k], c);
  }

  /** The search from one past the first c stops at the c with one c before it. */
  lemma SecondSearch(s: seq<char>, c: char, i: nat, k: nat)
    requires i < k < |s| && s[i] == c && s[k] == c && Count(s[..k], c) == 1
    ensures IndexOf(s[i + 1..], c) == k - i - 1
  {
    var j := IndexOf(s[i + 1..], c);
    assert s[i + 1..][k - i - 1] == c;
    if j < k - i - 1 {
      assert s[..k][i] == c && s[..k][i + 1 + j] == s[i + 1..][j];
      CountTwoPositions(s[..k], i, i + 1 + j);
    }
  }

  /** For a character that occurs once the second offset is the size (the draft test on "i"). */
  lemma IndexOf2LegacySingle(s: seq<char>, c: char)
    requires Count(s, c) == 1
    ensures c in s && IndexOf2Legacy(s, c).0 < |s| && IndexOf2Legacy(s, c).1 == |s|
  {
    var i := IndexOf(s, c);
    var j := IndexOf(s[i + 1..], c);
    if j < |s[i + 1..]| {
      assert s[i + 1 + j] == s[i + 1..][j];
      CountTwoPositions(s, i, i + 1 + j);
    }
  }

  /** Appending one more character to the scanned input is one more `ContractStep`. */
  lemma {:induction false} CopyContractedSnoc(s: seq<char>, rest: seq<char>, x: char, out: seq<char>)
    ensures CopyContracted(s, rest + [x], out) == ContractStep(s, CopyContracted(s, rest, out), x)
    decreases |rest|
  {
    if rest == [] {
      assert [] + [x] == [x];
      assert [x][1..] == [];
    } else {
      assert (rest + [x])[0] == rest[0] && (rest + [x])[1..] == rest[1..] + [x];
      CopyContractedSnoc(s, rest[1..], x, ContractStep(s, out, rest[0]));
    }
  }

  /**
   * The draft's `_contracted(out)`: an explicit loop that appends each
   * contracted character unless the part of the output written by this loop
   * already holds it. Whatever `out` held before is kept in front.
   */
  method AppendContracted(s: seq<char>, out: seq<char>) returns (r: seq<char>)
    ensures r == out + Contracted(s)
  {
    r := out;
    var k := 0;
    while k < |s|
      invariant 0 <= k <= |s|
      invariant r == out + CopyContracted(s, s[..k], [])
    {
      var c := s[k];
      ghost var done := CopyContracted(s, s[..k], []);
      assert r[|out|..] == done;
      if c != Star && Count(s, c) == 2 {
        if Count(r[|out|..], c) == 0 {
          r := r + [c];
        }
      }
      assert r == out + ContractStep(s, done, c);
      assert s[..k + 1] == s[..k] + [c];
      CopyContractedSnoc(s, s[..k], c, []);
      k := k + 1;
    }
    assert s[..k] == s;
  }

  /** The draft's `inner()`: `_contracted` after `_unique` agrees with the header's `inner()`. */
  method DraftInner(s: seq<char>) returns (r: seq<char>)
    ensures r == Inner(s)
  {
    r := AppendContracted(s, Outer(s));
    InnerIsOuterThenContracted(s);
  }

  /** The draft's `all()`: `_projected` after `_contracted` after `_unique` agrees with the header's `all()`. */
  method DraftAll(s: seq<char>) returns (r: seq<char>)
    ensures r == All(s)
  {
    r := DraftInner(s);
    r := r + Projected(s);
  }

  /**
   * The draft `imap<from, to>`: the same loop as the header's `index_map`
   * with the two cases written out, `index_of_1_nth` for stars and
   * `index_of_1` for the rest.
   */
  method DraftIndexMap(from: seq<char>, to: seq<char>) returns (m: seq<nat>)
    requires IsSubsetOf(to, from)
    ensures m == IndexMap(from, to)
  {
    var out := new nat[|to|];
    var p := 0;
    var i := 0;
    while i < |to|
      invariant 0 <= i <= |to|
      invariant p == Count(to[..i], Star)
      invariant out[..i] == IndexMap(from, to)[..i]
    {
      var c := to[i];
      CountSnoc(to, i, Star);
      if c == Star {
        var pos := IndexOf1Nth(from, c, p);
        out[i] := pos;
        p := p + 1;
      } else {
        out[i] := IndexOf(from, c);
      }
      i := i + 1;
    }
    m := out[..];
  }

  /** The draft test: `imap<"i*", "i*">` is the identity. */
  lemma DraftIndexMapExample()
    ensures IsSubsetOf("i*", "i*") && IndexMap("i*", "i*") == [0, 1]
  {
    assert Count("i*", 'i') == 1;
    forall c | c != Star
      ensures Count("i*", c) <= 1
    {
      assert multiset("i*") == multiset{'i', '*'};
    }
    IndexMapIdentity("i*");
  }
}
