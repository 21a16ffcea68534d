/**
 * Fixed-capacity, NUL-terminated character buffers: the storage behind the
 * index strings (`index_string<N>` and the draft `cstring<N>`). A buffer of
 * capacity N always holds a NUL; the string it denotes is everything before
 * the first NUL.
 */
module CString {
  const Nul: char := 0 as char

  /** The buffer holds a terminating NUL somewhere. */
  predicate Terminated(buf: seq<char>) {
    Nul in buf
  }

  /** `strlen`: the position of the first NUL. */
  function Size(buf: seq<char>): (n: nat)
    requires Terminated(buf)
    ensures n < |buf| && buf[n] == Nul
    ensures forall i :: 0 <= i < n ==> buf[i] != Nul
  {
    if buf[0] == Nul then 0 else 1 + Size(buf[1..])
  }

  /** The string a buffer denotes. */
  function Text(buf: seq<char>): (t: seq<char>)
    requires Terminated(buf)
  {
    buf[..Size(buf)]
  }

  /**
   * `strcmp(a, b) == 0` (and the draft's element-wise `ranges::equal` up to
   * the sentinel): compare position by position until a difference or a NUL.
   */
  function StrEqual(a: seq<char>, b: seq<char>): bool
    requires Terminated(a) && Terminated(b)
    decreases |a|
  {
    if a[0] != b[0] then false
    else if a[0] == Nul then true
    else StrEqual(a[1..], b[1..])
  }

  /** String equality is equality of the denoted strings, whatever lies after the NULs. */
  lemma {:induction false} StrEqualIsTextEquality(a: seq<char>, b: seq<char>)
    requires Terminated(a) && Terminated(b)
    ensures StrEqual(a, b) <==> Text(a) == Text(b)
    decreases |a|
  {
    if a[0] != b[0] {
    } else if a[0] == Nul {
      assert Size(a) == 0 && Size(b) == 0;
    } else {
      StrEqualIsTextEquality(a[1..], b[1..]);
      assert Text(a) == [a[0]] + Text(a[1..]);
      assert Text(b) == [b[0]] + Text(b[1..]);
      if Text(a) == Text(b) {
        assert Text(a[1..]) == Text(a)[1..];
      }
    }
  }

  /**
   * `_strcpy`: copy the characters of `src` before its NUL into `dst`
   * starting at `at`, and return the position just after the last one
   * written. The NUL itself is not copied.
   */
  method StrCpy(src: array<char>, dst: array<char>, at: nat) returns (end: nat)
    requires src != dst
    requires Terminated(src[..]) && at + Size(src[..]) <= dst.Length
    modifies dst
    ensures end == at + Size(src[..])
    ensures dst[..at] == old(dst[..at])
    ensures dst[at..end] == Text(src[..])
    ensures dst[end..] == old(dst[end..])
  {
    var i := 0;
    end := at;
    while src[i] != Nul
      invariant 0 <= i <= Size(src[..])
      invariant end == at + i
      invariant dst[..at] == old(dst[..at])
      invariant dst[at..end] == src[..i]
      invariant dst[end..] == old(dst[end..])
      decreases Size(src[..]) - i
    {
      dst[end] := src[i];
      end := end + 1;
      i := i + 1;
    }
  }

  /** A zero-filled buffer of capacity n: `index_string<n>{}`. */
  method Empty(n: nat) returns (buf: array<char>)
    requires n > 0
    ensures fresh(buf) && buf.Length == n
    ensures forall i :: 0 <= i < n ==> buf[i] == Nul
    ensures Terminated(buf[..]) && Text(buf[..]) == []
  {
    buf := new char[n](_ => Nul);
    assert buf[..][0] == Nul;
  }

  /** Construction from a literal of capacity N: copy it into a zeroed buffer of the same capacity. */
  method FromLiteral(lit: array<char>) returns (buf: array<char>)
    requires Terminated(lit[..])
    ensures fresh(buf) && buf.Length == lit.Length
    ensures Terminated(buf[..]) && Text(buf[..]) == Text(lit[..])
  {
    buf := Empty(lit.Length);
    var end := StrCpy(lit, buf, 0);
    assert buf[..][end] == Nul;
    TextOfPrefix(buf[..], end);
  }

  /**
   * `operator+`: a zeroed buffer of capacity N + M - 1 receives the
   * characters of `a` and then those of `b`; the zeroes left over terminate it.
   */
  method Concat(a: array<char>, b: array<char>) returns (out: array<char>)
    requires Terminated(a[..]) && Terminated(b[..])
    ensures fresh(out) && out.Length == a.Length + b.Length - 1
    ensures Terminated(out[..]) && Text(out[..]) == Text(a[..]) + Text(b[..])
  {
    out := Empty(a.Length + b.Length - 1);
    var mid := StrCpy(a, out, 0);
    var end := StrCpy(b, out, mid);
    assert out[..][end] == Nul;
    assert out[..end] == out[..mid] + out[mid..end];
    TextOfPrefix(out[..], end);
  }

  /** A buffer whose first n characters are not NUL and whose n-th is denotes its first n characters. */
  lemma TextOfPrefix(buf: seq<char>, n: nat)
    requires n < |buf| && buf[n] == Nul
    requires forall i :: 0 <= i < n ==> buf[i] != Nul
    ensures Terminated(buf) && Size(buf) == n && Text(buf) == buf[..n]
  {
    assert buf[n] in buf;
  }
}
