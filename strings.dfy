/**
 * C strings as the queue stores them: the characters before the terminating
 * NUL, and the byte-wise comparison `strcmp` (ISO C11, section 7.24.4.2) that
 * orders them in `q_sort`.
 */
module Strings {

  /** A C string holds no NUL before its terminator. */
  predicate NulFree(s: seq<char>) {
    forall i :: 0 <= i < |s| ==> s[i] != '\0'
  }

  /**
   * `strcmp` on two NUL-free strings: the first differing character decides,
   * and a proper prefix (whose terminator meets a non-NUL character) is smaller.
   * C promises only the sign of the result, so the model returns -1, 0 or 1.
   */
  function Strcmp(a: seq<char>, b: seq<char>): (r: int)
    ensures -1 <= r <= 1
    ensures r == 0 <==> a == b
  {
    if a == [] then (if b == [] then 0 else -1)
    else if b == [] then 1
    else if a[0] < b[0] then -1
    else if a[0] > b[0] then 1
    else
      var r := Strcmp(a[1..], b[1..]);
      assert a == [a[0]] + a[1..] && b == [b[0]] + b[1..];
      r
  }

  /** The order the sort uses: `strcmp(a, b) <= 0`. */
  predicate Le(a: seq<char>, b: seq<char>) {
    Strcmp(a, b) <= 0
  }

  /** Swapping the arguments of strcmp negates its result. */
  lemma {:induction false} StrcmpSwap(a: seq<char>, b: seq<char>)
    ensures Strcmp(b, a) == -Strcmp(a, b)
  {
    if a != [] && b != [] && a[0] == b[0] {
      StrcmpSwap(a[1..], b[1..]);
    }
  }

  /** Any two strings are comparable. */
  lemma LeTotal(a: seq<char>, b: seq<char>)
    ensures Le(a, b) || Le(b, a)
    ensures !Le(a, b) ==> Le(b, a) && b != a
  {
    StrcmpSwap(a, b);
  }

  /** Two strings each at most the other are equal. */
  lemma LeAntisymmetric(a: seq<char>, b: seq<char>)
    requires Le(a, b) && Le(b, a)
    ensures a == b
  {
    StrcmpSwap(a, b);
  }

  /** The strcmp order is transitive. */
  lemma {:induction false} LeTransitive(a: seq<char>, b: seq<char>, c: seq<char>)
    requires Le(a, b) && Le(b, c)
    ensures Le(a, c)
  {
    if a != [] && b != [] && c != [] && a[0] == b[0] && b[0] == c[0] {
      LeTransitive(a[1..], b[1..], c[1..]);
    }
  }
  // ---------------------------------------------------------------------------
  // The copies into character buffers in q_insert_head, q_insert_tail and
  // q_remove_head

  /** The smaller of two integers. */
  function Min(a: int, b: int): int {
    if a <= b then a else b
  }

  /**
   * The `n` characters `strncpy` writes from the string `s` (ISO C11,
   * section 7.24.2.4): the characters of `s` while they last, then NULs.
   */
  function Padded(s: seq<char>, n: nat): (r: seq<char>)
    ensures |r| == n
  {
    seq(n, i requires 0 <= i < n => if i < |s| then s[i] else '\0')
  }

  /** The string a NUL-terminated buffer holds: its characters before the first NUL. */
  function CString(buf: seq<char>): (r: seq<char>)
    ensures NulFree(r) && |r| <= |buf| && r == buf[..|r|]
  {
    if buf == [] || buf[0] == '\0' then [] else [buf[0]] + CString(buf[1..])
  }

  /**
   * Reading back what `strncpy(dst, s, n)` wrote after a terminating NUL gives
   * the first min(|s|, n) characters of `s`: at most `n` of them, and all of
   * them when `s` is shorter than `n`.
   */
  lemma {:induction false} PaddedReadBack(s: seq<char>, n: nat)
    requires NulFree(s)
    ensures CString(Padded(s, n) + ['\0']) == s[..Min(|s|, n)]
  {
    var buf := Padded(s, n) + ['\0'];
    if n > 0 && s != [] {
      assert buf[0] == s[0] != '\0';
      assert CString(buf) == [s[0]] + CString(buf[1..]);
      assert buf[1..] == Padded(s[1..], n - 1) + ['\0'];
      assert NulFree(s[1..]) by {
        forall i | 0 <= i < |s| - 1 ensures s[1..][i] != '\0' {
          assert s[1..][i] == s[i + 1];
        }
      }
      PaddedReadBack(s[1..], n - 1);
      assert s[..Min(|s|, n)] == [s[0]] + s[1..][..Min(|s| - 1, n - 1)];
    } else {
      assert buf[0] == '\0';
    }
  }

  /** `memset(a, c, n)` (ISO C11, section 7.24.6.1): the first `n` characters become `c`. */
  method Memset(a: array<char>, c: char, n: int)
    requires 0 <= n <= a.Length
    modifies a
    ensures forall i :: 0 <= i < n ==> a[i] == c
    ensures a[n..] == old(a[n..])
  {
    var i := 0;
    while i < n
      invariant 0 <= i <= n
      invariant forall k :: 0 <= k < i ==> a[k] == c
      invariant a[n..] == old(a[n..])
    {
      a[i] := c;
      i := i + 1;
    }
  }

  /**
   * `strncpy(dst, src, n)` (ISO C11, section 7.24.2.4): copies the characters of
   * the string `src` but no more than `n`, and fills the rest of the first `n`
   * characters with NULs. The characters from `n` on are not written.
   */
  method Strncpy(dst: array<char>, src: seq<char>, n: int)
    requires NulFree(src)
    requires 0 <= n <= dst.Length
    modifies dst
    ensures dst[..n] == Padded(src, n)
    ensures dst[n..] == old(dst[n..])
  {
    var i := 0;
    while i < n && i < |src|
      invariant 0 <= i <= n && i <= |src|
      invariant dst[..i] == src[..i]
      invariant dst[n..] == old(dst[n..])
    {
      dst[i] := src[i];
      i := i + 1;
    }
    while i < n
      invariant 0 <= i <= n
      invariant dst[..i] == Padded(src, n)[..i]
      invariant dst[n..] == old(dst[n..])
    {
      dst[i] := '\0';
      i := i + 1;
    }
  }
}
