/**
 * The character classes hstrings uses from <ctype.h>, in the C locale,
 * over the values getchar() can yield: a byte 0..255, or EOF.
 */
module Ctype {

  /** A byte as getchar() returns it (an unsigned char widened to int). */
  type Byte = b: int | 0 <= b < 0x100

  /** getchar()'s end-of-input marker. */
  const EOF: int := -1

  /** The NUL byte that terminates a C string. */
  const NUL: Byte := 0

  /**
   * isprint: space through tilde. A printable value is a nonzero 7-bit
   * byte (so never EOF), and storing it in a char neither changes it nor
   * ends the string.
   */
  predicate IsPrint(c: int)
    ensures IsPrint(c) ==> 0 < c < 0x80
  {
    0x20 <= c <= 0x7E
  }

  /** isalpha: an ASCII letter, upper or lower case. */
  predicate IsAlpha(c: int)
    ensures IsAlpha(c) ==> IsPrint(c)
  {
    'A' as int <= c <= 'Z' as int || 'a' as int <= c <= 'z' as int
  }

  /** tolower: upper-case letters move to lower case, everything else is kept. */
  function ToLower(c: int): (r: int)
    ensures IsAlpha(c) ==> 'a' as int <= r <= 'z' as int
    ensures IsAlpha(c) ==> r == c || r == c + ('a' as int - 'A' as int)
    ensures !IsAlpha(c) ==> r == c
  {
    if 'A' as int <= c <= 'Z' as int then c + ('a' as int - 'A' as int) else c
  }

  /** The offset of a letter in the alphabet, after case folding: tolower(c) - 'a'. */
  function LetterIndex(c: int): (k: nat)
    requires IsAlpha(c)
    ensures k < 26
    ensures 'a' as int + k == ToLower(c)
  {
    ToLower(c) - 'a' as int
  }

  /**
   * The C string held by a NUL-terminated buffer: the bytes before the
   * first NUL. It is determined by three facts: it is a prefix of the
   * buffer, it holds no NUL, and a NUL follows it.
   */
  function CString(a: seq<Byte>): (s: seq<Byte>)
    requires NUL in a
    ensures |s| < |a| && a[|s|] == NUL
    ensures s == a[..|s|] && NUL !in s
  {
    if a[0] == NUL then [] else [a[0]] + CString(a[1..])
  }

  /** A buffer whose first n bytes hold no NUL and whose byte n is NUL holds a C string of length n. */
  lemma CStringOfTerminated(a: seq<Byte>, n: nat)
    requires n < |a| && a[n] == NUL
    requires forall k :: 0 <= k < n ==> a[k] != NUL
    ensures CString(a) == a[..n]
  {
    var s := CString(a);
    assert s[..n] == a[..n] by {
      assert |s| >= n;
    }
  }
}
