/**
 * The scorer of hstrings: how much a candidate looks like English text.
 * Each letter, case folded, contributes the natural log of its frequency
 * in English; everything else contributes nothing; the sum is divided by
 * the candidate's full length. Arithmetic is exact (real), not IEEE double.
 */
module Scorer {
  import opened Ctype

  /** logprob[]: natural log of the English frequency of 'a' .. 'z'. */
  const LogProb: seq<real> := [
    2.1001016443761387,    0.40011750178156913,  1.023170093501251,
    1.4476246162714965,    2.5417594613807832,   0.8011043220650377,
    0.7006191953986464,    1.8073046805635173,   1.9410411719438094,
    -1.8773173575897015,   -0.25877072895736086, 1.3925249108705269,
    0.8779656175524871,    1.9093943457612694,   2.015835918590865,
    0.6570017339235921,    -2.353878387381596,   1.789590451943215,
    1.8448261901647471,    2.203427521460827,    1.01450577937111,
    -0.022245608947319737, 0.8586616190375187,   -1.8971199848858813,
    0.6800619410112898,    -2.6036901857779675]

  /** The smallest table entry, that of 'z'. */
  const MinLogProb: real := -2.6036901857779675

  /** The largest table entry, that of 'e'. */
  const MaxLogProb: real := 2.5417594613807832

  /** MinLogProb and MaxLogProb are the entries of 'z' and 'e', and every entry lies between them. */
  lemma TableExtremes()
    ensures MinLogProb == LogProb[25] && MaxLogProb == LogProb[4]
    ensures forall k :: 0 <= k < |LogProb| ==> MinLogProb <= LogProb[k] <= MaxLogProb
  {
  }

  /**
   * What one character adds to the running score: a letter adds a table
   * entry, anything else nothing; either way the amount lies between the
   * smallest and the largest entry.
   */
  function Weight(c: int): (w: real)
    ensures !IsAlpha(c) ==> w == 0.0
    ensures IsAlpha(c) ==> w in LogProb
    ensures MinLogProb <= w <= MaxLogProb
  {
    if IsAlpha(c) then LogProb[LetterIndex(c)] else 0.0
  }

  /**
   * The running score after a whole candidate, accumulated left to right;
   * over n characters it lies between n times the smallest and n times the
   * largest table entry.
   */
  function LetterSum(s: seq<Byte>): (r: real)
    ensures (|s| as real) * MinLogProb <= r <= (|s| as real) * MaxLogProb
  {
    if s == [] then 0.0 else LetterSum(s[..|s| - 1]) + Weight(s[|s| - 1])
  }

  /**
   * score_candidate's result: the letter sum over the length, 0 for the
   * empty string. Every score lies between the smallest and the largest
   * table entry (0 is in that range).
   */
  function Score(s: seq<Byte>): (r: real)
    ensures s == [] ==> r == 0.0
    ensures MinLogProb <= r <= MaxLogProb
  {
    if s == [] then 0.0
    else
      MeanBounds(s);
      LetterSum(s) / (|s| as real)
  }

  /** The letter sum of a nonempty candidate divided by its full length lies between the smallest and the largest entry. */
  lemma MeanBounds(s: seq<Byte>)
    requires s != []
    ensures MinLogProb <= LetterSum(s) / (|s| as real) <= MaxLogProb
  {
    DivideBounds(LetterSum(s), |s| as real, MinLogProb, MaxLogProb);
  }

  /** A sum between n times lo and n times hi, divided by n, lies between lo and hi. */
  lemma DivideBounds(sum: real, n: real, lo: real, hi: real)
    requires n > 0.0 && n * lo <= sum <= n * hi
    ensures lo <= sum / n <= hi
  {
    assert lo == (n * lo) / n && hi == (n * hi) / n;
  }

  /** The candidate with every letter folded to lower case. */
  function FoldCase(s: seq<Byte>): (t: seq<Byte>)
    ensures |t| == |s|
    ensures forall k :: 0 <= k < |s| ==> t[k] == ToLower(s[k])
  {
    seq(|s|, k requires 0 <= k < |s| => ToLower(s[k]))
  }

  /**
   * score_candidate: walks the NUL-terminated buffer, adding each letter's
   * table entry, and divides by the number of characters walked.
   */
  method ScoreCandidate(candidate: array<Byte>) returns (score: real)
    requires NUL in candidate[..]
    ensures score == Score(CString(candidate[..]))
  {
    ghost var end :| 0 <= end < candidate.Length && candidate[end] == NUL;
    var sum := 0.0;
    var i := 0;
    while candidate[i] != NUL
      invariant 0 <= i <= end
      invariant forall k :: 0 <= k < i ==> candidate[k] != NUL
      invariant sum == LetterSum(candidate[..i])
      decreases end - i
    {
      if IsAlpha(candidate[i]) {
        sum := sum + LogProb[LetterIndex(candidate[i])];
      }
      assert candidate[..i + 1][..i] == candidate[..i];
      i := i + 1;
    }
    CStringOfTerminated(candidate[..], i);
    score := if i == 0 then 0.0 else sum / (i as real);
  }

  /** Upper- and lower-case forms of a character add the same amount. */
  lemma WeightIgnoresCase(c: int)
    ensures Weight(ToLower(c)) == Weight(c)
  {
  }

  /** A candidate with no letters sums to 0. */
  lemma {:induction false} LetterSumNoLetters(s: seq<Byte>)
    requires forall k :: 0 <= k < |s| ==> !IsAlpha(s[k])
    ensures LetterSum(s) == 0.0
  {
    if s != [] {
      LetterSumNoLetters(s[..|s| - 1]);
    }
  }

  /** A candidate without letters scores exactly 0, whatever its length. */
  lemma NoLettersScoreZero(s: seq<Byte>)
    requires forall k :: 0 <= k < |s| ==> !IsAlpha(s[k])
    ensures Score(s) == 0.0
  {
    LetterSumNoLetters(s);
  }

  /** n copies of the byte c. */
  function Repeat(c: Byte, n: nat): (s: seq<Byte>)
    ensures |s| == n && forall k :: 0 <= k < n ==> s[k] == c
  {
    seq(n, _ => c)
  }

  /** n copies of one character sum to n times its weight. */
  lemma LetterSumRepeated(c: Byte, n: nat)
    ensures LetterSum(Repeat(c, n)) == (n as real) * Weight(c)
  {
    LetterSumConstantProduct(Repeat(c, n), c, n);
  }

  /** A candidate of length n made of one character only sums to n times that character's weight. */
  lemma LetterSumConstantProduct(s: seq<Byte>, c: Byte, n: nat)
    requires |s| == n && forall k :: 0 <= k < n ==> s[k] == c
    ensures LetterSum(s) == (n as real) * Weight(c)
  {
    CopiesIsProduct(n, Weight(c));
    LetterSumConstant(s, c, n);
  }

  /** w added to itself n times. */
  function Copies(n: nat, w: real): real
  {
    if n == 0 then 0.0 else Copies(n - 1, w) + w
  }

  /** Adding w to itself n times gives n * w. */
  lemma {:induction false} CopiesIsProduct(n: nat, w: real)
    ensures Copies(n, w) == (n as real) * w
  {
    if n > 0 {
      CopiesIsProduct(n - 1, w);
    }
  }

  /** A candidate of length n made of one character only sums to that character's weight added n times. */
  lemma {:induction false} LetterSumConstant(s: seq<Byte>, c: Byte, n: nat)
    requires |s| == n && forall k :: 0 <= k < n ==> s[k] == c
    ensures LetterSum(s) == Copies(n, Weight(c))
  {
    if n > 0 {
      LetterSumConstant(s[..n - 1], c, n - 1);
    }
  }

  /** A nonempty run of one character scores that character's weight. */
  lemma RepeatedCharScore(c: Byte, n: nat)
    requires n > 0
    ensures Score(Repeat(c, n)) == Weight(c)
  {
    LetterSumRepeated(c, n);
    MeanOfConstant(n as real, Weight(c));
  }

  /** A nonempty run of one letter scores exactly that letter's table entry. */
  lemma RepeatedLetterScore(c: Byte, n: nat)
    requires IsAlpha(c) && n > 0
    ensures Score(Repeat(c, n)) == LogProb[LetterIndex(c)]
  {
    RepeatedCharScore(c, n);
  }

  /** Dividing n copies of w by n gives w back. */
  lemma MeanOfConstant(n: real, w: real)
    requires n > 0.0
    ensures (n * w) / n == w
  {
  }

  /** Folding the case of a candidate does not change its letter sum. */
  lemma {:induction false} LetterSumIgnoresCase(s: seq<Byte>)
    ensures LetterSum(FoldCase(s)) == LetterSum(s)
  {
    if s != [] {
      var n := |s| - 1;
      assert FoldCase(s)[..n] == FoldCase(s[..n]);
      LetterSumIgnoresCase(s[..n]);
      WeightIgnoresCase(s[n]);
    }
  }

  /** Scoring is case-insensitive: "HELLO" and "hello" score alike. */
  lemma ScoreIgnoresCase(s: seq<Byte>)
    ensures Score(FoldCase(s)) == Score(s)
  {
    LetterSumIgnoresCase(s);
  }

  /** "eeee" scores exactly the table entry of 'e'. */
  lemma ScoreOfEeee()
    ensures Score(['e' as int, 'e' as int, 'e' as int, 'e' as int]) == 2.5417594613807832
  {
    assert ['e' as int, 'e' as int, 'e' as int, 'e' as int] == Repeat('e' as int, 4);
    RepeatedLetterScore('e' as int, 4);
  }
}
