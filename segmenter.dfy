/**
 * The segmenter of hstrings: get_candidate pulls bytes from standard
 * input, stores the printable ones in the caller's buffer and stops at
 * the first non-printable byte, at end of input, or when the limit is
 * used up. Standard input is modelled as a byte sequence with a read
 * position, and the global counter total_chars as a field beside it.
 */
module Segmenter {
  import opened Ctype

  /** The length of the longest prefix of s made of printable bytes. */
  function PrintablePrefix(s: seq<Byte>): (p: nat)
    ensures p <= |s|
    ensures forall k :: 0 <= k < p ==> IsPrint(s[k])
    ensures p < |s| ==> !IsPrint(s[p])
  {
    if s == [] || !IsPrint(s[0]) then 0 else 1 + PrintablePrefix(s[1..])
  }

  /**
   * How many bytes a limit lets through: get_candidate's guard limit > 0,
   * with limit decremented once per stored byte, holds before each of the
   * first Room(limit) stores and fails after the last.
   */
  function Room(limit: int): (n: nat)
    ensures limit - n <= 0
    ensures n > 0 ==> limit - (n - 1) > 0
  {
    if limit < 0 then 0 else limit
  }

  /**
   * What one call of get_candidate does, starting at read position pos:
   * the bytes it stores (the terminator goes at index |run|), what it
   * returns, the read position it leaves, and how much it adds to
   * total_chars.
   */
  datatype Candidate = Candidate(run: seq<Byte>, ret: int, next: nat, counted: nat)

  /** A byte run that the stream yields at pos and that the limit cuts, as get_candidate sees it. */
  function NextCandidate(input: seq<Byte>, pos: nat, limit: int): (o: Candidate)
    requires pos <= |input|
    // the run is the next bytes of the stream, all printable, at most limit of them
    ensures |o.run| <= Room(limit) && pos + |o.run| <= |input|
    ensures o.run == input[pos..pos + |o.run|]
    ensures forall k :: 0 <= k < |o.run| ==> IsPrint(o.run[k])
    // below the limit, only a non-printable byte or the end of input stops it
    ensures |o.run| < Room(limit) && pos + |o.run| < |input| ==> !IsPrint(input[pos + |o.run|])
    // EOF is returned exactly when the stream ran out, whatever was stored
    ensures o.ret == EOF <==> pos + |o.run| == |input|
    ensures o.ret == EOF ==> o.next == |input|
    // otherwise the length is returned and the byte after the run is consumed
    ensures o.ret != EOF ==> o.ret == |o.run| && o.next == pos + |o.run| + 1
    // every consumed byte is counted, except the one read after a full buffer
    ensures o.counted + (if o.ret != EOF && |o.run| == Room(limit) then 1 else 0) == o.next - pos
  {
    var s := input[pos..];
    var p := PrintablePrefix(s);
    var i := if p < Room(limit) then p else Room(limit);
    assert s[..i] == input[pos..pos + i];
    if pos + i == |input| then
      Candidate(s[..i], EOF, pos + i, i)
    else
      assert i < Room(limit) ==> s[i] == input[pos + i] && !IsPrint(s[i]);
      Candidate(s[..i], i, pos + i + 1, if i < Room(limit) then i + 1 else i)
  }

  /** The outcome of calling get_candidate until it returns EOF: the runs it returned, and total_chars' growth. */
  datatype ScanResult = ScanResult(runs: seq<seq<Byte>>, total: nat)

  function Scan(input: seq<Byte>, pos: nat, limit: int): (r: ScanResult)
    requires pos <= |input|
    // every returned run consumed at least its delimiter, and nothing is counted twice
    ensures |r.runs| <= |input| - pos && r.total <= |input| - pos
    decreases |input| - pos
  {
    var o := NextCandidate(input, pos, limit);
    if o.ret == EOF then
      ScanResult([], o.counted)
    else
      var rest := Scan(input, o.next, limit);
      ScanResult([o.run] + rest.runs, o.counted + rest.total)
  }

  /** How many runs have exactly length n (for n = the limit: the runs the limit cut). */
  function CountOfLength(runs: seq<seq<Byte>>, n: nat): (k: nat)
    ensures k <= |runs|
    ensures k == 0 <==> forall j :: 0 <= j < |runs| ==> |runs[j]| != n
  {
    if runs == [] then 0
    else (if |runs[0]| == n then 1 else 0) + CountOfLength(runs[1..], n)
  }

  /**
   * Standard input plus the global total_chars. getchar() reads input at
   * pos; once the input is used up it returns EOF and stays there.
   */
  class Session {
    const input: seq<Byte>
    var pos: nat
    var totalChars: nat

    ghost predicate Valid()
      reads this
    {
      pos <= |input|
    }

    constructor (input: seq<Byte>)
      ensures Valid() && this.input == input
      ensures pos == 0 && totalChars == 0
    {
      this.input := input;
      pos := 0;
      totalChars := 0;
    }

    /** getchar: the next byte, or EOF at end of input. */
    method GetChar() returns (c: int)
      requires Valid()
      modifies this`pos
      ensures Valid()
      ensures old(pos) < |input| ==> c == input[old(pos)] && pos == old(pos) + 1
      ensures old(pos) == |input| ==> c == EOF && pos == old(pos)
    {
      if pos < |input| {
        c := input[pos];
        pos := pos + 1;
      } else {
        c := EOF;
      }
    }

    /**
     * get_candidate: fills candidate with the next printable run, writes
     * the terminator after it, and returns its length, or EOF if the
     * stream ran out. The terminator lands at index |run|, which may be
     * limit itself, so the buffer needs more than limit cells.
     */
    method GetCandidate(candidate: array<Byte>, limit: int) returns (r: int)
      requires Valid()
      requires Room(limit) < candidate.Length
      modifies this`pos, this`totalChars, candidate
      ensures Valid()
      ensures var o := NextCandidate(input, old(pos), limit);
        && r == o.ret
        && pos == o.next
        && totalChars == old(totalChars) + o.counted
        && candidate[..|o.run|] == o.run
        && candidate[|o.run|] == NUL
        && candidate[|o.run| + 1..] == old(candidate[|o.run| + 1..])
    {
      var start := pos;
      ghost var before := candidate[..];
      var i := 0;
      var room := limit;
      var c := GetChar();
      while c != EOF && room > 0
        invariant Valid()
        invariant 0 <= i <= Room(limit) && room == limit - i
        invariant start + i <= |input|
        invariant c == EOF <==> start + i == |input|
        invariant c == EOF ==> pos == |input|
        invariant c != EOF ==> c == input[start + i] && pos == start + i + 1
        invariant forall k :: 0 <= k < i ==> candidate[k] == input[start + k] && IsPrint(candidate[k])
        invariant forall k :: i <= k < candidate.Length ==> candidate[k] == before[k]
        invariant totalChars == old(totalChars) + i
        decreases |input| - (start + i)
      {
        totalChars := totalChars + 1;
        if IsPrint(c) {
          candidate[i] := c;
          i := i + 1;
          room := room - 1;
        } else {
          break;
        }
        c := GetChar();
      }
      candidate[i] := NUL;
      r := if c == EOF then EOF else i;
      RunEndsAt(input, start, limit, candidate[..i]);
      SameFrom(candidate[..], before, i + 1);
    }
  }

  /** Two sequences of one length that agree from index j on have the same suffix from j. */
  lemma SameFrom(a: seq<Byte>, b: seq<Byte>, j: nat)
    requires |a| == |b| && j <= |a|
    requires forall k :: j <= k < |a| ==> a[k] == b[k]
    ensures a[j..] == b[j..]
  {
    assert forall k :: 0 <= k < |a| - j ==> a[j..][k] == a[j + k] && b[j..][k] == b[j + k];
  }

  /**
   * A run of i printable bytes at pos that stops at the end of input, at
   * the limit or before a non-printable byte is the run get_candidate stores.
   */
  lemma RunEndsAt(input: seq<Byte>, pos: nat, limit: int, run: seq<Byte>)
    requires pos + |run| <= |input| && |run| <= Room(limit)
    requires forall k :: 0 <= k < |run| ==> run[k] == input[pos + k] && IsPrint(run[k])
    requires pos + |run| == |input| || |run| == Room(limit) || !IsPrint(input[pos + |run|])
    ensures NextCandidate(input, pos, limit).run == run
  {
    var s := input[pos..];
    assert forall k :: 0 <= k < |run| ==> s[k] == run[k];
    PrintablePrefixAt(s, |run|);
    assert run == input[pos..pos + |run|];
  }

  /**
   * Where the printable prefix ends relative to a point i inside it: at
   * least i if the first i bytes are printable, exactly i if byte i is not.
   */
  lemma PrintablePrefixAt(s: seq<Byte>, i: nat)
    requires i <= |s|
    requires forall k :: 0 <= k < i ==> IsPrint(s[k])
    ensures i <= PrintablePrefix(s)
    ensures i < |s| && !IsPrint(s[i]) ==> PrintablePrefix(s) == i
  {
  }

  /** Empty input: the first call returns EOF, so there are no candidates and total_chars stays 0. */
  lemma ScanEmptyInput(limit: int)
    ensures Scan([], 0, limit) == ScanResult([], 0)
  {
  }

  /** Every returned run is printable and no longer than the limit. */
  lemma {:induction false} ScanRunsPrintable(input: seq<Byte>, pos: nat, limit: int)
    requires pos <= |input|
    ensures forall j :: 0 <= j < |Scan(input, pos, limit).runs| ==> |Scan(input, pos, limit).runs[j]| <= Room(limit)
    ensures forall j, k :: 0 <= j < |Scan(input, pos, limit).runs| && 0 <= k < |Scan(input, pos, limit).runs[j]| ==>
      IsPrint(Scan(input, pos, limit).runs[j][k])
    decreases |input| - pos
  {
    var o := NextCandidate(input, pos, limit);
    if o.ret != EOF {
      ScanRunsPrintable(input, o.next, limit);
    }
  }

  /**
   * total_chars grows by the input length less one byte for every run the
   * limit cut: the byte read after a full buffer is neither counted nor stored.
   */
  lemma {:induction false} ScanCountsBytes(input: seq<Byte>, pos: nat, limit: int)
    requires pos <= |input|
    ensures Scan(input, pos, limit).total + CountOfLength(Scan(input, pos, limit).runs, Room(limit)) == |input| - pos
    decreases |input| - pos
  {
    var o := NextCandidate(input, pos, limit);
    if o.ret != EOF {
      var rest := Scan(input, o.next, limit);
      ScanCountsBytes(input, o.next, limit);
      assert ([o.run] + rest.runs)[1..] == rest.runs;
    }
  }

  /** If the limit never cut a run, total_chars grows by exactly the input length. */
  lemma ScanWithoutTruncationCountsAll(input: seq<Byte>, pos: nat, limit: int)
    requires pos <= |input|
    requires forall j :: 0 <= j < |Scan(input, pos, limit).runs| ==> |Scan(input, pos, limit).runs[j]| != Room(limit)
    ensures Scan(input, pos, limit).total == |input| - pos
  {
    ScanCountsBytes(input, pos, limit);
  }

  /** get_candidate only looks at the input from the read position on. */
  lemma NextCandidateFrom(input: seq<Byte>, pos: nat, limit: int)
    requires pos <= |input|
    ensures var o, o' := NextCandidate(input, pos, limit), NextCandidate(input[pos..], 0, limit);
      o == o'.(next := o'.next + pos)
  {
    assert input[pos..][0..] == input[pos..];
  }

  /** Scanning from a read position is scanning what is left of the stream. */
  lemma {:induction false} ScanFrom(input: seq<Byte>, pos: nat, limit: int)
    requires pos <= |input|
    ensures Scan(input, pos, limit) == Scan(input[pos..], 0, limit)
    decreases |input| - pos
  {
    var o, o' := NextCandidate(input, pos, limit), NextCandidate(input[pos..], 0, limit);
    NextCandidateFrom(input, pos, limit);
    if o.ret != EOF {
      var rest, rest' := Scan(input, o.next, limit), Scan(input[pos..], o'.next, limit);
      ScanFrom(input, o.next, limit);
      ScanFrom(input[pos..], o'.next, limit);
      DropDrop(input, pos, o'.next);
      assert input[pos..][o'.next..] == input[o.next..];
      assert rest == rest';
      assert Scan(input, pos, limit) == ScanResult([o.run] + rest.runs, o.counted + rest.total);
      assert Scan(input[pos..], 0, limit) == ScanResult([o'.run] + rest'.runs, o'.counted + rest'.total);
    }
  }

  /** Dropping i and then j elements drops i + j. */
  lemma DropDrop(s: seq<Byte>, i: nat, j: nat)
    requires i + j <= |s|
    ensures s[i..][j..] == s[i + j..]
  {
  }

  /**
   * A non-printable byte ends a run short of the limit: it is consumed and
   * counted, stored in neither neighbour, and the scan resumes after it.
   */
  lemma ScanSplitsAtNonPrintable(run: seq<Byte>, b: Byte, rest: seq<Byte>, limit: int)
    requires forall k :: 0 <= k < |run| ==> IsPrint(run[k])
    requires |run| < Room(limit) && !IsPrint(b)
    ensures var r := Scan(rest, 0, limit);
      Scan(run + [b] + rest, 0, limit) == ScanResult([run] + r.runs, |run| + 1 + r.total)
  {
    var input := run + [b] + rest;
    RunEndsAt(input, 0, limit, run);
    ScanFrom(input, |run| + 1, limit);
    assert input[|run| + 1..] == rest;
  }

  /**
   * A run that fills the limit with input left over is returned with its
   * full length; the byte read next is lost: neither counted nor stored,
   * even when it is printable.
   */
  lemma ScanFullRunLosesByte(run: seq<Byte>, b: Byte, rest: seq<Byte>, limit: int)
    requires forall k :: 0 <= k < |run| ==> IsPrint(run[k])
    requires |run| == Room(limit)
    ensures var r := Scan(rest, 0, limit);
      Scan(run + [b] + rest, 0, limit) == ScanResult([run] + r.runs, |run| + r.total)
  {
    var input := run + [b] + rest;
    RunEndsAt(input, 0, limit, run);
    ScanFrom(input, |run| + 1, limit);
    assert input[|run| + 1..] == rest;
  }

  /**
   * A run cut off by the end of input is never returned, even when it
   * fills the limit; its bytes are still counted.
   */
  lemma ScanDiscardsRunAtEnd(run: seq<Byte>, limit: int)
    requires forall k :: 0 <= k < |run| ==> IsPrint(run[k])
    requires |run| <= Room(limit)
    ensures Scan(run, 0, limit) == ScanResult([], |run|)
  {
    RunEndsAt(run, 0, limit, run);
  }
}
