/**
 * The driver of hstrings (main): asks for candidates until EOF, scores
 * and reports the returned ones of at least MIN_LEN characters, and exits
 * with 1 if some returned candidate had exactly MAX_CANDIDATE_BUFFSIZE
 * characters.
 */
module Driver {
  import opened Ctype
  import opened Scorer
  import opened Segmenter

  const MAX_CANDIDATE_BUFFSIZE: nat := 2 * 1024
  const MIN_LEN: nat := 4

  /** The cells main declares for its candidate buffer: one fewer than get_candidate writes. */
  const AsWrittenBufferCells: nat := MAX_CANDIDATE_BUFFSIZE

  /** The cells the buffer needs: up to MAX_CANDIDATE_BUFFSIZE characters and the terminator. */
  const BufferCells: nat := MAX_CANDIDATE_BUFFSIZE + 1

  /** One reported line, "(score): text"; the number formatting is not modelled. */
  datatype Line = Line(score: real, text: seq<Byte>)

  /** The lines main prints for the runs get_candidate returned, in order. */
  function Report(runs: seq<seq<Byte>>): (lines: seq<Line>)
    ensures |lines| <= |runs|
    ensures forall j :: 0 <= j < |lines| ==> |lines[j].text| >= MIN_LEN && lines[j].score == Score(lines[j].text)
  {
    if runs == [] then []
    else
      var run := runs[|runs| - 1];
      Report(runs[..|runs| - 1]) + (if |run| >= MIN_LEN then [Line(Score(run), run)] else [])
  }

  /** main's return value for the runs get_candidate returned. */
  function ExitCode(runs: seq<seq<Byte>>): (code: int)
    ensures code == 0 || code == 1
    ensures code == 1 <==> exists j :: 0 <= j < |runs| && |runs[j]| == MAX_CANDIDATE_BUFFSIZE
  {
    if runs == [] then 0
    else if |runs[|runs| - 1]| == MAX_CANDIDATE_BUFFSIZE then 1
    else ExitCode(runs[..|runs| - 1])
  }

  /** A run is reported exactly when it has at least MIN_LEN characters. */
  lemma {:induction false} ReportKeepsLongRuns(runs: seq<seq<Byte>>, run: seq<Byte>)
    ensures Line(Score(run), run) in Report(runs) <==> run in runs && |run| >= MIN_LEN
  {
    if runs != [] {
      var init, last := runs[..|runs| - 1], runs[|runs| - 1];
      ReportKeepsLongRuns(init, run);
      assert runs == init + [last];
      if |last| >= MIN_LEN {
        assert Report(runs) == Report(init) + [Line(Score(last), last)];
      } else {
        assert Report(runs) == Report(init);
      }
    }
  }

  /**
   * main: the lines it prints and the value it returns, for the stream
   * from the session's read position on, with a buffer large enough for
   * the terminator. total_chars grows as the scan says.
   */
  method Run(session: Session) returns (lines: seq<Line>, retval: int)
    requires session.Valid()
    modifies session
    ensures session.Valid() && session.pos == |session.input|
    ensures var sc := Scan(session.input, old(session.pos), MAX_CANDIDATE_BUFFSIZE);
      && lines == Report(sc.runs)
      && retval == ExitCode(sc.runs)
      && session.totalChars == old(session.totalChars) + sc.total
  {
    var candidate := new Byte[BufferCells];
    lines, retval := [], 0;
    ghost var input := session.input;
    ghost var sc := Scan(input, session.pos, MAX_CANDIDATE_BUFFSIZE);
    ghost var done: seq<seq<Byte>> := [];
    ghost var doneTotal := 0;
    while true
      invariant session.Valid() && session.input == input
      invariant sc.runs == done + Scan(input, session.pos, MAX_CANDIDATE_BUFFSIZE).runs
      invariant sc.total == doneTotal + Scan(input, session.pos, MAX_CANDIDATE_BUFFSIZE).total
      invariant session.totalChars == old(session.totalChars) + doneTotal
      invariant lines == Report(done) && retval == ExitCode(done)
      decreases |input| - session.pos
    {
      ghost var prev := session.pos;
      ghost var o := NextCandidate(input, prev, MAX_CANDIDATE_BUFFSIZE);
      ScanStep(input, prev);
      var candidateLen := session.GetCandidate(candidate, MAX_CANDIDATE_BUFFSIZE);
      if candidateLen == EOF {
        assert done + [] == done;
        break;
      }
      lines, retval := ReportCandidate(candidate, candidateLen, o.run, done, lines, retval);
      AppendAssoc(done, [o.run], Scan(input, o.next, MAX_CANDIDATE_BUFFSIZE).runs);
      done, doneTotal := done + [o.run], doneTotal + o.counted;
    }
  }

  /**
   * The body of main's loop for a candidate run of candidateLen characters
   * held in the buffer: a run of at least MIN_LEN characters is printed
   * with its score, and one that fills the buffer sets the return value to
   * 1. What was printed and returned for the runs done is extended by run.
   */
  method ReportCandidate(candidate: array<Byte>, candidateLen: nat, ghost run: seq<Byte>, ghost done: seq<seq<Byte>>,
                         lines: seq<Line>, retval: int)
    returns (lines': seq<Line>, retval': int)
    requires candidateLen < candidate.Length && candidate[..candidateLen] == run && candidate[candidateLen] == NUL
    requires forall k :: 0 <= k < |run| ==> IsPrint(run[k])
    requires lines == Report(done) && retval == ExitCode(done)
    ensures lines' == Report(done + [run]) && retval' == ExitCode(done + [run])
  {
    ReportAppend(done, run);
    lines', retval' := lines, retval;
    if candidateLen >= MIN_LEN {
      BufferHoldsRun(candidate[..], run);
      var score := ScoreCandidate(candidate);
      lines' := lines' + [Line(score, candidate[..candidateLen])];
    }
    if candidateLen == MAX_CANDIDATE_BUFFSIZE {
      retval' := 1;
    }
  }

  /** main's bookkeeping for one more returned run. */
  lemma ReportAppend(runs: seq<seq<Byte>>, run: seq<Byte>)
    ensures Report(runs + [run]) == Report(runs) + (if |run| >= MIN_LEN then [Line(Score(run), run)] else [])
    ensures ExitCode(runs + [run]) == if |run| == MAX_CANDIDATE_BUFFSIZE then 1 else ExitCode(runs)
  {
    assert (runs + [run])[..|runs|] == runs;
  }

  /** A buffer holding a printable run and then NUL holds the C string run. */
  lemma BufferHoldsRun(buf: seq<Byte>, run: seq<Byte>)
    requires |run| < |buf| && buf[..|run|] == run && buf[|run|] == NUL
    requires forall k :: 0 <= k < |run| ==> IsPrint(run[k])
    ensures NUL in buf && CString(buf) == run
  {
    CStringOfTerminated(buf, |run|);
  }

  /**
   * Sequence concatenation is associative. Stated on its own because the
   * proof of main's loop runs out of resource when the solver has to find
   * this step itself.
   */
  lemma AppendAssoc<T>(a: seq<T>, b: seq<T>, c: seq<T>)
    ensures a + (b + c) == (a + b) + c
  {
  }

  /** One call of get_candidate, then the rest of the scan. */
  lemma ScanStep(input: seq<Byte>, pos: nat)
    requires pos <= |input|
    ensures var o := NextCandidate(input, pos, MAX_CANDIDATE_BUFFSIZE);
      var sc := Scan(input, pos, MAX_CANDIDATE_BUFFSIZE);
      if o.ret == EOF then sc == ScanResult([], o.counted)
      else
        var rest := Scan(input, o.next, MAX_CANDIDATE_BUFFSIZE);
        pos < o.next && sc.runs == [o.run] + rest.runs && sc.total == o.counted + rest.total
  {
  }

  /**
   * main's buffer of MAX_CANDIDATE_BUFFSIZE cells is one cell short: a run
   * that fills the limit, followed by any byte, puts its terminator at
   * index MAX_CANDIDATE_BUFFSIZE, one past the end.
   */
  lemma AsWrittenTerminatorOverflows(b: Byte)
    ensures var o := NextCandidate(seq(MAX_CANDIDATE_BUFFSIZE, _ => 'a' as int) + [b], 0, MAX_CANDIDATE_BUFFSIZE);
      o.ret == MAX_CANDIDATE_BUFFSIZE && |o.run| == AsWrittenBufferCells
  {
    var run := seq(MAX_CANDIDATE_BUFFSIZE, _ => 'a' as int);
    RunEndsAt(run + [b], 0, MAX_CANDIDATE_BUFFSIZE, run);
  }

  /**
   * The same at the end of input: 2048 printable bytes and then EOF also
   * fill the limit, and the terminator again goes one past the end of
   * main's buffer, although get_candidate returns EOF.
   */
  lemma AsWrittenTerminatorOverflowsAtEnd()
    ensures var o := NextCandidate(seq(MAX_CANDIDATE_BUFFSIZE, _ => 'a' as int), 0, MAX_CANDIDATE_BUFFSIZE);
      o.ret == EOF && |o.run| == AsWrittenBufferCells
  {
    var run := seq(MAX_CANDIDATE_BUFFSIZE, _ => 'a' as int);
    RunEndsAt(run, 0, MAX_CANDIDATE_BUFFSIZE, run);
  }

  /** The terminator index of every call stays inside a buffer of BufferCells cells. */
  lemma TerminatorFitsBuffer(input: seq<Byte>, pos: nat)
    requires pos <= |input|
    ensures |NextCandidate(input, pos, MAX_CANDIDATE_BUFFSIZE).run| < BufferCells
  {
  }

  /** The bytes of an ASCII string: one byte per character, its code. */
  function Ascii(s: string): (b: seq<Byte>)
    requires forall k :: 0 <= k < |s| ==> s[k] as int < 0x80
    ensures |b| == |s|
    ensures forall k :: 0 <= k < |s| ==> b[k] == s[k] as int
  {
    seq(|s|, k requires 0 <= k < |s| => s[k] as int)
  }

  const Abc: seq<Byte> := Ascii("abc")
  const Hello: seq<Byte> := Ascii("Hello, World!")
  const Xyz: seq<Byte> := Ascii("xyz")

  /** The text runs of the example stream: their lengths, and every byte printable. */
  lemma ExampleRunsPrintable()
    ensures |Abc| == 3 && |Hello| == 13 && |Xyz| == 3
    ensures forall k :: 0 <= k < |Abc| ==> IsPrint(Abc[k])
    ensures forall k :: 0 <= k < |Hello| ==> IsPrint(Hello[k])
    ensures forall k :: 0 <= k < |Xyz| ==> IsPrint(Xyz[k])
  {
  }

  /** The part of the stream after the NUL: "Hello, World!" is returned, "xyz" is not. */
  lemma HelloWorldTail()
    ensures Scan(Hello + [1] + Xyz, 0, MAX_CANDIDATE_BUFFSIZE) == ScanResult([Hello], 17)
  {
    ExampleRunsPrintable();
    ScanSplitsAtNonPrintable(Hello, 1, Xyz, MAX_CANDIDATE_BUFFSIZE);
    ScanDiscardsRunAtEnd(Xyz, MAX_CANDIDATE_BUFFSIZE);
  }

  /**
   * "abc" NUL "Hello, World!" 0x01 "xyz": "abc" is returned but too short
   * to print, "xyz" is cut off by the end of input and never returned,
   * all 21 bytes are counted, and nothing was truncated.
   */
  lemma HelloWorldScenario()
    ensures var sc := Scan(Abc + [0] + Hello + [1] + Xyz, 0, MAX_CANDIDATE_BUFFSIZE);
      && sc == ScanResult([Abc, Hello], 21)
      && Report(sc.runs) == [Line(Score(Hello), Hello)]
      && ExitCode(sc.runs) == 0
  {
    ExampleRunsPrintable();
    assert Abc + [0] + Hello + [1] + Xyz == Abc + [0] + (Hello + [1] + Xyz);
    ScanSplitsAtNonPrintable(Abc, 0, Hello + [1] + Xyz, MAX_CANDIDATE_BUFFSIZE);
    HelloWorldTail();
    assert [Abc] + [Hello] == [Abc, Hello];
    HelloWorldReport();
  }

  /** What main prints and returns for the runs "abc" and "Hello, World!". */
  lemma HelloWorldReport()
    ensures Report([Abc, Hello]) == [Line(Score(Hello), Hello)] && ExitCode([Abc, Hello]) == 0
  {
    ReportAppend([], Abc);
    assert [Abc, Hello] == [Abc] + [Hello];
    ReportAppend([Abc], Hello);
  }

  /**
   * MAX_CANDIDATE_BUFFSIZE printable bytes followed by any byte: the full
   * run is returned and main exits with 1; the following byte is lost.
   */
  lemma TruncatedRunSetsExitCode(run: seq<Byte>, b: Byte, rest: seq<Byte>)
    requires |run| == MAX_CANDIDATE_BUFFSIZE
    requires forall k :: 0 <= k < |run| ==> IsPrint(run[k])
    ensures var sc := Scan(run + [b] + rest, 0, MAX_CANDIDATE_BUFFSIZE);
      sc.runs[0] == run && ExitCode(sc.runs) == 1
  {
    ScanFullRunLosesByte(run, b, rest, MAX_CANDIDATE_BUFFSIZE);
  }

  /**
   * MAX_CANDIDATE_BUFFSIZE printable bytes and then end of input: get_candidate
   * returns EOF, so nothing is printed and main exits with 0.
   */
  lemma TruncatedAtEndLeavesExitCode(run: seq<Byte>)
    requires |run| == MAX_CANDIDATE_BUFFSIZE
    requires forall k :: 0 <= k < |run| ==> IsPrint(run[k])
    ensures var sc := Scan(run, 0, MAX_CANDIDATE_BUFFSIZE);
      sc.total == MAX_CANDIDATE_BUFFSIZE && Report(sc.runs) == [] && ExitCode(sc.runs) == 0
  {
    ScanDiscardsRunAtEnd(run, MAX_CANDIDATE_BUFFSIZE);
  }

  /** Empty input: no lines, total_chars 0, exit code 0. */
  lemma EmptyInputScenario()
    ensures var sc := Scan([], 0, MAX_CANDIDATE_BUFFSIZE);
      Report(sc.runs) == [] && sc.total == 0 && ExitCode(sc.runs) == 0
  {
    ScanEmptyInput(MAX_CANDIDATE_BUFFSIZE);
  }
}
