# hstrings in Dafny

hstrings is a `strings`-like scanner. It reads a byte stream and cuts it
into runs of printable ASCII ("candidates"). It scores each returned run
of at least `MIN_LEN` (4) characters by how much its letters look like
English. The score is the sum of the letters' table entries (natural logs
of English letter frequencies) divided by the run's full length:
non-letters add 0 but count in the length. Each such run is printed with
its score. At the end it reports how many bytes it counted. It exits with
1 if some run `get_candidate` returned had exactly `MAX_CANDIDATE_BUFFSIZE`
(2048) bytes, and with 0 otherwise.

The model follows `hstrings.c` component by component:

- `ctype.dfy`, module `Ctype`: `isprint`, `isalpha` and `tolower` in the C
  locale. Also the C-string view of a NUL-terminated buffer (`CString`).
  Bytes are `Byte` (0..255) and `EOF` is -1.
- `scorer.dfy`, module `Scorer`: the 26-entry `logprob` table as exact
  reals. `Score` is the specification of `score_candidate`. The loop method
  `ScoreCandidate` walks a NUL-terminated `array<Byte>` and is proved equal
  to `Score` of the string it holds. Lemmas cover the empty string,
  strings without letters, a repeated letter, case folding and bounds.
- `segmenter.dfy`, module `Segmenter`: standard input and the global
  `total_chars` become the class `Session` (`input`, read position `pos`,
  `totalChars`). `GetChar` is `getchar`. `GetCandidate` is `get_candidate`:
  a loop that fills the caller's array in place. It is proved against
  `NextCandidate`, a closed form of one call: the stored run, the return
  value, the new read position and the growth of `total_chars`. `Scan`
  gives the outcome of calling `get_candidate` until `EOF`, and the lemmas
  about it state the segmentation properties.
- `driver.dfy`, module `Driver`: `main`'s loop as the method `Run`, with
  the loop body as `ReportCandidate`. It prints `Report(runs)` and returns
  `ExitCode(runs)` for the runs `Scan` yields. The module also holds the concrete scenarios and the buffer
  finding below.

The model keeps these edges of the code exactly as they are:

- A run cut off by end of input is thrown away. `get_candidate` returns
  `EOF` whenever `getchar` did, however many bytes it stored. Its bytes are
  still counted (`ScanDiscardsRunAtEnd`).
- When the limit is used up, the loop condition has already read one more
  byte. That byte is neither stored nor counted, even when it is printable
  (`ScanFullRunLosesByte`, `ScanCountsBytes`).
- A run of exactly `MAX_CANDIDATE_BUFFSIZE` bytes that ends the input is
  never returned. So it does not set the exit code
  (`TruncatedAtEndLeavesExitCode`).
- The terminator goes at index `i`, and `i` can equal `limit`, so
  `GetCandidate` requires more than `limit` cells (see Findings).

Some consequences of these edges, each proved about the model:

- A stream that ends inside a run yields no run for it: the call that
  meets the end returns `EOF` at once. An empty stream yields no
  candidate at all (`ScanDiscardsRunAtEnd`, `EmptyInputScenario`).
- For the stream `"abc" 0x00 "Hello, World!" 0x01 "xyz"`, 21 bytes are
  counted (3+1+13+1+3) and the runs returned are `"abc"` and
  `"Hello, World!"` (`HelloWorldScenario`).
- The table entry of 'e' is 2.5417594613807832, and `"eeee"` scores
  exactly that (`ScoreOfEeee`).

## Model

| member | source | states |
|---|---|---|
| `Ctype.IsPrint` | hstrings.c:86-89 | a byte eligible for a candidate is nonzero, 7-bit and not EOF, so it survives the `(char)` cast and never ends the C string |
| `Ctype.IsAlpha` | hstrings.c:97 | every letter is printable |
| `Ctype.ToLower` | hstrings.c:98 | a letter folds to 'a'..'z' (unchanged or moved up by 32); any other value is returned unchanged |
| `Ctype.LetterIndex` | hstrings.c:98 | `tolower(c) - 'a'` of a letter is a valid table index 0..25 |
| `Ctype.CString` | hstrings.c:96 | the bytes before the first NUL: a prefix of the buffer, NUL-free and followed by NUL |
| `Ctype.CStringOfTerminated` | hstrings.c:82 | a buffer with no NUL before index n and NUL at n holds the string of its first n bytes |
| `Scorer.TableExtremes` | hstrings.c:28-37 | the smallest entry is that of 'z', the largest that of 'e', and every entry lies between them |
| `Scorer.Weight` | hstrings.c:97-98 | a letter adds one of the table entries, anything else adds 0; every amount lies between the smallest and the largest entry |
| `Scorer.LetterSum` | hstrings.c:96-100 | the running sum over n characters lies between n times the smallest and n times the largest entry |
| `Scorer.Score` | hstrings.c:91-103 | the empty string scores 0, and every score lies between the smallest and the largest table entry |
| `Scorer.MeanBounds` | hstrings.c:102 | dividing the sum of a nonempty candidate by its length keeps it between the smallest and the largest entry |
| `Scorer.ScoreCandidate` | hstrings.c:91-103 | the loop over the NUL-terminated buffer returns exactly `Score` of the string it holds: the letter sum over the length, 0 for the empty string |
| `Scorer.WeightIgnoresCase` | hstrings.c:97-98 | a character and its lower-case form add the same amount |
| `Scorer.LetterSumNoLetters` | hstrings.c:96-100 | a string without letters sums to 0 |
| `Scorer.NoLettersScoreZero` | hstrings.c:96-102 | a string without letters scores exactly 0, whatever its length |
| `Scorer.LetterSumRepeated` | hstrings.c:96-100 | n copies of a character sum to n times its weight |
| `Scorer.LetterSumConstantProduct` | hstrings.c:96-100 | any run of length n made of one character only sums to n times that character's weight |
| `Scorer.RepeatedCharScore` | hstrings.c:102 | a nonempty run of one character scores that character's weight, since the divisor cancels |
| `Scorer.RepeatedLetterScore` | hstrings.c:96-102 | a nonempty run of one letter scores exactly that letter's table entry |
| `Scorer.LetterSumIgnoresCase` | hstrings.c:97-98 | folding a string's case does not change its letter sum |
| `Scorer.ScoreIgnoresCase` | hstrings.c:96-102 | folding a string's case does not change its score |
| `Scorer.ScoreOfEeee` | hstrings.c:29-30 | "eeee" scores exactly 2.5417594613807832, the entry of 'e' |
| `Segmenter.PrintablePrefix` | hstrings.c:72-79 | the length of the longest printable prefix: all bytes before it are printable, and the byte at it is not |
| `Segmenter.Room` | hstrings.c:72-77 | the number of bytes the guard `limit > 0` admits while `limit` drops by one per stored byte: the guard holds before each of them and fails after the last |
| `Segmenter.NextCandidate` | hstrings.c:67-84 | one call: the run is the next stream bytes, all printable, at most limit of them; short of the limit only a non-printable byte or end of input stops it; EOF is returned exactly when the stream ran out, otherwise the length; the byte after the run is consumed; every consumed byte is counted except the one read after a full buffer |
| `Segmenter.Scan` | hstrings.c:50 | repeated calls return no more runs, and count no more bytes, than the stream holds |
| `Segmenter.Session.constructor` | hstrings.c:21 | reading starts at the first byte with `total_chars` at 0 |
| `Segmenter.Session.GetChar` | hstrings.c:72 | `getchar` yields the byte at the read position and advances, or EOF at the end and stays |
| `Segmenter.Session.GetCandidate` | hstrings.c:67-84 | the loop returns `NextCandidate`'s value, leaves its read position, adds its count to `total_chars`, stores its run in the buffer with NUL right after it, and leaves the rest of the buffer alone; requires more than `limit` cells |
| `Segmenter.RunEndsAt` | hstrings.c:72-80 | a printable run ended by end of input, by the limit or by a non-printable byte is the run stored |
| `Segmenter.ScanEmptyInput` | hstrings.c:72 | empty input gives no candidates and a count of 0 |
| `Segmenter.ScanRunsPrintable` | hstrings.c:74-76 | every returned run is printable and no longer than the limit |
| `Segmenter.ScanCountsBytes` | hstrings.c:72-73 | the count plus the number of runs that filled the limit equals the stream length: one byte is lost per full buffer |
| `Segmenter.ScanWithoutTruncationCountsAll` | hstrings.c:72-73 | if no run filled the limit, the count equals the input length |
| `Segmenter.ScanSplitsAtNonPrintable` | hstrings.c:74-79 | a non-printable byte after a short run ends it; the byte is counted, stored in neither neighbour, and the scan resumes after it |
| `Segmenter.ScanFullRunLosesByte` | hstrings.c:72-76 | a run that fills the limit is returned, and the following byte is lost, neither counted nor stored |
| `Segmenter.ScanDiscardsRunAtEnd` | hstrings.c:83 | a run cut off by end of input, even a full one, is not returned, but its bytes are counted |
| `Driver.Report` | hstrings.c:51-54 | only runs of at least `MIN_LEN` characters are printed, each with its `Score` |
| `Driver.ExitCode` | hstrings.c:55-57 | the exit code is 0 or 1, and it is 1 exactly when some returned run has length `MAX_CANDIDATE_BUFFSIZE` |
| `Driver.ReportKeepsLongRuns` | hstrings.c:51-54 | a run is printed, with its score, exactly when it was returned and has at least `MIN_LEN` characters |
| `Driver.BufferHoldsRun` | hstrings.c:52-53 | after a call, the buffer handed to the scorer and to `%s` holds exactly the returned run |
| `Driver.ReportCandidate` | hstrings.c:51-57 | one pass of main's loop body extends what was printed and returned, `Report` and `ExitCode` of the runs so far, by the new run |
| `Driver.Run` | hstrings.c:43-65 | main prints `Report` and returns `ExitCode` of the runs `Scan` yields, reads the whole stream, and adds `Scan`'s count to `total_chars` |
| `Driver.AsWrittenTerminatorOverflows` | hstrings.c:46 | with main's buffer as declared, 2048 printable bytes and any byte make `get_candidate` return 2048 and write the terminator at index 2048, one past the end of the 2048-cell buffer |
| `Driver.AsWrittenTerminatorOverflowsAtEnd` | hstrings.c:46 | with main's buffer as declared, 2048 printable bytes and then end of input also fill the limit: `get_candidate` returns EOF but still writes the terminator at index 2048, past the end |
| `Driver.TerminatorFitsBuffer` | hstrings.c:82 | with a buffer of `MAX_CANDIDATE_BUFFSIZE + 1` cells every terminator write is in bounds |
| `Driver.HelloWorldScenario` | hstrings.c:50-64 | `"abc" 0x00 "Hello, World!" 0x01 "xyz"` returns "abc" and "Hello, World!", prints only the latter, counts 21 bytes, exits 0 |
| `Driver.HelloWorldReport` | hstrings.c:51-57 | for the runs "abc" and "Hello, World!" main prints only the latter, with its score, and keeps the return value 0 |
| `Driver.TruncatedRunSetsExitCode` | hstrings.c:55-57 | 2048 printable bytes followed by any byte give a 2048-byte first run and exit code 1 |
| `Driver.TruncatedAtEndLeavesExitCode` | hstrings.c:83 | 2048 printable bytes and end of input print nothing, count 2048, exit 0 |
| `Driver.EmptyInputScenario` | hstrings.c:60-64 | empty input prints no candidate, counts 0 bytes, exits 0 |

## Findings

| source | as written | input that shows it | evidently intended | confidence | as-written member | corrected member |
|---|---|---|---|---|---|---|
| hstrings.c:46 | `main` declares `candidate` with `MAX_CANDIDATE_BUFFSIZE` cells and passes the same number as `limit`; `get_candidate` writes `'\0'` at index `i`, and `i` reaches `limit` (line 82). `score_candidate` then reads that cell too | 2048 printable bytes followed by any byte, or 2048 printable bytes that end the input | a buffer of `MAX_CANDIDATE_BUFFSIZE + 1` cells (or a limit one smaller) | high; not executed | `Driver.AsWrittenTerminatorOverflows`, `Driver.AsWrittenTerminatorOverflowsAtEnd` | `Driver.TerminatorFitsBuffer`, `Driver.Run` (allocates `BufferCells` = 2049) |

## Left out

- `printf` output: the `%.3g` formatting of scores, the text of the
  `hstrings: Read` and truncation-warning lines, and write errors. A
  printed line is modelled as a `Line(score, text)` value, and the count
  as `totalChars`.
- IEEE double arithmetic. The table entries are the exact decimal reals
  written in the source, and sums and the division are exact. Rounding
  and summation order are not modelled.
- Locales other than the C locale for `isprint`, `isalpha` and `tolower`.
- Where the table values come from. They are modelled only as 26 fixed
  constants.
- `Segmenter.Session.GetChar`: standard input is a finite byte sequence
  that keeps returning `EOF` once it is used up. Read errors, and a
  terminal that yields bytes again after `EOF`, are not modelled.
- `Segmenter.Session.GetCandidate`: `total_chars` is an unbounded `nat`.
  The 32-bit `int` overflow after 2^31 - 1 bytes is not modelled.
- `Driver.Run`: the model runs main with the corrected 2049-cell buffer.
  The as-written 2048-cell buffer cannot be passed to `GetCandidate`,
  whose requirement states the space the terminator needs. The
  out-of-bounds write is recorded under Findings rather than executed.
