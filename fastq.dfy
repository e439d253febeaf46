/**
 * The FASTQ record reader `fq` and the lock-step pairing of two readers.
 *
 * A file is the sequence of lines `readline()` returns, each with its line
 * terminator; past the end `readline()` returns the empty string. Decoding
 * and decompression happen before this model.
 */
module Fastq {

  /** One FASTQ record: the four lines, terminators included. */
  datatype Record = Record(header: string, sequence: string, separator: string, quality: string)

  /** Two records taken at the same position of the Read 1 and Read 2 files. */
  datatype ReadPair = ReadPair(r1: Record, r2: Record)

  /** `readline()` on a file positioned at line `i`. */
  function ReadLine(lines: seq<string>, i: nat): string {
    if i < |lines| then lines[i] else ""
  }

  /** What `readline()` can produce before the end: never an empty string. */
  predicate IsLineStream(lines: seq<string>) {
    forall i | 0 <= i < |lines| :: lines[i] != ""
  }

  /**
   * The records `fq` yields from line `i` on: it stops only when the first
   * line of a record is empty (the end of the file), and a record cut short
   * by the end of the file is completed with empty lines.
   */
  function RecordsFrom(lines: seq<string>, i: nat): seq<Record>
    decreases |lines| - i
  {
    if ReadLine(lines, i) == "" then []
    else
      [Record(ReadLine(lines, i), ReadLine(lines, i + 1), ReadLine(lines, i + 2), ReadLine(lines, i + 3))]
        + RecordsFrom(lines, i + 4)
  }

  /** The generator `fq` on a whole file. */
  function Records(lines: seq<string>): seq<Record> {
    RecordsFrom(lines, 0)
  }

  /** From line `i` on, `fq` yields one record per four lines, rounding a truncated last record up. */
  lemma {:induction false} RecordCountFrom(lines: seq<string>, i: nat)
    requires IsLineStream(lines)
    ensures |RecordsFrom(lines, i)| == if i < |lines| then (|lines| - i + 3) / 4 else 0
    decreases |lines| - i
  {
    if i < |lines| {
      RecordCountFrom(lines, i + 4);
    }
  }

  /** On a file, `fq` yields `ceil(n / 4)` records for `n` lines. */
  lemma RecordCount(lines: seq<string>)
    requires IsLineStream(lines)
    ensures |Records(lines)| == (|lines| + 3) / 4
  {
    RecordCountFrom(lines, 0);
  }

  /** The `k`-th record is made of lines `4k` to `4k+3`, each empty past the end. */
  lemma {:induction false} RecordAt(lines: seq<string>, i: nat, k: nat)
    requires k < |RecordsFrom(lines, i)|
    ensures RecordsFrom(lines, i)[k] ==
      Record(ReadLine(lines, i + 4 * k), ReadLine(lines, i + 4 * k + 1),
             ReadLine(lines, i + 4 * k + 2), ReadLine(lines, i + 4 * k + 3))
    ensures ReadLine(lines, i + 4 * k) != ""
    decreases k
  {
    if k > 0 {
      RecordAt(lines, i + 4, k - 1);
    }
  }

  /** `fq` stops exactly where the first line of the next record is empty. */
  lemma {:induction false} RecordsStop(lines: seq<string>, i: nat)
    ensures ReadLine(lines, i + 4 * |RecordsFrom(lines, i)|) == ""
    decreases |lines| - i
  {
    if ReadLine(lines, i) != "" {
      RecordsStop(lines, i + 4);
    }
  }

  /** `itertools.izip`: pairs position by position, stopping with the shorter input. */
  function Zip(a: seq<Record>, b: seq<Record>): (z: seq<ReadPair>)
    ensures |z| == if |a| <= |b| then |a| else |b|
    ensures forall k | 0 <= k < |z| :: z[k] == ReadPair(a[k], b[k])
  {
    if a == [] || b == [] then [] else [ReadPair(a[0], b[0])] + Zip(a[1..], b[1..])
  }

  /** The pairs `izip(fq(read1), fq(read2))` yields. */
  function Pairs(read1: seq<string>, read2: seq<string>): seq<ReadPair> {
    Zip(Records(read1), Records(read2))
  }

  /**
   * The test `re.search('.gz$', path)` that chooses gzip decoding. The dot is
   * not escaped, so any character other than a newline before `gz` matches,
   * and `$` also matches before a final newline.
   */
  predicate IsGzipPath(path: string) {
    EndsAnyGz(path) || (|path| > 0 && path[|path| - 1] == '\n' && EndsAnyGz(path[..|path| - 1]))
  }

  predicate EndsAnyGz(s: string) {
    |s| >= 3 && s[|s| - 3] != '\n' && s[|s| - 2] == 'g' && s[|s| - 1] == 'z'
  }

  /** A `.gz` name is read as gzip; so is any name that merely ends in `gz` after some character. */
  lemma GzipNames(stem: string, c: char)
    requires c != '\n'
    ensures IsGzipPath(stem + ".gz")
    ensures IsGzipPath(stem + [c] + "gz")
    ensures !IsGzipPath("gz") && !IsGzipPath(stem + ".fastq")
  {
  }
}
