/** The values threaded through the splitting workflow (the `GraphState` record of
    core.py) and the shape of a read of the source file. */
module GraphState {

  /** A `(line_index, text)` pair: a 0-based line number of the source file and
      that line with surrounding whitespace removed. */
  datatype Candidate = Candidate(line: nat, text: string)

  /** The workflow state. Each stage returns a copy with its own fields replaced. */
  datatype RunState = RunState(
    filepath: string,
    outputDir: string,
    candidates: seq<Candidate>,
    confirmed: seq<Candidate>,
    userConfirmed: bool,
    autoConfirm: bool,
    taskId: string,
    startTime: string)

  /** What opening the source file and reading it as UTF-8 yields: its lines, the
      `FileNotFoundError` case, or any other failure (a decoding error, a
      permission error, a directory instead of a file). */
  datatype ReadResult = Lines(lines: seq<string>) | NotFound | Unreadable

  datatype Option<T> = None | Some(value: T)

  /** Ascending by line index with no index repeated. */
  predicate StrictlyAscending(cs: seq<Candidate>)
  {
    forall i, j :: 0 <= i < j < |cs| ==> cs[i].line < cs[j].line
  }

  /** `a` is obtained from `b` by deleting elements, keeping the order of the rest. */
  predicate IsSubsequence<T(==)>(a: seq<T>, b: seq<T>)
    decreases |b|
  {
    if a == [] then true
    else if b == [] then false
    else (a[0] == b[0] && IsSubsequence(a[1..], b[1..])) || IsSubsequence(a, b[1..])
  }

  /** Deleting elements from an ascending list leaves it ascending. */
  lemma {:induction false} SubsequenceKeepsAscending(a: seq<Candidate>, b: seq<Candidate>)
    requires IsSubsequence(a, b) && StrictlyAscending(b)
    ensures StrictlyAscending(a)
    ensures forall c :: c in a ==> c in b
    decreases |b|
  {
    if a != [] {
      assert b != [];
      if a[0] == b[0] && IsSubsequence(a[1..], b[1..]) {
        SubsequenceKeepsAscending(a[1..], b[1..]);
        forall j | 0 < j < |a| ensures a[0].line < a[j].line {
          assert a[j] == a[1..][j - 1];
          assert a[j] in a[1..];
          var k :| 0 <= k < |b[1..]| && b[1..][k] == a[j];
          assert b[k + 1] == a[j];
        }
        forall c | c in a ensures c in b {
          if c != a[0] {
            assert c in a[1..];
          }
        }
      } else {
        SubsequenceKeepsAscending(a, b[1..]);
      }
    }
  }
}
