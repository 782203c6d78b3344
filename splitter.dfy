/** Stage 4: writing one file per confirmed chapter and the run's metadata record
    (`_node_execute_split`, core.py). */
module Splitter {
  import opened PyStr
  import opened GraphState

  /** A chapter file written under `<output_dir>/splitdata/<task_id>/`. */
  datatype ChapterFile = ChapterFile(name: string, lines: seq<string>)

  /** The metadata record written as `<output_dir>/metadata/<task_id>-metadata.json`. */
  datatype Metadata = Metadata(
    sourceFilename: string,
    splitFiles: seq<string>,
    chapterTitles: seq<string>,
    taskId: string,
    startTime: string,
    endTime: string)

  /** The outcome of the stage: aborted before any chapter was written, or the
      chapter files that were written, the metadata record and whether writing
      that record succeeded. */
  datatype SplitResult =
    | Aborted
    | Done(files: seq<ChapterFile>, metadataName: string, metadata: Metadata, metadataWritten: bool)

  /** What the file system and the clock do during the stage: whether both output
      directories could be made, the re-read of the source file, which chapter
      writes succeed (by 0-based chapter number), whether the metadata write
      succeeds, and the end time stamp. */
  datatype SplitIo = SplitIo(
    dirsOk: bool,
    read: ReadResult,
    writeOk: nat -> bool,
    metadataWriteOk: bool,
    endTime: string)

  /** Where chapter `i` ends: at the next chapter's line, or at the end of the file. */
  function SegmentEnd(chapters: seq<Candidate>, i: nat, n: nat): nat
    requires i < |chapters|
  {
    if i + 1 < |chapters| then chapters[i + 1].line else n
  }

  /** `all_lines[start_line:end_line]` for chapter `i`. */
  function Segment(lines: seq<string>, chapters: seq<Candidate>, i: nat): seq<string>
    requires i < |chapters|
  {
    PySlice(lines, chapters[i].line, SegmentEnd(chapters, i, |lines|))
  }

  /** The segments of all chapters, in chapter order. */
  function Segments(lines: seq<string>, chapters: seq<Candidate>): (r: seq<seq<string>>)
    ensures |r| == |chapters|
    ensures forall i :: 0 <= i < |chapters| ==> r[i] == Segment(lines, chapters, i)
  {
    seq(|chapters|, i requires 0 <= i < |chapters| => Segment(lines, chapters, i))
  }

  function Concat(ss: seq<seq<string>>): seq<string>
  {
    if ss == [] then [] else ss[0] + Concat(ss[1..])
  }

  /** Python slices of adjacent ranges glue together. */
  lemma PySliceAdjacent(s: seq<string>, a: nat, b: nat)
    requires a <= b
    ensures PySlice(s, a, b) + PySlice(s, b, |s|) == PySlice(s, a, |s|)
  {
  }

  /** For chapters whose line indices strictly ascend, segment `i` is exactly the
      lines from chapter `i`'s line up to the next chapter's line, the last one
      runs to the end of the file, and each segment opens with its chapter's line. */
  lemma SegmentsExact(lines: seq<string>, chapters: seq<Candidate>)
    requires StrictlyAscending(chapters)
    requires forall c :: c in chapters ==> c.line < |lines|
    ensures forall i :: 0 <= i < |chapters| - 1 ==>
      Segment(lines, chapters, i) == lines[chapters[i].line..chapters[i + 1].line]
    ensures chapters != [] ==>
      Segment(lines, chapters, |chapters| - 1) == lines[chapters[|chapters| - 1].line..]
    ensures forall i :: 0 <= i < |chapters| ==>
      Segment(lines, chapters, i) != [] && Segment(lines, chapters, i)[0] == lines[chapters[i].line]
  {
    forall i | 0 <= i < |chapters|
      ensures Segment(lines, chapters, i) != [] && Segment(lines, chapters, i)[0] == lines[chapters[i].line]
    {
      assert chapters[i] in chapters;
      if i + 1 < |chapters| {
        assert chapters[i + 1] in chapters;
      }
    }
    forall i | 0 <= i < |chapters| - 1
      ensures Segment(lines, chapters, i) == lines[chapters[i].line..chapters[i + 1].line]
    {
      assert chapters[i + 1] in chapters;
    }
    if chapters != [] {
      assert chapters[|chapters| - 1] in chapters;
    }
  }

  /** Concatenating the segments in order reproduces the file from the first
      chapter's line on: no gaps and no overlaps, and the lines before the first
      chapter are dropped. */
  lemma {:induction false} SegmentsPartition(lines: seq<string>, chapters: seq<Candidate>)
    requires chapters != [] && StrictlyAscending(chapters)
    ensures Concat(Segments(lines, chapters)) == PySlice(lines, chapters[0].line, |lines|)
    decreases |chapters|
  {
    var segs := Segments(lines, chapters);
    if |chapters| == 1 {
      assert segs[1..] == [];
    } else {
      var rest := chapters[1..];
      assert StrictlyAscending(rest);
      SegmentsPartition(lines, rest);
      assert segs[1..] == Segments(lines, rest);
      assert chapters[0].line < chapters[1].line;
      PySliceAdjacent(lines, chapters[0].line, chapters[1].line);
    }
  }

  /** The same, for chapters taken from the lines themselves. */
  lemma SegmentsCoverFromFirstChapter(lines: seq<string>, chapters: seq<Candidate>)
    requires chapters != [] && StrictlyAscending(chapters)
    requires forall c :: c in chapters ==> c.line < |lines|
    ensures Concat(Segments(lines, chapters)) == lines[chapters[0].line..]
  {
    SegmentsPartition(lines, chapters);
    assert chapters[0] in chapters;
  }

  /** `f"{i+1}.txt"`: chapter files are numbered from 1 in chapter order. */
  function FileName(i: nat): string
  {
    NatToString(i + 1) + ".txt"
  }

  /** `os.path.join("..", "splitdata", task_id, filename).replace("\\", "/")`. */
  function RelativePath(taskId: string, i: nat): string
  {
    ReplaceChar(PathJoin(PathJoin(PathJoin("..", "splitdata"), taskId), FileName(i)), '\\', '/')
  }

  /** For a task identifier that is a single path component (as a UUID is), the
      metadata path of chapter `i` is `../splitdata/<task_id>/<i+1>.txt`. */
  lemma RelativePathShape(taskId: string, i: nat)
    requires taskId != [] && '/' !in taskId && '\\' !in taskId
    ensures RelativePath(taskId, i) == "../splitdata/" + taskId + "/" + NatToString(i + 1) + ".txt"
  {
    var dir := PathJoin(PathJoin("..", "splitdata"), taskId);
    TaskDirShape("..", "splitdata", taskId);
    var p := PathJoin(dir, FileName(i));
    ChapterPathShape(dir, i);
    ReplaceAbsent(p, '\\', '/');
  }

  /** The task's directory is `../splitdata/<task_id>`, not ending in a slash.
      The two fixed components come in as parameters fixed by the precondition
      rather than as literal arguments: with literals, the verifier unfolds the
      string functions on them far more than the proof needs. */
  lemma TaskDirShape(up: string, data: string, taskId: string)
    requires up == ".." && data == "splitdata"
    requires taskId != [] && '/' !in taskId && '\\' !in taskId
    ensures var dir := PathJoin(PathJoin(up, data), taskId);
      && dir == "../splitdata/" + taskId
      && dir[|dir| - 1] != '/'
      && '\\' !in dir
  {
    assert up[|up| - 1] == '.' && '/' !in data && '\\' !in up && '\\' !in data;
    JoinComponent(up, data);
    JoinComponent(PathJoin(up, data), taskId);
  }

  /** Joining a directory that does not end in a slash with one relative path
      component puts one slash between them; the result ends like the component and
      holds a backslash only if one of the parts does. */
  lemma JoinComponent(a: string, b: string)
    requires a != [] && a[|a| - 1] != '/' && b != [] && '/' !in b
    ensures PathJoin(a, b) == a + "/" + b
    ensures PathJoin(a, b)[|PathJoin(a, b)| - 1] == b[|b| - 1]
    ensures '\\' !in a && '\\' !in b ==> '\\' !in PathJoin(a, b)
  {
    assert b[0] in b;
  }

  /** Joining a directory that does not end in a slash with a chapter's file name
      puts one slash between them, and brings in no backslash. */
  lemma ChapterPathShape(dir: string, i: nat)
    requires dir != [] && dir[|dir| - 1] != '/' && '\\' !in dir
    ensures PathJoin(dir, FileName(i)) == dir + "/" + NatToString(i + 1) + ".txt"
    ensures '\\' !in PathJoin(dir, FileName(i))
  {
    var digits := NatToString(i + 1);
    assert FileName(i)[0] == digits[0];
    var p := PathJoin(dir, FileName(i));
    assert p == dir + "/" + digits + ".txt";
    forall k | 0 <= k < |p| ensures p[k] != '\\' {
      if k < |dir| {
        assert p[k] == dir[k];
      } else if k == |dir| {
      } else if k < |dir| + 1 + |digits| {
        assert p[k] == digits[k - |dir| - 1];
      } else {
        assert p[k] == ".txt"[k - |dir| - 1 - |digits|];
      }
    }
  }

  /** A chapter's file name is a decimal numeral followed by `.txt`, and the numeral
      reads back as the chapter's 1-based number. */
  lemma FileNameNumbers(i: nat)
    ensures var n := FileName(i);
      && |n| > 4 && n[|n| - 4..] == ".txt"
      && (forall k :: 0 <= k < |n| - 4 ==> '0' <= n[k] <= '9')
      && DecimalValue(n[..|n| - 4]) == i + 1
  {
    var n := FileName(i);
    assert n[..|n| - 4] == NatToString(i + 1);
    DecimalRoundTrip(i + 1);
  }

  /** Different chapters get different file names, hence different paths. */
  lemma FileNamesDistinct(i: nat, j: nat)
    requires i != j
    ensures FileName(i) != FileName(j)
  {
    if FileName(i) == FileName(j) {
      var a, b := NatToString(i + 1), NatToString(j + 1);
      assert |a| == |b|;
      assert a == FileName(i)[..|a|] && b == FileName(j)[..|b|];
      NatToStringInjective(i + 1, j + 1);
    }
  }

  /** The 0-based numbers of the chapters whose write succeeds, among the first `k`. */
  function WrittenIndices(writeOk: nat -> bool, k: nat): (r: seq<nat>)
    ensures |r| <= k
    ensures forall j :: 0 <= j < |r| ==> r[j] < k && writeOk(r[j])
    ensures forall j1, j2 :: 0 <= j1 < j2 < |r| ==> r[j1] < r[j2]
    ensures forall i {:trigger i in r} :: 0 <= i < k && writeOk(i) ==> i in r
  {
    if k == 0 then []
    else if writeOk(k - 1) then WrittenIndices(writeOk, k - 1) + [k - 1]
    else WrittenIndices(writeOk, k - 1)
  }

  /** When every write succeeds, every chapter is written. */
  lemma {:induction false} AllWritten(writeOk: nat -> bool, k: nat)
    requires forall i :: 0 <= i < k ==> writeOk(i)
    ensures WrittenIndices(writeOk, k) == seq(k, i requires 0 <= i < k => i)
  {
    if k > 0 {
      AllWritten(writeOk, k - 1);
    }
  }

  predicate IndicesBelow(kept: seq<nat>, n: nat)
  {
    forall j :: 0 <= j < |kept| ==> kept[j] < n
  }

  /** The chapter files written for the chapters numbered in `kept`. */
  function WrittenFiles(lines: seq<string>, chapters: seq<Candidate>, kept: seq<nat>): seq<ChapterFile>
    requires IndicesBelow(kept, |chapters|)
  {
    seq(|kept|, j requires 0 <= j < |kept| =>
      ChapterFile(FileName(kept[j]), Segment(lines, chapters, kept[j])))
  }

  /** The metadata's `split_files` for the chapters numbered in `kept`. */
  function SplitFiles(taskId: string, kept: seq<nat>): seq<string>
  {
    seq(|kept|, j requires 0 <= j < |kept| => RelativePath(taskId, kept[j]))
  }

  /** The metadata's `chapter_titles` for the chapters numbered in `kept`. */
  function ChapterTitles(chapters: seq<Candidate>, kept: seq<nat>): seq<string>
    requires IndicesBelow(kept, |chapters|)
  {
    seq(|kept|, j requires 0 <= j < |kept| => chapters[kept[j]].text)
  }

  /** The chapter files actually written, for these chapters and write outcomes. */
  function FilesOf(lines: seq<string>, chapters: seq<Candidate>, writeOk: nat -> bool): seq<ChapterFile>
  {
    WrittenFiles(lines, chapters, WrittenIndices(writeOk, |chapters|))
  }

  /** The metadata's `split_files`, for these chapters and write outcomes. */
  function PathsOf(taskId: string, chapters: seq<Candidate>, writeOk: nat -> bool): seq<string>
  {
    SplitFiles(taskId, WrittenIndices(writeOk, |chapters|))
  }

  /** The metadata's `chapter_titles`, for these chapters and write outcomes. */
  function TitlesOf(chapters: seq<Candidate>, writeOk: nat -> bool): seq<string>
  {
    ChapterTitles(chapters, WrittenIndices(writeOk, |chapters|))
  }

  /** Recording one more written chapter appends one entry to each list. */
  lemma RecordsSnoc(lines: seq<string>, chapters: seq<Candidate>, taskId: string, kept: seq<nat>, i: nat)
    requires IndicesBelow(kept, |chapters|) && i < |chapters|
    ensures IndicesBelow(kept + [i], |chapters|)
    ensures WrittenFiles(lines, chapters, kept + [i])
      == WrittenFiles(lines, chapters, kept) + [ChapterFile(FileName(i), Segment(lines, chapters, i))]
    ensures SplitFiles(taskId, kept + [i]) == SplitFiles(taskId, kept) + [RelativePath(taskId, i)]
    ensures ChapterTitles(chapters, kept + [i]) == ChapterTitles(chapters, kept) + [chapters[i].text]
  {
    var k2 := kept + [i];
    assert IndicesBelow(k2, |chapters|);
    assert forall j :: 0 <= j < |kept| ==> k2[j] == kept[j];
    assert WrittenFiles(lines, chapters, k2)
      == WrittenFiles(lines, chapters, kept) + [ChapterFile(FileName(i), Segment(lines, chapters, i))] by {
      var f, g := WrittenFiles(lines, chapters, k2), WrittenFiles(lines, chapters, kept);
      assert forall j :: 0 <= j < |kept| ==> f[j] == g[j];
    }
    assert SplitFiles(taskId, k2) == SplitFiles(taskId, kept) + [RelativePath(taskId, i)] by {
      var f, g := SplitFiles(taskId, k2), SplitFiles(taskId, kept);
      assert forall j :: 0 <= j < |kept| ==> f[j] == g[j];
    }
    assert ChapterTitles(chapters, k2) == ChapterTitles(chapters, kept) + [chapters[i].text] by {
      var f, g := ChapterTitles(chapters, k2), ChapterTitles(chapters, kept);
      assert forall j :: 0 <= j < |kept| ==> f[j] == g[j];
    }
  }

  /** One more turn of the chapter loop extends the records by chapter `i`
      exactly when its write succeeds. */
  lemma RecordsStep(lines: seq<string>, chapters: seq<Candidate>, taskId: string, writeOk: nat -> bool, i: nat)
    requires i < |chapters|
    ensures writeOk(i) ==>
      && WrittenFiles(lines, chapters, WrittenIndices(writeOk, i + 1))
         == WrittenFiles(lines, chapters, WrittenIndices(writeOk, i)) + [ChapterFile(FileName(i), Segment(lines, chapters, i))]
      && SplitFiles(taskId, WrittenIndices(writeOk, i + 1))
         == SplitFiles(taskId, WrittenIndices(writeOk, i)) + [RelativePath(taskId, i)]
      && ChapterTitles(chapters, WrittenIndices(writeOk, i + 1))
         == ChapterTitles(chapters, WrittenIndices(writeOk, i)) + [chapters[i].text]
    ensures !writeOk(i) ==> WrittenIndices(writeOk, i + 1) == WrittenIndices(writeOk, i)
  {
    var kept := WrittenIndices(writeOk, i);
    if writeOk(i) {
      assert WrittenIndices(writeOk, i + 1) == kept + [i];
      RecordsSnoc(lines, chapters, taskId, kept, i);
    } else {
      assert WrittenIndices(writeOk, i + 1) == kept;
    }
  }

  /** The chapter files the loop has written after its first `k` turns. */
  function FilesUpTo(lines: seq<string>, chapters: seq<Candidate>, writeOk: nat -> bool, k: nat): seq<ChapterFile>
    requires k <= |chapters|
  {
    if k == 0 then []
    else if writeOk(k - 1) then
      FilesUpTo(lines, chapters, writeOk, k - 1) + [ChapterFile(FileName(k - 1), Segment(lines, chapters, k - 1))]
    else FilesUpTo(lines, chapters, writeOk, k - 1)
  }

  /** The `split_files` entries recorded after the first `k` turns. */
  function PathsUpTo(taskId: string, writeOk: nat -> bool, k: nat): seq<string>
  {
    if k == 0 then []
    else if writeOk(k - 1) then PathsUpTo(taskId, writeOk, k - 1) + [RelativePath(taskId, k - 1)]
    else PathsUpTo(taskId, writeOk, k - 1)
  }

  /** The `chapter_titles` entries recorded after the first `k` turns. */
  function TitlesUpTo(chapters: seq<Candidate>, writeOk: nat -> bool, k: nat): seq<string>
    requires k <= |chapters|
  {
    if k == 0 then []
    else if writeOk(k - 1) then TitlesUpTo(chapters, writeOk, k - 1) + [chapters[k - 1].text]
    else TitlesUpTo(chapters, writeOk, k - 1)
  }

  /** Turn by turn, the loop's records are those of the chapters written so far. */
  lemma UpToIsWritten(lines: seq<string>, chapters: seq<Candidate>, taskId: string,
                      writeOk: nat -> bool, k: nat)
    requires k <= |chapters|
    ensures FilesUpTo(lines, chapters, writeOk, k) == WrittenFiles(lines, chapters, WrittenIndices(writeOk, k))
    ensures PathsUpTo(taskId, writeOk, k) == SplitFiles(taskId, WrittenIndices(writeOk, k))
    ensures TitlesUpTo(chapters, writeOk, k) == ChapterTitles(chapters, WrittenIndices(writeOk, k))
  {
    FilesUpToIsWritten(lines, chapters, taskId, writeOk, k);
    PathsUpToIsWritten(lines, chapters, taskId, writeOk, k);
    TitlesUpToIsWritten(lines, chapters, taskId, writeOk, k);
  }

  lemma {:induction false} FilesUpToIsWritten(lines: seq<string>, chapters: seq<Candidate>, taskId: string,
                                              writeOk: nat -> bool, k: nat)
    requires k <= |chapters|
    ensures FilesUpTo(lines, chapters, writeOk, k) == WrittenFiles(lines, chapters, WrittenIndices(writeOk, k))
  {
    if k > 0 {
      FilesUpToIsWritten(lines, chapters, taskId, writeOk, k - 1);
      RecordsStep(lines, chapters, taskId, writeOk, k - 1);
    }
  }

  lemma {:induction false} PathsUpToIsWritten(lines: seq<string>, chapters: seq<Candidate>, taskId: string,
                                              writeOk: nat -> bool, k: nat)
    requires k <= |chapters|
    ensures PathsUpTo(taskId, writeOk, k) == SplitFiles(taskId, WrittenIndices(writeOk, k))
  {
    if k > 0 {
      PathsUpToIsWritten(lines, chapters, taskId, writeOk, k - 1);
      RecordsStep(lines, chapters, taskId, writeOk, k - 1);
    }
  }

  lemma {:induction false} TitlesUpToIsWritten(lines: seq<string>, chapters: seq<Candidate>, taskId: string,
                                               writeOk: nat -> bool, k: nat)
    requires k <= |chapters|
    ensures TitlesUpTo(chapters, writeOk, k) == ChapterTitles(chapters, WrittenIndices(writeOk, k))
  {
    if k > 0 {
      TitlesUpToIsWritten(lines, chapters, taskId, writeOk, k - 1);
      RecordsStep(lines, chapters, taskId, writeOk, k - 1);
    }
  }

  /** The chapter loop: slice each segment, write it, and record its path and
      title only if the write succeeded. */
  method WriteChapters(chapters: seq<Candidate>, allLines: seq<string>, taskId: string, writeOk: nat -> bool)
    returns (files: seq<ChapterFile>, relativePaths: seq<string>, chapterTitles: seq<string>)
    ensures files == FilesOf(allLines, chapters, writeOk)
    ensures relativePaths == PathsOf(taskId, chapters, writeOk)
    ensures chapterTitles == TitlesOf(chapters, writeOk)
  {
    var chapterIndices := seq(|chapters|, j requires 0 <= j < |chapters| => chapters[j].line);
    files, relativePaths, chapterTitles := [], [], [];
    var i := 0;
    while i < |chapters|
      invariant 0 <= i <= |chapters|
      invariant files == FilesUpTo(allLines, chapters, writeOk, i)
      invariant relativePaths == PathsUpTo(taskId, writeOk, i)
      invariant chapterTitles == TitlesUpTo(chapters, writeOk, i)
    {
      var startLine := chapters[i].line;
      var endLine := if i + 1 < |chapters| then chapterIndices[i + 1] else |allLines|;
      var content := PySlice(allLines, startLine, endLine);
      var filename := FileName(i);
      var relativePath := RelativePath(taskId, i);
      assert content == Segment(allLines, chapters, i);
      if writeOk(i) {
        files := files + [ChapterFile(filename, content)];
        relativePaths := relativePaths + [relativePath];
        chapterTitles := chapterTitles + [chapters[i].text];
      }
      i := i + 1;
    }
    UpToIsWritten(allLines, chapters, taskId, writeOk, |chapters|);
  }

  /** `<task_id>-metadata.json`. */
  function MetadataFileName(taskId: string): string
  {
    taskId + "-metadata.json"
  }

  /** Different task identifiers give different metadata files. */
  lemma MetadataNamesDistinct(a: string, b: string)
    requires a != b
    ensures MetadataFileName(a) != MetadataFileName(b)
  {
    assert MetadataFileName(a)[..|a|] == a;
    assert MetadataFileName(b)[..|b|] == b;
  }

  /** The whole stage: directory creation and the re-read of the source must both
      succeed, otherwise nothing is written; then the chapter loop runs and one
      metadata record describes the chapters that were written. */
  function SplitStage(s: RunState, io: SplitIo): (r: SplitResult)
    ensures r.Aborted? <==> !io.dirsOk || !io.read.Lines?
  {
    if !io.dirsOk then Aborted
    else match io.read
      case NotFound => Aborted
      case Unreadable => Aborted
      case Lines(allLines) =>
        Done(
          FilesOf(allLines, s.confirmed, io.writeOk),
          MetadataFileName(s.taskId),
          Metadata(
            Basename(s.filepath),
            PathsOf(s.taskId, s.confirmed, io.writeOk),
            TitlesOf(s.confirmed, io.writeOk),
            s.taskId, s.startTime, io.endTime),
          io.metadataWriteOk)
  }

  /** The chapter numbers of the written files, in order. */
  function Picked<T>(xs: seq<T>, kept: seq<nat>): (r: seq<T>)
    requires IndicesBelow(kept, |xs|)
    ensures |r| == |kept| && forall j :: 0 <= j < |kept| ==> r[j] == xs[kept[j]]
  {
    seq(|kept|, j requires 0 <= j < |kept| => xs[kept[j]])
  }

  /** Picking at strictly ascending positions gives a subsequence. */
  lemma {:induction false} PickedIsSubsequence<T>(xs: seq<T>, kept: seq<nat>)
    requires IndicesBelow(kept, |xs|)
    requires forall j1, j2 :: 0 <= j1 < j2 < |kept| ==> kept[j1] < kept[j2]
    ensures IsSubsequence(Picked(xs, kept), xs)
    decreases |xs|
  {
    var r := Picked(xs, kept);
    if kept != [] {
      if kept[0] == 0 {
        var rest := seq(|kept| - 1, j requires 0 <= j < |kept| - 1 => kept[j + 1] - 1);
        PickedIsSubsequence(xs[1..], rest);
        assert Picked(xs[1..], rest) == r[1..];
      } else {
        var shifted := seq(|kept|, j requires 0 <= j < |kept| => kept[j] - 1);
        assert forall j :: 0 <= j < |kept| ==> kept[j] >= kept[0] > 0;
        PickedIsSubsequence(xs[1..], shifted);
        assert Picked(xs[1..], shifted) == r;
      }
    }
  }

  /** The titles of the given chapters, in order. */
  function Titles(chapters: seq<Candidate>): (r: seq<string>)
    ensures |r| == |chapters| && forall k :: 0 <= k < |chapters| ==> r[k] == chapters[k].text
  {
    seq(|chapters|, k requires 0 <= k < |chapters| => chapters[k].text)
  }

  /** Every chapter whose write succeeded has an entry. */
  lemma RecordsComplete(lines: seq<string>, chapters: seq<Candidate>, writeOk: nat -> bool, k: nat)
    requires k < |chapters| && writeOk(k)
    ensures exists j :: (0 <= j < |FilesOf(lines, chapters, writeOk)|
      && FilesOf(lines, chapters, writeOk)[j].name == FileName(k))
  {
    var kept := WrittenIndices(writeOk, |chapters|);
    assert k in kept;
    var j :| 0 <= j < |kept| && kept[j] == k;
    assert FilesOf(lines, chapters, writeOk)[j].name == FileName(k);
  }

  /** A file, a `split_files` entry and a `chapter_titles` entry all describe
      chapter `k`, one whose write succeeded. */
  predicate Describes(lines: seq<string>, chapters: seq<Candidate>, taskId: string, writeOk: nat -> bool,
                      file: ChapterFile, path: string, title: string, k: nat)
  {
    k < |chapters| && writeOk(k)
    && file == ChapterFile(FileName(k), Segment(lines, chapters, k))
    && path == RelativePath(taskId, k)
    && title == chapters[k].text
  }

  /** The three lists are positionally paired: they have one length, and there is
      a strictly ascending list of chapter numbers such that entry `j` of each list
      describes chapter number `j` of it. */
  lemma RecordsPaired(lines: seq<string>, chapters: seq<Candidate>, taskId: string, writeOk: nat -> bool)
    ensures |FilesOf(lines, chapters, writeOk)| == |PathsOf(taskId, chapters, writeOk)|
      == |TitlesOf(chapters, writeOk)|
    ensures exists kept: seq<nat> ::
      && |kept| == |TitlesOf(chapters, writeOk)|
      && (forall j1, j2 :: 0 <= j1 < j2 < |kept| ==> kept[j1] < kept[j2])
      && (forall j :: 0 <= j < |kept| ==>
            Describes(lines, chapters, taskId, writeOk, FilesOf(lines, chapters, writeOk)[j],
              PathsOf(taskId, chapters, writeOk)[j], TitlesOf(chapters, writeOk)[j], kept[j]))
  {
    var kept := WrittenIndices(writeOk, |chapters|);
    assert forall j :: 0 <= j < |kept| ==>
      Describes(lines, chapters, taskId, writeOk, FilesOf(lines, chapters, writeOk)[j],
        PathsOf(taskId, chapters, writeOk)[j], TitlesOf(chapters, writeOk)[j], kept[j]);
  }

  /** Every file opens with a line that strips to the title at the same position. */
  predicate OpenWithTitles(files: seq<ChapterFile>, titles: seq<string>)
  {
    |files| == |titles|
    && forall j :: 0 <= j < |files| ==>
         files[j].lines != [] && Strip(files[j].lines[0], Whitespace) == titles[j]
  }

  /** For chapters whose titles are the stripped text of their lines, every file
      written opens with the line its recorded title was taken from. */
  lemma FilesOpenWithTitles(lines: seq<string>, chapters: seq<Candidate>, writeOk: nat -> bool)
    requires StrictlyAscending(chapters)
    requires forall c :: c in chapters ==> c.line < |lines| && c.text == Strip(lines[c.line], Whitespace)
    ensures OpenWithTitles(FilesOf(lines, chapters, writeOk), TitlesOf(chapters, writeOk))
  {
    var kept := WrittenIndices(writeOk, |chapters|);
    SegmentsExact(lines, chapters);
    forall j | 0 <= j < |kept|
      ensures FilesOf(lines, chapters, writeOk)[j].lines != []
      ensures Strip(FilesOf(lines, chapters, writeOk)[j].lines[0], Whitespace) == TitlesOf(chapters, writeOk)[j]
    {
      assert chapters[kept[j]] in chapters;
    }
  }

  /** The recorded titles are the chapter titles with those of failed writes
      deleted, in chapter order. */
  lemma RecordedTitlesInOrder(chapters: seq<Candidate>, writeOk: nat -> bool)
    ensures IsSubsequence(TitlesOf(chapters, writeOk), Titles(chapters))
  {
    var kept := WrittenIndices(writeOk, |chapters|);
    PickedIsSubsequence(Titles(chapters), kept);
    assert ChapterTitles(chapters, kept) == Picked(Titles(chapters), kept);
  }

  /** When every chapter write succeeds, chapter `k` is the `k`-th file with its
      segment and title, and the files together hold the source from the first
      chapter's line on. */
  lemma RecordsAllWritten(lines: seq<string>, chapters: seq<Candidate>, taskId: string, writeOk: nat -> bool)
    requires forall k :: 0 <= k < |chapters| ==> writeOk(k)
    ensures |FilesOf(lines, chapters, writeOk)| == |chapters|
    ensures forall k :: 0 <= k < |chapters| ==>
      FilesOf(lines, chapters, writeOk)[k] == ChapterFile(FileName(k), Segment(lines, chapters, k))
      && PathsOf(taskId, chapters, writeOk)[k] == RelativePath(taskId, k)
    ensures TitlesOf(chapters, writeOk) == Titles(chapters)
    ensures chapters != [] && StrictlyAscending(chapters) ==>
      Concat(FileContents(FilesOf(lines, chapters, writeOk))) == PySlice(lines, chapters[0].line, |lines|)
  {
    AllWritten(writeOk, |chapters|);
    assert FileContents(FilesOf(lines, chapters, writeOk)) == Segments(lines, chapters);
    if chapters != [] && StrictlyAscending(chapters) {
      SegmentsPartition(lines, chapters);
    }
  }

  /** The files hold, in order, the lines from the first chapter's line to the end. */
  predicate CoverFromFirstChapter(files: seq<ChapterFile>, lines: seq<string>, chapters: seq<Candidate>)
  {
    chapters != [] && chapters[0].line < |lines|
    && Concat(FileContents(files)) == lines[chapters[0].line..]
  }

  /** The contents of the given files, in order. */
  function FileContents(files: seq<ChapterFile>): (r: seq<seq<string>>)
    ensures |r| == |files| && forall j :: 0 <= j < |files| ==> r[j] == files[j].lines
  {
    seq(|files|, j requires 0 <= j < |files| => files[j].lines)
  }

  /** For ascending chapters taken from the lines themselves: one `split_files`
      entry per file, every file opens with its recorded title, and when every
      write succeeds the files hold the source from the first chapter on. */
  lemma RecordsFaithful(lines: seq<string>, chapters: seq<Candidate>, taskId: string, writeOk: nat -> bool)
    requires StrictlyAscending(chapters)
    requires forall c :: c in chapters ==> c.line < |lines| && c.text == Strip(lines[c.line], Whitespace)
    ensures |FilesOf(lines, chapters, writeOk)| == |PathsOf(taskId, chapters, writeOk)|
    ensures OpenWithTitles(FilesOf(lines, chapters, writeOk), TitlesOf(chapters, writeOk))
    ensures chapters != [] && (forall k :: 0 <= k < |chapters| ==> writeOk(k)) ==>
      CoverFromFirstChapter(FilesOf(lines, chapters, writeOk), lines, chapters)
  {
    RecordsPaired(lines, chapters, taskId, writeOk);
    FilesOpenWithTitles(lines, chapters, writeOk);
    if chapters != [] && forall k :: 0 <= k < |chapters| ==> writeOk(k) {
      assert chapters[0] in chapters;
      RecordsAllWritten(lines, chapters, taskId, writeOk);
      SegmentsCoverFromFirstChapter(lines, chapters);
    }
  }
}
