/** The workflow controller (`run` and the two edge functions of core.py): the
    four stages wired as a state machine IDENTIFY -> CONFIRM -> (END | PROMPT)
    -> (END | SPLIT) -> END, run on an initial state built from the arguments. */
module Workflow {
  import opened PyStr
  import opened GraphState
  import opened Detector
  import opened Confirmer
  import opened HumanGate
  import opened Splitter

  /** The graph's nodes; `End` is the terminal `END`. */
  datatype Node = Identify | Confirm | Prompt | Split | End

  /** Every edge goes to a node of lower rank, so every run ends. */
  function Rank(n: Node): nat
  {
    match n
    case Identify => 4
    case Confirm => 3
    case Prompt => 2
    case Split => 1
    case End => 0
  }

  /** `_should_continue_after_llm`: go on to the prompt when something was confirmed. */
  predicate ShouldContinueAfterLlm(s: RunState)
  {
    |s.confirmed| > 0
  }

  /** `_should_split_after_prompt`: go on to the split when the operator approved. */
  predicate ShouldSplitAfterPrompt(s: RunState)
  {
    s.userConfirmed
  }

  /** The edges of the graph: two fixed edges and two conditional ones, each
      looked up in the state the node has just returned. */
  function Successor(n: Node, s: RunState): (next: Node)
    requires n != End
    ensures Rank(next) < Rank(n)
    ensures n == Identify ==> next == Confirm
    ensures n == Confirm ==> (next == Prompt <==> s.confirmed != []) && (next == End <==> s.confirmed == [])
    ensures n == Prompt ==> (next == Split <==> s.userConfirmed) && (next == End <==> !s.userConfirmed)
    ensures n == Split ==> next == End
  {
    match n
    case Identify => Confirm
    case Confirm => if ShouldContinueAfterLlm(s) then Prompt else End
    case Prompt => if ShouldSplitAfterPrompt(s) then Split else End
    case Split => End
  }

  /** Each guard reads one field of the state: CONFIRM's guard holds exactly when
      the confirmed list is non-empty, PROMPT's exactly when the operator approved,
      and nothing else in the state changes either answer. */
  lemma GuardsReadOneField(s: RunState, t: RunState)
    ensures ShouldContinueAfterLlm(s) <==> s.confirmed != []
    ensures ShouldSplitAfterPrompt(s) <==> s.userConfirmed
    ensures s.confirmed == t.confirmed ==> ShouldContinueAfterLlm(s) == ShouldContinueAfterLlm(t)
    ensures s.userConfirmed == t.userConfirmed ==> ShouldSplitAfterPrompt(s) == ShouldSplitAfterPrompt(t)
  {
  }

  /** What the outside world contributes to one run: whether the source path exists,
      the working directory, the fresh task identifier and start time stamp, the
      first read of the source, the service's verdicts, the console answer, and
      what the file system does during the split. */
  datatype Env = Env(
    sourceExists: bool,
    cwd: string,
    taskId: string,
    startTime: string,
    detectRead: ReadResult,
    verdict: Candidate -> Verdict,
    answer: Answer,
    splitIo: SplitIo)

  /** A node either raises an exception that escapes it, or returns the new state;
      the split node also produces the files and metadata it wrote. */
  datatype NodeResult = Raised | Returned(state: RunState, output: Option<SplitResult>)

  /** One node of the graph applied to the current state. */
  function RunNode(n: Node, s: RunState, env: Env): (r: NodeResult)
    requires n != End
    ensures r.Raised? <==>
      (n == Identify && env.detectRead.Unreadable?)
      || (n == Prompt && PromptUser(s.autoConfirm, env.answer).Escaped?)
    ensures r.Returned? ==> (r.output.Some? <==> n == Split)
    ensures r.Returned? ==>
      && r.state.filepath == s.filepath && r.state.outputDir == s.outputDir
      && r.state.autoConfirm == s.autoConfirm && r.state.taskId == s.taskId
      && r.state.startTime == s.startTime
  {
    match n
    case Identify =>
      (match IdentifyStage(env.detectRead)
       case None => Raised
       case Some(cs) => Returned(s.(candidates := cs), None))
    case Confirm =>
      Returned(s.(confirmed := Confirmed(s.candidates, env.verdict)), None)
    case Prompt =>
      (match PromptUser(s.autoConfirm, env.answer)
       case Escaped => Raised
       case Decided(b) => Returned(s.(userConfirmed := b), None))
    case Split =>
      Returned(s, Some(SplitStage(s, env.splitIo)))
  }

  /** How a run ends: refused before the graph starts (the source path does not
      exist), stopped by an exception that `run` catches and logs, or finished.
      `visited` lists the nodes entered, in order; `output` is what the split
      node produced, if it ran. */
  datatype Outcome =
    | NotStarted
    | Crashed(visited: seq<Node>)
    | Completed(visited: seq<Node>, final: RunState, output: Option<SplitResult>)

  /** `app.invoke(state)` from node `n` on. */
  function Drive(n: Node, s: RunState, env: Env): (o: Outcome)
    ensures !o.NotStarted?
    decreases Rank(n)
  {
    if n == End then Completed([], s, None)
    else match RunNode(n, s, env)
      case Raised => Crashed([n])
      case Returned(s', out) =>
        var rest := Drive(Successor(n, s'), s', env);
        if rest.Crashed? then Crashed([n] + rest.visited)
        else Completed([n] + rest.visited, rest.final, if out.Some? then out else rest.output)
  }

  /** The initial state: no candidates, nothing confirmed, no approval, and the
      output directory defaulting to `results` under the working directory. */
  function InitialState(filepath: string, outputDir: Option<string>, autoConfirm: bool, env: Env): RunState
  {
    RunState(
      filepath,
      if outputDir.Some? then outputDir.value else PathJoin(env.cwd, "results"),
      [], [], false, autoConfirm, env.taskId, env.startTime)
  }

  /** The state `run` starts from: nothing found, confirmed or approved yet, the
      arguments and the fresh identifiers recorded, and the output directory
      defaulting to `<cwd>/results` (just `/results` when the working directory is
      the root). */
  lemma InitialStateFields(filepath: string, outputDir: Option<string>, autoConfirm: bool, env: Env)
    ensures var s := InitialState(filepath, outputDir, autoConfirm, env);
      && s.candidates == [] && s.confirmed == [] && !s.userConfirmed
      && s.filepath == filepath && s.autoConfirm == autoConfirm
      && s.taskId == env.taskId && s.startTime == env.startTime
      && (outputDir.Some? ==> s.outputDir == outputDir.value)
      && (outputDir.None? && env.cwd != [] && env.cwd[|env.cwd| - 1] != '/' ==>
            s.outputDir == env.cwd + "/results")
      && (outputDir.None? && env.cwd == "/" ==> s.outputDir == "/results")
  {
  }

  /** `NovelSplitter.run`. */
  function Run(filepath: string, outputDir: Option<string>, autoConfirm: bool, env: Env): (o: Outcome)
    ensures o.NotStarted? <==> !env.sourceExists
  {
    if !env.sourceExists then NotStarted
    else Drive(Identify, InitialState(filepath, outputDir, autoConfirm, env), env)
  }

  /** The same run written as straight-line code, one stage after another. */
  function Pipeline(filepath: string, outputDir: Option<string>, autoConfirm: bool, env: Env): Outcome
  {
    if !env.sourceExists then NotStarted
    else
      var s0 := InitialState(filepath, outputDir, autoConfirm, env);
      match IdentifyStage(env.detectRead)
      case None => Crashed([Identify])
      case Some(cands) =>
        var s2 := s0.(candidates := cands, confirmed := Confirmed(cands, env.verdict));
        if s2.confirmed == [] then Completed([Identify, Confirm], s2, None)
        else match PromptUser(autoConfirm, env.answer)
          case Escaped => Crashed([Identify, Confirm, Prompt])
          case Decided(b) =>
            var s3 := s2.(userConfirmed := b);
            if !b then Completed([Identify, Confirm, Prompt], s3, None)
            else Completed([Identify, Confirm, Prompt, Split], s3, Some(SplitStage(s3, env.splitIo)))
  }

  /** From SPLIT the run writes and ends. */
  lemma DriveFromSplit(s: RunState, env: Env)
    ensures Drive(Split, s, env) == Completed([Split], s, Some(SplitStage(s, env.splitIo)))
  {
    var o := Drive(Split, s, env);
    assert o.Completed? && o.visited == [Split] && o.final == s;
    assert o.output == Some(SplitStage(s, env.splitIo));
  }

  /** From PROMPT the run raises, ends, or goes on to SPLIT, as the gate decides. */
  lemma DriveFromPrompt(s: RunState, env: Env)
    ensures PromptUser(s.autoConfirm, env.answer).Escaped? ==> Drive(Prompt, s, env) == Crashed([Prompt])
    ensures PromptUser(s.autoConfirm, env.answer) == Decided(false) ==>
      Drive(Prompt, s, env) == Completed([Prompt], s.(userConfirmed := false), None)
    ensures PromptUser(s.autoConfirm, env.answer) == Decided(true) ==>
      var s' := s.(userConfirmed := true);
      Drive(Prompt, s, env) == Completed([Prompt, Split], s', Some(SplitStage(s', env.splitIo)))
  {
    var o := Drive(Prompt, s, env);
    match PromptUser(s.autoConfirm, env.answer)
    case Escaped =>
      assert o.Crashed? && o.visited == [Prompt];
    case Decided(b) =>
      var s' := s.(userConfirmed := b);
      assert RunNode(Prompt, s, env) == Returned(s', None);
      if b {
        DriveFromSplit(s', env);
        assert o.Completed? && o.visited == [Prompt, Split] && o.final == s';
        assert o.output == Some(SplitStage(s', env.splitIo));
      } else {
        assert o.Completed? && o.visited == [Prompt] && o.final == s' && o.output.None?;
      }
  }

  /** From CONFIRM the run ends when nothing is confirmed and goes on to PROMPT otherwise. */
  lemma DriveFromConfirm(s: RunState, env: Env)
    ensures var s' := s.(confirmed := Confirmed(s.candidates, env.verdict));
      && (s'.confirmed == [] ==> Drive(Confirm, s, env) == Completed([Confirm], s', None))
      && (s'.confirmed != [] ==>
            var q := Drive(Prompt, s', env);
            Drive(Confirm, s, env) == if q.Crashed? then Crashed([Confirm] + q.visited)
              else Completed([Confirm] + q.visited, q.final, q.output))
  {
    var s' := s.(confirmed := Confirmed(s.candidates, env.verdict));
    var o := Drive(Confirm, s, env);
    assert RunNode(Confirm, s, env) == Returned(s', None);
    if s'.confirmed == [] {
      assert o.Completed? && o.visited == [Confirm] && o.final == s' && o.output.None?;
    } else {
      var q := Drive(Prompt, s', env);
      assert o.Crashed? == q.Crashed? && o.visited == [Confirm] + q.visited;
      assert q.Completed? ==> o.final == q.final && o.output == q.output;
    }
  }

  /** From IDENTIFY the run raises when detection raises and goes on to CONFIRM otherwise. */
  lemma DriveFromIdentify(s: RunState, env: Env)
    ensures IdentifyStage(env.detectRead).None? ==> Drive(Identify, s, env) == Crashed([Identify])
    ensures IdentifyStage(env.detectRead).Some? ==>
      var c := Drive(Confirm, s.(candidates := IdentifyStage(env.detectRead).value), env);
      Drive(Identify, s, env) == if c.Crashed? then Crashed([Identify] + c.visited)
        else Completed([Identify] + c.visited, c.final, c.output)
  {
    var o := Drive(Identify, s, env);
    match IdentifyStage(env.detectRead)
    case None =>
      assert RunNode(Identify, s, env) == Raised;
      assert o.Crashed? && o.visited == [Identify];
    case Some(cands) =>
      var s' := s.(candidates := cands);
      assert RunNode(Identify, s, env) == Returned(s', None);
      var c := Drive(Confirm, s', env);
      assert o.Crashed? == c.Crashed? && o.visited == [Identify] + c.visited;
      assert c.Completed? ==> o.final == c.final && o.output == c.output;
  }

  /** The visit lists the run builds node by node, written out. `RunIsPipeline`
      compares the graph's concatenated lists with `Pipeline`'s list displays; stating
      the three equalities once here spares that proof the sequence extensionality. */
  lemma VisitedLiterals()
    ensures [Identify] + [Confirm] == [Identify, Confirm]
    ensures [Identify] + ([Confirm] + [Prompt]) == [Identify, Confirm, Prompt]
    ensures [Identify] + ([Confirm] + [Prompt, Split]) == [Identify, Confirm, Prompt, Split]
  {
  }

  /** The graph run from IDENTIFY to CONFIRM, once detection has produced a
      candidate list: the run is CONFIRM's run with IDENTIFY in front. */
  lemma RunThroughConfirm(filepath: string, outputDir: Option<string>, autoConfirm: bool, env: Env)
    requires env.sourceExists && IdentifyStage(env.detectRead).Some?
    ensures var o := Run(filepath, outputDir, autoConfirm, env);
      var c := Drive(Confirm, InitialState(filepath, outputDir, autoConfirm, env).(
        candidates := IdentifyStage(env.detectRead).value), env);
      && o.Crashed? == c.Crashed? && o.visited == [Identify] + c.visited
      && (o.Completed? ==> o.final == c.final && o.output == c.output)
  {
    DriveFromIdentify(InitialState(filepath, outputDir, autoConfirm, env), env);
  }

  /** The graph run and the straight-line reading agree on every input. */
  lemma RunIsPipeline(filepath: string, outputDir: Option<string>, autoConfirm: bool, env: Env)
    ensures Run(filepath, outputDir, autoConfirm, env) == Pipeline(filepath, outputDir, autoConfirm, env)
  {
    var o := Run(filepath, outputDir, autoConfirm, env);
    var p := Pipeline(filepath, outputDir, autoConfirm, env);
    if env.sourceExists {
      var s0 := InitialState(filepath, outputDir, autoConfirm, env);
      if IdentifyStage(env.detectRead).None? {
        DriveFromIdentify(s0, env);
        assert o.Crashed? && o.visited == [Identify];
      } else {
        var s1 := s0.(candidates := IdentifyStage(env.detectRead).value);
        var s2 := s1.(confirmed := Confirmed(s1.candidates, env.verdict));
        VisitedLiterals();
        RunThroughConfirm(filepath, outputDir, autoConfirm, env);
        DriveFromConfirm(s1, env);
        if s2.confirmed == [] {
          assert o.Completed? && p.Completed? && o.visited == p.visited && o.final == p.final;
          assert o.output == p.output;
        } else {
          DriveFromPrompt(s2, env);
          if PromptUser(autoConfirm, env.answer).Escaped? {
            assert o.Crashed? && o.visited == p.visited;
          } else {
            var s3 := s2.(userConfirmed := PromptUser(autoConfirm, env.answer).proceed);
            assert o.Completed? && p.Completed? && o.visited == p.visited;
            assert o.final == s3 && p.final == s3;
            assert o.output == p.output;
          }
        }
      }
    }
  }

  /** The candidate list detection produces, when it does not raise. */
  function CandidatesOf(env: Env): seq<Candidate>
  {
    if IdentifyStage(env.detectRead).Some? then IdentifyStage(env.detectRead).value else []
  }

  /** SPLIT is entered exactly when the source exists, detection does not raise,
      something is confirmed, and the operator (or `auto_confirm`) approves. */
  lemma SplitReachedExactly(filepath: string, outputDir: Option<string>, autoConfirm: bool, env: Env)
    ensures var o := Run(filepath, outputDir, autoConfirm, env);
      (!o.NotStarted? && Split in o.visited) <==>
        env.sourceExists && !env.detectRead.Unreadable?
        && Confirmed(CandidatesOf(env), env.verdict) != []
        && PromptUser(autoConfirm, env.answer) == Decided(true)
  {
    RunIsPipeline(filepath, outputDir, autoConfirm, env);
  }

  /** The one path through the graph. */
  const GraphPath: seq<Node> := [Identify, Confirm, Prompt, Split]

  /** The nodes are entered along the one path of the graph, stopping somewhere
      after IDENTIFY. */
  lemma VisitedAlongThePath(filepath: string, outputDir: Option<string>, autoConfirm: bool, env: Env)
    ensures var o := Run(filepath, outputDir, autoConfirm, env);
      !o.NotStarted? ==>
        1 <= |o.visited| <= |GraphPath| && forall i :: 0 <= i < |o.visited| ==> o.visited[i] == GraphPath[i]
  {
    RunIsPipeline(filepath, outputDir, autoConfirm, env);
    var o := Pipeline(filepath, outputDir, autoConfirm, env);
    if env.sourceExists {
      if IdentifyStage(env.detectRead).None? {
        assert o.visited == [Identify];
      } else if Confirmed(IdentifyStage(env.detectRead).value, env.verdict) == [] {
        assert o.visited == [Identify, Confirm];
      } else if PromptUser(autoConfirm, env.answer) == Decided(true) {
        assert o.visited == [Identify, Confirm, Prompt, Split];
      } else {
        assert o.visited == [Identify, Confirm, Prompt];
      }
    }
  }

  /** When nothing is confirmed the run ends right after CONFIRM and writes nothing. */
  lemma NothingConfirmedEndsEarly(filepath: string, outputDir: Option<string>, autoConfirm: bool, env: Env)
    requires env.sourceExists && !env.detectRead.Unreadable?
    requires Confirmed(CandidatesOf(env), env.verdict) == []
    ensures var o := Run(filepath, outputDir, autoConfirm, env);
      o.Completed? && o.visited == [Identify, Confirm] && o.output.None?
  {
    RunIsPipeline(filepath, outputDir, autoConfirm, env);
  }

  /** When the operator declines (or interrupts), the run ends after PROMPT and
      writes nothing. */
  lemma DeclineWritesNothing(filepath: string, outputDir: Option<string>, autoConfirm: bool, env: Env)
    requires env.sourceExists && !env.detectRead.Unreadable?
    requires Confirmed(CandidatesOf(env), env.verdict) != []
    requires PromptUser(autoConfirm, env.answer) == Decided(false)
    ensures var o := Run(filepath, outputDir, autoConfirm, env);
      o.Completed? && o.visited == [Identify, Confirm, Prompt] && o.output.None?
      && !o.final.userConfirmed
  {
    RunIsPipeline(filepath, outputDir, autoConfirm, env);
  }

  /** What the state holds at every point of a run: the candidates ascend and are
      qualifying lines of the file as first read, and the confirmed chapters are
      a subsequence of them. */
  predicate Consistent(s: RunState, read: ReadResult)
  {
    StrictlyAscending(s.candidates)
    && IsSubsequence(s.confirmed, s.candidates)
    && forall c :: c in s.candidates ==>
         read.Lines? && c.line < |read.lines|
         && c.text == Strip(read.lines[c.line], Whitespace) && IsCandidateText(c.text)
  }

  /** Every node keeps the state consistent (detection runs before anything is confirmed). */
  lemma RunNodeKeepsConsistent(n: Node, s: RunState, env: Env)
    requires n != End && Consistent(s, env.detectRead)
    requires n == Identify ==> s.confirmed == []
    ensures RunNode(n, s, env).Returned? ==> Consistent(RunNode(n, s, env).state, env.detectRead)
  {
    var r := RunNode(n, s, env);
    if n == Identify {
      if env.detectRead.Lines? {
        var ls := env.detectRead.lines;
        assert r.state == s.(candidates := Detected(ls));
        DetectedAscending(ls);
        DetectedSound(ls);
      } else if env.detectRead.NotFound? {
        assert r.state == s.(candidates := []);
      }
    } else if n == Confirm {
      assert r.state == s.(confirmed := Confirmed(s.candidates, env.verdict));
      ConfirmedIsSubsequence(s.candidates, env.verdict);
    } else if n == Prompt {
      assert r.Returned? ==> r.state.candidates == s.candidates && r.state.confirmed == s.confirmed;
    } else {
      assert r.state == s;
    }
  }

  /** Hence so does a whole run from any node. */
  lemma {:induction false} DriveKeepsConsistent(n: Node, s: RunState, env: Env)
    requires Consistent(s, env.detectRead)
    requires n == Identify ==> s.confirmed == []
    ensures Drive(n, s, env).Completed? ==> Consistent(Drive(n, s, env).final, env.detectRead)
    decreases Rank(n)
  {
    if n != End {
      RunNodeKeepsConsistent(n, s, env);
      var r := RunNode(n, s, env);
      if r.Returned? {
        DriveKeepsConsistent(Successor(n, r.state), r.state, env);
      }
    }
  }

  /** A finished run leaves a consistent state, with the confirmed chapters in
      ascending line order. */
  lemma FinalStateConsistent(filepath: string, outputDir: Option<string>, autoConfirm: bool, env: Env)
    ensures var o := Run(filepath, outputDir, autoConfirm, env);
      o.Completed? ==> Consistent(o.final, env.detectRead) && StrictlyAscending(o.final.confirmed)
  {
    var o := Run(filepath, outputDir, autoConfirm, env);
    if env.sourceExists {
      var s0 := InitialState(filepath, outputDir, autoConfirm, env);
      assert Consistent(s0, env.detectRead);
      DriveKeepsConsistent(Identify, s0, env);
      if o.Completed? {
        SubsequenceKeepsAscending(o.final.confirmed, o.final.candidates);
      }
    }
  }

  /** Files and metadata come only from a split of the final state, which holds a
      non-empty approved chapter list; the split writes nothing exactly when the
      directories or the re-read fail. */
  lemma OutputOnlyAfterApproval(filepath: string, outputDir: Option<string>, autoConfirm: bool, env: Env)
    ensures var o := Run(filepath, outputDir, autoConfirm, env);
      o.Completed? && o.output.Some? ==>
        o.final.confirmed != [] && o.final.userConfirmed
        && o.output.value == SplitStage(o.final, env.splitIo)
        && (o.output.value.Aborted? <==> !env.splitIo.dirsOk || !env.splitIo.read.Lines?)
  {
    RunIsPipeline(filepath, outputDir, autoConfirm, env);
  }

  /** When the split re-reads the lines of a consistent state's detection, every
      chapter file that is written opens with the line its title was taken from,
      and the metadata lists those titles in file order. When every write
      succeeds, the files together hold the source from the first chapter on. */
  lemma SplitFilesOpenWithTheirTitles(s: RunState, io: SplitIo)
    requires Consistent(s, io.read)
    ensures SplitStage(s, io).Done? ==>
      var r := SplitStage(s, io);
      && io.read.Lines?
      && |r.files| == |r.metadata.splitFiles|
      && OpenWithTitles(r.files, r.metadata.chapterTitles)
      && (s.confirmed != [] && (forall k :: 0 <= k < |s.confirmed| ==> io.writeOk(k)) ==>
            CoverFromFirstChapter(r.files, io.read.lines, s.confirmed))
  {
    if SplitStage(s, io).Done? {
      var lines := io.read.lines;
      var chapters := s.confirmed;
      var r := SplitStage(s, io);
      assert r.files == FilesOf(lines, chapters, io.writeOk);
      assert r.metadata.chapterTitles == TitlesOf(chapters, io.writeOk);
      assert r.metadata.splitFiles == PathsOf(s.taskId, chapters, io.writeOk);
      assert StrictlyAscending(chapters)
        && forall c :: c in chapters ==> c.line < |lines| && c.text == Strip(lines[c.line], Whitespace)
      by {
        SubsequenceKeepsAscending(chapters, s.candidates);
      }
      RecordsFaithful(lines, chapters, s.taskId, io.writeOk);
    }
  }

  /** The same for a whole run whose split re-reads the file detection read: the
      files the run writes open with their titles, in metadata order. */
  lemma ChapterFilesOpenWithTheirTitles(filepath: string, outputDir: Option<string>, autoConfirm: bool, env: Env)
    requires env.splitIo.read == env.detectRead
    ensures var o := Run(filepath, outputDir, autoConfirm, env);
      o.Completed? && o.output.Some? && o.output.value.Done? ==>
        var r := o.output.value;
        && env.detectRead.Lines? && o.final.confirmed != []
        && |r.files| == |r.metadata.splitFiles|
        && OpenWithTitles(r.files, r.metadata.chapterTitles)
        && ((forall k :: 0 <= k < |o.final.confirmed| ==> env.splitIo.writeOk(k)) ==>
              CoverFromFirstChapter(r.files, env.detectRead.lines, o.final.confirmed))
  {
    var o := Run(filepath, outputDir, autoConfirm, env);
    FinalStateConsistent(filepath, outputDir, autoConfirm, env);
    OutputOnlyAfterApproval(filepath, outputDir, autoConfirm, env);
    if o.Completed? && o.output.Some? {
      SplitFilesOpenWithTheirTitles(o.final, env.splitIo);
    }
  }
}
