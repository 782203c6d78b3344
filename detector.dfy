/** Stage 1: heuristic detection of lines that may start a chapter
    (`_node_identify_candidates`, core.py). */
module Detector {
  import opened PyStr
  import opened GraphState

  /** The Chinese numerals of the character class in the chapter pattern. */
  const ChineseNumerals: set<char> :=
    {'一', '二', '三', '四', '五', '六', '七', '八', '九', '十', '百', '千', '万'}

  /** `\d`, restricted to ASCII digits and full-width digits. */
  predicate IsDigit(c: char)
  {
    ('0' <= c <= '9') || ('０' <= c <= '９')
  }

  /** The structural keywords of rule 2 (already lower case). */
  const Keywords: seq<string> := ["序章", "序言", "序幕", "楔子", "后记", "番外", "prologue", "epilogue"]

  /** Rule 1 accepts only lines shorter than this. */
  const PatternLengthBound := 50
  /** Rule 2 accepts only lines shorter than this. */
  const KeywordLengthBound := 30

  /** `[一二…万\d]+章` at the start of `u`. The run of numerals is maximal because
      `章` is not in the class, so no backtracking is needed. */
  predicate NumeralsThenZhang(u: string)
    decreases |u|
  {
    |u| >= 2 && (u[0] in ChineseNumerals || IsDigit(u[0]))
    && (u[1] == '章' || NumeralsThenZhang(u[1..]))
  }

  /** `第[…]+章` at the start of `u`. */
  predicate ChineseHeading(u: string)
  {
    |u| >= 1 && u[0] == '第' && NumeralsThenZhang(u[1..])
  }

  /** `chapter\s*\d+` at the start of `u`, ignoring the case of `chapter`. */
  predicate EnglishHeading(u: string)
  {
    |u| >= 7 && Lower(u[..7]) == "chapter"
    && var rest := TrimLeft(u[7..], Whitespace);
       rest != [] && IsDigit(rest[0])
  }

  /** `chapter_pattern.match(t)` for `^\s*(第[…]+章|chapter\s*\d+)` with `re.IGNORECASE`. */
  predicate MatchesChapterPattern(t: string)
  {
    var u := TrimLeft(t, Whitespace);
    ChineseHeading(u) || EnglishHeading(u)
  }

  /** `any(kw in t.lower() for kw in keywords)`. */
  predicate MentionsKeyword(t: string)
  {
    exists k :: 0 <= k < |Keywords| && Contains(Lower(t), Keywords[k])
  }

  /** The two acceptance rules, applied to an already stripped, non-blank line. */
  predicate IsCandidateText(t: string)
  {
    t != []
    && ((MatchesChapterPattern(t) && |t| < PatternLengthBound)
        || (MentionsKeyword(t) && |t| < KeywordLengthBound))
  }

  /** A reference reading of `[一二…万\d]+章`: `n` characters of the class, then `章`. */
  predicate NumeralRun(u: string, n: nat)
  {
    1 <= n < |u|
    && (forall i :: 0 <= i < n ==> u[i] in ChineseNumerals || IsDigit(u[i]))
    && u[n] == '章'
  }

  /** `NumeralsThenZhang` accepts exactly the strings that open with some run of
      numerals followed by `章`. */
  lemma {:induction false} NumeralsThenZhangIff(u: string)
    ensures NumeralsThenZhang(u) <==> exists n :: NumeralRun(u, n)
    decreases |u|
  {
    if NumeralsThenZhang(u) {
      if u[1] == '章' {
        assert NumeralRun(u, 1);
      } else {
        NumeralsThenZhangIff(u[1..]);
        var m: nat :| NumeralRun(u[1..], m);
        forall i | 0 <= i < m + 1 ensures u[i] in ChineseNumerals || IsDigit(u[i]) {
          if i > 0 {
            assert u[i] == u[1..][i - 1];
          }
        }
        assert u[m + 1] == u[1..][m];
        assert NumeralRun(u, m + 1);
      }
    }
    if exists n :: NumeralRun(u, n) {
      var n: nat :| NumeralRun(u, n);
      assert u[0] in ChineseNumerals || IsDigit(u[0]);
      if n > 1 {
        forall i | 0 <= i < n - 1 ensures u[1..][i] in ChineseNumerals || IsDigit(u[1..][i]) {
          assert u[1..][i] == u[i + 1];
        }
        assert NumeralRun(u[1..], n - 1);
        NumeralsThenZhangIff(u[1..]);
      }
    }
  }

  /** A reference reading of `chapter\s*\d` at the start of `u`: the word in any
      case, `n` whitespace characters, then a digit. */
  predicate DigitsAfterChapter(u: string, n: nat)
  {
    7 + n < |u|
    && Lower(u[..7]) == "chapter"
    && (forall i :: 7 <= i < 7 + n ==> u[i] in Whitespace)
    && IsDigit(u[7 + n])
  }

  /** A digit is never whitespace, and a whitespace character never starts a heading. */
  lemma BlankIsNoHeadingStart(c: char)
    ensures IsDigit(c) ==> c !in Whitespace
    ensures c in Whitespace ==> c != '第' && LowerChar(c) != 'c'
  {
  }

  /** No heading starts with a whitespace character. */
  lemma NoHeadingAtBlank(u: string)
    requires u != [] && u[0] in Whitespace
    ensures !ChineseHeading(u) && !EnglishHeading(u)
  {
    BlankIsNoHeadingStart(u[0]);
    if |u| >= 7 {
      assert Lower(u[..7])[0] == LowerChar(u[0]);
    }
  }

  /** `EnglishHeading` accepts exactly the strings of the reference reading. */
  lemma EnglishHeadingIff(u: string)
    ensures EnglishHeading(u) <==> exists n :: DigitsAfterChapter(u, n)
  {
    if |u| >= 7 {
      var v := u[7..];
      var k := SkipForward(v, Whitespace, 0);
      SkipForwardSpec(v, Whitespace, 0);
      assert TrimLeft(v, Whitespace) == v[k..];
      if EnglishHeading(u) {
        forall i | 7 <= i < 7 + k ensures u[i] in Whitespace {
          assert u[i] == v[i - 7];
        }
        assert u[7 + k] == v[k];
        assert DigitsAfterChapter(u, k);
      }
      if exists n :: DigitsAfterChapter(u, n) {
        var n: nat :| DigitsAfterChapter(u, n);
        assert v[n] == u[7 + n];
        if n < k {
          BlankIsNoHeadingStart(u[7 + n]);
        }
        assert n == k;
      }
    }
  }

  /** A reference reading of `^\s*(第[…]+章|chapter\s*\d+)`: `p` whitespace
      characters, then one of the two headings. */
  predicate HeadingAfterBlanks(t: string, p: nat)
  {
    p <= |t|
    && (forall i :: 0 <= i < p ==> t[i] in Whitespace)
    && (ChineseHeading(t[p..]) || EnglishHeading(t[p..]))
  }

  /** `MatchesChapterPattern` accepts exactly the strings of the reference reading:
      the greedy `\s*` loses no match, since no heading starts with whitespace. */
  lemma MatchesChapterPatternIff(t: string)
    ensures MatchesChapterPattern(t) <==> exists p :: HeadingAfterBlanks(t, p)
  {
    if MatchesChapterPattern(t) {
      PatternFindsHeading(t);
    }
    if exists p :: HeadingAfterBlanks(t, p) {
      var p: nat :| HeadingAfterBlanks(t, p);
      HeadingOnlyAfterAllBlanks(t, p);
    }
  }

  /** A match has its heading right after the whole leading run of whitespace. */
  lemma PatternFindsHeading(t: string)
    requires MatchesChapterPattern(t)
    ensures HeadingAfterBlanks(t, SkipForward(t, Whitespace, 0))
  {
    SkipForwardSpec(t, Whitespace, 0);
  }

  /** A heading after some whitespace sits after all of it, so the pattern matches. */
  lemma HeadingOnlyAfterAllBlanks(t: string, p: nat)
    requires HeadingAfterBlanks(t, p)
    ensures p == SkipForward(t, Whitespace, 0) && MatchesChapterPattern(t)
  {
    var k := SkipForward(t, Whitespace, 0);
    SkipForwardSpec(t, Whitespace, 0);
    if p < k {
      NoHeadingAtBlank(t[p..]);
    }
  }

  /** The heading of a typical Chinese chapter, `第一章 开端`, matches.
      The string comes in as a parameter fixed by the precondition rather than as a
      literal argument: with a literal, the verifier unfolds the recursive string
      functions on it far more than the proof needs. */
  lemma ChineseHeadingExample(t: string)
    requires t == "第一章 开端"
    ensures MatchesChapterPattern(t)
  {
    assert SkipForward(t, Whitespace, 0) == 0;
    assert t[1..][0] == '一' && t[1..][1] == '章';
  }

  /** `CHAPTER 12` matches: the word is matched in any case, then a blank, then a
      digit (the string is passed in as above). */
  lemma EnglishHeadingExample(t: string)
    requires t == "CHAPTER 12"
    ensures MatchesChapterPattern(t)
  {
    assert SkipForward(t, Whitespace, 0) == 0;
    assert t[..7] == "CHAPTER";
    assert Lower(t[..7]) == "chapter";
    assert DigitsAfterChapter(t, 1);
    EnglishHeadingIff(t);
  }

  /** `第章` does not match: the numeral run must not be empty (the string is passed
      in as above). */
  lemma EmptyNumeralsExample(t: string)
    requires t == "第章"
    ensures !MatchesChapterPattern(t)
  {
    assert SkipForward(t, Whitespace, 0) == 0;
    assert |t[1..]| == 1;
  }

  /** What the loop body appends for line `i` with raw content `raw`. */
  function Classify(i: nat, raw: string): (r: seq<Candidate>)
    ensures |r| <= 1
    ensures r != [] <==> IsCandidateText(Strip(raw, Whitespace))
    ensures r != [] ==> r[0] == Candidate(i, Strip(raw, Whitespace))
  {
    var t := Strip(raw, Whitespace);
    if t == [] then []
    else if MatchesChapterPattern(t) && |t| < PatternLengthBound then [Candidate(i, t)]
    else if MentionsKeyword(t) && |t| < KeywordLengthBound then [Candidate(i, t)]
    else []
  }

  /** The candidate list of a file with these lines, in the order the loop finds them. */
  function Detected(lines: seq<string>): seq<Candidate>
  {
    if lines == [] then []
    else Detected(lines[..|lines| - 1]) + Classify(|lines| - 1, lines[|lines| - 1])
  }

  /** Candidates are strictly ascending by line index and every index is a line of the file. */
  lemma {:induction false} DetectedAscending(lines: seq<string>)
    ensures StrictlyAscending(Detected(lines))
    ensures forall c :: c in Detected(lines) ==> c.line < |lines|
  {
    if lines != [] {
      var init := lines[..|lines| - 1];
      var last := Classify(|lines| - 1, lines[|lines| - 1]);
      var d := Detected(lines);
      DetectedAscending(init);
      assert d == Detected(init) + last;
      forall c | c in d ensures c.line < |lines| {
        if c !in Detected(init) {
          assert c in last;
        }
      }
      forall i, j | 0 <= i < j < |d| ensures d[i].line < d[j].line {
        if j >= |Detected(init)| {
          assert d[i] in Detected(init);
        } else {
          assert d[i] == Detected(init)[i] && d[j] == Detected(init)[j];
        }
      }
    }
  }

  /** Every candidate is a qualifying line of the file, recorded with its stripped text. */
  lemma {:induction false} DetectedSound(lines: seq<string>)
    ensures forall c :: c in Detected(lines) ==>
      c.line < |lines| && c.text == Strip(lines[c.line], Whitespace)
      && c.text != [] && IsCandidateText(c.text)
  {
    if lines != [] {
      var init := lines[..|lines| - 1];
      var last := Classify(|lines| - 1, lines[|lines| - 1]);
      DetectedSound(init);
      assert Detected(lines) == Detected(init) + last;
      forall c | c in Detected(lines)
        ensures c.line < |lines| && c.text == Strip(lines[c.line], Whitespace)
        ensures c.text != [] && IsCandidateText(c.text)
      {
        if c in Detected(init) {
          assert lines[c.line] == init[c.line];
        } else {
          assert c in last;
        }
      }
    }
  }

  /** Every qualifying line of the file is found. */
  lemma {:induction false} DetectedComplete(lines: seq<string>, i: nat)
    requires i < |lines| && IsCandidateText(Strip(lines[i], Whitespace))
    ensures Candidate(i, Strip(lines[i], Whitespace)) in Detected(lines)
  {
    var init := lines[..|lines| - 1];
    if i < |lines| - 1 {
      assert init[i] == lines[i];
      DetectedComplete(init, i);
    }
  }

  /** A blank line (only whitespace) is never a candidate. */
  lemma BlankLineSkipped(lines: seq<string>, i: nat)
    requires i < |lines| && forall k :: 0 <= k < |lines[i]| ==> lines[i][k] in Whitespace
    ensures forall c :: c in Detected(lines) ==> c.line != i
  {
    DetectedSound(lines);
    StripIsTrimmedSlice(lines[i], Whitespace);
  }

  /** Two strictly ascending lists with the same elements are equal. The loop
      already produces a strictly ascending list, so the deduplicate-and-sort step
      `sorted(set(candidates), key=index)` returns it unchanged. */
  lemma {:induction false} AscendingIsCanonical(a: seq<Candidate>, b: seq<Candidate>)
    requires StrictlyAscending(a) && StrictlyAscending(b)
    ensures (forall c :: c in a <==> c in b) ==> a == b
    decreases |a|
  {
    if a == [] && b != [] {
      assert b[0] !in a;
    } else if a != [] && b == [] {
      assert a[0] !in b;
    } else if a != [] && b != [] && forall c :: c in a <==> c in b {
      HeadIsLeast(a, b[0]);
      HeadIsLeast(b, a[0]);
      forall c ensures c in a[1..] <==> c in b[1..] {
        if c in a[1..] {
          TailMember(a, c);
          TailMember(b, c);
        }
        if c in b[1..] {
          TailMember(b, c);
          TailMember(a, c);
        }
      }
      AscendingIsCanonical(a[1..], b[1..]);
    }
  }

  /** In a strictly ascending list, the head comes first among its members. */
  lemma HeadIsLeast(a: seq<Candidate>, c: Candidate)
    requires StrictlyAscending(a) && c in a
    ensures a[0].line <= c.line
    ensures c.line == a[0].line ==> c == a[0]
  {
  }

  /** In a strictly ascending list, a member lies in the tail exactly when it
      comes after the head. */
  lemma TailMember(a: seq<Candidate>, c: Candidate)
    requires StrictlyAscending(a) && a != [] && c in a
    ensures c in a[1..] <==> c != a[0]
  {
    var k :| 0 <= k < |a| && a[k] == c;
    if k > 0 {
      assert a[1..][k - 1] == c;
    }
    if c in a[1..] {
      var m :| 0 <= m < |a[1..]| && a[1..][m] == c;
      assert a[m + 1] == c;
    }
  }

  /** The detection loop over the lines of an open file. */
  method IdentifyCandidates(lines: seq<string>) returns (candidates: seq<Candidate>)
    ensures candidates == Detected(lines)
    ensures StrictlyAscending(candidates)
    ensures forall c :: c in candidates ==> c.line < |lines| && IsCandidateText(c.text)
  {
    candidates := [];
    var i := 0;
    while i < |lines|
      invariant 0 <= i <= |lines|
      invariant candidates == Detected(lines[..i])
    {
      var lineText := Strip(lines[i], Whitespace);
      assert lines[..i + 1][..i] == lines[..i];
      assert Detected(lines[..i + 1]) == candidates + Classify(i, lines[i]);
      if lineText != [] {
        if MatchesChapterPattern(lineText) && |lineText| < PatternLengthBound {
          candidates := candidates + [Candidate(i, lineText)];
        } else if MentionsKeyword(lineText) && |lineText| < KeywordLengthBound {
          candidates := candidates + [Candidate(i, lineText)];
        }
      }
      i := i + 1;
    }
    assert lines[..i] == lines;
    DetectedAscending(lines);
    DetectedSound(lines);
  }

  /** The stage as a whole: a missing file gives no candidates, any other read
      failure escapes the stage (`None`), a readable file gives its candidates. */
  function IdentifyStage(read: ReadResult): (r: Option<seq<Candidate>>)
    ensures read.NotFound? ==> r == Some([])
    ensures read.Unreadable? <==> r.None?
    ensures read.Lines? ==> r == Some(Detected(read.lines))
  {
    match read
    case NotFound => Some([])
    case Unreadable => None
    case Lines(ls) => Some(Detected(ls))
  }
}
