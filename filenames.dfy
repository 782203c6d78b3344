/** `clean_filename` (utils.py): turning a chapter title into a file-name stem. */
module FileNames {
  import opened PyStr

  /** The characters `clean_filename`'s regular expression deletes (backslash, slash,
      asterisk, question mark, colon, double quote, angle brackets and bar): those
      Windows or Unix refuse in a file name. */
  const Illegal: set<char> := {'\\', '/', '*', '?', ':', '\"', '<', '>', '|'}

  /** The characters `strip('_. ')` removes from both ends. */
  const EdgeChars: set<char> := {'_', '.', ' '}

  /** What an otherwise empty result is replaced by. */
  const Fallback: string := "untitled"

  /** The default of the `max_length` parameter. */
  const DefaultMaxLength: int := 60

  /** A character `clean_filename` lets through: not illegal, not a blank, not a tab. */
  predicate SafeChar(c: char)
  {
    c !in Illegal && c != ' ' && c != '\t'
  }

  /** The `re.sub` call of `clean_filename`: deletes every illegal character and
      keeps the others in order. */
  function RemoveIllegal(s: string): (r: string)
    ensures |r| <= |s|
    ensures forall i :: 0 <= i < |r| ==> r[i] !in Illegal && r[i] in s
  {
    if s == [] then []
    else
      var rest := RemoveIllegal(s[1..]);
      assert forall i :: 0 <= i < |rest| ==> rest[i] in s by {
        forall i | 0 <= i < |rest| ensures rest[i] in s {
          var k :| 0 <= k < |s[1..]| && s[1..][k] == rest[i];
          assert s[k + 1] == rest[i];
        }
      }
      if s[0] in Illegal then rest else [s[0]] + rest
  }

  /** `RemoveIllegal` leaves a string alone exactly when it holds no illegal character. */
  lemma {:induction false} RemoveIllegalFixedPoint(s: string)
    ensures RemoveIllegal(s) == s <==> forall i :: 0 <= i < |s| ==> s[i] !in Illegal
  {
    if s != [] {
      RemoveIllegalFixedPoint(s[1..]);
      if s[0] !in Illegal && forall i :: 0 <= i < |s| ==> s[i] !in Illegal {
        assert forall i :: 0 <= i < |s[1..]| ==> s[1..][i] !in Illegal by {
          forall i | 0 <= i < |s[1..]| ensures s[1..][i] !in Illegal {
            assert s[1..][i] == s[i + 1];
          }
        }
      }
      if RemoveIllegal(s) == s {
        assert s[0] !in Illegal;
      }
    }
  }

  /** The deletion works character by character: a legal character is kept and an
      illegal one dropped. */
  lemma RemoveIllegalChar(c: char)
    ensures RemoveIllegal([c]) == if c in Illegal then [] else [c]
  {
    assert [c][1..] == [];
  }

  /** The deletion distributes over concatenation, so it keeps every legal
      character, in order. */
  lemma {:induction false} RemoveIllegalAppend(a: string, b: string)
    ensures RemoveIllegal(a + b) == RemoveIllegal(a) + RemoveIllegal(b)
  {
    if a != [] {
      assert (a + b)[0] == a[0] && (a + b)[1..] == a[1..] + b;
      RemoveIllegalAppend(a[1..], b);
    } else {
      assert a + b == b;
    }
  }

  /** Illegal characters removed, then blanks and tabs turned into underscores in
      place: the result lines up position by position with what the deletion keeps. */
  function Sanitize(title: string): (r: string)
    ensures |r| == |RemoveIllegal(title)| <= |title|
    ensures forall i :: 0 <= i < |r| ==>
      r[i] == (if RemoveIllegal(title)[i] in {' ', '\t'} then '_' else RemoveIllegal(title)[i])
    ensures forall i :: 0 <= i < |r| ==> SafeChar(r[i]) && (r[i] in title || r[i] == '_')
  {
    ReplaceChar(ReplaceChar(RemoveIllegal(title), ' ', '_'), '\t', '_')
  }

  /** A title without illegal characters, blanks or tabs is not changed by `Sanitize`. */
  lemma SanitizeFixedPoint(t: string)
    requires forall i :: 0 <= i < |t| ==> SafeChar(t[i])
    ensures Sanitize(t) == t
  {
    RemoveIllegalFixedPoint(t);
    ReplaceAbsent(t, ' ', '_');
    ReplaceAbsent(t, '\t', '_');
  }

  /** What `clean_filename` produces before the fallback: sanitized, stripped of
      underscores, dots and blanks at both ends, and cut to `maxLength` characters
      when longer (Python's `title[:max_length]`, so a negative bound drops that many
      characters from the end). */
  function Trimmed(title: string, maxLength: int): string
  {
    var stripped := Strip(Sanitize(title), EdgeChars);
    if |stripped| > maxLength then PyPrefix(stripped, maxLength) else stripped
  }

  /** What survives stripping and truncation keeps the characters of the sanitized
      title, starts outside `EdgeChars` and respects a non-negative bound. */
  lemma TrimmedFacts(title: string, maxLength: int)
    ensures var t := Trimmed(title, maxLength);
      && (forall i :: 0 <= i < |t| ==> SafeChar(t[i]) && (t[i] in title || t[i] == '_'))
      && (t == [] || t[0] !in EdgeChars)
      && (0 <= maxLength ==> |t| <= maxLength)
  {
    var s := Sanitize(title);
    var stripped := Strip(s, EdgeChars);
    var t := Trimmed(title, maxLength);
    StripIsTrimmedSlice(s, EdgeChars);
    var a := SkipForward(s, EdgeChars, 0);
    assert |t| <= |stripped| && t == stripped[..|t|];
    forall i | 0 <= i < |t| ensures SafeChar(t[i]) && (t[i] in title || t[i] == '_') {
      assert t[i] == stripped[i] == s[a + i];
    }
  }

  /** `clean_filename(title, max_length)`. */
  function CleanFilename(title: string, maxLength: int): (r: string)
    ensures r != []
    ensures forall i :: 0 <= i < |r| ==> SafeChar(r[i])
    ensures r[0] !in EdgeChars
    ensures 0 <= maxLength ==> |r| <= maxLength || r == Fallback
    ensures r == Fallback || forall i :: 0 <= i < |r| ==> r[i] in title || r[i] == '_'
    ensures r == Fallback <==> Trimmed(title, maxLength) == [] || Trimmed(title, maxLength) == Fallback
  {
    var t := Trimmed(title, maxLength);
    TrimmedFacts(title, maxLength);
    FallbackIsClean();
    if t == [] then Fallback else t
  }

  /** The fallback name is made of lower-case letters only. */
  lemma FallbackIsClean()
    ensures forall i :: 0 <= i < |Fallback| ==> SafeChar(Fallback[i])
    ensures Fallback[0] !in EdgeChars && Fallback[|Fallback| - 1] !in EdgeChars
  {
    forall i | 0 <= i < |Fallback| ensures SafeChar(Fallback[i]) {
      assert 'a' <= Fallback[i] <= 'z';
    }
  }

  /** A title that `clean_filename` leaves exactly as it is. */
  predicate IsClean(t: string, maxLength: int)
  {
    && t != []
    && |t| <= maxLength
    && (forall i :: 0 <= i < |t| ==> SafeChar(t[i]))
    && t[0] !in EdgeChars
    && t[|t| - 1] !in EdgeChars
  }

  /** `clean_filename` returns a title unchanged exactly when it is already clean.
      `"untitled"` is the exception: it also comes back from any bound under 1, by
      way of the fallback. */
  lemma CleanFixedPoint(t: string, maxLength: int)
    requires t != Fallback
    ensures CleanFilename(t, maxLength) == t <==> IsClean(t, maxLength)
  {
    if IsClean(t, maxLength) {
      SanitizeFixedPoint(t);
      StripFixedPoint(t, EdgeChars);
    }
    if CleanFilename(t, maxLength) == t {
      UnchangedIsClean(t, maxLength);
    }
  }

  /** The "only if" half: a title that comes back unchanged, other than through
      the fallback, was clean. */
  lemma UnchangedIsClean(t: string, maxLength: int)
    requires Trimmed(t, maxLength) == t != []
    ensures IsClean(t, maxLength)
  {
    var s := Sanitize(t);
    var stripped := Strip(s, EdgeChars);
    StripIsTrimmedSlice(s, EdgeChars);
    assert |stripped| <= |s| <= |t|;
    assert stripped == t;
    assert |s| == |t| && SkipForward(s, EdgeChars, 0) == 0;
    assert s == t;
  }

  /** When nothing had to be cut off, cleaning the result again changes nothing. The
      bound matters: cutting `"ab_c"` to 3 characters leaves `"ab_"`, which a second
      pass strips to `"ab"`. */
  lemma CleanIdempotentWithoutTruncation(title: string, maxLength: int)
    requires |Strip(Sanitize(title), EdgeChars)| <= maxLength
    requires |Fallback| <= maxLength
    ensures CleanFilename(CleanFilename(title, maxLength), maxLength) == CleanFilename(title, maxLength)
  {
    var r := CleanFilename(title, maxLength);
    if r == Fallback {
      FallbackIsClean();
      assert IsClean(Fallback, maxLength);
      assert CleanFilename(Fallback, maxLength) == Fallback by {
        SanitizeFixedPoint(Fallback);
        StripFixedPoint(Fallback, EdgeChars);
      }
    } else {
      var s := Sanitize(title);
      StripIsTrimmedSlice(s, EdgeChars);
      assert r == Strip(s, EdgeChars);
      assert IsClean(r, maxLength);
      CleanFixedPoint(r, maxLength);
    }
  }

  /** The example above, worked out: truncation can leave an underscore at the end,
      which a second pass removes. */
  lemma TruncationCanExposeEdge()
    ensures CleanFilename("ab_c", 3) == "ab_"
    ensures CleanFilename("ab_", 3) == "ab"
  {
    FirstPass();
    SecondPass();
  }

  /** Cutting `"ab_c"` to 3 characters leaves a trailing underscore. */
  lemma FirstPass()
    ensures CleanFilename("ab_c", 3) == "ab_"
  {
    SanitizeExample();
    StripExample("ab_c");
    PrefixExample("ab_c");
  }

  /** Cleaning `"ab_"` again strips that underscore. */
  lemma SecondPass()
    ensures CleanFilename("ab_", 3) == "ab"
  {
    SanitizeExample();
    TrimExample("ab_");
  }

  /** The two example titles need no sanitizing. */
  lemma SanitizeExample()
    ensures Sanitize("ab_c") == "ab_c" && Sanitize("ab_") == "ab_"
  {
    SanitizeUnchanged("ab_c");
    SanitizeUnchanged("ab_");
  }

  /** A title made of `a`, `b`, `_` and `c` is already sanitized. */
  lemma SanitizeUnchanged(s: string)
    requires forall i :: 0 <= i < |s| ==> s[i] in {'a', 'b', '_', 'c'}
    ensures Sanitize(s) == s
  {
    forall i | 0 <= i < |s| ensures SafeChar(s[i]) {
      assert s[i] in {'a', 'b', '_', 'c'};
    }
    SanitizeFixedPoint(s);
  }

  /** `"ab_c"` has nothing to strip.
      The string comes in as a parameter fixed by the precondition rather than as a
      literal argument: with a literal, the verifier unfolds the recursive string
      functions on it far more than the proof needs. */
  lemma StripExample(s: string)
    requires s == "ab_c"
    ensures Strip(s, EdgeChars) == s
  {
    assert s[0] !in EdgeChars && s[|s| - 1] !in EdgeChars;
    StripFixedPoint(s, EdgeChars);
  }

  /** Its first three characters (the string is passed in as above). */
  lemma PrefixExample(s: string)
    requires s == "ab_c"
    ensures |s| == 4 && PyPrefix(s, 3) == "ab_"
  {
    assert s[..3] == "ab_";
  }

  /** Stripping `"ab_"` drops its underscore (the string is passed in as above). */
  lemma TrimExample(s: string)
    requires s == "ab_"
    ensures Strip(s, EdgeChars) == "ab"
  {
    assert s[0] !in EdgeChars && SkipForward(s, EdgeChars, 0) == 0;
    assert s[2] in EdgeChars && s[1] !in EdgeChars;
    assert SkipBackward(s, EdgeChars, 3) == 2;
    assert s[0..2] == "ab";
  }
}
