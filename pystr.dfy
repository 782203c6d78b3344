/** The few Python string built-ins the splitter relies on, stated over `string`
    (a sequence of Unicode scalar values, as Python's `str` is a sequence of code points). */
module PyStr {

  /** The characters `str.isspace` accepts, which is what `str.strip()` with no
      argument removes and what `\s` matches in a `str` regular expression. */
  const Whitespace: set<char> :=
    {'\t', '\n', '\U{000B}', '\U{000C}', '\r', '\U{001C}', '\U{001D}', '\U{001E}', '\U{001F}',
     ' ', '\U{0085}', '\U{00A0}', '\U{1680}',
     '\U{2000}', '\U{2001}', '\U{2002}', '\U{2003}', '\U{2004}', '\U{2005}', '\U{2006}',
     '\U{2007}', '\U{2008}', '\U{2009}', '\U{200A}',
     '\U{2028}', '\U{2029}', '\U{202F}', '\U{205F}', '\U{3000}'}

  /** The first position at or after `i` whose character is not in `cs` (or `|s|`). */
  function SkipForward(s: string, cs: set<char>, i: nat): (k: nat)
    requires i <= |s|
    ensures i <= k <= |s|
    decreases |s| - i
  {
    if i < |s| && s[i] in cs then SkipForward(s, cs, i + 1) else i
  }

  /** `SkipForward` passes over characters in `cs` only, and stops at one outside it. */
  lemma {:induction false} SkipForwardSpec(s: string, cs: set<char>, i: nat)
    requires i <= |s|
    ensures var k := SkipForward(s, cs, i);
      (forall x :: i <= x < k ==> s[x] in cs) && (k < |s| ==> s[k] !in cs)
    decreases |s| - i
  {
    if i < |s| && s[i] in cs {
      SkipForwardSpec(s, cs, i + 1);
    }
  }

  /** The last end position at or before `j` whose preceding character is not in
      `cs` (or 0). */
  function SkipBackward(s: string, cs: set<char>, j: nat): (k: nat)
    requires j <= |s|
    ensures k <= j
  {
    if 0 < j && s[j - 1] in cs then SkipBackward(s, cs, j - 1) else j
  }

  /** `SkipBackward` passes over characters in `cs` only, and stops after one outside it. */
  lemma {:induction false} SkipBackwardSpec(s: string, cs: set<char>, j: nat)
    requires j <= |s|
    ensures var k := SkipBackward(s, cs, j);
      (forall x :: k <= x < j ==> s[x] in cs) && (0 < k ==> s[k - 1] !in cs)
  {
    if 0 < j && s[j - 1] in cs {
      SkipBackwardSpec(s, cs, j - 1);
    }
  }

  /** `s.lstrip(cs)`: drops the longest prefix made of characters in `cs`. */
  function TrimLeft(s: string, cs: set<char>): (r: string)
    ensures |r| <= |s| && r == s[|s| - |r|..]
    ensures r == [] || r[0] !in cs
    ensures forall i :: 0 <= i < |s| - |r| ==> s[i] in cs
  {
    SkipForwardSpec(s, cs, 0);
    s[SkipForward(s, cs, 0)..]
  }

  /** `s.rstrip(cs)`: drops the longest suffix made of characters in `cs`. */
  function TrimRight(s: string, cs: set<char>): (r: string)
    ensures |r| <= |s| && r == s[..|r|]
    ensures r == [] || r[|r| - 1] !in cs
    ensures forall i :: |r| <= i < |s| ==> s[i] in cs
  {
    SkipBackwardSpec(s, cs, |s|);
    s[..SkipBackward(s, cs, |s|)]
  }

  /** `s.strip(cs)`: the piece of `s` between the leading and the trailing run of
      characters in `cs`. */
  function Strip(s: string, cs: set<char>): string
  {
    var lo := SkipForward(s, cs, 0);
    var hi := SkipBackward(s, cs, |s|);
    if hi <= lo then [] else s[lo..hi]
  }

  /** What `Strip` keeps is a contiguous piece of `s` that begins and ends with a
      character outside `cs`, and what it drops on either side is made of `cs` only. */
  lemma StripIsTrimmedSlice(s: string, cs: set<char>)
    ensures var lo := SkipForward(s, cs, 0); var r := Strip(s, cs);
      && lo + |r| <= |s|
      && r == s[lo..lo + |r|]
      && (r == [] || (r[0] !in cs && r[|r| - 1] !in cs))
      && (forall i :: 0 <= i < lo ==> s[i] in cs)
      && (forall i :: lo + |r| <= i < |s| ==> s[i] in cs)
  {
    var lo := SkipForward(s, cs, 0);
    SkipForwardSpec(s, cs, 0);
    SkipBackwardSpec(s, cs, |s|);
    if lo < |s| {
      assert lo < SkipBackward(s, cs, |s|);
    }
  }

  /** `Strip` is `lstrip` followed by `rstrip`, as Python defines `strip`. */
  lemma StripIsBothTrims(s: string, cs: set<char>)
    ensures Strip(s, cs) == TrimRight(TrimLeft(s, cs), cs)
  {
    var lo := SkipForward(s, cs, 0);
    var l := TrimLeft(s, cs);
    var hi := SkipBackward(s, cs, |s|);
    var k := SkipBackward(l, cs, |l|);
    SkipForwardSpec(s, cs, 0);
    SkipBackwardSpec(s, cs, |s|);
    if lo < |s| {
      assert lo < hi;
      assert |l| - k == |s| - hi by {
        SkipBackwardShift(s, cs, lo, |s|);
      }
      assert l[..k] == s[lo..hi];
    }
  }

  /** Skipping backwards in a suffix of `s` stops where it stops in `s`, shifted. */
  lemma {:induction false} SkipBackwardShift(s: string, cs: set<char>, lo: nat, j: nat)
    requires lo <= j <= |s| && (lo < SkipBackward(s, cs, j) || SkipBackward(s, cs, j) == lo == j)
    ensures SkipBackward(s[lo..], cs, j - lo) == SkipBackward(s, cs, j) - lo
    decreases j
  {
    if 0 < j - lo && s[j - 1] in cs {
      assert s[lo..][j - lo - 1] == s[j - 1];
      SkipBackwardShift(s, cs, lo, j - 1);
    } else if 0 < j - lo {
      assert s[lo..][j - lo - 1] == s[j - 1];
    }
  }

  /** Stripping leaves a string alone exactly when neither end is in `cs`. */
  lemma StripFixedPoint(s: string, cs: set<char>)
    ensures Strip(s, cs) == s <==> (s == [] || (s[0] !in cs && s[|s| - 1] !in cs))
  {
    StripIsTrimmedSlice(s, cs);
  }

  /** ASCII lower-casing of one character (`str.lower` restricted to A-Z). */
  function LowerChar(c: char): char
  {
    if 'A' <= c <= 'Z' then (c as int + 32) as char else c
  }

  /** ASCII approximation of `str.lower`: lower-cases A-Z and keeps every other character. */
  function Lower(s: string): (r: string)
    ensures |r| == |s|
    ensures forall i :: 0 <= i < |s| ==> r[i] == LowerChar(s[i])
  {
    seq(|s|, i requires 0 <= i < |s| => LowerChar(s[i]))
  }

  /** `s.startswith(w)`. */
  predicate StartsWith(s: string, w: string)
  {
    |w| <= |s| && s[..|w|] == w
  }

  /** `w in s` for strings: `w` occurs as a contiguous substring of `s`. */
  predicate Contains(s: string, w: string)
    decreases |s|
  {
    StartsWith(s, w) || (s != [] && Contains(s[1..], w))
  }

  /** `w` occurs in `s` at offset `k`. */
  predicate OccursAt(s: string, w: string, k: nat)
  {
    k + |w| <= |s| && s[k..k + |w|] == w
  }

  /** An occurrence at any offset makes `Contains` hold. */
  lemma {:induction false} ContainsAt(s: string, w: string, k: nat)
    requires OccursAt(s, w, k)
    ensures Contains(s, w)
    decreases k
  {
    if k > 0 {
      assert s[1..][k - 1..k - 1 + |w|] == s[k..k + |w|];
      ContainsAt(s[1..], w, k - 1);
    }
  }

  /** `Contains` holds only where there is an occurrence at some offset. */
  lemma {:induction false} ContainsOccurs(s: string, w: string)
    requires Contains(s, w)
    ensures exists k :: OccursAt(s, w, k)
    decreases |s|
  {
    if StartsWith(s, w) {
      assert OccursAt(s, w, 0);
    } else {
      ContainsOccurs(s[1..], w);
      var k: nat :| OccursAt(s[1..], w, k);
      assert s[k + 1..k + 1 + |w|] == s[1..][k..k + |w|];
      assert OccursAt(s, w, k + 1);
    }
  }

  /** `w in s` holds exactly when `w` occurs in `s` at some offset. */
  lemma ContainsIffOccurs(s: string, w: string)
    ensures Contains(s, w) <==> exists k :: OccursAt(s, w, k)
  {
    if Contains(s, w) {
      ContainsOccurs(s, w);
    }
    if exists k :: OccursAt(s, w, k) {
      var k: nat :| OccursAt(s, w, k);
      ContainsAt(s, w, k);
    }
  }

  /** Python's `s[a:b]` for non-negative `a` and `b`: both ends are clamped to the
      length, and an empty range gives the empty sequence instead of an error. */
  function PySlice<T>(s: seq<T>, a: nat, b: nat): (r: seq<T>)
    ensures a <= b <= |s| ==> r == s[a..b]
    ensures |s| <= a || b <= a ==> r == []
    ensures a <= |s| <= b ==> r == s[a..]
  {
    var lo := if a < |s| then a else |s|;
    var hi := if b < |s| then b else |s|;
    if hi <= lo then [] else s[lo..hi]
  }

  /** Python's `s[:m]` for any integer `m`: a negative `m` counts from the end. */
  function PyPrefix<T>(s: seq<T>, m: int): (r: seq<T>)
    ensures |r| <= |s| && r == s[..|r|]
    ensures 0 <= m <= |s| ==> |r| == m
    ensures m < 0 ==> |r| == if |s| + m < 0 then 0 else |s| + m
  {
    if m >= |s| then s
    else if m >= 0 then s[..m]
    else if |s| + m <= 0 then []
    else s[..|s| + m]
  }

  /** `s.replace(a, b)` for single characters. */
  function ReplaceChar(s: string, a: char, b: char): (r: string)
    ensures |r| == |s|
    ensures forall i :: 0 <= i < |s| ==> r[i] == if s[i] == a then b else s[i]
  {
    seq(|s|, i requires 0 <= i < |s| => if s[i] == a then b else s[i])
  }

  /** Replacing a character that does not occur changes nothing. */
  lemma ReplaceAbsent(s: string, a: char, b: char)
    requires a !in s
    ensures ReplaceChar(s, a, b) == s
  {
    forall k | 0 <= k < |s| ensures ReplaceChar(s, a, b)[k] == s[k] {
      assert s[k] in s;
    }
  }

  function DigitChar(d: nat): (c: char)
    requires d < 10
    ensures '0' <= c <= '9'
  {
    ('0' as int + d) as char
  }

  /** `str(n)` for a non-negative integer: its decimal digits, no leading zero. */
  function NatToString(n: nat): (s: string)
    ensures s != []
    ensures forall i :: 0 <= i < |s| ==> '0' <= s[i] <= '9'
    ensures |s| > 1 ==> s[0] != '0'
  {
    if n < 10 then [DigitChar(n)] else NatToString(n / 10) + [DigitChar(n % 10)]
  }

  /** The number a string of decimal digits denotes. */
  function DecimalValue(s: string): nat
    requires forall i :: 0 <= i < |s| ==> '0' <= s[i] <= '9'
  {
    if s == [] then 0 else 10 * DecimalValue(s[..|s| - 1]) + (s[|s| - 1] as int - '0' as int)
  }

  /** Reading back the decimal digits of `n` gives `n`. */
  lemma {:induction false} DecimalRoundTrip(n: nat)
    ensures DecimalValue(NatToString(n)) == n
  {
    var s := NatToString(n);
    if n >= 10 {
      DecimalRoundTrip(n / 10);
      assert s[..|s| - 1] == NatToString(n / 10);
    }
  }

  /** Distinct numbers have distinct decimal renderings. */
  lemma NatToStringInjective(m: nat, n: nat)
    requires NatToString(m) == NatToString(n)
    ensures m == n
  {
    DecimalRoundTrip(m);
    DecimalRoundTrip(n);
  }

  /** `posixpath.join(a, b)`: an absolute `b` replaces `a`; otherwise a `/` is
      inserted unless `a` is empty or already ends with one. */
  function PathJoin(a: string, b: string): (r: string)
    ensures b != [] && b[0] == '/' ==> r == b
    ensures (b == [] || b[0] != '/') && (a == [] || a[|a| - 1] == '/') ==> r == a + b
    ensures (b == [] || b[0] != '/') && a != [] && a[|a| - 1] != '/' ==> r == a + "/" + b
  {
    if b != [] && b[0] == '/' then b
    else if a == [] || a[|a| - 1] == '/' then a + b
    else a + "/" + b
  }

  /** `posixpath.basename(p)`: everything after the last `/`. */
  function Basename(p: string): (r: string)
    ensures |r| <= |p| && r == p[|p| - |r|..]
    ensures '/' !in r
    ensures |r| < |p| ==> p[|p| - |r| - 1] == '/'
  {
    if p == [] then []
    else if p[|p| - 1] == '/' then []
    else Basename(p[..|p| - 1]) + [p[|p| - 1]]
  }
}
