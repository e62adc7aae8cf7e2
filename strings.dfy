/** The string operations the source takes from JavaScript: the `\s` character
    class, `String.prototype.trim`, `toLowerCase` (ASCII letters only, see the
    README) and `replace(/\s+/g, '-')`. */
module Strings {

  /** ECMAScript WhiteSpace and LineTerminator code points: what `\s` matches
      and what `trim` removes. */
  predicate IsWhitespace(c: char)
  {
    || c == ' ' || c == '\t' || c == '\n' || c == '\r'
    || c == '\U{000B}' || c == '\U{000C}' || c == '\U{00A0}' || c == '\U{1680}'
    || ('\U{2000}' <= c <= '\U{200A}')
    || c == '\U{2028}' || c == '\U{2029}' || c == '\U{202F}' || c == '\U{205F}'
    || c == '\U{3000}' || c == '\U{FEFF}'
  }

  predicate AllWhitespace(s: string)
  {
    forall k :: 0 <= k < |s| ==> IsWhitespace(s[k])
  }

  /** s without its leading whitespace: the longest suffix not starting with it. */
  function TrimStart(s: string): (r: string)
    ensures |r| <= |s| && r == s[|s| - |r|..]
    ensures AllWhitespace(s[..|s| - |r|])
    ensures r != [] ==> !IsWhitespace(r[0])
  {
    if s != [] && IsWhitespace(s[0]) then
      var r := TrimStart(s[1..]);
      TrimStartStep(s, r);
      r
    else s
  }

  lemma TrimStartStep(s: string, r: string)
    requires s != [] && IsWhitespace(s[0]) && |r| <= |s| - 1
    requires r == s[1..][|s| - 1 - |r|..] && AllWhitespace(s[1..][..|s| - 1 - |r|])
    ensures r == s[|s| - |r|..] && AllWhitespace(s[..|s| - |r|])
  {
    var n := |s| - |r|;
    forall k | 0 <= k < n
      ensures IsWhitespace(s[k])
    {
      if k > 0 {
        assert s[k] == s[1..][..n - 1][k - 1];
      }
    }
  }

  /** s without its trailing whitespace: the longest prefix not ending with it. */
  function TrimEnd(s: string): (r: string)
    ensures |r| <= |s| && r == s[..|r|]
    ensures AllWhitespace(s[|r|..])
    ensures r != [] ==> !IsWhitespace(r[|r| - 1])
  {
    if s != [] && IsWhitespace(s[|s| - 1]) then TrimEnd(s[..|s| - 1]) else s
  }

  /** `s.trim()`. */
  function Trim(s: string): string
  {
    TrimEnd(TrimStart(s))
  }

  /** A trimmed string is empty exactly when the original is all whitespace;
      otherwise it starts and ends with a non-whitespace character. */
  lemma TrimMeaning(s: string)
    ensures Trim(s) == [] <==> AllWhitespace(s)
    ensures Trim(s) != [] ==> !IsWhitespace(Trim(s)[0]) && !IsWhitespace(Trim(s)[|Trim(s)| - 1])
  {
    TrimEmptyWhenBlank(s);
    BlankWhenTrimEmpty(s);
    TrimmedEnds(s);
  }

  lemma TrimEmptyWhenBlank(s: string)
    ensures AllWhitespace(s) ==> Trim(s) == []
  {
    var t := TrimStart(s);
    var r := TrimEnd(t);
    if r != [] {
      var k := |s| - |t|;
      assert s[k] == t[0] == r[0];
      assert !IsWhitespace(s[k]);
    }
  }

  lemma BlankWhenTrimEmpty(s: string)
    ensures Trim(s) == [] ==> AllWhitespace(s)
  {
    var t := TrimStart(s);
    var r := TrimEnd(t);
    if r == [] {
      var k := |s| - |t|;
      assert t == t[|r|..];
      WhitespaceConcat(s[..k], t);
      assert s[..k] + t == s;
    }
  }

  lemma TrimmedEnds(s: string)
    ensures Trim(s) != [] ==> !IsWhitespace(Trim(s)[0]) && !IsWhitespace(Trim(s)[|Trim(s)| - 1])
  {
    var t := TrimStart(s);
    var r := TrimEnd(t);
    if r != [] {
      assert r[0] == t[0];
    }
  }

  lemma WhitespaceConcat(a: string, b: string)
    requires AllWhitespace(a) && AllWhitespace(b)
    ensures AllWhitespace(a + b)
  {
    forall k | 0 <= k < |a + b|
      ensures IsWhitespace((a + b)[k])
    {
      if k >= |a| {
        assert (a + b)[k] == b[k - |a|];
      }
    }
  }

  /** `trim` is idempotent. */
  lemma TrimIdempotent(s: string)
    ensures Trim(Trim(s)) == Trim(s)
  {
    TrimMeaning(s);
    var r := Trim(s);
    if r != [] {
      assert TrimStart(r) == r;
      assert TrimEnd(r) == r;
    }
  }

  /** ASCII `toLowerCase` on one character. */
  function LowerChar(c: char): (d: char)
    ensures 'A' <= c <= 'Z' ==> 'a' <= d <= 'z' && d as int - c as int == 32
    ensures !('A' <= c <= 'Z') ==> d == c
  {
    if 'A' <= c <= 'Z' then (c as int + 32) as char else c
  }

  /** `s.toLowerCase()`, for the ASCII letters. */
  function ToLowerCase(s: string): (r: string)
    ensures |r| == |s|
    ensures forall k :: 0 <= k < |s| ==> r[k] == LowerChar(s[k])
  {
    seq(|s|, k requires 0 <= k < |s| => LowerChar(s[k]))
  }

  /** `s.replace(/\s+/g, '-')`: every maximal run of whitespace becomes one '-'. */
  function ReplaceWhitespaceRuns(s: string): string
  {
    ReplaceRunsFrom(s, false)
  }

  /** The replacement scanning left to right; inRun says that the character
      before s was whitespace, whose run has already produced its '-'. */
  function ReplaceRunsFrom(s: string, inRun: bool): string
  {
    if s == [] then []
    else if IsWhitespace(s[0]) then (if inRun then [] else "-") + ReplaceRunsFrom(s[1..], true)
    else [s[0]] + ReplaceRunsFrom(s[1..], false)
  }

  /** The result is no longer than the input and contains no whitespace. */
  lemma {:induction false} ReplaceRemovesWhitespace(s: string, inRun: bool)
    ensures |ReplaceRunsFrom(s, inRun)| <= |s|
    ensures forall k :: 0 <= k < |ReplaceRunsFrom(s, inRun)| ==> !IsWhitespace(ReplaceRunsFrom(s, inRun)[k])
  {
    if s != [] {
      ReplaceRemovesWhitespace(s[1..], IsWhitespace(s[0]));
    }
  }

  /** A string without whitespace is left alone. */
  lemma {:induction false} ReplaceWithoutWhitespace(s: string)
    requires forall k :: 0 <= k < |s| ==> !IsWhitespace(s[k])
    ensures ReplaceWhitespaceRuns(s) == s
  {
    if s != [] {
      ReplaceWithoutWhitespace(s[1..]);
    }
  }

  /** Inside a run, further whitespace produces nothing. */
  lemma {:induction false} RunContinues(w: string, b: string)
    requires AllWhitespace(w)
    ensures ReplaceRunsFrom(w + b, true) == ReplaceRunsFrom(b, true)
  {
    if w != [] {
      assert (w + b)[1..] == w[1..] + b;
      RunContinues(w[1..], b);
    } else {
      assert w + b == b;
    }
  }

  /** The state flag is irrelevant in front of a non-whitespace character. */
  lemma RunEnds(b: string)
    requires b != [] ==> !IsWhitespace(b[0])
    ensures ReplaceRunsFrom(b, true) == ReplaceRunsFrom(b, false)
  {
  }

  /** The run rule spelled out: a non-empty run of whitespace w between a part a
      that does not end in whitespace and a part b that does not start with it
      is replaced by exactly one '-', and a and b are processed separately. */
  lemma ReplaceRun(a: string, w: string, b: string)
    requires w != [] && AllWhitespace(w)
    requires a != [] ==> !IsWhitespace(a[|a| - 1])
    requires b != [] ==> !IsWhitespace(b[0])
    ensures ReplaceWhitespaceRuns(a + w + b) == ReplaceWhitespaceRuns(a) + "-" + ReplaceWhitespaceRuns(b)
  {
    if a == [] {
      assert a + w + b == w + b;
      assert (w + b)[1..] == w[1..] + b;
      RunContinues(w[1..], b);
      RunEnds(b);
    } else {
      ReplaceRunFrom(a, w, b, false);
    }
  }

  lemma {:induction false} ReplaceRunFrom(a: string, w: string, b: string, inRun: bool)
    requires w != [] && AllWhitespace(w)
    requires a != [] && !IsWhitespace(a[|a| - 1])
    requires b != [] ==> !IsWhitespace(b[0])
    ensures ReplaceRunsFrom(a + w + b, inRun) == ReplaceRunsFrom(a, inRun) + "-" + ReplaceRunsFrom(b, false)
  {
    var c, rest := a[0], a[1..];
    var head := if IsWhitespace(c) then (if inRun then [] else "-") else [c];
    ScanStepAcross(a, w, b, inRun);
    if rest == [] {
      assert rest + w + b == w + b;
      RunAfterWord(w, b);
    } else {
      assert rest[|rest| - 1] == a[|a| - 1];
      ReplaceRunFrom(rest, w, b, IsWhitespace(c));
      Regroup(head, ReplaceRunsFrom(rest, IsWhitespace(c)), ReplaceRunsFrom(b, false));
    }
  }

  /** One step of the scan over a non-empty a followed by more text. */
  lemma ScanStep(a: string, tail: string, inRun: bool)
    requires a != []
    ensures var head := if IsWhitespace(a[0]) then (if inRun then [] else "-") else [a[0]];
      && ReplaceRunsFrom(a + tail, inRun) == head + ReplaceRunsFrom(a[1..] + tail, IsWhitespace(a[0]))
      && ReplaceRunsFrom(a, inRun) == head + ReplaceRunsFrom(a[1..], IsWhitespace(a[0]))
  {
    assert (a + tail)[0] == a[0];
    assert (a + tail)[1..] == a[1..] + tail;
  }

  lemma ScanStepAcross(a: string, w: string, b: string, inRun: bool)
    requires a != []
    ensures var head := if IsWhitespace(a[0]) then (if inRun then [] else "-") else [a[0]];
      && ReplaceRunsFrom(a + w + b, inRun) == head + ReplaceRunsFrom(a[1..] + w + b, IsWhitespace(a[0]))
      && ReplaceRunsFrom(a, inRun) == head + ReplaceRunsFrom(a[1..], IsWhitespace(a[0]))
  {
    ScanStep(a, w + b, inRun);
    assert a + w + b == a + (w + b) && a[1..] + w + b == a[1..] + (w + b);
  }

  /** A run right after a non-whitespace character. */
  lemma RunAfterWord(w: string, b: string)
    requires w != [] && AllWhitespace(w)
    requires b != [] ==> !IsWhitespace(b[0])
    ensures ReplaceRunsFrom(w + b, false) == "-" + ReplaceRunsFrom(b, false)
  {
    assert (w + b)[1..] == w[1..] + b;
    RunContinues(w[1..], b);
    RunEnds(b);
  }

  lemma Regroup(head: string, x: string, y: string)
    ensures head + (x + "-" + y) == (head + x) + "-" + y
  {
  }

  /** Trimming leading whitespace only sees the text up to the first
      non-whitespace character. */
  lemma {:induction false} TrimStartAppend(a: string, b: string)
    ensures TrimStart(a + b) == if AllWhitespace(a) then TrimStart(b) else TrimStart(a) + b
  {
    if a != [] {
      assert (a + b)[1..] == a[1..] + b;
      if IsWhitespace(a[0]) {
        TrimStartAppend(a[1..], b);
        assert AllWhitespace(a) <==> AllWhitespace(a[1..]);
      }
    } else {
      assert a + b == b;
    }
  }
}
