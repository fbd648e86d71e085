/**
 The slice of Python's string semantics the watcher relies on: `str.isspace`,
 `str.strip`, `str.splitlines` and the substring test `pat in s`. Characters are
 compared by code point.
 */
module Text {

  /** True of the characters Python's `str.isspace()` accepts. */
  predicate IsSpace(c: char) {
    var n := c as int;
    || (0x09 <= n <= 0x0D)
    || (0x1C <= n <= 0x20)
    || n == 0x85 || n == 0xA0 || n == 0x1680
    || (0x2000 <= n <= 0x200A)
    || n == 0x2028 || n == 0x2029 || n == 0x202F || n == 0x205F || n == 0x3000
  }

  /** True of the characters at which `str.splitlines()` ends a line. */
  predicate IsLineBreak(c: char) {
    var n := c as int;
    || (0x0A <= n <= 0x0D)
    || (0x1C <= n <= 0x1E)
    || n == 0x85 || n == 0x2028 || n == 0x2029
  }

  /** A line is blank when every character is whitespace. */
  predicate IsBlank(s: string) {
    forall i | 0 <= i < |s| :: IsSpace(s[i])
  }

  predicate NoLineBreak(s: string) {
    forall i | 0 <= i < |s| :: !IsLineBreak(s[i])
  }

  /** `s.lstrip()`: drops the longest all-whitespace prefix. */
  function TrimLeft(s: string): (r: string)
    ensures |r| <= |s| && r == s[|s| - |r|..]
    ensures IsBlank(s[..|s| - |r|])
    ensures r == [] || !IsSpace(r[0])
    decreases |s|
  {
    if s == [] || !IsSpace(s[0]) then s
    else
      var r := TrimLeft(s[1..]);
      assert s[..|s| - |r|] == [s[0]] + s[1..][..|s| - 1 - |r|];
      BlankConcat([s[0]], s[1..][..|s| - 1 - |r|]);
      r
  }

  /** `s.rstrip()`: drops the longest all-whitespace suffix. */
  function TrimRight(s: string): (r: string)
    ensures |r| <= |s| && r == s[..|r|]
    ensures IsBlank(s[|r|..])
    ensures r == [] || !IsSpace(r[|r| - 1])
    decreases |s|
  {
    if s == [] || !IsSpace(s[|s| - 1]) then s
    else
      var r := TrimRight(s[..|s| - 1]);
      assert s[|r|..] == s[..|s| - 1][|r|..] + [s[|s| - 1]];
      BlankConcat(s[..|s| - 1][|r|..], [s[|s| - 1]]);
      r
  }

  /** `s.strip()`: empty exactly when the whole line is whitespace. */
  function Strip(s: string): (r: string)
    ensures r == [] <==> IsBlank(s)
    ensures r != [] ==> !IsSpace(r[0]) && !IsSpace(r[|r| - 1])
  {
    var l := TrimLeft(s);
    var r := TrimRight(l);
    StripEmpty(s, l, r);
    assert r != [] ==> r[0] == l[0];
    r
  }

  lemma StripEmpty(s: string, l: string, r: string)
    requires l == TrimLeft(s) && r == TrimRight(l)
    ensures r == [] <==> IsBlank(s)
  {
    TrimLeftEmpty(s);
    TrimRightEmpty(l);
  }

  /** `lstrip` leaves nothing exactly when the text is whitespace-only. */
  lemma TrimLeftEmpty(s: string)
    ensures TrimLeft(s) == [] <==> IsBlank(s)
  {
    var l := TrimLeft(s);
    if l == [] {
      assert s[..|s|] == s;
    } else {
      assert s[|s| - |l|] == l[0];
    }
  }

  /** `rstrip` of a text that starts with a non-space character leaves something. */
  lemma TrimRightEmpty(l: string)
    requires l == [] || !IsSpace(l[0])
    ensures TrimRight(l) == [] <==> l == []
  {
    assert l[0..] == l;
  }

  /** Index of the first line break in `s`, or `|s|` when there is none. */
  function FirstBreak(s: string): (k: nat)
    ensures k <= |s|
    ensures NoLineBreak(s[..k])
    ensures k < |s| ==> IsLineBreak(s[k])
    decreases |s|
  {
    if s == [] || IsLineBreak(s[0]) then 0
    else
      var k := 1 + FirstBreak(s[1..]);
      assert s[..k] == [s[0]] + s[1..][..k - 1];
      k
  }

  /** Where the next line starts after the break at `k`; `\r\n` counts as one break. */
  function BreakEnd(s: string, k: nat): (e: nat)
    requires k < |s| && IsLineBreak(s[k])
    ensures k < e <= |s| && e <= k + 2
    ensures IsBlank(s[k..e])
  {
    if s[k] == '\r' && k + 1 < |s| && s[k + 1] == '\n' then k + 2 else k + 1
  }

  /** `s.splitlines()`: the lines of `s` without their terminators; no empty last line after a final break. */
  function SplitLines(s: string): (lines: seq<string>)
    ensures |lines| <= |s|
    ensures forall i | 0 <= i < |lines| :: NoLineBreak(lines[i])
    decreases |s|
  {
    if s == [] then []
    else
      var k := FirstBreak(s);
      if k == |s| then [s]
      else [s[..k]] + SplitLines(s[BreakEnd(s, k)..])
  }

  /** Lines joined by `\n` with no terminator after the last one. */
  function Joined(lines: seq<string>): string
    decreases |lines|
  {
    if lines == [] then []
    else if |lines| == 1 then lines[0]
    else lines[0] + "\n" + Joined(lines[1..])
  }

  /** `pat in s` for strings. */
  predicate Contains(s: string, pat: string) {
    exists i | 0 <= i <= |s| :: MatchesAt(s, pat, i)
  }

  predicate MatchesAt(s: string, pat: string, i: nat) {
    i + |pat| <= |s| && s[i..i + |pat|] == pat
  }

  lemma BlankConcat(a: string, b: string)
    ensures IsBlank(a + b) <==> IsBlank(a) && IsBlank(b)
  {
    if IsBlank(a) && IsBlank(b) {
      forall i | 0 <= i < |a + b| ensures IsSpace((a + b)[i]) {
        if i >= |a| { assert (a + b)[i] == b[i - |a|]; }
      }
    }
    if IsBlank(a + b) {
      forall i | 0 <= i < |a| ensures IsSpace(a[i]) {
        assert (a + b)[i] == a[i];
      }
      forall i | 0 <= i < |b| ensures IsSpace(b[i]) {
        assert (a + b)[|a| + i] == b[i];
      }
    }
  }

  predicate AllBlank(lines: seq<string>) {
    forall i | 0 <= i < |lines| :: IsBlank(lines[i])
  }

  lemma AllBlankCons(x: string, rest: seq<string>)
    ensures AllBlank([x] + rest) <==> IsBlank(x) && AllBlank(rest)
  {
    var ls := [x] + rest;
    assert ls[0] == x;
    assert forall i | 0 <= i < |rest| :: ls[i + 1] == rest[i];
    if IsBlank(x) && AllBlank(rest) {
      forall i | 0 <= i < |ls| ensures IsBlank(ls[i]) {
        if i > 0 { assert ls[i] == rest[i - 1]; }
      }
    }
  }

  /** The lines of `s` are all blank exactly when `s` itself is: every line break is whitespace. */
  lemma {:induction false} SplitLinesBlank(s: string)
    ensures AllBlank(SplitLines(s)) <==> IsBlank(s)
    decreases |s|
  {
    if s != [] {
      var k := FirstBreak(s);
      if k < |s| {
        var rest := SplitStep(s);
        SplitLinesBlank(rest);
        AllBlankCons(s[..k], SplitLines(rest));
      } else {
        assert s[..k] == s;
        AllBlankCons(s, []);
      }
    }
  }

  /** One step of the split: the first line, a break that is all whitespace, and the rest. */
  lemma SplitStep(s: string) returns (rest: string)
    requires FirstBreak(s) < |s|
    ensures |rest| < |s|
    ensures SplitLines(s) == [s[..FirstBreak(s)]] + SplitLines(rest)
    ensures IsBlank(s) <==> IsBlank(s[..FirstBreak(s)]) && IsBlank(rest)
  {
    var k := FirstBreak(s);
    var e := BreakEnd(s, k);
    rest := s[e..];
    assert s == s[..k] + (s[k..e] + rest);
    BlankConcat(s[k..e], rest);
    BlankConcat(s[..k], s[k..e] + rest);
  }

  lemma {:induction false} FirstBreakOfJoin(a: string, b: string)
    requires NoLineBreak(a) && b != [] && IsLineBreak(b[0])
    ensures FirstBreak(a + b) == |a|
    decreases |a|
  {
    if a != [] {
      assert (a + b)[0] == a[0] && !IsLineBreak(a[0]);
      assert (a + b)[1..] == a[1..] + b;
      assert NoLineBreak(a[1..]) by {
        forall i | 0 <= i < |a| - 1 ensures !IsLineBreak(a[1..][i]) {
          assert a[1..][i] == a[i + 1];
        }
      }
      FirstBreakOfJoin(a[1..], b);
    } else {
      assert a + b == b;
    }
  }

  lemma {:induction false} FirstBreakNone(a: string)
    requires NoLineBreak(a)
    ensures FirstBreak(a) == |a|
    decreases |a|
  {
    if a != [] { FirstBreakNone(a[1..]); }
  }

  /** A line without breaks, then `\n`, then the rest: the line comes first in the split. */
  lemma SplitCons(a: string, rest: string)
    requires NoLineBreak(a)
    ensures SplitLines(a + "\n" + rest) == [a] + SplitLines(rest)
  {
    var s := a + "\n" + rest;
    assert s == a + ("\n" + rest);
    FirstBreakOfJoin(a, "\n" + rest);
    assert s[..|a|] == a;
    assert s[|a|] == '\n';
    assert s[|a| + 1..] == rest;
  }

  /**
   Splitting lines that were joined with `\n` gives the lines back, provided
   none of them holds a break and the last one is not empty (an empty last
   line leaves no trace once the terminator is gone).
   */
  lemma {:induction false} SplitJoined(lines: seq<string>)
    requires forall i | 0 <= i < |lines| :: NoLineBreak(lines[i])
    requires lines != [] ==> lines[|lines| - 1] != []
    ensures SplitLines(Joined(lines)) == lines
    decreases |lines|
  {
    if |lines| == 1 {
      FirstBreakNone(lines[0]);
    } else if |lines| > 1 {
      var tail := lines[1..];
      assert forall i | 0 <= i < |tail| :: tail[i] == lines[i + 1];
      SplitJoined(tail);
      SplitCons(lines[0], Joined(tail));
      assert lines == [lines[0]] + tail;
    }
  }
}
