/**
 Counting the changes a sync pass would commit: `BackupManager.count_updated_files`
 in git-backup/watcher.py reads `git status --porcelain`, splits it into lines and
 counts the lines that are not whitespace-only.
 */
module Status {
  import opened Text

  /**
   How many of `lines` are not whitespace-only, the lines for which
   `line.strip()` is non-empty; defined from the back so that a
   left-to-right scan extends it.
   */
  function CountNonBlank(lines: seq<string>): (n: nat)
    ensures n <= |lines|
    decreases |lines|
  {
    if lines == [] then 0
    else CountNonBlank(lines[..|lines| - 1]) + (if IsBlank(lines[|lines| - 1]) then 0 else 1)
  }

  /** Nothing is counted exactly when every line is whitespace-only. */
  lemma {:induction false} CountZeroIffAllBlank(lines: seq<string>)
    ensures CountNonBlank(lines) == 0 <==> AllBlank(lines)
    decreases |lines|
  {
    if lines != [] {
      var init := lines[..|lines| - 1];
      var last := lines[|lines| - 1];
      CountZeroIffAllBlank(init);
      assert lines == init + [last];
      AllBlankSnoc(init, last);
    }
  }

  lemma AllBlankSnoc(init: seq<string>, x: string)
    ensures AllBlank(init + [x]) <==> AllBlank(init) && IsBlank(x)
  {
    var ls := init + [x];
    assert ls[|init|] == x;
    assert forall i | 0 <= i < |init| :: ls[i] == init[i];
  }

  /** The number of changed files the status text reports. */
  function UpdatedCount(status: string): (n: nat)
    ensures n <= |SplitLines(status)|
    ensures n == 0 <==> IsBlank(status)
  {
    SplitLinesBlank(status);
    CountZeroIffAllBlank(SplitLines(status));
    CountNonBlank(SplitLines(status))
  }

  /** `count_updated_files`: one pass over the lines of the status output. */
  method CountUpdatedFiles(status: string) returns (n: nat)
    ensures n == UpdatedCount(status)
    ensures n <= |SplitLines(status)|
    ensures n == 0 <==> IsBlank(status)
  {
    var lines := SplitLines(status);
    n := 0;
    var i := 0;
    while i < |lines|
      invariant 0 <= i <= |lines|
      invariant n == CountNonBlank(lines[..i])
    {
      assert lines[..i + 1][..i] == lines[..i];
      if Strip(lines[i]) != [] {
        n := n + 1;
      }
      i := i + 1;
    }
    assert lines[..|lines|] == lines;
  }

  lemma {:induction false} CountAllNonBlank(lines: seq<string>)
    requires forall i | 0 <= i < |lines| :: !IsBlank(lines[i])
    ensures CountNonBlank(lines) == |lines|
    decreases |lines|
  {
    if lines != [] {
      CountAllNonBlank(lines[..|lines| - 1]);
    }
  }

  /**
   Porcelain output has one non-blank line per changed path, joined by `\n`
   (the trailing newline is gone by the time the text is read): the count is
   exactly the number of paths.
   */
  lemma PorcelainCount(lines: seq<string>)
    requires forall i | 0 <= i < |lines| :: NoLineBreak(lines[i]) && !IsBlank(lines[i])
    ensures UpdatedCount(Joined(lines)) == |lines|
  {
    if lines != [] {
      assert lines[|lines| - 1] != [] by {
        assert !IsBlank(lines[|lines| - 1]);
      }
    }
    SplitJoined(lines);
    CountAllNonBlank(lines);
  }

  /** A concrete porcelain listing: two changed paths around a blank line count as two. */
  lemma TwoChangesCounted()
    ensures UpdatedCount(" M a.txt\n\n?? b.txt") == 2
  {
    var a, b := " M a.txt", "?? b.txt";
    assert a + "\n" + ("\n" + b) == " M a.txt\n\n?? b.txt";
    var lines := SplitBlankGap(a, b);
    assert !IsSpace(a[1]);
    assert !IsSpace(b[0]);
    CountGap(a, b);
  }

  lemma CountGap(a: string, b: string)
    requires !IsBlank(a) && !IsBlank(b)
    ensures CountNonBlank([a, "", b]) == 2
  {
    var ls := [a, "", b];
    assert ls[..2] == [a, ""];
    assert [a, ""][..1] == [a];
    assert [a][..0] == [];
    assert CountNonBlank([a]) == 1;
    assert CountNonBlank([a, ""]) == 1;
  }

  lemma SplitBlankGap(a: string, b: string) returns (lines: seq<string>)
    requires NoLineBreak(a) && NoLineBreak(b) && b != []
    ensures lines == SplitLines(a + "\n" + ("\n" + b)) && lines == [a, "", b]
  {
    SplitCons(a, "\n" + b);
    SplitCons("", b);
    assert "" + "\n" + b == "\n" + b;
    FirstBreakNone(b);
    lines := SplitLines(a + "\n" + ("\n" + b));
  }
}
