/**
 The line window of a file read: which text an agent gets for a 1-based start line and a line count.
 */
module ReadWindow {
  import opened Collections

  datatype WindowError = LineZero | PastTheEnd(lines: nat)

  const NEWLINE := "\n"

  /** Where the first line ends: the place of its newline, or the end of the text. */
  function LineEnd(s: string): (i: nat)
    ensures i <= |s| && (forall j :: 0 <= j < i ==> s[j] != '\n') && (i < |s| ==> s[i] == '\n')
  {
    if s == [] || s[0] == '\n' then 0 else 1 + LineEnd(s[1..])
  }

  predicate EndsWith(s: string, c: char) {
    s != [] && s[|s| - 1] == c
  }

  function Chomp(line: string): string {
    if EndsWith(line, '\r') then line[..|line| - 1] else line
  }

  /** The lines of a text, without their `\n` or `\r\n`. A last newline ends a line and starts none. */
  function Lines(s: string): seq<string> {
    if s == [] then []
    else if LineEnd(s) == |s| then [s]
    else [Chomp(s[..LineEnd(s)])] + Lines(s[LineEnd(s) + 1..])
  }

  function Join(lines: seq<string>): string {
    if lines == [] then "" else if |lines| == 1 then lines[0] else lines[0] + NEWLINE + Join(lines[1..])
  }

  /** No window means the whole file. */
  function ApplyReadWindow(content: string, line: Option<nat>, limit: Option<nat>): Result<string, WindowError> {
    if line == Some(0) then Err(LineZero)
    else
      var lines := Lines(content);
      var start := if line.None? then 0 else line.value - 1;
      if start > |lines| then Err(PastTheEnd(|lines|))
      else
        var end := if limit.None? || start + limit.value > |lines| then |lines| else start + limit.value;
        var out := Join(lines[start..end]);
        Ok(if out != "" && end == |lines| && EndsWith(content, '\n') then out + NEWLINE else out)
  }

  /** The only errors are a line zero and a start past the line after the last. */
  lemma RefusedExactly(content: string, line: Option<nat>, limit: Option<nat>)
    ensures var result := ApplyReadWindow(content, line, limit);
            && (result == Err(LineZero) <==> line == Some(0))
            && (result == Err(PastTheEnd(|Lines(content)|)) <==> line.Some? && line.value > |Lines(content)| + 1)
            && (result.Err? <==> line.Some? && (line.value == 0 || line.value > |Lines(content)| + 1))
  {
  }

  // ------------------------------------------------------------ joining lines back

  lemma {:induction false} JoinSplit(lines: seq<string>, k: nat)
    requires 0 < k < |lines|
    ensures Join(lines) == Join(lines[..k]) + NEWLINE + Join(lines[k..])
  {
    if k == 1 {
      assert lines[..1] == [lines[0]];
    } else {
      JoinSplit(lines[1..], k - 1);
      assert lines[..k][1..] == lines[1..][..k - 1] && lines[1..][k - 1..] == lines[k..];
      var first, middle, last := lines[0] + NEWLINE, Join(lines[..k][1..]), Join(lines[k..]);
      Regroup(first + middle, NEWLINE, last);
      Regroup(first, middle, NEWLINE + last);
      Regroup(middle, NEWLINE, last);
    }
  }

  lemma {:induction false} JoinEmpty(lines: seq<string>)
    ensures Join(lines) == "" <==> lines == [] || lines == [""]
  {
    if |lines| > 1 {
      assert |Join(lines)| >= 1;
    } else if |lines| == 1 {
      assert lines == [lines[0]];
    }
  }

  /** A newline with a carriage return before it. */
  ghost predicate HasCrLf(s: string) {
    exists i: nat :: CrLfAt(s, i)
  }

  function Ending(s: string): string {
    if EndsWith(s, '\n') then NEWLINE else ""
  }

  predicate CrLfAt(s: string, i: nat) {
    0 < i < |s| && s[i] == '\n' && s[i - 1] == '\r'
  }

  lemma CrLfByLine(first: string, rest: string)
    requires forall j :: 0 <= j < |first| ==> first[j] != '\n'
    ensures HasCrLf(first + NEWLINE + rest) <==> EndsWith(first, '\r') || HasCrLf(rest)
  {
    var s, n := first + NEWLINE + rest, |first|;
    if EndsWith(first, '\r') {
      assert CrLfAt(s, n);
    }
    if j: nat :| CrLfAt(rest, j) {
      assert CrLfAt(s, n + 1 + j);
    }
    if j: nat :| CrLfAt(s, j) {
      if j > n {
        assert j > n + 1 ==> CrLfAt(rest, j - n - 1);
      }
    }
  }

  lemma EndingByLine(first: string, rest: string)
    ensures Ending(first + NEWLINE + rest) == if rest == [] then NEWLINE else Ending(rest)
  {
    var s := first + NEWLINE + rest;
    if rest == [] {
      assert s[|s| - 1] == '\n';
    } else {
      assert s[|s| - 1] == rest[|rest| - 1];
    }
  }

  lemma BothBack(first: string, chomped: string, rest: string, back: string)
    requires |chomped| <= |first| && |back| <= |rest|
    ensures chomped + NEWLINE + back == first + NEWLINE + rest <==> chomped == first && back == rest
  {
    var l, r := chomped + NEWLINE + back, first + NEWLINE + rest;
    if l == r {
      assert |chomped| == |first|;
      assert l[..|chomped|] == chomped && r[..|first|] == first;
      assert l[|chomped| + 1..] == back && r[|first| + 1..] == rest;
    }
  }

  /** The lines and the last newline. */
  function Back(s: string): string {
    Join(Lines(s)) + Ending(s)
  }

  lemma CutFirstLine(s: string) returns (first: string, rest: string)
    requires s != [] && LineEnd(s) < |s|
    ensures s == first + NEWLINE + rest && forall j :: 0 <= j < |first| ==> first[j] != '\n'
    ensures Lines(s) == [Chomp(first)] + Lines(rest)
    ensures Lines(rest) == [] <==> rest == []
  {
    first, rest := s[..LineEnd(s)], s[LineEnd(s) + 1..];
  }

  lemma JoinCons(line: string, lines: seq<string>)
    ensures Join([line] + lines) == if lines == [] then line else line + NEWLINE + Join(lines)
  {
    assert ([line] + lines)[1..] == lines;
  }

  lemma BackByLine(s: string, first: string, rest: string)
    requires s == first + NEWLINE + rest && Lines(s) == [Chomp(first)] + Lines(rest)
             && (Lines(rest) == [] <==> rest == [])
    ensures Back(s) == Chomp(first) + NEWLINE + Back(rest)
  {
    EndingByLine(first, rest);
    JoinCons(Chomp(first), Lines(rest));
    EmptyBack();
    assert Back(s) == Join([Chomp(first)] + Lines(rest)) + Ending(s) && Back(rest) == Join(Lines(rest)) + Ending(rest);
    hide *;
    if rest != [] {
      Regroup(Chomp(first) + NEWLINE, Join(Lines(rest)), Ending(rest));
    } else {
      assert Chomp(first) + NEWLINE + [] == Chomp(first) + NEWLINE;
    }
  }

  lemma EmptyBack()
    ensures Back([]) == []
  {
  }

  lemma ChompShortens(line: string)
    ensures |Chomp(line)| <= |line| && (Chomp(line) == line <==> !EndsWith(line, '\r'))
  {
  }

  lemma LastLineAlone(s: string)
    requires s != [] && LineEnd(s) == |s|
    ensures Back(s) == s && !HasCrLf(s)
  {
    assert !EndsWith(s, '\n') && s + "" == s;
  }

  /** The lines and the last newline give the text back exactly when it holds no CRLF; they are never
      longer. */
  lemma {:induction false} LinesGiveTheTextBack(s: string)
    ensures Back(s) == s <==> !HasCrLf(s)
    ensures |Back(s)| <= |s|
    decreases |s|
  {
    if s == [] {
      EmptyBack();
    } else if LineEnd(s) == |s| {
      LastLineAlone(s);
    } else {
      var first, rest := CutFirstLine(s);
      hide *;
      LinesGiveTheTextBack(rest);
      BackByLine(s, first, rest);
      CrLfByLine(first, rest);
      ChompShortens(first);
      BothBack(first, Chomp(first), rest, Back(rest));
    }
  }

  /** A text by its first line feed: the line before it, without a carriage return at its end, and the lines
      after it. A text without one is its own only line, and the empty text has none. */
  lemma LinesByLineFeed(first: string, rest: string)
    requires forall i :: 0 <= i < |first| ==> first[i] != '\n'
    ensures Lines(first + NEWLINE + rest)
            == [if first != "" && first[|first| - 1] == '\r' then first[..|first| - 1] else first] + Lines(rest)
    ensures Lines(first) == if first == "" then [] else [first]
  {
    var s := first + NEWLINE + rest;
    assert s[|first|] == '\n' && LineEnd(s) == |first|;
    assert s[..|first|] == first && s[|first| + 1..] == rest;
  }

  /** Lines joined: the first, a line feed, the others. */
  lemma JoinMeaning(line: string, lines: seq<string>)
    ensures Join([]) == "" && Join([line]) == line
    ensures lines != [] ==> Join([line] + lines) == line + "\n" + Join(lines)
  {
    JoinCons(line, lines);
  }

  // ------------------------------------------------------------ windows

  /** The window from line `a` up to line `b`, counted from zero. */
  function Window(content: string, a: nat, b: nat): string
    requires a <= b <= |Lines(content)|
  {
    ApplyReadWindow(content, Some(a + 1), Some(b - a)).value
  }

  lemma WindowMeaning(content: string, a: nat, b: nat)
    requires a <= b <= |Lines(content)|
    ensures var out := Join(Lines(content)[a..b]);
            Window(content, a, b) == if out != "" && b == |Lines(content)| then out + Ending(content) else out
  {
  }

  /** The whole-file window is the file exactly when it holds no CRLF and is not one blank line. */
  lemma WholeFileExactly(content: string)
    ensures ApplyReadWindow(content, None, None).Ok?
    ensures ApplyReadWindow(content, None, None).value == content <==> !HasCrLf(content) && content != NEWLINE
  {
    var lines := Lines(content);
    assert lines[0..|lines|] == lines;
    LinesGiveTheTextBack(content);
    JoinEmpty(lines);
    if lines == [""] {
      BlankLineFile(content);
    }
  }

  lemma BlankLineFile(content: string)
    requires Lines(content) == [""]
    ensures content == NEWLINE || HasCrLf(content)
  {
    assert content != [] && LineEnd(content) < |content|;
    var first, rest := CutFirstLine(content);
    hide Lines, LineEnd;
    assert Chomp(first) == Lines(content)[0] == "" && Lines(rest) == Lines(content)[1..] == [];
    if first == [] {
      assert content == NEWLINE;
    } else {
      assert first == ['\r'] && CrLfAt(content, 1);
    }
  }

  /** What an accepted window is: the lines from the start line on, as many as the limit allows and the text
      has, joined, with the text's last newline when they reach its end and are not blank. */
  lemma WindowContents(content: string, line: Option<nat>, limit: Option<nat>)
    requires ApplyReadWindow(content, line, limit).Ok?
    ensures var lines := Lines(content);
            var skipped := if line == None then 0 else line.value - 1;
            && 0 <= skipped <= |lines|
            && var left := lines[skipped..];
            && var taken := if limit.Some? && limit.value <= |left| then left[..limit.value] else left;
            && ApplyReadWindow(content, line, limit).value ==
               Join(taken) + if Join(taken) != "" && skipped + |taken| == |lines| && EndsWith(content, '\n')
                             then "\n" else ""
  {
    hide Lines, Join, EndsWith;
    var lines := Lines(content);
    var skipped := if line == None then 0 else line.value - 1;
    SliceOfRest(lines, skipped, limit);
    var left := lines[skipped..];
    var taken := if limit.Some? && limit.value <= |left| then left[..limit.value] else left;
    assert Join(taken) + "" == Join(taken);
  }

  lemma SliceOfRest(lines: seq<string>, skipped: nat, limit: Option<nat>)
    requires skipped <= |lines|
    ensures var left := lines[skipped..];
            var taken := if limit.Some? && limit.value <= |left| then left[..limit.value] else left;
            taken == lines[skipped..skipped + |taken|]
  {
  }

  /** No start line is line 1, no limit is any limit past the end, and limit zero reads nothing. */
  lemma WindowDefaults(content: string, line: Option<nat>, limit: Option<nat>)
    ensures ApplyReadWindow(content, None, limit) == ApplyReadWindow(content, Some(1), limit)
    ensures limit.Some? && limit.value >= |Lines(content)| ==>
              ApplyReadWindow(content, line, limit) == ApplyReadWindow(content, line, None)
    ensures ApplyReadWindow(content, line, Some(0)).Ok? ==> ApplyReadWindow(content, line, Some(0)).value == ""
  {
    LimitPastTheEnd(content, line, limit);
    NothingRead(content, line);
    hide Lines, Join, EndsWith;
  }

  lemma LimitPastTheEnd(content: string, line: Option<nat>, limit: Option<nat>)
    ensures limit.Some? && limit.value >= |Lines(content)| ==>
              ApplyReadWindow(content, line, limit) == ApplyReadWindow(content, line, None)
  {
    hide Lines, Join, EndsWith;
    var lines := Lines(content);
    var start := if line.None? then 0 else line.value - 1;
    if limit.Some? && limit.value >= |lines| && 0 <= start <= |lines| {
      assert start + limit.value > |lines| || start + limit.value == |lines|;
    }
  }

  lemma NothingRead(content: string, line: Option<nat>)
    ensures ApplyReadWindow(content, line, Some(0)).Ok? ==> ApplyReadWindow(content, line, Some(0)).value == ""
  {
    hide Lines, Join, EndsWith;
    JoinMeaning("", []);
    var skipped := if line == None then 0 else line.value - 1;
    if 0 <= skipped <= |Lines(content)| {
      assert Lines(content)[skipped..skipped] == [];
    }
  }

  lemma EndingMeaning(s: string)
    ensures Ending(s) != "" <==> EndsWith(s, '\n')
  {
  }

  lemma TileTexts(left: string, right: string, ending: string, last: bool)
    ensures left + NEWLINE + right != ""
    ensures left + NEWLINE + (if right != "" && last then right + ending else right)
            == (if last then left + NEWLINE + right + ending else left + NEWLINE + right) <==>
              !(last && right == "" && ending != "")
  {
    Regroup(left + NEWLINE, right, ending);
    if last && right == "" {
      assert left + NEWLINE + right == left + NEWLINE;
    }
  }

  lemma OneBlank(lines: seq<string>, b: nat, c: nat)
    requires b < c <= |lines|
    ensures lines[b..c] == [""] <==> c == b + 1 && lines[b] == ""
  {
    if c == b + 1 {
      assert lines[b..c] == [lines[b]];
    }
  }

  lemma SliceSplit(lines: seq<string>, a: nat, b: nat, c: nat)
    requires a <= b <= c <= |lines|
    ensures lines[a..c][..b - a] == lines[a..b] && lines[a..c][b - a..] == lines[b..c]
  {
  }

  /** Two adjacent windows joined by a newline are the window over both, exactly unless the second is
      a file's last line, blank and ended by a newline. */
  lemma WindowsTileExactly(content: string, a: nat, b: nat, c: nat)
    requires a < b < c <= |Lines(content)|
    ensures Window(content, a, b) + NEWLINE + Window(content, b, c) == Window(content, a, c) <==>
              !(c == |Lines(content)| && b == c - 1 && Lines(content)[b] == "" && EndsWith(content, '\n'))
  {
    var lines := Lines(content);
    hide Lines, Join, Ending;
    var left, right := Join(lines[a..b]), Join(lines[b..c]);
    SliceSplit(lines, a, b, c);
    JoinSplit(lines[a..c], b - a);
    JoinEmpty(lines[b..c]);
    WindowMeaning(content, a, b);
    WindowMeaning(content, b, c);
    WindowMeaning(content, a, c);
    OneBlank(lines, b, c);
    EndingMeaning(content);
    TileTexts(left, right, Ending(content), c == |lines|);
  }
}
