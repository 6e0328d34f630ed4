/**
 * SourceScannerB: the processed content of a source file loses its
 * comments (outside string and character literals) and its control
 * characters, then its leading package and import lines and every blank
 * line, then the low characters at both ends.
 */
module ScannerB {
  import opened ScannerText

  /** The flags of processContent's character loop and the previous character. */
  datatype Lexer = Lexer(block: bool, line: bool, str: bool, chr: bool, prev: char)

  /** The state before the first character: nothing open, no previous character. */
  const Start := Lexer(false, false, false, false, '\0')

  /** Outside every comment and literal. */
  predicate Plain(st: Lexer) {
    !st.block && !st.line && !st.str && !st.chr
  }

  /** The characters kept outside comments: code 32 and above, newline and tab. */
  predicate Printable(ch: char) {
    ch >= ' ' || ch == '\n' || ch == '\t'
  }

  /**
   * One pass of the loop body at index i: the new state, the next index
   * (two on when a comment delimiter is consumed) and what is appended.
   */
  function StepB(c: string, i: nat, st: Lexer): (r: (Lexer, nat, string))
    requires i < |c|
    ensures i < r.1 <= |c|
  {
    var cur := c[i];
    var next := NextChar(c, i);
    var str :=
      if !st.block && !st.line && !st.chr && cur == '"' && st.prev != '\\' then !st.str else st.str;
    var chr :=
      if !st.block && !st.line && !(!st.chr && cur == '"' && st.prev != '\\')
         && !st.str && cur == '\'' && st.prev != '\\' then !st.chr else st.chr;
    if !str && !chr && !st.block && !st.line && cur == '/' && next == '*' then
      (Lexer(true, st.line, str, chr, cur), i + 2, "")
    else if !str && !chr && st.block && cur == '*' && next == '/' then
      (Lexer(false, st.line, str, chr, cur), i + 2, "")
    else if !str && !chr && !st.block && !st.line && cur == '/' && next == '/' then
      (Lexer(st.block, true, str, chr, cur), i + 2, "")
    else
      var line := if !str && !chr && st.line && cur == '\n' then false else st.line;
      var out := if !st.block && !line && Printable(cur) then [cur] else "";
      (Lexer(st.block, line, str, chr, cur), i + 1, out)
  }

  /** What processContent's character loop appends from index i on, in state st. */
  function ScanB(c: string, i: nat, st: Lexer): string
    requires i <= |c|
    decreases |c| - i
  {
    if i == |c| then ""
    else
      var (st', j, out) := StepB(c, i, st);
      out + ScanB(c, j, st')
  }

  /** The character loop keeps only code 32 and above, newlines and tabs. */
  lemma {:induction false} ScanPrintable(c: string, i: nat, st: Lexer)
    requires i <= |c|
    ensures forall ch :: ch in ScanB(c, i, st) ==> Printable(ch)
    decreases |c| - i
  {
    if i < |c| {
      var (st', j, out) := StepB(c, i, st);
      ScanPrintable(c, j, st');
    }
  }

  /** Text without '/' and without control characters passes through unchanged outside comments. */
  lemma {:induction false} ScanPlainText(c: string, i: nat, st: Lexer)
    requires i <= |c| && !st.block && !st.line
    requires forall k :: i <= k < |c| ==> c[k] != '/' && Printable(c[k])
    ensures ScanB(c, i, st) == c[i..]
    decreases |c| - i
  {
    if i < |c| {
      var (st', j, out) := StepB(c, i, st);
      assert j == i + 1 && out == [c[i]] && !st'.block && !st'.line;
      ScanPlainText(c, j, st');
      assert c[i..] == [c[i]] + c[i + 1..];
    }
  }

  /** Inside a block comment nothing is appended until the first "*" "/" closes it. */
  lemma {:induction false} ScanInBlock(c: string, k: nat, j: nat, st: Lexer)
    requires k <= j && j + 1 < |c| && c[j] == '*' && c[j + 1] == '/'
    requires st.block && !st.line && !st.str && !st.chr
    requires forall m :: k <= m < j ==> !(c[m] == '*' && c[m + 1] == '/')
    ensures ScanB(c, k, st) == ScanB(c, j + 2, Lexer(false, false, false, false, '*'))
    decreases j - k
  {
    var (st', n, out) := StepB(c, k, st);
    if k < j {
      assert n == k + 1 && out == "" && st'.block && !st'.line && !st'.str && !st'.chr;
      ScanInBlock(c, n, j, st');
    }
  }

  /**
   * A block comment opened outside comments and literals is removed with
   * its delimiters: scanning goes on after the first "*" "/" as if from a
   * plain state.
   */
  lemma BlockCommentRemoved(c: string, i: nat, j: nat, st: Lexer)
    requires Plain(st) && i + 2 <= j && j + 1 < |c|
    requires c[i] == '/' && c[i + 1] == '*' && c[j] == '*' && c[j + 1] == '/'
    requires forall m :: i + 2 <= m < j ==> !(c[m] == '*' && c[m + 1] == '/')
    ensures ScanB(c, i, st) == ScanB(c, j + 2, Lexer(false, false, false, false, '*'))
  {
    var (st', n, out) := StepB(c, i, st);
    assert n == i + 2 && out == "" && st' == Lexer(true, false, false, false, '/');
    ScanInBlock(c, i + 2, j, st');
  }

  /** Inside a line comment nothing is appended up to its newline, which is kept. */
  lemma {:induction false} ScanInLine(c: string, k: nat, j: nat, st: Lexer)
    requires k <= j < |c| && c[j] == '\n'
    requires !st.block && st.line && !st.str && !st.chr
    requires forall m :: k <= m < j ==> c[m] != '\n'
    ensures ScanB(c, k, st) == "\n" + ScanB(c, j + 1, Lexer(false, false, false, false, '\n'))
    decreases j - k
  {
    var (st', n, out) := StepB(c, k, st);
    if k < j {
      assert n == k + 1 && out == "" && !st'.block && st'.line && !st'.str && !st'.chr;
      ScanInLine(c, n, j, st');
    } else {
      assert n == j + 1 && out == "\n" && st' == Lexer(false, false, false, false, '\n');
    }
  }

  /**
   * A line comment opened outside comments and literals is removed up to
   * its newline: only the newline is appended, and scanning goes on after
   * it from a plain state.
   */
  lemma LineCommentRemoved(c: string, i: nat, j: nat, st: Lexer)
    requires Plain(st) && i + 2 <= j < |c|
    requires c[i] == '/' && c[i + 1] == '/' && c[j] == '\n'
    requires forall m :: i + 2 <= m < j ==> c[m] != '\n'
    ensures ScanB(c, i, st) == "\n" + ScanB(c, j + 1, Lexer(false, false, false, false, '\n'))
  {
    var (st', n, out) := StepB(c, i, st);
    assert n == i + 2 && out == "" && st' == Lexer(false, true, false, false, '/');
    ScanInLine(c, i + 2, j, st');
  }

  /** One pass of the loop body moves its output from what is left to scan onto what is appended. */
  lemma ScanStep(c: string, i: nat, st: Lexer, result: string)
    requires i < |c|
    ensures var step := StepB(c, i, st);
      result + ScanB(c, i, st) == (result + step.2) + ScanB(c, step.1, step.0)
  {
  }

  /** The character loop of processContent, with its flags and the skip over a comment delimiter. */
  method StripComments(content: string) returns (result: string)
    ensures result == ScanB(content, 0, Start)
  {
    result := "";
    var inBlockComment, inLineComment, inString, inChar := false, false, false, false;
    var prevChar := '\0';
    var i := 0;
    while i < |content|
      invariant 0 <= i <= |content|
      invariant result + ScanB(content, i, Lexer(inBlockComment, inLineComment, inString, inChar, prevChar))
                == ScanB(content, 0, Start)
      decreases |content| - i
    {
      ghost var st := Lexer(inBlockComment, inLineComment, inString, inChar, prevChar);
      ghost var step := StepB(content, i, st);
      ghost var result0 := result;
      ScanStep(content, i, st, result);
      var current := content[i];
      var next := if i + 1 < |content| then content[i + 1] else '\0';
      if !inBlockComment && !inLineComment {
        if !inChar && current == '"' && prevChar != '\\' {
          inString := !inString;
        } else if !inString && current == '\'' && prevChar != '\\' {
          inChar := !inChar;
        }
      }
      if !inString && !inChar && !inBlockComment && !inLineComment && current == '/' && next == '*' {
        inBlockComment := true;
        i, prevChar := i + 2, current;
      } else if !inString && !inChar && inBlockComment && current == '*' && next == '/' {
        inBlockComment := false;
        i, prevChar := i + 2, current;
      } else if !inString && !inChar && !inBlockComment && !inLineComment && current == '/' && next == '/' {
        inLineComment := true;
        i, prevChar := i + 2, current;
      } else {
        if !inString && !inChar && inLineComment && current == '\n' {
          inLineComment := false;
        }
        if !inBlockComment && !inLineComment && Printable(current) {
          result := result + [current];
        }
        i, prevChar := i + 1, current;
      }
      assert step.0 == Lexer(inBlockComment, inLineComment, inString, inChar, prevChar) && step.1 == i;
      assert result == result0 + step.2;
    }
  }

  /** A line that starts the body: not blank and not a package or import line. */
  predicate Starter(line: string) {
    Trim(line) != "" && !StartsWith(Trim(line), "package ") && !StartsWith(Trim(line), "import ")
  }

  /**
   * What the second loop of processContent does with one line, given
   * whether the body has started: whether the line is appended, and whether
   * the body has started after it. Before the first body line, package and
   * import lines are skipped; after it, every line that is not blank is kept.
   */
  function Decide(line: string, first: bool): (d: (bool, bool))
    ensures d.1 == (first || Starter(line))
    ensures d.0 <==> d.1 && Trim(line) != ""
  {
    var t := Trim(line);
    if !first && (StartsWith(t, "package ") || StartsWith(t, "import ")) then (false, first)
    else
      var first' := first || Starter(line);
      (first' && t != "", first')
  }

  /** The lines the second loop of processContent appends, in order. */
  function FilterB(lines: seq<string>, first: bool): seq<string> {
    if |lines| == 0 then []
    else
      var d := Decide(lines[0], first);
      (if d.0 then [lines[0]] else []) + FilterB(lines[1..], d.1)
  }

  /** One more line taken by the filter. */
  lemma FilterStep(lines: seq<string>, i: nat, first: bool, appended: seq<string>)
    requires i < |lines|
    ensures var d := Decide(lines[i], first);
      appended + FilterB(lines[i..], first)
      == (if d.0 then appended + [lines[i]] else appended) + FilterB(lines[i + 1..], d.1)
  {
    assert lines[i..][0] == lines[i] && lines[i..][1..] == lines[i + 1..];
  }

  /** The lines that are not blank, in order. */
  function NonBlank(lines: seq<string>): (r: seq<string>)
    ensures forall l :: l in r <==> l in lines && Trim(l) != ""
  {
    if |lines| == 0 then []
    else (if Trim(lines[0]) != "" then [lines[0]] else []) + NonBlank(lines[1..])
  }

  /** The index of the first body line, or the number of lines when there is none. */
  function FirstStarter(lines: seq<string>): (k: nat)
    ensures k <= |lines| && (forall m :: 0 <= m < k ==> !Starter(lines[m])) && (k < |lines| ==> Starter(lines[k]))
  {
    if |lines| == 0 || Starter(lines[0]) then 0 else 1 + FirstStarter(lines[1..])
  }

  /** Once the body has started, the filter keeps exactly the lines that are not blank. */
  lemma {:induction false} FilterAfterStart(lines: seq<string>)
    ensures FilterB(lines, true) == NonBlank(lines)
  {
    if |lines| > 0 {
      FilterAfterStart(lines[1..]);
    }
  }

  /**
   * The filter drops everything before the first body line (package and
   * import lines and blank lines) and every blank line after it.
   */
  lemma {:induction false} FilterDropsHeader(lines: seq<string>)
    ensures FilterB(lines, false) == NonBlank(lines[FirstStarter(lines)..])
  {
    if |lines| > 0 {
      if Starter(lines[0]) {
        FilterAfterStart(lines[1..]);
        assert lines[0..] == lines;
      } else {
        FilterDropsHeader(lines[1..]);
        assert lines[1..][FirstStarter(lines[1..])..] == lines[FirstStarter(lines)..];
      }
    }
  }

  /** The second loop of processContent over the lines split at '\n'. */
  method FilterLines(lines: seq<string>) returns (filtered: string)
    ensures filtered == LinesText(FilterB(lines, false))
  {
    filtered := "";
    var firstNonImportPackageLine := false;
    ghost var target := FilterB(lines, false);
    ghost var appended: seq<string> := [];
    var i := 0;
    while i < |lines|
      invariant 0 <= i <= |lines|
      invariant appended + FilterB(lines[i..], firstNonImportPackageLine) == target
      invariant filtered == LinesText(appended)
    {
      var line := lines[i];
      var trimmedLine := Trim(line);
      ghost var d := Decide(line, firstNonImportPackageLine);
      FilterStep(lines, i, firstNonImportPackageLine, appended);
      if !firstNonImportPackageLine && (StartsWith(trimmedLine, "package ") || StartsWith(trimmedLine, "import ")) {
      } else {
        if trimmedLine != "" && !StartsWith(trimmedLine, "package ") && !StartsWith(trimmedLine, "import ") {
          firstNonImportPackageLine := true;
        }
        if firstNonImportPackageLine && trimmedLine != "" {
          assert (appended + [line])[..|appended|] == appended;
          filtered := filtered + line + "\n";
          appended := appended + [line];
        }
      }
      assert firstNonImportPackageLine == d.1;
      i := i + 1;
    }
    assert lines[i..] == [];
    assert appended + [] == appended;
  }

  /** The text processContent builds before it strips the ends. */
  function Filtered(content: string): string {
    LinesText(FilterB(Split(ScanB(content, 0, Start)), false))
  }

  /** Empty content filters to nothing. */
  lemma FilteredEmpty()
    ensures Filtered("") == "" && Trim(Filtered("")) == ""
  {
    assert ScanB("", 0, Start) == "";
    assert Split("") == [""];
    assert LeadLow("") == 0 && TrailEnd("", 0) == 0;
    assert Trim("") == "";
    assert FilterB([""], false) == [] + FilterB([], false);
  }

  /**
   * processContent: an empty content is returned as it is; otherwise the
   * comments are stripped, the header and blank lines dropped, and the
   * characters below 33 cut from both ends.
   */
  method ProcessContent(content: string) returns (r: string)
    ensures r == Trim(Filtered(content))
    ensures |r| > 0 ==> !Low(r[0]) && !Low(r[|r| - 1])
  {
    if |content| == 0 {
      FilteredEmpty();
      return content;
    }
    var stripped := StripComments(content);
    var lines := Split(stripped);
    var processed := FilterLines(lines);
    assert processed == Filtered(content);
    r := StripEdges(processed);
    TrimEdges(processed);
  }

  /**
   * The lines of the filtered text are the body lines that are not blank,
   * from the first one on.
   */
  lemma FilteredLines(content: string)
    ensures var lines := Split(ScanB(content, 0, Start));
            Pieces(Filtered(content)) == NonBlank(lines[FirstStarter(lines)..]) + [""]
  {
    var lines := Split(ScanB(content, 0, Start));
    FilterDropsHeader(lines);
    var kept := NonBlank(lines[FirstStarter(lines)..]);
    forall l | l in kept
      ensures '\n' !in l
    {
      assert l in lines;
    }
    LinesTextPieces(kept);
  }
}
