/**
 * SourceScannerC: the processed content of a source file loses its
 * comments, its leading package and import lines and its newlines; the
 * other characters below 33 become spaces, and the text is trimmed with
 * every run of white space collapsed to one space. Two files are reported
 * as copies when their processed lengths differ by at most 10 and their
 * Levenshtein distance, computed with a cutoff, is below 10.
 */
module ScannerC {
  import opened ScannerText

  /**
   * The flags of processContent's character loop, the previous character,
   * whether the rest of a package or import line is being skipped, and
   * whether a line other than those has begun.
   */
  datatype Lexer = Lexer(block: bool, line: bool, str: bool, chr: bool, prev: char, skip: bool, has: bool)

  /** The state before the first character. */
  const Start := Lexer(false, false, false, false, '\0', false, false)

  /** Outside every comment and literal, and not skipping a line. */
  predicate Plain(st: Lexer) {
    !st.block && !st.line && !st.str && !st.chr && !st.skip
  }

  /** A package or import line starts at index i. */
  predicate HeaderAt(c: string, i: nat)
    requires i <= |c|
  {
    StartsWith(c[i..], "package ") || StartsWith(c[i..], "import ")
  }

  /**
   * One pass of the loop body at index i: the new state, the next index
   * (two on when a comment delimiter is consumed) and what is appended.
   */
  function StepC(c: string, i: nat, st: Lexer): (r: (Lexer, nat, string))
    requires i < |c|
    ensures i < r.1 <= |c| && |r.2| <= 1
  {
    var cur := c[i];
    var next := NextChar(c, i);
    if cur == '\n' then (st.(line := false, skip := false), i + 1, "")
    else if st.skip then (st, i + 1, "")
    else
      var str :=
        if !st.block && !st.line && !st.chr && cur == '"' && st.prev != '\\' then !st.str else st.str;
      var chr :=
        if !st.block && !st.line && !(!st.chr && cur == '"' && st.prev != '\\')
           && !st.str && cur == '\'' && st.prev != '\\' then !st.chr else st.chr;
      var code := !str && !chr && !st.block && !st.line;
      if code && cur == '/' && next == '*' then
        (st.(block := true, str := str, chr := chr, prev := cur), i + 2, "")
      else if !str && !chr && st.block && cur == '*' && next == '/' then
        (st.(block := false, str := str, chr := chr, prev := cur), i + 2, "")
      else if code && cur == '/' && next == '/' then
        (st.(line := true, str := str, chr := chr, prev := cur), i + 2, "")
      else
        var lineStart := code && !st.has && (i == 0 || c[i - 1] == '\n');
        if lineStart && HeaderAt(c, i) then (st.(str := str, chr := chr, skip := true), i + 1, "")
        else
          var has := st.has || lineStart;
          var out := if !st.block && !st.line && has then [if Low(cur) then ' ' else cur] else "";
          (st.(str := str, chr := chr, prev := cur, has := has), i + 1, out)
  }

  /** What processContent's character loop appends from index i on, in state st. */
  function ScanC(c: string, i: nat, st: Lexer): string
    requires i <= |c|
    decreases |c| - i
  {
    if i == |c| then ""
    else
      var (st', j, out) := StepC(c, i, st);
      out + ScanC(c, j, st')
  }

  /** The character loop writes no character below 33 other than the space. */
  lemma {:induction false} ScanSpaced(c: string, i: nat, st: Lexer)
    requires i <= |c|
    ensures forall ch :: ch in ScanC(c, i, st) ==> ch == ' ' || !Low(ch)
    decreases |c| - i
  {
    if i < |c| {
      var (st', j, out) := StepC(c, i, st);
      ScanSpaced(c, j, st');
    }
  }

  /**
   * A package or import line at the start of a line, before any other
   * line has begun, contributes nothing: scanning goes on after its
   * newline in the same state.
   */
  lemma HeaderSkipped(c: string, i: nat, j: nat, st: Lexer)
    requires Plain(st) && !st.has && i < j < |c| && c[j] == '\n'
    requires (i == 0 || c[i - 1] == '\n') && HeaderAt(c, i)
    requires forall m :: i <= m < j ==> c[m] != '\n'
    ensures ScanC(c, i, st) == ScanC(c, j + 1, st)
  {
    assert c[i] != '\n';
    SkipToNewline(c, i + 1, j, st.(skip := true));
  }

  /** While a line is skipped nothing is appended up to its newline, which ends the skip. */
  lemma {:induction false} SkipToNewline(c: string, k: nat, j: nat, st: Lexer)
    requires k <= j < |c| && c[j] == '\n' && st.skip
    requires forall m :: k <= m < j ==> c[m] != '\n'
    ensures ScanC(c, k, st) == ScanC(c, j + 1, st.(line := false, skip := false))
    decreases j - k
  {
    if k < j {
      SkipToNewline(c, k + 1, j, st);
    }
  }

  /** Inside a block comment nothing is appended until the first "*" "/" closes it. */
  lemma {:induction false} ScanInBlock(c: string, k: nat, j: nat, st: Lexer)
    requires k <= j && j + 1 < |c| && c[j] == '*' && c[j + 1] == '/'
    requires st.block && !st.line && !st.str && !st.chr && !st.skip
    requires forall m :: k <= m < j ==> !(c[m] == '*' && c[m + 1] == '/')
    ensures ScanC(c, k, st) == ScanC(c, j + 2, st.(block := false, prev := '*'))
    decreases j - k
  {
    var (st', n, out) := StepC(c, k, st);
    if k < j {
      assert n == k + 1 && out == "" && st'.block && !st'.line && !st'.str && !st'.chr && !st'.skip;
      assert st'.has == st.has;
      ScanInBlock(c, n, j, st');
    }
  }

  /**
   * A block comment opened outside comments and literals is removed with
   * its delimiters; the newlines inside it are not written either.
   */
  lemma BlockCommentRemoved(c: string, i: nat, j: nat, st: Lexer)
    requires Plain(st) && i + 2 <= j && j + 1 < |c|
    requires c[i] == '/' && c[i + 1] == '*' && c[j] == '*' && c[j + 1] == '/'
    requires forall m :: i + 2 <= m < j ==> !(c[m] == '*' && c[m + 1] == '/')
    ensures ScanC(c, i, st) == ScanC(c, j + 2, st.(prev := '*'))
  {
    var (st', n, out) := StepC(c, i, st);
    assert n == i + 2 && out == "" && st' == st.(block := true, prev := '/');
    ScanInBlock(c, i + 2, j, st');
  }

  /** Inside a line comment nothing is appended up to its newline, which ends the comment. */
  lemma {:induction false} ScanInLine(c: string, k: nat, j: nat, st: Lexer)
    requires k <= j < |c| && c[j] == '\n'
    requires !st.block && st.line && !st.str && !st.chr && !st.skip
    requires forall m :: k <= m < j ==> c[m] != '\n'
    requires k > 0 && st.prev == c[k - 1]
    ensures ScanC(c, k, st) == ScanC(c, j + 1, st.(line := false, prev := c[j - 1]))
    decreases j - k
  {
    var (st', n, out) := StepC(c, k, st);
    if k < j {
      assert n == k + 1 && out == "" && st' == st.(prev := c[k]);
      ScanInLine(c, n, j, st');
    }
  }

  /**
   * A line comment opened outside comments and literals is removed
   * together with the newline that ends it.
   */
  lemma LineCommentRemoved(c: string, i: nat, j: nat, st: Lexer)
    requires Plain(st) && i + 2 <= j < |c|
    requires c[i] == '/' && c[i + 1] == '/' && c[j] == '\n'
    requires forall m :: i + 2 <= m < j ==> c[m] != '\n'
    ensures ScanC(c, i, st) == ScanC(c, j + 1, st.(prev := c[j - 1]))
  {
    var (st', n, out) := StepC(c, i, st);
    assert n == i + 2 && out == "" && st' == st.(line := true, prev := '/');
    ScanInLine(c, i + 2, j, st');
  }

  /** content.startsWith(p, i) with the remaining length checked first, as processContent tests it. */
  lemma HeaderAtIff(c: string, i: nat)
    requires i <= |c|
    ensures HeaderAt(c, i) <==> (|c| - i >= 8 && c[i..i + 8] == "package ") || (|c| - i >= 7 && c[i..i + 7] == "import ")
  {
    if |c| - i >= 8 {
      assert c[i..][..8] == c[i..i + 8];
    }
    if |c| - i >= 7 {
      assert c[i..][..7] == c[i..i + 7];
    }
  }

  /** One pass of the loop body moves its output from what is left to scan onto what is appended. */
  lemma ScanStep(c: string, i: nat, st: Lexer, result: string)
    requires i < |c|
    ensures var step := StepC(c, i, st);
      result + ScanC(c, i, st) == (result + step.2) + ScanC(c, step.1, step.0)
  {
  }

  /** The character loop of processContent, with its flags, the skipped lines and the skip over a comment delimiter. */
  method ScanContent(content: string) returns (result: string)
    ensures result == ScanC(content, 0, Start)
  {
    result := "";
    var inBlockComment, inLineComment, inString, inChar := false, false, false, false;
    var prevChar := '\0';
    var skipLine, hasContentAfterPackageImport := false, false;
    var i := 0;
    while i < |content|
      invariant 0 <= i <= |content|
      invariant result + ScanC(content, i, Lexer(inBlockComment, inLineComment, inString, inChar, prevChar,
                                                 skipLine, hasContentAfterPackageImport))
                == ScanC(content, 0, Start)
      decreases |content| - i
    {
      ghost var st := Lexer(inBlockComment, inLineComment, inString, inChar, prevChar, skipLine, hasContentAfterPackageImport);
      ghost var step := StepC(content, i, st);
      ghost var result0 := result;
      ScanStep(content, i, st, result);
      HeaderAtIff(content, i);
      var current := content[i];
      var next := if i + 1 < |content| then content[i + 1] else '\0';
      if current == '\n' {
        inLineComment, skipLine := false, false;
        i := i + 1;
      } else if skipLine {
        i := i + 1;
      } else {
        if !inBlockComment && !inLineComment {
          if !inChar && current == '"' && prevChar != '\\' {
            inString := !inString;
          } else if !inString && current == '\'' && prevChar != '\\' {
            inChar := !inChar;
          }
        }
        if !inString && !inChar && !inBlockComment && !inLineComment && current == '/' && next == '*' {
          inBlockComment := true;
          i, prevChar := i + 2, current;
        } else if !inString && !inChar && inBlockComment && current == '*' && next == '/' {
          inBlockComment := false;
          i, prevChar := i + 2, current;
        } else if !inString && !inChar && !inBlockComment && !inLineComment && current == '/' && next == '/' {
          inLineComment := true;
          i, prevChar := i + 2, current;
        } else if !inString && !inChar && !inBlockComment && !inLineComment && !hasContentAfterPackageImport
                  && (i == 0 || content[i - 1] == '\n')
                  && ((|content| - i >= 8 && content[i..i + 8] == "package ")
                      || (|content| - i >= 7 && content[i..i + 7] == "import ")) {
          skipLine := true;
          i := i + 1;
        } else {
          if !inString && !inChar && !inBlockComment && !inLineComment && !hasContentAfterPackageImport
             && (i == 0 || content[i - 1] == '\n') {
            hasContentAfterPackageImport := true;
          }
          if !inBlockComment && !inLineComment && !skipLine && hasContentAfterPackageImport {
            if (current as int) < 33 {
              result := result + " ";
            } else {
              result := result + [current];
            }
          }
          i, prevChar := i + 1, current;
        }
      }
      assert step.0 == Lexer(inBlockComment, inLineComment, inString, inChar, prevChar, skipLine, hasContentAfterPackageImport)
             && step.1 == i;
      assert result == result0 + step.2;
    }
  }

  /** The characters Java's regular expression class \s matches: space, tab, newline, U+000B, form feed, carriage return. */
  predicate Space(ch: char) {
    ch == ' ' || ('\t' <= ch <= '\r')
  }

  /** The length of the run of white space at the start of s. */
  function SpaceRun(s: string): (n: nat)
    ensures n <= |s| && (forall k :: 0 <= k < n ==> Space(s[k])) && (n < |s| ==> !Space(s[n]))
  {
    if |s| == 0 || !Space(s[0]) then 0 else 1 + SpaceRun(s[1..])
  }

  /** No two neighbouring characters are both white space. */
  predicate NoDoubleSpace(s: string) {
    forall k :: 0 <= k < |s| - 1 ==> !(Space(s[k]) && Space(s[k + 1]))
  }

  /**
   * replaceAll("\\s+", " "): every maximal run of white space becomes one
   * space; the other characters stay, in order. The result holds no white
   * space but the space, never two in a row, and keeps a first or last
   * character that is not white space.
   */
  function Collapse(s: string): (r: string)
    ensures forall k :: 0 <= k < |r| ==> r[k] == ' ' || (r[k] in s && !Space(r[k]))
    ensures NoDoubleSpace(r)
    ensures |s| > 0 && !Space(s[0]) ==> |r| > 0 && r[0] == s[0]
    ensures |s| > 0 && Space(s[0]) ==> |r| > 0 && r[0] == ' '
    ensures |s| > 0 && !Space(s[|s| - 1]) ==> |r| > 0 && !Space(r[|r| - 1])
    decreases |s|
  {
    if |s| == 0 then ""
    else if Space(s[0]) then
      var n := SpaceRun(s);
      var rest := Collapse(s[n..]);
      assert forall ch :: ch in s[n..] ==> ch in s;
      " " + rest
    else
      var rest := Collapse(s[1..]);
      assert forall ch :: ch in s[1..] ==> ch in s;
      [s[0]] + rest
  }

  /** The characters of s that are not white space, in order. */
  function Visible(s: string): (r: string)
    ensures forall ch :: ch in r <==> ch in s && !Space(ch)
  {
    if |s| == 0 then ""
    else (if Space(s[0]) then "" else [s[0]]) + Visible(s[1..])
  }

  /** White space at the front adds nothing visible. */
  lemma {:induction false} VisibleSkip(s: string, n: nat)
    requires n <= |s| && forall k :: 0 <= k < n ==> Space(s[k])
    ensures Visible(s) == Visible(s[n..])
    decreases n
  {
    if n > 0 {
      VisibleSkip(s[1..], n - 1);
      assert s[1..][n - 1..] == s[n..];
    }
  }

  /** Collapsing white space keeps every other character, in order. */
  lemma {:induction false} CollapseVisible(s: string)
    ensures Visible(Collapse(s)) == Visible(s)
    decreases |s|
  {
    if |s| > 0 {
      if Space(s[0]) {
        var n := SpaceRun(s);
        CollapseVisible(s[n..]);
        VisibleSkip(s, n);
        assert (" " + Collapse(s[n..]))[1..] == Collapse(s[n..]);
      } else {
        CollapseVisible(s[1..]);
        assert ([s[0]] + Collapse(s[1..]))[1..] == Collapse(s[1..]);
      }
    }
  }

  /** Text whose only white space is single spaces is left as it is. */
  lemma {:induction false} CollapseFixed(s: string)
    requires NoDoubleSpace(s) && forall k :: 0 <= k < |s| ==> Space(s[k]) ==> s[k] == ' '
    ensures Collapse(s) == s
    decreases |s|
  {
    if |s| > 0 {
      if Space(s[0]) {
        assert |s| == 1 || !Space(s[1]);
        assert SpaceRun(s) == 1;
      }
      CollapseFixed(s[1..]);
      assert s == [s[0]] + s[1..];
    }
  }

  /** Collapsing twice changes nothing more. */
  lemma CollapseIdempotent(s: string)
    ensures Collapse(Collapse(s)) == Collapse(s)
  {
    CollapseFixed(Collapse(s));
  }

  /** The text processContent returns. */
  function Normalized(content: string): string {
    if |content| == 0 then "" else Collapse(Trim(ScanC(content, 0, Start)))
  }

  /**
   * The processed text holds no character below 33 but single spaces, and
   * starts and ends with a character above U+0020.
   */
  lemma NormalForm(content: string)
    ensures var r := Normalized(content);
      (forall k :: 0 <= k < |r| ==> r[k] == ' ' || !Low(r[k]))
      && NoDoubleSpace(r)
      && (|r| > 0 ==> !Low(r[0]) && !Low(r[|r| - 1]))
  {
    if |content| > 0 {
      var scanned := ScanC(content, 0, Start);
      ScanSpaced(content, 0, Start);
      var i, j := TrimBounds(scanned);
      var t := scanned[i..j];
      assert forall ch :: ch in t ==> ch in scanned;
      var r := Collapse(t);
      assert r == Normalized(content);
      if |r| > 0 {
        assert |t| > 0;
        assert !Space(t[0]) && !Space(t[|t| - 1]);
        var last := r[|r| - 1];
        assert !Space(last);
        assert last in t;
        assert !Low(last);
      }
    }
  }

  /** processContent */
  method ProcessContent(content: string) returns (r: string)
    ensures r == Normalized(content)
  {
    if |content| == 0 {
      return "";
    }
    var processed := ScanContent(content);
    processed := Trim(processed);
    r := Collapse(processed);
  }

  function Min(a: int, b: int): int {
    if a <= b then a else b
  }

  function Abs(a: int): int {
    if a < 0 then -a else a
  }

  /**
   * The edit distance between the first i characters of a and the first j
   * of b, by the recurrence levenshteinDistance fills its rows with.
   */
  function Dist(a: string, b: string, i: nat, j: nat): nat
    requires i <= |a| && j <= |b|
    decreases i + j
  {
    if i == 0 then j
    else if j == 0 then i
    else
      var cost := if a[i - 1] == b[j - 1] then 0 else 1;
      Min(Min(Dist(a, b, i, j - 1) + 1, Dist(a, b, i - 1, j) + 1), Dist(a, b, i - 1, j - 1) + cost)
  }

  /** The Levenshtein distance between a and b. */
  function Lev(a: string, b: string): nat {
    Dist(a, b, |a|, |b|)
  }

  /** The distance is at least the difference in length. */
  lemma {:induction false} DistGap(a: string, b: string, i: nat, j: nat)
    requires i <= |a| && j <= |b|
    ensures Dist(a, b, i, j) >= Abs(i - j)
    decreases i + j
  {
    if i > 0 && j > 0 {
      DistGap(a, b, i, j - 1);
      DistGap(a, b, i - 1, j);
      DistGap(a, b, i - 1, j - 1);
    }
  }

  /** The distance from a text to itself is zero. */
  lemma {:induction false} DistSelf(a: string, i: nat)
    requires i <= |a|
    ensures Dist(a, a, i, i) == 0
  {
    if i > 0 {
      DistSelf(a, i - 1);
    }
  }

  /** Every entry of row p + 1 is at least the smallest entry of row p. */
  lemma {:induction false} RowFloorAt(a: string, b: string, p: nat, j: nat, m: int)
    requires p < |a| && j <= |b|
    requires forall k: nat :: k <= |b| ==> Dist(a, b, p, k) >= m
    ensures Dist(a, b, p + 1, j) >= m
    decreases j
  {
    if j == 0 {
      assert Dist(a, b, p, 0) == p;
    } else {
      RowFloorAt(a, b, p, j - 1, m);
    }
  }

  /**
   * Once every entry of a row exceeds a bound, so does every later row and
   * so does the distance: the early exit of levenshteinDistance is safe.
   */
  lemma {:induction false} RowsFloor(a: string, b: string, i: nat, m: int)
    requires i <= |a|
    requires forall k: nat :: k <= |b| ==> Dist(a, b, i, k) >= m
    ensures Lev(a, b) >= m
    decreases |a| - i
  {
    if i < |a| {
      var next := i + 1;
      forall k: nat | k <= |b|
        ensures Dist(a, b, next, k) >= m
      {
        RowFloorAt(a, b, i, k, m);
      }
      RowsFloor(a, b, next, m);
    }
  }

  /**
   * One row of levenshteinDistance's table: row i filled into curr from row
   * i - 1 in prev, and the smallest entry of the row.
   */
  method FillRow(s1: string, s2: string, i: nat, prev: array<int>, curr: array<int>) returns (minInRow: int)
    requires 0 < i <= |s1| && prev != curr && prev.Length == |s2| + 1 && curr.Length == |s2| + 1
    requires forall k {:trigger prev[k]} :: 0 <= k <= |s2| ==> prev[k] == Dist(s1, s2, i - 1, k)
    modifies curr
    ensures forall k {:trigger curr[k]} :: 0 <= k <= |s2| ==> curr[k] == Dist(s1, s2, i, k)
    ensures forall k :: 0 <= k <= |s2| ==> minInRow <= curr[k]
    ensures exists k :: 0 <= k <= |s2| && minInRow == curr[k]
  {
    curr[0] := i;
    minInRow := i;
    ghost var at := 0;
    for j := 1 to |s2| + 1
      invariant forall k {:trigger curr[k]} :: 0 <= k < j ==> curr[k] == Dist(s1, s2, i, k)
      invariant forall k :: 0 <= k < j ==> minInRow <= curr[k]
      invariant 0 <= at < j && minInRow == curr[at]
    {
      var cost := if s1[i - 1] == s2[j - 1] then 0 else 1;
      var cell := Min(Min(curr[j - 1] + 1, prev[j] + 1), prev[j - 1] + cost);
      assert cell == Dist(s1, s2, i, j);
      curr[j] := cell;
      if cell < minInRow {
        at := j;
      }
      minInRow := Min(minInRow, cell);
    }
  }

  /** Every entry of row i of the table exceeds m. */
  predicate RowAbove(a: string, b: string, i: nat, m: int)
    requires i <= |a|
  {
    forall k: nat :: k <= |b| ==> Dist(a, b, i, k) > m
  }

  /**
   * The cases in which levenshteinDistance stops early with maxDistance + 1:
   * the lengths differ by more than m, or some row 1..|a| lies wholly above m.
   */
  predicate CutOff(a: string, b: string, m: int) {
    Abs(|a| - |b|) > m || exists i: nat :: 1 <= i <= |a| && RowAbove(a, b, i, m)
  }

  /**
   * levenshteinDistance: maxDistance + 1 exactly in the cut-off cases, and
   * the distance itself otherwise. The distance is returned whenever it is
   * at most maxDistance, and the result always exceeds maxDistance when the
   * distance does.
   */
  method LevenshteinDistance(s1: string, s2: string, maxDistance: int) returns (r: int)
    ensures CutOff(s1, s2, maxDistance) ==> r == maxDistance + 1
    ensures !CutOff(s1, s2, maxDistance) ==> r == Lev(s1, s2)
    ensures Lev(s1, s2) <= maxDistance ==> r == Lev(s1, s2)
    ensures Lev(s1, s2) > maxDistance ==> r > maxDistance && (r == maxDistance + 1 || r == Lev(s1, s2))
  {
    var len1, len2 := |s1|, |s2|;
    if Abs(len1 - len2) > maxDistance {
      DistGap(s1, s2, len1, len2);
      return maxDistance + 1;
    }
    var prev := new int[len2 + 1];
    var curr := new int[len2 + 1];
    for j := 0 to len2 + 1
      invariant forall k {:trigger prev[k]} :: 0 <= k < j ==> prev[k] == Dist(s1, s2, 0, k)
    {
      prev[j] := j;
    }
    var i := 1;
    while i <= len1
      invariant 1 <= i <= len1 + 1
      invariant fresh(prev) && fresh(curr) && prev != curr && prev.Length == len2 + 1 && curr.Length == len2 + 1
      invariant forall k {:trigger prev[k]} :: 0 <= k <= len2 ==> prev[k] == Dist(s1, s2, i - 1, k)
      invariant forall p: nat :: 1 <= p < i ==> !RowAbove(s1, s2, p, maxDistance)
    {
      var minInRow := FillRow(s1, s2, i, prev, curr);
      if minInRow > maxDistance {
        forall k: nat | k <= len2
          ensures Dist(s1, s2, i, k) >= maxDistance + 1
        {
          assert minInRow <= curr[k];
        }
        assert RowAbove(s1, s2, i, maxDistance);
        RowsFloor(s1, s2, i, maxDistance + 1);
        return maxDistance + 1;
      }
      assert !RowAbove(s1, s2, i, maxDistance) by {
        var k :| 0 <= k <= len2 && minInRow == curr[k];
        assert Dist(s1, s2, i, k) <= maxDistance;
      }
      prev, curr := curr, prev;
      i := i + 1;
    }
    assert !CutOff(s1, s2, maxDistance);
    return prev[len2];
  }

  /** A scanned file: its path under src and its processed content, whose length is compared. */
  datatype FileInfo = FileInfo(path: string, content: string)

  /** The largest distance main still counts as a copy, plus one. */
  const Threshold := 10

  /** main's rule: the lengths differ by at most 10 and the distance is below 10. */
  predicate IsCopy(f1: FileInfo, f2: FileInfo) {
    Abs(|f1.content| - |f2.content|) <= Threshold && Lev(f1.content, f2.content) < Threshold
  }

  /** The paths of the files after index i and before index n that are copies of file i, in order. */
  function CopiesOf(files: seq<FileInfo>, i: nat, n: nat): (r: seq<string>)
    requires i < n <= |files|
    ensures forall p :: p in r ==> exists k :: i < k < n && files[k].path == p && IsCopy(files[i], files[k])
    ensures forall k {:trigger IsCopy(files[i], files[k])} :: i < k < n && IsCopy(files[i], files[k]) ==> files[k].path in r
    decreases n
  {
    if n == i + 1 then []
    else
      var front := CopiesOf(files, i, n - 1);
      if IsCopy(files[i], files[n - 1]) then front + [files[n - 1].path] else front
  }

  /** The map main prints: each file with at least one copy after it, mapped to those copies. */
  function CopiesMap(files: seq<FileInfo>, n: nat): (m: map<string, seq<string>>)
    requires n <= |files|
    ensures forall i {:trigger CopiesOf(files, i, |files|)} :: 0 <= i < n && |CopiesOf(files, i, |files|)| > 0 ==> files[i].path in m
    ensures forall p :: p in m ==> |m[p]| > 0
  {
    if n == 0 then map[]
    else
      var m := CopiesMap(files, n - 1);
      var copies := CopiesOf(files, n - 1, |files|);
      if |copies| > 0 then m[files[n - 1].path := copies] else m
  }

  /** Only the paths of the files are recorded. */
  lemma {:induction false} CopiesMapAbsent(files: seq<FileInfo>, n: nat, p: string)
    requires n <= |files| && forall a :: 0 <= a < n ==> files[a].path != p
    ensures p !in CopiesMap(files, n)
  {
    if n > 0 {
      CopiesMapAbsent(files, n - 1, p);
    }
  }

  /**
   * With distinct paths, a file is recorded exactly when a later file is a
   * copy of it, and what is recorded are exactly those copies.
   */
  lemma {:induction false} CopiesMapAt(files: seq<FileInfo>, n: nat, i: nat)
    requires i < n <= |files|
    requires forall a, b :: 0 <= a < b < |files| ==> files[a].path != files[b].path
    ensures files[i].path in CopiesMap(files, n) <==> |CopiesOf(files, i, |files|)| > 0
    ensures files[i].path in CopiesMap(files, n) ==> CopiesMap(files, n)[files[i].path] == CopiesOf(files, i, |files|)
    decreases n
  {
    var m := CopiesMap(files, n - 1);
    var last := CopiesOf(files, n - 1, |files|);
    var key := files[i].path;
    if i < n - 1 {
      CopiesMapAt(files, n - 1, i);
      assert files[n - 1].path != key;
      assert key in CopiesMap(files, n) <==> key in m;
      if key in m {
        assert CopiesMap(files, n)[key] == m[key];
      }
    } else {
      CopiesMapAbsent(files, n - 1, key);
      assert last == CopiesOf(files, i, |files|);
      if |last| > 0 {
        assert CopiesMap(files, n)[key] == last;
      }
    }
  }

  /**
   * The two loops of main over the files: for each file, the later files
   * whose length is close enough and whose distance is below the
   * threshold, stored under its path when there is one.
   */
  method FindCopies(files: seq<FileInfo>) returns (copiesMap: map<string, seq<string>>)
    ensures copiesMap == CopiesMap(files, |files|)
  {
    copiesMap := map[];
    var threshold := Threshold;
    for i := 0 to |files|
      invariant copiesMap == CopiesMap(files, i)
    {
      var file1 := files[i];
      var copies: seq<string> := [];
      for j := i + 1 to |files|
        invariant copies == CopiesOf(files, i, j)
      {
        var file2 := files[j];
        if Abs(|file1.content| - |file2.content|) > threshold {
          continue;
        }
        var distance := LevenshteinDistance(file1.content, file2.content, threshold);
        if distance < threshold {
          copies := copies + [file2.path];
        }
      }
      if |copies| > 0 {
        copiesMap := copiesMap[file1.path := copies];
      }
    }
  }
}
