/**
 * SourceScannerA: the processed content of a source file keeps every line
 * that is not a package or import line, each followed by a newline, and
 * loses the low characters at both ends; files are ordered by the size of
 * that content and then by path.
 */
module ScannerA {
  import opened ScannerText
  import opened JavaString

  /** A scanned file: its path under src, the byte size of its processed content, and that content. */
  datatype FileInfo = FileInfo(path: string, size: int, content: string)

  /** Long.compare */
  function LongCompare(a: int, b: int): (r: int)
    ensures r < 0 <==> a < b
    ensures r == 0 <==> a == b
  {
    if a < b then -1 else if a == b then 0 else 1
  }

  /** FileInfo.compareTo: by size, and by path when the sizes are equal; the content plays no part. */
  function CompareFiles(a: FileInfo, b: FileInfo): (r: int)
    ensures r < 0 <==> a.size < b.size || (a.size == b.size && Less(a.path, b.path))
    ensures r == 0 <==> a.size == b.size && a.path == b.path
  {
    var sizeCompare := LongCompare(a.size, b.size);
    if sizeCompare != 0 then sizeCompare else CompareTo(a.path, b.path)
  }

  /** The order is antisymmetric: swapping the files flips the sign. */
  lemma CompareFilesFlip(a: FileInfo, b: FileInfo)
    ensures CompareFiles(a, b) < 0 <==> CompareFiles(b, a) > 0
  {
    CompareFlip(a.path, b.path);
  }

  /** The order is transitive. */
  lemma CompareFilesTrans(a: FileInfo, b: FileInfo, c: FileInfo)
    requires CompareFiles(a, b) < 0 && CompareFiles(b, c) < 0
    ensures CompareFiles(a, c) < 0
  {
    if a.size == b.size == c.size {
      LessTrans(a.path, b.path, c.path);
    }
  }

  /** A line processContent drops: its trimmed text starts with "package" or "import". */
  predicate Skipped(line: string) {
    StartsWith(Trim(line), "package") || StartsWith(Trim(line), "import")
  }

  /** The lines processContent keeps, in order. */
  function Kept(lines: seq<string>): (r: seq<string>)
    ensures |r| <= |lines|
    ensures forall l :: l in r <==> l in lines && !Skipped(l)
  {
    if |lines| == 0 then []
    else
      var front := Kept(lines[..|lines| - 1]);
      var l := lines[|lines| - 1];
      assert lines == lines[..|lines| - 1] + [l];
      if Skipped(l) then front else front + [l]
  }

  /** The text processContent builds before it strips the ends. */
  function Filtered(content: string): string {
    LinesText(Kept(Split(content)))
  }

  /**
   * The kept lines are exactly the lines of the filtered text: cutting it
   * at its newlines gives them back, in order, each once.
   */
  lemma FilteredLines(content: string)
    ensures Pieces(Filtered(content)) == Kept(Split(content)) + [""]
    ensures forall l :: l in Kept(Split(content)) <==> l in Split(content) && !Skipped(l)
  {
    var kept := Kept(Split(content));
    assert forall l :: l in kept ==> '\n' !in l;
    LinesTextPieces(kept);
  }

  /** The text the loop of processContent has built after the first i lines. */
  function KeptText(lines: seq<string>, i: nat): string
    requires i <= |lines|
  {
    if i == 0 then "" else if Skipped(lines[i - 1]) then KeptText(lines, i - 1) else KeptText(lines, i - 1) + lines[i - 1] + "\n"
  }

  /** That text is the kept lines among the first i, each followed by a newline. */
  lemma {:induction false} KeptTextIs(lines: seq<string>, i: nat)
    requires i <= |lines|
    ensures KeptText(lines, i) == LinesText(Kept(lines[..i]))
  {
    if i > 0 {
      KeptTextIs(lines, i - 1);
      assert lines[..i][..i - 1] == lines[..i - 1];
    }
  }

  /** The loop of processContent over the lines split at '\n'. */
  method FilterLines(lines: seq<string>) returns (result: string)
    ensures result == LinesText(Kept(lines))
  {
    result := "";
    var i := 0;
    while i < |lines|
      invariant 0 <= i <= |lines|
      invariant result == KeptText(lines, i)
    {
      var line := lines[i];
      if !Skipped(line) {
        result := result + line + "\n";
      }
      i := i + 1;
    }
    KeptTextIs(lines, i);
    assert lines[..i] == lines;
  }

  /**
   * processContent: the lines that are not package or import lines, each
   * followed by '\n', without the characters below 33 at either end.
   */
  method ProcessContent(content: string) returns (r: string)
    ensures r == Trim(Filtered(content))
    ensures |r| > 0 ==> !Low(r[0]) && !Low(r[|r| - 1])
  {
    var lines := Split(content);
    var processed := FilterLines(lines);
    r := StripEdges(processed);
    TrimEdges(processed);
  }
}
