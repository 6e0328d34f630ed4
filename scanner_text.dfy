/**
 * The java.lang.String operations the source scanners are built from
 * (contains, startsWith, trim, split on '\n'), the test-file check they
 * share, and the loop that strips low characters from both ends of the
 * processed text.
 */
module ScannerText {

  /** t occurs in s starting at index i. */
  predicate At(s: string, t: string, i: int) {
    0 <= i && i + |t| <= |s| && s[i..i + |t|] == t
  }

  /** An occurrence in a non-empty text is at its start or in its tail. */
  lemma AtTail(s: string, t: string)
    requires |s| > 0
    ensures (exists i :: At(s, t, i)) <==> At(s, t, 0) || exists i :: At(s[1..], t, i)
  {
    forall i | At(s[1..], t, i)
      ensures At(s, t, i + 1)
    {
      assert s[1..][i..i + |t|] == s[i + 1..i + 1 + |t|];
    }
    forall i | At(s, t, i) && i > 0
      ensures At(s[1..], t, i - 1)
    {
      assert s[1..][i - 1..i - 1 + |t|] == s[i..i + |t|];
    }
  }

  /** String.contains */
  function Contains(s: string, t: string): (r: bool)
    ensures r <==> exists i :: At(s, t, i)
    decreases |s|
  {
    if |t| > |s| then false
    else if s[..|t|] == t then
      assert At(s, t, 0);
      true
    else
      AtTail(s, t);
      Contains(s[1..], t)
  }

  /** isTestFile: the content holds "@Test" or "org.junit.Test" somewhere. */
  function IsTestFile(content: string): (r: bool)
    ensures r <==> (exists i :: At(content, "@Test", i)) || (exists i :: At(content, "org.junit.Test", i))
  {
    Contains(content, "@Test") || Contains(content, "org.junit.Test")
  }

  /** The character after index i, or '\0' past the end. */
  function NextChar(c: string, i: nat): char {
    if i + 1 < |c| then c[i + 1] else '\0'
  }

  /** String.startsWith */
  predicate StartsWith(s: string, p: string) {
    |p| <= |s| && s[..|p|] == p
  }

  /** The characters String.trim removes, and the scanners' "code < 33": U+0000 to U+0020. */
  predicate Low(c: char) {
    c <= ' '
  }

  /** The number of low characters at the start of s. */
  function LeadLow(s: string): (n: nat)
    ensures n <= |s| && (forall k :: 0 <= k < n ==> Low(s[k])) && (n < |s| ==> !Low(s[n]))
  {
    if |s| == 0 || !Low(s[0]) then 0 else 1 + LeadLow(s[1..])
  }

  /** The end of s once the low characters after index lo at its end are cut off. */
  function TrailEnd(s: string, lo: nat): (n: nat)
    requires lo <= |s|
    ensures lo <= n <= |s| && (forall k :: n <= k < |s| ==> Low(s[k])) && (n > lo ==> !Low(s[n - 1]))
  {
    if |s| == lo || !Low(s[|s| - 1]) then |s| else TrailEnd(s[..|s| - 1], lo)
  }

  /** String.trim */
  function Trim(s: string): string {
    s[LeadLow(s)..TrailEnd(s, LeadLow(s))]
  }

  /**
   * trim cuts s down to the part between its first and last character
   * above U+0020; everything cut off is low, and nothing is left when s
   * holds only low characters.
   */
  lemma TrimBounds(s: string) returns (i: nat, j: nat)
    ensures i <= j <= |s| && Trim(s) == s[i..j]
    ensures forall k :: 0 <= k < i || j <= k < |s| ==> Low(s[k])
    ensures i < j ==> !Low(s[i]) && !Low(s[j - 1])
    ensures |Trim(s)| == 0 <==> forall k :: 0 <= k < |s| ==> Low(s[k])
  {
    i := LeadLow(s);
    j := TrailEnd(s, i);
    if i == j {
      forall k | 0 <= k < |s|
        ensures Low(s[k])
      {
      }
    }
  }

  /** The trimmed text starts and ends with a character above U+0020. */
  lemma TrimEdges(s: string)
    ensures var t := Trim(s); |t| > 0 ==> !Low(t[0]) && !Low(t[|t| - 1])
  {
    var i, j := TrimBounds(s);
  }

  /** Removing the low characters at both ends twice changes nothing more. */
  lemma TrimIdempotent(s: string)
    ensures Trim(Trim(s)) == Trim(s)
  {
    var t := Trim(s);
    var i, j := TrimBounds(s);
    if |t| > 0 {
      assert !Low(t[0]) && !Low(t[|t| - 1]);
      assert LeadLow(t) == 0;
      assert TrailEnd(t, 0) == |t|;
    }
  }

  /**
   * The two loops of processContent that skip characters below 33 from the
   * front and then from the back, and the substring between them.
   */
  method StripEdges(processed: string) returns (r: string)
    ensures r == Trim(processed)
  {
    var start := 0;
    while start < |processed| && Low(processed[start])
      invariant 0 <= start <= |processed|
      invariant forall k :: 0 <= k < start ==> Low(processed[k])
    {
      start := start + 1;
    }
    assert start == LeadLow(processed);
    var end := |processed| - 1;
    while end >= start && Low(processed[end])
      invariant start - 1 <= end <= |processed| - 1
      invariant forall k :: end < k < |processed| ==> Low(processed[k])
    {
      end := end - 1;
    }
    assert end + 1 == TrailEnd(processed, start);
    r := processed[start..end + 1];
  }

  /** The text cut at every '\n': one piece more than there are newlines. */
  function Pieces(s: string): (r: seq<string>)
    ensures |r| > 0 && forall p :: p in r ==> '\n' !in p
  {
    if |s| == 0 then [""]
    else if s[0] == '\n' then [""] + Pieces(s[1..])
    else
      var rest := Pieces(s[1..]);
      assert rest[0] in rest;
      [[s[0]] + rest[0]] + rest[1..]
  }

  /** The lines put back together with '\n' between them. */
  function JoinLines(ls: seq<string>): string
    requires |ls| > 0
  {
    if |ls| == 1 then ls[0] else ls[0] + "\n" + JoinLines(ls[1..])
  }

  /** Cutting at the newlines and joining with newlines gives the text back. */
  lemma {:induction false} JoinPieces(s: string)
    ensures JoinLines(Pieces(s)) == s
  {
    if |s| > 0 {
      JoinPieces(s[1..]);
      var rest := Pieces(s[1..]);
      if s[0] == '\n' {
        assert Pieces(s) == [""] + rest;
        assert s == "\n" + s[1..];
      } else if |rest| == 1 {
        assert s == [s[0]] + s[1..];
      } else {
        assert Pieces(s)[1..] == rest[1..];
        assert s == [s[0]] + s[1..];
      }
    }
  }

  /** Joining lines without newlines and cutting at the newlines gives the lines back. */
  lemma {:induction false} PiecesJoin(ls: seq<string>)
    requires |ls| > 0 && forall l :: l in ls ==> '\n' !in l
    ensures Pieces(JoinLines(ls)) == ls
    decreases |ls|, |ls[0]|
  {
    if |ls[0]| > 0 {
      var c := ls[0][0];
      var ls' := [ls[0][1..]] + ls[1..];
      assert forall l :: l in ls' ==> '\n' !in l by {
        assert ls[0] in ls;
        forall l | l in ls'
          ensures '\n' !in l
        {
          if l == ls[0][1..] {
            assert forall x :: x in l ==> x in ls[0];
          } else {
            assert l in ls;
          }
        }
      }
      PiecesJoin(ls');
      assert ls[0] in ls;
      assert JoinLines(ls) == [c] + JoinLines(ls') by {
        assert ls[0] == [c] + ls[0][1..];
        if |ls| > 1 {
          assert ls'[1..] == ls[1..];
        }
      }
      assert [c] + ls'[0] == ls[0];
      assert ls == [[c] + ls'[0]] + ls'[1..];
    } else if |ls| > 1 {
      PiecesJoin(ls[1..]);
      assert JoinLines(ls) == "\n" + JoinLines(ls[1..]);
    }
  }

  /** Drops the empty strings at the end of a list. */
  function DropTrailingEmpty(ls: seq<string>): (r: seq<string>)
    ensures |r| <= |ls| && r == ls[..|r|]
    ensures forall k :: |r| <= k < |ls| ==> ls[k] == ""
    ensures |r| > 0 ==> r[|r| - 1] != ""
  {
    if |ls| > 0 && ls[|ls| - 1] == "" then DropTrailingEmpty(ls[..|ls| - 1]) else ls
  }

  /**
   * String.split("\n"): the text itself when it holds no newline, otherwise
   * the pieces between newlines without the empty ones at the end.
   */
  function Split(s: string): (r: seq<string>)
    ensures forall l :: l in r ==> '\n' !in l
  {
    if '\n' !in s then [s]
    else
      var r := DropTrailingEmpty(Pieces(s));
      assert forall l :: l in r ==> l in Pieces(s);
      r
  }

  /**
   * split("\n") keeps the lines of the text in order and drops only empty
   * trailing ones: padding them back with empty strings and joining gives
   * the text.
   */
  lemma SplitLines(s: string) returns (pad: nat)
    ensures |Split(s)| + pad > 0 && JoinLines(Split(s) + seq(pad, _ => "")) == s
    ensures pad > 0 ==> '\n' in s
  {
    if '\n' !in s {
      pad := 0;
      assert Split(s) + seq(0, _ => "") == [s];
    } else {
      var p := Pieces(s);
      var r := DropTrailingEmpty(p);
      pad := |p| - |r|;
      assert r + seq(pad, _ => "") == p;
      JoinPieces(s);
    }
  }

  /** Joining one more line adds a newline and that line at the end. */
  lemma {:induction false} JoinSnoc(ls: seq<string>, l: string)
    requires |ls| > 0
    ensures JoinLines(ls + [l]) == JoinLines(ls) + "\n" + l
    decreases |ls|
  {
    if |ls| > 1 {
      assert (ls + [l])[1..] == ls[1..] + [l];
      JoinSnoc(ls[1..], l);
    } else {
      assert (ls + [l])[1..] == [l];
    }
  }

  /** The text a StringBuilder holds after append(line).append("\n") for each line in turn. */
  function LinesText(ls: seq<string>): string {
    if |ls| == 0 then "" else LinesText(ls[..|ls| - 1]) + ls[|ls| - 1] + "\n"
  }

  /** Each line followed by a newline is the lines joined with newlines and a final empty line. */
  lemma {:induction false} LinesTextJoin(ls: seq<string>)
    ensures LinesText(ls) == JoinLines(ls + [""])
    decreases |ls|
  {
    if |ls| > 0 {
      var front, l := ls[..|ls| - 1], ls[|ls| - 1];
      assert ls == front + [l];
      if |front| == 0 {
        assert ls + [""] == [l, ""];
      } else {
        LinesTextJoin(front);
        JoinSnoc(front, "");
        JoinSnoc(front, l);
        JoinSnoc(front + [l], "");
        assert front + [l] + [""] == ls + [""];
      }
    }
  }

  /**
   * Cutting the appended text at its newlines gives back the lines, each
   * once and in order, followed by the empty piece after the last newline.
   */
  lemma LinesTextPieces(ls: seq<string>)
    requires forall l :: l in ls ==> '\n' !in l
    ensures Pieces(LinesText(ls)) == ls + [""]
  {
    LinesTextJoin(ls);
    PiecesJoin(ls + [""]);
  }
}
