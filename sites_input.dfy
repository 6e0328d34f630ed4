/**
 * The input of lesson14/SitesB.java: String.trim, line.split("\\+") and the
 * pairs of sites the lines name, with the relation "joined by the pairs".
 */
module SitesInput {
  import opened Common

  // ----- trim -----

  /** The number of blanks (characters up to ' ') at the start of s. */
  function LeadingBlanks(s: string): (n: nat)
    ensures n <= |s| && (n < |s| ==> s[n] > ' ')
    ensures forall k :: 0 <= k < n ==> s[k] <= ' '
  {
    if |s| == 0 || s[0] > ' ' then 0 else 1 + LeadingBlanks(s[1..])
  }

  /** The number of blanks at the end of s. */
  function TrailingBlanks(s: string): (n: nat)
    ensures n <= |s| && (n < |s| ==> s[|s| - 1 - n] > ' ')
    ensures forall k :: |s| - n <= k < |s| ==> s[k] <= ' '
  {
    if |s| == 0 || s[|s| - 1] > ' ' then 0 else 1 + TrailingBlanks(s[..|s| - 1])
  }

  /**
   * String.trim(): the middle part of s left when the blanks at both ends
   * are cut off; nothing is left of a string of blanks.
   */
  function Trim(s: string): (r: string)
    ensures |r| > 0 ==> r[0] > ' ' && r[|r| - 1] > ' '
  {
    var i := LeadingBlanks(s);
    if i == |s| then "" else s[i..|s| - TrailingBlanks(s)]
  }

  /** Only blanks are cut off: every other character of s is kept, in place. */
  lemma TrimShape(s: string)
    ensures var r, i := Trim(s), LeadingBlanks(s);
      i + |r| <= |s| && r == s[i..i + |r|] &&
      forall k :: 0 <= k < |s| && s[k] > ' ' ==> i <= k < i + |r|
  {
  }

  /** Trimming twice is trimming once. */
  lemma TrimTwice(s: string)
    ensures Trim(Trim(s)) == Trim(s)
  {
    var r := Trim(s);
    if |r| > 0 {
      assert LeadingBlanks(r) == 0 && TrailingBlanks(r) == 0;
      assert r[0..|r|] == r;
    }
  }

  // ----- split -----

  /** The parts of s between the '+' characters, all of them. */
  function Pieces(s: string): (r: seq<string>)
    ensures |r| >= 1
  {
    if |s| == 0 then [""]
    else
      var rest := Pieces(s[1..]);
      if s[0] == '+' then [""] + rest else [[s[0]] + rest[0]] + rest[1..]
  }

  /** The parts joined back with '+'. */
  function JoinPlus(parts: seq<string>): string
    requires |parts| >= 1
  {
    if |parts| == 1 then parts[0] else parts[0] + "+" + JoinPlus(parts[1..])
  }

  /** Adding a character to the first part changes only that part of the join. */
  lemma JoinPlusHead(c: char, parts: seq<string>)
    requires |parts| >= 1
    ensures JoinPlus([[c] + parts[0]] + parts[1..]) == [c] + JoinPlus(parts)
  {
    var q := [[c] + parts[0]] + parts[1..];
    assert q[1..] == parts[1..];
  }

  /** Splitting at every '+' loses nothing: the parts join back to s. */
  lemma {:induction false} PiecesJoin(s: string)
    ensures JoinPlus(Pieces(s)) == s
  {
    if |s| > 0 {
      var rest := Pieces(s[1..]);
      PiecesJoin(s[1..]);
      if s[0] == '+' {
        assert ([""] + rest)[1..] == rest;
      } else {
        JoinPlusHead(s[0], rest);
      }
      assert s == [s[0]] + s[1..];
    }
  }

  /** A part p without '+' followed by '+' is the first piece. */
  lemma {:induction false} PiecesPrefix(p: string, t: string)
    requires '+' !in p
    ensures Pieces(p + "+" + t) == [p] + Pieces(t) && Pieces(p) == [p]
  {
    var s := p + "+" + t;
    if |p| == 0 {
      assert s == "+" + t && s[1..] == t;
    } else {
      PiecesPrefix(p[1..], t);
      assert s[0] == p[0] && s[1..] == p[1..] + "+" + t;
      assert [p[0]] + p[1..] == p;
    }
  }

  /** Splitting the join of '+'-free parts gives the parts back. */
  lemma {:induction false} JoinPieces(parts: seq<string>)
    requires |parts| >= 1 && forall k :: 0 <= k < |parts| ==> '+' !in parts[k]
    ensures Pieces(JoinPlus(parts)) == parts
  {
    PiecesPrefix(parts[0], "");
    if |parts| > 1 {
      JoinPieces(parts[1..]);
      PiecesPrefix(parts[0], JoinPlus(parts[1..]));
    }
  }

  /** The parts without the empty strings at the end. */
  function DropTrailingEmpty(parts: seq<string>): (r: seq<string>)
    ensures |r| <= |parts| && r == parts[..|r|]
    ensures forall k :: |r| <= k < |parts| ==> parts[k] == ""
    ensures |r| > 0 ==> r[|r| - 1] != ""
  {
    if |parts| > 0 && parts[|parts| - 1] == "" then DropTrailingEmpty(parts[..|parts| - 1]) else parts
  }

  /**
   * line.split("\\+"): a line without '+' is the only part; otherwise the
   * parts between the '+' characters, with trailing empty parts removed.
   */
  function SplitPlus(line: string): seq<string> {
    if '+' !in line then [line] else DropTrailingEmpty(Pieces(line))
  }

  /** The pair a line stands for, when it splits into exactly two parts, trimmed. */
  function ParseLine(line: string): Option<(string, string)> {
    var parts := SplitPlus(line);
    if |parts| == 2 then Some((Trim(parts[0]), Trim(parts[1]))) else None
  }

  /** "a+b" with no '+' in a or b and b non-empty is the pair of a and b, trimmed. */
  lemma ParsePair(a: string, b: string)
    requires '+' !in a && '+' !in b && b != ""
    ensures ParseLine(a + "+" + b) == Some((Trim(a), Trim(b)))
  {
    var s := a + "+" + b;
    JoinPieces([a, b]);
    assert JoinPlus([a, b]) == s;
    assert s[|a|] == '+';
    assert SplitPlus(s) == [a, b];
  }

  /** "a+" with no '+' in a is skipped: the empty part after '+' is dropped. */
  lemma ParseTrailingPlus(a: string)
    requires '+' !in a
    ensures ParseLine(a + "+") == None
  {
    var s := a + "+";
    JoinPieces([a, ""]);
    assert JoinPlus([a, ""]) == s;
    assert s[|a|] == '+';
    assert |SplitPlus(s)| <= 1;
  }

  /** A line without '+' is skipped. */
  lemma ParseNoPlus(line: string)
    requires '+' !in line
    ensures ParseLine(line) == None
  {
  }

  // ----- the pairs -----

  /** The pairs read from the lines, in order; lines that are not pairs add nothing. */
  function Edges(lines: seq<string>): (r: seq<(string, string)>)
    ensures |r| <= |lines|
  {
    if |lines| == 0 then []
    else
      var e := ParseLine(lines[|lines| - 1]);
      Edges(lines[..|lines| - 1]) + if e.Some? then [e.value] else []
  }

  /** The sites named by the pairs. */
  ghost function Sites<K>(edges: seq<(K, K)>): set<K> {
    if |edges| == 0 then {}
    else Sites(edges[..|edges| - 1]) + {edges[|edges| - 1].0, edges[|edges| - 1].1}
  }

  /**
   * x and y are joined by the pairs: the same site, or linked through the
   * last pair by sites joined by the earlier ones.
   */
  ghost predicate Joined<K>(edges: seq<(K, K)>, x: K, y: K) {
    if |edges| == 0 then x == y
    else
      var init, a, b := edges[..|edges| - 1], edges[|edges| - 1].0, edges[|edges| - 1].1;
      Joined(init, x, y) || (Joined(init, x, a) && Joined(init, b, y)) || (Joined(init, x, b) && Joined(init, a, y))
  }

  /** Two different sites are joined only when the pairs name both. */
  lemma {:induction false} JoinedSites<K>(edges: seq<(K, K)>, x: K, y: K)
    requires Joined(edges, x, y) && x != y
    ensures x in Sites(edges) && y in Sites(edges)
    decreases |edges|
  {
    var init, a, b := edges[..|edges| - 1], edges[|edges| - 1].0, edges[|edges| - 1].1;
    if Joined(init, x, y) {
      JoinedSites(init, x, y);
    } else if Joined(init, x, a) && Joined(init, b, y) {
      if x != a { JoinedSites(init, x, a); }
      if b != y { JoinedSites(init, b, y); }
    } else {
      if x != b { JoinedSites(init, x, b); }
      if a != y { JoinedSites(init, a, y); }
    }
  }

}
