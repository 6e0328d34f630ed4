/**
 * The input line of lesson13's GraphA, GraphB and GraphC: the whitespace
 * removal replaceAll("\\s+", ""), String.split with a literal delimiter
 * ("," between the edges, "->" inside an edge), and the commands
 * addEdge / addVertex the pieces stand for.
 */
module GraphInput {
  import opened SitesInput
  import opened Digraph

  // ----- whitespace -----

  /** Java's \s: space, tab, line feed, vertical tab, form feed, carriage return. */
  predicate IsSpace(c: char) {
    c == ' ' || '\t' <= c <= '\r'
  }

  /** replaceAll("\\s+", ""): s with every whitespace character removed. */
  function RemoveSpaces(s: string): (r: string)
    ensures |r| <= |s|
    ensures forall c :: c in r <==> c in s && !IsSpace(c)
  {
    if |s| == 0 then ""
    else (if IsSpace(s[0]) then "" else [s[0]]) + RemoveSpaces(s[1..])
  }

  /** A string without whitespace is left as it is. */
  lemma {:induction false} RemoveSpacesKeeps(s: string)
    requires forall k :: 0 <= k < |s| ==> !IsSpace(s[k])
    ensures RemoveSpaces(s) == s
  {
    if |s| > 0 {
      RemoveSpacesKeeps(s[1..]);
      assert [s[0]] + s[1..] == s;
    }
  }

  // ----- split with a literal delimiter -----

  /** The pieces of s between the leftmost non-overlapping occurrences of d. */
  function Parts(s: string, d: string): (r: seq<string>)
    requires |d| > 0
    ensures |r| >= 1
    decreases |s|
  {
    if |s| < |d| then [s]
    else if s[..|d|] == d then [""] + Parts(s[|d|..], d)
    else
      var rest := Parts(s[1..], d);
      [[s[0]] + rest[0]] + rest[1..]
  }

  /** The pieces joined back with d between them. */
  function Join(parts: seq<string>, d: string): string
    requires |parts| >= 1
  {
    if |parts| == 1 then parts[0] else parts[0] + d + Join(parts[1..], d)
  }

  /** Adding a character to the first piece changes only that piece of the join. */
  lemma JoinHead(c: char, parts: seq<string>, d: string)
    requires |parts| >= 1
    ensures Join([[c] + parts[0]] + parts[1..], d) == [c] + Join(parts, d)
  {
    var q := [[c] + parts[0]] + parts[1..];
    assert q[1..] == parts[1..];
  }

  /** Cutting s at the occurrences of d loses nothing: the pieces join back to s. */
  lemma {:induction false} PartsJoin(s: string, d: string)
    requires |d| > 0
    ensures Join(Parts(s, d), d) == s
    decreases |s|
  {
    if |s| >= |d| {
      if s[..|d|] == d {
        var rest := Parts(s[|d|..], d);
        PartsJoin(s[|d|..], d);
        assert ([""] + rest)[1..] == rest;
        assert s == s[..|d|] + s[|d|..];
      } else {
        var rest := Parts(s[1..], d);
        PartsJoin(s[1..], d);
        JoinHead(s[0], rest, d);
        assert s == [s[0]] + s[1..];
      }
    }
  }

  /** A piece p that does not contain d's first character, followed by d, is the first piece. */
  lemma {:induction false} PartsPrefix(p: string, t: string, d: string)
    requires |d| > 0 && d[0] !in p
    ensures Parts(p + d + t, d) == [p] + Parts(t, d)
    ensures Parts(p, d) == [p]
  {
    var s := p + d + t;
    if |p| == 0 {
      assert s == d + t && s[..|d|] == d && s[|d|..] == t;
    } else {
      PartsPrefix(p[1..], t, d);
      assert s[0] == p[0] && s[1..] == p[1..] + d + t;
      assert s[..|d|] != d by { assert s[0] != d[0]; }
      if |p| >= |d| {
        assert p[..|d|] != d by { assert p[0] != d[0]; }
      }
      assert [p[0]] + p[1..] == p;
    }
  }

  /** Cutting the join of pieces without d's first character gives the pieces back. */
  lemma {:induction false} JoinParts(parts: seq<string>, d: string)
    requires |d| > 0 && |parts| >= 1
    requires forall k :: 0 <= k < |parts| ==> d[0] !in parts[k]
    ensures Parts(Join(parts, d), d) == parts
  {
    PartsPrefix(parts[0], "", d);
    if |parts| > 1 {
      JoinParts(parts[1..], d);
      PartsPrefix(parts[0], Join(parts[1..], d), d);
    }
  }

  /**
   * String.split(d) for a delimiter without regular-expression meaning:
   * s itself when d does not occur; otherwise the pieces with the empty
   * ones at the end removed.
   */
  function Split(s: string, d: string): seq<string>
    requires |d| > 0
  {
    var p := Parts(s, d);
    if |p| == 1 then [s] else DropTrailingEmpty(p)
  }

  /** Splitting the join of non-empty pieces without d's first character gives them back. */
  lemma SplitJoin(parts: seq<string>, d: string)
    requires |d| > 0 && |parts| >= 1
    requires forall k :: 0 <= k < |parts| ==> d[0] !in parts[k] && parts[k] != ""
    ensures Split(Join(parts, d), d) == parts
  {
    JoinParts(parts, d);
  }

  /**
   * What Split returns: s itself when d does not occur; otherwise the pieces
   * of s, which join back to s, up to the trailing empty ones.
   */
  lemma SplitPieces(s: string, d: string)
    requires |d| > 0
    ensures var p, r := Parts(s, d), Split(s, d);
      Join(p, d) == s &&
      (|p| == 1 ==> r == [s] == p) &&
      (|p| > 1 ==> r == p[..|r|] && forall k :: |r| <= k < |p| ==> p[k] == "")
  {
    PartsJoin(s, d);
  }

  // ----- the commands -----

  /** What one comma-separated piece asks for. */
  datatype Command = EdgeCmd(from: string, to: string) | VertexCmd(name: string) | NoCmd

  /** A piece with one "->" is an edge, a piece without one a vertex; anything else is ignored. */
  function Parse(piece: string): Command {
    var vs := Split(piece, "->");
    if |vs| == 2 then EdgeCmd(Trim(vs[0]), Trim(vs[1]))
    else if |vs| == 1 then VertexCmd(Trim(vs[0]))
    else NoCmd
  }

  /** The pieces of the input line, in order. */
  function Pieces(input: string): seq<string> {
    Split(RemoveSpaces(input), ",")
  }

  /** The commands of the input line, in order. */
  function Commands(input: string): (r: seq<Command>)
    ensures |r| == |Pieces(input)|
    ensures forall i :: 0 <= i < |r| ==> r[i] == Parse(Pieces(input)[i])
  {
    var pieces := Pieces(input);
    seq(|pieces|, i requires 0 <= i < |pieces| => Parse(pieces[i]))
  }

  // ----- the graph the commands build -----

  /** The adjacency map after one command, as addEdge and addVertex change it. */
  function Step(g: Graph<string>, c: Command): Graph<string> {
    match c
    case EdgeCmd(f, t) => WithEdge(g, f, t)
    case VertexCmd(v) => WithVertex(g, v)
    case NoCmd => g
  }

  /** The adjacency map after the commands, one after another. */
  function Build(g: Graph<string>, cmds: seq<Command>): Graph<string> {
    if |cmds| == 0 then g else Step(Build(g, cmds[..|cmds| - 1]), cmds[|cmds| - 1])
  }

  /** The vertices one command names. */
  function CommandNames(c: Command): set<string> {
    match c
    case EdgeCmd(f, t) => {f, t}
    case VertexCmd(v) => {v}
    case NoCmd => {}
  }

  /** The vertices the commands name. */
  function Names(cmds: seq<Command>): (r: set<string>)
    ensures forall f, t :: EdgeCmd(f, t) in cmds ==> f in r && t in r
    ensures forall v :: VertexCmd(v) in cmds ==> v in r
  {
    if |cmds| == 0 then {}
    else
      var c := cmds[|cmds| - 1];
      assert cmds == cmds[..|cmds| - 1] + [c];
      Names(cmds[..|cmds| - 1]) + CommandNames(c)
  }

  /** The vertices that get a list of their own: sources of edges and lone vertices. */
  function Sources(cmds: seq<Command>): set<string> {
    if |cmds| == 0 then {}
    else
      Sources(cmds[..|cmds| - 1]) +
        match cmds[|cmds| - 1]
        case EdgeCmd(f, _) => {f}
        case VertexCmd(v) => {v}
        case NoCmd => {}
  }

  /** The commands up to i + 1 are those up to i and then command i. */
  lemma BuildNext(g: Graph<string>, cmds: seq<Command>, i: nat)
    requires i < |cmds|
    ensures Build(g, cmds[..i + 1]) == Step(Build(g, cmds[..i]), cmds[i])
    ensures Names(cmds[..i + 1]) == Names(cmds[..i]) + CommandNames(cmds[i])
  {
    assert cmds[..i + 1][..i] == cmds[..i];
  }

  /** Every name comes from some command. */
  lemma {:induction false} NamesFromCommands(cmds: seq<Command>, v: string)
    requires v in Names(cmds)
    ensures exists c :: c in cmds && (c == VertexCmd(v) || (c.EdgeCmd? && (c.from == v || c.to == v)))
  {
    var c := cmds[|cmds| - 1];
    if v in Names(cmds[..|cmds| - 1]) {
      NamesFromCommands(cmds[..|cmds| - 1], v);
      var c' :| c' in cmds[..|cmds| - 1] && (c' == VertexCmd(v) || (c'.EdgeCmd? && (c'.from == v || c'.to == v)));
      assert c' in cmds;
    } else {
      assert c in cmds;
    }
  }

  /** The map gets a key for every source, and the edges are exactly the old ones and the commanded ones. */
  lemma {:induction false} BuildShape(g: Graph<string>, cmds: seq<Command>)
    ensures Build(g, cmds).Keys == g.Keys + Sources(cmds)
    ensures forall u, v :: Edge(Build(g, cmds), u, v) <==> Edge(g, u, v) || EdgeCmd(u, v) in cmds
  {
    if |cmds| > 0 {
      var init := cmds[..|cmds| - 1];
      BuildShape(g, init);
      assert cmds == init + [cmds[|cmds| - 1]];
    }
  }

  /** Every vertex of the map, and every edge end, is among the old vertices or the names. */
  lemma BuildWithin(g: Graph<string>, vs: set<string>, cmds: seq<Command>)
    requires Within(g, vs)
    ensures Within(Build(g, cmds), vs + Names(cmds))
  {
    BuildShape(g, cmds);
    SourcesNamed(cmds);
  }

  /** Every source is a name. */
  lemma {:induction false} SourcesNamed(cmds: seq<Command>)
    ensures Sources(cmds) <= Names(cmds)
  {
    if |cmds| > 0 {
      SourcesNamed(cmds[..|cmds| - 1]);
    }
  }

  // ----- a line the commands can be read back from -----

  /** A vertex name that survives the parsing: not empty, no blank, no ',', '-' or '>'. */
  predicate PlainName(v: string) {
    |v| > 0 && forall k :: 0 <= k < |v| ==> v[k] > ' ' && v[k] != ',' && v[k] != '-' && v[k] != '>'
  }

  /** A command whose names are plain. */
  predicate PlainCommand(c: Command) {
    match c
    case EdgeCmd(f, t) => PlainName(f) && PlainName(t)
    case VertexCmd(v) => PlainName(v)
    case NoCmd => false
  }

  /** The piece a command is written as. */
  function Format(c: Command): string {
    match c
    case EdgeCmd(f, t) => f + "->" + t
    case VertexCmd(v) => v
    case NoCmd => ""
  }

  /** The pieces of the commands. */
  function FormatAll(cmds: seq<Command>): (r: seq<string>)
    ensures |r| == |cmds|
    ensures forall i :: 0 <= i < |cmds| ==> r[i] == Format(cmds[i])
  {
    seq(|cmds|, i requires 0 <= i < |cmds| => Format(cmds[i]))
  }

  /** The input line that lists the commands, separated by commas. */
  function Line(cmds: seq<Command>): string
    requires |cmds| >= 1
  {
    Join(FormatAll(cmds), ",")
  }

  /** A plain name is its own trim. */
  lemma TrimPlain(v: string)
    requires PlainName(v)
    ensures Trim(v) == v
  {
    assert LeadingBlanks(v) == 0 && TrailingBlanks(v) == 0;
    assert v[0..|v|] == v;
  }

  /** A plain command's piece parses back to the command. */
  lemma ParseFormat(c: Command)
    requires PlainCommand(c)
    ensures Parse(Format(c)) == c
  {
    match c
    case EdgeCmd(f, t) =>
      PartsPrefix(f, t, "->");
      PartsPrefix(t, "", "->");
      assert [f] + Parts(t, "->") == [f, t];
      TrimPlain(f);
      TrimPlain(t);
    case VertexCmd(v) =>
      PartsPrefix(v, "", "->");
      TrimPlain(v);
  }

  /** The line has no whitespace and no comma inside a piece. */
  lemma LineShape(cmds: seq<Command>)
    requires |cmds| >= 1 && forall i :: 0 <= i < |cmds| ==> PlainCommand(cmds[i])
    ensures forall i :: 0 <= i < |cmds| ==> ',' !in Format(cmds[i]) && Format(cmds[i]) != ""
    ensures forall k :: 0 <= k < |Line(cmds)| ==> !IsSpace(Line(cmds)[k])
  {
    forall i | 0 <= i < |cmds|
      ensures ',' !in Format(cmds[i]) && Format(cmds[i]) != ""
      ensures forall k :: 0 <= k < |Format(cmds[i])| ==> !IsSpace(Format(cmds[i])[k])
    {
      match cmds[i]
      case EdgeCmd(f, t) =>
        var s := f + "->" + t;
        assert forall k :: 0 <= k < |s| ==> s[k] in f || s[k] in "->" || s[k] in t;
      case VertexCmd(v) =>
    }
    JoinNoSpace(FormatAll(cmds));
  }

  /** Joining pieces without whitespace with commas gives a line without whitespace. */
  lemma {:induction false} JoinNoSpace(parts: seq<string>)
    requires |parts| >= 1
    requires forall i :: 0 <= i < |parts| ==> forall k :: 0 <= k < |parts[i]| ==> !IsSpace(parts[i][k])
    ensures forall k :: 0 <= k < |Join(parts, ",")| ==> !IsSpace(Join(parts, ",")[k])
  {
    if |parts| > 1 {
      JoinNoSpace(parts[1..]);
      var s := Join(parts, ",");
      var t := Join(parts[1..], ",");
      assert s == parts[0] + "," + t;
      forall k | 0 <= k < |s|
        ensures !IsSpace(s[k])
      {
        if k < |parts[0]| {
          assert s[k] == parts[0][k];
        } else if k > |parts[0]| {
          assert s[k] == t[k - |parts[0]| - 1];
        }
      }
    }
  }

  /** A line of plain commands is read back as exactly those commands. */
  lemma CommandsOfLine(cmds: seq<Command>)
    requires |cmds| >= 1 && forall i :: 0 <= i < |cmds| ==> PlainCommand(cmds[i])
    ensures Commands(Line(cmds)) == cmds
  {
    LineShape(cmds);
    RemoveSpacesKeeps(Line(cmds));
    SplitJoin(FormatAll(cmds), ",");
    forall i | 0 <= i < |cmds|
      ensures Parse(FormatAll(cmds)[i]) == cmds[i]
    {
      ParseFormat(cmds[i]);
    }
  }
}
