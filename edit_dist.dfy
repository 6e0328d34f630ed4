/**
 * Levenshtein distance by dynamic programming and the edit prescription
 * read back from the table (lesson07/A_EditDist.java, B_EditDist.java and
 * C_EditDist.java; A and B fill the same table with the same loops).
 */
module EditDist {

  /** One step of an edit prescription, read left to right over `one`. */
  datatype Op = Delete(c: char) | Insert(c: char) | Replace(c: char) | Copy

  function Min3(a: int, b: int, c: int): (r: int)
    ensures r <= a && r <= b && r <= c
    ensures r == a || r == b || r == c
  {
    if a <= b && a <= c then a else if b <= c then b else c
  }

  function Cost(one: string, two: string, i: nat, j: nat): nat
    requires 1 <= i <= |one| && 1 <= j <= |two|
  {
    if one[i - 1] == two[j - 1] then 0 else 1
  }

  /**
   * The table entry dp[i][j]: the recurrence on the prefixes one[..i] and
   * two[..j], with dp[i][0] = i and dp[0][j] = j.
   */
  function D(one: string, two: string, i: nat, j: nat): nat
    requires i <= |one| && j <= |two|
    decreases i + j
  {
    if i == 0 then j
    else if j == 0 then i
    else Min3(D(one, two, i - 1, j) + 1, D(one, two, i, j - 1) + 1,
              D(one, two, i - 1, j - 1) + Cost(one, two, i, j))
  }

  function Distance(one: string, two: string): nat {
    D(one, two, |one|, |two|)
  }

  /** How many characters of `one` a prescription reads. */
  function Consumed(ops: seq<Op>): nat {
    if |ops| == 0 then 0
    else Consumed(ops[..|ops| - 1]) + (if ops[|ops| - 1].Insert? then 0 else 1)
  }

  /** How many operations are not copies: the cost of a prescription. */
  function Edits(ops: seq<Op>): nat {
    if |ops| == 0 then 0
    else Edits(ops[..|ops| - 1]) + (if ops[|ops| - 1].Copy? then 0 else 1)
  }

  /** The string a prescription writes while it reads `one`. */
  function Output(ops: seq<Op>, one: string): (r: string)
    requires Consumed(ops) <= |one|
  {
    if |ops| == 0 then []
    else
      var init, op := ops[..|ops| - 1], ops[|ops| - 1];
      match op
      case Delete(_) => Output(init, one)
      case Insert(c) => Output(init, one) + [c]
      case Replace(c) => Output(init, one) + [c]
      case Copy => Output(init, one) + [one[Consumed(init)]]
  }

  /** The diagonal operation at dp[i][j]: a copy when the characters agree. */
  function Diagonal(one: string, two: string, i: nat, j: nat): Op
    requires 1 <= i <= |one| && 1 <= j <= |two|
  {
    if one[i - 1] == two[j - 1] then Copy else Replace(two[j - 1])
  }

  /** One step of the backtrack: the cell it moves to and the operation it records. */
  datatype Step = Step(i: nat, j: nat, op: Op)

  /**
   * The step C_EditDist's backtrack takes from dp[i][j]: left (a deletion)
   * when dp[i][j] == dp[i-1][j] + 1, otherwise up (an insertion) when
   * dp[i][j] == dp[i][j-1] + 1, otherwise diagonally.
   */
  function Back(one: string, two: string, i: nat, j: nat): (s: Step)
    requires i <= |one| && j <= |two| && (i > 0 || j > 0)
    ensures i - s.i == (if s.op.Insert? then 0 else 1) && s.i <= i
    ensures j - s.j == (if s.op.Delete? then 0 else 1) && s.j <= j
    ensures s.op.Delete? ==> s.op.c == one[i - 1]
    ensures s.op.Insert? || s.op.Replace? ==> s.op.c == two[j - 1]
    ensures s.op.Copy? ==> one[i - 1] == two[j - 1]
    ensures D(one, two, i, j) == D(one, two, s.i, s.j) + (if s.op.Copy? then 0 else 1)
  {
    if i > 0 && D(one, two, i, j) == D(one, two, i - 1, j) + 1 then
      Step(i - 1, j, Delete(one[i - 1]))
    else if j > 0 && D(one, two, i, j) == D(one, two, i, j - 1) + 1 then
      Step(i, j - 1, Insert(two[j - 1]))
    else
      assert i > 0 && j > 0;
      Step(i - 1, j - 1, Diagonal(one, two, i, j))
  }

  /** The prescription the backtrack of C_EditDist produces for dp[i][j]. */
  function Script(one: string, two: string, i: nat, j: nat): (r: seq<Op>)
    requires i <= |one| && j <= |two|
    ensures Consumed(r) == i
    decreases i + j
  {
    if i == 0 && j == 0 then []
    else
      var s := Back(one, two, i, j);
      var init := Script(one, two, s.i, s.j);
      assert (init + [s.op])[..|init|] == init;
      init + [s.op]
  }

  lemma ScriptSnoc(one: string, two: string, i: nat, j: nat)
    requires i <= |one| && j <= |two| && (i > 0 || j > 0)
    ensures var s := Back(one, two, i, j);
      Script(one, two, i, j) == Script(one, two, s.i, s.j) + [s.op]
  {
  }

  /** The text form: "-c," delete, "+c," insert, "~c," replace, "#," copy. */
  function Token(op: Op): string {
    match op
    case Delete(c) => ['-', c, ',']
    case Insert(c) => ['+', c, ',']
    case Replace(c) => ['~', c, ',']
    case Copy => ['#', ',']
  }

  function Render(ops: seq<Op>): string {
    if |ops| == 0 then "" else Render(ops[..|ops| - 1]) + Token(ops[|ops| - 1])
  }

  lemma SnocParts(init: seq<Op>, op: Op)
    ensures (init + [op])[..|init|] == init && (init + [op])[|init|] == op
  {
  }

  lemma RenderSnoc(init: seq<Op>, op: Op)
    ensures Render(init + [op]) == Render(init) + Token(op)
  {
    SnocParts(init, op);
  }

  /** The character an operation writes, given the next character of `one`. */
  function Written(op: Op, next: char): string {
    match op
    case Delete(_) => []
    case Insert(c) => [c]
    case Replace(c) => [c]
    case Copy => [next]
  }

  lemma OutputSnoc(ops: seq<Op>, op: Op, one: string)
    requires Consumed(ops + [op]) <= |one|
    ensures Consumed(ops + [op]) == Consumed(ops) + (if op.Insert? then 0 else 1)
    ensures !op.Insert? ==> Output(ops + [op], one) == Output(ops, one) + Written(op, one[Consumed(ops)])
    ensures op.Insert? ==> Output(ops + [op], one) == Output(ops, one) + [op.c]
  {
    SnocParts(ops, op);
  }

  lemma EditsSnoc(ops: seq<Op>, op: Op)
    ensures Edits(ops + [op]) == Edits(ops) + (if op.Copy? then 0 else 1)
  {
    SnocParts(ops, op);
  }

  lemma SnocPrefix(s: string, j: nat)
    requires 1 <= j <= |s|
    ensures s[..j] == s[..j - 1] + [s[j - 1]]
  {
  }

  /** The prescription reads all of one[..i] and writes exactly two[..j]. */
  lemma {:induction false} ScriptOutput(one: string, two: string, i: nat, j: nat)
    requires i <= |one| && j <= |two|
    ensures Output(Script(one, two, i, j), one) == two[..j]
    decreases i + j
  {
    if i > 0 || j > 0 {
      var s := Back(one, two, i, j);
      ScriptOutput(one, two, s.i, s.j);
      ScriptSnoc(one, two, i, j);
      OutputStep(one, two, Script(one, two, s.i, s.j), s.op, i, j, s.i, s.j);
    }
  }

  /** A step of the backtrack extends the written prefix of `two` by what it writes. */
  lemma OutputStep(one: string, two: string, init: seq<Op>, op: Op, i: nat, j: nat, i': nat, j': nat)
    requires i <= |one| && j <= |two| && Consumed(init) == i'
    requires i == i' + (if op.Insert? then 0 else 1)
    requires j == j' + (if op.Delete? then 0 else 1)
    requires op.Insert? || op.Replace? ==> op.c == two[j - 1]
    requires op.Copy? ==> one[i - 1] == two[j - 1]
    requires Output(init, one) == two[..j']
    ensures Consumed(init + [op]) == i && Output(init + [op], one) == two[..j]
  {
    OutputSnoc(init, op, one);
    if !op.Delete? {
      SnocPrefix(two, j);
    }
  }

  /** The prescription makes exactly dp[i][j] edits. */
  lemma {:induction false} ScriptEdits(one: string, two: string, i: nat, j: nat)
    requires i <= |one| && j <= |two|
    ensures Edits(Script(one, two, i, j)) == D(one, two, i, j)
    decreases i + j
  {
    if i > 0 || j > 0 {
      var s := Back(one, two, i, j);
      ScriptEdits(one, two, s.i, s.j);
      EditsSnoc(Script(one, two, s.i, s.j), s.op);
    }
  }

  /** Each step of the recurrence bounds dp[i][j] from above. */
  lemma DeleteBound(one: string, two: string, i: nat, j: nat)
    requires 1 <= i <= |one| && j <= |two|
    ensures D(one, two, i, j) <= D(one, two, i - 1, j) + 1
  {
  }

  lemma InsertBound(one: string, two: string, i: nat, j: nat)
    requires i <= |one| && 1 <= j <= |two|
    ensures D(one, two, i, j) <= D(one, two, i, j - 1) + 1
  {
  }

  lemma DiagonalBound(one: string, two: string, i: nat, j: nat)
    requires 1 <= i <= |one| && 1 <= j <= |two|
    ensures D(one, two, i, j) <= D(one, two, i - 1, j - 1) + Cost(one, two, i, j)
  {
  }

  /** Splitting a prefix of `s` into two parts. */
  lemma PrefixSplit(s: string, j: nat, u: string, w: string)
    requires j <= |s| && s[..j] == u + w
    ensures |u| + |w| == j && u == s[..|u|]
    ensures |w| == 1 ==> w[0] == s[j - 1]
  {
    assert u == (u + w)[..|u|];
    if |w| == 1 {
      assert w[0] == (u + w)[j - 1];
    }
  }

  /**
   * No prescription that turns one[..i] into two[..j] makes fewer edits
   * than dp[i][j]: together with ScriptOutput and ScriptEdits, dp[n][m] is
   * the Levenshtein distance.
   */
  lemma {:induction false} Minimal(one: string, two: string, ops: seq<Op>, j: nat)
    requires Consumed(ops) <= |one| && j <= |two|
    requires Output(ops, one) == two[..j]
    ensures Edits(ops) >= D(one, two, Consumed(ops), j)
    decreases |ops|
  {
    if |ops| > 0 {
      var init, op := ops[..|ops| - 1], ops[|ops| - 1];
      var j' := LastWritten(one, two, init, op, j);
      assert ops == init + [op];
      Minimal(one, two, init, j');
      EditsSnoc(init, op);
      StepCost(one, two, op, Consumed(ops), j, Consumed(init), j', Edits(init));
    }
  }

  /** Peeling the last operation off a prescription that writes two[..j]. */
  lemma LastWritten(one: string, two: string, init: seq<Op>, op: Op, j: nat) returns (j': nat)
    requires Consumed(init + [op]) <= |one| && j <= |two|
    requires Output(init + [op], one) == two[..j]
    ensures Consumed(init) + (if op.Insert? then 0 else 1) == Consumed(init + [op])
    ensures j' == j - (if op.Delete? then 0 else 1)
    ensures Output(init, one) == two[..j']
    ensures op.Copy? ==> one[Consumed(init)] == two[j - 1]
  {
    OutputSnoc(init, op, one);
    if op.Insert? {
      PrefixSplit(two, j, Output(init, one), [op.c]);
      j' := j - 1;
    } else {
      var w := Written(op, one[Consumed(init)]);
      PrefixSplit(two, j, Output(init, one), w);
      j' := j - |w|;
    }
  }

  /**
   * The last operation costs at least the matching step of the recurrence:
   * it moves from (i', j') to (i, j) and is free only as a copy of equal
   * characters.
   */
  lemma StepCost(one: string, two: string, op: Op, i: nat, j: nat, i': nat, j': nat, e: nat)
    requires i <= |one| && j <= |two|
    requires i == i' + (if op.Insert? then 0 else 1)
    requires j == j' + (if op.Delete? then 0 else 1)
    requires op.Copy? ==> one[i - 1] == two[j - 1]
    requires e >= D(one, two, i', j')
    ensures e + (if op.Copy? then 0 else 1) >= D(one, two, i, j)
  {
    if op.Delete? {
      DeleteBound(one, two, i, j);
    } else if op.Insert? {
      InsertBound(one, two, i, j);
    } else {
      DiagonalBound(one, two, i, j);
    }
  }

  /** The distance of a string to itself is 0. */
  lemma {:induction false} SelfDistance(one: string, i: nat)
    requires i <= |one|
    ensures D(one, one, i, i) == 0
  {
    if i > 0 {
      SelfDistance(one, i - 1);
    }
  }

  /** The distance does not depend on the order of its arguments. */
  lemma {:induction false} Symmetric(one: string, two: string, i: nat, j: nat)
    requires i <= |one| && j <= |two|
    ensures D(one, two, i, j) == D(two, one, j, i)
    decreases i + j
  {
    if i > 0 && j > 0 {
      Symmetric(one, two, i - 1, j);
      Symmetric(one, two, i, j - 1);
      Symmetric(one, two, i - 1, j - 1);
      SymmetricStep(one, two, i, j);
    }
  }

  lemma SymmetricStep(one: string, two: string, i: nat, j: nat)
    requires 1 <= i <= |one| && 1 <= j <= |two|
    requires D(one, two, i - 1, j) == D(two, one, j, i - 1)
    requires D(one, two, i, j - 1) == D(two, one, j - 1, i)
    requires D(one, two, i - 1, j - 1) == D(two, one, j - 1, i - 1)
    ensures D(one, two, i, j) == D(two, one, j, i)
  {
    DStep(one, two, i, j);
    DStep(two, one, j, i);
  }

  /** dp[i][j] <= max(i, j). */
  lemma {:induction false} UpperBound(one: string, two: string, i: nat, j: nat)
    requires i <= |one| && j <= |two|
    ensures D(one, two, i, j) <= if i >= j then i else j
    decreases i + j
  {
    if i > 0 && j > 0 {
      UpperBound(one, two, i - 1, j - 1);
      DiagonalBound(one, two, i, j);
    }
  }

  /** |i - j| <= dp[i][j]. */
  lemma {:induction false} LowerBound(one: string, two: string, i: nat, j: nat)
    requires i <= |one| && j <= |two|
    ensures D(one, two, i, j) >= if i >= j then i - j else j - i
    decreases i + j
  {
    if i > 0 && j > 0 {
      LowerBound(one, two, i - 1, j);
      LowerBound(one, two, i, j - 1);
      LowerBound(one, two, i - 1, j - 1);
    }
  }

  /**
   * getDistanceEdinting's table (A_EditDist and B_EditDist): the base row and
   * column, then every cell as the least of delete, insert and replace/copy.
   */
  method Table(one: string, two: string) returns (dp: array2<int>)
    ensures fresh(dp) && dp.Length0 == |one| + 1 && dp.Length1 == |two| + 1
    ensures forall i, j :: 0 <= i <= |one| && 0 <= j <= |two| ==> dp[i, j] == D(one, two, i, j)
  {
    dp := BaseCases(one, two);
    var i := 1;
    while i <= |one|
      invariant 1 <= i <= |one| + 1
      invariant forall k :: 0 <= k <= |one| ==> dp[k, 0] == D(one, two, k, 0)
      invariant forall k :: 0 <= k < i ==> RowFull(dp, one, two, k)
    {
      label before:
      FillRow(one, two, dp, i);
      forall k | 0 <= k < i
        ensures RowFull(dp, one, two, k)
      {
        assert old@before(RowFull(dp, one, two, k));
      }
      i := i + 1;
    }
    forall i, j | 0 <= i <= |one| && 0 <= j <= |two|
      ensures dp[i, j] == D(one, two, i, j)
    {
      assert RowFull(dp, one, two, i);
    }
  }

  /** The two base-case loops: dp[i][0] = i and dp[0][j] = j. */
  method BaseCases(one: string, two: string) returns (dp: array2<int>)
    ensures fresh(dp) && dp.Length0 == |one| + 1 && dp.Length1 == |two| + 1
    ensures forall k :: 0 <= k <= |one| ==> dp[k, 0] == D(one, two, k, 0)
    ensures forall l :: 0 <= l <= |two| ==> dp[0, l] == D(one, two, 0, l)
  {
    var n, m := |one|, |two|;
    dp := new int[n + 1, m + 1];
    var i := 0;
    while i <= n
      invariant 0 <= i <= n + 1
      invariant forall k :: 0 <= k < i ==> dp[k, 0] == D(one, two, k, 0)
    {
      dp[i, 0] := i;
      i := i + 1;
    }
    var j := 0;
    while j <= m
      invariant 0 <= j <= m + 1
      invariant forall k :: 0 <= k <= n ==> dp[k, 0] == D(one, two, k, 0)
      invariant forall l :: 0 <= l < j ==> dp[0, l] == D(one, two, 0, l)
    {
      dp[0, j] := j;
      j := j + 1;
    }
  }

  /** Row k of the table holds dp[k][0..upto). */
  predicate RowDone(dp: array2<int>, one: string, two: string, k: nat, upto: nat)
    requires k <= |one| && upto <= |two| + 1
    requires dp.Length0 == |one| + 1 && dp.Length1 == |two| + 1
    reads dp
  {
    forall l :: 0 <= l < upto ==> dp[k, l] == D(one, two, k, l)
  }

  /** Row k of the table is complete. */
  predicate RowFull(dp: array2<int>, one: string, two: string, k: nat)
    requires k <= |one| && dp.Length0 == |one| + 1 && dp.Length1 == |two| + 1
    reads dp
  {
    RowDone(dp, one, two, k, |two| + 1)
  }

  lemma DStep(one: string, two: string, i: nat, j: nat)
    requires 1 <= i <= |one| && 1 <= j <= |two|
    ensures D(one, two, i, j) ==
      Min3(D(one, two, i - 1, j) + 1, D(one, two, i, j - 1) + 1, D(one, two, i - 1, j - 1) + Cost(one, two, i, j))
  {
  }

  /** The cell update of the inner loop computes dp[i][j]. */
  lemma CellIs(one: string, two: string, i: nat, j: nat, del: int, ins: int, rep: int)
    requires 1 <= i <= |one| && 1 <= j <= |two|
    requires del == D(one, two, i - 1, j) + 1 && ins == D(one, two, i, j - 1) + 1
    requires rep == D(one, two, i - 1, j - 1) + Cost(one, two, i, j)
    ensures Min3(del, ins, rep) == D(one, two, i, j)
  {
    DStep(one, two, i, j);
  }

  /** The inner loop for row i, given row i - 1 and dp[i][0]. */
  method FillRow(one: string, two: string, dp: array2<int>, i: nat)
    requires 1 <= i <= |one| && dp.Length0 == |one| + 1 && dp.Length1 == |two| + 1
    requires dp[i, 0] == D(one, two, i, 0)
    requires RowFull(dp, one, two, i - 1)
    modifies dp
    ensures RowFull(dp, one, two, i)
    ensures forall k, l :: 0 <= k < dp.Length0 && 0 <= l < dp.Length1 && k != i ==> dp[k, l] == old(dp[k, l])
  {
    var j := 1;
    while j <= |two|
      invariant 1 <= j <= |two| + 1
      invariant RowDone(dp, one, two, i, j)
      invariant forall k, l :: 0 <= k < dp.Length0 && 0 <= l < dp.Length1 && k != i ==> dp[k, l] == old(dp[k, l])
    {
      var cost := if one[i - 1] == two[j - 1] then 0 else 1;
      var del := dp[i - 1, j] + 1;
      var ins := dp[i, j - 1] + 1;
      var rep := dp[i - 1, j - 1] + cost;
      CellIs(one, two, i, j, del, ins, rep);
      dp[i, j] := Min3(del, ins, rep);
      j := j + 1;
    }
  }

  /** getDistanceEdinting of A_EditDist and B_EditDist: dp[n][m]. */
  method Distancing(one: string, two: string) returns (d: int)
    ensures d == Distance(one, two)
    ensures d == Distance(two, one)
    ensures one == two ==> d == 0
  {
    var dp := Table(one, two);
    d := dp[|one|, |two|];
    Symmetric(one, two, |one|, |two|);
    if one == two {
      SelfDistance(one, |one|);
    }
  }

  /**
   * getDistanceEdinting of C_EditDist: the table, then the backtrack from
   * (n, m) to (0, 0), prepending one token per step.
   */
  method Prescription(one: string, two: string) returns (r: string)
    ensures r == Render(Script(one, two, |one|, |two|))
  {
    var dp := Table(one, two);
    var i, j := |one|, |two|;
    var result := "";
    while i > 0 || j > 0
      invariant 0 <= i <= |one| && 0 <= j <= |two|
      invariant Render(Script(one, two, i, j)) + result == Render(Script(one, two, |one|, |two|))
      invariant forall k, l :: 0 <= k <= |one| && 0 <= l <= |two| ==> dp[k, l] == D(one, two, k, l)
      decreases i + j
    {
      var s := BackStep(one, two, dp, i, j);
      BackKeeps(one, two, i, j, result, Render(Script(one, two, |one|, |two|)));
      result := Token(s.op) + result;
      i, j := s.i, s.j;
    }
    r := result;
  }

  /** One backtrack step keeps the rendered suffix a suffix of the whole prescription. */
  lemma BackKeeps(one: string, two: string, i: nat, j: nat, result: string, whole: string)
    requires i <= |one| && j <= |two| && (i > 0 || j > 0)
    requires Render(Script(one, two, i, j)) + result == whole
    ensures var s := Back(one, two, i, j);
      Render(Script(one, two, s.i, s.j)) + (Token(s.op) + result) == whole
  {
    var s := Back(one, two, i, j);
    ScriptSnoc(one, two, i, j);
    RenderPrepend(Script(one, two, s.i, s.j), s.op, result, whole);
  }

  lemma RenderPrepend(init: seq<Op>, op: Op, result: string, whole: string)
    requires Render(init + [op]) + result == whole
    ensures Render(init) + (Token(op) + result) == whole
  {
    RenderSnoc(init, op);
    Associative(Render(init), Token(op), result);
  }

  lemma Associative(a: string, b: string, c: string)
    ensures a + (b + c) == (a + b) + c
  {
  }

  /** One iteration of the backtrack, read off the filled table. */
  method BackStep(one: string, two: string, dp: array2<int>, i: nat, j: nat) returns (s: Step)
    requires i <= |one| && j <= |two| && (i > 0 || j > 0)
    requires dp.Length0 == |one| + 1 && dp.Length1 == |two| + 1
    requires forall k, l :: 0 <= k <= |one| && 0 <= l <= |two| ==> dp[k, l] == D(one, two, k, l)
    ensures s == Back(one, two, i, j)
  {
    if i > 0 && dp[i, j] == dp[i - 1, j] + 1 {
      s := Step(i - 1, j, Delete(one[i - 1]));
    } else if j > 0 && dp[i, j] == dp[i, j - 1] + 1 {
      s := Step(i, j - 1, Insert(two[j - 1]));
    } else if one[i - 1] == two[j - 1] {
      s := Step(i - 1, j - 1, Copy);
    } else {
      s := Step(i - 1, j - 1, Replace(two[j - 1]));
    }
  }
}
