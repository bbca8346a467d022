/** print_paths of reverse_wordle.c: the pre-order walk that emits every
    word path reaching level num_rows, collected instead of printed. */
module PathWalk {
  import opened WordleTypes
  import opened Matcher
  import opened SolverTree
  import opened SolverNodes

  /** The lines print_paths prints for the subtree t at level |prefix| + 1,
      where prefix holds the words of t's ancestors (path[0 .. level-1)). */
  function Paths(t: Node, prefix: seq<string>, numRows: nat): seq<seq<string>>
    requires |prefix| < numRows
    decreases t, 1
  {
    if |prefix| + 1 == numRows then [prefix + [t.word]]
    else if t.children == [] then []
    else ChildPaths(t, |t.children|, prefix + [t.word], numRows)
  }

  /** The lines of the first i children of t, in sibling order; `prefix`
      already ends with t's word. */
  function ChildPaths(t: Node, i: nat, prefix: seq<string>, numRows: nat): seq<seq<string>>
    requires i <= |t.children| && |prefix| < numRows
    decreases t, 0, i
  {
    if i == 0 then []
    else ChildPaths(t, i - 1, prefix, numRows) + Paths(t.children[i - 1], prefix, numRows)
  }

  /** Every line has num_rows entries and starts with the ancestors' words
      followed by the node's own word. */
  lemma {:induction false} PathShape(t: Node, prefix: seq<string>, numRows: nat, x: seq<string>)
    requires |prefix| < numRows && x in Paths(t, prefix, numRows)
    ensures |x| == numRows && x[..|prefix| + 1] == prefix + [t.word]
    decreases t, 1
  {
    if |prefix| + 1 < numRows {
      ChildPathShape(t, |t.children|, prefix + [t.word], numRows, x);
    }
  }

  lemma {:induction false} ChildPathShape(t: Node, i: nat, prefix: seq<string>, numRows: nat, x: seq<string>)
    requires i <= |t.children| && |prefix| < numRows && x in ChildPaths(t, i, prefix, numRows)
    ensures |x| == numRows && x[..|prefix|] == prefix
    decreases t, 0, i
  {
    if x in ChildPaths(t, i - 1, prefix, numRows) {
      ChildPathShape(t, i - 1, prefix, numRows, x);
    } else {
      PathShape(t.children[i - 1], prefix, numRows, x);
      assert x[..|prefix|] == x[..|prefix| + 1][..|prefix|];
    }
  }

  /** A line comes from the first i children exactly when it comes from one
      of them. */
  lemma {:induction false} ChildPathsMembership(t: Node, i: nat, prefix: seq<string>, numRows: nat, x: seq<string>)
    requires i <= |t.children| && |prefix| < numRows
    ensures x in ChildPaths(t, i, prefix, numRows) <==>
      exists j :: 0 <= j < i && x in Paths(t.children[j], prefix, numRows)
  {
    if i > 0 {
      ChildPathsMembership(t, i - 1, prefix, numRows, x);
    }
  }

  /** A node below level num_rows without children prints nothing. */
  lemma ChildlessPrintsNothing(t: Node, prefix: seq<string>, numRows: nat)
    requires |prefix| + 1 < numRows && t.children == []
    ensures Paths(t, prefix, numRows) == []
  {
  }

  /** The guess sequences consistent with the feedback from `row` on: the
      next guess is a dictionary word that matches the constraints derived
      from the current word, and the rest continues from that guess with
      must_be cleared; after the last row nothing follows. */
  ghost predicate Continues(d: Deriver, w: Wordle, dict: seq<string>, row: nat, word: string,
                            con: Option<ConstraintSet>, q: seq<string>)
    requires Setup(w, dict) && 1 <= row <= w.NumRows() && IsWord(word)
    requires row < w.NumRows() ==> con.Some?
    decreases w.NumRows() - row
  {
    if row == w.NumRows() then q == []
    else
      var c := UpdateRow(d, w, row, word, con.value);
      |q| > 0 && q[0] in dict && IsWord(q[0]) && Admissible(q[0], c, w.Solution()) &&
      Continues(d, w, dict, row + 1, q[0], Some(MustBeCleared(c)), q[1..])
  }

  /** One level of the walk: below the last row, a line of the node's
      subtree is a line of the subtree of one accepted word. */
  lemma PathsStep(d: Deriver, w: Wordle, dict: seq<string>, row: nat, word: string,
                  con: Option<ConstraintSet>, prefix: seq<string>, x: seq<string>)
    requires Setup(w, dict) && 1 <= row < w.NumRows() && IsWord(word) && con.Some?
    requires |prefix| == row - 1
    ensures var c := UpdateRow(d, w, row, word, con.value);
      var acc := Accepted(w, row, c, dict);
      x in Paths(Solve(d, w, dict, row, word, con), prefix, w.NumRows()) <==>
        exists j :: 0 <= j < |acc| &&
          x in Paths(Solve(d, w, dict, row + 1, acc[j], Some(MustBeCleared(c))), prefix + [word], w.NumRows())
  {
    var t := Solve(d, w, dict, row, word, con);
    SolveShape(d, w, dict, row, word, con);
    ChildPathsMembership(t, |t.children|, prefix + [word], w.NumRows(), x);
  }

  /** One level of consistency: below the last row, a continuation starts
      with an accepted word. */
  lemma ContinuesStep(d: Deriver, w: Wordle, dict: seq<string>, row: nat, word: string,
                      con: Option<ConstraintSet>, q: seq<string>)
    requires Setup(w, dict) && 1 <= row < w.NumRows() && IsWord(word) && con.Some?
    ensures var c := UpdateRow(d, w, row, word, con.value);
      var acc := Accepted(w, row, c, dict);
      Continues(d, w, dict, row, word, con, q) <==>
        |q| > 0 && q[0] in acc && Continues(d, w, dict, row + 1, q[0], Some(MustBeCleared(c)), q[1..])
  {
    if |q| > 0 {
      AcceptedMembership(w, row, UpdateRow(d, w, row, word, con.value), dict, q[0]);
    }
  }

  /** Soundness: every line of the tree is consistent with the feedback. */
  lemma {:induction false} PathsSound(d: Deriver, w: Wordle, dict: seq<string>, row: nat, word: string,
                                      con: Option<ConstraintSet>, prefix: seq<string>, x: seq<string>)
    requires Setup(w, dict) && 1 <= row <= w.NumRows() && IsWord(word)
    requires row < w.NumRows() ==> con.Some?
    requires |prefix| == row - 1
    requires x in Paths(Solve(d, w, dict, row, word, con), prefix, w.NumRows())
    ensures |x| == w.NumRows() && x[..row] == prefix + [word] && Continues(d, w, dict, row, word, con, x[row..])
    decreases w.NumRows() - row
  {
    var n := w.NumRows();
    if row == n {
      assert Paths(Solve(d, w, dict, row, word, con), prefix, n) == [prefix + [word]];
    } else {
      var c := UpdateRow(d, w, row, word, con.value);
      var acc := Accepted(w, row, c, dict);
      var pre := prefix + [word];
      PathsStep(d, w, dict, row, word, con, prefix, x);
      var j :| 0 <= j < |acc| &&
        x in Paths(Solve(d, w, dict, row + 1, acc[j], Some(MustBeCleared(c))), pre, n);
      PathsSound(d, w, dict, row + 1, acc[j], Some(MustBeCleared(c)), pre, x);
      assert x[..row + 1][..row] == x[..row];
      assert x[row] == x[..row + 1][row];
      ContinuesStep(d, w, dict, row, word, con, x[row..]);
      assert x[row..][0] == x[row] && x[row..][1..] == x[row + 1..];
    }
  }

  /** Completeness: every consistent guess sequence is a line of the tree. */
  lemma {:induction false} PathsComplete(d: Deriver, w: Wordle, dict: seq<string>, row: nat, word: string,
                                         con: Option<ConstraintSet>, prefix: seq<string>, x: seq<string>)
    requires Setup(w, dict) && 1 <= row <= w.NumRows() && IsWord(word)
    requires row < w.NumRows() ==> con.Some?
    requires |prefix| == row - 1
    requires |x| == w.NumRows() && x[..row] == prefix + [word] && Continues(d, w, dict, row, word, con, x[row..])
    ensures x in Paths(Solve(d, w, dict, row, word, con), prefix, w.NumRows())
    decreases w.NumRows() - row
  {
    var n := w.NumRows();
    if row == n {
      assert x == x[..row];
      assert Paths(Solve(d, w, dict, row, word, con), prefix, n) == [prefix + [word]];
    } else {
      var c := UpdateRow(d, w, row, word, con.value);
      var acc := Accepted(w, row, c, dict);
      var pre := prefix + [word];
      ContinuesStep(d, w, dict, row, word, con, x[row..]);
      assert x[row..][0] == x[row] && x[row..][1..] == x[row + 1..];
      var j :| 0 <= j < |acc| && acc[j] == x[row];
      assert x[..row + 1] == pre + [acc[j]];
      PathsComplete(d, w, dict, row + 1, acc[j], Some(MustBeCleared(c)), pre, x);
      PathsStep(d, w, dict, row, word, con, prefix, x);
    }
  }

  /** Exhaustiveness and soundness of the search: walking the tree that
      solve_subtree builds at `row` (printed at level row) yields exactly the
      lines that extend the ancestors' words and the node's word with a
      guess sequence consistent with the remaining feedback rows. */
  lemma PathsOfSolve(d: Deriver, w: Wordle, dict: seq<string>, row: nat, word: string,
                     con: Option<ConstraintSet>, prefix: seq<string>, x: seq<string>)
    requires Setup(w, dict) && 1 <= row <= w.NumRows() && IsWord(word)
    requires row < w.NumRows() ==> con.Some?
    requires |prefix| == row - 1
    ensures x in Paths(Solve(d, w, dict, row, word, con), prefix, w.NumRows()) <==>
      |x| == w.NumRows() && x[..row] == prefix + [word] && Continues(d, w, dict, row, word, con, x[row..])
  {
    if x in Paths(Solve(d, w, dict, row, word, con), prefix, w.NumRows()) {
      PathsSound(d, w, dict, row, word, con, prefix, x);
    }
    if |x| == w.NumRows() && x[..row] == prefix + [word] && Continues(d, w, dict, row, word, con, x[row..]) {
      PathsComplete(d, w, dict, row, word, con, prefix, x);
    }
  }

  /** On the last feedback row the lines are the node's path extended by
      each accepted dictionary word, in dictionary order. */
  lemma LastRowInDictionaryOrder(d: Deriver, w: Wordle, dict: seq<string>, row: nat, word: string,
                                 con: Option<ConstraintSet>, prefix: seq<string>)
    requires Setup(w, dict) && 1 <= row && row + 1 == w.NumRows() && IsWord(word) && con.Some?
    requires |prefix| == row - 1
    ensures var acc := Accepted(w, row, UpdateRow(d, w, row, word, con.value), dict);
      Paths(Solve(d, w, dict, row, word, con), prefix, w.NumRows()) ==
        seq(|acc|, j requires 0 <= j < |acc| => prefix + [word, acc[j]])
  {
    var t := Solve(d, w, dict, row, word, con);
    var acc := Accepted(w, row, UpdateRow(d, w, row, word, con.value), dict);
    SolveShape(d, w, dict, row, word, con);
    forall j | 0 <= j < |acc|
      ensures t.children[j] == Node(acc[j], None, [])
    {
      SolveShape(d, w, dict, row + 1, acc[j], Some(MustBeCleared(UpdateRow(d, w, row, word, con.value))));
    }
    LastRowChildren(t, |t.children|, prefix + [word], w.NumRows());
    assert Paths(t, prefix, w.NumRows()) == ChildPaths(t, |t.children|, prefix + [word], w.NumRows());
    assert forall j :: 0 <= j < |acc| ==> prefix + [word] + [t.children[j].word] == prefix + [word, acc[j]];
  }

  /** The lines of the subtrees solved one row down from each of `words`
      in turn, concatenated in that order. */
  function SubtreePaths(d: Deriver, w: Wordle, dict: seq<string>, row: nat, c: ConstraintSet,
                        words: seq<string>, prefix: seq<string>): seq<seq<string>>
    requires Setup(w, dict) && 1 <= row < w.NumRows() && |prefix| < w.NumRows()
    requires forall j :: 0 <= j < |words| ==> IsWord(words[j])
    decreases |words|
  {
    if words == [] then []
    else
      var last := Solve(d, w, dict, row + 1, words[|words| - 1], Some(MustBeCleared(c)));
      SubtreePaths(d, w, dict, row, c, words[..|words| - 1], prefix) + Paths(last, prefix, w.NumRows())
  }

  /** On any row the lines of a node are those of its accepted words'
      subtrees, in dictionary order (lines 207-231 build the children in
      that order and lines 266-271 print them in sibling order). */
  lemma PathsInDictionaryOrder(d: Deriver, w: Wordle, dict: seq<string>, row: nat, word: string,
                               con: Option<ConstraintSet>, prefix: seq<string>)
    requires Setup(w, dict) && 1 <= row < w.NumRows() && IsWord(word) && con.Some?
    requires |prefix| == row - 1
    ensures var c := UpdateRow(d, w, row, word, con.value);
      var acc := Accepted(w, row, c, dict);
      (forall j :: 0 <= j < |acc| ==> IsWord(acc[j])) &&
      Paths(Solve(d, w, dict, row, word, con), prefix, w.NumRows()) ==
        SubtreePaths(d, w, dict, row, c, acc, prefix + [word])
  {
    var c := UpdateRow(d, w, row, word, con.value);
    var acc := Accepted(w, row, c, dict);
    var t := Solve(d, w, dict, row, word, con);
    SolveShape(d, w, dict, row, word, con);
    ChildPathsOfSubtrees(d, w, dict, row, c, t, acc, |acc|, prefix + [word]);
    assert acc[..|acc|] == acc;
  }

  lemma {:induction false} ChildPathsOfSubtrees(d: Deriver, w: Wordle, dict: seq<string>, row: nat,
                                                c: ConstraintSet, t: Node, acc: seq<string>, i: nat,
                                                prefix: seq<string>)
    requires Setup(w, dict) && 1 <= row < w.NumRows() && |prefix| < w.NumRows()
    requires |t.children| == |acc| && i <= |acc|
    requires forall j :: 0 <= j < |acc| ==>
      IsWord(acc[j]) && t.children[j] == Solve(d, w, dict, row + 1, acc[j], Some(MustBeCleared(c)))
    ensures ChildPaths(t, i, prefix, w.NumRows()) == SubtreePaths(d, w, dict, row, c, acc[..i], prefix)
  {
    if i > 0 {
      ChildPathsOfSubtrees(d, w, dict, row, c, t, acc, i - 1, prefix);
      assert acc[..i][..i - 1] == acc[..i - 1];
    }
  }

  lemma {:induction false} LastRowChildren(t: Node, i: nat, prefix: seq<string>, numRows: nat)
    requires i <= |t.children| && |prefix| + 1 == numRows
    ensures ChildPaths(t, i, prefix, numRows) ==
      seq(i, j requires 0 <= j < i => prefix + [t.children[j].word])
  {
    if i > 0 {
      LastRowChildren(t, i - 1, prefix, numRows);
    }
  }

  /** A row that no dictionary word matches yields no line through the node. */
  lemma EmptyBranch(d: Deriver, w: Wordle, dict: seq<string>, row: nat, word: string,
                    con: Option<ConstraintSet>, prefix: seq<string>)
    requires Setup(w, dict) && 1 <= row < w.NumRows() && IsWord(word) && con.Some?
    requires |prefix| == row - 1
    requires forall k :: 0 <= k < |dict| ==>
      !MatchConstraints(dict[k], UpdateRow(d, w, row, word, con.value), w, row)
    ensures Paths(Solve(d, w, dict, row, word, con), prefix, w.NumRows()) == []
  {
    var c := UpdateRow(d, w, row, word, con.value);
    var acc := Accepted(w, row, c, dict);
    if acc != [] {
      AcceptedMembership(w, row, c, dict, acc[0]);
      MatchConstraintsSpec(acc[0], c, w, row);
    }
    SolveShape(d, w, dict, row, word, con);
  }

  /** print_paths: records the node's word in the shared path array at
      level - 1 and, at level num_rows, emits path[0 .. num_rows); below that
      a node without children emits nothing and any other node walks its
      children in sibling order one level further down. */
  method PrintPaths(node: SolverNode, path: array<string>, level: nat, numRows: nat)
    returns (lines: seq<seq<string>>)
    requires node.Valid() && 1 <= level <= numRows <= path.Length
    modifies path
    ensures path[..level - 1] == old(path[..level - 1])
    ensures lines == Paths(node.Tree, old(path[..level - 1]), numRows)
    decreases numRows - level, 1
  {
    if level == numRows {
      path[level - 1] := node.word;
      lines := [path[..numRows]];
      assert path[..numRows] == old(path[..level - 1]) + [node.Tree.word];
    } else if level < numRows && node.childList == [] {
      lines := [];
    } else {
      ghost var prefix := path[..level - 1] + [node.word];
      path[level - 1] := node.word;
      assert path[..level] == prefix;
      lines := PrintChildren(node, path, level, numRows, prefix);
      assert path[..level - 1] == prefix[..level - 1];
    }
  }

  /** The loop of print_paths over the child list (lines 266-271): each
      child's lines, in sibling order, with the node's word kept at
      path[level - 1]. */
  method PrintChildren(node: SolverNode, path: array<string>, level: nat, numRows: nat,
                       ghost prefix: seq<string>)
    returns (lines: seq<seq<string>>)
    requires node.Valid() && 1 <= level < numRows <= path.Length
    requires path[..level] == prefix
    modifies path
    ensures path[..level] == prefix
    ensures lines == ChildPaths(node.Tree, |node.Tree.children|, prefix, numRows)
    decreases numRows - level, 0
  {
    lines := [];
    for i := 0 to |node.childList|
      invariant path[..level] == prefix
      invariant lines == ChildPaths(node.Tree, i, prefix, numRows)
    {
      var more := PrintPaths(node.childList[i], path, level + 1, numRows);
      lines := lines + more;
    }
  }
}
