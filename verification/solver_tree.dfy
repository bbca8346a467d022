/** The tree builder of reverse_wordle.c: solve_subtree, with the tree each
    call builds stated as a value. */
module SolverTree {
  import opened WordleTypes
  import opened Matcher
  import opened SolverNodes

  /** set_green, set_yellow and add_to_cannot_be live in constraints.c, which
      is not part of this model; the search takes them as parameters, with
      the argument lists of their calls at lines 187, 192, 195 and 200. */
  datatype Deriver = Deriver(
    setGreen: (char, nat, ConstraintSet) -> ConstraintSet,
    setYellow: (nat, string, string, string, ConstraintSet) -> ConstraintSet,
    addToCannotBe: (string, ConstraintSet) -> ConstraintSet)

  /** What the loaders guarantee: a well-formed grid and a dictionary of
      WORDLEN-letter lower-case words. */
  predicate Setup(w: Wordle, dict: seq<string>)
  {
    w.WellFormed() && forall k :: 0 <= k < |dict| ==> IsWord(dict[k])
  }

  /** The feedback mark at position i of `row` applied to c (lines 186-197):
      green pins the parent's letter, yellow is scored against "ggggg" and the
      solution on row 1 and against the previous row and the parent's word
      after that, any other mark does nothing here. */
  function ApplyMark(d: Deriver, w: Wordle, row: nat, word: string, i: nat, c: ConstraintSet): ConstraintSet
    requires w.WellFormed() && 1 <= row < w.NumRows() && |word| == WORDLEN && i < WORDLEN
  {
    if w.grid[row][i] == 'g' then d.setGreen(word[i], i, c)
    else if w.grid[row][i] == 'y' then
      if row == 1 then d.setYellow(i, w.grid[row], "ggggg", w.grid[0], c)
      else d.setYellow(i, w.grid[row], w.grid[row - 1], word, c)
    else c
  }

  /** The marks at positions 0 .. n-1 applied left to right. */
  function ApplyMarks(d: Deriver, w: Wordle, row: nat, word: string, n: nat, c: ConstraintSet): ConstraintSet
    requires w.WellFormed() && 1 <= row < w.NumRows() && |word| == WORDLEN && n <= WORDLEN
  {
    if n == 0 then c
    else ApplyMark(d, w, row, word, n - 1, ApplyMarks(d, w, row, word, n - 1, c))
  }

  /** The parent's constraints once row `row` is taken into account
      (lines 181-200): all marks, then every letter of the parent's word
      handed to add_to_cannot_be. */
  function UpdateRow(d: Deriver, w: Wordle, row: nat, word: string, c: ConstraintSet): ConstraintSet
    requires w.WellFormed() && 1 <= row < w.NumRows() && |word| == WORDLEN
  {
    d.addToCannotBe(word[..WORDLEN], ApplyMarks(d, w, row, word, WORDLEN, c))
  }

  /** A row with no green or yellow mark only adds the parent's letters. */
  lemma {:induction false} UnmarkedRowOnlyExcludes(d: Deriver, w: Wordle, row: nat, word: string, c: ConstraintSet)
    requires w.WellFormed() && 1 <= row < w.NumRows() && |word| == WORDLEN
    requires forall i :: 0 <= i < WORDLEN ==> w.grid[row][i] != 'g' && w.grid[row][i] != 'y'
    ensures UpdateRow(d, w, row, word, c) == d.addToCannotBe(word, c)
  {
    forall n | 0 <= n <= WORDLEN
      ensures ApplyMarks(d, w, row, word, n, c) == c
    {
      UnmarkedPrefix(d, w, row, word, n, c);
    }
    assert word[..WORDLEN] == word;
  }

  lemma {:induction false} UnmarkedPrefix(d: Deriver, w: Wordle, row: nat, word: string, n: nat, c: ConstraintSet)
    requires w.WellFormed() && 1 <= row < w.NumRows() && |word| == WORDLEN && n <= WORDLEN
    requires forall i :: 0 <= i < WORDLEN ==> w.grid[row][i] != 'g' && w.grid[row][i] != 'y'
    ensures ApplyMarks(d, w, row, word, n, c) == c
  {
    if n > 0 {
      UnmarkedPrefix(d, w, row, word, n - 1, c);
    }
  }

  /** The words of ws admissible under c, in the order of ws: those the
      dictionary scan at `row` attaches. */
  function Accepted(w: Wordle, row: int, c: ConstraintSet, ws: seq<string>): (r: seq<string>)
    requires w.WellFormed() && forall k :: 0 <= k < |ws| ==> IsWord(ws[k])
    ensures |r| <= |ws|
    ensures forall k :: 0 <= k < |r| ==> r[k] in ws && IsWord(r[k]) && Admissible(r[k], c, w.Solution())
  {
    if ws == [] then []
    else
      var last := ws[|ws| - 1];
      Accepted(w, row, c, ws[..|ws| - 1]) + (if Admissible(last, c, w.Solution()) then [last] else [])
  }

  /** A word is accepted exactly when it is in ws and admissible. */
  lemma {:induction false} AcceptedMembership(w: Wordle, row: int, c: ConstraintSet, ws: seq<string>, x: string)
    requires w.WellFormed() && forall k :: 0 <= k < |ws| ==> IsWord(ws[k])
    ensures x in Accepted(w, row, c, ws) <==> x in ws && IsWord(x) && Admissible(x, c, w.Solution())
  {
    if ws != [] {
      var init := ws[..|ws| - 1];
      AcceptedMembership(w, row, c, init, x);
      assert ws == init + [ws[|ws| - 1]];
    }
  }

  /** A word is accepted exactly when it is in ws and match_constraints
      returns 1 for it. */
  lemma AcceptedMatches(w: Wordle, row: int, c: ConstraintSet, ws: seq<string>, x: string)
    requires w.WellFormed() && forall k :: 0 <= k < |ws| ==> IsWord(ws[k])
    ensures x in Accepted(w, row, c, ws) <==> x in ws && IsWord(x) && MatchConstraints(x, c, w, row)
  {
    AcceptedMembership(w, row, c, ws, x);
    if IsWord(x) {
      MatchConstraintsSpec(x, c, w, row);
    }
  }

  /** The last element of a non-empty right operand ends the concatenation. */
  lemma AppendSplitsLast<T>(xs: seq<T>, ys: seq<T>)
    requires |ys| > 0
    ensures xs + ys == (xs + ys[..|ys| - 1]) + [ys[|ys| - 1]]
  {
    assert ys == ys[..|ys| - 1] + [ys[|ys| - 1]];
  }

  /** Filtering keeps dictionary order: it distributes over concatenation. */
  lemma {:induction false} AcceptedAppend(w: Wordle, row: int, c: ConstraintSet, xs: seq<string>, ys: seq<string>)
    requires w.WellFormed()
    requires forall k :: 0 <= k < |xs| ==> IsWord(xs[k])
    requires forall k :: 0 <= k < |ys| ==> IsWord(ys[k])
    ensures Accepted(w, row, c, xs + ys) == Accepted(w, row, c, xs) + Accepted(w, row, c, ys)
  {
    if ys == [] {
      assert xs + ys == xs;
    } else {
      var init, last := ys[..|ys| - 1], ys[|ys| - 1];
      var tail := if Admissible(last, c, w.Solution()) then [last] else [];
      AcceptedAppend(w, row, c, xs, init);
      AppendSplitsLast(xs, ys);
      calc {
        Accepted(w, row, c, xs + ys);
        Accepted(w, row, c, xs + init) + tail;
        Accepted(w, row, c, xs) + Accepted(w, row, c, init) + tail;
        Accepted(w, row, c, xs) + Accepted(w, row, c, ys);
      }
    }
  }

  /** The subtree solve_subtree builds below a node holding `word` and `con`
      at `row`. */
  function Solve(d: Deriver, w: Wordle, dict: seq<string>, row: nat, word: string, con: Option<ConstraintSet>): Node
    requires Setup(w, dict) && 1 <= row <= w.NumRows() && IsWord(word)
    requires row < w.NumRows() ==> con.Some?
    decreases w.NumRows() - row, 2, 0
  {
    if row == w.NumRows() then Node(word, None, [])
    else
      var c := UpdateRow(d, w, row, word, con.value);
      Node(word, Some(c), Grow(d, w, dict, row, c, |dict|))
  }

  /** The children attached once the first n dictionary words are scanned:
      one solved subtree per matching word, each started from the cleared
      constraints. */
  function Grow(d: Deriver, w: Wordle, dict: seq<string>, row: nat, c: ConstraintSet, n: nat): seq<Node>
    requires Setup(w, dict) && 1 <= row < w.NumRows() && n <= |dict|
    decreases w.NumRows() - row, 1, n
  {
    if n == 0 then []
    else
      Grow(d, w, dict, row, c, n - 1) +
      (if Admissible(dict[n - 1], c, w.Solution())
       then [Solve(d, w, dict, row + 1, dict[n - 1], Some(MustBeCleared(c)))]
       else [])
  }

  /** The children are the accepted words, in scan order, each solved one row
      further down from the parent's constraints with must_be cleared. */
  lemma {:induction false} GrowIsAccepted(d: Deriver, w: Wordle, dict: seq<string>, row: nat, c: ConstraintSet, n: nat)
    requires Setup(w, dict) && 1 <= row < w.NumRows() && n <= |dict|
    ensures |Grow(d, w, dict, row, c, n)| == |Accepted(w, row, c, dict[..n])|
    ensures forall j :: 0 <= j < |Accepted(w, row, c, dict[..n])| ==>
      IsWord(Accepted(w, row, c, dict[..n])[j]) &&
      Grow(d, w, dict, row, c, n)[j] ==
        Solve(d, w, dict, row + 1, Accepted(w, row, c, dict[..n])[j], Some(MustBeCleared(c)))
  {
    if n > 0 {
      GrowIsAccepted(d, w, dict, row, c, n - 1);
      assert dict[..n][..n - 1] == dict[..n - 1];
    }
  }

  /** solve_subtree's result: at row == num_rows a leaf with no constraints
      and no children; before that the parent's updated constraints and one
      child per accepted dictionary word, in dictionary order, each child
      holding that word and starting from the parent's cannot_be with every
      must_be entry cleared. */
  lemma SolveShape(d: Deriver, w: Wordle, dict: seq<string>, row: nat, word: string, con: Option<ConstraintSet>)
    requires Setup(w, dict) && 1 <= row <= w.NumRows() && IsWord(word)
    requires row < w.NumRows() ==> con.Some?
    ensures Solve(d, w, dict, row, word, con).word == word
    ensures row == w.NumRows() ==>
      Solve(d, w, dict, row, word, con).con == None && Solve(d, w, dict, row, word, con).children == []
    ensures row < w.NumRows() ==>
      var c := UpdateRow(d, w, row, word, con.value);
      var t := Solve(d, w, dict, row, word, con);
      var acc := Accepted(w, row, c, dict);
      t.con == Some(c) && |t.children| == |acc| &&
      forall j :: 0 <= j < |acc| ==>
        IsWord(acc[j]) && t.children[j].word == acc[j] &&
        t.children[j] == Solve(d, w, dict, row + 1, acc[j], Some(MustBeCleared(c)))
  {
    if row < w.NumRows() {
      var c := UpdateRow(d, w, row, word, con.value);
      GrowIsAccepted(d, w, dict, row, c, |dict|);
      assert dict[..|dict|] == dict;
    }
  }

  /** The feedback part of solve_subtree (lines 181-200): every green or
      yellow mark of `row` updates the parent's constraints in place, then
      the parent's letters go to add_to_cannot_be. */
  method ApplyFeedback(row: nat, w: Wordle, d: Deriver, parent: SolverNode)
    requires w.WellFormed() && 1 <= row < w.NumRows()
    requires IsWord(parent.word) && parent.con.Some?
    modifies parent`con
    ensures parent.con == Some(UpdateRow(d, w, row, parent.word, old(parent.con).value))
  {
    var cannot := parent.word[..WORDLEN];
    ghost var c0 := parent.con.value;
    for i := 0 to WORDLEN
      invariant parent.con == Some(ApplyMarks(d, w, row, parent.word, i, c0))
    {
      if w.grid[row][i] == 'g' {
        parent.con := Some(d.setGreen(parent.word[i], i, parent.con.value));
      } else if w.grid[row][i] == 'y' {
        if row == 1 {
          parent.con := Some(d.setYellow(i, w.grid[row], "ggggg", w.grid[0], parent.con.value));
        } else {
          parent.con := Some(d.setYellow(i, w.grid[row], w.grid[row - 1], parent.word, parent.con.value));
        }
      }
    }
    parent.con := Some(d.addToCannotBe(cannot, parent.con.value));
  }

  /** The new node of the dictionary scan (lines 209-227): a copy of the
      parent's constraints goes into a node for `word`, its must_be entries
      are reset and its subtree is built one row further down. */
  method BuildChild(row: nat, w: Wordle, dict: seq<string>, d: Deriver, con: ConstraintSet, word: string)
      returns (child: SolverNode)
    requires Setup(w, dict) && 1 <= row < w.NumRows() && IsWord(word)
    ensures fresh(child.Repr) && child.Valid()
    ensures child.Tree == Solve(d, w, dict, row + 1, word, Some(MustBeCleared(con)))
    decreases w.NumRows() - row, 0
  {
    // *new_con = *(parent->con): the child gets its own copy
    var newCon := con;
    child := new SolverNode(Some(newCon), word);
    child.ResetMustBe();
    SolveSubtree(row + 1, w, dict, d, child);
  }

  /** One step of the dictionary scan (lines 209-229): dict[k] gets a child
      exactly when it matches the parent's constraints. */
  method ScanWord(row: nat, w: Wordle, dict: seq<string>, d: Deriver, parent: SolverNode,
                  c: ConstraintSet, k: nat)
    requires Setup(w, dict) && 1 <= row < w.NumRows() && k < |dict|
    requires OwnsChildren(parent, Grow(d, w, dict, row, c, k))
    modifies parent`childList, parent`Repr
    ensures fresh(parent.Repr - old(parent.Repr))
    ensures OwnsChildren(parent, Grow(d, w, dict, row, c, k + 1))
    decreases w.NumRows() - row, 1
  {
    ghost var before := Grow(d, w, dict, row, c, k);
    MatchConstraintsSpec(dict[k], c, w, row);
    if MatchConstraints(dict[k], c, w, row) {
      var child := BuildChild(row, w, dict, d, c, dict[k]);
      AttachChild(parent, child, before);
    }
  }

  /** The dictionary scan of solve_subtree (lines 202-232): every matching
      word, in dictionary order, gets a child. */
  method ScanDictionary(row: nat, w: Wordle, dict: seq<string>, d: Deriver, parent: SolverNode)
    requires Setup(w, dict) && 1 <= row < w.NumRows()
    requires parent.con.Some? && OwnsChildren(parent, [])
    modifies parent`childList, parent`Repr
    ensures fresh(parent.Repr - old(parent.Repr))
    ensures OwnsChildren(parent, Grow(d, w, dict, row, parent.con.value, |dict|))
    decreases w.NumRows() - row, 2
  {
    var c := parent.con.value;
    for k := 0 to |dict|
      invariant c == parent.con.value
      invariant fresh(parent.Repr - old(parent.Repr))
      invariant OwnsChildren(parent, Grow(d, w, dict, row, c, k))
    {
      ScanWord(row, w, dict, d, parent, c, k);
    }
  }

  /** solve_subtree: updates the parent's constraints with the feedback of
      `row`, scans the dictionary in order and, for each matching word,
      attaches a child with a copy of the updated constraints whose must_be
      entries are cleared, then builds that child's subtree one row further
      down. At row == num_rows the parent becomes a leaf. */
  method SolveSubtree(row: nat, w: Wordle, dict: seq<string>, d: Deriver, parent: SolverNode)
    requires Setup(w, dict) && 1 <= row <= w.NumRows()
    requires parent.Repr == {parent} && parent.childList == []
    requires IsWord(parent.word)
    requires row < w.NumRows() ==> parent.con.Some?
    modifies parent
    ensures parent.Valid() && fresh(parent.Repr - {parent})
    ensures parent.word == old(parent.word)
    ensures parent.Tree == Solve(d, w, dict, row, parent.word, old(parent.con))
    decreases w.NumRows() - row, 3
  {
    if row == w.NumRows() {
      parent.con := None;
      parent.childList := [];
      parent.Tree := Node(parent.word, None, []);
      return;
    }
    ApplyFeedback(row, w, d, parent);
    parent.Tree := Node(parent.word, parent.con, Grow(d, w, dict, row, parent.con.value, |dict|));
    ScanDictionary(row, w, dict, d, parent);
    OwnsChildrenValid(parent);
  }
}
