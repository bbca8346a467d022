/** The candidate test of reverse_wordle.c: check_solution_duplicates,
    get_cannot_be and match_constraints. */
module Matcher {
  import opened WordleTypes
  import opened StringEdit

  /** The scan of check_solution_duplicates from position i. */
  function OccursFrom(letter: char, solution: string, i: nat): bool
    requires |solution| >= WORDLEN && i <= WORDLEN
    decreases WORDLEN - i
  {
    if i == WORDLEN then false
    else if solution[i] == letter then true
    else OccursFrom(letter, solution, i + 1)
  }

  /** The scan from i finds `letter` exactly when it occurs in
      solution[i..WORDLEN). */
  lemma {:induction false} OccursFromSpec(letter: char, solution: string, i: nat)
    requires |solution| >= WORDLEN && i <= WORDLEN
    ensures OccursFrom(letter, solution, i) <==> letter in solution[i..WORDLEN]
    decreases WORDLEN - i
  {
    if i < WORDLEN {
      OccursFromSpec(letter, solution, i + 1);
      assert solution[i..WORDLEN] == [solution[i]] + solution[i + 1..WORDLEN];
    }
  }

  /** check_solution_duplicates: true (C: 1) when `letter` is one of the
      first WORDLEN characters of the solution. */
  function CheckSolutionDuplicates(letter: char, solution: string): bool
    requires |solution| >= WORDLEN
  {
    OccursFrom(letter, solution, 0)
  }

  /** check_solution_duplicates answers 1 exactly when the letter occurs in
      the solution's first WORDLEN characters. */
  lemma CheckSolutionDuplicatesSpec(letter: char, solution: string)
    requires |solution| >= WORDLEN
    ensures CheckSolutionDuplicates(letter, solution) <==> letter in solution[..WORDLEN]
  {
    OccursFromSpec(letter, solution, 0);
    assert solution[0..WORDLEN] == solution[..WORDLEN];
  }

  /** The letters 'a' + i with flags[i] set, for i < n, in index order: what
      the loop of get_cannot_be has written after n steps. */
  function LettersBelow(flags: seq<bool>, n: nat): string
    requires |flags| == ALPHABET_SIZE && n <= ALPHABET_SIZE
  {
    if n == 0 then []
    else LettersBelow(flags, n - 1) + (if flags[n - 1] then [LetterAt(n - 1)] else [])
  }

  /** The string get_cannot_be returns. */
  function CannotBeLetters(flags: seq<bool>): (r: string)
    requires |flags| == ALPHABET_SIZE
    ensures |r| <= ALPHABET_SIZE
  {
    LettersBelowSpec(flags, |flags|);
    LettersBelow(flags, |flags|)
  }

  /** After n steps the buffer holds at most n letters, each a flagged letter
      below 'a' + n, in strictly ascending order, and every flagged letter
      below 'a' + n is among them. */
  lemma {:induction false} LettersBelowSpec(flags: seq<bool>, n: nat)
    requires |flags| == ALPHABET_SIZE && n <= ALPHABET_SIZE
    ensures |LettersBelow(flags, n)| <= n
    ensures forall k :: 0 <= k < |LettersBelow(flags, n)| ==>
      IsLetter(LettersBelow(flags, n)[k]) &&
      LetterIndex(LettersBelow(flags, n)[k]) < n &&
      flags[LetterIndex(LettersBelow(flags, n)[k])]
    ensures forall p, q :: 0 <= p < q < |LettersBelow(flags, n)| ==>
      LettersBelow(flags, n)[p] < LettersBelow(flags, n)[q]
    ensures forall i :: 0 <= i < n && flags[i] ==> LetterAt(i) in LettersBelow(flags, n)
  {
    if n > 0 {
      LettersBelowSpec(flags, n - 1);
    }
  }

  /** A character is in the get_cannot_be string exactly when it is a letter
      whose cannot_be flag is set. */
  lemma CannotBeLettersMembership(flags: seq<bool>, c: char)
    requires |flags| == ALPHABET_SIZE
    ensures c in CannotBeLetters(flags) <==> IsLetter(c) && flags[LetterIndex(c)]
  {
    LettersBelowSpec(flags, ALPHABET_SIZE);
    if IsLetter(c) && flags[LetterIndex(c)] {
      assert LetterAt(LetterIndex(c)) == c;
    }
  }

  /** get_cannot_be: fills a buffer of ALPHABET_SIZE + 1 characters through
      the `curr` counter and returns the string before its terminator. */
  method GetCannotBe(con: ConstraintSet) returns (cb: string)
    ensures cb == CannotBeLetters(con.cannotBe)
    ensures |cb| <= ALPHABET_SIZE
    ensures forall p, q :: 0 <= p < q < |cb| ==> cb[p] < cb[q]
    ensures forall c :: c in cb <==> IsLetter(c) && con.cannotBe[LetterIndex(c)]
  {
    var buf := new char[ALPHABET_SIZE + 1];
    var curr := 0;
    for i := 0 to ALPHABET_SIZE
      invariant curr <= i
      invariant buf[..curr] == LettersBelow(con.cannotBe, i)
    {
      LettersBelowSpec(con.cannotBe, i);
      if con.cannotBe[i] {
        buf[curr] := LetterAt(i);
        curr := curr + 1;
      }
    }
    buf[curr] := '\0';
    cb := buf[..curr];
    LettersBelowSpec(con.cannotBe, ALPHABET_SIZE);
    forall c
      ensures c in cb <==> IsLetter(c) && con.cannotBe[LetterIndex(c)]
    {
      CannotBeLettersMembership(con.cannotBe, c);
    }
  }

  /** The inner loop of match_constraints (lines 124-131) from j on. */
  function RepeatFreeFrom(word: string, solution: string, i: nat, j: nat): bool
    requires IsWord(word) && |solution| >= WORDLEN && i < j <= WORDLEN
    decreases WORDLEN - j
  {
    if j == WORDLEN then true
    else if word[i] == word[j] && CheckSolutionDuplicates(word[i], solution) then false
    else RepeatFreeFrom(word, solution, i, j + 1)
  }

  /** The inner loop passes exactly when no later position repeats word[i]
      while that letter occurs in the solution. */
  lemma {:induction false} RepeatFreeFromSpec(word: string, solution: string, i: nat, j: nat)
    requires IsWord(word) && |solution| >= WORDLEN && i < j <= WORDLEN
    ensures RepeatFreeFrom(word, solution, i, j) <==>
      forall m :: j <= m < WORDLEN ==> !(word[m] == word[i] && word[i] in solution[..WORDLEN])
    decreases WORDLEN - j
  {
    if j < WORDLEN {
      RepeatFreeFromSpec(word, solution, i, j + 1);
      CheckSolutionDuplicatesSpec(word[i], solution);
    }
  }

  /** The checks of one position against must_be and the cannot_be string
      (lines 99-122). */
  predicate PositionFits(word: string, con: ConstraintSet, solution: string, cb: string, i: nat)
    requires IsWord(word) && |solution| >= WORDLEN && i < WORDLEN
  {
    if con.mustBe[i] != [] then
      word[i] in con.mustBe[i] && !(|con.mustBe[i]| > 1 && word[i] == solution[i])
    else
      word[i] !in cb
  }

  /** All the checks the outer loop makes at position i. */
  predicate PositionPasses(word: string, con: ConstraintSet, solution: string, cb: string, i: nat)
    requires IsWord(word) && |solution| >= WORDLEN && i < WORDLEN
  {
    PositionFits(word, con, solution, cb, i) && RepeatFreeFrom(word, solution, i, i + 1)
  }

  /** The outer loop of match_constraints from position i on, returning false
      at the first failing check. */
  function ScanFrom(word: string, con: ConstraintSet, solution: string, cb: string, i: nat): bool
    requires IsWord(word) && |solution| >= WORDLEN && i <= WORDLEN
    decreases WORDLEN - i
  {
    if i == WORDLEN then true
    else if con.mustBe[i] != [] && word[i] !in con.mustBe[i] then false
    else if con.mustBe[i] != [] && |con.mustBe[i]| > 1 && word[i] == solution[i] then false
    else if con.mustBe[i] == [] && Strchr(cb, word[i]) then false
    else if !RepeatFreeFrom(word, solution, i, i + 1) then false
    else ScanFrom(word, con, solution, cb, i + 1)
  }

  /** The scan succeeds exactly when every remaining position passes. */
  lemma {:induction false} ScanFromSpec(word: string, con: ConstraintSet, solution: string, cb: string, i: nat)
    requires IsWord(word) && |solution| >= WORDLEN && i <= WORDLEN
    ensures ScanFrom(word, con, solution, cb, i) <==>
      forall k :: i <= k < WORDLEN ==> PositionPasses(word, con, solution, cb, k)
    decreases WORDLEN - i
  {
    if i < WORDLEN {
      ScanFromSpec(word, con, solution, cb, i + 1);
      StrchrSpec(cb, word[i]);
      assert ScanFrom(word, con, solution, cb, i) ==
        (PositionPasses(word, con, solution, cb, i) && ScanFrom(word, con, solution, cb, i + 1));
    }
  }

  /** What position i of a candidate must satisfy, stated on the constraint
      flags rather than on the scan: it fits its must_be entry (and an open,
      multi-letter entry does not hold the solution's letter there), an
      unconstrained position avoids the cannot_be letters, and a letter of
      the solution at i is not repeated later in the word. */
  predicate AdmissibleAt(word: string, con: ConstraintSet, solution: string, i: nat)
    requires IsWord(word) && |solution| >= WORDLEN && i < WORDLEN
  {
    (|con.mustBe[i]| > 0 ==> word[i] in con.mustBe[i]) &&
    (|con.mustBe[i]| > 1 ==> word[i] != solution[i]) &&
    (|con.mustBe[i]| == 0 ==> !con.cannotBe[LetterIndex(word[i])]) &&
    (forall j :: i < j < WORDLEN && word[j] == word[i] ==> word[i] !in solution[..WORDLEN])
  }

  /** A candidate admissible at every position. */
  predicate Admissible(word: string, con: ConstraintSet, solution: string)
    requires IsWord(word) && |solution| >= WORDLEN
  {
    forall i :: 0 <= i < WORDLEN ==> AdmissibleAt(word, con, solution, i)
  }

  /** With cb the get_cannot_be string, the checks at one position pass
      exactly when the word is admissible there. */
  lemma PositionPassesSpec(word: string, con: ConstraintSet, solution: string, i: nat)
    requires IsWord(word) && |solution| >= WORDLEN && i < WORDLEN
    ensures PositionPasses(word, con, solution, CannotBeLetters(con.cannotBe), i) <==>
      AdmissibleAt(word, con, solution, i)
  {
    CannotBeLettersMembership(con.cannotBe, word[i]);
    RepeatFreeFromSpec(word, solution, i, i + 1);
  }

  /** match_constraints: the scan against the cannot_be string of the
      constraints and the solution in grid[0]. The row argument is not used;
      the constraints are a value and are not changed. */
  function MatchConstraints(word: string, con: ConstraintSet, w: Wordle, row: int): bool
    requires IsWord(word) && w.WellFormed()
  {
    var cb := CannotBeLetters(con.cannotBe);
    ScanFrom(word, con, w.Solution(), cb, 0)
  }

  /** match_constraints returns true (C: 1) exactly when the word is
      admissible against the constraints and the solution, whatever the row. */
  lemma MatchConstraintsSpec(word: string, con: ConstraintSet, w: Wordle, row: int)
    requires IsWord(word) && w.WellFormed()
    ensures MatchConstraints(word, con, w, row) <==> Admissible(word, con, w.Solution())
  {
    var cb := CannotBeLetters(con.cannotBe);
    forall k | 0 <= k < WORDLEN
      ensures PositionPasses(word, con, w.Solution(), cb, k) <==> AdmissibleAt(word, con, w.Solution(), k)
    {
      PositionPassesSpec(word, con, w.Solution(), k);
    }
    ScanFromSpec(word, con, w.Solution(), cb, 0);
  }

  /** A constrained position rejects a letter outside its must_be string. */
  lemma RejectsLetterOutsideMustBe(word: string, con: ConstraintSet, w: Wordle, row: int, i: nat)
    requires IsWord(word) && w.WellFormed() && i < WORDLEN
    requires con.mustBe[i] != [] && word[i] !in con.mustBe[i]
    ensures !MatchConstraints(word, con, w, row)
  {
    MatchConstraintsSpec(word, con, w, row);
    assert !AdmissibleAt(word, con, w.Solution(), i);
  }

  /** An unconstrained position rejects a letter flagged in cannot_be. */
  lemma RejectsExcludedLetter(word: string, con: ConstraintSet, w: Wordle, row: int, i: nat)
    requires IsWord(word) && w.WellFormed() && i < WORDLEN
    requires con.mustBe[i] == [] && con.cannotBe[LetterIndex(word[i])]
    ensures !MatchConstraints(word, con, w, row)
  {
    MatchConstraintsSpec(word, con, w, row);
    assert !AdmissibleAt(word, con, w.Solution(), i);
  }

  /** An open (multi-letter, yellow) position rejects the solution's letter. */
  lemma RejectsSolutionLetterAtOpenPosition(word: string, con: ConstraintSet, w: Wordle, row: int, i: nat)
    requires IsWord(word) && w.WellFormed() && i < WORDLEN
    requires |con.mustBe[i]| >= 2 && word[i] == w.Solution()[i]
    ensures !MatchConstraints(word, con, w, row)
  {
    MatchConstraintsSpec(word, con, w, row);
    assert !AdmissibleAt(word, con, w.Solution(), i);
  }

  /** A letter repeated at positions i < j and present in the solution
      rejects the word. */
  lemma RejectsRepeatedSolutionLetter(word: string, con: ConstraintSet, w: Wordle, row: int, i: nat, j: nat)
    requires IsWord(word) && w.WellFormed() && i < j < WORDLEN
    requires word[i] == word[j] && CheckSolutionDuplicates(word[i], w.Solution())
    ensures !MatchConstraints(word, con, w, row)
  {
    MatchConstraintsSpec(word, con, w, row);
    CheckSolutionDuplicatesSpec(word[i], w.Solution());
    assert !AdmissibleAt(word, con, w.Solution(), i);
  }

  /** With the solution "crane", the word "eerie" is never accepted, whatever
      the constraints: its repeated 'e' occurs in the solution. */
  lemma EerieNeverMatchesCrane(con: ConstraintSet, w: Wordle, row: int)
    requires w.WellFormed() && w.Solution() == "crane"
    ensures IsWord("eerie") && !MatchConstraints("eerie", con, w, row)
  {
    assert IsWord("eerie");
    assert "crane"[..WORDLEN][4] == 'e';
    RejectsRepeatedSolutionLetter("eerie", con, w, row, 0, 1);
  }

  /** When every position is pinned to the solution's letter, the solution
      is the only word that can match. */
  lemma PinnedToSolutionMatchesOnlySolution(word: string, con: ConstraintSet, w: Wordle, row: int)
    requires IsWord(word) && w.WellFormed()
    requires forall i :: 0 <= i < WORDLEN ==> con.mustBe[i] == [w.Solution()[i]]
    requires MatchConstraints(word, con, w, row)
    ensures word == w.Solution()
  {
    MatchConstraintsSpec(word, con, w, row);
    forall i | 0 <= i < WORDLEN
      ensures word[i] == w.Solution()[i]
    {
      assert word[i] in con.mustBe[i];
    }
  }

  /** The converse, for a solution without a repeated letter: when every
      position is pinned to the solution's letter, the solution matches. */
  lemma PinnedSolutionMatches(con: ConstraintSet, w: Wordle, row: int)
    requires w.WellFormed()
    requires forall i :: 0 <= i < WORDLEN ==> con.mustBe[i] == [w.Solution()[i]]
    requires forall i, j :: 0 <= i < j < WORDLEN ==> w.Solution()[i] != w.Solution()[j]
    ensures MatchConstraints(w.Solution(), con, w, row)
  {
    var sol := w.Solution();
    forall i | 0 <= i < WORDLEN
      ensures AdmissibleAt(sol, con, sol, i)
    {
      assert sol[i] in con.mustBe[i];
    }
    MatchConstraintsSpec(sol, con, w, row);
  }

  /** The converse needs the solution's letters to be distinct: a solution
      with a repeated letter never matches itself, because the repeat is a
      solution letter (lines 124-131), however the positions are pinned. */
  lemma RepeatedLetterSolutionNeverMatches(con: ConstraintSet, w: Wordle, row: int, i: nat, j: nat)
    requires w.WellFormed() && i < j < WORDLEN && w.Solution()[i] == w.Solution()[j]
    ensures !MatchConstraints(w.Solution(), con, w, row)
  {
    var sol := w.Solution();
    CheckSolutionDuplicatesSpec(sol[i], sol);
    RejectsRepeatedSolutionLetter(sol, con, w, row, i, j);
  }

  /** With the solution "speed" and every position pinned to it, "speed"
      itself is rejected: its 'e' at positions 2 and 3 is a solution letter. */
  lemma PinnedSpeedRejectsItself(con: ConstraintSet, w: Wordle, row: int)
    requires w.WellFormed() && w.Solution() == "speed"
    requires forall i :: 0 <= i < WORDLEN ==> con.mustBe[i] == [w.Solution()[i]]
    ensures !MatchConstraints("speed", con, w, row)
  {
    assert w.Solution()[2] == w.Solution()[3];
    RepeatedLetterSolutionNeverMatches(con, w, row, 2, 3);
  }
}
