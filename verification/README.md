# Reverse Wordle search core, in Dafny

This project models the search engine of `reverse_wordle.c` from the
Wordle-Paths repository. Given a Wordle grid, the engine rebuilds every
sequence of dictionary guesses that fits the feedback. Row 0 of the grid is
the solution. Rows 1.. hold the per-letter marks: `g` for green, `y` for
yellow, anything else for grey.

The model has six modules, each in its own file:

- `WordleTypes` (`wordle_types.dfy`) holds the shared data:
  - `WORDLEN` = 5 and `ALPHABET_SIZE` = 26;
  - the grid, as `Wordle`;
  - `struct constraints`, as the value type `Constraints`. Its `mustBe` is a sequence of 5 strings and its `cannotBe` a sequence of 26 flags. The subset type `ConstraintSet` keeps that shape.
- `StringEdit` (`string_edit.dfy`) models `remove_char`, an in-place method on a NUL-terminated `array<char>`. It also models the `strlen` and `strchr` behaviour that `remove_char` and `match_constraints` rely on.
- `Matcher` (`matcher.dfy`) models the candidate test:
  - `check_solution_duplicates` and the scan of `match_constraints` are pure functions. They follow the C loops with their early returns.
  - `get_cannot_be` is a method that fills a buffer through its `curr` counter.
  - The scan is proved equal to `Admissible`, which states the matching rule position by position on the constraint flags.
- `SolverNodes` (`solver_node.dfy`) models `struct solver_node`:
  - It is a class with the fields `word`, `con` and `childList`. The sibling list becomes a sequence of child objects.
  - It has a ghost footprint `Repr` and a ghost `Tree` holding the `Node` value the subtree stands for.
  - `create_solver_node` is its constructor; `reset_must_be` is a method that overwrites the constraints in place.
- `SolverTree` (`solver_tree.dfy`) models `solve_subtree`:
  - The imperative methods update the parent node and grow its child list in dictionary order.
  - They are proved against `Solve`, a function that gives the tree each call builds.
  - Lemmas about `Solve` state what the tree holds.
- `PathWalk` (`path_walk.dfy`) models `print_paths`:
  - It is a method that writes the shared `path` array and returns the lines it would print, instead of printing them.
  - It is proved equal to `Paths`, a pre-order walk over `Node` values.
  - The main theorem, `PathsOfSolve`, says the lines are exactly the guess sequences that fit the remaining feedback rows.

Three functions live in `constraints.c`, which is not part of this model: `set_green`, `set_yellow` and `add_to_cannot_be`. They are parameters of the search, as the three function fields of `SolverTree.Deriver`. Every result is proved for every choice of them.

The model follows the code in two places where a reader of the Wordle rules might expect otherwise:
- A turn's marks are applied position by position, left to right (`reverse_wordle.c:185-198`). They are not applied as all greens first and then all yellows.
- Every letter of the parent's word is handed to `add_to_cannot_be` (lines 181-183 and 200), not only the letters that are not green.

## Model

| member | source | states |
|---|---|---|
| WordleTypes.LetterAt | reverse_wordle.c:69 | flag i of cannot_be stands for the lower-case letter 'a' + i |
| WordleTypes.LetterIndex | reverse_wordle.c:67-68 | every lower-case letter has an index below 26, and that index maps back to the letter |
| StringEdit.StrLen | reverse_wordle.c:143-144 | strlen is the index of the first NUL; every character before it is non-NUL |
| StringEdit.StrchrSpec | reverse_wordle.c:102-118 | strchr finds c exactly when c is in the string or c is the NUL terminator |
| StringEdit.FirstIndex | reverse_wordle.c:141 | the position strchr points to holds the letter, and the letter does not occur before it; no position means the letter is absent |
| StringEdit.CharRemoved | reverse_wordle.c:140-146 | the string remove_char leaves: unchanged when strchr finds nothing, else the first occurrence overwritten by the last character and the string shortened by one; CharRemovedAbsent, CharRemovedPresent and CharRemovedMultiset give its meaning, and RemoveChar is proved to produce it |
| StringEdit.CharRemovedAbsent | reverse_wordle.c:140-146 | removing a letter that is not in the word leaves the word unchanged |
| StringEdit.CharRemovedPresent | reverse_wordle.c:142-145 | when the letter is present, the length drops by one, the first occurrence takes the former last character, and every other position is unchanged |
| StringEdit.CharRemovedMultiset | reverse_wordle.c:140-146 | removing a present letter takes exactly one copy of it out of the word's letter multiset |
| StringEdit.RemoveChar | reverse_wordle.c:140-146 | the in-place edit leaves a NUL-terminated buffer whose string is the removal result; an absent letter leaves the whole buffer unchanged; the bytes from the old terminator on are kept |
| Matcher.CheckSolutionDuplicates | reverse_wordle.c:80-87 | the early-return scan of check_solution_duplicates over the first five solution characters; CheckSolutionDuplicatesSpec ties it to membership in solution[..5] |
| Matcher.OccursFromSpec | reverse_wordle.c:81-86 | the scan from position i finds the letter exactly when it occurs in solution[i..5) |
| Matcher.CheckSolutionDuplicatesSpec | reverse_wordle.c:80-87 | check_solution_duplicates returns 1 exactly when the letter occurs in the first five characters of the solution |
| Matcher.LettersBelowSpec | reverse_wordle.c:66-71 | after n loop steps the buffer holds at most n letters, each a flagged letter below 'a' + n, in strictly ascending order, and every such flagged letter is among them |
| Matcher.CannotBeLetters | reverse_wordle.c:63-75 | the get_cannot_be string has at most 26 letters |
| Matcher.CannotBeLettersMembership | reverse_wordle.c:63-75 | a character is in the get_cannot_be string exactly when it is a letter whose cannot_be flag is set |
| Matcher.GetCannotBe | reverse_wordle.c:63-75 | the buffer-filling loop returns a string of length at most 26, in strictly ascending order, holding exactly the flagged letters |
| Matcher.RepeatFreeFromSpec | reverse_wordle.c:124-131 | the inner loop passes exactly when no later position repeats word[i] while that letter is in the solution |
| Matcher.ScanFromSpec | reverse_wordle.c:97-133 | the outer scan with early returns succeeds exactly when every remaining position passes all its checks |
| Matcher.PositionPassesSpec | reverse_wordle.c:99-131 | with the get_cannot_be string, the checks at one position pass exactly when the word is admissible there |
| Matcher.MatchConstraints | reverse_wordle.c:92-135 | the early-return scan of match_constraints over the get_cannot_be string; MatchConstraintsSpec ties it to Admissible in both directions |
| Matcher.MatchConstraintsSpec | reverse_wordle.c:92-135 | match_constraints returns 1 exactly when no check fails at any position. The characterisation does not mention the row, so the result is the same for every row. The constraints are a value and stay unchanged |
| Matcher.RejectsLetterOutsideMustBe | reverse_wordle.c:100-105 | a non-empty must_be[i] that does not contain word[i] makes match_constraints return 0 |
| Matcher.RejectsExcludedLetter | reverse_wordle.c:116-121 | an empty must_be[i], with word[i] flagged in cannot_be, makes match_constraints return 0 |
| Matcher.RejectsSolutionLetterAtOpenPosition | reverse_wordle.c:108-113 | a must_be[i] of two or more letters, with word[i] equal to the solution's letter at i, makes match_constraints return 0 |
| Matcher.RejectsRepeatedSolutionLetter | reverse_wordle.c:124-131 | a letter at two positions i < j of the word that also occurs in the solution makes match_constraints return 0 |
| Matcher.EerieNeverMatchesCrane | reverse_wordle.c:124-131 | with solution "crane", the word "eerie" is rejected under any constraints and at any row |
| Matcher.PinnedToSolutionMatchesOnlySolution | reverse_wordle.c:99-105 | when every must_be entry is the solution's letter at that position, only the solution itself matches |
| Matcher.PinnedSolutionMatches | reverse_wordle.c:92-135 | conversely, when every must_be entry is the solution's letter at that position and the solution has no repeated letter, the solution matches |
| Matcher.RepeatedLetterSolutionNeverMatches | reverse_wordle.c:124-131 | a solution with a letter at two positions never matches itself, under any constraints, so the converse needs distinct letters |
| Matcher.PinnedSpeedRejectsItself | reverse_wordle.c:124-131 | with solution "speed" and every position pinned to it, "speed" itself is rejected |
| SolverNodes.MustBeCleared | reverse_wordle.c:150-154 | the cleared constraints keep cannot_be and have every must_be entry empty |
| SolverNodes.SolverNode.constructor | reverse_wordle.c:41-58 | a new node holds the word and the given constraints (or none), has no children and is valid |
| SolverNodes.SolverNode.ResetMustBe | reverse_wordle.c:150-154 | the node's constraints become the cleared constraints in place; the word, the children and the footprint are unchanged |
| SolverNodes.AttachChild | reverse_wordle.c:217-226 | the new child object is appended to the child list, after the existing children; the children's trees gain the child's tree at the end; the parent's footprint grows by the child's footprint |
| SolverTree.ApplyMark | reverse_wordle.c:186-197 | the update one grid mark makes: set_green for 'g', set_yellow (with "ggggg" and the solution on row 1, the previous row and the parent's word later) for 'y', nothing otherwise; ApplyFeedback is proved to perform it in place |
| SolverTree.ApplyMarks | reverse_wordle.c:185-198 | the marks of positions 0 .. n-1 applied left to right; UnmarkedRowOnlyExcludes and ApplyFeedback give its meaning |
| SolverTree.UpdateRow | reverse_wordle.c:181-200 | the constraints a node holds after its feedback row: all marks applied, then add_to_cannot_be of the node's word; ApplyFeedback is proved to leave exactly these |
| SolverTree.UnmarkedRowOnlyExcludes | reverse_wordle.c:185-200 | a row without green or yellow marks only hands the parent's letters to add_to_cannot_be |
| SolverTree.Solve | reverse_wordle.c:167-240 | the tree solve_subtree builds for a word at a row: a leaf at num_rows, else the updated constraints and the children Grow gives; SolveShape states its shape and SolveSubtree is proved to build it |
| SolverTree.Grow | reverse_wordle.c:207-232 | the children after scanning the first n dictionary words, one solved subtree per matching word; GrowIsAccepted ties it to Accepted and ScanDictionary is proved to build it |
| SolverTree.AcceptedMembership | reverse_wordle.c:207-231 | a word gets a child exactly when it is in the dictionary and admissible under the parent's updated constraints |
| SolverTree.AcceptedMatches | reverse_wordle.c:208 | a word gets a child exactly when it is in the dictionary and match_constraints returns 1 for it |
| SolverTree.AcceptedAppend | reverse_wordle.c:207-232 | the accepted words keep dictionary order: scanning xs then ys accepts those of xs followed by those of ys |
| SolverTree.GrowIsAccepted | reverse_wordle.c:207-232 | after the first n dictionary words, the children are the accepted words among them, in order, each solved one row down from the cleared constraints |
| SolverTree.SolveShape | reverse_wordle.c:175-231 | at row == num_rows the node is a leaf with no constraints and no children. Before that it holds the updated constraints and one child per accepted word, in dictionary order. Each child holds its word and starts from the parent's cannot_be with must_be cleared |
| SolverTree.ApplyFeedback | reverse_wordle.c:181-200 | the in-place updates leave the parent's constraints equal to all marks of the row, applied left to right, followed by add_to_cannot_be of the parent's word |
| SolverTree.BuildChild | reverse_wordle.c:209-227 | a fresh, valid node for the word, whose subtree is the one solved one row down from the copied constraints with must_be cleared |
| SolverTree.ScanWord | reverse_wordle.c:208-230 | one dictionary word gets a child exactly when it matches; the child list then stands for the children after one more word |
| SolverTree.ScanDictionary | reverse_wordle.c:202-232 | the loop over the dictionary leaves the parent owning one valid, disjoint child subtree per accepted word, in dictionary order, each the solved subtree of that word; every new object is fresh |
| SolverTree.SolveSubtree | reverse_wordle.c:167-240 | the parent ends valid, keeps its word, and stands for the tree Solve gives for its word and its constraints at entry; all new objects are fresh |
| PathWalk.Paths | reverse_wordle.c:249-273 | the lines print_paths emits for a subtree: its path at level num_rows, nothing for a childless node below it, else its children's lines in sibling order; PathsOfSolve and PathsInDictionaryOrder give its meaning and PrintPaths is proved to return it |
| PathWalk.ChildPaths | reverse_wordle.c:266-271 | the lines of the first i children in sibling order; ChildPathsMembership gives its meaning and PrintChildren is proved to return it |
| PathWalk.PathShape | reverse_wordle.c:249-273 | every line has num_rows entries and starts with the ancestors' words followed by the node's word |
| PathWalk.ChildPathsMembership | reverse_wordle.c:266-271 | a line comes from the child loop exactly when it comes from one of the children walked so far |
| PathWalk.ChildlessPrintsNothing | reverse_wordle.c:262-264 | a node below level num_rows without children emits nothing |
| PathWalk.PathsSound | reverse_wordle.c:249-273 | every line of the tree built at a row is consistent with the remaining feedback rows |
| PathWalk.PathsComplete | reverse_wordle.c:249-273 | every guess sequence consistent with the remaining feedback rows is a line of the tree |
| PathWalk.PathsOfSolve | reverse_wordle.c:249-273 | a line is emitted for the tree built at a row exactly when it extends the ancestors' and node's words by a guess sequence consistent with the remaining rows |
| PathWalk.LastRowInDictionaryOrder | reverse_wordle.c:254-271 | on the last feedback row the lines are the node's path extended by each accepted word, in dictionary order |
| PathWalk.PathsInDictionaryOrder | reverse_wordle.c:207-231 | on every feedback row, the lines of a node are the lines of the subtrees of its accepted words, concatenated in dictionary order |
| PathWalk.EmptyBranch | reverse_wordle.c:262-264 | when no dictionary word matches a row, no line passes through the node |
| PathWalk.PrintPaths | reverse_wordle.c:249-273 | the walk returns exactly the pre-order lines of the node's tree; path entries below level - 1 are left as they were |
| PathWalk.PrintChildren | reverse_wordle.c:266-271 | the loop over the child list returns each child's lines, in sibling order, and keeps path[0 .. level) |

## Left out

- `create_wordle`, the whole of `wordlist.c`, `free_tree` and `free_wordle` are left out. They are file input, output and memory release. The grid and the dictionary are inputs, and the dictionary is taken in the order the list holds it.
- The bodies of `set_green`, `set_yellow` and `add_to_cannot_be` are left out, because `constraints.c` is not part of this model. They are abstract total operations on well-formed constraints. The model also assumes that they write only the constraints and never the grid rows or the node's word. The calls at lines 192 and 195 pass writable buffers, and the prototypes of these functions are not shown, so nothing in the visible source rules such writes out. The promise of `SolverTree.SolveSubtree` that the node's word is unchanged rests on this assumption.
- The `verbose` diagnostics and all `printf` output are left out. `print_paths` returns the lines it would print.
- Shared constraint storage is not modelled:
  - `create_solver_node` stores the caller's `con` address rather than a copy;
  - `solve_subtree` frees `new_con` while the child still points to it.
  In the model, each node owns its own constraint value.
- Attach order differs. The C code links a child into the sibling list before solving its subtree (lines 215-219 and 223-227); the model solves first and then appends. The resulting tree is the same, because nothing reads the parent's list during that recursion.
- SolverNodes.SolverNode.ResetMustBe: writing NUL at `must_be[i][0]` is modelled as making the entry the empty string. The characters behind that NUL are not modelled.
- C ints are modelled as booleans. A cannot_be flag counts when it is 1, and the 0/1 results of `match_constraints` and `check_solution_duplicates` are `false`/`true`.
- StringEdit.RemoveChar: a NUL `letter` is not modelled, because `strchr` would then find the terminator and the second `strlen` would read past it.
- SolverTree.SolveSubtree requires a node with no children and an owning footprint of its own, as every call in the source passes.
- PathWalk.PrintPaths: the caller that allocates `path` and starts the walk is not part of this model. The model takes any level from 1 up to num_rows, with a path array of at least num_rows entries.
- SolverNodes.SolverNode.constructor requires a word of at most five characters, so that the `strcpy` into the node's buffer stays in bounds.
