/** Shared data of the reverse-Wordle search: word and alphabet sizes, the
    puzzle grid and the per-branch constraint set. */
module WordleTypes {

  /** Letters per word (WORDLEN in the C headers). */
  const WORDLEN: nat := 5
  /** Size of the lower-case alphabet (ALPHABET_SIZE). */
  const ALPHABET_SIZE: nat := 26

  datatype Option<T> = None | Some(value: T)

  predicate IsLetter(c: char)
  {
    'a' <= c <= 'z'
  }

  /** A dictionary word or a solution: exactly WORDLEN lower-case letters. */
  predicate IsWord(s: string)
  {
    |s| == WORDLEN && forall k :: 0 <= k < |s| ==> IsLetter(s[k])
  }

  /** The text of a C string: no NUL character inside it. */
  predicate NulFree(s: string)
  {
    forall k :: 0 <= k < |s| ==> s[k] != '\0'
  }

  /** The letter that flag `i` of the cannot_be array stands for ('a' + i). */
  function LetterAt(i: nat): (c: char)
    requires i < ALPHABET_SIZE
    ensures IsLetter(c) && c as int - 'a' as int == i
  {
    ('a' as int + i) as char
  }

  /** The index of a lower-case letter in the cannot_be array. */
  function LetterIndex(c: char): (i: nat)
    requires IsLetter(c)
    ensures i < ALPHABET_SIZE && LetterAt(i) == c
  {
    c as int - 'a' as int
  }

  /** The puzzle: row 0 is the solution, rows 1.. are feedback rows whose
      characters are 'g' (green), 'y' (yellow) or anything else (grey). */
  datatype Wordle = Wordle(grid: seq<string>)
  {
    function NumRows(): nat
    {
      |grid|
    }

    function Solution(): string
      requires |grid| > 0
    {
      grid[0]
    }

    /** What the loader guarantees: a solution row of letters and every
        row exactly WORDLEN characters long. */
    predicate WellFormed()
    {
      |grid| > 0 && IsWord(grid[0]) &&
      forall r :: 0 <= r < |grid| ==> |grid[r]| == WORDLEN
    }
  }

  /** struct constraints: must_be[i] is the string of letters allowed at
      position i (empty: no positive knowledge), cannot_be[c] flags letters
      excluded from the open positions. */
  datatype Constraints = Constraints(mustBe: seq<string>, cannotBe: seq<bool>)
  {
    /** The fixed shape of the C struct: WORDLEN strings, ALPHABET_SIZE flags. */
    predicate WellFormed()
    {
      |mustBe| == WORDLEN && |cannotBe| == ALPHABET_SIZE &&
      forall i :: 0 <= i < |mustBe| ==> NulFree(mustBe[i])
    }
  }

  /** Constraint values of the struct's shape; every operation keeps the shape. */
  type ConstraintSet = c: Constraints | c.WellFormed()
    witness Constraints(["", "", "", "", ""], seq(26, _ => false))
}
