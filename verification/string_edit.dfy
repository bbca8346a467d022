/** remove_char of reverse_wordle.c: an in-place edit of a NUL-terminated
    character buffer, with the C library's strlen and strchr it and
    match_constraints rely on. */
module StringEdit {
  import opened WordleTypes

  /** strlen: the index of the first NUL of a buffer that holds one. */
  function StrLen(buf: seq<char>): (n: nat)
    requires '\0' in buf
    ensures n < |buf| && buf[n] == '\0' && NulFree(buf[..n])
  {
    if buf[0] == '\0' then 0
    else
      assert '\0' in buf[1..];
      var m := StrLen(buf[1..]);
      assert buf[..m + 1] == [buf[0]] + buf[1..][..m];
      m + 1
  }

  /** Any NUL-free prefix followed by a NUL ends where strlen says. */
  lemma StrLenAt(buf: seq<char>, n: nat)
    requires n < |buf| && buf[n] == '\0' && NulFree(buf[..n])
    ensures StrLen(buf) == n
  {
  }

  /** The C string a buffer holds: the characters before its first NUL. */
  function CString(buf: seq<char>): string
    requires '\0' in buf
  {
    buf[..StrLen(buf)]
  }

  /** strchr as a test: does strchr(s, c) return non-NULL? The
      terminator itself is found when c is NUL. */
  function Strchr(s: string, c: char): bool
  {
    if s == [] then c == '\0'
    else s[0] == c || Strchr(s[1..], c)
  }

  /** strchr finds c exactly when c occurs in the string or is the NUL. */
  lemma {:induction false} StrchrSpec(s: string, c: char)
    ensures Strchr(s, c) <==> c in s || c == '\0'
  {
    if s != [] {
      StrchrSpec(s[1..], c);
      assert s == [s[0]] + s[1..];
    }
  }

  /** The index of the first occurrence of c in s, if any: where strchr's
      result points. */
  function FirstIndex(s: string, c: char): (r: Option<nat>)
    ensures r.Some? ==> r.value < |s| && s[r.value] == c && c !in s[..r.value]
    ensures r.None? ==> c !in s
  {
    if s == [] then None
    else if s[0] == c then Some(0)
    else
      match FirstIndex(s[1..], c)
      case None => None
      case Some(p) =>
        assert s[..p + 1] == [s[0]] + s[1..][..p];
        Some(p + 1)
  }

  /** The first occurrence is the only index before which c does not occur. */
  lemma FirstIndexUnique(s: string, c: char, p: nat)
    requires p < |s| && s[p] == c && c !in s[..p]
    ensures FirstIndex(s, c) == Some(p)
  {
  }

  /** remove_char on the string value: the first occurrence of `letter` is
      overwritten by the last character and the string shortened by one. */
  function CharRemoved(s: string, letter: char): string
  {
    match FirstIndex(s, letter)
    case None => s
    case Some(p) => s[p := s[|s| - 1]][..|s| - 1]
  }

  /** A letter that is not in the word leaves it unchanged. */
  lemma CharRemovedAbsent(s: string, letter: char)
    requires letter !in s
    ensures CharRemoved(s, letter) == s
  {
  }

  /** With the first occurrence at p: one character shorter, position p
      holds the former last character (unless p was the last position), and
      every other position is unchanged. */
  lemma CharRemovedPresent(s: string, letter: char, p: nat)
    requires p < |s| && s[p] == letter && letter !in s[..p]
    ensures |CharRemoved(s, letter)| == |s| - 1
    ensures p < |s| - 1 ==> CharRemoved(s, letter)[p] == s[|s| - 1]
    ensures forall k :: 0 <= k < |s| - 1 && k != p ==> CharRemoved(s, letter)[k] == s[k]
  {
    FirstIndexUnique(s, letter, p);
  }

  /** Removing takes exactly one copy of the letter out of the word. */
  lemma CharRemovedMultiset(s: string, letter: char)
    requires letter in s
    ensures multiset(CharRemoved(s, letter)) == multiset(s) - multiset{letter}
  {
    var p := FirstIndex(s, letter).value;
    CharRemovedPresent(s, letter, p);
    if p == |s| - 1 {
      assert CharRemoved(s, letter) == s[..|s| - 1];
      MultisetDropLast(s);
    } else {
      assert CharRemoved(s, letter) == s[..p] + [s[|s| - 1]] + s[p + 1..|s| - 1];
      MultisetMoveLast(s, p);
    }
  }

  /** Dropping the last character removes one copy of it. */
  lemma MultisetDropLast(s: string)
    requires |s| > 0
    ensures multiset(s[..|s| - 1]) == multiset(s) - multiset{s[|s| - 1]}
  {
    assert s == s[..|s| - 1] + [s[|s| - 1]];
  }

  /** Overwriting position p by the last character and dropping the end
      removes one copy of s[p]. */
  lemma MultisetMoveLast(s: string, p: nat)
    requires p < |s| - 1
    ensures multiset(s[..p] + [s[|s| - 1]] + s[p + 1..|s| - 1]) == multiset(s) - multiset{s[p]}
  {
    var a, mid, z := s[..p], s[p + 1..|s| - 1], s[|s| - 1];
    assert s == a + [s[p]] + mid + [z];
    assert multiset(a + [z] + mid) == multiset(a) + multiset{z} + multiset(mid);
    assert multiset(s) == multiset(a) + multiset{s[p]} + multiset(mid) + multiset{z};
  }

  /** remove_char: edits the buffer in place. Only a non-NUL letter is
      modelled: for NUL, strchr finds the terminator and the second strlen
      runs past the overwritten terminator. */
  method RemoveChar(word: array<char>, letter: char)
    requires '\0' in word[..] && letter != '\0'
    modifies word
    ensures '\0' in word[..]
    ensures CString(word[..]) == CharRemoved(old(CString(word[..])), letter)
    ensures letter !in old(CString(word[..])) ==> word[..] == old(word[..])
    ensures forall k :: old(StrLen(word[..])) <= k < word.Length ==> word[k] == old(word[k])
  {
    ghost var s := CString(word[..]);
    var p := FirstIndex(CString(word[..]), letter);
    if p.Some? {
      var n := StrLen(word[..]);
      word[p.value] := word[n - 1];
      assert word[..n] == s[p.value := s[n - 1]];
      StrLenAt(word[..], n);
      // strlen is evaluated again after the first write
      var n2 := StrLen(word[..]);
      word[n2 - 1] := '\0';
      assert word[..n - 1] == s[p.value := s[n - 1]][..n - 1];
      StrLenAt(word[..], n - 1);
    }
  }
}
