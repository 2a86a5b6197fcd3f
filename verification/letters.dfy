/** Letters and words as the game stores them: every word is five
    characters long, and typed letters are kept in lower case. */
module Letters {

  /** Number of letters in a word and in one row of the guess grid. */
  const WordLength: nat := 5

  predicate IsUpper(c: char) {
    'A' <= c <= 'Z'
  }

  predicate IsLower(c: char) {
    'a' <= c <= 'z'
  }

  /** A single ASCII letter, the only key text the keyboard handler forwards. */
  predicate IsAsciiLetter(c: char) {
    IsLower(c) || IsUpper(c)
  }

  /** `toLowerCase` restricted to ASCII: upper-case letters move down by 32,
      everything else is left alone. */
  function ToLower(c: char): (r: char)
    ensures IsAsciiLetter(c) ==> IsLower(r)
    ensures IsUpper(c) ==> r as int == c as int + 32
    ensures !IsUpper(c) ==> r == c
  {
    if IsUpper(c) then (c as int + 32) as char else c
  }

  /** `toUpperCase` restricted to ASCII, used for the word shown after a loss. */
  function ToUpper(c: char): (r: char)
    ensures IsAsciiLetter(c) ==> IsUpper(r)
    ensures IsLower(c) ==> r as int + 32 == c as int
    ensures !IsLower(c) ==> r == c
  {
    if IsLower(c) then (c as int - 32) as char else c
  }

  /** The target word as shown after a loss: each lower-case letter is
      replaced by the upper-case letter that lower-cases back to it. */
  function ToUpperWord(w: string): (r: string)
    ensures |r| == |w|
    ensures forall i :: 0 <= i < |w| && IsLower(w[i]) ==> IsUpper(r[i]) && ToLower(r[i]) == w[i]
    ensures forall i :: 0 <= i < |w| && !IsLower(w[i]) ==> r[i] == w[i]
  {
    seq(|w|, i requires 0 <= i < |w| => ToUpper(w[i]))
  }
}
