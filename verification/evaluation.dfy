/** Per-letter feedback for a submitted row (the body of the flip
    handler in script.js). The rule is the naive one: a letter that is not
    in its own position is reported as present elsewhere whenever the
    target contains it at all, however many times it was guessed. */
module Evaluation {

  datatype Status = Correct | WrongLocation | Wrong

  /** Status of `letter` typed at position `index` of a row. A position past
      the end of the target reads as `undefined` in script.js, which never
      equals a letter. */
  function Classify(letter: char, index: nat, target: string): Status {
    if index < |target| && target[index] == letter then Correct
    else if letter in target then WrongLocation
    else Wrong
  }

  /** The statuses of a whole row, one per typed letter. */
  function Evaluate(guess: string, target: string): (r: seq<Status>)
    ensures |r| == |guess|
    ensures forall i :: 0 <= i < |guess| ==>
      (r[i] == Correct <==> i < |target| && guess[i] == target[i])
    ensures forall i :: 0 <= i < |guess| ==>
      (r[i] == WrongLocation <==> !(i < |target| && guess[i] == target[i]) && guess[i] in target)
    ensures forall i :: 0 <= i < |guess| ==>
      (r[i] == Wrong <==> guess[i] !in target)
  {
    seq(|guess|, i requires 0 <= i < |guess| => Classify(guess[i], i, target))
  }

  /** Guessing the target itself marks every position correct. */
  lemma EvaluateSelf(w: string)
    ensures forall i :: 0 <= i < |w| ==> Evaluate(w, w)[i] == Correct
  {
  }

  /** A guess sharing no letter with the target is wrong everywhere. */
  lemma EvaluateDisjoint(guess: string, target: string)
    requires forall i :: 0 <= i < |guess| ==> guess[i] !in target
    ensures forall i :: 0 <= i < |guess| ==> Evaluate(guess, target)[i] == Wrong
  {
  }

  /** A letter the target contains is never reported wrong, even when the
      guess repeats it more often than the target does. */
  lemma PresentNeverWrong(guess: string, target: string, i: nat)
    requires i < |guess| && guess[i] in target
    ensures Evaluate(guess, target)[i] != Wrong
    ensures Evaluate(guess, target)[i] == Correct || Evaluate(guess, target)[i] == WrongLocation
  {
  }

  /** "trace" against "crate": r, a and e sit in the same places, t and c
      are swapped. */
  lemma TraceAgainstCrate()
    ensures Evaluate("trace", "crate") == [WrongLocation, Correct, Correct, WrongLocation, Correct]
  {
  }

  /** The target "crate" has one `e`; the guess "geese" has three. The
      one in place is correct and the other two are both reported as
      present elsewhere, which a frequency-aware rule would not do. */
  lemma RepeatedLetterStaysPresent()
    ensures Evaluate("geese", "crate") == [Wrong, WrongLocation, WrongLocation, Wrong, Correct]
  {
  }

  /** The examples of a full match and of no shared letters. */
  lemma CrateExamples()
    ensures Evaluate("crate", "crate") == [Correct, Correct, Correct, Correct, Correct]
    ensures Evaluate("zzzzz", "crate") == [Wrong, Wrong, Wrong, Wrong, Wrong]
  {
  }
}
