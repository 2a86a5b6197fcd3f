/** The on-screen keyboard's colouring. Each key collects, as CSS
    classes, every status its letter has received in a revealed row; a
    class once added is never removed. */
module Keyboard {

  import opened Evaluation

  /** Statuses recorded per key; a letter with no entry has none yet. */
  type Keys = map<char, set<Status>>

  function StatusesOf(keys: Keys, c: char): set<Status> {
    if c in keys then keys[c] else {}
  }

  /** Adds, for every position of a revealed row, that position's status to
      the key of the letter typed there. */
  function Record(keys: Keys, guess: string, statuses: seq<Status>): (r: Keys)
    requires |statuses| == |guess|
    ensures forall c :: StatusesOf(keys, c) <= StatusesOf(r, c)
    ensures forall i :: 0 <= i < |guess| ==> statuses[i] in StatusesOf(r, guess[i])
    ensures forall c, s :: s in StatusesOf(r, c) ==>
      s in StatusesOf(keys, c) || exists i :: 0 <= i < |guess| && guess[i] == c && statuses[i] == s
    decreases |guess|
  {
    if |guess| == 0 then keys
    else
      var rest := Record(keys, guess[..|guess| - 1], statuses[..|statuses| - 1]);
      var c := guess[|guess| - 1];
      rest[c := StatusesOf(rest, c) + {statuses[|statuses| - 1]}]
  }

  /** Keys whose letter is not in the row keep exactly the statuses they had. */
  lemma RecordLeavesOtherKeys(keys: Keys, guess: string, statuses: seq<Status>, c: char)
    requires |statuses| == |guess| && c !in guess
    ensures StatusesOf(Record(keys, guess, statuses), c) == StatusesOf(keys, c)
  {
  }
}
