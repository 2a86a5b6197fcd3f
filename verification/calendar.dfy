/** The daily word: the number of whole days elapsed since the start date
    picks the target word out of the list of target words. */
module Calendar {

  import opened Options

  /** Milliseconds in a day: 1000 * 60 * 60 * 24. */
  const MsPerDay: int := 86_400_000

  /** Whole days in `elapsedMs` milliseconds, rounded down (also for an
      instant before the start date). */
  function DayIndex(elapsedMs: int): (d: int)
    ensures d * MsPerDay <= elapsedMs < (d + 1) * MsPerDay
    ensures elapsedMs >= 0 ==> d >= 0
  {
    elapsedMs / MsPerDay
  }

  /** The target word of the day, or nothing when the day index falls outside
      the list (an `undefined` entry in script.js). */
  function TargetWord(targetWords: seq<string>, elapsedMs: int): (r: Option<string>)
    ensures r.Some? <==> 0 <= DayIndex(elapsedMs) < |targetWords|
    ensures r.Some? ==> r.value == targetWords[DayIndex(elapsedMs)]
  {
    var d := DayIndex(elapsedMs);
    if 0 <= d < |targetWords| then Some(targetWords[d]) else None
  }

  /** Two instants within the same day get the same index, hence the same word. */
  lemma SameDaySameWord(targetWords: seq<string>, day: int, a: int, b: int)
    requires day * MsPerDay <= a < (day + 1) * MsPerDay
    requires day * MsPerDay <= b < (day + 1) * MsPerDay
    ensures DayIndex(a) == day && DayIndex(b) == day
    ensures TargetWord(targetWords, a) == TargetWord(targetWords, b)
  {
    FloorUnique(a, day);
    FloorUnique(b, day);
  }

  /** The day index is the only integer bracketing the elapsed time. */
  lemma FloorUnique(ms: int, day: int)
    requires day * MsPerDay <= ms < (day + 1) * MsPerDay
    ensures DayIndex(ms) == day
  {
  }

  /** A day later, the index is one higher. */
  lemma NextDay(ms: int)
    ensures DayIndex(ms + MsPerDay) == DayIndex(ms) + 1
  {
    FloorUnique(ms + MsPerDay, DayIndex(ms) + 1);
  }
}
