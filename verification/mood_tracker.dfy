/**
 * The mood tracker's week of entries: choosing a mood records it under
 * today's short weekday name, replacing the first entry with that name or
 * appending a new one, and notifies the parent with the choice. The weekday
 * name of "today" is a parameter; the average is kept as a sum over a count
 * because the display rounds it to one decimal.
 */
module MoodTracker {
  /** One point of the chart: the weekday key, the mood score and its emoji. */
  datatype MoodEntry = MoodEntry(date: string, mood: int, emoji: string)

  datatype MoodType = Energized | Happy | Neutral | Sad | Stressed

  /** The arguments of the `onMoodChange` call. */
  datatype Notice = Notice(mood: int, emoji: string, moodType: MoodType)

  /** The entries after a choice, and what the parent is told. */
  datatype Selection = Selection(data: seq<MoodEntry>, notice: Notice)

  /** `findIndex` on the date key: the first position holding `key`, or -1. */
  function FindIndex(data: seq<MoodEntry>, key: string): (r: int)
    ensures -1 <= r < |data|
    ensures r >= 0 ==> data[r].date == key
    ensures forall j :: 0 <= j < |data| && (r == -1 || j < r) ==> data[j].date != key
    decreases |data|
  {
    if |data| == 0 then -1
    else if data[|data| - 1].date == key && FindIndex(data[..|data| - 1], key) == -1 then |data| - 1
    else FindIndex(data[..|data| - 1], key)
  }

  /**
   * `handleMoodSelect`: when an entry for `today` exists, the first one is
   * replaced in place; otherwise the new entry is appended. Every other
   * entry stays where it was, and the parent hears the same choice on both
   * paths.
   */
  function SelectMood(data: seq<MoodEntry>, today: string, mood: int, emoji: string, moodType: MoodType)
    : (r: Selection)
    ensures r.notice == Notice(mood, emoji, moodType)
    ensures var k := FindIndex(data, today);
      k >= 0 ==> (|r.data| == |data| && r.data[k] == MoodEntry(today, mood, emoji)
                  && forall j :: 0 <= j < |data| && j != k ==> r.data[j] == data[j])
    ensures var k := FindIndex(data, today);
      k == -1 ==> (|r.data| == |data| + 1 && r.data[..|data|] == data
                   && r.data[|data|] == MoodEntry(today, mood, emoji))
  {
    var entry := MoodEntry(today, mood, emoji);
    var k := FindIndex(data, today);
    var newData := if k >= 0 then data[k := entry] else data + [entry];
    Selection(newData, Notice(mood, emoji, moodType))
  }

  /** After a choice, today's key is present and its first entry holds the chosen mood. */
  lemma SelectMoodRecorded(data: seq<MoodEntry>, today: string, mood: int, emoji: string, moodType: MoodType)
    ensures var r := SelectMood(data, today, mood, emoji, moodType).data;
      var k := FindIndex(r, today);
      k >= 0 && r[k] == MoodEntry(today, mood, emoji)
  {
    var r := SelectMood(data, today, mood, emoji, moodType).data;
    var k := FindIndex(data, today);
    if k >= 0 {
      FindIndexUnique(r, today, k);
    } else {
      FindIndexUnique(r, today, |data|);
    }
  }

  /** A position holding `key` with no earlier occurrence is what `FindIndex` returns. */
  lemma {:induction false} FindIndexUnique(data: seq<MoodEntry>, key: string, k: int)
    requires 0 <= k < |data| && data[k].date == key
    requires forall j :: 0 <= j < k ==> data[j].date != key
    ensures FindIndex(data, key) == k
    decreases |data|
  {
    var front := data[..|data| - 1];
    if k < |data| - 1 {
      FindIndexUnique(front, key, k);
    }
  }

  /** Choosing again on the same day only overwrites: the number of entries stays put. */
  lemma SelectMoodTwice(data: seq<MoodEntry>, today: string, m1: int, e1: string, t1: MoodType,
                        m2: int, e2: string, t2: MoodType)
    ensures var once := SelectMood(data, today, m1, e1, t1).data;
      var twice := SelectMood(once, today, m2, e2, t2).data;
      |twice| == |once| && twice == SelectMood(data, today, m2, e2, t2).data
  {
    var once := SelectMood(data, today, m1, e1, t1).data;
    var k := FindIndex(data, today);
    SelectMoodRecorded(data, today, m1, e1, t1);
    if k >= 0 {
      FindIndexUnique(once, today, k);
    } else {
      FindIndexUnique(once, today, |data|);
    }
  }

  /** The sum of the mood scores. */
  function MoodSum(data: seq<MoodEntry>): int
    decreases |data|
  {
    if |data| == 0 then 0 else MoodSum(data[..|data| - 1]) + data[|data| - 1].mood
  }

  /** The chart's average: nothing for an empty chart (shown as "0"), else sum over count. */
  datatype Average = NoData | Ratio(sum: int, count: nat)

  function AverageMood(data: seq<MoodEntry>): (r: Average)
    ensures r.NoData? <==> |data| == 0
    ensures r.Ratio? ==> r.count == |data| && r.count > 0 && r.sum == MoodSum(data)
  {
    if |data| > 0 then Ratio(MoodSum(data), |data|) else NoData
  }

  /** Replacing one score shifts the sum by the difference. */
  lemma {:induction false} MoodSumUpdate(data: seq<MoodEntry>, k: int, e: MoodEntry)
    requires 0 <= k < |data|
    ensures MoodSum(data[k := e]) == MoodSum(data) - data[k].mood + e.mood
    decreases |data|
  {
    var n := |data|;
    var d := data[k := e];
    assert d[..n - 1] == if k == n - 1 then data[..n - 1] else data[..n - 1][k := e];
    if k < n - 1 {
      MoodSumUpdate(data[..n - 1], k, e);
    }
  }

  /**
   * How a choice moves the average: replacing today's entry changes the sum
   * by the difference of the scores over the same count; appending adds the
   * score and one to the count.
   */
  lemma SelectMoodAverage(data: seq<MoodEntry>, today: string, mood: int, emoji: string, moodType: MoodType)
    ensures var r := AverageMood(SelectMood(data, today, mood, emoji, moodType).data);
      var k := FindIndex(data, today);
      r.Ratio?
      && (k >= 0 ==> r == Ratio(MoodSum(data) - data[k].mood + mood, |data|))
      && (k == -1 ==> r == Ratio(MoodSum(data) + mood, |data| + 1))
  {
    var r := SelectMood(data, today, mood, emoji, moodType).data;
    var k := FindIndex(data, today);
    if k >= 0 {
      MoodSumUpdate(data, k, MoodEntry(today, mood, emoji));
    } else {
      assert r[..|r| - 1] == data;
    }
  }
}
