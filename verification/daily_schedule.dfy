/**
 * The day's schedule: which timeline entries belong to the hovered task, the
 * order the entries are listed in, their grouping into morning, afternoon
 * and evening, and the completion counts behind the progress banner.
 */
module DailySchedule {
  import opened Base
  import opened Strings
  import opened Ordering
  import opened TaskModel
  import opened Clock

  // ---------------------------------------------------------------------
  // Hover highlighting
  // ---------------------------------------------------------------------

  /** The owning task's id as recovered from an entry id: the text before its first '-'. */
  function TaskIdOf(s: Subtask): (r: string)
    ensures '-' !in r
    ensures IsPrefix(r, s.id)
    ensures |r| == |s.id| || s.id[|r|] == '-'
  {
    FirstPiece(s.id, '-')
  }

  /** An id written as `<task id>-<suffix>` gives back the task id when that id has no '-'. */
  lemma TaskIdOfComposite(s: Subtask, taskId: string, suffix: string)
    requires s.id == taskId + "-" + suffix && '-' !in taskId
    ensures TaskIdOf(s) == taskId
  {
    assert s.id == taskId + ['-'] + suffix;
    FirstPieceOf(taskId, '-', suffix);
  }

  /** Every standalone entry is attributed to the task id "standalone". */
  lemma TaskIdOfStandaloneEntry(s: Subtask, taskId: string)
    requires s.id == StandaloneId(taskId)
    ensures TaskIdOf(s) == "standalone"
  {
    TaskIdOfComposite(s, "standalone", taskId);
  }

  predicate Hovering(hovered: Option<string>) {
    hovered.Some? && hovered.value != ""
  }

  /**
   * `isHighlighted` as written: a task is hovered (a non-empty id) and the
   * entry's recovered task id is that id. A hovered id containing '-' can
   * therefore never highlight anything.
   */
  function IsHighlightedAsWritten(hovered: Option<string>, s: Subtask): (r: bool)
    ensures !Hovering(hovered) ==> !r
    ensures r ==> '-' !in hovered.value
  {
    Hovering(hovered) && TaskIdOf(s) == hovered.value
  }

  /**
   * A task created by the Add Task dialog has id `task-<stamp>`, and a
   * subtask the Add Scheduled Task dialog attaches to it has id
   * `task-<stamp>-<later>`; hovering the task does not highlight that
   * subtask, while the corrected check does.
   */
  lemma AsWrittenMissesDialogSubtask(s: Subtask, stamp: string, later: string)
    requires s.id == "task-" + stamp + "-" + later
    ensures !IsHighlightedAsWritten(Some("task-" + stamp), s)
    ensures IsHighlighted(Some("task-" + stamp), s)
  {
    var rest := stamp + "-" + later;
    assert s.id == "task" + "-" + rest;
    TaskIdOfComposite(s, "task", rest);
    HighlightsOwnEntry(s, "task-" + stamp, later);
  }

  /**
   * An entry is highlighted when a task is hovered and the entry's id is that
   * task's id followed by '-': the entry ids the dialogs and the timeline
   * build for a task's subtasks.
   */
  function IsHighlighted(hovered: Option<string>, s: Subtask): (r: bool)
    ensures !Hovering(hovered) ==> !r
    ensures r ==> (|hovered.value| < |s.id| && s.id[..|hovered.value|] == hovered.value
                   && s.id[|hovered.value|] == '-')
  {
    Hovering(hovered) && IsPrefix(hovered.value + "-", s.id)
  }

  /** Hovering a task highlights every entry whose id is the task's id, '-', and anything. */
  lemma HighlightsOwnEntry(s: Subtask, taskId: string, suffix: string)
    requires taskId != "" && s.id == taskId + "-" + suffix
    ensures IsHighlighted(Some(taskId), s)
  {
    assert s.id[..|taskId + "-"|] == taskId + "-";
  }

  /** Conversely, a highlighted entry's id is the hovered id, '-', and the rest of the entry id. */
  lemma HighlightedIsOwnEntry(s: Subtask, taskId: string)
    requires IsHighlighted(Some(taskId), s)
    ensures taskId != "" && s.id == taskId + "-" + s.id[|taskId| + 1..]
  {
    assert s.id[..|taskId| + 1] == taskId + "-";
    assert s.id == s.id[..|taskId| + 1] + s.id[|taskId| + 1..];
  }

  /**
   * For the ids the bundled data uses (a task id without '-'), the corrected
   * check agrees with the written one on every entry whose id is not the task
   * id itself.
   */
  lemma CorrectionAgreesOnPlainIds(s: Subtask, taskId: string)
    requires '-' !in taskId && s.id != taskId
    ensures IsHighlighted(Some(taskId), s) == IsHighlightedAsWritten(Some(taskId), s)
  {
    if IsHighlighted(Some(taskId), s) {
      HighlightedIsOwnEntry(s, taskId);
      TaskIdOfComposite(s, taskId, s.id[|taskId| + 1..]);
    }
    if IsHighlightedAsWritten(Some(taskId), s) {
      assert s.id[|taskId|] == '-';
      assert s.id[..|taskId| + 1] == taskId + "-";
    }
  }

  /**
   * A standalone task's own timeline entry is `standalone-<id>`, which does
   * not begin with the task id and '-', so the corrected check leaves it
   * unhighlighted (for any id not itself beginning with "standalone").
   */
  lemma StandaloneEntryNotHighlighted(id: string, s: Subtask)
    requires s.id == StandaloneId(id) && !IsPrefix("standalone", id)
    ensures !IsHighlighted(Some(id), s)
  {
    var e := StandaloneId(id);
    if IsPrefix(id + "-", e) {
      if |id| >= 10 {
        assert id[..10] == e[..10];
      } else {
        assert e[|id|] == (id + "-")[|id|];
        assert e[|id|] == "standalone-"[|id|];
      }
    }
  }

  /**
   * An imported task has id `gcal-<idBase>` and its one subtask `<idBase>-0`,
   * which is shorter than the task id and '-', so the corrected check leaves
   * it unhighlighted.
   */
  lemma ImportedSubtaskNotHighlighted(idBase: string, s: Subtask)
    requires s.id == idBase + "-0"
    ensures !IsHighlighted(Some("gcal-" + idBase), s)
  {
    assert |"gcal-" + idBase + "-"| > |s.id|;
  }

  // ---------------------------------------------------------------------
  // Listing order
  // ---------------------------------------------------------------------

  /** The highlight test a listing uses: the one the component writes, or the corrected one. */
  datatype HighlightRule = AsWritten | Corrected

  function Highlights(rule: HighlightRule, hovered: Option<string>, s: Subtask): (r: bool)
    ensures !Hovering(hovered) ==> !r
  {
    match rule
    case AsWritten => IsHighlightedAsWritten(hovered, s)
    case Corrected => IsHighlighted(hovered, s)
  }

  /** The comparator as written, on what it reads of two entries. */
  function CompareEntries(ac: bool, bc: bool, hovering: bool, ah: bool, bh: bool, at: string, bt: string): int {
    if ac != bc then (if ac then 1 else -1)
    else if hovering && ah && !bh then -1
    else if hovering && !ah && bh then 1
    else CompareText(at, bt)
  }

  /** Completion, then (while hovering) highlight, then the time text. */
  function ScheduleCompare(rule: HighlightRule, hovered: Option<string>, a: Subtask, b: Subtask): int {
    CompareEntries(a.completed, b.completed, Hovering(hovered),
                   Highlights(rule, hovered, a), Highlights(rule, hovered, b), a.scheduledTime, b.scheduledTime)
  }

  function EntryKey(completed: bool, highlighted: bool, time: string): Key {
    [if completed then 1 else 0, if highlighted then 0 else 1] + TextKey(time)
  }

  /** Open before done, highlighted before not, then by the time text's characters. */
  function ScheduleKey(rule: HighlightRule, hovered: Option<string>, s: Subtask): Key {
    EntryKey(s.completed, Highlights(rule, hovered, s), s.scheduledTime)
  }

  function ScheduleOrder(rule: HighlightRule, hovered: Option<string>): Subtask -> Key {
    s => ScheduleKey(rule, hovered, s)
  }

  lemma CompareEntriesIsKeyOrder(ac: bool, bc: bool, hovering: bool, ah: bool, bh: bool, at: string, bt: string)
    requires !hovering ==> !ah && !bh
    ensures CompareEntries(ac, bc, hovering, ah, bh, at, bt) <= 0 <==> LexLe(EntryKey(ac, ah, at), EntryKey(bc, bh, bt))
  {
    var ca, cb := if ac then 1 else 0, if bc then 1 else 0;
    var ha, hb := if ah then 0 else 1, if bh then 0 else 1;
    var ta, tb := TextKey(at), TextKey(bt);
    assert EntryKey(ac, ah, at) == [ca] + ([ha] + ta);
    assert EntryKey(bc, bh, bt) == [cb] + ([hb] + tb);
    LexLeCons(ca, [ha] + ta, cb, [hb] + tb);
    LexLeCons(ha, ta, hb, tb);
    CompareTextIsKeyOrder(at, bt);
  }

  /**
   * Under either highlight rule, the comparator lets `a` stay ahead of `b`
   * exactly when `a`'s key is not above `b`'s.
   */
  lemma ScheduleCompareIsKeyOrder(rule: HighlightRule, hovered: Option<string>, a: Subtask, b: Subtask)
    ensures ScheduleCompare(rule, hovered, a, b) <= 0
        <==> LexLe(ScheduleKey(rule, hovered, a), ScheduleKey(rule, hovered, b))
  {
    CompareEntriesIsKeyOrder(a.completed, b.completed, Hovering(hovered),
                             Highlights(rule, hovered, a), Highlights(rule, hovered, b),
                             a.scheduledTime, b.scheduledTime);
  }

  /** The listed order of the day's entries; the component lists them with `AsWritten`. */
  function SortedSubtasks(rule: HighlightRule, hovered: Option<string>, subs: seq<Subtask>): seq<Subtask> {
    SortBy(subs, ScheduleOrder(rule, hovered))
  }

  /**
   * Under either highlight rule the listed order is a permutation of the
   * entries; every open entry comes before every completed one, and among
   * entries in the same state a highlighted one comes before one that is not.
   */
  lemma SortedSubtasksOrder(rule: HighlightRule, hovered: Option<string>, subs: seq<Subtask>)
    ensures multiset(SortedSubtasks(rule, hovered, subs)) == multiset(subs)
    ensures |SortedSubtasks(rule, hovered, subs)| == |subs|
    ensures SortedBy(SortedSubtasks(rule, hovered, subs), ScheduleOrder(rule, hovered))
    ensures forall i, j :: 0 <= i < j < |subs| && SortedSubtasks(rule, hovered, subs)[i].completed ==>
      SortedSubtasks(rule, hovered, subs)[j].completed
    ensures forall i, j ::
      (0 <= i < j < |subs|
       && SortedSubtasks(rule, hovered, subs)[i].completed == SortedSubtasks(rule, hovered, subs)[j].completed
       && Highlights(rule, hovered, SortedSubtasks(rule, hovered, subs)[j])) ==>
      Highlights(rule, hovered, SortedSubtasks(rule, hovered, subs)[i])
  {
    var r := SortedSubtasks(rule, hovered, subs);
    var key := ScheduleOrder(rule, hovered);
    SortBySortedPermutation(subs, key);
    forall i, j | 0 <= i < j < |subs|
      ensures r[i].completed ==> r[j].completed
      ensures r[i].completed == r[j].completed && Highlights(rule, hovered, r[j]) ==> Highlights(rule, hovered, r[i])
    {
      var ki, kj := key(r[i]), key(r[j]);
      assert LexLe(ki, kj);
      LexLeHead(ki, kj);
      if r[i].completed == r[j].completed {
        assert ki == [ki[0]] + ki[1..] && kj == [ki[0]] + kj[1..];
        LexLeCons(ki[0], ki[1..], ki[0], kj[1..]);
        LexLeHead(ki[1..], kj[1..]);
      }
    }
  }

  /** Under either rule, entries in the same state and highlight keep their relative order when their times are equal. */
  lemma SortedSubtasksStable(rule: HighlightRule, hovered: Option<string>, subs: seq<Subtask>, k: Key)
    ensures KeyClass(SortedSubtasks(rule, hovered, subs), ScheduleOrder(rule, hovered), k)
         == KeyClass(subs, ScheduleOrder(rule, hovered), k)
  {
    SortByStable(subs, ScheduleOrder(rule, hovered), k);
  }

  /**
   * What the highlight defect does to the listing. Hover a dialog-created
   * task `task-<stamp>`; take one of its dialog subtasks `b`, and any other
   * open entry `a` scheduled no later. The component lists `a` first, by
   * time; the corrected rule lifts `b` above it.
   */
  lemma ListingMissesHoveredSubtask(stamp: string, later: string, a: Subtask, b: Subtask)
    requires b.id == "task-" + stamp + "-" + later
    requires !a.completed && !b.completed && !IsHighlighted(Some("task-" + stamp), a)
    requires CompareText(a.scheduledTime, b.scheduledTime) <= 0
    ensures SortedSubtasks(AsWritten, Some("task-" + stamp), [a, b]) == [a, b]
    ensures SortedSubtasks(Corrected, Some("task-" + stamp), [a, b]) == [b, a]
  {
    var t := "task-" + stamp;
    assert '-' in t by {
      assert t[4] == '-';
    }
    AsWrittenMissesDialogSubtask(b, stamp, later);
    ListingAsWritten(t, a, b);
    ListingCorrected(t, a, b);
  }

  /** With a hovered id containing '-', the component lists two open entries by time alone. */
  lemma ListingAsWritten(t: string, a: Subtask, b: Subtask)
    requires '-' in t && !a.completed && !b.completed
    requires CompareText(a.scheduledTime, b.scheduledTime) <= 0
    ensures SortedSubtasks(AsWritten, Some(t), [a, b]) == [a, b]
  {
    var h := Some(t);
    var ka, kb := TextKey(a.scheduledTime), TextKey(b.scheduledTime);
    CompareTextIsKeyOrder(a.scheduledTime, b.scheduledTime);
    assert ScheduleKey(AsWritten, h, a) == [0] + ([1] + ka);
    assert ScheduleKey(AsWritten, h, b) == [0] + ([1] + kb);
    LexLeCons(0, [1] + ka, 0, [1] + kb);
    LexLeCons(1, ka, 1, kb);
    SortTwo(a, b, ScheduleOrder(AsWritten, h));
  }

  /** Under the corrected rule a highlighted open entry goes ahead of a plain one. */
  lemma ListingCorrected(t: string, a: Subtask, b: Subtask)
    requires !a.completed && !b.completed
    requires !IsHighlighted(Some(t), a) && IsHighlighted(Some(t), b)
    ensures SortedSubtasks(Corrected, Some(t), [a, b]) == [b, a]
  {
    var h := Some(t);
    var ka, kb := TextKey(a.scheduledTime), TextKey(b.scheduledTime);
    assert ScheduleKey(Corrected, h, a) == [0] + ([1] + ka);
    assert ScheduleKey(Corrected, h, b) == [0] + ([0] + kb);
    LexLeCons(0, [1] + ka, 0, [0] + kb);
    LexLeCons(1, ka, 0, kb);
    SortTwo(a, b, ScheduleOrder(Corrected, h));
  }

  // ---------------------------------------------------------------------
  // Periods of the day
  // ---------------------------------------------------------------------

  datatype Period = Morning | Afternoon | Evening

  /**
   * Before 12 is morning, before 17 afternoon, anything else evening; an
   * unreadable hour fails both comparisons and so is evening too.
   */
  function PeriodOfHour(hour: Option<int>): Period {
    match hour
    case Some(h) => if h < 12 then Morning else if h < 17 then Afternoon else Evening
    case None => Evening
  }

  function PeriodOf(s: Subtask): Period {
    PeriodOfHour(HourOf(s.scheduledTime))
  }

  /** An `HH:MM` entry falls in the period of its hour. */
  lemma PeriodOfClockText(s: Subtask, h: nat, m: nat)
    requires s.scheduledTime == ClockText(h, m) && h < 24 && m < 60
    ensures PeriodOf(s) == (if h < 12 then Morning else if h < 17 then Afternoon else Evening)
  {
    HourOfClockText(h, m);
  }

  /** The entries the classifier `f` puts in period `p`. */
  function InPeriod(f: Subtask -> Period, p: Period): Subtask -> bool {
    s => f(s) == p
  }

  /** A named group of entries: one key of the grouping record. */
  datatype Group = Group(period: Period, items: seq<Subtask>)

  /** Adds `x` to the group of `p`, opening that group at the end when it is new. */
  function AddToGroups(gs: seq<Group>, p: Period, x: Subtask): seq<Group> {
    if |gs| == 0 then [Group(p, [x])]
    else if gs[0].period == p then [gs[0].(items := gs[0].items + [x])] + gs[1..]
    else [gs[0]] + AddToGroups(gs[1..], p, x)
  }

  /** The grouping of the listed entries, entry by entry (`reduce`). */
  function GroupBy(s: seq<Subtask>, f: Subtask -> Period): seq<Group> {
    if |s| == 0 then []
    else AddToGroups(GroupBy(s[..|s| - 1], f), f(s[|s| - 1]), s[|s| - 1])
  }

  function GroupByPeriod(s: seq<Subtask>): seq<Group> {
    GroupBy(s, PeriodOf)
  }

  /** The items recorded under `p`, empty when there is no such group. */
  function Lookup(gs: seq<Group>, p: Period): seq<Subtask> {
    if |gs| == 0 then [] else if gs[0].period == p then gs[0].items else Lookup(gs[1..], p)
  }

  predicate WellFormedGroups(gs: seq<Group>) {
    && (forall i :: 0 <= i < |gs| ==> |gs[i].items| > 0)
    && (forall i, j :: 0 <= i < j < |gs| ==> gs[i].period != gs[j].period)
  }

  lemma {:induction false} LookupFound(gs: seq<Group>, i: int)
    requires WellFormedGroups(gs) && 0 <= i < |gs|
    ensures Lookup(gs, gs[i].period) == gs[i].items
  {
    if i > 0 {
      assert gs[0].period != gs[i].period;
      assert gs[1..][i - 1] == gs[i];
      LookupFound(gs[1..], i - 1);
    }
  }

  /** In well-formed groups, a period has a group exactly when its lookup is non-empty. */
  lemma {:induction false} LookupPresent(gs: seq<Group>, p: Period)
    requires WellFormedGroups(gs)
    ensures (exists i :: 0 <= i < |gs| && gs[i].period == p) <==> Lookup(gs, p) != []
    decreases |gs|
  {
    if |gs| > 0 && gs[0].period != p {
      LookupPresent(gs[1..], p);
      if exists i :: 0 <= i < |gs| && gs[i].period == p {
        var i :| 0 <= i < |gs| && gs[i].period == p;
        assert gs[1..][i - 1] == gs[i];
      }
      if exists i :: 0 <= i < |gs[1..]| && gs[1..][i].period == p {
        var i :| 0 <= i < |gs[1..]| && gs[1..][i].period == p;
        assert gs[i + 1] == gs[1..][i];
      }
    } else if |gs| > 0 {
      assert gs[0].period == p;
    }
  }

  lemma {:induction false} AddToGroupsLookup(gs: seq<Group>, p: Period, x: Subtask, q: Period)
    ensures Lookup(AddToGroups(gs, p, x), q) == Lookup(gs, q) + (if q == p then [x] else [])
    decreases |gs|
  {
    if |gs| > 0 && gs[0].period != p {
      AddToGroupsLookup(gs[1..], p, x, q);
      assert ([gs[0]] + AddToGroups(gs[1..], p, x))[1..] == AddToGroups(gs[1..], p, x);
    } else if |gs| == 0 {
      assert Lookup([], q) == [];
    }
  }

  /** The periods of the groups after adding: the old ones, plus `p`. */
  lemma {:induction false} AddToGroupsPeriods(gs: seq<Group>, p: Period, x: Subtask)
    ensures forall i :: 0 <= i < |AddToGroups(gs, p, x)| ==>
      (|AddToGroups(gs, p, x)[i].items| > 0 || (i < |gs| && AddToGroups(gs, p, x)[i] == gs[i]))
    ensures |AddToGroups(gs, p, x)| >= |gs|
    ensures forall i :: 0 <= i < |gs| ==> AddToGroups(gs, p, x)[i].period == gs[i].period
    ensures forall i :: |gs| <= i < |AddToGroups(gs, p, x)| ==> AddToGroups(gs, p, x)[i].period == p
    ensures |AddToGroups(gs, p, x)| > |gs| ==> forall i :: 0 <= i < |gs| ==> gs[i].period != p
    ensures |AddToGroups(gs, p, x)| <= |gs| + 1
    decreases |gs|
  {
    if |gs| > 0 && gs[0].period != p {
      var r := AddToGroups(gs, p, x);
      var tail := AddToGroups(gs[1..], p, x);
      AddToGroupsPeriods(gs[1..], p, x);
      assert r == [gs[0]] + tail;
      forall i | 0 <= i < |r| ensures |r[i].items| > 0 || (i < |gs| && r[i] == gs[i]) {
        if i > 0 {
          assert r[i] == tail[i - 1];
          if i - 1 < |gs[1..]| {
            assert gs[1..][i - 1] == gs[i];
          }
        }
      }
      forall i | 0 <= i < |gs| ensures r[i].period == gs[i].period {
        if i > 0 {
          assert r[i] == tail[i - 1] && gs[1..][i - 1] == gs[i];
        }
      }
      forall i | |gs| <= i < |r| ensures r[i].period == p {
        assert r[i] == tail[i - 1];
      }
      if |r| > |gs| {
        forall i | 0 <= i < |gs| ensures gs[i].period != p {
          if i > 0 {
            assert gs[1..][i - 1] == gs[i];
          }
        }
      }
    }
  }

  lemma AddToGroupsWellFormed(gs: seq<Group>, p: Period, x: Subtask)
    requires WellFormedGroups(gs)
    ensures WellFormedGroups(AddToGroups(gs, p, x))
  {
    var r := AddToGroups(gs, p, x);
    AddToGroupsPeriods(gs, p, x);
    forall i, j | 0 <= i < j < |r| ensures r[i].period != r[j].period {
      if j >= |gs| {
        assert r[j].period == p;
      }
    }
  }

  /**
   * Grouping by any classifier is a stable partition: the group of each
   * period holds exactly the entries of that period in listed order, no group
   * is empty, and no period has two groups.
   */
  lemma {:induction false} GroupBySpec(s: seq<Subtask>, f: Subtask -> Period)
    ensures WellFormedGroups(GroupBy(s, f))
    ensures forall p :: Lookup(GroupBy(s, f), p) == Select(s, InPeriod(f, p), true)
  {
    if |s| > 0 {
      var init := s[..|s| - 1];
      var x := s[|s| - 1];
      GroupBySpec(init, f);
      AddToGroupsWellFormed(GroupBy(init, f), f(x), x);
      forall p ensures Lookup(GroupBy(s, f), p) == Select(s, InPeriod(f, p), true) {
        AddToGroupsLookup(GroupBy(init, f), f(x), x, p);
      }
    }
  }

  lemma PresentFromLookup(g: seq<Group>, s: seq<Subtask>, f: Subtask -> Period, p: Period)
    requires WellFormedGroups(g) && Lookup(g, p) == Select(s, InPeriod(f, p), true)
    ensures (exists i :: 0 <= i < |g| && g[i].period == p) <==> exists k :: 0 <= k < |s| && f(s[k]) == p
  {
    LookupPresent(g, p);
    SelectNonEmpty(s, InPeriod(f, p), true);
    if exists k :: 0 <= k < |s| && f(s[k]) == p {
      var k :| 0 <= k < |s| && f(s[k]) == p;
      assert InPeriod(f, p)(s[k]);
    }
  }

  /** Each group lists exactly its period's entries, in listed order. */
  lemma GroupItems(s: seq<Subtask>, f: Subtask -> Period, i: int)
    requires 0 <= i < |GroupBy(s, f)|
    ensures GroupBy(s, f)[i].items == Select(s, InPeriod(f, GroupBy(s, f)[i].period), true)
  {
    GroupBySpec(s, f);
    LookupFound(GroupBy(s, f), i);
  }

  /** The three periods together hold every entry once. */
  lemma {:induction false} PeriodSizes(s: seq<Subtask>, f: Subtask -> Period)
    ensures |Select(s, InPeriod(f, Morning), true)| + |Select(s, InPeriod(f, Afternoon), true)|
          + |Select(s, InPeriod(f, Evening), true)| == |s|
  {
    if |s| > 0 {
      PeriodSizes(s[..|s| - 1], f);
    }
  }

  /**
   * The schedule's grouping: no empty group and no period twice; the group
   * of a period lists that period's entries in listed order; a period has a
   * group exactly when some entry falls in it; and the groups' sizes add up
   * to the number of entries.
   */
  lemma GroupByPeriodSpec(s: seq<Subtask>, p: Period)
    ensures WellFormedGroups(GroupByPeriod(s))
    ensures Lookup(GroupByPeriod(s), p) == Select(s, InPeriod(PeriodOf, p), true)
    ensures (exists i :: 0 <= i < |GroupByPeriod(s)| && GroupByPeriod(s)[i].period == p)
        <==> exists k :: 0 <= k < |s| && PeriodOf(s[k]) == p
    ensures |Lookup(GroupByPeriod(s), Morning)| + |Lookup(GroupByPeriod(s), Afternoon)|
          + |Lookup(GroupByPeriod(s), Evening)| == |s|
  {
    GroupBySpec(s, PeriodOf);
    PresentFromLookup(GroupByPeriod(s), s, PeriodOf, p);
    PeriodSizes(s, PeriodOf);
  }

  // ---------------------------------------------------------------------
  // Progress
  // ---------------------------------------------------------------------

  function CompletedCount(subs: seq<Subtask>): nat {
    |Select(subs, IsOpenSubtask, false)|
  }

  /** The "all tasks completed" banner. */
  predicate ShowsAllDoneBanner(subs: seq<Subtask>) {
    CompletedCount(subs) == |subs| && |subs| > 0
  }

  /** At most every entry is done, and the banner shows exactly when there are entries and all are done. */
  lemma BannerIff(subs: seq<Subtask>)
    ensures CompletedCount(subs) <= |subs|
    ensures ShowsAllDoneBanner(subs) <==> |subs| > 0 && forall i :: 0 <= i < |subs| ==> subs[i].completed
  {
    SelectFull(subs, IsOpenSubtask, false);
  }
}
