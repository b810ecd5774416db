/** The read side of `get_schedule`: the caller's records for today joined
    with their medication, ordered by scheduled time. */
module Schedule {
  import opened Text
  import opened Records

  /** One item of the schedule the API returns. */
  datatype ScheduleEntry = ScheduleEntry(doseId: int, medicineName: string, dosage: string, time: TimeOfDay, status: Status)

  function EntryOf(d: DoseRecord, m: Medication): ScheduleEntry
  {
    ScheduleEntry(d.id, m.name, m.dosage, d.time, d.status)
  }

  /** A record the schedule query returns: the caller's, for today, with its medication found. */
  predicate OnSchedule(d: DoseRecord, meds: seq<Medication>, u: int, today: int)
  {
    d.user == u && d.day == today && FindMedication(meds, d.medication).Some?
  }

  /** The rows of the schedule query before ordering, in table order. */
  function TodayEntries(doses: seq<DoseRecord>, meds: seq<Medication>, u: int, today: int): seq<ScheduleEntry>
    decreases |doses|
  {
    if doses == [] then []
    else
      (if OnSchedule(doses[0], meds, u, today)
       then [EntryOf(doses[0], FindMedication(meds, doses[0].medication).value)]
       else [])
      + TodayEntries(doses[1..], meds, u, today)
  }

  /** The schedule holds exactly the caller's records for today, nobody else's,
      and none of another day. */
  lemma {:induction false} TodayEntriesExact(doses: seq<DoseRecord>, meds: seq<Medication>, u: int, today: int)
    ensures forall e :: e in TodayEntries(doses, meds, u, today) <==>
              exists d :: d in doses && OnSchedule(d, meds, u, today)
                          && e == EntryOf(d, FindMedication(meds, d.medication).value)
    decreases |doses|
  {
    if doses != [] {
      TodayEntriesExact(doses[1..], meds, u, today);
      assert doses == [doses[0]] + doses[1..];
      forall e | e in TodayEntries(doses, meds, u, today)
        ensures exists d :: d in doses && OnSchedule(d, meds, u, today)
                            && e == EntryOf(d, FindMedication(meds, d.medication).value)
      {
        if e !in TodayEntries(doses[1..], meds, u, today) {
          assert OnSchedule(doses[0], meds, u, today);
          assert doses[0] in doses;
        }
      }
    }
  }

  predicate SortedByTime(s: seq<ScheduleEntry>)
  {
    forall i, j :: 0 <= i < j < |s| ==> s[i].time <= s[j].time
  }

  /** Places `e` after every entry not later than it. */
  function InsertByTime(e: ScheduleEntry, s: seq<ScheduleEntry>): seq<ScheduleEntry>
    decreases |s|
  {
    if s == [] || e.time < s[0].time then [e] + s
    else [s[0]] + InsertByTime(e, s[1..])
  }

  /** `ORDER BY scheduled_time`, as a stable insertion sort. */
  function SortByTime(s: seq<ScheduleEntry>): seq<ScheduleEntry>
    decreases |s|
  {
    if s == [] then [] else InsertByTime(s[0], SortByTime(s[1..]))
  }

  lemma {:induction false} InsertByTimeMultiset(e: ScheduleEntry, s: seq<ScheduleEntry>)
    ensures multiset(InsertByTime(e, s)) == multiset(s) + multiset{e}
    decreases |s|
  {
    if s != [] && e.time >= s[0].time {
      InsertByTimeMultiset(e, s[1..]);
      assert s == [s[0]] + s[1..];
    }
  }

  /** An entry no later than any entry of a sorted sequence can go in front of it. */
  lemma PrependSorted(x: ScheduleEntry, s: seq<ScheduleEntry>)
    requires SortedByTime(s)
    requires forall j :: 0 <= j < |s| ==> x.time <= s[j].time
    ensures SortedByTime([x] + s)
  {
    var r := [x] + s;
    forall i, j | 0 <= i < j < |r| ensures r[i].time <= r[j].time {
      assert r[j] == s[j - 1];
      if i > 0 {
        assert r[i] == s[i - 1];
      }
    }
  }

  lemma {:induction false} InsertByTimeSorted(e: ScheduleEntry, s: seq<ScheduleEntry>)
    requires SortedByTime(s)
    ensures SortedByTime(InsertByTime(e, s))
    decreases |s|
  {
    if s == [] || e.time < s[0].time {
      forall j | 0 <= j < |s| ensures e.time <= s[j].time {
        if j > 0 {
          assert s[0].time <= s[j].time;
        }
      }
      PrependSorted(e, s);
    } else {
      var tail := InsertByTime(e, s[1..]);
      InsertByTimeSorted(e, s[1..]);
      InsertByTimeMultiset(e, s[1..]);
      forall j | 0 <= j < |tail| ensures s[0].time <= tail[j].time {
        assert tail[j] in multiset(tail);
        if tail[j] != e {
          assert tail[j] in multiset(s[1..]);
          var i :| 0 <= i < |s[1..]| && s[1..][i] == tail[j];
          assert s[i + 1] == tail[j];
        }
      }
      PrependSorted(s[0], tail);
    }
  }

  /** The ordering returns the same entries, ascending by time. */
  lemma {:induction false} SortByTimeSortsAndPermutes(s: seq<ScheduleEntry>)
    ensures SortedByTime(SortByTime(s))
    ensures multiset(SortByTime(s)) == multiset(s)
    decreases |s|
  {
    if s != [] {
      SortByTimeSortsAndPermutes(s[1..]);
      InsertByTimeSorted(s[0], SortByTime(s[1..]));
      InsertByTimeMultiset(s[0], SortByTime(s[1..]));
      assert s == [s[0]] + s[1..];
    }
  }

  /** What `get_schedule` returns once the generator has run. */
  function ScheduleOf(doses: seq<DoseRecord>, meds: seq<Medication>, u: int, today: int): (r: seq<ScheduleEntry>)
  {
    SortByTime(TodayEntries(doses, meds, u, today))
  }

  /** The returned schedule: ascending by time, and an entry is in it exactly when
      it comes from one of the caller's records for today. */
  lemma ScheduleOfMeaning(doses: seq<DoseRecord>, meds: seq<Medication>, u: int, today: int)
    ensures SortedByTime(ScheduleOf(doses, meds, u, today))
    ensures multiset(ScheduleOf(doses, meds, u, today)) == multiset(TodayEntries(doses, meds, u, today))
    ensures forall e :: e in ScheduleOf(doses, meds, u, today) <==>
              exists d :: d in doses && OnSchedule(d, meds, u, today)
                          && e == EntryOf(d, FindMedication(meds, d.medication).value)
  {
    SortByTimeSortsAndPermutes(TodayEntries(doses, meds, u, today));
    TodayEntriesExact(doses, meds, u, today);
    var s := ScheduleOf(doses, meds, u, today);
    forall e ensures e in s <==> e in TodayEntries(doses, meds, u, today) {
      assert e in s <==> e in multiset(s);
    }
  }

  // ---------------------------------------------------------------------------
  // The JSON response

  /** One item of the response: the row with its time written `HH:MM:SS`. */
  datatype ScheduleItem = ScheduleItem(doseId: int, medicineName: string, dosage: string, scheduledTime: string, status: Status)

  function ItemOf(e: ScheduleEntry): ScheduleItem
  {
    ScheduleItem(e.doseId, e.medicineName, e.dosage, FormatTime(e.time), e.status)
  }

  /** The response items, one per row, in row order. */
  function Rendered(s: seq<ScheduleEntry>): (items: seq<ScheduleItem>)
    ensures |items| == |s|
  {
    seq(|s|, k requires 0 <= k < |s| => ItemOf(s[k]))
  }

  /** The loop that rewrites each row's `scheduled_time` with `strftime('%H:%M:%S')`. */
  method Render(s: seq<ScheduleEntry>) returns (items: seq<ScheduleItem>)
    ensures items == Rendered(s)
  {
    items := [];
    var i := 0;
    while i < |s|
      invariant 0 <= i <= |s|
      invariant |items| == i
      invariant forall k :: 0 <= k < i ==> items[k] == ItemOf(s[k])
    {
      items := items + [ItemOf(s[i])];
      i := i + 1;
    }
  }

  /** Rendering loses nothing: every item carries its row's columns, and its
      time text reads back as the row's time. */
  lemma RenderedReadsBack(s: seq<ScheduleEntry>)
    ensures forall k :: 0 <= k < |s| ==>
              && Rendered(s)[k].doseId == s[k].doseId && Rendered(s)[k].medicineName == s[k].medicineName
              && Rendered(s)[k].dosage == s[k].dosage && Rendered(s)[k].status == s[k].status
              && ParseTime(Rendered(s)[k].scheduledTime) == Some(s[k].time)
  {
    forall k | 0 <= k < |s|
      ensures ParseTime(Rendered(s)[k].scheduledTime) == Some(s[k].time)
    {
      ParseFormatTime(s[k].time);
    }
  }
}
