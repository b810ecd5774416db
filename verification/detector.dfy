/** The missed-dose sweep (`check_missed_doses`) on values: the cutoff, the
    rows the SELECT returns, the table after the per-row updates, and the
    alerts and notifications produced per row. */
module Detector {
  import opened Text
  import opened Records
  import opened Notifier

  const ThresholdSeconds: int := 600

  /** `(datetime.now() - timedelta(minutes=10)).time()`: only the time of day is
      kept, so ten minutes before 00:05 is 23:55. */
  function Cutoff(now: TimeOfDay): TimeOfDay
  {
    (now - ThresholdSeconds) % SecondsPerDay
  }

  /** The WHERE clause of the sweep's SELECT. */
  predicate Eligible(d: DoseRecord, u: int, today: int, cutoff: TimeOfDay)
  {
    d.user == u && d.day == today && d.status == Pending && d.time < cutoff
  }

  /** One row of the sweep's SELECT: the dose, its medicine, the user's contact
      columns, and the close-contact columns (NULL when the user has none). */
  datatype MissedRow = MissedRow(
    doseId: int, medicineName: string,
    userName: string, userContact: string, userEmail: string,
    ccName: Option<string>, ccContact: Option<string>)

  /** `close_contacts` rows of user `u`, in table order. */
  function ContactsOf(contacts: seq<CloseContact>, u: int): (r: seq<CloseContact>)
    ensures forall c :: c in r <==> c in contacts && c.user == u
    decreases |contacts|
  {
    if contacts == [] then []
    else (if contacts[0].user == u then [contacts[0]] else []) + ContactsOf(contacts[1..], u)
  }

  /** What `LEFT JOIN close_contacts` contributes per dose: one (name, contact)
      pair per contact row, or a single pair of NULLs when there is none. */
  function ContactColumns(ccs: seq<CloseContact>): (cols: seq<(Option<string>, Option<string>)>)
    ensures |cols| == if ccs == [] then 1 else |ccs|
  {
    if ccs == [] then [(None, None)]
    else seq(|ccs|, k requires 0 <= k < |ccs| => (Some(ccs[k].name), Some(ccs[k].contact)))
  }

  /** The joined rows for one selected dose. */
  function RowsOfDose(d: DoseRecord, medicine: string, user: User, cols: seq<(Option<string>, Option<string>)>): (rows: seq<MissedRow>)
    ensures |rows| == |cols|
  {
    seq(|cols|, k requires 0 <= k < |cols| =>
      MissedRow(d.id, medicine, user.name, user.contact, user.email, cols[k].0, cols[k].1))
  }

  /** A dose the SELECT returns: eligible, and the inner joins with `users`
      and `medications` find their rows. */
  predicate Selectable(d: DoseRecord, meds: seq<Medication>, users: map<int, User>, u: int, today: int, cutoff: TimeOfDay)
  {
    Eligible(d, u, today, cutoff) && u in users && FindMedication(meds, d.medication).Some?
  }

  /** The rows of the sweep's SELECT, in dose-table order and, per dose, in
      contact-table order. */
  function SelectRows(doses: seq<DoseRecord>, meds: seq<Medication>, users: map<int, User>,
                      cols: seq<(Option<string>, Option<string>)>, u: int, today: int, cutoff: TimeOfDay): seq<MissedRow>
    decreases |doses|
  {
    if doses == [] then []
    else
      var d := doses[0];
      (if Selectable(d, meds, users, u, today, cutoff)
       then RowsOfDose(d, FindMedication(meds, d.medication).value.name, users[u], cols)
       else [])
      + SelectRows(doses[1..], meds, users, cols, u, today, cutoff)
  }

  function RowIds(rows: seq<MissedRow>): set<int>
  {
    set r | r in rows :: r.doseId
  }

  /** Ids of the doses the SELECT returns. */
  function Targets(doses: seq<DoseRecord>, meds: seq<Medication>, users: map<int, User>, u: int, today: int, cutoff: TimeOfDay): set<int>
  {
    set d | d in doses && Selectable(d, meds, users, u, today, cutoff) :: d.id
  }

  /** Number of doses the SELECT returns. */
  function CountSelectable(doses: seq<DoseRecord>, meds: seq<Medication>, users: map<int, User>, u: int, today: int, cutoff: TimeOfDay): nat
    decreases |doses|
  {
    if doses == [] then 0
    else (if Selectable(doses[0], meds, users, u, today, cutoff) then 1 else 0)
         + CountSelectable(doses[1..], meds, users, u, today, cutoff)
  }

  /** The rows of the sweep of user `u` at instant (`today`, `now`). */
  function SweepRows(doses: seq<DoseRecord>, meds: seq<Medication>, users: map<int, User>, contacts: seq<CloseContact>,
                     u: int, today: int, now: TimeOfDay): seq<MissedRow>
  {
    SelectRows(doses, meds, users, ContactColumns(ContactsOf(contacts, u)), u, today, Cutoff(now))
  }

  // ---------------------------------------------------------------------------
  // The locking clause

  /** Which tables the SELECT's row-locking clause applies to. A bare
      `FOR UPDATE` applies to every table of the FROM clause, so also to
      `close_contacts`, which is on the nullable side of the LEFT JOIN;
      `FOR UPDATE OF dh` applies to the dose records alone. */
  datatype LockingClause = LockEveryTable | LockDoseHistory

  /** The sweep's query ends in `FOR UPDATE SKIP LOCKED`, without `OF`. */
  const WrittenLocking: LockingClause := LockEveryTable

  /** PostgreSQL refuses a row lock on the nullable side of an outer join
      ("FOR UPDATE cannot be applied to the nullable side of an outer join"),
      when the query is planned, whatever the tables hold. */
  predicate LocksNullableSide(lock: LockingClause)
  {
    lock == LockEveryTable
  }

  /** The sweep's SELECT under locking clause `lock`: refused, or its rows. */
  function SweepQuery(lock: LockingClause, doses: seq<DoseRecord>, meds: seq<Medication>, users: map<int, User>,
                      contacts: seq<CloseContact>, u: int, today: int, now: TimeOfDay): Option<seq<MissedRow>>
  {
    if LocksNullableSide(lock) then None else Some(SweepRows(doses, meds, users, contacts, u, today, now))
  }

  /** As written, the SELECT is refused on every input; locking only the dose
      records returns the rows of the sweep. */
  lemma SweepQueryOutcome(doses: seq<DoseRecord>, meds: seq<Medication>, users: map<int, User>,
                          contacts: seq<CloseContact>, u: int, today: int, now: TimeOfDay)
    ensures SweepQuery(WrittenLocking, doses, meds, users, contacts, u, today, now) == None
    ensures SweepQuery(LockDoseHistory, doses, meds, users, contacts, u, today, now)
            == Some(SweepRows(doses, meds, users, contacts, u, today, now))
  {
  }

  /** A patient with no close contact and a PENDING 08:00 dose, swept at
      08:10:01: the dose is overdue and the sweep's rows report it, yet the
      query as written returns nothing but the error. */
  lemma WrittenSweepMissesOverdueDose()
    ensures var d := DoseRecord(1, 1, 1, 20000, 28800, Pending, None);
            var meds := [Medication(1, 1, "Aspirin", "100mg", 28800)];
            var users := map[1 := User("alice", "alice@example.org", 30, "+15550100")];
            && |SweepRows([d], meds, users, [], 1, 20000, 28801 + ThresholdSeconds)| == 1
            && SweepQuery(WrittenLocking, [d], meds, users, [], 1, 20000, 28801 + ThresholdSeconds) == None
  {
    var d := DoseRecord(1, 1, 1, 20000, 28800, Pending, None);
    var meds := [Medication(1, 1, "Aspirin", "100mg", 28800)];
    var users := map[1 := User("alice", "alice@example.org", 30, "+15550100")];
    assert Cutoff(28801 + ThresholdSeconds) == 28801;
    assert FindMedication(meds, 1) == Some(meds[0]);
    assert Selectable(d, meds, users, 1, 20000, 28801);
    assert ContactsOf([], 1) == [];
    assert SelectRows([d][1..], meds, users, [(None, None)], 1, 20000, 28801) == [];
  }

  // ---------------------------------------------------------------------------
  // The updates

  /** `UPDATE dose_history SET status = 'MISSED' WHERE id = id`. */
  function SetMissed(doses: seq<DoseRecord>, id: int): (r: seq<DoseRecord>)
    ensures |r| == |doses|
  {
    seq(|doses|, k requires 0 <= k < |doses| =>
      if doses[k].id == id then doses[k].(status := Missed) else doses[k])
  }

  /** The table after the per-row updates for `rows`, one after the other. */
  function MarkRows(doses: seq<DoseRecord>, rows: seq<MissedRow>): seq<DoseRecord>
    decreases |rows|
  {
    if rows == [] then doses
    else SetMissed(MarkRows(doses, rows[..|rows| - 1]), rows[|rows| - 1].doseId)
  }

  /** Every record whose id is in `ids` set to MISSED, the rest unchanged. */
  function MarkIds(doses: seq<DoseRecord>, ids: set<int>): (r: seq<DoseRecord>)
    ensures |r| == |doses|
  {
    seq(|doses|, k requires 0 <= k < |doses| =>
      if doses[k].id in ids then doses[k].(status := Missed) else doses[k])
  }

  /** The sequence of updates amounts to marking the set of their ids: a dose
      returned several times (one row per contact) is marked once. */
  lemma {:induction false} MarkRowsIsMarkIds(doses: seq<DoseRecord>, rows: seq<MissedRow>)
    ensures MarkRows(doses, rows) == MarkIds(doses, RowIds(rows))
    decreases |rows|
  {
    if rows != [] {
      var init := rows[..|rows| - 1];
      var last := rows[|rows| - 1];
      MarkRowsIsMarkIds(doses, init);
      assert rows == init + [last];
      assert RowIds(rows) == RowIds(init) + {last.doseId} by {
        forall id | id in RowIds(rows) ensures id in RowIds(init) + {last.doseId} {
          var r :| r in rows && r.doseId == id;
          if r != last {
            assert r in init;
          }
        }
        forall id | id in RowIds(init) ensures id in RowIds(rows) {
          var r :| r in init && r.doseId == id;
          assert r in rows;
        }
        assert last in rows;
      }
    }
  }

  lemma {:induction false} RowIdsOfSelectRows(doses: seq<DoseRecord>, meds: seq<Medication>, users: map<int, User>,
                                              cols: seq<(Option<string>, Option<string>)>, u: int, today: int, cutoff: TimeOfDay)
    requires cols != []
    ensures RowIds(SelectRows(doses, meds, users, cols, u, today, cutoff)) == Targets(doses, meds, users, u, today, cutoff)
    decreases |doses|
  {
    if doses == [] {
      assert Targets(doses, meds, users, u, today, cutoff) == {};
    } else {
      var d := doses[0];
      var tail := doses[1..];
      var head := if Selectable(d, meds, users, u, today, cutoff)
                  then RowsOfDose(d, FindMedication(meds, d.medication).value.name, users[u], cols)
                  else [];
      var rest := SelectRows(tail, meds, users, cols, u, today, cutoff);
      RowIdsOfSelectRows(tail, meds, users, cols, u, today, cutoff);
      var headIds := if Selectable(d, meds, users, u, today, cutoff) then {d.id} else {};
      assert RowIds(head) == headIds by {
        if Selectable(d, meds, users, u, today, cutoff) {
          assert head[0] in head;
        }
      }
      assert RowIds(head + rest) == RowIds(head) + RowIds(rest) by {
        forall id | id in RowIds(head + rest) ensures id in RowIds(head) + RowIds(rest) {
          var r :| r in head + rest && r.doseId == id;
        }
        forall id | id in RowIds(head) ensures id in RowIds(head + rest) {
          var r :| r in head && r.doseId == id;
          assert r in head + rest;
        }
        forall id | id in RowIds(rest) ensures id in RowIds(head + rest) {
          var r :| r in rest && r.doseId == id;
          assert r in head + rest;
        }
      }
      assert doses == [d] + tail;
      assert Targets(doses, meds, users, u, today, cutoff) == headIds + Targets(tail, meds, users, u, today, cutoff);
    }
  }

  /** The sweep's effect on the table: with unique ids, exactly the selectable
      doses become MISSED and every other record, of any user, is unchanged. */
  lemma SweepMarksSelectable(doses: seq<DoseRecord>, meds: seq<Medication>, users: map<int, User>,
                             cols: seq<(Option<string>, Option<string>)>, u: int, today: int, cutoff: TimeOfDay)
    requires DoseIdsIncreasing(doses)
    requires cols != []
    ensures var r := MarkRows(doses, SelectRows(doses, meds, users, cols, u, today, cutoff));
            && |r| == |doses|
            && forall k :: 0 <= k < |doses| ==>
                 r[k] == if Selectable(doses[k], meds, users, u, today, cutoff) then doses[k].(status := Missed) else doses[k]
  {
    var rows := SelectRows(doses, meds, users, cols, u, today, cutoff);
    MarkRowsIsMarkIds(doses, rows);
    RowIdsOfSelectRows(doses, meds, users, cols, u, today, cutoff);
    forall k | 0 <= k < |doses|
      ensures doses[k].id in Targets(doses, meds, users, u, today, cutoff) <==> Selectable(doses[k], meds, users, u, today, cutoff)
    {
      if doses[k].id in Targets(doses, meds, users, u, today, cutoff) {
        var d :| d in doses && Selectable(d, meds, users, u, today, cutoff) && d.id == doses[k].id;
        var j :| 0 <= j < |doses| && doses[j] == d;
        assert j == k;
      }
    }
  }

  /** The SELECT returns nothing exactly when no dose is selectable. */
  lemma {:induction false} SelectRowsEmpty(doses: seq<DoseRecord>, meds: seq<Medication>, users: map<int, User>,
                                           cols: seq<(Option<string>, Option<string>)>, u: int, today: int, cutoff: TimeOfDay)
    requires cols != []
    ensures SelectRows(doses, meds, users, cols, u, today, cutoff) == []
            <==> forall d :: d in doses ==> !Selectable(d, meds, users, u, today, cutoff)
  {
    var rows := SelectRows(doses, meds, users, cols, u, today, cutoff);
    RowIdsOfSelectRows(doses, meds, users, cols, u, today, cutoff);
    if rows != [] {
      assert rows[0].doseId in RowIds(rows);
    }
    forall d | d in doses && Selectable(d, meds, users, u, today, cutoff) ensures rows != [] {
      assert d.id in Targets(doses, meds, users, u, today, cutoff);
    }
  }

  /** An immediate second sweep at the same instant finds nothing. */
  lemma SecondSweepSelectsNothing(doses: seq<DoseRecord>, meds: seq<Medication>, users: map<int, User>,
                                  cols: seq<(Option<string>, Option<string>)>, u: int, today: int, cutoff: TimeOfDay)
    requires DoseIdsIncreasing(doses)
    requires cols != []
    ensures var after := MarkRows(doses, SelectRows(doses, meds, users, cols, u, today, cutoff));
            SelectRows(after, meds, users, cols, u, today, cutoff) == []
  {
    var after := MarkRows(doses, SelectRows(doses, meds, users, cols, u, today, cutoff));
    SweepMarksSelectable(doses, meds, users, cols, u, today, cutoff);
    forall d | d in after ensures !Selectable(d, meds, users, u, today, cutoff) {
      var k :| 0 <= k < |after| && after[k] == d;
    }
    SelectRowsEmpty(after, meds, users, cols, u, today, cutoff);
  }

  /** Each selected dose yields one row per close contact (one row when there is none). */
  lemma {:induction false} SelectRowsCount(doses: seq<DoseRecord>, meds: seq<Medication>, users: map<int, User>,
                                           cols: seq<(Option<string>, Option<string>)>, u: int, today: int, cutoff: TimeOfDay)
    ensures |SelectRows(doses, meds, users, cols, u, today, cutoff)| == |cols| * CountSelectable(doses, meds, users, u, today, cutoff)
    decreases |doses|
  {
    if doses != [] {
      var tail := doses[1..];
      SelectRowsCount(tail, meds, users, cols, u, today, cutoff);
      var c := if Selectable(doses[0], meds, users, u, today, cutoff) then 1 else 0;
      var whole := SelectRows(doses, meds, users, cols, u, today, cutoff);
      var after := SelectRows(tail, meds, users, cols, u, today, cutoff);
      assert |whole| == |cols| * c + |after|;
      CountStep(|cols|, c, CountSelectable(tail, meds, users, u, today, cutoff));
    }
  }

  /** The arithmetic step of the count: `n` rows for each of `c + rest` doses. */
  lemma CountStep(n: nat, c: nat, rest: nat)
    ensures n * (c + rest) == n * c + n * rest
  {
  }

  // ---------------------------------------------------------------------------
  // Alerts and notifications

  function AlertFor(r: MissedRow): string
  {
    AlertMessage(r.medicineName, r.ccName, r.ccContact)
  }

  /** `missed_alerts`: one alert per row, appended in row order. */
  function Alerts(rows: seq<MissedRow>): seq<string>
    decreases |rows|
  {
    if rows == [] then [] else Alerts(rows[..|rows| - 1]) + [AlertFor(rows[|rows| - 1])]
  }

  /** The deliveries attempted for `rows`, in the order they are attempted. */
  function Attempts(rows: seq<MissedRow>): seq<Notification>
    decreases |rows|
  {
    if rows == [] then []
    else
      var r := rows[|rows| - 1];
      Attempts(rows[..|rows| - 1]) + RowNotifications(r.userName, r.userContact, r.userEmail, r.medicineName, r.ccContact)
  }

  /** The returned list has exactly one alert per selected row, in selection order. */
  lemma {:induction false} AlertsInRowOrder(rows: seq<MissedRow>)
    ensures |Alerts(rows)| == |rows|
    ensures forall i :: 0 <= i < |rows| ==> Alerts(rows)[i] == AlertFor(rows[i])
    decreases |rows|
  {
    if rows != [] {
      var init := rows[..|rows| - 1];
      AlertsInRowOrder(init);
      assert Alerts(rows) == Alerts(init) + [AlertFor(rows[|rows| - 1])];
      forall i | 0 <= i < |rows| ensures Alerts(rows)[i] == AlertFor(rows[i]) {
        if i < |init| {
          assert rows[i] == init[i];
        }
      }
    }
  }

  /** Number of rows whose close-contact number is truthy. */
  function EscalatedRows(rows: seq<MissedRow>): nat
    decreases |rows|
  {
    if rows == [] then 0
    else EscalatedRows(rows[..|rows| - 1]) + (if Truthy(rows[|rows| - 1].ccContact) then 1 else 0)
  }

  /** Each row attempts the patient's SMS and e-mail, plus one SMS per row whose
      close-contact number is truthy; the attempts of a prefix of the rows come first. */
  lemma {:induction false} AttemptsCount(rows: seq<MissedRow>)
    ensures |Attempts(rows)| == 2 * |rows| + EscalatedRows(rows)
    ensures EscalatedRows(rows) <= |rows|
    decreases |rows|
  {
    if rows != [] {
      AttemptsCount(rows[..|rows| - 1]);
    }
  }

  // ---------------------------------------------------------------------------
  // The threshold

  /** A dose exactly at the cutoff is not yet eligible; one second earlier it is. */
  lemma CutoffIsStrict(d: DoseRecord, u: int, today: int, now: TimeOfDay)
    requires d.user == u && d.day == today && d.status == Pending
    ensures d.time == Cutoff(now) ==> !Eligible(d, u, today, Cutoff(now))
    ensures d.time == Cutoff(now) - 1 ==> Eligible(d, u, today, Cutoff(now))
  {
  }

  /** From 00:10 on, a dose is eligible exactly when it is more than ten minutes past its time. */
  lemma CutoffSameDay(t: TimeOfDay, now: TimeOfDay)
    requires now >= ThresholdSeconds
    ensures t < Cutoff(now) <==> t + ThresholdSeconds < now
  {
  }

  /** Before 00:10 the cutoff lies late in the previous evening, so a dose
      later today, not yet due, counts as overdue. */
  lemma CutoffWrapsAtMidnight(t: TimeOfDay, now: TimeOfDay)
    requires now < ThresholdSeconds
    ensures Cutoff(now) == now + SecondsPerDay - ThresholdSeconds
    ensures t < Cutoff(now) <==> t < now + SecondsPerDay - ThresholdSeconds
  {
  }

  /** Concretely: at 00:05 a PENDING 08:00 dose of today is swept. */
  lemma MorningDoseSweptAtFivePastMidnight(d: DoseRecord, u: int, today: int)
    requires d.user == u && d.day == today && d.status == Pending && d.time == 8 * 3600
    ensures Eligible(d, u, today, Cutoff(5 * 60))
  {
  }

  /** A sweep reports nothing exactly when no record is selectable, and then
      changes nothing. */
  lemma SweepReportsNothingIffNoneSelectable(doses: seq<DoseRecord>, meds: seq<Medication>, users: map<int, User>,
                                             contacts: seq<CloseContact>, u: int, today: int, now: TimeOfDay)
    ensures var rows := SweepRows(doses, meds, users, contacts, u, today, now);
            && (Alerts(rows) == [] <==> forall d :: d in doses ==> !Selectable(d, meds, users, u, today, Cutoff(now)))
            && (Alerts(rows) == [] ==> MarkRows(doses, rows) == doses && Attempts(rows) == [])
  {
    var rows := SweepRows(doses, meds, users, contacts, u, today, now);
    AlertsInRowOrder(rows);
    SelectRowsEmpty(doses, meds, users, ContactColumns(ContactsOf(contacts, u)), u, today, Cutoff(now));
  }
}
