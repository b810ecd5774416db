/** The backend's tables as one mutable store, with one method per API
    operation of the dose lifecycle. Each method is proved against the value
    functions of the other modules; the facts the tables keep between requests
    are `Consistent` and `DoseStore.Valid`. */
module Backend {
  import opened Text
  import opened Records
  import opened Generator
  import opened Schedule
  import opened Updates
  import opened Detector
  import opened Notifier
  import opened Registration

  /** Response of `add_medication`: success, or the 500 of a rolled-back INSERT. */
  datatype AddResult = Added | AddFailed

  /** Response of `delete_medication`: success, or the 404 of a zero-row DELETE. */
  datatype DeleteResult = Deleted | NotFound

  /** The response of `check_missed_doses`: the alerts, with the notifications
      attempted on the way, or 500 after the transaction is rolled back. */
  datatype SweepResponse = SweepServed(alerts: seq<string>, sent: seq<Notification>) | SweepFailed

  /** A dose record joins to a medication of the same user and carries that
      medication's time of day. */
  predicate Scheduled(d: DoseRecord, meds: seq<Medication>)
  {
    exists m :: m in meds && m.id == d.medication && m.user == d.user && m.timeToTake == d.time
  }

  /** What the medication and dose tables keep between requests. */
  predicate Consistent(meds: seq<Medication>, doses: seq<DoseRecord>)
  {
    && MedicationIdsIncreasing(meds)
    && DoseIdsIncreasing(doses)
    && OnePerMedicationDay(doses)
    && forall d :: d in doses ==> Scheduled(d, meds)
  }

  /** Two dose tables that differ at most in status and confirmation stamp. */
  predicate SameSlots(a: seq<DoseRecord>, b: seq<DoseRecord>)
  {
    && |a| == |b|
    && forall k :: 0 <= k < |a| ==>
         a[k].id == b[k].id && a[k].user == b[k].user && a[k].medication == b[k].medication
         && a[k].day == b[k].day && a[k].time == b[k].time
  }

  lemma MedicationIdentifiedById(meds: seq<Medication>, m: Medication, m': Medication)
    requires MedicationIdsIncreasing(meds)
    requires m in meds && m' in meds && m.id == m'.id
    ensures m == m'
  {
    FindMedicationUnique(meds, m);
    FindMedicationUnique(meds, m');
  }

  /** In a consistent store the sweep's and the schedule's join with
      `medications` finds the dose's own medication. */
  lemma {:induction false} ConsistentJoin(meds: seq<Medication>, doses: seq<DoseRecord>, d: DoseRecord)
    requires Consistent(meds, doses)
    requires d in doses
    ensures FindMedication(meds, d.medication).Some?
    ensures FindMedication(meds, d.medication).value.user == d.user
    ensures FindMedication(meds, d.medication).value.timeToTake == d.time
  {
    assert Scheduled(d, meds);
    var m :| m in meds && m.id == d.medication && m.user == d.user && m.timeToTake == d.time;
    FindMedicationUnique(meds, m);
  }

  /** For a registered user, the sweep selects exactly the eligible records. */
  lemma SelectableIffEligible(meds: seq<Medication>, doses: seq<DoseRecord>, users: map<int, User>,
                              d: DoseRecord, u: int, today: int, cutoff: TimeOfDay)
    requires Consistent(meds, doses)
    requires d in doses
    ensures Selectable(d, meds, users, u, today, cutoff) <==> Eligible(d, u, today, cutoff) && u in users
  {
    ConsistentJoin(meds, doses, d);
  }

  /** The generator keeps the tables consistent when `next` is above every dose id. */
  lemma {:induction false} GenerateKeepsConsistent(meds: seq<Medication>, doses: seq<DoseRecord>, u: int, today: int, next: int)
    requires Consistent(meds, doses)
    requires forall d :: d in doses ==> d.id < next
    ensures var r := Generate(doses, MedicationsOf(meds, u), u, today, next);
            && Consistent(meds, r)
            && forall d :: d in r ==> d.id < next + (|r| - |doses|)
  {
    var ms := MedicationsOf(meds, u);
    var r := Generate(doses, ms, u, today, next);
    GenerateKeepsIds(doses, ms, u, today, next);
    GenerateKeepsOnePerMedicationDay(doses, ms, u, today, next);
    GenerateAppends(doses, ms, u, today, next);
    forall d | d in r ensures Scheduled(d, meds) {
      var k :| 0 <= k < |r| && r[k] == d;
      if k < |doses| {
        assert r[k] == doses[k] && doses[k] in doses;
      } else {
        assert Inserted(r[k], next + (k - |doses|), u, today, ms);
        var m :| m in ms && d.medication == m.id && d.time == m.timeToTake;
        assert m in meds && m.user == u;
      }
    }
  }

  /** A table changed only in statuses and stamps stays consistent. */
  lemma {:induction false} SameSlotsKeepConsistent(meds: seq<Medication>, a: seq<DoseRecord>, b: seq<DoseRecord>)
    requires Consistent(meds, a)
    requires SameSlots(a, b)
    ensures Consistent(meds, b)
    ensures forall d :: d in b ==> exists d' :: d' in a && d'.id == d.id
  {
    forall i, j | 0 <= i < j < |b| ensures b[i].id < b[j].id {
      assert a[i].id < a[j].id;
    }
    forall i, j | 0 <= i < j < |b| && b[i].medication == b[j].medication ensures b[i].day != b[j].day {
      assert a[i].medication == a[j].medication;
    }
    forall d | d in b ensures Scheduled(d, meds) && exists d' :: d' in a && d'.id == d.id {
      var k :| 0 <= k < |b| && b[k] == d;
      assert a[k] in a;
      assert Scheduled(a[k], meds);
    }
  }

  /** Deleting an owned medication with its cascade keeps the tables consistent. */
  lemma {:induction false} DeleteKeepsConsistent(meds: seq<Medication>, doses: seq<DoseRecord>, id: int, u: int)
    requires Consistent(meds, doses)
    requires exists m :: m in meds && OwnedMedication(m, id, u)
    ensures Consistent(RemoveOwned(meds, id, u), DropDosesOf(doses, id))
  {
    var meds' := RemoveOwned(meds, id, u);
    var doses' := DropDosesOf(doses, id);
    RemoveOwnedKeepsIds(meds, id, u);
    DropDosesOfKeepsIds(doses, id);
    DropDosesOfKeepsOnePerMedicationDay(doses, id);
    DropDosesOfExact(doses, id);
    forall d | d in doses' ensures Scheduled(d, meds') {
      assert Scheduled(d, meds);
      var m :| m in meds && m.id == d.medication && m.user == d.user && m.timeToTake == d.time;
      assert m in meds';
    }
  }

  /** Appending a medication with a fresh id keeps the tables consistent. */
  lemma {:induction false} AppendMedicationKeepsConsistent(meds: seq<Medication>, doses: seq<DoseRecord>, m: Medication)
    requires Consistent(meds, doses)
    requires forall m' :: m' in meds ==> m'.id < m.id
    ensures Consistent(meds + [m], doses)
  {
    var meds' := meds + [m];
    forall i, j | 0 <= i < j < |meds'| ensures meds'[i].id < meds'[j].id {
      if j == |meds| {
        assert meds'[i] in meds;
      } else {
        assert meds'[i] == meds[i] && meds'[j] == meds[j];
      }
    }
    forall d | d in doses ensures Scheduled(d, meds') {
      assert Scheduled(d, meds);
      var m0 :| m0 in meds && m0.id == d.medication && m0.user == d.user && m0.timeToTake == d.time;
      assert m0 in meds';
    }
  }

  /** After `get_schedule` has generated, every medication of the caller has an
      entry today with its name, dosage and time. */
  lemma {:induction false} ScheduleListsEveryMedication(meds: seq<Medication>, doses: seq<DoseRecord>, u: int, today: int, next: int)
    requires Consistent(meds, doses)
    requires forall d :: d in doses ==> d.id < next
    ensures var s := ScheduleOf(Generate(doses, MedicationsOf(meds, u), u, today, next), meds, u, today);
            forall m :: m in meds && m.user == u ==>
              exists e :: e in s && e.medicineName == m.name && e.dosage == m.dosage && e.time == m.timeToTake
  {
    var ms := MedicationsOf(meds, u);
    var r := Generate(doses, ms, u, today, next);
    var s := ScheduleOf(r, meds, u, today);
    GenerateKeepsConsistent(meds, doses, u, today, next);
    GenerateCovers(doses, ms, u, today, next);
    ScheduleOfMeaning(r, meds, u, today);
    forall m | m in meds && m.user == u
      ensures exists e :: e in s && e.medicineName == m.name && e.dosage == m.dosage && e.time == m.timeToTake
    {
      assert m in ms;
      assert HasDose(r, m.id, today);
      var d :| d in r && d.medication == m.id && d.day == today;
      assert Scheduled(d, meds);
      var m' :| m' in meds && m'.id == d.medication && m'.user == d.user && m'.timeToTake == d.time;
      MedicationIdentifiedById(meds, m, m');
      FindMedicationUnique(meds, m);
      assert OnSchedule(d, meds, u, today);
      assert EntryOf(d, m) in s;
    }
  }

  /** In a consistent store every schedule entry is one of the caller's
      medications, at that medication's time. */
  lemma ScheduleShowsOnlyOwnMedications(meds: seq<Medication>, doses: seq<DoseRecord>, u: int, today: int)
    requires Consistent(meds, doses)
    ensures forall e :: e in ScheduleOf(doses, meds, u, today) ==>
              exists m :: m in meds && m.user == u && e.medicineName == m.name && e.dosage == m.dosage && e.time == m.timeToTake
  {
    ScheduleOfMeaning(doses, meds, u, today);
    forall e | e in ScheduleOf(doses, meds, u, today)
      ensures exists m :: m in meds && m.user == u && e.medicineName == m.name && e.dosage == m.dosage && e.time == m.timeToTake
    {
      var d :| d in doses && OnSchedule(d, meds, u, today) && e == EntryOf(d, FindMedication(meds, d.medication).value);
      ConsistentJoin(meds, doses, d);
    }
  }

  /** The tables of the backend. `users` maps a user id to its row; the
      `next...` counters play the SERIAL sequences. */
  class DoseStore {
    var users: map<int, User>
    var nextUserId: int
    var contacts: seq<CloseContact>
    var meds: seq<Medication>
    var nextMedId: int
    var doses: seq<DoseRecord>
    var nextDoseId: int

    ghost predicate Valid()
      reads this
    {
      && UniqueNamesAndEmails(users)
      && 1 <= nextUserId
      && (forall id :: id in users ==> 1 <= id < nextUserId)
      && (forall c :: c in contacts ==> c.user in users)
      && (forall m :: m in meds ==> m.user in users && m.id < nextMedId)
      && (forall d :: d in doses ==> d.id < nextDoseId)
      && Consistent(meds, doses)
    }

    /** Freshly initialised, empty tables; every SERIAL starts at 1. */
    constructor ()
      ensures Valid()
      ensures users == map[] && contacts == [] && meds == [] && doses == []
      ensures nextUserId == 1 && nextMedId == 1 && nextDoseId == 1
    {
      users := map[];
      nextUserId := 1;
      contacts := [];
      meds := [];
      nextMedId := 1;
      doses := [];
      nextDoseId := 1;
    }

    /** `register`: on acceptance the user row and its one close contact are
        inserted together; any other response leaves the tables as they were. */
    method Register(f: Form) returns (r: Decision)
      requires Valid()
      modifies this`users, this`nextUserId, this`contacts
      ensures Valid()
      ensures r == Decide(f, old(users))
      ensures r.Accept? ==>
                && users == old(users)[old(nextUserId) := r.user]
                && contacts == old(contacts) + [CloseContact(old(nextUserId), r.contactName, r.contactNumber)]
                && nextUserId == old(nextUserId) + 1
      ensures !r.Accept? ==> users == old(users) && contacts == old(contacts) && nextUserId == old(nextUserId)
    {
      r := Decide(f, users);
      if r.Accept? {
        AcceptKeepsUnique(f, users, nextUserId);
        users := users[nextUserId := r.user];
        contacts := contacts + [CloseContact(nextUserId, r.contactName, r.contactNumber)];
        nextUserId := nextUserId + 1;
      }
    }

    /** `generate_daily_doses`: one pass over the user's medications, inserting
        today's PENDING record for each one that has none. */
    method GenerateDailyDoses(u: int, today: int)
      requires Valid()
      modifies this`doses, this`nextDoseId
      ensures Valid()
      ensures doses == Generate(old(doses), MedicationsOf(meds, u), u, today, old(nextDoseId))
      ensures nextDoseId == old(nextDoseId) + (|doses| - |old(doses)|)
    {
      var mine := MedicationsOf(meds, u);
      GenerateKeepsConsistent(meds, doses, u, today, nextDoseId);
      var table, next := doses, nextDoseId;
      var i := 0;
      while i < |mine|
        invariant 0 <= i <= |mine|
        invariant Generate(table, mine[i..], u, today, next) == Generate(old(doses), mine, u, today, old(nextDoseId))
        invariant next == old(nextDoseId) + (|table| - |old(doses)|)
      {
        assert mine[i..][0] == mine[i] && mine[i..][1..] == mine[i + 1..];
        if !HasDose(table, mine[i].id, today) {
          table := table + [NewDose(next, u, mine[i], today)];
          next := next + 1;
        }
        i := i + 1;
      }
      doses, nextDoseId := table, next;
    }

    /** `add_medication`: the INSERT, then the generator for today. A value the
        column cannot hold, or a user the foreign key cannot find, rolls the
        whole request back. */
    method AddMedication(u: int, name: string, dosage: string, time: TimeOfDay, today: int) returns (r: AddResult)
      requires Valid()
      modifies this`meds, this`nextMedId, this`doses, this`nextDoseId
      ensures Valid()
      ensures r == Added <==>
                && u in users && NulFree(name) && NulFree(dosage)
                && StoreVarchar(name, 100).Some? && StoreVarchar(dosage, 100).Some?
      ensures r == Added ==>
                && meds == old(meds) + [Medication(old(nextMedId), u, StoreVarchar(name, 100).value,
                                                   StoreVarchar(dosage, 100).value, time)]
                && nextMedId == old(nextMedId) + 1
                && doses == Generate(old(doses), MedicationsOf(meds, u), u, today, old(nextDoseId))
                && nextDoseId == old(nextDoseId) + (|doses| - |old(doses)|)
      ensures r == AddFailed ==>
                meds == old(meds) && nextMedId == old(nextMedId) && doses == old(doses) && nextDoseId == old(nextDoseId)
    {
      var storedName := StoreVarchar(name, 100);
      var storedDosage := StoreVarchar(dosage, 100);
      if u !in users || !NulFree(name) || !NulFree(dosage) || storedName.None? || storedDosage.None? {
        return AddFailed;
      }
      var m := Medication(nextMedId, u, storedName.value, storedDosage.value, time);
      AppendMedicationKeepsConsistent(meds, doses, m);
      meds := meds + [m];
      nextMedId := nextMedId + 1;
      GenerateDailyDoses(u, today);
      r := Added;
    }

    /** `get_schedule`: generate, then read back today's entries by time and
        write each time as `HH:MM:SS`. */
    method GetSchedule(u: int, today: int) returns (s: seq<ScheduleEntry>, items: seq<ScheduleItem>)
      requires Valid()
      modifies this`doses, this`nextDoseId
      ensures Valid()
      ensures doses == Generate(old(doses), MedicationsOf(meds, u), u, today, old(nextDoseId))
      ensures nextDoseId == old(nextDoseId) + (|doses| - |old(doses)|)
      ensures s == ScheduleOf(doses, meds, u, today)
      ensures SortedByTime(s)
      ensures forall m :: m in meds && m.user == u ==>
                exists e :: e in s && e.medicineName == m.name && e.dosage == m.dosage && e.time == m.timeToTake
      ensures forall e :: e in s ==>
                exists m :: m in meds && m.user == u && e.medicineName == m.name && e.dosage == m.dosage && e.time == m.timeToTake
      ensures items == Rendered(s)
    {
      ScheduleListsEveryMedication(meds, doses, u, today, nextDoseId);
      GenerateDailyDoses(u, today);
      s := ScheduleOf(doses, meds, u, today);
      ScheduleOfMeaning(doses, meds, u, today);
      ScheduleShowsOnlyOwnMedications(meds, doses, u, today);
      items := Render(s);
    }

    /** `confirm_dose`: the ownership-filtered UPDATE; `matched` is its row
        count, which the endpoint does not inspect (it always answers success). */
    method ConfirmDose(u: int, id: int, stamp: int) returns (matched: nat)
      requires Valid()
      modifies this`doses
      ensures Valid()
      ensures doses == Confirm(old(doses), u, id, stamp)
      ensures matched == ConfirmCount(old(doses), u, id) && matched <= 1
      ensures matched == 0 ==> doses == old(doses)
    {
      matched := ConfirmCount(doses, u, id);
      ConfirmOutcome(meds, doses, u, id, stamp);
      doses := Confirm(doses, u, id, stamp);
    }

    /** `delete_medication`: the ownership-filtered DELETE with its cascade. */
    method DeleteMedication(u: int, id: int) returns (r: DeleteResult)
      requires Valid()
      modifies this`meds, this`doses
      ensures Valid()
      ensures r == Deleted <==> exists m :: m in old(meds) && OwnedMedication(m, id, u)
      ensures r == Deleted ==> meds == RemoveOwned(old(meds), id, u) && doses == DropDosesOf(old(doses), id)
      ensures r == NotFound ==> meds == old(meds) && doses == old(doses)
    {
      if exists m :: m in meds && OwnedMedication(m, id, u) {
        DeleteKeepsConsistent(meds, doses, id, u);
        DropDosesOfExact(doses, id);
        meds := RemoveOwned(meds, id, u);
        doses := DropDosesOf(doses, id);
        r := Deleted;
      } else {
        r := NotFound;
      }
    }

    /** `check_missed_doses`: every selected row marks its record MISSED,
        attempts the patient's SMS and e-mail and, when the close-contact number
        is truthy, the contact's SMS, and appends one alert. */
    method CheckMissedDoses(u: int, today: int, now: TimeOfDay) returns (alerts: seq<string>, sent: seq<Notification>)
      requires Valid()
      modifies this`doses
      ensures Valid()
      ensures var rows := SweepRows(old(doses), meds, users, contacts, u, today, now);
              doses == MarkRows(old(doses), rows) && alerts == Alerts(rows) && sent == Attempts(rows)
      ensures |doses| == |old(doses)|
      ensures forall k :: 0 <= k < |doses| ==>
                doses[k] == if Eligible(old(doses)[k], u, today, Cutoff(now)) && u in users
                            then old(doses)[k].(status := Missed) else old(doses)[k]
    {
      var rows := SweepRows(doses, meds, users, contacts, u, today, now);
      SweepOutcome(meds, doses, users, contacts, u, today, now);
      var table;
      table, alerts, sent := MarkAndNotify(doses, rows);
      doses := table;
    }

    /** `check_missed_doses` with the SELECT ending in locking clause `lock`.
        When PostgreSQL refuses the clause, the SELECT raises, the transaction
        is rolled back and the response is 500, so nothing is marked and
        nothing is sent; otherwise it is the sweep of `CheckMissedDoses`. */
    method CheckMissedDosesLocking(lock: LockingClause, u: int, today: int, now: TimeOfDay) returns (r: SweepResponse)
      requires Valid()
      modifies this`doses
      ensures Valid()
      ensures r == SweepFailed <==> LocksNullableSide(lock)
      ensures r == SweepFailed ==> doses == old(doses)
      ensures r.SweepServed? ==>
                var rows := SweepRows(old(doses), meds, users, contacts, u, today, now);
                doses == MarkRows(old(doses), rows) && r.alerts == Alerts(rows) && r.sent == Attempts(rows)
    {
      var query := SweepQuery(lock, doses, meds, users, contacts, u, today, now);
      if query.None? {
        return SweepFailed;
      }
      var alerts, sent := CheckMissedDoses(u, today, now);
      r := SweepServed(alerts, sent);
    }
  }

  /** The loop over the selected rows: mark the record MISSED, attempt the
      patient's SMS and e-mail and, when the close-contact number is truthy,
      the contact's SMS, and append the alert. */
  method MarkAndNotify(doses: seq<DoseRecord>, rows: seq<MissedRow>)
    returns (table: seq<DoseRecord>, alerts: seq<string>, sent: seq<Notification>)
    ensures table == MarkRows(doses, rows)
    ensures alerts == Alerts(rows)
    ensures sent == Attempts(rows)
  {
    table, alerts, sent := doses, [], [];
    var i := 0;
    while i < |rows|
      invariant 0 <= i <= |rows|
      invariant table == MarkRows(doses, rows[..i])
      invariant alerts == Alerts(rows[..i])
      invariant sent == Attempts(rows[..i])
    {
      var row := rows[i];
      SweepStep(doses, rows, i);
      table := SetMissed(table, row.doseId);
      sent := sent + RowNotifications(row.userName, row.userContact, row.userEmail, row.medicineName, row.ccContact);
      alerts := alerts + [AlertFor(row)];
      i := i + 1;
    }
    assert rows[..i] == rows;
  }

  /** `confirm_dose` on a consistent store: at most one row matches, no match
      changes nothing, and the store stays consistent with no new id. */
  lemma ConfirmOutcome(meds: seq<Medication>, doses: seq<DoseRecord>, u: int, id: int, stamp: int)
    requires Consistent(meds, doses)
    ensures ConfirmCount(doses, u, id) <= 1
    ensures ConfirmCount(doses, u, id) == 0 ==> Confirm(doses, u, id, stamp) == doses
    ensures Consistent(meds, Confirm(doses, u, id, stamp))
    ensures forall d :: d in Confirm(doses, u, id, stamp) ==> exists d' :: d' in doses && d'.id == d.id
  {
    ConfirmCountAtMostOne(doses, u, id);
    if ConfirmCount(doses, u, id) == 0 {
      ConfirmNoMatch(doses, u, id, stamp);
    }
    ConfirmEffect(doses, u, id, stamp);
    SameSlotsKeepConsistent(meds, doses, Confirm(doses, u, id, stamp));
  }

  /** One more row of the sweep: its update and its outputs come after those of
      the rows before it. */
  lemma SweepStep(doses: seq<DoseRecord>, rows: seq<MissedRow>, i: nat)
    requires i < |rows|
    ensures MarkRows(doses, rows[..i + 1]) == SetMissed(MarkRows(doses, rows[..i]), rows[i].doseId)
    ensures Alerts(rows[..i + 1]) == Alerts(rows[..i]) + [AlertFor(rows[i])]
    ensures Attempts(rows[..i + 1]) == Attempts(rows[..i])
              + RowNotifications(rows[i].userName, rows[i].userContact, rows[i].userEmail, rows[i].medicineName, rows[i].ccContact)
  {
    assert rows[..i + 1][..i] == rows[..i];
  }

  /** The sweep on a consistent store: exactly the user's eligible records
      become MISSED and the tables stay consistent. */
  lemma SweepOutcome(meds: seq<Medication>, doses: seq<DoseRecord>, users: map<int, User>, contacts: seq<CloseContact>,
                     u: int, today: int, now: TimeOfDay)
    requires Consistent(meds, doses)
    ensures var after := MarkRows(doses, SweepRows(doses, meds, users, contacts, u, today, now));
            && Consistent(meds, after)
            && |after| == |doses|
            && (forall k :: 0 <= k < |doses| ==>
                  after[k] == if Eligible(doses[k], u, today, Cutoff(now)) && u in users
                              then doses[k].(status := Missed) else doses[k])
            && (forall d :: d in after ==> exists d' :: d' in doses && d'.id == d.id)
  {
    var cols := ContactColumns(ContactsOf(contacts, u));
    var after := MarkRows(doses, SweepRows(doses, meds, users, contacts, u, today, now));
    SweepMarksSelectable(doses, meds, users, cols, u, today, Cutoff(now));
    forall k | 0 <= k < |doses|
      ensures Selectable(doses[k], meds, users, u, today, Cutoff(now)) <==> Eligible(doses[k], u, today, Cutoff(now)) && u in users
    {
      SelectableIffEligible(meds, doses, users, doses[k], u, today, Cutoff(now));
    }
    SameSlotsKeepConsistent(meds, doses, after);
  }
}
