/** The rows of the backend's tables (users, close_contacts, medications,
    dose_history) and the facts about a dose table that the operations keep. */
module Records {
  import opened Text

  datatype Status = Pending | Taken | Missed

  /** A row of `medications`: one medicine of one user, taken once a day. */
  datatype Medication = Medication(id: int, user: int, name: string, dosage: string, timeToTake: TimeOfDay)

  /** A row of `dose_history`: the expectation that a medication is taken on a
      day at a time of day. `day` counts calendar days; `updatedAt` is the last
      confirmation instant, unset until a confirmation. */
  datatype DoseRecord = DoseRecord(
    id: int, user: int, medication: int, day: int, time: TimeOfDay,
    status: Status, updatedAt: Option<int>)

  /** A row of `users` without its password hash. */
  datatype User = User(name: string, email: string, age: int, contact: string)

  /** A row of `close_contacts`. */
  datatype CloseContact = CloseContact(user: int, name: string, contact: string)

  /** `SELECT 1 FROM dose_history WHERE medication_id = m AND scheduled_for = day` finds a row. */
  predicate HasDose(doses: seq<DoseRecord>, m: int, day: int)
  {
    exists d :: d in doses && d.medication == m && d.day == day
  }

  /** At most one dose record per (medication, day). The table has no constraint
      for this; the generator's check before each insert keeps it. */
  predicate OnePerMedicationDay(doses: seq<DoseRecord>)
  {
    forall i, j :: 0 <= i < j < |doses| && doses[i].medication == doses[j].medication ==> doses[i].day != doses[j].day
  }

  /** Dose ids come from a SERIAL column: they grow along the table. */
  predicate DoseIdsIncreasing(doses: seq<DoseRecord>)
  {
    forall i, j :: 0 <= i < j < |doses| ==> doses[i].id < doses[j].id
  }

  predicate MedicationIdsIncreasing(meds: seq<Medication>)
  {
    forall i, j :: 0 <= i < j < |meds| ==> meds[i].id < meds[j].id
  }

  /** `SELECT ... FROM medications WHERE user_id = u`, in table order. */
  function MedicationsOf(meds: seq<Medication>, u: int): (r: seq<Medication>)
    ensures forall m :: m in r <==> m in meds && m.user == u
    decreases |meds|
  {
    if meds == [] then []
    else (if meds[0].user == u then [meds[0]] else []) + MedicationsOf(meds[1..], u)
  }

  /** The medication a dose's `medication_id` joins to. */
  function FindMedication(meds: seq<Medication>, id: int): (r: Option<Medication>)
    ensures r.Some? ==> r.value in meds && r.value.id == id
    ensures r.None? ==> forall m :: m in meds ==> m.id != id
    decreases |meds|
  {
    if meds == [] then None
    else if meds[0].id == id then Some(meds[0])
    else FindMedication(meds[1..], id)
  }

  /** With unique ids the join finds exactly the medication that carries the id. */
  lemma {:induction false} FindMedicationUnique(meds: seq<Medication>, m: Medication)
    requires MedicationIdsIncreasing(meds)
    requires m in meds
    ensures FindMedication(meds, m.id) == Some(m)
  {
    if meds[0] != m {
      assert m in meds[1..];
      FindMedicationUnique(meds[1..], m);
    }
  }

  /** What PostgreSQL stores in a `VARCHAR(n)` column: the string itself when it
      fits, the string cut to `n` characters when everything beyond is spaces,
      and an error (`None`) otherwise. */
  function StoreVarchar(s: string, n: nat): (r: Option<string>)
    ensures r.Some? ==> |r.value| <= n && r.value <= s
    ensures |s| <= n ==> r == Some(s)
  {
    if |s| <= n then Some(s)
    else if forall i :: n <= i < |s| ==> s[i] == ' ' then Some(s[..n])
    else None
  }

  /** A string the database driver accepts as a query parameter: psycopg2
      refuses, with a `ValueError`, any string that contains a NUL character. */
  predicate NulFree(s: string)
  {
    forall i :: 0 <= i < |s| ==> s[i] != '\0'
  }

  /** Range of the `INT` column type. */
  predicate FitsInt32(x: int)
  {
    -0x8000_0000 <= x < 0x8000_0000
  }
}
