/** A client of the store walking one patient through a day: register, add a
    medication for 08:00, let the sweep run at the cutoff and one second after
    it, and confirm the missed dose late. */
module Scenario {
  import opened Text
  import opened Records
  import opened Generator
  import opened Detector
  import opened Updates
  import opened Registration
  import opened Backend

  const Day: int := 20000
  const Eight: TimeOfDay := 28800

  /** A patient of the given age with one close contact, the age typed as its numeral. */
  function PatientForm(age: int): Form
  {
    Form(Some("alice"), Some("alice@example.org"), Some("pw"), Some(IntToString(age)),
         Some("+15550100"), Some("bob"), Some("+15550111"))
  }

  /** The form is complete, none of its values holds a NUL and each fits its column. */
  lemma PatientFormInsertable(age: int)
    ensures var f := PatientForm(age);
            && AllFieldsPresent(f) && InsertableStrings(f)
            && |f.name.value| <= 100 && |f.email.value| <= 255 && |f.userContact.value| <= 50
            && |f.ccName.value| <= 100 && |f.ccContact.value| <= 50
  {
    var f := PatientForm(age);
    assert NulFree(f.name.value) && NulFree(f.email.value);
    assert NulFree(f.userContact.value) && NulFree(f.ccName.value) && NulFree(f.ccContact.value);
  }

  /** The typed age reads back as the age. */
  lemma PatientAgeParses(age: int)
    requires FitsInt32(age)
    ensures ParseInt(PatientForm(age).age.value) == Some(age)
  {
    Int32NumeralLength(age);
    ParseIntOfIntToString(age);
  }

  /** The first registration of a well-formed form is accepted. */
  lemma PatientFormAccepted(age: int)
    requires FitsInt32(age)
    ensures Decide(PatientForm(age), map[]).Accept?
  {
    PatientAgeParses(age);
    PatientFormInsertable(age);
    DecideAccepts(PatientForm(age), map[]);
  }

  /** A new store with one registered patient, whose id is 1. */
  method RegisteredPatient(age: int) returns (store: DoseStore)
    requires FitsInt32(age)
    ensures fresh(store) && store.Valid() && 1 in store.users
    ensures store.meds == [] && store.doses == [] && store.nextMedId == 1 && store.nextDoseId == 1
  {
    store := new DoseStore();
    PatientFormAccepted(age);
    var reg := store.Register(PatientForm(age));
  }

  /** Adding a medication for 08:00 puts today's PENDING record in place. */
  method AddMorningDose(store: DoseStore) returns (dose: DoseRecord)
    requires store.Valid() && 1 in store.users
    requires store.meds == [] && store.doses == [] && store.nextMedId == 1 && store.nextDoseId == 1
    modifies store
    ensures store.Valid() && 1 in store.users && store.doses == [dose]
    ensures dose.user == 1 && dose.day == Day && dose.status == Pending && dose.time == Eight
  {
    var added := store.AddMedication(1, "Aspirin", "100mg", Eight, Day);
    var aspirin := Medication(1, 1, "Aspirin", "100mg", Eight);
    assert store.meds == [aspirin];
    assert MedicationsOf([aspirin], 1) == [aspirin];
    assert Generate([], [aspirin], 1, Day, 1) == [NewDose(1, 1, aspirin, Day)];
    dose := store.doses[0];
    assert store.doses == [dose];
  }

  /** Exactly ten minutes after the dose it is not yet late. */
  method SweepAtTheCutoff(store: DoseStore, dose: DoseRecord)
    requires store.Valid() && 1 in store.users && store.doses == [dose]
    requires dose.user == 1 && dose.day == Day && dose.status == Pending && dose.time == Eight
    modifies store
    ensures store.Valid() && 1 in store.users && store.doses == [dose]
  {
    assert Cutoff(Eight + 600) == Eight;
    assert !Eligible(dose, 1, Day, Cutoff(Eight + 600));
    var alerts, sent := store.CheckMissedDoses(1, Day, Eight + 600);
    assert store.doses[0] == dose;
  }

  /** One second later it is. */
  method SweepJustAfterTheCutoff(store: DoseStore, dose: DoseRecord)
    requires store.Valid() && 1 in store.users && store.doses == [dose]
    requires dose.user == 1 && dose.day == Day && dose.status == Pending && dose.time == Eight
    modifies store
    ensures store.Valid() && store.doses == [dose.(status := Missed)]
  {
    assert Cutoff(Eight + 601) == Eight + 1;
    assert Eligible(dose, 1, Day, Cutoff(Eight + 601));
    var alerts, sent := store.CheckMissedDoses(1, Day, Eight + 601);
    assert store.doses[0] == dose.(status := Missed);
  }

  /** With the locking clause as written, the sweep one second past the cutoff
      fails and the overdue dose stays PENDING. */
  method SweepAsWritten(store: DoseStore, dose: DoseRecord)
    requires store.Valid() && 1 in store.users && store.doses == [dose]
    requires dose.user == 1 && dose.day == Day && dose.status == Pending && dose.time == Eight
    modifies store
    ensures store.Valid() && 1 in store.users && store.doses == [dose]
  {
    assert Eligible(dose, 1, Day, Cutoff(Eight + 601));
    var response := store.CheckMissedDosesLocking(WrittenLocking, 1, Day, Eight + 601);
    assert response == SweepFailed;
  }

  /** A missed dose can still be confirmed. */
  method ConfirmLate(store: DoseStore, dose: DoseRecord)
    requires store.Valid() && store.doses == [dose.(status := Missed)] && dose.user == 1
    modifies store
    ensures store.doses == [dose.(status := Taken, updatedAt := Some(0))]
  {
    var matched := store.ConfirmDose(1, dose.id, 0);
    assert Confirm([dose.(status := Missed)], 1, dose.id, 0) == [dose.(status := Taken, updatedAt := Some(0))];
  }

  method MorningDoseDay()
  {
    var store := RegisteredPatient(30);
    var dose := AddMorningDose(store);
    SweepAtTheCutoff(store, dose);
    SweepAsWritten(store, dose);
    SweepJustAfterTheCutoff(store, dose);
    ConfirmLate(store, dose);
    assert store.doses[0].status == Taken;
  }
}
