/** The schedule generator (`generate_daily_doses`): for every medication of
    the user, insert a PENDING dose record for today unless one exists. */
module Generator {
  import opened Text
  import opened Records

  /** The row the generator inserts for medication `m`. */
  function NewDose(id: int, u: int, m: Medication, today: int): DoseRecord
  {
    DoseRecord(id, u, m.id, today, m.timeToTake, Pending, None)
  }

  /** The dose table after the generator has walked `ms` (the user's medications,
      as selected), starting with `next` as the next free dose id. */
  function Generate(doses: seq<DoseRecord>, ms: seq<Medication>, u: int, today: int, next: int): seq<DoseRecord>
    decreases |ms|
  {
    if ms == [] then doses
    else if !HasDose(doses, ms[0].id, today) then
      Generate(doses + [NewDose(next, u, ms[0], today)], ms[1..], u, today, next + 1)
    else
      Generate(doses, ms[1..], u, today, next)
  }

  /** A record the generator may have inserted: PENDING, the caller's id, today's
      date, the time copied from one of the medications walked, no timestamp. */
  predicate Inserted(d: DoseRecord, id: int, u: int, today: int, ms: seq<Medication>)
  {
    && d.id == id && d.user == u && d.day == today && d.status == Pending && d.updatedAt == None
    && exists m :: m in ms && d.medication == m.id && d.time == m.timeToTake
  }

  /** The generator only appends: existing records, of this user or any other,
      are kept as they were, and every appended record is a fresh PENDING one
      with consecutive ids from `next`, at most one per medication walked. */
  lemma {:induction false} GenerateAppends(doses: seq<DoseRecord>, ms: seq<Medication>, u: int, today: int, next: int)
    ensures var r := Generate(doses, ms, u, today, next);
            && |doses| <= |r| <= |doses| + |ms|
            && r[..|doses|] == doses
            && forall k :: |doses| <= k < |r| ==> Inserted(r[k], next + (k - |doses|), u, today, ms)
    decreases |ms|
  {
    if ms != [] {
      var tail := ms[1..];
      if !HasDose(doses, ms[0].id, today) {
        var d' := doses + [NewDose(next, u, ms[0], today)];
        GenerateAppends(d', tail, u, today, next + 1);
        var r := Generate(d', tail, u, today, next + 1);
        assert r[..|d'|] == d';
        assert r[..|doses|] == d'[..|doses|];
        forall k | |doses| <= k < |r| ensures Inserted(r[k], next + (k - |doses|), u, today, ms) {
          if k == |doses| {
            assert r[k] == d'[k];
          } else {
            assert Inserted(r[k], next + 1 + (k - |d'|), u, today, tail);
          }
        }
      } else {
        GenerateAppends(doses, tail, u, today, next);
      }
    }
  }

  lemma HasDoseInPrefix(doses: seq<DoseRecord>, r: seq<DoseRecord>, m: int, day: int)
    requires |doses| <= |r| && r[..|doses|] == doses
    requires HasDose(doses, m, day)
    ensures HasDose(r, m, day)
  {
    var d :| d in doses && d.medication == m && d.day == day;
    var i :| 0 <= i < |doses| && doses[i] == d;
    assert r[i] == d;
  }

  /** After the generator, every medication walked has a record for today. */
  lemma {:induction false} GenerateCovers(doses: seq<DoseRecord>, ms: seq<Medication>, u: int, today: int, next: int)
    ensures forall m :: m in ms ==> HasDose(Generate(doses, ms, u, today, next), m.id, today)
    decreases |ms|
  {
    if ms != [] {
      var d' := if !HasDose(doses, ms[0].id, today) then doses + [NewDose(next, u, ms[0], today)] else doses;
      var next' := if !HasDose(doses, ms[0].id, today) then next + 1 else next;
      assert Generate(doses, ms, u, today, next) == Generate(d', ms[1..], u, today, next');
      assert HasDose(d', ms[0].id, today) by {
        if !HasDose(doses, ms[0].id, today) {
          assert d'[|doses|] in d';
        }
      }
      GenerateCovers(d', ms[1..], u, today, next');
      GenerateAppends(d', ms[1..], u, today, next');
      HasDoseInPrefix(d', Generate(d', ms[1..], u, today, next'), ms[0].id, today);
    }
  }

  /** When every medication walked already has today's record, nothing is inserted. */
  lemma {:induction false} GenerateWhenCovered(doses: seq<DoseRecord>, ms: seq<Medication>, u: int, today: int, next: int)
    requires forall m :: m in ms ==> HasDose(doses, m.id, today)
    ensures Generate(doses, ms, u, today, next) == doses
    decreases |ms|
  {
    if ms != [] {
      assert ms[0] in ms;
      GenerateWhenCovered(doses, ms[1..], u, today, next);
    }
  }

  /** Idempotence: a second run on the same day, whatever id it starts from,
      leaves the table the first run produced. */
  lemma GenerateIdempotent(doses: seq<DoseRecord>, ms: seq<Medication>, u: int, today: int, next: int, next2: int)
    ensures var once := Generate(doses, ms, u, today, next);
            Generate(once, ms, u, today, next2) == once
  {
    GenerateCovers(doses, ms, u, today, next);
    GenerateWhenCovered(Generate(doses, ms, u, today, next), ms, u, today, next2);
  }

  /** "At most one record per (medication, day)" survives the generator. */
  lemma {:induction false} GenerateKeepsOnePerMedicationDay(doses: seq<DoseRecord>, ms: seq<Medication>, u: int, today: int, next: int)
    requires OnePerMedicationDay(doses)
    ensures OnePerMedicationDay(Generate(doses, ms, u, today, next))
    decreases |ms|
  {
    if ms != [] {
      if !HasDose(doses, ms[0].id, today) {
        var nd := NewDose(next, u, ms[0], today);
        var d' := doses + [nd];
        forall i, j | 0 <= i < j < |d'| && d'[i].medication == d'[j].medication
          ensures d'[i].day != d'[j].day
        {
          if j == |doses| {
            assert d'[i] in doses;
          }
        }
        GenerateKeepsOnePerMedicationDay(d', ms[1..], u, today, next + 1);
      } else {
        GenerateKeepsOnePerMedicationDay(doses, ms[1..], u, today, next);
      }
    }
  }

  /** Ids stay increasing when every existing id is below `next`. */
  lemma GenerateKeepsIds(doses: seq<DoseRecord>, ms: seq<Medication>, u: int, today: int, next: int)
    requires DoseIdsIncreasing(doses)
    requires forall d :: d in doses ==> d.id < next
    ensures var r := Generate(doses, ms, u, today, next);
            && DoseIdsIncreasing(r)
            && forall d :: d in r ==> d.id < next + (|r| - |doses|)
  {
    GenerateAppends(doses, ms, u, today, next);
    var r := Generate(doses, ms, u, today, next);
    forall i, j | 0 <= i < j < |r| ensures r[i].id < r[j].id {
      if j < |doses| {
        assert r[i] == doses[i] && r[j] == doses[j];
      } else if i < |doses| {
        assert r[i] == doses[i] && r[i] in doses;
      }
    }
    forall d | d in r ensures d.id < next + (|r| - |doses|) {
      var k :| 0 <= k < |r| && r[k] == d;
      if k < |doses| {
        assert r[k] == doses[k] && doses[k] in doses;
      }
    }
  }
}
