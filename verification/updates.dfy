/** The two ownership-filtered writes of the API: `confirm_dose`'s UPDATE and
    `delete_medication`'s DELETE with its cascade to `dose_history`. */
module Updates {
  import opened Text
  import opened Records

  // ---------------------------------------------------------------------------
  // confirm_dose

  /** The UPDATE's WHERE clause: the id and the owner, and nothing about the status. */
  predicate ConfirmMatches(d: DoseRecord, u: int, id: int)
  {
    d.id == id && d.user == u
  }

  /** `UPDATE dose_history SET status = 'TAKEN', updated_at = stamp WHERE id = id AND user_id = u`. */
  function Confirm(doses: seq<DoseRecord>, u: int, id: int, stamp: int): seq<DoseRecord>
    decreases |doses|
  {
    if doses == [] then []
    else
      [if ConfirmMatches(doses[0], u, id) then doses[0].(status := Taken, updatedAt := Some(stamp)) else doses[0]]
      + Confirm(doses[1..], u, id, stamp)
  }

  /** The UPDATE's row count. */
  function ConfirmCount(doses: seq<DoseRecord>, u: int, id: int): nat
    decreases |doses|
  {
    if doses == [] then 0
    else (if ConfirmMatches(doses[0], u, id) then 1 else 0) + ConfirmCount(doses[1..], u, id)
  }

  /** Only the caller's record with that id changes, and it becomes TAKEN with
      the new timestamp whatever its status was, MISSED included. Every other
      record, in particular every other user's, is unchanged. */
  lemma {:induction false} ConfirmEffect(doses: seq<DoseRecord>, u: int, id: int, stamp: int)
    ensures |Confirm(doses, u, id, stamp)| == |doses|
    ensures forall k :: 0 <= k < |doses| ==>
              Confirm(doses, u, id, stamp)[k]
                == if ConfirmMatches(doses[k], u, id) then doses[k].(status := Taken, updatedAt := Some(stamp)) else doses[k]
    decreases |doses|
  {
    if doses != [] {
      ConfirmEffect(doses[1..], u, id, stamp);
      var r := Confirm(doses, u, id, stamp);
      forall k | 1 <= k < |doses| ensures r[k] == Confirm(doses[1..], u, id, stamp)[k - 1] {
      }
    }
  }

  /** A zero-row match changes nothing. */
  lemma {:induction false} ConfirmNoMatch(doses: seq<DoseRecord>, u: int, id: int, stamp: int)
    requires ConfirmCount(doses, u, id) == 0
    ensures Confirm(doses, u, id, stamp) == doses
    decreases |doses|
  {
    if doses != [] {
      ConfirmNoMatch(doses[1..], u, id, stamp);
    }
  }

  /** Confirming a dose id of another user leaves the table unchanged. */
  lemma ConfirmOtherUsersDose(doses: seq<DoseRecord>, u: int, id: int, stamp: int)
    requires forall d :: d in doses && d.id == id ==> d.user != u
    ensures Confirm(doses, u, id, stamp) == doses
  {
    ConfirmEffect(doses, u, id, stamp);
  }

  /** With unique ids at most one record matches. */
  lemma {:induction false} ConfirmCountAtMostOne(doses: seq<DoseRecord>, u: int, id: int)
    requires DoseIdsIncreasing(doses)
    ensures ConfirmCount(doses, u, id) <= 1
    ensures ConfirmCount(doses, u, id) == 1 <==> exists d :: d in doses && ConfirmMatches(d, u, id)
    decreases |doses|
  {
    if doses != [] {
      ConfirmCountAtMostOne(doses[1..], u, id);
      if ConfirmMatches(doses[0], u, id) {
        forall d | d in doses[1..] ensures !ConfirmMatches(d, u, id) {
          var j :| 0 <= j < |doses[1..]| && doses[1..][j] == d;
          assert doses[0].id < doses[j + 1].id;
        }
      }
      assert doses == [doses[0]] + doses[1..];
    }
  }

  // ---------------------------------------------------------------------------
  // delete_medication

  /** The DELETE's WHERE clause. */
  predicate OwnedMedication(m: Medication, id: int, u: int)
  {
    m.id == id && m.user == u
  }

  /** `DELETE FROM medications WHERE id = id AND user_id = u`. */
  function RemoveOwned(meds: seq<Medication>, id: int, u: int): (r: seq<Medication>)
    ensures forall m :: m in r <==> m in meds && !OwnedMedication(m, id, u)
    decreases |meds|
  {
    if meds == [] then []
    else (if OwnedMedication(meds[0], id, u) then [] else [meds[0]]) + RemoveOwned(meds[1..], id, u)
  }

  /** `ON DELETE CASCADE`: the dose records of the deleted medication go too. */
  function DropDosesOf(doses: seq<DoseRecord>, medication: int): seq<DoseRecord>
    decreases |doses|
  {
    if doses == [] then []
    else (if doses[0].medication == medication then [] else [doses[0]]) + DropDosesOf(doses[1..], medication)
  }

  /** The cascade removes every record of that medication, past days and today
      alike, and keeps every other record. */
  lemma {:induction false} DropDosesOfExact(doses: seq<DoseRecord>, medication: int)
    ensures forall d :: d in DropDosesOf(doses, medication) <==> d in doses && d.medication != medication
    decreases |doses|
  {
    if doses != [] {
      DropDosesOfExact(doses[1..], medication);
      assert doses == [doses[0]] + doses[1..];
    }
  }

  /** Removing rows keeps the table's order, hence increasing ids. */
  lemma {:induction false} DropDosesOfKeepsIds(doses: seq<DoseRecord>, medication: int)
    requires DoseIdsIncreasing(doses)
    ensures DoseIdsIncreasing(DropDosesOf(doses, medication))
    decreases |doses|
  {
    if doses != [] {
      var tail := DropDosesOf(doses[1..], medication);
      DropDosesOfKeepsIds(doses[1..], medication);
      DropDosesOfExact(doses[1..], medication);
      forall j | 0 <= j < |tail| ensures doses[0].id < tail[j].id {
        assert tail[j] in tail;
        var i :| 0 <= i < |doses[1..]| && doses[1..][i] == tail[j];
        assert doses[i + 1] == tail[j];
      }
    }
  }

  /** A record for one medication on one day survives only if it was there. */
  lemma {:induction false} DropDosesOfKeepsOnePerMedicationDay(doses: seq<DoseRecord>, medication: int)
    requires OnePerMedicationDay(doses)
    ensures OnePerMedicationDay(DropDosesOf(doses, medication))
    decreases |doses|
  {
    if doses != [] {
      var tail := DropDosesOf(doses[1..], medication);
      DropDosesOfKeepsOnePerMedicationDay(doses[1..], medication);
      DropDosesOfExact(doses[1..], medication);
      forall j | 0 <= j < |tail| && tail[j].medication == doses[0].medication
        ensures doses[0].day != tail[j].day
      {
        assert tail[j] in tail;
        var i :| 0 <= i < |doses[1..]| && doses[1..][i] == tail[j];
        assert doses[i + 1] == tail[j];
      }
    }
  }

  lemma {:induction false} RemoveOwnedKeepsIds(meds: seq<Medication>, id: int, u: int)
    requires MedicationIdsIncreasing(meds)
    ensures MedicationIdsIncreasing(RemoveOwned(meds, id, u))
    decreases |meds|
  {
    if meds != [] {
      var tail := RemoveOwned(meds[1..], id, u);
      RemoveOwnedKeepsIds(meds[1..], id, u);
      forall j | 0 <= j < |tail| ensures meds[0].id < tail[j].id {
        assert tail[j] in tail;
        var i :| 0 <= i < |meds[1..]| && meds[1..][i] == tail[j];
        assert meds[i + 1] == tail[j];
      }
    }
  }
}
