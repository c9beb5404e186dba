/**
 * `saveNewVisit` as a state transition on the record slot: validation, record
 * creation or demographic overwrite, one appended visit, the derived filename
 * and the save step, whose success or failure is an input.
 */
module Recorder {
  import opened Wrappers
  import opened Records
  import Text

  /** The raw values of the four demographic inputs and the notes area when the button is pressed. */
  datatype Form = Form(firstName: string, lastName: string, birthdate: string, personalId: string, notes: string)

  /** The two validation alerts: a demographic field is empty, or the notes are. */
  datatype FormError = MissingDemographics | MissingNotes

  /** The values the handler goes on with: everything trimmed except the birthdate. */
  datatype Entry = Entry(firstName: string, lastName: string, birthdate: string, personalId: string, notes: string)

  predicate DemographicsComplete(form: Form) {
    Text.Trim(form.firstName) != "" && Text.Trim(form.lastName) != ""
    && form.birthdate != "" && Text.Trim(form.personalId) != ""
  }

  /** The two guards of `saveNewVisit`, demographics first, then notes. */
  function Validate(form: Form): (r: Result<Entry, FormError>)
    ensures r == Failure(MissingDemographics) <==> !DemographicsComplete(form)
    ensures r == Failure(MissingNotes) <==> DemographicsComplete(form) && Text.Trim(form.notes) == ""
    ensures r.Success? ==>
      r.value == Entry(Text.Trim(form.firstName), Text.Trim(form.lastName), form.birthdate,
                       Text.Trim(form.personalId), Text.Trim(form.notes))
  {
    var firstName := Text.Trim(form.firstName);
    var lastName := Text.Trim(form.lastName);
    var pid := Text.Trim(form.personalId);
    var notes := Text.Trim(form.notes);
    if firstName == "" || lastName == "" || form.birthdate == "" || pid == "" then Failure(MissingDemographics)
    else if notes == "" then Failure(MissingNotes)
    else Success(Entry(firstName, lastName, form.birthdate, pid, notes))
  }

  /** An accepted entry has non-empty fields; the trimmed ones have no white space at either end. */
  lemma ValidEntryShape(form: Form)
    requires Validate(form).Success?
    ensures var e := Validate(form).value;
      e.firstName != "" && e.lastName != "" && e.birthdate != "" && e.personalId != "" && e.notes != ""
      && !Text.IsSpace(e.firstName[0]) && !Text.IsSpace(e.firstName[|e.firstName| - 1])
      && !Text.IsSpace(e.lastName[0]) && !Text.IsSpace(e.lastName[|e.lastName| - 1])
      && !Text.IsSpace(e.personalId[0]) && !Text.IsSpace(e.personalId[|e.personalId| - 1])
      && !Text.IsSpace(e.notes[0]) && !Text.IsSpace(e.notes[|e.notes| - 1])
  {
  }

  /** The birthdate is checked as typed: a blank-only birthdate passes validation and is kept. */
  lemma BlankBirthdateAccepted(form: Form)
    requires !Text.AllSpace(form.firstName) && !Text.AllSpace(form.lastName)
    requires !Text.AllSpace(form.personalId) && !Text.AllSpace(form.notes)
    requires form.birthdate != "" && Text.AllSpace(form.birthdate)
    ensures Validate(form).Success? && Validate(form).value.birthdate == form.birthdate
  {
    Text.TrimEmptyIff(form.firstName);
    Text.TrimEmptyIff(form.lastName);
    Text.TrimEmptyIff(form.personalId);
    Text.TrimEmptyIff(form.notes);
  }

  /** A name as it appears in the file name: white-space runs become `_`, then upper case. */
  function SafeName(name: string): (r: string)
    ensures Text.NoSpace(r)
    ensures forall i :: 0 <= i < |r| ==> !Text.IsLowerLetter(r[i])
  {
    Text.UpperShape(Text.CollapseSpaces(name));
    Text.Upper(Text.CollapseSpaces(name))
  }

  /**
   * Within a name, a white-space run between two stretches becomes one `_`: the
   * part before it is upper-cased as it stands and the rest is made safe on its own.
   */
  lemma SafeNameRun(a: string, w: string, b: string)
    requires Text.NoSpace(a) && w != [] && Text.AllSpace(w) && (b == [] || !Text.IsSpace(b[0]))
    ensures SafeName(a + w + b) == Text.Upper(a) + "_" + SafeName(b)
  {
    Text.CollapseSpacesRun(a, w, b);
    var c := Text.CollapseSpaces(b);
    Text.UpperAppend(a + "_", c);
    Text.UpperAppend(a, "_");
    assert Text.Upper("_") == "_" by {
      assert Text.Upper("_")[0] == Text.UpperChar('_');
    }
  }

  /** The suggested file name: last name, first name and filtered pid joined by `_`, with a `.json` suffix. */
  function Filename(e: Entry): (r: string)
    ensures r == SafeName(e.lastName) + "_" + SafeName(e.firstName) + "_" + Text.KeepPidChars(e.personalId) + ".json"
    ensures Text.NoSpace(r) && |r| >= 7 && r[|r| - 5..] == ".json"
  {
    var pid := Text.KeepPidChars(e.personalId);
    assert Text.NoSpace(pid) by {
      assert forall i :: 0 <= i < |pid| ==> Text.IsPidChar(pid[i]);
    }
    SafeName(e.lastName) + "_" + SafeName(e.firstName) + "_" + pid + ".json"
  }

  /** Names already upper-case without white space and a pid of allowed characters are used verbatim. */
  lemma FilenameOfCleanEntry(e: Entry)
    requires Text.NoSpace(e.lastName) && Text.NoSpace(e.firstName)
    requires forall i :: 0 <= i < |e.lastName| ==> !Text.IsLowerLetter(e.lastName[i])
    requires forall i :: 0 <= i < |e.firstName| ==> !Text.IsLowerLetter(e.firstName[i])
    requires Text.AllPidChars(e.personalId)
    ensures Filename(e) == e.lastName + "_" + e.firstName + "_" + e.personalId + ".json"
  {
    Text.CollapseSpacesIdentity(e.lastName);
    Text.CollapseSpacesIdentity(e.firstName);
    Text.KeepPidCharsIdentity(e.personalId);
    assert Text.Upper(e.lastName) == e.lastName;
    assert Text.Upper(e.firstName) == e.firstName;
  }

  /** The filename ignores the birthdate and the notes. */
  lemma FilenameIgnoresBirthdateAndNotes(e: Entry, birthdate: string, notes: string)
    ensures Filename(e.(birthdate := birthdate, notes := notes)) == Filename(e)
  {
  }

  /** ("Ana", "Ruiz", "A12-34") is saved as `RUIZ_ANA_A12-34.json`: the hyphen is in the kept class. */
  lemma FilenameKeepsHyphen(e: Entry)
    requires e.firstName == "Ana" && e.lastName == "Ruiz" && e.personalId == "A12-34"
    ensures Filename(e) == "RUIZ_ANA_A12-34.json"
  {
    SafeNameExamples();
    PidExample();
    JoinExample(SafeName(e.lastName), SafeName(e.firstName), Text.KeepPidChars(e.personalId));
  }

  lemma JoinExample(last: string, first: string, pid: string)
    requires last == "RUIZ" && first == "ANA" && pid == "A12-34"
    ensures last + "_" + first + "_" + pid + ".json" == "RUIZ_ANA_A12-34.json"
  {
  }

  lemma PidExample()
    ensures Text.KeepPidChars("A12-34") == "A12-34"
  {
    Text.KeepPidCharsIdentity("A12-34");
  }

  lemma SafeNameExamples()
    ensures SafeName("Ana") == "ANA" && SafeName("Ruiz") == "RUIZ"
  {
    Text.CollapseSpacesIdentity("Ana");
    Text.CollapseSpacesIdentity("Ruiz");
    var a := Text.Upper("Ana");
    assert a[0] == 'A' && a[1] == Text.UpperChar('n') && a[2] == Text.UpperChar('a');
    var r := Text.Upper("Ruiz");
    assert r[0] == 'R' && r[1] == Text.UpperChar('u') && r[2] == Text.UpperChar('i') && r[3] == Text.UpperChar('z');
  }

  /** The record literal built when no record is loaded (ehr.js lines 136-144). */
  function NewRecord(patientId: string, e: Entry): (r: PatientRecord)
    ensures r.schema == SCHEMA && r.patientId == patientId && r.visits == Some([])
    ensures r.firstName == e.firstName && r.lastName == e.lastName
    ensures r.birthdate == e.birthdate && r.personalId == e.personalId
  {
    PatientRecord(SCHEMA, patientId, e.firstName, e.lastName, e.birthdate, e.personalId, Some([]))
  }

  /** The four assignments that overwrite the demographics. */
  function WithDemographics(rec: PatientRecord, e: Entry): (r: PatientRecord)
    ensures r.schema == rec.schema && r.patientId == rec.patientId && r.visits == rec.visits
    ensures r.firstName == e.firstName && r.lastName == e.lastName
    ensures r.birthdate == e.birthdate && r.personalId == e.personalId
  {
    rec.(firstName := e.firstName, lastName := e.lastName, birthdate := e.birthdate, personalId := e.personalId)
  }

  /** The pushed visit entry. */
  function NewVisit(visitId: string, now: Timestamp, notes: string): (v: Visit)
    ensures v.visitId == visitId && v.timestamp == now && v.notes == Some(notes)
  {
    Visit(visitId, now, Some(notes))
  }

  /**
   * What `saveNewVisit` ends with: an alert, the `TypeError` thrown by `push` on a
   * record without `visits`, a rejected save (an uncaught rejection), or a completed save.
   * The last two carry the record and filename handed to the save step.
   */
  datatype Outcome =
    | Invalid(error: FormError)
    | VisitsMissing
    | SaveRejected(data: PatientRecord, filename: string)
    | Saved(data: PatientRecord, filename: string)

  /**
   * The slot and outcome after `saveNewVisit`. `patientId` and `visitId` are the
   * values `uuid()` returns; `now` is the current time; `saveSucceeds` is whether
   * the awaited save completes. A loaded record is the very object the handler
   * mutates, so the slot sees the new demographics and the new visit before the
   * save; a fresh record reaches the slot only after a completed save.
   */
  function RecordVisit(slot: Slot, form: Form, patientId: string, visitId: string, now: Timestamp,
                       saveSucceeds: bool): (r: (Slot, Outcome))
    ensures r.1.Invalid? ==> r.0 == slot
    ensures r.1.Saved? ==> saveSucceeds && r.0 == Holds(r.1.data)
    ensures !slot.Holds? && !r.1.Saved? ==> r.0 == slot
  {
    match Validate(form)
    case Failure(err) => (slot, Invalid(err))
    case Success(e) =>
      var base := if slot.Holds? then slot.record else NewRecord(patientId, e);
      var patient := WithDemographics(base, e);
      var shared := if slot.Holds? then Holds(patient) else slot;
      if patient.visits.None? then (shared, VisitsMissing)
      else
        var data := patient.(visits := Some(patient.visits.value + [NewVisit(visitId, now, e.notes)]));
        var name := Filename(e);
        if saveSucceeds then (Holds(data), Saved(data, name))
        else (if slot.Holds? then Holds(data) else slot, SaveRejected(data, name))
  }

  /** When the handler stops before the save, whether the save would have completed makes no difference. */
  lemma StopsBeforeSave(slot: Slot, form: Form, patientId: string, visitId: string, now: Timestamp,
                        saveSucceeds: bool)
    ensures var stopped := RecordVisit(slot, form, patientId, visitId, now, true);
      (stopped.1.Invalid? || stopped.1.VisitsMissing?)
      ==> RecordVisit(slot, form, patientId, visitId, now, saveSucceeds) == stopped
  {
  }

  /** An incomplete form leaves the slot as it was and saves nothing. */
  lemma IncompleteFormChangesNothing(slot: Slot, form: Form, patientId: string, visitId: string,
                                     now: Timestamp, saveSucceeds: bool)
    requires !DemographicsComplete(form) || Text.Trim(form.notes) == ""
    ensures var (after, outcome) := RecordVisit(slot, form, patientId, visitId, now, saveSucceeds);
      after == slot && outcome.Invalid?
      && (outcome.error == MissingDemographics <==> !DemographicsComplete(form))
  {
  }

  /**
   * On a loaded record: schema, identifier and earlier visits are kept in order,
   * the demographics are the form's, and exactly one visit with the trimmed notes
   * is appended. The slot holds this record whether or not the save completes.
   */
  lemma RecordOnLoadedRecord(rec: PatientRecord, form: Form, patientId: string, visitId: string,
                             now: Timestamp, saveSucceeds: bool)
    requires Validate(form).Success? && rec.visits.Some?
    ensures var (after, outcome) := RecordVisit(Holds(rec), form, patientId, visitId, now, saveSucceeds);
      var e := Validate(form).value;
      after.Holds? && outcome.data == after.record
      && (outcome.Saved? <==> saveSucceeds) && (outcome.SaveRejected? <==> !saveSucceeds)
      && after.record.schema == rec.schema && after.record.patientId == rec.patientId
      && after.record.firstName == e.firstName && after.record.lastName == e.lastName
      && after.record.birthdate == form.birthdate && after.record.personalId == e.personalId
      && after.record.visits.Some?
      && |after.record.visits.value| == |rec.visits.value| + 1
      && after.record.visits.value[..|rec.visits.value|] == rec.visits.value
      && after.record.visits.value[|rec.visits.value|] == Visit(visitId, now, Some(Text.Trim(form.notes)))
  {
    var (after, outcome) := RecordVisit(Holds(rec), form, patientId, visitId, now, saveSucceeds);
    var vs := rec.visits.value;
    assert (vs + [NewVisit(visitId, now, Text.Trim(form.notes))])[..|vs|] == vs;
  }

  /**
   * With no record loaded (never loaded, or cleared): a completed save installs a
   * new `patient-v1` record with the form's demographics and exactly one visit;
   * a rejected save leaves the slot as it was.
   */
  lemma RecordOnEmptySlot(slot: Slot, form: Form, patientId: string, visitId: string,
                          now: Timestamp, saveSucceeds: bool)
    requires !slot.Holds? && Validate(form).Success?
    ensures var (after, outcome) := RecordVisit(slot, form, patientId, visitId, now, saveSucceeds);
      var e := Validate(form).value;
      var created := PatientRecord(SCHEMA, patientId, e.firstName, e.lastName, form.birthdate, e.personalId,
                                   Some([Visit(visitId, now, Some(e.notes))]));
      (saveSucceeds ==> after == Holds(created) && outcome == Saved(created, Filename(e)))
      && (!saveSucceeds ==> after == slot && outcome == SaveRejected(created, Filename(e)))
  {
    var e := Validate(form).value;
    var patient := WithDemographics(NewRecord(patientId, e), e);
    assert patient == NewRecord(patientId, e);
    assert [] + [NewVisit(visitId, now, e.notes)] == [Visit(visitId, now, Some(e.notes))];
  }

  /** The save result matters only for a fresh record: a loaded one is changed by a failed save too. */
  lemma FailedSaveStillChangesLoadedRecord(rec: PatientRecord, form: Form, patientId: string,
                                           visitId: string, now: Timestamp)
    requires Validate(form).Success? && rec.visits.Some?
    ensures RecordVisit(Holds(rec), form, patientId, visitId, now, false).0
         == RecordVisit(Holds(rec), form, patientId, visitId, now, true).0
    ensures RecordVisit(Holds(rec), form, patientId, visitId, now, false).0 != Holds(rec)
  {
    var after := RecordVisit(Holds(rec), form, patientId, visitId, now, false).0;
    assert |after.record.visits.value| == |rec.visits.value| + 1;
  }

  /** A loaded record without `visits` gets the new demographics, then `push` throws: no visit, no save. */
  lemma RecordWithoutVisits(rec: PatientRecord, form: Form, patientId: string, visitId: string,
                            now: Timestamp, saveSucceeds: bool)
    requires Validate(form).Success? && rec.visits.None?
    ensures var (after, outcome) := RecordVisit(Holds(rec), form, patientId, visitId, now, saveSucceeds);
      outcome == VisitsMissing && after == Holds(WithDemographics(rec, Validate(form).value))
  {
  }

  /** Every record the slot can hold after a visit is recorded carries the `patient-v1` tag, if it did before. */
  lemma RecordKeepsSchema(slot: Slot, form: Form, patientId: string, visitId: string, now: Timestamp,
                          saveSucceeds: bool)
    requires slot.Holds? ==> slot.record.schema == SCHEMA
    ensures var (after, outcome) := RecordVisit(slot, form, patientId, visitId, now, saveSucceeds);
      (after.Holds? ==> after.record.schema == SCHEMA)
      && ((outcome.Saved? || outcome.SaveRejected?) ==> outcome.data.schema == SCHEMA)
  {
    if Validate(form).Success? {
      var e := Validate(form).value;
      var base := if slot.Holds? then slot.record else NewRecord(patientId, e);
      assert WithDemographics(base, e).schema == SCHEMA;
    }
  }

  /** A completed save leaves in the slot exactly the record that was written. */
  lemma SavedRecordIsInstalled(slot: Slot, form: Form, patientId: string, visitId: string, now: Timestamp,
                               saveSucceeds: bool)
    ensures var (after, outcome) := RecordVisit(slot, form, patientId, visitId, now, saveSucceeds);
      outcome.Saved? <==> (saveSucceeds && Validate(form).Success? && (slot.Holds? ==> slot.record.visits.Some?))
    ensures var (after, outcome) := RecordVisit(slot, form, patientId, visitId, now, saveSucceeds);
      outcome.Saved? ==> after == Holds(outcome.data) && outcome.filename == Filename(Validate(form).value)
  {
    if Validate(form).Success? {
      var e := Validate(form).value;
      var base := if slot.Holds? then slot.record else NewRecord(patientId, e);
      assert WithDemographics(base, e).visits == base.visits;
    }
  }
}
