/**
 * The page's one piece of shared state, `window.loadedPatientData`, and the
 * handlers that assign it: loading a file, saving a visit, clearing the form.
 */
module Session {
  import opened Wrappers
  import opened Records
  import History
  import Recorder
  import Text

  /** How `loadPatientFile` ends: the two alerts, or the record installed. */
  datatype LoadOutcome = InvalidJson | WrongSchema | Loaded

  /**
   * Where `saveNewVisit` is after its synchronous part: stopped with an outcome,
   * or suspended at the awaited save with the record and file name handed to it.
   */
  datatype SaveStep =
    | Stopped(outcome: Recorder.Outcome)
    | Awaiting(data: PatientRecord, filename: string)

  class EhrSession {
    /** `window.loadedPatientData`. */
    var loadedPatientData: Slot

    /** Only records tagged `patient-v1` ever reach the slot. */
    ghost predicate Valid()
      reads this
    {
      loadedPatientData.Holds? ==> loadedPatientData.record.schema == SCHEMA
    }

    /** A fresh page: nothing loaded. */
    constructor ()
      ensures Valid() && loadedPatientData == Undefined
    {
      loadedPatientData := Undefined;
    }

    /**
     * The `reader.onload` callback. `parsed` is what `JSON.parse` gives for the
     * file text, `None` when it throws. Only a parsed `patient-v1` document is
     * installed, wholesale; otherwise the slot is left as it was.
     */
    method LoadPatientFile(parsed: Option<PatientRecord>) returns (outcome: LoadOutcome)
      requires Valid()
      modifies this
      ensures Valid()
      ensures parsed.None? ==> outcome == InvalidJson && loadedPatientData == old(loadedPatientData)
      ensures parsed.Some? && parsed.value.schema != SCHEMA ==>
        outcome == WrongSchema && loadedPatientData == old(loadedPatientData)
      ensures parsed.Some? && parsed.value.schema == SCHEMA ==>
        outcome == Loaded && loadedPatientData == Holds(parsed.value)
    {
      if parsed.None? {
        return InvalidJson;
      }
      var data := parsed.value;
      if data.schema != SCHEMA {
        return WrongSchema;
      }
      loadedPatientData := Holds(data);
      outcome := Loaded;
    }

    /**
     * `saveNewVisit` up to the awaited save (ehr.js lines 119-160). While a record
     * is loaded, `patient` and the slot are the same object, so each change to
     * `patient` is a change to the slot. The handler either stops here, or hands
     * a record and a file name to the save and suspends.
     */
    method BeginSaveNewVisit(form: Recorder.Form, patientId: string, visitId: string, now: Timestamp)
      returns (step: SaveStep)
      requires Valid()
      modifies this
      ensures Valid()
      ensures step.Stopped? ==>
        (loadedPatientData, step.outcome)
          == Recorder.RecordVisit(old(loadedPatientData), form, patientId, visitId, now, true)
      ensures step.Awaiting? ==>
        (loadedPatientData, Recorder.SaveRejected(step.data, step.filename))
          == Recorder.RecordVisit(old(loadedPatientData), form, patientId, visitId, now, false)
      ensures step.Stopped? ==> step.outcome.Invalid? || step.outcome.VisitsMissing?
      ensures step.Awaiting? ==> step.data.schema == SCHEMA
    {
      var checked := Recorder.Validate(form);
      if checked.Failure? {
        return Stopped(Recorder.Invalid(checked.error));
      }
      var entry := checked.value;
      var aliased := loadedPatientData.Holds?;
      var patient := if aliased then loadedPatientData.record else Recorder.NewRecord(patientId, entry);
      patient := Recorder.WithDemographics(patient, entry);
      if aliased {
        loadedPatientData := Holds(patient);
      }
      if patient.visits.None? {
        return Stopped(Recorder.VisitsMissing);
      }
      patient := patient.(visits := Some(patient.visits.value + [Recorder.NewVisit(visitId, now, entry.notes)]));
      if aliased {
        loadedPatientData := Holds(patient);
      }
      step := Awaiting(patient, Recorder.Filename(entry));
    }

    /**
     * The statement after the awaited save (ehr.js line 163): the slot is set to
     * the saved record, whatever other handler assigned it while the save was pending.
     */
    method FinishSaveNewVisit(data: PatientRecord)
      requires Valid() && data.schema == SCHEMA
      modifies this
      ensures Valid() && loadedPatientData == Holds(data)
    {
      loadedPatientData := Holds(data);
    }

    /**
     * `saveNewVisit` run without another handler in between: the step before the
     * save, then, if the save completes, the step after it.
     */
    method SaveNewVisit(form: Recorder.Form, patientId: string, visitId: string, now: Timestamp,
                        saveSucceeds: bool) returns (outcome: Recorder.Outcome)
      requires Valid()
      modifies this
      ensures Valid()
      ensures (loadedPatientData, outcome)
           == Recorder.RecordVisit(old(loadedPatientData), form, patientId, visitId, now, saveSucceeds)
    {
      var step := BeginSaveNewVisit(form, patientId, visitId, now);
      if step.Stopped? {
        Recorder.StopsBeforeSave(old(loadedPatientData), form, patientId, visitId, now, saveSucceeds);
        return step.outcome;
      }
      if !saveSucceeds {
        return Recorder.SaveRejected(step.data, step.filename);
      }
      FinishSaveNewVisit(step.data);
      outcome := Recorder.Saved(step.data, step.filename);
    }

    /** `clearAllFields`: the slot becomes the empty string, which reads as "nothing loaded". */
    method ClearAllFields()
      modifies this
      ensures Valid() && loadedPatientData == Cleared
    {
      loadedPatientData := Cleared;
    }

    /** `renderVisitHistory` on the current slot; it reads the slot and changes nothing. */
    method RenderVisitHistory() returns (text: string)
      ensures text == History.HistoryText(loadedPatientData)
    {
      text := History.RenderVisitHistory(loadedPatientData);
    }
  }

  /**
   * After a visit is recorded on a loaded record, the refreshed history lists the
   * earlier visits and the new one, each exactly once, most recent first.
   */
  lemma RecordedVisitIsListed(rec: PatientRecord, form: Recorder.Form, patientId: string, visitId: string,
                              now: Timestamp, saveSucceeds: bool)
    requires Recorder.Validate(form).Success? && rec.visits.Some?
    ensures var after := Recorder.RecordVisit(Holds(rec), form, patientId, visitId, now, saveSucceeds).0;
      var added := Recorder.NewVisit(visitId, now, Recorder.Validate(form).value.notes);
      exists s :: History.IsDisplayOrder(rec.visits.value + [added], s)
                  && History.HistoryText(after) == Text.Trim(History.Transcript(s))
  {
    var after := Recorder.RecordVisit(Holds(rec), form, patientId, visitId, now, saveSucceeds).0;
    Recorder.RecordOnLoadedRecord(rec, form, patientId, visitId, now, saveSucceeds);
    var added := Recorder.NewVisit(visitId, now, Recorder.Validate(form).value.notes);
    assert after.record.visits.value == rec.visits.value + [added];
    History.HistoryIsDisplayOrder(after.record);
  }
}
