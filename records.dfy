/**
 * The patient document (`patient-v1`) and the one module-level slot that holds
 * the record currently loaded in the page.
 */
module Records {
  import opened Wrappers

  /** The only schema tag the form accepts and writes. */
  const SCHEMA: string := "patient-v1"

  /**
   * A visit time: the ISO text stored in the file and the instant that
   * date parsing gives for that text, which is what the history sort compares.
   */
  datatype Timestamp = Timestamp(text: string, instant: int)

  /** One visit entry, `{visit_id, timestamp, content: {notes}}`; `notes` may be missing. */
  datatype Visit = Visit(visitId: string, timestamp: Timestamp, notes: Option<string>)

  /** The root document; `visits` is `None` when the loaded file has no `visits` field. */
  datatype PatientRecord = PatientRecord(
    schema: string,
    patientId: string,
    firstName: string,
    lastName: string,
    birthdate: string,
    personalId: string,
    visits: Option<seq<Visit>>)

  /**
   * `window.loadedPatientData`: `undefined` before anything is loaded, the empty
   * string after the form is cleared, otherwise a record. Only `Holds` is truthy.
   */
  datatype Slot = Undefined | Cleared | Holds(record: PatientRecord)
}
