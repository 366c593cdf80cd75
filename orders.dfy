/**
 * The order resource as the REST API returns it, restricted to the fields the
 * worklists, tabs and tables read.
 */
module Orders {
  import opened Wrappers
  import opened Js
  import Strings

  datatype Patient = Patient(uuid: string, display: string)

  datatype Concept = Concept(uuid: string, display: string, conceptClassUuid: string)

  datatype Order = Order(
    uuid: string,
    orderNumber: string,
    patient: Patient,
    concept: Concept,
    action: string,                     // "NEW", "REVISE", "DISCONTINUE", ...
    fulfillerStatus: Nullable<string>,  // null, "IN_PROGRESS", "COMPLETED", "EXCEPTION", "DECLINED", ...
    dateStopped: Nullable<string>,
    urgency: string,
    ordererDisplay: string,
    accessionNumber: Nullable<string>,
    encounterUuid: Nullable<string>
  )

  function PatientUuidOf(o: Order): string {
    o.patient.uuid
  }

  /** `patient.display.split("-")[1]`: the patient name in an "identifier - name" display. */
  function PatientName(display: string): Option<string> {
    Strings.SecondSegment(display, '-')
  }
}
