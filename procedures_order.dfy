/** The procedure order basket: the urgency options and the item a newly picked procedure becomes. */
module ProceduresOrder {

  datatype PriorityOption = PriorityOption(value: string, labelText: string)

  /** `priorityOptions`, the order urgencies the form offers, in menu order. */
  const PriorityOptions: seq<PriorityOption> := [
    PriorityOption("ROUTINE", "Routine"),
    PriorityOption("STAT", "Stat"),
    PriorityOption("SCHEDULED", "Scheduled")
  ]

  /** A procedure concept offered for ordering; only its `label` (here `labelText`, `label` being a Dafny keyword) is read here. */
  datatype ProceduresType = ProceduresType(conceptUuid: string, labelText: string)

  datatype BasketItem = BasketItem(action: string, urgency: string, display: string, testType: ProceduresType, orderer: string)

  /** `createEmptyLabOrder`, without the `scheduleDate` clock read. */
  function CreateEmptyLabOrder(testType: ProceduresType, orderer: string): (item: BasketItem)
    ensures item.action == "NEW"
    ensures item.urgency == "ROUTINE" && item.urgency == PriorityOptions[0].value
    ensures item.display == testType.labelText
    ensures item.testType == testType && item.orderer == orderer
  {
    BasketItem("NEW", PriorityOptions[0].value, testType.labelText, testType, orderer)
  }

  /** The options are exactly ROUTINE, STAT and SCHEDULED, with distinct values, and a new item's urgency is one of them. */
  lemma PriorityOptionsDistinct(testType: ProceduresType, orderer: string)
    ensures |PriorityOptions| == 3
    ensures forall i, j :: 0 <= i < j < |PriorityOptions| ==> PriorityOptions[i].value != PriorityOptions[j].value
    ensures (set o | o in PriorityOptions :: o.value) == {"ROUTINE", "STAT", "SCHEDULED"}
    ensures exists o :: o in PriorityOptions && o.value == CreateEmptyLabOrder(testType, orderer).urgency
  {
    assert PriorityOptions[0] in PriorityOptions;
    var vs := set o | o in PriorityOptions :: o.value;
    assert "ROUTINE" in vs && "STAT" in vs && "SCHEDULED" in vs by {
      assert PriorityOptions[1] in PriorityOptions && PriorityOptions[2] in PriorityOptions;
    }
  }
}
