/**
 * `WorkList`: the in-progress rows of the current page. The result-form and reject actions
 * of a row are handed the page entry at the row's position among the rows.
 */
module WorkList {
  import opened Wrappers
  import opened Js
  import opened Seqs
  import opened Orders
  import WorkListResource

  predicate InProgress(o: Order) {
    o.fulfillerStatus == Val("IN_PROGRESS")
  }

  datatype WorkRow = WorkRow(
    id: string,
    orderNumber: string,
    patientUuid: string,          // the chart link and the result form's patient
    patientName: Option<string>,
    accessionNumber: Nullable<string>,
    test: string,
    action: string,
    status: Nullable<string>,
    orderer: string,
    urgency: string,
    actionOrder: Order            // the order passed to the result form and the reject dialog
  )

  /** The row the `map` callback builds for `entry` at position `index` of the filtered list. */
  function RowOf(page: seq<Order>, entry: Order, index: nat): (row: WorkRow)
    requires index < |page|
    ensures row.id == entry.uuid && row.patientUuid == entry.patient.uuid
    ensures row.patientName == PatientName(entry.patient.display)
    ensures row.actionOrder == page[index]
  {
    WorkRow(entry.uuid, entry.orderNumber, entry.patient.uuid, PatientName(entry.patient.display),
            entry.accessionNumber, entry.concept.display, entry.action, entry.fulfillerStatus,
            entry.ordererDisplay, entry.urgency, page[index])
  }

  /**
   * `tableRows`: one row per in-progress page entry, in page order. Row `i` describes the
   * entry at the `i`-th kept position, but its actions receive `page[i]`.
   */
  function TableRows(page: seq<Order>): (rows: seq<WorkRow>)
    ensures |rows| == |Filter(page, InProgress)| <= |page|
    ensures forall i :: 0 <= i < |rows| ==>
      var own := FilterIndices(page, InProgress)[i];
      && own < |page| && InProgress(page[own])
      && rows[i].id == page[own].uuid
      && rows[i].patientUuid == page[own].patient.uuid
      && rows[i].patientName == PatientName(page[own].patient.display)
      && rows[i].actionOrder == page[i]
  {
    var kept := Filter(page, InProgress);
    var rows := seq(|kept|, i requires 0 <= i < |kept| => RowOf(page, kept[i], i));
    FilterMembers(page, InProgress);
    forall i | 0 <= i < |rows|
      ensures FilterIndices(page, InProgress)[i] < |page|
      ensures kept[i] == page[FilterIndices(page, InProgress)[i]]
      ensures InProgress(kept[i])
    {
      FilterIndicesAt(page, InProgress, i);
      assert kept[i] in kept;
    }
    rows
  }

  /** Every in-progress page entry has a row with its id. */
  lemma EveryInProgressEntryHasRow(page: seq<Order>, o: Order)
    requires o in page && InProgress(o)
    ensures exists i :: 0 <= i < |TableRows(page)| && TableRows(page)[i].id == o.uuid
  {
    var kept := Filter(page, InProgress);
    FilterMembers(page, InProgress);
    var i :| 0 <= i < |kept| && kept[i] == o;
    assert TableRows(page)[i].id == o.uuid;
  }

  /** Rows keep the page order: a later row describes a later page entry. */
  lemma RowsFollowPageOrder(page: seq<Order>, i: nat, j: nat)
    requires i < j < |TableRows(page)|
    ensures FilterIndices(page, InProgress)[i] < FilterIndices(page, InProgress)[j]
  {
    FilterIndicesIncrease(page, InProgress, i, j);
  }

  /** Row `i`'s actions receive the row's own entry position iff no page entry up to it was filtered out. */
  lemma ActionTargetIsOwnEntry(page: seq<Order>, i: nat)
    requires i < |TableRows(page)|
    ensures FilterIndices(page, InProgress)[i] == i <==> forall j :: 0 <= j <= i ==> InProgress(page[j])
  {
    FilterIndexIsOwn(page, InProgress, i);
  }

  /** A page whose first entry is not in progress: the only row is the second entry, its actions get the first. */
  lemma ActionTargetsAnotherEntry(a: Order, b: Order)
    requires !InProgress(a) && InProgress(b)
    ensures |TableRows([a, b])| == 1
    ensures TableRows([a, b])[0].id == b.uuid
    ensures TableRows([a, b])[0].actionOrder == a != b
  {
    var page := [a, b];
    assert page[1..] == [b] && page[1..][1..] == [];
    assert Filter(page, InProgress) == [b];
    assert IndicesFrom(page[1..], InProgress, 1) == [1] + IndicesFrom(page[1..][1..], InProgress, 2);
    assert FilterIndices(page, InProgress) == [1];
  }

  /**
   * As mounted, the list is fed by the one-argument call of `useGetOrdersWorklist`, whose
   * entries are always empty, so every page is empty and no row is shown.
   */
  lemma MountedListHasNoRows(results: Option<seq<Order>>, fulfillerStatus: string, page: seq<Order>)
    requires Subseq(page, WorkListResource.EntriesForOneArgumentCall(results, fulfillerStatus))
    ensures TableRows(page) == []
  {
    SubseqLength(page, WorkListResource.EntriesForOneArgumentCall(results, fulfillerStatus));
  }
}
