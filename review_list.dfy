/**
 * `ReviewList`: the rows of the current page that await review, and the encounter each
 * row's approve menu opens.
 */
module ReviewList {
  import opened Wrappers
  import opened Js
  import opened Seqs
  import opened Orders
  import WorkListResource

  /** A revised or discontinued order that is still in progress. */
  predicate AwaitsReview(o: Order) {
    (o.action == "DISCONTINUE" || o.action == "REVISE") && o.fulfillerStatus == Val("IN_PROGRESS")
  }

  datatype ReviewRow = ReviewRow(
    id: string,
    orderNumber: string,
    patient: Option<string>,
    accessionNumber: Nullable<string>,
    test: string,
    action: string,
    status: Nullable<string>,
    orderer: string,
    urgency: string
  )

  function RowOf(o: Order): (row: ReviewRow)
    ensures row.id == o.uuid
    ensures row.patient == PatientName(o.patient.display)
  {
    ReviewRow(o.uuid, o.orderNumber, PatientName(o.patient.display), o.accessionNumber,
              o.concept.display, o.action, o.fulfillerStatus, o.ordererDisplay, o.urgency)
  }

  /** `tableRows`: one row per page entry awaiting review, at most one per entry, in page order. */
  function TableRows(page: seq<Order>): (rows: seq<ReviewRow>)
    ensures |rows| == |Filter(page, AwaitsReview)| <= |page|
    ensures forall i :: 0 <= i < |rows| ==>
      FilterIndices(page, AwaitsReview)[i] < |page| &&
      AwaitsReview(page[FilterIndices(page, AwaitsReview)[i]]) &&
      rows[i] == RowOf(page[FilterIndices(page, AwaitsReview)[i]])
  {
    var kept := Filter(page, AwaitsReview);
    var rows := seq(|kept|, i requires 0 <= i < |kept| => RowOf(kept[i]));
    MappedAtKeptPositions(page, AwaitsReview, rows, RowOf);
    rows
  }

  /** Every page entry awaiting review has its row. */
  lemma EveryReviewEntryHasRow(page: seq<Order>, o: Order)
    requires o in page && AwaitsReview(o)
    ensures RowOf(o) in TableRows(page)
  {
    var kept := Filter(page, AwaitsReview);
    FilterMembers(page, AwaitsReview);
    var i :| 0 <= i < |kept| && kept[i] == o;
    assert TableRows(page)[i] == RowOf(o);
  }

  /** Rows keep the page order: a later row comes from a later page entry. */
  lemma RowsFollowPageOrder(page: seq<Order>, i: nat, j: nat)
    requires i < j < |TableRows(page)|
    ensures FilterIndices(page, AwaitsReview)[i] < FilterIndices(page, AwaitsReview)[j]
  {
    FilterIndicesIncrease(page, AwaitsReview, i, j);
  }

  /**
   * The approve menu of the row at `index` opens `paginatedWorkListEntries[index]?.encounter?.uuid`:
   * the page entry at the row's position, not the row's own entry.
   */
  function ApproveTarget(page: seq<Order>, index: nat): (target: Nullable<string>)
    ensures index < |page| ==> target == page[index].encounterUuid
    ensures index >= |page| ==> target == Undefined
  {
    if index < |page| then page[index].encounterUuid else Undefined
  }

  /** The menu of row `i` targets the row's own entry's position iff no entry up to it was dropped. */
  lemma ApproveTargetIsOwnEntry(page: seq<Order>, i: nat)
    requires i < |TableRows(page)|
    ensures FilterIndices(page, AwaitsReview)[i] == i <==> forall j :: 0 <= j <= i ==> AwaitsReview(page[j])
  {
    FilterIndexIsOwn(page, AwaitsReview, i);
  }

  /**
   * As mounted, the list is fed by the one-argument call of `useGetOrdersWorklist`, whose
   * entries are always empty, so every page is empty and no row is shown.
   */
  lemma MountedListHasNoRows(results: Option<seq<Order>>, fulfillerStatus: string, page: seq<Order>)
    requires Subseq(page, WorkListResource.EntriesForOneArgumentCall(results, fulfillerStatus))
    ensures TableRows(page) == []
  {
    SubseqLength(page, WorkListResource.EntriesForOneArgumentCall(results, fulfillerStatus));
  }
}
