/**
 * `useOrdersWorklist`: the procedure-order list behind the Active, Worklist and Completed
 * views. The fetched `results` are filtered by a rule chosen by the requested status.
 */
module OrdersWorklist {
  import opened Wrappers
  import opened Js
  import opened Seqs
  import opened Orders

  /**
   * The filter callback. `procedureClass` is `ProcedureConceptClass_UUID`.
   * A status other than "", "IN_PROGRESS" and "COMPLETED" falls through all branches, so the
   * callback returns `undefined` and drops every order.
   */
  predicate Keeps(fulfillerStatus: string, procedureClass: string, o: Order) {
    if fulfillerStatus == "" then
      IsStrictNull(o.fulfillerStatus) && IsStrictNull(o.dateStopped) && o.action == "NEW" &&
      o.concept.conceptClassUuid == procedureClass
    else if fulfillerStatus == "IN_PROGRESS" then
      o.fulfillerStatus == Val("IN_PROGRESS") && IsStrictNull(o.dateStopped) && o.action != "DISCONTINUE" &&
      o.concept.conceptClassUuid == procedureClass
    else if fulfillerStatus == "COMPLETED" then
      o.fulfillerStatus == Val("COMPLETED") && IsStrictNull(o.dateStopped) && o.action != "DISCONTINUE" &&
      o.concept.conceptClassUuid == procedureClass
    else
      false
  }

  function Rule(fulfillerStatus: string, procedureClass: string): Order -> bool {
    (o: Order) => Keeps(fulfillerStatus, procedureClass, o)
  }

  /**
   * `workListEntries`: the filtered results, or `[]` when nothing was fetched
   * (`orders?.length > 0 ? orders : []`).
   */
  function WorkListEntries(results: Option<seq<Order>>, fulfillerStatus: string, procedureClass: string): (r: seq<Order>)
    ensures results.None? ==> r == []
    ensures results.Some? ==> Subseq(r, results.value)
    ensures forall o :: o in r ==> results.Some? && o in results.value && Keeps(fulfillerStatus, procedureClass, o)
    ensures results.Some? ==> forall o :: o in results.value && Keeps(fulfillerStatus, procedureClass, o) ==> o in r
    ensures results.Some? ==> forall o ::
      multiset(r)[o] == (if Keeps(fulfillerStatus, procedureClass, o) then multiset(results.value)[o] else 0)
  {
    match results
    case None => []
    case Some(rs) =>
      var orders := Filter(rs, Rule(fulfillerStatus, procedureClass));
      FilterIsSubseq(rs, Rule(fulfillerStatus, procedureClass));
      FilterMembers(rs, Rule(fulfillerStatus, procedureClass));
      FilterMultiset(rs, Rule(fulfillerStatus, procedureClass));
      if |orders| > 0 then orders else []
  }

  /** The Active Orders list: new, unstopped procedure orders with no fulfiller status yet. */
  lemma ActiveRule(rs: seq<Order>, procedureClass: string, o: Order)
    ensures o in WorkListEntries(Some(rs), "", procedureClass) <==>
      o in rs && o.fulfillerStatus == Null && o.dateStopped == Null && o.action == "NEW" &&
      o.concept.conceptClassUuid == procedureClass
  {
  }

  /** The in-progress list: unstopped procedure orders in progress that are not discontinuations. */
  lemma InProgressRule(rs: seq<Order>, procedureClass: string, o: Order)
    ensures o in WorkListEntries(Some(rs), "IN_PROGRESS", procedureClass) <==>
      o in rs && o.fulfillerStatus == Val("IN_PROGRESS") && o.dateStopped == Null && o.action != "DISCONTINUE" &&
      o.concept.conceptClassUuid == procedureClass
  {
  }

  /** The completed list: the in-progress rule with status COMPLETED. */
  lemma CompletedRule(rs: seq<Order>, procedureClass: string, o: Order)
    ensures o in WorkListEntries(Some(rs), "COMPLETED", procedureClass) <==>
      o in rs && o.fulfillerStatus == Val("COMPLETED") && o.dateStopped == Null && o.action != "DISCONTINUE" &&
      o.concept.conceptClassUuid == procedureClass
  {
  }

  /** Any other status (for example "EXCEPTION" or "DECLINED") yields an empty list. */
  lemma OtherStatusIsEmpty(results: Option<seq<Order>>, fulfillerStatus: string, procedureClass: string)
    requires fulfillerStatus !in {"", "IN_PROGRESS", "COMPLETED"}
    ensures WorkListEntries(results, fulfillerStatus, procedureClass) == []
  {
    if results.Some? {
      FilterNone(results.value, Rule(fulfillerStatus, procedureClass));
    }
  }

  /** Applying the filter to its own output changes nothing. */
  lemma FilterIsIdempotent(results: Option<seq<Order>>, fulfillerStatus: string, procedureClass: string)
    ensures var once := WorkListEntries(results, fulfillerStatus, procedureClass);
      WorkListEntries(Some(once), fulfillerStatus, procedureClass) == once
  {
    if results.Some? {
      FilterIdempotent(results.value, Rule(fulfillerStatus, procedureClass));
    }
  }
}
