/**
 * `useGetOrdersWorklist`: the test-order list behind the work list and the review list.
 * Unlike the procedure list there is no concept-class check and no COMPLETED branch.
 */
module WorkListResource {
  import opened Wrappers
  import opened Js
  import opened Seqs
  import opened Orders

  /**
   * The filter callback. `fulfillerStatus` is a JavaScript value, since callers may leave the
   * argument out; any value but "" and "IN_PROGRESS" drops every order.
   */
  predicate Keeps(fulfillerStatus: Nullable<string>, o: Order) {
    if fulfillerStatus == Val("") then
      IsStrictNull(o.fulfillerStatus) && IsStrictNull(o.dateStopped) && o.action == "NEW"
    else if fulfillerStatus == Val("IN_PROGRESS") then
      o.fulfillerStatus == Val("IN_PROGRESS") && IsStrictNull(o.dateStopped) && o.action != "DISCONTINUE"
    else
      false
  }

  function Rule(fulfillerStatus: Nullable<string>): Order -> bool {
    (o: Order) => Keeps(fulfillerStatus, o)
  }

  /** `workListEntries` of `useGetOrdersWorklist(activatedOnOrAfterDate, fulfillerStatus)`. */
  function WorkListEntries(results: Option<seq<Order>>, fulfillerStatus: Nullable<string>): (r: seq<Order>)
    ensures results.None? ==> r == []
    ensures results.Some? ==> Subseq(r, results.value)
    ensures forall o :: o in r ==> results.Some? && o in results.value && Keeps(fulfillerStatus, o)
    ensures results.Some? ==> forall o :: o in results.value && Keeps(fulfillerStatus, o) ==> o in r
    ensures results.Some? ==> forall o :: multiset(r)[o] == if Keeps(fulfillerStatus, o) then multiset(results.value)[o] else 0
  {
    match results
    case None => []
    case Some(rs) =>
      var orders := Filter(rs, Rule(fulfillerStatus));
      FilterIsSubseq(rs, Rule(fulfillerStatus));
      FilterMembers(rs, Rule(fulfillerStatus));
      FilterMultiset(rs, Rule(fulfillerStatus));
      if |orders| > 0 then orders else []
  }

  lemma NewRule(rs: seq<Order>, o: Order)
    ensures o in WorkListEntries(Some(rs), Val("")) <==>
      o in rs && o.fulfillerStatus == Null && o.dateStopped == Null && o.action == "NEW"
  {
  }

  lemma InProgressRule(rs: seq<Order>, o: Order)
    ensures o in WorkListEntries(Some(rs), Val("IN_PROGRESS")) <==>
      o in rs && o.fulfillerStatus == Val("IN_PROGRESS") && o.dateStopped == Null && o.action != "DISCONTINUE"
  {
  }

  /** Every other status, `undefined` and `null` included, yields an empty list. */
  lemma OtherStatusIsEmpty(results: Option<seq<Order>>, fulfillerStatus: Nullable<string>)
    requires fulfillerStatus != Val("") && fulfillerStatus != Val("IN_PROGRESS")
    ensures WorkListEntries(results, fulfillerStatus) == []
  {
    if results.Some? {
      FilterNone(results.value, Rule(fulfillerStatus));
    }
  }

  /**
   * The work list and the review list call the hook with one argument,
   * `useGetOrdersWorklist(fulfillerStatus)`: the status lands in `activatedOnOrAfterDate`
   * (a URL parameter only) and the filter sees `fulfillerStatus === undefined`.
   */
  function EntriesForOneArgumentCall(results: Option<seq<Order>>, fulfillerStatus: string): (r: seq<Order>)
    ensures r == []
  {
    OtherStatusIsEmpty(results, Undefined);
    WorkListEntries(results, Undefined)
  }
}
