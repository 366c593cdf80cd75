/**
 * `procedure-summary.resource`: the tab counters of `useProcedureOrderStats`, the service
 * list of `useServices` and the fixed metrics of `useMetrics`.
 */
module ProcedureSummary {
  import opened Wrappers
  import opened Js
  import opened Seqs
  import opened Orders
  import OrdersWorklist

  function IsProcedure(procedureClass: string): Order -> bool {
    (o: Order) => o.concept.conceptClassUuid == procedureClass
  }

  function HasNoFulfillerStatus(o: Order): bool {
    IsLooseNull(o.fulfillerStatus)
  }

  /** `procedureOrders`: the results of the procedure concept class, `undefined` when nothing was fetched. */
  function ProcedureOrders(results: Option<seq<Order>>, procedureClass: string): (r: Option<seq<Order>>)
    ensures r.None? <==> results.None?
    ensures r.Some? ==> Subseq(r.value, results.value)
    ensures r.Some? ==> forall o :: o in r.value <==> o in results.value && o.concept.conceptClassUuid == procedureClass
    ensures r.Some? ==> forall o ::
      multiset(r.value)[o] == (if o.concept.conceptClassUuid == procedureClass then multiset(results.value)[o] else 0)
  {
    match results
    case None => None
    case Some(rs) =>
      FilterIsSubseq(rs, IsProcedure(procedureClass));
      FilterMembers(rs, IsProcedure(procedureClass));
      FilterMultiset(rs, IsProcedure(procedureClass));
      Some(Filter(rs, IsProcedure(procedureClass)))
  }

  /**
   * `count` of `useProcedureOrderStats(fulfillerStatus)`; `None` is `undefined`.
   * With an empty status it counts procedure orders whose status is `== null`;
   * with any other status it is the number of all results.
   */
  function OrderCount(results: Option<seq<Order>>, fulfillerStatus: string, procedureClass: string): (count: Option<nat>)
    ensures fulfillerStatus == "" ==> (count.None? <==> results.None?)
    ensures fulfillerStatus != "" ==> count == Some(if results.Some? then |results.value| else 0)
  {
    if fulfillerStatus == "" then
      match ProcedureOrders(results, procedureClass)
      case None => None
      case Some(ps) => Some(|Filter(ps, HasNoFulfillerStatus)|)
    else
      Some(if results.Some? then |results.value| else 0)
  }

  /** The Active Orders counter, in one pass: procedure orders whose status is `null` or missing. */
  function Unassigned(procedureClass: string): Order -> bool {
    (o: Order) => o.concept.conceptClassUuid == procedureClass && IsLooseNull(o.fulfillerStatus)
  }

  lemma ActiveCountCountsUnassignedProcedures(rs: seq<Order>, procedureClass: string)
    ensures OrderCount(Some(rs), "", procedureClass) == Some(|Filter(rs, Unassigned(procedureClass))|)
  {
    FilterFilter(rs, IsProcedure(procedureClass), HasNoFulfillerStatus, Unassigned(procedureClass));
  }

  /**
   * On the same results, the Active Orders counter is never smaller than the Active Orders
   * list: the list also demands action NEW and no stop date, and strict `=== null`.
   */
  lemma ActiveListNeverExceedsCounter(rs: seq<Order>, procedureClass: string)
    ensures |OrdersWorklist.WorkListEntries(Some(rs), "", procedureClass)| <= OrderCount(Some(rs), "", procedureClass).value
  {
    ActiveCountCountsUnassignedProcedures(rs, procedureClass);
    FilterWeaker(rs, OrdersWorklist.Rule("", procedureClass), Unassigned(procedureClass));
  }

  /** The counter of an unfetched list is `undefined` with the empty status and 0 otherwise. */
  lemma NoDataCount(fulfillerStatus: string, procedureClass: string)
    ensures OrderCount(None, fulfillerStatus, procedureClass) == if fulfillerStatus == "" then None else Some(0)
  {
  }

  /** A non-empty status counts every result, procedure or not. */
  lemma StatusCountIgnoresConceptClass(rs: seq<Order>, fulfillerStatus: string, procedureClass: string)
    requires fulfillerStatus != ""
    ensures OrderCount(Some(rs), fulfillerStatus, procedureClass) == Some(|rs|)
    ensures |ProcedureOrders(Some(rs), procedureClass).value| <= OrderCount(Some(rs), fulfillerStatus, procedureClass).value
  {
  }

  datatype SetMember = SetMember(display: string)

  /** The fetched service concept set; `setMembers` may be missing from the response. */
  datatype ServiceConcept = ServiceConcept(setMembers: Option<seq<SetMember>>)

  /** `services` of `useServices`: `[]` before data arrives, `undefined` if the concept has no members list. */
  function Services(data: Option<ServiceConcept>): (r: Option<seq<string>>)
    ensures data.None? ==> r == Some([])
    ensures data.Some? && data.value.setMembers.None? ==> r.None?
    ensures data.Some? && data.value.setMembers.Some? ==>
      var ms := data.value.setMembers.value;
      r.Some? && |r.value| == |ms| && forall i :: 0 <= i < |ms| ==> r.value[i] == ms[i].display
  {
    match data
    case None => Some([])
    case Some(concept) =>
      match concept.setMembers
      case None => None
      case Some(ms) => Some(seq(|ms|, i requires 0 <= i < |ms| => ms[i].display))
  }

  datatype Metrics = Metrics(orders: nat, inProgress: nat, transferred: nat, completed: nat)

  datatype MetricsResult = MetricsResult(metrics: Metrics, isError: bool, isLoading: bool)

  /** `useMetrics`: the queue response is fetched but never read; the metrics are constants. */
  function UseMetrics<T>(data: Option<T>, error: bool): (r: MetricsResult)
    ensures r.metrics == Metrics(15, 4, 1, 6)
    ensures r.isError == error
    ensures r.isLoading <==> data.None? && !error
  {
    MetricsResult(Metrics(15, 4, 1, 6), error, data.None? && !error)
  }

  /** Whatever is fetched, the metrics are the same. */
  lemma MetricsIgnoreFetchedData<T>(a: Option<T>, b: Option<T>, errorA: bool, errorB: bool)
    ensures UseMetrics(a, errorA).metrics == UseMetrics(b, errorB).metrics
  {
  }
}
