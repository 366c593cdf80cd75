/**
 * The table that shows orders grouped by patient: the status dropdown filter,
 * `groupOrdersById`, the row projection and the pagination handler.
 */
module GroupedOrdersTable {
  import opened Wrappers
  import opened Js
  import opened Seqs
  import opened Orders
  import JsObject
  import Strings
  import Pagination

  /** `order.fulfillerStatus === filter` */
  function HasStatus(filter: string): Order -> bool {
    (o: Order) => o.fulfillerStatus == Val(filter)
  }

  /** `filteredEntries`: "All" or an empty filter passes every order through. */
  function FilteredEntries(entries: Option<seq<Order>>, filter: string): (r: Option<seq<Order>>)
    ensures filter == "" || filter == "All" ==> r == entries
    ensures r.None? <==> entries.None?
    ensures r.Some? ==> Subseq(r.value, entries.value)
    ensures r.Some? && filter != "" && filter != "All" ==>
      (forall o :: o in r.value ==> o in entries.value && o.fulfillerStatus == Val(filter)) &&
      (forall o :: o in entries.value && o.fulfillerStatus == Val(filter) ==> o in r.value) &&
      (forall o :: multiset(r.value)[o] == if o.fulfillerStatus == Val(filter) then multiset(entries.value)[o] else 0)
  {
    if filter == "" || filter == "All" then
      (if entries.Some? then SubseqRefl(entries.value); entries else entries)
    else
      match entries
      case None => None
      case Some(es) =>
        FilterIsSubseq(es, HasStatus(filter));
        FilterMembers(es, HasStatus(filter));
        FilterMultiset(es, HasStatus(filter));
        Some(Filter(es, HasStatus(filter)))
  }

  datatype PatientGroup = PatientGroup(patientId: string, orders: seq<Order>)

  /** `item.patient.uuid === patientId` */
  function ForPatient(patientId: string): Order -> bool {
    (o: Order) => o.patient.uuid == patientId
  }

  /** The orders of one patient, in input order. */
  function OrdersOf(s: seq<Order>, patientId: string): seq<Order> {
    Filter(s, ForPatient(patientId))
  }

  /** Patient uuids in order of first occurrence: the `Object.keys` order of the accumulator. */
  function PatientIds(s: seq<Order>): seq<string> {
    DistinctKeys(s, PatientUuidOf)
  }

  function GroupsFor(s: seq<Order>, ids: seq<string>): (r: seq<PatientGroup>)
    ensures |r| == |ids|
    ensures forall j :: 0 <= j < |ids| ==> r[j] == PatientGroup(ids[j], OrdersOf(s, ids[j]))
  {
    if ids == [] then [] else [PatientGroup(ids[0], OrdersOf(s, ids[0]))] + GroupsFor(s, ids[1..])
  }

  /** Reference definition of the grouping: one group per patient, in first-occurrence order. */
  function Groups(s: seq<Order>): seq<PatientGroup> {
    GroupsFor(s, PatientIds(s))
  }

  /** The accumulator after reducing over `prefix`: one entry per patient seen, holding that patient's orders. */
  ghost predicate Accumulates(acc: JsObject.Obj<seq<Order>>, prefix: seq<Order>) {
    && acc.Valid()
    && acc.keys == PatientIds(prefix)
    && forall k :: k in acc.entries ==> acc.entries[k] == OrdersOf(prefix, k)
  }

  /**
   * One reduce step, `if (!acc[key]) acc[key] = []; acc[key].push(item)`: `created` is the
   * accumulator after the first statement and `after` the one after the push.
   */
  lemma PushStep(acc: JsObject.Obj<seq<Order>>, created: JsObject.Obj<seq<Order>>, after: JsObject.Obj<seq<Order>>, prefix: seq<Order>, item: Order)
    requires Accumulates(acc, prefix)
    requires created == if !acc.Has(item.patient.uuid) then JsObject.Set(acc, item.patient.uuid, []) else acc
    requires after == JsObject.Set(created, item.patient.uuid, created.entries[item.patient.uuid] + [item])
    ensures Accumulates(after, prefix + [item])
  {
    PushedKeys(acc, created, after, prefix, item);
    PushedEntries(acc, created, after, prefix, item);
  }

  /** The push step creates the patient's key exactly when the patient is new. */
  lemma PushedKeys(acc: JsObject.Obj<seq<Order>>, created: JsObject.Obj<seq<Order>>, after: JsObject.Obj<seq<Order>>, prefix: seq<Order>, item: Order)
    requires Accumulates(acc, prefix)
    requires created == if !acc.Has(item.patient.uuid) then JsObject.Set(acc, item.patient.uuid, []) else acc
    requires after == JsObject.Set(created, item.patient.uuid, created.entries[item.patient.uuid] + [item])
    ensures after.Valid() && after.keys == PatientIds(prefix + [item])
  {
    var s := prefix + [item];
    assert s[..|s| - 1] == prefix && s[|s| - 1] == item;
  }

  /** After the push step every entry holds its patient's orders of the longer prefix. */
  lemma PushedEntries(acc: JsObject.Obj<seq<Order>>, created: JsObject.Obj<seq<Order>>, after: JsObject.Obj<seq<Order>>, prefix: seq<Order>, item: Order)
    requires Accumulates(acc, prefix)
    requires created == if !acc.Has(item.patient.uuid) then JsObject.Set(acc, item.patient.uuid, []) else acc
    requires after == JsObject.Set(created, item.patient.uuid, created.entries[item.patient.uuid] + [item])
    ensures forall k :: k in after.entries ==> after.entries[k] == OrdersOf(prefix + [item], k)
  {
    forall k | k in after.entries
      ensures after.entries[k] == OrdersOf(prefix + [item], k)
    {
      FilterSnoc(prefix, item, ForPatient(k));
      if k == item.patient.uuid {
        PushedEntry(acc, created, prefix, item);
      }
    }
  }

  /** The entry the push extends holds the patient's earlier orders before the push. */
  lemma PushedEntry(acc: JsObject.Obj<seq<Order>>, created: JsObject.Obj<seq<Order>>, prefix: seq<Order>, item: Order)
    requires Accumulates(acc, prefix)
    requires created == if !acc.Has(item.patient.uuid) then JsObject.Set(acc, item.patient.uuid, []) else acc
    ensures item.patient.uuid in created.entries
    ensures created.entries[item.patient.uuid] == OrdersOf(prefix, item.patient.uuid)
  {
    if !acc.Has(item.patient.uuid) {
      NotSeenHasNoOrders(prefix, item.patient.uuid);
    }
  }

  lemma NotSeenHasNoOrders(prefix: seq<Order>, key: string)
    requires key !in PatientIds(prefix)
    ensures OrdersOf(prefix, key) == []
  {
    DistinctKeysMembers(prefix, PatientUuidOf);
    forall x | x in prefix
      ensures !ForPatient(key)(x)
    {
      var i :| 0 <= i < |prefix| && prefix[i] == x;
    }
    FilterNone(prefix, ForPatient(key));
  }

  /** `Object.keys(acc).map((patientId) => ({ patientId, orders: acc[patientId] }))` */
  function GroupsOf(acc: JsObject.Obj<seq<Order>>): (r: seq<PatientGroup>)
    requires acc.Valid()
    ensures |r| == |acc.keys|
    ensures forall j :: 0 <= j < |r| ==> r[j] == PatientGroup(acc.keys[j], acc.entries[acc.keys[j]])
  {
    seq(|acc.keys|, j requires 0 <= j < |acc.keys| => PatientGroup(acc.keys[j], acc.entries[acc.keys[j]]))
  }

  /** The groups read off the final accumulator are the reference grouping. */
  lemma AccumulatedGroups(acc: JsObject.Obj<seq<Order>>, s: seq<Order>)
    requires Accumulates(acc, s)
    ensures GroupsOf(acc) == Groups(s)
  {
    var r, g := GroupsOf(acc), Groups(s);
    forall j | 0 <= j < |r|
      ensures r[j] == g[j]
    {
      assert acc.keys[j] in acc.keys;
    }
  }

  /**
   * The `reduce` of `groupOrdersById`: for each order, `acc[patient.uuid]` is created on
   * first sight and the order is pushed onto it.
   */
  method ReduceByPatient(os: seq<Order>) returns (acc: JsObject.Obj<seq<Order>>)
    ensures Accumulates(acc, os)
  {
    acc := JsObject.Empty();
    assert Accumulates(acc, os[..0]) by {
      assert os[..0] == [];
    }
    var i := 0;
    while i < |os|
      invariant 0 <= i <= |os|
      invariant Accumulates(acc, os[..i])
    {
      var item := os[i];
      var key := item.patient.uuid;
      ghost var before := acc;
      if !acc.Has(key) {
        acc := JsObject.Set(acc, key, []);
      }
      ghost var created := acc;
      acc := JsObject.Set(acc, key, acc.entries[key] + [item]);
      PushStep(before, created, acc, os[..i], item);
      TakeSnoc(os, i);
      i := i + 1;
    }
    assert os[..i] == os;
  }

  /**
   * `groupOrdersById`: the reduce, followed by `Object.keys(acc).map(...)`; `[]` for an
   * absent or empty list.
   */
  method GroupOrdersById(orders: Option<seq<Order>>) returns (groups: seq<PatientGroup>)
    ensures orders.None? || orders.value == [] ==> groups == []
    ensures orders.Some? ==> groups == Groups(orders.value)
  {
    if orders.Some? && |orders.value| > 0 {
      var acc := ReduceByPatient(orders.value);
      groups := GroupsOf(acc);
      AccumulatedGroups(acc, orders.value);
    } else {
      groups := [];
    }
  }


  /** Group ids are distinct, no group is empty, and a group holds only its patient's orders, in input order. */
  lemma GroupsWellFormed(s: seq<Order>)
    ensures var g := Groups(s);
      && (forall a, b :: 0 <= a < b < |g| ==> g[a].patientId != g[b].patientId)
      && (forall j :: 0 <= j < |g| ==> g[j].orders != [])
      && (forall j :: 0 <= j < |g| ==> Subseq(g[j].orders, s))
      && (forall j, o :: 0 <= j < |g| && o in g[j].orders ==> o in s && o.patient.uuid == g[j].patientId)
  {
    var g, ids := Groups(s), PatientIds(s);
    DistinctKeysMembers(s, PatientUuidOf);
    forall j | 0 <= j < |g|
      ensures g[j].orders != [] && Subseq(g[j].orders, s)
      ensures forall o :: o in g[j].orders ==> o in s && o.patient.uuid == g[j].patientId
    {
      assert ids[j] in ids;
      var i :| 0 <= i < |s| && PatientUuidOf(s[i]) == ids[j];
      OneGroupWellFormed(s, ids[j], i);
    }
  }

  /** The group of a patient that occurs at position `i` holds that order and only that patient's orders. */
  lemma OneGroupWellFormed(s: seq<Order>, id: string, i: nat)
    requires i < |s| && s[i].patient.uuid == id
    ensures OrdersOf(s, id) != [] && Subseq(OrdersOf(s, id), s)
    ensures forall o :: o in OrdersOf(s, id) ==> o in s && o.patient.uuid == id
  {
    FilterIsSubseq(s, ForPatient(id));
    FilterMembers(s, ForPatient(id));
    assert s[i] in OrdersOf(s, id);
  }

  /** Every order lands in the one group whose id is its patient's uuid, and in no other. */
  lemma EveryOrderInExactlyOneGroup(s: seq<Order>, o: Order)
    requires o in s
    ensures var g := Groups(s);
      && (exists j :: 0 <= j < |g| && g[j].patientId == o.patient.uuid && o in g[j].orders)
      && (forall j :: 0 <= j < |g| && o in g[j].orders ==> g[j].patientId == o.patient.uuid)
  {
    var g, ids := Groups(s), PatientIds(s);
    DistinctKeysMembers(s, PatientUuidOf);
    var i :| 0 <= i < |s| && s[i] == o;
    assert PatientUuidOf(s[i]) in ids;
    var j :| 0 <= j < |ids| && ids[j] == o.patient.uuid;
    FilterMembers(s, ForPatient(ids[j]));
    assert o in g[j].orders;
    forall j' | 0 <= j' < |g| && o in g[j'].orders
      ensures g[j'].patientId == o.patient.uuid
    {
      FilterMembers(s, ForPatient(ids[j']));
    }
  }

  /** Groups appear in the order in which each patient first occurs in the input. */
  lemma GroupsInFirstOccurrenceOrder(s: seq<Order>)
    ensures var g := Groups(s);
      forall a, b :: 0 <= a < b < |g| ==>
        FirstIndex(s, PatientUuidOf, g[a].patientId) < FirstIndex(s, PatientUuidOf, g[b].patientId)
  {
    DistinctKeysFirstOccurrenceOrder(s, PatientUuidOf);
  }

  /** Sum of the group sizes. */
  function TotalOrders(groups: seq<PatientGroup>): nat {
    if groups == [] then 0 else |groups[0].orders| + TotalOrders(groups[1..])
  }

  lemma {:induction false} TotalOrdersOfNothing(ids: seq<string>)
    ensures TotalOrders(GroupsFor([], ids)) == 0
    decreases |ids|
  {
    if ids != [] {
      var g := GroupsFor([], ids);
      assert g[1..] == GroupsFor([], ids[1..]);
      TotalOrdersOfNothing(ids[1..]);
    }
  }

  lemma {:induction false} TotalOrdersSnoc(t: seq<Order>, x: Order, ids: seq<string>)
    requires Distinct(ids)
    ensures TotalOrders(GroupsFor(t + [x], ids)) == TotalOrders(GroupsFor(t, ids)) + (if x.patient.uuid in ids then 1 else 0)
    decreases |ids|
  {
    if ids != [] {
      var k := ids[0];
      assert GroupsFor(t + [x], ids)[1..] == GroupsFor(t + [x], ids[1..]);
      assert GroupsFor(t, ids)[1..] == GroupsFor(t, ids[1..]);
      FilterSnoc(t, x, ForPatient(k));
      assert Distinct(ids[1..]);
      assert k !in ids[1..];
      TotalOrdersSnoc(t, x, ids[1..]);
    }
  }

  lemma {:induction false} TotalOrdersCoversInput(s: seq<Order>, ids: seq<string>)
    requires Distinct(ids)
    requires forall i :: 0 <= i < |s| ==> s[i].patient.uuid in ids
    ensures TotalOrders(GroupsFor(s, ids)) == |s|
    decreases |s|
  {
    if s == [] {
      TotalOrdersOfNothing(ids);
    } else {
      var t, x := s[..|s| - 1], s[|s| - 1];
      assert s == t + [x];
      TotalOrdersCoversInput(t, ids);
      TotalOrdersSnoc(t, x, ids);
    }
  }

  /** The group sizes add up to the number of input orders. */
  lemma GroupSizesSumToInput(s: seq<Order>)
    ensures TotalOrders(Groups(s)) == |s|
  {
    DistinctKeysMembers(s, PatientUuidOf);
    TotalOrdersCoversInput(s, PatientIds(s));
  }

  datatype PatientRow = PatientRow(id: string, patientName: Option<string>, orders: seq<Order>, totalOrders: nat)

  /** `rowsData`: one row per group on the current page. */
  function RowsData(page: seq<PatientGroup>): (rows: seq<PatientRow>)
    requires forall g :: g in page ==> g.orders != []
    ensures |rows| == |page|
    ensures forall i :: 0 <= i < |page| ==>
      && rows[i].id == page[i].patientId
      && rows[i].orders == page[i].orders
      && rows[i].totalOrders == |page[i].orders| > 0
      && rows[i].patientName == PatientName(page[i].orders[0].patient.display)
  {
    seq(|page|, i requires 0 <= i < |page| =>
      PatientRow(page[i].patientId, PatientName(page[i].orders[0].patient.display), page[i].orders, |page[i].orders|))
  }

  /**
   * For a page cut from the groups of `s`: every row can be built, its total is the number of
   * that patient's orders in `s`, and its name is present iff the first order's display has a "-".
   */
  lemma RowsOfGroupedPage(s: seq<Order>, page: seq<PatientGroup>)
    requires Subseq(page, Groups(s))
    ensures forall g :: g in page ==> g.orders != []
    ensures forall i :: 0 <= i < |page| ==>
      && RowsData(page)[i].totalOrders == |OrdersOf(s, RowsData(page)[i].id)|
      && (RowsData(page)[i].patientName.Some? <==> '-' in page[i].orders[0].patient.display)
  {
    GroupsWellFormed(s);
    SubseqLength(page, Groups(s));
    forall g | g in page
      ensures g.orders != [] && g.orders == OrdersOf(s, g.patientId)
    {
      var j :| 0 <= j < |Groups(s)| && Groups(s)[j] == g;
    }
    forall i | 0 <= i < |page|
      ensures RowsData(page)[i].patientName.Some? <==> '-' in page[i].orders[0].patient.display
    {
      assert page[i] in page;
      Strings.SecondSegmentSpec(page[i].orders[0].patient.display, '-');
    }
  }

  /** `totalItems={filteredEntries?.length}` */
  function PaginationTotal(filtered: Option<seq<Order>>): Option<nat> {
    match filtered
    case None => None
    case Some(es) => Some(|es|)
  }

  /** The pagination total counts orders, which is the sum of the group sizes, not the number of groups. */
  lemma PaginationTotalCountsOrders(s: seq<Order>)
    ensures PaginationTotal(Some(s)) == Some(TotalOrders(Groups(s)))
    ensures |Groups(s)| <= PaginationTotal(Some(s)).value
  {
    GroupSizesSumToInput(s);
  }

  /** Two orders of one patient: one group, but a pagination total of two. */
  lemma PaginationTotalExceedsGroupCount(o: Order)
    ensures |Groups([o, o])| == 1 && PaginationTotal(Some([o, o])) == Some(2)
  {
    var s := [o, o];
    assert s[..1] == [o] && [o][..0] == [];
    assert DistinctKeys([o], PatientUuidOf) == [o.patient.uuid];
    assert PatientIds(s) == [o.patient.uuid];
  }

  /**
   * The table's pagination handler: the page-size update is commented out in the source,
   * so only `goTo` can fire.
   */
  function OnPaginationChange(pageSize: nat, page: nat, currentPageSize: nat, currentPage: nat): (e: Pagination.Effects)
    ensures e.setPageSize.None?
    ensures e.goTo == if page != currentPage then Some(page) else None
  {
    Pagination.Effects(None, if page != currentPage then Some(page) else None)
  }

  /** After the handler, the table is on the requested page, with its page size unchanged. */
  lemma PaginationKeepsPageSize(pageSize: nat, page: nat, currentPageSize: nat, currentPage: nat)
    ensures Pagination.Apply(OnPaginationChange(pageSize, page, currentPageSize, currentPage), currentPageSize, currentPage)
      == Pagination.PageState(currentPageSize, page)
  {
  }
}
