/**
 * The review/approve dialog of one encounter: which observations are test results, the
 * results keyed by test name, the checkbox selection, the approval payload and the
 * cell display rules.
 */
module ReviewItem {
  import opened Wrappers
  import opened Js
  import opened Seqs
  import opened Strings
  import JsObject

  /** An observation value: a coded answer is an object with a `display`, others are scalars. */
  datatype ObsValue = NullValue | CodedValue(display: string) | PlainValue(text: string)

  datatype GroupMember = GroupMember(conceptDisplay: string, conceptUuid: string, value: ObsValue)

  datatype ObsOrder = ObsOrder(orderType: string, display: string)

  datatype Obs = Obs(
    uuid: Nullable<string>,
    conceptDisplay: string,
    order: Option<ObsOrder>,
    groupMembers: Option<seq<GroupMember>>,
    value: ObsValue
  )

  /** `item?.order?.type === "testorder"` */
  function IsTestOrder(ob: Obs): bool {
    ob.order.Some? && ob.order.value.orderType == "testorder"
  }

  /** `testsOrder`: the encounter's observations that belong to a test order; `undefined` without an encounter. */
  function TestsOrder(obs: Option<seq<Obs>>): (r: Option<seq<Obs>>)
    ensures r.None? <==> obs.None?
    ensures r.Some? ==> Subseq(r.value, obs.value)
    ensures r.Some? ==> forall ob :: ob in r.value <==> ob in obs.value && IsTestOrder(ob)
    ensures r.Some? ==> forall ob :: multiset(r.value)[ob] == if IsTestOrder(ob) then multiset(obs.value)[ob] else 0
  {
    match obs
    case None => None
    case Some(os) =>
      FilterIsSubseq(os, IsTestOrder);
      FilterMembers(os, IsTestOrder);
      FilterMultiset(os, IsTestOrder);
      Some(Filter(os, IsTestOrder))
  }

  /** `element?.concept?.display`, the key of the grouped results. */
  function DisplayOf(ob: Obs): string {
    ob.conceptDisplay
  }

  /** After assigning `grouped[display] = element` for every element of `prefix`, in turn. */
  ghost predicate KeyedByDisplay(g: JsObject.Obj<Obs>, prefix: seq<Obs>) {
    && g.Valid()
    && g.keys == DistinctKeys(prefix, DisplayOf)
    && forall k :: k in g.entries ==> 0 <= LastIndex(prefix, DisplayOf, k) && g.entries[k] == prefix[LastIndex(prefix, DisplayOf, k)]
  }

  lemma AssignStep(g: JsObject.Obj<Obs>, prefix: seq<Obs>, ob: Obs)
    requires KeyedByDisplay(g, prefix)
    ensures KeyedByDisplay(JsObject.Set(g, ob.conceptDisplay, ob), prefix + [ob])
  {
    var s := prefix + [ob];
    assert s[..|s| - 1] == prefix;
    var r := JsObject.Set(g, ob.conceptDisplay, ob);
    forall k | k in r.entries
      ensures 0 <= LastIndex(s, DisplayOf, k) && r.entries[k] == s[LastIndex(s, DisplayOf, k)]
    {
      if k != ob.conceptDisplay {
        assert LastIndex(s, DisplayOf, k) == LastIndex(prefix, DisplayOf, k);
      }
    }
  }

  /**
   * `filteredGroupedResults`: each test result is assigned under its test name, so a later
   * result with the same name replaces an earlier one (the last one wins) while the name keeps
   * the position of its first occurrence.
   */
  method FilteredGroupedResults(tests: Option<seq<Obs>>) returns (grouped: JsObject.Obj<Obs>)
    ensures grouped.Valid()
    ensures tests.None? ==> grouped == JsObject.Empty()
    ensures var ts := tests.GetOr([]);
      && grouped.keys == DistinctKeys(ts, DisplayOf)
      && forall k :: k in grouped.entries ==>
           0 <= LastIndex(ts, DisplayOf, k) && grouped.entries[k] == ts[LastIndex(ts, DisplayOf, k)]
  {
    var ts := tests.GetOr([]);
    grouped := JsObject.Empty();
    assert KeyedByDisplay(grouped, ts[..0]) by {
      assert ts[..0] == [];
    }
    var i := 0;
    while i < |ts|
      invariant 0 <= i <= |ts|
      invariant KeyedByDisplay(grouped, ts[..i])
    {
      var element := ts[i];
      AssignStep(grouped, ts[..i], element);
      grouped := JsObject.Set(grouped, element.conceptDisplay, element);
      TakeSnoc(ts, i);
      i := i + 1;
    }
    assert ts[..i] == ts;
  }

  /** Every test result's name is a key, and its entry is a result with that name that no later result shares. */
  lemma GroupedResultsLastWins(ts: seq<Obs>, k: string)
    ensures k in DistinctKeys(ts, DisplayOf) <==> exists j :: 0 <= j < |ts| && ts[j].conceptDisplay == k
    ensures var j := LastIndex(ts, DisplayOf, k);
      k in DistinctKeys(ts, DisplayOf) ==>
        0 <= j && ts[j].conceptDisplay == k && forall j' :: j < j' < |ts| ==> ts[j'].conceptDisplay != k
  {
    DistinctKeysMembers(ts, DisplayOf);
    LastIndexAbsent(ts, DisplayOf, k);
    if k in DistinctKeys(ts, DisplayOf) {
      var i :| 0 <= i < |ts| && DisplayOf(ts[i]) == k;
    }
  }

  /** The value stored for a checked test. */
  datatype Checked = Checked(groupMembers: Option<seq<GroupMember>>, uuid: Nullable<string>)

  /**
   * `handleCheckboxChange`: a copy of the checked items with `test` removed if it was checked
   * and added (at the end of the key order) if it was not. Other keys are untouched.
   */
  function HandleCheckboxChange(checked: JsObject.Obj<Checked>, test: string, groupMembers: Option<seq<GroupMember>>, uuid: Nullable<string>): (r: JsObject.Obj<Checked>)
    requires checked.Valid()
    ensures r.Valid()
    ensures test in checked.entries ==> test !in r.entries && r.keys == JsObject.RemoveKey(checked.keys, test)
    ensures test !in checked.entries ==> test in r.entries && r.entries[test] == Checked(groupMembers, uuid) && r.keys == checked.keys + [test]
    ensures forall k :: k != test ==> (k in r.entries <==> k in checked.entries)
    ensures forall k :: k != test && k in r.entries ==> r.entries[k] == checked.entries[k]
  {
    if checked.Has(test) then JsObject.Delete(checked, test)
    else JsObject.Set(checked, test, Checked(groupMembers, uuid))
  }

  /** Toggling twice restores the set of checked tests; starting from unchecked it restores everything. */
  lemma ToggleTwice(checked: JsObject.Obj<Checked>, test: string, groupMembers: Option<seq<GroupMember>>, uuid: Nullable<string>)
    requires checked.Valid()
    ensures var once := HandleCheckboxChange(checked, test, groupMembers, uuid);
      var twice := HandleCheckboxChange(once, test, groupMembers, uuid);
      && (forall k :: k in twice.keys <==> k in checked.keys)
      && (test !in checked.entries ==> twice == checked)
      && (test in checked.entries ==> twice.keys == JsObject.RemoveKey(checked.keys, test) + [test])
  {
    if test in checked.entries {
      JsObject.AddAfterDelete(checked, test, Checked(groupMembers, uuid));
    } else {
      JsObject.DeleteAfterAdd(checked, test, Checked(groupMembers, uuid));
    }
  }

  /** What pressing "Approve Result" does. */
  datatype Approval =
    | NoSelection            // the error notification; no request is sent
    | MissingResult          // a checked test is not in the grouped results: `undefined.uuid` throws
    | Submit(orders: string) // the `ApproverOrder` request with payload `{ orders }`

  /** The grouped results' uuids of the checked tests, as `join` renders them, in key order. */
  function SelectedUuids(keys: seq<string>, grouped: JsObject.Obj<Obs>): (r: seq<string>)
    requires forall k :: k in keys ==> k in grouped.entries
    ensures |r| == |keys|
    ensures forall i :: 0 <= i < |keys| ==> r[i] == JoinText(grouped.entries[keys[i]].uuid)
  {
    seq(|keys|, i requires 0 <= i < |keys| => JoinText(grouped.entries[keys[i]].uuid))
  }

  /** `approveOrder`: rejects an empty selection, else collects the uuids with `push` and joins them with ",". */
  method ApproveOrder(checked: JsObject.Obj<Checked>, grouped: JsObject.Obj<Obs>) returns (outcome: Approval)
    ensures |checked.keys| == 0 <==> outcome == NoSelection
    ensures outcome == MissingResult <==> |checked.keys| > 0 && exists k :: k in checked.keys && k !in grouped.entries
    ensures outcome.Submit? ==>
      (forall k :: k in checked.keys ==> k in grouped.entries) &&
      outcome.orders == Join(SelectedUuids(checked.keys, grouped), ',')
  {
    var keys := checked.keys;
    if |keys| == 0 {
      return NoSelection;
    }
    var uuids: seq<string> := [];
    var i := 0;
    while i < |keys|
      invariant 0 <= i <= |keys|
      invariant forall j :: 0 <= j < i ==> keys[j] in grouped.entries
      invariant |uuids| == i
      invariant forall j :: 0 <= j < i ==> uuids[j] == JoinText(grouped.entries[keys[j]].uuid)
    {
      if keys[i] !in grouped.entries {
        return MissingResult;
      }
      uuids := uuids + [JoinText(grouped.entries[keys[i]].uuid)];
      i := i + 1;
    }
    assert uuids == SelectedUuids(keys, grouped);
    outcome := Submit(Join(uuids, ','));
  }

  /**
   * The payload lists exactly the selected uuids: when no uuid is missing or contains a comma,
   * splitting `orders` at "," gives back one uuid per checked test, in key order.
   */
  lemma PayloadRoundTrip(keys: seq<string>, grouped: JsObject.Obj<Obs>)
    requires |keys| > 0
    requires forall k :: k in keys ==> k in grouped.entries
    requires forall k :: k in keys ==> ',' !in JoinText(grouped.entries[k].uuid)
    ensures var uuids := SelectedUuids(keys, grouped);
      Split(Join(uuids, ','), ',') == uuids && |Split(Join(uuids, ','), ',')| == |keys|
  {
    var uuids := SelectedUuids(keys, grouped);
    forall i | 0 <= i < |uuids|
      ensures ',' !in uuids[i]
    {
      assert keys[i] in keys;
    }
    SplitJoin(uuids, ',');
  }

  /** `isGrouped`: a truthy uuid and at least one group member. */
  function IsGrouped(uuid: Nullable<string>, groupMembers: Option<seq<GroupMember>>): (b: bool)
    ensures b <==> uuid.Val? && uuid.value != "" && groupMembers.Some? && |groupMembers.value| > 0
  {
    TruthyString(uuid) && groupMembers.Some? && |groupMembers.value| > 0
  }

  /** What a table cell renders. */
  datatype Cell = Text(text: string) | Blank | Throws

  /** A group member's result: `typeof value === "object" ? value.display : value`; `typeof null` is "object". */
  function MemberResult(v: ObsValue): (c: Cell)
    ensures v.CodedValue? ==> c == Text(v.display)
    ensures v.PlainValue? ==> c == Text(v.text)
    ensures c == Throws <==> v.NullValue?
  {
    match v
    case NullValue => Throws
    case CodedValue(d) => Text(d)
    case PlainValue(t) => Text(t)
  }

  /** An ungrouped result: `value?.display`, blank unless the value is coded. */
  function UngroupedResult(v: ObsValue): (c: Cell)
    ensures c != Throws
    ensures c.Text? <==> v.CodedValue?
    ensures v.CodedValue? ==> c == Text(v.display)
  {
    match v
    case CodedValue(d) => Text(d)
    case _ => Blank
  }

  datatype ConceptRange = ConceptRange(lowNormal: JsValue, hiNormal: JsValue)

  /** State of the concept fetch behind one reference-range cell. */
  datatype ConceptFetch = Loading | FetchFailed | Loaded(concept: Option<ConceptRange>)

  datatype Bound = Dash | Shown(value: JsValue)

  datatype RangeView = Spinner | ErrorText | NotAvailable | Range(low: Bound, high: Bound)

  /** `lowNormal || "--"` */
  function ShowBound(v: JsValue): Bound {
    if Truthy(v) then Shown(v) else Dash
  }

  /**
   * `ReferenceRange`: "N/A" when either bound is `undefined` (or there is no concept);
   * otherwise both bounds, each falsy one (null, 0, "") shown as "--".
   */
  function ReferenceRange(f: ConceptFetch): (v: RangeView)
    ensures f.Loading? <==> v.Spinner?
    ensures f.FetchFailed? <==> v.ErrorText?
    ensures f.Loaded? ==>
      (v.NotAvailable? <==> f.concept.None? || f.concept.value.lowNormal.JsUndefined? || f.concept.value.hiNormal.JsUndefined?)
    ensures v.Range? ==>
      && (v.low.Dash? <==> !Truthy(f.concept.value.lowNormal))
      && (v.high.Dash? <==> !Truthy(f.concept.value.hiNormal))
      && (v.low.Shown? ==> v.low.value == f.concept.value.lowNormal)
      && (v.high.Shown? ==> v.high.value == f.concept.value.hiNormal)
  {
    match f
    case Loading => Spinner
    case FetchFailed => ErrorText
    case Loaded(None) => NotAvailable
    case Loaded(Some(c)) =>
      if c.hiNormal.JsUndefined? || c.lowNormal.JsUndefined? then NotAvailable
      else Range(ShowBound(c.lowNormal), ShowBound(c.hiNormal))
  }

  /** A zero bound is falsy, so it is shown as "--" like a missing one. */
  lemma ZeroBoundShownAsDash(high: JsValue)
    requires !high.JsUndefined?
    ensures ReferenceRange(Loaded(Some(ConceptRange(JsNumber(0.0), high)))).Range?
    ensures ReferenceRange(Loaded(Some(ConceptRange(JsNumber(0.0), high)))).low == Dash
  {
  }

  datatype ResultRow = ResultRow(test: Cell, result: Cell, range: RangeView)

  /**
   * The rows under one test's checkbox: one per group member when the result is grouped,
   * otherwise one row with the order display, the coded value and "N/A".
   * `fetch` gives the concept fetch state for a concept uuid.
   */
  function ResultRows(ob: Obs, fetch: string -> ConceptFetch): (rows: seq<ResultRow>)
    ensures IsGrouped(ob.uuid, ob.groupMembers) ==>
      var ms := ob.groupMembers.value;
      |rows| == |ms| && forall i :: 0 <= i < |ms| ==>
        rows[i] == ResultRow(Text(ms[i].conceptDisplay), MemberResult(ms[i].value), ReferenceRange(fetch(ms[i].conceptUuid)))
    ensures !IsGrouped(ob.uuid, ob.groupMembers) ==>
      |rows| == 1 && rows[0].result == UngroupedResult(ob.value) && rows[0].range == NotAvailable &&
      (rows[0].test.Text? <==> ob.order.Some?) &&
      (ob.order.Some? ==> rows[0].test == Text(ob.order.value.display))
  {
    if IsGrouped(ob.uuid, ob.groupMembers) then
      var ms := ob.groupMembers.value;
      seq(|ms|, i requires 0 <= i < |ms| =>
        ResultRow(Text(ms[i].conceptDisplay), MemberResult(ms[i].value), ReferenceRange(fetch(ms[i].conceptUuid))))
    else
      [ResultRow(if ob.order.Some? then Text(ob.order.value.display) else Blank, UngroupedResult(ob.value), NotAvailable)]
  }
}
