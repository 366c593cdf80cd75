# Procedure app worklists, in Dafny

This is a model of the in-memory core of the OpenMRS procedure app's order views:

- the selection rules that decide which orders each worklist tab shows;
- the table that groups orders by patient;
- the tab counters and the routing of counters to tabs;
- the review/approve dialog: test results keyed by name, the checkbox selection and the approval payload;
- the row projections of the work list and the review list;
- the order-basket constructor.

Fetched REST data is an input of the model. The JavaScript details the source depends on are
written out explicitly:

- `null` and `undefined` are different values (`Js.Nullable`). This matters for `=== null` against `== null`.
- Plain objects keep their keys in insertion order (`JsObject.Obj`).
- `Array.prototype.filter` is `Seqs.Filter`, and `String.prototype.split` is `Strings.Split`.
- Falsy values are modelled: `""`, `0`, `null`, `undefined`.

Modules follow the source files:

| module | source file |
|---|---|
| `GroupedOrdersTable` | `src/common/groupedOrdersTable.component.tsx` |
| `OrdersWorklist` | `src/hooks/useOrdersWorklist.ts` |
| `WorkListResource` | `src/work-list/work-list.resource.ts` |
| `ProcedureSummary` | `src/summary-tiles/procedure-summary.resource.tsx` |
| `ReviewItem` | `src/review-list/dialog/review-item.component.tsx` |
| `ProcedureTabs` | `src/procedures-ordered/procedure-tabs.component.tsx` |
| `ReviewList` | `src/review-list/review-list.component.tsx` |
| `WorkList` | `src/work-list/work-list.component.tsx` |
| `Pagination` | the paginator `onChange` handler shared by the two lists |
| `ProceduresOrder` | `src/form/procedures-orders/add-procedures-order/procedures-order.ts` |

`Seqs`, `Strings`, `Js`, `JsObject`, `Orders` and `Wrappers` hold the shared vocabulary.

Some steps are imperative and are written as methods with loops, proved against reference functions:

- `groupOrdersById`, a `reduce` that fills an accumulator object;
- `filteredGroupedResults`, a `forEach` that assigns into an object;
- `approveOrder`, which `push`es the selected uuids.

Write-once objects and filter/map pipelines are functions.

The procedure concept-class uuid is defined in `src/constants`, which is not part of this model, so it is the parameter `procedureClass`.
The current page of each paginated table is an arbitrary input. Its lemmas only assume that it is a subsequence of the rows being paginated.

The work list and the review list call the two-parameter `useGetOrdersWorklist(activatedOnOrAfterDate, fulfillerStatus)` with one argument. The model keeps this as written:

- `WorkListResource.EntriesForOneArgumentCall` is what those callers receive: always `[]`.
- `WorkList.MountedListHasNoRows` and `ReviewList.MountedListHasNoRows` follow from that: no row is ever shown.

## Model

| member | source | states |
|---|---|---|
| GroupedOrdersTable.FilteredEntries | src/common/groupedOrdersTable.component.tsx:51-63 | a falsy or "All" filter returns the entries unchanged; otherwise exactly the orders whose status is strictly the filter, as an order-preserving subsequence that keeps every copy of a kept order; absent entries stay absent |
| GroupedOrdersTable.ReduceByPatient | src/common/groupedOrdersTable.component.tsx:69-75 | after the reduce, the object's keys are the distinct patient uuids in first-occurrence order and each entry holds exactly that patient's orders in input order |
| GroupedOrdersTable.GroupOrdersById | src/common/groupedOrdersTable.component.tsx:67-85 | the accumulator loop yields `[]` for absent or empty input and otherwise exactly `Groups(orders)`: one group per distinct patient uuid, in key-creation order, holding that patient's orders in input order |
| GroupedOrdersTable.PushStep | src/common/groupedOrdersTable.component.tsx:70-74 | one reduce step (create the key if missing, push the order) keeps the accumulator equal to the grouping of the prefix read so far |
| GroupedOrdersTable.GroupsWellFormed | src/common/groupedOrdersTable.component.tsx:69-81 | group ids are distinct, no group is empty, a group is an order-preserving subsequence of the input and holds only orders of its own patient |
| GroupedOrdersTable.EveryOrderInExactlyOneGroup | src/common/groupedOrdersTable.component.tsx:69-76 | every input order is in the group whose id is its patient uuid, and in no group with another id |
| GroupedOrdersTable.GroupsInFirstOccurrenceOrder | src/common/groupedOrdersTable.component.tsx:70-81 | groups are listed in the order in which each patient first occurs in the input |
| GroupedOrdersTable.GroupSizesSumToInput | src/common/groupedOrdersTable.component.tsx:69-76 | group sizes sum to the input length |
| GroupedOrdersTable.RowsData | src/common/groupedOrdersTable.component.tsx:99-106 | one row per page group: id is the patient id, the orders are passed through, the total is the group size, the name is the second "-" segment of the first order's patient display |
| GroupedOrdersTable.RowsOfGroupedPage | src/common/groupedOrdersTable.component.tsx:99-106 | for any page of the grouped orders, every row can be built, its total is that patient's number of orders, and its name is present iff the display contains "-" |
| GroupedOrdersTable.PaginationTotalCountsOrders | src/common/groupedOrdersTable.component.tsx:234 | the pagination total is the number of filtered orders (the sum of group sizes), never less than the number of groups |
| GroupedOrdersTable.PaginationTotalExceedsGroupCount | src/common/groupedOrdersTable.component.tsx:234 | two orders of one patient give one group but a pagination total of two |
| GroupedOrdersTable.OnPaginationChange | src/common/groupedOrdersTable.component.tsx:236-243 | the page-size update is commented out, so only `goTo` can fire, and only for a different page |
| GroupedOrdersTable.PaginationKeepsPageSize | src/common/groupedOrdersTable.component.tsx:236-243 | after the handler the table is on the requested page with its page size unchanged |
| OrdersWorklist.WorkListEntries | src/hooks/useOrdersWorklist.ts:21-50 | the result is an order-preserving subsequence of the results holding exactly the orders the rule keeps, each as many times as in the results; absent data gives `[]` |
| OrdersWorklist.ActiveRule | src/hooks/useOrdersWorklist.ts:22-28 | with status "", an order is kept iff its status and stop date are `null`, its action is NEW and its concept class is the procedure class |
| OrdersWorklist.InProgressRule | src/hooks/useOrdersWorklist.ts:29-35 | with IN_PROGRESS, kept iff in progress, not stopped, action not DISCONTINUE, procedure class |
| OrdersWorklist.CompletedRule | src/hooks/useOrdersWorklist.ts:36-42 | with COMPLETED, kept iff completed, not stopped, action not DISCONTINUE, procedure class |
| OrdersWorklist.OtherStatusIsEmpty | src/hooks/useOrdersWorklist.ts:21-47 | any other status gives `[]` |
| OrdersWorklist.FilterIsIdempotent | src/hooks/useOrdersWorklist.ts:21-44 | filtering the result again with the same status changes nothing |
| WorkListResource.WorkListEntries | src/work-list/work-list.resource.ts:19-36 | an order-preserving subsequence holding exactly the orders the rule keeps, each as many times as in the results; absent data gives `[]` |
| WorkListResource.NewRule | src/work-list/work-list.resource.ts:20-25 | with status "", kept iff status and stop date are `null` and the action is NEW; no concept-class check |
| WorkListResource.InProgressRule | src/work-list/work-list.resource.ts:26-31 | with IN_PROGRESS, kept iff in progress, not stopped and not DISCONTINUE |
| WorkListResource.OtherStatusIsEmpty | src/work-list/work-list.resource.ts:19-36 | every other status value, `undefined` and `null` included, gives `[]` |
| WorkListResource.EntriesForOneArgumentCall | src/work-list/work-list.resource.ts:6-9 | called with one argument, the status binds to `activatedOnOrAfterDate` and the entries are always `[]` |
| ProcedureSummary.ProcedureOrders | src/summary-tiles/procedure-summary.resource.tsx:72-76 | exactly the results of the procedure concept class, in order and with every copy; `undefined` without data |
| ProcedureSummary.OrderCount | src/summary-tiles/procedure-summary.resource.tsx:78-87 | with status "" the count is `undefined` iff there is no data; with any other status it is the number of all results, 0 without data |
| ProcedureSummary.ActiveCountCountsUnassignedProcedures | src/summary-tiles/procedure-summary.resource.tsx:80-84 | with status "" the count is the number of procedure-class results whose status is `== null` (null or undefined) |
| ProcedureSummary.ActiveListNeverExceedsCounter | src/summary-tiles/procedure-summary.resource.tsx:80-84 | on the same results, the Active Orders list is never longer than the Active Orders counter |
| ProcedureSummary.NoDataCount | src/summary-tiles/procedure-summary.resource.tsx:78-87 | without data the count is `undefined` for "" and 0 for any other status |
| ProcedureSummary.StatusCountIgnoresConceptClass | src/summary-tiles/procedure-summary.resource.tsx:85-87 | a non-empty status counts every result, so the count is at least the number of procedure orders |
| ProcedureSummary.Services | src/summary-tiles/procedure-summary.resource.tsx:37-46 | `[]` before data arrives; otherwise the set members' displays in order; `undefined` when the members list is missing |
| ProcedureSummary.UseMetrics | src/summary-tiles/procedure-summary.resource.tsx:18-35 | the metrics are always 15, 4, 1, 6; the error flag is passed through; loading while there is neither data nor an error |
| ProcedureSummary.MetricsIgnoreFetchedData | src/summary-tiles/procedure-summary.resource.tsx:19-31 | whatever is fetched, the metrics are the same |
| ReviewItem.TestsOrder | src/review-list/dialog/review-item.component.tsx:42-44 | exactly the observations whose order type is "testorder", in encounter order and with every copy; `undefined` without an encounter |
| ReviewItem.FilteredGroupedResults | src/review-list/dialog/review-item.component.tsx:46-54 | keys are the distinct test names in first-occurrence order, and each entry is the last result with that name |
| ReviewItem.AssignStep | src/review-list/dialog/review-item.component.tsx:50 | one assignment keeps the object equal to the last-wins keying of the prefix read so far |
| ReviewItem.GroupedResultsLastWins | src/review-list/dialog/review-item.component.tsx:49-51 | a name is a key iff some result has it, and the stored index holds that name with no later result sharing it |
| ReviewItem.HandleCheckboxChange | src/review-list/dialog/review-item.component.tsx:58-71 | a checked test is removed and an unchecked one is added at the end with `{groupMembers, uuid}`; all other keys and entries are unchanged |
| ReviewItem.ToggleTwice | src/review-list/dialog/review-item.component.tsx:58-71 | toggling twice restores the key set; from unchecked it restores the object exactly; from checked the key moves to the end |
| ReviewItem.ApproveOrder | src/review-list/dialog/review-item.component.tsx:74-96 | an empty selection is rejected with no request; a selected test missing from the grouped results throws; otherwise the payload is the selected tests' grouped-result uuids joined by "," in key order |
| ReviewItem.PayloadRoundTrip | src/review-list/dialog/review-item.component.tsx:88-96 | when no selected uuid contains a comma (a missing uuid joins as an empty piece), splitting the payload at "," gives back one uuid per selected test, in order |
| ReviewItem.IsGrouped | src/review-list/dialog/review-item.component.tsx:201 | grouped iff the uuid is a non-empty string and there is at least one group member |
| ReviewItem.MemberResult | src/review-list/dialog/review-item.component.tsx:163-165 | a coded value shows its display, a scalar value shows itself, and a `null` value (`typeof` "object") throws |
| ReviewItem.UngroupedResult | src/review-list/dialog/review-item.component.tsx:241-244 | an ungrouped result is text exactly when the value is coded, and that text is the coded display; any other value is blank, and it never throws |
| ReviewItem.ReferenceRange | src/review-list/dialog/review-item.component.tsx:135-155 | spinner while loading, "Error" on error, "N/A" if there is no concept or either bound is `undefined`, otherwise both bounds with each falsy bound shown as "--" |
| ReviewItem.ZeroBoundShownAsDash | src/review-list/dialog/review-item.component.tsx:141 | a zero low bound is shown as "--" |
| ReviewItem.ResultRows | src/review-list/dialog/review-item.component.tsx:157-254 | a grouped result gives one row per member with its name, value and reference range; an ungrouped one gives one row, whose test cell is the order display when there is an order and blank otherwise, whose result is `UngroupedResult` of the value, and whose range is "N/A" |
| ProcedureTabs.StatsForTab | src/procedures-ordered/procedure-tabs.component.tsx:24-44 | the worklist, referred, not-done and completed tabs get the IN_PROGRESS, EXCEPTION, DECLINED and COMPLETED stats; any other name gets count 0, not loading, no error |
| ProcedureTabs.CountLabelOf | src/procedures-ordered/procedure-tabs.component.tsx:61-79 | "..." iff the stats are loading, otherwise the count |
| ProcedureTabs.WithMeta | src/procedures-ordered/procedure-tabs.component.tsx:64-92 | exactly the extensions with non-empty meta, in order and with every copy |
| ProcedureTabs.TabFor | src/procedures-ordered/procedure-tabs.component.tsx:65-84 | a tab is rendered iff both meta name and title are truthy, labelled with its title and the count of its routed stats |
| ProcedureTabs.Tabs | src/procedures-ordered/procedure-tabs.component.tsx:59-85 | Active Orders first with the "" stats, then one entry per extension with meta |
| ProcedureTabs.Panels | src/procedures-ordered/procedure-tabs.component.tsx:88-112 | the NEW ordered list first, then one panel per extension with meta, whatever its name and title |
| ProcedureTabs.TabsAndPanels | src/procedures-ordered/procedure-tabs.component.tsx:63-112 | the shown tabs never outnumber the panels, and they are equal in number iff every extension with meta has a truthy name and title |
| ProcedureTabs.PanelWithoutTab | src/procedures-ordered/procedure-tabs.component.tsx:66-112 | an extension with a name but no title gets a panel and no tab |
| ReviewList.TableRows | src/review-list/review-list.component.tsx:102-130 | exactly one row per page entry that is DISCONTINUE or REVISE and IN_PROGRESS, each row at most one per entry, its id the entry uuid and its patient the second "-" segment of the display |
| ReviewList.EveryReviewEntryHasRow | src/review-list/review-list.component.tsx:102-130 | every page entry awaiting review appears as a row |
| ReviewList.RowsFollowPageOrder | src/review-list/review-list.component.tsx:103-109 | a later row comes from a later page entry |
| ReviewList.ApproveTarget | src/review-list/review-list.component.tsx:184-187 | the approve menu of row `index` gets the encounter of the page entry at `index`, or `undefined` past the page |
| ReviewList.ApproveTargetIsOwnEntry | src/review-list/review-list.component.tsx:174-187 | row `i` targets its own entry's position iff no page entry up to it was filtered out |
| ReviewList.MountedListHasNoRows | src/review-list/review-list.component.tsx:72-81 | as mounted, the entries are always empty, so no row is ever shown |
| WorkList.TableRows | src/work-list/work-list.component.tsx:121-162 | one row per in-progress page entry in page order; the row's id and patient come from its own entry, but its actions receive the page entry at the row's index |
| WorkList.EveryInProgressEntryHasRow | src/work-list/work-list.component.tsx:121-162 | every in-progress page entry has a row carrying its uuid |
| WorkList.RowsFollowPageOrder | src/work-list/work-list.component.tsx:122-124 | a later row describes a later page entry |
| WorkList.ActionTargetIsOwnEntry | src/work-list/work-list.component.tsx:150-158 | row `i`'s actions get its own entry's position iff no page entry up to it was filtered out |
| WorkList.ActionTargetsAnotherEntry | src/work-list/work-list.component.tsx:150-158 | on a page whose first entry is not in progress, the only row shows the second entry but its actions get the first |
| WorkList.MountedListHasNoRows | src/work-list/work-list.component.tsx:56-65 | as mounted, the entries are always empty, so no row is ever shown |
| Pagination.OnChange | src/work-list/work-list.component.tsx:244-251 | a page-size update is requested iff the size differs, and `goTo` is called iff the page differs, each with the requested value |
| Pagination.OnChangeReachesRequest | src/review-list/review-list.component.tsx:215-222 | applying the requested updates gives the requested state, and requesting the current state changes nothing |
| ProceduresOrder.CreateEmptyLabOrder | src/form/procedures-orders/add-procedures-order/procedures-order.ts:12-24 | action NEW, urgency the first priority option "ROUTINE", display the procedure's label, and the procedure and orderer passed through |
| ProceduresOrder.PriorityOptionsDistinct | src/form/procedures-orders/add-procedures-order/procedures-order.ts:5-9 | the options are exactly ROUTINE, STAT and SCHEDULED with distinct values, and a new item's urgency is one of them |
| Js.LooseNullIncludesStrictNull | src/summary-tiles/procedure-summary.resource.tsx:82 | `== null` holds for every value for which `=== null` holds, and also for `undefined` |
| JsObject.Set | src/common/groupedOrdersTable.component.tsx:70-73 | assigning a key keeps the object well formed, updates the entry, and appends the key only if it is new |
| JsObject.Delete | src/review-list/dialog/review-item.component.tsx:61-62 | deleting a key removes its entry and its place in the key order, and nothing else |
| JsObject.DeleteAfterAdd | src/review-list/dialog/review-item.component.tsx:60-68 | adding an absent key and deleting it again gives back the same object |
| Strings.SecondSegmentSpec | src/common/groupedOrdersTable.component.tsx:102 | `split("-")[1]` exists iff the text contains "-", and is the text between the first "-" and the next one or the end |
| Strings.JoinSplit | src/common/groupedOrdersTable.component.tsx:102 | `split("-")` loses nothing: joining its pieces with "-" gives the display back |
| Strings.SplitJoin | src/review-list/dialog/review-item.component.tsx:95 | splitting a comma-free list joined by "," gives the list back |

## Left out

- Rendering is not modelled: JSX, Carbon components, modals, overlays, extension slots and translation with `t`. A label is modelled as its default text.
- Data fetching is not modelled: SWR hooks, `openmrsFetch`, URL construction, cache `mutate`, and the `ApproverOrder` request with its notifications. Fetched results, and the loading and error flags, are inputs.
- `usePagination`, `useSearchGroupedResults`, `formatDate`/`parseDate` and `getStatusColor` are not part of this model. Pages are arbitrary inputs; the search step between grouping and paging is skipped; date and status-colour columns are omitted.
- `ProceduresOrder.CreateEmptyLabOrder`: the `scheduleDate: new Date()` field is left out, because it reads the clock.
- `ValueUnits` in the review dialog is not modelled; it is a concept fetch rendered as text.
- Object keys that look like array indices are ordered numerically by JavaScript, and `groupedResults` is an array. The model keeps pure insertion order, so it assumes test names and patient uuids are not integer-like.
- Inherited prototype keys are not modelled.
- `NaN` and `false` are not modelled among the falsy values, because no modelled field can hold them.
- A missing `concept.display` (so the key `"undefined"`) is not modelled; test names are strings.
- The checkbox `checked` state of the dialog and the `setSelectedTab` / `setFilter` React state are not modelled. They are display-only state whose updates are the library's.
- `ProcedureTabs.StatsForTab` takes `useProcedureOrderStats` as a function from status to stats, rather than fetching; the tab ids (`${title || index}-tab`) are not modelled.
- `src/constants`, `src/types` and `useProceduresTypes` are not part of this model. The procedure class is a parameter, and the order and procedure-type records keep only the fields read here.
- `src/config-schema.ts` (declarative defaults) and `post-procedure-form.component.tsx` (form UI whose validation is delegated to a library) are not modelled.
- React re-render and memoisation timing are not modelled.
- Fetched REST records are assumed to carry every field the code reads, so the paths where a missing field throws a TypeError or yields `undefined` are not modelled. Examples: `data.data.results.length` with no `results` (src/summary-tiles/procedure-summary.resource.tsx:86, where `ProcedureSummary.OrderCount` gives 0 only when `data.data` is absent), `encounter?.obs.filter` on an encounter without `obs` (src/review-list/dialog/review-item.component.tsx:43), and a patient without `display` (src/common/groupedOrdersTable.component.tsx:102, where `GroupedOrdersTable.RowsOfGroupedPage` covers only a present display).
- `ReviewList.ApproveTargetIsOwnEntry` and `ReviewList.ApproveTarget` take the rendered rows to be exactly `ReviewList.TableRows(page)`. The table's search box (src/review-list/review-list.component.tsx:154-159) can filter the rendered rows further. That search step is not modelled, and it shifts the `index` used for the approve target further still.
- The item list of the status dropdown is not modelled; `GroupedOrdersTable.FilteredEntries` accepts any selected value.
