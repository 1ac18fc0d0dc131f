# Wildberries category crawler: a Dafny model of the crawl-and-merge core

The crawler reads the Wildberries main-menu tree and writes one spreadsheet sheet per root
category. For each root, `process_category` does four things:

1. It flattens the tree with the nested `recurse` into `(ID, Name, Level)` rows, in pre-order.
2. At the same time it records an *anchor* for every leaf that names a shard. The anchor is the
   index of that leaf's own row, and a fetch task is created alongside it.
3. It fetches every leaf's products page by page (`fetch_products`).
4. It splices each product list in right after its leaf's row. A running offset makes up for the
   rows already inserted.

`main` walks the roots in order and stops at a global 60-second deadline. `process_category`
checks the same deadline once more before it starts.

This project models that core and proves what it computes:

| file | module | contents |
|---|---|---|
| catalog.dfy | `Catalog` | the values read from the catalog (categories, items, pages) and the rows written |
| pagination.dfy | `Pagination` | the page loop of `fetch_products` as a method, proved against `Harvest` |
| flattening.dfy | `Flattening` | what `recurse` produces: rows, anchors and tasks as functions on the tree, with their properties |
| merging.dfy | `Merging` | `Woven`, the reference result of the offset merge, with placement, length and order lemmas |
| sheets.dfy | `Sheets` | the sheet-name sanitiser and the deadline predicate |
| crawl.dfy | `Crawl` | the lists `process_category` mutates, as the class `RootRun` |

In crawl.dfy:

- `RootRun.Recurse` (with `RecurseChildren` for its loop over the children) and `RootRun.Merge` are proved to compute `Flatten`/`Anchors`/`Tasks` and
  `Woven`.
- `ProcessCategory` and `Run` model `process_category` and `main`'s root loop.
- A one-leaf example (`ScenarioOneLeaf`) is proved end to end.

Inputs the program reads from the outside become parameters:

- `pages: seq<Page>` are the endpoint's answers for pages 1, 2, … of one leaf. `None` stands for
  an empty or failed response, and `Some(items)` for the page's `products` list. A page beyond
  the sequence answers `None`.
- `catalog: FetchTask -> seq<Page>` gives those answers for every leaf.
- `elapsed`, `outer[i]` and `inner[i]` are the clock readings at the two deadline checks.

## Model

| member | source | states |
|---|---|---|
| Catalog.IncreasingAppend | parser.py:84 | two increasing anchor runs separated by a bound concatenate to an increasing run, the step that keeps anchors increasing across sibling subtrees |
| Catalog.GetOr | parser.py:74 | `dict.get(key, default)`: the value when present, the default when the key is missing; used for the name defaults here and at parser.py:51 and parser.py:65 |
| Catalog.IsTruthy | parser.py:52 | Python truthiness of an optional integer id: present and not zero |
| Catalog.IsFetchLeaf | parser.py:78-83 | a node that gets fetched: no children (a missing or empty `childs`) and a non-empty shard |
| Catalog.CategoryRow | parser.py:73-76 | the `(id, name, level)` row of a category, with `""` for a missing name |
| Catalog.ProductRow | parser.py:50-53 | the `(id, name, 99)` row of a product, with `""` for a missing name |
| Pagination.Stamp | parser.py:49-53 | the rows of one page: no more rows than items, each with a truthy id and the placeholder rank 99 |
| Pagination.StampAppend | parser.py:49-53 | items are judged one by one and keep their order: stamping a concatenation concatenates the stamped parts |
| Pagination.StampSingle | parser.py:50-53 | one item yields `(id, name, 99)` exactly when its id is truthy, and nothing otherwise |
| Pagination.StopIndex | parser.py:42-47 | the index of the first missing or empty page: every earlier page has items, and the page there ends the loop |
| Pagination.EndsPagination | parser.py:42-47 | a page ends the loop when the response is empty (`not data`) or its product list is empty |
| Pagination.Response | parser.py:39-41 | the answer to request `page`: the `page`-th given response, nothing beyond them |
| Pagination.Harvest | parser.py:38-54 | the products of the pages before the first ending page, page by page; every row has a truthy id and rank 99 |
| Pagination.StampPages | parser.py:49-53 | reference definition: the stamped items of every page, with no stop condition |
| Pagination.AppendPage | parser.py:49-53 | the item loop appends exactly the stamped items of the page to the products so far |
| Pagination.FetchProducts | parser.py:32-57 | an empty shard returns `[]` with no request; otherwise the result is `Harvest(pages)` and exactly `StopIndex + 1` pages are requested |
| Pagination.HarvestFrom | parser.py:38-54 | one loop step: an ending page contributes nothing and is the stop index; any other page contributes its stamped items ahead of the later pages |
| Pagination.HarvestIsStampedPrefix | parser.py:38-54 | the products are the stamped items of exactly the pages before the first missing or empty page |
| Pagination.HarvestIgnoresLaterPages | parser.py:42-47 | pages after the first ending page never influence the result |
| Flattening.FlattenShows | parser.py:72-81 | one row per pre-order node; row `i` shows the id and name of the `i`-th node; the first row is the root's own |
| Flattening.FlattenAllShows | parser.py:79-81 | the same for a list of siblings visited in source order |
| Flattening.FlattenDepths | parser.py:76-81 | the subtree's first row is at the given level and every later row is deeper |
| Flattening.FlattenAllDepths | parser.py:79-81 | the siblings' rows start at their level and never go shallower |
| Flattening.NodesEndInLeaf | parser.py:78-81 | the last node of a subtree in pre-order has no children |
| Flattening.NodesAllEndInLeaf | parser.py:78-81 | the same for a non-empty list of siblings |
| Flattening.FlattenSteps | parser.py:72-81 | each row is at most one level deeper than the row before it, and exactly one deeper if and only if the node before it has children |
| Flattening.FlattenAllSteps | parser.py:79-81 | the same property across consecutive sibling subtrees |
| Flattening.ChildStep | parser.py:80-81 | visiting one more child appends that child's rows, anchors (based at its row index) and tasks |
| Flattening.FlattenAllAppend | parser.py:80-81 | flattening a concatenation of sibling lists concatenates their flattenings |
| Flattening.ChildSubtreeBlock | parser.py:72-81 | the `j`-th child's subtree is one contiguous block at level+1, after the parent's row and the earlier siblings' blocks and before the later ones |
| Flattening.AnchorsRange | parser.py:84 | the anchors of a subtree are strictly increasing and lie within the subtree's rows |
| Flattening.AnchorsAllRange | parser.py:84 | the same for a list of siblings |
| Flattening.AnchorsExact | parser.py:78-85 | a row index is an anchor if and only if its node has no children and a non-empty shard; a node with children is never anchored |
| Flattening.AnchorsAllExact | parser.py:78-85 | the same for a list of siblings |
| Flattening.TasksAligned | parser.py:84-85 | one task per anchor; the `j`-th task fetches the id and shard of the node whose row is the `j`-th anchor |
| Flattening.TasksAllAligned | parser.py:84-85 | the same for a list of siblings |
| Flattening.Nodes | parser.py:72-81 | the nodes of a subtree in the order `recurse` visits them: the node, then each child's subtree in source order |
| Flattening.NodesAll | parser.py:80-81 | the same for a list of siblings |
| Flattening.Flatten | parser.py:72-81 | the rows `recurse(c, level)` appends: the node's row, then the children's rows at `level + 1` |
| Flattening.FlattenAll | parser.py:80-81 | the rows appended by the `for subcat in childs` loop |
| Flattening.Anchors | parser.py:78-84 | the anchors `recurse` records when the node's own row lands at `base`: `[base]` for a leaf with a shard, the children's anchors otherwise |
| Flattening.AnchorsAll | parser.py:80-84 | the same for siblings, each child's anchors based at its own row index |
| Flattening.TaskOf | parser.py:85 | the task `fetch_products(session, cid, shard)` of a node |
| Flattening.Tasks | parser.py:78-85 | the tasks created for a subtree, one per leaf with a shard, in creation order |
| Flattening.TasksAll | parser.py:80-85 | the same for a list of siblings |
| Merging.WovenSingle | parser.py:95-98 | one list merged at one anchor lands right after the anchored row, with everything else unchanged |
| Merging.WovenLength | parser.py:93-99 | the merged length is the flat length plus the sum of the product-list lengths |
| Merging.WovenSplit | parser.py:93-99 | rows after every anchor are carried over unchanged at the end |
| Merging.MergeStep | parser.py:94-99 | merging the next list at `pos + 1 + offset` turns the merge of the first `k` lists into that of the first `k + 1` |
| Merging.ShiftPrefix | parser.py:95 | the products inserted before row `r` are exactly the lists of the anchors before `r` |
| Merging.WovenRow | parser.py:93-99 | every original row survives the merge: row `r` lands at `r + Shift(r)` |
| Merging.WovenLeafRow | parser.py:95 | the leaf of anchor `i` ends up at `a_i + Σ_{j<i} c_j` |
| Merging.WovenRowAfterLeaf | parser.py:95-99 | the original row after the leaf of anchor `i` lands right after that leaf's `c_i` products, at `a_i + Σ_{j<i} c_j + 1 + c_i` |
| Merging.ShiftAtAnchor | parser.py:95-99 | before anchor `i`'s row come the first `i` lists, and before the next row also list `i` |
| Merging.WovenProducts | parser.py:95-98 | list `i` follows its leaf's row immediately, in its own order |
| Merging.WovenKeepsRowOrder | parser.py:93-99 | the category rows keep their relative order |
| Merging.WovenAllEmpty | parser.py:96-99 | merging only empty lists changes nothing |
| Merging.SumLen | parser.py:99 | the final `offset`: the total number of product rows inserted |
| Merging.Woven | parser.py:93-99 | reference result of the merge: each list right after the row of its anchor, all other rows in place |
| Merging.Shift | parser.py:95-99 | the number of product rows inserted before original row `r`: the lengths of the lists anchored before it |
| Merging.WovenDropsEmpty | parser.py:96-99 | an empty product list is a no-op: merging with it equals merging without it |
| Merging.WovenSnoc | parser.py:93-99 | the last anchor's list goes after the merged rows up to that anchor |
| Merging.WovenDropsLastEmpty | parser.py:96-99 | an empty last list is a no-op |
| Sheets.Sanitize | parser.py:66 | same length; no forbidden character remains; other characters are kept in place, and forbidden ones become `_` |
| Sheets.SheetName | parser.py:66 | at most 31 characters, exactly `min(len, 31)`, with none of `[]*?/\:`; every kept position is the original character or `_` in place of a forbidden one |
| Sheets.SheetNameKeepsValid | parser.py:66 | a name that is already short and clean comes back unchanged |
| Sheets.SheetNameIdempotent | parser.py:66 | applying the sanitiser twice gives the same name as applying it once |
| Sheets.SheetNameExample | parser.py:66 | `"A/B:C"` becomes `"A_B_C"` |
| Sheets.OverTime | parser.py:61 | the deadline test `elapsed > TIME_LIMIT`, with TIME_LIMIT 60 seconds |
| Crawl.RootRun.constructor | parser.py:68-70 | the three lists start empty |
| Crawl.RootRun.Recurse | parser.py:72-85 | appends the subtree's pre-order rows at `level`, its anchors based at the row index of its own row, and its tasks, keeping one task per increasing anchor |
| Crawl.RootRun.RecurseChildren | parser.py:79-81 | the `for subcat in childs` loop appends the children's rows in order, their anchors based at the first child's row index, and their tasks, keeping `Valid` |
| Crawl.RootRun.Merge | parser.py:93-99 | the in-place insertions leave `results` equal to `Woven` of the flat rows, anchors and product lists; anchors and tasks are unchanged and `Valid` still holds |
| Crawl.RootRun.InsertProducts | parser.py:95-99 | the inner insert loop places the whole list, in order, at `insert_index` and adds its length to `offset`; anchors and tasks are unchanged |
| Crawl.InsertNext | parser.py:97-98 | inserting the next product at `insert_index` extends the inserted prefix of the list by one |
| Crawl.ProductsOf | parser.py:33-57 | what `fetch_products` returns for a task: `[]` for an empty shard, the harvested pages otherwise; every row has a truthy id and rank 99 |
| Crawl.Table | parser.py:72-99 | a root's sheet rows: the flattened tree with every leaf's products woven in at its anchor |
| Crawl.SheetOf | parser.py:65-103 | the sheet for a processed root: `SheetName` of its name (default `Category`) and its `Table` |
| Crawl.Written | parser.py:117-122 | the sheets `main` writes from root `from` on: stop at the first failing check before a root, skip a root whose own check fails |
| Crawl.ProductLists | parser.py:91 | one product list per task, in task order |
| Crawl.FetchAll | parser.py:91 | calling `fetch_products` for every task in order yields `ProductLists` |
| Crawl.RootAnchored | parser.py:87-94 | the anchors of a root flattened from index 0 fit its rows and its product lists |
| Crawl.ProcessCategory | parser.py:60-103 | past the deadline no sheet; otherwise the sheet named by `SheetName` whose rows are the flattened tree with every leaf's products merged in |
| Crawl.Run | parser.py:116-122 | the sheets written are `Written`: roots in order until a check before a root fails, skipping roots whose own check fails |
| Crawl.Cutoff | parser.py:61-63 | the first root whose check at the start of `process_category` finds the time exceeded; every earlier root passes that check |
| Crawl.SheetsOf | parser.py:117-122 | one sheet per root |
| Crawl.DeadlineCutsPrefix | parser.py:117-122 | with a clock that never goes back, the sheets written are exactly those of the roots before the first over-time root, in order; nothing after it |
| Crawl.WrittenStep | parser.py:117-122 | a root within time contributes its sheet ahead of the later roots' |
| Crawl.ExampleTree | parser.py:72-87 | root A with one leaf B (shard s1) flattens to `(1,A,1), (2,B,2)` with anchor 1 and one task |
| Crawl.ExamplePages | parser.py:38-54 | pages `[p1 p2]`, then `[]`, yield the two products stamped 99 |
| Crawl.ExampleStamp | parser.py:49-53 | both example items have truthy ids, so page 1 yields `(101,p1,99), (102,p2,99)` |
| Crawl.ExampleProducts | parser.py:91 | the example's one task yields those two products |
| Crawl.ScenarioOneLeaf | parser.py:60-99 | the example's sheet is `(1,A,1), (2,B,2), (101,p1,99), (102,p2,99)` |

## Left out

- `fetch_json` (parser.py:15-29), the HTTP client and the error-to-`{}` normalisation are left
  out. Each page is an input `Page`: `None` for an empty or failed response, `Some(items)` for
  its `products` list. A response that is non-empty but lacks `data` or `products` is `Some([])`.
- `asyncio.gather` and its concurrency are left out. `FetchAll` runs the fetches one after the
  other, in task order. Since gather returns results in task order, the merged rows are the same.
- The pandas `DataFrame`, `to_excel` and `ExcelWriter` are left out. A sheet is handed over as a
  `Sheet(name, rows)` value.
- `time.time()` and `start_time` are not modelled; elapsed times are inputs instead. Logging is
  left out as well.
- The session handling and the `isinstance(menu_data, list)` guard of `main` (parser.py:106-113)
  are left out. `Run` starts from an already decoded list of roots.
- Pagination.FetchProducts: an endpoint that never answers an empty page makes the source loop
  forever. The model has finitely many answers followed by "nothing", so it does not capture
  non-termination.
- Responses, items and child nodes that are not JSON objects are not modelled. Examples are a
  response that is a non-empty list, `"data": null`, an item that is not an object, or an entry
  of `childs` that is not an object. The source calls `.get` on them outside `fetch_json`'s
  `try` (parser.py:45, parser.py:50-51, parser.py:73-78) and raises `AttributeError`. `gather`
  re-raises it, and the whole run ends without processing the remaining roots. `Page`, `Item`
  and `Category` hold only well-formed objects, so this crash path is outside the model.
- The model does not cover a `name` key that is present with value `null`. The
  source would write `None` as the name, or fail on `sheet_name`. Ids are integers or absent;
  other JSON types are not modelled.
- The truncation of `zip` in the merge is not modelled, because `recurse` always creates exactly
  one task per anchor (`Valid`). So the lists always have equal lengths.
- The deadline is checked twice per root: before the root in `main` and at the start of
  `process_category`. Nothing checks it per subtree, per leaf or per page.
