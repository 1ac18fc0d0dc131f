/** `process_category` and the root loop of `main`: flatten one root, fetch the products of its
    leaves, merge them in at their anchors and hand the table to the sheet writer, all under the
    global deadline. */
module Crawl {
  import opened Catalog
  import opened Pagination
  import opened Flattening
  import opened Merging
  import opened Sheets

  /** One sheet handed to the writer: its name and its `(ID, Name, Level)` rows. */
  datatype Sheet = Sheet(name: string, rows: seq<Row>)

  /** The state `process_category` keeps for one root: the lists `results`, `final_positions`
      and `tasks` that `recurse` appends to and the merge then rewrites. */
  class RootRun {
    var results: seq<Row>
    var finalPositions: seq<nat>
    var tasks: seq<FetchTask>

    /** One task per anchor, anchors strictly increasing and each the index of a row. */
    ghost predicate Valid()
      reads this
    {
      |finalPositions| == |tasks| && Increasing(finalPositions) &&
      forall k :: 0 <= k < |finalPositions| ==> finalPositions[k] < |results|
    }

    constructor ()
      ensures Valid()
      ensures results == [] && finalPositions == [] && tasks == []
    {
      results, finalPositions, tasks := [], [], [];
    }

    /** `recurse(cat, level)`: append the subtree's rows in pre-order and, for every leaf that
        names a shard, its row index and its fetch task. */
    method Recurse(cat: Category, level: int)
      requires Valid()
      modifies this
      decreases cat, 1
      ensures Valid()
      ensures results == old(results) + Flatten(cat, level)
      ensures finalPositions == old(finalPositions) + Anchors(cat, |old(results)|)
      ensures tasks == old(tasks) + Tasks(cat)
    {
      ghost var base := |results|;
      results := results + [CategoryRow(cat, level)];
      var childs := cat.children;
      if childs != [] {
        ghost var childBase: nat := base + 1;
        var childLevel := level + 1;
        RecurseChildren(childs, childLevel);
        assert Flatten(cat, level) == [CategoryRow(cat, level)] + FlattenAll(childs, childLevel);
        assert Anchors(cat, base) == AnchorsAll(childs, childBase);
        Regroup(old(results), [CategoryRow(cat, level)], FlattenAll(childs, childLevel), Flatten(cat, level));
      } else if cat.shard != "" {
        IncreasingSnoc(finalPositions, |results| - 1);
        finalPositions := finalPositions + [|results| - 1];
        tasks := tasks + [FetchTask(cat.id, cat.shard)];
      }
    }

    /** The `for subcat in childs` loop of `recurse`: visit the children in order at `level`. */
    method RecurseChildren(childs: seq<Category>, level: int)
      requires Valid()
      modifies this
      decreases childs, 0
      ensures Valid()
      ensures results == old(results) + FlattenAll(childs, level)
      ensures finalPositions == old(finalPositions) + AnchorsAll(childs, |old(results)|)
      ensures tasks == old(tasks) + TasksAll(childs)
    {
      ghost var rows0, anchors0, tasks0 := results, finalPositions, tasks;
      ghost var base: nat := |results|;
      assert childs[..0] == [];
      var i := 0;
      while i < |childs|
        invariant 0 <= i <= |childs|
        invariant Valid()
        invariant results == rows0 + FlattenAll(childs[..i], level)
        invariant finalPositions == anchors0 + AnchorsAll(childs[..i], base)
        invariant tasks == tasks0 + TasksAll(childs[..i])
      {
        ghost var at: nat := |results|;
        ChildStep(childs, i, level, base, at);
        Recurse(childs[i], level);
        Regroup(rows0, FlattenAll(childs[..i], level), Flatten(childs[i], level), FlattenAll(childs[..i + 1], level));
        Regroup(anchors0, AnchorsAll(childs[..i], base), Anchors(childs[i], at), AnchorsAll(childs[..i + 1], base));
        Regroup(tasks0, TasksAll(childs[..i]), Tasks(childs[i]), TasksAll(childs[..i + 1]));
        i := i + 1;
      }
      assert childs[..i] == childs;
    }

    /** The merge loop: splice the `k`-th product list in right after the row at the `k`-th
        anchor, shifting each insertion point by the number of products already inserted. */
    method Merge(productLists: seq<seq<Row>>)
      requires Valid() && |productLists| == |tasks|
      modifies this
      ensures Valid()
      ensures finalPositions == old(finalPositions) && tasks == old(tasks)
      ensures WellAnchored(old(results), finalPositions, productLists)
      ensures results == Woven(old(results), finalPositions, productLists)
    {
      ghost var flat := results;
      assert WellAnchored(flat, finalPositions, productLists);
      var offset := 0;
      var k := 0;
      while k < |finalPositions|
        invariant 0 <= k <= |finalPositions|
        invariant finalPositions == old(finalPositions) && tasks == old(tasks)
        invariant offset == SumLen(productLists[..k])
        invariant WellAnchored(flat, finalPositions[..k], productLists[..k])
        invariant results == Woven(flat, finalPositions[..k], productLists[..k])
      {
        var pos := finalPositions[k];
        var prodList := productLists[k];
        MergeStep(flat, finalPositions, productLists, k);
        ghost var head := Woven(flat[..pos + 1], finalPositions[..k], productLists[..k]);
        ghost var rest := flat[pos + 1..];
        var insertIndex := pos + 1 + offset;
        assert results[..insertIndex] == head && results[insertIndex..] == rest;
        offset := InsertProducts(insertIndex, offset, prodList);
        assert productLists[..k + 1][..k] == productLists[..k];
        k := k + 1;
      }
      assert finalPositions[..k] == finalPositions && productLists[..k] == productLists;
      WovenLength(flat, finalPositions, productLists);
    }

    /** The inner loop of the merge: insert the products one by one at consecutive positions
        from `insertIndex`, counting each one in `offset`. */
    method InsertProducts(insertIndex: nat, offset: nat, prodList: seq<Row>) returns (offset': nat)
      requires insertIndex <= |results|
      modifies this
      ensures offset' == offset + |prodList|
      ensures results == old(results)[..insertIndex] + prodList + old(results)[insertIndex..]
      ensures finalPositions == old(finalPositions) && tasks == old(tasks)
    {
      ghost var head, rest := results[..insertIndex], results[insertIndex..];
      assert results == head + prodList[..0] + rest;
      var index := insertIndex;
      offset' := offset;
      var t := 0;
      while t < |prodList|
        invariant 0 <= t <= |prodList|
        invariant finalPositions == old(finalPositions) && tasks == old(tasks)
        invariant index == |head| + t
        invariant offset' == offset + t
        invariant results == head + prodList[..t] + rest
      {
        // list.insert(index, product), with index <= len(results)
        InsertNext(head, prodList, rest, t);
        results := results[..index] + [prodList[t]] + results[index..];
        index := index + 1;
        offset' := offset' + 1;
        t := t + 1;
      }
      assert prodList[..t] == prodList;
    }
  }

  /** Appending a block to a list that already ends in a run extends that run. */
  lemma Regroup<T>(a: seq<T>, b: seq<T>, c: seq<T>, bc: seq<T>)
    requires bc == b + c
    ensures a + b + c == a + bc
  {
  }

  /** Inserting the next element of a list right after the part of it already inserted. */
  lemma InsertNext<T>(head: seq<T>, list: seq<T>, rest: seq<T>, t: nat)
    requires t < |list|
    ensures var s := head + list[..t] + rest;
            s[..|head| + t] + [list[t]] + s[|head| + t..] == head + list[..t + 1] + rest
  {
    var s := head + list[..t] + rest;
    assert s[..|head| + t] == head + list[..t];
    assert s[|head| + t..] == rest;
    assert list[..t + 1] == list[..t] + [list[t]];
  }

  /** What `fetch_products` returns for a task when the leaf's endpoint answers `catalog(task)`. */
  function ProductsOf(task: FetchTask, catalog: FetchTask -> seq<Page>): (r: seq<Row>)
    ensures forall k :: 0 <= k < |r| ==> IsTruthy(r[k].id) && r[k].level == PLACEHOLDER_RANK
  {
    if task.shard == "" then [] else Harvest(catalog(task))
  }

  /** The result of `asyncio.gather` over the tasks: one product list per task, in task order. */
  function ProductLists(tasks: seq<FetchTask>, catalog: FetchTask -> seq<Page>): (r: seq<seq<Row>>)
    ensures |r| == |tasks|
  {
    seq(|tasks|, j requires 0 <= j < |tasks| => ProductsOf(tasks[j], catalog))
  }

  /** `asyncio.gather` over one `fetch_products` call per task, run one after the other. */
  method FetchAll(tasks: seq<FetchTask>, catalog: FetchTask -> seq<Page>) returns (productLists: seq<seq<Row>>)
    ensures productLists == ProductLists(tasks, catalog)
  {
    productLists := [];
    var j := 0;
    while j < |tasks|
      invariant 0 <= j <= |tasks|
      invariant productLists == ProductLists(tasks[..j], catalog)
    {
      var products, _ := FetchProducts(tasks[j].shard, catalog(tasks[j]));
      assert products == ProductsOf(tasks[j], catalog);
      productLists := productLists + [products];
      assert tasks[..j + 1][..j] == tasks[..j];
      j := j + 1;
    }
    assert tasks[..j] == tasks;
  }

  /** The rows of a root's sheet: the flattened tree with every leaf's products merged in. */
  function Table(root: Category, catalog: FetchTask -> seq<Page>): seq<Row> {
    RootAnchored(root, catalog);
    Woven(Flatten(root, 1), Anchors(root, 0), ProductLists(Tasks(root), catalog))
  }

  /** The anchors of a root flattened from index 0 fit its rows and its product lists. */
  lemma RootAnchored(root: Category, catalog: FetchTask -> seq<Page>)
    ensures WellAnchored(Flatten(root, 1), Anchors(root, 0), ProductLists(Tasks(root), catalog))
  {
    FlattenShows(root, 1);
    AnchorsRange(root, 0);
    TasksAligned(root, 0);
  }

  /** The sheet written for a root that is processed. */
  function SheetOf(root: Category, catalog: FetchTask -> seq<Page>): Sheet {
    Sheet(SheetName(GetOr(root.name, "Category")), Table(root, catalog))
  }

  /** `process_category` for one root, with `elapsed` the time since the start of the run when
      it begins and `catalog` the endpoint's answers for each leaf. */
  method ProcessCategory(root: Category, elapsed: real, catalog: FetchTask -> seq<Page>) returns (sheet: Option<Sheet>)
    ensures OverTime(elapsed) ==> sheet == None
    ensures !OverTime(elapsed) ==> sheet == Some(SheetOf(root, catalog))
  {
    if OverTime(elapsed) {
      return None;
    }
    var rootName := GetOr(root.name, "Category");
    var sheetName := SheetName(rootName);
    var run := new RootRun();
    run.Recurse(root, 1);
    assert run.results == Flatten(root, 1);
    assert run.finalPositions == Anchors(root, 0);
    assert run.tasks == Tasks(root);
    RootAnchored(root, catalog);
    var tasks := run.tasks;
    if tasks != [] {
      var productLists := FetchAll(tasks, catalog);
      run.Merge(productLists);
      assert run.results == Woven(Flatten(root, 1), Anchors(root, 0), ProductLists(Tasks(root), catalog));
    } else {
      assert Anchors(root, 0) == [];
      assert ProductLists(Tasks(root), catalog) == [];
      assert run.results == Table(root, catalog);
    }
    return Some(Sheet(sheetName, run.results));
  }

  /** The sheets `main` writes from root `from` on: roots in order until the check before a
      root finds the time exceeded; a root whose own check in `process_category` finds it
      exceeded writes nothing. */
  function Written(roots: seq<Category>, outer: seq<real>, inner: seq<real>, catalog: FetchTask -> seq<Page>, from: nat): seq<Sheet>
    requires |outer| == |roots| && |inner| == |roots|
    decreases |roots| - from
  {
    if from >= |roots| || OverTime(outer[from]) then []
    else
      (if OverTime(inner[from]) then [] else [SheetOf(roots[from], catalog)]) +
      Written(roots, outer, inner, catalog, from + 1)
  }

  /** The root loop of `main`. `outer[i]` is the elapsed time at the check before root `i`,
      `inner[i]` the elapsed time at the check inside its `process_category` call. */
  method Run(roots: seq<Category>, outer: seq<real>, inner: seq<real>, catalog: FetchTask -> seq<Page>)
    returns (sheets: seq<Sheet>)
    requires |outer| == |roots| && |inner| == |roots|
    ensures sheets == Written(roots, outer, inner, catalog, 0)
  {
    sheets := [];
    var i := 0;
    while i < |roots|
      invariant 0 <= i <= |roots|
      invariant Written(roots, outer, inner, catalog, 0) == sheets + Written(roots, outer, inner, catalog, i)
    {
      if OverTime(outer[i]) {
        break;
      }
      var sheet := ProcessCategory(roots[i], inner[i], catalog);
      ghost var got := if OverTime(inner[i]) then [] else [SheetOf(roots[i], catalog)];
      ghost var rest := Written(roots, outer, inner, catalog, i + 1);
      assert Written(roots, outer, inner, catalog, i) == got + rest;
      Regroup(sheets, got, rest, got + rest);
      ghost var before := sheets;
      if sheet.Some? {
        assert got == [sheet.value];
        sheets := sheets + [sheet.value];
      } else {
        assert got == [] && before + got == before;
      }
      assert sheets == before + got;
      i := i + 1;
    }
  }

  /** Readings of a clock that never runs backwards: each root's inner check comes after its
      outer check and before the next root's outer check. */
  predicate ClockAdvances(outer: seq<real>, inner: seq<real>)
    requires |outer| == |inner|
  {
    (forall i :: 0 <= i < |outer| ==> outer[i] <= inner[i]) &&
    (forall i :: 0 <= i < |outer| - 1 ==> inner[i] <= outer[i + 1])
  }

  /** Index of the first root from `from` on whose in-call check finds the time exceeded,
      |inner| if none. */
  function Cutoff(inner: seq<real>, from: nat): (k: nat)
    requires from <= |inner|
    ensures from <= k <= |inner|
    ensures forall i :: from <= i < k ==> !OverTime(inner[i])
    ensures k < |inner| ==> OverTime(inner[k])
    decreases |inner| - from
  {
    if from == |inner| || OverTime(inner[from]) then from else Cutoff(inner, from + 1)
  }

  /** The sheets of the given roots, in order, as if every root were processed. */
  function SheetsOf(roots: seq<Category>, catalog: FetchTask -> seq<Page>): (r: seq<Sheet>)
    ensures |r| == |roots|
  {
    if roots == [] then [] else [SheetOf(roots[0], catalog)] + SheetsOf(roots[1..], catalog)
  }

  /** Deadline monotonicity: with a clock that never runs backwards, the sheets written are
      exactly those of the roots before the first one whose own check finds the time exceeded,
      in root order, and nothing is written after that root. */
  lemma {:induction false} DeadlineCutsPrefix(roots: seq<Category>, outer: seq<real>, inner: seq<real>, catalog: FetchTask -> seq<Page>, from: nat)
    requires |outer| == |roots| && |inner| == |roots| && from <= |roots|
    requires ClockAdvances(outer, inner)
    ensures Written(roots, outer, inner, catalog, from) == SheetsOf(roots[from..Cutoff(inner, from)], catalog)
    decreases |roots| - from
  {
    if from == |roots| {
      assert roots[from..from] == [];
    } else if OverTime(inner[from]) {
      assert roots[from..from] == [];
      var next: nat := from + 1;
      if !OverTime(outer[from]) && next < |roots| {
        // the clock has not gone back by the next root's check, so that check stops the loop
        assert inner[from] <= outer[next];
        assert Written(roots, outer, inner, catalog, next) == [];
      }
    } else {
      var next: nat := from + 1;
      var cut := Cutoff(inner, from);
      assert cut == Cutoff(inner, next);
      WrittenStep(roots, outer, inner, catalog, from, next);
      DeadlineCutsPrefix(roots, outer, inner, catalog, next);
      assert roots[from..cut][1..] == roots[next..cut];
    }
  }

  /** A root whose two checks both pass contributes its sheet ahead of the later roots'. */
  lemma WrittenStep(roots: seq<Category>, outer: seq<real>, inner: seq<real>, catalog: FetchTask -> seq<Page>, from: nat, next: nat)
    requires |outer| == |roots| && |inner| == |roots| && from < |roots| && next == from + 1
    requires ClockAdvances(outer, inner) && !OverTime(inner[from])
    ensures Written(roots, outer, inner, catalog, from) ==
            [SheetOf(roots[from], catalog)] + Written(roots, outer, inner, catalog, next)
  {
    assert !OverTime(outer[from]);
  }

  /** Example: a root `A` without a shard whose one child `B` is a leaf with shard
      `s1`; page 1 of `s1` lists two products, page 2 is empty. */
  const ExampleLeaf := Category(Some(2), Some("B"), "s1", [])
  const ExampleRoot := Category(Some(1), Some("A"), "", [ExampleLeaf])
  const ExampleItems := [Item(Some(101), Some("p1")), Item(Some(102), Some("p2"))]
  const ExampleCatalog := (t: FetchTask) =>
    if t == FetchTask(Some(2), "s1") then [Some(ExampleItems), Some([])] else []

  /** The example tree flattens to `A` at level 1 and `B` at level 2, with one anchor at row 1. */
  lemma ExampleTree()
    ensures Flatten(ExampleRoot, 1) == [Row(Some(1), "A", 1), Row(Some(2), "B", 2)]
    ensures Anchors(ExampleRoot, 0) == [1]
    ensures Tasks(ExampleRoot) == [FetchTask(Some(2), "s1")]
  {
    var b := ExampleLeaf;
    assert [b][..|[b]| - 1] == [];
    assert Flatten(b, 2) == [Row(Some(2), "B", 2)];
    assert FlattenAll([b], 2) == FlattenAll([], 2) + Flatten(b, 2);
    assert AnchorsAll([b], 1) == AnchorsAll([], 1) + Anchors(b, 1 + |NodesAll([])|);
    assert TasksAll([b]) == TasksAll([]) + Tasks(b);
  }

  /** The leaf's pages yield its two products, stamped with the placeholder rank. */
  lemma ExampleProducts()
    ensures ProductLists(Tasks(ExampleRoot), ExampleCatalog) ==
            [[Row(Some(101), "p1", 99), Row(Some(102), "p2", 99)]]
  {
    ExampleTree();
    ExamplePages();
    var t := FetchTask(Some(2), "s1");
    assert ExampleCatalog(t) == [Some(ExampleItems), Some([])];
    var lists := ProductLists([t], ExampleCatalog);
    assert lists[0] == ProductsOf(t, ExampleCatalog);
  }

  /** Page 1 yields both products, page 2 is empty and ends the pagination. */
  lemma ExamplePages()
    ensures Harvest([Some(ExampleItems), Some([])]) == [Row(Some(101), "p1", 99), Row(Some(102), "p2", 99)]
  {
    ExampleStamp();
    var pages := [Some(ExampleItems), Some([])];
    assert pages[1..] == [Some([])];
    assert Harvest(pages[1..]) == [];
  }

  /** Both example items have a truthy id, so page 1 yields both of them, in order. */
  lemma ExampleStamp()
    ensures Stamp(ExampleItems) == [Row(Some(101), "p1", 99), Row(Some(102), "p2", 99)]
  {
    var p1, p2 := ExampleItems[0], ExampleItems[1];
    StampAppend([p1], [p2]);
    StampSingle(p1);
    StampSingle(p2);
    assert [p1] + [p2] == ExampleItems;
  }


  /** The example's sheet: `A`, `B`, then `B`'s two products right after `B`. */
  lemma ScenarioOneLeaf()
    ensures Table(ExampleRoot, ExampleCatalog) ==
            [Row(Some(1), "A", 1), Row(Some(2), "B", 2), Row(Some(101), "p1", 99), Row(Some(102), "p2", 99)]
  {
    ExampleTree();
    ExampleProducts();
    var prods := [Row(Some(101), "p1", 99), Row(Some(102), "p2", 99)];
    var flat := [Row(Some(1), "A", 1), Row(Some(2), "B", 2)];
    WovenSingle(flat, 1, prods);
    assert flat[..2] == flat && flat[2..] == [];
  }
}
