/** The page loop of `fetch_products`: request pages 1, 2, ... of one leaf's listing until a
    page yields nothing, keeping every item with a truthy id as a product row. */
module Pagination {
  import opened Catalog

  /** The product rows one page contributes: its items with a truthy id, in page order. */
  function Stamp(items: seq<Item>): (r: seq<Row>)
    ensures |r| <= |items|
    ensures forall k :: 0 <= k < |r| ==> IsTruthy(r[k].id) && r[k].level == PLACEHOLDER_RANK
  {
    if items == [] then []
    else
      var last := items[|items| - 1];
      Stamp(items[..|items| - 1]) + (if IsTruthy(last.id) then [ProductRow(last)] else [])
  }

  /** Filtering distributes over concatenation: items are judged one by one and keep their order. */
  lemma {:induction false} StampAppend(a: seq<Item>, b: seq<Item>)
    ensures Stamp(a + b) == Stamp(a) + Stamp(b)
    decreases |b|
  {
    if b == [] {
      assert a + b == a;
    } else {
      var b' := b[..|b| - 1];
      assert (a + b)[..|a + b| - 1] == a + b';
      StampAppend(a, b');
    }
  }

  /** A single item yields its product row exactly when its id is truthy. */
  lemma StampSingle(x: Item)
    ensures Stamp([x]) == if IsTruthy(x.id) then [ProductRow(x)] else []
  {
    assert [x][..0] == [];
  }

  /** Pagination stops at a page that is missing or has an empty product list. */
  predicate EndsPagination(p: Page) {
    p.None? || p.value == []
  }

  /** What the endpoint answers for page number `page` (1-based). Pages beyond the given
      responses answer nothing. */
  function Response(pages: seq<Page>, page: int): Page {
    if 1 <= page <= |pages| then pages[page - 1] else None
  }

  /** The 0-based index of the first page that ends pagination, or |pages| if none does. */
  function StopIndex(pages: seq<Page>): (k: nat)
    ensures k <= |pages|
    ensures forall i :: 0 <= i < k ==> !EndsPagination(pages[i])
    ensures k < |pages| ==> EndsPagination(pages[k])
  {
    if pages == [] || EndsPagination(pages[0]) then 0 else 1 + StopIndex(pages[1..])
  }

  /** The products collected from a leaf: the pages before the first ending one, in order. */
  function Harvest(pages: seq<Page>): (r: seq<Row>)
    ensures forall k :: 0 <= k < |r| ==> IsTruthy(r[k].id) && r[k].level == PLACEHOLDER_RANK
  {
    if pages == [] || EndsPagination(pages[0]) then []
    else Stamp(pages[0].value) + Harvest(pages[1..])
  }

  /** Reference definition: the stamped items of every page, with no stop condition. */
  function StampPages(pages: seq<Page>): seq<Row> {
    if pages == [] then [] else Stamp(GetOr(pages[0], [])) + StampPages(pages[1..])
  }

  /** Harvesting is stamping exactly the pages before the first ending page. */
  lemma {:induction false} HarvestIsStampedPrefix(pages: seq<Page>)
    ensures Harvest(pages) == StampPages(pages[..StopIndex(pages)])
  {
    if pages == [] || EndsPagination(pages[0]) {
      assert pages[..StopIndex(pages)] == [];
    } else {
      HarvestIsStampedPrefix(pages[1..]);
      assert pages[..StopIndex(pages)][1..] == pages[1..][..StopIndex(pages[1..])];
    }
  }

  /** Nothing after the first ending page is looked at. */
  lemma {:induction false} HarvestIgnoresLaterPages(pages: seq<Page>, later: seq<Page>)
    requires StopIndex(pages) < |pages|
    ensures Harvest(pages + later) == Harvest(pages)
  {
    if !EndsPagination(pages[0]) {
      assert (pages + later)[1..] == pages[1..] + later;
      HarvestIgnoresLaterPages(pages[1..], later);
    }
  }

  /** The `for item in items` loop of `fetch_products`: append the product row of every item
      with a truthy id. */
  method AppendPage(products: seq<Row>, items: seq<Item>) returns (r: seq<Row>)
    ensures r == products + Stamp(items)
  {
    r := products;
    var j := 0;
    while j < |items|
      invariant 0 <= j <= |items|
      invariant r == products + Stamp(items[..j])
    {
      var item := items[j];
      assert items[..j + 1][..j] == items[..j];
      if IsTruthy(item.id) {
        r := r + [ProductRow(item)];
      }
      j := j + 1;
    }
    assert items[..j] == items;
  }

  /** `fetch_products` with the network replaced by the endpoint's answers `pages` for this
      leaf: `products` is what it returns and `requests` counts the page requests it issues. */
  method FetchProducts(shard: string, pages: seq<Page>) returns (products: seq<Row>, requests: nat)
    ensures shard == "" ==> products == [] && requests == 0
    ensures shard != "" ==> products == Harvest(pages) && requests == StopIndex(pages) + 1
  {
    if shard == "" {
      return [], 0;
    }
    products := [];
    requests := 0;
    var page := 1;
    ghost var done: nat := 0;
    while true
      invariant page == done + 1 && done <= |pages| && done <= StopIndex(pages)
      invariant requests == done
      invariant Harvest(pages) == products + Harvest(pages[done..])
      decreases |pages| - done
    {
      var data := Response(pages, page);
      requests := requests + 1;
      if done < |pages| {
        HarvestFrom(pages, done);
      } else {
        assert pages[done..] == [];
      }
      if data.None? {
        break;
      }
      var items := data.value;
      if items == [] {
        break;
      }
      ghost var next: nat := done + 1;
      ghost var before := products;
      products := AppendPage(products, items);
      assert Harvest(pages) == before + (Stamp(items) + Harvest(pages[next..]));
      page := page + 1;
      done := next;
    }
  }

  /** What the page at index `k` contributes: nothing more once it ends the pagination,
      otherwise its stamped items followed by what the later pages contribute. */
  lemma HarvestFrom(pages: seq<Page>, k: nat)
    requires k < |pages| && k <= StopIndex(pages)
    ensures Response(pages, k + 1) == pages[k]
    ensures EndsPagination(pages[k]) ==> Harvest(pages[k..]) == [] && StopIndex(pages) == k
    ensures !EndsPagination(pages[k]) ==>
              k < StopIndex(pages) && Harvest(pages[k..]) == Stamp(pages[k].value) + Harvest(pages[k + 1..])
  {
    assert pages[k..][1..] == pages[k + 1..];
  }
}
