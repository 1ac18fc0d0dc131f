/** The values the crawler reads from the remote catalog and the rows it writes to a sheet. */
module Catalog {

  datatype Option<+T> = None | Some(value: T)

  /** `dict.get(key, default)` on a key that may be absent. */
  function GetOr<T>(o: Option<T>, default: T): T {
    match o
    case Some(v) => v
    case None => default
  }

  /** One node of the category tree, as decoded from the menu JSON.
      A missing or empty `childs` entry is `[]`; a missing shard is `""`. */
  datatype Category = Category(id: Option<int>, name: Option<string>, shard: string, children: seq<Category>)

  /** One row of a sheet: `(ID, Name, Level)`. A category row carries its 1-based depth in the
      third column; a product row carries the placeholder rank there. */
  datatype Row = Row(id: Option<int>, name: string, level: int)

  /** One entry of a product page's `products` list. */
  datatype Item = Item(id: Option<int>, name: Option<string>)

  /** What one page request yields: `None` when the response was empty or failed
      (the fetcher turns every failure into `{}`), otherwise the page's `products` list
      (`[]` when the key is missing). */
  type Page = Option<seq<Item>>

  /** A pending leaf fetch: the arguments `fetch_products` is called with. */
  datatype FetchTask = FetchTask(catId: Option<int>, shard: string)

  /** Every product row carries this constant where a category row carries its level. */
  const PLACEHOLDER_RANK: int := 99

  /** Python truthiness of an optional integer id: `None` and `0` are falsy. */
  predicate IsTruthy(id: Option<int>) {
    id.Some? && id.value != 0
  }

  /** A leaf (no children) that names a shard: the only kind of node whose products are fetched. */
  predicate IsFetchLeaf(c: Category) {
    c.children == [] && c.shard != ""
  }

  /** The row `recurse` appends for a category at the given depth. */
  function CategoryRow(c: Category, level: int): Row {
    Row(c.id, GetOr(c.name, ""), level)
  }

  /** The row `fetch_products` appends for a product with a truthy id. */
  function ProductRow(item: Item): Row {
    Row(item.id, GetOr(item.name, ""), PLACEHOLDER_RANK)
  }

  /** Strictly increasing sequence of indices. */
  predicate Increasing(s: seq<nat>) {
    forall i, j :: 0 <= i < j < |s| ==> s[i] < s[j]
  }

  /** Two increasing runs separated by a bound concatenate to an increasing run. */
  lemma IncreasingAppend(a: seq<nat>, b: seq<nat>, bound: nat)
    requires Increasing(a) && Increasing(b)
    requires forall x :: x in a ==> x < bound
    requires forall y :: y in b ==> bound <= y
    ensures Increasing(a + b)
  {
    forall i, j | 0 <= i < j < |a + b|
      ensures (a + b)[i] < (a + b)[j]
    {
      if j >= |a| && i < |a| {
        assert a[i] in a && b[j - |a|] in b;
      }
    }
  }

  /** An increasing run stays increasing when extended by a larger element. */
  lemma IncreasingSnoc(s: seq<nat>, x: nat)
    requires Increasing(s)
    requires forall k :: 0 <= k < |s| ==> s[k] < x
    ensures Increasing(s + [x])
  {
  }
}
