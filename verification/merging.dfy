/** What the offset merge of `process_category` must produce: every leaf's product list placed
    right after the leaf's own row, in list order, with every category row kept in its order.
    `Woven` is the reference result; the merge loop in crawl.dfy is proved to compute it. */
module Merging {
  import opened Catalog

  /** Total number of rows in a sequence of product lists. */
  function SumLen(lists: seq<seq<Row>>): nat {
    if lists == [] then 0 else SumLen(lists[..|lists| - 1]) + |lists[|lists| - 1]|
  }

  /** One product list per anchor, anchors strictly increasing and each the index of a row. */
  predicate WellAnchored(flat: seq<Row>, anchors: seq<nat>, lists: seq<seq<Row>>) {
    |anchors| == |lists| && Increasing(anchors) &&
    forall k :: 0 <= k < |anchors| ==> anchors[k] < |flat|
  }

  lemma WellAnchoredPrefix(flat: seq<Row>, anchors: seq<nat>, lists: seq<seq<Row>>, k: nat, n: nat)
    requires WellAnchored(flat, anchors, lists)
    requires k <= |anchors| && n <= |flat|
    requires forall j :: 0 <= j < k ==> anchors[j] < n
    ensures WellAnchored(flat[..n], anchors[..k], lists[..k])
  {
  }

  /** The merged rows, defined from the last anchor backwards: the rows up to and including the
      last anchored row merged with the earlier lists, then the last list, then the remaining rows
      as they were. */
  function Woven(flat: seq<Row>, anchors: seq<nat>, lists: seq<seq<Row>>): seq<Row>
    requires WellAnchored(flat, anchors, lists)
    decreases |anchors|
  {
    if anchors == [] then flat
    else
      var k := |anchors| - 1;
      var p := anchors[k];
      WellAnchoredPrefix(flat, anchors, lists, k, p + 1);
      Woven(flat[..p + 1], anchors[..k], lists[..k]) + lists[k] + flat[p + 1..]
  }

  /** The defining equation of `Woven` for a non-empty anchor list. */
  lemma WovenUnfold(flat: seq<Row>, anchors: seq<nat>, lists: seq<seq<Row>>)
    requires WellAnchored(flat, anchors, lists) && anchors != []
    ensures var k := |anchors| - 1;
            anchors[k] < |flat| &&
            WellAnchored(flat[..anchors[k] + 1], anchors[..k], lists[..k]) &&
            Woven(flat, anchors, lists) ==
            Woven(flat[..anchors[k] + 1], anchors[..k], lists[..k]) + lists[k] + flat[anchors[k] + 1..]
  {
    var k := |anchors| - 1;
    WellAnchoredPrefix(flat, anchors, lists, k, anchors[k] + 1);
  }

  /** One list merged at one anchor goes right after the anchored row. */
  lemma WovenSingle(flat: seq<Row>, p: nat, list: seq<Row>)
    requires p < |flat|
    ensures WellAnchored(flat, [p], [list])
    ensures Woven(flat, [p], [list]) == flat[..p + 1] + list + flat[p + 1..]
  {
    var a, l := [p], [list];
    var n: nat := p + 1;
    assert a[0] == p && l[0] == list;
    assert WellAnchored(flat, a, l);
    WovenLast(flat, a, l, 0, n);
    assert a[..0] == [] && l[..0] == [];
  }

  /** `WovenUnfold` with the last index and the length of the anchored prefix given by name. */
  lemma WovenLast(flat: seq<Row>, anchors: seq<nat>, lists: seq<seq<Row>>, k: nat, n: nat)
    requires WellAnchored(flat, anchors, lists) && k == |anchors| - 1 && n == anchors[k] + 1
    ensures n <= |flat| && WellAnchored(flat[..n], anchors[..k], lists[..k])
    ensures Woven(flat, anchors, lists) == Woven(flat[..n], anchors[..k], lists[..k]) + lists[k] + flat[n..]
  {
    assert flat[..anchors[k] + 1] == flat[..n] && flat[anchors[k] + 1..] == flat[n..];
    WovenUnfold(flat, anchors, lists);
  }

  /** Length accounting: the merge adds exactly the products, no more and no fewer. */
  lemma {:induction false} WovenLength(flat: seq<Row>, anchors: seq<nat>, lists: seq<seq<Row>>)
    requires WellAnchored(flat, anchors, lists)
    ensures |Woven(flat, anchors, lists)| == |flat| + SumLen(lists)
    decreases |anchors|
  {
    if anchors != [] {
      var k := |anchors| - 1;
      WellAnchoredPrefix(flat, anchors, lists, k, anchors[k] + 1);
      WovenLength(flat[..anchors[k] + 1], anchors[..k], lists[..k]);
      assert lists[..k] == lists[..|lists| - 1];
    }
  }

  /** Rows after the last anchor are left where they are, after the merged prefix. */
  lemma WovenSplit(flat: seq<Row>, anchors: seq<nat>, lists: seq<seq<Row>>, n: nat)
    requires WellAnchored(flat, anchors, lists)
    requires n <= |flat| && forall j :: 0 <= j < |anchors| ==> anchors[j] < n
    ensures WellAnchored(flat[..n], anchors, lists)
    ensures Woven(flat, anchors, lists) == Woven(flat[..n], anchors, lists) + flat[n..]
  {
    WellAnchoredPrefix(flat, anchors, lists, |anchors|, n);
    assert anchors[..|anchors|] == anchors && lists[..|lists|] == lists;
    if anchors == [] {
      assert flat == flat[..n] + flat[n..];
    } else {
      var k := |anchors| - 1;
      var p := anchors[k];
      assert flat[..n][..p + 1] == flat[..p + 1];
      assert flat[..n][p + 1..] + flat[n..] == flat[p + 1..];
    }
  }

  /** One round of the merge loop: with the first `k` lists merged, the rows up to anchor `k`
      form a prefix of length `anchors[k] + 1 + SumLen(lists[..k])`, and list `k` goes right
      after that prefix. */
  lemma MergeStep(flat: seq<Row>, anchors: seq<nat>, lists: seq<seq<Row>>, k: nat)
    requires WellAnchored(flat, anchors, lists) && k < |anchors|
    ensures WellAnchored(flat, anchors[..k], lists[..k])
    ensures WellAnchored(flat, anchors[..k + 1], lists[..k + 1])
    ensures WellAnchored(flat[..anchors[k] + 1], anchors[..k], lists[..k])
    ensures |Woven(flat[..anchors[k] + 1], anchors[..k], lists[..k])| == anchors[k] + 1 + SumLen(lists[..k])
    ensures Woven(flat, anchors[..k], lists[..k]) ==
            Woven(flat[..anchors[k] + 1], anchors[..k], lists[..k]) + flat[anchors[k] + 1..]
    ensures Woven(flat, anchors[..k + 1], lists[..k + 1]) ==
            Woven(flat[..anchors[k] + 1], anchors[..k], lists[..k]) + lists[k] + flat[anchors[k] + 1..]
  {
    var p := anchors[k];
    WellAnchoredPrefix(flat, anchors, lists, k, |flat|);
    WellAnchoredPrefix(flat, anchors, lists, k + 1, |flat|);
    WellAnchoredPrefix(flat, anchors, lists, k, p + 1);
    assert flat[..|flat|] == flat;
    WovenLength(flat[..p + 1], anchors[..k], lists[..k]);
    WovenSplit(flat, anchors[..k], lists[..k], p + 1);
    assert anchors[..k + 1][..k] == anchors[..k] && lists[..k + 1][..k] == lists[..k];
  }

  /** Number of product rows merged in before original row `r`: the lengths of the lists whose
      anchor lies before `r`. */
  function Shift(anchors: seq<nat>, lists: seq<seq<Row>>, r: int): nat
    requires |anchors| == |lists|
  {
    if anchors == [] then 0
    else
      var k := |anchors| - 1;
      Shift(anchors[..k], lists[..k], r) + (if anchors[k] < r then |lists[k]| else 0)
  }

  /** With increasing anchors, the lists merged in before row `r` are those of the first `i`
      anchors exactly when the first `i` anchors lie before `r` and the others do not. */
  lemma {:induction false} ShiftPrefix(anchors: seq<nat>, lists: seq<seq<Row>>, r: int, i: nat)
    requires |anchors| == |lists| && i <= |anchors|
    requires forall j :: 0 <= j < i ==> anchors[j] < r
    requires forall j :: i <= j < |anchors| ==> r <= anchors[j]
    ensures Shift(anchors, lists, r) == SumLen(lists[..i])
    decreases |anchors|
  {
    if anchors != [] {
      var k := |anchors| - 1;
      if i == |anchors| {
        ShiftPrefix(anchors[..k], lists[..k], r, k);
        assert lists[..k][..k] == lists[..k];
        assert lists[..i] == lists;
        assert SumLen(lists) == SumLen(lists[..k]) + |lists[k]|;
      } else {
        ShiftPrefix(anchors[..k], lists[..k], r, i);
        assert lists[..k][..i] == lists[..i];
      }
    }
  }

  /** Every original row survives: row `r` lands at `r + Shift(anchors, lists, r)`. */
  lemma {:induction false} WovenRow(flat: seq<Row>, anchors: seq<nat>, lists: seq<seq<Row>>, r: nat)
    requires WellAnchored(flat, anchors, lists) && r < |flat|
    ensures r + Shift(anchors, lists, r) < |Woven(flat, anchors, lists)|
    ensures Woven(flat, anchors, lists)[r + Shift(anchors, lists, r)] == flat[r]
    decreases |anchors|
  {
    WovenLength(flat, anchors, lists);
    if anchors != [] {
      var k := |anchors| - 1;
      var n: nat := anchors[k] + 1;
      var a', l', pre, post := anchors[..k], lists[..k], flat[..n], flat[n..];
      WovenLast(flat, anchors, lists, k, n);
      var head := Woven(pre, a', l');
      WovenLength(pre, a', l');
      if r < n {
        WovenRow(pre, a', l', r);
        assert Shift(anchors, lists, r) == Shift(a', l', r);
      } else {
        ShiftPrefix(a', l', r, k);
        assert l'[..k] == l';
        assert Shift(anchors, lists, r) == SumLen(l') + |lists[k]|;
        var x := r + Shift(anchors, lists, r);
        assert x == |head| + |lists[k]| + (r - n);
        assert (head + lists[k] + post)[x] == post[r - n];
      }
    }
  }

  /** The leaf of anchor `i` keeps its row, which lands at `anchors[i] + SumLen(lists[..i])`. */
  lemma WovenLeafRow(flat: seq<Row>, anchors: seq<nat>, lists: seq<seq<Row>>, i: nat)
    requires WellAnchored(flat, anchors, lists) && i < |anchors|
    ensures anchors[i] + SumLen(lists[..i]) < |Woven(flat, anchors, lists)|
    ensures Woven(flat, anchors, lists)[anchors[i] + SumLen(lists[..i])] == flat[anchors[i]]
  {
    ShiftAtAnchor(anchors, lists, i);
    WovenRow(flat, anchors, lists, anchors[i]);
  }

  /** The original row after the leaf of anchor `i`, if any, lands `|lists[i]|` rows after the
      leaf's own row: exactly the room the leaf's products take. */
  lemma WovenRowAfterLeaf(flat: seq<Row>, anchors: seq<nat>, lists: seq<seq<Row>>, i: nat)
    requires WellAnchored(flat, anchors, lists) && i < |anchors| && anchors[i] + 1 < |flat|
    ensures anchors[i] + SumLen(lists[..i]) + 1 + |lists[i]| < |Woven(flat, anchors, lists)|
    ensures Woven(flat, anchors, lists)[anchors[i] + SumLen(lists[..i]) + 1 + |lists[i]|] == flat[anchors[i] + 1]
  {
    ShiftAtAnchor(anchors, lists, i);
    WovenRow(flat, anchors, lists, anchors[i] + 1);
  }

  /** The products merged in before the row of anchor `i` are the first `i` lists; before the
      row after it, also list `i`. */
  lemma ShiftAtAnchor(anchors: seq<nat>, lists: seq<seq<Row>>, i: nat)
    requires |anchors| == |lists| && Increasing(anchors) && i < |anchors|
    ensures Shift(anchors, lists, anchors[i]) == SumLen(lists[..i])
    ensures Shift(anchors, lists, anchors[i] + 1) == SumLen(lists[..i]) + |lists[i]|
  {
    ShiftPrefix(anchors, lists, anchors[i], i);
    ShiftPrefix(anchors, lists, anchors[i] + 1, i + 1);
    assert lists[..i + 1][..i] == lists[..i];
  }

  /** The products of anchor `i` follow the leaf's row immediately, in their own order. */
  lemma {:induction false} WovenProducts(flat: seq<Row>, anchors: seq<nat>, lists: seq<seq<Row>>, i: nat)
    requires WellAnchored(flat, anchors, lists) && i < |anchors|
    ensures var at := anchors[i] + SumLen(lists[..i]);
            var w := Woven(flat, anchors, lists);
            at + 1 + |lists[i]| <= |w| && w[at + 1..at + 1 + |lists[i]|] == lists[i]
    decreases |anchors|
  {
    var k := |anchors| - 1;
    var n: nat := anchors[k] + 1;
    var a', l', pre := anchors[..k], lists[..k], flat[..n];
    WovenLast(flat, anchors, lists, k, n);
    var head := Woven(pre, a', l');
    var w := Woven(flat, anchors, lists);
    WovenLength(pre, a', l');
    var at := anchors[i] + SumLen(lists[..i]);
    if i == k {
      assert l' == lists[..i];
      assert at + 1 == |head|;
      assert w[at + 1..at + 1 + |lists[k]|] == lists[k];
    } else {
      WovenProducts(pre, a', l', i);
      assert l'[..i] == lists[..i] && l'[i] == lists[i] && a'[i] == anchors[i];
      assert at + 1 + |lists[i]| <= |head|;
      assert w[at + 1..at + 1 + |lists[i]|] == head[at + 1..at + 1 + |lists[i]|];
    }
  }

  /** The merge keeps the category rows in their original relative order. */
  lemma {:induction false} WovenKeepsRowOrder(flat: seq<Row>, anchors: seq<nat>, lists: seq<seq<Row>>, r1: nat, r2: nat)
    requires WellAnchored(flat, anchors, lists) && r1 < r2 < |flat|
    ensures r1 + Shift(anchors, lists, r1) < r2 + Shift(anchors, lists, r2)
    decreases |anchors|
  {
    if anchors != [] {
      var k := |anchors| - 1;
      WellAnchoredPrefix(flat, anchors, lists, k, |flat|);
      assert flat[..|flat|] == flat;
      WovenKeepsRowOrder(flat, anchors[..k], lists[..k], r1, r2);
    }
  }

  /** Merging lists that are all empty changes nothing. */
  lemma {:induction false} WovenAllEmpty(flat: seq<Row>, anchors: seq<nat>, lists: seq<seq<Row>>)
    requires WellAnchored(flat, anchors, lists)
    requires forall j :: 0 <= j < |lists| ==> lists[j] == []
    ensures Woven(flat, anchors, lists) == flat
    decreases |anchors|
  {
    if anchors != [] {
      var k := |anchors| - 1;
      var p := anchors[k];
      WellAnchoredPrefix(flat, anchors, lists, k, p + 1);
      WovenAllEmpty(flat[..p + 1], anchors[..k], lists[..k]);
      assert flat[..p + 1] + flat[p + 1..] == flat;
    }
  }

  /** `s` without its element at index `i`. */
  function Without<T>(s: seq<T>, i: nat): (r: seq<T>)
    requires i < |s|
    ensures |r| == |s| - 1
  {
    s[..i] + s[i + 1..]
  }

  lemma WellAnchoredWithout(flat: seq<Row>, anchors: seq<nat>, lists: seq<seq<Row>>, i: nat)
    requires WellAnchored(flat, anchors, lists) && i < |anchors|
    ensures WellAnchored(flat, Without(anchors, i), Without(lists, i))
  {
    var da := Without(anchors, i);
    assert forall j :: 0 <= j < |da| ==> da[j] == if j < i then anchors[j] else anchors[j + 1];
  }

  /** A leaf whose fetch yielded no products is a no-op: merging with it is the same as merging
      without it. */
  lemma {:induction false} WovenDropsEmpty(flat: seq<Row>, anchors: seq<nat>, lists: seq<seq<Row>>, i: nat)
    requires WellAnchored(flat, anchors, lists) && i < |anchors| && lists[i] == []
    ensures WellAnchored(flat, Without(anchors, i), Without(lists, i))
    ensures Woven(flat, anchors, lists) == Woven(flat, Without(anchors, i), Without(lists, i))
    decreases |anchors|
  {
    var k := |anchors| - 1;
    WellAnchoredWithout(flat, anchors, lists, i);
    if i == k {
      WithoutLastIndex(anchors);
      WithoutLastIndex(lists);
      WovenDropsLastEmpty(flat, anchors, lists);
    } else {
      var p, last := anchors[k], lists[k];
      var a', l' := anchors[..k], lists[..k];
      assert anchors == a' + [p] && lists == l' + [last];
      WithoutSnoc(a', p, i);
      WithoutSnoc(l', last, i);
      WovenSnoc(flat, a', l', p, last);
      WovenDropsEmpty(flat[..p + 1], a', l', i);
      WovenSnoc(flat, Without(a', i), Without(l', i), p, last);
    }
  }

  /** The defining equation of `Woven`, for anchors and lists given as a prefix and a last
      element. */
  lemma WovenSnoc(flat: seq<Row>, anchors: seq<nat>, lists: seq<seq<Row>>, p: nat, last: seq<Row>)
    requires WellAnchored(flat, anchors + [p], lists + [last])
    ensures p < |flat| && WellAnchored(flat[..p + 1], anchors, lists)
    ensures Woven(flat, anchors + [p], lists + [last]) == Woven(flat[..p + 1], anchors, lists) + last + flat[p + 1..]
  {
    var a, l := anchors + [p], lists + [last];
    assert a[|a| - 1] == p && l[|l| - 1] == last;
    assert a[..|a| - 1] == anchors;
    assert l[..|l| - 1] == lists;
    assert flat[..a[|a| - 1] + 1] == flat[..p + 1] && flat[a[|a| - 1] + 1..] == flat[p + 1..];
    WovenUnfold(flat, a, l);
  }

  /** The case of `WovenDropsEmpty` where the empty list is the last one. */
  lemma WovenDropsLastEmpty(flat: seq<Row>, anchors: seq<nat>, lists: seq<seq<Row>>)
    requires WellAnchored(flat, anchors, lists) && anchors != [] && lists[|lists| - 1] == []
    ensures WellAnchored(flat, anchors[..|anchors| - 1], lists[..|lists| - 1])
    ensures Woven(flat, anchors, lists) == Woven(flat, anchors[..|anchors| - 1], lists[..|lists| - 1])
  {
    var k := |anchors| - 1;
    var p := anchors[k];
    WovenUnfold(flat, anchors, lists);
    WellAnchoredPrefix(flat, anchors, lists, k, |flat|);
    assert flat[..|flat|] == flat;
    WovenSplit(flat, anchors[..k], lists[..k], p + 1);
  }

  /** Removing the last element is taking the prefix. */
  lemma WithoutLastIndex<T>(s: seq<T>)
    requires s != []
    ensures Without(s, |s| - 1) == s[..|s| - 1]
  {
  }

  /** Removing an element before the last commutes with appending one. */
  lemma WithoutSnoc<T>(s: seq<T>, x: T, i: nat)
    requires i < |s|
    ensures Without(s + [x], i) == Without(s, i) + [x]
  {
    assert (s + [x])[i + 1..] == s[i + 1..] + [x];
  }
}
