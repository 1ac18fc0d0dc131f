/** What the nested `recurse` of `process_category` produces for one root: the category rows in
    depth-first pre-order, the anchors (row index of every leaf that names a shard) and the
    fetch tasks created alongside them. The class in crawl.dfy computes these by appending;
    the functions here say what the appends amount to. */
module Flattening {
  import opened Catalog

  /** The nodes of a tree in pre-order: the node, then each child's subtree in source order. */
  function Nodes(c: Category): seq<Category>
    decreases c
  {
    [c] + NodesAll(c.children)
  }

  function NodesAll(cs: seq<Category>): seq<Category>
    decreases cs
  {
    if cs == [] then [] else NodesAll(cs[..|cs| - 1]) + Nodes(cs[|cs| - 1])
  }

  /** The rows `recurse(c, level)` appends. */
  function Flatten(c: Category, level: int): seq<Row>
    decreases c
  {
    [CategoryRow(c, level)] + FlattenAll(c.children, level + 1)
  }

  function FlattenAll(cs: seq<Category>, level: int): seq<Row>
    decreases cs
  {
    if cs == [] then [] else FlattenAll(cs[..|cs| - 1], level) + Flatten(cs[|cs| - 1], level)
  }

  /** The anchors `recurse(c, _)` records when `c`'s own row lands at index `base`. */
  function Anchors(c: Category, base: nat): seq<nat>
    decreases c
  {
    if c.children == [] then (if c.shard != "" then [base] else [])
    else AnchorsAll(c.children, base + 1)
  }

  function AnchorsAll(cs: seq<Category>, base: nat): seq<nat>
    decreases cs
  {
    if cs == [] then []
    else
      var init := cs[..|cs| - 1];
      AnchorsAll(init, base) + Anchors(cs[|cs| - 1], base + |NodesAll(init)|)
  }

  /** The fetch task created for a node. */
  function TaskOf(c: Category): FetchTask {
    FetchTask(c.id, c.shard)
  }

  /** The fetch tasks `recurse(c, _)` creates, in creation order. */
  function Tasks(c: Category): seq<FetchTask>
    decreases c
  {
    if c.children == [] then (if c.shard != "" then [TaskOf(c)] else [])
    else TasksAll(c.children)
  }

  function TasksAll(cs: seq<Category>): seq<FetchTask>
    decreases cs
  {
    if cs == [] then [] else TasksAll(cs[..|cs| - 1]) + Tasks(cs[|cs| - 1])
  }

  /** A row shows the id and the name of the node it was made from. */
  predicate Shows(r: Row, n: Category) {
    r.id == n.id && r.name == GetOr(n.name, "")
  }

  /** Row `i` of the flattening shows the `i`-th node in pre-order; the first row is the node's own. */
  lemma {:induction false} FlattenShows(c: Category, level: int)
    ensures |Flatten(c, level)| == |Nodes(c)|
    ensures Flatten(c, level)[0] == CategoryRow(c, level)
    ensures forall i :: 0 <= i < |Nodes(c)| ==> Shows(Flatten(c, level)[i], Nodes(c)[i])
    decreases c, 1
  {
    FlattenAllShows(c.children, level + 1);
    var f, n := Flatten(c, level), Nodes(c);
    var fa, na := FlattenAll(c.children, level + 1), NodesAll(c.children);
    assert f == [CategoryRow(c, level)] + fa && n == [c] + na;
    forall i | 0 < i < |n|
      ensures Shows(f[i], n[i])
    {
      assert f[i] == fa[i - 1] && n[i] == na[i - 1];
    }
  }

  lemma {:induction false} FlattenAllShows(cs: seq<Category>, level: int)
    ensures |FlattenAll(cs, level)| == |NodesAll(cs)| >= |cs|
    ensures forall i :: 0 <= i < |NodesAll(cs)| ==> Shows(FlattenAll(cs, level)[i], NodesAll(cs)[i])
    decreases cs, 0
  {
    if cs != [] {
      var init, last := cs[..|cs| - 1], cs[|cs| - 1];
      FlattenAllShows(init, level);
      FlattenShows(last, level);
      var f1, n1 := FlattenAll(init, level), NodesAll(init);
      var f2, n2 := Flatten(last, level), Nodes(last);
      var f, n := FlattenAll(cs, level), NodesAll(cs);
      assert f == f1 + f2 && n == n1 + n2;
      forall i | |n1| <= i < |n|
        ensures Shows(f[i], n[i])
      {
        assert f[i] == f2[i - |n1|] && n[i] == n2[i - |n1|];
      }
    }
  }

  /** The root's row is at `level` and every other row of its subtree is deeper. */
  lemma {:induction false} FlattenDepths(c: Category, level: int)
    ensures Flatten(c, level)[0].level == level
    ensures forall i :: 0 < i < |Flatten(c, level)| ==> Flatten(c, level)[i].level > level
    decreases c, 1
  {
    FlattenAllDepths(c.children, level + 1);
    var f, fa := Flatten(c, level), FlattenAll(c.children, level + 1);
    assert f == [CategoryRow(c, level)] + fa;
    assert forall i :: 0 < i < |f| ==> f[i] == fa[i - 1];
  }

  lemma {:induction false} FlattenAllDepths(cs: seq<Category>, level: int)
    ensures cs != [] ==> |FlattenAll(cs, level)| > 0 && FlattenAll(cs, level)[0].level == level
    ensures forall i :: 0 <= i < |FlattenAll(cs, level)| ==> FlattenAll(cs, level)[i].level >= level
    decreases cs, 0
  {
    if cs != [] {
      var init, last := cs[..|cs| - 1], cs[|cs| - 1];
      FlattenAllDepths(init, level);
      FlattenDepths(last, level);
      var f1, f2 := FlattenAll(init, level), Flatten(last, level);
      var f := FlattenAll(cs, level);
      assert f == f1 + f2;
      assert forall i :: |f1| <= i < |f| ==> f[i] == f2[i - |f1|];
      if init != [] {
        assert f[0] == f1[0];
      }
    }
  }

  /** The last node of a subtree in pre-order is a leaf. */
  lemma {:induction false} NodesEndInLeaf(c: Category)
    ensures Nodes(c)[|Nodes(c)| - 1].children == []
    decreases c, 1
  {
    NodesAllEndInLeaf(c.children);
    assert Nodes(c) == [c] + NodesAll(c.children);
  }

  lemma {:induction false} NodesAllEndInLeaf(cs: seq<Category>)
    ensures cs != [] ==> |NodesAll(cs)| > 0 && NodesAll(cs)[|NodesAll(cs)| - 1].children == []
    decreases cs, 0
  {
    if cs != [] {
      NodesEndInLeaf(cs[|cs| - 1]);
      assert NodesAll(cs) == NodesAll(cs[..|cs| - 1]) + Nodes(cs[|cs| - 1]);
    }
  }

  /** The depth column encodes the tree: a row is never more than one level deeper than the
      row before it, and it is exactly one level deeper when the node before it has children. */
  predicate DepthSteps(f: seq<Row>, n: seq<Category>)
    requires |f| == |n|
  {
    forall i :: 0 <= i < |n| - 1 ==>
      f[i + 1].level <= f[i].level + 1 &&
      (f[i + 1].level == f[i].level + 1 <==> n[i].children != [])
  }

  lemma {:induction false} FlattenSteps(c: Category, level: int)
    ensures |Flatten(c, level)| == |Nodes(c)|
    ensures DepthSteps(Flatten(c, level), Nodes(c))
    decreases c, 1
  {
    FlattenShows(c, level);
    FlattenAllShows(c.children, level + 1);
    FlattenAllSteps(c.children, level + 1);
    FlattenAllDepths(c.children, level + 1);
    var f, n := Flatten(c, level), Nodes(c);
    var fa, na := FlattenAll(c.children, level + 1), NodesAll(c.children);
    assert f == [CategoryRow(c, level)] + fa && n == [c] + na;
    forall i | 0 < i < |n| - 1
      ensures f[i + 1].level <= f[i].level + 1
      ensures f[i + 1].level == f[i].level + 1 <==> n[i].children != []
    {
      assert f[i + 1] == fa[i] && f[i] == fa[i - 1] && n[i] == na[i - 1];
    }
  }

  lemma {:induction false} FlattenAllSteps(cs: seq<Category>, level: int)
    ensures |FlattenAll(cs, level)| == |NodesAll(cs)|
    ensures DepthSteps(FlattenAll(cs, level), NodesAll(cs))
    decreases cs, 0
  {
    FlattenAllShows(cs, level);
    if cs != [] {
      var init, last := cs[..|cs| - 1], cs[|cs| - 1];
      FlattenAllSteps(init, level);
      FlattenSteps(last, level);
      FlattenAllDepths(init, level);
      FlattenDepths(last, level);
      NodesAllEndInLeaf(init);
      var f1, n1 := FlattenAll(init, level), NodesAll(init);
      var f2, n2 := Flatten(last, level), Nodes(last);
      var f, n := FlattenAll(cs, level), NodesAll(cs);
      assert f == f1 + f2 && n == n1 + n2;
      forall i | 0 <= i < |n| - 1
        ensures f[i + 1].level <= f[i].level + 1
        ensures f[i + 1].level == f[i].level + 1 <==> n[i].children != []
      {
        if i + 1 < |n1| {
          assert f[i + 1] == f1[i + 1] && f[i] == f1[i] && n[i] == n1[i];
        } else if i + 1 == |n1| {
          assert f[i + 1] == f2[0] && f[i] == f1[i] && n[i] == n1[|n1| - 1];
        } else {
          assert f[i + 1] == f2[i + 1 - |n1|] && f[i] == f2[i - |n1|] && n[i] == n2[i - |n1|];
        }
      }
    }
  }

  /** One more child visited: how the rows, anchors and tasks of the first `i + 1` children
      extend those of the first `i`. */
  lemma ChildStep(cs: seq<Category>, i: nat, level: int, base: nat, at: nat)
    requires i < |cs| && at == base + |FlattenAll(cs[..i], level)|
    ensures FlattenAll(cs[..i + 1], level) == FlattenAll(cs[..i], level) + Flatten(cs[i], level)
    ensures AnchorsAll(cs[..i + 1], base) == AnchorsAll(cs[..i], base) + Anchors(cs[i], at)
    ensures TasksAll(cs[..i + 1]) == TasksAll(cs[..i]) + Tasks(cs[i])
  {
    FlattenAllShows(cs[..i], level);
    assert cs[..i + 1][..i] == cs[..i];
  }

  /** Flattening a concatenation of sibling lists concatenates their flattenings. */
  lemma {:induction false} FlattenAllAppend(a: seq<Category>, b: seq<Category>, level: int)
    ensures FlattenAll(a + b, level) == FlattenAll(a, level) + FlattenAll(b, level)
    decreases |b|
  {
    if b == [] {
      assert a + b == a;
    } else {
      assert (a + b)[..|a + b| - 1] == a + b[..|b| - 1];
      FlattenAllAppend(a, b[..|b| - 1], level);
    }
  }

  /** Pre-order without interleaving: the `j`-th child's subtree is one contiguous block, one
      level deeper than its parent, after the parent's row and the blocks of the earlier
      siblings and before the blocks of the later ones. */
  lemma ChildSubtreeBlock(c: Category, level: int, j: nat)
    requires j < |c.children|
    ensures Flatten(c, level) ==
            [CategoryRow(c, level)] + FlattenAll(c.children[..j], level + 1) +
            Flatten(c.children[j], level + 1) + FlattenAll(c.children[j + 1..], level + 1)
  {
    var cs := c.children;
    assert cs == cs[..j] + [cs[j]] + cs[j + 1..];
    FlattenAllAppend(cs[..j] + [cs[j]], cs[j + 1..], level + 1);
    FlattenAllAppend(cs[..j], [cs[j]], level + 1);
    assert [cs[j]][..0] == [];
  }

  /** The anchors of a subtree whose root row lands at `base` are strictly increasing and lie
      within the subtree's rows. */
  lemma {:induction false} AnchorsRange(c: Category, base: nat)
    ensures forall a :: a in Anchors(c, base) ==> base <= a < base + |Nodes(c)|
    ensures Increasing(Anchors(c, base))
    decreases c, 1
  {
    if c.children != [] {
      var next: nat := base + 1;
      AnchorsAllRange(c.children, next);
      assert Anchors(c, base) == AnchorsAll(c.children, next);
      assert |Nodes(c)| == 1 + |NodesAll(c.children)|;
    }
  }

  lemma {:induction false} AnchorsAllRange(cs: seq<Category>, base: nat)
    ensures forall a :: a in AnchorsAll(cs, base) ==> base <= a < base + |NodesAll(cs)|
    ensures Increasing(AnchorsAll(cs, base))
    decreases cs, 0
  {
    if cs != [] {
      var init, last := cs[..|cs| - 1], cs[|cs| - 1];
      var m := |NodesAll(init)|;
      var mid: nat := base + m;
      AnchorsAllRange(init, base);
      AnchorsRange(last, mid);
      var a1, a2 := AnchorsAll(init, base), Anchors(last, mid);
      assert AnchorsAll(cs, base) == a1 + a2;
      assert |NodesAll(cs)| == m + |Nodes(last)|;
      IncreasingAppend(a1, a2, mid);
    }
  }

  /** The anchors are exactly the rows of the leaves that name a shard: a node with children
      is never anchored, whatever its shard, and neither is a leaf without one. */
  lemma {:induction false} AnchorsExact(c: Category, base: nat)
    ensures forall i :: 0 <= i < |Nodes(c)| ==> (base + i in Anchors(c, base) <==> IsFetchLeaf(Nodes(c)[i]))
    decreases c, 1
  {
    if c.children != [] {
      AnchorsAllExact(c.children, base + 1);
      AnchorsAllRange(c.children, base + 1);
      var n, na := Nodes(c), NodesAll(c.children);
      assert n == [c] + na;
      forall i | 0 < i < |n|
        ensures base + i in Anchors(c, base) <==> IsFetchLeaf(n[i])
      {
        assert n[i] == na[i - 1];
        assert base + i == (base + 1) + (i - 1);
      }
    }
  }

  lemma {:induction false} AnchorsAllExact(cs: seq<Category>, base: nat)
    ensures forall i :: 0 <= i < |NodesAll(cs)| ==> (base + i in AnchorsAll(cs, base) <==> IsFetchLeaf(NodesAll(cs)[i]))
    decreases cs, 0
  {
    if cs != [] {
      var init, last := cs[..|cs| - 1], cs[|cs| - 1];
      var m := |NodesAll(init)|;
      AnchorsAllExact(init, base);
      AnchorsExact(last, base + m);
      AnchorsAllRange(init, base);
      AnchorsRange(last, base + m);
      var a1, a2 := AnchorsAll(init, base), Anchors(last, base + m);
      var n1, n2 := NodesAll(init), Nodes(last);
      assert AnchorsAll(cs, base) == a1 + a2;
      assert NodesAll(cs) == n1 + n2;
      forall i | 0 <= i < m + |n2|
        ensures base + i in a1 + a2 <==> IsFetchLeaf((n1 + n2)[i])
      {
        if i >= m {
          assert (n1 + n2)[i] == n2[i - m];
          assert base + i == (base + m) + (i - m);
          assert base + i !in a1;
        } else {
          assert (n1 + n2)[i] == n1[i];
          assert base + i !in a2;
        }
      }
    }
  }

  /** Tasks and anchors are created together: the `j`-th task fetches the node whose row is
      the `j`-th anchor. */
  lemma {:induction false} TasksAligned(c: Category, base: nat)
    ensures |Tasks(c)| == |Anchors(c, base)|
    ensures forall j :: 0 <= j < |Tasks(c)| ==>
              base <= Anchors(c, base)[j] < base + |Nodes(c)| &&
              Tasks(c)[j] == TaskOf(Nodes(c)[Anchors(c, base)[j] - base])
    decreases c, 1
  {
    if c.children != [] {
      TasksAllAligned(c.children, base + 1);
      var n := Nodes(c);
      assert n == [c] + NodesAll(c.children);
      forall j | 0 <= j < |Tasks(c)|
        ensures Tasks(c)[j] == TaskOf(n[Anchors(c, base)[j] - base])
      {
        assert n[Anchors(c, base)[j] - base] == NodesAll(c.children)[Anchors(c, base)[j] - (base + 1)];
      }
    }
  }

  lemma {:induction false} TasksAllAligned(cs: seq<Category>, base: nat)
    ensures |TasksAll(cs)| == |AnchorsAll(cs, base)|
    ensures forall j :: 0 <= j < |TasksAll(cs)| ==>
              base <= AnchorsAll(cs, base)[j] < base + |NodesAll(cs)| &&
              TasksAll(cs)[j] == TaskOf(NodesAll(cs)[AnchorsAll(cs, base)[j] - base])
    decreases cs, 0
  {
    if cs != [] {
      var init, last := cs[..|cs| - 1], cs[|cs| - 1];
      var m := |NodesAll(init)|;
      TasksAllAligned(init, base);
      TasksAligned(last, base + m);
      var t1, t2 := TasksAll(init), Tasks(last);
      var a1, a2 := AnchorsAll(init, base), Anchors(last, base + m);
      var n := NodesAll(cs);
      assert TasksAll(cs) == t1 + t2 && AnchorsAll(cs, base) == a1 + a2;
      assert n == NodesAll(init) + Nodes(last);
      forall j | 0 <= j < |t1 + t2|
        ensures base <= (a1 + a2)[j] < base + |n|
        ensures (t1 + t2)[j] == TaskOf(n[(a1 + a2)[j] - base])
      {
        if j >= |t1| {
          var k := j - |t1|;
          assert (t1 + t2)[j] == t2[k] && (a1 + a2)[j] == a2[k];
          assert n[a2[k] - base] == Nodes(last)[a2[k] - (base + m)];
        } else {
          assert (t1 + t2)[j] == t1[j] && (a1 + a2)[j] == a1[j];
          assert n[a1[j] - base] == NodesAll(init)[a1[j] - base];
        }
      }
    }
  }
}
