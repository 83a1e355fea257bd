/** Walks over a `FileInfo` tree, shared by the visualize package's finders:
    the recursive `traverse` closures that visit a node and then its children
    in order, appending what they keep to a slice or a map. */
module TreeWalk {
  import opened Seqs
  import opened FileSystem

  /** A node without children: a file, or a directory with no entries. */
  predicate IsLeaf(f: FileInfo)
  {
    f.children == []
  }

  // ------------------------------------------------------------ orders

  /** Every node of `t` in preorder: the node, then each child's subtree in order. */
  function Subtrees(t: FileInfo): seq<FileInfo>
    decreases t, 1
  {
    SubtreesOf(t, |t.children|)
  }

  /** `t` followed by the preorder subtrees of its first `k` children. */
  function SubtreesOf(t: FileInfo, k: nat): (r: seq<FileInfo>)
    requires k <= |t.children|
    ensures r != [] && r[0] == t
    decreases t, 0, k
  {
    if k == 0 then [t] else SubtreesOf(t, k - 1) + Subtrees(t.children[k - 1])
  }

  /** Every node strictly below `t`, in preorder. */
  function Descendants(t: FileInfo): seq<FileInfo>
  {
    Subtrees(t)[1..]
  }

  /** Every node of `t` in postorder: each child's subtree in order, then the node. */
  function Postorder(t: FileInfo): seq<FileInfo>
    decreases t, 1
  {
    PostorderOf(t, |t.children|) + [t]
  }

  /** The postorder subtrees of the first `k` children of `t`. */
  function PostorderOf(t: FileInfo, k: nat): seq<FileInfo>
    requires k <= |t.children|
    decreases t, 0, k
  {
    if k == 0 then [] else PostorderOf(t, k - 1) + Postorder(t.children[k - 1])
  }

  /** Postorder visits the same nodes as preorder, each as often. */
  lemma {:induction false} PostorderPermutation(t: FileInfo)
    ensures multiset(Postorder(t)) == multiset(Subtrees(t))
    decreases t, 1
  {
    PostorderOfPermutation(t, |t.children|);
  }

  /** The postorder walks of the children visit exactly the descendants. */
  lemma DescendantsPostorder(t: FileInfo)
    ensures multiset(PostorderOf(t, |t.children|)) == multiset(Descendants(t))
  {
    PostorderOfPermutation(t, |t.children|);
    assert Subtrees(t) == [t] + Descendants(t);
    AddOneCancels(multiset(PostorderOf(t, |t.children|)), multiset(Descendants(t)), t);
  }

  /** Adding the same element to two multisets keeps them apart or equal. */
  lemma AddOneCancels<T>(a: multiset<T>, b: multiset<T>, x: T)
    requires a + multiset{x} == b + multiset{x}
    ensures a == b
  {
    assert a == a + multiset{x} - multiset{x};
    assert b == b + multiset{x} - multiset{x};
  }

  lemma {:induction false} PostorderOfPermutation(t: FileInfo, k: nat)
    requires k <= |t.children|
    ensures multiset(PostorderOf(t, k)) + multiset{t} == multiset(SubtreesOf(t, k))
    decreases t, 0, k
  {
    if k > 0 {
      PostorderOfPermutation(t, k - 1);
      PostorderPermutation(t.children[k - 1]);
    }
  }

  // ------------------------------------------------------------ slices

  /** What a preorder `traverse` appending `view(x)` for each kept node `x`
      collects: `view(t)` if `t` is kept, then each child's collection. */
  function Gather<U>(t: FileInfo, keep: FileInfo -> bool, view: FileInfo -> U): seq<U>
    decreases t, 1
  {
    GatherOf(t, keep, view, |t.children|)
  }

  function GatherOf<U>(t: FileInfo, keep: FileInfo -> bool, view: FileInfo -> U, k: nat): seq<U>
    requires k <= |t.children|
    decreases t, 0, k
  {
    if k == 0 then (if keep(t) then [view(t)] else [])
    else GatherOf(t, keep, view, k - 1) + Gather(t.children[k - 1], keep, view)
  }

  /** The preorder walk collects the images of the kept nodes, in preorder. */
  lemma {:induction false} GatherSpec<U>(t: FileInfo, keep: FileInfo -> bool, view: FileInfo -> U)
    ensures Gather(t, keep, view) == Map(Filter(Subtrees(t), keep), view)
    decreases t, 1
  {
    GatherOfSpec(t, keep, view, |t.children|);
  }

  lemma {:induction false} GatherOfSpec<U>(t: FileInfo, keep: FileInfo -> bool, view: FileInfo -> U, k: nat)
    requires k <= |t.children|
    ensures GatherOf(t, keep, view, k) == Map(Filter(SubtreesOf(t, k), keep), view)
    decreases t, 0, k
  {
    if k == 0 {
      assert [t][..0] == [];
    } else {
      var c := t.children[k - 1];
      GatherOfSpec(t, keep, view, k - 1);
      GatherSpec(c, keep, view);
      FilterConcat(SubtreesOf(t, k - 1), Subtrees(c), keep);
      MapConcat(Filter(SubtreesOf(t, k - 1), keep), Filter(Subtrees(c), keep), view);
    }
  }

  /** A `traverse` closure that appends `view(x)` to a slice for every node
      `x` that `keep` accepts, then recurses into the children in order. */
  method Collect<U>(t: FileInfo, keep: FileInfo -> bool, view: FileInfo -> U) returns (r: seq<U>)
    ensures r == Gather(t, keep, view)
    decreases t
  {
    r := [];
    if keep(t) {
      r := r + [view(t)];
    }
    var k := 0;
    while k < |t.children|
      invariant 0 <= k <= |t.children|
      invariant r == GatherOf(t, keep, view, k)
    {
      var sub := Collect(t.children[k], keep, view);
      r := r + sub;
      k := k + 1;
    }
  }

  /** What a postorder walk appending `view(x)` for each kept node `x`
      collects: each child's collection, then `view(t)` if `t` is kept. */
  function GatherPost<U>(t: FileInfo, keep: FileInfo -> bool, view: FileInfo -> U): seq<U>
    decreases t, 1
  {
    GatherPostOf(t, keep, view, |t.children|) + (if keep(t) then [view(t)] else [])
  }

  function GatherPostOf<U>(t: FileInfo, keep: FileInfo -> bool, view: FileInfo -> U, k: nat): seq<U>
    requires k <= |t.children|
    decreases t, 0, k
  {
    if k == 0 then [] else GatherPostOf(t, keep, view, k - 1) + GatherPost(t.children[k - 1], keep, view)
  }

  /** The postorder walk collects the images of the kept nodes, in postorder. */
  lemma {:induction false} GatherPostSpec<U>(t: FileInfo, keep: FileInfo -> bool, view: FileInfo -> U)
    ensures GatherPost(t, keep, view) == Map(Filter(Postorder(t), keep), view)
    decreases t, 1
  {
    GatherPostOfSpec(t, keep, view, |t.children|);
    var p := PostorderOf(t, |t.children|);
    FilterConcat(p, [t], keep);
    assert [t][..0] == [];
    MapConcat(Filter(p, keep), Filter([t], keep), view);
  }

  lemma {:induction false} GatherPostOfSpec<U>(t: FileInfo, keep: FileInfo -> bool, view: FileInfo -> U, k: nat)
    requires k <= |t.children|
    ensures GatherPostOf(t, keep, view, k) == Map(Filter(PostorderOf(t, k), keep), view)
    decreases t, 0, k
  {
    if k > 0 {
      var c := t.children[k - 1];
      GatherPostOfSpec(t, keep, view, k - 1);
      GatherPostSpec(c, keep, view);
      FilterConcat(PostorderOf(t, k - 1), Postorder(c), keep);
      MapConcat(Filter(PostorderOf(t, k - 1), keep), Filter(Postorder(c), keep), view);
    }
  }

  /** What the walk over all children gathers is, up to order, what the
      descendants in preorder give. */
  lemma GatheredDescendants<U>(t: FileInfo, keep: FileInfo -> bool, view: FileInfo -> U)
    ensures multiset(GatherPostOf(t, keep, view, |t.children|)) == multiset(Map(Filter(Descendants(t), keep), view))
  {
    GatherPostOfSpec(t, keep, view, |t.children|);
    DescendantsPostorder(t);
    FilterPermutation(PostorderOf(t, |t.children|), Descendants(t), keep);
    MapPermutation(Filter(PostorderOf(t, |t.children|), keep), Filter(Descendants(t), keep), view);
  }

  // ------------------------------------------------------------ maps

  /** One visit of a `traverse` closure doing `m[key] = append(m[key], val)`. */
  function GroupStep<K, V>(m: map<K, seq<V>>, x: FileInfo, keep: FileInfo -> bool, key: FileInfo -> K, val: FileInfo -> V): map<K, seq<V>>
  {
    if keep(x) then m[key(x) := (if key(x) in m then m[key(x)] else []) + [val(x)]] else m
  }

  /** The map such a closure leaves after walking `t` from `m`. */
  function GroupTree<K, V>(m: map<K, seq<V>>, t: FileInfo, keep: FileInfo -> bool, key: FileInfo -> K, val: FileInfo -> V): map<K, seq<V>>
    decreases t, 1
  {
    GroupTreeOf(m, t, keep, key, val, |t.children|)
  }

  function GroupTreeOf<K, V>(m: map<K, seq<V>>, t: FileInfo, keep: FileInfo -> bool, key: FileInfo -> K, val: FileInfo -> V, k: nat): map<K, seq<V>>
    requires k <= |t.children|
    decreases t, 0, k
  {
    if k == 0 then GroupStep(m, t, keep, key, val)
    else GroupTree(GroupTreeOf(m, t, keep, key, val, k - 1), t.children[k - 1], keep, key, val)
  }

  /** Walking the tree groups the kept nodes in preorder. */
  lemma {:induction false} GroupTreeSpec<K, V>(m: map<K, seq<V>>, t: FileInfo, keep: FileInfo -> bool, key: FileInfo -> K, val: FileInfo -> V)
    ensures GroupTree(m, t, keep, key, val) == GroupBy(m, Filter(Subtrees(t), keep), key, val)
    decreases t, 1
  {
    GroupTreeOfSpec(m, t, keep, key, val, |t.children|);
  }

  lemma {:induction false} GroupTreeOfSpec<K, V>(m: map<K, seq<V>>, t: FileInfo, keep: FileInfo -> bool, key: FileInfo -> K, val: FileInfo -> V, k: nat)
    requires k <= |t.children|
    ensures GroupTreeOf(m, t, keep, key, val, k) == GroupBy(m, Filter(SubtreesOf(t, k), keep), key, val)
    decreases t, 0, k
  {
    if k == 0 {
      GroupStepSpec(m, t, keep, key, val);
    } else {
      var c := t.children[k - 1];
      var before := SubtreesOf(t, k - 1);
      var g := GroupTreeOf(m, t, keep, key, val, k - 1);
      var a := Filter(before, keep);
      var b := Filter(Subtrees(c), keep);
      GroupTreeOfSpec(m, t, keep, key, val, k - 1);
      GroupTreeSpec(g, c, keep, key, val);
      FilterConcat(before, Subtrees(c), keep);
      GroupByConcat(m, a, b, key, val);
      calc {
        GroupTreeOf(m, t, keep, key, val, k);
        GroupTree(g, c, keep, key, val);
        GroupBy(g, b, key, val);
        GroupBy(GroupBy(m, a, key, val), b, key, val);
        GroupBy(m, a + b, key, val);
        { assert SubtreesOf(t, k) == before + Subtrees(c); }
        GroupBy(m, Filter(SubtreesOf(t, k), keep), key, val);
      }
    }
  }

  lemma GroupStepSpec<K, V>(m: map<K, seq<V>>, t: FileInfo, keep: FileInfo -> bool, key: FileInfo -> K, val: FileInfo -> V)
    ensures GroupStep(m, t, keep, key, val) == GroupBy(m, Filter([t], keep), key, val)
  {
    var s := [t];
    assert s[..0] == [];
    assert Filter(s[..0], keep) == [];
    assert GroupBy(m, s[..0], key, val) == m;
    if keep(t) {
      assert Filter(s, keep) == s;
    } else {
      assert Filter(s, keep) == [];
    }
  }

  /** A `traverse` closure that appends `val(x)` to the slice under `key(x)`
      for every node `x` that `keep` accepts, then recurses into the children. */
  method GroupCollect<K, V>(t: FileInfo, keep: FileInfo -> bool, key: FileInfo -> K, val: FileInfo -> V, m: map<K, seq<V>>)
    returns (r: map<K, seq<V>>)
    ensures r == GroupTree(m, t, keep, key, val)
    decreases t
  {
    r := m;
    if keep(t) {
      var k := key(t);
      r := r[k := (if k in r then r[k] else []) + [val(t)]];
    }
    var k := 0;
    while k < |t.children|
      invariant 0 <= k <= |t.children|
      invariant r == GroupTreeOf(m, t, keep, key, val, k)
    {
      r := GroupCollect(t.children[k], keep, key, val, r);
      k := k + 1;
    }
  }

  /** One visit of a `traverse` closure doing `m[key] += f`. */
  function AddStep<K>(m: map<K, int>, x: FileInfo, keep: FileInfo -> bool, key: FileInfo -> K, f: FileInfo -> int): map<K, int>
  {
    if keep(x) then m[key(x) := (if key(x) in m then m[key(x)] else 0) + f(x)] else m
  }

  /** The map such a closure leaves after walking `t` from `m`. */
  function AddUpTree<K>(m: map<K, int>, t: FileInfo, keep: FileInfo -> bool, key: FileInfo -> K, f: FileInfo -> int): map<K, int>
    decreases t, 1
  {
    AddUpTreeOf(m, t, keep, key, f, |t.children|)
  }

  function AddUpTreeOf<K>(m: map<K, int>, t: FileInfo, keep: FileInfo -> bool, key: FileInfo -> K, f: FileInfo -> int, k: nat): map<K, int>
    requires k <= |t.children|
    decreases t, 0, k
  {
    if k == 0 then AddStep(m, t, keep, key, f)
    else AddUpTree(AddUpTreeOf(m, t, keep, key, f, k - 1), t.children[k - 1], keep, key, f)
  }

  /** Walking the tree adds up the kept nodes in preorder. */
  lemma {:induction false} AddUpTreeSpec<K>(m: map<K, int>, t: FileInfo, keep: FileInfo -> bool, key: FileInfo -> K, f: FileInfo -> int)
    ensures AddUpTree(m, t, keep, key, f) == AddUp(m, Filter(Subtrees(t), keep), key, f)
    decreases t, 1
  {
    AddUpTreeOfSpec(m, t, keep, key, f, |t.children|);
  }

  lemma {:induction false} AddUpTreeOfSpec<K>(m: map<K, int>, t: FileInfo, keep: FileInfo -> bool, key: FileInfo -> K, f: FileInfo -> int, k: nat)
    requires k <= |t.children|
    ensures AddUpTreeOf(m, t, keep, key, f, k) == AddUp(m, Filter(SubtreesOf(t, k), keep), key, f)
    decreases t, 0, k
  {
    if k == 0 {
      AddStepSpec(m, t, keep, key, f);
    } else {
      var c := t.children[k - 1];
      var before := SubtreesOf(t, k - 1);
      var g := AddUpTreeOf(m, t, keep, key, f, k - 1);
      var a := Filter(before, keep);
      var b := Filter(Subtrees(c), keep);
      AddUpTreeOfSpec(m, t, keep, key, f, k - 1);
      AddUpTreeSpec(g, c, keep, key, f);
      FilterConcat(before, Subtrees(c), keep);
      AddUpConcat(m, a, b, key, f);
      calc {
        AddUpTreeOf(m, t, keep, key, f, k);
        AddUpTree(g, c, keep, key, f);
        AddUp(g, b, key, f);
        AddUp(AddUp(m, a, key, f), b, key, f);
        AddUp(m, a + b, key, f);
        { assert SubtreesOf(t, k) == before + Subtrees(c); }
        AddUp(m, Filter(SubtreesOf(t, k), keep), key, f);
      }
    }
  }

  lemma AddStepSpec<K>(m: map<K, int>, t: FileInfo, keep: FileInfo -> bool, key: FileInfo -> K, f: FileInfo -> int)
    ensures AddStep(m, t, keep, key, f) == AddUp(m, Filter([t], keep), key, f)
  {
    var s := [t];
    assert s[..0] == [];
    assert Filter(s[..0], keep) == [];
    assert AddUp(m, s[..0], key, f) == m;
    if keep(t) {
      assert Filter(s, keep) == s;
    } else {
      assert Filter(s, keep) == [];
    }
  }

  /** A `traverse` closure that adds `f(x)` to the total under `key(x)` for
      every node `x` that `keep` accepts, then recurses into the children. */
  method AddUpCollect<K>(t: FileInfo, keep: FileInfo -> bool, key: FileInfo -> K, f: FileInfo -> int, m: map<K, int>)
    returns (r: map<K, int>)
    ensures r == AddUpTree(m, t, keep, key, f)
    decreases t
  {
    r := m;
    if keep(t) {
      var k := key(t);
      r := r[k := (if k in r then r[k] else 0) + f(t)];
    }
    var k := 0;
    while k < |t.children|
      invariant 0 <= k <= |t.children|
      invariant r == AddUpTreeOf(m, t, keep, key, f, k)
    {
      r := AddUpCollect(t.children[k], keep, key, f, r);
      k := k + 1;
    }
  }

  // ------------------------------------------------------------ sizes

  /** In a tree where every node with children has the sum of their sizes,
      the leaves' sizes add up to the root's size. */
  lemma {:induction false} LeafSum(t: FileInfo)
    requires WellSized(t)
    ensures SumBy(Filter(Subtrees(t), IsLeaf), SizeOf) == t.size
    decreases t, 1
  {
    if t.children == [] {
      assert [t][..0] == [];
    } else {
      LeafSumOf(t, |t.children|);
      assert t.children[..|t.children|] == t.children;
    }
  }

  lemma {:induction false} LeafSumOf(t: FileInfo, k: nat)
    requires k <= |t.children| && t.children != []
    requires forall i :: 0 <= i < |t.children| ==> WellSized(t.children[i])
    ensures SumBy(Filter(SubtreesOf(t, k), IsLeaf), SizeOf) == SumBy(t.children[..k], SizeOf)
    decreases t, 0, k
  {
    if k == 0 {
      assert [t][..0] == [];
      assert Filter([t], IsLeaf) == [];
    } else {
      var c := t.children[k - 1];
      LeafSumOf(t, k - 1);
      LeafSum(c);
      FilterSubtreesStep(t, k, IsLeaf);
      SumByConcat(Filter(SubtreesOf(t, k - 1), IsLeaf), Filter(Subtrees(c), IsLeaf), SizeOf);
      SumByPrefix(t.children, k, SizeOf);
    }
  }

  /** The kept nodes of the first `k` children's subtrees: those of the first
      `k - 1`, then those of child `k - 1`. */
  lemma FilterSubtreesStep(t: FileInfo, k: nat, keep: FileInfo -> bool)
    requires 0 < k <= |t.children|
    ensures Filter(SubtreesOf(t, k), keep) ==
      Filter(SubtreesOf(t, k - 1), keep) + Filter(Subtrees(t.children[k - 1]), keep)
  {
    FilterConcat(SubtreesOf(t, k - 1), Subtrees(t.children[k - 1]), keep);
  }
}
