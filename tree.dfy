/** `_build_tree_structure`: each direct dependency with the transitive
    entries found under it. */
module Tree {
  import opened Pom
  import opened Transitive

  /** A direct dependency and its children. */
  datatype TreeNode = TreeNode(dep: Dependency, children: seq<TransitiveDep>)

  /** The transitive entries found under `key`, in order (the list
      `transitive_by_parent` holds for it). */
  function ChildrenOf(ts: seq<TransitiveDep>, key: string): seq<TransitiveDep> {
    if ts == [] then []
    else
      var init := ChildrenOf(ts[..|ts| - 1], key);
      var t := ts[|ts| - 1];
      if t.via != [] && t.via == key then init + [t] else init
  }

  /** The tree: one node per direct dependency, in order. */
  function TreeOf(direct: seq<Dependency>, ts: seq<TransitiveDep>): seq<TreeNode> {
    if direct == [] then []
    else TreeOf(direct[..|direct| - 1], ts) + [TreeNode(direct[|direct| - 1], ChildrenOf(ts, Key(direct[|direct| - 1])))]
  }

  /** The `via` keys seen so far and the entries grouped under each. */
  ghost predicate GroupedByParent(ts: seq<TransitiveDep>, byParent: map<string, seq<TransitiveDep>>) {
    (forall k :: k in byParent ==> byParent[k] == ChildrenOf(ts, k))
    && (forall k :: k !in byParent ==> ChildrenOf(ts, k) == [])
  }

  /** `_build_tree_structure(direct_deps, transitive_deps)`. */
  method BuildTreeStructure(direct: seq<Dependency>, ts: seq<TransitiveDep>) returns (tree: seq<TreeNode>)
    ensures tree == TreeOf(direct, ts)
  {
    var byParent: map<string, seq<TransitiveDep>> := map[];
    var i := 0;
    assert ts[..0] == [];
    while i < |ts|
      invariant 0 <= i <= |ts|
      invariant GroupedByParent(ts[..i], byParent)
    {
      assert ts[..i + 1][..i] == ts[..i];
      var t := ts[i];
      var parent := t.via;
      if parent != [] {
        var previous := if parent in byParent then byParent[parent] else [];
        byParent := byParent[parent := previous + [t]];
      }
      i := i + 1;
    }
    assert ts[..i] == ts;
    tree := [];
    var j := 0;
    assert direct[..0] == [];
    while j < |direct|
      invariant 0 <= j <= |direct|
      invariant tree == TreeOf(direct[..j], ts)
    {
      assert direct[..j + 1][..j] == direct[..j];
      var d := direct[j];
      var children := if Key(d) in byParent then byParent[Key(d)] else [];
      tree := tree + [TreeNode(d, children)];
      j := j + 1;
    }
    assert direct[..j] == direct;
  }

  /** A child of a key is exactly an entry found under that key. */
  lemma {:induction false} ChildrenExactly(ts: seq<TransitiveDep>, key: string, t: TransitiveDep)
    requires key != []
    ensures t in ChildrenOf(ts, key) <==> t in ts && t.via == key
  {
    if ts != [] {
      var init := ts[..|ts| - 1];
      ChildrenExactly(init, key, t);
      assert ts == init + [ts[|ts| - 1]];
    }
  }

  /** Children keep the order of the transitive list: the entries under a
      key appear as they appear in it. */
  lemma {:induction false} ChildrenInOrder(key: string, xs: seq<TransitiveDep>, ys: seq<TransitiveDep>)
    requires key != []
    ensures ChildrenOf(xs + ys, key) == ChildrenOf(xs, key) + ChildrenOf(ys, key)
  {
    if ys == [] {
      assert xs + ys == xs;
    } else {
      ChildrenInOrder(key, xs, ys[..|ys| - 1]);
      assert (xs + ys)[..|xs + ys| - 1] == xs + ys[..|ys| - 1];
    }
  }

  /** One node per direct dependency, in input order. */
  lemma {:induction false} TreeShape(direct: seq<Dependency>, ts: seq<TransitiveDep>)
    ensures |TreeOf(direct, ts)| == |direct|
    ensures forall i :: 0 <= i < |direct| ==> TreeOf(direct, ts)[i] == TreeNode(direct[i], ChildrenOf(ts, Key(direct[i])))
  {
    if direct != [] {
      TreeShape(direct[..|direct| - 1], ts);
    }
  }

  /** An entry appears in the tree exactly when its `via` is the key of
      some direct dependency; entries under any other key are dropped. */
  lemma InTree(direct: seq<Dependency>, ts: seq<TransitiveDep>, t: TransitiveDep)
    ensures (exists i :: 0 <= i < |TreeOf(direct, ts)| && t in TreeOf(direct, ts)[i].children)
      <==> t in ts && exists i :: 0 <= i < |direct| && t.via == Key(direct[i])
  {
    TreeShape(direct, ts);
    var tree := TreeOf(direct, ts);
    if exists i :: 0 <= i < |tree| && t in tree[i].children {
      var i :| 0 <= i < |tree| && t in tree[i].children;
      KeyNotEmpty(direct[i]);
      ChildrenExactly(ts, Key(direct[i]), t);
    }
    if t in ts && exists i :: 0 <= i < |direct| && t.via == Key(direct[i]) {
      var i :| 0 <= i < |direct| && t.via == Key(direct[i]);
      KeyNotEmpty(direct[i]);
      ChildrenExactly(ts, Key(direct[i]), t);
      assert t in tree[i].children;
    }
  }

  lemma KeyNotEmpty(d: Dependency)
    ensures Key(d) != []
  {
    assert |Key(d)| >= 2;
  }
}
