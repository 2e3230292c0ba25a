/**
 The radix directory router: heap nodes whose edges and children are rewritten in place, beside a plain dictionary.

 `Valid()` says the nodes form a compressed prefix tree that answers exactly like the dictionary. Values may be
 None, as Python callers may store it; the dictionary then holds the key although lookups answer None.
 */
module Radix {
  import opened Bytes
  import opened RadixShape

  class RadixNode<T> {
    var edge: string
    var value: Option<T>
    var children: map<char, RadixNode<T>>
    ghost var path: string

    constructor (edge: string, value: Option<T>, ghost path: string)
      ensures this.edge == edge && this.value == value && this.children == map[] && this.path == path
    {
      this.edge, this.value, this.children, this.path := edge, value, map[], path;
    }
  }

  /** Length of the longest common prefix. */
  method CommonPrefix(a: string, b: string) returns (i: nat)
    ensures i <= |a| && i <= |b|
    ensures a[..i] == b[..i]
    ensures i == |a| || i == |b| || a[i] != b[i]
  {
    i := 0;
    while i < |a| && i < |b| && a[i] == b[i]
      invariant i <= |a| && i <= |b|
      invariant a[..i] == b[..i]
    {
      i := i + 1;
    }
  }

  class RadixDirectoryRouter<T> {
    var root: RadixNode<T>
    var items: map<string, Option<T>>
    ghost var nodes: set<RadixNode<T>>

    ghost function Snapshot(): Heap<RadixNode<T>, T>
      reads this`nodes, nodes
    {
      map n | n in nodes :: NodeRec(n.path, n.edge, n.value, n.children)
    }

    ghost predicate Valid()
      reads this, nodes
    {
      RadixTree(root, Snapshot(), items)
    }

    lemma SnapshotAt(n: RadixNode<T>)
      ensures n in nodes <==> n in Snapshot()
      ensures n in nodes ==> Snapshot()[n] == NodeRec(n.path, n.edge, n.value, n.children)
    {
    }

    constructor ()
      ensures Valid() && fresh(nodes)
      ensures items == map[]
    {
      var r := new RadixNode<T>("", None, "");
      root, items, nodes := r, map[], {r};
      new;
      ghost var blank: NodeRec<RadixNode<T>, T> := NodeRec("", "", None, map[]);
      EmptyTree(root, blank);
      assert Snapshot() == map[root := blank];
    }

    /** Walk the tree; the answer is the dictionary's, for every string. */
    method Lookup(key: string) returns (value: Option<T>)
      requires Valid()
      ensures value == At(items, key)
    {
      hide Compressed;
      ghost var h := Snapshot();
      var node, rest := root, key;
      while rest != ""
        invariant node in nodes && node.path + rest == key
        decreases |rest|
      {
        assert Linked(h, node);
        if rest[0] !in node.children || !(node.children[rest[0]].edge <= rest) {
          if rest[0] in node.children {
            PrefixCancel(node.path, node.children[rest[0]].edge, rest);
          }
          NoNodeBelow(root, h, node, key);
          NoNodeNoItem(h, items, key);
          return None;
        }
        var child := node.children[rest[0]];
        rest := rest[|child.edge|..];
        node := child;
      }
      assert ValueOk(h, items, node);
      assert node.path == node.path + "";
      return node.value;
    }

    /** `key in router` asks the dictionary, `router[key]` the tree: they differ exactly for keys bound to None. */
    method GetItem(key: string) returns (value: Option<T>, contained: bool)
      requires Valid()
      ensures contained <==> key in items
      ensures value.Some? ==> contained && items[key] == value
      ensures contained && value.None? <==> key in items && items[key].None?
    {
      value := Lookup(key);
      contained := key in items;
    }

    /** Bind `key`, splitting an edge where the key leaves it. The empty key is refused. */
    method Insert(key: string, value: Option<T>) returns (ok: bool)
      requires Valid()
      modifies this, nodes
      ensures Valid()
      ensures fresh(nodes - old(nodes))
      ensures ok <==> key != ""
      ensures items == if ok then old(items)[key := value] else old(items)
    {
      if key == "" {
        return false;
      }
      ok := true;
      hide RadixTree, Snapshot, PartialEdge;
      ghost var h, was := Snapshot(), items;
      items := items[key := value];
      var node, rest, cp := Walk(key, was);
      if rest == "" {
        OverwriteValue(node, key, value, h, was);
      } else if cp == 0 {
        AttachLeaf(node, rest, key, value, h, was);
      } else {
        PartialChild(node, rest, cp);
        SplitEdge(node, node.children[rest[0]], cp, rest, key, value, h, was);
      }
    }

    /** Follow whole edges as far as they spell the key; `cp` characters of one more edge match. */
    method Walk(key: string, ghost was: map<string, Option<T>>) returns (node: RadixNode<T>, rest: string, cp: nat)
      requires RadixTree(root, Snapshot(), was)
      ensures node in nodes && node.path + rest == key
      ensures rest != "" ==> (cp == 0 <==> rest[0] !in node.children)
      ensures rest != "" && cp > 0 ==> PartialEdge(node, rest, cp)
    {
      hide RadixTree, Shape, Snapshot;
      ghost var h := Snapshot();
      TreeRoot(root, h, was);
      SnapshotAt(root);
      node, rest, cp := root, key, 0;
      while rest != ""
        invariant node in nodes && node.path + rest == key
        decreases |rest|
      {
        SnapshotAt(node);
        if rest[0] !in node.children {
          return node, rest, 0;
        }
        var child := node.children[rest[0]];
        TreeLinked(root, h, was, node, rest[0]);
        SnapshotAt(child);
        cp := CommonPrefix(rest, child.edge);
        if cp == |child.edge| {
          assert node.path + child.edge + rest[cp..] == node.path + rest;
          node := child;
          rest := rest[cp..];
        } else {
          return;
        }
      }
    }

    /** The edge to the child for `rest` shares exactly its first cp characters with it. */
    ghost predicate PartialEdge(node: RadixNode<T>, rest: string, cp: nat)
      reads this, nodes, node
    {
      && rest != "" && rest[0] in node.children
      && var child := node.children[rest[0]];
         && child in nodes && child != node
         && 0 < cp < |child.edge| && cp <= |rest| && rest[..cp] == child.edge[..cp]
         && (cp == |rest| || rest[cp] != child.edge[cp])
         && child.path == node.path + child.edge
    }

    lemma PartialChild(node: RadixNode<T>, rest: string, cp: nat)
      requires PartialEdge(node, rest, cp)
      ensures rest != "" && rest[0] in node.children && node.children[rest[0]] in nodes
    {
    }

    /** The key's own node exists. */
    method OverwriteValue(node: RadixNode<T>, ghost key: string, value: Option<T>,
                          ghost h: Heap<RadixNode<T>, T>, ghost was: map<string, Option<T>>)
      requires node in nodes && Snapshot() == h
      requires RadixTree(root, h, was) && items == was[key := value]
      requires key != "" && node.path + "" == key
      modifies node
      ensures Valid()
    {
      hide RadixTree, Snapshot;
      SnapshotAt(node);
      assert node.path == node.path + "";
      SetValue(root, h, was, node, key, value);
      StoreValue(node, value);
    }

    /** Hang a new leaf for the rest of the key from `node`. */
    method AttachLeaf(node: RadixNode<T>, rest: string, ghost key: string, value: Option<T>,
                      ghost h: Heap<RadixNode<T>, T>, ghost was: map<string, Option<T>>)
      requires node in nodes && Snapshot() == h
      requires RadixTree(root, h, was) && items == was[key := value]
      requires node.path + rest == key && rest != "" && rest[0] !in node.children
      modifies this`nodes, node
      ensures Valid()
      ensures fresh(nodes - old(nodes))
    {
      hide RadixTree;
      ghost var leaf := HangLeaf(node, rest, key, value);
      AddLeaf(root, h, was, node, key, leaf, value);
    }

    /** Put a middle node on the edge to `child` and hang the new key from it. */
    method SplitEdge(node: RadixNode<T>, child: RadixNode<T>, cp: nat, rest: string, ghost key: string,
                     value: Option<T>, ghost h: Heap<RadixNode<T>, T>, ghost was: map<string, Option<T>>)
      requires node in nodes && child in nodes && Snapshot() == h
      requires RadixTree(root, h, was) && items == was[key := value]
      requires node.path + rest == key
      requires PartialEdge(node, rest, cp) && child == node.children[rest[0]]
      modifies this`nodes, node, child
      ensures Valid()
      ensures fresh(nodes - old(nodes))
    {
      hide RadixTree, Shape, Snapshot;
      TreeShape(root, h, was);
      SnapshotAt(node);
      SnapshotAt(child);
      var mid := PlaceMiddle(node, child, cp, h);
      ghost var g := Snapshot();
      var suffixNew := rest[cp..];
      assert mid.path + suffixNew == key by {
        assert rest == rest[..cp] + suffixNew;
        assert mid.path == old(node.path) + rest[..cp];
      }
      if suffixNew != "" {
        ghost var leaf := HangLeaf(mid, suffixNew, key, value);
        SplitWithLeaf(root, h, was, node, child, mid, cp, key, leaf, value);
      } else {
        SplitWithValue(root, h, was, node, child, mid, cp, key, value);
        StoreValue(mid, value);
      }
    }

    /** The middle node takes over the first `cp` characters of the edge; the old child keeps the rest. */
    method PlaceMiddle(node: RadixNode<T>, child: RadixNode<T>, cp: nat, ghost h: Heap<RadixNode<T>, T>)
      returns (mid: RadixNode<T>)
      requires node in nodes && child in nodes && node != child && Snapshot() == h
      requires 0 < cp < |child.edge|
      modifies this`nodes, node, child
      ensures fresh(mid) && nodes == old(nodes) + {mid} && mid !in old(nodes)
      ensures mid.path == old(node.path) + old(child.edge)[..cp]
      ensures Snapshot() == Split(h, node, child, mid, cp)
    {
      var first, suffixOld := child.edge[0], child.edge[cp..];
      mid := new RadixNode(child.edge[..cp], None, node.path + child.edge[..cp]);
      child.edge := suffixOld;
      mid.children := map[suffixOld[0] := child];
      node.children := node.children[first := mid];
      nodes := nodes + {mid};
    }

    method HangLeaf(mid: RadixNode<T>, rest: string, ghost key: string, value: Option<T>) returns (leaf: RadixNode<T>)
      requires mid in nodes && mid.path + rest == key && rest != ""
      modifies this`nodes, mid
      ensures fresh(leaf) && nodes == old(nodes) + {leaf} && leaf !in old(nodes)
      ensures Snapshot() == WithLeaf(old(Snapshot()), mid, key, leaf, value)
    {
      leaf := new RadixNode(rest, value, key);
      mid.children := mid.children[rest[0] := leaf];
      nodes := nodes + {leaf};
    }

    method StoreValue(node: RadixNode<T>, value: Option<T>)
      requires node in nodes
      modifies node
      ensures var h := old(Snapshot()); Snapshot() == h[node := h[node].(value := value)]
    {
      node.value := value;
    }

    /** Remove a key by rebuilding the tree from the remaining items. */
    method Delete(key: string) returns (removed: Option<T>)
      requires Valid()
      modifies this, nodes
      ensures Valid()
      ensures fresh(nodes - old(nodes))
      ensures items == old(items) - {key}
      ensures removed == At(old(items), key)
    {
      if key !in items {
        assert items - {key} == items;
        return None;
      }
      removed := items[key];
      TreeShape(root, Snapshot(), items);
      Rebuild(items - {key});
    }

    /** Throw the tree away and insert the given items again, in any order. */
    method Rebuild(kept: map<string, Option<T>>)
      requires "" !in kept
      modifies this
      ensures Valid() && fresh(nodes)
      ensures items == kept
    {
      hide Valid;
      Clear();
      var todo := kept.Keys;
      assert kept - todo == map[];
      while todo != {}
        invariant Valid() && fresh(nodes)
        invariant todo <= kept.Keys && items == kept - todo
        decreases todo
      {
        var k :| k in todo;
        ghost var before := nodes;
        var ok := Insert(k, kept[k]);
        PutBack(kept, todo, k);
        todo := todo - {k};
        assert fresh(nodes - before) && nodes == (nodes - before) + (nodes * before);
      }
      assert kept - {} == kept;
    }

    /** A fresh empty tree and dictionary. */
    method Clear()
      modifies this
      ensures Valid() && items == map[] && fresh(nodes)
    {
      var r := new RadixNode<T>("", None, "");
      root, items, nodes := r, map[], {r};
      ghost var blank: NodeRec<RadixNode<T>, T> := NodeRec("", "", None, map[]);
      EmptyTree(root, blank);
      assert Snapshot() == map[root := blank];
    }
  }

  /** Re-inserting one of the keys still missing. */
  /** The smallest case in which a router contains a key and does not find it. */
  method ContainedButNotFound() returns (value: Option<int>, contained: bool)
    ensures contained && value.None?
  {
    var router := new RadixDirectoryRouter<int>();
    var ok := router.Insert("k", None);
    value, contained := router.GetItem("k");
  }

  lemma PutBack<K, V>(kept: map<K, V>, todo: set<K>, k: K)
    requires k in todo && todo <= kept.Keys
    ensures (kept - todo)[k := kept[k]] == kept - (todo - {k})
  {
  }

  lemma PrefixCancel(p: string, a: string, b: string)
    ensures p + a <= p + b <==> a <= b
  {
    if p + a <= p + b {
      assert forall i :: 0 <= i < |a| ==> a[i] == (p + a)[|p| + i] == (p + b)[|p| + i];
    }
  }

  lemma TreeShape<N, T>(root: N, h: Heap<N, T>, items: map<string, Option<T>>)
    requires RadixTree(root, h, items)
    ensures Shape(root, h) && "" !in items
  {
  }

  lemma TreeRoot<N, T>(root: N, h: Heap<N, T>, items: map<string, Option<T>>)
    requires RadixTree(root, h, items)
    ensures root in h && h[root].path == ""
  {
  }

  lemma TreeLinked<N, T>(root: N, h: Heap<N, T>, items: map<string, Option<T>>, n: N, c: char)
    requires RadixTree(root, h, items)
    requires n in h && c in h[n].children
    ensures h[n].children[c] in h
    ensures |h[h[n].children[c]].edge| > 0 && h[h[n].children[c]].edge[0] == c
    ensures h[h[n].children[c]].path == h[n].path + h[h[n].children[c]].edge
  {
    assert Linked(h, n);
  }
}
