/**
 The compressed prefix tree behind the directory router, as a finite map from node identities to node contents.

 Each node carries, as a ghost, the string spelled from the root to it. The invariant is flat: it relates pairs of
 nodes by their spelled strings, so an update that touches two or three nodes is checked against those alone.
 */
module RadixShape {
  import opened Bytes
  import Probing

  datatype NodeRec<N, T> = NodeRec(path: string, edge: string, value: Option<T>, children: map<char, N>)

  type Heap<N, T> = map<N, NodeRec<N, T>>

  ghost function At<T>(items: map<string, Option<T>>, key: string): Option<T> {
    if key in items then items[key] else None
  }

  /** The children of n spell n's string plus their own non-empty edge. */
  ghost predicate Linked<N, T>(h: Heap<N, T>, n: N)
    requires n in h
  {
    forall c :: c in h[n].children ==>
                  && h[n].children[c] in h
                  && |h[h[n].children[c]].edge| > 0
                  && h[h[n].children[c]].edge[0] == c
                  && h[h[n].children[c]].path == h[n].path + h[h[n].children[c]].edge
  }

  /** Below n, the way to m leads through the child for m's next character. */
  ghost predicate Descends<N, T>(h: Heap<N, T>, n: N, m: N)
    requires n in h && m in h
  {
    h[n].path < h[m].path ==>
      && h[m].path[|h[n].path|] in h[n].children
      && h[n].children[h[m].path[|h[n].path|]] in h
      && h[h[n].children[h[m].path[|h[n].path|]]].path <= h[m].path
  }

  ghost predicate Apart<N, T>(h: Heap<N, T>, n: N, m: N)
    requires n in h && m in h
  {
    h[n].path == h[m].path ==> n == m
  }

  ghost predicate Shape<N, T>(root: N, h: Heap<N, T>) {
    && root in h
    && h[root].path == ""
    && (forall n {:trigger Linked(h, n)} :: n in h ==> Linked(h, n))
    && (forall n, m {:trigger Apart(h, n, m)} :: n in h && m in h ==> Apart(h, n, m))
    && (forall n, m {:trigger Descends(h, n, m)} :: n in h && m in h ==> Descends(h, n, m))
  }

  ghost predicate Spells<N, T>(h: Heap<N, T>, n: N, key: string) {
    n in h && h[n].path == key
  }

  ghost predicate HasNode<N, T>(h: Heap<N, T>, key: string) {
    exists n {:trigger Spells(h, n, key)} :: n in h && Spells(h, n, key)
  }

  ghost predicate ValueOk<N, T>(h: Heap<N, T>, items: map<string, Option<T>>, n: N)
    requires n in h
  {
    h[n].value == At(items, h[n].path)
  }

  ghost predicate Values<N, T>(h: Heap<N, T>, items: map<string, Option<T>>) {
    && "" !in items
    && (forall n {:trigger ValueOk(h, items, n)} :: n in h ==> ValueOk(h, items, n))
    && (forall k {:trigger HasNode(h, k)} :: k in items ==> HasNode(h, k))
  }

  ghost predicate Needed<N, T>(root: N, h: Heap<N, T>, items: map<string, Option<T>>, n: N)
    requires n in h
  {
    n != root && h[n].path !in items ==> |h[n].children| >= 2
  }

  /** A node that stores no item is there only because two or more branches meet in it. */
  ghost predicate Compressed<N, T>(root: N, h: Heap<N, T>, items: map<string, Option<T>>) {
    forall n {:trigger Needed(root, h, items, n)} :: n in h ==> Needed(root, h, items, n)
  }

  ghost predicate RadixTree<N, T>(root: N, h: Heap<N, T>, items: map<string, Option<T>>) {
    Shape(root, h) && Values(h, items) && Compressed(root, h, items)
  }

  lemma EmptyTree<N, T>(root: N, r: NodeRec<N, T>)
    requires r == NodeRec("", "", None, map[])
    ensures RadixTree(root, map[root := r], map[])
  {
  }

  // ---- lookup ----

  /** No child for the next character, or a child that leads elsewhere: the key has no node. */
  lemma DeadEnd<N, T>(root: N, h: Heap<N, T>, n: N, key: string, m: N)
    requires Shape(root, h)
    requires n in h && h[n].path < key
    requires key[|h[n].path|] !in h[n].children
             || h[n].children[key[|h[n].path|]] !in h
             || !(h[h[n].children[key[|h[n].path|]]].path <= key)
    ensures !Spells(h, m, key)
  {
    if m in h {
      assert Descends(h, n, m);
    }
  }

  lemma NoNodeNoItem<N, T>(h: Heap<N, T>, items: map<string, Option<T>>, key: string)
    requires Values(h, items)
    requires !HasNode(h, key)
    ensures key !in items
  {
  }

  // ---- insert ----

  lemma SetSize<K, V>(m: map<K, V>, key: K, value: V)
    ensures |m[key := value]| == |m| + (if key in m then 0 else 1)
  {
    assert m[key := value].Keys == m.Keys + {key};
  }

  /** The key's own node already exists: only its value changes. */
  lemma SetValue<N, T>(root: N, h: Heap<N, T>, items: map<string, Option<T>>, n: N, key: string, value: Option<T>)
    requires RadixTree(root, h, items)
    requires Spells(h, n, key) && key != ""
    ensures RadixTree(root, h[n := h[n].(value := value)], items[key := value])
  {
    var g, items' := h[n := h[n].(value := value)], items[key := value];
    assert Shape(root, g) by {
      SetValueShape(root, h, n, value);
    }
    SetValueValues(root, h, items, n, key, value);
    hide Shape, Values;
    assert Compressed(root, g, items') by {
      forall m | m in g
        ensures Needed(root, g, items', m)
      {
        assert Needed(root, h, items, m);
      }
    }
    SetSize(items, key, value);
    SetSize(h, n, h[n].(value := value));
  }

  lemma SetValueValues<N, T>(root: N, h: Heap<N, T>, items: map<string, Option<T>>, n: N, key: string, value: Option<T>)
    requires Shape(root, h) && Values(h, items)
    requires Spells(h, n, key) && key != ""
    ensures Values(h[n := h[n].(value := value)], items[key := value])
  {
    var g, items' := h[n := h[n].(value := value)], items[key := value];
    forall m | m in g
      ensures ValueOk(g, items', m)
    {
      assert ValueOk(h, items, m);
      assert Apart(h, m, n);
    }
    forall k | k in items'
      ensures HasNode(g, k)
    {
      if k == key {
        assert Spells(g, n, k);
      } else {
        assert HasNode(h, k);
        var m :| m in h && Spells(h, m, k);
        assert Spells(g, m, k);
      }
    }
  }

  lemma SetValueShape<N, T>(root: N, h: Heap<N, T>, n: N, value: Option<T>)
    requires Shape(root, h) && n in h
    ensures Shape(root, h[n := h[n].(value := value)])
  {
    var g := h[n := h[n].(value := value)];
    forall m | m in g
      ensures Linked(g, m)
    {
      assert Linked(h, m);
    }
    forall m, m' | m in g && m' in g
      ensures Descends(g, m, m') && Apart(g, m, m')
    {
      assert Descends(h, m, m') && Apart(h, m, m');
    }
  }

  // ---- a new leaf ----

  ghost function WithLeaf<N, T>(h: Heap<N, T>, n: N, key: string, leaf: N, value: Option<T>): Heap<N, T>
    requires n in h && h[n].path < key
  {
    var at := |h[n].path|;
    h[n := h[n].(children := h[n].children[key[at] := leaf])]
     [leaf := NodeRec(key, key[at..], value, map[])]
  }

  /** Any node whose string is a proper prefix of a string hanging off n is n or lies above n. */
  lemma AboveLeaf<N, T>(root: N, h: Heap<N, T>, n: N, key: string, m: N)
    requires Shape(root, h)
    requires n in h && m in h && h[n].path < key && h[m].path < key
    requires !HasNode(h, key)
    requires key[|h[n].path|] !in h[n].children
    ensures m == n || h[m].path < h[n].path
  {
    assert Descends(h, n, m) && Apart(h, n, m);
    if |h[m].path| >= |h[n].path| {
      assert h[n].path <= h[m].path;
    }
  }

  lemma LeafShape<N, T>(root: N, h: Heap<N, T>, n: N, key: string, leaf: N, value: Option<T>)
    requires Shape(root, h)
    requires n in h && h[n].path < key && key[|h[n].path|] !in h[n].children
    requires leaf !in h && !HasNode(h, key)
    ensures Shape(root, WithLeaf(h, n, key, leaf, value))
  {
    var g := WithLeaf(h, n, key, leaf, value);
    forall m | m in g
      ensures Linked(g, m)
    {
      if m != leaf {
        assert Linked(h, m);
      }
    }
    forall m, m' | m in g && m' in g
      ensures Apart(g, m, m')
    {
      if m != leaf && m' != leaf {
        assert Apart(h, m, m');
      } else if m != leaf {
        assert !Spells(h, m, key);
      } else if m' != leaf {
        assert !Spells(h, m', key);
      }
    }
    forall m, m' | m in g && m' in g
      ensures Descends(g, m, m')
    {
      LeafDescends(root, h, n, key, leaf, value, m, m');
    }
  }

  lemma LeafDescends<N, T>(root: N, h: Heap<N, T>, n: N, key: string, leaf: N, value: Option<T>, m: N, m': N)
    requires Shape(root, h)
    requires n in h && h[n].path < key && key[|h[n].path|] !in h[n].children
    requires leaf !in h && !HasNode(h, key)
    requires m in WithLeaf(h, n, key, leaf, value) && m' in WithLeaf(h, n, key, leaf, value)
    ensures Descends(WithLeaf(h, n, key, leaf, value), m, m')
  {
    var g := WithLeaf(h, n, key, leaf, value);
    if m == leaf {
      if m' != leaf {
        assert Descends(h, n, m');
      }
    } else if m' == leaf {
      if h[m].path < key {
        AboveLeaf(root, h, n, key, m);
        assert Descends(h, m, n);
        assert Linked(h, m);
      }
    } else {
      assert Descends(h, m, m');
      assert Linked(h, m);
    }
  }

  lemma LeafValues<N, T>(root: N, h: Heap<N, T>, items: map<string, Option<T>>, n: N, key: string, leaf: N,
                         value: Option<T>)
    requires Values(h, items)
    requires n in h && h[n].path < key
    requires leaf !in h && !HasNode(h, key)
    ensures key !in items
    ensures Values(WithLeaf(h, n, key, leaf, value), items[key := value])
  {
    NoNodeNoItem(h, items, key);
    var g, items' := WithLeaf(h, n, key, leaf, value), items[key := value];
    forall m | m in g
      ensures ValueOk(g, items', m)
    {
      if m != leaf {
        assert ValueOk(h, items, m);
        assert !Spells(h, m, key);
      }
    }
    forall k | k in items'
      ensures HasNode(g, k)
    {
      if k == key {
        assert Spells(g, leaf, k);
      } else {
        assert HasNode(h, k);
        var m :| m in h && Spells(h, m, k);
        assert Spells(g, m, k);
      }
    }
  }

  /** Updates that only add nodes and children keep every old node needed. */
  lemma StillCompressed<N, T>(root: N, h: Heap<N, T>, items: map<string, Option<T>>, g: Heap<N, T>,
                              items': map<string, Option<T>>)
    requires Compressed(root, h, items)
    requires forall k :: k in items ==> k in items'
    requires forall m :: m in h ==> m in g && g[m].path == h[m].path && |g[m].children| >= |h[m].children|
    requires forall m :: m in g && m !in h ==> Needed(root, g, items', m)
    ensures Compressed(root, g, items')
  {
    forall m | m in g
      ensures Needed(root, g, items', m)
    {
      if m in h {
        assert Needed(root, h, items, m);
      }
    }
  }

  lemma NoNodeBelow<N, T>(root: N, h: Heap<N, T>, n: N, key: string)
    requires Shape(root, h)
    requires n in h && h[n].path < key
    requires key[|h[n].path|] !in h[n].children
             || h[n].children[key[|h[n].path|]] !in h
             || !(h[h[n].children[key[|h[n].path|]]].path <= key)
    ensures !HasNode(h, key)
  {
    forall m | m in h
      ensures !Spells(h, m, key)
    {
      DeadEnd(root, h, n, key, m);
    }
  }

  /** Insert case 1: no child for the next character. */
  lemma AddLeaf<N, T>(root: N, h: Heap<N, T>, items: map<string, Option<T>>, n: N, key: string, leaf: N,
                      value: Option<T>)
    requires RadixTree(root, h, items)
    requires n in h && h[n].path < key && key[|h[n].path|] !in h[n].children
    requires leaf !in h
    ensures RadixTree(root, WithLeaf(h, n, key, leaf, value), items[key := value])
  {
    var g, items' := WithLeaf(h, n, key, leaf, value), items[key := value];
    hide Shape, Values, Compressed, HasNode;
    NoNodeBelow(root, h, n, key);
    LeafShape(root, h, n, key, leaf, value);
    LeafValues(root, h, items, n, key, leaf, value);
    LeafCompressed(root, h, items, n, key, leaf, value);
  }

  lemma LeafCompressed<N, T>(root: N, h: Heap<N, T>, items: map<string, Option<T>>, n: N, key: string, leaf: N,
                             value: Option<T>)
    requires Compressed(root, h, items)
    requires n in h && h[n].path < key && leaf !in h
    ensures Compressed(root, WithLeaf(h, n, key, leaf, value), items[key := value])
  {
    hide Compressed;
    var g, items' := WithLeaf(h, n, key, leaf, value), items[key := value];
    SetSize(h[n].children, key[|h[n].path|], leaf);
    assert Needed(root, g, items', leaf);
    StillCompressed(root, h, items, g, items');
  }

  // ---- splitting an edge ----

  /** Node `mid` is put on the edge from n to `child`, `cp` characters down. */
  ghost function Split<N, T>(h: Heap<N, T>, n: N, child: N, mid: N, cp: nat): Heap<N, T>
    requires n in h && child in h && 0 < cp < |h[child].edge|
  {
    var edge := h[child].edge;
    h[n := h[n].(children := h[n].children[edge[0] := mid])]
     [child := h[child].(edge := edge[cp..])]
     [mid := NodeRec(h[n].path + edge[..cp], edge[..cp], None, map[edge[cp] := child])]
  }

  ghost predicate CanSplit<N, T>(root: N, h: Heap<N, T>, n: N, child: N, mid: N, cp: nat) {
    && Shape(root, h)
    && n in h && child in h && mid !in h && n != child
    && 0 < cp < |h[child].edge|
    && h[child].edge[0] in h[n].children
    && h[n].children[h[child].edge[0]] == child
    && h[child].path == h[n].path + h[child].edge
  }

  /** Between n and its child nothing is spelled. */
  lemma NothingBetween<N, T>(root: N, h: Heap<N, T>, n: N, child: N, mid: N, cp: nat, m: N)
    requires CanSplit(root, h, n, child, mid, cp)
    requires m in h
    ensures h[m].path != h[n].path + h[child].edge[..cp]
    ensures h[m].path < h[n].path + h[child].edge[..cp] ==> m == n || h[m].path < h[n].path
    ensures h[n].path + h[child].edge[..cp] < h[m].path ==> h[child].path <= h[m].path
  {
    var p, edge := h[n].path, h[child].edge;
    var q := p + edge[..cp];
    assert Descends(h, n, m) && Apart(h, n, m);
    if p < h[m].path && (q <= h[m].path || h[m].path <= q) {
      assert h[m].path[|p|] == q[|p|] == edge[0];
    }
    if h[m].path < q && |h[m].path| >= |p| {
      assert p <= h[m].path;
    }
  }

  lemma SplitLinked<N, T>(root: N, h: Heap<N, T>, n: N, child: N, mid: N, cp: nat, m: N)
    requires CanSplit(root, h, n, child, mid, cp)
    requires m in Split(h, n, child, mid, cp)
    ensures Linked(Split(h, n, child, mid, cp), m)
  {
    var g, edge := Split(h, n, child, mid, cp), h[child].edge;
    assert edge == edge[..cp] + edge[cp..];
    assert h[child].path == g[mid].path + edge[cp..];
    if m != mid {
      assert Linked(h, m);
      forall c | c in h[m].children
        ensures (m == n && c == edge[0]) || h[m].children[c] != child
      {
        if h[m].children[c] == child {
          OneParent(root, h, n, child, mid, cp, m, c);
        }
      }
    }
  }

  lemma OneParent<N, T>(root: N, h: Heap<N, T>, n: N, child: N, mid: N, cp: nat, m: N, c: char)
    requires CanSplit(root, h, n, child, mid, cp)
    requires m in h && c in h[m].children && h[m].children[c] == child
    ensures m == n && c == h[child].edge[0]
  {
    var edge := h[child].edge;
    assert Linked(h, m);
    assert h[m].path + edge == h[n].path + edge;
    assert |h[m].path| == |h[n].path|;
    assert (h[m].path + edge)[..|h[m].path|] == h[m].path;
    assert (h[n].path + edge)[..|h[n].path|] == h[n].path;
    assert Apart(h, m, n);
  }

  lemma SplitDescends<N, T>(root: N, h: Heap<N, T>, n: N, child: N, mid: N, cp: nat, m: N, m': N)
    requires CanSplit(root, h, n, child, mid, cp)
    requires m in Split(h, n, child, mid, cp) && m' in Split(h, n, child, mid, cp)
    ensures Descends(Split(h, n, child, mid, cp), m, m')
  {
    var g, edge := Split(h, n, child, mid, cp), h[child].edge;
    var q := h[n].path + edge[..cp];
    if m == mid {
      if m' != mid {
        NothingBetween(root, h, n, child, mid, cp, m');
        assert h[child].path[|q|] == edge[cp];
      }
    } else if m' == mid {
      NothingBetween(root, h, n, child, mid, cp, m);
      if h[m].path < h[n].path {
        assert Descends(h, m, n);
        assert Linked(h, m);
      }
    } else {
      SplitDescendsOld(root, h, n, child, mid, cp, m, m');
    }
  }

  lemma SplitDescendsOld<N, T>(root: N, h: Heap<N, T>, n: N, child: N, mid: N, cp: nat, m: N, m': N)
    requires CanSplit(root, h, n, child, mid, cp)
    requires m in h && m' in h
    ensures Descends(Split(h, n, child, mid, cp), m, m')
  {
    var edge := h[child].edge;
    assert Descends(h, m, m');
    assert Linked(h, m);
    assert h[n].path + edge[..cp] <= h[child].path;
  }

  lemma SplitShape<N, T>(root: N, h: Heap<N, T>, n: N, child: N, mid: N, cp: nat)
    requires CanSplit(root, h, n, child, mid, cp)
    ensures Shape(root, Split(h, n, child, mid, cp))
  {
    var g := Split(h, n, child, mid, cp);
    forall m | m in g
      ensures Linked(g, m)
    {
      SplitLinked(root, h, n, child, mid, cp, m);
    }
    forall m, m' | m in g && m' in g
      ensures Apart(g, m, m')
    {
      if m != mid && m' != mid {
        assert Apart(h, m, m');
      } else if m != mid {
        NothingBetween(root, h, n, child, mid, cp, m);
      } else if m' != mid {
        NothingBetween(root, h, n, child, mid, cp, m');
      }
    }
    forall m, m' | m in g && m' in g
      ensures Descends(g, m, m')
    {
      SplitDescends(root, h, n, child, mid, cp, m, m');
    }
  }

  lemma SplitValues<N, T>(root: N, h: Heap<N, T>, items: map<string, Option<T>>, n: N, child: N, mid: N, cp: nat)
    requires CanSplit(root, h, n, child, mid, cp)
    requires Values(h, items)
    ensures h[n].path + h[child].edge[..cp] !in items
    ensures Values(Split(h, n, child, mid, cp), items)
  {
    var g := Split(h, n, child, mid, cp);
    var q := h[n].path + h[child].edge[..cp];
    assert !HasNode(h, q) by {
      forall m | m in h
        ensures !Spells(h, m, q)
      {
        NothingBetween(root, h, n, child, mid, cp, m);
      }
    }
    NoNodeNoItem(h, items, q);
    forall m | m in g
      ensures ValueOk(g, items, m)
    {
      if m != mid {
        assert ValueOk(h, items, m);
      }
    }
    forall k | k in items
      ensures HasNode(g, k)
    {
      assert HasNode(h, k);
      var m :| m in h && Spells(h, m, k);
      assert Spells(g, m, k);
    }
  }

  /** Insert case 2: the key ends inside an edge, so the new middle node carries its value. */
  lemma SplitWithValue<N, T>(root: N, h: Heap<N, T>, items: map<string, Option<T>>, n: N, child: N, mid: N, cp: nat,
                             key: string, value: Option<T>)
    requires RadixTree(root, h, items) && CanSplit(root, h, n, child, mid, cp)
    requires key == h[n].path + h[child].edge[..cp]
    ensures var g := Split(h, n, child, mid, cp);
            RadixTree(root, g[mid := g[mid].(value := value)], items[key := value])
  {
    hide Shape, Values, Compressed;
    var g := Split(h, n, child, mid, cp);
    var f, items' := g[mid := g[mid].(value := value)], items[key := value];
    SplitShape(root, h, n, child, mid, cp);
    SplitValues(root, h, items, n, child, mid, cp);
    assert Spells(g, mid, key);
    SetValueShape(root, g, mid, value);
    SetValueValues(root, g, items, mid, key, value);
    SplitValueCompressed(root, h, items, n, child, mid, cp, key, value);
  }

  lemma SplitValueCompressed<N, T>(root: N, h: Heap<N, T>, items: map<string, Option<T>>, n: N, child: N, mid: N,
                                   cp: nat, key: string, value: Option<T>)
    requires Compressed(root, h, items) && CanSplit(root, h, n, child, mid, cp)
    requires key == h[n].path + h[child].edge[..cp]
    ensures var g := Split(h, n, child, mid, cp);
            Compressed(root, g[mid := g[mid].(value := value)], items[key := value])
  {
    hide Compressed, Shape;
    var g := Split(h, n, child, mid, cp);
    var f, items' := g[mid := g[mid].(value := value)], items[key := value];
    assert Needed(root, f, items', mid);
    SetSize(h[n].children, h[child].edge[0], mid);
    StillCompressed(root, h, items, f, items');
  }

  /** Insert case 3: the key leaves an edge midway, so the middle node branches to the old child and a new leaf. */
  lemma SplitWithLeaf<N, T>(root: N, h: Heap<N, T>, items: map<string, Option<T>>, n: N, child: N, mid: N, cp: nat,
                            key: string, leaf: N, value: Option<T>)
    requires RadixTree(root, h, items) && CanSplit(root, h, n, child, mid, cp)
    requires h[n].path + h[child].edge[..cp] < key
    requires key[|h[n].path| + cp] != h[child].edge[cp]
    requires leaf !in h && leaf != mid
    ensures RadixTree(root, WithLeaf(Split(h, n, child, mid, cp), mid, key, leaf, value), items[key := value])
  {
    var g := Split(h, n, child, mid, cp);
    var f, items' := WithLeaf(g, mid, key, leaf, value), items[key := value];
    SplitShape(root, h, n, child, mid, cp);
    SplitValues(root, h, items, n, child, mid, cp);
    NoNodeBelow(root, g, mid, key);
    LeafShape(root, g, mid, key, leaf, value);
    LeafValues(root, g, items, mid, key, leaf, value);
    hide Shape, Values, Compressed, HasNode;
    SplitLeafCompressed(root, h, items, n, child, mid, cp, key, leaf, value);
  }

  lemma SplitLeafCompressed<N, T>(root: N, h: Heap<N, T>, items: map<string, Option<T>>, n: N, child: N, mid: N,
                                  cp: nat, key: string, leaf: N, value: Option<T>)
    requires Compressed(root, h, items) && CanSplit(root, h, n, child, mid, cp)
    requires h[n].path + h[child].edge[..cp] < key
    requires key[|h[n].path| + cp] != h[child].edge[cp]
    requires leaf !in h && leaf != mid
    ensures Compressed(root, WithLeaf(Split(h, n, child, mid, cp), mid, key, leaf, value), items[key := value])
  {
    hide Compressed, Shape;
    var g := Split(h, n, child, mid, cp);
    var f, items' := WithLeaf(g, mid, key, leaf, value), items[key := value];
    SetSize(h[n].children, h[child].edge[0], mid);
    SetSize(g[mid].children, key[|h[n].path| + cp], leaf);
    assert Needed(root, f, items', mid) && Needed(root, f, items', leaf);
    StillCompressed(root, h, items, f, items');
  }

  // ---- counting nodes ----

  /** The children of some nodes. */
  ghost function ChildrenOf<N, T>(h: Heap<N, T>, from: set<N>): set<N> {
    set n, c | n in from && n in h && c in h[n].children :: h[n].children[c]
  }

  /** A map under which no two keys share a value has as many values as keys. */
  lemma {:induction false} ValuesCount<K, V>(m: map<K, V>)
    requires forall a, b :: a in m && b in m && m[a] == m[b] ==> a == b
    ensures |m.Values| == |m|
    decreases |m|
  {
    if m == map[] {
      assert m.Values == {};
    } else {
      var k :| k in m;
      var rest := m - {k};
      assert rest.Keys == m.Keys - {k};
      ValuesCount(rest);
      forall v ensures v in m.Values <==> v in rest.Values || v == m[k] {
        if v in m.Values && v != m[k] {
          var a :| a in m && m[a] == v;
          assert a in rest && rest[a] == v;
        }
        if v in rest.Values {
          var a :| a in rest && rest[a] == v;
          assert a in m && m[a] == v;
        }
        assert k in m && m[k] in m.Values;
      }
      assert m[k] !in rest.Values;
      assert m.Values == rest.Values + {m[k]};
    }
  }

  lemma ChildCount<N, T>(root: N, h: Heap<N, T>, n: N)
    requires Shape(root, h) && n in h
    ensures |ChildrenOf(h, {n})| == |h[n].children|
  {
    hide Descends, Apart;
    assert Linked(h, n);
    ValuesCount(h[n].children);
    assert ChildrenOf(h, {n}) == h[n].children.Values;
  }

  /** No node has two parents. */
  lemma ChildrenApart<N, T>(root: N, h: Heap<N, T>, from: set<N>, n: N)
    requires Shape(root, h) && from <= h.Keys && n in h && n !in from
    ensures ChildrenOf(h, from) !! ChildrenOf(h, {n})
  {
    hide Descends;
    forall m | m in ChildrenOf(h, from) && m in ChildrenOf(h, {n}) ensures false {
      var p, c :| p in from && p in h && c in h[p].children && h[p].children[c] == m;
      var d :| d in h[n].children && h[n].children[d] == m;
      assert Linked(h, p) && Linked(h, n) && Apart(h, p, n);
      SamePrefix(h[p].path, h[n].path, h[m].edge);
    }
  }

  lemma SamePrefix(a: string, b: string, edge: string)
    requires a + edge == b + edge
    ensures a == b
  {
    assert |a| == |b|;
    assert (a + edge)[..|a|] == a && (b + edge)[..|b|] == b;
  }

  /** Nodes with two children or more have at least twice as many children as they number. */
  lemma {:induction false} BranchesCount<N, T>(root: N, h: Heap<N, T>, from: set<N>)
    requires Shape(root, h) && from <= h.Keys
    requires forall n :: n in from ==> |h[n].children| >= 2
    ensures |ChildrenOf(h, from)| >= 2 * |from|
    decreases |from|
  {
    hide Shape;
    if from == {} {
      assert ChildrenOf(h, from) == {};
    } else {
      var n :| n in from;
      var rest := from - {n};
      BranchesCount(root, h, rest);
      ChildCount(root, h, n);
      ChildrenApart(root, h, rest, n);
      assert ChildrenOf(h, from) == ChildrenOf(h, rest) + ChildrenOf(h, {n});
    }
  }

  /** Every child is a node below the root. */
  lemma ChildrenBelow<N, T>(root: N, h: Heap<N, T>, from: set<N>)
    requires Shape(root, h)
    ensures ChildrenOf(h, from) <= h.Keys - {root}
  {
    hide Descends, Apart;
    forall m | m in ChildrenOf(h, from) ensures m in h && m != root {
      var n, c :| n in from && n in h && c in h[n].children && h[n].children[c] == m;
      assert Linked(h, n);
    }
  }

  /** Different nodes spell different keys. */
  lemma {:induction false} SpelledCount<N, T>(root: N, h: Heap<N, T>, items: map<string, Option<T>>, from: set<N>)
    requires Shape(root, h) && from <= h.Keys
    requires forall n :: n in from ==> h[n].path in items
    ensures |from| <= |items|
    decreases |from|
  {
    hide Descends, Linked;
    if from != {} {
      var n :| n in from;
      var key := h[n].path;
      var fewer := items - {key};
      forall m | m in from - {n} ensures h[m].path in fewer {
        assert Apart(h, n, m);
      }
      SpelledCount(root, h, fewer, from - {n});
      assert fewer.Keys == items.Keys - {key};
    } else {
      assert |items| >= 0;
    }
  }

  /** A root with anything below it has a child. */
  lemma RootBranches<N, T>(root: N, h: Heap<N, T>, n: N)
    requires Shape(root, h) && n in h && n != root
    ensures |ChildrenOf(h, {root})| >= 1
  {
    hide Linked;
    assert Apart(h, root, n) && Descends(h, root, n);
    var c := h[n].path[0];
    assert h[root].path < h[n].path;
    assert h[root].children[c] in ChildrenOf(h, {root});
  }

  /** Valueless nodes below the root are outnumbered by the items. */
  lemma BranchesFewerThanItems<N, T>(root: N, h: Heap<N, T>, items: map<string, Option<T>>, n: N)
    requires RadixTree(root, h, items) && n in h && n != root
    ensures |h| - 1 <= 2 * |items| - 1
  {
    hide Shape;
    var named := set m | m in h && m != root && h[m].path in items;
    var branching := set m | m in h && m != root && h[m].path !in items;
    forall m | m in branching ensures |h[m].children| >= 2 {
      assert Needed(root, h, items, m);
    }
    assert h.Keys - {root} == named + branching;
    RootIn(root, h);
    BranchesCount(root, h, branching);
    RootBranches(root, h, n);
    ChildrenApart(root, h, branching, root);
    ChildrenBelow(root, h, branching);
    ChildrenBelow(root, h, {root});
    Probing.SubsetSize(ChildrenOf(h, branching) + ChildrenOf(h, {root}), h.Keys - {root});
    SpelledCount(root, h, items, named);
    assert |h| == |h.Keys| == |h.Keys - {root}| + 1;
  }

  lemma RootIn<N, T>(root: N, h: Heap<N, T>)
    requires Shape(root, h)
    ensures root in h
  {
  }

  /** In a tree of real values, valueless inner nodes branch, and there are fewer than two nodes per key. */
  lemma TreeIsCompact<N, T>(root: N, h: Heap<N, T>, items: map<string, Option<T>>, n: N)
    requires RadixTree(root, h, items)
    requires forall k :: k in items ==> items[k].Some?
    requires n in h && n != root
    ensures h[n].value.None? ==> |h[n].children| >= 2
    ensures items != map[] && |h| - 1 <= 2 * |items| - 1
  {
    assert ValueOk(h, items, n) && Needed(root, h, items, n);
    assert n in h.Keys - {root};
    BranchesFewerThanItems(root, h, items, n);
  }
}
