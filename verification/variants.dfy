/** The grouping projector: `get_variants_list` walks a product's subtree and lists one
 *  `{variant_set: variant}` pair per childless node, and `get_variants_dict` gathers those
 *  pairs into an insertion-ordered dictionary from variant-set path to variant names. */
module Variants {
  import opened Names
  import opened Outline
  import opened TreeNodes

  /** The single-entry dictionary `{variant_set: variant}` that `get_variants_list` emits. */
  datatype Variant = Variant(variantSet: string, name: string)

  /** One item of the dictionary `get_variants_dict` returns. Python dictionaries keep
   *  insertion order, so the dictionary is a sequence of these with distinct paths. */
  datatype VariantSet = VariantSet(path: string, variants: seq<string>)

  /** `'.'.join([prefix, name])`. Kept in this two-piece form, rather than as `Join` of a
   *  two-element list, so that proofs about keys see the concatenation directly;
   *  `DotJoinIsJoin` shows the two agree. */
  function DotJoin(prefix: string, name: string): string
  {
    prefix + "." + name
  }

  lemma DotJoinIsJoin(prefix: string, name: string)
    ensures DotJoin(prefix, name) == Join([prefix, name], '.')
  {
    assert [prefix, name][1..] == [name];
  }

  // ---------------------------------------------------------------------------------------
  // get_variants_list

  /** `get_variants_list(node, prefix)` on the tree `node` stands for. */
  function VariantsList(node: Tree, prefix: string): seq<Variant>
    decreases node, 1
  {
    ChildVariants(node.children, prefix, node.name)
  }

  /** The loop of `get_variants_list` over `children` of the node called `parentName`. */
  function ChildVariants(children: seq<Tree>, prefix: string, parentName: string): seq<Variant>
    decreases children, 0
  {
    if children == [] then []
    else VariantsOfChild(children[0], prefix, parentName) + ChildVariants(children[1..], prefix, parentName)
  }

  /** One iteration: a childless child is a variant of the set keyed by the joined prefix
   *  and parent name; any other child is walked with that key stripped of dots as prefix. */
  function VariantsOfChild(child: Tree, prefix: string, parentName: string): seq<Variant>
    decreases child, 2
  {
    if child.children == [] then [Variant(DotJoin(prefix, parentName), child.name)]
    else VariantsList(child, Strip(DotJoin(prefix, parentName), '.'))
  }

  /** One more child of a prefix of the children adds that child's variants. */
  lemma ChildVariantsPrefix(children: seq<Tree>, i: nat, prefix: string, parentName: string)
    requires i < |children|
    ensures ChildVariants(children[..i + 1], prefix, parentName)
         == ChildVariants(children[..i], prefix, parentName) + VariantsOfChild(children[i], prefix, parentName)
  {
    assert children[..i + 1] == children[..i] + [children[i]];
    ChildVariantsSnoc(children[..i], children[i], prefix, parentName);
  }

  lemma {:induction false} ChildVariantsSnoc(children: seq<Tree>, child: Tree, prefix: string, parentName: string)
    ensures ChildVariants(children + [child], prefix, parentName)
         == ChildVariants(children, prefix, parentName) + VariantsOfChild(child, prefix, parentName)
  {
    var all := children + [child];
    if children == [] {
      assert all[1..] == [];
    } else {
      assert all[0] == children[0] && all[1..] == children[1..] + [child];
      ChildVariantsSnoc(children[1..], child, prefix, parentName);
    }
  }

  /** The names of the childless nodes of a listing, in order. */
  function LeafNames(ns: seq<Tree>): seq<string>
  {
    if ns == [] then []
    else (if ns[0].children == [] then [ns[0].name] else []) + LeafNames(ns[1..])
  }

  lemma {:induction false} LeafNamesAppend(a: seq<Tree>, b: seq<Tree>)
    ensures LeafNames(a + b) == LeafNames(a) + LeafNames(b)
  {
    if a == [] {
      assert a + b == b;
    } else {
      assert (a + b)[0] == a[0] && (a + b)[1..] == a[1..] + b;
      LeafNamesAppend(a[1..], b);
    }
  }

  /** The variant names of a listing of pairs. */
  function VariantNames(vs: seq<Variant>): (names: seq<string>)
    ensures |names| == |vs|
    ensures forall i :: 0 <= i < |vs| ==> names[i] == vs[i].name
  {
    seq(|vs|, i requires 0 <= i < |vs| => vs[i].name)
  }

  /** `get_variants_list` emits exactly one pair per childless node strictly below the node
   *  it starts from, in depth-first order, and nothing for a childless start. */
  lemma {:induction false} VariantsListLeaves(t: Tree, prefix: string)
    ensures VariantNames(VariantsList(t, prefix)) == LeafNames(NodesOf(t.children))
    ensures t.children == [] ==> VariantsList(t, prefix) == []
    decreases t, 1
  {
    ChildVariantsLeaves(t.children, prefix, t.name);
  }

  lemma {:induction false} ChildVariantsLeaves(children: seq<Tree>, prefix: string, parentName: string)
    ensures VariantNames(ChildVariants(children, prefix, parentName)) == LeafNames(NodesOf(children))
    decreases children, 0
  {
    if children != [] {
      var c := children[0];
      OneChildLeaves(c, prefix, parentName);
      ChildVariantsLeaves(children[1..], prefix, parentName);
      LeafNamesAppend(Nodes(c), NodesOf(children[1..]));
      VariantNamesAppend(VariantsOfChild(c, prefix, parentName), ChildVariants(children[1..], prefix, parentName));
    }
  }

  lemma {:induction false} OneChildLeaves(c: Tree, prefix: string, parentName: string)
    ensures VariantNames(VariantsOfChild(c, prefix, parentName)) == LeafNames(Nodes(c))
    decreases c, 2
  {
    LeafNamesAppend([c], NodesOf(c.children));
    assert [c][1..] == [];
    if c.children != [] {
      VariantsListLeaves(c, Strip(DotJoin(prefix, parentName), '.'));
      assert LeafNames([c]) == [];
    } else {
      assert LeafNames([c]) == [c.name];
    }
  }

  lemma VariantNamesAppend(a: seq<Variant>, b: seq<Variant>)
    ensures VariantNames(a + b) == VariantNames(a) + VariantNames(b)
  {
  }

  // ---------------------------------------------------------------------------------------
  // Shape of the variant-set keys

  /** Every name is non-empty and neither starts nor ends with a dot. */
  ghost predicate WellNamed(t: Tree)
    decreases t
  {
    Unpadded(t.name, '.') &&
    forall i :: 0 <= i < |t.children| ==> WellNamed(t.children[i])
  }

  /** The key of the leaves whose parent is the last of `chain`, the names from the product
   *  down to that parent: `.Product` right under the product, `Product.Set.Subset` deeper. */
  function PathKey(chain: seq<string>): string
    requires chain != []
  {
    if |chain| == 1 then "." + chain[0] else Join(chain, '.')
  }

  /** The leaves below `t`, each paired with the key of its ancestors' names; `chain` names
   *  the nodes from the product down to `t`. */
  function ChainVariants(t: Tree, chain: seq<string>): seq<Variant>
    requires chain != []
    decreases t, 1
  {
    ChainVariantsOf(t.children, chain)
  }

  function ChainVariantsOf(ts: seq<Tree>, chain: seq<string>): seq<Variant>
    requires chain != []
    decreases ts, 0
  {
    if ts == [] then []
    else
      (if ts[0].children == [] then [Variant(PathKey(chain), ts[0].name)]
       else ChainVariants(ts[0], chain + [ts[0].name]))
      + ChainVariantsOf(ts[1..], chain)
  }

  /** The key joined for a leaf is `PathKey` of its ancestors, and the prefix handed down is
   *  the dot-joined ancestors: the leading dot of a product-level key is stripped before it
   *  is passed on, nothing else is. */
  lemma {:induction false} VariantKeys(t: Tree, ancestors: seq<string>)
    requires WellNamed(t)
    requires forall i :: 0 <= i < |ancestors| ==> Unpadded(ancestors[i], '.')
    ensures VariantsList(t, Join(ancestors, '.')) == ChainVariants(t, ancestors + [t.name])
    decreases t, 1
  {
    ChildKeys(t.children, ancestors, t.name);
  }

  lemma {:induction false} ChildKeys(ts: seq<Tree>, ancestors: seq<string>, parentName: string)
    requires forall i :: 0 <= i < |ts| ==> WellNamed(ts[i])
    requires forall i :: 0 <= i < |ancestors| ==> Unpadded(ancestors[i], '.')
    requires Unpadded(parentName, '.')
    ensures ChildVariants(ts, Join(ancestors, '.'), parentName) == ChainVariantsOf(ts, ancestors + [parentName])
    decreases ts, 0
  {
    if ts != [] {
      var chain := ancestors + [parentName];
      var key := DotJoin(Join(ancestors, '.'), parentName);
      KeyOfChain(ancestors, parentName);
      if ts[0].children != [] {
        VariantKeys(ts[0], chain);
      }
      ChildKeys(ts[1..], ancestors, parentName);
    }
  }

  /** The key joined under a parent is `PathKey` of the chain ending in it, and stripping
   *  its dots gives the chain joined by dots. */
  lemma KeyOfChain(ancestors: seq<string>, parentName: string)
    requires forall i :: 0 <= i < |ancestors| ==> Unpadded(ancestors[i], '.')
    requires Unpadded(parentName, '.')
    ensures DotJoin(Join(ancestors, '.'), parentName) == PathKey(ancestors + [parentName])
    ensures Strip(DotJoin(Join(ancestors, '.'), parentName), '.') == Join(ancestors + [parentName], '.')
  {
    if ancestors == [] {
      KeyOfProduct(parentName);
      assert ancestors + [parentName] == [parentName];
    } else {
      KeyOfDeeperChain(ancestors, parentName);
    }
  }

  /** Right under the product the key is `.Product`, and stripped it is the product name. */
  lemma KeyOfProduct(product: string)
    requires Unpadded(product, '.')
    ensures DotJoin(Join([], '.'), product) == ['.'] + product
    ensures PathKey([product]) == ['.'] + product
    ensures Strip(['.'] + product, '.') == product
  {
    var key := ['.'] + product;
    assert Join([], '.') == [];
    assert DotJoin([], product) == key;
    assert PathKey([product]) == key;
    StripLeading(product, '.');
  }

  /** Deeper down the key is the chain joined by dots, which has no dot at either end. */
  lemma KeyOfDeeperChain(ancestors: seq<string>, parentName: string)
    requires ancestors != []
    requires forall i :: 0 <= i < |ancestors| ==> Unpadded(ancestors[i], '.')
    requires Unpadded(parentName, '.')
    ensures DotJoin(Join(ancestors, '.'), parentName) == Join(ancestors + [parentName], '.')
    ensures PathKey(ancestors + [parentName]) == Join(ancestors + [parentName], '.')
    ensures Unpadded(Join(ancestors + [parentName], '.'), '.')
  {
    var chain := ancestors + [parentName];
    JoinSnoc(ancestors, parentName, '.');
    forall i | 0 <= i < |chain|
      ensures Unpadded(chain[i], '.')
    {
      if i < |ancestors| {
        assert chain[i] == ancestors[i];
      }
    }
    JoinUnpadded(chain, '.');
  }

  // ---------------------------------------------------------------------------------------
  // get_variants_dict

  /** The keys of a dictionary, in insertion order. */
  function Paths(d: seq<VariantSet>): (ps: seq<string>)
    ensures |ps| == |d|
    ensures forall i :: 0 <= i < |d| ==> ps[i] == d[i].path
  {
    if d == [] then [] else [d[0].path] + Paths(d[1..])
  }

  /** The list stored under `path`, or the empty list a `defaultdict(list)` starts from. */
  function Lookup(d: seq<VariantSet>, path: string): seq<string>
  {
    if d == [] then []
    else if d[0].path == path then d[0].variants
    else Lookup(d[1..], path)
  }

  /** The number of variant names stored in a dictionary. */
  function Total(d: seq<VariantSet>): nat
  {
    if d == [] then 0 else |d[0].variants| + Total(d[1..])
  }

  predicate Distinct(ps: seq<string>)
  {
    forall i, j :: 0 <= i < j < |ps| ==> ps[i] != ps[j]
  }

  /** `variant_set_dict[key].append(value)`: the value goes at the end of its key's list; a
   *  new key is added after all existing ones. */
  function Append(d: seq<VariantSet>, v: Variant): (r: seq<VariantSet>)
    ensures Paths(r) == if v.variantSet in Paths(d) then Paths(d) else Paths(d) + [v.variantSet]
    ensures forall path :: Lookup(r, path) == Lookup(d, path) + (if path == v.variantSet then [v.name] else [])
    ensures Total(r) == Total(d) + 1
  {
    if d == [] then [VariantSet(v.variantSet, [v.name])]
    else if d[0].path == v.variantSet then
      var r := [d[0].(variants := d[0].variants + [v.name])] + d[1..];
      AppendFound(d, v, r);
      r
    else
      var r := [d[0]] + Append(d[1..], v);
      AppendBehind(d, v, Append(d[1..], v), r);
      r
  }

  /** `Append` where the first key is the one appended to. */
  lemma AppendFound(d: seq<VariantSet>, v: Variant, r: seq<VariantSet>)
    requires d != [] && d[0].path == v.variantSet
    requires r == [d[0].(variants := d[0].variants + [v.name])] + d[1..]
    ensures Paths(r) == Paths(d) && v.variantSet in Paths(d)
    ensures forall path :: Lookup(r, path) == Lookup(d, path) + (if path == v.variantSet then [v.name] else [])
    ensures Total(r) == Total(d) + 1
  {
    assert Paths(d)[0] == v.variantSet;
    assert r[1..] == d[1..];
  }

  /** `Append` past a first key that is not the one appended to. */
  lemma AppendBehind(d: seq<VariantSet>, v: Variant, tail: seq<VariantSet>, r: seq<VariantSet>)
    requires d != [] && d[0].path != v.variantSet && r == [d[0]] + tail
    requires Paths(tail) == if v.variantSet in Paths(d[1..]) then Paths(d[1..]) else Paths(d[1..]) + [v.variantSet]
    requires forall path :: Lookup(tail, path) == Lookup(d[1..], path) + (if path == v.variantSet then [v.name] else [])
    requires Total(tail) == Total(d[1..]) + 1
    ensures Paths(r) == if v.variantSet in Paths(d) then Paths(d) else Paths(d) + [v.variantSet]
    ensures forall path :: Lookup(r, path) == Lookup(d, path) + (if path == v.variantSet then [v.name] else [])
    ensures Total(r) == Total(d) + 1
  {
    assert r[1..] == tail;
    PathsBehind(d, v.variantSet, tail, r);
    forall path
      ensures Lookup(r, path) == Lookup(d, path) + (if path == v.variantSet then [v.name] else [])
    {
      if d[0].path == path {
        assert Lookup(r, path) == d[0].variants == Lookup(d, path);
      } else {
        assert Lookup(r, path) == Lookup(tail, path);
      }
    }
  }

  /** The keys after `Append` past a first key that is not the one appended to. */
  lemma PathsBehind(d: seq<VariantSet>, key: string, tail: seq<VariantSet>, r: seq<VariantSet>)
    requires d != [] && d[0].path != key && r == [d[0]] + tail
    requires Paths(tail) == if key in Paths(d[1..]) then Paths(d[1..]) else Paths(d[1..]) + [key]
    ensures Paths(r) == if key in Paths(d) then Paths(d) else Paths(d) + [key]
  {
    var rest := Paths(d[1..]);
    assert r[1..] == tail;
    if key !in rest {
      assert [d[0].path] + (rest + [key]) == ([d[0].path] + rest) + [key];
    }
  }

  /** The keys of a listing of pairs, with repeats. */
  function Keys(vs: seq<Variant>): (ks: seq<string>)
    ensures |ks| == |vs|
    ensures forall i :: 0 <= i < |vs| ==> ks[i] == vs[i].variantSet
  {
    seq(|vs|, i requires 0 <= i < |vs| => vs[i].variantSet)
  }

  /** Each key once, in the order of its first appearance. */
  function FirstSeen(ks: seq<string>): (r: seq<string>)
    ensures forall k :: k in r <==> k in ks
    ensures Distinct(r)
  {
    if ks == [] then []
    else
      var earlier := FirstSeen(ks[..|ks| - 1]);
      var k := ks[|ks| - 1];
      assert ks == ks[..|ks| - 1] + [k];
      if k in ks[..|ks| - 1] then earlier else earlier + [k]
  }

  /** The names listed under `path`, in listing order. */
  function ValuesFor(vs: seq<Variant>, path: string): seq<string>
  {
    if vs == [] then []
    else
      var v := vs[|vs| - 1];
      ValuesFor(vs[..|vs| - 1], path) + (if v.variantSet == path then [v.name] else [])
  }

  /** `get_variants_dict` after the listing: the dictionary its loop leaves. */
  function Collate(vs: seq<Variant>): seq<VariantSet>
  {
    if vs == [] then [] else Append(Collate(vs[..|vs| - 1]), vs[|vs| - 1])
  }

  /** The collated dictionary lists each key once, in first-seen order; each key's list
   *  holds the names listed under it in listing order; every listed name is kept once. */
  lemma {:induction false} CollateSpec(vs: seq<Variant>)
    ensures Paths(Collate(vs)) == FirstSeen(Keys(vs))
    ensures Distinct(Paths(Collate(vs)))
    ensures forall path :: Lookup(Collate(vs), path) == ValuesFor(vs, path)
    ensures Total(Collate(vs)) == |vs|
    decreases |vs|
  {
    if vs != [] {
      var earlier := vs[..|vs| - 1];
      assert Keys(earlier) == Keys(vs)[..|vs| - 1];
      CollateSpec(earlier);
    }
  }

  // ---------------------------------------------------------------------------------------
  // The imperative walk over TreeNode objects

  /** `get_variants_list`: the `for` loop over the node's children, recursing into every
   *  child that has children of its own. */
  method GetVariantsList(node: TreeNode, prefix: string) returns (variants: seq<Variant>)
    requires node.Valid()
    ensures variants == VariantsList(node.Value, prefix)
    decreases node.Repr
  {
    variants := [];
    ghost var kids := node.Value.children;
    for i := 0 to |node.children|
      invariant variants == ChildVariants(kids[..i], prefix, node.name)
    {
      var child := node.children[i];
      ChildVariantsPrefix(kids, i, prefix, node.name);
      assert child.Valid() && child.Value == kids[i];
      if child.children == [] {
        variants := variants + [Variant(DotJoin(prefix, node.name), child.name)];
      } else {
        var sub := GetVariantsList(child, Strip(DotJoin(prefix, node.name), '.'));
        variants := variants + sub;
      }
    }
    assert kids[..|kids|] == kids;
  }

  /** `get_variants_dict`: lists the product's variants, then appends each name to its key's
   *  list in a `defaultdict(list)`. */
  method GetVariantsDict(productNode: TreeNode) returns (d: seq<VariantSet>)
    requires productNode.Valid()
    ensures d == Collate(VariantsList(productNode.Value, ""))
  {
    var variants := GetVariantsList(productNode, "");
    d := [];
    for i := 0 to |variants|
      invariant d == Collate(variants[..i])
    {
      assert variants[..i + 1][..i] == variants[..i];
      d := Append(d, variants[i]);
    }
    assert variants[..|variants|] == variants;
  }

  // ---------------------------------------------------------------------------------------
  // Four-level outlines: product, variant sets, variants

  /** The pairs listing each of `leaves` under `key`, in order. */
  function LeafRow(key: string, leaves: seq<Tree>): (vs: seq<Variant>)
    ensures |vs| == |leaves|
    ensures forall i :: 0 <= i < |leaves| ==> vs[i] == Variant(key, leaves[i].name)
  {
    seq(|leaves|, i requires 0 <= i < |leaves| => Variant(key, leaves[i].name))
  }

  /** A node whose children are all childless lists each of them under one key. */
  lemma {:induction false} ChildVariantsOfLeaves(children: seq<Tree>, prefix: string, parentName: string)
    requires Leaves(children)
    ensures ChildVariants(children, prefix, parentName) == LeafRow(DotJoin(prefix, parentName), children)
  {
    if children != [] {
      ChildVariantsOfLeaves(children[1..], prefix, parentName);
      var key := DotJoin(prefix, parentName);
      assert LeafRow(key, children) == [Variant(key, children[0].name)] + LeafRow(key, children[1..]);
    }
  }

  /** Nodes none of which has children. */
  ghost predicate Leaves(ts: seq<Tree>)
  {
    forall j :: 0 <= j < |ts| ==> ts[j].children == []
  }

  /** Variant sets: nodes that have children, all of them childless. */
  ghost predicate LeafSets(sets: seq<Tree>)
  {
    forall i :: 0 <= i < |sets| ==> sets[i].children != [] && Leaves(sets[i].children)
  }

  /** The listing of a product of the fixed four-level shape: each variant set's variants,
   *  in order, under the key `Product.Set`. */
  function ExactDepthVariants(product: string, sets: seq<Tree>): seq<Variant>
  {
    if sets == [] then []
    else LeafRow(product + "." + sets[0].name, sets[0].children) + ExactDepthVariants(product, sets[1..])
  }

  /** On a four-level product (its children are variant sets) whose name has no dot at
   *  either end, the recursive walk lists exactly what the fixed four-level reading gives. */
  lemma ExactDepthAgrees(product: Tree)
    requires LeafSets(product.children) && Unpadded(product.name, '.')
    ensures VariantsList(product, "") == ExactDepthVariants(product.name, product.children)
  {
    KeyOfChain([], product.name);
    assert Join([product.name], '.') == product.name;
    ExactDepthSets(product.children, product.name);
  }

  lemma {:induction false} ExactDepthSets(sets: seq<Tree>, product: string)
    requires LeafSets(sets)
    requires Strip(DotJoin("", product), '.') == product
    ensures ChildVariants(sets, "", product) == ExactDepthVariants(product, sets)
  {
    if sets != [] {
      var first := sets[0];
      ChildVariantsOfLeaves(first.children, product, first.name);
      assert VariantsOfChild(first, "", product) == VariantsList(first, product);
      assert VariantsList(first, product) == LeafRow(product + "." + first.name, first.children);
      ExactDepthSets(sets[1..], product);
    }
  }

  /** Three pairs over two distinct keys collate to two entries, first key first. */
  lemma CollateTwoKeys(first: string, second: string, a: string, b: string, c: string)
    requires first != second
    ensures Collate([Variant(first, a), Variant(first, b), Variant(second, c)])
         == [VariantSet(first, [a, b]), VariantSet(second, [c])]
  {
    var v1, v2, v3 := Variant(first, a), Variant(first, b), Variant(second, c);
    var vs := [v1, v2, v3];
    var one, two := VariantSet(first, [a]), VariantSet(first, [a, b]);
    assert Collate([v1]) == [one] by {
      assert [v1][..0] == [];
    }
    assert Collate([v1, v2]) == [two] by {
      assert [v1, v2][..1] == [v1];
      assert [a] + [b] == [a, b];
      assert Append([one], v2) == [two] + [];
    }
    assert Collate(vs) == Append([two], v3) by {
      assert vs[..2] == [v1, v2];
    }
    assert Append([two], v3) == [two] + Append([], v3);
  }

  const AcmeListing: seq<Variant> :=
    [Variant("Widget.Color", "Red"), Variant("Widget.Color", "Blue"), Variant("Widget.Finish", "Matte")]

  /** The worked outline lists, for its product Widget, Red and Blue under the key
   *  `Widget.Color` and Matte under `Widget.Finish`, in document order. This holds for any
   *  product of that shape and those names, whatever their outline numbers. */
  lemma AcmeVariants(widget: Tree, color: Tree, finish: Tree, red: Tree, blue: Tree, matte: Tree)
    requires widget.name == "Widget" && widget.children == [color, finish]
    requires color.name == "Color" && color.children == [red, blue]
    requires finish.name == "Finish" && finish.children == [matte]
    requires red.name == "Red" && blue.name == "Blue" && matte.name == "Matte"
    requires red.children == [] && blue.children == [] && matte.children == []
    ensures VariantsList(widget, "") == AcmeListing
  {
    assert LeafSets(widget.children);
    assert Unpadded(widget.name, '.');
    ExactDepthAgrees(widget);
    AcmeRows(widget, color, finish, red, blue, matte);
  }

  /** The exact-depth reading of the worked product, row by row. */
  lemma AcmeRows(widget: Tree, color: Tree, finish: Tree, red: Tree, blue: Tree, matte: Tree)
    requires widget.name == "Widget" && widget.children == [color, finish]
    requires color.name == "Color" && color.children == [red, blue]
    requires finish.name == "Finish" && finish.children == [matte]
    requires red.name == "Red" && blue.name == "Blue" && matte.name == "Matte"
    ensures ExactDepthVariants(widget.name, widget.children) == AcmeListing
  {
    assert widget.name + "." + color.name == "Widget.Color";
    assert widget.name + "." + finish.name == "Widget.Finish";
    var row1, row2 := LeafRow("Widget.Color", [red, blue]), LeafRow("Widget.Finish", [matte]);
    assert row1 == AcmeListing[..2];
    assert row2 == AcmeListing[2..];
    assert widget.children[1..] == [finish] && [finish][1..] == [];
    assert ExactDepthVariants(widget.name, [finish]) == row2 + [];
    assert ExactDepthVariants(widget.name, widget.children) == row1 + ExactDepthVariants(widget.name, [finish]);
    assert AcmeListing == AcmeListing[..2] + AcmeListing[2..];
  }

  /** The listing above collates to the keys `Widget.Color` and `Widget.Finish`, in that
   *  order, holding Red, Blue and Matte. */
  lemma AcmeCollated()
    ensures Collate(AcmeListing) == [VariantSet("Widget.Color", ["Red", "Blue"]), VariantSet("Widget.Finish", ["Matte"])]
  {
    var first, second := "Widget.Color", "Widget.Finish";
    assert first[7] != second[7];
    CollateTwoKeys(first, second, "Red", "Blue", "Matte");
  }
}
