/** The names `create_level_variant_sets` derives from the tree and hands to the editor: the
 *  directory and path of each product's level variant sets asset, the display name of each
 *  variant set and the name of each variant. The editor calls themselves are not modelled;
 *  the names are collected in the order the calls would be made. */
module LevelVariantSets {
  import opened Names
  import opened Outline
  import opened TreeNodes
  import opened Variants

  /** The content directory the assets go under. */
  const DefaultLvsDirectory: string := "/Game"

  /** The directory of the assets: `/Game/<company>_LVS` with spaces underscored, or `/Game`
   *  when the root has an empty name. */
  function LvsDirectory(rootName: string): (dir: string)
    ensures |dir| >= 5 && dir[..5] == DefaultLvsDirectory
    ensures ' ' !in dir
    ensures rootName == "" ==> dir == DefaultLvsDirectory
    ensures rootName != "" ==> |dir| == |rootName| + 10 && dir[|dir| - 4..] == "_LVS"
    ensures rootName != "" ==> dir[5] == '/' && dir[6..|dir| - 4] == Underscored(rootName)
  {
    if rootName != "" then
      var dir := DefaultLvsDirectory + "/" + Underscored(rootName) + "_LVS";
      assert dir[..5] == DefaultLvsDirectory;
      assert dir[6..|dir| - 4] == Underscored(rootName);
      assert dir[|dir| - 4..] == "_LVS";
      assert forall i :: 0 <= i < |dir| ==> dir[i] != ' ' by {
        forall i | 0 <= i < |dir| ensures dir[i] != ' ' {
          if 6 <= i < 6 + |rootName| {
            assert dir[i] == Underscored(rootName)[i - 6];
          }
        }
      }
      dir
    else DefaultLvsDirectory
  }

  /** The path whose existence is checked for a product: its name, spaces underscored, in
   *  the directory. */
  function LvsPath(directory: string, productName: string): (path: string)
    ensures |path| == |directory| + 1 + |productName|
    ensures path[..|directory| + 1] == directory + "/"
    ensures path[|directory| + 1..] == Underscored(productName)
    ensures ' ' !in directory ==> ' ' !in path
  {
    var path := directory + "/" + Underscored(productName);
    assert path[..|directory| + 1] == directory + "/";
    assert path[|directory| + 1..] == Underscored(productName);
    assert forall i :: |directory| + 1 <= i < |path| ==> path[i] == Underscored(productName)[i - |directory| - 1];
    path
  }

  /** A product name without spaces is used as it is. */
  lemma LvsPathOfPlainName(directory: string, productName: string)
    requires ' ' !in productName
    ensures LvsPath(directory, productName) == directory + "/" + productName
  {
    UnderscoredNoSpace(productName);
  }

  /** The display name of a variant set: every segment of the key but the first, joined by
   *  dots, spaces underscored. That is the text after the key's first dot. */
  function VariantSetName(key: string): (name: string)
    ensures name == Underscored(AfterFirst(key, '.'))
  {
    JoinSplitTail(key, '.');
    Underscored(Join(Split(key, '.')[1..], '.'))
  }

  /** The display name of the variant set of the leaves whose ancestors, from the product
   *  down, are `chain`: the product name itself right under the product, the names below
   *  the product otherwise. */
  lemma VariantSetNameOfChain(chain: seq<string>)
    requires chain != [] && '.' !in chain[0]
    ensures VariantSetName(PathKey(chain)) == Underscored(if |chain| == 1 then chain[0] else Join(chain[1..], '.'))
  {
    if |chain| == 1 {
      assert PathKey(chain) == ['.'] + chain[0];
      assert AfterFirst(PathKey(chain), '.') == chain[0];
    } else {
      AfterFirstJoin(chain, '.');
    }
  }

  /** A variant set as the editor sees it: its display name and its variants' names. */
  datatype VariantSetNames = VariantSetNames(displayName: string, variants: seq<string>)

  /** The names used for one product. */
  datatype ProductAssets = ProductAssets(
    assetPath: string,       // checked with does_asset_exist and loaded when present
    assetName: string,       // the product name as written, passed when the asset is created
    directory: string,       // the directory the asset is created in
    variantSets: seq<VariantSetNames>)

  /** Every name with spaces underscored. */
  function UnderscoredAll(names: seq<string>): (r: seq<string>)
    ensures |r| == |names|
    ensures forall i :: 0 <= i < |names| ==> r[i] == Underscored(names[i])
  {
    seq(|names|, i requires 0 <= i < |names| => Underscored(names[i]))
  }

  /** The editor-side names of a collated dictionary, item by item. */
  function SetNames(d: seq<VariantSet>): (r: seq<VariantSetNames>)
    ensures |r| == |d|
    ensures forall i :: 0 <= i < |d| ==> r[i] == VariantSetNames(VariantSetName(d[i].path), UnderscoredAll(d[i].variants))
  {
    seq(|d|, i requires 0 <= i < |d| => VariantSetNames(VariantSetName(d[i].path), UnderscoredAll(d[i].variants)))
  }

  /** The names for one product node. */
  function ProductNames(directory: string, product: Tree): ProductAssets
  {
    ProductAssets(LvsPath(directory, product.name), product.name, directory,
                  SetNames(Collate(VariantsList(product, ""))))
  }

  /** The names for every child of the root, in order. */
  function Plan(root: Tree): (plan: seq<ProductAssets>)
    ensures |plan| == |root.children|
    ensures forall i :: 0 <= i < |plan| ==> plan[i] == ProductNames(LvsDirectory(root.name), root.children[i])
  {
    seq(|root.children|, i requires 0 <= i < |root.children| => ProductNames(LvsDirectory(root.name), root.children[i]))
  }

  /** The number of variant names of a product's variant sets. */
  function VariantCount(sets: seq<VariantSetNames>): nat
  {
    if sets == [] then 0 else |sets[0].variants| + VariantCount(sets[1..])
  }

  lemma {:induction false} VariantCountOfSetNames(d: seq<VariantSet>)
    ensures VariantCount(SetNames(d)) == Total(d)
  {
    if d != [] {
      VariantCountOfSetNames(d[1..]);
      assert SetNames(d)[1..] == SetNames(d[1..]);
    }
  }

  /** For every product, the editor's variant lookups receive one variant name per childless
   *  node below it, and no name handed to the editor for a variant set or a variant contains
   *  a space. */
  lemma PlanProperties(root: Tree)
    ensures forall i :: 0 <= i < |root.children| ==>
      VariantCount(Plan(root)[i].variantSets) == |LeafNames(NodesOf(root.children[i].children))|
    ensures forall i, k :: 0 <= i < |root.children| && 0 <= k < |Plan(root)[i].variantSets| ==>
      ' ' !in Plan(root)[i].variantSets[k].displayName &&
      forall m :: 0 <= m < |Plan(root)[i].variantSets[k].variants| ==> ' ' !in Plan(root)[i].variantSets[k].variants[m]
  {
    forall i | 0 <= i < |root.children|
      ensures VariantCount(Plan(root)[i].variantSets) == |LeafNames(NodesOf(root.children[i].children))|
    {
      var product := root.children[i];
      var vs := VariantsList(product, "");
      CollateSpec(vs);
      VariantCountOfSetNames(Collate(vs));
      VariantsListLeaves(product, "");
    }
  }

  /** `create_level_variant_sets`: for each product, the asset path, then the names of the
   *  product's variant sets and variants. */
  method CreateLevelVariantSets(root: TreeNode) returns (plan: seq<ProductAssets>)
    requires root.Valid()
    ensures plan == Plan(root.Value)
  {
    var lvsDirectory := LvsDirectory(root.name);
    ghost var expected := Plan(root.Value);
    plan := [];
    for i := 0 to |root.children|
      invariant plan == expected[..i]
    {
      var productNode := root.children[i];
      ghost var product := root.Value.children[i];
      assert productNode.Valid() && productNode.Value == product;
      var lvsPath := LvsPath(lvsDirectory, productNode.name);
      var variantSetDict := GetVariantsDict(productNode);
      var sets := CreateVariantSets(variantSetDict);
      assert expected[i] == ProductAssets(lvsPath, productNode.name, lvsDirectory, sets);
      PrefixSnoc(expected, i);
      plan := plan + [ProductAssets(lvsPath, productNode.name, lvsDirectory, sets)];
    }
    assert expected[..|root.children|] == expected;
  }

  /** One more element of a prefix. */
  lemma PrefixSnoc<T>(s: seq<T>, i: nat)
    requires i < |s|
    ensures s[..i + 1] == s[..i] + [s[i]]
  {
  }

  /** The loop of `create_level_variant_sets` over one product's variants dictionary: each
   *  item's display name, then each of its variants' names. */
  method CreateVariantSets(variantSetDict: seq<VariantSet>) returns (sets: seq<VariantSetNames>)
    ensures sets == SetNames(variantSetDict)
  {
    sets := [];
    for k := 0 to |variantSetDict|
      invariant |sets| == k
      invariant forall q :: 0 <= q < k ==> sets[q] == SetNames(variantSetDict)[q]
    {
      var vsName := VariantSetName(variantSetDict[k].path);
      var variants := variantSetDict[k].variants;
      var names: seq<string> := [];
      for m := 0 to |variants|
        invariant names == UnderscoredAll(variants[..m])
      {
        assert variants[..m + 1] == variants[..m] + [variants[m]];
        names := names + [Underscored(variants[m])];
      }
      assert variants[..|variants|] == variants;
      sets := sets + [VariantSetNames(vsName, names)];
    }
  }

  /** A key made of a dot-free product name and the rest displays as the rest. */
  lemma VariantSetNameOfKey(product: string, rest: string)
    requires '.' !in product && ' ' !in rest
    ensures VariantSetName(product + "." + rest) == rest
  {
    AfterFirstFree(product, rest, '.');
    UnderscoredNoSpace(rest);
  }

  /** A single-key dictionary whose key is a dot-free product name, a dot and a name
   *  without spaces, all of whose variants are without spaces, keeps its names as they are. */
  lemma SetNamesOfPlainKey(product: string, name: string, variants: seq<string>)
    requires '.' !in product && ' ' !in name
    requires forall v :: v in variants ==> ' ' !in v
    ensures SetNames([VariantSet(product + "." + name, variants)]) == [VariantSetNames(name, variants)]
  {
    VariantSetNameOfKey(product, name);
    forall i | 0 <= i < |variants| ensures UnderscoredAll(variants)[i] == variants[i] {
      UnderscoredNoSpace(variants[i]);
    }
    assert UnderscoredAll(variants) == variants;
    var d := [VariantSet(product + "." + name, variants)];
    assert SetNames(d)[0] == VariantSetNames(name, variants);
  }

  lemma AcmeColorNames()
    ensures SetNames([VariantSet("Widget.Color", ["Red", "Blue"])]) == [VariantSetNames("Color", ["Red", "Blue"])]
  {
    var product, color := "Widget", "Color";
    assert "Widget.Color" == product + "." + color;
    SetNamesOfPlainKey(product, color, ["Red", "Blue"]);
  }

  lemma AcmeFinishNames()
    ensures SetNames([VariantSet("Widget.Finish", ["Matte"])]) == [VariantSetNames("Finish", ["Matte"])]
  {
    var product, finish := "Widget", "Finish";
    assert "Widget.Finish" == product + "." + finish;
    SetNamesOfPlainKey(product, finish, ["Matte"]);
  }

  lemma AcmeSetNames()
    ensures SetNames([VariantSet("Widget.Color", ["Red", "Blue"]), VariantSet("Widget.Finish", ["Matte"])])
         == [VariantSetNames("Color", ["Red", "Blue"]), VariantSetNames("Finish", ["Matte"])]
  {
    AcmeColorNames();
    AcmeFinishNames();
    var color, finish := VariantSet("Widget.Color", ["Red", "Blue"]), VariantSet("Widget.Finish", ["Matte"]);
    assert SetNames([color, finish]) == SetNames([color]) + SetNames([finish]);
  }

  lemma AcmeDirectory()
    ensures LvsDirectory("Acme") == "/Game/Acme_LVS"
  {
    var company := "Acme";
    UnderscoredNoSpace(company);
    assert LvsDirectory(company) == "/Game/Acme_LVS";
  }

  lemma AcmeAssetPath(directory: string, product: string)
    requires directory == "/Game/Acme_LVS" && product == "Widget"
    ensures LvsPath(directory, product) == "/Game/Acme_LVS/Widget"
  {
    LvsPathOfPlainName(directory, product);
  }

  /** The names handed to the editor for the worked product `Widget`, whatever the outline
   *  numbers of its nodes. */
  lemma AcmeProduct(directory: string, widget: Tree, color: Tree, finish: Tree, red: Tree, blue: Tree, matte: Tree)
    requires directory == "/Game/Acme_LVS"
    requires widget.name == "Widget" && widget.children == [color, finish]
    requires color.name == "Color" && color.children == [red, blue]
    requires finish.name == "Finish" && finish.children == [matte]
    requires red.name == "Red" && blue.name == "Blue" && matte.name == "Matte"
    requires red.children == [] && blue.children == [] && matte.children == []
    ensures ProductNames(directory, widget) == ProductAssets("/Game/Acme_LVS/Widget", "Widget", "/Game/Acme_LVS",
      [VariantSetNames("Color", ["Red", "Blue"]), VariantSetNames("Finish", ["Matte"])])
  {
    assert Collate(VariantsList(widget, "")) == [VariantSet("Widget.Color", ["Red", "Blue"]), VariantSet("Widget.Finish", ["Matte"])] by {
      AcmeVariants(widget, color, finish, red, blue, matte);
      AcmeCollated();
    }
    AcmeSetNames();
    AcmeAssetPath(directory, widget.name);
  }

  /** The names the worked outline hands to the editor: one asset `Widget` in
   *  `/Game/Acme_LVS`, with variant sets Color (Red, Blue) and Finish (Matte). This holds
   *  for any outline of that shape and those names, whatever their outline numbers. */
  lemma AcmePlan(root: Tree, widget: Tree, color: Tree, finish: Tree, red: Tree, blue: Tree, matte: Tree)
    requires root.name == "Acme" && root.children == [widget]
    requires widget.name == "Widget" && widget.children == [color, finish]
    requires color.name == "Color" && color.children == [red, blue]
    requires finish.name == "Finish" && finish.children == [matte]
    requires red.name == "Red" && blue.name == "Blue" && matte.name == "Matte"
    requires red.children == [] && blue.children == [] && matte.children == []
    ensures Plan(root) == [ProductAssets("/Game/Acme_LVS/Widget", "Widget", "/Game/Acme_LVS",
      [VariantSetNames("Color", ["Red", "Blue"]), VariantSetNames("Finish", ["Matte"])])]
  {
    var directory := LvsDirectory(root.name);
    AcmeDirectory();
    AcmeProduct(directory, widget, color, finish, red, blue, matte);
    assert Plan(root)[0] == ProductNames(directory, widget);
  }
}
