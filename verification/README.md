# Mindmap to Level Variant Sets, modelled in Dafny

`mindmap_script.py` reads a mindmap exported as a Microsoft Project XML file. It turns the
flat list of tasks into a tree of `TreeNode`s: company, products, variant sets, variants.
For every product it then creates a Level Variant Sets asset in an Unreal project. This
project models the deterministic core of that script:

- **Tree builder** (`TreeNodes`, specified by `Outline`). `recursive_loop` pops the head of
  the shared task list into a new node. While the next task's outline number is a longer
  string, it builds a child from the same list. The model is a `TreeNode` class with
  `add_child`, a `TaskQueue` class standing for the shared Python list, and a recursive
  method with the `while` loop. The recursive method is proved equal to the pure function
  `Build`, which returns the tree and the tasks left over.
- **Grouping projector** (`Variants`). `get_variants_list` lists one `{key: leaf name}`
  pair per childless node below a product. `get_variants_dict` collates those pairs into
  an insertion-ordered dictionary from key to list. Both are methods over `TreeNode`s, and
  each is proved equal to a pure function on the tree the node stands for.
- **Names handed to the editor** (`LevelVariantSets`, with the string helpers in `Names`).
  These are the asset directory and path, each variant set's display name and each
  variant's name, collected per product in the order the editor calls would be made.
- **Input checks** (`Document`). These are the checks `read_xml_file` makes on the path,
  and `namespace()` on the root tag.

The outline number is compared by string length, as the code does at line 109.
`outline_level` is stored but never consulted. Comparing outline levels would avoid the
following effect, but the model follows the code at line 109: a task numbered `1.10` after
one numbered `1.9` becomes its child (`Outline.TwoDigitSegmentNests`).

Worked example. The tasks Acme `1`, Widget `1.1`, Color `1.1.1`, Red `1.1.1.1`, Blue
`1.1.1.2`, Finish `1.1.2` and Matte `1.1.2.1` produce:

- the tree Acme → Widget → {Color → [Red, Blue], Finish → [Matte]}
  (`Outline.AcmeOutline`);
- the dictionary `{"Widget.Color": ["Red", "Blue"], "Widget.Finish": ["Matte"]}`
  (`Variants.AcmeVariants`, `Variants.AcmeCollated`);
- one asset `/Game/Acme_LVS/Widget` with variant sets `Color` and `Finish`
  (`LevelVariantSets.AcmePlan`).

## Model

All source cells refer to `Content/Python/mindmap_script.py`.

| member | source | states |
|---|---|---|
| Outline.Build | Content/Python/mindmap_script.py:100-115 | On a non-empty list, the node carries the first task's name, outline number and level. Fewer tasks are left than were given. The next task left, if any, is not longer-numbered than the node. |
| Outline.BuildChildren | Content/Python/mindmap_script.py:107-113 | The child loop consumes no more than it is given. It stops at the end of the list or at a task no longer-numbered than the parent. Every child it builds is longer-numbered than the parent. |
| Outline.BuildRoundTrip | Content/Python/mindmap_script.py:100-113 | Each task is used exactly once and in order: the pre-order listing of the built tree, followed by the tasks left, is the input list. |
| Outline.BuildChildrenRoundTrip | Content/Python/mindmap_script.py:107-113 | The same for the child loop: the pre-order listing of the children, followed by the tasks left, is the list the loop started from. |
| Outline.BuildLengthens | Content/Python/mindmap_script.py:107-113 | In a built tree, every child has a strictly longer outline number than its parent. |
| Outline.BuildChildrenLengthen | Content/Python/mindmap_script.py:109-110 | The same for every subtree the child loop builds. |
| Outline.DescendantsLonger | Content/Python/mindmap_script.py:109-110 | Consequently, every node strictly below a node has a longer outline number than it. |
| Outline.BuildLeaves | Content/Python/mindmap_script.py:103-113 | A node in the pre-order listing has children exactly when the next task of the input is longer-numbered than it. |
| Outline.SingleTask | Content/Python/mindmap_script.py:100-104 | A one-task list gives a childless node for that task and leaves nothing. |
| Outline.TwoDigitSegmentNests | Content/Python/mindmap_script.py:109 | `1`, `1.9`, `1.10` nest three deep: `1.10` becomes a child of `1.9`, because only string length is compared. |
| Outline.AcmeOutline | Content/Python/mindmap_script.py:93-115 | The worked outline builds Acme → Widget → {Color → [Red, Blue], Finish → [Matte]} and uses every task. |
| TreeNodes.TreeNode.constructor | Content/Python/mindmap_script.py:23-27 | A new node holds the given name, outline number and level and has no children. |
| TreeNodes.TreeNode.AddChild | Content/Python/mindmap_script.py:29-30 | The child is appended after the existing children, and the node stays well formed. |
| TreeNodes.TaskQueue.PopFront | Content/Python/mindmap_script.py:100 | `pop(0)` returns the head of the non-empty list and leaves the rest. |
| TreeNodes.RecursiveLoop | Content/Python/mindmap_script.py:93-115 | The returned fresh node stands for the tree `Build` gives on the list as it was. The list is left exactly as `Build` leaves it. |
| TreeNodes.ProcessTasks | Content/Python/mindmap_script.py:90 | An error exactly when there are no tasks. Otherwise the root built from the tasks, with any tasks left after the root discarded. |
| Variants.VariantsListLeaves | Content/Python/mindmap_script.py:187-196 | `get_variants_list` emits one pair per childless node strictly below the start, named after it, in depth-first order. A childless start gives nothing. |
| Variants.VariantKeys | Content/Python/mindmap_script.py:189-194 | For names that are non-empty and neither start nor end with a dot, a leaf's key joins its ancestors from the product down with dots. Leaves right under the product get `.Product`, since the key itself is never stripped. |
| Variants.ChildKeys | Content/Python/mindmap_script.py:189-194 | The same for the loop over the children: the prefix handed down is the stripped key. |
| Variants.Append | Content/Python/mindmap_script.py:174 | `variant_set_dict[key].append(value)` adds the key at the end only when it is new. It appends the value to that key's list alone and adds one value in total. |
| Variants.CollateSpec | Content/Python/mindmap_script.py:171-176 | The dictionary lists each key once, in first-seen order. Each key's list holds that key's names in listing order. The total number of values equals the number of pairs listed. |
| Variants.GetVariantsList | Content/Python/mindmap_script.py:179-196 | The loop over a `TreeNode`'s children returns the listing of the tree the node stands for. |
| Variants.GetVariantsDict | Content/Python/mindmap_script.py:162-176 | It returns the collation of the product's listing started with an empty prefix. |
| Variants.KeyOfChain | Content/Python/mindmap_script.py:189-194 | For names that are non-empty and neither start nor end with a dot, the key joined under a parent is the chain from the product down to it, joined by dots (`.Product` right under the product). Stripping that key of dots gives the chain joined by dots. |
| Variants.ExactDepthAgrees | Content/Python/mindmap_script.py:187-196 | For a non-empty product name with no dot at either end, and children that each have at least one child, all of them childless, the listing is each child's children in turn, keyed `Product.Child`. |
| Variants.CollateTwoKeys | Content/Python/mindmap_script.py:171-176 | Two pairs under one key and then one pair under another collate to two entries in that order, the first holding both names in listing order. |
| Variants.AcmeVariants | Content/Python/mindmap_script.py:187-196 | Any product Widget with children Color (Red, Blue) and Finish (Matte), whatever their outline numbers, lists Red and Blue under `Widget.Color`, then Matte under `Widget.Finish`. |
| Variants.AcmeCollated | Content/Python/mindmap_script.py:171-176 | That listing collates to `{"Widget.Color": ["Red", "Blue"], "Widget.Finish": ["Matte"]}`. |
| Names.Underscored | Content/Python/mindmap_script.py:147 | `replace(' ', '_')` keeps the length, replaces each space by `_`, keeps every other character, and leaves no space. |
| Names.Strip | Content/Python/mindmap_script.py:194 | `strip(c)` leaves no `c` at either end and never lengthens the string. It changes nothing on a string already free of `c` at both ends. It gives the empty string exactly when the string consists only of `c`. |
| Names.StripFramed | Content/Python/mindmap_script.py:194 | The result of `strip(c)` is a slice of the string with nothing but `c` before and after it; with the ends of the result free of `c`, exactly the leading and trailing runs of `c` are removed. |
| Names.StripPadded | Content/Python/mindmap_script.py:61 | Stripping a string with one more `c` at each end gives the same result. |
| Names.JoinSplit | Content/Python/mindmap_script.py:146-147 | Joining the pieces of `split(sep)` with `sep` gives the string back. |
| Names.SplitJoin | Content/Python/mindmap_script.py:146-147 | Splitting a join of one or more separator-free pieces gives the pieces back. |
| Names.JoinSplitTail | Content/Python/mindmap_script.py:146-147 | Joining every piece but the first gives the text after the first separator. |
| Document.ReadXmlFile | Content/Python/mindmap_script.py:61-66 | The path is stripped of U+202A marks. The result reports a missing file exactly when the stripped path is not a file. It reports a non-XML file exactly when the path is a file without the `.xml` suffix. On success the result is the stripped path itself, an existing `.xml` file with no mark at either end. |
| Document.ReadXmlFileIgnoresMarks | Content/Python/mindmap_script.py:61 | One U+202A mark on each side of the path does not change the outcome. |
| Document.ReadXmlFileOrderOfChecks | Content/Python/mindmap_script.py:63-66 | Existence is checked before the suffix: a missing `notes.txt` is reported missing, and an existing one is reported as not XML. |
| Document.ReadXmlFileSuffixCaseSensitive | Content/Python/mindmap_script.py:65 | An existing `map.XML` is refused: the suffix test is case-sensitive. |
| Document.ScanEnd | Content/Python/mindmap_script.py:207 | It finds the last `}` before the first line break at or after the position, or -1 when there is none. |
| Document.MatchEnd | Content/Python/mindmap_script.py:207 | The greedy `\{.*}` match: -1 exactly when the tag has no match. Otherwise the end of a match, and no match ends later. |
| Document.Namespace | Content/Python/mindmap_script.py:205-208 | The default namespace when nothing matches. Otherwise the text that the matched `{`…`}` encloses. |
| Document.NamespaceOfQualifiedTag | Content/Python/mindmap_script.py:205-208 | For a tag `{uri}local`, where `uri` has no line break and the first line of `local` has no `}`, the namespace is `uri`. |
| Document.NamespaceOfPlainTag | Content/Python/mindmap_script.py:208 | A tag that does not open with `{` gives the default namespace. |
| LevelVariantSets.LvsDirectory | Content/Python/mindmap_script.py:132-135 | `/Game/<company>_LVS`: `/Game`, a slash, the company name with spaces underscored, then `_LVS`, with no space anywhere. It is `/Game` itself for an empty company name. |
| LevelVariantSets.LvsPath | Content/Python/mindmap_script.py:138 | The directory, a slash, then exactly the product name with spaces underscored. It has no space when the directory has none. |
| LevelVariantSets.LvsPathOfPlainName | Content/Python/mindmap_script.py:138 | A product name without spaces is used in the path unchanged. |
| LevelVariantSets.VariantSetName | Content/Python/mindmap_script.py:146-147 | Dropping the first dot-separated segment and rejoining is the text after the first dot, spaces underscored. |
| LevelVariantSets.VariantSetNameOfChain | Content/Python/mindmap_script.py:146-147 | For a product name without dots, the display name of a key is the product name, with spaces underscored, for leaves right under the product. Otherwise it is the names below the product joined by dots, with spaces underscored. |
| LevelVariantSets.VariantSetNameOfKey | Content/Python/mindmap_script.py:146-147 | A key made of a dot-free product, a dot and a space-free rest displays as that rest. |
| LevelVariantSets.SetNamesOfPlainKey | Content/Python/mindmap_script.py:145-158 | A dictionary entry whose key and names have no spaces reaches the editor unchanged, apart from the dropped product segment. |
| LevelVariantSets.VariantCountOfSetNames | Content/Python/mindmap_script.py:145-158 | The editor receives as many variant names as the dictionary holds. |
| LevelVariantSets.PlanProperties | Content/Python/mindmap_script.py:137-158 | For each product, the editor's variant lookups receive one variant name per childless node below it (before the editor merges equal names). No variant-set or variant name sent to the editor contains a space. |
| LevelVariantSets.CreateLevelVariantSets | Content/Python/mindmap_script.py:118-159 | The loop over products gives, in order, the names of `Plan`: directory, asset path, asset name and variant sets. |
| LevelVariantSets.CreateVariantSets | Content/Python/mindmap_script.py:145-159 | The loops over the dictionary give each variant set's display name with its underscored variant names, in dictionary order. |
| LevelVariantSets.AcmePlan | Content/Python/mindmap_script.py:132-159 | Any outline with that shape and those names, whatever its outline numbers, yields one asset `/Game/Acme_LVS/Widget`, named `Widget`, with variant sets `Color` (Red, Blue) and `Finish` (Matte). |

## Left out

- The Unreal editor calls (`does_asset_exist`, `load_asset`, `create_level_variant_sets_asset`, `get_variant_set_by_name`, `add_variant_set`, `add_variant`) belong to a library whose semantics are not visible. The model collects the names passed to them but not their effects. It also leaves out whether a second run reuses existing assets, since that rests on those calls.
- The asset is created under the product name as written, while its existence check uses the underscored path. Both names are recorded in `ProductAssets`, but the consequences of the mismatch inside the editor are not modelled.
- XML parsing with ElementTree and the `int()` conversion of outline levels in `process_tasks` are library parsing. The model starts from the list of tasks, and from the root tag as a string for `namespace`.
- `os.path.isfile` is replaced by a set of existing paths. `sys.exit`, `quit_execution` and `logging` are replaced by an error result.
- `TreeNode.__str__` is debug output, and the `__main__` block is a hard-coded call; neither is modelled.
- A task whose XML name element is empty has `None` as its name in Python. The model has strings only, so such a name is the empty string. Where the model then computes a result, the source raises: `product_node.name.replace` at line 138 and `variant_name.replace` at line 155 raise AttributeError, and `'.'.join([prefix, None])` at lines 191 and 194 raises TypeError.
- Python's recursion limit is not modelled. `recursive_loop` and `get_variants_list` raise RecursionError on very deep outlines, while the model's recursion is unbounded.
- The editor merges equal names: `get_variant_set_by_name` (lines 149-153) reuses a variant set with the same display name, and `get_variant_by_name` (lines 155-159) adds a variant only when none of that name exists. The model lists the names handed to these lookups, so two leaves with the same underscored name under one key count twice in `LevelVariantSets.PlanProperties`.
- TreeNodes.RecursiveLoop: an empty list is a precondition, because `pop(0)` raises on it. `TreeNodes.ProcessTasks` turns that case into an error result.
- TreeNodes.ProcessTasks: tasks left in the list after the root's loop ends (a later task no longer-numbered than the root) are dropped without notice, as in the source. The model proves which tasks those are (`Outline.Build`) but reports nothing about them.
- Variants.GetVariantsList: the proof is stated over the tree a `TreeNode` stands for (its ghost `Value`). The model does not address sharing between the `TreeNode` objects, because `recursive_loop` never creates any.
- Outline.Build: nesting by outline level is not modelled. The code compares outline-number string lengths at line 109, and the model follows the code.
