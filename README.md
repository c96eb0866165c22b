# PathTree in Dafny

A model of `PathTree<T>`, a trie of `/`-separated paths, and proofs about it.
Each `PathNode` carries:

- its segment;
- its full path;
- a map of children keyed by segment;
- an optional datum.

The tree owns a root node whose segment and full path are both `/`.

## Structure

The model follows the Java class member by member.

- `PathStrings` (paths.dfy) covers the string handling.
  - The trailing-separator loop that opens the tree-level `put`, `has`, `get` and `remove` is the method `StripTrailingSlashes`, proved equal to the function `Normalize`.
  - The tokenisation step that every node operation repeats is `NextSegment`. It drops the node's own full path and the separators after it, then cuts at the next separator.
  - This module also holds the vocabulary the properties use:
    - `ChildPath`: the full path Java gives a new child;
    - `Below`: at or below a path;
    - `Canonical`: a path without repeated or trailing separators;
    - `AncestorsFrom`: the prefixes of a path that name nodes.
- `PathNodes` (node.dfy) covers the node operations `put`, `has`, `get`, `remove`, and `get(p).setData(d)`.
  - Each is a function on a `PathNode` value. The functions for `put` and `remove` return the rebuilt node together with Java's boolean. `SetDataAt` also returns a boolean, which is the model's own. It says whether a node was found, because Java's `setData` returns nothing.
  - `Grow` is `put` on a node Java has just created.
  - `Paths`, `LeafPaths` and `Subtree` describe a tree. `WellFormed` is the shape every sequence of puts leaves behind.
- `PutFacts`, `DuplicatePut`, `RemoveFacts` and `SetDataFacts` hold what each operation does to a well-formed tree. `TreeShape` holds facts about that shape.
- `Traversals` (traversal.dfy) covers `prefix`, `postfix` and the leaf filter of `leavesOnly`.
  - Each traversal is a recursive method with a loop over the child keys.
  - The loop picks each next key arbitrarily, because Java walks a `HashMap`.
- `PathTrees` (tree.dfy) holds the class `PathTree`, whose mutable field `root` holds a node value. Its members are:
  - the constructor;
  - `Put`, `Has`, `Get` and `Remove`;
  - `Clear`;
  - `SetData`;
  - `LeavesOnly`;
  - `WriteObject`, `ReadObject` and `ReadObjectNoData`.
- `Persistence` (persistence.dfy) proves the serialisation round trip. `Quirks` (quirks.dfy) works out three concrete edge cases.
- `SetAlgebra` (sets.dfy) holds the identities on plain sets that the path proofs use to regroup unions. It models nothing of its own.

## Behaviour of the code as written

These behaviours are modelled and proved as they are.

- **A duplicate put is not refused.**
  - The first repeat of `put(p)` on an existing node reads the empty segment after `p`. It creates a child under that segment, whose full path is `p + "/"`, and returns true.
  - A third put of `p` returns false and changes no path.
  - This contradicts the Java doc comment of `put`, and `DuplicatePut.PutAgain` states it.
- **The datum is dropped on recursion.** Both recursive calls of the node-level `put` go through the one-argument `put`. So a datum is stored only when the new node hangs directly under the node that `put` was called on. For the tree, that means a single-segment path (`PutFacts.PutData`).
- **Repeated separators.** `put("/a//b")` on a fresh tree builds `/a/b` and returns true. Afterwards `has("/a//b")` is false (`Quirks.DoubleSeparator`).
- **A refused put can still grow the tree.** `put("//a/b")` on a fresh tree returns false, yet leaves the node `/a` behind. The root reads the segment `a`, creates the child `/a` and links it, and only then asks that child to put `//a/b`. The child refuses, because `//a/b` does not start with `/a`. The Java doc comment says false means the path existed already or was invalid, but here a node was created (`Quirks.StrandedChild`).
- **The empty path is not the root.** `""` never enters the trailing-separator loop, so the root receives it unchanged and never matches it. `has("")` is false, while `has("/")` is true (`Quirks.EmptyPath`).
- **A fresh tree has one leaf, `/`** (`PathTrees.FreshRoot`).
- **The round trip holds only for trees without empty-segment nodes.** The leaf path `p + "/"` left behind by a duplicate put loses its trailing separator when it is read back. So such a tree does not round-trip (`Persistence.RoundTrip` requires `NoEmptySegment`).

## Model

| member | source | states |
|---|---|---|
| `PathStrings.TrimTrailing` | src/main/java/com/seodisparate/path_tree/PathTree.java:271-276 | the result is a prefix of the input that does not end in `/`, and everything it drops is `/` |
| `PathStrings.Normalize` | src/main/java/com/seodisparate/path_tree/PathTree.java:270-278 | the loop gives up (None) exactly on a non-empty path made only of `/`; otherwise the result is the input without its trailing `/`, and it is empty only for the empty input |
| `PathStrings.StripTrailingSlashes` | src/main/java/com/seodisparate/path_tree/PathTree.java:271-276 | the `while (endsWith("/"))` loop with its early exit computes `Normalize` |
| `PathStrings.DropLeadingSlashes` | src/main/java/com/seodisparate/path_tree/PathTree.java:125-127 | the result is a suffix of the input; everything dropped is `/`; the result does not start with `/` |
| `PathStrings.IndexOfSlash` | src/main/java/com/seodisparate/path_tree/PathTree.java:128 | the position of the first `/`, or -1 when there is none |
| `PathStrings.SegmentStart` | src/main/java/com/seodisparate/path_tree/PathTree.java:124-127 | the segment starts after the node's own path and the separators following it, at a non-separator or at the end |
| `PathStrings.NextSegment` | src/main/java/com/seodisparate/path_tree/PathTree.java:124-129 | the segment has no `/`; when it is the last one it is the whole remainder after the separators |
| `PathStrings.NextSegmentShape` | src/main/java/com/seodisparate/path_tree/PathTree.java:124-129 | the segment is the run of non-separators from `SegmentStart` on; it is last exactly when it reaches the end of the path, and otherwise a `/` follows it |
| `PathStrings.NotLastNonEmpty` | src/main/java/com/seodisparate/path_tree/PathTree.java:128-129 | a segment followed by a `/` is never empty |
| `PathStrings.EmptySegment` | src/main/java/com/seodisparate/path_tree/PathTree.java:124-129 | for a path without a trailing `/`, an empty segment occurs only at the node's own path, and never at the root |
| `PathStrings.SegmentAtSelf` | src/main/java/com/seodisparate/path_tree/PathTree.java:124-129 | at its own path a node reads the empty segment, as the last one |
| `PathStrings.TokenOfChild` | src/main/java/com/seodisparate/path_tree/PathTree.java:134-139 | tokenising a path at or below the child `k` of a node gives `k`, and it is last exactly at the child's own path |
| `PathStrings.SameChild` | src/main/java/com/seodisparate/path_tree/PathTree.java:131-141 | a path lies below at most one child of a node, so sibling subtrees are disjoint |
| `PathStrings.ChildBelow` | src/main/java/com/seodisparate/path_tree/PathTree.java:134-139 | the full path built for a child lies strictly below its parent's path and is never `/` |
| `PathStrings.TrailStep` | src/main/java/com/seodisparate/path_tree/PathTree.java:124-146 | on a canonical path, one tokenisation step from a node on its trail reaches the next ancestor prefix of the path |
| `PathStrings.LastStep` | src/main/java/com/seodisparate/path_tree/PathTree.java:142-144 | when the segment read is the last one, the child built has the path itself as its full path |
| `PathStrings.CanonicalChild` | src/main/java/com/seodisparate/path_tree/PathTree.java:134-139 | a child with a non-empty segment of the root or of a canonical path has a canonical path |
| `PathNodes.Fresh` | src/main/java/com/seodisparate/path_tree/PathTree.java:49-54 | a new node has the given segment and path, no children and no datum |
| `PathNodes.Put` | src/main/java/com/seodisparate/path_tree/PathTree.java:122-152 | put never changes the node's own segment, path or datum, never drops a child key, and refuses a path that does not start with the node's path, leaving the node unchanged |
| `PathNodes.Grow` | src/main/java/com/seodisparate/path_tree/PathTree.java:140-147 | the node put creates carries no datum, and is left bare when the path does not start with its full path |
| `PathNodes.Has` | src/main/java/com/seodisparate/path_tree/PathTree.java:159-178 | has answers true only for paths that start with the node's path |
| `PathNodes.Get` | src/main/java/com/seodisparate/path_tree/PathTree.java:185-204 | get finds a node exactly when has answers true, and the node found has the path asked for |
| `PathNodes.Remove` | src/main/java/com/seodisparate/path_tree/PathTree.java:206-228 | below its own path, remove succeeds exactly when has answers true; on failure nothing changes; a childless node removes nothing |
| `PathNodes.SetDataAt` | src/main/java/com/seodisparate/path_tree/PathTree.java:185-204 | the datum is set exactly when get finds the node; otherwise nothing changes |
| `PathNodes.PathsBelow` | src/main/java/com/seodisparate/path_tree/PathTree.java:134-139 | every path of a well-formed tree lies at or below the path of its root |
| `PathNodes.HasInPaths` | src/main/java/com/seodisparate/path_tree/PathTree.java:159-178 | what has finds is a path of the tree |
| `PathNodes.PathsHas` | src/main/java/com/seodisparate/path_tree/PathTree.java:159-178 | in a well-formed tree has finds every path of the tree |
| `PathNodes.HasPaths` | src/main/java/com/seodisparate/path_tree/PathTree.java:159-178 | in a well-formed tree, has(q) holds exactly when q is a path of the tree |
| `PathNodes.GetInSubtree` | src/main/java/com/seodisparate/path_tree/PathTree.java:185-204 | what get returns is a node of the tree |
| `PathNodes.LookupInChild` | src/main/java/com/seodisparate/path_tree/PathTree.java:170-171 | a path below the child at key `k` is looked up in that child, by has and get alike |
| `PathNodes.WellFormedReplace` | src/main/java/com/seodisparate/path_tree/PathTree.java:140-141 | linking a well-formed child the way Java links it keeps the tree well formed |
| `PathNodes.WellFormedDrop` | src/main/java/com/seodisparate/path_tree/PathTree.java:217 | unlinking a child keeps the tree well formed |
| `PutFacts.GrowIsPut` | src/main/java/com/seodisparate/path_tree/PathTree.java:140-146 | put on a freshly created node is `Grow` |
| `PutFacts.PutKeeps` | src/main/java/com/seodisparate/path_tree/PathTree.java:122-152 | put never loses a node, and never changes the datum of a node that was already there |
| `PutFacts.PutOthers` | src/main/java/com/seodisparate/path_tree/PathTree.java:131-147 | put changes no child except the one under the next segment |
| `PutFacts.GrowWellFormed` | src/main/java/com/seodisparate/path_tree/PathTree.java:140-147 | the chain put grows for a path without a trailing `/` is well formed |
| `PutFacts.PutSaturated` | src/main/java/com/seodisparate/path_tree/PathTree.java:131-132 | when the next segment is empty and already has a child, the path is the node's own and put changes nothing and returns false |
| `PutFacts.PutNewLeaf` | src/main/java/com/seodisparate/path_tree/PathTree.java:140-144 | a new last segment becomes a childless child carrying the datum; put returns true |
| `PutFacts.PutNewChain` | src/main/java/com/seodisparate/path_tree/PathTree.java:145-147 | a new segment that is not the last one becomes a grown chain, and the tree stays well formed |
| `PutFacts.PutWellFormed` | src/main/java/com/seodisparate/path_tree/PathTree.java:122-152 | putting a path without a trailing `/` keeps a tree well formed |
| `PutFacts.GrowPaths` | src/main/java/com/seodisparate/path_tree/PathTree.java:140-147 | growing along a canonical path adds the node itself and every later ancestor prefix, and returns true |
| `PutFacts.PutPathsSelf` | src/main/java/com/seodisparate/path_tree/PathTree.java:123-146 | put at the node's own path adds only the empty-segment child `p + "/"`, and returns false only when that child already exists |
| `PutFacts.PutPathsNew` | src/main/java/com/seodisparate/path_tree/PathTree.java:133-147 | when the next segment is new, put adds exactly the remaining ancestor prefixes and returns true |
| `PutFacts.PutPaths` | src/main/java/com/seodisparate/path_tree/PathTree.java:122-152 | for a canonical path, put adds exactly the missing ancestor prefixes (the path included), plus `p + "/"` when `p` was already there; it returns false exactly when the node at `p` already has its empty-segment child |
| `PutFacts.PutHasTrail` | src/main/java/com/seodisparate/path_tree/PathTree.java:134-146 | after put, has holds for the path and for every ancestor prefix of it |
| `PutFacts.GrowData` | src/main/java/com/seodisparate/path_tree/PathTree.java:140-146 | the node grown for the path itself is a leaf without a datum |
| `PutFacts.PutData` | src/main/java/com/seodisparate/path_tree/PathTree.java:122-152 | a new path becomes a leaf; it carries the datum when its segment directly follows the path of the node put was called on, and no datum otherwise |
| `PutFacts.PutDataNew` | src/main/java/com/seodisparate/path_tree/PathTree.java:140-147 | PutData where the next segment is new |
| `PutFacts.PutDataExisting` | src/main/java/com/seodisparate/path_tree/PathTree.java:131-132 | PutData where the path is handed on to an existing child without the datum |
| `DuplicatePut.PutSelfChild` | src/main/java/com/seodisparate/path_tree/PathTree.java:131-144 | a repeat put of an existing path gives its node the empty-segment child |
| `DuplicatePut.SecondPut` | src/main/java/com/seodisparate/path_tree/PathTree.java:123-146 | the second put of a path returns true, adds exactly `p + "/"`, keeps the datum, and leaves a well-formed tree |
| `DuplicatePut.ThirdPut` | src/main/java/com/seodisparate/path_tree/PathTree.java:131-132 | once the empty-segment child exists, put returns false and adds no path |
| `DuplicatePut.PutAgain` | src/main/java/com/seodisparate/path_tree/PathTree.java:122-152 | put twice: true, one extra path `p + "/"`, datum unchanged; put a third time: false, no path added |
| `RemoveFacts.RemoveSelf` | src/main/java/com/seodisparate/path_tree/PathTree.java:215-216 | a node never removes itself, so the root is never removed |
| `RemoveFacts.RemoveChild` | src/main/java/com/seodisparate/path_tree/PathTree.java:216-218 | unlinking the child at the path removes exactly the paths at or below it |
| `RemoveFacts.RemoveInChild` | src/main/java/com/seodisparate/path_tree/PathTree.java:219-221 | removing inside a child removes exactly the paths at or below the path |
| `RemoveFacts.RemovePaths` | src/main/java/com/seodisparate/path_tree/PathTree.java:206-228 | remove keeps the tree well formed; on success the new paths are the old ones that lie neither at nor below the removed path |
| `RemoveFacts.RemoveHas` | src/main/java/com/seodisparate/path_tree/PathTree.java:206-228 | after a successful remove, has(q) holds exactly when it held before and q is not at or below the removed path |
| `RemoveFacts.RemoveKeepsData` | src/main/java/com/seodisparate/path_tree/PathTree.java:206-228 | every node outside the removed subtree stays, with its datum |
| `SetDataFacts.DataOnly` | src/main/java/com/seodisparate/path_tree/PathTree.java:114-116 | a new datum changes neither the shape nor the paths of a node |
| `SetDataFacts.SetDataTree` | src/main/java/com/seodisparate/path_tree/PathTree.java:114-116 | setting a datum keeps a tree well formed and keeps its paths |
| `SetDataFacts.SetDataFound` | src/main/java/com/seodisparate/path_tree/PathTree.java:114-116 | every node get found is still found, with the new datum at `p` and its old datum elsewhere |
| `SetDataFacts.SetDataGet` | src/main/java/com/seodisparate/path_tree/PathTree.java:114-116 | in a well-formed tree no answer of has changes, and the datum get returns changes at `p` only |
| `SetDataFacts.SetDataElsewhere` | src/main/java/com/seodisparate/path_tree/PathTree.java:189-197 | setting a datum in one branch leaves lookups through other branches unchanged |
| `Traversals.Prefix` | src/main/java/com/seodisparate/path_tree/PathTree.java:67-72 | visits the node first, then exactly the nodes of its subtree; in a well-formed tree no node comes after a node below it |
| `Traversals.Postfix` | src/main/java/com/seodisparate/path_tree/PathTree.java:79-84 | visits exactly the nodes of the subtree, the node itself last; in a well-formed tree every node comes after the nodes below it |
| `Traversals.LeafFilter` | src/main/java/com/seodisparate/path_tree/PathTree.java:242-246 | yields exactly the full paths of the childless visited nodes |
| `Traversals.LeafFilterDistinct` | src/main/java/com/seodisparate/path_tree/PathTree.java:241-247 | a visit without repeated paths yields leaves without repeats |
| `TreeShape.SubtreeWellFormed` | src/main/java/com/seodisparate/path_tree/PathTree.java:134-141 | every node of a well-formed tree roots a well-formed tree |
| `TreeShape.SomeLeaf` | src/main/java/com/seodisparate/path_tree/PathTree.java:243 | every node has a childless node below it |
| `TreeShape.BelowInSubtree` | src/main/java/com/seodisparate/path_tree/PathTree.java:134-141 | a path of the tree below a node's path is a path of that node's subtree |
| `TreeShape.LeafAlone` | src/main/java/com/seodisparate/path_tree/PathTree.java:243 | no other path of the tree lies at or below a childless node |
| `TreeShape.CanonicalPaths` | src/main/java/com/seodisparate/path_tree/PathTree.java:134-141 | in a tree without empty segments, every path other than `/` is canonical |
| `TreeShape.AncestorsInTree` | src/main/java/com/seodisparate/path_tree/PathTree.java:134-146 | every ancestor prefix of a path of the tree is a path of the tree |
| `PathTrees.FreshRoot` | src/main/java/com/seodisparate/path_tree/PathTree.java:234 | the root `("/", "/")`: no children, no datum, well formed; its one path and one leaf are `/` |
| `PathTrees.PathTree.constructor` | src/main/java/com/seodisparate/path_tree/PathTree.java:233-235 | a new tree holds a fresh root |
| `PathTrees.PathTree.Put` | src/main/java/com/seodisparate/path_tree/PathTree.java:270-278 | a path made only of `/` is refused without change; otherwise the root is the result of the node put on the stripped path; for a canonical path the tree gains exactly the missing ancestor prefixes plus `p + "/"` for an existing `p`, and put returns false exactly when that child was already there |
| `PathTrees.PathTree.Has` | src/main/java/com/seodisparate/path_tree/PathTree.java:285-293 | true for a non-empty path made only of `/`; otherwise true exactly when the stripped path is a path of the tree |
| `PathTrees.PathTree.Get` | src/main/java/com/seodisparate/path_tree/PathTree.java:301-309 | finds a node exactly when has answers true; the root for a path made only of `/`, otherwise the node whose path is the stripped path |
| `PathTrees.PathTree.Remove` | src/main/java/com/seodisparate/path_tree/PathTree.java:317-325 | succeeds exactly when the stripped path is a path of the tree; then the tree keeps exactly the paths not at or below it; on failure nothing changes |
| `PathTrees.PathTree.Clear` | src/main/java/com/seodisparate/path_tree/PathTree.java:330-332 | the tree holds a fresh root |
| `PathTrees.PathTree.SetData` | src/main/java/com/seodisparate/path_tree/PathTree.java:114-116 | `get(path).setData(d)`: the datum changes at the node get finds, which exists exactly when has answers true; the paths stay the same |
| `PathTrees.PathTree.LeavesOnly` | src/main/java/com/seodisparate/path_tree/PathTree.java:241-247 | reports exactly the full paths of the childless nodes, each once |
| `PathTrees.PathTree.WriteObject` | src/main/java/com/seodisparate/path_tree/PathTree.java:343-350 | writes the number of leaves, then exactly the leaf paths, each once |
| `PathTrees.PathTree.ReadObject` | src/main/java/com/seodisparate/path_tree/PathTree.java:353-360 | clears, then puts the first `count` paths without data; it reports whether the stream held them all, and the tree is the replay of what was read |
| `PathTrees.PathTree.ReadObjectNoData` | src/main/java/com/seodisparate/path_tree/PathTree.java:363-365 | the tree holds a fresh root |
| `PathTrees.ReadLength` | src/main/java/com/seodisparate/path_tree/PathTree.java:356-358 | `readObject` reads at most as many paths as the stream holds |
| `Persistence.GrowNoData` | src/main/java/com/seodisparate/path_tree/PathTree.java:140-146 | a grown chain carries no data |
| `Persistence.PutNoData` | src/main/java/com/seodisparate/path_tree/PathTree.java:118-120 | putting without a datum into a tree without data leaves a tree without data |
| `Persistence.NotOnEarlierTrails` | src/main/java/com/seodisparate/path_tree/PathTree.java:357-359 | a leaf path is not on the trail of any other leaf read before it |
| `Persistence.ReplayShape` | src/main/java/com/seodisparate/path_tree/PathTree.java:353-360 | replaying leaf paths builds a well-formed tree without data whose paths are `/` and the ancestor prefixes of the paths read |
| `Persistence.LeavesApart` | src/main/java/com/seodisparate/path_tree/PathTree.java:241-247 | no leaf path lies at or below another |
| `Persistence.TrailsInTree` | src/main/java/com/seodisparate/path_tree/PathTree.java:343-350 | the ancestor prefixes of the leaves are paths of the tree |
| `Persistence.TreeOnTrails` | src/main/java/com/seodisparate/path_tree/PathTree.java:343-350 | every path of the tree other than `/` is an ancestor prefix of some leaf |
| `Persistence.RoundTrip` | src/main/java/com/seodisparate/path_tree/PathTree.java:343-360 | for a tree without empty-segment nodes, reading back what `writeObject` wrote gives a tree with exactly the same paths and no data |
| `Quirks.DoubleSeparator` | src/main/java/com/seodisparate/path_tree/PathTree.java:159-178 | `put("/a//b")` on a fresh tree returns true and builds `/`, `/a`, `/a/b`, yet has("/a//b") is false afterwards |
| `Quirks.StrandedChild` | src/main/java/com/seodisparate/path_tree/PathTree.java:122-152 | `put("//a/b")` on a fresh tree returns false, yet the tree's paths grow from `/` to `/` and `/a`, and has("//a/b") stays false |
| `Quirks.EmptyPath` | src/main/java/com/seodisparate/path_tree/PathTree.java:285-292 | `""` reaches the root unchanged and is missed by has, get, put and remove, while `/` is answered by the tree itself |

## Left out

- The Java object-stream encoding is not modelled: `writeInt`, `writeUTF`, `readInt`, `readUTF` and `serialVersionUID`. A serialised tree is an `Image`, a count followed by a sequence of paths. A stream that ends early stops the read. Java throws an `EOFException` there, which is not modelled.
- `PathTrees.PathTree.WriteObject` writes the leaf count as an unbounded integer, for any number of leaves. Java cannot serialise a tree with 2^31 or more leaves. Before it writes the count, it collects the leaves in an `ArrayList`, which cannot hold that many, so it fails before the `int` could wrap. The model does not capture that failure.
- `printList` is console output only.
- The `Consumer` callbacks are not modelled as arbitrary side effects. `Prefix` and `Postfix` return the sequence of nodes they visit, in visiting order. `LeavesOnly` returns the paths it would hand to its consumer.
- `HashMap` iteration order is not modelled. The traversals pick each next child arbitrarily. Their contracts therefore state membership and the order between a node and the nodes below it, not the order among siblings.
- Update in place and aliasing are not modelled. Node-level `put`, `remove` and `setData` are functions on node values that return the rebuilt node. The class `PathTree` reassigns its `root` field. So the model does not capture a client that holds a node returned by `get` and sees it change later. `get` returns a copy of the node value, not a reference.
- `PathTrees.PathTree.SetData` models `get(path).setData(d)`. Java has no tree-level `setData`; a client calls `setData` on the node `get` returns. The boolean it returns is the model's own, because Java's `setData` returns nothing. A false result stands for `get` returning null, a case in which a client would not call `setData`. The tree is then left unchanged, whereas in Java `get(path).setData(d)` throws a `NullPointerException`, which the model does not capture.
- Java's `null` datum is `None`, and the nullability of `T` itself is not modelled. The getters `getSegment`, `getFullPath` and `getData` are the datatype's fields.
- Thread safety is not modelled. The code has none.
- `Persistence.RoundTrip` is stated only for trees without empty-segment nodes. A leaf `p + "/"` left behind by a duplicate put is read back as `p`, so such a tree does not come back unchanged.
