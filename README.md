# IPLocate: range lookup in an AVL tree, in Dafny

IPLocate answers "where is this IPv4 address?" from a table of address ranges.
Each range (`IPEntry`) has a begin address, an end address and four location
fields (country, province, ISP and department). The ranges are kept in an AVL
search tree (`SearchTree`) of `BinaryNode`s, ordered by begin address. A lookup
(`IPLocate.locate`) goes through these steps:

1. It checks that the text is a dotted quad (`isIP`).
2. It answers from a cache keyed by the text when it can.
3. Otherwise it searches the tree for the range with the greatest begin address
   not above the address.
4. It checks whether that range really contains the address.
5. It caches either the answer or a placeholder of "--" fields.

The project has three layers:

- **Values.** `Addresses`, `Entries` and `DottedQuad` model addresses, ranges
  and the text of an address. `ipCompare`, `compareTo`, `contains`, `isIP`, and
  the `String.split` and `Integer.parseInt` behaviour they rely on, are
  functions on these values.
- **Value-level tree.** `AvlModel` models a subtree as a `Tree` value that keeps
  each node's cached `height`. It contains the four rotations and the recursive
  `insert`, each computed as the code does. It also has a reference definition
  of insertion into a sorted sequence (`InsertByKey`) and the floor search
  behind `search`. Its lemmas prove three things:
  - insertion keeps the in-order sequence sorted, and that sequence is the
    reference insertion;
  - with the corrected right-left rotation, insertion keeps the AVL invariant
    and never throws;
  - the search finds the greatest begin address not above the key.
- **Heap.** `SearchTrees` models the `BinaryNode` and `SearchTree` objects as
  classes with the source's fields. Each method is proved to change the nodes
  exactly as the matching `AvlModel` function says. `Locating` models the
  `IPLocate` object with its cache, and `LocateResult`.

`RotationFindings` proves three consequences of the height bookkeeping in
`rotateWithRLChild` as written (see "## Findings").

## Model

| member | source | states |
|---|---|---|
| Addresses.Compare | src/me/joest/SearchTree.java:49-66 | the comparison is 0 exactly for equal addresses; it is negative or positive exactly when the 32-bit value is smaller or larger; it lies in -255..255 |
| Addresses.LexicographicIsNumeric | src/me/joest/SearchTree.java:55-63 | once the first octets agree, the first differing octet decides, and it decides as the numeric order does |
| Addresses.ValueInjective | src/me/joest/SearchTree.java:49-66 | two addresses have the same 32-bit value exactly when they are equal |
| Addresses.CompareFrom | src/me/joest/SearchTree.java:55-65 | what the loop returns from octet `i` on: 0 exactly when the remaining octets all agree, and always within -255..255 |
| Addresses.IpCompare | src/me/joest/SearchTree.java:49-66 | the octet loop returns the difference of the first differing octet, or 0, which is `Compare` |
| Entries.DefaultInfo | src/me/joest/IPLocate.java:281-288 | all four location fields are "--" |
| Entries.CompareTo | src/me/joest/SearchTree.java:37-40 | entries are ordered by begin address alone: 0 exactly for equal begins, and the sign of the numeric comparison of begins |
| Entries.Contains | src/me/joest/SearchTree.java:69-74 | true exactly when begin <= ip <= end as 32-bit values, both bounds included |
| AvlModel.AvlIsBalanced | src/me/joest/SearchTree.java:145-150 | in a tree with the AVL invariant, every cached height equals the true depth, and the true depths of siblings differ by at most one |
| AvlModel.Reheight | src/me/joest/SearchTree.java:213 | recomputing a node's height keeps the in-order sequence, and the node's height is exact when its children's heights are |
| AvlModel.RotateLL | src/me/joest/SearchTree.java:219-228 | the in-order sequence is unchanged; the new subtree has exact heights when the three moved subtrees have them |
| AvlModel.RotateRR | src/me/joest/SearchTree.java:231-240 | the in-order sequence is unchanged; the new subtree has exact heights when the three moved subtrees have them |
| AvlModel.RotateLR | src/me/joest/SearchTree.java:243-255 | the in-order sequence is unchanged; the new subtree has exact heights when the four moved subtrees have them |
| AvlModel.RotateRLAsWritten | src/me/joest/SearchTree.java:258-270 | the in-order sequence is unchanged; only the root and its left child are guaranteed exact heights, the right child is not (see Findings) |
| AvlModel.RotateRLCorrected | src/me/joest/SearchTree.java:258-270 | the right-left rotation with `+ 1` on both heights: the in-order sequence is unchanged, and all heights are exact when the moved subtrees' heights are |
| AvlModel.RotateRL | src/me/joest/SearchTree.java:258-270 | either version of the right-left rotation keeps the in-order sequence |
| AvlModel.Insert | src/me/joest/SearchTree.java:183-215 | a successful insertion returns a non-empty subtree |
| AvlModel.BalanceLeft | src/me/joest/SearchTree.java:190-197 | the rebalancing after an insertion on the left, when it does not throw, returns a non-empty subtree |
| AvlModel.BalanceRight | src/me/joest/SearchTree.java:201-209 | the rebalancing after an insertion on the right, when it does not throw, returns a non-empty subtree |
| AvlModel.Leaf | src/me/joest/SearchTree.java:107-110 | a new node holds just its entry and satisfies the AVL invariant |
| AvlModel.InsertByKey | src/me/joest/SearchTree.java:165-174 | the reference insertion only ever holds the old entries and the new one |
| AvlModel.InsertByKeySorted | src/me/joest/SearchTree.java:183-215 | the reference insertion keeps a sequence sorted by begin address sorted |
| AvlModel.InsertByKeyAdds | src/me/joest/SearchTree.java:183-215 | without an entry of the same begin, the reference insertion adds exactly the new entry (as a multiset) |
| AvlModel.InsertByKeyPresent | src/me/joest/SearchTree.java:211-212 | with an entry of the same begin present, the reference insertion changes nothing |
| AvlModel.InsertEqualInOrder | src/me/joest/SearchTree.java:211-213 | meeting an equal begin, `insert` only recomputes that node's height and keeps the in-order sequence |
| AvlModel.InsertInOrder | src/me/joest/SearchTree.java:183-215 | for either rotation, a successful insertion of a new node into an ordered tree gives an ordered tree whose in-order sequence is `InsertByKey` of the old one |
| AvlModel.InsertDuplicateKeepsEntries | src/me/joest/SearchTree.java:187-213 | inserting a begin already present leaves the in-order sequence unchanged |
| AvlModel.InsertCorrectedAvl | src/me/joest/SearchTree.java:183-215 | with the corrected rotation, inserting into a tree with the AVL invariant never throws, keeps the invariant, and grows the height by at most one, on the side where the entry went |
| AvlModel.BalanceLeftGrown | src/me/joest/SearchTree.java:190-197 | after a corrected insertion on the left, the rebalancing restores the AVL invariant with at most one level of growth |
| AvlModel.BalanceRightGrown | src/me/joest/SearchTree.java:201-209 | after a corrected insertion on the right, the rebalancing restores the AVL invariant with at most one level of growth |
| AvlModel.InsertLeftLeft | src/me/joest/SearchTree.java:192-193 | the LL case restores the AVL invariant at the old height |
| AvlModel.InsertLeftRight | src/me/joest/SearchTree.java:194-195 | the LR case finds the inner grandchild present and restores the AVL invariant at the old height |
| AvlModel.InsertRightRight | src/me/joest/SearchTree.java:207-208 | the RR case restores the AVL invariant at the old height |
| AvlModel.InsertRightLeft | src/me/joest/SearchTree.java:203-205 | the corrected RL case finds the inner grandchild present and restores the AVL invariant at the old height |
| AvlModel.InsertAllCorrected | src/me/joest/IPLocate.java:114-123 | inserting any sequence of ranges into an ordered AVL tree with the corrected rotation never throws and leaves an ordered AVL tree |
| AvlModel.InsertAll | src/me/joest/IPLocate.java:114-123 | inserting ranges one after the other: once any range has gone in without a throw, the tree is not empty |
| AvlModel.InsertAllOrdered | src/me/joest/IPLocate.java:114-123 | with either right-left rotation, as written or corrected, a build that does not throw leaves the tree ordered by begin address, so `search` applies to it |
| AvlModel.Floor | src/me/joest/SearchTree.java:272-297 | the walk of `search` with its candidate `min`: the answer is the starting candidate or an entry of the tree |
| AvlModel.FloorIsGreatestNotAbove | src/me/joest/SearchTree.java:272-297 | in an ordered tree, the search answers the entry with the greatest begin not above the key (the equal one when present), or the starting candidate when every begin is above the key |
| DottedQuad.SplitDots | src/me/joest/IPLocate.java:187 | `split` on '.': no piece contains a '.', and when the text holds a '.' the last piece, if any, is not empty |
| DottedQuad.ParseInt | src/me/joest/IPLocate.java:195 | a value is returned only for an optional sign followed by digits, and only within the 32-bit `int` range |
| DottedQuad.ParseAddr | src/me/joest/IPLocate.java:185-203 | an address is returned exactly for the texts `isIP` accepts, and its octets are the parsed pieces |
| DottedQuad.IsIP | src/me/joest/IPLocate.java:185-203 | the loop answers true exactly when the text splits into four pieces that each parse to 0..255 |
| DottedQuad.SplitFormat | src/me/joest/IPLocate.java:187 | the dotted-decimal text of an address splits into the four decimal texts of its octets |
| DottedQuad.FormatParses | src/me/joest/IPLocate.java:185-203 | round trip: `isIP` accepts the dotted-decimal text of every address, and that text parses back to the address |
| DottedQuad.TrailingDotAccepted | src/me/joest/IPLocate.java:187-189 | because `split` drops trailing empty pieces, a text with one '.' appended is accepted and names the same address |
| DottedQuad.LeadingZeroValue | src/me/joest/IPLocate.java:195 | a leading zero is accepted and does not change a piece's value |
| SearchTrees.BinaryNode.constructor | src/me/joest/SearchTree.java:107-110 | a fresh node with no children, height 0, whose value is a leaf |
| SearchTrees.BinaryNode.Linked | src/me/joest/SearchTree.java:112-118 | a fresh node over two existing disjoint subtrees, with the given height |
| SearchTrees.SearchTree.constructor | src/me/joest/SearchTree.java:139-143 | an empty tree with count 0 |
| SearchTrees.SearchTree.Height | src/me/joest/SearchTree.java:145-150 | -1 for an empty subtree, otherwise the node's cached `height` field |
| SearchTrees.SearchTree.HeightOfModel | src/me/joest/SearchTree.java:145-150 | on a well-formed subtree, `height` equals `H` of the subtree's value, so the heap heights are the ones `AvlModel` reasons about |
| SearchTrees.SearchTree.UpdateHeight | src/me/joest/SearchTree.java:213 | the node's value becomes `Reheight` of its old value; the rest of the tree is untouched |
| SearchTrees.SearchTree.RotateWithLeftChild | src/me/joest/SearchTree.java:219-228 | returns the old left child as the new root, and the subtree's value becomes `RotateLL` of the old value, over the same nodes |
| SearchTrees.SearchTree.RotateWithRightChild | src/me/joest/SearchTree.java:231-240 | returns the old right child, and the value becomes `RotateRR` of the old value |
| SearchTrees.SearchTree.RotateWithLRChild | src/me/joest/SearchTree.java:243-255 | returns the old left-right grandchild, and the value becomes `RotateLR` of the old value |
| SearchTrees.SearchTree.RaiseInnerAsWritten | src/me/joest/SearchTree.java:260-267 | lifts the inner grandchild above the right child; both heights are set without `+ 1`, the right child reading its own stale height |
| SearchTrees.SearchTree.RotateWithRLChild | src/me/joest/SearchTree.java:258-270 | returns the old right-left grandchild, and the value becomes `RotateRLAsWritten` of the old value |
| SearchTrees.SearchTree.RotateWithRLChildCorrected | src/me/joest/SearchTree.java:258-270 | the corrected rotation: the value becomes `RotateRLCorrected` of the old value |
| SearchTrees.SearchTree.BalanceLeftAt | src/me/joest/SearchTree.java:190-197 | the nodes change as `BalanceLeft` says, within the subtree's old nodes |
| SearchTrees.SearchTree.BalanceRightAt | src/me/joest/SearchTree.java:201-209 | the nodes change as `BalanceRight` with the corrected rotation says |
| SearchTrees.SearchTree.InsertAt | src/me/joest/SearchTree.java:183-215 | returns the new subtree root; the value becomes `Insert` of the new node into the old value, over the old nodes and the new one |
| SearchTrees.SearchTree.InsertLeftAt | src/me/joest/SearchTree.java:187-197 | the left-descent branch of `insert`, as `Insert` computes it |
| SearchTrees.SearchTree.InsertRightAt | src/me/joest/SearchTree.java:198-210 | the right-descent branch of `insert`, as `Insert` computes it |
| SearchTrees.SearchTree.CreateTree | src/me/joest/SearchTree.java:152-156 | the node becomes the root and the count goes up by one |
| SearchTrees.SearchTree.InsertNode | src/me/joest/SearchTree.java:165-174 | the tree stays an ordered AVL tree; its entries become `InsertByKey` of the old ones; the count goes up by one even for a duplicate begin |
| SearchTrees.SearchTree.InsertBelowRoot | src/me/joest/SearchTree.java:169-173 | the non-empty case: the root becomes the result of `insert` from the root, and the count goes up by one |
| SearchTrees.SearchTree.InsertEntry | src/me/joest/SearchTree.java:159-163 | a fresh node is inserted; the entries become `InsertByKey` of the old ones; the count goes up by one |
| SearchTrees.SearchTree.Answers | src/me/joest/SearchTree.java:272-297 | the answer of `search` for a key: it throws exactly on an empty tree, and otherwise returns a node holding the root's entry or an entry of the tree |
| SearchTrees.SearchTree.Search | src/me/joest/SearchTree.java:272-297 | on any well-formed tree ordered by begin address, whatever its cached heights: a null key gives null; an empty tree throws; otherwise the node found holds the greatest begin not above the key, or is the root when every begin is above it |
| SearchTrees.SearchTree.SearchIp | src/me/joest/SearchTree.java:299-305 | on any well-formed ordered tree, the search for an address answers as `Search` does for that key |
| Locating.Placeholder | src/me/joest/IPLocate.java:231-235 | the record for an uncovered address carries that text and "--" in every field |
| Locating.FromEntry | src/me/joest/IPLocate.java:244-247 | the record carries the range's four fields and the address text |
| Locating.IsInChina | src/me/joest/IPLocate.java:256-262 | `compareTo` returning 0 is string equality, so the test holds exactly when the whole country field is "境内"; what it says of a lookup is `LocateInChina` |
| Locating.LocateInChina | src/me/joest/IPLocate.java:256-262 | with ordered, non-overlapping ranges, the answer of a lookup that misses the cache is in China exactly when a range holding the address has the country "境内", and the same holds for the record cached |
| Locating.PlaceholderNotInChina | src/me/joest/IPLocate.java:256-262 | a placeholder is never in China |
| Locating.FloorFindsContainingRange | src/me/joest/IPLocate.java:150-164 | with ordered, non-overlapping ranges, the search finds the range that holds the address whenever one does |
| Locating.LocateRejects | src/me/joest/IPLocate.java:138-142 | text `isIP` refuses gives null and leaves the cache unchanged |
| Locating.LocateCached | src/me/joest/IPLocate.java:144-148 | a cached text is answered from the cache, whatever the tree holds, and the cache is unchanged |
| Locating.LocateMissCaches | src/me/joest/IPLocate.java:150-169 | an uncached valid text adds exactly that key to the cache and keeps every other entry; a null answer caches the placeholder, and any other answer is the value cached |
| Locating.LocateFindsRange | src/me/joest/IPLocate.java:150-169 | with ordered, non-overlapping ranges, an uncached valid text is answered with the range that holds it when there is one, and null when none does |
| Locating.RepeatedMiss | src/me/joest/IPLocate.java:144-168 | for an address no range covers, the first lookup answers null and the second answers the cached placeholder |
| Locating.IPLocate.constructor | src/me/joest/IPLocate.java:63-66 | the object holds the given tree and an empty cache |
| Locating.LocateStep | src/me/joest/IPLocate.java:135-170 | one call of `locate` on a cache and a tree: entries already cached never change, at most the asked text is added, and a non-null answer is the record cached for the text |
| Locating.IPLocate.Locate | src/me/joest/IPLocate.java:135-170 | on any well-formed tree ordered by begin address, whatever its cached heights, the answer and the new cache are exactly `LocateStep` of the old cache, the tree's value and the text |
| Locating.IPLocate.Clear | src/me/joest/IPLocate.java:175-178 | the cache becomes empty |
| RotationFindings.AsWrittenStaleHeight | src/me/joest/SearchTree.java:266-267 | inserting begins 0, 2, 1 with the rotation as written leaves a root of cached height 2 over a tree of true depth 1 |
| RotationFindings.AsWrittenLosesBalance | src/me/joest/SearchTree.java:266-267 | inserting begins 0, 1, 2, 5, 4, 3 with the rotation as written leaves a tree whose root's subtrees differ in true depth by two |
| RotationFindings.AsWrittenThrows | src/me/joest/SearchTree.java:266-267 | inserting begins 3, 6, 5, 2, 4, 1, 6, 4, 2 with the rotation as written throws `NullPointerException` |

## Left out

- File I/O is not modelled: `init`, `build`, `serialTree`, the serialised `ips.dat` and reading the tab-separated range file. `AvlModel.InsertAll` stands for the insertion loop of `build`.
- The singleton (`getInstance`, `destroy`), the `main` methods, `printTree`, every `toString`, and the console messages are not modelled.
- The getters and setters of `IPEntry` and `Info` are not modelled. Neither are the constructors that only fill fields (`IPEntry()`, `LocateResult()`), or `BinaryNode()` with a null entry.
- `BinaryNode.compareTo` is not modelled as its own member: it is `Entries.CompareTo` on the two nodes' entries.
- Entries hold parsed addresses: every begin and end is assumed to be four pieces, each in 0..255. `ipCompare` reads only the first four pieces and never checks their range. Texts such as "1.2.3.4.5", "300.0.0.0" or "-1.0.0.0" compare without throwing, and large pieces can overflow `tempa - tempb`. Texts with fewer pieces or non-numeric pieces throw. None of these texts is represented.
- `Locating.IPLocate.Locate` takes the address parsed once: `search(String)` builds a key entry from the text, and `ipCompare` later re-parses it. The two agree because the text has passed `isIP` (`DottedQuad.ParseAddr`).
- DottedQuad.ParseInt: accepts ASCII digits only. `Integer.parseInt` also accepts digits of other Unicode scripts.
- SearchTrees.SearchTree.InsertNode: `nodeNum` is an unbounded integer, so its 32-bit overflow is not modelled.
- SearchTrees.SearchTree.InsertNode: requires a node as `new BinaryNode(ip)` makes it, with no children and height 0, because only that caller exists. `insert(BinaryNode)` is public and would accept any subtree.
- SearchTrees.SearchTree.CreateTree: requires the node to be an ordered AVL subtree disjoint from the tree, so that the class invariant holds.
- SearchTrees.SearchTree.InsertAt: the heap insertion requires that `AvlModel.Insert` does not throw, and it uses the corrected right-left rotation. The throwing runs and the rotation as written are shown at the value level (`RotationFindings`) and by `SearchTrees.SearchTree.RotateWithRLChild`.
- SearchTrees.SearchTree.RotateWithLeftChild: requires the children it dereferences to exist. When one is null, the source throws `NullPointerException`; `AvlModel.BalanceLeft` and `AvlModel.BalanceRight` model those cases as values. The same holds for the other three rotations.
- SearchTrees.SearchTree.HangLeft and HangRight: the rotations store both links before they recompute the heights. `HangLeft`/`HangRight` recompute each height right after its node's store. The final state is the same, because the height stored first is the one read last.
- SearchTrees.SearchTree.Search: the key is given by its begin address (`Option<Addr>`), because `search` reads nothing else of it.
- Locating.IPLocate.Locate: the text is a `string`, never null. `locate(null)` throws `NullPointerException` in `isIP` (IPLocate.java:187), and that case is not modelled.
- Locating.LocateStep: a null node from `search` (lines 152-156) and a range that does not contain the address (lines 165-169) are one case. Both cache the placeholder and answer null. `search` never returns null for a non-null key on a non-empty tree.

## Findings

| source | as written | input that shows it | evidently intended | confidence | as-written member | corrected member |
|---|---|---|---|---|---|---|
| src/me/joest/SearchTree.java:266-267 | `rotateWithRLChild` sets `k1.height = max(height(k1.left), height(k2.right))` and `k2.height = max(height(k2.left), height(k2.right))`. Neither adds 1, and after `k2.right = k1` the first reads k1's own old height. | Insert ranges with begins 0.0.0.0, 0.0.0.2, 0.0.0.1 into an empty tree: the root's cached height is 2 over a tree of true depth 1. Begins 0, 1, 2, 5, 4, 3 give a tree that is not balanced. Begins 3, 6, 5, 2, 4, 1, 6, 4, 2 throw `NullPointerException` in `rotateWithLRChild`. | The mirror image of `rotateWithLRChild`: each height is one more than the larger height of the node's new children. | not executed | RotationFindings.AsWrittenStaleHeight, RotationFindings.AsWrittenLosesBalance, RotationFindings.AsWrittenThrows, SearchTrees.SearchTree.RotateWithRLChild | AvlModel.RotateRLCorrected, AvlModel.InsertCorrectedAvl, AvlModel.InsertAllCorrected, SearchTrees.SearchTree.RotateWithRLChildCorrected |
