# DradestTrie in Dafny

A model of the two prefix trees of the DradestTrie library, with proofs
about them.

- `CharTrie` is a 26-way trie of lowercase words with a `wordEnd` flag per
  node. Its operations are `insert`, `containsKey`, `isEmpty`, `isPrefix`
  and the pruning `remove`.
- `BitTrie` is a binary trie of fixed depth 32 over Java `int` keys. Its
  internal nodes carry the sentinel -1 and the node at the end of a path
  carries the key. Its operations are `insert`, `containsKey`, `isEmpty`
  and the pruning `remove`.

Both tries are immutable datatypes with `Option` children. Every operation
is a pure function that returns the new tree. Each trie has an abstraction
function to the set of keys it stores, and each has a structural invariant:

- `CharTrieSpec.Words` maps a word trie to its words. `CharTrieSpec.Pruned`
  says that no node other than the root is a dead end.
- `BitTrieSpec.Keys` maps a binary trie to the numbers its paths spell.
  `BitTrieSpec.WellFormed` says that:
  - leaves sit at depth 32 and have no child;
  - internal nodes hold -1 and have a child;
  - the root keeps the value 0 it was built with;
  - the root has no child[1], since bit 31 always reads 0.

  `BitTrieSpec.KeysStored` says that each stored key's leaf holds that key.

The proofs state insert, lookup and remove against those sets.

Modules:

| file | module | contents |
|---|---|---|
| `wrappers.dfy` | `Wrappers` | `Option` |
| `chartrie.dfy` | `CharTrie` | the word trie and its operations |
| `chartrie_spec.dfy` | `CharTrieSpec` | `Words`, `Pruned` and the theorems about the word trie |
| `chartrie_as_written.dfy` | `CharTrieAsWritten` | the word trie's removal as written, on an object heap (see Findings) |
| `bits.dfy` | `Bits` | the bit test `(key & (1 << i)) >= 1` on 32-bit ints |
| `bittrie.dfy` | `BitTrie` | the binary trie and its operations |
| `bittrie_spec.dfy` | `BitTrieSpec` | `Keys`, `WellFormed`, `KeysStored` and the theorems about the binary trie |
| `basic_example.dfy` | `BasicExample` | the calls of the demonstration driver, stated as lemmas |

Points about the model:

- **Remove keeps the root.** Java's `remove` calls `removeUtil(root, …)`,
  throws away the reference it returns, and keeps the in-place changes to
  the root. The model's `Remove` applies the root-level step (`RemoveAt`)
  and never replaces the root.
- **Line 153 of CharTrie.java.** There `removeUtil` returns `root` where the
  method's contract ("@return modified node") and lines 149-150 call for
  `node`. The main model uses `node`. The code as written is modelled
  separately and is reported under Findings.
- **Binary trie keys.** BitTrie.java documents its keys as unsigned
  integers in 31 bits (lines 4, 48 and 72). The code accepts every Java
  `int` and tests bit 31 with `1 << 31`, which is negative, so that test
  never succeeds. The model follows the code: keys range over all ints,
  and a negative key shares the path of its non-negative alias k + 2^31
  (`Bits.Canonical`).
- **Word trie characters.** CharTrie.java documents its words as made up
  of English lowercase letters (lines 3-5). Lines 89 and 114 index
  `children` with `key.charAt(level) - 'a'`, so any other character throws
  ArrayIndexOutOfBoundsException once a walk reaches it. The model admits
  only words over 'a'..'z', through the precondition `CharTrie.IsWord`.

## Model

Paths are relative to the repository root.

| member | source | states |
|---|---|---|
| CharTrie.Index | src/main/java/com/dradest/trie/CharTrie.java:89 | `key.charAt(level) - 'a'` of a lowercase letter is a valid slot, below ALPHABET_SIZE |
| CharTrie.NewNode | src/main/java/com/dradest/trie/CharTrie.java:26-33 | a new node has ALPHABET_SIZE empty slots and is not a word end |
| CharTrie.Empty | src/main/java/com/dradest/trie/CharTrie.java:43-45 | a new trie is well formed, empty, and its root is not a word end |
| CharTrie.IsPrefix | src/main/java/com/dradest/trie/CharTrie.java:67-74 | isPrefix holds iff at least one of the slots is occupied |
| CharTrie.IsEmpty | src/main/java/com/dradest/trie/CharTrie.java:51-60 | isEmpty holds iff every slot of the root is empty |
| CharTrie.OccupiedFrom | src/main/java/com/dradest/trie/CharTrie.java:68-73 | the slot scan from slot `from` returns true iff some slot at or after `from` is occupied |
| CharTrie.Find | src/main/java/com/dradest/trie/CharTrie.java:111-123 | the walk for the empty key stays at the node, and every node a walk reaches has ALPHABET_SIZE slots; the words the walk finds are stated by CharTrieSpec.FindWords |
| CharTrie.ContainsKey | src/main/java/com/dradest/trie/CharTrie.java:105-127 | a non-empty word is contained only in a trie that is not empty; containsKey(w) iff w is stored is CharTrieSpec.ContainsKeyWords |
| CharTrie.InsertAt | src/main/java/com/dradest/trie/CharTrie.java:88-97 | after the insert loop for w, the walk for w succeeds and ends on a word end |
| CharTrie.Insert | src/main/java/com/dradest/trie/CharTrie.java:80-98 | insert keeps every node at exactly ALPHABET_SIZE slots |
| CharTrie.RemoveAt | src/main/java/com/dradest/trie/CharTrie.java:143-158 | after clearing the flag at the end of w (lines 143-147) and reinstalling the child slot (lines 157-158), the walk for w no longer ends on a word end |
| CharTrie.RemoveUtil | src/main/java/com/dradest/trie/CharTrie.java:136-166 | a subtree removeUtil keeps is never a dead end: it ends a word or has a child |
| CharTrie.Remove | src/main/java/com/dradest/trie/CharTrie.java:172-177 | remove keeps every node at exactly ALPHABET_SIZE slots |
| CharTrieSpec.WordsAreWords | src/main/java/com/dradest/trie/CharTrie.java:80-98 | every stored word is over 'a'..'z' |
| CharTrieSpec.DeadWords | src/main/java/com/dradest/trie/CharTrie.java:161-163 | a node with no child and no flag stores no word, so dropping it loses nothing |
| CharTrieSpec.LiveWords | src/main/java/com/dradest/trie/CharTrie.java:161-163 | in a pruned tree, a node that ends a word or has a child stores at least one word |
| CharTrieSpec.FindWords | src/main/java/com/dradest/trie/CharTrie.java:105-127 | the walk for w ends at a flagged node iff w is stored |
| CharTrieSpec.ContainsKeyWords | src/main/java/com/dradest/trie/CharTrie.java:105-127 | containsKey(w) iff w is in the stored set |
| CharTrieSpec.FindConcat | src/main/java/com/dradest/trie/CharTrie.java:111-123 | the walk for p + s is the walk for p followed by the walk for s, and fails if an edge on p is missing |
| CharTrieSpec.NewNodeWords | src/main/java/com/dradest/trie/CharTrie.java:26-33 | a new node stores no word and is pruned |
| CharTrieSpec.EmptyTrie | src/main/java/com/dradest/trie/CharTrie.java:43-45 | a new trie stores no word, is pruned and is empty |
| CharTrieSpec.EmptinessWords | src/main/java/com/dradest/trie/CharTrie.java:51-60 | an empty trie stores at most the empty word; a pruned trie storing at most the empty word is empty |
| CharTrieSpec.InsertAtWords | src/main/java/com/dradest/trie/CharTrie.java:88-97 | the insert loop adds exactly w to the subtree's words |
| CharTrieSpec.InsertWords | src/main/java/com/dradest/trie/CharTrie.java:80-98 | insert(w) adds exactly w; afterwards containsKey(w) holds and every word contained before is still contained |
| CharTrieSpec.InsertAtIdempotent | src/main/java/com/dradest/trie/CharTrie.java:88-97 | running the insert loop twice for w gives the same subtree as running it once |
| CharTrieSpec.InsertIdempotent | src/main/java/com/dradest/trie/CharTrie.java:80-98 | inserting w twice gives the same trie as inserting it once |
| CharTrieSpec.InsertAtPruned | src/main/java/com/dradest/trie/CharTrie.java:88-97 | the insert loop keeps the tree pruned, and the node it ends at is not a dead end |
| CharTrieSpec.InsertPruned | src/main/java/com/dradest/trie/CharTrie.java:80-98 | insert keeps the no-dead-end invariant |
| CharTrieSpec.InsertEmptyWord | src/main/java/com/dradest/trie/CharTrie.java:97 | insert("") makes containsKey("") true and does not change isEmpty() |
| CharTrieSpec.RemoveAtWords | src/main/java/com/dradest/trie/CharTrie.java:136-166 | the removal pass removes exactly w from the subtree's words |
| CharTrieSpec.RemoveWords | src/main/java/com/dradest/trie/CharTrie.java:172-177 | remove(w) removes exactly w, except for the empty word in an empty trie; afterwards containsKey(w) is false there, and every other word keeps its membership |
| CharTrieSpec.RemoveAtPruned | src/main/java/com/dradest/trie/CharTrie.java:149-151 | the removal pass keeps the tree pruned: every dead end it leaves is dropped |
| CharTrieSpec.RemovePruned | src/main/java/com/dradest/trie/CharTrie.java:161-163 | remove keeps the no-dead-end invariant |
| CharTrieSpec.EmptyWordStuck | src/main/java/com/dradest/trie/CharTrie.java:172-177 | when the empty word is stored alone, the trie is empty, remove("") changes nothing, and "" stays contained |
| CharTrieSpec.Canonical | src/main/java/com/dradest/trie/CharTrie.java:136-166 | two pruned trees that store the same words are equal |
| CharTrieSpec.RemoveInsert | src/main/java/com/dradest/trie/CharTrie.java:80-98 | in a pruned trie, inserting a new word and removing it again restores the trie exactly, unless the word is "" and the trie is empty |
| CharTrieAsWritten.InsertFrom | src/main/java/com/dradest/trie/CharTrie.java:88-97 | the insert loop only allocates: no reference dangles and the heap never shrinks |
| CharTrieAsWritten.RemoveUtil | src/main/java/com/dradest/trie/CharTrie.java:136-166 | removeUtil as written allocates nothing and leaves no dangling reference; at the end of the key it returns the root |
| CharTrieAsWritten.Remove | src/main/java/com/dradest/trie/CharTrie.java:172-177 | remove as written allocates nothing and leaves no dangling reference |
| CharTrieAsWritten.PhantomWord | src/main/java/com/dradest/trie/CharTrie.java:153 | with "a" and "b" stored, removing "a" makes containsKey("ab") true, though "ab" was never inserted |
| CharTrieAsWritten.LostWord | src/main/java/com/dradest/trie/CharTrie.java:153 | with "a" and "ab" stored, removing "a" makes containsKey("ab") false |
| Bits.Canonical | src/main/java/com/dradest/trie/BitTrie.java:56 | the key as the trie sees it lies in [0, 2^31) and equals the key when the key is non-negative |
| Bits.SignBitReadsZero | src/main/java/com/dradest/trie/BitTrie.java:56 | at i = 31, `(key & (1 << 31)) >= 1` is false for every int, so the root's child[0] is taken |
| Bits.LowBit | src/main/java/com/dradest/trie/BitTrie.java:81 | below bit 31, the child index taken is the corresponding bit of the canonical key |
| Bits.SamePathCanonical | src/main/java/com/dradest/trie/BitTrie.java:79-90 | two ints take the same 32 children iff their canonical keys are equal |
| Bits.Mask | src/main/java/com/dradest/trie/BitTrie.java:56 | `1 << i` is an int whose 32-bit pattern has bit i alone set, and it is >= 1 iff i < 31 |
| Bits.AndMask | src/main/java/com/dradest/trie/BitTrie.java:81 | `key & (1 << i)` is 0 or the pattern of bit i alone, and it is >= 1 iff i < 31 and bit i of the key is set |
| Bits.CurrentBit | src/main/java/com/dradest/trie/BitTrie.java:131 | the child index taken at bit i is 1 iff i < 31 and bit i of the key's 32-bit pattern is set |
| BitTrie.NewNode | src/main/java/com/dradest/trie/BitTrie.java:19-23 | a new internal node holds the sentinel -1 and has no child |
| BitTrie.NodeOf | src/main/java/com/dradest/trie/BitTrie.java:28-32 | a node built with x holds x and has no child |
| BitTrie.Empty | src/main/java/com/dradest/trie/BitTrie.java:42-44 | a new trie is empty and its root holds 0 |
| BitTrie.IsEmpty | src/main/java/com/dradest/trie/BitTrie.java:100-105 | an empty trie contains no key |
| BitTrie.Find | src/main/java/com/dradest/trie/BitTrie.java:79-90 | a walk of no level stays at the node, and one that descends a level starts at a node with a child; the numbers the walk finds are stated by BitTrieSpec.PathsMember |
| BitTrie.ContainsKey | src/main/java/com/dradest/trie/BitTrie.java:75-94 | a trie whose root has no child[0] contains no key, because bit 31 always reads 0; containsKey(k) iff Canonical(k) is stored is BitTrieSpec.ContainsKeyKeys |
| BitTrie.InsertAt | src/main/java/com/dradest/trie/BitTrie.java:54-67 | the insert loop writes a value only into the node at the end of the path |
| BitTrie.Insert | src/main/java/com/dradest/trie/BitTrie.java:50-68 | insert leaves the root's value unchanged |
| BitTrie.RemoveAt | src/main/java/com/dradest/trie/BitTrie.java:131-133 | reinstalling the child leaves the node's value unchanged |
| BitTrie.RemoveUtil | src/main/java/com/dradest/trie/BitTrie.java:114-139 | removeUtil never rewrites a value: a node it keeps holds its old value |
| BitTrie.Remove | src/main/java/com/dradest/trie/BitTrie.java:144-149 | remove leaves the root's value unchanged |
| BitTrieSpec.FindSamePath | src/main/java/com/dradest/trie/BitTrie.java:79-90 | the walk depends only on the bits it reads |
| BitTrieSpec.PathsMember | src/main/java/com/dradest/trie/BitTrie.java:75-94 | a number below 2^(b+1) spells a path iff the walk for it succeeds |
| BitTrieSpec.ContainsKeyKeys | src/main/java/com/dradest/trie/BitTrie.java:75-94 | containsKey(k) iff the canonical form of k is in the stored set |
| BitTrieSpec.KeysBound | src/main/java/com/dradest/trie/BitTrie.java:56 | while the root has no child[1], every stored number is below 2^31 |
| BitTrieSpec.SignBitAlias | src/main/java/com/dradest/trie/BitTrie.java:81 | k and k - 2^31 share a path: containsKey cannot tell them apart |
| BitTrieSpec.InsertAtFindKey | src/main/java/com/dradest/trie/BitTrie.java:54-67 | after the insert loop, the walk for the key succeeds and ends at a node holding the key |
| BitTrieSpec.InsertAtFindOther | src/main/java/com/dradest/trie/BitTrie.java:54-67 | the insert loop does not change the walk of any key on another path |
| BitTrieSpec.InsertContains | src/main/java/com/dradest/trie/BitTrie.java:50-68 | after insert(k), containsKey(j) iff it held before or j has k's canonical key |
| BitTrieSpec.KeysContains | src/main/java/com/dradest/trie/BitTrie.java:75-94 | for 0 <= v < 2^31, v is stored iff containsKey(v) |
| BitTrieSpec.InsertKeys | src/main/java/com/dradest/trie/BitTrie.java:50-68 | insert(k) adds exactly k's canonical key; afterwards containsKey(k) holds, isEmpty() is false, and the root's child[1] is still absent |
| BitTrieSpec.InsertAtPresent | src/main/java/com/dradest/trie/BitTrie.java:59-67 | when the key's path exists and ends at the key, the insert loop changes nothing |
| BitTrieSpec.ReinsertPresent | src/main/java/com/dradest/trie/BitTrie.java:59-67 | re-inserting a present key creates no node and leaves the leaf value unchanged |
| BitTrieSpec.InsertIdempotent | src/main/java/com/dradest/trie/BitTrie.java:50-68 | inserting k twice gives the same trie as inserting it once |
| BitTrieSpec.ShapeFind | src/main/java/com/dradest/trie/BitTrie.java:79 | in a well-formed trie, the node at the end of a 32-level walk has no child |
| BitTrieSpec.InsertAtShape | src/main/java/com/dradest/trie/BitTrie.java:54-61 | the insert loop keeps the shape: leaves at depth 32, internal nodes are sentinels with a child |
| BitTrieSpec.InsertValid | src/main/java/com/dradest/trie/BitTrie.java:50-68 | inserting a non-negative key keeps the trie well formed, with every stored key's leaf holding that key |
| BitTrieSpec.RemoveUtilFindKey | src/main/java/com/dradest/trie/BitTrie.java:120-128 | when the leaf is clearable, the walk for the key fails after removal |
| BitTrieSpec.RemoveAtFindOther | src/main/java/com/dradest/trie/BitTrie.java:131-137 | removal does not change the walk of any key on another path |
| BitTrieSpec.RemoveUtilKeep | src/main/java/com/dradest/trie/BitTrie.java:120-128 | a leaf holding a different key (an alias) is left in place, and so is every node above it |
| BitTrieSpec.RemoveContains | src/main/java/com/dradest/trie/BitTrie.java:114-139 | after a removal that clears the leaf, containsKey(j) iff it held before and j has another canonical key |
| BitTrieSpec.RemoveKeys | src/main/java/com/dradest/trie/BitTrie.java:144-149 | a clearable key's canonical form leaves the stored set and the key is no longer contained; otherwise, including when the key is absent, remove changes nothing |
| BitTrieSpec.RemoveAtShape | src/main/java/com/dradest/trie/BitTrie.java:135-137 | pruning keeps the shape: no sentinel node without a child remains below the root |
| BitTrieSpec.EmptinessKeys | src/main/java/com/dradest/trie/BitTrie.java:100-105 | in a well-formed trie, isEmpty() iff no key is stored |
| BitTrieSpec.RemoveValid | src/main/java/com/dradest/trie/BitTrie.java:114-149 | remove keeps the invariant. For k >= 0 it removes exactly k, and containsKey(k) is false afterwards. A negative k is never removed from such a trie, because its leaf holds the non-negative alias |
| BitTrieSpec.RootNeverPruned | src/main/java/com/dradest/trie/BitTrie.java:135-137 | the root, whose value is 0, is never pruned |
| BitTrieSpec.EmptyValid | src/main/java/com/dradest/trie/BitTrie.java:42-44 | a new trie is well formed, stores nothing and is empty |
| BitTrieSpec.RemoveOnlyKey | src/main/java/com/dradest/trie/BitTrie.java:100-105 | removing the only key makes isEmpty() true and gives back a new trie |
| BitTrieSpec.InsertRemoveEmpty | src/main/java/com/dradest/trie/BitTrie.java:144-149 | inserting a non-negative key into a new trie and removing it gives back a new trie |
| BasicExample.ThreeWordsContent | src/test/java/com/dradest/trie/example/BasicExample.java:38-40 | inserting "cat", "bat" and "kitchen" stores exactly those words and keeps the trie pruned |
| BasicExample.ThreeWordsLookups | src/test/java/com/dradest/trie/example/BasicExample.java:42-45 | the trie is not empty; it contains "cat" but not "scat" (missing edge) or "ca" (unflagged prefix) |
| BasicExample.ThreeWordsRemoveCat | src/test/java/com/dradest/trie/example/BasicExample.java:47-49 | after remove("cat") the trie is not empty, "cat" is gone and "bat" stays |
| BasicExample.CharTrieDriver | src/test/java/com/dradest/trie/example/BasicExample.java:33-49 | every answer the word-trie half of the driver prints |
| BasicExample.CatalogSurvives | src/main/java/com/dradest/trie/CharTrie.java:136-166 | removing "cat" keeps "catalog", the longer word it prefixes |
| BasicExample.NoPhantomWord | src/main/java/com/dradest/trie/CharTrie.java:136-166 | removing "a" from {"a", "b"} leaves exactly {"b"}, so "ab" is not contained |
| BasicExample.ThreeKeysContent | src/test/java/com/dradest/trie/example/BasicExample.java:20-22 | inserting 5, 7 and 9 stores exactly those keys and keeps the trie valid |
| BasicExample.ThreeKeysFacts | src/test/java/com/dradest/trie/example/BasicExample.java:24-31 | the trie is not empty and contains 5 but not 6. After remove(5) it is still not empty, 5 is gone and 7 stays |
| BasicExample.BitTrieDriver | src/test/java/com/dradest/trie/example/BasicExample.java:16-31 | every answer the binary-trie half of the driver prints |
| BasicExample.ConstructorsBlank | src/test/java/com/dradest/trie/example/BasicExample.java:16-34 | both constructors build tries that store nothing, so the driver lemmas apply to them |

## Left out

- The `static` root field, which every instance of a class shares (CharTrie.java:39, BitTrie.java:38). Each modelled trie owns its root, and aliasing across instances is not modelled.
- Object identity and in-place mutation. Every operation returns a new value. `remove` keeps the root because the value Java discards is the root's replacement.
- The cycle that CharTrie.java:153 creates. The main model returns the node. `CharTrieAsWritten` models the line as written, on a heap, for the finding below.
- Characters outside 'a'..'z', excluded by the precondition `CharTrie.IsWord`. In Java such a character throws only once a walk reaches it: `containsKey` and `remove` return normally when a missing edge ends the walk first (`containsKey("b!")` on an empty trie is false), and `insert("ab!")` creates the nodes for "ab" before it throws, leaving dead ends behind.
- The loops of `insert`, `containsKey`, `isEmpty` and `isPrefix` are written as recursive functions: over the remaining suffix, the bit index or the slot index.
- Printing in BasicExample.java. The driver lemmas state the printed values.
- BitTrieSpec.KeysStored: it constrains only the leaves of non-negative keys. A negative key is stored under its non-negative alias and overwrites that alias's leaf value. `ContainsKeyKeys`, `InsertKeys` and `RemoveKeys` hold for every int, but `InsertValid` is stated for non-negative keys only.
- CharTrieAsWritten: models `insert`, `containsKey`, `isEmpty` and `remove` only as far as the finding needs them. It is not proved equivalent to the tree model on inputs that avoid line 153.

## Findings

| source | as written | input that shows it | evidently intended | confidence | as-written member | corrected member |
|---|---|---|---|---|---|---|
| src/main/java/com/dradest/trie/CharTrie.java:153 | at the end of the key, `removeUtil` returns `root`, and the caller stores it in the removed word's last slot, creating a cycle back to the root | insert "a", insert "b", remove "a": containsKey("ab") becomes true | return `node` (null when it has no child), as "@return modified node" says | high; not executed | CharTrieAsWritten.PhantomWord | BasicExample.NoPhantomWord |
| src/main/java/com/dradest/trie/CharTrie.java:153 | the same `return root` overwrites the slot that led to every longer word sharing the prefix | insert "a", insert "ab", remove "a": containsKey("ab") becomes false | return `node`, keeping the node that still leads to "ab" | high; not executed | CharTrieAsWritten.LostWord | CharTrieSpec.RemoveWords |
