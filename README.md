# PrefixTree: a verified model of an autocompletion trie

This project models the prefix tree in `src/autoComplete/PrefixTree.java` and proves what it does. The tree stores words character by character. The root is an unmarked sentinel. Every other node holds one `letter`, a map of `children` keyed by character, and an `isWord` flag. The class offers a constructor, which creates the root, and four operations:

- `add`: walks down from the root and creates a node for every missing character.
- `contains`: tests whether a word is stored.
- `getWordsForPrefix`: collects the stored words under a prefix's node, by a recursive pre-order walk (`preOrderTraverse`).
- `size`: returns the running count kept in the `size` field.

The model is imperative, like the Java:

- `TreeNode` and `PrefixTree` are Dafny classes whose fields are updated in place.
- `add` and `contains` are methods with loops.
- `preOrderTraverse` is a recursive method.
- `size` is a Java `int`. It is modelled as a 32-bit integer with explicit wrap-around (module `JavaInt`).

Every `PrefixTree` carries ghost state that describes it as values:

- `Paths` maps each string spelled from the root to its node.
- `Repr` is the set of nodes.
- `Words` is the set of paths whose node is marked.
- `Count` is the number of times `size` was incremented.

The class invariant `Valid()` ties this ghost state to the heap:

- Edges lead from a path's node to the node of the path extended by the edge's key.
- Every node's letter is the key it hangs under.
- No node is shared.
- The root is unmarked.
- Every leaf ends a stored word.
- `size` is `Count` wrapped into the `int` range.
- `Count` is at least the number of stored words, so `size` is too while no wrap-around has happened.

The operations are proved against this state.

The module `Scenarios` calls the operations on small concrete inputs and proves the outcomes from the contracts alone. The outcomes show the code's sharp edges.

The source's own comments promise more than the code does. The model follows the code:

- **Prefixes of stored words.** The doc comment of `add` (`PrefixTree.java:22`) says it adds the word to the tree. For a strict prefix of a stored word, that means marking the existing node. The code only marks a node it has just created (`PrefixTree.java:34-36`), and takes the `else` branch for an existing one (`:40-42`). So that word is counted in `size` (`:45`) but `contains` never finds it.
- **What `size` counts.** The comments on the field and on `size()` (`:14`, `:116`) say it is the number of words in the tree. The code counts every `add` whose `contains` test failed, including `add("")` and the prefix case above. The model proves only that `size` is at least the number of stored words, while no wrap-around has happened.
- **The empty prefix.** The doc comment of `getWordsForPrefix` (`:75-79`) promises the list of words with the prefix, with no exception. With an empty prefix the code calls `substring(0, -1)` (`:97`), which throws. The model makes a non-empty prefix a precondition.

## Model

| member | source | states |
|---|---|---|
| JavaInt.Inc | src/autoComplete/PrefixTree.java:45 | `size++` on an `int`: one more, reduced into the `int` range modulo 2^32, so `MaxInt` wraps to `MinInt` |
| JavaInt.Wrap | src/autoComplete/PrefixTree.java:15 | the `int` counter after `n` increments from zero equals `n` while `n` fits in an `int` |
| JavaInt.WrapModulo | src/autoComplete/PrefixTree.java:45 | `size++` wraps: after `n` increments the counter is `n` reduced into the `int` range modulo 2^32 |
| AutoComplete.TreeNode.constructor | src/autoComplete/PrefixTree.java:32 | a new node has no children and is not marked as a word |
| AutoComplete.NewLeaf | src/autoComplete/PrefixTree.java:32-36 | the created node is fresh, carries the character, has no children, and is marked exactly when it is for the word's last character |
| AutoComplete.PrefixTree.constructor | src/autoComplete/PrefixTree.java:17-19 | the new tree is valid, holds only the root path, stores no word and has `size` 0 |
| AutoComplete.PrefixTree.Contains | src/autoComplete/PrefixTree.java:55-73 | true exactly when the word is stored; equivalently, exactly when the word is non-empty, its whole path exists and its last node is marked; so `contains("")` is false; changes nothing |
| AutoComplete.PrefixTree.Add | src/autoComplete/PrefixTree.java:26-48 | keeps the invariant; a stored word leaves the tree and `size` untouched; otherwise `size` goes up by exactly one (with `int` wrap-around); the word becomes stored exactly when its path did not exist, so an existing unmarked path stays unmarked; the paths become the old ones plus every prefix of the word; old paths keep their nodes |
| AutoComplete.PrefixTree.AddKeepsNodes | src/autoComplete/PrefixTree.java:31-42 | after `Add`, every old non-root node keeps its letter, every old node keeps its flag, and of the new nodes only the word's own node is marked |
| AutoComplete.PrefixTree.Descend | src/autoComplete/PrefixTree.java:28-44 | the loop of `add`: the tree stays well formed, the paths gain exactly the prefixes of the word, old paths keep their nodes, and the word becomes stored exactly when its path was missing |
| AutoComplete.PrefixTree.Advance | src/autoComplete/PrefixTree.java:30-42 | one loop step: afterwards the extended path exists and leads to the returned node; only that path is added; it is marked only if it is new and for the last character |
| AutoComplete.PrefixTree.Attach | src/autoComplete/PrefixTree.java:31-39 | a missing child is created under its character and linked below the parent; only the parent's children change, and the tree stays linked |
| AutoComplete.PrefixTree.LinkingKeepsLinked | src/autoComplete/PrefixTree.java:37-38 | putting a fresh node into a parent's children under its own letter keeps the tree linked, and keeps every leaf but the new one marked |
| AutoComplete.PrefixTree.LeavesMoveDown | src/autoComplete/PrefixTree.java:40-42 | descending into an existing child: the parent has a child, so every leaf still ends a stored word |
| AutoComplete.PrefixTree.PrefixesPresent | src/autoComplete/PrefixTree.java:27 | every prefix of a path is already a path, so when `add` returns early for a stored word, the paths already include all of the word's prefixes |
| AutoComplete.PrefixTree.IncrementSize | src/autoComplete/PrefixTree.java:45 | `size++` keeps `size` equal to the wrapped count |
| AutoComplete.PrefixTree.PrefixClosed | src/autoComplete/PrefixTree.java:28-42 | every prefix of a path is a path, because `add` creates nodes one character at a time from the root |
| AutoComplete.PrefixTree.ExtensionHasChild | src/autoComplete/PrefixTree.java:110-111 | a path that extends another passes through a child of the shorter path's node, so the traversal of the children reaches it |
| AutoComplete.PrefixTree.MatchesOfChild | src/autoComplete/PrefixTree.java:110-111 | the stored words under a child are exactly the stored words under the node that continue with the child's letter |
| AutoComplete.PrefixTree.PathLeadsToWord | src/autoComplete/PrefixTree.java:34-36 | every non-root node lies on the path of some stored word |
| AutoComplete.PrefixTree.PreOrderTraverse | src/autoComplete/PrefixTree.java:105-113 | keeps the list it is given and appends, with no repeats, exactly the stored words that start with `sb + node.letter` |
| AutoComplete.PrefixTree.GetWordsForPrefix | src/autoComplete/PrefixTree.java:81-103 | for a non-empty prefix: no repeats; the stored words starting with the prefix when its node exists and has children, otherwise nothing; equivalently, nothing exactly when the prefix itself is the only match |
| AutoComplete.PrefixTree.MissingPathHasNoMatches | src/autoComplete/PrefixTree.java:88-89 | a prefix whose path is missing starts no stored word, so the empty result is the right one |
| AutoComplete.PrefixTree.LeafMatchesOnlyItself | src/autoComplete/PrefixTree.java:98-99 | a prefix whose node has no children is itself a stored word and the only one it starts |
| AutoComplete.PrefixTree.InnerPathHasLongerMatch | src/autoComplete/PrefixTree.java:98-101 | a prefix whose node has children starts some longer stored word, so the traversal's result is not just the prefix |
| AutoComplete.PrefixTree.Size | src/autoComplete/PrefixTree.java:118-120 | returns the wrapped count of counted `add` calls, which is at least the number of stored words while no wrap-around has happened |
| Scenarios.PrefixOfStoredWord | src/autoComplete/PrefixTree.java:40-45 | after `add("cat")` and `add("ca")`, `contains("ca")` is false while `size()` is 2 |
| Scenarios.EmptyWordCounted | src/autoComplete/PrefixTree.java:26-48 | two calls of `add("")` make `size()` 2 while `contains("")` stays false |
| Scenarios.AddTwice | src/autoComplete/PrefixTree.java:21-27 | adding `"cat"` twice leaves `size()` at 1, and `"cat"` is contained |
| Scenarios.LeafPrefix | src/autoComplete/PrefixTree.java:97-99 | with only `"cat"` stored, `getWordsForPrefix("cat")` is empty although `contains("cat")` holds |
| Scenarios.InnerPrefix | src/autoComplete/PrefixTree.java:101-113 | with only `"cat"` stored, `getWordsForPrefix("c")` is exactly `["cat"]` |

## Left out

- `TreeNode`'s own source file is not part of this model. Its three fields (`letter`, `children`, `isWord`, which defaults to false) are taken from their uses in `PrefixTree`. The root's `letter` is never read, and the model sets it to `'\0'`.
- The order of `getWordsForPrefix`'s result is not modelled. It follows the iteration order of the children map's key set, which Java leaves unspecified. The model picks the next child arbitrarily and states the result as a repeat-free list with a given set of elements.
- The `ArrayList` that `preOrderTraverse` shares by reference is modelled as a list passed in and returned. Appending is the only thing done to it, so no aliasing is lost.
- Java's `String`, `ArrayList` and `HashMap` are modelled as Dafny strings, sequences and maps. Their internals (hashing, resizing) are not modelled. The `null` that `get` returns for a missing key is modelled as a `TreeNode?` that is `null` exactly when the key is missing.
- Characters: Java's `char` is a UTF-16 code unit, while a Dafny `char` is a Unicode scalar value. So the model builds one node where Java builds two for a character outside the Basic Multilingual Plane (a surrogate pair). A word or prefix holding an unpaired surrogate, which all three Java operations accept, cannot be written as a model string.
- Null arguments: `add(null)`, `contains(null)` and `getWordsForPrefix(null)` throw `NullPointerException` in Java (`:27`, `:57`, `:85`). Model strings are never null, so these calls are not modelled.
- Size: while no wrap-around has happened, the model proves only that `size` is at least the number of stored words. It is not equal: the code also counts `add("")` and adds of unmarked existing paths.
- AutoComplete.PrefixTree.AddKeepsNodes: says nothing about the root's `letter`. `Add` may change it as far as its contract goes, though the code never does. The root's letter is never read.
- Any driver or user interface around the tree is not part of this model.
- Deletion, persistence and concurrency are not modelled, because the code has none.
