# Trie and LRU cache of `commons`, modelled in Dafny

This project models two independent, sequential data structures from the Go
library `commons`, and proves properties of the models.

**The character trie (`trie.go`).** Words are trimmed and split into
one-character letters. A space is stored under the escape key `"=||="`. The
reserved child key `"*"` marks the end of a word.

- `Add` walks the path of translated keys and creates it where missing.
- `Search` walks the raw letters and checks the last node for `"*"`.
- `Autocomplete` walks the raw letters of the prefix. It then runs a FIFO
  worklist traversal of the subtree below that node. The traversal stops the
  moment `maxResults` suggestions are collected.

**The LRU cache (`lru.go`).** It has a capacity, a map from keys to list nodes,
and a doubly linked list whose head is the most recently set key.

- `Set` does nothing when the capacity is below one.
- `Set` of a present key promotes its node (unlink, then relink at the head).
  It keeps the old value; the code never stores the new one.
- `Set` of a new key evicts the tail when the cache is full, then links the
  new node at the head.
- `Get` is a pure lookup.

How the model is built:

- **Trie nodes.** The node graph is an arena `seq<map<string, Link>>`. A node
  pointer is an index and the root is index 0. `Link.Nil` is the nil pointer
  that Go stores under `"*"`.
- **Trie ghost state.** The ghost fields `paths` and `parent` record that the
  graph is a tree. `Contents()` is the set of stored key paths.
- **Method contracts.** `Add`, `Search` and `Autocomplete` are methods with
  loops. Their contracts state the new contents, the exact search result, and
  what the suggestions are.
- **Add then Search.** `TrieUsage` calls `Add` and then `Search` on a trie
  object. It proves from the two contracts that an added word is found and
  that an unstored proper prefix of it is not.
- **Child order.** Go map iteration order is unspecified. The traversal picks
  each child key with `:|`, so every proved property holds for every order.
- **LRU nodes.** The list nodes are records in the `cache` map. The
  `prev`/`next` pointers are the neighbours' keys. A ghost `order` holds the
  keys from head to tail.
- **LRU contracts.** Each method's contract ties the new `State()` to a
  value-level function: `GetState`, `RemoveState`, `AddState`, `SetState`.
  The cache's promises are lemmas about those functions.

Where the code and its documented intent differ, the model follows the code:

- `Search` and the prefix walk of `Autocomplete` look up raw letters;
  only `Add` translates a space to `"=||="`. So a phrase containing a space is
  stored, but `Search` of it is false.
- An empty or whitespace-only `Search` is true.
- The `Autocomplete` prefix is not trimmed.
- A letter `*` in a word collides with the end-of-word key. Adding `a*b` also
  stores `a` as a word (`AddedWords`).

## Model

| member | source | states |
|---|---|---|
| TrieText.Trim | trie.go:37 | `strings.TrimSpace` as used by `Add` and `Search` (trie.go:37, trie.go:50): leading and then trailing ASCII whitespace removed |
| TrieText.TrimLeft | trie.go:37 | the result is a suffix of the input, all the dropped characters are whitespace, and it does not start with whitespace |
| TrieText.TrimRight | trie.go:37 | the result is a prefix of the input, all the dropped characters are whitespace, and it does not end with whitespace |
| TrieText.TrimLeftPadded | trie.go:37 | leading whitespace before a word that does not start with whitespace is all that is dropped |
| TrieText.TrimRightPadded | trie.go:37 | trailing whitespace after a word that does not end with whitespace is all that is dropped |
| TrieText.TrimPadded | trie.go:50 | trimming a word padded with whitespace on both sides gives the word back, provided the word has no whitespace at its ends |
| TrieText.TrimAllSpace | trie.go:50 | a string made only of whitespace trims to the empty string |
| TrieText.Letters | trie.go:37 | splitting yields one letter per character |
| TrieText.LettersIndex | trie.go:37 | letter `i` is the one-character string of character `i` |
| TrieText.JoinLetters | trie.go:37 | joining the letters of a string gives the string back |
| TrieText.LettersSnoc | trie.go:37 | one more character gives one more letter at the end |
| TrieText.Translate | trie.go:9-12 | swaps a space and the escape key and leaves every other letter alone |
| TrieText.TranslateInvolution | trie.go:9-12 | the translation table is its own inverse |
| TrieText.EncodeIndex | trie.go:203-205 | Add stores letter `i` under its translation |
| TrieText.Encode | trie.go:203-205 | Add stores one key per letter |
| TrieText.EncodeSnoc | trie.go:203-205 | one more letter gives one more key, its translation, at the end |
| TrieText.EncodeKeys | trie.go:203-205 | every key stored for a word is a one-character key other than a space, or the escape key |
| TrieText.EncodeNoSpace | trie.go:203-205 | a word without a space is stored under its own letters |
| TrieText.Decode | trie.go:190-195 | the text `autocomplete` rebuilds from a key path: each key translated back and appended in order |
| TrieText.DecodeLength | trie.go:190-195 | a stored key path decodes to text with one character per key |
| TrieText.DecodeEncode | trie.go:190-192 | decoding the stored keys of a word gives the word back, spaces restored |
| TrieText.EncodeDecode | trie.go:203-205 | encoding the decoded text of stored keys gives the keys back |
| TrieText.DecodeInjective | trie.go:190-195 | different stored key paths decode to different text |
| TrieText.DecodeAppend | trie.go:195 | decoding distributes over appending key paths |
| TrieText.DecodeSnoc | trie.go:190-195 | one more key appends its translated text |
| TrieArena.WordsWalk | trie.go:219-228 | a key path is a stored word exactly when walking it reaches a node that carries `"*"` |
| TrieArena.WordsHaveNoSpace | trie.go:203-205 | no stored word contains a raw space key |
| TrieArena.WordsIntro | trie.go:211-215 | a node that carries `"*"` makes its key path a stored word |
| TrieArena.WordsElim | trie.go:224-227 | every stored word is the key path of a node that carries `"*"` |
| TrieArena.WordsBelowIntro | trie.go:211-215 | the same as WordsIntro, for the nodes below a given index |
| TrieArena.WordsBelowElim | trie.go:224-227 | the same as WordsElim, for the nodes below a given index |
| TrieArena.Walk | trie.go:219-228 | the raw-key walk of `Search` (trie.go:51-58) and of the `Autocomplete` prefix (trie.go:70-77): it ends at a node, stops at a missing key, or steps through the nil link under `"*"` |
| TrieArena.WalkPrefix | trie.go:220-223 | a walk that stops early on a prefix stops the same way on the whole key path |
| TrieArena.PathKeys | trie.go:203-205 | every key on a node's path is a one-character key other than a space, or the escape key |
| TrieArena.WalkPath | trie.go:72-77 | a walk that reaches node `j` spelled out `j`'s own key path |
| TrieArena.PathWalk | trie.go:72-77 | walking a node's key path reaches that node |
| TrieArena.PathsInjective | trie.go:206-210 | two nodes never share a key path |
| TrieArena.Attach | trie.go:206-210 | the follow-or-create half of `addLetter`: an existing child is followed, a missing one is created empty at the end of the arena and linked under the key |
| TrieArena.Mark | trie.go:211-215 | the marking half of `addLetter`: `"*"` with a nil link is added only when absent |
| TrieArena.AttachSpec | trie.go:206-210 | following or creating a child keeps the graph a tree and changes no existing edge; it creates a node only when the key is missing; it changes the stored words only when the key is `"*"` |
| TrieArena.AttachNewWellFormed | trie.go:206-210 | creating a missing child at the end of the arena keeps the graph a tree, the child's path being its parent's plus the key |
| TrieArena.AttachNewWords | trie.go:206-210 | creating a child adds a stored word only when the key is `"*"`, and then it adds the parent's path |
| TrieArena.MarkSpec | trie.go:211-215 | marking adds exactly the node's path to the stored words, and a node already marked is left as it is |
| TrieArena.Insert | trie.go:202-216 | one whole `addLetter` step: follow or create, then mark when it is the last letter |
| TrieArena.InsertSpec | trie.go:202-217 | one addLetter step keeps the graph a tree and lands on the child whose path is the node's path plus the key; it adds exactly `NewWords` to the stored words |
| TrieArena.StarPrefixesOnly | trie.go:212 | a word stored as a side effect of an Add is a prefix of the added keys that is followed by the key `"*"` |
| TrieArena.StarPrefixesAll | trie.go:212 | every prefix of the added keys that is followed by `"*"` is stored |
| TrieArena.AddedWordsStarFree | trie.go:211-215 | an Add of a key path without `"*"` stores exactly that path |
| TrieArena.AddedSoFarStep | trie.go:38-45 | the words stored after `n + 1` letters are those after `n` plus the step's new words |
| TrieArena.AddedSoFarAll | trie.go:38-45 | after the last letter, the words stored so far are `AddedWords` of the keys |
| TrieArena.AttachStep | trie.go:206-210 | during Add, the current node holds no nil link under the next key, the child is an old node or a fresh empty one, and for a stored word every key is already present |
| TrieArena.InsertStep | trie.go:202-217 | for a word already stored, an addLetter step changes neither the graph nor the paths |
| TrieArena.AddStepTree | trie.go:202-217 | an addLetter step keeps the graph a tree, moves along the added keys, only grows the graph, and adds exactly that step's words |
| TrieArena.GrowsTransitive | trie.go:206-215 | extending the graph twice extends it |
| TrieTraversal.Completions | trie.go:170-199 | what `autocomplete` can return: for every stored word extending the prefix's key path without crossing a `"*"` key, the prefix followed by the decoded rest of the word |
| TrieTraversal.NoCompletions | trie.go:72-77 | a prefix whose walk meets a missing key has no completions |
| TrieTraversal.SubRoot | trie.go:171-177 | the prefix node is in its own subtree, at depth zero, with the prefix as its text |
| TrieTraversal.SubParent | trie.go:190-196 | a node of the subtree other than its root hangs under a parent in the subtree, one key higher, by a key that is not `"*"` |
| TrieTraversal.SubChild | trie.go:190-196 | a non-`"*"` child of a subtree node is in the subtree, one key deeper, with the key's translated text appended |
| TrieTraversal.CompletionLength | trie.go:195 | the text accumulated at a node has one character per key below the prefix node |
| TrieTraversal.CompletionInjective | trie.go:193-196 | different nodes of the subtree accumulate different text |
| TrieTraversal.CompletionIn | trie.go:183-184 | a marked node of the subtree yields a completion |
| TrieTraversal.CompletionNode | trie.go:183-184 | every completion comes from a marked node of the subtree |
| TrieTraversal.Frontier | trie.go:179-197 | a node of the subtree that is not finished lies below a pending worklist node that is no deeper than it |
| TrieTraversal.Conclude | trie.go:179-199 | the collected suggestions: all are completions, none repeats, shorter ones come first; none shorter than the pending depth is missing, and none at all once nothing is pending |
| TrieTraversal.AllListed | trie.go:185-187 | a repeat-free list drawn from a set, at least as long as the set, lists the whole set |
| TrieTraversal.Exhaustive | trie.go:185-187 | a traversal stopped at `maxResults` has returned every completion when there are no more than `maxResults` of them |
| TrieBfs.BfsStart | trie.go:171-177 | the worklist seeded with the prefix node and the prefix satisfies the traversal invariant |
| TrieBfs.BfsPop | trie.go:180-182 | taking the front entry starts the visit of an unvisited node of the subtree, at the lowest pending depth |
| TrieBfs.BfsMarker | trie.go:183-188 | the `"*"` key appends the entry's text as a completion and keeps the invariant |
| TrieBfs.BfsChild | trie.go:190-196 | any other key queues the child, one key deeper, with the key's decoded text appended |
| TrieBfs.BfsFinish | trie.go:182-197 | once all of an entry's keys are visited, the invariant between entries holds again |
| TrieBfs.BfsDone | trie.go:179-199 | an empty worklist means every completion was collected |
| TrieBfs.BfsFull | trie.go:185-187 | at the cutoff, the suggestions are completions without repeats in length order, and no completion shorter than the last suggestion is missing |
| TrieBfs.QueueTail | trie.go:180-181 | dropping the front entry keeps the worklist fresh, free of repeats and sorted by depth |
| TrieBfs.QueueSnoc | trie.go:193-196 | appending a child one level deeper keeps the worklist fresh, free of repeats and sorted by depth |
| TrieBfs.ItemNodesSnoc | trie.go:193-196 | appending an entry adds its node to the worklist's nodes |
| TrieBfs.ItemNodesTail | trie.go:180-181 | the worklist's nodes are the front node and the rest's nodes |
| TrieBfs.ItemNodesIntro | trie.go:193-196 | every entry's node is among the worklist's nodes |
| TrieBfs.ItemNodesElim | trie.go:180-181 | every worklist node belongs to some entry |
| TrieBfs.IndicesBelow | trie.go:179 | the termination measure covers every node index |
| TrieBfs.OrderWiden | trie.go:183-188 | the suggestions' invariant survives more finished nodes and a deeper level |
| TrieBfs.OrderSnoc | trie.go:183-184 | appending the completion of a finished marked node at the current level keeps the suggestions' invariant |
| TrieBfs.SettledPop | trie.go:180-182 | finishing the front node keeps every finished node in the subtree below its finished parent, with the level raised to its depth |
| TrieBfs.ClosedPop | trie.go:180-182 | finishing the front node keeps every child of a finished node finished or queued, except the new node's own children |
| TrieBfs.ChildrenUnqueued | trie.go:190-196 | the children of the front node are real nodes and none of them is already queued |
| TrieProperties.AddThenFound | trie.go:36-59 | once a space-free word is added, its letters are a stored word, also for a query that pads it with whitespace; so Search of it returns true |
| TrieProperties.PrefixNotAdded | trie.go:224-227 | a proper prefix of a `*`-free added word is a stored word only if it was one before; so Search of it stays false |
| TrieProperties.PhraseKeysPrefix | trie.go:71-73 | the keys of a phrase begin with the raw letters of any space-free beginning of it |
| TrieProperties.PhraseKeysUnmarked | trie.go:212 | a phrase without `*` has no `"*"` key |
| TrieProperties.CompletionOf | trie.go:193-196 | a stored word below the prefix path yields the prefix text plus the decoded rest of the word |
| TrieProperties.PhraseCompletion | trie.go:190-192 | a stored phrase with a space is a completion of any space-free beginning of it, with its space restored |
| TrieUsage.WalkStarFree | trie.go:219-228 | in a well-formed trie, walking keys without `"*"` never steps through a nil link |
| TrieUsage.AddThenSearch | trie.go:36-59 | on a trie object, `Add(w)` then `Search` of `w` padded with whitespace returns true, for a word without a space |
| TrieUsage.TrimNoSpace | trie.go:37 | a non-empty word without whitespace is left alone by trimming |
| TrieUsage.PlainChars | trie.go:37 | a plain word holds no whitespace character and no `*` |
| TrieUsage.LettersPrefix | trie.go:37 | the letters of a prefix of a word are the beginning of the word's letters |
| TrieUsage.PrefixTrim | trie.go:50 | the trimmed letters of a non-empty prefix of a plain word are the beginning of the word's letters |
| TrieUsage.StoredKeys | trie.go:36-45 | a plain word is stored under its own letters, none of them `"*"` |
| TrieUsage.BeforeAdd | trie.go:36-45 | before the Add of a plain word, its keys can be walked without a nil step, and the prefix's trimmed letters begin them |
| TrieUsage.AfterAdd | trie.go:224-227 | after the Add, a proper prefix of the `*`-free keys that was not stored before is still not stored and can be walked |
| TrieUsage.AddThenSearchPrefix | trie.go:48-59 | on a trie object, `Add(w)` then `Search` of a non-empty proper prefix of `w` that was never stored returns false |
| Trie.Trie.constructor | trie.go:32-34 | a new trie is a lone empty root and stores no words |
| Trie.Trie.AddLetter | trie.go:202-217 | the result follows or creates the translated child and marks it when it is the last letter (`Insert`) |
| Trie.Trie.Add | trie.go:36-46 | the new contents are the old ones plus `AddedWords` of the trimmed and translated word; the graph only grows, and nothing changes when the word was already stored or is empty |
| Trie.Trie.AddLetters | trie.go:38-45 | Add's loop stores exactly `AddedWords` of the keys and only grows the graph |
| Trie.Trie.SearchLetter | trie.go:219-228 | found exactly when the raw letter is a child and, for the last letter, that child carries `"*"` |
| Trie.Trie.Search | trie.go:48-60 | true exactly when the trimmed, untranslated letters are empty or are a stored word |
| Trie.Trie.SearchLetters | trie.go:51-59 | Search's loop: true exactly when the letters are empty or a stored word |
| Trie.Trie.SearchPrefix | trie.go:70-77 | the prefix walk succeeds exactly when the raw letters reach a node, and then returns that node |
| Trie.Trie.Autocomplete | trie.go:62-80 | empty when `maxResults < 1` or a letter is missing. Otherwise: at most `maxResults` completions, without repeats, shortest first; all of them when fewer are returned or when there are no more than `maxResults`; none shorter than the last one is left out |
| Trie.Trie.AutocompleteFrom | trie.go:170-200 | the same guarantees for the subtree below a node, with the cutoff at `maxResults` |
| Lru.GetState | lru.go:30-36 | `Get` on the cache's value: the stored value, or `ErrNotFound` when the key is absent |
| Lru.RemoveState | lru.go:56-72 | `remove` on the cache's value: the key is dropped from the map and from the head-to-tail order |
| Lru.Evict | lru.go:75-77 | the first step of `add`: a full cache drops its tail, any other is unchanged |
| Lru.Push | lru.go:78-86 | the second step of `add`: the key becomes the head and is stored with its value |
| Lru.AddState | lru.go:74-87 | `add` on the cache's value: evict, then push |
| Lru.SetState | lru.go:38-54 | `Set` on the cache's value: unchanged without capacity; a present key is removed and re-added with its old value; a new key is added |
| Lru.ElemsIndex | lru.go:57 | a key in the order's key set is at some position of the order |
| Lru.ElemsContains | lru.go:57 | the key at any position is in the order's key set |
| Lru.ElemsCons | lru.go:78-86 | putting a key in front adds it to the key set |
| Lru.ElemsCard | lru.go:75 | a repeat-free order has as many distinct keys as positions |
| Lru.WithoutAbsent | lru.go:57 | removing an absent key leaves the order unchanged |
| Lru.Without | lru.go:57 | removing a key never lengthens the order |
| Lru.WithoutSplice | lru.go:64-69 | removing the key at position `i` of a repeat-free order cuts out exactly that position and keeps the rest in order |
| Lru.WithoutElems | lru.go:57 | removing a key drops exactly that key from the key set |
| Lru.DistinctWithout | lru.go:64-69 | cutting a position out of a repeat-free order leaves it repeat-free |
| Lru.RemoveConsistent | lru.go:56-72 | unlinking a present key keeps keys and order in agreement, and the order is one shorter |
| Lru.AddConsistent | lru.go:74-86 | adding a new key keeps keys and order in agreement, and never over capacity |
| Lru.SetConsistent | lru.go:38-49 | every Set keeps the cache within capacity, with the map's keys and the list holding the same keys, each once |
| Lru.NoCapacity | lru.go:39-41 | with capacity below one, Set changes nothing and every Get is ErrNotFound |
| Lru.SetExisting | lru.go:43-46 | Set of a present key moves it to the head; the size and all stored values stay the same |
| Lru.SetNewFull | lru.go:74-86 | Set of a new key when full evicts the tail and puts the new key at the head with its value; every other key keeps its value |
| Lru.SetNewRoom | lru.go:78-86 | Set of a new key with room puts it at the head and evicts nothing |
| Lru.SetThenGet | lru.go:38-49 | after a Set with capacity, Get finds the key; it holds the new value only if the key was absent |
| Lru.CapacityTwo | lru_test.go:138-182 | capacity 2, set one, two, one, three: one and three are present, two is evicted |
| Lru.CapacityOne | lru_test.go:106-137 | capacity 1, set one, two: one is gone, two is present |
| Lru.SizeMatches | lru.go:75 | the map has one node per key of the order |
| Lru.UnlinkEnds | lru.go:58-69 | the removed node names its neighbours, the head or tail is on it exactly at the ends, and its neighbours are stored |
| Lru.Unlinked | lru.go:64-69 | the map after `remove`'s pointer surgery: the node deleted, its predecessor's `next` and its successor's `prev` pointing past it |
| Lru.Unlink | lru.go:56-72 | unlinking a node leaves the others threaded in the same order, with the head or tail moved to the neighbour |
| Lru.UnlinkKeys | lru.go:57 | unlinking drops exactly the removed key and changes no stored value |
| Lru.UnlinkNode | lru.go:64-69 | after unlinking, the node at each position of the shorter order names its new neighbours |
| Lru.Locate | lru.go:58-69 | a stored node carries its key, its neighbours are stored, and the list has a head and a tail |
| Lru.RemoveSound | lru.go:56-72 | remove keeps the whole invariant, and the new state is `RemoveState` of the old one |
| Lru.Linked | lru.go:82-86 | the map after `add` links a node at the head: the old head's `prev` names the node, whose `next` is the old head |
| Lru.LinkHead | lru.go:78-86 | linking a detached node in front of the head threads it first and stores its value |
| Lru.Ends | lru.go:75-78 | the map has as many entries as the order, and head and tail are missing exactly when the cache is empty |
| Lru.LinkSound | lru.go:78-86 | linking at the head, when there is room, keeps the invariant with the key first in the order |
| Lru.Lru.constructor | lru.go:26-28 | a new cache is empty, with the given capacity |
| Lru.Lru.Get | lru.go:30-36 | the stored value or ErrNotFound; nothing changes |
| Lru.Lru.Set | lru.go:38-49 | the new state is `SetState` of the old one, and the invariant is kept |
| Lru.Lru.Promote | lru.go:51-54 | the key is moved to the head with its old value |
| Lru.Lru.Remove | lru.go:56-72 | the key is unlinked (`RemoveState`), the head and tail are fixed, and the node comes back detached with its key and value |
| Lru.Lru.Add | lru.go:74-87 | the tail is evicted when the cache is full and the node is linked at the head (`AddState`) |
| Lru.Lru.LinkFront | lru.go:78-86 | the node becomes the head, and also the tail when the cache was empty; it is stored with its value |

## Left out

- The concurrent autocomplete (`AutocompleteConcurrent`, `autocompleteConcurrent`) is not modelled: it consists of goroutines, channels, a wait group and cancellation.
- `SerializeLRU` and `DeserializeLRU` are not part of this model; their definitions are not among the source files.
- `strings.TrimSpace` is modelled on the six ASCII whitespace characters, and `strings.Split(s, "")` on single characters. Unicode whitespace and UTF-8 decoding are not modelled.
- Add's `letter == ""` guard (trie.go:40-42) never fires, because splitting into characters yields no empty letter. The model has no such branch.
- A Go nil-pointer panic is not modelled. The trie methods require that their walk does not step through the nil link under `"*"` (`Walk(...) != NilDeref`); that walk is exactly where Go would dereference nil.
- Trie.Trie.AddLetter: its requires is one step stricter than Go's `addLetter`. It also excludes a letter that is not the last whose key holds the nil link; Go returns nil there and panics only at the next letter. Inside `Add` the two coincide, because `Add` requires a walk without a nil step.
- Pointers are modelled as arena indices (trie) and neighbour keys (LRU). Aliasing of `*trieNode`, `*lruNode` and `[]byte` values is not modelled; values are plain `seq<bv8>`.
- Trie.Trie.AddLetters, Trie.Trie.SearchLetters, Trie.Trie.SearchPrefix and Trie.Trie.AutocompleteFrom are the loops of `Add`, `Search` and `Autocomplete`, taken out as methods of their own. Lru.Lru.LinkFront is the second half of `add` (lru.go:78-86), taken out in the same way.
- The labelled `break` of `autocomplete` is modelled as a `return` from the traversal method.
- Get's `[]byte` result is not modelled as `nil` on a miss; it is `Err(ErrNotFound)`.
