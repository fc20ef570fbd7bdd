# Radix-tree dictionary: a verified model

The system is a command-line dictionary of lowercase words. Its engine is a
compressed trie (radix tree). Every node's edge label is a `Word_desc`. A
`Word_desc` is a view `(index, start, length)` into an arena of the words
inserted directly, called `base_words`, so labels never copy characters.

A registry, `word_list`, gives every word a number. The number maps to the
word's descriptor, and becomes a null tombstone once the word is deleted.

The engine supports these operations:
- insert a word, splitting an edge where the new word leaves it part way;
- `prev`: register a fragment of an existing word as a new word, without copying it;
- delete a word by number, then compact the path: dead leaves are freed and a
  node left with one child and no word is merged into that child;
- prefix search;
- clear.

A small parser validates the command tokens: words, and canonical decimal
numbers below 2^32.

The model is written in Dafny, with one module per part:

| module | file | models |
|---|---|---|
| `Wrappers` | wrappers.dfy | `Option` |
| `Arena` | arena.dfy | `Word_desc`, the text a descriptor denotes, `first_letter`, `common_prefix_by_desc`, `common_substr` |
| `Trie` | trie.dfy | `Node`, the word set a subtree spells, and the structural invariant |
| `TrieInsert` | insert.dfy | `trie_insert_recur`: edge split, end-of-word marking, new leaves, root creation |
| `TrieFind` | find.dfy | `trie_find_recur` and `trie_find` |
| `TrieDelete` | delete.dfy | `number_of_children`, `find_child`, `trie_delete_recur` with compaction |
| `Dictionary` | dictionary.dfy | the global state and `trie_init`, `trie_insert`, `trie_prev`, `trie_delete`, `trie_find`, `trie_clear_and_init` |
| `Decimal` | decimal.dfy | digit strings, their values, and `strcmp` order on them |
| `Parse` | parse.dfy | the validators and the tokenizer of parse.c |

## How the model is built

**Pure functions of state.** The C globals `base_words`, `word_list` and `root`
are one immutable value, `Dict(base, words, root)`. The two counters are the
lengths of the two sequences. Each C operation is a function from a state to
the new state and the C return value.

**Appends.** `add_to_base_words` and `add_to_word_list` are sequence appends.
An operation that C rolls back is modelled as returning the state unchanged.

**Nodes.** A node is `Node(edge, eow, children)`. Its 26-slot child array is a
map from the slot `c - 'a'` to the child, and an empty slot is a missing key.

**Stored words.** The words a subtree stores are given by `Trie.Has`. A word is
stored when its walk reads each node's label, follows the child in the slot of
its next letter, and ends on an end-of-word node.

**Invariant.** The structural invariant `Trie.NodeInv` states these facts about every node:
- its label is non-empty;
- it ends a word or has at least two children;
- the child in slot `i` has a label starting with the `i`-th letter.

It also carries the fact that makes the merge of `trie.c:246-247` correct. The
characters just before a label's start, in the same arena entry, spell the
path from the root to the node's parent. This is the `Arena.Anchored`
predicate.

**Dictionary invariant.** `Dictionary.Inv` adds the registry–trie
correspondence: live registry entries denote, one to one, exactly the stored
words.

**Insertion result.** The insertion returns `Option<Node>`, where None is C's
-1. The engine turns success into the new word number. C's continuation
after an edge split always succeeds, so the model writes both continuations
directly.

## Model

| member | source | states |
|---|---|---|
| Arena.FirstLetter | trie.c:83-88 | the alphabet slot of the first character a descriptor denotes, in 0..25 for a lowercase letter |
| Arena.CommonPrefix | trie.c:72-81 | a value within both lengths up to which the two fragments agree, and at which they differ when it is below both lengths |
| Arena.CommonSubstr | trie.c:151-161 | the length of the longest common prefix of a fragment and a string |
| Arena.AnchoredAdvance | trie.c:107-114 | dropping the first `c` characters of a label anchored to a path leaves it anchored to the path extended by those characters |
| Trie.SomeWord | trie.c:163-175 | every subtree of a well-formed trie stores at least one word, so no branch is dead |
| Trie.ExtendTrie | trie.c:54-70 | appending to the arena keeps the invariant and changes no stored word |
| TrieInsert.SplitSpec | trie.c:107-120 | `Split`, the edge split, is sound: the split node and the narrowed old node, re-keyed under its new first letter, store the same words as before |
| TrieInsert.InsertRecSpec | trie.c:93-134 | `InsertRec`, the insertion below a node, fails exactly when the fragment's word is already stored; otherwise the invariant holds and the words are the old ones plus that word |
| TrieInsert.InsertRootSpec | trie.c:93-101 | `InsertRoot`, the insertion from the root, creating it when null, fails iff the word is stored; otherwise the root is well formed and stores the old words plus the word |
| TrieFind.FindRecSpec | trie.c:163-175 | `FindRec`, the search below a node, answers 1 iff some word of its subtree has the pattern as a prefix |
| TrieFind.FindSpec | trie.c:178-180 | `TrieFind.Find`, the model of `trie_find`, answers 1 iff some stored word has the pattern as a prefix |
| TrieDelete.CountFrom | trie.c:193-200 | the number of occupied child slots |
| TrieDelete.CountIsSize | trie.c:193-200 | `NumberOfChildren`, the model of `number_of_children`, equals the number of children of a node whose keys are letter slots |
| TrieDelete.FindChild | trie.c:184-190 | the child in the lowest occupied slot, or none exactly when all slots are empty |
| TrieDelete.MergeSpec | trie.c:240-248 | `Merge`, the merge with the only child: the merged node's label spells the parent's label followed by the child's, and it keeps the invariant, the first letter and the words |
| TrieDelete.CompactMergeSpec | trie.h:4-5 | a node left with one child and no word is merged into that child; the merged node keeps the invariant, so it ends a word or has two or more children, and it keeps the first letter and the words |
| TrieDelete.CompactSpec | trie.c:234-256 | `Compact`, the compaction at a node of the deletion path restores the invariant and removes exactly the word ending at the target node |
| TrieDelete.DeleteRecSpec | trie.c:220-264 | `DeleteRec`, deleting a stored word below a node, succeeds, leaves a well-formed subtree or none, and removes exactly that word |
| TrieDelete.DeleteRootSpec | trie.c:257-262 | `DeleteRoot`, deleting a stored word from the trie, keeps the invariant, frees a root left without children, and removes exactly that word |
| Dictionary.Init | trie.c:29-38 | the initial state satisfies the invariant and stores nothing |
| Dictionary.Insert | trie.c:136-149 | a word already stored gives -1 and no change; otherwise both appends happen, the result is the new word number, and the stored words gain the word |
| Dictionary.Prev | trie.c:278-295 | invalid arguments or a fragment already stored give -1 and no change; otherwise the fragment `start..end` of the word is registered under the next number without touching the arena |
| Dictionary.Delete | trie.c:266-276 | an invalid or deleted number gives -1 and no change; otherwise the result is 1, the slot is tombstoned and exactly that word leaves the dictionary |
| Dictionary.Find | trie.c:178-180 | true iff some stored word starts with the pattern |
| Dictionary.ClearAndInit | trie.c:297-313 | the state after clearing satisfies the invariant and stores nothing |
| Dictionary.EmptyIffNoRoot | trie.c:257-262 | under the invariant the root is null exactly when no word is stored |
| Dictionary.ClearThenInsert | trie.h:69-70 | after clearing, the next insert succeeds with number 0 |
| Dictionary.InsertTwice | trie.c:121-123 | inserting a word a second time returns -1 and leaves the state as the first insert left it |
| Dictionary.SharedPrefixScenario | trie.c:107-120 | after inserting "cat" and "car", "ca" is found and "cats" is not |
| Dictionary.FragmentScenario | trie.c:278-295 | after `prev 0 0 1` on "cat" and deleting word 0, "ca" is still found and "cat" is not |
| Dictionary.SingleWordScenario | trie.c:257-262 | deleting the only word leaves a null root, and then nothing is found |
| Decimal.DecimalRoundTrip | parse.c:21-35 | rendering the value of a canonical digit string gives the string back |
| Decimal.StrLessIsNumeric | parse.c:27 | on digit strings of equal length, `strcmp` order is numeric order |
| Parse.IsWordCorrect | parse.c:8-19 | 1 iff the string is non-empty and all lowercase letters |
| Parse.IsNumberStringCorrect | parse.c:21-35 | 1 iff the string is canonical decimal (no leading zero except "0") with value below 2^32 |
| Parse.NumberAcceptedIffRendering | parse.c:21-35 | the accepted strings are exactly the decimal renderings of 0 .. 2^32-1 |
| Parse.IsStringBlank | parse.c:37-44 | 1 iff the rest of the line is all spaces; the remainder starts at the first other character or is empty |
| Parse.GetString | parse.c:46-59 | the line is spaces, then a token without spaces, then a remainder that is empty or starts with a space; an empty token means an all-space line |
| Parse.GetStringOfToken | parse.c:46-59 | the tokenizer gives back the token written after any spaces, and the text behind it |
| Parse.GetWordFromString | parse.c:61-64 | the next token, and 1 iff it is a dictionary word |
| Parse.AtoiDigits | parse.c:70 | `Atoi`, the model of `atoi`, reads a digit string as its decimal value |
| Parse.GetNumberFromString | parse.c:66-73 | the next token, 1 iff it is an accepted number, and the value stored, which is the token's value when accepted |

## Left out

- dictionary.c is not part of this model. It holds the line reading, output, argument handling and command dispatch, and its validated commands reach the engine as the operations above.
- Memory management is not modelled: malloc, calloc, realloc, free, the doubling growth of the two arrays, and `free_tree`. The arena and the registry are sequences, and a freed subtree is simply absent.
- The `trie_nodes` counter is not modelled, and neither is the node-count print that reads it. It has no influence on any result.
- The root's own end-of-word mark, set to 1 at trie.c:97, is never read for a non-empty word, so it is not constrained.
- The comment at trie.h:53-54 says `trie_prev` returns 1 or 0. The code, trie.c:278-295, returns the new word number or -1, and dictionary.c prints it as a word number. The model follows the code.
- Dictionary.Insert: requires a non-empty lowercase word, because dictionary.c validates words before calling `trie_insert`. The C code on an empty word depends on the root, and neither case is modelled. With a null root, trie.c:95-101 creates the root and then indexes its child array with `first_letter` of the empty word, which is slot -97. With a root present, the root's end-of-word mark is always 1: trie.c:97 sets it, and trie.c:235-238 clears the mark of non-root nodes only. So trie.c:121-123 returns -1 with `common == desc.length == 0`, and trie.c:142-147 undoes both appends.
- Characters outside 'a'..'z' would index outside C's 26-slot child array. In a pattern given to `find`, such a character is modelled as an empty slot. `islower` and `isdigit` are the ASCII ranges of the "C" locale.
- TrieDelete.DeleteRecSpec: covers deletion of a stored word only. Like trie.c:220-264, `DeleteRec` follows a word by label lengths and first letters and never compares the other characters. So for a word that is not stored it can return `Missing`, which is C's -1 at an empty slot (trie.c:221-222), or it can remove another stored word of the same shape. No contract describes that case. The engine deletes registered words only, and the invariant makes every registered word stored.
- Parse.GetNumberFromString: `atoi` is modelled on unbounded integers. Its overflow on values above `INT_MAX` is undefined in C and is not modelled. The conversion to `unsigned int` is the remainder modulo 2^32.
- Strings are the characters before the terminator. The fixed `LINE_LENGTH` buffers, and what happens to tokens longer than them, are not modelled.
