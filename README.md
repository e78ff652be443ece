# N-gram trie

A model of the n-gram counter in `src/main.rs`. It is a prefix tree of fixed depth whose edges are labelled with `i32` tokens. The parts are:

- `NGramTrie::new(n)` creates a tree with an empty root.
- `insert` follows the tokens of an n-gram from the root. It creates a node for each missing child and raises the count of every node it reaches by one.
- `search` walks the same path without changing anything. It returns the count of the last node, or 0 as soon as an edge is missing.
- Both operations first check that the n-gram has the configured length, and panic when it does not.

The model is split into three modules.

- `PrefixCounts` (`prefix_counts.dfy`) is the abstract meaning of the tree.
  - The state is the history of inserted n-grams.
  - `PrefixCount(xs, p)` is the number of n-grams in the history that start with the prefix `p`.
  - The lemmas say how that number behaves when n-grams are added, repeated or reordered, and when the prefix is the whole n-gram.
- `NGrams` (`ngram_trie.dfy`) is the tree itself, as the class `NGramTrie`.
  - The nodes live in an arena `nodes: seq<TrieNode>`. `nodes[0]` is the root, and a child map sends a token to the arena index of the child.
  - `Insert` and `Search` are methods with the loops of the source.
  - Ghost state ties the arena to its meaning: the history `Inserted`, the prefix `paths[k]` that node `k` stands for, and the inverse map `index`.
  - The class invariant `Valid()` says three things. The arena is a tree over those prefixes. Every node except the root counts exactly the inserted n-grams that start with its prefix. Every inserted n-gram has the configured length.
- `Demo` (`demo.dfy`) holds callers proved from the contracts alone. They cover the demonstration run of `main`, n-grams that share a prefix and then diverge, rejected lengths, independence from insertion order, and the length-0 case.

The panic of `assert_eq!` is modelled as an error value:

- `Insert` returns `Fail(LengthMismatch(expected, actual))` and leaves the object unchanged.
- `Search` returns `Err(LengthMismatch(expected, actual))`.

Neither operation truncates or pads a wrong-length n-gram.

The root is never counted, because the loop in `insert` raises a count only after it has moved to a child. With the configured length 0, which `NGramTrie::new` accepts because its parameter is a `usize`, the only n-gram is the empty one. The tree has no node other than the root to count it, so `search(&[])` answers 0 even after `insert(&[])`. `Search` states this case as it is, and `Demo.EmptyNGram` shows it. For every positive length, `Search` returns the number of times the n-gram was inserted.

## Model

| member | source | states |
|---|---|---|
| NGrams.NewNode | src/main.rs:8-15 | a new node has no children and count 0 |
| NGrams.AddChild | src/main.rs:34 | creating a missing child appends one fresh node, points the parent's edge for the token at it, and leaves every other node and every count unchanged |
| NGrams.AddChildLinked | src/main.rs:34 | adding the child keeps the arena a tree that represents each prefix once, with the new node standing for the parent's prefix extended by the token |
| NGrams.BumpLinked | src/main.rs:35 | raising one node's count does not change the shape of the tree |
| NGrams.StartCounting | src/main.rs:32 | before the walk, every node counts exactly the earlier history |
| NGrams.StepCounting | src/main.rs:33-36 | after one step of the walk, exactly the nodes of the prefixes walked so far count the new n-gram as well |
| NGrams.FinishCounting | src/main.rs:33-37 | after walking the whole n-gram, every node counts the history extended by that n-gram |
| NGrams.NGramTrie.NodeCount | src/main.rs:3-6 | the count kept for a prefix is the number of inserted n-grams that start with it; it is 0 for the root and for a prefix that has no node |
| NGrams.NGramTrie.constructor | src/main.rs:22-28 | an empty trie has a single root node with no children and count 0, stores the length, and has an empty history |
| NGrams.NGramTrie.Insert | src/main.rs:30-37 | a wrong length fails with the expected and actual lengths and changes nothing; otherwise the n-gram is added to the history, the count of each of its non-empty prefixes is one higher and no other count changes, at most one node per token is created, and the invariant is kept |
| NGrams.NGramTrie.CountsAfterAppend | src/main.rs:33-36 | once an n-gram has been inserted, each prefix's count is its count in the earlier history plus one exactly when the prefix is a non-empty prefix of that n-gram |
| NGrams.NGramTrie.Walk | src/main.rs:32-36 | following the n-gram token by token, creating each missing child, counts the n-gram at every node on its path and keeps the tree's shape |
| NGrams.NGramTrie.Descend | src/main.rs:34-35 | the child for the token is the existing one or a newly appended node for the extended prefix; its count goes up by one and no other count changes |
| NGrams.NGramTrie.Search | src/main.rs:39-49 | a wrong length gives the length error; the empty n-gram gives 0; otherwise the result is the number of times the n-gram occurs in the history, and nothing changes |
| PrefixCounts.PrefixCountAppend | src/main.rs:33-36 | inserting one n-gram adds one to the count of exactly its prefixes |
| PrefixCounts.PrefixCountConcat | src/main.rs:30-37 | the counts of two histories, one after the other, add up |
| PrefixCounts.PrefixCountMonotone | src/main.rs:43-45 | a longer prefix is shared by no more n-grams than a shorter one, so answering 0 at a missing edge is right |
| PrefixCounts.PrefixCountOfFullLength | src/main.rs:48 | when all n-grams have the configured length, the count at the end of the path is the number of occurrences of the n-gram itself |
| PrefixCounts.PrefixCountPermutation | src/main.rs:30-49 | the counts depend only on the multiset of inserted n-grams, not on the order of insertion |
| PrefixCounts.PrefixCountRepeat | src/main.rs:30-37 | inserting an n-gram k times adds k to the count of each of its prefixes and nothing elsewhere |
| PrefixCounts.OccurrencesRepeat | src/main.rs:30-49 | inserting an n-gram k times raises its own occurrence count by exactly k |
| Demo.Fill | src/main.rs:53-59 | a new trie with a list of n-grams of its length inserted in order has exactly that list as its history |
| Demo.Scenario | src/main.rs:52-65 | the demonstration run gives 2, 1, 1 and 0 for [1, 2, 3], [1, 2, 4], [2, 3, 4] and [3, 4, 5] |
| Demo.Divergence | src/main.rs:30-49 | [1, 2, 3, 4] twice and [1, 2, 3, 5] once are counted apart (2 and 1), and [1, 2, 4, 5] gives 0 |
| Demo.WrongLength | src/main.rs:31-40 | n-grams that are too short or too long are refused with their lengths by both insert and search, and the counts stay as they were |
| Demo.OrderIndependent | src/main.rs:30-49 | inserting a, b, a and inserting a, a, b give the same result for every lookup, and repeating a lookup gives the same answer |
| Demo.EmptyNGram | src/main.rs:30-49 | with length 0, searching for the empty n-gram after inserting it gives 0, because the root is not counted |

## Left out

- `main` prints its four results with `println!`. The model has no I/O: `Demo.Scenario` returns the four values instead.
- `HashMap` and `Box`: the children and their heap nodes are modelled as a map from token to an index in an arena sequence. Hashing, allocation and the ownership of boxed nodes are not modelled, and nodes are never freed, as in the source.
- The `count` field is an `i32` in the source and a `nat` in the model. Wrap-around or an overflow panic after 2^31 - 1 insertions that share a prefix is not modelled.
- Tokens are `i32` and are modelled as `int`. Only equality of tokens matters, so no arithmetic on them is left out.
- The panic of `assert_eq!`, with its message, is modelled as an error value. Unwinding is not modelled.
- NGrams.NGramTrie.Insert: the guarantee about counts is stated per prefix, through `NodeCount`. It is not stated per arena node and does not say which arena indices the new nodes get.
