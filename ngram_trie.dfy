/**
 An n-gram counter: a prefix tree of fixed depth whose edges are labelled with
 integer tokens. Every node that an insertion passes through, the last one
 included, has its count raised by one; a lookup walks the same path without
 changing anything and answers 0 as soon as an edge is missing.

 The tree is kept in an arena: `nodes[0]` is the root and a child edge maps a
 token to the arena index of the child. Ghost state records what the arena
 stands for: the history `Inserted` of n-grams inserted so far, the token
 prefix `paths[k]` that node `k` represents, and its inverse `index`.
 */
module NGrams {
  import opened PrefixCounts

  /** The failure of the length check on insert and search. */
  datatype Error = LengthMismatch(expected: nat, actual: nat)

  datatype Result<T> = Ok(value: T) | Err(error: Error)

  datatype Outcome = Pass | Fail(error: Error)

  /** One prefix position: edges from a token to the arena index of a child, and a counter. */
  datatype TrieNode = TrieNode(children: map<int, nat>, count: nat)

  /** A node as it is created on first traversal: no children, count 0. */
  function NewNode(): (n: TrieNode)
    ensures n.children == map[] && n.count == 0
  {
    TrieNode(map[], 0)
  }

  /**
   `paths` and `index` are inverse to each other, the root represents the
   empty prefix, and the prefix of every other node without its last token is
   present too.
   */
  ghost predicate Indexed(nodes: seq<TrieNode>, paths: seq<seq<int>>, index: map<seq<int>, nat>)
  {
    && |nodes| >= 1
    && |paths| == |nodes|
    && paths[0] == []
    && (forall k :: 0 <= k < |nodes| ==> paths[k] in index && index[paths[k]] == k)
    && (forall p {:trigger index[p]} :: p in index ==> index[p] < |nodes| && paths[index[p]] == p)
    && (forall k :: 1 <= k < |nodes| ==> |paths[k]| >= 1 && paths[k][..|paths[k]| - 1] in index)
  }

  /**
   The edge of `n`, the node for prefix `p`, for token `t` exists exactly when
   the prefix extended by `t` is present, and leads to that prefix's node.
   */
  ghost predicate EdgeAgrees(n: TrieNode, p: seq<int>, index: map<seq<int>, nat>, t: int)
  {
    && (t in n.children <==> p + [t] in index)
    && (t in n.children ==> n.children[t] == index[p + [t]])
  }

  /** The edges of every node are exactly the one-token extensions of its prefix that are present. */
  ghost predicate Linked(nodes: seq<TrieNode>, paths: seq<seq<int>>, index: map<seq<int>, nat>)
    requires Indexed(nodes, paths, index)
  {
    forall k, t :: 0 <= k < |nodes| ==> EdgeAgrees(nodes[k], paths[k], index, t)
  }

  /** The arena after node `node` gains a fresh child for `token`, placed at the end. */
  function AddChild(nodes: seq<TrieNode>, node: nat, token: int): (r: seq<TrieNode>)
    requires node < |nodes|
    ensures |r| == |nodes| + 1 && r[|nodes|] == NewNode()
    ensures r[node].children == nodes[node].children[token := |nodes|]
    ensures forall k :: 0 <= k < |nodes| ==> r[k].count == nodes[k].count
    ensures forall k :: 0 <= k < |nodes| && k != node ==> r[k] == nodes[k]
  {
    nodes[node := nodes[node].(children := nodes[node].children[token := |nodes|])] + [NewNode()]
  }

  /** The new node is entered under its prefix; every present prefix keeps its node. */
  lemma AddChildIndexed(nodes: seq<TrieNode>, paths: seq<seq<int>>, index: map<seq<int>, nat>, node: nat, token: int)
    requires Indexed(nodes, paths, index) && Linked(nodes, paths, index)
    requires node < |nodes| && token !in nodes[node].children
    ensures Indexed(AddChild(nodes, node, token), paths + [paths[node] + [token]], index[paths[node] + [token] := |nodes|])
  {
    var q := paths[node] + [token];
    var nodes', paths', index' := AddChild(nodes, node, token), paths + [q], index[q := |nodes|];
    assert EdgeAgrees(nodes[node], paths[node], index, token);
    forall k | 0 <= k < |nodes'|
      ensures paths'[k] in index' && index'[paths'[k]] == k
    {
      if k < |nodes| {
        assert paths'[k] == paths[k] && paths[k] in index;
      }
    }
    forall p | p in index'
      ensures index'[p] < |nodes'| && paths'[index'[p]] == p
    {
      if p != q {
        assert p in index;
      }
    }
    forall k | 1 <= k < |nodes'|
      ensures |paths'[k]| >= 1 && paths'[k][..|paths'[k]| - 1] in index'
    {
      if k == |nodes| {
        assert paths'[k][..|paths'[k]| - 1] == paths[node];
      }
    }
  }

  /** A present prefix has its one-token-shorter prefix present too. */
  lemma ParentPresent(nodes: seq<TrieNode>, paths: seq<seq<int>>, index: map<seq<int>, nat>, p: seq<int>, t: int)
    requires Indexed(nodes, paths, index)
    ensures p + [t] in index ==> p in index
  {
    if p + [t] in index {
      var c := index[p + [t]];
      assert paths[c][..|paths[c]| - 1] == p;
    }
  }

  /** Distinct nodes extended by the same token give distinct prefixes. */
  lemma ExtensionsDiffer(nodes: seq<TrieNode>, paths: seq<seq<int>>, index: map<seq<int>, nat>, j: nat, k: nat, t: int, u: int)
    requires Indexed(nodes, paths, index)
    requires j < |nodes| && k < |nodes|
    ensures paths[j] + [t] == paths[k] + [u] ==> j == k && t == u
  {
    if paths[j] + [t] == paths[k] + [u] {
      assert paths[j] == (paths[j] + [t])[..|paths[j]|] == (paths[k] + [u])[..|paths[k]|] == paths[k];
      assert index[paths[j]] == j && index[paths[k]] == k;
      assert t == (paths[j] + [t])[|paths[j]|];
    }
  }

  /** The edges stay exactly the present one-token extensions after a child is added. */
  lemma AddChildLinked(nodes: seq<TrieNode>, paths: seq<seq<int>>, index: map<seq<int>, nat>, node: nat, token: int)
    requires Indexed(nodes, paths, index) && Linked(nodes, paths, index)
    requires node < |nodes| && token !in nodes[node].children
    ensures Indexed(AddChild(nodes, node, token), paths + [paths[node] + [token]], index[paths[node] + [token] := |nodes|])
    ensures Linked(AddChild(nodes, node, token), paths + [paths[node] + [token]], index[paths[node] + [token] := |nodes|])
  {
    AddChildIndexed(nodes, paths, index, node, token);
    var q := paths[node] + [token];
    var nodes', paths', index' := AddChild(nodes, node, token), paths + [q], index[q := |nodes|];
    var child := |nodes|;
    assert EdgeAgrees(nodes[node], paths[node], index, token);
    forall t
      ensures EdgeAgrees(nodes'[child], paths'[child], index', t)
    {
      ParentPresent(nodes, paths, index, q, t);
      assert |paths'[child] + [t]| != |q|;
    }
    forall k, t | 0 <= k < |nodes|
      ensures EdgeAgrees(nodes'[k], paths'[k], index', t)
    {
      ExtensionsDiffer(nodes, paths, index, k, node, t, token);
      assert paths'[k] == paths[k];
      assert EdgeAgrees(nodes[k], paths[k], index, t);
    }
  }

  /** Raising the count of one node leaves the shape of the arena as it was. */
  lemma BumpLinked(nodes: seq<TrieNode>, paths: seq<seq<int>>, index: map<seq<int>, nat>, c: nat)
    requires Indexed(nodes, paths, index) && Linked(nodes, paths, index)
    requires c < |nodes|
    ensures Indexed(nodes[c := nodes[c].(count := nodes[c].count + 1)], paths, index)
    ensures Linked(nodes[c := nodes[c].(count := nodes[c].count + 1)], paths, index)
  {
    var nodes' := nodes[c := nodes[c].(count := nodes[c].count + 1)];
    forall k, t | 0 <= k < |nodes'|
      ensures EdgeAgrees(nodes'[k], paths[k], index, t)
    {
      assert EdgeAgrees(nodes[k], paths[k], index, t);
    }
  }

  /**
   The counts of the arena for the history `xs`: the root has count 0, every
   other node counts the n-grams of `xs` that start with its prefix, and no
   n-gram of `xs` starts with a prefix that has no node.
   */
  ghost predicate Counted(nodes: seq<TrieNode>, paths: seq<seq<int>>, index: map<seq<int>, nat>, xs: seq<seq<int>>)
    requires |paths| == |nodes| >= 1
  {
    && nodes[0].count == 0
    && (forall k :: 1 <= k < |nodes| ==> nodes[k].count == PrefixCount(xs, paths[k]))
    && (forall p :: p !in index ==> PrefixCount(xs, p) == 0)
  }

  /**
   The counts of the arena part way through inserting an n-gram whose first
   tokens are `done`: as for the history `xs`, plus one on the node of every
   non-empty prefix of `done`, all of which have nodes.
   */
  ghost predicate PartlyCounted(nodes: seq<TrieNode>, paths: seq<seq<int>>, index: map<seq<int>, nat>, xs: seq<seq<int>>, done: seq<int>)
    requires |paths| == |nodes| >= 1
  {
    && nodes[0].count == 0
    && (forall k :: 1 <= k < |nodes| ==> nodes[k].count == PrefixCount(xs, paths[k]) + (if paths[k] <= done then 1 else 0))
    && (forall p :: p !in index ==> PrefixCount(xs, p) == 0 && !(p <= done))
  }

  /** Before the first token nothing extra is counted. */
  lemma StartCounting(nodes: seq<TrieNode>, paths: seq<seq<int>>, index: map<seq<int>, nat>, xs: seq<seq<int>>)
    requires Indexed(nodes, paths, index) && Counted(nodes, paths, index, xs)
    ensures PartlyCounted(nodes, paths, index, xs, [])
  {
    forall k | 1 <= k < |nodes|
      ensures !(paths[k] <= [])
    {
      assert index[paths[k]] == k;
    }
  }

  /** After the last token of `s` the arena counts the history `xs` extended by `s`. */
  lemma FinishCounting(nodes: seq<TrieNode>, paths: seq<seq<int>>, index: map<seq<int>, nat>, xs: seq<seq<int>>, s: seq<int>)
    requires Indexed(nodes, paths, index) && PartlyCounted(nodes, paths, index, xs, s)
    ensures Counted(nodes, paths, index, xs + [s])
  {
    forall k | 1 <= k < |nodes|
      ensures nodes[k].count == PrefixCount(xs + [s], paths[k])
    {
      PrefixCountAppend(xs, s, paths[k]);
    }
    forall p | p !in index
      ensures PrefixCount(xs + [s], p) == 0
    {
      PrefixCountAppend(xs, s, p);
    }
  }

  /**
   One step of an insertion: when the node for `s[..i + 1]` is found or
   created and its count raised by one, and nothing else changes, the
   arena goes from counting `s[..i]` extra to counting `s[..i + 1]` extra.
   */
  lemma StepCounting(nodes: seq<TrieNode>, paths: seq<seq<int>>, index: map<seq<int>, nat>,
                     nodes': seq<TrieNode>, paths': seq<seq<int>>, index': map<seq<int>, nat>,
                     xs: seq<seq<int>>, s: seq<int>, i: nat, child: nat)
    requires i < |s|
    requires |paths| == |nodes| >= 1 && PartlyCounted(nodes, paths, index, xs, s[..i])
    requires Indexed(nodes', paths', index')
    requires child < |nodes'| && paths'[child] == s[..i] + [s[i]] && index' == index[paths'[child] := child]
    requires paths <= paths' && |nodes'| <= |nodes| + 1
    requires |nodes| < |nodes'| ==> child == |nodes| && paths'[child] !in index
    requires forall k :: 0 <= k < |nodes'| && k != child ==> nodes'[k].count == nodes[k].count
    requires nodes'[child].count == (if child < |nodes| then nodes[child].count else 0) + 1
    ensures PartlyCounted(nodes', paths', index', xs, s[..i + 1])
  {
    var q := s[..i + 1];
    assert q == paths'[child];
    assert child != 0 by {
      assert paths'[0] == [];
    }
    forall k | 1 <= k < |nodes'|
      ensures nodes'[k].count == PrefixCount(xs, paths'[k]) + (if paths'[k] <= q then 1 else 0)
    {
      PrefixStep(paths'[k], s, i);
      if k != child {
        assert paths'[k] == paths[k];
        assert index'[paths'[k]] == k;
      } else if child < |nodes| {
        assert paths'[k] == paths[k];
      }
    }
    forall p | p !in index'
      ensures PrefixCount(xs, p) == 0 && !(p <= q)
    {
      PrefixStep(p, s, i);
    }
  }

  class NGramTrie {
    /** The arena; `nodes[0]` is the root. */
    var nodes: seq<TrieNode>
    /** The only n-gram length that insert and search accept. */
    const ngramLength: nat

    /** The n-grams inserted so far, oldest first. */
    ghost var Inserted: seq<seq<int>>
    /** The token prefix that each arena node represents. */
    ghost var paths: seq<seq<int>>
    /** The node that represents each prefix present in the tree. */
    ghost var index: map<seq<int>, nat>

    /** The arena has the shape of a tree over the prefixes it represents. */
    ghost predicate Shaped()
      reads this`nodes, this`paths, this`index
    {
      Indexed(nodes, paths, index) && Linked(nodes, paths, index)
    }

    /**
     The counting invariant: the root is never counted, every other node counts
     the inserted n-grams that start with its prefix, a prefix that no inserted
     n-gram starts with needs no node, and every inserted n-gram has the
     configured length.
     */
    ghost predicate Valid()
      reads this
    {
      && Shaped()
      && Counted(nodes, paths, index, Inserted)
      && (forall i :: 0 <= i < |Inserted| ==> |Inserted[i]| == ngramLength)
    }

    /**
     The count kept for the prefix `p`: that of its node, or 0 when there is
     none. It is the number of inserted n-grams that start with `p`, except for
     the root, which no insertion counts.
     */
    ghost function NodeCount(p: seq<int>): (c: nat)
      reads this
      requires Valid()
      ensures c == if p == [] then 0 else PrefixCount(Inserted, p)
    {
      if p in index then nodes[index[p]].count else 0
    }

    /** An empty trie for n-grams of length `ngramLength`: a root with count 0 and no children. */
    constructor (ngramLength: nat)
      ensures Valid()
      ensures this.ngramLength == ngramLength
      ensures nodes == [NewNode()]
      ensures Inserted == []
    {
      this.ngramLength := ngramLength;
      nodes := [NewNode()];
      Inserted := [];
      paths := [[]];
      index := map[[] := 0];
    }

    /**
     Counts one more occurrence of `ngram`. A length other than the configured
     one fails before anything changes. Otherwise the node of every non-empty
     prefix of `ngram` is created if missing and has its count raised by one;
     no other node changes and no node is removed.
     */
    method Insert(ngram: seq<int>) returns (o: Outcome)
      requires Valid()
      modifies this
      ensures Valid()
      ensures o == if |ngram| == ngramLength then Pass else Fail(LengthMismatch(ngramLength, |ngram|))
      ensures o.Fail? ==> unchanged(this)
      ensures o.Pass? ==> Inserted == old(Inserted) + [ngram]
      ensures o.Pass? ==> forall p :: NodeCount(p) == old(NodeCount(p)) + (if p != [] && p <= ngram then 1 else 0)
      ensures old(|nodes|) <= |nodes| <= old(|nodes|) + |ngram|
    {
      if |ngram| != ngramLength {
        return Fail(LengthMismatch(ngramLength, |ngram|));
      }
      ghost var before := Inserted;
      StartCounting(nodes, paths, index, before);
      Walk(ngram);
      FinishCounting(nodes, paths, index, before, ngram);
      Inserted := Inserted + [ngram];
      CountsAfterAppend(before, ngram);
      return Pass;
    }

    /** After `s` is appended to the history, the count of every prefix of `s` but the root is one higher. */
    lemma CountsAfterAppend(before: seq<seq<int>>, s: seq<int>)
      requires Valid() && Inserted == before + [s]
      ensures forall p :: NodeCount(p) == (if p == [] then 0 else PrefixCount(before, p) + (if p <= s then 1 else 0))
    {
      forall p
        ensures NodeCount(p) == (if p == [] then 0 else PrefixCount(before, p) + (if p <= s then 1 else 0))
      {
        PrefixCountAppend(before, s, p);
      }
    }

    /**
     The walk of Insert down the path of `ngram`: each token is followed to its
     child, created when missing, whose count is then raised by one.
     */
    method Walk(ngram: seq<int>)
      requires Shaped() && PartlyCounted(nodes, paths, index, Inserted, [])
      modifies this`nodes, this`paths, this`index
      ensures Shaped() && PartlyCounted(nodes, paths, index, Inserted, ngram)
      ensures old(|nodes|) <= |nodes| <= old(|nodes|) + |ngram|
    {
      var node: nat := 0;
      var i := 0;
      while i < |ngram|
        invariant 0 <= i <= |ngram|
        invariant Shaped()
        invariant node < |nodes| && paths[node] == ngram[..i]
        invariant PartlyCounted(nodes, paths, index, Inserted, ngram[..i])
        invariant old(|nodes|) <= |nodes| <= old(|nodes|) + i
      {
        ghost var nodes0, paths0, index0 := nodes, paths, index;
        PrefixStep([], ngram, i);
        node := Descend(node, ngram[i]);
        StepCounting(nodes0, paths0, index0, nodes, paths, index, Inserted, ngram, i, node);
        i := i + 1;
      }
      assert ngram[..i] == ngram;
    }

    /**
     One step of the walk of Insert: the child of `node` for `token` is
     created, with count 0 and no children, when it is missing, and then has
     its count raised by one. No other count changes.
     */
    method Descend(node: nat, token: int) returns (child: nat)
      requires Shaped() && node < |nodes|
      modifies this`nodes, this`paths, this`index
      ensures Shaped()
      ensures child < |nodes| && paths[child] == old(paths[node]) + [token]
      ensures index == old(index)[paths[child] := child]
      ensures old(paths) <= paths && |nodes| <= old(|nodes|) + 1
      ensures old(|nodes|) < |nodes| ==> child == old(|nodes|) && paths[child] !in old(index)
      ensures forall k :: 0 <= k < |nodes| && k != child ==> nodes[k].count == old(nodes[k].count)
      ensures nodes[child].count == (if child < old(|nodes|) then old(nodes[child].count) else 0) + 1
    {
      assert EdgeAgrees(nodes[node], paths[node], index, token);
      if token in nodes[node].children {
        child := nodes[node].children[token];
      } else {
        child := |nodes|;
        AddChildLinked(nodes, paths, index, node, token);
        var q := paths[node] + [token];
        nodes := AddChild(nodes, node, token);
        paths := paths + [q];
        index := index[q := child];
      }
      BumpLinked(nodes, paths, index, child);
      nodes := nodes[child := nodes[child].(count := nodes[child].count + 1)];
    }

    /**
     The number of times `ngram` was inserted; a length other than the
     configured one fails. Nothing changes, and a missing edge ends the walk
     with 0. For the empty n-gram (possible only when the configured length is
     0) the answer is the root's count, which is always 0.
     */
    method Search(ngram: seq<int>) returns (r: Result<nat>)
      requires Valid()
      ensures r == if |ngram| != ngramLength then Err(LengthMismatch(ngramLength, |ngram|))
                   else if ngram == [] then Ok(0)
                   else Ok(multiset(Inserted)[ngram])
    {
      if |ngram| != ngramLength {
        return Err(LengthMismatch(ngramLength, |ngram|));
      }
      PrefixCountOfFullLength(Inserted, ngram);
      var node: nat := 0;
      var i := 0;
      while i < |ngram|
        invariant 0 <= i <= |ngram|
        invariant Shaped()
        invariant node < |nodes| && paths[node] == ngram[..i]
      {
        var token := ngram[i];
        assert ngram[..i + 1] == paths[node] + [token];
        assert EdgeAgrees(nodes[node], paths[node], index, token);
        if token !in nodes[node].children {
          PrefixCountMonotone(Inserted, ngram[..i + 1], ngram);
          return Ok(0);
        }
        node := nodes[node].children[token];
        i := i + 1;
      }
      assert ngram[..i] == ngram;
      return Ok(nodes[node].count);
    }
  }
}
