/**
 Callers of the n-gram trie, proved from the contracts of Insert and Search
 alone: the demonstration run of the program, the length check, and the
 independence of the counts from the order of insertion.
 */
module Demo {
  import opened NGrams

  /**
   A fresh trie for n-grams of length `n` into which the n-grams of `xs` have
   been inserted in order.
   */
  method Fill(n: nat, xs: seq<seq<int>>) returns (trie: NGramTrie)
    requires forall i :: 0 <= i < |xs| ==> |xs[i]| == n
    ensures fresh(trie) && trie.Valid()
    ensures trie.ngramLength == n && trie.Inserted == xs
  {
    trie := new NGramTrie(n);
    var i := 0;
    while i < |xs|
      invariant 0 <= i <= |xs|
      invariant fresh(trie) && trie.Valid()
      invariant trie.ngramLength == n && trie.Inserted == xs[..i]
    {
      var o := trie.Insert(xs[i]);
      assert xs[..i + 1] == xs[..i] + [xs[i]];
      i := i + 1;
    }
    assert xs[..i] == xs;
  }

  /** The occurrence counts of the n-grams the demonstration run inserts and looks up. */
  lemma DemoCounts()
    ensures multiset([[1, 2, 3], [1, 2, 3], [1, 2, 4], [2, 3, 4]])[[1, 2, 3]] == 2
    ensures multiset([[1, 2, 3], [1, 2, 3], [1, 2, 4], [2, 3, 4]])[[1, 2, 4]] == 1
    ensures multiset([[1, 2, 3], [1, 2, 3], [1, 2, 4], [2, 3, 4]])[[2, 3, 4]] == 1
    ensures multiset([[1, 2, 3], [1, 2, 3], [1, 2, 4], [2, 3, 4]])[[3, 4, 5]] == 0
  {
  }

  /**
   The demonstration run: a trie for trigrams gets [1, 2, 3] twice, [1, 2, 4]
   and [2, 3, 4] once each; the four lookups then give 2, 1, 1 and 0.
   */
  method Scenario() returns (r123: Result<nat>, r124: Result<nat>, r234: Result<nat>, r345: Result<nat>)
    ensures r123 == Ok(2) && r124 == Ok(1) && r234 == Ok(1) && r345 == Ok(0)
  {
    var trie := Fill(3, [[1, 2, 3], [1, 2, 3], [1, 2, 4], [2, 3, 4]]);
    DemoCounts();
    r123 := trie.Search([1, 2, 3]);
    r124 := trie.Search([1, 2, 4]);
    r234 := trie.Search([2, 3, 4]);
    r345 := trie.Search([3, 4, 5]);
  }

  /** The occurrence counts of four-token n-grams that share a prefix of three tokens. */
  lemma DivergenceCounts()
    ensures multiset([[1, 2, 3, 4], [1, 2, 3, 4], [1, 2, 3, 5]])[[1, 2, 3, 4]] == 2
    ensures multiset([[1, 2, 3, 4], [1, 2, 3, 4], [1, 2, 3, 5]])[[1, 2, 3, 5]] == 1
    ensures multiset([[1, 2, 3, 4], [1, 2, 3, 4], [1, 2, 3, 5]])[[1, 2, 4, 5]] == 0
  {
  }

  /**
   Two n-grams that share a prefix and differ in their last token are counted
   apart, and a third that leaves the shared prefix early is not counted.
   */
  method Divergence() returns (r1234: Result<nat>, r1235: Result<nat>, r1245: Result<nat>)
    ensures r1234 == Ok(2) && r1235 == Ok(1) && r1245 == Ok(0)
  {
    var trie := Fill(4, [[1, 2, 3, 4], [1, 2, 3, 4], [1, 2, 3, 5]]);
    DivergenceCounts();
    r1234 := trie.Search([1, 2, 3, 4]);
    r1235 := trie.Search([1, 2, 3, 5]);
    r1245 := trie.Search([1, 2, 4, 5]);
  }

  /**
   An n-gram of the wrong length is refused by Insert and by Search, is not
   truncated or padded, and leaves the counts as they were.
   */
  method WrongLength() returns (inserted: Outcome, shorter: Result<nat>, longer: Result<nat>, kept: Result<nat>)
    ensures inserted == Fail(LengthMismatch(3, 2))
    ensures shorter == Err(LengthMismatch(3, 2))
    ensures longer == Err(LengthMismatch(3, 4))
    ensures kept == Ok(1)
  {
    var trie := Fill(3, [[1, 2, 3]]);
    inserted := trie.Insert([1, 2]);
    assert trie.Inserted == [[1, 2, 3]];
    shorter := trie.Search([1, 2]);
    longer := trie.Search([1, 2, 3, 4]);
    kept := trie.Search([1, 2, 3]);
  }

  /**
   Inserting {a, b} and then {a} gives the same answer to every lookup as
   inserting {a} and then {a, b}; a second lookup repeats the first.
   */
  method OrderIndependent(a: seq<int>, b: seq<int>, q: seq<int>) returns (r1: Result<nat>, r2: Result<nat>)
    requires |a| == |b| == |q|
    ensures r1 == r2
    ensures r1 == if q == [] then Ok(0) else Ok(multiset{a, b, a}[q])
  {
    var first := Fill(|a|, [a, b, a]);
    var second := Fill(|a|, [a, a, b]);
    assert multiset(first.Inserted) == multiset(second.Inserted) == multiset{a, b, a};
    r1 := first.Search(q);
    var again := first.Search(q);
    assert again == r1;
    r2 := second.Search(q);
  }

  /**
   With the configured length 0 the only n-gram is the empty one; the root
   stands for it, and the root is never counted, so its insertion is not seen.
   */
  method EmptyNGram() returns (r: Result<nat>)
    ensures r == Ok(0)
  {
    var trie := new NGramTrie(0);
    var o := trie.Insert([]);
    assert o == Pass;
    r := trie.Search([]);
  }
}
