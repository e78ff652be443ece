/**
 The abstract meaning of an n-gram trie: the history of inserted n-grams, and
 for every token prefix the number of inserted n-grams that start with it.
 Every lemma here is about this specification, independently of the arena
 that implements it in module NGrams.
 */
module PrefixCounts {

  /** The number of n-grams in `xs` (counted with multiplicity) that start with `p`. */
  function PrefixCount(xs: seq<seq<int>>, p: seq<int>): nat
  {
    if xs == [] then 0
    else PrefixCount(xs[..|xs| - 1], p) + (if p <= xs[|xs| - 1] then 1 else 0)
  }

  /** `k` copies of the n-gram `s`. */
  function Repeat(s: seq<int>, k: nat): (r: seq<seq<int>>)
    ensures |r| == k
    ensures forall i :: 0 <= i < |r| ==> r[i] == s
  {
    if k == 0 then [] else Repeat(s, k - 1) + [s]
  }

  /** Appending one n-gram adds one to exactly the prefixes of that n-gram. */
  lemma {:induction false} PrefixCountAppend(xs: seq<seq<int>>, s: seq<int>, p: seq<int>)
    ensures PrefixCount(xs + [s], p) == PrefixCount(xs, p) + (if p <= s then 1 else 0)
  {
    assert (xs + [s])[..|xs + [s]| - 1] == xs;
  }

  /** Prefix counts of a concatenated history add up. */
  lemma {:induction false} PrefixCountConcat(xs: seq<seq<int>>, ys: seq<seq<int>>, p: seq<int>)
    ensures PrefixCount(xs + ys, p) == PrefixCount(xs, p) + PrefixCount(ys, p)
    decreases |ys|
  {
    if ys == [] {
      assert xs + ys == xs;
    } else {
      var init, last := ys[..|ys| - 1], ys[|ys| - 1];
      assert ys == init + [last];
      assert xs + ys == (xs + init) + [last];
      PrefixCountConcat(xs, init, p);
      PrefixCountAppend(xs + init, last, p);
      PrefixCountAppend(init, last, p);
    }
  }

  /**
   `s[..i + 1]` extends `s[..i]` by one token, and its prefixes are those of
   `s[..i]` and itself.
   */
  lemma PrefixStep(p: seq<int>, s: seq<int>, i: nat)
    requires i < |s|
    ensures s[..i + 1] == s[..i] + [s[i]]
    ensures p <= s[..i + 1] <==> p <= s[..i] || p == s[..i + 1]
  {
    if p <= s[..i + 1] && |p| <= i {
      assert p == s[..i + 1][..|p|] == s[..i][..|p|];
    }
  }

  /** A longer prefix is shared by no more n-grams than a shorter one. */
  lemma {:induction false} PrefixCountMonotone(xs: seq<seq<int>>, p: seq<int>, q: seq<int>)
    requires p <= q
    ensures PrefixCount(xs, q) <= PrefixCount(xs, p)
  {
    if xs != [] {
      PrefixCountMonotone(xs[..|xs| - 1], p, q);
    }
  }

  /**
   When every n-gram of the history has the length of `p`, the prefix count of
   `p` is the number of times `p` itself occurs.
   */
  lemma {:induction false} PrefixCountOfFullLength(xs: seq<seq<int>>, p: seq<int>)
    requires forall i :: 0 <= i < |xs| ==> |xs[i]| == |p|
    ensures PrefixCount(xs, p) == multiset(xs)[p]
  {
    if xs != [] {
      var init, last := xs[..|xs| - 1], xs[|xs| - 1];
      assert xs == init + [last];
      PrefixCountOfFullLength(init, p);
      assert multiset(xs) == multiset(init) + multiset{last};
      assert p <= last <==> p == last;
    }
  }

  /** Taking one n-gram out of the history takes one off exactly the prefixes of that n-gram. */
  lemma PrefixCountRemove(ys: seq<seq<int>>, j: nat, p: seq<int>)
    requires j < |ys|
    ensures PrefixCount(ys, p) == PrefixCount(ys[..j] + ys[j + 1..], p) + (if p <= ys[j] then 1 else 0)
  {
    var before, after := ys[..j], ys[j + 1..];
    assert ys == (before + [ys[j]]) + after;
    PrefixCountConcat(before + [ys[j]], after, p);
    PrefixCountAppend(before, ys[j], p);
    PrefixCountConcat(before, after, p);
  }

  /** Removing the same n-gram from two permutations of each other leaves permutations. */
  lemma RemoveFromBoth(xs: seq<seq<int>>, ys: seq<seq<int>>, j: nat)
    requires multiset(xs) == multiset(ys)
    requires xs != [] && j < |ys| && ys[j] == xs[|xs| - 1]
    ensures multiset(xs[..|xs| - 1]) == multiset(ys[..j] + ys[j + 1..])
  {
    var last := ys[j];
    assert xs == xs[..|xs| - 1] + [last];
    assert ys == ys[..j] + [last] + ys[j + 1..];
    assert multiset(ys[..j] + ys[j + 1..]) == multiset(ys) - multiset{last};
    assert multiset(xs[..|xs| - 1]) == multiset(xs) - multiset{last};
  }

  /** Prefix counts depend on the multiset of inserted n-grams only, not on their order. */
  lemma {:induction false} PrefixCountPermutation(xs: seq<seq<int>>, ys: seq<seq<int>>, p: seq<int>)
    requires multiset(xs) == multiset(ys)
    ensures PrefixCount(xs, p) == PrefixCount(ys, p)
    decreases |xs|
  {
    if xs == [] {
      assert |ys| == |multiset(ys)| == 0;
    } else {
      var last := xs[|xs| - 1];
      assert last in multiset(ys);
      var j :| 0 <= j < |ys| && ys[j] == last;
      RemoveFromBoth(xs, ys, j);
      PrefixCountPermutation(xs[..|xs| - 1], ys[..j] + ys[j + 1..], p);
      PrefixCountRemove(ys, j, p);
    }
  }

  /** Adding `k` copies of `s` adds `k` to the prefix count of every prefix of `s`, and nothing elsewhere. */
  lemma {:induction false} PrefixCountRepeat(xs: seq<seq<int>>, s: seq<int>, k: nat, p: seq<int>)
    ensures PrefixCount(xs + Repeat(s, k), p) == PrefixCount(xs, p) + (if p <= s then k else 0)
  {
    if k == 0 {
      assert xs + Repeat(s, k) == xs;
    } else {
      assert Repeat(s, k) == Repeat(s, k - 1) + [s];
      assert xs + Repeat(s, k) == (xs + Repeat(s, k - 1)) + [s];
      PrefixCountRepeat(xs, s, k - 1, p);
      PrefixCountAppend(xs + Repeat(s, k - 1), s, p);
    }
  }

  /** Inserting `k` copies of an n-gram raises its own occurrence count by exactly `k`. */
  lemma {:induction false} OccurrencesRepeat(xs: seq<seq<int>>, s: seq<int>, k: nat)
    ensures multiset(xs + Repeat(s, k))[s] == multiset(xs)[s] + k
  {
    if k > 0 {
      assert Repeat(s, k) == Repeat(s, k - 1) + [s];
      assert xs + Repeat(s, k) == (xs + Repeat(s, k - 1)) + [s];
      assert multiset(xs + Repeat(s, k)) == multiset(xs + Repeat(s, k - 1)) + multiset{s};
      OccurrencesRepeat(xs, s, k - 1);
    }
  }
}
