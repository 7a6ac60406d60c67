/** Generic facts about sequences shared by the registry filters, the import scanner and the catalogue grouping. */
module Seqs {

  predicate NoDuplicates<T(==,!new)>(s: seq<T>) {
    forall i, j :: 0 <= i < j < |s| ==> s[i] != s[j]
  }

  /** `r` can be obtained from `s` by deleting elements, keeping the order of the rest. */
  ghost predicate Subsequence<T>(r: seq<T>, s: seq<T>)
    decreases |s|
  {
    if r == [] then true
    else if s == [] then false
    else if r[|r| - 1] == s[|s| - 1] then Subsequence(r[..|r| - 1], s[..|s| - 1])
    else Subsequence(r, s[..|s| - 1])
  }

  /** Keeps the first occurrence of every element: position i of `s` survives exactly when
      `s[i]` does not occur in `s[..i]`. This is what `new Set(xs)` iterates in, and what a
      loop that pushes an element only when the output does not include it yet produces. */
  function Dedup<T(==,!new)>(s: seq<T>): (r: seq<T>)
    ensures forall x :: x in r <==> x in s
    ensures NoDuplicates(r)
    ensures |r| <= |s|
    decreases |s|
  {
    if s == [] then []
    else
      var prefix := Dedup(s[..|s| - 1]);
      if s[|s| - 1] in s[..|s| - 1] then prefix else prefix + [s[|s| - 1]]
  }

  lemma {:induction false} DedupIsSubsequence<T(!new)>(s: seq<T>)
    ensures Subsequence(Dedup(s), s)
    decreases |s|
  {
    if s != [] {
      var init := s[..|s| - 1];
      DedupIsSubsequence(init);
      if s[|s| - 1] !in init {
        var r := Dedup(s);
        assert r[..|r| - 1] == Dedup(init);
      } else {
        SubsequenceExtend(Dedup(init), init, s[|s| - 1]);
        assert init + [s[|s| - 1]] == s;
      }
    }
  }

  /** Appending an element to `s` keeps `r` a subsequence of it. */
  lemma {:induction false} SubsequenceExtend<T(!new)>(r: seq<T>, s: seq<T>, x: T)
    requires Subsequence(r, s)
    ensures Subsequence(r, s + [x])
    decreases |s|, 2
  {
    assert (s + [x])[..|s|] == s;
    if r != [] && r[|r| - 1] == x {
      SubsequenceDropLastOfFirst(r, s);
    }
  }

  /** Dropping the last element of `r` keeps it a subsequence. */
  lemma {:induction false} SubsequenceDropLastOfFirst<T(!new)>(r: seq<T>, s: seq<T>)
    requires r != [] && Subsequence(r, s)
    ensures Subsequence(r[..|r| - 1], s)
    decreases |s|, 1
  {
    var r' := r[..|r| - 1];
    var s' := s[..|s| - 1];
    if r' != [] {
      if r[|r| - 1] == s[|s| - 1] {
        SubsequenceExtend(r', s', s[|s| - 1]);
      } else {
        SubsequenceDropLastOfFirst(r, s');
        SubsequenceExtend(r', s', s[|s| - 1]);
      }
      assert s' + [s[|s| - 1]] == s;
    }
  }

  /** Dedup of a sequence with one more element at its end. */
  lemma DedupSnoc<T(!new)>(s: seq<T>, x: T)
    ensures Dedup(s + [x]) == if x in s then Dedup(s) else Dedup(s) + [x]
  {
    assert (s + [x])[..|s + [x]| - 1] == s;
  }

  lemma AppendAssoc<T>(a: seq<T>, b: seq<T>, c: seq<T>)
    ensures a + b + c == a + (b + c)
  {
  }

  lemma {:induction false} DedupOfDistinct<T(!new)>(s: seq<T>)
    requires NoDuplicates(s)
    ensures Dedup(s) == s
    decreases |s|
  {
    if s != [] {
      var init := s[..|s| - 1];
      DedupOfDistinct(init);
      assert s[|s| - 1] !in init by {
        forall k | 0 <= k < |init| ensures init[k] != s[|s| - 1] {
          assert s[k] != s[|s| - 1];
        }
      }
      assert init + [s[|s| - 1]] == s;
    }
  }
  /** The index of the first occurrence of `x` in `s`. */
  ghost function FirstIndex<T>(s: seq<T>, x: T): (r: nat)
    requires x in s
    ensures r < |s| && s[r] == x && x !in s[..r]
  {
    if s[0] == x then 0 else 1 + FirstIndex(s[1..], x)
  }

  lemma FirstIndexSnoc<T>(s: seq<T>, x: T, y: T)
    requires y in s
    ensures FirstIndex(s + [x], y) == FirstIndex(s, y)
  {
    var k := FirstIndex(s, y);
    assert (s + [x])[k] == y && (s + [x])[..k] == s[..k];
    FirstIndexUnique(s + [x], y, k);
  }

  /** An index holding `x` with no `x` before it is the first index. */
  lemma {:induction false} FirstIndexUnique<T>(s: seq<T>, x: T, k: nat)
    requires k < |s| && s[k] == x && x !in s[..k]
    ensures FirstIndex(s, x) == k
    decreases |s|
  {
    if s[0] != x {
      assert k > 0;
      assert s[1..][k - 1] == x;
      assert s[1..][..k - 1] == s[1..k];
      FirstIndexUnique(s[1..], x, k - 1);
    }
  }

  /** `Dedup` lists the distinct elements in the order of their first occurrences. */
  lemma {:induction false} DedupFirstAppearance<T(!new)>(s: seq<T>)
    ensures forall i, j :: 0 <= i < j < |Dedup(s)| ==> FirstIndex(s, Dedup(s)[i]) < FirstIndex(s, Dedup(s)[j])
    decreases |s|
  {
    if s != [] {
      var init := s[..|s| - 1];
      var x := s[|s| - 1];
      assert init + [x] == s;
      DedupFirstAppearance(init);
      var p := Dedup(init);
      var d := Dedup(s);
      assert d == p || d == p + [x];
      forall i, j | 0 <= i < j < |d| ensures FirstIndex(s, d[i]) < FirstIndex(s, d[j]) {
        assert d[i] == p[i] && d[i] in init;
        FirstIndexSnoc(init, x, d[i]);
        if j < |p| {
          assert d[j] == p[j] && d[j] in init;
          FirstIndexSnoc(init, x, d[j]);
          assert FirstIndex(init, p[i]) < FirstIndex(init, p[j]);
        } else {
          assert d[j] == x && x !in init;
          assert s[..|s| - 1] == init;
          FirstIndexUnique(s, x, |s| - 1);
          assert FirstIndex(init, d[i]) < |init|;
        }
      }
    }
  }
}
