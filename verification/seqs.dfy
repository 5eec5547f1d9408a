/**
  Order-preserving sequence operations shared by the task store and the views:
  JavaScript's `Array.prototype.filter` and `Array.prototype.findIndex`, and
  the subsequence relation that `filter` establishes.
 */
module Seqs {

  /** The elements of `s` that satisfy `p`, in their original order. */
  function Filter<T(!new)>(p: T -> bool, s: seq<T>): (r: seq<T>)
    ensures |r| <= |s|
    ensures forall x {:trigger x in r} :: x in r <==> x in s && p(x)
  {
    if |s| == 0 then []
    else (if p(s[0]) then [s[0]] else []) + Filter(p, s[1..])
  }

  /** The position of the first element of `s` satisfying `p`, or -1 when there is none. */
  function FindIndex<T(!new)>(p: T -> bool, s: seq<T>): (r: int)
    ensures -1 <= r < |s|
    ensures r == -1 <==> forall x :: x in s ==> !p(x)
    ensures 0 <= r ==> p(s[r]) && forall i :: 0 <= i < r ==> !p(s[i])
  {
    if |s| == 0 then -1
    else if p(s[0]) then 0
    else
      var k := FindIndex(p, s[1..]);
      if k == -1 then -1 else k + 1
  }

  /** `idx` lists, in increasing order, positions of `b` that spell out `a`. */
  ghost predicate Embeds<T(!new)>(idx: seq<int>, a: seq<T>, b: seq<T>)
  {
    && |idx| == |a|
    && (forall i :: 0 <= i < |idx| ==> 0 <= idx[i] < |b| && a[i] == b[idx[i]])
    && (forall i, j :: 0 <= i < j < |idx| ==> idx[i] < idx[j])
  }

  /** `a` is obtained from `b` by deleting some elements, keeping the order of the rest. */
  ghost predicate IsSubsequence<T(!new)>(a: seq<T>, b: seq<T>)
  {
    exists idx :: Embeds(idx, a, b)
  }

  /** Filtering keeps the survivors in their original relative order. */
  lemma {:induction false} FilterIsSubsequence<T(!new)>(p: T -> bool, s: seq<T>)
    ensures IsSubsequence(Filter(p, s), s)
  {
    if |s| == 0 {
      assert Embeds([], Filter(p, s), s);
    } else {
      FilterIsSubsequence(p, s[1..]);
      var idx :| Embeds(idx, Filter(p, s[1..]), s[1..]);
      var shifted := seq(|idx|, i requires 0 <= i < |idx| => idx[i] + 1);
      if p(s[0]) {
        assert Embeds([0] + shifted, Filter(p, s), s);
      } else {
        assert Embeds(shifted, Filter(p, s), s);
      }
    }
  }

  /** Filtering distributes over concatenation. */
  lemma {:induction false} FilterConcat<T(!new)>(p: T -> bool, a: seq<T>, b: seq<T>)
    ensures Filter(p, a + b) == Filter(p, a) + Filter(p, b)
  {
    if |a| == 0 {
      assert a + b == b;
    } else {
      var head := if p(a[0]) then [a[0]] else [];
      assert (a + b)[0] == a[0];
      assert (a + b)[1..] == a[1..] + b;
      calc {
        Filter(p, a + b);
        head + Filter(p, a[1..] + b);
        { FilterConcat(p, a[1..], b); }
        head + (Filter(p, a[1..]) + Filter(p, b));
        (head + Filter(p, a[1..])) + Filter(p, b);
        Filter(p, a) + Filter(p, b);
      }
    }
  }

  /** A filter that every element passes is the identity. */
  lemma {:induction false} FilterKeepsAll<T(!new)>(p: T -> bool, s: seq<T>)
    requires forall x :: x in s ==> p(x)
    ensures Filter(p, s) == s
  {
    if |s| != 0 {
      FilterKeepsAll(p, s[1..]);
    }
  }

  /** A filter that every element fails gives the empty sequence. */
  lemma {:induction false} FilterDropsAll<T(!new)>(p: T -> bool, s: seq<T>)
    requires forall x :: x in s ==> !p(x)
    ensures Filter(p, s) == []
  {
    if |s| != 0 {
      FilterDropsAll(p, s[1..]);
    }
  }

  /** Two filters that agree on the elements of `s` give the same result. */
  lemma {:induction false} FilterAgree<T(!new)>(p: T -> bool, q: T -> bool, s: seq<T>)
    requires forall x :: x in s ==> p(x) == q(x)
    ensures Filter(p, s) == Filter(q, s)
  {
    if |s| != 0 {
      FilterAgree(p, q, s[1..]);
    }
  }

  /** Filtering twice is filtering once by the conjunction. */
  lemma {:induction false} FilterFilter<T(!new)>(p: T -> bool, q: T -> bool, both: T -> bool, s: seq<T>)
    requires forall x :: both(x) == (p(x) && q(x))
    ensures Filter(p, Filter(q, s)) == Filter(both, s)
  {
    if |s| != 0 {
      FilterFilter(p, q, both, s[1..]);
      if q(s[0]) {
        assert Filter(q, s) == [s[0]] + Filter(q, s[1..]);
        assert Filter(q, s)[1..] == Filter(q, s[1..]);
      } else {
        assert Filter(q, s) == Filter(q, s[1..]);
      }
    }
  }

  /** The order in which two filters are applied does not matter. */
  lemma {:induction false} FilterCommute<T(!new)>(p: T -> bool, q: T -> bool, s: seq<T>)
    ensures Filter(p, Filter(q, s)) == Filter(q, Filter(p, s))
  {
    var both := x => p(x) && q(x);
    FilterFilter(p, q, both, s);
    FilterFilter(q, p, both, s);
  }

  /** Filtering a one-element sequence. */
  lemma {:induction false} FilterSingle<T(!new)>(p: T -> bool, x: T)
    ensures Filter(p, [x]) == if p(x) then [x] else []
  {
    assert [x][1..] == [];
  }

  /** Splitting `s` at a surviving element splits the filtered sequence there too. */
  lemma {:induction false} FilterAt<T(!new)>(p: T -> bool, s: seq<T>, j: int)
    requires 0 <= j < |s| && p(s[j])
    ensures Filter(p, s) == Filter(p, s[..j]) + [s[j]] + Filter(p, s[j+1..])
  {
    assert s == s[..j+1] + s[j+1..];
    FilterConcat(p, s[..j+1], s[j+1..]);
    assert s[..j+1] == s[..j] + [s[j]];
    FilterConcat(p, s[..j], [s[j]]);
    FilterSingle(p, s[j]);
  }

  /** Filtering a three-element sequence, element by element. */
  lemma {:induction false} FilterThree<T(!new)>(p: T -> bool, a: T, b: T, c: T)
    ensures Filter(p, [a, b, c])
         == (if p(a) then [a] else []) + (if p(b) then [b] else []) + (if p(c) then [c] else [])
  {
    assert [a, b, c] == [a] + [b] + [c];
    FilterConcat(p, [a] + [b], [c]);
    FilterConcat(p, [a], [b]);
    FilterSingle(p, a);
    FilterSingle(p, b);
    FilterSingle(p, c);
  }

  /** Splitting `s` at a rejected element: the filter skips it. */
  lemma {:induction false} FilterSkip<T(!new)>(p: T -> bool, s: seq<T>, k: int)
    requires 0 <= k < |s| && !p(s[k])
    ensures Filter(p, s) == Filter(p, s[..k]) + Filter(p, s[k+1..])
  {
    var front, back := s[..k], s[k+1..];
    FilterSingle(p, s[k]);
    calc {
      Filter(p, s);
      { assert s == front + [s[k]] + back; }
      Filter(p, front + [s[k]] + back);
      { FilterConcat(p, front + [s[k]], back); }
      Filter(p, front + [s[k]]) + Filter(p, back);
      { FilterConcat(p, front, [s[k]]); }
      Filter(p, front) + Filter(p, [s[k]]) + Filter(p, back);
    }
  }

  /** A filter that rejects exactly the element at `k` cuts that element out. */
  lemma {:induction false} FilterDropsOne<T(!new)>(p: T -> bool, s: seq<T>, k: int)
    requires 0 <= k < |s| && !p(s[k])
    requires forall i :: 0 <= i < |s| && i != k ==> p(s[i])
    ensures Filter(p, s) == s[..k] + s[k+1..]
  {
    forall x | x in s[..k]
      ensures p(x)
    {
    }
    forall x | x in s[k+1..]
      ensures p(x)
    {
    }
    FilterKeepsAll(p, s[..k]);
    FilterKeepsAll(p, s[k+1..]);
    FilterSkip(p, s, k);
  }

  /** Inserting `x` at `j` and cutting it out again gives back `s`. */
  lemma InsertCut<T>(s: seq<T>, j: int, x: T)
    requires 0 <= j <= |s|
    ensures var r := s[..j] + [x] + s[j..];
            |r| == |s| + 1 && r[j] == x && r[..j] + r[j+1..] == s
  {
    var r := s[..j] + [x] + s[j..];
    assert r[..j] == s[..j];
    assert r[j+1..] == s[j..];
  }

  /** Filtering a sequence with one element inserted at `j`. */
  lemma {:induction false} FilterOfInsert<T(!new)>(p: T -> bool, s: seq<T>, j: int, x: T)
    requires 0 <= j <= |s|
    ensures Filter(p, s[..j] + [x] + s[j..])
         == Filter(p, s[..j]) + (if p(x) then [x] else []) + Filter(p, s[j..])
  {
    FilterConcat(p, s[..j] + [x], s[j..]);
    FilterConcat(p, s[..j], [x]);
    FilterSingle(p, x);
  }

  /** Filtering the two halves of a split and joining them is filtering the whole. */
  lemma {:induction false} FilterSplit<T(!new)>(p: T -> bool, s: seq<T>, j: int)
    requires 0 <= j <= |s|
    ensures Filter(p, s) == Filter(p, s[..j]) + Filter(p, s[j..])
  {
    assert s == s[..j] + s[j..];
    FilterConcat(p, s[..j], s[j..]);
  }

  /** Cutting out position `i` and putting `x` back there is updating position `i`. */
  lemma CutThenPut<T>(s: seq<T>, i: int, x: T)
    requires 0 <= i < |s|
    ensures var d := s[..i] + s[i+1..];
            |d| == |s| - 1 && d[..i] + [x] + d[i..] == s[i := x]
  {
    var d := s[..i] + s[i+1..];
    assert d[..i] == s[..i] && d[i..] == s[i+1..];
  }

  /** The elements of a sequence with `x` inserted are those of `s` and `x`. */
  lemma InsertMembers<T>(s: seq<T>, j: int, x: T)
    requires 0 <= j <= |s|
    ensures forall y :: y in s[..j] + [x] + s[j..] <==> y in s || y == x
    ensures multiset(s[..j] + [x] + s[j..]) == multiset(s) + multiset{x}
  {
    assert s == s[..j] + s[j..];
  }

  /** Cutting out position `k` removes one occurrence of `s[k]`. */
  lemma MultisetOfCut<T>(s: seq<T>, k: int)
    requires 0 <= k < |s|
    ensures multiset(s[..k] + s[k+1..]) == multiset(s) - multiset{s[k]}
  {
    assert s == s[..k] + [s[k]] + s[k+1..];
  }
}
