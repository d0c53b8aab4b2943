/** LINQ `Where` over an in-memory sequence, and the facts about it that the
    catalog queries and the sort's stability statement use. */
module Seqs {

  /** `s.Where(p)`: the elements satisfying `p`, in their original order. */
  function Filter<T>(s: seq<T>, p: T -> bool): (r: seq<T>)
    ensures |r| <= |s|
  {
    if s == [] then []
    else (if p(s[0]) then [s[0]] else []) + Filter(s[1..], p)
  }

  /** The kept elements are the elements of `s` that satisfy `p`, each as
      often as in `s` at most. */
  lemma {:induction false} FilterMembers<T(!new)>(s: seq<T>, p: T -> bool)
    ensures forall x :: x in Filter(s, p) <==> x in s && p(x)
    ensures multiset(Filter(s, p)) <= multiset(s)
  {
    if s != [] {
      FilterMembers(s[1..], p);
      assert s == [s[0]] + s[1..];
    }
  }

  /** Filtering distributes over concatenation: the order of the kept
      elements is the order of the input. */
  lemma {:induction false} FilterConcat<T(!new)>(s: seq<T>, t: seq<T>, p: T -> bool)
    ensures Filter(s + t, p) == Filter(s, p) + Filter(t, p)
  {
    if s == [] {
      assert s + t == t;
    } else {
      var head := if p(s[0]) then [s[0]] else [];
      assert (s + t)[0] == s[0];
      assert (s + t)[1..] == s[1..] + t;
      FilterConcat(s[1..], t, p);
      assert Filter(s + t, p) == head + Filter(s[1..] + t, p);
      assert head + (Filter(s[1..], p) + Filter(t, p)) == (head + Filter(s[1..], p)) + Filter(t, p);
    }
  }

  lemma {:induction false} FilterIdempotent<T(!new)>(s: seq<T>, p: T -> bool)
    ensures Filter(Filter(s, p), p) == Filter(s, p)
  {
    if s != [] {
      FilterIdempotent(s[1..], p);
      FilterConcat(if p(s[0]) then [s[0]] else [], Filter(s[1..], p), p);
    }
  }

  /** Nothing is kept exactly when no position satisfies `p`. */
  lemma {:induction false} FilterEmptyIff<T(!new)>(s: seq<T>, p: T -> bool)
    ensures Filter(s, p) == [] <==> forall i :: 0 <= i < |s| ==> !p(s[i])
  {
    if s != [] {
      FilterEmptyIff(s[1..], p);
      assert forall i :: 1 <= i < |s| ==> s[i] == s[1..][i - 1];
    }
  }

  /** At least two elements are kept exactly when two distinct positions
      satisfy `p`. */
  lemma FilterTwoIff<T(!new)>(s: seq<T>, p: T -> bool)
    ensures |Filter(s, p)| >= 2 <==>
            exists i, j :: 0 <= i < j < |s| && p(s[i]) && p(s[j])
  {
    if |Filter(s, p)| >= 2 {
      FilterTwoWitness(s, p);
    }
    if exists i, j :: 0 <= i < j < |s| && p(s[i]) && p(s[j]) {
      var i, j :| 0 <= i < j < |s| && p(s[i]) && p(s[j]);
      FilterTwoFromWitness(s, p, i, j);
    }
  }

  lemma {:induction false} FilterTwoWitness<T(!new)>(s: seq<T>, p: T -> bool)
    requires |Filter(s, p)| >= 2
    ensures exists i, j :: 0 <= i < j < |s| && p(s[i]) && p(s[j])
  {
    var t := s[1..];
    if p(s[0]) {
      assert Filter(t, p) != [];
      FilterEmptyIff(t, p);
      var k :| 0 <= k < |t| && p(t[k]);
      assert p(s[0]) && p(s[k + 1]);
    } else {
      FilterTwoWitness(t, p);
      var i, j :| 0 <= i < j < |t| && p(t[i]) && p(t[j]);
      assert p(s[i + 1]) && p(s[j + 1]);
    }
  }

  lemma {:induction false} FilterTwoFromWitness<T(!new)>(s: seq<T>, p: T -> bool, i: int, j: int)
    requires 0 <= i < j < |s| && p(s[i]) && p(s[j])
    ensures |Filter(s, p)| >= 2
  {
    var t := s[1..];
    assert p(t[j - 1]);
    if i == 0 {
      FilterEmptyIff(t, p);
    } else {
      assert p(t[i - 1]);
      FilterTwoFromWitness(t, p, i - 1, j - 1);
    }
  }

  function Reverse<T>(s: seq<T>): (r: seq<T>)
    ensures |r| == |s|
    ensures forall i :: 0 <= i < |s| ==> r[i] == s[|s| - 1 - i]
  {
    seq(|s|, i requires 0 <= i < |s| => s[|s| - 1 - i])
  }

  lemma ReverseCons<T>(s: seq<T>)
    requires s != []
    ensures Reverse(s) == Reverse(s[1..]) + [s[0]]
  {
    assert forall i :: 0 <= i < |s| ==> Reverse(s)[i] == (Reverse(s[1..]) + [s[0]])[i];
  }

  lemma ReverseConcat<T>(a: seq<T>, b: seq<T>)
    ensures Reverse(a + b) == Reverse(b) + Reverse(a)
  {
    assert forall i :: 0 <= i < |a + b| ==> Reverse(a + b)[i] == (Reverse(b) + Reverse(a))[i];
  }

  /** Filtering commutes with reversal. */
  lemma {:induction false} FilterReverse<T(!new)>(s: seq<T>, p: T -> bool)
    ensures Filter(Reverse(s), p) == Reverse(Filter(s, p))
  {
    if s != [] {
      var head := if p(s[0]) then [s[0]] else [];
      ReverseCons(s);
      FilterConcat(Reverse(s[1..]), [s[0]], p);
      FilterReverse(s[1..], p);
      assert Filter([s[0]], p) == head;
      ReverseConcat(head, Filter(s[1..], p));
      assert Reverse(head) == head;
    }
  }

  lemma ReverseShort<T>(s: seq<T>)
    requires |s| <= 1
    ensures Reverse(s) == s
  {
  }
}
