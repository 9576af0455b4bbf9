/** Small facts about sequences used throughout the model. */
module Seqs {

  /** No element occurs twice. */
  predicate Distinct<T(==)>(s: seq<T>)
  {
    forall i, j :: 0 <= i < j < |s| ==> s[i] != s[j]
  }

  lemma DistinctCons<T>(x: T, s: seq<T>)
    ensures Distinct([x] + s) <==> x !in s && Distinct(s)
  {
    var xs := [x] + s;
    assert forall i :: 0 <= i < |s| ==> xs[i + 1] == s[i];
    if Distinct(xs) {
      forall i, j | 0 <= i < j < |s|
        ensures s[i] != s[j]
      {
        assert s[i] == xs[i + 1] && s[j] == xs[j + 1];
      }
      forall i | 0 <= i < |s|
        ensures s[i] != x
      {
        assert xs[0] != xs[i + 1];
      }
    }
    if x !in s && Distinct(s) {
      forall i, j | 0 <= i < j < |xs|
        ensures xs[i] != xs[j]
      {
        assert xs[j] == s[j - 1];
        if i > 0 {
          assert xs[i] == s[i - 1];
        }
      }
    }
  }

  lemma DistinctTail<T>(s: seq<T>)
    requires Distinct(s) && s != []
    ensures Distinct(s[1..]) && s[0] !in s[1..]
  {
  }

  lemma ConcatAssoc<T>(a: seq<T>, b: seq<T>, c: seq<T>)
    ensures a + b + c == a + (b + c)
  {
  }

  /** A sequence is the part before position i, the element at i and the
      part after. */
  lemma SplitAt<T>(s: seq<T>, i: nat)
    requires i < |s|
    ensures s == s[..i] + [s[i]] + s[i + 1..]
  {
  }

  /** Index of the first occurrence of x in s, or |s| when x does not occur
      (Python's str.find, with |s| in place of -1). */
  function IndexOf<T(==)>(s: seq<T>, x: T): (r: nat)
    ensures r <= |s|
    ensures r < |s| <==> x in s
    ensures r < |s| ==> s[r] == x
    ensures forall i :: 0 <= i < r ==> s[i] != x
  {
    if s == [] then 0
    else if s[0] == x then 0
    else 1 + IndexOf(s[1..], x)
  }

  lemma IndexOfTail<T>(s: seq<T>, x: T)
    requires s != [] && s[0] != x
    ensures IndexOf(s, x) == 1 + IndexOf(s[1..], x)
  {
  }

  /** In a + [c] + b with no c in a, the first c is the one between a and b. */
  lemma IndexOfSeparator<T>(a: seq<T>, c: T, b: seq<T>)
    requires c !in a
    ensures IndexOf(a + [c] + b, c) == |a|
    ensures (a + [c] + b)[..|a|] == a && (a + [c] + b)[|a| + 1..] == b
  {
    IndexOfConcat(a, [c] + b, c);
    assert a + [c] + b == a + ([c] + b);
  }

  /** Elements of s[1..] other than s[0] sit one place further on in s. */
  lemma IndexOfShift<T>(s: seq<T>, xs: seq<T>)
    requires s != [] && Distinct(s)
    requires forall x :: x in xs ==> x in s[1..]
    ensures forall i :: 0 <= i < |xs| ==> 0 < IndexOf(s, xs[i]) == 1 + IndexOf(s[1..], xs[i])
  {
    DistinctTail(s);
    forall i | 0 <= i < |xs|
      ensures 0 < IndexOf(s, xs[i]) == 1 + IndexOf(s[1..], xs[i])
    {
      IndexOfTail(s, xs[i]);
    }
  }

  /** Order by position in s[1..] is order by position in s. */
  lemma OrderedShift<T>(s: seq<T>, xs: seq<T>)
    requires s != []
    requires forall i :: 0 <= i < |xs| ==> 0 < IndexOf(s, xs[i]) == 1 + IndexOf(s[1..], xs[i])
    requires forall i, j :: 0 <= i < j < |xs| ==> IndexOf(s[1..], xs[i]) < IndexOf(s[1..], xs[j])
    ensures forall i, j :: 0 <= i < j < |xs| ==> IndexOf(s, xs[i]) < IndexOf(s, xs[j])
  {
  }

  /** ... and s[0] may be put in front. */
  lemma OrderedConsHead<T>(s: seq<T>, xs: seq<T>)
    requires s != []
    requires forall i :: 0 <= i < |xs| ==> 0 < IndexOf(s, xs[i]) == 1 + IndexOf(s[1..], xs[i])
    requires forall i, j :: 0 <= i < j < |xs| ==> IndexOf(s[1..], xs[i]) < IndexOf(s[1..], xs[j])
    ensures var r := [s[0]] + xs;
            forall i, j :: 0 <= i < j < |r| ==> IndexOf(s, r[i]) < IndexOf(s, r[j])
  {
    var r := [s[0]] + xs;
    forall i, j | 0 <= i < j < |r|
      ensures IndexOf(s, r[i]) < IndexOf(s, r[j])
    {
      assert r[j] == xs[j - 1];
      if i > 0 {
        assert r[i] == xs[i - 1];
      }
    }
  }

  lemma {:induction false} IndexOfConcat<T>(a: seq<T>, b: seq<T>, x: T)
    ensures IndexOf(a + b, x) == if x in a then IndexOf(a, x) else |a| + IndexOf(b, x)
  {
    if a != [] {
      assert (a + b)[1..] == a[1..] + b;
      IndexOfConcat(a[1..], b, x);
    } else {
      assert a + b == b;
    }
  }
}
