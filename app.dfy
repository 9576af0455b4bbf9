/** The two pieces of the App class that are logic rather than widgets:
    the check for the required UTM fields and the bounded, de-duplicated
    history of generated URLs. */
module App {
  import opened Wrappers
  import opened Seqs
  import opened Text
  import opened Normalize
  import opened OrderedDict
  import opened QueryString
  import opened Urls
  import opened Builder

  /** The longest the history may grow. */
  const HistoryLimit: nat := 20

  /** The fields a UTM URL should carry, in the order they are reported. */
  const RequiredKeys: seq<string> := ["utm_source", "utm_medium", "utm_campaign"]

  /** `not pairs.get(k)`: the key is missing or holds the empty string. */
  predicate Absent(pairs: seq<Pair>, k: string)
  {
    Get(pairs, k) == None || Get(pairs, k) == Some("")
  }

  /** The keys of `keys` that are absent from pairs, in the order of keys. */
  function Missing(keys: seq<string>, pairs: seq<Pair>): (r: seq<string>)
    ensures |r| <= |keys|
    ensures forall k :: k in r <==> k in keys && Absent(pairs, k)
    ensures Distinct(keys) ==> Distinct(r)
  {
    if keys == [] then []
    else
      var rest := Missing(keys[1..], pairs);
      assert keys == [keys[0]] + keys[1..];
      DistinctCons(keys[0], keys[1..]);
      DistinctCons(keys[0], rest);
      if Absent(pairs, keys[0]) then [keys[0]] + rest else rest
  }

  /** The missing keys are reported in the order they are listed. */
  lemma {:induction false} MissingInOrder(keys: seq<string>, pairs: seq<Pair>)
    requires Distinct(keys)
    ensures forall i, j :: 0 <= i < j < |Missing(keys, pairs)| ==>
              IndexOf(keys, Missing(keys, pairs)[i]) < IndexOf(keys, Missing(keys, pairs)[j])
  {
    if keys != [] {
      DistinctTail(keys);
      MissingInOrder(keys[1..], pairs);
      var rest := Missing(keys[1..], pairs);
      IndexOfShift(keys, rest);
      if Absent(pairs, keys[0]) {
        OrderedConsHead(keys, rest);
      } else {
        OrderedShift(keys, rest);
      }
    }
  }

  /** App._validate_required: the required keys that pairs lacks or leaves
      empty, in the order of RequiredKeys. */
  function ValidateRequired(pairs: seq<Pair>): (r: seq<string>)
    ensures forall k :: k in r <==> k in RequiredKeys && Absent(pairs, k)
    ensures r == [] <==> forall k :: k in RequiredKeys ==> exists v :: v != "" && Get(pairs, k) == Some(v)
    ensures Distinct(r)
    ensures forall i, j :: 0 <= i < j < |r| ==> IndexOf(RequiredKeys, r[i]) < IndexOf(RequiredKeys, r[j])
  {
    assert Distinct(RequiredKeys);
    MissingInOrder(RequiredKeys, pairs);
    var r := Missing(RequiredKeys, pairs);
    assert r != [] ==> r[0] in RequiredKeys && Absent(pairs, r[0]);
    r
  }

  /** list.remove: the list without the first occurrence of x; unchanged
      when x does not occur. */
  function RemoveFirst(h: seq<string>, x: string): (r: seq<string>)
    ensures x !in h ==> r == h
    ensures x in h ==> |r| == |h| - 1
  {
    if h == [] then []
    else if h[0] == x then h[1..]
    else [h[0]] + RemoveFirst(h[1..], x)
  }

  /** What list.remove leaves: everything before the first x, then
      everything after it. */
  lemma {:induction false} RemoveFirstIsSplice(h: seq<string>, x: string)
    requires x in h
    ensures RemoveFirst(h, x) == h[..IndexOf(h, x)] + h[IndexOf(h, x) + 1..]
  {
    if h[0] != x {
      var t := h[1..];
      var i := IndexOf(t, x);
      IndexOfTail(h, x);
      RemoveFirstIsSplice(t, x);
      calc {
        RemoveFirst(h, x);
        [h[0]] + RemoveFirst(t, x);
        [h[0]] + (t[..i] + t[i + 1..]);
        { assert h[..i + 1] == [h[0]] + t[..i]; assert h[i + 2..] == t[i + 1..]; }
        h[..i + 1] + h[i + 2..];
      }
    }
  }

  /** The entries of h other than x, in their order. */
  function Without(h: seq<string>, x: string): (r: seq<string>)
    ensures x !in r
    ensures forall y :: y in r <==> y in h && y != x
    ensures |r| <= |h|
  {
    if h == [] then []
    else if h[0] == x then Without(h[1..], x)
    else [h[0]] + Without(h[1..], x)
  }

  /** In a list whose entries are distinct, removing the first occurrence
      removes every occurrence. */
  lemma {:induction false} RemoveFirstOfDistinct(h: seq<string>, x: string)
    requires Distinct(h)
    ensures RemoveFirst(h, x) == Without(h, x)
  {
    if h != [] {
      assert h == [h[0]] + h[1..];
      DistinctCons(h[0], h[1..]);
      if h[0] == x {
        WithoutAbsent(h[1..], x);
      } else {
        RemoveFirstOfDistinct(h[1..], x);
      }
    }
  }

  /** Dropping entries keeps the rest distinct. */
  lemma {:induction false} WithoutDistinct(h: seq<string>, x: string)
    requires Distinct(h)
    ensures Distinct(Without(h, x))
  {
    if h != [] {
      assert h == [h[0]] + h[1..];
      DistinctCons(h[0], h[1..]);
      WithoutDistinct(h[1..], x);
      if h[0] != x {
        DistinctCons(h[0], Without(h[1..], x));
      }
    }
  }

  lemma {:induction false} WithoutAbsent(h: seq<string>, x: string)
    requires x !in h
    ensures Without(h, x) == h
  {
    if h != [] {
      WithoutAbsent(h[1..], x);
    }
  }

  /** The history after _add_history(url): url on top, the old entries
      without it behind, the whole cut to HistoryLimit entries. */
  function Pushed(h: seq<string>, url: string): (r: seq<string>)
    ensures 0 < |r| <= HistoryLimit
    ensures r[0] == url
  {
    var moved := [url] + RemoveFirst(h, url);
    if |moved| > HistoryLimit then moved[..HistoryLimit] else moved
  }

  /** Lines 343-348 on a history whose entries are distinct: url is on
      top and occurs once, the entries stay distinct, no more than
      HistoryLimit of them are kept, and behind url come the old entries
      other than url, in their old order, as many as fit. */
  lemma PushedShape(h: seq<string>, url: string)
    requires Distinct(h)
    ensures var r := Pushed(h, url);
            && r[0] == url
            && url !in r[1..]
            && Distinct(r)
            && |r| <= HistoryLimit
            && |r| == (if |Without(h, url)| + 1 > HistoryLimit then HistoryLimit else |Without(h, url)| + 1)
            && r[1..] == Without(h, url)[..|r| - 1]
  {
    var w := Without(h, url);
    RemoveFirstOfDistinct(h, url);
    WithoutDistinct(h, url);
    var moved := [url] + w;
    DistinctCons(url, w);
    var r := Pushed(h, url);
    assert r == moved[..|r|];
    assert r[1..] == w[..|r| - 1];
    assert url !in r[1..] by {
      assert forall y :: y in r[1..] ==> y in w;
    }
  }

  /** Pushing a URL that is already on top leaves the history as it is. */
  lemma PushedTopIsIdle(h: seq<string>, url: string)
    requires Distinct(h) && 0 < |h| <= HistoryLimit && h[0] == url
    ensures Pushed(h, url) == h
  {
    assert IndexOf(h, url) == 0;
  }

  /** The list behind App.history: most recent first, de-duplicated and
      bounded. */
  class History {
    var entries: seq<string>

    ghost predicate Valid()
      reads this
    {
      Distinct(entries) && |entries| <= HistoryLimit
    }

    constructor()
      ensures Valid() && entries == []
    {
      entries := [];
    }

    /** App._add_history, without the listbox refresh. */
    method Add(url: string)
      requires Valid()
      modifies this
      ensures Valid()
      ensures entries == Pushed(old(entries), url)
      ensures entries[0] == url && url !in entries[1..]
      ensures |entries| - 1 <= |Without(old(entries), url)|
      ensures entries[1..] == Without(old(entries), url)[..|entries| - 1]
    {
      PushedShape(entries, url);
      if url in entries {
        entries := RemoveFirst(entries, url);
      }
      entries := [url] + entries;
      if |entries| > HistoryLimit {
        entries := entries[..HistoryLimit];
      }
    }
  }

  /** The required keys are already in normal form: lower case, no spaces. */
  lemma RequiredKeysNormal(k: string)
    requires k in RequiredKeys
    ensures k != [] && NoOuterSpace(k)
    ensures forall j :: 0 <= j < |k| ==> !IsUpper(k[j]) && k[j] != ' '
  {
  }

  /** A key already in normal form that holds a non-empty, stripped value is
      among the candidates build_utm_url keeps, under its own name. */
  lemma NormalKeyIsCandidate(pairs: seq<Pair>, opts: Options, k: string)
    requires k != [] && NoOuterSpace(k)
    requires forall j :: 0 <= j < |k| ==> !IsUpper(k[j]) && k[j] != ' '
    requires !Absent(pairs, k)
    requires forall i :: 0 <= i < |pairs| ==> NoOuterSpace(pairs[i].1)
    ensures k in Keys(Candidates(pairs, opts.forceLower, opts.spaceMode))
  {
    var v := Get(pairs, k).value;
    var i :| 0 <= i < |pairs| && pairs[i] == (k, v);
    TransformFixedPoint(k, opts.forceLower, opts.spaceMode);
    assert v != [] && NoOuterSpace(pairs[i].1);
    StrippedNotBlank(v);
    StrippedNotBlank(k);
    var c := Candidate(pairs[i], opts.forceLower, opts.spaceMode).value;
    assert c.0 == k;
    CandidateKept(pairs, i, opts.forceLower, opts.spaceMode);
    KeyOfItem(Candidates(pairs, opts.forceLower, opts.spaceMode), c);
  }

  /** A required key that holds a non-empty, stripped value is among the
      candidates build_utm_url keeps, under its own name. */
  lemma RequiredKeyIsCandidate(pairs: seq<Pair>, opts: Options, k: string)
    requires k in RequiredKeys && !Absent(pairs, k)
    requires forall i :: 0 <= i < |pairs| ==> NoOuterSpace(pairs[i].1)
    ensures k in Keys(Candidates(pairs, opts.forceLower, opts.spaceMode))
  {
    RequiredKeysNormal(k);
    NormalKeyIsCandidate(pairs, opts, k);
  }

  /** on_generate with every required field filled in (pair values are
      stripped by _collect_pairs, lines 221-231): each required key reaches
      the query of the built URL, whatever the options. */
  lemma RequiredKeysReachQuery(base: string, pairs: seq<Pair>, opts: Options, k: string)
    requires ValidateRequired(pairs) == []
    requires forall i :: 0 <= i < |pairs| ==> NoOuterSpace(pairs[i].1)
    requires Rebuild(base, pairs, opts).Success?
    requires k in RequiredKeys
    ensures k in Keys(DecodeQuery(Rebuild(base, pairs, opts).value.query))
  {
    assert k !in ValidateRequired(pairs);
    RequiredKeyIsCandidate(pairs, opts, k);
    FinalParamsShape(Parse(Prepare(base)), pairs, opts);
  }
}
