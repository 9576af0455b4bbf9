/** A Python dict from strings to strings, which remembers insertion order,
    modelled as the sequence of its (key, value) items. Assignment `d[k] = v`
    is Put; `d.update(other)` and the loop `for k, v in items: d[k] = v` are
    PutAll. */
module OrderedDict {
  import opened Wrappers
  import opened Seqs

  type Pair = (string, string)

  function Keys(m: seq<Pair>): (ks: seq<string>)
    ensures |ks| == |m|
    ensures forall i :: 0 <= i < |m| ==> ks[i] == m[i].0
  {
    seq(|m|, i requires 0 <= i < |m| => m[i].0)
  }

  lemma KeyOfItem(m: seq<Pair>, p: Pair)
    requires p in m
    ensures p.0 in Keys(m)
  {
    var i :| 0 <= i < |m| && m[i] == p;
    assert Keys(m)[i] == p.0;
  }

  lemma KeysConcat(a: seq<Pair>, b: seq<Pair>)
    ensures Keys(a + b) == Keys(a) + Keys(b)
  {
  }

  /** The value of the last item whose key is k; on a dict, whose keys are
      distinct, the value stored under k. */
  function Get(m: seq<Pair>, k: string): (r: Option<string>)
    ensures r.Some? <==> k in Keys(m)
    ensures r.Some? ==> (k, r.value) in m
  {
    if m == [] then None
    else if m[|m| - 1].0 == k then Some(m[|m| - 1].1)
    else
      assert Keys(m) == Keys(m[..|m| - 1]) + [m[|m| - 1].0];
      Get(m[..|m| - 1], k)
  }

  /** The keys of a non-empty dict: those of all items but the last, then
      the last key. */
  lemma KeysSnoc(m: seq<Pair>)
    requires m != []
    ensures Keys(m) == Keys(m[..|m| - 1]) + [m[|m| - 1].0]
  {
  }

  lemma GetLast(m: seq<Pair>, k: string)
    requires m != []
    ensures Get(m, k) == if m[|m| - 1].0 == k then Some(m[|m| - 1].1) else Get(m[..|m| - 1], k)
  {
  }

  lemma GetSnoc(m: seq<Pair>, p: Pair, k: string)
    ensures Get(m + [p], k) == if p.0 == k then Some(p.1) else Get(m, k)
  {
    assert (m + [p])[..|m|] == m;
  }

  /** The distinct keys of ks followed by the keys of more that are new, each
      taken at its first occurrence: the key order of a dict built from ks and
      then assigned the keys of more, one after the other. */
  function AppendNew(ks: seq<string>, more: seq<string>): (r: seq<string>)
    ensures |ks| <= |r| && r[..|ks|] == ks
    ensures forall x :: x in r <==> x in ks || x in more
    ensures forall i :: |ks| <= i < |r| ==> r[i] !in ks
    ensures Distinct(ks) ==> Distinct(r)
    ensures forall i, j :: |ks| <= i < j < |r| ==> IndexOf(more, r[i]) < IndexOf(more, r[j])
  {
    if more == [] then ks
    else
      var init := more[..|more| - 1];
      var x := more[|more| - 1];
      var d := AppendNew(ks, init);
      assert more == init + [x];
      forall y | y in init ensures IndexOf(more, y) == IndexOf(init, y) {
        IndexOfConcat(init, [x], y);
      }
      if x in d then d
      else
        assert x !in init;
        IndexOfConcat(init, [x], x);
        d + [x]
  }

  /** Python's `d[k] = v`: the item under k takes the value v and keeps its
      place; a new key is appended at the end. */
  function Put(m: seq<Pair>, k: string, v: string): (r: seq<Pair>)
    ensures Keys(r) == if k in Keys(m) then Keys(m) else Keys(m) + [k]
    ensures forall k' :: Get(r, k') == if k' == k then Some(v) else Get(m, k')
    ensures Distinct(Keys(m)) ==> Distinct(Keys(r))
  {
    if k in Keys(m) then Overwrite(m, k, v)
    else
      forall k' ensures Get(m + [(k, v)], k') == if k' == k then Some(v) else Get(m, k') {
        GetSnoc(m, (k, v), k');
      }
      m + [(k, v)]
  }

  /** Every item under k takes the value v; the keys stay where they are. */
  function Overwrite(m: seq<Pair>, k: string, v: string): (r: seq<Pair>)
    requires k in Keys(m)
    ensures Keys(r) == Keys(m)
    ensures forall k' :: Get(r, k') == if k' == k then Some(v) else Get(m, k')
    decreases |m|
  {
    var last := m[|m| - 1];
    var init := m[..|m| - 1];
    assert m == init + [last];
    KeysConcat(init, [last]);
    var last' := if last.0 == k then (k, v) else last;
    if k in Keys(init) then
      var r := Overwrite(init, k, v) + [last'];
      KeysConcat(Overwrite(init, k, v), [last']);
      forall k' ensures Get(r, k') == if k' == k then Some(v) else Get(m, k') {
        GetSnoc(Overwrite(init, k, v), last', k');
        GetSnoc(init, last, k');
      }
      r
    else
      var r := init + [last'];
      KeysConcat(init, [last']);
      forall k' ensures Get(r, k') == if k' == k then Some(v) else Get(m, k') {
        GetSnoc(init, last', k');
        GetSnoc(init, last, k');
      }
      r
  }

  /** Assign every item of ps, in order, into m (`m.update(ps)`). The keys of
      m keep their places, new keys follow in first-occurrence order, and a key
      that ps assigns ends with the last value ps gives it. */
  function PutAll(m: seq<Pair>, ps: seq<Pair>): (r: seq<Pair>)
    ensures Keys(r) == AppendNew(Keys(m), Keys(ps))
    ensures forall k :: Get(r, k) == if k in Keys(ps) then Get(ps, k) else Get(m, k)
    ensures Distinct(Keys(m)) ==> Distinct(Keys(r))
  {
    if ps == [] then m
    else
      var init, last := ps[..|ps| - 1], ps[|ps| - 1];
      var prev := PutAll(m, init);
      KeysSnoc(ps);
      var r := Put(prev, last.0, last.1);
      forall k ensures Get(r, k) == if k in Keys(ps) then Get(ps, k) else Get(m, k) {
        GetLast(ps, k);
      }
      r
  }

  lemma PutAllSnoc(m: seq<Pair>, ps: seq<Pair>, p: Pair)
    ensures PutAll(m, ps + [p]) == Put(PutAll(m, ps), p.0, p.1)
  {
    assert (ps + [p])[..|ps|] == ps;
  }

  /** One more step of the assignment loop over ps. */
  lemma PutAllPrefix(m: seq<Pair>, ps: seq<Pair>, j: nat)
    requires j < |ps|
    ensures PutAll(m, ps[..j + 1]) == Put(PutAll(m, ps[..j]), ps[j].0, ps[j].1)
  {
    assert ps[..j + 1] == ps[..j] + [ps[j]];
    PutAllSnoc(m, ps[..j], ps[j]);
  }

  lemma AppendNewSnoc(ks: seq<string>, more: seq<string>, x: string)
    ensures AppendNew(ks, more + [x])
         == if x in AppendNew(ks, more) then AppendNew(ks, more) else AppendNew(ks, more) + [x]
  {
    assert (more + [x])[..|more|] == more;
  }

  /** Appending the same key to two sequences that land the same keys keeps
      them landing the same keys. */
  lemma AppendNewSnocCongruent(ks: seq<string>, m1: seq<string>, m2: seq<string>, x: string)
    requires AppendNew(ks, m1) == AppendNew(ks, m2)
    ensures AppendNew(ks, m1 + [x]) == AppendNew(ks, m2 + [x])
  {
    AppendNewSnoc(ks, m1, x);
    AppendNewSnoc(ks, m2, x);
  }

  /** Assigning a key the dict already has does not change the key order. */
  lemma AppendNewSnocPresent(ks: seq<string>, m: seq<string>, x: string)
    requires x in ks
    ensures AppendNew(ks, m + [x]) == AppendNew(ks, m)
  {
    AppendNewSnoc(ks, m, x);
  }

  /** Collapsing a key sequence first does not change where its keys land. */
  lemma {:induction false} AppendNewAbsorbs(ks: seq<string>, more: seq<string>)
    ensures AppendNew(ks, AppendNew([], more)) == AppendNew(ks, more)
  {
    if more != [] {
      var init, x := more[..|more| - 1], more[|more| - 1];
      assert more == init + [x];
      AppendNewAbsorbs(ks, init);
      AppendNewSnoc([], init, x);
      AppendNewSnoc(ks, init, x);
      var d := AppendNew([], init);
      if x !in d {
        AppendNewSnoc(ks, d, x);
      }
    }
  }

  /** Building a dict from items whose keys are already distinct gives back
      those items. */
  lemma {:induction false} CollapseDistinct(m: seq<Pair>)
    requires Distinct(Keys(m))
    ensures PutAll([], m) == m
  {
    if m != [] {
      var init, last := m[..|m| - 1], m[|m| - 1];
      assert m == init + [last];
      assert Keys(init) == Keys(m)[..|m| - 1];
      CollapseDistinct(init);
      PutAllSnoc([], init, last);
      assert last.0 !in Keys(init);
    }
  }
}
