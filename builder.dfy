/** build_utm_url: parse the base URL, collect its query into a dict, filter
    and normalize the candidate pairs, merge them under the override policy,
    and put the merged dict back as the query. */
module Builder {
  import opened Wrappers
  import opened Seqs
  import opened Text
  import opened Normalize
  import opened OrderedDict
  import opened QueryString
  import opened Urls

  /** The two ValueErrors build_utm_url raises. */
  datatype BuildError = EmptyBaseUrl | InvalidBaseUrl

  /** The keyword arguments force_lower, space_mode, merge_existing and
      override_existing. */
  datatype Options = Options(forceLower: bool, spaceMode: string, mergeExisting: bool, overrideExisting: bool)

  /** The string handed to urlparse: the base itself when it holds "://",
      otherwise the base behind "https://". */
  function Prepare(base: string): (r: string)
    ensures Occurs("://", r)
  {
    if Occurs("://", base) then base
    else
      assert OccursAt("://", "https://" + base, 5);
      "https://" + base
  }

  /** The existing query collapsed into a dict, each name holding its last
      value; empty unless merging is on and the URL has a query. */
  function ExistingParams(parsed: Url, mergeExisting: bool): (r: seq<Pair>)
    ensures Distinct(Keys(r))
    ensures !mergeExisting ==> r == []
  {
    if mergeExisting && parsed.query != [] then PutAll([], DecodeQuery(parsed.query)) else []
  }

  /** One candidate pair after the value test and normalization: None when
      it is skipped. A pair is skipped exactly when its raw value is empty or
      its key or value is blank (normalizes to ""); a kept pair has a
      non-empty key and value with no surrounding whitespace. */
  function Candidate(p: Pair, forceLower: bool, spaceMode: string): (r: Option<Pair>)
    ensures r.None? <==> p.1 == [] || IsBlank(p.0) || IsBlank(p.1)
    ensures r.Some? ==> r.value.0 != [] && r.value.1 != []
    ensures r.Some? ==> NoOuterSpace(r.value.0) && NoOuterSpace(r.value.1)
    ensures r.Some? ==> (&& Transform(Some(p.0), forceLower, spaceMode) == Some(r.value.0)
                         && Transform(Some(p.1), forceLower, spaceMode) == Some(r.value.1))
  {
    var (k, v) := p;
    if v == [] then None
    else
      var (nk, nv) := NormalizePair(Some(k), Some(v), forceLower, spaceMode);
      if nk.None? || nk.value == [] || nv.None? || nv.value == [] then None
      else Some((nk.value, nv.value))
  }

  /** What one pair contributes to the candidates: its kept form, or
      nothing when it is skipped. */
  function Kept(p: Pair, forceLower: bool, spaceMode: string): seq<Pair>
  {
    match Candidate(p, forceLower, spaceMode)
    case None => []
    case Some(c) => [c]
  }

  /** The kept candidates, in the order the pairs were given. */
  function Candidates(pairs: seq<Pair>, forceLower: bool, spaceMode: string): (r: seq<Pair>)
    ensures |r| <= |pairs|
    ensures forall c :: c in r ==> c.0 != [] && c.1 != []
  {
    if pairs == [] then []
    else
      Candidates(pairs[..|pairs| - 1], forceLower, spaceMode) + Kept(pairs[|pairs| - 1], forceLower, spaceMode)
  }

  lemma CandidatesPrefix(pairs: seq<Pair>, i: nat, forceLower: bool, spaceMode: string)
    requires i < |pairs|
    ensures Candidates(pairs[..i + 1], forceLower, spaceMode)
         == Candidates(pairs[..i], forceLower, spaceMode)
            + Kept(pairs[i], forceLower, spaceMode)
  {
    assert pairs[..i + 1][..i] == pairs[..i];
  }

  /** The candidates the override policy lets through: all of them when
      overriding, otherwise those whose key the existing query lacks. */
  function Admitted(cands: seq<Pair>, existing: seq<Pair>, overrideExisting: bool): (r: seq<Pair>)
    ensures |r| <= |cands|
  {
    if cands == [] then []
    else
      var init := cands[..|cands| - 1];
      var rest := Admitted(init, existing, overrideExisting);
      var c := cands[|cands| - 1];
      assert cands == init + [c];
      if overrideExisting || c.0 !in Keys(existing) then rest + [c] else rest
  }

  lemma AdmittedSnoc(cands: seq<Pair>, c: Pair, existing: seq<Pair>, overrideExisting: bool)
    ensures Admitted(cands + [c], existing, overrideExisting)
         == Admitted(cands, existing, overrideExisting)
            + if overrideExisting || c.0 !in Keys(existing) then [c] else []
  {
    assert (cands + [c])[..|cands|] == cands;
  }

  /** The dict utm that the loop of lines 84-91 fills: a key is in it when
      some pair survives as a candidate with that key and the policy admits
      the key, and it holds the last such candidate's value. */
  function Utm(pairs: seq<Pair>, existing: seq<Pair>, opts: Options): (r: seq<Pair>)
    ensures Distinct(Keys(r))
    ensures forall k :: Get(r, k) == if opts.overrideExisting || k !in Keys(existing)
                                     then Get(Candidates(pairs, opts.forceLower, opts.spaceMode), k)
                                     else None
  {
    var cands := Candidates(pairs, opts.forceLower, opts.spaceMode);
    var r := PutAll([], Admitted(cands, existing, opts.overrideExisting));
    forall k ensures Get(r, k) == if opts.overrideExisting || k !in Keys(existing) then Get(cands, k) else None {
      AdmittedGet(cands, existing, opts.overrideExisting, k);
    }
    r
  }

  /** One pass of the loop of lines 84-91. */
  lemma UtmStep(pairs: seq<Pair>, i: nat, existing: seq<Pair>, opts: Options)
    requires i < |pairs|
    ensures Utm(pairs[..i + 1], existing, opts)
         == match Candidate(pairs[i], opts.forceLower, opts.spaceMode)
            case Some(c) =>
              if opts.overrideExisting || c.0 !in Keys(existing) then Put(Utm(pairs[..i], existing, opts), c.0, c.1)
              else Utm(pairs[..i], existing, opts)
            case None => Utm(pairs[..i], existing, opts)
  {
    var cands := Candidates(pairs[..i], opts.forceLower, opts.spaceMode);
    CandidatesPrefix(pairs, i, opts.forceLower, opts.spaceMode);
    match Candidate(pairs[i], opts.forceLower, opts.spaceMode)
    case Some(c) =>
      AdmittedSnoc(cands, c, existing, opts.overrideExisting);
      if opts.overrideExisting || c.0 !in Keys(existing) {
        PutAllSnoc([], Admitted(cands, existing, opts.overrideExisting), c);
      } else {
        assert Admitted(cands, existing, opts.overrideExisting) + [] == Admitted(cands, existing, opts.overrideExisting);
      }
    case None =>
      assert cands + [] == cands;
  }

  /** `final = existing.copy(); final.update(utm)`, where utm is the dict of
      the admitted candidates: the existing keys come first, in their places,
      and the candidate keys it lacks follow in the order they were supplied
      (a candidate the policy holds back has a key already present). */
  function Merge(existing: seq<Pair>, cands: seq<Pair>, overrideExisting: bool): (r: seq<Pair>)
    ensures Keys(r) == AppendNew(Keys(existing), Keys(cands))
    ensures Distinct(Keys(existing)) ==> Distinct(Keys(r))
  {
    var admitted := Admitted(cands, existing, overrideExisting);
    AppendNewAbsorbs(Keys(existing), Keys(admitted));
    AdmittedKeyOrder(cands, existing, overrideExisting);
    PutAll(existing, PutAll([], admitted))
  }

  /** The query parameters of the built URL, in their order. */
  function FinalParams(parsed: Url, pairs: seq<Pair>, opts: Options): seq<Pair>
  {
    Merge(ExistingParams(parsed, opts.mergeExisting),
          Candidates(pairs, opts.forceLower, opts.spaceMode),
          opts.overrideExisting)
  }

  /** The parsed URL with its query replaced, before urlunparse. It fails
      with EmptyBaseUrl exactly on "" and with InvalidBaseUrl exactly when
      the parsed host is empty; otherwise every component of the parsed base
      but the query is kept, and the new query decodes to the final
      parameters. */
  function Rebuild(base: string, pairs: seq<Pair>, opts: Options): (r: Result<Url, BuildError>)
    ensures r == Failure(EmptyBaseUrl) <==> base == []
    ensures r == Failure(InvalidBaseUrl) <==> base != [] && Parse(Prepare(base)).netloc == []
    ensures r.Success? ==> WellFormed(r.value)
    ensures r.Success? ==> r.value.(query := Parse(Prepare(base)).query) == Parse(Prepare(base))
    ensures r.Success? ==> DecodeQuery(r.value.query) == FinalParams(Parse(Prepare(base)), pairs, opts)
  {
    if base == [] then Failure(EmptyBaseUrl)
    else
      var parsed := Parse(Prepare(base));
      if parsed.netloc == [] then Failure(InvalidBaseUrl)
      else
        DecodeEncodeQuery(FinalParams(parsed, pairs, opts));
        Success(parsed.(query := EncodeQuery(FinalParams(parsed, pairs, opts))))
  }

  /** build_utm_url's outcome: the URL string or the error raised. The
      errors are those of Rebuild, and the returned string parses back to
      the record Rebuild describes. */
  function BuildUrl(base: string, pairs: seq<Pair>, opts: Options): (r: Result<string, BuildError>)
    ensures r == Failure(EmptyBaseUrl) <==> base == []
    ensures r == Failure(InvalidBaseUrl) <==> base != [] && Parse(Prepare(base)).netloc == []
    ensures r.Success? <==> Rebuild(base, pairs, opts).Success?
    ensures r.Success? ==> Parse(r.value) == Rebuild(base, pairs, opts).value
  {
    match Rebuild(base, pairs, opts)
    case Success(u) =>
      ParseUnparse(u);
      Success(Unparse(u))
    case Failure(e) => Failure(e)
  }

  /** Lines 77-80: `existing[k] = v` for every item of the query, so that
      each name keeps its first place and its last value. */
  method CollectExisting(parsed: Url, mergeExisting: bool) returns (existing: seq<Pair>)
    ensures existing == ExistingParams(parsed, mergeExisting)
  {
    existing := [];
    if mergeExisting && parsed.query != [] {
      var items := DecodeQuery(parsed.query);
      var i := 0;
      while i < |items|
        invariant 0 <= i <= |items|
        invariant existing == PutAll([], items[..i])
      {
        PutAllPrefix([], items, i);
        existing := Put(existing, items[i].0, items[i].1);
        i := i + 1;
      }
      assert items[..|items|] == items;
    }
  }

  /** Lines 83-91: the dict utm of the candidates that survive the filters
      and the override policy. */
  method CollectUtm(pairs: seq<Pair>, existing: seq<Pair>, opts: Options) returns (utm: seq<Pair>)
    ensures utm == Utm(pairs, existing, opts)
  {
    utm := [];
    var i := 0;
    assert pairs[..0] == [];
    while i < |pairs|
      invariant 0 <= i <= |pairs|
      invariant utm == Utm(pairs[..i], existing, opts)
    {
      UtmStep(pairs, i, existing, opts);
      var candidate := Candidate(pairs[i], opts.forceLower, opts.spaceMode);
      if candidate.Some? {
        var (nk, nv) := candidate.value;
        if opts.overrideExisting || nk !in Keys(existing) {
          utm := Put(utm, nk, nv);
        }
      }
      i := i + 1;
    }
    assert pairs[..|pairs|] == pairs;
  }

  /** Lines 94-95: `final = existing.copy(); final.update(utm)`. */
  method UpdateCopy(existing: seq<Pair>, utm: seq<Pair>) returns (final: seq<Pair>)
    ensures final == PutAll(existing, utm)
  {
    final := existing;
    var j := 0;
    while j < |utm|
      invariant 0 <= j <= |utm|
      invariant final == PutAll(existing, utm[..j])
    {
      PutAllPrefix(existing, utm, j);
      final := Put(final, utm[j].0, utm[j].1);
      j := j + 1;
    }
    assert utm[..|utm|] == utm;
  }

  /** build_utm_url(base_url, pairs, ...): the URL string, or the error the
      source raises. pairs stands for `pairs.items()` of a dict, whose raw
      keys are distinct; given repeated raw keys, the model processes every
      item, where a dict would already have kept only the last. */
  method BuildUtmUrl(baseUrl: string, pairs: seq<Pair>, opts: Options) returns (r: Result<string, BuildError>)
    ensures r == Failure(EmptyBaseUrl) <==> baseUrl == []
    ensures r == Failure(InvalidBaseUrl) <==> baseUrl != [] && Parse(Prepare(baseUrl)).netloc == []
    ensures r == BuildUrl(baseUrl, pairs, opts)
  {
    if baseUrl == [] {
      return Failure(EmptyBaseUrl);
    }
    var parsed := Parse(Prepare(baseUrl));
    if parsed.netloc == [] {
      return Failure(InvalidBaseUrl);
    }
    var existing := CollectExisting(parsed, opts.mergeExisting);
    var utm := CollectUtm(pairs, existing, opts);
    var final := UpdateCopy(existing, utm);
    r := Success(Unparse(parsed.(query := EncodeQuery(final))));
  }

  // ---------------------------------------------------------------------
  // The merge

  /** A candidate the policy holds back has a key the existing query already
      has, so dropping it does not change the key order. */
  lemma {:induction false} AdmittedKeyOrder(cands: seq<Pair>, existing: seq<Pair>, overrideExisting: bool)
    ensures AppendNew(Keys(existing), Keys(Admitted(cands, existing, overrideExisting)))
         == AppendNew(Keys(existing), Keys(cands))
  {
    if cands != [] {
      var ke := Keys(existing);
      var init, c := cands[..|cands| - 1], cands[|cands| - 1];
      var a := Admitted(init, existing, overrideExisting);
      AdmittedKeyOrder(init, existing, overrideExisting);
      KeysSnoc(cands);
      if overrideExisting || c.0 !in ke {
        assert Admitted(cands, existing, overrideExisting) == a + [c];
        KeysConcat(a, [c]);
        AppendNewSnocCongruent(ke, Keys(a), Keys(init), c.0);
      } else {
        assert Admitted(cands, existing, overrideExisting) == a;
        AppendNewSnocPresent(ke, Keys(init), c.0);
      }
    }
  }

  /** Lines 90-91: a candidate is admitted exactly when overriding is on or
      the existing dict lacks its key. */
  lemma {:induction false} AdmittedMembers(cands: seq<Pair>, existing: seq<Pair>, overrideExisting: bool)
    ensures forall p :: p in Admitted(cands, existing, overrideExisting)
                    <==> p in cands && (overrideExisting || p.0 !in Keys(existing))
  {
    if cands != [] {
      var init, c := cands[..|cands| - 1], cands[|cands| - 1];
      assert cands == init + [c];
      AdmittedMembers(init, existing, overrideExisting);
    }
  }

  /** The value the admitted candidates give a key: the last candidate value
      when the policy admits that key, none otherwise. */
  lemma {:induction false} AdmittedGet(cands: seq<Pair>, existing: seq<Pair>, overrideExisting: bool, k: string)
    ensures Get(Admitted(cands, existing, overrideExisting), k)
         == if overrideExisting || k !in Keys(existing) then Get(cands, k) else None
  {
    if cands != [] {
      var init, c := cands[..|cands| - 1], cands[|cands| - 1];
      var a := Admitted(init, existing, overrideExisting);
      assert cands == init + [c];
      AdmittedGet(init, existing, overrideExisting, k);
      GetSnoc(init, c, k);
      if overrideExisting || c.0 !in Keys(existing) {
        GetSnoc(a, c, k);
      }
    }
  }

  /** Lines 90-95: in the merged dict a key takes the last candidate value
      when the policy admits it (overriding, or a key the existing query
      lacks) and keeps its existing value otherwise. */
  lemma MergeValues(existing: seq<Pair>, cands: seq<Pair>, overrideExisting: bool)
    ensures forall k :: Get(Merge(existing, cands, overrideExisting), k)
                     == if (overrideExisting || k !in Keys(existing)) && k in Keys(cands) then Get(cands, k)
                        else Get(existing, k)
  {
    forall k ensures Get(Merge(existing, cands, overrideExisting), k)
                  == if (overrideExisting || k !in Keys(existing)) && k in Keys(cands) then Get(cands, k)
                     else Get(existing, k)
    {
      AdmittedGet(cands, existing, overrideExisting, k);
    }
  }

  /** The query of the built URL: its keys are distinct; the existing keys
      come first, in first-occurrence order, each with its last value in the
      query; the surviving candidate keys the query lacks follow in the order
      the pairs were supplied; and each key holds the value the override
      policy picks. */
  lemma FinalParamsShape(parsed: Url, pairs: seq<Pair>, opts: Options)
    ensures var existing := ExistingParams(parsed, opts.mergeExisting);
            var cands := Candidates(pairs, opts.forceLower, opts.spaceMode);
            var final := FinalParams(parsed, pairs, opts);
            && Distinct(Keys(final))
            && Keys(final) == AppendNew(Keys(existing), Keys(cands))
            && (forall k :: Get(final, k)
                         == if (opts.overrideExisting || k !in Keys(existing)) && k in Keys(cands) then Get(cands, k)
                            else Get(existing, k))
            && (opts.mergeExisting && parsed.query != [] ==>
                  && Keys(existing) == AppendNew([], Keys(DecodeQuery(parsed.query)))
                  && forall k :: Get(existing, k) == Get(DecodeQuery(parsed.query), k))
  {
    MergeValues(ExistingParams(parsed, opts.mergeExisting), Candidates(pairs, opts.forceLower, opts.spaceMode), opts.overrideExisting);
  }

  /** Line 90 with override_existing off: a key the existing query has keeps
      its existing value. */
  lemma ExistingValueKept(parsed: Url, pairs: seq<Pair>, opts: Options, k: string)
    requires !opts.overrideExisting
    requires k in Keys(ExistingParams(parsed, opts.mergeExisting))
    ensures Get(FinalParams(parsed, pairs, opts), k) == Get(ExistingParams(parsed, opts.mergeExisting), k)
  {
    FinalParamsShape(parsed, pairs, opts);
  }

  /** Line 90 with override_existing on: a surviving candidate key takes the
      value of the last candidate with that key. */
  lemma CandidateValueWins(parsed: Url, pairs: seq<Pair>, opts: Options, k: string)
    requires opts.overrideExisting
    requires k in Keys(Candidates(pairs, opts.forceLower, opts.spaceMode))
    ensures Get(FinalParams(parsed, pairs, opts), k) == Get(Candidates(pairs, opts.forceLower, opts.spaceMode), k)
  {
    FinalParamsShape(parsed, pairs, opts);
  }

  /** Line 91: when two pairs normalize to the same key, the later one
      decides the value (unless the policy keeps an existing value). */
  lemma LaterPairWins(parsed: Url, pairs: seq<Pair>, p: Pair, opts: Options)
    requires Candidate(p, opts.forceLower, opts.spaceMode).Some?
    requires var c := Candidate(p, opts.forceLower, opts.spaceMode).value;
             opts.overrideExisting || c.0 !in Keys(ExistingParams(parsed, opts.mergeExisting))
    ensures var c := Candidate(p, opts.forceLower, opts.spaceMode).value;
            Get(FinalParams(parsed, pairs + [p], opts), c.0) == Some(c.1)
  {
    var c := Candidate(p, opts.forceLower, opts.spaceMode).value;
    var cands := Candidates(pairs, opts.forceLower, opts.spaceMode);
    assert (pairs + [p])[..|pairs|] == pairs;
    assert Candidates(pairs + [p], opts.forceLower, opts.spaceMode) == cands + [c];
    GetSnoc(cands, c, c.0);
    KeysConcat(cands, [c]);
    FinalParamsShape(parsed, pairs + [p], opts);
  }

  /** Lines 77-80 and 94-95 with merge_existing off: the query holds exactly
      the surviving candidate keys, in supply order, with their last values;
      nothing of the original query survives. */
  lemma MergeDisabledDropsQuery(parsed: Url, pairs: seq<Pair>, opts: Options)
    requires !opts.mergeExisting
    ensures var cands := Candidates(pairs, opts.forceLower, opts.spaceMode);
            var final := FinalParams(parsed, pairs, opts);
            && Keys(final) == AppendNew([], Keys(cands))
            && (forall k :: k in Keys(final) <==> k in Keys(cands))
            && (forall k :: Get(final, k) == Get(cands, k))
  {
    FinalParamsShape(parsed, pairs, opts);
  }

  // ---------------------------------------------------------------------
  // Filtering

  lemma CandidatesSnoc(ps: seq<Pair>, p: Pair, forceLower: bool, spaceMode: string)
    ensures Candidates(ps + [p], forceLower, spaceMode) == Candidates(ps, forceLower, spaceMode) + Kept(p, forceLower, spaceMode)
  {
    assert (ps + [p])[..|ps|] == ps;
  }

  lemma {:induction false} CandidatesConcat(a: seq<Pair>, b: seq<Pair>, forceLower: bool, spaceMode: string)
    ensures Candidates(a + b, forceLower, spaceMode) == Candidates(a, forceLower, spaceMode) + Candidates(b, forceLower, spaceMode)
  {
    if b == [] {
      assert a + b == a;
    } else {
      var init, last := b[..|b| - 1], b[|b| - 1];
      assert b == init + [last];
      assert a + b == (a + init) + [last];
      CandidatesConcat(a, init, forceLower, spaceMode);
      CandidatesSnoc(a + init, last, forceLower, spaceMode);
      CandidatesSnoc(init, last, forceLower, spaceMode);
      var ca, ci, k := Candidates(a, forceLower, spaceMode), Candidates(init, forceLower, spaceMode), Kept(last, forceLower, spaceMode);
      ConcatAssoc(ca, ci, k);
    }
  }

  /** Every pair that survives the value test and normalization is among
      the candidates. */
  lemma CandidateKept(pairs: seq<Pair>, i: nat, forceLower: bool, spaceMode: string)
    requires i < |pairs| && Candidate(pairs[i], forceLower, spaceMode).Some?
    ensures Candidate(pairs[i], forceLower, spaceMode).value in Candidates(pairs, forceLower, spaceMode)
  {
    var p := pairs[i];
    SplitAt(pairs, i);
    CandidatesConcat(pairs[..i] + [p], pairs[i + 1..], forceLower, spaceMode);
    CandidatesConcat(pairs[..i], [p], forceLower, spaceMode);
    assert [p][..0] == [];
  }

  /** Lines 85-89: a pair whose raw value is empty, or whose key or value
      normalizes to "", contributes nothing to the built URL. */
  lemma SkippedPairContributesNothing(base: string, pre: seq<Pair>, p: Pair, post: seq<Pair>, opts: Options)
    requires p.1 == [] || IsBlank(p.0) || IsBlank(p.1)
    ensures Rebuild(base, pre + [p] + post, opts) == Rebuild(base, pre + post, opts)
  {
    SkippedPairNotCandidate(pre, p, post, opts.forceLower, opts.spaceMode);
  }

  /** A skipped pair leaves the candidates as they are. */
  lemma SkippedPairNotCandidate(pre: seq<Pair>, p: Pair, post: seq<Pair>, forceLower: bool, spaceMode: string)
    requires Candidate(p, forceLower, spaceMode).None?
    ensures Candidates(pre + [p] + post, forceLower, spaceMode) == Candidates(pre + post, forceLower, spaceMode)
  {
    var cp, cq := Candidates(pre, forceLower, spaceMode), Candidates(post, forceLower, spaceMode);
    assert Candidates(pre + [p], forceLower, spaceMode) == cp by {
      CandidatesSnoc(pre, p, forceLower, spaceMode);
      assert cp + [] == cp;
    }
    assert Candidates(pre + [p] + post, forceLower, spaceMode) == cp + cq by {
      CandidatesConcat(pre + [p], post, forceLower, spaceMode);
    }
    assert Candidates(pre + post, forceLower, spaceMode) == cp + cq by {
      CandidatesConcat(pre, post, forceLower, spaceMode);
    }
  }

  // ---------------------------------------------------------------------
  // The URL around the query

  /** Lines 71-75: "https://" is put in front exactly when the base holds no
      "://"; then the scheme is https, the network location is the base up to
      its first '/', '?' or '#', and the base is rejected as invalid exactly
      when it starts with one of those. */
  lemma SchemeInference(base: string, pairs: seq<Pair>, opts: Options)
    ensures Prepare(base) != base <==> !Occurs("://", base)
    ensures !Occurs("://", base) ==>
              && Parse(Prepare(base)).scheme == "https"
              && Parse(Prepare(base)).netloc == base[..IndexOfAny(base, NetlocEnd)]
              && (Rebuild(base, pairs, opts) == Failure(InvalidBaseUrl) <==> base != [] && base[0] in NetlocEnd)
  {
    if !Occurs("://", base) {
      assert |"https://" + base| != |base|;
      ParseHttpsPrefixed(base);
    }
  }

  /** A base with no "://" and none of '/', '?', '#' is taken as a bare
      host (a port such as "example.com:8080" included): it is accepted, and
      the whole of it becomes the network location. */
  lemma BareHostAccepted(base: string, pairs: seq<Pair>, opts: Options)
    requires base != [] && !Occurs("://", base)
    requires forall c :: c in NetlocEnd ==> c !in base
    ensures Rebuild(base, pairs, opts).Success?
    ensures Rebuild(base, pairs, opts).value.netloc == base
  {
    assert IndexOfAny(base, NetlocEnd) == |base|;
    assert base[..|base|] == base;
    SchemeInference(base, pairs, opts);
  }

  /** "utm_source=foo" holds no "://" and none of '/', '?', '#'. */
  lemma QueryLikeIsBareHost()
    ensures !Occurs("://", "utm_source=foo")
    ensures forall c :: c in NetlocEnd ==> c !in "utm_source=foo"
  {
    var q := "utm_source=foo";
    assert ':' !in q && '/' !in q && '?' !in q && '#' !in q;
    AbsentHeadNotOccurs("://", q);
  }

  /** "utm_source=foo", a query with no host, is accepted with the network
      location "utm_source=foo" rather than rejected. */
  lemma QueryLikeBaseAccepted(pairs: seq<Pair>, opts: Options)
    ensures Rebuild("utm_source=foo", pairs, opts).Success?
    ensures Rebuild("utm_source=foo", pairs, opts).value.netloc == "utm_source=foo"
  {
    QueryLikeIsBareHost();
    BareHostAccepted("utm_source=foo", pairs, opts);
  }

  /** Re-reading the query of a built URL gives back its parameters. */
  lemma ExistingOfBuilt(u: Url, final: seq<Pair>)
    requires Distinct(Keys(final))
    requires u.query == EncodeQuery(final)
    ensures ExistingParams(u, true) == final
  {
    if final != [] {
      DecodeEncodeQuery(final);
      CollapseDistinct(final);
    }
  }

  /** A well-formed record with a scheme whose query encodes a dict is
      rebuilt unchanged from its own string when no pairs are given and
      merging is on. */
  lemma RebuildOfBuilt(u: Url, final: seq<Pair>, opts: Options)
    requires WellFormed(u) && u.scheme != []
    requires Distinct(Keys(final)) && u.query == EncodeQuery(final)
    requires opts.mergeExisting
    ensures Rebuild(Unparse(u), [], opts) == Success(u)
  {
    ParseUnparse(u);
    assert Prepare(Unparse(u)) == Unparse(u);
    ExistingOfBuilt(u, final);
    assert FinalParams(u, [], opts) == PutAll(final, []);
  }

  /** Building again from a built URL (one with a scheme), with no new pairs
      and merging on, gives the same URL back. */
  lemma RebuildIsStable(base: string, pairs: seq<Pair>, opts: Options)
    requires Rebuild(base, pairs, opts).Success?
    requires Rebuild(base, pairs, opts).value.scheme != []
    requires opts.mergeExisting
    ensures var u := Rebuild(base, pairs, opts).value;
            Rebuild(Unparse(u), [], opts) == Success(u)
  {
    var parsed := Parse(Prepare(base));
    FinalParamsShape(parsed, pairs, opts);
    RebuildOfBuilt(Rebuild(base, pairs, opts).value, FinalParams(parsed, pairs, opts), opts);
  }

  /** Why RebuildIsStable needs a scheme: a base such as "//example.com/"
      is accepted with no scheme, and the URL built from it starts with
      "//". Unless "://" turns up later in it, building again prefixes
      "https://" and reads an empty host, so the built URL is rejected. */
  lemma SchemelessRebuildRejected(u: Url, opts: Options)
    requires u.scheme == [] && u.netloc != []
    requires !Occurs("://", Unparse(u))
    ensures Rebuild(Unparse(u), [], opts) == Failure(InvalidBaseUrl)
  {
    var b := Unparse(u);
    assert b != [] && b[0] in NetlocEnd by {
      assert OccursAt("//", b, 0);
      assert b[0] == b[0..2][0];
    }
    SchemeInference(b, [], opts);
  }
}
