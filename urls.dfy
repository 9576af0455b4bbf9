/** The URL record build_utm_url works on: urlparse, which splits a string
    into six components, and urlunparse, which joins them again. */
module Urls {
  import opened Seqs
  import opened Text

  /** urlparse's ParseResult. */
  datatype Url = Url(scheme: string, netloc: string, path: string, params: string, query: string, fragment: string)

  predicate IsAsciiLetter(c: char)
  {
    'a' <= c <= 'z' || 'A' <= c <= 'Z'
  }

  /** Letters, digits and "+-.", the characters a scheme may hold. */
  predicate IsSchemeChar(c: char)
  {
    IsAsciiLetter(c) || '0' <= c <= '9' || c == '+' || c == '-' || c == '.'
  }

  /** A scheme as urlparse returns it: a letter, then scheme characters,
      all lower case. */
  predicate IsScheme(s: string)
  {
    && |s| > 0 && IsAsciiLetter(s[0])
    && forall i :: 0 <= i < |s| ==> IsSchemeChar(s[i]) && !IsUpper(s[i])
  }

  /** The characters that end the network location. */
  const NetlocEnd: set<char> := {'/', '?', '#'}

  /** The scheme is what comes before the first ':' when it starts with an
      ASCII letter and holds only scheme characters; it is lower-cased. */
  function SplitScheme(u: string): (r: (string, string))
    ensures r.0 == [] ==> r.1 == u
    ensures r.0 != [] ==> IsScheme(r.0) && |r.0| < |u| && u[|r.0|] == ':' && r.1 == u[|r.0| + 1..]
  {
    var i := IndexOf(u, ':');
    if 0 < i < |u| && IsAsciiLetter(u[0]) && forall j :: 0 <= j < i ==> IsSchemeChar(u[j]) then
      var s := Lower(u[..i]);
      assert forall j :: 0 <= j < i ==> IsSchemeChar(s[j]) by {
        forall j | 0 <= j < i ensures IsSchemeChar(s[j]) {
          assert s[j] == u[j] || IsUpper(u[j]);
        }
      }
      (s, u[i + 1..])
    else ([], u)
  }

  /** After "//", the network location runs up to the first '/', '?' or '#'. */
  function SplitNetloc(rest: string): (r: (string, string))
    ensures forall c :: c in NetlocEnd ==> c !in r.0
    ensures r.1 == [] || r.1[0] in NetlocEnd || (r.0 == [] && r.1 == rest)
  {
    if |rest| >= 2 && rest[..2] == "//" then
      var s := rest[2..];
      var d := IndexOfAny(s, NetlocEnd);
      (s[..d], s[d..])
    else ([], rest)
  }

  /** s.split(c, 1), with "" as the second part when c does not occur. */
  function SplitOnce(s: string, c: char): (r: (string, string))
    ensures c !in r.0
    ensures |r.0| <= |s| && r.0 == s[..|r.0|]
  {
    var i := IndexOf(s, c);
    if i == |s| then (s, []) else (s[..i], s[i + 1..])
  }

  /** What follows the network location starts with '/', '?' or '#', so the
      path cut from it is empty or starts with '/'. */
  lemma PathAfterNetloc(afterNetloc: string)
    requires afterNetloc == [] || afterNetloc[0] in NetlocEnd
    ensures var path := SplitOnce(SplitOnce(afterNetloc, '#').0, '?').0;
            path == [] || path[0] == '/'
  {
    var beforeFragment := SplitOnce(afterNetloc, '#').0;
    var path := SplitOnce(beforeFragment, '?').0;
    if path != [] {
      assert path[0] == beforeFragment[0] == afterNetloc[0];
      assert afterNetloc[0] != '#' && afterNetloc[0] != '?';
    }
  }

  /** urlparse(u) for the URLs this application builds: scheme, "//"
      network location, path, "?" query and "#" fragment. */
  function Parse(u: string): (r: Url)
    ensures r.scheme == [] || IsScheme(r.scheme)
    ensures forall c :: c in NetlocEnd ==> c !in r.netloc
    ensures '?' !in r.path && '#' !in r.path && '#' !in r.query
    ensures r.netloc != [] ==> r.path == [] || r.path[0] == '/'
    ensures r.params == []
  {
    var (scheme, afterScheme) := SplitScheme(u);
    var (netloc, afterNetloc) := SplitNetloc(afterScheme);
    var (beforeFragment, fragment) := SplitOnce(afterNetloc, '#');
    var (path, query) := SplitOnce(beforeFragment, '?');
    assert netloc != [] ==> path == [] || path[0] == '/' by {
      if netloc != [] {
        PathAfterNetloc(afterNetloc);
      }
    }
    Url(scheme, netloc, path, [], query, fragment)
  }

  function QuerySuffix(query: string): string
  {
    if query != [] then "?" + query else []
  }

  function FragmentSuffix(fragment: string): string
  {
    if fragment != [] then "#" + fragment else []
  }

  /** urlunparse(u): the scheme and ':', then "//" and the network location
      when there is one (with a '/' put before a relative path), then the
      path with any ";params", "?query" and "#fragment". */
  function Unparse(u: Url): (r: string)
    ensures u.netloc != [] && u.scheme != [] ==> OccursAt("://", r, |u.scheme|)
    ensures u.netloc != [] && u.scheme == [] ==> OccursAt("//", r, 0)
  {
    var path := if u.params != [] then u.path + ";" + u.params else u.path;
    var rooted := if path != [] && path[0] != '/' then "/" + path else path;
    var hier := if u.netloc != [] then "//" + u.netloc + (rooted + QuerySuffix(u.query) + FragmentSuffix(u.fragment))
                else path + QuerySuffix(u.query) + FragmentSuffix(u.fragment);
    var head := if u.scheme != [] then u.scheme + ":" else [];
    assert u.netloc != [] ==> |hier| >= 2 && hier[0] == '/' && hier[1] == '/';
    assert u.netloc != [] && u.scheme != [] ==> (head + hier)[|u.scheme|..|u.scheme| + 3] == "://" by {
      if u.netloc != [] && u.scheme != [] {
        var n := |u.scheme|;
        assert (head + hier)[n] == ':' && (head + hier)[n + 1] == '/' && (head + hier)[n + 2] == '/';
      }
    }
    assert u.netloc != [] && u.scheme == [] ==> (head + hier)[..2] == "//";
    head + hier
  }

  /** The records Parse returns when it finds a network location. */
  predicate WellFormed(u: Url)
  {
    && (u.scheme == [] || IsScheme(u.scheme))
    && u.netloc != [] && (forall c :: c in NetlocEnd ==> c !in u.netloc)
    && (u.path == [] || u.path[0] == '/')
    && '?' !in u.path && '#' !in u.path
    && u.params == []
    && '#' !in u.query
  }

  lemma IndexOfAnyConcat(a: string, b: string, cs: set<char>)
    requires forall i :: 0 <= i < |a| ==> a[i] !in cs
    ensures IndexOfAny(a + b, cs) == |a| + IndexOfAny(b, cs)
  {
    if a != [] {
      assert (a + b)[1..] == a[1..] + b;
      IndexOfAnyConcat(a[1..], b, cs);
    } else {
      assert a + b == b;
    }
  }

  lemma SplitOnceAt(a: string, b: string, c: char)
    requires c !in a
    ensures SplitOnce(a + [c] + b, c) == (a, b)
  {
    IndexOfSeparator(a, c, b);
  }

  lemma SplitSchemeAt(scheme: string, rest: string)
    requires IsScheme(scheme)
    ensures SplitScheme(scheme + ":" + rest) == (scheme, rest)
  {
    var u := scheme + ":" + rest;
    assert !IsSchemeChar(':');
    IndexOfSeparator(scheme, ':', rest);
    assert forall j :: 0 <= j < |scheme| ==> u[j] == scheme[j];
    LowerIdle(scheme);
  }

  lemma SplitSchemeOfAuthority(u: string)
    requires |u| > 0 && u[0] == '/'
    ensures SplitScheme(u) == ([], u)
  {
  }

  lemma SplitNetlocAt(netloc: string, rest: string)
    requires forall c :: c in NetlocEnd ==> c !in netloc
    requires rest == [] || rest[0] in NetlocEnd
    ensures SplitNetloc("//" + netloc + rest) == (netloc, rest)
  {
    var u := "//" + netloc + rest;
    assert u[..2] == "//";
    assert u[2..] == netloc + rest;
    IndexOfAnyConcat(netloc, rest, NetlocEnd);
    assert IndexOfAny(rest, NetlocEnd) == 0;
    assert (netloc + rest)[..|netloc|] == netloc;
    assert (netloc + rest)[|netloc|..] == rest;
  }

  /** A string with no "://" is handed to urlparse as "https://" + rest: its
      scheme is "https" and its network location is rest up to the first
      '/', '?' or '#'. */
  lemma ParseHttpsPrefixed(rest: string)
    ensures Parse("https://" + rest).scheme == "https"
    ensures Parse("https://" + rest).netloc == rest[..IndexOfAny(rest, NetlocEnd)]
  {
    var https := "https";
    assert IsScheme(https) by {
      assert forall i :: 0 <= i < |https| ==> https[i] in {'h', 't', 'p', 's'};
    }
    SplitSchemeAt(https, "//" + rest);
    assert https + ":" + ("//" + rest) == "https://" + rest;
    assert ("//" + rest)[2..] == rest;
  }

  lemma SplitOnceAbsent(s: string, c: char)
    requires c !in s
    ensures SplitOnce(s, c) == (s, [])
  {
  }

  /** Splitting off a suffix that starts with c, from a string that has no c
      before it. */
  lemma SplitOnceSuffix(a: string, suffix: string, c: char)
    requires c !in a
    requires suffix == [] || suffix[0] == c
    ensures SplitOnce(a + suffix, c) == (a, if suffix == [] then [] else suffix[1..])
  {
    if suffix == [] {
      assert a + suffix == a;
      SplitOnceAbsent(a, c);
    } else {
      assert suffix == [c] + suffix[1..];
      assert a + suffix == a + [c] + suffix[1..];
      SplitOnceAt(a, suffix[1..], c);
    }
  }

  /** The part after the network location splits back into path, query and
      fragment. */
  lemma SplitFragment(path: string, query: string, fragment: string)
    requires '#' !in path && '#' !in query
    ensures SplitOnce(path + QuerySuffix(query) + FragmentSuffix(fragment), '#') == (path + QuerySuffix(query), fragment)
  {
    var q := QuerySuffix(query);
    assert '#' !in q by {
      if query != [] {
        assert q == ['?'] + query;
      }
    }
    var before := path + q;
    assert '#' !in before;
    var f := FragmentSuffix(fragment);
    SplitOnceSuffix(before, f, '#');
    if fragment != [] {
      assert f[1..] == fragment;
    }
  }

  lemma SplitQuery(path: string, query: string)
    requires '?' !in path
    ensures SplitOnce(path + QuerySuffix(query), '?') == (path, query)
  {
    var q := QuerySuffix(query);
    SplitOnceSuffix(path, q, '?');
    if query != [] {
      assert q[1..] == query;
    }
  }

  lemma UnparseWellFormed(u: Url)
    requires WellFormed(u)
    ensures Unparse(u) == (if u.scheme != [] then u.scheme + ":" else [])
                          + ("//" + u.netloc + (u.path + QuerySuffix(u.query) + FragmentSuffix(u.fragment)))
  {
    assert (if u.params != [] then u.path + ";" + u.params else u.path) == u.path;
  }

  /** Joining a well-formed record and parsing the result gives the record
      back: urlunparse and urlparse are inverse on what build_utm_url
      produces. */
  lemma ParseUnparse(u: Url)
    requires WellFormed(u)
    ensures Parse(Unparse(u)) == u
  {
    var beforeFragment := u.path + QuerySuffix(u.query);
    var afterNetloc := beforeFragment + FragmentSuffix(u.fragment);
    var afterScheme := "//" + u.netloc + afterNetloc;
    UnparseWellFormed(u);
    if u.scheme != [] {
      SplitSchemeAt(u.scheme, afterScheme);
    } else {
      assert Unparse(u) == afterScheme;
      SplitSchemeOfAuthority(afterScheme);
    }
    assert SplitScheme(Unparse(u)) == (u.scheme, afterScheme);
    SplitNetlocAt(u.netloc, afterNetloc);
    SplitFragment(u.path, u.query, u.fragment);
    SplitQuery(u.path, u.query);
  }
}
