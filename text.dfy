/** The string operations the builder relies on, written over seq<char>:
    Python's str.strip(), str.lower() (ASCII letters only), str.replace()
    for a single character, and the substring test `pat in s`. */
module Text {
  import opened Seqs

  /** The characters Python's str.isspace() accepts; str.strip() with no
      argument removes exactly these from both ends. */
  predicate IsSpace(c: char)
  {
    || c == ' '
    || '\t' <= c <= '\r'
    || '\U{1C}' <= c <= '\U{1F}'
    || c == '\U{85}' || c == '\U{A0}' || c == '\U{1680}'
    || '\U{2000}' <= c <= '\U{200A}'
    || c == '\U{2028}' || c == '\U{2029}' || c == '\U{202F}'
    || c == '\U{205F}' || c == '\U{3000}'
  }

  predicate IsUpper(c: char)
  {
    'A' <= c <= 'Z'
  }

  /** Neither end of s is whitespace. */
  predicate NoOuterSpace(s: string)
  {
    s == [] || (!IsSpace(s[0]) && !IsSpace(s[|s| - 1]))
  }

  /** Every character of s is whitespace (vacuously true of ""). */
  predicate IsBlank(s: string)
  {
    forall i :: 0 <= i < |s| ==> IsSpace(s[i])
  }

  /** A non-empty string with no outer whitespace is not blank. */
  lemma StrippedNotBlank(s: string)
    requires s != [] && NoOuterSpace(s)
    ensures !IsBlank(s)
  {
    assert !IsSpace(s[0]);
  }

  /** s without its leading whitespace. */
  function TrimStart(s: string): (r: string)
    ensures |r| <= |s| && r == s[|s| - |r|..]
    ensures forall i :: 0 <= i < |s| - |r| ==> IsSpace(s[i])
    ensures r == [] || !IsSpace(r[0])
  {
    if s != [] && IsSpace(s[0]) then
      var r := TrimStart(s[1..]);
      assert forall i :: 1 <= i < |s| - |r| ==> s[i] == s[1..][i - 1];
      r
    else s
  }

  /** s without its trailing whitespace. */
  function TrimEnd(s: string): (r: string)
    ensures |r| <= |s| && r == s[..|r|]
    ensures forall i :: |r| <= i < |s| ==> IsSpace(s[i])
    ensures r == [] || !IsSpace(r[|r| - 1])
  {
    if s != [] && IsSpace(s[|s| - 1]) then
      var r := TrimEnd(s[..|s| - 1]);
      assert forall i :: |r| <= i < |s| - 1 ==> s[i] == s[..|s| - 1][i];
      r
    else s
  }

  /** Taking n characters of the suffix from a is the slice a..a+n. */
  lemma SliceOfSuffix(s: string, a: nat, n: nat)
    requires a + n <= |s|
    ensures s[a..][..n] == s[a..a + n]
  {
  }

  /** Python's s.strip(). */
  function Strip(s: string): (r: string)
    ensures |r| <= |s|
    ensures NoOuterSpace(r)
    ensures NoOuterSpace(s) ==> r == s
    ensures r == [] <==> IsBlank(s)
  {
    var t := TrimStart(s);
    var r := TrimEnd(t);
    assert NoOuterSpace(r) by {
      if r != [] {
        assert r[0] == t[0];
      }
    }
    assert NoOuterSpace(s) ==> r == s by {
      if NoOuterSpace(s) && s != [] {
        assert |s| - |t| == 0;
        assert t == s;
        assert |t| - |r| == 0;
      }
    }
    assert r == [] <==> IsBlank(s) by {
      if t == [] {
        assert IsBlank(s);
      } else {
        assert r != [] && !IsSpace(s[|s| - |t|]);
      }
    }
    r
  }

  /** What Strip removes is whitespace at both ends: the result is a slice
      of s with only whitespace before and after it. */
  lemma StripIsSlice(s: string)
    ensures exists a, b :: 0 <= a <= b <= |s| && Strip(s) == s[a..b] && IsBlank(s[..a]) && IsBlank(s[b..])
  {
    var t := TrimStart(s);
    var r := TrimEnd(t);
    var a := |s| - |t|;
    var b := a + |r|;
    assert Strip(s) == s[a..b] by {
      SliceOfSuffix(s, a, |r|);
    }
    assert IsBlank(s[..a]) by {
      assert forall i :: 0 <= i < a ==> s[..a][i] == s[i];
    }
    assert IsBlank(s[b..]) by {
      forall i | 0 <= i < |s| - b
        ensures IsSpace(s[b..][i])
      {
        assert s[b..][i] == t[|r| + i];
      }
    }
  }

  function LowerChar(c: char): char
  {
    if IsUpper(c) then (c as int + 32) as char else c
  }

  /** Python's s.lower(), restricted to the ASCII letters A-Z. */
  function Lower(s: string): (r: string)
    ensures |r| == |s|
    ensures forall i :: 0 <= i < |r| ==> !IsUpper(r[i])
    ensures forall i :: 0 <= i < |r| ==> (r[i] == s[i] <==> !IsUpper(s[i]))
    ensures forall i :: 0 <= i < |r| ==> IsSpace(r[i]) == IsSpace(s[i])
    ensures forall i :: 0 <= i < |s| && IsUpper(s[i]) ==> 'a' <= r[i] <= 'z' && r[i] as int - 'a' as int == s[i] as int - 'A' as int
  {
    seq(|s|, i requires 0 <= i < |s| => LowerChar(s[i]))
  }

  /** Lower-casing a string with no upper-case letter leaves it unchanged. */
  lemma LowerIdle(s: string)
    requires forall i :: 0 <= i < |s| ==> !IsUpper(s[i])
    ensures Lower(s) == s
  {
  }

  /** Python's s.replace(a, b) for one-character a and b. */
  function Replace(s: string, a: char, b: char): (r: string)
    ensures |r| == |s|
    ensures a != b ==> a !in r
    ensures forall i :: 0 <= i < |s| ==> (s[i] != a ==> r[i] == s[i]) && (s[i] == a ==> r[i] == b)
  {
    seq(|s|, i requires 0 <= i < |s| => if s[i] == a then b else s[i])
  }

  lemma ReplaceConcat(s: string, t: string, a: char, b: char)
    ensures Replace(s + t, a, b) == Replace(s, a, b) + Replace(t, a, b)
  {
    assert forall i :: 0 <= i < |s| + |t| ==> Replace(s + t, a, b)[i] == (Replace(s, a, b) + Replace(t, a, b))[i];
  }

  /** pat starts at index i of s. */
  predicate OccursAt(pat: string, s: string, i: nat)
  {
    i + |pat| <= |s| && s[i..i + |pat|] == pat
  }

  /** Python's `pat in s` for strings. */
  function Occurs(pat: string, s: string): (r: bool)
    ensures r <==> exists i: nat :: OccursAt(pat, s, i)
    decreases |s|
  {
    if |s| < |pat| then false
    else if s[..|pat|] == pat then
      assert OccursAt(pat, s, 0);
      true
    else
      var r := Occurs(pat, s[1..]);
      assert forall i: nat :: OccursAt(pat, s[1..], i) <==> OccursAt(pat, s, i + 1) by {
        forall i: nat ensures OccursAt(pat, s[1..], i) <==> OccursAt(pat, s, i + 1) {
          if i + |pat| <= |s| - 1 { assert s[1..][i..i + |pat|] == s[i + 1..i + 1 + |pat|]; }
        }
      }
      assert forall i: nat :: OccursAt(pat, s, i) ==> i == 0 || OccursAt(pat, s[1..], i - 1);
      r
  }

  /** A pattern whose first character s lacks does not occur in s. */
  lemma AbsentHeadNotOccurs(pat: string, s: string)
    requires pat != [] && pat[0] !in s
    ensures !Occurs(pat, s)
  {
  }

  /** Index of the first character of s that belongs to cs, or |s|. */
  function IndexOfAny(s: string, cs: set<char>): (r: nat)
    ensures r <= |s|
    ensures r < |s| ==> s[r] in cs
    ensures forall i :: 0 <= i < r ==> s[i] !in cs
  {
    if s == [] then 0
    else if s[0] in cs then 0
    else 1 + IndexOfAny(s[1..], cs)
  }
}
