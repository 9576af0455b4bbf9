/** normalize_pair: the one string transform applied to a parameter's key
    and to its value before it is merged into the query. */
module Normalize {
  import opened Wrappers
  import opened Text

  /** Lower-case s when forceLower is set. */
  function ApplyCase(s: string, forceLower: bool): (r: string)
    ensures |r| == |s|
    ensures NoOuterSpace(s) ==> NoOuterSpace(r)
    ensures forceLower ==> forall i :: 0 <= i < |r| ==> !IsUpper(r[i])
    ensures !forceLower ==> r == s
    ensures forall i :: 0 <= i < |s| ==> r[i] == (if forceLower then LowerChar(s[i]) else s[i])
  {
    if forceLower then Lower(s) else s
  }

  /** Replace every ' ' with '_' in mode "underscore" or with '-' in mode
      "dash"; any other mode keeps the spaces. */
  function ApplySpaceMode(s: string, spaceMode: string): (r: string)
    ensures |r| == |s|
    ensures NoOuterSpace(s) ==> NoOuterSpace(r)
    ensures forall i :: 0 <= i < |r| ==> (IsUpper(r[i]) ==> IsUpper(s[i]))
    ensures spaceMode == "underscore" || spaceMode == "dash" ==> ' ' !in r
    ensures spaceMode != "underscore" && spaceMode != "dash" ==> r == s
    ensures forall i :: 0 <= i < |s| ==>
              r[i] == (if s[i] == ' ' && spaceMode == "underscore" then '_'
                       else if s[i] == ' ' && spaceMode == "dash" then '-'
                       else s[i])
  {
    if spaceMode == "underscore" then Replace(s, ' ', '_')
    else if spaceMode == "dash" then Replace(s, ' ', '-')
    else s
  }

  /** The transform of one component: strip surrounding whitespace, lower-case
      when forceLower is set, then apply the space mode. None passes through. */
  function Transform(s: Option<string>, forceLower: bool, spaceMode: string): (r: Option<string>)
    ensures r.None? <==> s.None?
    ensures r.Some? ==> NoOuterSpace(r.value)
    ensures r.Some? ==> |r.value| == |Strip(s.value)|
    ensures r.Some? ==> (r.value == [] <==> IsBlank(s.value))
    ensures r.Some? && forceLower ==> forall i :: 0 <= i < |r.value| ==> !IsUpper(r.value[i])
    ensures r.Some? && (spaceMode == "underscore" || spaceMode == "dash") ==> ' ' !in r.value
    ensures r.Some? && !forceLower && spaceMode != "underscore" && spaceMode != "dash" ==>
              r.value == Strip(s.value)
    ensures r.Some? ==> forall i :: 0 <= i < |r.value| ==>
              var c := Strip(s.value)[i];
              r.value[i] == (if c == ' ' && spaceMode == "underscore" then '_'
                             else if c == ' ' && spaceMode == "dash" then '-'
                             else if forceLower then LowerChar(c) else c)
  {
    match s
    case None => None
    case Some(x) => Some(ApplySpaceMode(ApplyCase(Strip(x), forceLower), spaceMode))
  }

  /** normalize_pair(k, v, force_lower, space_mode): the same transform on
      both components, so equal inputs give equal outputs, and None stays None. */
  function NormalizePair(k: Option<string>, v: Option<string>, forceLower: bool, spaceMode: string)
    : (r: (Option<string>, Option<string>))
    ensures r.0.None? <==> k.None?
    ensures r.1.None? <==> v.None?
    ensures k == v ==> r.0 == r.1
    ensures r.0.Some? ==> NoOuterSpace(r.0.value)
    ensures r.1.Some? ==> NoOuterSpace(r.1.value)
  {
    (Transform(k, forceLower, spaceMode), Transform(v, forceLower, spaceMode))
  }

  /** Lower-casing leaves a string with no upper-case letter unchanged. */
  lemma ApplyCaseIdle(s: string, forceLower: bool)
    requires forceLower ==> forall i :: 0 <= i < |s| ==> !IsUpper(s[i])
    ensures ApplyCase(s, forceLower) == s
  {
    if forceLower {
      LowerIdle(s);
    }
  }

  /** The space mode leaves a string with no space unchanged. */
  lemma ApplySpaceModeIdle(s: string, spaceMode: string)
    requires ' ' !in s
    ensures ApplySpaceMode(s, spaceMode) == s
  {
    assert Replace(s, ' ', '_') == s;
    assert Replace(s, ' ', '-') == s;
  }

  /** A string that is already in normal form is left as it is. */
  lemma TransformFixedPoint(s: string, forceLower: bool, spaceMode: string)
    requires NoOuterSpace(s)
    requires forall i :: 0 <= i < |s| ==> !IsUpper(s[i]) && s[i] != ' '
    ensures Transform(Some(s), forceLower, spaceMode) == Some(s)
  {
    ApplyCaseIdle(s, forceLower);
    ApplySpaceModeIdle(s, spaceMode);
  }

  /** Normalizing twice is the same as normalizing once. */
  lemma TransformIdempotent(s: Option<string>, forceLower: bool, spaceMode: string)
    ensures Transform(Transform(s, forceLower, spaceMode), forceLower, spaceMode)
         == Transform(s, forceLower, spaceMode)
  {
    if s.Some? {
      var t := Transform(s, forceLower, spaceMode).value;
      assert Strip(t) == t;
      ApplyCaseIdle(t, forceLower);
      if spaceMode == "underscore" || spaceMode == "dash" {
        ApplySpaceModeIdle(t, spaceMode);
      }
    }
  }
}
