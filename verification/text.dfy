/** Python's substring test `sub in s` on strings. */
module Text {

  /** `sub` occurs in `s` starting at position `i`. */
  ghost predicate OccursAt(sub: string, s: string, i: int)
  {
    0 <= i && i + |sub| <= |s| && s[i..i + |sub|] == sub
  }

  /** The reference meaning of `sub in s`: some position of `s` starts a copy of `sub`. */
  ghost predicate IsSubstring(sub: string, s: string)
  {
    exists i :: OccursAt(sub, s, i)
  }

  /** Left-to-right scan computing `sub in s`: true exactly when some
      position of `s` starts a copy of `sub` (so the empty string occurs everywhere). */
  function Contains(s: string, sub: string): (r: bool)
    ensures r <==> IsSubstring(sub, s)
    decreases |s|
  {
    if |s| < |sub| then false
    else if s[..|sub|] == sub then
      assert OccursAt(sub, s, 0);
      true
    else
      SubstringOfTail(s, sub);
      Contains(s[1..], sub)
  }

  /** When `s` does not start with `sub`, `sub` occurs in `s` exactly when it
      occurs in the tail of `s`. */
  lemma SubstringOfTail(s: string, sub: string)
    requires |sub| <= |s| && s[..|sub|] != sub
    ensures IsSubstring(sub, s) <==> IsSubstring(sub, s[1..])
  {
    if IsSubstring(sub, s[1..]) {
      var i :| OccursAt(sub, s[1..], i);
      TailSlice(s, i, |sub|);
      assert OccursAt(sub, s, i + 1);
    }
    if IsSubstring(sub, s) {
      var i :| OccursAt(sub, s, i);
      assert i != 0;
      TailSlice(s, i - 1, |sub|);
      assert OccursAt(sub, s[1..], i - 1);
    }
  }

  /** A slice of the tail is the slice of the whole string one position later. */
  lemma TailSlice(s: string, i: nat, n: nat)
    requires 1 + i + n <= |s|
    ensures s[1..][i..i + n] == s[i + 1..i + 1 + n]
  {
  }

  /** The marker that makes a header column an application-version column. */
  const AppMarker: string := "app"

  /** A column is an application column when its name contains "app" (case-sensitive). */
  predicate IsAppColumn(name: string)
  {
    Contains(name, AppMarker)
  }

  /** Reference reading of the column test: "app" occurs somewhere in the name. */
  lemma IsAppColumnMeaning(name: string)
    ensures IsAppColumn(name) <==> exists i :: OccursAt(AppMarker, name, i)
  {
  }

  /** A name with "app" at position `i` is an application column. */
  lemma AppAt(name: string, i: nat)
    requires i + |AppMarker| <= |name| && name[i..i + |AppMarker|] == AppMarker
    ensures IsAppColumn(name)
  {
    IsAppColumnMeaning(name);
    assert OccursAt(AppMarker, name, i);
  }

  /** A string lacking some character of `sub` cannot contain `sub`. */
  lemma MissingCharNotContained(s: string, sub: string, j: nat)
    requires j < |sub|
    requires forall i :: 0 <= i < |s| ==> s[i] != sub[j]
    ensures !Contains(s, sub)
  {
  }
}
