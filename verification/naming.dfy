/** The slug and level normalisations the controllers and pages apply to a
    domain and a skill level before they use them as keys. */
module Naming {

  import opened Text

  predicate NoSpace(s: string) {
    forall i :: 0 <= i < |s| ==> !IsSpace(s[i])
  }

  predicate NoUpper(s: string) {
    forall i :: 0 <= i < |s| ==> !('A' <= s[i] <= 'Z')
  }

  predicate OnlyLetters(s: string) {
    forall i :: 0 <= i < |s| ==> 'a' <= s[i] <= 'z'
  }

  /** `s.replace(/\s+/g, "-")`: every maximal run of white space becomes one hyphen. */
  function HyphenateSpaces(s: string): (r: string)
    ensures NoSpace(r)
    ensures NoUpper(s) ==> NoUpper(r)
    ensures NoSpace(s) ==> r == s
    decreases |s|
  {
    if s == [] then []
    else if IsSpace(s[0]) then
      var rest := TrimLeft(s);
      TrimLeftIsSuffix(s);
      assert forall i :: 0 <= i < |rest| ==> rest[i] == s[|s| - |rest| + i];
      "-" + HyphenateSpaces(rest)
    else [s[0]] + HyphenateSpaces(s[1..])
  }

  lemma LowerHasNoUpper(s: string)
    ensures NoUpper(Lower(s))
  {
  }

  lemma {:induction false} LowerKeepsNoUpper(s: string)
    requires NoUpper(s)
    ensures Lower(s) == s
  {
    assert forall i :: 0 <= i < |s| ==> Lower(s)[i] == s[i];
  }

  lemma TrimKeepsNoUpper(s: string)
    requires NoUpper(s)
    ensures NoUpper(Trim(s))
  {
    var l := TrimLeft(s);
    TrimLeftIsSuffix(s);
    TrimRightIsPrefix(l);
    assert forall i :: 0 <= i < |l| ==> l[i] == s[|s| - |l| + i];
  }

  /** `toSlug` of the roadmap controller and of the learning-path page:
      lower case, trimmed, white-space runs replaced by hyphens. */
  function Slug(s: string): (r: string)
    ensures NoSpace(r) && NoUpper(r)
  {
    LowerHasNoUpper(s);
    TrimKeepsNoUpper(Lower(s));
    HyphenateSpaces(Trim(Lower(s)))
  }

  /** `toSlug` of the course controller and `slug` of the learning-path
      controller: as `Slug` but without trimming. */
  function SlugNoTrim(s: string): (r: string)
    ensures NoSpace(r) && NoUpper(r)
  {
    LowerHasNoUpper(s);
    HyphenateSpaces(Lower(s))
  }

  /** `toLevel`: lower case with every character outside a-z dropped. */
  function Level(s: string): (r: string)
    ensures OnlyLetters(r)
    ensures |r| <= |s|
    decreases |s|
  {
    if s == [] then []
    else
      var c := LowerChar(s[0]);
      if 'a' <= c <= 'z' then [c] + Level(s[1..]) else Level(s[1..])
  }

  /** A slug is a fixed point of both slug functions: the course controller
      and the learning-path controller find the domain the roadmap stored. */
  lemma {:induction false} SlugIsStable(s: string)
    ensures Slug(Slug(s)) == Slug(s)
    ensures SlugNoTrim(Slug(s)) == Slug(s)
  {
    var t := Slug(s);
    LowerKeepsNoUpper(t);
    assert Trim(t) == t by {
      assert t == [] || !IsSpace(t[0]);
      assert TrimLeft(t) == t;
      assert t == [] || !IsSpace(t[|t| - 1]);
    }
  }

  /** A level is a fixed point of `Level` and of lower-casing. */
  lemma {:induction false} LevelIsStable(s: string)
    ensures Level(Level(s)) == Level(s)
    ensures Lower(Level(s)) == Level(s)
  {
    LevelIdentity(Level(s));
    LowerKeepsNoUpper(Level(s));
  }

  lemma {:induction false} LevelIdentity(s: string)
    requires OnlyLetters(s)
    ensures Level(s) == s
    decreases |s|
  {
    if s != [] {
      LevelIdentity(s[1..]);
    }
  }
}
