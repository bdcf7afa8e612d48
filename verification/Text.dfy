/** Whitespace, as the runtime's own trimming sees it. */
module Text {

  predicate IsSpace(c: char) {
    || c == ' ' || '\t' <= c <= '\r'
    || c == '\U{85}' || c == '\U{A0}' || c == '\U{1680}'
    || '\U{2000}' <= c <= '\U{200A}'
    || c == '\U{2028}' || c == '\U{2029}' || c == '\U{202F}' || c == '\U{205F}' || c == '\U{3000}'
  }

  // `s` without the whitespace around it.
  function Trim(s: string): (t: string)
    ensures |t| <= |s|
    ensures t != "" ==> !IsSpace(t[0]) && !IsSpace(t[|t| - 1])
  {
    if s == "" then ""
    else if IsSpace(s[0]) then Trim(s[1..])
    else if IsSpace(s[|s| - 1]) then Trim(s[..|s| - 1])
    else s
  }

  predicate Blank(s: string) {
    Trim(s) == ""
  }

  lemma {:induction false} BlankMeansAllSpace(s: string)
    ensures Blank(s) <==> forall c :: c in s ==> IsSpace(c)
    decreases |s|
  {
    if s == "" {
    } else {
      if IsSpace(s[0]) {
        BlankMeansAllSpace(s[1..]);
        assert s == [s[0]] + s[1..];
      } else {
        assert s[0] in s;
        NonSpaceSurvives(s);
      }
    }
  }

  lemma {:induction false} NonSpaceSurvives(s: string)
    requires s != "" && !IsSpace(s[0])
    ensures Trim(s) != ""
    decreases |s|
  {
    if IsSpace(s[|s| - 1]) {
      NonSpaceSurvives(s[..|s| - 1]);
    }
  }

  predicate AllSpace(s: string) {
    forall k :: 0 <= k < |s| ==> IsSpace(s[k])
  }

  // What trimming takes away is whitespace at the two ends.
  lemma {:induction false} TrimTakesSpace(s: string) returns (i: nat, j: nat)
    ensures i <= j <= |s| && Trim(s) == s[i..j] && AllSpace(s[..i]) && AllSpace(s[j..])
    decreases |s|
  {
    if s != "" && IsSpace(s[0]) {
      i, j := TrimTakesSpace(s[1..]);
      OneMoreBefore(s, i, j);
      i, j := i + 1, j + 1;
    } else if s != "" && IsSpace(s[|s| - 1]) {
      i, j := TrimTakesSpace(s[..|s| - 1]);
      OneMoreAfter(s, i, j);
    } else {
      i, j := 0, |s|;
      assert s[0..|s|] == s;
    }
  }

  lemma OneMoreBefore(s: string, i: nat, j: nat)
    requires s != "" && IsSpace(s[0]) && i <= j < |s| && AllSpace(s[1..][..i]) && AllSpace(s[1..][j..])
    ensures AllSpace(s[..i + 1]) && AllSpace(s[j + 1..]) && s[1..][i..j] == s[i + 1..j + 1]
  {
    assert s[1..][j..] == s[j + 1..];
    assert s[..i + 1] == [s[0]] + s[1..][..i];
  }

  lemma OneMoreAfter(s: string, i: nat, j: nat)
    requires s != "" && IsSpace(s[|s| - 1]) && i <= j < |s|
    requires AllSpace(s[..|s| - 1][..i]) && AllSpace(s[..|s| - 1][j..])
    ensures AllSpace(s[..i]) && AllSpace(s[j..]) && s[..|s| - 1][i..j] == s[i..j]
  {
    assert s[..|s| - 1][..i] == s[..i];
    assert s[j..] == s[..|s| - 1][j..] + [s[|s| - 1]];
  }

  // The white space characters of Unicode.
  lemma SpacesAreUnicodes(c: char)
    ensures IsSpace(c) <==>
              c as int in {0x9, 0xA, 0xB, 0xC, 0xD, 0x20, 0x85, 0xA0, 0x1680, 0x2000, 0x2001, 0x2002, 0x2003, 0x2004,
                           0x2005, 0x2006, 0x2007, 0x2008, 0x2009, 0x200A, 0x2028, 0x2029, 0x202F, 0x205F, 0x3000}
  {
  }
}
