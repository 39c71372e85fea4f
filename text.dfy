/** Python's `str.strip()` with no argument, as `adicionar` applies it. */
module Text {

  /** The characters `str.isspace()` holds for. */
  predicate IsSpace(c: char) {
    || '\t' <= c <= '\r'
    || '\U{1C}' <= c <= ' '
    || c == '\U{85}' || c == '\U{A0}' || c == '\U{1680}'
    || '\U{2000}' <= c <= '\U{200A}'
    || c == '\U{2028}' || c == '\U{2029}' || c == '\U{202F}' || c == '\U{205F}' || c == '\U{3000}'
  }

  predicate AllSpace(s: string) {
    forall k | 0 <= k < |s| :: IsSpace(s[k])
  }

  /** No whitespace at either end. */
  predicate Trimmed(s: string) {
    s == [] || (!IsSpace(s[0]) && !IsSpace(s[|s| - 1]))
  }

  function TrimStart(s: string): (r: string)
    ensures |r| <= |s| && r == s[|s| - |r|..]
    ensures AllSpace(s[..|s| - |r|])
    ensures r == [] || !IsSpace(r[0])
  {
    if s != [] && IsSpace(s[0]) then TrimStart(s[1..]) else s
  }

  function TrimEnd(s: string): (r: string)
    ensures |r| <= |s| && r == s[..|r|]
    ensures AllSpace(s[|r|..])
    ensures r == [] || !IsSpace(r[|r| - 1])
  {
    if s != [] && IsSpace(s[|s| - 1]) then TrimEnd(s[..|s| - 1]) else s
  }

  /** `str.strip()`: drop whitespace from both ends. */
  function Strip(s: string): (r: string)
    ensures Trimmed(r) && |r| <= |s|
  {
    TrimEnd(TrimStart(s))
  }

  /** The stripped string is a slice of `s` between two all-whitespace ends. */
  lemma StripIsSlice(s: string)
    ensures var r := Strip(s);
      exists i | 0 <= i <= |s| - |r| :: r == s[i..i + |r|] && AllSpace(s[..i]) && AllSpace(s[i + |r|..])
  {
    var a := TrimStart(s);
    var r := TrimEnd(a);
    var i := |s| - |a|;
    assert a == s[i..];
    assert s[i..i + |r|] == r;
    assert s[i + |r|..] == a[|r|..];
    assert 0 <= i <= |s| - |r| && r == s[i..i + |r|] && AllSpace(s[..i]) && AllSpace(s[i + |r|..]);
  }

  lemma LeadUnique(s: string, i: nat, i': nat)
    requires i < |s| && i' < |s| && !IsSpace(s[i]) && !IsSpace(s[i'])
    requires AllSpace(s[..i]) && AllSpace(s[..i'])
    ensures i == i'
  {
  }

  lemma TrailUnique(s: string, j: nat, j': nat)
    requires 0 < j <= |s| && 0 < j' <= |s| && !IsSpace(s[j - 1]) && !IsSpace(s[j' - 1])
    requires AllSpace(s[j..]) && AllSpace(s[j'..])
    ensures j == j'
  {
  }

  lemma SpaceSplit(s: string, m: nat, k: nat)
    requires m <= |s| && k < |s| && AllSpace(s[..m]) && AllSpace(s[m..])
    ensures IsSpace(s[k])
  {
    if k < m {
      assert s[..m][k] == s[k];
    } else {
      assert s[m..][k - m] == s[k];
    }
  }

  /** The slice `Strip` keeps is the only one with whitespace ends and trimmed middle. */
  lemma StripUnique(s: string, i: nat, j: nat)
    requires i <= j <= |s|
    requires AllSpace(s[..i]) && AllSpace(s[j..]) && Trimmed(s[i..j])
    requires i == j ==> AllSpace(s)
    ensures Strip(s) == s[i..j]
  {
    var a := TrimStart(s);
    var r := TrimEnd(a);
    var i' := |s| - |a|;
    assert a == s[i'..] && r == s[i'..i' + |r|];
    assert AllSpace(s[i' + |r|..]) by {
      assert s[i' + |r|..] == a[|r|..];
    }
    if i != j {
      assert s[i] == s[i..j][0] && s[j - 1] == s[i..j][j - i - 1];
      if r == [] {
        SpaceSplit(s, i', i);
      } else {
        assert s[i'] == r[0] && s[i' + |r| - 1] == r[|r| - 1];
        LeadUnique(s, i, i');
        TrailUnique(s, j, i' + |r|);
      }
    }
  }

  /** A string without whitespace at its ends is left as it is. */
  lemma StripTrimmed(s: string)
    requires Trimmed(s)
    ensures Strip(s) == s
  {
    assert s[0..|s|] == s;
    StripUnique(s, 0, |s|);
  }

  /** Stripping twice is stripping once. */
  lemma StripIdempotent(s: string)
    ensures Strip(Strip(s)) == Strip(s)
  {
    StripTrimmed(Strip(s));
  }
}
