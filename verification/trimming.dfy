/** Python's `str.strip()` with no argument: whitespace removed from both ends. */
module Trimming {
  import opened Chars

  /** `s` without its leading whitespace. */
  function TrimStart(s: seq<char>): (r: seq<char>)
    ensures |r| <= |s| && r == s[|s| - |r|..]
    ensures forall k | 0 <= k < |s| - |r| :: IsSpace(s[k])
    ensures r == [] || !IsSpace(r[0])
  {
    s[SpaceRun(s)..]
  }

  /** `s` without its trailing whitespace. */
  function TrimEnd(s: seq<char>): (r: seq<char>)
    ensures |r| <= |s| && r == s[..|r|]
    ensures forall k | |r| <= k < |s| :: IsSpace(s[k])
    ensures r == [] || !IsSpace(r[|r| - 1])
  {
    if s != [] && IsSpace(s[|s| - 1]) then TrimEnd(s[..|s| - 1]) else s
  }

  /** `s.strip()`. */
  function StripWhitespace(s: seq<char>): (r: seq<char>)
    ensures r == [] || (!IsSpace(r[0]) && !IsSpace(r[|r| - 1]))
  {
    TrimEnd(TrimStart(s))
  }

  /** The result is the slice of `s` left once whitespace-only ends are cut off. */
  lemma StripWhitespaceBounds(s: seq<char>) returns (i: nat, j: nat)
    ensures i <= j <= |s|
    ensures StripWhitespace(s) == s[i..j]
    ensures AllSpace(s[..i]) && AllSpace(s[j..])
  {
    var u := TrimStart(s);
    var r := TrimEnd(u);
    i := |s| - |u|;
    j := i + |r|;
    assert u == s[i..];
    assert r == s[i..j];
    forall k | 0 <= k < |s| - j ensures IsSpace(s[j..][k]) {
      assert s[j..][k] == u[|r| + k];
    }
  }

  /**
   * Whitespace-only ends around a core that neither starts nor ends with
   * whitespace are exactly what is removed.
   */
  lemma StripWhitespaceExact(pre: seq<char>, core: seq<char>, post: seq<char>)
    requires AllSpace(pre) && AllSpace(post)
    requires core == [] || (!IsSpace(core[0]) && !IsSpace(core[|core| - 1]))
    ensures StripWhitespace(pre + core + post) == core
  {
    var s := pre + core + post;
    var u := TrimStart(s);
    if core == [] {
      assert AllSpace(s);
    } else {
      assert s[|pre|] == core[0];
      assert |u| == |core| + |post|;
      assert u == core + post;
      var r := TrimEnd(u);
      assert u[|core| - 1] == core[|core| - 1];
      assert |r| == |core|;
    }
  }

  /** Stripping twice is the same as stripping once. */
  lemma StripWhitespaceIdempotent(s: seq<char>)
    ensures StripWhitespace(StripWhitespace(s)) == StripWhitespace(s)
  {
    var r := StripWhitespace(s);
    StripWhitespaceExact([], r, []);
    assert [] + r + [] == r;
  }

  /** Stripping deletes whitespace only: the other characters all survive, in order. */
  lemma StripKeepsNonSpace(s: seq<char>)
    ensures NonSpace(StripWhitespace(s)) == NonSpace(s)
  {
    var i, j := StripWhitespaceBounds(s);
    var lead, mid, trail := s[..i], s[i..j], s[j..];
    assert s == lead + mid + trail;
    NonSpaceAllSpace(lead);
    NonSpaceAllSpace(trail);
    NonSpaceAppend(lead + mid, trail);
    NonSpaceAppend(lead, mid);
  }
}
