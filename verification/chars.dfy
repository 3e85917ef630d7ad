/**
 * Character classes and sequence relations shared by the text passes of
 * `clean_html_and_shortcodes`.
 */
module Chars {

  /** Python's `str.isspace()`, which is also the `\s` class of a `str` regular expression. */
  predicate IsSpace(c: char)
    ensures IsSpace(c) ==> !IsUpper(c) && !IsLower(c) && c != '[' && c != ']'
  {
    var n := c as int;
    (9 <= n <= 13) || (28 <= n <= 32) || n == 0x85 || n == 0xA0 || n == 0x1680
    || (0x2000 <= n <= 0x200A) || n == 0x2028 || n == 0x2029 || n == 0x202F
    || n == 0x205F || n == 0x3000
  }

  /** The regular-expression class `[A-Z]`. */
  predicate IsUpper(c: char) { 'A' <= c <= 'Z' }

  /** The regular-expression class `[a-z]`. */
  predicate IsLower(c: char) { 'a' <= c <= 'z' }

  ghost predicate AllSpace(s: seq<char>) {
    forall k | 0 <= k < |s| :: IsSpace(s[k])
  }

  /** Length of the whitespace run at the head of `s`. */
  function SpaceRun(s: seq<char>): (n: nat)
    ensures n <= |s|
    ensures forall k | 0 <= k < n :: IsSpace(s[k])
    ensures n < |s| ==> !IsSpace(s[n])
  {
    if s != [] && IsSpace(s[0]) then 1 + SpaceRun(s[1..]) else 0
  }

  /** A whitespace run followed by a non-space character has exactly that length. */
  lemma SpaceRunExact(s: seq<char>, m: nat)
    requires m < |s| && !IsSpace(s[m])
    requires forall k | 0 <= k < m :: IsSpace(s[k])
    ensures SpaceRun(s) == m
  {
  }

  /** A whitespace character in front lengthens the leading run by one. */
  lemma SpaceRunCons(c: char, s: seq<char>)
    requires IsSpace(c)
    ensures SpaceRun([c] + s) == 1 + SpaceRun(s)
  {
    assert ([c] + s)[1..] == s;
  }

  /** `sub` is `s` with some characters deleted and the rest kept in their order. */
  predicate Subseq(sub: seq<char>, s: seq<char>)
    decreases |s|
  {
    if sub == [] then true
    else if s == [] then false
    else (sub[0] == s[0] && Subseq(sub[1..], s[1..])) || Subseq(sub, s[1..])
  }

  /** Deleting nothing at the front and then some characters keeps a subsequence. */
  lemma {:induction false} SubseqCons(c: char, sub: seq<char>, s: seq<char>)
    requires Subseq(sub, s)
    ensures Subseq([c] + sub, [c] + s)
  {
    assert ([c] + sub)[1..] == sub;
    assert ([c] + s)[1..] == s;
  }

  /** Prefixing the longer sequence keeps a subsequence a subsequence. */
  lemma {:induction false} SubseqPrefix(sub: seq<char>, pre: seq<char>, s: seq<char>)
    requires Subseq(sub, s)
    ensures Subseq(sub, pre + s)
    decreases |pre|
  {
    if pre != [] {
      SubseqPrefix(sub, pre[1..], s);
      assert (pre + s)[1..] == pre[1..] + s;
      assert sub == [] || Subseq(sub, (pre + s)[1..]);
    } else {
      assert pre + s == s;
    }
  }

  lemma {:induction false} SubseqRefl(s: seq<char>)
    ensures Subseq(s, s)
    decreases |s|
  {
    if s != [] {
      SubseqRefl(s[1..]);
    }
  }

  /** A subsequence of a subsequence is a subsequence. */
  lemma {:induction false} SubseqTrans(a: seq<char>, b: seq<char>, c: seq<char>)
    requires Subseq(a, b) && Subseq(b, c)
    ensures Subseq(a, c)
    decreases |c|
  {
    if a != [] {
      assert b != [] && c != [];
      if b[0] == c[0] && Subseq(b[1..], c[1..]) {
        if a[0] == b[0] && Subseq(a[1..], b[1..]) {
          SubseqTrans(a[1..], b[1..], c[1..]);
        } else {
          SubseqTrans(a, b[1..], c[1..]);
        }
      } else {
        SubseqTrans(a, b, c[1..]);
      }
    }
  }

  /** Every character of a subsequence occurs in the sequence it came from. */
  lemma {:induction false} SubseqMember(sub: seq<char>, s: seq<char>, c: char)
    requires Subseq(sub, s) && c in sub
    ensures c in s
    decreases |s|
  {
    if sub[0] == s[0] && Subseq(sub[1..], s[1..]) {
      if c != sub[0] {
        SubseqMember(sub[1..], s[1..], c);
      }
    } else {
      SubseqMember(sub, s[1..], c);
    }
  }

  /** A contiguous slice is a subsequence. */
  lemma SliceSubseq(s: seq<char>, i: nat, j: nat)
    requires i <= j <= |s|
    ensures Subseq(s[i..j], s)
  {
    SubseqRefl(s[i..j]);
    SubseqPrefix(s[i..j], s[..i], s[i..j]);
    SubseqSuffix(s[i..j], s[..i] + s[i..j], s[j..]);
    assert s[..i] + s[i..j] + s[j..] == s;
  }

  /** Appending to the longer sequence keeps a subsequence a subsequence. */
  lemma {:induction false} SubseqSuffix(sub: seq<char>, s: seq<char>, post: seq<char>)
    requires Subseq(sub, s)
    ensures Subseq(sub, s + post)
    decreases |s|
  {
    if sub != [] {
      assert (s + post)[1..] == s[1..] + post;
      if sub[0] == s[0] && Subseq(sub[1..], s[1..]) {
        SubseqSuffix(sub[1..], s[1..], post);
      } else {
        SubseqSuffix(sub, s[1..], post);
      }
    }
  }

  /** The characters of `s` that are not whitespace, in their order. */
  function NonSpace(s: seq<char>): (r: seq<char>)
    ensures |r| <= |s|
    ensures forall k | 0 <= k < |r| :: !IsSpace(r[k])
  {
    if s == [] then []
    else (if IsSpace(s[0]) then [] else [s[0]]) + NonSpace(s[1..])
  }

  lemma {:induction false} NonSpaceAppend(a: seq<char>, b: seq<char>)
    ensures NonSpace(a + b) == NonSpace(a) + NonSpace(b)
    decreases |a|
  {
    if a != [] {
      assert (a + b)[1..] == a[1..] + b;
      NonSpaceAppend(a[1..], b);
    } else {
      assert a + b == b;
    }
  }

  lemma {:induction false} NonSpaceAllSpace(s: seq<char>)
    requires AllSpace(s)
    ensures NonSpace(s) == []
    decreases |s|
  {
    if s != [] {
      NonSpaceAllSpace(s[1..]);
    }
  }

  /** A leading whitespace run contributes nothing to the non-space characters. */
  lemma {:induction false} NonSpaceSkipSpaces(s: seq<char>, m: nat)
    requires m <= |s|
    requires forall k | 0 <= k < m :: IsSpace(s[k])
    ensures NonSpace(s) == NonSpace(s[m..])
    decreases m
  {
    if m > 0 {
      NonSpaceSkipSpaces(s[1..], m - 1);
      assert s[1..][m - 1..] == s[m..];
    }
  }
}
