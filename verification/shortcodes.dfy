/**
 * The shortcode pass `re.sub(r'\[[^\]]+\]', '', text)`: one left-to-right,
 * non-overlapping scan that deletes every match of the pattern.
 */
module Shortcodes {
  import opened Chars

  /** `t` is, as a whole, one match of `\[[^\]]+\]`. */
  ghost predicate IsShortcode(t: seq<char>) {
    && |t| >= 3
    && t[0] == '['
    && t[|t| - 1] == ']'
    && forall k | 0 < k < |t| - 1 :: t[k] != ']'
  }

  /** Some substring of `t` matches `\[[^\]]+\]`. */
  ghost predicate ContainsShortcode(t: seq<char>) {
    exists i, j | 0 <= i <= j <= |t| :: IsShortcode(t[i..j])
  }

  /** Index of the first `]` in `s`, or `|s|` when there is none. */
  function FirstClose(s: seq<char>): (k: nat)
    ensures k <= |s|
    ensures k < |s| ==> s[k] == ']'
    ensures forall j | 0 <= j < k :: s[j] != ']'
  {
    if s == [] then 0 else if s[0] == ']' then 0 else 1 + FirstClose(s[1..])
  }

  /**
   * Length of the match of `\[[^\]]+\]` that starts at the head of `s`, or 0
   * when the pattern does not match there. The greedy `[^\]]+` runs up to the
   * first `]`; backtracking cannot help, so the match is unique.
   */
  function TokenLength(s: seq<char>): (n: nat)
    ensures n <= |s|
    ensures forall m | 0 <= m <= |s| :: IsShortcode(s[..m]) <==> (0 < n && m == n)
  {
    if s != [] && s[0] == '[' then
      var k := FirstClose(s);
      if 1 < k < |s| then k + 1
      else
        0
    else
      0
  }

  /** The text with every shortcode removed, scanning from the left. */
  function StripShortcodes(s: seq<char>): (r: seq<char>)
    ensures |r| <= |s|
    decreases |s|
  {
    if s == [] then []
    else
      var n := TokenLength(s);
      if n > 0 then StripShortcodes(s[n..]) else [s[0]] + StripShortcodes(s[1..])
  }

  /** A character that is not `[` survives at the head. */
  lemma StripHead(s: seq<char>)
    requires s != [] && s[0] != '['
    ensures StripShortcodes(s) == [s[0]] + StripShortcodes(s[1..])
  {
    assert !IsShortcode(s[..TokenLength(s)]);
  }

  /** The pass only deletes characters and keeps the survivors in their order. */
  lemma {:induction false} StripIsSubseq(s: seq<char>)
    ensures Subseq(StripShortcodes(s), s)
    decreases |s|
  {
    if s != [] {
      var n := TokenLength(s);
      if n > 0 {
        StripIsSubseq(s[n..]);
        SubseqPrefix(StripShortcodes(s[n..]), s[..n], s[n..]);
        assert s[..n] + s[n..] == s;
      } else {
        StripIsSubseq(s[1..]);
        SubseqCons(s[0], StripShortcodes(s[1..]), s[1..]);
        assert [s[0]] + s[1..] == s;
      }
    }
  }

  /**
   * Putting one character in front of shortcode-free text creates no shortcode
   * unless that character is `[` and the text holds a `]` that does not follow
   * it immediately.
   */
  lemma ConsShortcodeFree(c: char, r: seq<char>)
    requires !ContainsShortcode(r)
    requires c == '[' ==> ']' !in r || (r != [] && r[0] == ']')
    ensures !ContainsShortcode([c] + r)
  {
    var t := [c] + r;
    forall i, j | 0 <= i <= j <= |t| ensures !IsShortcode(t[i..j]) {
      if i > 0 {
        assert t[i..j] == r[i - 1..j - 1];
      } else if c == '[' && 3 <= j && t[j - 1] == ']' {
        assert r[j - 2] == ']';
        assert t[i..j][1] == r[0] == ']';
      }
    }
  }

  /** No match of `\[[^\]]+\]` survives the pass. */
  lemma {:induction false} StripLeavesNoShortcode(s: seq<char>)
    ensures !ContainsShortcode(StripShortcodes(s))
    decreases |s|
  {
    if s == [] {
      assert !IsShortcode([]);
    } else {
      var n := TokenLength(s);
      if n > 0 {
        StripLeavesNoShortcode(s[n..]);
      } else {
        var tail := s[1..];
        StripLeavesNoShortcode(tail);
        if s[0] == '[' {
          var k := FirstClose(s);
          if k == |s| {
            if ']' in StripShortcodes(tail) {
              StripIsSubseq(tail);
              SubseqMember(StripShortcodes(tail), tail, ']');
            }
          } else {
            assert !IsShortcode(s[..k + 1]);
            assert k == 1;
            StripHead(tail);
          }
        }
        ConsShortcodeFree(s[0], StripShortcodes(tail));
      }
    }
  }

  /** Dropping the first character of shortcode-free text keeps it shortcode-free. */
  lemma TailShortcodeFree(s: seq<char>)
    requires s != [] && !ContainsShortcode(s)
    ensures !ContainsShortcode(s[1..])
  {
    forall i, j | 0 <= i <= j <= |s| - 1 ensures !IsShortcode(s[1..][i..j]) {
      assert s[1..][i..j] == s[i + 1..j + 1];
    }
  }

  /** The pass leaves text unchanged exactly when the text holds no shortcode. */
  lemma {:induction false} StripFixpoint(s: seq<char>)
    ensures StripShortcodes(s) == s <==> !ContainsShortcode(s)
    decreases |s|
  {
    StripLeavesNoShortcode(s);
    if s != [] && !ContainsShortcode(s) {
      var n := TokenLength(s);
      assert !IsShortcode(s[0..n]);
      TailShortcodeFree(s);
      StripFixpoint(s[1..]);
    }
  }

  /** Running the pass twice is the same as running it once. */
  lemma StripIdempotent(s: seq<char>)
    ensures StripShortcodes(StripShortcodes(s)) == StripShortcodes(s)
  {
    StripLeavesNoShortcode(s);
    StripFixpoint(StripShortcodes(s));
  }

  /** Every slice of shortcode-free text is shortcode-free. */
  lemma SliceShortcodeFree(s: seq<char>, lo: nat, hi: nat)
    requires lo <= hi <= |s| && !ContainsShortcode(s)
    ensures !ContainsShortcode(s[lo..hi])
  {
    var t := s[lo..hi];
    forall i, j | 0 <= i <= j <= |t| ensures !IsShortcode(t[i..j]) {
      forall m | 0 <= m < j - i ensures t[i..j][m] == s[lo + i..lo + j][m] {
        assert t[i + m] == s[lo + i + m];
      }
      assert t[i..j] == s[lo + i..lo + j];
    }
  }

  /**
   * In shortcode-free text that starts with `[`, either no `]` follows at all
   * or one follows immediately.
   */
  lemma ShortcodeFreeHead(s: seq<char>)
    requires s != [] && s[0] == '[' && !ContainsShortcode(s)
    ensures ']' !in s[1..] || (|s| > 1 && s[1] == ']')
  {
    var k := FirstClose(s);
    if k < |s| {
      assert !IsShortcode(s[0..k + 1]);
    } else {
      forall j | 0 <= j < |s| - 1 ensures s[1..][j] != ']' {
        assert s[1..][j] == s[j + 1];
      }
    }
  }

  /** Position `p` lies inside some substring of `s` that is a shortcode. */
  ghost predicate Covered(s: seq<char>, p: int) {
    exists i, j | 0 <= i <= p < j <= |s| :: IsShortcode(s[i..j])
  }

  /** No shortcode of `s` starts before position `q` and ends after it. */
  ghost predicate Boundary(s: seq<char>, q: int) {
    forall i, j | 0 <= i < q < j <= |s| :: !IsShortcode(s[i..j])
  }

  /**
   * Reference definition: the characters of `s` from position `i` on that lie
   * inside no shortcode, in their order.
   */
  ghost function KeepUncovered(s: seq<char>, i: nat): seq<char>
    requires i <= |s|
    decreases |s| - i
  {
    if i == |s| then [] else (if Covered(s, i) then [] else [s[i]]) + KeepUncovered(s, i + 1)
  }

  /** Positions that all lie inside shortcodes contribute nothing to the reference. */
  lemma {:induction false} SkipCovered(s: seq<char>, lo: nat, hi: nat)
    requires lo <= hi <= |s|
    requires forall p | lo <= p < hi :: Covered(s, p)
    ensures KeepUncovered(s, lo) == KeepUncovered(s, hi)
    decreases hi - lo
  {
    if lo < hi {
      assert KeepUncovered(s, lo) == KeepUncovered(s, lo + 1);
      SkipCovered(s, lo + 1, hi);
    }
  }

  /** A step of the scan that removes the shortcode of length `n` at `q`. */
  lemma StripStepMatch(s: seq<char>, q: nat, n: nat)
    requires q < |s| && n == TokenLength(s[q..]) && n > 0
    ensures StripShortcodes(s[q..]) == StripShortcodes(s[q + n..])
  {
    var t := s[q..];
    assert StripShortcodes(t) == StripShortcodes(t[n..]);
    assert t[n..] == s[q + n..];
  }

  /** A step of the scan that keeps the character at `q`. */
  lemma StripStepKeep(s: seq<char>, q: nat)
    requires q < |s| && TokenLength(s[q..]) == 0
    ensures StripShortcodes(s[q..]) == [s[q]] + StripShortcodes(s[q + 1..])
  {
    var t := s[q..];
    assert StripShortcodes(t) == [t[0]] + StripShortcodes(t[1..]);
    assert t[1..] == s[q + 1..];
  }

  /** No shortcode straddles the position right after a `]`. */
  lemma CloseIsBoundary(s: seq<char>, c: nat)
    requires c < |s| && s[c] == ']'
    ensures Boundary(s, c + 1)
  {
    forall i, j | 0 <= i < c + 1 < j <= |s| ensures !IsShortcode(s[i..j]) {
      if i < c {
        assert s[i..j][c - i] == ']';
      } else {
        assert s[i..j][0] == ']';
      }
    }
  }

  /**
   * Where the scan finds a shortcode, every position it removes is covered,
   * and no shortcode straddles the position where the scan resumes.
   */
  lemma KeepAtMatch(s: seq<char>, q: nat, n: nat)
    requires q < |s| && n == TokenLength(s[q..]) && n > 0
    ensures KeepUncovered(s, q) == KeepUncovered(s, q + n)
    ensures Boundary(s, q + n)
  {
    var t := s[q..];
    assert IsShortcode(t[..n]);
    assert t[..n] == s[q..q + n];
    forall p | q <= p < q + n ensures Covered(s, p) {
      assert q <= p < q + n <= |s| && IsShortcode(s[q..q + n]);
    }
    SkipCovered(s, q, q + n);
    assert s[q + n - 1] == t[..n][n - 1];
    CloseIsBoundary(s, q + n - 1);
  }

  /**
   * Where the scan finds no shortcode at a position no shortcode straddles,
   * that character is covered by none and no shortcode straddles the next
   * position.
   */
  lemma KeepAtNoMatch(s: seq<char>, q: nat)
    requires q < |s| && Boundary(s, q) && TokenLength(s[q..]) == 0
    ensures KeepUncovered(s, q) == [s[q]] + KeepUncovered(s, q + 1)
    ensures Boundary(s, q + 1)
  {
    var t := s[q..];
    forall i, j | 0 <= i <= q < j <= |s| ensures !IsShortcode(s[i..j]) {
      if i == q {
        assert !IsShortcode(t[..j - q]);
        assert t[..j - q] == s[q..j];
      }
    }
    assert !Covered(s, q);
  }

  /**
   * From any position that no shortcode straddles, the scan agrees with the
   * reference definition.
   */
  lemma {:induction false} StripFrom(s: seq<char>, q: nat)
    requires q <= |s| && Boundary(s, q)
    ensures StripShortcodes(s[q..]) == KeepUncovered(s, q)
    decreases |s| - q
  {
    if q < |s| {
      var n := StepAt(s, q);
      if n > 0 {
        StripFrom(s, q + n);
      } else {
        StripFrom(s, q + 1);
      }
    } else {
      assert s[q..] == [];
    }
  }

  /**
   * One step at a position no shortcode straddles: either a shortcode of
   * length `n` is removed by the scan and covered in the reference, or the
   * character is kept by both; either way no shortcode straddles the
   * position where both resume.
   */
  lemma StepAt(s: seq<char>, q: nat) returns (n: nat)
    requires q < |s| && Boundary(s, q)
    ensures n > 0 ==>
      && q + n <= |s| && Boundary(s, q + n)
      && StripShortcodes(s[q..]) == StripShortcodes(s[q + n..])
      && KeepUncovered(s, q) == KeepUncovered(s, q + n)
    ensures n == 0 ==>
      && Boundary(s, q + 1)
      && StripShortcodes(s[q..]) == [s[q]] + StripShortcodes(s[q + 1..])
      && KeepUncovered(s, q) == [s[q]] + KeepUncovered(s, q + 1)
  {
    n := TokenLength(s[q..]);
    if n > 0 {
      StripStepMatch(s, q, n);
      KeepAtMatch(s, q, n);
    } else {
      StripStepKeep(s, q);
      KeepAtNoMatch(s, q);
    }
  }

  /**
   * The pass deletes exactly the characters that lie inside some shortcode;
   * every other character survives, in order.
   */
  lemma StripDeletesExactlyShortcodes(s: seq<char>)
    ensures StripShortcodes(s) == KeepUncovered(s, 0)
  {
    assert s[0..] == s;
    StripFrom(s, 0);
  }
}
