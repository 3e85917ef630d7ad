/**
 * The pass `re.sub(r'([A-Z])\s+([a-z])', r'\1\2', text)`: one left-to-right,
 * non-overlapping scan that deletes the whitespace run of every match and
 * keeps its two letters.
 */
module Joining {
  import opened Chars

  /** `t[a..b+1]` matches `([A-Z])\s+([a-z])`. */
  ghost predicate Bridge(t: seq<char>, a: int, b: int) {
    && 0 <= a && a + 1 < b < |t|
    && IsUpper(t[a]) && IsLower(t[b])
    && forall k | a < k < b :: IsSpace(t[k])
  }

  /** Position `p` lies inside the whitespace run of some match. */
  ghost predicate Bridged(t: seq<char>, p: int) {
    exists a, b | 0 <= a < p < b < |t| :: Bridge(t, a, b)
  }

  /** No substring of `t` matches `([A-Z])\s+([a-z])`. */
  ghost predicate NoBridge(t: seq<char>) {
    forall a, b | 0 <= a < b < |t| :: !Bridge(t, a, b)
  }

  /**
   * Reference definition: the characters of `s` from position `i` on that do
   * not lie inside the whitespace run of a match, in their order.
   */
  ghost function KeepUnbridged(s: seq<char>, i: nat): seq<char>
    requires i <= |s|
    decreases |s| - i
  {
    if i == |s| then [] else (if Bridged(s, i) then [] else [s[i]]) + KeepUnbridged(s, i + 1)
  }

  /**
   * Index of the lowercase letter of the match of `([A-Z])\s+([a-z])` that
   * starts at the head of `s`, or 0 when the pattern does not match there.
   * The greedy `\s+` takes the whole run; backtracking cannot help, so the
   * match is unique.
   */
  function MatchEnd(s: seq<char>): (e: nat)
    ensures e == 0 || Bridge(s, 0, e)
  {
    if s == [] || !IsUpper(s[0]) then 0
    else
      var w := SpaceRun(s[1..]);
      if 0 < w && 1 + w < |s| && IsLower(s[1 + w]) then 1 + w else 0
  }

  /** Whenever a match starts at the head, `MatchEnd` finds it. */
  lemma MatchEndFinds(s: seq<char>, b: int)
    requires Bridge(s, 0, b)
    ensures MatchEnd(s) == b
  {
    forall k | 0 <= k < b - 1 ensures IsSpace(s[1..][k]) {
      assert s[1..][k] == s[k + 1];
    }
    SpaceRunExact(s[1..], b - 1);
  }

  /** The text with the whitespace of every `([A-Z])\s+([a-z])` match removed, scanning from the left. */
  function JoinSplitWords(s: seq<char>): (r: seq<char>)
    ensures |r| <= |s|
    decreases |s|
  {
    if s == [] then []
    else
      var e := MatchEnd(s);
      if e > 0 then [s[0], s[e]] + JoinSplitWords(s[e + 1..])
      else [s[0]] + JoinSplitWords(s[1..])
  }

  /** Positions that all lie inside matches contribute nothing to the reference. */
  lemma {:induction false} SkipBridged(s: seq<char>, lo: nat, hi: nat)
    requires lo <= hi <= |s|
    requires forall p | lo <= p < hi :: Bridged(s, p)
    ensures KeepUnbridged(s, lo) == KeepUnbridged(s, hi)
    decreases hi - lo
  {
    if lo < hi {
      SkipBridged(s, lo + 1, hi);
    }
  }

  /** A match of a suffix of `s` is a match of `s`, shifted. */
  lemma BridgeInSuffix(s: seq<char>, i: nat, a: int, b: int)
    requires i <= |s| && 0 <= a
    ensures Bridge(s[i..], a, b) <==> Bridge(s, a + i, b + i)
  {
    if Bridge(s, a + i, b + i) {
      forall k | a < k < b ensures IsSpace(s[i..][k]) {
        assert s[i..][k] == s[k + i];
      }
    }
  }

  /**
   * From any position that no match straddles, the scan agrees with the
   * reference definition.
   */
  lemma {:induction false} JoinFrom(s: seq<char>, i: nat)
    requires i <= |s|
    requires i < |s| ==> !Bridged(s, i)
    ensures JoinSplitWords(s[i..]) == KeepUnbridged(s, i)
    decreases |s| - i
  {
    if i < |s| {
      KeepStep(s, i);
      var j := Resume(s, i);
      calc {
        JoinSplitWords(s[i..]);
      == { JoinStep(s, i); }
        Emitted(s, i) + JoinSplitWords(s[j..]);
      == { JoinFrom(s, j); }
        Emitted(s, i) + KeepUnbridged(s, j);
      }
    }
  }

  /** Where the scan resumes after visiting position `i`. */
  ghost function Resume(s: seq<char>, i: nat): (j: nat)
    requires i < |s|
    ensures i < j <= |s|
  {
    var e := MatchEnd(s[i..]);
    if e > 0 then i + e + 1 else i + 1
  }

  /** What the scan emits when it visits position `i`. */
  ghost function Emitted(s: seq<char>, i: nat): seq<char>
    requires i < |s|
  {
    var e := MatchEnd(s[i..]);
    if e > 0 then [s[i], s[i + e]] else [s[i]]
  }

  /** One step of the scan, in terms of `s`. */
  lemma JoinStep(s: seq<char>, i: nat)
    requires i < |s|
    ensures JoinSplitWords(s[i..]) == Emitted(s, i) + JoinSplitWords(s[Resume(s, i)..])
  {
    var t := s[i..];
    var e := MatchEnd(t);
    if e > 0 {
      assert JoinSplitWords(t) == [t[0], t[e]] + JoinSplitWords(t[e + 1..]);
      assert t[e + 1..] == s[i + e + 1..];
    } else {
      assert JoinSplitWords(t) == [t[0]] + JoinSplitWords(t[1..]);
      assert t[1..] == s[i + 1..];
    }
  }

  /** The reference definition makes the same step as the scan. */
  lemma KeepStep(s: seq<char>, i: nat)
    requires i < |s| && !Bridged(s, i)
    ensures KeepUnbridged(s, i) == Emitted(s, i) + KeepUnbridged(s, Resume(s, i))
    ensures Resume(s, i) < |s| ==> !Bridged(s, Resume(s, i))
  {
    var t := s[i..];
    var e := MatchEnd(t);
    if e > 0 {
      assert Emitted(s, i) == [s[i], s[i + e]] && Resume(s, i) == i + e + 1;
      BridgeInSuffix(s, i, 0, e);
      KeepAcrossMatch(s, i, i + e);
    } else {
      assert Emitted(s, i) == [s[i]] && Resume(s, i) == i + 1;
      NoMatchAt(s, i);
      KeepWithoutMatch(s, i);
    }
  }

  /** Where `MatchEnd` finds nothing, no match starts. */
  lemma NoMatchAt(s: seq<char>, i: nat)
    requires i < |s| && MatchEnd(s[i..]) == 0
    ensures forall b | 0 <= b < |s| :: !Bridge(s, i, b)
  {
    var t := s[i..];
    forall b | 0 <= b < |s| ensures !Bridge(s, i, b) {
      if b >= i {
        BridgeInSuffix(s, i, 0, b - i);
        if Bridge(t, 0, b - i) {
          MatchEndFinds(t, b - i);
        }
      }
    }
  }

  /** Across a match the reference keeps the two letters and skips the run. */
  lemma KeepAcrossMatch(s: seq<char>, i: nat, j: nat)
    requires Bridge(s, i, j) && !Bridged(s, i)
    ensures KeepUnbridged(s, i) == [s[i], s[j]] + KeepUnbridged(s, j + 1)
    ensures j + 1 < |s| ==> !Bridged(s, j + 1)
  {
    assert KeepUnbridged(s, i) == [s[i]] + KeepUnbridged(s, i + 1);
    forall p | i + 1 <= p < j ensures Bridged(s, p) {
      assert i < p < j && Bridge(s, i, j);
    }
    SkipBridged(s, i + 1, j);
    NonSpaceNotBridged(s, j);
    assert KeepUnbridged(s, j) == [s[j]] + KeepUnbridged(s, j + 1);
    if j + 1 < |s| {
      LetterNotBridgedAfter(s, j);
    }
  }

  /** No match straddles a character that is not whitespace. */
  lemma NonSpaceNotBridged(s: seq<char>, p: nat)
    requires p < |s| && !IsSpace(s[p])
    ensures !Bridged(s, p)
  {
    forall a, b | 0 <= a < p < b < |s| ensures !Bridge(s, a, b) {
      assert a < p < b;
    }
  }

  /** No match straddles the position after a character that can neither start nor continue a run. */
  lemma LetterNotBridgedAfter(s: seq<char>, p: nat)
    requires p + 1 < |s| && !IsSpace(s[p]) && !IsUpper(s[p])
    ensures !Bridged(s, p + 1)
  {
    forall a, b | 0 <= a < p + 1 < b < |s| ensures !Bridge(s, a, b) {
      if a < p {
        assert a < p < b;
      }
    }
  }

  /** Where no match starts, the reference keeps the character and no match straddles the next position. */
  lemma KeepWithoutMatch(s: seq<char>, i: nat)
    requires i < |s| && !Bridged(s, i)
    requires forall b | 0 <= b < |s| :: !Bridge(s, i, b)
    ensures KeepUnbridged(s, i) == [s[i]] + KeepUnbridged(s, i + 1)
    ensures i + 1 < |s| ==> !Bridged(s, i + 1)
  {
    forall a, b | 0 <= a < i + 1 < b < |s| ensures !Bridge(s, a, b) {
      if a < i {
        assert !(a < i < b && Bridge(s, a, b));
      }
    }
  }

  /** The scan deletes exactly the whitespace runs that lie between an uppercase and a lowercase letter. */
  lemma JoinDeletesExactlyMatchedRuns(s: seq<char>)
    ensures JoinSplitWords(s) == KeepUnbridged(s, 0)
  {
    JoinFrom(s, 0);
  }

  /** Only whitespace is deleted: the non-space characters survive, all of them, in order. */
  lemma {:induction false} JoinKeepsNonSpace(s: seq<char>)
    ensures NonSpace(JoinSplitWords(s)) == NonSpace(s)
    decreases |s|
  {
    if s != [] {
      var e := MatchEnd(s);
      if e > 0 {
        var rest := s[e + 1..];
        JoinKeepsNonSpace(rest);
        NonSpaceAppend([s[0], s[e]], JoinSplitWords(rest));
        NonSpaceSkipSpaces(s[1..], e - 1);
        assert s[1..][e - 1..] == s[e..];
        assert s[e..][1..] == rest;
      } else {
        JoinKeepsNonSpace(s[1..]);
        NonSpaceAppend([s[0]], JoinSplitWords(s[1..]));
      }
    }
  }

  /** The pass only deletes characters and keeps the survivors in their order. */
  lemma {:induction false} JoinIsSubseq(s: seq<char>)
    ensures Subseq(JoinSplitWords(s), s)
    decreases |s|
  {
    if s != [] {
      var e := MatchEnd(s);
      if e > 0 {
        var rest := s[e + 1..];
        assert JoinSplitWords(s) == [s[0], s[e]] + JoinSplitWords(rest);
        JoinIsSubseq(rest);
        SubseqKeepPair(s, e, JoinSplitWords(rest));
      } else {
        assert JoinSplitWords(s) == [s[0]] + JoinSplitWords(s[1..]);
        JoinIsSubseq(s[1..]);
        SubseqCons(s[0], JoinSplitWords(s[1..]), s[1..]);
        assert [s[0]] + s[1..] == s;
      }
    }
  }

  /** Keeping `s[0]` and `s[e]` and dropping what lies between keeps a subsequence. */
  lemma SubseqKeepPair(s: seq<char>, e: nat, y: seq<char>)
    requires 0 < e < |s| && Subseq(y, s[e + 1..])
    ensures Subseq([s[0], s[e]] + y, s)
  {
    var rest := s[e + 1..];
    SubseqCons(s[e], y, rest);
    assert [s[e]] + rest == s[e..];
    SubseqPrefix([s[e]] + y, s[1..e], s[e..]);
    assert s[1..e] + s[e..] == s[1..];
    SubseqCons(s[0], [s[e]] + y, s[1..]);
    assert [s[0]] + s[1..] == s;
    assert [s[0], s[e]] + y == [s[0]] + ([s[e]] + y);
  }

  /** The output starts with the same whitespace run as the input, followed by the same character. */
  lemma {:induction false} JoinLeadingRun(s: seq<char>)
    ensures SpaceRun(JoinSplitWords(s)) == SpaceRun(s)
    ensures SpaceRun(s) < |s| ==> SpaceRun(s) < |JoinSplitWords(s)|
    ensures JoinSplitWords(s)[..SpaceRun(s)] == s[..SpaceRun(s)]
    ensures SpaceRun(s) < |s| ==> JoinSplitWords(s)[SpaceRun(s)] == s[SpaceRun(s)]
    decreases |s|
  {
    if s != [] && IsSpace(s[0]) {
      var tail := s[1..];
      var y := JoinSplitWords(tail);
      var n := SpaceRun(tail);
      JoinLeadingRun(tail);
      JoinSpaceHead(s);
      SpaceRunCons(s[0], y);
      SpaceRunCons(s[0], tail);
      assert s == [s[0]] + tail;
      assert ([s[0]] + y)[..n + 1] == [s[0]] + y[..n];
      assert ([s[0]] + tail)[..n + 1] == [s[0]] + tail[..n];
    } else if s != [] {
      assert JoinSplitWords(s)[0] == s[0];
    }
  }

  /** A leading whitespace character is copied and the scan moves on. */
  lemma JoinSpaceHead(s: seq<char>)
    requires s != [] && IsSpace(s[0])
    ensures JoinSplitWords(s) == [s[0]] + JoinSplitWords(s[1..])
  {
    assert !IsUpper(s[0]);
    assert MatchEnd(s) == 0;
  }

  /** A match at the head of `[c] + JoinSplitWords(t)` was already a match at the head of `[c] + t`. */
  lemma HeadBridgeComesFromInput(c: char, t: seq<char>, b: int)
    requires Bridge([c] + JoinSplitWords(t), 0, b)
    ensures Bridge([c] + t, 0, b)
  {
    var y := JoinSplitWords(t);
    forall k | 0 <= k < b - 1 ensures IsSpace(y[k]) {
      assert y[k] == ([c] + y)[k + 1];
    }
    assert y[b - 1] == ([c] + y)[b];
    SpaceRunExact(y, b - 1);
    JoinLeadingRun(t);
    forall k | 0 < k < b ensures IsSpace(([c] + t)[k]) {
      assert y[..b - 1][k - 1] == t[..b - 1][k - 1];
    }
  }

  /** No match of `([A-Z])\s+([a-z])` survives the pass. */
  lemma {:induction false} JoinLeavesNoBridge(s: seq<char>)
    ensures NoBridge(JoinSplitWords(s))
    decreases |s|
  {
    if s != [] {
      var e := MatchEnd(s);
      if e > 0 {
        var rest := s[e + 1..];
        JoinLeavesNoBridge(rest);
        assert JoinSplitWords(s) == [s[0], s[e]] + JoinSplitWords(rest);
        PairNoBridge(s[0], s[e], JoinSplitWords(rest));
      } else {
        var tail := s[1..];
        var y := JoinSplitWords(tail);
        JoinLeavesNoBridge(tail);
        assert JoinSplitWords(s) == [s[0]] + y;
        assert [s[0]] + tail == s;
        forall b | 0 <= b < |[s[0]] + y| ensures !Bridge([s[0]] + y, 0, b) {
          if Bridge([s[0]] + y, 0, b) {
            HeadBridgeComesFromInput(s[0], tail, b);
            MatchEndFinds(s, b);
          }
        }
        ConsNoBridge(s[0], y);
      }
    }
  }

  /** Two letters, the second lowercase, in front of text without matches start no match. */
  lemma PairNoBridge(c: char, d: char, y: seq<char>)
    requires IsLower(d) && NoBridge(y)
    ensures NoBridge([c, d] + y)
  {
    var t := [c, d] + y;
    assert !IsSpace(t[1]) && !IsUpper(t[1]);
    forall a, b | 0 <= a < b < |t| ensures !Bridge(t, a, b) {
      if a >= 2 {
        BridgeInSuffix(t, 2, a - 2, b - 2);
        assert t[2..] == y;
      }
    }
  }

  /** A character in front of text without matches starts none unless it heads one. */
  lemma ConsNoBridge(c: char, y: seq<char>)
    requires NoBridge(y)
    requires forall b | 0 <= b < |[c] + y| :: !Bridge([c] + y, 0, b)
    ensures NoBridge([c] + y)
  {
    var t := [c] + y;
    forall a, b | 0 <= a < b < |t| ensures !Bridge(t, a, b) {
      if a > 0 {
        BridgeInSuffix(t, 1, a - 1, b - 1);
        assert t[1..] == y;
      }
    }
  }

  /** The pass leaves text unchanged exactly when the text holds no match. */
  lemma {:induction false} JoinFixpoint(s: seq<char>)
    ensures JoinSplitWords(s) == s <==> NoBridge(s)
    decreases |s|
  {
    JoinLeavesNoBridge(s);
    if s != [] && NoBridge(s) {
      assert !Bridge(s, 0, MatchEnd(s));
      forall a, b | 0 <= a < b < |s| - 1 ensures !Bridge(s[1..], a, b) {
        BridgeInSuffix(s, 1, a, b);
      }
      JoinFixpoint(s[1..]);
    }
  }

  /** Running the pass twice is the same as running it once. */
  lemma JoinIdempotent(s: seq<char>)
    ensures JoinSplitWords(JoinSplitWords(s)) == JoinSplitWords(s)
  {
    JoinLeavesNoBridge(s);
    JoinFixpoint(JoinSplitWords(s));
  }

  /** A slice of text without matches has no matches. */
  lemma SliceNoBridge(s: seq<char>, lo: nat, hi: nat)
    requires lo <= hi <= |s| && NoBridge(s)
    ensures NoBridge(s[lo..hi])
  {
    var t := s[lo..hi];
    forall a, b | 0 <= a < b < |t| ensures !Bridge(t, a, b) {
      if Bridge(t, a, b) {
        forall k | a + lo < k < b + lo ensures IsSpace(s[k]) {
          assert s[k] == t[k - lo];
        }
        assert Bridge(s, a + lo, b + lo);
      }
    }
  }

  /** The first character always survives the pass. */
  lemma JoinHead(s: seq<char>)
    requires s != []
    ensures JoinSplitWords(s) != [] && JoinSplitWords(s)[0] == s[0]
  {
  }
}
