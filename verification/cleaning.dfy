/**
 * `clean_html_and_shortcodes`: the empty-input guard, the text extraction
 * (a parameter here), the shortcode pass, the letter-joining pass and the
 * final strip.
 */
module Cleaning {
  import opened Wrappers
  import opened Chars
  import opened Shortcodes
  import opened Joining
  import opened Trimming

  /** The passes applied to the extracted text, in source order. */
  function PostProcess(text: string): (r: string)
    ensures |r| <= |text|
    ensures r == [] || (!IsSpace(r[0]) && !IsSpace(r[|r| - 1]))
  {
    StripWhitespace(JoinSplitWords(StripShortcodes(text)))
  }

  /**
   * `clean_html_and_shortcodes(html)`. `None` and the empty string return ""
   * at once; any other input goes through `extract`, which stands for the
   * HTML parse, the removal of editor comments and `get_text`.
   */
  function CleanHtml(html: Option<string>, extract: string -> string): (r: string)
    ensures (html == None || html == Some("")) ==> r == ""
    ensures r == [] || (!IsSpace(r[0]) && !IsSpace(r[|r| - 1]))
    ensures !ContainsShortcode(r)
  {
    if html.None? || html.value == "" then
      assert !IsShortcode([]);
      ""
    else
      PostProcessNoShortcode(extract(html.value));
      PostProcess(extract(html.value))
  }

  /** The letter-joining pass cannot create a shortcode. */
  lemma {:induction false} JoinKeepsShortcodeFree(s: seq<char>)
    requires !ContainsShortcode(s)
    ensures !ContainsShortcode(JoinSplitWords(s))
    decreases |s|
  {
    if s == [] {
      assert !IsShortcode([]);
    } else {
      var e := MatchEnd(s);
      if e > 0 {
        var rest := s[e + 1..];
        SliceShortcodeFree(s, e + 1, |s|);
        assert s[e + 1..|s|] == rest;
        JoinKeepsShortcodeFree(rest);
        ConsShortcodeFree(s[e], JoinSplitWords(rest));
        ConsShortcodeFree(s[0], [s[e]] + JoinSplitWords(rest));
        assert [s[0], s[e]] + JoinSplitWords(rest) == [s[0]] + ([s[e]] + JoinSplitWords(rest));
      } else {
        var tail := s[1..];
        SliceShortcodeFree(s, 1, |s|);
        assert s[1..|s|] == tail;
        JoinKeepsShortcodeFree(tail);
        if s[0] == '[' {
          ShortcodeFreeHead(s);
          if ']' in tail {
            JoinHead(tail);
          } else if ']' in JoinSplitWords(tail) {
            JoinIsSubseq(tail);
            SubseqMember(JoinSplitWords(tail), tail, ']');
          }
        }
        ConsShortcodeFree(s[0], JoinSplitWords(tail));
      }
    }
  }

  /** The cleaned text holds no shortcode. */
  lemma PostProcessNoShortcode(text: string)
    ensures !ContainsShortcode(PostProcess(text))
  {
    var z := JoinSplitWords(StripShortcodes(text));
    StripLeavesNoShortcode(text);
    JoinKeepsShortcodeFree(StripShortcodes(text));
    var i, j := StripWhitespaceBounds(z);
    SliceShortcodeFree(z, i, j);
  }

  /** Cleaning already-cleaned text changes nothing. */
  lemma PostProcessIdempotent(text: string)
    ensures PostProcess(PostProcess(text)) == PostProcess(text)
  {
    var z := JoinSplitWords(StripShortcodes(text));
    var p := PostProcess(text);
    PostProcessNoShortcode(text);
    StripFixpoint(p);
    JoinLeavesNoBridge(StripShortcodes(text));
    var i, j := StripWhitespaceBounds(z);
    SliceNoBridge(z, i, j);
    JoinFixpoint(p);
    StripWhitespaceIdempotent(z);
  }

  /** Cleaning only deletes characters and keeps the rest in their order. */
  lemma PostProcessDeletesOnly(text: string)
    ensures Subseq(PostProcess(text), text)
  {
    var x := StripShortcodes(text);
    var z := JoinSplitWords(x);
    StripIsSubseq(text);
    JoinIsSubseq(x);
    var i, j := StripWhitespaceBounds(z);
    SliceSubseq(z, i, j);
    SubseqTrans(z[i..j], z, x);
    SubseqTrans(z[i..j], x, text);
  }

  /** Once the shortcodes are gone, the later passes only delete whitespace. */
  lemma PostProcessKeepsWords(text: string)
    ensures NonSpace(PostProcess(text)) == NonSpace(StripShortcodes(text))
  {
    var x := StripShortcodes(text);
    JoinKeepsNonSpace(x);
    StripKeepsNonSpace(JoinSplitWords(x));
  }
}
