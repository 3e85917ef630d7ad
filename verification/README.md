# WordPress export to plain-text corpus — a Dafny model

`parse_wp.py` reads a WordPress XML export. It keeps the `<item>` records
whose `wp:post_type` is `page` and writes one text block per page whose
cleaned content is not empty. Each block is a `# Seite: <title>` header,
the cleaned text and a `---` separator. The cleaning
(`clean_html_and_shortcodes`) has these steps:

- BeautifulSoup extracts the text of the HTML;
- the regular expression `\[[^\]]+\]` deletes every shortcode;
- `([A-Z])\s+([a-z])` joins an uppercase letter to a following lowercase
  letter across whitespace;
- the result is stripped.

This project models that core and proves its properties:

- `wrappers.dfy` holds `Option`.
- `chars.dfy` holds the character classes and helper notions used by the
  proofs:
  - the length of a leading whitespace run;
  - "subsequence of";
  - the non-whitespace characters of a text.
- `shortcodes.dfy` models the shortcode pass (`parse_wp.py:44`) as a
  left-to-right, non-overlapping scan. At each position the match is unique:
  it runs from `[` to the first `]`, provided something lies between them.
  The scan is proved equal to an independent definition: keep every
  character that lies inside no substring matching the pattern.
- `joining.dfy` models the letter-joining pass (`parse_wp.py:45`). The scan
  is proved equal to an independent definition: keep every character that
  does not lie inside the whitespace run between an uppercase and a
  lowercase letter.
- `trimming.dfy` models `str.strip()` (`parse_wp.py:47`).
- `cleaning.dfy` models `clean_html_and_shortcodes` (`parse_wp.py:32-47`).
  It includes the early return for `None` and for the empty string.
- `export.dfy` models the loop of `parse_wordpress_xml`
  (`parse_wp.py:51-78`):
  - a `method` with a `while` loop that accumulates the written text;
  - the method is proved equal to a specification function;
  - that function is proved to be the blocks of the kept pages in document
    order.

Whitespace is the character set of Python's `str.isspace`. This is the set
that `\s` in a `str` pattern and `str.strip()` use.

The program does less than a general description of this kind of tool might
suggest. It resolves no breadcrumbs, does not sort pages by id, applies no
language filter and writes no source-label line. Its header reads
`# Seite: ` (not `# Page: `). The model follows the program.

## Model

| member | source | states |
|---|---|---|
| Shortcodes.TokenLength | parse_wp.py:44 | A prefix of the text is a shortcode (a `[`, at least one character other than `]`, then `]`) exactly when its length is the returned match length. So the regex match at a position is unique. |
| Shortcodes.StripShortcodes | parse_wp.py:44 | Removing shortcodes never makes the text longer. |
| Shortcodes.StripDeletesExactlyShortcodes | parse_wp.py:44 | The scan's output equals an independent definition: every character of the input that lies inside no substring matching `\[[^\]]+\]` is kept, in order, and every character inside one is deleted. |
| Shortcodes.CloseIsBoundary | parse_wp.py:44 | No shortcode can straddle the position just after a `]`, because a shortcode holds no `]` before its last character. |
| Shortcodes.KeepAtMatch | parse_wp.py:44 | Where the scan removes a shortcode, every removed character lies inside a shortcode, and the scan resumes where no shortcode straddles. |
| Shortcodes.KeepAtNoMatch | parse_wp.py:44 | Where no shortcode starts at a position that none straddles, that character lies inside no shortcode and is kept. |
| Shortcodes.StripIsSubseq | parse_wp.py:44 | The pass only deletes characters; the survivors keep their order. |
| Shortcodes.StripLeavesNoShortcode | parse_wp.py:44 | No substring of the result is a shortcode. |
| Shortcodes.StripFixpoint | parse_wp.py:44 | The pass leaves a text unchanged exactly when the text holds no shortcode. |
| Shortcodes.StripIdempotent | parse_wp.py:44 | Running the shortcode pass twice gives the same text as running it once. |
| Joining.MatchEnd | parse_wp.py:45 | A reported match at the head is an uppercase letter, one or more whitespace characters, then a lowercase letter. |
| Joining.MatchEndFinds | parse_wp.py:45 | Any match of `([A-Z])\s+([a-z])` at the head is the one reported: the greedy whitespace run makes it unique. |
| Joining.JoinSplitWords | parse_wp.py:45 | The joining pass never makes the text longer. |
| Joining.JoinDeletesExactlyMatchedRuns | parse_wp.py:45 | The scan's output equals the independent definition: every character is kept except those inside the whitespace run between an uppercase and a lowercase letter. |
| Joining.JoinKeepsNonSpace | parse_wp.py:45 | Only whitespace is deleted: the non-whitespace characters of the input all appear in the output, in order. |
| Joining.JoinIsSubseq | parse_wp.py:45 | The joining pass only deletes characters and keeps the rest in order. |
| Joining.JoinLeavesNoBridge | parse_wp.py:45 | No uppercase letter, whitespace run, lowercase letter sequence survives the pass. |
| Joining.JoinFixpoint | parse_wp.py:45 | The pass leaves a text unchanged exactly when the text holds no such sequence. |
| Joining.JoinIdempotent | parse_wp.py:45 | Running the joining pass twice gives the same text as running it once. |
| Trimming.TrimStart | parse_wp.py:47 | The result is a suffix of the input, everything removed is whitespace, and the result does not start with whitespace. |
| Trimming.TrimEnd | parse_wp.py:47 | The result is a prefix of the input, everything removed is whitespace, and the result does not end with whitespace. |
| Trimming.StripWhitespace | parse_wp.py:47 | The stripped text neither starts nor ends with whitespace. |
| Trimming.StripWhitespaceBounds | parse_wp.py:47 | The stripped text is the contiguous slice left after cutting a whitespace-only head and a whitespace-only tail. |
| Trimming.StripWhitespaceExact | parse_wp.py:47 | Surround a core with whitespace-only ends, where the core neither starts nor ends with whitespace. Stripping returns exactly that core. |
| Trimming.StripWhitespaceIdempotent | parse_wp.py:47 | Stripping twice is stripping once. |
| Trimming.StripKeepsNonSpace | parse_wp.py:47 | Stripping removes whitespace only; all other characters survive in order. |
| Chars.IsSpace | parse_wp.py:45-47 | Whitespace (the set of `\s` and `str.strip`) contains no ASCII letter and neither bracket, so the passes cannot confuse one class with another. |
| Cleaning.PostProcess | parse_wp.py:44-47 | The two regex passes and the strip never lengthen the extracted text, and the result has no leading or trailing whitespace. |
| Cleaning.CleanHtml | parse_wp.py:32-47 | `None` or the empty string gives the empty string. For any input, the result has no leading or trailing whitespace and contains no shortcode. |
| Cleaning.JoinKeepsShortcodeFree | parse_wp.py:44-45 | The joining pass applied to shortcode-free text cannot create a shortcode. |
| Cleaning.PostProcessNoShortcode | parse_wp.py:44-47 | After the two regex passes and the strip, no shortcode remains. |
| Cleaning.PostProcessIdempotent | parse_wp.py:44-47 | Applying the post-extraction passes to their own output changes nothing. |
| Cleaning.PostProcessDeletesOnly | parse_wp.py:44-47 | The passes only delete characters of the extracted text; the rest keep their order. |
| Cleaning.PostProcessKeepsWords | parse_wp.py:44-47 | Once the shortcodes are removed, the joining pass and the strip remove only whitespace. |
| Export.IsPage | parse_wp.py:61-62 | An item is a page exactly when it has a `wp:post_type` element whose text is `page`; a missing element or one without text is not a page. |
| Export.TitleOf | parse_wp.py:63-64 | A missing title element gives `Unbenannte Seite`, an element without text gives `None` (as Python formats it), otherwise the element's text. |
| Export.ContentOf | parse_wp.py:68-71 | A missing `content:encoded` element gives the empty string; otherwise the element's text, which may be absent. |
| Export.BlockFields | parse_wp.py:76-78 | A written block is `# Seite: `, the title, a blank line, the cleaned text, a line break, then `\n---\n\n`, each at its computed offset. |
| Export.ParseWordPressXml | parse_wp.py:51-78 | A document that cannot be parsed writes nothing. Otherwise the loop writes exactly the specification corpus of the items, in document order. |
| Export.CorpusSnoc | parse_wp.py:60-78 | Each further item the loop visits appends exactly that item's output. |
| Export.KeptPages | parse_wp.py:60-75 | There are no more kept pages than items, and every kept page has non-empty text. |
| Export.CorpusIsBlocks | parse_wp.py:60-78 | The output is the concatenation of one `# Seite:` block per kept page, in document order. |
| Export.CorpusAppend | parse_wp.py:60-78 | The output for two runs of items is the output of the first followed by the output of the second. |
| Export.NonPageContributesNothing | parse_wp.py:61-62 | Removing an item whose post type is not `page` (absent, no text, or another value) from anywhere in the sequence leaves the output unchanged. |
| Export.EmptyPageContributesNothing | parse_wp.py:73-75 | Removing an item whose cleaned content is empty from anywhere in the sequence leaves the output unchanged. |
| Export.Emit | parse_wp.py:62-78 | An item writes something exactly when it is a page with non-empty cleaned content (the condition `Kept` names); it then writes that page's block with its title and cleaned text. |
| Export.MissingContentWritesNothing | parse_wp.py:68-75 | These pages write nothing: a page without a `content:encoded` element, and a page whose element has no text or empty text. |
| Export.TitleDefaults | parse_wp.py:63-64 | A kept page's header title depends on its title element: a missing element gives `Unbenannte Seite`, an element without text gives `None`, and otherwise it is the element's text. |
| Export.KeptPagesAreClean | parse_wp.py:73-77 | Every page written carries text that is non-empty, has no leading or trailing whitespace, and contains no shortcode. |
| Export.CorpusEmptyIff | parse_wp.py:60-78 | The output is empty exactly when no item is a page with non-empty cleaned content. |

## Left out

- Cleaning.CleanHtml:
  - BeautifulSoup's parse (`parse_wp.py:37`) is a parameter `extract: string -> string`;
  - so are the removal of comments containing `wp:` (`parse_wp.py:39-41`) and `get_text(separator=' ', strip=True)` (`parse_wp.py:43`).

  The model therefore proves nothing about HTML tags or entities. The two regex passes and the strip are modelled in full.
- Export.ParseWordPressXml:
  - the XML is given already parsed. ElementTree's `parse` and `findall('.//item')` are not modelled; items arrive in document order;
  - each item carries the outcome of its three `find` calls;
  - a parse error (`parse_wp.py:54-57`) is the input `None`;
  - the two error messages it prints are not modelled.
- Export.ParseWordPressXml: the output file is the returned string. Opening the file, its encoding and the final success message (`parse_wp.py:59`, `parse_wp.py:80`) are not modelled.
- The command-line entry point (`parse_wp.py:82-95`) is not part of this model: it checks the argument count, exits, and catches `FileNotFoundError` and other exceptions.
- Unicode beyond a fixed whitespace set is not modelled. The whitespace set is that of Python's `str.isspace`. `[A-Z]` and `[a-z]` are the ASCII ranges, as in the pattern.
