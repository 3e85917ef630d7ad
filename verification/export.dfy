/**
 * `parse_wordpress_xml`: walks the `<item>` elements of a parsed export in
 * document order and writes one block per page whose cleaned content is not
 * empty. The XML tree is given as a sequence of items, each holding the
 * three child elements the loop looks up.
 *
 * The functions below take the cleaner as a parameter `clean`; the loop uses
 * `Cleaner(extract)`, which is `clean_html_and_shortcodes`.
 */
module Export {
  import opened Wrappers
  import opened Chars
  import opened Shortcodes
  import opened Cleaning

  /** A child element looked up with `item.find`: absent, or present with `.text`. */
  datatype Element = Missing | Present(text: Option<string>)

  /** An `<item>`: its `wp:post_type`, `title` and `content:encoded` children. */
  datatype Item = Item(postType: Element, title: Element, content: Element)

  /** A page that made it into the output: its title and cleaned text. */
  datatype Page = Page(title: string, text: string)

  const PageType: string := "page"
  const DefaultTitle: string := "Unbenannte Seite"
  const HeaderStart: string := "# Seite: "
  const Separator: string := "\n---\n\n"

  /** `post_type_element is not None and post_type_element.text == 'page'`. */
  predicate IsPage(item: Item)
    ensures IsPage(item) <==> item.postType.Present? && item.postType.text == Some(PageType)
  {
    item.postType == Present(Some(PageType))
  }

  /** The title as the f-string renders it: a `None` text prints as "None". */
  function TitleOf(item: Item): (t: string)
    ensures item.title.Missing? ==> t == DefaultTitle
    ensures item.title == Present(None) ==> t == "None"
    ensures item.title.Present? && item.title.text.Some? ==> t == item.title.text.value
  {
    match item.title
    case Missing => DefaultTitle
    case Present(None) => "None"
    case Present(Some(t)) => t
  }

  /** The value handed to the cleaner: "" when the element is absent. */
  function ContentOf(item: Item): (c: Option<string>)
    ensures item.content.Missing? ==> c == Some("")
    ensures item.content.Present? ==> c == item.content.text
  {
    match item.content
    case Missing => Some("")
    case Present(t) => t
  }

  /** `clean_html_and_shortcodes` with the text extraction fixed. */
  function Cleaner(extract: string -> string): Option<string> -> string {
    html => CleanHtml(html, extract)
  }

  function CleanOf(item: Item, clean: Option<string> -> string): string {
    clean(ContentOf(item))
  }

  /** The three writes made for one kept page. */
  function Block(title: string, text: string): string {
    HeaderStart + title + "\n\n" + text + "\n" + Separator
  }

  /**
   * The layout of a block: the header line with the title and a blank line,
   * the text and a line break, then the separator.
   */
  lemma BlockFields(title: string, text: string)
    ensures var b := Block(title, text);
      && |b| == |HeaderStart| + |title| + 2 + |text| + 1 + |Separator|
      && b[..|HeaderStart|] == HeaderStart
      && b[|HeaderStart|..|HeaderStart| + |title|] == title
      && b[|HeaderStart| + |title|..|HeaderStart| + |title| + 2] == "\n\n"
      && b[|HeaderStart| + |title| + 2..|b| - 1 - |Separator|] == text
      && b[|b| - 1 - |Separator|..] == "\n" + Separator
  {
  }

  /** Whether the loop writes anything for `item`. */
  predicate Kept(item: Item, clean: Option<string> -> string) {
    IsPage(item) && CleanOf(item, clean) != ""
  }

  /**
   * What the loop writes for one item: something exactly when the item is a
   * page with non-empty cleaned content, and then that page's block.
   */
  function Emit(item: Item, clean: Option<string> -> string): (w: string)
    ensures w != "" <==> IsPage(item) && CleanOf(item, clean) != ""
    ensures w != "" ==> w == Block(TitleOf(item), CleanOf(item, clean))
  {
    if Kept(item, clean) then Block(TitleOf(item), CleanOf(item, clean)) else ""
  }

  /** What a writer that writes `emit(item)` per item has written after `items`. */
  function Concat(items: seq<Item>, emit: Item -> string): string
    decreases |items|
  {
    if items == [] then ""
    else Concat(items[..|items| - 1], emit) + emit(items[|items| - 1])
  }

  /** `Emit` with the cleaner fixed. */
  function Emitter(clean: Option<string> -> string): Item -> string {
    item => Emit(item, clean)
  }

  /** The file contents after the loop has seen `items`. */
  function Corpus(items: seq<Item>, clean: Option<string> -> string): string {
    Concat(items, Emitter(clean))
  }

  /** The pages the output holds, in document order. */
  function KeptPages(items: seq<Item>, clean: Option<string> -> string): (pages: seq<Page>)
    ensures |pages| <= |items|
    ensures forall k | 0 <= k < |pages| :: pages[k].text != ""
    decreases |items|
  {
    if items == [] then []
    else
      var head := items[0];
      (if Kept(head, clean) then [Page(TitleOf(head), CleanOf(head, clean))] else [])
      + KeptPages(items[1..], clean)
  }

  /** The blocks of `pages`, one after another. */
  function Blocks(pages: seq<Page>): string
    decreases |pages|
  {
    if pages == [] then "" else Block(pages[0].title, pages[0].text) + Blocks(pages[1..])
  }

  /**
   * `parse_wordpress_xml`. `None` stands for a document ElementTree cannot
   * parse: the function returns before the output file is opened. Otherwise
   * the result is the whole contents written to the output file.
   */
  method ParseWordPressXml(doc: Option<seq<Item>>, extract: string -> string)
    returns (written: Option<string>)
    ensures doc.None? ==> written.None?
    ensures doc.Some? ==> written == Some(Corpus(doc.value, Cleaner(extract)))
  {
    if doc.None? {
      return None;
    }
    var items := doc.value;
    var out := "";
    var i := 0;
    while i < |items|
      invariant 0 <= i <= |items|
      invariant out == Corpus(items[..i], Cleaner(extract))
    {
      var item := items[i];
      ghost var before := out;
      if IsPage(item) {
        var title := TitleOf(item);
        var content := ContentOf(item);
        var clean := CleanHtml(content, extract);
        assert clean == CleanOf(item, Cleaner(extract));
        if clean != "" {
          out := out + HeaderStart + title + "\n\n";
          out := out + clean + "\n";
          out := out + Separator;
          WritesMakeBlock(before, title, clean);
        }
      }
      CorpusSnoc(items, i, Cleaner(extract));
      i := i + 1;
    }
    assert items[..i] == items;
    return Some(out);
  }

  /** The three writes for a kept page append exactly its block. */
  lemma WritesMakeBlock(before: string, title: string, text: string)
    ensures before + HeaderStart + title + "\n\n" + text + "\n" + Separator
      == before + Block(title, text)
  {
  }

  /** One more item seen by the loop appends its output. */
  lemma CorpusSnoc(items: seq<Item>, i: nat, clean: Option<string> -> string)
    requires i < |items|
    ensures Corpus(items[..i + 1], clean) == Corpus(items[..i], clean) + Emit(items[i], clean)
  {
    assert items[..i + 1][..i] == items[..i];
  }

  /** Writing two runs of items one after the other writes both outputs in turn. */
  lemma {:induction false} ConcatAppend(xs: seq<Item>, ys: seq<Item>, emit: Item -> string)
    ensures Concat(xs + ys, emit) == Concat(xs, emit) + Concat(ys, emit)
    decreases |ys|
  {
    if ys == [] {
      assert xs + ys == xs;
    } else {
      var zs := xs + ys;
      assert zs[..|zs| - 1] == xs + ys[..|ys| - 1];
      ConcatAppend(xs, ys[..|ys| - 1], emit);
    }
  }

  /** The first item's output comes first. */
  lemma ConcatCons(items: seq<Item>, emit: Item -> string)
    requires items != []
    ensures Concat(items, emit) == emit(items[0]) + Concat(items[1..], emit)
  {
    assert items == [items[0]] + items[1..];
    ConcatAppend([items[0]], items[1..], emit);
    assert [items[0]][..0] == [];
  }

  /** An item whose output is empty can be dropped, wherever it stands. */
  lemma ConcatSkip(items: seq<Item>, k: nat, emit: Item -> string)
    requires k < |items| && emit(items[k]) == ""
    ensures Concat(items, emit) == Concat(items[..k] + items[k + 1..], emit)
  {
    var pre, rest := items[..k], items[k + 1..];
    var left := pre + [items[k]];
    assert items == left + rest;
    assert left[..|left| - 1] == pre;
    assert Concat(left, emit) == Concat(pre, emit);
    ConcatAppend(left, rest, emit);
    ConcatAppend(pre, rest, emit);
  }

  /** The output for two runs of items is the output of the first, then of the second. */
  lemma CorpusAppend(xs: seq<Item>, ys: seq<Item>, clean: Option<string> -> string)
    ensures Corpus(xs + ys, clean) == Corpus(xs, clean) + Corpus(ys, clean)
  {
    ConcatAppend(xs, ys, Emitter(clean));
  }

  /** The output is the blocks of the kept pages, in document order. */
  lemma {:induction false} CorpusIsBlocks(items: seq<Item>, clean: Option<string> -> string)
    ensures Corpus(items, clean) == Blocks(KeptPages(items, clean))
    decreases |items|
  {
    if items != [] {
      var head := items[0];
      ConcatCons(items, Emitter(clean));
      assert Corpus(items, clean) == Emit(head, clean) + Corpus(items[1..], clean);
      CorpusIsBlocks(items[1..], clean);
      if Kept(head, clean) {
        var p := Page(TitleOf(head), CleanOf(head, clean));
        assert KeptPages(items, clean) == [p] + KeptPages(items[1..], clean);
        assert Blocks([p] + KeptPages(items[1..], clean))
          == Block(p.title, p.text) + Blocks(KeptPages(items[1..], clean));
      } else {
        assert KeptPages(items, clean) == KeptPages(items[1..], clean);
      }
    }
  }

  /** An item whose post type is not "page" writes nothing, wherever it stands. */
  lemma NonPageContributesNothing(items: seq<Item>, k: nat, clean: Option<string> -> string)
    requires k < |items| && !IsPage(items[k])
    ensures Corpus(items, clean) == Corpus(items[..k] + items[k + 1..], clean)
  {
    assert Emitter(clean)(items[k]) == "";
    ConcatSkip(items, k, Emitter(clean));
  }

  /** A page whose cleaned content is empty writes nothing, wherever it stands. */
  lemma EmptyPageContributesNothing(items: seq<Item>, k: nat, clean: Option<string> -> string)
    requires k < |items| && CleanOf(items[k], clean) == ""
    ensures Corpus(items, clean) == Corpus(items[..k] + items[k + 1..], clean)
  {
    assert Emitter(clean)(items[k]) == "";
    ConcatSkip(items, k, Emitter(clean));
  }

  /**
   * A page without a content element, or whose content element has no text
   * or empty text, writes nothing.
   */
  lemma MissingContentWritesNothing(item: Item, extract: string -> string)
    requires item.content.Missing? || item.content == Present(None)
      || item.content == Present(Some(""))
    ensures Emit(item, Cleaner(extract)) == ""
  {
  }

  /** The title written for a kept page, for each shape of the title element. */
  lemma TitleDefaults(item: Item, clean: Option<string> -> string)
    requires Kept(item, clean)
    ensures item.title.Missing? ==> Emit(item, clean) == Block(DefaultTitle, CleanOf(item, clean))
    ensures item.title == Present(None) ==> Emit(item, clean) == Block("None", CleanOf(item, clean))
    ensures item.title.Present? && item.title.text.Some?
      ==> Emit(item, clean) == Block(item.title.text.value, CleanOf(item, clean))
  {
  }

  /** Text as the cleaner leaves it: not empty, trimmed, free of shortcodes. */
  ghost predicate IsCleanText(t: string) {
    t != [] && !IsSpace(t[0]) && !IsSpace(t[|t| - 1]) && !ContainsShortcode(t)
  }

  /** Every page in the output carries cleaned text. */
  lemma {:induction false} KeptPagesAreClean(items: seq<Item>, extract: string -> string)
    ensures forall k | 0 <= k < |KeptPages(items, Cleaner(extract))| ::
      IsCleanText(KeptPages(items, Cleaner(extract))[k].text)
    decreases |items|
  {
    if items != [] {
      var clean := Cleaner(extract);
      var head := items[0];
      KeptPagesAreClean(items[1..], extract);
      if Kept(head, clean) {
        var text := CleanHtml(ContentOf(head), extract);
        assert CleanOf(head, clean) == text;
        assert IsCleanText(text);
        assert KeptPages(items, clean) == [Page(TitleOf(head), text)] + KeptPages(items[1..], clean);
      } else {
        assert KeptPages(items, clean) == KeptPages(items[1..], clean);
      }
    }
  }

  /** The output is empty exactly when no item is kept. */
  lemma {:induction false} CorpusEmptyIff(items: seq<Item>, clean: Option<string> -> string)
    ensures Corpus(items, clean) == "" <==> forall k | 0 <= k < |items| :: !Kept(items[k], clean)
    decreases |items|
  {
    if items != [] {
      var init := items[..|items| - 1];
      var last := items[|items| - 1];
      assert items[..|items| - 1] == init;
      assert Corpus(items, clean) == Corpus(init, clean) + Emit(last, clean);
      CorpusEmptyIff(init, clean);
      assert forall k | 0 <= k < |init| :: init[k] == items[k];
      if Kept(last, clean) {
        assert Emit(last, clean) != "";
      }
    }
  }
}
