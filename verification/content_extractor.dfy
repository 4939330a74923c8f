/**
 * `extract_spring_boot_content`: the text of the documentation page's main
 * article with its navigation and breadcrumbs removed, one stripped text
 * node per line.
 */
module ContentExtractor {
  import opened Base
  import opened TextUtil
  import opened HtmlTree

  /** `article` with class `doc`: the page's content container. */
  const ArticleSelector := Selector("article", Some("doc"))

  /** Every `nav` element, whatever its classes. */
  const NavSelector := Selector("nav", None)

  /** `div` with class `breadcrumbs-container`. */
  const BreadcrumbsSelector := Selector("div", Some("breadcrumbs-container"))

  /** The separator `get_text` is called with. */
  const LineSeparator: char := '\n'

  /**
   * bs4's `get_text(strip=True)` piece list: each text stripped, those that
   * are blank after stripping dropped.
   */
  function StrippedStrings(texts: seq<string>): (r: seq<string>)
    ensures |r| <= |texts|
    ensures forall i :: 0 <= i < |r| ==> r[i] != [] && IsStripped(r[i])
  {
    if texts == [] then []
    else
      var s := Strip(texts[0]);
      (if s == [] then [] else [s]) + StrippedStrings(texts[1..])
  }

  /** Stripping a concatenation of text lists is stripping each list. */
  lemma {:induction false} StrippedStringsAppend(a: seq<string>, b: seq<string>)
    ensures StrippedStrings(a + b) == StrippedStrings(a) + StrippedStrings(b)
  {
    if a != [] {
      assert (a + b)[0] == a[0];
      assert (a + b)[1..] == a[1..] + b;
      StrippedStringsAppend(a[1..], b);
    } else {
      assert a + b == b;
    }
  }

  /** No piece survives exactly when every text is blank. */
  lemma {:induction false} StrippedStringsEmpty(texts: seq<string>)
    ensures StrippedStrings(texts) == [] <==> forall i :: 0 <= i < |texts| ==> AllSpace(texts[i])
  {
    if texts != [] {
      var rest := texts[1..];
      StrippedStringsEmpty(rest);
      if forall i :: 0 <= i < |texts| ==> AllSpace(texts[i]) {
        forall i | 0 <= i < |rest| ensures AllSpace(rest[i]) {
          assert rest[i] == texts[i + 1];
        }
      } else {
        var i :| 0 <= i < |texts| && !AllSpace(texts[i]);
        if i > 0 {
          assert rest[i - 1] == texts[i];
        }
      }
    }
  }

  /**
   * `get_text(separator='\n', strip=True)`: the stripped, non-blank texts in
   * document order, joined by single newlines. The result has no whitespace
   * at either end and is empty exactly when every text is blank.
   */
  function GetText(f: seq<Node>): (r: string)
    ensures IsStripped(r)
    ensures r == [] <==> forall i :: 0 <= i < |Texts(f)| ==> AllSpace(Texts(f)[i])
  {
    var pieces := StrippedStrings(Texts(f));
    StrippedStringsEmpty(Texts(f));
    var r := Join(pieces, [LineSeparator]);
    assert r != [] ==> !IsSpace(r[0]) && !IsSpace(r[|r| - 1]) by {
      if pieces != [] {
        var first, last := pieces[0], pieces[|pieces| - 1];
        JoinEnds(pieces, [LineSeparator]);
        assert first <= r && r[|r| - |last|..] == last;
        assert r[0] == first[0];
        assert r[|r| - 1] == last[|last| - 1];
      }
    }
    r
  }

  /** A lone text node comes out stripped: blank text gives `""`. */
  lemma GetTextOfText(t: string)
    ensures GetText([Text(t)]) == Strip(t)
  {
    assert Descendants([Text(t)]) == [Text(t)] by {
      assert [Text(t)][1..] == [];
    }
    assert TextsOf([Text(t)]) == [t] by {
      assert [Text(t)][1..] == [];
    }
    assert StrippedStrings([t]) == (if Strip(t) == [] then [] else [Strip(t)]);
  }

  /** An element contributes the text of its children, in order; its tag and classes add nothing. */
  lemma GetTextOfElement(tag: string, classes: seq<string>, cs: seq<Node>)
    ensures GetText([Element(tag, classes, cs)]) == GetText(cs)
  {
    var x := Element(tag, classes, cs);
    TextsCons(x, []);
    assert [x] + [] == [x];
    assert Texts(cs) + Texts([]) == Texts(cs);
  }

  /** A forest without text vanishes in front of another: no stray newline appears. */
  lemma GetTextBlankFirst(a: seq<Node>, b: seq<Node>)
    requires GetText(a) == []
    ensures GetText(a + b) == GetText(b)
  {
    TextsAppend(a, b);
    StrippedStringsAppend(Texts(a), Texts(b));
    StrippedStringsEmpty(Texts(a));
    assert StrippedStrings(Texts(a)) == [];
    assert [] + StrippedStrings(Texts(b)) == StrippedStrings(Texts(b));
  }

  /** A forest without text vanishes after another. */
  lemma GetTextBlankSecond(a: seq<Node>, b: seq<Node>)
    requires GetText(b) == []
    ensures GetText(a + b) == GetText(a)
  {
    TextsAppend(a, b);
    StrippedStringsAppend(Texts(a), Texts(b));
    StrippedStringsEmpty(Texts(b));
    assert StrippedStrings(Texts(b)) == [];
    assert StrippedStrings(Texts(a)) + [] == StrippedStrings(Texts(a));
  }

  /**
   * The text of two adjacent forests is their texts joined by one newline
   * when both have some text. Together with `GetTextOfText`,
   * `GetTextOfElement`, the two blank cases and `GetText([]) == ""`, this
   * determines the output of every forest: split off the first node, and
   * descend into an element's children.
   */
  lemma GetTextAppend(a: seq<Node>, b: seq<Node>)
    requires GetText(a) != [] && GetText(b) != []
    ensures GetText(a + b) == GetText(a) + [LineSeparator] + GetText(b)
  {
    TextsAppend(a, b);
    StrippedStringsAppend(Texts(a), Texts(b));
    var pa, pb := StrippedStrings(Texts(a)), StrippedStrings(Texts(b));
    assert pa != [] && pb != [];
    JoinAppend(pa, pb, [LineSeparator]);
  }

  /**
   * The article's children after every `nav` subtree and then the first
   * remaining breadcrumbs container have been decomposed.
   */
  function CleanArticle(article: Node): seq<Node>
    requires article.Element?
  {
    RemoveFirst(RemoveAll(article.children, NavSelector), BreadcrumbsSelector)
  }

  /** The lines the extractor emits: the stripped strings of the cleaned first article. */
  function ExtractedLines(doc: seq<Node>): seq<string> {
    match Find(doc, ArticleSelector)
    case None => []
    case Some(article) => StrippedStrings(Texts(CleanArticle(article)))
  }

  /**
   * `extract_spring_boot_content` on an already-parsed document: the cleaned
   * text of the first `article.doc`, or the empty string when there is none.
   */
  function Extract(doc: seq<Node>): (r: string)
    ensures Find(doc, ArticleSelector).None? ==> r == []
    ensures IsStripped(r)
    ensures r == [] <==> ExtractedLines(doc) == []
  {
    match Find(doc, ArticleSelector)
    case None => []
    case Some(article) =>
      StrippedStringsEmpty(Texts(CleanArticle(article)));
      GetText(CleanArticle(article))
  }

  /** The output lines are exactly the extracted lines whenever no line carries a newline of its own. */
  lemma ExtractSplitsIntoLines(doc: seq<Node>)
    requires ExtractedLines(doc) != []
    requires forall i :: 0 <= i < |ExtractedLines(doc)| ==> LineSeparator !in ExtractedLines(doc)[i]
    ensures Split(Extract(doc), LineSeparator) == ExtractedLines(doc)
  {
    SplitJoin(ExtractedLines(doc), LineSeparator);
  }

  /**
   * Only the first `article.doc` contributes: whatever precedes, surrounds or
   * follows it in the document, the result is that of the article alone.
   */
  lemma FirstArticleOnly(doc: seq<Node>, rest: seq<Node>)
    requires Find(doc, ArticleSelector).Some?
    ensures Extract(doc + rest) == Extract([Find(doc, ArticleSelector).value])
  {
    FindAppend(doc, rest, ArticleSelector);
    var a := Find(doc, ArticleSelector).value;
    assert Find([a], ArticleSelector) == Some(a);
  }

  /**
   * The texts that reach the output: mark every text of the article with
   * whether it lies inside a `nav` at any depth; the surviving texts are the
   * unmarked ones, in order, except that the texts of the first breadcrumbs
   * container left after nav removal are cut out at position `k`. With no
   * such container, all unmarked texts survive.
   */
  lemma SurvivingTexts(article: Node) returns (k: nat)
    requires article.Element?
    ensures var kept := Unmarked(MarkedTexts(article.children, NavSelector, false));
            var s := Texts(CleanArticle(article));
            match Find(RemoveAll(article.children, NavSelector), BreadcrumbsSelector)
            case None => s == kept
            case Some(b) => k <= |s| && kept == s[..k] + Texts([b]) + s[k..]
  {
    var noNav := RemoveAll(article.children, NavSelector);
    RemoveAllKeepsUnmarkedTexts(article.children, NavSelector);
    if Find(noNav, BreadcrumbsSelector).None? {
      RemoveFirstWithoutMatch(noNav, BreadcrumbsSelector);
      k := 0;
    } else {
      k := RemoveFirstSplicesOutMatch(noNav, BreadcrumbsSelector);
    }
  }
}
