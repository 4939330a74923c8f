/**
 * The formatting done by the `retrive_context` tool: each retrieved chunk
 * becomes a block naming its source URL and its content, and the blocks are
 * joined by a visible separator. The tool hands back both the formatted text
 * and the retrieved list itself.
 */
module Retrieval {
  import opened Base
  import opened TextUtil

  /** A chunk returned by the similarity search: its text and its optional `source` metadata. */
  datatype RetrievedDoc = RetrievedDoc(pageContent: string, source: Option<string>)

  /** `k` passed to `similarity_search`. */
  const TopK: nat := 3

  /** The URL printed for a chunk that has no `source` metadata. */
  const MissingSource := "No URL available"

  const SourceLabel := "SOURCE: "
  const ContentLabel := "\nCONTENT: "

  /** The separator between blocks. */
  const BlockSeparator := "\n\n---\n\n"

  /** `doc.metadata.get('source', 'No URL available')`. */
  function SourceUrl(d: RetrievedDoc): (r: string)
    ensures d.source.None? ==> r == MissingSource
    ensures d.source.Some? ==> r == d.source.value
  {
    d.source.GetOr(MissingSource)
  }

  /** One block: `SOURCE: <url>`, a newline, `CONTENT: <content>`. */
  function Snippet(d: RetrievedDoc): string {
    SourceLabel + SourceUrl(d) + ContentLabel + d.pageContent
  }

  /** The blocks of the retrieved chunks, one per chunk, in retrieval order. */
  function Snippets(docs: seq<RetrievedDoc>): (r: seq<string>)
    ensures |r| == |docs|
    ensures forall i :: 0 <= i < |docs| ==> r[i] == Snippet(docs[i])
  {
    if docs == [] then [] else [Snippet(docs[0])] + Snippets(docs[1..])
  }

  /** Index of the first `c` in `s` at or after `from`, or `|s|`. */
  function IndexOf(s: string, c: char, from: nat): (i: nat)
    requires from <= |s|
    ensures from <= i <= |s|
    ensures forall j :: from <= j < i ==> s[j] != c
    ensures i < |s| ==> s[i] == c
    decreases |s| - from
  {
    if from == |s| || s[from] == c then from else IndexOf(s, c, from + 1)
  }

  /**
   * Reads a block back: the URL runs from after `SOURCE: ` to the first
   * newline, which must open `\nCONTENT: `; the rest is the content.
   */
  function ParseSnippet(s: string): Option<(string, string)> {
    if |s| < |SourceLabel| || s[..|SourceLabel|] != SourceLabel then None
    else
      var i := IndexOf(s, '\n', |SourceLabel|);
      if |s| - i < |ContentLabel| || s[i..i + |ContentLabel|] != ContentLabel then None
      else Some((s[|SourceLabel|..i], s[i + |ContentLabel|..]))
  }

  /**
   * A block carries exactly the chunk's URL (its own `source`, or the
   * default when it has none) and its content: reading the block back gives
   * both, provided the URL holds no newline.
   */
  lemma SnippetRoundTrip(d: RetrievedDoc)
    requires '\n' !in SourceUrl(d)
    ensures ParseSnippet(Snippet(d)) == Some((SourceUrl(d), d.pageContent))
  {
    var url := SourceUrl(d);
    var s := Snippet(d);
    var n := |SourceLabel|;
    assert s[..n] == SourceLabel;
    var i := IndexOf(s, '\n', n);
    assert i == n + |url| by {
      assert forall j :: n <= j < n + |url| ==> s[j] == url[j - n];
      assert s[n + |url|] == '\n';
    }
    assert s[i..i + |ContentLabel|] == ContentLabel;
    assert s[n..i] == url;
    assert s[i + |ContentLabel|..] == d.pageContent;
  }

  /**
   * `"\n\n---\n\n".join(formatted_context)`: the blocks in retrieval order,
   * one separator between neighbours (so `n - 1` of them for `n` chunks);
   * empty exactly when nothing was retrieved.
   */
  function FormatContext(docs: seq<RetrievedDoc>): (r: string)
    ensures r == [] <==> docs == []
    ensures |docs| == 1 ==> r == Snippet(docs[0])
    ensures docs != [] ==> SourceLabel <= r
    ensures docs != [] ==>
      |r| == TotalLength(Snippets(docs)) + (|docs| - 1) * |BlockSeparator|
  {
    var blocks := Snippets(docs);
    var r := Join(blocks, BlockSeparator);
    assert docs != [] ==> SourceLabel <= r && |r| == TotalLength(blocks) + (|docs| - 1) * |BlockSeparator| by {
      if docs != [] {
        JoinLength(blocks, BlockSeparator);
        JoinEnds(blocks, BlockSeparator);
        assert blocks[0] <= r;
        assert SourceLabel <= blocks[0];
      }
    }
    r
  }

  /** The blocks of two result lists, formatted together, are their two formats joined by one separator. */
  lemma FormatContextAppend(a: seq<RetrievedDoc>, b: seq<RetrievedDoc>)
    requires a != [] && b != []
    ensures FormatContext(a + b) == FormatContext(a) + BlockSeparator + FormatContext(b)
  {
    assert Snippets(a + b) == Snippets(a) + Snippets(b);
    JoinAppend(Snippets(a), Snippets(b), BlockSeparator);
  }

  /**
   * `retrive_context`: asks the store for the `TopK` nearest chunks and
   * returns the formatted blocks together with the retrieved list itself,
   * unchanged. A store that honours `k` yields at most three blocks.
   */
  function RetrieveContext(query: string, search: (string, nat) -> seq<RetrievedDoc>)
    : (r: (string, seq<RetrievedDoc>))
    ensures r.1 == search(query, TopK)
    ensures r.0 == Join(Snippets(r.1), BlockSeparator)
    ensures r.0 == [] <==> r.1 == []
    ensures |search(query, TopK)| <= TopK ==> |Snippets(r.1)| <= 3
  {
    var docs := search(query, TopK);
    (FormatContext(docs), docs)
  }
}
