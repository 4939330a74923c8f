# Spring Boot documentation agent: the deterministic core

The repository builds a question-answering agent over the Spring Boot
documentation. A loader crawls the documentation pages and extracts each
page's article text. It chunks the text and stores the chunks in a vector
store in batches. A reader agent then answers questions in a terminal loop,
with a retrieval tool that formats the nearest chunks together with their
source URLs.

Most of that is library glue: crawling, HTML parsing, chunking, embeddings,
the vector database and the language model. This project models the four
pieces of the repository's own logic and proves properties of them:

- **`extract_spring_boot_content`** (`ContentExtractor`, on top of `HtmlTree`
  and `TextUtil`). The page is an already-parsed forest of element and text
  nodes. The extractor does four things:
  - it finds the first `article` with class `doc`;
  - it decomposes every `nav` inside it;
  - it decomposes the first remaining `div.breadcrumbs-container`;
  - it returns `get_text(separator='\n', strip=True)`, or `""` when there is
    no such article.
- **The batched storage loop** of `split_and_store_documents` (`BatchStore`).
  The splits are cut into consecutive slices of 5000 and handed to the store
  one slice at a time, and the returned ids are concatenated. The store is an
  abstract function from a batch to either a list of ids or an error.
- **The `retrive_context` tool** (`Retrieval`). Each retrieved chunk becomes
  `SOURCE: <url>\nCONTENT: <content>`, with `No URL available` for a chunk
  that has no `source` metadata. The blocks are joined by `\n\n---\n\n`, and
  the retrieved list is returned alongside. The similarity search is an
  abstract function of the query and `k`.
- **The input handling of the agent's terminal loop** (`PromptLoop`). Each
  line is stripped. A blank line re-prompts, and `exit`, `quit` or `q` in any
  case ends the loop. Anything else goes to the agent as the query. The loop
  over a finite list of input lines is modelled both as a function and as a
  method.

`Base` holds the `Option` and `Result` types. `TextUtil` holds the Python
string operations the code relies on: `str.strip()`, ASCII `str.lower()` and
`sep.join(...)`. It also defines `str.split(c)`, which the code never calls,
to read the newline-joined output back into its lines.

## Model

| member | source | states |
|---|---|---|
| TextUtil.Strip | langchain-simple-agent/document_reader_agent/main.py:97 | `strip()` leaves no whitespace at either end, and its result is empty exactly when the input is all whitespace |
| TextUtil.StripKeepsSlice | langchain-simple-agent/document_reader_agent/main.py:97 | what `strip()` keeps is one contiguous slice of the input, and everything it drops on either side is whitespace |
| TextUtil.StripIdempotent | langchain-simple-agent/document_loader/main.py:35 | stripping an already stripped string changes nothing |
| TextUtil.LowerMatchesIgnoringCase | langchain-simple-agent/document_reader_agent/main.py:104 | the lower-cased input equals a lower-case word exactly when the input spells that word in any mix of upper and lower case |
| TextUtil.Lower | langchain-simple-agent/document_reader_agent/main.py:104 | the result has the input's length and each character lowered, ASCII letters only; `LowerMatchesIgnoringCase` states what that means for the exit words |
| TextUtil.Join | langchain-simple-agent/document_reader_agent/main.py:44 | no parts give `""` and one part gives that part; `JoinEnds`, `JoinLength` and `JoinAppend` fix every longer join. The loader's `get_text` joins with it too (line 35 of the loader's `main.py`) |
| TextUtil.JoinEnds | langchain-simple-agent/document_reader_agent/main.py:44 | a join starts with the first part and ends with the last, with no separator at either end |
| TextUtil.JoinLength | langchain-simple-agent/document_reader_agent/main.py:44 | a join of n parts is as long as the parts plus n - 1 separators |
| TextUtil.JoinAppend | langchain-simple-agent/document_reader_agent/main.py:44 | joining two non-empty lists equals joining their two joins with one separator, so a separator is never doubled or dropped |
| TextUtil.SplitJoin | langchain-simple-agent/document_loader/main.py:35 | splitting a newline-joined text at newlines gives the parts back, provided no part holds a newline |
| HtmlTree.Find | langchain-simple-agent/document_loader/main.py:22 | a node it returns matches the selector's tag and class; `FindIsFirstInDocumentOrder` states which one. Line 30 uses the same search |
| HtmlTree.FindIsFirstInDocumentOrder | langchain-simple-agent/document_loader/main.py:22 | `find` returns the first matching node of a pre-order walk over all descendants, and nothing when no node matches |
| HtmlTree.FindAppend | langchain-simple-agent/document_loader/main.py:22 | searching a concatenated forest finds the first part's match if there is one, else the second part's |
| HtmlTree.MarkedTextsListsAllTexts | langchain-simple-agent/document_loader/main.py:26-27 | marking each text node with whether it lies inside a match lists exactly the forest's text nodes, in document order |
| HtmlTree.RemoveAll | langchain-simple-agent/document_loader/main.py:26-27 | no contract of its own; the per-node laws `RemoveAllKeepsText`, `RemoveAllDropsMatch`, `RemoveAllKeepsOtherElement` and `RemoveAllAppend` fix its result on every forest, and `RemoveAllKeepsUnmarkedTexts`, `RemoveAllLeavesNoMatch` and `RemoveAllWithoutMatch` state what that means for texts and `nav`s |
| HtmlTree.RemoveAllAppend | langchain-simple-agent/document_loader/main.py:26-27 | the parts of a forest are cleaned independently and stay in order |
| HtmlTree.RemoveAllKeepsText | langchain-simple-agent/document_loader/main.py:26-27 | a text node outside every `nav` is kept as it is |
| HtmlTree.RemoveAllDropsMatch | langchain-simple-agent/document_loader/main.py:26-27 | a `nav` is removed together with its whole subtree |
| HtmlTree.RemoveAllKeepsOtherElement | langchain-simple-agent/document_loader/main.py:26-27 | any other element stays with its tag and classes, so the breadcrumbs search on line 30 still finds it, and only the `nav`s below it are removed |
| HtmlTree.RemoveAllKeepsUnmarkedTexts | langchain-simple-agent/document_loader/main.py:26-27 | decomposing every match keeps exactly the text nodes outside all matches, at any depth, in their original order |
| HtmlTree.RemoveAllLeavesNoMatch | langchain-simple-agent/document_loader/main.py:26-27 | after decomposing every match, no matching element is left at any depth |
| HtmlTree.RemoveAllWithoutMatch | langchain-simple-agent/document_loader/main.py:26-27 | a forest with no match is left unchanged |
| HtmlTree.RemoveFirst | langchain-simple-agent/document_loader/main.py:30-32 | no contract of its own; `RemoveFirstSplicesOutMatch`, `RemoveFirstKeepsLaterMatches` and `RemoveFirstWithoutMatch` state what decomposing the first breadcrumbs container does |
| HtmlTree.RemoveFirstSplicesOutMatch | langchain-simple-agent/document_loader/main.py:30-32 | decomposing the first match removes exactly its text nodes, cut out at its own place in document order; the texts before that place are exactly those that precede the match |
| HtmlTree.RemoveFirstKeepsLaterMatches | langchain-simple-agent/document_loader/main.py:30-32 | only the first match and the matches nested inside it disappear; every later match is kept |
| HtmlTree.RemoveFirstWithoutMatch | langchain-simple-agent/document_loader/main.py:31 | when there is no breadcrumbs container, the tree is unchanged |
| ContentExtractor.StrippedStrings | langchain-simple-agent/document_loader/main.py:35 | every piece handed to the join is non-empty and stripped, and there are no more pieces than text nodes |
| ContentExtractor.StrippedStringsAppend | langchain-simple-agent/document_loader/main.py:35 | the pieces of two text lists are the pieces of each, in order |
| ContentExtractor.StrippedStringsEmpty | langchain-simple-agent/document_loader/main.py:35 | no piece survives exactly when every text node is blank |
| ContentExtractor.GetText | langchain-simple-agent/document_loader/main.py:35 | the text has no leading or trailing whitespace, and it is empty exactly when every text node is blank |
| ContentExtractor.GetTextOfText | langchain-simple-agent/document_loader/main.py:35 | a lone text node comes out as its stripped text |
| ContentExtractor.GetTextOfElement | langchain-simple-agent/document_loader/main.py:35 | an element contributes exactly the text of its children, in order |
| ContentExtractor.GetTextAppend | langchain-simple-agent/document_loader/main.py:35 | the text of two adjacent forests that both have text is the first's text, one newline, then the second's |
| ContentExtractor.GetTextBlankFirst | langchain-simple-agent/document_loader/main.py:35 | a forest without text adds nothing in front of another, not even a newline |
| ContentExtractor.GetTextBlankSecond | langchain-simple-agent/document_loader/main.py:35 | a forest without text adds nothing after another, not even a newline |
| ContentExtractor.Extract | langchain-simple-agent/document_loader/main.py:18-38 | no `article.doc` gives `""`; otherwise the result is stripped, and it is empty exactly when no line survives |
| ContentExtractor.ExtractSplitsIntoLines | langchain-simple-agent/document_loader/main.py:35 | the output consists of the surviving lines separated by exactly one newline each, whenever no line carries a newline of its own |
| ContentExtractor.FirstArticleOnly | langchain-simple-agent/document_loader/main.py:22-35 | only the first `article.doc` contributes: nothing that follows it in the document changes the result |
| ContentExtractor.SurvivingTexts | langchain-simple-agent/document_loader/main.py:26-35 | the texts that reach the output are the non-nav texts of the article in order, with those of the first remaining breadcrumbs container cut out; with no container, all non-nav texts survive |
| BatchStore.Batches | langchain-simple-agent/document_loader/main.py:90-91 | no contract of its own; `BatchesShape`, `BatchesBounds` and `BatchAt` state what the slices are |
| BatchStore.BatchesShape | langchain-simple-agent/document_loader/main.py:90-91 | the batches concatenate back to the splits, each is non-empty and at most 5000 long, and all but the last are full |
| BatchStore.BatchesBounds | langchain-simple-agent/document_loader/main.py:90-91 | there are as few batches as cover the splits: one batch fewer would hold fewer than N splits |
| BatchStore.OffsetIsProduct | langchain-simple-agent/document_loader/main.py:90 | after j passes the loop index is `j * 5000`, the j-th value of the range |
| BatchStore.BatchAt | langchain-simple-agent/document_loader/main.py:90-91 | batch j is exactly the slice `all_splits[j*5000 : j*5000+5000]` that the loop cuts on its j-th pass |
| BatchStore.BatchesCeil | langchain-simple-agent/document_loader/main.py:87-92 | there are `(N + 4999) / 5000` batches, so there are no store calls for N = 0 |
| BatchStore.StoreAll | langchain-simple-agent/document_loader/main.py:90-93 | no contract of its own; `StoreAllOutcome` states the ids or the error it yields, and `StoreInBatches` states that the loop agrees with it |
| BatchStore.StoreAllOutcome | langchain-simple-agent/document_loader/main.py:90-93 | when every store call succeeds, the ids are the per-batch id lists concatenated in order, after one call per batch; otherwise the first failing call decides the error and no later batch is stored |
| BatchStore.OneIdPerSplit | langchain-simple-agent/document_loader/main.py:89-93 | if each call returns one id per document, a successful run yields exactly N ids |
| BatchStore.StoreInBatches | langchain-simple-agent/document_loader/main.py:87-93 | the loop returns the same ids or error as storing the batches in order, and makes the same number of store calls |
| BatchStore.CallsOnSuccess | langchain-simple-agent/document_loader/main.py:87-93 | when every store call succeeds, the loop makes `ceil(N / 5000)` calls |
| Retrieval.SourceUrl | langchain-simple-agent/document_reader_agent/main.py:40 | the URL is the chunk's own `source` metadata, or `No URL available` when it has none |
| Retrieval.Snippet | langchain-simple-agent/document_reader_agent/main.py:41 | no contract of its own; `SnippetRoundTrip` states that a block reads back as its URL and content |
| Retrieval.Snippets | langchain-simple-agent/document_reader_agent/main.py:38-42 | one block per retrieved chunk, in retrieval order, each built from that chunk |
| Retrieval.SnippetRoundTrip | langchain-simple-agent/document_reader_agent/main.py:40-41 | a block reads back as the chunk's URL and content: its own `source`, or `No URL available` when it has none |
| Retrieval.FormatContext | langchain-simple-agent/document_reader_agent/main.py:38-44 | an empty result list gives `""`; a single chunk gives its block; otherwise the text starts with `SOURCE: ` and is as long as the blocks plus n - 1 separators |
| Retrieval.FormatContextAppend | langchain-simple-agent/document_reader_agent/main.py:44 | formatting two result lists together equals their two formats joined by exactly one separator |
| Retrieval.RetrieveContext | langchain-simple-agent/document_reader_agent/main.py:36-47 | the second component is the searched list itself, unchanged, and the text is its blocks joined; a search that honours `k=3` yields at most three blocks |
| PromptLoop.Classify | langchain-simple-agent/document_reader_agent/main.py:97-110 | blank input re-prompts, and exactly blank input does; a query is the stripped input, is non-empty and is no exit word |
| PromptLoop.StopIffExitWord | langchain-simple-agent/document_reader_agent/main.py:104-106 | a line stops the loop exactly when, stripped, it spells `exit`, `quit` or `q` in any case |
| PromptLoop.QueryIsFixpoint | langchain-simple-agent/document_reader_agent/main.py:97-110 | a query sent to the agent, typed again, would be sent unchanged |
| PromptLoop.Run | langchain-simple-agent/document_reader_agent/main.py:95-110 | no contract of its own; `EmptySession`, `QuerySent`, `BlankLineIgnored` and `NothingAfterStop` fix the session for every input, `SessionQueriesAreQueries` states what a sent query looks like, and `LoopWith` states that the loop agrees with it |
| PromptLoop.RunSession | langchain-simple-agent/document_reader_agent/main.py:95-110 | no contract of its own; the session over the lines is `Run` over their classifications, with the same lemmas |
| PromptLoop.EmptySession | langchain-simple-agent/document_reader_agent/main.py:95-110 | with no input nothing is sent and the session ends for lack of input |
| PromptLoop.QuerySent | langchain-simple-agent/document_reader_agent/main.py:104-110 | a line that is neither blank nor an exit word is sent to the agent as its stripped form, before anything from later lines |
| PromptLoop.NothingAfterStop | langchain-simple-agent/document_reader_agent/main.py:104-106 | no line after the first exit word reaches the agent: the session sends exactly the queries of the lines before it and ends stopped |
| PromptLoop.BlankLineIgnored | langchain-simple-agent/document_reader_agent/main.py:99-101 | a blank line anywhere changes nothing about what reaches the agent |
| PromptLoop.SessionQueriesAreQueries | langchain-simple-agent/document_reader_agent/main.py:104-110 | every query the session sends is non-empty and stripped, and would be sent unchanged if typed again |
| PromptLoop.LoopWith | langchain-simple-agent/document_reader_agent/main.py:95-110 | for any way of deciding what a line asks for, the `while True` loop sends exactly the queries of the run up to the first stop, reads no line past it (every line read before the last is not a stop), and reads every line when there is none |
| PromptLoop.PromptLoop | langchain-simple-agent/document_reader_agent/main.py:95-110 | the loop sends the same queries and ends the same way as the session function; on a stop, the last line read is the first exit word, and otherwise every line was read |
| PromptLoop.PaddedQStops | langchain-simple-agent/document_reader_agent/main.py:97-106 | `" Q "` ends the loop |
| PromptLoop.UpperQuitStops | langchain-simple-agent/document_reader_agent/main.py:104-106 | `"QUIT"` ends the loop |
| PromptLoop.LongerWordIsQuery | langchain-simple-agent/document_reader_agent/main.py:104-110 | `" quitting "` is sent as the query `quitting`, because only whole exit words stop the loop |

## Left out

- HTML parsing with `html.parser` is not modelled. The model starts from the parsed forest of elements and text nodes.
- bs4 string kinds are left out. Every text node of the model counts for `get_text`. Strings that `get_text` skips by default are not text nodes in the model, so a tree built for it must leave them out. These are comments, doctype, declarations and processing instructions. They also include the separate string classes that bs4 4.10 and later uses for the text inside `<script>`, `<style>` and `<template>`, and for ruby annotations inside `<rt>` and `<rp>` (`RubyTextString` and `RubyParenthesisString`).
- A `class` selector is modelled as membership in the element's class list. bs4 also matches the whole attribute string; that rule is not modelled.
- Crawling with `RecursiveUrlLoader` is a library call and is left out: depth, domain restriction and timeouts.
- Chunking with `RecursiveCharacterTextSplitter` is left out. The splits reach the batching loop as an opaque sequence.
- Embeddings, Chroma persistence and similarity scoring are external services. The store is an abstract function from a batch to ids or an error. The search is an abstract function of the query and `k`.
- BatchStore.StoreAll: the store is a pure function of the batch. A real store keeps state between calls, and ids can depend on it.
- BatchStore.StoreInBatches: an error from the store ends the loop with that error, as the code does. When `add_documents` raises, the code keeps no record of the ids already returned, so none is modelled.
- Retrieval.SourceUrl: `source` metadata is a string or absent. A non-string value, which Python would format with `str()`, is not modelled.
- The language model, `init_agent`, the system prompt's citation rule and the streaming in `run_agent_query` are external services. A query is modelled only as the string handed to `run_agent_query`.
- Printing, the debug dump of one page, `load_dotenv`, `nest_asyncio` and module-level client set-up are all I/O or configuration.
- PromptLoop.LoopWith: the agent call is assumed to return. `run_agent_query` is called with no `try`, so an exception from `agent.stream` would leave the `while True` loop and end the program, sending no later query and reading no later line. The model does not have that exit: every `Ask` is sent and reading goes on.
- PromptLoop.PromptLoop: the agent call is assumed to return, as for `LoopWith`.
- PromptLoop.PromptLoop: input is a finite list of lines. When it runs out, `input()` would raise `EOFError` and end the program; the model records this as the session ending with input exhausted.
- TextUtil.Lower: only ASCII letters are lower-cased. Python's full Unicode `lower()` is not modelled; it matters only for deciding whether a line is an exit word.
- TextUtil.IsSpace: whitespace is the fixed set of characters for which Python's `str.isspace()` holds. Unicode database updates are not tracked.
- ContentExtractor.ExtractSplitsIntoLines: an output line can be empty or blank when a single text node contains a blank line, because `strip` does not touch inner newlines. The lemma therefore requires that no surviving line holds a newline. The output of every forest is stated exactly by `GetTextOfText`, `GetTextOfElement`, `GetTextAppend`, `GetTextBlankFirst` and `GetTextBlankSecond`, and `StrippedStrings` states that each piece is non-empty.
