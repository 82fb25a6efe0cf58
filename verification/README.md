# DeepWiki-Like core in Dafny

DeepWiki-Like crawls the Markdown files of a GitHub repository or a local directory. It cuts them into chunks, stores the chunks with embeddings in a vector store, and answers questions from the nearest chunks, with citations. This project models the pure core of that pipeline and proves properties of it:

- **Crawler** (`deepwiki/crawler.py`). Owner and repository are read out of a GitHub URL. The model keeps the leftmost-match semantics of both regular expressions and Python's `$`. The blob filter, the repository names, the document paths and the document URLs are modelled too.
- **Chunker** (`DocumentChunker` in `deepwiki/indexer.py`). The header pass and the sliding size window are modelled. The size window is a loop with explicit fuel because the source loop can hang. Each chunk gets its index/total metadata.
- **Indexer bookkeeping** (`VectorIndexer`). The store is a sequence of entries. The model covers:
  - ids of the form `repo::path::i`;
  - batches of 50, with embedding requests of at most 100;
  - `clear_repository`, `clear_all`, `list_repositories` and `get_stats`.
- **Retriever** (`deepwiki/retriever.py`). Covers `SearchResult` field defaults, `top_k` defaulting, and turning the store's reply into results with score `1 - distance`.
- **Question answering** (`deepwiki/qa.py`). Covers:
  - `Citation` and `Answer` and their dict forms;
  - `format_markdown`;
  - the provider check;
  - the no-results fallback;
  - citation snippets;
  - the numbered context blocks and the prompt.

Modules follow the program:
- `crawler.dfy`, `chunker.dfy`, `indexer.dfy`, `retriever.dfy` and `qa.dfy` model the four source files.
- `headers.dfy` and `windows.dfy` hold the two chunking passes.
- `text.dfy` (Python string primitives), `slicing.dfy` (Python slices and `rfind`), `lex.dfy` (`sorted` on strings), `settings.dfy` (the configuration defaults of `deepwiki/config.py`) and `wrappers.dfy` (`Option`/`Result`) support them.

Foreign calls are parameters of the model:
- the embedder is a function `string -> Vector`;
- the vector store's query is a function from the number of results to its reply;
- the language model is a function from provider and prompt to text;
- the GitHub tree listing, file reads, `rglob` listings and path relativisation are functions too, with `None` for a call that raises.

The model follows the code where the project's own description of the design differs from it:
- Empty size-pass pieces are kept, so an empty document yields exactly one chunk with text `""`.
- A negative chunk size sends even the empty header segment through the size pass, which yields no piece, so that document has no chunks (`Chunker.NegativeSizeEmptyDocument`).
- `index_documents` chunks every document before it starts batching.

Behaviours of the code that the model keeps and states:
- `_split_by_size` does not always advance. When the only line break in a window lies exactly `overlap` characters after its start, the next start equals the start and the loop never ends (`Windows.CutAtOverlapStalls`, `Windows.StallExample`); a stalled loop is `None` for every fuel.
- A cut closer to the start moves the next start back, possibly below zero, where Python reads it from the end of the text. This does not always stall: `"a\nbcd"` at size 4, overlap 2 gives `["a", "", "bcd", "cd"]`, with an empty piece in the middle (`Windows.BackwardsStartExample`).
- The final window is never shortened, so it can emit a trailing piece that lies inside the previous one (`Windows.TrailingPieceExample`).
- `repo.replace(".git", "")` removes every occurrence, so `site.github.io` becomes `sitehub.io` (`Crawler.GitInsideRepoExample`).

## Model

| member | source | states |
|---|---|---|
| Crawler.ExtractRepoInfo | deepwiki/crawler.py:42-65 | a refused URL fails with `Invalid GitHub repository URL: <url>` |
| Crawler.FirstSlash | deepwiki/crawler.py:53-54 | where a `[^/]+` group must stop: the first `/` at or after the given index, or the end, with no `/` before it |
| Crawler.AnchoredAt | deepwiki/crawler.py:53 | no contract of its own; specified by `Crawler.ShortestRepoWhole`, `Crawler.NoAnchoredRepo` and `Crawler.AnchoredImpliesPrefix` |
| Crawler.ShortestRepo | deepwiki/crawler.py:53 | no contract of its own; specified by `Crawler.ShortestRepoWhole` and `Crawler.NoAnchoredRepo` |
| Crawler.PrefixAt | deepwiki/crawler.py:54 | no contract of its own; specified by `Crawler.AnchoredImpliesPrefix` and `Crawler.DeepUrl` |
| Crawler.SearchLeftmost | deepwiki/crawler.py:57-58 | `re.search` returns the match at the leftmost position where the pattern matches, with no match before it; it returns `None` exactly when the pattern matches at no position |
| Crawler.SearchStep | deepwiki/crawler.py:57-58 | a position where the pattern does not match is passed over |
| Crawler.EndOkSpelledOut | deepwiki/crawler.py:53 | what may follow the lazy repository group, `(?:\.git)?/?$`, is exactly the eight strings built from an optional `.git`, an optional `/` and an optional final line feed |
| Crawler.EndOkOnlyThese | deepwiki/crawler.py:53 | nothing outside those eight endings can close the first pattern's match |
| Crawler.EndOkNewline | deepwiki/crawler.py:53 | each ending followed by one final line feed still closes the match, as Python's `$` allows |
| Crawler.CanonicalUrl | deepwiki/crawler.py:53-63 | `https://github.com/o/r`, `…/r.git`, `…/r/` and `…/r.git/` all yield `(o, r)`, with every `.git` removed from `r` |
| Crawler.DeepUrl | deepwiki/crawler.py:53-63 | a deeper URL such as `https://github.com/o/r/tree/main`, with no other `github.com/` in it, fails the first pattern and the second pattern yields `(o, r)` |
| Crawler.DeepNotAnchored | deepwiki/crawler.py:53 | the first pattern matches at no position of such a deeper URL |
| Crawler.ShortestRepoWhole | deepwiki/crawler.py:53 | the lazy repository group takes a whole slash-free name that does not end in `.git`, before any allowed ending |
| Crawler.NoAnchoredRepo | deepwiki/crawler.py:53 | with a further path segment after the repository name, the lazy group finds no ending and the first pattern fails there |
| Crawler.GitInsideRepoExample | deepwiki/crawler.py:62 | `github.com/o/site.github.io` yields `(o, sitehub.io)` |
| Crawler.RemoveGitExample | deepwiki/crawler.py:62 | `"site.github.io".replace(".git", "")` is `sitehub.io` |
| Crawler.InvalidExactlyWithoutPrefix | deepwiki/crawler.py:52-65 | a URL is refused exactly when the second pattern matches at no position, since the first pattern only matches where the second also does |
| Crawler.AnchoredImpliesPrefix | deepwiki/crawler.py:53-54 | wherever the first pattern matches, the second matches too |
| Crawler.NoHostRefused | deepwiki/crawler.py:65 | a URL that never contains `github.com/` is refused with the exact message |
| Crawler.CrawlTree | deepwiki/crawler.py:101-124 | never yields more documents than the tree has items |
| Crawler.CrawlTreeMembers | deepwiki/crawler.py:101-124 | a document is crawled exactly when some tree item is a Markdown blob whose read and decoding succeed and give that document; failed reads are skipped |
| Crawler.CrawlTreeDocuments | deepwiki/crawler.py:103-118 | every crawled document carries the full repository name and a path ending in `.md` or `.mdx` |
| Crawler.Crawl | deepwiki/crawler.py:67-124 | an invalid URL fails with its message; otherwise the crawl succeeds exactly when the tree of `owner/repo` can be listed, failing with that name when not; on success it has at most one document per tree item, every document is named `owner/repo` with an `.md` or `.mdx` path, and a document is present exactly when some Markdown blob's read and decoding give it |
| Crawler.CrawlTreeSpec | deepwiki/crawler.py:101-124 | membership and naming of the tree crawl, for every document at once |
| Crawler.LocalDocuments | deepwiki/crawler.py:143-177 | never yields more documents than files listed |
| Crawler.LocalDocumentsShape | deepwiki/crawler.py:163-173 | each local document comes from a listed file that could be read and relativised: the content is that file's text, the path is its base-relative path, the URL is `file://` plus the file path, and the name is the given one |
| Crawler.LocalDocumentsComplete | deepwiki/crawler.py:163-173 | every listed file that can be read and relativised gives its document |
| Crawler.CrawlLocal | deepwiki/crawler.py:126-177 | no contract of its own; specified by `Crawler.CrawlLocalSpec`, `Crawler.LocalDocumentsShape` and `Crawler.LocalDocumentsComplete` |
| Crawler.LocalDocumentNamed | deepwiki/crawler.py:167-172 | every local document carries the repository name it was given and a `file://` URL |
| Crawler.CrawlLocalSpec | deepwiki/crawler.py:135-150 | a missing path fails with `Path does not exist: <path>`; otherwise the `.md` pass's documents come first and the `.mdx` pass's follow, and every document is named `local/<dir>` with a `file://` URL |
| Chunker.NewChunker | deepwiki/indexer.py:15-23 | a size or overlap of `None` or 0 is replaced by the configured value; any other value is kept |
| Chunker.DefaultChunker | deepwiki/indexer.py:22-23 | with the default configuration, unset or zero arguments give size 1000 and overlap 200 |
| Chunker.Label | deepwiki/indexer.py:48-61 | one chunk per text, in order; chunk `i` has text `i`, index `i`, the total count, and the document's repository, path and URL |
| Chunker.SizePass | deepwiki/indexer.py:39-45 | no contract of its own; specified by `Chunker.SizePassBounded`, `Chunker.SizePassShort` and `Chunker.SizePassNonEmpty` |
| Chunker.ChunkDocument | deepwiki/indexer.py:25-63 | chunk `i` has `chunk_index = i` and `total_chunks` equal to the number of chunks, with the document's repository, path and URL |
| Chunker.LabelTexts | deepwiki/indexer.py:49-52 | the texts of the labelled chunks are the input texts |
| Chunker.ChunksBounded | deepwiki/indexer.py:39-122 | when `0 <= overlap <= size`, every chunk has at most `chunk_size` characters |
| Chunker.SizePassBounded | deepwiki/indexer.py:39-45 | the same bound for the combined size pass over all header segments |
| Chunker.SizePassShort | deepwiki/indexer.py:40-45 | segments no longer than `chunk_size` pass through verbatim |
| Chunker.ShortDocumentVerbatim | deepwiki/indexer.py:34-61 | when every header segment fits, the chunks are exactly the header segments, and joining their texts with `"\n"` gives back the document |
| Chunker.SizePassNonEmpty | deepwiki/indexer.py:39-107 | with a non-negative size, a non-empty list of segments never yields an empty list of pieces |
| Chunker.AtLeastOneChunk | deepwiki/indexer.py:35-93 | with a non-negative size, every document (the empty one included) yields at least one chunk |
| Chunker.NegativeSizeEmptyDocument | deepwiki/indexer.py:40-107 | with a negative chunk size an empty document yields no chunks |
| Chunker.SizePassFuelMonotone | deepwiki/indexer.py:39-45 | once the size pass finishes, more fuel gives the same pieces |
| Chunker.ChunkDocumentFuelMonotone | deepwiki/indexer.py:25-63 | once chunking finishes, more fuel gives the same chunks |
| Chunker.NoBreaksChunked | deepwiki/indexer.py:107-123 | a document without line feeds, with `0 <= overlap < size`, is always chunked (the loop ends) |
| Chunker.EmptyDocumentExample | deepwiki/indexer.py:76-122 | the empty document yields one chunk `""` with index 0 and total 1 |
| Chunker.TwoShortSegments | deepwiki/indexer.py:39-61 | two header segments that fit give two chunks with indices (0, 2) and (1, 2) |
| Chunker.TwoSectionExample | deepwiki/indexer.py:25-63 | `"# A\nfoo bar\n# B\nbaz"` at size 1000 gives `["# A\nfoo bar", "# B\nbaz"]` with (0, 2) and (1, 2) |
| Headers.LeadingHashes | deepwiki/indexer.py:75 | the count of `#` characters at the front of a line |
| Headers.IsHeader | deepwiki/indexer.py:75-82 | no contract of its own; specified by `Headers.HeaderMatchesPattern` and the header examples |
| Headers.HeaderMatchesPattern | deepwiki/indexer.py:75-82 | a line is a header exactly when it is 1 to 6 `#`, at least one whitespace character, then at least one more character (the regular expression `^#{1,6}\s+.+$` on a line) |
| Headers.HeaderAcceptsExamples | deepwiki/indexer.py:75 | `"# A"`, `"#  "` and `"#\tTitle"` are headers |
| Headers.HeaderSixHashesExample | deepwiki/indexer.py:75 | six hashes and a space still open a header |
| Headers.HeaderRejectsExamples | deepwiki/indexer.py:75 | `"# "`, `"#x"`, `" # x"` and `""` are not headers |
| Headers.HeaderSevenHashesExample | deepwiki/indexer.py:75 | seven hashes are not a header |
| Headers.GroupLinesShape | deepwiki/indexer.py:78-91 | the grouping loop keeps every line, in order, and every group after the first starts with a header line |
| Headers.SplitByHeaders | deepwiki/indexer.py:65-93 | no contract of its own; specified by `Headers.SplitByHeadersSpec` |
| Headers.SplitByHeadersSpec | deepwiki/indexer.py:76-93 | there is at least one segment; joining the segments with `"\n"` gives back the text; every segment after the first starts with a header line; the first segment starts with the text's first line, so a header there opens nothing |
| Headers.LinesOf | deepwiki/indexer.py:76 | `split("\n")` gives back the lines that were joined |
| Headers.HeaderSegmentsExample | deepwiki/indexer.py:76-93 | `"# A\nfoo bar\n# B\nbaz"` splits into `"# A\nfoo bar"` and `"# B\nbaz"` |
| Headers.HeaderFirstLineExample | deepwiki/indexer.py:82-87 | `"# A\n# B"` splits into `"# A"` and `"# B"` |
| Headers.HeaderEmptyExample | deepwiki/indexer.py:90-93 | the empty text is one empty segment |
| Headers.SingleLineSegment | deepwiki/indexer.py:76-93 | a text without line feeds is its own single segment |
| Windows.WindowEnd | deepwiki/indexer.py:108-120 | the cut is the window's raw end or a line feed strictly after the start (or `rfind`'s -1 when the start is below -1) |
| Windows.WindowCut | deepwiki/indexer.py:108-120 | at the end of the text the cut is the raw end; otherwise the cut is the last `"\n\n"` inside the window after the start, else the last `"\n"` after the start, else the raw end |
| Windows.WindowBounded | deepwiki/indexer.py:108-120 | when `start + chunk_size >= 0`, the cut never passes `start + chunk_size` |
| Windows.WindowSliceBounded | deepwiki/indexer.py:108-122 | the window slice has at most `chunk_size` characters, negative starts included |
| Windows.Step | deepwiki/indexer.py:122 | every piece is whitespace-stripped |
| Windows.StepBounded | deepwiki/indexer.py:108-123 | with `0 <= overlap <= size`, a piece has at most `chunk_size` characters and the next start stays in range |
| Windows.Loop | deepwiki/indexer.py:107 | the loop yields no piece exactly when it starts at or past the end |
| Windows.SplitBySize | deepwiki/indexer.py:95-125 | no contract of its own; specified by `Windows.SplitBySizeBounded`, `Windows.SplitBySizeStripped` and `Windows.SplitBySizeFuelMonotone` |
| Windows.SplitBySizeBounded | deepwiki/indexer.py:104-125 | with `0 <= overlap <= size`, every piece has at most `chunk_size` characters |
| Windows.SplitBySizeStripped | deepwiki/indexer.py:104-125 | every piece is stripped, and there are no pieces exactly when the text is empty |
| Windows.SplitBySizeFuelMonotone | deepwiki/indexer.py:107-123 | once the loop ends, more fuel gives the same pieces |
| Windows.CutAtOverlapStalls | deepwiki/indexer.py:113-123 | a single line feed exactly `overlap` characters after the start, and no later break, makes the next start equal the start, so the loop never ends |
| Windows.NoBreaksWindow | deepwiki/indexer.py:108-120 | without line feeds and with `start >= 0`, the cut is always `start + chunk_size` |
| Windows.NoBreaksTerminates | deepwiki/indexer.py:107-123 | without line feeds and with `0 <= overlap < size`, the loop ends within `len(text)` steps |
| Windows.ExampleFirstWindow | deepwiki/indexer.py:108-111 | the first window of `"abcdefgh"` at size 5 ends at 5 |
| Windows.TrailingPieceExample | deepwiki/indexer.py:104-125 | `"abcdefgh"` at size 5, overlap 2 gives `["abcde", "defgh", "gh"]`; the last piece lies inside the previous one |
| Windows.StallExample | deepwiki/indexer.py:113-123 | `"a\nbcdef"` at size 4, overlap 1 never finishes |
| Windows.BackwardsStartExample | deepwiki/indexer.py:104-125 | `"a\nbcd"` at size 4, overlap 2 moves the start back to -1, emits an empty piece there, and finishes with `["a", "", "bcd", "cd"]` |
| Windows.LoopCons | deepwiki/indexer.py:107-123 | a start below the end emits its window's piece and the loop goes on from the next start |
| Windows.ParagraphBreakChars | deepwiki/indexer.py:113 | an occurrence of `"\n\n"` is two line feeds, the first also an occurrence of `"\n"` |
| Slicing.Slice | deepwiki/indexer.py:122 | Python's `text[i:j]`: negative indices count from the end, both are clamped, and a reversed range is empty |
| Slicing.RFind | deepwiki/indexer.py:113-118 | Python's `rfind(sub, i, j)`: the last occurrence lying wholly inside the clamped range, or -1 |
| Slicing.SliceLength | deepwiki/indexer.py:122 | a slice `[i:j]` has at most `j - i` characters |
| Text.Strip | deepwiki/indexer.py:122 | `strip()` removes only whitespace, the result starts and ends with non-whitespace, and it is empty exactly when the input is all whitespace |
| Text.StripIsInfix | deepwiki/indexer.py:122 | the stripped text is the input with only whitespace removed at both ends |
| Text.StripIdempotent | deepwiki/indexer.py:122 | stripping twice is stripping once |
| Text.Split | deepwiki/indexer.py:76 | `split("\n")` gives at least one part, no part holds the separator, and joining the parts gives back the text |
| Text.SplitJoin | deepwiki/indexer.py:76-84 | splitting a join of separator-free parts gives the parts back |
| Text.NatToString | deepwiki/indexer.py:180-181 | `str(i)` is a non-empty string of digits |
| Text.ParseNatToString | deepwiki/indexer.py:180-181 | reading the digits of `str(i)` gives back `i` |
| Text.NatToStringInjective | deepwiki/indexer.py:180-181 | distinct counters have distinct decimal forms |
| Text.RemoveAll | deepwiki/crawler.py:62 | `replace(pat, "")` never lengthens a string |
| Text.RemoveAllAbsent | deepwiki/crawler.py:62 | `replace(pat, "")` leaves a string without `pat` unchanged |
| Lex.SortedDistinct | deepwiki/indexer.py:264-270 | `sorted(set(xs))` is strictly increasing and has exactly the elements of `xs` |
| Lex.StrictlySortedUnique | deepwiki/indexer.py:270 | two strictly increasing lists with the same elements are equal |
| Lex.LessTotal | deepwiki/indexer.py:270 | string order is total |
| Lex.LessTransitive | deepwiki/indexer.py:270 | string order is transitive |
| Indexer.IdsDistinct | deepwiki/indexer.py:180-181 | ids `repo::path::i` with different counters differ, whatever the repository and path |
| Indexer.MakeId | deepwiki/indexer.py:180-181 | no contract of its own; specified by `Indexer.IdsDistinct` and `Indexer.NewIdsDistinct` |
| Indexer.NumeralSuffix | deepwiki/indexer.py:180-181 | two ids ending in `:` followed by digits agree only when their numerals agree |
| Indexer.NewIdsDistinct | deepwiki/indexer.py:180-181 | the ids of one indexing call are pairwise distinct |
| Indexer.GenerateEmbeddings | deepwiki/indexer.py:209-230 | one vector per text, vector `k` being the embedding of text `k` |
| Indexer.EmbeddingRequests | deepwiki/indexer.py:218-230 | each embedding request holds 1 to 100 texts, the requests cover the texts in order, and at most 100 texts are one request |
| Indexer.Entries | deepwiki/indexer.py:178-181 | entry `i` is chunk `i` with id counter `from + i` and its embedding |
| Indexer.BatchEntriesAgree | deepwiki/indexer.py:187-203 | a batch's entries, built from the batch's own embedding call, are the entries of those chunks with their call-wide counters |
| Indexer.AddBatchesStore | deepwiki/indexer.py:187-203 | the batches add exactly the entries of all chunks, in order, after the existing store |
| Indexer.AddBatchesCover | deepwiki/indexer.py:184-203 | the batches are non-empty, contiguous and in order, hold at most 50 chunks each, cover all chunks, and each sends its texts as one embedding request |
| Indexer.AddBatches | deepwiki/indexer.py:184-203 | no contract of its own; specified by `Indexer.AddBatchesStore` and `Indexer.AddBatchesCover` |
| Indexer.IndexDocuments | deepwiki/indexer.py:158-207 | no contract of its own; specified by `Indexer.IndexDocumentsSpec` and `Indexer.IndexNothing` |
| Indexer.IndexDocumentsSpec | deepwiki/indexer.py:158-207 | indexing returns the number of chunks of all documents, appends their entries in order, and its batches cover them |
| Indexer.ChunkAllCount | deepwiki/indexer.py:167-172 | the chunk count is the sum of the per-document chunk counts |
| Indexer.IndexNothing | deepwiki/indexer.py:167-207 | no documents: count 0, store unchanged, no batches |
| Indexer.RepoEntries | deepwiki/indexer.py:240 | the entries of one repository: exactly those stored with that name |
| Indexer.OtherEntries | deepwiki/indexer.py:242 | exactly the stored entries of other repositories |
| Indexer.ClearRepository | deepwiki/indexer.py:232-245 | after clearing, an entry is stored exactly when it was before and belongs to another repository |
| Indexer.PartitionCount | deepwiki/indexer.py:240-242 | the repository's entries and the others together number the whole store |
| Indexer.ClearCount | deepwiki/indexer.py:240-245 | clearing removes exactly the repository's entries |
| Indexer.ClearIdempotent | deepwiki/indexer.py:232-245 | clearing twice is clearing once |
| Indexer.ClearKeepsOthers | deepwiki/indexer.py:232-245 | clearing one repository leaves every other repository's entries, in order |
| Indexer.RepoEntriesAppend | deepwiki/indexer.py:240 | the lookup distributes over concatenated stores |
| Indexer.ClearAll | deepwiki/indexer.py:247-254 | the store is empty afterwards |
| Indexer.RepoNames | deepwiki/indexer.py:266-268 | the name of every stored entry, in order |
| Indexer.NamesHeld | deepwiki/indexer.py:266-268 | a name is collected exactly when some entry carries it |
| Indexer.ListRepositories | deepwiki/indexer.py:256-270 | the listing is strictly sorted and holds exactly the names of stored entries |
| Indexer.ListingUnique | deepwiki/indexer.py:270 | any strictly sorted list of exactly those names is the listing |
| Indexer.ClearUnlists | deepwiki/indexer.py:232-270 | after clearing a repository it is no longer listed, and every other listing is unchanged |
| Indexer.GetStats | deepwiki/indexer.py:272-285 | the chunk total is the store's size, the repositories are the listing, and their count is its length |
| Indexer.ClearAllStats | deepwiki/indexer.py:247-285 | after clearing everything the statistics are 0, 0 and no repositories |
| Retriever.Get | deepwiki/retriever.py:16-18 | `metadata.get(key, "")`: the stored value, or `""` when absent |
| Retriever.NewSearchResult | deepwiki/retriever.py:12-18 | text, metadata and score are kept; repository, path and URL are read from the metadata, defaulting to `""` |
| Retriever.IndexedResultFields | deepwiki/retriever.py:16-18 | a result for an indexed chunk names that chunk's repository, path and URL |
| Retriever.MissingFieldsExample | deepwiki/retriever.py:16-18 | metadata without those keys gives empty strings |
| Retriever.ResolveTopK | deepwiki/retriever.py:60 | `top_k` of `None` or 0 becomes the configured value; any other value is kept |
| Retriever.DefaultTopK | deepwiki/retriever.py:60-69 | without `top_k` the store is asked for 5 results |
| Retriever.Search | deepwiki/retriever.py:50-83 | the store is asked for `top_k`, or the configured number when `top_k` is unset or 0; a reply without hits gives no results; with hits, the search succeeds exactly when the metadata and distance rows are present and long enough, and result `i` then carries document `i`, metadata `i` and score `1 - distance i` |
| Retriever.Convert | deepwiki/retriever.py:72-73 | no document row, or an empty first row, gives no results |
| Retriever.Zip | deepwiki/retriever.py:74-81 | no contract of its own; specified by `Retriever.ZipSpec` |
| Retriever.ZipSpec | deepwiki/retriever.py:74-81 | zipping succeeds exactly when the metadata and distance rows are long enough, and then result `k` carries document, metadata and `1 - distance` of position `k` |
| Retriever.ConvertSpec | deepwiki/retriever.py:73-83 | with hits, conversion succeeds exactly when the metadata and distance rows are present and long enough; the results then follow the document row in order with score `1 - distance` |
| Retriever.ScoresDescend | deepwiki/retriever.py:79 | non-decreasing distances give non-increasing scores |
| Retriever.NoHitsExample | deepwiki/retriever.py:73 | a missing, empty or empty-first document row gives no results |
| Qa.CitationToDict | deepwiki/qa.py:19-26 | the dict has exactly the keys `repo_name`, `file_path`, `url` and `text_snippet` |
| Qa.CitationDictRoundTrip | deepwiki/qa.py:19-26 | reading a citation's dict back gives the citation |
| Qa.AnswerToDict | deepwiki/qa.py:40-46 | the dict has exactly `question`, `answer` and `citations`, the last being the citations' dicts in order |
| Qa.CitationDicts | deepwiki/qa.py:45 | one dict per citation, in order |
| Qa.CitationsRoundTrip | deepwiki/qa.py:45 | reading the list of citation dicts back gives the citations |
| Qa.AnswerDictRoundTrip | deepwiki/qa.py:40-46 | reading an answer's dict back gives the answer |
| Qa.SourceLines | deepwiki/qa.py:55-56 | one source line per citation, numbered from the given start |
| Qa.FormatMarkdown | deepwiki/qa.py:48-58 | the text starts with the question and answer head; it is only that head exactly when there are no citations; otherwise `**Sources:**` follows, with lines `i. [repo/file](url)` numbered from 1 |
| Qa.MarkdownListsEveryCitation | deepwiki/qa.py:53-56 | the Markdown contains the source line of every citation, with its number |
| Qa.MarkdownExample | deepwiki/qa.py:48-58 | concrete Markdown for an answer without citations: the question and answer lines only |
| Qa.SourceLineExample | deepwiki/qa.py:55-56 | a concrete numbered source line `1. [o/r/README.md](u)` |
| Qa.CheckProvider | deepwiki/qa.py:72-83 | the check accepts OpenAI exactly when the provider is `openai` and its key is set, and Anthropic exactly when the provider is `anthropic` and its key is set |
| Qa.UnsupportedProvider | deepwiki/qa.py:82-83 | any other provider is refused, and the message names it |
| Qa.DefaultNeedsKey | deepwiki/qa.py:73-75 | the default configuration without keys is refused with the OpenAI key message |
| Qa.Snippet | deepwiki/qa.py:114 | the snippet has at most 203 characters: the text itself up to 200 characters, else its first 200 characters followed by `...` |
| Qa.SnippetExample | deepwiki/qa.py:114 | a short text is its own snippet; a 250-character text gives 203 |
| Qa.Citations | deepwiki/qa.py:109-117 | one citation per result, in order |
| Qa.Blocks | deepwiki/qa.py:132-136 | one context block per result, numbered from 1 |
| Qa.TopKResolvedOnce | deepwiki/qa.py:96 | resolving `top_k` in `answer` and again in `search` asks the same number as resolving once |
| Qa.AnswerQuestion | deepwiki/qa.py:85-119 | no contract of its own; specified by `Qa.FallbackWhenNothingFound`, `Qa.CitationsFollowResults` and `Qa.PromptCarriesResults` |
| Qa.FallbackWhenNothingFound | deepwiki/qa.py:98-103 | no search results: the fixed answer, no citations, no prompt sent |
| Qa.CitationsFollowResults | deepwiki/qa.py:105-119 | with results, there is one citation per result in order, naming its repository, path and URL and carrying its snippet; the answer is the model's reply to the prompt built for the question |
| Qa.PromptCarriesResults | deepwiki/qa.py:105-119 | with results, the prompt sent to the model holds every result's text and the question |
| Qa.ContextHoldsResult | deepwiki/qa.py:132-137 | the context contains every numbered block and every result's text |
| Qa.Context | deepwiki/qa.py:132-137 | no contract of its own; specified by `Qa.ContextHoldsResult` |
| Qa.BuildPrompt | deepwiki/qa.py:148-167 | no contract of its own; specified by `Qa.PromptHoldsContext` and `Qa.PromptHoldsQuestion` |
| Qa.PromptHoldsContext | deepwiki/qa.py:158-167 | the prompt contains everything the context contains |
| Qa.PromptHoldsResult | deepwiki/qa.py:132-167 | the prompt contains every result's text |
| Qa.PromptHoldsQuestion | deepwiki/qa.py:158-167 | the prompt contains the question |

## Left out

- The vector store's own semantics are not modelled. This covers ChromaDB persistence, duplicate ids on `add`, the internals of `where` filtering and the distance metric. The store is a sequence of entries, and a query is a function returning its reply.
- Calls to OpenAI and Anthropic are not modelled: embeddings, the query embedding, `_generate_openai` and `_generate_anthropic`. They are uninterpreted parameters, and the embedder works item by item.
- Floating-point rounding is not modelled; scores and distances are exact reals.
- The GitHub API and the file system are not modelled (`get_repo`, `get_git_tree`, `get_contents`, `rglob`, `read_text`, `relative_to`), nor the order they return files in. They are parameters. An exception raised by `get_git_tree` is not distinguished from failing to get the repository.
- `Crawler.Crawl`: the access error carries the full repository name rather than the text of the GitHub exception, which is not modelled.
- `GitHubCrawler.__init__` (token selection) and `VectorIndexer.__init__` (including `config.validate()`) are left out. They create clients and directories.
- `deepwiki/config.py` is reduced to its default constants; reading the environment is left out. `deepwiki/api.py`, `deepwiki/__main__.py`, `quickstart.py` and the evaluation scripts are not part of this model.
- `print` logging is left out. So are `SearchResult.to_dict`, `SearchResult.__repr__`, `Citation.__repr__` and `MarkdownDocument.to_dict`, which only format for display.
- Metadata values are strings or integers, the only kinds the indexer writes.
- `Windows.SplitBySize`: the loop runs on fuel. `None` means it did not end within the fuel given. For a loop that ends, enough fuel gives its exact result (`Windows.SplitBySizeFuelMonotone`). A loop that stalls gives `None` for every fuel.
- `Chunker.ChunksBounded`: proved only when `0 <= chunk_overlap <= chunk_size`. With a larger overlap the start can go negative, and Python's negative slicing can then give longer pieces.
- `Qa.AnswerQuestion` is stated through the lemmas `Qa.FallbackWhenNothingFound`, `Qa.CitationsFollowResults` and `Qa.PromptCarriesResults`, not through its own contract. It takes the provider already accepted by `Qa.CheckProvider`, because `_generate_answer` only runs after the constructor's check.
