/**
 `DocumentChunker` (`deepwiki/indexer.py`): a header pass that cuts a Markdown
 text into segments at ATX header lines, then a size pass that re-splits every
 segment longer than `chunk_size` with a sliding window, then metadata.
 */
module Chunker {
  import opened Wrappers
  import opened Text
  import opened Slicing
  import opened Settings
  import opened Crawler
  import opened Headers
  import opened Windows

  datatype Chunker = Chunker(chunkSize: int, chunkOverlap: int)

  /** `DocumentChunker.__init__`: an argument of `None` or `0` falls back to the configuration. */
  function NewChunker(chunkSize: Option<int>, chunkOverlap: Option<int>, cfg: Config): (c: Chunker)
    ensures chunkSize.Some? && chunkSize.value != 0 ==> c.chunkSize == chunkSize.value
    ensures chunkSize.None? || chunkSize == Some(0) ==> c.chunkSize == cfg.chunkSize
    ensures chunkOverlap.Some? && chunkOverlap.value != 0 ==> c.chunkOverlap == chunkOverlap.value
    ensures chunkOverlap.None? || chunkOverlap == Some(0) ==> c.chunkOverlap == cfg.chunkOverlap
  {
    Chunker(OrDefault(chunkSize, cfg.chunkSize), OrDefault(chunkOverlap, cfg.chunkOverlap))
  }

  lemma DefaultChunker(chunkSize: Option<int>, chunkOverlap: Option<int>)
    requires chunkSize.None? || chunkSize == Some(0)
    requires chunkOverlap.None? || chunkOverlap == Some(0)
    ensures NewChunker(chunkSize, chunkOverlap, Default) == Chunker(1000, 200)
  {
  }

  /** The `metadata` dict of one chunk. */
  datatype ChunkMeta = ChunkMeta(repoName: string, filePath: string, url: string, chunkIndex: nat, totalChunks: nat)

  /** One chunk dict: its text and its metadata. */
  datatype Chunk = Chunk(text: string, meta: ChunkMeta)

  /**
   The loop over header segments in `chunk_document`: a segment longer than
   `chunk_size` is replaced by its size pieces, any other is kept as it is.
   `None` when a size pass does not stop within `fuel` windows.
   */
  function SizePass(c: Chunker, segments: seq<string>, fuel: nat): (r: Option<seq<string>>)
    decreases |segments|
  {
    if |segments| == 0 then Some([])
    else
      var head := if |segments[0]| > c.chunkSize
        then SplitBySize(segments[0], c.chunkSize, c.chunkOverlap, fuel)
        else Some([segments[0]]);
      match head
      case None => None
      case Some(pieces) =>
        match SizePass(c, segments[1..], fuel)
        case None => None
        case Some(rest) => Some(pieces + rest)
  }

  /** The chunk dicts built from the final texts of `doc`, in order. */
  function Label(doc: Document, texts: seq<string>): (r: seq<Chunk>)
    ensures |r| == |texts|
    ensures forall i :: 0 <= i < |r| ==>
      && r[i].text == texts[i]
      && r[i].meta == ChunkMeta(doc.repoName, doc.path, doc.url, i, |texts|)
  {
    seq(|texts|, i requires 0 <= i < |texts| => Chunk(texts[i], ChunkMeta(doc.repoName, doc.path, doc.url, i, |texts|)))
  }

  function Texts(chunks: seq<Chunk>): (r: seq<string>)
    ensures |r| == |chunks|
    ensures forall i :: 0 <= i < |chunks| ==> r[i] == chunks[i].text
  {
    seq(|chunks|, i requires 0 <= i < |chunks| => chunks[i].text)
  }

  /** `chunk_document(doc)`, with at most `fuel` windows per long segment. */
  function ChunkDocument(c: Chunker, doc: Document, fuel: nat): (r: Option<seq<Chunk>>)
    ensures r.Some? ==> forall i :: 0 <= i < |r.value| ==>
      && r.value[i].meta.chunkIndex == i
      && r.value[i].meta.totalChunks == |r.value|
      && r.value[i].meta.repoName == doc.repoName
      && r.value[i].meta.filePath == doc.path
      && r.value[i].meta.url == doc.url
  {
    match SizePass(c, SplitByHeaders(doc.content), fuel)
    case None => None
    case Some(texts) => Some(Label(doc, texts))
  }

  // ================================================================ properties

  /** Labelling keeps the texts: reading them back gives the input. */
  lemma LabelTexts(doc: Document, texts: seq<string>)
    ensures Texts(Label(doc, texts)) == texts
  {
  }

  /** With `0 <= overlap <= size` no final text is longer than `size`. */
  lemma {:induction false} SizePassBounded(c: Chunker, segments: seq<string>, fuel: nat)
    requires 0 <= c.chunkOverlap <= c.chunkSize
    requires SizePass(c, segments, fuel).Some?
    ensures AllWithin(SizePass(c, segments, fuel).value, c.chunkSize)
    decreases |segments|
  {
    if |segments| > 0 {
      var seg := segments[0];
      var pieces := if |seg| > c.chunkSize then SplitBySize(seg, c.chunkSize, c.chunkOverlap, fuel).value else [seg];
      if |seg| > c.chunkSize {
        SplitBySizeBounded(seg, c.chunkSize, c.chunkOverlap, fuel);
      }
      SizePassBounded(c, segments[1..], fuel);
      var rest := SizePass(c, segments[1..], fuel).value;
      assert SizePass(c, segments, fuel).value == pieces + rest;
    }
  }

  /** With `0 <= overlap <= size` no chunk is longer than `chunk_size`. */
  lemma ChunksBounded(c: Chunker, doc: Document, fuel: nat)
    requires 0 <= c.chunkOverlap <= c.chunkSize
    requires ChunkDocument(c, doc, fuel).Some?
    ensures forall i :: 0 <= i < |ChunkDocument(c, doc, fuel).value| ==>
      |ChunkDocument(c, doc, fuel).value[i].text| <= c.chunkSize
  {
    SizePassBounded(c, SplitByHeaders(doc.content), fuel);
  }

  /** Segments no longer than `size` pass through unchanged. */
  lemma {:induction false} SizePassShort(c: Chunker, segments: seq<string>, fuel: nat)
    requires forall k :: 0 <= k < |segments| ==> |segments[k]| <= c.chunkSize
    ensures SizePass(c, segments, fuel) == Some(segments)
    decreases |segments|
  {
    if |segments| > 0 {
      SizePassShort(c, segments[1..], fuel);
      assert [segments[0]] + segments[1..] == segments;
    }
  }

  /**
   When every header segment fits, the chunks are the header segments
   themselves, and joining their texts with line feeds gives the document back.
   */
  lemma ShortDocumentVerbatim(c: Chunker, doc: Document, fuel: nat)
    requires forall k :: 0 <= k < |SplitByHeaders(doc.content)| ==> |SplitByHeaders(doc.content)[k]| <= c.chunkSize
    ensures ChunkDocument(c, doc, fuel) == Some(Label(doc, SplitByHeaders(doc.content)))
    ensures Join(Texts(ChunkDocument(c, doc, fuel).value), "\n") == doc.content
  {
    SizePassShort(c, SplitByHeaders(doc.content), fuel);
    SplitByHeadersSpec(doc.content);
    LabelTexts(doc, SplitByHeaders(doc.content));
  }

  /** With a non-negative `chunk_size` there is always a chunk, even for an empty document. */
  lemma {:induction false} SizePassNonEmpty(c: Chunker, segments: seq<string>, fuel: nat)
    requires 0 <= c.chunkSize && |segments| > 0
    requires SizePass(c, segments, fuel).Some?
    ensures |SizePass(c, segments, fuel).value| > 0
  {
    var seg := segments[0];
    if |seg| > c.chunkSize {
      SplitBySizeStripped(seg, c.chunkSize, c.chunkOverlap, fuel);
    }
  }

  lemma AtLeastOneChunk(c: Chunker, doc: Document, fuel: nat)
    requires 0 <= c.chunkSize
    requires ChunkDocument(c, doc, fuel).Some?
    ensures |ChunkDocument(c, doc, fuel).value| >= 1
  {
    SplitByHeadersSpec(doc.content);
    SizePassNonEmpty(c, SplitByHeaders(doc.content), fuel);
  }

  /** A negative `chunk_size` sends even an empty segment to the size pass, which emits nothing for it. */
  lemma NegativeSizeEmptyDocument(c: Chunker, doc: Document, fuel: nat)
    requires c.chunkSize < 0 && doc.content == ""
    ensures ChunkDocument(c, doc, fuel) == Some([])
  {
    HeaderEmptyExample();
    assert SplitBySize("", c.chunkSize, c.chunkOverlap, fuel) == Some([]);
  }

  /** More fuel never changes a finished size pass. */
  lemma {:induction false} SizePassFuelMonotone(c: Chunker, segments: seq<string>, fuel: nat, more: nat)
    requires fuel <= more
    requires SizePass(c, segments, fuel).Some?
    ensures SizePass(c, segments, more) == SizePass(c, segments, fuel)
    decreases |segments|
  {
    if |segments| > 0 {
      if |segments[0]| > c.chunkSize {
        SplitBySizeFuelMonotone(segments[0], c.chunkSize, c.chunkOverlap, fuel, more);
      }
      SizePassFuelMonotone(c, segments[1..], fuel, more);
    }
  }

  lemma ChunkDocumentFuelMonotone(c: Chunker, doc: Document, fuel: nat, more: nat)
    requires fuel <= more
    requires ChunkDocument(c, doc, fuel).Some?
    ensures ChunkDocument(c, doc, more) == ChunkDocument(c, doc, fuel)
  {
    SizePassFuelMonotone(c, SplitByHeaders(doc.content), fuel, more);
  }

  /** A document without line feeds, with `0 <= overlap < size`, is chunked within `|content|` windows. */
  lemma NoBreaksChunked(c: Chunker, doc: Document, fuel: nat)
    requires '\n' !in doc.content
    requires 0 <= c.chunkOverlap < c.chunkSize
    requires |doc.content| <= fuel
    ensures ChunkDocument(c, doc, fuel).Some?
  {
    var segs := SplitByHeaders(doc.content);
    SingleLineSegment(doc.content);
    if |doc.content| > c.chunkSize {
      NoBreaksTerminates(doc.content, c.chunkSize, c.chunkOverlap, fuel);
    }
    assert segs[1..] == [];
    assert SizePass(c, segs[1..], fuel) == Some([]);
    assert SizePass(c, segs, fuel).Some?;
  }

  // ================================================================ examples

  /** An empty document yields one empty chunk. */
  lemma EmptyDocumentExample(doc: Document, fuel: nat)
    requires doc.content == ""
    ensures ChunkDocument(Chunker(1000, 200), doc, fuel) == Some([Chunk("", ChunkMeta(doc.repoName, doc.path, doc.url, 0, 1))])
  {
    HeaderEmptyExample();
    ShortDocumentVerbatim(Chunker(1000, 200), doc, fuel);
    var r := Label(doc, [""]);
    assert r == [r[0]];
  }

  /** Two header segments that fit become two chunks, numbered 0 and 1 of 2. */
  lemma TwoShortSegments(c: Chunker, doc: Document, fuel: nat, a: string, b: string)
    requires SplitByHeaders(doc.content) == [a, b]
    requires |a| <= c.chunkSize && |b| <= c.chunkSize
    ensures ChunkDocument(c, doc, fuel) == Some([
      Chunk(a, ChunkMeta(doc.repoName, doc.path, doc.url, 0, 2)),
      Chunk(b, ChunkMeta(doc.repoName, doc.path, doc.url, 1, 2))])
  {
    SizePassShort(c, [a, b], fuel);
    var r := Label(doc, [a, b]);
    assert r == [r[0], r[1]];
  }

  lemma TwoSectionExample(doc: Document, fuel: nat)
    requires doc.content == "# A\nfoo bar\n# B\nbaz"
    ensures ChunkDocument(Chunker(1000, 200), doc, fuel) == Some([
      Chunk("# A\nfoo bar", ChunkMeta(doc.repoName, doc.path, doc.url, 0, 2)),
      Chunk("# B\nbaz", ChunkMeta(doc.repoName, doc.path, doc.url, 1, 2))])
  {
    HeaderSegmentsExample();
    TwoShortSegments(Chunker(1000, 200), doc, fuel, "# A\nfoo bar", "# B\nbaz");
  }
}
