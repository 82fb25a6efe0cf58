/**
 `SearchResult` and the result conversion of `DocumentRetriever.search`
 (`deepwiki/retriever.py`). The query embedding and the nearest-neighbour
 query against the store are one abstract function from the number of results
 asked for to the store's reply; distances are exact reals.
 */
module Retriever {
  import opened Wrappers
  import opened Settings
  import opened Chunker

  /** A metadata value as the indexer writes them: a string or an integer. */
  datatype Value = Str(s: string) | Int(i: int)

  type Metadata = map<string, Value>

  /** The metadata dict the indexer stores for a chunk. */
  function MetaDict(m: ChunkMeta): Metadata {
    map["repo_name" := Str(m.repoName), "file_path" := Str(m.filePath), "url" := Str(m.url),
        "chunk_index" := Int(m.chunkIndex), "total_chunks" := Int(m.totalChunks)]
  }

  /** `metadata.get(key, "")`. */
  function Get(m: Metadata, key: string): (v: Value)
    ensures key in m ==> v == m[key]
    ensures key !in m ==> v == Str("")
  {
    if key in m then m[key] else Str("")
  }

  datatype SearchResult = SearchResult(text: string, metadata: Metadata, score: real, repoName: Value, filePath: Value, url: Value)

  /** `SearchResult(text, metadata, score)`: the three location fields are read from the metadata, `""` when absent. */
  function NewSearchResult(text: string, metadata: Metadata, score: real): (r: SearchResult)
    ensures r.text == text && r.metadata == metadata && r.score == score
    ensures r.repoName == Get(metadata, "repo_name")
    ensures r.filePath == Get(metadata, "file_path")
    ensures r.url == Get(metadata, "url")
  {
    SearchResult(text, metadata, score, Get(metadata, "repo_name"), Get(metadata, "file_path"), Get(metadata, "url"))
  }

  /** A result built from an indexed chunk's metadata names that chunk's repository, file and URL. */
  lemma IndexedResultFields(text: string, m: ChunkMeta, score: real)
    ensures NewSearchResult(text, MetaDict(m), score).repoName == Str(m.repoName)
    ensures NewSearchResult(text, MetaDict(m), score).filePath == Str(m.filePath)
    ensures NewSearchResult(text, MetaDict(m), score).url == Str(m.url)
  {
  }

  /** Metadata without the location keys gives empty strings. */
  lemma MissingFieldsExample(text: string, score: real)
    ensures NewSearchResult(text, map[], score).repoName == Str("")
    ensures NewSearchResult(text, map["chunk_index" := Int(0)], score).url == Str("")
  {
  }

  // ================================================================ search

  /** The store's reply to one query: the first (only) row of each field holds the hits in rank order. */
  datatype QueryReply = QueryReply(
    documents: Option<seq<seq<string>>>,
    metadatas: Option<seq<seq<Metadata>>>,
    distances: Option<seq<seq<real>>>)

  /** Why the conversion raised. */
  datatype SearchError = MissingField | ShortRow

  /** `top_k or config.TOP_K`. */
  function ResolveTopK(topK: Option<int>, cfg: Config): (n: int)
    ensures topK.Some? && topK.value != 0 ==> n == topK.value
    ensures topK.None? || topK == Some(0) ==> n == cfg.topK
  {
    OrDefault(topK, cfg.topK)
  }

  /** True when the reply has a non-empty first document row: `results["documents"] and results["documents"][0]`. */
  predicate HasHits(reply: QueryReply) {
    reply.documents.Some? && |reply.documents.value| > 0 && |reply.documents.value[0]| > 0
  }

  /** The hits of one row from position `i` on; fails where a metadata or distance entry is missing. */
  function Zip(docs: seq<string>, metas: seq<Metadata>, dists: seq<real>, i: nat): (r: Result<seq<SearchResult>, SearchError>)
    requires i <= |docs|
    decreases |docs| - i
  {
    if i == |docs| then Success([])
    else if i >= |metas| || i >= |dists| then Failure(ShortRow)
    else
      match Zip(docs, metas, dists, i + 1)
      case Failure(e) => Failure(e)
      case Success(rest) => Success([NewSearchResult(docs[i], metas[i], 1.0 - dists[i])] + rest)
  }

  /** The conversion loop of `search` over a store reply. */
  function Convert(reply: QueryReply): (r: Result<seq<SearchResult>, SearchError>)
    ensures !HasHits(reply) ==> r == Success([])
  {
    if !HasHits(reply) then Success([])
    else if reply.metadatas.None? || reply.distances.None?
         || |reply.metadatas.value| == 0 || |reply.distances.value| == 0 then Failure(MissingField)
    else Zip(reply.documents.value[0], reply.metadatas.value[0], reply.distances.value[0], 0)
  }

  /** What `search` asked the store for, and what it returned or raised. */
  datatype SearchRun = SearchRun(nResults: int, results: Result<seq<SearchResult>, SearchError>)

  /**
   `search(query, top_k)`, with `store` answering a query for `n` results. The
   store is asked for `top_k`, or the configured number when it is unset or 0.
   A reply without hits gives no results; with hits, the conversion succeeds
   exactly when the metadata and distance rows are present and long enough,
   and result `i` then carries document `i`, metadata `i` and `1 - distance i`.
   */
  function Search(topK: Option<int>, cfg: Config, store: int -> QueryReply): (r: SearchRun)
    ensures topK.Some? && topK.value != 0 ==> r.nResults == topK.value
    ensures topK.None? || topK == Some(0) ==> r.nResults == cfg.topK
    ensures !HasHits(store(r.nResults)) ==> r.results == Success([])
    ensures HasHits(store(r.nResults)) ==>
      var reply := store(r.nResults);
      var docs := reply.documents.value[0];
      && (r.results.Success? <==>
          && reply.metadatas.Some? && |reply.metadatas.value| > 0
          && reply.distances.Some? && |reply.distances.value| > 0
          && |docs| <= |reply.metadatas.value[0]|
          && |docs| <= |reply.distances.value[0]|)
      && (r.results.Success? ==>
          && |r.results.value| == |docs|
          && forall i :: 0 <= i < |docs| ==>
            && r.results.value[i].text == docs[i]
            && r.results.value[i].metadata == reply.metadatas.value[0][i]
            && r.results.value[i].score == 1.0 - reply.distances.value[0][i])
  {
    var n := ResolveTopK(topK, cfg);
    var reply := store(n);
    if HasHits(reply) then
      ConvertSpec(reply);
      SearchRun(n, Convert(reply))
    else
      SearchRun(n, Convert(reply))
  }

  // ================================================================ properties

  /** Zipping succeeds exactly when both other rows are long enough, and then result `k` is hit `i + k`. */
  lemma {:induction false} ZipSpec(docs: seq<string>, metas: seq<Metadata>, dists: seq<real>, i: nat)
    requires i <= |docs|
    ensures Zip(docs, metas, dists, i).Success? <==> (i == |docs| || (|docs| <= |metas| && |docs| <= |dists|))
    ensures Zip(docs, metas, dists, i).Success? ==>
      var rs := Zip(docs, metas, dists, i).value;
      && |rs| == |docs| - i
      && forall k :: 0 <= k < |rs| ==> rs[k] == NewSearchResult(docs[i + k], metas[i + k], 1.0 - dists[i + k])
    decreases |docs| - i
  {
    if i < |docs| {
      ZipSpec(docs, metas, dists, i + 1);
      if Zip(docs, metas, dists, i).Success? {
        var rs := Zip(docs, metas, dists, i).value;
        var rest := Zip(docs, metas, dists, i + 1).value;
        assert rs == [NewSearchResult(docs[i], metas[i], 1.0 - dists[i])] + rest;
      }
    }
  }

  /**
   With hits, the conversion succeeds exactly when the metadata and distance
   rows are at least as long as the document row; the results then follow the
   document row in order, result `i` carrying document `i`, metadata `i` and
   score `1 - distance i`.
   */
  lemma ConvertSpec(reply: QueryReply)
    requires HasHits(reply)
    ensures Convert(reply).Success? <==>
      && reply.metadatas.Some? && |reply.metadatas.value| > 0
      && reply.distances.Some? && |reply.distances.value| > 0
      && |reply.documents.value[0]| <= |reply.metadatas.value[0]|
      && |reply.documents.value[0]| <= |reply.distances.value[0]|
    ensures Convert(reply).Success? ==>
      var rs := Convert(reply).value;
      var docs := reply.documents.value[0];
      && |rs| == |docs|
      && forall i :: 0 <= i < |rs| ==>
        && rs[i].text == docs[i]
        && rs[i].metadata == reply.metadatas.value[0][i]
        && rs[i].score == 1.0 - reply.distances.value[0][i]
  {
    if reply.metadatas.Some? && reply.distances.Some? && |reply.metadatas.value| > 0 && |reply.distances.value| > 0 {
      ZipSpec(reply.documents.value[0], reply.metadatas.value[0], reply.distances.value[0], 0);
    }
  }

  /** Distances in non-decreasing order give scores in non-increasing order. */
  lemma ScoresDescend(reply: QueryReply)
    requires Convert(reply).Success?
    requires reply.distances.Some? && |reply.distances.value| > 0
    requires forall i, j :: 0 <= i <= j < |reply.distances.value[0]| ==> reply.distances.value[0][i] <= reply.distances.value[0][j]
    ensures forall i, j :: 0 <= i <= j < |Convert(reply).value| ==> Convert(reply).value[i].score >= Convert(reply).value[j].score
  {
    if HasHits(reply) {
      ConvertSpec(reply);
    }
  }

  /** A reply with no document row, an empty one, or an empty first row, gives no results whatever else it holds. */
  lemma NoHitsExample(m: Option<seq<seq<Metadata>>>, d: Option<seq<seq<real>>>)
    ensures Convert(QueryReply(None, m, d)) == Success([])
    ensures Convert(QueryReply(Some([]), m, d)) == Success([])
    ensures Convert(QueryReply(Some([[]]), m, d)) == Success([])
  {
  }

  /** Without `top_k` the store is asked for the configured five results. */
  lemma DefaultTopK(store: int -> QueryReply)
    ensures Search(None, Default, store).nResults == 5
    ensures Search(Some(0), Default, store).nResults == 5
  {
  }
}
