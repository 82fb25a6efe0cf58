/**
 The bookkeeping of `VectorIndexer` (`deepwiki/indexer.py`). The vector store
 is an in-memory sequence of entries in insertion order, and the embedding
 model is a function from one text to its vector: a request for a batch of
 texts answers with one vector per text, in order.
 */
module Indexer {
  import opened Wrappers
  import opened Text
  import opened Lex
  import opened Crawler
  import opened Chunker
  import opened Headers

  type Vector = seq<real>

  /** One stored record: the id, embedding, document text and metadata given to `collection.add`. */
  datatype Entry = Entry(id: string, embedding: Vector, text: string, meta: ChunkMeta)

  /** Texts per `collection.add` call and per embedding request in `index_documents`. */
  const AddBatchSize: nat := 50
  const EmbedBatchSize: nat := 100

  function Min(a: int, b: int): int {
    if a <= b then a else b
  }

  // ================================================================ ids

  /** The id of the `i`-th chunk of one call: `repo::path::i`. */
  function MakeId(repo: string, path: string, i: nat): string {
    repo + "::" + path + "::" + NatToString(i)
  }

  /** The number of decimal digits at the end of `s`. */
  function TrailingDigits(s: string): (n: nat)
    ensures n <= |s|
    ensures forall i :: |s| - n <= i < |s| ==> IsDigit(s[i])
    ensures n < |s| ==> !IsDigit(s[|s| - n - 1])
  {
    if |s| == 0 || !IsDigit(s[|s| - 1]) then 0 else 1 + TrailingDigits(s[..|s| - 1])
  }

  /** After a colon, a numeral is exactly the trailing digits. */
  lemma {:induction false} TrailingNumeral(p: string, a: string)
    requires |p| > 0 && p[|p| - 1] == ':'
    requires forall i :: 0 <= i < |a| ==> IsDigit(a[i])
    ensures TrailingDigits(p + a) == |a|
    decreases |a|
  {
    if |a| > 0 {
      var front := a[..|a| - 1];
      assert (p + a)[..|p + a| - 1] == p + front;
      TrailingNumeral(p, front);
    } else {
      assert p + a == p;
    }
  }

  /** Two strings that end in a colon, each followed by a decimal numeral, agree only if the numerals do. */
  lemma NumeralSuffix(p: string, q: string, a: string, b: string)
    requires |p| > 0 && p[|p| - 1] == ':' && |q| > 0 && q[|q| - 1] == ':'
    requires forall i :: 0 <= i < |a| ==> IsDigit(a[i])
    requires forall i :: 0 <= i < |b| ==> IsDigit(b[i])
    requires p + a == q + b
    ensures a == b
  {
    TrailingNumeral(p, a);
    TrailingNumeral(q, b);
    var s := p + a;
    assert a == s[|s| - |a|..];
    assert b == s[|s| - |b|..];
  }

  /**
   Ids of different positions differ, whatever the repository names and paths:
   the counter is the digits after the last colon.
   */
  lemma IdsDistinct(r1: string, p1: string, i: nat, r2: string, p2: string, j: nat)
    requires i != j
    ensures MakeId(r1, p1, i) != MakeId(r2, p2, j)
  {
    if MakeId(r1, p1, i) == MakeId(r2, p2, j) {
      var a := r1 + "::" + p1 + "::";
      var b := r2 + "::" + p2 + "::";
      assert MakeId(r1, p1, i) == a + NatToString(i);
      assert MakeId(r2, p2, j) == b + NatToString(j);
      NumeralSuffix(a, b, NatToString(i), NatToString(j));
      NatToStringInjective(i, j);
    }
  }

  // ================================================================ embeddings

  /** What `_generate_embeddings` returns, with the texts of each embedding request it makes. */
  datatype EmbedRun = EmbedRun(vectors: seq<Vector>, requests: seq<seq<string>>)

  /** `_generate_embeddings(texts)`: one request per run of at most 100 consecutive texts. */
  function GenerateEmbeddings(texts: seq<string>, embed: string -> Vector): (r: EmbedRun)
    ensures |r.vectors| == |texts|
    ensures forall k :: 0 <= k < |texts| ==> r.vectors[k] == embed(texts[k])
    decreases |texts|
  {
    if |texts| == 0 then EmbedRun([], [])
    else
      var n := Min(EmbedBatchSize, |texts|);
      var batch := texts[..n];
      var reply := seq(n, k requires 0 <= k < n => embed(batch[k]));
      var rest := GenerateEmbeddings(texts[n..], embed);
      EmbedRun(reply + rest.vectors, [batch] + rest.requests)
  }

  /** The requests are non-empty runs of at most 100 texts that together are the input, in order. */
  lemma {:induction false} EmbeddingRequests(texts: seq<string>, embed: string -> Vector)
    ensures forall b :: 0 <= b < |GenerateEmbeddings(texts, embed).requests| ==>
      0 < |GenerateEmbeddings(texts, embed).requests[b]| <= EmbedBatchSize
    ensures Flatten(GenerateEmbeddings(texts, embed).requests) == texts
    ensures |texts| <= EmbedBatchSize ==> GenerateEmbeddings(texts, embed).requests == (if texts == [] then [] else [texts])
    decreases |texts|
  {
    if |texts| > 0 {
      var n := Min(EmbedBatchSize, |texts|);
      EmbeddingRequests(texts[n..], embed);
      assert texts[..n] + texts[n..] == texts;
      if |texts| <= EmbedBatchSize {
        assert texts[n..] == [] && texts[..n] == texts;
        assert GenerateEmbeddings(texts[n..], embed).requests == [];
      }
    }
  }

  // ================================================================ index_documents

  /** The chunks of all documents, in order; `None` when some document's size pass does not stop within `fuel`. */
  function ChunkAll(c: Chunker, docs: seq<Document>, fuel: nat): (r: Option<seq<Chunk>>)
    decreases |docs|
  {
    if |docs| == 0 then Some([])
    else
      match ChunkDocument(c, docs[0], fuel)
      case None => None
      case Some(first) =>
        match ChunkAll(c, docs[1..], fuel)
        case None => None
        case Some(rest) => Some(first + rest)
  }

  /** The entry the `i`-th chunk of a call becomes. */
  function EntryOf(ch: Chunk, i: nat, embed: string -> Vector): Entry {
    Entry(MakeId(ch.meta.repoName, ch.meta.filePath, i), embed(ch.text), ch.text, ch.meta)
  }

  /** The entries a call adds for `chunks`, as one block. */
  function Entries(chunks: seq<Chunk>, embed: string -> Vector, from: nat): (r: seq<Entry>)
    ensures |r| == |chunks|
    ensures forall i :: 0 <= i < |chunks| ==> r[i] == EntryOf(chunks[i], from + i, embed)
  {
    seq(|chunks|, i requires 0 <= i < |chunks| => EntryOf(chunks[i], from + i, embed))
  }

  /** One `collection.add` call: the chunk positions `[lo, hi)` and the embedding requests made for them. */
  datatype Batch = Batch(lo: nat, hi: nat, requests: seq<seq<string>>)

  datatype Flushed = Flushed(store: seq<Entry>, batches: seq<Batch>)

  /** The entries of one batch: chunk positions `[lo, hi)` with the vectors of its embedding requests. */
  function BatchEntries(chunks: seq<Chunk>, lo: nat, hi: nat, vectors: seq<Vector>): (r: seq<Entry>)
    requires lo <= hi <= |chunks| && |vectors| == hi - lo
    ensures |r| == hi - lo
  {
    seq(hi - lo, k requires 0 <= k < hi - lo =>
      Entry(MakeId(chunks[lo + k].meta.repoName, chunks[lo + k].meta.filePath, lo + k), vectors[k], chunks[lo + k].text, chunks[lo + k].meta))
  }

  /** The batch loop of `index_documents` from chunk position `lo` on. */
  function AddBatches(store: seq<Entry>, chunks: seq<Chunk>, embed: string -> Vector, lo: nat): (r: Flushed)
    requires lo <= |chunks|
    decreases |chunks| - lo
  {
    if lo == |chunks| then Flushed(store, [])
    else
      var hi := Min(lo + AddBatchSize, |chunks|);
      var e := GenerateEmbeddings(Texts(chunks[lo..hi]), embed);
      var rest := AddBatches(store + BatchEntries(chunks, lo, hi, e.vectors), chunks, embed, hi);
      Flushed(rest.store, [Batch(lo, hi, e.requests)] + rest.batches)
  }

  /** What `index_documents` returns, with the store after the call and the batches it wrote. */
  datatype IndexRun = IndexRun(count: nat, store: seq<Entry>, batches: seq<Batch>)

  /** `index_documents(docs)` against `store`. */
  function IndexDocuments(c: Chunker, store: seq<Entry>, docs: seq<Document>, embed: string -> Vector, fuel: nat): (r: Option<IndexRun>)
  {
    match ChunkAll(c, docs, fuel)
    case None => None
    case Some(chunks) =>
      var f := AddBatches(store, chunks, embed, 0);
      Some(IndexRun(|chunks|, f.store, f.batches))
  }

  /** Batches are non-empty, at most 50 long, contiguous from `lo` to the end, and each is one embedding request. */
  predicate BatchesCover(batches: seq<Batch>, chunks: seq<Chunk>, lo: nat) {
    && (forall b :: 0 <= b < |batches| ==>
          && batches[b].lo < batches[b].hi <= |chunks|
          && batches[b].hi - batches[b].lo <= AddBatchSize
          && batches[b].requests == [Texts(chunks[batches[b].lo..batches[b].hi])])
    && (|batches| == 0 ==> lo == |chunks|)
    && (|batches| > 0 ==> batches[0].lo == lo && batches[|batches| - 1].hi == |chunks|)
    && (forall b :: 0 <= b < |batches| - 1 ==> batches[b].hi == batches[b + 1].lo)
  }

  /** A batch's entries are the reference entries of its positions. */
  lemma BatchEntriesAgree(chunks: seq<Chunk>, embed: string -> Vector, lo: nat, hi: nat)
    requires lo < hi <= |chunks|
    ensures BatchEntries(chunks, lo, hi, GenerateEmbeddings(Texts(chunks[lo..hi]), embed).vectors)
         == Entries(chunks[lo..hi], embed, lo)
  {
  }

  /** The entries from `lo` on are those of `[lo, hi)` followed by those from `hi` on. */
  lemma EntriesSplit(chunks: seq<Chunk>, embed: string -> Vector, lo: nat, hi: nat)
    requires lo <= hi <= |chunks|
    ensures Entries(chunks[lo..hi], embed, lo) + Entries(chunks[hi..], embed, hi) == Entries(chunks[lo..], embed, lo)
  {
    var a := Entries(chunks[lo..hi], embed, lo);
    var b := Entries(chunks[hi..], embed, hi);
    var c := Entries(chunks[lo..], embed, lo);
    forall i | 0 <= i < |c| ensures (a + b)[i] == c[i] {
      if i < |a| {
        assert chunks[lo..hi][i] == chunks[lo..][i];
      } else {
        assert chunks[hi..][i - |a|] == chunks[lo..][i];
      }
    }
  }

  /** The batch loop appends exactly the entries of the one-block reference, in order, after the existing ones. */
  lemma {:induction false} AddBatchesStore(store: seq<Entry>, chunks: seq<Chunk>, embed: string -> Vector, lo: nat)
    requires lo <= |chunks|
    ensures AddBatches(store, chunks, embed, lo).store == store + Entries(chunks[lo..], embed, lo)
    decreases |chunks| - lo
  {
    if lo < |chunks| {
      var hi := Min(lo + AddBatchSize, |chunks|);
      var block := Entries(chunks[lo..hi], embed, lo);
      BatchEntriesAgree(chunks, embed, lo, hi);
      assert AddBatches(store, chunks, embed, lo).store == AddBatches(store + block, chunks, embed, hi).store;
      AddBatchesStore(store + block, chunks, embed, hi);
      EntriesSplit(chunks, embed, lo, hi);
    }
  }

  /** The batches of the loop cover the chunks from `lo` on. */
  lemma {:induction false} AddBatchesCover(store: seq<Entry>, chunks: seq<Chunk>, embed: string -> Vector, lo: nat)
    requires lo <= |chunks|
    ensures BatchesCover(AddBatches(store, chunks, embed, lo).batches, chunks, lo)
    decreases |chunks| - lo
  {
    if lo < |chunks| {
      var hi := Min(lo + AddBatchSize, |chunks|);
      var texts := Texts(chunks[lo..hi]);
      var e := GenerateEmbeddings(texts, embed);
      EmbeddingRequests(texts, embed);
      var next := store + BatchEntries(chunks, lo, hi, e.vectors);
      AddBatchesCover(next, chunks, embed, hi);
      var rest := AddBatches(next, chunks, embed, hi).batches;
      assert AddBatches(store, chunks, embed, lo).batches == [Batch(lo, hi, [texts])] + rest;
    }
  }

  /**
   `index_documents` returns the number of chunks of all documents, appends
   one entry per chunk after the existing ones, and writes batches that cover
   the chunks in order.
   */
  lemma IndexDocumentsSpec(c: Chunker, store: seq<Entry>, docs: seq<Document>, embed: string -> Vector, fuel: nat)
    requires IndexDocuments(c, store, docs, embed, fuel).Some?
    ensures ChunkAll(c, docs, fuel).Some?
    ensures var run := IndexDocuments(c, store, docs, embed, fuel).value;
      var chunks := ChunkAll(c, docs, fuel).value;
      && run.count == |chunks|
      && run.store == store + Entries(chunks, embed, 0)
      && BatchesCover(run.batches, chunks, 0)
  {
    var chunks := ChunkAll(c, docs, fuel).value;
    AddBatchesStore(store, chunks, embed, 0);
    AddBatchesCover(store, chunks, embed, 0);
    assert chunks[0..] == chunks;
  }

  /** The count is the sum of the per-document chunk counts. */
  lemma {:induction false} ChunkAllCount(c: Chunker, docs: seq<Document>, fuel: nat)
    requires ChunkAll(c, docs, fuel).Some?
    ensures forall d :: 0 <= d < |docs| ==> ChunkDocument(c, docs[d], fuel).Some?
    ensures |ChunkAll(c, docs, fuel).value| == ChunkCount(c, docs, fuel)
    decreases |docs|
  {
    if |docs| > 0 {
      ChunkAllCount(c, docs[1..], fuel);
      assert forall d :: 1 <= d < |docs| ==> docs[d] == docs[1..][d - 1];
    }
  }

  /** The sum of the per-document chunk counts (a document that does not finish counts 0). */
  function ChunkCount(c: Chunker, docs: seq<Document>, fuel: nat): nat
    decreases |docs|
  {
    if |docs| == 0 then 0
    else
      var n := match ChunkDocument(c, docs[0], fuel) case None => 0 case Some(cs) => |cs|;
      n + ChunkCount(c, docs[1..], fuel)
  }

  /** No documents: count 0, no batch, the store unchanged. */
  lemma IndexNothing(c: Chunker, store: seq<Entry>, embed: string -> Vector, fuel: nat)
    ensures IndexDocuments(c, store, [], embed, fuel) == Some(IndexRun(0, store, []))
  {
  }

  /** Within one call the ids of the new entries are pairwise distinct. */
  lemma NewIdsDistinct(chunks: seq<Chunk>, embed: string -> Vector, i: nat, j: nat)
    requires i < |chunks| && j < |chunks| && i != j
    ensures Entries(chunks, embed, 0)[i].id != Entries(chunks, embed, 0)[j].id
  {
    var ci := chunks[i].meta;
    var cj := chunks[j].meta;
    IdsDistinct(ci.repoName, ci.filePath, i, cj.repoName, cj.filePath, j);
  }

  // ================================================================ maintenance

  function RepoEntries(store: seq<Entry>, repo: string): (r: seq<Entry>)
    ensures |r| <= |store|
    ensures forall e :: e in r <==> e in store && e.meta.repoName == repo
  {
    if |store| == 0 then []
    else (if store[0].meta.repoName == repo then [store[0]] else []) + RepoEntries(store[1..], repo)
  }

  function OtherEntries(store: seq<Entry>, repo: string): (r: seq<Entry>)
    ensures |r| <= |store|
    ensures forall e :: e in r <==> e in store && e.meta.repoName != repo
  {
    if |store| == 0 then []
    else (if store[0].meta.repoName != repo then [store[0]] else []) + OtherEntries(store[1..], repo)
  }

  /** `clear_repository(repo)`: deletes the entries of `repo` when there are any. */
  function ClearRepository(store: seq<Entry>, repo: string): (r: seq<Entry>)
    ensures forall e :: e in r <==> e in store && e.meta.repoName != repo
  {
    if |RepoEntries(store, repo)| > 0 then OtherEntries(store, repo) else store
  }

  /** A store without entries of `repo` has none to list. */
  lemma {:induction false} NoRepoEntries(store: seq<Entry>, repo: string)
    requires forall i :: 0 <= i < |store| ==> store[i].meta.repoName != repo
    ensures RepoEntries(store, repo) == []
    decreases |store|
  {
    if |store| > 0 {
      NoRepoEntries(store[1..], repo);
    }
  }

  /** The entries of a repository and the rest split the store. */
  lemma {:induction false} PartitionCount(store: seq<Entry>, repo: string)
    ensures |RepoEntries(store, repo)| + |OtherEntries(store, repo)| == |store|
    ensures |RepoEntries(store, repo)| == 0 ==> OtherEntries(store, repo) == store
    decreases |store|
  {
    if |store| > 0 {
      var tail := store[1..];
      PartitionCount(tail, repo);
      if store[0].meta.repoName == repo {
        assert RepoEntries(store, repo) == [store[0]] + RepoEntries(tail, repo);
        assert OtherEntries(store, repo) == OtherEntries(tail, repo);
      } else {
        assert RepoEntries(store, repo) == RepoEntries(tail, repo);
        assert OtherEntries(store, repo) == [store[0]] + OtherEntries(tail, repo);
        assert [store[0]] + tail == store;
      }
    }
  }

  /** Clearing removes exactly the entries of the repository, keeping the others in order. */
  lemma ClearCount(store: seq<Entry>, repo: string)
    ensures ClearRepository(store, repo) == OtherEntries(store, repo)
    ensures |ClearRepository(store, repo)| == |store| - |RepoEntries(store, repo)|
  {
    PartitionCount(store, repo);
  }

  /** Clearing is idempotent. */
  lemma ClearIdempotent(store: seq<Entry>, repo: string)
    ensures ClearRepository(ClearRepository(store, repo), repo) == ClearRepository(store, repo)
  {
    var s1 := ClearRepository(store, repo);
    forall i | 0 <= i < |s1| ensures s1[i].meta.repoName != repo {
      assert s1[i] in s1;
    }
    NoRepoEntries(s1, repo);
  }

  /** Clearing one repository leaves every other repository's entries as they were, in order. */
  lemma {:induction false} ClearKeepsOthers(store: seq<Entry>, repo: string, other: string)
    requires other != repo
    ensures RepoEntries(ClearRepository(store, repo), other) == RepoEntries(store, other)
  {
    PartitionCount(store, repo);
    OtherKeepsRepo(store, repo, other);
  }

  lemma {:induction false} OtherKeepsRepo(store: seq<Entry>, repo: string, other: string)
    requires other != repo
    ensures RepoEntries(OtherEntries(store, repo), other) == RepoEntries(store, other)
    decreases |store|
  {
    if |store| > 0 {
      OtherKeepsRepo(store[1..], repo, other);
      var head := if store[0].meta.repoName != repo then [store[0]] else [];
      RepoEntriesAppend(head, OtherEntries(store[1..], repo), other);
    }
  }

  lemma {:induction false} RepoEntriesAppend(a: seq<Entry>, b: seq<Entry>, repo: string)
    ensures RepoEntries(a + b, repo) == RepoEntries(a, repo) + RepoEntries(b, repo)
    decreases |a|
  {
    if |a| > 0 {
      assert (a + b)[1..] == a[1..] + b;
      RepoEntriesAppend(a[1..], b, repo);
    } else {
      assert a + b == b;
    }
  }

  /** `clear_all()`: the collection is dropped and created empty. */
  function ClearAll(store: seq<Entry>): (r: seq<Entry>)
    ensures |r| == 0
  {
    []
  }

  function RepoNames(store: seq<Entry>): (r: seq<string>)
    ensures |r| == |store|
    ensures forall i :: 0 <= i < |store| ==> r[i] == store[i].meta.repoName
  {
    seq(|store|, i requires 0 <= i < |store| => store[i].meta.repoName)
  }

  /** Some entry of `store` belongs to repository `x`. */
  predicate Holds(store: seq<Entry>, x: string) {
    exists e :: e in store && e.meta.repoName == x
  }

  lemma NamesHeld(store: seq<Entry>, x: string)
    ensures x in RepoNames(store) <==> Holds(store, x)
  {
    var names := RepoNames(store);
    if x in names {
      var i :| 0 <= i < |names| && names[i] == x;
      assert store[i] in store;
    }
    if Holds(store, x) {
      var e :| e in store && e.meta.repoName == x;
      var i :| 0 <= i < |store| && store[i] == e;
      assert names[i] == x;
    }
  }

  /** `list_repositories()`: the distinct repository names of the store, sorted. */
  function ListRepositories(store: seq<Entry>): (r: seq<string>)
    ensures StrictlySorted(r)
    ensures forall x :: x in r <==> Holds(store, x)
  {
    var r := SortedDistinct(RepoNames(store));
    assert forall x :: x in r <==> x in Elements(r);
    forall x ensures x in RepoNames(store) <==> Holds(store, x) {
      NamesHeld(store, x);
    }
    r
  }

  /** The listing is determined by the set of names: any sorted duplicate-free list of them equals it. */
  lemma ListingUnique(store: seq<Entry>, names: seq<string>)
    requires StrictlySorted(names)
    requires forall x :: x in names <==> Holds(store, x)
    ensures ListRepositories(store) == names
  {
    var r := ListRepositories(store);
    assert Elements(r) == Elements(names);
    StrictlySortedUnique(r, names);
  }

  /** After clearing a repository it is no longer listed, and every other one still is. */
  lemma ClearUnlists(store: seq<Entry>, repo: string)
    ensures repo !in ListRepositories(ClearRepository(store, repo))
    ensures forall x :: x != repo ==> (x in ListRepositories(ClearRepository(store, repo)) <==> x in ListRepositories(store))
  {
  }

  /** `get_stats()`. */
  datatype Stats = Stats(totalChunks: nat, totalRepositories: nat, repositories: seq<string>)

  function GetStats(store: seq<Entry>): (r: Stats)
    ensures r.totalChunks == |store|
    ensures r.repositories == ListRepositories(store) && r.totalRepositories == |r.repositories|
  {
    var repos := ListRepositories(store);
    Stats(|store|, |repos|, repos)
  }

  lemma ClearAllStats(store: seq<Entry>)
    ensures GetStats(ClearAll(store)) == Stats(0, 0, [])
  {
    ListingUnique(ClearAll(store), []);
  }
}
