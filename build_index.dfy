/**
 * The chunk-and-embed pass over a repository (process_repo in
 * codebase_rag.py). The file list, the reading of a file and the embedding
 * service are inputs: `read` gives a file's text ("" when it cannot be read)
 * and `embed` gives embed_chunk's answer for a chunk (None on any failure).
 */
module BuildIndex {
  import opened Wrappers
  import Chunking

  type Vector = seq<real>

  /** One entry of embedding_results: {"file", "chunk_index", "chunk", "embedding"}. */
  datatype EmbeddingRecord = EmbeddingRecord(file: string, chunkIndex: nat, chunk: string, embedding: Vector)

  /** `if embedding:` in Python: None and the empty list are false. */
  predicate Truthy(e: Option<Vector>)
  {
    e.Some? && |e.value| > 0
  }

  /** Records the inner loop appends for one file whose chunks are `chunks`. */
  function FileRecords(file: string, chunks: seq<string>, embed: string -> Option<Vector>): seq<EmbeddingRecord>
    decreases |chunks|
  {
    if chunks == [] then []
    else
      var n := |chunks| - 1;
      var e := embed(chunks[n]);
      FileRecords(file, chunks[..n], embed) +
        (if Truthy(e) then [EmbeddingRecord(file, n, chunks[n], e.value)] else [])
  }

  /** Records one file contributes: none when its content is empty. */
  function RecordsOf(file: string, read: string -> string, embed: string -> Option<Vector>): seq<EmbeddingRecord>
  {
    var content := read(file);
    if content == "" then [] else FileRecords(file, Chunking.Chunks(content, Chunking.CHUNK_SIZE), embed)
  }

  /** What each file of the list contributes, in list order. */
  function Joined<T>(files: seq<string>, contribution: string -> seq<T>): seq<T>
    decreases |files|
  {
    if files == [] then []
    else
      var n := |files| - 1;
      Joined(files[..n], contribution) + contribution(files[n])
  }

  /** Records of the whole pass, files taken in list order. */
  function RepoRecords(files: seq<string>, read: string -> string, embed: string -> Option<Vector>): seq<EmbeddingRecord>
  {
    Joined(files, file => RecordsOf(file, read, embed))
  }

  /** Number of chunks chunk_text makes of every file together. */
  function TotalChunks(files: seq<string>, read: string -> string): nat
    decreases |files|
  {
    if files == [] then 0
    else
      var n := |files| - 1;
      TotalChunks(files[..n], read) + |Chunking.Chunks(read(files[n]), Chunking.CHUNK_SIZE)|
  }

  /** process_repo: the nested loops over files and over each file's chunks. */
  method ProcessRepo(files: seq<string>, read: string -> string, embed: string -> Option<Vector>)
    returns (results: seq<EmbeddingRecord>)
    ensures results == RepoRecords(files, read, embed)
  {
    results := [];
    var i := 0;
    while i < |files|
      invariant 0 <= i <= |files|
      invariant results == RepoRecords(files[..i], read, embed)
    {
      var file := files[i];
      var content := read(file);
      assert files[..i + 1][..i] == files[..i];
      if content != "" {
        var chunks := Chunking.Chunks(content, Chunking.CHUNK_SIZE);
        ghost var before := results;
        var idx := 0;
        while idx < |chunks|
          invariant 0 <= idx <= |chunks|
          invariant results == before + FileRecords(file, chunks[..idx], embed)
        {
          var embedding := embed(chunks[idx]);
          assert chunks[..idx + 1][..idx] == chunks[..idx];
          if Truthy(embedding) {
            results := results + [EmbeddingRecord(file, idx, chunks[idx], embedding.value)];
          }
          idx := idx + 1;
        }
        assert chunks[..idx] == chunks;
      }
      i := i + 1;
    }
    assert files[..i] == files;
  }

  /** The records of all chunks are those of all but the last, then possibly the last one's. */
  lemma FileRecordsSnoc(file: string, chunks: seq<string>, embed: string -> Option<Vector>)
    requires chunks != []
    ensures var n := |chunks| - 1;
      var r := FileRecords(file, chunks, embed);
      var p := FileRecords(file, chunks[..n], embed);
      |p| <= |r| <= |p| + 1 && r[..|p|] == p &&
      (|r| == |p| + 1 <==> Truthy(embed(chunks[n]))) &&
      (|r| == |p| + 1 ==> r[|p|] == EmbeddingRecord(file, n, chunks[n], embed(chunks[n]).value))
  {
  }

  /**
   * Each record of a file holds chunk number chunkIndex and that chunk's
   * non-empty embedding; there are at most as many records as chunks.
   */
  lemma {:induction false} FileRecordsSound(file: string, chunks: seq<string>, embed: string -> Option<Vector>)
    ensures var r := FileRecords(file, chunks, embed);
      forall k :: 0 <= k < |r| ==>
        r[k].file == file && r[k].chunkIndex < |chunks| && r[k].chunk == chunks[r[k].chunkIndex] &&
        embed(r[k].chunk) == Some(r[k].embedding) && |r[k].embedding| > 0
    ensures |FileRecords(file, chunks, embed)| <= |chunks|
    decreases |chunks|
  {
    if chunks != [] {
      var n := |chunks| - 1;
      FileRecordsSound(file, chunks[..n], embed);
      FileRecordsSnoc(file, chunks, embed);
      var r := FileRecords(file, chunks, embed);
      var p := FileRecords(file, chunks[..n], embed);
      forall k | 0 <= k < |p| ensures r[k] == p[k] && p[k].chunkIndex < n && chunks[p[k].chunkIndex] == chunks[..n][p[k].chunkIndex] {
        assert r[..|p|][k] == r[k];
      }
    }
  }

  /** A file's records come in strictly ascending chunk_index order. */
  lemma {:induction false} FileRecordsAscending(file: string, chunks: seq<string>, embed: string -> Option<Vector>)
    ensures var r := FileRecords(file, chunks, embed);
      forall k, l :: 0 <= k < l < |r| ==> r[k].chunkIndex < r[l].chunkIndex
    decreases |chunks|
  {
    if chunks != [] {
      var n := |chunks| - 1;
      FileRecordsAscending(file, chunks[..n], embed);
      FileRecordsSound(file, chunks[..n], embed);
      FileRecordsSnoc(file, chunks, embed);
      var r := FileRecords(file, chunks, embed);
      var p := FileRecords(file, chunks[..n], embed);
      forall k | 0 <= k < |p| ensures r[k] == p[k] {
        assert r[..|p|][k] == r[k];
      }
    }
  }

  /** No chunk with a truthy embedding is skipped: its index appears among the records. */
  lemma {:induction false} FileRecordsComplete(file: string, chunks: seq<string>, embed: string -> Option<Vector>, j: nat)
    requires j < |chunks| && Truthy(embed(chunks[j]))
    ensures var r := FileRecords(file, chunks, embed);
      exists k :: 0 <= k < |r| && r[k].chunkIndex == j && r[k].chunk == chunks[j]
    decreases |chunks|
  {
    var n := |chunks| - 1;
    FileRecordsSnoc(file, chunks, embed);
    var r := FileRecords(file, chunks, embed);
    var p := FileRecords(file, chunks[..n], embed);
    if j < n {
      FileRecordsComplete(file, chunks[..n], embed, j);
      var k :| 0 <= k < |p| && p[k].chunkIndex == j && p[k].chunk == chunks[..n][j];
      assert r[..|p|][k] == r[k];
    } else {
      assert r[|p|].chunkIndex == j;
    }
  }

  lemma JoinedSnoc<T>(files: seq<string>, file: string, contribution: string -> seq<T>)
    ensures Joined(files + [file], contribution) == Joined(files, contribution) + contribution(file)
  {
    assert (files + [file])[..|files|] == files;
  }

  lemma {:induction false} JoinedAppend<T>(a: seq<string>, b: seq<string>, contribution: string -> seq<T>)
    ensures Joined(a + b, contribution) == Joined(a, contribution) + Joined(b, contribution)
    decreases |b|
  {
    if b == [] {
      assert a + b == a;
    } else {
      var n := |b| - 1;
      var init, last := b[..n], b[n];
      assert b == init + [last];
      assert a + b == (a + init) + [last];
      JoinedAppend(a, init, contribution);
      JoinedSnoc(a + init, last, contribution);
      JoinedSnoc(init, last, contribution);
    }
  }

  /** Records of files a then files b are those of a followed by those of b. */
  lemma RepoRecordsAppend(a: seq<string>, b: seq<string>, read: string -> string, embed: string -> Option<Vector>)
    ensures RepoRecords(a + b, read, embed) == RepoRecords(a, read, embed) + RepoRecords(b, read, embed)
  {
    JoinedAppend(a, b, file => RecordsOf(file, read, embed));
  }

  /** A file whose content is empty (or could not be read) contributes no record. */
  lemma EmptyFileSkipped(files: seq<string>, file: string, read: string -> string, embed: string -> Option<Vector>)
    requires read(file) == ""
    ensures RepoRecords(files + [file], read, embed) == RepoRecords(files, read, embed)
  {
    JoinedSnoc(files, file, f => RecordsOf(f, read, embed));
  }

  /**
   * Every record of the pass names a listed file, holds chunk number
   * chunkIndex of chunk_text(read(file)), and carries that chunk's
   * non-empty embedding.
   */
  lemma {:induction false} RepoRecordsSound(files: seq<string>, read: string -> string, embed: string -> Option<Vector>)
    ensures var r := RepoRecords(files, read, embed);
      forall k :: 0 <= k < |r| ==>
        r[k].file in files &&
        r[k].chunkIndex < |Chunking.Chunks(read(r[k].file), Chunking.CHUNK_SIZE)| &&
        r[k].chunk == Chunking.Chunks(read(r[k].file), Chunking.CHUNK_SIZE)[r[k].chunkIndex] &&
        embed(r[k].chunk) == Some(r[k].embedding) && |r[k].embedding| > 0
    decreases |files|
  {
    if files != [] {
      var n := |files| - 1;
      RepoRecordsSound(files[..n], read, embed);
      var file := files[n];
      FileRecordsSound(file, Chunking.Chunks(read(file), Chunking.CHUNK_SIZE), embed);
      var p := RepoRecords(files[..n], read, embed);
      var q := RecordsOf(file, read, embed);
      var r := RepoRecords(files, read, embed);
      forall k | 0 <= k < |r| ensures r[k].file in files {
        if k < |p| {
          assert r[k] == p[k];
          var i :| 0 <= i < n && files[..n][i] == p[k].file;
          assert files[i] == p[k].file;
        } else {
          assert r[k] == q[k - |p|];
          assert q[k - |p|].file == file;
        }
      }
    }
  }

  /**
   * Skipping only loses records: there are at most as many records as
   * chunks, and exactly as many when every embedding comes back truthy.
   */
  lemma {:induction false} RepoRecordsCount(files: seq<string>, read: string -> string, embed: string -> Option<Vector>)
    ensures |RepoRecords(files, read, embed)| <= TotalChunks(files, read)
    ensures (forall c :: Truthy(embed(c))) ==> |RepoRecords(files, read, embed)| == TotalChunks(files, read)
    decreases |files|
  {
    if files != [] {
      var n := |files| - 1;
      RepoRecordsCount(files[..n], read, embed);
      var file := files[n];
      var chunks := Chunking.Chunks(read(file), Chunking.CHUNK_SIZE);
      FileRecordsSound(file, chunks, embed);
      if read(file) == "" {
        Chunking.ChunksShape(read(file), Chunking.CHUNK_SIZE);
      }
      if forall c :: Truthy(embed(c)) {
        AllTruthyKeepsAll(file, chunks, embed);
      }
    }
  }

  lemma {:induction false} AllTruthyKeepsAll(file: string, chunks: seq<string>, embed: string -> Option<Vector>)
    requires forall c :: Truthy(embed(c))
    ensures |FileRecords(file, chunks, embed)| == |chunks|
    decreases |chunks|
  {
    if chunks != [] {
      AllTruthyKeepsAll(file, chunks[..|chunks| - 1], embed);
    }
  }
}
