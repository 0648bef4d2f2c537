/** The ingestion script's write loop: every retained paragraph becomes a
    chunk carrying its document's title and URL, and chunks are written to
    the store in batches of 50 as they accumulate, with a final partial
    batch. The store's `add` call is modelled by appending the batch to the
    returned list of writes. */
module Ingest {
  import opened Wrappers
  import opened Strings
  import opened Loader
  import opened Paragraphs
  import Metadata
  import Utf16

  datatype Chunk = Chunk(text: string, title: string, url: string)

  const BatchSize: nat := 50

  /** The chunks of one document, in paragraph order. */
  function ChunksOf(d: Doc): (cs: seq<Chunk>)
    ensures |cs| == |d.paragraphs|
    ensures forall k :: 0 <= k < |cs| ==> cs[k] == Chunk(d.paragraphs[k], d.title, d.url)
  {
    seq(|d.paragraphs|, k requires 0 <= k < |d.paragraphs| => Chunk(d.paragraphs[k], d.title, d.url))
  }

  /** The chunks of all documents, document by document. */
  function Flatten(docs: seq<Doc>): seq<Chunk>
    decreases |docs|
  {
    if |docs| == 0 then [] else Flatten(docs[..|docs| - 1]) + ChunksOf(docs[|docs| - 1])
  }

  function Concat(batches: seq<seq<Chunk>>): seq<Chunk>
    decreases |batches|
  {
    if |batches| == 0 then [] else batches[0] + Concat(batches[1..])
  }

  lemma {:induction false} ConcatSnoc(batches: seq<seq<Chunk>>, b: seq<Chunk>)
    ensures Concat(batches + [b]) == Concat(batches) + b
    decreases |batches|
  {
    if |batches| > 0 {
      ConcatSnoc(batches[1..], b);
      assert (batches + [b])[1..] == batches[1..] + [b];
    }
  }

  /** The reference cut: consecutive batches of `BatchSize` chunks, the last
      one holding the remainder. */
  function Batches(cs: seq<Chunk>): (bs: seq<seq<Chunk>>)
    ensures Concat(bs) == cs
    ensures |bs| == (|cs| + BatchSize - 1) / BatchSize
    ensures forall k :: 0 <= k < |bs| ==>
              |bs[k]| == BatchSize || (k == |bs| - 1 && 0 < |bs[k]| < BatchSize)
    decreases |cs|
  {
    if |cs| == 0 then []
    else if |cs| <= BatchSize then
      assert Concat([cs]) == cs + Concat([]);
      [cs]
    else
      var rest := Batches(cs[BatchSize..]);
      var bs := [cs[..BatchSize]] + rest;
      assert bs[1..] == rest;
      assert cs == cs[..BatchSize] + cs[BatchSize..];
      bs
  }

  lemma BatchesCons(b: seq<Chunk>, rest: seq<Chunk>)
    requires |b| == BatchSize
    ensures Batches(b + rest) == [b] + Batches(rest)
  {
    var cs := b + rest;
    assert cs[..BatchSize] == b && cs[BatchSize..] == rest;
    if |rest| == 0 {
      assert cs == b;
    }
  }

  /** Full batches followed by a short remainder are exactly the reference
      cut of their concatenation. */
  lemma {:induction false} BatchesOfFull(full: seq<seq<Chunk>>, pending: seq<Chunk>)
    requires forall k :: 0 <= k < |full| ==> |full[k]| == BatchSize
    requires |pending| < BatchSize
    ensures Batches(Concat(full) + pending) == full + (if |pending| == 0 then [] else [pending])
    decreases |full|
  {
    if |full| == 0 {
      assert Concat(full) + pending == pending;
    } else {
      BatchesOfFull(full[1..], pending);
      assert Concat(full) + pending == full[0] + (Concat(full[1..]) + pending);
      BatchesCons(full[0], Concat(full[1..]) + pending);
      assert full == [full[0]] + full[1..];
    }
  }

  lemma FlattenSnoc(docs: seq<Doc>, i: nat)
    requires i < |docs|
    ensures Flatten(docs[..i + 1]) == Flatten(docs[..i]) + ChunksOf(docs[i])
  {
    assert docs[..i + 1][..i] == docs[..i];
  }

  /** The write loop. The writes, in order, hold every chunk exactly once;
      every batch written inside the loop holds exactly `BatchSize` chunks
      and the final flush holds between 1 and `BatchSize - 1`. */
  method IngestBatches(docs: seq<Doc>) returns (writes: seq<seq<Chunk>>)
    ensures writes == Batches(Flatten(docs))
    ensures Concat(writes) == Flatten(docs)
    ensures |writes| == (|Flatten(docs)| + BatchSize - 1) / BatchSize
    ensures forall k :: 0 <= k < |writes| ==>
              |writes[k]| == BatchSize || (k == |writes| - 1 && 0 < |writes[k]| < BatchSize)
  {
    writes := [];
    var pending: seq<Chunk> := [];
    for i := 0 to |docs|
      invariant Concat(writes) + pending == Flatten(docs[..i])
      invariant forall k :: 0 <= k < |writes| ==> |writes[k]| == BatchSize
      invariant |pending| < BatchSize
    {
      var d := docs[i];
      for j := 0 to |d.paragraphs|
        invariant Concat(writes) + pending == Flatten(docs[..i]) + ChunksOf(d)[..j]
        invariant forall k :: 0 <= k < |writes| ==> |writes[k]| == BatchSize
        invariant |pending| < BatchSize
      {
        var chunk := Chunk(d.paragraphs[j], d.title, d.url);
        assert ChunksOf(d)[..j + 1] == ChunksOf(d)[..j] + [chunk];
        calc {
          Concat(writes) + (pending + [chunk]);
          (Concat(writes) + pending) + [chunk];
          (Flatten(docs[..i]) + ChunksOf(d)[..j]) + [chunk];
          Flatten(docs[..i]) + (ChunksOf(d)[..j] + [chunk]);
        }
        pending := pending + [chunk];
        if |pending| >= BatchSize {
          ConcatSnoc(writes, pending);
          writes := writes + [pending];
          pending := [];
        }
      }
      assert ChunksOf(d)[..|d.paragraphs|] == ChunksOf(d);
      FlattenSnoc(docs, i);
    }
    assert docs[..|docs|] == docs;
    BatchesOfFull(writes, pending);
    if |pending| != 0 {
      writes := writes + [pending];
    }
  }

  /** Every chunk comes from one paragraph of one document and carries that
      document's title and URL. */
  lemma {:induction false} FlattenProvenance(docs: seq<Doc>)
    ensures forall c :: c in Flatten(docs) ==>
      exists i, j :: 0 <= i < |docs| && 0 <= j < |docs[i].paragraphs|
                     && c == Chunk(docs[i].paragraphs[j], docs[i].title, docs[i].url)
    decreases |docs|
  {
    if |docs| > 0 {
      var n := |docs| - 1;
      FlattenProvenance(docs[..n]);
      forall c | c in Flatten(docs)
        ensures exists i, j :: 0 <= i < |docs| && 0 <= j < |docs[i].paragraphs|
                               && c == Chunk(docs[i].paragraphs[j], docs[i].title, docs[i].url)
      {
        if c in Flatten(docs[..n]) {
          var i, j :| 0 <= i < n && 0 <= j < |docs[..n][i].paragraphs|
                      && c == Chunk(docs[..n][i].paragraphs[j], docs[..n][i].title, docs[..n][i].url);
          assert docs[..n][i] == docs[i];
        } else {
          assert c in ChunksOf(docs[n]);
          var j :| 0 <= j < |ChunksOf(docs[n])| && ChunksOf(docs[n])[j] == c;
          assert c == Chunk(docs[n].paragraphs[j], docs[n].title, docs[n].url);
        }
      }
    }
  }

  /** 120 paragraphs are written as 50, 50 and 20. */
  lemma HundredTwentyChunks(cs: seq<Chunk>)
    requires |cs| == 120
    ensures var bs := Batches(cs);
      |bs| == 3 && |bs[0]| == 50 && |bs[1]| == 50 && |bs[2]| == 20
  {
    var bs := Batches(cs);
    assert |bs| == 3;
    assert |Concat(bs)| == |bs[0]| + |bs[1]| + |bs[2]| by {
      assert Concat(bs) == bs[0] + Concat(bs[1..]);
      assert Concat(bs[1..]) == bs[1] + Concat(bs[2..]);
      assert Concat(bs[2..]) == bs[2] + Concat(bs[3..]);
      assert bs[3..] == [];
    }
  }

  /** The ingestion script end to end: load under the loose profile, then
      write. A file that cannot be read aborts before anything is written. */
  method Run(markdown: seq<string>, mdx: seq<string>, fs: map<string, SourceFile>)
    returns (r: Result<seq<seq<Chunk>>, LoadError>)
    ensures r.Failure? <==> LoadFiles(Loose, markdown, mdx, fs).Failure?
    ensures r.Success? ==> r.value == Batches(Flatten(LoadFiles(Loose, markdown, mdx, fs).value))
    ensures r.Success? ==>
      Concat(r.value) == Flatten(LoadFiles(Loose, markdown, mdx, fs).value)
    ensures r.Success? ==> forall k :: 0 <= k < |r.value| ==>
      |r.value[k]| == BatchSize || (k == |r.value| - 1 && 0 < |r.value[k]| < BatchSize)
    ensures r.Success? ==> forall b, c :: b in r.value && c in b ==>
      && IsTrimmed(c.text) && c.text != "" && Utf16.Length(c.text) <= 4000
      && !StartsWith(c.text, "#") && !StartsWith(c.text, "---") && !StartsWith(c.text, "<")
      && !StartsWith(c.text, "import") && StartsWith(c.url, Metadata.SiteRoot)
  {
    var loaded := LoadFiles(Loose, markdown, mdx, fs);
    if loaded.Failure? {
      return Failure(loaded.error);
    }
    var docs := loaded.value;
    var writes := IngestBatches(docs);
    LoadedChunksWellFormed(markdown, mdx, fs);
    forall b, c | b in writes && c in b ensures c in Flatten(docs) {
      ConcatMembers(writes, b, c);
    }
    return Success(writes);
  }

  lemma {:induction false} ConcatMembers(bs: seq<seq<Chunk>>, b: seq<Chunk>, c: Chunk)
    requires b in bs && c in b
    ensures c in Concat(bs)
    decreases |bs|
  {
    if bs[0] != b {
      ConcatMembers(bs[1..], b, c);
    }
  }

  /** Every chunk of a loose-profile load has the loose profile's paragraph
      properties and a URL under the site root. */
  lemma LoadedChunksWellFormed(markdown: seq<string>, mdx: seq<string>, fs: map<string, SourceFile>)
    requires LoadFiles(Loose, markdown, mdx, fs).Success?
    ensures forall c :: c in Flatten(LoadFiles(Loose, markdown, mdx, fs).value) ==>
      && IsTrimmed(c.text) && c.text != "" && Utf16.Length(c.text) <= 4000
      && !StartsWith(c.text, "#") && !StartsWith(c.text, "---") && !StartsWith(c.text, "<")
      && !StartsWith(c.text, "import") && StartsWith(c.url, Metadata.SiteRoot)
  {
    var files := SelectFiles(markdown, mdx);
    var docs := LoadFiles(Loose, markdown, mdx, fs).value;
    LoadDocsSound(Loose, files, fs);
    FlattenProvenance(docs);
    forall c | c in Flatten(docs)
      ensures && IsTrimmed(c.text) && c.text != "" && Utf16.Length(c.text) <= 4000
              && !StartsWith(c.text, "#") && !StartsWith(c.text, "---") && !StartsWith(c.text, "<")
              && !StartsWith(c.text, "import") && StartsWith(c.url, Metadata.SiteRoot)
    {
      var i, j :| 0 <= i < |docs| && 0 <= j < |docs[i].paragraphs|
                  && c == Chunk(docs[i].paragraphs[j], docs[i].title, docs[i].url);
      var d := docs[i];
      var file := fs[d.fname];
      assert BuildDoc(Loose, d.fname, file) == Some(d);
      assert d.paragraphs == Retained(Loose, file.raw);
      assert d.url == Metadata.Url(d.fname, file.front);
      LooseParagraphsSound(file.raw);
      assert d.paragraphs[j] in Retained(Loose, file.raw);
    }
  }
}
