/** `loadFiles`: from the file listing and the file contents to the list of
    documents, each with its title, URL and retained paragraphs. Both
    loaders share this shape and differ only in their paragraph profile. */
module Loader {
  import opened Wrappers
  import opened Strings
  import opened Sequences
  import Sorting
  import opened Paragraphs
  import opened Metadata

  /** What reading a file yields: its raw text and its parsed front matter. */
  datatype SourceFile = SourceFile(raw: string, front: FrontMatter)

  datatype Doc = Doc(fname: string, title: string, url: string, paragraphs: seq<string>)

  /** A listed file that cannot be read. */
  datatype LoadError = ReadError(fname: string)

  /** Drops every path that ends in `README.md`, wherever in the name. */
  function DropReadmes(paths: seq<string>): (kept: seq<string>)
    ensures forall p :: multiset(kept)[p] == if EndsWith(p, "README.md") then 0 else multiset(paths)[p]
    ensures IsSubseq(kept, paths)
    decreases |paths|
  {
    if |paths| == 0 then []
    else
      var rest := DropReadmes(paths[1..]);
      assert paths == [paths[0]] + paths[1..];
      if EndsWith(paths[0], "README.md") then rest
      else
        var kept := [paths[0]] + rest;
        assert kept[1..] == rest;
        kept
  }

  /** The file list: the `.md` listing then the `.mdx` listing, without
      README files, sorted. Every other listed path is kept, as often as it
      is listed. */
  function SelectFiles(markdown: seq<string>, mdx: seq<string>): (files: seq<string>)
    ensures Sorting.Sorted(files)
    ensures forall p :: multiset(files)[p] ==
              if EndsWith(p, "README.md") then 0 else multiset(markdown)[p] + multiset(mdx)[p]
    ensures forall p :: p in files <==> (p in markdown || p in mdx) && !EndsWith(p, "README.md")
  {
    var files := Sorting.Sort(DropReadmes(markdown + mdx));
    assert multiset(markdown + mdx) == multiset(markdown) + multiset(mdx);
    assert forall p :: p in files <==> multiset(files)[p] > 0;
    files
  }

  /** The document for one file, or nothing when no paragraph survives. */
  function BuildDoc(profile: Profile, fname: string, file: SourceFile): (doc: Option<Doc>)
    ensures doc.None? <==> |Retained(profile, file.raw)| == 0
    ensures doc.Some? ==> doc.value.fname == fname && |doc.value.paragraphs| > 0
  {
    var paragraphs := Retained(profile, file.raw);
    if |paragraphs| == 0 then None
    else Some(Doc(fname, Title(file.front, file.raw), Url(fname, file.front), paragraphs))
  }

  function Names(docs: seq<Doc>): (names: seq<string>)
    ensures |names| == |docs|
    ensures forall k :: 0 <= k < |docs| ==> names[k] == docs[k].fname
    decreases |docs|
  {
    if |docs| == 0 then [] else [docs[0].fname] + Names(docs[1..])
  }

  /** All listed files can be read. */
  predicate AllReadable(files: seq<string>, fs: map<string, SourceFile>) {
    forall k :: 0 <= k < |files| ==> files[k] in fs
  }

  /** The loop over the sorted files: read each, build its document, skip
      it when empty. The first file that cannot be read aborts the loop. */
  function LoadDocs(profile: Profile, files: seq<string>, fs: map<string, SourceFile>)
    : (r: Result<seq<Doc>, LoadError>)
    ensures r.Success? <==> AllReadable(files, fs)
    decreases |files|
  {
    if |files| == 0 then Success([])
    else if files[0] !in fs then Failure(ReadError(files[0]))
    else
      var rest := LoadDocs(profile, files[1..], fs);
      assert AllReadable(files, fs) <==> AllReadable(files[1..], fs) by {
        assert forall k :: 1 <= k < |files| ==> files[k] == files[1..][k - 1];
      }
      if rest.Failure? then rest
      else match BuildDoc(profile, files[0], fs[files[0]])
        case None => rest
        case Some(d) => Success([d] + rest.value)
  }

  /** A failed load names the first listed file that cannot be read. */
  lemma {:induction false} LoadDocsFailure(profile: Profile, files: seq<string>, fs: map<string, SourceFile>)
    requires LoadDocs(profile, files, fs).Failure?
    ensures var bad := LoadDocs(profile, files, fs).error.fname;
      exists k :: 0 <= k < |files| && files[k] == bad && bad !in fs && AllReadable(files[..k], fs)
    decreases |files|
  {
    if files[0] in fs {
      LoadDocsFailure(profile, files[1..], fs);
      var bad := LoadDocs(profile, files, fs).error.fname;
      var k :| 0 <= k < |files[1..]| && files[1..][k] == bad && bad !in fs && AllReadable(files[1..][..k], fs);
      assert files[..k + 1] == [files[0]] + files[1..][..k];
      assert files[k + 1] == bad;
    } else {
      assert files[..0] == [];
    }
  }

  /** A successful load keeps the file order, builds each document from its
      own file, and leaves out exactly the files with no retained paragraph. */
  lemma {:induction false} LoadDocsSound(profile: Profile, files: seq<string>, fs: map<string, SourceFile>)
    requires LoadDocs(profile, files, fs).Success?
    ensures var docs := LoadDocs(profile, files, fs).value;
      && IsSubseq(Names(docs), files)
      && (forall k :: 0 <= k < |docs| ==>
            docs[k].fname in fs && BuildDoc(profile, docs[k].fname, fs[docs[k].fname]) == Some(docs[k]))
      && (forall f :: f in files && |Retained(profile, fs[f].raw)| > 0 ==> f in Names(docs))
    decreases |files|
  {
    if |files| > 0 {
      var f := files[0];
      LoadDocsSound(profile, files[1..], fs);
      var rest := LoadDocs(profile, files[1..], fs).value;
      var docs := LoadDocs(profile, files, fs).value;
      assert forall g :: g in files ==> g == f || g in files[1..];
      match BuildDoc(profile, f, fs[f])
      case None =>
        assert docs == rest;
      case Some(d) =>
        assert docs == [d] + rest;
        assert Names(docs) == [f] + Names(rest);
        assert Names(docs)[1..] == Names(rest);
        forall k | 0 <= k < |docs|
          ensures docs[k].fname in fs && BuildDoc(profile, docs[k].fname, fs[docs[k].fname]) == Some(docs[k])
        {
          if k > 0 {
            assert docs[k] == rest[k - 1];
          }
        }
    }
  }

  /** `loadFiles` under a paragraph profile. */
  function LoadFiles(profile: Profile, markdown: seq<string>, mdx: seq<string>,
                     fs: map<string, SourceFile>): Result<seq<Doc>, LoadError>
  {
    LoadDocs(profile, SelectFiles(markdown, mdx), fs)
  }

  /** The loaded documents come in sorted path order, each from a listed
      non-README file, and none is empty. */
  lemma LoadFilesOrdered(profile: Profile, markdown: seq<string>, mdx: seq<string>,
                         fs: map<string, SourceFile>)
    requires LoadFiles(profile, markdown, mdx, fs).Success?
    ensures var docs := LoadFiles(profile, markdown, mdx, fs).value;
      && Sorting.Sorted(Names(docs))
      && (forall k :: 0 <= k < |docs| ==> |docs[k].paragraphs| > 0)
      && (forall k :: 0 <= k < |docs| ==>
            (docs[k].fname in markdown || docs[k].fname in mdx) && !EndsWith(docs[k].fname, "README.md"))
  {
    var files := SelectFiles(markdown, mdx);
    var docs := LoadFiles(profile, markdown, mdx, fs).value;
    LoadDocsSound(profile, files, fs);
    Sorting.SubseqOfSorted(Names(docs), files);
    SubseqMembers(Names(docs), files);
    forall k | 0 <= k < |docs|
      ensures |docs[k].paragraphs| > 0 && docs[k].fname in files
    {
      assert Names(docs)[k] in Names(docs);
    }
  }
}
