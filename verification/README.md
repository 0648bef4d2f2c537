# Document normalisation of the docs-search example

This project models the part of the docs-search example that turns a
checkout of the Tigris blog and documentation repositories into search
documents. It follows `loadFiles`, which exists in two variants:

- the **loose** profile, used by the ingestion script (`ingest.ts`);
- the **strict** profile, used by the search server's loader (`utterances.js`).

Both variants take the `.md` and `.mdx` listings and handle them the same way:

1. They drop every path ending in `README.md` and sort the rest by UTF-16
   code units.
2. They read each file.
3. They derive a title and a URL.
4. They cut the text at blank lines, trim each piece and filter the pieces.
5. They skip documents left with no paragraph.

The two variants differ only in the paragraph filter chain. The ingestion
script then turns every retained paragraph into a chunk that carries its
document's title and URL. It writes the chunks in batches of 50, with a final
partial batch.

Modules, in dependency order:

- `Wrappers`: `Option` and `Result`.
- `Strings`: the JavaScript string operations the loaders use.
  - `startsWith`, `endsWith` and `indexOf`.
  - `split` and `join`.
  - `replace` with a string pattern, which removes the first occurrence only.
  - `trim`, over the ECMAScript whitespace set.
- `Sequences`: order-preserving sub-sequences.
- `Utf16`: code units and `length`, which counts UTF-16 code units.
- `Sorting`: the default `Array.prototype.sort` order on strings, and an
  insertion sort.
- `Paragraphs`: blank-line pieces, the two filter chains and their properties.
- `Metadata`: `sourceOf`, the title and the URL.
- `Loader`: file selection and the document loop, with read failures as
  `Result` errors.
- `Ingest`: chunks, the batching loop and the script end to end.

The model takes these as inputs:

- the glob listings;
- the file contents, as a map from path to raw text and parsed front matter;
- the front matter itself, as two optional string fields, `title` and `slug`.

A path missing from the map is a file that cannot be read.

Five behaviours of the code are easy to misread. The model follows the code in each:

- Every path whose text ends in `README.md` is dropped, so `docs/NOT_README.md` is dropped too.
- The comment above the slug derivation gives `buckets/object-notifications` for a docs page. The code keeps the `docs/` directory, and the URL is `https://tigrisdata.com/docs/buckets/object-notifications` (`Metadata.DocsPageUrl`).
- Without a front-matter title, a first line shorter than two characters gives the empty title, and a front-matter opening line `---` gives `-` (`Metadata.Title`, `Metadata.TitleOfUntitledFrontMatter`).
- The path-derived slug removes the first `.md` anywhere after the repository directory, which need not be the extension (`Metadata.UrlDropsEarlierMd`).
- A front-matter block is dropped only up to its first blank line (`Paragraphs.FrontMatterTailKept`).

## Model

| member | source | states |
|---|---|---|
| Metadata.SourceOf | ingest.ts:16-29 | the source category of a path is always one of `blog`, `docs` or `unknown` |
| Metadata.SourceOfRepository | ingest.ts:16-29 | the category depends only on the second `/`-separated segment (the repository directory): `tigris-blog` gives `blog`, `tigris-os-docs` gives `docs`, anything else `unknown`, whether or not more segments follow |
| Metadata.SourceOfFlatName | utterances.js:14-23 | a path with no `/` has no second segment and is `unknown` |
| Metadata.SourceOfExamples | utterances.js:11-24 | every file under `var/tigris-blog/` is `blog` and every file under `var/tigris-os-docs/` is `docs`, whatever follows |
| Loader.DropReadmes | ingest.ts:35-37 | no path whose whole text ends in `README.md` survives, so `NOT_README.md` is dropped as well, while `README.md/a.md` is kept; every other path survives as often as it was listed, in listing order |
| Loader.SelectFiles | utterances.js:29-34 | the file list is sorted, contains exactly the listed `.md` and `.mdx` paths that do not end in `README.md`, and each of them as many times as the two listings together contain it |
| Sorting.Sort | ingest.ts:38 | the sorted list is ordered by UTF-16 code units and is a permutation of its input |
| Sorting.Insert | ingest.ts:38 | inserting into a sorted list keeps it sorted and adds exactly that element |
| Sorting.SortedUnique | utterances.js:34 | two sorted lists holding the same paths with the same multiplicities are equal, so the file order depends on the set of files and not on the glob's listing order |
| Sorting.LeTotal | ingest.ts:38 | any two paths are comparable under the code-unit order |
| Sorting.LeTransitive | ingest.ts:38 | the code-unit order is transitive |
| Sorting.LeAntisymmetric | utterances.js:34 | two paths that sort at or before each other are the same path |
| Sorting.SubseqOfSorted | ingest.ts:44-92 | dropping files from a sorted list, as the document loop does, keeps it sorted |
| Utf16.Length | ingest.ts:80 | a string's `length` lies between its number of characters and twice that |
| Utf16.LengthIsUnitCount | utterances.js:73 | `length` is the number of UTF-16 code units of the string |
| Utf16.LengthOfBmp | ingest.ts:80 | for text within the Basic Multilingual Plane, `length` is the number of characters |
| Utf16.UnitsInjective | utterances.js:34 | distinct strings have distinct code-unit sequences, so the sort order separates them |
| Strings.IndexOf | ingest.ts:68 | the search finds an occurrence of the pattern, no earlier position holds one, and it finds nothing exactly when the pattern does not occur |
| Strings.RemoveFirst | ingest.ts:68 | without an occurrence the string is unchanged; otherwise exactly one copy of the pattern is removed, and putting it back where the first occurrence was gives the original string |
| Strings.RemoveFirstAt | utterances.js:60 | the copy removed is the one at the first occurrence |
| Strings.Split | ingest.ts:73 | splitting gives at least one piece, no piece contains the separator, every cut is at the leftmost occurrence (a piece followed by a separator, extended by all but the last character of a separator, still holds no separator), and joining the pieces with the separator gives the original text |
| Strings.SplitAtFirst | utterances.js:65 | conversely, a first piece that does not reach into the separator after it is cut off first, and the rest is split on its own |
| Strings.SplitThreeLineFeeds | ingest.ts:73 | three line feeds are cut at the first two: `a`, three line feeds, `b` splits into `a` and a line feed followed by `b` |
| Strings.SplitAtFirstChar | ingest.ts:19 | splitting at `/` peels off the first segment when it has no `/` |
| Strings.Trim | ingest.ts:74 | the trimmed piece neither starts nor ends with whitespace, and the original is whitespace, then the result, then whitespace |
| Strings.TrimTrimmed | utterances.js:66 | trimming an already trimmed piece changes nothing |
| Strings.TrimKeepsPrefix | ingest.ts:74-76 | trimming a piece whose prefix starts and ends with non-whitespace keeps that prefix |
| Strings.FirstLine | ingest.ts:55 | the first line holds no line feed, starts the text, and is followed by a line feed or by the end of the text |
| Strings.FirstLineOf | utterances.js:49 | a line with no line feed is the first line of itself and of itself followed by a line feed and more text |
| Metadata.Title | ingest.ts:52-57 | a truthy front-matter title is the title; otherwise the title is the first line without its first two characters (empty when the line is shorter) and holds no line feed |
| Metadata.TitleFromHeading | utterances.js:46-51 | without a front-matter title, a file opening with the heading line `# H` is titled `H` |
| Metadata.TitleOfUntitledFrontMatter | ingest.ts:52-56 | a file whose front matter has no title, so whose first line is `---`, is titled `-` |
| Metadata.Url | ingest.ts:59-70 | every URL lies under `https://tigrisdata.com/` |
| Metadata.UrlFromSlug | utterances.js:53-54 | with a truthy front-matter slug the URL is the site root, the repository's category, `/`, and the slug |
| Metadata.UrlFromTail | ingest.ts:63-70 | without a slug, a file `root/repo/tail` is addressed by the site root followed by `tail` with its first `.mdx` and then its first `.md` removed, wherever in `tail` they occur |
| Metadata.UrlFromPath | ingest.ts:63-70 | without a slug, a file `root/repo/stem.md` or `root/repo/stem.mdx` whose stem contains no `.md` is addressed by the site root followed by `stem` |
| Metadata.UrlDropsEarlierMd | utterances.js:60-61 | the first `.md` removed need not be the extension: without a slug, `root/repo/d.md` + `e` + `.md` (no other dot, `e` not opening with `x`) is addressed by the site root, `d`, `e` and `.md`, so the extension stays and the earlier `.md` goes |
| Metadata.StripEarlierMd | utterances.js:60 | removing the first `.mdx` and then the first `.md` from `d.md` + `e` + `.md` removes the earlier `.md` and keeps the extension |
| Metadata.TailPathAfterTwoSegments | ingest.ts:66-67 | dropping the first two path segments leaves exactly the text after the second `/`, and leaves nothing for a path with fewer segments |
| Metadata.StripExtension | ingest.ts:68 | removing `.mdx`, then `.md`, from `stem.md` or `stem.mdx` gives back the stem when the stem has no `.md` of its own |
| Metadata.UrlUnderDirectory | utterances.js:58-61 | without a slug, a page `root/repo/dir/page.md` (or `.mdx`) whose directory and page contain no `.` is addressed by the site root, then `dir` and the page, with no category in between; with a `.` the general form is `Metadata.UrlFromTail` |
| Metadata.DocsPageUrl | ingest.ts:64-69 | without a slug, a documentation page `var/tigris-os-docs/docs/page.md(x)` whose page contains no `.` gets the URL `https://tigrisdata.com/docs/page`: the `docs/` directory is kept |
| Paragraphs.Keep | ingest.ts:75-80 | filtering keeps exactly the pieces every test accepts, each as many times as it occurs, in their original order |
| Paragraphs.RunChainIsOnePass | ingest.ts:75-80 | the chain of `.filter` calls, one test at a time, keeps the same pieces as one pass with all tests together |
| Paragraphs.KeepCompose | utterances.js:67-73 | filtering by one chain and then another is filtering by the two chains joined |
| Paragraphs.KeepAll | utterances.js:67-73 | a filter that accepts every piece leaves the list unchanged |
| Paragraphs.AcceptsConcat | ingest.ts:75-80 | a piece passes two chains joined exactly when it passes both |
| Paragraphs.LooseAcceptance | ingest.ts:75-80 | the loose chain accepts a piece exactly when it opens with none of `#`, `---`, `<` and `import`, is not empty, and is at most 4000 code units long |
| Paragraphs.StrictAcceptance | utterances.js:67-73 | the strict chain accepts a piece exactly when it opens with none of a table bar, a code fence, `<` and `---`, does not close with a code fence, and is more than 250 code units long |
| Paragraphs.LooseParagraphsSound | ingest.ts:72-80 | every paragraph the ingestion script keeps is trimmed, non-empty, at most 4000 code units, and opens with none of `#`, `---`, `<` and `import` |
| Paragraphs.StrictParagraphsSound | utterances.js:64-73 | every paragraph the server's loader keeps is trimmed, longer than 250 code units, and neither a table row, code fence, tag nor front-matter delimiter at its start, nor a code fence at its end |
| Paragraphs.RetainedAreAcceptedPieces | ingest.ts:72-80 | a retained paragraph is one of the trimmed blank-line pieces and passes the whole chain |
| Paragraphs.KeptAreAccepted | utterances.js:67-73 | a piece kept by a filter chain was in the input and passes every test of the chain |
| Paragraphs.PiecesAreTrimmed | ingest.ts:73-74 | every blank-line piece is trimmed |
| Paragraphs.ParagraphsOrdered | ingest.ts:72-80 | the retained paragraphs keep the order of the pieces, a piece is retained exactly when the chain accepts it, and an accepted piece is retained as many times as it occurs |
| Paragraphs.ParagraphsIdempotent | utterances.js:64-73 | filtering the retained paragraphs again changes nothing |
| Paragraphs.DefinedRemovesNothing | utterances.js:67 | the `undefined` test never removes a trimmed piece |
| Paragraphs.HeadingsAndImports | utterances.js:64-73 | a piece opening with `#` or `import` is always dropped by the loose chain, while the strict chain keeps it exactly when it is longer than 250 code units and does not close with a code fence |
| Paragraphs.LongHeadingStrictOnly | utterances.js:73 | for instance `# ` followed by more than 250 letters `a` passes the strict chain and fails the loose one, so the two profiles are different predicates |
| Paragraphs.ShortSentenceLooseOnly | ingest.ts:80 | a non-empty piece of at most 125 characters whose first character is none of `#`, `-`, `<` and `i` passes the loose chain and fails the strict one |
| Paragraphs.FirstPieceOfDashes | ingest.ts:73 | the first blank-line piece of a text opening with `---` opens with `---` too |
| Paragraphs.FrontMatterBlockDropped | ingest.ts:76 | in a file opening with `---`, the first blank-line piece opens with `---` too, and both profiles drop it |
| Paragraphs.FrontMatterTailKept | ingest.ts:72-80 | only that first piece is dropped: a front-matter block with a blank line inside is cut there, and its later lines form a piece of their own that a profile keeps whenever the piece passes its chain |
| Paragraphs.TrimEach | ingest.ts:74 | every piece is replaced by its trimmed form, and the count does not change |
| Loader.BuildDoc | ingest.ts:82-91 | a file yields no document exactly when no paragraph survives the filter; otherwise the document carries its path and at least one paragraph |
| Loader.Names | ingest.ts:86-91 | the document names are the documents' paths, position by position |
| Loader.LoadDocs | ingest.ts:44-45 | the loop succeeds exactly when every listed file can be read |
| Loader.LoadDocsFailure | utterances.js:38-39 | a failed load reports the first listed file that cannot be read |
| Loader.LoadDocsSound | ingest.ts:44-92 | the documents follow the file order, each is built from its own file, and every file with a retained paragraph yields a document |
| Loader.LoadFilesOrdered | utterances.js:26-88 | the loaded documents are in sorted path order, none is empty, and each comes from a listed path not ending in `README.md` |
| Ingest.ChunksOf | ingest.ts:123-128 | a document gives one chunk per paragraph, in order, each with the document's title and URL |
| Ingest.ConcatSnoc | ingest.ts:135 | appending a batch appends its chunks to the written stream |
| Ingest.Batches | ingest.ts:132-145 | the reference batching: the batches together give back the chunk stream, there are `ceil(n / 50)` of them, and all are full except a non-empty last one |
| Ingest.BatchesCons | ingest.ts:132-136 | a full batch of 50 is written first, then the rest is batched as before |
| Ingest.BatchesOfFull | ingest.ts:141-145 | full batches followed by a shorter pending batch are the batching of their chunks, with an empty pending batch not written |
| Ingest.IngestBatches | ingest.ts:122-145 | the loop's writes are exactly the reference batching of all chunks, document by document and paragraph by paragraph |
| Ingest.FlattenSnoc | ingest.ts:122-123 | the chunks of one more document follow those of the earlier ones |
| Ingest.FlattenProvenance | ingest.ts:122-130 | every chunk is one paragraph of one document with that document's title and URL |
| Ingest.HundredTwentyChunks | ingest.ts:132-145 | 120 chunks are written as batches of 50, 50 and 20 |
| Ingest.ConcatMembers | ingest.ts:135 | a chunk of a written batch is in the written stream |
| Ingest.LoadedChunksWellFormed | ingest.ts:119-130 | every chunk of a loose load holds a loose-profile paragraph and a URL under the site root |
| Ingest.Run | ingest.ts:119-145 | the script fails exactly when loading fails; otherwise the writes are exactly the batches of 50 of the loaded chunks (all full except a non-empty last one), they give back all chunks in order, and each written chunk is a loose-profile paragraph with a URL under the site root |

## Left out

- Updating the checkouts with `git pull` through `execa` is left out. It is I/O.
- The `glob` listings are left out. They are inputs, in the order glob returns them.
- `readFile` is left out. Contents are an input map; a path missing from the map is a read failure, which the source raises as an exception.
- Front-matter parsing with `gray-matter` is left out. Each file comes with a parsed `title` and `slug`, each present or absent.
  - A parse error is not modelled.
  - A non-string value (a number, a date or a list) is not modelled.
- The whole vector store is left out. This covers LanceDB, the embedding function, the schema, and `createEmptyTable` with overwrite (so the table is already emptied when a read fails). It also covers the final `createIndex` and the sample search.
  - The `add` calls are modelled as the list of batches written.
- The `console.log` progress lines are left out. They are output only.
- `index.js` (the HTTP search server) is not part of this model.
- `web/supermeme.js` is not part of this model.
- Metadata.Title: drops the first two characters (code points) of the first line, not the first two UTF-16 code units that `substring(2)` drops. The two differ only when one of those characters lies outside the Basic Multilingual Plane.
- Strings.Split: requires a non-empty separator. Every call in the loaders uses one (`"\n\n"`, `"\n"`, `"/"`).
- Paragraphs.Holds: models the `undefined` test of the server's loader as always passing. The pieces come from `trim` and so are always strings.
