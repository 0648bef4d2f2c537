/** Title and URL of a document, from its path and its front matter. Paths
    look like `var/<repository>/<path inside the repository>`. */
module Metadata {
  import opened Wrappers
  import opened Strings

  const SiteRoot := "https://tigrisdata.com/"

  /** The two fields the loader reads from a file's front matter. A field
      counts only when it is truthy, that is a non-empty string. */
  datatype FrontMatter = FrontMatter(title: Option<string>, slug: Option<string>)

  predicate Truthy(field: Option<string>) {
    field.Some? && field.value != ""
  }

  /** `sourceOf`: the site section of the repository a path belongs to,
      read from the second `/`-separated segment. */
  function SourceOf(fname: string): (category: string)
    ensures category == "blog" || category == "docs" || category == "unknown"
  {
    var parts := Split(fname, "/");
    if |parts| > 1 then Section(parts[1]) else "unknown"
  }

  /** The section a repository directory name stands for. */
  function Section(repo: string): string {
    if repo == "tigris-blog" then "blog"
    else if repo == "tigris-os-docs" then "docs"
    else "unknown"
  }

  /** The path with its first two `/`-separated segments dropped and the
      rest joined again with `/`. */
  function TailPath(fname: string): string {
    var parts := Split(fname, "/");
    if |parts| <= 2 then "" else Join(parts[2..], "/")
  }

  /** The path-derived slug: the tail path with the first `.mdx` and then
      the first `.md` removed, wherever they occur. */
  function Slug(fname: string): string {
    RemoveFirst(RemoveFirst(TailPath(fname), ".mdx"), ".md")
  }

  /** The document URL: the front-matter slug under the repository's
      section, or else the path-derived slug; always under the site root. */
  function Url(fname: string, front: FrontMatter): (url: string)
    ensures StartsWith(url, SiteRoot) && |url| > 0
  {
    var url :=
      if Truthy(front.slug) then SiteRoot + SourceOf(fname) + "/" + front.slug.value
      else SiteRoot + Slug(fname);
    assert url[..|SiteRoot|] == SiteRoot;
    url
  }

  /** The document title: the front-matter title, or else the first line of
      the raw text without its first two characters (empty for a line shorter
      than that). */
  function Title(front: FrontMatter, raw: string): (title: string)
    ensures Truthy(front.title) ==> title == front.title.value
    ensures !Truthy(front.title) ==> '\n' !in title
    ensures !Truthy(front.title) && |FirstLine(raw)| < 2 ==> title == ""
    ensures !Truthy(front.title) && |FirstLine(raw)| >= 2 ==> FirstLine(raw) == FirstLine(raw)[..2] + title
  {
    if Truthy(front.title) then front.title.value
    else
      var line := FirstLine(raw);
      if |line| < 2 then "" else line[2..]
  }

  // ------------------------------------------------------------ path lemmas

  /** A path `root/repo...` splits into `root`, `repo` and the pieces of
      what follows the second `/`. */
  lemma SplitPath(root: string, repo: string, rest: string)
    requires '/' !in root && '/' !in repo
    ensures Split(root + "/" + repo + "/" + rest, "/") == [root, repo] + Split(rest, "/")
  {
    SplitAtFirstChar(repo, '/', rest);
    assert root + "/" + repo + "/" + rest == root + ['/'] + (repo + ['/'] + rest);
    SplitAtFirstChar(root, '/', repo + ['/'] + rest);
  }

  /** `sourceOf` names the section of the repository directory in segment 1,
      whatever follows it. */
  lemma SourceOfRepository(root: string, repo: string, rest: string)
    requires '/' !in root && '/' !in repo
    ensures SourceOf(root + "/" + repo) == Section(repo)
    ensures SourceOf(root + "/" + repo + "/" + rest) == Section(repo)
  {
    SplitPath(root, repo, rest);
    var parts := Split(root + "/" + repo + "/" + rest, "/");
    assert parts[1] == repo;
    assert root + "/" + repo == root + ['/'] + repo;
    SplitAtFirstChar(root, '/', repo);
    SplitWithout(repo, '/');
    assert Split(root + "/" + repo, "/")[1] == repo;
  }

  /** A path with no `/` has no segment 1, so its section is unknown. */
  lemma SourceOfFlatName(fname: string)
    requires '/' !in fname
    ensures SourceOf(fname) == "unknown"
  {
    SplitWithout(fname, '/');
  }

  /** The two cases the source's comments give, for any file name. */
  lemma SourceOfExamples(name: string)
    ensures SourceOf("var/tigris-blog/" + name) == "blog"
    ensures SourceOf("var/tigris-os-docs/" + name) == "docs"
  {
    SourceOfRepository("var", "tigris-blog", name);
    SourceOfRepository("var", "tigris-os-docs", name);
    RepositoryPaths(name);
  }

  lemma RepositoryPaths(name: string)
    ensures "var/tigris-blog/" + name == "var" + "/" + "tigris-blog" + "/" + name
    ensures "var/tigris-os-docs/" + name == "var" + "/" + "tigris-os-docs" + "/" + name
  {
    assert "var/tigris-blog/" == "var" + "/" + "tigris-blog" + "/";
    assert "var/tigris-os-docs/" == "var" + "/" + "tigris-os-docs" + "/";
  }

  /** Dropping two segments leaves exactly what follows the second `/`; a
      path with fewer than two `/` leaves nothing. */
  lemma TailPathAfterTwoSegments(root: string, repo: string, rest: string)
    requires '/' !in root && '/' !in repo
    ensures TailPath(root + "/" + repo + "/" + rest) == rest
    ensures TailPath(root) == "" && TailPath(root + "/" + repo) == ""
  {
    SplitPath(root, repo, rest);
    assert ([root, repo] + Split(rest, "/"))[2..] == Split(rest, "/");
    SplitWithout(root, '/');
    assert root + "/" + repo == root + ['/'] + repo;
    SplitAtFirstChar(root, '/', repo);
    SplitWithout(repo, '/');
  }

  /** No `.md` or `.mdx` occurrence starts inside a stem free of `.md`, even
      one running into an extension that starts with a dot. */
  lemma NoEarlyExtension(stem: string, ext: string, j: nat)
    requires !Contains(stem, ".md")
    requires |ext| > 0 && ext[0] == '.'
    requires j < |stem|
    ensures !OccursAt(stem + ext, ".md", j) && !OccursAt(stem + ext, ".mdx", j)
  {
    var s := stem + ext;
    if j + 4 <= |s| {
      assert s[j..j + 3] == s[j..j + 4][..3];
    }
    if j + 3 <= |stem| {
      assert s[j..j + 3] == stem[j..j + 3];
      assert !OccursAt(stem, ".md", j);
    } else if j + 3 <= |s| {
      assert s[|stem|] == '.';
      assert s[j..j + 3][|stem| - j] == '.';
    }
  }

  /** Removing the first `.mdx` and then the first `.md` strips a `.md` or
      `.mdx` extension from a stem that does not itself contain `.md`. */
  lemma StripExtension(stem: string, ext: string)
    requires ext == ".md" || ext == ".mdx"
    requires !Contains(stem, ".md")
    ensures RemoveFirst(RemoveFirst(stem + ext, ".mdx"), ".md") == stem
  {
    var s := stem + ext;
    forall j | 0 <= j < |stem|
      ensures !OccursAt(s, ".md", j) && !OccursAt(s, ".mdx", j)
    {
      NoEarlyExtension(stem, ext, j);
    }
    assert s[..|stem|] == stem;
    if ext == ".mdx" {
      assert s[|stem|..|stem| + 4] == ".mdx";
      RemoveFirstAt(s, ".mdx", |stem|);
      assert s[|stem| + 4..] == "";
      assert RemoveFirst(s, ".mdx") == stem;
    } else {
      assert !Contains(s, ".mdx") by {
        forall j | 0 <= j <= |s| ensures !OccursAt(s, ".mdx", j) {
          if j < |stem| {
            assert !OccursAt(s, ".mdx", j);
          }
        }
      }
      assert s[|stem|..|stem| + 3] == ".md";
      RemoveFirstAt(s, ".md", |stem|);
      assert s[|stem| + 3..] == "";
    }
  }

  lemma NoDotNoMd(s: string)
    requires '.' !in s
    ensures !Contains(s, ".md")
  {
    forall j | 0 <= j <= |s| ensures !OccursAt(s, ".md", j) {
      if j + 3 <= |s| {
        assert s[j..j + 3][0] == s[j];
      }
    }
  }

  // ------------------------------------------------------------- URL lemmas

  /** With a truthy front-matter slug the URL is the site root, the
      repository's section, and the slug. */
  lemma UrlFromSlug(root: string, repo: string, rest: string, front: FrontMatter)
    requires '/' !in root && '/' !in repo
    requires Truthy(front.slug)
    ensures Url(root + "/" + repo + "/" + rest, front) ==
      SiteRoot + Section(repo) + "/" + front.slug.value
  {
    SourceOfRepository(root, repo, rest);
  }

  /** Without a slug the URL is the site root followed by the path after
      the repository directory, with its first `.mdx` and then its first
      `.md` removed, wherever in that path they occur. */
  lemma UrlFromTail(root: string, repo: string, tail: string, front: FrontMatter)
    requires '/' !in root && '/' !in repo
    requires !Truthy(front.slug)
    ensures Url(root + "/" + repo + "/" + tail, front) ==
      SiteRoot + RemoveFirst(RemoveFirst(tail, ".mdx"), ".md")
  {
    TailPathAfterTwoSegments(root, repo, tail);
  }

  /** For a stem with no `.md` of its own, that removal strips exactly the
      extension. The first segment kept is the repository's own top
      directory (`docs/...`), not dropped. */
  lemma UrlFromPath(root: string, repo: string, stem: string, ext: string, front: FrontMatter)
    requires '/' !in root && '/' !in repo
    requires ext == ".md" || ext == ".mdx"
    requires !Contains(stem, ".md")
    requires !Truthy(front.slug)
    ensures Url(root + "/" + repo + "/" + stem + ext, front) == SiteRoot + stem
  {
    assert root + "/" + repo + "/" + stem + ext == root + "/" + repo + "/" + (stem + ext);
    UrlFromTail(root, repo, stem + ext, front);
    StripExtension(stem, ext);
  }

  /** A `.md` earlier in the path than the extension is the one removed: a
      page `d.md` + `e` + `.md` (with no other dot, and `e` not opening with
      `x`) keeps its extension in the URL and loses the earlier `.md`. */
  lemma UrlDropsEarlierMd(root: string, repo: string, d: string, e: string, front: FrontMatter)
    requires '/' !in root && '/' !in repo
    requires '.' !in d && '.' !in e
    requires |e| > 0 && e[0] != 'x'
    requires !Truthy(front.slug)
    ensures Url(root + "/" + repo + "/" + (d + ".md" + e + ".md"), front) == SiteRoot + (d + e + ".md")
  {
    UrlFromTail(root, repo, d + ".md" + e + ".md", front);
    StripEarlierMd(d, e);
  }

  lemma StripEarlierMd(d: string, e: string)
    requires '.' !in d && '.' !in e
    requires |e| > 0 && e[0] != 'x'
    ensures RemoveFirst(RemoveFirst(d + ".md" + e + ".md", ".mdx"), ".md") == d + e + ".md"
  {
    var t := d + ".md" + e + ".md";
    assert RemoveFirst(t, ".mdx") == t by {
      NoMdxAfterMd(d, e);
    }
    assert RemoveFirst(t, ".md") == d + e + ".md" by {
      assert t[..|d|] == d && t[|d|..|d| + 3] == ".md" && t[|d| + 3..] == e + ".md";
      forall j | 0 <= j < |d| ensures !OccursAt(t, ".md", j) {
        assert t[j..j + 3][0] == t[j] == d[j];
      }
      RemoveFirstAt(t, ".md", |d|);
    }
  }

  lemma NoMdxAfterMd(d: string, e: string)
    requires '.' !in d && '.' !in e
    requires |e| > 0 && e[0] != 'x'
    ensures !Contains(d + ".md" + e + ".md", ".mdx")
  {
    var t := d + ".md" + e + ".md";
    assert |t| == |d| + |e| + 6;
    assert forall k :: 0 <= k < |d| ==> t[k] == d[k];
    assert forall k :: 0 <= k < |e| ==> t[|d| + 3 + k] == e[k];
    assert t[|d|..|d| + 3] == ".md";
    forall j | 0 <= j <= |t| ensures !OccursAt(t, ".mdx", j) {
      if j + 4 <= |t| {
        assert t[j..j + 4][0] == t[j] && t[j..j + 4][3] == t[j + 3];
        if j < |d| {
          assert t[j] == d[j];
        } else if j == |d| {
          assert t[j + 3] == e[0];
        } else if j >= |d| + 3 {
          assert t[j] == e[j - |d| - 3];
        }
      }
    }
  }

  /** A page under a directory of a repository is addressed by the
      directory and the page path, with no section in between. */
  lemma UrlUnderDirectory(root: string, repo: string, dir: string, page: string,
                          ext: string, front: FrontMatter)
    requires '/' !in root && '/' !in repo
    requires '.' !in dir && '.' !in page
    requires ext == ".md" || ext == ".mdx"
    requires !Truthy(front.slug)
    ensures Url(root + "/" + repo + "/" + dir + page + ext, front) == SiteRoot + dir + page
  {
    var stem := dir + page;
    assert '.' !in stem by {
      assert forall k :: 0 <= k < |page| ==> stem[|dir| + k] == page[k];
    }
    var path := root + "/" + repo + "/" + stem + ext;
    assert root + "/" + repo + "/" + dir + page + ext == path by {
      assert root + "/" + repo + "/" + dir + page == root + "/" + repo + "/" + stem;
    }
    assert Url(path, front) == SiteRoot + stem by {
      NoDotNoMd(stem);
      UrlFromPath(root, repo, stem, ext, front);
    }
  }

  /** A docs-repository page keeps its `docs/` directory in the URL: the
      address is the site root followed by `docs/` and the page path. */
  lemma DocsPageUrl(page: string, ext: string, front: FrontMatter)
    requires '.' !in page
    requires ext == ".md" || ext == ".mdx"
    requires !Truthy(front.slug)
    ensures Url("var/tigris-os-docs/docs/" + page + ext, front) == SiteRoot + "docs/" + page
  {
    var path := "var" + "/" + "tigris-os-docs" + "/" + "docs/" + page + ext;
    assert "var/tigris-os-docs/docs/" + page + ext == path by {
      DocsPagePath(page + ext);
      assert "var/tigris-os-docs/docs/" + page + ext == "var/tigris-os-docs/docs/" + (page + ext);
      assert path == "var" + "/" + "tigris-os-docs" + "/" + "docs/" + (page + ext);
    }
    assert Url(path, front) == SiteRoot + "docs/" + page by {
      UrlUnderDirectory("var", "tigris-os-docs", "docs/", page, ext, front);
    }
  }

  lemma DocsPagePath(name: string)
    ensures "var/tigris-os-docs/docs/" + name == "var" + "/" + "tigris-os-docs" + "/" + "docs/" + name
  {
    assert "var/tigris-os-docs/docs/" == "var" + "/" + "tigris-os-docs" + "/" + "docs/";
  }

  // ----------------------------------------------------------- title lemmas

  /** Without a title in the front matter, a file opening with a `# `
      heading line is titled by the heading text. */
  lemma TitleFromHeading(front: FrontMatter, heading: string, rest: string)
    requires !Truthy(front.title)
    requires '\n' !in heading
    ensures Title(front, "# " + heading) == heading
    ensures Title(front, "# " + heading + "\n" + rest) == heading
  {
    assert '\n' !in "# " + heading by {
      assert forall k :: 0 <= k < |heading| ==> ("# " + heading)[k + 2] == heading[k];
    }
    FirstLineOf("# " + heading, rest);
  }

  /** Without a title in the front matter, a file that opens with its
      front-matter block is titled `-`: the first line is `---`. */
  lemma TitleOfUntitledFrontMatter(front: FrontMatter, rest: string)
    requires !Truthy(front.title)
    ensures Title(front, "---\n" + rest) == "-"
  {
    FirstLineOf("---", rest);
    assert "---\n" + rest == "---" + "\n" + rest;
  }
}
