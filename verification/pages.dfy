/**
 * Page collection: every walked file whose name ends in `.ejs` becomes a
 * page record holding its text, file names and merged metadata; the
 * records are gathered in a map keyed by file name and the blog pages in
 * a list, in walk order.
 */
module Pages {
  import opened Wrappers
  import opened Json
  import opened Strings
  import opened Frontmatter
  import opened Links
  import opened Walk

  /** The resolved directories of one build and the site configuration object. */
  datatype Site = Site(pagesDir: string, partialsDir: string, outDir: string, config: map<string, Value>)

  /** The record kept for each page. */
  datatype Page = Page(text: string, fileName: string, outputFilename: string, config: map<string, Value>)

  /** The name of a walked file: the pages directory joined with the walked path. */
  function FileName(pagesDir: string, p: Path): string {
    pagesDir + "/" + JoinPath(p)
  }

  /** Only files whose name ends in `.ejs` are pages. */
  predicate IsPageFile(fileName: string) {
    EndsWith(fileName, PageExt)
  }

  /** `config.title || ''`: the site title when it is truthy, else the empty string. */
  function DefaultTitle(siteConfig: map<string, Value>): (t: Value)
    ensures Truthy(t) <==> "title" in siteConfig && Truthy(siteConfig["title"])
    ensures Truthy(t) ==> t == siteConfig["title"]
    ensures !Truthy(t) ==> t == Str("")
  {
    if "title" in siteConfig && Truthy(siteConfig["title"]) then siteConfig["title"] else Str("")
  }

  /** The metadata every page starts from, before its frontmatter is spread over it. */
  function Defaults(link: string, siteConfig: map<string, Value>): map<string, Value> {
    map["link" := Str(LinkOrRoot(link)), "type" := Str("page"), "title" := DefaultTitle(siteConfig)]
  }

  /**
   * `{ link, type, title, ...frontmatter }`: the keys are the three
   * defaults and the frontmatter's own keys, and a frontmatter key wins
   * over a default of the same name.
   */
  function PageConfig(link: string, siteConfig: map<string, Value>, fm: Value): (c: map<string, Value>)
    ensures c.Keys == {"link", "type", "title"} + Spread(fm).Keys
    ensures forall k :: k in Spread(fm) ==> c[k] == Spread(fm)[k]
    ensures forall k :: k in Defaults(link, siteConfig) && k !in Spread(fm) ==> c[k] == Defaults(link, siteConfig)[k]
  {
    Defaults(link, siteConfig) + Spread(fm)
  }

  /** A frontmatter that is not an object (a number, a string, an array, null) never replaces a default. */
  lemma NonObjectKeepsDefaults(link: string, siteConfig: map<string, Value>, fm: Value)
    requires !fm.Obj?
    ensures var c := PageConfig(link, siteConfig, fm);
            c["link"] == Str(LinkOrRoot(link)) && c["type"] == Str("page") && c["title"] == DefaultTitle(siteConfig)
  {
    assert !IsIndexKey("link") by { assert "link"[0] == 'l'; }
    assert !IsIndexKey("type") by { assert "type"[0] == 't'; }
    assert !IsIndexKey("title") by { assert "title"[0] == 't'; }
  }

  /** A page without a usable frontmatter block has exactly the default metadata. */
  lemma NoFrontmatterGivesDefaults(link: string, siteConfig: map<string, Value>)
    ensures PageConfig(link, siteConfig, EmptyObject) == Defaults(link, siteConfig)
  {
    assert Spread(EmptyObject) == map[];
  }

  /**
   * The record of the walked file `p`: its text, its name, its output file
   * and its merged metadata; `read` stands for reading a file's text.
   */
  function MakePage(site: Site, p: Path, read: string -> string, parse: string -> Option<Value>): (pg: Page)
    ensures pg.fileName == FileName(site.pagesDir, p)
  {
    var relativePath := JoinPath(p);
    var fileName := FileName(site.pagesDir, p);
    var text := read(fileName);
    var outputFilename := OutputFilename(site.outDir, relativePath);
    var link := Link(relativePath);
    var frontmatter := ParseFrontmatter(text, parse);
    Page(text, fileName, outputFilename, PageConfig(link, site.config, frontmatter))
  }

  /** The record builder of one build: the same site, reader and parser for every page. */
  function Builder(site: Site, read: string -> string, parse: string -> Option<Value>): Path -> Page {
    p => MakePage(site, p, read, parse)
  }

  /** A builder that records each page under its own file name. */
  ghost predicate NamesPages(site: Site, make: Path -> Page) {
    forall p :: make(p).fileName == FileName(site.pagesDir, p)
  }

  lemma BuilderNamesPages(site: Site, read: string -> string, parse: string -> Option<Value>)
    ensures NamesPages(site, Builder(site, read, parse))
  {
  }

  /** The records `make` builds for the page files among `files`, in order. */
  function PagesOf(site: Site, files: seq<Path>, make: Path -> Page): (pages: seq<Page>)
    ensures |pages| <= |files|
    decreases |files|
  {
    if files == [] then []
    else
      var p := files[|files| - 1];
      var init := PagesOf(site, files[..|files| - 1], make);
      if IsPageFile(FileName(site.pagesDir, p)) then init + [make(p)] else init
  }

  /** `pg` is the record of the page file `files[i]`. */
  predicate BuildsPage(site: Site, files: seq<Path>, make: Path -> Page, pg: Page, i: int) {
    0 <= i < |files| && IsPageFile(FileName(site.pagesDir, files[i])) && pg == make(files[i])
  }

  /** A record is built for every page file and for nothing else. */
  lemma {:induction false} PagesOfMembers(site: Site, files: seq<Path>, make: Path -> Page, pg: Page)
    ensures pg in PagesOf(site, files, make) <==> exists i :: BuildsPage(site, files, make, pg, i)
    decreases |files|
  {
    if files != [] {
      var n := |files| - 1;
      var init, p := files[..n], files[n];
      var pages := PagesOf(site, files, make);
      var before := PagesOf(site, init, make);
      PagesOfMembers(site, init, make, pg);
      assert pages == if IsPageFile(FileName(site.pagesDir, p)) then before + [make(p)] else before;
      if pg in pages {
        if pg in before {
          var i :| BuildsPage(site, init, make, pg, i);
          assert init[i] == files[i];
          assert BuildsPage(site, files, make, pg, i);
        } else {
          assert BuildsPage(site, files, make, pg, n);
        }
      }
      if i :| BuildsPage(site, files, make, pg, i) {
        if i < n {
          assert init[i] == files[i];
          assert BuildsPage(site, init, make, pg, i);
        }
      }
    }
  }

  /** Only page files become pages: every record's file name ends in `.ejs`. */
  lemma PagesArePageFiles(site: Site, files: seq<Path>, make: Path -> Page)
    requires NamesPages(site, make)
    ensures forall pg :: pg in PagesOf(site, files, make) ==> IsPageFile(pg.fileName)
  {
    forall pg | pg in PagesOf(site, files, make)
      ensures IsPageFile(pg.fileName)
    {
      PagesOfMembers(site, files, make, pg);
    }
  }

  lemma PagesOfSnoc(site: Site, files: seq<Path>, p: Path, make: Path -> Page)
    ensures PagesOf(site, files + [p], make) ==
            if IsPageFile(FileName(site.pagesDir, p)) then PagesOf(site, files, make) + [make(p)]
            else PagesOf(site, files, make)
  {
    assert (files + [p])[..|files|] == files;
  }

  /** The walked files whose full name ends in `.ejs`, in walk order. */
  function PageFiles(site: Site, files: seq<Path>): (r: seq<Path>)
    ensures forall p :: p in r <==> p in files && IsPageFile(FileName(site.pagesDir, p))
    decreases |files|
  {
    if files == [] then []
    else
      var p := files[|files| - 1];
      var init := PageFiles(site, files[..|files| - 1]);
      assert files == files[..|files| - 1] + [p];
      if IsPageFile(FileName(site.pagesDir, p)) then init + [p] else init
  }

  /** One record per page file, built from it, in the same order. */
  lemma {:induction false} PagesOfPageFiles(site: Site, files: seq<Path>, make: Path -> Page)
    ensures |PagesOf(site, files, make)| == |PageFiles(site, files)|
    ensures forall i :: 0 <= i < |PageFiles(site, files)| ==>
              PagesOf(site, files, make)[i] == make(PageFiles(site, files)[i])
    decreases |files|
  {
    if files != [] {
      PagesOfPageFiles(site, files[..|files| - 1], make);
    }
  }

  /** The file name of each page, in order. */
  function FileNames(pages: seq<Page>): (names: seq<string>)
    ensures |names| == |pages|
    ensures forall i :: 0 <= i < |pages| ==> names[i] == pages[i].fileName
    decreases |pages|
  {
    if pages == [] then [] else FileNames(pages[..|pages| - 1]) + [pages[|pages| - 1].fileName]
  }

  /** `fileMap[fileName] = fObj` for each page in turn: a later page replaces an earlier one of the same name. */
  function MapOf(pages: seq<Page>): (m: map<string, Page>)
    ensures m.Keys == set pg | pg in pages :: pg.fileName
    decreases |pages|
  {
    if pages == [] then map[]
    else
      var last := pages[|pages| - 1];
      MapOf(pages[..|pages| - 1])[last.fileName := last]
  }

  /** The keys of the file map in insertion order, the order `Object.values` follows. */
  function KeyOrder(pages: seq<Page>): (keys: seq<string>)
    ensures forall k :: k in keys <==> k in MapOf(pages)
    decreases |pages|
  {
    if pages == [] then []
    else
      var init := pages[..|pages| - 1];
      var name := pages[|pages| - 1].fileName;
      if name in MapOf(init) then KeyOrder(init) else KeyOrder(init) + [name]
  }

  /** Each key of the file map is listed once: the number of keys is the size of the map. */
  lemma {:induction false} KeyOrderDistinct(pages: seq<Page>)
    ensures Distinct(KeyOrder(pages))
    ensures |KeyOrder(pages)| == |MapOf(pages)|
    decreases |pages|
  {
    if pages != [] {
      var init := pages[..|pages| - 1];
      KeyOrderDistinct(init);
      var name := pages[|pages| - 1].fileName;
      if name !in MapOf(init) {
        var keys := KeyOrder(init);
        assert name !in keys;
        assert |MapOf(pages).Keys| == |MapOf(init).Keys + {name}|;
        DistinctConcat(keys, [name]);
      } else {
        assert MapOf(pages).Keys == MapOf(init).Keys;
      }
    }
  }

  /** With distinct file names the last page's name is not yet a key. */
  lemma LastNameNew(init: seq<Page>, last: Page)
    requires Distinct(FileNames(init + [last]))
    ensures Distinct(FileNames(init))
    ensures last.fileName !in MapOf(init)
  {
    var names := FileNames(init + [last]);
    assert FileNames(init) == names[..|init|];
    forall pg | pg in init
      ensures pg.fileName != last.fileName
    {
      var i :| 0 <= i < |init| && init[i] == pg;
      assert names[i] == pg.fileName && names[|init|] == last.fileName;
    }
  }

  /** With distinct file names every page keeps its own entry, listed in page order. */
  lemma {:induction false} MapOfDistinct(pages: seq<Page>)
    requires Distinct(FileNames(pages))
    ensures |MapOf(pages)| == |pages|
    ensures KeyOrder(pages) == FileNames(pages)
    ensures forall pg :: pg in pages ==> MapOf(pages)[pg.fileName] == pg
    decreases |pages|
  {
    if pages != [] {
      var init, last := pages[..|pages| - 1], pages[|pages| - 1];
      assert pages == init + [last];
      LastNameNew(init, last);
      MapOfDistinct(init);
      CollectStep(init, last);
      assert MapOf(pages).Keys == MapOf(init).Keys + {last.fileName};
      forall pg | pg in pages
        ensures MapOf(pages)[pg.fileName] == pg
      {
        if pg != last {
          assert pg in init;
        }
      }
    }
  }

  /** `pageConfig.type === 'blog'`. */
  predicate IsBlog(pg: Page) {
    "type" in pg.config && pg.config["type"] == Str("blog")
  }

  /** The blog pages among `pages`, in order. */
  function BlogsOf(pages: seq<Page>): (blogs: seq<Page>)
    ensures forall pg :: pg in blogs <==> pg in pages && IsBlog(pg)
    ensures |blogs| <= |pages|
    decreases |pages|
  {
    if pages == [] then []
    else
      var last := pages[|pages| - 1];
      var init := BlogsOf(pages[..|pages| - 1]);
      if IsBlog(last) then init + [last] else init
  }

  /** A page is a blog page exactly when its frontmatter spreads `type: 'blog'`: the default type is 'page'. */
  lemma BlogByFrontmatter(site: Site, p: Path, read: string -> string, parse: string -> Option<Value>)
    ensures var pg := MakePage(site, p, read, parse);
            var fm := Spread(ParseFrontmatter(pg.text, parse));
            IsBlog(pg) <==> "type" in fm && fm["type"] == Str("blog")
  {
    var pg := MakePage(site, p, read, parse);
    var fm := Spread(ParseFrontmatter(pg.text, parse));
    if "type" !in fm {
      assert pg.config["type"] == Str("page");
    }
  }

  /** One more page: its record is stored under its name, its name listed if new, and it is pushed if a blog. */
  lemma CollectStep(pages: seq<Page>, pg: Page)
    ensures MapOf(pages + [pg]) == MapOf(pages)[pg.fileName := pg]
    ensures KeyOrder(pages + [pg]) == if pg.fileName in MapOf(pages) then KeyOrder(pages) else KeyOrder(pages) + [pg.fileName]
    ensures BlogsOf(pages + [pg]) == if IsBlog(pg) then BlogsOf(pages) + [pg] else BlogsOf(pages)
  {
    assert (pages + [pg])[..|pages|] == pages;
  }

  /**
   * The collection loop of the build: for each walked file whose name ends
   * in `.ejs`, build its record, store it in the file map under its file
   * name and, when its merged type is 'blog', push it onto the blog list.
   */
  method Collect(site: Site, allFiles: seq<Path>, make: Path -> Page)
    returns (fileMap: map<string, Page>, keys: seq<string>, blogs: seq<Page>)
    requires NamesPages(site, make)
    ensures fileMap == MapOf(PagesOf(site, allFiles, make))
    ensures keys == KeyOrder(PagesOf(site, allFiles, make))
    ensures blogs == BlogsOf(PagesOf(site, allFiles, make))
  {
    fileMap, keys, blogs := map[], [], [];
    ghost var pages: seq<Page> := [];
    var i := 0;
    while i < |allFiles|
      invariant 0 <= i <= |allFiles|
      invariant pages == PagesOf(site, allFiles[..i], make)
      invariant fileMap == MapOf(pages) && keys == KeyOrder(pages) && blogs == BlogsOf(pages)
    {
      var p := allFiles[i];
      assert allFiles[..i + 1] == allFiles[..i] + [p];
      PagesOfSnoc(site, allFiles[..i], p, make);
      var fileName := FileName(site.pagesDir, p);
      if IsPageFile(fileName) {
        var fObj := make(p);
        assert fObj.fileName == fileName;
        CollectStep(pages, fObj);
        if fileName !in fileMap {
          keys := keys + [fileName];
        }
        fileMap := fileMap[fileName := fObj];
        if IsBlog(fObj) {
          blogs := blogs + [fObj];
        }
        pages := pages + [fObj];
      }
      i := i + 1;
    }
    assert allFiles[..i] == allFiles;
  }

  /** Distinct valid walked paths give distinct page file names. */
  lemma {:induction false} FileNamesDistinct(site: Site, files: seq<Path>, make: Path -> Page)
    requires NamesPages(site, make)
    requires Distinct(files)
    requires forall q :: q in files ==> ValidPath(q)
    ensures Distinct(FileNames(PagesOf(site, files, make)))
    decreases |files|
  {
    if files != [] {
      var n := |files| - 1;
      var init := files[..n];
      var p := files[n];
      assert Distinct(init);
      FileNamesDistinct(site, init, make);
      var pages := PagesOf(site, init, make);
      if IsPageFile(FileName(site.pagesDir, p)) {
        var pg := make(p);
        forall x, y | x in FileNames(pages) && y in [pg.fileName]
          ensures x != y
        {
          var k :| 0 <= k < |pages| && FileNames(pages)[k] == x;
          PagesOfMembers(site, init, make, pages[k]);
          var i :| BuildsPage(site, init, make, pages[k], i);
          assert init[i] == files[i];
          if x == y {
            FileNameInjective(site.pagesDir, init[i], p);
            assert false;
          }
        }
        DistinctConcat(FileNames(pages), [pg.fileName]);
        assert FileNames(pages + [pg]) == FileNames(pages) + [pg.fileName];
      }
    }
  }

  /** Different valid paths are different file names under the same pages directory. */
  lemma FileNameInjective(pagesDir: string, p: Path, q: Path)
    requires ValidPath(p) && ValidPath(q) && FileName(pagesDir, p) == FileName(pagesDir, q)
    ensures p == q
  {
    var prefix := pagesDir + "/";
    assert JoinPath(p) == FileName(pagesDir, p)[|prefix|..];
    assert JoinPath(q) == FileName(pagesDir, q)[|prefix|..];
    JoinPathInjective(p, q);
  }
}
