/**
 * One build: walk the pages directory, collect the page records, sort the
 * blog list, render every page with its context, and report the page
 * count and the sorted blog list.
 */
module Build {
  import opened Wrappers
  import opened Json
  import opened Walk
  import opened Pages
  import opened BlogIndex

  /** The data each page's template is rendered with. */
  datatype RenderContext = RenderContext(
    config: map<string, Value>,
    pages: string,
    partials: string,
    pageConfig: map<string, Value>,
    blogs: seq<Page>)

  /** One file written by the build: its path and its rendered text. */
  datatype Output = Output(path: string, html: string)

  /** What a build reports. */
  datatype BuildResult = BuildResult(pageCount: nat, blogs: seq<Page>)

  /** The context of page `pg`: the site configuration, the two directories with a trailing '/', its own metadata and the sorted blog list. */
  function ContextFor(site: Site, pg: Page, blogs: seq<Page>): RenderContext {
    RenderContext(site.config, site.pagesDir + "/", site.partialsDir + "/", pg.config, blogs)
  }

  /**
   * `Object.values(fileMap).map(render)`: one output per key in insertion
   * order, the key's record rendered into its output file.
   */
  function Outputs(site: Site, fileMap: map<string, Page>, keys: seq<string>, blogs: seq<Page>,
                   render: (string, RenderContext) -> string): (outs: seq<Output>)
    requires forall k :: k in keys ==> k in fileMap
    ensures |outs| == |keys|
    ensures forall i :: 0 <= i < |keys| ==>
              var pg := fileMap[keys[i]];
              outs[i] == Output(pg.outputFilename, render(pg.text, ContextFor(site, pg, blogs)))
    decreases |keys|
  {
    if keys == [] then []
    else
      var pg := fileMap[keys[|keys| - 1]];
      Outputs(site, fileMap, keys[..|keys| - 1], blogs, render) +
        [Output(pg.outputFilename, render(pg.text, ContextFor(site, pg, blogs)))]
  }

  /** The pages of a build, in walk order. */
  function SitePages(site: Site, tree: seq<Entry>, read: string -> string, parse: string -> Option<Value>): seq<Page> {
    PagesOf(site, Flatten(tree, []), Builder(site, read, parse))
  }

  /**
   * build(): the walk, the collection loop, the blog sort and the render
   * of every page. `read` and `parse` stand for the file system and
   * JSON.parse, `render` for the template engine.
   */
  method Build(site: Site, tree: seq<Entry>, read: string -> string, parse: string -> Option<Value>,
               render: (string, RenderContext) -> string)
    returns (result: BuildResult, outputs: seq<Output>)
    ensures var pages := SitePages(site, tree, read, parse);
            && result.blogs == SortByDate(BlogsOf(pages))
            && result.pageCount == |MapOf(pages)|
            && outputs == Outputs(site, MapOf(pages), KeyOrder(pages), result.blogs, render)
  {
    BuilderNamesPages(site, read, parse);
    result, outputs := BuildWith(site, tree, Builder(site, read, parse), render);
  }

  /** The build with page records made by `make`, which names each record after its file. */
  method BuildWith(site: Site, tree: seq<Entry>, make: Path -> Page, render: (string, RenderContext) -> string)
    returns (result: BuildResult, outputs: seq<Output>)
    requires NamesPages(site, make)
    ensures var pages := PagesOf(site, Flatten(tree, []), make);
            && result.blogs == SortByDate(BlogsOf(pages))
            && result.pageCount == |MapOf(pages)|
            && outputs == Outputs(site, MapOf(pages), KeyOrder(pages), result.blogs, render)
  {
    var allFiles := Walk.Walk(tree, [], []);
    assert allFiles == Flatten(tree, []);
    var fileMap, keys, blogs := Collect(site, allFiles, make);
    var sorted := new Page[|blogs|](i requires 0 <= i < |blogs| => blogs[i]);
    assert sorted[..] == blogs;
    Sort(sorted, Compare);
    var sortedBlogs := sorted[..];
    outputs := Outputs(site, fileMap, keys, sortedBlogs, render);
    result := BuildResult(|fileMap|, sortedBlogs);
  }

  /**
   * In a well-formed tree no file name repeats: the page count is the
   * number of walked files ending in `.ejs`, every page is rendered once,
   * in walk order.
   */
  lemma {:induction false} WellFormedSite(site: Site, tree: seq<Entry>, read: string -> string, parse: string -> Option<Value>)
    requires WellFormed(tree)
    ensures var pages := SitePages(site, tree, read, parse);
            && |MapOf(pages)| == |pages| == |PageFiles(site, Flatten(tree, []))|
            && KeyOrder(pages) == FileNames(pages)
            && forall pg :: pg in pages ==> MapOf(pages)[pg.fileName] == pg
  {
    var files := Flatten(tree, []);
    FlattenDistinct(tree, []);
    forall q | q in files
      ensures ValidPath(q)
    {
      FlattenValid(tree, [], q);
    }
    BuilderNamesPages(site, read, parse);
    FileNamesDistinct(site, files, Builder(site, read, parse));
    MapOfDistinct(SitePages(site, tree, read, parse));
    PagesOfPageFiles(site, files, Builder(site, read, parse));
  }
}
