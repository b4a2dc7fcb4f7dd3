/**
 * Output paths and site links of a page, derived from its path relative
 * to the pages directory (segments separated by '/').
 */
module Links {
  import opened Strings

  const PageExt := ".ejs"
  const HtmlExt := ".html"
  const IndexHtml := "index.html"

  /** `relativePath.replace('.ejs', '.html')`: the FIRST `.ejs` is rewritten, wherever it is. */
  function HtmlPath(rel: string): string {
    ReplaceFirst(rel, PageExt, HtmlExt)
  }

  /** The page's output file: the rewritten relative path joined onto the output directory. */
  function OutputFilename(outDir: string, rel: string): (out: string)
    ensures StartsWith(out, outDir + "/")
    ensures out[|outDir| + 1..] == HtmlPath(rel)
  {
    outDir + "/" + HtmlPath(rel)
  }

  /** '/' followed by `h` with a trailing `index.html` and then one trailing '/' removed. */
  function LinkOf(h: string): (link: string)
    ensures link != [] && link[0] == '/'
  {
    "/" + StripSuffix(StripSuffix(h, IndexHtml), "/")
  }

  /** The page's link, computed from its rewritten relative path. */
  function Link(rel: string): (link: string)
    ensures link != [] && link[0] == '/'
  {
    LinkOf(HtmlPath(rel))
  }

  /** `link || '/'`: the fallback for an empty link. */
  function LinkOrRoot(link: string): string {
    if link == "" then "/" else link
  }

  /** The `|| '/'` fallback never applies: a link is never empty. */
  lemma LinkFallbackUnused(rel: string)
    ensures LinkOrRoot(Link(rel)) == Link(rel)
  {
  }

  /**
   * The link is '/' and the output path below the output directory, with
   * at most a trailing `index.html` and one '/' before it cut off.
   */
  lemma LinkIsOutputPathPrefix(outDir: string, rel: string)
    ensures var h := OutputFilename(outDir, rel)[|outDir| + 1..];
            || Link(rel) == "/" + h
            || Link(rel) + "/" == "/" + h
            || Link(rel) + IndexHtml == "/" + h
            || Link(rel) + "/" + IndexHtml == "/" + h
  {
    LinkOfIsPrefix(HtmlPath(rel));
  }

  lemma LinkOfIsPrefix(h: string)
    ensures || LinkOf(h) == "/" + h
            || LinkOf(h) + "/" == "/" + h
            || LinkOf(h) + IndexHtml == "/" + h
            || LinkOf(h) + "/" + IndexHtml == "/" + h
  {
    var u := StripSuffix(h, IndexHtml);
    var v := StripSuffix(u, "/");
    assert LinkOf(h) == "/" + v;
    if EndsWith(h, IndexHtml) {
      assert u + IndexHtml == h;
      if EndsWith(u, "/") {
        assert v + "/" == u;
        assert "/" + v + "/" + IndexHtml == "/" + h;
      } else {
        assert "/" + v + IndexHtml == "/" + h;
      }
    } else if EndsWith(u, "/") {
      assert "/" + v + "/" == "/" + h;
    }
  }

  /** A file name whose only '.' is that of its `.ejs` extension gets that extension rewritten. */
  lemma HtmlPathOfPlainName(base: string)
    requires '.' !in base
    ensures HtmlPath(base + PageExt) == base + HtmlExt
  {
    var s := base + PageExt;
    assert s[|base|..] == PageExt;
    assert OccursAt(s, PageExt, |base|);
    forall j | 0 <= j < |base|
      ensures !OccursAt(s, PageExt, j)
    {
      assert s[j] == base[j];
      NotOccursAtMismatch(s, PageExt, j, 0);
    }
    assert FirstOccurrence(s, PageExt, |base|);
    assert s[..|base|] == base;
  }

  /** `base.html` ends in `index.html` only when `base` ends in `index`. */
  lemma IndexHtmlSuffix(base: string)
    requires EndsWith(base + HtmlExt, IndexHtml)
    ensures EndsWith(base, "index")
  {
    var h := base + HtmlExt;
    assert h[|h| - 10..] == IndexHtml;
    assert base[|base| - 5..] == h[|h| - 10..][..5];
  }

  /** A name not ending in `index` keeps its `.html` in the link. */
  lemma LinkOfPlainHtml(base: string)
    requires !EndsWith(base, "index")
    ensures LinkOf(base + HtmlExt) == "/" + base + HtmlExt
  {
    var h := base + HtmlExt;
    if EndsWith(h, IndexHtml) {
      IndexHtmlSuffix(base);
    }
    assert h[|h| - 1] == 'l';
    assert !EndsWith(h, "/");
  }

  /** A directory index collapses to the directory, without its trailing '/'. */
  lemma LinkOfIndexHtml(dir: string)
    ensures LinkOf(dir + IndexHtml) == "/" + StripSuffix(dir, "/")
  {
    var h := dir + IndexHtml;
    assert h[|h| - 10..] == IndexHtml;
    assert h[..|h| - 10] == dir;
  }

  /** A page whose name has no other '.' and does not end in `index` links to its `.html` file. */
  lemma LinkOfPlainPage(base: string)
    requires '.' !in base && !EndsWith(base, "index")
    ensures Link(base + PageExt) == "/" + base + HtmlExt
  {
    HtmlPathOfPlainName(base);
    LinkOfPlainHtml(base);
  }

  /**
   * An `index.ejs` page links to what precedes `index` with one trailing
   * '/' removed: the root index to "/", a directory index to the directory
   * (dots in it included, as in `v1.2/index.ejs`), and, since the cut is not
   * at a segment boundary, `myindex.ejs` to "/my". The condition is that no
   * `.ejs` comes before the page's own extension.
   */
  lemma LinkOfIndexPage(prefix: string)
    requires !Occurs(prefix, PageExt)
    ensures Link(prefix + "index" + PageExt) == "/" + StripSuffix(prefix, "/")
  {
    IndexPageHtmlPath(prefix);
    LinkOfRewritten(prefix + "index" + PageExt, prefix + IndexHtml);
    LinkOfIndexHtml(prefix);
  }

  /** Such a page is rewritten to `prefix + "index.html"`. */
  lemma IndexPageHtmlPath(prefix: string)
    requires !Occurs(prefix, PageExt)
    ensures HtmlPath(prefix + "index" + PageExt) == prefix + IndexHtml
  {
    var s := prefix + "index" + PageExt;
    var n := |prefix| + 5;
    IndexExtIsFirst(prefix);
    assert s[..n] == prefix + "index" && s[n + 4..] == [];
    assert prefix + "index" + HtmlExt == prefix + IndexHtml;
  }

  /** In `prefix + "index.ejs"`, with no `.ejs` in `prefix`, the page's own extension is the first `.ejs`. */
  lemma IndexExtIsFirst(prefix: string)
    requires !Occurs(prefix, PageExt)
    ensures FirstOccurrence(prefix + "index" + PageExt, PageExt, |prefix| + 5)
  {
    var s := prefix + "index" + PageExt;
    var n := |prefix|;
    assert s[n + 5..n + 9] == PageExt;
    forall j | 0 <= j < n + 5
      ensures !OccursAt(s, PageExt, j)
    {
      if j + 4 <= n {
        assert !OccursAt(prefix, PageExt, j);
        assert s[j..j + 4] == prefix[j..j + 4];
      } else if j <= n {
        assert s[n] == 'i';
        NotOccursAtMismatch(s, PageExt, j, n - j);
      } else {
        assert s[j] == "index"[j - n];
        NotOccursAtMismatch(s, PageExt, j, 0);
      }
    }
  }

  /** A string without '.' holds no `.ejs`. */
  lemma NoDotNoExt(s: string)
    requires '.' !in s
    ensures !Occurs(s, PageExt)
  {
    forall i | 0 <= i < |s|
      ensures !OccursAt(s, PageExt, i)
    {
      NotOccursAtMismatch(s, PageExt, i, 0);
    }
  }

  /*
   * The concrete pages of the site. Each path is passed as a parameter
   * equal to the literal, so that the verifier reasons from the general
   * lemmas above instead of evaluating the string functions on literals.
   */

  /** The root index links to "/". */
  lemma RootIndexLink(rel: string)
    requires rel == "index.ejs"
    ensures Link(rel) == "/"
  {
    assert rel == "" + "index" + PageExt;
    NoDotNoExt("");
    LinkOfIndexPage("");
  }

  /** `about.ejs` links to its own `.html` file. */
  lemma AboutLink(rel: string)
    requires rel == "about.ejs"
    ensures Link(rel) == "/about.html"
  {
    var base := rel[..5];
    assert rel == base + PageExt;
    assert !EndsWith(base, "index") by {
      assert base[0] == 'a';
    }
    LinkOfPlainPage(base);
    SpellAbout(base);
  }

  /** The link of `about.ejs`, spelled out. */
  lemma SpellAbout(base: string)
    requires base == "about"
    ensures "/" + base + HtmlExt == "/about.html"
  {
    assert |"/" + base + HtmlExt| == 11;
  }

  /** A directory index links to the directory. */
  lemma BlogIndexLink(rel: string)
    requires rel == "blog/index.ejs"
    ensures Link(rel) == "/blog"
  {
    var prefix := rel[..5];
    assert rel == prefix + "index" + PageExt;
    SpellBlog(prefix);
    NoDotNoExt(prefix);
    LinkOfIndexPage(prefix);
  }

  /** The directory prefix of `blog/index.ejs`: no `.`, and its link spelled out. */
  lemma SpellBlog(prefix: string)
    requires prefix == "blog/"
    ensures '.' !in prefix
    ensures "/" + StripSuffix(prefix, "/") == "/blog"
  {
    assert prefix == "blog" + "/";
  }

  /** A nested page keeps its directory in both its output file and its link. */
  lemma BlogPostPaths(outDir: string, base: string)
    requires base == "blog/post-one"
    ensures Link(base + PageExt) == "/" + base + HtmlExt
    ensures OutputFilename(outDir, base + PageExt) == outDir + "/" + base + HtmlExt
  {
    if EndsWith(base, "index") {
      EndsWithLast(base, "index");
    }
    LinkOfPlainPage(base);
    HtmlPathOfPlainName(base);
  }

  /** The `index.html` cut is not at a segment boundary: `myindex.ejs` links to "/my". */
  lemma MyIndexLink(rel: string)
    requires rel == "myindex.ejs"
    ensures Link(rel) == "/my"
  {
    var prefix := "my";
    assert rel == prefix + "index" + PageExt;
    NoDotNoExt(prefix);
    LinkOfIndexPage(prefix);
    if EndsWith(prefix, "/") {
      EndsWithLast(prefix, "/");
    }
  }

  /**
   * A directory whose name ends in `.ejs` takes the rewrite instead of the
   * file: `x.ejs/index.ejs` is written to `x.html/index.ejs` and linked as
   * such, a link that still carries the page extension.
   */
  lemma DirectoryTakesRewrite(dir: string, file: string)
    requires '.' !in dir
    ensures HtmlPath(dir + PageExt + "/" + file) == dir + HtmlExt + "/" + file
  {
    var rel := dir + PageExt + "/" + file;
    var n := |dir|;
    forall j | 0 <= j < n
      ensures rel[j] != '.' || rel[j + 1] != 'e'
    {
      assert rel[j] == dir[j];
    }
    assert rel[n..n + 4] == PageExt;
    FirstExtAt(rel, n);
    assert rel[..n] == dir;
    assert rel[n + 4..] == "/" + file;
  }

  /** ... and the link keeps that path, `.ejs` and all, when the file is a page. */
  lemma DirectoryTakesRewriteLink(dir: string, file: string)
    requires '.' !in dir && EndsWith(file, PageExt)
    ensures Link(dir + PageExt + "/" + file) == "/" + (dir + HtmlExt + "/" + file)
  {
    var rel := dir + PageExt + "/" + file;
    var h := dir + HtmlExt + "/" + file;
    DirectoryTakesRewrite(dir, file);
    EndsWithConcat(dir + HtmlExt + "/", file);
    LinkKeepsExtension(h, file);
    LinkOfRewritten(rel, h);
  }

  lemma EndsWithConcat(a: string, b: string)
    ensures EndsWith(a + b, b)
  {
    assert (a + b)[|a + b| - |b|..] == b;
  }

  /** The link of a path is the link of its rewritten form. */
  lemma LinkOfRewritten(rel: string, h: string)
    requires HtmlPath(rel) == h
    ensures Link(rel) == LinkOf(h)
  {
  }

  /** A rewritten path that still ends in `.ejs` is linked unchanged. */
  lemma LinkKeepsExtension(h: string, file: string)
    requires EndsWith(file, PageExt) && EndsWith(h, file)
    ensures LinkOf(h) == "/" + h
  {
    EndsWithLast(file, PageExt);
    EndsWithLast(h, file);
    if EndsWith(h, IndexHtml) {
      EndsWithLast(h, IndexHtml);
    }
    if EndsWith(h, "/") {
      EndsWithLast(h, "/");
    }
  }

  lemma DirectoryExtensionRewritten(outDir: string, dir: string, file: string)
    requires dir == "x" && file == "index.ejs"
    ensures OutputFilename(outDir, dir + PageExt + "/" + file) == outDir + "/" + (dir + HtmlExt + "/" + file)
    ensures Link(dir + PageExt + "/" + file) == "/" + (dir + HtmlExt + "/" + file)
  {
    EndsWithConcat("index", PageExt);
    DirectoryTakesRewrite(dir, file);
    DirectoryTakesRewriteLink(dir, file);
  }

  /**
   * Two different pages can be written to the same file: with `d` and `m`
   * free of '.', `d.ejs/m.html/f` and `d.html/m.ejs/f` both rewrite to
   * `d.html/m.html/f`.
   */
  lemma OutputCollision(outDir: string, d: string, m: string, f: string)
    requires '.' !in d && '.' !in m
    ensures var p := d + PageExt + "/" + m + HtmlExt + "/" + f;
            var q := d + HtmlExt + "/" + m + PageExt + "/" + f;
            p != q && OutputFilename(outDir, p) == OutputFilename(outDir, q)
  {
    var p := d + PageExt + "/" + m + HtmlExt + "/" + f;
    var q := d + HtmlExt + "/" + m + PageExt + "/" + f;
    FirstDirCollides(d, m, f);
    SecondDirCollides(d, m, f);
    assert p[|d| + 1] != q[|d| + 1];
  }

  /** `d.ejs/m.html/f` rewrites to `d.html/m.html/f`. */
  lemma FirstDirCollides(d: string, m: string, f: string)
    requires '.' !in d
    ensures HtmlPath(d + PageExt + "/" + m + HtmlExt + "/" + f) == d + HtmlExt + "/" + m + HtmlExt + "/" + f
  {
    var s := d + PageExt + "/" + m + HtmlExt + "/" + f;
    var n := |d|;
    forall j | 0 <= j < n
      ensures s[j] != '.' || s[j + 1] != 'e'
    {
      assert s[j] == d[j];
    }
    assert s[n..n + 4] == PageExt;
    FirstExtAt(s, n);
    assert s[..n] == d;
    assert s[n + 4..] == "/" + m + HtmlExt + "/" + f;
  }

  /** `d.html/m.ejs/f` rewrites to `d.html/m.html/f`. */
  lemma SecondDirCollides(d: string, m: string, f: string)
    requires '.' !in d && '.' !in m
    ensures HtmlPath(d + HtmlExt + "/" + m + PageExt + "/" + f) == d + HtmlExt + "/" + m + HtmlExt + "/" + f
  {
    var a := d + HtmlExt + "/" + m;
    var s := d + HtmlExt + "/" + m + PageExt + "/" + f;
    var n := |a|;
    forall j | 0 <= j < n
      ensures s[j] != '.' || s[j + 1] != 'e'
    {
      if j < |d| {
        assert s[j] == d[j];
      } else if j == |d| {
        assert s[j + 1] == 'h';
      } else if j < |d| + 6 {
        assert s[j] == (HtmlExt + "/")[j - |d|];
      } else {
        assert s[j] == m[j - |d| - 6];
      }
    }
    assert s[n..n + 4] == PageExt;
    FirstExtAt(s, n);
    assert s[..n] == a;
    assert s[n + 4..] == "/" + f;
  }

  /** An occurrence of `.ejs` with no ".e" before it is the first one. */
  lemma FirstExtAt(s: string, n: nat)
    requires n + 4 <= |s| && s[n..n + 4] == PageExt
    requires forall j :: 0 <= j < n ==> s[j] != '.' || s[j + 1] != 'e'
    ensures FirstOccurrence(s, PageExt, n)
  {
    forall j | 0 <= j < n
      ensures !OccursAt(s, PageExt, j)
    {
      if s[j] != '.' {
        NotOccursAtMismatch(s, PageExt, j, 0);
      } else {
        NotOccursAtMismatch(s, PageExt, j, 1);
      }
    }
  }

  /** No empty path segment: no leading, trailing or doubled '/'. */
  predicate NoEmptySegment(s: string) {
    && s != []
    && s[0] != '/'
    && s[|s| - 1] != '/'
    && NoDoubleSlash(s)
  }

  predicate NoDoubleSlash(s: string) {
    forall i :: 0 <= i < |s| - 1 ==> s[i] != '/' || s[i + 1] != '/'
  }

  /** Splicing `.html` over the four characters at `i` neither creates an empty segment nor a trailing '/'. */
  lemma SpliceKeepsSegments(rel: string, i: nat)
    requires NoEmptySegment(rel) && i + 4 <= |rel|
    ensures var h := rel[..i] + HtmlExt + rel[i + 4..]; NoDoubleSlash(h) && h[|h| - 1] != '/'
  {
    var h := rel[..i] + HtmlExt + rel[i + 4..];
    forall p | 0 <= p < |h| - 1
      ensures h[p] != '/' || h[p + 1] != '/'
    {
      if p + 1 < i {
        assert h[p] == rel[p] && h[p + 1] == rel[p + 1];
      } else if p + 1 < i + 5 {
        assert h[p + 1] == HtmlExt[p + 1 - i];
      } else if p == i + 4 {
        assert h[p] == 'l';
      } else {
        assert h[p] == rel[p - 1] && h[p + 1] == rel[p];
      }
    }
    if i + 4 == |rel| {
      assert h[|h| - 1] == 'l';
    } else {
      assert h[|h| - 1] == rel[|rel| - 1];
    }
  }

  /** Rewriting the extension neither creates an empty segment nor a trailing '/'. */
  lemma HtmlPathKeepsSegments(rel: string)
    requires NoEmptySegment(rel)
    ensures var h := HtmlPath(rel); h != [] && NoDoubleSlash(h) && h[|h| - 1] != '/'
  {
    if Occurs(rel, PageExt) {
      var i := IndexOf(rel, PageExt);
      SpliceKeepsSegments(rel, i);
    }
  }

  /** A path without doubled or trailing '/' links to "/" or to something not ending in '/'. */
  lemma LinkOfNoTrailingSlash(h: string)
    requires NoDoubleSlash(h) && (h == [] || h[|h| - 1] != '/')
    ensures LinkOf(h) == "/" || LinkOf(h)[|LinkOf(h)| - 1] != '/'
  {
    var u := StripSuffix(h, IndexHtml);
    var v := StripSuffix(u, "/");
    assert u == h[..|u|];
    if v != [] {
      assert v == u[..|v|];
      if EndsWith(u, "/") {
        assert v[|v| - 1] == h[|u| - 2];
        assert h[|u| - 1] == '/';
      } else {
        assert u != [] ==> u[|u| - 1] != '/';
      }
    }
  }

  /** Apart from the root "/", no link ends with '/'. */
  lemma LinkNoTrailingSlash(rel: string)
    requires NoEmptySegment(rel)
    ensures var link := Link(rel); link == "/" || link[|link| - 1] != '/'
  {
    HtmlPathKeepsSegments(rel);
    LinkOfNoTrailingSlash(HtmlPath(rel));
  }
}
