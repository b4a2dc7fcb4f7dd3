# sitemill: a verified model of the page pipeline

sitemill is a small static-site generator. It walks a `pages` directory
and treats every file whose name ends in `.ejs` as a page. Each page can
open with a `<%# { ...json... } %>` frontmatter block. The generator
merges that block over default page metadata (`link`, `type`, `title`),
derives the page's output file and site link, collects the pages whose
merged `type` is `blog` into a blog list sorted newest first, and renders
every page through EJS into the output directory. `build()` reports the
number of pages and the sorted blog list.

This project models that pipeline in Dafny and proves its properties.
The modules mirror the steps of `build()` in `index.js`:

- `Strings` (`strings.dfy`): the JavaScript string operations the pipeline relies on.
  - `trim`, with the ECMAScript whitespace set.
  - `startsWith` and `endsWith`.
  - `indexOf`, which returns -1 when the pattern is absent.
  - `substring`, which swaps its bounds when they are in the wrong order.
  - `replace` with a string pattern, which rewrites the first occurrence only.
  - `replace` with an end-anchored regular expression.
  - The `<` order on strings.
- `Json` (`json.dfy`): parsed JSON values.
  - JavaScript truthiness, which is what `||` tests.
  - What object spread `{ ...v }` copies from each kind of value.
- `Frontmatter` (`frontmatter.dfy`): `parseFrontmatter`. `JSON.parse` is a parameter that returns `None` where it would throw.
- `Links` (`links.dfy`): the `.ejs` → `.html` rewrite, the output file name and the page link.
- `Walk` (`walk.dfy`): `walk`, a depth-first listing over an in-memory directory tree.
  - The method carries the accumulator exactly as the source does.
  - The `Flatten` function specifies it.
  - A path is its list of names below the pages directory.
- `Pages` (`pages.dfy`): one page record, the metadata merge, and the collection loop that fills `fileMap` and `blogs`.
  - The loop is the method `Collect`.
  - It is proved against `MapOf`, `KeyOrder` and `BlogsOf` of the page sequence `PagesOf`.
- `BlogIndex` (`blogs.dfy`): the blog comparator, and `Array.prototype.sort` as a stable in-place insertion sort on an array.
  - `Sort` is proved against the function `SortBy`.
  - The sort's order, permutation and stability are proved about `SortByDate`.
- `Build` (`build.dfy`): `build()` as one method.
  - It runs the walk, the collection loop, the sort and the render of every page.
  - It reports the page count and the sorted blogs.
  - `readFile`, `JSON.parse` and `ejs.render` are function parameters.

`Object.values(fileMap)` and `Object.keys(fileMap)` follow insertion
order. Every key is an absolute path containing '/', so no key is an
array index. JavaScript would move index keys to the front. Here the
order of first insertion is therefore exact, and `KeyOrder` models it.

## Model

| member | source | states |
|---|---|---|
| Json.Spread | index.js:79-84 | `{ ...v }` copies an object's fields. It copies nothing from null, a boolean or a number. A string or an array contributes only decimal index keys. |
| Json.Indexed | index.js:83 | Spreading an array-like value yields only index keys, and none for an empty one. |
| Json.IndexKey | index.js:83 | An element's property key is a decimal index key. |
| Strings.SkipSpace | index.js:28 | The index of the first non-whitespace character at or after a position, or the length when there is none: everything skipped is whitespace. |
| Strings.SkipSpaceBack | index.js:28 | The mirror image of SkipSpace, scanning back from a position. |
| Strings.Trim | index.js:28 | `trim()` yields a slice of the input with only whitespace around it, and it neither starts nor ends with whitespace. |
| Strings.TrimIdempotent | index.js:28 | Trimming twice is trimming once. |
| Strings.IndexOfFrom | index.js:30 | The search from an index returns the first occurrence at or after it, or -1 when there is none. |
| Strings.IndexOf | index.js:30 | `indexOf` is -1 exactly when the pattern does not occur. Otherwise it is the first occurrence. |
| Strings.Substring | index.js:32 | `substring(a, b)` is the slice `s[a..b]` when `a <= b` and the slice `s[b..a]` when the bounds are in the wrong order; its length is `abs(b - a)`. |
| Strings.ReplaceFirst | index.js:75-76 | A string-pattern `replace` leaves a string without the pattern unchanged. Otherwise it splices the replacement over the FIRST occurrence only. |
| Strings.StripSuffix | index.js:76 | `replace(/x$/, '')` removes `x` only when the string ends with it. |
| Strings.StrLessIrreflexive | index.js:96-97 | No string is `<` itself. |
| Strings.StrLessTransitive | index.js:96-97 | String `<` is transitive. |
| Strings.StrLessTotal | index.js:96-97 | Of two different strings, one is `<` the other. |
| Strings.StrLessAsymmetric | index.js:96-97 | String `<` never holds both ways. |
| Frontmatter.ParseFrontmatter | index.js:27-41 | The result is `{}` when the trimmed text does not start with `<%#` or contains no `%>`. Otherwise the parser receives exactly the trimmed text between index 3 and the first `%>`, and a parse failure gives `{}`. |
| Frontmatter.OpenerHidesCloser | index.js:29-32 | The first `%>` of a text starting with `<%#` is at index 3 or later. So `substring(3, endIndex)` never swaps its bounds. |
| Frontmatter.TrimKeepsPrefix | index.js:28-29 | Trimming keeps a prefix that neither starts nor ends with whitespace. |
| Frontmatter.CloserAfterBlock | index.js:29-32 | In `<%#` + body + `%>` + rest, where the body has no `%>`, the first `%>` follows the body, and the body is what lies between the markers. |
| Frontmatter.RecoversBlock | index.js:32-34 | A block whose body has no `%>` is recovered whole: the result is the parser's value on the trimmed body, or `{}` if parsing fails. |
| Links.OutputFilename | index.js:75 | The output file is the output directory, then '/', then the rewritten relative path. |
| Links.LinkOf | index.js:76 | A link built from a rewritten path starts with '/'. |
| Links.Link | index.js:76 | Every page link starts with '/'. |
| Links.LinkFallbackUnused | index.js:76-80 | `link \|\| '/'` is always `link`: the fallback never applies. |
| Links.LinkIsOutputPathPrefix | index.js:75-76 | The link is '/' plus the output path below the output directory. At most a trailing `index.html` and the '/' before it are cut off. |
| Links.LinkOfIsPrefix | index.js:76 | For any rewritten path, the link is '/' plus that path, possibly minus a trailing '/', `index.html` or `/index.html`. |
| Links.HtmlPathOfPlainName | index.js:75 | A name whose only '.' belongs to its `.ejs` extension gets that extension rewritten to `.html`. |
| Links.IndexHtmlSuffix | index.js:76 | `base.html` ends in `index.html` only when `base` ends in `index`. |
| Links.LinkOfPlainHtml | index.js:76 | A `.html` path whose base does not end in `index` is linked unchanged. |
| Links.LinkOfIndexHtml | index.js:76 | A path ending in `index.html` links to what precedes it, minus one trailing '/'. |
| Links.LinkOfPlainPage | index.js:75-76 | `name.ejs` links to `/name.html` when the name has no '.' and does not end in `index`. |
| Links.LinkOfIndexPage | index.js:75-76 | `prefix + index.ejs` links to '/' followed by `prefix` with one trailing '/' removed, whenever `prefix` contains no `.ejs`. Dotted directories such as `v1.2/index.ejs` → `/v1.2` are included. |
| Links.IndexPageHtmlPath | index.js:75 | `prefix + index.ejs` is rewritten to `prefix + index.html` whenever `prefix` contains no `.ejs`, because the page's own extension is then the first `.ejs`. |
| Links.RootIndexLink | index.js:76-80 | `index.ejs` links to `/`. |
| Links.AboutLink | index.js:76 | `about.ejs` links to `/about.html`. |
| Links.BlogIndexLink | index.js:76 | `blog/index.ejs` links to `/blog`. |
| Links.BlogPostPaths | index.js:75-76 | `blog/post-one.ejs` is written to `<out>/blog/post-one.html` and linked as `/blog/post-one.html`. |
| Links.MyIndexLink | index.js:76 | The `index.html` cut is anchored to the end of the string, not to a path segment, so `myindex.ejs` links to `/my`. |
| Links.DirectoryTakesRewrite | index.js:75 | In `x.ejs/f`, the directory's `.ejs` is the one rewritten, not the file's. |
| Links.DirectoryTakesRewriteLink | index.js:76 | Such a page keeps `.ejs` in its link. |
| Links.LinkKeepsExtension | index.js:76 | A rewritten path that still ends in `.ejs` is linked unchanged. |
| Links.OutputCollision | index.js:75 | Two different pages can have the same output file: when `d` and `m` contain no '.', `d.ejs/m.html/f` and `d.html/m.ejs/f` are distinct paths that both get `<out>/d.html/m.html/f`. |
| Links.DirectoryExtensionRewritten | index.js:75-76 | `x.ejs/index.ejs` is written to `<out>/x.html/index.ejs` and linked as `/x.html/index.ejs`. |
| Links.HtmlPathKeepsSegments | index.js:75 | Rewriting the extension of a path without empty segments creates no doubled or trailing '/'. |
| Links.LinkOfNoTrailingSlash | index.js:76 | A path without a doubled or trailing '/' links to "/" or to something not ending in '/'. |
| Links.LinkNoTrailingSlash | index.js:76 | Apart from the root "/", no link ends with '/'. |
| Walk.Walk | index.js:14-25 | `walk(dir, fileList)` returns `fileList` followed by the flattening of the listing. Each subdirectory's files are spliced in at the directory's place. |
| Walk.FlattenSound | index.js:14-25 | Every walked path lies below the walked directory and names a file of the tree. |
| Walk.FlattenComplete | index.js:14-25 | Every file of the tree is walked. |
| Walk.FlattenDistinct | index.js:14-25 | In a tree with unique names per directory, no file is walked twice. |
| Walk.FileIsNotDir | index.js:18-21 | A walked path never names a directory. |
| Walk.JoinPathSegments | index.js:17-21 | A joined path of valid names has no empty segment. It contains '/' exactly when it has several names. |
| Walk.JoinPathInjective | index.js:17-21 | Different paths of valid names join to different strings. |
| Walk.FlattenValid | index.js:14-25 | In a well-formed tree every walked path consists of valid names. |
| Pages.DefaultTitle | index.js:82 | `config.title \|\| ''` is the site title when that is truthy, and "" otherwise. |
| Pages.PageConfig | index.js:79-84 | The merged metadata has the keys link, type and title plus every spread frontmatter key. Every frontmatter key overrides its default, and each default is kept otherwise. |
| Pages.NonObjectKeepsDefaults | index.js:79-84 | Frontmatter that is not an object (e.g. `42`) replaces no default. |
| Pages.NoFrontmatterGivesDefaults | index.js:79-84 | A page with no usable frontmatter has exactly the default metadata. |
| Pages.MakePage | index.js:73-86 | A page record carries the full file name of its walked path. |
| Pages.BuilderNamesPages | index.js:73-86 | The page builder names each record after its file. |
| Pages.PagesOf | index.js:70-71 | There are no more pages than walked files. |
| Pages.PagesOfMembers | index.js:70-87 | A record is a page exactly when it is built from a walked file whose name ends in `.ejs`. |
| Pages.PagesArePageFiles | index.js:71 | Only `.ejs` files become pages. |
| Pages.PageFiles | index.js:71 | A path is kept exactly when it is walked and its file name ends in `.ejs`. |
| Pages.PagesOfPageFiles | index.js:70-86 | The pages are the records of the `.ejs` files, one each, in walk order. |
| Pages.FileNames | index.js:86 | Lists the file name of each page, in order. |
| Pages.MapOf | index.js:87 | `fileMap`'s keys are exactly the pages' file names. |
| Pages.KeyOrder | index.js:87-119 | The key order has exactly `fileMap`'s keys. |
| Pages.KeyOrderDistinct | index.js:87-119 | No key repeats, so `Object.keys(fileMap).length` is the number of distinct keys. |
| Pages.MapOfDistinct | index.js:87-119 | With distinct file names: one key per page, the key order is the walk order, and each key maps to its page. |
| Pages.BlogsOf | index.js:89-91 | The blog list holds exactly the pages whose merged type is 'blog', and no more of them than there are pages. |
| Pages.BlogByFrontmatter | index.js:79-91 | A page is a blog exactly when its frontmatter sets `type` to "blog". |
| Pages.CollectStep | index.js:86-91 | One loop iteration: the key is overwritten in `fileMap`, appended to the key order only when it is new, and the record is pushed on `blogs` when it is a blog. |
| Pages.Collect | index.js:66-92 | The collection loop produces `fileMap`, its key order and `blogs` for the page files among the walked files. |
| Pages.FileNamesDistinct | index.js:70-87 | Distinct walked paths of valid names give distinct `fileMap` keys. |
| Pages.FileNameInjective | index.js:70-74 | Two valid paths with the same full file name are the same path. |
| BlogIndex.LaterIrreflexive | index.js:95-99 | No date is later than itself. |
| BlogIndex.LaterAsymmetric | index.js:95-99 | No two dates are each later than the other. |
| BlogIndex.Compare | index.js:95-99 | The comparator returns -1 when a's date is later, 1 when b's is later, and 0 when neither is. |
| BlogIndex.Insert | index.js:95 | Inserting adds exactly one element: the result is a permutation of the input plus it. |
| BlogIndex.SortBy | index.js:95 | Sorting is a permutation. |
| BlogIndex.SortByDate | index.js:95-99 | The sorted blog list is a permutation of the blog list. |
| BlogIndex.NotLaterTransitive | index.js:95-99 | On dates that are all strings or all numbers, "not later" is transitive. |
| BlogIndex.InsertSorted | index.js:95-99 | Inserting into a newest-first list keeps it newest first. |
| BlogIndex.SortByDateSorted | index.js:95-99 | When every date is a string, or every date is a number, the sorted list is newest first. |
| BlogIndex.WithDate | index.js:95-99 | Keeps exactly the pages with the given date. |
| BlogIndex.InsertStable | index.js:95-99 | Insertion keeps the relative order of pages with equal dates. |
| BlogIndex.SortByDateStable | index.js:95-99 | The sort is stable: pages with equal dates keep their discovery order. |
| BlogIndex.SortedBlogsAreBlogs | index.js:89-99 | The sorted list is a permutation of `blogs` and holds exactly the pages whose type is 'blog'. |
| BlogIndex.Sort | index.js:95 | The in-place sort leaves the array holding `SortBy` of its old contents. |
| BlogIndex.InsertLast | index.js:95 | One insertion step moves `a[i]` into the sorted prefix `a[..i]` and leaves the rest in place. |
| BlogIndex.SortBySnoc | index.js:95 | Sorting a list with one more element is inserting that element into the sorted list. |
| Build.Outputs | index.js:102-114 | One output per `fileMap` key, in key order. Each is the page's output file and its text rendered with the site config, the two directories with a trailing '/', the page's metadata and the sorted blogs. |
| Build.BuildWith | index.js:43-123 | For any builder that names records after their files, the build reports the sorted blog list and the number of `fileMap` keys, and renders every key's page. |
| Build.Build | index.js:43-123 | The same, for the pages built by reading, parsing and merging each walked `.ejs` file. |
| Build.WellFormedSite | index.js:70-119 | For a file system with unique names per directory, `pageCount` is the number of walked `.ejs` files. Every page is rendered exactly once, in walk order. |

## Left out

- File-system effects are not modelled:
  - removing and re-creating the output directory;
  - the static copy and its swallowed error;
  - `mkdirpSync`;
  - `writeFile`.

  `readFile` is the parameter `read`. The written files are the returned `Output` sequence.
- `fsp.readdir` and `fsp.stat` are replaced by an in-memory tree (`Walk.Entry`). The listing order is the order of the tree's entries.
- `path.resolve` and `path.relative` are not modelled. A walked path is its list of names below the pages directory. The full file name is the pages directory, '/' and those names joined with '/'.
- `JSON.parse` is not re-implemented. It is the parameter `parse`, with `None` standing for a thrown error.
- `ejs.render` is not re-implemented. It is the parameter `render`.
- The `Promise.all` fan-out and the concurrency of the writes are not modelled; the pages are rendered in key order. So is the order in which two pages with the same output file are written, which only concurrency decides (e.g. `a.ejs/b.html/c.ejs` and `a.html/b.ejs/c.ejs`, which both go to `<out>/a.html/b.html/c.ejs`; see `Links.OutputCollision`).
- The ways `build()` can reject are not modelled; in the model `read` and `render` are total and `Build` always returns its outputs. These rejections are:
  - `fsp.readdir` or `fsp.stat` failing in `walk`, for instance because the pages directory is missing (index.js:15-17);
  - `fsp.readFile` failing on a page (index.js:73);
  - `ejs.render` throwing inside `.map(render)` (index.js:103-114), which stops the remaining renders after earlier pages' `mkdirpSync` and `writeFile` have already started (index.js:110-111).
- `Date.now`, the `elapsed` field of the result and `console.log` are not modelled.
- `serve`, `cli.js` and the `defaultOptions` merge are not modelled.
- Characters are Dafny `char`s, not UTF-16 code units. JSON numbers are reals.
- BlogIndex.Later: a date compared with a date of another type (a string against a number, or anything against an object, array or boolean) is treated as incomparable. JavaScript would coerce the operands and might order them. With only string dates, only number dates, or missing dates, the model is exact.
- BlogIndex.Sort: modelled as a stable insertion sort. The engine's own algorithm is not modelled. For a consistent comparator both give the same result, because the sort is stable. Nothing is claimed about the result under an inconsistent comparator, such as mixed date types.
- BlogIndex.SortByDateSorted: ordering is proved only when the dates are all strings or all numbers. A missing date compares equal to everything, so the comparator is then not a consistent order.
